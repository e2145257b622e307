/** Optional values and success/failure results, used where the analysis
    either takes an optional argument or returns nothing on failure. */
module Wrappers {

  datatype Option<+T> = None | Some(value: T)

  datatype Result<+R, +E> = Success(value: R) | Failure(error: E)
}
