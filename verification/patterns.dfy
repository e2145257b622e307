/** Weather patterns: how often each `description` occurs. */
module Patterns {
  import opened Sequences
  import opened Observations

  datatype PatternCount = PatternCount(description: string, count: nat)

  /** One entry per key of `keys`, counting its occurrences in `descs`. */
  function CountsOf(descs: seq<string>, keys: seq<string>): (ps: seq<PatternCount>)
    ensures |ps| == |keys|
    ensures forall i :: 0 <= i < |ps| ==> ps[i].description == keys[i]
    ensures forall i :: 0 <= i < |ps| ==> ps[i].count == multiset(descs)[keys[i]]
  {
    if |keys| == 0 then []
    else
      OccurrencesIsMultiplicity(descs, keys[0]);
      [PatternCount(keys[0], Occurrences(descs, keys[0]))] + CountsOf(descs, keys[1..])
  }

  function Total(ps: seq<PatternCount>): nat
  {
    if |ps| == 0 then 0 else ps[0].count + Total(ps[1..])
  }

  lemma {:induction false} TotalIsSumOfOccurrences(descs: seq<string>, keys: seq<string>)
    ensures Total(CountsOf(descs, keys)) == SumOccurrences(descs, keys)
  {
    if |keys| > 0 {
      TotalIsSumOfOccurrences(descs, keys[1..]);
      assert CountsOf(descs, keys)[1..] == CountsOf(descs, keys[1..]);
    }
  }

  /** `value_counts()` of the description column: each description present
      once, with the number of rows carrying it (at least one). */
  function WeatherPatterns(rows: seq<Observation>): (ps: seq<PatternCount>)
    ensures forall i, j :: 0 <= i < j < |ps| ==> ps[i].description != ps[j].description
    ensures forall i :: 0 <= i < |ps| ==> ps[i].description in KeySet(rows, DescriptionOf)
    ensures |ps| == |KeySet(rows, DescriptionOf)|
    ensures forall i :: 0 <= i < |ps| ==>
              1 <= ps[i].count == multiset(Project(rows, DescriptionOf))[ps[i].description]
  {
    var keys := Groups(rows, DescriptionOf);
    InElements(keys);
    assert forall i :: 0 <= i < |keys| ==> keys[i] in Project(rows, DescriptionOf) by {
      InElements(Project(rows, DescriptionOf));
    }
    CountsOf(Project(rows, DescriptionOf), keys)
  }

  /** Every row is counted under exactly one description. */
  lemma PatternCountsCoverRows(rows: seq<Observation>)
    ensures Total(WeatherPatterns(rows)) == |rows|
  {
    var descs := Project(rows, DescriptionOf);
    var keys := Groups(rows, DescriptionOf);
    TotalIsSumOfOccurrences(descs, keys);
    SumOccurrencesTotal(descs, keys);
  }
}
