# Weather data analysis, modelled in Dafny

This project models the analysis pipeline of `analyze_weather_data` in
`weather_data_analysis_prediction.py`. The function takes a table of weather
observations. Each row has a date, a city, a station position (latitude,
longitude), the current, minimum and maximum temperature in kelvin, pressure,
humidity, wind speed and a text description. The function produces seven
report sections; the model covers six of them:

1. **Temporal coverage** (`Temporal`): the earliest and latest date. For each
   station and for each city, it counts the distinct dates observed. It then
   summarises those counts as a minimum, a maximum and a median truncated to
   an integer.
2. **Minimum-days gate** (`Analysis`): if a non-zero `min_days` is given and
   some station has fewer distinct days than that, the analysis stops with no
   result.
3. **Spatial coverage** (`Spatial`): the number of distinct cities, and a map
   from each city seen at two or more stations to its station count.
4. **Data quality** (`Quality`): the number of rows whose temperature lies
   outside its own [min, max] range.
5. **Weather patterns** (`Patterns`): how often each description occurs.
6. **ML suitability** (`MlSuitability`): three nested threshold warnings
   (365, 30 and 7 days) and a recommendation flag.
7. **Temperature distribution** (`Distribution`): quartiles by linear
   interpolation and Tukey fences at 1.5 interquartile ranges. The rows
   strictly outside the fences are reported in table order. Each is labelled
   low or high and carries its distance to the fence it crosses.

Supporting modules:

- `Sequences`: the table operations the pipeline uses. These are
  distinct-value counting, selecting a group, projecting a column, minimum,
  maximum and occurrence counts.
- `Quantiles`: sorting and pandas' default linear quantile. It also holds
  Python's `int()`, which truncates toward zero.
- `Observations`: the row type.
- `Wrappers`: `Option` and `Result`.
- `Scenarios`: concrete tables whose results are proved exactly.

The model represents the data as follows:

- Temperatures and coordinates are exact `real`s.
- Dates are opaque integers. The analysis only compares them for equality and
  order.
- A table is a `seq<Observation>`.
- An empty table makes the program fail inside its catch-all handler and
  return nothing. That case is the `NoObservations` error.

With linear quartiles, readings of 290, 300, 310 and 330 K give Q1 = 297.5,
Q3 = 315 and an upper fence of 341.25 K, so 330 K is not an outlier
(`Scenarios.FourReadingsNoOutliers`).

The test for an inconsistent temperature has three clauses. For rows whose
three temperatures are present, the third, `temp_min > temp_max`, is implied
by the other two. Such a row is counted exactly when `temp` lies outside
[`temp_min`, `temp_max`], as `Quality.InconsistentIffOutOfBounds` proves.
With a missing `temp` the first two comparisons are false and the third
clause alone decides; missing values are not part of this model.

## Model

| member | source | states |
|---|---|---|
| Analysis.Analyze | weather_data_analysis_prediction.py:33-181 | Empty table ⇔ `NoObservations`. On a non-empty table it fails exactly when a non-zero `min_days` is given and some station has fewer distinct days. The failure carries the threshold and the per-station minimum, which some station attains. On success, the ML section reports the same per-station minimum and recommends iff every station has ≥ 30 days, inconsistencies ≤ rows, and outlier count = number of details. |
| Analysis.MinimumDecidesBelow | weather_data_analysis_prediction.py:62 | Given summary statistics of the per-station counts, some station is below n ⇔ the minimum is below n. |
| Analysis.GateDecided | weather_data_analysis_prediction.py:62-65 | The gate on the minimum rejects ⇔ a non-zero threshold is given and some station falls short of it. |
| Analysis.RecommendationDecided | weather_data_analysis_prediction.py:106-119 | The assessment of the minimum recommends the table ⇔ no station has fewer than 30 distinct days. |
| Analysis.CompletedAnalysis | weather_data_analysis_prediction.py:36-181 | A non-empty table whose stations all meet a given non-zero `min_days` is analysed to completion. Both day-count summaries are then attained by some group and bound every group. The city count is the number of distinct cities, the pattern counts sum to the row count, and fewer rows are outliers than the table holds. |
| Temporal.AnalyzeTemporal | weather_data_analysis_prediction.py:33-58 | The date range bounds every row's date and both ends are some row's date. The per-location and per-city statistics summarise the distinct-date counts of those groups, and equal the summary of those counts for every duplicate-free listing of the group keys, including `groupby`'s sorted one. |
| Temporal.GroupDayStats | weather_data_analysis_prediction.py:36-58 | The min and max are attained by some group and bound every group's distinct-date count, with 1 ≤ min ≤ median ≤ max ≤ row count. The same statistics result whichever order the groups are listed in. |
| Temporal.DateRangeOf | weather_data_analysis_prediction.py:33-46 | The start and end bound every row's date, and each is some row's date. |
| Temporal.ListingOrderFree | weather_data_analysis_prediction.py:36-58 | Every duplicate-free listing of exactly the group keys gives counts whose summary equals the summary of the first-appearance counts. |
| Temporal.SummarizeOrderFree | weather_data_analysis_prediction.py:48-57 | Two arrangements of the same counts have the same min, max and truncated median. |
| Temporal.CountsForPermutation | weather_data_analysis_prediction.py:36-39 | Rearranging the listed keys rearranges their counts: the two count lists are permutations of each other. |
| Temporal.DayCounts | weather_data_analysis_prediction.py:36-39 | There is a duplicate-free listing of exactly the group keys, as long as the counts, whose i-th key has the i-th count as its distinct-date count. So there is one count per group and each count appears with its multiplicity. |
| Temporal.CountsFor | weather_data_analysis_prediction.py:36-39 | One count per listed key: the i-th count is the distinct-date count of the i-th key. Every listed key's count appears, and every count belongs to some listed key. |
| Temporal.Summarize | weather_data_analysis_prediction.py:48-51 | The min and max are members of the counts and bound all of them. The truncated median lies between them. |
| Temporal.MedianOfOddCount | weather_data_analysis_prediction.py:51 | With 2m+1 groups the median is the m-th smallest count. |
| Temporal.MedianTruncated | weather_data_analysis_prediction.py:51 | Counts 1 and 2 give median 1: the 1.5 midpoint is truncated by `int()`. |
| Sequences.DistinctInGroup | weather_data_analysis_prediction.py:36-39 | A group's `nunique` is the size of its set of values, at most its row count, and at least 1 for a group that is present. |
| Sequences.GroupDistinctValues | weather_data_analysis_prediction.py:36-39 | The group's distinct values are exactly its value set, without duplicates, and no more numerous than the group's rows. |
| Sequences.Groups | weather_data_analysis_prediction.py:69 | The distinct keys, without duplicates, are exactly the keys that occur. |
| Sequences.Distinct | weather_data_analysis_prediction.py:69 | Same members as the input, no duplicates, no longer than the input. |
| Sequences.DistinctCount | weather_data_analysis_prediction.py:78 | The number of distinct values is the size of the value set, at most the length. |
| Spatial.AnalyzeSpatial | weather_data_analysis_prediction.py:69-80 | `total_cities` is the number of distinct city names. A city is in the map ⇔ it occurs at ≥ 2 distinct stations, and its value is that station count. |
| Spatial.MultiPointCities | weather_data_analysis_prediction.py:72-75 | Over the visited cities, a city is kept ⇔ it has more than one station, with its station count as the value. |
| Quality.InconsistentIffOutOfBounds | weather_data_analysis_prediction.py:85-89 | The three-clause test holds ⇔ temp lies outside [temp_min, temp_max]. |
| Quality.CountInconsistent | weather_data_analysis_prediction.py:85-93 | Count ≤ rows. Zero ⇔ every row is within bounds. Equal to the row count ⇔ no row is. |
| Quality.CountInconsistentExtend | weather_data_analysis_prediction.py:85-93 | Appending a consistent row leaves the count unchanged; appending an inconsistent one adds exactly one. |
| Quality.CountInconsistentConcat | weather_data_analysis_prediction.py:85-93 | The count of two concatenated tables is the sum of their counts. |
| Patterns.WeatherPatterns | weather_data_analysis_prediction.py:98 | Each description occurs once in the result, and every one present is listed. Each count is ≥ 1 and equals the description's multiplicity in the column. |
| Patterns.PatternCountsCoverRows | weather_data_analysis_prediction.py:98 | The counts sum to the number of rows. |
| MlSuitability.Assess | weather_data_analysis_prediction.py:107-121 | A warning is present ⇔ the minimum is below its threshold. Warnings are ordered 365, 30, 7. Recommended ⇔ minimum ≥ 30, and then at most one warning. |
| MlSuitability.WarningsNested | weather_data_analysis_prediction.py:110-115 | A shorter-horizon warning implies every longer-horizon one. |
| MlSuitability.SixDaysWarnsAllTiers | weather_data_analysis_prediction.py:110-119 | A minimum of 6 days gives all three warnings in order, and no recommendation. |
| MlSuitability.HundredDaysWarnsSeasonalOnly | weather_data_analysis_prediction.py:110-119 | A minimum of 100 days gives only the one-year warning, and is recommended. |
| MlSuitability.FullYearHasNoWarnings | weather_data_analysis_prediction.py:110-119 | A minimum of at least 365 days gives no warning, and is recommended. |
| Quantiles.Sort | weather_data_analysis_prediction.py:126-128 | The result is sorted and a permutation of the sample. |
| Quantiles.SortedUnique | weather_data_analysis_prediction.py:126-128 | Two sorted permutations of one sample are equal, so the quantiles do not depend on the sorting algorithm. |
| Quantiles.Quantile | weather_data_analysis_prediction.py:126-128 | The linear-interpolated quantile lies between the sample's minimum and maximum. |
| Quantiles.Interpolate | weather_data_analysis_prediction.py:126-128 | The value at a fractional position lies between the two neighbouring order statistics. |
| Quantiles.QuantileAtIndex | weather_data_analysis_prediction.py:126-128 | At a whole-number position the quantile is that order statistic. |
| Quantiles.QuantileMonotone | weather_data_analysis_prediction.py:126-128 | A larger p never gives a smaller quantile. |
| Quantiles.InterpolateMonotone | weather_data_analysis_prediction.py:126-128 | A later fractional position never gives a smaller value. |
| Quantiles.PositionMonotone | weather_data_analysis_prediction.py:126-128 | A larger p never gives an earlier position. |
| Quantiles.TruncToInt | weather_data_analysis_prediction.py:48-57 | `int()` truncates toward zero: for x ≥ 0 it rounds down by less than one, and for x < 0 it rounds up by less than one. |
| Quantiles.TruncWithin | weather_data_analysis_prediction.py:51 | Truncation keeps a value within any integer bounds that enclose it. |
| Distribution.TemperatureStatsOf | weather_data_analysis_prediction.py:125-134 | Q1 ≤ median ≤ Q3, IQR = Q3 − Q1 ≥ 0, and lower ≤ Q1 ≤ Q3 ≤ upper, with both fences 1.5·IQR from their quartiles. Some reading is ≤ Q1 and some is ≥ Q3. |
| Distribution.Classify | weather_data_analysis_prediction.py:142-165 | Low ⇔ temp < lower fence, otherwise high (above the upper fence). The deviation is positive and is the distance to the fence crossed. City, date and temperature are copied from the row. |
| Distribution.OutlierIndices | weather_data_analysis_prediction.py:137-140 | Increasing row positions: a position is listed ⇔ its temperature is strictly outside the fences. |
| Distribution.OutlierPositionsUnique | weather_data_analysis_prediction.py:137-140 | Any increasing list of exactly the outlier positions is the computed one, so table order is the only order. |
| Distribution.IncreasingUnique | weather_data_analysis_prediction.py:137-140 | Two strictly increasing lists with the same members are equal. |
| Distribution.OutlierDetails | weather_data_analysis_prediction.py:137-165 | There is a strictly increasing list of exactly the positions whose temperature is outside the fences, as long as the details, whose k-th position's row classifies to the k-th detail. |
| Distribution.OutlierCountIsRowCount | weather_data_analysis_prediction.py:137-178 | The number of details is the number of rows outside the fences. |
| Distribution.FewerOutliersThanRows | weather_data_analysis_prediction.py:137-140 | A non-empty table always has at least one row within its own fences, so fewer details than rows. |
| Distribution.SomeValueWithinFences | weather_data_analysis_prediction.py:125-140 | Every non-empty sample has a member that is not an outlier of its own fences. |
| Distribution.AnalyzeDistribution | weather_data_analysis_prediction.py:123-181 | The statistics are those of the temperature column. The details list exactly the outlying rows in table order, each classified, and the count equals the number of details. |
| Scenarios.ThreeReadingsQuartiles | weather_data_analysis_prediction.py:125-134 | For 290, 300 and 310 K: Q1 295, median 300, Q3 305, IQR 10, fences 280 and 320. |
| Scenarios.ThreeReadingsNoOutliers | weather_data_analysis_prediction.py:137-178 | Those three readings produce no outliers. |
| Scenarios.FourReadingsQuartiles | weather_data_analysis_prediction.py:125-134 | For 290, 300, 310 and 330 K: Q1 297.5, median 305, Q3 315, IQR 17.5, fences 271.25 and 341.25. |
| Scenarios.FourReadingsNoOutliers | weather_data_analysis_prediction.py:137-178 | Those four readings produce no outliers, since 330 K is below the 341.25 K upper fence. |
| Scenarios.TwoStationsSpatial | weather_data_analysis_prediction.py:69-80 | One city observed at two stations gives one city, mapped to 2. |
| Scenarios.FiveDaysGroups | weather_data_analysis_prediction.py:36 | A single station observed on five dates has five distinct days. |
| Scenarios.SingleStationBelow | weather_data_analysis_prediction.py:62-65 | A table with a single station of n distinct days, checked against a larger non-zero threshold t, fails reporting t and n. |
| Scenarios.FiveDaysBelowThirty | weather_data_analysis_prediction.py:62-65 | Five days with `min_days` 30 stops the analysis, reporting threshold 30 and minimum 5. |

## Left out

- Reading the CSV file and the catch-all exception handler
  (weather_data_analysis_prediction.py:19, 253-255) are I/O. The one error
  path that follows from the data, an empty table, is modelled as
  `NoObservations`.
- Parsing dates and formatting the date range with `strftime` (lines 33,
  44-45) are left out. Dates are opaque integers, and the range is reported
  as the least and greatest date.
- The mean of the per-group day counts (lines 50, 56) is left out. So are
  the `describe()` summary of the numeric columns (line 103) and every
  `round(..., 2)` (lines 164, 169-174). These are floating-point output
  formatting. The model keeps exact values.
- Missing-value counts (line 84) and NaN semantics are left out. Pandas
  drops rows with a missing group key and ignores NaN in `nunique` and
  `quantile`. The model assumes every field is present.
- Patterns.WeatherPatterns lists descriptions in order of first appearance.
  `value_counts` sorts by descending count with a library-defined tie order.
  The counts and the set of descriptions are modelled; the order is not.
- Temporal.DayCounts visits groups in order of first appearance, whereas
  `groupby` sorts the keys. Sorting the keys is not modelled;
  Temporal.ListingOrderFree proves instead that every listing of the keys,
  the sorted one included, gives the same minimum, maximum and median.
- The text report, the `print` calls, the choice between returning the
  results or the table (`output_format`, lines 183-251), argparse and JSON
  serialisation (lines 257-278) are all output and I/O.
- Analysis.Analyze returns the message-free error `TooFewDays` in place of
  the two printed lines of the gate (lines 63-64).
