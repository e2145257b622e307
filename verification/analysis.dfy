/** The whole analysis of one table: temporal coverage, the min-days gate,
    spatial coverage, data quality, weather patterns, ML suitability and the
    temperature distribution, gathered into one structured result. */
module Analysis {
  import opened Wrappers
  import opened Sequences
  import opened Observations
  import opened Temporal
  import opened Spatial
  import opened Quality
  import opened Patterns
  import opened MlSuitability
  import opened Distribution

  datatype AnalysisError =
      /** An empty table: the summary of zero groups has no minimum, the
          conversion to an integer raises, and the catch-all handler returns
          nothing. */
    | NoObservations
      /** Some station has fewer distinct days than the caller required. */
    | TooFewDays(required: int, observedMin: int)

  datatype AnalysisResult = AnalysisResult(
    temporal: TemporalAnalysis,
    spatial: SpatialAnalysis,
    quality: QualityReport,
    patterns: seq<PatternCount>,
    ml: Suitability,
    distribution: DistributionAnalysis)

  /** The gate `min_days and observed < min_days`: an absent or zero
      threshold never rejects. */
  predicate BelowMinimum(minDays: Option<int>, observedMin: int)
  {
    minDays.Some? && minDays.value != 0 && observedMin < minDays.value
  }

  /** Some station of `rows` has fewer than `n` distinct days. */
  ghost predicate SomeLocationBelow(rows: seq<Observation>, n: int)
  {
    exists l :: l in KeySet(rows, LocationOf) && DistinctDays(rows, LocationOf, l) < n
  }

  /** The per-location minimum decides whether some station is below a
      threshold. */
  lemma MinimumDecidesBelow(rows: seq<Observation>, st: DayStats, n: int)
    requires SummarizesGroups(st, rows, LocationOf)
    ensures SomeLocationBelow(rows, n) <==> st.min < n
  {
    if st.min < n {
      var l :| l in KeySet(rows, LocationOf) && DistinctDays(rows, LocationOf, l) == st.min;
    }
  }

  /** The gate on the per-location minimum rejects exactly when a non-zero
      threshold is given and some station falls short of it. */
  lemma GateDecided(rows: seq<Observation>, st: DayStats, minDays: Option<int>)
    requires SummarizesGroups(st, rows, LocationOf)
    ensures BelowMinimum(minDays, st.min) <==>
              minDays.Some? && minDays.value != 0 && SomeLocationBelow(rows, minDays.value)
  {
    if minDays.Some? {
      MinimumDecidesBelow(rows, st, minDays.value);
    }
  }

  /** The assessment of the per-location minimum recommends the table
      exactly when no station has fewer than 30 distinct days. */
  lemma RecommendationDecided(rows: seq<Observation>, st: DayStats)
    requires SummarizesGroups(st, rows, LocationOf)
    ensures Assess(st.min).recommendedForMl <==> !SomeLocationBelow(rows, 30)
  {
    MinimumDecidesBelow(rows, st, 30);
  }

  /** Runs the analysis, or fails with no partial result. */
  function Analyze(rows: seq<Observation>, minDays: Option<int>): (r: Result<AnalysisResult, AnalysisError>)
    ensures rows == [] <==> r == Failure(NoObservations)
    ensures rows != [] ==>
              (r.Failure? <==> minDays.Some? && minDays.value != 0 && SomeLocationBelow(rows, minDays.value))
    ensures r.Failure? && rows != [] ==>
              && r.error.TooFewDays?
              && r.error.required == minDays.value
              && (forall l :: l in KeySet(rows, LocationOf) ==>
                    r.error.observedMin <= DistinctDays(rows, LocationOf, l))
              && (exists l :: l in KeySet(rows, LocationOf) &&
                    r.error.observedMin == DistinctDays(rows, LocationOf, l))
    ensures r.Success? ==>
              && r.value.ml.minDaysPerLocation == r.value.temporal.daysPerLocation.min
              && (r.value.ml.recommendedForMl <==> !SomeLocationBelow(rows, 30))
              && r.value.quality.temperatureInconsistencies <= |rows|
              && r.value.distribution.outliers.count == |r.value.distribution.outliers.details|
  {
    if rows == [] then Failure(NoObservations)
    else
      var temporal := AnalyzeTemporal(rows);
      var observedMin := temporal.daysPerLocation.min;
      GateDecided(rows, temporal.daysPerLocation, minDays);
      RecommendationDecided(rows, temporal.daysPerLocation);
      if BelowMinimum(minDays, observedMin) then
        Failure(TooFewDays(minDays.value, observedMin))
      else
        var ml := Assess(observedMin);
        Success(AnalysisResult(
          temporal,
          AnalyzeSpatial(rows),
          AnalyzeQuality(rows),
          WeatherPatterns(rows),
          ml,
          AnalyzeDistribution(rows)))
  }

  /** A non-empty table whose stations all meet a given non-zero threshold
      is analysed to completion, and the result describes it: both day-count
      summaries are attained by some group and bound every group, the city
      count is the number of distinct cities, every row is counted under one weather pattern,
      and at least one row lies within the temperature fences. */
  lemma CompletedAnalysis(rows: seq<Observation>, minDays: Option<int>)
    requires rows != []
    requires minDays.Some? && minDays.value != 0 ==> !SomeLocationBelow(rows, minDays.value)
    ensures Analyze(rows, minDays).Success?
    ensures var a := Analyze(rows, minDays).value;
            && SummarizesGroups(a.temporal.daysPerLocation, rows, LocationOf)
            && SummarizesGroups(a.temporal.daysPerCity, rows, CityOf)
            && a.spatial.totalCities == |KeySet(rows, CityOf)|
            && Total(a.patterns) == |rows|
            && a.distribution.outliers.count < |rows|
  {
    var r := Analyze(rows, minDays);
    assert r.Success?;
    var temporal := AnalyzeTemporal(rows);
    assert !BelowMinimum(minDays, temporal.daysPerLocation.min);
    assert r.value.temporal == temporal;
    assert r.value.spatial == AnalyzeSpatial(rows);
    assert r.value.patterns == WeatherPatterns(rows);
    assert r.value.distribution == AnalyzeDistribution(rows);
    PatternCountsCoverRows(rows);
    FewerOutliersThanRows(rows);
  }
}
