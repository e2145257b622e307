/** Machine-learning suitability: tiered warnings driven only by the smallest
    number of distinct days observed at any station. */
module MlSuitability {

  datatype MlWarning = LimitedSeasonal | NoMonthlyPatterns | VeryShortTerm
  {
    /** A table triggers the warning when its minimum days per location is
        below this many days. */
    function Threshold(): int
    {
      match this
      case LimitedSeasonal => 365
      case NoMonthlyPatterns => 30
      case VeryShortTerm => 7
    }

    function Message(): string
    {
      match this
      case LimitedSeasonal =>
        "Some locations have less than 1 year of data - limited seasonal patterns"
      case NoMonthlyPatterns =>
        "Some locations have less than 30 days of data - not suitable for monthly patterns"
      case VeryShortTerm =>
        "Some locations have less than 7 days of data - only suitable for very short-term predictions"
    }
  }

  datatype Suitability = Suitability(
    warnings: seq<MlWarning>,
    recommendedForMl: bool,
    minDaysPerLocation: int)

  /** The assessment for a table whose least-covered station has `minDays`
      distinct days: exactly the tiers whose threshold exceeds `minDays`
      are reported, from the longest horizon to the shortest, and the table
      is recommended exactly when it has at least 30 days everywhere. */
  function Assess(minDays: int): (s: Suitability)
    ensures forall w :: w in s.warnings <==> minDays < w.Threshold()
    ensures forall i, j :: 0 <= i < j < |s.warnings| ==>
              s.warnings[i].Threshold() > s.warnings[j].Threshold()
    ensures s.recommendedForMl <==> minDays >= 30
    ensures s.recommendedForMl ==> |s.warnings| <= 1
    ensures s.minDaysPerLocation == minDays
  {
    var w1 := if minDays < 365 then [LimitedSeasonal] else [];
    var w2 := if minDays < 30 then [NoMonthlyPatterns] else [];
    var w3 := if minDays < 7 then [VeryShortTerm] else [];
    Suitability(w1 + w2 + w3, minDays >= 30, minDays)
  }

  /** The tiers are nested: a shorter-horizon warning always comes with
      every longer-horizon one. */
  lemma WarningsNested(minDays: int, w: MlWarning, w': MlWarning)
    requires w in Assess(minDays).warnings
    requires w.Threshold() <= w'.Threshold()
    ensures w' in Assess(minDays).warnings
  {
  }

  lemma SixDaysWarnsAllTiers()
    ensures Assess(6).warnings == [LimitedSeasonal, NoMonthlyPatterns, VeryShortTerm]
    ensures !Assess(6).recommendedForMl
  {
  }

  lemma HundredDaysWarnsSeasonalOnly()
    ensures Assess(100).warnings == [LimitedSeasonal]
    ensures Assess(100).recommendedForMl
  {
  }

  lemma FullYearHasNoWarnings(minDays: int)
    requires minDays >= 365
    ensures Assess(minDays).warnings == []
    ensures Assess(minDays).recommendedForMl
  {
  }
}
