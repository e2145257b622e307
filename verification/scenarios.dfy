/** Worked examples on small concrete tables. */
module Scenarios {
  import opened Wrappers
  import opened Sequences
  import opened Quantiles
  import opened Observations
  import opened Temporal
  import opened Spatial
  import opened Distribution
  import opened Analysis

  /** A reading whose minimum and maximum equal its temperature. */
  function Reading(date: int, city: string, lat: real, lon: real, temp: real): Observation
  {
    Observation(date, city, lat, lon, temp, temp, temp, 1013.0, 50.0, 3.0, "clear sky")
  }

  lemma SortOfThree()
    ensures Sort([290.0, 300.0, 310.0]) == [290.0, 300.0, 310.0]
  {
    var s := [290.0, 300.0, 310.0];
    assert Sorted(s);
    SortedUnique(Sort(s), s);
  }

  /** Three readings of 290, 300 and 310 K: quartiles 295, 300 and 305,
      fences 280 and 320. */
  lemma ThreeReadingsQuartiles()
    ensures TemperatureStatsOf([290.0, 300.0, 310.0])
              == TemperatureStats(295.0, 300.0, 305.0, 10.0, 280.0, 320.0)
  {
    var s := [290.0, 300.0, 310.0];
    SortOfThree();
    assert Position(0.25, 3) == 0.5 && 0.5.Floor == 0;
    assert Position(0.5, 3) == 1.0 && 1.0.Floor == 1;
    assert Position(0.75, 3) == 1.5 && 1.5.Floor == 1;
    assert Quantile(s, 0.25) == 295.0;
    assert Quantile(s, 0.5) == 300.0;
    assert Quantile(s, 0.75) == 305.0;
  }

  /** No row is reported when every temperature lies within the fences. */
  lemma NoOutliersWithinFences(rows: seq<Observation>, st: TemperatureStats)
    requires forall i :: 0 <= i < |rows| ==> !IsOutlier(rows[i].temp, st)
    ensures OutlierDetails(rows, st) == []
  {
    OutlierCountIsRowCount(rows, st);
    assert (set i | 0 <= i < |rows| && IsOutlier(rows[i].temp, st)) == {};
  }

  /** The same station and date read at 290, 300 and 310 K. */
  function ThreeReadings(): seq<Observation>
  {
    [Reading(1, "Oslo", 59.9, 10.7, 290.0),
     Reading(1, "Oslo", 59.9, 10.7, 300.0),
     Reading(1, "Oslo", 59.9, 10.7, 310.0)]
  }

  lemma ThreeReadingsTemps()
    ensures Project(ThreeReadings(), TempOf) == [290.0, 300.0, 310.0]
  {
    var temps := Project(ThreeReadings(), TempOf);
    assert temps[0] == 290.0 && temps[1] == 300.0 && temps[2] == 310.0;
  }

  lemma ThreeReadingsWithinFences(st: TemperatureStats)
    requires st.lowerBound == 280.0 && st.upperBound == 320.0
    ensures forall i :: 0 <= i < |ThreeReadings()| ==> !IsOutlier(ThreeReadings()[i].temp, st)
  {
    var rows := ThreeReadings();
    forall i | 0 <= i < |rows|
      ensures !IsOutlier(rows[i].temp, st)
    {
      assert i == 0 || i == 1 || i == 2;
    }
  }

  lemma ThreeReadingsNoOutliers()
    ensures AnalyzeDistribution(ThreeReadings()).outliers == Outliers(0, [])
  {
    var st := TemperatureStats(295.0, 300.0, 305.0, 10.0, 280.0, 320.0);
    ThreeReadingsTemps();
    ThreeReadingsQuartiles();
    ThreeReadingsWithinFences(st);
    NoOutliersWithinFences(ThreeReadings(), st);
  }

  /** The three readings above plus a fourth of 330 K. */
  function FourReadings(): seq<Observation>
  {
    ThreeReadings() + [Reading(1, "Oslo", 59.9, 10.7, 330.0)]
  }

  lemma SortOfFour()
    ensures Sort([290.0, 300.0, 310.0, 330.0]) == [290.0, 300.0, 310.0, 330.0]
  {
    var s := [290.0, 300.0, 310.0, 330.0];
    assert Sorted(s);
    SortedUnique(Sort(s), s);
  }

  lemma FourReadingsQuartiles()
    ensures TemperatureStatsOf([290.0, 300.0, 310.0, 330.0])
              == TemperatureStats(297.5, 305.0, 315.0, 17.5, 271.25, 341.25)
  {
    var s := [290.0, 300.0, 310.0, 330.0];
    SortOfFour();
    assert Position(0.25, 4) == 0.75 && 0.75.Floor == 0;
    assert Position(0.5, 4) == 1.5 && 1.5.Floor == 1;
    assert Position(0.75, 4) == 2.25 && 2.25.Floor == 2;
    assert Quantile(s, 0.25) == 297.5;
    assert Quantile(s, 0.5) == 305.0;
    assert Quantile(s, 0.75) == 315.0;
  }

  lemma FourReadingsTemps()
    ensures Project(FourReadings(), TempOf) == [290.0, 300.0, 310.0, 330.0]
  {
    var temps := Project(FourReadings(), TempOf);
    assert temps[0] == 290.0 && temps[1] == 300.0 && temps[2] == 310.0 && temps[3] == 330.0;
  }

  lemma FourReadingsWithinFences(st: TemperatureStats)
    requires st.lowerBound == 271.25 && st.upperBound == 341.25
    ensures forall i :: 0 <= i < |FourReadings()| ==> !IsOutlier(FourReadings()[i].temp, st)
  {
    var rows := FourReadings();
    forall i | 0 <= i < |rows|
      ensures !IsOutlier(rows[i].temp, st)
    {
      assert i == 0 || i == 1 || i == 2 || i == 3;
    }
  }

  /** With linearly interpolated quartiles the upper fence for
      290, 300, 310 and 330 K is 341.25 K, so 330 K is not an outlier. */
  lemma FourReadingsNoOutliers()
    ensures AnalyzeDistribution(FourReadings()).temperatureStats.upperBound == 341.25
    ensures AnalyzeDistribution(FourReadings()).outliers == Outliers(0, [])
  {
    var st := TemperatureStats(297.5, 305.0, 315.0, 17.5, 271.25, 341.25);
    FourReadingsTemps();
    FourReadingsQuartiles();
    FourReadingsWithinFences(st);
    NoOutliersWithinFences(FourReadings(), st);
  }

  /** One city observed at two stations. */
  function TwoStations(): seq<Observation>
  {
    [Reading(1, "Lagos", 6.45, 3.39, 300.0),
     Reading(1, "Lagos", 6.60, 3.35, 301.0)]
  }

  lemma TwoStationsCities()
    ensures KeySet(TwoStations(), CityOf) == {"Lagos"}
    ensures LocationsOfCity(TwoStations(), "Lagos") == {Location(6.45, 3.39), Location(6.60, 3.35)}
  {
    var rows := TwoStations();
    assert rows[0] in rows && rows[1] in rows;
    assert forall o :: o in rows ==> o == rows[0] || o == rows[1];
  }

  lemma TwoLocations()
    ensures |{Location(6.45, 3.39), Location(6.60, 3.35)}| == 2
  {
  }

  /** A single city with two stations: one city in total, listed with two
      locations. */
  lemma TwoStationsSpatial()
    ensures AnalyzeSpatial(TwoStations()) == SpatialAnalysis(1, map["Lagos" := 2])
  {
    TwoStationsCities();
    TwoLocations();
    var m := AnalyzeSpatial(TwoStations()).citiesWithMultiplePoints;
    assert "Lagos" in m && m["Lagos"] == 2;
    assert m.Keys == {"Lagos"};
  }

  /** One station observed on five distinct days. */
  function FiveDays(): seq<Observation>
  {
    [Reading(1, "Quito", -0.18, -78.47, 288.0),
     Reading(2, "Quito", -0.18, -78.47, 289.0),
     Reading(3, "Quito", -0.18, -78.47, 290.0),
     Reading(4, "Quito", -0.18, -78.47, 291.0),
     Reading(5, "Quito", -0.18, -78.47, 292.0)]
  }

  lemma FiveDaysKeys()
    ensures KeySet(FiveDays(), LocationOf) == {Location(-0.18, -78.47)}
  {
    var rows := FiveDays();
    assert rows[0] in rows;
    assert forall o :: o in rows ==> LocationOf(o) == Location(-0.18, -78.47);
  }

  lemma FiveDaysDates()
    ensures DatesOfGroup(FiveDays(), LocationOf, Location(-0.18, -78.47)) == {1, 2, 3, 4, 5}
  {
    var rows := FiveDays();
    var here := Location(-0.18, -78.47);
    assert forall i :: 0 <= i < 5 ==> rows[i] in rows;
    assert forall o :: o in rows ==> LocationOf(o) == here && o.date in {1, 2, 3, 4, 5};
    forall d | d in {1, 2, 3, 4, 5}
      ensures d in DatesOfGroup(rows, LocationOf, here)
    {
      assert rows[d - 1] in rows && rows[d - 1].date == d;
    }
  }

  lemma FiveDates()
    ensures |{1, 2, 3, 4, 5}| == 5
  {
    assert {1, 2, 3, 4, 5} == {1, 2, 3, 4} + {5};
  }

  lemma FiveDaysGroups()
    ensures KeySet(FiveDays(), LocationOf) == {Location(-0.18, -78.47)}
    ensures DistinctDays(FiveDays(), LocationOf, Location(-0.18, -78.47)) == 5
  {
    FiveDaysKeys();
    FiveDaysDates();
    FiveDates();
  }

  lemma OnlyStation(rows: seq<Observation>, here: Location, l: Location)
    requires KeySet(rows, LocationOf) == {here}
    requires l in KeySet(rows, LocationOf)
    ensures l == here
  {
  }

  /** A table observed at a single station with `n` distinct days, checked
      against a larger non-zero threshold `t`, is abandoned reporting `n`. */
  lemma SingleStationBelow(rows: seq<Observation>, here: Location, n: int, t: int)
    requires KeySet(rows, LocationOf) == {here}
    requires DistinctDays(rows, LocationOf, here) == n < t
    requires t != 0
    ensures Analyze(rows, Some(t)) == Failure(TooFewDays(t, n))
  {
    assert here in KeySet(rows, LocationOf);
    assert SomeLocationBelow(rows, t);
    var r := Analyze(rows, Some(t));
    assert r.Failure? && r.error.TooFewDays? && r.error.required == t;
    var l :| l in KeySet(rows, LocationOf) && r.error.observedMin == DistinctDays(rows, LocationOf, l);
    OnlyStation(rows, here, l);
  }

  /** Five days at the only station against a threshold of 30 days: the
      analysis is abandoned, reporting the observed minimum of 5. */
  lemma FiveDaysBelowThirty()
    ensures Analyze(FiveDays(), Some(30)) == Failure(TooFewDays(30, 5))
  {
    FiveDaysGroups();
    SingleStationBelow(FiveDays(), Location(-0.18, -78.47), 5, 30);
  }
}
