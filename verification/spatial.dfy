/** Spatial coverage: how many cities the table covers, and which cities are
    observed at more than one (latitude, longitude) station. */
module Spatial {
  import opened Sequences
  import opened Observations

  /** The distinct stations at which city `c` was observed. */
  ghost function LocationsOfCity(rows: seq<Observation>, c: string): set<Location>
  {
    GroupValues(rows, CityOf, c, LocationOf)
  }

  /** The number of (latitude, longitude) groups among the rows of city `c`. */
  function LocationCount(rows: seq<Observation>, c: string): nat
  {
    DistinctInGroup(rows, CityOf, c, LocationOf)
  }

  /** Visits `cities` in order and records each one seen at more than one
      station, with its station count. */
  function MultiPointCities(rows: seq<Observation>, cities: seq<string>): (m: map<string, nat>)
    ensures forall c :: c in m <==> c in cities && LocationCount(rows, c) > 1
    ensures forall c :: c in m ==> m[c] == LocationCount(rows, c)
  {
    if |cities| == 0 then map[]
    else
      var c := cities[|cities| - 1];
      var m := MultiPointCities(rows, cities[..|cities| - 1]);
      assert cities == cities[..|cities| - 1] + [c];
      var n := LocationCount(rows, c);
      if n > 1 then m[c := n] else m
  }

  datatype SpatialAnalysis = SpatialAnalysis(
    totalCities: nat,
    citiesWithMultiplePoints: map<string, nat>)

  /** The spatial section: the number of distinct city names, and every city
      with two or more distinct stations mapped to its station count; a city
      with a single station is left out of the map. */
  function AnalyzeSpatial(rows: seq<Observation>): (sp: SpatialAnalysis)
    ensures sp.totalCities == |KeySet(rows, CityOf)|
    ensures forall c :: c in sp.citiesWithMultiplePoints <==>
              c in KeySet(rows, CityOf) && |LocationsOfCity(rows, c)| >= 2
    ensures forall c :: c in sp.citiesWithMultiplePoints ==>
              sp.citiesWithMultiplePoints[c] == |LocationsOfCity(rows, c)| >= 2
  {
    var cities := Groups(rows, CityOf);
    InElements(cities);
    SpatialAnalysis(|cities|, MultiPointCities(rows, cities))
  }
}
