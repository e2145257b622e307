/** Temperature distribution: quartiles of `temp` by linear interpolation,
    Tukey fences at 1.5 interquartile ranges, and the rows strictly outside
    the fences, in table order, each classified low or high with its distance
    to the fence it crosses. */
module Distribution {
  import opened Sequences
  import opened Quantiles
  import opened Observations

  datatype TemperatureStats = TemperatureStats(
    q1: real,
    median: real,
    q3: real,
    iqr: real,
    lowerBound: real,
    upperBound: real)

  /** Quartiles and fences of the sample `temps`. */
  function TemperatureStatsOf(temps: seq<real>): (st: TemperatureStats)
    requires |temps| > 0
    ensures st.q1 <= st.median <= st.q3
    ensures st.iqr == st.q3 - st.q1 >= 0.0
    ensures st.lowerBound <= st.q1 && st.q3 <= st.upperBound
    ensures st.q1 - st.lowerBound == st.upperBound - st.q3 == 1.5 * st.iqr
    ensures exists t :: t in temps && t <= st.q1
    ensures exists t :: t in temps && st.q3 <= t
  {
    var sorted := Sort(temps);
    var q1 := Quantile(sorted, 0.25);
    var median := Quantile(sorted, 0.5);
    var q3 := Quantile(sorted, 0.75);
    QuantileMonotone(sorted, 0.25, 0.5);
    QuantileMonotone(sorted, 0.5, 0.75);
    assert sorted[0] in multiset(temps) && sorted[|sorted| - 1] in multiset(temps);
    assert sorted[0] in temps && sorted[0] <= q1;
    assert sorted[|sorted| - 1] in temps && q3 <= sorted[|sorted| - 1];
    var iqr := q3 - q1;
    TemperatureStats(q1, median, q3, iqr, q1 - 1.5 * iqr, q3 + 1.5 * iqr)
  }

  /** The outlier test: strictly below the lower or above the upper fence. */
  predicate IsOutlier(t: real, st: TemperatureStats)
  {
    t < st.lowerBound || t > st.upperBound
  }

  datatype OutlierKind = Low | High

  datatype OutlierDetail = OutlierDetail(
    city: string,
    date: int,
    temperature: real,
    kind: OutlierKind,
    deviation: real)

  /** The detail record of an outlying row: low when below the lower fence,
      high otherwise, and the positive distance to the fence it crosses. */
  function Classify(o: Observation, st: TemperatureStats): (d: OutlierDetail)
    requires IsOutlier(o.temp, st)
    ensures d.city == o.city && d.date == o.date && d.temperature == o.temp
    ensures d.kind == Low <==> o.temp < st.lowerBound
    ensures d.kind == High ==> o.temp > st.upperBound
    ensures st.lowerBound <= st.upperBound ==> (d.kind == High <==> o.temp > st.upperBound)
    ensures d.deviation > 0.0
    ensures d.kind == Low ==> d.temperature + d.deviation == st.lowerBound
    ensures d.kind == High ==> d.temperature - d.deviation == st.upperBound
  {
    var kind := if o.temp < st.lowerBound then Low else High;
    var deviation := if kind == Low then st.lowerBound - o.temp else o.temp - st.upperBound;
    OutlierDetail(o.city, o.date, o.temp, kind, deviation)
  }

  predicate StrictlyIncreasing(idx: seq<nat>)
  {
    forall k, l :: 0 <= k < l < |idx| ==> idx[k] < idx[l]
  }

  /** `idx` lists, in increasing order, exactly the positions `i >= from`
      of `rows` whose temperature is an outlier. */
  ghost predicate OutlierPositions(rows: seq<Observation>, st: TemperatureStats, from: nat, idx: seq<nat>)
  {
    && StrictlyIncreasing(idx)
    && (forall k :: 0 <= k < |idx| ==> from <= idx[k] < |rows|)
    && (forall i :: from <= i < |rows| ==> (IsOutlier(rows[i].temp, st) <==> i in idx))
  }

  /** Positions of the outlying rows at or after `from`, in table order. */
  function OutlierIndices(rows: seq<Observation>, st: TemperatureStats, from: nat): (idx: seq<nat>)
    requires from <= |rows|
    ensures OutlierPositions(rows, st, from, idx)
    decreases |rows| - from
  {
    if from == |rows| then []
    else
      var rest := OutlierIndices(rows, st, from + 1);
      if IsOutlier(rows[from].temp, st) then [from] + rest else rest
  }

  /** Two increasing sequences with the same members are equal, so the
      outlier positions are determined by the rows and the fences alone. */
  lemma {:induction false} IncreasingUnique(a: seq<nat>, b: seq<nat>)
    requires StrictlyIncreasing(a) && StrictlyIncreasing(b)
    requires forall x :: x in a <==> x in b
    ensures a == b
  {
    if |a| == 0 {
      if |b| > 0 {
        HeadIsMember(b);
        assert false;
      }
    } else {
      assert a[0] in b;
      var i :| 0 <= i < |b| && b[i] == a[0];
      assert b[0] in a;
      var j :| 0 <= j < |a| && a[j] == b[0];
      assert a[0] == b[0];
      forall x
        ensures x in a[1..] <==> x in b[1..]
      {
        assert x in a[1..] <==> x in a && x != a[0];
        assert x in b[1..] <==> x in b && x != b[0];
      }
      IncreasingUnique(a[1..], b[1..]);
      assert a == [a[0]] + a[1..] && b == [b[0]] + b[1..];
    }
  }

  lemma OutlierPositionsUnique(rows: seq<Observation>, st: TemperatureStats, idx: seq<nat>)
    requires OutlierPositions(rows, st, 0, idx)
    ensures idx == OutlierIndices(rows, st, 0)
  {
    var ref := OutlierIndices(rows, st, 0);
    forall x
      ensures x in idx <==> x in ref
    {
      if x in idx {
        var k :| 0 <= k < |idx| && idx[k] == x;
      }
      if x in ref {
        var k :| 0 <= k < |ref| && ref[k] == x;
      }
    }
    IncreasingUnique(idx, ref);
  }

  /** The outlying rows in table order, classified: the k-th detail is the
      classification of the k-th row, counting from the top of the table,
      whose temperature is strictly outside the fences. */
  function OutlierDetails(rows: seq<Observation>, st: TemperatureStats): (ds: seq<OutlierDetail>)
    ensures exists idx :: && OutlierPositions(rows, st, 0, idx)
                          && |idx| == |ds|
                          && forall k :: 0 <= k < |idx| ==> ds[k] == Classify(rows[idx[k]], st)
  {
    var idx := OutlierIndices(rows, st, 0);
    seq(|idx|, k requires 0 <= k < |idx| => Classify(rows[idx[k]], st))
  }

  /** The number of details is the number of outlying rows. */
  lemma OutlierCountIsRowCount(rows: seq<Observation>, st: TemperatureStats)
    ensures |OutlierDetails(rows, st)| == |set i | 0 <= i < |rows| && IsOutlier(rows[i].temp, st)|
  {
    var idx := OutlierIndices(rows, st, 0);
    assert Elements(idx) == set i | 0 <= i < |rows| && IsOutlier(rows[i].temp, st);
    NoDuplicatesCardinality(idx);
  }

  /** `t` lies within the Tukey fences of the quartiles `q1` and `q3`. */
  predicate WithinTukeyFences(t: real, q1: real, q3: real)
  {
    q1 - 1.5 * (q3 - q1) <= t <= q3 + 1.5 * (q3 - q1)
  }

  lemma PairWithinFences(s: seq<real>)
    requires Sorted(s) && |s| == 2
    ensures WithinTukeyFences(s[0], Quantile(s, 0.25), Quantile(s, 0.75))
  {
    assert Position(0.25, 2) == 0.25 && 0.25.Floor == 0;
    assert Position(0.75, 2) == 0.75 && 0.75.Floor == 0;
    var d := s[1] - s[0];
    assert Quantile(s, 0.25) == s[0] + 0.25 * d;
    assert Quantile(s, 0.75) == s[0] + 0.75 * d;
  }

  lemma LargerSampleWithinFences(s: seq<real>) returns (k: nat)
    requires Sorted(s) && |s| >= 3
    ensures k < |s|
    ensures WithinTukeyFences(s[k], Quantile(s, 0.25), Quantile(s, 0.75))
  {
    var n := |s|;
    var lo1 := Position(0.25, n).Floor;
    var lo3 := Position(0.75, n).Floor;
    assert Position(0.75, n) == Position(0.25, n) + 0.5 * (n - 1) as real;
    assert lo1 + 1 <= lo3 < n;
    k := lo1 + 1;
    assert Quantile(s, 0.25) <= s[k];
    assert s[k] <= s[lo3] <= Quantile(s, 0.75);
    QuantileMonotone(s, 0.25, 0.75);
  }

  /** Some value of a non-empty sample lies within its own fences. */
  lemma SomeValueWithinFences(temps: seq<real>) returns (t: real)
    requires |temps| > 0
    ensures t in temps
    ensures !IsOutlier(t, TemperatureStatsOf(temps))
  {
    var s := Sort(temps);
    var st := TemperatureStatsOf(temps);
    assert st.q1 == Quantile(s, 0.25) && st.q3 == Quantile(s, 0.75);
    if |s| == 1 {
      t := s[0];
    } else if |s| == 2 {
      PairWithinFences(s);
      t := s[0];
    } else {
      var k := LargerSampleWithinFences(s);
      t := s[k];
    }
    assert WithinTukeyFences(t, st.q1, st.q3);
    assert t in multiset(s);
  }

  /** The k-th of increasing naturals is at least k. */
  lemma {:induction false} IncreasingAtLeastIndex(idx: seq<nat>, k: nat)
    requires StrictlyIncreasing(idx)
    requires k < |idx|
    ensures k <= idx[k]
  {
    if k > 0 {
      IncreasingAtLeastIndex(idx, k - 1);
    }
  }

  /** Increasing naturals below `n` leave room for the entries after k. */
  lemma {:induction false} IncreasingRoomAbove(idx: seq<nat>, n: nat, k: nat)
    requires StrictlyIncreasing(idx)
    requires forall j :: 0 <= j < |idx| ==> idx[j] < n
    requires k < |idx|
    ensures idx[k] + |idx| - k <= n
    decreases |idx| - k
  {
    if k < |idx| - 1 {
      IncreasingRoomAbove(idx, n, k + 1);
    }
  }

  /** An increasing list of positions below `n` that skips one of them has
      fewer than `n` entries. */
  lemma IncreasingMissingOne(idx: seq<nat>, n: nat, i: nat)
    requires StrictlyIncreasing(idx)
    requires forall j :: 0 <= j < |idx| ==> idx[j] < n
    requires i < n && i !in idx
    ensures |idx| < n
  {
    if |idx| >= n {
      IncreasingAtLeastIndex(idx, i);
      IncreasingRoomAbove(idx, n, i);
      assert false;
    }
  }

  /** Tukey fences never flag a whole non-empty table: at least one row is
      not an outlier. */
  lemma FewerOutliersThanRows(rows: seq<Observation>)
    requires |rows| > 0
    ensures |AnalyzeDistribution(rows).outliers.details| < |rows|
  {
    var temps := Project(rows, TempOf);
    var st := TemperatureStatsOf(temps);
    var t := SomeValueWithinFences(temps);
    assert t in Elements(temps);
    var i :| 0 <= i < |rows| && rows[i].temp == t;
    IncreasingMissingOne(OutlierIndices(rows, st, 0), |rows|, i);
  }

  datatype Outliers = Outliers(count: nat, details: seq<OutlierDetail>)

  datatype DistributionAnalysis = DistributionAnalysis(
    temperatureStats: TemperatureStats,
    outliers: Outliers)

  /** The distribution section of a non-empty table. A row is reported
      exactly when its temperature is strictly outside the fences, in table
      order, and the count is the number of details. */
  function AnalyzeDistribution(rows: seq<Observation>): (d: DistributionAnalysis)
    requires |rows| > 0
    ensures d.temperatureStats == TemperatureStatsOf(Project(rows, TempOf))
    ensures d.outliers.count == |d.outliers.details|
    ensures exists idx :: OutlierPositions(rows, d.temperatureStats, 0, idx)
              && |idx| == |d.outliers.details|
              && forall k :: 0 <= k < |idx| ==>
                   d.outliers.details[k] == Classify(rows[idx[k]], d.temperatureStats)
  {
    var st := TemperatureStatsOf(Project(rows, TempOf));
    var ds := OutlierDetails(rows, st);
    DistributionAnalysis(st, Outliers(|ds|, ds))
  }
}
