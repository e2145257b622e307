/** Temporal coverage: the overall date range, and per group (a station
    location, or a city) the number of distinct dates observed, summarised as
    minimum, maximum and truncated median across the groups. */
module Temporal {
  import opened Sequences
  import opened Quantiles
  import opened Observations

  /** The dates on which group `k` was observed. */
  ghost function DatesOfGroup<K>(rows: seq<Observation>, key: Observation -> K, k: K): set<int>
  {
    GroupValues(rows, key, k, DateOf)
  }

  /** The number of distinct dates of group `k` (`nunique` of the date
      column); at least one for every group present. */
  function DistinctDays<K(==)>(rows: seq<Observation>, key: Observation -> K, k: K): nat
  {
    DistinctInGroup(rows, key, k, DateOf)
  }

  /** The distinct-date counts of the groups `keys`, in that order. */
  function CountsFor<K(==)>(rows: seq<Observation>, key: Observation -> K, keys: seq<K>): (counts: seq<nat>)
    ensures |counts| == |keys|
    ensures forall i :: 0 <= i < |keys| ==> counts[i] == DistinctDays(rows, key, keys[i])
    ensures forall k :: k in keys ==> DistinctDays(rows, key, k) in counts
    ensures forall c :: c in counts ==> exists k :: k in keys && c == DistinctDays(rows, key, k)
  {
    var counts := Project(keys, k => DistinctDays(rows, key, k));
    InElements(counts);
    counts
  }

  /** One distinct-date count per group, in order of first appearance of
      the group key. */
  function DayCounts<K(==,!new)>(rows: seq<Observation>, key: Observation -> K): (counts: seq<nat>)
    ensures |counts| == |KeySet(rows, key)|
    ensures forall k :: k in KeySet(rows, key) ==> DistinctDays(rows, key, k) in counts
    ensures forall c :: c in counts ==>
              exists k :: k in KeySet(rows, key) && c == DistinctDays(rows, key, k)
    ensures exists ks :: && NoDuplicates(ks) && Elements(ks) == KeySet(rows, key)
                         && |ks| == |counts|
                         && forall i :: 0 <= i < |ks| ==> counts[i] == DistinctDays(rows, key, ks[i])
  {
    var keys := Groups(rows, key);
    InElements(keys);
    CountsFor(rows, key, keys)
  }

  /** `describe()` of the per-group counts, as the analysis keeps it. */
  datatype DayStats = DayStats(min: int, max: int, median: int)

  function AsReal(c: int): real
  {
    c as real
  }

  function ToReals(s: seq<int>): (r: seq<real>)
    ensures |r| == |s|
    ensures forall i :: 0 <= i < |s| ==> r[i] == s[i] as real
  {
    Project(s, AsReal)
  }

  /** The counts of two arrangements of the same keys are two arrangements
      of the same counts. */
  lemma CountsForPermutation<K>(rows: seq<Observation>, key: Observation -> K, a: seq<K>, b: seq<K>)
    requires multiset(a) == multiset(b)
    ensures multiset(CountsFor(rows, key, a)) == multiset(CountsFor(rows, key, b))
  {
    ProjectPermutation(a, b, k => DistinctDays(rows, key, k));
  }

  /** Sorting the counts keeps them between their extremes. */
  lemma SortedCountsWithin(counts: seq<int>, lo: int, hi: int)
    requires forall c :: c in counts ==> lo <= c <= hi
    ensures forall x :: x in Sort(ToReals(counts)) ==> lo as real <= x <= hi as real
  {
    var sorted := Sort(ToReals(counts));
    forall x | x in sorted
      ensures lo as real <= x <= hi as real
    {
      assert x in multiset(sorted);
      assert x in ToReals(counts);
      var i :| 0 <= i < |counts| && ToReals(counts)[i] == x;
      assert counts[i] in counts;
    }
  }

  /** Minimum, maximum and truncated median of the counts. */
  function Summarize(counts: seq<int>): (st: DayStats)
    requires |counts| > 0
    ensures st.min in counts && st.max in counts
    ensures forall c :: c in counts ==> st.min <= c <= st.max
    ensures st.min <= st.median <= st.max
  {
    var lo, hi := Min(counts), Max(counts);
    var sorted := Sort(ToReals(counts));
    SortedCountsWithin(counts, lo, hi);
    var median := Quantile(sorted, 0.5);
    assert sorted[0] in sorted && sorted[|sorted| - 1] in sorted;
    TruncWithin(median, lo, hi);
    DayStats(lo, hi, TruncToInt(median))
  }

  /** The summary depends only on the counts, not on their order: the
      order in which the groups are listed does not matter. */
  lemma SummarizeOrderFree(a: seq<int>, b: seq<int>)
    requires |a| > 0
    requires multiset(a) == multiset(b)
    ensures |b| > 0
    ensures Summarize(a) == Summarize(b)
  {
    assert |b| == |multiset(b)| == |multiset(a)| == |a|;
    assert Min(a) == Min(b) by {
      var x, y := Min(a), Min(b);
      assert x in multiset(a) && y in multiset(b);
      assert x in b && y in a;
    }
    assert Max(a) == Max(b) by {
      var x, y := Max(a), Max(b);
      assert x in multiset(a) && y in multiset(b);
      assert x in b && y in a;
    }
    assert Sort(ToReals(a)) == Sort(ToReals(b)) by {
      ProjectPermutation(a, b, AsReal);
      SortedUnique(Sort(ToReals(a)), Sort(ToReals(b)));
    }
  }

  /** With an odd number of groups the median is the middle count. */
  lemma MedianOfOddCount(counts: seq<int>, m: nat)
    requires |counts| == 2 * m + 1
    ensures Summarize(counts).median as real == Sort(ToReals(counts))[m]
  {
    var sorted := Sort(ToReals(counts));
    assert Position(0.5, |counts|) == m as real;
    QuantileAtIndex(sorted, 0.5, m);
    assert sorted[m] in multiset(ToReals(counts));
    var i :| 0 <= i < |counts| && ToReals(counts)[i] == sorted[m];
    assert sorted[m] == counts[i] as real;
    assert Summarize(counts).median == TruncToInt(Quantile(sorted, 0.5));
    assert TruncToInt(counts[i] as real) == counts[i];
  }

  /** With an even number of groups the midpoint is truncated: counts of 1
      and 2 days give a median of 1, not 1.5. */
  lemma MedianTruncated()
    ensures Summarize([1, 2]).median == 1
  {
    SortOfOneTwo();
    QuantileOfOneTwo();
    assert TruncToInt(1.5) == 1;
  }

  lemma SortOfOneTwo()
    ensures Sort(ToReals([1, 2])) == [1.0, 2.0]
  {
    var reals := ToReals([1, 2]);
    assert reals == [1.0, 2.0] by {
      assert reals[0] == 1.0 && reals[1] == 2.0;
    }
    assert Sorted(reals);
    assert multiset(Sort(reals)) == multiset(reals);
    SortedUnique(Sort(reals), reals);
  }

  lemma QuantileOfOneTwo()
    ensures Quantile([1.0, 2.0], 0.5) == 1.5
  {
    assert Position(0.5, 2) == 0.5 && 0.5.Floor == 0;
  }

  /** `st` summarises the distinct-date counts of the groups of `rows`:
      its minimum and maximum are attained by some group and bound every
      group, and the median lies between them. */
  ghost predicate SummarizesGroups<K>(st: DayStats, rows: seq<Observation>, key: Observation -> K)
  {
    && (forall k :: k in KeySet(rows, key) ==> st.min <= DistinctDays(rows, key, k) <= st.max)
    && (exists k :: k in KeySet(rows, key) && DistinctDays(rows, key, k) == st.min)
    && (exists k :: k in KeySet(rows, key) && DistinctDays(rows, key, k) == st.max)
    && 1 <= st.min <= st.median <= st.max
  }

  /** `st` is the summary of the groups' distinct-date counts whichever
      order the groups are listed in, such as the sorted key order of
      `groupby`. */
  ghost predicate SummarizesEveryListing<K(!new)>(st: DayStats, rows: seq<Observation>, key: Observation -> K)
  {
    forall ks {:trigger CountsFor(rows, key, ks)} :: NoDuplicates(ks) && Elements(ks) == KeySet(rows, key) ==>
      |ks| > 0 && st == Summarize(CountsFor(rows, key, ks))
  }

  /** Every listing of the groups summarises to the same statistics. */
  lemma ListingOrderFree<K(!new)>(rows: seq<Observation>, key: Observation -> K)
    requires |rows| > 0
    ensures SummarizesEveryListing(Summarize(DayCounts(rows, key)), rows, key)
  {
    var keys := Groups(rows, key);
    assert key(rows[0]) in KeySet(rows, key);
    assert |keys| > 0;
    forall ks | NoDuplicates(ks) && Elements(ks) == KeySet(rows, key)
      ensures |ks| > 0 && Summarize(DayCounts(rows, key)) == Summarize(CountsFor(rows, key, ks))
    {
      SameElementsPermutation(keys, ks);
      CountsForPermutation(rows, key, keys, ks);
      SummarizeOrderFree(CountsFor(rows, key, keys), CountsFor(rows, key, ks));
    }
  }

  /** Distinct-date statistics across the groups of `rows` under `key`. */
  function GroupDayStats<K(==,!new)>(rows: seq<Observation>, key: Observation -> K): (st: DayStats)
    requires |rows| > 0
    ensures SummarizesGroups(st, rows, key)
    ensures SummarizesEveryListing(st, rows, key)
    ensures st.max <= |rows|
  {
    ListingOrderFree(rows, key);
    assert key(rows[0]) in KeySet(rows, key);
    var counts := DayCounts(rows, key);
    var st := Summarize(counts);
    assert forall c :: c in counts ==> 1 <= c <= |rows|;
    st
  }

  datatype DateRange = DateRange(start: int, end: int)

  /** `r` runs from the earliest to the latest date of `rows`: it bounds
      every row's date and both ends are dates of some row. */
  ghost predicate Spans(r: DateRange, rows: seq<Observation>)
  {
    && (forall o :: o in rows ==> r.start <= o.date <= r.end)
    && (exists o :: o in rows && o.date == r.start)
    && (exists o :: o in rows && o.date == r.end)
  }

  /** The earliest and latest date of a non-empty table. */
  function DateRangeOf(rows: seq<Observation>): (r: DateRange)
    requires |rows| > 0
    ensures Spans(r, rows)
  {
    var dates := Project(rows, DateOf);
    var start, end := Min(dates), Max(dates);
    assert forall o :: o in rows ==> o.date in dates by {
      forall o | o in rows
        ensures o.date in dates
      {
        var i :| 0 <= i < |rows| && rows[i] == o;
        assert dates[i] == o.date;
      }
    }
    assert exists i :: 0 <= i < |rows| && rows[i].date == start by {
      var i :| 0 <= i < |dates| && dates[i] == start;
      assert rows[i].date == start;
    }
    assert exists i :: 0 <= i < |rows| && rows[i].date == end by {
      var i :| 0 <= i < |dates| && dates[i] == end;
      assert rows[i].date == end;
    }
    DateRange(start, end)
  }

  datatype TemporalAnalysis = TemporalAnalysis(
    dateRange: DateRange,
    daysPerLocation: DayStats,
    daysPerCity: DayStats)

  /** The temporal section for a non-empty table: the earliest and latest
      date, and distinct-date statistics per location and per city. */
  function AnalyzeTemporal(rows: seq<Observation>): (t: TemporalAnalysis)
    requires |rows| > 0
    ensures Spans(t.dateRange, rows)
    ensures SummarizesGroups(t.daysPerLocation, rows, LocationOf)
    ensures SummarizesGroups(t.daysPerCity, rows, CityOf)
    ensures SummarizesEveryListing(t.daysPerLocation, rows, LocationOf)
    ensures SummarizesEveryListing(t.daysPerCity, rows, CityOf)
  {
    var range := DateRangeOf(rows);
    var perLocation := GroupDayStats(rows, LocationOf);
    var perCity := GroupDayStats(rows, CityOf);
    TemporalAnalysis(range, perLocation, perCity)
  }
}
