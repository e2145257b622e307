/** Data quality: rows whose minimum, current and maximum temperature are
    not in the expected order. Such rows are only counted; every other step
    still uses them. */
module Quality {
  import opened Observations

  /** The source's test: `temp_min > temp`, `temp_max < temp` or
      `temp_min > temp_max`. */
  predicate Inconsistent(o: Observation)
  {
    o.tempMin > o.temp || o.tempMax < o.temp || o.tempMin > o.tempMax
  }

  predicate WithinBounds(o: Observation)
  {
    o.tempMin <= o.temp <= o.tempMax
  }

  /** The third disjunct of the test is implied by the other two: a row is
      inconsistent exactly when its temperature lies outside its own
      [min, max] range. */
  lemma InconsistentIffOutOfBounds(o: Observation)
    ensures Inconsistent(o) <==> !WithinBounds(o)
  {
  }

  /** The number of inconsistent rows. */
  function CountInconsistent(rows: seq<Observation>): (n: nat)
    ensures n <= |rows|
    ensures n == 0 <==> forall o :: o in rows ==> WithinBounds(o)
    ensures n == |rows| <==> forall o :: o in rows ==> !WithinBounds(o)
  {
    if |rows| == 0 then 0
    else
      assert forall o :: o in rows <==> o == rows[0] || o in rows[1..];
      InconsistentIffOutOfBounds(rows[0]);
      (if Inconsistent(rows[0]) then 1 else 0) + CountInconsistent(rows[1..])
  }

  /** Counting distributes over concatenation of tables. */
  lemma {:induction false} CountInconsistentConcat(a: seq<Observation>, b: seq<Observation>)
    ensures CountInconsistent(a + b) == CountInconsistent(a) + CountInconsistent(b)
  {
    if |a| == 0 {
      assert a + b == b;
    } else {
      assert (a + b)[1..] == a[1..] + b;
      CountInconsistentConcat(a[1..], b);
    }
  }

  /** Adding a row changes the count by one exactly when the row's
      temperature is outside its own range; a consistent row is never
      counted. */
  lemma CountInconsistentExtend(rows: seq<Observation>, o: Observation)
    ensures WithinBounds(o) ==> CountInconsistent(rows + [o]) == CountInconsistent(rows)
    ensures !WithinBounds(o) ==> CountInconsistent(rows + [o]) == CountInconsistent(rows) + 1
  {
    CountInconsistentConcat(rows, [o]);
    assert [o][1..] == [];
  }

  datatype QualityReport = QualityReport(temperatureInconsistencies: nat)

  function AnalyzeQuality(rows: seq<Observation>): (q: QualityReport)
    ensures q.temperatureInconsistencies <= |rows|
  {
    QualityReport(CountInconsistent(rows))
  }
}
