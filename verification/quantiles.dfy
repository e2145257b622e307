/** Order statistics as pandas computes them by default: the p-quantile of a
    sample is read off the sorted sample at the fractional position p*(n-1),
    interpolating linearly between the two neighbouring order statistics.
    Python's `int(...)` on the result truncates toward zero. */
module Quantiles {

  predicate Sorted(s: seq<real>)
  {
    forall i, j :: 0 <= i <= j < |s| ==> s[i] <= s[j]
  }

  /** Every element of `r` is at least `a` when `r` holds the elements of
      `t`, all at least `a`, plus `x >= a`. */
  lemma LowerBoundOfInsertion(a: real, x: real, t: seq<real>, r: seq<real>)
    requires multiset(r) == multiset(t) + multiset{x}
    requires a <= x
    requires forall i :: 0 <= i < |t| ==> a <= t[i]
    ensures forall i :: 0 <= i < |r| ==> a <= r[i]
  {
    forall i | 0 <= i < |r|
      ensures a <= r[i]
    {
      assert r[i] in multiset(r);
      if r[i] != x {
        assert r[i] in multiset(t);
        assert r[i] in t;
      }
    }
  }

  /** Inserts `x` into the sorted `s` after every element not above it. */
  function Insert(x: real, s: seq<real>): (r: seq<real>)
    requires Sorted(s)
    ensures Sorted(r)
    ensures multiset(r) == multiset(s) + multiset{x}
    ensures |r| == |s| + 1
  {
    if |s| == 0 then [x]
    else if x < s[0] then [x] + s
    else
      var rest := Insert(x, s[1..]);
      assert s == [s[0]] + s[1..];
      LowerBoundOfInsertion(s[0], x, s[1..], rest);
      SortedCons(s[0], rest);
      [s[0]] + rest
  }

  /** A sorted sequence stays sorted with a lower bound of it put in front. */
  lemma SortedCons(a: real, r: seq<real>)
    requires Sorted(r)
    requires forall i :: 0 <= i < |r| ==> a <= r[i]
    ensures Sorted([a] + r)
  {
    var t := [a] + r;
    forall i, j | 0 <= i <= j < |t|
      ensures t[i] <= t[j]
    {
      if i > 0 {
        assert t[i] == r[i - 1] && t[j] == r[j - 1];
      } else if j > 0 {
        assert t[j] == r[j - 1];
      }
    }
  }

  /** The sample in ascending order. */
  function Sort(s: seq<real>): (r: seq<real>)
    ensures Sorted(r)
    ensures multiset(r) == multiset(s)
    ensures |r| == |s|
  {
    if |s| == 0 then []
    else
      assert s == s[..|s| - 1] + [s[|s| - 1]];
      Insert(s[|s| - 1], Sort(s[..|s| - 1]))
  }

  /** A sorted arrangement of a sample is unique, so every order statistic
      is a function of the sample alone, whatever sorting algorithm is used. */
  lemma {:induction false} SortedUnique(a: seq<real>, b: seq<real>)
    requires Sorted(a) && Sorted(b)
    requires multiset(a) == multiset(b)
    ensures a == b
  {
    assert |b| == |a| by {
      assert |multiset(a)| == |a| && |multiset(b)| == |b|;
    }
    if |a| > 0 {
      HeadIsLeast(b, a[0]);
      HeadIsLeast(a, b[0]);
      assert a[0] == b[0];
      assert a == [a[0]] + a[1..];
      assert b == [b[0]] + b[1..];
      assert multiset(a[1..]) == multiset(a) - multiset{a[0]};
      assert multiset(b[1..]) == multiset(b) - multiset{b[0]};
      SortedTail(a);
      SortedTail(b);
      SortedUnique(a[1..], b[1..]);
    }
  }

  /** The head of a sorted sequence is its least element. */
  lemma HeadIsLeast(s: seq<real>, x: real)
    requires Sorted(s)
    requires x in multiset(s)
    ensures |s| > 0 && s[0] <= x
  {
    assert x in s;
    var j :| 0 <= j < |s| && s[j] == x;
  }

  /** Dropping the head keeps a sequence sorted. */
  lemma SortedTail(s: seq<real>)
    requires Sorted(s)
    requires |s| > 0
    ensures Sorted(s[1..])
  {
    forall i, j | 0 <= i <= j < |s| - 1
      ensures s[1..][i] <= s[1..][j]
    {
      assert s[1..][i] == s[i + 1] && s[1..][j] == s[j + 1];
    }
  }

  /** Scaling by a non-negative factor keeps order. */
  lemma ScaleMonotone(p: real, p': real, c: real)
    requires p <= p'
    requires 0.0 <= c
    ensures p * c <= p' * c
  {
    assert p' * c - p * c == (p' - p) * c;
  }

  /** A fraction of a non-negative bound stays between zero and it. */
  lemma FractionOf(p: real, c: real)
    requires 0.0 <= p <= 1.0
    requires 0.0 <= c
    ensures 0.0 <= p * c <= c
  {
    assert c - p * c == (1.0 - p) * c;
  }

  /** Interpolation is monotone in the fraction. */
  lemma LerpMonotone(a: real, b: real, t: real, t': real)
    requires a <= b
    requires t <= t'
    ensures a + t * (b - a) <= a + t' * (b - a)
  {
    ScaleMonotone(t, t', b - a);
    assert t * (b - a) <= t' * (b - a);
  }

  /** Position of the p-quantile among the order statistics of `n` values. */
  function Position(p: real, n: nat): (pos: real)
    requires 0.0 <= p <= 1.0
    requires n > 0
    ensures 0.0 <= pos <= (n - 1) as real
  {
    var c := (n - 1) as real;
    FractionOf(p, c);
    assert 0.0 <= p * c;
    assert p * c <= c;
    p * c
  }

  /** A larger p never gives an earlier position. */
  lemma PositionMonotone(p: real, p': real, n: nat)
    requires 0.0 <= p <= p' <= 1.0
    requires n > 0
    ensures Position(p, n) <= Position(p', n)
  {
    ScaleMonotone(p, p', (n - 1) as real);
  }

  /** The value at fractional position `pos` of the sorted `s`: the order
      statistic below it plus the fractional part of the step to the next. */
  function Interpolate(s: seq<real>, pos: real): (q: real)
    requires Sorted(s)
    requires 0.0 <= pos <= (|s| - 1) as real
    ensures s[0] <= q <= s[|s| - 1]
    ensures s[pos.Floor] <= q && (pos.Floor + 1 < |s| ==> q <= s[pos.Floor + 1])
  {
    var lo := pos.Floor;
    assert 0 <= lo <= |s| - 1;
    assert s[0] <= s[lo] <= s[|s| - 1];
    if lo >= |s| - 1 then s[|s| - 1]
    else
      var t := pos - lo as real;
      var d := s[lo + 1] - s[lo];
      assert 0.0 <= t <= 1.0;
      assert 0.0 <= d && s[lo + 1] <= s[|s| - 1];
      FractionOf(t, d);
      assert 0.0 <= t * d <= d;
      s[lo] + t * d
  }

  /** The p-quantile of the sorted sample `s` with linear interpolation. */
  function Quantile(s: seq<real>, p: real): (q: real)
    requires Sorted(s)
    requires |s| > 0
    requires 0.0 <= p <= 1.0
    ensures s[0] <= q <= s[|s| - 1]
  {
    Interpolate(s, Position(p, |s|))
  }

  /** At a whole-number position the quantile is that order statistic. */
  lemma QuantileAtIndex(s: seq<real>, p: real, k: nat)
    requires Sorted(s)
    requires |s| > 0
    requires 0.0 <= p <= 1.0
    requires Position(p, |s|) == k as real
    ensures k < |s|
    ensures Quantile(s, p) == s[k]
  {
  }

  /** A later position never gives a smaller value. */
  lemma InterpolateMonotone(s: seq<real>, pos: real, pos': real)
    requires Sorted(s)
    requires 0.0 <= pos <= pos' <= (|s| - 1) as real
    ensures Interpolate(s, pos) <= Interpolate(s, pos')
  {
    var lo, lo' := pos.Floor, pos'.Floor;
    assert lo as real <= pos <= pos' < lo' as real + 1.0;
    if lo < lo' {
      assert s[lo + 1] <= s[lo'];
    } else if lo < |s| - 1 {
      LerpMonotone(s[lo], s[lo + 1], pos - lo as real, pos' - lo as real);
    }
  }

  /** A larger p never gives a smaller quantile. */
  lemma QuantileMonotone(s: seq<real>, p: real, p': real)
    requires Sorted(s)
    requires |s| > 0
    requires 0.0 <= p <= p' <= 1.0
    ensures Quantile(s, p) <= Quantile(s, p')
  {
    var pos, pos' := Position(p, |s|), Position(p', |s|);
    PositionMonotone(p, p', |s|);
    InterpolateMonotone(s, pos, pos');
  }

  /** Python's `int(x)`: truncation toward zero. */
  function TruncToInt(x: real): (r: int)
    ensures 0.0 <= x ==> r as real <= x < r as real + 1.0
    ensures x < 0.0 ==> r as real - 1.0 < x <= r as real
  {
    if x >= 0.0 then x.Floor else -((-x).Floor)
  }

  /** Truncation keeps a value inside any integer bounds that enclose it. */
  lemma TruncWithin(x: real, lo: int, hi: int)
    requires lo as real <= x <= hi as real
    ensures lo <= TruncToInt(x) <= hi
  {
  }
}
