/** Generic sequence operations the analysis is built from: distinct values in
    order of first appearance (pandas `unique` / `nunique`), selecting the rows
    of one group (`groupby`), projecting a column, minimum and maximum, and
    occurrence counting (`value_counts`). */
module Sequences {

  /** The set of values occurring in `s`. */
  function Elements<T>(s: seq<T>): set<T>
  {
    set x | x in s
  }

  lemma InElements<T>(s: seq<T>)
    ensures forall x :: x in s <==> x in Elements(s)
  {
  }

  lemma HeadIsMember<T>(s: seq<T>)
    requires |s| > 0
    ensures s[0] in s
  {
  }

  lemma ElementsConcat<T>(a: seq<T>, b: seq<T>)
    ensures Elements(a + b) == Elements(a) + Elements(b)
  {
    assert forall x :: x in a + b <==> x in a || x in b;
  }

  predicate NoDuplicates<T(==)>(s: seq<T>)
  {
    forall i, j :: 0 <= i < j < |s| ==> s[i] != s[j]
  }

  /** The values of `s`, each once, in order of first appearance. */
  function Distinct<T(==)>(s: seq<T>): (r: seq<T>)
    ensures Elements(r) == Elements(s)
    ensures NoDuplicates(r)
    ensures |r| <= |s|
  {
    if |s| == 0 then []
    else
      var init := Distinct(s[..|s| - 1]);
      assert s == s[..|s| - 1] + [s[|s| - 1]];
      ElementsConcat(s[..|s| - 1], [s[|s| - 1]]);
      ElementsConcat(init, [s[|s| - 1]]);
      if s[|s| - 1] in init then init else init + [s[|s| - 1]]
  }

  /** A sequence without repetitions has as many elements as values. */
  lemma {:induction false} NoDuplicatesCardinality<T>(s: seq<T>)
    requires NoDuplicates(s)
    ensures |Elements(s)| == |s|
  {
    if |s| > 0 {
      var init := s[..|s| - 1];
      assert s == init + [s[|s| - 1]];
      assert NoDuplicates(init);
      NoDuplicatesCardinality(init);
      assert s[|s| - 1] !in Elements(init);
      assert Elements(s) == Elements(init) + {s[|s| - 1]};
    }
  }

  /** Each value of a sequence without repetitions occurs in it once. */
  lemma {:induction false} NoDuplicatesMultiplicity<T>(s: seq<T>, x: T)
    requires NoDuplicates(s)
    ensures multiset(s)[x] == if x in s then 1 else 0
  {
    if |s| > 0 {
      assert s == [s[0]] + s[1..];
      assert NoDuplicates(s[1..]);
      NoDuplicatesMultiplicity(s[1..], s[0]);
      NoDuplicatesMultiplicity(s[1..], x);
    }
  }

  /** Two sequences without repetitions over the same values are
      rearrangements of each other. */
  lemma SameElementsPermutation<T>(a: seq<T>, b: seq<T>)
    requires NoDuplicates(a) && NoDuplicates(b)
    requires Elements(a) == Elements(b)
    ensures multiset(a) == multiset(b)
  {
    forall x
      ensures multiset(a)[x] == multiset(b)[x]
    {
      NoDuplicatesMultiplicity(a, x);
      NoDuplicatesMultiplicity(b, x);
      assert x in a <==> x in Elements(a);
      assert x in b <==> x in Elements(b);
    }
  }

  /** The number of distinct values (`nunique`) is the cardinality of the
      value set, and never more than the number of entries. */
  lemma DistinctCount<T>(s: seq<T>)
    ensures |Distinct(s)| == |Elements(s)|
    ensures |Elements(s)| <= |s|
  {
    NoDuplicatesCardinality(Distinct(s));
  }

  /** The column `f` of the rows `s`, in row order. */
  function Project<T, K>(s: seq<T>, f: T -> K): (r: seq<K>)
    ensures |r| == |s|
    ensures forall i {:trigger r[i]} :: 0 <= i < |s| ==> r[i] == f(s[i])
    ensures Elements(r) == set x | x in s :: f(x)
  {
    var r := seq(|s|, i requires 0 <= i < |s| => f(s[i]));
    assert forall x :: x in s ==> f(x) in r by {
      forall x | x in s
        ensures f(x) in r
      {
        var i :| 0 <= i < |s| && s[i] == x;
        assert r[i] == f(x);
      }
    }
    r
  }

  lemma ProjectConcat<T, K>(a: seq<T>, b: seq<T>, f: T -> K)
    ensures Project(a + b, f) == Project(a, f) + Project(b, f)
  {
  }

  /** Removing the entry at `j` removes one copy of it. */
  lemma RemoveAt<T>(s: seq<T>, j: nat)
    requires j < |s|
    ensures multiset(s[..j] + s[j + 1..]) == multiset(s) - multiset{s[j]}
  {
    assert s == s[..j] + [s[j]] + s[j + 1..];
  }

  /** Projecting after removing the entry at `j` loses exactly its value. */
  lemma ProjectRemoveAt<T, K>(s: seq<T>, j: nat, f: T -> K)
    requires j < |s|
    ensures multiset(Project(s, f)) == multiset(Project(s[..j] + s[j + 1..], f)) + multiset{f(s[j])}
  {
    var pre, post := s[..j], s[j + 1..];
    assert s == pre + [s[j]] + post;
    ProjectConcat(pre + [s[j]], post, f);
    ProjectConcat(pre, [s[j]], f);
    ProjectConcat(pre, post, f);
    assert Project([s[j]], f) == [f(s[j])];
  }

  /** Projecting after dropping the head loses exactly its value. */
  lemma ProjectRemoveHead<T, K>(s: seq<T>, f: T -> K)
    requires |s| > 0
    ensures multiset(Project(s, f)) == multiset(Project(s[1..], f)) + multiset{f(s[0])}
  {
    assert s == [s[0]] + s[1..];
    ProjectConcat([s[0]], s[1..], f);
    assert Project([s[0]], f) == [f(s[0])];
  }

  /** Matching the head of `a` with an equal entry `b[j]` leaves two
      arrangements of the same remaining rows. */
  lemma RemoveMatching<T>(a: seq<T>, b: seq<T>, j: nat)
    requires multiset(a) == multiset(b)
    requires 0 < |a| && j < |b| && b[j] == a[0]
    ensures multiset(a[1..]) == multiset(b[..j] + b[j + 1..])
  {
    assert multiset(a[1..]) == multiset(a) - multiset{a[0]} by {
      assert a == [a[0]] + a[1..];
    }
    RemoveAt(b, j);
  }

  /** Projecting two arrangements of the same rows gives two arrangements of
      the same column values. */
  lemma {:induction false} ProjectPermutation<T, K>(a: seq<T>, b: seq<T>, f: T -> K)
    requires multiset(a) == multiset(b)
    ensures multiset(Project(a, f)) == multiset(Project(b, f))
  {
    if |a| == 0 {
      assert |b| == |multiset(b)| == 0;
    } else {
      assert a[0] in multiset(b);
      var j :| 0 <= j < |b| && b[j] == a[0];
      var a', b' := a[1..], b[..j] + b[j + 1..];
      assert multiset(a') == multiset(b') by {
        RemoveMatching(a, b, j);
      }
      var ma, mb := multiset(Project(a', f)), multiset(Project(b', f));
      assert ma == mb by {
        ProjectPermutation(a', b', f);
      }
      assert multiset(Project(a, f)) == ma + multiset{f(a[0])} by {
        ProjectRemoveHead(a, f);
      }
      assert multiset(Project(b, f)) == mb + multiset{f(a[0])} by {
        ProjectRemoveAt(b, j, f);
      }
    }
  }

  /** The rows of `s` whose `key` is `k`, in row order (one group of a
      `groupby`). */
  function Select<T, K(==)>(s: seq<T>, key: T -> K, k: K): (r: seq<T>)
    ensures |r| <= |s|
    ensures Elements(r) == set x | x in s && key(x) == k
    ensures (exists x :: x in s && key(x) == k) ==> |r| > 0
  {
    if |s| == 0 then []
    else
      var rest := Select(s[1..], key, k);
      assert s == [s[0]] + s[1..];
      ElementsConcat([s[0]], s[1..]);
      ElementsConcat([s[0]], rest);
      if key(s[0]) == k then [s[0]] + rest else rest
  }

  /** The values the grouping column `key` takes in `s`. */
  ghost function KeySet<T, K>(s: seq<T>, key: T -> K): set<K>
  {
    set x | x in s :: key(x)
  }

  /** The group keys of `s`, each once, in order of first appearance. */
  function Groups<T, K(==)>(s: seq<T>, key: T -> K): (keys: seq<K>)
    ensures Elements(keys) == KeySet(s, key)
    ensures NoDuplicates(keys)
    ensures |keys| == |KeySet(s, key)|
  {
    var keys := Distinct(Project(s, key));
    DistinctCount(Project(s, key));
    keys
  }

  /** The values of column `val` within group `k`. */
  ghost function GroupValues<T, K, V>(s: seq<T>, key: T -> K, k: K, val: T -> V): set<V>
  {
    set x | x in s && key(x) == k :: val(x)
  }

  /** The distinct values of column `val` within group `k`, each once. */
  function GroupDistinct<T, K(==), V(==)>(s: seq<T>, key: T -> K, k: K, val: T -> V): seq<V>
  {
    if |s| == 0 then []
    else
      var rest := GroupDistinct(s[1..], key, k, val);
      if key(s[0]) == k && val(s[0]) !in rest then [val(s[0])] + rest else rest
  }

  /** The group's distinct values are exactly its value set, without
      duplicates, and no more numerous than the group's rows. */
  lemma {:induction false} GroupDistinctValues<T, K, V>(s: seq<T>, key: T -> K, k: K, val: T -> V)
    ensures Elements(GroupDistinct(s, key, k, val)) == GroupValues(s, key, k, val)
    ensures NoDuplicates(GroupDistinct(s, key, k, val))
    ensures |GroupDistinct(s, key, k, val)| <= |Select(s, key, k)|
  {
    if |s| > 0 {
      var rest := GroupDistinct(s[1..], key, k, val);
      GroupDistinctValues(s[1..], key, k, val);
      assert forall x :: x in s <==> x == s[0] || x in s[1..] by {
        assert s == [s[0]] + s[1..];
      }
      var here := if key(s[0]) == k then {val(s[0])} else {};
      assert GroupValues(s, key, k, val) == here + GroupValues(s[1..], key, k, val);
      if key(s[0]) == k && val(s[0]) !in rest {
        var r := [val(s[0])] + rest;
        assert forall i :: 1 <= i < |r| ==> r[i] == rest[i - 1];
        assert forall x :: x in r <==> x == val(s[0]) || x in rest;
      }
    }
  }

  /** `groupby(key)[val].nunique()` for the one group `k`. */
  function DistinctInGroup<T, K(==), V(==)>(s: seq<T>, key: T -> K, k: K, val: T -> V): (n: nat)
    ensures n == |GroupValues(s, key, k, val)|
    ensures n <= |Select(s, key, k)|
    ensures k in KeySet(s, key) ==> 1 <= n
  {
    var values := GroupDistinct(s, key, k, val);
    GroupDistinctValues(s, key, k, val);
    NoDuplicatesCardinality(values);
    assert k in KeySet(s, key) ==> |GroupValues(s, key, k, val)| > 0 by {
      if k in KeySet(s, key) {
        var x :| x in s && key(x) == k;
        assert val(x) in GroupValues(s, key, k, val);
      }
    }
    |values|
  }

  function Min(s: seq<int>): (m: int)
    requires |s| > 0
    ensures m in s
    ensures forall x :: x in s ==> m <= x
  {
    if |s| == 1 then s[0]
    else
      var rest := Min(s[1..]);
      assert s == [s[0]] + s[1..];
      if s[0] <= rest then s[0] else rest
  }

  function Max(s: seq<int>): (m: int)
    requires |s| > 0
    ensures m in s
    ensures forall x :: x in s ==> x <= m
  {
    if |s| == 1 then s[0]
    else
      var rest := Max(s[1..]);
      assert s == [s[0]] + s[1..];
      if s[0] >= rest then s[0] else rest
  }

  /** How many entries of `s` equal `x`. */
  function Occurrences<T(==)>(s: seq<T>, x: T): (n: nat)
    ensures n <= |s|
    ensures n > 0 <==> x in s
  {
    if |s| == 0 then 0
    else
      assert s == [s[0]] + s[1..];
      (if s[0] == x then 1 else 0) + Occurrences(s[1..], x)
  }

  /** Occurrence counting agrees with the multiplicity of the multiset. */
  lemma {:induction false} OccurrencesIsMultiplicity<T>(s: seq<T>, x: T)
    ensures Occurrences(s, x) == multiset(s)[x]
  {
    if |s| > 0 {
      assert s == [s[0]] + s[1..];
      OccurrencesIsMultiplicity(s[1..], x);
    }
  }

  /** Sum over the keys `ks` of their occurrence counts in `s`. */
  function SumOccurrences<T(==)>(s: seq<T>, ks: seq<T>): nat
  {
    if |ks| == 0 then 0 else Occurrences(s, ks[0]) + SumOccurrences(s, ks[1..])
  }

  lemma {:induction false} OccurrencesAppend<T>(s: seq<T>, y: T, x: T)
    ensures Occurrences(s + [y], x) == Occurrences(s, x) + (if y == x then 1 else 0)
  {
    if |s| > 0 {
      assert (s + [y])[1..] == s[1..] + [y];
      OccurrencesAppend(s[1..], y, x);
    }
  }

  lemma {:induction false} SumOccurrencesAppend<T>(s: seq<T>, y: T, ks: seq<T>)
    requires NoDuplicates(ks)
    ensures SumOccurrences(s + [y], ks) == SumOccurrences(s, ks) + (if y in ks then 1 else 0)
  {
    if |ks| > 0 {
      OccurrencesAppend(s, y, ks[0]);
      assert NoDuplicates(ks[1..]);
      SumOccurrencesAppend(s, y, ks[1..]);
      assert ks == [ks[0]] + ks[1..];
      assert y in ks <==> y == ks[0] || y in ks[1..];
      assert ks[0] !in ks[1..];
    }
  }

  /** Counting every distinct key of `s` accounts for every entry once. */
  lemma {:induction false} SumOccurrencesTotal<T>(s: seq<T>, ks: seq<T>)
    requires NoDuplicates(ks)
    requires Elements(s) <= Elements(ks)
    ensures SumOccurrences(s, ks) == |s|
  {
    if |s| == 0 {
      SumOccurrencesEmpty(s, ks);
    } else {
      var init := s[..|s| - 1];
      assert s == init + [s[|s| - 1]];
      assert Elements(init) <= Elements(s);
      SumOccurrencesTotal(init, ks);
      SumOccurrencesAppend(init, s[|s| - 1], ks);
      assert s[|s| - 1] in Elements(ks);
    }
  }

  lemma {:induction false} SumOccurrencesEmpty<T>(s: seq<T>, ks: seq<T>)
    requires |s| == 0
    ensures SumOccurrences(s, ks) == 0
  {
    if |ks| > 0 {
      SumOccurrencesEmpty(s, ks[1..]);
    }
  }
}
