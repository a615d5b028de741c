/** The two orderings the dashboard relies on: Python's `sorted(set(xs))`
    (distinct values in increasing order, used for `sorted(df[c].unique())` and
    for pandas' sorted group keys) and `sort_values` on a numeric key. */
module Sorting {
  import Text
  import opened Seqs

  ghost predicate StrictOrder<T(!new)>(less: (T, T) -> bool) {
    && (forall x :: !less(x, x))
    && (forall x, y, z :: less(x, y) && less(y, z) ==> less(x, z))
  }

  ghost predicate StrictTotalOrder<T(!new)>(less: (T, T) -> bool) {
    && StrictOrder(less)
    && (forall x, y :: x != y ==> less(x, y) || less(y, x))
  }

  ghost predicate StrictlySorted<T>(s: seq<T>, less: (T, T) -> bool) {
    forall i, j :: 0 <= i < j < |s| ==> less(s[i], s[j])
  }

  /** Python's string `<` is a strict total order. */
  lemma StringOrder()
    ensures StrictTotalOrder(Text.Less)
  {
    forall x: string
      ensures !Text.Less(x, x)
    {
      Text.LessIrreflexive(x);
    }
    forall x: string, y: string, z: string | Text.Less(x, y) && Text.Less(y, z)
      ensures Text.Less(x, z)
    {
      Text.LessTransitive(x, y, z);
    }
    forall x: string, y: string | x != y
      ensures Text.Less(x, y) || Text.Less(y, x)
    {
      Text.LessTotal(x, y);
    }
  }

  function InsertUnique<T(==,!new)>(x: T, s: seq<T>, less: (T, T) -> bool): (r: seq<T>)
    requires StrictTotalOrder(less) && StrictlySorted(s, less)
    ensures StrictlySorted(r, less)
    ensures forall y :: y in r <==> y == x || y in s
    decreases |s|
  {
    if s == [] then [x]
    else if x == s[0] then s
    else if less(x, s[0]) then [x] + s
    else
      var rest := InsertUnique(x, s[1..], less);
      assert forall y :: y in rest ==> less(s[0], y);
      [s[0]] + rest
  }

  /** `sorted(set(s))`: every element of `s` once, in increasing order. */
  function SortUnique<T(==,!new)>(s: seq<T>, less: (T, T) -> bool): (r: seq<T>)
    requires StrictTotalOrder(less)
    ensures StrictlySorted(r, less)
    ensures forall y :: y in r <==> y in s
    decreases |s|
  {
    if s == [] then []
    else InsertUnique(s[|s| - 1], SortUnique(s[..|s| - 1], less), less)
  }

  /** A strictly sorted sequence has no repeats. */
  lemma SortedDistinct<T(!new)>(s: seq<T>, less: (T, T) -> bool)
    requires StrictOrder(less) && StrictlySorted(s, less)
    ensures forall i, j :: 0 <= i < j < |s| ==> s[i] != s[j]
  {
  }

  /** The head of a sorted sequence is below every other element it holds. */
  lemma HeadBelow<T(!new)>(a: seq<T>, b: seq<T>, less: (T, T) -> bool)
    ensures StrictlySorted(b, less) && a != [] && b != [] && a[0] in b && a[0] != b[0] ==>
      less(b[0], a[0])
  {
    if StrictlySorted(b, less) && a != [] && b != [] && a[0] in b && a[0] != b[0] {
      var m :| 0 <= m < |b| && b[m] == a[0];
      assert m != 0;
    }
  }

  lemma FirstIn<T>(s: seq<T>)
    ensures s != [] ==> s[0] in s
  {
  }

  /** There is only one strictly sorted arrangement of a set of values, so the
      result of `SortUnique` depends on which values occur, not on their order. */
  lemma {:induction false} SortedUnique<T(!new)>(a: seq<T>, b: seq<T>, less: (T, T) -> bool)
    requires StrictOrder(less)
    requires StrictlySorted(a, less) && StrictlySorted(b, less)
    requires forall y :: y in a <==> y in b
    ensures a == b
    decreases |a|
  {
    FirstIn(a);
    FirstIn(b);
    HeadBelow(a, b, less);
    HeadBelow(b, a, less);
    if a != [] {
      assert b != [];
      if a[0] != b[0] {
        // each head is below everything else in its own sequence, so each is below the other
        assert false;
      }
      forall y
        ensures y in a[1..] <==> y in b[1..]
      {
        if y in a[1..] {
          assert y != a[0];
          assert y in b;
        }
        if y in b[1..] {
          assert y != b[0];
          assert y in a;
        }
      }
      SortedUnique(a[1..], b[1..], less);
      assert a == [a[0]] + a[1..] && b == [b[0]] + b[1..];
    } else {
      if b != [] {
        assert false;
      }
    }
  }

  /** Filtering keeps a sequence sorted. */
  lemma {:induction false} WhereSorted<T(!new)>(s: seq<T>, p: T -> bool, less: (T, T) -> bool)
    requires StrictlySorted(s, less)
    ensures StrictlySorted(Where(s, p), less)
    decreases |s|
  {
    if s != [] {
      WhereSorted(s[1..], p, less);
      var rest := Where(s[1..], p);
      if p(s[0]) {
        forall y | y in rest
          ensures less(s[0], y)
        {
          var k :| 0 <= k < |s[1..]| && s[1..][k] == y;
          assert s[k + 1] == y;
        }
        var r := [s[0]] + rest;
        assert Where(s, p) == r;
        forall a, b | 0 <= a < b < |r|
          ensures less(r[a], r[b])
        {
          if a > 0 {
            assert r[a] == rest[a - 1] && r[b] == rest[b - 1];
          } else {
            assert r[b] in rest;
          }
        }
      } else {
        assert Where(s, p) == rest;
      }
    }
  }

  function Rank<T>(key: T -> real, ascending: bool, x: T): real {
    if ascending then key(x) else -key(x)
  }

  /** Ordered by `key`, increasing when `ascending`, decreasing otherwise. */
  ghost predicate OrderedBy<T>(s: seq<T>, key: T -> real, ascending: bool) {
    forall i, j :: 0 <= i < j < |s| ==> Rank(key, ascending, s[i]) <= Rank(key, ascending, s[j])
  }

  lemma HeadLeast<T>(s: seq<T>, key: T -> real, ascending: bool)
    requires OrderedBy(s, key, ascending) && s != []
    ensures forall z :: z in s ==> Rank(key, ascending, s[0]) <= Rank(key, ascending, z)
  {
  }

  lemma ConsOrdered<T>(y: T, t: seq<T>, key: T -> real, ascending: bool)
    requires OrderedBy(t, key, ascending)
    requires forall z :: z in t ==> Rank(key, ascending, y) <= Rank(key, ascending, z)
    ensures OrderedBy([y] + t, key, ascending)
  {
    var s := [y] + t;
    forall i, j | 0 <= i < j < |s|
      ensures Rank(key, ascending, s[i]) <= Rank(key, ascending, s[j])
    {
      assert s[j] == t[j - 1];
      if i > 0 {
        assert s[i] == t[i - 1];
      }
    }
  }

  function InsertBy<T(!new)>(x: T, s: seq<T>, key: T -> real, ascending: bool): (r: seq<T>)
    requires OrderedBy(s, key, ascending)
    ensures OrderedBy(r, key, ascending)
    ensures multiset(r) == multiset(s) + multiset{x}
    ensures forall y :: y in r ==> y == x || y in s
    decreases |s|
  {
    if s == [] then [x]
    else if Rank(key, ascending, x) < Rank(key, ascending, s[0]) then
      HeadLeast(s, key, ascending);
      ConsOrdered(x, s, key, ascending);
      [x] + s
    else
      var rest := InsertBy(x, s[1..], key, ascending);
      HeadLeast(s, key, ascending);
      ConsOrdered(s[0], rest, key, ascending);
      assert s == [s[0]] + s[1..];
      [s[0]] + rest
  }

  /** `sort_values(by=key, ascending=...)`: a permutation of `s` ordered by `key`. */
  function SortBy<T(!new)>(s: seq<T>, key: T -> real, ascending: bool): (r: seq<T>)
    ensures OrderedBy(r, key, ascending)
    ensures multiset(r) == multiset(s)
    decreases |s|
  {
    if s == [] then []
    else
      assert s == s[..|s| - 1] + [s[|s| - 1]];
      InsertBy(s[|s| - 1], SortBy(s[..|s| - 1], key, ascending), key, ascending)
  }
}
