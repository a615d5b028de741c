/** pandas Series reductions over a numeric column: `dropna`, `sum`, `min`,
    `max`, `mean` and `median`, all of which skip missing values. */
module Stats {
  import opened Options
  import Sorting

  /** `s.dropna()` on a numeric column: the present values, in order. */
  function Present(vs: seq<Option<real>>): (r: seq<real>)
    ensures |r| <= |vs|
    ensures forall x :: x in r <==> Some(x) in vs
    ensures r == [] <==> forall v :: v in vs ==> v.None?
    ensures forall x :: multiset(r)[x] == multiset(vs)[Some(x)]
    decreases |vs|
  {
    if vs == [] then []
    else
      assert vs == [vs[0]] + vs[1..];
      var rest := Present(vs[1..]);
      match vs[0]
      case Some(x) => [x] + rest
      case None => rest
  }

  function Sum(xs: seq<real>): real
    decreases |xs|
  {
    if xs == [] then 0.0 else xs[0] + Sum(xs[1..])
  }

  function MinOf(xs: seq<real>): (m: real)
    requires xs != []
    ensures m in xs && forall x :: x in xs ==> m <= x
    decreases |xs|
  {
    if |xs| == 1 then xs[0]
    else
      var m := MinOf(xs[1..]);
      assert xs == [xs[0]] + xs[1..];
      if xs[0] <= m then xs[0] else m
  }

  function MaxOf(xs: seq<real>): (m: real)
    requires xs != []
    ensures m in xs && forall x :: x in xs ==> x <= m
    decreases |xs|
  {
    if |xs| == 1 then xs[0]
    else
      var m := MaxOf(xs[1..]);
      assert xs == [xs[0]] + xs[1..];
      if xs[0] >= m then xs[0] else m
  }

  /** A sum of values in [lo, hi] lies between n * lo and n * hi. */
  lemma {:induction false} SumBounds(xs: seq<real>, lo: real, hi: real)
    requires forall x :: x in xs ==> lo <= x <= hi
    ensures |xs| as real * lo <= Sum(xs) <= |xs| as real * hi
    decreases |xs|
  {
    if xs != [] {
      assert forall x :: x in xs[1..] ==> x in xs;
      SumBounds(xs[1..], lo, hi);
      assert xs[0] in xs;
      assert |xs| as real * lo == lo + (|xs| - 1) as real * lo;
      assert |xs| as real * hi == hi + (|xs| - 1) as real * hi;
    }
  }

  lemma DivBounds(s: real, n: real, lo: real, hi: real)
    requires n > 0.0 && n * lo <= s <= n * hi
    ensures lo <= s / n <= hi
  {
    var q := s / n;
    assert q * n == s;
    assert (q - lo) * n >= 0.0;
    assert (hi - q) * n >= 0.0;
  }

  /** `s.mean()`: lies between the smallest and the largest value. */
  function Mean(xs: seq<real>): (m: real)
    requires xs != []
    ensures MinOf(xs) <= m <= MaxOf(xs)
  {
    var n := |xs| as real;
    SumBounds(xs, MinOf(xs), MaxOf(xs));
    DivBounds(Sum(xs), n, MinOf(xs), MaxOf(xs));
    Sum(xs) / n
  }

  /** `s.median()`: the middle value of the sorted values, or the average of
      the two middle values when there is an even number of them. */
  function Median(xs: seq<real>): (m: real)
    requires xs != []
    ensures MinOf(xs) <= m <= MaxOf(xs)
  {
    var s := Sorting.SortBy(xs, x => x, true);
    var k := |xs| / 2;
    SortedWithin(xs);
    if |xs| % 2 == 1 then s[k] else (s[k - 1] + s[k]) / 2.0
  }

  /** Sorting keeps the values, so every sorted value lies between the least
      and the greatest. */
  lemma SortedWithin(xs: seq<real>)
    requires xs != []
    ensures var s := Sorting.SortBy(xs, x => x, true);
      |s| == |xs| && forall i :: 0 <= i < |s| ==> MinOf(xs) <= s[i] <= MaxOf(xs)
  {
    var s := Sorting.SortBy(xs, x => x, true);
    assert |multiset(s)| == |multiset(xs)|;
    forall i | 0 <= i < |s|
      ensures MinOf(xs) <= s[i] <= MaxOf(xs)
    {
      assert s[i] in multiset(s);
      assert s[i] in xs;
    }
  }

  /** `s.mean()` on a column with missing values: the mean of the present
      ones, or missing (NaN) when none is present. */
  function MeanOf(vs: seq<Option<real>>): (m: Option<real>)
    ensures m.None? <==> Present(vs) == []
    ensures m.Some? ==> MinOf(Present(vs)) <= m.value <= MaxOf(Present(vs))
  {
    var xs := Present(vs);
    if xs == [] then None else Some(Mean(xs))
  }

  /** The figures a page shows for a column (standard deviation excepted). */
  datatype Summary = Summary(mean: real, median: real, min: real, max: real)

  /** The statistics row over the present values; `None` for a column with
      no value, where the page shows nothing. */
  function Describe(vs: seq<Option<real>>): (r: Option<Summary>)
    ensures r.None? <==> forall v :: v in vs ==> v.None?
    ensures r.Some? ==> r.value.min <= r.value.median <= r.value.max
    ensures r.Some? ==> r.value.min <= r.value.mean <= r.value.max
    ensures r.Some? ==> Some(r.value.min) in vs && Some(r.value.max) in vs
    ensures r.Some? ==> forall v :: v in vs && v.Some? ==> r.value.min <= v.value <= r.value.max
  {
    var xs := Present(vs);
    if xs == [] then None
    else
      assert forall v :: v in vs && v.Some? ==> v.value in xs;
      Some(Summary(Mean(xs), Median(xs), MinOf(xs), MaxOf(xs)))
  }
}
