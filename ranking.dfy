/** pandas `Series.nlargest(n)` / `nsmallest(n)` with the default `keep='first'`,
    over the positions that hold a value: the chosen rows come best first, and
    among equal values the earlier row wins (both for being chosen and for
    order). pandas then tops the answer up to `n` with positions whose value is
    missing; that tail is `TopVBottom.Filled`. */
module Ranking {
  import opened Options
  import opened Seqs

  datatype Direction = Largest | Smallest

  predicate Better(d: Direction, a: real, b: real) {
    match d
    case Largest => a > b
    case Smallest => a < b
  }

  /** Position `i` holds a value. */
  predicate Valid(vs: seq<Option<real>>, i: nat) {
    i < |vs| && vs[i].Some?
  }

  /** Row `i` is ranked before row `k`: a better value, or an equal one at an
      earlier position. */
  predicate Ahead(d: Direction, vs: seq<Option<real>>, i: nat, k: nat) {
    i < |vs| && k < |vs| && vs[i].Some? && vs[k].Some? &&
    (Better(d, vs[i].value, vs[k].value) || (vs[i].value == vs[k].value && i < k))
  }

  /** `Ahead` is a strict total order on the positions holding a value. */
  lemma AheadOrder(d: Direction, vs: seq<Option<real>>)
    ensures forall i: nat :: !Ahead(d, vs, i, i)
    ensures forall i: nat, k: nat, m: nat :: Ahead(d, vs, i, k) && Ahead(d, vs, k, m) ==> Ahead(d, vs, i, m)
    ensures forall i: nat, k: nat :: Valid(vs, i) && Valid(vs, k) && i != k ==> Ahead(d, vs, i, k) || Ahead(d, vs, k, i)
  {
  }

  /** The positions from `k` on whose value is present, in increasing order. */
  function NonNullFrom(vs: seq<Option<real>>, k: nat): (r: seq<nat>)
    ensures forall i: nat :: i in r <==> k <= i && Valid(vs, i)
    ensures forall a, b :: 0 <= a < b < |r| ==> r[a] < r[b]
    decreases |vs| - k
  {
    if k >= |vs| then []
    else
      var rest := NonNullFrom(vs, k + 1);
      assert forall i :: 0 <= i < |rest| ==> k < rest[i] by {
        forall i | 0 <= i < |rest|
          ensures k < rest[i]
        {
          assert rest[i] in rest;
        }
      }
      if vs[k].Some? then [k] + rest else rest
  }

  /** The candidates of a ranking: `series.dropna()` as positions. */
  function NonNull(vs: seq<Option<real>>): (r: seq<nat>)
    ensures forall i: nat :: i in r <==> Valid(vs, i)
    ensures Distinct(r)
  {
    NonNullFrom(vs, 0)
  }

  /** The candidate ranked first. */
  function Best(d: Direction, vs: seq<Option<real>>, cands: seq<nat>): (b: nat)
    requires cands != [] && forall c :: c in cands ==> Valid(vs, c)
    ensures b in cands
    ensures forall c :: c in cands && c != b ==> Ahead(d, vs, b, c)
    decreases |cands|
  {
    if |cands| == 1 then cands[0]
    else
      assert forall c :: c in cands[1..] ==> c in cands;
      var b := Best(d, vs, cands[1..]);
      AheadOrder(d, vs);
      assert forall c :: c in cands ==> c == cands[0] || c in cands[1..];
      if Ahead(d, vs, cands[0], b) then cands[0] else b
  }

  /** The first `n` candidates in ranking order. */
  function Select(d: Direction, vs: seq<Option<real>>, n: nat, cands: seq<nat>): (r: seq<nat>)
    requires Distinct(cands) && forall c :: c in cands ==> Valid(vs, c)
    ensures |r| == if n <= |cands| then n else |cands|
    ensures forall x :: x in r ==> x in cands
    ensures forall a, b :: 0 <= a < b < |r| ==> Ahead(d, vs, r[a], r[b])
    ensures forall x, y :: x in r && y in cands && y !in r ==> Ahead(d, vs, x, y)
    decreases n
  {
    if n == 0 || cands == [] then []
    else
      var b := Best(d, vs, cands);
      var others := Without(cands, b);
      var rest := Select(d, vs, n - 1, others);
      assert forall x :: x in rest ==> x in others;
      assert forall i :: 0 <= i < |rest| ==> Ahead(d, vs, b, rest[i]);
      ConsRanked(d, vs, b, rest);
      ConsBeats(d, vs, b, rest, cands);
      [b] + rest
  }

  /** Putting a position ranked before every element of a ranked list at its
      front keeps the list ranked. */
  lemma ConsRanked(d: Direction, vs: seq<Option<real>>, b: nat, rest: seq<nat>)
    requires forall i :: 0 <= i < |rest| ==> Ahead(d, vs, b, rest[i])
    requires forall a, c :: 0 <= a < c < |rest| ==> Ahead(d, vs, rest[a], rest[c])
    ensures var r := [b] + rest; forall a, c :: 0 <= a < c < |r| ==> Ahead(d, vs, r[a], r[c])
  {
    var r := [b] + rest;
    forall a, c | 0 <= a < c < |r|
      ensures Ahead(d, vs, r[a], r[c])
    {
      assert r[c] == rest[c - 1];
      if a > 0 {
        assert r[a] == rest[a - 1];
      }
    }
  }

  /** The best candidate followed by the selection from the others is ranked
      before every candidate left out. */
  lemma ConsBeats(d: Direction, vs: seq<Option<real>>, b: nat, rest: seq<nat>, cands: seq<nat>)
    requires forall c :: c in cands && c != b ==> Ahead(d, vs, b, c)
    requires forall x, y :: x in rest && y in Without(cands, b) && y !in rest ==> Ahead(d, vs, x, y)
    ensures var r := [b] + rest; forall x, y :: x in r && y in cands && y !in r ==> Ahead(d, vs, x, y)
  {
    var r := [b] + rest;
    forall x, y | x in r && y in cands && y !in r
      ensures Ahead(d, vs, x, y)
    {
      if x != b {
        assert x in rest && y in Without(cands, b);
      }
    }
  }

  /** `series.nlargest(n)` as the positions chosen. */
  function Top(vs: seq<Option<real>>, n: nat): (r: seq<nat>)
    ensures |r| == if n <= |NonNull(vs)| then n else |NonNull(vs)|
    ensures forall x: nat :: x in r ==> Valid(vs, x)
    ensures forall a, b :: 0 <= a < b < |r| ==> Ahead(Largest, vs, r[a], r[b])
    ensures forall x: nat, y: nat :: x in r && Valid(vs, y) && y !in r ==> Ahead(Largest, vs, x, y)
  {
    var cands := NonNull(vs);
    var r := Select(Largest, vs, n, cands);
    assert forall x: nat, y: nat :: x in r && Valid(vs, y) && y !in r ==> Ahead(Largest, vs, x, y) by {
      forall x: nat, y: nat | x in r && Valid(vs, y) && y !in r
        ensures Ahead(Largest, vs, x, y)
      {
        assert y in cands;
      }
    }
    r
  }

  /** `series.nsmallest(n)` as the positions chosen. */
  function Bottom(vs: seq<Option<real>>, n: nat): (r: seq<nat>)
    ensures |r| == if n <= |NonNull(vs)| then n else |NonNull(vs)|
    ensures forall x: nat :: x in r ==> Valid(vs, x)
    ensures forall a, b :: 0 <= a < b < |r| ==> Ahead(Smallest, vs, r[a], r[b])
    ensures forall x: nat, y: nat :: x in r && Valid(vs, y) && y !in r ==> Ahead(Smallest, vs, x, y)
  {
    var cands := NonNull(vs);
    var r := Select(Smallest, vs, n, cands);
    assert forall x: nat, y: nat :: x in r && Valid(vs, y) && y !in r ==> Ahead(Smallest, vs, x, y) by {
      forall x: nat, y: nat | x in r && Valid(vs, y) && y !in r
        ensures Ahead(Smallest, vs, x, y)
      {
        assert y in cands;
      }
    }
    r
  }

  /** Ranking order never repeats a position. */
  lemma RankedDistinct(d: Direction, vs: seq<Option<real>>, r: seq<nat>)
    requires forall a, b :: 0 <= a < b < |r| ==> Ahead(d, vs, r[a], r[b])
    ensures Distinct(r)
  {
    AheadOrder(d, vs);
  }

  /** If one position is in both selections and every candidate is in one of
      them, the candidates number fewer than the two selections together. */
  lemma Overlap(cands: seq<nat>, top: seq<nat>, bottom: seq<nat>, x: nat)
    requires Distinct(cands) && forall y :: y in cands ==> y in top || y in bottom
    requires x in top && x in bottom
    ensures |cands| < |top| + |bottom|
  {
    var c := set y | y in cands;
    var t := set y | y in top;
    var b := set y | y in bottom;
    MembersCount(cands);
    MembersCount(top);
    MembersCount(bottom);
    assert c <= t + b;
    assert |c| <= |t + b| by { CardSubset(c, t + b); }
    assert {x} <= t * b;
    CardSubset({x}, t * b);
  }

  /** Fewer candidates than twice the number asked for, but at least one:
      `nlargest(n)` and `nsmallest(n)` then share a position. */
  lemma MustOverlap(vs: seq<Option<real>>, n: nat)
    requires 0 < |NonNull(vs)| < 2 * n
    ensures exists x :: x in Top(vs, n) && x in Bottom(vs, n)
  {
    var top, bottom, cands := Top(vs, n), Bottom(vs, n), NonNull(vs);
    RankedDistinct(Largest, vs, top);
    RankedDistinct(Smallest, vs, bottom);
    assert |cands| < |top| + |bottom|;
    SeqsMeet(cands, top, bottom);
  }

  /** Two duplicate-free sequences drawn from `cands` whose lengths add up to
      more than its length share an element. */
  lemma SeqsMeet(cands: seq<nat>, top: seq<nat>, bottom: seq<nat>)
    requires Distinct(cands) && Distinct(top) && Distinct(bottom)
    requires forall y :: y in top ==> y in cands
    requires forall y :: y in bottom ==> y in cands
    requires |cands| < |top| + |bottom|
    ensures exists x :: x in top && x in bottom
  {
    var t := set y | y in top;
    var b := set y | y in bottom;
    var c := set y | y in cands;
    MembersCount(cands);
    MembersCount(top);
    MembersCount(bottom);
    SetsMeet(c, t, b);
    var x :| x in t * b;
    assert x in top && x in bottom;
  }

  /** Two subsets of `c` whose sizes add up to more than its size meet. */
  lemma SetsMeet(c: set<nat>, t: set<nat>, b: set<nat>)
    requires t + b <= c && |c| < |t| + |b|
    ensures t * b != {}
  {
    CardSubset(t + b, c);
  }

  lemma CardSubset(a: set<nat>, b: set<nat>)
    requires a <= b
    ensures |a| <= |b|
  {
    assert b == a + (b - a);
  }

  /** A row of `nlargest(n)` below a row of `nsmallest(n)` forces every present
      value into one of the two selections, and that row into both. */
  lemma BelowCovers(vs: seq<Option<real>>, n: nat, t: nat, b: nat)
    requires t in Top(vs, n) && b in Bottom(vs, n)
    requires vs[t].value < vs[b].value
    ensures t in Bottom(vs, n)
    ensures forall y :: y in NonNull(vs) ==> y in Top(vs, n) || y in Bottom(vs, n)
  {
    var bottom := Bottom(vs, n);
    assert Valid(vs, t) && Valid(vs, b);
    assert t !in bottom ==> Ahead(Smallest, vs, b, t);
    forall y | y in NonNull(vs)
      ensures y in Top(vs, n) || y in bottom
    {
      Covered(vs, n, t, b, y);
    }
  }

  /** One present value under the conditions of `BelowCovers` is selected. */
  lemma Covered(vs: seq<Option<real>>, n: nat, t: nat, b: nat, y: nat)
    requires t in Top(vs, n) && b in Bottom(vs, n)
    requires vs[t].value < vs[b].value && Valid(vs, y)
    ensures y in Top(vs, n) || y in Bottom(vs, n)
  {
    if y !in Top(vs, n) && y !in Bottom(vs, n) {
      assert Ahead(Largest, vs, t, y);
      assert Ahead(Smallest, vs, b, y);
      Squeeze(vs, t, b, y);
      assert false;
    }
  }

  /** A row behind `t` in `nlargest` order and behind `b` in `nsmallest` order
      lies between them, so `b`'s value is at most `t`'s. */
  lemma Squeeze(vs: seq<Option<real>>, t: nat, b: nat, y: nat)
    requires Ahead(Largest, vs, t, y) && Ahead(Smallest, vs, b, y)
    ensures vs[b].value <= vs[t].value
  {
    assert vs[y].value <= vs[t].value;
  }

  /** With at least `2n` values present, every value of `nlargest(n)` is at least
      every value of `nsmallest(n)`. */
  lemma TopAboveBottom(vs: seq<Option<real>>, n: nat, t: nat, b: nat)
    requires 2 * n <= |NonNull(vs)|
    requires t in Top(vs, n) && b in Bottom(vs, n)
    ensures vs[t].value >= vs[b].value
  {
    if vs[t].value < vs[b].value {
      BelowCovers(vs, n, t, b);
      Overlap(NonNull(vs), Top(vs, n), Bottom(vs, n), t);
      assert false;
    }
  }

  /** When no two present values are equal, `nlargest(n)` and `nsmallest(n)`
      have no row in common as long as `2n` values are present. */
  lemma TopBottomDisjoint(vs: seq<Option<real>>, n: nat, x: nat)
    requires 2 * n <= |NonNull(vs)|
    requires forall i: nat, k: nat :: Valid(vs, i) && Valid(vs, k) && i != k ==> vs[i].value != vs[k].value
    ensures !(x in Top(vs, n) && x in Bottom(vs, n))
  {
    var top, bottom, cands := Top(vs, n), Bottom(vs, n), NonNull(vs);
    if x in top && x in bottom {
      assert Valid(vs, x);
      forall y | y in cands
        ensures y in top || y in bottom
      {
        assert Valid(vs, y);
        assert y !in top ==> Ahead(Largest, vs, x, y) && y != x;
        assert y !in bottom ==> Ahead(Smallest, vs, x, y);
      }
      Overlap(cands, top, bottom, x);
      assert false;
    }
  }

  /** Four equal values. */
  function FourEqual(): seq<Option<real>> {
    [Some(1.0), Some(1.0), Some(1.0), Some(1.0)]
  }

  lemma FourEqualPresent()
    ensures NonNull(FourEqual()) == [0, 1, 2, 3]
  {
    var vs := FourEqual();
    assert NonNullFrom(vs, 4) == [];
    assert NonNullFrom(vs, 3) == [3];
    assert NonNullFrom(vs, 2) == [2, 3];
    assert NonNullFrom(vs, 1) == [1, 2, 3];
  }

  /** When every present value is the same, the first row holding one is chosen
      by both `nlargest` and `nsmallest`: ties go to the earlier row. */
  lemma FirstOfEqualChosen(vs: seq<Option<real>>, n: nat, d: Direction)
    requires 1 <= n && Valid(vs, 0)
    requires forall i: nat :: Valid(vs, i) ==> vs[i] == vs[0]
    ensures 0 in Select(d, vs, n, NonNull(vs))
  {
    var r := Select(d, vs, n, NonNull(vs));
    assert 0 in NonNull(vs);
    assert r[0] in r;
    assert 0 !in r ==> Ahead(d, vs, r[0], 0);
  }

  /** With equal values the two selections can share rows even when `2n`
      values are present: of four equal values, both pick the first. */
  lemma TiesShareRows()
    ensures 2 * 2 <= |NonNull(FourEqual())| && 0 in Top(FourEqual(), 2) && 0 in Bottom(FourEqual(), 2)
  {
    FourEqualPresent();
    FirstOfEqualChosen(FourEqual(), 2, Largest);
    FirstOfEqualChosen(FourEqual(), 2, Smallest);
  }
}
