/** Order-preserving selection over sequences: the shape of every boolean-mask
    filter `df[mask]` in the dashboard. */
module Seqs {
  import opened Options


  /** `a` is an order-preserving sub-sequence of `b`. */
  ghost predicate IsSubseq<T>(a: seq<T>, b: seq<T>)
    decreases |b|
  {
    a == [] ||
    (b != [] && ((a[0] == b[0] && IsSubseq(a[1..], b[1..])) || IsSubseq(a, b[1..])))
  }

  lemma {:induction false} SubseqRefl<T>(a: seq<T>)
    ensures IsSubseq(a, a)
    decreases |a|
  {
    if a != [] {
      SubseqRefl(a[1..]);
    }
  }

  lemma {:induction false} SubseqTrans<T>(a: seq<T>, b: seq<T>, c: seq<T>)
    requires IsSubseq(a, b) && IsSubseq(b, c)
    ensures IsSubseq(a, c)
    decreases |c|
  {
    if a != [] {
      assert b != [] && c != [];
      if IsSubseq(b, c[1..]) {
        SubseqTrans(a, b, c[1..]);
      } else {
        assert b[0] == c[0] && IsSubseq(b[1..], c[1..]);
        if a[0] == b[0] && IsSubseq(a[1..], b[1..]) {
          SubseqTrans(a[1..], b[1..], c[1..]);
        } else {
          SubseqTrans(a, b[1..], c[1..]);
        }
      }
    }
  }

  /** Every element of a sub-sequence occurs in the sequence. */
  lemma {:induction false} SubseqMembers<T>(a: seq<T>, b: seq<T>)
    requires IsSubseq(a, b)
    ensures forall x :: x in a ==> x in b
    ensures |a| <= |b|
    decreases |b|
  {
    if a != [] {
      if a[0] == b[0] && IsSubseq(a[1..], b[1..]) {
        SubseqMembers(a[1..], b[1..]);
        assert a == [a[0]] + a[1..];
      } else {
        SubseqMembers(a, b[1..]);
      }
    }
  }

  /** `s[mask]`: the elements of `s` satisfying `p`, in their original order.
      The three ensures together determine the result: it is a sub-sequence,
      it keeps nothing that fails `p`, and it keeps every occurrence of
      everything that satisfies `p`. */
  function Where<T(!new)>(s: seq<T>, p: T -> bool): (r: seq<T>)
    ensures IsSubseq(r, s)
    ensures forall x :: x in r <==> x in s && p(x)
    ensures forall x :: multiset(r)[x] == if p(x) then multiset(s)[x] else 0
    decreases |s|
  {
    if s == [] then []
    else
      var rest := Where(s[1..], p);
      assert s == [s[0]] + s[1..];
      if p(s[0]) then
        assert ([s[0]] + rest)[1..] == rest;
        [s[0]] + rest
      else
        rest
  }

  /** Keeps a row exactly when `p` holds: members of the result are the members
      of `s` that satisfy `p`. */
  lemma WhereMembers<T(!new)>(s: seq<T>, p: T -> bool, x: T)
    ensures x in Where(s, p) <==> x in s && p(x)
  {
    assert x in Where(s, p) <==> multiset(Where(s, p))[x] > 0;
    assert x in s <==> multiset(s)[x] > 0;
  }

  /** A filter that everything passes keeps everything. */
  lemma {:induction false} WhereAll<T(!new)>(s: seq<T>, p: T -> bool)
    requires forall x :: x in s ==> p(x)
    ensures Where(s, p) == s
    decreases |s|
  {
    if s != [] {
      WhereAll(s[1..], p);
    }
  }

  /** A filter that nothing passes keeps nothing. */
  lemma {:induction false} WhereNone<T(!new)>(s: seq<T>, p: T -> bool)
    requires forall x :: x in s ==> !p(x)
    ensures Where(s, p) == []
    decreases |s|
  {
    if s != [] {
      WhereNone(s[1..], p);
    }
  }

  /** Filtering a sequence with one element in front. */
  lemma WhereCons<T(!new)>(x: T, s: seq<T>, p: T -> bool)
    ensures Where([x] + s, p) == if p(x) then [x] + Where(s, p) else Where(s, p)
  {
    assert ([x] + s)[0] == x && ([x] + s)[1..] == s;
  }

  /** Filtering a concatenation filters each part. */
  lemma {:induction false} WhereAppend<T(!new)>(a: seq<T>, b: seq<T>, p: T -> bool)
    ensures Where(a + b, p) == Where(a, p) + Where(b, p)
    decreases |a|
  {
    if a != [] {
      var x, t := a[0], a[1..];
      assert a == [x] + t;
      assert a + b == [x] + (t + b);
      WhereCons(x, t, p);
      WhereCons(x, t + b, p);
      WhereAppend(t, b, p);
      if p(x) {
        assert [x] + (Where(t, p) + Where(b, p)) == ([x] + Where(t, p)) + Where(b, p);
      }
    } else {
      assert a + b == b;
    }
  }

  /** Only the values a predicate takes on the elements matter. */
  lemma {:induction false} WhereCongruent<T(!new)>(s: seq<T>, p: T -> bool, q: T -> bool)
    requires forall x :: x in s ==> p(x) == q(x)
    ensures Where(s, p) == Where(s, q)
    decreases |s|
  {
    if s != [] {
      assert forall x :: x in s[1..] ==> x in s;
      WhereCongruent(s[1..], p, q);
    }
  }

  /** A filter and its complement split a sequence: together they keep every
      element exactly as often as it occurs. */
  lemma WherePartition<T(!new)>(s: seq<T>, p: T -> bool, q: T -> bool)
    requires forall x :: q(x) == !p(x)
    ensures multiset(Where(s, p)) + multiset(Where(s, q)) == multiset(s)
  {
    forall x
      ensures (multiset(Where(s, p)) + multiset(Where(s, q)))[x] == multiset(s)[x]
    {
    }
  }

  ghost predicate Distinct<T>(s: seq<T>) {
    forall i, j :: 0 <= i < j < |s| ==> s[i] != s[j]
  }

  /** `s` with the one element `x` removed. */
  function Without<T(==,!new)>(s: seq<T>, x: T): (r: seq<T>)
    ensures forall y :: y in r <==> y in s && y != x
    ensures x !in s ==> r == s
    ensures Distinct(s) ==> Distinct(r)
    ensures Distinct(s) && x in s ==> |r| == |s| - 1
    decreases |s|
  {
    if s == [] then []
    else
      var rest := Without(s[1..], x);
      assert Distinct(s) ==> Distinct(s[1..]) && s[0] !in s[1..];
      if s[0] == x then rest
      else [s[0]] + rest
  }

  /** A sequence has at least as many positions as distinct members, exactly as
      many when it repeats nothing. */
  lemma {:induction false} MembersCount<T>(s: seq<T>)
    ensures |set x | x in s| <= |s|
    ensures Distinct(s) ==> |set x | x in s| == |s|
    decreases |s|
  {
    if s != [] {
      MembersCount(s[1..]);
      assert (set x | x in s) == {s[0]} + (set x | x in s[1..]);
      assert Distinct(s) ==> Distinct(s[1..]) && s[0] !in s[1..];
    }
  }

  /** Removing position `k` removes one occurrence of `s[k]`. */
  lemma MultisetRemove<T>(s: seq<T>, k: nat)
    requires k < |s|
    ensures multiset(s[..k] + s[k + 1..]) == multiset(s) - multiset{s[k]}
  {
    assert s == s[..k] + [s[k]] + s[k + 1..];
  }

  /** Two repetition-free sequences with the same members have the same length. */
  lemma SameMembersSameLength<T>(a: seq<T>, b: seq<T>)
    requires Distinct(a) && Distinct(b)
    requires forall x :: x in a <==> x in b
    ensures |a| == |b|
  {
    MembersCount(a);
    MembersCount(b);
    assert (set x | x in a) == (set x | x in b);
  }

  /** Position of the first occurrence of `x` (`list.index`), `None` when absent. */
  function IndexOf<T(==)>(s: seq<T>, x: T): (k: Option<nat>)
    ensures k.None? <==> x !in s
    ensures k.Some? ==> k.value < |s| && s[k.value] == x && x !in s[..k.value]
    decreases |s|
  {
    if s == [] then None
    else if s[0] == x then Some(0)
    else
      match IndexOf(s[1..], x)
      case None => None
      case Some(k) =>
        assert s[1..][..k] == s[1..k + 1];
        assert s[..k + 1] == [s[0]] + s[1..k + 1];
        Some(k + 1)
  }
}
