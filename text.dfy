/** The Python `str` operations the dashboard applies to column names, labels
    and search text, over `seq<char>`. Case mapping covers ASCII letters only;
    white space is what `str.isspace` accepts. */
module Text {

  predicate IsSpace(c: char) {
    c == ' ' || '\t' <= c <= '\r' || '\U{1C}' <= c <= '\U{1F}' ||
    c == '\U{85}' || c == '\U{A0}' || c == '\U{1680}' || '\U{2000}' <= c <= '\U{200A}' ||
    c == '\U{2028}' || c == '\U{2029}' || c == '\U{202F}' || c == '\U{205F}' || c == '\U{3000}'
  }

  predicate IsUpper(c: char) { 'A' <= c <= 'Z' }
  predicate IsLower(c: char) { 'a' <= c <= 'z' }
  /** A letter that has a case; `str.title` restarts a word after anything else. */
  predicate IsCased(c: char) { IsUpper(c) || IsLower(c) }

  function LowerChar(c: char): char {
    if IsUpper(c) then (c as int + 32) as char else c
  }

  function UpperChar(c: char): char {
    if IsLower(c) then (c as int - 32) as char else c
  }

  /** The case maps keep a character's class: letters stay letters, white space
      stays white space, and mapping twice is mapping once. */
  lemma CaseMaps()
    ensures forall c :: IsCased(LowerChar(c)) == IsCased(c) && IsSpace(LowerChar(c)) == IsSpace(c)
    ensures forall c :: IsCased(UpperChar(c)) == IsCased(c) && IsSpace(UpperChar(c)) == IsSpace(c)
    ensures forall c :: LowerChar(LowerChar(c)) == LowerChar(c) && UpperChar(UpperChar(c)) == UpperChar(c)
    ensures forall c :: !IsUpper(LowerChar(c)) && !IsLower(UpperChar(c))
  {
  }

  /** `s.lower()` */
  function Lower(s: string): (r: string)
    ensures |r| == |s|
    ensures forall i :: 0 <= i < |s| ==> !IsUpper(r[i]) && LowerChar(s[i]) == r[i]
    ensures forall i :: 0 <= i < |s| ==> (IsSpace(r[i]) <==> IsSpace(s[i]))
    decreases |s|
  {
    if s == [] then [] else [LowerChar(s[0])] + Lower(s[1..])
  }

  lemma {:induction false} LowerIdempotent(s: string)
    ensures Lower(Lower(s)) == Lower(s)
  {
    var l := Lower(s);
    assert forall i :: 0 <= i < |l| ==> Lower(l)[i] == l[i];
  }

  /** Lower-casing checked character by character. */
  lemma LowerMatches(s: string, t: string)
    requires |s| == |t| && forall i :: 0 <= i < |s| ==> LowerChar(s[i]) == t[i]
    ensures Lower(s) == t
  {
  }

  function TitleFrom(s: string, prevCased: bool): (r: string)
    ensures |r| == |s|
    ensures s != [] ==> r[0] == if prevCased then LowerChar(s[0]) else UpperChar(s[0])
    ensures forall i :: 0 < i < |s| ==>
      r[i] == if IsCased(s[i - 1]) then LowerChar(s[i]) else UpperChar(s[i])
    ensures forall i :: 0 <= i < |s| ==> (IsCased(r[i]) <==> IsCased(s[i])) && (IsSpace(r[i]) <==> IsSpace(s[i]))
    decreases |s|
  {
    CaseMaps();
    if s == [] then []
    else
      var c := if prevCased then LowerChar(s[0]) else UpperChar(s[0]);
      [c] + TitleFrom(s[1..], IsCased(s[0]))
  }

  /** `s.title()`: a cased letter is upper-case when it starts a word (no cased
      letter right before it) and lower-case otherwise. */
  function Title(s: string): (r: string)
    ensures |r| == |s|
    ensures forall i :: 0 <= i < |s| ==>
      r[i] == if i > 0 && IsCased(s[i - 1]) then LowerChar(s[i]) else UpperChar(s[i])
    ensures forall i :: 0 <= i < |s| ==> (IsCased(r[i]) <==> IsCased(s[i])) && (IsSpace(r[i]) <==> IsSpace(s[i]))
  {
    TitleFrom(s, false)
  }

  /** Title-casing is causal: a prefix is title-cased on its own. */
  lemma TitlePrefix(p: string, q: string)
    ensures Title(p + q)[..|p|] == Title(p)
  {
    var s := p + q;
    forall i | 0 <= i < |p|
      ensures Title(s)[i] == Title(p)[i]
    {
      assert s[i] == p[i];
      if i > 0 {
        assert s[i - 1] == p[i - 1];
      }
    }
  }

  lemma TitleIdempotent(s: string)
    ensures Title(Title(s)) == Title(s)
  {
    CaseMaps();
    var t := Title(s);
    forall i | 0 <= i < |s|
      ensures Title(t)[i] == t[i]
    {
      if i > 0 {
        assert IsCased(t[i - 1]) == IsCased(s[i - 1]);
      }
    }
  }

  /** Index of the first character that is not white space. */
  function StripStart(s: string): (r: string)
    ensures |r| <= |s| && r == s[|s| - |r|..]
    ensures r == [] || !IsSpace(r[0])
    ensures forall k :: 0 <= k < |s| - |r| ==> IsSpace(s[k])
    decreases |s|
  {
    if s != [] && IsSpace(s[0]) then StripStart(s[1..]) else s
  }

  function StripEnd(s: string): (r: string)
    ensures |r| <= |s| && r == s[..|r|]
    ensures r == [] || !IsSpace(r[|r| - 1])
    ensures forall k :: |r| <= k < |s| ==> IsSpace(s[k])
    decreases |s|
  {
    if s != [] && IsSpace(s[|s| - 1]) then StripEnd(s[..|s| - 1]) else s
  }

  /** `r` is the slice of `s` starting at `a`, and everything of `s` outside the
      slice is white space. */
  ghost predicate TrimmedAt(s: string, r: string, a: int) {
    0 <= a && a + |r| <= |s| && r == s[a..a + |r|] &&
    (forall k :: 0 <= k < a ==> IsSpace(s[k])) &&
    (forall k :: a + |r| <= k < |s| ==> IsSpace(s[k]))
  }

  /** `s.strip()`: the slice of `s` left after removing white space from both
      ends; it neither starts nor ends with white space. */
  function Strip(s: string): (r: string)
    ensures r == [] || (!IsSpace(r[0]) && !IsSpace(r[|r| - 1]))
    ensures exists a :: TrimmedAt(s, r, a)
  {
    var t := StripStart(s);
    TrimmedBothEnds(s, t, StripEnd(t));
    StripEnd(t)
  }

  /** A prefix `r` of a suffix `t` of `s`, with white space before `t` and between
      the end of `r` and the end of `t`, is a trimmed slice of `s`. */
  lemma TrimmedBothEnds(s: string, t: string, r: string)
    requires |t| <= |s| && t == s[|s| - |t|..]
    requires forall k :: 0 <= k < |s| - |t| ==> IsSpace(s[k])
    requires |r| <= |t| && r == t[..|r|]
    requires forall k :: |r| <= k < |t| ==> IsSpace(t[k])
    ensures TrimmedAt(s, r, |s| - |t|)
  {
    var a := |s| - |t|;
    assert s[a..a + |r|] == r;
    forall k | a + |r| <= k < |s|
      ensures IsSpace(s[k])
    {
      assert s[k] == t[k - a];
    }
  }

  /** Strip leaves a string alone exactly when it has no white space at either end. */
  lemma StripFixed(s: string)
    ensures Strip(s) == s <==> (s == [] || (!IsSpace(s[0]) && !IsSpace(s[|s| - 1])))
  {
  }

  /** `s.startswith(p)` */
  predicate StartsWith(s: string, p: string) {
    |p| <= |s| && s[..|p|] == p
  }

  /** `s.endswith(p)` */
  predicate EndsWith(s: string, p: string) {
    |p| <= |s| && s[|s| - |p|..] == p
  }

  /** `p in s`, Python's substring test. */
  predicate Contains(s: string, p: string)
    decreases |s|
  {
    StartsWith(s, p) || (s != [] && Contains(s[1..], p))
  }

  ghost predicate OccursAt(s: string, p: string, i: int) {
    0 <= i && i + |p| <= |s| && s[i..i + |p|] == p
  }

  /** The substring test holds exactly when `p` occurs at some position. */
  lemma {:induction false} ContainsAt(s: string, p: string)
    ensures Contains(s, p) <==> exists i :: OccursAt(s, p, i)
    decreases |s|
  {
    if s != [] {
      ContainsAt(s[1..], p);
      if exists i :: OccursAt(s, p, i) {
        var i :| OccursAt(s, p, i);
        if i > 0 {
          assert OccursAt(s[1..], p, i - 1);
        }
      }
      if StartsWith(s, p) {
        assert OccursAt(s, p, 0);
      }
      if Contains(s[1..], p) {
        var i :| OccursAt(s[1..], p, i);
        assert s[1..][i..i + |p|] == s[i + 1..i + 1 + |p|];
        assert OccursAt(s, p, i + 1);
      }
    } else {
      if exists i :: OccursAt(s, p, i) {
        var i :| OccursAt(s, p, i);
        assert s[..|p|] == p;
      }
      if Contains(s, p) {
        assert OccursAt(s, p, 0);
      }
    }
  }

  /** A string holding no copy of some character of `p` does not contain `p`. */
  lemma {:induction false} MissingChar(s: string, p: string, k: nat)
    requires k < |p| && p[k] !in s
    ensures !Contains(s, p)
    decreases |s|
  {
    if s != [] {
      MissingChar(s[1..], p, k);
    }
    if |p| <= |s| {
      assert s[..|p|][k] == s[k];
    }
  }

  /** Every string contains the empty string. */
  lemma ContainsEmpty(s: string)
    ensures Contains(s, [])
  {
    assert StartsWith(s, []);
  }

  /** A string ends with an occurrence of what was appended to it. */
  lemma ContainsSuffix(b: string, p: string)
    ensures Contains(b + p, p)
  {
    ContainsAt(b + p, p);
    assert (b + p)[|b|..|b| + |p|] == p;
    assert OccursAt(b + p, p, |b|);
  }

  /** An occurrence of `p` that straddles the seam of `b + q` puts the first
      character of `q` inside `p`, past its start. */
  lemma Straddle(b: string, q: string, p: string, i: int)
    requires q != []
    ensures OccursAt(b + q, p, i) && i < |b| < i + |p| ==> q[0] in p[1..]
  {
    if OccursAt(b + q, p, i) && i < |b| < i + |p| {
      var s := b + q;
      var k := |b| - i;
      assert s[i..i + |p|][k] == s[|b|];
      assert p[1..][k - 1] == p[k];
    }
  }

  /** An occurrence in `b + q` lies within `b` or within `q` when the first
      character of `q` occurs in `p` only at its start. */
  lemma OccursSplit(b: string, q: string, p: string, i: int)
    requires p != [] && q != [] && q[0] !in p[1..]
    requires OccursAt(b + q, p, i)
    ensures OccursAt(b, p, i) || OccursAt(q, p, i - |b|)
  {
    var s := b + q;
    Straddle(b, q, p, i);
    if i + |p| <= |b| {
      assert s[i..i + |p|] == b[i..i + |p|];
    } else if i >= |b| {
      assert s[i..i + |p|] == q[i - |b|..i - |b| + |p|];
    }
  }

  lemma ConcatAvoids(b: string, q: string, p: string)
    requires p != [] && q != [] && q[0] !in p[1..]
    requires !Contains(b, p) && !Contains(q, p)
    ensures !Contains(b + q, p)
  {
    ContainsAt(b + q, p);
    ContainsAt(b, p);
    ContainsAt(q, p);
    if Contains(b + q, p) {
      var i :| OccursAt(b + q, p, i);
      OccursSplit(b, q, p, i);
      assert false;
    }
  }

  /** `s.replace(p, '')`: removes every non-overlapping occurrence of `p`, scanning left to right. */
  function RemoveAll(s: string, p: string): (r: string)
    requires p != []
    ensures |r| <= |s|
    decreases |s|
  {
    if |s| < |p| then s
    else if s[..|p|] == p then RemoveAll(s[|p|..], p)
    else [s[0]] + RemoveAll(s[1..], p)
  }

  /** With no occurrence of `p`, the replacement changes nothing. */
  lemma {:induction false} RemoveAllAbsent(s: string, p: string)
    requires p != [] && !Contains(s, p)
    ensures RemoveAll(s, p) == s
    decreases |s|
  {
    if |s| >= |p| {
      RemoveAllAbsent(s[1..], p);
    }
  }

  /** When the first character of `p` occurs nowhere else in `p` (true of " Value"
      and " Category"), replacing `p` in `b + p` removes exactly that suffix,
      provided `b` does not itself contain `p`. */
  lemma {:induction false} RemoveAllSuffix(b: string, p: string)
    requires p != [] && p[0] !in p[1..]
    requires !Contains(b, p)
    ensures RemoveAll(b + p, p) == b
    decreases |b|
  {
    var s := b + p;
    if b == [] {
      assert s == p;
      assert s[|p|..] == [];
    } else {
      RemoveAllCons(b, p);
      RemoveAllSuffix(b[1..], p);
      assert b == [b[0]] + b[1..];
    }
  }

  /** Replacing in `b + p` keeps the first character of `b` and goes on after it. */
  lemma RemoveAllCons(b: string, p: string)
    requires b != [] && p != [] && p[0] !in p[1..]
    requires !Contains(b, p)
    ensures RemoveAll(b + p, p) == [b[0]] + RemoveAll(b[1..] + p, p)
  {
    var c, t := b[0], b[1..] + p;
    assert b + p == [c] + t;
    NotAtFront(b, p);
    RemoveAllStep(c, t, p);
  }

  /** Where `[c] + t` does not start with `p`, the replacement keeps `c`. */
  lemma RemoveAllStep(c: char, t: string, p: string)
    requires p != [] && |[c] + t| >= |p| && ([c] + t)[..|p|] != p
    ensures RemoveAll([c] + t, p) == [c] + RemoveAll(t, p)
  {
    assert ([c] + t)[0] == c && ([c] + t)[1..] == t;
  }

  /** Under the conditions of `RemoveAllSuffix`, `b + p` does not start with `p`
      when `b` is not empty. */
  lemma NotAtFront(b: string, p: string)
    requires b != [] && p != [] && p[0] !in p[1..]
    requires !Contains(b, p)
    ensures (b + p)[..|p|] != p
  {
    var s := b + p;
    if |b| >= |p| {
      assert s[..|p|] == b[..|p|] && !StartsWith(b, p);
    } else {
      assert p[|b|] == p[1..][|b| - 1];
      assert s[..|p|][|b|] == p[0];
    }
  }

  /** Python's `<` on strings: lexicographic by code point, a proper prefix first. */
  predicate Less(a: string, b: string)
    decreases |a|
  {
    b != [] && (a == [] || a[0] < b[0] || (a[0] == b[0] && Less(a[1..], b[1..])))
  }

  lemma {:induction false} LessIrreflexive(a: string)
    ensures !Less(a, a)
    decreases |a|
  {
    if a != [] {
      LessIrreflexive(a[1..]);
    }
  }

  lemma {:induction false} LessTransitive(a: string, b: string, c: string)
    requires Less(a, b) && Less(b, c)
    ensures Less(a, c)
    decreases |a|
  {
    if a != [] && a[0] == b[0] && b[0] == c[0] {
      LessTransitive(a[1..], b[1..], c[1..]);
    }
  }

  lemma {:induction false} LessTotal(a: string, b: string)
    requires a != b
    ensures Less(a, b) || Less(b, a)
    decreases |a|
  {
    if a != [] && b != [] && a[0] == b[0] {
      assert a == [a[0]] + a[1..] && b == [b[0]] + b[1..];
      LessTotal(a[1..], b[1..]);
    }
  }
}
