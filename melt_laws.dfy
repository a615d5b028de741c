/** Laws of the long format: how many rows a melt produces, and that keeping
    one indicator of a melt gives back that column of the wide rows. */
module MeltLaws {
  import opened Seqs
  import opened Frames

  /** Each column melted contributes one long row per wide row. */
  lemma {:induction false} MeltFromSize(ws: seq<Wide>, names: seq<string>, c: nat)
    requires c <= |names| && forall w :: w in ws ==> |w.values| == |names|
    ensures |MeltFrom(ws, names, c)| == (|names| - c) * |ws|
    decreases |names| - c
  {
    if c < |names| {
      MeltFromSize(ws, names, c + 1);
      assert (|names| - c) * |ws| == |ws| + (|names| - (c + 1)) * |ws|;
    }
  }

  /** A melt has one long row per column and wide row. */
  lemma MeltSize(ws: seq<Wide>, names: seq<string>)
    requires forall w :: w in ws ==> |w.values| == |names|
    ensures |Melt(ws, names)| == |names| * |ws|
  {
    MeltFromSize(ws, names, 0);
  }

  /** Keeping one indicator of a concatenation keeps it in each part. */
  lemma OfIndicatorAppend(a: seq<Long>, b: seq<Long>, name: string)
    ensures OfIndicator(a + b, name) == OfIndicator(a, name) + OfIndicator(b, name)
  {
    WhereAppend(a, b, (x: Long) => x.indicator == name);
  }

  /** A block holds the chosen indicator in every row or in none. */
  lemma BlockSelect(ws: seq<Wide>, names: seq<string>, c: nat, d: nat)
    requires c < |names| && d < |names| && forall w :: w in ws ==> |w.values| == |names|
    ensures OfIndicator(Block(ws, names, d), names[c]) ==
      if names[d] == names[c] then Block(ws, names, d) else []
  {
    var p := (x: Long) => x.indicator == names[c];
    if names[d] == names[c] {
      WhereAll(Block(ws, names, d), p);
    } else {
      WhereNone(Block(ws, names, d), p);
    }
  }

  /** Melting splits into the first block and the melt of the columns after it. */
  lemma MeltFromSplit(ws: seq<Wide>, names: seq<string>, c: nat, from: nat)
    requires c < |names| && from < |names|
    requires forall w :: w in ws ==> |w.values| == |names|
    ensures OfIndicator(MeltFrom(ws, names, from), names[c]) ==
      OfIndicator(Block(ws, names, from), names[c]) + OfIndicator(MeltFrom(ws, names, from + 1), names[c])
  {
    OfIndicatorAppend(Block(ws, names, from), MeltFrom(ws, names, from + 1), names[c]);
  }

  /** Past the chosen column, the melt holds none of its rows: every row there
      carries a later column's name, and the names are distinct. */
  lemma MeltSelectAfter(ws: seq<Wide>, names: seq<string>, c: nat, from: nat)
    requires c < from <= |names| && Distinct(names)
    requires forall w :: w in ws ==> |w.values| == |names|
    ensures OfIndicator(MeltFrom(ws, names, from), names[c]) == []
  {
    var ls := MeltFrom(ws, names, from);
    forall x | x in ls
      ensures x.indicator != names[c]
    {
      var k :| 0 <= k < |names[from..]| && names[from..][k] == x.indicator;
      assert names[from + k] == x.indicator;
    }
    WhereNone(ls, (x: Long) => x.indicator == names[c]);
  }

  /** At the chosen column, the selection is that column's block. */
  lemma MeltSelectAt(ws: seq<Wide>, names: seq<string>, c: nat)
    requires c < |names| && Distinct(names)
    requires forall w :: w in ws ==> |w.values| == |names|
    ensures OfIndicator(MeltFrom(ws, names, c), names[c]) == Block(ws, names, c)
  {
    MeltFromSplit(ws, names, c, c);
    BlockSelect(ws, names, c, c);
    MeltSelectAfter(ws, names, c, c + 1);
    var b := Block(ws, names, c);
    assert b + [] == b;
  }

  /** The melted blocks of the columns from `from` up to, not including, `upto`. */
  function MeltBetween(ws: seq<Wide>, names: seq<string>, from: nat, upto: nat): (r: seq<Long>)
    requires from <= upto <= |names| && forall w :: w in ws ==> |w.values| == |names|
    ensures forall x :: x in r ==> x.indicator in names[from..upto]
    decreases upto - from
  {
    if from == upto then []
    else
      var b := Block(ws, names, from);
      var rest := MeltBetween(ws, names, from + 1, upto);
      assert forall x :: x in b ==> x.indicator == names[from];
      assert names[from..upto] == [names[from]] + names[from + 1..upto];
      b + rest
  }

  /** A melt is the blocks before a column followed by the melt from it on. */
  lemma {:induction false} MeltFromPrefix(ws: seq<Wide>, names: seq<string>, from: nat, upto: nat)
    requires from <= upto <= |names| && forall w :: w in ws ==> |w.values| == |names|
    ensures MeltFrom(ws, names, from) == MeltBetween(ws, names, from, upto) + MeltFrom(ws, names, upto)
    decreases upto - from
  {
    if from < upto {
      MeltFromPrefix(ws, names, from + 1, upto);
      var b, m, t := Block(ws, names, from), MeltBetween(ws, names, from + 1, upto), MeltFrom(ws, names, upto);
      calc {
        MeltFrom(ws, names, from);
        b + MeltFrom(ws, names, from + 1);
        b + (m + t);
        (b + m) + t;
        MeltBetween(ws, names, from, upto) + t;
      }
    } else {
      assert MeltBetween(ws, names, from, upto) + MeltFrom(ws, names, upto) == MeltFrom(ws, names, upto);
    }
  }

  /** The columns before the chosen one hold none of its rows. */
  lemma BeforeHasNone(ws: seq<Wide>, names: seq<string>, c: nat, from: nat)
    requires c < |names| && from <= c && Distinct(names)
    requires forall w :: w in ws ==> |w.values| == |names|
    ensures OfIndicator(MeltBetween(ws, names, from, c), names[c]) == []
  {
    var pre := MeltBetween(ws, names, from, c);
    forall x | x in pre
      ensures x.indicator != names[c]
    {
      var k :| 0 <= k < |names[from..c]| && names[from..c][k] == x.indicator;
      assert names[from + k] == x.indicator;
    }
    WhereNone(pre, (x: Long) => x.indicator == names[c]);
  }

  /** Melting and then keeping one indicator gives back that column of the wide
      rows, provided the melted column names are distinct. */
  lemma MeltSelect(ws: seq<Wide>, names: seq<string>, c: nat, from: nat)
    requires c < |names| && from <= c && Distinct(names)
    requires forall w :: w in ws ==> |w.values| == |names|
    ensures OfIndicator(MeltFrom(ws, names, from), names[c]) == Block(ws, names, c)
  {
    MeltFromPrefix(ws, names, from, c);
    OfIndicatorAppend(MeltBetween(ws, names, from, c), MeltFrom(ws, names, c), names[c]);
    BeforeHasNone(ws, names, c, from);
    MeltSelectAt(ws, names, c);
  }
}
