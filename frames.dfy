/** The loaded spreadsheet as a pandas DataFrame: a header of column names and
    one row per country. Cells are positional, so renaming the header leaves the
    rows untouched, as `df.columns = ...` does. */
module Frames {
  import opened Options
  import opened Seqs
  import Text
  import Sorting
  import Stats

  /** A numeric cell (after `pd.to_numeric`) or a text cell (`... Category`);
      a missing value is `None`. */
  datatype Cell = Num(num: Option<real>) | Label(text: Option<string>)

  /** One country: its two key columns and its cells, positionally aligned with
      the header. */
  datatype Row = Row(country: string, continent: string, cells: seq<Cell>)

  datatype DataFrame = DataFrame(columns: seq<string>, rows: seq<Row>)

  /** The numeric value of a row in column `j`; a missing, out-of-range or
      non-numeric cell reads as NaN. */
  function NumAt(r: Row, j: nat): Option<real> {
    if j < |r.cells| && r.cells[j].Num? then r.cells[j].num else None
  }

  /** The category label of a row in column `j`, missing when absent. */
  function LabelAt(r: Row, j: nat): Option<string> {
    if j < |r.cells| && r.cells[j].Label? then r.cells[j].text else None
  }

  /** The key columns as functions, for grouping and searching. */
  function ContinentOf(x: Row): string { x.continent }
  function PlaceOf(x: Row): (string, string) { (x.continent, x.country) }

  /** The present labels of a category column, in row order: one per labelled
      row, so each label as often as rows carry it. */
  function Labels(rows: seq<Row>, j: nat): (r: seq<string>)
    ensures |r| <= |rows|
    ensures |r| == |LabelNotNull(rows, j)|
    ensures forall l :: l in r <==> exists x :: x in rows && LabelAt(x, j) == Some(l)
    ensures forall l :: multiset(r)[l] == |Where(rows, (x: Row) => LabelAt(x, j) == Some(l))|
    decreases |rows|
  {
    if rows == [] then []
    else
      var rest := Labels(rows[1..], j);
      var r := match LabelAt(rows[0], j) case Some(l) => [l] + rest case None => rest;
      LabelsStep(rows, j, rest, r);
      r
  }

  /** One row of `Labels`: what holds of the labels of the later rows carries
      over to the table once the first row's label, if any, is put in front. */
  lemma LabelsStep(rows: seq<Row>, j: nat, rest: seq<string>, r: seq<string>)
    requires rows != []
    requires |rest| <= |rows[1..]| && |rest| == |LabelNotNull(rows[1..], j)|
    requires forall l :: l in rest <==> exists x :: x in rows[1..] && LabelAt(x, j) == Some(l)
    requires forall l :: multiset(rest)[l] == |Where(rows[1..], (x: Row) => LabelAt(x, j) == Some(l))|
    requires r == match LabelAt(rows[0], j) case Some(l) => [l] + rest case None => rest
    ensures |r| <= |rows| && |r| == |LabelNotNull(rows, j)|
    ensures forall l :: l in r <==> exists x :: x in rows && LabelAt(x, j) == Some(l)
    ensures forall l :: multiset(r)[l] == |Where(rows, (x: Row) => LabelAt(x, j) == Some(l))|
  {
    LabelsStepMembers(rows, j, rest, r);
    forall l
      ensures multiset(r)[l] == |Where(rows, (x: Row) => LabelAt(x, j) == Some(l))|
    {
      LabelsStepCount(rows, j, l, multiset(rest)[l], multiset(r)[l]);
    }
  }

  lemma LabelsStepMembers(rows: seq<Row>, j: nat, rest: seq<string>, r: seq<string>)
    requires rows != []
    requires forall l :: l in rest <==> exists x :: x in rows[1..] && LabelAt(x, j) == Some(l)
    requires r == match LabelAt(rows[0], j) case Some(l) => [l] + rest case None => rest
    ensures forall l :: l in r <==> exists x :: x in rows && LabelAt(x, j) == Some(l)
  {
    assert forall x :: x in rows <==> x == rows[0] || x in rows[1..];
  }

  /** The count of one label goes up by one exactly when the first row carries it. */
  lemma LabelsStepCount(rows: seq<Row>, j: nat, l: string, before: nat, after: nat)
    requires rows != []
    requires before == |Where(rows[1..], (x: Row) => LabelAt(x, j) == Some(l))|
    requires after == if LabelAt(rows[0], j) == Some(l) then before + 1 else before
    ensures after == |Where(rows, (x: Row) => LabelAt(x, j) == Some(l))|
  {
  }

  /** `df[col]` as a Series of values. */
  function Column(rows: seq<Row>, j: nat): (vs: seq<Option<real>>)
    ensures |vs| == |rows| && forall i :: 0 <= i < |rows| ==> vs[i] == NumAt(rows[i], j)
  {
    seq(|rows|, i requires 0 <= i < |rows| => NumAt(rows[i], j))
  }

  /** `df.columns = [g(c) for c in df.columns]` */
  function Rename(f: DataFrame, g: string -> string): (r: DataFrame)
    ensures r.rows == f.rows && |r.columns| == |f.columns|
    ensures forall i :: 0 <= i < |f.columns| ==> r.columns[i] == g(f.columns[i])
  {
    DataFrame(seq(|f.columns|, i requires 0 <= i < |f.columns| => g(f.columns[i])), f.rows)
  }

  /** `df[df['continent'].isin(conts)]` */
  function InContinents(rows: seq<Row>, conts: set<string>): (r: seq<Row>)
    ensures IsSubseq(r, rows)
    ensures forall x :: x in r <==> x in rows && x.continent in conts
    ensures forall x :: multiset(r)[x] == if x.continent in conts then multiset(rows)[x] else 0
  {
    Where(rows, (x: Row) => x.continent in conts)
  }

  /** `df[df['continent'] == c]` */
  function OnContinent(rows: seq<Row>, c: string): (r: seq<Row>)
    ensures IsSubseq(r, rows)
    ensures forall x :: x in r <==> x in rows && x.continent == c
    ensures forall x :: multiset(r)[x] == if x.continent == c then multiset(rows)[x] else 0
  {
    Where(rows, (x: Row) => x.continent == c)
  }

  /** `df.dropna(subset=[col])` for a numeric column. */
  function NotNull(rows: seq<Row>, j: nat): (r: seq<Row>)
    ensures IsSubseq(r, rows)
    ensures forall x :: x in r <==> x in rows && NumAt(x, j).Some?
    ensures forall x :: multiset(r)[x] == if NumAt(x, j).Some? then multiset(rows)[x] else 0
  {
    Where(rows, (x: Row) => NumAt(x, j).Some?)
  }

  predicate Within(x: Row, j: nat, lo: real, hi: real) {
    NumAt(x, j).Some? && lo <= NumAt(x, j).value <= hi
  }

  /** `df[(df[col] >= lo) & (df[col] <= hi)]`: comparisons with NaN are false,
      so rows with a missing value are dropped as well. */
  function Between(rows: seq<Row>, j: nat, lo: real, hi: real): (r: seq<Row>)
    ensures IsSubseq(r, rows)
    ensures forall x :: x in r <==> x in rows && Within(x, j, lo, hi)
    ensures forall x :: multiset(r)[x] == if Within(x, j, lo, hi) then multiset(rows)[x] else 0
  {
    Where(rows, (x: Row) => Within(x, j, lo, hi))
  }

  /** `df.dropna(subset=[col])` for a category column. */
  function LabelNotNull(rows: seq<Row>, j: nat): (r: seq<Row>)
    ensures IsSubseq(r, rows)
    ensures forall x :: x in r <==> x in rows && LabelAt(x, j).Some?
    ensures forall x :: multiset(r)[x] == if LabelAt(x, j).Some? then multiset(rows)[x] else 0
  {
    Where(rows, (x: Row) => LabelAt(x, j).Some?)
  }

  /** `(df[col].min(), df[col].max())` over the present values; `None` when the
      column has no value at all. */
  function RangeOf(rows: seq<Row>, j: nat): (r: Option<(real, real)>)
    ensures r.None? <==> forall x :: x in rows ==> NumAt(x, j).None?
    ensures r.Some? ==> r.value.0 <= r.value.1
    ensures r.Some? ==> forall x :: x in rows && NumAt(x, j).Some? ==>
      r.value.0 <= NumAt(x, j).value <= r.value.1
    ensures r.Some? ==> exists x :: x in rows && NumAt(x, j) == Some(r.value.0)
    ensures r.Some? ==> exists x :: x in rows && NumAt(x, j) == Some(r.value.1)
  {
    var vs := Column(rows, j);
    var xs := Stats.Present(vs);
    assert forall x :: x in rows ==> NumAt(x, j) in vs;
    assert forall v :: v in vs ==> exists x :: x in rows && NumAt(x, j) == v;
    if xs == [] then None
    else
      assert forall x :: x in rows && NumAt(x, j).Some? ==> NumAt(x, j).value in xs;
      Some((Stats.MinOf(xs), Stats.MaxOf(xs)))
  }

  /** With a range that reaches the column's own minimum and maximum (or
      beyond), the range filter drops exactly the rows whose value is missing. */
  lemma FullRangeDropsOnlyNulls(rows: seq<Row>, j: nat, lo: real, hi: real)
    requires RangeOf(rows, j).Some?
    requires lo <= RangeOf(rows, j).value.0 && RangeOf(rows, j).value.1 <= hi
    ensures Between(rows, j, lo, hi) == NotNull(rows, j)
  {
    var p, q := (x: Row) => Within(x, j, lo, hi), (x: Row) => NumAt(x, j).Some?;
    forall x | x in rows
      ensures p(x) == q(x)
    {
      if NumAt(x, j).Some? {
        assert RangeOf(rows, j).value.0 <= NumAt(x, j).value <= RangeOf(rows, j).value.1;
      }
    }
    WhereCongruent(rows, p, q);
  }

  /** One row of `df.groupby(key)[cols].mean().reset_index()`. */
  datatype Aggregate<K> = Aggregate(key: K, means: seq<Option<real>>)

  function KeysOf<K>(rows: seq<Row>, key: Row -> K): (ks: seq<K>)
    ensures |ks| == |rows| && forall i :: 0 <= i < |rows| ==> ks[i] == key(rows[i])
  {
    seq(|rows|, i requires 0 <= i < |rows| => key(rows[i]))
  }

  function GroupKeys<K>(groups: seq<Aggregate<K>>): (ks: seq<K>)
    ensures |ks| == |groups| && forall i :: 0 <= i < |groups| ==> ks[i] == groups[i].key
  {
    seq(|groups|, i requires 0 <= i < |groups| => groups[i].key)
  }

  /** The rows of one group. */
  function Group<K(==)>(rows: seq<Row>, key: Row -> K, k: K): seq<Row> {
    Where(rows, (x: Row) => key(x) == k)
  }

  /** Rows that all share the key form one whole group. */
  lemma {:induction false} GroupAll<K>(rows: seq<Row>, key: Row -> K, k: K)
    requires forall x :: x in rows ==> key(x) == k
    ensures Group(rows, key, k) == rows
    decreases |rows|
  {
    if rows != [] {
      assert rows[0] in rows;
      GroupAll(rows[1..], key, k);
      assert rows == [rows[0]] + rows[1..];
    }
  }

  /** `df.groupby(key)[cols].mean().reset_index()`: one aggregate per observed key,
      keys in increasing order (pandas sorts group keys), each holding, per
      column, the mean of the group's present values (NaN if none). */
  function GroupMeans<K(==,!new)>(rows: seq<Row>, key: Row -> K, less: (K, K) -> bool, cols: seq<nat>)
    : (r: seq<Aggregate<K>>)
    requires Sorting.StrictTotalOrder(less)
    ensures Sorting.StrictlySorted(GroupKeys(r), less)
    ensures forall k :: k in GroupKeys(r) <==> k in KeysOf(rows, key)
    ensures forall i :: 0 <= i < |r| ==> |r[i].means| == |cols|
    ensures forall i, c :: 0 <= i < |r| && 0 <= c < |cols| ==>
      r[i].means[c] == Stats.MeanOf(Column(Group(rows, key, r[i].key), cols[c]))
  {
    var ks := Sorting.SortUnique(KeysOf(rows, key), less);
    var r := seq(|ks|, i requires 0 <= i < |ks| =>
      Aggregate(ks[i], seq(|cols|, c requires 0 <= c < |cols| =>
        Stats.MeanOf(Column(Group(rows, key, ks[i]), cols[c])))));
    assert GroupKeys(r) == ks;
    r
  }

  /** The order pandas uses for a two-column group key. */
  predicate PairLess(a: (string, string), b: (string, string)) {
    Text.Less(a.0, b.0) || (a.0 == b.0 && Text.Less(a.1, b.1))
  }

  lemma PairOrder()
    ensures Sorting.StrictTotalOrder(PairLess)
  {
    Sorting.StringOrder();
    forall a: (string, string), b: (string, string) | a != b
      ensures PairLess(a, b) || PairLess(b, a)
    {
      if a.0 == b.0 {
        assert a.1 != b.1;
      }
    }
  }

  /** A group whose rows all hold one value averages to that value, so grouping
      a table that already has one row per key gives back its values. */
  lemma {:induction false} MeanOfOneKey(rows: seq<Row>, key: Row -> string, k: string, j: nat, v: real)
    requires forall x :: x in rows && key(x) == k ==> NumAt(x, j) == Some(v)
    requires exists x :: x in rows && key(x) == k
    ensures Stats.MeanOf(Column(Group(rows, key, k), j)) == Some(v)
  {
    GroupColumn(rows, key, k, j, v);
    ConstantMean(Column(Group(rows, key, k), j), v);
  }

  /** The group of a key whose rows all hold `v` in column `j` has a non-empty
      column of `v`s. */
  lemma GroupColumn(rows: seq<Row>, key: Row -> string, k: string, j: nat, v: real)
    requires forall x :: x in rows && key(x) == k ==> NumAt(x, j) == Some(v)
    requires exists x :: x in rows && key(x) == k
    ensures Column(Group(rows, key, k), j) != []
    ensures forall o :: o in Column(Group(rows, key, k), j) ==> o == Some(v)
  {
    var g := Group(rows, key, k);
    var x :| x in rows && key(x) == k;
    assert x in g;
    forall o | o in Column(g, j)
      ensures o == Some(v)
    {
      var i :| 0 <= i < |g| && Column(g, j)[i] == o;
      assert g[i] in g;
    }
  }

  /** A column whose every entry is `v` averages to `v`. */
  lemma ConstantMean(vs: seq<Option<real>>, v: real)
    requires vs != [] && forall o :: o in vs ==> o == Some(v)
    ensures Stats.MeanOf(vs) == Some(v)
  {
    var xs := Stats.Present(vs);
    assert vs[0] in vs;
    assert forall y :: y in xs ==> y == v;
    AllEqualMean(xs, v);
  }

  lemma AllEqualMean(xs: seq<real>, v: real)
    requires xs != [] && forall y :: y in xs ==> y == v
    ensures Stats.Mean(xs) == v
  {
    assert Stats.MinOf(xs) == v && Stats.MaxOf(xs) == v;
  }

  /** pandas `melt` input: an identifier and one value per melted column. */
  datatype Wide = Wide(id: string, values: seq<Option<real>>)
  /** pandas `melt` output row: (id, Indicator, Value). */
  datatype Long = Long(id: string, indicator: string, value: Option<real>)

  /** The melted rows for column `c`: one per wide row, in row order. */
  function Block(ws: seq<Wide>, names: seq<string>, c: nat): (r: seq<Long>)
    requires c < |names| && forall w :: w in ws ==> |w.values| == |names|
    ensures |r| == |ws|
    ensures forall i :: 0 <= i < |ws| ==> r[i] == Long(ws[i].id, names[c], ws[i].values[c])
  {
    seq(|ws|, i requires 0 <= i < |ws| => Long(ws[i].id, names[c], ws[i].values[c]))
  }

  function MeltFrom(ws: seq<Wide>, names: seq<string>, c: nat): (r: seq<Long>)
    requires c <= |names| && forall w :: w in ws ==> |w.values| == |names|
    ensures forall x :: x in r ==> x.indicator in names[c..]
    decreases |names| - c
  {
    if c == |names| then []
    else
      var b := Block(ws, names, c);
      var rest := MeltFrom(ws, names, c + 1);
      assert forall x :: x in b ==> x.indicator == names[c];
      assert names[c..] == [names[c]] + names[c + 1..];
      b + rest
  }

  /** `df.melt(id_vars=[id], value_vars=names, var_name='Indicator', value_name='Value')`:
      column by column, one long row per wide row. */
  function Melt(ws: seq<Wide>, names: seq<string>): (r: seq<Long>)
    requires forall w :: w in ws ==> |w.values| == |names|
    ensures forall x :: x in r ==> x.indicator in names
  {
    assert names[0..] == names;
    MeltFrom(ws, names, 0)
  }

  /** `df[df['Indicator'] == name]` on melted rows. */
  function OfIndicator(ls: seq<Long>, name: string): (r: seq<Long>)
    ensures IsSubseq(r, ls)
    ensures forall x :: x in r <==> x in ls && x.indicator == name
    ensures forall x :: multiset(r)[x] == if x.indicator == name then multiset(ls)[x] else 0
  {
    Where(ls, (x: Long) => x.indicator == name)
  }
}
