/** The comparison page: title-cased column names, the numeric columns, the
    per-continent means, each entity's melted table, the indicator choice that
    narrows it, and the verdict between the two entities' values. */
module Comparison {
  import opened Options
  import opened Seqs
  import Text
  import Sorting
  import Stats
  import opened Frames
  import MeltLaws
  import GlobalMetrics
  import WorldMap

  // ---------------------------------------------------------------------------
  // Column names

  /** The page normalises headers with `str.strip().str.title()`, as the global
      metrics page does (`GlobalMetrics.Normalize`). A header that starts with
      `b` once stripped starts with the title-cased `b` once normalised. */
  lemma PrefixSurvives(raw: string, b: string)
    requires Text.StartsWith(Text.Strip(raw), b)
    ensures Text.StartsWith(GlobalMetrics.Normalize(raw), Text.Title(b))
  {
    var s := Text.Strip(raw);
    var q := s[|b|..];
    assert s == b + q by {
      assert s[..|b|] == b;
    }
    Text.TitlePrefix(b, q);
    assert GlobalMetrics.Normalize(raw) == Text.Title(b + q);
  }

  /** Every cell of column `j` is numeric, so pandas gives it a number dtype. */
  predicate IsNumeric(rows: seq<Row>, j: nat) {
    forall x :: x in rows ==> j < |x.cells| && x.cells[j].Num?
  }

  function Positions(n: nat): (ps: seq<nat>)
    ensures |ps| == n && forall i :: 0 <= i < n ==> ps[i] == i
  {
    seq(n, i requires 0 <= i < n => i as nat)
  }

  /** `df.select_dtypes(include=['number']).columns`, as header positions in
      header order. */
  function NumericPositions(df: DataFrame): (cs: seq<nat>)
    ensures forall j: nat :: j in cs <==> j < |df.columns| && IsNumeric(df.rows, j)
    ensures forall a, b :: 0 <= a < b < |cs| ==> cs[a] < cs[b]
  {
    var ps := Positions(|df.columns|);
    var p := (j: nat) => IsNumeric(df.rows, j);
    var less := (a: nat, b: nat) => a < b;
    assert forall j: nat :: j in ps <==> j < |df.columns| by {
      forall j: nat | j < |df.columns|
        ensures j in ps
      {
        assert ps[j] == j;
      }
    }
    Sorting.WhereSorted(ps, p, less);
    var r := Where(ps, p);
    assert Sorting.StrictlySorted(r, less);
    assert forall a, b :: 0 <= a < b < |r| ==> less(r[a], r[b]);
    r
  }

  /** `numeric_columns`: the normalised names of the numeric columns. */
  function NumericColumns(df: DataFrame): (names: seq<string>)
    ensures |names| == |NumericPositions(df)|
    ensures forall i :: 0 <= i < |names| ==>
      NumericPositions(df)[i] < |df.columns| &&
      names[i] == GlobalMetrics.Normalize(df.columns[NumericPositions(df)[i]])
  {
    var cs := NumericPositions(df);
    assert forall i :: 0 <= i < |cs| ==> cs[i] in cs;
    seq(|cs|, i requires 0 <= i < |cs| => GlobalMetrics.Normalize(df.columns[cs[i]]))
  }

  // ---------------------------------------------------------------------------
  // Indicator groups

  /** `indicator_groups`, in the page's title-case spelling. */
  const Groups: seq<(string, seq<string>)> := [
    ("Economic", ["Purchasing Power", "Cost Of Living", "Property Price To Income"]),
    ("Lifestyle", ["Quality Of Life", "Safety", "Traffic Commute Time", "Health Care"]),
    ("Environment", ["Pollution", "Climate"])
  ]

  /** `group_indicators` for the `k`-th group of the radio: the numeric columns
      starting with one of the group's members, in their order. */
  function GroupIndicators(numeric: seq<string>, k: nat): (r: seq<string>)
    requires k < |Groups|
    ensures IsSubseq(r, numeric)
    ensures forall c :: c in r <==> c in numeric && WorldMap.AnyPrefix(Groups[k].1, c)
    ensures forall c :: multiset(r)[c] == if WorldMap.AnyPrefix(Groups[k].1, c) then multiset(numeric)[c] else 0
  {
    Where(numeric, (c: string) => WorldMap.AnyPrefix(Groups[k].1, c))
  }

  /** A numeric header that, once stripped, starts with any spelling of a group
      member (" cost of living value" for "Cost Of Living") is listed under
      that group after normalisation. */
  lemma InGroupAfterNormalize(df: DataFrame, j: nat, k: nat, b: string)
    requires j < |df.columns| && IsNumeric(df.rows, j)
    requires k < |Groups| && Text.Title(b) in Groups[k].1
    requires Text.StartsWith(Text.Strip(df.columns[j]), b)
    ensures GlobalMetrics.Normalize(df.columns[j]) in GroupIndicators(NumericColumns(df), k)
  {
    var name := GlobalMetrics.Normalize(df.columns[j]);
    var numeric := NumericColumns(df);
    PrefixSurvives(df.columns[j], b);
    var cs := NumericPositions(df);
    assert j in cs;
    var i :| 0 <= i < |cs| && cs[i] == j;
    assert numeric[i] == name;
    assert WorldMap.AnyPrefix(Groups[k].1, name);
    WhereMembers(numeric, (c: string) => WorldMap.AnyPrefix(Groups[k].1, c), name);
  }

  // ---------------------------------------------------------------------------
  // Continent means

  /** `df_continent`: one row per continent, alphabetically, each holding the
      continent's mean of every numeric column. */
  function ContinentTable(df: DataFrame): (r: seq<Aggregate<string>>)
    ensures Distinct(GroupKeys(r))
    ensures forall k :: k in GroupKeys(r) <==> exists x :: x in df.rows && x.continent == k
    ensures forall i :: 0 <= i < |r| ==> |r[i].means| == |NumericPositions(df)|
    ensures forall i, c :: 0 <= i < |r| && 0 <= c < |NumericPositions(df)| ==>
      r[i].means[c] == Stats.MeanOf(Column(Group(df.rows, ContinentOf, r[i].key), NumericPositions(df)[c]))
  {
    Sorting.StringOrder();
    var cs := NumericPositions(df);
    var r := GroupMeans(df.rows, ContinentOf, Text.Less, cs);
    GlobalMetrics.KeysMembers(df.rows, ContinentOf);
    Sorting.SortedDistinct(GroupKeys(r), Text.Less);
    r
  }

  // ---------------------------------------------------------------------------
  // The two entities

  datatype CompareBy = Countries | Continents

  /** One row's values at the given columns. */
  function ValuesAt(x: Row, cs: seq<nat>): (vs: seq<Option<real>>)
    ensures |vs| == |cs| && forall i :: 0 <= i < |cs| ==> vs[i] == NumAt(x, cs[i])
  {
    seq(|cs|, i requires 0 <= i < |cs| => NumAt(x, cs[i]))
  }

  /** `df[df["Country"] == entity]` as melt input: one wide row per matching
      row, identified by the country. */
  function CountryWide(rows: seq<Row>, cs: seq<nat>, entity: string): (ws: seq<Wide>)
    ensures |ws| == |Where(rows, (x: Row) => x.country == entity)|
    ensures forall i :: 0 <= i < |ws| ==>
      ws[i] == Wide(entity, ValuesAt(Where(rows, (x: Row) => x.country == entity)[i], cs))
  {
    var m := Where(rows, (x: Row) => x.country == entity);
    assert forall i :: 0 <= i < |m| ==> m[i] in m;
    seq(|m|, i requires 0 <= i < |m| => Wide(m[i].country, ValuesAt(m[i], cs)))
  }

  /** Grouping the rows of one continent by continent gives at most one group:
      none when the continent has no row, otherwise that continent's. */
  lemma SingleGroup(rows: seq<Row>, cs: seq<nat>, entity: string)
    ensures Sorting.StrictTotalOrder(Text.Less)
    ensures var g := GroupMeans(OnContinent(rows, entity), ContinentOf, Text.Less, cs);
      && |g| == (if OnContinent(rows, entity) == [] then 0 else 1)
      && forall i :: 0 <= i < |g| ==> g[i].key == entity
    ensures Group(OnContinent(rows, entity), ContinentOf, entity) == OnContinent(rows, entity)
  {
    Sorting.StringOrder();
    var m := OnContinent(rows, entity);
    var g := GroupMeans(m, ContinentOf, Text.Less, cs);
    var ks := GroupKeys(g);
    KeysOfOneContinent(m, entity);
    OneKey(ks, entity);
    forall i | 0 <= i < |g|
      ensures g[i].key == entity
    {
      assert ks[i] in ks;
    }
    GroupAll(m, ContinentOf, entity);
  }

  lemma KeysOfOneContinent(m: seq<Row>, entity: string)
    requires forall x :: x in m ==> x.continent == entity
    ensures forall k :: k in KeysOf(m, ContinentOf) ==> k == entity
    ensures m != [] ==> entity in KeysOf(m, ContinentOf)
  {
    var ks := KeysOf(m, ContinentOf);
    forall k | k in ks
      ensures k == entity
    {
      var i :| 0 <= i < |ks| && ks[i] == k;
      assert m[i] in m;
    }
    if m != [] {
      assert m[0] in m && ks[0] == entity;
    }
  }

  /** A strictly sorted list of keys that are all one key has at most one. */
  lemma OneKey(ks: seq<string>, k: string)
    requires Sorting.StrictlySorted(ks, Text.Less)
    requires forall x :: x in ks ==> x == k
    ensures |ks| <= 1
  {
    if |ks| >= 2 {
      assert ks[0] in ks && ks[1] in ks;
      Text.LessIrreflexive(k);
    }
  }

  /** `df[df["Continent"] == entity].groupby("Continent")[numeric_columns]
      .mean().reset_index()` as melt input: a single wide row holding the
      continent's means, or none when the continent has no row. */
  function ContinentWide(rows: seq<Row>, cs: seq<nat>, entity: string): (ws: seq<Wide>)
    ensures |ws| == (if OnContinent(rows, entity) == [] then 0 else 1)
    ensures forall w :: w in ws ==> w.id == entity && |w.values| == |cs|
    ensures forall w, c :: w in ws && 0 <= c < |cs| ==>
      w.values[c] == Stats.MeanOf(Column(OnContinent(rows, entity), cs[c]))
  {
    SingleGroup(rows, cs, entity);
    var g := GroupMeans(OnContinent(rows, entity), ContinentOf, Text.Less, cs);
    seq(|g|, i requires 0 <= i < |g| => Wide(g[i].key, g[i].means))
  }

  function EntityWide(df: DataFrame, kind: CompareBy, entity: string): (ws: seq<Wide>)
    ensures forall w :: w in ws ==> |w.values| == |NumericPositions(df)|
  {
    match kind
    case Countries => CountryWide(df.rows, NumericPositions(df), entity)
    case Continents => ContinentWide(df.rows, NumericPositions(df), entity)
  }

  /** `df1` (or `df2`) as melted: one (Indicator, Value) row per numeric column
      and per wide row of the entity. */
  function Melted(df: DataFrame, kind: CompareBy, entity: string): (ls: seq<Long>)
    ensures forall x :: x in ls ==> x.indicator in NumericColumns(df)
  {
    Melt(EntityWide(df, kind, entity), NumericColumns(df))
  }

  /** Keeping one indicator of the melted table leaves one row per wide row of
      the entity, holding that row's value in the indicator's column. */
  lemma PickedValues(df: DataFrame, kind: CompareBy, entity: string, c: nat)
    requires c < |NumericColumns(df)| && Distinct(NumericColumns(df))
    ensures var ws := EntityWide(df, kind, entity);
      var t := OfIndicator(Melted(df, kind, entity), NumericColumns(df)[c]);
      |t| == |ws| && forall i :: 0 <= i < |t| ==> t[i] == Long(ws[i].id, NumericColumns(df)[c], ws[i].values[c])
  {
    MeltLaws.MeltSelect(EntityWide(df, kind, entity), NumericColumns(df), c, 0);
  }

  /** For a continent with rows, one indicator's table is the single row
      holding the continent's mean of that column. */
  lemma ContinentPick(df: DataFrame, entity: string, c: nat)
    requires c < |NumericColumns(df)| && Distinct(NumericColumns(df))
    requires OnContinent(df.rows, entity) != []
    ensures OfIndicator(Melted(df, Continents, entity), NumericColumns(df)[c]) ==
      [Long(entity, NumericColumns(df)[c], Stats.MeanOf(Column(OnContinent(df.rows, entity), NumericPositions(df)[c])))]
  {
    var cs, name := NumericPositions(df), NumericColumns(df)[c];
    var ws := EntityWide(df, Continents, entity);
    assert ws == ContinentWide(df.rows, cs, entity);
    ContinentRow(df.rows, cs, entity, c);
    PickedValues(df, Continents, entity, c);
    OneRow(OfIndicator(Melted(df, Continents, entity), name), ws, name, c);
  }

  /** A table with one row per wide row, built from a single wide row, is that row. */
  lemma OneRow(t: seq<Long>, ws: seq<Wide>, name: string, c: nat)
    requires |ws| == 1 && c < |ws[0].values|
    requires |t| == |ws| && forall i :: 0 <= i < |t| ==> t[i] == Long(ws[i].id, name, ws[i].values[c])
    ensures t == [Long(ws[0].id, name, ws[0].values[c])]
  {
    assert t[0] == Long(ws[0].id, name, ws[0].values[c]);
  }

  lemma ContinentRow(rows: seq<Row>, cs: seq<nat>, entity: string, c: nat)
    requires c < |cs| && OnContinent(rows, entity) != []
    ensures var ws := ContinentWide(rows, cs, entity);
      |ws| == 1 && ws[0].id == entity && ws[0].values[c] == Stats.MeanOf(Column(OnContinent(rows, entity), cs[c]))
  {
    var ws := ContinentWide(rows, cs, entity);
    assert ws[0] in ws;
  }

  // ---------------------------------------------------------------------------
  // Indicator choice

  const AllIndicators: string := "All Indicators"
  const NoIndicators: string := "No indicators available for this category"

  /** What the sidebar can hand over: under "Show All Indicators" the label
      "All Indicators" or a numeric column; otherwise a column of the chosen
      group, or the placeholder when the group has none. */
  predicate Offered(numeric: seq<string>, showAll: bool, k: nat, selected: string)
    requires k < |Groups|
  {
    if showAll then selected == AllIndicators || selected in numeric
    else if GroupIndicators(numeric, k) != [] then selected in GroupIndicators(numeric, k)
    else selected == NoIndicators
  }

  /** Whether a melted row with this indicator survives the choice. */
  predicate Keeps(showAll: bool, selected: string, groupIndicators: seq<string>, indicator: string) {
    if !showAll && selected != AllIndicators && selected != NoIndicators then indicator == selected
    else if showAll && selected != AllIndicators then indicator == selected
    else if !showAll then indicator in groupIndicators
    else true
  }

  /** `df1`/`df2` as the page rebinds them: melted for the entity, then
      narrowed to the chosen indicator, or to the chosen group's indicators. */
  method EntityTable(df: DataFrame, kind: CompareBy, entity: string, showAll: bool, k: nat, selected: string)
    returns (t: seq<Long>)
    requires k < |Groups| && Offered(NumericColumns(df), showAll, k, selected)
    ensures t == Where(Melted(df, kind, entity), (x: Long) =>
      Keeps(showAll, selected, GroupIndicators(NumericColumns(df), k), x.indicator))
    ensures IsSubseq(t, Melted(df, kind, entity))
    ensures showAll && selected == AllIndicators ==> t == Melted(df, kind, entity)
    ensures !showAll ==> forall x :: x in t ==> x.indicator in GroupIndicators(NumericColumns(df), k)
    ensures selected != AllIndicators && selected != NoIndicators ==> forall x :: x in t ==> x.indicator == selected
    ensures !showAll && GroupIndicators(NumericColumns(df), k) == [] ==> t == []
  {
    var group := GroupIndicators(NumericColumns(df), k);
    var keep := (x: Long) => Keeps(showAll, selected, group, x.indicator);
    t := Melted(df, kind, entity);
    ghost var melted := t;
    if !showAll && selected != AllIndicators && selected != NoIndicators {
      assert selected in group;
      t := OfIndicator(t, selected);
      WhereCongruent(melted, (x: Long) => x.indicator == selected, keep);
    } else if showAll && selected != AllIndicators {
      t := OfIndicator(t, selected);
      WhereCongruent(melted, (x: Long) => x.indicator == selected, keep);
    } else if !showAll {
      t := Where(t, (x: Long) => x.indicator in group);
      WhereCongruent(melted, (x: Long) => x.indicator in group, keep);
      if group == [] {
        WhereNone(melted, (x: Long) => x.indicator in group);
      }
    } else {
      WhereAll(melted, keep);
      SubseqRefl(melted);
    }
  }

  // ---------------------------------------------------------------------------
  // Verdict

  datatype Verdict = FirstHigher | SecondHigher | Equal | Missing

  /** Lines 265-274 as written: with NaN both comparisons are false, so a
      missing value falls through to "equal". */
  function VerdictAsWritten(v1: Option<real>, v2: Option<real>): (r: Verdict)
    ensures r != Missing
    ensures r == FirstHigher <==> v1.Some? && v2.Some? && v1.value > v2.value
    ensures r == SecondHigher <==> v1.Some? && v2.Some? && v1.value < v2.value
  {
    if v1.Some? && v2.Some? && v1.value > v2.value then FirstHigher
    else if v1.Some? && v2.Some? && v1.value < v2.value then SecondHigher
    else Equal
  }

  /** A country without the indicator is reported as scoring the same as one
      with a value. */
  lemma MissingReadsAsEqual()
    ensures VerdictAsWritten(None, Some(42.0)) == Equal
  {
  }

  /** The verdict with a missing value told apart: exactly one of the four
      holds, and "equal" only for two equal values. */
  function CompareValues(v1: Option<real>, v2: Option<real>): (r: Verdict)
    ensures r == Missing <==> v1.None? || v2.None?
    ensures r == Equal <==> v1.Some? && v2.Some? && v1.value == v2.value
    ensures r == FirstHigher <==> v1.Some? && v2.Some? && v1.value > v2.value
    ensures r == SecondHigher <==> v1.Some? && v2.Some? && v1.value < v2.value
  {
    if v1.None? || v2.None? then Missing
    else if v1.value > v2.value then FirstHigher
    else if v1.value < v2.value then SecondHigher
    else Equal
  }

  /** The correction changes nothing when both values are present. */
  lemma CorrectionOnlyForMissing(v1: Option<real>, v2: Option<real>)
    ensures v1.Some? && v2.Some? <==> CompareValues(v1, v2) == VerdictAsWritten(v1, v2)
  {
  }

  function Mirror(v: Verdict): Verdict {
    match v
    case FirstHigher => SecondHigher
    case SecondHigher => FirstHigher
    case other => other
  }

  /** Swapping the two entities swaps the verdict. */
  lemma VerdictSwap(v1: Option<real>, v2: Option<real>)
    ensures CompareValues(v2, v1) == Mirror(CompareValues(v1, v2))
  {
  }

  /** `abs(value1 - value2)`; NaN (here `None`) when either value is missing. */
  function Difference(v1: Option<real>, v2: Option<real>): (d: Option<real>)
    ensures d.None? <==> v1.None? || v2.None?
    ensures d.Some? ==> d.value >= 0.0 && (d.value == v1.value - v2.value || d.value == v2.value - v1.value)
  {
    if v1.None? || v2.None? then None
    else if v1.value >= v2.value then Some(v1.value - v2.value)
    else Some(v2.value - v1.value)
  }

  /** The difference is zero exactly for the "equal" verdict, and the verdict
      names the entity the difference favours. */
  lemma DifferenceMatchesVerdict(v1: Option<real>, v2: Option<real>)
    ensures Difference(v1, v2) == Some(0.0) <==> CompareValues(v1, v2) == Equal
    ensures CompareValues(v1, v2) == FirstHigher ==> Difference(v1, v2) == Some(v1.value - v2.value)
    ensures CompareValues(v1, v2) == SecondHigher ==> Difference(v1, v2) == Some(v2.value - v1.value)
  {
  }

  // ---------------------------------------------------------------------------
  // What the page shows

  datatype Report =
    | NoData
    | AllCharts
    | SingleMetric(value1: Option<real>, value2: Option<real>, difference: Option<real>, verdict: Verdict)

  /** Lines 160-276 as written: a warning and nothing else when either table
      is empty; the three charts under "All Indicators"; otherwise the first
      value of each table, their difference and the verdict of lines 265-274,
      which reports a missing value as an equal score. */
  function Outcome(t1: seq<Long>, t2: seq<Long>, selected: string): (r: Report)
    ensures r.NoData? <==> t1 == [] || t2 == []
    ensures r.AllCharts? <==> t1 != [] && t2 != [] && selected == AllIndicators
    ensures r.SingleMetric? ==> t1 != [] && t2 != [] && r.value1 == t1[0].value && r.value2 == t2[0].value
    ensures r.SingleMetric? ==> r.verdict != Missing
    ensures r.SingleMetric? ==> (r.difference.None? <==> r.value1.None? || r.value2.None?)
    ensures r.SingleMetric? && r.difference.Some? ==> (r.difference == Some(0.0) <==> r.verdict == Equal)
    ensures r.SingleMetric? && r.difference.None? ==> r.verdict == Equal
    ensures r.SingleMetric? ==>
      r.difference == Difference(r.value1, r.value2) && r.verdict == VerdictAsWritten(r.value1, r.value2)
  {
    if t1 == [] || t2 == [] then NoData
    else if selected == AllIndicators then AllCharts
    else
      var v1, v2 := t1[0].value, t2[0].value;
      DifferenceMatchesVerdict(v1, v2);
      CorrectionOnlyForMissing(v1, v2);
      SingleMetric(v1, v2, Difference(v1, v2), VerdictAsWritten(v1, v2))
  }

  /** A country without the selected indicator, compared with one scoring 42,
      is shown with no difference and the "equal scores" message. */
  lemma MissingShownAsEqual(a: string, b: string)
    ensures Outcome([Long(a, "Safety Value", None)], [Long(b, "Safety Value", Some(42.0))], "Safety Value")
      == SingleMetric(None, Some(42.0), None, Equal)
  {
    assert "Safety Value" != AllIndicators;
  }

  /** The page with the verdict corrected: as `Outcome`, but a missing value
      is reported as missing, and "equal" only when the difference is zero. */
  function CorrectedOutcome(t1: seq<Long>, t2: seq<Long>, selected: string): (r: Report)
    ensures r.NoData? <==> t1 == [] || t2 == []
    ensures r.AllCharts? <==> t1 != [] && t2 != [] && selected == AllIndicators
    ensures r.SingleMetric? ==> t1 != [] && t2 != [] && r.value1 == t1[0].value && r.value2 == t2[0].value
    ensures r.SingleMetric? ==> (r.difference == Some(0.0) <==> r.verdict == Equal)
    ensures r.SingleMetric? ==> (r.difference.None? <==> r.verdict == Missing)
    ensures r.SingleMetric? ==>
      r.difference == Difference(r.value1, r.value2) && r.verdict == CompareValues(r.value1, r.value2)
  {
    if t1 == [] || t2 == [] then NoData
    else if selected == AllIndicators then AllCharts
    else
      var v1, v2 := t1[0].value, t2[0].value;
      DifferenceMatchesVerdict(v1, v2);
      SingleMetric(v1, v2, Difference(v1, v2), CompareValues(v1, v2))
  }

  /** The correction changes what the page shows exactly when a single
      indicator is compared and one of the two values is missing. */
  lemma OutcomeCorrection(t1: seq<Long>, t2: seq<Long>, selected: string)
    ensures Outcome(t1, t2, selected) != CorrectedOutcome(t1, t2, selected) <==>
      t1 != [] && t2 != [] && selected != AllIndicators && (t1[0].value.None? || t2[0].value.None?)
  {
    if t1 != [] && t2 != [] && selected != AllIndicators {
      CorrectionOnlyForMissing(t1[0].value, t2[0].value);
    }
  }
}
