/** The world map page: the indicator catalogue, the sidebar selections, the
    continent and value-range filter, category ordering and colouring, and the
    searchable, sortable data table. */
module WorldMap {
  import opened Options
  import opened Seqs
  import Text
  import Sorting
  import opened Palette
  import opened Frames

  // ---------------------------------------------------------------------------
  // Indicator catalogue

  predicate IsKey(c: string) {
    c == "country" || c == "continent"
  }

  /** A `... Category` column holds labels; every other indicator is numeric. */
  predicate IsCategorical(c: string) {
    Text.EndsWith(c, "Category")
  }

  /** `indicators`: every column but the two key columns, in header order. */
  function Indicators(header: seq<string>): (r: seq<string>)
    ensures IsSubseq(r, header)
    ensures forall c :: c in r <==> c in header && !IsKey(c)
  {
    Where(header, (c: string) => !IsKey(c))
  }

  function NumericalIndicators(inds: seq<string>): (r: seq<string>)
    ensures IsSubseq(r, inds)
    ensures forall c :: c in r <==> c in inds && !IsCategorical(c)
  {
    Where(inds, (c: string) => !IsCategorical(c))
  }

  function CategoricalIndicators(inds: seq<string>): (r: seq<string>)
    ensures IsSubseq(r, inds)
    ensures forall c :: c in r <==> c in inds && IsCategorical(c)
  {
    Where(inds, (c: string) => IsCategorical(c))
  }

  /** The two lists split the indicators: every indicator lands in exactly one
      of them, as often as it occurs. */
  lemma IndicatorSplit(inds: seq<string>)
    ensures multiset(NumericalIndicators(inds)) + multiset(CategoricalIndicators(inds)) == multiset(inds)
    ensures |NumericalIndicators(inds)| + |CategoricalIndicators(inds)| == |inds|
  {
    var n, c := NumericalIndicators(inds), CategoricalIndicators(inds);
    WherePartition(inds, (c: string) => !IsCategorical(c), (c: string) => IsCategorical(c));
    assert |multiset(n) + multiset(c)| == |multiset(inds)|;
  }

  // ---------------------------------------------------------------------------
  // Indicator groups

  /** `indicator_groups`, in dictionary order. */
  const Groups: seq<(string, seq<string>)> := [
    ("Economic", ["Purchasing Power", "Cost of Living", "Property Price to Income"]),
    ("Lifestyle", ["Quality of Life", "Safety", "Traffic Commute Time", "Health Care"]),
    ("Environment", ["Pollution", "Climate"])
  ]

  /** Some member of `bases` is a prefix of `name`. */
  predicate AnyPrefix(bases: seq<string>, name: string) {
    exists b :: b in bases && Text.StartsWith(name, b)
  }

  /** The group `indicator_map` ends up giving `name`: the last group, in
      dictionary order, one of whose members is a prefix of it. */
  function GroupOf(groups: seq<(string, seq<string>)>, name: string): (g: Option<string>)
    ensures g.Some? <==> exists k :: 0 <= k < |groups| && AnyPrefix(groups[k].1, name)
    ensures g.Some? ==> exists k ::
      0 <= k < |groups| && groups[k].0 == g.value && AnyPrefix(groups[k].1, name) &&
      (forall k' :: k < k' < |groups| ==> !AnyPrefix(groups[k'].1, name))
    decreases |groups|
  {
    if groups == [] then None
    else
      var last := |groups| - 1;
      if AnyPrefix(groups[last].1, name) then Some(groups[last].0)
      else
        var g := GroupOf(groups[..last], name);
        LastGroupSilent(groups, name, g);
        g
  }

  /** When the last group does not claim `name`, the answer for the groups
      before it is the answer for all of them. */
  lemma LastGroupSilent(groups: seq<(string, seq<string>)>, name: string, g: Option<string>)
    requires groups != [] && !AnyPrefix(groups[|groups| - 1].1, name)
    requires var front := groups[..|groups| - 1];
      g.Some? <==> exists k :: 0 <= k < |front| && AnyPrefix(front[k].1, name)
    requires var front := groups[..|groups| - 1];
      g.Some? ==> exists k ::
        0 <= k < |front| && front[k].0 == g.value && AnyPrefix(front[k].1, name) &&
        (forall k' :: k < k' < |front| ==> !AnyPrefix(front[k'].1, name))
    ensures g.Some? <==> exists k :: 0 <= k < |groups| && AnyPrefix(groups[k].1, name)
    ensures g.Some? ==> exists k ::
      0 <= k < |groups| && groups[k].0 == g.value && AnyPrefix(groups[k].1, name) &&
      (forall k' :: k < k' < |groups| ==> !AnyPrefix(groups[k'].1, name))
  {
    var front := groups[..|groups| - 1];
    if g.Some? {
      var k :| 0 <= k < |front| && front[k].0 == g.value && AnyPrefix(front[k].1, name) &&
        (forall k' :: k < k' < |front| ==> !AnyPrefix(front[k'].1, name));
      assert front[k] == groups[k];
      forall k' | k < k' < |groups|
        ensures !AnyPrefix(groups[k'].1, name)
      {
        if k' < |front| {
          assert front[k'] == groups[k'];
        }
      }
    } else {
      forall k | 0 <= k < |groups|
        ensures !AnyPrefix(groups[k].1, name)
      {
        if k < |front| {
          assert front[k] == groups[k];
        }
      }
    }
  }

  /** The innermost loop: `indicator_map[match] = group` for each match. */
  method AssignAll(m: map<string, string>, names: seq<string>, group: string) returns (m': map<string, string>)
    ensures forall name :: name in m' <==> name in m || name in names
    ensures forall name :: name in m' ==> m'[name] == if name in names then group else m[name]
  {
    m' := m;
    var t := 0;
    while t < |names|
      invariant 0 <= t <= |names|
      invariant forall name :: name in m' <==> name in m || name in names[..t]
      invariant forall name :: name in m' ==> m'[name] == if name in names[..t] then group else m[name]
    {
      assert names[..t + 1] == names[..t] + [names[t]];
      m' := m'[names[t] := group];
      t := t + 1;
    }
    assert names[..t] == names;
  }

  /** The loop over one group's members: each indicator column starting with a
      member is mapped to the group. */
  method AssignGroup(m: map<string, string>, inds: seq<string>, group: string, indicators: seq<string>)
    returns (m': map<string, string>)
    ensures forall name :: name in m' <==> name in m || (name in indicators && AnyPrefix(inds, name))
    ensures forall name :: name in m' ==>
      m'[name] == if name in indicators && AnyPrefix(inds, name) then group else m[name]
  {
    m' := m;
    var i := 0;
    while i < |inds|
      invariant 0 <= i <= |inds|
      invariant forall name :: name in m' <==> name in m || (name in indicators && AnyPrefix(inds[..i], name))
      invariant forall name :: name in m' ==>
        m'[name] == if name in indicators && AnyPrefix(inds[..i], name) then group else m[name]
    {
      var ind := inds[i];
      var matches := Where(indicators, (c: string) => Text.StartsWith(c, ind));
      m' := AssignAll(m', matches, group);
      assert inds[..i + 1] == inds[..i] + [ind];
      assert forall name :: AnyPrefix(inds[..i + 1], name) <==> AnyPrefix(inds[..i], name) || Text.StartsWith(name, ind);
      i := i + 1;
    }
    assert inds[..i] == inds;
  }

  /** The sidebar loop building `indicator_map`: every indicator column that
      starts with a group member is mapped to that member's group, a later group
      overwriting an earlier one. */
  method BuildIndicatorMap(groups: seq<(string, seq<string>)>, indicators: seq<string>)
    returns (m: map<string, string>)
    ensures forall name :: name in m <==> name in indicators && GroupOf(groups, name).Some?
    ensures forall name :: name in m ==> m[name] == GroupOf(groups, name).value
  {
    m := map[];
    var k := 0;
    while k < |groups|
      invariant 0 <= k <= |groups|
      invariant forall name :: name in m <==> name in indicators && GroupOf(groups[..k], name).Some?
      invariant forall name :: name in m ==> m[name] == GroupOf(groups[..k], name).value
    {
      var (group, inds) := groups[k];
      m := AssignGroup(m, inds, group, indicators);
      assert groups[..k + 1][..k] == groups[..k];
      assert forall name ::
        GroupOf(groups[..k + 1], name) == if AnyPrefix(inds, name) then Some(group) else GroupOf(groups[..k], name);
      k := k + 1;
    }
    assert groups[..k] == groups;
  }

  /** The first member of `bases` that is a prefix of `name`. */
  function FirstPrefix(bases: seq<string>, name: string): (r: Option<string>)
    ensures r.None? <==> !AnyPrefix(bases, name)
    ensures r.Some? ==> r.value in bases && Text.StartsWith(name, r.value)
    decreases |bases|
  {
    if bases == [] then None
    else if Text.StartsWith(name, bases[0]) then Some(bases[0])
    else
      assert forall b :: b in bases ==> b == bases[0] || b in bases[1..];
      FirstPrefix(bases[1..], name)
  }

  /** The sidebar loop collecting `base_group_indicators`: for each indicator
      column, the first member of the selected group it starts with (the inner
      loop breaks at the first match); duplicates are then dropped through a
      set, whose iteration order Python leaves unspecified. */
  method BaseGroupIndicators(indicators: seq<string>, bases: seq<string>) returns (r: set<string>)
    ensures forall b :: b in r <==> exists i :: 0 <= i < |indicators| && FirstPrefix(bases, indicators[i]) == Some(b)
  {
    var found: seq<string> := [];
    var i := 0;
    while i < |indicators|
      invariant 0 <= i <= |indicators|
      invariant forall b :: b in found <==> exists t :: 0 <= t < i && FirstPrefix(bases, indicators[t]) == Some(b)
    {
      var name := indicators[i];
      ghost var before := found;
      var j := 0;
      while j < |bases|
        invariant 0 <= j <= |bases|
        invariant found == before
        invariant FirstPrefix(bases, name) == FirstPrefix(bases[j..], name)
      {
        if Text.StartsWith(name, bases[j]) {
          found := found + [bases[j]];
          break;
        }
        assert bases[j..][1..] == bases[j + 1..];
        j := j + 1;
      }
      assert found == before ==> FirstPrefix(bases, name).None?;
      assert found != before ==> found == before + [FirstPrefix(bases, name).value];
      i := i + 1;
    }
    r := set b | b in found;
  }

  // ---------------------------------------------------------------------------
  // The selected indicator and its base name

  /** The map shows `<base> Value` when the table has that column, otherwise the
      base name itself. */
  function DisplayIndicator(base: string, indicators: seq<string>): string {
    if base + " Value" in indicators then base + " Value" else base
  }

  /** The `... Category` companion column, when the table has one. */
  function CategoryIndicator(base: string, indicators: seq<string>): (r: Option<string>)
    ensures r.Some? <==> base + " Category" in indicators
    ensures r.Some? ==> r.value in indicators && IsCategorical(r.value)
  {
    var c := base + " Category";
    assert c[|c| - |"Category"|..] == "Category";
    if c in indicators then Some(c) else None
  }

  /** The base name of the selected indicator: every ` Value` removed if the
      name contains one, otherwise every ` Category` removed. */
  function BaseName(sel: string): string {
    if Text.Contains(sel, " Value") then Text.RemoveAll(sel, " Value")
    else if Text.Contains(sel, " Category") then Text.RemoveAll(sel, " Category")
    else sel
  }

  /** The key of the description shown under the first tab: ` Value` removed,
      then ` Category` removed. */
  function DescriptionKey(sel: string): string {
    Text.RemoveAll(Text.RemoveAll(sel, " Value"), " Category")
  }

  /** A base name holds neither suffix word. */
  predicate Plain(base: string) {
    !Text.Contains(base, " Value") && !Text.Contains(base, " Category")
  }

  lemma SuffixWordsApart()
    ensures !Text.Contains(" Category", " Value") && !Text.Contains(" Value", " Category")
  {
    Text.MissingChar(" Category", " Value", 1);
    Text.MissingChar(" Value", " Category", 1);
  }

  /** Removing one suffix gives back the base name. */
  lemma BaseNameStripsSuffix(base: string)
    requires Plain(base)
    ensures BaseName(base + " Value") == base
    ensures BaseName(base + " Category") == base
  {
    Text.ContainsSuffix(base, " Value");
    Text.RemoveAllSuffix(base, " Value");
    SuffixWordsApart();
    Text.ConcatAvoids(base, " Category", " Value");
    Text.ContainsSuffix(base, " Category");
    Text.RemoveAllSuffix(base, " Category");
  }

  /** The indicator shown on the map leads back to the base name the user
      picked, both for the polarity lookup and for the description lookup. */
  lemma DisplayedBase(base: string, indicators: seq<string>)
    requires Plain(base)
    ensures BaseName(DisplayIndicator(base, indicators)) == base
    ensures DescriptionKey(DisplayIndicator(base, indicators)) == base
  {
    BaseNameStripsSuffix(base);
    Text.RemoveAllAbsent(base, " Value");
    Text.RemoveAllAbsent(base, " Category");
    Text.RemoveAllSuffix(base, " Value");
  }

  /** `indicator_polarity` */
  const IndicatorPolarity: map<string, Polarity> := map[
    "Pollution" := LowerIsBetter,
    "Climate" := HigherIsBetter,
    "Purchasing Power" := HigherIsBetter,
    "Cost of Living" := LowerIsBetter,
    "Property Price to Income" := LowerIsBetter,
    "Safety" := HigherIsBetter,
    "Health Care" := HigherIsBetter,
    "Quality of Life" := HigherIsBetter,
    "Traffic Commute Time" := LowerIsBetter
  ]

  /** `indicator_polarity.get(base_name, 'higher_is_better')`: lower is better
      for exactly four indicators; every other name, known or not, counts as
      higher is better. */
  function PolarityOf(base: string): (p: Polarity)
    ensures p == LowerIsBetter <==>
      base in {"Pollution", "Cost of Living", "Property Price to Income", "Traffic Commute Time"}
  {
    if base in IndicatorPolarity then IndicatorPolarity[base] else HigherIsBetter
  }

  /** Every member of every group has its own polarity entry. */
  lemma GroupsHavePolarity()
    ensures forall k, b :: 0 <= k < |Groups| && b in Groups[k].1 ==> b in IndicatorPolarity
  {
  }

  // ---------------------------------------------------------------------------
  // Geographic and value filters

  /** `sorted(df['continent'].unique())` */
  function ContinentOptions(rows: seq<Row>): (r: seq<string>)
    ensures Sorting.StrictlySorted(r, Text.Less)
    ensures forall c :: c in r <==> c in KeysOf(rows, ContinentOf)
  {
    Sorting.StringOrder();
    Sorting.SortUnique(KeysOf(rows, ContinentOf), Text.Less)
  }

  /** The continents the filter uses: all of them when "Select All Continents"
      is ticked, otherwise the multiselect's choice, which may be empty (the page
      then only warns; the line that would fall back to the first continent is
      commented out). */
  function SelectedContinents(rows: seq<Row>, selectAll: bool, chosen: seq<string>): (r: seq<string>)
    ensures selectAll ==> forall c :: c in r <==> exists x :: x in rows && x.continent == c
    ensures !selectAll ==> r == chosen
  {
    ContinentsOffered(rows);
    if selectAll then ContinentOptions(rows) else chosen
  }

  predicate Shown(x: Row, j: nat, conts: seq<string>, lo: real, hi: real) {
    x.continent in conts && Within(x, j, lo, hi)
  }

  /** `filtered_df` on the numeric path: the rows on a selected continent whose
      value lies in `[lo, hi]` (a comparison with NaN is false), nulls dropped,
      input order kept. */
  function MapRows(rows: seq<Row>, j: nat, conts: seq<string>, lo: real, hi: real): (r: seq<Row>)
    ensures IsSubseq(r, rows)
    ensures forall x :: x in r <==>
      x in rows && x.continent in conts && NumAt(x, j).Some? && lo <= NumAt(x, j).value <= hi
    ensures forall x ::
      multiset(r)[x] == if x.continent in conts && NumAt(x, j).Some? && lo <= NumAt(x, j).value <= hi then multiset(rows)[x] else 0
  {
    var masked := Where(rows, (x: Row) => Shown(x, j, conts, lo, hi));
    SubseqTrans(NotNull(masked, j), masked, rows);
    NotNull(masked, j)
  }

  /** No continent selected: nothing is shown, rather than some default. */
  lemma NoContinentNoRows(rows: seq<Row>, j: nat, lo: real, hi: real)
    ensures MapRows(rows, j, [], lo, hi) == []
  {
    WhereNone(rows, (x: Row) => Shown(x, j, [], lo, hi));
    WhereNone([], (x: Row) => NumAt(x, j).Some?);
  }

  /** With every continent selected and the slider at its default (the
      column's own minimum and maximum), the filter drops exactly the rows
      whose value is missing. */
  lemma DefaultFilterDropsOnlyNulls(rows: seq<Row>, j: nat, chosen: seq<string>)
    requires RangeOf(rows, j).Some?
    ensures MapRows(rows, j, SelectedContinents(rows, true, chosen), RangeOf(rows, j).value.0, RangeOf(rows, j).value.1)
      == NotNull(rows, j)
  {
    var (lo, hi) := RangeOf(rows, j).value;
    var conts := SelectedContinents(rows, true, chosen);
    ShownIffValued(rows, j, conts, lo, hi);
    WhereCongruent(rows, (x: Row) => Shown(x, j, conts, lo, hi), (x: Row) => NumAt(x, j).Some?);
    WhereAll(NotNull(rows, j), (x: Row) => NumAt(x, j).Some?);
  }

  /** The options are exactly the continents of the table. */
  lemma ContinentsOffered(rows: seq<Row>)
    ensures forall c :: c in ContinentOptions(rows) <==> exists x :: x in rows && x.continent == c
  {
    var keys := KeysOf(rows, ContinentOf);
    forall c
      ensures c in keys <==> exists x :: x in rows && x.continent == c
    {
      if c in keys {
        var i :| 0 <= i < |keys| && keys[i] == c;
        assert rows[i] in rows;
      }
      if x :| x in rows && x.continent == c {
        var i :| 0 <= i < |rows| && rows[i] == x;
        assert keys[i] == c;
      }
    }
  }

  /** When every row is on a selected continent and every value lies in the
      range, the mask keeps a row exactly when it holds a value. */
  lemma ShownIffValued(rows: seq<Row>, j: nat, conts: seq<string>, lo: real, hi: real)
    requires forall x :: x in rows ==> x.continent in conts
    requires forall x :: x in rows && NumAt(x, j).Some? ==> lo <= NumAt(x, j).value <= hi
    ensures forall x :: x in rows ==> Shown(x, j, conts, lo, hi) == NumAt(x, j).Some?
  {
  }

  /** The map is drawn only when some row passes the filter; otherwise the page
      warns and stops. */
  function MapData(rows: seq<Row>, j: nat, conts: seq<string>, lo: real, hi: real): (r: Option<seq<Row>>)
    ensures r.None? <==> forall x :: x in rows ==> !(x.continent in conts && Within(x, j, lo, hi))
    ensures r.Some? ==> r.value == MapRows(rows, j, conts, lo, hi)
  {
    var shown := MapRows(rows, j, conts, lo, hi);
    assert shown != [] ==> shown[0] in shown;
    if shown == [] then None else Some(shown)
  }

  /** The categories the filter of a category column uses (a branch the page
      never takes): the offered ones when "Select All Categories" is ticked,
      otherwise the multiselect's choice; an empty choice falls back to the
      first offered category, and with nothing offered that fallback fails. */
  function SelectedCategories(options: seq<string>, selectAll: bool, chosen: seq<string>): (r: Option<seq<string>>)
    ensures r.None? <==> options == [] && (selectAll || chosen == [])
    ensures r.Some? ==> r.value != []
    ensures r.Some? && (if selectAll then options else chosen) != [] ==>
      r.value == if selectAll then options else chosen
    ensures r.Some? && (if selectAll then options else chosen) == [] ==> r.value == [options[0]]
  {
    var picked := if selectAll then options else chosen;
    if picked != [] then Some(picked)
    else if options == [] then None
    else Some([options[0]])
  }

  predicate Labelled(x: Row, j: nat, conts: seq<string>, cats: seq<string>) {
    x.continent in conts && LabelAt(x, j).Some? && LabelAt(x, j).value in cats
  }

  /** `filtered_df` on the category path (never taken): the rows on a selected
      continent whose label is a selected category, rows without a label
      dropped, input order kept. */
  function CategoryRows(rows: seq<Row>, j: nat, conts: seq<string>, cats: seq<string>): (r: seq<Row>)
    ensures IsSubseq(r, rows)
    ensures forall x :: x in r <==> x in rows && Labelled(x, j, conts, cats)
    ensures forall x :: multiset(r)[x] == if Labelled(x, j, conts, cats) then multiset(rows)[x] else 0
  {
    var masked := Where(rows, (x: Row) => Labelled(x, j, conts, cats));
    SubseqTrans(LabelNotNull(masked, j), masked, rows);
    LabelNotNull(masked, j)
  }

  /** With every continent and every present label selected, the category
      filter drops exactly the rows without a label. */
  lemma AllCategoriesDropOnlyUnlabelled(rows: seq<Row>, j: nat, conts: seq<string>, cats: seq<string>)
    requires forall x :: x in rows ==> x.continent in conts
    requires forall x :: x in rows && LabelAt(x, j).Some? ==> LabelAt(x, j).value in cats
    ensures CategoryRows(rows, j, conts, cats) == LabelNotNull(rows, j)
  {
    WhereCongruent(rows, (x: Row) => Labelled(x, j, conts, cats), (x: Row) => LabelAt(x, j).Some?);
    WhereAll(LabelNotNull(rows, j), (x: Row) => LabelAt(x, j).Some?);
  }

  // ---------------------------------------------------------------------------
  // The data table

  /** Case-insensitive substring match on the country or the continent name
      (`str.contains(..., case=False)`, read as plain text). */
  predicate Matches(x: Row, text: string) {
    || Text.Contains(Text.Lower(x.country), Text.Lower(text))
    || Text.Contains(Text.Lower(x.continent), Text.Lower(text))
  }

  /** `filtered_table_df`: the rows matching the search text, all rows when the
      box is empty. */
  function Search(rows: seq<Row>, text: string): (r: seq<Row>)
    ensures IsSubseq(r, rows)
    ensures forall x :: x in r <==> x in rows && Matches(x, text)
    ensures forall x :: multiset(r)[x] == if Matches(x, text) then multiset(rows)[x] else 0
  {
    if text != [] then Where(rows, (x: Row) => Matches(x, text))
    else
      forall x | x in rows
        ensures Matches(x, text)
      {
        Text.ContainsEmpty(Text.Lower(x.country));
      }
      SubseqRefl(rows);
      rows
  }

  /** Every row matches the empty text, so the special case for an empty box
      is the search itself. */
  lemma EmptySearchIsSearch(rows: seq<Row>)
    ensures Search(rows, []) == Where(rows, (x: Row) => Matches(x, []))
  {
    forall x | x in rows
      ensures Matches(x, [])
    {
      Text.ContainsEmpty(Text.Lower(x.country));
    }
    WhereAll(rows, (x: Row) => Matches(x, []));
  }

  /** The search does not see the case of the text typed. */
  lemma SearchIgnoresCase(rows: seq<Row>, text: string)
    ensures Search(rows, Text.Lower(text)) == Search(rows, text)
  {
    Text.LowerIdempotent(text);
    if text != [] {
      WhereCongruent(rows, (x: Row) => Matches(x, Text.Lower(text)), (x: Row) => Matches(x, text));
    }
  }

  /** The "Sort by" box starts at "Highest First" for higher-is-better
      indicators and at "Lowest First" otherwise. */
  function DefaultAscending(p: Polarity): bool {
    p == LowerIsBetter
  }

  function ValueKey(x: Row, j: nat): real {
    NumAt(x, j).GetOr(0.0)
  }

  /** Rows with a value come first, ordered by it in the chosen direction. */
  ghost predicate TableOrdered(r: seq<Row>, j: nat, ascending: bool) {
    forall a, b :: 0 <= a < b < |r| && NumAt(r[b], j).Some? ==>
      && NumAt(r[a], j).Some?
      && (if ascending then ValueKey(r[a], j) <= ValueKey(r[b], j) else ValueKey(r[a], j) >= ValueKey(r[b], j))
  }

  /** Sorting the rows that have a value, then appending those that have
      none, gives a table ordered as `TableOrdered` says. */
  lemma ValuesThenMissing(present: seq<Row>, missing: seq<Row>, j: nat, ascending: bool)
    requires forall x :: x in present ==> NumAt(x, j).Some?
    requires forall x :: x in missing ==> NumAt(x, j).None?
    ensures TableOrdered(Sorting.SortBy(present, (x: Row) => ValueKey(x, j), ascending) + missing, j, ascending)
  {
    var sorted := Sorting.SortBy(present, (x: Row) => ValueKey(x, j), ascending);
    var r := sorted + missing;
    forall a, b | 0 <= a < b < |r| && NumAt(r[b], j).Some?
      ensures NumAt(r[a], j).Some?
      ensures if ascending then ValueKey(r[a], j) <= ValueKey(r[b], j) else ValueKey(r[a], j) >= ValueKey(r[b], j)
    {
      assert b < |sorted|;
      assert r[a] == sorted[a] && r[b] == sorted[b];
      assert sorted[a] in multiset(present);
    }
  }

  /** `sort_values(by=indicator, ascending=...)`: the same rows, those with a
      value ordered by it and those without placed last. */
  function SortTable(rows: seq<Row>, j: nat, ascending: bool): (r: seq<Row>)
    ensures multiset(r) == multiset(rows)
    ensures TableOrdered(r, j, ascending)
  {
    var present := Where(rows, (x: Row) => NumAt(x, j).Some?);
    var missing := Where(rows, (x: Row) => NumAt(x, j).None?);
    WherePartition(rows, (x: Row) => NumAt(x, j).Some?, (x: Row) => NumAt(x, j).None?);
    ValuesThenMissing(present, missing, j, ascending);
    Sorting.SortBy(present, (x: Row) => ValueKey(x, j), ascending) + missing
  }

  /** At its default direction the table opens on the best row: the highest
      value when higher is better, the lowest otherwise. */
  lemma BestFirst(rows: seq<Row>, j: nat, p: Polarity)
    requires rows != [] && forall x :: x in rows ==> NumAt(x, j).Some?
    ensures var r := SortTable(rows, j, DefaultAscending(p));
      forall x :: x in rows ==>
        if p == HigherIsBetter then ValueKey(r[0], j) >= ValueKey(x, j) else ValueKey(r[0], j) <= ValueKey(x, j)
  {
    var r := SortTable(rows, j, DefaultAscending(p));
    forall x | x in rows
      ensures if p == HigherIsBetter then ValueKey(r[0], j) >= ValueKey(x, j) else ValueKey(r[0], j) <= ValueKey(x, j)
    {
      FirstOfOrdered(r, rows, j, DefaultAscending(p), x);
    }
  }

  /** The first row of an ordered rearrangement of rows that all hold a value
      is at least as far along the order as any of them. */
  lemma FirstOfOrdered(r: seq<Row>, rows: seq<Row>, j: nat, ascending: bool, x: Row)
    requires multiset(r) == multiset(rows) && TableOrdered(r, j, ascending)
    requires forall y :: y in rows ==> NumAt(y, j).Some?
    requires x in rows
    ensures |r| > 0
    ensures if ascending then ValueKey(r[0], j) <= ValueKey(x, j) else ValueKey(r[0], j) >= ValueKey(x, j)
  {
    assert x in multiset(r);
    var b :| 0 <= b < |r| && r[b] == x;
  }
}
