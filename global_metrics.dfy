/** The global metrics page: the indicator, polarity and colour tables, the
    Global and Single Continent filters, the per-continent and per-country
    means, and the summary statistics over them. */
module GlobalMetrics {
  import opened Options
  import opened Seqs
  import Text
  import Sorting
  import Stats
  import opened Palette
  import opened Frames

  // ---------------------------------------------------------------------------
  // Column names and tables

  /** `str.strip().str.title()` */
  function Normalize(c: string): string {
    Text.Title(Text.Strip(c))
  }

  /** Normalising a normalised name changes nothing. */
  lemma NormalizeIdempotent(c: string)
    ensures Normalize(Normalize(c)) == Normalize(c)
  {
    var t := Text.Strip(c);
    Text.StripFixed(t);
    Text.StripFixed(Text.Title(t));
    Text.TitleIdempotent(t);
  }

  /** `indicators` */
  const Indicators: seq<string> := [
    "Purchasing Power Value", "Safety Value", "Health Care Value", "Climate Value",
    "Cost Of Living Value", "Property Price To Income Value", "Pollution Value",
    "Traffic Commute Time Value", "Quality Of Life Value"
  ]

  /** `indicator_polarity` */
  const IndicatorPolarity: map<string, Polarity> := map[
    "Quality Of Life Value" := HigherIsBetter,
    "Purchasing Power Value" := HigherIsBetter,
    "Cost Of Living Value" := LowerIsBetter,
    "Property Price To Income Value" := LowerIsBetter,
    "Safety Value" := HigherIsBetter,
    "Health Care Value" := HigherIsBetter,
    "Pollution Value" := LowerIsBetter,
    "Traffic Commute Time Value" := LowerIsBetter,
    "Climate Value" := HigherIsBetter
  ]

  /** `indicator_groups` */
  const IndicatorGroups: seq<(string, seq<string>)> := [
    ("Economic", ["Purchasing Power Value", "Cost Of Living Value", "Property Price To Income Value"]),
    ("Lifestyle", ["Quality Of Life Value", "Safety Value", "Traffic Commute Time Value", "Health Care Value"]),
    ("Environment", ["Pollution Value", "Climate Value"])
  ]

  /** Every listed indicator and every group member has a polarity, and every
      polarity a colour scale, so `color_scales[indicator_polarity[...]]`
      cannot fail for an indicator the sidebar offers. */
  lemma LookupsTotal()
    ensures forall i :: i in Indicators ==> i in IndicatorPolarity
    ensures forall k, m :: 0 <= k < |IndicatorGroups| && m in IndicatorGroups[k].1 ==>
      m in Indicators && m in IndicatorPolarity
    ensures forall p: Polarity :: p in ColorScales
  {
    ScalesTotal();
  }

  /** `color_scales[indicator_polarity[indicator]]`; `None` where the page
      would fail on the lookup. */
  function ScaleOf(indicator: string): (s: Option<Scale>)
    ensures s.Some? <==> indicator in IndicatorPolarity
    ensures s.Some? ==> (s.value == RdYlGn <==> IndicatorPolarity[indicator] == HigherIsBetter)
  {
    ScalesTotal();
    if indicator in IndicatorPolarity then Some(ColorScales[IndicatorPolarity[indicator]]) else None
  }

  /** The column holding the chosen indicator after normalisation; `None` where
      the page would fail on the lookup. */
  function IndicatorColumn(df: DataFrame, indicator: string): (j: Option<nat>)
    ensures j.None? <==> indicator !in Rename(df, Normalize).columns
    ensures j.Some? ==> j.value < |df.columns| && Normalize(df.columns[j.value]) == indicator
  {
    IndexOf(Rename(df, Normalize).columns, indicator)
  }

  // ---------------------------------------------------------------------------
  // Filters

  datatype Mode = GlobalView(continents: seq<string>) | SingleContinentView(continent: string)

  /** `filtered_df`: the rows on the chosen continents (Global View) or on the
      one chosen continent, with a value for the indicator. */
  function Filtered(rows: seq<Row>, j: nat, mode: Mode): (r: seq<Row>)
    ensures IsSubseq(r, rows)
    ensures forall x :: x in r ==> NumAt(x, j).Some?
    ensures mode.GlobalView? ==>
      forall x :: x in r <==> x in rows && x.continent in mode.continents && NumAt(x, j).Some?
    ensures mode.SingleContinentView? ==>
      forall x :: x in r <==> x in rows && x.continent == mode.continent && NumAt(x, j).Some?
    ensures mode.GlobalView? ==> forall x ::
      multiset(r)[x] == if x.continent in mode.continents && NumAt(x, j).Some? then multiset(rows)[x] else 0
    ensures mode.SingleContinentView? ==> forall x ::
      multiset(r)[x] == if x.continent == mode.continent && NumAt(x, j).Some? then multiset(rows)[x] else 0
  {
    var chosen := match mode
      case GlobalView(cs) => InContinents(rows, set c | c in cs)
      case SingleContinentView(c) => OnContinent(rows, c);
    SubseqTrans(NotNull(chosen, j), chosen, rows);
    NotNull(chosen, j)
  }

  /** The multiselect starts with every continent, so the default Global View
      keeps exactly the rows with a value. */
  lemma DefaultGlobalView(rows: seq<Row>, j: nat)
    ensures Filtered(rows, j, GlobalView(KeysOf(rows, ContinentOf))) == NotNull(rows, j)
  {
    var conts := set c | c in KeysOf(rows, ContinentOf);
    forall x | x in rows
      ensures x.continent in conts
    {
      var i :| 0 <= i < |rows| && rows[i] == x;
      assert KeysOf(rows, ContinentOf)[i] == x.continent;
    }
    WhereAll(rows, (x: Row) => x.continent in conts);
  }

  // ---------------------------------------------------------------------------
  // Grouping

  /** `df_continent`: one row per continent of `filtered_df`, in alphabetical
      order, with the continent's mean. */
  function ContinentMeans(filtered: seq<Row>, j: nat): (r: seq<Aggregate<string>>)
    ensures Sorting.StrictlySorted(GroupKeys(r), Text.Less)
    ensures forall k :: k in GroupKeys(r) <==> exists x :: x in filtered && x.continent == k
    ensures forall i :: 0 <= i < |r| ==>
      r[i].means == [Stats.MeanOf(Column(Group(filtered, ContinentOf, r[i].key), j))]
  {
    Sorting.StringOrder();
    var r := GroupMeans(filtered, ContinentOf, Text.Less, [j]);
    KeysMembers(filtered, ContinentOf);
    assert forall i :: 0 <= i < |r| ==> |r[i].means| == 1;
    r
  }

  /** `df_country`: one row per (continent, country) pair of `filtered_df`, in
      order of continent then country, with the pair's mean. */
  function CountryMeans(filtered: seq<Row>, j: nat): (r: seq<Aggregate<(string, string)>>)
    ensures Sorting.StrictlySorted(GroupKeys(r), PairLess)
    ensures forall k :: k in GroupKeys(r) <==> exists x :: x in filtered && (x.continent, x.country) == k
    ensures forall i :: 0 <= i < |r| ==>
      r[i].means == [Stats.MeanOf(Column(Group(filtered, PlaceOf, r[i].key), j))]
  {
    PairOrder();
    var r := GroupMeans(filtered, PlaceOf, PairLess, [j]);
    KeysMembers(filtered, PlaceOf);
    assert forall i :: 0 <= i < |r| ==> |r[i].means| == 1;
    r
  }

  lemma KeysMembers<K>(rows: seq<Row>, key: Row -> K)
    ensures forall k :: k in KeysOf(rows, key) <==> exists x :: x in rows && key(x) == k
  {
    var ks := KeysOf(rows, key);
    forall k | k in ks
      ensures exists x :: x in rows && key(x) == k
    {
      var i :| 0 <= i < |ks| && ks[i] == k;
      assert rows[i] in rows;
    }
    forall x | x in rows
      ensures key(x) in ks
    {
      var i :| 0 <= i < |rows| && rows[i] == x;
      assert ks[i] == key(x);
    }
  }

  /** Every group of rows that all have a value has a mean. */
  lemma GroupMeanPresent<K>(filtered: seq<Row>, key: Row -> K, j: nat, k: K)
    requires forall x :: x in filtered ==> NumAt(x, j).Some?
    requires exists x :: x in filtered && key(x) == k
    ensures Stats.MeanOf(Column(Group(filtered, key, k), j)).Some?
  {
    var x :| x in filtered && key(x) == k;
    var g := Group(filtered, key, k);
    assert x in g;
    var i :| 0 <= i < |g| && g[i] == x;
    assert Column(g, j)[i] == NumAt(x, j);
    assert NumAt(x, j).value in Stats.Present(Column(g, j));
  }

  // ---------------------------------------------------------------------------
  // Statistics

  /** The indicator column of `grouped_data`. */
  function MeansColumn<K>(groups: seq<Aggregate<K>>): (vs: seq<Option<real>>)
    ensures |vs| == |groups|
    ensures forall i :: 0 <= i < |groups| ==> vs[i] == (if groups[i].means != [] then groups[i].means[0] else None)
  {
    seq(|groups|, i requires 0 <= i < |groups| => if groups[i].means != [] then groups[i].means[0] else None)
  }

  /** `grouped_data[indicator]`: continent means in Global View, country
      means in Single Continent View. */
  function Grouped(filtered: seq<Row>, j: nat, mode: Mode): (vs: seq<Option<real>>)
    ensures (forall x :: x in filtered ==> NumAt(x, j).Some?) ==> forall v :: v in vs ==> v.Some?
    ensures filtered == [] <==> vs == []
    ensures mode.GlobalView? ==> vs == MeansColumn(ContinentMeans(filtered, j))
    ensures mode.SingleContinentView? ==> vs == MeansColumn(CountryMeans(filtered, j))
  {
    match mode
    case GlobalView(_) =>
      var r := ContinentMeans(filtered, j);
      MeansPresent(filtered, j, ContinentOf, r);
      NonEmptyGroups(filtered, GroupKeys(r), ContinentOf);
      MeansColumn(r)
    case SingleContinentView(_) =>
      var r := CountryMeans(filtered, j);
      MeansPresent(filtered, j, PlaceOf, r);
      NonEmptyGroups(filtered, GroupKeys(r), PlaceOf);
      MeansColumn(r)
  }

  /** When every row has a value, so has every group's mean. */
  lemma MeansPresent<K>(filtered: seq<Row>, j: nat, key: Row -> K, r: seq<Aggregate<K>>)
    requires forall k :: k in GroupKeys(r) ==> exists x :: x in filtered && key(x) == k
    requires forall i :: 0 <= i < |r| ==> r[i].means == [Stats.MeanOf(Column(Group(filtered, key, r[i].key), j))]
    ensures (forall x :: x in filtered ==> NumAt(x, j).Some?) ==> forall v :: v in MeansColumn(r) ==> v.Some?
  {
    if forall x :: x in filtered ==> NumAt(x, j).Some? {
      forall i | 0 <= i < |r|
        ensures MeansColumn(r)[i].Some?
      {
        assert GroupKeys(r)[i] == r[i].key;
        assert GroupKeys(r)[i] in GroupKeys(r);
        GroupMeanPresent(filtered, key, j, r[i].key);
      }
    }
  }

  /** There are groups exactly when there are rows. */
  lemma NonEmptyGroups<K(!new)>(rows: seq<Row>, ks: seq<K>, key: Row -> K)
    requires forall k :: k in ks <==> exists x :: x in rows && key(x) == k
    ensures rows == [] <==> ks == []
  {
    if rows != [] {
      var k := key(rows[0]);
      assert rows[0] in rows && key(rows[0]) == k;
      assert k in ks;
    }
    if ks != [] {
      assert ks[0] in ks;
    }
  }

  /** The five figures of the statistics row: nothing when `filtered_df` is
      empty (the page warns and stops), otherwise the mean, median, minimum
      and maximum over the group means: the minimum and maximum are group
      means and bound every other, and the mean and median lie between them. */
  function Statistics(rows: seq<Row>, j: nat, mode: Mode): (r: Option<Stats.Summary>)
    ensures r.None? <==> Filtered(rows, j, mode) == []
    ensures r.Some? ==> r.value.min <= r.value.median <= r.value.max
    ensures r.Some? ==> r.value.min <= r.value.mean <= r.value.max
    ensures r.Some? ==> forall v :: v in Grouped(Filtered(rows, j, mode), j, mode) ==>
      v.Some? && r.value.min <= v.value <= r.value.max
    ensures r.Some? ==> Some(r.value.min) in Grouped(Filtered(rows, j, mode), j, mode)
    ensures r.Some? ==> Some(r.value.max) in Grouped(Filtered(rows, j, mode), j, mode)
  {
    var filtered := Filtered(rows, j, mode);
    if filtered == [] then None
    else
      var vs := Grouped(filtered, j, mode);
      assert vs[0] in vs;
      Stats.Describe(vs)
  }
}
