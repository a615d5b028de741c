/** The top-versus-bottom page: normalised column names, the continent and
    value-range filters, the best and worst `n` countries for one indicator,
    and the colour scale and commentary chosen for it. */
module TopVBottom {
  import opened Options
  import opened Seqs
  import Text
  import opened Palette
  import opened Frames
  import opened Ranking
  import GlobalMetrics

  // ---------------------------------------------------------------------------
  // Column names

  /** `str.strip().str.lower()` */
  function Normalize(c: string): string {
    Text.Lower(Text.Strip(c))
  }

  /** Normalising a normalised name changes nothing. */
  lemma NormalizeIdempotent(c: string)
    ensures Normalize(Normalize(c)) == Normalize(c)
  {
    var t := Text.Strip(c);
    var l := Text.Lower(t);
    Text.StripFixed(t);
    Text.StripFixed(l);
    Text.LowerIdempotent(t);
  }

  /** The frame after `df.columns = df.columns.str.strip().str.lower()`. */
  function Normalized(df: DataFrame): (r: DataFrame)
    ensures r.rows == df.rows && |r.columns| == |df.columns|
    ensures forall i :: 0 <= i < |df.columns| ==> r.columns[i] == Normalize(df.columns[i])
  {
    Rename(df, Normalize)
  }

  /** `indicator_groups`, in the sidebar's spelling. */
  const IndicatorGroups: seq<(string, seq<string>)> := [
    ("Economic", ["Purchasing Power Value", "Cost of Living Value", "Property Price to Income Value"]),
    ("Lifestyle", ["Quality of Life Value", "Safety Value", "Traffic Commute Time Value", "Health Care Value"]),
    ("Environment", ["Pollution Value", "Climate Value"])
  ]

  /** The column the page reads for the chosen indicator: the lower-cased
      name among the normalised columns; `None` when there is no such column,
      where the page fails on the lookup. */
  function IndicatorColumn(df: DataFrame, indicator: string): (j: Option<nat>)
    ensures j.None? <==> Text.Lower(indicator) !in Normalized(df).columns
    ensures j.Some? ==> j.value < |df.columns| && Normalize(df.columns[j.value]) == Text.Lower(indicator)
  {
    IndexOf(Normalized(df).columns, Text.Lower(indicator))
  }

  /** A header that spells the indicator with any surrounding spaces is found,
      whatever the case the selection uses. */
  lemma SelectedFound(df: DataFrame, indicator: string, i: nat)
    requires i < |df.columns| && Text.Strip(df.columns[i]) == indicator
    ensures IndicatorColumn(df, indicator).Some?
  {
    assert Normalized(df).columns[i] == Text.Lower(indicator);
  }

  // ---------------------------------------------------------------------------
  // Filters

  /** `df` as the page rebinds it: restricted to one continent when the
      geographic filter is on, then, in the Top/Bottom view and only if rows
      remain, to the values within the slider's range. */
  method Narrow(rows: seq<Row>, j: nat, continent: Option<string>, range: Option<(real, real)>)
    returns (df: seq<Row>)
    ensures IsSubseq(df, rows)
    ensures forall x :: x in df <==>
      && x in rows
      && (continent.Some? ==> x.continent == continent.value)
      && (range.Some? ==> Within(x, j, range.value.0, range.value.1))
    ensures forall x ::
      multiset(df)[x] ==
        if && (continent.Some? ==> x.continent == continent.value)
           && (range.Some? ==> Within(x, j, range.value.0, range.value.1))
        then multiset(rows)[x] else 0
  {
    df := rows;
    SubseqRefl(rows);
    if continent.Some? {
      df := OnContinent(df, continent.value);
    }
    if range.Some? && df != [] {
      var before := df;
      df := Between(df, j, range.value.0, range.value.1);
      SubseqTrans(df, before, rows);
    }
  }

  // ---------------------------------------------------------------------------
  // Ranking

  /** The slider's range for the number of countries. */
  type Count = n: nat | 3 <= n <= 10 witness 5

  /** The rows at the given positions, in that order. */
  function Pick(rows: seq<Row>, pos: seq<nat>): (r: seq<Row>)
    requires forall i :: 0 <= i < |pos| ==> pos[i] < |rows|
    ensures |r| == |pos| && forall i :: 0 <= i < |pos| ==> r[i] == rows[pos[i]]
  {
    seq(|pos|, i requires 0 <= i < |pos| => rows[pos[i]])
  }

  /** Row `x` is at least as good as row `y`: both have a value, and `x`'s
      is not worse in the ranking's direction. */
  predicate NoWorse(top: bool, x: Row, y: Row, j: nat) {
    && NumAt(x, j).Some? && NumAt(y, j).Some?
    && if top then NumAt(x, j).value >= NumAt(y, j).value else NumAt(x, j).value <= NumAt(y, j).value
  }

  function DirectionOf(top: bool): Direction {
    if top then Largest else Smallest
  }

  /** Picking ranked positions gives rows ordered by value. */
  lemma PickedOrdered(rows: seq<Row>, j: nat, top: bool, pos: seq<nat>)
    requires forall i :: 0 <= i < |pos| ==> pos[i] < |rows|
    requires forall a, b :: 0 <= a < b < |pos| ==> Ahead(DirectionOf(top), Column(rows, j), pos[a], pos[b])
    ensures forall a, b :: 0 <= a < b < |pos| ==>
      NoWorse(top, Pick(rows, pos)[a], Pick(rows, pos)[b], j)
  {
    var vs, r := Column(rows, j), Pick(rows, pos);
    forall a, b | 0 <= a < b < |pos|
      ensures NoWorse(top, r[a], r[b], j)
    {
      assert Ahead(DirectionOf(top), vs, pos[a], pos[b]);
    }
  }

  /** A row left out of the picked ones is no better than any picked row. */
  lemma PickedBeatLeftOut(rows: seq<Row>, j: nat, top: bool, pos: seq<nat>)
    requires forall i :: 0 <= i < |pos| ==> pos[i] < |rows|
    requires forall x: nat, y: nat :: x in pos && Valid(Column(rows, j), y) && y !in pos ==>
      Ahead(DirectionOf(top), Column(rows, j), x, y)
    ensures forall x, k :: x in Pick(rows, pos) && 0 <= k < |rows| && NumAt(rows[k], j).Some? && rows[k] !in Pick(rows, pos) ==>
      NoWorse(top, x, rows[k], j)
  {
    var vs, r := Column(rows, j), Pick(rows, pos);
    forall x, k | x in r && 0 <= k < |rows| && NumAt(rows[k], j).Some? && rows[k] !in r
      ensures NoWorse(top, x, rows[k], j)
    {
      var a :| 0 <= a < |r| && r[a] == x;
      assert Valid(vs, k);
      assert k !in pos;
      assert pos[a] in pos;
      assert Ahead(DirectionOf(top), vs, pos[a], k);
    }
  }

  /** The positions `nlargest` (when `top`) or `nsmallest` picks in the column. */
  function Positions(vs: seq<Option<real>>, n: nat, top: bool): (pos: seq<nat>)
    ensures |pos| == if n <= |NonNull(vs)| then n else |NonNull(vs)|
    ensures forall x: nat :: x in pos ==> Valid(vs, x)
    ensures forall i :: 0 <= i < |pos| ==> pos[i] < |vs|
    ensures forall a, b :: 0 <= a < b < |pos| ==> Ahead(DirectionOf(top), vs, pos[a], pos[b])
    ensures forall x: nat, y: nat :: x in pos && Valid(vs, y) && y !in pos ==> Ahead(DirectionOf(top), vs, x, y)
  {
    var pos := if top then Top(vs, n) else Bottom(vs, n);
    assert forall i :: 0 <= i < |pos| ==> pos[i] in pos;
    pos
  }

  /** Picked rows all come from the table and hold a value. */
  lemma PickedPresent(rows: seq<Row>, j: nat, pos: seq<nat>)
    requires forall x: nat :: x in pos ==> Valid(Column(rows, j), x)
    ensures forall i :: 0 <= i < |pos| ==> pos[i] < |rows|
    ensures forall x :: x in Pick(rows, pos) ==> x in rows && NumAt(x, j).Some?
  {
    var vs := Column(rows, j);
    assert forall i :: 0 <= i < |pos| ==> pos[i] in pos;
    forall x | x in Pick(rows, pos)
      ensures x in rows && NumAt(x, j).Some?
    {
      var a :| 0 <= a < |pos| && Pick(rows, pos)[a] == x;
      assert pos[a] in pos;
    }
  }

  /** What the picked ranked rows satisfy. */
  lemma RankedRows(rows: seq<Row>, j: nat, n: Count, top: bool, pos: seq<nat>, r: seq<Row>)
    requires pos == Positions(Column(rows, j), n, top)
    requires forall i :: 0 <= i < |pos| ==> pos[i] < |rows|
    requires r == Pick(rows, pos)
    ensures |r| == (if n <= |NotNull(rows, j)| then n else |NotNull(rows, j)|)
    ensures forall x :: x in r ==> x in rows && NumAt(x, j).Some?
    ensures forall a, b :: 0 <= a < b < |r| ==> NoWorse(top, r[a], r[b], j)
    ensures forall x, k :: x in r && 0 <= k < |rows| && NumAt(rows[k], j).Some? && rows[k] !in r ==>
      NoWorse(top, x, rows[k], j)
  {
    CountValues(rows, j);
    PickedPresent(rows, j, pos);
    PickedOrdered(rows, j, top, pos);
    PickedBeatLeftOut(rows, j, top, pos);
  }

  /** `df.nlargest(n, indicator)` when `top`, `df.nsmallest(n, indicator)`
      otherwise: as many rows as asked for or as have a value, best first,
      each at least as good as every row left out. The rows are those at the
      positions `Ranking.Top` or `Ranking.Bottom` choose, so each row of the
      table is taken at most once and ties go to the earlier row. */
  function Ranked(rows: seq<Row>, j: nat, n: Count, top: bool): (r: seq<Row>)
    ensures r == Pick(rows, Positions(Column(rows, j), n, top))
    ensures |r| == if n <= |NotNull(rows, j)| then n else |NotNull(rows, j)|
    ensures forall x :: x in r ==> x in rows && NumAt(x, j).Some?
    ensures forall a, b :: 0 <= a < b < |r| ==> NoWorse(top, r[a], r[b], j)
    ensures forall x, k :: x in r && 0 <= k < |rows| && NumAt(rows[k], j).Some? && rows[k] !in r ==>
      NoWorse(top, x, rows[k], j)
  {
    var pos := Positions(Column(rows, j), n, top);
    PickedPresent(rows, j, pos);
    var r := Pick(rows, pos);
    RankedRows(rows, j, n, top, pos, r);
    r
  }

  /** The rows with a value are as many as the column's present positions. */
  lemma CountValues(rows: seq<Row>, j: nat)
    ensures |NotNull(rows, j)| == |NonNull(Column(rows, j))|
  {
    var vs := Column(rows, j);
    assert forall k :: 0 <= k < |rows| ==> (Valid(vs, k) <==> NumAt(rows[k], j).Some?);
    NotNullCount(rows, j, vs, 0);
    assert rows[0..] == rows;
  }

  lemma {:induction false} NotNullCount(rows: seq<Row>, j: nat, vs: seq<Option<real>>, k: nat)
    requires |vs| == |rows| && forall i :: 0 <= i < |rows| ==> vs[i] == NumAt(rows[i], j)
    requires k <= |rows|
    ensures |NotNull(rows[k..], j)| == |NonNullFrom(vs, k)|
    decreases |rows| - k
  {
    if k < |rows| {
      NotNullCount(rows, j, vs, k + 1);
      assert rows[k..][1..] == rows[k + 1..];
    } else {
      assert rows[k..] == [];
    }
  }

  /** The rows whose value is missing, in table order. */
  function MissingRows(rows: seq<Row>, j: nat): (r: seq<Row>)
    ensures IsSubseq(r, rows)
    ensures forall x :: x in r <==> x in rows && NumAt(x, j).None?
    ensures forall x :: multiset(r)[x] == if NumAt(x, j).None? then multiset(rows)[x] else 0
  {
    Where(rows, (x: Row) => NumAt(x, j).None?)
  }

  /** Every row either has a value or is missing one. */
  lemma MissingCount(rows: seq<Row>, j: nat)
    ensures |NotNull(rows, j)| + |MissingRows(rows, j)| == |rows|
  {
    WherePartition(rows, (x: Row) => NumAt(x, j).Some?, (x: Row) => NumAt(x, j).None?);
    assert |multiset(NotNull(rows, j)) + multiset(MissingRows(rows, j))| == |multiset(rows)|;
  }

  /** `df.nlargest(n, indicator)` (when `top`) or `df.nsmallest(n, indicator)`
      on a frame whose column may hold missing values, as in the comparison
      view, which filters by continent only: the ranked rows with a value,
      then, while fewer than `n` rows have been taken, the rows without one,
      in table order. When every row holds a value this is `Ranked`, which is
      why the top/bottom view, ranking after the range filter, uses that. */
  function Filled(rows: seq<Row>, j: nat, n: Count, top: bool): (r: seq<Row>)
    ensures |r| == if n <= |rows| then n else |rows|
    ensures |Ranked(rows, j, n, top)| <= |r| && r[..|Ranked(rows, j, n, top)|] == Ranked(rows, j, n, top)
    ensures |r| - |Ranked(rows, j, n, top)| <= |MissingRows(rows, j)|
    ensures r[|Ranked(rows, j, n, top)|..] == MissingRows(rows, j)[..|r| - |Ranked(rows, j, n, top)|]
    ensures forall x :: x in r ==> x in rows
    ensures n <= |NotNull(rows, j)| ==> r == Ranked(rows, j, n, top)
    ensures (forall x :: x in rows ==> NumAt(x, j).Some?) ==> r == Ranked(rows, j, n, top)
  {
    MissingCount(rows, j);
    NoneMissing(rows, j);
    TopUp(Ranked(rows, j, n, top), MissingRows(rows, j), n)
  }

  /** `a` followed by as much of `b` as brings it to `n` elements. */
  function TopUp<T>(a: seq<T>, b: seq<T>, n: nat): (r: seq<T>)
    requires |a| <= n
    ensures |r| == if n - |a| <= |b| then n else |a| + |b|
    ensures r[..|a|] == a && |r| - |a| <= |b| && r[|a|..] == b[..|r| - |a|]
    ensures forall x :: x in r ==> x in a || x in b
    ensures b == [] || |a| == n ==> r == a
  {
    var k := if n - |a| <= |b| then n - |a| else |b|;
    assert (a + b[..k])[..|a|] == a && (a + b[..k])[|a|..] == b[..k];
    assert forall x :: x in b[..k] ==> x in b;
    a + b[..k]
  }

  /** A table whose every row holds a value has no row to fill with. */
  lemma NoneMissing(rows: seq<Row>, j: nat)
    ensures (forall x :: x in rows ==> NumAt(x, j).Some?) ==> MissingRows(rows, j) == []
  {
    var missing := MissingRows(rows, j);
    if missing != [] {
      assert missing[0] in missing;
    }
  }

  /** `comparison_df`: the top rows followed by the bottom rows, each half as
      many rows as the slider asks for or as the table has, so never more than
      twenty. */
  function Versus(rows: seq<Row>, j: nat, n: Count): (r: seq<Row>)
    ensures |r| == 2 * (if n <= |rows| then n else |rows|)
    ensures |r| <= 2 * n <= 20
    ensures r[..|r| / 2] == Filled(rows, j, n, true) && r[|r| / 2..] == Filled(rows, j, n, false)
  {
    var top, bottom := Filled(rows, j, n, true), Filled(rows, j, n, false);
    assert (top + bottom)[..|top|] == top && (top + bottom)[|top|..] == bottom;
    top + bottom
  }

  /** A row of the ranked part is one of the filled rows. */
  lemma RankedFilled(rows: seq<Row>, j: nat, n: Count, top: bool, x: Row)
    requires x in Ranked(rows, j, n, top)
    ensures x in Filled(rows, j, n, top)
  {
    var f, m := Filled(rows, j, n, top), |Ranked(rows, j, n, top)|;
    var a :| 0 <= a < m && f[..m][a] == x;
    assert f[a] == x;
  }

  /** With fewer rows holding a value than twice the number asked for (but
      some), the comparison lists some country twice. */
  lemma VersusRepeats(rows: seq<Row>, j: nat, n: Count)
    requires 0 < |NotNull(rows, j)| < 2 * n
    ensures exists x :: x in Filled(rows, j, n, true) && x in Filled(rows, j, n, false)
  {
    var vs := Column(rows, j);
    CountValues(rows, j);
    MustOverlap(vs, n);
    var p :| p in Top(vs, n) && p in Bottom(vs, n);
    var top, bottom := Positions(vs, n, true), Positions(vs, n, false);
    PickedPresent(rows, j, top);
    PickedPresent(rows, j, bottom);
    var a :| 0 <= a < |top| && top[a] == p;
    var b :| 0 <= b < |bottom| && bottom[b] == p;
    assert rows[p] in Ranked(rows, j, n, true) by {
      assert Pick(rows, top)[a] == rows[p];
    }
    assert rows[p] in Ranked(rows, j, n, false) by {
      assert Pick(rows, bottom)[b] == rows[p];
    }
    RankedFilled(rows, j, n, true, rows[p]);
    RankedFilled(rows, j, n, false, rows[p]);
  }

  // ---------------------------------------------------------------------------
  // Colour scale and commentary

  /** The indicators the page colours green-for-high. */
  const HigherIsBetterNames: seq<string> :=
    ["purchasing power value", "safety value", "health care value", "climate value", "quality of life value"]

  /** The scatter plot's colour scale: green for high values for the five
      listed indicators, green for low values for every other. */
  function ScaleFor(indicator: string): (s: Scale)
    ensures s == RdYlGn <==> indicator in HigherIsBetterNames
  {
    if indicator in HigherIsBetterNames then RdYlGn else RdYlGn_r
  }

  // Each indicator name lower-cased character by character, one name per
  // lemma.

  lemma LowerPurchasingPower()
    ensures Text.Lower("Purchasing Power Value") == "purchasing power value"
  {
    Text.LowerMatches("Purchasing Power Value", "purchasing power value");
  }

  lemma LowerSafety()
    ensures Text.Lower("Safety Value") == "safety value"
  {
    Text.LowerMatches("Safety Value", "safety value");
  }

  lemma LowerHealthCare()
    ensures Text.Lower("Health Care Value") == "health care value"
  {
    Text.LowerMatches("Health Care Value", "health care value");
  }

  lemma LowerClimate()
    ensures Text.Lower("Climate Value") == "climate value"
  {
    Text.LowerMatches("Climate Value", "climate value");
  }

  lemma LowerPollution()
    ensures Text.Lower("Pollution Value") == "pollution value"
  {
    Text.LowerMatches("Pollution Value", "pollution value");
  }

  lemma LowerQualityOfLifeTitled()
    ensures Text.Lower("Quality Of Life Value") == "quality of life value"
  {
    Text.LowerMatches("Quality Of Life Value", "quality of life value");
  }

  lemma LowerQualityOfLife()
    ensures Text.Lower("Quality of Life Value") == "quality of life value"
  {
    Text.LowerMatches("Quality of Life Value", "quality of life value");
  }

  lemma LowerCostOfLiving()
    ensures Text.Lower("Cost of Living Value") == "cost of living value"
  {
    Text.LowerMatches("Cost of Living Value", "cost of living value");
  }

  lemma LowerPropertyPrice()
    ensures Text.Lower("Property Price to Income Value") == "property price to income value"
  {
    Text.LowerMatches("Property Price to Income Value", "property price to income value");
  }

  lemma LowerTrafficCommute()
    ensures Text.Lower("Traffic Commute Time Value") == "traffic commute time value"
  {
    Text.LowerMatches("Traffic Commute Time Value", "traffic commute time value");
  }

  /** A higher-is-better indicator's scale agrees with the polarity table,
      once its lower-cased spelling is known. (The facts about the tables are
      established before the lower-cased spelling is brought into scope: the
      other way round the solver spends itself unfolding `Lower`.) */
  lemma Agrees(name: string, lowered: string)
    requires name in GlobalMetrics.IndicatorPolarity
    requires GlobalMetrics.IndicatorPolarity[name] == HigherIsBetter && lowered in HigherIsBetterNames
    requires Text.Lower(name) == lowered
    ensures ScaleFor(Text.Lower(name)) == ColorScales[GlobalMetrics.IndicatorPolarity[name]]
  {
    ScalesTotal();
  }

  /** A lower-is-better indicator whose name is as long as no green-for-high
      name: its lower-cased form cannot be one of them. */
  lemma AgreesByLength(name: string)
    requires name in GlobalMetrics.IndicatorPolarity
    requires GlobalMetrics.IndicatorPolarity[name] == LowerIsBetter
    requires forall h :: h in HigherIsBetterNames ==> |h| != |name|
    ensures ScaleFor(Text.Lower(name)) == ColorScales[GlobalMetrics.IndicatorPolarity[name]]
  {
    ScalesTotal();
  }

  lemma AgreesFrom0(i: nat)
    requires 0 <= i < 4
    ensures ScaleFor(Text.Lower(GlobalMetrics.Indicators[i])) ==
      ColorScales[GlobalMetrics.IndicatorPolarity[GlobalMetrics.Indicators[i]]]
  {
    if i == 0 {
      assert GlobalMetrics.Indicators[i] == "Purchasing Power Value";
      assert GlobalMetrics.IndicatorPolarity["Purchasing Power Value"] == HigherIsBetter && "purchasing power value" in HigherIsBetterNames;
      LowerPurchasingPower();
      Agrees("Purchasing Power Value", "purchasing power value");
    } else if i == 1 {
      assert GlobalMetrics.Indicators[i] == "Safety Value";
      assert GlobalMetrics.IndicatorPolarity["Safety Value"] == HigherIsBetter && "safety value" in HigherIsBetterNames;
      LowerSafety();
      Agrees("Safety Value", "safety value");
    } else if i == 2 {
      assert GlobalMetrics.Indicators[i] == "Health Care Value";
      assert GlobalMetrics.IndicatorPolarity["Health Care Value"] == HigherIsBetter && "health care value" in HigherIsBetterNames;
      LowerHealthCare();
      Agrees("Health Care Value", "health care value");
    } else {
      assert GlobalMetrics.Indicators[i] == "Climate Value";
      assert GlobalMetrics.IndicatorPolarity["Climate Value"] == HigherIsBetter && "climate value" in HigherIsBetterNames;
      LowerClimate();
      Agrees("Climate Value", "climate value");
    }
  }

  lemma AgreesQualityOfLife(i: nat)
    requires i == 8
    ensures ScaleFor(Text.Lower(GlobalMetrics.Indicators[i])) ==
      ColorScales[GlobalMetrics.IndicatorPolarity[GlobalMetrics.Indicators[i]]]
  {
    assert GlobalMetrics.Indicators[i] == "Quality Of Life Value";
    assert GlobalMetrics.IndicatorPolarity["Quality Of Life Value"] == HigherIsBetter && "quality of life value" in HigherIsBetterNames;
    LowerQualityOfLifeTitled();
    Agrees("Quality Of Life Value", "quality of life value");
  }

  lemma AgreesFrom4(i: nat)
    requires 4 <= i < 8
    ensures ScaleFor(Text.Lower(GlobalMetrics.Indicators[i])) ==
      ColorScales[GlobalMetrics.IndicatorPolarity[GlobalMetrics.Indicators[i]]]
  {
    if i == 4 {
      assert GlobalMetrics.Indicators[i] == "Cost Of Living Value";
      AgreesByLength("Cost Of Living Value");
    } else if i == 5 {
      assert GlobalMetrics.Indicators[i] == "Property Price To Income Value";
      AgreesByLength("Property Price To Income Value");
    } else if i == 6 {
      assert GlobalMetrics.Indicators[i] == "Pollution Value";
      AgreesByLength("Pollution Value");
    } else {
      assert GlobalMetrics.Indicators[i] == "Traffic Commute Time Value";
      AgreesByLength("Traffic Commute Time Value");
    }
  }

  /** The list agrees with the polarity table of the global metrics page: for
      each of its indicators, lower-cased as this page spells them, the scale
      is the one that table's polarity selects. */
  lemma ScaleMatchesPolarity(i: nat)
    requires i < |GlobalMetrics.Indicators|
    ensures GlobalMetrics.Indicators[i] in GlobalMetrics.IndicatorPolarity
    ensures ScaleFor(Text.Lower(GlobalMetrics.Indicators[i])) ==
      ColorScales[GlobalMetrics.IndicatorPolarity[GlobalMetrics.Indicators[i]]]
  {
    GlobalMetrics.LookupsTotal();
    if i < 4 {
      AgreesFrom0(i);
    } else if i < 8 {
      AgreesFrom4(i);
    } else {
      AgreesQualityOfLife(i);
    }
  }

  /** Which group the page's commentary marks as the better one. */
  datatype Praised = HighRanking | LowRanking

  /** The keys of `insights`, each with the group its text praises; the text
      itself is narrative. */
  const Insights: map<string, Praised> := map[
    "purchasing power value" := HighRanking,
    "health care value" := HighRanking,
    "cost of living value" := LowRanking,
    "property price to income value" := LowRanking,
    "safety value" := HighRanking,
    "pollution value" := LowRanking,
    "traffic commute time value" := LowRanking,
    "climate value" := HighRanking,
    "quality of life value" := HighRanking
  ]

  /** `insights.get(selected_indicator, <general text>)`: `None` stands for
      the general text. */
  function InsightFor(indicator: string): (r: Option<Praised>)
    ensures r.Some? <==> indicator in Insights
  {
    if indicator in Insights then Some(Insights[indicator]) else None
  }

  /** The commentary and the colour scale agree: the text praises the high
      ranks exactly where the scale paints high values green, and an
      indicator without its own text is coloured green-for-low. */
  lemma InsightMatchesScale(indicator: string)
    ensures InsightFor(indicator) == Some(HighRanking) <==> ScaleFor(indicator) == RdYlGn
  {
  }

  lemma EconomicHasInsight(i: nat)
    requires i < |IndicatorGroups[0].1|
    ensures Text.Lower(IndicatorGroups[0].1[i]) in Insights
  {
    if i == 0 {
      assert IndicatorGroups[0].1[i] == "Purchasing Power Value";
      LowerPurchasingPower();
    } else if i == 1 {
      assert IndicatorGroups[0].1[i] == "Cost of Living Value";
      LowerCostOfLiving();
    } else {
      assert IndicatorGroups[0].1[i] == "Property Price to Income Value";
      LowerPropertyPrice();
    }
  }

  lemma LifestyleHasInsight(i: nat)
    requires i < |IndicatorGroups[1].1|
    ensures Text.Lower(IndicatorGroups[1].1[i]) in Insights
  {
    if i == 0 {
      assert IndicatorGroups[1].1[i] == "Quality of Life Value";
      LowerQualityOfLife();
    } else if i == 1 {
      assert IndicatorGroups[1].1[i] == "Safety Value";
      LowerSafety();
    } else if i == 2 {
      assert IndicatorGroups[1].1[i] == "Traffic Commute Time Value";
      LowerTrafficCommute();
    } else {
      assert IndicatorGroups[1].1[i] == "Health Care Value";
      LowerHealthCare();
    }
  }

  lemma EnvironmentHasInsight(i: nat)
    requires i < |IndicatorGroups[2].1|
    ensures Text.Lower(IndicatorGroups[2].1[i]) in Insights
  {
    if i == 0 {
      assert IndicatorGroups[2].1[i] == "Pollution Value";
      LowerPollution();
    } else {
      assert IndicatorGroups[2].1[i] == "Climate Value";
      LowerClimate();
    }
  }

  /** Every indicator the sidebar offers, lower-cased as the page does, has
      its own commentary, so the general text is never shown for it. */
  lemma OptionsHaveInsight(k: nat, i: nat)
    requires k < |IndicatorGroups| && i < |IndicatorGroups[k].1|
    ensures InsightFor(Text.Lower(IndicatorGroups[k].1[i])).Some?
  {
    if k == 0 {
      EconomicHasInsight(i);
    } else if k == 1 {
      LifestyleHasInsight(i);
    } else {
      EnvironmentHasInsight(i);
    }
  }
}
