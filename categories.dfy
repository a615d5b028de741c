/** The category vocabulary of the world map page: the five standard levels,
    their two colour maps, the order in which labels are offered and listed,
    and the colour each label gets. */
module Categories {
  import opened Options
  import opened Seqs
  import Text
  import Sorting
  import opened Palette
  import opened Frames

  /** The five standard category labels, worst to best for higher-is-better. */
  const StandardLevels: seq<string> := ["Very Low", "Low", "Moderate", "High", "Very High"]

  /** `standard_category_colors` (defined by the page, never read by it). */
  const StandardCategoryColors: map<Polarity, map<string, string>> := map[
    HigherIsBetter := map[
      "Very Low" := "#d73027", "Low" := "#f46d43", "Moderate" := "#ffffbf",
      "High" := "#a6d96a", "Very High" := "#1a9850"],
    LowerIsBetter := map[
      "Very Low" := "#1a9850", "Low" := "#a6d96a", "Moderate" := "#ffffbf",
      "High" := "#f46d43", "Very High" := "#d73027"]
  ]

  /** Both maps are defined on exactly the five standard labels. */
  lemma StandardColorsCover(p: Polarity)
    ensures p in StandardCategoryColors
    ensures StandardCategoryColors[p].Keys == set l | l in StandardLevels
  {
    assert (set l | l in StandardLevels) == {"Very Low", "Low", "Moderate", "High", "Very High"};
    if p.HigherIsBetter? {
      assert p == HigherIsBetter;
    } else {
      assert p == LowerIsBetter;
    }
  }

  /** The lower-is-better map is the mirror of the higher-is-better one: level
      `i` gets the colour of level `4 - i`, so Moderate is yellow in both. */
  lemma StandardColorsMirror(i: nat)
    requires i < 5
    ensures StandardCategoryColors[LowerIsBetter][StandardLevels[i]] ==
      StandardCategoryColors[HigherIsBetter][StandardLevels[4 - i]]
    ensures StandardCategoryColors[HigherIsBetter]["Moderate"] == "#ffffbf"
    ensures StandardCategoryColors[LowerIsBetter]["Moderate"] == "#ffffbf"
  {
    var higher, lower := StandardCategoryColors[HigherIsBetter], StandardCategoryColors[LowerIsBetter];
    assert StandardLevels[i] == ["Very Low", "Low", "Moderate", "High", "Very High"][i];
    assert StandardLevels[4 - i] == ["Very Low", "Low", "Moderate", "High", "Very High"][4 - i];
  }

  // ---------------------------------------------------------------------------
  // Category ordering and colouring

  predicate AllStandard(labels: seq<string>) {
    forall c :: c in labels ==> c in StandardLevels
  }

  /** The standard labels that occur, in the standard order (sorting by the
      `numerical_mapping` / `category_order` positions). */
  function StandardOrder(labels: seq<string>): (r: seq<string>)
    ensures IsSubseq(r, StandardLevels)
    ensures forall c :: c in r <==> c in StandardLevels && c in labels
  {
    Where(StandardLevels, (c: string) => c in labels)
  }

  /** `unique_categories` of the category filter (a branch the page never
      takes, `is_categorical` being fixed to false): alphabetical, unless every
      label is standard, in which case the standard order. */
  function CategoryOptions(labels: seq<string>): (r: seq<string>)
    ensures forall c :: c in r <==> c in labels
    ensures AllStandard(labels) ==> IsSubseq(r, StandardLevels)
    ensures !AllStandard(labels) ==> Sorting.StrictlySorted(r, Text.Less)
  {
    var unique := Alphabetical(labels);
    if AllStandard(unique) then StandardOrder(labels) else unique
  }

  /** When exactly High and Very Low occur they are offered Very Low first, ... */
  lemma StandardOrderExample(labels: seq<string>)
    requires "High" in labels && "Very Low" in labels
    requires forall c :: c in labels ==> c == "High" || c == "Very Low"
    ensures CategoryOptions(labels) == ["Very Low", "High"]
  {
    assert StandardLevels[0] == "Very Low" && StandardLevels[3] == "High";
    assert AllStandard(labels);
    StandardOptions(labels);
    TwoStandardLabels(labels);
  }

  /** When every label is standard the options are the standard order. */
  lemma StandardOptions(labels: seq<string>)
    requires AllStandard(labels)
    ensures CategoryOptions(labels) == StandardOrder(labels)
  {
    assert AllStandard(Alphabetical(labels));
  }

  lemma TwoStandardLabels(labels: seq<string>)
    requires "High" in labels && "Very Low" in labels
    requires forall c :: c in labels ==> c == "High" || c == "Very Low"
    ensures StandardOrder(labels) == ["Very Low", "High"]
  {
    var present := ["Very Low", "High"];
    assert LevelBelow(present[0], present[1]);
    assert Sorting.StrictlySorted(present, LevelBelow);
    assert StandardLevels[0] == "Very Low" && StandardLevels[3] == "High";
    SortedByLevelIsStandardOrder(labels, present);
  }

  /** ... and alphabetically, High comes first. */
  lemma AlphabeticalExample(labels: seq<string>)
    requires "High" in labels && "Very Low" in labels
    requires forall c :: c in labels ==> c == "High" || c == "Very Low"
    ensures Alphabetical(labels) == ["High", "Very Low"]
  {
    HighFirst(Alphabetical(labels));
  }

  lemma HighFirst(r: seq<string>)
    requires Sorting.StrictlySorted(r, Text.Less) && Distinct(r)
    requires forall c :: c in r <==> c == "High" || c == "Very Low"
    ensures r == ["High", "Very Low"]
  {
    assert Text.Less("High", "Very Low");
    Sorting.StringOrder();
    Sorting.SortedUnique(r, ["High", "Very Low"], Text.Less);
  }

  /** `sorted(set(labels))`: the distinct labels, alphabetically. */
  function Alphabetical(labels: seq<string>): (r: seq<string>)
    ensures Sorting.StrictlySorted(r, Text.Less)
    ensures Distinct(r)
    ensures forall c :: c in r <==> c in labels
  {
    Sorting.StringOrder();
    var r := Sorting.SortUnique(labels, Text.Less);
    Sorting.SortedDistinct(r, Text.Less);
    r
  }

  /** `{cat: colors[i] for i, cat in enumerate(cats)}` for distinct labels. */
  function ColorMap(cats: seq<string>, colors: seq<string>): (m: map<string, string>)
    requires |colors| == |cats| && Distinct(cats)
    ensures forall c :: c in m <==> c in cats
    ensures forall i :: 0 <= i < |cats| ==> m[cats[i]] == colors[i]
    ensures |cats| == 1 ==> m == map[cats[0] := colors[0]]
  {
    var m := map i | 0 <= i < |cats| :: cats[i] := colors[i];
    assert |cats| == 1 ==> m.Keys == {cats[0]};
    m
  }

  /** The colour of each label on the map for non-standard labels (a branch the
      page never takes): labels sorted alphabetically, one colour each; a single
      label gets fixed green or red by polarity; two or more take evenly spaced
      samples of the polarity's scale (`sample` stands for Plotly's
      `sample_colorscale`, which returns as many colours as asked); no label
      at all means no map. */
  function CategoryColors(labels: seq<string>, p: Polarity, sample: (Scale, nat) -> seq<string>)
    : (r: Option<map<string, string>>)
    requires p in ColorScales
    requires forall sc, n :: |sample(sc, n)| == n
    ensures r.None? <==> labels == []
    ensures r.Some? ==> forall c :: c in r.value <==> c in labels
    ensures r.Some? && |Alphabetical(labels)| == 1 ==>
      r.value == map[Alphabetical(labels)[0] := if p == HigherIsBetter then "#00CC00" else "#CC0000"]
    ensures r.Some? && |Alphabetical(labels)| >= 2 ==>
      forall i :: 0 <= i < |Alphabetical(labels)| ==>
        r.value[Alphabetical(labels)[i]] == sample(ColorScales[p], |Alphabetical(labels)|)[i]
  {
    var present := Alphabetical(labels);
    var n := |present|;
    Sorting.FirstIn(labels);
    if n == 0 then None
    else if n == 1 then Some(ColorMap(present, [if p == HigherIsBetter then "#00CC00" else "#CC0000"]))
    else Some(ColorMap(present, sample(ColorScales[p], n)))
  }

  // ---------------------------------------------------------------------------
  // Standard levels as numbers

  /** `numerical_mapping` / `category_order` / `cat_order`: the position of a
      standard label, nothing for any other label. */
  function Level(c: string): (k: Option<nat>)
    ensures k.Some? <==> c in StandardLevels
    ensures k.Some? ==> k.value < |StandardLevels| && StandardLevels[k.value] == c
  {
    if c == "Very Low" then Some(0)
    else if c == "Low" then Some(1)
    else if c == "Moderate" then Some(2)
    else if c == "High" then Some(3)
    else if c == "Very High" then Some(4)
    else None
  }

  /** The mapping gives each standard label its own position. */
  lemma LevelAt(i: nat)
    requires i < |StandardLevels|
    ensures Level(StandardLevels[i]) == Some(i)
  {
    assert StandardLevels[i] == ["Very Low", "Low", "Moderate", "High", "Very High"][i];
  }

  /** `a` sorts before `b` by the mapping. */
  predicate LevelBelow(a: string, b: string) {
    Level(a).Some? && Level(b).Some? && Level(a).value < Level(b).value
  }

  lemma LevelOrder()
    ensures Sorting.StrictOrder(LevelBelow)
    ensures Sorting.StrictlySorted(StandardLevels, LevelBelow)
  {
    forall i, j | 0 <= i < j < |StandardLevels|
      ensures LevelBelow(StandardLevels[i], StandardLevels[j])
    {
      LevelAt(i);
      LevelAt(j);
    }
  }

  /** `present_categories` (sorted by the mapping) is `StandardOrder`: the
      standard order of the present labels is increasing in level, and no other
      arrangement of them is. */
  lemma StandardOrderSorted(labels: seq<string>)
    ensures Sorting.StrictlySorted(StandardOrder(labels), LevelBelow)
  {
    LevelOrder();
    Sorting.WhereSorted(StandardLevels, (c: string) => c in labels, LevelBelow);
  }

  lemma SortedByLevelIsStandardOrder(labels: seq<string>, present: seq<string>)
    requires Sorting.StrictlySorted(present, LevelBelow)
    requires forall c :: c in present <==> c in labels && c in StandardLevels
    ensures present == StandardOrder(labels)
  {
    LevelOrder();
    StandardOrderSorted(labels);
    Sorting.SortedUnique(present, StandardOrder(labels), LevelBelow);
  }

  // ---------------------------------------------------------------------------
  // Category distribution

  /** One `(Category, Count)` pair per label of `cats`, counting `labels`. */
  function Tally(labels: seq<string>, cats: seq<string>): (t: seq<(string, nat)>)
    ensures |t| == |cats|
    ensures forall i :: 0 <= i < |cats| ==> t[i] == (cats[i], multiset(labels)[cats[i]])
    decreases |cats|
  {
    if cats == [] then [] else [(cats[0], multiset(labels)[cats[0]])] + Tally(labels, cats[1..])
  }

  /** `category_counts['Count'].sum()` */
  function Total(t: seq<(string, nat)>): nat
    decreases |t|
  {
    if t == [] then 0 else t[0].1 + Total(t[1..])
  }

  lemma {:induction false} TotalAppend(a: seq<(string, nat)>, b: seq<(string, nat)>)
    ensures Total(a + b) == Total(a) + Total(b)
    decreases |a|
  {
    if a != [] {
      assert (a + b)[1..] == a[1..] + b;
      TotalAppend(a[1..], b);
    } else {
      assert a + b == b;
    }
  }

  /** Taking one pair out takes its count off the total. */
  lemma TotalRemove(b: seq<(string, nat)>, k: nat)
    requires k < |b|
    ensures Total(b) == b[k].1 + Total(b[..k] + b[k + 1..])
  {
    TotalSplit(b[..k], b[k], b[k + 1..]);
    SplitAround(b, k);
  }

  lemma SplitAround(b: seq<(string, nat)>, k: nat)
    requires k < |b|
    ensures b[..k] + [b[k]] + b[k + 1..] == b
  {
    assert (b[..k] + [b[k]] + b[k + 1..])[k] == b[k];
  }

  lemma TotalSplit(p: seq<(string, nat)>, x: (string, nat), q: seq<(string, nat)>)
    ensures Total(p + [x] + q) == x.1 + Total(p + q)
  {
    TotalAppend(p + [x], q);
    TotalAppend(p, [x]);
    TotalAppend(p, q);
    assert Total([x]) == x.1 + Total([]);
  }

  /** Reordering the pairs does not change the total. */
  lemma {:induction false} TotalPermutation(a: seq<(string, nat)>, b: seq<(string, nat)>)
    requires multiset(a) == multiset(b)
    ensures Total(a) == Total(b)
    decreases |a|
  {
    if a == [] {
      assert |b| == |multiset(b)| == 0;
    } else {
      var k := MatchingPosition(a, b);
      TotalPermutation(a[1..], b[..k] + b[k + 1..]);
      TotalRemove(b, k);
    }
  }

  /** Where the first pair of `a` sits in its rearrangement `b`; the rest of
      `a` is then a rearrangement of `b` without that position. */
  lemma MatchingPosition(a: seq<(string, nat)>, b: seq<(string, nat)>) returns (k: nat)
    requires multiset(a) == multiset(b) && a != []
    ensures k < |b| && b[k] == a[0]
    ensures multiset(a[1..]) == multiset(b[..k] + b[k + 1..])
  {
    k := PositionIn(b, a[0]);
    assert a == [a[0]] + a[1..];
    MultisetRemove(b, k);
  }

  /** A position of `b` holding `x`, when `x` occurs in `b`. */
  lemma PositionIn(b: seq<(string, nat)>, x: (string, nat)) returns (k: nat)
    requires x in multiset(b)
    ensures k < |b| && b[k] == x
  {
    k :| 0 <= k < |b| && b[k] == x;
  }

  lemma {:induction false} TallyNone(cats: seq<string>)
    ensures Total(Tally([], cats)) == 0
    decreases |cats|
  {
    if cats != [] {
      TallyNone(cats[1..]);
    }
  }

  /** One more label adds one to the total exactly when it is tallied. */
  lemma {:induction false} TallyAdd(labels: seq<string>, x: string, cats: seq<string>)
    requires Distinct(cats)
    ensures Total(Tally(labels + [x], cats)) == Total(Tally(labels, cats)) + (if x in cats then 1 else 0)
    decreases |cats|
  {
    if cats != [] {
      assert Distinct(cats[1..]);
      assert x == cats[0] ==> x !in cats[1..];
      assert x in cats <==> x == cats[0] || x in cats[1..];
      TallyAdd(labels, x, cats[1..]);
      assert multiset(labels + [x])[cats[0]] == multiset(labels)[cats[0]] + (if x == cats[0] then 1 else 0);
    }
  }

  /** Tallying every label once counts every row once: the counts add up to
      the number of labelled rows. */
  lemma {:induction false} TallyTotal(labels: seq<string>, cats: seq<string>)
    requires Distinct(cats)
    requires forall c :: c in labels ==> c in cats
    ensures Total(Tally(labels, cats)) == |labels|
    decreases |labels|
  {
    if labels == [] {
      TallyNone(cats);
    } else {
      var rest, x := labels[..|labels| - 1], labels[|labels| - 1];
      assert labels == rest + [x];
      TallyTotal(rest, cats);
      TallyAdd(rest, x, cats);
    }
  }

  function CountOf(e: (string, nat)): real {
    e.1 as real
  }

  /** `value_counts()`: every distinct label with its number of occurrences,
      most frequent first (pandas leaves the order among equal counts open;
      this takes the alphabetical one). */
  function ValueCounts(labels: seq<string>): (t: seq<(string, nat)>)
    ensures multiset(t) == multiset(Tally(labels, Alphabetical(labels)))
    ensures Sorting.OrderedBy(t, CountOf, false)
  {
    Sorting.SortBy(Tally(labels, Alphabetical(labels)), CountOf, false)
  }

  /** A tally holds exactly the pairs of a tallied label with its count. */
  lemma TallyMembers(labels: seq<string>, cats: seq<string>)
    ensures forall e :: e in Tally(labels, cats) <==> e.0 in cats && e.1 == multiset(labels)[e.0]
  {
    var t := Tally(labels, cats);
    forall e: (string, nat) | e.0 in cats && e.1 == multiset(labels)[e.0]
      ensures e in t
    {
      var i :| 0 <= i < |cats| && cats[i] == e.0;
      assert t[i] == e;
    }
  }

  /** The standard branch tallies the standard order: one pair per distinct
      label, the counts adding up to the number of labels. */
  lemma StandardTally(labels: seq<string>)
    requires AllStandard(labels)
    ensures |StandardOrder(labels)| == |Alphabetical(labels)|
    ensures Total(Tally(labels, StandardOrder(labels))) == |labels|
  {
    var present := StandardOrder(labels);
    StandardOrderSorted(labels);
    LevelOrder();
    Sorting.SortedDistinct(present, LevelBelow);
    SameMembersSameLength(present, Alphabetical(labels));
    TallyTotal(labels, present);
  }

  /** The other branch keeps `value_counts` as it is: a reordering of the
      alphabetical tally, so the same pairs and the same total. */
  lemma CountTally(labels: seq<string>)
    ensures |ValueCounts(labels)| == |Alphabetical(labels)|
    ensures forall e :: e in ValueCounts(labels) <==> e in Tally(labels, Alphabetical(labels))
    ensures Total(ValueCounts(labels)) == |labels|
  {
    var t, alpha := ValueCounts(labels), Alphabetical(labels);
    var tally := Tally(labels, alpha);
    assert |t| == |multiset(t)| == |multiset(tally)| == |tally|;
    TallyTotal(labels, alpha);
    TotalPermutation(t, tally);
    forall e
      ensures e in t <==> e in tally
    {
      assert e in t <==> e in multiset(t);
      assert e in tally <==> e in multiset(tally);
    }
  }

  /** `category_counts` of the distribution chart, from the labels of the rows
      on the selected continents: each distinct label once with its count, the
      counts adding up to the number of labels; in the standard order when
      every label is standard, otherwise most frequent first. */
  function Distribution(labels: seq<string>): (t: seq<(string, nat)>)
    ensures |t| == |Alphabetical(labels)|
    ensures forall e :: e in t <==> e.0 in labels && e.1 == multiset(labels)[e.0]
    ensures Total(t) == |labels|
    ensures AllStandard(labels) ==> t == Tally(labels, StandardOrder(labels))
    ensures !AllStandard(labels) ==> Sorting.OrderedBy(t, CountOf, false)
  {
    if AllStandard(labels) then
      StandardTally(labels);
      TallyMembers(labels, StandardOrder(labels));
      Tally(labels, StandardOrder(labels))
    else
      CountTally(labels);
      TallyMembers(labels, Alphabetical(labels));
      ValueCounts(labels)
  }

  /** `cat_df[category_indicator]` of the distribution chart: the labels of
      the rows on a selected continent. They are taken from the whole table,
      not from the rows the value slider lets through, so the slider never
      changes this chart. */
  function CategoryLabels(rows: seq<Row>, j: nat, conts: seq<string>): (r: seq<string>)
    ensures |r| == |LabelNotNull(InContinents(rows, set c | c in conts), j)|
    ensures forall l :: multiset(r)[l] == |Where(rows, (x: Row) => x.continent in conts && LabelAt(x, j) == Some(l))|
  {
    var chosen := InContinents(rows, set c | c in conts);
    forall l
      ensures |Where(chosen, (x: Row) => LabelAt(x, j) == Some(l))|
        == |Where(rows, (x: Row) => x.continent in conts && LabelAt(x, j) == Some(l))|
    {
      SelectedLabelCount(rows, j, conts, l);
    }
    Labels(chosen, j)
  }

  /** Counting one label among the rows on the selected continents counts the
      rows that are on a selected continent and carry that label. */
  lemma {:induction false} SelectedLabelCount(rows: seq<Row>, j: nat, conts: seq<string>, l: string)
    ensures |Where(InContinents(rows, set c | c in conts), (x: Row) => LabelAt(x, j) == Some(l))|
      == |Where(rows, (x: Row) => x.continent in conts && LabelAt(x, j) == Some(l))|
  {
    var chosen := InContinents(rows, set c | c in conts);
    var a := Where(chosen, (x: Row) => LabelAt(x, j) == Some(l));
    var b := Where(rows, (x: Row) => x.continent in conts && LabelAt(x, j) == Some(l));
    assert multiset(a) == multiset(b) by {
      forall x
        ensures multiset(a)[x] == multiset(b)[x]
      {
      }
    }
    assert |multiset(a)| == |multiset(b)|;
  }

  /** The distribution chart counts exactly the labelled rows on the selected
      continents, and each bar is the number of such rows carrying its label. */
  lemma DistributionCounts(rows: seq<Row>, j: nat, conts: seq<string>)
    ensures Total(Distribution(CategoryLabels(rows, j, conts)))
      == |LabelNotNull(InContinents(rows, set c | c in conts), j)|
    ensures forall e :: e in Distribution(CategoryLabels(rows, j, conts)) ==>
      e.1 == |Where(rows, (x: Row) => x.continent in conts && LabelAt(x, j) == Some(e.0))|
  {
  }

  // ---------------------------------------------------------------------------
  // Sorting the data table by level

  /** The row's level as a sort key (`sort_key`). */
  function LevelKey(x: Row, j: nat): real {
    match LabelAt(x, j)
    case Some(c) => (match Level(c) case Some(k) => k as real case None => 0.0)
    case None => 0.0
  }

  predicate StandardAt(x: Row, j: nat) {
    LabelAt(x, j).Some? && LabelAt(x, j).value in StandardLevels
  }

  /** The direction the table sorts labels in: the user's choice, flipped for
      higher-is-better indicators. */
  function LevelAscending(ascending: bool, p: Polarity): bool {
    if p == HigherIsBetter then !ascending else ascending
  }

  /** `display_df` for a category column (a branch the page never takes): when
      every row holds a standard label, the rows sorted by level, otherwise the
      rows as they are. */
  function TableByLevel(rows: seq<Row>, j: nat, ascending: bool, p: Polarity): (r: seq<Row>)
    ensures multiset(r) == multiset(rows)
    ensures (forall x :: x in rows ==> StandardAt(x, j)) ==>
      forall a, b :: 0 <= a < b < |r| ==>
        if LevelAscending(ascending, p) then LevelKey(r[a], j) <= LevelKey(r[b], j)
        else LevelKey(r[a], j) >= LevelKey(r[b], j)
    ensures !(forall x :: x in rows ==> StandardAt(x, j)) ==> r == rows
  {
    if forall x :: x in rows ==> StandardAt(x, j) then
      Sorting.SortBy(rows, (x: Row) => LevelKey(x, j), LevelAscending(ascending, p))
    else rows
  }

  /** The selectbox starts at "Highest First" for higher-is-better indicators
      and at "Lowest First" otherwise; either way the level sort then starts
      from Very Low. */
  lemma DefaultLevelOrder(p: Polarity)
    ensures LevelAscending(p == LowerIsBetter, p)
  {
  }
}
