# Quality-of-life dashboard: a verified model of its four pages

This project models, in Dafny, the data logic of a Streamlit dashboard that
shows quality-of-life indicators per country. The dashboard has four pages:

- **World map** (`WorldMap.py`):
  - the indicator catalogue: numeric `... Value` and categorical `... Category` columns;
  - the group each indicator belongs to and the base names offered in the sidebar;
  - the continent, value-range and category filters;
  - the standard category order (`Very Low` … `Very High`) and its colours;
  - the category distribution, counted over the rows on the selected continents of the whole table (the value slider does not reach this chart);
  - the searchable data table and its sort order.
- **Top versus bottom** (`TopvBottom.py`):
  - the normalised column names and the continent and range filters;
  - `nlargest` / `nsmallest` with pandas' keep-first tie rule;
  - the concatenated comparison;
  - the colour scale and the commentary chosen per indicator.
- **Comparison of countries** (`ComparisonOfCountries.py`):
  - the numeric columns and the indicator groups;
  - the per-continent means;
  - the `melt` of one country or continent into (entity, indicator, value) rows;
  - the indicator filter;
  - the single-indicator verdict and difference.
- **Global metrics** (`GlobalMetrics.py`):
  - the indicator tables and polarities;
  - the global and single-continent filters;
  - the continent and country means;
  - the summary statistics.

A table is a `DataFrame` of column names and rows. A row is `Row(country, continent, cells)`, and a cell is a number or a label, either of which may be missing (`None` stands for NaN). pandas operations become functions on sequences, with the pandas behaviour modelled explicitly:

- boolean masks keep row order, and every comparison with NaN is false;
- `groupby` sorts its keys, and `mean` skips missing values;
- `melt` is column-major;
- `nlargest` keeps the first of equal rows.

Module layout:

- `Options`, `Seqs`, `Text`, `Sorting`, `Stats`, `Palette`: small libraries.
  - `Text` models Python's `str` methods on ASCII letters.
  - `Seqs.Where` is a boolean mask.
- `Frames` and `MeltLaws`: tables, filters, grouping and melt.
- `Ranking`: `nlargest` / `nsmallest`.
- `Categories`: category levels, option lists, colours and value counts.
- `WorldMap`, `TopVBottom`, `Comparison`, `GlobalMetrics`: one module per page.

Where the page code updates state step by step, the model does too:

- the nested loops that build `indicator_map` are methods with loop invariants;
- so is the loop that collects `base_group_indicators`;
- and so are the successive re-bindings of `df`.

## Model

| member | source | states |
|---|---|---|
| Frames.Column | WorldMap.py:23-24 | a numeric column after coercion has one entry per row, the row's number or `None` |
| Frames.Rename | TopvBottom.py:15 | renaming the header keeps every row and maps each column name in place |
| Frames.OnContinent | TopvBottom.py:60 | the rows of one continent, in order, and exactly those, each as often as in the input |
| Frames.NotNull | GlobalMetrics.py:105 | `dropna(subset=...)`: exactly the rows with a value, in order, each as often as in the input |
| Frames.Between | TopvBottom.py:83 | the range mask keeps exactly the rows whose value lies in `[lo, hi]`, each as often as in the input; missing values are dropped |
| Frames.LabelNotNull | WorldMap.py:331 | exactly the rows holding a label, in order, each as often as in the input |
| Frames.InContinents | GlobalMetrics.py:105 | `isin` on the continent keeps exactly the rows on a chosen continent, each as often as in the input |
| Frames.RangeOf | WorldMap.py:283-284 | `min`/`max` of a column: none iff no row has a value; otherwise both bounds are attained and bound every value |
| Frames.FullRangeDropsOnlyNulls | WorldMap.py:305-311 | any range reaching the column's own min and max (the unrounded default slider) drops exactly the rows without a value |
| Frames.KeysOf | GlobalMetrics.py:104 | the key column, one entry per row |
| Frames.GroupMeans | ComparisonOfCountries.py:20 | `groupby(key).mean()`: keys strictly sorted, exactly the keys present, each mean the mean of its group's column |
| Frames.GroupAll | ComparisonOfCountries.py:115 | rows that share one key form a single group, the whole input |
| Frames.PairOrder | GlobalMetrics.py:110 | the (continent, country) order `groupby` sorts by is a strict total order |
| Frames.MeanOfOneKey | ComparisonOfCountries.py:115 | a group whose rows all hold `v` has mean `v` |
| Frames.Block | ComparisonOfCountries.py:107 | the melt block of one column: one (id, indicator, value) row per input row, in order |
| Frames.Melt | ComparisonOfCountries.py:107-108 | every melted row names one of the melted columns |
| Frames.OfIndicator | ComparisonOfCountries.py:122 | `df[df["Indicator"] == name]`: exactly the melted rows of that indicator, in order, each as often as in the input |
| MeltLaws.MeltSize | ComparisonOfCountries.py:107 | a melt has one row per (column, entity) pair |
| MeltLaws.MeltSelect | ComparisonOfCountries.py:122-123 | with distinct column names, selecting one indicator from a melt gives that column's block |
| MeltLaws.MeltFromPrefix | ComparisonOfCountries.py:107 | a melt splits into the blocks before a column and the melt from it |
| Ranking.AheadOrder | TopvBottom.py:96-99 | the ranking order (a better value, or an equal one at an earlier row) is a strict total order on rows with a value |
| Ranking.NonNull | TopvBottom.py:96 | exactly the positions with a value, each once |
| Ranking.Best | TopvBottom.py:96 | the chosen candidate is ahead of every other |
| Ranking.Select | TopvBottom.py:96-99 | `min(n, candidates)` positions, in rank order, each ahead of every candidate left out |
| Ranking.Top | TopvBottom.py:96 | `nlargest(n)`: `min(n, non-null)` rows, best first, each ahead of every row left out |
| Ranking.Bottom | TopvBottom.py:99 | `nsmallest(n)`: the same in the smallest-first direction |
| Ranking.MustOverlap | TopvBottom.py:167-169 | with fewer than `2n` values the top and the bottom lists share a row |
| Ranking.BelowCovers | TopvBottom.py:167-169 | if a top value lies below a bottom value, top and bottom together cover every row with a value |
| Ranking.TopAboveBottom | TopvBottom.py:167-169 | with at least `2n` values, every top value is at least every bottom value |
| Ranking.TopBottomDisjoint | TopvBottom.py:167-169 | with at least `2n` values, all distinct, no row is both top and bottom |
| Ranking.FirstOfEqualChosen | TopvBottom.py:96-99 | among equal values the first row is always chosen |
| Ranking.TiesShareRows | TopvBottom.py:167-169 | with four equal values and `n = 2`, row 0 is in both lists although there are `2n` values |
| Stats.Present | GlobalMetrics.py:133 | the present values, in order, each as often as it occurs; empty iff all are missing |
| Stats.MinOf | GlobalMetrics.py:136 | the minimum belongs to the values and bounds them all |
| Stats.MaxOf | GlobalMetrics.py:137 | the maximum belongs to the values and bounds them all |
| Stats.Mean | GlobalMetrics.py:133 | the mean lies between the minimum and the maximum |
| Stats.Median | GlobalMetrics.py:134 | the median lies between the minimum and the maximum |
| Stats.MeanOf | ComparisonOfCountries.py:20 | NaN-skipping mean: none iff nothing is present, else within the present values' range |
| Stats.Describe | WorldMap.py:526-530 | summary of a column: none iff no value; min ≤ median ≤ max and min ≤ mean ≤ max; min and max occur and bound every value |
| Text.Lower | TopvBottom.py:46 | `str.lower`: same length, no upper-case letter, each character mapped by the ASCII case map |
| Text.LowerIdempotent | TopvBottom.py:15 | lower-casing twice is lower-casing once |
| Text.Title | ComparisonOfCountries.py:14 | `str.title`: a letter is upper-cased at a word start, lower-cased after a cased letter |
| Text.TitleIdempotent | ComparisonOfCountries.py:14 | title-casing twice is title-casing once |
| Text.Strip | TopvBottom.py:15 | `str.strip`: a slice of the input whose removed ends are white space and whose own ends are not |
| Text.StripFixed | GlobalMetrics.py:9 | strip leaves a string alone iff it neither starts nor ends with white space |
| Text.ContainsAt | WorldMap.py:219 | the `in` substring test holds iff the pattern occurs at some position |
| Text.RemoveAllAbsent | WorldMap.py:220 | `replace(p, '')` leaves a string without `p` unchanged |
| Text.RemoveAllSuffix | WorldMap.py:220 | removing a suffix word from `base + word` gives `base` back when `base` lacks the word |
| Text.LessTransitive | WorldMap.py:241 | Python's string `<` is transitive |
| Text.LessTotal | WorldMap.py:241 | Python's string `<` orders any two different strings |
| Sorting.SortUnique | WorldMap.py:241 | `sorted(set(...))`: strictly sorted, same members |
| Sorting.SortedUnique | WorldMap.py:241 | two strictly sorted lists with the same members are equal |
| Sorting.SortBy | WorldMap.py:637 | `sort_values`: ordered by the key in the chosen direction, a permutation of the input |
| Seqs.Where | TopvBottom.py:60 | a boolean mask: an order-preserving subsequence holding exactly the matching elements, with their multiplicities |
| Seqs.WhereAppend | ComparisonOfCountries.py:122 | a mask distributes over concatenation |
| Seqs.WherePartition | WorldMap.py:19-20 | a mask and its complement split the input's multiset |
| Seqs.IndexOf | TopvBottom.py:67 | the first position of a name, none iff absent |
| Palette.ScalesTotal | WorldMap.py:60-63 | both polarities have a colour scale, and the two differ |
| Categories.StandardColorsCover | WorldMap.py:29-44 | each polarity colours exactly the five standard levels |
| Categories.StandardColorsMirror | WorldMap.py:29-44 | the lower-is-better colours are the higher-is-better colours read backwards, with the same middle |
| Categories.StandardOrder | WorldMap.py:263-264 | the standard levels that occur, in standard order |
| Categories.CategoryOptions | WorldMap.py:258-264 | the category options: the labels present, in standard order when all are standard, otherwise sorted |
| Categories.StandardOptions | WorldMap.py:262-264 | all-standard labels are offered in standard order |
| Categories.StandardOrderExample | WorldMap.py:258-264 | labels `High` and `Very Low` are offered as `[Very Low, High]` |
| Categories.AlphabeticalExample | WorldMap.py:258 | alphabetically, the same labels read `[High, Very Low]` |
| Categories.TwoStandardLabels | WorldMap.py:374-377 | sorting present levels by `numerical_mapping` gives the standard order |
| Categories.SortedByLevelIsStandardOrder | WorldMap.py:374-377 | any level-sorted list of the present standard labels is the standard order |
| Categories.Alphabetical | WorldMap.py:403 | `sorted(unique())`: strictly sorted, distinct, same labels |
| Categories.ColorMap | WorldMap.py:428 | `{cat: colors[i]}`: each category mapped to its position's colour |
| Categories.CategoryColors | WorldMap.py:403-428 | none iff no label; a single category gets the fixed green or red; otherwise the sorted categories get the sampled scale in order |
| Categories.Level | WorldMap.py:362-368 | `numerical_mapping`: a level exactly for the standard labels, its position in the standard list |
| Categories.LevelOrder | WorldMap.py:362-368 | the level order is strict and the standard list is sorted by it |
| Categories.Tally | WorldMap.py:548 | per category, the number of rows carrying it |
| Categories.TotalPermutation | WorldMap.py:559 | the total count does not depend on the rows' order |
| Categories.TallyTotal | WorldMap.py:559 | counts over categories that cover every label sum to the number of labels |
| Categories.ValueCounts | WorldMap.py:548 | `value_counts()`: each label's count, most frequent first |
| Categories.CountTally | WorldMap.py:548-559 | value counts hold each present label once, and their total is the number of labels |
| Frames.Labels | WorldMap.py:548 | the labels of a category column, one per labelled row in row order, each label as often as rows carry it |
| Categories.CategoryLabels | WorldMap.py:547-548 | `cat_df[category_indicator]`: one label per labelled row on a selected continent, each label as often as such rows carry it; the value range plays no part |
| Categories.SelectedLabelCount | WorldMap.py:547-548 | counting a label among the rows on the selected continents counts the rows on a selected continent carrying it |
| Categories.DistributionCounts | WorldMap.py:545-556 | the chart's counts total the labelled rows on the selected continents, and each bar counts the rows on a selected continent carrying its label |
| Categories.Distribution | WorldMap.py:545-556 | the distribution table: each present label with its count, summing to the number of labels, in standard order when all are standard, else by falling count |
| Categories.TableByLevel | WorldMap.py:639-649 | the category table: a permutation, sorted by level in the direction set by polarity when all labels are standard, else unchanged |
| Categories.DefaultLevelOrder | WorldMap.py:621-646 | with the default sort choice for its polarity, the level order is always ascending |
| WorldMap.Indicators | WorldMap.py:16 | every column but `country` and `continent`, in header order |
| WorldMap.NumericalIndicators | WorldMap.py:19 | the indicators not ending in `Category`, in order |
| WorldMap.CategoricalIndicators | WorldMap.py:20 | the indicators ending in `Category`, in order |
| WorldMap.IndicatorSplit | WorldMap.py:19-20 | the numeric and categorical lists partition the indicators |
| WorldMap.GroupOf | WorldMap.py:170-183 | the group `indicator_map` gives a name: some iff a group has a prefix of it, and then the last such group |
| WorldMap.AssignAll | WorldMap.py:181-183 | the inner loop maps every match to the group and leaves other keys alone |
| WorldMap.AssignGroup | WorldMap.py:178-183 | one group's pass maps exactly the prefixed indicators to it |
| WorldMap.BuildIndicatorMap | WorldMap.py:176-183 | the map's keys are exactly the indicators with a group, each mapped to `GroupOf` |
| WorldMap.FirstPrefix | WorldMap.py:198-201 | the first base that is a prefix of a name, none iff there is none |
| WorldMap.BaseGroupIndicators | WorldMap.py:196-203 | the offered bases: exactly the first matching base of some indicator |
| WorldMap.CategoryIndicator | WorldMap.py:213 | the `... Category` companion, present iff the table has it |
| WorldMap.BaseNameStripsSuffix | WorldMap.py:219-224 | the base name of `base + " Value"` or `base + " Category"` is `base` |
| WorldMap.DisplayedBase | WorldMap.py:207-224 | the displayed indicator's base name and description key are the base chosen |
| WorldMap.PolarityOf | WorldMap.py:225 | lower-is-better exactly for the four listed bases; any other name defaults to higher-is-better |
| WorldMap.GroupsHavePolarity | WorldMap.py:47-57 | every base of every group has an entry in the polarity table |
| WorldMap.ContinentOptions | WorldMap.py:241 | `sorted(unique())`: sorted, exactly the continents present |
| WorldMap.SelectedContinents | WorldMap.py:241-247 | with "Select All Continents" ticked, exactly the continents of the table; otherwise the multiselect's choice |
| WorldMap.MapRows | WorldMap.py:333-338 | the numeric filter keeps exactly the rows on a chosen continent with a value in the range, in order, each as often as in the input |
| WorldMap.NoContinentNoRows | WorldMap.py:250-252 | with no continent chosen nothing is shown |
| WorldMap.DefaultFilterDropsOnlyNulls | WorldMap.py:241-311 | with "Select All Continents" ticked and the full slider range, the filter drops exactly the rows without a value |
| WorldMap.MapData | WorldMap.py:333-343 | none (the page stops) iff no row passes the filter, else the filtered rows |
| WorldMap.SelectedCategories | WorldMap.py:266-274 | the chosen categories; an empty choice falls back to the first option, which fails when there is none |
| WorldMap.CategoryRows | WorldMap.py:326-331 | the category filter keeps exactly the labelled rows on a chosen continent with a chosen label, in order, each as often as in the input |
| WorldMap.AllCategoriesDropOnlyUnlabelled | WorldMap.py:326-331 | all continents and all categories drop exactly the unlabelled rows |
| WorldMap.Search | WorldMap.py:627-633 | the search keeps exactly the rows whose country or continent contains the text, ignoring case, in order, each as often as in the input |
| WorldMap.EmptySearchIsSearch | WorldMap.py:627-633 | an empty search box keeps every row, as the matching branch would |
| WorldMap.SearchIgnoresCase | WorldMap.py:628-629 | searching a lower-cased text finds the same rows |
| WorldMap.ValuesThenMissing | WorldMap.py:637 | sorted values followed by the missing ones form an ordered table |
| WorldMap.SortTable | WorldMap.py:625-637 | the sorted table is a permutation, values first in the chosen direction, missing values last |
| WorldMap.BestFirst | WorldMap.py:621-637 | with the default order for the polarity, the first row holds the best value |
| TopVBottom.NormalizeIdempotent | TopvBottom.py:15 | normalising a column name twice is normalising it once |
| TopVBottom.Normalized | TopvBottom.py:15 | the normalised frame: same rows, each name stripped and lower-cased |
| TopVBottom.IndicatorColumn | TopvBottom.py:46-67 | the chosen column, none iff no normalised name matches the lower-cased selection |
| TopVBottom.SelectedFound | TopvBottom.py:15-46 | a header spelling the indicator, whatever surrounds it, is found |
| TopVBottom.Narrow | TopvBottom.py:57-83 | the rebound `df`: rows on the continent and, when rows remain and the range applies, within it, in order, each as often as in the input |
| TopVBottom.Pick | TopvBottom.py:96 | the rows at the picked positions, in order |
| TopVBottom.Positions | TopvBottom.py:96-99 | the ranked positions in the chosen direction, each a valued position of the column, each ahead of every position left out |
| TopVBottom.Ranked | TopvBottom.py:96-99 | `nlargest`/`nsmallest` rows: the rows at `Positions` (so each table row at most once, ties to the earlier row), `min(n, non-null)` rows with a value, best first, none worse than a row left out |
| TopVBottom.CountValues | TopvBottom.py:96 | the rows with a value are as many as the column's present positions |
| TopVBottom.MissingRows | TopvBottom.py:167-168 | exactly the rows without a value, in table order, each as often as in the input |
| TopVBottom.MissingCount | TopvBottom.py:167-168 | the rows with a value and the rows without one together are all rows |
| TopVBottom.Filled | TopvBottom.py:167-168 | `nlargest`/`nsmallest` on a frame with missing values: `min(n, rows)` rows, the ranked rows first, then rows without a value in table order; just the ranked rows when `n` rows hold a value or every row does |
| TopVBottom.Versus | TopvBottom.py:167-169 | the comparison is the filled top rows then the filled bottom rows, each `min(n, rows)` long, at most twenty |
| TopVBottom.VersusRepeats | TopvBottom.py:167-169 | with some values but fewer than `2n`, some country appears in both halves |
| TopVBottom.ScaleFor | TopvBottom.py:139-143 | green-for-high exactly for the five listed names |
| TopVBottom.ScaleMatchesPolarity | TopvBottom.py:139-143 | for each indicator, lower-cased, the scale is the one the global polarity table selects |
| TopVBottom.InsightFor | TopvBottom.py:290 | an indicator's own commentary iff it is a key of `insights` |
| TopVBottom.InsightMatchesScale | TopvBottom.py:139-288 | the commentary praises the high ranks exactly where the scale paints high values green |
| TopVBottom.OptionsHaveInsight | TopvBottom.py:25-290 | every indicator the sidebar offers has its own commentary |
| Comparison.PrefixSurvives | ComparisonOfCountries.py:14-87 | a header starting with a base still starts with the title-cased base after normalising |
| Comparison.NumericPositions | ComparisonOfCountries.py:17 | exactly the numeric columns, in header order |
| Comparison.NumericColumns | ComparisonOfCountries.py:14-17 | the normalised names of the numeric columns |
| Comparison.GroupIndicators | ComparisonOfCountries.py:87 | the numeric columns starting with one of the group's bases, in order, each as often as among the numeric columns |
| Comparison.InGroupAfterNormalize | ComparisonOfCountries.py:14-87 | a numeric header starting with a group base, once normalised, is one of the group's indicators |
| Comparison.ContinentTable | ComparisonOfCountries.py:20 | `df_continent`: one row per continent present, each holding the means of the numeric columns |
| Comparison.CountryWide | ComparisonOfCountries.py:107 | the selected country's rows with their numeric values |
| Comparison.SingleGroup | ComparisonOfCountries.py:115 | grouping one continent's rows gives at most one group, that continent, holding all of them |
| Comparison.ContinentWide | ComparisonOfCountries.py:115 | one row for a continent with rows, none otherwise, holding its column means |
| Comparison.Melted | ComparisonOfCountries.py:107-118 | every melted row names a numeric column |
| Comparison.PickedValues | ComparisonOfCountries.py:107-126 | selecting an indicator from the melt gives each entity row's value of it |
| Comparison.ContinentPick | ComparisonOfCountries.py:115-126 | for a continent with rows, one indicator's selection is the single row holding the continent mean |
| Comparison.EntityTable | ComparisonOfCountries.py:107-131 | the rebound `df1`/`df2`: the melt narrowed to the selected indicator, to the group, or kept whole, exactly as the three branches say |
| Comparison.VerdictAsWritten | ComparisonOfCountries.py:265-274 | as written: "higher" only for two present values; every other case reads as equal |
| Comparison.MissingReadsAsEqual | ComparisonOfCountries.py:265-274 | a missing value against 42 is reported as equal |
| Comparison.CompareValues | ComparisonOfCountries.py:265-274 | the verdict: missing iff either value is missing, otherwise equal, first higher or second higher by the comparison |
| Comparison.CorrectionOnlyForMissing | ComparisonOfCountries.py:265-274 | the two verdicts agree exactly when both values are present |
| Comparison.VerdictSwap | ComparisonOfCountries.py:265-274 | swapping the entities mirrors the verdict |
| Comparison.Difference | ComparisonOfCountries.py:257 | `abs(value1 - value2)`: missing iff either value is missing, otherwise non-negative and one of the two differences |
| Comparison.DifferenceMatchesVerdict | ComparisonOfCountries.py:257-274 | a zero difference iff the verdict is equal, and the difference is the winner's margin |
| Comparison.Outcome | ComparisonOfCountries.py:160-276 | as written: no data iff either table is empty; all charts for "All Indicators"; otherwise the first values, their difference `abs(value1 - value2)` and the as-written verdict (first higher iff value1 > value2, second higher iff value1 < value2, else equal), so a missing value shows as equal |
| Comparison.MissingShownAsEqual | ComparisonOfCountries.py:255-274 | as written, country 1 without the indicator against 42.0 shows "equal scores" |
| Comparison.CorrectedOutcome | ComparisonOfCountries.py:160-276 | corrected: the same screens, with the difference `abs(value1 - value2)` and the corrected verdict, missing iff either first value is missing, else the three-way comparison |
| Comparison.OutcomeCorrection | ComparisonOfCountries.py:255-274 | the page as written and the corrected page differ exactly when a single indicator is shown and a first value is missing |
| GlobalMetrics.NormalizeIdempotent | GlobalMetrics.py:9 | normalising a column name twice is normalising it once |
| GlobalMetrics.LookupsTotal | GlobalMetrics.py:12-87 | every listed and grouped indicator has a polarity, and every polarity a scale |
| GlobalMetrics.ScaleOf | GlobalMetrics.py:145 | the chart's scale, present iff the indicator has a polarity, green-for-high iff higher is better |
| GlobalMetrics.IndicatorColumn | GlobalMetrics.py:9-105 | the chosen column, none iff no normalised name matches |
| GlobalMetrics.Filtered | GlobalMetrics.py:103-110 | `filtered_df`: exactly the rows with a value on the chosen continents (global) or the chosen continent (single), in order, each as often as in the input |
| GlobalMetrics.DefaultGlobalView | GlobalMetrics.py:104-105 | the default global view drops exactly the rows without a value |
| GlobalMetrics.ContinentMeans | GlobalMetrics.py:106 | continent means: sorted keys, exactly the continents present, each its group's mean |
| GlobalMetrics.CountryMeans | GlobalMetrics.py:110 | (continent, country) means: sorted keys, exactly the pairs present, each its group's mean |
| GlobalMetrics.GroupMeanPresent | GlobalMetrics.py:105-110 | after dropping nulls every group has a mean |
| GlobalMetrics.Grouped | GlobalMetrics.py:125-130 | the continent means in Global View and the (continent, country) means in Single Continent View; empty iff no row passed, with no missing mean |
| GlobalMetrics.Statistics | GlobalMetrics.py:112-137 | none (the page stops) iff no row passed; else min and max are group means that bound every group mean, min ≤ median ≤ max and min ≤ mean ≤ max |

## Left out

- Reading the Excel file, `pd.to_numeric(errors='coerce')`, caching, Streamlit widgets and `st.stop()` are not modelled as I/O. Widget values are parameters, a failed coercion is a missing cell, and a stop is a `None` result.
- Charts (Plotly, Altair), their layout, the narrative texts, tooltips, opacities and HTML are not modelled. `px.colors.sample_colorscale` is a parameter of `Categories.CategoryColors`.
- Floating point is modelled as exact `real` arithmetic:
  - rounding (`round(x, 2)`, `:.2f`, percentage `round(1)`) is left out;
  - the logarithmic slider (`np.log`/`np.exp`) is left out;
  - the standard deviation is left out because it needs a square root.
- Frames.FullRangeDropsOnlyNulls: holds for the world map's unrounded slider only. The top/bottom view's default slider uses `round(min, 2)` and `round(max, 2)` (TopvBottom.py:72-74), so it can drop the row holding the minimum or maximum (1.236 against a lower bound of 1.24). Rounding is not modelled.
- TopVBottom.Filled: when `n` is at least the number of rows, pandas ranks with `sort_values` instead of the heap. The model keeps the keep-first order among ties in that case too.
- Stats.Describe: does not state the standard deviation or the `idxmin`/`idxmax` country names.
- `str.lower`, `str.title` and `isspace` are modelled for ASCII letters only. Other Unicode case mappings are out of scope; Unicode white space is included.
- `str.contains(search, case=False)` is a regular expression in pandas. It is modelled as a plain substring test, so special characters in the search box are not modelled.
- Categories.ValueCounts: pandas leaves the order among equal counts open. The model fixes it as alphabetical, and its contract states only the ordering by count and the contents.
- WorldMap.SortTable: `sort_values` uses an unstable quicksort. The model uses a stable sort, and the contract states only the ordering and the permutation, not the order among ties.
- WorldMap.BaseGroupIndicators: `list(set(...))` has hash order, so the result is modelled as a set.
- `df["Country"].unique()` and `df["Continent"].unique()` entity lists are modelled as `KeysOf` (one entry per row). The selectbox choice is a parameter, so their order does not matter to the model.
- NaN continent keys are left out: a row's continent is a string.
- The temporary `numerical_value` and `sort_key` columns are modelled as the key functions `Categories.LevelKey` and `WorldMap.ValueKey`. The table is not mutated.
- `main.py` and `utils.py` (navigation and page layout) are not part of this model.
- WorldMap's categorical branches (the category filter, the category map and the category table) are modelled, but the page never takes them: `is_categorical` is always false at WorldMap.py:235.
- Comparison.EntityTable: the entity pick (`index=0/1/2`) is a parameter. Picking an index beyond the list, where the page fails, is not modelled.

## Findings

| source | as written | input that shows it | evidently intended | confidence | as-written member | corrected member |
|---|---|---|---|---|---|---|
| ComparisonOfCountries.py:265-274 | the verdict tests `value1 > value2`, then `value1 < value2`, and otherwise reports equal scores; NaN fails both tests | country 1 lacks the indicator (NaN), country 2 has 42.0: "equal scores" is shown | report that a value is missing rather than equal | not executed | Comparison.VerdictAsWritten, Comparison.MissingReadsAsEqual, Comparison.Outcome | Comparison.CompareValues, Comparison.CorrectedOutcome |

A note on ties in the top-versus-bottom comparison: with at least `2n` values, the top and bottom lists are disjoint only when the values are distinct. With equal values, pandas' keep-first rule picks the same first rows for both lists (`Ranking.TiesShareRows`). What always holds is that every top value is at least every bottom value (`Ranking.TopAboveBottom`).
