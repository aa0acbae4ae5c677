# UN-Pop-SADD generation core, modelled in Dafny

This project models `execute_generation` and its helpers in
`automatic_generation.py`. The program turns UN population tables into
sex-and-age-disaggregated percentages per country:

- **AgeBounds** (`age_bounds.dfy`). Age labels written `"lo-hi"` or `"lo+"`
  (`get_bounds`), bound lists (`wrap_bounds`), and the matcher that covers a
  requested label with a contiguous run of canonical buckets
  (`can_be_aggregated`). Bounds are compared as strings, as in the source.
- **AgeResolver** (`age_resolver.dfy`). The label strategy chain (lines
  54-75) with the row total of line 43, the resulting `res_df` as a fold
  (`Resolve`) plus the loop that computes it (`ResolveLabels`), and the
  per-location percentages of lines 77-80.
- **CountryIdentity** (`country_identity.dfy`). The mapping from
  stripped location names to (iso3, short name, region) in three stages,
  each modelled as its own loop: full-name match (lines 98-105), short-name
  match on the names left over (lines 108-115), then the manual overrides
  looked up by iso3 (lines 123-128). It also holds a name-by-name reference
  definition (`ResolveName`, `ReferenceMapping`) that the staged loops are
  proved to compute.
- **Assembly** (`assembly.dfy`). The output table:
  - locations are stripped (line 138);
  - rows whose location the mapping knows are kept and annotated
    (lines 139-143);
  - one `"Total"` row per identity sums every label (lines 146-149);
  - all rows are sorted by short name (line 150).

  `ExecuteGeneration` chains the whole run.
- **Text** (`text.dfy`). The string primitives `execute_generation` uses:
  `str.strip`, `str.split` on one character, `list.index` (first
  occurrence) and string ordering.
- **Wrappers** (`wrappers.dfy`). `Option` and `Result`.

Error paths are modelled as values:

| Source behaviour | Modelled as |
|---|---|
| The `ValueError` that `get_bounds` raises on a label without '+' that does not hold exactly one '-' | `None` (`MalformedLabel`) |
| The `list.index` miss caught at line 33 | an empty match (`Some([])`) |
| The exception of line 74 | `UnresolvableLabel` |
| The `IndexError` of an override code missing from the reference table | `MissingIsoCode` |

Names matched by full name are not shielded from the
override stage: the loop of lines 125-128 overwrites the entry for every
override name unconditionally. It also adds entries for override names that
do not occur in the data (`ReferenceMapping`, `OverrideStage`).

Inputs of the run are parameters:
- the three population tables (`Sources`);
- the geographic reference table (`seq<GeoRow>`);
- the override list (`ManualOverrides` holds the source's five pairs).

## Model

| member | source | states |
|---|---|---|
| Text.Strip | automatic_generation.py:92 | the stripped string is empty or starts and ends with a non-whitespace character |
| Text.StripIsCore | automatic_generation.py:92 | the stripped string is a contiguous piece of the input, and everything before and after it is whitespace |
| Text.StripIdempotent | automatic_generation.py:92 | a fact about `str.strip`, not a step of the program: stripping twice equals stripping once, so the names of line 92 are already stripped (used by `DataNames`) |
| Text.Split | automatic_generation.py:11 | split gives one more part than there are separators, no part holds the separator, and joining the parts gives the input back |
| Text.SplitJoin | automatic_generation.py:11 | splitting the join of separator-free parts gives those parts back |
| Text.IndexOf | automatic_generation.py:30-31 | list.index returns the position of the first occurrence |
| Text.IndexOfIsFirst | automatic_generation.py:30-31 | any first-occurrence position is the one list.index returns |
| Text.LexLeTotal | automatic_generation.py:150 | any two strings are ordered one way or the other |
| Text.LexLeTransitive | automatic_generation.py:150 | the string order used for sorting is transitive |
| Text.LexLeAntisymmetric | automatic_generation.py:150 | strings ordered both ways are equal |
| AgeBounds.GetBounds | automatic_generation.py:9-12 | a label with '+' gives its text minus the last character and an unbounded upper bound; otherwise a result exists exactly when the label holds one '-', and then label == lower + "-" + upper with no '-' in either part |
| AgeBounds.LabelRoundTrip | automatic_generation.py:9-12 | parsing the written form of any bounds gives the bounds back |
| AgeBounds.ParseAll | automatic_generation.py:14-20 | all labels parse exactly when every one does, and the k-th bounds are those of the k-th label |
| AgeBounds.WrapBounds | automatic_generation.py:14-20 | the loop yields the lower and upper bound lists, aligned with the labels, exactly when every label parses; it succeeds exactly when ParseAll does, yielding that parse's lower and upper bounds |
| AgeBounds.CanBeAggregated | automatic_generation.py:22-33 | the run aborts (None) exactly when the label or a bucket does not parse; otherwise the result is a sub-list of at most as many buckets |
| AgeBounds.MatchedRun | automatic_generation.py:30-33 | on parsed bounds, the selected run has at most as many buckets as given, all drawn from them; its exact shape is stated by MatchedRunFirst and MatchedRunAbsent |
| AgeBounds.MatchedRunFirst | automatic_generation.py:30-32 | with first matches i and j of the two bounds, the run is buckets i..j inclusive, or empty when i > j |
| AgeBounds.MatchedRunAbsent | automatic_generation.py:30-33 | when either bound has no matching bucket, the run is empty |
| AgeBounds.AggregateIsFirstMatchSlice | automatic_generation.py:27-32 | with the first bucket of equal lower bound i and the first of equal upper bound j, the result is buckets i..j inclusive, or empty when i > j |
| AgeBounds.AggregateEmptyWithoutExactBound | automatic_generation.py:29-33 | when no bucket has the label's lower bound, or none has its upper bound, the caught error yields an empty list |
| AgeBounds.AggregateEndpoints | automatic_generation.py:27-32 | a non-empty result is a contiguous run of buckets whose first lower bound and last upper bound are the label's |
| AgeBounds.AggregateExampleMalformed | automatic_generation.py:11 | a bucket "5-9-1" makes the aggregation abort rather than return a list |
| AgeResolver.ChooseStrategy | automatic_generation.py:54-74 | a direct pick is a canonical column, a ratio pick is a broad group that is not canonical, an aggregation sums canonical columns only |
| AgeResolver.StrategyChainOrder | automatic_generation.py:54-74 | first match wins: a canonical column, else a broad group, else a non-empty aggregation; an empty aggregation aborts as unresolvable and an unparsable bound as malformed, each in both directions |
| AgeResolver.RowTotal | automatic_generation.py:43 | definition (the sum of the row's canonical columns); see SumColsAppend and SliceSumWithinTotal |
| AgeResolver.SumColsAppend | automatic_generation.py:43 | summing over two column lists in a row adds their sums |
| AgeResolver.SliceSumWithinTotal | automatic_generation.py:71 | with non-negative counts, the sum over any run of buckets lies between 0 and the row's Total |
| AgeResolver.LabelValue | automatic_generation.py:56-71 | definition (the value of line 57, 64 or 71, by strategy); see LabelValueWithinRowTotal |
| AgeResolver.RatioFor | automatic_generation.py:63-65 | definition (an explicit join that replaces the positional multiply); see RatioForIsFirst |
| AgeResolver.RatioForIsFirst | automatic_generation.py:63-65 | the ratio a row takes is that of the first ratio row of its location |
| AgeResolver.LabelValueWithinRowTotal | automatic_generation.py:56-71 | whatever strategy is chosen, a label's value for a row lies between 0 and the row's Total |
| AgeResolver.RatioValueWithin | automatic_generation.py:63-65 | Total times a percentage in [0, 100] divided by 100 lies between 0 and Total |
| AgeResolver.AssignColumn | automatic_generation.py:75 | the table keeps its length, and each row gains or overwrites exactly the label's column with its strategy's value, everything else unchanged |
| AgeResolver.ResolveStep | automatic_generation.py:54-75 | one pass of the loop keeps one row per population row on success; an earlier error passes through; see ResolveCorrect |
| AgeResolver.Resolve | automatic_generation.py:52-75 | a successful run has one row per population row; its full meaning is stated by ResolveCorrect |
| AgeResolver.ResolveCorrect | automatic_generation.py:52-75 | the run succeeds exactly when every label resolves; then every row keeps its location and sex and carries exactly the requested labels, each with its strategy's value; otherwise the error names the first label that does not resolve, with the right kind |
| AgeResolver.ResolveStopsAtError | automatic_generation.py:74 | once a prefix of the labels fails, further labels do not change the outcome |
| AgeResolver.ResolveLabels | automatic_generation.py:52-75 | the loop computes the fold `Resolve`, stopping at the first failing label |
| AgeResolver.LocationTotal | automatic_generation.py:77 | definition (the sum of the Totals of a location's rows); see LocationTotalNonNegative and RowWithinLocationTotal |
| AgeResolver.LocationTotalNonNegative | automatic_generation.py:77 | with non-negative counts, a location's total is non-negative |
| AgeResolver.RowWithinLocationTotal | automatic_generation.py:77-78 | a row's Total is at most the total of its location |
| AgeResolver.Percent | automatic_generation.py:80 | definition (value divided by the location total, times 100); see PercentWithin |
| AgeResolver.PercentWithin | automatic_generation.py:80 | a value between 0 and a positive total is between 0 and 100 percent of it |
| AgeResolver.Normalize | automatic_generation.py:77-80 | every row keeps location, sex and labels, and each value becomes its percentage of the location's total |
| AgeResolver.PercentagesWithin0And100 | automatic_generation.py:77-80 | with non-negative counts and ratios in [0, 100], every percentage produced lies in [0, 100] |
| CountryIdentity.OverrideFor | automatic_generation.py:125-128 | a name has an override exactly when some pair names it, and the code found comes from such a pair |
| CountryIdentity.OverrideForIsLast | automatic_generation.py:125-128 | the last pair for a name wins, as repeated dict assignment gives |
| CountryIdentity.ByFullName | automatic_generation.py:102-104 | definition (fields of the first row with that full name); see LookupsReadFirstRow |
| CountryIdentity.ByShortName | automatic_generation.py:113-114 | definition (iso3 and region of the first row with that short name, and the name itself); see LookupsReadFirstRow |
| CountryIdentity.ByIso | automatic_generation.py:126-127 | definition (the code with short name and region of the first row with that iso3); see LookupsReadFirstRow |
| CountryIdentity.LookupsReadFirstRow | automatic_generation.py:102-127 | each lookup of lines 102-104, 113-114 and 126-127 takes its fields from the first reference row holding the key, as `.values[0]` does |
| CountryIdentity.FirstRowIsIndexOf | automatic_generation.py:102-104 | `.values[0]` of a filtered column is the first row holding the value |
| CountryIdentity.DataNames | automatic_generation.py:90-92 | the data names are exactly the stripped forms of the locations (both directions), and each is already stripped |
| CountryIdentity.ManualOverridesLookup | automatic_generation.py:123-125 | the five override names of `ManualOverrides` are distinct, so each is given the code zipped with it |
| CountryIdentity.ReferenceMappingKeys | automatic_generation.py:95-128 | a name is a key of the mapping exactly when it resolves, and maps to what it resolves to |
| CountryIdentity.FullNameStage | automatic_generation.py:98-105 | a data name without override that occurs as a full name takes iso3, short name and region of its first such row |
| CountryIdentity.ShortNameStage | automatic_generation.py:108-115 | a data name without override and without full-name match that occurs as a short name keeps its own name, with iso3 and region of its first such row |
| CountryIdentity.OverrideStage | automatic_generation.py:123-128 | an override name takes the pair's code and the short name and region of the first reference row with that iso3, whether or not an earlier stage matched it |
| CountryIdentity.UnresolvedName | automatic_generation.py:95-128 | a name is absent exactly when no override names it and it is not a data name found among full or short names |
| CountryIdentity.MatchFullNames | automatic_generation.py:98-105 | the loop maps every data name found among full names to its first row's identity, and returns the rest |
| CountryIdentity.MatchShortNames | automatic_generation.py:108-115 | the loop adds every leftover name found among short names, and returns what is still unmatched |
| CountryIdentity.ApplyOverrides | automatic_generation.py:123-128 | the loop fails exactly when an override code is missing from the reference table, and otherwise overwrites each override name with its identity looked up by iso3 |
| CountryIdentity.OverriddenStep | automatic_generation.py:125-128 | one more override pair overwrites one entry of the mapping and leaves the others |
| CountryIdentity.StagesMatchReference | automatic_generation.py:98-128 | the three stages run in order compute the name-by-name reference mapping |
| CountryIdentity.BuildMapping | automatic_generation.py:89-128 | the mapping built from the stripped locations is the reference mapping, or a failure exactly when an override code is missing |
| Assembly.StripLocations | automatic_generation.py:138 | every row keeps sex and values, and its location is stripped |
| Assembly.StripLocationsIdempotent | automatic_generation.py:138 | a fact about `str.strip`, not a step of the program (line 138 strips once): stripping the stripped locations again changes nothing |
| Assembly.Annotate | automatic_generation.py:139-143 | filtering keeps at most as many rows as given; see AnnotateMembership, AnnotateAppend and AnnotateKeepsMapped |
| Assembly.AnnotateRows | automatic_generation.py:138-143 | the loop over the stripped table yields exactly the filtered, annotated rows, in their original order |
| Assembly.AnnotateAppend | automatic_generation.py:139-143 | filtering and annotating distributes over concatenation, so row order is kept |
| Assembly.AnnotateMembership | automatic_generation.py:139-143 | an output row occurs exactly when some input row with a mapped location becomes it |
| Assembly.AnnotateKeepsMapped | automatic_generation.py:139-143 | when every location is mapped, no row is dropped and each row takes its location's identity |
| Assembly.Identities | automatic_generation.py:149 | the group keys are distinct and are exactly the identities of the rows |
| Assembly.GroupSum | automatic_generation.py:148 | definition (np.sum of one label over the rows of one identity); see GroupSumOfOthers and TotalsConserveColumnSums |
| Assembly.TotalRow | automatic_generation.py:146-149 | definition (Sex "Total", each label its group sum); see TotalRowsHoldGroupSums |
| Assembly.TotalRows | automatic_generation.py:146-149 | definition (one Total row per group key); see OneTotalPerIdentity |
| Assembly.OneTotalPerIdentity | automatic_generation.py:146-149 | each identity of the rows has exactly one Total row, no other identity has one, and each has Sex "Total" and exactly the requested labels |
| Assembly.TotalRowsHoldGroupSums | automatic_generation.py:146-149 | every label of a Total row holds the sum of that label over the rows of its identity |
| Assembly.GroupSumOfOthers | automatic_generation.py:148 | rows of other identities contribute nothing to a group's sum |
| Assembly.TotalsConserveColumnSums | automatic_generation.py:146-149 | the Total rows of a label add up to the sum of that label over all rows |
| Assembly.Insert | automatic_generation.py:150 | inserting into a sorted table keeps it sorted and adds exactly the row |
| Assembly.SortByShortName | automatic_generation.py:150 | the result is sorted by short name and is a permutation of the input |
| Assembly.Assemble | automatic_generation.py:138-150 | definition (annotated rows followed by their Total rows, before sorting); see ExecuteGeneration |
| Assembly.ExecuteGeneration | automatic_generation.py:38-150 | the run fails on the first unresolvable label, else on a missing override code, and otherwise yields exactly the annotated percentage rows and their Total rows, sorted by short name |

## Left out

- Spreadsheet input and output (lines 41, 46-47, 87, 153) and `dropna`. The loaded tables are parameters; nothing is written.
- The regular-expression column discovery of lines 42 and 48. The canonical buckets and broad groups are given as lists of column names.
- Floating point. Population counts are integers and derived values exact reals, so rounding and the NaN or inf of a zero location total are not modelled.
- Normalize: requires every location total to be positive (`PositiveTotals`), where the source would divide by zero.
- PercentagesWithin0And100: requires `PositiveTotals` for the same reason.
- ExecuteGeneration: requires `PositiveTotals`, even on the abort paths, where the source never reaches the division of line 80.
- The positional alignment of pandas:
  - The ratio path (lines 63-65) multiplies by a ratio column position by position, then interleaves female and male rows (`sort_index`). It is modelled as an explicit join: each row takes the first ratio row of its own location in the table of its sex.
  - The totals of lines 77-78 are repeated twice, in location order. They are modelled as each row's location total.

  The two agree when each location has exactly one Female and one Male row, the two adjacent in the population table, and each ratio table lists the locations in the order of that sex's population rows. Otherwise the source misaligns (a row can be divided by another location's total at line 80), or raises ValueError on a length mismatch at line 64 or 80; the join never aborts there.
- The ratio path requires `RatiosCover` (through `RatioReady`). Every population row must be Female or Male, its location must occur in the ratio table of its sex, and every row of both ratio tables must hold every broad group. The source assumes this silently.
- Resolve: requires `RatioReady`, even when the run aborts on a label before any label takes the ratio path.
- ResolveCorrect, ResolveLabels: require `RatioReady`, as Resolve does.
- PercentagesWithin0And100: requires `RatioReady`, as Resolve does.
- ExecuteGeneration: requires `RatioReady`, even on the abort path, where the source never reads the ratio tables.
- The order among rows that compare equal when sorted by short name (pandas' sort is not stable), and the order of the Total rows before sorting. SortByShortName states sortedness and permutation only.
- The text of the exception messages. Errors carry the label that failed.
- `__main__` (lines 156-159), which only calls the function with fixed labels.
- The Channel Islands lines 121-122. The filtered `diff` and `df` are never read afterwards, so they have no effect on the result.
- Value: a label missing from a row counts as 0.0 in the Total sums. Rows built by the run always hold every label, so this default never applies to them.
- AggregateExampleMalformed: the only worked example on concrete labels. A well-formed example, such as "0-9" over "0-4", "5-9", "10+" giving "0-4", "5-9", is not stated: with the labels written as literals, the solver unfolds the splitting and matching of every character, which exceeds a solver resource limit of 2,000,000 per proof obligation. The general behaviour is stated by AggregateIsFirstMatchSlice and MatchedRunFirst.
