# NFHS multipage dashboard: the data-reconciliation core in Dafny

This project models the data logic of a Dash dashboard for India's National
Family Health Survey (NFHS) rounds 4 and 5. It proves properties of that model.

At start-up `pages/__init__.py` builds the tables the pages share:

- It splits the "district,state" labels of the GeoJSON features.
- It resolves survey state and district names to geo names with
  `difflib.get_close_matches`, then applies hand-set override rows.
- It builds a `District_geo,State_geo` join key.
- It melts and merges the district sheet, then drops non-numeric and negative values.
- It unifies the India sheet with the states sheet:
  - a synthetic NFHS-4 slice;
  - drop-all duplicates;
  - gender normalisation;
  - "India" rewritten to "All India";
  - keep-first duplicates;
  - gender folded into the indicator type.
- It reads each district indicator's domain from the sheet's first header
  row, at the indicator's position. It pairs the distinct domains with the
  state indicator types and fuzzy-matches indicators within each pair.
- It stacks the equity workbook's sheets.

Three pages then select from these tables:

- `pages/district_scatter.py`: the state tree, the KPI options, the column
  names and suffixes, and the reference state.
- `pages/state_trend.py`: the state and KPI trees, the labels, the
  500-series guard, and the plotted rows.
- `pages/district_gis.py`: `pcnt_scale`, the change table with its
  Growth/Status columns, the "not reported" fill, the colour scale and the two cards.

## How the model is laid out

- Each table is a `seq` of records, and each missing cell is an `Option` or a `Cell`
  (`NA | Num | Str`).
- The pandas operations are written out:
  - `drop_duplicates(keep=False)` is `DropAllDuplicates`;
  - `keep="first"` is `KeepFirst`;
  - `duplicated(keep=False)` is `Duplicated`;
  - `melt` and left `merge` are modelled;
  - the stable `sort_values` and `sorted(key=str.lower)` are an insertion sort;
  - `np.setdiff1d` is the sorted distinct difference.
- A Python exception becomes `Err(KeyError | IndexError | TypeError | ValueError | NameError)`.
- The loops of the pipeline are `method`s with `while` loops, each proved equal to a
  specification function:
  - the district match loop;
  - the `geo_dict` and `district_geo_dict` fills;
  - the KPI match loop;
  - the Urban/Rural/Total cleaning loop;
  - the equity sheet loop.
- Vectorised pandas code is modelled as functions.
- difflib's similarity ratio is a function-valued parameter `sim`.
  `get_close_matches(q, V, n=1, cutoff)` is `CloseMatch`:
  - it gives a candidate whose score is at least the cutoff and at least every other score;
  - on equal scores it takes the larger string, as difflib's `heapq.nlargest` on `(score, x)` does;
  - otherwise it gives nothing.
- `pd.to_numeric`/`float()` on a string is a parameter `parse`.

Files:

- `frames.dfy`: `Option`, `Result`, `Cell`, and the table operations.
- `text.dfy`: ASCII lower-casing, split/join, prefixes and suffixes, `str(n)`, and the case-insensitive regex substitutions.
- `sorting.dfy`: the sorts.
- `fuzzy.dfy`: the close-match helper.
- `trees.dfy`: the checkbox tree keys.
- `geo_names.dfy`, `district_values.dfy`, `cleaning.dfy`, `state_tables.dfy`, `taxonomy.dfy`, `equity.dfy`: the start-up pipeline.
- `district_scatter.dfy`, `state_trend.dfy`, `district_gis.dfy`: the three pages.

## Model

| member | source | states |
|---|---|---|
| Frames.Filter | pages/__init__.py:77 | a boolean-mask query keeps exactly the rows satisfying the predicate and never adds rows |
| Frames.FilterSplit | pages/__init__.py:160-172 | the rows a mask keeps and the rows its negation keeps together are the original rows (as a multiset) |
| Frames.CountFilter | pages/__init__.py:201 | querying rows never increases the number of rows carrying a key |
| Frames.FilterKeepsUnique | pages/__init__.py:201 | a query of a table with a unique key still has a unique key |
| Frames.UniqueKeysAppend | pages/__init__.py:95 | concatenating two tables each unique on a key, with no key shared, gives a table unique on it |
| Frames.DropAllDuplicatesUnique | pages/__init__.py:329-334 | after `drop_duplicates(keep=False)` the subset key is unique |
| Frames.DropAllDuplicatesOfUnique | pages/__init__.py:291-295 | `drop_duplicates(keep=False)` of a table whose key is already unique changes nothing |
| Frames.DuplicatedIsRemoved | pages/__init__.py:319-334 | `duplicated(keep=False)` marks exactly the rows whose key occurs at least twice, and the marked rows plus the kept rows are the table |
| Frames.KeepFirstKeys | pages/__init__.py:355-359 | `drop_duplicates(keep="first")` keeps every key that occurs |
| Frames.KeepFirstUnique | pages/__init__.py:355-359 | after `drop_duplicates(keep="first")` the key is unique |
| Frames.KeepFirstSubset | pages/__init__.py:355-359 | `drop_duplicates(keep="first")` only keeps rows of the input |
| Frames.KeepFirstIsFirst | pages/__init__.py:355-359 | each kept row is the first input row with its key |
| Frames.KeepFirstKeysAt | pages/__init__.py:355-359 | the key of every input row is a key of the deduplicated table |
| Frames.PermutationKeepsKeys | pages/state_trend.py:259-262 | reordering rows keeps the set of keys present |
| Frames.UniqueSpec | pages/__init__.py:58-59 | `Series.unique()` holds each value of the input exactly once |
| Frames.Partners | pages/__init__.py:429-432 | a query of a two-column table on its first column gives exactly the second-column values paired with the key |
| Frames.ReplaceExactIdempotent | pages/__init__.py:542-560 | an exact-value replace table whose targets are not themselves keys is idempotent |
| Text.Lower | pages/__init__.py:62 | `str.lower` maps each character and keeps the length |
| Text.Split | pages/__init__.py:22-23 | `str.split(sep)` gives at least one field and no field holds the separator |
| Text.JoinSplit | pages/__init__.py:22-23 | joining the fields of a split with the separator gives the text back |
| Text.SplitJoin | pages/__init__.py:141-145 | splitting a join of separator-free fields gives the fields back |
| Text.RemovePrefix | pages/state_trend.py:205 | `removeprefix` strips the prefix when present and otherwise returns the text unchanged |
| Text.RemoveSuffix | pages/district_scatter.py:436 | `removesuffix` strips the suffix when present and otherwise returns the text unchanged |
| Text.RemoveSuffixAppended | pages/district_scatter.py:534-542 | removing a suffix just appended gives the text back |
| Text.NatToString | pages/district_scatter.py:67 | `str(i)` is a non-empty string of decimal digits |
| Text.ParseNatToString | pages/district_scatter.py:67 | reading back `str(i)` gives `i` |
| Text.NatToStringInjective | pages/state_trend.py:20 | distinct positions get distinct `str(i)` keys |
| Text.SubIgnoreCaseKeepsLower | pages/__init__.py:337-341 | a case-insensitive regex replace whose replacement lower-cases to the pattern does not change the lower-cased text |
| Text.SubWordIgnoreCaseKeepsLower | pages/__init__.py:337-341 | the same for the word-bounded `(?i)\b…\b` replace |
| Text.SubIgnoreCaseShort | pages/__init__.py:338 | text shorter than the pattern is left alone |
| Sorting.SortSpec | pages/__init__.py:208 | the insertion sort returns a sorted permutation of its input for any total preorder |
| Sorting.Sort | pages/__init__.py:208 | the insertion sort itself: a permutation of the same length (order and stability are stated by SortSpec and SortStable) |
| Sorting.SortStable | pages/__init__.py:208 | the sort is stable: the elements the order ranks level with any given one come out in their input order |
| Sorting.SortCaseInsensitive | pages/__init__.py:208 | `sorted(key=str.lower)` is sorted by the lower-cased order, a permutation of its input, and stable: names equal up to case keep their input order |
| Sorting.SortLex | pages/district_gis.py:313-316 | the sort `np.setdiff1d` applies is sorted lexicographically and a permutation |
| Sorting.CaseInsensitiveTotal | pages/__init__.py:208 | comparing lower-cased strings is a total preorder |
| Sorting.PermutationKeepsUniqueKeys | pages/state_trend.py:259-262 | sorting a table with a unique key keeps the key unique |
| Fuzzy.CloseMatch | pages/__init__.py:62 | `get_close_matches(n=1)` returns a candidate scoring at least the cutoff and at least every other candidate, the greatest string among equal scores, or nothing when none qualifies |
| Fuzzy.CloseMatchUnique | pages/__init__.py:62 | that description determines the result |
| Fuzzy.CloseMatchEmpty | pages/__init__.py:82 | an empty candidate list gives no match |
| Trees.IndexByPosition | pages/district_scatter.py:66-68 | `{str(i): x for i, x in enumerate(xs)}` maps each `str(i)` to `xs[i]` and has no other keys |
| Trees.ChildKey | pages/district_scatter.py:74 | a child key is "0-" + str(i) and never the root key "0" |
| Trees.Children | pages/district_scatter.py:73-75 | the i-th child is titled with the i-th entry and keyed "0-" + str(i) |
| Trees.ChildKeyInjective | pages/district_scatter.py:74 | distinct positions give distinct child keys |
| Trees.ChildKeySplit | pages/district_scatter.py:370 | `key.split("-")` of a child key is ["0", str(i)] |
| Trees.ChildKeyRemovePrefix | pages/state_trend.py:205 | `key.removeprefix("0-")` of a child key is str(i) |
| GeoNames.SplitLabel | pages/__init__.py:16-25 | Dist is the text before the first comma; State is the second comma field, with its leading space kept, and is missing when there is no comma |
| GeoNames.LabelKeyRoundTrip | pages/__init__.py:20-25 | for a two-field label, joining Dist and State with "," gives the label back |
| GeoNames.JoinKeySplit | pages/__init__.py:141-145 | the join key splits back into District_geo and State_geo, each "N/A" when missing |
| GeoNames.GeoNames | pages/__init__.py:16-25 | the (Dist, State) table has one split label per feature, in order |
| GeoNames.FixSurveyRow | pages/__init__.py:38-50 | the four state spellings are replaced, "Tue" becomes "Mon", and nothing else changes |
| GeoNames.FixSurveyRowIdempotent | pages/__init__.py:38-50 | applying the replace table twice is the same as once |
| GeoNames.StateDistrictPairs | pages/__init__.py:55-57 | the groupby gives each (State, District name) pair present exactly once |
| GeoNames.DataStates | pages/__init__.py:58 | `data_states` holds each survey state once |
| GeoNames.GeoStates | pages/__init__.py:59 | `geo_states` holds each non-missing geo state once |
| GeoNames.FuzzyStateTable | pages/__init__.py:61-66 | each data state is matched, lower-cased, against the geo states at cutoff 0.5 |
| GeoNames.ApplyStateOverrides | pages/__init__.py:69-70 | "D & D" and "DNH" get their fixed geo state and no other row changes |
| GeoNames.StateGeoTableSpec | pages/__init__.py:61-70 | each row of `state_geo_df` is the override when one exists and otherwise the fuzzy match |
| GeoNames.GeoOfAt | pages/__init__.py:78 | looking a state up in `state_geo_df` gives its own row's geo state |
| GeoNames.DistrictsOf | pages/__init__.py:77 | a state's data districts are exactly the districts paired with it |
| GeoNames.DistrictsOfUnique | pages/__init__.py:77 | a state's data districts are distinct |
| GeoNames.GeoDistrictsOf | pages/__init__.py:79 | a state's geo districts are the Dist entries whose State equals the matched state; none when unmatched |
| GeoNames.MatchStateDistricts | pages/__init__.py:81-92 | each district is matched, lower-cased, only against its matched state's geo districts, and carries the state and matched state |
| GeoNames.MatchDistricts | pages/__init__.py:74-95 | the loop builds exactly the concatenated per-state district tables; with no survey states `pd.concat` raises ValueError |
| GeoNames.DistrictTableWithinState | pages/__init__.py:74-95 | each row's pair is a survey pair; its matched district is a geo district of its matched state scoring at least the cutoff |
| GeoNames.DistrictTableKeys | pages/__init__.py:74-95 | (State, District name) is unique in the district table |
| GeoNames.DistrictTableCovers | pages/__init__.py:74-95 | every survey pair of a listed state has a row in the district table |
| GeoNames.ApplyDistrictOverrides | pages/__init__.py:98-138 | the twelve hand-set district names get their fixed District_geo; no other row and no other column changes |
| GeoNames.WithGeoKeys | pages/__init__.py:140-147 | District_geo becomes (District_geo or "N/A") + "," + (State_geo or "N/A"), and State_geo is dropped |
| GeoNames.BuildDistrictGeo | pages/__init__.py:74-147 | `state_district_geo_df` is the matched table with overrides and join keys, and fails with ValueError when there are no survey states |
| GeoNames.JoinKeyIsLabel | pages/__init__.py:140-145 | a district matched to a feature's own Dist and State gets that feature's label as its key |
| GeoNames.GeoKeysKeepPairs | pages/__init__.py:98-147 | overrides and join keys keep (State, District name) unique |
| GeoNames.FeaturesOf | pages/__init__.py:189-194 | a state's features are those whose label contains the matched state; an unmatched (NaN) state raises TypeError when there are features |
| GeoNames.FeatureOfMatchedState | pages/__init__.py:189-194 | a feature whose State equals the matched state is among that state's features |
| GeoNames.BuildGeoDict | pages/__init__.py:187-195 | `geo_dict` has one entry per data state holding its features, and fails with TypeError exactly when some state is unmatched and there are features |
| GeoNames.BuildDistrictGeoDict | pages/__init__.py:199-203 | `district_geo_dict` maps each data state to its rows of the join table, and "All India" to the whole table |
| GeoNames.StateTableExact | pages/__init__.py:201 | `query("State == @state")` keeps exactly that state's rows |
| GeoNames.StateOptions | pages/__init__.py:207-209 | the state options are "All India" plus the data states, sorted case-insensitively |
| GeoNames.DistrictKpiOptions | pages/__init__.py:213-216 | the KPI options are the columns from the fifth on, sorted case-insensitively |
| Cleaning.ToFloat | pages/__init__.py:170 | the float cast keeps missing values missing, keeps numbers, and parses numeric text |
| Cleaning.CastColumn | pages/__init__.py:170 | the cast applies to every row of the column |
| Cleaning.CleanColumn | pages/__init__.py:160-183 | one column's cleaning: drop and report non-numerics, cast, drop and report negatives (its contract is stated by the lemmas below) |
| Cleaning.CleanColumnValues | pages/__init__.py:160-183 | after cleaning every value is missing or a number at least 0 |
| Cleaning.CleanColumnReports | pages/__init__.py:160-183 | the non-numeric report is exactly the present non-parsing rows; the numeric rest, cast, splits as a multiset into the kept rows (missing or at least 0) and the negatives report (below 0), so the reports are exactly the removed rows |
| Cleaning.CleanColumnKeepsClean | pages/__init__.py:160-183 | a row whose value is missing or a float at least 0 is kept unchanged, and one whose float is below 0 is reported as it was |
| Cleaning.CleanValue | pages/__init__.py:160-183 | what cleaning makes of one value: nothing when it is dropped, and otherwise a value missing or at least 0 |
| Cleaning.CleanColumnRowwise | pages/__init__.py:160-183 | cleaning decides row by row: the kept table is, in order, each row whose value is missing or parses to a number at least 0, with that value cast |
| Cleaning.CleanColumnIdempotent | pages/__init__.py:160-183 | cleaning cleaned rows reports and removes nothing |
| Cleaning.CleanColumnPreserves | pages/__init__.py:482-506 | a property the value column does not affect holds of every kept row |
| Cleaning.CleanColumnKeepsUnique | pages/__init__.py:482-506 | cleaning keeps a key unique when the key ignores the value column |
| DistrictValues.MeltColumn | pages/__init__.py:151-152 | melting one indicator column gives one row per survey row carrying the id columns, the indicator name and its value |
| DistrictValues.Melt | pages/__init__.py:151-152 | `melt` of the indicator columns (stated by MeltAt and MeltLength) |
| DistrictValues.MeltAt | pages/__init__.py:151-152 | `melt` stacks the indicator columns one after another; row j·n+i is survey row i under indicator j |
| DistrictValues.MeltLength | pages/__init__.py:151-152 | the melted table has one row per (indicator, survey row) |
| DistrictValues.KeyFor | pages/__init__.py:153-158 | a row gets a join key exactly when its (State, District name) occurs in the join table |
| DistrictValues.MatchesAtMostOne | pages/__init__.py:153-158 | with a unique (State, District name) key at most one join row matches |
| DistrictValues.MergeRowSingle | pages/__init__.py:153-158 | the left merge gives each melted row exactly one output row |
| DistrictValues.LeftMerge | pages/__init__.py:153-158 | the left merge on (State, District name) (stated by LeftMergeKeepsRows) |
| DistrictValues.LeftMergeKeepsRows | pages/__init__.py:153-158 | the left merge keeps every melted row once, in order, with its join key or missing |
| DistrictValues.DistrictMap | pages/__init__.py:150-183 | melt, merge, then clean the value column (stated by DistrictMapClean) |
| DistrictValues.DistrictMapClean | pages/__init__.py:150-183 | `district_map_df` holds only missing or non-negative values; the non-numeric report is exactly the present non-parsing values; the cast rest splits into the table (values at least 0) and the negatives report (values below 0); rows already missing or numeric are kept or reported as they were; a second cleaning removes nothing |
| StateTables.DropHeaderRow | pages/__init__.py:277 | `drop(0)` removes the first row and raises KeyError on an empty sheet |
| StateTables.NfhsFourSlice | pages/__init__.py:283-285 | the NFHS-4 slice keeps the type, indicator and gender, uses the NFHS-4 column as Total, and leaves Urban, Rural, round and year missing |
| StateTables.IndiaAsStates | pages/__init__.py:274-286 | the India sheet gets State "India" and keeps its NFHS-5 columns |
| StateTables.FillRound | pages/__init__.py:289 | a missing round becomes "NFHS 4" and a missing year "2016"; nothing else changes |
| StateTables.IndiaStackedShape | pages/__init__.py:280-289 | the stacked India table is the NFHS-4 slice followed by the sheet, with the round and year filled |
| StateTables.India45Unique | pages/__init__.py:291-295 | `df_india_45` is unique on (Indicator Type, Indicator, Gender, NFHS) |
| StateTables.IndiaMissingRoundDropped | pages/__init__.py:289-295 | a row with no round collides with its own NFHS-4 slice row, and both are dropped |
| StateTables.India45Complete | pages/__init__.py:280-295 | when every row has a round other than NFHS 4 and the keys differ, nothing is dropped |
| StateTables.StatesReportIsRemoved | pages/__init__.py:319-334 | the printed duplicate rows are exactly the rows removed, and the rest is unique on the five-column key |
| StateTables.NormaliseGenderKeepsLetters | pages/__init__.py:337-341 | the gender replace only changes letter case |
| StateTables.NormaliseFemale | pages/__init__.py:338 | any casing of "female" becomes "Female" |
| StateTables.NormaliseMale | pages/__init__.py:338 | any casing of "male" becomes "Male" |
| StateTables.StatesClean | pages/__init__.py:329-341 | `df_states` is the deduplicated table with each gender normalised |
| StateTables.RewriteIndiaOfIndia | pages/__init__.py:353 | "India" becomes "All India" |
| StateTables.RewriteIndiaNotIdempotent | pages/__init__.py:353 | "All India" becomes "All All India": the word-bounded regex matches inside it |
| StateTables.RewriteStates | pages/__init__.py:353 | the rewrite applies to every row's State |
| StateTables.UnionKeepsStatesFirst | pages/__init__.py:346-360 | the union is unique on the five-column key, and where the states sheet has a key its row is the one kept |
| StateTables.FoldGender | pages/__init__.py:363-365 | rows with a gender get type + " - " + gender; a gender without a type raises TypeError |
| StateTables.FoldGenderKeepsUnique | pages/__init__.py:363-365 | folding the gender into the type keeps the five-column key unique |
| StateTables.Nfhs345Unique | pages/__init__.py:346-365 | `df_nfhs_345` is unique on (Indicator Type, Indicator, State, Gender, NFHS) |
| StateTables.IndicatorIndex | pages/__init__.py:368-370 | the (type, indicator) index holds each pair present exactly once |
| StateTables.Nfhs345States | pages/__init__.py:373 | the states list is sorted case-insensitively and holds each state once; a missing state raises TypeError |
| StateTables.SortedUniqueNames | pages/__init__.py:373 | sorting the distinct names keeps them distinct and keeps every name |
| StateTables.CleanInTurn | pages/__init__.py:482-506 | the loop cleans the columns one after another and collects each column's report |
| StateTables.CleanResidences | pages/__init__.py:481-506 | that loop, run over Urban, Rural and Total |
| StateTables.CleanColumnsAt | pages/__init__.py:482-506 | after the loop every cleaned column is missing or at least 0 (which rows are kept: CleanColumnsRowwise) |
| StateTables.CleanColumnsRowwise | pages/__init__.py:482-506 | the column-by-column loop decides row by row: a row is kept, with the cleaned columns cast, exactly when each of them passes |
| StateTables.ResidenceRowIsLoop | pages/__init__.py:481-506 | for Urban, Rural and Total the loop's per-row outcome is the direct reference: kept exactly when all three values are missing or at least 0 |
| StateTables.CleanColumnsUnique | pages/__init__.py:482-506 | the loop keeps the five-column key unique |
| StateTables.ResidencesClean | pages/__init__.py:481-506 | for any table, the cleaned table is, in order, exactly the rows whose Urban, Rural and Total are each missing or parse to a number at least 0, cast; so each is missing or at least 0 |
| StateTables.ResidenceIndependent | pages/__init__.py:482-493 | casting one residence column leaves the others untouched |
| Taxonomy.DomainOf | pages/__init__.py:226 | the domain is the header before the first "." or ":"; it is the whole header when there is neither |
| Taxonomy.DomainOfPrefixed | pages/__init__.py:226 | a header "d.rest" or "d:rest" has domain d |
| Taxonomy.DomainOfIdempotent | pages/__init__.py:226 | the domain of a domain is itself |
| Taxonomy.IndicatorColumns | pages/__init__.py:213 | the indicators (second header row) and the domain headers (first header row) are the columns from the fifth on |
| Taxonomy.DomainColumn | pages/__init__.py:219-228 | `ind_domains` holds the domain of each first-row header, position by position |
| Taxonomy.DistrictIndicators | pages/__init__.py:219-233 | `nfhs_dist_ind_df` pairs the i-th first-row domain with the i-th indicator; different lengths raise ValueError |
| Taxonomy.DistrictDomains | pages/__init__.py:411 | `ind_domain.unique()` holds each domain of `nfhs_dist_ind_df` exactly once |
| Taxonomy.PairDomains | pages/__init__.py:409-414 | domains pair with state types by position; unequal lengths raise ValueError |
| Taxonomy.PairedType | pages/__init__.py:426-428 | the looked-up state type is paired with the domain |
| Taxonomy.PairedTypeAt | pages/__init__.py:426-428 | with distinct domains the lookup returns the domain's own pair |
| Taxonomy.MatchKpis | pages/__init__.py:423-447 | the loop builds exactly the concatenated per-domain match tables |
| Taxonomy.KpiTableWithinPair | pages/__init__.py:423-447 | each row's (domain, indicator) is a row of `nfhs_dist_ind_df`, its state type is the one paired with the domain, and its match is the close match, without lower-casing, among that type's indicators |
| Taxonomy.KpiTableCovers | pages/__init__.py:423-447 | every (domain, indicator) row of `nfhs_dist_ind_df` with a listed domain has a matched row under that domain |
| Taxonomy.KpiTable | pages/__init__.py:424-447 | the per-domain match tables concatenated (stated by MatchKpis, KpiTableWithinPair and KpiTableCovers) |
| Taxonomy.ApplyKpiOverrides | pages/__init__.py:448-476 | overridden indicators get the hand-set state indicator, and nothing else changes |
| Taxonomy.KpiOverridesForced | pages/__init__.py:449-476 | "Households surveyed", items 49 and 58 get no match; items 88 and 91 the blood-sugar indicator; item 101 the tobacco indicator |
| Taxonomy.ApplyKpiOverridesIdempotent | pages/__init__.py:448-476 | applying the overrides twice is the same as once |
| Taxonomy.DistStateKpi | pages/__init__.py:409-447 | building `dist_state_kpi_df` fails, with ValueError, exactly when the unique domains and the type list differ in length or there are no indicators at all (nothing to concatenate) |
| Taxonomy.DomainPairs | pages/__init__.py:409-414 | the i-th unique domain of `nfhs_dist_ind_df` is paired with the i-th type |
| Taxonomy.DistStateKpiOk | pages/__init__.py:409-476 | when it succeeds, `dist_state_kpi_df` is the match table with the overrides applied |
| Taxonomy.OverridesKeepIndicators | pages/__init__.py:448-476 | the overrides neither add nor remove (domain, district indicator) rows |
| Taxonomy.DistStateKpiCovers | pages/__init__.py:409-476 | `dist_state_kpi_df` has a row with domain d and indicator k exactly when (d, k) is a row of `nfhs_dist_ind_df` |
| Taxonomy.DistStateKpiWithinPair | pages/__init__.py:409-476 | each row's (domain, indicator) is a row of `nfhs_dist_ind_df`; its domain and state type sit at the same position; an overridden indicator has its hand-set value, and any other its close match |
| Equity.FirstSheets | pages/__init__.py:527 | only the first six sheets are read |
| Equity.Stacked | pages/__init__.py:527-541 | the sheets' rows stacked, each labelled by its sheet (stated by StackEquity and StackedRows) |
| Equity.SheetRows | pages/__init__.py:528-538 | a sheet keeps exactly its rows with State and Year, labelled with the sheet name |
| Equity.StackEquity | pages/__init__.py:526-541 | the loop stacks the first six sheets' rows; an empty workbook makes `concat` raise |
| Equity.StackedRows | pages/__init__.py:526-541 | every stacked row comes from one of the sheets with State and Year, and every such row is stacked |
| Equity.FixRow | pages/__init__.py:542-560 | the indicator, year and state replace tables apply to their own columns only |
| Equity.FixRowSettles | pages/__init__.py:542-560 | the replaced values are not themselves replaced again; the replace is idempotent |
| Equity.FixRows | pages/__init__.py:542-560 | the replace applies to every row |
| Equity.CastRow | pages/__init__.py:561-583 | the float cast parses text, keeps numbers and missing values, and leaves other columns alone |
| Equity.CastValues | pages/__init__.py:561-583 | the cast fails exactly when some value does not parse |
| Equity.EquityTableFails | pages/__init__.py:520-584 | `df_equity` fails exactly when the workbook is empty or a stacked value does not parse |
| Equity.EquityTable | pages/__init__.py:527-584 | `df_equity`: stacked, fixed and cast (stated by EquityTableFails and EquityTableRows) |
| Equity.EquityTableRows | pages/__init__.py:520-584 | each row of `df_equity` is numeric, has State and Year, carries its sheet's (replaced) name, and needs no further replacing |
| DistrictScatter.StatesIndex | pages/district_scatter.py:66-68 | "i" names the i-th data state in case-insensitive order |
| DistrictScatter.SelectionTree | pages/district_scatter.py:70-76 | child i is the i-th sorted state with key "0-" + str(i) |
| DistrictScatter.DecodeStateKeys | pages/district_scatter.py:370 | each checked key decodes through its second dash field; a missing field or index raises |
| DistrictScatter.UpdateStatesSelector | pages/district_scatter.py:364-383 | the root key selects "All India" whatever else is checked; otherwise the keys decode and the label counts them |
| DistrictScatter.SelectorDecodesTree | pages/district_scatter.py:364-383 | checking tree children selects exactly those sorted states, and the label gives their number |
| DistrictScatter.DecodeChildKeys | pages/district_scatter.py:370 | child keys decode back to the states they were built from |
| DistrictScatter.DomainKpiOptions | pages/district_scatter.py:340-353 | the options are the indicators `nfhs_dist_ind_df` pairs with the domain, sorted case-insensitively, and the value is the first; an empty domain raises IndexError |
| DistrictScatter.UpdateDistrictKpiOptions | pages/district_scatter.py:337-353 | both axes' options and values, failing when either domain is empty |
| DistrictScatter.DomainKpiPreselected | pages/district_scatter.py:350-352 | the preselected KPI is paired with the domain in `nfhs_dist_ind_df` and comes first case-insensitively |
| DistrictScatter.FlatColumnNameCases | pages/district_scatter.py:435-438 | (name, sub) flattens to "name (sub)", and to "name" when sub is empty |
| DistrictScatter.ModeOf | pages/district_scatter.py:447 | only the value "rounds" selects the rounds view |
| DistrictScatter.AxisColumnRoundTrip | pages/district_scatter.py:435-543 | the renamed axis KPI is the flattened column, and removing the query's suffix gives the KPI back |
| DistrictScatter.RoundSuffix | pages/district_scatter.py:441-543 | the suffix each query removes is " (" + the axis round + ")" |
| DistrictScatter.MatchState | pages/district_scatter.py:525-531 | a single selected state maps through `district_state_match` or passes unchanged; anything else gives "All India" |
| DistrictScatter.RefLookup | pages/district_scatter.py:533-550 | the reference query needs exactly one matched KPI row; a missing state KPI gives no reference |
| DistrictScatter.RefLookupUnique | pages/district_scatter.py:533-547 | with a unique (domain, KPI) key the lookup finds its row |
| DistrictScatter.ScatterRows | pages/district_scatter.py:407-412 | the rows are those of the two KPIs, restricted to the selected states unless "All India" |
| DistrictScatter.RefTotals | pages/district_scatter.py:549-551 | the reference totals are exactly the Total cells of the state-table rows with that state, indicator type, indicator and round |
| DistrictScatter.RefValuesOf | pages/district_scatter.py:545-587 | the rounds view reads the NFHS 4 totals for x and the NFHS 5 totals for y; the change view reads both rounds |
| DistrictScatter.UpdateScatter | pages/district_scatter.py:398-587 | no session gives the placeholder; otherwise, in this order, a repeated (State, District name, variable, Round) cell raises ValueError, no queried row gives the placeholder, a missing NFHS-4 or NFHS-5 column of either indicator raises KeyError, a reference lookup that does not find exactly one row raises TypeError, and in every other case there is a figure carrying the queried rows, both axis columns, the reference state, both reference queries and their totals |
| DistrictScatter.EmptySelectionNoFigure | pages/district_scatter.py:407-422 | selecting no states gives the placeholder |
| StateTrend.StateChildDecodes | pages/state_trend.py:204-206 | a state child key decodes to its own state |
| StateTrend.KpiLookup | pages/state_trend.py:208 | `states_kpi_index[k]` finds k's indicator, or fails when k is absent |
| StateTrend.KpiLookupAt | pages/state_trend.py:208 | with distinct keys the lookup returns the entry's own indicator |
| StateTrend.KpiChildren | pages/state_trend.py:62-66 | type i's children are exactly the index entries whose key starts with str(i) |
| StateTrend.KpiTree | pages/state_trend.py:55-70 | branch i is titled with type i, keyed "0-" + str(i), and holds type i's indicators |
| StateTrend.LeafKeySplit | pages/state_trend.py:63-65 | a leaf key "0-" + "i-j" has three dash fields and strips back to "i-j" |
| StateTrend.LookupStates | pages/state_trend.py:204-206 | each state key decodes through `states_index`, and an unknown key raises |
| StateTrend.LookupKpis | pages/state_trend.py:207-211 | each KPI key decodes through `states_kpi_index`, and an unknown key raises |
| StateTrend.StatesTreeDecodes | pages/state_trend.py:204-206 | the root is ignored, and checking children selects exactly their states |
| StateTrend.StateKeysDecode | pages/state_trend.py:204-206 | child keys decode without error to the states they were built from |
| StateTrend.TypeKeysIgnored | pages/state_trend.py:210 | the root and type keys are never taken for KPI keys |
| StateTrend.KpiTreeDecodes | pages/state_trend.py:207-211 | checking tree nodes selects exactly the indicators of the checked leaves |
| StateTrend.KpiKeyDecodes | pages/state_trend.py:207-211 | a three-part tree key is a leaf key and decodes to its indicator |
| StateTrend.LabelsCount | pages/state_trend.py:213-222 | the label is "All India" alone, "All India and N-1 States", or "N States", and the KPI label "N KPIs" |
| StateTrend.LabelReadBack | pages/state_trend.py:213-222 | the count in a label reads back as the number written |
| StateTrend.UpdateSelectors | pages/state_trend.py:202-228 | the session holds the decoded states and KPIs, and the labels are built from them |
| StateTrend.TrendGuardBounds | pages/state_trend.py:242-246 | a figure is attempted only with both selections non-empty and at most 500 series |
| StateTrend.MeltResidence | pages/state_trend.py:250-253 | melting one residence column keeps the id columns and takes that column's value |
| StateTrend.TrendLeTotal | pages/state_trend.py:259-262 | the (Year, State, Indicator) order is a total preorder |
| StateTrend.CastTrend | pages/state_trend.py:263 | the float cast fails exactly when a value does not parse |
| StateTrend.TrendSorted | pages/state_trend.py:248-262 | query, melt, drop missing, keep-first dedup and sort (stated by TrendSortedFrom, TrendSortedShape and TrendSortedCovers) |
| StateTrend.TrendRows | pages/state_trend.py:248-264 | the sorted rows cast to float (stated by TrendRowsSpec and TrendRowsOfClean) |
| StateTrend.TrendSortedFrom | pages/state_trend.py:248-262 | each plotted row comes from a queried row with a value |
| StateTrend.TrendSortedShape | pages/state_trend.py:254-262 | the plotted rows are sorted by Year, State, Indicator, and unique on (State, Indicator, Year, variable) |
| StateTrend.TrendSortedCovers | pages/state_trend.py:248-262 | every queried row with a value has its key among the plotted rows |
| StateTrend.CastTrendKeeps | pages/state_trend.py:263 | the cast keeps the keys, the order and the uniqueness |
| StateTrend.TrendRowsSpec | pages/state_trend.py:248-264 | the plotted rows are numeric, sorted, unique, and only of the selected states, KPIs and residence |
| StateTrend.TrendRowsOfClean | pages/state_trend.py:248-264 | on cleaned data the cast never fails |
| StateTrend.UpdateTrend | pages/state_trend.py:237-267 | the guard or an empty result gives the placeholder; otherwise the figure plots exactly the trend rows |
| DistrictGis.PcntScale | pages/district_gis.py:269-274 | the scale is 1 for the out-of-pocket expenditure indicator and 100 for every other |
| DistrictGis.Growth | pages/district_gis.py:288-290 | the rising arrow exactly when the change is above 0 |
| DistrictGis.Status | pages/district_gis.py:291-296 | the cross exactly when rising for an inverse KPI or falling for another |
| DistrictGis.StatusFlips | pages/district_gis.py:291-296 | being in `kpi_color_inverse` flips the status |
| DistrictGis.Scaled | pages/district_gis.py:277-278 | each value is divided by the scale; a missing value is NaN |
| DistrictGis.Rescaled | pages/district_gis.py:283-287 | the ratio is multiplied back by the scale |
| DistrictGis.ValueAt | pages/district_gis.py:277-278 | looking up a district gives its value, or missing when absent |
| DistrictGis.ChangeRow | pages/district_gis.py:275-296 | one district's change, relative change, Growth and Status (stated by ChangeRowOfPresent and ChangeRowSound) |
| DistrictGis.ChangeTable | pages/district_gis.py:275-298 | the change rows with incomplete ones dropped (stated by ChangeTableSound and ChangeTableComplete) |
| DistrictGis.Aligned | pages/district_gis.py:276-279 | the subtraction aligns on the union of districts: unchanged when the indexes are equal, the other index when one is empty, otherwise sorted and distinct |
| DistrictGis.ChangeRows | pages/district_gis.py:275-296 | one change row per aligned district |
| DistrictGis.ChangeRowOfPresent | pages/district_gis.py:275-298 | with both values present the change is finite, its sign is that of NFHS-5 minus NFHS-4, Growth and Status follow it, and the row is dropped exactly when both are 0 |
| DistrictGis.RelativeChange | pages/district_gis.py:283-287 | the relative change is (NFHS-5 − NFHS-4) / NFHS-4 whatever the scale |
| DistrictGis.ChangeRowKept | pages/district_gis.py:298 | a row with both values is kept unless both are 0 (0/0 is NaN) |
| DistrictGis.ChangeRowOfMissing | pages/district_gis.py:298 | a kept row has both values |
| DistrictGis.ChangeRowSound | pages/district_gis.py:275-298 | a kept row's Growth and Status agree with its two values |
| DistrictGis.ChangeTableSound | pages/district_gis.py:275-298 | every table row's Growth and Status agree with its two values |
| DistrictGis.ChangeTableComplete | pages/district_gis.py:275-298 | every district with both values, not both 0, has a table row |
| DistrictGis.UnchangedReadsAsFalling | pages/district_gis.py:288-296 | an unchanged value reads as falling, so as worse for an ordinary KPI |
| DistrictGis.NotReported | pages/district_gis.py:313-316 | the unreported names are the sorted, distinct state districts absent from the round's data |
| DistrictGis.FirstGeo | pages/district_gis.py:317-322 | each gets the geo key of its first row |
| DistrictGis.Fill | pages/district_gis.py:335 | `fillna(-1)` replaces exactly the missing cells |
| DistrictGis.MapFrame | pages/district_gis.py:324-360 | the shown rows followed by one appended row per unreported district, each filled |
| DistrictGis.MapFrameSpec | pages/district_gis.py:324-360 | no cell is missing; appended rows carry the name under "District_name" and the geo key, and −1 as value and "District name" |
| DistrictGis.MapFrameCovers | pages/district_gis.py:312-360 | every district of the state appears in the map frame |
| DistrictGis.ColourScale | pages/district_gis.py:363-365 | gray for the lowest stops, then Navy–FloralWhite–DarkRed for inverse KPIs and the reverse otherwise |
| DistrictGis.Truth | pages/district_gis.py:436 | the truth of a NumPy array: empty is false, one element is its own truth, more raise ValueError |
| DistrictGis.CardOf | pages/district_gis.py:436 | a card shows the single value when it is truthy and "N/A" otherwise |
| DistrictGis.CardsAsWritten | pages/district_gis.py:436-437 | as written: the NFHS-4 card is its own, the NFHS-5 card shows `card5[0]` exactly when the NFHS-4 value is true, and raises IndexError when that lookup is empty |
| DistrictGis.Cards | pages/district_gis.py:436-437 | each card is guarded by its own values |
| DistrictGis.CardsSpec | pages/district_gis.py:436-437 | the NFHS-5 card depends only on the NFHS-5 values and shows them exactly when they are truthy |
| DistrictGis.CardsAsWrittenSpec | pages/district_gis.py:436-437 | as written, an empty NFHS-4 lookup hides the NFHS-5 card, and a missing NFHS-5 value raises IndexError |
| DistrictGis.CardGuardCounterexample | pages/district_gis.py:436-437 | the two inputs that show the card guard's discrepancy |
| DistrictGis.RoundRows | pages/district_gis.py:251-256 | a round's rows are exactly those of the state, KPI and round |
| DistrictGis.SeriesOf | pages/district_gis.py:277 | the district-indexed value series of a round's rows |
| DistrictGis.RoundRowsDistinct | pages/district_gis.py:251-256 | with a unique map key the round's districts are distinct |
| DistrictGis.CardValues | pages/district_gis.py:262-267 | the Total values of the state table for the place, KPI and survey |
| DistrictGis.StateTable | pages/district_gis.py:275-298 | the change table of the state's NFHS-4 and NFHS-5 rows (stated by StateTableSound and StateTableComplete) |
| DistrictGis.StateTableSound | pages/district_gis.py:275-298 | with a unique map key, every row of the state's table has a value in both rounds, not both 0, and its Growth and Status follow the change |
| DistrictGis.StateTableComplete | pages/district_gis.py:275-298 | with a unique map key, every district of the state with a number in both rounds, not both 0, has a row |
| DistrictGis.DisplayInDistrictMap | pages/district_gis.py:236-442 | "All India" raises NameError, and an unknown state KeyError; otherwise both map frames, the colour scale, the change table and the cards, each card guarded by its own values, failing only where those cards do |

## Left out

- Dash layouts, callback registration, Plotly figures, the OLS trendline and R², and DataTable column formats are not modelled. They are presentation. `UpdateScatter` and `UpdateTrend` return the rows and columns a figure is drawn from, not the figure.
- File reads, GeoJSON loading and `geojson_rewind.rewind` are not modelled. The sheets, features and labels are parameters.
- `print` reports are not modelled. Each report is returned as a sequence.
- difflib's similarity ratio is a parameter `sim`. Only its use through `get_close_matches(n=1, cutoff)` is modelled.
- `pd.to_numeric` and `float()` on strings are a parameter `parse`.
- Floating point is modelled as exact reals; rounding is ignored. This covers the change columns, the percent scale and `full_range`.
- `str.lower` is modelled for ASCII letters only, and so is the `(?i)` flag. Unicode case folding is out of scope.
- `nfhs_345_ind_types`, `states_kpi_index` and `kpi_color_inverse` are not defined in the files modelled. They are parameters: `types` for the state types, `items` for the KPI index, `inverse` for the colour set.
- `dom_in_state` and the six hand-set KPI rows appear as the constants `DomInState` and `KpiOverrides`. The taxonomy functions take the type list and the overrides as parameters.
- Taxonomy.DistrictIndicators: the two header rows come in as lists of strings. How `read_excel` names them is not modelled: blank cells become "Unnamed: n" and repeated names get ".1" suffixes, which the cut at the first "." removes again.
- Taxonomy.DistStateKpi: states only when construction fails. What it builds is stated by `DistStateKpiOk`, `DistStateKpiCovers` and `DistStateKpiWithinPair`.
- DistrictScatter.UpdateScatter: does not model the pivot's values in wide form or the "NFHS-5 minus NFHS-4" subtraction. It models the pivot's errors: the duplicate-cell ValueError, and the KeyError when a (kpi, round) column is missing. Otherwise it stops at the queried long rows, the axis column names, and the reference queries and totals.
- DistrictScatter.RefLookup: does not compute the reference mean or its change. It returns the `df_nfhs_345` query the page runs, and `RefValuesOf` gives the totals that query reads. The index-aligned subtraction of the change view and the truth test `if x_avg:` are not modelled.
- StateTrend.UpdateTrend: the indicator-name wrapping (`str.wrap(50)`) is not modelled. It only changes display text.
- DistrictGis.DisplayInDistrictMap: requires the map rows to be cleaned, as the start-up pipeline leaves them, with a district name on each. It does not model `full_range` or the figures.
- DistrictGis.DisplayInDistrictMap: shows the corrected cards (`Cards`, each card guarded by its own values), not line 437 as written. The as-written guard is `CardsAsWritten`; the two differ exactly on the inputs listed under "## Findings", and where the NFHS-4 lookup holds one true value and the NFHS-5 lookup several, where line 437 shows the first NFHS-5 value and `Cards` raises ValueError.
- StateTables.CleanColumnsAt: states only the bound on the cleaned columns. Which rows the loop keeps is stated by `CleanColumnsRowwise` and `ResidencesClean`.
- DistrictGis.ChangeTableSound and DistrictGis.ChangeTableComplete: require each round's districts to be distinct. `RoundRowsDistinct` shows this holds when the map key is unique, and `StateTableSound` and `StateTableComplete` carry both to the state's table under that condition.
- DistrictGis.ChangeTable: a district name repeated within one round is not modelled as pandas treats it. The model gives the name one row, built from its first value in each round. pandas lines up two equal indexes position by position, and otherwise joins every repeat of a name in one round with every repeat in the other.
- DistrictGis.ChangeRows: repeated district names within a round are not modelled, as for `ChangeTable`.
- DistrictGis.Aligned: repeated district names are not modelled. Where neither index is empty and they differ, the union is made distinct, while pandas keeps one entry per pair of repeats.
- DistrictGis.StateTable: repeated district names within a round are not modelled. Its properties are stated only where the map key (state, district, round, indicator) is unique.
- DistrictGis.DisplayInDistrictMap: its change table inherits the limit of `StateTable` for repeated district names.
- DistrictGis.Truth: models NumPy's truth of an empty array as false, as the NumPy versions the page was written for do. Newer NumPy raises instead.
- The `state_equity.py`, `home.py`, `app.py` and `index.py` pages are not part of this model.

## Findings

| source | as written | input that shows it | evidently intended | confidence | as-written member | corrected member |
|---|---|---|---|---|---|---|
| pages/district_gis.py:436-437 | the NFHS-5 card is guarded by `card_val` (the NFHS-4 values) instead of `card_val2` | NFHS-4 lookup `[]` with NFHS-5 `[50.0]` shows "N/A"; NFHS-4 `[1.0]` with NFHS-5 `[]` raises IndexError | each card guarded by its own values: `card_val2[0] if card_val2 else 'N/A'` | not executed | DistrictGis.CardsAsWritten, DistrictGis.CardGuardCounterexample | DistrictGis.Cards, DistrictGis.CardsSpec |
