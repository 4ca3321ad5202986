# Olympic and Polity table reconciliation, in Dafny

This project models the table-reconciliation rules of `helper_function.py`. These rules turn three independently sourced tables into one analysis-ready table:

- the Olympic athlete-events records;
- the NOC-to-region mapping;
- the Polity political-regime scores.

Every data frame is a `seq` of record datatypes, and every nullable cell is an `Option`. The pandas operations are written out with their ordinary semantics:

- a filter is a `Filter` over a mask;
- an inner or left merge is, for each left row, its matches in the order of the right table; a left merge falls back to a single all-null row when there is no match;
- `np.where(x.isnull(), y, x)` is `Coalesce`;
- `Series.map(dict)` is a lookup that yields null for a missing key;
- `groupby` sorts its keys and drops null keys;
- `astype('uint8')` keeps the low eight bits.

The modules follow the source:

- `Frames`: the table operations shared by all rules. These are filters, maps, flat maps, first-appearance order, and grouping by a key, with their membership, order and permutation lemmas.
- `Strings`: the string operations:
  - `str.upper` on ASCII letters;
  - `str.strip` with Python's whitespace set;
  - the substring test `sub in s`;
  - Python's code-point order on strings, used by the sorted `groupby`.
- `Olympic`:
  - `prepare_olympic_dataset` after its two CSV files are read: upper-casing, the inner merge on `NOC`, the seven indicator columns, and the sorted `groupby` with count and sums.
  - `correct_team_medals_won`, as the class `OlympicTable`, whose method adds the `TeamGame` column and re-casts the medal columns in place.
- `Polity`:
  - `prepare_polity_dataset` after its file is read: the year filter, name normalisation, the two left merges, and the coalesced `alternate_region` and `alternate_noc` columns.
  - `map_polity_region_dataset`. It fills null codes in place in the caller's table (the class `PolityTable`); the exclusion filters and the region fill then build a new table.
  - `get_polityshift_column`, as a method whose loop goes over the distinct countries and appends each country's shifted rows.
- `Plot`: `modify_data_for_plot`. This covers the country filter on the polity table, the left merge on the year, the filter on region and year window, and the `groupby('Year')`. The model computes the union of the count sums that the callers name, plus the `polity2` sum and count. Each caller's dictionary (helper_function.py:149, :193, :218, :240 and :263) selects a subset of these, apart from the `Age` sum at line 218, which the model leaves out. The `TotalMedals` sum at line 193 is the sum of the three medal sums.

## Model

| member | source | states |
|---|---|---|
| Strings.Upper | helper_function.py:28-29 | `str.upper` keeps the length, maps each character by `UpperChar`, and leaves no lower-case letter |
| Strings.UpperIdempotent | helper_function.py:58 | upper-casing twice is upper-casing once; an upper-case string is unchanged |
| Strings.TrimLeft | helper_function.py:58 | `lstrip` removes a whitespace prefix and leaves a string that does not start with whitespace |
| Strings.TrimRight | helper_function.py:58 | `rstrip` removes a whitespace suffix and leaves a string that does not end with whitespace |
| Strings.Strip | helper_function.py:58 | the stripped country neither starts nor ends with whitespace |
| Strings.StripSpan | helper_function.py:58 | the stripped text is a contiguous slice of the input with only whitespace on either side |
| Strings.StripNoLower | helper_function.py:58 | stripping an upper-cased name leaves it upper-case |
| Strings.StripIdempotent | helper_function.py:58 | stripping twice is stripping once |
| Strings.ContainsAt | helper_function.py:106-107 | `sub in s` holds exactly when `sub` occurs at some offset of `s` |
| Strings.StrLessIrreflexive | helper_function.py:32 | Python's string order is irreflexive |
| Strings.StrLessTransitive | helper_function.py:32 | Python's string order is transitive |
| Strings.StrLessTotal | helper_function.py:32 | any two different strings are ordered one way or the other |
| Frames.Coalesce | helper_function.py:64-66 | the first cell when it is not null, otherwise the second |
| Frames.Lookup | helper_function.py:87-88 | `Series.map(dict)` on one cell: the value for a key of the map, null otherwise |
| Frames.Filter | helper_function.py:56 | a boolean mask keeps exactly the rows that pass it, and no more rows than the table has |
| Frames.FilterMultiset | helper_function.py:89-90 | a mask keeps every passing row as often as it occurs, and no other row |
| Frames.FilterFilter | helper_function.py:89-90 | two masks applied one after the other select what their conjunction selects |
| Frames.Distinct | helper_function.py:128 | `unique()` lists every value of the column exactly once |
| Frames.DistinctFirstAppearance | helper_function.py:128 | `unique()` lists values in the order of their first appearance |
| Frames.GroupFlatten | helper_function.py:128-132 | concatenating the groups of distinct keys and regrouping gives back each listed group |
| Frames.FlattenPermutation | helper_function.py:128-132 | concatenating the groups of all keys is a permutation of the table |
| Olympic.UpperTeams | helper_function.py:28 | the `Team` column is upper-cased, and nothing else changes |
| Olympic.UpperRegion | helper_function.py:29 | a region cell is upper-cased; a null one stays null |
| Olympic.UpperRegions | helper_function.py:29 | every region of the NOC table is upper-cased; code and row order are kept |
| Olympic.MatchNoc | helper_function.py:30 | one athlete's merged rows are exactly its pairings with region rows of the same code |
| Olympic.InnerJoin | helper_function.py:30 | the inner merge gives each athlete at most one row per region row; Olympic.InnerJoinMembers and Olympic.InnerJoinUnique state which rows |
| Olympic.InnerJoinMembers | helper_function.py:30 | a merged row exists exactly for an athlete and a region row that share a code |
| Olympic.InnerJoinUnique | helper_function.py:30 | with unique codes, the inner merge keeps each athlete with a known code once, in order, with its code's region |
| Olympic.Indicators | helper_function.py:31 | each merged row adds 1 to `Name`, 1 to one sex column, 1 to one season column, and at most 1 to the medal columns, none for a null medal |
| Olympic.Aggregate | helper_function.py:32-40 | in a group, `Sex_F + Sex_M` and `Season_Summer + Season_Winter` equal the `Name` count, and the medals total at most that |
| Olympic.AggregateCategories | helper_function.py:31-40 | each summed indicator column counts the group's rows of its category |
| Olympic.InsertKey | helper_function.py:32 | inserting a new key into a strictly sorted key list keeps it strictly sorted and adds exactly that key |
| Olympic.SortKeys | helper_function.py:32 | the group keys sort into strictly ascending order, as a permutation |
| Olympic.StrictlySortedNoDup | helper_function.py:32 | a strictly ascending key list has no repeated key |
| Olympic.KeyLessIrreflexive | helper_function.py:32 | the tuple order on group keys is irreflexive |
| Olympic.KeyLessTransitive | helper_function.py:32 | the tuple order on group keys is transitive |
| Olympic.KeyLessTotal | helper_function.py:32 | any two different group keys are ordered |
| Olympic.GroupKeys | helper_function.py:32 | the groups are the keys of the rows, each once, in ascending order |
| Olympic.GroupRows | helper_function.py:32-40 | one output row per group key, holding the aggregate of exactly that key's rows |
| Olympic.GroupBy | helper_function.py:32-40 | each grouped row has the key of some input row and aggregates exactly that key's rows; Olympic.GroupByKeys, Olympic.GroupByCounts and Olympic.GroupByTotal state the order, the sums and the total |
| Olympic.GroupByCounts | helper_function.py:32-40 | every grouped row counts at least one athlete row and satisfies the per-group sums |
| Olympic.GroupByKeys | helper_function.py:32-40 | grouped rows ascend strictly by key (one row per key); a key appears exactly when some input row has it |
| Olympic.MergedKeys | helper_function.py:28-32 | a group key occurs exactly when an athlete and a region row share the code and the region is not null; its region is upper-case |
| Olympic.PrepareOlympicKeys | helper_function.py:28-40 | the prepared keys ascend strictly, have upper-case regions, and come from the inputs exactly as the merge allows |
| Olympic.TotalNamesGroupRows | helper_function.py:32-40 | the `Name` column sums to the number of grouped rows |
| Olympic.GroupByTotal | helper_function.py:32-40 | counts add up: the `Name` column of the grouped table sums to the number of input rows |
| Olympic.RegionOfUpper | helper_function.py:29-30 | the region found for a code after upper-casing is the upper-cased region found before |
| Olympic.AttachWithRegion | helper_function.py:30-32 | rows kept for grouping are exactly the athletes whose code has a non-null region, in order, each with its code's region |
| Olympic.UpperTeamsRegion | helper_function.py:28-30 | upper-casing `Team` does not change which athletes have a region: the kept rows are the upper-cased kept athletes, in order |
| Olympic.PrepareOlympicDataset | helper_function.py:28-41 | the aggregated table satisfies the per-group sums and the region table comes back row for row; Olympic.PrepareOlympicKeys, Olympic.PrepareOlympicTotal and Olympic.PrepareOlympicNocs state its keys, its total and its region table |
| Olympic.PrepareOlympicTotal | helper_function.py:28-40 | with unique codes, the `Name` column sums to the number of athletes whose code has a non-null region |
| Olympic.PrepareOlympicNocs | helper_function.py:29-41 | the returned NOC table keeps every code and row; each region is the upper-cased input region, and a null region stays null |
| Olympic.TeamGameColumn | helper_function.py:105-107 | the `TeamGame` column has one cell per row, the rule applied to that row |
| Olympic.TeamGameIff | helper_function.py:105-107 | `TeamGame` holds iff the sport is a team sport and the event has "Relay" but neither "Single" nor "One" |
| Olympic.ColumnIsTrue | helper_function.py:108 | Python's identity test between a column object and the `True` singleton is false, whatever the column's cells |
| Olympic.AsWrittenGuard | helper_function.py:108-114 | the guard as written is false on every row |
| Olympic.DivideTeamMedals | helper_function.py:108-114 | the guarded medal division changes only medal cells, keeping keys and all other counts; a row whose guard is false is unchanged |
| Olympic.U8 | helper_function.py:115-116 | the `uint8` cast gives a value below 256 and leaves a value below 256 unchanged |
| Olympic.CastMedals | helper_function.py:115-116 | the cast touches only the three medal columns, reducing each to eight bits |
| Olympic.CorrectedRows | helper_function.py:105-116 | the corrected table keeps every row's key and non-medal counts, and each medal cell fits in a byte; Olympic.CorrectedRowsOnlyCast states that no medal is divided |
| Olympic.CorrectedRowsOnlyCast | helper_function.py:108-116 | no medal is divided: the result is the cast table, and it is the input itself when every medal count fits in a byte |
| Olympic.DivideIfTeam | helper_function.py:109-114 | dividing a medal count by its participant count gives at most 1, and exactly 1 when every participant won |
| Olympic.IntendedTeamMedals | helper_function.py:108-116 | with an element-wise guard, a team game's medal cells are at most 1, and gold is 1 exactly when every participant won gold; other rows only get the cast |
| Olympic.TeamGuardNeverFires | helper_function.py:108-116 | a relay row with four gold winners of four keeps gold 4 as written, where the intended guard gives 1 |
| Olympic.OlympicTable.CorrectTeamMedals | helper_function.py:96-117 | adds the `TeamGame` column and replaces the rows with the cast rows; it fails, with nothing written, when a sport is missing from the dictionary |
| Polity.LeftMatches | helper_function.py:60-62 | a left merge contributes exactly the one null row when nothing matches, and otherwise each match, in order |
| Polity.LeftMatchesMembers | helper_function.py:60-62 | a left-merge cell is a match, or null exactly when nothing matched |
| Polity.Cross | helper_function.py:60-62 | the two merges in sequence never drop a record; with one name match they give one row per code match |
| Polity.CrossMembers | helper_function.py:60-66 | each output row combines a name match and a code match, and every such pair appears |
| Polity.MergeAllMembers | helper_function.py:60-62 | every merged row comes from one record's merge, every record's merged rows are kept, and no record is lost |
| Polity.SelectedMembers | helper_function.py:56-58 | the selected records are exactly the normalised records from 1890 on |
| Polity.MergeRecordColumns | helper_function.py:60-70 | a record's merge is never empty and keeps its six columns |
| Polity.NormaliseCountry | helper_function.py:58 | the normalised country is upper-case and stripped |
| Polity.PreparePolityDataset | helper_function.py:56-73 | the left merges lose no record of 1890 or later; Polity.PreparePolityRows, Polity.PreparePolityAlternates and Polity.PreparePolityUnique state its rows and alternate columns |
| Polity.PreparedRowOrigin | helper_function.py:56-72 | each output row dates from 1890 on; its country is upper-case and stripped; it carries a record's columns |
| Polity.PreparedRecordKept | helper_function.py:56-72 | each record from 1890 on reaches the output with its columns |
| Polity.PreparePolityRows | helper_function.py:56-72 | every output row dates from 1890 on, with an upper-cased stripped country, and carries an input record; every such record yields a row |
| Polity.Combine | helper_function.py:64-66 | the merged row keeps the record's columns; its code is the name match's when there is one, else the code match's; its region is the name match's when that is not null, else the code match's |
| Polity.CombineNamed | helper_function.py:64-66 | a matched name row fixes `alternate_region` to the country and `alternate_noc` to that row's code |
| Polity.CombineUnnamed | helper_function.py:64-66 | without a name match, the code is the record's code exactly when it is in the table, and the region is that code row's region, null when the code is unknown |
| Polity.MergeRecordAlternates | helper_function.py:60-66 | the coalescing rule holds for every merged row of one record |
| Polity.PreparePolityAlternates | helper_function.py:60-72 | a country named in the region table gets that region and its code; otherwise the code match decides both columns |
| Polity.MergeRecordUnique | helper_function.py:60-62 | with unique regions and codes, a record's merge is exactly one row |
| Polity.PreparePolityUnique | helper_function.py:56-72 | with unique regions and codes, there is one output row per record from 1890 on, in order, carrying its columns |
| Polity.FillCodes | helper_function.py:87-88 | only null `alternate_noc` cells are filled, from `country_dict[country]`; all else is unchanged |
| Polity.FillCodesIdempotent | helper_function.py:87-88 | filling the null codes a second time changes nothing |
| Polity.DropExcluded | helper_function.py:89-90 | a row survives exactly when it is neither ORANGE FREE STATE nor `polity2 == -66`; a null score survives |
| Polity.DropExcludedKept | helper_function.py:89-90 | the two filters in sequence are the one filter on both conditions, so the survivors keep their order |
| Polity.FillRegions | helper_function.py:91-92 | only null `alternate_region` cells are filled, by mapping the row's code through `country_mapper` |
| Polity.MapPolityRegion | helper_function.py:87-93 | the returned table has no more rows than the input and no excluded row; Polity.MapPolityRegionKept states each row |
| Polity.MapPolityRegionKept | helper_function.py:87-93 | one output row per kept input row, in order; its code is filled first, and its region comes from the filled code |
| Polity.PolityTable.FillNullCodes | helper_function.py:87-88 | the caller's table has its null codes filled in place |
| Polity.PolityTable.FillNullRegions | helper_function.py:91-92 | the table has its null regions filled in place |
| Polity.MapPolityRegionDataset | helper_function.py:76-93 | the caller's table gets the code fill; a fresh table holds the filter and region fill applied to it |
| Polity.Diff | helper_function.py:130-131 | the shift is null when either score is null, otherwise the difference of the two |
| Polity.ShiftBlock | helper_function.py:129-131 | each row of a country's block gets its score minus the next row's; the last row gets none |
| Polity.GetPolityShiftColumn | helper_function.py:127-133 | the loop's table is the country blocks in first-appearance order, each shifted |
| Polity.UnshiftedBlocks | helper_function.py:128-132 | dropping the shift column from the concatenation gives the concatenated groups |
| Polity.CountriesDistinct | helper_function.py:128 | the country list has no repeat and covers every country of the table |
| Polity.PolityShift | helper_function.py:127-133 | the output has the input's rows, as a multiset, with a shift column added; Polity.PolityShiftAdjacent and Polity.PolityShiftCountryOrder state the shifts and the order |
| Polity.PolityShiftWithinCountry | helper_function.py:129-132 | one country's rows in the output are that country's rows of the input, in the same order |
| Polity.ShiftBlockAdjacent | helper_function.py:129-131 | within a block, each shift is the difference with the next row; the last row has none |
| Polity.GroupCountry | helper_function.py:129 | a country's group contains only that country's rows |
| Polity.AdjacentConcat | helper_function.py:132 | appending blocks whose seam joins two countries keeps the shift rule |
| Polity.ShiftBlocksCountries | helper_function.py:128-132 | the appended blocks contain only rows of the listed countries |
| Polity.ShiftBlocksAdjacent | helper_function.py:128-132 | with distinct countries, the appended blocks keep the shift rule |
| Polity.PolityShiftAdjacent | helper_function.py:127-133 | a row's shift is its score minus the next output row's when it has the same country; else null; the last row has none |
| Polity.ShiftBlocksOrdered | helper_function.py:128-132 | the blocks come in the order of the country list |
| Polity.PolityShiftCountryOrder | helper_function.py:127-133 | the output lists countries by first appearance in the input, and only the input's countries |
| Plot.YearRows | helper_function.py:171-174 | the grouped years lie inside the window and ascend strictly, so each year has at most one row |
| Plot.YearRowsRows | helper_function.py:172-174 | every grouped row aggregates the non-empty group of its year |
| Plot.YearRowsPresent | helper_function.py:172-174 | every year of the window with a non-empty group has a row |
| Plot.YearRowsExt | helper_function.py:172-174 | the grouped table depends only on the per-year groups in the window |
| Plot.YearPairsOfYear | helper_function.py:170-172 | one polity row's merged rows of a year are its pairings with that year's Olympic rows of the country |
| Plot.GroupOfYear | helper_function.py:169-172 | a year's group is every pairing of a country polity row of that year with an Olympic row of the country and year |
| Plot.SumCountsConcat | helper_function.py:173 | summing the count columns distributes over concatenation |
| Plot.TotalMedalsLinear | helper_function.py:193-196 | the group sum of the derived `TotalMedals` column equals the sum of the group's three medal sums |
| Plot.PairedCounts | helper_function.py:170-173 | one polity row's pairings sum the Olympic columns once |
| Plot.PairedPolity2 | helper_function.py:170-173 | one polity row's pairings repeat its score once per Olympic row |
| Plot.BlockCounts | helper_function.py:170-173 | a year's Olympic sums are the country's Olympic sums times the number of polity rows of that year |
| Plot.BlockPolity2Sum | helper_function.py:170-173 | a year's score sum is the polity scores' sum times the number of Olympic rows |
| Plot.BlockPolity2Count | helper_function.py:170-173 | a year's non-null score count is the polity count times the number of Olympic rows |
| Plot.BlocksNonEmpty | helper_function.py:170-172 | a year's group is non-empty iff that year has a country polity row and an Olympic row |
| Plot.GroupPresent | helper_function.py:169-172 | within the window, a year's group is non-empty iff both tables have a row of the country that year |
| Plot.ModifyDataForPlot | helper_function.py:168-175 | output years ascend strictly, at most one row per year, all in `start_year..end_year`; Plot.PlotYearHasRows, Plot.PlotYearPresent and Plot.PlotRowValues state which years and what values |
| Plot.PlotYearHasRows | helper_function.py:169-175 | every plotted year has a polity row mapped to the country and an Olympic row of the country |
| Plot.PlotYearPresent | helper_function.py:169-175 | every window year with rows of the country in both tables is plotted |
| Plot.PlotRowValues | helper_function.py:169-175 | a plotted row sums each pairing of that year's country polity rows and Olympic rows, so the score mean is the mean of that year's polity rows |
| Plot.PlotOnlyCountry | helper_function.py:168-175 | the output is built only from the country's rows: removing other countries' rows from both tables changes nothing |

## Left out

- File loading (`read_csv`, `read_excel`) is left out. The loaded tables are the inputs of the model.
- All plotting is left out: `plot_figure` and the `plot_*` and `country_male_female_ratio` wrappers, which are presentation over a charting library, plus the `print` in their exception handler.
- Floating-point aggregates are left out:
  - the `Age` mean of `prepare_olympic_dataset`;
  - the rounded medal-to-participant ratio of one plot wrapper.
- The `polity2` mean of the plot table is kept as its sum and its count of non-null cells, whose quotient is the mean.
- Plot.ModifyDataForPlot: the aggregation dictionary is not a parameter. The model computes the union of the count sums the callers name, plus the `polity2` sum and count; each caller's dictionary selects a subset, and pandas returns only the columns it names.
- Plot.ModifyDataForPlot: the `Age` sum of helper_function.py:218 is a floating-point aggregate and is not modelled.
- Strings.Upper: upper-cases the ASCII letters only. Python's `str.upper` also maps non-ASCII cased letters, and some of them to several characters.
- Null keys are not modelled. The athlete `NOC`, the polity `country` and `scode`, the NOC code, and the Olympic `Sport`, `Event` and `City` are plain strings. The model does not cover pandas's matching of a null key to a null key in a merge, or a null country in `unique()`.
- The index labels that `reset_index`, `concat` and the boolean filters carry are not modelled. Rows are identified by their position and their values.
- `get_dummies` naming is not modelled beyond the seven indicator columns the aggregation names.
- The expression at lines 67-68 is not modelled. It computes a filtered table and discards it, so it has no effect.
- A `SettingWithCopy` view is not modelled.
  - The shift column of `get_polityshift_column` is written to a filtered slice; the model treats it as a new table.
  - The region fill of `map_polity_region_dataset` is applied to the filtered table, which the model treats as a copy. Only the code fill reaches the caller's table.
- `olympic_df.copy(deep=True)` in `modify_data_for_plot` needs no counterpart. The model's tables are values, so no function can change its inputs.
- Olympic.PrepareOlympicDataset: `get_dummies` makes an indicator column only for a value that occurs. When one of the seven values never occurs in the merged table (no female or no male athlete, no Bronze, Silver or Gold medal, no Summer or no Winter row), or the merged table is empty, a column that the `.agg` dictionary names is missing and pandas raises `KeyError`. The model gives zero sums or an empty table instead.
- Olympic.OlympicTable.CorrectTeamMedals: pandas raises `KeyError` on a sport missing from `sport_dict`. The model reports that as `ok == false`, with the table unchanged.
- Olympic.U8: `astype('uint8')` of a count of 256 or more is taken to wrap around, as NumPy's integer cast does. Olympic.CorrectedRowsOnlyCast states that the table is unchanged only when every medal count is below 256.
- Olympic.IntendedTeamMedals: the float quotient followed by the `uint8` cast is written as integer division. The two agree for the non-negative counts involved.

## Findings

| source | as written | input that shows it | evidently intended | confidence | as-written member | corrected member |
|---|---|---|---|---|---|---|
| helper_function.py:108-114 | the guard `olympics_df.TeamGame is True` tests whether the column object is the constant `True`, so it is false on every row and no team medal is divided | a relay row of a team sport with `Medal_Gold == Name == 4` keeps `Medal_Gold == 4` | an element-wise `TeamGame` guard: a team game's medal count divided by its participant count, giving 1 for the gold of a four-person relay | not executed | Olympic.TeamGuardNeverFires | Olympic.IntendedTeamMedals |
