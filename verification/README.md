# diabetes-trends, cleaning and panel core, in Dafny

This project models the deterministic part of the diabetes-trends pipeline.
That part turns CDC "line chart" CSV exports into a state-by-year panel and
train / validation / test splits. Everything around it (file system, YAML,
pandas parsing, statistics and plotting) is left out.

- **Cleaning** (`src/clean.py`):
  - the two lookup tables `STATE_LOOKUP` and `NAME_TO_USPS`;
  - `standardize_colnames`;
  - the header-line search of `read_cdc_csv`;
  - `map_headers` with its reverse alias dictionary;
  - `ensure_geo` and `fix_units`;
  - the table steps of `clean_one_file`: indicator inference, the two CDC renames, the pseudo-row filter and the 2014–2023 year filter.
- **Preprocessing** (`src/preprocess.py`):
  - `infer_label_from_path` and `prepare_df`;
  - the key choice, overlap drop and outer-join fold of `outer_join_on_keys`;
  - `infer_year_bounds` and `time_splits`;
  - the FIPS filter, the (year, state_fips) sort and the X / y separation in `main`.
- **Regions** (`diabetes_region_growth_model.py`): the four census-region sets, `assign_region`, and the proportion-to-percent rescale of the prevalence column.

A dataframe is a `Table`: a list of column names plus rows, where each row
holds one `Cell` per column by position. The cell kinds are:

- `Null` for NaN or `<NA>`;
- `Int` for an Int64 value;
- `Num` for a float, as a Dafny `real`;
- `Str` for text.

Because rows are positional, a rename that produces a duplicated name is
representable. When a later step selects such a column by name, pandas
returns a frame instead of a series. The cleaning steps report that case as
`AmbiguousColumn` rather than assuming it away.

Files:

- `wrappers.dfy`: `Option` and `Result`.
- `text.dfy`: the ASCII string operations: strip, lower, upper, substring test.
- `tables.dfy`: the table model, rename and row filtering.
- `colnames.dfy`, `header.dfy`, `geo.dfy`, `aliases.dfy`, `units.dfy` and `clean.dfy`: the cleaning stage.
- `labels.dfy`, `merge.dfy`, `splits.dfy` and `panel.dfy`: the preprocessing stage.
- `regions.dfy`: the region model.

## Model

| member | source | states |
|---|---|---|
| `HeaderScan.FindHeader` | src/clean.py:55-67 | Fails exactly when no line holds a comma. Otherwise the chosen line holds a comma. If one of the first 50 lines holds ",", "State" and "Year" (case-sensitive), the first such line is chosen. If none does, the first line with a comma is chosen. |
| `ColumnNames.CollapseRuns` | src/clean.py:48 | The regex replacement yields only `[a-z0-9_]` with no "__". It is empty exactly when its input is. It starts with "_" exactly when the input starts with a separator. |
| `ColumnNames.CollapseRunsFixed` | src/clean.py:48 | Text over `[a-z0-9_]` without "__" passes the run replacement unchanged. |
| `ColumnNames.Standardize` | src/clean.py:45-49 | Every standardized name uses only `[a-z0-9_]`, has no "__", and neither starts nor ends with "_". |
| `ColumnNames.StandardizeColumns` | src/clean.py:45-49 | Rows and column count are kept. Column k gets the standardized form of name k, and every name is canonical. |
| `ColumnNames.StandardizeFixpoints` | src/clean.py:45-49 | A name is left unchanged if and only if it is already canonical. |
| `ColumnNames.StandardizeIdempotent` | src/clean.py:45-49 | Standardizing a standardized name changes nothing. |
| `ColumnNames.StandardizeAlphanumeric` | src/clean.py:47-48 | A name of ASCII letters and digits is only lower-cased. |
| `Geo.NameToUsps` | src/clean.py:27-37 | Every full-name entry maps to a key of `STATE_LOOKUP`. Every full name is stripped, longer than two characters, and has a lower-case second letter. |
| `Geo.StateLookupInjective` | src/clean.py:20-26 | No two USPS codes share a FIPS number. |
| `Geo.LookupKeysAreUpperPairs` | src/clean.py:20-26 | Every key of `STATE_LOOKUP` is two upper-case letters. |
| `Geo.FipsCell` | src/clean.py:87 | The FIPS cell is a number exactly when the state is text that is the USPS code of some FIPS number. The number then leads back to that code (`CodeOfFips`), so the lookup round-trips; otherwise the cell is NaN. |
| `Geo.CodesLookUp` | src/clean.py:20-26 | Every code the inverse table yields looks up, in `STATE_LOOKUP`, to the number it came from. |
| `Geo.NormalizeStateIdempotent` | src/clean.py:83-85 | Normalizing an already normalized state text changes nothing. |
| `Geo.NormalizeStateCellIdempotent` | src/clean.py:83-85 | The same holds cell-wise, including the "nan" a missing state becomes. |
| `Geo.FullNamesResolve` | src/clean.py:84-87 | A full state name normalizes to its USPS code, which has a FIPS number. |
| `Geo.CodesResolve` | src/clean.py:84-85 | A known code in any letter case normalizes to its upper-case form. |
| `Geo.NormalizeStateExamples` | src/clean.py:83-85 | "Texas", " Texas " and "tx" all become "TX". |
| `Geo.EnsureGeo` | src/clean.py:82-88 | Without a `state` column the table is unchanged. Otherwise only the state cells change, to their normalized form. `state_fips` is appended only when absent, and then holds the lookup of the normalized state. |
| `Geo.EnsureGeoIdempotent` | src/clean.py:82-88 | Applying `ensure_geo` to its own output changes nothing. An existing `state_fips` is never overwritten. |
| `Aliases.Assign` | src/clean.py:76-80 | The dictionary has exactly the written keys. A key maps to the value of its last write, and every entry comes from some write. |
| `Aliases.AssignConcat` | src/clean.py:77-80 | Performing two runs of writes is a right-biased union: the later run wins. |
| `Aliases.GroupWritesFromEntries` | src/clean.py:78-80 | Every write of a group maps a lower-cased alias of an entry to that entry's key. |
| `Aliases.ReverseAliasPrecedence` | src/clean.py:77-80 | An alias listed in several groups resolves through the last group scanned: features over targets over standard_keys. |
| `Aliases.GroupMapSound` | src/clean.py:78-80 | A group maps an alias only to the key of an entry that lists it, compared after lower-casing. |
| `Aliases.MapHeaders` | src/clean.py:81 | Rows, column count and order are kept. A name that is a key of the reverse dictionary is replaced by its standard key; any other name is kept. |
| `Aliases.AsPercent` | src/clean.py:98 | An absent `store_as_percent` means percent mode. A present but empty value is null and means proportion mode, as `bool(None)` is false. A boolean value is taken as it is. |
| `Units.ColumnMax` | src/clean.py:102 | The maximum is absent exactly when no cell is numeric. Otherwise some cell attains it and it bounds every numeric cell. |
| `Units.FixCell` | src/clean.py:101-106 | A cell becomes Null exactly when it is not numeric. Otherwise its value is the clipped, rescaled value. An unrescaled integer stays an integer. |
| `Units.FixUnits` | src/clean.py:97-107 | Names and row count are kept, and non-unit columns are untouched. A unit cell becomes Null exactly when it is not numeric, and is otherwise non-negative. |
| `Units.FixUnitsValue` | src/clean.py:101-106 | Each unit value is clipped after the rescale chosen from the column's own maximum. |
| `Units.ProportionsBecomePercent` | src/clean.py:102-106 | In percent mode, a column whose maximum is at most 1 becomes `max(0, 100·x)`, so every value lies in [0, 100]. |
| `Units.PercentColumnsOnlyClipped` | src/clean.py:102-106 | In percent mode, a column holding some value above 1 is only clipped. |
| `Units.ProportionMode` | src/clean.py:104-106 | In proportion mode, a column holding some value above 1 is divided by 100 and clipped; any other column is only clipped. |
| `Units.FixUnitsStable` | src/clean.py:97-107 | In percent mode, when every unit column holds a value above 1, a second pass changes nothing. |
| `Units.AllMissingStaysMissing` | src/clean.py:101-106 | A unit column with no numeric value comes out all Null and is not rescaled. |
| `Clean.PhysicalInactivityRedundant` | src/clean.py:121 | The "physical inactivity" test is subsumed by the "inactivity" test. |
| `Clean.InferIndicator` | src/clean.py:119-126 | Obesity is chosen exactly when "obesity" or "bmi" occurs. Then inactivity, then smoking, each only when the earlier markers are absent. Otherwise the indicator is diabetes. |
| `Clean.PrevalenceNameUniform` | src/clean.py:129 | `percentage` always becomes `<indicator>_prevalence`; the diabetes special case agrees. |
| `Clean.SecondRenameNoOp` | src/clean.py:128-138 | The second rename of known CDC names never changes a name left by the first. |
| `Clean.LeadingUnderscoreKeyUnused` | src/clean.py:132 | After standardization no name starts with "_", so the `_upper_limit` key never fires. |
| `Clean.DropPseudoRows` | src/clean.py:141-143 | Without a `state` column nothing is dropped. A duplicated `state` is an error. Otherwise the survivors are exactly the rows whose stripped, lower-cased state is none of the four aggregate labels. |
| `Clean.DropPseudoRowsConcat` | src/clean.py:141-143 | The pseudo-row filter keeps surviving rows in their original order. |
| `Clean.UnitedStatesDropped` | src/clean.py:141-143 | Of "TX", "United States" and "CA", the aggregate row goes and the other two stay, in order. |
| `Clean.DuplicatedUnitColumn` | src/clean.py:99-101 | Finds a duplicated unit column exactly when one exists. |
| `Clean.CoerceStep` | src/clean.py:90-95 | `coerce_types` fails exactly when `year` or `state_fips` names several columns, since `to_numeric` rejects a frame. A table that passes is handed on unchanged. |
| `Clean.UnitsStep` | src/clean.py:148 | `fix_units` fails exactly when a unit column name is duplicated; otherwise it is applied. |
| `Clean.KeepStudyYears` | src/clean.py:150-152 | Without a `year` column nothing is dropped. A duplicated `year` is an error. Otherwise the survivors are exactly the rows whose year is present and in [2014, 2023]. |
| `Clean.KeepStudyYearsConcat` | src/clean.py:150-152 | The year filter keeps surviving rows in their original order. |
| `Clean.CdcNamed` | src/clean.py:115-138 | Rows are kept. Column k is named by standardizing parsed name k, then renaming it through the map of the indicator the file name and first line report; the second rename leaves it alone. |
| `Clean.Finish` | src/clean.py:140-152 | The row-level steps fail exactly when a name they select is duplicated: `state` before or after the alias renames, or `year`, `state_fips` or a unit column after them. They never add rows. |
| `Clean.CleanOneFile` | src/clean.py:115-152 | Cleaning fails for lack of a first line exactly when the file has no lines. Otherwise it fails exactly when a selected name of the renamed table is duplicated. The result is well formed and never longer than the parsed table. |
| `Clean.CleanedTableShape` | src/clean.py:140-152 | A cleaned table with a `state` column has a `state_fips` column. Every year in it is a study year, and every unit cell is Null or non-negative. |
| `Clean.FinishSurvivors` | src/clean.py:140-152 | When nothing is ambiguous and the alias renames neither produce nor replace `state` or `year`, cleaning succeeds. Its rows are then, one for one and in order, the input rows whose state is no aggregate label and whose year is a study year. Each keeps its year and carries its normalized state. |
| `Clean.TenRowsAndTheNation` | src/clean.py:140-152 | An aggregate row plus ten rows of one state for 2014 to 2023 give exactly those ten rows, in year order, with the normalized state. |
| `Clean.TexasAndTheNation` | src/clean.py:140-152 | With "TX" and "United States", the ten "TX" rows come out, one per year from 2014 to 2023. |
| `Labels.Suffix` | src/preprocess.py:8 | `Path.suffix`: from the last dot, when that dot is neither first nor last; otherwise empty. |
| `Labels.StemSuffix` | src/preprocess.py:8 | Stem followed by suffix gives back the file name. |
| `Labels.StemExamples` | src/preprocess.py:8 | "obesity_2020.csv" has stem "obesity_2020"; ".csv" and "data." are their own stems. |
| `Labels.InferLabel` | src/preprocess.py:7-13 | The lower-cased stem is checked for obesity, inactivity, smoking and diabetes, in that precedence. "unknown" is returned exactly when none occurs. |
| `Labels.TargetNameUniform` | src/preprocess.py:26 | The diabetes special case of the target name agrees with `<label>_prevalence`. |
| `Labels.CiMap` | src/preprocess.py:19-21 | The interval map holds `ci_low` and `ci_high` exactly when the table has them, mapped to `<label>_ci_low` and `<label>_ci_high`. |
| `Labels.RenameCi` | src/preprocess.py:19-23 | Rows kept; each name goes through the interval map. |
| `Labels.RenamePercentage` | src/preprocess.py:25-27 | Rows kept; only `percentage` is renamed, to the target name. |
| `Labels.PrepareDf` | src/preprocess.py:15-29 | Rows and column count are kept. |
| `Labels.PrepareDfRenamesOnly` | src/preprocess.py:15-29 | The conditional renames equal one rename of `ci_low`, `ci_high` and `percentage` to `<label>_ci_low`, `<label>_ci_high` and `<label>_prevalence`. Every other name stays in place. |
| `Merge.SharedKeys` | src/preprocess.py:52 | The merge keys are the identifying columns present in both tables, without repeats. |
| `Merge.YearFallbackDead` | src/preprocess.py:52-54 | The `["year"]` fallback never changes the key list. |
| `Merge.DropColumns` | src/preprocess.py:57-59 | Exactly the named columns go, and the others keep their order. Duplicate-free names stay duplicate-free, and the remaining cells are unchanged. |
| `Merge.Matches` | src/preprocess.py:61 | The matches of a key tuple are rows carrying it; there are none exactly when no row carries it. |
| `Merge.MatchesAreFilter` | src/preprocess.py:61 | The matches are every row carrying the key tuple and no other, in table order. |
| `Merge.KeyCellsMeet` | src/preprocess.py:61 | Two key cells meet exactly when both are NaN, both are numbers of equal value (int or float), or both are the same text. |
| `Merge.OuterJoin` | src/preprocess.py:61 | The joined columns are the left columns followed by the right non-key columns, and every row has one cell per column. |
| `Merge.OuterJoinUniqueKeys` | src/preprocess.py:61 | With unique key tuples on both sides, the join has unique key tuples, and they are exactly the union of both sides' tuples. |
| `Merge.MergePair` | src/preprocess.py:51-61 | A merge step fails exactly when no identifying column is shared; the shared keys survive in the result. |
| `Merge.MergePairIsJoin` | src/preprocess.py:56-61 | A merge step is the outer join with the overlapping non-key columns dropped from the right. Dropping them keeps the right key tuples. |
| `Merge.MergePairColumns` | src/preprocess.py:56-61 | The merged columns are the left columns, then the right columns the left lacks, in the right table's order. No name repeats, and every row is as wide as the header. |
| `Merge.MergePairUniqueKeys` | src/preprocess.py:61 | Unique key tuples on both sides stay unique after a merge step. |
| `Merge.MergePairKeyUnion` | src/preprocess.py:61 | A merge step's key tuples are exactly those of either side. |
| `Merge.MergePairRows` | src/preprocess.py:61 | With unique right keys: left row i opens output row i unchanged. An unmatched left row is Null in the right columns, and a matched one carries the right row's values. Right-only rows are Null in the left non-key columns. |
| `Merge.MergeAll` | src/preprocess.py:50-64 | The fold fails with `NoFrames` exactly on an empty list; any other failure is a missing shared key. A single table is returned as it is. A result is well formed, repeats no name, and starts with the first table's columns. |
| `Merge.MergeAllSucceeds` | src/preprocess.py:50-64 | A non-empty fold succeeds exactly when every table after the first shares an identifying column with some table before it. |
| `Merge.MergeAllColumns` | src/preprocess.py:50-64 | The merged names are exactly the names of the input tables. |
| `Merge.MergeAllKeys` | src/preprocess.py:50-64 | When every input has all three identifying columns and unique key tuples, the merge succeeds. Its key tuples are then unique and exactly those found in some input. |
| `Splits.YearBounds` | src/preprocess.py:66-68 | The bounds are absent exactly when no row has a year. Otherwise both are attained and enclose every year. |
| `Splits.SplitRows` | src/preprocess.py:71-77 | Every row of every split comes from the input, has a non-null target and has a year. |
| `Splits.TimeSplits` | src/preprocess.py:70-78 | Fails exactly without a `year` column. Every split row is a panel row with a non-null target and an integer year. |
| `Splits.WideSpanOrdered` | src/preprocess.py:73-77 | With at least three years, training years lie below `y_max - 1`. Validation holds `y_max - 1` and test holds `y_max`, so the splits are disjoint. |
| `Splits.WideSpanCovers` | src/preprocess.py:71-77 | With at least three years, the splits together hold every dated target-bearing row exactly once. |
| `Splits.TwoYears` | src/preprocess.py:74-77 | With a two-year span, training and validation are the same rows, all of the earlier year, and test holds the later year. Validation and test together hold every dated target-bearing row exactly once. |
| `Splits.OneYear` | src/preprocess.py:74-77 | With a single year, all three splits are the same rows: every dated target-bearing row. |
| `Splits.NoYears` | src/preprocess.py:66-78 | Without any dated target-bearing row, all splits are empty. |
| `Panel.SortRows` | src/preprocess.py:85 | The result is sorted by (year, state_fips), with NaN last, and is a permutation of the input. |
| `Panel.SortRowsStable` | src/preprocess.py:85 | The sort is stable: rows with the same (year, state_fips) key keep their input order, as pandas' two-key lexsort does. |
| `Panel.BuildPanel` | src/preprocess.py:83-85 | Fails exactly when `year` or `state_fips` is missing. Otherwise no row lacks a FIPS code, and the rows are sorted and are a permutation of the FIPS-bearing rows. |
| `Panel.SplitXY` | src/preprocess.py:91-93 | X lacks the target, y is exactly the target column, and both have the same number of rows. |
| `Panel.SplitXYRecovers` | src/preprocess.py:91-93 | For a split whose rows all have a year, X and y together give back every cell, row by row. |
| `Panel.SplitOutputs` | src/preprocess.py:88-93 | Nothing is produced without the target column. Otherwise the three pairs are the X / y separations of the train, val and test rows of `time_splits`, in that order. |
| `Panel.SplitOutputsRecover` | src/preprocess.py:88-93 | Each written pair gives back every cell of its split's rows, row by row: the target from y, every other column from X. |
| `Panel.Preprocess` | src/preprocess.py:82-93 | Fails with no tables exactly when there are none, and passes on any other merge failure. It succeeds exactly when the merge does and the merged table has `year` and `state_fips`. A produced panel has the merged columns, including `year` and `state_fips`. It has no row without a FIPS code, is sorted, and is a permutation of the merged rows that have one. The pairs are those of `SplitOutputs`, and they exist exactly when the target column does. |
| `Panel.PreprocessSucceeds` | src/preprocess.py:82-93 | For a non-empty list, the driver succeeds exactly when the tables chain on shared identifying columns, some table has `year` and some has `state_fips`. |
| `Regions.AssignRegion` | diabetes_region_growth_model.py:32-42 | The result is one of the five region names. It is "Other" exactly when the stripped, upper-cased input is not a `STATE_LOOKUP` key. |
| `Regions.RegionsCoverLookup` | diabetes_region_growth_model.py:27-30 | The union of the four sets is exactly the 51 keys of `STATE_LOOKUP`. |
| `Regions.RegionsDisjoint` | diabetes_region_growth_model.py:27-30 | The four region sets are pairwise disjoint. |
| `Regions.AssignRegionOrderFree` | diabetes_region_growth_model.py:32-42 | The order of the membership tests does not matter: the result is the one set holding the code. |
| `Regions.FullNamesAreOther` | diabetes_region_growth_model.py:42 | A full state name such as "Texas" lands in "Other". |
| `Regions.AssignRegionExamples` | diabetes_region_growth_model.py:32-42 | "TX" is South; "Texas" is Other. |
| `RegionRescale.TimesHundred` | diabetes_region_growth_model.py:23 | A numeric cell is multiplied by 100; other cells are kept. |
| `RegionRescale.RescalePrevalence` | diabetes_region_growth_model.py:22-23 | The rescale keeps the length and keeps exactly the missing cells missing. |
| `RegionRescale.MaxIsPeak` | diabetes_region_growth_model.py:22 | The computed maximum is attained and bounds the column. |
| `RegionRescale.PeakIsMax` | diabetes_region_growth_model.py:22 | Any attained bound is the computed maximum. |
| `RegionRescale.RescaleProportions` | diabetes_region_growth_model.py:22-23 | A column whose maximum m is at most 1.01 has every value multiplied by 100. Its new maximum is 100·m, at most 101. |
| `RegionRescale.RescaleKeeps` | diabetes_region_growth_model.py:22-23 | A column whose maximum exceeds 1.01, or that has no value, is unchanged. |

Two facts of the code worth knowing:

- The three time splits overlap when the target-bearing rows span fewer than three years: `Splits.TwoYears` and `Splits.OneYear` state it.
- The region model rescales below 1.01 (`diabetes_region_growth_model.py:22`), while `fix_units` uses 1.0. Both constants are kept.

## Left out

- File system and process plumbing is not modelled: the root directory walk, `mkdir`, YAML loading, `read_text`, `glob`, CSV and parquet reads and writes, and the cleaning log. The configuration is a `Config` value, a file is its list of lines, and the parsed CSV is a `Table` parameter.
- The save block of `clean_one_file` and the duplicate save in the cleaning `main` are not modelled. The block always raises `NameError` on `out_parquet` and returns from its `except` clause; only the table it returns is modelled.
- `read_cdc_csv`'s parser fallback and the `pd.read_csv` retry are not modelled, because they are tokenizer behaviour. Only the header search is modelled.
- The conversions of `coerce_types` and string-to-number parsing are not modelled: cells arrive typed. A year counts only when it is an `Int` cell, as after the Int64 cast. The failure of `coerce_types` on a duplicated name is modelled (`Clean.CoerceStep`).
- `load_interim` and the output writes of `preprocess.main` are not modelled. `Panel.Preprocess` starts from the loaded tables.
- Statistics (group means, standard errors, OLS and mixed models, sklearn) and all plotting are not modelled. So are the full-name warning of the region model and the CSV load at its top.
- Strings are ASCII: `lower`, `upper` and `strip` have no Unicode case folding or Unicode white space.
- `Merge.OuterJoin`: the output row order is the left rows, then the unmatched right rows. pandas sorts an outer merge by the keys instead. So the positions that `Merge.MergePairRows` states are those of the model's order, and only the row contents and key sets carry over to pandas. Key cells compare as `Merge.KeyCell` says: numbers by value, so an `Int` key meets a `Num` key of equal value, and NaN meets NaN. A text key never meets a numeric one, whereas pandas refuses to merge a text key column with a numeric one (ValueError); that error is not modelled. Nor is the dtype pandas gives a key column where int and float keys meet: each output row keeps the key cells of the row it comes from.
- `Merge.MergePairRows`: "left row i opens output row i" and "right-only rows come after the left rows" describe the model's left-then-right order, not pandas' key-sorted order. What carries over is that each left row appears, extended, in the output, and that each right-only row appears padded.
- `Merge.MergeAll`: requires duplicate-free column names in every input, as tables read back from CSV have. The key-uniqueness results (`Merge.MergeAllKeys`, `Merge.OuterJoinUniqueKeys`) assume unique key tuples on each side, which the source does not check.
- `Panel.SortRows`: text in a sort column is treated as NaN, whereas pandas would raise on mixed types.
- `Geo.NormalizeStateCell`: a numeric state cell is left as it is rather than turned into its text. No numeric text is a state name or code, so the FIPS lookup is unaffected.
- `Clean.DropPseudoRows`: only text cells can be aggregate labels; a number or NaN never prints as one.
- `Units.FixCell`: text in a unit column becomes Null, as `to_numeric(errors="coerce")` does for text that does not parse. Numeric text is out of scope with coercion.
- `Regions.AssignRegion`: takes text; `str()` of a non-text cell is not modelled.
- `RegionRescale.RescalePrevalence`: requires a column without text, since `max()` raises on text. A column with no value has a NaN maximum and is left alone.
- `Splits.TimeSplits`: with no dated target-bearing row, pandas compares against NaN bounds and every split is empty. The model states this with absent bounds (`Splits.NoYears`).
- `Aliases.AsPercent`: a YAML list or mapping as the value of `store_as_percent` is not modelled; scalar values follow Python truthiness.
- `Labels.PrepareDf`: the unused `keep` list of `prepare_df` is not modelled. `prepare_df` and `infer_label_from_path` are modelled on their own, because `preprocess.main` never calls them.
