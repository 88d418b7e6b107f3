# Solar-radiation data cleaning and quality checks, in Dafny

This project models the data-preparation core of the Solar-radiation-data-analysis
repository. It proves properties of that model.

The core is two Python modules that work on a pandas DataFrame of weather-station
readings:

- `scripts/data_clean.py` cleans the table: it drops duplicate rows and rows missing a
  critical value, fills gaps and replaces IQR outliers by the column mean. It also
  clamps negative readings to zero, maps wind directions to compass sectors, averages
  wind speed per sector, computes z-scores and flags rows whose z-score is large.
- `scripts/data_quality_checker.py` reports on a table's quality: missing values per
  column, actual against expected dtypes, duplicate rows, negative counts and IQR
  outlier counts.

The modules of the model:

| file | module | contents |
|---|---|---|
| wrappers.dfy | `Wrappers` | `Option` (`None` is a missing value), `Result`, `Outcome` |
| seqs.dfy | `Seqs` | boolean masks (`Kept`, `Filter`), `Dedup`, `Duplicated`, index composition |
| frame.dfy | `Frame` | the table: an index and named columns, each numeric, text or categorical; column lookup with `KeyError` / `TypeError`; row filtering; the mutable `DataFrame` class |
| stats.dfy | `Stats` | mean ignoring missing cells; numpy's linear-interpolation quantile over a sorted copy; the IQR fences with factor 1.5; sample variance (ddof 1); symbolic z-scores |
| quality.dfy | `QualityChecker` | the five quality reports |
| clean.dfy | `DataClean` | the seven cleaning and transformation functions |
| worked.dfy | `WorkedExample` | the wind-speed column [1, 2, 3, 100] traced through the fences, the outlier count and the mean replacement |

Functions that only compute a value are Dafny functions.

In-place updates are methods:
- `replace_negative_values` and `normalize_wind_direction` assign a column of the
  caller's DataFrame. They are methods of the `DataClean` module that take a
  `DataFrame` object and reassign its `columns` field.
- The loops of `check_data_types`, `detect_outliers_iqr`, `calculate_z_scores` and step
  5 of `clean_data` are methods with `for` loops. Each is proved against a
  specification function or predicate.

### Edge cases

- **180°:** `pd.cut` bins are closed on the right, so a direction of exactly 180° falls
  in the SE sector (135, 180] (`DataClean.BucketExamples`).
- **No rows:** the missing percentage is `isnull().mean() * 100`, which is NaN when
  the table has no rows (`QualityChecker.CheckMissingValues`).
- **No columns:** pandas treats a frame without columns as empty. `duplicated()` then
  finds nothing and `drop_duplicates()` keeps every row
  (`QualityChecker.CheckDuplicates`, `DataClean.DropDuplicatesWithoutColumns`).
- **Clamping without values:** `apply(lambda x: max(x, 0))` returns a column without
  rows, of any dtype, without calling the lambda. On an object column holding only NaN
  it raises nothing and every cell stays NaN. A text value, or a categorical column
  with rows, raises TypeError (`DataClean.ClampErrorExamples`).
- **Quartiles:** for the wind speeds [1, 2, 3, 100], numpy's linear quantile gives
  Q1 = 1.75 and Q3 = 27.25, so the fences are -36.5 and 65.5
  (`WorkedExample.WindSpeedsBounds`).

## Model

| member | source | states |
|---|---|---|
| Stats.ColumnMeanOfUniform | scripts/data_clean.py:57 | a column whose present values all equal v, with at least one present, has mean v |
| Stats.Sort | scripts/data_clean.py:49-50 | the sorted copy used by the quantiles has the same length and elements (as a multiset) and is ascending |
| Stats.SortOfSorted | scripts/data_clean.py:49-50 | sorting an ascending sequence leaves it unchanged |
| Stats.QuantileMonotone | scripts/data_clean.py:49-50 | the linear quantile of a sorted sequence does not decrease with q, so Q1 <= Q3 |
| Stats.QuantileInRange | scripts/data_clean.py:49-50 | every quantile lies between the minimum and the maximum |
| Stats.IqrBounds | scripts/data_clean.py:49-54 | the fences exist exactly when some value is present; lower <= Q1 <= Q3 <= upper; upper - lower is 4 IQRs |
| Stats.QuartilesInRange | scripts/data_quality_checker.py:66-67 | if every present value lies in [lo, hi], so do Q1 and Q3 |
| Stats.PresentMembers | scripts/data_clean.py:57 | the present values are exactly the values of the non-missing cells |
| Stats.PresentOfComplete | scripts/data_clean.py:57 | a column without missing cells contributes all its values, in order |
| Stats.SampleVariance | scripts/data_clean.py:87 | `std()` with ddof 1 is NaN exactly when fewer than two values are present, and the variance is never negative |
| Stats.DeviationsFromMeanCancel | scripts/data_clean.py:87 | deviations from the mean sum to zero |
| Stats.ExceedsIsAbsoluteComparison | scripts/data_clean.py:101 | the symbolic test on a z-score is the same as comparing abs(deviation / std) with the threshold |
| Frame.Find | scripts/data_quality_checker.py:33 | the lookup finds the first column of that name, and fails only when no column has it |
| Frame.FilterRows | scripts/data_clean.py:16-19 | keeping rows by a mask keeps every column, its kind and the index labels, and row j is source row Kept(mask)[j] |
| Frame.FilterRowsFrom | scripts/data_clean.py:16-19 | a filtered table's rows come from strictly increasing source positions, with equal cells and labels |
| Frame.RowsFromCompose | scripts/data_clean.py:16-19 | two filterings in a row take their rows from the composed positions |
| Frame.DataFrame.constructor | scripts/data_clean.py:60-68 | a DataFrame holds the given table |
| QualityChecker.Percentage | scripts/data_quality_checker.py:12 | count / rows * 100 is a percentage between 0 and 100 that times rows gives 100 * count |
| QualityChecker.MissingRow | scripts/data_quality_checker.py:11-19 | a report row names its column; its count is the number of missing cells and at most the row count; its percentage is defined exactly when there are rows, and is then count out of rows |
| QualityChecker.CheckMissingValues | scripts/data_quality_checker.py:4-21 | one row per column, in column order, each as `MissingRow` states; every percentage is NaN on a table with no rows |
| QualityChecker.MissingCountCountsMissingCells | scripts/data_quality_checker.py:11 | the counted positions are exactly the positions of missing cells, each counted once |
| QualityChecker.DataTypeReport | scripts/data_quality_checker.py:23-42 | as written: KeyError at the first absent key; else one record per key, in order, with the actual dtype, that same dtype as "expected" and Match always true |
| QualityChecker.CheckDataTypes | scripts/data_quality_checker.py:31-42 | the loop returns exactly the as-written report, stopping at the first absent key |
| QualityChecker.ExpectedTypesAreIgnored | scripts/data_quality_checker.py:33-35 | two mappings with the same keys get the same report, whatever dtypes they expect |
| QualityChecker.IntendedDataTypeReport | scripts/data_quality_checker.py:23-30 | the documented check: the same KeyError behaviour; the expected dtype is the one given, and Match holds iff the actual dtype equals it |
| QualityChecker.DataTypeMismatchGoesUnreported | scripts/data_quality_checker.py:33-35 | a float column checked against `object`: the code reports a match, the documented check reports a mismatch |
| QualityChecker.CheckDuplicates | scripts/data_quality_checker.py:45-56 | the "found" message iff the frame has columns and some row equals an earlier row in every column; otherwise the "none" message, which a frame without columns or with at most one row always gets |
| QualityChecker.NegativeCountZero | scripts/data_quality_checker.py:60 | the count is at most the row count, and is zero iff every present value is at least zero |
| QualityChecker.CheckNegativeValues | scripts/data_quality_checker.py:58-61 | one entry per numeric column, in column order, each its negative count; every numeric column appears |
| QualityChecker.OutlierCount | scripts/data_quality_checker.py:71-72 | `len(df[mask])` is at most the number of rows |
| QualityChecker.DetectOutliersIqr | scripts/data_quality_checker.py:63-73 | stops with the error of the first absent or non-numeric column; otherwise the summary's keys are exactly the requested columns, each mapped to its outlier count, which is at most the row count |
| DataClean.TreatOutliersWithMean | scripts/data_clean.py:39-58 | each cell strictly outside the fences becomes the column mean, every other cell is kept; missing cells stay missing; every present result lies within the fences or is the mean |
| DataClean.InterquartileValuesKept | scripts/data_clean.py:53-58 | a value within the fences, in particular one between Q1 and Q3, is kept |
| DataClean.ZeroIqrReplacesAllButQuartile | scripts/data_clean.py:49-58 | when Q1 = Q3, every present value other than Q1 becomes the mean |
| DataClean.ConstantColumnUnchanged | scripts/data_clean.py:49-58 | a column whose present values are all equal is returned unchanged |
| DataClean.DetectCountsReplacedCells | scripts/data_clean.py:53-58 | the cells detect_outliers_iqr counts are exactly those treat_outliers_with_mean replaces by the mean |
| DataClean.ClampColumn | scripts/data_clean.py:62 | `max(x, 0)` on each cell: non-negative values are kept, negative ones become 0, missing cells stay missing |
| DataClean.ClampIdempotent | scripts/data_clean.py:62 | clamping twice is clamping once |
| DataClean.ClampedColumnHasNoNegatives | scripts/data_clean.py:62 | after clamping, the negative count is zero |
| DataClean.ClampExample | scripts/data_clean.py:62 | [-5, 0, 5, NaN] becomes [0, 0, 5, NaN] |
| DataClean.ClampListed | scripts/data_clean.py:60-63 | clamping the listed columns keeps the index, every column's name, dtype and length, and leaves unlisted columns untouched |
| DataClean.ClampListedIdempotent | scripts/data_clean.py:60-63 | replacing negatives twice is replacing them once, and leaves no negative in a listed numeric column |
| DataClean.ReplaceNegativeValues | scripts/data_clean.py:60-63 | the DataFrame ends as the listed columns clamped in order, up to the first name that raises: an absent name raises KeyError; a text column with a value, or a categorical column with rows, raises TypeError; a column without rows, or a text column without values, is left as it is |
| DataClean.ClampErrorExamples | scripts/data_clean.py:62 | a text or categorical column without rows passes, and so does an all-NaN text column; a text value or a categorical column with rows raises TypeError; an absent name raises KeyError |
| DataClean.BucketIsSector | scripts/data_clean.py:67 | `pd.cut` into eight 45° bins, right-closed with 0 included: no label outside [0, 360], otherwise the label of sector k exactly when the angle is in that sector |
| DataClean.SectorOf | scripts/data_clean.py:67 | every angle in [0, 360] is in one of the eight sectors |
| DataClean.SectorUnique | scripts/data_clean.py:67 | an angle is in only one sector, and distinct sectors have distinct labels |
| DataClean.BucketExamples | scripts/data_clean.py:66-67 | 0 and 45 are N, 45.5 is NE, 180 is SE, 359.9 and 360 are NW, -0.5 and 360.5 have no label |
| DataClean.WithCompassOnlySetsCompass | scripts/data_clean.py:65-68 | only `WD_compass` changes, replaced or appended, holding the sector of each row's direction; everything else is kept |
| DataClean.NormalizeWindDirection | scripts/data_clean.py:65-68 | the DataFrame becomes the table with the compass column, or is left unchanged when the direction column raises |
| DataClean.MeanWindSpeedDependsOnGroupRows | scripts/data_clean.py:70-72 | entry k of the per-sector means depends only on the wind speeds of the rows labelled k: two tables with the same labels whose speeds agree on those rows agree on entry k |
| DataClean.MeanWindSpeedOfGroup | scripts/data_clean.py:70-72 | entry k is NaN exactly when no row labelled k has a wind speed; when every speed in the group is v, entry k is v |
| DataClean.GroupsPartitionRows | scripts/data_clean.py:71 | the eight groups and the unlabelled rows together hold every row exactly once |
| DataClean.Standardize | scripts/data_clean.py:87 | each present cell maps to the z-score of its deviation from the mean; missing cells stay missing |
| DataClean.ZColumn | scripts/data_clean.py:87 | a cell's z-score is defined iff the cell is present and the sample variance is defined and positive; it is then (x - mean) / std |
| DataClean.ZScoresCancel | scripts/data_clean.py:87 | the deviations behind a column's z-scores sum to zero |
| DataClean.ConstantColumnHasNoScores | scripts/data_clean.py:87 | a column whose present values are all equal has no defined z-score (0 / 0) |
| DataClean.CalculateZScores | scripts/data_clean.py:74-88 | stops with the error of the first absent or non-numeric column; otherwise one z-score column per distinct requested name, in first-mention order, on the source index |
| DataClean.FlagOutliers | scripts/data_clean.py:90-102 | the result keeps every flagged row and only those, in order, with its index label and all its z-scores |
| DataClean.ConstantColumnsFlagNothing | scripts/data_clean.py:90-102 | if every column is constant, no row is flagged |
| DataClean.FirstOccurrenceMask | scripts/data_clean.py:16 | a row is kept iff no earlier row equals it; in a frame without columns every row is kept |
| DataClean.DropDuplicatesWithoutColumns | scripts/data_clean.py:16 | `drop_duplicates` returns a frame without columns whole |
| DataClean.DropDuplicatesLeavesNoDuplicates | scripts/data_clean.py:16 | after `drop_duplicates`, check_duplicates finds none |
| DataClean.DropNa | scripts/data_clean.py:19 | succeeds exactly when every critical name is a column, and yields a well-formed table |
| DataClean.DropNaNamesAbsentColumns | scripts/data_clean.py:19 | the KeyError lists exactly the critical names that are not columns |
| DataClean.DropNaComplete | scripts/data_clean.py:19 | every kept row has every critical column present |
| DataClean.DropRowsKeepsColumns | scripts/data_clean.py:16-19 | both row filters keep the columns' number, names and dtypes |
| DataClean.FillWithMean | scripts/data_clean.py:22-23 | present values are kept and each missing cell becomes the column mean |
| DataClean.FillWithMeanKeepsMean | scripts/data_clean.py:23 | filling with the mean does not change the mean |
| DataClean.FillColumn | scripts/data_clean.py:21-27 | filling keeps a column's name, dtype and length |
| DataClean.TreatColumn | scripts/data_clean.py:32-33 | treating keeps a column's name, dtype and length |
| DataClean.TreatedStep | scripts/data_clean.py:32-33 | each step of the loop treats one more numeric column and leaves the rest alone |
| DataClean.TreatAll | scripts/data_clean.py:32-33 | the loop treats every numeric column of the filled table |
| DataClean.CleanedIs | scripts/data_clean.py:4-37 | the cleaned table is the deduplicated, critical-complete rows, filled and then treated column by column |
| DataClean.CleanData | scripts/data_clean.py:4-37 | the method returns exactly the cleaned table or the `dropna` KeyError |
| DataClean.CleanedColumn | scripts/data_clean.py:21-33 | a column keeps its name, dtype and length, and no present cell goes missing; in a text column every missing cell becomes "unknown" and every value is kept; a numeric column ends complete iff it had any value; a categorical column is unchanged |
| DataClean.NumericColumnCleaned | scripts/data_clean.py:21-33 | a numeric column's missing cells become the original mean, present ones stay or become that mean |
| DataClean.CleanedShape | scripts/data_clean.py:4-37 | the cleaned table is well formed, with the same column names and dtypes in the same order |
| DataClean.CleanedGaps | scripts/data_clean.py:18-33 | in the cleaned table every critical column and every text column is complete, and each numeric column is all present or all missing |
| DataClean.CleanedRows | scripts/data_clean.py:16-19 | the cleaned rows are, in source order and with their labels, exactly the source rows that are the first copy of their row (every row, in a frame without columns) and have a value in every critical column; no present value is lost, and text and categorical values are kept |
| DataClean.DeduplicatedRows | scripts/data_clean.py:16 | `drop_duplicates` keeps the columns and takes its rows from the source in order, each the first copy of its row when the frame has columns |
| DataClean.DroppedRows | scripts/data_clean.py:16-19 | after both row filters, the rows are, in source order, exactly the source rows that are a first copy (when the frame has columns) and have every critical cell |
| DataClean.SurvivingRowsExactly | scripts/data_clean.py:16-19 | a source row is among the kept positions iff it is the first copy of its row, or the frame has no columns, and it has a value in every critical column |
| DataClean.CompleteAtSource | scripts/data_clean.py:19 | a row of the deduplicated frame has every critical cell iff its source row does |
| WorkedExample.WindSpeedsBounds | scripts/data_clean.py:49-54 | for [1, 2, 3, 100]: Q1 = 1.75, Q3 = 27.25, fences -36.5 and 65.5 |
| WorkedExample.WindSpeedsMean | scripts/data_clean.py:57 | the mean of [1, 2, 3, 100] is 26.5 |
| WorkedExample.WindSpeedsMask | scripts/data_quality_checker.py:71 | only 100 is outside the fences |
| WorkedExample.WindSpeedExample | scripts/data_clean.py:39-58 | one outlier is counted; the treated column is [1, 2, 3, 26.5] |

## Left out

- Printing: the progress messages of `clean_data` (lines 13, 29, 35-36) are output only and are not modelled.
- Floating point: values are exact reals and NaN is `None`. Rounding in the mean, the quantile interpolation and the division of the z-score is not modelled.
- DataClean.Standardize: the z-score is kept symbolic, as deviation and variance, because there is no square root on reals. `Stats.ExceedsIsAbsoluteComparison` relates the threshold test to abs((x - mean) / std).
- Dtypes: int64 columns are modelled as float64. check_data_types therefore never reports `int64`, and pandas' dtype inference when the table is read is not modelled.
- Frame.Table: column kinds are fixed at construction. A mixed-type object column is text; a numeric column holding ints and floats is numeric.
- DataClean.CalculateMeanWindSpeed: grouping is modelled only by a categorical compass column; grouping by any other column returns TypeError. The result lists all eight categories, as `observed=False` grouping does.
- QualityChecker.DetectOutliersIqr: the result is a map, so the insertion order of the Python dict is not kept.
- QualityChecker.CheckNegativeValues: the returned Series is a sequence of (column, count) pairs.
- QualityChecker.CheckDataTypes: the expected dtypes are a sequence of (name, dtype) pairs in mapping order. The intended check compares dtypes by equality; `is_dtype_equal`'s string aliases are not modelled.
- DataClean.CleanData: modelled on values. pandas' copy-versus-view behaviour and the SettingWithCopy warnings are not modelled.
- Default arguments (`threshold=3`, `column='WD'`, `group_by_column='WD_compass'`, `target_column='WS'`) are explicit parameters of the model's functions.
- DataClean.WithCompass, DataClean.CalculateMeanWindSpeed, DataClean.CalculateZScores, QualityChecker.DetectOutliersIqr: an object column is always treated as non-numeric and raises TypeError, even when it holds no value. pandas' handling of an all-NaN object column in `pd.cut`, `groupby().mean()`, `mean()`/`std()` and `quantile()` is not modelled.
- DataClean.ReplaceNegativeValues: an all-NaN object column with rows keeps its object dtype in the model. pandas re-infers the dtype of `apply`'s result and returns a float64 column of NaN. The cells are missing either way.
- DataClean.ReplaceNegativeValues: missing cells of a text column are NaN. A Python `None` in an object column, for which `max(None, 0)` raises, is not distinguished.
- The error texts of pandas' exceptions are not modelled; only which exception and which column.
- scripts/visualizer.py, app/main.py and scripts/data_loader.py (plotting, the dashboard and CSV loading) are not part of this model.

## Findings

| source | as written | input that shows it | evidently intended | confidence | as-written member | corrected member |
|---|---|---|---|---|---|---|
| scripts/data_quality_checker.py:33-35 | the expected dtype from the mapping is overwritten by the column's actual dtype before the comparison, so Match is always true | a float64 column `WS` checked against expected `object` | the expected dtype stays as given, and Match is true only when the actual dtype equals it | not executed | QualityChecker.DataTypeReport | QualityChecker.IntendedDataTypeReport |
