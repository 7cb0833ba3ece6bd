# Data-cleaning stages of `preprocessor.py`, modelled in Dafny

This project models the table-cleaning core of `src/data/preprocessor.py`:

- the missing-value audit `check_missing_values`;
- sparse-column pruning `remove_columns_with_missing_values`, which `clean_data` repeats inline;
- imputation `fill_missing_values` with the `mean`, `median` and `mode` strategies;
- de-duplication `drop_duplicates`;
- the composed pipeline `clean_data`, including how a failure travels through it.

The pandas calls these stages delegate to are stated by their semantics:

- `isnull().sum()` and `isnull().mean()` are a column's null count and null ratio.
- `drop(columns=…)` keeps the other columns in order.
- `mean()` and `median()` skip nulls.
- `mode()[0]` is the smallest of the most frequent non-null values.
- `fillna(NaN)` changes nothing.
- `drop_duplicates()` keeps the first occurrence of each distinct row, in the original order; two nulls count as equal. A frame with no columns is `empty`, and pandas returns it with all of its rows.

Layout, one module per file:

- `values.dfy` (`Values`): cell values (number, text, timestamp) and the total order `mode()` sorts ties by.
- `stats.dfy` (`Stats`): mean, median (via an ascending sort) and mode, in exact arithmetic.
- `tables.dfy` (`Tables`): the frame as column names, a per-column "numeric dtype" flag and rows of nullable cells. Also the null counts of `check_missing_values`.
- `pruning.dfy` (`Pruning`): dropping columns whose null ratio exceeds the threshold.
- `dedup.dfy` (`Dedup`): removing repeated rows.
- `imputation.dfy` (`Imputation`): `fill_missing_values`. The source loops over columns and reassigns `data[column]` in the caller's frame. So the operation is a method of the class `Frame`, whose fields are the frame's columns and rows, and it is proved against the pure function `FillOutcome`.
- `pipeline.dfy` (`Cleaning`): `clean_data` as a method, proved equal to the composition `Cleaned`.

`clean_data` does not stop at a failed stage:

- A failed datetime conversion yields `None`, which reaches `check_missing_values`. That function has no `try` block, so `None.isnull()` raises out of `clean_data` (`Cleaning.Cleaned` gives `Raised`).
- A failed fill yields `None`, which still reaches `drop_duplicates`. Its own `try` block turns the failure into `None` (`ReturnedNone`).
- A failed `mode` fill leaves the columns processed before the failure overwritten in the caller's frame.

## Model

| member | source | states |
|---|---|---|
| Values.LeTotalOrder | src/data/preprocessor.py:70 | the order `mode()` breaks ties by is reflexive, total, antisymmetric and transitive, so "smallest most frequent value" is well defined |
| Stats.Mean | src/data/preprocessor.py:64 | `mean()` of the non-null values is the value whose count-many copies add up to their sum |
| Stats.MeanWithinBounds | src/data/preprocessor.py:64 | the mean of the non-null values lies between any lower and any upper bound of those values |
| Stats.InsertSorted | src/data/preprocessor.py:67 | inserting a value into sorted values keeps them sorted |
| Stats.Sort | src/data/preprocessor.py:67 | the values sorted for the median are in ascending order and are a permutation of the input |
| Stats.MedianOfSortedSplits | src/data/preprocessor.py:67 | the middle of a sorted sequence is at least every element of its lower half and at most every element of its upper half |
| Stats.MedianSplitsSorted | src/data/preprocessor.py:67 | the median is at least the lower half and at most the upper half of the sorted values |
| Stats.Median | src/data/preprocessor.py:67 | `median()` of the non-null values is one of them when their count is odd, and otherwise lies between two of them |
| Stats.MedianWithinBounds | src/data/preprocessor.py:67 | the median lies between any lower and any upper bound of the values |
| Stats.ModeAmong | src/data/preprocessor.py:70 | the chosen candidate is one of the candidates, no candidate occurs more often, and it is the smallest among equally frequent candidates |
| Stats.Mode | src/data/preprocessor.py:70 | `mode()[0]` is a value of the column, occurs at least as often as every other value, and is the smallest of the values that occur equally often |
| Tables.Column | src/data/preprocessor.py:64 | column `j` has one cell per row, and cell `i` is row `i`'s cell `j` |
| Tables.MissingCounts | src/data/preprocessor.py:47 | `check_missing_values` reports one count per column, each between 0 and the row count, and leaves the frame as it was |
| Tables.NullCountIsOccurrences | src/data/preprocessor.py:47 | a column's null count is the multiplicity of null among its cells |
| Tables.MissingCountsAreNullOccurrences | src/data/preprocessor.py:47 | each reported count is the number of null cells in its column |
| Tables.PresentValues | src/data/preprocessor.py:64 | the non-null values a statistic is taken over number the cells minus the nulls |
| Tables.PresentValuesExactly | src/data/preprocessor.py:64 | every value a statistic sees comes from a non-null cell, and every non-null cell's value is seen |
| Tables.PresentValuesCounts | src/data/preprocessor.py:64-70 | every value occurs among the values a statistic sees exactly as often as it occurs among the column's non-null cells |
| Pruning.Dropped | src/data/preprocessor.py:110-111 | a column is dropped only when the frame has rows, and, at a threshold of 0 or more, only when it has a null; at a negative threshold every column of a frame with rows is dropped |
| Pruning.KeptBelow | src/data/preprocessor.py:111 | the surviving column indices are strictly increasing, none of them is over the threshold, and every column not over the threshold is among them |
| Pruning.KeptBelowAll | src/data/preprocessor.py:111 | when no column is over the threshold, every index survives, in order |
| Pruning.Prune | src/data/preprocessor.py:111-113 | pruning keeps the frame well-formed and the row count. Surviving column `m` is original column `Kept[m]` (name, dtype and every cell), in the original relative order |
| Pruning.PigeonholeIncreasing | src/data/preprocessor.py:111-113 | a strictly increasing list of column indices below `n` has at most `n` entries, so pruning never adds columns |
| Pruning.PruneDropsExactly | src/data/preprocessor.py:110-113 | a column disappears if and only if its null count over the row count strictly exceeds the threshold |
| Pruning.RetainedWithinThreshold | src/data/preprocessor.py:110-113 | every column left after pruning has a null ratio of at most the threshold |
| Pruning.NothingDroppedIsIdentity | src/data/preprocessor.py:113 | when no column is over the threshold, `drop` returns the frame unchanged |
| Pruning.RatioAtMostOne | src/data/preprocessor.py:110 | a null ratio is never above 1 |
| Pruning.ThresholdOneDropsNothing | src/data/preprocessor.py:110-113 | a threshold of 1.0 or more drops no column |
| Pruning.ZeroRowsDropsNothing | src/data/preprocessor.py:110-113 | a frame without rows loses no column, because the NaN ratio compares greater than nothing |
| Pruning.PruneIdempotent | src/data/preprocessor.py:110-113 | pruning a pruned frame again with the same threshold changes nothing |
| Pruning.PruneSurvivors | src/data/preprocessor.py:110-113 | an input column survives if and only if its null ratio does not exceed the threshold, and every surviving column is an input column with the same name and the same cells |
| Pruning.RemoveColumnsWithMissingValues | src/data/preprocessor.py:109-117 | `None` gives `None`. Otherwise the result is a well-formed frame with the same rows, in which an input column survives if and only if its null ratio does not exceed the threshold, each survivor keeps its name and cells, and the frame is the pruning `Prune` characterises |
| Dedup.DropDuplicateRows | src/data/preprocessor.py:91 | no two kept rows are equal, no rows are added, and a row is kept if and only if it occurs in the input |
| Dedup.KeepsFirstOccurrencesOfPrefix | src/data/preprocessor.py:91 | on every prefix of the rows, the kept rows are the first occurrences in their original order |
| Dedup.KeepsFirstOccurrences | src/data/preprocessor.py:91 | the kept rows are exactly the first occurrences, in their original relative order |
| Dedup.DistinctRowsUnchanged | src/data/preprocessor.py:91 | rows that are already pairwise distinct are returned unchanged |
| Dedup.DropDuplicateRowsIdempotent | src/data/preprocessor.py:91 | removing duplicates a second time changes nothing |
| Dedup.NothingRemovedIffDistinct | src/data/preprocessor.py:90-93 | the row count stays the same if and only if the rows were already pairwise distinct |
| Dedup.DropDuplicates | src/data/preprocessor.py:91 | column names and dtypes are kept, the frame stays well-formed, the row count never grows, and a row is kept if and only if it occurs in the input. A frame with no columns comes back unchanged; otherwise no two kept rows are equal and they are exactly the first occurrences, in their original order |
| Dedup.RemovedCount | src/data/preprocessor.py:90-93 | the reported `before - after` is a natural number, and it is zero if and only if the frame has no columns or there were no duplicates |
| Dedup.DropDuplicatesStage | src/data/preprocessor.py:89-97 | `None` gives `None`. A frame gives a frame with the same columns and at most as many rows. A frame with no columns comes back unchanged; otherwise there are no duplicate rows, and the rows are exactly the first occurrences in their original order |
| Imputation.NumbersMatchValues | src/data/preprocessor.py:63-67 | in a numeric column there is one number per non-null cell |
| Imputation.Statistic | src/data/preprocessor.py:63-70 | a fill value exists only for a column with some value. It is a number for a numeric column. Mean and median give none for a non-numeric column, because `select_dtypes` skips it |
| Imputation.NumericColumnsHoldNumbers | src/data/preprocessor.py:63 | in a well-formed frame, every non-null cell of a numeric column is a number |
| Imputation.Statistics | src/data/preprocessor.py:62-70 | one fill value per column, and a number wherever the column is numeric |
| Imputation.FillColumnWith | src/data/preprocessor.py:64 | `data[column] = data[column].fillna(v)` fills the nulls of that column with `v` and changes no other cell, name or dtype |
| Imputation.FilledCell | src/data/preprocessor.py:63-70 | after `k` turns of the loop, the cells of the first `k` columns are filled and the rest are as they were |
| Imputation.ColumnNotYetFilled | src/data/preprocessor.py:63-70 | the column the loop is about to fill still holds its original cells, so its statistic is that of the input |
| Imputation.FilledCellsWith | src/data/preprocessor.py:63-70 | after `k` turns with a statistic, every cell of the first `k` columns is its `fillna` with that column's statistic, and every later cell is as it was |
| Imputation.FillColumnsUpTo | src/data/preprocessor.py:63-70 | the frame after `k` turns of the loop is well-formed with the same columns and row count; each of the first `k` columns has its nulls replaced by its statistic, and the other cells are as they were |
| Imputation.FillAll | src/data/preprocessor.py:63-70 | the frame the completed loop leaves: same columns and row count, every null replaced by its column's statistic where there is one, every other cell as it was |
| Imputation.FilledCellWith | src/data/preprocessor.py:63-70 | after `k` turns, each cell of the first `k` columns is its `fillna` with that column's statistic |
| Imputation.EmptyColumnFrom | src/data/preprocessor.py:68-70 | finds the first column at or after `j` without any value; every column before it has a value, and if there is none, every column has one |
| Imputation.FillOutcome | src/data/preprocessor.py:61-78 | the frame stays well-formed with the same columns and row count. The call returns the frame under mean or median, and under mode exactly when every column has a value. The frame is the completed fill `FillAll` under mean, median and a successful mode; after a failed mode it is `FillColumnsUpTo` the first column without a value. An unknown strategy leaves the frame as it was |
| Imputation.PresentCellsUntouched | src/data/preprocessor.py:63-70 | a cell that held a value keeps it, whatever the fill values and however far the loop got |
| Imputation.MeanMedianOnlyNumeric | src/data/preprocessor.py:63-67 | mean and median leave every cell of a non-numeric column as it was |
| Imputation.EmptyColumnStaysNull | src/data/preprocessor.py:63-67 | a column with no value is all null, and mean and median leave it all null |
| Imputation.ColumnNumbers | src/data/preprocessor.py:64 | a numeric column has one number per non-null value |
| Imputation.MeanFillsNulls | src/data/preprocessor.py:63-64 | under mean, each null of a numeric column with some value becomes the mean of its non-null values; other cells stay |
| Imputation.MedianFillsNulls | src/data/preprocessor.py:66-67 | under median, each null of a numeric column with some value becomes the median of its non-null values; other cells stay |
| Imputation.ModeFillsNulls | src/data/preprocessor.py:68-70 | under mode, each null of a column with some value becomes the smallest of its most frequent values, numeric or not; other cells stay |
| Imputation.ModeFillLeavesNoNulls | src/data/preprocessor.py:68-70 | a mode fill over columns that all have a value leaves no null cell |
| Imputation.FirstEmptyColumn | src/data/preprocessor.py:68-70 | after a run of columns with values, the next column without one is where the mode loop fails |
| Imputation.NoEmptyColumn | src/data/preprocessor.py:68-70 | when every column has a value, the mode loop never fails |
| Imputation.HaveValuesExtend | src/data/preprocessor.py:68-70 | the run of columns with values the mode loop has passed grows by one column per turn |
| Imputation.ModePrefixFilled | src/data/preprocessor.py:68-70 | after `k` turns of the mode loop over columns that all have a value, those columns have no null left |
| Imputation.LaterColumnsUntouched | src/data/preprocessor.py:63-70 | the columns the loop has not reached yet hold their original cells |
| Imputation.ModeFailureLeavesEarlierColumnsFilled | src/data/preprocessor.py:68-70 | a failed mode fill returns `None`. The caller's frame keeps every column before the first empty one filled with no null left. Every other cell is unchanged: cells that held a value, and cells at or after the failing column |
| Imputation.FilledSum | src/data/preprocessor.py:64 | filling the nulls of a numeric column with `m` adds `m` to its sum once per null and leaves one number per cell |
| Imputation.MeanOfPaddedSum | src/data/preprocessor.py:64 | adding copies of a mean to the values keeps the mean |
| Imputation.MeanFillPreservesMean | src/data/preprocessor.py:63-64 | after a mean fill, a numeric column with some value has no null left, and its mean equals the mean of its values before |
| Imputation.FillStep | src/data/preprocessor.py:63-70 | one turn of the loop fills the next column with the statistic of its unchanged cells |
| Imputation.Frame.FillColumn | src/data/preprocessor.py:64 | the frame becomes the one with column `j` filled with `v` |
| Imputation.Frame.FillNextColumn | src/data/preprocessor.py:63-70 | one turn of the loop. It stops, leaving the frame as it is, exactly when the strategy is mode and the column has no value; otherwise the frame has one more column filled |
| Imputation.Frame.FillEachColumn | src/data/preprocessor.py:62-70 | the loop returns the frame, with every column filled, unless the strategy is mode and some column is empty. Then it stops with every column before the first empty one filled |
| Imputation.Frame.FillMissingValues | src/data/preprocessor.py:52-78 | `fill_missing_values` returns the frame or `None`, and leaves the caller's frame, as `FillOutcome` specifies |
| Cleaning.PruneIfThreshold | src/data/preprocessor.py:142-146 | with a threshold, the inline pruning equals `remove_columns_with_missing_values`; without one, the frame is untouched |
| Cleaning.Cleaned | src/data/preprocessor.py:132-158 | A failed load returns `None`. A failed conversion raises. The result is `None` exactly when the fill fails, which an unknown strategy always causes; mean and median always return a frame. A returned frame is well-formed with at most the converted row count. Its columns are the pruned ones (all of them without a threshold). If some column is left, its rows are the first occurrences of the filled frame's rows, in order, with no duplicates; if pruning removed every column, all rows are kept |
| Cleaning.CleanData | src/data/preprocessor.py:120-158 | the step-by-step pipeline, with the frame filled in place, ends exactly as the composition `Cleaned` says |
| Cleaning.AllColumnsPrunedKeepsRows | src/data/preprocessor.py:142-152 | when pruning removes every column, `clean_data` under mean or median returns a column-less frame with one row per input row |
| Cleaning.DropDuplicatesKeepsNoNulls | src/data/preprocessor.py:91 | removing duplicate rows from a frame without nulls leaves none |
| Cleaning.ModeLeavesNoNulls | src/data/preprocessor.py:149-152 | under mode, `clean_data` returns a frame exactly when every column left after pruning has a value, and a returned frame has no null cell |

## Left out

- `load_data` and `save_cleaned_data` (CSV file I/O through pandas) are not modelled. The loaded frame enters `Cleaning.CleanData` as an `Option<Table>`, with `None` standing for a failed load.
- `convert_to_datetime` is not modelled: timestamp parsing happens inside pandas. The frame it returns for the loaded frame, or `None` on failure, is a parameter of `Cleaning.CleanData`. Timestamps are cell values `Time(int)`.
- Every `print`, the `__main__` block and `src/data/preprocessor1.py` are not part of this model.
- Floating point is not modelled: mean and median are exact `real` arithmetic, and int-to-float dtype promotion is ignored.
- Pruning.Dropped: the null ratio `isnull().mean()` and its comparison with the threshold are exact, whereas the source compares two float64 values. Where the quotient rounds, the two can differ: with `threshold=2/3`, a column with 2 nulls in 3 rows is kept by pandas (equal doubles) but dropped by the exact model.
- `select_dtypes(include=[np.number])` is modelled by a per-column numeric flag carried by the frame after the datetime conversion (the `converted` argument of `Cleaning.CleanData`) and unchanged by the modelled stages; pandas' dtype inference is not modelled.
- `Values.Le` orders values of different kinds (number before text before timestamp). On a mixed-kind column pandas' `mode()` cannot sort and returns its modes unsorted (with a warning); such columns are outside the model.
- The frame's row index is not modelled: `drop_duplicates` keeps the original row order but the model has no index labels.
- Imputation.ModeFailureLeavesEarlierColumnsFilled: states that the columns before the failing one have no null left, not their fill value. That value is the column's mode, which `Imputation.ModeFillsNulls` states for the same frame.
- Standalone calls of `check_missing_values(None)` and `fill_missing_values(None, …)` are not modelled separately. The first raises, which `Cleaning.Cleaned` models as `Raised`. The second returns `None` from its `try` block, and no path of `clean_data` reaches it.
- The default arguments are not modelled: `strategy='mean'` of `fill_missing_values`, `threshold=0.5` of `remove_columns_with_missing_values`, and `fill_strategy='mean'`, `threshold=None` of `clean_data`. Every Dafny caller passes these values explicitly.
