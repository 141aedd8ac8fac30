# A model of pyhandy's `get_data_summary`

`get_data_summary(data, target, target_metric, include_index, drop_null_stats, **extra)`
profiles a pandas frame and returns one summary row per column. This project
models the decisions the function makes, leaving pandas' and numpy's numbers
opaque:

- **Target check.** The target is resolved and checked (`MetricRegistry.ResolveTarget`,
  `MetricRegistry.RejectedTargetDtype`).
- **Target metrics.** The target-metric dictionary is registered and every metric is
  gated by the column's type tag (`MetricRegistry.TargetMetrics`).
- **Type tag.** A column whose cells all pass `isin([0, 1, np.nan])` is tagged
  `binary`; any other column is tagged with its dtype string
  (`TypeClassifier.TypeTag`). A missing cell passes only when it is stored as
  NaN or sits in a category column, and no cell of a datetime-like column
  passes.
- **Column record.** Each column gets a record (`ColumnProfiler.SummaryRecord`). The
  record is a Python dict display: its key order follows Python's insertion-ordered
  `dict`, and a later write under the same key wins (`Records.PutAll`). Each
  statistic is filled or left NaN according to the tag.
- **Index column.** The row index becomes a pseudo-column when its dtype string
  does not start with 'int' and the caller asks for it (`IndexNormalizer.NormalizeIndex`).
- **Table.** The table is built from the first record's keys. Its rows are flagged
  and sorted by four keys with NaN last. The correlation column is dropped when
  there is no target, and columns that are NaN in every row are pruned when
  asked (`ResultAssembler`).
- **Driver.** `DataSummary.GetDataSummary` is a method. Like the source, it rebinds
  the frame and the table step by step, and it states the whole outcome: the
  error, or the rows, the columns, the shape and the warning flag.

A missing cell is `Missing(blank)`, where the blank records how the column
stores it: NaN, Python's `None`, `NaT` or `pd.NA`. `isnull` treats the four
alike, but `isin` at line 78 does not. Python's `1 == 1.0 == True`, so
integers, floats and booleans are all `Num`. MissingPercent is an exact
`Fraction(missing, length)`. FracUnique is kept as per-value counts over the
column length. The sort used for `sorted`, `value_counts` and `sort_values`
is a generic insertion sort (`Sorting.SortBy`). It is proved to sort, and it is
proved to be the only sorted permutation when no two entries tie.

The model follows the code, with three exceptions where the code is evidently
wrong (see Findings). There the driver `GetDataSummary` follows the corrected
program:

- **Metric callables (line 45).** The driver registers each name with its own
  callable (`TargetMetrics`), not the last one for every name.
- **Missing-data warning (lines 50-51).** The driver gives the warning as a flag
  (`NanWarning`) and goes on, instead of raising NameError between the
  TypeError of line 40 and the ValueError of line 73.
- **Index flag (line 80).** The driver flags the index row (`IndexFlags`).

Otherwise:

- **Median of a binary column.** The code computes a Median for binary columns,
  because `binary` is not in the list at line 61.
- **Timezone-aware datetimes.** A tag such as `datetime64[ns, UTC]` is in none of
  the lists at lines 60-64. Such a column therefore gets a Mean, a Median and
  extremes, but no Mode (line 62 tests for the substring).
- **Rejected target.** A rejected target raises `TypeError` (line 40).
- **Unnamed index.** An unnamed index keeps the label `reset_index` gives it,
  because the rename at line 73 then looks for a column labelled `None`. That
  label is a parameter (`unnamedLabel`).
- **No columns.** A frame with no columns after the index step fails at
  `summary_rows[0]` (line 79). A frame without columns whose index is included
  still gets a one-row table.
  The model keeps that error path instead of excluding the input.

## Model

| member | source | states |
|---|---|---|
| MetricRegistry.ResolveTarget | pyhandy/datautils.py:36 | no target gives None and a vector is used as is; a label naming no column is KeyError, one naming several is AttributeError, otherwise the column of that label |
| MetricRegistry.AcceptedTargetComparesWithItself | pyhandy/datautils.py:38-40 | a target that passes the dtype check passes the comparison gate of lines 45-58 too, binary or not |
| MetricRegistry.TargetMetrics | pyhandy/datautils.py:42-47 | no metric gives an empty registry; a single callable is registered once as 'MetricWithTarget'; a dict keeps its names in order; each metric is NaN without a target or for a category/object/datetime tag, and otherwise calls its own callable on (target, column) |
| MetricRegistry.TargetMetricsAsWritten | pyhandy/datautils.py:45 | the comprehension as written: a dict gives one entry per name in the dict's order, each calling the dict's last callable under the same gate; a single callable or none is registered as intended |
| MetricRegistry.LateBindingCounterexample | pyhandy/datautils.py:45 | with metrics a=0 and b=1, the code as written reports 1 under 'a' where 0 is intended |
| TypeClassifier.BinaryExactlyWhenValuesWithin01 | pyhandy/datautils.py:78 | the tag is 'binary' if and only if the column has no rows, or its dtype is not datetime-like, every non-missing value is 0 or 1, and every missing cell is NaN (any missing cell in a category column); otherwise it is the dtype string |
| TypeClassifier.ColumnWithoutValuesIsBinary | pyhandy/datautils.py:78 | a column without values is 'binary' exactly when it has no rows, or its dtype is not datetime-like and its missing cells match NaN; an all-NaT datetime column or an all-None object column keeps its dtype |
| TypeClassifier.DatetimeColumnKeepsDtype | pyhandy/datautils.py:78 | a datetime-like column with at least one row, even an all-NaT one, is tagged with its dtype |
| TypeClassifier.ObjectNoneNotBinary | pyhandy/datautils.py:78 | an object column holding 0, 1 and None is tagged 'object', because `isin` does not match None to NaN |
| ColumnProfiler.MissingPercent | pyhandy/datautils.py:57 | NaN exactly for a column with no rows; otherwise missing/length with missing <= length (so within [0, 1]), zero exactly when no cell is missing, and missing + non-missing = length |
| ColumnProfiler.CorrelationCell | pyhandy/datautils.py:58 | filled only with a target and a tag that compares with it, and then exactly when the library's coefficient is a number |
| ColumnProfiler.ModeCell | pyhandy/datautils.py:62 | IndexError exactly when the tag has no 'datetime' and the column has no values; otherwise filled exactly when the tag has no 'datetime' |
| ColumnProfiler.NumOfUnique | pyhandy/datautils.py:65 | always filled, with the number of distinct non-missing values |
| ColumnProfiler.UniqueValuesCell | pyhandy/datautils.py:66 | TypeError exactly when the tag is category/binary/object and two values do not compare; otherwise filled with an ordered list exactly for those tags |
| ColumnProfiler.FracUniqueCell | pyhandy/datautils.py:67 | filled exactly for category/binary/object tags, with counts over the column length |
| ColumnProfiler.UniqueValuesAscending | pyhandy/datautils.py:65-66 | UniqueValues is strictly ascending, holds exactly the non-missing values, and its length is NumOfUnique |
| ColumnProfiler.FracUniqueCounts | pyhandy/datautils.py:67 | one count per distinct non-missing value, non-increasing, each at least 1, summing to the number of non-missing cells, and a permutation of the per-value counts |
| ColumnProfiler.SummaryRecord | pyhandy/datautils.py:53-69 | the record's keys are the written names in order of first writing, for every column; its errors are IndexError (mode of a column without values) or TypeError (unsortable unique values), each with the exact condition, in evaluation order |
| ColumnProfiler.RecordHead | pyhandy/datautils.py:54-58 | the record holds the column's label, its tag and its correlation cell under ColumnName, DataType and CorrelationWithTarget |
| ColumnProfiler.RecordMissingPercent | pyhandy/datautils.py:57 | the record's MissingPercent cell is the column's missing share (NaN for no rows, otherwise missing/length) |
| ColumnProfiler.RecordStatistics | pyhandy/datautils.py:60-67 | Mean, Median, Mode, MinValue and MaxValue are filled exactly when the tag passes each one's test, NumOfUnique always, and UniqueValues and FracUnique as their cells say |
| ColumnProfiler.RecordTargetMetric | pyhandy/datautils.py:59 | as intended, with each name calling its own callable (line 45 corrected): a target metric's cell is NaN without a target or for a category/object/datetime tag, and otherwise that metric's own value |
| ColumnProfiler.RecordExtraMetric | pyhandy/datautils.py:68 | an extra metric's cell is its value on the column, whatever the tag |
| ColumnProfiler.GatesByCategory | pyhandy/datautils.py:58-67 | which statistics each category (categorical, binary, numeric, naive datetime) gets, and whether it is compared with the target |
| ColumnProfiler.TimezoneAwareDatetime | pyhandy/datautils.py:60-64 | a 'datetime64[ns, UTC]' column gets Mean, Median and extremes but no Mode and no target comparison |
| ColumnProfiler.OtherDatetimeTags | pyhandy/datautils.py:58-64 | every datetime tag but 'datetime64[ns]' (other units, timezone-aware) gets Mean, Median and extremes, but no Mode, no distinct-value statistics and no target comparison |
| Records.RepeatedUnpackingHarmless | pyhandy/datautils.py:59 | unpacking the target-metric dict twice leaves the record as unpacking it once |
| Records.PutAllLookup | pyhandy/datautils.py:53-69 | after a dict display a key is present exactly when it was present before or some entry writes it, and a key no entry writes keeps its value |
| Records.PutAllLast | pyhandy/datautils.py:53-69 | in a dict display, a key's value is the one written by the last entry under that key |
| Records.KeysAfterEmpty | pyhandy/datautils.py:53-69 | a dict display keeps each key once, in order of first appearance |
| IndexNormalizer.NormalizeIndex | pyhandy/datautils.py:71-76 | ValueError exactly when the index is included and its reset label is already a column; the index is included exactly when its dtype does not start with 'int' and it was asked for; it is then the first column, named name + '*' (or the reset label when unnamed), with the index dtype and labels; otherwise the columns are unchanged |
| IndexNormalizer.IntPrefixedIndexLeftOut | pyhandy/datautils.py:71 | an index whose dtype starts with 'int' is never included |
| IndexNormalizer.UnsignedIndexIncluded | pyhandy/datautils.py:71 | a 'uint64' index is included when asked for |
| IndexNormalizer.ReportedColumnsAreTheFrames | pyhandy/datautils.py:84 | the printed column count is the input frame's, with or without the index |
| ResultAssembler.ColumnOutcome | pyhandy/datautils.py:78 | a duplicated label raises ValueError; otherwise the row carries the label, the tag, the record and the correlation, and fails exactly when the record does, with the record's own error (IndexError or TypeError) |
| ResultAssembler.Summaries | pyhandy/datautils.py:78 | succeeds exactly when every column does, with one row per column in order; otherwise the error is that of the first column that raises, and is ValueError, IndexError or TypeError |
| ResultAssembler.SummariesDistinctNames | pyhandy/datautils.py:78 | rows produced without error carry distinct labels, before and after the index flag |
| Frames.MapResults | pyhandy/datautils.py:78 | a comprehension that may raise fails with the error of the first column that raises |
| ResultAssembler.RowBeforeTrichotomy | pyhandy/datautils.py:81 | two rows tie only when all four sort keys agree |
| ResultAssembler.RowLeqTotalPreorder | pyhandy/datautils.py:81 | the four-key order with NaN last is total and transitive |
| ResultAssembler.SortRows | pyhandy/datautils.py:81 | the sorted rows are a permutation of the rows |
| ResultAssembler.SortRowsOrdered | pyhandy/datautils.py:81 | the sorted rows are ordered; with distinct labels they are the only ordered permutation |
| ResultAssembler.IndexRowFirst | pyhandy/datautils.py:80-81 | with the intended flag the index row sorts first |
| ResultAssembler.IndexNotFirstAsWritten | pyhandy/datautils.py:80-81 | an object index beside a float column sorts second as written and first as intended |
| ResultAssembler.Tabulate | pyhandy/datautils.py:79 | the table's columns are the first record's keys except ColumnName, in the record's order |
| ResultAssembler.DropColumn | pyhandy/datautils.py:82-83 | dropping removes that column and no other, keeps the others' order, and keeps the rows |
| ResultAssembler.PruneNullColumns | pyhandy/datautils.py:87-88 | a column is removed if and only if it is NaN in every row; the others keep their order |
| ResultAssembler.PruneWithoutEmptyColumns | pyhandy/datautils.py:87-88 | a table without all-NaN columns comes back unchanged |
| ResultAssembler.PruneIdempotent | pyhandy/datautils.py:87-88 | pruning twice is pruning once |
| DataSummary.NanWarning | pyhandy/datautils.py:49-51 | as intended: a warning exactly when there is a target and the frame or the target has a missing cell |
| DataSummary.NanCheckAsWritten | pyhandy/datautils.py:49-51 | as written: NameError exactly when the warning is due |
| DataSummary.NanCheckRaises | pyhandy/datautils.py:50-51 | a target plus one missing cell anywhere makes the code as written raise NameError |
| DataSummary.FrameHasNull | pyhandy/datautils.py:50 | `data.isnull().values.any()`: some column has a missing cell |
| DataSummary.SummaryContext | pyhandy/datautils.py:42-47 | the shared context holds the target, the extras, and one registered metric per supplied one |
| DataSummary.FirstRecordKeys | pyhandy/datautils.py:78-79 | the first record's keys are the written names in order of first writing, and the rows carry the columns' labels unflagged |
| DataSummary.SummaryKeysMatchCells | pyhandy/datautils.py:54-58 | every row's sort keys are the cells its record shows |
| DataSummary.AssembleTable | pyhandy/datautils.py:79-90 | the rows are the flagged rows sorted by the four keys (a sorted permutation), with the index row first; a column is shown if and only if the first record has it, it is not ColumnName, it is not the correlation without a target, and it is not all-NaN when pruning; the columns keep the first record's key order, each once |
| DataSummary.SummarizeFrame | pyhandy/datautils.py:78-90 | the error of the first column whose summary raises, IndexError for a frame without columns, and otherwise a summary whose rows (with distinct labels, so in the one order the four keys allow), columns (in the first record's key order), shape and warning flag are as the driver promises |
| DataSummary.GetDataSummary | pyhandy/datautils.py:35-90 | as intended, with lines 45, 50-51 and 80 corrected. Errors in the code's order: KeyError or AttributeError from the target lookup, TypeError for a rejected target dtype, ValueError when the index label collides, then the error of the first column whose summary raises, and IndexError when there are no columns. With none of these a summary is produced: its rows are the flagged per-column rows, whose labels are distinct, in the one order the four keys allow, with the index row first, and each row's keys match its cells. Its columns are the written names in order of first writing, each once, less ColumnName, less the correlation without a target, and less the all-NaN ones when pruning. The printed shape and the warning flag are the input's |

## Left out

- Numeric values: mean, median, mode, min, max and `np.corrcoef` are opaque total functions (`Numerics`). Only whether each cell is filled is modelled.
- Rounding: FracUnique's rounding to 3 decimals is left out. The counts are kept over the column length.
- Correlation filtering: line 58 filters NaNs from the column and the target independently. Only the cell's presence is modelled, not which rows enter the coefficient.
- Exceptions inside pandas or numpy are not modelled. This covers `np.isnan` on a non-numeric target, `corrcoef` on vectors of different lengths, and user callables that raise. Only the errors the function's own steps raise are.
- User callables (target metrics, extra metrics) are uninterpreted total functions.
- Printing: the prints at lines 84-86 are console output. They are modelled as the returned `Shape`.
- The warning at line 51: it is a returned flag, not a log record.
- The unnamed-index label: `reset_index` picks it ('index' or 'level_0'), and it is a parameter.
- `data.copy()` (line 35) has no observable effect in a value model.
- A MultiIndex on rows or columns is not modelled.
- Mode ties: which of several modes pandas reports is the library's choice, inside `Numerics.mode`.
- GetDataSummary: requires that no target or extra metric is named ColumnName, DataType, CorrelationWithTarget or is_index. Such a name would overwrite the table's row label, sort keys or index flag.
- ColumnProfiler.RecordHead: stated only when no target or extra metric takes one of the reserved labels, since a later entry of that name would overwrite it.
- ColumnProfiler.RecordMissingPercent: stated only when no target or extra metric is named MissingPercent, since a later entry of that name would overwrite it.
- ColumnProfiler.RecordStatistics: stated only when no extra metric takes a statistic's name, since a later entry of that name would overwrite it.
- ColumnProfiler.FracUniqueCounts: for a `category` column, `value_counts` also lists every declared category that does not occur, with count 0. `Column` carries no declared categories, so the model keeps only the counts of values that occur, each at least 1.
- ColumnProfiler.RecordTargetMetric: stated only for a metric name that no other metric, statistic or extra metric takes.
- ColumnProfiler.GatesByCategory: stated for tags whose only datetime dtype is 'datetime64[ns]'; every other datetime tag is covered by OtherDatetimeTags.
- The `isin` test at line 78 follows pandas 1.2 and later, where no cell of a datetime-like column matches a number.
- pyhandy/vizutils.py (plotting and theme files), pyhandy/utils.py (a reflection-based type decorator and logger setup) and setup.py are not part of this model.

## Findings

| source | as written | input that shows it | evidently intended | confidence | as-written member | corrected member |
|---|---|---|---|---|---|---|
| pyhandy/datautils.py:45 | each lambda in the dict comprehension closes over the loop variable `f`, so every named metric calls the last callable | `target_metric={'a': lambda t, x: 0, 'b': lambda t, x: 1}` with a numeric target: column 'a' shows 1 | each name calls its own callable | not executed | MetricRegistry.LateBindingCounterexample | MetricRegistry.TargetMetrics |
| pyhandy/datautils.py:80 | after `reset_index` the frame's index is unnamed, so `ind == data.index.name` is never true and `is_index` is False for every row | an object index 'id' and a float column 'x': row 'x' sorts first ('float64' < 'object') | the index row is flagged and sorts first | not executed | ResultAssembler.IndexNotFirstAsWritten | ResultAssembler.IndexRowFirst |
| pyhandy/datautils.py:50-51 | `logging` is never imported in the module, so the warning raises NameError | any target together with one NaN in the frame | a warning is given and the summary is still produced | not executed | DataSummary.NanCheckRaises | DataSummary.NanWarning |
