# Row-split preprocessing of a metrics table

This project models `preprocess_with_row_split`, the routine in
`data_process/preprocess.py` that turns one metrics table (a timestamp column
plus numeric feature columns) into a train table and a labelled test table
for anomaly detection. It also proves what that routine promises about its
output.

The routine runs in three stages. The step numbers below are those of the
numbered comments (`# 4.` to `# 10.`) in `data_process/preprocess.py`.

- **Cleaning (steps 4-5).** Each feature column is handled on its own. If
  any cell is missing, every missing cell is filled with the mean of the
  present cells. The column is then min-max scaled into [0, 1]. A column
  whose values are all equal, or that has no value at all, becomes all 0.0.
  The timestamps are passed through unchanged.
- **Window split (steps 6-9).** Rows 104..116 are the fault window; rows
  91..103, the 13 rows just before it, are the normal window. The test table
  holds the normal rows labelled 0 and then the fault rows labelled 1. Every
  other row, in order, is a train candidate.
- **IQR filter (step 10).** For each feature column the first and third
  quartiles are computed over the candidates, and IQR = Q3 - Q1. The valid
  columns are those with IQR > epsilon, or all columns if none qualify. A
  candidate is kept when every valid column lies in the closed fence
  [Q1 - k * IQR, Q3 + k * IQR].

Modules:

- `Stats` (stats.dfy): the column reductions taken from the dataframe
  library. These are the mean, minimum and maximum that skip missing cells,
  and the quantile with linear interpolation.
- `Table` (table.dfy): the rows and the frame operations the routine uses.
  These are `range`, `.loc`, `.drop(index=…)` and boolean-mask selection.
- `Clean` (clean.dfy): imputation and scaling. The column loop is a method
  proved against the function `CleanColumn`.
- `Split` (split.dfy): the two windows, the test table and the train
  candidates.
- `Fence` (fence.dfy): quartiles, valid columns, fences and the train table.
- `Preprocess` (preprocess.dfy): the whole routine, as a function and as the
  method that runs the column loop, plus the end-to-end properties.

Modelling choices:

- **Cells.** A cell is an `Option<real>`, where `None` is a missing value
  (NaN). Arithmetic is exact over `real`.
- **Table layout.** The input table is held as its timestamp column and its
  feature columns, column by column.
- **Errors.** Errors are a `Result` carrying `KeyError` or `ValueError`.
- **Library version.** The model assumes the behaviour of pandas 1.0 and
  later. In those versions `.loc` with any label missing from the index
  raises a KeyError. Earlier versions raised it only when every listed label
  was missing, and otherwise returned rows of missing values with a warning.

## Model

| member | source | states |
|---|---|---|
| Stats.MinSkipNa | data_process/preprocess.py:50 | The column minimum skipping missing cells. It is undefined exactly when every cell is missing. Otherwise it is the value of some present cell and no present cell is smaller. |
| Stats.MaxSkipNa | data_process/preprocess.py:51 | The column maximum skipping missing cells. It is undefined exactly when every cell is missing. Otherwise it is the value of some present cell and no present cell is larger. |
| Stats.Mean | data_process/preprocess.py:47 | The mean skipping missing cells: the sum of the present values over their count, undefined when no cell is present. The contract of `Stats.Present` gives membership only, so what is proved about the mean is `Stats.MeanWithinRange`. |
| Stats.MeanWithinRange | data_process/preprocess.py:47 | When some cell is present, the mean of the present cells is defined and lies between their minimum and maximum. |
| Stats.SortAsc | data_process/preprocess.py:93-94 | The sorted copy the quantile is read from. It is sorted and a permutation of the column. |
| Stats.SortedQuantile | data_process/preprocess.py:93-94 | The "linear" quantile of a sorted column: interpolation between the order statistics around the virtual index (n - 1) * q. `Stats.SortedQuantileWithin` and `Stats.SortedQuantileMonotone` bound it. |
| Stats.Quantile | data_process/preprocess.py:93-94 | The quantile of a column is that of its sorted copy. `Stats.QuantileWithin` and `Stats.QuantileMonotone` state its properties. |
| Stats.SortedQuantileWithin | data_process/preprocess.py:93-94 | A quantile of a sorted column lies between its first and last element. |
| Stats.SortedQuantileMonotone | data_process/preprocess.py:93-95 | The quantile of a sorted column grows with q. |
| Stats.QuantileWithin | data_process/preprocess.py:93-94 | A quantile lies between the column's minimum and maximum. |
| Stats.QuantileMonotone | data_process/preprocess.py:93-95 | The quantile grows with q, so Q1 never exceeds Q3. |
| Table.Range | data_process/preprocess.py:66 | `range(lo, hi)` has hi - lo elements, lo, lo + 1, …, and is empty when hi <= lo; a value is in it exactly when lo <= value < hi. |
| Table.Loc | data_process/preprocess.py:77 | `.loc[labels]` succeeds exactly when every label is a row of the table. It then returns those rows in the order of the labels; otherwise it is a KeyError. |
| Table.DropIndex | data_process/preprocess.py:86 | `.drop(index=labels)` succeeds exactly when every label is a row of the table. It then returns every unlisted row and no other, in table order: exactly the rows at the positions whose label is not listed. |
| Table.Select | data_process/preprocess.py:114 | Boolean-mask selection never returns more elements than it is given; `Table.SelectAt` gives its exact value. |
| Table.SelectAt | data_process/preprocess.py:114 | Mask selection returns the elements at the mask's true positions, in increasing position order. |
| Table.SelectMembership | data_process/preprocess.py:114 | An element is selected exactly when some true mask entry points at it. |
| Clean.HasMissing | data_process/preprocess.py:46 | `isnull().any()`: some cell of the column is missing. |
| Clean.FillNa | data_process/preprocess.py:48 | `fillna(v)` keeps the column length and replaces each missing cell by v. `Clean.Impute` states the result. |
| Clean.Impute | data_process/preprocess.py:46-48 | Present cells are unchanged and every missing cell becomes the column mean. |
| Clean.ImputeComplete | data_process/preprocess.py:46-48 | After filling, a column with any present cell has no missing cell left. A column stays all-missing only if it was so before. |
| Clean.ImputeKeepsRange | data_process/preprocess.py:46-51 | Filling with the mean changes neither the minimum nor the maximum of a column. |
| Clean.Scale | data_process/preprocess.py:56 | `(x - min) / (max - min)` for one value. `Clean.UnitScale` bounds it. |
| Clean.CleanColumn | data_process/preprocess.py:44-56 | The cleaned column has one value per cell. `Clean.ScaledColumn` and `Clean.DegenerateIffZero` give every value. |
| Clean.UnitScale | data_process/preprocess.py:56 | `(x - min) / (max - min)` sends [min, max] into [0, 1], min to 0 and max to 1. |
| Clean.ScaledColumn | data_process/preprocess.py:44-56 | For a column with distinct values: a present value x becomes (x - min) / (max - min) and a missing one the scaled mean, where min and max are taken over the present cells. Every result is in [0, 1], the minimum maps to 0 and the maximum to 1. |
| Clean.DegenerateIffZero | data_process/preprocess.py:53-54 | A cleaned column is all 0.0 exactly when the column has no present cell or all its present cells are equal. |
| Clean.NormalizeColumn | data_process/preprocess.py:44-56 | One pass of the column loop computes the cleaned column. |
| Clean.NormalizeFeatures | data_process/preprocess.py:42-57 | The column loop cleans every column, each using only its own cells. |
| Split.FaultIndices | data_process/preprocess.py:66 | The fault window has 13 labels. |
| Split.NormalIndices | data_process/preprocess.py:67-71 | The normal window has as many labels as the fault window. |
| Split.NumFaults | data_process/preprocess.py:67 | `len(fault_indices)`; `Split.FaultIndices` fixes it at 13. |
| Split.WindowsExact | data_process/preprocess.py:66-74 | The windows are exactly 91..103 and 104..116: adjacent, disjoint and of equal length. The normal window starts at 91, so the negative-start check can never raise. |
| Split.DroppedLabels | data_process/preprocess.py:86 | The labels dropped from the candidates are exactly 91..116. |
| Split.WithLabel | data_process/preprocess.py:78-81 | Entry i of the labelled rows is row i with label v: every row is kept, in order, and given the same label. |
| Split.SplitRows | data_process/preprocess.py:71-86 | Steps 6-9: the guard, the two `.loc` lookups, the test table and the `drop`. Every candidate row is a row of the table; `Split.SplitRowsFails`, `Split.TestTableExact` and `Split.CandidatesExact` give the result. |
| Split.SplitRowsFails | data_process/preprocess.py:71-77 | The split succeeds exactly when the table has at least 117 rows. Otherwise it fails with the KeyError of the fault-row lookup. |
| Split.TestTableExact | data_process/preprocess.py:77-83 | The test table has 26 rows: rows 91..103 labelled 0, then rows 104..116 labelled 1. |
| Split.CandidatesExact | data_process/preprocess.py:86 | The train candidates are the rows before 91 and from 117 on, in order: n - 26 of them. |
| Split.OutsideWindowOrigin | data_process/preprocess.py:86 | Every element of rows[..91] + rows[117..] is a row from a position outside 91..116, and there are n - 26 of them. It applies to the train candidates through `Split.CandidatesExact`, which equates them with that sequence. |
| Fence.Q1 | data_process/preprocess.py:93 | `quantile(0.25)` of feature column j over the candidates. |
| Fence.Q3 | data_process/preprocess.py:94 | `quantile(0.75)` of feature column j over the candidates. |
| Fence.Iqr | data_process/preprocess.py:95 | `IQR = Q3 - Q1` for column j; `Fence.QuartilesOrdered` shows it is never negative. |
| Fence.IqrColumns | data_process/preprocess.py:95 | The IQR series: one value per column, value j being the IQR of column j. |
| Fence.QuartilesOrdered | data_process/preprocess.py:93-95 | min <= Q1 <= Q3 <= max for every column, so IQR >= 0. |
| Fence.ValidCols | data_process/preprocess.py:98-100 | `valid_cols`: the columns with IQR > epsilon, or all columns when that list is empty. `Fence.ValidColsExact` characterises it. |
| Fence.ValidColsExact | data_process/preprocess.py:98-100 | If some column has IQR > epsilon, the valid columns are exactly those columns. Otherwise they are all the columns. Every valid column is a real column. |
| Fence.LowerBound | data_process/preprocess.py:103 | `Q1 - k * IQR` from a column's quartile and IQR. |
| Fence.UpperBound | data_process/preprocess.py:104 | `Q3 + k * IQR` from a column's quartile and IQR. |
| Fence.Lower | data_process/preprocess.py:103 | `lower_bound` of column j. |
| Fence.Upper | data_process/preprocess.py:104 | `upper_bound` of column j. |
| Fence.WidenedRange | data_process/preprocess.py:103-104 | With k >= 0 the bounds Q1 - k * IQR and Q3 + k * IQR enclose [Q1, Q3]. |
| Fence.FencesContainQuartiles | data_process/preprocess.py:93-104 | With k >= 0, every column's lower bound is at most Q1 and its upper bound at least Q3. |
| Fence.ComputeFences | data_process/preprocess.py:93-104 | There is one lower and one upper bound per column, and the valid columns are column indices. `Fence.FencesExact` states which columns and which bounds. |
| Fence.FencesValidStrict | data_process/preprocess.py:93-98 | When some column of the candidates has IQR > epsilon, the valid columns of the fences are exactly those columns. |
| Fence.FencesValidFallback | data_process/preprocess.py:99-100 | When no column has IQR > epsilon, every column is valid. |
| Fence.FencesBounds | data_process/preprocess.py:103-104 | The fences bound column j by Q1 - k * IQR and Q3 + k * IQR of that column over the candidates. |
| Fence.FencesExact | data_process/preprocess.py:93-104 | The fences the filter applies are the source's: the valid columns are those with IQR > epsilon, or all columns when none qualifies, and column j's bounds are Q1 - k * IQR and Q3 + k * IQR. |
| Fence.AnyBelow | data_process/preprocess.py:108 | `too_low.any()` holds exactly when some valid column lies strictly below its lower bound. |
| Fence.AnyAbove | data_process/preprocess.py:109 | `too_high.any()` holds exactly when some valid column lies strictly above its upper bound. |
| Fence.IsNormalRow | data_process/preprocess.py:107-110 | `is_normal_row`: no valid column too low and none too high. `Fence.KeptIffWithinFences` characterises it. |
| Fence.NormalMask | data_process/preprocess.py:113 | `mask_train_normal` has one verdict per candidate. |
| Fence.KeptIffWithinFences | data_process/preprocess.py:107-110 | A row is normal exactly when every valid column lies in its closed fence. A row that is not normal violates the fence of some valid column. |
| Fence.InvalidColumnsIrrelevant | data_process/preprocess.py:112-113 | Two rows that agree on every valid column are kept or dropped together, so columns that are not valid never decide a row's fate. |
| Fence.TrainRows | data_process/preprocess.py:112-114 | The train table has no more rows than the candidates, and each of its rows is a candidate. |
| Fence.TrainExact | data_process/preprocess.py:112-114 | The train table is the subsequence of the candidates, in order, at exactly the positions whose row lies within every valid fence. |
| Preprocess.Assemble | data_process/preprocess.py:59-63 | `processed_df` has one row per timestamp and one feature per cleaned column. `Preprocess.ProcessedRows` gives every cell. |
| Preprocess.Processed | data_process/preprocess.py:59-63 | The processed table has one row per input row and m features per row. |
| Preprocess.ProcessedRows | data_process/preprocess.py:42-63 | Every processed row keeps its timestamp. Its feature j is the cleaned column j at that row, so columns do not influence each other. Every feature value lies in [0, 1]. |
| Preprocess.Preprocess | data_process/preprocess.py:23-114 | The routine as one function: cleaning, the split and the filter. `Preprocess.PreprocessFails`, `Preprocess.PreprocessOutput` and `Preprocess.TrainOutsideWindows` characterise it. |
| Preprocess.PreprocessWithRowSplit | data_process/preprocess.py:23-114 | The routine as written (the column loop, the split, the filter) computes `Preprocess`. |
| Preprocess.PreprocessFails | data_process/preprocess.py:66-86 | The routine succeeds exactly when the table has at least 117 rows. Otherwise it fails with a KeyError. |
| Preprocess.PreprocessOutput | data_process/preprocess.py:76-114 | On 117 rows or more, the test table holds processed rows 91..103 labelled 0 and then 104..116 labelled 1. The train table is the IQR filter applied to the other processed rows, in order. |
| Preprocess.TrainOutsideWindows | data_process/preprocess.py:86-114 | There are at most n - 26 train rows. Each is a processed row from a position outside 91..116. |

## Left out

- Split.WithLabel: column names are not modelled. If a feature column is already named `label`, lines 78 and 81 overwrite it with the 0/1 label, so the source's test table loses that scaled feature. The model always keeps every feature and adds the label beside them.
- Reading the CSV file (line 31) and writing the two output files and their directory (lines 116-131) are not modelled. The model takes the parsed table and returns the two tables.
- Choosing the timestamp column by name, or the first column by default (lines 33-39), is not modelled. The table is given already split into its timestamp column and its feature columns, in file order.
- The progress messages and the example run under `__main__` are left out. They have no effect on the result.
- Floating point is not modelled. Values are exact reals, so rounding in the mean, the scaling and the quantile interpolation is not captured. `epsilon` and `k` are arbitrary reals (defaults 1e-6 and 1.5).
- Non-numeric feature columns and the library's dtype handling are not modelled. Every feature cell is a number or missing.
- The ValueError at line 74 speaks of too few rows, but the check at line 73 guarding it cannot fire (`Split.WindowsExact`). A table shorter than 117 rows fails instead with the KeyError of the `.loc` lookup at line 77 (`Split.SplitRowsFails`).
- Stats.Quantile: the library's quantile of an empty column (a missing value) is not modelled. The function requires a non-empty column. The filter only runs on a non-empty candidate table, and after a successful split there are at least 91 candidates.
- Fence.TrainRows: an empty candidate table gives an empty train table without computing quartiles. This case cannot arise after a successful split.
- The row index values of the returned frames (all reset to 0..n-1) are represented by position in the sequence.
- The other scripts of the repository (web automation, workflow and plotting) are not part of this model.
