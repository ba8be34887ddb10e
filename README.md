# Imputation benchmark: injector, imputers and evaluator

The repository benchmarks missing-value imputation on tabular time series. It
takes a complete table and overwrites a share of the cells of some numeric
columns with NaN, in one of two modes:

- "random" picks single cells;
- "burst" blanks runs of five consecutive rows in one column.

It then fills the gaps with one of three imputers: the column mean, an
iterative imputer, or a soft imputer. Finally it scores each filled column
against the original by mean absolute error (MAE) and root mean squared
error (RMSE). The scores use only the rows where both tables hold a value.

The project follows the program's source files, one module each:

- `tables.dfy` (module `Tables`): the table.
  - `Table` is a value. It holds the ordered column names, a map from name to
    column (`seq<Option<real>>`, where `None` is NaN) and the row count.
  - `Frame` is a class wrapping the same three fields. It is the pandas
    DataFrame that the code updates in place with `.at`, `.loc` and
    `df[columns] = ...`.
  - `KeepPresent` is the `[c for c in names if c in df.columns]` filter that
    the injector and every imputer use.
- `missing_values.dfy` (module `MissingValues`): `introduce_missing_values`.
  - `IntroduceMissingValues` is the method. It writes into a fresh copy, cell
    by cell in `RandomPicks` and burst by burst in `Bursts`.
  - It is proved equal to the function `Inject`. The lemmas about `Inject`
    state what the injector promises.
  - The seeded generators are replaced by the values they hand the call
    (`Draws`). The result is therefore a function of the table, the arguments
    and those draws.
  - A seed outside 0 .. 2^32 - 1 makes `np.random.seed` raise before the copy
    is made; the model returns the `SeedRange` error for it.
- `imputation_algs.dfy` (module `ImputationAlgs`): `remove_unwanted_columns`
  and the three imputers.
  - The imputers project the table into a new frame, then assign the fitted
    columns into it.
  - The mean imputer's output is computed in the model: each gap gets its
    column's mean.
  - For the iterative and soft imputers, the fitted matrix is a parameter.
  - Every imputer's input validation refuses a matrix with no columns (an
    empty `columns` list) or no rows. The model returns an `EmptyMatrix`
    error there, after the KeyError that an absent column raises first.
- `sums.dfy` (module `Sums`): sums of reals, shared by the mean imputer and
  the error metrics.
- `statistics_functions.dfy` (module `StatisticsFunctions`): `compute_mae` and
  `compute_rmse`.
  - Each is a loop that fills a dictionary from a per-column metric over the
    masked rows.
  - `sqrt` is a parameter, required to return the non-negative square root.

## Model

| member | source | states |
|---|---|---|
| Tables.Table.SetMissing | missing_values.py:39 | `df.at[row, col] = nan` keeps the column order, the row count and the set of columns |
| Tables.Table.SetMissingRange | missing_values.py:51 | `df.loc[lo:hi-1, col] = nan` keeps the column order, the row count and the set of columns |
| Tables.SetMissingRangeWellFormed | missing_values.py:51 | blanking a range keeps every column the table's length and every named column present |
| Tables.SetMissingRangeCell | missing_values.py:51 | after blanking rows lo..hi-1 of `col`, a cell is NaN if it is in that range of `col`; every other cell keeps its value |
| Tables.MarkRange | missing_values.py:51 | the cells of one column after the slice write keep the column's length; which cells become NaN is stated by `SetMissingRangeCell` |
| Tables.KeepPresent | missing_values.py:21 | a name survives the filter exactly when it was requested and is a column; each surviving name occurs exactly as often as in the request; the result is no longer than the request |
| Tables.KeepPresentPreservesOrder | imputation_algs.py:15 | the filtered names are a subsequence of the requested ones, in the requested order |
| Tables.KeepPresentIdempotent | missing_values.py:55 | filtering the already filtered names again returns them unchanged, which is what the fallback re-invocation relies on |
| Tables.KeepPresentSameMembers | imputation_algs.py:15 | the filter's result depends only on which requested names are columns |
| Tables.KeepPresentAllPresent | imputation_algs.py:15 | when every requested name is a column, nothing is dropped |
| Tables.Frame.constructor | missing_values.py:20 | `df.copy()`: a new frame holding the same table |
| Tables.Frame.SetMissing | missing_values.py:39 | the in-place `.at` write leaves the frame well formed and holding `Table.SetMissing` of its old value |
| Tables.Frame.SetMissingRange | missing_values.py:51 | the in-place `.loc` slice write leaves the frame well formed and holding `Table.SetMissingRange` of its old value |
| Tables.Frame.AssignColumns | imputation_algs.py:39 | `df[columns] = block` replaces exactly the assigned columns; column order and row count are unchanged |
| MissingValues.Trunc | missing_values.py:29 | `int()` truncates toward zero: r <= x < r + 1 for x >= 0, and r - 1 < x <= r below 0 |
| MissingValues.NumMissing | missing_values.py:29 | `int(total * p / 100)` truncates toward zero: for p >= 0 it is the whole part of total * p / 100, and for p < 0 it is the negated whole part of its magnitude |
| MissingValues.NumPicks | missing_values.py:36 | `range(num_missing)` runs `num_missing` times, and not at all for a negative count |
| MissingValues.NumBursts | missing_values.py:46 | `max(1, num_missing // 5)` is at least 1, is 1 below ten cells, and otherwise counts the whole bursts in the budget: 5r <= num_missing < 5(r + 1) |
| MissingValues.PickCells | missing_values.py:36-38 | pick k names the cell at the k-th drawn row of the k-th chosen column, for each of the n picks; all of them are in the filtered target columns |
| MissingValues.PickCellsCover | missing_values.py:36-39 | after random mode, the cell of every pick is NaN, whatever later picks did |
| MissingValues.Block | missing_values.py:51 | one burst covers exactly rows start..start+4 of one column |
| MissingValues.BurstCells | missing_values.py:48-51 | n bursts cover 5n cells (counted with repeats), all in the filtered target columns |
| MissingValues.ApplyPicks | missing_values.py:36-39 | the picks keep the column order, the row count and the set of columns |
| MissingValues.ApplyBursts | missing_values.py:48-51 | the bursts keep the column order, the row count and the set of columns |
| MissingValues.Inject | missing_values.py:5-57 | the call fails exactly when the seed is outside 0 .. 2^32 - 1 (the seed-range error, raised before any column is looked at) or when a target column exists, the mode is "burst" and the table has fewer than five rows (the empty-range error); otherwise the result is well formed with the same columns and rows; with an accepted seed and no valid target column the result is the input |
| MissingValues.RandomPicks | missing_values.py:36-39 | the random-mode loop leaves the frame holding `ApplyPicks` of its old value |
| MissingValues.Bursts | missing_values.py:48-51 | the burst-mode loop leaves the frame holding `ApplyBursts` of its old value |
| MissingValues.IntroduceMissingValues | missing_values.py:5-57 | the method returns a freshly allocated frame holding `Inject`'s table, or `Inject`'s error; it never writes the input frame |
| MissingValues.ApplyPicksWellFormed | missing_values.py:36-39 | the picks keep the table well formed |
| MissingValues.ApplyBurstsWellFormed | missing_values.py:48-51 | the bursts keep the table well formed |
| MissingValues.ApplyPicksCell | missing_values.py:36-39 | after the picks, a cell is NaN if some pick named it; every other cell keeps its value |
| MissingValues.ApplyBurstsCell | missing_values.py:48-51 | after the bursts, a cell is NaN if some burst covered it; every other cell keeps its value |
| MissingValues.ApplyPicksOthers | missing_values.py:39 | a column that is not a target keeps all its cells in random mode |
| MissingValues.ApplyBurstsOthers | missing_values.py:51 | a column that is not a target keeps all its cells in burst mode |
| MissingValues.BurstCellsOnlyBlocks | missing_values.py:48-51 | conversely, every covered cell lies in rows start..start+4 of some burst's column |
| MissingValues.BurstCellsCover | missing_values.py:48-51 | every row start..start+4 of every burst's column is among the covered cells |
| MissingValues.RandomChangesBounded | missing_values.py:36-39 | in random mode every changed cell is a NaN in a target column, other columns are untouched, and at most one cell changes per pick |
| MissingValues.BurstChangesBounded | missing_values.py:45-51 | in burst mode every changed cell is a NaN in a target column, within rows start..start+4 of some burst of that column; other columns are untouched, at most 5 cells change per burst, and every cell of every burst is NaN |
| MissingValues.InjectOnlyBlanksTargets | missing_values.py:20-57 | in every mode, including the fallback, a successful call changes only cells of requested columns, and each changed cell becomes NaN |
| MissingValues.RandomOnlyBlanksTargets | missing_values.py:34-39 | random mode succeeds exactly when the seed is accepted, and then changes only cells of requested columns, each to NaN |
| MissingValues.BurstOnlyBlanksTargets | missing_values.py:41-51 | a successful burst-mode call changes only cells of requested columns, each to NaN |
| MissingValues.RandomBudget | missing_values.py:27-39 | random mode succeeds exactly when the seed is accepted, and then blanks no more cells than `num_missing` (when that is positive), because repeated picks are allowed |
| MissingValues.BurstBudget | missing_values.py:45-51 | with at least five rows, burst mode succeeds exactly when the seed is accepted; then each of its `max(1, num_missing // 5)` bursts leaves rows start..start+4 of its column NaN, every changed cell lies in such a run, and at most 5 cells per burst change |
| MissingValues.UnknownTypeFallsBack | missing_values.py:53-55 | an unknown mode gives the result of "random" on the same table and filtered columns with the re-invocation's draws; with a seed, those are the first attempt's draws |
| MissingValues.NumMissingBounds | missing_values.py:27-29 | for p in the percentage range, given in either order, `num_missing` lies between the counts for the smaller and the larger end, and between 0 and the number of target cells when the range is within 0..100 |
| MissingValues.NumMissingMonotone | missing_values.py:29 | a larger percentage never gives a smaller `num_missing` |
| MissingValues.NumMissingAll | missing_values.py:29 | 100 percent of the target cells is all of them |
| MissingValues.TruncMonotone | missing_values.py:29 | `int()` is monotone on all values, negative ones included |
| ImputationAlgs.RemoveUnwantedColumns | imputation_algs.py:6-20 | the projection keeps exactly the requested names that are columns, in requested order, with the row count and their values unchanged |
| ImputationAlgs.KeepAllColumns | imputation_algs.py:15-18 | projecting onto all of a table's columns gives the table back |
| ImputationAlgs.RemoveUnwantedColumnsIdempotent | imputation_algs.py:15-18 | projecting twice onto the same names gives the same table as projecting once |
| ImputationAlgs.Complete | imputation_algs.py:39 | an imputed column has no NaN, and holds the imputer's values in order |
| ImputationAlgs.Absent | imputation_algs.py:39 | the names pandas reports as missing are exactly the requested names that are not columns |
| ImputationAlgs.Impute | imputation_algs.py:33-39 | an imputer succeeds exactly when every requested name is a column, the list is not empty and the table has rows; an absent name gives a KeyError naming the absent columns; otherwise an empty list or an empty table gives the empty-matrix error; a success has exactly the requested columns, in that order, the same rows, and the fitted values, so non-target columns such as `date` are dropped |
| ImputationAlgs.AssignFitted | imputation_algs.py:39 | the assignment replaces the target columns with the fitted values and keeps every other column |
| ImputationAlgs.Observed | imputation_algs.py:36-39 | the observed values of a column: each value occurs exactly as often as a non-NaN cell holding it, so every non-NaN cell is included once and nothing else is |
| ImputationAlgs.FillWith | imputation_algs.py:39 | filling keeps every observed cell and puts the fill value in every gap |
| ImputationAlgs.MeanFill | imputation_algs.py:36-39 | `SimpleImputer(strategy='mean')` on one column keeps its length, keeps every observed value and puts the mean of the observed values in every gap |
| ImputationAlgs.MeanFitted | imputation_algs.py:36-39 | the mean imputer yields one column of the table's length for each requested column present |
| ImputationAlgs.SimpleImpute | imputation_algs.py:23-44 | `simple_imputation` succeeds exactly when every requested name is a column, the list is not empty and the table has rows; the error is the KeyError for absent names, else the empty-matrix error; a success has exactly the requested columns and the same rows |
| ImputationAlgs.SimpleImputeNoRows | imputation_algs.py:23-44 | on a table without rows whose requested columns all exist, `simple_imputation` fails with the empty-matrix error of the input validation, whatever the column values |
| ImputationAlgs.SimpleImputeFillsGaps | imputation_algs.py:23-39 | after mean imputation no target cell is NaN, observed cells keep their value, and each gap holds its column's mean of observed values |
| ImputationAlgs.MeanFillKeepsMean | imputation_algs.py:36-39 | the mean of a mean-filled column equals the mean of its observed values |
| ImputationAlgs.MeanFillComplete | imputation_algs.py:39 | a column without gaps comes out of the mean imputer unchanged |
| ImputationAlgs.MeanFillIdempotent | imputation_algs.py:39 | mean-filling a mean-filled column changes nothing |
| ImputationAlgs.ImputeColumns | imputation_algs.py:33-39 | the shared imputer body returns a new frame holding `Impute`'s table, or `Impute`'s error, and never writes the caller's frame |
| ImputationAlgs.SimpleImputation | imputation_algs.py:23-44 | `simple_imputation(df, columns, 'mean')` returns a new frame holding the mean-imputed projection, or `SimpleImpute`'s error |
| ImputationAlgs.MultipleImputation | imputation_algs.py:46-67 | `multiple_imputation` returns a new frame with exactly the target columns and the input's rows, holding the imputer's values, or `Impute`'s error |
| ImputationAlgs.EmImputation | imputation_algs.py:69-90 | `em_imputation` returns a new frame with exactly the target columns and the input's rows, holding the imputer's values, or `Impute`'s error |
| StatisticsFunctions.BothPresent | statistics_functions.py:121 | the mask: a row is scored when both its original and its imputed value are present |
| StatisticsFunctions.Masked | statistics_functions.py:121-122 | every row where both values are present contributes its pair; each pair occurs exactly as often as the rows holding it with both values present, which fixes the scores' denominator; there are no more pairs than rows |
| StatisticsFunctions.MaskedFromBothPresent | statistics_functions.py:121 | every scored pair comes from a row where both values are present |
| StatisticsFunctions.MaskedIgnoresMissing | statistics_functions.py:121-122 | two column pairs that are present in the same rows and agree there are scored identically, whatever the other rows hold |
| StatisticsFunctions.Mae | statistics_functions.py:122 | MAE over the masked rows is non-negative |
| StatisticsFunctions.Mse | statistics_functions.py:138 | the mean squared error over the masked rows is non-negative |
| StatisticsFunctions.AgreeingPairs | statistics_functions.py:122 | pairs whose two values agree contribute nothing to either sum |
| StatisticsFunctions.MaskedOfSelf | statistics_functions.py:121 | a column scored against itself yields only agreeing pairs |
| StatisticsFunctions.SelfScoreZero | statistics_functions.py:122 | a column scored against itself has MAE 0 and mean squared error 0 |
| StatisticsFunctions.SelfRmseZero | statistics_functions.py:138 | a column scored against itself has RMSE 0 |
| StatisticsFunctions.SquareOfMeanBound | statistics_functions.py:138 | the square of a mean never exceeds the mean of the squares |
| StatisticsFunctions.RmseAtLeastMae | statistics_functions.py:121-122 | over the same masked rows, RMSE is never below MAE |
| StatisticsFunctions.ComputeMae | statistics_functions.py:113-127 | the result has a key for exactly the requested columns present in both tables, and each value is that column's MAE over the masked rows |
| StatisticsFunctions.ComputeRmse | statistics_functions.py:129-143 | the result has a key for exactly the requested columns present in both tables, and each value is non-negative with its square equal to the masked mean squared error |

## Left out

- Plotting, CSV loading, `show_basic_info`, `check_missing_values`, `apply_analitics`, printing and the warnings: these are I/O with no effect on the returned values.
- main.py: its loop over datasets and scenarios is constant configuration plus a blocking `input()` pause.
- The wall-clock timing in the imputers: observability only.
- Python's Mersenne Twister: random values are the `Draws` parameter. Its ranges (`InRange`, `PicksFit`, `BurstsFit`) say what `uniform`, `randint` and `choice` can return.
- Floating point: cells, percentages and scores are `real`, so float rounding is not modelled.
- The internals of `IterativeImputer` and `SoftImpute`: foreign code. The imputed values are a parameter, so only the result's shape and the assignment are modelled.
- The `median` and `most_frequent` strategies of `SimpleImputer`: the program only ever asks for `mean`.
- The square root: it is a parameter of `ComputeRmse` that returns the non-negative root.
- StatisticsFunctions.ComputeMae: requires at least one scored row per scored column. The library's behaviour on an empty mask is not visible here.
- StatisticsFunctions.ComputeRmse: requires at least one scored row per scored column, for the same reason.
- ImputationAlgs.SimpleImputation: requires at least one observed value in each target column of a table that has rows. `SimpleImputer` drops an all-NaN column, and that behaviour is not modelled. A table without rows is allowed and gives `EmptyMatrix`, as `SimpleImputeNoRows` states.
- ImputationAlgs.SimpleImpute: the same requirement as `SimpleImputation`, for the same reason.
- ImputationAlgs.MultipleImputation: requires `fitted` to hold a full-length column for every target. `IterativeImputer` drops a feature with no observed value, and then the assignment at imputation_algs.py:62 raises; that error is not modelled.
- ImputationAlgs.EmImputation: requires `fitted` to hold a full-length column for every target, because the shape of `SoftImpute`'s output is foreign code.
- StatisticsFunctions.ComputeMae: requires both tables to have the same row count. Rows are compared by position, which matches pandas' label alignment for the 0..n-1 row labels the program uses.
- StatisticsFunctions.ComputeRmse: requires both tables to have the same row count, for the same reason.
- Tables.MarkRange: its own contract states only the length. The per-cell effect is proved once about the slice write in `SetMissingRangeCell`, because a per-index postcondition on `MarkRange` is instantiated in every burst proof and makes them too costly.
- Tables.Frame.SetMissing: requires the row to exist. `.at` on a new label would add a row, but the draws never name one.
- Duplicate column names: a table maps each name to one column, so duplicated names share their data. Repeated requested names are kept, as pandas keeps them in `df[cols].size`.
- MissingValues.Inject: when a burst-mode call fails on a short table, the model does not say which draws were consumed before `randint` raised. The draws are a parameter and nothing observes that.
