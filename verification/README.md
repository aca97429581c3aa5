# Weekly prediction-accuracy heatmaps, modelled in Dafny

The script `draw_5_2_3.py` reads a table of per-week elimination predictions
(season, week, predicted elimination, actual elimination). It scores each
season/week by the share of correct predictions and draws two heatmaps of
those scores: a continuous one on the scale [0, 1], and a binary one that
splits the cells at a threshold (0.75 by default). This project models the
data side of that script and proves what it computes:

- `columns.dfy` (module `Columns`): the fixed map that renames the localized
  headers to `Season`, `Week`, `PredictedElim` and `ActualElim`, and the check
  that reports which of these four names are still missing.
- `weekly.dfy` (module `Weekly`): `build_weekly_accuracy`. It flags each
  record correct when its prediction equals the actual elimination, groups the
  records by (Season, Week), and gives each group the accuracy
  correct / (correct + incorrect) as an exact `real`.
- `ordering.dfy` (module `Ordering`): the two set helpers the grid step uses.
  One gives the sorted distinct seasons, the other the largest week.
- `heatmap.dfy` (module `Heatmap`): the grid shared by both plots. It has one
  row per distinct season in ascending order and one column per week
  1..max week. A cell with no group is `None`, so it is never the same as an
  accuracy of 0. The module also builds the mask of missing cells and the
  `>= threshold` binary grid.
- `plots.dfy` (module `Plots`): the data side of `plot_accuracy_heatmap` and
  `plot_binary_accuracy_heatmap`. It also holds the lemmas that tie the grid
  back to the input records: threshold monotonicity, every record shown, and
  a worked example.
- `wrappers.dfy` (module `Wrappers`): `Option` and `Result`.

The two plot functions contain the same grid code twice. It is modelled once,
as `Heatmap.BuildGrid`.

Accuracy is an exact rational built from integer counts. A missing cell is
`Option.None`, not a floating-point NaN. The input is an already parsed
sequence of `Weekly.Record` values plus the list of header names. The header
list decides the column check. The records carry the four canonical fields.

In two places the script behaves differently from what one might expect, and the model follows the script:

- An empty aggregated table is an error, not a blank image. When no groups
  form, `build_weekly_accuracy` returns `pd.DataFrame([])`, which has no
  columns at all. The plot functions then fail on `weekly_acc["Season"]` with
  a `KeyError`. The model returns `Failure(NoWeeklyData)` for this case
  (`Heatmap.BuildGrid`, `Plots.AccuracyHeatmap`).
- Only weeks 1..max week become columns. A group whose week is below 1 is
  dropped when the pivot is reindexed. If every week is below 1, the grid has
  rows but no columns.

## Model

| member | source | states |
|---|---|---|
| Columns.LocalLabel | draw_5_2_3.py:9-14 | each required name has a localized header that the rename map sends to it |
| Columns.Rename | draw_5_2_3.py:15 | the rename keeps length and position; a header not in the map keeps its name; a required name appears at a position exactly when that header was the name itself or the localized label the map sends to it |
| Columns.MissingColumns | draw_5_2_3.py:17-18 | the reported set holds only required names; a required name is reported exactly when the original headers contain neither that name nor its localized label |
| Columns.RenamedToRequired | draw_5_2_3.py:15-18 | a required name appears after renaming exactly when the original headers had it or its localized label |
| Columns.CanonicalHeadersPass | draw_5_2_3.py:15-20 | any header list that holds no localized label and holds all four required names is left unchanged by the rename and passes the check |
| Columns.MissingActualReported | draw_5_2_3.py:17-20 | when the localized actual-elimination header is missing, exactly {ActualElim} is reported |
| Weekly.Flags | draw_5_2_3.py:23 | one IsCorrect flag per row; the flag is true exactly when PredictedElim equals ActualElim |
| Weekly.GroupOf | draw_5_2_3.py:27 | a group holds only rows with its (Season, Week); it is non-empty exactly when that pair occurs in the input |
| Weekly.GroupOfComplete | draw_5_2_3.py:27 | a group is exactly the filter of the rows on its key: each row with that (Season, Week) occurs in the group as often as in the input, and no other row occurs |
| Weekly.Tally | draw_5_2_3.py:27-30 | one entry per (Season, Week) that occurs and no other; each entry holds the correct and incorrect counts of that group's flags |
| Weekly.Accuracy | draw_5_2_3.py:31 | the result lies in [0,1]; with total > 0 it times total equals correct; with total 0 it is 0; it is 1 exactly when total > 0 and nothing is incorrect; it is 0 exactly when nothing is correct |
| Weekly.BuildWeeklyAccuracy | draw_5_2_3.py:8-39 | fails exactly when a required column is missing, reporting exactly the missing names; otherwise one entry per occurring (Season, Week), each equal to correct records / group size, in [0,1], 1 exactly when all rows are correct and 0 exactly when none is |
| Weekly.CountsPartition | draw_5_2_3.py:28-30 | true flags plus false flags equal the number of flags |
| Weekly.CountsPartitionGroup | draw_5_2_3.py:28-31 | for every formed group, correct + incorrect equals the group size, which is positive, so the `else 0` branch is never taken |
| Weekly.AllCorrectIffFull | draw_5_2_3.py:28-31 | the correct count equals the group size exactly when every row of the group is correct |
| Weekly.NoneCorrectIffZero | draw_5_2_3.py:28-31 | the correct count is 0 exactly when no row of the group is correct |
| Weekly.WeeklyAccuracy | draw_5_2_3.py:26-38 | the table has exactly one entry per (Season, Week) pair that occurs; each entry is the number of correct records in its group over the group size, is in [0,1], and is 1 (0) exactly when every (no) record of the group is correct |
| Weekly.CountsMeaning | draw_5_2_3.py:28-31 | the accuracy of a non-empty group's counts is correct / size, lies in [0,1], and is 1 (0) exactly when all (none) of its rows are correct |
| Ordering.SortSet | draw_5_2_3.py:46 | the seasons come out strictly ascending, each once, and are exactly the elements of the set |
| Ordering.SetMax | draw_5_2_3.py:47 | the result is an element of the set and no element exceeds it |
| Heatmap.WeekRange | draw_5_2_3.py:48 | the columns are 1..maxWeek with no gaps (empty when maxWeek < 1); column j holds week j+1 |
| Heatmap.Pivot | draw_5_2_3.py:50-53 | the reindexed pivot has the given row and column labels, is rectangular, and holds the table's accuracy for each (season, week) label pair, or missing when the table has no such entry |
| Heatmap.Mask | draw_5_2_3.py:55 | the mask has the grid's shape and is true exactly on the missing cells |
| Heatmap.Binarize | draw_5_2_3.py:91 | the binary grid has the grid's shape; a cell is 1 exactly when it is present and at or above the threshold, and 0 otherwise, so a missing cell is 0 |
| Heatmap.BuildGrid | draw_5_2_3.py:46-53 | fails exactly on an empty table; otherwise the grid is rectangular, its rows are the table's distinct seasons in ascending order, its columns are 1..n where n is the largest week, no week of the table exceeds n, and each cell is the table's accuracy for its pair or missing |
| Plots.AccuracyHeatmap | draw_5_2_3.py:42-55 | fails exactly when a column is missing (with the missing names) or when there are no records; otherwise the rows are the records' seasons in ascending order, each cell is missing exactly when its group is empty and otherwise holds that group's accuracy, and the mask is true exactly on the empty groups |
| Plots.BinaryAccuracyHeatmap | draw_5_2_3.py:76-91 | same errors and same grid and mask as the continuous heatmap; every binary value is 0 or 1; a masked cell is 0; an unmasked cell is 1 exactly when the group's correct count is at least threshold times its size |
| Plots.AtThresholdMeaning | draw_5_2_3.py:91 | accuracy >= threshold exactly when correct count >= threshold × group size |
| Plots.ThresholdMonotone | draw_5_2_3.py:89-91 | raising the threshold leaves the grid and the mask unchanged and can only turn binary cells from 1 to 0 |
| Plots.DescribedThresholdMonotone | draw_5_2_3.py:89-91 | for any two binary views of the same records that share grid and mask, no cell of the higher-threshold view is above the same cell of the lower-threshold view |
| Plots.RecordsAreShown | draw_5_2_3.py:46-55 | every record with week >= 1 has a present, unmasked cell at its season's row and its week's column |
| Plots.EmptyTableMeansNoRows | draw_5_2_3.py:38-47 | the aggregated table is empty exactly when there are no records, which is when the grid step fails |
| Plots.WorkedExample | draw_5_2_3.py:76-91 | records (1,1,A,A), (1,1,B,C), (1,2,A,A) give one row for season 1, columns 1 and 2, accuracies 0.5 and 1, binary values 0 and 1 at 0.75, and no masked cell |
| Plots.ExampleCells | draw_5_2_3.py:80-91 | any binary view that describes the example records at threshold 0.75 has cells [[0.5, 1]], binary values [[0, 1]] and no masked cell |

## Left out

- `draw_5_1_2.py` is not part of this model. It is fixed flowchart layout
  with no data and no invariant.
- Rendering is not modelled: colour maps, figure size, titles, axis labels,
  the colour-bar text `int(threshold*100)`, `savefig` and `close`
  (draw_5_2_3.py:57-73, draw_5_2_3.py:93-109).
- CSV reading with the BOM-tolerant encoding (draw_5_2_3.py:43,
  draw_5_2_3.py:77) and the path handling in `__main__`
  (draw_5_2_3.py:112-119) are left out. The model takes the header list and
  the parsed records as parameters.
- Floating point is not modelled. Accuracy is an exact `real`, so results
  can differ from the script's float division in the last bits.
- pandas NaN semantics are not modelled. Record fields are never missing, so
  a NaN prediction (which compares unequal to everything) and a NaN key
  (which `groupby` drops) cannot occur.
- Seasons and weeks are integers. A non-numeric Week column, or seasons with
  another ordering, is not modelled.
- Duplicate headers after renaming are not modelled. If the header list
  holds both `赛季` and `Season`, the script ends up with two `Season` columns,
  and `groupby(["Season", "Week"])` (draw_5_2_3.py:27) raises a `ValueError`.
  `Weekly.BuildWeeklyAccuracy` accepts such a header list and returns
  `Success`, because its records already carry one value per field.
- The row order of the aggregated DataFrame is not modelled. `groupby`
  yields it sorted by (Season, Week), but the model keeps the table as a map.
  Nothing downstream depends on the order: the grid step sorts the seasons
  itself.
- The exception text (`Missing columns: {...}`) is not modelled. The error
  carries the set of missing names.
- The default threshold is `Heatmap.DefaultThreshold` (0.75). The model's
  binary function always takes the threshold as an explicit argument.
