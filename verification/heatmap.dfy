/**
  The grid behind both heatmaps: the accuracy table pivoted into one row per
  distinct season (ascending) and one column per week 1..max week, with cells
  that have no (Season, Week) group left missing; the mask of missing cells;
  and the thresholded binary version of the grid.
 */
module Heatmap {
  import opened Wrappers
  import opened Ordering
  import opened Weekly

  /** The threshold the binary heatmap uses unless told otherwise. */
  const DefaultThreshold: real := 0.75

  /** Row labels, column labels and cells (None = missing) of a heatmap. */
  datatype Grid = Grid(seasons: seq<int>, weeks: seq<int>, cells: seq<seq<Option<real>>>)

  /** A grid whose cells form a |seasons| x |weeks| rectangle. */
  predicate Shaped(g: Grid)
  {
    && |g.cells| == |g.seasons|
    && forall i :: 0 <= i < |g.cells| ==> |g.cells[i]| == |g.weeks|
  }

  function SeasonsOf(table: AccuracyTable): set<int>
  {
    set k | k in table :: k.season
  }

  function WeeksOf(table: AccuracyTable): set<int>
  {
    set k | k in table :: k.week
  }

  /** The week columns 1, 2, ..., maxWeek: contiguous, even for weeks never observed. */
  function WeekRange(maxWeek: int): (weeks: seq<int>)
    ensures |weeks| == if maxWeek > 0 then maxWeek else 0
    ensures forall j :: 0 <= j < |weeks| ==> weeks[j] == j + 1
    ensures StrictlyIncreasing(weeks)
    ensures forall w :: w in weeks <==> 1 <= w <= maxWeek
  {
    var n := if maxWeek > 0 then maxWeek else 0;
    var weeks := seq(n, i requires 0 <= i < n => i + 1);
    forall w | 1 <= w <= maxWeek ensures w in weeks {
      assert weeks[w - 1] == w;
    }
    weeks
  }

  /** The pivoted cell for one (season, week): the group's accuracy, or missing. */
  function Cell(table: AccuracyTable, season: int, week: int): Option<real>
  {
    var k := Key(season, week);
    if k in table then Some(table[k]) else None
  }

  /**
    The grid of a non-empty table: rectangular; one row per distinct season of
    the table, ascending; columns 1..n with no gaps, where n is the largest week
    of the table (no columns when that week is below 1); every cell the table's
    accuracy for its (Season, Week), or missing when the table has no entry.
   */
  ghost predicate GridOfTable(g: Grid, table: AccuracyTable)
  {
    && Shaped(g)
    && StrictlyIncreasing(g.seasons)
    && (forall s :: s in g.seasons <==> s in SeasonsOf(table))
    && (forall j :: 0 <= j < |g.weeks| ==> g.weeks[j] == j + 1)
    && (forall k | k in table :: k.week <= |g.weeks|)
    && (|g.weeks| == 0 || |g.weeks| in WeeksOf(table))
    && (forall i, j :: 0 <= i < |g.seasons| && 0 <= j < |g.weeks| ==>
          g.cells[i][j] == Cell(table, g.seasons[i], g.weeks[j]))
  }

  /**
    Pivots the accuracy table and reindexes it to the sorted seasons and the
    weeks 1..max week. An empty table has no Season or Week column at all, so
    the lookup of those columns fails.
   */
  function BuildGrid(table: AccuracyTable): (r: Result<Grid, AccuracyError>)
    ensures r.Failure? <==> |table| == 0
    ensures r.Failure? ==> r.error == NoWeeklyData
    ensures r.Success? ==> GridOfTable(r.value, table)
  {
    if |table| == 0 then Failure(NoWeeklyData)
    else
      GridOfNonEmptyTable(table);
      Success(PivotAll(table))
  }

  /** The pivot of a non-empty table over its sorted seasons and weeks 1..max week. */
  function PivotAll(table: AccuracyTable): Grid
    requires |table| > 0
  {
    NonEmptyTable(table);
    Pivot(table, SortSet(SeasonsOf(table)), WeekRange(SetMax(WeeksOf(table))))
  }

  lemma GridOfNonEmptyTable(table: AccuracyTable)
    requires |table| > 0
    ensures GridOfTable(PivotAll(table), table)
  {
    NonEmptyTable(table);
    var seasons := SortSet(SeasonsOf(table));
    var maxWeek := SetMax(WeeksOf(table));
    var weeks := WeekRange(maxWeek);
    WeeksBelowMax(table, maxWeek, weeks);
    PivotIsGrid(table, seasons, weeks);
  }

  /** Pivoting over the right labels gives the grid of the table. */
  lemma PivotIsGrid(table: AccuracyTable, seasons: seq<int>, weeks: seq<int>)
    requires StrictlyIncreasing(seasons)
    requires forall s :: s in seasons <==> s in SeasonsOf(table)
    requires forall j :: 0 <= j < |weeks| ==> weeks[j] == j + 1
    requires forall k | k in table :: k.week <= |weeks|
    requires |weeks| == 0 || |weeks| in WeeksOf(table)
    ensures GridOfTable(Pivot(table, seasons, weeks), table)
  {
  }

  /** Every week of the table fits the columns, and the last column is a week of the table. */
  lemma WeeksBelowMax(table: AccuracyTable, maxWeek: int, weeks: seq<int>)
    requires WeeksOf(table) != {} && maxWeek == SetMax(WeeksOf(table))
    requires weeks == WeekRange(maxWeek)
    ensures forall k | k in table :: k.week <= |weeks|
    ensures |weeks| == 0 || |weeks| in WeeksOf(table)
  {
    forall k | k in table ensures k.week <= |weeks| {
      assert k.week in WeeksOf(table);
    }
  }

  /** A table with an entry has at least one season and one week. */
  lemma NonEmptyTable(table: AccuracyTable)
    requires |table| > 0
    ensures SeasonsOf(table) != {} && WeeksOf(table) != {}
  {
    var k := PickOne(table.Keys);
    assert k.season in SeasonsOf(table);
    assert k.week in WeeksOf(table);
  }

  /** The pivot reindexed to the given row and column labels. */
  function Pivot(table: AccuracyTable, seasons: seq<int>, weeks: seq<int>): (g: Grid)
    ensures g.seasons == seasons && g.weeks == weeks
    ensures Shaped(g)
    ensures forall i, j :: 0 <= i < |seasons| && 0 <= j < |weeks| ==>
      g.cells[i][j] == Cell(table, seasons[i], weeks[j])
  {
    var cells := seq(|seasons|, i requires 0 <= i < |seasons| =>
      seq(|weeks|, j requires 0 <= j < |weeks| => Cell(table, seasons[i], weeks[j])));
    Grid(seasons, weeks, cells)
  }

  /** The mask: true exactly on the missing cells, same shape as the cells. */
  function Mask(g: Grid): (mask: seq<seq<bool>>)
    ensures |mask| == |g.cells|
    ensures forall i :: 0 <= i < |mask| ==> |mask[i]| == |g.cells[i]|
    ensures forall i, j :: 0 <= i < |mask| && 0 <= j < |mask[i]| ==> (mask[i][j] <==> g.cells[i][j] == None)
  {
    seq(|g.cells|, i requires 0 <= i < |g.cells| =>
      seq(|g.cells[i]|, j requires 0 <= j < |g.cells[i]| => g.cells[i][j].None?))
  }

  /** One thresholded cell: 1 when present and at or above the threshold, else 0. */
  function BinaryCell(c: Option<real>, threshold: real): real
  {
    match c
    case Some(a) => if a >= threshold then 1.0 else 0.0
    case None => 0.0  // a missing cell compares false and is hidden by the mask
  }

  /** The binary grid, same shape as the cells, every value 0 or 1. */
  function Binarize(g: Grid, threshold: real): (binary: seq<seq<real>>)
    ensures |binary| == |g.cells|
    ensures forall i :: 0 <= i < |binary| ==> |binary[i]| == |g.cells[i]|
    ensures forall i, j :: 0 <= i < |binary| && 0 <= j < |binary[i]| ==>
      (binary[i][j] == 1.0 <==> g.cells[i][j].Some? && g.cells[i][j].value >= threshold)
    ensures forall i, j :: 0 <= i < |binary| && 0 <= j < |binary[i]| ==>
      (binary[i][j] == 0.0 <==> !(g.cells[i][j].Some? && g.cells[i][j].value >= threshold))
  {
    seq(|g.cells|, i requires 0 <= i < |g.cells| =>
      seq(|g.cells[i]|, j requires 0 <= j < |g.cells[i]| => BinaryCell(g.cells[i][j], threshold)))
  }
}
