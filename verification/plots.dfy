/**
  The data side of the two plotting entry points: records -> accuracy table ->
  grid and mask (continuous heatmap), and additionally the thresholded grid
  (binary heatmap). Drawing and file output are not modelled.
 */
module Plots {
  import opened Wrappers
  import Columns
  import Ordering
  import opened Weekly
  import opened Heatmap

  /** What the continuous heatmap draws: the grid and its mask. */
  datatype AccuracyView = AccuracyView(grid: Grid, mask: seq<seq<bool>>)

  /** What the binary heatmap draws: the 0/1 grid, its labels and the mask. */
  datatype BinaryView = BinaryView(grid: Grid, binary: seq<seq<real>>, mask: seq<seq<bool>>)

  /** The error both entry points raise for given headers and rows, if any. */
  function ExpectedError(columns: seq<string>, rows: seq<Record>): Option<AccuracyError>
  {
    var missing := Columns.MissingColumns(columns);
    if missing != {} then Some(MissingColumnsError(missing))
    else if rows == [] then Some(NoWeeklyData)
    else None
  }

  /** A season labels a grid row exactly when some record has that season. */
  ghost predicate RowsAreRecordSeasons(g: Grid, rows: seq<Record>)
  {
    forall s :: s in g.seasons <==> exists i :: 0 <= i < |rows| && rows[i].season == s
  }

  /** A cell against its group: missing exactly when the group is empty, else the group's accuracy. */
  ghost predicate CellDescribesGroup(c: Option<real>, group: seq<Record>)
  {
    && (c.None? <==> group == [])
    && (c.Some? ==> IsGroupAccuracy(c.value, group))
  }

  /**
    A binary cell against its group: 0 or 1; 0 on a masked cell; and on a
    present cell 1 exactly when the correct count reaches threshold times the
    group size.
   */
  ghost predicate BinaryCellDescribesGroup(b: real, masked: bool, group: seq<Record>, threshold: real)
  {
    && (b == 1.0 || b == 0.0)
    && (masked ==> b == 0.0)
    && (!masked ==> (b == 1.0 <==> CountCorrect(group) as real >= threshold * |group| as real))
  }

  /** The records' group of the grid cell at (i, j). */
  function GroupAt(g: Grid, rows: seq<Record>, i: int, j: int): seq<Record>
    requires 0 <= i < |g.seasons| && 0 <= j < |g.weeks|
  {
    GroupOf(rows, Key(g.seasons[i], g.weeks[j]))
  }

  ghost predicate CellsAreGroupAccuracies(g: Grid, rows: seq<Record>)
    requires Shaped(g)
  {
    forall i, j :: 0 <= i < |g.seasons| && 0 <= j < |g.weeks| ==>
      CellDescribesGroup(g.cells[i][j], GroupAt(g, rows, i, j))
  }

  /** Missing cells are exactly those whose (Season, Week) has no records. */
  ghost predicate MaskMarksEmptyGroups(g: Grid, mask: seq<seq<bool>>, rows: seq<Record>)
    requires Shaped(g)
  {
    && |mask| == |g.seasons|
    && (forall i :: 0 <= i < |mask| ==> |mask[i]| == |g.weeks|)
    && forall i, j :: 0 <= i < |g.seasons| && 0 <= j < |g.weeks| ==>
      (mask[i][j] <==> GroupAt(g, rows, i, j) == [])
  }

  /**
    Everything the continuous heatmap shows, stated against the records: the
    grid is rectangular, its rows are the records' seasons (ascending, each
    once), its columns are the weeks 1..n with every record's week at most n,
    every cell is its group's accuracy or missing, and the mask marks exactly
    the missing cells.
   */
  ghost predicate ViewDescribesRecords(view: AccuracyView, rows: seq<Record>)
  {
    && Shaped(view.grid)
    && Ordering.StrictlyIncreasing(view.grid.seasons)
    && RowsAreRecordSeasons(view.grid, rows)
    && (forall j :: 0 <= j < |view.grid.weeks| ==> view.grid.weeks[j] == j + 1)
    && (forall i :: 0 <= i < |rows| ==> rows[i].week <= |view.grid.weeks|)
    && (|view.grid.weeks| == 0 || exists i :: 0 <= i < |rows| && rows[i].week == |view.grid.weeks|)
    && CellsAreGroupAccuracies(view.grid, rows)
    && MaskMarksEmptyGroups(view.grid, view.mask, rows)
  }

  /**
    Everything the binary heatmap shows: the same grid and mask, and a 0/1
    value per cell as BinaryCellDescribesGroup states.
   */
  ghost predicate BinaryDescribesRecords(view: BinaryView, rows: seq<Record>, threshold: real)
  {
    && ViewDescribesRecords(AccuracyView(view.grid, view.mask), rows)
    && |view.binary| == |view.grid.seasons|
    && (forall i :: 0 <= i < |view.binary| ==> |view.binary[i]| == |view.grid.weeks|)
    && forall i, j :: 0 <= i < |view.grid.seasons| && 0 <= j < |view.grid.weeks| ==>
      BinaryCellDescribesGroup(view.binary[i][j], view.mask[i][j], GroupAt(view.grid, rows, i, j), threshold)
  }

  /** The continuous heatmap's data. */
  function AccuracyHeatmap(columns: seq<string>, rows: seq<Record>): (r: Result<AccuracyView, AccuracyError>)
    ensures r.Failure? <==> ExpectedError(columns, rows).Some?
    ensures r.Failure? ==> r.error == ExpectedError(columns, rows).value
    ensures r.Success? ==> ViewDescribesRecords(r.value, rows)
  {
    match BuildWeeklyAccuracy(columns, rows)
    case Failure(e) => Failure(e)
    case Success(table) =>
      EmptyTableMeansNoRows(table, rows);
      match BuildGrid(table)
      case Failure(e) => Failure(e)
      case Success(g) =>
        TableFacts(rows, table, g);
        Success(AccuracyView(g, Mask(g)))
  }

  /** The binary heatmap's data for a given threshold. */
  function BinaryAccuracyHeatmap(columns: seq<string>, rows: seq<Record>, threshold: real): (r: Result<BinaryView, AccuracyError>)
    ensures r.Failure? <==> ExpectedError(columns, rows).Some?
    ensures r.Failure? ==> r.error == ExpectedError(columns, rows).value
    ensures r.Success? ==> BinaryDescribesRecords(r.value, rows, threshold)
  {
    match AccuracyHeatmap(columns, rows)
    case Failure(e) => Failure(e)
    case Success(view) =>
      var binary := Binarize(view.grid, threshold);
      BinaryFacts(view, rows, threshold);
      Success(BinaryView(view.grid, binary, view.mask))
  }

  // ---------------------------------------------------------------------------
  // Lemmas

  /** The builder's table is empty exactly when there are no records. */
  lemma EmptyTableMeansNoRows(table: AccuracyTable, rows: seq<Record>)
    requires table.Keys == KeysOf(rows)
    ensures |table| == 0 <==> rows == []
  {
    if rows != [] {
      assert rows[0].GroupKey() in table;
    }
  }

  /** Seasons of the table are the seasons of the records. */
  lemma SeasonsOfTable(table: AccuracyTable, rows: seq<Record>)
    requires table.Keys == KeysOf(rows)
    ensures forall s :: s in SeasonsOf(table) <==> exists i :: 0 <= i < |rows| && rows[i].season == s
  {
    forall s | s in SeasonsOf(table) ensures exists i :: 0 <= i < |rows| && rows[i].season == s {
      var k :| k in table && k.season == s;
      var i :| 0 <= i < |rows| && rows[i].GroupKey() == k;
    }
    forall s | exists i :: 0 <= i < |rows| && rows[i].season == s ensures s in SeasonsOf(table) {
      var i :| 0 <= i < |rows| && rows[i].season == s;
      assert rows[i].GroupKey() in table;
    }
  }

  /** Accuracy at or above a threshold, restated on the group's counts. */
  lemma AtThresholdMeaning(a: real, group: seq<Record>, threshold: real)
    requires IsGroupAccuracy(a, group)
    ensures a >= threshold <==> CountCorrect(group) as real >= threshold * |group| as real
  {
    var n := |group| as real;
    var c := CountCorrect(group) as real;
    assert a * n == c;
    ScaledComparison(a, n, c, threshold);
  }

  /** With a positive n and a * n == c, comparing a with t is comparing c with t * n. */
  lemma ScaledComparison(a: real, n: real, c: real, t: real)
    requires n > 0.0 && a * n == c
    ensures a >= t <==> c >= t * n
  {
    assert c - t * n == (a - t) * n;
    if a >= t {
      assert (a - t) * n >= 0.0;
    } else {
      assert (t - a) * n > 0.0;
    }
  }

  /** The grid built from a builder's table describes the records. */
  lemma TableFacts(rows: seq<Record>, table: AccuracyTable, g: Grid)
    requires table.Keys == KeysOf(rows)
    requires forall k | k in table :: IsGroupAccuracy(table[k], GroupOf(rows, k))
    requires GridOfTable(g, table)
    ensures ViewDescribesRecords(AccuracyView(g, Mask(g)), rows)
  {
    SeasonsOfTable(table, rows);
    forall i | 0 <= i < |rows| ensures rows[i].week <= |g.weeks| {
      assert rows[i].GroupKey() in table;
    }
    LastWeekIsRecorded(rows, table, g);
    CellFacts(rows, table, g);
    MaskFacts(rows, table, g);
  }

  /** The last week column is the week of some record. */
  lemma LastWeekIsRecorded(rows: seq<Record>, table: AccuracyTable, g: Grid)
    requires table.Keys == KeysOf(rows)
    requires GridOfTable(g, table)
    ensures |g.weeks| == 0 || exists i :: 0 <= i < |rows| && rows[i].week == |g.weeks|
  {
    if |g.weeks| != 0 {
      var k :| k in table && k.week == |g.weeks|;
      var i :| 0 <= i < |rows| && rows[i].GroupKey() == k;
    }
  }

  /** Each cell of a builder's grid is its group's accuracy, or missing when the group is empty. */
  lemma CellFacts(rows: seq<Record>, table: AccuracyTable, g: Grid)
    requires table.Keys == KeysOf(rows)
    requires forall k | k in table :: IsGroupAccuracy(table[k], GroupOf(rows, k))
    requires GridOfTable(g, table)
    ensures Shaped(g) && CellsAreGroupAccuracies(g, rows)
  {
    forall i, j | 0 <= i < |g.seasons| && 0 <= j < |g.weeks|
      ensures CellDescribesGroup(g.cells[i][j], GroupAt(g, rows, i, j))
    {
      CellPresence(rows, table, g, i, j);
    }
  }

  /** The mask of a builder's grid marks exactly the empty groups. */
  lemma MaskFacts(rows: seq<Record>, table: AccuracyTable, g: Grid)
    requires table.Keys == KeysOf(rows)
    requires GridOfTable(g, table)
    ensures Shaped(g) && MaskMarksEmptyGroups(g, Mask(g), rows)
  {
    var mask := Mask(g);
    forall i, j | 0 <= i < |g.seasons| && 0 <= j < |g.weeks|
      ensures mask[i][j] <==> GroupAt(g, rows, i, j) == []
    {
      CellPresence(rows, table, g, i, j);
    }
  }

  lemma CellPresence(rows: seq<Record>, table: AccuracyTable, g: Grid, i: int, j: int)
    requires table.Keys == KeysOf(rows)
    requires GridOfTable(g, table)
    requires 0 <= i < |g.seasons| && 0 <= j < |g.weeks|
    ensures Shaped(g)
    ensures var k := Key(g.seasons[i], g.weeks[j]);
      && (g.cells[i][j].None? <==> GroupOf(rows, k) == [])
      && (g.cells[i][j].Some? ==> k in table && g.cells[i][j].value == table[k])
  {
    var k := Key(g.seasons[i], g.weeks[j]);
    assert g.cells[i][j] == Cell(table, k.season, k.week);
    assert k in KeysOf(rows) <==> |GroupOf(rows, k)| > 0;
  }

  /** Thresholding a described view gives a described binary view. */
  lemma BinaryFacts(view: AccuracyView, rows: seq<Record>, threshold: real)
    requires ViewDescribesRecords(view, rows)
    ensures BinaryDescribesRecords(BinaryView(view.grid, Binarize(view.grid, threshold), view.mask), rows, threshold)
  {
    var g := view.grid;
    var binary := Binarize(g, threshold);
    assert AccuracyView(g, view.mask) == view;
    assert Shaped(g) && CellsAreGroupAccuracies(g, rows) && MaskMarksEmptyGroups(g, view.mask, rows);
    forall i, j | 0 <= i < |g.seasons| && 0 <= j < |g.weeks|
      ensures BinaryCellDescribesGroup(binary[i][j], view.mask[i][j], GroupAt(g, rows, i, j), threshold)
    {
      BinaryCellFact(g.cells[i][j], binary[i][j], view.mask[i][j], GroupAt(g, rows, i, j), threshold);
    }
  }

  /** One thresholded cell against its group. */
  lemma BinaryCellFact(c: Option<real>, b: real, masked: bool, group: seq<Record>, threshold: real)
    requires CellDescribesGroup(c, group)
    requires masked <==> c.None?
    requires b == 1.0 <==> c.Some? && c.value >= threshold
    requires b == 0.0 <==> !(c.Some? && c.value >= threshold)
    ensures BinaryCellDescribesGroup(b, masked, group, threshold)
  {
    if c.Some? {
      AtThresholdMeaning(c.value, group, threshold);
    }
  }

  /** Raising the threshold can only turn binary cells from 1 to 0. */
  lemma ThresholdMonotone(columns: seq<string>, rows: seq<Record>, low: real, high: real)
    requires low <= high
    ensures BinaryAccuracyHeatmap(columns, rows, low).Success? <==> BinaryAccuracyHeatmap(columns, rows, high).Success?
    ensures BinaryAccuracyHeatmap(columns, rows, low).Success? ==>
      var lo := BinaryAccuracyHeatmap(columns, rows, low).value;
      var hi := BinaryAccuracyHeatmap(columns, rows, high).value;
      && lo.grid == hi.grid && lo.mask == hi.mask
      && forall i, j :: 0 <= i < |hi.binary| && 0 <= j < |hi.binary[i]| ==> hi.binary[i][j] <= lo.binary[i][j]
  {
    match AccuracyHeatmap(columns, rows)
    case Failure(_) =>
    case Success(view) =>
      var lo := Binarize(view.grid, low);
      var hi := Binarize(view.grid, high);
      assert BinaryAccuracyHeatmap(columns, rows, low).value.binary == lo;
      assert BinaryAccuracyHeatmap(columns, rows, high).value.binary == hi;
  }

  /**
    Any two binary views of the same records with the same grid and mask: the
    one with the higher threshold is nowhere above the one with the lower.
   */
  lemma DescribedThresholdMonotone(lo: BinaryView, hi: BinaryView, rows: seq<Record>, low: real, high: real)
    requires low <= high
    requires BinaryDescribesRecords(lo, rows, low) && BinaryDescribesRecords(hi, rows, high)
    requires lo.grid == hi.grid && lo.mask == hi.mask
    ensures forall i, j :: 0 <= i < |hi.grid.seasons| && 0 <= j < |hi.grid.weeks| ==> hi.binary[i][j] <= lo.binary[i][j]
  {
    var g := hi.grid;
    forall i, j | 0 <= i < |g.seasons| && 0 <= j < |g.weeks| ensures hi.binary[i][j] <= lo.binary[i][j] {
      var group := GroupAt(g, rows, i, j);
      CellThresholdMonotone(lo.binary[i][j], hi.binary[i][j], hi.mask[i][j], group, low, high);
    }
  }

  /** One cell of DescribedThresholdMonotone. */
  lemma CellThresholdMonotone(bLow: real, bHigh: real, masked: bool, group: seq<Record>, low: real, high: real)
    requires low <= high
    requires BinaryCellDescribesGroup(bLow, masked, group, low)
    requires BinaryCellDescribesGroup(bHigh, masked, group, high)
    ensures bHigh <= bLow
  {
    var n := |group| as real;
    assert high * n - low * n == (high - low) * n;
  }

  /**
    Every record whose week is at least 1 shows up: its season labels a row,
    its week labels a column, and that cell is present (not masked).
   */
  lemma RecordsAreShown(view: AccuracyView, rows: seq<Record>, n: int)
    requires ViewDescribesRecords(view, rows)
    requires 0 <= n < |rows| && rows[n].week >= 1
    ensures exists i, j ::
      && 0 <= i < |view.grid.seasons| && 0 <= j < |view.grid.weeks|
      && view.grid.seasons[i] == rows[n].season && view.grid.weeks[j] == rows[n].week
      && view.grid.cells[i][j].Some? && !view.mask[i][j]
  {
    var g := view.grid;
    assert rows[n].season in g.seasons;
    var i :| 0 <= i < |g.seasons| && g.seasons[i] == rows[n].season;
    var j := rows[n].week - 1;
    assert g.weeks[j] == rows[n].week;
    var k := Key(g.seasons[i], g.weeks[j]);
    assert rows[n].GroupKey() == k;
    assert k in KeysOf(rows);
    assert GroupAt(g, rows, i, j) != [];
    assert CellDescribesGroup(g.cells[i][j], GroupAt(g, rows, i, j));
  }

  /** The records of the worked example below: season 1, weeks 1, 1 and 2. */
  const ExampleRows: seq<Record> := [Record(1, 1, "A", "A"), Record(1, 1, "B", "C"), Record(1, 2, "A", "A")]

  /**
    A worked example: in season 1, week 1 has one right and one wrong
    prediction and week 2 one right one. The grid is one row by two weeks
    with accuracies 0.5 and 1, and at threshold 0.75 week 1 is below and
    week 2 at or above.
   */
  lemma WorkedExample()
    ensures var r := BinaryAccuracyHeatmap(
        [Columns.Season, Columns.Week, Columns.PredictedElim, Columns.ActualElim], ExampleRows, DefaultThreshold);
      && r.Success?
      && r.value.grid == Grid([1], [1, 2], [[Some(0.5), Some(1.0)]])
      && r.value.binary == [[0.0, 1.0]]
      && r.value.mask == [[false, false]]
  {
    var columns := [Columns.Season, Columns.Week, Columns.PredictedElim, Columns.ActualElim];
    Columns.CanonicalHeadersPass(columns);
    var r := BinaryAccuracyHeatmap(columns, ExampleRows, DefaultThreshold);
    assert r.Success?;
    ExampleLabels(r.value);
    ExampleCells(r.value);
  }

  /** The worked example's grid has season 1 as its only row and weeks 1 and 2 as columns. */
  lemma ExampleLabels(v: BinaryView)
    requires BinaryDescribesRecords(v, ExampleRows, DefaultThreshold)
    ensures v.grid.seasons == [1] && v.grid.weeks == [1, 2]
  {
    var g := v.grid;
    var rows := ExampleRows;
    assert ViewDescribesRecords(AccuracyView(g, v.mask), rows);
    assert 1 in g.seasons by { assert rows[0].season == 1; }
    forall s | s in g.seasons ensures s == 1 {
      var i :| 0 <= i < |rows| && rows[i].season == s;
    }
    Ordering.OnlyElement(g.seasons, 1);
    assert rows[2].week <= |g.weeks|;
    assert |g.weeks| <= 2 by {
      if |g.weeks| != 0 {
        var i :| 0 <= i < |rows| && rows[i].week == |g.weeks|;
      }
    }
    assert g.weeks == [1, 2] by {
      assert g.weeks[0] == 1 && g.weeks[1] == 2;
    }
  }

  /** The worked example's groups: week 1 has one correct of two, week 2 one of one. */
  lemma ExampleGroups()
    ensures GroupOf(ExampleRows, Key(1, 1)) == [ExampleRows[0], ExampleRows[1]]
    ensures GroupOf(ExampleRows, Key(1, 2)) == [ExampleRows[2]]
    ensures CountCorrect([ExampleRows[0], ExampleRows[1]]) == 1
    ensures CountCorrect([ExampleRows[2]]) == 1
  {
    var rows := ExampleRows;
    assert rows[1..] == [rows[1], rows[2]];
    assert rows[1..][1..] == [rows[2]];
    assert [rows[0], rows[1]][1..] == [rows[1]];
    assert Flags([rows[1]]) == [false];
    assert Flags([rows[0], rows[1]]) == [true, false];
    assert [true, false][1..] == [false];
    assert CountTrue([false]) == 0;
    assert Flags([rows[2]]) == [true];
  }

  /** The worked example's cells, binary values and mask. */
  lemma ExampleCells(v: BinaryView)
    requires BinaryDescribesRecords(v, ExampleRows, DefaultThreshold)
    ensures v.grid.cells == [[Some(0.5), Some(1.0)]]
    ensures v.binary == [[0.0, 1.0]]
    ensures v.mask == [[false, false]]
  {
    ExampleLabels(v);
    ExampleGroups();
    var g := v.grid;
    var rows := ExampleRows;
    assert ViewDescribesRecords(AccuracyView(g, v.mask), rows);
    var w1 := GroupAt(g, rows, 0, 0);
    var w2 := GroupAt(g, rows, 0, 1);
    assert |w1| == 2 && CountCorrect(w1) == 1;
    assert |w2| == 1 && CountCorrect(w2) == 1;
    assert CellDescribesGroup(g.cells[0][0], w1);
    assert CellDescribesGroup(g.cells[0][1], w2);
    assert g.cells[0][0] == Some(0.5);
    assert g.cells[0][1] == Some(1.0);
    assert |g.cells| == 1 && |g.cells[0]| == 2;
    assert g.cells[0] == [Some(0.5), Some(1.0)];
    assert BinaryCellDescribesGroup(v.binary[0][0], v.mask[0][0], w1, DefaultThreshold);
    assert BinaryCellDescribesGroup(v.binary[0][1], v.mask[0][1], w2, DefaultThreshold);
    assert |v.binary| == 1 && |v.binary[0]| == 2;
    assert v.binary[0] == [0.0, 1.0];
    assert |v.mask| == 1 && |v.mask[0]| == 2;
    assert v.mask[0] == [false, false];
  }
}
