/**
 * The grid view model (`ContentViewModel`): a list of rows of optional
 * numbers plus the two counters the steppers edit. Assigning a counter runs
 * its `willSet` observer, which adds or removes exactly one row or column
 * whatever the new value is. Both snapshots of the view model share this
 * logic; they differ in the cell type (`Double?` or `Int?`) and in `init`.
 */
module Grid {
  import opened Wrappers
  import opened Decimals

  type Row<T> = seq<Option<T>>
  type Cells<T> = seq<Row<T>>

  datatype ViewModel<T> = ViewModel(rowsCount: int, columnsCount: int, values: Cells<T>)

  function EmptyRow<T>(n: nat): (r: Row<T>)
    ensures |r| == n && forall j :: 0 <= j < n ==> r[j] == None
  {
    seq(n, _ => None)
  }

  /** Every cell exists with the shape `rowsCount` x `columnsCount`. */
  predicate Shaped<T>(m: ViewModel<T>) {
    && m.columnsCount >= 0
    && |m.values| == m.rowsCount
    && forall i :: 0 <= i < |m.values| ==> |m.values[i]| == m.columnsCount
  }

  /** Cells present in both grids hold the same values. */
  ghost predicate SameCommonCells<T>(a: Cells<T>, b: Cells<T>) {
    forall i, j :: 0 <= i < |a| && 0 <= i < |b| && 0 <= j < |a[i]| && 0 <= j < |b[i]| ==> a[i][j] == b[i][j]
  }

  /**
   * `rowsCount = newValue`. A larger value appends one row of
   * `columnsCount` empty cells; any other value, an equal one included,
   * removes the last row (which traps on an empty grid).
   */
  function SetRowsCount<T>(m: ViewModel<T>, newValue: int): (r: ViewModel<T>)
    requires newValue > m.rowsCount ==> m.columnsCount >= 0
    requires newValue <= m.rowsCount ==> |m.values| > 0
    ensures r.rowsCount == newValue && r.columnsCount == m.columnsCount
    ensures newValue > m.rowsCount ==>
      |r.values| == |m.values| + 1 && r.values[|m.values|] == EmptyRow(m.columnsCount)
    ensures newValue <= m.rowsCount ==> |r.values| == |m.values| - 1
    ensures forall i :: 0 <= i < |r.values| && i < |m.values| ==> r.values[i] == m.values[i]
  {
    if newValue > m.rowsCount then
      m.(rowsCount := newValue, values := m.values + [EmptyRow(m.columnsCount)])
    else
      m.(rowsCount := newValue, values := m.values[..|m.values| - 1])
  }

  /**
   * `columnsCount = newValue`. A larger value appends one empty cell to
   * every row; any other value removes the last cell of every row (which
   * traps on an empty row).
   */
  function SetColumnsCount<T>(m: ViewModel<T>, newValue: int): (r: ViewModel<T>)
    requires newValue <= m.columnsCount ==> forall i :: 0 <= i < |m.values| ==> |m.values[i]| > 0
    ensures r.columnsCount == newValue && r.rowsCount == m.rowsCount
    ensures |r.values| == |m.values|
    ensures newValue > m.columnsCount ==> forall i :: 0 <= i < |m.values| ==>
      |r.values[i]| == |m.values[i]| + 1 && r.values[i][|m.values[i]|] == None
    ensures newValue <= m.columnsCount ==> forall i :: 0 <= i < |m.values| ==>
      |r.values[i]| == |m.values[i]| - 1
    ensures SameCommonCells(m.values, r.values)
  {
    if newValue > m.columnsCount then
      m.(columnsCount := newValue, values := seq(|m.values|, i requires 0 <= i < |m.values| => m.values[i] + [None]))
    else
      m.(columnsCount := newValue, values := seq(|m.values|, i requires 0 <= i < |m.values| => m.values[i][..|m.values[i]| - 1]))
  }

  /** What the steppers can assign: one step up or down, never below 1. */
  predicate StepperStep(current: int, next: int) {
    next >= 1 && (next == current + 1 || next == current - 1)
  }

  /** A stepper step on the row counter keeps the grid shaped. */
  lemma RowStepKeepsShape<T>(m: ViewModel<T>, newValue: int)
    requires Shaped(m) && StepperStep(m.rowsCount, newValue)
    ensures Shaped(SetRowsCount(m, newValue))
  {
  }

  /** A stepper step on the column counter keeps the grid shaped. */
  lemma ColumnStepKeepsShape<T>(m: ViewModel<T>, newValue: int)
    requires Shaped(m) && StepperStep(m.columnsCount, newValue)
    ensures Shaped(SetColumnsCount(m, newValue))
  {
  }

  /** Stepping the rows up and back down restores the grid exactly. */
  lemma RowStepRoundTrip<T>(m: ViewModel<T>)
    requires Shaped(m)
    ensures SetRowsCount(SetRowsCount(m, m.rowsCount + 1), m.rowsCount) == m
  {
    var up := SetRowsCount(m, m.rowsCount + 1);
    assert up.values[..|up.values| - 1] == m.values;
  }

  /** Stepping the columns up and back down restores the grid exactly. */
  lemma ColumnStepRoundTrip<T>(m: ViewModel<T>)
    requires Shaped(m)
    ensures SetColumnsCount(SetColumnsCount(m, m.columnsCount + 1), m.columnsCount) == m
  {
    var up := SetColumnsCount(m, m.columnsCount + 1);
    var down := SetColumnsCount(up, m.columnsCount);
    assert forall i :: 0 <= i < |m.values| ==> up.values[i][..|up.values[i]| - 1] == m.values[i];
    assert down.values == m.values;
  }

  /**
   * The observer ignores the size of the jump: assigning the current value
   * or jumping by more than one leaves the row count and the rows out of step.
   */
  lemma RowJumpBreaksShape<T>(m: ViewModel<T>, newValue: int)
    requires Shaped(m) && m.rowsCount >= 1
    requires newValue == m.rowsCount || newValue >= m.rowsCount + 2 || newValue <= m.rowsCount - 2
    ensures !Shaped(SetRowsCount(m, newValue))
  {
  }

  // ---------------------------------------------------------------------
  // The two initialisers.

  /** The first row `[0, 1, 2, 3]` of the current view model's fixed start grid. */
  function SampleRow(): (r: Row<Decimal>)
    ensures |r| == 4
  {
    [Some(Decimal(false, 0, 0)), Some(Decimal(false, 1, 0)), Some(Decimal(false, 2, 0)), Some(Decimal(false, 3, 0))]
  }

  /** The current `init`: the counters are taken from the arguments, the cells are always the 4x4 sample. */
  function InitSample(rowsCount: int, columnsCount: int): (r: ViewModel<Decimal>)
    ensures r.rowsCount == rowsCount && r.columnsCount == columnsCount
    ensures |r.values| == 4 && forall i :: 0 <= i < 4 ==> r.values[i] == SampleRow()
  {
    ViewModel(rowsCount, columnsCount, [SampleRow(), SampleRow(), SampleRow(), SampleRow()])
  }

  /** The current `init` is shaped exactly for the default arguments (4, 4). */
  lemma InitSampleShapedIff(rowsCount: int, columnsCount: int)
    ensures Shaped(InitSample(rowsCount, columnsCount)) <==> rowsCount == 4 && columnsCount == 4
  {
    var m := InitSample(rowsCount, columnsCount);
    assert |m.values[0]| == 4;
  }

  /** The earlier `init`: `rowsCount` rows of `columnsCount` empty cells (a negative count traps). */
  function InitEmpty<T>(rowsCount: int, columnsCount: int): (r: ViewModel<T>)
    requires rowsCount >= 0 && columnsCount >= 0
    ensures Shaped(r) && r.rowsCount == rowsCount && r.columnsCount == columnsCount
    ensures forall i, j :: 0 <= i < |r.values| && 0 <= j < |r.values[i]| ==> r.values[i][j] == None
  {
    ViewModel(rowsCount, columnsCount, seq(rowsCount, _ => EmptyRow(columnsCount)))
  }
}
