/**
 * The scanner sheet: the grid of scanned values shown under the camera,
 * with one selected cell. Tapping a cell selects it, and the "Insert"
 * button writes the scanned number (or clears the cell when there is
 * none) at the selection. The current sheet then moves the selection one
 * cell on in row-major order, wrapping at the end of a row and at the end
 * of the grid; the earlier sheet leaves it where it was.
 */
module ScannerSheet {
  import opened Wrappers
  import opened Grid

  /** A cell position (`FocusedCell`); equality is structural. */
  datatype FocusedCell = FocusedCell(row: int, column: int)

  /** The sheet's state: the view model it edits and its selected cell. */
  datatype Sheet<T> = Sheet(model: ViewModel<T>, selectedCell: FocusedCell)

  /** The selection the sheet starts with. */
  const InitialSelection := FocusedCell(0, 0)

  /** The cell exists in the grid, so reading or writing it does not trap. */
  predicate InBounds<T>(values: Cells<T>, cell: FocusedCell) {
    0 <= cell.row < |values| && 0 <= cell.column < |values[cell.row]|
  }

  /** The sheet's invariant: a shaped grid with the selection on one of its cells. */
  predicate Valid<T>(s: Sheet<T>) {
    Shaped(s.model) && InBounds(s.model.values, s.selectedCell)
  }

  /** A tap on the cell at (`row`, `column`) selects it; the cells are untouched. */
  function Tap<T>(s: Sheet<T>, row: int, column: int): (r: Sheet<T>)
    requires InBounds(s.model.values, FocusedCell(row, column))
    ensures r.model == s.model
    ensures Shaped(s.model) ==> Valid(r)
  {
    s.(selectedCell := FocusedCell(row, column))
  }

  /** The cell at (`row`, `column`) is drawn as selected. */
  predicate IsCellSelected(selectedCell: FocusedCell, row: int, column: int) {
    selectedCell == FocusedCell(row, column)
  }

  /** The cells of a `rows` x `columns` grid that are drawn as selected. */
  function SelectedCells(selectedCell: FocusedCell, rows: nat, columns: nat): set<FocusedCell> {
    set row: nat, column: nat | row < rows && column < columns && IsCellSelected(selectedCell, row, column) :: FocusedCell(row, column)
  }

  /** Exactly one cell is highlighted: the selection itself. */
  lemma ExactlyOneSelected(selectedCell: FocusedCell, rows: nat, columns: nat)
    requires 0 <= selectedCell.row < rows && 0 <= selectedCell.column < columns
    ensures SelectedCells(selectedCell, rows, columns) == {selectedCell}
  {
    var row: nat, column: nat := selectedCell.row, selectedCell.column;
    assert IsCellSelected(selectedCell, row, column);
    assert selectedCell in SelectedCells(selectedCell, rows, columns);
  }

  /** After a tap, a cell is drawn as selected exactly when it is the tapped one. */
  lemma TapSelectsTapped<T>(s: Sheet<T>, row: int, column: int, otherRow: int, otherColumn: int)
    requires InBounds(s.model.values, FocusedCell(row, column))
    ensures IsCellSelected(Tap(s, row, column).selectedCell, otherRow, otherColumn) <==> otherRow == row && otherColumn == column
  {
  }

  // ---------------------------------------------------------------------
  // Moving the selection after an insert.

  /**
   * The selection after an insert on a grid with `rows` rows whose first
   * row has `columns` cells: the column moves on by one modulo `columns`,
   * and the row moves on by one, modulo `rows`, only when the column
   * wrapped to 0. A zero `columns` would trap. The selection is always
   * drawn from the grid's indices, so both dividends are nonnegative and
   * Swift's truncating `%` agrees with the one used here.
   */
  function Advance(selectedCell: FocusedCell, rows: int, columns: int): (next: FocusedCell)
    requires rows > 0 && columns > 0 && selectedCell.row >= 0 && selectedCell.column >= 0
    ensures 0 <= next.row < rows && 0 <= next.column < columns
    ensures selectedCell.row < rows && selectedCell.column < columns ==>
      && (selectedCell.column + 1 < columns ==> next == FocusedCell(selectedCell.row, selectedCell.column + 1))
      && (selectedCell.column + 1 == columns && selectedCell.row + 1 < rows ==> next == FocusedCell(selectedCell.row + 1, 0))
      && (selectedCell.column + 1 == columns && selectedCell.row + 1 == rows ==> next == FocusedCell(0, 0))
  {
    var newColumn := (selectedCell.column + 1) % columns;
    var newRow := (selectedCell.row + (if newColumn == 0 then 1 else 0)) % rows;
    WrapStep(selectedCell.column, columns);
    WrapStep(selectedCell.row, rows);
    FocusedCell(newRow, newColumn)
  }

  /** Below the modulus, `%` is the identity and one step on wraps only at the modulus. */
  lemma WrapStep(x: int, m: int)
    requires 0 <= x && 0 < m
    ensures x < m ==> x % m == x && (x + 1) % m == (if x + 1 == m then 0 else x + 1)
  {
    if x + 1 == m {
      assert (x + 1) % m == m % m;
    }
  }

  /** The row-major position of a cell in a grid with `columns` columns. */
  function LinearIndex(cell: FocusedCell, columns: int): (k: int)
    ensures cell.row >= 0 && cell.column >= 0 && columns >= 0 ==> k >= cell.column && k >= cell.row * columns
  {
    cell.row * columns + cell.column
  }

  /** One step on in row-major order, wrapping from the last position of a grid of `size` cells to the first. */
  function Succ(k: int, size: int): int {
    if k + 1 == size then 0 else k + 1
  }

  /** `n` steps on from `k`, for `k < size` and `n <= size`. */
  function Shift(k: int, n: int, size: int): int {
    if k + n < size then k + n else k + n - size
  }

  lemma MulLe(x: nat, y: nat, c: nat)
    requires x <= y
    ensures x * c <= y * c
  {
  }

  /** An in-bounds cell lies inside the grid in row-major order; the last cell is the last position. */
  lemma LinearInRange(cell: FocusedCell, rows: nat, columns: nat)
    requires 0 <= cell.row < rows && 0 <= cell.column < columns
    ensures 0 <= LinearIndex(cell, columns) < rows * columns
    ensures LinearIndex(cell, columns) + 1 == rows * columns <==> cell.row + 1 == rows && cell.column + 1 == columns
  {
    var k := LinearIndex(cell, columns);
    assert k + 1 <= (cell.row + 1) * columns;
    MulLe(cell.row + 1, rows, columns);
    if cell.row + 1 < rows {
      MulLe(cell.row + 2, rows, columns);
      assert (cell.row + 1) * columns + columns == (cell.row + 2) * columns;
    }
  }

  /** A cell on an earlier row comes earlier in row-major order. */
  lemma RowOrder(a: FocusedCell, b: FocusedCell, columns: nat)
    requires 0 <= a.row < b.row && 0 <= a.column < columns && 0 <= b.column
    ensures LinearIndex(a, columns) < LinearIndex(b, columns)
  {
    MulLe(a.row + 1, b.row, columns);
    assert LinearIndex(a, columns) < (a.row + 1) * columns;
  }

  /** Two in-bounds cells at the same row-major position are the same cell. */
  lemma LinearInjective(a: FocusedCell, b: FocusedCell, columns: nat)
    requires 0 <= a.row && 0 <= a.column < columns
    requires 0 <= b.row && 0 <= b.column < columns
    requires LinearIndex(a, columns) == LinearIndex(b, columns)
    ensures a == b
  {
    if a.row < b.row {
      RowOrder(a, b, columns);
    } else if b.row < a.row {
      RowOrder(b, a, columns);
    }
  }

  /** In row-major terms an insert moves the selection one position on, from the last cell back to the first. */
  lemma AdvanceLinear(selectedCell: FocusedCell, rows: nat, columns: nat)
    requires 0 <= selectedCell.row < rows && 0 <= selectedCell.column < columns
    ensures LinearIndex(Advance(selectedCell, rows, columns), columns) == Succ(LinearIndex(selectedCell, columns), rows * columns)
  {
    LinearInRange(selectedCell, rows, columns);
    if selectedCell.column + 1 == columns {
      assert (selectedCell.row + 1) * columns == LinearIndex(selectedCell, columns) + 1;
    }
  }

  /** The selection after `n` inserts. */
  function AdvanceN(selectedCell: FocusedCell, rows: int, columns: int, n: nat): (c: FocusedCell)
    requires rows > 0 && columns > 0 && selectedCell.row >= 0 && selectedCell.column >= 0
    ensures c.row >= 0 && c.column >= 0
  {
    if n == 0 then selectedCell else Advance(AdvanceN(selectedCell, rows, columns, n - 1), rows, columns)
  }

  /** After `n <= rows * columns` inserts the selection is `n` positions further on, wrapping once at the end. */
  lemma {:induction false} AdvanceNLinear(selectedCell: FocusedCell, rows: nat, columns: nat, n: nat)
    requires 0 <= selectedCell.row < rows && 0 <= selectedCell.column < columns
    requires n <= rows * columns
    ensures var c := AdvanceN(selectedCell, rows, columns, n);
      && 0 <= c.row < rows && 0 <= c.column < columns
      && LinearIndex(c, columns) == Shift(LinearIndex(selectedCell, columns), n, rows * columns)
  {
    LinearInRange(selectedCell, rows, columns);
    if n > 0 {
      var before := AdvanceN(selectedCell, rows, columns, n - 1);
      AdvanceNLinear(selectedCell, rows, columns, n - 1);
      AdvanceLinear(before, rows, columns);
    }
  }

  /** After `rows * columns` inserts the selection is back where it started. */
  lemma AdvanceReturns(selectedCell: FocusedCell, rows: nat, columns: nat)
    requires 0 <= selectedCell.row < rows && 0 <= selectedCell.column < columns
    ensures AdvanceN(selectedCell, rows, columns, rows * columns) == selectedCell
  {
    LinearInRange(selectedCell, rows, columns);
    AdvanceNLinear(selectedCell, rows, columns, rows * columns);
    LinearInjective(AdvanceN(selectedCell, rows, columns, rows * columns), selectedCell, columns);
  }

  /** Fewer than `rows * columns` inserts never revisit a cell. */
  lemma AdvanceDistinct(selectedCell: FocusedCell, rows: nat, columns: nat, n1: nat, n2: nat)
    requires 0 <= selectedCell.row < rows && 0 <= selectedCell.column < columns
    requires n1 < n2 < rows * columns
    ensures AdvanceN(selectedCell, rows, columns, n1) != AdvanceN(selectedCell, rows, columns, n2)
  {
    LinearInRange(selectedCell, rows, columns);
    AdvanceNLinear(selectedCell, rows, columns, n1);
    AdvanceNLinear(selectedCell, rows, columns, n2);
  }

  /** Every cell is reached within `rows * columns` inserts. */
  lemma AdvanceCovers(selectedCell: FocusedCell, rows: nat, columns: nat, target: FocusedCell) returns (n: nat)
    requires 0 <= selectedCell.row < rows && 0 <= selectedCell.column < columns
    requires 0 <= target.row < rows && 0 <= target.column < columns
    ensures n < rows * columns && AdvanceN(selectedCell, rows, columns, n) == target
  {
    var size := rows * columns;
    var start := LinearIndex(selectedCell, columns);
    var t := LinearIndex(target, columns);
    LinearInRange(selectedCell, rows, columns);
    LinearInRange(target, rows, columns);
    n := if t >= start then t - start else t + size - start;
    AdvanceNLinear(selectedCell, rows, columns, n);
    LinearInjective(AdvanceN(selectedCell, rows, columns, n), target, columns);
  }

  /** Some insert within the first `rows * columns` puts the selection on `target`. */
  predicate Reaches(selectedCell: FocusedCell, rows: int, columns: int, target: FocusedCell)
    requires rows > 0 && columns > 0 && selectedCell.row >= 0 && selectedCell.column >= 0
  {
    exists n: nat :: n < rows * columns && AdvanceN(selectedCell, rows, columns, n) == target
  }

  /**
   * On a `rows` x `columns` grid, `rows * columns` inserts visit every cell
   * exactly once and bring the selection back to where it started.
   */
  lemma AdvanceCycle(selectedCell: FocusedCell, rows: nat, columns: nat)
    requires 0 <= selectedCell.row < rows && 0 <= selectedCell.column < columns
    ensures AdvanceN(selectedCell, rows, columns, rows * columns) == selectedCell
    ensures forall n1: nat, n2: nat :: n1 < n2 < rows * columns ==>
      AdvanceN(selectedCell, rows, columns, n1) != AdvanceN(selectedCell, rows, columns, n2)
    ensures forall target: FocusedCell :: 0 <= target.row < rows && 0 <= target.column < columns ==>
      Reaches(selectedCell, rows, columns, target)
  {
    AdvanceReturns(selectedCell, rows, columns);
    forall n1: nat, n2: nat | n1 < n2 < rows * columns
      ensures AdvanceN(selectedCell, rows, columns, n1) != AdvanceN(selectedCell, rows, columns, n2)
    {
      AdvanceDistinct(selectedCell, rows, columns, n1, n2);
    }
    forall target: FocusedCell | 0 <= target.row < rows && 0 <= target.column < columns
      ensures Reaches(selectedCell, rows, columns, target)
    {
      var n := AdvanceCovers(selectedCell, rows, columns, target);
    }
  }

  // ---------------------------------------------------------------------
  // Inserting the scanned number.

  /** Writes `x` into one existing cell; the shape and every other cell are unchanged. */
  function Insert<T>(values: Cells<T>, cell: FocusedCell, x: Option<T>): (r: Cells<T>)
    requires InBounds(values, cell)
    ensures |r| == |values| && forall i :: 0 <= i < |r| ==> |r[i]| == |values[i]|
    ensures r[cell.row][cell.column] == x
    ensures forall i, j :: 0 <= i < |r| && 0 <= j < |r[i]| && FocusedCell(i, j) != cell ==> r[i][j] == values[i][j]
  {
    values[cell.row := values[cell.row][cell.column := x]]
  }

  /**
   * The current sheet's "Insert": write the scanned number at the
   * selection, then advance the selection by the first row's length and
   * the number of rows. The selection must be on an existing cell and the
   * first row nonempty, otherwise the write or the `%` traps.
   */
  function InsertAndAdvance<T>(s: Sheet<T>, scanned: Option<T>): (r: Sheet<T>)
    requires InBounds(s.model.values, s.selectedCell) && |s.model.values[0]| != 0
    ensures r.model.rowsCount == s.model.rowsCount && r.model.columnsCount == s.model.columnsCount
    ensures r.model.values == Insert(s.model.values, s.selectedCell, scanned)
    ensures r.selectedCell == Advance(s.selectedCell, |s.model.values|, |s.model.values[0]|)
    ensures Valid(s) ==> Valid(r)
  {
    var values := Insert(s.model.values, s.selectedCell, scanned);
    Sheet(s.model.(values := values), Advance(s.selectedCell, |values|, |values[0]|))
  }

  /** A run of inserts, the last scanned number last. */
  function InsertAll<T>(s: Sheet<T>, scanned: seq<Option<T>>): (r: Sheet<T>)
    requires Valid(s)
    ensures Valid(r) && r.model.rowsCount == s.model.rowsCount && r.model.columnsCount == s.model.columnsCount
  {
    if |scanned| == 0 then s
    else InsertAndAdvance(InsertAll(s, scanned[..|scanned| - 1]), scanned[|scanned| - 1])
  }

  /**
   * The first `|scanned|` cells in row-major order hold the scanned
   * numbers, and every later cell still holds its `original` value.
   */
  ghost predicate FilledRowMajor<T>(values: Cells<T>, original: Cells<T>, scanned: seq<Option<T>>, rows: nat, columns: nat) {
    && |values| == rows && |original| == rows
    && (forall i :: 0 <= i < rows ==> |values[i]| == columns && |original[i]| == columns)
    && forall i, j :: 0 <= i < rows && 0 <= j < columns ==>
         values[i][j] == if LinearIndex(FocusedCell(i, j), columns) < |scanned| then scanned[LinearIndex(FocusedCell(i, j), columns)] else original[i][j]
  }

  /** Writing the next number at the next row-major position extends the filled prefix by one. */
  lemma FillStep<T>(values: Cells<T>, original: Cells<T>, scanned: seq<Option<T>>, x: Option<T>, cell: FocusedCell, rows: nat, columns: nat)
    requires FilledRowMajor(values, original, scanned, rows, columns)
    requires 0 <= cell.row < rows && 0 <= cell.column < columns && LinearIndex(cell, columns) == |scanned|
    ensures FilledRowMajor(Insert(values, cell, x), original, scanned + [x], rows, columns)
  {
    var after := Insert(values, cell, x);
    forall i, j | 0 <= i < rows && 0 <= j < columns
      ensures after[i][j] == if LinearIndex(FocusedCell(i, j), columns) < |scanned| + 1 then (scanned + [x])[LinearIndex(FocusedCell(i, j), columns)] else original[i][j]
    {
      if FocusedCell(i, j) != cell && LinearIndex(FocusedCell(i, j), columns) == |scanned| {
        LinearInjective(FocusedCell(i, j), cell, columns);
      }
    }
  }

  /**
   * After the inserts of `scanned` from the top-left cell, the selection
   * is on row-major position `|scanned|` (the top-left once the grid is
   * full) and the first `|scanned|` cells hold the scanned numbers.
   */
  ghost predicate FilledFromTopLeft<T>(s: Sheet<T>, scanned: seq<Option<T>>)
    requires Valid(s)
  {
    var r := InsertAll(s, scanned);
    var size := s.model.rowsCount * s.model.columnsCount;
    && LinearIndex(r.selectedCell, s.model.columnsCount) == (if |scanned| < size then |scanned| else 0)
    && FilledRowMajor(r.model.values, s.model.values, scanned, s.model.rowsCount, s.model.columnsCount)
  }

  /** One more insert on a partly filled grid fills the next cell and moves the selection to the one after. */
  lemma FillNext<T>(s: Sheet<T>, scanned: seq<Option<T>>)
    requires Valid(s) && 0 < |scanned| <= s.model.rowsCount * s.model.columnsCount
    requires FilledFromTopLeft(s, scanned[..|scanned| - 1])
    ensures FilledFromTopLeft(s, scanned)
  {
    var rows, columns := s.model.rowsCount, s.model.columnsCount;
    var prefix, x := scanned[..|scanned| - 1], scanned[|scanned| - 1];
    var before := InsertAll(s, prefix);
    assert InsertAll(s, scanned) == InsertAndAdvance(before, x);
    assert LinearIndex(before.selectedCell, columns) == |prefix|;
    AdvanceLinear(before.selectedCell, rows, columns);
    FillStep(before.model.values, s.model.values, prefix, x, before.selectedCell, rows, columns);
    assert prefix + [x] == scanned;
  }

  /**
   * Inserting `k <= rows * columns` numbers from the top-left cell fills
   * the first `k` cells in row-major order and leaves the rest alone; the
   * selection is on cell `k`, back at the top-left once the grid is full.
   */
  lemma {:induction false} FillRowMajor<T>(s: Sheet<T>, scanned: seq<Option<T>>)
    requires Valid(s) && s.selectedCell == InitialSelection
    requires |scanned| <= s.model.rowsCount * s.model.columnsCount
    ensures FilledFromTopLeft(s, scanned)
  {
    if |scanned| == 0 {
      assert FilledRowMajor(s.model.values, s.model.values, scanned, s.model.rowsCount, s.model.columnsCount);
    } else {
      FillRowMajor(s, scanned[..|scanned| - 1]);
      FillNext(s, scanned);
    }
  }

  /** Once every position is filled, each cell holds the number at its own row-major position. */
  lemma FilledWhole<T>(values: Cells<T>, original: Cells<T>, scanned: seq<Option<T>>, rows: nat, columns: nat)
    requires FilledRowMajor(values, original, scanned, rows, columns) && |scanned| == rows * columns
    ensures forall i, j :: 0 <= i < rows && 0 <= j < columns ==>
      LinearIndex(FocusedCell(i, j), columns) < |scanned| && values[i][j] == scanned[LinearIndex(FocusedCell(i, j), columns)]
  {
    forall i, j | 0 <= i < rows && 0 <= j < columns {
      FilledCell(values, original, scanned, rows, columns, i, j);
    }
  }

  lemma FilledCell<T>(values: Cells<T>, original: Cells<T>, scanned: seq<Option<T>>, rows: nat, columns: nat, i: nat, j: nat)
    requires FilledRowMajor(values, original, scanned, rows, columns) && |scanned| == rows * columns
    requires i < rows && j < columns
    ensures LinearIndex(FocusedCell(i, j), columns) < |scanned| && values[i][j] == scanned[LinearIndex(FocusedCell(i, j), columns)]
  {
    LinearInRange(FocusedCell(i, j), rows, columns);
  }

  /** A full run from the top-left cell writes the numbers row by row and returns the selection to the top-left. */
  lemma FillWholeGrid<T>(s: Sheet<T>, scanned: seq<Option<T>>)
    requires Valid(s) && s.selectedCell == InitialSelection
    requires |scanned| == s.model.rowsCount * s.model.columnsCount
    ensures InsertAll(s, scanned).selectedCell == InitialSelection
    ensures forall i, j :: 0 <= i < s.model.rowsCount && 0 <= j < s.model.columnsCount ==>
      && LinearIndex(FocusedCell(i, j), s.model.columnsCount) < |scanned|
      && InsertAll(s, scanned).model.values[i][j] == scanned[LinearIndex(FocusedCell(i, j), s.model.columnsCount)]
  {
    var rows, columns := s.model.rowsCount, s.model.columnsCount;
    var r := InsertAll(s, scanned);
    FillRowMajor(s, scanned);
    assert Valid(r) && LinearIndex(r.selectedCell, columns) == 0;
    LinearInjective(r.selectedCell, InitialSelection, columns);
    FilledWhole(r.model.values, s.model.values, scanned, rows, columns);
  }

  /** The earlier sheet's "Insert": write the scanned number at the selection, which stays put. */
  function InsertInPlace<T>(s: Sheet<T>, scanned: Option<T>): (r: Sheet<T>)
    requires InBounds(s.model.values, s.selectedCell)
    ensures r.selectedCell == s.selectedCell
    ensures r.model.values == Insert(s.model.values, s.selectedCell, scanned)
    ensures r.model.values[s.selectedCell.row][s.selectedCell.column] == scanned
    ensures Valid(s) ==> Valid(r)
  {
    s.(model := s.model.(values := Insert(s.model.values, s.selectedCell, scanned)))
  }

  /** Without advancing, a second insert overwrites the first: only the last scanned number survives. */
  lemma InsertInPlaceOverwrites<T>(s: Sheet<T>, first: Option<T>, second: Option<T>)
    requires InBounds(s.model.values, s.selectedCell)
    ensures InsertInPlace(InsertInPlace(s, first), second) == InsertInPlace(s, second)
  {
    var a := InsertInPlace(InsertInPlace(s, first), second).model.values;
    var b := InsertInPlace(s, second).model.values;
    assert forall i :: 0 <= i < |a| ==> a[i] == b[i];
  }

  /**
   * Nothing moves the selection when the grid shrinks: with the selection
   * on the last row, one stepper step down leaves it off the grid, and the
   * next insert would trap.
   */
  lemma ShrinkStrandsSelection<T>(s: Sheet<T>)
    requires Valid(s) && s.model.rowsCount >= 2 && s.selectedCell.row == s.model.rowsCount - 1
    ensures StepperStep(s.model.rowsCount, s.model.rowsCount - 1)
    ensures !InBounds(SetRowsCount(s.model, s.model.rowsCount - 1).values, s.selectedCell)
  {
  }

  /** The current sheet starts valid on the default view model. */
  lemma InitialSheetValid()
    ensures Valid(Sheet(InitSample(4, 4), InitialSelection))
  {
    InitSampleShapedIff(4, 4);
  }
}
