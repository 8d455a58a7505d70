/** The grid object: a square two-dimensional array of cells, addressed by
    1-based (x, y) with y = size naming the top row. */
module Fields {
  import opened Cells
  import opened Boards

  class Field {
    /** Array row size - y, array column x - 1 hold the cell (x, y). */
    const cells: array2<CellType>
    const size: nat
    /** The abstract view: the grid as a value, row 0 on top. */
    ghost var Grid: Board

    ghost predicate Valid()
      reads this, cells
    {
      cells.Length0 == size && cells.Length1 == size &&
      IsSquare(Grid) && |Grid| == size &&
      forall r, c :: 0 <= r < size && 0 <= c < size ==> cells[r, c] == Grid[r][c]
    }

    /** Wraps a square array; the field takes it over. */
    constructor (cells: array2<CellType>)
      requires cells.Length0 == cells.Length1
      ensures Valid() && this.cells == cells && size == cells.Length0
    {
      this.cells := cells;
      size := cells.Length0;
      var n := cells.Length0;
      Grid := seq(n, r requires 0 <= r < n reads cells =>
                seq(n, c requires 0 <= c < n reads cells => cells[r, c]));
    }

    /** The cell at (x, y). */
    function GetType(x: int, y: int): (t: CellType)
      reads this, cells
      requires Valid() && InBounds(size, x, y)
      ensures t == At(Grid, x, y)
    {
      cells[size - y, x - 1]
    }

    /** Overwrites the cell at (x, y) with t, whatever it held. */
    method SetType(x: int, y: int, t: CellType)
      requires Valid() && InBounds(size, x, y)
      modifies this, cells
      ensures Valid() && Grid == Put(old(Grid), x, y, t)
      ensures GetType(x, y) == t
      ensures forall x', y' :: InBounds(size, x', y') && (x' != x || y' != y) ==>
                GetType(x', y') == old(GetType(x', y'))
    {
      cells[size - y, x - 1] := t;
      Grid := Put(Grid, x, y, t);
    }

    /** Counts the cells holding t, visiting the grid column by column. */
    method GetNumberOfType(t: CellType) returns (number: nat)
      requires Valid()
      ensures number == Count(Grid, t)
      ensures number <= size * size
    {
      ghost var g := Grid;
      number := 0;
      var i := 1;
      while i <= size
        invariant 1 <= i <= size + 1
        invariant number == ColumnsCount(g, i - 1, t)
      {
        ghost var done := number;
        var j := 1;
        while j <= size
          invariant 1 <= j <= size + 1
          invariant number == done + ColumnScan(g, i, j - 1, t)
        {
          if GetType(i, j) == t {
            number := number + 1;
          }
          j := j + 1;
        }
        i := i + 1;
      }
      ColumnsCountIsCount(g, t);
      CountBound(g, t);
    }

    /** Whether some column, row or main diagonal holds `number` cells equal
        to t. Each line keeps a running counter that is never reset, and the
        scan stops as soon as one counter reaches `number`. */
    method ContainsNumberOfTypeInRow(number: int, t: CellType) returns (found: bool)
      requires Valid()
      ensures found == HasLine(Grid, number, t)
    {
      ghost var g := Grid;
      var inDiagonal, inAntiDiagonal := 0, 0;
      var i := 1;
      while i <= size
        invariant 1 <= i <= size + 1
        invariant inDiagonal == DiagonalScan(g, i - 1, t)
        invariant inAntiDiagonal == AntiDiagonalScan(g, i - 1, t)
        invariant number >= 1 ==> inDiagonal < number && inAntiDiagonal < number
        invariant number >= 1 ==> NoLineBefore(g, i, number, t)
      {
        if t == GetType(i, i) {
          inDiagonal := inDiagonal + 1;
          if inDiagonal == number {
            DiagonalScanFound(g, i, t);
            return true;
          }
        }
        if t == GetType(i, size + 1 - i) {
          inAntiDiagonal := inAntiDiagonal + 1;
          if inAntiDiagonal == number {
            DiagonalScanFound(g, i, t);
            return true;
          }
        }
        found := ScanColumnAndRow(i, number, t);
        if found {
          ColumnOrRowLine(g, i, number, t);
          return;
        }
        i := i + 1;
      }
      NoLineFound(g, number, t);
      return false;
    }

    /** The inner loop of the line scan: column i and row i side by side, each
        with its own counter, stopping as soon as one reaches `number`. It
        reports true exactly when column i or row i holds `number` cells of t. */
    method ScanColumnAndRow(i: int, number: int, t: CellType) returns (found: bool)
      requires Valid() && 1 <= i <= size
      ensures found <==> number >= 1 && (ColumnScan(Grid, i, size, t) >= number || RowScan(Grid, i, size, t) >= number)
    {
      ghost var g := Grid;
      var inColumn, inRow := 0, 0;
      var j := 1;
      while j <= size
        invariant 1 <= j <= size + 1
        invariant inColumn == ColumnScan(g, i, j - 1, t)
        invariant inRow == RowScan(g, i, j - 1, t)
        invariant number >= 1 ==> inColumn < number && inRow < number
      {
        if t == GetType(i, j) {
          inColumn := inColumn + 1;
          if inColumn == number {
            ColumnScanCounts(g, i, j, t);
            ColumnScanCounts(g, i, size, t);
            return true;
          }
        }
        if t == GetType(j, i) {
          inRow := inRow + 1;
          if inRow == number {
            RowScanCounts(g, i, j, t);
            RowScanCounts(g, i, size, t);
            return true;
          }
        }
        j := j + 1;
      }
      return false;
    }
  }
}
