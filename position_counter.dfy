/** PositionCounter<NDims>: a running element counter over a row-major
 *  stream, with the stream's extents, that turns the count into a row and
 *  a column. */
module PositionCounters {
  import opened GridIndex
  import opened Images

  /** getRow as written: the count divided by the first extent, the
   *  number of rows. */
  function RowAsWritten(current: nat, extents: seq<nat>): nat
    requires |extents| > 0 && extents[0] > 0
  {
    current / extents[0]
  }

  /** getCol as written: the count modulo the number of rows. */
  function ColAsWritten(current: nat, extents: seq<nat>): nat
    requires |extents| > 0 && extents[0] > 0
  {
    current % extents[0]
  }

  /** getNumberOfCols: the second extent, or 1 below two dimensions. */
  function NumberOfCols(extents: seq<nat>): (r: nat)
    ensures |extents| >= 2 ==> r == extents[1]
    ensures |extents| < 2 ==> r == 1
  {
    if |extents| >= 2 then extents[1] else 1
  }

  class PositionCounter {
    const extents: seq<nat>
    var current: nat

    predicate Valid()
      reads this
    {
      1 <= |extents| <= 3
    }

    /** PositionCounter(rows), one dimension. */
    constructor Rows(rows: nat)
      ensures Valid() && extents == [rows] && current == 0
    {
      extents := [rows];
      current := 0;
    }

    /** PositionCounter(rows, cols), two dimensions. */
    constructor RowsCols(rows: nat, cols: nat)
      ensures Valid() && extents == [rows, cols] && current == 0
    {
      extents := [rows, cols];
      current := 0;
    }

    /** PositionCounter(rows, cols, bool): the end counter, past all
     *  rows·cols elements. */
    constructor EndOf(rows: nat, cols: nat)
      ensures Valid() && extents == [rows, cols] && current == rows * cols
    {
      extents := [rows, cols];
      current := rows * cols;
    }

    /** PositionCounter(rows, cols, slices), three dimensions. */
    constructor RowsColsSlices(rows: nat, cols: nat, slices: nat)
      ensures Valid() && extents == [rows, cols, slices] && current == 0
    {
      extents := [rows, cols, slices];
      current := 0;
    }

    function GetNumberOfRows(): (r: nat)
      requires Valid()
      reads this
      ensures r == extents[0]
    {
      extents[0]
    }

    function GetNumberOfCols(): nat
      reads this
    {
      NumberOfCols(extents)
    }

    /** getNumberOfSlices: the third extent, or 1 below three dimensions. */
    function GetNumberOfSlices(): (r: nat)
      reads this
      ensures |extents| >= 3 ==> r == extents[2]
      ensures |extents| < 3 ==> r == 1
    {
      if |extents| >= 3 then extents[2] else 1
    }

    /** The row of the current element of a row-major stream: the count
     *  divided by the number of columns. */
    function GetRow(): (r: nat)
      requires GetNumberOfCols() > 0
      reads this
      ensures r * GetNumberOfCols() <= current < (r + 1) * GetNumberOfCols()
    {
      current / GetNumberOfCols()
    }

    /** The column of the current element: the count modulo the number of
     *  columns. */
    function GetCol(): (r: nat)
      requires GetNumberOfCols() > 0
      reads this
      ensures r < GetNumberOfCols() && GetRow() * GetNumberOfCols() + r == current
    {
      current % GetNumberOfCols()
    }

    /** increment: the count goes up by exactly one. */
    method Increment()
      modifies this
      ensures current == old(current) + 1
    {
      current := current + 1;
    }
  }

  /** For a two-dimensional counter before the end of its rows × cols
   *  stream, the row and column are inside the grid, recombine into the
   *  count, and are both the position ImageData's row-first iterator
   *  visits at that count and the position vector of that linear index. */
  lemma CounterPosition(c: PositionCounter)
    requires |c.extents| == 2 && c.extents[1] > 0 && c.current < c.extents[0] * c.extents[1]
    ensures Product(c.extents) == c.extents[0] * c.extents[1]
    ensures var rows, cols := c.extents[0], c.extents[1];
      c.GetRow() < rows && c.GetCol() < cols && c.GetRow() * cols + c.GetCol() == c.current &&
      Cell(c.current, rows, cols) == (c.GetCol(), c.GetRow()) &&
      [c.GetRow(), c.GetCol()] == PosVector(c.extents, c.current)
  {
    var rows, cols, k := c.extents[0], c.extents[1], c.current;
    assert c.extents == [rows, cols];
    assert Product([rows, cols]) == rows * cols by {
      assert [rows, cols][1..] == [cols] && [cols][1..] == [];
      assert Product([cols]) == cols * Product([]);
    }
    CellInside(k, rows, cols);
    PosVectorInBounds([rows, cols], k);
    LinearOfPosVector([rows, cols], k);
    var v := PosVector([rows, cols], k);
    assert Linear([rows, cols], v) == v[0] * cols + v[1] by {
      assert [rows, cols][1..] == [cols] && [cols][1..] == [];
      assert Product([cols]) == cols * Product([]);
    }
    assert v[0] < rows && v[1] < cols by {
      assert InBounds([rows, cols], v);
    }
    DivModUnique(v[0], v[1], cols);
  }

  /** Each increment moves a counter that has not reached the end to the
   *  next element in row-major order, as ImageData's prefix `++` does. */
  lemma IncrementFollowsRowMajor(rows: nat, cols: nat, current: nat)
    requires cols > 0 && current < rows * cols
    ensures var (x, y) := Cell(current, rows, cols);
      Cell(current + 1, rows, cols) ==
        if x + 1 < cols then (x + 1, y)
        else if y + 1 < rows then (0, y + 1)
        else (cols, rows)
  {
    CellStep(current, rows, cols);
  }

  /** Dividing by the row count breaks every non-square stream. With 3 rows
   *  of 2 columns, count 3 (row 1, column 1) is reported as row 1,
   *  column 0. With 2 rows of 3 columns, count 5 (row 1, column 2) is
   *  reported as row 2, past the last row. */
  lemma CounterAsWrittenBreaks()
    ensures RowAsWritten(3, [3, 2]) == 1 && ColAsWritten(3, [3, 2]) == 0
    ensures 3 / NumberOfCols([3, 2]) == 1 && 3 % NumberOfCols([3, 2]) == 1
    ensures RowAsWritten(5, [2, 3]) == 2
    ensures 5 / NumberOfCols([2, 3]) == 1 && 5 % NumberOfCols([2, 3]) == 2
  {
  }
}
