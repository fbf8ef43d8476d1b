/** ImageData: an image held as a vector of rows, with bounds-checked pixel
 *  access and a row-first iterator that walks the pixels in row-major order
 *  and parks at (cols, rows) once it leaves the last row. */
module Images {
  import opened Wrappers
  import opened CheckingPolicy
  import opened Arith
  import opened GridIndex

  /** The iterator position of the k-th pixel of a rows × cols image in
   *  row-first order, as (column, row); every k from rows·cols on is the
   *  end position (cols, rows). */
  function Cell(k: nat, rows: nat, cols: nat): (nat, nat)
    requires cols > 0
  {
    if k >= rows * cols then (cols, rows) else (k % cols, k / cols)
  }

  /** The iterator's `<`: lexicographic on (row, column). */
  predicate PosLess(a: (nat, nat), b: (nat, nat))
  {
    a.1 < b.1 || (a.1 == b.1 && a.0 < b.0)
  }

  /** The iterator's `!=`: the rows differ, or the rows agree and the
   *  columns differ. */
  predicate PosDiffer(a: (nat, nat), b: (nat, nat))
  {
    a.1 != b.1 || (a.1 == b.1 && a.0 != b.0)
  }

  /** Pixel k lies inside the image: row below rows, column below cols. */
  lemma CellInside(k: nat, rows: nat, cols: nat)
    requires cols > 0 && k < rows * cols
    ensures Cell(k, rows, cols).0 < cols && Cell(k, rows, cols).1 < rows
    ensures Cell(k, rows, cols).1 * cols + Cell(k, rows, cols).0 == k
  {
    DivBelow(k, rows, cols);
  }

  /** `<` orders the traversal positions exactly as the traversal visits
   *  them, the end position last. */
  lemma CellOrder(k: nat, m: nat, rows: nat, cols: nat)
    requires cols > 0 && k <= rows * cols && m <= rows * cols
    ensures PosLess(Cell(k, rows, cols), Cell(m, rows, cols)) <==> k < m
  {
    var total := rows * cols;
    if k < total && m < total {
      CellInside(k, rows, cols);
      CellInside(m, rows, cols);
      if k < m {
        assert k / cols <= m / cols by { DivMono(k, m, cols); }
      } else {
        assert m / cols <= k / cols by { DivMono(m, k, cols); }
      }
    } else if k < total {
      CellInside(k, rows, cols);
    } else if m < total {
      CellInside(m, rows, cols);
    }
  }

  /** `!=` tells distinct traversal positions apart, so the walk from
   *  begin meets end only after the last pixel. */
  lemma CellDistinct(k: nat, m: nat, rows: nat, cols: nat)
    requires cols > 0 && k <= rows * cols && m <= rows * cols
    ensures PosDiffer(Cell(k, rows, cols), Cell(m, rows, cols)) <==> k != m
  {
    if k != m {
      if k < m {
        CellOrder(k, m, rows, cols);
      } else {
        CellOrder(m, k, rows, cols);
      }
    }
  }

  lemma DivMono(a: nat, b: nat, c: nat)
    requires c > 0 && a <= b
    ensures a / c <= b / c
  {
    var p := b / c;
    assert b == p * c + b % c;
    assert a < (p + 1) * c;
    DivBelow(a, p + 1, c);
  }

  /** Every row holds cols pixels. */
  predicate Rectangular<P>(d: seq<seq<P>>, cols: nat)
  {
    forall i :: 0 <= i < |d| ==> |d[i]| == cols
  }

  class ImageData<P> {
    var data: seq<seq<P>>

    /** ImageData(vector<vector<P>>&): takes the rows as given. */
    constructor FromRows(rows: seq<seq<P>>)
      ensures data == rows
    {
      data := rows;
    }

    /** ImageData(rows, cols, value): rows rows of cols copies of value. */
    constructor Filled(rows: nat, cols: nat, value: P)
      ensures |data| == rows && Rectangular(data, cols)
      ensures forall i, j :: 0 <= i < rows && 0 <= j < cols ==> data[i][j] == value
    {
      data := seq(rows, _ => seq(cols, _ => value));
    }

    /** getRows: the number of rows. */
    function GetRows(): (r: nat)
      reads this
      ensures r == |data|
    {
      |data|
    }

    /** getCols: the length of row 0, which `at` refuses on an image with
     *  no rows. */
    function GetCols(): (r: Result<nat, Failure>)
      reads this
      ensures r.Err? <==> |data| == 0
      ensures r.Err? ==> r.error == OutOfRange
      ensures r.Ok? ==> r.value == |data[0]|
    {
      if |data| == 0 then Err(OutOfRange) else Ok(|data[0]|)
    }

    /** operator()(row, col) and getPixelValue: `at` on the row, then on
     *  the column; a negative index converts to a huge size_t and fails. */
    function At(row: int, col: int): (r: Result<P, Failure>)
      reads this
      ensures r.Err? <==> !(0 <= row < |data| && 0 <= col < |data[row]|)
      ensures r.Err? ==> r.error == OutOfRange
      ensures r.Ok? ==> r.value == data[row][col]
    {
      if 0 <= row < |data| && 0 <= col < |data[row]| then Ok(data[row][col]) else Err(OutOfRange)
    }

    /** A write through the reference `operator()` returns: checked like a
     *  read, and it changes that one pixel only. */
    method SetPixel(row: int, col: int, v: P) returns (r: Result<(), Failure>)
      modifies this
      ensures r.Err? <==> !(0 <= row < |old(data)| && 0 <= col < |old(data)[row]|)
      ensures r.Err? ==> r.error == OutOfRange && data == old(data)
      ensures r.Ok? ==> data == old(data)[row := old(data)[row][col := v]]
      ensures r.Ok? ==> At(row, col) == Ok(v)
      ensures forall i, j :: (i != row || j != col) ==> At(i, j) == old(At(i, j))
    {
      if !(0 <= row < |data| && 0 <= col < |data[row]|) {
        return Err(OutOfRange);
      }
      data := data[row := data[row][col := v]];
      r := Ok(());
    }

    /** begin(): an iterator at (0, 0). */
    method Begin() returns (it: ImageIterator<P>)
      ensures fresh(it) && it.father == this && it.px == 0 && it.py == 0
    {
      it := new ImageIterator.At(this, 0, 0);
    }

    /** end(): an iterator at (cols, rows); getCols fails on an image with
     *  no rows. */
    method End() returns (r: Result<ImageIterator<P>, Failure>)
      ensures r.Err? <==> |data| == 0
      ensures r.Ok? ==> fresh(r.value) && r.value.father == this
      ensures r.Ok? ==> r.value.px == |data[0]| && r.value.py == |data|
    {
      if |data| == 0 {
        return Err(OutOfRange);
      }
      var it := new ImageIterator.At(this, |data[0]|, |data|);
      r := Ok(it);
    }
  }

  /** The row-first value iterator: a column and a row into its image. */
  class ImageIterator<P> {
    const father: ImageData<P>
    var px: nat
    var py: nat

    constructor At(f: ImageData<P>, x: nat, y: nat)
      ensures father == f && px == x && py == y
    {
      father := f;
      px, py := x, y;
    }

    function GetRow(): (r: nat)
      reads this
      ensures r == py
    {
      py
    }

    function GetCol(): (r: nat)
      reads this
      ensures r == px
    {
      px
    }

    /** `*it`: the pixel under the iterator (unchecked indexing). */
    function Deref(): (r: P)
      requires py < |father.data| && px < |father.data[py]|
      reads this, father
      ensures father.At(GetRow(), GetCol()) == Ok(r)
    {
      father.data[py][px]
    }

    /** Prefix `++`: the next column, else column 0 of the next row, else
     *  the end position (cols, rows). It moves one column on and only then
     *  reads getCols, which fails on an image with no rows, leaving the
     *  column moved. On a rectangular image it moves from the k-th
     *  pixel to the (k+1)-th, and it stays at the end. */
    method Increment() returns (r: Result<(), Failure>)
      modifies this
      ensures r.Err? <==> |father.data| == 0
      ensures r.Err? ==> px == old(px) + 1 && py == old(py)
      ensures r.Ok? ==> var cols, rows := |father.data[0]|, |father.data|;
        (px, py) == if old(px) + 1 < cols then (old(px) + 1, old(py))
                    else if old(py) + 1 < rows then (0, old(py) + 1)
                    else (cols, rows)
      ensures r.Ok? && |father.data[0]| > 0 ==>
        forall k :: 0 <= k <= |father.data| * |father.data[0]| && (old(px), old(py)) == Cell(k, |father.data|, |father.data[0]|)
          ==> (px, py) == Cell(Min(k + 1, |father.data| * |father.data[0]|), |father.data|, |father.data[0]|)
    {
      ghost var ox, oy := px, py;
      px := px + 1;
      var cols := father.GetCols();
      if cols.Err? {
        return Err(cols.error);
      }
      if px >= cols.value {
        px := 0;
        py := py + 1;
        if py >= father.GetRows() {
          px := cols.value;
          py := father.GetRows();
        }
      }
      r := Ok(());
      if cols.value > 0 {
        forall k | 0 <= k <= |father.data| * cols.value && (ox, oy) == Cell(k, |father.data|, cols.value)
          ensures (px, py) == Cell(Min(k + 1, |father.data| * cols.value), |father.data|, cols.value)
        {
          CellStep(k, |father.data|, cols.value);
        }
      }
    }
  }

  function Min(a: nat, b: nat): nat
  {
    if a < b then a else b
  }

  /** One step of prefix `++` from the k-th position lands on the next. */
  lemma CellStep(k: nat, rows: nat, cols: nat)
    requires cols > 0 && k <= rows * cols
    ensures var (x, y) := Cell(k, rows, cols);
      Cell(Min(k + 1, rows * cols), rows, cols) ==
        if x + 1 < cols then (x + 1, y)
        else if y + 1 < rows then (0, y + 1)
        else (cols, rows)
  {
    var total := rows * cols;
    if k < total {
      CellInside(k, rows, cols);
      var x, y := k % cols, k / cols;
      assert Cell(k, rows, cols) == (x, y);
      if x + 1 < cols {
        DigitBound(y, rows, x + 1, cols);
        DivModUnique(y, x + 1, cols);
        assert k + 1 == y * cols + (x + 1) < total;
        assert Cell(k + 1, rows, cols) == (x + 1, y);
      } else {
        assert k + 1 == (y + 1) * cols + 0;
        if y + 1 < rows {
          DigitBound(y + 1, rows, 0, cols);
          DivModUnique(y + 1, 0, cols);
          assert Cell(k + 1, rows, cols) == (0, y + 1);
        } else {
          assert k + 1 == total;
        }
      }
    }
  }

  /** Each input through transform, in order. */
  function Transformed<T, P>(s: seq<T>, transform: T -> P): (r: seq<P>)
    ensures |r| == |s|
  {
    seq(|s|, t requires 0 <= t < |s| => transform(s[t]))
  }

  /** Row i holds inputs i·cols to (i+1)·cols, transformed. */
  ghost predicate RowsFrom<T, P>(d: seq<seq<P>>, input: seq<T>, cols: nat, transform: T -> P)
  {
    forall i :: 0 <= i < |d| ==>
      (i + 1) * cols <= |input| && d[i] == Transformed(input[i * cols..(i + 1) * cols], transform)
  }

  /** Builds rows rows by pushing cols successive inputs each, through
   *  transform: the iterator constructors. The input must supply
   *  rows·cols values. */
  method FromInput<T, P>(input: seq<T>, rows: nat, cols: nat, transform: T -> P) returns (img: ImageData<P>)
    requires |input| >= rows * cols
    ensures fresh(img) && |img.data| == rows
    ensures RowsFrom(img.data, input, cols, transform)
  {
    var d: seq<seq<P>> := [];
    var it := 0;
    var i := 0;
    while i < rows
      invariant 0 <= i <= rows && |d| == i && it == i * cols
      invariant RowsFrom(d, input, cols, transform)
    {
      MulLe(i + 1, rows, cols);
      var row: seq<P> := [];
      var j := 0;
      while j < cols
        invariant 0 <= j <= cols && it == i * cols + j
        invariant row == Transformed(input[i * cols..it], transform)
      {
        row := row + [transform(input[it])];
        it := it + 1;
        j := j + 1;
      }
      d := d + [row];
      i := i + 1;
    }
    img := new ImageData.FromRows(d);
  }

  /** The iterator constructor without a transform. */
  method FromInputPlain<P>(input: seq<P>, rows: nat, cols: nat) returns (img: ImageData<P>)
    requires |input| >= rows * cols
    ensures fresh(img) && |img.data| == rows
    ensures forall i :: 0 <= i < rows ==>
      (i + 1) * cols <= |input| && img.data[i] == input[i * cols..(i + 1) * cols]
  {
    img := FromInput(input, rows, cols, x => x);
    forall i | 0 <= i < rows
      ensures (i + 1) * cols <= |input| && img.data[i] == input[i * cols..(i + 1) * cols]
    {
      assert (i + 1) * cols <= |input|;
    }
  }

  /** Walking an image built from an input with the row-first iterator
   *  reads the input back in order: pixel k under the iterator is the
   *  k-th input, transformed. */
  lemma ReadBackInOrder<T, P>(d: seq<seq<P>>, input: seq<T>, rows: nat, cols: nat, transform: T -> P, k: nat)
    requires cols > 0 && |d| == rows && RowsFrom(d, input, cols, transform)
    requires k < rows * cols
    ensures var (x, y) := Cell(k, rows, cols);
      y < |d| && x < |d[y]| && d[y][x] == transform(input[k])
  {
    CellInside(k, rows, cols);
    var (x, y) := Cell(k, rows, cols);
    var row := d[y];
    assert (y + 1) * cols <= |input|;
    assert row == Transformed(input[y * cols..(y + 1) * cols], transform);
    assert input[y * cols..(y + 1) * cols][x] == input[k];
  }
}
