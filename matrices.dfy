/** The matrix containers: DenseMatrix, SquareMatrix, the packed Hermitian
 *  matrices and BlockDiagonalMatrix, with the element traversal and the
 *  elementwise operators of Matrix_Base. Each class is a layout, a mapping
 *  from (row, col) to a slot of its flat storage; Matrix_Base's methods are
 *  written once over the layout, as the CRTP base class is written once over
 *  its derived classes. */
module Matrices {
  import opened Arith
  import opened GridIndex

  /** The storage of each matrix class. */
  datatype Layout =
    | Dense(rows: nat, cols: nat)
      // DenseMatrix: column-major, rows·cols elements
    | Square(n: nat)
      // SquareMatrix: column-major, n·n elements
    | Packed(n: nat, conjugating: bool)
      // the Hermitian matrices: the diagonal and the upper triangle, row by
      // row; `conjugating` for the complex and fixed-size variants

  function RowCount(l: Layout): nat
  {
    if l.Dense? then l.rows else l.n
  }

  function ColCount(l: Layout): nat
  {
    if l.Dense? then l.cols else l.n
  }

  /** HasSquareShape: false unless a class specialises it. */
  function IsSquareShape(l: Layout): (r: bool)
    ensures r ==> RowCount(l) == ColCount(l)
  {
    !l.Dense?
  }

  /** HasHermitianShape: true only for the Hermitian matrices, which are
   *  also square. */
  function IsHermitianShape(l: Layout): (r: bool)
    ensures r ==> IsSquareShape(l)
  {
    l.Packed?
  }

  predicate InRange(l: Layout, row: nat, col: nat)
  {
    row < RowCount(l) && col < ColCount(l)
  }

  /** The positions that own a slot: all of them, except below the diagonal
   *  of a Hermitian matrix. */
  predicate Owned(l: Layout, row: nat, col: nat)
  {
    InRange(l, row, col) && (l.Packed? ==> row <= col)
  }

  // ----- Packed Hermitian storage -----

  /** Elements an n×n Hermitian matrix stores: (n² − n)/2 off the diagonal
   *  plus the n diagonal ones. */
  function PackedSize(n: nat): nat
  {
    SquareAtLeast(n);
    (n * n - n) / 2 + n
  }

  lemma SquareAtLeast(n: nat)
    ensures n <= n * n
  {
    if n > 0 {
      MulLe(1, n, n);
    }
  }

  /** Where row r of the upper triangle begins in packed storage: the rows
   *  above it hold n, n − 1, …, n − r + 1 elements. */
  function RowStart(n: nat, r: nat): int
  {
    if r == 0 then 0 else RowStart(n, r - 1) + n - (r - 1)
  }

  /** r² − r is even. */
  lemma {:induction false} PronicEven(r: nat)
    ensures (r * r - r) % 2 == 0
  {
    if r > 0 {
      var q := r - 1;
      PronicEven(q);
      assert r * r == q * q + 2 * q + 1;
    }
  }

  /** The closed form the accessors use: row r starts at r·n − (r² − r)/2. */
  lemma {:induction false} RowStartClosed(n: nat, r: nat)
    ensures RowStart(n, r) == r * n - (r * r - r) / 2
  {
    if r > 0 {
      var q := r - 1;
      RowStartClosed(n, q);
      PronicEven(q);
      assert r * n == q * n + n;
      assert r * r - r == (q * q - q) + 2 * q;
      assert (r * r - r) / 2 == (q * q - q) / 2 + q;
    }
  }

  lemma {:induction false} RowStartMono(n: nat, a: nat, b: nat)
    requires a <= b <= n
    ensures RowStart(n, a) <= RowStart(n, b)
    decreases b
  {
    if a < b {
      RowStartMono(n, a, b - 1);
    }
  }

  /** The rows together fill the packed storage exactly. */
  lemma PackedSizeIsRowStart(n: nat)
    ensures RowStart(n, n) == PackedSize(n)
  {
    RowStartClosed(n, n);
    PronicEven(n);
  }

  /** The slot of (row, col), row ≤ col < n, in packed storage. It lies in
   *  row `row`'s stretch and below the stored size. */
  function PackedIndex(n: nat, row: nat, col: nat): (k: nat)
    requires row <= col < n
    ensures RowStart(n, row) <= k < RowStart(n, row + 1)
    ensures k < PackedSize(n)
  {
    RowStartClosed(n, row);
    RowStartMono(n, 0, row);
    RowStartMono(n, row + 1, n);
    PackedSizeIsRowStart(n);
    row * n - (row * row - row) / 2 + (col - row)
  }

  /** The row whose stretch holds slot k, searched from row r down. */
  function PackedRow(n: nat, k: nat, r: nat): (row: nat)
    requires r < n && RowStart(n, r) <= k < RowStart(n, n)
    ensures r <= row < n && RowStart(n, row) <= k < RowStart(n, row + 1)
    decreases n - r
  {
    if k < RowStart(n, r + 1) then r else PackedRow(n, k, r + 1)
  }

  /** The upper-triangle position stored at slot k. */
  function PackedPosition(n: nat, k: nat): (p: (nat, nat))
    requires k < PackedSize(n)
    ensures p.0 <= p.1 < n && PackedIndex(n, p.0, p.1) == k
  {
    PackedSizeIsRowStart(n);
    var row := PackedRow(n, k, 0);
    RowStartClosed(n, row);
    (row, k - RowStart(n, row) + row)
  }

  lemma PackedIndexInjective(n: nat, r1: nat, c1: nat, r2: nat, c2: nat)
    requires r1 <= c1 < n && r2 <= c2 < n
    requires PackedIndex(n, r1, c1) == PackedIndex(n, r2, c2)
    ensures r1 == r2 && c1 == c2
  {
    if r1 < r2 {
      RowStartMono(n, r1 + 1, r2);
    }
    if r2 < r1 {
      RowStartMono(n, r2 + 1, r1);
    }
  }

  // ----- Square and dense storage -----

  /** SquareMatrix::operator(): column-major, (row, col) at col·n + row. */
  function SquareIndex(n: nat, row: nat, col: nat): (k: nat)
    requires row < n && col < n
    ensures k < n * n
  {
    DigitBound(col, n, row, n);
    col * n + row
  }

  /** DenseMatrix::operator() as written: col·_cols + row, with the column
   *  count where the row count belongs. */
  function DenseIndexAsWritten(cols: nat, row: nat, col: nat): nat
  {
    col * cols + row
  }

  /** As written, a 3×2 matrix stores (2,0) and (0,1) in the same slot, and
   *  (0,2) of a 1×3 matrix lands at slot 6, past its three elements. */
  lemma DenseIndexAsWrittenBreaks()
    ensures DenseIndexAsWritten(2, 2, 0) == DenseIndexAsWritten(2, 0, 1)
    ensures DenseIndexAsWritten(3, 0, 2) >= 1 * 3
  {
  }

  /** The intended column-major index, col·rows + row, as SquareMatrix has
   *  it; both agree on square matrices. */
  function DenseIndex(rows: nat, cols: nat, row: nat, col: nat): (k: nat)
    requires row < rows && col < cols
    ensures k < rows * cols
    ensures rows == cols ==> k == DenseIndexAsWritten(cols, row, col)
  {
    DigitBound(col, cols, row, rows);
    col * rows + row
  }

  // ----- The layout: positions to slots and back -----

  /** Elements each class allocates. */
  function Stored(l: Layout): nat
  {
    match l
    case Dense(rows, cols) => rows * cols
    case Square(n) => n * n
    case Packed(n, _) => PackedSize(n)
  }

  /** The slot an owned position occupies. */
  function Slot(l: Layout, row: nat, col: nat): (k: nat)
    requires Owned(l, row, col)
    ensures k < Stored(l)
  {
    match l
    case Dense(rows, cols) => DenseIndex(rows, cols, row, col)
    case Square(n) => SquareIndex(n, row, col)
    case Packed(n, _) => PackedIndex(n, row, col)
  }

  /** The owned position stored at slot k: every slot belongs to one. */
  function PositionOf(l: Layout, k: nat): (p: (nat, nat))
    requires k < Stored(l)
    ensures Owned(l, p.0, p.1) && Slot(l, p.0, p.1) == k
  {
    match l
    case Dense(rows, cols) => ColumnMajorPosition(k, rows, cols)
    case Square(n) => ColumnMajorPosition(k, n, n)
    case Packed(n, _) => PackedPosition(n, k)
  }

  /** The (row, column) of slot k in column-major storage. */
  function ColumnMajorPosition(k: nat, rows: nat, cols: nat): (p: (nat, nat))
    requires k < rows * cols
    ensures p.0 < rows && p.1 < cols && p.1 * rows + p.0 == k
  {
    ColumnMajorSplit(k, rows, cols);
    (k % rows, k / rows)
  }

  /** A slot below rows·cols splits into a row below rows and a column
   *  below cols. */
  lemma ColumnMajorSplit(k: nat, rows: nat, cols: nat)
    requires k < rows * cols
    ensures rows > 0 && k % rows < rows && k / rows < cols
    ensures (k / rows) * rows + k % rows == k
  {
    DivBelow(k, cols, rows);
  }

  /** Distinct owned positions occupy distinct slots, so the layout is a
   *  bijection between owned positions and [0, Stored). */
  lemma {:induction false} SlotRoundTrip(l: Layout, row: nat, col: nat)
    requires Owned(l, row, col)
    ensures PositionOf(l, Slot(l, row, col)) == (row, col)
  {
    var p := PositionOf(l, Slot(l, row, col));
    match l
    case Dense(rows, cols) =>
      DivModUnique(col, row, rows);
    case Square(n) =>
      DivModUnique(col, row, n);
    case Packed(n, _) =>
      PackedIndexInjective(n, p.0, p.1, row, col);
  }

  /** getRows(): DenseMatrix divides its size by the column count (so it
   *  needs one column at least); the square classes give n, which the
   *  variable-size ones recover from their size by a square root. */
  function NumRows(l: Layout, size: nat): (r: nat)
    requires size == Stored(l) && (l.Dense? ==> l.cols > 0)
    ensures r == RowCount(l)
  {
    if l.Dense? then
      DivModUnique(l.rows, 0, l.cols);
      size / l.cols
    else l.n
  }

  /** The const operator(): below the diagonal a Hermitian matrix reads the
   *  mirrored entry, conjugated by the conjugating variants. */
  function Read<V>(l: Layout, d: seq<V>, conj: V -> V, row: nat, col: nat): V
    requires |d| == Stored(l) && InRange(l, row, col)
    decreases if row > col then 1 else 0
  {
    if l.Packed? && row > col then
      (if l.conjugating then conj(Read(l, d, conj, col, row)) else Read(l, d, conj, col, row))
    else d[Slot(l, row, col)]
  }

  /** The position a read or write of (row, col) resolves to. */
  function Resolved(l: Layout, row: nat, col: nat): (p: (nat, nat))
    requires InRange(l, row, col)
    ensures Owned(l, p.0, p.1)
  {
    if l.Packed? && row > col then (col, row) else (row, col)
  }

  /** The writable operator(): the conjugating Hermitian variants assert
   *  row ≤ col, the generic one redirects (row, col) to (col, row). */
  predicate Writable(l: Layout, row: nat, col: nat)
  {
    InRange(l, row, col) && (l.Packed? && l.conjugating ==> row <= col)
  }

  function WriteSlot(l: Layout, row: nat, col: nat): (k: nat)
    requires Writable(l, row, col)
    ensures k < Stored(l)
  {
    var p := Resolved(l, row, col);
    Slot(l, p.0, p.1)
  }

  /** A write through the reference is read back at the same position. */
  lemma ReadAfterWrite<V>(l: Layout, d: seq<V>, conj: V -> V, row: nat, col: nat, v: V)
    requires |d| == Stored(l) && Writable(l, row, col)
    ensures Read(l, d[WriteSlot(l, row, col) := v], conj, row, col) == v
  {
  }

  /** ... and leaves every read that resolves elsewhere as it was. */
  lemma ReadElsewhere<V>(l: Layout, d: seq<V>, conj: V -> V, row: nat, col: nat, v: V,
                         r2: nat, c2: nat)
    requires |d| == Stored(l) && Writable(l, row, col) && InRange(l, r2, c2)
    requires Resolved(l, r2, c2) != Resolved(l, row, col)
    ensures Read(l, d[WriteSlot(l, row, col) := v], conj, r2, c2) == Read(l, d, conj, r2, c2)
  {
    var p := Resolved(l, row, col);
    var q := Resolved(l, r2, c2);
    SlotRoundTrip(l, p.0, p.1);
    SlotRoundTrip(l, q.0, q.1);
    assert Slot(l, q.0, q.1) != Slot(l, p.0, p.1);
  }

  /** A conjugating Hermitian matrix reads as one: off the diagonal, (row,
   *  col) is the conjugate of (col, row) whenever conj is an involution. */
  lemma PackedHermitian<V>(n: nat, d: seq<V>, conj: V -> V, row: nat, col: nat)
    requires |d| == PackedSize(n) && row < n && col < n && row != col
    requires forall x :: conj(conj(x)) == x
    ensures Read(Packed(n, true), d, conj, row, col) == conj(Read(Packed(n, true), d, conj, col, row))
  {
  }

  /** The generic variable-size Hermitian matrix reads symmetric. */
  lemma PackedSymmetric<V>(n: nat, d: seq<V>, conj: V -> V, row: nat, col: nat)
    requires |d| == PackedSize(n) && row < n && col < n
    ensures Read(Packed(n, false), d, conj, row, col) == Read(Packed(n, false), d, conj, col, row)
  {
  }

  // ----- Matrix_Base::for_each_elem -----

  /** Position p comes before (i, j) in row-by-row order. */
  predicate Before(p: (nat, nat), i: nat, j: nat)
  {
    p.0 < i || (p.0 == i && p.1 < j)
  }

  /** The unary for_each_elem: a Hermitian-shaped matrix is walked over its
   *  upper triangle (j from i), any other over every (i, j), row by row,
   *  and the functor rewrites each visited element through the writable
   *  operator(). Every stored element is rewritten exactly once. */
  method Traverse<V>(l: Layout, d: seq<V>, f: V -> V) returns (r: seq<V>)
    requires |d| == Stored(l) && (l.Dense? ==> l.cols > 0)
    ensures |r| == |d|
    ensures forall k :: 0 <= k < |d| ==> r[k] == f(d[k])
  {
    r := d;
    var rows := NumRows(l, |d|);
    var cols := ColCount(l);
    var i := 0;
    while i < rows
      invariant 0 <= i <= rows && |r| == |d|
      invariant forall k :: 0 <= k < |d| ==>
        r[k] == if PositionOf(l, k).0 < i then f(d[k]) else d[k]
    {
      var j := if IsHermitianShape(l) then i else 0;
      while j < cols
        invariant j <= cols && |r| == |d|
        invariant IsHermitianShape(l) ==> i <= j
        invariant forall k :: 0 <= k < |d| ==>
          r[k] == if Before(PositionOf(l, k), i, j) then f(d[k]) else d[k]
      {
        var s := Slot(l, i, j);
        SlotRoundTrip(l, i, j);
        r := r[s := f(r[s])];
        j := j + 1;
      }
      i := i + 1;
    }
  }

  /** The binary for_each_elem: element (i, j) is combined with b(i, j),
   *  read through b's const operator(). The source reads b through a copy
   *  of it, so b is taken here as a value. */
  method Traverse2<V>(l: Layout, d: seq<V>, b: seq<V>, conj: V -> V, g: (V, V) -> V)
    returns (r: seq<V>)
    requires |d| == Stored(l) && |b| == Stored(l) && (l.Dense? ==> l.cols > 0)
    ensures |r| == |d|
    ensures forall k :: 0 <= k < |d| ==> r[k] == g(d[k], b[k])
  {
    r := d;
    var rows := NumRows(l, |d|);
    var cols := ColCount(l);
    var i := 0;
    while i < rows
      invariant 0 <= i <= rows && |r| == |d|
      invariant forall k :: 0 <= k < |d| ==>
        r[k] == if PositionOf(l, k).0 < i then g(d[k], b[k]) else d[k]
    {
      var j := if IsHermitianShape(l) then i else 0;
      while j < cols
        invariant j <= cols && |r| == |d|
        invariant IsHermitianShape(l) ==> i <= j
        invariant forall k :: 0 <= k < |d| ==>
          r[k] == if Before(PositionOf(l, k), i, j) then g(d[k], b[k]) else d[k]
      {
        var s := Slot(l, i, j);
        SlotRoundTrip(l, i, j);
        r := r[s := g(r[s], Read(l, b, conj, i, j))];
        j := j + 1;
      }
      i := i + 1;
    }
  }

  // ----- The matrix classes -----

  class Matrix<V> {
    const layout: Layout
    const conj: V -> V
    var data: seq<V>

    ghost predicate Valid()
      reads this
    {
      |data| == Stored(layout)
    }

    /** getRows() is defined: DenseMatrix needs a column to divide by. */
    predicate RowsDefined()
      reads this
    {
      layout.Dense? ==> layout.cols > 0
    }

    /** DenseMatrix(rows, cols): rows·cols elements, remembering cols. */
    constructor DenseMatrix(rows: nat, cols: nat, init: V)
      ensures Valid() && layout == Dense(rows, cols)
      ensures data == seq(rows * cols, _ => init)
    {
      layout := Dense(rows, cols);
      conj := x => x;
      data := seq(rows * cols, _ => init);
    }

    /** SquareMatrix(rows, cols): asserts rows == cols, rows·cols elements. */
    constructor SquareMatrix(rows: nat, cols: nat, init: V)
      requires rows == cols
      ensures Valid() && layout == Square(rows)
      ensures data == seq(rows * cols, _ => init)
    {
      layout := Square(rows);
      conj := x => x;
      data := seq(rows * cols, _ => init);
    }

    /** HermitianMatrix<Field>(rows, cols): asserts rows == cols and stores
     *  (rows·cols − rows)/2 + rows elements. */
    constructor HermitianMatrix(rows: nat, cols: nat, init: V)
      requires rows == cols
      ensures Valid() && layout == Packed(rows, false)
      ensures data == seq((rows * cols - rows) / 2 + rows, _ => init)
    {
      layout := Packed(rows, false);
      conj := x => x;
      data := seq((rows * cols - rows) / 2 + rows, _ => init);
    }

    /** HermitianMatrix<complex<T>>(rows, cols) and the fixed-size classes
     *  built as (Size, Size): the same storage, read with conjugation. */
    constructor ConjugatingHermitian(rows: nat, cols: nat, init: V, conjugate: V -> V)
      requires rows == cols
      ensures Valid() && layout == Packed(rows, true) && conj == conjugate
      ensures data == seq(rows + (rows * cols - rows) / 2, _ => init)
    {
      layout := Packed(rows, true);
      conj := conjugate;
      data := seq(rows + (rows * cols - rows) / 2, _ => init);
    }

    /** The copy constructor. */
    constructor Copy(m: Matrix<V>)
      ensures layout == m.layout && conj == m.conj && data == m.data
    {
      layout := m.layout;
      conj := m.conj;
      data := m.data;
    }

    function GetRows(): (r: nat)
      requires Valid() && RowsDefined()
      reads this
      ensures r == RowCount(layout)
    {
      NumRows(layout, |data|)
    }

    function GetCols(): (r: nat)
      reads this
      ensures r == ColCount(layout)
    {
      if layout.Dense? then layout.cols else layout.n
    }

    /** getSize() of the square classes: the n whose allocation the storage
     *  has, which the variable-size classes compute with a square root. */
    function GetSize(): (r: nat)
      requires Valid() && !layout.Dense?
      reads this
      ensures layout.Square? ==> r * r == |data|
      ensures layout.Packed? ==> PackedSize(r) == |data|
      ensures r == GetRows() == GetCols()
    {
      layout.n
    }

    /** The const operator(). */
    function Get(row: nat, col: nat): (r: V)
      requires Valid() && InRange(layout, row, col)
      reads this
      ensures var p := Resolved(layout, row, col);
        r == if layout.Packed? && layout.conjugating && row > col then conj(data[Slot(layout, p.0, p.1)])
             else data[Slot(layout, p.0, p.1)]
    {
      if layout.Packed? && row > col then
        assert Read(layout, data, conj, col, row) == data[Slot(layout, col, row)];
        Read(layout, data, conj, row, col)
      else Read(layout, data, conj, row, col)
    }

    /** `m(row, col) = v` through the writable operator(). */
    method Set(row: nat, col: nat, v: V)
      requires Valid() && Writable(layout, row, col)
      modifies this
      ensures Valid() && data == old(data)[WriteSlot(layout, row, col) := v]
      ensures Get(row, col) == v
      ensures forall r2, c2 ::
        InRange(layout, r2, c2) && Resolved(layout, r2, c2) != Resolved(layout, row, col) ==>
          Get(r2, c2) == old(Get(r2, c2))
    {
      ghost var d := data;
      data := data[WriteSlot(layout, row, col) := v];
      ReadAfterWrite(layout, d, conj, row, col, v);
      forall r2, c2 | InRange(layout, r2, c2) && Resolved(layout, r2, c2) != Resolved(layout, row, col)
        ensures Read(layout, data, conj, r2, c2) == Read(layout, d, conj, r2, c2)
      {
        ReadElsewhere(layout, d, conj, row, col, v, r2, c2);
      }
    }

    /** for_each_elem(functor). */
    method ForEach(f: V -> V)
      requires Valid() && RowsDefined()
      modifies this
      ensures Valid() && |data| == |old(data)|
      ensures forall k :: 0 <= k < |data| ==> data[k] == f(old(data)[k])
    {
      data := Traverse(layout, data, f);
    }

    /** for_each_elem(functor, b), b of the same class and size. */
    method ForEach2(g: (V, V) -> V, b: Matrix<V>)
      requires Valid() && RowsDefined() && b.Valid() && b.layout == layout
      modifies this
      ensures Valid() && |data| == |old(data)|
      ensures forall k :: 0 <= k < |data| ==> data[k] == g(old(data)[k], old(b.data)[k])
    {
      data := Traverse2(layout, data, b.data, b.conj, g);
    }
  }

  // ----- Matrix_Base's operators, on real elements -----

  /** The element operations of the assign, add_assign, minus_assign,
   *  mul_assign and div_assign structs. */
  datatype Op = Assign | Add | Sub | Mul | Div

  function Apply(op: Op, a: real, b: real): real
    requires op.Div? ==> b != 0.0
  {
    match op
    case Assign => b
    case Add => a + b
    case Sub => a - b
    case Mul => a * b
    case Div => a / b
  }

  /** `m = b`, `m += b`, `m -= b`, `m *= b`, `m /= b` with a scalar: every
   *  stored element is combined with b. */
  method Compound(m: Matrix<real>, op: Op, b: real)
    requires m.Valid() && m.RowsDefined() && (op.Div? ==> b != 0.0)
    modifies m
    ensures m.Valid() && |m.data| == |old(m.data)|
    ensures forall k :: 0 <= k < |m.data| ==> m.data[k] == Apply(op, old(m.data[k]), b)
  {
    m.ForEach(x => Apply(op, x, b));
  }

  /** The same operators with a matrix of the same class: elementwise, so
   *  `*=` is the elementwise product. */
  method CompoundMatrix(m: Matrix<real>, op: Op, b: Matrix<real>)
    requires m.Valid() && m.RowsDefined() && b.Valid() && b.layout == m.layout
    requires op.Div? ==> forall k :: 0 <= k < |b.data| ==> b.data[k] != 0.0
    modifies m
    ensures m.Valid() && |m.data| == |old(m.data)|
    ensures forall k :: 0 <= k < |m.data| ==> m.data[k] == Apply(op, old(m.data[k]), old(b.data[k]))
  {
    m.ForEach2((x, y) => if op.Div? && y == 0.0 then x else Apply(op, x, y), b);
  }

  /** `m * b`, `m / b`, `m + b`, `m - b` with a scalar: a modified copy;
   *  m itself is not written. */
  method Combined(m: Matrix<real>, op: Op, b: real) returns (r: Matrix<real>)
    requires m.Valid() && m.RowsDefined() && !op.Assign? && (op.Div? ==> b != 0.0)
    ensures fresh(r) && r.Valid() && r.layout == m.layout && |r.data| == |m.data|
    ensures forall k :: 0 <= k < |m.data| ==> r.data[k] == Apply(op, m.data[k], b)
  {
    r := new Matrix.Copy(m);
    Compound(r, op, b);
  }

  /** `m + b` and `m - b` with a matrix: a modified copy. */
  method CombinedMatrix(m: Matrix<real>, op: Op, b: Matrix<real>) returns (r: Matrix<real>)
    requires m.Valid() && m.RowsDefined() && b.Valid() && b.layout == m.layout
    requires op.Add? || op.Sub?
    ensures fresh(r) && r.Valid() && r.layout == m.layout && |r.data| == |m.data|
    ensures forall k :: 0 <= k < |m.data| ==> r.data[k] == Apply(op, m.data[k], b.data[k])
  {
    r := new Matrix.Copy(m);
    CompoundMatrix(r, op, b);
  }

  // ----- BlockDiagonalMatrix -----

  function Dist(a: nat, b: nat): nat
  {
    if a >= b then a - b else b - a
  }

  /** BlockDiagonalMatrix's const operator() as written: zero when |row −
   *  col| > s, otherwise entry (row mod s, col mod s) of block row/s. */
  function BlockReadAsWritten<V>(ds: seq<seq<V>>, s: nat, conj: V -> V, zero: V, row: nat, col: nat): V
    requires s > 0
    requires Dist(row, col) <= s ==> row / s < |ds| && |ds[row / s]| == PackedSize(s)
  {
    if Dist(row, col) > s then zero
    else Read(Packed(s, true), ds[row / s], conj, row % s, col % s)
  }

  /** The intended read: zero outside the diagonal blocks, the block's own
   *  entry inside them. */
  function BlockRead<V>(ds: seq<seq<V>>, s: nat, conj: V -> V, zero: V, row: nat, col: nat): V
    requires s > 0 && row / s < |ds| && |ds[row / s]| == PackedSize(s)
  {
    if row / s != col / s then zero
    else Read(Packed(s, true), ds[row / s], conj, row % s, col % s)
  }

  /** As written, position (s−1, s), which lies outside every block, reads
   *  block 0's entry (s−1, 0), and (0, s) reads block 0's diagonal entry
   *  (0, 0); the intended read gives zero at both. With s = 2 these are the
   *  positions (1,2) and (0,2). */
  lemma BlockReadAsWrittenLeaks<V>(ds: seq<seq<V>>, s: nat, conj: V -> V, zero: V)
    requires s > 0 && |ds| >= 2 && |ds[0]| == PackedSize(s)
    ensures BlockReadAsWritten(ds, s, conj, zero, s - 1, s) == Read(Packed(s, true), ds[0], conj, s - 1, 0)
    ensures BlockReadAsWritten(ds, s, conj, zero, 0, s) == Read(Packed(s, true), ds[0], conj, 0, 0)
    ensures BlockRead(ds, s, conj, zero, s - 1, s) == zero
    ensures BlockRead(ds, s, conj, zero, 0, s) == zero
  {
    DivModUnique(0, s - 1, s);
    DivModUnique(0, 0, s);
    DivModUnique(1, 0, s);
  }

  /** Inside a block the two reads agree: the written guard only goes wrong
   *  across blocks. */
  lemma BlockReadAgreesInside<V>(ds: seq<seq<V>>, s: nat, conj: V -> V, zero: V, row: nat, col: nat)
    requires s > 0 && row / s < |ds| && |ds[row / s]| == PackedSize(s) && row / s == col / s
    ensures BlockReadAsWritten(ds, s, conj, zero, row, col) == BlockRead(ds, s, conj, zero, row, col)
  {
    assert row == (row / s) * s + row % s;
    assert col == (col / s) * s + col % s;
  }

  /** The intended read is zero across blocks and, inside one, the read as
   *  written. */
  lemma BlockReadGuards<V>(ds: seq<seq<V>>, s: nat, conj: V -> V, zero: V, row: nat, col: nat)
    requires s > 0 && row / s < |ds| && |ds[row / s]| == PackedSize(s)
    ensures row / s != col / s ==> BlockRead(ds, s, conj, zero, row, col) == zero
    ensures row / s == col / s ==> BlockRead(ds, s, conj, zero, row, col) == BlockReadAsWritten(ds, s, conj, zero, row, col)
  {
    if row / s == col / s {
      BlockReadAgreesInside(ds, s, conj, zero, row, col);
    }
  }

  /** r is what the read as written gives at (row, col), which lies in a
   *  block of ds. */
  ghost predicate BlockGuardsAgree<V>(ds: seq<seq<V>>, s: nat, conj: V -> V, zero: V, row: nat, col: nat, r: V)
  {
    s > 0 && row / s < |ds| && |ds[row / s]| == PackedSize(s) && r == BlockReadAsWritten(ds, s, conj, zero, row, col)
  }

  /** With conjugating blocks the intended read is Hermitian off the
   *  diagonal, zero entries included. */
  lemma BlockHermitian<V>(ds: seq<seq<V>>, s: nat, conj: V -> V, zero: V, row: nat, col: nat)
    requires s > 0 && row / s < |ds| && col / s < |ds| && row != col
    requires forall i :: 0 <= i < |ds| ==> |ds[i]| == PackedSize(s)
    requires forall x :: conj(conj(x)) == x
    requires conj(zero) == zero
    ensures BlockRead(ds, s, conj, zero, row, col) == conj(BlockRead(ds, s, conj, zero, col, row))
  {
    if row / s == col / s {
      assert row == (row / s) * s + row % s;
      assert col == (col / s) * s + col % s;
      PackedHermitian(s, ds[row / s], conj, row % s, col % s);
    }
  }

  /** BlockDiagonalMatrix: equal s×s blocks on the diagonal, each a
   *  fixed-size conjugating Hermitian matrix, held by value. */
  class BlockDiagonal<V> {
    const s: nat
    const conj: V -> V
    const zero: V
    var blocks: seq<seq<V>>

    ghost predicate Valid()
      reads this
    {
      s > 0 && forall i :: 0 <= i < |blocks| ==> |blocks[i]| == PackedSize(s)
    }

    /** BlockDiagonalMatrix(rows, cols): asserts rows == cols and that s
     *  divides rows, then holds rows/s blocks. */
    constructor (rows: nat, cols: nat, size: nat, init: V, conjugate: V -> V, zeroValue: V)
      requires rows == cols && size > 0 && rows % size == 0
      ensures Valid() && s == size && conj == conjugate && zero == zeroValue
      ensures |blocks| == rows / size && GetSize() == rows
      ensures forall i :: 0 <= i < |blocks| ==> blocks[i] == seq(PackedSize(size), _ => init)
    {
      s, conj, zero := size, conjugate, zeroValue;
      blocks := seq(rows / size, _ => seq(PackedSize(size), _ => init));
      assert rows == (rows / size) * size + rows % size;
    }

    /** getSize() == getRows() == getCols(). */
    function GetSize(): (r: nat)
      reads this
      ensures s > 0 ==> r % s == 0 && r / s == |blocks|
    {
      if s > 0 then DivModUnique(|blocks|, 0, s); |blocks| * s else |blocks| * s
    }

    function GetNumSubMatrices(): (r: nat)
      reads this
      ensures r * s == GetSize()
    {
      |blocks|
    }

    /** The const operator(), with the block guard as intended: zero across
     *  blocks, and inside a block what the written guard reads too. */
    function Get(row: nat, col: nat): (r: V)
      requires Valid() && row < GetSize() && col < GetSize()
      reads this
      ensures row / s != col / s ==> r == zero
      ensures row / s == col / s ==> BlockGuardsAgree(blocks, s, conj, zero, row, col, r)
    {
      DivBelow(row, |blocks|, s);
      BlockReadGuards(blocks, s, conj, zero, row, col);
      BlockRead(blocks, s, conj, zero, row, col)
    }

    /** getSubMatrix(i): asserts i < the number of blocks. */
    function GetSubMatrix(i: nat): (r: seq<V>)
      requires Valid() && i < |blocks|
      reads this
      ensures |r| == PackedSize(s)
    {
      blocks[i]
    }

    /** `m(row, col) = v`: within a diagonal block, on or above the block's
     *  diagonal, as the block's writable operator() demands. */
    method Set(row: nat, col: nat, v: V)
      requires Valid() && row < GetSize() && col < GetSize()
      requires row / s == col / s && row % s <= col % s
      modifies this
      ensures Valid() && |blocks| == |old(blocks)|
      ensures blocks == old(blocks)[row / s := old(blocks)[row / s][PackedIndex(s, row % s, col % s) := v]]
      ensures Get(row, col) == v
    {
      DivBelow(row, |blocks|, s);
      var b := row / s;
      blocks := blocks[b := blocks[b][PackedIndex(s, row % s, col % s) := v]];
    }

    /** for_each_elem(functor): each block in index order, by its own
     *  traversal. */
    method ForEach(f: V -> V)
      requires Valid()
      modifies this
      ensures Valid() && |blocks| == |old(blocks)|
      ensures forall i, k :: 0 <= i < |blocks| && 0 <= k < |blocks[i]| ==>
        blocks[i][k] == f(old(blocks)[i][k])
    {
      var i := 0;
      while i < |blocks|
        invariant 0 <= i <= |blocks| && Valid() && |blocks| == |old(blocks)|
        invariant forall b :: i <= b < |blocks| ==> blocks[b] == old(blocks)[b]
        invariant forall b, k :: 0 <= b < i && 0 <= k < |blocks[b]| ==>
          blocks[b][k] == f(old(blocks)[b][k])
      {
        var t := Traverse(Packed(s, true), blocks[i], f);
        blocks := blocks[i := t];
        i := i + 1;
      }
    }

    /** for_each_elem(functor, b): block i with b's block i. */
    method ForEach2(g: (V, V) -> V, b: BlockDiagonal<V>)
      requires Valid() && b.Valid() && b.s == s && |b.blocks| == |blocks|
      modifies this
      ensures Valid() && |blocks| == |old(blocks)|
      ensures forall i, k :: 0 <= i < |blocks| && 0 <= k < |blocks[i]| ==>
        blocks[i][k] == g(old(blocks)[i][k], old(b.blocks)[i][k])
    {
      var other := b.blocks;
      var i := 0;
      while i < |blocks|
        invariant 0 <= i <= |blocks| && Valid() && |blocks| == |old(blocks)|
        invariant forall x :: i <= x < |blocks| ==> blocks[x] == old(blocks)[x]
        invariant forall x, k :: 0 <= x < i && 0 <= k < |blocks[x]| ==>
          blocks[x][k] == g(old(blocks)[x][k], other[x][k])
      {
        var t := Traverse2(Packed(s, true), blocks[i], other[i], b.conj, g);
        blocks := blocks[i := t];
        i := i + 1;
      }
    }
  }
}
