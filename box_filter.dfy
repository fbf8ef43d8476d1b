/** boxCarFilter2DFullInterp: a separable box filter over a rows × cols
 *  image stored row by row, with mirrored borders, applied in place. Each
 *  cell holds one region model; the model's `+=` and `*=` are modelled on a
 *  single real component. */
module BoxCarFilter {

  /** The row-major position i·cols + j of cell (i, j). */
  function Idx(i: nat, j: nat, rows: nat, cols: nat): (p: nat)
    requires i < rows && j < cols
    ensures p < rows * cols
  {
    RowFits(i, rows, cols);
    i * cols + j
  }

  /** Row i ends within the image. */
  lemma RowFits(i: nat, rows: nat, cols: nat)
    requires i < rows
    ensures i * cols + cols <= rows * cols
  {
    var rest: nat := rows - i - 1;
    assert rows * cols == i * cols + cols + rest * cols;
  }

  /** Different cells have different positions. */
  lemma IdxDistinct(r1: nat, c1: nat, r2: nat, c2: nat, rows: nat, cols: nat)
    requires r1 < rows && c1 < cols && r2 < rows && c2 < cols
    requires r1 != r2 || c1 != c2
    ensures Idx(r1, c1, rows, cols) != Idx(r2, c2, rows, cols)
  {
    if r1 < r2 {
      RowFits(r1, r2, cols);
    } else if r2 < r1 {
      RowFits(r2, r1, cols);
    }
  }

  /** Writing cell (i, j) leaves the position of every other cell alone. */
  lemma CellsDistinct(i: nat, j: nat, rows: nat, cols: nat)
    requires i < rows && j < cols
    ensures forall r, c :: 0 <= r < rows && 0 <= c < cols && (r != i || c != j) ==>
      Idx(r, c, rows, cols) != Idx(i, j, rows, cols)
  {
    forall r, c | 0 <= r < rows && 0 <= c < cols && (r != i || c != j)
      ensures Idx(r, c, rows, cols) != Idx(i, j, rows, cols)
    {
      IdxDistinct(r, c, i, j, rows, cols);
    }
  }

  /** Row i of a row-major image. */
  function Row(s: seq<real>, rows: nat, cols: nat, i: nat): (row: seq<real>)
    requires |s| == rows * cols && i < rows
    ensures |row| == cols && forall j :: 0 <= j < cols ==> row[j] == s[Idx(i, j, rows, cols)]
  {
    RowFits(i, rows, cols);
    s[i * cols .. i * cols + cols]
  }

  /** The first offset of a window of f samples, −(f − 1)/2: the source
   *  divides a non-positive signed value, and C++ truncates toward zero. */
  function Lo(f: nat): int
    requires f >= 1
  {
    -((f - 1) / 2)
  }

  /** The last offset of a window of f samples. */
  function Hi(f: nat): int
  {
    f / 2
  }

  /** The window from Lo(f) to Hi(f) holds f offsets, and the centre. */
  lemma WindowLength(f: nat)
    requires f >= 1
    ensures Hi(f) - Lo(f) + 1 == f && Lo(f) <= 0 <= Hi(f)
  {
  }

  /** The mirrored index of x in a buffer of n: |x|, reflected at the far
   *  edge without repeating the edge cell when it lies past it. */
  function Mirror(x: int, n: nat): (c: int)
    requires n >= 1 && -(2 * n - 2) <= x <= 2 * n - 2
    ensures 0 <= c < n
    ensures 0 <= x < n ==> c == x
  {
    var c := if x < 0 then -x else x;
    if c >= n then 2 * n - c - 2 else c
  }

  /** Which samples the accumulation leaves out. The source tests the
   *  mirrored index against the cell's own (`ck != j`); the centre offset
   *  alone (`k != 0`) is what the comment "the cell already holds it"
   *  calls for. */
  datatype SkipRule = SkipMirroredCentre | SkipCentreOffset

  predicate Skips(rule: SkipRule, j: int, k: int, ck: int)
  {
    match rule
    case SkipMirroredCentre => ck == j
    case SkipCentreOffset => k == 0
  }

  /** Offsets lo up to (not including) hi around j stay within mirroring
   *  reach of a buffer of n. */
  predicate Reach(n: nat, j: nat, lo: int, hi: int)
  {
    n >= 1 && lo <= hi && -(2 * n - 2) <= j + lo && j + hi <= 2 * n - 1
  }

  /** The sample offset k contributes to cell j. */
  function Sample(buf: seq<real>, j: nat, k: int, rule: SkipRule): real
    requires |buf| >= 1 && -(2 * |buf| - 2) <= j + k <= 2 * |buf| - 2
  {
    var ck := Mirror(j + k, |buf|);
    if Skips(rule, j, k, ck) then 0.0 else buf[ck]
  }

  /** The samples of offsets lo up to hi, added in offset order. */
  function WindowSum(buf: seq<real>, j: nat, lo: int, hi: int, rule: SkipRule): real
    requires Reach(|buf|, j, lo, hi)
    decreases hi - lo
  {
    if hi == lo then 0.0 else WindowSum(buf, j, lo, hi - 1, rule) + Sample(buf, j, hi - 1, rule)
  }

  /** A filter of size f fits a buffer of n whenever f/2 < n: every
   *  mirrored index then lies in the buffer. */
  lemma WindowReach(n: nat, j: nat, f: nat)
    requires f >= 1 && j < n && f / 2 < n
    ensures Reach(n, j, Lo(f), Hi(f) + 1)
  {
  }

  /** What the source demands of the filter sizes: both at least one, and,
   *  on a nonempty image, half of each below the matching image side. */
  predicate FitsImage(rows: nat, cols: nat, fr: nat, fc: nat)
  {
    fr >= 1 && fc >= 1 && (rows > 0 && cols > 0 ==> fc / 2 < cols && fr / 2 < rows)
  }

  /** Cell j of a buffer after one pass: itself plus the window around it. */
  function Smoothed(buf: seq<real>, j: nat, f: nat, rule: SkipRule): real
    requires j < |buf| && f >= 1 && f / 2 < |buf|
  {
    WindowReach(|buf|, j, f);
    buf[j] + WindowSum(buf, j, Lo(f), Hi(f) + 1, rule)
  }

  /** Smoothed, unfolded. */
  lemma SmoothedSum(buf: seq<real>, j: nat, f: nat, rule: SkipRule)
    requires j < |buf| && f >= 1 && f / 2 < |buf|
    ensures Reach(|buf|, j, Lo(f), Hi(f) + 1)
    ensures Smoothed(buf, j, f, rule) == buf[j] + WindowSum(buf, j, Lo(f), Hi(f) + 1, rule)
  {
    WindowReach(|buf|, j, f);
  }

  /** Cell (i, j) after the horizontal pass. */
  function HCell(s: seq<real>, rows: nat, cols: nat, fc: nat, rule: SkipRule, i: nat, j: nat): real
    requires |s| == rows * cols && i < rows && j < cols && fc >= 1 && fc / 2 < cols
  {
    Smoothed(Row(s, rows, cols, i), j, fc, rule)
  }

  /** Column j after the horizontal pass. */
  function HColumn(s: seq<real>, rows: nat, cols: nat, fc: nat, rule: SkipRule, j: nat): (col: seq<real>)
    requires |s| == rows * cols && j < cols && fc >= 1 && fc / 2 < cols
    ensures |col| == rows && forall i :: 0 <= i < rows ==> col[i] == HCell(s, rows, cols, fc, rule, i, j)
  {
    seq(rows, i requires 0 <= i < rows => HCell(s, rows, cols, fc, rule, i, j))
  }

  /** The model's `*=` on its one component. */
  function Scale(x: real, f: real): real
  {
    x * f
  }

  /** The final scale 1/(filterRows·filterCols). */
  function Factor(fr: nat, fc: nat): real
    requires fr >= 1 && fc >= 1
  {
    1.0 / (fr as real * fc as real)
  }

  /** Cell (i, j) of the filtered image: the vertical window over the
   *  horizontally filtered column, scaled. */
  function Filtered(s: seq<real>, rows: nat, cols: nat, fr: nat, fc: nat, rule: SkipRule, i: nat, j: nat): real
    requires |s| == rows * cols && i < rows && j < cols && FitsImage(rows, cols, fr, fc)
  {
    Scale(Smoothed(HColumn(s, rows, cols, fc, rule, j), i, fr, rule), Factor(fr, fc))
  }

  /** The k loop of one cell: each sample of the window is added to the
   *  cell's model in turn, unless its mirrored index is the cell's own. */
  method AccumulateWindow(cell: real, buffer: seq<real>, j: nat, f: nat) returns (r: real)
    requires f >= 1 && j < |buffer| && f / 2 < |buffer|
    ensures r == cell + WindowSum(buffer, j, Lo(f), Hi(f) + 1, SkipMirroredCentre)
  {
    var n := |buffer|;
    r := cell;
    var k: int := -((f - 1) / 2);
    while k <= f / 2
      invariant Lo(f) <= k <= Hi(f) + 1
      invariant r == cell + WindowSum(buffer, j, Lo(f), k, SkipMirroredCentre)
    {
      ghost var before := r;
      var ck: int := if j + k < 0 then -(j + k) else j + k;
      if ck >= n {
        ck := 2 * n - ck - 2;
      }
      if ck != j {
        r := r + buffer[ck];
      }
      assert r == before + Sample(buffer, j, k, SkipMirroredCentre);
      k := k + 1;
    }
  }

  /** One row of the horizontal pass: the row is copied into the buffer,
   *  then every cell of the row accumulates its window from the copy. */
  method FilterRow(a: array<real>, rows: nat, cols: nat, fc: nat, i: nat)
    requires a.Length == rows * cols && i < rows && fc >= 1 && (cols > 0 ==> fc / 2 < cols)
    modifies a
    ensures forall j :: 0 <= j < cols ==>
      a[Idx(i, j, rows, cols)] == HCell(old(a[..]), rows, cols, fc, SkipMirroredCentre, i, j)
    ensures forall r, j :: 0 <= r < rows && r != i && 0 <= j < cols ==>
      a[Idx(r, j, rows, cols)] == old(a[..])[Idx(r, j, rows, cols)]
  {
    ghost var s := a[..];
    RowFits(i, rows, cols);
    var buffer := a[i * cols .. i * cols + cols];
    assert buffer == Row(s, rows, cols, i);
    var j := 0;
    while j < cols
      invariant j <= cols
      invariant forall c :: 0 <= c < j ==> a[Idx(i, c, rows, cols)] == Smoothed(buffer, c, fc, SkipMirroredCentre)
      invariant forall c :: j <= c < cols ==> a[Idx(i, c, rows, cols)] == buffer[c]
      invariant forall r, c :: 0 <= r < rows && r != i && 0 <= c < cols ==>
        a[Idx(r, c, rows, cols)] == s[Idx(r, c, rows, cols)]
    {
      var p := Idx(i, j, rows, cols);
      var v := AccumulateWindow(a[p], buffer, j, fc);
      SmoothedSum(buffer, j, fc, SkipMirroredCentre);
      CellsDistinct(i, j, rows, cols);
      a[p] := v;
      j := j + 1;
    }
  }

  /** The horizontal pass depends only on the row it filters. */
  lemma HCellSameRow(s1: seq<real>, s2: seq<real>, rows: nat, cols: nat, fc: nat, rule: SkipRule, i: nat)
    requires |s1| == rows * cols && |s2| == rows * cols && i < rows && fc >= 1 && (cols > 0 ==> fc / 2 < cols)
    requires forall c :: 0 <= c < cols ==> s1[Idx(i, c, rows, cols)] == s2[Idx(i, c, rows, cols)]
    ensures forall j :: 0 <= j < cols ==> HCell(s1, rows, cols, fc, rule, i, j) == HCell(s2, rows, cols, fc, rule, i, j)
  {
    assert Row(s1, rows, cols, i) == Row(s2, rows, cols, i);
  }

  /** The first pass: every row, top to bottom. */
  method HorizontalPass(a: array<real>, rows: nat, cols: nat, fc: nat)
    requires a.Length == rows * cols && fc >= 1 && (rows > 0 && cols > 0 ==> fc / 2 < cols)
    modifies a
    ensures forall i, j :: 0 <= i < rows && 0 <= j < cols ==>
      a[Idx(i, j, rows, cols)] == HCell(old(a[..]), rows, cols, fc, SkipMirroredCentre, i, j)
  {
    ghost var s := a[..];
    var i := 0;
    while i < rows
      invariant i <= rows
      invariant forall r, c :: 0 <= r < i && 0 <= c < cols ==>
        a[Idx(r, c, rows, cols)] == HCell(s, rows, cols, fc, SkipMirroredCentre, r, c)
      invariant forall r, c :: i <= r < rows && 0 <= c < cols ==> a[Idx(r, c, rows, cols)] == s[Idx(r, c, rows, cols)]
    {
      ghost var before := a[..];
      FilterRow(a, rows, cols, fc, i);
      HCellSameRow(before, s, rows, cols, fc, SkipMirroredCentre, i);
      i := i + 1;
    }
  }

  /** The buffer fill of the vertical pass: column j, top to bottom. */
  method CopyColumn(a: array<real>, rows: nat, cols: nat, j: nat) returns (buffer: seq<real>)
    requires a.Length == rows * cols && j < cols
    ensures |buffer| == rows && forall r :: 0 <= r < rows ==> buffer[r] == a[Idx(r, j, rows, cols)]
  {
    buffer := [];
    var r := 0;
    while r < rows
      invariant r <= rows && |buffer| == r
      invariant forall t :: 0 <= t < r ==> buffer[t] == a[Idx(t, j, rows, cols)]
    {
      buffer := buffer + [a[Idx(r, j, rows, cols)]];
      r := r + 1;
    }
  }

  /** The update loop of the vertical pass: every cell of column j
   *  accumulates its window from the buffer and is scaled by the factor. */
  method SmoothColumn(a: array<real>, rows: nat, cols: nat, fr: nat, j: nat, factor: real, buffer: seq<real>)
    requires a.Length == rows * cols && j < cols && |buffer| == rows && fr >= 1 && (rows > 0 ==> fr / 2 < rows)
    requires forall r :: 0 <= r < rows ==> a[Idx(r, j, rows, cols)] == buffer[r]
    modifies a
    ensures forall r :: 0 <= r < rows ==> a[Idx(r, j, rows, cols)] == Scale(Smoothed(buffer, r, fr, SkipMirroredCentre), factor)
    ensures forall r, c :: 0 <= r < rows && 0 <= c < cols && c != j ==>
      a[Idx(r, c, rows, cols)] == old(a[..])[Idx(r, c, rows, cols)]
  {
    ghost var a0 := a[..];
    var i := 0;
    while i < rows
      invariant i <= rows
      invariant forall t :: 0 <= t < i ==> a[Idx(t, j, rows, cols)] == Scale(Smoothed(buffer, t, fr, SkipMirroredCentre), factor)
      invariant forall t :: i <= t < rows ==> a[Idx(t, j, rows, cols)] == buffer[t]
      invariant forall t, c :: 0 <= t < rows && 0 <= c < cols && c != j ==> a[Idx(t, c, rows, cols)] == a0[Idx(t, c, rows, cols)]
    {
      var p := Idx(i, j, rows, cols);
      var v := AccumulateWindow(a[p], buffer, i, fr);
      SmoothedSum(buffer, i, fr, SkipMirroredCentre);
      CellsDistinct(i, j, rows, cols);
      a[p] := Scale(v, factor);
      i := i + 1;
    }
  }

  /** One column of the vertical pass: the horizontally filtered column is
   *  copied into the buffer, then smoothed and scaled. */
  method FilterColumn(a: array<real>, rows: nat, cols: nat, fr: nat, fc: nat, j: nat, factor: real, ghost s: seq<real>)
    requires a.Length == rows * cols && |s| == rows * cols && j < cols && FitsImage(rows, cols, fr, fc)
    requires factor == Factor(fr, fc)
    requires forall r :: 0 <= r < rows ==> a[Idx(r, j, rows, cols)] == HCell(s, rows, cols, fc, SkipMirroredCentre, r, j)
    modifies a
    ensures forall r :: 0 <= r < rows ==> a[Idx(r, j, rows, cols)] == Filtered(s, rows, cols, fr, fc, SkipMirroredCentre, r, j)
    ensures forall r, c :: 0 <= r < rows && 0 <= c < cols && c != j ==>
      a[Idx(r, c, rows, cols)] == old(a[..])[Idx(r, c, rows, cols)]
  {
    var buffer := CopyColumn(a, rows, cols, j);
    if rows > 0 {
      assert buffer == HColumn(s, rows, cols, fc, SkipMirroredCentre, j);
    }
    SmoothColumn(a, rows, cols, fr, j, factor, buffer);
  }

  /** The second pass: every column, left to right. */
  method VerticalPass(a: array<real>, rows: nat, cols: nat, fr: nat, fc: nat, factor: real, ghost s: seq<real>)
    requires a.Length == rows * cols && |s| == rows * cols && FitsImage(rows, cols, fr, fc)
    requires factor == Factor(fr, fc)
    requires forall i, j :: 0 <= i < rows && 0 <= j < cols ==>
      a[Idx(i, j, rows, cols)] == HCell(s, rows, cols, fc, SkipMirroredCentre, i, j)
    modifies a
    ensures forall i, j :: 0 <= i < rows && 0 <= j < cols ==>
      a[Idx(i, j, rows, cols)] == Filtered(s, rows, cols, fr, fc, SkipMirroredCentre, i, j)
  {
    var j := 0;
    while j < cols
      invariant j <= cols
      invariant forall r, c :: 0 <= r < rows && 0 <= c < j ==>
        a[Idx(r, c, rows, cols)] == Filtered(s, rows, cols, fr, fc, SkipMirroredCentre, r, c)
      invariant forall r, c :: 0 <= r < rows && j <= c < cols ==>
        a[Idx(r, c, rows, cols)] == HCell(s, rows, cols, fc, SkipMirroredCentre, r, c)
    {
      FilterColumn(a, rows, cols, fr, fc, j, factor, s);
      j := j + 1;
    }
  }

  /** boxCarFilter2DFullInterp: the horizontal pass over every row, then
   *  the vertical pass over every column, scaling each cell by
   *  1/(filterRows·filterCols). Every cell ends as Filtered of the
   *  original image, with the skip test as written. */
  method BoxCarFilter2D(a: array<real>, rows: nat, cols: nat, fr: nat, fc: nat)
    requires a.Length == rows * cols && FitsImage(rows, cols, fr, fc)
    modifies a
    ensures forall i, j :: 0 <= i < rows && 0 <= j < cols ==>
      a[Idx(i, j, rows, cols)] == Filtered(old(a[..]), rows, cols, fr, fc, SkipMirroredCentre, i, j)
  {
    ghost var s := a[..];
    HorizontalPass(a, rows, cols, fc);
    var factor := 1.0 / (fr as real * fc as real);
    VerticalPass(a, rows, cols, fr, fc, factor, s);
  }

  /** The number of offsets from lo up to hi other than the centre. */
  function OffCentre(lo: int, hi: int): nat
    requires lo <= hi
  {
    (hi - lo) - (if lo <= 0 < hi then 1 else 0)
  }

  /** n copies of c, added one at a time. */
  function Copies(n: nat, c: real): real
  {
    if n == 0 then 0.0 else Copies(n - 1, c) + c
  }

  /** n copies of c add up to n·c. */
  lemma {:induction false} CopiesTimes(n: nat, c: real)
    ensures Copies(n, c) == n as real * c
  {
    if n > 0 {
      CopiesTimes(n - 1, c);
      assert (n - 1) as real * c + c == n as real * c;
    }
  }

  /** With the centre offset skipped, a window over a constant buffer adds
   *  one copy of the constant per offset other than the centre. */
  lemma {:induction false} WindowSumConstant(buf: seq<real>, j: nat, lo: int, hi: int, c: real)
    requires Reach(|buf|, j, lo, hi) && forall t :: 0 <= t < |buf| ==> buf[t] == c
    ensures WindowSum(buf, j, lo, hi, SkipCentreOffset) == Copies(OffCentre(lo, hi), c)
    decreases hi - lo
  {
    if hi != lo {
      WindowSumConstant(buf, j, lo, hi - 1, c);
      if hi - 1 != 0 {
        assert OffCentre(lo, hi) == OffCentre(lo, hi - 1) + 1;
      }
    }
  }

  /** With the centre offset skipped, one pass over a constant buffer
   *  gives f copies of the constant. */
  lemma SmoothedConstant(buf: seq<real>, j: nat, f: nat, c: real)
    requires j < |buf| && f >= 1 && f / 2 < |buf| && forall t :: 0 <= t < |buf| ==> buf[t] == c
    ensures Smoothed(buf, j, f, SkipCentreOffset) == f as real * c
  {
    WindowReach(|buf|, j, f);
    WindowSumConstant(buf, j, Lo(f), Hi(f) + 1, c);
    WindowLength(f);
    assert OffCentre(Lo(f), Hi(f) + 1) == f - 1;
    CopiesTimes(f, c);
  }

  /** fr·fc·c scaled by the factor 1/(fr·fc) is c. */
  lemma ScaleBack(fr: nat, fc: nat, c: real, h: real, x: real)
    requires fr >= 1 && fc >= 1 && h == fc as real * c && x == fr as real * h
    ensures Scale(x, Factor(fr, fc)) == c
  {
    var n := fr as real * fc as real;
    assert x == n * c;
    assert (n * c) * (1.0 / n) == c * (n * (1.0 / n));
  }

  /** With the centre offset skipped, the filter preserves a constant
   *  image: every cell sums fr·fc copies of the constant and is scaled by
   *  1/(fr·fc). */
  lemma ConstantImagePreserved(s: seq<real>, rows: nat, cols: nat, fr: nat, fc: nat, c: real, i: nat, j: nat)
    requires |s| == rows * cols && i < rows && j < cols && FitsImage(rows, cols, fr, fc)
    requires forall p :: 0 <= p < |s| ==> s[p] == c
    ensures Filtered(s, rows, cols, fr, fc, SkipCentreOffset, i, j) == c
  {
    var hc := fc as real * c;
    forall r | 0 <= r < rows
      ensures HCell(s, rows, cols, fc, SkipCentreOffset, r, j) == hc
    {
      SmoothedConstant(Row(s, rows, cols, r), j, fc, c);
    }
    var col := HColumn(s, rows, cols, fc, SkipCentreOffset, j);
    SmoothedConstant(col, i, fr, hc);
    ScaleBack(fr, fc, c, hc, Smoothed(col, i, fr, SkipCentreOffset));
  }

  /** Offsets −1, 0 and 1 never mirror onto the cell itself, so both skip
   *  tests agree on them. */
  lemma {:induction false} RulesAgreeNearCentre(buf: seq<real>, j: nat, lo: int, hi: int)
    requires Reach(|buf|, j, lo, hi) && j < |buf| && -1 <= lo && hi <= 2
    ensures WindowSum(buf, j, lo, hi, SkipMirroredCentre) == WindowSum(buf, j, lo, hi, SkipCentreOffset)
    decreases hi - lo
  {
    if hi != lo {
      RulesAgreeNearCentre(buf, j, lo, hi - 1);
    }
  }

  /** One pass of at most 3 samples is the same under both skip tests. */
  lemma SmoothedRulesAgree(buf: seq<real>, j: nat, f: nat)
    requires j < |buf| && 1 <= f <= 3 && f / 2 < |buf|
    ensures Smoothed(buf, j, f, SkipMirroredCentre) == Smoothed(buf, j, f, SkipCentreOffset)
  {
    WindowReach(|buf|, j, f);
    RulesAgreeNearCentre(buf, j, Lo(f), Hi(f) + 1);
  }

  /** For filters of at most 3 × 3 the skip test as written is the
   *  intended one. */
  lemma SmallFiltersAgree(s: seq<real>, rows: nat, cols: nat, fr: nat, fc: nat, i: nat, j: nat)
    requires |s| == rows * cols && i < rows && j < cols && FitsImage(rows, cols, fr, fc)
    requires fr <= 3 && fc <= 3
    ensures Filtered(s, rows, cols, fr, fc, SkipMirroredCentre, i, j) == Filtered(s, rows, cols, fr, fc, SkipCentreOffset, i, j)
  {
    forall r | 0 <= r < rows
      ensures HCell(s, rows, cols, fc, SkipMirroredCentre, r, j) == HCell(s, rows, cols, fc, SkipCentreOffset, r, j)
    {
      SmoothedRulesAgree(Row(s, rows, cols, r), j, fc);
    }
    var col := HColumn(s, rows, cols, fc, SkipMirroredCentre, j);
    assert col == HColumn(s, rows, cols, fc, SkipCentreOffset, j);
    SmoothedRulesAgree(col, i, fr);
  }

  /** As written, a 1 × 5 filter over a constant 1 × 3 image leaves the
   *  middle cell at 3/5 of the constant: the offsets −2 and 2 mirror onto
   *  the middle cell and are skipped, while the factor still divides by 5. */
  lemma AsWrittenLosesMirroredSamples(c: real)
    ensures Filtered([c, c, c], 1, 3, 1, 5, SkipMirroredCentre, 0, 1) * 5.0 == 3.0 * c
    ensures c != 0.0 ==> Filtered([c, c, c], 1, 3, 1, 5, SkipMirroredCentre, 0, 1) != c
  {
    var s := [c, c, c];
    var row := Row(s, 1, 3, 0);
    assert row == s;
    assert WindowSum(row, 1, -2, 3, SkipMirroredCentre) == 2.0 * c;
    assert HCell(s, 1, 3, 5, SkipMirroredCentre, 0, 1) == 3.0 * c;
    var col := HColumn(s, 1, 3, 5, SkipMirroredCentre, 1);
    assert WindowSum(col, 0, 0, 1, SkipMirroredCentre) == 0.0;
  }
}
