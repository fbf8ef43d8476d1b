/** generateWRAG_3D_Connectivity10 of DenseWRAGGenerator: a volume of
 *  `S` slices of `R` rows and `C` columns (dimension vector [S, R, C]),
 *  each cell joined to its east, south-west, south and south-east
 *  neighbours in its slice and to the cell behind it in the next slice.
 *
 *  The source writes this out as four loops per slice (interior columns,
 *  left column, right column, bottom row), with the link to the next slice
 *  in every loop but the last slice's. The functions below build the
 *  links those loops create, in their order; the generator then creates
 *  them one after the other. */
module Connectivity10 {
  import opened Wrappers
  import opened Dissimilarity
  import opened BPTNode
  import opened GridIndex
  import opened CheckingPolicy
  import opened DenseWRAGGenerator

  /** The index of cell (k, i, j): slice k, row i, column j. */
  function At(R: nat, C: nat, k: nat, i: nat, j: nat): nat
  {
    k * (R * C) + i * C + j
  }

  /** The number of cells of the volume. */
  function Volume(S: nat, R: nat, C: nat): nat
  {
    S * (R * C)
  }

  /** Every cell of the volume has an index below S·R·C. */
  lemma AtBound(S: nat, R: nat, C: nat, k: nat, i: nat, j: nat)
    requires k < S && i < R && j < C
    ensures At(R, C, k, i, j) < Volume(S, R, C)
  {
    assert i * C + j < (i + 1) * C;
    assert (i + 1) * C <= R * C;
    assert (k + 1) * (R * C) <= Volume(S, R, C);
  }

  /** Moving to a neighbour adds a fixed amount to the index. */
  lemma AtSteps(R: nat, C: nat, k: nat, i: nat, j: nat)
    ensures At(R, C, k, i, j) + 1 == At(R, C, k, i, j + 1)
    ensures At(R, C, k, i, j) + C == At(R, C, k, i + 1, j)
    ensures At(R, C, k, i, j) + C + 1 == At(R, C, k, i + 1, j + 1)
    ensures j > 0 ==> At(R, C, k, i, j) + C - 1 == At(R, C, k, i + 1, j - 1)
    ensures At(R, C, k, i, j) + R * C == At(R, C, k + 1, i, j)
  {
    assert (i + 1) * C == i * C + C;
    assert (k + 1) * (R * C) == k * (R * C) + R * C;
  }

  /** The links for one in-slice neighbour: a symmetric measure creates
   *  one dissimilarity put in both sets; an asymmetric one creates one in
   *  each direction, each put in its source's set. */
  function Pair(a: nat, b: nat, symmetric: bool): (r: seq<Link>)
    ensures symmetric ==> r == [Link(a, b, true)]
    ensures !symmetric ==> r == [Link(a, b, false), Link(b, a, false)]
  {
    if symmetric then [Link(a, b, true)] else [Link(a, b, false), Link(b, a, false)]
  }

  /** The link to the cell behind in the next slice: one dissimilarity in
   *  both sets whatever the measure; none in the last slice. */
  function Behind(R: nat, C: nat, index: nat, future: bool): (r: seq<Link>)
    ensures future ==> r == [Link(index, index + R * C, true)]
    ensures !future ==> r == []
  {
    if future then [Link(index, index + R * C, true)] else []
  }

  /** Ends of a link list all lie below `n`, for the concatenations the
   *  loops build. */
  lemma FitsConcat(a: seq<Link>, b: seq<Link>, n: nat)
    requires LinksFit(a, n) && LinksFit(b, n)
    ensures LinksFit(a + b, n)
  {
    forall t | 0 <= t < |a + b|
      ensures (a + b)[t].i < n && (a + b)[t].j < n
    {
      if t < |a| {
        assert (a + b)[t] == a[t];
      } else {
        assert (a + b)[t] == b[t - |a|];
      }
    }
  }

  /** The links from cell `index` to each neighbour of `nbs` in turn. */
  function Pairs(index: nat, nbs: seq<nat>, symmetric: bool): seq<Link>
  {
    if |nbs| == 0 then [] else Pair(index, nbs[0], symmetric) + Pairs(index, nbs[1..], symmetric)
  }

  /** The links to neighbours inside the volume stay inside it. */
  lemma {:induction false} PairsFit(index: nat, nbs: seq<nat>, symmetric: bool, n: nat)
    requires index < n && forall t :: 0 <= t < |nbs| ==> nbs[t] < n
    ensures LinksFit(Pairs(index, nbs, symmetric), n)
    decreases |nbs|
  {
    if |nbs| > 0 {
      PairsFit(index, nbs[1..], symmetric, n);
      FitsConcat(Pair(index, nbs[0], symmetric), Pairs(index, nbs[1..], symmetric), n);
    }
  }

  /** A cell's links: its in-slice neighbours, then the one behind. */
  function CellLinks3(R: nat, C: nat, index: nat, nbs: seq<nat>, symmetric: bool, future: bool): seq<Link>
  {
    Pairs(index, nbs, symmetric) + Behind(R, C, index, future)
  }

  lemma CellLinks3Fit(S: nat, R: nat, C: nat, index: nat, nbs: seq<nat>, symmetric: bool, future: bool)
    requires index < Volume(S, R, C) && forall t :: 0 <= t < |nbs| ==> nbs[t] < Volume(S, R, C)
    requires future ==> index + R * C < Volume(S, R, C)
    ensures LinksFit(CellLinks3(R, C, index, nbs, symmetric, future), Volume(S, R, C))
  {
    PairsFit(index, nbs, symmetric, Volume(S, R, C));
    FitsConcat(Pairs(index, nbs, symmetric), Behind(R, C, index, future), Volume(S, R, C));
  }

  /** Slice `k` has a next slice exactly when `future` is set. */
  predicate Slice(S: nat, R: nat, C: nat, k: nat, future: bool)
  {
    k < S && R >= 1 && C >= 2 && (future ==> k + 1 < S)
  }

  /** One pass of the main loop: an interior column j of a row i above the
   *  last: east, south-west, south, south-east, then behind. */
  function MainCell(S: nat, R: nat, C: nat, k: nat, i: nat, j: nat, symmetric: bool, future: bool): (r: seq<Link>)
    requires Slice(S, R, C, k, future) && i + 1 < R && 1 <= j && j + 1 < C
    ensures LinksFit(r, Volume(S, R, C))
  {
    var index := At(R, C, k, i, j);
    var nbs: seq<nat> := [index + 1, index + C - 1, index + C, index + C + 1];
    assert LinksFit(CellLinks3(R, C, index, nbs, symmetric, future), Volume(S, R, C)) by {
      AtSteps(R, C, k, i, j);
      AtBound(S, R, C, k, i, j);
      AtBound(S, R, C, k, i, j + 1);
      AtBound(S, R, C, k, i + 1, j - 1);
      AtBound(S, R, C, k, i + 1, j);
      AtBound(S, R, C, k, i + 1, j + 1);
      if future { AtBound(S, R, C, k + 1, i, j); }
      CellLinks3Fit(S, R, C, index, nbs, symmetric, future);
    }
    CellLinks3(R, C, index, nbs, symmetric, future)
  }

  /** The main loop over columns 1 .. m of row i. */
  function MainRow(S: nat, R: nat, C: nat, k: nat, i: nat, m: nat, symmetric: bool, future: bool): (r: seq<Link>)
    requires Slice(S, R, C, k, future) && i + 1 < R && m + 2 <= C
    ensures LinksFit(r, Volume(S, R, C))
  {
    if m == 0 then []
    else
      var prev := MainRow(S, R, C, k, i, m - 1, symmetric, future);
      var cell := MainCell(S, R, C, k, i, m, symmetric, future);
      FitsConcat(prev, cell, Volume(S, R, C));
      prev + cell
  }

  /** The main loop over rows 0 .. n-1, each over columns 1 .. C-2. */
  function MainRows(S: nat, R: nat, C: nat, k: nat, n: nat, symmetric: bool, future: bool): (r: seq<Link>)
    requires Slice(S, R, C, k, future) && n + 1 <= R
    ensures LinksFit(r, Volume(S, R, C))
  {
    if n == 0 then []
    else
      var prev := MainRows(S, R, C, k, n - 1, symmetric, future);
      var row := MainRow(S, R, C, k, n - 1, C - 2, symmetric, future);
      FitsConcat(prev, row, Volume(S, R, C));
      prev + row
  }

  /** One pass of the left-line loop: column 0 of a row i above the last:
   *  east, south, south-east, then behind. */
  function LeftCell(S: nat, R: nat, C: nat, k: nat, i: nat, symmetric: bool, future: bool): (r: seq<Link>)
    requires Slice(S, R, C, k, future) && i + 1 < R
    ensures LinksFit(r, Volume(S, R, C))
  {
    var index := At(R, C, k, i, 0);
    var nbs: seq<nat> := [index + 1, index + C, index + C + 1];
    assert LinksFit(CellLinks3(R, C, index, nbs, symmetric, future), Volume(S, R, C)) by {
      AtSteps(R, C, k, i, 0);
      AtBound(S, R, C, k, i, 0);
      AtBound(S, R, C, k, i, 1);
      AtBound(S, R, C, k, i + 1, 0);
      AtBound(S, R, C, k, i + 1, 1);
      if future { AtBound(S, R, C, k + 1, i, 0); }
      CellLinks3Fit(S, R, C, index, nbs, symmetric, future);
    }
    CellLinks3(R, C, index, nbs, symmetric, future)
  }

  /** The left-line loop over rows 0 .. n-1. */
  function LeftLine(S: nat, R: nat, C: nat, k: nat, n: nat, symmetric: bool, future: bool): (r: seq<Link>)
    requires Slice(S, R, C, k, future) && n + 1 <= R
    ensures LinksFit(r, Volume(S, R, C))
  {
    if n == 0 then []
    else
      var prev := LeftLine(S, R, C, k, n - 1, symmetric, future);
      var cell := LeftCell(S, R, C, k, n - 1, symmetric, future);
      FitsConcat(prev, cell, Volume(S, R, C));
      prev + cell
  }

  /** One pass of the right-line loop: column C-1 of a row i above the
   *  last: south-west, south, then behind. */
  function RightCell(S: nat, R: nat, C: nat, k: nat, i: nat, symmetric: bool, future: bool): (r: seq<Link>)
    requires Slice(S, R, C, k, future) && i + 1 < R
    ensures LinksFit(r, Volume(S, R, C))
  {
    var index := At(R, C, k, i, C - 1);
    var nbs: seq<nat> := [index + C - 1, index + C];
    assert LinksFit(CellLinks3(R, C, index, nbs, symmetric, future), Volume(S, R, C)) by {
      AtSteps(R, C, k, i, C - 1);
      AtBound(S, R, C, k, i, C - 1);
      AtBound(S, R, C, k, i + 1, C - 2);
      AtBound(S, R, C, k, i + 1, C - 1);
      if future { AtBound(S, R, C, k + 1, i, C - 1); }
      CellLinks3Fit(S, R, C, index, nbs, symmetric, future);
    }
    CellLinks3(R, C, index, nbs, symmetric, future)
  }

  /** The right-line loop over rows 0 .. n-1. */
  function RightLine(S: nat, R: nat, C: nat, k: nat, n: nat, symmetric: bool, future: bool): (r: seq<Link>)
    requires Slice(S, R, C, k, future) && n + 1 <= R
    ensures LinksFit(r, Volume(S, R, C))
  {
    if n == 0 then []
    else
      var prev := RightLine(S, R, C, k, n - 1, symmetric, future);
      var cell := RightCell(S, R, C, k, n - 1, symmetric, future);
      FitsConcat(prev, cell, Volume(S, R, C));
      prev + cell
  }

  /** One pass of the bottom-line loop: an interior column j of the last
   *  row: east, then behind. */
  function BottomCell(S: nat, R: nat, C: nat, k: nat, j: nat, symmetric: bool, future: bool): (r: seq<Link>)
    requires Slice(S, R, C, k, future) && 1 <= j && j + 1 < C
    ensures LinksFit(r, Volume(S, R, C))
  {
    var index := At(R, C, k, R - 1, j);
    var nbs: seq<nat> := [index + 1];
    assert LinksFit(CellLinks3(R, C, index, nbs, symmetric, future), Volume(S, R, C)) by {
      AtSteps(R, C, k, R - 1, j);
      AtBound(S, R, C, k, R - 1, j);
      AtBound(S, R, C, k, R - 1, j + 1);
      if future { AtBound(S, R, C, k + 1, R - 1, j); }
      CellLinks3Fit(S, R, C, index, nbs, symmetric, future);
    }
    CellLinks3(R, C, index, nbs, symmetric, future)
  }

  /** The bottom-line loop over columns 1 .. m. */
  function BottomLine(S: nat, R: nat, C: nat, k: nat, m: nat, symmetric: bool, future: bool): (r: seq<Link>)
    requires Slice(S, R, C, k, future) && m + 2 <= C
    ensures LinksFit(r, Volume(S, R, C))
  {
    if m == 0 then []
    else
      var prev := BottomLine(S, R, C, k, m - 1, symmetric, future);
      var cell := BottomCell(S, R, C, k, m, symmetric, future);
      FitsConcat(prev, cell, Volume(S, R, C));
      prev + cell
  }

  /** The four loops of slice k in order: main, left, right, bottom. */
  function SliceLinks(S: nat, R: nat, C: nat, k: nat, symmetric: bool, future: bool): (r: seq<Link>)
    requires Slice(S, R, C, k, future)
    ensures LinksFit(r, Volume(S, R, C))
  {
    var n := Volume(S, R, C);
    var main := MainRows(S, R, C, k, R - 1, symmetric, future);
    var left := LeftLine(S, R, C, k, R - 1, symmetric, future);
    var right := RightLine(S, R, C, k, R - 1, symmetric, future);
    var bottom := BottomLine(S, R, C, k, C - 2, symmetric, future);
    FitsConcat(main, left, n);
    FitsConcat(main + left, right, n);
    FitsConcat(main + left + right, bottom, n);
    main + left + right + bottom
  }

  /** Slices 0 .. m-1, each with its links to the next slice. */
  function FrontSlices(S: nat, R: nat, C: nat, m: nat, symmetric: bool): (r: seq<Link>)
    requires m < S && R >= 1 && C >= 2
    ensures LinksFit(r, Volume(S, R, C))
  {
    if m == 0 then []
    else
      var prev := FrontSlices(S, R, C, m - 1, symmetric);
      var slice := SliceLinks(S, R, C, m - 1, symmetric, true);
      FitsConcat(prev, slice, Volume(S, R, C));
      prev + slice
  }

  /** generateWRAG_3D_Connectivity10 as written: slices 0 .. S-2 with the
   *  links behind them, then the last slice without. */
  function Links3D10(S: nat, R: nat, C: nat, symmetric: bool): (r: seq<Link>)
    requires S >= 1 && R >= 1 && C >= 2
    ensures LinksFit(r, Volume(S, R, C))
  {
    var front := FrontSlices(S, R, C, S - 1, symmetric);
    var last := SliceLinks(S, R, C, S - 1, symmetric, false);
    FitsConcat(front, last, Volume(S, R, C));
    front + last
  }

  /** The ten offsets of the 3D 10-connectivity, in the order of the
   *  grid: past, north-west, north, north-east, west, east, south-west,
   *  south, south-east, future. */
  function Stencil10(): (r: seq<seq<int>>)
    ensures |r| == 10 && forall k :: 0 <= k < |r| ==> |r[k]| == 3
  {
    [[-1, 0, 0], [0, -1, -1], [0, -1, 0], [0, -1, 1], [0, 0, -1],
     [0, 0, 1], [0, 1, -1], [0, 1, 0], [0, 1, 1], [1, 0, 0]]
  }

  /** The linear index of an offset in a volume of R rows and C columns. */
  lemma Linear3(S: nat, R: nat, C: nat, a: int, b: int, c: int)
    ensures Linear([S, R, C], [a, b, c]) == a * (R * C) + b * C + c
  {
    assert [S, R, C][1..] == [R, C] && [R, C][1..] == [C] && [C][1..] == [];
    assert [a, b, c][1..] == [b, c] && [b, c][1..] == [c] && [c][1..] == [];
    assert Product([C]) == C;
    assert Product([R, C]) == R * C;
    assert Linear([C], [c]) == c;
    assert Linear([R, C], [b, c]) == b * C + c;
  }

  /** The volume is the number of cells of the grid [S, R, C]. */
  lemma Product3(S: nat, R: nat, C: nat)
    ensures Product([S, R, C]) == Volume(S, R, C)
  {
    assert [S, R, C][1..] == [R, C] && [R, C][1..] == [C] && [C][1..] == [];
    assert Product([C]) == C;
  }

  /** Cell (k, i, j) has coordinates [k, i, j] in the grid [S, R, C]. */
  lemma PosVector3(S: nat, R: nat, C: nat, k: nat, i: nat, j: nat)
    requires k < S && i < R && j < C
    ensures At(R, C, k, i, j) < Product([S, R, C])
    ensures PosVector([S, R, C], At(R, C, k, i, j)) == [k, i, j]
  {
    Product3(S, R, C);
    AtBound(S, R, C, k, i, j);
    Linear3(S, R, C, k, i, j);
    assert InBounds([S, R, C], [k, i, j]);
    PosVectorOfLinear([S, R, C], [k, i, j]);
  }

  /** The sign of each offset's linear index when a slice has at least
   *  one row and two columns: the first five point back, the last five
   *  forward. */
  lemma Stencil10Signs(S: nat, R: nat, C: nat)
    requires R >= 1 && C >= 2
    ensures forall t :: 0 <= t < 5 ==> Linear([S, R, C], Stencil10()[t]) <= 0
    ensures forall t :: 5 <= t < 10 ==> Linear([S, R, C], Stencil10()[t]) > 0
  {
    var s := Stencil10();
    assert R * C >= C by {
      assert (R - 1) * C >= 0;
    }
    forall t | 0 <= t < 10
      ensures t < 5 ==> Linear([S, R, C], s[t]) <= 0
      ensures t >= 5 ==> Linear([S, R, C], s[t]) > 0
    {
      var a, b, c := s[t][0], s[t][1], s[t][2];
      assert s[t] == [a, b, c];
      Linear3(S, R, C, a, b, c);
      assert a * (R * C) == if a == 1 then (R * C) as int else if a == -1 then -(R * C) else 0;
      assert b * C == if b == 1 then C as int else if b == -1 then -(C as int) else 0;
    }
  }

  /** The offsets the source's loops visit: east, south-west, south,
   *  south-east and future. */
  function Forward10(): (r: seq<seq<int>>)
    ensures |r| == 5 && forall k :: 0 <= k < |r| ==> |r[k]| == 3
  {
    [[0, 0, 1], [0, 1, -1], [0, 1, 0], [0, 1, 1], [1, 0, 0]]
  }

  /** For a symmetric measure on slices of at least one row and two
   *  columns, the 10-connectivity keeps the east, south-west, south,
   *  south-east and future offsets: the ones the source's loops visit. */
  lemma Stencil10Forward(S: nat, R: nat, C: nat)
    requires R >= 1 && C >= 2
    ensures OffsetsFit([S, R, C], Stencil10())
    ensures Forward([S, R, C], Stencil10()) == Forward10()
  {
    var dims := [S, R, C];
    var s := Stencil10();
    Stencil10Signs(S, R, C);
    assert s == s[..5] + s[5..];
    ForwardNone(dims, s[..5]);
    ForwardAll(dims, s[5..]);
    ForwardConcat(dims, s[..5], s[5..]);
  }

  /** Distinct cells have distinct indices. */
  lemma AtInjective(S: nat, R: nat, C: nat, k: nat, i: nat, j: nat, k2: nat, i2: nat, j2: nat)
    requires k < S && i < R && j < C && k2 < S && i2 < R && j2 < C
    requires At(R, C, k, i, j) == At(R, C, k2, i2, j2)
    ensures k == k2 && i == i2 && j == j2
  {
    PosVector3(S, R, C, k, i, j);
    PosVector3(S, R, C, k2, i2, j2);
  }

  /** Every link points forward and none starts at cell `c`. */
  predicate Clear(links: seq<Link>, c: nat)
  {
    forall t :: 0 <= t < |links| ==> links[t].i < links[t].j && links[t].i != c
  }

  lemma ClearConcat(a: seq<Link>, b: seq<Link>, c: nat)
    requires Clear(a, c) && Clear(b, c)
    ensures Clear(a + b, c)
  {
    forall t | 0 <= t < |a + b|
      ensures (a + b)[t].i < (a + b)[t].j && (a + b)[t].i != c
    {
      if t < |a| {
        assert (a + b)[t] == a[t];
      } else {
        assert (a + b)[t] == b[t - |a|];
      }
    }
  }

  lemma {:induction false} PairsClear(index: nat, nbs: seq<nat>, c: nat)
    requires index != c && forall t :: 0 <= t < |nbs| ==> index < nbs[t]
    ensures Clear(Pairs(index, nbs, true), c)
    decreases |nbs|
  {
    if |nbs| > 0 {
      PairsClear(index, nbs[1..], c);
      ClearConcat(Pair(index, nbs[0], true), Pairs(index, nbs[1..], true), c);
    }
  }

  /** Cell (k2, R-1, jc) is a bottom corner of a slice. */
  predicate Corner(S: nat, R: nat, C: nat, k2: nat, jc: nat)
  {
    R >= 1 && C >= 2 && k2 < S && (jc == 0 || jc == C - 1)
  }

  /** Cell c is a bottom corner of some slice. */
  ghost predicate CornerCell(S: nat, R: nat, C: nat, c: nat)
  {
    exists k2, jc :: Corner(S, R, C, k2, jc) && c == At(R, C, k2, R - 1, jc)
  }

  /** A cell the loops visit, (k, i, j) with i < R-1 or an interior
   *  column, is not a bottom corner, and its forward links stay clear of
   *  the corner. */
  lemma CellClear(S: nat, R: nat, C: nat, k: nat, i: nat, j: nat, nbs: seq<nat>, future: bool, c: nat)
    requires CornerCell(S, R, C, c) && k < S && i < R && j < C && (i + 1 < R || 1 <= j < C - 1)
    requires forall t :: 0 <= t < |nbs| ==> At(R, C, k, i, j) < nbs[t]
    ensures Clear(CellLinks3(R, C, At(R, C, k, i, j), nbs, true, future), c)
  {
    var index := At(R, C, k, i, j);
    var k2, jc :| Corner(S, R, C, k2, jc) && c == At(R, C, k2, R - 1, jc);
    if index == c {
      AtInjective(S, R, C, k, i, j, k2, R - 1, jc);
    }
    PairsClear(index, nbs, c);
    assert R * C > 0;
    ClearConcat(Pairs(index, nbs, true), Behind(R, C, index, future), c);
  }

  lemma {:induction false} MainRowClear(S: nat, R: nat, C: nat, k: nat, i: nat, m: nat, future: bool, c: nat)
    requires Slice(S, R, C, k, future) && i + 1 < R && m + 2 <= C && CornerCell(S, R, C, c)
    ensures Clear(MainRow(S, R, C, k, i, m, true, future), c)
    decreases m
  {
    if m > 0 {
      var index := At(R, C, k, i, m);
      MainRowClear(S, R, C, k, i, m - 1, future, c);
      CellClear(S, R, C, k, i, m, [index + 1, index + C - 1, index + C, index + C + 1], future, c);
      ClearConcat(MainRow(S, R, C, k, i, m - 1, true, future), MainCell(S, R, C, k, i, m, true, future), c);
    }
  }

  lemma {:induction false} MainRowsClear(S: nat, R: nat, C: nat, k: nat, n: nat, future: bool, c: nat)
    requires Slice(S, R, C, k, future) && n + 1 <= R && CornerCell(S, R, C, c)
    ensures Clear(MainRows(S, R, C, k, n, true, future), c)
    decreases n
  {
    if n > 0 {
      MainRowsClear(S, R, C, k, n - 1, future, c);
      MainRowClear(S, R, C, k, n - 1, C - 2, future, c);
      ClearConcat(MainRows(S, R, C, k, n - 1, true, future), MainRow(S, R, C, k, n - 1, C - 2, true, future), c);
    }
  }

  lemma {:induction false} LeftLineClear(S: nat, R: nat, C: nat, k: nat, n: nat, future: bool, c: nat)
    requires Slice(S, R, C, k, future) && n + 1 <= R && CornerCell(S, R, C, c)
    ensures Clear(LeftLine(S, R, C, k, n, true, future), c)
    decreases n
  {
    if n > 0 {
      var index := At(R, C, k, n - 1, 0);
      LeftLineClear(S, R, C, k, n - 1, future, c);
      CellClear(S, R, C, k, n - 1, 0, [index + 1, index + C, index + C + 1], future, c);
      ClearConcat(LeftLine(S, R, C, k, n - 1, true, future), LeftCell(S, R, C, k, n - 1, true, future), c);
    }
  }

  lemma {:induction false} RightLineClear(S: nat, R: nat, C: nat, k: nat, n: nat, future: bool, c: nat)
    requires Slice(S, R, C, k, future) && n + 1 <= R && CornerCell(S, R, C, c)
    ensures Clear(RightLine(S, R, C, k, n, true, future), c)
    decreases n
  {
    if n > 0 {
      var index := At(R, C, k, n - 1, C - 1);
      RightLineClear(S, R, C, k, n - 1, future, c);
      CellClear(S, R, C, k, n - 1, C - 1, [index + C - 1, index + C], future, c);
      ClearConcat(RightLine(S, R, C, k, n - 1, true, future), RightCell(S, R, C, k, n - 1, true, future), c);
    }
  }

  lemma {:induction false} BottomLineClear(S: nat, R: nat, C: nat, k: nat, m: nat, future: bool, c: nat)
    requires Slice(S, R, C, k, future) && m + 2 <= C && CornerCell(S, R, C, c)
    ensures Clear(BottomLine(S, R, C, k, m, true, future), c)
    decreases m
  {
    if m > 0 {
      var index := At(R, C, k, R - 1, m);
      BottomLineClear(S, R, C, k, m - 1, future, c);
      CellClear(S, R, C, k, R - 1, m, [index + 1], future, c);
      ClearConcat(BottomLine(S, R, C, k, m - 1, true, future), BottomCell(S, R, C, k, m, true, future), c);
    }
  }

  lemma SliceClear(S: nat, R: nat, C: nat, k: nat, future: bool, c: nat)
    requires Slice(S, R, C, k, future) && CornerCell(S, R, C, c)
    ensures Clear(SliceLinks(S, R, C, k, true, future), c)
  {
    var main := MainRows(S, R, C, k, R - 1, true, future);
    var left := LeftLine(S, R, C, k, R - 1, true, future);
    var right := RightLine(S, R, C, k, R - 1, true, future);
    var bottom := BottomLine(S, R, C, k, C - 2, true, future);
    MainRowsClear(S, R, C, k, R - 1, future, c);
    LeftLineClear(S, R, C, k, R - 1, future, c);
    RightLineClear(S, R, C, k, R - 1, future, c);
    BottomLineClear(S, R, C, k, C - 2, future, c);
    ClearConcat(main, left, c);
    ClearConcat(main + left, right, c);
    ClearConcat(main + left + right, bottom, c);
  }

  lemma {:induction false} FrontSlicesClear(S: nat, R: nat, C: nat, m: nat, c: nat)
    requires m < S && R >= 1 && C >= 2
    requires forall k :: 0 <= k < m ==> Clear(SliceLinks(S, R, C, k, true, true), c)
    ensures Clear(FrontSlices(S, R, C, m, true), c)
    decreases m
  {
    if m > 0 {
      FrontSlicesClear(S, R, C, m - 1, c);
      FrontSlicesStep(S, R, C, m, c);
    }
  }

  /** One more front slice appends that slice's links, so the front
   *  slices stay clear of c when the new slice is. */
  lemma FrontSlicesStep(S: nat, R: nat, C: nat, m: nat, c: nat)
    requires 0 < m < S && R >= 1 && C >= 2
    requires Clear(FrontSlices(S, R, C, m - 1, true), c) && Clear(SliceLinks(S, R, C, m - 1, true, true), c)
    ensures Clear(FrontSlices(S, R, C, m, true), c)
  {
    ClearConcat(FrontSlices(S, R, C, m - 1, true), SliceLinks(S, R, C, m - 1, true, true), c);
  }

  /** The loops as written, with a symmetric measure, only create links
   *  that point forward, and none from a bottom corner of a slice. */
  lemma AsWrittenSkipsCorners(S: nat, R: nat, C: nat, k2: nat, jc: nat)
    requires S >= 1 && Corner(S, R, C, k2, jc)
    ensures Clear(Links3D10(S, R, C, true), At(R, C, k2, R - 1, jc))
  {
    var c := At(R, C, k2, R - 1, jc);
    assert CornerCell(S, R, C, c);
    forall k | 0 <= k < S - 1
      ensures Clear(SliceLinks(S, R, C, k, true, true), c)
    {
      SliceClear(S, R, C, k, true, c);
    }
    FrontSlicesClear(S, R, C, S - 1, c);
    SliceClear(S, R, C, S - 1, false, c);
    ClearConcat(FrontSlices(S, R, C, S - 1, true), SliceLinks(S, R, C, S - 1, true, false), c);
  }

  /** The offset from cell (k, i, j) to cell (k2, i2, j2) moves the
   *  index by the difference of the two. */
  lemma OffsetLinear(S: nat, R: nat, C: nat, k: nat, i: nat, j: nat, k2: nat, i2: nat, j2: nat)
    ensures At(R, C, k, i, j) + Linear([S, R, C], [k2 - k, i2 - i, j2 - j]) == At(R, C, k2, i2, j2)
  {
    Linear3(S, R, C, k2 - k, i2 - i, j2 - j);
    assert (k2 - k) * (R * C) == k2 * (R * C) - k * (R * C);
    assert (i2 - i) * C == i2 * C - i * C;
  }

  /** The offset from cell (k, i, j) to cell (k2, i2, j2) reaches it. */
  lemma OffsetReaches(S: nat, R: nat, C: nat, k: nat, i: nat, j: nat, k2: nat, i2: nat, j2: nat, off: seq<int>)
    requires k < S && i < R && j < C && k2 < S && i2 < R && j2 < C
    requires off == [k2 - k, i2 - i, j2 - j]
    ensures At(R, C, k, i, j) < Product([S, R, C])
    ensures ValidNeighbor([S, R, C], PosVector([S, R, C], At(R, C, k, i, j)), off)
    ensures Target([S, R, C], At(R, C, k, i, j), off) == At(R, C, k2, i2, j2)
  {
    PosVector3(S, R, C, k, i, j);
    assert Shift([k, i, j], off) == [k2, i2, j2];
    OffsetLinear(S, R, C, k, i, j, k2, i2, j2);
  }

  /** For a symmetric measure the 10-connectivity joins every cell
   *  (k, i, j) to each forward neighbour (k2, i2, j2) in the volume: the
   *  one east, south-west, south, south-east or behind it. */
  lemma Connectivity10Complete(S: nat, R: nat, C: nat, k: nat, i: nat, j: nat, t: nat, k2: nat, i2: nat, j2: nat)
    requires R >= 1 && C >= 2 && k < S && i < R && j < C && k2 < S && i2 < R && j2 < C
    requires t < 5 && Forward10()[t] == [k2 - k, i2 - i, j2 - j]
    ensures OffsetsFit([S, R, C], Stencil10())
    ensures Link(At(R, C, k, i, j), At(R, C, k2, i2, j2), true)
              in WragLinks([S, R, C], Forward([S, R, C], Stencil10()), Product([S, R, C]), true)
  {
    var dims: seq<nat> := [S, R, C];
    Stencil10Forward(S, R, C);
    var fwd := Forward(dims, Stencil10());
    OffsetReaches(S, R, C, k, i, j, k2, i2, j2, fwd[t]);
    WragLinksComplete(dims, fwd, Product(dims), true, At(R, C, k, i, j), t);
  }

  /** The bottom-left cell c of a slice and its east neighbour c + 1 are
   *  joined by no link the loops as written create, in either direction,
   *  although the 10-connectivity joins them (Connectivity10Complete with
   *  the east offset). */
  lemma CornerEastMissing(S: nat, R: nat, C: nat, k: nat)
    requires R >= 1 && C >= 2 && k < S
    ensures var c := At(R, C, k, R - 1, 0);
            Link(c, c + 1, true) !in Links3D10(S, R, C, true) && Link(c + 1, c, true) !in Links3D10(S, R, C, true)
  {
    var c := At(R, C, k, R - 1, 0);
    var asWritten := Links3D10(S, R, C, true);
    AsWrittenSkipsCorners(S, R, C, k, 0);
    forall t | 0 <= t < |asWritten|
      ensures asWritten[t] != Link(c, c + 1, true) && asWritten[t] != Link(c + 1, c, true)
    {
    }
  }

  /** The two bottom corners c and d of a slice with a slice behind it are
   *  not joined to the cells behind them by any link the loops as written
   *  create, although the 10-connectivity joins them (Connectivity10Complete
   *  with the future offset). */
  lemma CornerBehindMissing(S: nat, R: nat, C: nat, k: nat)
    requires R >= 1 && C >= 2 && k + 1 < S
    ensures var c, d := At(R, C, k, R - 1, 0), At(R, C, k, R - 1, C - 1);
            Link(c, c + R * C, true) !in Links3D10(S, R, C, true) &&
            Link(d, d + R * C, true) !in Links3D10(S, R, C, true)
  {
    var c, d := At(R, C, k, R - 1, 0), At(R, C, k, R - 1, C - 1);
    AsWrittenSkipsCorners(S, R, C, k, 0);
    AsWrittenSkipsCorners(S, R, C, k, C - 1);
    ClearExcludes(Links3D10(S, R, C, true), c, c + R * C);
    ClearExcludes(Links3D10(S, R, C, true), d, d + R * C);
  }

  /** Links clear of c contain no link out of c. */
  lemma ClearExcludes(links: seq<Link>, c: nat, x: nat)
    requires Clear(links, c)
    ensures Link(c, x, true) !in links
  {
    forall t | 0 <= t < |links|
      ensures links[t] != Link(c, x, true)
    {
    }
  }

  /** generateWRAG_3D_Connectivity10 as written: the links of the four
   *  loops of every slice, created one after the other. The source reads
   *  three dimensions without a check and counts down from them in
   *  unsigned arithmetic, so it needs three dimensions, a row and two
   *  columns. */
  method Generate3D10AsWritten<M>(g: Generator<M>, d: (M, M) -> real, symmetric: bool) returns (ghost links: seq<Link>)
    requires g.Valid() && |g.dims| == 3 && g.dims[0] >= 1 && g.dims[1] >= 1 && g.dims[2] >= 2
    modifies g, g.store
    ensures g.Valid() && links == Links3D10(g.dims[0], g.dims[1], g.dims[2], symmetric)
    ensures LinksFit(links, g.total)
    ensures g.nextEdge == old(g.nextEdge) + |links|
    ensures g.edges == Created(old(g.edges), old(g.nextEdge), g.base, links, old(g.store.nodes), d)
    ensures g.store.nodes == Inserted(old(g.store.nodes), g.base, old(g.nextEdge), links)
  {
    var S, R, C := g.dims[0], g.dims[1], g.dims[2];
    assert g.dims == [S, R, C];
    Product3(S, R, C);
    var created := Links3D10(S, R, C, symmetric);
    links := created;
    g.ApplyLinks(created, d);
  }

  /** generateWRAG_3D_Connectivity10 as evidently intended: generateWRAG
   *  over the ten offsets, which joins every cell to each of its
   *  neighbours (Connectivity10Complete); it fails unless the grid has
   *  three dimensions. */
  method Generate3D10<M>(g: Generator<M>, d: (M, M) -> real, symmetric: bool)
    returns (err: Option<Failure>, ghost links: seq<Link>)
    requires g.Valid()
    modifies g, g.store
    ensures g.Valid()
    ensures err.Some? <==> |g.dims| != 3
    ensures err.None? ==> (OffsetsFit(g.dims, Stencil10()) &&
                           links == WragLinks(g.dims, Kept(g.dims, Stencil10(), symmetric), g.total, symmetric))
    ensures err.None? ==> (g.nextEdge == old(g.nextEdge) + |links| &&
                           g.edges == Created(old(g.edges), old(g.nextEdge), g.base, links, old(g.store.nodes), d) &&
                           g.store.nodes == Inserted(old(g.store.nodes), g.base, old(g.nextEdge), links))
  {
    err, links := g.GenerateWRAG(d, symmetric, Stencil10());
  }
}
