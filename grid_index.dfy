/** The index arithmetic of DenseWRAGGenerator: a grid of dimensions
 *  `dims` (slowest first, last coordinate fastest) numbered in row-major
 *  order, the conversions between a linear index and a coordinate vector,
 *  and the bounds tests on positions and neighbours. Coordinates and
 *  offsets are integers (the source's `size_t` and `signed long`). */
module GridIndex {
  import opened Wrappers

  /** The number of cells: the product of the dimensions. */
  function Product(dims: seq<nat>): nat
  {
    if |dims| == 0 then 1 else dims[0] * Product(dims[1..])
  }

  /** getLinearIndex: row-major, the last coordinate fastest. */
  function Linear(dims: seq<nat>, pos: seq<int>): int
    requires |pos| == |dims|
  {
    if |pos| == 0 then 0 else pos[0] * Product(dims[1..]) + Linear(dims[1..], pos[1..])
  }

  /** getPosVector: the coordinates of a linear index. */
  function PosVector(dims: seq<nat>, p: nat): (r: seq<nat>)
    requires p < Product(dims)
    ensures |r| == |dims|
  {
    if |dims| == 0 then []
    else
      var below := Product(dims[1..]);
      assert below > 0;
      [p / below] + PosVector(dims[1..], p % below)
  }

  /** validPosition on a coordinate vector: every coordinate below its
   *  dimension. */
  predicate InBounds(dims: seq<nat>, pos: seq<int>)
    requires |pos| == |dims|
  {
    forall i :: 0 <= i < |dims| ==> 0 <= pos[i] < dims[i]
  }

  /** The coordinates reached from `pos` by `off`. */
  function Shift(pos: seq<int>, off: seq<int>): (r: seq<int>)
    requires |pos| == |off|
    ensures |r| == |pos|
  {
    seq(|pos|, i requires 0 <= i < |pos| => pos[i] + off[i])
  }

  /** validNeighbor: every coordinate of pos + offset lies in [0, dim). */
  predicate ValidNeighbor(dims: seq<nat>, pos: seq<int>, off: seq<int>)
    requires |pos| == |dims| && |off| == |dims|
  {
    InBounds(dims, Shift(pos, off))
  }

  /** Multiplying in one more dimension at the end. */
  lemma {:induction false} ProductSnoc(dims: seq<nat>, d: nat)
    ensures Product(dims + [d]) == Product(dims) * d
    decreases |dims|
  {
    if |dims| > 0 {
      assert (dims + [d])[1..] == dims[1..] + [d];
      ProductSnoc(dims[1..], d);
    }
  }

  /** q·b + r with 0 ≤ r < b splits back into q and r. */
  lemma DivModUnique(q: int, r: int, b: int)
    requires b > 0 && 0 <= r < b
    ensures (q * b + r) / b == q && (q * b + r) % b == r
  {
    var x := q * b + r;
    var d := x / b - q;
    assert d * b == (x / b) * b - q * b;
    assert d * b == r - x % b;
    assert -b < d * b < b;
  }

  /** The linear index of an in-bounds vector names a cell of the grid. */
  lemma {:induction false} LinearBounds(dims: seq<nat>, pos: seq<int>)
    requires |pos| == |dims| && InBounds(dims, pos)
    ensures 0 <= Linear(dims, pos) < Product(dims)
    decreases |dims|
  {
    if |dims| > 0 {
      var below := Product(dims[1..]);
      LinearBounds(dims[1..], pos[1..]);
      var rest := Linear(dims[1..], pos[1..]);
      assert pos[0] * below + rest < (pos[0] + 1) * below;
      assert (pos[0] + 1) * below <= dims[0] * below;
    }
  }

  /** An index below a·b, divided by b, is below a. */
  lemma DivBelow(p: nat, a: nat, b: nat)
    requires b > 0 && p < a * b
    ensures p / b < a
  {
  }

  /** getPosVector gives in-bounds coordinates for every cell. */
  lemma {:induction false} PosVectorInBounds(dims: seq<nat>, p: nat)
    requires p < Product(dims)
    ensures InBounds(dims, PosVector(dims, p))
    decreases |dims|
  {
    if |dims| > 0 {
      var below := Product(dims[1..]);
      PosVectorInBounds(dims[1..], p % below);
      var r := PosVector(dims, p);
      DivBelow(p, dims[0], below);
      forall i | 0 <= i < |dims|
        ensures 0 <= r[i] < dims[i]
      {
        if i > 0 {
          assert r[i] == PosVector(dims[1..], p % below)[i - 1];
        }
      }
    }
  }

  /** getLinearIndex undoes getPosVector. */
  lemma {:induction false} LinearOfPosVector(dims: seq<nat>, p: nat)
    requires p < Product(dims)
    ensures Linear(dims, PosVector(dims, p)) == p
    decreases |dims|
  {
    if |dims| > 0 {
      var below := Product(dims[1..]);
      var r := PosVector(dims, p);
      assert r[1..] == PosVector(dims[1..], p % below);
      LinearOfPosVector(dims[1..], p % below);
    }
  }

  /** getPosVector undoes getLinearIndex on in-bounds vectors. */
  lemma {:induction false} PosVectorOfLinear(dims: seq<nat>, pos: seq<nat>)
    requires |pos| == |dims| && InBounds(dims, pos)
    ensures 0 <= Linear(dims, pos) < Product(dims)
    ensures PosVector(dims, Linear(dims, pos)) == pos
    decreases |dims|
  {
    LinearBounds(dims, pos);
    if |dims| > 0 {
      var below := Product(dims[1..]);
      PosVectorOfLinear(dims[1..], pos[1..]);
      LinearBounds(dims[1..], pos[1..]);
      var rest := Linear(dims[1..], pos[1..]);
      DivModUnique(pos[0], rest, below);
      var r := PosVector(dims, Linear(dims, pos));
      assert r == [pos[0]] + pos[1..];
    }
  }

  /** The linear index is linear: an offset moves the index by the
   *  offset's own linear index. */
  lemma {:induction false} LinearShift(dims: seq<nat>, pos: seq<int>, off: seq<int>)
    requires |pos| == |dims| && |off| == |dims|
    ensures Linear(dims, Shift(pos, off)) == Linear(dims, pos) + Linear(dims, off)
    decreases |dims|
  {
    if |dims| > 0 {
      assert Shift(pos, off)[1..] == Shift(pos[1..], off[1..]);
      LinearShift(dims[1..], pos[1..], off[1..]);
      var below := Product(dims[1..]);
      assert (pos[0] + off[0]) * below == pos[0] * below + off[0] * below;
    }
  }

  /** The cell a valid neighbour offset reaches from cell p is the cell at
   *  index p + linear(offset), and that index lies in the grid. */
  lemma NeighborCell(dims: seq<nat>, p: nat, off: seq<int>)
    requires p < Product(dims) && |off| == |dims|
    requires ValidNeighbor(dims, PosVector(dims, p), off)
    ensures 0 <= p + Linear(dims, off) < Product(dims)
    ensures PosVector(dims, p + Linear(dims, off)) == Shift(PosVector(dims, p), off)
  {
    var pos := PosVector(dims, p);
    LinearShift(dims, pos, off);
    LinearOfPosVector(dims, p);
    var q := Shift(pos, off);
    var qn: seq<nat> := seq(|q|, i requires 0 <= i < |q| => q[i] as nat);
    assert qn == q;
    PosVectorOfLinear(dims, qn);
    LinearBounds(dims, q);
  }

  /** setTotal: the first dimension times each later one; an empty
   *  dimension vector makes `at(0)` throw. */
  method SetTotal(dims: seq<nat>) returns (r: Option<nat>)
    ensures r == if |dims| == 0 then None else Some(Product(dims))
  {
    if |dims| == 0 {
      return None;
    }
    var total := dims[0];
    var i := 1;
    while i < |dims|
      invariant 1 <= i <= |dims| && total == Product(dims[..i])
    {
      ProductSnoc(dims[..i], dims[i]);
      assert dims[..i + 1] == dims[..i] + [dims[i]];
      total := total * dims[i];
      i := i + 1;
    }
    assert dims[..1] == [dims[0]];
    assert dims[..i] == dims;
    r := Some(total);
  }

  /** validPosition on a vector: the loop stops at the first coordinate
   *  outside its dimension. */
  method ValidPosition(dims: seq<nat>, v: seq<nat>) returns (ok: bool)
    requires |v| >= |dims|
    ensures ok <==> InBounds(dims, v[..|dims|])
  {
    ok := true;
    var i := 0;
    while i < |dims| && ok
      invariant 0 <= i <= |dims|
      invariant ok <==> forall k :: 0 <= k < i ==> v[k] < dims[k]
    {
      ok := v[i] < dims[i];
      i := i + 1;
    }
  }

  /** validNeighbor, over the coordinates of `pos` and the offset. */
  method IsValidNeighbor(dims: seq<nat>, pos: seq<nat>, off: seq<int>) returns (ok: bool)
    requires |pos| == |dims| && |off| == |dims|
    ensures ok <==> ValidNeighbor(dims, pos, off)
  {
    ok := true;
    var i := 0;
    while i < |dims| && ok
      invariant 0 <= i <= |dims|
      invariant ok <==> forall k :: 0 <= k < i ==> 0 <= pos[k] + off[k] < dims[k]
      invariant !ok ==> i > 0 && !(0 <= pos[i - 1] + off[i - 1] < dims[i - 1])
    {
      ok := pos[i] + off[i] < dims[i] && pos[i] + off[i] >= 0;
      i := i + 1;
    }
    var shifted := Shift(pos, off);
    if ok {
      forall k | 0 <= k < |dims|
        ensures 0 <= shifted[k] < dims[k]
      {
        assert shifted[k] == pos[k] + off[k];
      }
    } else {
      assert shifted[i - 1] == pos[i - 1] + off[i - 1];
    }
  }

  /** One step of getPosVector: the cells below dimension i divide the
   *  cells from it on, and give its coordinate. */
  lemma PosVectorStep(dims: seq<nat>, i: nat, rest: nat)
    requires i < |dims| && rest < Product(dims[i..])
    ensures var below := Product(dims[i + 1..]);
            below > 0 && dims[i] > 0 && Product(dims[i..]) / dims[i] == below &&
            PosVector(dims[i..], rest) == [rest / below] + PosVector(dims[i + 1..], rest % below)
  {
    assert dims[i..][1..] == dims[i + 1..];
    var below := Product(dims[i + 1..]);
    assert Product(dims[i..]) == dims[i] * below;
    DivModUnique(below, 0, dims[i]);
    assert below * dims[i] == dims[i] * below;
  }

  /** getPosVector: divides the remaining index by the cells below each
   *  dimension in turn. */
  method GetPosVector(dims: seq<nat>, total: nat, p: nat) returns (r: seq<nat>)
    requires total == Product(dims) && p < total
    ensures r == PosVector(dims, p)
  {
    r := seq(|dims|, i => 0);
    var tmp, rest := total, p;
    var i := 0;
    while i < |dims|
      invariant 0 <= i <= |dims| && |r| == |dims|
      invariant tmp == Product(dims[i..]) && rest < tmp
      invariant r[..i] + PosVector(dims[i..], rest) == PosVector(dims, p)
    {
      var below := Product(dims[i + 1..]);
      PosVectorStep(dims, i, rest);
      tmp := tmp / dims[i];
      assert r[i := rest / below][..i + 1] == r[..i] + [rest / below];
      r := r[i := rest / below];
      rest := rest % tmp;
      i := i + 1;
    }
    assert r[..i] == r;
  }

  /** getLinearIndex: a vector of another length than the dimensions is a
   *  runtime error (dimensionsEqual); otherwise the last coordinate plus
   *  each earlier one times the cells below it. */
  method GetLinearIndex(dims: seq<nat>, pos: seq<int>) returns (r: Option<int>)
    requires |dims| > 0
    ensures r == if |pos| != |dims| then None else Some(Linear(dims, pos))
  {
    if |pos| != |dims| {
      return None;
    }
    var n := |dims|;
    var index, multiplier := pos[n - 1], 1;
    assert pos[n - 1..][1..] == [] && dims[n - 1..][1..] == [];
    var i := n - 1;
    while i > 0
      invariant 0 <= i <= n - 1
      invariant multiplier == Product(dims[i + 1..]) && index == Linear(dims[i..], pos[i..])
    {
      assert dims[i..][1..] == dims[i + 1..];
      multiplier := multiplier * dims[i];
      assert dims[i - 1..][1..] == dims[i..] && pos[i - 1..][1..] == pos[i..];
      index := index + pos[i - 1] * multiplier;
      i := i - 1;
    }
    assert dims[0..] == dims && pos[0..] == pos;
    r := Some(index);
  }
}
