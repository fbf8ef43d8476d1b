/** BPTDataSource: a Dims-dimensional grid with one cell per leaf of the
 *  tree, each cell holding the value a functor gives for the pruned node
 *  that contains the leaf. The boost multi_array is a flat array in its
 *  row-major order; a leaf's cell comes from its region model's
 *  coordinates through `access<Dims>`. */
module BPTDataSource {
  import opened Wrappers
  import opened BPTNode
  import opened BPTFrame
  import opened Arith
  import opened GridIndex

  /** The order in which `access<Dims>` reads the coordinates: [d0] for one
   *  dimension, [d1][d0] for two (row, then column), [d0][d2][d1] for three
   *  and [d3][d2][d1][d0] for four. Each order is its own inverse. */
  function AccessOrder(dims: nat): (o: seq<nat>)
    requires 1 <= dims <= 4
    ensures |o| == dims
    ensures forall k :: 0 <= k < dims ==> o[k] < dims && o[o[k]] == k
  {
    if dims == 1 then [0]
    else if dims == 2 then [1, 0]
    else if dims == 3 then [0, 2, 1]
    else [3, 2, 1, 0]
  }

  /** The index tuple of a leaf with coordinates `pos`. */
  function AccessIndex(dims: nat, pos: seq<nat>): (t: seq<nat>)
    requires 1 <= dims <= 4 && |pos| >= dims
    ensures |t| == dims
  {
    var o := AccessOrder(dims);
    seq(dims, k requires 0 <= k < dims => pos[o[k]])
  }

  /** Reading an index tuple in access order gives the coordinates back, so
   *  leaves at distinct coordinates have distinct index tuples. */
  lemma AccessRoundTrip(dims: nat, pos: seq<nat>)
    requires 1 <= dims <= 4 && |pos| >= dims
    ensures AccessIndex(dims, AccessIndex(dims, pos)) == pos[..dims]
  {
    var o := AccessOrder(dims);
    var t := AccessIndex(dims, pos);
    forall k | 0 <= k < dims
      ensures AccessIndex(dims, t)[k] == pos[k]
    {
      assert AccessIndex(dims, t)[k] == t[o[k]] == pos[o[o[k]]];
    }
  }

  /** A position lies inside a grid of extents `e`. */
  predicate Placed(e: seq<nat>, pos: seq<nat>)
  {
    1 <= |e| <= 4 && |pos| >= |e| && InBounds(e, AccessIndex(|e|, pos))
  }

  /** The flat cell of a leaf at `pos`: the row-major linear index of its
   *  index tuple, the last index varying fastest. Positions outside the
   *  grid, which the constructors' preconditions exclude for leaves, are
   *  given cell 0 only to keep this total. */
  function Place(e: seq<nat>, pos: seq<nat>): nat
  {
    if Placed(e, pos) then
      var t := AccessIndex(|e|, pos);
      LinearBounds(e, t);
      Linear(e, t)
    else 0
  }

  /** A placed leaf's cell is inside the grid, and two placed leaves share
   *  a cell only when their coordinates agree. */
  lemma PlaceBijective(e: seq<nat>, p: seq<nat>, q: seq<nat>)
    requires Placed(e, p) && Placed(e, q)
    ensures Place(e, p) < Product(e)
    ensures Place(e, p) == Place(e, q) ==> p[..|e|] == q[..|e|]
  {
    var tp, tq := AccessIndex(|e|, p), AccessIndex(|e|, q);
    PosVectorOfLinear(e, tp);
    PosVectorOfLinear(e, tq);
    if Place(e, p) == Place(e, q) {
      assert tp == tq;
      AccessRoundTrip(|e|, p);
      AccessRoundTrip(|e|, q);
    }
  }

  /** The tree, the cell of a leaf given its region model, and the
   *  functor, as the data source sees them. */
  datatype Layout<!M, V> = Layout(nodes: seq<Node<M>>, place: M -> nat, func: nat -> V)

  /** The cell of node `l`. */
  function CellOf<M, V>(t: Layout<M, V>, l: nat): nat
    requires l < |t.nodes|
  {
    t.place(t.nodes[l].model)
  }

  /** A well-formed tree whose leaves have cells in a grid of `n` cells. */
  ghost predicate Ready<M, V>(t: Layout<M, V>, n: nat)
  {
    WellFormed(t.nodes) &&
    forall l :: 0 <= l < |t.nodes| && IsLeaf(t.nodes[l]) ==> CellOf(t, l) < n
  }

  /** No two leaves share a cell. */
  ghost predicate OwnCells<M, V>(t: Layout<M, V>)
  {
    forall l, m ::
      0 <= l < |t.nodes| && 0 <= m < |t.nodes| && IsLeaf(t.nodes[l]) && IsLeaf(t.nodes[m]) &&
      CellOf(t, l) == CellOf(t, m)
      ==> l == m
  }

  /** The cells of a set of leaves. */
  ghost function CellsOf<M, V>(t: Layout<M, V>, leaves: set<nat>): set<nat>
  {
    set l | l in leaves && l < |t.nodes| && IsLeaf(t.nodes[l]) :: CellOf(t, l)
  }

  /** The grid after every leaf below `p` was given func(p). */
  ghost function Stamp<M, V>(t: Layout<M, V>, a: seq<V>, p: nat): (r: seq<V>)
    requires WellFormed(t.nodes) && p < |t.nodes|
    ensures |r| == |a|
  {
    var cs := CellsOf(t, LeafSet(t.nodes, p));
    seq(|a|, c requires 0 <= c < |a| => if c in cs then t.func(p) else a[c])
  }

  /** The largest member of a nonempty set of ids. */
  ghost function Largest(s: set<nat>): (m: nat)
    requires s != {}
    ensures m in s && forall y :: y in s ==> y <= m
  {
    HasLargest(s);
    var m :| m in s && forall y :: y in s ==> y <= m;
    m
  }

  /** The grid after the set-based populateLeaves: the pruned nodes are
   *  visited in increasing id order, so the largest is stamped last. */
  ghost function Painted<M, V>(t: Layout<M, V>, a: seq<V>, pruned: set<nat>): (r: seq<V>)
    requires WellFormed(t.nodes) && InArena(t.nodes, pruned)
    ensures |r| == |a|
    decreases pruned
  {
    if pruned == {} then a
    else
      var m := Largest(pruned);
      Stamp(t, Painted(t, a, pruned - {m}), m)
  }

  /** With pruned nodes that are not nested in one another and leaves that
   *  own their cells, a leaf below a pruned node p holds func(p). */
  lemma {:induction false} PaintedLeaf<M, V>(t: Layout<M, V>, a: seq<V>, pruned: set<nat>, p: nat, l: nat)
    requires Ready(t, |a|) && InArena(t.nodes, pruned) && NonNested(t.nodes, pruned) && OwnCells(t)
    requires p in pruned && l in LeafSet(t.nodes, p)
    ensures l < |t.nodes| && IsLeaf(t.nodes[l])
    ensures Painted(t, a, pruned)[CellOf(t, l)] == t.func(p)
    decreases pruned
  {
    LeafSetIsLeaves(t.nodes, p);
    var m := Largest(pruned);
    var c := CellOf(t, l);
    if p != m {
      LeafSetIsLeaves(t.nodes, m);
      assert Subtree(t.nodes, p) !! Subtree(t.nodes, m);
      assert forall l' :: l' in LeafSet(t.nodes, m) ==> l' != l;
      assert c !in CellsOf(t, LeafSet(t.nodes, m));
      assert NonNested(t.nodes, pruned - {m});
      PaintedLeaf(t, a, pruned - {m}, p, l);
    } else {
      assert c in CellsOf(t, LeafSet(t.nodes, m));
    }
  }

  /** A cell of no leaf below a pruned node keeps its value. */
  lemma {:induction false} PaintedElsewhere<M, V>(t: Layout<M, V>, a: seq<V>, pruned: set<nat>, c: nat)
    requires WellFormed(t.nodes) && InArena(t.nodes, pruned) && c < |a|
    requires forall p :: p in pruned ==> c !in CellsOf(t, LeafSet(t.nodes, p))
    ensures Painted(t, a, pruned)[c] == a[c]
    decreases pruned
  {
    if pruned != {} {
      PaintedElsewhere(t, a, pruned - {Largest(pruned)}, c);
    }
  }

  /** The pruned node the leaf-iterator populateLeaves settles on: climb
   *  from the leaf while the node is not pruned and has a father. */
  function Climb<M>(nodes: seq<Node<M>>, x: nat, pruned: set<nat>): (r: nat)
    requires WellFormed(nodes) && x < |nodes|
    ensures r < |nodes|
    decreases |nodes| - x
  {
    assert NodeOk(nodes, x);
    if x !in pruned && nodes[x].father.Some? then Climb(nodes, nodes[x].father.value, pruned) else x
  }

  /** Below a pruned node that no other pruned node overlaps, the climb
   *  stops exactly at that node. */
  lemma {:induction false} ClimbFindsCover<M>(nodes: seq<Node<M>>, x: nat, p: nat, pruned: set<nat>)
    requires WellFormed(nodes) && InArena(nodes, pruned) && NonNested(nodes, pruned)
    requires p in pruned && x < |nodes| && x in Subtree(nodes, p)
    ensures Climb(nodes, x, pruned) == p
    decreases |nodes| - x
  {
    SubtreeBelow(nodes, p, x);
    assert NodeOk(nodes, x);
    assert x in Subtree(nodes, x);
    if x != p {
      assert x !in pruned;
      ClimbFindsCover(nodes, nodes[x].father.value, p, pruned);
    }
  }

  /** The climb from a leaf never leaves the tree of its topmost ancestor:
   *  it ends at a pruned node or at a node without a father. */
  lemma {:induction false} ClimbEnds<M>(nodes: seq<Node<M>>, x: nat, pruned: set<nat>)
    requires WellFormed(nodes) && x < |nodes|
    ensures var r := Climb(nodes, x, pruned);
      r in pruned || nodes[r].father.None?
    ensures x in Subtree(nodes, Climb(nodes, x, pruned))
    decreases |nodes| - x
  {
    assert NodeOk(nodes, x);
    assert x in Subtree(nodes, x);
    if x !in pruned && nodes[x].father.Some? {
      var f := nodes[x].father.value;
      ClimbEnds(nodes, f, pruned);
      var r := Climb(nodes, f, pruned);
      assert NodeOk(nodes, f);
      assert x in Subtree(nodes, f);
      SubtreeNests(nodes, r, f);
    }
  }

  /** The leaves of `ls` are leaves of the tree. */
  ghost predicate LeafList<M>(nodes: seq<Node<M>>, ls: seq<nat>)
  {
    forall k :: 0 <= k < |ls| ==> ls[k] < |nodes| && IsLeaf(nodes[ls[k]])
  }

  /** The grid after the leaf-iterator populateLeaves wrote the leaves of
   *  `ls` in order. */
  ghost function Written<M, V>(t: Layout<M, V>, a: seq<V>, ls: seq<nat>, pruned: set<nat>): (r: seq<V>)
    requires Ready(t, |a|) && LeafList(t.nodes, ls)
    ensures |r| == |a|
  {
    if ls == [] then a
    else
      var l := ls[|ls| - 1];
      Written(t, a, ls[..|ls| - 1], pruned)[CellOf(t, l) := t.func(Climb(t.nodes, l, pruned))]
  }

  /** With leaves that own their cells, the cell of a listed leaf holds
   *  func of the climb from that leaf. */
  lemma {:induction false} WrittenLeaf<M, V>(t: Layout<M, V>, a: seq<V>, ls: seq<nat>, pruned: set<nat>, k: nat)
    requires Ready(t, |a|) && LeafList(t.nodes, ls) && OwnCells(t) && k < |ls|
    ensures Written(t, a, ls, pruned)[CellOf(t, ls[k])] == t.func(Climb(t.nodes, ls[k], pruned))
  {
    var n := |ls| - 1;
    if CellOf(t, ls[k]) != CellOf(t, ls[n]) {
      assert ls[..n][k] == ls[k];
      WrittenLeaf(t, a, ls[..n], pruned, k);
    }
  }

  /** A cell of no listed leaf keeps its value. */
  lemma {:induction false} WrittenElsewhere<M, V>(t: Layout<M, V>, a: seq<V>, ls: seq<nat>, pruned: set<nat>, c: nat)
    requires Ready(t, |a|) && LeafList(t.nodes, ls) && c < |a|
    requires forall k :: 0 <= k < |ls| ==> c != CellOf(t, ls[k])
    ensures Written(t, a, ls, pruned)[c] == a[c]
  {
    if ls != [] {
      var n := |ls| - 1;
      assert forall k :: 0 <= k < n ==> ls[..n][k] == ls[k];
      WrittenElsewhere(t, a, ls[..n], pruned, c);
    }
  }

  /** A cell of no listed leaf is the cell of no leaf below a pruned node
   *  of a cut, when the list holds every leaf below the root. */
  lemma UncoveredCell<M, V>(t: Layout<M, V>, root: nat, ls: seq<nat>, pruned: set<nat>, c: nat, q: nat)
    requires WellFormed(t.nodes) && root < |t.nodes| && Cut(t.nodes, root, pruned) && q in pruned
    requires forall l :: l in LeafSet(t.nodes, root) ==> l in ls
    requires forall k :: 0 <= k < |ls| ==> ls[k] < |t.nodes| && c != CellOf(t, ls[k])
    ensures c !in CellsOf(t, LeafSet(t.nodes, q))
  {
    SubtreeNests(t.nodes, root, q);
    LeafSetIsLeaves(t.nodes, q);
    LeafSetIsLeaves(t.nodes, root);
    forall l | l in LeafSet(t.nodes, q) && l < |t.nodes| && IsLeaf(t.nodes[l])
      ensures CellOf(t, l) != c
    {
      assert l in LeafSet(t.nodes, root);
      var k :| 0 <= k < |ls| && ls[k] == l;
    }
  }

  /** Given a cut of the tree as the pruned set, leaves that own their
   *  cells, and a list naming every leaf below the root, the two
   *  populateLeaves agree on every cell. */
  lemma PopulatesAgree<M, V>(t: Layout<M, V>, a: seq<V>, root: nat, ls: seq<nat>, pruned: set<nat>)
    requires Ready(t, |a|) && OwnCells(t)
    requires root < |t.nodes| && Cut(t.nodes, root, pruned)
    requires forall k :: 0 <= k < |ls| ==> ls[k] in LeafSet(t.nodes, root)
    requires forall l :: l in LeafSet(t.nodes, root) ==> l in ls
    ensures LeafList(t.nodes, ls)
    ensures Written(t, a, ls, pruned) == Painted(t, a, pruned)
  {
    LeafSetIsLeaves(t.nodes, root);
    var w, p := Written(t, a, ls, pruned), Painted(t, a, pruned);
    forall c | 0 <= c < |a|
      ensures w[c] == p[c]
    {
      if k :| 0 <= k < |ls| && c == CellOf(t, ls[k]) {
        var l := ls[k];
        var q :| q in pruned && l in Subtree(t.nodes, q);
        LeafSetIsLeaves(t.nodes, q);
        ClimbFindsCover(t.nodes, l, q, pruned);
        WrittenLeaf(t, a, ls, pruned, k);
        PaintedLeaf(t, a, pruned, q, l);
      } else {
        forall q | q in pruned
          ensures c !in CellsOf(t, LeafSet(t.nodes, q))
        {
          UncoveredCell(t, root, ls, pruned, c, q);
        }
        WrittenElsewhere(t, a, ls, pruned, c);
        PaintedElsewhere(t, a, pruned, c);
      }
    }
  }

  /** Every leaf lies inside the grid. */
  ghost predicate Fits<M>(nodes: seq<Node<M>>, e: seq<nat>, pos: M -> seq<nat>)
  {
    forall l :: 0 <= l < |nodes| && IsLeaf(nodes[l]) ==> Placed(e, pos(nodes[l].model))
  }

  /** The layout of a data source with extents `e` whose leaves sit at
   *  `pos`. */
  function GridLayout<M, V>(nodes: seq<Node<M>>, e: seq<nat>, pos: M -> seq<nat>, func: nat -> V): Layout<M, V>
  {
    Layout(nodes, (m: M) => Place(e, pos(m)), func)
  }

  /** Leaves inside the grid have cells inside the array. */
  lemma FitsReady<M, V>(nodes: seq<Node<M>>, e: seq<nat>, pos: M -> seq<nat>, func: nat -> V)
    requires WellFormed(nodes) && Fits(nodes, e, pos)
    ensures Ready(GridLayout(nodes, e, pos, func), Product(e))
  {
    var t := GridLayout(nodes, e, pos, func);
    forall l | 0 <= l < |nodes| && IsLeaf(nodes[l])
      ensures CellOf(t, l) < Product(e)
    {
      PlaceBijective(e, pos(nodes[l].model), pos(nodes[l].model));
    }
  }

  /** Leaves at distinct coordinates inside the grid own their cells. */
  lemma DistinctCoordinatesOwnCells<M, V>(nodes: seq<Node<M>>, e: seq<nat>, pos: M -> seq<nat>, func: nat -> V)
    requires Fits(nodes, e, pos)
    requires forall l, m ::
      0 <= l < |nodes| && 0 <= m < |nodes| && IsLeaf(nodes[l]) && IsLeaf(nodes[m]) &&
      pos(nodes[l].model)[..|e|] == pos(nodes[m].model)[..|e|]
      ==> l == m
    ensures OwnCells(GridLayout(nodes, e, pos, func))
  {
    var t := GridLayout(nodes, e, pos, func);
    forall l, m | 0 <= l < |nodes| && 0 <= m < |nodes| && IsLeaf(nodes[l]) && IsLeaf(nodes[m])
      ensures CellOf(t, l) == CellOf(t, m) ==> l == m
    {
      PlaceBijective(e, pos(nodes[l].model), pos(nodes[m].model));
    }
  }

  /** The position of [i][j][k] in a three-dimensional grid stored row
   *  by row. */
  function Index3(e: seq<nat>, i: nat, j: nat, k: nat): (c: nat)
    requires |e| == 3 && i < e[0] && j < e[1] && k < e[2]
    ensures c < Product(e)
  {
    Index3Bound(e, i, j, k);
    (i * e[1] + j) * e[2] + k
  }

  lemma Index3Bound(e: seq<nat>, i: nat, j: nat, k: nat)
    requires |e| == 3 && i < e[0] && j < e[1] && k < e[2]
    ensures (i * e[1] + j) * e[2] + k < Product(e)
  {
    Product3(e);
    DigitBound(i, e[0], j, e[1]);
    DigitBound(i * e[1] + j, e[0] * e[1], k, e[2]);
  }

  lemma Product3(e: seq<nat>)
    requires |e| == 3
    ensures Product(e) == e[0] * e[1] * e[2]
  {
    assert e[1..][1..] == e[2..] && e[2..][1..] == [];
    assert Product(e[2..]) == e[2];
    assert Product(e[1..]) == e[1] * e[2];
  }

  /** Subscripting [i][j][k] reaches the cell `access<3>` computes for the
   *  tuple (i, j, k). */
  lemma Index3IsLinear(e: seq<nat>, i: nat, j: nat, k: nat)
    requires |e| == 3 && i < e[0] && j < e[1] && k < e[2]
    ensures Index3(e, i, j, k) == Linear(e, [i, j, k])
  {
    var t := [i, j, k];
    assert t[1..] == [j, k] && t[1..][1..] == [k] && t[1..][1..][1..] == [];
    assert e[1..][1..] == e[2..] && e[2..][1..] == [];
    assert Product(e[2..]) == e[2];
    assert Product(e[1..]) == e[1] * e[2];
    assert Linear(e[2..], [k]) == k;
    assert Linear(e[1..], [j, k]) == j * e[2] + k;
    assert (i * e[1] + j) * e[2] == i * (e[1] * e[2]) + j * e[2];
  }

  /** The cell [i][j][k] of a three-dimensional grid. */
  function Cell3<V>(g: seq<V>, e: seq<nat>, i: nat, j: nat, k: nat): V
    requires |e| == 3 && |g| == Product(e) && i < e[0] && j < e[1] && k < e[2]
  {
    g[Index3(e, i, j, k)]
  }

  /** The position of [j][k] in a two-dimensional grid of h rows of
   *  length w. */
  function SliceIndex(j: nat, k: nat, h: nat, w: nat): (c: nat)
    requires j < h && k < w
    ensures c < h * w
  {
    DigitBound(j, h, k, w);
    j * w + k
  }

  lemma SliceIndexInjective(j: nat, k: nat, j': nat, k': nat, h: nat, w: nat)
    requires j < h && j' < h && k < w && k' < w && SliceIndex(j, k, h, w) == SliceIndex(j', k', h, w)
    ensures j == j' && k == k'
  {
    MixedRadix(j, k, j', k', w);
  }

  /** How many of the first n consecutive slice pairs (i, i + 1) differ at
   *  [j][k]. */
  function Changes<V(==)>(g: seq<V>, e: seq<nat>, j: nat, k: nat, n: nat): (r: nat)
    requires |e| == 3 && |g| == Product(e) && n < e[0] && j < e[1] && k < e[2]
    ensures r <= n
  {
    if n == 0 then 0
    else Changes(g, e, j, k, n - 1) + if Cell3(g, e, n - 1, j, k) != Cell3(g, e, n, j, k) then 1 else 0
  }

  /** No change is counted at [j][k] exactly when every slice holds the
   *  value of the first one there. */
  lemma {:induction false} NoChangesIffConstant<V>(g: seq<V>, e: seq<nat>, j: nat, k: nat, n: nat)
    requires |e| == 3 && |g| == Product(e) && n < e[0] && j < e[1] && k < e[2]
    ensures Changes(g, e, j, k, n) == 0 <==>
      forall i :: 0 <= i <= n ==> Cell3(g, e, i, j, k) == Cell3(g, e, 0, j, k)
  {
    if n > 0 {
      NoChangesIffConstant(g, e, j, k, n - 1);
    }
  }

  /** The values of slice `slice` in rows [0, j), row after row. */
  function SliceRows<V>(g: seq<V>, e: seq<nat>, slice: nat, j: nat): (r: seq<V>)
    requires |e| == 3 && |g| == Product(e) && slice < e[0] && j <= e[1]
  {
    if j == 0 then [] else SliceRows(g, e, slice, j - 1) + SliceRow(g, e, slice, j - 1)
  }

  function SliceRow<V>(g: seq<V>, e: seq<nat>, slice: nat, j: nat): (r: seq<V>)
    requires |e| == 3 && |g| == Product(e) && slice < e[0] && j < e[1]
    ensures |r| == e[2] && forall k :: 0 <= k < e[2] ==> r[k] == Cell3(g, e, slice, j, k)
  {
    seq(e[2], k requires 0 <= k < e[2] => Cell3(g, e, slice, j, k))
  }

  function Elems(xs: seq<nat>): set<nat>
  {
    set x | x in xs
  }

  lemma ElemsAppend(xs: seq<nat>, x: nat)
    ensures Elems(xs + [x]) == Elems(xs) + {x}
  {
    assert forall y :: y in xs + [x] <==> y in xs || y == x;
  }

  /** The subnodes of the regions in `xs` met for the first time, neither
   *  in `seen` nor earlier in `xs`. */
  function NewSubnodes(xs: seq<nat>, seen: set<nat>, subnodes: nat -> nat): nat
  {
    if xs == [] then 0
    else
      var n := |xs| - 1;
      NewSubnodes(xs[..n], seen, subnodes) + if xs[n] in seen + Elems(xs[..n]) then 0 else subnodes(xs[n])
  }

  /** With every region of c subnodes, the sum is c times the number of new
   *  regions. */
  lemma {:induction false} NewSubnodesConstant(xs: seq<nat>, seen: set<nat>, subnodes: nat -> nat, c: nat)
    requires forall x :: subnodes(x) == c
    ensures NewSubnodes(xs, seen, subnodes) == c * |Elems(xs) - seen|
  {
    if xs != [] {
      var n := |xs| - 1;
      var p := xs[..n];
      NewSubnodesConstant(p, seen, subnodes, c);
      var m := |Elems(p) - seen|;
      var isNew := xs[n] !in seen + Elems(p);
      NewCount(xs, seen);
      MulSucc(c, m);
      assert NewSubnodes(xs, seen, subnodes) == c * m + if isNew then c else 0;
    }
  }

  /** The last element adds a new region exactly when it is neither seen
   *  nor listed before it. */
  lemma NewCount(xs: seq<nat>, seen: set<nat>)
    requires xs != []
    ensures var n := |xs| - 1;
      |Elems(xs) - seen| == |Elems(xs[..n]) - seen| + if xs[n] in seen + Elems(xs[..n]) then 0 else 1
  {
    var n := |xs| - 1;
    var p, x := xs[..n], xs[n];
    assert xs == p + [x];
    ElemsAppend(p, x);
    var old_ := Elems(p) - seen;
    if x in seen + Elems(p) {
      assert Elems(xs) - seen == old_;
    } else {
      assert Elems(xs) - seen == old_ + {x};
    }
  }

  lemma MulSucc(c: nat, m: nat)
    ensures c * (m + 1) == c * m + c
  {
  }

  lemma ScaleDiv(c: nat, m: nat)
    requires m > 0
    ensures (c * m) as real / m as real == c as real
  {
    assert (c * m) as real == c as real * m as real;
  }

  /** What getRegionsInSlice returns: the new regions' subnodes over the
   *  size of the grown set, a division by zero (NaN) when that set is
   *  empty. */
  function RegionsAverage(g: seq<nat>, e: seq<nat>, slice: nat, seen: set<nat>, subnodes: nat -> nat): (r: Option<real>)
    requires |e| == 3 && |g| == Product(e) && slice < e[0]
    ensures r.None? <==> seen + Elems(SliceRows(g, e, slice, e[1])) == {}
  {
    var xs := SliceRows(g, e, slice, e[1]);
    var regions := seen + Elems(xs);
    if |regions| == 0 then None else Some(NewSubnodes(xs, seen, subnodes) as real / |regions| as real)
  }

  /** Starting from no regions, a slice of regions of c subnodes each
   *  averages c. */
  lemma RegionsAverageConstant(g: seq<nat>, e: seq<nat>, slice: nat, subnodes: nat -> nat, c: nat)
    requires |e| == 3 && |g| == Product(e) && slice < e[0]
    requires forall x :: subnodes(x) == c
    requires SliceRows(g, e, slice, e[1]) != []
    ensures RegionsAverage(g, e, slice, {}, subnodes) == Some(c as real)
  {
    var xs := SliceRows(g, e, slice, e[1]);
    NewSubnodesConstant(xs, {}, subnodes, c);
    assert xs[0] in Elems(xs);
    assert Elems(xs) - {} == Elems(xs);
    assert {} + Elems(xs) == Elems(xs);
    ScaleDiv(c, |Elems(xs)|);
  }

  /** The grid of a data source: its extents and its cells. */
  class DataSource<V(==)> {
    var extents: seq<nat>
    var cells: array<V>

    ghost predicate Valid()
      reads this
    {
      1 <= |extents| <= 4 && cells.Length == Product(extents)
    }

    /** The constructor from a pruned set reads Dims extents from the
     *  dimension iterator and sizes the grid to their product (cells start
     *  at `init`, the value a resized multi_array holds), then populates it
     *  from the pruned set. */
    constructor FromPruned<M>(nodes: seq<Node<M>>, pos: M -> seq<nat>, func: nat -> V, pruned: set<nat>,
                              dimsIt: seq<nat>, dims: nat, init: V)
      requires 1 <= dims <= 4 && |dimsIt| >= dims
      requires WellFormed(nodes) && Fits(nodes, dimsIt[..dims], pos) && InArena(nodes, pruned)
      ensures Valid() && extents == dimsIt[..dims] && fresh(cells)
      ensures cells[..] == Painted(GridLayout(nodes, extents, pos, func), seq(Product(extents), _ => init), pruned)
    {
      extents := dimsIt[..dims];
      cells := new V[Product(dimsIt[..dims])](_ => init);
      new;
      assert cells[..] == seq(Product(extents), _ => init);
      FitsReady(nodes, extents, pos, func);
      PopulateFromSet(GridLayout(nodes, extents, pos, func), pruned);
    }

    /** The constructor from a range of leaves: each leaf's cell is
     *  written, in range order, with func of its nearest pruned
     *  ancestor-or-self. */
    constructor FromLeaves<M>(nodes: seq<Node<M>>, pos: M -> seq<nat>, func: nat -> V, ls: seq<nat>,
                              pruned: set<nat>, dimsIt: seq<nat>, dims: nat, init: V)
      requires 1 <= dims <= 4 && |dimsIt| >= dims
      requires WellFormed(nodes) && Fits(nodes, dimsIt[..dims], pos) && LeafList(nodes, ls)
      ensures Valid() && extents == dimsIt[..dims] && fresh(cells)
      ensures Ready(GridLayout(nodes, extents, pos, func), Product(extents)) &&
        cells[..] == Written(GridLayout(nodes, extents, pos, func), seq(Product(extents), _ => init), ls, pruned)
    {
      extents := dimsIt[..dims];
      cells := new V[Product(dimsIt[..dims])](_ => init);
      new;
      assert cells[..] == seq(Product(extents), _ => init);
      FitsReady(nodes, extents, pos, func);
      PopulateFromLeaves(GridLayout(nodes, extents, pos, func), ls, pruned);
    }

    /** begin and end span every cell: the number of cells is the product
     *  of the extents. */
    function NumElements(): (n: nat)
      reads this, cells
      requires Valid()
      ensures n == Product(extents) && n == |cells[..]|
    {
      cells.Length
    }

    /** getSliceChanges (three dimensions): a grid of the second and third
     *  extents counting, at each [j][k], the consecutive slices i and i + 1
     *  that differ there. With a zero first extent the unsigned bound
     *  extents[0] − 1 wraps and the loop reads outside the grid, so the
     *  first extent must be positive. */
    method SliceChanges() returns (data: seq<nat>)
      requires Valid() && |extents| == 3 && extents[0] > 0
      ensures |data| == extents[1] * extents[2]
      ensures forall j, k :: 0 <= j < extents[1] && 0 <= k < extents[2] ==>
        data[SliceIndex(j, k, extents[1], extents[2])] == Changes(cells[..], extents, j, k, extents[0] - 1)
    {
      var e := extents;
      data := seq(e[1] * e[2], _ => 0);
      var i := 0;
      while i < e[0] - 1
        invariant 0 <= i <= e[0] - 1 && |data| == e[1] * e[2]
        invariant forall j, k :: 0 <= j < e[1] && 0 <= k < e[2] ==>
          data[SliceIndex(j, k, e[1], e[2])] == Changes(cells[..], e, j, k, i)
      {
        data := AddSliceChanges(data, i);
        i := i + 1;
      }
    }

    /** One pass of the outer loop of getSliceChanges: every [j][k] where
     *  slices i and i + 1 differ is incremented. */
    method AddSliceChanges(data: seq<nat>, i: nat) returns (r: seq<nat>)
      requires Valid() && |extents| == 3 && i + 1 < extents[0] && |data| == extents[1] * extents[2]
      ensures |r| == |data|
      ensures forall j, k :: 0 <= j < extents[1] && 0 <= k < extents[2] ==>
        r[SliceIndex(j, k, extents[1], extents[2])] == data[SliceIndex(j, k, extents[1], extents[2])] +
          if Cell3(cells[..], extents, i, j, k) != Cell3(cells[..], extents, i + 1, j, k) then 1 else 0
    {
      var e := extents;
      r := data;
      var j := 0;
      while j < e[1]
        invariant 0 <= j <= e[1] && |r| == |data|
        invariant forall j', k :: 0 <= j' < e[1] && 0 <= k < e[2] ==>
          r[SliceIndex(j', k, e[1], e[2])] == data[SliceIndex(j', k, e[1], e[2])] +
            if j' < j && Cell3(cells[..], e, i, j', k) != Cell3(cells[..], e, i + 1, j', k) then 1 else 0
      {
        var k := 0;
        while k < e[2]
          invariant 0 <= k <= e[2] && |r| == |data|
          invariant forall j', k' :: 0 <= j' < e[1] && 0 <= k' < e[2] ==>
            r[SliceIndex(j', k', e[1], e[2])] == data[SliceIndex(j', k', e[1], e[2])] +
              if (j' < j || (j' == j && k' < k)) && Cell3(cells[..], e, i, j', k') != Cell3(cells[..], e, i + 1, j', k')
              then 1 else 0
        {
          if Cell3(cells[..], e, i, j, k) != Cell3(cells[..], e, i + 1, j, k) {
            var c := SliceIndex(j, k, e[1], e[2]);
            r := r[c := r[c] + 1];
          }
          forall j', k' | 0 <= j' < e[1] && 0 <= k' < e[2] && (j', k') != (j, k)
            ensures SliceIndex(j', k', e[1], e[2]) != SliceIndex(j, k, e[1], e[2])
          {
            if SliceIndex(j', k', e[1], e[2]) == SliceIndex(j, k, e[1], e[2]) {
              SliceIndexInjective(j', k', j, k, e[1], e[2]);
            }
          }
          k := k + 1;
        }
        j := j + 1;
      }
    }

    /** The leaf-iterator populateLeaves. */
    method PopulateFromLeaves<M>(t: Layout<M, V>, ls: seq<nat>, pruned: set<nat>)
      requires Ready(t, cells.Length) && LeafList(t.nodes, ls)
      modifies cells
      ensures cells[..] == Written(t, old(cells[..]), ls, pruned)
    {
      ghost var a := cells[..];
      var k := 0;
      while k < |ls|
        invariant 0 <= k <= |ls|
        invariant cells[..] == Written(t, a, ls[..k], pruned)
      {
        var np := ClimbLoop(t.nodes, ls[k], pruned);
        var c := CellOf(t, ls[k]);
        cells[c] := t.func(np);
        assert ls[..k + 1][..k] == ls[..k];
        k := k + 1;
      }
      assert ls[..k] == ls;
    }

    /** The set-based populateLeaves: for each pruned node, in increasing
     *  id order, its leaves are collected and each one's cell receives
     *  func of the pruned node, computed once. */
    method PopulateFromSet<M>(t: Layout<M, V>, pruned: set<nat>)
      requires Ready(t, cells.Length) && InArena(t.nodes, pruned)
      modifies cells
      ensures cells[..] == Painted(t, old(cells[..]), pruned)
    {
      ghost var a := cells[..];
      var todo := pruned;
      ghost var done: set<nat> := {};
      while todo != {}
        invariant todo <= pruned && done == pruned - todo
        invariant forall d, y :: d in done && y in todo ==> d < y
        invariant cells[..] == Painted(t, a, done)
        decreases todo
      {
        var p := Smallest(todo);
        var leaves := AddLeaves(t.nodes, p, {});
        LeafSetIsLeaves(t.nodes, p);
        var value := t.func(p);
        ghost var before := cells[..];
        StampLeaves(t, leaves, value);
        NextPainted(t, a, done, p, before, cells[..]);
        done := done + {p};
        todo := todo - {p};
      }
      assert done == pruned;
    }

    /** Writes `value` into the cell of every leaf in `leaves`. */
    method StampLeaves<M>(t: Layout<M, V>, leaves: set<nat>, value: V)
      requires Ready(t, cells.Length)
      requires forall l :: l in leaves ==> l < |t.nodes| && IsLeaf(t.nodes[l])
      modifies cells
      ensures forall c :: 0 <= c < cells.Length ==>
        cells[c] == if c in CellsOf(t, leaves) then value else old(cells[c])
    {
      var todo := leaves;
      ghost var done: set<nat> := {};
      while todo != {}
        invariant todo <= leaves && done == leaves - todo
        invariant forall c :: 0 <= c < cells.Length ==>
          cells[c] == if c in CellsOf(t, done) then value else old(cells[c])
        decreases todo
      {
        var l :| l in todo;
        cells[CellOf(t, l)] := value;
        CellsOfAdd(t, done, l);
        done := done + {l};
        todo := todo - {l};
      }
    }
  }

  /** `m` is the smallest member of `s`. */
  predicate Least(m: nat, s: set<nat>)
  {
    m in s && forall y :: y in s ==> m <= y
  }

  /** The smallest member of a nonempty set of ids. */
  method Smallest(s: set<nat>) returns (m: nat)
    requires s != {}
    ensures Least(m, s)
  {
    HasSmallest(s);
    m :| Least(m, s);
  }

  lemma {:induction false} HasSmallest(s: set<nat>)
    requires s != {}
    ensures exists m :: Least(m, s)
  {
    var x :| x in s;
    var rest := s - {x};
    if rest == {} {
      forall y | y in s
        ensures x <= y
      {
        assert y !in rest;
      }
      assert Least(x, s);
    } else {
      HasSmallest(rest);
      var m :| Least(m, rest);
      var low := if x < m then x else m;
      forall y | y in s
        ensures low <= y
      {
        if y != x {
          assert y in rest;
        }
      }
      assert Least(low, s);
    }
  }

  lemma CellsOfAdd<M, V>(t: Layout<M, V>, s: set<nat>, l: nat)
    requires l < |t.nodes| && IsLeaf(t.nodes[l])
    ensures CellsOf(t, s + {l}) == CellsOf(t, s) + {CellOf(t, l)}
  {
  }

  /** Stamping the next pruned node, larger than every one done, extends
   *  the painting by one step. */
  lemma NextPainted<M, V>(t: Layout<M, V>, a: seq<V>, done: set<nat>, p: nat, before: seq<V>, after: seq<V>)
    requires WellFormed(t.nodes) && InArena(t.nodes, done) && p < |t.nodes| && p !in done
    requires forall d :: d in done ==> d < p
    requires before == Painted(t, a, done) && |after| == |before|
    requires forall c :: 0 <= c < |after| ==>
      after[c] == if c in CellsOf(t, LeafSet(t.nodes, p)) then t.func(p) else before[c]
    ensures after == Painted(t, a, done + {p})
  {
    assert Largest(done + {p}) == p;
    assert done + {p} - {p} == done;
  }

  /** getRegionsInSlice (three dimensions, cells holding node ids): the
   *  slice is scanned row by row; each region not yet in `regions` is
   *  inserted and its subnodes added to a running sum, which is finally
   *  divided by the size of the grown set. The set is the caller's and is
   *  returned grown. */
  method RegionsInSlice(ds: DataSource<nat>, subnodes: nat -> nat, slice: nat, regions: set<nat>)
    returns (avg: Option<real>, grown: set<nat>)
    requires ds.Valid() && |ds.extents| == 3 && slice < ds.extents[0]
    ensures grown == regions + Elems(SliceRows(ds.cells[..], ds.extents, slice, ds.extents[1]))
    ensures avg == RegionsAverage(ds.cells[..], ds.extents, slice, regions, subnodes)
  {
    var e := ds.extents;
    ghost var g := ds.cells[..];
    var tmp := 0.0;
    grown := regions;
    ghost var prefix: seq<nat> := [];
    assert Elems([]) == {};
    var j := 0;
    while j < e[1]
      invariant 0 <= j <= e[1] && prefix == SliceRows(g, e, slice, j)
      invariant grown == regions + Elems(prefix)
      invariant tmp == NewSubnodes(prefix, regions, subnodes) as real
    {
      grown, tmp := ScanRow(ds, subnodes, slice, j, regions, prefix, grown, tmp);
      prefix := prefix + SliceRow(g, e, slice, j);
      j := j + 1;
    }
    assert g == ds.cells[..] && j == e[1];
    if |grown| == 0 {
      return None, grown;
    }
    avg := Some(tmp / |grown| as real);
  }

  /** The inner loop of getRegionsInSlice over row j of the slice. */
  method ScanRow(ds: DataSource<nat>, subnodes: nat -> nat, slice: nat, j: nat, regions: set<nat>,
                 ghost before: seq<nat>, grown: set<nat>, tmp: real)
    returns (grown': set<nat>, tmp': real)
    requires ds.Valid() && |ds.extents| == 3 && slice < ds.extents[0] && j < ds.extents[1]
    requires grown == regions + Elems(before) && tmp == NewSubnodes(before, regions, subnodes) as real
    ensures var xs := before + SliceRow(ds.cells[..], ds.extents, slice, j);
      grown' == regions + Elems(xs) && tmp' == NewSubnodes(xs, regions, subnodes) as real
  {
    var e := ds.extents;
    ghost var row := SliceRow(ds.cells[..], e, slice, j);
    ghost var prefix := before;
    grown', tmp' := grown, tmp;
    var k := 0;
    assert row[..0] == [] && before + [] == before;
    while k < e[2]
      invariant 0 <= k <= e[2] && prefix == before + row[..k]
      invariant grown' == regions + Elems(prefix)
      invariant tmp' == NewSubnodes(prefix, regions, subnodes) as real
    {
      var v := ds.cells[Index3(e, slice, j, k)];
      assert before + row[..k + 1] == prefix + [v];
      ScanStep(prefix, v, regions, subnodes);
      if v !in grown' {
        grown' := grown' + {v};
        tmp' := tmp' + subnodes(v) as real;
      }
      prefix := prefix + [v];
      k := k + 1;
    }
    assert row[..k] == row;
  }

  /** One cell of the scan: the region joins the set, and its subnodes
   *  count when it is new. */
  lemma ScanStep(prefix: seq<nat>, v: nat, regions: set<nat>, subnodes: nat -> nat)
    ensures regions + Elems(prefix + [v]) == (regions + Elems(prefix)) + {v}
    ensures NewSubnodes(prefix + [v], regions, subnodes) ==
      NewSubnodes(prefix, regions, subnodes) + if v in regions + Elems(prefix) then 0 else subnodes(v)
  {
    ElemsAppend(prefix, v);
    assert (prefix + [v])[..|prefix|] == prefix;
  }

  /** The climb of the leaf-iterator populateLeaves. */
  method ClimbLoop<M>(nodes: seq<Node<M>>, leaf: nat, pruned: set<nat>) returns (np: nat)
    requires WellFormed(nodes) && leaf < |nodes|
    ensures np == Climb(nodes, leaf, pruned)
  {
    np := leaf;
    while np !in pruned && nodes[np].father.Some?
      invariant np < |nodes| && Climb(nodes, np, pruned) == Climb(nodes, leaf, pruned)
      decreases |nodes| - np
    {
      assert NodeOk(nodes, np);
      np := nodes[np].father.value;
    }
  }

  /** addLeaves: a leaf is inserted, an inner node recurses into both
   *  children. */
  method AddLeaves<M>(nodes: seq<Node<M>>, np: nat, leaves: set<nat>) returns (r: set<nat>)
    requires WellFormed(nodes) && np < |nodes|
    ensures r == leaves + LeafSet(nodes, np)
    decreases np
  {
    assert NodeOk(nodes, np);
    if IsLeaf(nodes[np]) {
      r := leaves + {np};
    } else {
      r := AddLeaves(nodes, nodes[np].left.value, leaves);
      r := AddLeaves(nodes, nodes[np].right.value, r);
    }
  }
}
