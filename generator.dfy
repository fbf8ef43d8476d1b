/** DenseWRAGGenerator: builds the weighted region adjacency graph of a
 *  dense grid. One leaf node is created per grid cell, in input order;
 *  `generateWRAG` then gives each cell one dissimilarity per neighbourhood
 *  offset that stays inside the grid.
 *
 *  The leaves of cell `c` is node `base + c` of the node store. Created
 *  dissimilarities go into an arena `edges` under consecutive keys from
 *  `nextEdge`, as in the construction engine. The generator uses the Full
 *  checking policy. */
module DenseWRAGGenerator {
  import opened Wrappers
  import opened Dissimilarity
  import opened BPTNode
  import opened GridIndex
  import opened CheckingPolicy

  /** One created dissimilarity, from cell `i` to cell `j`: inserted into
   *  `i`'s set and, when `both`, into `j`'s set as well. */
  datatype Link = Link(i: nat, j: nat, both: bool)

  predicate LinksFit(links: seq<Link>, cells: nat)
  {
    forall k :: 0 <= k < |links| ==> links[k].i < cells && links[k].j < cells
  }

  /** Link `l` puts its dissimilarity into node `x`'s set. */
  predicate Touches(l: Link, base: nat, x: nat)
  {
    base + l.i == x || (l.both && base + l.j == x)
  }

  /** The leaves the constructors create, one per input, in order. */
  function Leaves<M>(inputs: seq<M>): (r: seq<Node<M>>)
    ensures |r| == |inputs|
    ensures forall k :: 0 <= k < |r| ==> r[k] == Node(inputs[k], None, None, None, {})
  {
    seq(|inputs|, k requires 0 <= k < |inputs| => Node(inputs[k], None, None, None, {}))
  }

  /** The insertions of one link with key `e`. */
  function InsertLink<M>(ns: seq<Node<M>>, e: nat, a: nat, b: nat, both: bool): (r: seq<Node<M>>)
    requires a < |ns| && b < |ns|
    ensures |r| == |ns|
  {
    var n1 := ns[a := ns[a].(diss := ns[a].diss + {e})];
    if both then n1[b := n1[b].(diss := n1[b].diss + {e})] else n1
  }

  /** The node sets after inserting `links` in order, the k-th under key
   *  `e0 + k`. */
  function Inserted<M>(ns: seq<Node<M>>, base: nat, e0: nat, links: seq<Link>): (r: seq<Node<M>>)
    requires base <= |ns| && LinksFit(links, |ns| - base)
    ensures |r| == |ns|
  {
    if |links| == 0 then ns
    else
      var l := links[|links| - 1];
      InsertLink(Inserted(ns, base, e0, links[..|links| - 1]), e0 + |links| - 1, base + l.i, base + l.j, l.both)
  }

  /** The arena after creating `links` in order, the values measured on the
   *  models of `ns`. */
  function Created<M>(E: map<nat, Diss>, e0: nat, base: nat, links: seq<Link>, ns: seq<Node<M>>,
                      d: (M, M) -> real): map<nat, Diss>
    requires base <= |ns| && LinksFit(links, |ns| - base)
  {
    if |links| == 0 then E
    else
      var l := links[|links| - 1];
      var a, b := base + l.i, base + l.j;
      Created(E, e0, base, links[..|links| - 1], ns, d)[e0 + |links| - 1 := Diss(a, b, d(ns[a].model, ns[b].model))]
  }

  /** The arena `edges`, the next key and the nodes `ns` are those of
   *  `E0`, `e0` and `n0` after creating `links` between the cells of the
   *  leaves from `base` on. */
  ghost predicate Generated<M>(E0: map<nat, Diss>, e0: nat, n0: seq<Node<M>>, base: nat, cells: nat,
                               links: seq<Link>, d: (M, M) -> real,
                               edges: map<nat, Diss>, next: nat, ns: seq<Node<M>>)
  {
    |n0| == |ns| && base + cells <= |n0| && LinksFit(links, cells) &&
    next == e0 + |links| && edges == Created(E0, e0, base, links, n0, d) &&
    ns == Inserted(n0, base, e0, links)
  }

  /** Creating one more link extends the arena by its key and the node sets
   *  by its insertions. */
  lemma GeneratedSnoc<M>(E0: map<nat, Diss>, e0: nat, n0: seq<Node<M>>, base: nat, cells: nat,
                         links: seq<Link>, l: Link, d: (M, M) -> real,
                         edges: map<nat, Diss>, next: nat, ns: seq<Node<M>>)
    requires Generated(E0, e0, n0, base, cells, links, d, edges, next, ns) && l.i < cells && l.j < cells
    ensures Generated(E0, e0, n0, base, cells, links + [l], d,
                      edges[next := Diss(base + l.i, base + l.j, d(n0[base + l.i].model, n0[base + l.j].model))],
                      next + 1, InsertLink(ns, next, base + l.i, base + l.j, l.both))
  {
    var after := links + [l];
    assert after[..|links|] == links && after[|links|] == l;
  }

  /** Inserting dissimilarities changes no father, child or model. */
  lemma {:induction false} InsertedShape<M>(ns: seq<Node<M>>, base: nat, e0: nat, links: seq<Link>)
    requires base <= |ns| && LinksFit(links, |ns| - base)
    ensures Shape(Inserted(ns, base, e0, links)) == Shape(ns)
    decreases |links|
  {
    if |links| > 0 {
      InsertedShape(ns, base, e0, links[..|links| - 1]);
    }
  }

  /** Node `x` ends up with its own dissimilarities plus the key of every
   *  link that touches it, and no other. */
  lemma {:induction false} InsertedSets<M>(ns: seq<Node<M>>, base: nat, e0: nat, links: seq<Link>, x: nat, e: nat)
    requires base <= |ns| && LinksFit(links, |ns| - base) && x < |ns|
    ensures e in Inserted(ns, base, e0, links)[x].diss <==>
            e in ns[x].diss || (e0 <= e < e0 + |links| && Touches(links[e - e0], base, x))
    decreases |links|
  {
    if |links| > 0 {
      var init := links[..|links| - 1];
      InsertedSets(ns, base, e0, init, x, e);
      if e0 <= e < e0 + |init| {
        assert links[e - e0] == init[e - e0];
      }
    }
  }

  /** The arena gains exactly the keys e0 .. e0+|links|-1, the k-th holding
   *  the k-th link's dissimilarity, and keeps every older entry. */
  lemma {:induction false} CreatedEdges<M>(E: map<nat, Diss>, e0: nat, base: nat, links: seq<Link>,
                                           ns: seq<Node<M>>, d: (M, M) -> real)
    requires base <= |ns| && LinksFit(links, |ns| - base)
    requires forall k :: k in E ==> k < e0
    ensures forall e :: e in Created(E, e0, base, links, ns, d) <==> e in E || e0 <= e < e0 + |links|
    ensures forall e :: e in E ==> Created(E, e0, base, links, ns, d)[e] == E[e]
    ensures forall k :: 0 <= k < |links| ==>
              Created(E, e0, base, links, ns, d)[e0 + k] ==
              Diss(base + links[k].i, base + links[k].j, d(ns[base + links[k].i].model, ns[base + links[k].j].model))
    decreases |links|
  {
    if |links| > 0 {
      var init := links[..|links| - 1];
      CreatedEdges(E, e0, base, init, ns, d);
      forall k | 0 <= k < |init|
        ensures links[k] == init[k]
      {
      }
    }
  }

  /** Every offset has one coordinate per dimension. */
  predicate OffsetsFit(dims: seq<nat>, offs: seq<seq<int>>)
  {
    forall k :: 0 <= k < |offs| ==> |offs[k]| == |dims|
  }

  /** The forward offsets, in order: those with a positive linear index. */
  function Forward(dims: seq<nat>, offs: seq<seq<int>>): (r: seq<seq<int>>)
    requires OffsetsFit(dims, offs)
    ensures OffsetsFit(dims, r) && |r| <= |offs|
  {
    if |offs| == 0 then []
    else
      var off := offs[|offs| - 1];
      var prev := Forward(dims, offs[..|offs| - 1]);
      if Linear(dims, off) > 0 then prev + [off] else prev
  }

  /** An offset is kept iff it is one of the given ones with a positive
   *  linear index. */
  lemma {:induction false} ForwardMembers(dims: seq<nat>, offs: seq<seq<int>>, off: seq<int>)
    requires OffsetsFit(dims, offs)
    ensures off in Forward(dims, offs) <==> off in offs && |off| == |dims| && Linear(dims, off) > 0
    decreases |offs|
  {
    if |offs| > 0 {
      var init := offs[..|offs| - 1];
      ForwardMembers(dims, init, off);
      assert offs == init + [offs[|offs| - 1]];
    }
  }

  /** Offsets all pointing forward are all kept. */
  lemma {:induction false} ForwardAll(dims: seq<nat>, offs: seq<seq<int>>)
    requires OffsetsFit(dims, offs) && forall t :: 0 <= t < |offs| ==> Linear(dims, offs[t]) > 0
    ensures Forward(dims, offs) == offs
    decreases |offs|
  {
    if |offs| > 0 {
      ForwardAll(dims, offs[..|offs| - 1]);
    }
  }

  /** Offsets none of which points forward are all dropped. */
  lemma {:induction false} ForwardNone(dims: seq<nat>, offs: seq<seq<int>>)
    requires OffsetsFit(dims, offs) && forall t :: 0 <= t < |offs| ==> Linear(dims, offs[t]) <= 0
    ensures Forward(dims, offs) == []
    decreases |offs|
  {
    if |offs| > 0 {
      ForwardNone(dims, offs[..|offs| - 1]);
    }
  }

  /** Extending a prefix by one offset keeps it if it points forward. */
  lemma ForwardStep(dims: seq<nat>, offs: seq<seq<int>>, j: nat)
    requires j < |offs| && OffsetsFit(dims, offs[..j]) && |offs[j]| == |dims|
    ensures OffsetsFit(dims, offs[..j + 1])
    ensures Forward(dims, offs[..j + 1]) ==
      Forward(dims, offs[..j]) + if Linear(dims, offs[j]) > 0 then [offs[j]] else []
  {
    assert offs[..j + 1][..j] == offs[..j] && offs[..j + 1][j] == offs[j];
  }

  /** Filtering distributes over concatenation. */
  lemma {:induction false} ForwardConcat(dims: seq<nat>, a: seq<seq<int>>, b: seq<seq<int>>)
    requires OffsetsFit(dims, a) && OffsetsFit(dims, b)
    ensures OffsetsFit(dims, a + b)
    ensures Forward(dims, a + b) == Forward(dims, a) + Forward(dims, b)
    decreases |b|
  {
    if |b| > 0 {
      var init := b[..|b| - 1];
      ForwardConcat(dims, a, init);
      assert (a + b)[..|a + b| - 1] == a + init;
    } else {
      assert a + b == a;
    }
  }

  /** The offsets generation uses: the forward ones for a symmetric
   *  measure, all of them otherwise. */
  function Kept(dims: seq<nat>, offs: seq<seq<int>>, symmetric: bool): (r: seq<seq<int>>)
    requires OffsetsFit(dims, offs)
    ensures OffsetsFit(dims, r)
  {
    if symmetric then Forward(dims, offs) else offs
  }

  /** The cell an offset with a valid neighbour reaches from cell `i`. */
  function Target(dims: seq<nat>, i: nat, off: seq<int>): (r: nat)
    requires i < Product(dims) && |off| == |dims|
    requires ValidNeighbor(dims, PosVector(dims, i), off)
    ensures r < Product(dims) && r == i + Linear(dims, off)
    ensures PosVector(dims, r) == Shift(PosVector(dims, i), off)
  {
    NeighborCell(dims, i, off);
    i + Linear(dims, off)
  }

  /** The links of cell `i`, one per offset with a valid neighbour, in
   *  offset order. */
  function CellLinks(dims: seq<nat>, offs: seq<seq<int>>, i: nat, both: bool): (r: seq<Link>)
    requires i < Product(dims) && OffsetsFit(dims, offs)
    ensures LinksFit(r, Product(dims))
  {
    if |offs| == 0 then []
    else
      var off := offs[|offs| - 1];
      var prev := CellLinks(dims, offs[..|offs| - 1], i, both);
      if ValidNeighbor(dims, PosVector(dims, i), off) then prev + [Link(i, Target(dims, i, off), both)]
      else prev
  }

  /** One more offset of the prefix adds at most its own link. */
  lemma CellLinksPrefix(dims: seq<nat>, offs: seq<seq<int>>, i: nat, both: bool, k: nat)
    requires i < Product(dims) && OffsetsFit(dims, offs) && k < |offs|
    ensures OffsetsFit(dims, offs[..k + 1])
    ensures CellLinks(dims, offs[..k + 1], i, both) ==
            CellLinks(dims, offs[..k], i, both) +
            if ValidNeighbor(dims, PosVector(dims, i), offs[k]) then [Link(i, Target(dims, i, offs[k]), both)] else []
  {
    assert offs[..k + 1][..k] == offs[..k] && offs[..k + 1][k] == offs[k];
  }

  /** The links of cells 0 .. n-1, cell by cell. */
  function WragLinks(dims: seq<nat>, offs: seq<seq<int>>, n: nat, both: bool): (r: seq<Link>)
    requires n <= Product(dims) && OffsetsFit(dims, offs)
    ensures LinksFit(r, Product(dims))
  {
    if n == 0 then [] else WragLinks(dims, offs, n - 1, both) + CellLinks(dims, offs, n - 1, both)
  }

  /** A link joins a cell to the cell one of the offsets reaches from it;
   *  that neighbour's coordinates are the cell's shifted by the offset. */
  ghost predicate GenuineLink(dims: seq<nat>, offs: seq<seq<int>>, l: Link, both: bool)
    requires OffsetsFit(dims, offs)
  {
    l.i < Product(dims) && l.j < Product(dims) && l.both == both &&
    exists k :: 0 <= k < |offs| && ValidNeighbor(dims, PosVector(dims, l.i), offs[k]) &&
                l.j == l.i + Linear(dims, offs[k]) &&
                PosVector(dims, l.j) == Shift(PosVector(dims, l.i), offs[k])
  }

  /** Every link starts at a cell in [lo, hi) and is genuine. */
  ghost predicate GenuineFrom(dims: seq<nat>, offs: seq<seq<int>>, links: seq<Link>, lo: nat, hi: nat, both: bool)
    requires OffsetsFit(dims, offs)
  {
    forall t :: 0 <= t < |links| ==> lo <= links[t].i < hi && GenuineLink(dims, offs, links[t], both)
  }

  lemma {:induction false} CellLinksSound(dims: seq<nat>, offs: seq<seq<int>>, i: nat, both: bool)
    requires i < Product(dims) && OffsetsFit(dims, offs)
    ensures GenuineFrom(dims, offs, CellLinks(dims, offs, i, both), i, i + 1, both)
    decreases |offs|
  {
    if |offs| > 0 {
      var init := offs[..|offs| - 1];
      var off := offs[|offs| - 1];
      CellLinksSound(dims, init, i, both);
      var r := CellLinks(dims, offs, i, both);
      forall t | 0 <= t < |r|
        ensures r[t].i == i && GenuineLink(dims, offs, r[t], both)
      {
        var prev := CellLinks(dims, init, i, both);
        if t < |prev| {
          assert r[t] == prev[t];
          var k :| 0 <= k < |init| && ValidNeighbor(dims, PosVector(dims, i), init[k]) &&
                   prev[t].j == i + Linear(dims, init[k]) &&
                   PosVector(dims, prev[t].j) == Shift(PosVector(dims, i), init[k]);
          assert init[k] == offs[k];
        } else {
          NeighborCell(dims, i, off);
          assert offs[|offs| - 1] == off;
        }
      }
    }
  }

  /** Soundness of generation: every link joins a cell below `n` to a
   *  neighbour inside the grid through one of the offsets. */
  lemma WragLinksSound(dims: seq<nat>, offs: seq<seq<int>>, n: nat, both: bool)
    requires n <= Product(dims) && OffsetsFit(dims, offs)
    ensures GenuineFrom(dims, offs, WragLinks(dims, offs, n, both), 0, n, both)
  {
    forall t | 0 <= t < |WragLinks(dims, offs, n, both)|
      ensures WragLinks(dims, offs, n, both)[t].i < n && GenuineLink(dims, offs, WragLinks(dims, offs, n, both)[t], both)
    {
      var c, u := WragLinkCell(dims, offs, n, both, t);
      CellLinksSound(dims, offs, c, both);
    }
  }

  /** The link at position t of the links of the cells below n is the
   *  link at position u of some cell c below n. */
  lemma {:induction false} WragLinkCell(dims: seq<nat>, offs: seq<seq<int>>, n: nat, both: bool, t: nat)
    returns (c: nat, u: nat)
    requires n <= Product(dims) && OffsetsFit(dims, offs) && t < |WragLinks(dims, offs, n, both)|
    ensures c < n && u < |CellLinks(dims, offs, c, both)|
    ensures CellLinks(dims, offs, c, both)[u] == WragLinks(dims, offs, n, both)[t]
    decreases n
  {
    var prev, cell := WragLinks(dims, offs, n - 1, both), CellLinks(dims, offs, n - 1, both);
    assert WragLinks(dims, offs, n, both) == prev + cell;
    if t < |prev| {
      c, u := WragLinkCell(dims, offs, n - 1, both, t);
      assert WragLinks(dims, offs, n, both)[t] == prev[t];
    } else {
      c, u := n - 1, t - |prev|;
      assert WragLinks(dims, offs, n, both)[t] == cell[u];
    }
  }

  lemma {:induction false} CellLinksComplete(dims: seq<nat>, offs: seq<seq<int>>, i: nat, both: bool, k: nat)
    requires i < Product(dims) && OffsetsFit(dims, offs)
    requires k < |offs| && ValidNeighbor(dims, PosVector(dims, i), offs[k])
    ensures Link(i, Target(dims, i, offs[k]), both) in CellLinks(dims, offs, i, both)
    decreases |offs|
  {
    var init := offs[..|offs| - 1];
    if k < |offs| - 1 {
      assert init[k] == offs[k];
      CellLinksComplete(dims, init, i, both, k);
    }
  }

  /** Completeness of generation: every cell below `n` gets a link to the
   *  cell each offset with a valid neighbour reaches. */
  lemma WragLinksComplete(dims: seq<nat>, offs: seq<seq<int>>, n: nat, both: bool, i: nat, k: nat)
    requires n <= Product(dims) && OffsetsFit(dims, offs)
    requires i < n && k < |offs| && ValidNeighbor(dims, PosVector(dims, i), offs[k])
    ensures Link(i, Target(dims, i, offs[k]), both) in WragLinks(dims, offs, n, both)
  {
    var l := Link(i, Target(dims, i, offs[k]), both);
    CellLinksComplete(dims, offs, i, both, k);
    var u :| 0 <= u < |CellLinks(dims, offs, i, both)| && CellLinks(dims, offs, i, both)[u] == l;
    var t := WragLinksContain(dims, offs, n, both, i, u);
  }

  /** Link u of cell i sits at position t of the links of the cells below
   *  n > i. */
  lemma {:induction false} WragLinksContain(dims: seq<nat>, offs: seq<seq<int>>, n: nat, both: bool, i: nat, u: nat)
    returns (t: nat)
    requires n <= Product(dims) && OffsetsFit(dims, offs)
    requires i < n && u < |CellLinks(dims, offs, i, both)|
    ensures t < |WragLinks(dims, offs, n, both)| && WragLinks(dims, offs, n, both)[t] == CellLinks(dims, offs, i, both)[u]
    decreases n, 1
  {
    if i == n - 1 {
      t := WragCellAt(dims, offs, n, both, u);
    } else {
      t := WragLinksContainBelow(dims, offs, n, both, i, u);
    }
  }

  /** The case of WragLinksContain where i is below the last cell n - 1. */
  lemma {:induction false} WragLinksContainBelow(dims: seq<nat>, offs: seq<seq<int>>, n: nat, both: bool, i: nat, u: nat)
    returns (t: nat)
    requires n <= Product(dims) && OffsetsFit(dims, offs)
    requires i + 1 < n && u < |CellLinks(dims, offs, i, both)|
    ensures t < |WragLinks(dims, offs, n, both)| && WragLinks(dims, offs, n, both)[t] == CellLinks(dims, offs, i, both)[u]
    decreases n, 0
  {
    t := WragLinksContain(dims, offs, n - 1, both, i, u);
    WragPrefixAt(dims, offs, n, both, t);
  }

  /** The links of cell n - 1 follow those of the cells below it. */
  lemma WragCellAt(dims: seq<nat>, offs: seq<seq<int>>, n: nat, both: bool, u: nat) returns (t: nat)
    requires 0 < n <= Product(dims) && OffsetsFit(dims, offs)
    requires u < |CellLinks(dims, offs, n - 1, both)|
    ensures t < |WragLinks(dims, offs, n, both)| && WragLinks(dims, offs, n, both)[t] == CellLinks(dims, offs, n - 1, both)[u]
  {
    t := |WragLinks(dims, offs, n - 1, both)| + u;
  }

  /** Adding cell n - 1 keeps the links of the cells below it in place. */
  lemma WragPrefixAt(dims: seq<nat>, offs: seq<seq<int>>, n: nat, both: bool, t: nat)
    requires 0 < n <= Product(dims) && OffsetsFit(dims, offs)
    requires t < |WragLinks(dims, offs, n - 1, both)|
    ensures t < |WragLinks(dims, offs, n, both)|
    ensures WragLinks(dims, offs, n, both)[t] == WragLinks(dims, offs, n - 1, both)[t]
  {
  }

  /** With a symmetric measure every link points forward, so no pair of
   *  cells is joined from both ends by the same offset pair. */
  lemma ForwardLinksAscend(dims: seq<nat>, offs: seq<seq<int>>, n: nat)
    requires n <= Product(dims) && OffsetsFit(dims, offs)
    ensures forall t :: 0 <= t < |WragLinks(dims, Forward(dims, offs), n, true)| ==>
              WragLinks(dims, Forward(dims, offs), n, true)[t].i < WragLinks(dims, Forward(dims, offs), n, true)[t].j
  {
    var fw := Forward(dims, offs);
    WragLinksSound(dims, fw, n, true);
    var r := WragLinks(dims, fw, n, true);
    forall t | 0 <= t < |r|
      ensures r[t].i < r[t].j
    {
      var k :| 0 <= k < |fw| && ValidNeighbor(dims, PosVector(dims, r[t].i), fw[k]) &&
               r[t].j == r[t].i + Linear(dims, fw[k]) &&
               PosVector(dims, r[t].j) == Shift(PosVector(dims, r[t].i), fw[k]);
      ForwardMembers(dims, offs, fw[k]);
    }
  }

  /** generateWRAG_2D_Connectivity8's neighbourhood, in its order. */
  function Stencil8(): seq<seq<int>>
  {
    [[-1, -1], [-1, 0], [-1, 1], [0, -1], [0, 1], [1, -1], [1, 0], [1, 1]]
  }

  /** For a symmetric measure on a grid with at least two columns, the
   *  8-connectivity keeps the east, south-west, south and south-east
   *  offsets. */
  lemma Stencil8Forward(rows: nat, cols: nat)
    requires cols > 1
    ensures OffsetsFit([rows, cols], Stencil8())
    ensures Forward([rows, cols], Stencil8()) == [[0, 1], [1, -1], [1, 0], [1, 1]]
  {
    var dims := [rows, cols];
    assert dims[1..] == [cols] && [cols][1..] == [];
    assert Product([cols]) == cols;
    forall a: int, b: int
      ensures Linear(dims, [a, b]) == a * cols + b
    {
      assert [a, b][1..] == [b] && [b][1..] == [];
      assert Linear([cols], [b]) == b;
    }
    var s := Stencil8();
    assert Linear(dims, s[0]) < 0 && Linear(dims, s[1]) < 0 && Linear(dims, s[2]) < 0 && Linear(dims, s[3]) < 0;
    assert Linear(dims, s[4]) > 0 && Linear(dims, s[5]) > 0 && Linear(dims, s[6]) > 0 && Linear(dims, s[7]) > 0;
    assert s == s[..4] + s[4..];
    ForwardNone(dims, s[..4]);
    ForwardAll(dims, s[4..]);
    ForwardConcat(dims, s[..4], s[4..]);
  }

  class Generator<M> {
    const store: NodeStore<M>
    const dims: seq<nat>
    const total: nat
    const base: nat
    const data: seq<nat>
    var edges: map<nat, Diss>
    var nextEdge: nat

    /** Cell `c` is the leaf `base + c` of the store; every arena key is
     *  below `nextEdge`. */
    ghost predicate Valid()
      reads this, store
    {
      |dims| > 0 && total == Product(dims) && |data| == total && base + total <= |store.nodes| &&
      (forall c :: 0 <= c < total ==> data[c] == base + c) &&
      (forall k :: k in edges ==> k < nextEdge)
    }

    constructor Init(store: NodeStore<M>, dims: seq<nat>, total: nat, base: nat, data: seq<nat>)
      ensures this.store == store && this.dims == dims && this.total == total
      ensures this.base == base && this.data == data && edges == map[] && nextEdge == 0
    {
      this.store, this.dims, this.total, this.base, this.data := store, dims, total, base, data;
      edges, nextEdge := map[], 0;
    }

    /** The constructor over an input range and a dimension vector: the
     *  total comes first (`at(0)` throws on no dimensions), then one leaf
     *  per input, then sizeMatches. */
    static method New(store: NodeStore<M>, inputs: seq<M>, dims: seq<nat>) returns (r: Result<Generator<M>, Failure>)
      modifies store
      ensures |dims| == 0 ==> r == Err(OutOfRange) && store.nodes == old(store.nodes)
      ensures |dims| > 0 ==> store.nodes == old(store.nodes) + Leaves(inputs)
      ensures |dims| > 0 ==> (r.Err? <==> |inputs| != Product(dims)) && (r.Err? ==> r.error == LengthError)
      ensures r.Ok? ==> fresh(r.value) && r.value.Valid() && r.value.store == store && r.value.dims == dims
      ensures r.Ok? ==> r.value.base == |old(store.nodes)| && r.value.edges == map[] && r.value.nextEdge == 0
    {
      var total := SetTotal(dims);
      if total.None? {
        return Err(OutOfRange);
      }
      var base := |store.nodes|;
      var data: seq<nat> := [];
      var k := 0;
      while k < |inputs|
        invariant 0 <= k <= |inputs| && |data| == k
        invariant store.nodes == old(store.nodes) + Leaves(inputs[..k])
        invariant forall c :: 0 <= c < k ==> data[c] == base + c
      {
        var id := store.CreateLeaf(inputs[k]);
        assert Leaves(inputs[..k + 1]) == Leaves(inputs[..k]) + [Node(inputs[k], None, None, None, {})];
        data := data + [id];
        k := k + 1;
      }
      assert inputs[..k] == inputs;
      var check := SizeMatches(Full, |data|, dims);
      if check.Some? {
        return Err(check.value);
      }
      var g := new Generator<M>.Init(store, dims, total.value, base, data);
      r := Ok(g);
    }

    /** The (first, last, rows) constructor: a one-dimensional grid. */
    static method New1D(store: NodeStore<M>, inputs: seq<M>, rows: nat) returns (r: Result<Generator<M>, Failure>)
      modifies store
      ensures store.nodes == old(store.nodes) + Leaves(inputs)
      ensures r.Err? <==> |inputs| != rows
      ensures r.Ok? ==> fresh(r.value) && r.value.Valid() && r.value.store == store && r.value.dims == [rows]
    {
      assert Product([rows]) == rows by {
        assert [rows][1..] == [];
      }
      r := New(store, inputs, [rows]);
    }

    /** The (first, last, rows, cols) constructor. */
    static method New2D(store: NodeStore<M>, inputs: seq<M>, rows: nat, cols: nat) returns (r: Result<Generator<M>, Failure>)
      modifies store
      ensures store.nodes == old(store.nodes) + Leaves(inputs)
      ensures r.Err? <==> |inputs| != rows * cols
      ensures r.Ok? ==> fresh(r.value) && r.value.Valid() && r.value.store == store && r.value.dims == [rows, cols]
    {
      assert Product([rows, cols]) == rows * cols by {
        assert [rows, cols][1..] == [cols] && [cols][1..] == [];
        assert Product([cols]) == cols;
      }
      r := New(store, inputs, [rows, cols]);
    }

    /** The (first, last, rows, cols, slices) constructor: the slices are
     *  the slowest dimension. */
    static method New3D(store: NodeStore<M>, inputs: seq<M>, rows: nat, cols: nat, slices: nat)
      returns (r: Result<Generator<M>, Failure>)
      modifies store
      ensures store.nodes == old(store.nodes) + Leaves(inputs)
      ensures r.Err? <==> |inputs| != slices * (rows * cols)
      ensures r.Ok? ==> fresh(r.value) && r.value.Valid() && r.value.store == store && r.value.dims == [slices, rows, cols]
    {
      assert Product([slices, rows, cols]) == slices * (rows * cols) by {
        assert [slices, rows, cols][1..] == [rows, cols] && [rows, cols][1..] == [cols] && [cols][1..] == [];
        assert Product([cols]) == cols;
      }
      r := New(store, inputs, [slices, rows, cols]);
    }

    /** _checkNeighborhood: the first offset must have one coordinate per
     *  dimension; for a symmetric measure every offset whose linear index is
     *  not positive is erased, and an offset of the wrong length makes
     *  getLinearIndex throw. */
    method CheckNeighborhood(nbh: seq<seq<int>>, symmetric: bool) returns (r: Result<seq<seq<int>>, Failure>)
      requires |dims| > 0
      ensures |nbh| > 0 && |nbh[0]| != |dims| ==> r == Err(RuntimeError)
      ensures (|nbh| == 0 || |nbh[0]| == |dims|) && !symmetric ==> r == Ok(nbh)
      ensures (|nbh| == 0 || |nbh[0]| == |dims|) && symmetric ==>
                r == if OffsetsFit(dims, nbh) then Ok(Forward(dims, nbh)) else Err(RuntimeError)
    {
      if |nbh| == 0 {
        return Ok(nbh);
      }
      if |nbh[0]| != |dims| {
        return Err(RuntimeError);
      }
      if !symmetric {
        return Ok(nbh);
      }
      var cur := nbh;
      var it := 0;
      ghost var j := 0;
      while it < |cur|
        invariant 0 <= it <= |cur| && 0 <= j <= |nbh|
        invariant OffsetsFit(dims, nbh[..j]) && cur[..it] == Forward(dims, nbh[..j]) && cur[it..] == nbh[j..]
        decreases |nbh| - j
      {
        assert cur[it] == nbh[j];
        var lin := GetLinearIndex(dims, cur[it]);
        if lin.None? {
          assert !OffsetsFit(dims, nbh) by {
            assert |nbh[j]| != |dims|;
          }
          return Err(RuntimeError);
        }
        ForwardStep(dims, nbh, j);
        assert cur[it + 1..] == cur[it..][1..] && nbh[j + 1..] == nbh[j..][1..];
        if lin.value <= 0 {
          assert cur[..it] + cur[it + 1..] == cur[..it] + nbh[j + 1..];
          cur := cur[..it] + cur[it + 1..];
        } else {
          assert cur[..it + 1] == cur[..it] + [nbh[j]];
          it := it + 1;
        }
        j := j + 1;
      }
      assert j == |nbh| by {
        assert |cur[it..]| == 0;
      }
      assert nbh[..j] == nbh && cur[..it] == cur;
      r := Ok(cur);
    }

    /** The arena and the node sets are those of `n0` and `E0` after the
     *  links `done`, created from key `e0` on. */
    ghost predicate After(E0: map<nat, Diss>, e0: nat, n0: seq<Node<M>>, done: seq<Link>, d: (M, M) -> real)
      reads this, store
    {
      Generated(E0, e0, n0, base, total, done, d, edges, nextEdge, store.nodes)
    }

    /** One dissimilarity from cell `l.i` to cell `l.j` under the next key,
     *  measured on the two leaves' models. */
    method AddLink(ghost E0: map<nat, Diss>, ghost e0: nat, ghost n0: seq<Node<M>>, ghost done: seq<Link>,
                   l: Link, d: (M, M) -> real)
      requires Valid() && After(E0, e0, n0, done, d) && l.i < total && l.j < total
      modifies this, store
      ensures Valid() && After(E0, e0, n0, done + [l], d)
    {
      InsertedShape(n0, base, e0, done);
      var a, b := data[l.i], data[l.j];
      assert Shape(store.nodes)[a] == Shape(n0)[a] && Shape(store.nodes)[b] == Shape(n0)[b];
      ghost var ns := store.nodes;
      var e := nextEdge;
      edges := edges[e := Diss(a, b, d(store.nodes[a].model, store.nodes[b].model))];
      nextEdge := nextEdge + 1;
      store.SetDissimilarities(a, store.nodes[a].diss + {e});
      if l.both {
        store.SetDissimilarities(b, store.nodes[b].diss + {e});
      }
      assert store.nodes == InsertLink(ns, e, a, b, l.both);
      GeneratedSnoc(E0, e0, n0, base, total, done, l, d, old(edges), e, ns);
    }

    /** One pass of generateWRAG's inner loop: cell `i` and offset `k`. */
    method VisitOffset(ghost E0: map<nat, Diss>, ghost e0: nat, ghost n0: seq<Node<M>>, ghost done: seq<Link>,
                       offs: seq<seq<int>>, k: nat, i: nat, d: (M, M) -> real, symmetric: bool)
      requires Valid() && OffsetsFit(dims, offs) && k < |offs| && i < total
      requires After(E0, e0, n0, done + CellLinks(dims, offs[..k], i, symmetric), d)
      modifies this, store
      ensures Valid() && OffsetsFit(dims, offs[..k + 1])
      ensures After(E0, e0, n0, done + CellLinks(dims, offs[..k + 1], i, symmetric), d)
    {
      CellLinksPrefix(dims, offs, i, symmetric, k);
      ghost var sofar := CellLinks(dims, offs[..k], i, symmetric);
      var off := offs[k];
      var posV := GetPosVector(dims, total, i);
      var ok := IsValidNeighbor(dims, posV, off);
      if ok {
        var lin := GetLinearIndex(dims, off);
        var pos := i + lin.value;
        assert pos == Target(dims, i, off);
        AddLink(E0, e0, n0, done + sofar, Link(i, pos, symmetric), d);
        assert (done + sofar) + [Link(i, pos, symmetric)] == done + (sofar + [Link(i, pos, symmetric)]);
      } else {
        assert sofar + [] == sofar;
      }
    }

    /** The inner loop of generateWRAG for cell `i`: each offset in turn. */
    method GenerateCell(ghost E0: map<nat, Diss>, ghost e0: nat, ghost n0: seq<Node<M>>, ghost done: seq<Link>,
                        offs: seq<seq<int>>, i: nat, d: (M, M) -> real, symmetric: bool)
      returns (ghost links: seq<Link>)
      requires Valid() && OffsetsFit(dims, offs) && i < total && After(E0, e0, n0, done, d)
      modifies this, store
      ensures Valid() && After(E0, e0, n0, links, d)
      ensures links == done + CellLinks(dims, offs, i, symmetric)
    {
      assert offs[..0] == [] && done + [] == done;
      var k := 0;
      while k < |offs|
        invariant Valid() && 0 <= k <= |offs|
        invariant After(E0, e0, n0, done + CellLinks(dims, offs[..k], i, symmetric), d)
      {
        VisitOffset(E0, e0, n0, done, offs, k, i, d, symmetric);
        k := k + 1;
      }
      assert offs[..k] == offs;
      links := done + CellLinks(dims, offs, i, symmetric);
    }

    /** The outer loop of generateWRAG: every cell in turn. */
    method GenerateCells(ghost E0: map<nat, Diss>, ghost e0: nat, ghost n0: seq<Node<M>>,
                         offs: seq<seq<int>>, d: (M, M) -> real, symmetric: bool)
      returns (ghost links: seq<Link>)
      requires Valid() && OffsetsFit(dims, offs) && After(E0, e0, n0, [], d)
      modifies this, store
      ensures Valid() && After(E0, e0, n0, links, d)
      ensures links == WragLinks(dims, offs, total, symmetric)
    {
      links := [];
      var i := 0;
      while i < total
        invariant Valid() && 0 <= i <= total && After(E0, e0, n0, links, d)
        invariant links == WragLinks(dims, offs, i, symmetric)
      {
        assert WragLinks(dims, offs, i + 1, symmetric) == links + CellLinks(dims, offs, i, symmetric);
        links := GenerateCell(E0, e0, n0, links, offs, i, d, symmetric);
        i := i + 1;
      }
    }

    /** Creates the given links in order, one dissimilarity each. */
    method ApplyLinks(links: seq<Link>, d: (M, M) -> real)
      requires Valid() && LinksFit(links, total)
      modifies this, store
      ensures Valid() && nextEdge == old(nextEdge) + |links|
      ensures edges == Created(old(edges), old(nextEdge), base, links, old(store.nodes), d)
      ensures store.nodes == Inserted(old(store.nodes), base, old(nextEdge), links)
    {
      ghost var E0, e0, n0 := edges, nextEdge, store.nodes;
      var t := 0;
      while t < |links|
        invariant Valid() && 0 <= t <= |links| && After(E0, e0, n0, links[..t], d)
      {
        assert links[..t + 1] == links[..t] + [links[t]];
        AddLink(E0, e0, n0, links[..t], links[t], d);
        t := t + 1;
      }
      assert links[..t] == links;
    }

    /** generateWRAG: for every cell and every kept offset with a valid
     *  neighbour, one dissimilarity from the cell to the neighbour, in the
     *  cell's set and, for a symmetric measure, in the neighbour's set. */
    method GenerateWRAG(d: (M, M) -> real, symmetric: bool, nbh: seq<seq<int>>)
      returns (err: Option<Failure>, ghost links: seq<Link>)
      requires Valid()
      requires forall k :: 0 <= k < |nbh| ==> |nbh[k]| == |nbh[0]|
      modifies this, store
      ensures Valid()
      ensures err.Some? <==> |nbh| > 0 && |nbh[0]| != |dims|
      ensures err.Some? ==> edges == old(edges) && nextEdge == old(nextEdge) && store.nodes == old(store.nodes)
      ensures err.None? ==> (OffsetsFit(dims, nbh) &&
                             links == WragLinks(dims, Kept(dims, nbh, symmetric), total, symmetric))
      ensures err.None? ==> (nextEdge == old(nextEdge) + |links| &&
                             edges == Created(old(edges), old(nextEdge), base, links, old(store.nodes), d) &&
                             store.nodes == Inserted(old(store.nodes), base, old(nextEdge), links))
    {
      links := [];
      var checked := CheckNeighborhood(nbh, symmetric);
      if checked.Err? {
        return Some(checked.error), links;
      }
      err := None;
      links := GenerateCells(edges, nextEdge, store.nodes, checked.value, d, symmetric);
    }

    /** generateWRAG_2D_Connectivity8: generateWRAG over the eight
     *  surrounding offsets; it fails unless the grid is two-dimensional. */
    method Generate2D8(d: (M, M) -> real, symmetric: bool) returns (err: Option<Failure>, ghost links: seq<Link>)
      requires Valid()
      modifies this, store
      ensures Valid()
      ensures err.Some? <==> |dims| != 2
      ensures err.None? ==> (OffsetsFit(dims, Stencil8()) &&
                             links == WragLinks(dims, Kept(dims, Stencil8(), symmetric), total, symmetric))
      ensures err.None? ==> (nextEdge == old(nextEdge) + |links| &&
                             edges == Created(old(edges), old(nextEdge), base, links, old(store.nodes), d) &&
                             store.nodes == Inserted(old(store.nodes), base, old(nextEdge), links))
    {
      err, links := GenerateWRAG(d, symmetric, Stencil8());
    }
  }
}
