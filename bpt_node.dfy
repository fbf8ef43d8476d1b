/** BPTNode: a node of the Binary Partition Tree.
 *
 *  Nodes live in a `NodeStore` whose `nodes` sequence is indexed by node id:
 *  the static `next_id` counter of the source is `|nodes|`, so the id of a
 *  node is its position and ids grow in creation order from 0. A pointer to
 *  a node is its id; a null pointer is `None`. */
module BPTNode {
  import opened Wrappers
  import opened Dissimilarity

  datatype Node<M> = Node(model: M, father: Option<nat>, left: Option<nat>,
                          right: Option<nat>, diss: set<nat>)

  /** isLeaf: neither child is set. */
  predicate IsLeaf<M>(n: Node<M>)
  {
    n.left.None? && n.right.None?
  }

  /** The shape every node of the source's stores has: both children or
   *  none, children older than their father and naming it as father, and a
   *  father that names the node as one of its children. */
  ghost predicate NodeOk<M>(nodes: seq<Node<M>>, i: nat)
    requires i < |nodes|
  {
    var n := nodes[i];
    (n.father.Some? ==> i < n.father.value < |nodes|) &&
    (n.left.Some? <==> n.right.Some?) &&
    (n.left.Some? ==> n.left.value < i && nodes[n.left.value].father == Some(i)) &&
    (n.right.Some? ==> n.right.value < i && nodes[n.right.value].father == Some(i)) &&
    (n.father.Some? ==>
       nodes[n.father.value].left == Some(i) || nodes[n.father.value].right == Some(i))
  }

  ghost predicate WellFormed<M>(nodes: seq<Node<M>>)
  {
    forall i :: 0 <= i < |nodes| ==> NodeOk(nodes, i)
  }

  /** getSibling: null without a father, otherwise the father's child that
   *  is not this node. */
  function Sibling<M>(nodes: seq<Node<M>>, i: nat): (r: Option<nat>)
    requires i < |nodes|
    requires nodes[i].father.Some? ==> nodes[i].father.value < |nodes|
    ensures nodes[i].father.None? ==> r.None?
    ensures WellFormed(nodes) && nodes[i].father.Some? ==>
      r.Some? && r.value < |nodes| &&
      nodes[r.value].father == nodes[i].father &&
      (nodes[nodes[i].father.value].left != nodes[nodes[i].father.value].right ==> r.value != i)
  {
    assert WellFormed(nodes) ==> NodeOk(nodes, i);
    match nodes[i].father
    case None => None
    case Some(f) =>
      assert WellFormed(nodes) ==> NodeOk(nodes, f);
      if nodes[f].left != Some(i) then nodes[f].left else nodes[f].right
  }

  /** The ids of the subtree rooted at `i`. */
  ghost function Subtree<M>(nodes: seq<Node<M>>, i: nat): set<nat>
    requires WellFormed(nodes) && i < |nodes|
    decreases i
  {
    assert NodeOk(nodes, i);
    if IsLeaf(nodes[i]) then {i}
    else {i} + Subtree(nodes, nodes[i].left.value) + Subtree(nodes, nodes[i].right.value)
  }

  /** The order in which removeBPTNodes releases a subtree: left subtree,
   *  right subtree, then the node itself. */
  function RemovalOrder<M>(nodes: seq<Node<M>>, i: nat): (r: seq<nat>)
    requires WellFormed(nodes) && i < |nodes|
    ensures |r| > 0 && r[|r| - 1] == i
    decreases i
  {
    assert NodeOk(nodes, i);
    if IsLeaf(nodes[i]) then [i]
    else RemovalOrder(nodes, nodes[i].left.value) + RemovalOrder(nodes, nodes[i].right.value) + [i]
  }

  /** removeBPTNodes releases exactly the nodes of the subtree. */
  lemma {:induction false} RemovalCoversSubtree<M>(nodes: seq<Node<M>>, i: nat)
    requires WellFormed(nodes) && i < |nodes|
    ensures forall x :: x in RemovalOrder(nodes, i) <==> x in Subtree(nodes, i)
    decreases i
  {
    var r := RemovalOrder(nodes, i);
    assert NodeOk(nodes, i);
    if !IsLeaf(nodes[i]) {
      var l, rt := nodes[i].left.value, nodes[i].right.value;
      RemovalCoversSubtree(nodes, l);
      RemovalCoversSubtree(nodes, rt);
      var rl, rr := RemovalOrder(nodes, l), RemovalOrder(nodes, rt);
      assert r == rl + rr + [i];
      forall x
        ensures x in r <==> x in Subtree(nodes, i)
      {
        assert x in r <==> x in rl || x in rr || x == i;
      }
    }
  }

  /** removeBPTNodes releases both children of a node before the node. */
  lemma {:induction false} RemovalChildrenFirst<M>(nodes: seq<Node<M>>, i: nat, k: nat)
    requires WellFormed(nodes) && i < |nodes|
    requires k < |RemovalOrder(nodes, i)|
    ensures var r := RemovalOrder(nodes, i);
      r[k] < |nodes| && (!IsLeaf(nodes[r[k]]) ==>
        exists p, q :: 0 <= p < k && 0 <= q < k &&
          nodes[r[k]].left == Some(r[p]) && nodes[r[k]].right == Some(r[q]))
    decreases i
  {
    var r := RemovalOrder(nodes, i);
    assert NodeOk(nodes, i);
    if !IsLeaf(nodes[i]) {
      var l, rt := nodes[i].left.value, nodes[i].right.value;
      var rl, rr := RemovalOrder(nodes, l), RemovalOrder(nodes, rt);
      assert r == rl + rr + [i];
      if k < |rl| {
        RemovalChildrenFirst(nodes, l, k);
        assert r[k] == rl[k];
        if !IsLeaf(nodes[r[k]]) {
          var p, q :| 0 <= p < k && 0 <= q < k &&
            nodes[rl[k]].left == Some(rl[p]) && nodes[rl[k]].right == Some(rl[q]);
          LeftPart(rl, rr, i, p);
          LeftPart(rl, rr, i, q);
        }
      } else if k < |rl| + |rr| {
        var k' := k - |rl|;
        RemovalChildrenFirst(nodes, rt, k');
        assert r[k] == rr[k'];
        if !IsLeaf(nodes[r[k]]) {
          var p, q :| 0 <= p < k' && 0 <= q < k' &&
            nodes[rr[k']].left == Some(rr[p]) && nodes[rr[k']].right == Some(rr[q]);
          RightPart(rl, rr, i, p);
          RightPart(rl, rr, i, q);
        }
      } else {
        assert k == |rl| + |rr|;
        assert r[k] == i;
        assert r[|rl| - 1] == l;
        assert r[|rl| + |rr| - 1] == rt;
      }
    }
  }
  /** Positions in the left order keep their place in the whole order. */
  lemma LeftPart(rl: seq<nat>, rr: seq<nat>, i: nat, p: nat)
    requires p < |rl|
    ensures (rl + rr + [i])[p] == rl[p]
  {
  }

  /** Positions in the right order are shifted by the left order's length. */
  lemma RightPart(rl: seq<nat>, rr: seq<nat>, i: nat, p: nat)
    requires p < |rr|
    ensures (rl + rr + [i])[|rl| + p] == rr[p]
  {
  }


  /** getNeighbors: the node at the other end of every dissimilarity of the
   *  set, one entry per dissimilarity (the set's order is not modelled). */
  method GetNeighbors(E: map<nat, Diss>, s: set<nat>, n: nat) returns (r: seq<Option<nat>>)
    requires s <= E.Keys
    ensures |r| == |s|
    ensures forall e :: e in s ==> GetNeighbor(E[e], n) in r
    ensures forall x :: x in r ==> exists e :: e in s && GetNeighbor(E[e], n) == x
  {
    r := [];
    var todo := s;
    while todo != {}
      invariant todo <= s
      invariant |r| + |todo| == |s|
      invariant forall e :: e in s && e !in todo ==> GetNeighbor(E[e], n) in r
      invariant forall x :: x in r ==> exists e :: e in s && GetNeighbor(E[e], n) == x
      decreases todo
    {
      var e :| e in todo;
      r := r + [GetNeighbor(E[e], n)];
      todo := todo - {e};
    }
  }

  /** The node arena and its id counter. */
  class NodeStore<M> {
    var nodes: seq<Node<M>>

    /** next_id starts at 0. */
    constructor ()
      ensures nodes == []
    {
      nodes := [];
    }

    /** Leaf constructor: no father, no children, the next id. */
    method CreateLeaf(m: M) returns (id: nat)
      modifies this
      ensures id == |old(nodes)|
      ensures nodes == old(nodes) + [Node(m, None, None, None, {})]
    {
      id := |nodes|;
      nodes := nodes + [Node(m, None, None, None, {})];
    }

    /** Three-argument constructor: the given children, a null father and
     *  the next id. */
    method CreateFather(m: M, left: nat, right: nat) returns (id: nat)
      modifies this
      ensures id == |old(nodes)|
      ensures nodes == old(nodes) + [Node(m, None, Some(left), Some(right), {})]
    {
      id := |nodes|;
      nodes := nodes + [Node(m, None, Some(left), Some(right), {})];
    }

    /** setFather changes the father link of node i only. */
    method SetFather(i: nat, f: Option<nat>)
      requires i < |nodes|
      modifies this
      ensures nodes == old(nodes)[i := old(nodes)[i].(father := f)]
    {
      nodes := nodes[i := nodes[i].(father := f)];
    }

    /** setModel changes the region model of node i only. */
    method SetModel(i: nat, m: M)
      requires i < |nodes|
      modifies this
      ensures nodes == old(nodes)[i := old(nodes)[i].(model := m)]
    {
      nodes := nodes[i := nodes[i].(model := m)];
    }

    /** Replaces the dissimilarity set of node i (the engine's in-place
     *  insertions, erasures and clear). */
    method SetDissimilarities(i: nat, s: set<nat>)
      requires i < |nodes|
      modifies this
      ensures nodes == old(nodes)[i := old(nodes)[i].(diss := s)]
    {
      nodes := nodes[i := nodes[i].(diss := s)];
    }
  }

  /** The store without its dissimilarity sets: the tree itself. */
  ghost function Shape<M>(ns: seq<Node<M>>): seq<Node<M>>
  {
    seq(|ns|, i requires 0 <= i < |ns| => ns[i].(diss := {}))
  }

  /** One merge of `a` and `b`: the father, with region model `m`, children
   *  `a` and `b` and no father, takes the next id, and both children take
   *  it as their father. */
  function Join<M>(nodes: seq<Node<M>>, a: nat, b: nat, m: M): seq<Node<M>>
    requires a < |nodes| && b < |nodes|
  {
    var n1 := nodes + [Node(m, None, Some(a), Some(b), {})];
    var n2 := n1[a := n1[a].(father := Some(|nodes|))];
    n2[b := n2[b].(father := Some(|nodes|))]
  }

  /** Merging two distinct nodes without a father keeps the store well
   *  formed: the ids of a node's children are smaller than its own. */
  lemma JoinKeepsWellFormed<M>(nodes: seq<Node<M>>, m: M, a: nat, b: nat)
    requires WellFormed(nodes) && a < |nodes| && b < |nodes| && a != b
    requires nodes[a].father.None? && nodes[b].father.None?
    ensures WellFormed(Join(nodes, a, b, m))
  {
    var f := |nodes|;
    var n3 := Join(nodes, a, b, m);
    forall i | 0 <= i < |n3|
      ensures NodeOk(n3, i)
    {
      if i < f {
        assert NodeOk(nodes, i);
        if nodes[i].left.Some? {
          assert NodeOk(nodes, nodes[i].left.value);
          assert NodeOk(nodes, nodes[i].right.value);
        }
      }
    }
  }

  /** Merging does not look at the dissimilarity sets. */
  lemma ShapeJoin<M>(nodes: seq<Node<M>>, a: nat, b: nat, m: M)
    requires a < |nodes| && b < |nodes|
    ensures Shape(Join(nodes, a, b, m)) == Join(Shape(nodes), a, b, m)
  {
  }

  /** Every pair names two nodes that exist when it is merged: the k-th
   *  merge sees the `size` first nodes and the k fathers before it. */
  predicate PairsFit(size: nat, pairs: seq<(nat, nat)>)
  {
    forall k :: 0 <= k < |pairs| ==> pairs[k].0 < size + k && pairs[k].1 < size + k
  }

  /** The alive set after the merges of `pairs`, the k-th father taking id
   *  n + k. */
  function AliveAfter(alive: set<nat>, pairs: seq<(nat, nat)>, n: nat): (r: set<nat>)
    decreases |pairs|
  {
    if |pairs| == 0 then alive
    else
      var (a, b) := pairs[|pairs| - 1];
      AliveAfter(alive, pairs[..|pairs| - 1], n) - {a, b} + {n + |pairs| - 1}
  }

  /** Every merge of `pairs` joins two distinct nodes alive when it comes. */
  ghost predicate MergesAlive(alive: set<nat>, pairs: seq<(nat, nat)>, n: nat)
    decreases |pairs|
  {
    if |pairs| == 0 then true
    else
      var init := pairs[..|pairs| - 1];
      var (a, b) := pairs[|pairs| - 1];
      MergesAlive(alive, init, n) && a != b && a in AliveAfter(alive, init, n) && b in AliveAfter(alive, init, n)
  }

  /** A merge of two distinct alive nodes, its father taking the next id,
   *  extends the merges of alive nodes by one. */
  lemma AliveStep(alive: set<nat>, pairs: seq<(nat, nat)>, n: nat, a: nat, b: nat)
    requires MergesAlive(alive, pairs, n)
    requires a != b && a in AliveAfter(alive, pairs, n) && b in AliveAfter(alive, pairs, n)
    ensures MergesAlive(alive, pairs + [(a, b)], n)
    ensures AliveAfter(alive, pairs + [(a, b)], n) == AliveAfter(alive, pairs, n) - {a, b} + {n + |pairs|}
  {
    assert (pairs + [(a, b)])[..|pairs|] == pairs;
  }

  /** The first merges of a sequence of merges of alive nodes are merges of
   *  alive nodes too. */
  lemma {:induction false} MergesAlivePrefix(alive: set<nat>, pairs: seq<(nat, nat)>, n: nat, m: nat)
    requires MergesAlive(alive, pairs, n) && m <= |pairs|
    ensures MergesAlive(alive, pairs[..m], n)
    decreases |pairs|
  {
    if m < |pairs| {
      var init := pairs[..|pairs| - 1];
      MergesAlivePrefix(alive, init, n, m);
      assert init[..m] == pairs[..m];
    } else {
      assert pairs[..m] == pairs;
    }
  }

  /** The k-th merge of a sequence of merges of alive nodes joins two
   *  distinct nodes alive after the merges before it. */
  lemma MergesAliveAt(alive: set<nat>, pairs: seq<(nat, nat)>, n: nat, k: nat)
    requires MergesAlive(alive, pairs, n) && k < |pairs|
    ensures pairs[k].0 != pairs[k].1
    ensures pairs[k].0 in AliveAfter(alive, pairs[..k], n) && pairs[k].1 in AliveAfter(alive, pairs[..k], n)
  {
    MergesAlivePrefix(alive, pairs, n, k + 1);
    var p := pairs[..k + 1];
    assert p[..|p| - 1] == pairs[..k] && p[|p| - 1] == pairs[k];
  }

  /** The store after merging the pairs in order, each father's region
   *  model merging its children's. */
  ghost function Replay<M>(nodes: seq<Node<M>>, pairs: seq<(nat, nat)>, merge: (M, M) -> M): (r: seq<Node<M>>)
    requires PairsFit(|nodes|, pairs)
    ensures |r| == |nodes| + |pairs|
    decreases |pairs|
  {
    if |pairs| == 0 then nodes
    else
      var prev := Replay(nodes, pairs[..|pairs| - 1], merge);
      var (a, b) := pairs[|pairs| - 1];
      Join(prev, a, b, merge(prev[a].model, prev[b].model))
  }

  /** One more merge at the end of a replay. */
  lemma ReplayAppend<M>(nodes: seq<Node<M>>, pairs: seq<(nat, nat)>, a: nat, b: nat, merge: (M, M) -> M)
    requires PairsFit(|nodes|, pairs) && a < |nodes| + |pairs| && b < |nodes| + |pairs|
    ensures PairsFit(|nodes|, pairs + [(a, b)])
    ensures var prev := Replay(nodes, pairs, merge);
      Replay(nodes, pairs + [(a, b)], merge) == Join(prev, a, b, merge(prev[a].model, prev[b].model))
  {
    assert (pairs + [(a, b)])[..|pairs|] == pairs;
  }

  /** Replaying merges does not look at the dissimilarity sets: two stores
   *  with the same tree give the same tree. */
  lemma {:induction false} ShapeReplay<M>(nodes: seq<Node<M>>, pairs: seq<(nat, nat)>, merge: (M, M) -> M)
    requires PairsFit(|nodes|, pairs)
    ensures Shape(Replay(nodes, pairs, merge)) == Replay(Shape(nodes), pairs, merge)
    decreases |pairs|
  {
    if |pairs| > 0 {
      var init := pairs[..|pairs| - 1];
      var (a, b) := pairs[|pairs| - 1];
      var prev := Replay(nodes, init, merge);
      ShapeReplay(nodes, init, merge);
      ShapeJoin(prev, a, b, merge(prev[a].model, prev[b].model));
      assert Shape(prev)[a].model == prev[a].model && Shape(prev)[b].model == prev[b].model;
    }
  }
}
