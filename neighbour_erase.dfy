/** The relinking loops' erase of a merged node's dissimilarity from the
 *  set of its neighbour, and the erase it evidently stands for: taking out
 *  the neighbour's link back to the merged node. With a symmetric measure
 *  the two agree; with an asymmetric one the neighbour holds the reverse
 *  dissimilarity, which the erase as written leaves behind. */
module NeighbourErase {
  import opened Wrappers
  import opened Dissimilarity
  import opened BPTNode
  import opened PoolInvariant

  /** `erase(diss)` on the neighbour's set `nd`: the merged node's own
   *  dissimilarity `x` is taken out, and the count removed is returned. */
  function EraseAsWritten(nd: set<nat>, x: nat): (r: (set<nat>, nat))
    ensures r.0 <= nd && x !in r.0 && |nd| == |r.0| + r.1
    ensures r.1 == 0 <==> x !in nd
  {
    if x in nd then (nd - {x}, 1) else (nd, 0)
  }

  /** The neighbour `n` drops every dissimilarity of `nd` that leads to the
   *  merged node `a`, and keeps the others. */
  function EraseLinksTo(E: map<nat, Diss>, nd: set<nat>, n: nat, a: nat): (r: set<nat>)
    ensures r <= nd
    ensures forall k :: k in nd ==> (k in r <==> !(k in E && Other(E[k], n) == a))
  {
    set k | k in nd && !(k in E && Other(E[k], n) == a)
  }

  /** With a symmetric measure the neighbour holds the merged node's own
   *  dissimilarity, and it is its only link to the merged node: the erase
   *  as written removes one dissimilarity, exactly the link back. */
  lemma SymmetricEraseRemovesLink<M>(E: map<nat, Diss>, nodes: seq<Node<M>>, alive: set<nat>, a: nat, x: nat)
    requires GraphOk(E, nodes, alive, true) && a < |nodes| && x in nodes[a].diss
    ensures x in E && Other(E[x], a) < |nodes| && x in nodes[Other(E[x], a)].diss
    ensures EraseAsWritten(nodes[Other(E[x], a)].diss, x) == (EraseLinksTo(E, nodes[Other(E[x], a)].diss, Other(E[x], a), a), 1)
  {
    var n := Other(E[x], a);
    var nd := nodes[n].diss;
    assert EdgeAt(E, nodes, a, x);
    NeighborOfNeighbor(E[x], a);
    forall k | k in nd
      ensures (k in nd - {x}) <==> !(k in E && Other(E[k], n) == a)
    {
      if k in E && Other(E[k], n) == a {
        assert EdgeAt(E, nodes, n, k);
        assert k in nodes[a].diss;
        NeighborOfNeighbor(E[k], n);
        assert Other(E[k], a) == Other(E[x], a);
      }
    }
    assert nd - {x} == EraseLinksTo(E, nd, n, a);
  }

  /** Two leaves joined by an asymmetric pair of dissimilarities, 0 = (0, 1)
   *  held by node 0 and 1 = (1, 0) held by node 1: merging node 0, the
   *  erase as written removes nothing from node 1's set, which keeps its
   *  link to node 0; the intended erase empties it. */
  lemma AsymmetricEraseKeepsLink()
    ensures var E := map[0 := Diss(0, 1, 1.0), 1 := Diss(1, 0, 2.0)];
      var nodes := [Node(0, None, None, None, {0}), Node(0, None, None, None, {1})];
      GraphOk(E, nodes, {0, 1}, false) && Other(E[0], 0) == 1 &&
      EraseAsWritten(nodes[1].diss, 0) == ({1}, 0) && Other(E[1], 1) == 0 &&
      EraseLinksTo(E, nodes[1].diss, 1, 0) == {}
  {
    var E := map[0 := Diss(0, 1, 1.0), 1 := Diss(1, 0, 2.0)];
    var nodes := [Node(0, None, None, None, {0}), Node(0, None, None, None, {1})];
    assert EraseLinksTo(E, nodes[1].diss, 1, 0) == {} by {
      assert 1 !in EraseLinksTo(E, {1}, 1, 0);
    }
  }
}
