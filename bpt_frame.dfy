/** BPTFrame::prune and BPTFrame::NRegs_prune: cutting a Binary Partition
 *  Tree into a set of nodes whose subtrees share no node and together hold
 *  every leaf below the root. Node pointers are ids into the node arena,
 *  which neither procedure changes; the criterion of `prune` is a predicate
 *  on node ids. */
module BPTFrame {
  import opened BPTNode

  /** The two children of a node are distinct nodes, as the constructor's
   *  merges of two distinct regions make them. */
  ghost predicate Binary<M>(nodes: seq<Node<M>>)
  {
    forall i :: 0 <= i < |nodes| && nodes[i].left.Some? ==> nodes[i].left != nodes[i].right
  }

  /** The number of nodes of a subtree. */
  ghost function Size<M>(nodes: seq<Node<M>>, i: nat): nat
    requires WellFormed(nodes) && i < |nodes|
    decreases i
  {
    assert NodeOk(nodes, i);
    if IsLeaf(nodes[i]) then 1
    else 1 + Size(nodes, nodes[i].left.value) + Size(nodes, nodes[i].right.value)
  }

  /** The leaves of the subtree rooted at `i`: what addLeaves collects. */
  ghost function LeafSet<M>(nodes: seq<Node<M>>, i: nat): set<nat>
    requires WellFormed(nodes) && i < |nodes|
    decreases i
  {
    assert NodeOk(nodes, i);
    if IsLeaf(nodes[i]) then {i}
    else LeafSet(nodes, nodes[i].left.value) + LeafSet(nodes, nodes[i].right.value)
  }

  ghost predicate InArena<M>(nodes: seq<Node<M>>, s: set<nat>)
  {
    forall p :: p in s ==> p < |nodes|
  }

  /** No node of the set lies in the subtree of another. */
  ghost predicate NonNested<M>(nodes: seq<Node<M>>, s: set<nat>)
    requires WellFormed(nodes) && InArena(nodes, s)
  {
    forall p, q :: p in s && q in s && p != q ==> Subtree(nodes, p) !! Subtree(nodes, q)
  }

  /** A cut of the tree below `root`: nodes of its subtree, none nested in
   *  another, whose subtrees hold every leaf below `root`. */
  ghost predicate Cut<M>(nodes: seq<Node<M>>, root: nat, s: set<nat>)
    requires WellFormed(nodes) && root < |nodes|
  {
    InArena(nodes, s) && s <= Subtree(nodes, root) && NonNested(nodes, s) &&
    forall x :: x in LeafSet(nodes, root) ==> exists p :: p in s && x in Subtree(nodes, p)
  }

  /** Every node below `i` has a smaller id, and its father is below `i`
   *  too. */
  lemma {:induction false} SubtreeBelow<M>(nodes: seq<Node<M>>, i: nat, x: nat)
    requires WellFormed(nodes) && i < |nodes| && x in Subtree(nodes, i)
    ensures x <= i
    ensures x != i ==> nodes[x].father.Some? && nodes[x].father.value in Subtree(nodes, i)
    decreases i
  {
    assert NodeOk(nodes, i);
    if x != i {
      var l, r := nodes[i].left.value, nodes[i].right.value;
      var c := if x in Subtree(nodes, l) then l else r;
      assert NodeOk(nodes, c);
      SubtreeBelow(nodes, c, x);
      assert c in Subtree(nodes, c);
    }
  }

  /** A node's subtree contains the subtree of every node in it. */
  lemma {:induction false} SubtreeNests<M>(nodes: seq<Node<M>>, a: nat, b: nat)
    requires WellFormed(nodes) && a < |nodes| && b in Subtree(nodes, a)
    ensures b < |nodes| && Subtree(nodes, b) <= Subtree(nodes, a)
    decreases a
  {
    SubtreeBelow(nodes, a, b);
    assert NodeOk(nodes, a);
    if b != a {
      var l, r := nodes[a].left.value, nodes[a].right.value;
      if b in Subtree(nodes, l) {
        SubtreeNests(nodes, l, b);
      } else {
        SubtreeNests(nodes, r, b);
      }
    }
  }

  /** Two subtrees that share a node are nested one in the other. */
  lemma {:induction false} SharedNodeNests<M>(nodes: seq<Node<M>>, a: nat, b: nat, x: nat)
    requires WellFormed(nodes) && a < |nodes| && b < |nodes|
    requires x in Subtree(nodes, a) && x in Subtree(nodes, b)
    ensures a in Subtree(nodes, b) || b in Subtree(nodes, a)
    decreases |nodes| - x
  {
    SubtreeBelow(nodes, a, x);
    SubtreeBelow(nodes, b, x);
    if x != a && x != b {
      assert NodeOk(nodes, x);
      SharedNodeNests(nodes, a, b, nodes[x].father.value);
    }
  }

  /** The subtrees of the two children of a node share no node. */
  lemma ChildrenDisjoint<M>(nodes: seq<Node<M>>, i: nat)
    requires WellFormed(nodes) && Binary(nodes) && i < |nodes| && !IsLeaf(nodes[i])
    ensures NodeOk(nodes, i)
    ensures Subtree(nodes, nodes[i].left.value) !! Subtree(nodes, nodes[i].right.value)
  {
    assert NodeOk(nodes, i);
    var l, r := nodes[i].left.value, nodes[i].right.value;
    if x :| x in Subtree(nodes, l) && x in Subtree(nodes, r) {
      SharedNodeNests(nodes, l, r, x);
      if l in Subtree(nodes, r) {
        SubtreeBelow(nodes, r, l);
        SubtreeBelow(nodes, r, i);
      } else {
        SubtreeBelow(nodes, l, r);
        SubtreeBelow(nodes, l, i);
      }
      assert false;
    }
  }

  /** The leaves collected from a subtree are exactly its nodes that are
   *  leaves. */
  lemma {:induction false} LeafSetIsLeaves<M>(nodes: seq<Node<M>>, i: nat)
    requires WellFormed(nodes) && i < |nodes|
    ensures LeafSet(nodes, i) <= Subtree(nodes, i)
    ensures forall x :: x in Subtree(nodes, i) ==>
      x < |nodes| && (x in LeafSet(nodes, i) <==> IsLeaf(nodes[x]))
    decreases i
  {
    assert NodeOk(nodes, i);
    if !IsLeaf(nodes[i]) {
      var l, r := nodes[i].left.value, nodes[i].right.value;
      LeafSetIsLeaves(nodes, l);
      LeafSetIsLeaves(nodes, r);
      forall x | x in Subtree(nodes, i)
        ensures x < |nodes| && (x in LeafSet(nodes, i) <==> IsLeaf(nodes[x]))
      {
        SubtreeBelow(nodes, i, x);
      }
    }
  }

  /** The nodes `prune` adds to `out`: a node where the criterion holds or a
   *  leaf, otherwise what is added below its two children. */
  ghost function PruneSet<M>(nodes: seq<Node<M>>, i: nat, criterion: nat -> bool): set<nat>
    requires WellFormed(nodes) && i < |nodes|
    decreases i
  {
    assert NodeOk(nodes, i);
    if criterion(i) || IsLeaf(nodes[i]) then {i}
    else PruneSet(nodes, nodes[i].left.value, criterion) + PruneSet(nodes, nodes[i].right.value, criterion)
  }

  /** What `prune` adds is a cut of the tree below the root. */
  lemma {:induction false} PruneIsCut<M>(nodes: seq<Node<M>>, root: nat, criterion: nat -> bool)
    requires WellFormed(nodes) && Binary(nodes) && root < |nodes|
    ensures Cut(nodes, root, PruneSet(nodes, root, criterion))
    decreases root
  {
    var s := PruneSet(nodes, root, criterion);
    assert NodeOk(nodes, root);
    assert root in Subtree(nodes, root);
    if criterion(root) || IsLeaf(nodes[root]) {
      LeafSetIsLeaves(nodes, root);
    } else {
      var l, r := nodes[root].left.value, nodes[root].right.value;
      PruneIsCut(nodes, l, criterion);
      PruneIsCut(nodes, r, criterion);
      var sl, sr := PruneSet(nodes, l, criterion), PruneSet(nodes, r, criterion);
      ChildrenDisjoint(nodes, root);
      forall p, q | p in s && q in s && p != q
        ensures Subtree(nodes, p) !! Subtree(nodes, q)
      {
        if p in sl && q in sr {
          SubtreeNests(nodes, l, p);
          SubtreeNests(nodes, r, q);
        } else if p in sr && q in sl {
          SubtreeNests(nodes, r, p);
          SubtreeNests(nodes, l, q);
        }
      }
    }
  }

  /** A criterion that never holds cuts at the leaves; one that holds at the
   *  root cuts at the root alone. */
  lemma {:induction false} PruneExtremes<M>(nodes: seq<Node<M>>, root: nat, criterion: nat -> bool)
    requires WellFormed(nodes) && root < |nodes|
    ensures (forall x :: !criterion(x)) ==> PruneSet(nodes, root, criterion) == LeafSet(nodes, root)
    ensures criterion(root) ==> PruneSet(nodes, root, criterion) == {root}
    decreases root
  {
    assert NodeOk(nodes, root);
    if !IsLeaf(nodes[root]) {
      PruneExtremes(nodes, nodes[root].left.value, criterion);
      PruneExtremes(nodes, nodes[root].right.value, criterion);
    }
  }

  ghost predicate Queued<M>(nodes: seq<Node<M>>, q: seq<nat>)
  {
    forall k :: 0 <= k < |q| ==> q[k] < |nodes|
  }

  /** What the queued nodes will still add. */
  ghost function Pending<M>(nodes: seq<Node<M>>, q: seq<nat>, criterion: nat -> bool): set<nat>
    requires WellFormed(nodes) && Queued(nodes, q)
  {
    if q == [] then {} else PruneSet(nodes, q[0], criterion) + Pending(nodes, q[1..], criterion)
  }

  /** The total size of the queued subtrees, which every step lowers. */
  ghost function Work<M>(nodes: seq<Node<M>>, q: seq<nat>): nat
    requires WellFormed(nodes) && Queued(nodes, q)
  {
    if q == [] then 0 else Size(nodes, q[0]) + Work(nodes, q[1..])
  }

  lemma {:induction false} QueueAppend<M>(nodes: seq<Node<M>>, a: seq<nat>, b: seq<nat>, criterion: nat -> bool)
    requires WellFormed(nodes) && Queued(nodes, a) && Queued(nodes, b)
    ensures Queued(nodes, a + b)
    ensures Pending(nodes, a + b, criterion) == Pending(nodes, a, criterion) + Pending(nodes, b, criterion)
    ensures Work(nodes, a + b) == Work(nodes, a) + Work(nodes, b)
  {
    if a != [] {
      assert (a + b)[0] == a[0];
      assert (a + b)[1..] == a[1..] + b;
      QueueAppend(nodes, a[1..], b, criterion);
    } else {
      assert a + b == b;
    }
  }

  /** prune: a breadth-first walk from the root. A node where the criterion
   *  holds, or a leaf, is inserted into `out` and its subtree is not
   *  entered; any other node queues its two children. */
  method Prune<M>(nodes: seq<Node<M>>, root: nat, out: set<nat>, criterion: nat -> bool) returns (r: set<nat>)
    requires WellFormed(nodes) && root < |nodes|
    ensures r == out + PruneSet(nodes, root, criterion)
  {
    var remaining := [root];
    r := out;
    while |remaining| > 0
      invariant Queued(nodes, remaining)
      invariant r + Pending(nodes, remaining, criterion) == out + PruneSet(nodes, root, criterion)
      decreases Work(nodes, remaining)
    {
      var np := remaining[0];
      var rest := remaining[1..];
      assert NodeOk(nodes, np);
      assert Pending(nodes, remaining, criterion) == PruneSet(nodes, np, criterion) + Pending(nodes, rest, criterion);
      assert Work(nodes, remaining) == Size(nodes, np) + Work(nodes, rest);
      remaining := rest;
      if criterion(np) || IsLeaf(nodes[np]) {
        r := r + {np};
      } else {
        var kids := [nodes[np].left.value, nodes[np].right.value];
        assert kids[1..] == [kids[1]] && kids[1..][1..] == [];
        assert Pending(nodes, kids, criterion) == PruneSet(nodes, kids[0], criterion) + PruneSet(nodes, kids[1], criterion);
        assert Work(nodes, kids[1..]) == Size(nodes, kids[1]);
        assert Work(nodes, kids) == Size(nodes, kids[0]) + Size(nodes, kids[1]);
        QueueAppend(nodes, rest, kids, criterion);
        remaining := rest + kids;
      }
    }
  }

  /** A nonempty set of ids has a largest member. */
  lemma {:induction false} HasLargest(s: set<nat>)
    requires s != {}
    ensures exists m :: m in s && forall y :: y in s ==> y <= m
  {
    var x :| x in s;
    if s - {x} != {} {
      HasLargest(s - {x});
      var m :| m in s - {x} && forall y :: y in s - {x} ==> y <= m;
      var top := if x > m then x else m;
      forall y | y in s
        ensures y <= top
      {
        if y != x {
          assert y in s - {x};
        }
      }
    } else {
      forall y | y in s
        ensures y <= x
      {
        assert y !in s - {x};
      }
    }
  }

  /** Expanding a node of a cut into its two children keeps a cut. */
  lemma ExpandKeepsCut<M>(nodes: seq<Node<M>>, root: nat, s: set<nat>, np: nat)
    requires WellFormed(nodes) && Binary(nodes) && root < |nodes|
    requires Cut(nodes, root, s) && np in s && !IsLeaf(nodes[np])
    ensures NodeOk(nodes, np)
    ensures Cut(nodes, root, s - {np} + {nodes[np].left.value, nodes[np].right.value})
  {
    assert NodeOk(nodes, np);
    var l, r := nodes[np].left.value, nodes[np].right.value;
    ExpandNonNested(nodes, root, s, np);
    forall x | x in LeafSet(nodes, root)
      ensures exists p :: p in s - {np} + {l, r} && x in Subtree(nodes, p)
    {
      var p :| p in s && x in Subtree(nodes, p);
      if p == np {
        LeafSetIsLeaves(nodes, root);
        assert x != np;
      }
    }
  }

  lemma ExpandNonNested<M>(nodes: seq<Node<M>>, root: nat, s: set<nat>, np: nat)
    requires WellFormed(nodes) && Binary(nodes) && root < |nodes|
    requires Cut(nodes, root, s) && np in s && !IsLeaf(nodes[np])
    ensures NodeOk(nodes, np)
    ensures var t := s - {np} + {nodes[np].left.value, nodes[np].right.value};
      InArena(nodes, t) && t <= Subtree(nodes, root) && NonNested(nodes, t)
  {
    assert NodeOk(nodes, np);
    var l, r := nodes[np].left.value, nodes[np].right.value;
    var t := s - {np} + {l, r};
    assert l in Subtree(nodes, np) && r in Subtree(nodes, np);
    SubtreeNests(nodes, np, l);
    SubtreeNests(nodes, np, r);
    SubtreeNests(nodes, root, np);
    ChildrenDisjoint(nodes, np);
    ReplaceBySubtrees(nodes, s, np, l, r);
  }

  /** Replacing a member of a non-nested set by two disjoint subtrees of
   *  its own keeps the set non-nested. */
  lemma ReplaceBySubtrees<M>(nodes: seq<Node<M>>, s: set<nat>, np: nat, l: nat, r: nat)
    requires WellFormed(nodes) && InArena(nodes, s) && NonNested(nodes, s) && np in s
    requires l < |nodes| && r < |nodes|
    requires Subtree(nodes, l) <= Subtree(nodes, np) && Subtree(nodes, r) <= Subtree(nodes, np)
    requires Subtree(nodes, l) !! Subtree(nodes, r)
    ensures InArena(nodes, s - {np} + {l, r}) && NonNested(nodes, s - {np} + {l, r})
  {
    var t := s - {np} + {l, r};
    forall p, q | p in t && q in t && p != q
      ensures Subtree(nodes, p) !! Subtree(nodes, q)
    {
    }
  }

  /** A cut made of leaves only is the set of all leaves. */
  lemma LeafCut<M>(nodes: seq<Node<M>>, root: nat, s: set<nat>)
    requires WellFormed(nodes) && root < |nodes| && Cut(nodes, root, s)
    requires forall p :: p in s ==> IsLeaf(nodes[p])
    ensures s == LeafSet(nodes, root)
  {
    forall x | x in LeafSet(nodes, root)
      ensures x in s
    {
      var p :| p in s && x in Subtree(nodes, p);
      LeafSubtree(nodes, p, x);
    }
    forall p | p in s
      ensures p in LeafSet(nodes, root)
    {
      LeafSetIsLeaves(nodes, root);
    }
    SameSet(s, LeafSet(nodes, root));
  }

  lemma SameSet(a: set<nat>, b: set<nat>)
    requires a <= b && b <= a
    ensures a == b
  {
  }

  /** The subtree of a leaf is the leaf alone. */
  lemma LeafSubtree<M>(nodes: seq<Node<M>>, p: nat, x: nat)
    requires WellFormed(nodes) && p < |nodes| && IsLeaf(nodes[p]) && x in Subtree(nodes, p)
    ensures x == p
  {
  }

  /** The state NRegs_prune keeps between steps: the remaining nodes and
   *  the leaves already moved to `out` form a cut. */
  ghost predicate Frontier<M>(nodes: seq<Node<M>>, root: nat, remaining: set<nat>, moved: set<nat>)
    requires WellFormed(nodes) && root < |nodes|
  {
    Cut(nodes, root, remaining + moved) &&
    (forall p :: p in moved ==> IsLeaf(nodes[p]))
  }

  /** Moving a remaining leaf to `out`. */
  lemma MoveLeaf<M>(nodes: seq<Node<M>>, root: nat, remaining: set<nat>, moved: set<nat>, np: nat)
    requires WellFormed(nodes) && root < |nodes|
    requires Frontier(nodes, root, remaining, moved) && np in remaining && IsLeaf(nodes[np])
    ensures Frontier(nodes, root, remaining - {np}, moved + {np})
  {
    assert (remaining - {np}) + (moved + {np}) == remaining + moved;
  }

  /** Replacing a remaining inner node by its two children. */
  lemma Expand<M>(nodes: seq<Node<M>>, root: nat, remaining: set<nat>, moved: set<nat>, np: nat)
    requires WellFormed(nodes) && Binary(nodes) && root < |nodes|
    requires Frontier(nodes, root, remaining, moved) && np in remaining && !IsLeaf(nodes[np])
    ensures NodeOk(nodes, np)
    ensures Frontier(nodes, root, remaining - {np} + {nodes[np].left.value, nodes[np].right.value}, moved)
  {
    ExpandKeepsCut(nodes, root, remaining + moved, np);
    var l, rt := nodes[np].left.value, nodes[np].right.value;
    assert (remaining - {np} + {l, rt}) + moved == (remaining + moved) - {np} + {l, rt};
  }

  /** The largest member of a nonempty set of ids. */
  ghost function Largest(s: set<nat>): (m: nat)
    requires s != {}
    ensures m in s && forall y :: y in s ==> y <= m
  {
    HasLargest(s);
    var m :| m in s && forall y :: y in s ==> y <= m; m
  }

  /** NRegs_prune orders its worklist by pnode_later, so it always takes out
   *  the remaining node with the largest id; children are younger than
   *  their father, so it takes out the subtree's nodes in decreasing id
   *  order. Once it has taken out every node of id at least `t`, these are
   *  the remaining ones: the root if it is below `t`, and every node below
   *  `t` whose father is at or above `t`. */
  ghost function Waiting<M>(nodes: seq<Node<M>>, root: nat, t: nat): set<nat>
    requires WellFormed(nodes) && root < |nodes|
  {
    set x | x in Subtree(nodes, root) && x < |nodes| && x < t &&
            (x == root || (nodes[x].father.Some? && nodes[x].father.value >= t))
  }

  /** ... and these are the leaves it has moved to `out`: those of id at
   *  least `t`. */
  ghost function Reached<M>(nodes: seq<Node<M>>, root: nat, t: nat): set<nat>
    requires WellFormed(nodes) && root < |nodes|
  {
    set x | x in Subtree(nodes, root) && x < |nodes| && x >= t && IsLeaf(nodes[x])
  }

  /** The threshold at which NRegs_prune stops: it goes on taking out the
   *  largest waiting node while some wait and fewer than `regs` do. */
  ghost function StopAt<M>(nodes: seq<Node<M>>, root: nat, regs: nat, t: nat): nat
    requires WellFormed(nodes) && root < |nodes|
    decreases t
  {
    var w := Waiting(nodes, root, t);
    if w == {} || |w| >= regs then t
    else StopAt(nodes, root, regs, Largest(w))
  }

  /** What NRegs_prune adds to `out`, by the order in which it takes nodes
   *  out: the waiting nodes and the reached leaves at its stopping
   *  threshold. */
  ghost function NRegsCut<M>(nodes: seq<Node<M>>, root: nat, regs: nat): set<nat>
    requires WellFormed(nodes) && root < |nodes|
  {
    var t := StopAt(nodes, root, regs, root + 1);
    Waiting(nodes, root, t) + Reached(nodes, root, t)
  }

  /** Before anything is taken out only the root waits. */
  lemma WaitingStart<M>(nodes: seq<Node<M>>, root: nat)
    requires WellFormed(nodes) && root < |nodes|
    ensures Waiting(nodes, root, root + 1) == {root} && Reached(nodes, root, root + 1) == {}
  {
    assert root in Subtree(nodes, root);
    forall x | x in Subtree(nodes, root)
      ensures x <= root && (x != root ==> nodes[x].father.Some? && nodes[x].father.value <= root)
    {
      SubtreeBelow(nodes, root, x);
      if x != root {
        SubtreeBelow(nodes, root, nodes[x].father.value);
      }
    }
  }

  /** Every node of the subtree below `t` lies under a waiting node. */
  lemma {:induction false} UnderWaiting<M>(nodes: seq<Node<M>>, root: nat, t: nat, y: nat) returns (r: nat)
    requires WellFormed(nodes) && root < |nodes| && y in Subtree(nodes, root) && y < t
    ensures r in Waiting(nodes, root, t) && y in Subtree(nodes, r) && y <= r
    decreases root - y
  {
    SubtreeBelow(nodes, root, y);
    SubtreeNests(nodes, root, y);
    assert y in Subtree(nodes, y) by {
      assert NodeOk(nodes, y);
    }
    if y == root {
      r := y;
    } else {
      var f := nodes[y].father.value;
      assert NodeOk(nodes, y);
      if f >= t {
        r := y;
      } else {
        SubtreeBelow(nodes, root, f);
        r := UnderWaiting(nodes, root, t, f);
        SubtreeNests(nodes, r, f);
        ChildInSubtree(nodes, f, y);
        SubtreeBelow(nodes, r, y);
      }
    }
  }

  /** A child of `f` lies in the subtree of `f`. */
  lemma ChildInSubtree<M>(nodes: seq<Node<M>>, f: nat, y: nat)
    requires WellFormed(nodes) && f < |nodes| && y < |nodes|
    requires (nodes[f].left.Some? && nodes[f].left.value == y) || (nodes[f].right.Some? && nodes[f].right.value == y)
    ensures y in Subtree(nodes, f)
  {
    assert NodeOk(nodes, f);
    assert NodeOk(nodes, y);
    assert y in Subtree(nodes, y);
  }

  /** Between the largest waiting node and the threshold lies no other node
   *  of the subtree. */
  lemma NoneBetween<M>(nodes: seq<Node<M>>, root: nat, t: nat, np: nat, x: nat)
    requires WellFormed(nodes) && root < |nodes| && Waiting(nodes, root, t) != {}
    requires np == Largest(Waiting(nodes, root, t))
    requires x in Subtree(nodes, root) && np <= x < t
    ensures x == np
  {
    var r := UnderWaiting(nodes, root, t, x);
  }

  /** Taking out the largest waiting node `np` replaces it by its children
   *  when it has some, and moves it to the reached leaves otherwise. */
  lemma TakeLargest<M>(nodes: seq<Node<M>>, root: nat, t: nat, np: nat)
    requires WellFormed(nodes) && root < |nodes| && Waiting(nodes, root, t) != {}
    requires np == Largest(Waiting(nodes, root, t))
    ensures np < t && np < |nodes| && NodeOk(nodes, np)
    ensures Waiting(nodes, root, np) ==
      Waiting(nodes, root, t) - {np} + (if IsLeaf(nodes[np]) then {} else {nodes[np].left.value, nodes[np].right.value})
    ensures Reached(nodes, root, np) == Reached(nodes, root, t) + (if IsLeaf(nodes[np]) then {np} else {})
  {
    var W, W' := Waiting(nodes, root, t), Waiting(nodes, root, np);
    assert NodeOk(nodes, np);
    var kids := if IsLeaf(nodes[np]) then {} else {nodes[np].left.value, nodes[np].right.value};
    forall x | x in W'
      ensures x in W - {np} + kids
    {
      if x != root && nodes[x].father.value < t {
        var f := nodes[x].father.value;
        SubtreeBelow(nodes, root, x);
        NoneBetween(nodes, root, t, np, f);
        assert NodeOk(nodes, x);
      }
    }
    forall x | x in kids
      ensures x in W'
    {
      assert NodeOk(nodes, np);
      ChildInSubtree(nodes, np, x);
      SubtreeNests(nodes, root, np);
    }
    forall x | x in Reached(nodes, root, np)
      ensures x in Reached(nodes, root, t) || x == np
    {
      if x < t {
        NoneBetween(nodes, root, t, np, x);
      }
    }
  }

  /** NRegs_prune: while fewer than `regs` nodes remain (and some do), the
   *  remaining node with the largest id is taken out; a leaf goes to `out`,
   *  any other node is replaced by its two children. The nodes still
   *  remaining at the end go to `out` too. What is added is the cut that
   *  taking nodes out in decreasing id order stops at, a cut below the root
   *  that is either every leaf or at least `regs` nodes. */
  method NRegsPrune<M>(nodes: seq<Node<M>>, root: nat, out: set<nat>, regs: nat)
    returns (r: set<nat>, ghost added: set<nat>)
    requires WellFormed(nodes) && Binary(nodes) && root < |nodes| && regs > 0
    ensures r == out + added
    ensures Cut(nodes, root, added)
    ensures added == LeafSet(nodes, root) || |added| >= regs
    ensures added == NRegsCut(nodes, root, regs)
  {
    var remaining: set<nat> := {root};
    ghost var moved: set<nat> := {};
    ghost var t: nat := root + 1;
    r := out;
    FrontierStart(nodes, root);
    WaitingStart(nodes, root);
    while |remaining| > 0 && |remaining| < regs
      invariant PruneState(nodes, root, regs, remaining, moved, t)
      invariant r == out + moved
      decreases t
    {
      var np, leaf;
      ghost var moved';
      remaining, np, leaf, moved' := TakeOut(nodes, root, regs, remaining, moved, t);
      if leaf {
        UnionAdd(out, moved, np);
        r := r + {np};
      }
      moved, t := moved', np;
    }
    added := remaining + moved;
    UnionAddAll(out, moved, remaining);
    r := r + remaining;
    FrontierEnd(nodes, root, remaining, moved, regs);
    PruneStops(nodes, root, regs, remaining, moved, t);
  }

  /** One step of NRegs_prune: the remaining node with the largest id is
   *  taken out and, when it is a leaf, moved to `out`, otherwise replaced
   *  by its two children. */
  method TakeOut<M>(nodes: seq<Node<M>>, root: nat, regs: nat, remaining: set<nat>, ghost moved: set<nat>, ghost t: nat)
    returns (next: set<nat>, np: nat, leaf: bool, ghost moved': set<nat>)
    requires WellFormed(nodes) && Binary(nodes) && root < |nodes|
    requires PruneState(nodes, root, regs, remaining, moved, t) && 0 < |remaining| < regs
    ensures np < t && PruneState(nodes, root, regs, next, moved', np)
    ensures moved' == if leaf then moved + {np} else moved
  {
    HasLargest(remaining);
    np :| np in remaining && forall y :: y in remaining ==> y <= np;
    PruneStep(nodes, root, regs, remaining, moved, t, np);
    leaf := IsLeaf(nodes[np]);
    if leaf {
      PruneLeaf(nodes, root, regs, remaining, moved, t, np);
      next, moved' := remaining - {np}, moved + {np};
    } else {
      PruneInner(nodes, root, regs, remaining, moved, t, np);
      next, moved' := remaining - {np} + {nodes[np].left.value, nodes[np].right.value}, moved;
    }
  }

  /** The state of NRegs_prune between steps: a frontier, which is what
   *  waits and what is reached at the threshold `t` of the last node taken
   *  out, on the way to the stopping threshold. */
  ghost predicate PruneState<M>(nodes: seq<Node<M>>, root: nat, regs: nat, remaining: set<nat>, moved: set<nat>,
                                t: nat)
    requires WellFormed(nodes) && root < |nodes|
  {
    Frontier(nodes, root, remaining, moved) &&
    remaining == Waiting(nodes, root, t) && moved == Reached(nodes, root, t) &&
    StopAt(nodes, root, regs, t) == StopAt(nodes, root, regs, root + 1)
  }

  /** Taking out the largest remaining node moves the threshold to it and
   *  does not change where NRegs_prune stops. */
  lemma PruneStep<M>(nodes: seq<Node<M>>, root: nat, regs: nat, remaining: set<nat>, moved: set<nat>,
                     t: nat, np: nat)
    requires WellFormed(nodes) && root < |nodes|
    requires PruneState(nodes, root, regs, remaining, moved, t) && 0 < |remaining| < regs
    requires np in remaining && forall y :: y in remaining ==> y <= np
    ensures np < |nodes| && NodeOk(nodes, np) && np in Subtree(nodes, root)
    ensures StopAt(nodes, root, regs, np) == StopAt(nodes, root, regs, root + 1)
    ensures Waiting(nodes, root, np) ==
      remaining - {np} + (if IsLeaf(nodes[np]) then {} else {nodes[np].left.value, nodes[np].right.value})
    ensures Reached(nodes, root, np) == moved + (if IsLeaf(nodes[np]) then {np} else {})
    ensures np < t
  {
    assert np == Largest(remaining);
    TakeLargest(nodes, root, t, np);
    assert np in Subtree(nodes, root);
    assert np in Subtree(nodes, np);
  }

  /** A leaf taken out moves to `out`. */
  lemma PruneLeaf<M>(nodes: seq<Node<M>>, root: nat, regs: nat, remaining: set<nat>, moved: set<nat>,
                     t: nat, np: nat)
    requires WellFormed(nodes) && root < |nodes|
    requires PruneState(nodes, root, regs, remaining, moved, t) && 0 < |remaining| < regs
    requires np in remaining && forall y :: y in remaining ==> y <= np
    requires np < |nodes| && IsLeaf(nodes[np])
    ensures PruneState(nodes, root, regs, remaining - {np}, moved + {np}, np)
  {
    PruneStep(nodes, root, regs, remaining, moved, t, np);
    MoveLeaf(nodes, root, remaining, moved, np);
  }

  /** An inner node taken out is replaced by its two children. */
  lemma PruneInner<M>(nodes: seq<Node<M>>, root: nat, regs: nat, remaining: set<nat>, moved: set<nat>,
                      t: nat, np: nat)
    requires WellFormed(nodes) && Binary(nodes) && root < |nodes|
    requires PruneState(nodes, root, regs, remaining, moved, t) && 0 < |remaining| < regs
    requires np in remaining && forall y :: y in remaining ==> y <= np
    requires np < |nodes| && !IsLeaf(nodes[np])
    ensures NodeOk(nodes, np)
    ensures PruneState(nodes, root, regs, remaining - {np} + {nodes[np].left.value, nodes[np].right.value},
                       moved, np)
  {
    PruneStep(nodes, root, regs, remaining, moved, t, np);
    Expand(nodes, root, remaining, moved, np);
  }

  /** Where NRegs_prune stops, what waits and what is reached make up the
   *  cut its threshold order defines. */
  lemma PruneStops<M>(nodes: seq<Node<M>>, root: nat, regs: nat, remaining: set<nat>, moved: set<nat>,
                      t: nat)
    requires WellFormed(nodes) && root < |nodes|
    requires PruneState(nodes, root, regs, remaining, moved, t)
    requires |remaining| == 0 || |remaining| >= regs
    ensures remaining + moved == NRegsCut(nodes, root, regs)
  {
    assert remaining == {} || |remaining| >= regs;
  }

  lemma FrontierStart<M>(nodes: seq<Node<M>>, root: nat)
    requires WellFormed(nodes) && root < |nodes|
    ensures Frontier(nodes, root, {root}, {})
  {
    assert root in Subtree(nodes, root);
    LeafSetIsLeaves(nodes, root);
  }

  /** When NRegs_prune stops, the remaining and moved nodes are a cut that
   *  is every leaf (nothing remains) or has at least `regs` nodes. */
  lemma FrontierEnd<M>(nodes: seq<Node<M>>, root: nat, remaining: set<nat>, moved: set<nat>, regs: nat)
    requires WellFormed(nodes) && root < |nodes|
    requires Frontier(nodes, root, remaining, moved)
    requires |remaining| == 0 || |remaining| >= regs
    ensures Cut(nodes, root, remaining + moved)
    ensures remaining + moved == LeafSet(nodes, root) || |remaining + moved| >= regs
  {
    if |remaining| == 0 {
      assert remaining + moved == moved;
      LeafCut(nodes, root, moved);
    } else {
      SubsetSize(remaining, remaining + moved);
    }
  }

  lemma UnionAdd(a: set<nat>, b: set<nat>, x: nat)
    ensures a + b + {x} == a + (b + {x})
  {
  }

  lemma UnionAddAll(a: set<nat>, b: set<nat>, c: set<nat>)
    ensures a + b + c == a + (c + b)
  {
  }

  lemma {:induction false} SubsetSize(a: set<nat>, b: set<nat>)
    requires a <= b
    ensures |a| <= |b|
  {
    if a != {} {
      var x :| x in a;
      SubsetSize(a - {x}, b - {x});
    }
  }
}
