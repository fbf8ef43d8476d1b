/** BPTConstructor: the greedy construction of the Binary Partition Tree.
 *
 *  The constructor keeps the alive nodes and the pool of candidate
 *  dissimilarities (the engine's `aliveDissimilarities`, ordered by
 *  pdiss_value_less). Each step pops the pool's first dissimilarity, merges
 *  its two endpoints into a new father, relinks every neighbour of the
 *  merged nodes to the father, reconciles the pool and releases the merged
 *  nodes' dissimilarities.
 *
 *  The nodes live in a `NodeStore`, the dissimilarities in the arena
 *  `edges` (key = identity, `nextEdge` = the next fresh key). The
 *  dissimilarity measure and the region-model merge are parameters. The
 *  engine's error checks, which log and carry on, end the step with an
 *  error here. */
module BPTConstructor {
  import opened Wrappers
  import opened Dissimilarity
  import opened BPTNode
  import opened PoolInvariant
  import opened MergeStep
  import opened Relinking
  import opened StepRemoval
  import opened SavingPolicy
  import opened Reconcile
  import opened NeighbourErase

  datatype ConstructionError =
    | Dangling            // the pool holds a dissimilarity that was already released
    | AlreadyMerged       // "Selected nodes already merged"
    | NotAlive            // "nodea/nodeb is not in aliveNodes"
    | EmptyNeighborhood   // a neighbour with no dissimilarity: its first one cannot be read
    | NotInNeighborhood   // "nodea/nodeb is not in its neighbor's neighborhood"

  /** Every dissimilarity of the arena joins two nodes of the store. */
  ghost predicate ArenaOk(E: map<nat, Diss>, size: nat)
  {
    forall k :: k in E ==> E[k].a < size && E[k].b < size
  }

  /** The first dissimilarities of a set of leaves. */
  ghost function LeafFirsts<M>(E: map<nat, Diss>, nodes: seq<Node<M>>, leaves: set<nat>): set<nat>
  {
    set l | l in leaves && l < |nodes| && nodes[l].diss != {} && nodes[l].diss <= E.Keys :: FirstOf(E, nodes[l].diss)
  }

  /** When the leaves are the alive nodes of a graph in shape, each with a
   *  dissimilarity, the pool of their first dissimilarities satisfies the
   *  pool invariant. */
  lemma InitialPoolOk<M>(E: map<nat, Diss>, nodes: seq<Node<M>>, leaves: set<nat>, symmetric: bool)
    requires GraphOk(E, nodes, leaves, symmetric)
    requires forall l :: l in leaves ==> l < |nodes| && nodes[l].diss != {}
    ensures PoolOk(E, nodes, LeafFirsts(E, nodes, leaves))
  {
    var pool := LeafFirsts(E, nodes, leaves);
    forall p | p in pool
      ensures FirstOfEndpoint(E, nodes, p)
    {
      var l :| l in leaves && l < |nodes| && nodes[l].diss != {} && nodes[l].diss <= E.Keys && p == FirstOf(E, nodes[l].diss);
      assert EdgeAt(E, nodes, l, p);
    }
    forall x | MutualFirst(E, nodes, x)
      ensures x in pool
    {
      var l := E[x].a;
      assert x in nodes[l].diss;
      assert l in leaves;
      forall k | k in nodes[l].diss
        ensures k in E
      {
        assert EdgeAt(E, nodes, l, k);
      }
      FirstUnique(E, nodes[l].diss, x, FirstOf(E, nodes[l].diss));
    }
  }

  /** What a visit needs to know about the state: `m` an old node other
   *  than the father, its set inside the arena, and when `m` is already a
   *  father neighbour, its new dissimilarity held and distinct from `x`. */
  ghost predicate VisitPre<M>(g: Before<M>, p: Progress<M>, onA: bool, x: nat, m: nat)
  {
    m < |p.ns| && g.F < |p.ns| && m != g.F && p.ns[m].diss <= p.E.Keys && p.fe.Keys == p.rv.Keys &&
    m < |g.n0| && p.ns[g.F].model == g.fm && p.ns[m].model == g.n0[m].model &&
    (m in p.fe ==> p.rv[m] in p.ns[m].diss && p.rv[m] != x) &&
    (g.symmetric ==> x in p.ns[m].diss)
  }

  /** The stores and arenas a visit goes through amount to one visit step. */
  lemma VisitStateOf<M>(g: Before<M>, p: Progress<M>, q: Progress<M>, onA: bool, x: nat, m: nat,
                        next: nat, next': nat, v1: real, v2: real, ns1: seq<Node<M>>, create: bool)
    requires VisitPre(g, p, onA, x, m) && x in p.ns[m].diss && (create <==> m !in p.fe)
    requires ns1 == p.ns[m := p.ns[m].(diss := p.ns[m].diss - {x})]
    requires q.Pa == Mark(p, onA, x).Pa && q.Pb == Mark(p, onA, x).Pb
    requires create ==>
      q.fe == p.fe[m := next] && q.rv == p.rv[m := if g.symmetric then next else next + 1] &&
      next' == q.rv[m] + 1 &&
      q.E == (if g.symmetric then p.E[next := Diss(g.F, m, v1)]
              else p.E[next := Diss(g.F, m, v1)][next + 1 := Diss(m, g.F, v2)]) &&
      q.ns == ns1[g.F := ns1[g.F].(diss := ns1[g.F].diss + {next})][m := ns1[m].(diss := ns1[m].diss + {q.rv[m]})]
    requires !create ==> q.E == p.E && q.ns == ns1 && q.fe == p.fe && q.rv == p.rv && next' == next
    requires create ==> v1 == g.measure(g.fm, g.n0[m].model) && (!g.symmetric ==> v2 == g.measure(g.n0[m].model, g.fm))
    ensures VisitState(g, p, q, onA, x, m, next, next', v1, v2)
    ensures q.ns[m].diss != {} && q.ns[m].diss <= q.E.Keys && q.fe.Keys == p.fe.Keys + {m}
  {
    if create {
      var r := q.rv[m];
      var ns2 := p.ns[m := p.ns[m].(diss := p.ns[m].diss - {x} + {r})][g.F := p.ns[g.F].(diss := p.ns[g.F].diss + {next})];
      assert q.ns == ns2 by {
        assert |q.ns| == |ns2|;
        forall i | 0 <= i < |ns2|
          ensures q.ns[i] == ns2[i]
        {
        }
      }
      assert r in q.ns[m].diss;
    } else {
      assert p.rv[m] in q.ns[m].diss;
    }
  }

  /** The loop invariant and the premise of a visit give what the visit
   *  needs. */
  lemma VisitPreOf<M>(g: Before<M>, p: Progress<M>, next: nat, onA: bool, x: nat, m: nat)
    requires Inv(g, p, next) && Premise(g, p, onA, x, m)
    ensures VisitPre(g, p, onA, x, m)
  {
    PremiseTarget(g, p, onA, x, m);
    ModelsKept(g, p.ns, m);
    assert Links(g, p.E, p.ns, p.fe, p.rv);
    if m in p.fe {
      RelinkedHoldsNew(g, p, next, m);
    }
    if g.symmetric {
      SymmetricNeighbourHolds(g, p, next, onA, x, m);
    }
  }

  /** A visit joins the father only to an old node: the arena still joins
   *  nodes of the store. */
  lemma VisitKeepsArena<M>(g: Before<M>, p: Progress<M>, q: Progress<M>, onA: bool, x: nat, m: nat,
                           next: nat, next': nat, v1: real, v2: real)
    requires VisitState(g, p, q, onA, x, m, next, next', v1, v2) && ArenaOk(p.E, |p.ns|)
    ensures ArenaOk(q.E, |q.ns|)
  {
  }

  /** The record of changed firsts after a visit of `m`, whose set is now
   *  `S`: `m`'s old first dissimilarity is recorded when its first one
   *  changed, unless `m` already has a record. */
  method NextRecord(E: map<nat, Diss>, S: set<nat>, oldFirst: nat, m: nat, R: map<nat, nat>)
    returns (R': map<nat, nat>)
    requires S != {} && S <= E.Keys
    ensures R' == if FirstOf(E, S) != oldFirst && m !in R then R[m := oldFirst] else R
  {
    R' := R;
    var newFirst := First(E, S);
    FirstUnique(E, S, newFirst, FirstOf(E, S));
    if newFirst != oldFirst && m !in R {
      R' := R[m := oldFirst];
    }
  }

  /** The dissimilarities the engine releases after a merge: those of `a`
   *  that do not lead to `b`, and all those of `b`. */
  ghost function Released(E: map<nat, Diss>, A: set<nat>, B: set<nat>, a: nat, b: nat): set<nat>
  {
    (set x | x in A && x in E && GetNeighbor(E[x], a) != Some(b)) + B
  }

  /** After the relinking phase the pool update can read the sets it needs:
   *  the father's and the recorded neighbours', which clearing the merged
   *  nodes does not touch; no recorded old first dissimilarity is a father
   *  dissimilarity. */
  lemma ReadyToUpdate<M>(g: Before<M>, p: Progress<M>, E: map<nat, Diss>, ns: seq<Node<M>>, R: map<nat, nat>)
    requires Links(g, p.E, p.ns, p.fe, p.rv) && ChangedFirsts(g.E0, g.n0, p.E, p.ns, p.fe.Keys, p.R)
    requires E == p.E && ns == p.ns && R == p.R
    ensures var n1 := Cleared(g, ns);
      g.a < |ns| && g.b < |ns| && ns[g.a].diss <= E.Keys &&
      g.F < |ns| && g.F < |n1| && ns[g.F].diss == n1[g.F].diss && ns[g.F].diss <= E.Keys &&
      (forall n :: n in R ==>
         n < |ns| && n < |n1| && ns[n].diss == n1[n].diss && n1[n].diss != {} && n1[n].diss <= E.Keys) &&
      (forall n :: n in R ==> R[n] !in FatherFirst(E, n1, g.F))
  {
    var n1 := Cleared(g, ns);
    forall n | n in R
      ensures R[n] !in FatherFirst(E, n1, g.F)
    {
      assert R[n] in g.E0;
      forall k | k in n1[g.F].diss
        ensures k !in g.E0
      {
        var m :| m in p.fe && p.fe[m] == k;
      }
    }
  }

  /** The state a merge ends in, for a pool `pool1` after the pool update:
   *  the released dissimilarities gone from the arena, the merged nodes'
   *  sets cleared, the father alive instead of them. */
  ghost predicate Outcome<M>(g: Before<M>, p: Progress<M>, next: nat, pool1: set<nat>)
  {
    g.a < |p.ns| && g.b < |p.ns| && g.F < |p.ns| &&
    var E1 := p.E - Released(p.E, p.ns[g.a].diss, p.ns[g.b].diss, g.a, g.b);
    var n1 := Cleared(g, p.ns);
    var al1 := g.al0 - {g.a, g.b} + {g.F};
    StepFacts(g.E0, g.n0, g.al0, E1, n1, al1, Record(g, p), g.symmetric) &&
    StepValues(E1, n1, Record(g, p), g.symmetric, g.measure) &&
    GraphOk(E1, n1, al1, g.symmetric) && WellFormed(n1) && Below(E1, next) && ArenaOk(E1, |n1|) &&
    Shape(n1) == Shape(WithFather(g)) &&
    (g.symmetric ==> PoolOk(E1, n1, pool1))
  }

  /** A pool within the bounds gives the outcome. */
  lemma ReadyOutcome<M>(g: Before<M>, p: Progress<M>, next: nat, pool0: set<nat>, pool1: set<nat>)
    requires ReadyToFinish(g, p, next, pool0)
    requires g.symmetric ==> PoolUpper(pool0, p.E, Cleared(g, p.ns), pool1, Record(g, p)) &&
                             PoolLower(pool0, p.E, Cleared(g, p.ns), pool1, Record(g, p))
    ensures Outcome(g, p, next, pool1)
  {
  }

  /** The state an outcome describes, spelled out. */
  lemma OutcomeFacts<M>(g: Before<M>, p: Progress<M>, next: nat, pool1: set<nat>,
                        E1: map<nat, Diss>, n1: seq<Node<M>>, al1: set<nat>)
    requires Outcome(g, p, next, pool1)
    requires n1 == Cleared(g, p.ns) && E1 == p.E - Released(p.E, p.ns[g.a].diss, p.ns[g.b].diss, g.a, g.b)
    requires al1 == g.al0 - {g.a, g.b} + {g.F}
    ensures StepFacts(g.E0, g.n0, g.al0, E1, n1, al1, Record(g, p), g.symmetric)
    ensures StepValues(E1, n1, Record(g, p), g.symmetric, g.measure)
    ensures GraphOk(E1, n1, al1, g.symmetric) && WellFormed(n1) && Below(E1, next) && ArenaOk(E1, |n1|)
    ensures Shape(n1) == Shape(Join(g.n0, g.a, g.b, g.fm))
    ensures g.symmetric ==> PoolOk(E1, n1, pool1)
  {
  }

  /** After the relinking phase: what the pool update and the release need,
   *  and the state the merge ends in for any pool within the bounds. */
  ghost predicate ReadyToFinish<M>(g: Before<M>, p: Progress<M>, next: nat, pool0: set<nat>)
  {
    g.a != g.b && g.a < |p.ns| && g.b < |p.ns| && p.ns[g.a].diss <= p.E.Keys &&
    var n1 := Cleared(g, p.ns);
    g.F < |p.ns| && p.ns[g.F].diss == n1[g.F].diss && p.ns[g.F].diss <= p.E.Keys &&
    (forall n :: n in p.R ==>
       n < |p.ns| && p.ns[n].diss == n1[n].diss && n1[n].diss != {} && n1[n].diss <= p.E.Keys) &&
    (forall n :: n in p.R ==> p.R[n] !in FatherFirst(p.E, n1, g.F)) &&
    (forall pool1 ::
       (g.symmetric ==> PoolUpper(pool0, p.E, n1, pool1, Record(g, p)) && PoolLower(pool0, p.E, n1, pool1, Record(g, p)))
       ==> Outcome(g, p, next, pool1))
  }

  /** At the end of the relinking phase the merge is ready to finish. */
  lemma MergeReady<M>(g: Before<M>, p: Progress<M>, next: nat, pool0: set<nat>)
    requires Inv(g, p, next) && Finished(g, p) && ArenaOk(p.E, |p.ns|)
    requires g.symmetric ==> PoolOk(g.E0, g.n0, pool0) && IsFirst(g.E0, pool0, g.e)
    ensures ReadyToFinish(g, p, next, pool0)
  {
    ReadyToUpdate(g, p, p.E, p.ns, p.R);
    var n1 := Cleared(g, p.ns);
    var gone := Released(p.E, p.ns[g.a].diss, p.ns[g.b].diss, g.a, g.b);
    var al1 := g.al0 - {g.a, g.b} + {g.F};
    forall pool1 | g.symmetric ==> PoolUpper(pool0, p.E, n1, pool1, Record(g, p)) && PoolLower(pool0, p.E, n1, pool1, Record(g, p))
      ensures Outcome(g, p, next, pool1)
    {
      MergeComplete(g, p, next, pool0, pool1, p.E - gone, n1, al1, gone);
    }
  }

  /** The end of a merge: the merged nodes' dissimilarities released and
   *  the pool updated, the construction state is in shape again, and with a
   *  symmetric measure the pool invariant holds again. */
  lemma MergeComplete<M>(g: Before<M>, p: Progress<M>, next: nat, pool0: set<nat>, pool1: set<nat>,
                         E1: map<nat, Diss>, n1: seq<Node<M>>, al1: set<nat>, gone: set<nat>)
    requires Inv(g, p, next) && Finished(g, p) && ArenaOk(p.E, |p.ns|)
    requires gone == Released(p.E, p.ns[g.a].diss, p.ns[g.b].diss, g.a, g.b) && E1 == p.E - gone
    requires n1 == Cleared(g, p.ns) && al1 == g.al0 - {g.a, g.b} + {g.F}
    requires g.symmetric ==>
      PoolOk(g.E0, g.n0, pool0) && IsFirst(g.E0, pool0, g.e) &&
      PoolUpper(pool0, p.E, Cleared(g, p.ns), pool1, Record(g, p)) &&
      PoolLower(pool0, p.E, Cleared(g, p.ns), pool1, Record(g, p))
    ensures
      StepFacts(g.E0, g.n0, g.al0, E1, n1, al1, Record(g, p), g.symmetric) &&
      StepValues(E1, n1, Record(g, p), g.symmetric, g.measure) &&
      GraphOk(E1, n1, al1, g.symmetric) && WellFormed(n1) && Below(E1, next) && ArenaOk(E1, |n1|) &&
      Shape(n1) == Shape(WithFather(g)) &&
      (g.symmetric ==> PoolOk(E1, n1, pool1))
  {
    var st := Record(g, p);
    RelinkEnd(g, p, next);
    EndShape(g, p);
    assert Sets(g, p.ns, p.Pa, p.Pb, p.rv);
    assert gone <= g.n0[g.a].diss + g.n0[g.b].diss;
    assert gone <= g.E0.Keys by {
      forall x | x in gone
        ensures x in g.E0
      {
        if x in g.n0[g.a].diss {
          assert EdgeAt(g.E0, g.n0, g.a, x);
        } else {
          assert EdgeAt(g.E0, g.n0, g.b, x);
        }
      }
    }
    assert Without(p.E, E1, gone);
    RemovalKeepsValues(g.E0, g.n0, g.al0, p.E, E1, n1, g.al0 - {g.a, g.b} + {g.F}, st, g.symmetric, g.measure, gone);
    RemovalKeepsStep(g.E0, g.n0, g.al0, p.E, E1, n1, al1, st, g.symmetric, gone);
    StepKeepsGraph(g.E0, g.n0, g.al0, E1, n1, al1, st, g.symmetric);
    if g.symmetric {
      RemovalKeepsPool(g.E0, g.n0, g.al0, pool0, p.E, E1, n1, al1, pool1, st, g.symmetric, gone);
      StepKeepsPool(g.E0, g.n0, g.al0, pool0, E1, n1, al1, pool1, st);
    }
  }

  lemma Associative<T>(a: seq<T>, b: seq<T>, c: seq<T>)
    ensures a + b + c == a + (b + c)
  {
  }

  /** A merge takes two alive nodes out and puts one new node in. */
  lemma MergeShrinksAlive<M>(E0: map<nat, Diss>, n0: seq<Node<M>>, al0: set<nat>,
                             E1: map<nat, Diss>, n1: seq<Node<M>>, al1: set<nat>,
                             st: StepRecord, symmetric: bool)
    requires GraphOk(E0, n0, al0, symmetric)
    requires StepFacts(E0, n0, al0, E1, n1, al1, st, symmetric)
    ensures |al1| + 1 == |al0|
  {
    assert st.F !in al0;
    var rest := al0 - {st.a, st.b};
    assert al0 == rest + {st.a, st.b};
    assert al1 == rest + {st.F};
  }

  /** One more merge extends the replay of the merges before it. */
  lemma MergeExtendsReplay<M>(S0: seq<Node<M>>, ds: seq<Diss>, d: Diss, merge: (M, M) -> M,
                              before: seq<Node<M>>, after: seq<Node<M>>)
    requires PairsFit(|S0|, MergedPairs(ds)) && Shape(before) == Replay(S0, MergedPairs(ds), merge)
    requires d.a < |before| && d.b < |before|
    requires Shape(after) == Shape(Join(before, d.a, d.b, merge(before[d.a].model, before[d.b].model)))
    ensures PairsFit(|S0|, MergedPairs(ds + [d]))
    ensures Shape(after) == Replay(S0, MergedPairs(ds + [d]), merge)
  {
    assert MergedPairs(ds + [d]) == MergedPairs(ds) + [(d.a, d.b)];
    ReplayAppend(S0, MergedPairs(ds), d.a, d.b, merge);
    ShapeJoin(before, d.a, d.b, merge(before[d.a].model, before[d.b].model));
    assert Shape(before)[d.a].model == before[d.a].model && Shape(before)[d.b].model == before[d.b].model;
  }

  /** What one successful merge adds to the construction loop's trace: one
   *  selected dissimilarity, one node fewer alive, one more merge in the
   *  replay. */
  lemma LoopStep<M>(S0: seq<Node<M>>, mid: seq<Event>, evs: seq<Event>, merge: (M, M) -> M,
                    E0: map<nat, Diss>, n0: seq<Node<M>>, al0: set<nat>,
                    E1: map<nat, Diss>, n1: seq<Node<M>>, al1: set<nat>, st: StepRecord, symmetric: bool)
    requires GraphOk(E0, n0, al0, symmetric) && StepFacts(E0, n0, al0, E1, n1, al1, st, symmetric)
    requires Inner(mid) && evs == [Selected(E0[st.e]), FatherNode(st.F)]
    requires PairsFit(|S0|, MergedPairs(SelectedIn(mid))) && Shape(n0) == Replay(S0, MergedPairs(SelectedIn(mid)), merge)
    requires Shape(n1) == Shape(Join(n0, st.a, st.b, merge(n0[st.a].model, n0[st.b].model)))
    ensures Inner(mid + evs) && |al1| + 1 == |al0| && |SelectedIn(mid + evs)| == |SelectedIn(mid)| + 1
    ensures PairsFit(|S0|, MergedPairs(SelectedIn(mid + evs)))
    ensures Shape(n1) == Replay(S0, MergedPairs(SelectedIn(mid + evs)), merge)
  {
    MergeShrinksAlive(E0, n0, al0, E1, n1, al1, st, symmetric);
    SelectedInAppend(mid, evs);
    SelectedInStep(E0[st.e], st.F);
    MergeExtendsReplay(S0, SelectedIn(mid), E0[st.e], merge, n0, n1);
  }

  /** One successful merge extends the merges of alive nodes: the pair it
   *  merges names two distinct alive nodes, and the alive set afterwards is
   *  the one those merges leave. */
  lemma LoopStepAlive<M>(S0: seq<Node<M>>, A0: set<nat>, mid: seq<Event>, evs: seq<Event>,
                         E0: map<nat, Diss>, n0: seq<Node<M>>, al0: set<nat>,
                         E1: map<nat, Diss>, n1: seq<Node<M>>, al1: set<nat>, st: StepRecord, symmetric: bool)
    requires StepFacts(E0, n0, al0, E1, n1, al1, st, symmetric)
    requires evs == [Selected(E0[st.e]), FatherNode(st.F)]
    requires |n0| == |S0| + |SelectedIn(mid)|
    requires MergesAlive(A0, MergedPairs(SelectedIn(mid)), |S0|) && al0 == AliveAfter(A0, MergedPairs(SelectedIn(mid)), |S0|)
    ensures MergesAlive(A0, MergedPairs(SelectedIn(mid + evs)), |S0|)
    ensures al1 == AliveAfter(A0, MergedPairs(SelectedIn(mid + evs)), |S0|)
  {
    var d := E0[st.e];
    SelectedInAppend(mid, evs);
    SelectedInStep(d, st.F);
    assert MergedPairs(SelectedIn(mid) + [d]) == MergedPairs(SelectedIn(mid)) + [(d.a, d.b)];
    AliveStep(A0, MergedPairs(SelectedIn(mid)), |S0|, d.a, d.b);
  }

  /** The construction loop's record of its merges: the pairs `mid`
   *  selected, replayed from `S0`, give the current tree, and each merges two
   *  distinct nodes alive at its turn, starting from `A0` and leaving
   *  `alive`. */
  ghost predicate Traced<M>(S0: seq<Node<M>>, A0: set<nat>, mid: seq<Event>, nodes: seq<Node<M>>, alive: set<nat>,
                            merge: (M, M) -> M)
  {
    var P := MergedPairs(SelectedIn(mid));
    |alive| + |P| == |A0| && PairsFit(|S0|, P) && Shape(nodes) == Replay(S0, P, merge) &&
    MergesAlive(A0, P, |S0|) && alive == AliveAfter(A0, P, |S0|)
  }

  class Constructor<M> {
    const store: NodeStore<M>
    const symmetric: bool
    const measure: (M, M) -> real
    const merge: (M, M) -> M
    var edges: map<nat, Diss>
    var nextEdge: nat
    var alive: set<nat>
    var pool: set<nat>
    var events: seq<Event>

    /** The shape of the alive graph, the arena, and with a symmetric
     *  measure the pool invariant. */
    ghost predicate Valid()
      reads this, store
    {
      GraphOk(edges, store.nodes, alive, symmetric) && WellFormed(store.nodes) &&
      Below(edges, nextEdge) && ArenaOk(edges, |store.nodes|) &&
      (symmetric ==> PoolOk(edges, store.nodes, pool))
    }

    /** The constructor over a set of leaves: every leaf is alive and its
     *  first dissimilarity enters the pool. */
    constructor FromSet(store: NodeStore<M>, leaves: set<nat>, edges: map<nat, Diss>, nextEdge: nat,
                        symmetric: bool, measure: (M, M) -> real, merge: (M, M) -> M)
      requires forall l :: l in leaves ==> l < |store.nodes| && store.nodes[l].diss != {} && store.nodes[l].diss <= edges.Keys
      requires GraphOk(edges, store.nodes, leaves, symmetric) && WellFormed(store.nodes)
      requires Below(edges, nextEdge) && ArenaOk(edges, |store.nodes|)
      ensures Valid()
      ensures this.store == store && this.symmetric == symmetric && this.measure == measure && this.merge == merge
      ensures this.edges == edges && this.nextEdge == nextEdge && events == []
      ensures alive == leaves && pool == LeafFirsts(edges, store.nodes, leaves)
    {
      this.store, this.symmetric, this.measure, this.merge := store, symmetric, measure, merge;
      this.edges, this.nextEdge, events := edges, nextEdge, [];
      alive, pool := {}, {};
      new;
      var todo := leaves;
      while todo != {}
        invariant this.store == store && this.edges == edges && this.nextEdge == nextEdge && events == []
        invariant todo <= leaves && alive == leaves - todo
        invariant pool == LeafFirsts(edges, store.nodes, alive)
        decreases todo
      {
        var l :| l in todo;
        var f := First(edges, store.nodes[l].diss);
        FirstUnique(edges, store.nodes[l].diss, f, FirstOf(edges, store.nodes[l].diss));
        alive := alive + {l};
        pool := pool + {f};
        todo := todo - {l};
      }
      InitialPoolOk(edges, store.nodes, leaves, symmetric);
    }

    /** Gives the father `F` a new dissimilarity to its neighbour `m`, and
     *  `m` the same one (symmetric measure) or a new reverse one. */
    method JoinFather(F: nat, m: nat) returns (fd: nat, rv: nat, ghost v1: real, ghost v2: real)
      requires F < |store.nodes| && m < |store.nodes| && F != m
      modifies this, store
      ensures fd == old(nextEdge) && rv == (if symmetric then fd else fd + 1) && nextEdge == rv + 1
      ensures v1 == measure(old(store.nodes)[F].model, old(store.nodes)[m].model)
      ensures v2 == (if symmetric then 0.0 else measure(old(store.nodes)[m].model, old(store.nodes)[F].model))
      ensures edges == (if symmetric then old(edges)[fd := Diss(F, m, v1)]
                        else old(edges)[fd := Diss(F, m, v1)][rv := Diss(m, F, v2)])
      ensures store.nodes == old(store.nodes)[F := old(store.nodes)[F].(diss := old(store.nodes)[F].diss + {fd})]
                                             [m := old(store.nodes)[m].(diss := old(store.nodes)[m].diss + {rv})]
      ensures alive == old(alive) && pool == old(pool) && events == old(events)
    {
      var d1 := measure(store.nodes[F].model, store.nodes[m].model);
      v1, v2 := d1, 0.0;
      fd := nextEdge;
      edges := edges[fd := Diss(F, m, d1)];
      nextEdge := nextEdge + 1;
      store.SetDissimilarities(F, store.nodes[F].diss + {fd});
      if symmetric {
        rv := fd;
      } else {
        var d2 := measure(store.nodes[m].model, store.nodes[F].model);
        v2 := d2;
        rv := nextEdge;
        edges := edges[rv := Diss(m, F, d2)];
        nextEdge := nextEdge + 1;
      }
      store.SetDissimilarities(m, store.nodes[m].diss + {rv});
    }

    /** The body of the relinking loops for a dissimilarity `x` of a merged
     *  node whose neighbour `m` is not the other merged node: `m`'s old
     *  first dissimilarity is read, `x` is erased from `m`'s set, `m`
     *  becomes a father neighbour (joined to the father when `create`),
     *  and `m`'s old first dissimilarity is recorded, first record kept,
     *  when its first dissimilarity changed. */
    method Visit(ghost g: Before<M>, ghost p: Progress<M>, onA: bool, F: nat, x: nat, m: nat, create: bool,
                 fatherNeighbors: set<nat>, R: map<nat, nat>)
      returns (err: Option<ConstructionError>, fatherNeighbors': set<nat>, R': map<nat, nat>,
               ghost q: Progress<M>, ghost v1: real, ghost v2: real)
      requires VisitPre(g, p, onA, x, m)
      requires g.symmetric == symmetric && g.measure == measure && F == g.F
      requires store.nodes == p.ns && edges == p.E && fatherNeighbors == p.fe.Keys && R == p.R
      requires create <==> m !in p.fe
      modifies this, store
      ensures symmetric ==> err.None?
      ensures err.None? ==>
        VisitState(g, p, q, onA, x, m, old(nextEdge), nextEdge, v1, v2) && VisitRecord(p, q, m) &&
        store.nodes == q.ns && edges == q.E && fatherNeighbors' == q.fe.Keys && R' == q.R
      ensures alive == old(alive) && pool == old(pool) && events == old(events)
    {
      fatherNeighbors', R', q, v1, v2 := fatherNeighbors, R, p, 0.0, 0.0;
      if store.nodes[m].diss == {} {
        err := Some(EmptyNeighborhood);
        return;
      }
      var oldFirst := First(edges, store.nodes[m].diss);
      var erased := EraseAsWritten(store.nodes[m].diss, x);
      if erased.1 == 0 {
        err := Some(NotInNeighborhood);
        return;
      }
      fatherNeighbors' := fatherNeighbors + {m};
      q, v1, v2 := Detach(g, p, onA, F, x, m, create);
      R' := NextRecord(edges, store.nodes[m].diss, oldFirst, m, R);
      err := None;
      q := q.(R := R');
      FirstUnique(p.E, p.ns[m].diss, oldFirst, FirstOf(p.E, p.ns[m].diss));
    }

    /** The visited dissimilarity leaves `m`'s set and, when `create`, `m`
     *  is joined to the father. */
    method Detach(ghost g: Before<M>, ghost p: Progress<M>, onA: bool, F: nat, x: nat, m: nat, create: bool)
      returns (ghost q: Progress<M>, ghost v1: real, ghost v2: real)
      requires VisitPre(g, p, onA, x, m) && x in p.ns[m].diss
      requires g.symmetric == symmetric && g.measure == measure && F == g.F
      requires store.nodes == p.ns && edges == p.E
      requires create <==> m !in p.fe
      modifies this, store
      ensures VisitState(g, p, q, onA, x, m, old(nextEdge), nextEdge, v1, v2)
      ensures q.ns[m].diss != {} && q.ns[m].diss <= q.E.Keys && q.fe.Keys == p.fe.Keys + {m}
      ensures store.nodes == q.ns && edges == q.E && q.R == p.R
      ensures alive == old(alive) && pool == old(pool) && events == old(events)
    {
      v1, v2 := 0.0, 0.0;
      ghost var next := nextEdge;
      store.SetDissimilarities(m, store.nodes[m].diss - {x});
      ghost var ns1 := store.nodes;
      ghost var fe, rvs := p.fe, p.rv;
      if create {
        var fd, rv;
        fd, rv, v1, v2 := JoinFather(F, m);
        fe, rvs := p.fe[m := fd], p.rv[m := rv];
      }
      q := Progress(edges, store.nodes, Mark(p, onA, x).Pa, Mark(p, onA, x).Pb, fe, rvs, p.R);
      VisitStateOf(g, p, q, onA, x, m, next, nextEdge, v1, v2, ns1, create);
    }

    /** A visit from the relinking loop, which keeps the loop invariant. */
    method VisitNeighbour(ghost g: Before<M>, ghost p: Progress<M>, onA: bool, F: nat, x: nat, m: nat,
                          fatherNeighbors: set<nat>, R: map<nat, nat>)
      returns (err: Option<ConstructionError>, fatherNeighbors': set<nat>, R': map<nat, nat>, ghost q: Progress<M>)
      requires Inv(g, p, nextEdge) && Premise(g, p, onA, x, m) && (onA ==> p.Pb == {})
      requires g.symmetric == symmetric && g.measure == measure && F == g.F
      requires store.nodes == p.ns && edges == p.E && fatherNeighbors == p.fe.Keys && R == p.R
      requires ArenaOk(edges, |store.nodes|)
      modifies this, store
      ensures symmetric ==> err.None?
      ensures err.None? ==>
        Inv(g, q, nextEdge) && store.nodes == q.ns && edges == q.E && fatherNeighbors' == q.fe.Keys && R' == q.R &&
        ArenaOk(edges, |store.nodes|) &&
        q.Pa == Mark(p, onA, x).Pa && q.Pb == Mark(p, onA, x).Pb
      ensures alive == old(alive) && pool == old(pool) && events == old(events)
    {
      VisitPreOf(g, p, nextEdge, onA, x, m);
      if onA {
        FirstLoopNeighbourIsNew(g, p, nextEdge, x);
      }
      var create := onA || m !in fatherNeighbors;
      ghost var next := nextEdge;
      ghost var v1, v2;
      err, fatherNeighbors', R', q, v1, v2 := Visit(g, p, onA, F, x, m, create, fatherNeighbors, R);
      if err.None? {
        VisitKeepsInv(g, p, q, onA, x, m, next, nextEdge, v1, v2);
        VisitKeepsArena(g, p, q, onA, x, m, next, nextEdge, v1, v2);
      }
    }

    /** One dissimilarity `x` of the merged node `u` in a relinking loop:
     *  visited when it leads to a neighbour, passed over when it leads to
     *  the other merged node `w`. */
    method RelinkOne(ghost g: Before<M>, ghost p: Progress<M>, onA: bool, u: nat, w: nat, F: nat, x: nat,
                     fatherNeighbors: set<nat>, R: map<nat, nat>)
      returns (err: Option<ConstructionError>, fatherNeighbors': set<nat>, R': map<nat, nat>, ghost q: Progress<M>)
      requires Inv(g, p, nextEdge) && g.symmetric == symmetric && g.measure == measure && F == g.F
      requires u == Visited(g, onA) && w == Skipped(g, onA)
      requires store.nodes == p.ns && edges == p.E && fatherNeighbors == p.fe.Keys && R == p.R
      requires x in g.n0[u].diss && x !in (if onA then p.Pa else p.Pb) && (onA ==> p.Pb == {})
      requires ArenaOk(edges, |store.nodes|)
      modifies this, store
      ensures symmetric ==> err.None?
      ensures err.None? ==>
        Inv(g, q, nextEdge) && store.nodes == q.ns && edges == q.E && fatherNeighbors' == q.fe.Keys && R' == q.R &&
        ArenaOk(edges, |store.nodes|) &&
        q.Pa == Mark(p, onA, x).Pa && q.Pb == Mark(p, onA, x).Pb
      ensures alive == old(alive) && pool == old(pool) && events == old(events)
    {
      MergedEdgeInArena(g, p, nextEdge, onA, x);
      var m := Other(edges[x], u);
      if m != w {
        err, fatherNeighbors', R', q := VisitNeighbour(g, p, onA, F, x, m, fatherNeighbors, R);
      } else {
        SkipKeepsInv(g, p, nextEdge, onA, x);
        err, fatherNeighbors', R', q := None, fatherNeighbors, R, Mark(p, onA, x);
      }
    }

    /** One relinking loop: every dissimilarity `x` of the merged node `u`,
     *  in order, is visited unless it leads to the other merged node `w`.
     *  The first loop (`onA`) joins every neighbour to the father; the
     *  second joins only the neighbours the first did not reach. */
    method RelinkLoop(ghost g: Before<M>, ghost p0: Progress<M>, onA: bool, u: nat, w: nat, F: nat,
                      fatherNeighbors: set<nat>, R: map<nat, nat>)
      returns (err: Option<ConstructionError>, fatherNeighbors': set<nat>, R': map<nat, nat>, ghost p: Progress<M>)
      requires Inv(g, p0, nextEdge) && g.symmetric == symmetric && g.measure == measure && F == g.F
      requires u == Visited(g, onA) && w == Skipped(g, onA)
      requires store.nodes == p0.ns && edges == p0.E && fatherNeighbors == p0.fe.Keys && R == p0.R
      requires (if onA then p0.Pa else p0.Pb) == {} && (onA ==> p0.Pb == {})
      requires ArenaOk(edges, |store.nodes|)
      modifies this, store
      ensures symmetric ==> err.None?
      ensures err.None? ==>
        Inv(g, p, nextEdge) && store.nodes == p.ns && edges == p.E && fatherNeighbors' == p.fe.Keys && R' == p.R &&
        ArenaOk(edges, |store.nodes|)
      ensures err.None? ==>
        if onA then p.Pa == g.n0[g.a].diss && p.Pb == p0.Pb else p.Pb == g.n0[g.b].diss && p.Pa == p0.Pa
      ensures alive == old(alive) && pool == old(pool) && events == old(events)
    {
      fatherNeighbors', R', p, err := fatherNeighbors, R, p0, None;
      assert Sets(g, p.ns, p.Pa, p.Pb, p.rv);
      var todo := store.nodes[u].diss;
      while todo != {}
        invariant Inv(g, p, nextEdge) && store.nodes == p.ns && edges == p.E
        invariant fatherNeighbors' == p.fe.Keys && R' == p.R && ArenaOk(edges, |store.nodes|)
        invariant todo <= g.n0[u].diss && (if onA then p.Pa else p.Pb) == g.n0[u].diss - todo
        invariant if onA then p.Pb == p0.Pb else p.Pa == p0.Pa
        invariant alive == old(alive) && pool == old(pool) && events == old(events) && err.None?
        decreases todo
      {
        assert todo <= edges.Keys by {
          assert Links(g, p.E, p.ns, p.fe, p.rv) && Sets(g, p.ns, p.Pa, p.Pb, p.rv);
        }
        var x := First(edges, todo);
        ghost var before := p;
        err, fatherNeighbors', R', p := RelinkOne(g, p, onA, u, w, F, x, fatherNeighbors', R');
        if err.Some? {
          return;
        }
        Advance(g.n0[u].diss, todo, if onA then before.Pa else before.Pb, x);
        todo := todo - {x};
      }
    }

    /** Pops the pool's first dissimilarity, reports it to the saving
     *  policy and takes its endpoints out of the alive set, after the
     *  engine's checks: a released dissimilarity in the pool, an endpoint
     *  already merged, an endpoint not alive. With a symmetric measure none
     *  of them fails, and the popped dissimilarity is the smallest one of
     *  the alive graph and the first one of both its endpoints. */
    method Select() returns (err: Option<ConstructionError>, e: nat, a: nat, b: nat)
      requires Valid() && pool != {}
      modifies this
      ensures symmetric ==> err.None?
      ensures err.None? ==>
        IsFirst(edges, old(pool), e) && a == edges[e].a && b == edges[e].b && a != b &&
        a in old(alive) && b in old(alive) && alive == old(alive) - {a, b} && pool == old(pool) - {e}
      ensures err == Some(Dangling) ==> events == old(events)
      ensures err != Some(Dangling) ==> e in edges && events == old(events) + [Selected(edges[e])]
      ensures symmetric ==> MutualFirst(edges, store.nodes, e) && GlobalMinimum(edges, store.nodes, e)
      ensures edges == old(edges) && nextEdge == old(nextEdge)
    {
      e, a, b := 0, 0, 0;
      if !(pool <= edges.Keys) {
        err := Some(Dangling);
        return;
      }
      ghost var pool0 := pool;
      e := First(edges, pool);
      pool := pool - {e};
      var d := edges[e];
      a, b := d.a, d.b;
      events := events + [Selected(d)];
      if symmetric {
        PoolHeadIsGlobalMinimum(edges, store.nodes, alive, pool0, e);
        assert e in store.nodes[a].diss && e in store.nodes[b].diss;
      }
      if store.nodes[a].father.Some? || store.nodes[b].father.Some? {
        err := Some(AlreadyMerged);
        return;
      }
      if a !in alive {
        err := Some(NotAlive);
        return;
      }
      alive := alive - {a};
      if b !in alive {
        err := Some(NotAlive);
        return;
      }
      alive := alive - {b};
      err := None;
    }

    /** Creates the father of `a` and `b`, whose region model merges
     *  theirs, makes it their father, and runs both relinking loops. */
    method MergePair(ghost al0: set<nat>, ghost pool0: set<nat>, e: nat, a: nat, b: nat)
      returns (err: Option<ConstructionError>, F: nat, R: map<nat, nat>, ghost g: Before<M>, ghost p: Progress<M>)
      requires a < |store.nodes| && b < |store.nodes|
      requires BeforeOk(Before(edges, store.nodes, al0, e, a, b, |store.nodes|,
                               merge(store.nodes[a].model, store.nodes[b].model), symmetric, measure))
      requires Below(edges, nextEdge) && ArenaOk(edges, |store.nodes|)
      requires symmetric ==> PoolOk(edges, store.nodes, pool0) && IsFirst(edges, pool0, e)
      modifies this, store
      ensures symmetric ==> err.None?
      ensures F == |old(store.nodes)|
      ensures g == Before(old(edges), old(store.nodes), al0, e, a, b, F,
                          merge(old(store.nodes)[a].model, old(store.nodes)[b].model), symmetric, measure)
      ensures err.None? ==>
        ReadyToFinish(g, p, nextEdge, pool0) && store.nodes == p.ns && edges == p.E && R == p.R
      ensures alive == old(alive) && pool == old(pool) && events == old(events)
    {
      var fm := merge(store.nodes[a].model, store.nodes[b].model);
      F := store.CreateFather(fm, a, b);
      store.SetFather(a, Some(F));
      store.SetFather(b, Some(F));
      g := Before(old(edges), old(store.nodes), al0, e, a, b, F, fm, symmetric, measure);
      assert store.nodes == WithFather(g);
      RelinkStart(g, nextEdge);
      p := Progress(edges, store.nodes, {}, {}, map[], map[], map[]);
      var fatherNeighbors: set<nat>;
      err, fatherNeighbors, R, p := RelinkLoop(g, p, true, a, b, F, {}, map[]);
      if err.Some? {
        return;
      }
      err, fatherNeighbors, R, p := RelinkLoop(g, p, false, b, a, F, fatherNeighbors, R);
      if err.None? {
        MergeReady(g, p, nextEdge, pool0);
      }
    }

    /** Releases the merged nodes' dissimilarities from the arena (those of
     *  `a` that do not lead to `b`, then all of `b`'s) and clears both
     *  sets. */
    method Release(a: nat, b: nat) returns (ghost gone: set<nat>)
      requires a < |store.nodes| && b < |store.nodes| && a != b && store.nodes[a].diss <= edges.Keys
      modifies this, store
      ensures gone == Released(old(edges), old(store.nodes)[a].diss, old(store.nodes)[b].diss, a, b)
      ensures edges == old(edges) - gone
      ensures store.nodes == old(store.nodes)[a := old(store.nodes)[a].(diss := {})]
                                             [b := old(store.nodes)[b].(diss := {})]
      ensures nextEdge == old(nextEdge) && alive == old(alive) && pool == old(pool) && events == old(events)
    {
      ghost var E, A, B := edges, store.nodes[a].diss, store.nodes[b].diss;
      gone := {};
      var todo := store.nodes[a].diss;
      while todo != {}
        invariant todo <= A && gone <= A - todo
        invariant gone == set x | x in A - todo && x in E && GetNeighbor(E[x], a) != Some(b)
        invariant edges == E - gone && store.nodes == old(store.nodes)
        invariant nextEdge == old(nextEdge) && alive == old(alive) && pool == old(pool) && events == old(events)
        decreases todo
      {
        var x :| x in todo;
        if GetNeighbor(edges[x], a) != Some(b) {
          edges := edges - {x};
          gone := gone + {x};
        }
        todo := todo - {x};
      }
      store.SetDissimilarities(a, {});
      todo := store.nodes[b].diss;
      ghost var goneA := gone;
      while todo != {}
        invariant todo <= B && gone == goneA + (B - todo)
        invariant edges == E - gone
        invariant nextEdge == old(nextEdge) && alive == old(alive) && pool == old(pool) && events == old(events)
        invariant store.nodes == old(store.nodes)[a := old(store.nodes)[a].(diss := {})]
        decreases todo
      {
        var x :| x in todo;
        edges := edges - {x};
        gone := gone + {x};
        todo := todo - {x};
      }
      store.SetDissimilarities(b, {});
    }

    /** The end of a merge, once both relinking loops are done: the father
     *  is reported to the saving policy and becomes alive, the pool is
     *  updated and the merged nodes' dissimilarities are released. */
    method Finish(ghost g: Before<M>, ghost p: Progress<M>, ghost pool0: set<nat>, a: nat, b: nat, F: nat, R: map<nat, nat>)
      requires ReadyToFinish(g, p, nextEdge, pool0)
      requires store.nodes == p.ns && edges == p.E && R == p.R && a == g.a && b == g.b && F == g.F && symmetric == g.symmetric
      requires pool == pool0 - {g.e} && alive == g.al0 - {g.a, g.b}
      modifies this, store
      ensures StepFacts(g.E0, g.n0, g.al0, edges, store.nodes, alive, Record(g, p), symmetric)
      ensures StepValues(edges, store.nodes, Record(g, p), symmetric, g.measure)
      ensures Valid()
      ensures Shape(store.nodes) == Shape(Join(g.n0, g.a, g.b, g.fm))
      ensures events == old(events) + [FatherNode(F)]
    {
      var pool1 := UpdatedPool(edges, store.nodes, pool0, pool, Cleared(g, p.ns), Record(g, p), F, R, symmetric);
      ReadyOutcome(g, p, nextEdge, pool0, pool1);
      events := events + [FatherNode(F)];
      alive := alive + {F};
      pool := pool1;
      ghost var gone := Release(a, b);
      OutcomeFacts(g, p, nextEdge, pool, edges, store.nodes, alive);
    }

    /** The merge of a selected dissimilarity's endpoints: the father is
     *  created and relinked, then reported and made alive. */
    method MergeSelected(ghost al0: set<nat>, ghost pool0: set<nat>, e: nat, a: nat, b: nat)
      returns (err: Option<ConstructionError>, F: nat, ghost st: StepRecord)
      requires GraphOk(edges, store.nodes, al0, symmetric) && WellFormed(store.nodes)
      requires Below(edges, nextEdge) && ArenaOk(edges, |store.nodes|)
      requires symmetric ==> PoolOk(edges, store.nodes, pool0)
      requires IsFirst(edges, pool0, e) && a == edges[e].a && b == edges[e].b && a != b && a in al0 && b in al0
      requires alive == al0 - {a, b} && pool == pool0 - {e}
      modifies this, store
      ensures symmetric ==> err.None?
      ensures err.Some? ==> events == old(events)
      ensures err.None? ==>
        Valid() && st.e == e && st.F == F && events == old(events) + [FatherNode(F)] &&
        StepFacts(old(edges), old(store.nodes), al0, edges, store.nodes, alive, st, symmetric) &&
        StepValues(edges, store.nodes, st, symmetric, measure) &&
        Shape(store.nodes) == Shape(Join(old(store.nodes), a, b, merge(old(store.nodes)[a].model, old(store.nodes)[b].model)))
    {
      var R;
      ghost var g, p;
      st := StepRecord(0, 0, 0, 0, {}, map[], map[], map[]);
      err, F, R, g, p := MergePair(al0, pool0, e, a, b);
      if err.Some? {
        return;
      }
      Finish(g, p, pool0, a, b, F, R);
      st := Record(g, p);
    }

    /** getBinaryPartitionForest: the saving policy is prepared and started,
     *  merges run while more than `numTrees` nodes are alive and the pool is
     *  not empty, and the saving policy is ended. Every merge leaves one
     *  node fewer alive; the tree built is the replay of the merged pairs in
     *  the order the hooks reported them. With a symmetric measure no merge
     *  fails, and the loop ends with at most `numTrees` alive nodes or with
     *  no dissimilarity left between alive nodes. */
    method GetBinaryPartitionForest(numTrees: nat) returns (err: Option<ConstructionError>, ghost mid: seq<Event>)
      requires Valid()
      modifies this, store
      ensures symmetric ==> err.None?
      ensures events == old(events) + [Prepare(old(alive), old(pool)), Start] + mid + [End] && Inner(mid)
      ensures err.None? ==> Valid() && (|alive| <= numTrees || pool == {})
      ensures err.None? && symmetric ==> (pool == {} <==> AliveEdges(store.nodes) == {})
      ensures err.None? ==>
        |alive| + |SelectedIn(mid)| == |old(alive)| &&
        PairsFit(|old(store.nodes)|, MergedPairs(SelectedIn(mid))) &&
        Shape(store.nodes) == Replay(Shape(old(store.nodes)), MergedPairs(SelectedIn(mid)), merge)
      ensures err.None? ==> |SelectedIn(mid)| == 0 || |alive| >= numTrees
      ensures err.None? ==>
        MergesAlive(old(alive), MergedPairs(SelectedIn(mid)), |old(store.nodes)|) &&
        alive == AliveAfter(old(alive), MergedPairs(SelectedIn(mid)), |old(store.nodes)|)
    {
      ghost var S0 := Shape(store.nodes);
      assert |S0| == |store.nodes|;
      events := events + [Prepare(alive, pool), Start];
      ghost var ev0 := events;
      mid, err := [], None;
      assert MergedPairs(SelectedIn(mid)) == [];
      while |alive| > numTrees && pool != {}
        invariant Valid() && err.None?
        invariant events == ev0 + mid && Inner(mid)
        invariant Traced(S0, old(alive), mid, store.nodes, alive, merge)
        invariant |SelectedIn(mid)| == 0 || |alive| >= numTrees
        decreases |alive|
      {
        var stepErr;
        ghost var evs;
        ghost var st;
        stepErr, evs, st := Iterate(S0, old(alive), mid);
        Associative(ev0, mid, evs);
        mid := mid + evs;
        if stepErr.Some? {
          err := stepErr;
          break;
        }
      }
      Associative(old(events) + [Prepare(old(alive), old(pool)), Start], mid, [End]);
      events := events + [End];
      if err.None? && symmetric {
        PoolEmptyIffNoEdges(edges, store.nodes, alive, pool);
      }
    }

    /** One turn of the construction loop, as the loop sees it: a merge,
     *  its hook calls, one node fewer alive and one more merge replayed. */
    method Iterate(ghost S0: seq<Node<M>>, ghost A0: set<nat>, ghost mid: seq<Event>)
      returns (err: Option<ConstructionError>, ghost evs: seq<Event>, ghost st: StepRecord)
      requires Valid() && pool != {} && Inner(mid) && Traced(S0, A0, mid, store.nodes, alive, merge)
      modifies this, store
      ensures symmetric ==> err.None?
      ensures events == old(events) + evs && Inner(mid + evs)
      ensures err.None? ==> Valid() && |alive| + 1 == |old(alive)| && Traced(S0, A0, mid + evs, store.nodes, alive, merge)
      ensures err.None? ==>
        StepFacts(old(edges), old(store.nodes), old(alive), edges, store.nodes, alive, st, symmetric) &&
        StepValues(edges, store.nodes, st, symmetric, measure)
      ensures symmetric ==> GlobalMinimum(old(edges), old(store.nodes), st.e)
    {
      ghost var E0, n0, al0 := edges, store.nodes, alive;
      err, st, evs := Step();
      if err.Some? {
        assert Inner(mid + evs);
        return;
      }
      LoopStep(S0, mid, evs, merge, E0, n0, al0, edges, store.nodes, alive, st, symmetric);
      assert |Shape(n0)| == |n0|;
      LoopStepAlive(S0, A0, mid, evs, E0, n0, al0, edges, store.nodes, alive, st, symmetric);
    }

    /** One iteration of the construction loop: select, merge, relink,
     *  update the pool, release. It keeps the construction state in shape
     *  and, with a symmetric measure, never fails and merges the two
     *  endpoints of the smallest dissimilarity of the alive graph. */
    method Step() returns (err: Option<ConstructionError>, ghost st: StepRecord, ghost evs: seq<Event>)
      requires Valid() && pool != {}
      modifies this, store
      ensures symmetric ==> err.None?
      ensures events == old(events) + evs && Inner(evs)
      ensures err.None? ==> Valid()
      ensures err.None? ==>
        StepFacts(old(edges), old(store.nodes), old(alive), edges, store.nodes, alive, st, symmetric) &&
        StepValues(edges, store.nodes, st, symmetric, measure) &&
        IsFirst(old(edges), old(pool), st.e) &&
        Shape(store.nodes) ==
          Shape(Join(old(store.nodes), st.a, st.b, merge(old(store.nodes)[st.a].model, old(store.nodes)[st.b].model))) &&
        evs == [Selected(old(edges)[st.e]), FatherNode(st.F)]
      ensures symmetric ==> GlobalMinimum(old(edges), old(store.nodes), st.e)
    {
      ghost var al0, pool0 := alive, pool;
      st, evs := StepRecord(0, 0, 0, 0, {}, map[], map[], map[]), [];
      var e, a, b;
      err, e, a, b := Select();
      if err == Some(Dangling) {
        return;
      }
      evs := [Selected(edges[e])];
      if err.Some? {
        return;
      }
      var F;
      err, F, st := MergeSelected(al0, pool0, e, a, b);
      if err.Some? {
        return;
      }
      evs := evs + [FatherNode(F)];
    }
  }
}
