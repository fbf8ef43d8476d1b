/** The relinking phase of one merge (the two loops over the merged nodes'
 *  dissimilarity sets), stated on values.
 *
 *  `Before` fixes the state at the start of the phase: the arena `E0`, the
 *  node store `n0` (before the father was created), the alive set, the
 *  selected dissimilarity `e` with endpoints `a` and `b`, the father id `F`
 *  and its region model. `Progress` is the state part-way through: the
 *  current arena and store, the dissimilarities of `a` and of `b` already
 *  visited, the father's dissimilarity `fe[n]` and the neighbour's new one
 *  `rv[n]` for each father neighbour `n`, and the recorded old first
 *  dissimilarities `R`. */
module Relinking {
  import opened Wrappers
  import opened Dissimilarity
  import opened BPTNode
  import opened PoolInvariant
  import opened MergeStep

  datatype Before<!M> = Before(E0: map<nat, Diss>, n0: seq<Node<M>>, al0: set<nat>,
                              e: nat, a: nat, b: nat, F: nat, fm: M, symmetric: bool,
                              measure: (M, M) -> real)

  datatype Progress<M> = Progress(E: map<nat, Diss>, ns: seq<Node<M>>, Pa: set<nat>, Pb: set<nat>,
                                  fe: map<nat, nat>, rv: map<nat, nat>, R: map<nat, nat>)

  /** `E` keeps every dissimilarity of `E0` unchanged. */
  ghost predicate Extends(E0: map<nat, Diss>, E: map<nat, Diss>)
  {
    forall k :: k in E0 ==> k in E && E[k] == E0[k]
  }

  /** `k` is a dissimilarity created after `E0`, joining `p` to `q`. */
  ghost predicate NewEdge(E0: map<nat, Diss>, E: map<nat, Diss>, k: nat, p: nat, q: nat)
  {
    k in E && k !in E0 && E[k].a == p && E[k].b == q
  }

  /** The store right after the father was created and given its children. */
  ghost function WithFather<M>(g: Before<M>): seq<Node<M>>
    requires g.a < |g.n0| && g.b < |g.n0|
  {
    Join(g.n0, g.a, g.b, g.fm)
  }

  /** The state before relinking: a graph in shape, the selected
   *  dissimilarity joining two distinct alive nodes, and a fresh father id. */
  ghost predicate BeforeOk<M>(g: Before<M>)
  {
    GraphOk(g.E0, g.n0, g.al0, g.symmetric) && WellFormed(g.n0) &&
    g.e in g.E0 && g.E0[g.e].a == g.a && g.E0[g.e].b == g.b && g.a != g.b &&
    g.a in g.al0 && g.b in g.al0 && g.F == |g.n0|
  }

  /** The father's dissimilarities and the neighbours' new ones, each
   *  carrying the measure between the father's model and the neighbour's. */
  ghost predicate Links<M>(g: Before<M>, E: map<nat, Diss>, ns: seq<Node<M>>, fe: map<nat, nat>, rv: map<nat, nat>)
  {
    |ns| == g.F + 1 && g.F == |g.n0| && g.a < g.F && g.b < g.F &&
    Extends(g.E0, E) && fe.Keys == rv.Keys &&
    (forall n :: n in fe ==>
       n < g.F && n != g.a && n != g.b && NewEdge(g.E0, E, fe[n], g.F, n) &&
       E[fe[n]].value == g.measure(g.fm, g.n0[n].model) &&
       if g.symmetric then rv[n] == fe[n]
       else NewEdge(g.E0, E, rv[n], n, g.F) && E[rv[n]].value == g.measure(g.n0[n].model, g.fm)) &&
    ns[g.F].diss == fe.Values &&
    (forall n :: 0 <= n < |ns| ==> ns[n].diss <= E.Keys)
  }

  /** Each node other than the merged ones has lost its visited
   *  dissimilarities and, if it is a father neighbour, gained its new one;
   *  the merged nodes' sets are untouched while they are being visited. */
  ghost predicate Sets<M>(g: Before<M>, ns: seq<Node<M>>, Pa: set<nat>, Pb: set<nat>, rv: map<nat, nat>)
  {
    |ns| == g.F + 1 && g.F == |g.n0| && g.a < g.F && g.b < g.F &&
    (forall n :: 0 <= n < g.F && n != g.a && n != g.b ==>
       ns[n].diss == (g.n0[n].diss - (Pa + Pb)) + (if n in rv then {rv[n]} else {})) &&
    ns[g.a].diss == g.n0[g.a].diss && ns[g.b].diss == g.n0[g.b].diss &&
    Pa <= g.n0[g.a].diss && Pb <= g.n0[g.b].diss
  }

  /** The father neighbours are the neighbours reached so far. */
  ghost predicate Reach<M>(g: Before<M>, fe: map<nat, nat>, Pa: set<nat>, Pb: set<nat>)
  {
    fe.Keys == Reached(g.E0, g.a, g.b, Pa) + Reached(g.E0, g.b, g.a, Pb)
  }

  /** Every neighbour reached so far held the dissimilarity it was reached
   *  through. */
  ghost predicate Seen<M>(g: Before<M>, Pa: set<nat>, Pb: set<nat>)
  {
    (forall x :: x in Pa && x in g.E0 && Other(g.E0[x], g.a) != g.b ==>
       Other(g.E0[x], g.a) < |g.n0| && x in g.n0[Other(g.E0[x], g.a)].diss) &&
    (forall x :: x in Pb && x in g.E0 && Other(g.E0[x], g.b) != g.a ==>
       Other(g.E0[x], g.b) < |g.n0| && x in g.n0[Other(g.E0[x], g.b)].diss)
  }

  /** Every key of the arena is below the next free key. */
  ghost predicate Below(E: map<nat, Diss>, next: nat)
  {
    forall k :: k in E ==> k < next
  }

  /** Everything the relinking loops keep. */
  ghost predicate Inv<M>(g: Before<M>, p: Progress<M>, next: nat)
  {
    BeforeOk(g) && Links(g, p.E, p.ns, p.fe, p.rv) && Sets(g, p.ns, p.Pa, p.Pb, p.rv) &&
    Reach(g, p.fe, p.Pa, p.Pb) && Seen(g, p.Pa, p.Pb) &&
    ChangedFirsts(g.E0, g.n0, p.E, p.ns, p.fe.Keys, p.R) &&
    Below(p.E, next) &&
    Shape(p.ns) == Shape(WithFather(g))
  }

  /** The store's shape does not depend on the dissimilarity sets. */
  lemma WellFormedShape<M>(ns: seq<Node<M>>, ms: seq<Node<M>>)
    requires WellFormed(ms) && Shape(ns) == Shape(ms)
    ensures WellFormed(ns)
  {
    forall i | 0 <= i < |ns|
      ensures NodeOk(ns, i)
    {
      assert ns[i].(diss := {}) == Shape(ns)[i] == Shape(ms)[i];
      assert NodeOk(ms, i);
      var l, r, f := ns[i].left, ns[i].right, ns[i].father;
      if l.Some? {
        assert ns[l.value].(diss := {}) == Shape(ns)[l.value] == Shape(ms)[l.value];
      }
      if r.Some? {
        assert ns[r.value].(diss := {}) == Shape(ns)[r.value] == Shape(ms)[r.value];
      }
      if f.Some? {
        assert ns[f.value].(diss := {}) == Shape(ns)[f.value] == Shape(ms)[f.value];
      }
    }
  }

  /** Once a node's first dissimilarity differs from the old first `g`, it
   *  still differs after one more old dissimilarity is erased: the only
   *  element that can precede `g` is the new one `r`. */
  lemma StickyChange(E: map<nat, Diss>, T: set<nat>, S: set<nat>, r: nat, x: nat, g: nat)
    requires IsFirst(E, T, g) && S <= T + {r} && r !in T && r in S - {x} && S <= E.Keys
    requires FirstOf(E, S) != g
    ensures FirstOf(E, S - {x}) != g
  {
    var h := FirstOf(E, S);
    if g in S {
      assert Less(E, h, g);
      if h in T {
        LessTrichotomous(E, g, h);
      }
      assert h == r;
      if FirstOf(E, S - {x}) == g {
        assert h in S - {x};
        LessTrichotomous(E, g, h);
      }
    }
  }

  /** The state right after the father was created: nothing visited yet. */
  lemma RelinkStart<M>(g: Before<M>, next: nat)
    requires BeforeOk(g)
    requires forall k :: k in g.E0 ==> k < next
    ensures var ns := WithFather(g);
      Inv(g, Progress(g.E0, ns, {}, {}, map[], map[], map[]), next) &&
      WellFormed(ns)
  {
    var ns := WithFather(g);
    var p := Progress(g.E0, ns, {}, {}, map[], map[], map[]);
    assert g.a < g.F && g.b < g.F by {
      assert g.a in g.al0 && g.b in g.al0;
    }
    JoinKeepsWellFormed(g.n0, g.fm, g.a, g.b);
    forall n | 0 <= n < |ns|
      ensures ns[n].diss <= g.E0.Keys
    {
      if n < g.F {
        forall k | k in ns[n].diss
          ensures k in g.E0
        {
          assert EdgeAt(g.E0, g.n0, n, k);
        }
      }
    }
    assert Links(g, p.E, p.ns, p.fe, p.rv);
    assert Sets(g, p.ns, p.Pa, p.Pb, p.rv);
  }

  /** The merged node visited by the first loop (`onA`) or the second. */
  function Visited<M>(g: Before<M>, onA: bool): nat
  {
    if onA then g.a else g.b
  }

  /** The other merged node, skipped by that loop. */
  function Skipped<M>(g: Before<M>, onA: bool): nat
  {
    if onA then g.b else g.a
  }

  /** `x`, a dissimilarity of the visited merged node, not visited before. */
  ghost predicate Unvisited<M>(g: Before<M>, p: Progress<M>, onA: bool, x: nat)
    requires g.a < |g.n0| && g.b < |g.n0|
  {
    x in g.n0[Visited(g, onA)].diss && x !in (if onA then p.Pa else p.Pb)
  }

  /** Marks `x` visited. */
  function Mark<M>(p: Progress<M>, onA: bool, x: nat): Progress<M>
  {
    if onA then p.(Pa := p.Pa + {x}) else p.(Pb := p.Pb + {x})
  }

  /** One visit of a dissimilarity `x` of a merged node whose neighbour `m`
   *  is not the other merged node: `x` is erased from `m`'s set; when `m`
   *  is a new father neighbour the father gets a fresh dissimilarity to it
   *  and `m` gets the same one (symmetric measure) or a fresh reverse one. */
  ghost predicate VisitState<M>(g: Before<M>, p: Progress<M>, q: Progress<M>, onA: bool, x: nat, m: nat,
                                next: nat, next': nat, v1: real, v2: real)
  {
    m < |p.ns| && g.F < |p.ns| && x in p.ns[m].diss &&
    q.Pa == Mark(p, onA, x).Pa && q.Pb == Mark(p, onA, x).Pb &&
    if m !in p.fe then
      m < |g.n0| && v1 == g.measure(g.fm, g.n0[m].model) &&
      (!g.symmetric ==> v2 == g.measure(g.n0[m].model, g.fm)) &&
      q.E == (if g.symmetric then p.E[next := Diss(g.F, m, v1)]
              else p.E[next := Diss(g.F, m, v1)][next + 1 := Diss(m, g.F, v2)]) &&
      q.fe == p.fe[m := next] && q.rv == p.rv[m := if g.symmetric then next else next + 1] &&
      next' == (if g.symmetric then next + 1 else next + 2) &&
      q.ns == p.ns[m := p.ns[m].(diss := p.ns[m].diss - {x} + {q.rv[m]})]
                  [g.F := p.ns[g.F].(diss := p.ns[g.F].diss + {next})]
    else
      q.E == p.E && q.fe == p.fe && q.rv == p.rv && next' == next &&
      q.ns == p.ns[m := p.ns[m].(diss := p.ns[m].diss - {x})]
  }

  /** `m`'s old first dissimilarity is recorded, first record kept, if `m`'s
   *  first changed during the visit. */
  ghost predicate VisitRecord<M>(p: Progress<M>, q: Progress<M>, m: nat)
  {
    m < |p.ns| && m < |q.ns| &&
    p.ns[m].diss != {} && p.ns[m].diss <= p.E.Keys &&
    q.ns[m].diss != {} && q.ns[m].diss <= q.E.Keys &&
    q.R == (if FirstOf(q.E, q.ns[m].diss) != FirstOf(p.E, p.ns[m].diss) && m !in p.R
            then p.R[m := FirstOf(p.E, p.ns[m].diss)] else p.R)
  }

  /** `x` is an unvisited dissimilarity of the visited merged node, and its
   *  neighbour `m` is not the other merged node. */
  ghost predicate Premise<M>(g: Before<M>, p: Progress<M>, onA: bool, x: nat, m: nat)
  {
    g.a < |g.n0| && g.b < |g.n0| &&
    x in g.n0[Visited(g, onA)].diss && x !in (if onA then p.Pa else p.Pb) &&
    x in g.E0 && m == Other(g.E0[x], Visited(g, onA)) && m != Skipped(g, onA)
  }

  /** A merged node reaches each neighbour through one dissimilarity
   *  only. */
  lemma ReachedOnce<M>(E0: map<nat, Diss>, n0: seq<Node<M>>, al0: set<nat>, symmetric: bool,
                       u: nat, w: nat, P: set<nat>, x: nat)
    requires GraphOk(E0, n0, al0, symmetric)
    requires u < |n0| && P <= n0[u].diss && x in n0[u].diss && x !in P && x in E0
    ensures Other(E0[x], u) !in Reached(E0, u, w, P)
  {
  }

  /** In the first loop every neighbour other than `b` is new: `a` holds at
   *  most one dissimilarity per neighbour. */
  lemma FirstLoopNeighbourIsNew<M>(g: Before<M>, p: Progress<M>, next: nat, x: nat)
    requires Inv(g, p, next) && p.Pb == {} && x in g.n0[g.a].diss && x !in p.Pa
    ensures x in g.E0 && Other(g.E0[x], g.a) !in p.fe
  {
    assert EdgeAt(g.E0, g.n0, g.a, x);
    assert Reached(g.E0, g.b, g.a, p.Pb) == {};
    ReachedOnce(g.E0, g.n0, g.al0, g.symmetric, g.a, g.b, p.Pa, x);
  }

  /** A visited dissimilarity lies in the sets of its two endpoints only. */
  lemma OnlyEndpointsHold<M>(E0: map<nat, Diss>, n0: seq<Node<M>>, al0: set<nat>, symmetric: bool,
                             u: nat, x: nat)
    requires GraphOk(E0, n0, al0, symmetric) && u < |n0| && x in n0[u].diss
    ensures x in E0 && Other(E0[x], u) < |n0| && Other(E0[x], u) != u
    ensures forall n :: 0 <= n < |n0| && x in n0[n].diss ==> n == u || n == Other(E0[x], u)
  {
    assert EdgeAt(E0, n0, u, x);
    forall n | 0 <= n < |n0| && x in n0[n].diss
      ensures n == u || n == Other(E0[x], u)
    {
      assert EdgeAt(E0, n0, n, x);
    }
  }

  /** Marking visited a dissimilarity held only by the merged nodes leaves
   *  the other sets as described. */
  lemma MarkKeepsSets<M>(g: Before<M>, ns: seq<Node<M>>, Pa: set<nat>, Pb: set<nat>, rv: map<nat, nat>,
                         onA: bool, x: nat)
    requires Sets(g, ns, Pa, Pb, rv)
    requires x in g.n0[Visited(g, onA)].diss
    requires forall n :: 0 <= n < g.F && n != g.a && n != g.b ==> x !in g.n0[n].diss
    ensures Sets(g, ns, if onA then Pa + {x} else Pa, if onA then Pb else Pb + {x}, rv)
  {
    var Pa', Pb' := if onA then Pa + {x} else Pa, if onA then Pb else Pb + {x};
    forall n | 0 <= n < g.F && n != g.a && n != g.b
      ensures g.n0[n].diss - (Pa' + Pb') == g.n0[n].diss - (Pa + Pb)
    {
    }
  }

  /** Visiting the dissimilarity that joins the two merged nodes changes
   *  nothing but the visited set. */
  lemma SkipKeepsInv<M>(g: Before<M>, p: Progress<M>, next: nat, onA: bool, x: nat)
    requires Inv(g, p, next) && x in g.n0[Visited(g, onA)].diss
    requires x in g.E0 && Other(g.E0[x], Visited(g, onA)) == Skipped(g, onA)
    ensures Inv(g, Mark(p, onA, x), next)
  {
    var q := Mark(p, onA, x);
    OnlyEndpointsHold(g.E0, g.n0, g.al0, g.symmetric, Visited(g, onA), x);
    MarkKeepsSets(g, p.ns, p.Pa, p.Pb, p.rv, onA, x);
    SkipKeepsReach(g, p.Pa, p.Pb, p.fe, onA, x);
  }

  lemma SkipKeepsReach<M>(g: Before<M>, Pa: set<nat>, Pb: set<nat>, fe: map<nat, nat>, onA: bool, x: nat)
    requires Reach(g, fe, Pa, Pb) && Seen(g, Pa, Pb)
    requires x in g.E0 && Other(g.E0[x], Visited(g, onA)) == Skipped(g, onA)
    ensures var Pa', Pb' := if onA then Pa + {x} else Pa, if onA then Pb else Pb + {x};
      Reach(g, fe, Pa', Pb') && Seen(g, Pa', Pb')
  {
    var Pa', Pb' := if onA then Pa + {x} else Pa, if onA then Pb else Pb + {x};
    assert Reached(g.E0, g.a, g.b, Pa') == Reached(g.E0, g.a, g.b, Pa);
    assert Reached(g.E0, g.b, g.a, Pb') == Reached(g.E0, g.b, g.a, Pb);
  }

  /** What the graph says about a visited dissimilarity `x` and its
   *  neighbour `m`: `m` is an old node other than the merged ones, and no
   *  other old node holds `x`. */
  ghost predicate Target<M>(g: Before<M>, x: nat, m: nat)
  {
    g.F == |g.n0| && g.a < g.F && g.b < g.F &&
    m < g.F && m != g.a && m != g.b && x in g.E0 &&
    forall n :: 0 <= n < g.F && n != g.a && n != g.b && n != m ==> x !in g.n0[n].diss
  }

  lemma PremiseTarget<M>(g: Before<M>, p: Progress<M>, onA: bool, x: nat, m: nat)
    requires BeforeOk(g) && Premise(g, p, onA, x, m)
    ensures Target(g, x, m)
  {
    OnlyEndpointsHold(g.E0, g.n0, g.al0, g.symmetric, Visited(g, onA), x);
  }

  /** The father's dissimilarity set gains exactly the isNew key. */
  lemma NewValues(fe: map<nat, nat>, m: nat, next: nat)
    requires m !in fe
    ensures fe[m := next].Values == fe.Values + {next}
  {
    var fe' := fe[m := next];
    assert fe'[m] == next;
    forall k | k in fe'.Values
      ensures k in fe.Values + {next}
    {
      var n :| n in fe' && fe'[n] == k;
      if n != m { assert fe[n] == k; }
    }
    forall k | k in fe.Values
      ensures k in fe'.Values
    {
      var n :| n in fe && fe[n] == k;
      assert fe'[n] == k;
    }
  }

  lemma VisitNewKeepsLinks<M>(g: Before<M>, p: Progress<M>, q: Progress<M>, onA: bool, x: nat, m: nat,
                              next: nat, next': nat, v1: real, v2: real)
    requires Links(g, p.E, p.ns, p.fe, p.rv) && Below(p.E, next) && Target(g, x, m)
    requires VisitState(g, p, q, onA, x, m, next, next', v1, v2) && m !in p.fe
    ensures Links(g, q.E, q.ns, q.fe, q.rv) && Below(q.E, next')
  {
    assert next !in p.E && next + 1 !in p.E;
    VisitNewKeepsBelow(g, p, q, onA, x, m, next, next', v1, v2);
    VisitNewKeepsBound(g, p, q, onA, x, m, next, next', v1, v2);
    NewValues(p.fe, m, next);
    forall n | n in q.fe
      ensures n < g.F && n != g.a && n != g.b && NewEdge(g.E0, q.E, q.fe[n], g.F, n) &&
              q.E[q.fe[n]].value == g.measure(g.fm, g.n0[n].model) &&
              if g.symmetric then q.rv[n] == q.fe[n]
              else NewEdge(g.E0, q.E, q.rv[n], n, g.F) && q.E[q.rv[n]].value == g.measure(g.n0[n].model, g.fm)
    {
      VisitNewLinkOne(g, p, q, onA, x, m, next, next', v1, v2, n);
    }
  }

  /** After a visit that creates the father's link to `m`, each father
   *  neighbour, `m` included, has its two dissimilarities and their
   *  measure values. */
  lemma VisitNewLinkOne<M>(g: Before<M>, p: Progress<M>, q: Progress<M>, onA: bool, x: nat, m: nat,
                           next: nat, next': nat, v1: real, v2: real, n: nat)
    requires Links(g, p.E, p.ns, p.fe, p.rv) && Below(p.E, next) && Target(g, x, m)
    requires VisitState(g, p, q, onA, x, m, next, next', v1, v2) && m !in p.fe && n in q.fe
    ensures n < g.F && n != g.a && n != g.b && NewEdge(g.E0, q.E, q.fe[n], g.F, n) &&
            q.E[q.fe[n]].value == g.measure(g.fm, g.n0[n].model) &&
            if g.symmetric then q.rv[n] == q.fe[n]
            else NewEdge(g.E0, q.E, q.rv[n], n, g.F) && q.E[q.rv[n]].value == g.measure(g.n0[n].model, g.fm)
  {
    if n != m {
      VisitNewKeepsOld(g, p, q, onA, x, m, next, next', v1, v2, n);
    } else {
      assert next !in p.E && next + 1 !in p.E;
    }
  }

  /** A father neighbour relinked before keeps its two dissimilarities. */
  lemma VisitNewKeepsOld<M>(g: Before<M>, p: Progress<M>, q: Progress<M>, onA: bool, x: nat, m: nat,
                            next: nat, next': nat, v1: real, v2: real, n: nat)
    requires Links(g, p.E, p.ns, p.fe, p.rv) && Below(p.E, next)
    requires VisitState(g, p, q, onA, x, m, next, next', v1, v2) && m !in p.fe && n in p.fe
    ensures q.fe[n] == p.fe[n] && q.rv[n] == p.rv[n]
    ensures q.E[p.fe[n]] == p.E[p.fe[n]] && q.E[p.rv[n]] == p.E[p.rv[n]]
  {
    assert p.fe[n] in p.E && p.rv[n] in p.E;
  }

  lemma VisitNewKeepsBelow<M>(g: Before<M>, p: Progress<M>, q: Progress<M>, onA: bool, x: nat, m: nat,
                              next: nat, next': nat, v1: real, v2: real)
    requires Below(p.E, next) && VisitState(g, p, q, onA, x, m, next, next', v1, v2) && m !in p.fe
    ensures Below(q.E, next')
  {
  }

  lemma VisitNewKeepsBound<M>(g: Before<M>, p: Progress<M>, q: Progress<M>, onA: bool, x: nat, m: nat,
                              next: nat, next': nat, v1: real, v2: real)
    requires forall n :: 0 <= n < |p.ns| ==> p.ns[n].diss <= p.E.Keys
    requires VisitState(g, p, q, onA, x, m, next, next', v1, v2) && m !in p.fe
    ensures forall n :: 0 <= n < |q.ns| ==> q.ns[n].diss <= q.E.Keys
  {
    assert p.E.Keys <= q.E.Keys && next in q.E && q.rv[m] in q.E;
    forall n | 0 <= n < |q.ns|
      ensures q.ns[n].diss <= q.E.Keys
    {
      if n != g.F && n != m {
        assert q.ns[n] == p.ns[n];
      }
    }
  }

  lemma VisitKeepsLinks<M>(g: Before<M>, p: Progress<M>, q: Progress<M>, onA: bool, x: nat, m: nat,
                           next: nat, next': nat, v1: real, v2: real)
    requires Links(g, p.E, p.ns, p.fe, p.rv) && Below(p.E, next) && Target(g, x, m)
    requires VisitState(g, p, q, onA, x, m, next, next', v1, v2)
    ensures Links(g, q.E, q.ns, q.fe, q.rv) && Below(q.E, next') && Shape(q.ns) == Shape(p.ns)
  {
    if m !in p.fe {
      VisitNewKeepsLinks(g, p, q, onA, x, m, next, next', v1, v2);
    }
    assert Shape(q.ns) == Shape(p.ns);
  }

  lemma VisitKeepsSets<M>(g: Before<M>, p: Progress<M>, q: Progress<M>, onA: bool, x: nat, m: nat,
                          next: nat, next': nat, v1: real, v2: real)
    requires Target(g, x, m) && (m in p.rv ==> p.rv[m] !in g.E0) && p.fe.Keys == p.rv.Keys
    requires Sets(g, p.ns, p.Pa, p.Pb, p.rv) && x in g.n0[Visited(g, onA)].diss
    requires VisitState(g, p, q, onA, x, m, next, next', v1, v2)
    ensures Sets(g, q.ns, q.Pa, q.Pb, q.rv)
  {
    var P, P' := p.Pa + p.Pb, q.Pa + q.Pb;
    assert P' == P + {x};
    VisitedNodeSet(g, p, q, onA, x, m, next, next', v1, v2);
    assert forall n :: 0 <= n < g.F && n != m ==> q.ns[n] == p.ns[n];
    assert forall n :: n != m ==> (n in q.rv <==> n in p.rv) && (n in p.rv ==> q.rv[n] == p.rv[n]);
    OthersKeepSets(g, p.ns, q.ns, P, x, p.rv, q.rv, m);
  }

  /** The nodes other than the visited neighbour and the father keep their
   *  sets, which never held `x`. */
  lemma OthersKeepSets<M>(g: Before<M>, ns: seq<Node<M>>, ns': seq<Node<M>>, P: set<nat>, x: nat,
                          rv: map<nat, nat>, rv': map<nat, nat>, m: nat)
    requires |ns| == g.F + 1 && |ns'| == g.F + 1 && g.F == |g.n0|
    requires forall n :: 0 <= n < g.F && n != m ==> ns'[n] == ns[n]
    requires forall n :: n != m ==> (n in rv' <==> n in rv) && (n in rv ==> rv'[n] == rv[n])
    requires forall n :: 0 <= n < g.F && n != g.a && n != g.b && n != m ==> x !in g.n0[n].diss
    requires forall n :: 0 <= n < g.F && n != g.a && n != g.b ==>
      ns[n].diss == (g.n0[n].diss - P) + (if n in rv then {rv[n]} else {})
    ensures forall n :: 0 <= n < g.F && n != g.a && n != g.b && n != m ==>
      ns'[n].diss == (g.n0[n].diss - (P + {x})) + (if n in rv' then {rv'[n]} else {})
  {
    forall n | 0 <= n < g.F && n != g.a && n != g.b && n != m
      ensures ns'[n].diss == (g.n0[n].diss - (P + {x})) + (if n in rv' then {rv'[n]} else {})
    {
      KeepAbsent(g.n0[n].diss, P, x, if n in rv then {rv[n]} else {});
    }
  }

  /** The visited neighbour `m` loses `x` and, on its first visit, gains
   *  its new dissimilarity. */
  lemma VisitedNodeSet<M>(g: Before<M>, p: Progress<M>, q: Progress<M>, onA: bool, x: nat, m: nat,
                          next: nat, next': nat, v1: real, v2: real)
    requires VisitState(g, p, q, onA, x, m, next, next', v1, v2)
    requires m < |g.n0| && m != g.F && p.fe.Keys == p.rv.Keys
    requires p.ns[m].diss == (g.n0[m].diss - (p.Pa + p.Pb)) + (if m in p.rv then {p.rv[m]} else {})
    requires m in p.rv ==> p.rv[m] != x
    ensures q.ns[m].diss == (g.n0[m].diss - (q.Pa + q.Pb)) + (if m in q.rv then {q.rv[m]} else {})
  {
    var K := if m in p.rv then {p.rv[m]} else {};
    var K' := if m in p.fe then {} else {q.rv[m]};
    assert q.Pa + q.Pb == (p.Pa + p.Pb) + {x};
    assert q.ns[m].diss == p.ns[m].diss - {x} + K';
    DropVisited(g.n0[m].diss, p.Pa + p.Pb, x, K, K');
  }

  /** Dropping a visited dissimilarity `x` from a node's set. */
  lemma DropVisited(D: set<nat>, P: set<nat>, x: nat, K: set<nat>, K': set<nat>)
    requires x !in K
    ensures ((D - P) + K) - {x} + K' == (D - (P + {x})) + (K + K')
  {
  }

  lemma KeepAbsent(D: set<nat>, P: set<nat>, x: nat, K: set<nat>)
    requires x !in D
    ensures (D - P) + K == (D - (P + {x})) + K
  {
  }

  lemma VisitKeepsReach<M>(g: Before<M>, p: Progress<M>, q: Progress<M>, onA: bool, x: nat, m: nat,
                           next: nat, next': nat, v1: real, v2: real)
    requires Reach(g, p.fe, p.Pa, p.Pb)
    requires Premise(g, p, onA, x, m) && VisitState(g, p, q, onA, x, m, next, next', v1, v2)
    ensures Reach(g, q.fe, q.Pa, q.Pb)
  {
    var u, w := Visited(g, onA), Skipped(g, onA);
    var P := if onA then p.Pa else p.Pb;
    assert Reached(g.E0, u, w, P + {x}) == Reached(g.E0, u, w, P) + {m};
    if onA {
      assert Reached(g.E0, g.b, g.a, q.Pb) == Reached(g.E0, g.b, g.a, p.Pb);
    } else {
      assert Reached(g.E0, g.a, g.b, q.Pa) == Reached(g.E0, g.a, g.b, p.Pa);
    }
  }

  /** Before its first visit a neighbour still holds all of its old
   *  dissimilarities. */
  lemma UntouchedNeighbour<M>(g: Before<M>, p: Progress<M>, next: nat, m: nat)
    requires Inv(g, p, next) && m < g.F && m != g.a && m != g.b && m !in p.fe
    ensures p.ns[m].diss == g.n0[m].diss
  {
    forall y | y in g.n0[m].diss
      ensures y !in p.Pa + p.Pb
    {
      if y in p.Pa {
        OnlyEndpointsHold(g.E0, g.n0, g.al0, g.symmetric, g.a, y);
      }
      if y in p.Pb {
        OnlyEndpointsHold(g.E0, g.n0, g.al0, g.symmetric, g.b, y);
      }
    }
  }

  /** The visited neighbour's first dissimilarity is recorded as the
   *  change requires: the first of `T0` (its old set) is recorded once the
   *  first of its current set differs from it. */
  lemma RecordsNeighbour(E0: map<nat, Diss>, Ep: map<nat, Diss>, Eq: map<nat, Diss>,
                         T0: set<nat>, Sp: set<nat>, Sq: set<nat>, isNew: bool, r: nat, x: nat,
                         Rp: map<nat, nat>, Rq: map<nat, nat>, m: nat)
    requires x in T0 && T0 <= E0.Keys && Extends(E0, Ep) && Extends(Ep, Eq)
    requires Sp <= Ep.Keys && Sp != {} && Sq <= Eq.Keys && Sq != {}
    requires isNew ==> Sp == T0 && m !in Rp
    requires !isNew ==> r in Sp && r !in E0 && r != x && Sp <= T0 + {r} && Sq == Sp - {x} && Eq == Ep
    requires !isNew ==>
      (m in Rp <==> FirstOf(Ep, Sp) != FirstOf(E0, T0)) && (m in Rp ==> Rp[m] == FirstOf(E0, T0))
    requires Rq == (if FirstOf(Eq, Sq) != FirstOf(Ep, Sp) && m !in Rp then Rp[m := FirstOf(Ep, Sp)] else Rp)
    ensures (m in Rq <==> FirstOf(Eq, Sq) != FirstOf(E0, T0)) && (m in Rq ==> Rq[m] == FirstOf(E0, T0))
  {
    var g0 := FirstOf(E0, T0);
    if isNew {
      FirstOfAgree(E0, Ep, T0);
    } else if m in Rp {
      assert IsFirst(Ep, T0, g0);
      StickyChange(Ep, T0, Sp, r, x, g0);
    }
  }

  /** The conjunct of `ChangedFirsts` about node `n`. */
  ghost predicate ChangedAt<M>(E0: map<nat, Diss>, n0: seq<Node<M>>, E1: map<nat, Diss>, n1: seq<Node<M>>,
                               R: map<nat, nat>, n: nat)
  {
    n < |n0| && n < |n1| &&
    n0[n].diss != {} && n0[n].diss <= E0.Keys &&
    n1[n].diss != {} && n1[n].diss <= E1.Keys &&
    (n in R <==> FirstOf(E1, n1[n].diss) != FirstOf(E0, n0[n].diss)) &&
    (n in R ==> R[n] == FirstOf(E0, n0[n].diss))
  }

  lemma ChangedAtOf<M>(E0: map<nat, Diss>, n0: seq<Node<M>>, E1: map<nat, Diss>, n1: seq<Node<M>>,
                       N: set<nat>, R: map<nat, nat>, n: nat)
    requires ChangedFirsts(E0, n0, E1, n1, N, R) && n in N
    ensures ChangedAt(E0, n0, E1, n1, R, n)
  {
  }

  /** What a visit does to the records of the other nodes and to the
   *  father neighbours. */
  lemma VisitFrame<M>(g: Before<M>, p: Progress<M>, q: Progress<M>, onA: bool, x: nat, m: nat,
                      next: nat, next': nat, v1: real, v2: real)
    requires Links(g, p.E, p.ns, p.fe, p.rv) && p.R.Keys <= p.fe.Keys
    requires VisitState(g, p, q, onA, x, m, next, next', v1, v2) && VisitRecord(p, q, m)
    ensures m in q.fe && |q.ns| == |p.ns| && q.R.Keys <= q.fe.Keys
    ensures forall n :: n in q.fe.Keys && n != m ==> n in p.fe.Keys && q.ns[n] == p.ns[n]
    ensures forall n :: n != m ==> (n in q.R <==> n in p.R) && (n in q.R ==> q.R[n] == p.R[n])
  {
  }

  /** A visit only adds keys to the arena. */
  lemma VisitExtends<M>(g: Before<M>, p: Progress<M>, q: Progress<M>, onA: bool, x: nat, m: nat,
                        next: nat, next': nat, v1: real, v2: real)
    requires Below(p.E, next) && VisitState(g, p, q, onA, x, m, next, next', v1, v2)
    ensures Extends(p.E, q.E)
  {
  }

  lemma VisitRecordsNeighbour<M>(g: Before<M>, p: Progress<M>, q: Progress<M>, onA: bool, x: nat, m: nat,
                                 next: nat, next': nat, v1: real, v2: real)
    requires Links(g, p.E, p.ns, p.fe, p.rv) && Extends(p.E, q.E)
    requires Sets(g, p.ns, p.Pa, p.Pb, p.rv) && Target(g, x, m)
    requires p.R.Keys <= p.fe.Keys
    requires m in p.fe ==> ChangedAt(g.E0, g.n0, p.E, p.ns, p.R, m)
    requires VisitState(g, p, q, onA, x, m, next, next', v1, v2) && VisitRecord(p, q, m)
    requires x in g.n0[m].diss && g.n0[m].diss <= g.E0.Keys
    requires m !in p.fe ==> p.ns[m].diss == g.n0[m].diss
    ensures ChangedAt(g.E0, g.n0, q.E, q.ns, q.R, m)
  {
    var isNew := m !in p.fe;
    var r := if isNew then 0 else p.rv[m];
    if !isNew {
      assert r !in g.E0;
      assert p.ns[m].diss <= g.n0[m].diss + {r};
    }
    RecordsNeighbour(g.E0, p.E, q.E, g.n0[m].diss, p.ns[m].diss, q.ns[m].diss, isNew, r, x, p.R, q.R, m);
  }

  /** The nodes other than the visited neighbour keep their records. */
  lemma OthersKeepRecords<M>(g: Before<M>, p: Progress<M>, q: Progress<M>, m: nat)
    requires ChangedFirsts(g.E0, g.n0, p.E, p.ns, p.fe.Keys, p.R)
    requires Extends(p.E, q.E) && |q.ns| == |p.ns|
    requires forall n :: n in q.fe.Keys && n != m ==> n in p.fe.Keys && q.ns[n] == p.ns[n]
    requires forall n :: n != m ==> (n in q.R <==> n in p.R) && (n in q.R ==> q.R[n] == p.R[n])
    requires m in q.fe.Keys ==> ChangedAt(g.E0, g.n0, q.E, q.ns, q.R, m)
    requires q.R.Keys <= q.fe.Keys
    ensures ChangedFirsts(g.E0, g.n0, q.E, q.ns, q.fe.Keys, q.R)
  {
    forall n | n in q.fe.Keys && n != m
      ensures q.ns[n].diss <= q.E.Keys && FirstOf(q.E, q.ns[n].diss) == FirstOf(p.E, p.ns[n].diss)
    {
      FirstOfAgree(p.E, q.E, p.ns[n].diss);
    }
  }

  lemma VisitKeepsRecords<M>(g: Before<M>, p: Progress<M>, q: Progress<M>, onA: bool, x: nat, m: nat,
                             next: nat, next': nat, v1: real, v2: real)
    requires Links(g, p.E, p.ns, p.fe, p.rv) && Below(p.E, next)
    requires Sets(g, p.ns, p.Pa, p.Pb, p.rv) && Target(g, x, m)
    requires ChangedFirsts(g.E0, g.n0, p.E, p.ns, p.fe.Keys, p.R)
    requires VisitState(g, p, q, onA, x, m, next, next', v1, v2) && VisitRecord(p, q, m)
    requires x in g.n0[m].diss && g.n0[m].diss <= g.E0.Keys
    requires m !in p.fe ==> p.ns[m].diss == g.n0[m].diss
    ensures ChangedFirsts(g.E0, g.n0, q.E, q.ns, q.fe.Keys, q.R)
  {
    VisitExtends(g, p, q, onA, x, m, next, next', v1, v2);
    if m in p.fe {
      ChangedAtOf(g.E0, g.n0, p.E, p.ns, p.fe.Keys, p.R, m);
    }
    VisitRecordsNeighbour(g, p, q, onA, x, m, next, next', v1, v2);
    VisitFrame(g, p, q, onA, x, m, next, next', v1, v2);
    OthersKeepRecords(g, p, q, m);
  }

  lemma VisitKeepsSeen<M>(g: Before<M>, p: Progress<M>, q: Progress<M>, onA: bool, x: nat, m: nat,
                          next: nat, next': nat, v1: real, v2: real)
    requires Seen(g, p.Pa, p.Pb) && Premise(g, p, onA, x, m)
    requires VisitState(g, p, q, onA, x, m, next, next', v1, v2)
    requires m < |g.n0| && x in g.n0[m].diss
    ensures Seen(g, q.Pa, q.Pb)
  {
  }

  /** The neighbour reached through `x` holds `x` too. */
  lemma NeighbourHolds<M>(g: Before<M>, p: Progress<M>, q: Progress<M>, onA: bool, x: nat, m: nat,
                          next: nat, next': nat, v1: real, v2: real)
    requires BeforeOk(g) && Links(g, p.E, p.ns, p.fe, p.rv) && Sets(g, p.ns, p.Pa, p.Pb, p.rv)
    requires Target(g, x, m) && VisitState(g, p, q, onA, x, m, next, next', v1, v2)
    ensures m < |g.n0| && x in g.n0[m].diss && g.n0[m].diss <= g.E0.Keys
  {
    assert m in p.rv ==> p.rv[m] !in g.E0;
    forall k | k in g.n0[m].diss
      ensures k in g.E0
    {
      assert EdgeAt(g.E0, g.n0, m, k);
    }
  }

  /** One visit keeps the relinking invariant. */
  lemma VisitKeepsInv<M>(g: Before<M>, p: Progress<M>, q: Progress<M>, onA: bool, x: nat, m: nat,
                         next: nat, next': nat, v1: real, v2: real)
    requires Inv(g, p, next)
    requires Premise(g, p, onA, x, m) && VisitState(g, p, q, onA, x, m, next, next', v1, v2)
    requires VisitRecord(p, q, m)
    ensures Inv(g, q, next')
  {
    PremiseTarget(g, p, onA, x, m);
    VisitKeepsLinks(g, p, q, onA, x, m, next, next', v1, v2);
    assert m in p.rv ==> p.rv[m] !in g.E0;
    VisitKeepsSets(g, p, q, onA, x, m, next, next', v1, v2);
    VisitKeepsReach(g, p, q, onA, x, m, next, next', v1, v2);
    NeighbourHolds(g, p, q, onA, x, m, next, next', v1, v2);
    if m !in p.fe {
      UntouchedNeighbour(g, p, next, m);
    }
    VisitKeepsRecords(g, p, q, onA, x, m, next, next', v1, v2);
    VisitKeepsSeen(g, p, q, onA, x, m, next, next', v1, v2);
  }

  /** The store once the merged nodes' sets are cleared. */
  ghost function Cleared<M>(g: Before<M>, ns: seq<Node<M>>): seq<Node<M>>
    requires g.a < |ns| && g.b < |ns|
  {
    ns[g.a := ns[g.a].(diss := {})][g.b := ns[g.b].(diss := {})]
  }

  /** The summary of a finished relinking phase. */
  function Record<M>(g: Before<M>, p: Progress<M>): StepRecord
  {
    StepRecord(g.e, g.a, g.b, g.F, p.fe.Keys, p.fe, p.rv, p.R)
  }

  /** Both merged nodes' sets fully visited. */
  ghost predicate Finished<M>(g: Before<M>, p: Progress<M>)
  {
    g.a < |g.n0| && g.b < |g.n0| && p.Pa == g.n0[g.a].diss && p.Pb == g.n0[g.b].diss
  }

  /** The father neighbours are exactly the nodes other than `a` and `b`
   *  that a dissimilarity of `a` or `b` leads to; they are alive, and every
   *  other node holding a dissimilarity of a merged node is one of them. */
  lemma EndNeighbours<M>(g: Before<M>, p: Progress<M>)
    requires BeforeOk(g) && Reach(g, p.fe, p.Pa, p.Pb) && Seen(g, p.Pa, p.Pb) && Finished(g, p)
    ensures p.fe.Keys == Reached(g.E0, g.a, g.b, g.n0[g.a].diss) + Reached(g.E0, g.b, g.a, g.n0[g.b].diss)
    ensures p.fe.Keys <= g.al0
    ensures forall n, x ::
      (0 <= n < g.F && n != g.a && n != g.b && x in g.n0[n].diss &&
       (x in g.n0[g.a].diss || x in g.n0[g.b].diss)) ==> n in p.fe.Keys
  {
    ReachedAlive(g, p.Pa, g.a, g.b);
    ReachedAlive(g, p.Pb, g.b, g.a);
    HoldersReached(g, p);
  }

  /** A neighbour reached from `u` held the dissimilarity it was reached
   *  through, so it is alive. */
  lemma ReachedAlive<M>(g: Before<M>, P: set<nat>, u: nat, w: nat)
    requires GraphOk(g.E0, g.n0, g.al0, g.symmetric)
    requires forall x :: x in P && x in g.E0 && Other(g.E0[x], u) != w ==>
      Other(g.E0[x], u) < |g.n0| && x in g.n0[Other(g.E0[x], u)].diss
    ensures Reached(g.E0, u, w, P) <= g.al0
  {
    forall n | n in Reached(g.E0, u, w, P)
      ensures n in g.al0
    {
      var x :| x in P && x in g.E0 && Other(g.E0[x], u) != w && Other(g.E0[x], u) == n;
      assert x in g.n0[n].diss;
    }
  }

  /** Every node holding a dissimilarity of a merged node was reached. */
  lemma HoldersReached<M>(g: Before<M>, p: Progress<M>)
    requires BeforeOk(g) && Reach(g, p.fe, p.Pa, p.Pb) && Finished(g, p)
    ensures forall n, x ::
      (0 <= n < g.F && n != g.a && n != g.b && x in g.n0[n].diss &&
       (x in g.n0[g.a].diss || x in g.n0[g.b].diss)) ==> n in p.fe.Keys
  {
    forall n, x | 0 <= n < g.F && n != g.a && n != g.b && x in g.n0[n].diss &&
                  (x in g.n0[g.a].diss || x in g.n0[g.b].diss)
      ensures n in p.fe.Keys
    {
      if x in g.n0[g.a].diss {
        OnlyEndpointsHold(g.E0, g.n0, g.al0, g.symmetric, g.a, x);
        assert n in Reached(g.E0, g.a, g.b, p.Pa);
      } else {
        OnlyEndpointsHold(g.E0, g.n0, g.al0, g.symmetric, g.b, x);
        assert n in Reached(g.E0, g.b, g.a, p.Pb);
      }
    }
  }

  /** The sets after the relinking phase, merged nodes cleared. */
  lemma EndSets<M>(g: Before<M>, p: Progress<M>)
    requires Sets(g, p.ns, p.Pa, p.Pb, p.rv) && Finished(g, p) && p.fe.Keys == p.rv.Keys
    requires forall n, x ::
      (0 <= n < g.F && n != g.a && n != g.b && x in g.n0[n].diss &&
       (x in g.n0[g.a].diss || x in g.n0[g.b].diss)) ==> n in p.fe.Keys
    ensures var n1 := Cleared(g, p.ns);
      (forall n :: 0 <= n < g.F && n != g.a && n != g.b && n !in p.fe.Keys ==> n1[n].diss == g.n0[n].diss) &&
      (forall n :: n in p.fe.Keys && n < g.F && n != g.a && n != g.b ==>
         n1[n].diss == (g.n0[n].diss - (g.n0[g.a].diss + g.n0[g.b].diss)) + {p.rv[n]}) &&
      n1[g.a].diss == {} && n1[g.b].diss == {}
  {
    var n1 := Cleared(g, p.ns);
    forall n | 0 <= n < g.F && n != g.a && n != g.b && n !in p.fe.Keys
      ensures n1[n].diss == g.n0[n].diss
    {
      assert n1[n] == p.ns[n];
      forall x | x in g.n0[n].diss
        ensures x !in g.n0[g.a].diss + g.n0[g.b].diss
      {
      }
    }
    forall n | n in p.fe.Keys && n < g.F && n != g.a && n != g.b
      ensures n1[n].diss == (g.n0[n].diss - (g.n0[g.a].diss + g.n0[g.b].diss)) + {p.rv[n]}
    {
      assert n1[n] == p.ns[n];
    }
  }

  /** A neighbour's new dissimilarity is never another neighbour's father
   *  dissimilarity. */
  lemma EndLinks<M>(g: Before<M>, p: Progress<M>)
    requires Links(g, p.E, p.ns, p.fe, p.rv)
    ensures forall n, m :: n in p.fe.Keys && m in p.fe.Keys && n != m ==> p.rv[n] != p.fe[m]
  {
  }

  /** The shape part of the step: the father and its children. */
  lemma EndShape<M>(g: Before<M>, p: Progress<M>)
    requires BeforeOk(g) && g.a < |g.n0| && g.b < |g.n0| && Shape(p.ns) == Shape(WithFather(g))
    ensures var n1 := Cleared(g, p.ns);
      WellFormed(n1) && |n1| == g.F + 1 && n1[g.F].father.None? &&
      n1[g.F].left == Some(g.a) && n1[g.F].right == Some(g.b) && n1[g.F].model == g.fm &&
      n1[g.a].father == Some(g.F) && n1[g.b].father == Some(g.F) &&
      (forall n :: 0 <= n < g.F && n != g.a && n != g.b ==> n1[n].father == g.n0[n].father) &&
      Shape(n1) == Shape(WithFather(g))
  {
    var n1 := Cleared(g, p.ns);
    var w := WithFather(g);
    JoinKeepsWellFormed(g.n0, g.fm, g.a, g.b);
    assert Shape(n1) == Shape(p.ns) by {
      forall i | 0 <= i < |n1|
        ensures Shape(n1)[i] == Shape(p.ns)[i]
      {
      }
    }
    WellFormedShape(n1, w);
    assert Shape(n1)[g.F] == Shape(w)[g.F] && Shape(n1)[g.a] == Shape(w)[g.a] && Shape(n1)[g.b] == Shape(w)[g.b];
    forall n | 0 <= n < g.F && n != g.a && n != g.b
      ensures n1[n].father == g.n0[n].father
    {
      assert Shape(n1)[n] == Shape(w)[n];
    }
  }

  /** The end of the relinking phase, with the merged nodes' sets cleared,
   *  is a merge step as the pool invariant describes it, and every new
   *  dissimilarity carries the measure between its endpoints' models. */
  lemma RelinkEnd<M>(g: Before<M>, p: Progress<M>, next: nat)
    requires Inv(g, p, next) && Finished(g, p)
    ensures StepFacts(g.E0, g.n0, g.al0, p.E, Cleared(g, p.ns), g.al0 - {g.a, g.b} + {g.F}, Record(g, p), g.symmetric)
    ensures StepValues(p.E, Cleared(g, p.ns), Record(g, p), g.symmetric, g.measure)
    ensures ChangedFirsts(g.E0, g.n0, p.E, Cleared(g, p.ns), p.fe.Keys, p.R)
  {
    EndShape(g, p);
    EndRecords(g, p);
    EndFacts(g, p);
    EndValues(g, p);
  }

  /** The values of the new dissimilarities, read on the cleared store: the
   *  father's model is the merged one and no old node's model changed. */
  lemma EndValues<M>(g: Before<M>, p: Progress<M>)
    requires BeforeOk(g) && Links(g, p.E, p.ns, p.fe, p.rv) && Shape(p.ns) == Shape(WithFather(g))
    ensures StepValues(p.E, Cleared(g, p.ns), Record(g, p), g.symmetric, g.measure)
  {
    var n1 := Cleared(g, p.ns);
    forall n | n in p.fe
      ensures n < |n1| && n1[g.F].model == g.fm && n1[n].model == g.n0[n].model
    {
      ModelsKept(g, p.ns, n);
    }
  }

  /** The father holds the merged model, and every old node keeps its
   *  model. */
  lemma ModelsKept<M>(g: Before<M>, ns: seq<Node<M>>, n: nat)
    requires g.a < |g.n0| && g.b < |g.n0| && g.F == |g.n0| && Shape(ns) == Shape(WithFather(g)) && n < g.F
    ensures |ns| == g.F + 1 && ns[g.F].model == g.fm && ns[n].model == g.n0[n].model
  {
    var w := WithFather(g);
    assert |ns| == |Shape(ns)| == |Shape(w)| == |w|;
    assert ns[g.F].model == Shape(ns)[g.F].model == Shape(w)[g.F].model;
    assert ns[n].model == Shape(ns)[n].model == Shape(w)[n].model;
  }

  lemma EndFacts<M>(g: Before<M>, p: Progress<M>)
    requires BeforeOk(g) && Links(g, p.E, p.ns, p.fe, p.rv) && Sets(g, p.ns, p.Pa, p.Pb, p.rv)
    requires Reach(g, p.fe, p.Pa, p.Pb) && Seen(g, p.Pa, p.Pb) && Finished(g, p)
    requires var n1 := Cleared(g, p.ns);
      |n1| == g.F + 1 && n1[g.F].father.None? &&
      (forall n :: 0 <= n < g.F && n != g.a && n != g.b ==> n1[n].father == g.n0[n].father)
    ensures StepFacts(g.E0, g.n0, g.al0, p.E, Cleared(g, p.ns), g.al0 - {g.a, g.b} + {g.F}, Record(g, p), g.symmetric)
  {
    EndNeighbours(g, p);
    EndSets(g, p);
    EndLinks(g, p);
  }

  lemma EndRecords<M>(g: Before<M>, p: Progress<M>)
    requires Links(g, p.E, p.ns, p.fe, p.rv) && ChangedFirsts(g.E0, g.n0, p.E, p.ns, p.fe.Keys, p.R)
    ensures ChangedFirsts(g.E0, g.n0, p.E, Cleared(g, p.ns), p.fe.Keys, p.R)
  {
    var n1 := Cleared(g, p.ns);
    forall n | n in p.fe.Keys
      ensures n1[n] == p.ns[n]
    {
    }
  }

  /** With a symmetric measure the neighbour still holds the visited
   *  dissimilarity, so the engine's erase succeeds. */
  lemma SymmetricNeighbourHolds<M>(g: Before<M>, p: Progress<M>, next: nat, onA: bool, x: nat, m: nat)
    requires Inv(g, p, next) && g.symmetric && Premise(g, p, onA, x, m)
    ensures m < |p.ns| && x in p.ns[m].diss
  {
    var u := Visited(g, onA);
    assert EdgeAt(g.E0, g.n0, u, x);
    assert x in g.n0[m].diss;
    OnlyEndpointsHold(g.E0, g.n0, g.al0, g.symmetric, u, x);
    assert x !in p.Pa + p.Pb;
  }

  /** A father neighbour already relinked holds its new dissimilarity,
   *  which is not an old one. */
  lemma RelinkedHoldsNew<M>(g: Before<M>, p: Progress<M>, next: nat, m: nat)
    requires Inv(g, p, next) && m in p.fe
    ensures m < |p.ns| && p.rv[m] in p.ns[m].diss && p.rv[m] !in g.E0
  {
  }

  /** A dissimilarity of a merged node is in the arena, with the same
   *  endpoints as before. */
  lemma MergedEdgeInArena<M>(g: Before<M>, p: Progress<M>, next: nat, onA: bool, x: nat)
    requires Inv(g, p, next) && x in g.n0[Visited(g, onA)].diss
    ensures x in g.E0 && x in p.E && p.E[x] == g.E0[x]
    ensures Other(g.E0[x], Visited(g, onA)) != Visited(g, onA)
  {
    assert EdgeAt(g.E0, g.n0, Visited(g, onA), x);
  }
}
