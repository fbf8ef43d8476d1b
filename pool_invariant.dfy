/** The state invariants of the greedy BPT construction.
 *
 *  The construction state is a dissimilarity arena `E`, the node store
 *  `nodes` (each node holding the keys of its incident dissimilarities),
 *  the set of alive nodes and the pool of candidate dissimilarities. The
 *  predicates below are what the construction keeps true between merges;
 *  the lemmas show that with a symmetric measure the first element of the
 *  pool is the smallest dissimilarity of the whole alive graph, and that a
 *  merge step, as the engine performs it, keeps the pool invariant. */
module PoolInvariant {
  import opened Wrappers
  import opened Dissimilarity
  import opened BPTNode

  /** The first element of a non-empty ordered set of dissimilarities. */
  ghost function FirstOf(E: map<nat, Diss>, s: set<nat>): (f: nat)
    requires s != {} && s <= E.Keys
    ensures IsFirst(E, s, f)
  {
    FirstExists(E, s);
    var f :| IsFirst(E, s, f); f
  }

  /** `e`, held in the set of node `n`, joins `n` to another node of the
   *  store. */
  ghost predicate EdgeAt<M>(E: map<nat, Diss>, nodes: seq<Node<M>>, n: nat, e: nat)
  {
    e in E && E[e].a != E[e].b && (E[e].a == n || E[e].b == n) &&
    E[e].a < |nodes| && E[e].b < |nodes|
  }

  /** Shape of the alive graph: alive nodes are unmerged store nodes, merged
   *  nodes hold no dissimilarities, every held dissimilarity is incident to
   *  its holder, a node holds at most one dissimilarity per neighbour, and
   *  with a symmetric measure both endpoints hold the same dissimilarity. */
  ghost predicate GraphOk<M>(E: map<nat, Diss>, nodes: seq<Node<M>>, alive: set<nat>, symmetric: bool)
  {
    (forall n :: n in alive ==> n < |nodes| && nodes[n].father.None?) &&
    (forall n :: 0 <= n < |nodes| && n !in alive ==> nodes[n].diss == {}) &&
    (forall n, e :: 0 <= n < |nodes| && e in nodes[n].diss ==> EdgeAt(E, nodes, n, e)) &&
    (forall n, e1, e2 ::
       (0 <= n < |nodes| && e1 in nodes[n].diss && e2 in nodes[n].diss &&
        e1 in E && e2 in E && Other(E[e1], n) == Other(E[e2], n)) ==> e1 == e2) &&
    (symmetric ==> forall n, e :: 0 <= n < |nodes| && e in nodes[n].diss ==>
       EdgeAt(E, nodes, n, e) && e in nodes[Other(E[e], n)].diss)
  }

  /** `x` is the first dissimilarity of both of its endpoints. */
  ghost predicate MutualFirst<M>(E: map<nat, Diss>, nodes: seq<Node<M>>, x: nat)
  {
    x in E && E[x].a < |nodes| && E[x].b < |nodes| &&
    IsFirst(E, nodes[E[x].a].diss, x) && IsFirst(E, nodes[E[x].b].diss, x)
  }

  /** `p` is the first dissimilarity of one of its endpoints. */
  ghost predicate FirstOfEndpoint<M>(E: map<nat, Diss>, nodes: seq<Node<M>>, p: nat)
  {
    p in E && E[p].a < |nodes| && E[p].b < |nodes| &&
    (IsFirst(E, nodes[E[p].a].diss, p) || IsFirst(E, nodes[E[p].b].diss, p))
  }

  /** The pool invariant: the pool holds only first dissimilarities of alive
   *  nodes, and every dissimilarity that is first for both of its endpoints
   *  is in the pool. */
  ghost predicate PoolOk<M>(E: map<nat, Diss>, nodes: seq<Node<M>>, pool: set<nat>)
  {
    (forall p :: p in pool ==> FirstOfEndpoint(E, nodes, p)) &&
    (forall x :: MutualFirst(E, nodes, x) ==> x in pool)
  }

  /** Every dissimilarity held by some node of the store. */
  ghost function AliveEdges<M>(nodes: seq<Node<M>>): set<nat>
  {
    set n, e | 0 <= n < |nodes| && e in nodes[n].diss :: e
  }

  lemma FirstOfAgree(E0: map<nat, Diss>, E1: map<nat, Diss>, s: set<nat>)
    requires s != {} && s <= E0.Keys
    requires forall k :: k in s ==> k in E1 && E1[k] == E0[k]
    ensures FirstOf(E1, s) == FirstOf(E0, s)
  {
    var f := FirstOf(E0, s);
    assert IsFirst(E1, s, f);
    FirstUnique(E1, s, f, FirstOf(E1, s));
  }

  /** With a symmetric measure the smallest alive dissimilarity is first
   *  for both of its endpoints. */
  lemma GlobalMinimumIsMutualFirst<M>(E: map<nat, Diss>, nodes: seq<Node<M>>, alive: set<nat>, g: nat)
    requires GraphOk(E, nodes, alive, true)
    requires AliveEdges(nodes) <= E.Keys && IsFirst(E, AliveEdges(nodes), g)
    ensures MutualFirst(E, nodes, g)
  {
    var n, e :| 0 <= n < |nodes| && e in nodes[n].diss && e == g;
    assert EdgeAt(E, nodes, n, g);
    var m := Other(E[g], n);
    assert g in nodes[m].diss;
    forall k | k in {E[g].a, E[g].b}
      ensures IsFirst(E, nodes[k].diss, g)
    {
      assert k == n || k == m;
      forall y | y in nodes[k].diss
        ensures y in AliveEdges(nodes)
      {
      }
    }
  }

  /** `h` is the smallest dissimilarity held by any node, value first,
   *  identity on ties. */
  ghost predicate GlobalMinimum<M>(E: map<nat, Diss>, nodes: seq<Node<M>>, h: nat)
  {
    h in E && forall n, e :: 0 <= n < |nodes| && e in nodes[n].diss ==> e in E && (h == e || Less(E, h, e))
  }

  /** The first element of the pool is the smallest dissimilarity of the
   *  whole alive graph (value first, identity on ties), and it is the first
   *  dissimilarity of both of its endpoints. */
  lemma PoolHeadIsGlobalMinimum<M>(E: map<nat, Diss>, nodes: seq<Node<M>>, alive: set<nat>,
                                   pool: set<nat>, h: nat)
    requires GraphOk(E, nodes, alive, true) && PoolOk(E, nodes, pool)
    requires IsFirst(E, pool, h)
    ensures MutualFirst(E, nodes, h) && GlobalMinimum(E, nodes, h)
  {
    var AE := AliveEdges(nodes);
    assert FirstOfEndpoint(E, nodes, h);
    var k := if IsFirst(E, nodes[E[h].a].diss, h) then E[h].a else E[h].b;
    assert h in AE;
    assert AE <= E.Keys;
    var g := FirstOf(E, AE);
    GlobalMinimumIsMutualFirst(E, nodes, alive, g);
    assert g in pool;
    assert g in E && h in E;
    LessTrichotomous(E, g, h);
    forall n, e | 0 <= n < |nodes| && e in nodes[n].diss
      ensures e in E && (h == e || Less(E, h, e))
    {
      assert e in AE;
    }
  }

  /** The engine's loop condition `aliveDissimilarities.size() > 0` is
   *  exactly "some alive node still has a dissimilarity". */
  lemma PoolEmptyIffNoEdges<M>(E: map<nat, Diss>, nodes: seq<Node<M>>, alive: set<nat>, pool: set<nat>)
    requires GraphOk(E, nodes, alive, true) && PoolOk(E, nodes, pool)
    ensures pool == {} <==> AliveEdges(nodes) == {}
  {
    if pool != {} {
      var p :| p in pool;
      assert FirstOfEndpoint(E, nodes, p);
      var k := if IsFirst(E, nodes[E[p].a].diss, p) then E[p].a else E[p].b;
      assert p in AliveEdges(nodes);
    }
    if AliveEdges(nodes) != {} {
      var AE := AliveEdges(nodes);
      assert AE <= E.Keys;
      var g := FirstOf(E, AE);
      GlobalMinimumIsMutualFirst(E, nodes, alive, g);
      assert g in pool;
    }
  }
}

module MergeStep {
  import opened Wrappers
  import opened Dissimilarity
  import opened BPTNode
  import opened PoolInvariant

  /** What one merge did: the selected dissimilarity `e` joining `a` and `b`,
   *  the father `F`, the father's neighbours `N`, for each of them the
   *  father's new dissimilarity `fe[n]` and the one added to the
   *  neighbour's own set `rv[n]` (the same one for a symmetric measure),
   *  and `R`, the neighbours whose first dissimilarity changed, with that
   *  old first dissimilarity. */
  datatype StepRecord = StepRecord(e: nat, a: nat, b: nat, F: nat, N: set<nat>,
                                   fe: map<nat, nat>, rv: map<nat, nat>, R: map<nat, nat>)

  /** The neighbours other than `w` reached from `u` through the
   *  dissimilarities `P`. */
  ghost function Reached(E0: map<nat, Diss>, u: nat, w: nat, P: set<nat>): set<nat>
  {
    set x | x in P && x in E0 && Other(E0[x], u) != w :: Other(E0[x], u)
  }

  /** The structural effect of a merge on the graph: the father's
   *  neighbours are exactly the nodes other than `a` and `b` that one of
   *  their dissimilarities leads to. */
  ghost predicate StepFacts<M>(E0: map<nat, Diss>, n0: seq<Node<M>>, al0: set<nat>,
                               E1: map<nat, Diss>, n1: seq<Node<M>>, al1: set<nat>,
                               st: StepRecord, symmetric: bool)
  {
    var StepRecord(e, a, b, F, N, fe, rv, R) := st;
    e in E0 && a == E0[e].a && b == E0[e].b && a != b && a in al0 && b in al0 &&
    F == |n0| && |n1| == F + 1 && a < F && b < F && (forall n :: n in N ==> n < F) && al1 == al0 - {a, b} + {F} &&
    N <= al0 && a !in N && b !in N && N == fe.Keys && N == rv.Keys &&
    N == Reached(E0, a, b, n0[a].diss) + Reached(E0, b, a, n0[b].diss) &&
    (forall n, x ::
       (0 <= n < F && n != a && n != b && x in n0[n].diss && (x in n0[a].diss || x in n0[b].diss))
       ==> n in N) &&
    (forall n :: 0 <= n < F && n != a && n != b && n !in N ==> n1[n].diss == n0[n].diss) &&
    (forall n :: n in N ==> n1[n].diss == (n0[n].diss - (n0[a].diss + n0[b].diss)) + {rv[n]}) &&
    (forall n :: n in N ==> fe[n] in E1 && fe[n] !in E0 && E1[fe[n]].a == F && E1[fe[n]].b == n) &&
    (forall n :: n in N ==>
       rv[n] in E1 && rv[n] !in E0 &&
       if symmetric then rv[n] == fe[n] else E1[rv[n]].a == n && E1[rv[n]].b == F) &&
    (forall n, m :: n in N && m in N && n != m ==> rv[n] != fe[m]) &&
    n1[F].diss == fe.Values && n1[F].father.None? &&
    n1[a].diss == {} && n1[b].diss == {} &&
    (forall n :: 0 <= n < F && n != a && n != b ==> n1[n].father == n0[n].father) &&
    (forall k :: k in E0 && k !in n0[a].diss && k !in n0[b].diss ==> k in E1 && E1[k] == E0[k])
  }

  /** Every father neighbour was a neighbour of `a` or of `b`: one of their
   *  dissimilarities leads to it. */
  lemma FatherNeighbourWasNeighbour<M>(E0: map<nat, Diss>, n0: seq<Node<M>>, al0: set<nat>,
                                       E1: map<nat, Diss>, n1: seq<Node<M>>, al1: set<nat>,
                                       st: StepRecord, symmetric: bool, n: nat)
    requires StepFacts(E0, n0, al0, E1, n1, al1, st, symmetric) && n in st.N
    ensures exists x :: x in E0 && ((x in n0[st.a].diss && Other(E0[x], st.a) == n) ||
                                    (x in n0[st.b].diss && Other(E0[x], st.b) == n))
  {
    if n in Reached(E0, st.a, st.b, n0[st.a].diss) {
      var x :| x in n0[st.a].diss && x in E0 && Other(E0[x], st.a) != st.b && Other(E0[x], st.a) == n;
    } else {
      var x :| x in n0[st.b].diss && x in E0 && Other(E0[x], st.b) != st.a && Other(E0[x], st.b) == n;
    }
  }

  /** The values of the dissimilarities a merge created: the father's
   *  dissimilarity to neighbour `n` carries measure(father, n), and with an
   *  asymmetric measure the reverse one carries measure(n, father). */
  ghost predicate StepValues<M>(E1: map<nat, Diss>, n1: seq<Node<M>>, st: StepRecord, symmetric: bool,
                                measure: (M, M) -> real)
  {
    st.F < |n1| &&
    forall n :: n in st.N ==>
      n < |n1| && n in st.fe && n in st.rv && st.fe[n] in E1 && st.rv[n] in E1 &&
      E1[st.fe[n]].value == measure(n1[st.F].model, n1[n].model) &&
      (!symmetric ==> E1[st.rv[n]].value == measure(n1[n].model, n1[st.F].model))
  }

  /** Releasing old dissimilarities keeps the new ones and their values. */
  lemma RemovalKeepsValues<M>(E0: map<nat, Diss>, n0: seq<Node<M>>, al0: set<nat>,
                              E: map<nat, Diss>, E1: map<nat, Diss>, n1: seq<Node<M>>, al1: set<nat>,
                              st: StepRecord, symmetric: bool, measure: (M, M) -> real, gone: set<nat>)
    requires StepFacts(E0, n0, al0, E, n1, al1, st, symmetric) && StepValues(E, n1, st, symmetric, measure)
    requires E1 == E - gone && gone <= E0.Keys
    ensures StepValues(E1, n1, st, symmetric, measure)
  {
    forall n | n in st.N
      ensures st.fe[n] !in gone && st.rv[n] !in gone
    {
    }
  }

  /** The first dissimilarity, after the merge, of each neighbour in `R`. */
  ghost function NewFirsts<M>(E1: map<nat, Diss>, n1: seq<Node<M>>, R: map<nat, nat>): set<nat>
  {
    set n | n in R && n < |n1| && n1[n].diss != {} && n1[n].diss <= E1.Keys :: FirstOf(E1, n1[n].diss)
  }

  /** `R` holds exactly the neighbours whose first dissimilarity changed,
   *  each with its old first dissimilarity. */
  ghost predicate ChangedFirsts<M>(E0: map<nat, Diss>, n0: seq<Node<M>>,
                                   E1: map<nat, Diss>, n1: seq<Node<M>>, N: set<nat>, R: map<nat, nat>)
  {
    R.Keys <= N &&
    forall n :: n in N ==>
      n < |n0| && n < |n1| &&
      n0[n].diss != {} && n0[n].diss <= E0.Keys &&
      n1[n].diss != {} && n1[n].diss <= E1.Keys &&
      (n in R <==> FirstOf(E1, n1[n].diss) != FirstOf(E0, n0[n].diss)) &&
      (n in R ==> R[n] == FirstOf(E0, n0[n].diss))
  }

  /** What the pool may hold after the merge. */
  ghost predicate PoolUpper<M>(pool0: set<nat>, E1: map<nat, Diss>, n1: seq<Node<M>>, pool1: set<nat>,
                               st: StepRecord)
  {
    forall p :: p in pool1 ==>
      (p in pool0 && p != st.e && p !in st.R.Values) ||
      (st.F < |n1| && n1[st.F].diss != {} && n1[st.F].diss <= E1.Keys && p == FirstOf(E1, n1[st.F].diss)) ||
      p in NewFirsts(E1, n1, st.R)
  }

  /** What the pool must hold after the merge. */
  ghost predicate PoolLower<M>(pool0: set<nat>, E1: map<nat, Diss>, n1: seq<Node<M>>, pool1: set<nat>,
                               st: StepRecord)
  {
    (forall p :: p in pool0 && p != st.e && p !in st.R.Values ==> p in pool1) &&
    (st.F < |n1| && n1[st.F].diss != {} && n1[st.F].diss <= E1.Keys ==>
       FirstOf(E1, n1[st.F].diss) in pool1) &&
    (forall n ::
       (n in st.R && n < |n1| && n1[n].diss != {} && n1[n].diss <= E1.Keys &&
        FirstOf(E1, n1[n].diss) in E1 && E1[FirstOf(E1, n1[n].diss)].a != st.F &&
        FirstOf(E1, n1[n].diss) !in st.R.Values)
       ==> FirstOf(E1, n1[n].diss) in pool1)
  }

  /** How the neighbours' first dissimilarities were recorded and how the
   *  pool was reconciled. */
  ghost predicate PoolFacts<M>(E0: map<nat, Diss>, n0: seq<Node<M>>, pool0: set<nat>,
                               E1: map<nat, Diss>, n1: seq<Node<M>>, pool1: set<nat>,
                               st: StepRecord)
  {
    ChangedFirsts(E0, n0, E1, n1, st.N, st.R) &&
    PoolUpper(pool0, E1, n1, pool1, st) && PoolLower(pool0, E1, n1, pool1, st)
  }

  /** A dissimilarity held after the merge by a node other than the two
   *  merged ones and the father is either the one the merge gave it or an
   *  old one that did not touch the merged nodes and kept its endpoints. */
  lemma HeldAfterStep<M>(E0: map<nat, Diss>, n0: seq<Node<M>>, al0: set<nat>,
                         E1: map<nat, Diss>, n1: seq<Node<M>>, al1: set<nat>,
                         st: StepRecord, symmetric: bool, n: nat, x: nat)
    requires GraphOk(E0, n0, al0, symmetric)
    requires StepFacts(E0, n0, al0, E1, n1, al1, st, symmetric)
    requires n < st.F && n != st.a && n != st.b && x in n1[n].diss
    ensures (n in st.N && x == st.rv[n]) ||
            (x in n0[n].diss && x !in n0[st.a].diss && x !in n0[st.b].diss &&
             x in E0 && x in E1 && E1[x] == E0[x] && EdgeAt(E0, n0, n, x) &&
             Other(E1[x], n) < st.F)
  {
    if n in st.N && x == st.rv[n] {
    } else {
      if n in st.N {
        InRest(x, n0[n].diss, n0[st.a].diss, n0[st.b].diss, st.rv[n]);
      } else {
        assert x in n0[n].diss;
        assert x !in n0[st.a].diss && x !in n0[st.b].diss;
      }
      assert EdgeAt(E0, n0, n, x);
      assert x in E1 && E1[x] == E0[x];
    }
  }

  lemma InRest(x: nat, D: set<nat>, A: set<nat>, B: set<nat>, r: nat)
    requires x in (D - (A + B)) + {r} && x != r
    ensures x in D && x !in A && x !in B
  {
  }

  lemma StepKeepsAlive<M>(E0: map<nat, Diss>, n0: seq<Node<M>>, al0: set<nat>,
                          E1: map<nat, Diss>, n1: seq<Node<M>>, al1: set<nat>,
                          st: StepRecord, symmetric: bool)
    requires GraphOk(E0, n0, al0, symmetric)
    requires StepFacts(E0, n0, al0, E1, n1, al1, st, symmetric)
    ensures forall n :: n in al1 ==> n < |n1| && n1[n].father.None?
    ensures forall n :: 0 <= n < |n1| && n !in al1 ==> n1[n].diss == {}
  {
    var StepRecord(e, a, b, F, N, fe, rv, R) := st;
    forall n | 0 <= n < |n1| && n !in al1
      ensures n1[n].diss == {}
    {
      if n != a && n != b {
        assert n !in al0 && n !in N;
      }
    }
  }

  lemma StepKeepsEdgesAt<M>(E0: map<nat, Diss>, n0: seq<Node<M>>, al0: set<nat>,
                            E1: map<nat, Diss>, n1: seq<Node<M>>, al1: set<nat>,
                            st: StepRecord, symmetric: bool)
    requires GraphOk(E0, n0, al0, symmetric)
    requires StepFacts(E0, n0, al0, E1, n1, al1, st, symmetric)
    ensures forall n, x :: 0 <= n < |n1| && x in n1[n].diss ==> EdgeAt(E1, n1, n, x)
  {
    forall n, x | 0 <= n < |n1| && x in n1[n].diss
      ensures EdgeAt(E1, n1, n, x)
    {
      if n == st.F {
        var m :| m in st.N && st.fe[m] == x;
      } else {
        HeldAfterStep(E0, n0, al0, E1, n1, al1, st, symmetric, n, x);
      }
    }
  }

  lemma StepKeepsSimple<M>(E0: map<nat, Diss>, n0: seq<Node<M>>, al0: set<nat>,
                           E1: map<nat, Diss>, n1: seq<Node<M>>, al1: set<nat>,
                           st: StepRecord, symmetric: bool)
    requires GraphOk(E0, n0, al0, symmetric)
    requires StepFacts(E0, n0, al0, E1, n1, al1, st, symmetric)
    ensures forall n, x1, x2 ::
       (0 <= n < |n1| && x1 in n1[n].diss && x2 in n1[n].diss &&
        x1 in E1 && x2 in E1 && Other(E1[x1], n) == Other(E1[x2], n)) ==> x1 == x2
  {
    forall n, x1, x2 |
      (0 <= n < |n1| && x1 in n1[n].diss && x2 in n1[n].diss &&
       x1 in E1 && x2 in E1 && Other(E1[x1], n) == Other(E1[x2], n))
      ensures x1 == x2
    {
      if n == st.F {
        var m1 :| m1 in st.N && st.fe[m1] == x1;
        var m2 :| m2 in st.N && st.fe[m2] == x2;
      } else {
        HeldAfterStep(E0, n0, al0, E1, n1, al1, st, symmetric, n, x1);
        HeldAfterStep(E0, n0, al0, E1, n1, al1, st, symmetric, n, x2);
      }
    }
  }

  lemma StepKeepsShared<M>(E0: map<nat, Diss>, n0: seq<Node<M>>, al0: set<nat>,
                           E1: map<nat, Diss>, n1: seq<Node<M>>, al1: set<nat>,
                           st: StepRecord)
    requires GraphOk(E0, n0, al0, true)
    requires StepFacts(E0, n0, al0, E1, n1, al1, st, true)
    ensures forall n, x :: 0 <= n < |n1| && x in n1[n].diss ==>
       EdgeAt(E1, n1, n, x) && x in n1[Other(E1[x], n)].diss
  {
    StepKeepsEdgesAt(E0, n0, al0, E1, n1, al1, st, true);
    forall n, x | 0 <= n < |n1| && x in n1[n].diss
      ensures x in n1[Other(E1[x], n)].diss
    {
      if n == st.F {
        var m :| m in st.N && st.fe[m] == x;
      } else {
        SharedAwayFromFather(E0, n0, al0, E1, n1, al1, st, n, x);
      }
    }
  }

  /** A dissimilarity held by a node other than the father is held by its
   *  other endpoint too. */
  lemma SharedAwayFromFather<M>(E0: map<nat, Diss>, n0: seq<Node<M>>, al0: set<nat>,
                                E1: map<nat, Diss>, n1: seq<Node<M>>, al1: set<nat>,
                                st: StepRecord, n: nat, x: nat)
    requires GraphOk(E0, n0, al0, true)
    requires StepFacts(E0, n0, al0, E1, n1, al1, st, true)
    requires 0 <= n < |n1| && x in n1[n].diss && n != st.F && EdgeAt(E1, n1, n, x)
    ensures x in n1[Other(E1[x], n)].diss
  {
    HeldAfterStep(E0, n0, al0, E1, n1, al1, st, true, n, x);
    if n in st.N && x == st.rv[n] {
      assert x in st.fe.Values;
    } else {
      var o := Other(E0[x], n);
      assert x in n0[o].diss;
      assert o != st.a && o != st.b;
    }
  }

  /** A merge step keeps the shape of the alive graph. */
  lemma StepKeepsGraph<M>(E0: map<nat, Diss>, n0: seq<Node<M>>, al0: set<nat>,
                          E1: map<nat, Diss>, n1: seq<Node<M>>, al1: set<nat>,
                          st: StepRecord, symmetric: bool)
    requires GraphOk(E0, n0, al0, symmetric)
    requires StepFacts(E0, n0, al0, E1, n1, al1, st, symmetric)
    ensures GraphOk(E1, n1, al1, symmetric)
  {
    StepKeepsAlive(E0, n0, al0, E1, n1, al1, st, symmetric);
    StepKeepsEdgesAt(E0, n0, al0, E1, n1, al1, st, symmetric);
    StepKeepsSimple(E0, n0, al0, E1, n1, al1, st, symmetric);
    if symmetric {
      StepKeepsShared(E0, n0, al0, E1, n1, al1, st);
    }
  }

  /** A node other than the merged ones whose first dissimilarity was not
   *  recorded as changed keeps that first dissimilarity. */
  lemma UnchangedFirst<M>(E0: map<nat, Diss>, n0: seq<Node<M>>, al0: set<nat>,
                          E1: map<nat, Diss>, n1: seq<Node<M>>, al1: set<nat>,
                          st: StepRecord, n: nat)
    requires GraphOk(E0, n0, al0, true)
    requires StepFacts(E0, n0, al0, E1, n1, al1, st, true)
    requires ChangedFirsts(E0, n0, E1, n1, st.N, st.R)
    requires n < st.F && n != st.a && n != st.b && n !in st.R && n0[n].diss != {}
    ensures n0[n].diss <= E0.Keys && n1[n].diss != {} && n1[n].diss <= E1.Keys
    ensures FirstOf(E1, n1[n].diss) == FirstOf(E0, n0[n].diss)
  {
    if n !in st.N {
      forall k | k in n0[n].diss
        ensures k in E0 && k in E1 && E1[k] == E0[k]
      {
        assert EdgeAt(E0, n0, n, k);
      }
      FirstOfAgree(E0, E1, n0[n].diss);
    }
  }

  /** Nodes untouched by the recorded changes keep their first
   *  dissimilarity. */
  ghost predicate KeepsFirst<M>(E0: map<nat, Diss>, n0: seq<Node<M>>,
                                E1: map<nat, Diss>, n1: seq<Node<M>>, st: StepRecord)
  {
    forall n: nat :: n < st.F && n < |n0| && n < |n1| && n != st.a && n != st.b && n !in st.R && n0[n].diss != {} ==>
      n0[n].diss <= E0.Keys && n1[n].diss != {} && n1[n].diss <= E1.Keys &&
      FirstOf(E1, n1[n].diss) == FirstOf(E0, n0[n].diss)
  }

  /** Dissimilarities held after the merge by old unmerged nodes are the
   *  father's new ones or old ones left as they were. */
  ghost predicate OldHeld<M>(E0: map<nat, Diss>, n0: seq<Node<M>>, E1: map<nat, Diss>, n1: seq<Node<M>>, st: StepRecord)
  {
    forall n: nat, x :: n < st.F && n < |n0| && n < |n1| && n != st.a && n != st.b && x in n1[n].diss ==>
      x in E1 && (E1[x].a == st.F || (x in E0 && x in n0[n].diss && E1[x] == E0[x]))
  }

  /** The plain facts about the merge that the pool argument needs. */
  ghost predicate StepFrame<M>(E0: map<nat, Diss>, n0: seq<Node<M>>,
                               E1: map<nat, Diss>, n1: seq<Node<M>>, st: StepRecord)
  {
    st.e in E0 && st.a == E0[st.e].a && st.b == E0[st.e].b &&
    st.F == |n0| && |n1| == st.F + 1 && st.a < st.F && st.b < st.F &&
    n1[st.a].diss == {} && n1[st.b].diss == {} && n1[st.F].diss <= E1.Keys
  }

  /** The neighbours recorded as having changed their first dissimilarity,
   *  with that old first dissimilarity. */
  ghost predicate Recorded<M>(E0: map<nat, Diss>, n0: seq<Node<M>>,
                              E1: map<nat, Diss>, n1: seq<Node<M>>, R: map<nat, nat>)
  {
    forall m :: m in R ==>
      m < |n0| && m < |n1| && n0[m].diss != {} && n0[m].diss <= E0.Keys &&
      n1[m].diss != {} && n1[m].diss <= E1.Keys &&
      R[m] == FirstOf(E0, n0[m].diss) && FirstOf(E1, n1[m].diss) != R[m]
  }

  lemma DigestKeepsFirst<M>(E0: map<nat, Diss>, n0: seq<Node<M>>, al0: set<nat>,
                            E1: map<nat, Diss>, n1: seq<Node<M>>, al1: set<nat>, st: StepRecord)
    requires GraphOk(E0, n0, al0, true)
    requires StepFacts(E0, n0, al0, E1, n1, al1, st, true)
    requires ChangedFirsts(E0, n0, E1, n1, st.N, st.R)
    ensures KeepsFirst(E0, n0, E1, n1, st)
  {
    forall n: nat | n < st.F && n < |n0| && n < |n1| && n != st.a && n != st.b && n !in st.R && n0[n].diss != {}
      ensures n0[n].diss <= E0.Keys && n1[n].diss != {} && n1[n].diss <= E1.Keys &&
              FirstOf(E1, n1[n].diss) == FirstOf(E0, n0[n].diss)
    {
      UnchangedFirst(E0, n0, al0, E1, n1, al1, st, n);
    }
  }

  lemma DigestOldHeld<M>(E0: map<nat, Diss>, n0: seq<Node<M>>, al0: set<nat>,
                         E1: map<nat, Diss>, n1: seq<Node<M>>, al1: set<nat>, st: StepRecord)
    requires GraphOk(E0, n0, al0, true)
    requires StepFacts(E0, n0, al0, E1, n1, al1, st, true)
    ensures OldHeld(E0, n0, E1, n1, st)
  {
    forall n: nat, x | n < st.F && n < |n0| && n < |n1| && n != st.a && n != st.b && x in n1[n].diss
      ensures x in E1 && (E1[x].a == st.F || (x in E0 && x in n0[n].diss && E1[x] == E0[x]))
    {
      HeldAfterStep(E0, n0, al0, E1, n1, al1, st, true, n, x);
    }
  }

  lemma DigestFrame<M>(E0: map<nat, Diss>, n0: seq<Node<M>>, al0: set<nat>,
                       E1: map<nat, Diss>, n1: seq<Node<M>>, al1: set<nat>, st: StepRecord)
    requires StepFacts(E0, n0, al0, E1, n1, al1, st, true)
    requires GraphOk(E1, n1, al1, true)
    ensures StepFrame(E0, n0, E1, n1, st)
  {
    forall x | x in n1[st.F].diss
      ensures x in E1
    {
      assert EdgeAt(E1, n1, st.F, x);
    }
  }

  lemma DigestRecorded<M>(E0: map<nat, Diss>, n0: seq<Node<M>>, E1: map<nat, Diss>, n1: seq<Node<M>>,
                          st: StepRecord)
    requires ChangedFirsts(E0, n0, E1, n1, st.N, st.R)
    ensures Recorded(E0, n0, E1, n1, st.R)
  {
  }

  /** A dissimilarity that is first for both of its (old) endpoints after
   *  the merge was not the recorded old first of any neighbour. */
  lemma MutualFirstNotRecorded<M>(E0: map<nat, Diss>, n0: seq<Node<M>>, al0: set<nat>,
                                  E1: map<nat, Diss>, n1: seq<Node<M>>, R: map<nat, nat>, x: nat)
    requires GraphOk(E0, n0, al0, true) && Recorded(E0, n0, E1, n1, R)
    requires MutualFirst(E1, n1, x) && x in E0 && E1[x] == E0[x]
    ensures x !in R.Values
  {
    if x in R.Values {
      var m :| m in R && R[m] == x;
      assert x in n0[m].diss;
      assert EdgeAt(E0, n0, m, x);
      if E1[x].a == m {
        assert IsFirst(E1, n1[E1[x].a].diss, x);
      } else {
        assert IsFirst(E1, n1[E1[x].b].diss, x);
      }
      assert IsFirst(E1, n1[m].diss, x);
      FirstUnique(E1, n1[m].diss, x, FirstOf(E1, n1[m].diss));
      assert false;
    }
  }

  /** After a merge every dissimilarity that is first for both of its
   *  endpoints is in the pool. */
  lemma StepKeepsMutualInPool<M>(E0: map<nat, Diss>, n0: seq<Node<M>>, al0: set<nat>, pool0: set<nat>,
                                 E1: map<nat, Diss>, n1: seq<Node<M>>, pool1: set<nat>,
                                 st: StepRecord, x: nat)
    requires GraphOk(E0, n0, al0, true) && PoolOk(E0, n0, pool0)
    requires StepFrame(E0, n0, E1, n1, st) && Recorded(E0, n0, E1, n1, st.R)
    requires KeepsFirst(E0, n0, E1, n1, st) && OldHeld(E0, n0, E1, n1, st)
    requires PoolLower(pool0, E1, n1, pool1, st)
    requires MutualFirst(E1, n1, x)
    ensures x in pool1
  {
    var p, q := E1[x].a, E1[x].b;
    if p == st.F || q == st.F {
      FirstUnique(E1, n1[st.F].diss, x, FirstOf(E1, n1[st.F].diss));
    } else {
      assert x in n1[p].diss && x in n1[q].diss;
      assert p != st.a && p != st.b && q != st.a && q != st.b;
      assert x in E0 && E1[x] == E0[x];
      MutualFirstNotRecorded(E0, n0, al0, E1, n1, st.R, x);
      if p in st.R {
        FirstUnique(E1, n1[p].diss, x, FirstOf(E1, n1[p].diss));
      } else if q in st.R {
        FirstUnique(E1, n1[q].diss, x, FirstOf(E1, n1[q].diss));
      } else {
        assert x in n0[p].diss && x in n0[q].diss;
        FirstUnique(E1, n1[p].diss, x, FirstOf(E1, n1[p].diss));
        FirstUnique(E1, n1[q].diss, x, FirstOf(E1, n1[q].diss));
        assert MutualFirst(E0, n0, x);
      }
    }
  }

  /** An old pool element that the merge neither selected nor recorded is
   *  still the first dissimilarity of one of its endpoints. */
  lemma OldPoolElementStaysFirst<M>(E0: map<nat, Diss>, n0: seq<Node<M>>, pool0: set<nat>,
                                    E1: map<nat, Diss>, n1: seq<Node<M>>, al1: set<nat>,
                                    st: StepRecord, y: nat)
    requires PoolOk(E0, n0, pool0) && MutualFirst(E0, n0, st.e)
    requires StepFrame(E0, n0, E1, n1, st) && KeepsFirst(E0, n0, E1, n1, st)
    requires Recorded(E0, n0, E1, n1, st.R)
    requires GraphOk(E1, n1, al1, true)
    requires y in pool0 && y != st.e && y !in st.R.Values
    ensures FirstOfEndpoint(E1, n1, y)
  {
    assert FirstOfEndpoint(E0, n0, y);
    var k := if IsFirst(E0, n0[E0[y].a].diss, y) then E0[y].a else E0[y].b;
    assert k != st.a && k != st.b by {
      if k == st.a || k == st.b {
        FirstUnique(E0, n0[k].diss, y, st.e);
      }
    }
    assert k !in st.R by {
      if k in st.R {
        FirstUnique(E0, n0[k].diss, y, st.R[k]);
      }
    }
    assert y in n1[k].diss;
    assert EdgeAt(E1, n1, k, y);
  }

  /** After a merge every pool element is the first dissimilarity of one of
   *  its endpoints. */
  lemma StepKeepsPoolFirsts<M>(E0: map<nat, Diss>, n0: seq<Node<M>>, pool0: set<nat>,
                               E1: map<nat, Diss>, n1: seq<Node<M>>, al1: set<nat>, pool1: set<nat>,
                               st: StepRecord, y: nat)
    requires PoolOk(E0, n0, pool0) && MutualFirst(E0, n0, st.e)
    requires StepFrame(E0, n0, E1, n1, st) && KeepsFirst(E0, n0, E1, n1, st)
    requires Recorded(E0, n0, E1, n1, st.R)
    requires PoolUpper(pool0, E1, n1, pool1, st)
    requires GraphOk(E1, n1, al1, true)
    requires y in pool1
    ensures FirstOfEndpoint(E1, n1, y)
  {
    if y in pool0 && y != st.e && y !in st.R.Values {
      OldPoolElementStaysFirst(E0, n0, pool0, E1, n1, al1, st, y);
    } else if st.F < |n1| && n1[st.F].diss != {} && n1[st.F].diss <= E1.Keys && y == FirstOf(E1, n1[st.F].diss) {
      FirstIsEndpointFirst(E1, n1, al1, st.F);
    } else {
      var n :| n in st.R && n < |n1| && n1[n].diss != {} && n1[n].diss <= E1.Keys && y == FirstOf(E1, n1[n].diss);
      FirstIsEndpointFirst(E1, n1, al1, n);
    }
  }

  /** A node's first dissimilarity is the first one of one of its
   *  endpoints: that node. */
  lemma FirstIsEndpointFirst<M>(E: map<nat, Diss>, nodes: seq<Node<M>>, alive: set<nat>, n: nat)
    requires GraphOk(E, nodes, alive, true)
    requires n < |nodes| && nodes[n].diss != {} && nodes[n].diss <= E.Keys
    ensures FirstOfEndpoint(E, nodes, FirstOf(E, nodes[n].diss))
  {
    assert EdgeAt(E, nodes, n, FirstOf(E, nodes[n].diss));
  }

  /** With a symmetric measure a merge step keeps the pool invariant, so the
   *  next pool head is again the global minimum. */
  lemma StepKeepsPool<M>(E0: map<nat, Diss>, n0: seq<Node<M>>, al0: set<nat>, pool0: set<nat>,
                         E1: map<nat, Diss>, n1: seq<Node<M>>, al1: set<nat>, pool1: set<nat>,
                         st: StepRecord)
    requires GraphOk(E0, n0, al0, true) && PoolOk(E0, n0, pool0) && IsFirst(E0, pool0, st.e)
    requires StepFacts(E0, n0, al0, E1, n1, al1, st, true)
    requires PoolFacts(E0, n0, pool0, E1, n1, pool1, st)
    ensures GraphOk(E1, n1, al1, true) && PoolOk(E1, n1, pool1)
  {
    StepKeepsGraph(E0, n0, al0, E1, n1, al1, st, true);
    DigestKeepsFirst(E0, n0, al0, E1, n1, al1, st);
    DigestOldHeld(E0, n0, al0, E1, n1, al1, st);
    DigestFrame(E0, n0, al0, E1, n1, al1, st);
    DigestRecorded(E0, n0, E1, n1, st);
    PoolHeadIsGlobalMinimum(E0, n0, al0, pool0, st.e);
    forall y | y in pool1
      ensures FirstOfEndpoint(E1, n1, y)
    {
      StepKeepsPoolFirsts(E0, n0, pool0, E1, n1, al1, pool1, st, y);
    }
    forall x | MutualFirst(E1, n1, x)
      ensures x in pool1
    {
      StepKeepsMutualInPool(E0, n0, al0, pool0, E1, n1, pool1, st, x);
    }
  }
}
