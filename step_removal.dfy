/** Releasing the merged nodes' dissimilarities at the end of a merge.
 *
 *  The engine deletes from the arena the dissimilarities of `a` (except the
 *  ones leading to `b`) and all those of `b`. Nothing still held by a node
 *  is deleted, so every first dissimilarity, and with it everything the
 *  pool invariant says, is the same before and after the deletion. */
module StepRemoval {
  import opened Dissimilarity
  import opened BPTNode
  import opened PoolInvariant
  import opened MergeStep

  /** `E1` is `Emid` without the keys `gone`. */
  ghost predicate Without(Emid: map<nat, Diss>, E1: map<nat, Diss>, gone: set<nat>)
  {
    E1.Keys == Emid.Keys - gone && forall k :: k in E1 ==> E1[k] == Emid[k]
  }

  /** After the merge no node holds a dissimilarity of a merged node. */
  lemma NothingGoneIsHeld<M>(E0: map<nat, Diss>, n0: seq<Node<M>>, al0: set<nat>,
                             E1: map<nat, Diss>, n1: seq<Node<M>>, al1: set<nat>,
                             st: StepRecord, symmetric: bool, gone: set<nat>)
    requires StepFacts(E0, n0, al0, E1, n1, al1, st, symmetric)
    requires gone <= n0[st.a].diss + n0[st.b].diss && gone <= E0.Keys
    ensures forall n :: 0 <= n < |n1| ==> n1[n].diss !! gone
  {
    forall n | 0 <= n < |n1|
      ensures n1[n].diss !! gone
    {
      if n == st.F {
        forall k | k in n1[n].diss
          ensures k !in E0
        {
          var m :| m in st.fe && st.fe[m] == k;
        }
      } else if n != st.a && n != st.b && n !in st.N {
        assert n1[n].diss == n0[n].diss;
      }
    }
  }

  lemma FirstsAgree<M>(Emid: map<nat, Diss>, E1: map<nat, Diss>, n1: seq<Node<M>>, gone: set<nat>)
    requires Without(Emid, E1, gone)
    requires forall n :: 0 <= n < |n1| ==> n1[n].diss !! gone
    ensures forall n :: 0 <= n < |n1| && n1[n].diss != {} && n1[n].diss <= Emid.Keys ==>
      n1[n].diss <= E1.Keys && FirstOf(E1, n1[n].diss) == FirstOf(Emid, n1[n].diss)
  {
    forall n | 0 <= n < |n1| && n1[n].diss != {} && n1[n].diss <= Emid.Keys
      ensures n1[n].diss <= E1.Keys && FirstOf(E1, n1[n].diss) == FirstOf(Emid, n1[n].diss)
    {
      FirstOfAgree(Emid, E1, n1[n].diss);
    }
  }

  /** Deleting the released dissimilarities keeps the structural facts of
   *  the step. */
  lemma RemovalKeepsStep<M>(E0: map<nat, Diss>, n0: seq<Node<M>>, al0: set<nat>,
                            Emid: map<nat, Diss>, E1: map<nat, Diss>, n1: seq<Node<M>>, al1: set<nat>,
                            st: StepRecord, symmetric: bool, gone: set<nat>)
    requires StepFacts(E0, n0, al0, Emid, n1, al1, st, symmetric)
    requires gone <= n0[st.a].diss + n0[st.b].diss && gone <= E0.Keys
    requires Without(Emid, E1, gone)
    ensures StepFacts(E0, n0, al0, E1, n1, al1, st, symmetric)
  {
  }

  /** Deleting the released dissimilarities keeps the pool facts of the
   *  step. */
  lemma RemovalKeepsPool<M>(E0: map<nat, Diss>, n0: seq<Node<M>>, al0: set<nat>, pool0: set<nat>,
                            Emid: map<nat, Diss>, E1: map<nat, Diss>, n1: seq<Node<M>>, al1: set<nat>,
                            pool1: set<nat>, st: StepRecord, symmetric: bool, gone: set<nat>)
    requires StepFacts(E0, n0, al0, Emid, n1, al1, st, symmetric)
    requires PoolFacts(E0, n0, pool0, Emid, n1, pool1, st)
    requires gone <= n0[st.a].diss + n0[st.b].diss && gone <= E0.Keys
    requires Without(Emid, E1, gone)
    ensures PoolFacts(E0, n0, pool0, E1, n1, pool1, st)
  {
    NothingGoneIsHeld(E0, n0, al0, Emid, n1, al1, st, symmetric, gone);
    FirstsAgree(Emid, E1, n1, gone);
    KeepsChanged(E0, n0, Emid, E1, n1, st.N, st.R);
    KeepsUpper(pool0, Emid, E1, n1, pool1, st, gone);
    KeepsLower(pool0, Emid, E1, n1, pool1, st, gone);
  }

  lemma KeepsUpper<M>(pool0: set<nat>, Emid: map<nat, Diss>, E1: map<nat, Diss>, n1: seq<Node<M>>,
                      pool1: set<nat>, st: StepRecord, gone: set<nat>)
    requires PoolUpper(pool0, Emid, n1, pool1, st) && Without(Emid, E1, gone)
    requires forall n :: 0 <= n < |n1| && n1[n].diss != {} && n1[n].diss <= Emid.Keys ==>
      n1[n].diss <= E1.Keys && FirstOf(E1, n1[n].diss) == FirstOf(Emid, n1[n].diss)
    ensures PoolUpper(pool0, E1, n1, pool1, st)
  {
    assert NewFirsts(E1, n1, st.R) == NewFirsts(Emid, n1, st.R) by {
      forall n | n in st.R && n < |n1| && n1[n].diss != {}
        ensures n1[n].diss <= E1.Keys <==> n1[n].diss <= Emid.Keys
      {
      }
    }
  }

  lemma KeepsLower<M>(pool0: set<nat>, Emid: map<nat, Diss>, E1: map<nat, Diss>, n1: seq<Node<M>>,
                      pool1: set<nat>, st: StepRecord, gone: set<nat>)
    requires PoolLower(pool0, Emid, n1, pool1, st) && Without(Emid, E1, gone)
    requires forall n :: 0 <= n < |n1| && n1[n].diss != {} && n1[n].diss <= Emid.Keys ==>
      n1[n].diss <= E1.Keys && FirstOf(E1, n1[n].diss) == FirstOf(Emid, n1[n].diss)
    ensures PoolLower(pool0, E1, n1, pool1, st)
  {
  }

  lemma KeepsChanged<M>(E0: map<nat, Diss>, n0: seq<Node<M>>, Emid: map<nat, Diss>, E1: map<nat, Diss>,
                        n1: seq<Node<M>>, N: set<nat>, R: map<nat, nat>)
    requires ChangedFirsts(E0, n0, Emid, n1, N, R)
    requires forall n :: 0 <= n < |n1| && n1[n].diss != {} && n1[n].diss <= Emid.Keys ==>
      n1[n].diss <= E1.Keys && FirstOf(E1, n1[n].diss) == FirstOf(Emid, n1[n].diss)
    ensures ChangedFirsts(E0, n0, E1, n1, N, R)
  {
  }
}
