/** Reconciling the pool at the end of a merge.
 *
 *  After the relinking phase the engine adds the father's first
 *  dissimilarity to the pool, then walks the recorded neighbours `R`: each
 *  one's old first dissimilarity leaves the pool and its new first one
 *  enters it (with a symmetric measure, only when it is not a father
 *  dissimilarity, since the father's first one is already in). The walk
 *  follows the map's order; the facts below hold after any prefix of the
 *  walk in any order, so the pool bounds of the merge step hold at its
 *  end. */
module Reconcile {
  import opened Dissimilarity
  import opened BPTNode
  import opened PoolInvariant
  import opened MergeStep

  /** The entries of `R` for the neighbours already walked. */
  function Done(R: map<nat, nat>, done: set<nat>): (r: map<nat, nat>)
    ensures r.Keys == R.Keys * done
    ensures forall n :: n in r ==> r[n] == R[n]
  {
    map n | n in R && n in done :: R[n]
  }

  /** The father's first dissimilarity, when it has one. */
  ghost function FatherFirst<M>(E1: map<nat, Diss>, n1: seq<Node<M>>, F: nat): set<nat>
  {
    if F < |n1| && n1[F].diss != {} && n1[F].diss <= E1.Keys then {FirstOf(E1, n1[F].diss)} else {}
  }

  /** The pool bounds after walking the neighbours `done`. */
  ghost predicate Walked<M>(pool0: set<nat>, E1: map<nat, Diss>, n1: seq<Node<M>>, pool: set<nat>,
                            st: StepRecord, done: set<nat>)
  {
    PoolUpper(pool0, E1, n1, pool, st.(R := Done(st.R, done))) &&
    PoolLower(pool0, E1, n1, pool, st.(R := Done(st.R, done)))
  }

  /** Before the walk: the selected dissimilarity left the pool and the
   *  father's first one entered it. */
  lemma WalkStart<M>(pool0: set<nat>, E1: map<nat, Diss>, n1: seq<Node<M>>, st: StepRecord)
    ensures Walked(pool0, E1, n1, pool0 - {st.e} + FatherFirst(E1, n1, st.F), st, {})
  {
    var pool := pool0 - {st.e} + FatherFirst(E1, n1, st.F);
    var st' := st.(R := Done(st.R, {}));
    assert st'.R == map[];
    assert NewFirsts(E1, n1, st'.R) == {};
  }

  /** One neighbour `n` of the walk: its old first dissimilarity leaves the
   *  pool, and its new first one enters it when `ins`, which it must when
   *  that one is not a father dissimilarity. The old first one, an old
   *  dissimilarity, is never the father's first. */
  lemma WalkStep<M>(pool0: set<nat>, E1: map<nat, Diss>, n1: seq<Node<M>>, pool: set<nat>,
                    st: StepRecord, done: set<nat>, n: nat, newDiss: nat, ins: bool)
    requires Walked(pool0, E1, n1, pool, st, done)
    requires n in st.R && n !in done
    requires n < |n1| && n1[n].diss != {} && n1[n].diss <= E1.Keys && newDiss == FirstOf(E1, n1[n].diss)
    requires E1[newDiss].a != st.F ==> ins
    requires st.R[n] !in FatherFirst(E1, n1, st.F)
    ensures Walked(pool0, E1, n1, pool - {st.R[n]} + (if ins then {newDiss} else {}), st, done + {n})
  {
    var pool' := pool - {st.R[n]} + (if ins then {newDiss} else {});
    var before := st.(R := Done(st.R, done));
    var after := st.(R := Done(st.R, done + {n}));
    assert after.R == before.R[n := st.R[n]];
    assert after.R.Values == before.R.Values + {st.R[n]};
    assert NewFirsts(E1, n1, after.R) == NewFirsts(E1, n1, before.R) + {newDiss};
    forall p | p in pool'
      ensures (p in pool0 && p != after.e && p !in after.R.Values) ||
              (after.F < |n1| && n1[after.F].diss != {} && n1[after.F].diss <= E1.Keys &&
               p == FirstOf(E1, n1[after.F].diss)) ||
              p in NewFirsts(E1, n1, after.R)
    {
      if p != newDiss || !ins {
        assert p in pool && p != st.R[n];
      }
    }
    forall k | k in after.R && k < |n1| && n1[k].diss != {} && n1[k].diss <= E1.Keys &&
               FirstOf(E1, n1[k].diss) in E1 && E1[FirstOf(E1, n1[k].diss)].a != after.F &&
               FirstOf(E1, n1[k].diss) !in after.R.Values
      ensures FirstOf(E1, n1[k].diss) in pool'
    {
      if k != n {
        assert k in before.R;
      }
    }
  }

  /** One more element `x` of `todo` walked: the walked part `P` of `D`
   *  grows by `x`. */
  lemma Advance(D: set<nat>, todo: set<nat>, P: set<nat>, x: nat)
    requires todo <= D && P == D - todo && x in todo
    ensures P + {x} == D - (todo - {x})
  {
  }

  /** The pool update of a merge: the father's first dissimilarity enters
   *  the pool, then each recorded neighbour's old first one leaves it and
   *  its new first one enters it (with a symmetric measure, unless it is a
   *  father dissimilarity). `ns` is the store being read, which agrees
   *  with the store after the merge `n1` on the sets read. */
  method UpdatedPool<M>(E: map<nat, Diss>, ns: seq<Node<M>>, ghost pool0: set<nat>, pool: set<nat>,
                        ghost n1: seq<Node<M>>, ghost st: StepRecord, F: nat, R: map<nat, nat>, symmetric: bool)
    returns (pool': set<nat>)
    requires R == st.R && F == st.F && pool == pool0 - {st.e}
    requires F < |ns| && F < |n1| && ns[F].diss == n1[F].diss && ns[F].diss <= E.Keys
    requires forall n :: n in R ==>
      n < |ns| && n < |n1| && ns[n].diss == n1[n].diss && n1[n].diss != {} && n1[n].diss <= E.Keys
    requires forall n :: n in R ==> R[n] !in FatherFirst(E, n1, F)
    ensures PoolUpper(pool0, E, n1, pool', st) && PoolLower(pool0, E, n1, pool', st)
  {
    pool' := pool;
    if ns[F].diss != {} {
      var fathersFirst := First(E, ns[F].diss);
      FirstUnique(E, n1[F].diss, fathersFirst, FirstOf(E, n1[F].diss));
      pool' := pool' + {fathersFirst};
    }
    WalkStart(pool0, E, n1, st);
    var todo := R.Keys;
    while todo != {}
      invariant todo <= R.Keys
      invariant Walked(pool0, E, n1, pool', st, R.Keys - todo)
      decreases todo
    {
      var n :| n in todo;
      var newDiss := First(E, ns[n].diss);
      FirstUnique(E, n1[n].diss, newDiss, FirstOf(E, n1[n].diss));
      var ins := !symmetric || E[newDiss].a != F;
      WalkStep(pool0, E, n1, pool', st, R.Keys - todo, n, newDiss, ins);
      pool' := pool' - {R[n]};
      if ins {
        pool' := pool' + {newDiss};
      }
      Advance(R.Keys, todo, R.Keys - todo, n);
      todo := todo - {n};
    }
    WalkEnd(pool0, E, n1, pool', st, todo);
  }

  /** Once every recorded neighbour is walked the pool bounds of the merge
   *  step hold. */
  lemma WalkEnd<M>(pool0: set<nat>, E1: map<nat, Diss>, n1: seq<Node<M>>, pool: set<nat>, st: StepRecord,
                   todo: set<nat>)
    requires Walked(pool0, E1, n1, pool, st, st.R.Keys - todo) && todo == {}
    ensures PoolUpper(pool0, E1, n1, pool, st) && PoolLower(pool0, E1, n1, pool, st)
  {
    assert st.R.Keys - todo == st.R.Keys;
    assert st.(R := Done(st.R, st.R.Keys)) == st;
  }
}
