/** BPTReconstructor: rebuilds a Binary Partition Tree from a saved merging
 *  sequence instead of recomputing dissimilarities.
 *
 *  The id table (`nodeId` in the source) maps a node id to the node stored
 *  under it; a pointer is a node id of the store, so a slot holds `Some(n)`
 *  for node `n` or `None` for a null pointer. The merging sequence is the
 *  sequence of ids read from the stream, two per merge. */
module BPTReconstructor {
  import opened Wrappers
  import opened Dissimilarity
  import opened BPTNode
  import opened SavingPolicy

  /** What stops a reconstruction: `LengthError` is the resize to 2·0 − 1
   *  slots, `OutOfRange` an `at()` past the table, `AssertFailed` the
   *  failed leaf-position assertion, `Eof` a read past the stream, `Missing`
   *  an empty slot and `AlreadyMerged` a node that has a father. */
  datatype ReconError = LengthError | OutOfRange | AssertFailed | Eof | Missing | AlreadyMerged

  /** Every occupied slot holds the node of its own id. */
  predicate IdTable(table: seq<Option<nat>>)
  {
    forall i :: 0 <= i < |table| && table[i].Some? ==> table[i].value == i
  }

  /** The table the set constructor builds: 2L − 1 slots, each leaf at the
   *  slot of its id. */
  function SetTable(leaves: set<nat>): (r: Result<seq<Option<nat>>, ReconError>)
    ensures r.Ok? ==> |r.value| == 2 * |leaves| - 1 && IdTable(r.value)
    ensures r.Ok? ==> forall i :: 0 <= i < |r.value| ==> (r.value[i].Some? <==> i in leaves)
  {
    if |leaves| == 0 then Err(LengthError)
    else if exists l :: l in leaves && l >= 2 * |leaves| - 1 then Err(OutOfRange)
    else Ok(seq(2 * |leaves| - 1, i requires 0 <= i => if i in leaves then Some(i) else None))
  }

  /** The set constructor's table loop: every leaf is written at the slot
   *  of its id, which `at` checks against the 2L − 1 slots. */
  method BuildSetTable(leaves: set<nat>) returns (r: Result<seq<Option<nat>>, ReconError>)
    ensures r == SetTable(leaves)
  {
    if |leaves| == 0 {
      return Err(LengthError);
    }
    var table: seq<Option<nat>> := seq(2 * |leaves| - 1, i => None);
    var todo := leaves;
    while todo != {}
      invariant todo <= leaves && |table| == 2 * |leaves| - 1
      invariant forall l :: l in leaves - todo ==> l < |table|
      invariant forall i :: 0 <= i < |table| ==> table[i] == if i in leaves - todo then Some(i) else None
      decreases todo
    {
      var l :| l in todo;
      if l >= |table| {
        SetTableOutOfRange(leaves, l);
        return Err(OutOfRange);
      }
      ghost var done := leaves - todo;
      table := table[l := Some(l)];
      todo := todo - {l};
      assert leaves - todo == done + {l};
    }
    assert leaves - todo == leaves;
    SetTableFilled(leaves, table);
    r := Ok(table);
  }

  /** A leaf past the 2L − 1 slots makes the set constructor fail. */
  lemma SetTableOutOfRange(leaves: set<nat>, l: nat)
    requires l in leaves && l >= 2 * |leaves| - 1
    ensures SetTable(leaves) == Err(OutOfRange)
  {
  }

  /** A table of 2L − 1 slots holding exactly the leaves, each at its own
   *  id, is the one the set constructor builds. */
  lemma SetTableFilled(leaves: set<nat>, table: seq<Option<nat>>)
    requires |leaves| > 0 && |table| == 2 * |leaves| - 1
    requires forall l :: l in leaves ==> l < |table|
    requires forall i :: 0 <= i < |table| ==> table[i] == if i in leaves then Some(i) else None
    ensures SetTable(leaves) == Ok(table)
  {
    var want := seq(2 * |leaves| - 1, i requires 0 <= i => if i in leaves then Some(i) else None);
    assert table == want;
  }

  /** Leaves whose ids are below their count, as the generators number
   *  them from 0, are accepted by the set constructor whenever there is at
   *  least one, and each gets the slot of its id. */
  lemma GeneratedLeavesFit(leaves: set<nat>)
    requires |leaves| > 0 && forall l :: l in leaves ==> l < |leaves|
    ensures SetTable(leaves).Ok? && |SetTable(leaves).value| == 2 * |leaves| - 1
    ensures forall l :: l in leaves ==> SetTable(leaves).value[l] == Some(l)
  {
  }

  /** The check the iterator constructor makes on the k-th leaf, once it
   *  is pushed at slot k: `at(id)` must lie within the k + 1 slots, and the
   *  slot of its id must hold it. */
  function LeafError(leaves: seq<nat>, k: nat): Option<ReconError>
    requires k < |leaves|
  {
    if leaves[k] > k then Some(OutOfRange)
    else if leaves[leaves[k]] != leaves[k] then Some(AssertFailed)
    else None
  }

  /** The first failing check among the first n leaves. */
  function FirstLeafError(leaves: seq<nat>, n: nat): (r: Option<ReconError>)
    requires n <= |leaves|
    ensures r.None? <==> forall k :: 0 <= k < n ==> LeafError(leaves, k).None?
  {
    if n == 0 then None
    else if FirstLeafError(leaves, n - 1).Some? then FirstLeafError(leaves, n - 1)
    else LeafError(leaves, n - 1)
  }

  /** Once a check fails, later leaves do not change the first failure. */
  lemma {:induction false} FirstLeafErrorStays(leaves: seq<nat>, m: nat, n: nat)
    requires m <= n <= |leaves| && FirstLeafError(leaves, m).Some?
    ensures FirstLeafError(leaves, n) == FirstLeafError(leaves, m)
    decreases n
  {
    if n > m {
      FirstLeafErrorStays(leaves, m, n - 1);
    }
  }

  /** The outcome of the iterator constructor: the leaf checks in order,
   *  then the resize to 2L − 1 slots. */
  function SequenceTable(leaves: seq<nat>): Result<seq<Option<nat>>, ReconError>
  {
    var e := FirstLeafError(leaves, |leaves|);
    if e.Some? then Err(e.value)
    else if |leaves| == 0 then Err(LengthError)
    else Ok(seq(|leaves|, i requires 0 <= i < |leaves| => Some(leaves[i])) + seq(|leaves| - 1, i => None))
  }

  /** For distinct leaves the iterator constructor accepts exactly the
   *  inputs in which every leaf's id is its position, and the table it
   *  builds then holds every node at the slot of its id. */
  lemma SequenceAcceptsPositions(leaves: seq<nat>)
    requires forall i, j :: 0 <= i < j < |leaves| ==> leaves[i] != leaves[j]
    ensures SequenceTable(leaves).Ok? <==> |leaves| > 0 && forall k :: 0 <= k < |leaves| ==> leaves[k] == k
    ensures SequenceTable(leaves).Ok? ==> IdTable(SequenceTable(leaves).value)
  {
    if |leaves| > 0 && forall k :: 0 <= k < |leaves| ==> LeafError(leaves, k).None? {
      forall k | 0 <= k < |leaves|
        ensures leaves[k] == k
      {
        assert LeafError(leaves, k).None?;
      }
    }
    if |leaves| > 0 && forall k :: 0 <= k < |leaves| ==> leaves[k] == k {
      forall k | 0 <= k < |leaves|
        ensures LeafError(leaves, k).None?
      {
      }
    }
  }

  /** The ids of the merging sequence, two by two. */
  function ReadPairs(ids: seq<nat>): (r: seq<(nat, nat)>)
    ensures |r| == |ids| / 2
  {
    seq(|ids| / 2, k requires 0 <= k < |ids| / 2 => (ids[2 * k], ids[2 * k + 1]))
  }

  /** Reading two more ids reads one more pair. */
  lemma ReadPairsNext(ids: seq<nat>, pos: nat)
    requires pos % 2 == 0 && pos + 2 <= |ids|
    ensures ReadPairs(ids[..pos + 2]) == ReadPairs(ids[..pos]) + [(ids[pos], ids[pos + 1])]
  {
    var r, r' := ReadPairs(ids[..pos]), ReadPairs(ids[..pos + 2]);
    assert |r'| == |r| + 1;
    forall k | 0 <= k < |r'|
      ensures r'[k] == (r + [(ids[pos], ids[pos + 1])])[k]
    {
    }
  }

  /** Two more ids after an even number of ids read one more pair. */
  lemma ReadPairsAppend(ids: seq<nat>, x: nat, y: nat)
    requires |ids| % 2 == 0
    ensures ReadPairs(ids + [x, y]) == ReadPairs(ids) + [(x, y)]
  {
    var r, r' := ReadPairs(ids), ReadPairs(ids + [x, y]);
    assert |r'| == |r| + 1;
    forall k | 0 <= k < |r'|
      ensures r'[k] == (r + [(x, y)])[k]
    {
    }
  }

  /** The file SaveMergingSequence writes reads back as the merged pairs,
   *  in merge order, as long as every id fits the 32-bit id type. */
  lemma {:induction false} DecodeSavedPairs(ds: seq<Diss>)
    requires forall k :: 0 <= k < |ds| ==> ds[k].a < ID_RANGE && ds[k].b < ID_RANGE
    ensures ReadPairs(PairIds(ds)) == MergedPairs(ds)
    decreases |ds|
  {
    if |ds| > 0 {
      var init, d := ds[..|ds| - 1], ds[|ds| - 1];
      DecodeSavedPairs(init);
      ReadPairsAppend(PairIds(init), d.a, d.b);
      assert MergedPairs(ds) == MergedPairs(init) + [(d.a, d.b)];
    }
  }

  /** Replaying the saved file gives the tree the construction built: the
   *  same fathers, with the same children and the same region models. */
  lemma ReplayReproducesMerges<M>(S0: seq<Node<M>>, ds: seq<Diss>, merge: (M, M) -> M)
    requires forall k :: 0 <= k < |ds| ==> ds[k].a < ID_RANGE && ds[k].b < ID_RANGE
    requires PairsFit(|S0|, MergedPairs(ds))
    ensures PairsFit(|S0|, ReadPairs(PairIds(ds)))
    ensures Replay(S0, ReadPairs(PairIds(ds)), merge) == Replay(S0, MergedPairs(ds), merge)
  {
    DecodeSavedPairs(ds);
  }

  /** Merges of two distinct alive nodes, starting from alive nodes older
   *  than the first father, leave one node fewer alive per merge. */
  lemma {:induction false} AliveShrinks(alive: set<nat>, pairs: seq<(nat, nat)>, n: nat)
    requires forall x :: x in alive ==> x < n
    requires MergesAlive(alive, pairs, n)
    ensures |AliveAfter(alive, pairs, n)| + |pairs| == |alive|
    ensures forall x :: x in AliveAfter(alive, pairs, n) ==> x < n + |pairs|
    decreases |pairs|
  {
    if |pairs| > 0 {
      var init := pairs[..|pairs| - 1];
      var (a, b) := pairs[|pairs| - 1];
      AliveShrinks(alive, init, n);
      var prev := AliveAfter(alive, init, n);
      assert pairs[..|pairs| - 1] == init;
      assert a in prev && b in prev && a != b;
      assert n + |pairs| - 1 !in prev;
      assert |prev - {a, b}| == |prev| - 2 by {
        assert prev - {a, b} == prev - {a} - {b};
      }
    }
  }

  /** Storing a father at the slot of its id keeps every slot holding the
   *  node of its own id. */
  lemma IdTableStore(table: seq<Option<nat>>, F: nat)
    requires IdTable(table) && F < |table|
    ensures IdTable(table[F := Some(F)])
  {
  }

  /** The checks one merge passes: both ids name occupied slots holding
   *  nodes without a father, and the new father's id has a slot. */
  ghost predicate MergeReadable<M>(table: seq<Option<nat>>, nodes: seq<Node<M>>, ida: nat, idb: nat)
  {
    ida < |table| && idb < |table| && table[ida].Some? && table[idb].Some? &&
    table[ida].value < |nodes| && table[idb].value < |nodes| &&
    nodes[table[ida].value].father.None? && nodes[table[idb].value].father.None? &&
    |nodes| < |table|
  }

  /** Every alive node sits at the slot of its own id and has no father. */
  ghost predicate AliveFree<M>(table: seq<Option<nat>>, nodes: seq<Node<M>>, alive: set<nat>)
  {
    forall x :: x in alive ==> x < |table| && table[x] == Some(x) && x < |nodes| && nodes[x].father.None?
  }

  /** How many merges bring the alive nodes down to `numTrees`. */
  function MergesNeeded(alive: set<nat>, numTrees: nat): (m: nat)
    ensures |alive| <= numTrees ==> m == 0
    ensures |alive| > numTrees ==> m + numTrees == |alive|
  {
    if |alive| > numTrees then |alive| - numTrees else 0
  }

  /** A start from which every merge the loop reads passes its checks: the
   *  alive nodes are free and at their own slots, the table has a slot for
   *  every father to come, the stream holds enough ids, and the pairs read
   *  merge two distinct alive nodes each. */
  ghost predicate Replayable<M>(table: seq<Option<nat>>, nodes: seq<Node<M>>, alive: set<nat>, ids: seq<nat>, numTrees: nat)
  {
    var m := MergesNeeded(alive, numTrees);
    IdTable(table) && AliveFree(table, nodes, alive) &&
    |nodes| + m <= |table| && 2 * m <= |ids| &&
    MergesAlive(alive, ReadPairs(ids[..2 * m]), |nodes|)
  }

  /** The pairs read from a longer even prefix start with the pairs read
   *  from a shorter one, followed by the pair of the next two ids. */
  lemma ReadPairsPrefix(ids: seq<nat>, j: nat, m: nat)
    requires j < m && 2 * m <= |ids|
    ensures ReadPairs(ids[..2 * m])[..j] == ReadPairs(ids[..2 * j])
    ensures ReadPairs(ids[..2 * m])[j].0 == ids[2 * j] && ReadPairs(ids[..2 * m])[j].1 == ids[2 * j + 1]
  {
  }

  /** A free alive node. */
  lemma AliveFreeAt<M>(table: seq<Option<nat>>, nodes: seq<Node<M>>, alive: set<nat>, x: nat)
    requires AliveFree(table, nodes, alive) && x in alive
    ensures x < |table| && table[x] == Some(x) && x < |nodes| && nodes[x].father.None?
  {
  }

  /** When the first m pairs of the stream merge alive nodes, the pair
   *  after the first k < m of them names two distinct nodes alive after
   *  those k merges. */
  lemma ReplayNext(al0: set<nat>, ids: seq<nat>, n: nat, m: nat, alive: set<nat>, pairs: seq<(nat, nat)>)
    requires 2 * m <= |ids| && MergesAlive(al0, ReadPairs(ids[..2 * m]), n)
    requires |pairs| < m && pairs == ReadPairs(ids[..2 * |pairs|]) && alive == AliveAfter(al0, pairs, n)
    ensures 2 * |pairs| + 2 <= |ids|
    ensures ids[2 * |pairs|] != ids[2 * |pairs| + 1]
    ensures ids[2 * |pairs|] in alive && ids[2 * |pairs| + 1] in alive
  {
    var k := |pairs|;
    var P := ReadPairs(ids[..2 * m]);
    ReadPairsPrefix(ids, k, m);
    MergesAliveAt(al0, P, n, k);
    assert P[..k] == pairs;
  }

  /** A merge of two distinct free alive nodes, its father stored at the
   *  slot of its id, leaves the alive nodes free and one fewer. */
  lemma AliveFreeStep<M>(table: seq<Option<nat>>, nodes: seq<Node<M>>, alive: set<nat>, a: nat, b: nat, m: M)
    requires AliveFree(table, nodes, alive) && a != b && a in alive && b in alive && |nodes| < |table|
    ensures AliveFree(table[|nodes| := Some(|nodes|)], Join(nodes, a, b, m), alive - {a, b} + {|nodes|})
    ensures |alive - {a, b} + {|nodes|}| == |alive| - 1
  {
    assert |nodes| !in alive;
    var joined := Join(nodes, a, b, m);
    forall x | x in alive - {a, b} + {|nodes|}
      ensures x < |table| && table[|nodes| := Some(|nodes|)][x] == Some(x) && x < |joined| && joined[x].father.None?
    {
      if x != |nodes| {
        assert x in alive && x != a && x != b;
        assert joined[x] == nodes[x];
      }
    }
    assert |alive - {a, b}| == |alive| - 2 by {
      assert alive - {a, b} == alive - {a} - {b};
    }
  }

  /** What getBinaryPartitionForest's loop keeps after `pairs` merges read
   *  from the first `used` ids, starting from the store `n0`, the table
   *  `t0` and the alive set `al0`. */
  ghost predicate ReplayInv<M>(n0: seq<Node<M>>, t0: seq<Option<nat>>, al0: set<nat>, ids: seq<nat>, numTrees: nat,
                               merge: (M, M) -> M, nodes: seq<Node<M>>, table: seq<Option<nat>>, alive: set<nat>,
                               used: nat, pairs: seq<(nat, nat)>)
  {
    used <= |ids| && used == 2 * |pairs| && |nodes| == |n0| + |pairs| && |table| == |t0| &&
    PairsFit(|n0|, pairs) && nodes == Replay(n0, pairs, merge) &&
    alive == AliveAfter(al0, pairs, |n0|) &&
    (IdTable(t0) ==> IdTable(table) && pairs == ReadPairs(ids[..used])) &&
    (Replayable(t0, n0, al0, ids, numTrees) ==> AliveFree(table, nodes, alive) && |alive| + |pairs| == |al0|)
  }

  /** The loop starts with its invariant. */
  lemma ReplayInvStart<M>(n0: seq<Node<M>>, t0: seq<Option<nat>>, al0: set<nat>, ids: seq<nat>, numTrees: nat, merge: (M, M) -> M)
    ensures ReplayInv(n0, t0, al0, ids, numTrees, merge, n0, t0, al0, 0, [])
  {
    assert ids[..0] == [];
  }

  /** On a replayable start, the loop finds the next two ids in the stream
   *  and they pass the checks of one merge. */
  lemma ReplayInvNext<M>(n0: seq<Node<M>>, t0: seq<Option<nat>>, al0: set<nat>, ids: seq<nat>, numTrees: nat,
                         merge: (M, M) -> M, nodes: seq<Node<M>>, table: seq<Option<nat>>, alive: set<nat>,
                         used: nat, pairs: seq<(nat, nat)>)
    requires ReplayInv(n0, t0, al0, ids, numTrees, merge, nodes, table, alive, used, pairs)
    requires Replayable(t0, n0, al0, ids, numTrees) && |alive| > numTrees
    ensures used + 2 <= |ids| && MergeReadable(table, nodes, ids[used], ids[used + 1])
    ensures table[ids[used]] == Some(ids[used]) && table[ids[used + 1]] == Some(ids[used + 1])
    ensures ids[used] != ids[used + 1] && ids[used] in alive && ids[used + 1] in alive
  {
    ReplayNext(al0, ids, |n0|, MergesNeeded(al0, numTrees), alive, pairs);
    AliveFreeAt(table, nodes, alive, ids[used]);
    AliveFreeAt(table, nodes, alive, ids[used + 1]);
  }

  /** One merge that passed its checks carries the loop's invariant on. */
  lemma ReplayInvStep<M>(n0: seq<Node<M>>, t0: seq<Option<nat>>, al0: set<nat>, ids: seq<nat>, numTrees: nat,
                         merge: (M, M) -> M, nodes: seq<Node<M>>, table: seq<Option<nat>>, alive: set<nat>,
                         used: nat, pairs: seq<(nat, nat)>, a: nat, b: nat)
    requires ReplayInv(n0, t0, al0, ids, numTrees, merge, nodes, table, alive, used, pairs)
    requires |alive| > numTrees && used + 2 <= |ids|
    requires a < |nodes| && b < |nodes| && ids[used] < |table| && ids[used + 1] < |table|
    requires table[ids[used]] == Some(a) && table[ids[used + 1]] == Some(b) && |nodes| < |table|
    requires Replayable(t0, n0, al0, ids, numTrees) ==> MergeReadable(table, nodes, ids[used], ids[used + 1])
    ensures ReplayInv(n0, t0, al0, ids, numTrees, merge,
                      Join(nodes, a, b, merge(nodes[a].model, nodes[b].model)), table[|nodes| := Some(|nodes|)],
                      alive - {a, b} + {|nodes|}, used + 2, pairs + [(a, b)])
  {
    ReplayAppend(n0, pairs, a, b, merge);
    assert (pairs + [(a, b)])[..|pairs|] == pairs;
    if Replayable(t0, n0, al0, ids, numTrees) {
      ReplayInvNext(n0, t0, al0, ids, numTrees, merge, nodes, table, alive, used, pairs);
      AliveFreeStep(table, nodes, alive, a, b, merge(nodes[a].model, nodes[b].model));
    }
    if IdTable(t0) {
      ReadPairsNext(ids, used);
      IdTableStore(table, |nodes|);
    }
  }

  /** After at least one merge the last father is alive. */
  lemma LastFatherAlive(alive: set<nat>, pairs: seq<(nat, nat)>, n: nat)
    requires |pairs| > 0
    ensures n + |pairs| - 1 in AliveAfter(alive, pairs, n)
  {
  }

  /** A saved construction replays without error: leaves numbered from 0,
   *  without fathers and alone in the store, merged by the construction
   *  loop down to `numTrees` alive nodes, give the set constructor's table
   *  and the saved ids a start on which every merge the replay reads passes
   *  its checks. */
  lemma SavedRunReplays<M>(S0: seq<Node<M>>, leaves: set<nat>, ds: seq<Diss>, numTrees: nat)
    requires |leaves| > 0 && |S0| == |leaves|
    requires forall l :: l in leaves ==> l < |leaves| && S0[l].father.None?
    requires forall k :: 0 <= k < |ds| ==> ds[k].a < ID_RANGE && ds[k].b < ID_RANGE
    requires MergesAlive(leaves, MergedPairs(ds), |S0|)
    requires |leaves| - numTrees <= |ds| && (|ds| == 0 || |leaves| - |ds| >= numTrees)
    ensures SetTable(leaves).Ok?
    ensures Replayable(SetTable(leaves).value, S0, leaves, PairIds(ds), numTrees)
  {
    GeneratedLeavesFit(leaves);
    var table := SetTable(leaves).value;
    var ids := PairIds(ds);
    var m := |ds|;
    AliveShrinks(leaves, MergedPairs(ds), |S0|);
    assert m == MergesNeeded(leaves, numTrees);
    if m > 0 {
      LastFatherAlive(leaves, MergedPairs(ds), |S0|);
    }
    assert |S0| + m <= |table|;
    assert ids[..2 * m] == ids;
    DecodeSavedPairs(ds);
    forall x | x in leaves
      ensures x < |table| && table[x] == Some(x) && x < |S0| && S0[x].father.None?
    {
    }
  }

  class Reconstructor<M> {
    const store: NodeStore<M>
    const merge: (M, M) -> M
    var table: seq<Option<nat>>
    var alive: set<nat>

    /** Every slot and every alive node names a node of the store. */
    ghost predicate Valid()
      reads this, store
    {
      (forall i :: 0 <= i < |table| && table[i].Some? ==> table[i].value < |store.nodes|) &&
      (forall x :: x in alive ==> x < |store.nodes|)
    }

    constructor Init(store: NodeStore<M>, merge: (M, M) -> M, table: seq<Option<nat>>, alive: set<nat>)
      ensures this.store == store && this.merge == merge && this.table == table && this.alive == alive
    {
      this.store, this.merge, this.table, this.alive := store, merge, table, alive;
    }

    /** The set constructor: the table gets 2L − 1 slots, and each leaf
     *  becomes alive and is stored at the slot of its id. */
    static method FromSet(store: NodeStore<M>, merge: (M, M) -> M, leaves: set<nat>)
      returns (r: Result<Reconstructor<M>, ReconError>)
      requires forall l :: l in leaves ==> l < |store.nodes|
      ensures r.Err? <==> SetTable(leaves).Err?
      ensures r.Err? ==> r.error == SetTable(leaves).error
      ensures r.Ok? ==>
        fresh(r.value) && r.value.store == store && r.value.merge == merge &&
        r.value.table == SetTable(leaves).value && r.value.alive == leaves && r.value.Valid()
    {
      var table := BuildSetTable(leaves);
      if table.Err? {
        return Err(table.error);
      }
      var t := new Reconstructor.Init(store, merge, table.value, leaves);
      r := Ok(t);
    }

    /** The iterator constructor: each leaf is made alive and pushed at the
     *  next slot, asserting that the slot of its id holds it; the table then
     *  grows to 2L − 1 slots. */
    static method FromSequence(store: NodeStore<M>, merge: (M, M) -> M, leaves: seq<nat>)
      returns (r: Result<Reconstructor<M>, ReconError>)
      requires forall k :: 0 <= k < |leaves| ==> leaves[k] < |store.nodes|
      ensures r.Err? <==> SequenceTable(leaves).Err?
      ensures r.Err? ==> r.error == SequenceTable(leaves).error
      ensures r.Ok? ==>
        fresh(r.value) && r.value.store == store && r.value.merge == merge &&
        r.value.table == SequenceTable(leaves).value &&
        r.value.alive == (set k | 0 <= k < |leaves| :: leaves[k]) && r.value.Valid()
    {
      var table: seq<Option<nat>> := [];
      var alive: set<nat> := {};
      var k := 0;
      while k < |leaves|
        invariant k <= |leaves| && FirstLeafError(leaves, k).None?
        invariant table == seq(k, i requires 0 <= i < k => Some(leaves[i]))
        invariant alive == set i | 0 <= i < k :: leaves[i]
      {
        alive := alive + {leaves[k]};
        table := table + [Some(leaves[k])];
        if leaves[k] >= |table| {
          FirstLeafErrorStays(leaves, k + 1, |leaves|);
          return Err(OutOfRange);
        }
        if table[leaves[k]] != Some(leaves[k]) {
          FirstLeafErrorStays(leaves, k + 1, |leaves|);
          return Err(AssertFailed);
        }
        k := k + 1;
      }
      if |table| == 0 {
        return Err(LengthError);
      }
      table := table + seq(|table| - 1, i => None);
      var t := new Reconstructor.Init(store, merge, table, alive);
      r := Ok(t);
    }

    /** One merge read from the stream at `pos`: the two ids are read, their
     *  nodes looked up, and the father created, linked, stored at the slot
     *  of its id and made alive. */
    method ReadMerge(ids: seq<nat>, pos: nat) returns (err: Option<ReconError>, a: nat, b: nat)
      requires Valid() && pos + 2 <= |ids|
      modifies this, store
      ensures err.None? ==>
        Valid() && a < |old(store.nodes)| && b < |old(store.nodes)| &&
        ids[pos] < |old(table)| && ids[pos + 1] < |old(table)| &&
        old(table)[ids[pos]] == Some(a) && old(table)[ids[pos + 1]] == Some(b) &&
        store.nodes == Join(old(store.nodes), a, b, merge(old(store.nodes)[a].model, old(store.nodes)[b].model)) &&
        |old(store.nodes)| < |old(table)| && table == old(table)[|old(store.nodes)| := Some(|old(store.nodes)|)] &&
        alive == old(alive) - {a, b} + {|old(store.nodes)|}
      ensures err == Some(OutOfRange) ==>
        ids[pos] >= |old(table)| || ids[pos + 1] >= |old(table)| || |old(store.nodes)| >= |old(table)|
      ensures err == Some(Missing) ==>
        ids[pos] < |old(table)| && ids[pos + 1] < |old(table)| &&
        (old(table)[ids[pos]].None? || old(table)[ids[pos + 1]].None?)
      ensures err != Some(Eof) && err != Some(LengthError) && err != Some(AssertFailed)
      ensures err.None? <==> MergeReadable(old(table), old(store.nodes), ids[pos], ids[pos + 1])
    {
      a, b := 0, 0;
      var ida, idb := ids[pos], ids[pos + 1];
      if ida >= |table| || idb >= |table| {
        return Some(OutOfRange), a, b;
      }
      var na, nb := table[ida], table[idb];
      if na.None? || nb.None? {
        return Some(Missing), a, b;
      }
      a, b := na.value, nb.value;
      if store.nodes[a].father.Some? || store.nodes[b].father.Some? {
        return Some(AlreadyMerged), a, b;
      }
      alive := alive - {a} - {b};
      var F := store.CreateFather(merge(store.nodes[a].model, store.nodes[b].model), a, b);
      store.SetFather(a, Some(F));
      store.SetFather(b, Some(F));
      if F >= |table| {
        return Some(OutOfRange), a, b;
      }
      table := table[F := Some(F)];
      alive := alive + {F};
      err := None;
    }

    /** One turn of getBinaryPartitionForest's loop: a merge read at `used`,
     *  or `Eof` when fewer than two ids are left. A merge that passes its
     *  checks keeps the loop's invariant, and on a replayable start every
     *  merge does. */
    method Turn(ids: seq<nat>, numTrees: nat, used: nat, ghost n0: seq<Node<M>>, ghost t0: seq<Option<nat>>,
                ghost al0: set<nat>, ghost pairs: seq<(nat, nat)>)
      returns (err: Option<ReconError>, a: nat, b: nat)
      requires Valid() && ReplayInv(n0, t0, al0, ids, numTrees, merge, store.nodes, table, alive, used, pairs)
      requires |alive| > numTrees
      modifies this, store
      ensures err == Some(Eof) <==> used + 2 > |ids|
      ensures used + 2 <= |ids| ==> (err.None? <==> MergeReadable(old(table), old(store.nodes), ids[used], ids[used + 1]))
      ensures Replayable(t0, n0, al0, ids, numTrees) ==> err.None?
      ensures err.None? ==>
        Valid() && ReplayInv(n0, t0, al0, ids, numTrees, merge, store.nodes, table, alive, used + 2, pairs + [(a, b)])
    {
      if Replayable(t0, n0, al0, ids, numTrees) {
        ReplayInvNext(n0, t0, al0, ids, numTrees, merge, store.nodes, table, alive, used, pairs);
      }
      if used + 2 > |ids| {
        return Some(Eof), 0, 0;
      }
      ghost var nodes, prev, before := store.nodes, table, alive;
      err, a, b := ReadMerge(ids, used);
      if err.None? {
        ReplayInvStep(n0, t0, al0, ids, numTrees, merge, nodes, prev, before, used, pairs, a, b);
      }
    }

    /** getBinaryPartitionForest: merges read from the stream while more
     *  than `numTrees` nodes are alive. The tree built is the replay of the
     *  pairs of nodes the ids name; when every occupied slot holds the node
     *  of its own id, those are the pairs of ids read, two per merge. */
    method GetBinaryPartitionForest(ids: seq<nat>, numTrees: nat)
      returns (err: Option<ReconError>, used: nat, ghost pairs: seq<(nat, nat)>)
      requires Valid()
      modifies this, store
      ensures used <= |ids| && used == 2 * |pairs|
      ensures err.None? ==> |alive| <= numTrees
      ensures err == Some(Eof) ==> |ids| - used < 2
      ensures err.None? ==>
        Valid() && PairsFit(|old(store.nodes)|, pairs) &&
        store.nodes == Replay(old(store.nodes), pairs, merge) &&
        alive == AliveAfter(old(alive), pairs, |old(store.nodes)|)
      ensures err.None? && IdTable(old(table)) ==> IdTable(table) && pairs == ReadPairs(ids[..used])
      ensures Replayable(old(table), old(store.nodes), old(alive), ids, numTrees) ==> err.None?
    {
      ghost var n0, t0, al0 := store.nodes, table, alive;
      used, pairs, err := 0, [], None;
      ReplayInvStart(n0, t0, al0, ids, numTrees, merge);
      while |alive| > numTrees
        invariant Valid() && ReplayInv(n0, t0, al0, ids, numTrees, merge, store.nodes, table, alive, used, pairs)
        decreases |ids| - used
      {
        var stepErr, a, b := Turn(ids, numTrees, used, n0, t0, al0, pairs);
        if stepErr.Some? {
          return stepErr, used, pairs;
        }
        pairs := pairs + [(a, b)];
        used := used + 2;
      }
    }
  }
}
