/** The saving hooks of the construction and the policies behind them.
 *
 *  The constructor calls five hooks: prepare and start before its loop,
 *  one "selected dissimilarity" and one "father node" call per merge, and
 *  end after the loop. The calls are recorded as `Event`s. A policy turns
 *  each event into file actions: BPTDataSavingPolicy does nothing,
 *  SaveMergingSequence truncates its file on start, writes the ids of both
 *  endpoints of each selected dissimilarity and closes on end, and
 *  AddSavingPolicy runs one policy and then another. The stream is a value
 *  (`File`), so opening, writing and closing are modelled but the disk is
 *  not. */
module SavingPolicy {
  import opened Dissimilarity

  datatype Event =
    | Prepare(nodes: set<nat>, pool: set<nat>)
    | Start
    | Selected(d: Diss)
    | FatherNode(id: nat)
    | End

  datatype Action = Truncate | WriteId(id: nat) | Close

  datatype Policy =
    | NoSaving
    | SaveMergingSequence
    | AddSaving(first: Policy, second: Policy)

  /** Ids are written as `uint32_t`: a node id is reduced modulo 2^32. */
  const ID_RANGE: nat := 0x1_0000_0000

  /** The actions one hook call causes. */
  function Effect(p: Policy, ev: Event): (r: seq<Action>)
    ensures p.NoSaving? ==> r == []
    ensures p.SaveMergingSequence? && ev.Selected? ==>
      r == [WriteId(ev.d.a % ID_RANGE), WriteId(ev.d.b % ID_RANGE)]
  {
    match p
    case NoSaving => []
    case SaveMergingSequence =>
      (match ev
       case Start => [Truncate]
       case Selected(d) => [WriteId(d.a % ID_RANGE), WriteId(d.b % ID_RANGE)]
       case End => [Close]
       case _ => [])
    case AddSaving(a, b) => Effect(a, ev) + Effect(b, ev)
  }

  /** The actions `f` gives each element of `xs`, in order. */
  function FlatMap<T, U>(f: T -> seq<U>, xs: seq<T>): (r: seq<U>)
    ensures |xs| == 0 ==> r == []
  {
    if |xs| == 0 then [] else FlatMap(f, xs[..|xs| - 1]) + f(xs[|xs| - 1])
  }

  lemma {:induction false} FlatMapAppend<T, U>(f: T -> seq<U>, xs: seq<T>, ys: seq<T>)
    ensures FlatMap(f, xs + ys) == FlatMap(f, xs) + FlatMap(f, ys)
    decreases |ys|
  {
    if |ys| > 0 {
      var init, last := ys[..|ys| - 1], ys[|ys| - 1];
      var all := xs + ys;
      assert all[..|all| - 1] == xs + init;
      assert all[|all| - 1] == last;
      FlatMapAppend(f, xs, init);
    } else {
      assert xs + ys == xs;
    }
  }

  /** The hooks of a policy. */
  function Hooks(p: Policy): Event -> seq<Action>
  {
    ev => Effect(p, ev)
  }

  /** The actions of a whole sequence of hook calls. */
  function Run(p: Policy, evs: seq<Event>): seq<Action>
  {
    FlatMap(Hooks(p), evs)
  }

  lemma RunAppend(p: Policy, evs: seq<Event>, more: seq<Event>)
    ensures Run(p, evs + more) == Run(p, evs) + Run(p, more)
  {
    FlatMapAppend(Hooks(p), evs, more);
  }

  /** The last hook call of a trace comes last. */
  lemma RunLast(p: Policy, evs: seq<Event>)
    requires |evs| > 0
    ensures Run(p, evs) == Run(p, evs[..|evs| - 1]) + Effect(p, evs[|evs| - 1])
  {
  }

  /** `BPT_SAVING_POLICY_n(P1, ..., Pn)`: `AddSavingPolicy<Pn, BPT_SAVING_POLICY_n-1(P1, ..., Pn-1)>`. */
  function Compose(ps: seq<Policy>): Policy
    requires |ps| > 0
  {
    if |ps| == 1 then ps[0] else AddSaving(ps[|ps| - 1], Compose(ps[..|ps| - 1]))
  }

  /** The effects of a list of policies, last policy first. */
  function EffectsLastFirst(ps: seq<Policy>, ev: Event): seq<Action>
  {
    if |ps| == 0 then [] else Effect(ps[|ps| - 1], ev) + EffectsLastFirst(ps[..|ps| - 1], ev)
  }

  /** A composed policy runs Pn's hook first and P1's last. */
  lemma {:induction false} ComposeRunsLastFirst(ps: seq<Policy>, ev: Event)
    requires |ps| > 0
    ensures Effect(Compose(ps), ev) == EffectsLastFirst(ps, ev)
    decreases |ps|
  {
    if |ps| == 1 {
      assert EffectsLastFirst(ps[..0], ev) == [];
    } else {
      ComposeRunsLastFirst(ps[..|ps| - 1], ev);
    }
  }

  /** Adding a policy that saves nothing changes nothing, on either side. */
  lemma {:induction false} NoSavingIsNeutral(p: Policy, evs: seq<Event>)
    ensures Run(AddSaving(NoSaving, p), evs) == Run(p, evs)
    ensures Run(AddSaving(p, NoSaving), evs) == Run(p, evs)
    decreases |evs|
  {
    if |evs| > 0 {
      var last := evs[|evs| - 1];
      NoSavingIsNeutral(p, evs[..|evs| - 1]);
      RunLast(p, evs);
      RunLast(AddSaving(NoSaving, p), evs);
      RunLast(AddSaving(p, NoSaving), evs);
      assert Effect(AddSaving(NoSaving, p), last) == Effect(p, last);
      assert Effect(AddSaving(p, NoSaving), last) == Effect(p, last);
    }
  }

  /** The merging-sequence file: whether it is open, and its contents. */
  datatype File = File(open: bool, ids: seq<nat>)

  /** Applying actions to the file: `ios::trunc` empties it, writes to a
   *  closed stream are lost, and close ends the writing. */
  function Apply(f: File, acts: seq<Action>): (r: File)
    ensures |acts| == 0 ==> r == f
  {
    if |acts| == 0 then f
    else
      var f' := Apply(f, acts[..|acts| - 1]);
      match acts[|acts| - 1]
      case Truncate => File(true, [])
      case WriteId(id) => if f'.open then f'.(ids := f'.ids + [id]) else f'
      case Close => f'.(open := false)
  }

  lemma {:induction false} ApplyAppend(f: File, acts: seq<Action>, more: seq<Action>)
    ensures Apply(f, acts + more) == Apply(Apply(f, acts), more)
    decreases |more|
  {
    if |more| == 0 {
      assert acts + more == acts;
    } else {
      assert (acts + more)[..|acts + more| - 1] == acts + more[..|more| - 1];
      assert (acts + more)[|acts + more| - 1] == more[|more| - 1];
      ApplyAppend(f, acts, more[..|more| - 1]);
    }
  }

  /** The ids the merging sequence should hold for a list of selected
   *  dissimilarities: endpoint `a` then endpoint `b`, merge after merge. */
  function PairIds(ds: seq<Diss>): (r: seq<nat>)
    ensures |r| == 2 * |ds|
  {
    if |ds| == 0 then [] else PairIds(ds[..|ds| - 1]) + [ds[|ds| - 1].a % ID_RANGE, ds[|ds| - 1].b % ID_RANGE]
  }

  /** The dissimilarities selected in a trace. */
  function SelectedIn(evs: seq<Event>): seq<Diss>
  {
    if |evs| == 0 then []
    else SelectedIn(evs[..|evs| - 1]) + (if evs[|evs| - 1].Selected? then [evs[|evs| - 1].d] else [])
  }

  /** One merge step reports one selected dissimilarity. */
  lemma SelectedInStep(d: Diss, F: nat)
    ensures SelectedIn([Selected(d), FatherNode(F)]) == [d]
  {
    var evs := [Selected(d), FatherNode(F)];
    var first := [Selected(d)];
    assert evs[..1] == first;
    assert first[..0] == [];
    assert SelectedIn(first) == [d];
    assert SelectedIn(evs) == SelectedIn(first) + [];
  }

  lemma {:induction false} SelectedInAppend(evs: seq<Event>, more: seq<Event>)
    ensures SelectedIn(evs + more) == SelectedIn(evs) + SelectedIn(more)
    decreases |more|
  {
    if |more| == 0 {
      assert evs + more == evs;
    } else {
      var init, last := more[..|more| - 1], more[|more| - 1];
      var all := evs + more;
      assert all[..|all| - 1] == evs + init;
      assert all[|all| - 1] == last;
      SelectedInAppend(evs, init);
    }
  }

  /** The pairs of nodes a list of selected dissimilarities merges. */
  function MergedPairs(ds: seq<Diss>): (r: seq<(nat, nat)>)
    ensures |r| == |ds|
  {
    seq(|ds|, k requires 0 <= k < |ds| => (ds[k].a, ds[k].b))
  }

  /** A trace between start and end: no prepare, start or end hook. */
  ghost predicate Inner(evs: seq<Event>)
  {
    forall i :: 0 <= i < |evs| ==> evs[i].Selected? || evs[i].FatherNode?
  }

  /** The ids SaveMergingSequence writes for one hook call of the loop. */
  function Written(ev: Event): seq<nat>
  {
    if ev.Selected? then [ev.d.a % ID_RANGE, ev.d.b % ID_RANGE] else []
  }

  lemma HookOnOpenFile(f: File, ev: Event)
    requires f.open && (ev.Selected? || ev.FatherNode?)
    ensures Apply(f, Effect(SaveMergingSequence, ev)) == File(true, f.ids + Written(ev))
  {
    if ev.Selected? {
      var w := [WriteId(ev.d.a % ID_RANGE), WriteId(ev.d.b % ID_RANGE)];
      assert w[..1] == [WriteId(ev.d.a % ID_RANGE)];
      assert [WriteId(ev.d.a % ID_RANGE)][..0] == [];
    }
  }

  lemma PairIdsLast(ds: seq<Diss>, d: Diss)
    ensures PairIds(ds + [d]) == PairIds(ds) + [d.a % ID_RANGE, d.b % ID_RANGE]
  {
    assert (ds + [d])[..|ds|] == ds;
  }

  /** On an open file, the hooks of the merge loop append the ids of every
   *  selected dissimilarity and nothing else. */
  lemma {:induction false} InnerWritesPairs(f: File, evs: seq<Event>)
    requires f.open && Inner(evs)
    ensures Apply(f, Run(SaveMergingSequence, evs)) == File(true, f.ids + PairIds(SelectedIn(evs)))
    decreases |evs|
  {
    if |evs| > 0 {
      var init, last := evs[..|evs| - 1], evs[|evs| - 1];
      assert Inner(init) by {
        forall i | 0 <= i < |init|
          ensures init[i].Selected? || init[i].FatherNode?
        {
          assert init[i] == evs[i];
        }
      }
      InnerWritesPairs(f, init);
      var f1 := Apply(f, Run(SaveMergingSequence, init));
      RunLast(SaveMergingSequence, evs);
      ApplyAppend(f, Run(SaveMergingSequence, init), Effect(SaveMergingSequence, last));
      HookOnOpenFile(f1, last);
      var S := SelectedIn(init);
      if last.Selected? {
        assert SelectedIn(evs) == S + [last.d];
        PairIdsLast(S, last.d);
      } else {
        assert SelectedIn(evs) == S;
      }
    }
  }

  /** SaveMergingSequence truncates the file on start and closes it on
   *  end. */
  lemma StartAndEnd(f: File, nodes: set<nat>, pool: set<nat>)
    ensures Run(SaveMergingSequence, [Prepare(nodes, pool), Start]) == [Truncate]
    ensures Run(SaveMergingSequence, [End]) == [Close]
    ensures Apply(f, [Truncate]) == File(true, [])
  {
    var pre := [Prepare(nodes, pool), Start];
    RunLast(SaveMergingSequence, pre);
    assert pre[..1] == [Prepare(nodes, pool)];
    RunLast(SaveMergingSequence, pre[..1]);
    RunLast(SaveMergingSequence, [End]);
  }

  /** A whole construction trace, saved with SaveMergingSequence, leaves
   *  a closed file holding one pair of ids per merge, in merge order,
   *  whatever the file held before. */
  lemma SavedSequence(f: File, nodes: set<nat>, pool: set<nat>, evs: seq<Event>)
    requires Inner(evs)
    ensures Apply(f, Run(SaveMergingSequence, [Prepare(nodes, pool), Start] + evs + [End]))
         == File(false, PairIds(SelectedIn(evs)))
  {
    var pre := [Prepare(nodes, pool), Start];
    var body := Run(SaveMergingSequence, evs);
    RunAppend(SaveMergingSequence, pre + evs, [End]);
    RunAppend(SaveMergingSequence, pre, evs);
    StartAndEnd(f, nodes, pool);
    ApplyAppend(f, [Truncate] + body, [Close]);
    ApplyAppend(f, [Truncate], body);
    InnerWritesPairs(File(true, []), evs);
  }
}
