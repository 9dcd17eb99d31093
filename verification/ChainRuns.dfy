/** Whole runs of the chain state against a plain vector of slots. */
module ChainRuns {
  import opened Options
  import opened Powers
  import opened StateHashing
  import opened SegmentTree
  import opened SegmentOverlay
  import opened StateLayout
  import opened SegmentedState
  import opened SegmentReload
  import opened StateRoot
  import opened ChainState
  import Runs = SegmentCacheRuns

  datatype ChainOp =
    | Revert(changes: seq<SlotWrite>)
    | Evict(segment: nat)
    | Reload(segment: nat, columns: SegmentColumns)
    | Seal
    | Grow
    | Transition(logSlots: nat, childRoot: StateHash, updates: seq<SlotWrite>)

  /** What an operation answered. A root comes with the depth of the tree it is the root of. */
  datatype Outcome = Refused | Done | Rooted(depth: nat, root: StateHash)

  // ---------------------------------------------------------------------
  // The reference: a vector of slots
  // ---------------------------------------------------------------------

  /** What an operation leaves of the slots; residency, caches and roots do not exist here. */
  ghost function SlotsAfter(slots: seq<SlotValue>, op: ChainOp, outcome: Outcome): seq<SlotValue> {
    if outcome.Refused? then slots
    else
      match op
      case Revert(changes) => Overwritten(slots, NetWrites(Restored(changes, |slots|)))
      case Grow => Grown(slots)
      case Transition(logSlots, _, updates) =>
        Overwritten(if |slots| < Pow2(logSlots) then Grown(slots) else slots, NetWrites(updates))
      case _ => slots
  }

  ghost function SlotsAfterAll(slots: seq<SlotValue>, ops: seq<ChainOp>, outcomes: seq<Outcome>): seq<SlotValue>
    requires |outcomes| == |ops|
  {
    if ops == [] then slots
    else
      var n := |ops| - 1;
      SlotsAfter(SlotsAfterAll(slots, ops[..n], outcomes[..n]), ops[n], outcomes[n])
  }

  /** A reported root is the plain recursive root of the slots. */
  ghost predicate Honest(h: Hasher, slots: seq<SlotValue>, outcome: Outcome) {
    outcome.Rooted? ==> |slots| == Pow2(outcome.depth) && outcome.root == SlotsRoot(h, outcome.depth, slots)
  }

  /** Every root reported along the run is. */
  ghost predicate AllHonest(h: Hasher, slots: seq<SlotValue>, ops: seq<ChainOp>, outcomes: seq<Outcome>)
    requires |outcomes| == |ops|
  {
    ops == [] || (
      var n := |ops| - 1;
      && AllHonest(h, slots, ops[..n], outcomes[..n])
      && Honest(h, SlotsAfterAll(slots, ops, outcomes), outcomes[n]))
  }

  lemma OneMore(h: Hasher, slots: seq<SlotValue>, ops: seq<ChainOp>, outcomes: seq<Outcome>, op: ChainOp,
                outcome: Outcome)
    requires |outcomes| == |ops| && AllHonest(h, slots, ops, outcomes)
    requires Honest(h, SlotsAfter(SlotsAfterAll(slots, ops, outcomes), op, outcome), outcome)
    ensures SlotsAfterAll(slots, ops + [op], outcomes + [outcome])
         == SlotsAfter(SlotsAfterAll(slots, ops, outcomes), op, outcome)
    ensures AllHonest(h, slots, ops + [op], outcomes + [outcome])
  {
    hide SlotsAfter, Honest;
    var n := |ops|;
    assert (ops + [op])[..n] == ops && (outcomes + [outcome])[..n] == outcomes;
  }

  /** Root by root: each one reported is the plain root of the vector at that point of the run. */
  lemma {:induction false} RootAlongRun(h: Hasher, slots: seq<SlotValue>, ops: seq<ChainOp>, outcomes: seq<Outcome>,
                                        i: nat)
    requires |outcomes| == |ops| && AllHonest(h, slots, ops, outcomes) && i < |ops| && outcomes[i].Rooted?
    ensures var at := SlotsAfterAll(slots, ops[..i + 1], outcomes[..i + 1]);
            |at| == Pow2(outcomes[i].depth) && outcomes[i].root == SlotsRoot(h, outcomes[i].depth, at)
  {
    hide SlotsAfterAll;
    var n := |ops| - 1;
    if i < n {
      RootAlongRun(h, slots, ops[..n], outcomes[..n], i);
      assert ops[..n][..i + 1] == ops[..i + 1] && outcomes[..n][..i + 1] == outcomes[..i + 1];
    } else {
      assert ops[..n + 1] == ops && outcomes[..n + 1] == outcomes;
    }
  }

  /** Every undo log that was put back was tidy for the state it met. */
  ghost predicate AllTidy(slots: seq<SlotValue>, ops: seq<ChainOp>, outcomes: seq<Outcome>)
    requires |outcomes| == |ops|
  {
    ops == [] || (
      var n := |ops| - 1;
      && AllTidy(slots, ops[..n], outcomes[..n])
      && (ops[n].Revert? ==> Tidy(ops[n].changes, |SlotsAfterAll(slots, ops[..n], outcomes[..n])|)))
  }

  // ---------------------------------------------------------------------
  // One operation
  // ---------------------------------------------------------------------

  /** When an operation is refused: a missing segment, a depth or a root that does not fit, nothing to evict. */
  ghost predicate Refuses(chain: ChainState, op: ChainOp)
    requires chain.Valid()
    reads chain, chain.state, chain.compact
  {
    match op
    case Revert(changes) => chain.SlotAway(changes)
    case Evict(segment) => segment >= |chain.state.segments|
    case Reload(segment, columns) =>
      segment in chain.state.exactDirty || segment >= |chain.compact.roots|
      || !columns.Shaped(Pow2(chain.state.logSegment))
      || LiveCount(columns, Pow2(chain.state.logSegment)) != chain.state.liveCounts[segment]
      || SegmentRoot(chain.state.h, chain.state.logSegment, columns) != chain.compact.roots[segment]
    case Seal => !(chain.state.exactDirty !! chain.state.evicted)
    case Grow => chain.Held().Depth() >= MAX_LOG_SLOTS
    case Transition(logSlots, childRoot, updates) => !chain.Ready(logSlots, childRoot, updates)
  }

  /** Performs one operation, or refuses it. */
  method Perform(chain: ChainState, op: ChainOp) returns (outcome: Outcome, ghost forgery: Option<Forgery>)
    requires chain.Valid()
    modifies chain, chain.state, chain.compact
    ensures chain.Valid()
    ensures forgery.Some? ==> forgery.value.Holds(chain.state.h)
    ensures forgery.None? ==> chain.AllSlots() == SlotsAfter(old(chain.AllSlots()), op, outcome)
    ensures Honest(chain.state.h, chain.AllSlots(), outcome)
    ensures old(chain.Accounted()) && (op.Revert? ==> AllBelow(op.changes, 2 * |old(chain.AllSlots())|)) ==>
              (outcome.Refused? <==> old(Refuses(chain, op)))
    ensures op.Evict? && !outcome.Refused? ==>
              op.segment < |chain.state.segments| && chain.state.segments[op.segment].None?
    ensures op.Reload? && !outcome.Refused? ==> op.segment !in chain.state.evicted
    ensures forgery.None? && old(chain.Accounted()) && (op.Revert? ==> Tidy(op.changes, |old(chain.AllSlots())|)) ==>
              chain.Accounted()
  {
    hide SegmentOk, Runs.Coherent, Resident, SegmentRoot, CleanRoots, NetWrites, Layout.AllSlots,
         Layout.Doubled, Pow2, Total, Restored, Tidy, LiveCount;
    forgery := None;
    match op
    case Revert(changes) =>
      var ok := chain.RevertBlock(changes);
      outcome := if ok then Done else Refused;
    case Evict(segment) =>
      if segment >= |chain.state.segments| {
        return Refused, None;
      }
      chain.EvictSegment(segment);
      outcome := Done;
    case Reload(segment, columns) =>
      if segment in chain.state.exactDirty {
        return Refused, None;
      }
      var ok;
      ok, forgery := chain.RestoreEvictedSegment(segment, columns);
      outcome := if ok then Done else Refused;
    case Seal =>
      var sealed := chain.TryStateRoot();
      outcome := if sealed.Ok? then Rooted(chain.compact.upper + chain.compact.log, sealed.value) else Refused;
    case Grow =>
      if chain.compact.upper + chain.compact.log >= MAX_LOG_SLOTS {
        return Refused, None;
      }
      DoubledSlots(chain.Held());
      TotalAppendEmpty(chain.AllSlots(), |chain.AllSlots()|);
      chain.ExpandOne();
      outcome := Done;
    case Transition(logSlots, childRoot, updates) =>
      outcome := PerformTransition(chain, logSlots, childRoot, updates);
  }

  method PerformTransition(chain: ChainState, logSlots: nat, childRoot: StateHash, updates: seq<SlotWrite>)
    returns (outcome: Outcome)
    requires chain.Valid()
    modifies chain, chain.state, chain.compact
    ensures chain.Valid() && Honest(chain.state.h, chain.AllSlots(), outcome)
    ensures chain.AllSlots() == SlotsAfter(old(chain.AllSlots()), Transition(logSlots, childRoot, updates), outcome)
    ensures old(chain.Accounted()) ==>
              chain.Accounted() && (outcome.Refused? <==> !old(chain.Ready(logSlots, childRoot, updates)))
  {
    hide SegmentOk, Runs.Coherent, Resident, CleanRoots, NetWrites, Layout.AllSlots, Total;
    GrowsByDepth(chain.Held(), logSlots);
    var result := chain.ApplyVerifiedTransition(logSlots, childRoot, updates);
    outcome := if result.Ok? then Rooted(logSlots, result.value) else Refused;
  }

  /** A taller target is a longer vector. */
  lemma GrowsByDepth(layout: Layout, logSlots: nat)
    requires layout.Valid()
    ensures DepthOk(layout.Depth(), logSlots) ==> (logSlots > layout.Depth() <==> |layout.AllSlots()| < Pow2(logSlots))
  {
  }

  // ---------------------------------------------------------------------
  // Whole runs
  // ---------------------------------------------------------------------

  /**
   Runs any list of operations. The slots are what the plain vector would hold, every root reported on the way is the
   plain recursive root of that vector at that point, and the supply stays its total as long as undo logs are tidy;
   or a reload has exhibited a hash collision.
   */
  method Run(chain: ChainState, ops: seq<ChainOp>) returns (outcomes: seq<Outcome>, ghost forgery: Option<Forgery>)
    requires chain.Valid()
    modifies chain, chain.state, chain.compact
    ensures chain.Valid()
    ensures forgery.Some? ==> forgery.value.Holds(chain.state.h)
    ensures forgery.None? ==>
              && |outcomes| == |ops| && AllHonest(chain.state.h, old(chain.AllSlots()), ops, outcomes)
              && chain.AllSlots() == SlotsAfterAll(old(chain.AllSlots()), ops, outcomes)
              && (old(chain.Accounted()) && AllTidy(old(chain.AllSlots()), ops, outcomes) ==> chain.Accounted())
  {
    hide SegmentOk, Runs.Coherent, Resident, CleanRoots, Layout.AllSlots, Total, Tidy, SlotsAfter, Honest,
         ChainState.Valid, ChainState.AllSlots;
    ghost var start := chain.AllSlots();
    outcomes, forgery := [], None;
    for i := 0 to |ops|
      invariant chain.Valid() && |outcomes| == i
      invariant forgery.Some? ==> forgery.value.Holds(chain.state.h)
      invariant forgery.None? ==>
                  && AllHonest(chain.state.h, start, ops[..i], outcomes)
                  && chain.AllSlots() == SlotsAfterAll(start, ops[..i], outcomes)
                  && (old(chain.Accounted()) && AllTidy(start, ops[..i], outcomes) ==> chain.Accounted())
    {
      var outcome, found := Perform(chain, ops[i]);
      assert ops[..i + 1] == ops[..i] + [ops[i]];
      if forgery.None? {
        forgery := found;
      }
      if forgery.None? {
        OneMore(chain.state.h, start, ops[..i], outcomes, ops[i], outcome);
        OneMoreTidy(start, ops[..i], outcomes, ops[i], outcome);
      }
      outcomes := outcomes + [outcome];
    }
    assert ops[..|ops|] == ops;
  }

  lemma OneMoreTidy(slots: seq<SlotValue>, ops: seq<ChainOp>, outcomes: seq<Outcome>, op: ChainOp, outcome: Outcome)
    requires |outcomes| == |ops|
    ensures AllTidy(slots, ops + [op], outcomes + [outcome]) <==>
              && AllTidy(slots, ops, outcomes)
              && (op.Revert? ==> Tidy(op.changes, |SlotsAfterAll(slots, ops, outcomes)|))
  {
    hide Tidy, SlotsAfterAll;
    var n := |ops|;
    assert (ops + [op])[..n] == ops && (outcomes + [outcome])[..n] == outcomes;
  }
}
