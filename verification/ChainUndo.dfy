/** Undo logs: what a block's slots held before it, and that putting it back undoes the block. */
module ChainUndo {
  import opened Powers
  import opened StateHashing
  import opened SegmentTree
  import opened SegmentOverlay
  import opened StateLayout
  import opened SegmentedState
  import opened StateRoot
  import opened ChainState
  import Runs = SegmentCacheRuns

  /** A slot a block's transactions touch: spent by an input, or filled by an output. */
  datatype Touch = Input(slot: nat) | Output(slot: nat)

  /** What a slot held; past the end, nothing. */
  function Preimage(slots: seq<SlotValue>, g: nat): SlotValue {
    if g < |slots| then slots[g] else EMPTY
  }

  /** Inputs are recorded inside the parent's slots, outputs inside the child's. */
  predicate Recorded(count: nat, childCount: nat, touch: Touch) {
    touch.slot < if touch.Input? then count else childCount
  }

  ghost predicate RecordsSlot(count: nat, childCount: nat, touches: seq<Touch>, g: nat) {
    exists t :: t in touches && t.slot == g && Recorded(count, childCount, t)
  }

  /** The log lists each recorded slot once, with what it held. */
  ghost predicate IsUndoLog(slots: seq<SlotValue>, childCount: nat, touches: seq<Touch>, changes: seq<SlotWrite>) {
    && Unique(changes)
    && (forall c :: c in changes ==> RecordsSlot(|slots|, childCount, touches, c.0) && c.1 == Preimage(slots, c.0))
    && forall g: nat :: RecordsSlot(|slots|, childCount, touches, g) ==> (g, Preimage(slots, g)) in changes
  }

  /** One slot of the parent state. */
  method ReadSlot(chain: ChainState, g: nat) returns (slot: SlotValue)
    requires chain.Valid() && g < |chain.AllSlots()| && Shr(g, chain.state.logSegment) !in chain.state.evicted
    ensures slot == chain.AllSlots()[g]
  {
    hide SegmentOk, Runs.Coherent, Resident, Slots, Shl, Shr, Pow2, CleanRoots;
    var log := chain.state.logSegment;
    ShlPow2(chain.compact.upper, log);
    SegmentOfIndex(|chain.state.segments|, log, g);
    SlotsByIndex(chain.state.contents, log, g);
    slot := chain.state.Slot(Shr(g, log), g - Shl(Shr(g, log), log));
  }

  /** Every touched slot's segment has been loaded. */
  ghost predicate InMemory(evicted: set<nat>, log: nat, touches: seq<Touch>) {
    forall t :: t in touches ==> Shr(t.slot, log) !in evicted
  }

  /** Records the parent value of every slot the block touches, the first time it is touched. */
  method BuildUndoLog(chain: ChainState, touches: seq<Touch>, grows: bool) returns (changes: seq<SlotWrite>)
    requires chain.Valid() && InMemory(chain.state.evicted, chain.state.logSegment, touches)
    ensures IsUndoLog(chain.AllSlots(), if grows then 2 * |chain.AllSlots()| else |chain.AllSlots()|, touches, changes)
    ensures forall g: nat, v :: (g, v) in changes <==>
              Listed(chain.AllSlots(), if grows then 2 * |chain.AllSlots()| else |chain.AllSlots()|, touches, g, v)
  {
    hide ChainState.Valid, Shr, Layout.AllSlots;
    var count := chain.NumSlots();
    var childCount := if grows then 2 * count else count;
    ghost var slots := chain.AllSlots();
    var seen: set<nat> := {};
    changes := [];
    for i := 0 to |touches|
      invariant IsUndoLog(slots, childCount, touches[..i], changes)
      invariant forall g: nat :: g in seen <==> RecordsSlot(count, childCount, touches[..i], g)
    {
      var t := touches[i];
      assert t in touches;
      RecordsNext(count, childCount, touches[..i], t);
      assert touches[..i + 1] == touches[..i] + [t];
      if Recorded(count, childCount, t) && t.slot !in seen {
        var before := EMPTY;
        if t.slot < count {
          before := ReadSlot(chain, t.slot);
        }
        LogNext(slots, childCount, touches[..i], t, changes);
        seen := seen + {t.slot};
        changes := changes + [(t.slot, before)];
      }
    }
    assert touches[..|touches|] == touches;
    LogListsExactly(slots, childCount, touches, changes);
  }

  /** An input inside the parent's slots or an output inside the child's touches `g`, which held `v`. */
  ghost predicate Listed(slots: seq<SlotValue>, childCount: nat, touches: seq<Touch>, g: nat, v: SlotValue) {
    && ((Input(g) in touches && g < |slots|) || (Output(g) in touches && g < childCount))
    && v == if g < |slots| then slots[g] else EMPTY
  }

  /** The log is exactly that. */
  lemma LogListsExactly(slots: seq<SlotValue>, childCount: nat, touches: seq<Touch>, changes: seq<SlotWrite>)
    requires IsUndoLog(slots, childCount, touches, changes)
    ensures forall g: nat, v :: (g, v) in changes <==>
              Listed(slots, childCount, touches, g, v)
  {
    forall g: nat
      ensures RecordsSlot(|slots|, childCount, touches, g) <==>
                (Input(g) in touches && g < |slots|) || (Output(g) in touches && g < childCount)
    {
      if Input(g) in touches && g < |slots| {
        assert Recorded(|slots|, childCount, Input(g));
      }
      if Output(g) in touches && g < childCount {
        assert Recorded(|slots|, childCount, Output(g));
      }
    }
  }

  lemma RecordsNext(count: nat, childCount: nat, touches: seq<Touch>, t: Touch)
    ensures forall g: nat :: RecordsSlot(count, childCount, touches + [t], g) <==>
              RecordsSlot(count, childCount, touches, g) || (g == t.slot && Recorded(count, childCount, t))
  {
    forall g: nat
      ensures RecordsSlot(count, childCount, touches + [t], g) <==>
                RecordsSlot(count, childCount, touches, g) || (g == t.slot && Recorded(count, childCount, t))
    {
      if RecordsSlot(count, childCount, touches, g) {
        var u :| u in touches && u.slot == g && Recorded(count, childCount, u);
        assert u in touches + [t];
      }
      if g == t.slot && Recorded(count, childCount, t) {
        assert t in touches + [t];
      }
    }
  }

  lemma LogNext(slots: seq<SlotValue>, childCount: nat, touches: seq<Touch>, t: Touch, changes: seq<SlotWrite>)
    requires IsUndoLog(slots, childCount, touches, changes) && Recorded(|slots|, childCount, t)
    requires !RecordsSlot(|slots|, childCount, touches, t.slot)
    ensures IsUndoLog(slots, childCount, touches + [t], changes + [(t.slot, Preimage(slots, t.slot))])
  {
    hide RecordsSlot, Recorded, Preimage;
    RecordsNext(|slots|, childCount, touches, t);
    var after := changes + [(t.slot, Preimage(slots, t.slot))];
    forall i | 0 <= i < |changes|
      ensures after[i].0 != t.slot
    {
      assert changes[i] in changes;
    }
    forall c | c in after
      ensures RecordsSlot(|slots|, childCount, touches + [t], c.0) && c.1 == Preimage(slots, c.0)
    {
    }
  }

  // ---------------------------------------------------------------------
  // Undoing
  // ---------------------------------------------------------------------

  /** Every update is to a recorded slot, as a block's own updates are. */
  ghost predicate Covers(count: nat, childCount: nat, touches: seq<Touch>, updates: seq<SlotWrite>) {
    forall u :: u in updates ==> RecordsSlot(count, childCount, touches, u.0)
  }

  /** Overwriting and then putting the log back restores the slots, with the empty upper half if the state grew. */
  lemma UndoRestores(slots: seq<SlotValue>, grown: seq<SlotValue>, touches: seq<Touch>, updates: seq<SlotWrite>,
                     changes: seq<SlotWrite>)
    requires grown == slots || grown == Grown(slots)
    requires IsUndoLog(slots, |grown|, touches, changes) && Covers(|slots|, |grown|, touches, updates)
    ensures var after := Overwritten(grown, NetWrites(updates));
            Overwritten(after, NetWrites(Restored(changes, |after|))) == grown
  {
    hide RecordsSlot, NetWrites, Restored;
    var after := Overwritten(grown, NetWrites(updates));
    var back := NetWrites(Restored(changes, |after|));
    forall g | 0 <= g < |grown|
      ensures Overwritten(after, back)[g] == grown[g]
    {
      RestoredNet(changes, |after|, g);
      NetKeys(changes, g);
      NetKeys(updates, g);
      assert Preimage(slots, g) == grown[g];
      if g in NetWrites(updates) {
        var u :| u in updates && u.0 == g;
        assert RecordsSlot(|slots|, |grown|, touches, g);
        NetOfUnique(changes, (g, grown[g]));
      } else if g in NetWrites(changes) {
        NetOfUnique(changes, (g, NetWrites(changes)[g]));
      }
    }
  }

  lemma UndoLogIsTidy(slots: seq<SlotValue>, grown: seq<SlotValue>, touches: seq<Touch>, changes: seq<SlotWrite>)
    requires grown == slots || grown == Grown(slots)
    requires IsUndoLog(slots, |grown|, touches, changes)
    ensures Tidy(changes, |grown|)
  {
    forall c | c in changes
      ensures c.0 < |grown|
    {
      var t :| t in touches && t.slot == c.0 && Recorded(|slots|, |grown|, t);
    }
  }

  lemma LoggedIsInMemory(evicted: set<nat>, log: nat, slots: seq<SlotValue>, childCount: nat, touches: seq<Touch>,
                         changes: seq<SlotWrite>)
    requires IsUndoLog(slots, childCount, touches, changes) && InMemory(evicted, log, touches)
    ensures forall c :: c in changes ==> Shr(c.0, log) !in evicted
  {
    hide Shr;
    forall c | c in changes
      ensures Shr(c.0, log) !in evicted
    {
      var t :| t in touches && t.slot == c.0 && Recorded(|slots|, childCount, t);
    }
  }

  /**
   Takes an undo log, commits a transition whose updates the log covers, and puts the log back. The slots are the old
   ones again (in the grown state, with an empty upper half), and so is the supply; hashing them gives the old root, or
   the old root beside an empty subtree.
   */
  method TransitionAndBack(chain: ChainState, logSlots: nat, childRoot: StateHash, updates: seq<SlotWrite>,
                           touches: seq<Touch>)
    returns (ok: bool)
    requires chain.Valid() && chain.Accounted() && chain.Sealed()
    requires chain.Ready(logSlots, childRoot, updates)
    requires InMemory(chain.state.evicted, chain.state.logSegment, touches)
    requires InMemory(chain.state.evicted, TargetLog(logSlots), touches)
    requires Covers(|chain.AllSlots()|, Pow2(logSlots), touches, updates)
    modifies chain, chain.state, chain.compact
    ensures ok && chain.Valid() && chain.Sealed() && chain.Accounted() && chain.Held().Depth() == logSlots
    ensures chain.supply == old(chain.supply)
    ensures logSlots == old(chain.Held().Depth()) ==>
              chain.AllSlots() == old(chain.AllSlots()) && chain.utxoRoot == old(chain.utxoRoot)
    ensures logSlots > old(chain.Held().Depth()) ==>
              && chain.AllSlots() == Grown(old(chain.AllSlots()))
              && chain.utxoRoot == NodeHash(chain.state.h, old(chain.utxoRoot),
                                            ZeroRoot(chain.state.h, old(chain.Held().Depth())))
  {
    hide SegmentOk, Runs.Coherent, Resident, CleanRoots, Layout.AllSlots, Total, Shr, NetWrites, Restored, RecordsSlot,
         IsUndoLog, Covers, Tidy, Present, SlotsRoot, ZeroRoot, InMemory, Pow2;
    ghost var layout, slots := chain.Held(), chain.AllSlots();
    var depth := chain.compact.upper + chain.compact.log;
    var grows := logSlots > depth;
    ghost var grown := if grows then Grown(slots) else slots;
    TotalAppendEmpty(slots, |slots|);
    if grows {
      GrownRoot(chain.state.h, depth, slots);
    }
    var changes := BuildUndoLog(chain, touches, grows);
    UndoRestores(slots, grown, touches, updates, changes);
    UndoLogIsTidy(slots, grown, touches, changes);
    var committed := chain.ApplyVerifiedTransition(logSlots, childRoot, updates);
    assert |chain.AllSlots()| == |grown|;
    LoggedIsInMemory(chain.state.evicted, chain.state.logSegment, slots, |grown|, touches, changes);
    ok := PutBack(chain, changes, grown);
  }

  /** Puts a log back whose slots are in memory, and hashes what changed. */
  method PutBack(chain: ChainState, changes: seq<SlotWrite>, ghost before: seq<SlotValue>) returns (ok: bool)
    requires chain.Valid() && chain.Accounted() && chain.Sealed() && !chain.SlotAway(changes)
    requires Tidy(changes, |chain.AllSlots()|)
    requires Overwritten(chain.AllSlots(), NetWrites(Restored(changes, |chain.AllSlots()|))) == before
    modifies chain, chain.state, chain.compact
    ensures ok && chain.Valid() && chain.Sealed() && chain.Accounted() && chain.AllSlots() == before
    ensures chain.Held().Depth() == old(chain.Held().Depth())
  {
    hide SegmentOk, Runs.Coherent, Resident, CleanRoots, Layout.AllSlots, Total, Shr, NetWrites, Restored,
      Tidy, Layout.Root;
    TidyTotal(chain.AllSlots(), changes);
    ok := chain.RevertBlock(changes);
    var sealed := chain.TryStateRoot();
  }
}
