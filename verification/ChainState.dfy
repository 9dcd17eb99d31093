/** The chain state as it runs: slots, their compact roots and the supply, kept together through every operation. */
module ChainState {
  import opened Options
  import opened Powers
  import opened StateHashing
  import opened NodeArrays
  import opened SegmentTree
  import opened SegmentOverlay
  import opened SegmentCacheModel
  import opened StateLayout
  import opened SegmentedState
  import opened SegmentReload
  import opened StateRoot
  import Runs = SegmentCacheRuns

  const MAX_LOG_SLOTS: nat := 32

  // ---------------------------------------------------------------------
  // The supply
  // ---------------------------------------------------------------------

  /** The low half of the packed value. */
  function Amount(slot: SlotValue): nat {
    slot.value % TWO_64
  }

  /** The amounts of all slots together. */
  function Total(slots: seq<SlotValue>): nat {
    if slots == [] then 0 else Total(slots[..|slots| - 1]) + Amount(slots[|slots| - 1])
  }

  lemma {:induction false} TotalAfterWrite(slots: seq<SlotValue>, g: nat, value: SlotValue)
    requires g < |slots|
    ensures Total(slots[g := value]) + Amount(slots[g]) == Total(slots) + Amount(value)
    ensures Amount(slots[g]) <= Total(slots)
  {
    hide Amount;
    var n := |slots| - 1;
    var front := slots[..n];
    if g < n {
      TotalAfterWrite(front, g, value);
      assert slots[g := value][..n] == front[g := value];
    } else {
      assert slots[g := value][..n] == front;
    }
  }

  /** An amount below 2^64 under a creation id is the slot's amount, whatever the id and the owner. */
  lemma AmountOfPacked(creation: nat, amount: nat, ownerHi: Block128, ownerLo: Block128)
    requires creation < 0x1_0000_0000_0000_0000 && amount < 0x1_0000_0000_0000_0000
    ensures creation * 0x1_0000_0000_0000_0000 + amount < TWO_128
    ensures Amount(SlotValue(creation * 0x1_0000_0000_0000_0000 + amount, ownerHi, ownerLo)) == amount
  {
    assert (creation + 1) * TWO_64 <= TWO_128;
  }

  /** What the updated slots hold before, slots past the end counting nothing. */
  function Spent(slots: seq<SlotValue>, updates: seq<SlotWrite>): nat {
    if updates == [] then 0
    else
      var last, rest := updates[|updates| - 1], Spent(slots, updates[..|updates| - 1]);
      if last.0 < |slots| then rest + slots[last.0].value % TWO_64 else rest
  }

  /** What they are given. */
  function Created(updates: seq<SlotWrite>): nat {
    if updates == [] then 0
    else Created(updates[..|updates| - 1]) + updates[|updates| - 1].1.value % TWO_64
  }

  /** Conservation: the total moves by what the updates create, less what they spend. */
  lemma {:induction false} TotalAfterUpdates(slots: seq<SlotValue>, updates: seq<SlotWrite>)
    requires Unique(updates) && AllBelow(updates, |slots|)
    ensures Total(Overwritten(slots, NetWrites(updates))) + Spent(slots, updates) == Total(slots) + Created(updates)
  {
    hide Total;
    if updates == [] {
      assert Overwritten(slots, NetWrites(updates)) == slots;
    } else {
      var n := |updates| - 1;
      var front, last := updates[..n], updates[n];
      TotalAfterUpdates(slots, front);
      var before := Overwritten(slots, NetWrites(front));
      TotalAfterWrite(before, last.0, last.1);
      assert Overwritten(slots, NetWrites(updates)) == before[last.0 := last.1];
      NetKeys(front, last.0);
    }
  }

  lemma {:induction false} SpentOfGrown(slots: seq<SlotValue>, updates: seq<SlotWrite>)
    ensures Spent(Grown(slots), updates) == Spent(slots, updates)
  {
    if updates != [] {
      SpentOfGrown(slots, updates[..|updates| - 1]);
    }
  }

  lemma {:induction false} TotalAppendEmpty(slots: seq<SlotValue>, n: nat)
    ensures Total(slots + Repeated(EMPTY, n)) == Total(slots)
    decreases n
  {
    var all := slots + Repeated(EMPTY, n);
    if n == 0 {
      assert all == slots;
    } else {
      TotalAppendEmpty(slots, n - 1);
      assert all[..|all| - 1] == slots + Repeated(EMPTY, n - 1);
    }
  }

  lemma {:induction false} TotalIsBounded(slots: seq<SlotValue>)
    ensures Total(slots) <= |slots| * 0x1_0000_0000_0000_0000
  {
    if slots != [] {
      TotalIsBounded(slots[..|slots| - 1]);
    }
  }

  /** A tree of at most 33 levels never totals 2^128. */
  lemma TotalFits(slots: seq<SlotValue>, depth: nat)
    requires |slots| == Pow2(depth) && depth <= MAX_LOG_SLOTS + 1
    ensures Total(slots) < TWO_128
  {
    hide Pow2, Total;
    TotalIsBounded(slots);
    Pow2Monotone(depth, 33);
    SlotCounts();
  }

  lemma SlotCounts()
    ensures Pow2(16) == 0x1_0000 && Pow2(33) == 0x2_0000_0000
  {
    assert Pow2(8) == 0x100;
    assert Pow2(16) == 0x1_0000;
    assert Pow2(24) == 0x100_0000;
    assert Pow2(32) == 0x1_0000_0000;
  }

  /** Overwriting below the old end and growing commute. */
  lemma OverwrittenGrows(slots: seq<SlotValue>, updates: map<nat, SlotValue>)
    requires forall g :: g in updates ==> g < |slots|
    ensures Overwritten(Grown(slots), updates) == Grown(Overwritten(slots, updates))
  {
  }

  // ---------------------------------------------------------------------
  // Helper facts
  // ---------------------------------------------------------------------

  /** An update reaches into the segment its index belongs to. */
  lemma UpdateTouches(updates: seq<SlotWrite>, u: SlotWrite, log: nat)
    requires u in updates
    ensures Touches(NetWrites(updates), log, Shr(u.0, log))
  {
    hide Pow2, Shl, Shr, NetWrites;
    NetKeys(updates, u.0);
    ShrBlock(u.0, log);
    var s := Shr(u.0, log);
    var i := u.0 - Shl(s, log);
    assert SlotIndex(s, log, i) == u.0;
    assert i in Local(NetWrites(updates), log, s);
  }

  /** Roots stay current where the contents did not move. */
  lemma CleanAfterWrites(h: Hasher, roots: seq<StateHash>, before: Layout, after: Layout, dirty: set<nat>,
                         more: set<nat>)
    requires before.Valid() && after.Valid() && CleanRoots(h, roots, before, dirty) && dirty <= more
    requires after.log == before.log && |after.contents| == |before.contents|
    requires forall s :: 0 <= s < |after.contents| && s !in more ==> after.contents[s] == before.contents[s]
    ensures CleanRoots(h, roots, after, more)
  {
    hide SegmentRoot;
  }

  lemma CleanMeansCurrent(h: Hasher, roots: seq<StateHash>, layout: Layout)
    requires layout.Valid() && CleanRoots(h, roots, layout, {})
    ensures RootsOf(h, roots, layout)
  {
    hide SegmentRoot;
  }

  /** A fresh layout of zero segments: every slot empty, every root the zero root. */
  lemma EmptyLayout(h: Hasher, log: nat, upper: nat)
    requires log <= LOG_SEGMENT_SIZE && (upper > 0 ==> log == LOG_SEGMENT_SIZE)
    ensures var layout := Layout(Repeated(ZeroColumns(Pow2(log)), Pow2(upper)), log, upper);
            && layout.Valid() && layout.AllSlots() == Repeated(EMPTY, Pow2(upper + log))
            && RootsOf(h, Repeated(ZeroRoot(h, log), Pow2(upper)), layout)
            && layout.Root(h) == ZeroRoot(h, upper + log)
  {
    hide Slots, SegmentRoot, ZeroRoot, Pow2, Shl;
    var contents := Repeated(ZeroColumns(Pow2(log)), Pow2(upper));
    AppendedSlots([], log, Pow2(upper));
    assert [] + contents == contents;
    NoSlots(Pow2(log));
    ShlPow2(upper, log);
    ZeroSegmentRoot(h, log);
    EmptySlotsRoot(h, upper + log);
  }

  lemma NoSlots(size: nat)
    ensures Slots([], size) == []
  {
  }

  lemma EmptySlotsRoot(h: Hasher, depth: nat)
    ensures SlotsRoot(h, depth, Repeated(EMPTY, Pow2(depth))) == ZeroRoot(h, depth)
  {
    ZeroRootIsRootOfEmptySlots(h, LeafHashes(h, Repeated(EMPTY, Pow2(depth))), depth, 0);
  }

  lemma {:induction false} NothingTotals(n: nat)
    ensures Total(Repeated(EMPTY, n)) == 0
  {
    TotalAppendEmpty([], n);
    assert [] + Repeated(EMPTY, n) == Repeated(EMPTY, n);
  }

  class ChainState {
    const state: SegmentedState
    const compact: ExactSegmentRootCache
    var utxoRoot: StateHash
    var supply: nat

    ghost function Held(): Layout
      reads state, compact
    {
      LayoutOf(state, compact.upper)
    }

    /** State and compact roots agree on the geometry, and every root not marked dirty is its segment's current one. */
    ghost predicate Valid()
      reads this, state, compact
    {
      && state.Valid() && compact.Valid() && compact.h == state.h && compact.log == state.logSegment
      && Held().Valid() && Held().Depth() <= MAX_LOG_SLOTS
      && CleanRoots(state.h, compact.roots, Held(), state.exactDirty)
    }

    ghost function AllSlots(): (slots: seq<SlotValue>)
      requires Valid()
      reads this, state, compact
    {
      Held().AllSlots()
    }

    /** Nothing is waiting to be hashed, and the root is the root of every slot. */
    ghost predicate Sealed()
      requires Valid()
      reads this, state, compact
    {
      state.exactDirty == {} && utxoRoot == Held().Root(state.h)
    }

    /** The supply is what the slots hold. */
    ghost predicate Accounted()
      requires Valid()
      reads this, state, compact
    {
      supply == Total(AllSlots())
    }

    /** A fresh state of the given depth. */
    constructor (h: Hasher, logSlots: nat, budget: nat)
      requires 1 <= logSlots <= MAX_LOG_SLOTS
      ensures Valid() && fresh(state) && fresh(compact) && state.h == h && Sealed() && Accounted()
      ensures AllSlots() == Repeated(EMPTY, Pow2(logSlots)) && state.evicted == {}
    {
      hide SegmentOk, Runs.Coherent, Resident, Layout.AllSlots, Layout.Root, SegmentRoot, RootsOf, Pow2, Total,
           ZeroRoot;
      var log := TargetLog(logSlots);
      var upper := logSlots - log;
      state := new SegmentedState(h, log, Pow2(upper), budget);
      compact := new ExactSegmentRootCache(h, log, upper);
      var zeros := ZeroSlotRoots(h, logSlots);
      utxoRoot := zeros[logSlots];
      supply := 0;
      new;
      EmptyLayout(h, log, upper);
      assert state.contents == Repeated(ZeroColumns(Pow2(log)), Pow2(upper));
      RootsAreClean(h, compact.roots, Held());
      NothingTotals(Pow2(logSlots));
    }

    /** Raw slot writes: contents move, roots wait, the supply is the caller's business. */
    method ApplyDelta(deltas: seq<SlotWrite>) returns (ok: bool)
      requires Valid() && forall d :: d in deltas ==> Shr(d.0, state.logSegment) !in state.evicted
      modifies state
      ensures Valid() && Held().Depth() == old(Held().Depth()) && state.evicted == old(state.evicted)
      ensures ok <==> AllBelow(deltas, |old(AllSlots())|)
      ensures AllSlots() == if ok then Overwritten(old(AllSlots()), NetWrites(deltas)) else old(AllSlots())
      ensures old(state.exactDirty) <= state.exactDirty
      ensures forall s :: s in state.exactDirty ==>
                s in old(state.exactDirty) || exists d :: d in deltas && Shr(d.0, state.logSegment) == s
    {
      hide SegmentOk, Runs.Coherent, Resident, Slots, SegmentRoot, Shr, Pow2, CleanRoots, NetWrites;
      ghost var before, dirty := Held(), state.exactDirty;
      ShlPow2(compact.upper, state.logSegment);
      ok := state.ApplyDelta(deltas);
      state.ContentsShaped();
      if ok {
        CleanAfterWrites(state.h, compact.roots, before, Held(), dirty, state.exactDirty);
      }
    }

    method EvictSegment(segment: nat)
      requires Valid() && segment < |state.segments|
      modifies state
      ensures Valid() && Held() == old(Held()) && state.exactDirty == old(state.exactDirty)
      ensures state.segments == old(state.segments)[segment := None]
      ensures state.evicted == old(state.evicted) + if old(state.segments)[segment].Some? then {segment} else {}
    {
      hide SegmentOk, Runs.Coherent, Resident, CleanRoots;
      state.EvictSegment(segment);
    }

    /**
     Reinstalls a segment that passes the compact check. If its root was current, the columns are the contents that were
     evicted, or a hash is broken; either way the roots still say what the slots hold.
     */
    method RestoreEvictedSegment(segment: nat, columns: SegmentColumns)
    returns (ok: bool, ghost forgery: Option<Forgery>)
      requires Valid()
      modifies state
      ensures Valid() && state.exactDirty == old(state.exactDirty) && Held().Depth() == old(Held().Depth())
      ensures ok <==> && segment < |compact.roots| && columns.Shaped(Pow2(old(state.logSegment)))
                      && LiveCount(columns, Pow2(old(state.logSegment))) == old(state.liveCounts)[segment]
                      && SegmentRoot(state.h, old(state.logSegment), columns) == compact.roots[segment]
      ensures !ok ==> unchanged(state) && forgery.None?
      ensures ok ==> Held() == old(Held()).(contents := old(Held()).contents[segment := columns])
      ensures ok ==> state.evicted == old(state.evicted) - {segment}
      ensures forgery.Some? ==> forgery.value.Holds(state.h)
      ensures ok && forgery.None? && segment !in state.exactDirty ==> Held() == old(Held())
    {
      hide SegmentOk, Runs.Coherent, Resident, TreeOf, LiveCount, SegmentRoot, CleanRoots, Pow2;
      forgery := None;
      if segment >= |compact.roots| {
        return false, None;
      }
      StateCounts(state, segment);
      if columns.Shaped(Pow2(state.logSegment)) {
        TreeRootIsSegmentRoot(state.h, state.logSegment, columns);
      }
      ok := Accepts(state.h, state.logSegment, compact.roots[segment], state.liveCounts[segment], columns);
      if !ok {
        return;
      }
      CleanWithColumns(state.h, compact.roots, Held(), state.exactDirty, segment, columns);
      if segment !in state.exactDirty {
        forgery := ReloadIsAuthentic(state.h, state.logSegment, state.contents[segment], columns);
      }
      state.RestoreEvictedSegment(segment, columns);
      state.RememberTree(segment);
    }

    /** Brings the roots of the listed segments up to date, remembering their trees. */
    method RefreshPass(ids: set<nat>, ghost stale: set<nat>) returns (missing: Option<nat>)
      requires state.Valid() && compact.Valid() && compact.h == state.h && compact.log == state.logSegment
      requires Held().Valid() && CleanRoots(state.h, compact.roots, Held(), stale)
      modifies state`cache, compact`roots, compact`tree
      ensures state.Valid() && compact.Valid()
      ensures missing.None? <==> forall s :: s in ids && s < |state.segments| ==> s !in state.evicted
      ensures missing.Some? ==> missing.value in ids && missing.value in state.evicted
      ensures CleanRoots(state.h, compact.roots, Held(), stale)
      ensures missing.None? ==> CleanRoots(state.h, compact.roots, Held(), stale - ids)
    {
      hide SegmentOk, Runs.Coherent, Resident, SegmentRoot, HashesOver, Pow2;
      for s := 0 to |state.segments|
        invariant state.Valid() && compact.Valid() && |compact.roots| == |state.segments|
        invariant forall k :: 0 <= k < s && k in ids ==> k !in state.evicted
        invariant forall k :: 0 <= k < |compact.roots| && (k !in stale || (k < s && k in ids)) ==>
                    compact.roots[k] == SegmentRoot(state.h, state.logSegment, state.contents[k])
      {
        if s in ids {
          var root := state.ExactSegmentRoot(s);
          if root.None? {
            return Some(s);
          }
          compact.SetSegmentRoot(s, root.value);
        }
      }
      return None;
    }

    /**
     Refreshes the dirty roots, those with a cached tree first, and seals the state; refused while a dirty segment is
     away, and then nothing but caches has changed.
     */
    method TryStateRoot() returns (result: Result<StateHash, TransitionError>)
      requires Valid()
      modifies this`utxoRoot, state`cache, state`exactDirty, compact`roots, compact`tree
      ensures Valid() && Held() == old(Held())
      ensures result.Ok? <==> old(state.exactDirty) !! state.evicted
      ensures result.Ok? ==> Sealed() && result.value == utxoRoot
      ensures result.Err? ==>
                && result.error.EvictedSegment? && result.error.segment in old(state.exactDirty) * state.evicted
                && utxoRoot == old(utxoRoot) && state.exactDirty == old(state.exactDirty)
    {
      hide SegmentOk, Runs.Coherent, Resident, SegmentRoot, HashesOver, Pow2, CleanRoots, MerkleRoot, Layout.Root;
      var dirty := state.exactDirty;
      var hot := set s | s in dirty && state.cache.Get(s).Some?;
      var missing := RefreshPass(hot, dirty);
      if missing.Some? {
        return Err(EvictedSegment(missing.value));
      }
      ghost var left := dirty - hot;
      missing := RefreshPass(dirty - hot, left);
      if missing.Some? {
        StaleAgain(state.h, compact.roots, Held(), left, dirty);
        return Err(EvictedSegment(missing.value));
      }
      assert left - (dirty - hot) == {};
      CleanMeansCurrent(state.h, compact.roots, Held());
      RootOfSegmentRoots(state.h, Held(), compact.roots);
      state.exactDirty := {};
      utxoRoot := compact.Root();
      return Ok(utxoRoot);
    }

    /** One more level of empty slots; the old root becomes the left child. */
    method ExpandOne()
      requires Valid() && Held().Depth() < MAX_LOG_SLOTS
      modifies this`utxoRoot, state, compact
      ensures Valid() && Held() == old(Held()).Doubled() && state.evicted == old(state.evicted)
      ensures utxoRoot == NodeHash(state.h, old(utxoRoot), ZeroRoot(state.h, old(Held()).Depth()))
      ensures state.exactDirty <= old(state.exactDirty) + if old(state.logSegment) < LOG_SEGMENT_SIZE then {0} else {}
      ensures old(state.exactDirty) == {} && old(compact.Root()) == old(utxoRoot) ==> state.exactDirty == {}
      ensures old(Sealed()) ==> Sealed()
    {
      hide SegmentOk, Runs.Coherent, Resident, SegmentRoot, HashesOver, Pow2, CleanRoots, MerkleRoot, Layout.Root,
           ZeroRoot, Padded, GrownRoots, RootsOf;
      ghost var before, dirty := Held(), state.exactDirty;
      var depth := compact.upper + compact.log;
      var current := state.exactDirty == {} && compact.Root() == utxoRoot;
      var zeros := ZeroSlotRoots(state.h, depth);
      GrowthKeepsClean(state.h, compact.roots, before, dirty);
      DoubledRoot(state.h, before);
      SealedIsCurrent();
      state.Expand();
      compact.ExpandOne();
      utxoRoot := NodeHash(state.h, utxoRoot, zeros[depth]);
      assert Held() == before.Doubled();
      StaleAgain(state.h, compact.roots, Held(), dirty, state.exactDirty);
      if current {
        state.exactDirty := {};
      }
    }

    /** The amount a slot holds now; slots past the end are empty. */
    method AmountAt(g: nat) returns (amount: nat)
      requires Valid() && Shr(g, state.logSegment) !in state.evicted
      ensures amount == if g < |AllSlots()| then Amount(AllSlots()[g]) else 0
    {
      hide SegmentOk, Runs.Coherent, Resident, Slots, Shl, Shr, Pow2, CleanRoots, Amount;
      var log := state.logSegment;
      ShlPow2(compact.upper, log);
      if g >= Shl(|state.segments|, log) {
        return 0;
      }
      var segment := Shr(g, log);
      SegmentOfIndex(|state.segments|, log, g);
      SlotsByIndex(state.contents, log, g);
      var slot := state.Slot(segment, g - Shl(segment, log));
      return Amount(slot);
    }

    /** An updated slot is away. */
    ghost predicate SlotAway(updates: seq<SlotWrite>)
      reads state
    {
      exists u :: u in updates && Shr(u.0, state.logSegment) in state.evicted
    }

    /**
     The supply after a list of updates, last write winning; refused if an updated slot is away. It moves by exactly
     what the slots' total moves by and stays below 2^128. Starting from the supply the slots hold, it is refused only
     then, and otherwise the exact total of the updated slots: neither the subtraction nor the addition ever overflows.
     */
    method SupplyAfterSlotUpdates(updates: seq<SlotWrite>) returns (after: Option<nat>)
      requires Valid()
      ensures SlotAway(updates) ==> after.None?
      ensures after.Some? && AllBelow(updates, 2 * |AllSlots()|) ==>
                var grown := Grown(AllSlots());
                after.value + Total(grown) == supply + Total(Overwritten(grown, NetWrites(updates)))
      ensures after.Some? && supply < TWO_128 ==> after.value < TWO_128
      ensures Accounted() && AllBelow(updates, 2 * |AllSlots()|) && !SlotAway(updates) ==>
                after == Some(Total(Overwritten(Grown(AllSlots()), NetWrites(updates))))
    {
      hide SegmentOk, Runs.Coherent, Resident, Shr, Pow2, CleanRoots, NetWrites, Total, Amount, Layout.AllSlots;
      var net := NetWrites(updates);
      ghost var inside := AllBelow(updates, 2 * |AllSlots()|);
      ghost var sound := Accounted() && inside;
      ghost var grown := Grown(AllSlots());
      ghost var current := grown;
      var total: nat, keys := supply, net.Keys;
      GrownTotal(AllSlots(), Held().Depth());
      while keys != {}
        invariant keys <= net.Keys && |current| == |grown| && (sound ==> total == Total(current) < TWO_128)
        invariant (inside ==> total + Total(grown) == supply + Total(current)) && (supply < TWO_128 ==> total < TWO_128)
        invariant forall g :: 0 <= g < |grown| ==> current[g] == if g in net && g !in keys then net[g] else grown[g]
        invariant forall g :: g in net && g !in keys ==> Shr(g, state.logSegment) !in state.evicted
        decreases |keys|
      {
        var g :| g in keys;
        NetKeys(updates, g);
        ghost var u: SlotWrite :| u in updates && u.0 == g;
        if Shr(g, state.logSegment) in state.evicted {
          return None;
        }
        EmptyHasNoAmount();
        if g < |current| {
          TotalAfterWrite(current, g, net[g]);
          current := current[g := net[g]];
          TotalFits(current, Held().Depth() + 1);
        }
        var previous := AmountAt(g);
        if previous > total {
          return None;
        }
        total := total - previous + Amount(net[g]);
        if total >= TWO_128 {
          return None;
        }
        keys := keys - {g};
      }
      assert current == Overwritten(grown, net);
      forall u | u in updates
        ensures Shr(u.0, state.logSegment) !in state.evicted
      {
        NetKeys(updates, u.0);
      }
      return Some(total);
    }

    /** A transition the preview accepts, with the root it was promised, that the state can still grow for. */
    ghost predicate Ready(logSlots: nat, childRoot: StateHash, updates: seq<SlotWrite>)
      requires Valid()
      reads this, state, compact
    {
      && DepthOk(Held().Depth(), logSlots) && logSlots <= MAX_LOG_SLOTS && AllBelow(updates, Pow2(logSlots))
      && utxoRoot == Held().Root(state.h) && Present(state.evicted, state.exactDirty, updates, TargetLog(logSlots))
      && childRoot == SlotsRoot(state.h, logSlots, PreviewedSlots(Held(), logSlots, updates))
    }

    /**
     Commits a proven transition. It succeeds only if the preview does and gives the promised root; then the slots are
     the previewed ones, their plain root is exactly what was previewed, and nothing waits to be hashed. Otherwise
     nothing changes. From an accounted state it succeeds exactly then, and the new supply is the new slots' total.
     */
    method ApplyVerifiedTransition(logSlots: nat, childRoot: StateHash, updates: seq<SlotWrite>)
    returns (result: Result<StateHash, TransitionError>)
      requires Valid()
      modifies this, state, compact
      ensures Valid() && (old(Accounted()) ==> Accounted())
      ensures result.Ok? ==> old(Ready(logSlots, childRoot, updates))
      ensures old(Accounted()) && old(Ready(logSlots, childRoot, updates)) ==> result.Ok?
      ensures old(Accounted()) ==> result != Err(CirculatingSupplyInvariant)
      ensures result.Ok? ==>
                && Sealed() && Held().Depth() == logSlots && result.value == childRoot == utxoRoot
                && AllSlots() == PreviewedSlots(old(Held()), logSlots, updates) && state.evicted == old(state.evicted)
      ensures old(Accounted()) && result.Ok? && Unique(updates) ==>
                supply + Spent(old(AllSlots()), updates) == old(supply) + Created(updates)
      ensures result.Err? ==> unchanged(this) && unchanged(state) && unchanged(compact)
    {
      hide Unique, Spent, Created, SegmentOk, Runs.Coherent, Resident, SegmentRoot, HashesOver, Pow2, CleanRoots,
           MerkleRoot, Layout.Root, ZeroRoot, RootsOf, Shr, NetWrites, Total, Layout.AllSlots, PreviewedSlots,
           Touches, SlotsRoot, Layout.Doubled, GrownRoots;
      result := RootAfterSlotUpdates(state, compact, utxoRoot, logSlots, updates);
      if result.Err? {
        return;
      }
      if result.value != childRoot {
        return Err(CachedRootMismatch);
      }
      var total := PreviewedSupply(logSlots, updates);
      if total.None? {
        return Err(CirculatingSupplyInvariant);
      }
      if logSlots > MAX_LOG_SLOTS {
        return Err(HeaderLogSlotsMismatch);
      }
      PreviewConserves(Held(), logSlots, updates);
      result := Commit(logSlots, updates, total.value);
    }

    /** The supply of the previewed slots; a preview that went through leaves nothing for it to refuse. */
    method PreviewedSupply(logSlots: nat, updates: seq<SlotWrite>) returns (total: Option<nat>)
      requires Valid() && DepthOk(Held().Depth(), logSlots) && AllBelow(updates, Pow2(logSlots))
      requires Present(state.evicted, state.exactDirty, updates, TargetLog(logSlots))
      ensures Accounted() ==> total == Some(Total(PreviewedSlots(Held(), logSlots, updates)))
    {
      hide SegmentOk, Runs.Coherent, Resident, Pow2, CleanRoots, Shr, NetWrites, Total, Layout.AllSlots, Touches;
      PreviewBounds(Held(), logSlots, updates);
      total := SupplyAfterSlotUpdates(updates);
      forall u | u in updates
        ensures Shr(u.0, state.logSegment) !in state.evicted
      {
        InMemory(logSlots, updates, u);
      }
    }

    /** A slot the preview let through is in memory. */
    lemma InMemory(logSlots: nat, updates: seq<SlotWrite>, u: SlotWrite)
      requires Valid() && DepthOk(Held().Depth(), logSlots) && AllBelow(updates, Pow2(logSlots)) && u in updates
      requires Present(state.evicted, state.exactDirty, updates, TargetLog(logSlots))
      ensures Shr(u.0, state.logSegment) !in state.evicted && Shr(u.0, TargetLog(logSlots)) !in state.evicted
    {
      hide SegmentOk, Runs.Coherent, Resident, CleanRoots, NetWrites, Touches, Pow2, Shr;
      var log, target := state.logSegment, TargetLog(logSlots);
      UpdateTouches(updates, u, target);
      assert !Away(state.evicted, state.exactDirty, updates, target, Shr(u.0, target));
      if target != log {
        LoneSegment(u.0, logSlots);
        OneSegment();
      }
    }

    /** Below full segment size there is one segment. */
    lemma OneSegment()
      requires Valid() && state.logSegment < LOG_SEGMENT_SIZE
      ensures |state.segments| == 1
    {
      hide SegmentOk, Runs.Coherent, Resident, CleanRoots;
    }

    /** What waits to be hashed is in memory, and growing adds nothing that is not. */
    lemma DirtyIsInMemory(logSlots: nat, updates: seq<SlotWrite>)
      requires Valid() && utxoRoot == Held().Root(state.h)
      requires Present(state.evicted, state.exactDirty, updates, TargetLog(logSlots))
      ensures state.exactDirty !! state.evicted
      ensures state.exactDirty == {} ==> compact.Root() == utxoRoot
      ensures state.logSegment < LOG_SEGMENT_SIZE ==> state.exactDirty <= {0}
    {
      hide SegmentOk, Runs.Coherent, Resident, CleanRoots, NetWrites, Touches, Pow2, MerkleRoot, Layout.Root;
      forall s | s in state.exactDirty
        ensures s !in state.evicted
      {
        assert !Away(state.evicted, state.exactDirty, updates, TargetLog(logSlots), s);
      }
      SealedIsCurrent();
      if state.logSegment < LOG_SEGMENT_SIZE {
        OneSegment();
      }
    }

    /** Grows the state if the target is one level taller. */
    method GrowTo(logSlots: nat)
      requires Valid() && DepthOk(Held().Depth(), logSlots) && logSlots <= MAX_LOG_SLOTS
      requires state.exactDirty !! state.evicted && (state.exactDirty == {} ==> compact.Root() == utxoRoot)
      requires state.logSegment < LOG_SEGMENT_SIZE ==> state.exactDirty <= {0}
      modifies this`utxoRoot, state, compact
      ensures Valid() && Held().Depth() == logSlots && state.logSegment == TargetLog(logSlots)
      ensures AllSlots() == if logSlots > old(Held().Depth()) then Grown(old(AllSlots())) else old(AllSlots())
      ensures state.evicted == old(state.evicted) && state.exactDirty !! state.evicted
    {
      hide SegmentOk, Runs.Coherent, Resident, SegmentRoot, HashesOver, Pow2, CleanRoots, MerkleRoot, ZeroRoot,
           RootsOf, Layout.AllSlots, Layout.Doubled, GrownRoots, Layout.Root;
      if logSlots > compact.upper + compact.log {
        DoubledSlots(Held());
        ExpandOne();
      }
    }

    /** The second half of a commit: grow if asked, write, refresh. */
    method Commit(logSlots: nat, updates: seq<SlotWrite>, total: nat)
    returns (result: Result<StateHash, TransitionError>)
      requires Valid() && DepthOk(Held().Depth(), logSlots) && logSlots <= MAX_LOG_SLOTS
      requires AllBelow(updates, Pow2(logSlots)) && utxoRoot == Held().Root(state.h)
      requires Present(state.evicted, state.exactDirty, updates, TargetLog(logSlots))
      modifies this, state, compact
      ensures Valid() && supply == total && Sealed() && Held().Depth() == logSlots
              && state.evicted == old(state.evicted)
      ensures AllSlots() == PreviewedSlots(old(Held()), logSlots, updates)
      ensures result == Ok(utxoRoot) && utxoRoot == SlotsRoot(state.h, logSlots, AllSlots())
    {
      hide SegmentOk, Runs.Coherent, Resident, SegmentRoot, HashesOver, Pow2, CleanRoots, MerkleRoot, ZeroRoot,
           RootsOf, Shr, NetWrites, Total, Layout.AllSlots, Touches, Layout.Doubled, GrownRoots, SlotsRoot;
      forall u | u in updates
        ensures Shr(u.0, state.logSegment) !in state.evicted && Shr(u.0, TargetLog(logSlots)) !in state.evicted
      {
        InMemory(logSlots, updates, u);
      }
      DirtyIsInMemory(logSlots, updates);
      GrowTo(logSlots);
      var ok := ApplyDelta(updates);
      assert ok;
      result := TryStateRoot();
      supply := total;
    }

    /**
     Puts back the slots of an undo log, newest entry first, and the supply with them; entries past the end are skipped.
     Refused, with nothing changed, while one of its slots is away.
     */
    method RevertBlock(changes: seq<SlotWrite>) returns (ok: bool)
      requires Valid()
      modifies this`supply, state
      ensures Valid() && Held().Depth() == old(Held().Depth()) && state.evicted == old(state.evicted)
      ensures old(Accounted()) && AllBelow(changes, 2 * |old(AllSlots())|) ==> (ok <==> !old(SlotAway(changes)))
      ensures AllSlots() == if ok then Overwritten(old(AllSlots()), NetWrites(Restored(changes, |old(AllSlots())|)))
                            else old(AllSlots())
      ensures old(Accounted()) && Tidy(changes, |old(AllSlots())|) ==> Accounted()
      ensures old(state.exactDirty) !! state.evicted ==> state.exactDirty !! state.evicted
      ensures !ok ==> unchanged(this) && unchanged(state)
    {
      hide SegmentOk, Runs.Coherent, Resident, Pow2, CleanRoots, Shr, NetWrites, Total, Layout.AllSlots, Restored, Tidy;
      var total := SupplyAfterSlotUpdates(changes);
      if total.None? {
        return false;
      }
      ghost var slots := AllSlots();
      RestoredInRange(changes, |slots|);
      TidyTotal(slots, changes);
      var count := NumSlots();
      ok := ApplyDelta(Restored(changes, count));
      supply := total.value;
    }

    function NumSlots(): (count: nat)
      requires Valid()
      reads this, state, compact
      ensures count == |AllSlots()|
    {
      Pow2(compact.upper + compact.log)
    }

    lemma SealedIsCurrent()
      requires Valid()
      ensures Sealed() ==> compact.Root() == utxoRoot
    {
      if Sealed() {
        CleanMeansCurrent(state.h, compact.roots, Held());
        RootOfSegmentRoots(state.h, Held(), compact.roots);
      }
    }
  }

  // ---------------------------------------------------------------------
  // Undo entries
  // ---------------------------------------------------------------------

  /** The entries inside the state, last one first. */
  function Restored(changes: seq<SlotWrite>, count: nat): seq<SlotWrite> {
    if changes == [] then []
    else
      var last := changes[|changes| - 1];
      (if last.0 < count then [last] else []) + Restored(changes[..|changes| - 1], count)
  }

  lemma {:induction false} RestoredInRange(changes: seq<SlotWrite>, count: nat)
    ensures forall c :: c in Restored(changes, count) <==> c in changes && c.0 < count
  {
    if changes != [] {
      var n := |changes| - 1;
      RestoredInRange(changes[..n], count);
      assert changes == changes[..n] + [changes[n]];
    }
  }

  /** No slot is listed twice, and entries past the end hold nothing. */
  ghost predicate Tidy(changes: seq<SlotWrite>, count: nat) {
    && Unique(changes)
    && forall c :: c in changes ==> c.0 < 2 * count && (c.0 >= count ==> Amount(c.1) == 0)
  }

  ghost predicate Unique(changes: seq<SlotWrite>) {
    forall i, j :: 0 <= i < j < |changes| ==> changes[i].0 != changes[j].0
  }

  /** Without repetition, order does not matter: the net effect is the list read as a map. */
  lemma {:induction false} NetOfUnique(changes: seq<SlotWrite>, c: SlotWrite)
    requires Unique(changes)
    ensures c.0 in NetWrites(changes) && NetWrites(changes)[c.0] == c.1 <==> c in changes
  {
    if changes != [] {
      var n := |changes| - 1;
      var front, last := changes[..n], changes[n];
      assert changes == front + [last];
      NetOfUnique(front, c);
      assert forall i :: 0 <= i < n ==> front[i].0 == changes[i].0 != last.0;
    }
  }

  lemma {:induction false} RestoredUnique(changes: seq<SlotWrite>, count: nat)
    requires Unique(changes)
    ensures Unique(Restored(changes, count))
  {
    if changes != [] {
      var n := |changes| - 1;
      var front, last := changes[..n], changes[n];
      RestoredUnique(front, count);
      RestoredInRange(front, count);
      var rest := Restored(front, count);
      forall i | 0 <= i < |rest|
        ensures rest[i].0 != last.0
      {
        assert rest[i] in rest;
        var k :| 0 <= k < n && front[k] == rest[i];
        assert changes[k].0 != changes[n].0;
      }
    }
  }

  /** Putting a unique list back, in whichever order, writes exactly its entries inside the state. */
  lemma RestoredNet(changes: seq<SlotWrite>, count: nat, g: nat)
    requires Unique(changes) && g < count
    ensures g in NetWrites(Restored(changes, count)) <==> g in NetWrites(changes)
    ensures g in NetWrites(changes) ==> NetWrites(Restored(changes, count))[g] == NetWrites(changes)[g]
  {
    hide NetWrites, Restored;
    RestoredInRange(changes, count);
    RestoredUnique(changes, count);
    if g in NetWrites(changes) {
      var c := (g, NetWrites(changes)[g]);
      NetOfUnique(changes, c);
      NetOfUnique(Restored(changes, count), c);
    }
    NetKeys(changes, g);
    NetKeys(Restored(changes, count), g);
  }

  /** The supply computed from the whole list is the total of the slots that were put back. */
  lemma TidyTotal(slots: seq<SlotValue>, changes: seq<SlotWrite>)
    ensures Tidy(changes, |slots|) ==>
              && AllBelow(changes, 2 * |slots|)
              && Total(Overwritten(Grown(slots), NetWrites(changes)))
                 == Total(Overwritten(slots, NetWrites(Restored(changes, |slots|))))
  {
    hide Total, Restored, NetWrites, Amount;
    if Tidy(changes, |slots|) {
      var n, net := |slots|, NetWrites(changes);
      var all, low := Overwritten(Grown(slots), net), Overwritten(slots, NetWrites(Restored(changes, n)));
      forall g | 0 <= g < n
        ensures all[g] == low[g]
      {
        RestoredNet(changes, n, g);
      }
      EmptyHasNoAmount();
      forall g | n <= g < 2 * n
        ensures Amount(all[g]) == 0
      {
        if g in net {
          NetOfUnique(changes, (g, net[g]));
        }
      }
      assert all[..n] == low;
      ZeroTail(all, n);
    }
  }

  lemma {:induction false} ZeroTail(slots: seq<SlotValue>, n: nat)
    requires n <= |slots| && forall g :: n <= g < |slots| ==> Amount(slots[g]) == 0
    ensures Total(slots) == Total(slots[..n])
    decreases |slots|
  {
    hide Amount;
    if n < |slots| {
      var front := slots[..|slots| - 1];
      ZeroTail(front, n);
      assert front[..n] == slots[..n];
    } else {
      assert slots[..n] == slots;
    }
  }

  lemma EmptyHasNoAmount()
    ensures Amount(EMPTY) == 0
  {
  }

  lemma GrownTotal(slots: seq<SlotValue>, depth: nat)
    requires |slots| == Pow2(depth) && depth <= MAX_LOG_SLOTS
    ensures Total(Grown(slots)) == Total(slots) < TWO_128 && |Grown(slots)| == Pow2(depth + 1)
  {
    hide Total;
    TotalAppendEmpty(slots, |slots|);
    TotalFits(slots, depth);
  }

  lemma LoneSegment(g: nat, log: nat)
    requires g < Pow2(log)
    ensures Shr(g, log) == 0
  {
    ShlPow2(0, log);
    SegmentOfIndex(1, log, g);
  }

  /** The grown vector, overwritten, totals what the previewed one does. */
  lemma PreviewBounds(layout: Layout, logSlots: nat, updates: seq<SlotWrite>)
    requires layout.Valid() && DepthOk(layout.Depth(), logSlots) && AllBelow(updates, Pow2(logSlots))
    ensures AllBelow(updates, 2 * |layout.AllSlots()|)
    ensures Total(Overwritten(Grown(layout.AllSlots()), NetWrites(updates)))
         == Total(PreviewedSlots(layout, logSlots, updates))
  {
    hide NetWrites, Total, Layout.AllSlots;
    var slots, net := layout.AllSlots(), NetWrites(updates);
    if logSlots == layout.Depth() {
      forall g | g in net
        ensures g < |slots|
      {
        NetKeys(updates, g);
      }
      OverwrittenGrows(slots, net);
      TotalAppendEmpty(Overwritten(slots, net), |slots|);
    }
  }

  /** A previewed transition moves the total by what its updates create, less what they spend. */
  lemma PreviewConserves(layout: Layout, logSlots: nat, updates: seq<SlotWrite>)
    requires layout.Valid() && DepthOk(layout.Depth(), logSlots) && AllBelow(updates, Pow2(logSlots))
    ensures Unique(updates) ==>
              Total(PreviewedSlots(layout, logSlots, updates)) + Spent(layout.AllSlots(), updates)
              == Total(layout.AllSlots()) + Created(updates)
  {
    hide NetWrites, Total, Layout.AllSlots, Spent, Created, Unique, Overwritten;
    if Unique(updates) {
      var slots := layout.AllSlots();
      PreviewBounds(layout, logSlots, updates);
      TotalAfterUpdates(Grown(slots), updates);
      SpentOfGrown(slots, updates);
      TotalAppendEmpty(slots, |slots|);
    }
  }

  lemma RootsAreClean(h: Hasher, roots: seq<StateHash>, layout: Layout)
    requires layout.Valid() && RootsOf(h, roots, layout)
    ensures CleanRoots(h, roots, layout, {})
  {
    hide SegmentRoot;
  }

  /** Marking more segments dirty loses nothing. */
  lemma StaleAgain(h: Hasher, roots: seq<StateHash>, layout: Layout, few: set<nat>, many: set<nat>)
    requires layout.Valid() && CleanRoots(h, roots, layout, few) && few <= many
    ensures CleanRoots(h, roots, layout, many)
  {
    hide SegmentRoot;
  }

  /** Columns that hash to a segment's compact root leave every clean root current. */
  lemma CleanWithColumns(h: Hasher, roots: seq<StateHash>, layout: Layout, dirty: set<nat>, segment: nat,
                         columns: SegmentColumns)
    requires layout.Valid() && CleanRoots(h, roots, layout, dirty) && segment < |roots|
             && columns.Shaped(Pow2(layout.log))
    requires roots[segment] == SegmentRoot(h, layout.log, columns)
    ensures segment < |layout.contents|
    ensures var after := layout.(contents := layout.contents[segment := columns]);
            after.Valid() && CleanRoots(h, roots, after, dirty)
    ensures segment !in dirty ==> roots[segment] == SegmentRoot(h, layout.log, layout.contents[segment])
  {
    hide SegmentRoot, Pow2;
  }

  /** What a valid state says about one segment. */
  lemma StateCounts(state: SegmentedState, segment: nat)
    requires state.Valid() && segment < |state.segments|
    ensures state.contents[segment].Shaped(Pow2(state.logSegment))
    ensures state.liveCounts[segment] == LiveCount(state.contents[segment], Pow2(state.logSegment))
  {
    hide Runs.Coherent, Resident, LiveCount;
    assert SegmentOk(Pow2(state.logSegment), state.segments[segment], state.liveCounts[segment],
                     segment in state.evicted, state.contents[segment]);
  }
}
