/** The segmented slot state: resident columns, evicted segments, and the cache kept in step with both. */
module SegmentedState {
  import opened Options
  import opened Powers
  import opened StateHashing
  import opened NodeArrays
  import opened SegmentTree
  import opened SegmentOverlay
  import opened StreamingRoot
  import opened SegmentCacheModel
  import opened StateLayout
  import Runs = SegmentCacheRuns

  /** Live slots among the first `n`. */
  function LiveCount(columns: SegmentColumns, n: nat): (live: nat)
    requires columns.Shaped(|columns.values|) && n <= |columns.values|
    ensures live <= n
  {
    if n == 0 then 0 else LiveCount(columns, n - 1) + (if columns.SlotAt(n - 1).IsEmpty() then 0 else 1)
  }

  /** The count is the number of slots that are not empty. */
  lemma {:induction false} LiveCountIsCardinality(columns: SegmentColumns, n: nat)
    requires columns.Shaped(|columns.values|) && n <= |columns.values|
    ensures LiveCount(columns, n) == |set i | 0 <= i < n && columns.SlotAt(i) != SlotValue(0, 0, 0)|
  {
    if n > 0 {
      LiveCountIsCardinality(columns, n - 1);
      var before := set i | 0 <= i < n - 1 && columns.SlotAt(i) != SlotValue(0, 0, 0);
      var after := set i | 0 <= i < n && columns.SlotAt(i) != SlotValue(0, 0, 0);
      assert after == if columns.SlotAt(n - 1) != SlotValue(0, 0, 0) then before + {n - 1} else before;
    }
  }

  /** A segment with no live slot is the zero segment. */
  lemma {:induction false} NoLiveSlots(columns: SegmentColumns, n: nat)
    requires columns.Shaped(|columns.values|) && n <= |columns.values| && LiveCount(columns, n) == 0
    ensures forall i :: 0 <= i < n ==> columns.SlotAt(i) == EMPTY
  {
    if n > 0 {
      NoLiveSlots(columns, n - 1);
    }
  }

  lemma {:induction false} ZeroHasNoLiveSlots(columns: SegmentColumns, n: nat)
    requires columns.Shaped(|columns.values|) && n <= |columns.values|
    requires forall i :: 0 <= i < n ==> columns.SlotAt(i) == EMPTY
    ensures LiveCount(columns, n) == 0
  {
    if n > 0 {
      ZeroHasNoLiveSlots(columns, n - 1);
    }
  }

  function Weight(slot: SlotValue): nat {
    if slot.IsEmpty() then 0 else 1
  }

  lemma {:induction false} WriteMovesLiveCount(columns: SegmentColumns, local: nat, value: SlotValue, n: nat)
    requires columns.Shaped(|columns.values|) && local < |columns.values| && n <= |columns.values|
    ensures LiveCount(columns.WithSlot(local, value), n)
         == if local < n then LiveCount(columns, n) + Weight(value) - Weight(columns.SlotAt(local))
            else LiveCount(columns, n)
  {
    if n > 0 {
      WriteMovesLiveCount(columns, local, value, n - 1);
    }
  }

  lemma {:induction false} PaddingIsNotLive(columns: SegmentColumns, size: nat, n: nat)
    requires columns.Shaped(size) && n <= 2 * size
    ensures LiveCount(Padded(columns, size), n) == LiveCount(columns, if n < size then n else size)
  {
    if n > 0 {
      PaddingIsNotLive(columns, size, n - 1);
    }
  }

  lemma UnchangedWrite(columns: SegmentColumns, local: nat, value: SlotValue)
    requires columns.Shaped(|columns.values|) && local < |columns.values| && columns.SlotAt(local) == value
    ensures columns.WithSlot(local, value) == columns
  {
  }

  lemma UnchangedWriteIs(columns: SegmentColumns, local: nat, value: SlotValue)
    requires columns.Shaped(|columns.values|) && local < |columns.values|
    ensures columns.SlotAt(local) == value ==> columns.WithSlot(local, value) == columns
  {
    if columns.SlotAt(local) == value {
      UnchangedWrite(columns, local, value);
    }
  }

  lemma OverwrittenNone(slots: seq<SlotValue>)
    ensures Overwritten(slots, NetWrites([])) == slots
  {
  }

  /** A segment is resident, evicted, or the zero segment; its live count is exact. */
  ghost predicate SegmentOk(size: nat, resident: Option<SegmentColumns>, live: nat, evicted: bool,
                            contents: SegmentColumns)
  {
    && contents.Shaped(size)
    && live == LiveCount(contents, size)
    && match resident
       case Some(columns) => !evicted && columns == contents
       case None => evicted || contents == ZeroColumns(size)
  }

  /** Resident columns after a write: the segment is dropped once its last live slot is gone. */
  function AfterWrite(size: nat, resident: Option<SegmentColumns>, live: nat, local: nat, value: SlotValue)
    : Option<SegmentColumns>
    requires resident.Some? ==> resident.value.Shaped(size)
    requires local < size
  {
    if live == 0 then None
    else
      var columns := match resident case None => ZeroColumns(size) case Some(columns) => columns;
      Some(columns.WithSlot(local, value))
  }

  lemma WriteKeepsSegmentOk(size: nat, resident: Option<SegmentColumns>, live: nat, contents: SegmentColumns,
                            local: nat, value: SlotValue)
    requires SegmentOk(size, resident, live, false, contents) && local < size
    ensures live + Weight(value) >= Weight(contents.SlotAt(local))
    ensures var after := live + Weight(value) - Weight(contents.SlotAt(local));
            SegmentOk(size, AfterWrite(size, resident, after, local, value), after, false,
                      contents.WithSlot(local, value))
  {
    WriteMovesLiveCount(contents, local, value, size);
    var after := contents.WithSlot(local, value);
    if LiveCount(after, size) == 0 {
      NoLiveSlots(after, size);
      ColumnsFromSlots(after, ZeroColumns(size), size);
    }
  }

  /** The resident segments, as the cache's runs see them. */
  ghost function Resident(log: nat, segments: seq<Option<SegmentColumns>>): map<nat, Runs.Segment> {
    map i | 0 <= i < |segments| && segments[i].Some? :: Runs.Segment(log, segments[i].value)
  }

  /** Entries that survive over unchanged columns stay coherent. */
  lemma SurvivorsStayCoherent(h: Hasher, log: nat, before: seq<Option<SegmentColumns>>,
                              after: seq<Option<SegmentColumns>>, cache: Cache<TreeValue>, survivors: Cache<TreeValue>)
    requires Runs.Coherent(h, Runs.World(cache, Resident(log, before))) && survivors.Valid()
    requires forall i :: 0 <= i < |after| && after[i].Some? ==> after[i].value.Shaped(Pow2(log))
    requires forall e :: e in survivors.entries ==>
               e in cache.entries && e.id < |before| && e.id < |after| && before[e.id] == after[e.id]
    ensures Runs.Coherent(h, Runs.World(survivors, Resident(log, after)))
  {
    var was, now := Resident(log, before), Resident(log, after);
    forall e | e in survivors.entries
      ensures e.id in now && now[e.id].Valid() && e == Runs.EntryOf(h, e.id, now[e.id])
    {
      assert e.id in was && e == Runs.EntryOf(h, e.id, was[e.id]);
      assert now[e.id] == was[e.id];
    }
  }

  lemma DropKeepsCoherent(h: Hasher, log: nat, segments: seq<Option<SegmentColumns>>, cache: Cache<TreeValue>, id: nat)
    requires Runs.Coherent(h, Runs.World(cache, Resident(log, segments))) && id < |segments|
    ensures Runs.Coherent(h, Runs.World(cache.Remove(id), Resident(log, segments[id := None])))
  {
    Runs.RemoveKeepsMembers(cache, id);
    ResidentShaped(h, log, segments, cache);
    SurvivorsStayCoherent(h, log, segments, segments[id := None], cache, cache.Remove(id));
  }

  lemma ResidentShaped(h: Hasher, log: nat, segments: seq<Option<SegmentColumns>>, cache: Cache<TreeValue>)
    requires Runs.Coherent(h, Runs.World(cache, Resident(log, segments)))
    ensures forall i :: 0 <= i < |segments| && segments[i].Some? ==> segments[i].value.Shaped(Pow2(log))
    ensures forall e :: e in cache.entries ==> e.id < |segments| && segments[e.id].Some?
  {
    var resident := Resident(log, segments);
    forall i | 0 <= i < |segments| && segments[i].Some?
      ensures segments[i].value.Shaped(Pow2(log))
    {
      assert i in resident && resident[i].Valid();
    }
  }

  /** A segment that is not resident is not cached either. */
  lemma VirtualIsUncached(h: Hasher, log: nat, segments: seq<Option<SegmentColumns>>, cache: Cache<TreeValue>, id: nat)
    requires Runs.Coherent(h, Runs.World(cache, Resident(log, segments)))
    requires id < |segments| && segments[id].None?
    ensures Position(cache.entries, id) == |cache.entries|
    ensures forall e :: e in cache.entries ==> e.id != id
  {
    hide Runs.EntryOf;
    ResidentShaped(h, log, segments, cache);
  }

  lemma MaterialiseKeepsCoherent(h: Hasher, log: nat, segments: seq<Option<SegmentColumns>>, cache: Cache<TreeValue>,
                                 id: nat, columns: SegmentColumns)
    requires Runs.Coherent(h, Runs.World(cache, Resident(log, segments)))
    requires id < |segments| && segments[id].None? && columns.Shaped(Pow2(log))
    ensures Runs.Coherent(h, Runs.World(cache, Resident(log, segments[id := Some(columns)])))
  {
    ResidentShaped(h, log, segments, cache);
    VirtualIsUncached(h, log, segments, cache, id);
    SurvivorsStayCoherent(h, log, segments, segments[id := Some(columns)], cache, cache);
  }

  /** Replacing a segment's columns once its tree is dropped. */
  lemma RestoreKeepsCoherent(h: Hasher, log: nat, segments: seq<Option<SegmentColumns>>, cache: Cache<TreeValue>,
                             id: nat, after: Option<SegmentColumns>)
    requires Runs.Coherent(h, Runs.World(cache, Resident(log, segments))) && id < |segments|
    requires after.Some? ==> after.value.Shaped(Pow2(log))
    ensures cache.Valid() && Runs.Coherent(h, Runs.World(cache.Remove(id), Resident(log, segments[id := after])))
  {
    hide Resident;
    DropKeepsCoherent(h, log, segments, cache, id);
    var dropped := segments[id := None];
    if after.Some? {
      MaterialiseKeepsCoherent(h, log, dropped, cache.Remove(id), id, after.value);
      assert dropped[id := after] == segments[id := after];
    }
  }

  lemma FirstIsIn<T>(xs: seq<T>)
    ensures xs == [] || xs[0] in xs
  {
  }

  /** With its one tree dropped, a lone segment can change size. */
  lemma GrowthKeepsCoherent(h: Hasher, log: nat, segments: seq<Option<SegmentColumns>>, cache: Cache<TreeValue>,
                            grown: Option<SegmentColumns>)
    requires Runs.Coherent(h, Runs.World(cache, Resident(log, segments))) && |segments| == 1
    requires grown.Some? ==> grown.value.Shaped(Pow2(log + 1))
    ensures cache.Valid() && Runs.Coherent(h, Runs.World(cache.Remove(0), Resident(log + 1, [grown])))
  {
    ResidentShaped(h, log, segments, cache);
    Runs.RemoveKeepsMembers(cache, 0);
    FirstIsIn(cache.Remove(0).entries);
  }

  lemma ResidentOfNone(log: nat, segments: seq<Option<SegmentColumns>>, count: nat)
    ensures Resident(log, segments + Repeated(None, count)) == Resident(log, segments)
  {
  }

  lemma ResidentWriteKeepsCoherent(h: Hasher, log: nat, segments: seq<Option<SegmentColumns>>, cache: Cache<TreeValue>,
                                   id: nat, local: nat, value: SlotValue, columns: SegmentColumns)
    requires Runs.Coherent(h, Runs.World(cache, Resident(log, segments)))
    requires id < |segments| && local < Pow2(log) && columns.Shaped(Pow2(log)) && segments[id] == Some(columns)
    ensures Runs.Writable(cache, id, local)
    ensures Runs.Coherent(h, Runs.World(Runs.UpdateSlot(h, cache, id, local, value),
                                        Resident(log, segments[id := Some(columns.WithSlot(local, value))])))
  {
    hide Runs.Coherent;
    var w := Runs.World(cache, Resident(log, segments));
    Runs.WritableWhenCoherent(h, w, id, local);
    Runs.WriteKeepsCoherent(h, w, id, local, value);
    assert Resident(log, segments[id := Some(columns.WithSlot(local, value))])
        == w.segments[id := Runs.Segment(log, columns.WithSlot(local, value))];
  }

  lemma WriteKeepsCoherent(h: Hasher, log: nat, segments: seq<Option<SegmentColumns>>, cache: Cache<TreeValue>,
                           id: nat, local: nat, value: SlotValue, columns: SegmentColumns)
    requires Runs.Coherent(h, Runs.World(cache, Resident(log, segments)))
    requires id < |segments| && local < Pow2(log) && columns.Shaped(Pow2(log))
    requires segments[id].Some? ==> segments[id].value == columns
    ensures Runs.Writable(cache, id, local)
    ensures Runs.Coherent(h, Runs.World(Runs.UpdateSlot(h, cache, id, local, value),
                                        Resident(log, segments[id := Some(columns.WithSlot(local, value))])))
  {
    hide Resident;
    if segments[id].Some? {
      ResidentWriteKeepsCoherent(h, log, segments, cache, id, local, value, columns);
    } else {
      VirtualIsUncached(h, log, segments, cache, id);
      MaterialiseKeepsCoherent(h, log, segments, cache, id, columns.WithSlot(local, value));
    }
  }

  /** A write that leaves no live slot drops segment and tree together; any other goes through to both. */
  lemma CacheFollowsWrite(h: Hasher, log: nat, segments: seq<Option<SegmentColumns>>, cache: Cache<TreeValue>, id: nat,
                          before: nat, contents: SegmentColumns, local: nat, value: SlotValue, live: nat)
    requires Runs.Coherent(h, Runs.World(cache, Resident(log, segments)))
    requires id < |segments| && SegmentOk(Pow2(log), segments[id], before, false, contents) && local < Pow2(log)
    ensures cache.Valid() && (live != 0 ==> Runs.Writable(cache, id, local))
    ensures var after := segments[id := AfterWrite(Pow2(log), segments[id], live, local, value)];
            var kept := if live == 0 then cache.Remove(id) else Runs.UpdateSlot(h, cache, id, local, value);
            Runs.Coherent(h, Runs.World(kept, Resident(log, after)))
  {
    hide Resident, LiveCount, Runs.UpdateSlot;
    if live == 0 {
      DropKeepsCoherent(h, log, segments, cache, id);
    } else {
      WriteKeepsCoherent(h, log, segments, cache, id, local, value, contents);
    }
  }

  /** Remembering a freshly built tree of a resident segment. */
  lemma RememberKeepsCoherent(h: Hasher, log: nat, segments: seq<Option<SegmentColumns>>, cache: Cache<TreeValue>,
                              id: nat, columns: SegmentColumns)
    requires Runs.Coherent(h, Runs.World(cache, Resident(log, segments)))
    requires id < |segments| && segments[id] == Some(columns) && columns.Shaped(Pow2(log))
    ensures var entry := Runs.EntryOf(h, id, Runs.Segment(log, columns));
            Runs.Coherent(h, Runs.World(cache.Insert(entry), Resident(log, segments)))
  {
    hide Runs.Coherent, Runs.EntryOf;
    var w := Runs.World(cache, Resident(log, segments));
    assert w.segments[id] == Runs.Segment(log, columns);
    Runs.StepKeepsCoherent(h, w, Runs.Remember(id));
  }

  lemma CoherentIsValid(h: Hasher, log: nat, segments: seq<Option<SegmentColumns>>, cache: Cache<TreeValue>)
    requires Runs.Coherent(h, Runs.World(cache, Resident(log, segments)))
    ensures cache.Valid()
  {
  }

  /** A cached tree of a resident segment is the tree of that segment's columns. */
  lemma CachedIsCurrent(h: Hasher, log: nat, segments: seq<Option<SegmentColumns>>, cache: Cache<TreeValue>, id: nat)
    requires Runs.Coherent(h, Runs.World(cache, Resident(log, segments))) && cache.Get(id).Some?
    ensures id < |segments| && segments[id].Some? && segments[id].value.Shaped(Pow2(log))
    ensures cache.Get(id).value == TreeOf(h, log, segments[id].value)
  {
    hide TreeOf;
    var entries, resident := cache.entries, Resident(log, segments);
    var e := entries[Position(entries, id)];
    assert e in entries && e.id in resident && resident[id].Valid();
  }

  /** The root a segment's contents commit to. */
  ghost function SegmentRoot(h: Hasher, log: nat, contents: SegmentColumns): StateHash
    requires contents.Shaped(Pow2(log))
  {
    MerkleRoot(h, log, contents.Leaves(h))
  }

  lemma TreeRootIsSegmentRoot(h: Hasher, log: nat, contents: SegmentColumns)
    requires contents.Shaped(Pow2(log))
    ensures TreeOf(h, log, contents).Root() == SegmentRoot(h, log, contents)
  {
    var tree := TreeOf(h, log, contents);
    RootIsMerkleRoot(h, tree.nodes, tree.Leaves(), log);
  }

  lemma ZeroSegmentRoot(h: Hasher, log: nat)
    ensures SegmentRoot(h, log, ZeroColumns(Pow2(log))) == ZeroRoot(h, log)
  {
    ZeroRootIsRootOfEmptySlots(h, ZeroColumns(Pow2(log)).Leaves(h), log, 0);
  }

  /** What a preview streams is what the contents hold once the updates are written. */
  lemma PreviewIsUpdated(h: Hasher, size: nat, resident: Option<SegmentColumns>, contents: SegmentColumns,
                         updates: map<nat, SlotValue>)
    requires contents.Shaped(size)
    requires resident == Some(contents) || (resident.None? && contents == ZeroColumns(size))
    ensures PreviewLeaves(h, size, resident, updates) == Updated(contents, updates).Leaves(h)
  {
    var after := Updated(contents, updates);
    forall i | 0 <= i < size
      ensures PreviewSlot(resident, updates, i) == after.SlotAt(i)
    {
    }
  }

  lemma NoUpdates(columns: SegmentColumns)
    requires columns.Shaped(|columns.values|)
    ensures Updated(columns, map[]) == columns
  {
  }

  lemma StreamIsSegmentRoot(h: Hasher, log: nat, resident: Option<SegmentColumns>, contents: SegmentColumns)
    requires contents.Shaped(Pow2(log))
    requires resident == Some(contents) || (resident.None? && contents == ZeroColumns(Pow2(log)))
    ensures MerkleRoot(h, log, PreviewLeaves(h, Pow2(log), resident, map[])) == SegmentRoot(h, log, contents)
  {
    PreviewIsUpdated(h, Pow2(log), resident, contents, map[]);
    NoUpdates(contents);
  }

  class SegmentedState {
    const h: Hasher
    var logSegment: nat
    var segments: seq<Option<SegmentColumns>>
    var liveCounts: seq<nat>
    var evicted: set<nat>
    var exactDirty: set<nat>
    var cache: Cache<TreeValue>
    /** What every segment holds, resident or not. */
    ghost var contents: seq<SegmentColumns>

    ghost predicate Valid()
      reads this
    {
      && |contents| == |segments| == |liveCounts|
      && (forall i :: 0 <= i < |contents| ==>
            SegmentOk(Pow2(logSegment), segments[i], liveCounts[i], i in evicted, contents[i]))
      && Runs.Coherent(h, Runs.World(cache, Resident(logSegment, segments)))
      && (forall s :: s in evicted || s in exactDirty ==> s < |segments|)
    }

    constructor (h: Hasher, logSegment: nat, count: nat, budget: nat)
      ensures Valid() && this.h == h && this.logSegment == logSegment && evicted == {} && exactDirty == {}
      ensures contents == seq(count, _ => ZeroColumns(Pow2(logSegment))) && cache == Cache([], 0, budget)
    {
      this.h := h;
      this.logSegment := logSegment;
      segments := seq(count, _ => None);
      liveCounts := seq(count, _ => 0);
      evicted := {};
      exactDirty := {};
      cache := Cache([], 0, budget);
      contents := seq(count, _ => ZeroColumns(Pow2(logSegment)));
      new;
      ZeroHasNoLiveSlots(ZeroColumns(Pow2(logSegment)), Pow2(logSegment));
    }

    /** One slot; virtual zero segments read as empty. */
    function Slot(segment: nat, local: nat): (slot: SlotValue)
      requires Valid() && segment < |segments| && segment !in evicted && local < Pow2(logSegment)
      reads this
      ensures slot == contents[segment].SlotAt(local)
    {
      match segments[segment]
      case None => EMPTY
      case Some(columns) => columns.SlotAt(local)
    }

    /** Writes one slot and keeps columns, live count and cached tree in step. */
    method WriteSlot(segment: nat, local: nat, value: SlotValue)
      requires Valid() && segment < |segments| && segment !in evicted && local < Pow2(logSegment)
      modifies this
      ensures Valid() && |segments| == |old(segments)| && evicted == old(evicted) && logSegment == old(logSegment)
      ensures contents == old(contents)[segment := old(contents)[segment].WithSlot(local, value)]
      ensures exactDirty == if old(contents)[segment].SlotAt(local) == value then old(exactDirty)
                            else old(exactDirty) + {segment}
    {
      hide Runs.Coherent, Resident, LiveCount, AfterWrite, Runs.UpdateSlot;
      var before := Slot(segment, local);
      if before == value {
        UnchangedWrite(contents[segment], local, value);
        return;
      }
      var size := Pow2(logSegment);
      var resident := segments[segment];
      WriteKeepsSegmentOk(size, resident, liveCounts[segment], contents[segment], local, value);
      var live := liveCounts[segment] + Weight(value) - Weight(before);
      var after := AfterWrite(size, resident, live, local, value);
      CacheFollowsWrite(h, logSegment, segments, cache, segment, liveCounts[segment], contents[segment], local, value,
                        live);
      if live == 0 {
        cache := cache.Remove(segment);
      } else {
        cache := Runs.UpdateSlot(h, cache, segment, local, value);
      }
      segments := segments[segment := after];
      liveCounts := liveCounts[segment := live];
      contents := contents[segment := contents[segment].WithSlot(local, value)];
      exactDirty := exactDirty + {segment};
    }

    method InRange(deltas: seq<SlotWrite>) returns (ok: bool)
      ensures ok <==> forall d :: d in deltas ==> d.0 < Shl(|segments|, logSegment)
    {
      for i := 0 to |deltas|
        invariant forall d :: d in deltas[..i] ==> d.0 < Shl(|segments|, logSegment)
      {
        if deltas[i].0 >= Shl(|segments|, logSegment) {
          assert deltas[i] in deltas;
          return false;
        }
      }
      assert deltas[..|deltas|] == deltas;
      return true;
    }

    /** The whole state as one vector of slots. */
    ghost function AllSlots(): seq<SlotValue>
      requires Valid()
      reads this
    {
      Slots(contents, Pow2(logSegment))
    }

    /**
     Applies a batch of slot writes by global index, in order; one index out of range leaves everything unchanged.
     The last write to an index wins.
     */
    method ApplyDelta(deltas: seq<SlotWrite>) returns (ok: bool)
      requires Valid() && forall d :: d in deltas ==> Shr(d.0, logSegment) !in evicted
      modifies this
      ensures Valid() && |segments| == |old(segments)| && evicted == old(evicted) && logSegment == old(logSegment)
      ensures ok <==> forall d :: d in deltas ==> d.0 < Shl(|old(segments)|, logSegment)
      ensures ok ==> AllSlots() == Overwritten(old(AllSlots()), NetWrites(deltas))
      ensures ok ==> forall s :: 0 <= s < |contents| && s !in exactDirty ==> contents[s] == old(contents)[s]
      ensures ok ==> old(exactDirty) <= exactDirty
      ensures ok ==> forall s :: s in exactDirty ==>
                s in old(exactDirty) || exists d :: d in deltas && Shr(d.0, logSegment) == s
      ensures !ok ==> unchanged(this)
    {
      hide Runs.Coherent, Resident, Slots, Shl, Shr, Pow2, NetWrites, SegmentOk;
      ok := InRange(deltas);
      if !ok {
        return;
      }
      OverwrittenNone(AllSlots());
      assert deltas[..0] == [];
      for i := 0 to |deltas|
        invariant Valid() && |segments| == |old(segments)| && evicted == old(evicted) && logSegment == old(logSegment)
        invariant AllSlots() == Overwritten(old(AllSlots()), NetWrites(deltas[..i]))
        invariant forall s :: 0 <= s < |contents| && s !in exactDirty ==> contents[s] == old(contents)[s]
        invariant old(exactDirty) <= exactDirty
        invariant forall s :: s in exactDirty ==>
                    s in old(exactDirty) || exists d :: d in deltas && Shr(d.0, logSegment) == s
      {
        assert deltas[i] in deltas;
        assert deltas[..i + 1] == deltas[..i] + [deltas[i]];
        WriteGlobal(deltas[i]);
        OverwrittenNext(old(AllSlots()), deltas[..i], deltas[i]);
      }
      assert deltas[..|deltas|] == deltas;
    }

    /** Writes one slot by its global index. */
    method WriteGlobal(delta: SlotWrite)
      requires Valid() && delta.0 < Shl(|segments|, logSegment) && Shr(delta.0, logSegment) !in evicted
      modifies this
      ensures Valid() && |segments| == |old(segments)| && evicted == old(evicted) && logSegment == old(logSegment)
      ensures delta.0 < |old(AllSlots())| && AllSlots() == old(AllSlots())[delta.0 := delta.1]
      ensures exactDirty == old(exactDirty) || exactDirty == old(exactDirty) + {Shr(delta.0, logSegment)}
      ensures forall s :: 0 <= s < |contents| && s !in exactDirty ==> contents[s] == old(contents)[s]
      ensures |old(AllSlots())| == Shl(|segments|, logSegment)
    {
      hide Runs.Coherent, Resident, Slots, Shl, Shr, Pow2, SegmentOk;
      var segment := Shr(delta.0, logSegment);
      SegmentOfIndex(|segments|, logSegment, delta.0);
      var local := delta.0 - Shl(segment, logSegment);
      ContentsShaped();
      SlotsCount(contents, logSegment);
      SlotsAfterWrite(contents, logSegment, segment, local, delta.1);
      UnchangedWriteIs(contents[segment], local, delta.1);
      WriteSlot(segment, local, delta.1);
    }

    lemma ContentsShaped()
      requires Valid()
      ensures StateLayout.AllShaped(contents, Pow2(logSegment))
    {
      hide Runs.Coherent, Resident, LiveCount;
    }

    /** The root of a segment: cached, zero, or built and remembered; refused while the columns are away. */
    method ExactSegmentRoot(segment: nat) returns (root: Option<StateHash>)
      requires Valid() && segment < |segments|
      modifies this`cache
      ensures Valid()
      ensures root == if segment in evicted then None else Some(SegmentRoot(h, logSegment, contents[segment]))
      ensures cache == if segment in evicted || old(cache).Get(segment).Some? then old(cache)
                       else old(WithTree(segment))
    {
      if segment in evicted {
        return None;
      }
      TreeRootIsSegmentRoot(h, logSegment, contents[segment]);
      var cached := cache.Get(segment);
      if cached.Some? {
        CachedIsCurrent(h, logSegment, segments, cache, segment);
        return Some(cached.value.Root());
      }
      if segments[segment].None? {
        ZeroSegmentRoot(h, logSegment);
        var zeros := ZeroSlotRoots(h, logSegment);
        return Some(zeros[logSegment]);
      }
      var columns := segments[segment].value;
      root := Some(TreeOf(h, logSegment, columns).Root());
      if liveCounts[segment] != 0 {
        RememberKeepsCoherent(h, logSegment, segments, cache, segment, columns);
        cache := cache.Insert(Runs.EntryOf(h, segment, Runs.Segment(logSegment, columns)));
      }
    }

    /** The cache with the segment's tree put in, if the segment is in memory and not empty. */
    ghost function WithTree(segment: nat): Cache<TreeValue>
      requires Valid() && segment < |segments|
      reads this
    {
      if liveCounts[segment] == 0 || segments[segment].None? then cache
      else cache.Insert(Runs.EntryOf(h, segment, Runs.Segment(logSegment, segments[segment].value)))
    }

    method RememberTree(segment: nat)
      requires Valid() && segment < |segments|
      modifies this`cache
      ensures Valid() && cache == old(WithTree(segment))
    {
      hide Runs.Coherent, Resident, LiveCount, TreeOf;
      assert SegmentOk(Pow2(logSegment), segments[segment], liveCounts[segment], segment in evicted, contents[segment]);
      if liveCounts[segment] != 0 && segments[segment].Some? {
        var columns := segments[segment].value;
        RememberKeepsCoherent(h, logSegment, segments, cache, segment, columns);
        CoherentIsValid(h, logSegment, segments, cache);
        cache := cache.Insert(Runs.EntryOf(h, segment, Runs.Segment(logSegment, columns)));
      }
    }

    /** The root of a segment in memory, read without remembering anything. */
    method CurrentSegmentRoot(segment: nat) returns (root: StateHash)
      requires Valid() && segment < |segments| && segment !in evicted
      ensures root == SegmentRoot(h, logSegment, contents[segment])
    {
      hide Runs.Coherent, Resident, LiveCount, SegmentRoot, TreeOf, PreviewLeaves;
      var cached := cache.Get(segment);
      if cached.Some? {
        CachedIsCurrent(h, logSegment, segments, cache, segment);
        TreeRootIsSegmentRoot(h, logSegment, contents[segment]);
        return cached.value.Root();
      }
      StreamIsSegmentRoot(h, logSegment, segments[segment], contents[segment]);
      root := StreamedSegmentRoot(h, logSegment, segments[segment], map[]);
    }

    /** The root a segment would have after `updates`: overlaid on the cached tree, or streamed without one. */
    method PreviewSegmentRoot(segment: nat, updates: map<nat, SlotValue>) returns (root: StateHash)
      requires Valid() && segment < |segments| && segment !in evicted
      requires forall local :: local in updates ==> local < Pow2(logSegment)
      ensures root == SegmentRoot(h, logSegment, Updated(contents[segment], updates))
    {
      var cached := cache.Get(segment);
      if cached.Some? {
        CachedIsCurrent(h, logSegment, segments, cache, segment);
        OverlayIsRebuild(h, logSegment, contents[segment], updates);
        return RootWithUpdates(h, cached.value, updates);
      }
      PreviewIsUpdated(h, Pow2(logSegment), segments[segment], contents[segment], updates);
      root := StreamedSegmentRoot(h, logSegment, segments[segment], updates);
    }

    /** Drops a segment's columns and tree; what it holds and commits to stays as it was. */
    method EvictSegment(segment: nat)
      requires Valid() && segment < |segments|
      modifies this
      ensures Valid() && contents == old(contents) && |segments| == |old(segments)| && exactDirty == old(exactDirty)
      ensures logSegment == old(logSegment)
      ensures evicted == old(evicted) + if old(segments)[segment].Some? then {segment} else {}
      ensures segments == old(segments)[segment := None] && liveCounts == old(liveCounts)
      ensures cache == old(cache).Remove(segment)
    {
      hide Runs.Coherent, Resident, LiveCount;
      RestoreKeepsCoherent(h, logSegment, segments, cache, segment, None);
      cache := cache.Remove(segment);
      if segments[segment].Some? {
        segments := segments[segment := None];
        evicted := evicted + {segment};
      } else {
        assert segments[segment := None] == segments;
      }
    }

    /** Installs a segment's columns, whatever they hold; the count of live slots is taken from them. */
    method RestoreEvictedSegment(segment: nat, columns: SegmentColumns)
      requires Valid() && segment < |segments| && columns.Shaped(Pow2(logSegment))
      modifies this
      ensures Valid() && |segments| == |old(segments)| && exactDirty == old(exactDirty) && logSegment == old(logSegment)
      ensures contents == old(contents)[segment := columns] && evicted == old(evicted) - {segment}
      ensures liveCounts == old(liveCounts)[segment := LiveCount(columns, Pow2(logSegment))]
    {
      hide Runs.Coherent, Resident, LiveCount;
      var size := Pow2(logSegment);
      var live := LiveCount(columns, size);
      var after := if live == 0 then None else Some(columns);
      RestoreKeepsCoherent(h, logSegment, segments, cache, segment, after);
      if live == 0 {
        NoLiveSlots(columns, size);
        ColumnsFromSlots(columns, ZeroColumns(size), size);
      }
      cache := cache.Remove(segment);
      segments := segments[segment := after];
      liveCounts := liveCounts[segment := live];
      contents := contents[segment := columns];
      evicted := evicted - {segment};
    }

    /**
     One more level of slots, all empty: below full segment size the one segment grows and is marked, at full size the
     number of segments doubles.
     */
    method Expand()
      requires Valid() && logSegment <= LOG_SEGMENT_SIZE && (logSegment < LOG_SEGMENT_SIZE ==> |segments| == 1)
      modifies this
      ensures Valid() && evicted == old(evicted)
      ensures old(logSegment) < LOG_SEGMENT_SIZE ==>
                && logSegment == old(logSegment) + 1 && contents == [Padded(old(contents)[0], Pow2(old(logSegment)))]
                && exactDirty == old(exactDirty) + {0}
      ensures old(logSegment) == LOG_SEGMENT_SIZE ==>
                && logSegment == old(logSegment) && exactDirty == old(exactDirty)
                && contents == old(contents) + Repeated(ZeroColumns(Pow2(logSegment)), |old(contents)|)
    {
      if logSegment < LOG_SEGMENT_SIZE {
        GrowSegment();
      } else {
        DoubleSegments();
      }
    }

    method GrowSegment()
      requires Valid() && |segments| == 1
      modifies this
      ensures Valid() && evicted == old(evicted) && logSegment == old(logSegment) + 1
      ensures contents == [Padded(old(contents)[0], Pow2(old(logSegment)))] && exactDirty == old(exactDirty) + {0}
    {
      hide Runs.Coherent, Resident, LiveCount;
      var size := Pow2(logSegment);
      assert SegmentOk(size, segments[0], liveCounts[0], 0 in evicted, contents[0]);
      PaddingIsNotLive(contents[0], size, 2 * size);
      ColumnsFromSlots(Padded(ZeroColumns(size), size), ZeroColumns(2 * size), 2 * size);
      var grown := match segments[0] case None => None case Some(columns) => Some(Padded(columns, size));
      GrowthKeepsCoherent(h, logSegment, segments, cache, grown);
      cache := cache.Remove(0);
      segments := [grown];
      contents := [Padded(contents[0], size)];
      logSegment := logSegment + 1;
      exactDirty := exactDirty + {0};
    }

    method DoubleSegments()
      requires Valid()
      modifies this
      ensures Valid() && evicted == old(evicted) && logSegment == old(logSegment) && exactDirty == old(exactDirty)
      ensures contents == old(contents) + Repeated(ZeroColumns(Pow2(logSegment)), |old(contents)|)
    {
      hide Runs.Coherent, Resident, LiveCount;
      var size, count := Pow2(logSegment), |segments|;
      ZeroHasNoLiveSlots(ZeroColumns(size), size);
      assert Resident(logSegment, segments + Repeated(None, count)) == Resident(logSegment, segments) by {
        ResidentOfNone(logSegment, segments, count);
      }
      segments := segments + Repeated(None, count);
      liveCounts := liveCounts + Repeated(0, count);
      contents := contents + Repeated(ZeroColumns(size), count);
    }

    /** Keeps in memory only what the cache covers: no tree is lost, no content or commitment changes. */
    method EvictColdSegments()
      requires Valid() && exactDirty == {}
      modifies this
      ensures Valid() && contents == old(contents) && cache == old(cache) && |segments| == |old(segments)|
      ensures logSegment == old(logSegment) && exactDirty == {}
      ensures forall i :: 0 <= i < |segments| ==>
                segments[i] == if old(liveCounts)[i] != 0 && old(cache).Get(i).None? then None else old(segments)[i]
    {
      hide Runs.Coherent, Resident, SegmentOk;
      for id := 0 to |segments|
        invariant Valid() && contents == old(contents) && cache == old(cache)
        invariant logSegment == old(logSegment) && exactDirty == {}
        invariant |segments| == |old(segments)| && liveCounts == old(liveCounts)
        invariant forall i :: id <= i < |segments| ==> segments[i] == old(segments)[i]
        invariant forall i :: 0 <= i < id ==>
                    segments[i] == if liveCounts[i] != 0 && cache.Get(i).None? then None else old(segments)[i]
      {
        if segments[id].Some? && liveCounts[id] != 0 && cache.Get(id).None? {
          EvictSegment(id);
        }
      }
    }
  }
}
