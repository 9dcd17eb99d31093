/** The state as one vector of slots, cut into segments of a power-of-two size. */
module StateLayout {
  import opened Powers
  import opened StateHashing
  import opened SegmentTree
  import opened SegmentOverlay

  function Repeated<T>(x: T, n: nat): (xs: seq<T>)
    ensures |xs| == n && forall i :: 0 <= i < n ==> xs[i] == x
  {
    seq(n, _ => x)
  }

  function ZeroColumns(size: nat): (columns: SegmentColumns)
    ensures columns.Shaped(size) && forall i :: 0 <= i < size ==> columns.SlotAt(i) == EMPTY
  {
    SegmentColumns(Repeated(0, size), Repeated(0, size), Repeated(0, size))
  }

  lemma ColumnsFromSlots(a: SegmentColumns, b: SegmentColumns, size: nat)
    requires a.Shaped(size) && b.Shaped(size) && forall i :: 0 <= i < size ==> a.SlotAt(i) == b.SlotAt(i)
    ensures a == b
  {
    forall i | 0 <= i < size
      ensures a.values[i] == b.values[i] && a.ownersHi[i] == b.ownersHi[i] && a.ownersLo[i] == b.ownersLo[i]
    {
      assert a.SlotAt(i) == b.SlotAt(i);
    }
  }

  /** A segment followed by as many empty slots. */
  function Padded(columns: SegmentColumns, size: nat): (padded: SegmentColumns)
    requires columns.Shaped(size)
    ensures padded.Shaped(2 * size)
    ensures forall i :: 0 <= i < 2 * size ==> padded.SlotAt(i) == if i < size then columns.SlotAt(i) else EMPTY
  {
    var zero := Repeated(0, size);
    SegmentColumns(columns.values + zero, columns.ownersHi + zero, columns.ownersLo + zero)
  }

  // ---------------------------------------------------------------------
  // One vector of slots
  // ---------------------------------------------------------------------

  function LeafHashes(h: Hasher, slots: seq<SlotValue>): (leaves: seq<StateHash>)
    ensures |leaves| == |slots| && forall i :: 0 <= i < |slots| ==> leaves[i] == h.leaf(slots[i])
  {
    seq(|slots|, i requires 0 <= i < |slots| => LeafHash(h, slots[i]))
  }

  ghost predicate AllShaped(contents: seq<SegmentColumns>, size: nat) {
    forall k :: 0 <= k < |contents| ==> contents[k].Shaped(size)
  }

  ghost function SegmentSlots(columns: SegmentColumns, size: nat): (slots: seq<SlotValue>)
    requires columns.Shaped(size)
    ensures |slots| == size && forall i :: 0 <= i < size ==> slots[i] == columns.SlotAt(i)
  {
    seq(size, i requires 0 <= i < size => columns.SlotAt(i))
  }

  /** Every slot of a run of segments, in order. */
  ghost function Slots(contents: seq<SegmentColumns>, size: nat): seq<SlotValue>
    requires AllShaped(contents, size)
  {
    if contents == [] then []
    else Slots(contents[..|contents| - 1], size) + SegmentSlots(contents[|contents| - 1], size)
  }

  /** The global index of a segment's slot. */
  function SlotIndex(segment: nat, log: nat, local: nat): nat {
    Shl(segment, log) + local
  }

  lemma BlockFits(index: nat, blocks: nat, log: nat)
    requires index < blocks
    ensures Shl(index, log) + Pow2(log) <= Shl(blocks, log)
  {
    ShlNext(index, log);
    ShlAdds(index + 1, blocks - (index + 1), log);
  }

  lemma {:induction false} SlotsCount(contents: seq<SegmentColumns>, log: nat)
    requires AllShaped(contents, Pow2(log))
    ensures |Slots(contents, Pow2(log))| == Shl(|contents|, log)
  {
    if contents == [] {
      ShlZero(log);
    } else {
      SlotsCount(contents[..|contents| - 1], log);
      ShlNext(|contents| - 1, log);
    }
  }

  lemma {:induction false} SlotsAt(contents: seq<SegmentColumns>, log: nat, s: nat, local: nat)
    requires AllShaped(contents, Pow2(log)) && s < |contents| && local < Pow2(log)
    ensures SlotIndex(s, log, local) < |Slots(contents, Pow2(log))|
    ensures Slots(contents, Pow2(log))[SlotIndex(s, log, local)] == contents[s].SlotAt(local)
  {
    hide Pow2, Shl;
    var n := |contents| - 1;
    var front := contents[..n];
    SlotsCount(contents, log);
    SlotsCount(front, log);
    BlockFits(s, |contents|, log);
    if s < n {
      SlotsAt(front, log, s, local);
      assert front[s] == contents[s];
    }
  }

  /** Every index of the state is a slot of one of its segments. */
  lemma SegmentOfIndex(blocks: nat, log: nat, g: nat)
    requires g < Shl(blocks, log)
    ensures Shl(Shr(g, log), log) <= g && Shr(g, log) < blocks && g - Shl(Shr(g, log), log) < Pow2(log)
  {
    hide Pow2, Shl, Shr;
    ShrBlock(g, log);
    var s := Shr(g, log);
    if s >= blocks {
      ShlAdds(blocks, s - blocks, log);
    }
  }

  /** No index belongs to two segments. */
  lemma SegmentIsUnique(log: nat, s: nat, local: nat)
    requires local < Pow2(log)
    ensures Shr(SlotIndex(s, log, local), log) == s
  {
    hide Pow2, Shl, Shr;
    var g := SlotIndex(s, log, local);
    ShrBlock(g, log);
    var t := Shr(g, log);
    if t < s {
      BlockFits(t, s, log);
    } else if s < t {
      BlockFits(s, t, log);
    }
  }

  /** Index `g` of a run of segments, read through the segment it belongs to. */
  ghost function SlotOf(contents: seq<SegmentColumns>, log: nat, g: nat): SlotValue
    requires AllShaped(contents, Pow2(log)) && g < Shl(|contents|, log)
  {
    SegmentOfIndex(|contents|, log, g);
    contents[Shr(g, log)].SlotAt(g - Shl(Shr(g, log), log))
  }

  lemma SlotsByIndex(contents: seq<SegmentColumns>, log: nat, g: nat)
    requires AllShaped(contents, Pow2(log)) && g < Shl(|contents|, log)
    ensures |Slots(contents, Pow2(log))| == Shl(|contents|, log)
    ensures Slots(contents, Pow2(log))[g] == SlotOf(contents, log, g)
  {
    hide Pow2, Shl, Shr, Slots;
    SlotsCount(contents, log);
    SegmentOfIndex(|contents|, log, g);
    SlotsAt(contents, log, Shr(g, log), g - Shl(Shr(g, log), log));
  }

  /** A vector that agrees index by index is the segments' slots. */
  lemma SlotsFromIndices(contents: seq<SegmentColumns>, log: nat, slots: seq<SlotValue>)
    requires AllShaped(contents, Pow2(log)) && |slots| == Shl(|contents|, log)
    requires forall g :: 0 <= g < |slots| ==> slots[g] == SlotOf(contents, log, g)
    ensures Slots(contents, Pow2(log)) == slots
  {
    hide Pow2, Shl, Slots, SlotOf;
    SlotsCount(contents, log);
    forall g | 0 <= g < |slots|
      ensures Slots(contents, Pow2(log))[g] == slots[g]
    {
      SlotsByIndex(contents, log, g);
    }
  }

  /** Writing one slot of one segment writes that one index of the state. */
  lemma SlotsAfterWrite(contents: seq<SegmentColumns>, log: nat, s: nat, local: nat, value: SlotValue)
    requires AllShaped(contents, Pow2(log)) && s < |contents| && local < Pow2(log)
    ensures AllShaped(contents[s := contents[s].WithSlot(local, value)], Pow2(log))
    ensures SlotIndex(s, log, local) < |Slots(contents, Pow2(log))|
    ensures Slots(contents[s := contents[s].WithSlot(local, value)], Pow2(log))
         == Slots(contents, Pow2(log))[SlotIndex(s, log, local) := value]
  {
    hide Pow2, Shl, Slots, SlotOf;
    var after, at := contents[s := contents[s].WithSlot(local, value)], SlotIndex(s, log, local);
    SlotsCount(contents, log);
    SlotsAt(contents, log, s, local);
    var slots := Slots(contents, Pow2(log))[at := value];
    forall g | 0 <= g < |slots|
      ensures slots[g] == SlotOf(after, log, g)
    {
      SlotsByIndex(contents, log, g);
      WriteMovesOneSlot(contents, log, s, local, value, g);
    }
    SlotsFromIndices(after, log, slots);
  }

  lemma WriteMovesOneSlot(contents: seq<SegmentColumns>, log: nat, s: nat, local: nat, value: SlotValue, g: nat)
    requires AllShaped(contents, Pow2(log)) && s < |contents| && local < Pow2(log) && g < Shl(|contents|, log)
    ensures SlotOf(contents[s := contents[s].WithSlot(local, value)], log, g)
         == if g == SlotIndex(s, log, local) then value else SlotOf(contents, log, g)
  {
    hide Pow2, Shl, Shr;
    SegmentOfIndex(|contents|, log, g);
    SegmentIsUnique(log, s, local);
  }

  // ---------------------------------------------------------------------
  // Updates by global index
  // ---------------------------------------------------------------------

  /** An updated slot holds its update, every other slot what it held. */
  function Overwritten(slots: seq<SlotValue>, updates: map<nat, SlotValue>): (after: seq<SlotValue>)
    ensures |after| == |slots|
    ensures forall g :: 0 <= g < |slots| ==> after[g] == if g in updates then updates[g] else slots[g]
  {
    seq(|slots|, g requires 0 <= g < |slots| => if g in updates then updates[g] else slots[g])
  }

  lemma {:induction false} NetKeys(updates: seq<SlotWrite>, g: nat)
    ensures g in NetWrites(updates) <==> exists u :: u in updates && u.0 == g
  {
    if updates != [] {
      var front, last := updates[..|updates| - 1], updates[|updates| - 1];
      NetKeys(front, g);
      assert updates == front + [last];
      assert last in updates;
    }
  }

  lemma OverwrittenNext(slots: seq<SlotValue>, updates: seq<SlotWrite>, last: SlotWrite)
    requires last.0 < |slots|
    ensures Overwritten(slots, NetWrites(updates + [last])) == Overwritten(slots, NetWrites(updates))[last.0 := last.1]
  {
    assert (updates + [last])[..|updates|] == updates;
  }

  // ---------------------------------------------------------------------
  // Layouts
  // ---------------------------------------------------------------------

  /** Segments, their size, and the number of levels above them. */
  datatype Layout = Layout(contents: seq<SegmentColumns>, log: nat, upper: nat) {
    ghost predicate Valid() {
      && |contents| == Pow2(upper) && AllShaped(contents, Pow2(log))
      && log <= LOG_SEGMENT_SIZE && (upper > 0 ==> log == LOG_SEGMENT_SIZE)
    }

    /** Levels of the whole tree. */
    function Depth(): nat {
      upper + log
    }

    ghost function AllSlots(): (slots: seq<SlotValue>)
      requires Valid()
      ensures |slots| == Pow2(Depth())
    {
      SlotsCount(contents, log);
      ShlPow2(upper, log);
      Slots(contents, Pow2(log))
    }

    /** The root of every slot of the state. */
    ghost function Root(h: Hasher): StateHash
      requires Valid()
    {
      SlotsRoot(h, Depth(), AllSlots())
    }

    /** Doubled: one segment grows until it is full size, then the number of segments doubles. */
    ghost function Doubled(): (doubled: Layout)
      requires Valid()
      ensures doubled.Valid() && doubled.Depth() == Depth() + 1
    {
      if log < LOG_SEGMENT_SIZE then Layout([Padded(contents[0], Pow2(log))], log + 1, 0)
      else Layout(contents + Repeated(ZeroColumns(Pow2(log)), |contents|), log, upper + 1)
    }
  }

  /** The plain recursive root over a vector of slots. */
  ghost function SlotsRoot(h: Hasher, depth: nat, slots: seq<SlotValue>): StateHash
    requires |slots| == Pow2(depth)
  {
    MerkleRoot(h, depth, LeafHashes(h, slots))
  }

  /** As many empty slots again. */
  function Grown(slots: seq<SlotValue>): (grown: seq<SlotValue>)
    ensures |grown| == 2 * |slots|
  {
    slots + Repeated(EMPTY, |slots|)
  }

  /** Doubling a layout appends empty slots, whichever way the segments change. */
  lemma DoubledSlots(layout: Layout)
    requires layout.Valid()
    ensures layout.Doubled().AllSlots() == Grown(layout.AllSlots())
  {
    hide Pow2;
    if layout.log < LOG_SEGMENT_SIZE {
      SinglePaddedSlots(layout);
    } else {
      AppendedSlots(layout.contents, layout.log, |layout.contents|);
      SlotsCount(layout.contents, layout.log);
    }
  }

  lemma SinglePaddedSlots(layout: Layout)
    requires layout.Valid() && layout.log < LOG_SEGMENT_SIZE
    ensures layout.Doubled().AllSlots() == Grown(layout.AllSlots())
  {
    var size := Pow2(layout.log);
    var columns := layout.contents[0];
    assert layout.contents == [columns] && layout.contents[..0] == [];
    assert Slots(layout.contents, size) == SegmentSlots(columns, size);
    var padded := Padded(columns, size);
    assert Pow2(layout.log + 1) == 2 * size;
    assert [padded][..0] == [];
    assert Slots([padded], 2 * size) == SegmentSlots(padded, 2 * size);
    assert SegmentSlots(padded, 2 * size) == Grown(SegmentSlots(columns, size));
  }

  lemma SlotsAppend(contents: seq<SegmentColumns>, last: SegmentColumns, size: nat)
    requires AllShaped(contents, size) && last.Shaped(size)
    ensures AllShaped(contents + [last], size)
    ensures Slots(contents + [last], size) == Slots(contents, size) + SegmentSlots(last, size)
  {
    assert (contents + [last])[..|contents|] == contents;
  }

  lemma RepeatedAdds<T>(x: T, n: nat, m: nat)
    ensures Repeated(x, n + m) == Repeated(x, n) + Repeated(x, m)
  {
  }

  lemma {:induction false} AppendedSlots(contents: seq<SegmentColumns>, log: nat, n: nat)
    requires AllShaped(contents, Pow2(log))
    ensures AllShaped(contents + Repeated(ZeroColumns(Pow2(log)), n), Pow2(log))
    ensures Slots(contents + Repeated(ZeroColumns(Pow2(log)), n), Pow2(log))
         == Slots(contents, Pow2(log)) + Repeated(EMPTY, Shl(n, log))
    decreases n
  {
    hide Pow2, Shl, Slots;
    var zero := ZeroColumns(Pow2(log));
    if n == 0 {
      ShlZero(log);
      assert contents + Repeated(zero, 0) == contents;
    } else {
      AppendedSlots(contents, log, n - 1);
      var front := contents + Repeated(zero, n - 1);
      assert contents + Repeated(zero, n) == front + [zero];
      SlotsAppend(front, zero, Pow2(log));
      ShlNext(n - 1, log);
      assert SegmentSlots(zero, Pow2(log)) == Repeated(EMPTY, Pow2(log));
      RepeatedAdds(EMPTY, Shl(n - 1, log), Pow2(log));
    }
  }

  // ---------------------------------------------------------------------
  // Updates segment by segment
  // ---------------------------------------------------------------------

  /** The updates that fall into one segment, by local slot. */
  function Local(updates: map<nat, SlotValue>, log: nat, segment: nat): (local: map<nat, SlotValue>)
    ensures forall i: nat :: i in local <==> i < Pow2(log) && SlotIndex(segment, log, i) in updates
    ensures forall i :: i in local ==> local[i] == updates[SlotIndex(segment, log, i)]
  {
    map i: nat | i < Pow2(log) && SlotIndex(segment, log, i) in updates :: updates[SlotIndex(segment, log, i)]
  }

  /** The layout with every update written, one segment after the other. */
  ghost function WrittenLayout(layout: Layout, updates: map<nat, SlotValue>): (written: Layout)
    requires layout.Valid()
    ensures written.Valid() && written.log == layout.log && written.upper == layout.upper
    ensures |written.contents| == |layout.contents|
    ensures forall s :: 0 <= s < |layout.contents| ==>
              written.contents[s] == Updated(layout.contents[s], Local(updates, layout.log, s))
  {
    layout.(contents := seq(|layout.contents|, s requires 0 <= s < |layout.contents| =>
      assert layout.contents[s].Shaped(Pow2(layout.log));
      Updated(layout.contents[s], Local(updates, layout.log, s))))
  }

  /** Grouping updates by segment loses none and moves none: the slot vector is overwritten index by index. */
  lemma EverySlotIsWritten(layout: Layout, updates: map<nat, SlotValue>)
    requires layout.Valid()
    ensures WrittenLayout(layout, updates).AllSlots() == Overwritten(layout.AllSlots(), updates)
  {
    hide Pow2, Shl, Slots, SlotOf, Updated, Local;
    var log, contents, written := layout.log, layout.contents, WrittenLayout(layout, updates).contents;
    SlotsCount(contents, log);
    var slots := Overwritten(Slots(contents, Pow2(log)), updates);
    forall g | 0 <= g < |slots|
      ensures slots[g] == SlotOf(written, log, g)
    {
      SlotsByIndex(contents, log, g);
      UpdateMovesOwnSlot(layout, updates, g);
    }
    SlotsFromIndices(written, log, slots);
  }

  lemma UpdateMovesOwnSlot(layout: Layout, updates: map<nat, SlotValue>, g: nat)
    requires layout.Valid() && g < Shl(|layout.contents|, layout.log)
    ensures SlotOf(WrittenLayout(layout, updates).contents, layout.log, g)
         == if g in updates then updates[g] else SlotOf(layout.contents, layout.log, g)
  {
    hide Pow2, Shl, Shr, WrittenLayout;
    var log := layout.log;
    var s := Shr(g, log);
    SegmentOfIndex(|layout.contents|, log, g);
    assert SlotIndex(s, log, g - Shl(s, log)) == g;
  }
}
