/** Previewing updates over a cached tree without touching it, and why every way of updating agrees. */
module SegmentOverlay {
  import opened Powers
  import opened StateHashing
  import opened NodeArrays
  import opened SegmentTree

  /** A changed leaf: local slot index and new leaf hash. */
  type LeafUpdate = (nat, StateHash)

  /** Length of the leading run of updates below `bound`. */
  function PartitionPoint(updates: seq<LeafUpdate>, bound: nat): (split: nat)
    ensures split <= |updates|
  {
    if updates == [] || updates[0].0 >= bound then 0 else 1 + PartitionPoint(updates[1..], bound)
  }

  /** Rehashes only the union of changed paths below `node`, which covers `width` slots from `start`. */
  function OverlayRoot(h: Hasher, nodes: seq<StateHash>, ghost level: nat, node: nat, start: nat, width: nat,
                       updates: seq<LeafUpdate>): StateHash
    requires Covers(|nodes| / 2, level, node, start) && width == Pow2(level)
    decreases level
  {
    if updates == [] then nodes[node]
    else if width == 1 then updates[0].1
    else
      var half := width / 2;
      var split := PartitionPoint(updates, start + half);
      NodeHash(h, OverlayRoot(h, nodes, level - 1, 2 * node, start, half, updates[..split]),
               OverlayRoot(h, nodes, level - 1, 2 * node + 1, start + half, half, updates[split..]))
  }

  /** An ordered map's entries with keys in `low..high`, in key order, as leaf updates. */
  function InKeyOrder(h: Hasher, updates: map<nat, SlotValue>, low: nat, high: nat): (leaves: seq<LeafUpdate>)
    decreases high - low
  {
    if low >= high then []
    else if low in updates then [(low, LeafHash(h, updates[low]))] + InKeyOrder(h, updates, low + 1, high)
    else InKeyOrder(h, updates, low + 1, high)
  }

  function RootWithUpdates(h: Hasher, tree: TreeValue, updates: map<nat, SlotValue>): StateHash
    requires tree.Sized() && forall local :: local in updates ==> local < Pow2(tree.logSlots)
  {
    RootCovers(tree.logSlots);
    OverlayRoot(h, tree.nodes, tree.logSlots, 1, 0, Pow2(tree.logSlots), InKeyOrder(h, updates, 0, Pow2(tree.logSlots)))
  }

  // ---------------------------------------------------------------------
  // The overlay computes the recursive root of the updated slots
  // ---------------------------------------------------------------------

  /** Entries in key order split at any bound, which is where the partition point finds it. */
  lemma {:induction false} InKeyOrderSplits(h: Hasher, updates: map<nat, SlotValue>, low: nat, mid: nat, high: nat)
    requires low <= mid <= high
    ensures InKeyOrder(h, updates, low, high) == InKeyOrder(h, updates, low, mid) + InKeyOrder(h, updates, mid, high)
    ensures PartitionPoint(InKeyOrder(h, updates, low, high), mid) == |InKeyOrder(h, updates, low, mid)|
    decreases mid - low
  {
    if low == mid {
      FirstKeyAtLeast(h, updates, mid, high);
    } else {
      InKeyOrderSplits(h, updates, low + 1, mid, high);
      if low in updates {
        var all := InKeyOrder(h, updates, low, high);
        assert all[1..] == InKeyOrder(h, updates, low + 1, high);
      }
    }
  }

  lemma {:induction false} FirstKeyAtLeast(h: Hasher, updates: map<nat, SlotValue>, low: nat, high: nat)
    ensures InKeyOrder(h, updates, low, high) != [] ==> InKeyOrder(h, updates, low, high)[0].0 >= low
    ensures InKeyOrder(h, updates, low, high) == [] ==> forall i :: low <= i < high ==> i !in updates
    decreases high - low
  {
    if low < high && low !in updates {
      FirstKeyAtLeast(h, updates, low + 1, high);
    }
  }

  /** `after` is `before` with the updates written. */
  ghost predicate Overwrites(h: Hasher, updates: map<nat, SlotValue>, before: seq<StateHash>, after: seq<StateHash>) {
    && |before| == |after|
    && forall i :: 0 <= i < |after| ==> after[i] == if i in updates then LeafHash(h, updates[i]) else before[i]
  }

  /** If both halves of a split update list overlay to their range roots, so does the whole list. */
  lemma OverlayCombines(h: Hasher, nodes: seq<StateHash>, level: nat, node: nat, start: nat, width: nat, half: nat,
                        below: seq<LeafUpdate>, above: seq<LeafUpdate>, left: StateHash, right: StateHash)
    requires level > 0 && Covers(|nodes| / 2, level, node, start) && width == half + half == Pow2(level)
    requires below + above != [] && PartitionPoint(below + above, start + half) == |below|
    requires left == OverlayRoot(h, nodes, level - 1, 2 * node, start, half, below)
    requires right == OverlayRoot(h, nodes, level - 1, 2 * node + 1, start + half, half, above)
    ensures OverlayRoot(h, nodes, level, node, start, width, below + above) == NodeHash(h, left, right)
  {
    hide PartitionPoint;
    var pending := below + above;
    assert pending[..|below|] == below && pending[|below|..] == above;
  }

  /** Where the overlay stops: an untouched subtree, or a single rewritten slot. */
  lemma OverlayStops(h: Hasher, nodes: seq<StateHash>, leaves: seq<StateHash>, level: nat, node: nat, start: nat,
                     updates: map<nat, SlotValue>, pending: seq<LeafUpdate>, after: seq<StateHash>)
    requires IsTreeOver(h, nodes, leaves) && Overwrites(h, updates, leaves, after)
    requires Covers(|leaves|, level, node, start) && start + Pow2(level) <= |after|
    requires pending == InKeyOrder(h, updates, start, start + Pow2(level))
    requires pending == [] || level == 0
    ensures OverlayRoot(h, nodes, level, node, start, Pow2(level), pending) == RangeRoot(h, after, level, start)
  {
    FirstKeyAtLeast(h, updates, start, start + Pow2(level));
    if pending == [] {
      NodeIsRangeRoot(h, nodes, leaves, level, node, start);
      RangeRootIsLocal(h, after, leaves, level, start);
    } else {
      assert pending == [(start, after[start])];
    }
  }

  lemma {:induction false} OverlayIsRangeRoot(
      h: Hasher, nodes: seq<StateHash>, leaves: seq<StateHash>, level: nat, node: nat, start: nat, width: nat,
      updates: map<nat, SlotValue>, pending: seq<LeafUpdate>, after: seq<StateHash>, root: StateHash)
    requires IsTreeOver(h, nodes, leaves) && Overwrites(h, updates, leaves, after)
    requires Covers(|leaves|, level, node, start) && width == Pow2(level)
    requires pending == InKeyOrder(h, updates, start, start + width)
    requires root == OverlayRoot(h, nodes, level, node, start, width, pending)
    ensures start + width <= |after|
    ensures root == RangeRoot(h, after, level, start)
    decreases level
  {
    hide PartitionPoint, OverlayRoot;
    NodeIsRangeRoot(h, nodes, leaves, level, node, start);
    if pending == [] || level == 0 {
      OverlayStops(h, nodes, leaves, level, node, start, updates, pending, after);
    } else {
      var half := Pow2(level - 1);
      var below := InKeyOrder(h, updates, start, start + half);
      var above := InKeyOrder(h, updates, start + half, start + half + half);
      var left := OverlayRoot(h, nodes, level - 1, 2 * node, start, half, below);
      var right := OverlayRoot(h, nodes, level - 1, 2 * node + 1, start + half, half, above);
      OverlayIsRangeRoot(h, nodes, leaves, level - 1, 2 * node, start, half, updates, below, after, left);
      OverlayIsRangeRoot(h, nodes, leaves, level - 1, 2 * node + 1, start + half, half, updates, above, after, right);
      InKeyOrderSplits(h, updates, start, start + half, start + half + half);
      OverlayCombines(h, nodes, level, node, start, width, half, below, above, left, right);
    }
  }

  /** The columns with every update of the map written. */
  function Updated(columns: SegmentColumns, updates: map<nat, SlotValue>): (after: SegmentColumns)
    requires columns.Shaped(|columns.values|)
    ensures after.Shaped(|columns.values|)
    ensures forall i :: 0 <= i < |columns.values| ==>
              after.SlotAt(i) == if i in updates then updates[i] else columns.SlotAt(i)
  {
    var size := |columns.values|;
    SegmentColumns(
      seq(size, i requires 0 <= i < size => if i in updates then updates[i].value else columns.values[i]),
      seq(size, i requires 0 <= i < size => if i in updates then updates[i].ownerHi else columns.ownersHi[i]),
      seq(size, i requires 0 <= i < size => if i in updates then updates[i].ownerLo else columns.ownersLo[i]))
  }

  lemma OverlayIsRoot(h: Hasher, tree: TreeValue, updates: map<nat, SlotValue>, after: seq<StateHash>)
    requires tree.Valid(h) && forall local :: local in updates ==> local < Pow2(tree.logSlots)
    requires Overwrites(h, updates, tree.Leaves(), after)
    ensures RootWithUpdates(h, tree, updates) == MerkleRoot(h, tree.logSlots, after)
  {
    RootCovers(tree.logSlots);
    OverlayIsRangeRoot(h, tree.nodes, tree.Leaves(), tree.logSlots, 1, 0, Pow2(tree.logSlots), updates,
                       InKeyOrder(h, updates, 0, Pow2(tree.logSlots)), after, RootWithUpdates(h, tree, updates));
  }

  /** A read-only preview equals a fresh build from the updated columns, and both are the recursive root. */
  lemma OverlayIsRebuild(h: Hasher, log: nat, columns: SegmentColumns, updates: map<nat, SlotValue>)
    requires columns.Shaped(Pow2(log)) && forall local :: local in updates ==> local < Pow2(log)
    ensures RootWithUpdates(h, TreeOf(h, log, columns), updates)
         == TreeOf(h, log, Updated(columns, updates)).Root()
         == MerkleRoot(h, log, Updated(columns, updates).Leaves(h))
  {
    var tree, rebuilt := TreeOf(h, log, columns), TreeOf(h, log, Updated(columns, updates));
    OverlayIsRoot(h, tree, updates, rebuilt.Leaves());
    RootIsMerkleRoot(h, rebuilt.nodes, rebuilt.Leaves(), log);
  }

  // ---------------------------------------------------------------------
  // Slot writes in any order
  // ---------------------------------------------------------------------

  type SlotWrite = (nat, SlotValue)

  /** The tree after a run of slot writes. */
  ghost function Written(h: Hasher, tree: TreeValue, writes: seq<SlotWrite>): (after: TreeValue)
    requires tree.Sized() && forall w :: w in writes ==> w.0 < Pow2(tree.logSlots)
    ensures after.Sized() && after.logSlots == tree.logSlots
  {
    if writes == [] then tree
    else
      var last := writes[|writes| - 1];
      Written(h, tree, writes[..|writes| - 1]).WithLeaf(h, last.0, last.1)
  }

  /** What a run of writes leaves behind: the last write to each slot. */
  function NetWrites(writes: seq<SlotWrite>): map<nat, SlotValue> {
    if writes == [] then map[]
    else
      var last := writes[|writes| - 1];
      NetWrites(writes[..|writes| - 1])[last.0 := last.1]
  }

  lemma {:induction false} NetWritesInRange(writes: seq<SlotWrite>, size: nat)
    requires forall w :: w in writes ==> w.0 < size
    ensures forall local :: local in NetWrites(writes) ==> local < size
  {
    if writes != [] {
      NetWritesInRange(writes[..|writes| - 1], size);
      assert writes[|writes| - 1] in writes;
    }
  }

  lemma UpdatedStep(columns: SegmentColumns, updates: map<nat, SlotValue>, local: nat, slot: SlotValue)
    requires columns.Shaped(|columns.values|) && local < |columns.values|
    ensures Updated(columns, updates).WithSlot(local, slot) == Updated(columns, updates[local := slot])
  {
  }

  lemma {:induction false} WrittenIsRebuild(h: Hasher, log: nat, columns: SegmentColumns, writes: seq<SlotWrite>)
    requires columns.Shaped(Pow2(log)) && forall w :: w in writes ==> w.0 < Pow2(log)
    ensures Written(h, TreeOf(h, log, columns), writes) == TreeOf(h, log, Updated(columns, NetWrites(writes)))
  {
    if writes == [] {
      assert Updated(columns, map[]) == columns;
    } else {
      var front, last := writes[..|writes| - 1], writes[|writes| - 1];
      WrittenIsRebuild(h, log, columns, front);
      assert last in writes;
      var partial := Updated(columns, NetWrites(front));
      WriteIsRebuild(h, log, partial, last.0, last.1);
      UpdatedStep(columns, NetWrites(front), last.0, last.1);
    }
  }

  /** Preview, in-place writes in any order, and fresh rebuild all commit to the same root. */
  lemma EveryUpdatePathAgrees(h: Hasher, log: nat, columns: SegmentColumns, writes: seq<SlotWrite>)
    requires columns.Shaped(Pow2(log)) && forall w :: w in writes ==> w.0 < Pow2(log)
    ensures forall local :: local in NetWrites(writes) ==> local < Pow2(log)
    ensures Written(h, TreeOf(h, log, columns), writes).Root()
         == RootWithUpdates(h, TreeOf(h, log, columns), NetWrites(writes))
         == TreeOf(h, log, Updated(columns, NetWrites(writes))).Root()
  {
    NetWritesInRange(writes, Pow2(log));
    WrittenIsRebuild(h, log, columns, writes);
    OverlayIsRebuild(h, log, columns, NetWrites(writes));
  }

  lemma {:induction false} NetOfDistinctWrites(writes: seq<SlotWrite>)
    requires forall i, j :: 0 <= i < j < |writes| ==> writes[i].0 != writes[j].0
    ensures forall w :: w in writes ==> w.0 in NetWrites(writes) && NetWrites(writes)[w.0] == w.1
    ensures forall local :: local in NetWrites(writes) ==> (local, NetWrites(writes)[local]) in writes
  {
    if writes != [] {
      var front, last := writes[..|writes| - 1], writes[|writes| - 1];
      assert writes == front + [last];
      NetOfDistinctWrites(front);
      forall w | w in front
        ensures w.0 != last.0
      {
        var i :| 0 <= i < |front| && front[i] == w;
        assert writes[i] == w;
      }
    }
  }

  /** Writes to distinct slots commute: any permutation of them nets to the same map. */
  lemma WriteOrderIsIrrelevant(writes: seq<SlotWrite>, permuted: seq<SlotWrite>)
    requires forall i, j :: 0 <= i < j < |writes| ==> writes[i].0 != writes[j].0
    requires forall i, j :: 0 <= i < j < |permuted| ==> permuted[i].0 != permuted[j].0
    requires forall w :: w in writes <==> w in permuted
    ensures NetWrites(writes) == NetWrites(permuted)
  {
    NetOfDistinctWrites(writes);
    NetOfDistinctWrites(permuted);
    var a, b := NetWrites(writes), NetWrites(permuted);
    assert a.Keys == b.Keys by {
      forall local | local in a ensures local in b { assert (local, a[local]) in permuted; }
      forall local | local in b ensures local in a { assert (local, b[local]) in writes; }
    }
    forall local | local in a ensures a[local] == b[local] {
      assert (local, a[local]) in permuted;
    }
  }

  /** Applies a run of slot writes to a tree in place. */
  method WriteSlots(tree: ExactSegmentTree, writes: seq<SlotWrite>)
    requires tree.Valid() && forall w :: w in writes ==> w.0 < Pow2(tree.logSlots)
    modifies tree.nodes
    ensures tree.Valid()
    ensures tree.Value() == Written(tree.h, old(tree.Value()), writes)
  {
    for done := 0 to |writes|
      invariant tree.Valid()
      invariant tree.Value() == Written(tree.h, old(tree.Value()), writes[..done])
    {
      tree.SetSlot(writes[done].0, writes[done].1);
      assert writes[..done + 1][..done] == writes[..done];
    }
    assert writes[..|writes|] == writes;
  }
}
