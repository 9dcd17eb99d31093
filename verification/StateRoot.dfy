/** The whole-state root: segment roots under a small upper tree, previewed without touching the state. */
module StateRoot {
  import opened Options
  import opened Powers
  import opened StateHashing
  import opened NodeArrays
  import opened SegmentTree
  import opened SegmentOverlay
  import opened StreamingRoot
  import opened SegmentCacheModel
  import opened StateLayout
  import opened SegmentedState
  import Runs = SegmentCacheRuns

  // ---------------------------------------------------------------------
  // Two levels commit to what one tree would
  // ---------------------------------------------------------------------

  /** Each root is the root of its own block of `2^log` leaves. */
  ghost predicate BlockRoots(h: Hasher, roots: seq<StateHash>, all: seq<StateHash>, log: nat) {
    forall i :: 0 <= i < |roots| ==>
      Shl(i, log) + Pow2(log) <= |all| && roots[i] == RangeRoot(h, all, log, Shl(i, log))
  }

  /** A tree over block roots has the root of the tree over the leaves themselves. */
  lemma {:induction false} TwoLevelRoot(h: Hasher, roots: seq<StateHash>, all: seq<StateHash>, log: nat, depth: nat,
                                        from: nat)
    requires BlockRoots(h, roots, all, log) && from + Pow2(depth) <= |roots|
    ensures Shl(from, log) + Pow2(depth + log) <= |all|
    ensures RangeRoot(h, roots, depth, from) == RangeRoot(h, all, depth + log, Shl(from, log))
    decreases depth
  {
    if depth > 0 {
      var half := Pow2(depth - 1);
      TwoLevelRoot(h, roots, all, log, depth - 1, from);
      TwoLevelRoot(h, roots, all, log, depth - 1, from + half);
      ShlAdds(from, half, log);
      ShlPow2(depth - 1, log);
    }
  }

  /** The hash of segment `s`, at the place its slots have in the whole state. */
  lemma SegmentInState(h: Hasher, contents: seq<SegmentColumns>, log: nat, s: nat)
    requires StateLayout.AllShaped(contents, Pow2(log)) && s < |contents|
    ensures var all := LeafHashes(h, Slots(contents, Pow2(log)));
            && Shl(s, log) + Pow2(log) <= |all|
            && all[Shl(s, log)..Shl(s, log) + Pow2(log)] == contents[s].Leaves(h)
  {
    hide Pow2, Shl, Slots;
    var all, size, leaves := LeafHashes(h, Slots(contents, Pow2(log))), Pow2(log), contents[s].Leaves(h);
    SlotsCount(contents, log);
    BlockFits(s, |contents|, log);
    forall i | 0 <= i < size
      ensures all[Shl(s, log) + i] == leaves[i]
    {
      SlotsAt(contents, log, s, i);
    }
  }

  ghost predicate RootsOf(h: Hasher, roots: seq<StateHash>, layout: Layout)
    requires layout.Valid()
  {
    |roots| == |layout.contents| && forall k :: 0 <= k < |roots| ==>
      roots[k] == SegmentRoot(h, layout.log, layout.contents[k])
  }

  /** The segments' own roots are the block roots of all their leaves. */
  lemma SegmentRootsAreBlockRoots(h: Hasher, layout: Layout, roots: seq<StateHash>)
    requires layout.Valid() && RootsOf(h, roots, layout)
    ensures BlockRoots(h, roots, LeafHashes(h, layout.AllSlots()), layout.log)
  {
    hide Pow2, Shl, Slots, RangeRoot;
    var log, all := layout.log, LeafHashes(h, layout.AllSlots());
    forall i | 0 <= i < |roots|
      ensures Shl(i, log) + Pow2(log) <= |all| && roots[i] == RangeRoot(h, all, log, Shl(i, log))
    {
      SegmentInState(h, layout.contents, log, i);
      var leaves := layout.contents[i].Leaves(h);
      assert leaves[0..Pow2(log)] == leaves;
      RangeRootIsPortable(h, leaves, 0, all, Shl(i, log), log);
    }
  }

  /** Hashing the segments' roots together commits to every slot. */
  lemma RootOfSegmentRoots(h: Hasher, layout: Layout, roots: seq<StateHash>)
    requires layout.Valid() && RootsOf(h, roots, layout)
    ensures MerkleRoot(h, layout.upper, roots) == layout.Root(h)
  {
    hide SegmentRoot, BlockRoots, RangeRoot, Pow2, Shl, Layout.AllSlots;
    SegmentRootsAreBlockRoots(h, layout, roots);
    TwoLevelRoot(h, roots, LeafHashes(h, layout.AllSlots()), layout.log, layout.upper, 0);
    ShlZero(layout.log);
  }

  /** The scratch roots of the target: current, and grown with the state if it grows. */
  lemma TargetRoots(h: Hasher, roots: seq<StateHash>, layout: Layout)
    requires layout.Valid() && RootsOf(h, roots, layout)
    ensures roots != [] && RootsOf(h, GrownRoots(h, layout.log, roots), layout.Doubled())
  {
    hide SegmentRoot, Layout.Doubled, GrownRoots;
    GrowthKeepsClean(h, roots, layout, {});
  }

  // ---------------------------------------------------------------------
  // Growing the state by one level
  // ---------------------------------------------------------------------

  lemma PaddedRoot(h: Hasher, columns: SegmentColumns, log: nat)
    requires columns.Shaped(Pow2(log))
    ensures SegmentRoot(h, log + 1, Padded(columns, Pow2(log)))
         == NodeHash(h, SegmentRoot(h, log, columns), ZeroRoot(h, log))
  {
    var size := Pow2(log);
    var leaves, padded := columns.Leaves(h), Padded(columns, size).Leaves(h);
    assert leaves[0..size] == padded[0..size];
    RangeRootIsPortable(h, leaves, 0, padded, 0, log);
    ZeroRootIsRootOfEmptySlots(h, padded, log, size);
  }

  /** Every root outside `dirty` is its segment's current one. */
  ghost predicate CleanRoots(h: Hasher, roots: seq<StateHash>, layout: Layout, dirty: set<nat>)
    requires layout.Valid()
  {
    && |roots| == |layout.contents|
    && forall k :: 0 <= k < |roots| && k !in dirty ==> roots[k] == SegmentRoot(h, layout.log, layout.contents[k])
  }

  /** What one more level does to the segment roots. */
  function GrownRoots(h: Hasher, log: nat, roots: seq<StateHash>): seq<StateHash>
    requires roots != []
  {
    if log < LOG_SEGMENT_SIZE then [NodeHash(h, roots[0], ZeroRoot(h, log))]
    else roots + Repeated(ZeroRoot(h, log), |roots|)
  }

  /** Current roots grow into the doubled layout's current roots. */
  lemma GrowthKeepsClean(h: Hasher, roots: seq<StateHash>, layout: Layout, dirty: set<nat>)
    requires layout.Valid() && CleanRoots(h, roots, layout, dirty)
    ensures CleanRoots(h, GrownRoots(h, layout.log, roots), layout.Doubled(), dirty)
  {
    hide SegmentRoot, ZeroRoot, Padded, Pow2, ZeroColumns;
    if layout.log < LOG_SEGMENT_SIZE {
      PaddedRoot(h, layout.contents[0], layout.log);
    } else {
      ZeroSegmentRoot(h, layout.log);
    }
  }

  /** The doubled state's root is the old root beside an empty subtree. */
  lemma DoubledRoot(h: Hasher, layout: Layout)
    requires layout.Valid()
    ensures layout.Doubled().Root(h) == NodeHash(h, layout.Root(h), ZeroRoot(h, layout.Depth()))
  {
    hide Layout.Doubled, Layout.AllSlots, ZeroRoot;
    DoubledSlots(layout);
    GrownRoot(h, layout.Depth(), layout.AllSlots());
  }

  lemma GrownRoot(h: Hasher, depth: nat, slots: seq<SlotValue>)
    requires |slots| == Pow2(depth)
    ensures SlotsRoot(h, depth + 1, Grown(slots)) == NodeHash(h, SlotsRoot(h, depth, slots), ZeroRoot(h, depth))
  {
    var all, grown := LeafHashes(h, slots), LeafHashes(h, Grown(slots));
    assert all[0..Pow2(depth)] == grown[0..Pow2(depth)];
    RangeRootIsPortable(h, all, 0, grown, 0, depth);
    ZeroRootIsRootOfEmptySlots(h, grown, depth, Pow2(depth));
  }

  /** Node `index` of a level of a heap-ordered tree. */
  lemma UpperNode(h: Hasher, tree: seq<StateHash>, leaves: seq<StateHash>, depth: nat, level: nat, index: nat)
    requires HashesOver(h, tree, leaves) && |leaves| == Pow2(depth) && level <= depth && index < Pow2(depth - level)
    ensures Pow2(depth - level) + index < |tree| && Shl(index, level) + Pow2(level) <= |leaves|
    ensures tree[Pow2(depth - level) + index] == RangeRoot(h, leaves, level, Shl(index, level))
  {
    hide HashesOver, RangeRoot;
    var n := Pow2(depth - level) + index;
    ShlInRange(depth, level, index);
    BlockCovers(Pow2(depth), depth - level, level, index, n, Shl(index, level));
    NodeIsRangeRoot(h, tree, leaves, level, n, Shl(index, level));
  }

  class ExactSegmentRootCache {
    const h: Hasher
    var log: nat
    var upper: nat
    var roots: seq<StateHash>
    /** The upper tree in heap order; left alone while there is a single segment. */
    var tree: seq<StateHash>

    ghost predicate Valid()
      reads this
    {
      && |roots| == Pow2(upper) && |tree| == 2 * |roots|
      && log <= LOG_SEGMENT_SIZE && (upper > 0 ==> log == LOG_SEGMENT_SIZE)
      && (upper > 0 ==> HashesOver(h, tree, roots))
    }

    /** All segments empty. */
    constructor (h: Hasher, log: nat, upper: nat)
      requires log <= LOG_SEGMENT_SIZE && (upper > 0 ==> log == LOG_SEGMENT_SIZE)
      ensures Valid() && this.h == h && this.log == log && this.upper == upper
      ensures roots == Repeated(ZeroRoot(h, log), Pow2(upper))
    {
      this.h := h;
      this.log := log;
      this.upper := upper;
      var zeros := ZeroSlotRoots(h, log);
      roots := Repeated(zeros[log], Pow2(upper));
      var built := BuildTree(h, Repeated(zeros[log], Pow2(upper)), zeros[0]);
      tree := built;
    }

    constructor Clone(source: ExactSegmentRootCache)
      requires source.Valid()
      ensures Valid() && h == source.h && log == source.log && upper == source.upper && roots == source.roots
    {
      h := source.h;
      log := source.log;
      upper := source.upper;
      roots := source.roots;
      tree := source.tree;
    }

    function Root(): (root: StateHash)
      requires Valid()
      reads this
      ensures root == MerkleRoot(h, upper, roots)
    {
      if |roots| == 1 then roots[0]
      else
        RootIsMerkleRoot(h, tree, roots, upper);
        tree[1]
    }

    /** A node of the upper tree, `level` above the segment roots; nothing outside it. */
    function SegmentNodeHash(level: nat, index: nat): (node: Option<StateHash>)
      requires Valid()
      reads this
      ensures node.Some? <==> level <= upper && index < Pow2(upper - level)
      ensures node.Some? ==> Shl(index, level) + Pow2(level) <= |roots|
      ensures node.Some? ==> node.value == RangeRoot(h, roots, level, Shl(index, level))
    {
      if level > upper || index >= Pow2(upper - level) then None
      else
        ShlInRange(upper, level, index);
        if level == 0 then Some(roots[index])
        else
          UpperNode(h, tree, roots, upper, level, index);
          Some(tree[Pow2(upper - level) + index])
    }

    static method BuildTree(h: Hasher, roots: seq<StateHash>, filler: StateHash) returns (tree: seq<StateHash>)
      requires |roots| >= 1
      ensures HashesOver(h, tree, roots)
    {
      var count := |roots|;
      tree := seq(count, _ => filler) + roots;
      for index := count downto 1
        invariant |tree| == 2 * count && tree[count..] == roots
        invariant HashedExcept(h, tree, index, count, 0)
      {
        var hash := NodeHash(h, tree[2 * index], tree[2 * index + 1]);
        StoreMovesGap(h, tree, index, count, index, hash);
        tree := tree[index := hash];
      }
    }

    /** Replaces one segment root and rehashes its path. */
    method SetSegmentRoot(index: nat, root: StateHash)
      requires Valid() && index < |roots|
      modifies this`roots, this`tree
      ensures Valid() && roots == old(roots)[index := root]
    {
      var count := |roots|;
      roots := roots[index := root];
      if count == 1 {
        return;
      }
      var node := count + index;
      StoreMovesGap(h, tree, 1, count, node, root);
      tree := tree[node := root];
      while node > 1
        invariant roots == old(roots)[index := root]
        invariant 1 <= node < 2 * count && |tree| == 2 * count && tree[count..] == roots
        invariant HashedExcept(h, tree, 1, count, node / 2)
        decreases node
      {
        node := node / 2;
        var hash := NodeHash(h, tree[2 * node], tree[2 * node + 1]);
        StoreMovesGap(h, tree, 1, count, node, hash);
        tree := tree[node := hash];
      }
    }

    /** One more level of slots, all empty. */
    method ExpandOne()
      requires Valid()
      modifies this
      ensures Valid() && roots == GrownRoots(h, old(log), old(roots))
      ensures log == (if old(log) < LOG_SEGMENT_SIZE then old(log) + 1 else old(log))
      ensures upper == (if old(log) < LOG_SEGMENT_SIZE then 0 else old(upper) + 1)
    {
      hide ZeroRoot, HashesOver;
      var zeros := ZeroSlotRoots(h, log);
      var zero := zeros[log];
      if log < LOG_SEGMENT_SIZE {
        roots := [NodeHash(h, roots[0], zero)];
        log := log + 1;
      } else {
        roots := roots + Repeated(zero, |roots|);
        upper := upper + 1;
      }
      tree := BuildTree(h, roots, zeros[0]);
    }
  }

  // ---------------------------------------------------------------------
  // Previewing slot updates
  // ---------------------------------------------------------------------

  /** The resident columns of a segment read as `contents`, empty past their end. */
  ghost predicate Backs(columns: Option<SegmentColumns>, contents: SegmentColumns, size: nat) {
    && contents.Shaped(size)
    && (columns.Some? ==> columns.value.Shaped(|columns.value.values|))
    && forall i :: 0 <= i < size ==> contents.SlotAt(i) == PreviewSlot(columns, map[], i)
  }

  lemma BackedPreview(h: Hasher, columns: Option<SegmentColumns>, contents: SegmentColumns, log: nat,
                      updates: map<nat, SlotValue>)
    requires Backs(columns, contents, Pow2(log))
    ensures MerkleRoot(h, log, PreviewLeaves(h, Pow2(log), columns, updates))
         == SegmentRoot(h, log, Updated(contents, updates))
  {
    var after := Updated(contents, updates);
    forall i | 0 <= i < Pow2(log)
      ensures PreviewSlot(columns, updates, i) == after.SlotAt(i)
    {
      assert contents.SlotAt(i) == PreviewSlot(columns, map[], i);
    }
    assert PreviewLeaves(h, Pow2(log), columns, updates) == after.Leaves(h);
  }

  /** What a state holds, as a layout. */
  ghost function LayoutOf(state: SegmentedState, upper: nat): Layout
    reads state
  {
    Layout(state.contents, state.logSegment, upper)
  }

  /** The columns in memory for a segment; segments past the end have none. */
  function ColumnsOf(state: SegmentedState, segment: nat): Option<SegmentColumns>
    reads state
  {
    if segment < |state.segments| then state.segments[segment] else None
  }

  ghost function Target(layout: Layout, expand: bool): (target: Layout)
    requires layout.Valid()
    ensures target.Valid() && target.Depth() == layout.Depth() + if expand then 1 else 0
  {
    if expand then layout.Doubled() else layout
  }

  lemma ColumnsBackTarget(state: SegmentedState, upper: nat, expand: bool, s: nat)
    requires state.Valid() && LayoutOf(state, upper).Valid() && s !in state.evicted
    requires s < |Target(LayoutOf(state, upper), expand).contents|
    ensures var target := Target(LayoutOf(state, upper), expand);
            Backs(ColumnsOf(state, s), target.contents[s], Pow2(target.log))
  {
    hide Pow2, LiveCount, Runs.Coherent, Resident;
    var target := Target(LayoutOf(state, upper), expand);
    if s < |state.contents| {
      var resident, contents := state.segments[s], state.contents[s];
      assert SegmentOk(Pow2(state.logSegment), resident, state.liveCounts[s], false, contents);
    }
  }

  /** Brings the roots of locally changed segments up to date; names one that is not in memory, if any. */
  method Refresh(state: SegmentedState, compact: ExactSegmentRootCache) returns (missing: Option<nat>)
    requires state.Valid() && compact.Valid() && compact.h == state.h && compact.log == state.logSegment
    requires LayoutOf(state, compact.upper).Valid()
    requires CleanRoots(state.h, compact.roots, LayoutOf(state, compact.upper), state.exactDirty)
    modifies compact`roots, compact`tree
    ensures compact.Valid()
    ensures missing.None? <==> state.exactDirty !! state.evicted
    ensures missing.Some? ==> missing.value in state.exactDirty && missing.value in state.evicted
    ensures missing.None? ==> RootsOf(state.h, compact.roots, LayoutOf(state, compact.upper))
  {
    hide SegmentRoot, Runs.Coherent, Resident, LiveCount, HashesOver, Pow2;
    for s := 0 to |state.segments|
      invariant compact.Valid() && |compact.roots| == |state.segments|
      invariant forall k :: 0 <= k < s && k in state.exactDirty ==> k !in state.evicted
      invariant forall k :: 0 <= k < |compact.roots| && (k < s || k !in state.exactDirty) ==>
                  compact.roots[k] == SegmentRoot(state.h, state.logSegment, state.contents[k])
    {
      if s in state.exactDirty {
        if s in state.evicted {
          return Some(s);
        }
        var root := state.CurrentSegmentRoot(s);
        compact.SetSegmentRoot(s, root);
      }
    }
    return None;
  }

  lemma OverlayIsSegmentRoot(h: Hasher, log: nat, contents: SegmentColumns, updates: map<nat, SlotValue>)
    requires contents.Shaped(Pow2(log)) && forall i :: i in updates ==> i < Pow2(log)
    ensures RootWithUpdates(h, TreeOf(h, log, contents), updates) == SegmentRoot(h, log, Updated(contents, updates))
  {
    OverlayIsRebuild(h, log, contents, updates);
  }

  /** A cached tree of the target size overlays the target's own contents. */
  lemma CachedFitsTarget(state: SegmentedState, upper: nat, expand: bool, s: nat)
    requires state.Valid() && LayoutOf(state, upper).Valid() && state.cache.Get(s).Some?
    requires state.cache.Get(s).value.logSlots == Target(LayoutOf(state, upper), expand).log
    requires s < |Target(LayoutOf(state, upper), expand).contents|
    ensures var target := Target(LayoutOf(state, upper), expand);
            state.cache.Get(s).value == TreeOf(state.h, target.log, target.contents[s])
  {
    hide Pow2, LiveCount, Runs.Coherent, Resident;
    CachedIsCurrent(state.h, state.logSegment, state.segments, state.cache, s);
    assert SegmentOk(Pow2(state.logSegment), state.segments[s], state.liveCounts[s], s in state.evicted,
                     state.contents[s]);
  }

  /** The root of one segment of the target layout after its updates: overlaid if a fitting tree is cached. */
  method PreviewTargetSegment(state: SegmentedState, ghost upper: nat, ghost expand: bool, log: nat, s: nat,
                              updates: map<nat, SlotValue>) returns (root: StateHash)
    requires state.Valid() && LayoutOf(state, upper).Valid() && s !in state.evicted
    requires log == Target(LayoutOf(state, upper), expand).log
    requires s < |Target(LayoutOf(state, upper), expand).contents|
    requires forall i :: i in updates ==> i < Pow2(log)
    ensures root == SegmentRoot(state.h, log, Updated(Target(LayoutOf(state, upper), expand).contents[s], updates))
  {
    hide SegmentRoot, Runs.Coherent, Resident, LiveCount, Pow2, TreeOf;
    var cached := state.cache.Get(s);
    if cached.Some? && cached.value.logSlots == log {
      CachedFitsTarget(state, upper, expand, s);
      ghost var contents := Target(LayoutOf(state, upper), expand).contents[s];
      OverlayIsSegmentRoot(state.h, log, contents, updates);
      root := RootWithUpdates(state.h, cached.value, updates);
    } else {
      ghost var contents := Target(LayoutOf(state, upper), expand).contents[s];
      BackedPreview(state.h, ColumnsOf(state, s), contents, log, updates);
      root := StreamedSegmentRoot(state.h, log, ColumnsOf(state, s), updates);
    }
  }

  /** The updates reach into a segment. */
  predicate Touches(updates: map<nat, SlotValue>, log: nat, s: nat) {
    Local(updates, log, s) != map[]
  }

  /** Overwrites the roots of updated segments; names one of them that is not in memory, if any. */
  method OverlayRoots(state: SegmentedState, ghost upper: nat, ghost expand: bool, compact: ExactSegmentRootCache,
                      updates: map<nat, SlotValue>) returns (missing: Option<nat>)
    requires state.Valid() && LayoutOf(state, upper).Valid() && compact.Valid() && compact.h == state.h
    requires compact.log == Target(LayoutOf(state, upper), expand).log
    requires RootsOf(state.h, compact.roots, Target(LayoutOf(state, upper), expand))
    modifies compact`roots, compact`tree
    ensures compact.Valid()
    ensures missing.None? <==> forall s :: s in state.evicted ==> !Touches(updates, compact.log, s)
    ensures missing.Some? ==> missing.value in state.evicted && Touches(updates, compact.log, missing.value)
    ensures missing.None? ==>
              RootsOf(state.h, compact.roots, WrittenLayout(Target(LayoutOf(state, upper), expand), updates))
  {
    hide SegmentRoot, HashesOver, Pow2, Target, Updated, Runs.Coherent, Resident, LiveCount, WrittenLayout, Overlaid;
    ghost var target := Target(LayoutOf(state, upper), expand);
    OverlaidEnds(state.h, compact.roots, target, updates);
    for s := 0 to |compact.roots|
      invariant compact.Valid() && |compact.roots| == |target.contents|
      invariant forall k :: 0 <= k < s && k in state.evicted ==> !Touches(updates, compact.log, k)
      invariant Overlaid(state.h, compact.roots, target, updates, s)
    {
      var local := Local(updates, compact.log, s);
      OverlaidStep(state.h, compact.roots, target, updates, s);
      if local != map[] {
        if s in state.evicted {
          return Some(s);
        }
        var root := PreviewTargetSegment(state, upper, expand, compact.log, s, local);
        compact.SetSegmentRoot(s, root);
      }
    }
    OverlaidEnds(state.h, compact.roots, target, updates);
    TargetIsLonger(LayoutOf(state, upper), expand);
    return None;
  }

  lemma TargetIsLonger(layout: Layout, expand: bool)
    requires layout.Valid()
    ensures |Target(layout, expand).contents| >= |layout.contents|
  {
  }

  /** The roots of the first `s` segments already show the updates. */
  ghost predicate Overlaid(h: Hasher, roots: seq<StateHash>, target: Layout, updates: map<nat, SlotValue>, s: nat)
    requires target.Valid()
  {
    && |roots| == |target.contents|
    && forall k :: 0 <= k < |roots| ==>
         var contents := if k < s then WrittenLayout(target, updates).contents else target.contents;
         roots[k] == SegmentRoot(h, target.log, contents[k])
  }

  lemma OverlaidEnds(h: Hasher, roots: seq<StateHash>, target: Layout, updates: map<nat, SlotValue>)
    requires target.Valid() && |roots| == |target.contents|
    ensures RootsOf(h, roots, target) ==> Overlaid(h, roots, target, updates, 0)
    ensures Overlaid(h, roots, target, updates, |roots|) ==> RootsOf(h, roots, WrittenLayout(target, updates))
  {
    hide SegmentRoot, Updated, Pow2, Local;
  }

  lemma OverlaidStep(h: Hasher, roots: seq<StateHash>, target: Layout, updates: map<nat, SlotValue>, s: nat)
    requires target.Valid() && Overlaid(h, roots, target, updates, s) && s < |roots|
    ensures var local := Local(updates, target.log, s);
            && (local == map[] ==> Overlaid(h, roots, target, updates, s + 1))
            && Overlaid(h, roots[s := SegmentRoot(h, target.log, Updated(target.contents[s], local))], target, updates,
                        s + 1)
  {
    hide SegmentRoot, Updated, Pow2, Local;
    NoUpdates(target.contents[s]);
  }

  // ---------------------------------------------------------------------
  // The previewed root
  // ---------------------------------------------------------------------

  datatype TransitionError =
    | HeaderLogSlotsMismatch
    | SlotOutOfRange
    | EvictedSegment(segment: nat)
    | CachedRootMismatch
    | CirculatingSupplyInvariant

  /** The state may stay as tall as it is or grow by one level. */
  predicate DepthOk(depth: nat, logSlots: nat) {
    depth <= logSlots <= depth + 1
  }

  ghost predicate AllBelow(updates: seq<SlotWrite>, bound: nat) {
    forall u :: u in updates ==> u.0 < bound
  }

  /** Collects updates by index, the last one winning, unless one is out of range. */
  method Collect(updates: seq<SlotWrite>, bound: nat) returns (net: Option<map<nat, SlotValue>>)
    ensures net.Some? <==> AllBelow(updates, bound)
    ensures net.Some? ==> net.value == NetWrites(updates)
  {
    var collected: map<nat, SlotValue> := map[];
    for i := 0 to |updates|
      invariant AllBelow(updates[..i], bound) && collected == NetWrites(updates[..i])
    {
      assert updates[i] in updates;
      assert updates[..i + 1][..i] == updates[..i] && updates[..i + 1] == updates[..i] + [updates[i]];
      if updates[i].0 >= bound {
        return None;
      }
      collected := collected[updates[i].0 := updates[i].1];
    }
    assert updates[..|updates|] == updates;
    return Some(collected);
  }

  /** The slot vector at the target depth. */
  function Resized(slots: seq<SlotValue>, depth: nat, logSlots: nat): (resized: seq<SlotValue>)
    requires |slots| == Pow2(depth) && DepthOk(depth, logSlots)
    ensures |resized| == Pow2(logSlots)
  {
    if logSlots > depth then Grown(slots) else slots
  }

  /** The slots the updated state would hold. */
  ghost function PreviewedSlots(layout: Layout, logSlots: nat, updates: seq<SlotWrite>): (slots: seq<SlotValue>)
    requires layout.Valid() && DepthOk(layout.Depth(), logSlots)
    ensures |slots| == Pow2(logSlots)
  {
    Overwritten(Resized(layout.AllSlots(), layout.Depth(), logSlots), NetWrites(updates))
  }

  lemma TargetSlots(layout: Layout, logSlots: nat, updates: seq<SlotWrite>)
    requires layout.Valid() && DepthOk(layout.Depth(), logSlots)
    ensures Target(layout, logSlots > layout.Depth()).Depth() == logSlots
    ensures WrittenLayout(Target(layout, logSlots > layout.Depth()), NetWrites(updates)).AllSlots()
         == PreviewedSlots(layout, logSlots, updates)
  {
    hide Layout.AllSlots, Layout.Doubled, WrittenLayout;
    DoubledSlots(layout);
    EverySlotIsWritten(Target(layout, logSlots > layout.Depth()), NetWrites(updates));
  }

  /** The segment is away although it changed locally or the updates reach into it. */
  ghost predicate Away(evicted: set<nat>, dirty: set<nat>, updates: seq<SlotWrite>, log: nat, s: nat) {
    s in evicted && (s in dirty || Touches(NetWrites(updates), log, s))
  }

  /** Everything a transition needs is in memory. */
  ghost predicate Present(evicted: set<nat>, dirty: set<nat>, updates: seq<SlotWrite>, log: nat) {
    forall s :: !Away(evicted, dirty, updates, log, s)
  }

  /** Segment size once the state is `logSlots` levels tall. */
  function TargetLog(logSlots: nat): nat {
    if logSlots < LOG_SEGMENT_SIZE then logSlots else LOG_SEGMENT_SIZE
  }

  /**
   The root the whole state would have after `updates`, computed from the compact roots, cached trees and streamed
   segments without touching the state: it is the plain root over the updated slot vector.
   */
  method RootAfterSlotUpdates(state: SegmentedState, compact: ExactSegmentRootCache, utxoRoot: StateHash, logSlots: nat,
                              updates: seq<SlotWrite>) returns (result: Result<StateHash, TransitionError>)
    requires state.Valid() && compact.Valid() && compact.h == state.h && compact.log == state.logSegment
    requires LayoutOf(state, compact.upper).Valid()
    requires CleanRoots(state.h, compact.roots, LayoutOf(state, compact.upper), state.exactDirty)
    ensures result != Err(CirculatingSupplyInvariant)
    ensures result == Err(HeaderLogSlotsMismatch) <==> !DepthOk(LayoutOf(state, compact.upper).Depth(), logSlots)
    ensures result == Err(SlotOutOfRange) <==>
              DepthOk(LayoutOf(state, compact.upper).Depth(), logSlots) && !AllBelow(updates, Pow2(logSlots))
    ensures result == Err(CachedRootMismatch) <==>
              && DepthOk(LayoutOf(state, compact.upper).Depth(), logSlots) && AllBelow(updates, Pow2(logSlots))
              && state.exactDirty !! state.evicted && utxoRoot != LayoutOf(state, compact.upper).Root(state.h)
    ensures result.Err? && result.error.EvictedSegment? ==>
              Away(state.evicted, state.exactDirty, updates, TargetLog(logSlots), result.error.segment)
    ensures result.Ok? <==>
              && DepthOk(LayoutOf(state, compact.upper).Depth(), logSlots) && AllBelow(updates, Pow2(logSlots))
              && utxoRoot == LayoutOf(state, compact.upper).Root(state.h)
              && Present(state.evicted, state.exactDirty, updates, TargetLog(logSlots))
    ensures result.Ok? ==>
              result.value == SlotsRoot(state.h, logSlots,
                                        PreviewedSlots(LayoutOf(state, compact.upper), logSlots, updates))
  {
    hide SegmentRoot, HashesOver, Runs.Coherent, Resident, LiveCount, MerkleRoot, WrittenLayout, Pow2, NetWrites,
         Touches, CleanRoots,
         RootsOf, Layout.Root, Layout.AllSlots, Layout.Doubled, PreviewedSlots, SlotsRoot, AllBelow;
    ghost var layout := LayoutOf(state, compact.upper);
    var depth := compact.upper + compact.log;
    if logSlots < depth || logSlots > depth + 1 {
      return Err(HeaderLogSlotsMismatch);
    }
    var net := Collect(updates, Pow2(logSlots));
    if net.None? {
      return Err(SlotOutOfRange);
    }
    var scratch := new ExactSegmentRootCache.Clone(compact);
    var stale := Refresh(state, scratch);
    if stale.Some? {
      return Err(EvictedSegment(stale.value));
    }
    RootOfSegmentRoots(state.h, layout, scratch.roots);
    if scratch.Root() != utxoRoot {
      return Err(CachedRootMismatch);
    }
    result := OverlayTarget(state, compact.upper, scratch, logSlots, updates, net.value);
  }

  /** The last part of the preview: grow if asked, overlay the updated segments, hash. */
  method OverlayTarget(state: SegmentedState, ghost upper: nat, scratch: ExactSegmentRootCache, logSlots: nat,
                       ghost updates: seq<SlotWrite>, net: map<nat, SlotValue>)
    returns (result: Result<StateHash, TransitionError>)
    requires state.Valid() && LayoutOf(state, upper).Valid() && scratch.Valid() && scratch.h == state.h
    requires scratch.log == state.logSegment && scratch.upper == upper && net == NetWrites(updates)
    requires RootsOf(state.h, scratch.roots, LayoutOf(state, upper))
             && DepthOk(LayoutOf(state, upper).Depth(), logSlots)
    modifies scratch
    ensures result.Ok? <==> forall s :: s in state.evicted ==> !Touches(net, TargetLog(logSlots), s)
    ensures result.Err? ==>
              && result.error.EvictedSegment? && result.error.segment in state.evicted
              && Touches(net, TargetLog(logSlots), result.error.segment)
    ensures result.Ok? ==>
              result.value == SlotsRoot(state.h, logSlots, PreviewedSlots(LayoutOf(state, upper), logSlots, updates))
  {
    hide SegmentRoot, HashesOver, Runs.Coherent, Resident, LiveCount, MerkleRoot, WrittenLayout, Pow2, NetWrites,
         Touches, Layout.AllSlots, PreviewedSlots, GrownRoots, RootsOf, SegmentOk, SlotsRoot;
    ghost var layout, expand := LayoutOf(state, upper), logSlots > LayoutOf(state, upper).Depth();
    if logSlots > scratch.upper + scratch.log {
      TargetRoots(state.h, scratch.roots, layout);
      scratch.ExpandOne();
    }
    assert scratch.log == TargetLog(logSlots);
    var missing := OverlayRoots(state, upper, expand, scratch, net);
    if missing.Some? {
      assert Touches(net, TargetLog(logSlots), missing.value);
      return Err(EvictedSegment(missing.value));
    }
    ghost var written := WrittenLayout(Target(layout, expand), net);
    RootOfSegmentRoots(state.h, written, scratch.roots);
    TargetSlots(layout, logSlots, updates);
    return Ok(scratch.Root());
  }
}
