/** The two-level frontier reader: siblings of a touched set straight from compact roots, cached trees and columns. */
module StateFrontier {
  import opened Options
  import opened Powers
  import opened StateHashing
  import opened PairHashing
  import opened SegmentTree
  import opened StreamingRoot
  import opened SegmentCacheModel
  import opened StateLayout
  import opened SegmentedState
  import opened StateRoot
  import opened ChainState
  import opened SparseMultiproof
  import opened FrontierPositions
  import opened SparseMerkleCache
  import Runs = SegmentCacheRuns
  import Verifier = MultiproofVerifier

  // ---------------------------------------------------------------------
  // Where a node of the whole tree stands
  // ---------------------------------------------------------------------

  lemma {:induction false} ShlTwice(index: nat, a: nat, b: nat)
    ensures Shl(Shl(index, a), b) == Shl(index, a + b)
    decreases a
  {
    if a > 0 {
      ShlTwice(2 * index, a - 1, b);
    }
  }

  /** A node below the segment roots is a node of one segment. */
  lemma LocalStart(p: nat, log: nat, level: nat)
    requires level <= log
    ensures var k := log - level;
            var s := Shr(p, k);
            && Shl(s, k) <= p && p - Shl(s, k) < Pow2(k)
            && Shl(p, level) == Shl(s, log) + Shl(p - Shl(s, k), level)
            && Shl(p - Shl(s, k), level) + Pow2(level) <= Pow2(log)
  {
    hide Pow2, Shl, Shr;
    var k := log - level;
    var s := Shr(p, k);
    ShrBlock(p, k);
    ShlAdds(Shl(s, k), p - Shl(s, k), level);
    ShlTwice(s, k, level);
    ShlInRange(log, level, p - Shl(s, k));
  }

  lemma SliceOfSlice<T>(all: seq<T>, at: nat, size: nat, start: nat, n: nat)
    requires at + size <= |all| && start + n <= size
    ensures all[at..at + size][start..start + n] == all[at + start..at + start + n]
  {
    var inner, outer := all[at..at + size][start..start + n], all[at + start..at + start + n];
    assert |inner| == |outer| == n;
    forall i | 0 <= i < n
      ensures inner[i] == outer[i]
    {
      assert inner[i] == all[at..at + size][start + i];
    }
  }

  /** The segment's own subtree root is the whole tree's. */
  lemma LocalInState(h: Hasher, layout: Layout, s: nat, start: nat, level: nat)
    requires layout.Valid() && s < |layout.contents| && start + Pow2(level) <= Pow2(layout.log)
    ensures var all := LeafHashes(h, layout.AllSlots());
            && Shl(s, layout.log) + start + Pow2(level) <= |all|
            && RangeRoot(h, layout.contents[s].Leaves(h), level, start)
              == RangeRoot(h, all, level, Shl(s, layout.log) + start)
  {
    hide RangeRoot, Pow2, Shl, Slots;
    var log, all, leaves := layout.log, LeafHashes(h, layout.AllSlots()), layout.contents[s].Leaves(h);
    SegmentInState(h, layout.contents, log, s);
    var at, n := Shl(s, log), Pow2(level);
    SliceOfSlice(all, at, Pow2(log), start, n);
    RangeRootIsPortable(h, leaves, start, all, at + start, level);
  }

  /** A node of the upper tree is the whole tree's. */
  lemma UpperInState(h: Hasher, roots: seq<StateHash>, all: seq<StateHash>, log: nat, level: nat, p: nat)
    requires BlockRoots(h, roots, all, log) && Shl(p, level) + Pow2(level) <= |roots|
    ensures Shl(p, level + log) + Pow2(level + log) <= |all|
    ensures RangeRoot(h, roots, level, Shl(p, level)) == RangeRoot(h, all, level + log, Shl(p, level + log))
  {
    hide RangeRoot, Pow2, Shl, BlockRoots;
    TwoLevelRoot(h, roots, all, log, level, Shl(p, level));
    ShlTwice(p, level, log);
  }

  // ---------------------------------------------------------------------
  // Reading one node
  // ---------------------------------------------------------------------

  function Slice(columns: SegmentColumns, start: nat, n: nat): (slice: SegmentColumns)
    requires columns.Shaped(|columns.values|) && start + n <= |columns.values|
    ensures slice.Shaped(n) && forall i :: 0 <= i < n ==> slice.SlotAt(i) == columns.SlotAt(start + i)
  {
    SegmentColumns(columns.values[start..start + n], columns.ownersHi[start..start + n],
                   columns.ownersLo[start..start + n])
  }

  /** Streams the slots of one aligned range; a segment without columns is empty. */
  method LocalSubtreeRoot(h: Hasher, log: nat, columns: Option<SegmentColumns>, ghost contents: SegmentColumns,
                          start: nat, level: nat) returns (root: StateHash)
    requires contents.Shaped(Pow2(log)) && start + Pow2(level) <= Pow2(log)
    requires columns == Some(contents) || (columns.None? && contents == ZeroColumns(Pow2(log)))
    ensures root == RangeRoot(h, contents.Leaves(h), level, start)
  {
    hide RangeRoot, Pow2;
    if columns.None? {
      ZeroRootIsRootOfEmptySlots(h, contents.Leaves(h), level, start);
      var zeros := ZeroSlotRoots(h, level);
      return zeros[level];
    }
    var n := Pow2(level);
    var slice := Slice(columns.value, start, n);
    root := StreamedSegmentRoot(h, level, Some(slice), map[]);
    ghost var streamed, leaves := PreviewLeaves(h, n, Some(slice), map[]), contents.Leaves(h);
    assert streamed[0..n] == leaves[start..start + n];
    RangeRootIsPortable(h, streamed, 0, leaves, start, level);
  }

  datatype FrontierError =
    | CacheDepthMismatch
    | CompactRootMismatch
    | BadIndices(error: Verifier.Error)
    | SegmentAway(segment: nat)

  /** The node must be read from a segment's own tree, and that segment is away. */
  predicate Unreadable(evicted: set<nat>, log: nat, at: NodeIndex) {
    at.0 < log && Shr(at.1, log - at.0) in evicted
  }

  /** The hash of a node of the whole state's tree. */
  ghost predicate IsNode(h: Hasher, layout: Layout, at: NodeIndex, hash: StateHash)
    requires layout.Valid()
  {
    && Shl(at.1, at.0) + Pow2(at.0) <= |layout.AllSlots()|
    && hash == RangeRoot(h, LeafHashes(h, layout.AllSlots()), at.0, Shl(at.1, at.0))
  }

  lemma BelowSegmentRoots(layout: Layout, at: NodeIndex)
    requires layout.Valid() && at.0 < layout.log && at.1 < Pow2(layout.Depth() - at.0)
    ensures Shr(at.1, layout.log - at.0) < |layout.contents|
  {
    hide Pow2, Shl, Shr;
    var k := layout.log - at.0;
    ShlPow2(layout.upper, k);
    SegmentOfIndex(Pow2(layout.upper), k, at.1);
  }

  /** Below the segment roots: from the cached tree, or streamed from the columns. */
  method LocalNode(chain: ChainState, at: NodeIndex) returns (hash: StateHash)
    requires chain.Valid() && at.0 < chain.state.logSegment && at.1 < Pow2(chain.Held().Depth() - at.0)
    requires !Unreadable(chain.state.evicted, chain.state.logSegment, at)
    ensures IsNode(chain.state.h, chain.Held(), at, hash)
  {
    hide RangeRoot, Pow2, Shl, Shr, Runs.Coherent, Resident, LiveCount, CleanRoots, Layout.AllSlots;
    var state := chain.state;
    var log := state.logSegment;
    var segment := Shr(at.1, log - at.0);
    var local := at.1 - Shl(segment, log - at.0);
    BelowSegmentRoots(chain.Held(), at);
    LocalStart(at.1, log, at.0);
    LocalInState(state.h, chain.Held(), segment, Shl(local, at.0), at.0);
    assert SegmentOk(Pow2(log), state.segments[segment], state.liveCounts[segment], false, state.contents[segment]);
    var cached := state.cache.Get(segment);
    if cached.Some? {
      CachedIsCurrent(state.h, log, state.segments, state.cache, segment);
      SubtreeRootIsRangeRoot(state.h, cached.value, at.0, local);
      return cached.value.SubtreeRoot(at.0, local).value;
    }
    hash := LocalSubtreeRoot(state.h, log, state.segments[segment], state.contents[segment], Shl(local, at.0), at.0);
  }

  /** From the segment roots up: from the compact tree. */
  method CompactNode(chain: ChainState, at: NodeIndex) returns (hash: StateHash)
    requires chain.Valid() && chain.state.exactDirty == {}
    requires chain.state.logSegment <= at.0 <= chain.Held().Depth() && at.1 < Pow2(chain.Held().Depth() - at.0)
    ensures IsNode(chain.state.h, chain.Held(), at, hash)
  {
    hide RangeRoot, Pow2, Shl, Runs.Coherent, Resident, CleanRoots, Layout.AllSlots, SegmentOk, RootsOf, BlockRoots;
    var compact := chain.compact;
    CleanMeansCurrent(chain.state.h, compact.roots, chain.Held());
    var node := compact.SegmentNodeHash(at.0 - compact.log, at.1);
    ghost var all := LeafHashes(chain.state.h, chain.AllSlots());
    SegmentRootsAreBlockRoots(chain.state.h, chain.Held(), compact.roots);
    UpperInState(chain.state.h, compact.roots, all, compact.log, at.0 - compact.log, at.1);
    return node.value;
  }

  // ---------------------------------------------------------------------
  // The frontier
  // ---------------------------------------------------------------------

  lemma {:induction false} FrontierInRange(ps: seq<nat>, level: nat, depth: nat, at: NodeIndex)
    requires Canonical(ps, depth) && at in Frontier(ps, level, depth)
    ensures level <= at.0 < level + depth && at.1 < Pow2(level + depth - at.0)
    decreases depth
  {
    hide Missing, Parents;
    if depth > 0 {
      if at in AtLevel(level, Missing(ps)) {
        MissingInRange(ps, depth, at.1);
      } else {
        ParentsCanonical(ps, depth);
        FrontierInRange(Parents(ps), level + 1, depth - 1, at);
      }
    }
  }

  /** Every touched slot's segment is in memory. */
  ghost predicate TouchedLoaded(evicted: set<nat>, log: nat, touched: seq<nat>) {
    forall g :: g in touched ==> Shr(g, log) !in evicted
  }

  /** Touched segments in memory are enough: no other segment's own tree is ever looked into. */
  lemma TouchedSegmentsSuffice(evicted: set<nat>, log: nat, ps: seq<nat>, depth: nat, at: NodeIndex)
    requires Canonical(ps, depth) && at in Frontier(ps, 0, depth)
    requires TouchedLoaded(evicted, log, ps)
    ensures !Unreadable(evicted, log, at)
  {
    hide Shr, Frontier, Canonical, Sibling;
    if at.0 < log {
      FrontierExactly(ps, 0, depth, at);
      var p :| p in ps && Shr(p, at.0 - 0) == Sibling(at.1);
      ShrTwice(p, at.0, log - at.0);
      SiblingsShareParent(at.1, log - at.0);
    }
  }

  lemma SiblingsShareParent(p: nat, up: nat)
    requires up > 0
    ensures Shr(Sibling(p), up) == Shr(p, up)
  {
    hide Shr;
    ShrOfHalf(Sibling(p), up);
    ShrOfHalf(p, up);
  }

  lemma MissingInRange(ps: seq<nat>, depth: nat, q: nat)
    requires Canonical(ps, depth) && depth > 0 && q in Missing(ps)
    ensures q < Pow2(depth)
  {
    hide Missing;
    MissingIsUntouched(ps, q);
  }

  /** Leaf hashes by index. */
  ghost function LeafMapOf(h: Hasher, slots: seq<SlotValue>): LeafMap {
    map i | 0 <= i < |slots| :: LeafHash(h, slots[i])
  }

  /** The hash tree over every slot of the state. */
  ghost function StateNodes(h: Hasher, slots: seq<SlotValue>): (node: NodeIndex -> StateHash)
    ensures IsHashTree(h, node)
  {
    TreeNodes(h, LeafMapOf(h, slots))
  }

  lemma NodeOfState(h: Hasher, layout: Layout, at: NodeIndex, hash: StateHash)
    requires layout.Valid() && IsNode(h, layout, at, hash)
    ensures StateNodes(h, layout.AllSlots())(at) == hash
  {
    hide Layout.AllSlots, RangeRoot, Pow2, Shl;
    var slots := layout.AllSlots();
    TreeNodeIsRangeRoot(h, LeafMapOf(h, slots), LeafHashes(h, slots), at.0, at.1);
  }

  /** The siblings read are what a proof of the touched slots against the state's root consists of. */
  lemma FrontierProves(h: Hasher, layout: Layout, touched: seq<nat>)
    requires layout.Valid() && Canonical(touched, layout.Depth())
    ensures var node := StateNodes(h, layout.AllSlots());
            Reconstruct(h, touched, Read(node, AtLevel(0, touched)), Read(node, Frontier(touched, 0, layout.Depth())),
                        0, layout.Depth())
            == layout.Root(h)
  {
    hide Layout.AllSlots, RangeRoot, Pow2, Shl, Reconstruct, Frontier, Canonical;
    var slots, depth := layout.AllSlots(), layout.Depth();
    ProofIsComplete(h, StateNodes(h, slots), touched, 0, depth);
    ShlZero(depth);
    TreeNodeIsRangeRoot(h, LeafMapOf(h, slots), LeafHashes(h, slots), depth, 0);
  }

  /**
   The canonical sibling frontier of the touched slots, read without a global node map: refused at another depth, while
   anything waits to be hashed, for a set that is not canonical, and when a segment it must look into is away. Otherwise
   it is the frontier of the tree over every slot, and proves the touched slots against the chain's root.
   */
  method ExactFrontierSiblings(chain: ChainState, touched: seq<nat>, depth: nat)
    returns (result: Result<seq<StateHash>, FrontierError>)
    requires chain.Valid()
    ensures result == Err(CacheDepthMismatch) <==> depth != chain.Held().Depth()
    ensures result == Err(CompactRootMismatch) <==> depth == chain.Held().Depth() && !chain.Sealed()
    ensures result.Ok? <==>
              && depth == chain.Held().Depth() && chain.Sealed() && Canonical(touched, depth)
              && forall at :: at in Frontier(touched, 0, depth) ==>
                !Unreadable(chain.state.evicted, chain.state.logSegment, at)
    ensures TouchedLoaded(chain.state.evicted, chain.state.logSegment, touched) ==>
              (result.Ok? <==> depth == chain.Held().Depth() && chain.Sealed() && Canonical(touched, depth))
    ensures result.Ok? ==>
              var node := StateNodes(chain.state.h, chain.AllSlots());
              && result.value == Read(node, Frontier(touched, 0, depth))
              && |result.value| == |Frontier(touched, 0, depth)|
              && Reconstruct(chain.state.h, touched, Read(node, AtLevel(0, touched)), result.value, 0, depth)
                == chain.utxoRoot
  {
    hide Runs.Coherent, Resident, CleanRoots, Layout.AllSlots, SegmentOk, Frontier, Canonical, Reconstruct, Pow2, Shr,
         Layout.Root, MerkleRoot;
    if depth != chain.compact.upper + chain.compact.log {
      return Err(CacheDepthMismatch);
    }
    chain.SealedIsCurrent();
    CurrentIsSealed(chain);
    if chain.state.exactDirty != {} || chain.compact.Root() != chain.utxoRoot {
      return Err(CompactRootMismatch);
    }
    var fault := Verifier.ValidateIndices(touched, depth);
    if fault.Some? {
      return Err(BadIndices(fault.value));
    }
    var positions := Frontier(touched, 0, depth);
    ghost var node := StateNodes(chain.state.h, chain.AllSlots());
    var siblings: seq<StateHash> := [];
    for i := 0 to |positions|
      invariant siblings == Read(node, positions)[..i]
      invariant forall k :: 0 <= k < i ==> !Unreadable(chain.state.evicted, chain.state.logSegment, positions[k])
    {
      var at := positions[i];
      assert at in positions;
      FrontierInRange(touched, 0, depth, at);
      if Unreadable(chain.state.evicted, chain.state.logSegment, at) {
        if TouchedLoaded(chain.state.evicted, chain.state.logSegment, touched) {
          TouchedSegmentsSuffice(chain.state.evicted, chain.state.logSegment, touched, depth, at);
        }
        return Err(SegmentAway(Shr(at.1, chain.state.logSegment - at.0)));
      }
      var hash := ReadNode(chain, at);
      NodeOfState(chain.state.h, chain.Held(), at, hash);
      siblings := siblings + [hash];
    }
    assert siblings == Read(node, positions);
    FrontierProves(chain.state.h, chain.Held(), touched);
    return Ok(siblings);
  }

  method ReadNode(chain: ChainState, at: NodeIndex) returns (hash: StateHash)
    requires chain.Valid() && chain.state.exactDirty == {} && at.0 <= chain.Held().Depth()
    requires at.1 < Pow2(chain.Held().Depth() - at.0) && !Unreadable(chain.state.evicted, chain.state.logSegment, at)
    ensures IsNode(chain.state.h, chain.Held(), at, hash)
  {
    hide Runs.Coherent, Resident, CleanRoots, Layout.AllSlots, SegmentOk, Pow2, Shr, RangeRoot;
    if at.0 >= chain.state.logSegment {
      hash := CompactNode(chain, at);
    } else {
      hash := LocalNode(chain, at);
    }
  }

  lemma CurrentIsSealed(chain: ChainState)
    requires chain.Valid()
    ensures chain.state.exactDirty == {} && chain.compact.Root() == chain.utxoRoot ==> chain.Sealed()
  {
    if chain.state.exactDirty == {} {
      CleanMeansCurrent(chain.state.h, chain.compact.roots, chain.Held());
      RootOfSegmentRoots(chain.state.h, chain.Held(), chain.compact.roots);
    }
  }
}
