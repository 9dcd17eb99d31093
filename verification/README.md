# Verified model of the Paranoid chain's exact state, receipts and fixtures

This project models the parts of the chain node and its benchmark crate where several ways of computing one thing
must agree, and proves that they do. Hashes, the permutation, field arithmetic and outside checks are parameters, so every
result holds for any choice of them; where a hash would have to be collision free, the result is "equal, or here is a
collision".

- **Hot-segment trees and overlays** (`PairHashing`, `StateHashing`, `NodeArrays`, `SegmentTree`, `SegmentOverlay`,
  `StreamingRoot`): one commitment, computed by a bottom-up build with a zero shortcut, in-place writes with early exits, a
  read-only overlay, and a logarithmic-memory stream. All are the plain recursive Merkle root, which `PerfectTrees` identifies
  as the hash, on the hasher's own two functions, of the one perfect binary tree over the slots.
- **The bounded tree cache** (`SegmentCacheModel`, `SegmentCache`, `SegmentCacheRuns`, `SegmentCacheClones`): byte
  accounting, write-recency eviction, agreement with the columns over every run, and isolation of clones that share trees
  on the heap, under any interleaving of operations and new clones.
- **The segmented state and its root** (`StateLayout`, `SegmentedState`, `SegmentReload`, `StateRoot`): cached, evicted,
  reloaded and virtual segments behind one vector of slots, and the previewed root of the whole state.
- **The chain state** (`ChainState`, `ChainRuns`, `ChainUndo`, `StateFrontier`): a committed transition gives exactly the
  previewed root, whole runs of transitions, undo, eviction, reload, sealing and growth refine a plain vector of slots, an
  undo log puts a block back, the supply is the slots' total, and the two-level frontier reader proves against the root.
- **Sparse multiproofs** (`SparseMultiproof`, `FrontierPositions`, `MultiproofVerifier`, `MultiproofPaths`,
  `MultiproofUpdates`, `MultiproofSegments`, `UpdateReplay`, `StructuralPlan`, `SegmentCapacity`, `SparseMerkleCache`):
  frontier positions, completeness, binding, updates, path expansion, sequential updates over a rewritten node map, their cut
  at the segment level, their replay from the steps alone, hash plans derived from positions alone, and exact sibling
  capacities.
- **Transaction tree, headers and receipts** (`HashLayers`, `TxTree`, `Bytes`, `Sponge`, `BlockHeader`, `RecordCodecs`,
  `RecordLayouts`, `Receipt`, `ReceiptWire`, `ReceiptLayouts`): inclusion paths, wire formats in both directions and byte by
  byte, absorb transcripts, hash-linked ancestry.
- **Benchmark algorithms** (`QuirkyEval`, `PowSearch`, `PowSweep`, `MatrixCache`, `FixtureTransactions`, `FixtureSupply`,
  `FixturePool`) and **v2 witness preparation** (`CandidateInput`).

Objects whose methods update fields are classes; loops are methods proved against specification functions; clones of the
cache share tree objects, and a reference count of one is the predicate that no other handle in the family holds the tree.

One property turned out false of the code: the partitioned nonce sweep multiplies and adds in 64-bit arithmetic that wraps
in an optimised build, so near 2^64 attempts it can lose its last share. `PowSweep.WrapLosesWork` names an input with the
wrapped range, `PowSweep.PartitionIffSplits` and `PowSweep.DoneCountIsExactIffSplits` state exactly when every nonce has an
owner and the count is right, and `PowSweep.ParallelIsPrefix` says what the checksum is in either case. The streaming
builder accepts the one index just past the last slot (its own range check is inclusive); the model follows the code, and
closing the stream then reports the error.

Run `dafny verify dfyconfig.toml` to check the project.

## Model

| member | source | states |
|---|---|---|
| `StateHashing.ZeroSlotRoots` | noid_chain/src/exact_state_hash.rs:37-45 | The loop returns, for every level up to the depth, the root of an all-empty subtree of that level. |
| `StateHashing.ZeroRootIsRootOfEmptySlots` | noid_chain/src/exact_state_hash.rs:37-45 | A precomputed zero root is the plain recursive root of any aligned or unaligned run of empty leaves of that size, for every level. |
| `NodeArrays.NodeIsRangeRoot` | noid_chain/src/exact_segment_cache.rs:36-66 | In any complete heap-ordered node array, every node is the plain recursive Merkle root of the slot range below it. |
| `NodeArrays.TreeIsUnique` | noid_chain/src/exact_segment_cache.rs:36-66 | Two complete node arrays over the same leaves are equal node for node. |
| `PerfectTrees.RangeRootIsTreeHash` | noid_chain/src/exact_state_hash.rs:31-34 | The root of any aligned or unaligned run of leaves is the hash, by the hasher's own two-to-one function with the left child first, of the perfect tree over that run. |
| `PerfectTrees.SlotsRootIsTreeHash` | noid_chain/src/exact_state_hash.rs:24-34 | The root of a slot vector is the hash of the perfect tree whose leaves, left to right, are the hashed slots. |
| `PerfectTrees.SegmentRootIsTreeHash` | noid_chain/src/exact_segment_cache.rs:28-66 | A built segment tree has the root of the perfect tree over the slots its three columns spell, value, high and low owner in that order. |
| `PerfectTrees.PerfectIsUnique` | noid_chain/src/exact_state_hash.rs:31-34 | There is one perfect tree over a vector, so these statements fix the roots. |
| `PairHashing.InjectiveIffNoCollision` | noid_chain/src/exact_state_hash.rs:31-34 | A two-to-one hash is injective if and only if no collision of it can be exhibited. |
| `SegmentTree.ExactSegmentTree.FromColumns` | noid_chain/src/exact_segment_cache.rs:28-66 | The bottom-up build with the zero-subtree shortcut yields exactly the complete hash tree over the columns' leaf hashes, for every depth and every column set. |
| `SegmentTree.ExactSegmentTree.HashLevel` | noid_chain/src/exact_segment_cache.rs:43-58 | Hashing one level in place, shortcut included, leaves every node from that level down equal to the hash of its children and the leaves untouched. |
| `SegmentTree.ExactSegmentTree.SetSlot` | noid_chain/src/exact_segment_cache.rs:87-114 | The in-place write with both early exits leaves the whole tree equal to the complete tree over the rewritten leaves. |
| `SegmentTree.ExactSegmentTree.RehashPath` | noid_chain/src/exact_segment_cache.rs:97-113 | If only the parent of the written leaf may be stale, the climb (stopping at the first already-right hash) ends with a complete tree. |
| `SegmentTree.SubtreeRootIsRangeRoot` | noid_chain/src/exact_segment_cache.rs:76-85 | `subtree_root(level, index)` is the recursive root of slots `index*2^level .. (index+1)*2^level`, and nothing exactly when that range is outside the tree. |
| `SegmentTree.WriteIsRebuild` | noid_chain/src/exact_segment_cache.rs:87-114 | Writing a slot through the tree and rebuilding from the rewritten columns give the same tree, node for node. |
| `SegmentOverlay.InKeyOrderSplits` | noid_chain/src/exact_segment_cache.rs:118-154 | An ordered update map splits at any bound, and the partition point of its key-ordered entries is exactly that split. |
| `SegmentOverlay.OverlayIsRangeRoot` | noid_chain/src/exact_segment_cache.rs:136-154 | The recursive overlay over any node, any pending key-ordered updates and any depth is the recursive root of the updated slot range. |
| `SegmentOverlay.OverlayIsRebuild` | noid_chain/src/exact_segment_cache.rs:118-154 | The read-only preview equals the root of a fresh build from the updated columns and the plain recursive root. |
| `SegmentOverlay.WrittenIsRebuild` | noid_chain/src/exact_segment_cache.rs:28-114 | Any run of slot writes leaves the tree that a fresh build from the net-updated columns gives. |
| `SegmentOverlay.EveryUpdatePathAgrees` | noid_chain/src/exact_segment_cache.rs:28-154 | For every column set and every run of writes: writes one by one, the overlay of their net effect and a fresh rebuild have one root. |
| `SegmentOverlay.WriteOrderIsIrrelevant` | noid_chain/src/exact_segment_cache.rs:118-134 | Writes to distinct slots have the same net effect in every order. |
| `SegmentOverlay.WriteSlots` | noid_chain/src/exact_segment_cache.rs:87-114 | A run of in-place writes on a tree object leaves the value the run specifies. |
| `StreamingRoot.StreamingSparseRoot.AppendBlock` | noid_chain/src/state.rs:88-99 | Pushing a block and merging equal-size neighbours keeps the pending stack a strictly descending tiling of everything streamed, each entry the recursive root of its block. |
| `StreamingRoot.StreamingSparseRoot.FillZeroGap` | noid_chain/src/state.rs:101-121 | Succeeds exactly for an end between the position and the tree size, and then has streamed exactly that many empty leaves; otherwise nothing changes. |
| `StreamingRoot.StreamingSparseRoot.PushLeaf` | noid_chain/src/state.rs:123-133 | Streams the gap and the leaf; accepts exactly the indices from the position up to and including the tree size, as the code does. |
| `StreamingRoot.StreamingSparseRoot.Finish` | noid_chain/src/state.rs:135-145 | Returns the recursive root over all streamed leaves and the empty rest, or an error exactly when the stream ran past the tree. |
| `StreamingRoot.AppendedLevelFits` | noid_chain/src/state.rs:107-119 | A block no larger than the position's alignment is never larger than the last pending block, so merging is always possible in order. |
| `StreamingRoot.AlignedIffTrailingZeros` | noid_chain/src/state.rs:107-119 | A position is aligned to a block size exactly up to its trailing zeros, so the block chosen for a gap is the largest that is. |
| `StreamingRoot.CompleteStackIsOneBlock` | noid_chain/src/state.rs:135-145 | Once the whole tree is tiled by descending blocks a single block of full depth is left. |
| `StreamingRoot.StreamedSegmentRoot` | noid_chain/src/state.rs:268-301 | The uncached reference stream over columns and updates returns the recursive root of the previewed slots, for absent, short and full columns. |
| `SegmentCacheModel.InsertEvictsShortestPrefix` | noid_chain/src/exact_segment_cache.rs:196-208 | An admitted insert evicts exactly the shortest oldest-first prefix that lets the new tree fit, keeps the rest in order and appends the new entry. |
| `SegmentCacheModel.OnlyItsOwnEntryMoves` | noid_chain/src/exact_segment_cache.rs:189-216 | Removal drops only that segment's entry; a write moves only its own entry, to the recent end; all others keep their order. |
| `SegmentCacheModel.BelowIsSmaller` | noid_chain/src/exact_segment_cache.rs:223-230 | Truncation keeps ids distinct and never increases the resident bytes. |
| `SegmentCacheModel.BelowKeeps` | noid_chain/src/exact_segment_cache.rs:223-230 | Truncation keeps exactly the entries below the count, in their order. |
| `SegmentCacheModel.GetAfterPut` | noid_chain/src/exact_segment_cache.rs:181-216 | A lookup finds what was last inserted or written for its segment; a removal hides that segment and no other. |
| `SegmentCacheModel.BuiltTreeBytes` | noid_chain/src/exact_segment_cache.rs:156-159 | The resident size of a built tree, in closed form. |
| `SegmentCacheModel.AtMostNineTrees` | noid_chain/src/exact_segment_cache.rs:14-17 | With 2^16-slot trees and the default budget a view holds at most nine trees. |
| `SegmentCache.ExactSegmentCache.Remove` | noid_chain/src/exact_segment_cache.rs:189-194 | Removes the entry and subtracts its exact size; the subtraction never goes below zero. |
| `SegmentCache.ExactSegmentCache.EvictFor` | noid_chain/src/exact_segment_cache.rs:202-205 | The eviction loop ends, never pops from an empty list, and leaves exactly the entries the specification keeps. |
| `SegmentCache.ExactSegmentCache.Insert` | noid_chain/src/exact_segment_cache.rs:196-208 | The whole new state of an insert, refused (after the removal) when the tree alone exceeds the budget. |
| `SegmentCache.ExactSegmentCache.UpdateSlot` | noid_chain/src/exact_segment_cache.rs:210-216 | The whole new state of a write: a shared tree is copied first and left alone, the written tree is the rebuilt one, its entry goes last, the size is unchanged. |
| `SegmentCache.ExactSegmentCache.TruncateSegments` | noid_chain/src/exact_segment_cache.rs:223-230 | Keeps exactly the entries below the count and re-sums their bytes. |
| `SegmentCacheRuns.Run` | noid_chain/src/exact_segment_cache.rs:181-231 | Over every feasible run of build-and-insert, write, replace, remove, clear and truncate beside the plain columns, bytes are the exact sum within budget, ids are distinct and every cached tree is the rebuilt one. |
| `SegmentCacheRuns.StepKeepsCoherent` | noid_chain/src/exact_segment_cache.rs:181-231 | Each single step keeps that agreement and the budget. |
| `SegmentCacheRuns.CachedTreeIsRebuilt` | noid_chain/src/exact_segment_cache.rs:4-5 | After every run a cached answer is, node for node, the tree a rebuild from the segment's current columns gives. |
| `SegmentCacheRuns.RunIsInTouchOrder` | noid_chain/src/exact_segment_cache.rs:196-216 | After every run from an empty cache the entries stand in order of their last insert or write; lookups do not count. |
| `SegmentCacheRuns.RunHoldsAtMostNineTrees` | noid_chain/src/exact_segment_cache.rs:14-17 | In every reachable state at production geometry at most nine trees are held. |
| `SegmentCacheClones.CacheFamily.Clone` | noid_chain/src/exact_segment_cache.rs:162-169 | Cloning adds a view equal to the cloned one and changes no other view. |
| `SegmentCacheClones.CacheFamily.UpdateSlot` | noid_chain/src/exact_segment_cache.rs:210-216 | With trees as shared heap objects, a slot write through one clone is seen by that clone alone. |
| `SegmentCacheClones.CacheFamily.WriteThrough` | noid_chain/src/exact_segment_cache.rs:210-216 | A tree is written in place exactly if its handle is the only one in the family, and otherwise on a fresh copy that no other handle sees. |
| `SegmentCacheClones.CacheFamily.UniqueIsOneHandle` | noid_chain/src/exact_segment_cache.rs:210-216 | A handle is unique exactly if the set of all handles to its tree is that handle. |
| `SegmentCacheClones.CacheFamily.Replay` | noid_chain/src/exact_segment_cache.rs:162-231 | Under any interleaving of operations through clones and of taking new clones, each clone shows exactly what its own history (with its source's history before it was taken) would have left on a cache nobody shares. |
| `SegmentedState.SegmentedState.Slot` | noid_chain/src/segmented_state.rs:531-543 | Reads the segment's contents whether the segment is resident or virtually zero. |
| `SegmentedState.SegmentedState.WriteSlot` | noid_chain/src/segmented_state.rs:576-633 | One write keeps contents, exact live count, residency (dropped with the last live slot) and the cached tree in step, and marks the segment dirty exactly when the slot changed. |
| `SegmentedState.SegmentedState.ApplyDelta` | noid_chain/src/segmented_state.rs:570-634 | Succeeds exactly when every global index is in range; then the slot vector is overwritten index by index, last write winning, and every segment that moved is marked; otherwise nothing changes. |
| `SegmentedState.SegmentedState.Expand` | noid_chain/src/segmented_state.rs:1255-1316 | Below full segment size the one segment is padded with empty slots and marked, at full size as many zero segments follow; residency, live counts and cached trees stay in step. |
| `SegmentedState.SegmentedState.ExactSegmentRoot` | noid_chain/src/segmented_state.rs:776-796 | Cached, zero or rebuilt, the answer is the root of the segment's contents; refused exactly for evicted segments; nothing but the cache changes, which gains the tree exactly on a miss of a resident segment with live slots. |
| `SegmentedState.SegmentedState.PreviewSegmentRoot` | noid_chain/src/state.rs:866-873 | With or without a cached tree, the previewed root is the root of the updated contents. |
| `SegmentedState.SegmentedState.CurrentSegmentRoot` | noid_chain/src/state.rs:834-844 | The cached root and the streamed root are both the root of the contents. |
| `SegmentedState.SegmentedState.EvictSegment` | noid_chain/src/segmented_state.rs:990-999 | Drops columns and tree; what the segment holds, its live count and every other segment stay. |
| `SegmentedState.SegmentedState.RestoreEvictedSegment` | noid_chain/src/segmented_state.rs:1011-1031 | Installs any columns of the segment's size, resident or as the virtual zero segment, with their own live count; no other segment changes. |
| `SegmentedState.SegmentedState.EvictColdSegments` | noid_chain/src/segmented_state.rs:1191-1208 | Evicts exactly the live segments without a cached tree; no tree is lost and no content changes. |
| `SegmentedState.WriteKeepsSegmentOk` | noid_chain/src/segmented_state.rs:590-621 | The live count moves by exactly the weight of the write, and a segment whose count reaches zero is the zero segment. |
| `SegmentedState.LiveCountIsCardinality` | noid_chain/src/segmented_state.rs:590-621 | The live count of columns is the number of slots that are not all zero. |
| `SegmentReload.ReloadIsAuthentic` | noid_chain/src/state.rs:685-724 | Columns that pass the reload check under the remembered root are the evicted contents, or a leaf or node hash collision is exhibited. |
| `SegmentReload.ReloadAcceptsContents` | noid_chain/src/state.rs:685-724 | The evicted contents themselves always pass the reload check. |
| `SegmentReload.InjectiveIffNoForgery` | noid_chain/src/exact_state_hash.rs:24-34 | A forgery can be exhibited if and only if the leaf or the node hash is not injective. |
| `StateRoot.TwoLevelRoot` | noid_chain/src/state.rs:147-158 | A tree over the roots of equal blocks has the root of the tree over all leaves, at every depth. |
| `StateRoot.RootOfSegmentRoots` | noid_chain/src/state.rs:192-198 | Hashing the segment roots together is the plain root over every slot of the state. |
| `StateRoot.ExactSegmentRootCache.Root` | noid_chain/src/state.rs:192-198 | For one segment or many the compact cache answers with the recursive root of its segment roots. |
| `StateRoot.ExactSegmentRootCache.SetSegmentRoot` | noid_chain/src/state.rs:200-213 | Replaces one root and leaves the upper tree complete over the new roots. |
| `StateRoot.ExactSegmentRootCache.BuildTree` | noid_chain/src/state.rs:179-189 | The descending loop builds the complete upper tree. |
| `StateRoot.ExactSegmentRootCache.SegmentNodeHash` | noid_chain/src/state.rs:215-226 | Answers exactly inside the upper tree, with the recursive root of the segment roots below the node. |
| `StateRoot.ExactSegmentRootCache.ExpandOne` | noid_chain/src/state.rs:228-248 | The whole new compact cache of one more level, in both geometries, with its upper tree complete. |
| `StateRoot.GrowthKeepsClean` | noid_chain/src/state.rs:228-248 | Roots that are current stay current: grown roots are the doubled state's own, segment by segment. |
| `StateRoot.DoubledRoot` | noid_chain/src/state.rs:588-613 | The root of the doubled state is the old root hashed with an empty subtree, whichever way the segments change. |
| `StateLayout.DoubledSlots` | noid_chain/src/segmented_state.rs:1244-1255 | Doubling appends as many empty slots, whether a segment grows or the number of segments doubles. |
| `StateLayout.EverySlotIsWritten` | noid_chain/src/state.rs:811-822 | Grouping updates by segment loses and moves none: the whole slot vector is overwritten index by index. |
| `StateRoot.Refresh` | noid_chain/src/state.rs:826-846 | Brings every locally changed segment root up to date; names a changed segment that is away exactly if there is one. |
| `StateRoot.RootAfterSlotUpdates` | noid_chain/src/state.rs:800-876 | The previewed state root, from compact roots, cached trees and streamed segments, is the plain root over the updated (and possibly doubled) slot vector; each error is returned exactly for its cause: a depth that is not the present or the next one, an index out of range, a dirty or touched segment that is away, a compact root that is not the committed one. |
| `ChainState.ChainState.constructor` | noid_chain/src/state.rs:386-396 | A fresh state is sealed, holds empty slots only and accounts for a zero supply, at every depth. |
| `ChainState.ChainState.TryStateRoot` | noid_chain/src/state.rs:639-661 | Refreshing cached segments first and cold ones after seals the state under the plain root of all slots; refused exactly while a dirty segment is away, and then slots, marks and root are as before. |
| `ChainState.ChainState.ExpandOne` | noid_chain/src/state.rs:588-613 | State and compact roots double together, the new root is the old one beside an empty subtree, and a sealed state stays sealed. |
| `ChainState.ChainState.RestoreEvictedSegment` | noid_chain/src/state.rs:685-724 | Accepts exactly columns of the right length, live count and compact root; if the root was current they are the evicted contents or a collision is exhibited; every clean root stays current. |
| `ChainState.ChainState.SupplyAfterSlotUpdates` | noid_chain/src/state.rs:544-570 | Refused if an updated slot is away; whatever the supply was, an answer moves it by exactly what the slots' total moves by and fits 128 bits; from an accounted state it is refused only then, and is the exact total of the updated slots: neither the subtraction nor the addition overflows. |
| `ChainState.AmountOfPacked` | noid_chain/src/fri_state.rs:84-88 | A value packed from a creation id and an amount, each below 2^64, counts as that amount, whatever the id and the owner. |
| `ChainState.TotalAfterUpdates` | noid_chain/src/state.rs:544-570 | Conservation: for any slots and any updates of distinct slots, the new total plus the low halves spent is the old total plus the low halves created. |
| `ChainState.ChainState.ApplyVerifiedTransition` | noid_chain/src/state.rs:878-927 | The committed root is exactly the previewed one: on success the slots are the previewed ones, the state is sealed under their plain root and the supply is their total, moved by exactly what the updates create less what they spend; from an accounted state it succeeds exactly when the preview does, gives the promised root and the state can grow; a refusal changes nothing. |
| `ChainState.ChainState.RevertBlock` | noid_chain/src/consensus/da_prune.rs:137-164 | Puts an undo log back, newest entry first, skipping entries past the end; refused exactly while one of its slots is away; with no slot listed twice the supply stays the slots' total. |
| `ChainRuns.Perform` | noid_chain/src/state.rs:588-927 | One operation leaves the slots the plain vector has, reports only plain roots, and from an accounted state is refused exactly when a segment it needs is away, its columns fail the reload check, it would pass 32 levels, or its transition does not preview to the promised root. |
| `ChainRuns.Run` | noid_chain/src/state.rs:588-927 | Over every run of transitions, undo logs, evictions, reloads, sealing and growth the slots are those of a plain vector, every root reported on the way is the plain recursive root of that vector at that point, and the supply stays its total, or a reload has exhibited a collision. |
| `ChainRuns.RootAlongRun` | noid_chain/src/state.rs:639-661 | Each root a run reports is the plain root of the slot vector at that point of the run. |
| `ChainUndo.BuildUndoLog` | noid_chain/src/consensus/da_prune.rs:74-126 | Lists every recorded slot exactly once with what it held, outputs in a new upper half as empty. |
| `ChainUndo.LogListsExactly` | noid_chain/src/consensus/da_prune.rs:82-115 | The log holds a slot exactly if an input inside the parent or an output inside the child touches it, with what it held, and empty past the parent's end. |
| `ChainUndo.UndoRestores` | noid_chain/src/consensus/da_prune.rs:128-164 | For every slot vector and every covered update list, overwriting and putting the log back is the identity (with the empty upper half if the state grew). |
| `ChainUndo.TransitionAndBack` | noid_chain/src/consensus/da_prune.rs:128-164 | Log, transition, revert and seal: slots, supply and root are the old ones, or the old root beside an empty subtree if the state grew. |
| `StateFrontier.LocalNode` | noid_chain/src/state.rs:763-787 | A node below the segment roots, from a cached tree or streamed from columns, is the whole tree's node. |
| `StateFrontier.CompactNode` | noid_chain/src/state.rs:755-761 | A node from the segment roots up is the whole tree's node. |
| `StateFrontier.ExactFrontierSiblings` | noid_chain/src/state.rs:730-790 | The siblings read segment by segment are the frontier of the tree over every slot, in order, and reconstruct the chain's root from the touched slots; refused exactly at another depth, while unsealed, for a set that is not canonical, or when a segment it must look into is away. |
| `StateFrontier.TouchedSegmentsSuffice` | noid_chain/src/state.rs:726-729 | Reading a frontier never looks into the tree of a segment no touched slot is in, so touched segments in memory are enough. |
| `SparseMultiproof.ProofIsComplete` | noid_chain/src/sparse_merkle.rs:633-694 | The touched hashes of any hash tree and its own frontier reconstruct that tree's root, for every canonical index set and depth. |
| `SparseMultiproof.ProofCarriesUpdate` | noid_chain/src/sparse_merkle.rs:102-118 | One frontier authenticates both sides of an update: old leaves to the old root and new leaves to the new root. |
| `SparseMultiproof.RootBindsProof` | noid_chain/src/sparse_merkle.rs:633-694 | Two proofs with one root are the same leaves and the same siblings, or a node-hash collision is exhibited. |
| `SparseMultiproof.ProofIsSound` | noid_chain/src/sparse_merkle.rs:633-694 | A proof accepted against a tree's root holds that tree's own leaves and frontier, or a collision is exhibited. |
| `SparseMultiproof.MissingIsUntouched` | noid_chain/src/sparse_merkle.rs:421-455 | A frontier position is never touched itself and its sibling always is. |
| `SparseMultiproof.ParentTouched` | noid_chain/src/sparse_merkle.rs:393-415 | A node is in the next level's touched set exactly when one of its children was touched. |
| `FrontierPositions.FrontierExactly` | noid_chain/src/sparse_merkle.rs:417-455 | A node is in the frontier of a touched set exactly if it is below the root, no touched leaf is under it, and one is under its sibling. |
| `FrontierPositions.FrontierIsOrdered` | noid_chain/src/sparse_merkle.rs:417-455 | The frontier is listed from the leaves up and from left to right, so with its membership it is one list. |
| `MultiproofVerifier.ValidateIndices` | noid_chain/src/sparse_merkle.rs:1097-1119 | Accepts exactly depths up to 32 with nonempty, strictly sorted, in-range indices, and otherwise names the fault of the first bad index after a canonical prefix. |
| `MultiproofVerifier.LevelUp` | noid_chain/src/sparse_merkle.rs:662-687 | The scan with lookups and a processed set hashes every touched parent once, in order, and consumes exactly the missing siblings. |
| `MultiproofVerifier.ExpectedSiblingCount` | noid_chain/src/sparse_merkle.rs:393-415 | Counts exactly the frontier of a canonical set and rejects every other set. |
| `MultiproofVerifier.ReconstructRoot` | noid_chain/src/sparse_merkle.rs:633-694 | Succeeds exactly for matching leaf count, canonical indices and exact proof length, and then returns the reconstructed root. |
| `MultiproofVerifier.FrontierIsBounded` | noid_chain/src/sparse_merkle.rs:294-330 | No touched set of a given size and depth needs more siblings than the widest one. |
| `MultiproofVerifier.BoundIsReached` | noid_chain/src/sparse_merkle.rs:294-330 | For every size and depth an evenly spread touched set needs exactly that many. |
| `MultiproofVerifier.MaximumSiblingCount` | noid_chain/src/sparse_merkle.rs:305-330 | The closed form with its covering-power loop computes that maximum. |
| `MultiproofVerifier.CapacityIsExact` | noid_chain/src/sparse_merkle.rs:294-330 | The computed capacity suffices for every touched set of the size and is needed by one of them. |
| `SegmentCapacity.ClimbCountsSegments` | noid_chain/src/sparse_merkle.rs:325-336 | As many nodes are left at the segment level as there are segments touched. |
| `SegmentCapacity.SegmentedFrontierIsBounded` | noid_chain/src/sparse_merkle.rs:325-390 | No touched set in a given number of segments needs more siblings than the level-by-level bound. |
| `SegmentCapacity.SegmentedBoundIsReached` | noid_chain/src/sparse_merkle.rs:325-390 | For every number of segments that has room an explicit touched set needs exactly that many. |
| `SegmentCapacity.WidestIsBalanced` | noid_chain/src/sparse_merkle.rs:328-334 | The balanced distribution attains that bound: it is the sum of the segments' own maxima, for every size, segment count and depth. |
| `SegmentCapacity.MaximumWithSegmentCap` | noid_chain/src/sparse_merkle.rs:338-390 | The capped maximum is exact: no touched set of the size in at most that many segments needs more, and one of them needs as many. |
| `MultiproofPaths.PathFoldsToRoot` | noid_chain/src/sparse_merkle.rs:702-810 | Whatever leaf stands at a touched index, folding it up its expanded path gives the reconstructed root, and the path does not depend on that leaf. |
| `MultiproofUpdates.BuildNodes` | noid_chain/src/sparse_merkle.rs:854-896 | Leaves, frontier and ancestors, stored level by level, are the partial tree over the touched leaves. |
| `MultiproofUpdates.RewritingReadsAs` | noid_chain/src/sparse_merkle.rs:912-929 | Rewriting one path of the node map in place turns the partial tree over the current leaves into the one over the leaves with that leaf replaced. |
| `MultiproofUpdates.BesideIsPath` | noid_chain/src/sparse_merkle.rs:914-918 | The siblings met in the rewritten map are the expanded path of the current leaves, and every one is there. |
| `MultiproofUpdates.SequentialUpdates` | noid_chain/src/sparse_merkle.rs:823-941 | Succeeds exactly for matching leaf counts, canonical indices and exact proof length, with the source's errors otherwise; then one single-leaf update per touched slot: each step's siblings authenticate the old leaf before and the new leaf after, steps chain, and the chain runs from the root of the old leaves to the root of the new ones. |
| `MultiproofSegments.WriteAbove` | noid_chain/src/sparse_merkle.rs:964-980 | Writing one leaf moves one hash at the cut, to exactly what its lower path folds to, for any siblings. |
| `MultiproofSegments.GroupMovesOneHash` | noid_chain/src/sparse_merkle.rs:998-1003 | Local updates of one segment chain, and together move that segment's hash only. |
| `MultiproofSegments.GroupIsOneUpdate` | noid_chain/src/sparse_merkle.rs:1004-1020 | The upper path of a segment's first step carries its old root to the root before the group and its new root to the root after it. |
| `MultiproofSegments.ExpandSegmentedUpdates` | noid_chain/src/sparse_merkle.rs:951-1043 | Every local update authenticates its leaf under its segment's root, one upper update per touched segment, in ascending order, carries that root's change, and the upper updates alone chain from the old root to the new one; refused exactly when the sequential update is. |
| `UpdateReplay.DirectionsFold` | noid_chain/src/sparse_merkle.rs:912-929 | Folding by the recorded sides alone is folding by the index. |
| `UpdateReplay.ReplaysIffChained` | noid_chain/src/sparse_merkle.rs:823-941 | A replay succeeds exactly if every old leaf folds to the root the steps before it left, and ends at the last step's root. |
| `UpdateReplay.SequentialUpdatesReplay` | noid_chain/src/sparse_merkle.rs:823-941 | A reader of the steps alone, folding old and new leaf by siblings and sides, is carried from the root of the old leaves to the root of the new ones. |
| `UpdateReplay.SegmentedUpdatesReplay` | noid_chain/src/sparse_merkle.rs:951-1043 | The same in two levels: each group of local steps stays in its segment and carries the segment's old root to its new one, and the segment steps carry the state root. |
| `StructuralPlan.DerivePlan` | noid_chain/src/sparse_merkle.rs:463-528 | The level loop derives the specified plan, exactly for canonical sets. |
| `StructuralPlan.PlanCount` | noid_chain/src/sparse_merkle.rs:520-520 | A plan has one combine fewer than it has leaves and siblings. |
| `StructuralPlan.PlanComputesRoot` | noid_chain/src/sparse_merkle.rs:457-562 | A plan derived from positions alone refers only to leaves, siblings and earlier combines, and run on any leaves and siblings computes the root that reconstruction does. |
| `StructuralPlan.EvaluatePlan` | noid_chain/src/sparse_merkle.rs:535-578 | Running the combines once, in order, gives the specified hashes and root; lists of another length are refused. |
| `StructuralPlan.PadFrontier` | noid_chain/src/sparse_merkle.rs:581-601 | Fills a frontier of exactly the derived length up to the class capacity. |
| `StructuralPlan.UnpadFrontier` | noid_chain/src/sparse_merkle.rs:604-630 | Accepts exactly the paddings of a frontier of the derived length and returns that frontier, although a live sibling may equal the pad. |
| `SparseMerkleCache.SparseMerkleCache.SetLeaf` | noid_chain/src/sparse_merkle.rs:265-291 | Writes a leaf and its path so that every level reads as the hash tree over the written leaves and nothing equal to its zero root is stored; an index out of range changes nothing. |
| `SparseMerkleCache.SparseMerkleCache.RootIsMerkleRoot` | noid_chain/src/sparse_merkle.rs:252-262 | The cache's root is the plain recursive root over all leaves. |
| `SparseMerkleCache.SparseMerkleCache.BuildMultiproof` | noid_chain/src/sparse_merkle.rs:1062-1079 | The built proof is the tree's own hashes at the frontier positions, in order; refused exactly at another depth or for a set that is not canonical. |
| `SparseMerkleCache.StoredNodesAreCanonical` | noid_chain/src/sparse_merkle.rs:285-291 | What is stored depends on the leaves alone, not on the order of writes. |
| `SparseMerkleCache.CacheProofCarriesUpdate` | noid_chain/src/sparse_merkle.rs:1062-1079 | A proof built from the cache reconstructs the cache's root and, with new touched leaves, the root of the updated tree. |
| `HashLayers.LayerRootIsRecursive` | noid_chain/src/tx_tree.rs:45-63 | The layer-by-layer root is the recursive one: the hash of the roots of the two halves. |
| `HashLayers.FoldBinds` | noid_chain/src/tx_tree.rs:92-113 | A leaf and path that fold to a tree's root are the tree's own, or a collision is exhibited. |
| `TxTree.RootFromHashes` | noid_chain/src/tx_tree.rs:45-63 | The halving loop computes the count-bound root, and the zero root for no transactions. |
| `TxTree.PathFromHashes` | noid_chain/src/tx_tree.rs:66-89 | The loop collects exactly the siblings of the leaf, bottom up. |
| `TxTree.VerifyPath` | noid_chain/src/tx_tree.rs:92-113 | Accepts exactly an index below a count of 1 to 256 whose fold, bound to the count, is the claimed root. |
| `TxTree.InclusionIsComplete` | noid_chain/src/tx_tree.rs:66-113 | Every transaction's own path verifies, for every list of 1 to 256 transactions. |
| `TxTree.InclusionIsSound` | noid_chain/src/tx_tree.rs:6-13 | Whatever verifies against a block's root is that block's transaction at that index with the real count and the real path, or a collision is exhibited. |
| `TxTree.RootBindsList` | noid_chain/src/tx_tree.rs:6-13 | Two nonempty transaction lists with one root are the same list, or a collision is exhibited. |
| `PerfectTrees.LayerRootIsTreeHash` | noid_chain/src/tx_tree.rs:53-61 | A tree hashed layer by layer has the root of the perfect tree over its leaves, over any two-to-one hash. |
| `PerfectTrees.TransactionRootIsTreeHash` | noid_chain/src/tx_tree.rs:6-63 | The header's transaction root is the tagged hash of the perfect tree over the transactions and zero digests up to 256, and the count; the empty list has the zero root. |
| `PerfectTrees.FoldFromTop` | noid_chain/src/tx_tree.rs:92-113 | Read from the root down, a folded path hashes its topmost sibling on the side the index's top bit leaves free. |
| `Sponge.Poseidon2bSponge.Update` | noid_poseidon2b/src/native/compression.rs:80-104 | However input is chopped into updates, the sponge state is that of the concatenated byte stream. |
| `Sponge.Poseidon2bSponge.Finalize` | noid_poseidon2b/src/native/compression.rs:126-130 | The digest is a function of the initial state and the whole absorbed stream. |
| `Sponge.PaddingBinds` | noid_poseidon2b/src/native/compression.rs:293-298 | Padding is injective: different streams are different padded streams. |
| `Sponge.PaddedBytes` | noid_poseidon2b/src/native/compression.rs:293-298 | The padded stream is the data, `0x80`, zeros, and `0x01` added to the last byte of the last 32-byte block. |
| `Sponge.HashMixesPaddedBlocks` | noid_poseidon2b/src/native/compression.rs:80-130 | The digest reads out the lanes after every 32-byte block of the padded stream has been mixed in, in order. |
| `BlockHeader.HeaderSurvives` | noid_chain/src/wire.rs:106-163 | Decoding an encoded header gives the header back. |
| `BlockHeader.WireSurvives` | noid_chain/src/wire.rs:129-163 | Decoding accepts exactly the 212-byte strings, and each re-encodes to itself. |
| `BlockHeader.WireLayout` | noid_chain/src/wire.rs:70-118 | Where each of the eleven fields stands in the 212 bytes, and in which form. |
| `BlockHeader.TranscriptBinds` | noid_chain/src/block_header.rs:73-89 | Two headers have equal chain-link transcripts if and only if they are equal. |
| `BlockHeader.SemanticTranscriptBinds` | noid_chain/src/block_header.rs:104-119 | Two headers have equal semantic transcripts if and only if they differ at most in the nonce. |
| `BlockHeader.HashInputBinds` | noid_chain/src/block_header.rs:73-126 | The same two equivalences for the padded byte streams the permutation is fed. |
| `BlockHeader.AbsorbedLayout` | noid_chain/src/block_header.rs:73-89 | Where each field stands in the 256 bytes the chain-link hash absorbs. |
| `BlockHeader.SemanticSkipsNonce` | noid_chain/src/block_header.rs:97-119 | The nonce-free schedule is the chain-link one with the eleventh word, the nonce, left out. |
| `BlockHeader.HashBlockHeader` | noid_chain/src/block_header.rs:73-89 | The sequence of absorbs hashes exactly the chain-link transcript. |
| `BlockHeader.SemanticHeaderId` | noid_chain/src/block_header.rs:104-126 | The sequence of absorbs hashes exactly the nonce-free transcript. |
| `RecordCodecs.PageCodecIsLossless` | noid_tx/src/paged_spend.rs:85-115 | A page encodes to a string exactly when the string decodes to the page, shape and flag checks included. |
| `RecordCodecs.OpeningCodecIsLossless` | noid_tx/src/experimental_object.rs:338-393 | An opening encodes to a string exactly when the string decodes to the opening, marker, version and validity checks included. |
| `RecordLayouts.PageEncodesIff` | noid_tx/src/paged_spend.rs:516-537 | A page encodes exactly if it is no coinbase, sets no bit past the fourteenth, and is zero in every input and output whose bit is clear. |
| `RecordLayouts.PageLayout` | noid_tx/src/paged_spend.rs:539-551 | Where each field of an encoded page stands. |
| `RecordLayouts.InputLayout` | noid_tx/src/wire.rs:82-87 | Where each field of an encoded input stands. |
| `RecordLayouts.OutputLayout` | noid_tx/src/wire.rs:98-103 | Where each field of an encoded output stands. |
| `RecordLayouts.OpeningEncodesIff` | noid_tx/src/experimental_object.rs:86-94 | An opening encodes exactly if its mode byte is below 32 and all sixteen instructions decode. |
| `RecordLayouts.OpeningLayout` | noid_tx/src/experimental_object.rs:338-359 | Where each field of an encoded opening stands, marker and version included. |
| `RecordLayouts.RulesLayout` | noid_tx/src/experimental_object.rs:344-357 | Where each rule and each program word stands. |
| `Receipt.FindProofHeader` | noid_block/src/contract_receipt.rs:101-117 | The ancestry loop succeeds exactly if there are at most 42 descendants and each is one block higher than the header before it, names it by id and carries valid work; it then returns the last of them. |
| `Receipt.FollowsIffDescends` | noid_block/src/contract_receipt.rs:105-115 | The same for every run of headers, link by link. |
| `Receipt.DistinctIdsIffNoCollision` | noid_block/src/contract_receipt.rs:105-111 | Ids tell headers apart if and only if no collision of two headers can be exhibited. |
| `Receipt.ProofHeightIsCallHeightPlusDescendants` | noid_block/src/contract_receipt.rs:101-117 | The proof header's height is the call height plus the number of descendants. |
| `Receipt.RunsShareSuffix` | noid_block/src/contract_receipt.rs:101-117 | Two linked header runs that end in one header: the shorter is a suffix of the longer, or two different headers with one id are exhibited. |
| `Receipt.ReceiptsShareAncestry` | noid_block/src/contract_receipt.rs:101-117 | The same for two receipts under one proof header, with their heights aligned. |
| `ReceiptWire.ReceiptNamesBlockTransaction` | noid_block/src/contract_receipt.rs:119-139 | A receipt included under a block's transaction root names that block's transaction at its index and its transaction count, or a collision is exhibited. |
| `ReceiptWire.ReceiptCodecIsLossless` | noid_block/src/contract_receipt.rs:172-277 | In both formats a receipt prints to a string exactly when the string parses to the receipt. |
| `ReceiptWire.PrintsIffValid` | noid_block/src/contract_receipt.rs:90-139 | A receipt prints exactly if its records encode, the terminal has 1 to 1100000 bytes, the ancestry links with valid work, the call is checked at a height past activation, and the page id folds up the path, with the count, to the block's root. |
| `ReceiptLayouts.ReceiptLayout` | noid_block/src/contract_receipt.rs:172-201 | Where each part of a printed receipt stands, in both formats. |
| `ReceiptLayouts.PathLayout` | noid_block/src/contract_receipt.rs:188-190 | Sibling `i` of the path stands at byte `32 i` of its part. |
| `ReceiptWire.AcceptedArePrefixFree` | noid_block/src/contract_receipt.rs:203-236 | No accepted encoding is a proper prefix of another. |
| `ReceiptWire.PrintedLengths` | noid_block/src/contract_receipt.rs:18-27 | Every printed receipt is longer than the fixed part and at most the advertised maximum. |
| `ReceiptWire.Print` | noid_block/src/contract_receipt.rs:172-201 | Appending part by part to a buffer gives the specified string, refused exactly when a check fails. |
| `ReceiptWire.ParseHead` | noid_block/src/contract_receipt.rs:237-253 | Every slice of the shared head is in bounds and the cursor ends exactly behind it. |
| `ReceiptWire.Parse` | noid_block/src/contract_receipt.rs:203-277 | The cursor parser accepts exactly what the specification accepts; every slice is in bounds and the cursor ends at the terminal-length field. |
| `QuirkyEval.Evaluate` | bench_prover/benches/pcs_roofline.rs:81-108 | The block fold and the halving loops compute the specified evaluation. |
| `QuirkyEval.EvalIsWeightedSum` | bench_prover/benches/pcs_roofline.rs:81-108 | For every length and point the evaluation is the sum over all indices of value times Lagrange weight of the low bits times the product of `x` or `1 + x` over the bits of the block index. |
| `QuirkyEval.EvalIsLinear` | bench_prover/benches/pcs_roofline.rs:81-108 | The evaluation is linear in the values. |
| `QuirkyEval.BooleanPointSelectsBlock` | bench_prover/benches/pcs_roofline.rs:98-104 | At a Boolean point it is the Lagrange fold of the one block the point names. |
| `PowSearch.LessThan` | noid_chain/src/consensus/difficulty.rs:452-462 | The byte loop compares the two little-endian numbers. |
| `PowSearch.SearchPow` | noid_chain/src/consensus/pow.rs:147-165 | Returns the least winner at or after the start within the range, in saturating 128-bit arithmetic, and nothing exactly when there is none. |
| `PowSearch.MineFixtureHeader` | bench_prover/src/lib.rs:1790-1815 | For every lane count the miner returns the least winning nonce of the whole 128-bit space and gives up exactly when there is none, although lane starts wrap. |
| `PowSearch.LeastWinnerIsUnique` | bench_prover/src/lib.rs:1790-1815 | The least winner is unique, so the result does not depend on the lane count. |
| `PowSweep.SharesPartition` | bench_prover/benches/poseidon_pow_mining.rs:84-93 | When the split is sound, each nonce is in the range of its owner and of no other thread. |
| `PowSweep.TailBelongsToNoThread` | bench_prover/benches/poseidon_pow_mining.rs:84-93 | When it is not, every nonce of the last share is in no thread's range. |
| `PowSweep.PartitionIffSplits` | bench_prover/benches/poseidon_pow_mining.rs:84-93 | Every nonce below the count is in some thread's range if and only if the last share ends inside 64 bits or has nothing left to do. |
| `PowSweep.SweepRange` | bench_prover/benches/poseidon_pow_mining.rs:64-77 | The batched loop sums a range's digests and counts its nonces; inverted ranges do nothing. |
| `PowSweep.ChecksumOfOne` | bench_prover/benches/poseidon_pow_mining.rs:64-77 | The checksum of one nonce is its digest, which with the split at any point fixes every run's. |
| `PowSweep.SweepThreads` | bench_prover/benches/poseidon_pow_mining.rs:79-111 | Every thread's checksum is that of its own wrapping range, and the shared counter equals the attempts if and only if the split is sound. |
| `PowSweep.DoneCountIsExactIffSplits` | bench_prover/benches/poseidon_pow_mining.rs:79-111 | The sum of the threads' wrapped range sizes equals the attempts if and only if the split is sound, and is otherwise short by exactly the last share. |
| `PowSweep.WrapLosesWork` | bench_prover/benches/poseidon_pow_mining.rs:79-93 | A concrete failure: with 2^64-1 attempts on two threads the second range starts at 2^63 and ends at 0, and only 2^63 attempts are counted. |
| `PowSweep.BracketingIsIrrelevant` | bench_prover/benches/poseidon_pow_mining.rs:104-110 | However the reduction brackets the threads, the checksum is the in-order one. |
| `PowSweep.ParallelIsPrefix` | bench_prover/benches/poseidon_pow_mining.rs:64-111 | On any split, the parallel checksum is the sequential one over as many nonces as were counted. |
| `PowSweep.ParallelIsSequential` | bench_prover/benches/poseidon_pow_mining.rs:64-111 | On a sound split the parallel checksum equals the sequential one over the whole range. |
| `MatrixCache.RecentIsByLastRequest` | bench_prover/benches/history_step_proof.rs:84-139 | The recency list holds exactly the requested classes, ordered by last request. |
| `MatrixCache.PinnedMatrixCache.LoadChecked` | bench_prover/benches/history_step_proof.rs:84-139 | After every request the queue is exactly the newest distinct successfully requested classes up to capacity; a hit returns what the class's last load returned; a failed miss changes nothing. |
| `MatrixCache.PreloadPair` | bench_prover/benches/history_step_proof.rs:568-586 | At capacity two, loading the current class and then its parent leaves both in memory, in that order; a class in memory or that loads is never refused. |
| `FixtureTransactions.BuildIsSound` | bench_prover/src/lib.rs:1675-1788 | Every successful build hands out exactly the empty slots between the old and the new cursor, in strictly increasing order, and in every transaction fee plus two even halves is the input. |
| `FixtureTransactions.OutputsAreFresh` | bench_prover/src/lib.rs:1718-1735 | In every successful build no slot is handed out twice, none was live, and none is the input of any of its transactions. |
| `FixtureTransactions.TakeSlot` | bench_prover/src/lib.rs:1719-1735 | The cursor loop finds the least empty slot, fails exactly if no slot from the cursor on with a 32-bit successor is empty, and the reserved set never matters. |
| `FixtureTransactions.BuildsExactly` | bench_prover/src/lib.rs:1691-1778 | A transaction is built exactly if it spends a live entry under its own address, takes the next two empty slots, pays the scheduled fee, splits the rest in halves under the two derived seeds and passes page validation; it never fails without need. |
| `FixtureTransactions.ChildUserTransactions` | bench_prover/src/lib.rs:1675-1788 | The build loop succeeds exactly when the specification does, page and group validation included, and returns its transactions, new pool entries and cursor. |
| `FixturePool.BuildKeepsPoolLive` | bench_prover/src/lib.rs:1526-1541 | After a block's transactions every remaining and every created pool entry is live under its own wallet, and no slot is tracked twice. |
| `FixturePool.BuildConserves` | bench_prover/src/lib.rs:1737-1760 | A block's transactions take exactly their fees out of the total of all live slots. |
| `FixturePool.SurvivorsKeepValue` | bench_prover/src/lib.rs:1718-1735 | A live slot is still live after a block's transactions exactly if none of them spends it, and then holds what it held. |
| `FixturePool.FixtureCheckpoint.Advance` | bench_prover/src/lib.rs:1526-1541 | The whole new checkpoint of an accepted step, accepted exactly when the build succeeds, the sealed block passes its checks and the coinbase slot is free; the pool grows by users plus one, the total by the coinbase less the fees; a refused step changes nothing. |
| `FixturePool.FixtureCheckpoint.RunBackbone` | bench_prover/src/lib.rs:1609-1645 | A run stops exactly at the first step that is not acceptable; up to there the pool stays live and grows by users plus one per step, and the total by no more than the coinbases. |
| `CandidateInput.CollectContracts` | noid_block/src/candidate_history.rs:69-102 | The loop succeeds exactly when the openings sit in order on the consecutive bodies from the user start and no other body carries a contract bit; contract `i` then is opening `i` with the state its call executes to. |
| `CandidateInput.RewriteAuthorizations` | noid_block/src/candidate_history.rs:105-114 | Rewrites in place exactly the owners of the contracts' authorizations. |
| `CandidateInput.PrepareCandidateInput` | noid_block/src/candidate_history.rs:20-137 | Succeeds exactly when every check in turn does, from class, height and slot budgets over boundaries, anchors, root and page stream to proofs, accumulator and final input, with a sound contract prefix; then contract `i` goes from its opening's state to the state its call executes to, and each prepared authorization is owned by the controller below its opening's deadline and by the refund authority from it on. |
| `CandidateInput.PreparedIsUnique` | noid_block/src/candidate_history.rs:69-116 | What is prepared is fixed by the block, the openings and the components. |
| `CandidateInput.ContractBitsMarkPrefix` | noid_block/src/candidate_history.rs:69-102 | A body carries a contract bit if and only if it is in the prefix. |
| `CandidateInput.ContractNamesItsOpening` | noid_block/src/candidate_history.rs:81-114 | Contract `i` names body start plus `i`, takes every term from its opening, its next state and contexts from executing the body, and its terminal flag from the bitmap; the deadline selects its authority. |
| `CandidateInput.CallBits` | noid_tx/src/experimental_object.rs:170-185 | A call body has one input, its first output, start, end and contract bits, and a second output only if it is not terminal; the contract mask is bits 12 and 13. |
| `CandidateInput.AcceptedIff` | noid_block/src/candidate_history.rs:20-68 | The budgets of an accepted block: pages with the payout's own, live inputs, contract slots and activation height. |
| `CandidateInput.OpeningCountIsForced` | noid_block/src/candidate_history.rs:100-102 | A block fixes how many openings it takes. |

## Left out

- The Poseidon2b permutation, leaf and node hashes, field kernels, polynomial commitments, R1CS and recursive proving: arbitrary parameters here.
- Memory capacity: a tree's resident size is counted from lengths, where the code counts vector capacities, so that a slot write never changes it.
- The raw segment commitment (`seg_roots`, `dirty`, `mdbx_dirty`, `tree_dirty`) and the database behind it; only the exact-root dirty set is modelled.
- Shrinking the state after a reverted expansion, occupancy and allocation counters, and durable snapshots: each is bookkeeping beside the modelled slots.
- Depths of 64 and more, where building the stream fails on the shift; trees here have any depth, the chain state at most 32 levels.
- SegmentedState.SegmentedState.ApplyDelta: requires touched segments to be in memory, as the code demands of its callers.
- SegmentedState.SegmentedState.RestoreEvictedSegment: requires columns of the segment's size, which its caller has checked.
- StateRoot.RootAfterSlotUpdates: walks segments in ascending order where the code walks a hash set and a grouped ordered map; which of several missing segments an error names is therefore not fixed.
- ChainState.ChainState.SupplyAfterSlotUpdates: takes the updated slots in any order where the code takes them by index.
- ChainRuns.Run: a reload of a segment whose root waits to be hashed is refused, since its compact root says nothing about it; loading columns back from the database is the caller's.
- ChainUndo.TransitionAndBack: a block is its list of touched slots; deriving updates and touches from transactions is not modelled.
- Receipt `from_block` and `verify_v2`: they order checks of page streams and terminals that are parameters or absent here; `check_call`, page ids, proof of work and block ids are parameters of `Receipt.Chain`.
- RecordCodecs.OpeningCodecIsLossless: the instruction set is a parameter; error kinds of all receipt decoders collapse to one failure.
- BlockHeader.WireSurvives: a short input is one `Truncated` error whichever field it ends in, as in the code.
- QuirkyEval.Evaluate: Lagrange weights are any 64 field elements; the field is any commutative ring of characteristic two.
- PowSearch.MineFixtureHeader: at most 2^112 lanes, far above any machine; parallel lanes are searched one after another and their minimum taken.
- PowSweep.SweepThreads: at most 2^32 threads; threads run one after another, and every bracketing of the reduction is covered by a separate lemma.
- MatrixCache.PinnedMatrixCache.LoadChecked: reading, decompressing and authenticating a matrix is one outcome passed in; the mutex is not modelled.
- FixturePool.FixtureCheckpoint.Advance: consensus checks of the sealed block are one predicate; timestamps, accumulators, proofs and seeds' secrets are left out.
- CandidateInput.PrepareCandidateInput: each outside check is an arbitrary predicate and all error kinds are one refusal.
- Saturation fixtures, research mutations, timing and printing in the benchmarks; build scripts, release and orchestration scripts; mobile and GUI crates; wallet, network and RPC: each would only add easy members or has no algorithm to verify.
