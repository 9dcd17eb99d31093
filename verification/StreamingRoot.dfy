/** The uncached reference: a Merkle root from a sorted stream of live leaves in logarithmic memory. */
module StreamingRoot {
  import opened Options
  import opened Powers
  import opened StateHashing
  import opened SegmentTree

  /** A pending complete subtree: its level and its root. */
  type Pending = (nat, StateHash)

  /** The stack holds, oldest first, the roots of consecutive blocks that tile slots `0..end`. */
  ghost predicate Tiles(h: Hasher, stack: seq<Pending>, leaves: seq<StateHash>, end: nat) {
    if stack == [] then end == 0
    else
      var (level, root) := stack[|stack| - 1];
      && Pow2(level) <= end <= |leaves|
      && root == RangeRoot(h, leaves, level, end - Pow2(level))
      && Tiles(h, stack[..|stack| - 1], leaves, end - Pow2(level))
  }

  ghost predicate Descending(stack: seq<Pending>) {
    forall i, j :: 0 <= i < j < |stack| ==> stack[i].0 > stack[j].0
  }

  lemma {:induction false} TilesIsLocal(
      h: Hasher, stack: seq<Pending>, a: seq<StateHash>, b: seq<StateHash>, end: nat)
    requires Tiles(h, stack, a, end) && end <= |b|
    requires forall i :: 0 <= i < end && i < |a| ==> a[i] == b[i]
    ensures Tiles(h, stack, b, end)
    decreases |stack|
  {
    if stack != [] {
      var level := stack[|stack| - 1].0;
      RangeRootIsLocal(h, a, b, level, end - Pow2(level));
      TilesIsLocal(h, stack[..|stack| - 1], a, b, end - Pow2(level));
    }
  }

  // ---------------------------------------------------------------------
  // Alignment: the last pending level is the alignment of the position
  // ---------------------------------------------------------------------

  /** `2^level` divides `n`. */
  predicate Aligned(n: nat, level: nat)
    decreases level
  {
    level == 0 || (n % 2 == 0 && Aligned(n / 2, level - 1))
  }

  function TrailingZeros(n: nat): (zeros: nat)
    requires n > 0
  {
    if n % 2 == 1 then 0 else 1 + TrailingZeros(n / 2)
  }

  lemma {:induction false} AlignedToTrailingZeros(n: nat, level: nat)
    requires n > 0 && level <= TrailingZeros(n)
    ensures Aligned(n, level)
    decreases level
  {
    if level > 0 {
      AlignedToTrailingZeros(n / 2, level - 1);
    }
  }

  /** No larger block would be aligned: the zeros are counted exactly. */
  lemma {:induction false} AlignedIffTrailingZeros(n: nat, level: nat)
    requires n > 0
    ensures Aligned(n, level) <==> level <= TrailingZeros(n)
    decreases level
  {
    if level > 0 && n % 2 == 0 {
      AlignedIffTrailingZeros(n / 2, level - 1);
    }
  }

  /** Position of the highest set bit. */
  function Log2(n: nat): (log: nat)
    requires n > 0
    ensures Pow2(log) <= n < Pow2(log + 1)
  {
    if n < 2 then 0 else 1 + Log2(n / 2)
  }

  /** Slots tiled by blocks of the given levels. */
  ghost function Extent(levels: seq<nat>): nat {
    if levels == [] then 0 else Extent(levels[..|levels| - 1]) + Pow2(levels[|levels| - 1])
  }

  ghost function Lowered(levels: seq<nat>): (lowered: seq<nat>)
    requires forall i :: 0 <= i < |levels| ==> levels[i] > 0
  {
    seq(|levels|, i requires 0 <= i < |levels| => levels[i] - 1)
  }

  lemma {:induction false} LoweredHalvesExtent(levels: seq<nat>)
    requires forall i :: 0 <= i < |levels| ==> levels[i] > 0
    ensures Extent(levels) == 2 * Extent(Lowered(levels))
  {
    if levels != [] {
      var front := levels[..|levels| - 1];
      LoweredHalvesExtent(front);
      assert Lowered(levels)[..|front|] == Lowered(front);
    }
  }

  /** Blocks of strictly descending size tile an extent aligned no further than the last block. */
  lemma {:induction false} AlignmentBoundsLastLevel(levels: seq<nat>, level: nat)
    requires levels != [] && forall i, j :: 0 <= i < j < |levels| ==> levels[i] > levels[j]
    requires Aligned(Extent(levels), level)
    ensures level <= levels[|levels| - 1]
    decreases level
  {
    if level > 0 {
      var last := levels[|levels| - 1];
      if last == 0 {
        LoweredHalvesExtent(levels[..|levels| - 1]);
        assert false;
      } else {
        LoweredHalvesExtent(levels);
        AlignmentBoundsLastLevel(Lowered(levels), level - 1);
      }
    }
  }

  /** Strictly descending blocks below `2^top` never add up to `2^top`. */
  lemma {:induction false} ExtentBelow(levels: seq<nat>, top: nat)
    requires forall i, j :: 0 <= i < j < |levels| ==> levels[i] > levels[j]
    requires forall i :: 0 <= i < |levels| ==> levels[i] < top
    ensures Extent(levels) < Pow2(top)
    decreases top
  {
    if levels != [] {
      if levels[0] < top - 1 {
        ExtentBelow(levels, top - 1);
      } else {
        ExtentBelow(levels[1..], top - 1);
        ExtentHead(levels);
      }
    }
  }

  lemma {:induction false} ExtentHead(levels: seq<nat>)
    requires levels != []
    ensures Extent(levels) == Pow2(levels[0]) + Extent(levels[1..])
  {
    if |levels| > 1 {
      var front := levels[..|levels| - 1];
      ExtentHead(front);
      assert front[1..] == levels[1..][..|levels| - 2];
    }
  }

  ghost function Levels(stack: seq<Pending>): (levels: seq<nat>) {
    seq(|stack|, i requires 0 <= i < |stack| => stack[i].0)
  }

  lemma {:induction false} TilesExtent(h: Hasher, stack: seq<Pending>, leaves: seq<StateHash>, end: nat)
    requires Tiles(h, stack, leaves, end)
    ensures end == Extent(Levels(stack))
    decreases |stack|
  {
    if stack != [] {
      var front := stack[..|stack| - 1];
      TilesExtent(h, front, leaves, end - Pow2(stack[|stack| - 1].0));
      assert Levels(stack)[..|front|] == Levels(front);
    }
  }

  /** A block that fits the position's alignment is never larger than the last pending block. */
  lemma AppendedLevelFits(h: Hasher, stack: seq<Pending>, leaves: seq<StateHash>, end: nat, level: nat)
    requires Tiles(h, stack, leaves, end) && Descending(stack) && stack != [] && Aligned(end, level)
    ensures level <= stack[|stack| - 1].0
  {
    TilesExtent(h, stack, leaves, end);
    AlignmentBoundsLastLevel(Levels(stack), level);
  }

  /** Once all `2^depth` slots are tiled, a single block is left. */
  lemma CompleteStackIsOneBlock(h: Hasher, stack: seq<Pending>, leaves: seq<StateHash>, depth: nat)
    requires Tiles(h, stack, leaves, Pow2(depth)) && Descending(stack)
    ensures |stack| == 1 && stack[0] == (depth, RangeRoot(h, leaves, depth, 0))
  {
    TilesExtent(h, stack, leaves, Pow2(depth));
    var levels := Levels(stack);
    if levels[0] < depth {
      ExtentBelow(levels, depth);
    } else {
      ExtentHead(levels);
      Pow2Monotone(depth, levels[0]);
      if levels[0] > depth {
        Pow2Monotone(depth + 1, levels[0]);
      }
    }
  }

  /** A block of `level` over the last slots of `leaves`, with everything before it pending. */
  ghost predicate Appendable(h: Hasher, stack: seq<Pending>, leaves: seq<StateHash>, start: nat, level: nat,
                             root: StateHash)
  {
    && Descending(stack) && Tiles(h, stack, leaves, start)
    && (stack != [] ==> level <= stack[|stack| - 1].0)
    && start + Pow2(level) == |leaves|
    && root == RangeRoot(h, leaves, level, start)
  }

  /** Hashing a block with the pending block of its size gives the block of the next size. */
  lemma MergeKeepsAppendable(h: Hasher, stack: seq<Pending>, leaves: seq<StateHash>, start: nat, level: nat,
                             root: StateHash)
    requires Appendable(h, stack, leaves, start, level, root) && stack != [] && stack[|stack| - 1].0 == level
    ensures start >= Pow2(level)
    ensures Appendable(h, stack[..|stack| - 1], leaves, start - Pow2(level), level + 1,
                       NodeHash(h, stack[|stack| - 1].1, root))
  {
    var begin := start - Pow2(level);
    assert RangeRoot(h, leaves, level + 1, begin)
        == NodeHash(h, RangeRoot(h, leaves, level, begin), RangeRoot(h, leaves, level, start));
  }

  lemma PushTiles(h: Hasher, stack: seq<Pending>, leaves: seq<StateHash>, start: nat, level: nat, root: StateHash)
    requires Appendable(h, stack, leaves, start, level, root)
    requires stack != [] ==> stack[|stack| - 1].0 != level
    ensures Descending(stack + [(level, root)]) && Tiles(h, stack + [(level, root)], leaves, |leaves|)
  {
    assert (stack + [(level, root)])[..|stack|] == stack;
  }

  /** `n` empty leaves. */
  ghost function EmptyLeaves(h: Hasher, n: nat): (leaves: seq<StateHash>) {
    seq(n, _ => ZeroRoot(h, 0))
  }

  class StreamingSparseRoot {
    const h: Hasher
    const depth: nat
    const zeroRoots: seq<StateHash>
    var position: nat
    var stack: seq<Pending>
    /** Every leaf streamed so far, gaps included. */
    ghost var leaves: seq<StateHash>

    ghost predicate Valid()
      reads this
    {
      && AreZeroRoots(h, zeroRoots, depth)
      && |leaves| == position
      && Descending(stack)
      && Tiles(h, stack, leaves, position)
    }

    constructor (h: Hasher, depth: nat)
      ensures Valid() && this.h == h && this.depth == depth && position == 0
    {
      var zeros := ZeroSlotRoots(h, depth);
      this.h := h;
      this.depth := depth;
      zeroRoots := zeros;
      position := 0;
      stack := [];
      leaves := [];
    }

    /** Pushes a finished block, first merging it with every pending block of its own size. */
    method AppendBlock(blockLevel: nat, blockRoot: StateHash, ghost block: seq<StateHash>)
      requires Valid() && |block| == Pow2(blockLevel)
      requires blockRoot == RangeRoot(h, leaves + block, blockLevel, position)
      requires stack != [] ==> blockLevel <= stack[|stack| - 1].0
      modifies this`stack
      ensures Descending(stack) && Tiles(h, stack, leaves + block, position + Pow2(blockLevel))
    {
      hide Tiles, RangeRoot, Descending;
      ghost var whole := leaves + block;
      ghost var start: nat := position;
      TilesIsLocal(h, stack, leaves, whole, position);
      var level, hash := blockLevel, blockRoot;
      while |stack| > 0 && stack[|stack| - 1].0 == level
        invariant Appendable(h, stack, whole, start, level, hash)
        decreases |stack|
      {
        MergeKeepsAppendable(h, stack, whole, start, level, hash);
        start := start - Pow2(level);
        hash := NodeHash(h, stack[|stack| - 1].1, hash);
        stack := stack[..|stack| - 1];
        level := level + 1;
      }
      PushTiles(h, stack, whole, start, level, hash);
      stack := stack + [(level, hash)];
    }

    /** Emits one aligned zero subtree. */
    method AppendZeroBlock(level: nat)
      requires Valid() && level <= depth && (position > 0 ==> level <= TrailingZeros(position))
      modifies this
      ensures Valid() && leaves == old(leaves) + EmptyLeaves(h, Pow2(level))
    {
      FitsPending(level);
      ghost var block := EmptyLeaves(h, Pow2(level));
      ZeroRootIsRootOfEmptySlots(h, leaves + block, level, position);
      AppendBlock(level, zeroRoots[level], block);
      leaves := leaves + block;
      position := position + Pow2(level);
    }

    /** Emits the empty slots up to `end` as maximal aligned zero subtrees. */
    method FillZeroGap(end: nat) returns (ok: bool)
      requires Valid()
      modifies this
      ensures Valid()
      ensures ok <==> old(position) <= end <= Pow2(depth)
      ensures ok ==> leaves == old(leaves) + EmptyLeaves(h, end - old(position))
      ensures !ok ==> leaves == old(leaves) && stack == old(stack)
    {
      if end < position || end > Pow2(depth) {
        return false;
      }
      while position < end
        invariant Valid() && old(position) <= position <= end
        invariant leaves == old(leaves) + EmptyLeaves(h, position - old(position))
      {
        var byRemaining := Log2(end - position);
        var byAlignment := if position == 0 then depth
                           else if TrailingZeros(position) < depth then TrailingZeros(position) else depth;
        var level := if byRemaining < byAlignment then byRemaining else byAlignment;
        Pow2Monotone(level, byRemaining);
        AppendZeroBlock(level);
      }
      return true;
    }

    lemma FitsPending(level: nat)
      requires Valid() && (position > 0 ==> level <= TrailingZeros(position))
      ensures stack != [] ==> level <= stack[|stack| - 1].0
    {
      if stack != [] {
        AlignedToTrailingZeros(position, level);
        AppendedLevelFits(h, stack, leaves, position, level);
      }
    }

    /** Streams one live leaf. The index just past the last slot is let through; `Finish` rejects it. */
    method PushLeaf(index: nat, hash: StateHash) returns (ok: bool)
      requires Valid()
      modifies this
      ensures Valid()
      ensures ok <==> old(position) <= index <= Pow2(depth)
      ensures ok ==> leaves == old(leaves) + EmptyLeaves(h, index - old(position)) + [hash]
      ensures !ok ==> leaves == old(leaves) && stack == old(stack)
    {
      ok := FillZeroGap(index);
      if ok {
        AppendBlock(0, hash, [hash]);
        leaves := leaves + [hash];
        position := index + 1;
      }
    }

    /** Closes the stream: the root over every streamed leaf and the empty rest. */
    method Finish() returns (root: Option<StateHash>)
      requires Valid()
      modifies this
      ensures root == if old(position) <= Pow2(depth)
                      then Some(MerkleRoot(h, depth, old(leaves) + EmptyLeaves(h, Pow2(depth) - old(position))))
                      else None
    {
      var ok := FillZeroGap(Pow2(depth));
      if !ok {
        return None;
      }
      CompleteStackIsOneBlock(h, stack, leaves, depth);
      if |stack| == 1 && stack[0].0 == depth {
        return Some(stack[0].1);
      }
      return None;
    }
  }

  // ---------------------------------------------------------------------
  // The streamed segment root
  // ---------------------------------------------------------------------

  /** The slot a preview reads: the update if there is one, then the columns, then empty. */
  function PreviewSlot(columns: Option<SegmentColumns>, updates: map<nat, SlotValue>, local: nat): SlotValue
    requires columns.Some? ==> columns.value.Shaped(|columns.value.values|)
  {
    if local in updates then updates[local]
    else if columns.None? || local >= |columns.value.values| then EMPTY
    else columns.value.SlotAt(local)
  }

  ghost function PreviewLeaves(h: Hasher, size: nat, columns: Option<SegmentColumns>,
                               updates: map<nat, SlotValue>): (leaves: seq<StateHash>)
    requires columns.Some? ==> columns.value.Shaped(|columns.value.values|)
    ensures |leaves| == size
  {
    seq(size, i requires 0 <= i < size => LeafHash(h, PreviewSlot(columns, updates, i)))
  }

  lemma NoGap(h: Hasher)
    ensures EmptyLeaves(h, 0) == []
  {
  }

  lemma GapGrows(h: Hasher, n: nat)
    ensures EmptyLeaves(h, n + 1) == EmptyLeaves(h, n) + [LeafHash(h, EMPTY)]
  {
  }

  /** Streams every live slot in order; the result is the plain recursive root of the previewed slots. */
  method StreamedSegmentRoot(h: Hasher, log: nat, columns: Option<SegmentColumns>, updates: map<nat, SlotValue>)
    returns (root: StateHash)
    requires columns.Some? ==> columns.value.Shaped(|columns.value.values|)
    ensures root == MerkleRoot(h, log, PreviewLeaves(h, Pow2(log), columns, updates))
  {
    hide ZeroRoot, MerkleRoot, Pow2, EmptyLeaves;
    var size := Pow2(log);
    ghost var wanted := PreviewLeaves(h, size, columns, updates);
    NoGap(h);
    var stream := new StreamingSparseRoot(h, log);
    for local := 0 to size
      invariant fresh(stream) && stream.Valid() && stream.h == h && stream.depth == log && stream.position <= local
      invariant stream.leaves + EmptyLeaves(h, local - stream.position) == wanted[..local]
    {
      var slot := PreviewSlot(columns, updates, local);
      if !slot.IsEmpty() {
        var ok := stream.PushLeaf(local, LeafHash(h, slot));
        assert stream.leaves + [] == stream.leaves;
      } else {
        GapGrows(h, local - stream.position);
      }
      assert wanted[..local + 1] == wanted[..local] + [wanted[local]];
    }
    assert wanted[..size] == wanted;
    var result := stream.Finish();
    root := result.value;
  }
}
