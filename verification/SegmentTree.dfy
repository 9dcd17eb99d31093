/** The hot-segment Merkle tree: bulk build, in-place slot write, subtree lookup and read-only overlay. */
module SegmentTree {
  import opened Options
  import opened Powers
  import opened StateHashing
  import opened NodeArrays

  const LOG_SEGMENT_SIZE: nat := 16

  /** The three raw columns of one segment. */
  datatype SegmentColumns = SegmentColumns(
    values: seq<Block128>, ownersHi: seq<Block128>, ownersLo: seq<Block128>)
  {
    predicate Shaped(size: nat) {
      |values| == size && |ownersHi| == size && |ownersLo| == size
    }

    function SlotAt(local: nat): SlotValue
      requires Shaped(|values|) && local < |values|
    {
      SlotValue(values[local], ownersHi[local], ownersLo[local])
    }

    function WithSlot(local: nat, slot: SlotValue): (columns: SegmentColumns)
      requires Shaped(|values|) && local < |values|
      ensures columns.Shaped(|values|)
      ensures forall i :: 0 <= i < |values| ==>
                columns.SlotAt(i) == if i == local then slot else SlotAt(i)
    {
      SegmentColumns(values[local := slot.value], ownersHi[local := slot.ownerHi], ownersLo[local := slot.ownerLo])
    }

    /** The leaf hashes the commitment is defined over. */
    function Leaves(h: Hasher): (leaves: seq<StateHash>)
      requires Shaped(|values|)
      ensures |leaves| == |values|
      ensures forall i :: 0 <= i < |values| ==> leaves[i] == h.leaf(SlotValue(values[i], ownersHi[i], ownersLo[i]))
    {
      seq(|values|, i requires 0 <= i < |values| => LeafHash(h, SlotAt(i)))
    }
  }

  lemma WithSlotLeaves(h: Hasher, columns: SegmentColumns, local: nat, slot: SlotValue)
    requires columns.Shaped(|columns.values|) && local < |columns.values|
    ensures columns.WithSlot(local, slot).Leaves(h) == columns.Leaves(h)[local := LeafHash(h, slot)]
  {
  }

  const HASH_BYTES: nat := 32
  const BLOCK_BYTES: nat := 16

  /** A segment tree as an immutable value. */
  datatype TreeValue = TreeValue(logSlots: nat, nodes: seq<StateHash>, zeros: seq<StateHash>, columnBytes: nat) {
    predicate Sized() {
      |nodes| == 2 * Pow2(logSlots) && |zeros| == logSlots + 1
    }

    ghost predicate Valid(h: Hasher) {
      Sized() && AreZeroRoots(h, zeros, logSlots) && IsTreeOver(h, nodes, Leaves())
    }

    function Leaves(): (leaves: seq<StateHash>)
      requires Sized()
      ensures |leaves| == Pow2(logSlots)
    {
      nodes[Pow2(logSlots)..]
    }

    function Root(): StateHash
      requires Sized()
    {
      nodes[1]
    }

    function ResidentBytes(): nat {
      (|nodes| + |zeros|) * HASH_BYTES + columnBytes
    }

    /** The stored hash of a level's node, or nothing outside the tree. */
    function SubtreeRoot(level: nat, index: nat): Option<StateHash>
      requires Sized()
    {
      if level > logSlots then None
      else
        var width := Pow2(logSlots - level);
        Pow2Monotone(logSlots - level, logSlots);
        if index >= width then None else Some(nodes[width + index])
    }

    /** The tree after one slot is rewritten and every ancestor rehashed. */
    function WithLeaf(h: Hasher, local: nat, slot: SlotValue): TreeValue
      requires Sized() && local < Pow2(logSlots)
    {
      this.(nodes := TreeOver(h, Leaves()[local := LeafHash(h, slot)]))
    }
  }

  /** The tree that a bulk build of `columns` must produce. */
  function TreeOf(h: Hasher, log: nat, columns: SegmentColumns): (tree: TreeValue)
    requires columns.Shaped(Pow2(log))
    ensures tree.Valid(h) && tree.Leaves() == columns.Leaves(h)
  {
    TreeValue(log, TreeOver(h, columns.Leaves(h)),
              seq(log + 1, level requires 0 <= level => ZeroRoot(h, level)),
              3 * Pow2(log) * BLOCK_BYTES)
  }

  /** A lookup answers exactly inside the tree, with the recursive root of the slot range asked about. */
  lemma SubtreeRootIsRangeRoot(h: Hasher, tree: TreeValue, level: nat, index: nat)
    requires tree.Valid(h)
    ensures tree.SubtreeRoot(level, index)
         == if level <= tree.logSlots && Shl(index, level) + Pow2(level) <= Pow2(tree.logSlots)
            then Some(RangeRoot(h, tree.Leaves(), level, Shl(index, level))) else None
  {
    if level <= tree.logSlots {
      var depth := tree.logSlots - level;
      ShlInRange(tree.logSlots, level, index);
      if index < Pow2(depth) {
        BlockCovers(Pow2(tree.logSlots), depth, level, index, Pow2(depth) + index, Shl(index, level));
        NodeIsRangeRoot(h, tree.nodes, tree.Leaves(), level, Pow2(depth) + index, Shl(index, level));
      }
    }
  }

  /** Writing a slot through the tree and rebuilding from rewritten columns give the same tree. */
  lemma WriteIsRebuild(h: Hasher, log: nat, columns: SegmentColumns, local: nat, slot: SlotValue)
    requires columns.Shaped(Pow2(log)) && local < Pow2(log)
    ensures TreeOf(h, log, columns).WithLeaf(h, local, slot) == TreeOf(h, log, columns.WithSlot(local, slot))
  {
    WithSlotLeaves(h, columns, local, slot);
  }

  class ExactSegmentTree {
    const h: Hasher
    const logSlots: nat
    const nodes: array<StateHash>
    const zeros: seq<StateHash>
    const columnBytes: nat

    ghost function Value(): TreeValue
      reads nodes
    {
      TreeValue(logSlots, nodes[..], zeros, columnBytes)
    }

    ghost predicate Valid()
      reads nodes
    {
      Value().Valid(h)
    }

    /** Bottom-up bulk build; two zero children take the precomputed zero root. */
    constructor FromColumns(h: Hasher, logSlots: nat, columns: SegmentColumns)
      requires columns.Shaped(Pow2(logSlots))
      ensures this.h == h && Valid() && fresh(nodes)
      ensures Value() == TreeOf(h, logSlots, columns)
    {
      var zeros := ZeroSlotRoots(h, logSlots);
      var nodes := BuildNodes(h, logSlots, columns, zeros);
      this.h := h;
      this.logSlots := logSlots;
      this.nodes := nodes;
      this.zeros := zeros;
      this.columnBytes := (|columns.values| + |columns.ownersHi| + |columns.ownersLo|) * BLOCK_BYTES;
    }

    static method BuildNodes(h: Hasher, logSlots: nat, columns: SegmentColumns, zeros: seq<StateHash>)
    returns (nodes: array<StateHash>)
      requires columns.Shaped(Pow2(logSlots)) && AreZeroRoots(h, zeros, logSlots)
      ensures fresh(nodes) && nodes[..] == TreeOver(h, columns.Leaves(h))
    {
      nodes := FillLeaves(h, columns, zeros[0]);
      ghost var leaves := columns.Leaves(h);
      for level := 1 to logSlots + 1
        invariant nodes[0] == zeros[0] && nodes[..][|leaves|..] == leaves
        invariant HashedExcept(h, nodes[..], Pow2(logSlots + 1 - level), |leaves|, 0)
      {
        Pow2Monotone(logSlots - level, logSlots - 1);
        HashLevel(h, nodes, leaves, Pow2(logSlots - level), zeros[level - 1], zeros[level]);
      }
      TreeIsUnique(h, nodes[..], TreeOver(h, leaves), leaves);
    }

    /** A node array over the columns whose leaves are in place; empty slots keep the precomputed zero leaf. */
    static method FillLeaves(h: Hasher, columns: SegmentColumns, zero: StateHash) returns (nodes: array<StateHash>)
      requires columns.Shaped(|columns.values|) && |columns.values| > 0 && zero == LeafHash(h, EMPTY)
      ensures fresh(nodes) && nodes.Length == 2 * |columns.values| && nodes[0] == zero
      ensures nodes[..][|columns.values|..] == columns.Leaves(h)
    {
      var size := |columns.values|;
      nodes := new StateHash[2 * size](_ => zero);
      for local := 0 to size
        invariant nodes[0] == zero
        invariant forall n :: size <= n < size + local ==> nodes[n] == LeafHash(h, columns.SlotAt(n - size))
        invariant forall n :: size + local <= n < 2 * size ==> nodes[n] == zero
      {
        var slot := columns.SlotAt(local);
        if !slot.IsEmpty() {
          nodes[size + local] := LeafHash(h, slot);
        }
      }
    }

    /** Hashes nodes `start..2 * start` from their children, already hashed from `2 * start` up. */
    static method HashLevel(h: Hasher, nodes: array<StateHash>, ghost leaves: seq<StateHash>, start: nat,
                            zeroBelow: StateHash, zero: StateHash)
      requires 1 <= start && 2 * start <= |leaves| && nodes.Length == 2 * |leaves|
      requires nodes[..][|leaves|..] == leaves && zero == NodeHash(h, zeroBelow, zeroBelow)
      requires HashedExcept(h, nodes[..], 2 * start, |leaves|, 0)
      modifies nodes
      ensures nodes[0] == old(nodes[0]) && nodes[..][|leaves|..] == leaves
      ensures HashedExcept(h, nodes[..], start, |leaves|, 0)
    {
      for node := start to 2 * start
        invariant nodes[0] == old(nodes[0]) && nodes[..][|leaves|..] == leaves
        invariant HashedExcept(h, nodes[..], 2 * start, |leaves|, 0)
        invariant HashedExcept(h, nodes[..], start, node, 0)
      {
        var left := nodes[2 * node];
        var right := nodes[2 * node + 1];
        ghost var before := nodes[..];
        nodes[node] := if left == zeroBelow && right == zeroBelow then zero else NodeHash(h, left, right);
        assert nodes[..] == before[node := NodeHash(h, left, right)];
        StoreMovesGap(h, before, 2 * start, |leaves|, node, nodes[node]);
        StoreMovesGap(h, before, start, node + 1, node, nodes[node]);
        assert nodes[..][|leaves|..] == before[|leaves|..];
      }
    }

    /** A private copy, as a copy-on-write handle makes before its first write. */
    constructor Clone(source: ExactSegmentTree)
      ensures h == source.h && Value() == source.Value() && fresh(nodes)
    {
      h := source.h;
      logSlots := source.logSlots;
      zeros := source.zeros;
      columnBytes := source.columnBytes;
      var copy := new StateHash[source.nodes.Length](i requires 0 <= i < source.nodes.Length reads source.nodes =>
        source.nodes[i]);
      assert copy[..] == source.nodes[..];
      nodes := copy;
    }

    /** Rewrites one leaf and its path to the root, stopping as soon as a stored hash is already right. */
    method SetSlot(local: nat, value: SlotValue)
      requires Valid() && local < Pow2(logSlots)
      modifies nodes
      ensures Valid()
      ensures Value() == old(Value()).WithLeaf(h, local, value)
    {
      ghost var size := Pow2(logSlots);
      ghost var leaves := nodes[..][size..][local := LeafHash(h, value)];
      var node := Pow2(logSlots) + local;
      var hash := if value.IsEmpty() then zeros[0] else LeafHash(h, value);
      if nodes[node] == hash {
        assert leaves == nodes[..][size..];
        TreeIsUnique(h, nodes[..], TreeOver(h, leaves), leaves);
        return;
      }
      ghost var before := nodes[..];
      nodes[node] := hash;
      assert nodes[..] == before[node := hash];
      StoreMovesGap(h, before, 1, size, node, hash);
      assert nodes[..][size..] == leaves;
      RehashPath(leaves, node);
      TreeIsUnique(h, nodes[..], TreeOver(h, leaves), leaves);
    }

    /** Rehashes the ancestors of `leaf`; only its parent may be stale on entry. */
    method RehashPath(ghost leaves: seq<StateHash>, leaf: nat)
      requires AreZeroRoots(h, zeros, logSlots) && |leaves| == Pow2(logSlots) <= leaf < 2 * Pow2(logSlots)
      requires nodes.Length == 2 * |leaves| && nodes[0] == zeros[0] && nodes[..][|leaves|..] == leaves
      requires HashedExcept(h, nodes[..], 1, |leaves|, leaf / 2)
      modifies nodes
      ensures IsTreeOver(h, nodes[..], leaves)
    {
      var node, level := leaf, 0;
      while node > 1
        invariant level <= logSlots && Pow2(logSlots - level) <= node < 2 * Pow2(logSlots - level) <= 2 * |leaves|
        invariant nodes[0] == zeros[0] && nodes[..][|leaves|..] == leaves
        invariant HashedExcept(h, nodes[..], 1, |leaves|, node / 2)
        decreases node
      {
        node := node / 2;
        var left := nodes[2 * node];
        var right := nodes[2 * node + 1];
        var hash := if left == zeros[level] && right == zeros[level] then zeros[level + 1]
                    else NodeHash(h, left, right);
        if nodes[node] == hash {
          assert Hashed(h, nodes[..], node);
          assert HashedExcept(h, nodes[..], 1, |leaves|, 0);
          return;
        }
        ghost var before := nodes[..];
        nodes[node] := hash;
        assert nodes[..] == before[node := hash];
        StoreMovesGap(h, before, 1, |leaves|, node, hash);
        assert nodes[..][|leaves|..] == before[|leaves|..];
        level := level + 1;
      }
    }
  }
}
