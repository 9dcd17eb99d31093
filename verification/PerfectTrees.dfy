/** What a root is: the hash of the perfect binary tree whose leaves, left to right, are the committed values. */
module PerfectTrees {
  import opened Powers
  import opened PairHashing
  import opened HashLayers
  import opened StateHashing
  import opened SegmentTree
  import opened NodeArrays
  import opened StateLayout
  import opened Bytes
  import opened TxTree

  /** A binary tree, before any hashing. */
  datatype Tree<T> = Leaf(value: T) | Node(left: Tree<T>, right: Tree<T>) {
    function InOrder(): (values: seq<T>)
      ensures values != []
    {
      match this
      case Leaf(value) => [value]
      case Node(left, right) => left.InOrder() + right.InOrder()
    }

    predicate Perfect(depth: nat) {
      match this
      case Leaf(_) => depth == 0
      case Node(left, right) => depth > 0 && left.Perfect(depth - 1) && right.Perfect(depth - 1)
    }

    /** Inner nodes hashed by `node`, left child first; leaves are hashes already. */
    function Hashed(node: (T, T) -> T): T {
      match this
      case Leaf(value) => value
      case Node(left, right) => node(left.Hashed(node), right.Hashed(node))
    }

    /** The same with the leaves hashed by `leaf`. */
    function HashedBy<H>(leaf: T -> H, node: (H, H) -> H): H {
      match this
      case Leaf(value) => leaf(value)
      case Node(left, right) => node(left.HashedBy(leaf, node), right.HashedBy(leaf, node))
    }
  }

  lemma {:induction false} PerfectCount<T>(tree: Tree<T>, depth: nat)
    requires tree.Perfect(depth)
    ensures |tree.InOrder()| == Pow2(depth)
    decreases depth
  {
    if depth > 0 {
      PerfectCount(tree.left, depth - 1);
      PerfectCount(tree.right, depth - 1);
    }
  }

  /** Every vector of a power-of-two length stands at the leaves of a perfect tree. */
  function PerfectOver<T>(values: seq<T>, depth: nat): (tree: Tree<T>)
    requires |values| == Pow2(depth)
    ensures tree.Perfect(depth) && tree.InOrder() == values
    decreases depth
  {
    if depth == 0 then Leaf(values[0])
    else
      var half := Pow2(depth - 1);
      assert values == values[..half] + values[half..];
      Node(PerfectOver(values[..half], depth - 1), PerfectOver(values[half..], depth - 1))
  }

  /** There is only one. */
  lemma {:induction false} PerfectIsUnique<T>(a: Tree<T>, b: Tree<T>, depth: nat)
    requires a.Perfect(depth) && b.Perfect(depth) && a.InOrder() == b.InOrder()
    ensures a == b
    decreases depth
  {
    if depth > 0 {
      PerfectCount(a.left, depth - 1);
      PerfectCount(b.left, depth - 1);
      var half := Pow2(depth - 1);
      assert a.left.InOrder() == a.InOrder()[..half] && b.left.InOrder() == b.InOrder()[..half];
      assert a.right.InOrder() == a.InOrder()[half..] && b.right.InOrder() == b.InOrder()[half..];
      PerfectIsUnique(a.left, b.left, depth - 1);
      PerfectIsUnique(a.right, b.right, depth - 1);
    }
  }

  // ---------------------------------------------------------------------
  // The state commitment
  // ---------------------------------------------------------------------

  /** Any aligned range of leaves commits to the hash of the perfect tree over it. */
  lemma {:induction false} RangeRootIsTreeHash(h: Hasher, leaves: seq<StateHash>, level: nat, start: nat,
                                               tree: Tree<StateHash>)
    requires start + Pow2(level) <= |leaves|
    requires tree.Perfect(level) && tree.InOrder() == leaves[start..start + Pow2(level)]
    ensures RangeRoot(h, leaves, level, start) == tree.Hashed(h.node.f)
    decreases level
  {
    if level > 0 {
      var half := Pow2(level - 1);
      PerfectCount(tree.left, level - 1);
      var range := leaves[start..start + Pow2(level)];
      assert tree.left.InOrder() == range[..half] == leaves[start..start + half];
      assert tree.right.InOrder() == range[half..] == leaves[start + half..start + half + half];
      RangeRootIsTreeHash(h, leaves, level - 1, start, tree.left);
      RangeRootIsTreeHash(h, leaves, level - 1, start + half, tree.right);
    }
  }

  /** Hashing the leaves first changes nothing. */
  lemma {:induction false} HashedLeaves<T, H>(tree: Tree<T>, depth: nat, leaf: T -> H, node: (H, H) -> H,
                                             hashed: Tree<H>)
    requires tree.Perfect(depth) && hashed.Perfect(depth) && |hashed.InOrder()| == |tree.InOrder()|
    requires forall i :: 0 <= i < |tree.InOrder()| ==> hashed.InOrder()[i] == leaf(tree.InOrder()[i])
    ensures hashed.Hashed(node) == tree.HashedBy(leaf, node)
    decreases depth
  {
    if depth > 0 {
      PerfectCount(tree.left, depth - 1);
      PerfectCount(hashed.left, depth - 1);
      PerfectCount(tree.right, depth - 1);
      PerfectCount(hashed.right, depth - 1);
      var a, b, n := tree.InOrder(), hashed.InOrder(), Pow2(depth - 1);
      forall i | 0 <= i < n
        ensures hashed.left.InOrder()[i] == leaf(tree.left.InOrder()[i])
        ensures hashed.right.InOrder()[i] == leaf(tree.right.InOrder()[i])
      {
        assert b[i] == leaf(a[i]) && b[n + i] == leaf(a[n + i]);
      }
      HashedLeaves(tree.left, depth - 1, leaf, node, hashed.left);
      HashedLeaves(tree.right, depth - 1, leaf, node, hashed.right);
    } else {
      assert hashed.InOrder()[0] == leaf(tree.InOrder()[0]);
    }
  }

  /** The root of a vector of slots is the hash of the perfect tree over them: every slot is committed, in its place. */
  lemma SlotsRootIsTreeHash(h: Hasher, depth: nat, slots: seq<SlotValue>, tree: Tree<SlotValue>)
    requires |slots| == Pow2(depth) && tree.Perfect(depth) && tree.InOrder() == slots
    ensures SlotsRoot(h, depth, slots) == tree.HashedBy(h.leaf, h.node.f)
  {
    var leaves := LeafHashes(h, slots);
    var hashed := PerfectOver(leaves, depth);
    HashedLeaves(tree, depth, h.leaf, h.node.f, hashed);
    assert leaves[0..Pow2(depth)] == leaves;
    RangeRootIsTreeHash(h, leaves, depth, 0, hashed);
  }

  /** A segment tree's root is the hash of the perfect tree over the slots its three columns spell. */
  lemma SegmentRootIsTreeHash(h: Hasher, log: nat, columns: SegmentColumns, tree: Tree<SlotValue>)
    requires columns.Shaped(Pow2(log)) && tree.Perfect(log) && |tree.InOrder()| == Pow2(log)
    requires forall i :: 0 <= i < Pow2(log) ==>
               tree.InOrder()[i] == SlotValue(columns.values[i], columns.ownersHi[i], columns.ownersLo[i])
    ensures TreeOf(h, log, columns).Root() == tree.HashedBy(h.leaf, h.node.f)
  {
    var built, slots := TreeOf(h, log, columns), tree.InOrder();
    RootIsMerkleRoot(h, built.nodes, built.Leaves(), log);
    assert LeafHashes(h, slots) == columns.Leaves(h);
    SlotsRootIsTreeHash(h, log, slots, tree);
  }

  // ---------------------------------------------------------------------
  // Layered trees and paths
  // ---------------------------------------------------------------------

  /** A tree hashed layer by layer has the same meaning, over any two-to-one hash. */
  lemma {:induction false} LayerRootIsTreeHash<T>(h: Compressor<T>, layer: seq<T>, depth: nat, tree: Tree<T>)
    requires |layer| == Pow2(depth) && tree.Perfect(depth) && tree.InOrder() == layer
    ensures LayerRoot(h, layer, depth) == tree.Hashed(h.f)
    decreases depth
  {
    hide LayerRoot;
    if depth == 0 {
      Shrink(h, layer, depth);
    } else {
      var half := Pow2(depth - 1);
      PerfectCount(tree.left, depth - 1);
      assert tree.left.InOrder() == layer[..half] && tree.right.InOrder() == layer[half..];
      LayerRootIsTreeHash(h, layer[..half], depth - 1, tree.left);
      LayerRootIsTreeHash(h, layer[half..], depth - 1, tree.right);
      LayerRootIsRecursive(h, layer, depth - 1);
    }
  }

  /** Folding up a path read from the root down: the topmost sibling is hashed on the side the top bit leaves free. */
  lemma {:induction false} FoldFromTop<T>(h: Compressor<T>, position: nat, leaf: T, path: seq<T>)
    requires path != []
    ensures var n := |path| - 1;
            var below, top := Fold(h, position, leaf, path[..n]), path[n];
            Fold(h, position, leaf, path) == if Shr(position, n) % 2 == 0 then h.f(below, top) else h.f(top, below)
    decreases |path|
  {
    var n := |path| - 1;
    if n == 0 {
      FoldNone(h, position, leaf);
    } else {
      var joined := Joined(h, position, leaf, path[0]);
      ShrOfHalf(position, n);
      FoldFromTop(h, position / 2, joined, path[1..]);
      assert path[1..][..n - 1] == path[..n][1..];
    }
  }

  /**
   A block's transaction root: the perfect tree of 256 leaves, the transactions first and zero digests behind them,
   hashed together with the count.
   */
  lemma TransactionRootIsTreeHash(h: TxHasher, hashes: seq<Digest>, tree: Tree<Digest>)
    requires 1 <= |hashes| <= 256 && tree.Perfect(8) && |tree.InOrder()| == 256
    requires forall i :: 0 <= i < 256 ==> tree.InOrder()[i] == if i < |hashes| then hashes[i] else Zeros(32)
    ensures RootOf(h, hashes) == h.tagged.f(tree.Hashed(h.node.f), CountDigest(|hashes|))
    ensures RootOf(h, []) == Zeros(32)
  {
    hide LayerRoot, CountDigest, Zeros;
    var layer := Namespace(hashes);
    forall i | 0 <= i < 256
      ensures layer[i] == tree.InOrder()[i]
    {
      if i < |hashes| {
        assert layer[i] == layer[..|hashes|][i];
      }
    }
    LayerRootIsTreeHash(h.node, layer, 8, tree);
  }
}
