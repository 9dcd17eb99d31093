/** The block transaction tree: 256 leaves, fixed-depth paths, and a root that also binds the transaction count. */
module TxTree {
  import opened Options
  import opened Bytes
  import opened Powers
  import opened HashLayers
  import opened PairHashing

  const TX_TREE_LEAVES: nat := 256
  const TX_TREE_DEPTH: nat := 8

  /** Two-to-one compression, and the same under the transaction-root tag. Both are arbitrary here. */
  datatype TxHasher = TxHasher(node: Compressor<Digest>, tagged: Compressor<Digest>)

  type Colliding = PairCollision<Digest>

  /** A collision of either function. */
  ghost predicate Collides(h: TxHasher, c: Colliding) {
    c.Holds(h.node) || c.Holds(h.tagged)
  }

  // ---------------------------------------------------------------------
  // The 256-leaf namespace and the count
  // ---------------------------------------------------------------------

  const ZERO_DIGEST: Digest := Zeros(32)

  /** Transaction hashes at the front of the namespace, zeros behind them. */
  function Namespace(hashes: seq<Digest>): (layer: seq<Digest>)
    requires |hashes| <= TX_TREE_LEAVES
    ensures |layer| == TX_TREE_LEAVES == Pow2(TX_TREE_DEPTH) && layer[..|hashes|] == hashes
    ensures forall i :: |hashes| <= i < TX_TREE_LEAVES ==> layer[i] == ZERO_DIGEST
  {
    LeavesArePower();
    hashes + seq(TX_TREE_LEAVES - |hashes|, _ => ZERO_DIGEST)
  }

  lemma LeavesArePower()
    ensures Pow2(TX_TREE_DEPTH) == TX_TREE_LEAVES
  {
    assert Pow2(4) == 16;
  }

  /** The count as sixteen little-endian bytes, then sixteen zeros. */
  function CountDigest(count: nat): (digest: Digest)
    ensures digest[..16] == Le(count, 16) && forall i :: 16 <= i < 32 ==> digest[i] == 0
  {
    Le(count, 16) + Zeros(16)
  }

  lemma CountDigestBinds(a: nat, b: nat)
    requires a <= TX_TREE_LEAVES && b <= TX_TREE_LEAVES && CountDigest(a) == CountDigest(b)
    ensures a == b
  {
    hide Le, Zeros, FromLe, Pow256;
    assert CountDigest(a)[..16] == Le(a, 16) && CountDigest(b)[..16] == Le(b, 16);
    CountFits();
    IntegerSurvives(a, 16);
    IntegerSurvives(b, 16);
  }

  lemma CountFits()
    ensures Pow256(16) > TX_TREE_LEAVES
  {
    Pow256Monotone(2, 16);
  }

  function BindCount(h: TxHasher, root: Digest, count: nat): Digest {
    Compress(h.tagged, root, CountDigest(count))
  }

  /** The header commitment; an empty list is the zero root. */
  function RootOf(h: TxHasher, hashes: seq<Digest>): Digest
    requires |hashes| <= TX_TREE_LEAVES
  {
    if hashes == [] then ZERO_DIGEST
    else BindCount(h, LayerRoot(h.node, Namespace(hashes), TX_TREE_DEPTH), |hashes|)
  }

  function PathOf(h: TxHasher, hashes: seq<Digest>, index: nat): seq<Digest>
    requires index < |hashes| <= TX_TREE_LEAVES
  {
    LayerPath(h.node, Namespace(hashes), index, TX_TREE_DEPTH)
  }

  predicate Verifies(h: TxHasher, leaf: Digest, path: seq<Digest>, index: nat, count: nat, root: Digest) {
    && 1 <= count <= TX_TREE_LEAVES && index < count
    && BindCount(h, Fold(h.node, index, leaf, path), count) == root
  }

  /** Every real transaction's path verifies. */
  lemma InclusionIsComplete(h: TxHasher, hashes: seq<Digest>, index: nat)
    requires index < |hashes| <= TX_TREE_LEAVES
    ensures |PathOf(h, hashes, index)| == TX_TREE_DEPTH
    ensures Verifies(h, hashes[index], PathOf(h, hashes, index), index, |hashes|, RootOf(h, hashes))
  {
    hide Fold, LayerPath, LayerRoot;
    PathFoldsToRoot(h.node, Namespace(hashes), index, TX_TREE_DEPTH);
    assert Namespace(hashes)[index] == Namespace(hashes)[..|hashes|][index];
  }

  /**
   Whatever verifies against a block's root is that block's transaction at that index, with its count, or a collision.
   */
  lemma InclusionIsSound(h: TxHasher, hashes: seq<Digest>, leaf: Digest, path: seq<Digest>, index: nat, count: nat)
    returns (c: Option<Colliding>)
    requires 1 <= |hashes| <= TX_TREE_LEAVES && |path| == TX_TREE_DEPTH
    requires Verifies(h, leaf, path, index, count, RootOf(h, hashes))
    ensures c.Some? ==> Collides(h, c.value)
    ensures c.None? ==> count == |hashes| && leaf == hashes[index] && path == PathOf(h, hashes, index)
  {
    hide Fold, LayerPath, LayerRoot;
    var layer := Namespace(hashes);
    var folded, own := Fold(h.node, index, leaf, path), LayerRoot(h.node, layer, TX_TREE_DEPTH);
    var tagged := PairCollision(folded, CountDigest(count), own, CountDigest(|hashes|));
    if tagged.Holds(h.tagged) {
      c := Some(tagged);
    } else {
      CountDigestBinds(count, |hashes|);
      c := FoldBinds(h.node, layer, index, TX_TREE_DEPTH, leaf, path);
      assert layer[index] == layer[..|hashes|][index];
    }
  }

  /** Two nonempty transaction lists with one root are the same list, or exhibit a collision. */
  lemma RootBindsList(h: TxHasher, a: seq<Digest>, b: seq<Digest>) returns (c: Option<Colliding>)
    requires 1 <= |a| <= TX_TREE_LEAVES && 1 <= |b| <= TX_TREE_LEAVES && RootOf(h, a) == RootOf(h, b)
    ensures c.Some? ==> Collides(h, c.value)
    ensures c.None? ==> a == b
  {
    hide LayerRoot;
    var x, y := LayerRoot(h.node, Namespace(a), TX_TREE_DEPTH), LayerRoot(h.node, Namespace(b), TX_TREE_DEPTH);
    var tagged := PairCollision(x, CountDigest(|a|), y, CountDigest(|b|));
    if tagged.Holds(h.tagged) {
      c := Some(tagged);
    } else {
      CountDigestBinds(|a|, |b|);
      c := LayerRootBinds(h.node, Namespace(a), Namespace(b), TX_TREE_DEPTH);
    }
  }

  // ---------------------------------------------------------------------
  // The loops
  // ---------------------------------------------------------------------

  method RootFromHashes(h: TxHasher, hashes: seq<Digest>) returns (root: Digest)
    requires |hashes| <= TX_TREE_LEAVES
    ensures root == RootOf(h, hashes)
  {
    hide Halved, LayerRoot, Namespace;
    if hashes == [] {
      return ZERO_DIGEST;
    }
    var layer := Namespace(hashes);
    ghost var depth: nat := TX_TREE_DEPTH;
    while |layer| > 1
      invariant depth <= TX_TREE_DEPTH && |layer| == Pow2(depth)
      invariant LayerRoot(h.node, layer, depth) == LayerRoot(h.node, Namespace(hashes), TX_TREE_DEPTH)
      decreases depth
    {
      Shrink(h.node, layer, depth);
      layer := Halved(h.node, layer);
      depth := depth - 1;
    }
    Shrink(h.node, layer, 0);
    return BindCount(h, layer[0], |hashes|);
  }

  method PathFromHashes(h: TxHasher, hashes: seq<Digest>, txIndex: nat) returns (path: seq<Digest>)
    requires txIndex < |hashes| <= TX_TREE_LEAVES
    ensures path == PathOf(h, hashes, txIndex)
  {
    hide Halved, LayerPath, Namespace;
    var layer := Namespace(hashes);
    var index: nat := txIndex;
    ghost var depth: nat := TX_TREE_DEPTH;
    path := [];
    while |layer| > 1
      invariant depth <= TX_TREE_DEPTH && |layer| == Pow2(depth) && index < |layer|
      invariant path + LayerPath(h.node, layer, index, depth) == PathOf(h, hashes, txIndex)
      decreases depth
    {
      ShrinkPath(h.node, layer, index, depth);
      path := path + [layer[Sibling(index)]];
      layer := Halved(h.node, layer);
      index := index / 2;
      depth := depth - 1;
    }
    ShrinkPath(h.node, layer, index, 0);
  }

  method VerifyPath(h: TxHasher, leaf: Digest, path: seq<Digest>, txIndex: nat, txCount: nat, claimed: Digest)
    returns (ok: bool)
    ensures ok == Verifies(h, leaf, path, txIndex, txCount, claimed)
  {
    if !(1 <= txCount <= TX_TREE_LEAVES) || txIndex >= txCount {
      return false;
    }
    var current, index := leaf, txIndex;
    for level := 0 to |path|
      invariant Fold(h.node, index, current, path[level..]) == Fold(h.node, txIndex, leaf, path)
    {
      assert path[level..][1..] == path[level + 1..];
      current := Joined(h.node, index, current, path[level]);
      index := index / 2;
    }
    return BindCount(h, current, txCount) == claimed;
  }
}
