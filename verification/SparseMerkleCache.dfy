/** The sparse node cache that proofs are built from: only nodes that differ from the zero tree are stored. */
module SparseMerkleCache {
  import opened Options
  import opened Powers
  import opened PairHashing
  import opened StateHashing
  import opened SparseMultiproof
  import opened MultiproofVerifier

  /** Leaf hashes by index; every other leaf is the empty slot's. */
  type LeafMap = map<nat, StateHash>

  /** The hash tree over a leaf map. */
  ghost function TreeNode(h: Hasher, leaves: LeafMap, level: nat, p: nat): StateHash
    decreases level
  {
    if level == 0 then if p in leaves then leaves[p] else ZeroRoot(h, 0)
    else NodeHash(h, TreeNode(h, leaves, level - 1, 2 * p), TreeNode(h, leaves, level - 1, 2 * p + 1))
  }

  ghost function TreeNodes(h: Hasher, leaves: LeafMap): (node: NodeIndex -> StateHash)
    ensures IsHashTree(h, node)
  {
    (at: NodeIndex) => TreeNode(h, leaves, at.0, at.1)
  }

  /** A leaf write moves only the nodes on its path. */
  lemma {:induction false} WriteMovesOnlyPath(h: Hasher, leaves: LeafMap, index: nat, hash: StateHash, level: nat,
                                              p: nat)
    requires p != Shr(index, level)
    ensures TreeNode(h, leaves[index := hash], level, p) == TreeNode(h, leaves, level, p)
    decreases level
  {
    if level > 0 {
      WriteMovesOnlyPath(h, leaves, index, hash, level - 1, 2 * p);
      WriteMovesOnlyPath(h, leaves, index, hash, level - 1, 2 * p + 1);
    }
  }

  lemma {:induction false} EmptyTreeNode(h: Hasher, level: nat, p: nat)
    ensures TreeNode(h, map[], level, p) == ZeroRoot(h, level)
    decreases level
  {
    if level > 0 {
      EmptyTreeNode(h, level - 1, 2 * p);
      EmptyTreeNode(h, level - 1, 2 * p + 1);
    }
  }

  /** A node of the tree is the plain recursive root of the leaves below it. */
  lemma {:induction false} TreeNodeIsRangeRoot(h: Hasher, leaves: LeafMap, all: seq<StateHash>, level: nat, p: nat)
    requires forall i :: 0 <= i < |all| ==> all[i] == TreeNode(h, leaves, 0, i)
    requires Shl(p, level) + Pow2(level) <= |all|
    ensures TreeNode(h, leaves, level, p) == RangeRoot(h, all, level, Shl(p, level))
    decreases level
  {
    if level > 0 {
      ShlNext(2 * p, level - 1);
      TreeNodeIsRangeRoot(h, leaves, all, level - 1, 2 * p);
      TreeNodeIsRangeRoot(h, leaves, all, level - 1, 2 * p + 1);
    }
  }

  // ---------------------------------------------------------------------
  // The stored nodes
  // ---------------------------------------------------------------------

  /** A stored node, or its level's zero root. */
  function NodeAt(nodes: Nodes, zeros: seq<StateHash>, level: nat, p: nat): StateHash
    requires level < |zeros|
  {
    if (level, p) in nodes then nodes[(level, p)] else zeros[level]
  }

  /** Stores a node, or forgets it if it is its level's zero root. */
  function Store(nodes: Nodes, zeros: seq<StateHash>, level: nat, p: nat, hash: StateHash): (after: Nodes)
    requires level < |zeros|
    ensures NodeAt(after, zeros, level, p) == hash
    ensures forall l: nat, q: nat :: l < |zeros| && (l, q) != (level, p) ==>
              NodeAt(after, zeros, l, q) == NodeAt(nodes, zeros, l, q)
  {
    if hash == zeros[level] then nodes - {(level, p)} else nodes[(level, p) := hash]
  }

  /** Nothing equal to its level's zero root is stored. */
  ghost predicate Sparse(nodes: Nodes, zeros: seq<StateHash>) {
    forall at :: at in nodes ==> at.0 < |zeros| && nodes[at] != zeros[at.0]
  }

  /** One level reads as the tree over `leaves`. */
  ghost predicate LevelIs(h: Hasher, nodes: Nodes, zeros: seq<StateHash>, leaves: LeafMap, level: nat) {
    level < |zeros| && forall p: nat :: NodeAt(nodes, zeros, level, p) == TreeNode(h, leaves, level, p)
  }

  /** Levels below `done` read as the tree over `now`, the others as the tree over `was`. */
  ghost predicate Between(h: Hasher, nodes: Nodes, zeros: seq<StateHash>, was: LeafMap, now: LeafMap, done: nat) {
    && (forall level :: 0 <= level < done && level < |zeros| ==> LevelIs(h, nodes, zeros, now, level))
    && (forall level :: done <= level < |zeros| ==> LevelIs(h, nodes, zeros, was, level))
  }

  /** Storing the path node of a level brings that whole level up to date. */
  lemma StoreOnPath(h: Hasher, nodes: Nodes, zeros: seq<StateHash>, was: LeafMap, index: nat, hash: StateHash,
                    level: nat, current: StateHash)
    requires level < |zeros| && Between(h, nodes, zeros, was, was[index := hash], level) && Sparse(nodes, zeros)
    requires current == TreeNode(h, was[index := hash], level, Shr(index, level))
    ensures Between(h, Store(nodes, zeros, level, Shr(index, level), current), zeros, was, was[index := hash],
                    level + 1)
    ensures Sparse(Store(nodes, zeros, level, Shr(index, level), current), zeros)
  {
    hide TreeNode, Shr;
    var now, p := was[index := hash], Shr(index, level);
    var after := Store(nodes, zeros, level, p, current);
    assert LevelIs(h, nodes, zeros, was, level);
    forall q: nat | q != p
      ensures NodeAt(after, zeros, level, q) == TreeNode(h, now, level, q)
    {
      WriteMovesOnlyPath(h, was, index, hash, level, q);
    }
    forall l | 0 <= l < level
      ensures LevelIs(h, after, zeros, now, l)
    {
      assert LevelIs(h, nodes, zeros, now, l);
    }
    forall l | level < l < |zeros|
      ensures LevelIs(h, after, zeros, was, l)
    {
      assert LevelIs(h, nodes, zeros, was, l);
    }
  }

  class SparseMerkleCache {
    const h: Hasher
    const depth: nat
    const zeroRoots: seq<StateHash>
    var nodes: Nodes
    /** Every leaf written so far. */
    ghost var leaves: LeafMap

    ghost predicate Valid()
      reads this
    {
      && AreZeroRoots(h, zeroRoots, depth)
      && Between(h, nodes, zeroRoots, leaves, leaves, 0)
      && Sparse(nodes, zeroRoots)
    }

    constructor (h: Hasher, depth: nat)
      ensures Valid() && this.h == h && this.depth == depth && leaves == map[] && nodes == map[]
    {
      var zeros := ZeroSlotRoots(h, depth);
      this.h := h;
      this.depth := depth;
      zeroRoots := zeros;
      nodes := map[];
      leaves := map[];
      new;
      forall level: nat | level <= depth
        ensures LevelIs(h, nodes, zeroRoots, leaves, level)
      {
        forall p: nat ensures TreeNode(h, map[], level, p) == ZeroRoot(h, level) { EmptyTreeNode(h, level, p); }
      }
    }

    /** Writes one leaf and rehashes only its path; an index outside the tree changes nothing. */
    method SetLeaf(index: nat, hash: StateHash) returns (ok: bool)
      requires Valid()
      modifies this
      ensures Valid() && ok == (index < Pow2(depth))
      ensures leaves == if ok then old(leaves)[index := hash] else old(leaves)
    {
      hide Between, LevelIs, Sparse, Store;
      if index >= Pow2(depth) {
        return false;
      }
      var idx, current := index, hash;
      BetweenStarts(h, nodes, zeroRoots, leaves, leaves[index := hash]);
      StoreOnPath(h, nodes, zeroRoots, leaves, index, hash, 0, current);
      nodes := Store(nodes, zeroRoots, 0, idx, current);
      for level := 0 to depth
        invariant AreZeroRoots(h, zeroRoots, depth) && Sparse(nodes, zeroRoots) && leaves == old(leaves)
        invariant idx == Shr(index, level) && current == TreeNode(h, leaves[index := hash], level, idx)
        invariant Between(h, nodes, zeroRoots, leaves, leaves[index := hash], level + 1)
      {
        var other := NodeAt(nodes, zeroRoots, level, Sibling(idx));
        BetweenReads(h, nodes, zeroRoots, leaves, leaves[index := hash], level + 1, level, Sibling(idx));
        current := Joined(h.node, idx, current, other);
        idx := idx / 2;
        StoreOnPath(h, nodes, zeroRoots, leaves, index, hash, level + 1, current);
        nodes := Store(nodes, zeroRoots, level + 1, idx, current);
      }
      leaves := leaves[index := hash];
      BetweenEnds(h, nodes, zeroRoots, old(leaves), leaves);
      return true;
    }

    /** The stored root is the plain recursive root over all leaves. */
    lemma RootIsMerkleRoot(all: seq<StateHash>)
      requires Valid() && |all| == Pow2(depth) && forall i :: 0 <= i < |all| ==> all[i] == TreeNode(h, leaves, 0, i)
      ensures NodeAt(nodes, zeroRoots, depth, 0) == MerkleRoot(h, depth, all)
    {
      ShlZero(depth);
      BetweenReads(h, nodes, zeroRoots, leaves, leaves, 0, depth, 0);
      TreeNodeIsRangeRoot(h, leaves, all, depth, 0);
    }

    /** The cache's own frontier for a touched set; refused at another depth and for a set that is not canonical. */
    method BuildMultiproof(indices: seq<nat>, depth: nat) returns (proof: Result<seq<StateHash>, Error>)
      requires Valid()
      ensures proof.Ok? <==> depth == this.depth && depth <= MAX_DEPTH && Canonical(indices, depth)
      ensures proof == Err(CacheDepthMismatch) <==> depth != this.depth
      ensures proof.Ok? ==> proof.value == Read(TreeNodes(h, leaves), Frontier(indices, 0, depth))
    {
      hide Frontier, Between, TreeNode, Canonical;
      if depth != this.depth {
        return Err(CacheDepthMismatch);
      }
      var fault := ValidateIndices(indices, depth);
      if fault.Some? {
        return Err(fault.value);
      }
      FrontierLevels(indices, 0, depth);
      var frontier := Frontier(indices, 0, depth);
      var siblings := [];
      for i := 0 to |frontier|
        invariant siblings == Read(TreeNodes(h, leaves), frontier)[..i]
      {
        assert frontier[i] in frontier;
        BetweenReads(h, nodes, zeroRoots, leaves, leaves, 0, frontier[i].0, frontier[i].1);
        siblings := siblings + [NodeAt(nodes, zeroRoots, frontier[i].0, frontier[i].1)];
      }
      return Ok(siblings);
    }
  }

  lemma BetweenReads(h: Hasher, nodes: Nodes, zeros: seq<StateHash>, was: LeafMap, now: LeafMap, done: nat,
                     level: nat, p: nat)
    requires Between(h, nodes, zeros, was, now, done) && level < |zeros|
    ensures NodeAt(nodes, zeros, level, p) == TreeNode(h, if level < done then now else was, level, p)
  {
    assert LevelIs(h, nodes, zeros, if level < done then now else was, level);
  }

  lemma BetweenStarts(h: Hasher, nodes: Nodes, zeros: seq<StateHash>, was: LeafMap, now: LeafMap)
    requires Between(h, nodes, zeros, was, was, 0)
    ensures Between(h, nodes, zeros, was, now, 0)
  {
    hide LevelIs;
  }

  lemma BetweenEnds(h: Hasher, nodes: Nodes, zeros: seq<StateHash>, was: LeafMap, now: LeafMap)
    requires Between(h, nodes, zeros, was, now, |zeros|)
    ensures Between(h, nodes, zeros, now, now, 0)
  {
    hide LevelIs;
  }

  lemma {:induction false} FrontierLevels(ps: seq<nat>, level: nat, depth: nat)
    ensures forall at :: at in Frontier(ps, level, depth) ==> level <= at.0 < level + depth
    decreases depth
  {
    if depth > 0 {
      FrontierLevels(Parents(ps), level + 1, depth - 1);
    }
  }

  /** What is stored depends on the leaves alone, not on the writes that led there. */
  lemma StoredNodesAreCanonical(h: Hasher, a: Nodes, b: Nodes, zeros: seq<StateHash>, leaves: LeafMap)
    requires Between(h, a, zeros, leaves, leaves, 0) && Sparse(a, zeros)
    requires Between(h, b, zeros, leaves, leaves, 0) && Sparse(b, zeros)
    ensures a == b
  {
    hide TreeNode, Between;
    forall at: NodeIndex | at in a || at in b
      ensures at in a && at in b && a[at] == b[at]
    {
      BetweenReads(h, a, zeros, leaves, leaves, 0, at.0, at.1);
      BetweenReads(h, b, zeros, leaves, leaves, 0, at.0, at.1);
      assert at == (at.0, at.1);
    }
  }

  /**
   A proof built from the cache reconstructs the cache's root, and with new leaves in place of the touched ones
   it reconstructs the root of the updated tree.
   */
  lemma CacheProofCarriesUpdate(h: Hasher, nodes: Nodes, zeros: seq<StateHash>, before: LeafMap, after: LeafMap,
                                indices: seq<nat>, depth: nat)
    requires Between(h, nodes, zeros, before, before, 0) && |zeros| == depth + 1 && Canonical(indices, depth)
    requires forall i: nat :: i !in indices ==> TreeNode(h, before, 0, i) == TreeNode(h, after, 0, i)
    ensures var proof := Read(TreeNodes(h, before), Frontier(indices, 0, depth));
            && Reconstruct(h, indices, Read(TreeNodes(h, before), AtLevel(0, indices)), proof, 0, depth)
               == NodeAt(nodes, zeros, depth, 0)
            && Reconstruct(h, indices, Read(TreeNodes(h, after), AtLevel(0, indices)), proof, 0, depth)
               == TreeNode(h, after, depth, 0)
  {
    hide Reconstruct, Frontier, Between;
    BetweenReads(h, nodes, zeros, before, before, 0, depth, 0);
    assert AgreeOutside(TreeNodes(h, before), TreeNodes(h, after), 0, indices);
    ProofCarriesUpdate(h, TreeNodes(h, before), TreeNodes(h, after), indices, depth);
  }
}
