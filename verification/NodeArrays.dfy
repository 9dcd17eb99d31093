/** Heap-ordered node arrays: node 1 is the root, the children of `n` are `2n` and `2n + 1`. */
module NodeArrays {
  import opened Powers
  import opened StateHashing

  /** Node `n` is the hash of its two children. */
  ghost predicate Hashed(h: Hasher, nodes: seq<StateHash>, n: nat) {
    2 * n + 1 < |nodes| && nodes[n] == h.node.f(nodes[2 * n], nodes[2 * n + 1])
  }

  /** Every inner node in `low..high` is hashed, except possibly `gap`. */
  ghost predicate HashedExcept(h: Hasher, nodes: seq<StateHash>, low: nat, high: nat, gap: nat) {
    forall n :: low <= n < high && n != gap ==> Hashed(h, nodes, n)
  }

  /** Above index 0, `nodes` is the complete hash tree over `leaves`. */
  ghost predicate HashesOver(h: Hasher, nodes: seq<StateHash>, leaves: seq<StateHash>) {
    && 1 <= |leaves|
    && |nodes| == 2 * |leaves|
    && nodes[|leaves|..] == leaves
    && HashedExcept(h, nodes, 1, |leaves|, 0)
  }

  /** The same, with the zero leaf as the unused filler at index 0. */
  ghost predicate IsTreeOver(h: Hasher, nodes: seq<StateHash>, leaves: seq<StateHash>) {
    HashesOver(h, nodes, leaves) && nodes[0] == ZeroRoot(h, 0)
  }

  /** Storing into `at` can only unhash `at` and its parent; it rehashes `at` when it stores the right hash. */
  lemma StoreMovesGap(h: Hasher, nodes: seq<StateHash>, low: nat, high: nat, at: nat, hash: StateHash)
    requires 1 <= low && 2 * high <= |nodes| && at < |nodes|
    requires HashedExcept(h, nodes, low, high, at)
    requires at < high ==> hash == NodeHash(h, nodes[2 * at], nodes[2 * at + 1])
    ensures HashedExcept(h, nodes[at := hash], low, high, at / 2)
  {
    var parent, after := at / 2, nodes[at := hash];
    forall n | low <= n < high && n != parent
      ensures Hashed(h, after, n)
    {
      assert n != at ==> Hashed(h, nodes, n);
    }
  }

  /** Node `n` of a tree over `size` slots is at `level` and stands over the slots from `start`. */
  ghost predicate Covers(size: nat, level: nat, n: nat, start: nat)
    decreases level
  {
    if level == 0 then start < size && n == size + start
    else
      && 1 <= n < size
      && Covers(size, level - 1, 2 * n, start)
      && Covers(size, level - 1, 2 * n + 1, start + Pow2(level - 1))
  }

  /** Node `index` of the level that is `depth` below the root covers slot block `index`. */
  lemma {:induction false} BlockCovers(size: nat, depth: nat, level: nat, index: nat, n: nat, start: nat)
    requires size == Pow2(depth + level) && index < Pow2(depth)
    requires n == Pow2(depth) + index && start == Shl(index, level)
    ensures Covers(size, level, n, start)
    decreases level
  {
    if level > 0 {
      Pow2Monotone(depth + 1, depth + level);
      ShlNext(2 * index, level - 1);
      BlockCovers(size, depth + 1, level - 1, 2 * index, 2 * n, start);
      BlockCovers(size, depth + 1, level - 1, 2 * index + 1, 2 * n + 1, start + Pow2(level - 1));
    }
  }

  lemma RootCovers(log: nat)
    ensures Covers(Pow2(log), log, 1, 0)
  {
    ShlZero(log);
    BlockCovers(Pow2(log), 0, log, 0, 1, 0);
  }

  /** Every stored node is the plain recursive root of the slot range below it. */
  lemma {:induction false} NodeIsRangeRoot(
      h: Hasher, nodes: seq<StateHash>, leaves: seq<StateHash>, level: nat, n: nat, start: nat)
    requires HashesOver(h, nodes, leaves) && Covers(|leaves|, level, n, start)
    ensures n < |nodes| && start + Pow2(level) <= |leaves|
    ensures nodes[n] == RangeRoot(h, leaves, level, start)
    decreases level
  {
    if level > 0 {
      assert Hashed(h, nodes, n);
      NodeIsRangeRoot(h, nodes, leaves, level - 1, 2 * n, start);
      NodeIsRangeRoot(h, nodes, leaves, level - 1, 2 * n + 1, start + Pow2(level - 1));
    }
  }

  lemma RootIsMerkleRoot(h: Hasher, nodes: seq<StateHash>, leaves: seq<StateHash>, log: nat)
    requires HashesOver(h, nodes, leaves) && |leaves| == Pow2(log)
    ensures nodes[1] == MerkleRoot(h, log, leaves)
  {
    RootCovers(log);
    NodeIsRangeRoot(h, nodes, leaves, log, 1, 0);
  }

  /** The tree over given leaves is unique, node for node. */
  lemma TreeIsUnique(h: Hasher, a: seq<StateHash>, b: seq<StateHash>, leaves: seq<StateHash>)
    requires IsTreeOver(h, a, leaves) && IsTreeOver(h, b, leaves)
    ensures a == b
  {
    AgreeFrom(h, a, b, leaves, 1);
  }

  lemma {:induction false} AgreeFrom(
      h: Hasher, a: seq<StateHash>, b: seq<StateHash>, leaves: seq<StateHash>, low: nat)
    requires IsTreeOver(h, a, leaves) && IsTreeOver(h, b, leaves)
    requires 1 <= low <= |leaves|
    ensures a[low..] == b[low..]
    decreases |leaves| - low
  {
    if low < |leaves| {
      AgreeFrom(h, a, b, leaves, low + 1);
      assert Hashed(h, a, low) && Hashed(h, b, low);
      assert a[low..] == [a[low]] + a[low + 1..];
      assert b[low..] == [b[low]] + b[low + 1..];
      assert a[2 * low] == a[low + 1..][low - 1] && a[2 * low + 1] == a[low + 1..][low];
      assert b[2 * low] == b[low + 1..][low - 1] && b[2 * low + 1] == b[low + 1..][low];
    }
  }

  function NodeOver(h: Hasher, leaves: seq<StateHash>, n: nat): StateHash
    requires 1 <= n < 2 * |leaves|
    decreases 2 * |leaves| - n
  {
    if n >= |leaves| then leaves[n - |leaves|]
    else NodeHash(h, NodeOver(h, leaves, 2 * n), NodeOver(h, leaves, 2 * n + 1))
  }

  /** The tree over given leaves, as a value. */
  function TreeOver(h: Hasher, leaves: seq<StateHash>): (nodes: seq<StateHash>)
    requires 1 <= |leaves|
    ensures IsTreeOver(h, nodes, leaves)
  {
    seq(2 * |leaves|, n requires 0 <= n < 2 * |leaves| =>
      if n == 0 then ZeroRoot(h, 0) else NodeOver(h, leaves, n))
  }
}
