/** The exact-state commitment: slots, leaf and node hashes, and the plain recursive Merkle root. */
module StateHashing {
  import opened Powers
  import opened PairHashing

  const TWO_64: nat := 0x1_0000_0000_0000_0000
  const TWO_128: nat := TWO_64 * TWO_64

  /** A 32-byte state hash. Nothing here looks inside one. */
  type StateHash(==, 0, !new)

  type Block128 = n: nat | n < TWO_128

  datatype SlotValue = SlotValue(value: Block128, ownerHi: Block128, ownerLo: Block128) {
    predicate IsEmpty() {
      this == EMPTY
    }
  }

  const EMPTY := SlotValue(0, 0, 0)

  /** The two Poseidon2b hashes of the commitment, arbitrary here: every result holds for any pair. */
  datatype Hasher = Hasher(leaf: SlotValue -> StateHash, node: Compressor<StateHash>)

  function LeafHash(h: Hasher, slot: SlotValue): StateHash {
    h.leaf(slot)
  }

  function NodeHash(h: Hasher, left: StateHash, right: StateHash): StateHash {
    Compress(h.node, left, right)
  }

  /** The reference commitment of the `2^level` leaves from `start`: hash both halves, hash the pair. */
  function RangeRoot(h: Hasher, leaves: seq<StateHash>, level: nat, start: nat): StateHash
    requires start + Pow2(level) <= |leaves|
    decreases level
  {
    if level == 0 then leaves[start]
    else NodeHash(h, RangeRoot(h, leaves, level - 1, start),
                  RangeRoot(h, leaves, level - 1, start + Pow2(level - 1)))
  }

  /** The commitment of a whole leaf vector. */
  function MerkleRoot(h: Hasher, level: nat, leaves: seq<StateHash>): StateHash
    requires |leaves| == Pow2(level)
  {
    RangeRoot(h, leaves, level, 0)
  }

  lemma {:induction false} RangeRootIsLocal(h: Hasher, a: seq<StateHash>, b: seq<StateHash>, level: nat, start: nat)
    requires start + Pow2(level) <= |a| && start + Pow2(level) <= |b|
    requires forall i :: start <= i < start + Pow2(level) ==> a[i] == b[i]
    ensures RangeRoot(h, a, level, start) == RangeRoot(h, b, level, start)
    decreases level
  {
    if level > 0 {
      RangeRootIsLocal(h, a, b, level - 1, start);
      RangeRootIsLocal(h, a, b, level - 1, start + Pow2(level - 1));
    }
  }

  /** The same `n` leaves from `at` and from `bt`. */
  ghost predicate SameLeaves(a: seq<StateHash>, at: nat, b: seq<StateHash>, bt: nat, n: nat) {
    at + n <= |a| && bt + n <= |b| && a[at..at + n] == b[bt..bt + n]
  }

  lemma SameLeavesSplit(a: seq<StateHash>, at: nat, b: seq<StateHash>, bt: nat, n: nat, m: nat)
    requires SameLeaves(a, at, b, bt, n + m)
    ensures SameLeaves(a, at, b, bt, n) && SameLeaves(a, at + n, b, bt + n, m)
    ensures n + m > 0 ==> a[at] == b[bt]
  {
    var x, y := a[at..at + n + m], b[bt..bt + n + m];
    assert a[at..at + n] == x[..n] && b[bt..bt + n] == y[..n];
    assert a[at + n..at + n + m] == x[n..] && b[bt + n..bt + n + m] == y[n..];
    if n + m > 0 {
      assert a[at] == x[0] && b[bt] == y[0];
    }
  }

  /** Equal leaf ranges have equal roots, wherever they stand. */
  lemma {:induction false} RangeRootIsPortable(h: Hasher, a: seq<StateHash>, at: nat, b: seq<StateHash>, bt: nat,
                                               level: nat)
    requires SameLeaves(a, at, b, bt, Pow2(level))
    ensures at + Pow2(level) <= |a| && bt + Pow2(level) <= |b|
    ensures RangeRoot(h, a, level, at) == RangeRoot(h, b, level, bt)
    decreases level
  {
    hide SameLeaves;
    InBounds(a, at, b, bt, Pow2(level));
    if level == 0 {
      SameLeavesSplit(a, at, b, bt, 1, 0);
    } else {
      var half := Pow2(level - 1);
      SameLeavesSplit(a, at, b, bt, half, half);
      RangeRootIsPortable(h, a, at, b, bt, level - 1);
      RangeRootIsPortable(h, a, at + half, b, bt + half, level - 1);
    }
  }

  lemma InBounds(a: seq<StateHash>, at: nat, b: seq<StateHash>, bt: nat, n: nat)
    requires SameLeaves(a, at, b, bt, n)
    ensures at + n <= |a| && bt + n <= |b|
  {
  }

  /** Root of an all-empty subtree of the given level. */
  function ZeroRoot(h: Hasher, level: nat): StateHash {
    if level == 0 then LeafHash(h, EMPTY)
    else NodeHash(h, ZeroRoot(h, level - 1), ZeroRoot(h, level - 1))
  }

  ghost predicate AreZeroRoots(h: Hasher, zeros: seq<StateHash>, depth: nat) {
    |zeros| == depth + 1 && forall level :: 0 <= level <= depth ==> zeros[level] == ZeroRoot(h, level)
  }

  method ZeroSlotRoots(h: Hasher, maxDepth: nat) returns (roots: seq<StateHash>)
    ensures AreZeroRoots(h, roots, maxDepth)
  {
    roots := [LeafHash(h, EMPTY)];
    for depth := 0 to maxDepth
      invariant AreZeroRoots(h, roots, depth)
    {
      var z := roots[depth];
      roots := roots + [NodeHash(h, z, z)];
    }
  }

  /** The precomputed zero roots are the commitment of an empty slot range. */
  lemma {:induction false} ZeroRootIsRootOfEmptySlots(h: Hasher, leaves: seq<StateHash>, level: nat, start: nat)
    requires start + Pow2(level) <= |leaves|
    requires forall i :: start <= i < start + Pow2(level) ==> leaves[i] == LeafHash(h, EMPTY)
    ensures RangeRoot(h, leaves, level, start) == ZeroRoot(h, level)
    decreases level
  {
    if level > 0 {
      ZeroRootIsRootOfEmptySlots(h, leaves, level - 1, start);
      ZeroRootIsRootOfEmptySlots(h, leaves, level - 1, start + Pow2(level - 1));
    }
  }
}
