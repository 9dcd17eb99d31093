/** One canonical proof expanded into a directed path per leaf. */
module MultiproofPaths {
  import opened PairHashing
  import opened StateHashing
  import opened SparseMultiproof

  /** Where the parent of touched node `i` stands among the parents. */
  function ParentIndex(ps: seq<nat>, i: nat): (at: nat)
    requires i < |ps|
    ensures at < |Parents(ps)| && Parents(ps)[at] == ps[i] / 2
  {
    var n := if Paired(ps) then 2 else 1;
    if i < n then 0 else 1 + ParentIndex(ps[n..], i - n)
  }

  /** The hash beside touched node `i`: another touched node, or a proof sibling. */
  function SiblingHash(ps: seq<nat>, hashes: seq<StateHash>, siblings: seq<StateHash>, i: nat): StateHash
    requires i < |ps| == |hashes| && |siblings| == |Missing(ps)|
  {
    if Paired(ps) then
      if i < 2 then hashes[1 - i] else SiblingHash(ps[2..], hashes[2..], siblings, i - 2)
    else
      if i == 0 then siblings[0] else SiblingHash(ps[1..], hashes[1..], siblings[1..], i - 1)
  }

  /** The siblings beside leaf `i`, bottom up. */
  function Path(h: Hasher, ps: seq<nat>, hashes: seq<StateHash>, siblings: seq<StateHash>, ghost level: nat, depth: nat,
                i: nat)
    : (path: seq<StateHash>)
    requires i < |ps| == |hashes| && |siblings| == |Frontier(ps, level, depth)|
    ensures |path| == depth
    decreases depth
  {
    if depth == 0 then []
    else
      var here := |Missing(ps)|;
      [SiblingHash(ps, hashes, siblings[..here], i)]
      + Path(h, Parents(ps), ParentHashes(h, ps, hashes, siblings[..here]), siblings[here..], level + 1, depth - 1,
             ParentIndex(ps, i))
  }

  /** Writing one touched node moves one parent, and leaves its own sibling alone. */
  lemma {:induction false} WriteMovesOneParent(h: Hasher, ps: seq<nat>, hashes: seq<StateHash>,
                                               siblings: seq<StateHash>, i: nat, x: StateHash)
    requires i < |ps| == |hashes| && |siblings| == |Missing(ps)|
    ensures ParentHashes(h, ps, hashes[i := x], siblings)
         == ParentHashes(h, ps, hashes, siblings)[ParentIndex(ps, i) :=
              Joined(h.node, ps[i], x, SiblingHash(ps, hashes, siblings, i))]
    ensures SiblingHash(ps, hashes[i := x], siblings, i) == SiblingHash(ps, hashes, siblings, i)
  {
    hide Missing, ParentHashes;
    var n, m := if Paired(ps) then 2 else 1, if Paired(ps) then 0 else 1;
    if Paired(ps) {
      UnfoldPair(h, ps, hashes, siblings);
      UnfoldPair(h, ps, hashes[i := x], siblings);
      assert siblings[0..] == siblings;
    } else {
      UnfoldSingle(h, ps, hashes, siblings);
      UnfoldSingle(h, ps, hashes[i := x], siblings);
    }
    if i < n {
      assert hashes[i := x][n..] == hashes[n..];
    } else {
      WriteMovesOneParent(h, ps[n..], hashes[n..], siblings[m..], i - n, x);
      assert hashes[i := x][n..] == hashes[n..][i - n := x];
    }
  }

  /**
   Whatever leaf stands at `i`, folding it up its path gives the reconstructed root; the path does not depend on it.
   */
  lemma {:induction false} PathFoldsToRoot(h: Hasher, ps: seq<nat>, hashes: seq<StateHash>, siblings: seq<StateHash>,
                                           level: nat, depth: nat, i: nat, x: StateHash)
    requires i < |ps| == |hashes| && |siblings| == |Frontier(ps, level, depth)| && Canonical(ps, depth)
    ensures Fold(h.node, ps[i], x, Path(h, ps, hashes, siblings, level, depth, i))
         == Reconstruct(h, ps, hashes[i := x], siblings, level, depth)
    ensures Path(h, ps, hashes[i := x], siblings, level, depth, i) == Path(h, ps, hashes, siblings, level, depth, i)
    decreases depth
  {
    hide Missing, Parents, ParentHashes, ParentIndex, SiblingHash;
    if depth == 0 {
      assert ps[0] == ps[i] == 0;
    } else {
      var own, rest := siblings[..|Missing(ps)|], siblings[|Missing(ps)|..];
      var beside := SiblingHash(ps, hashes, own, i);
      WriteMovesOneParent(h, ps, hashes, own, i, x);
      ParentsCanonical(ps, depth);
      PathFoldsToRoot(h, Parents(ps), ParentHashes(h, ps, hashes, own), rest, level + 1, depth - 1, ParentIndex(ps, i),
                      Joined(h.node, ps[i], x, beside));
    }
  }
}
