/** Sequential updates cut at the segment level: local updates per slot, one upper update per segment. */
module MultiproofSegments {
  import opened Options
  import opened Powers
  import opened PairHashing
  import opened StateHashing
  import opened SparseMultiproof
  import opened MultiproofVerifier
  import opened MultiproofPaths
  import opened MultiproofUpdates

  // ---------------------------------------------------------------------
  // The partial tree at a level
  // ---------------------------------------------------------------------

  /** The siblings left once `n` levels have been climbed. */
  ghost function SiblingsAbove(ps: seq<nat>, siblings: seq<StateHash>, level: nat, depth: nat,
                               n: nat): (rest: seq<StateHash>)
    requires |siblings| == |Frontier(ps, level, depth)| && n <= depth
    ensures |rest| == |Frontier(Climb(ps, n), level + n, depth - n)|
    decreases depth
  {
    if n == 0 then siblings else SiblingsAbove(Parents(ps), siblings[|Missing(ps)|..], level + 1, depth - 1, n - 1)
  }

  /** The hashes of the touched nodes `n` levels up. */
  ghost function HashesAbove(h: Hasher, ps: seq<nat>, hashes: seq<StateHash>, siblings: seq<StateHash>, level: nat,
                             depth: nat, n: nat): (above: seq<StateHash>)
    requires |hashes| == |ps| && |siblings| == |Frontier(ps, level, depth)| && n <= depth
    ensures |above| == |Climb(ps, n)|
    decreases depth
  {
    if n == 0 then hashes
    else
      var here := |Missing(ps)|;
      HashesAbove(h, Parents(ps), ParentHashes(h, ps, hashes, siblings[..here]), siblings[here..], level + 1, depth - 1,
                  n - 1)
  }

  /** Where the ancestor of touched node `i` stands among the touched nodes `n` levels up. */
  ghost function IndexAbove(ps: seq<nat>, i: nat, n: nat): (at: nat)
    requires i < |ps|
    ensures at < |Climb(ps, n)| && Climb(ps, n)[at] == Shr(ps[i], n)
    decreases n
  {
    if n == 0 then i
    else
      ShrOfHalf(ps[i], n);
      IndexAbove(Parents(ps), ParentIndex(ps, i), n - 1)
  }

  /** Above the cut, a path is a path of the tree over the segment hashes. */
  lemma {:induction false} PathAbove(h: Hasher, ps: seq<nat>, hashes: seq<StateHash>, siblings: seq<StateHash>,
                                     level: nat,
                                     depth: nat, n: nat, i: nat)
    requires i < |ps| == |hashes| && |siblings| == |Frontier(ps, level, depth)| && n <= depth
    ensures Path(h, ps, hashes, siblings, level, depth, i)[n..]
         == Path(h, Climb(ps, n), HashesAbove(h, ps, hashes, siblings, level, depth, n),
                 SiblingsAbove(ps, siblings, level, depth, n), level + n, depth - n, IndexAbove(ps, i, n))
    decreases depth
  {
    hide Missing, Parents, ParentHashes, SiblingHash, ParentIndex;
    if n > 0 {
      var here := |Missing(ps)|;
      var own, rest := siblings[..here], siblings[here..];
      PathAbove(h, Parents(ps), ParentHashes(h, ps, hashes, own), rest, level + 1, depth - 1, n - 1,
                ParentIndex(ps, i));
    }
  }

  /** Writing one leaf moves one hash at the cut, to what its lower path folds to. */
  lemma {:induction false} WriteAbove(h: Hasher, ps: seq<nat>, hashes: seq<StateHash>, siblings: seq<StateHash>,
                                      level: nat,
                                      depth: nat, n: nat, i: nat, x: StateHash)
    requires i < |ps| == |hashes| && |siblings| == |Frontier(ps, level, depth)| && n <= depth
    ensures HashesAbove(h, ps, hashes[i := x], siblings, level, depth, n)
         == HashesAbove(h, ps, hashes, siblings, level, depth, n)[IndexAbove(ps, i, n) :=
              Fold(h.node, ps[i], x, Path(h, ps, hashes, siblings, level, depth, i)[..n])]
    decreases depth
  {
    hide Missing, Parents, ParentHashes, SiblingHash, ParentIndex;
    var path := Path(h, ps, hashes, siblings, level, depth, i);
    if n == 0 {
      assert path[..0] == [];
    } else {
      var here := |Missing(ps)|;
      var own, rest := siblings[..here], siblings[here..];
      var beside := SiblingHash(ps, hashes, own, i);
      WriteMovesOneParent(h, ps, hashes, own, i, x);
      WriteAbove(h, Parents(ps), ParentHashes(h, ps, hashes, own), rest, level + 1, depth - 1, n - 1,
                 ParentIndex(ps, i),
                 Joined(h.node, ps[i], x, beside));
      assert path[..n][0] == beside && path[..n][1..] == path[1..][..n - 1];
      FoldStep(h.node, ps[i], x, path[..n]);
    }
  }

  /** A leaf folded up to the cut is the touched node's hash there. */
  lemma FoldIsHashAbove(h: Hasher, ps: seq<nat>, hashes: seq<StateHash>, siblings: seq<StateHash>, level: nat,
                        depth: nat,
                        n: nat, i: nat)
    requires i < |ps| == |hashes| && |siblings| == |Frontier(ps, level, depth)| && n <= depth
    ensures Fold(h.node, ps[i], hashes[i], Path(h, ps, hashes, siblings, level, depth, i)[..n])
         == HashesAbove(h, ps, hashes, siblings, level, depth, n)[IndexAbove(ps, i, n)]
  {
    hide HashesAbove, IndexAbove, Path, Fold;
    WriteAbove(h, ps, hashes, siblings, level, depth, n, i, hashes[i]);
    assert hashes[i := hashes[i]] == hashes;
  }

  /** Touched nodes of one segment meet at one place. */
  lemma SameSegmentMeets(ps: seq<nat>, i: nat, j: nat, n: nat, upper: nat)
    requires Canonical(ps, n + upper) && i < |ps| && j < |ps| && Shr(ps[i], n) == Shr(ps[j], n)
    ensures IndexAbove(ps, i, n) == IndexAbove(ps, j, n)
  {
    hide IndexAbove, Climb;
    ClimbCanonical(ps, n, upper);
    AscendingIsDistinct(Climb(ps, n));
  }

  // ---------------------------------------------------------------------
  // Cutting one step
  // ---------------------------------------------------------------------

  /** Folds with explicit sides. */
  function FoldDirected(h: Hasher, leaf: StateHash, siblings: seq<StateHash>, directions: seq<bool>): StateHash
    requires |siblings| == |directions|
    decreases |siblings|
  {
    if siblings == [] then leaf
    else
      FoldDirected(h, if directions[0] then NodeHash(h, siblings[0], leaf) else NodeHash(h, leaf, siblings[0]),
                   siblings[1..], directions[1..])
  }

  lemma {:induction false} FoldDirectedIsFold(h: Hasher, index: nat, leaf: StateHash, siblings: seq<StateHash>,
                                              directions: seq<bool>)
    requires Directed(index, directions, |siblings|)
    ensures FoldDirected(h, leaf, siblings, directions) == Fold(h.node, index, leaf, siblings)
    decreases |siblings|
  {
    if siblings != [] {
      assert directions[0] == (Shr(index, 0) % 2 == 1);
      DirectedRest(index, directions, |siblings|, 1);
      FoldDirectedIsFold(h, index / 2, Joined(h.node, index, leaf, siblings[0]), siblings[1..], directions[1..]);
    }
  }

  /** The sides above a cut are the sides of the segment's own index. */
  lemma DirectedRest(index: nat, directions: seq<bool>, depth: nat, n: nat)
    requires Directed(index, directions, depth) && n <= depth
    ensures Directed(index, directions[..n], n) && Directed(Shr(index, n), directions[n..], depth - n)
  {
    forall level | 0 <= level < depth - n
      ensures directions[n..][level] == (Shr(Shr(index, n), level) % 2 == 1)
    {
      ShrTwice(index, n, level);
    }
  }

  /** The lower part of a step: the same leaves, up to the segment root. */
  function Lower(h: Hasher, step: UpdateStep, n: nat): UpdateStep
    requires n <= |step.siblings| == |step.directions|
  {
    var siblings, directions := step.siblings[..n], step.directions[..n];
    UpdateStep(step.index, step.oldLeaf, step.newLeaf, siblings, directions,
               FoldDirected(h, step.oldLeaf, siblings, directions), FoldDirected(h, step.newLeaf, siblings, directions))
  }

  /** The tree at the cut, before step `k`. */
  ghost function AtCut(h: Hasher, ps: seq<nat>, oldLeaves: seq<StateHash>, newLeaves: seq<StateHash>,
                       siblings: seq<StateHash>, depth: nat, n: nat, k: nat): (hashes: seq<StateHash>)
    requires Expandable(ps, oldLeaves, newLeaves, siblings, depth) && n <= depth && k <= |ps|
    ensures |hashes| == |Climb(ps, n)|
  {
    HashesAbove(h, ps, Mixed(oldLeaves, newLeaves, k), siblings, 0, depth, n)
  }

  /**
   What the lower part of a step says: it moves one hash at the cut, its own segment's, and authenticates both values.
   */
  lemma LowerMoves(h: Hasher, ps: seq<nat>, oldLeaves: seq<StateHash>, newLeaves: seq<StateHash>,
                   siblings: seq<StateHash>,
                   depth: nat, n: nat, steps: seq<UpdateStep>, k: nat)
    requires Expandable(ps, oldLeaves, newLeaves, siblings, depth) && n <= depth && |steps| == |ps| && k < |ps|
    requires StepsFollow(h, ps, oldLeaves, newLeaves, siblings, depth, steps)
    ensures |steps[k].siblings| == |steps[k].directions| == depth
    ensures var lower, at := Lower(h, steps[k], n), IndexAbove(ps, k, n);
            var before, after := AtCut(h, ps, oldLeaves, newLeaves, siblings, depth, n, k),
                                 AtCut(h, ps, oldLeaves, newLeaves, siblings, depth, n, k + 1);
            && lower.Moves(ps[k], oldLeaves[k], newLeaves[k], n) && lower.Authentic(h)
            && lower.rootBefore == before[at] && after == before[at := lower.rootAfter]
  {
    hide Path, Reconstruct, Fold, HashesAbove, IndexAbove, Mixed, Frontier, Climb;
    var step, leaves := steps[k], Mixed(oldLeaves, newLeaves, k);
    MixedNext(oldLeaves, newLeaves, k);
    DirectedRest(ps[k], step.directions, depth, n);
    FoldDirectedIsFold(h, ps[k], step.oldLeaf, step.siblings[..n], step.directions[..n]);
    FoldDirectedIsFold(h, ps[k], step.newLeaf, step.siblings[..n], step.directions[..n]);
    FoldIsHashAbove(h, ps, leaves, siblings, 0, depth, n, k);
    WriteAbove(h, ps, leaves, siblings, 0, depth, n, k, newLeaves[k]);
  }

  /** The path above the cut over any value of the segment's hash folds to the root with that value in place. */
  lemma UpperFolds(h: Hasher, ps: seq<nat>, hashes: seq<StateHash>, siblings: seq<StateHash>, level: nat, depth: nat,
                   i: nat,
                   path: seq<StateHash>, x: StateHash)
    requires Canonical(ps, depth) && i < |ps| == |hashes| && |siblings| == |Frontier(ps, level, depth)|
    requires path == Path(h, ps, hashes, siblings, level, depth, i)
    ensures Fold(h.node, ps[i], x, path) == Reconstruct(h, ps, hashes[i := x], siblings, level, depth)
    ensures Path(h, ps, hashes[i := x], siblings, level, depth, i) == path
  {
    PathFoldsToRoot(h, ps, hashes, siblings, level, depth, i, x);
  }

  /** Reconstruction goes through the cut. */
  lemma {:induction false} ReconstructAbove(h: Hasher, ps: seq<nat>, hashes: seq<StateHash>, siblings: seq<StateHash>,
                                            level: nat, depth: nat, n: nat)
    requires Canonical(ps, depth) && |hashes| == |ps| && |siblings| == |Frontier(ps, level, depth)| && n <= depth
    ensures var top, above, rest := Climb(ps, n), HashesAbove(h, ps, hashes, siblings, level, depth, n),
                                    SiblingsAbove(ps, siblings, level, depth, n);
            && top != [] && |above| == |top| && |rest| == |Frontier(top, level + n, depth - n)|
            && Reconstruct(h, ps, hashes, siblings, level, depth)
               == Reconstruct(h, top, above, rest, level + n, depth - n)
    decreases depth
  {
    hide Missing, Parents, ParentHashes;
    if n > 0 {
      var here := |Missing(ps)|;
      ParentsCanonical(ps, depth);
      ReconstructAbove(h, Parents(ps), ParentHashes(h, ps, hashes, siblings[..here]), siblings[here..], level + 1,
                       depth - 1,
                       n - 1);
    }
  }

  // ---------------------------------------------------------------------
  // Segments
  // ---------------------------------------------------------------------

  datatype SegmentedUpdates = SegmentedUpdates(localDepth: nat, upperDepth: nat, localUpdates: seq<UpdateStep>,
                                               segmentUpdates: seq<UpdateStep>)

  /**
   Local updates `lo..hi` are those of one segment, chain from its old root to its new one, and its update moves that.
   */
  ghost predicate GroupOf(local: seq<UpdateStep>, segment: UpdateStep, lo: nat, hi: nat, n: nat, upper: nat) {
    && lo < hi <= |local|
    && segment.Moves(Shr(local[lo].index, n), local[lo].rootBefore, local[hi - 1].rootAfter, upper)
    && (forall k :: lo <= k < hi ==> Shr(local[k].index, n) == segment.index)
    && (forall k :: lo <= k < hi - 1 ==> local[k].rootAfter == local[k + 1].rootBefore)
  }

  /** Consecutive groups from the first local update up to `end`, one per segment, in ascending order. */
  ghost predicate Grouped(local: seq<UpdateStep>, segments: seq<UpdateStep>, cuts: seq<nat>, end: nat, n: nat,
                          upper: nat) {
    && |cuts| == |segments| + 1 && cuts[0] == 0 && cuts[|segments|] == end
    && (forall j :: 0 <= j < |segments| ==> GroupOf(local, segments[j], cuts[j], cuts[j + 1], n, upper))
    && (forall j :: 0 <= j < |segments| - 1 ==> segments[j].index < segments[j + 1].index)
  }

  lemma {:induction false} ShrMonotone(a: nat, b: nat, n: nat)
    requires a <= b
    ensures Shr(a, n) <= Shr(b, n)
  {
    if n > 0 {
      ShrMonotone(a, b, n - 1);
    }
  }

  /** The local updates of every step. */
  ghost predicate LowerOf(h: Hasher, steps: seq<UpdateStep>, local: seq<UpdateStep>, n: nat) {
    |local| <= |steps| && forall k :: 0 <= k < |local| ==>
      n <= |steps[k].siblings| == |steps[k].directions| && local[k] == Lower(h, steps[k], n)
  }

  /** While the segment stays the same, the tree at the cut differs from where it started in that segment only. */
  lemma {:induction false} GroupMovesOneHash(h: Hasher, ps: seq<nat>, oldLeaves: seq<StateHash>,
                                             newLeaves: seq<StateHash>,
                                             siblings: seq<StateHash>, depth: nat, n: nat, steps: seq<UpdateStep>,
                                             local: seq<UpdateStep>, lo: nat, hi: nat)
    requires Expandable(ps, oldLeaves, newLeaves, siblings, depth) && n <= depth && |steps| == |ps| == |local|
    requires StepsFollow(h, ps, oldLeaves, newLeaves, siblings, depth, steps) && LowerOf(h, steps, local, n)
    requires lo < hi <= |ps| && forall k :: lo <= k < hi ==> Shr(ps[k], n) == Shr(ps[lo], n)
    ensures var at := IndexAbove(ps, lo, n);
            var before := AtCut(h, ps, oldLeaves, newLeaves, siblings, depth, n, lo);
            && local[lo].rootBefore == before[at]
            && AtCut(h, ps, oldLeaves, newLeaves, siblings, depth, n, hi) == before[at := local[hi - 1].rootAfter]
    ensures forall k :: lo <= k < hi - 1 ==> local[k].rootAfter == local[k + 1].rootBefore
    decreases hi
  {
    hide AtCut, StepsFollow, IndexAbove, Lower, Climb, Shr, Frontier, Ascending, UpdateStep.Moves, UpdateStep.Authentic;
    SameSegmentMeets(ps, lo, hi - 1, n, depth - n);
    LowerMoves(h, ps, oldLeaves, newLeaves, siblings, depth, n, steps, hi - 1);
    if lo < hi - 1 {
      GroupMovesOneHash(h, ps, oldLeaves, newLeaves, siblings, depth, n, steps, local, lo, hi - 1);
    }
  }

  /** One update of a segment's root does what all of its local updates do together. */
  lemma GroupIsOneUpdate(h: Hasher, ps: seq<nat>, oldLeaves: seq<StateHash>, newLeaves: seq<StateHash>,
                         siblings: seq<StateHash>, depth: nat, n: nat, steps: seq<UpdateStep>, local: seq<UpdateStep>,
                         lo: nat, hi: nat)
    requires Expandable(ps, oldLeaves, newLeaves, siblings, depth) && n <= depth && |steps| == |ps| == |local|
    requires StepsFollow(h, ps, oldLeaves, newLeaves, siblings, depth, steps) && LowerOf(h, steps, local, n)
    requires lo < hi <= |ps| && forall k :: lo <= k < hi ==> Shr(ps[k], n) == Shr(ps[lo], n)
    ensures |steps[lo].siblings| == depth
    ensures Fold(h.node, Shr(ps[lo], n), local[lo].rootBefore, steps[lo].siblings[n..]) == steps[lo].rootBefore
    ensures Fold(h.node, Shr(ps[lo], n), local[hi - 1].rootAfter, steps[lo].siblings[n..]) == steps[hi - 1].rootAfter
  {
    hide Path, Reconstruct, Fold, HashesAbove, IndexAbove, SiblingsAbove, Mixed, Frontier, Climb, Lower;
    var at, rest := IndexAbove(ps, lo, n), SiblingsAbove(ps, siblings, 0, depth, n);
    var before, after := AtCut(h, ps, oldLeaves, newLeaves, siblings, depth, n, lo),
                         AtCut(h, ps, oldLeaves, newLeaves, siblings, depth, n, hi);
    GroupMovesOneHash(h, ps, oldLeaves, newLeaves, siblings, depth, n, steps, local, lo, hi);
    PathAbove(h, ps, Mixed(oldLeaves, newLeaves, lo), siblings, 0, depth, n, lo);
    ReconstructAbove(h, ps, Mixed(oldLeaves, newLeaves, lo), siblings, 0, depth, n);
    ReconstructAbove(h, ps, Mixed(oldLeaves, newLeaves, hi), siblings, 0, depth, n);
    ClimbCanonical(ps, n, depth - n);
    UpperFolds(h, Climb(ps, n), before, rest, n, depth - n, at, steps[lo].siblings[n..], before[at]);
    UpperFolds(h, Climb(ps, n), before, rest, n, depth - n, at, steps[lo].siblings[n..], local[hi - 1].rootAfter);
    assert before[at := before[at]] == before;
  }

  /** The upper update of one group. */
  method SegmentUpdate(h: Hasher, ps: seq<nat>, ghost oldLeaves: seq<StateHash>, ghost newLeaves: seq<StateHash>,
                       ghost siblings: seq<StateHash>, depth: nat, n: nat, steps: seq<UpdateStep>,
                           local: seq<UpdateStep>,
                       lo: nat, hi: nat) returns (segment: UpdateStep)
    requires Expandable(ps, oldLeaves, newLeaves, siblings, depth) && n <= depth && |steps| == |ps| == |local|
    requires StepsFollow(h, ps, oldLeaves, newLeaves, siblings, depth, steps) && LowerOf(h, steps, local, n)
    requires lo < hi <= |ps| && forall k :: lo <= k < hi ==> Shr(ps[k], n) == Shr(ps[lo], n)
    ensures GroupOf(local, segment, lo, hi, n, depth - n) && segment.Authentic(h) && segment.index == Shr(ps[lo], n)
    ensures segment.rootBefore == steps[lo].rootBefore && segment.rootAfter == steps[hi - 1].rootAfter
  {
    hide Path, Reconstruct, Fold, Mixed, Frontier, Canonical, Shr;
    GroupMovesOneHash(h, ps, oldLeaves, newLeaves, siblings, depth, n, steps, local, lo, hi);
    GroupIsOneUpdate(h, ps, oldLeaves, newLeaves, siblings, depth, n, steps, local, lo, hi);
    DirectedRest(ps[lo], steps[lo].directions, depth, n);
    segment := UpdateStep(Shr(ps[lo], n), local[lo].rootBefore, local[hi - 1].rootAfter, steps[lo].siblings[n..],
                          steps[lo].directions[n..], steps[lo].rootBefore, steps[hi - 1].rootAfter);
  }

  /** Groups the steps by segment. */
  method CutSteps(h: Hasher, ps: seq<nat>, ghost oldLeaves: seq<StateHash>, ghost newLeaves: seq<StateHash>,
                  ghost siblings: seq<StateHash>, depth: nat, n: nat, steps: seq<UpdateStep>, local: seq<UpdateStep>)
    returns (segments: seq<UpdateStep>, ghost cuts: seq<nat>)
    requires Expandable(ps, oldLeaves, newLeaves, siblings, depth) && n <= depth && |steps| == |ps| == |local|
    requires StepsFollow(h, ps, oldLeaves, newLeaves, siblings, depth, steps) && LowerOf(h, steps, local, n)
    requires Chained(h, steps, Reconstruct(h, ps, oldLeaves, siblings, 0, depth),
                     Reconstruct(h, ps, newLeaves, siblings, 0, depth))
    ensures Grouped(local, segments, cuts, |ps|, n, depth - n)
    ensures Chained(h, segments, Reconstruct(h, ps, oldLeaves, siblings, 0, depth),
                    Reconstruct(h, ps, newLeaves, siblings, 0, depth))
  {
    hide Path, Reconstruct, Frontier, Shr, GroupOf, StepsFollow, LowerOf, UpdateStep.Authentic;
    segments, cuts := [], [0];
    var start := 0;
    while start < |ps|
      invariant start <= |ps| && Grouped(local, segments, cuts, start, n, depth - n)
      invariant start == 0 <==> segments == []
      invariant forall k :: 0 <= k < |segments| ==> segments[k].Authentic(h)
      invariant forall k :: 0 <= k < |segments| - 1 ==> segments[k].rootAfter == segments[k + 1].rootBefore
      invariant segments != [] ==>
                  && segments[0].rootBefore == steps[0].rootBefore
                  && segments[|segments| - 1].rootAfter == steps[start - 1].rootAfter
                  && (start < |ps| ==> segments[|segments| - 1].index < Shr(ps[start], n))
    {
      var end := start + 1;
      while end < |ps| && Shr(ps[end], n) == Shr(ps[start], n)
        invariant start < end <= |ps|
        invariant forall k :: start <= k < end ==> Shr(ps[k], n) == Shr(ps[start], n)
      {
        end := end + 1;
      }
      var segment := SegmentUpdate(h, ps, oldLeaves, newLeaves, siblings, depth, n, steps, local, start, end);
      if end < |ps| {
        ShrMonotone(ps[start], ps[end], n);
      }
      segments := segments + [segment];
      cuts := cuts + [end];
      start := end;
    }
  }

  lemma LowerIsStep(h: Hasher, ps: seq<nat>, oldLeaves: seq<StateHash>, newLeaves: seq<StateHash>,
                    siblings: seq<StateHash>, depth: nat, n: nat, steps: seq<UpdateStep>, k: nat)
    requires Expandable(ps, oldLeaves, newLeaves, siblings, depth) && n <= depth && |steps| == |ps| && k < |ps|
    requires StepsFollow(h, ps, oldLeaves, newLeaves, siblings, depth, steps)
    ensures |steps[k].siblings| == |steps[k].directions| == depth
    ensures Lower(h, steps[k], n).Moves(ps[k], oldLeaves[k], newLeaves[k], n) && Lower(h, steps[k], n).Authentic(h)
  {
    hide Lower, UpdateStep.Moves, UpdateStep.Authentic, StepsFollow, AtCut, IndexAbove;
    LowerMoves(h, ps, oldLeaves, newLeaves, siblings, depth, n, steps, k);
  }

  /** The lower part of every step. */
  method CutLower(h: Hasher, ps: seq<nat>, ghost oldLeaves: seq<StateHash>, ghost newLeaves: seq<StateHash>,
                  ghost siblings: seq<StateHash>, depth: nat, n: nat, steps: seq<UpdateStep>)
    returns (local: seq<UpdateStep>)
    requires Expandable(ps, oldLeaves, newLeaves, siblings, depth) && n <= depth && |steps| == |ps|
    requires StepsFollow(h, ps, oldLeaves, newLeaves, siblings, depth, steps)
    ensures |local| == |ps| && LowerOf(h, steps, local, n)
    ensures forall k :: 0 <= k < |ps| ==>
              local[k].Moves(ps[k], oldLeaves[k], newLeaves[k], n) && local[k].Authentic(h)
  {
    hide Path, Reconstruct, Frontier, Canonical, UpdateStep.Authentic, UpdateStep.Moves, StepsFollow,
         Lower;
    local := [];
    for k := 0 to |steps|
      invariant |local| == k && LowerOf(h, steps, local, n)
      invariant forall i :: 0 <= i < k ==> local[i].Moves(ps[i], oldLeaves[i], newLeaves[i], n) && local[i].Authentic(h)
    {
      LowerIsStep(h, ps, oldLeaves, newLeaves, siblings, depth, n, steps, k);
      local := local + [Lower(h, steps[k], n)];
    }
  }

  /**
   The steps of a sequential update, cut at the segment level: every local update authenticates its leaf under its
   segment's root, local updates of one segment chain, and one upper update per touched segment, in ascending order,
   carries the segment's old root to its new one. The upper updates alone chain from the old root to the new root.
   */
  method ExpandSegmentedUpdates(h: Hasher, ps: seq<nat>, oldLeaves: seq<StateHash>, newLeaves: seq<StateHash>,
                                siblings: seq<StateHash>, depth: nat, logSegment: nat)
    returns (result: Result<SegmentedUpdates, Error>, ghost cuts: seq<nat>)
    ensures result.Ok? <==> Expandable(ps, oldLeaves, newLeaves, siblings, depth)
    ensures result.Ok? ==>
              var r := result.value;
              && r.localDepth == Min(depth, logSegment) && r.upperDepth == depth - r.localDepth
              && |r.localUpdates| == |ps|
              && (forall k :: 0 <= k < |ps| ==>
                    && r.localUpdates[k].Moves(ps[k], oldLeaves[k], newLeaves[k], r.localDepth)
                    && r.localUpdates[k].Authentic(h))
              && Grouped(r.localUpdates, r.segmentUpdates, cuts, |ps|, r.localDepth, r.upperDepth)
              && Chained(h, r.segmentUpdates, Reconstruct(h, ps, oldLeaves, siblings, 0, depth),
                         Reconstruct(h, ps, newLeaves, siblings, 0, depth))
  {
    hide Path, Reconstruct, Frontier, Shr, Canonical, UpdateStep.Authentic, UpdateStep.Moves, Chained, Grouped,
         StepsFollow,
         LowerOf;
    cuts := [];
    var full := SequentialUpdates(h, ps, oldLeaves, newLeaves, siblings, depth);
    if full.Err? {
      result := Err(full.error);
      return;
    }
    var steps, n := full.value, Min(depth, logSegment);
    var local := CutLower(h, ps, oldLeaves, newLeaves, siblings, depth, n, steps);
    var segments;
    segments, cuts := CutSteps(h, ps, oldLeaves, newLeaves, siblings, depth, n, steps, local);
    result := Ok(SegmentedUpdates(n, depth - n, local, segments));
  }
}
