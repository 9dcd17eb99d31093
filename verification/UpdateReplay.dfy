/** What a reader who sees only the update steps can check: leaves, siblings and sides, and nothing of the tree. */
module UpdateReplay {
  import opened Options
  import opened Powers
  import opened PairHashing
  import opened StateHashing
  import opened SparseMultiproof
  import opened MultiproofPaths
  import opened MultiproofUpdates
  import opened MultiproofSegments

  /** A leaf hashed up its siblings, each on the side its direction says: `true` is a node on the right. */
  function FoldBy(h: Hasher, leaf: StateHash, siblings: seq<StateHash>, directions: seq<bool>): StateHash
    decreases |siblings|
  {
    if siblings == [] || directions == [] then leaf
    else
      var above := if directions[0] then h.node.f(siblings[0], leaf) else h.node.f(leaf, siblings[0]);
      FoldBy(h, above, siblings[1..], directions[1..])
  }

  /** Follows a root through the steps; fails at the first step whose old leaf does not fold to the root it meets. */
  function Replay(h: Hasher, steps: seq<UpdateStep>, root: StateHash): Option<StateHash>
    decreases |steps|
  {
    if steps == [] then Some(root)
    else
      var step := steps[0];
      if FoldBy(h, step.oldLeaf, step.siblings, step.directions) != root then None
      else Replay(h, steps[1..], FoldBy(h, step.newLeaf, step.siblings, step.directions))
  }

  /** A replay succeeds exactly if every old leaf folds to the root its step meets, and ends at the last step's. */
  lemma {:induction false} ReplaysIffChained(h: Hasher, steps: seq<UpdateStep>, root: StateHash)
    ensures Replay(h, steps, root).Some? <==>
              forall k :: 0 <= k < |steps| ==>
                FoldBy(h, steps[k].oldLeaf, steps[k].siblings, steps[k].directions) == RootAt(h, steps, root, k)
    ensures Replay(h, steps, root).Some? ==> Replay(h, steps, root).value == RootAt(h, steps, root, |steps|)
    decreases |steps|
  {
    hide FoldBy;
    if steps != [] {
      var step, rest := steps[0], steps[1..];
      var next := FoldBy(h, step.newLeaf, step.siblings, step.directions);
      ReplaysIffChained(h, rest, next);
      forall k | 0 <= k <= |rest|
        ensures RootAt(h, rest, next, k) == RootAt(h, steps, root, k + 1)
      {
      }
      if forall k :: 0 <= k < |rest| ==>
           FoldBy(h, rest[k].oldLeaf, rest[k].siblings, rest[k].directions) == RootAt(h, rest, next, k) {
        forall k | 0 < k < |steps|
          ensures FoldBy(h, steps[k].oldLeaf, steps[k].siblings, steps[k].directions) == RootAt(h, steps, root, k)
        {
          assert rest[k - 1] == steps[k] && RootAt(h, rest, next, k - 1) == RootAt(h, steps, root, k);
        }
      } else {
        var k :| 0 <= k < |rest|
          && FoldBy(h, rest[k].oldLeaf, rest[k].siblings, rest[k].directions) != RootAt(h, rest, next, k);
        assert rest[k] == steps[k + 1];
      }
    }
  }

  /** The root the first `k` steps lead to. */
  function RootAt(h: Hasher, steps: seq<UpdateStep>, root: StateHash, k: nat): StateHash
    requires k <= |steps|
  {
    if k == 0 then root else FoldBy(h, steps[k - 1].newLeaf, steps[k - 1].siblings, steps[k - 1].directions)
  }

  /** Directions read off an index fold as the index does. */
  lemma {:induction false} DirectionsFold(h: Hasher, index: nat, leaf: StateHash, siblings: seq<StateHash>,
                                          directions: seq<bool>)
    requires Directed(index, directions, |siblings|)
    ensures FoldBy(h, leaf, siblings, directions) == Fold(h.node, index, leaf, siblings)
    decreases |siblings|
  {
    if siblings != [] {
      assert directions[0] == (Shr(index, 0) % 2 == 1);
      forall level | 0 <= level < |siblings| - 1
        ensures directions[1..][level] == (Shr(index / 2, level) % 2 == 1)
      {
        assert directions[level + 1] == (Shr(index, level + 1) % 2 == 1);
        ShrOfHalf(index, level + 1);
      }
      DirectionsFold(h, index / 2, Joined(h.node, index, leaf, siblings[0]), siblings[1..], directions[1..]);
    }
  }

  /** Steps that authenticate and chain replay from the first root to the last. */
  lemma {:induction false} ChainReplays(h: Hasher, steps: seq<UpdateStep>, first: StateHash, last: StateHash)
    requires Chained(h, steps, first, last)
    requires forall k :: 0 <= k < |steps| ==> Directed(steps[k].index, steps[k].directions, |steps[k].siblings|)
    ensures Replay(h, steps, first) == Some(last)
    decreases |steps|
  {
    hide Directed;
    if steps != [] {
      var step, rest := steps[0], steps[1..];
      assert step.Authentic(h);
      DirectionsFold(h, step.index, step.oldLeaf, step.siblings, step.directions);
      DirectionsFold(h, step.index, step.newLeaf, step.siblings, step.directions);
      forall k | 0 <= k < |rest|
        ensures rest[k].Authentic(h) && (k < |rest| - 1 ==> rest[k].rootAfter == rest[k + 1].rootBefore)
      {
        assert steps[k + 1].Authentic(h);
        assert k + 1 < |steps| - 1 ==> steps[k + 1].rootAfter == steps[k + 2].rootBefore;
      }
      assert rest != [] ==> steps[0].rootAfter == steps[0 + 1].rootBefore;
      ChainReplays(h, rest, step.rootAfter, last);
    }
  }

  /** The sequential updates of a proof replay from the root of the old leaves to the root of the new ones. */
  lemma SequentialUpdatesReplay(h: Hasher, ps: seq<nat>, oldLeaves: seq<StateHash>, newLeaves: seq<StateHash>,
                                siblings: seq<StateHash>, depth: nat, steps: seq<UpdateStep>)
    requires Expandable(ps, oldLeaves, newLeaves, siblings, depth) && |steps| == |ps|
    requires StepsFollow(h, ps, oldLeaves, newLeaves, siblings, depth, steps)
    requires Chained(h, steps, Reconstruct(h, ps, oldLeaves, siblings, 0, depth),
                     Reconstruct(h, ps, newLeaves, siblings, 0, depth))
    ensures Replay(h, steps, Reconstruct(h, ps, oldLeaves, siblings, 0, depth))
         == Some(Reconstruct(h, ps, newLeaves, siblings, 0, depth))
  {
    hide Directed, Reconstruct, Chained, Path, Frontier;
    ChainReplays(h, steps, Reconstruct(h, ps, oldLeaves, siblings, 0, depth),
                 Reconstruct(h, ps, newLeaves, siblings, 0, depth));
  }

  /** The local steps `lo..hi` are all inside one segment and carry its old root to its new one. */
  ghost predicate CarriesSegment(h: Hasher, local: seq<UpdateStep>, segment: UpdateStep, lo: nat, hi: nat, n: nat) {
    && lo < hi <= |local|
    && Replay(h, local[lo..hi], segment.oldLeaf) == Some(segment.newLeaf)
    && forall k :: lo <= k < hi ==> Shr(local[k].index, n) == segment.index
  }

  /** Authentic local steps of a segment's depth. */
  ghost predicate Local(h: Hasher, step: UpdateStep, n: nat) {
    step.Authentic(h) && |step.siblings| == n && Directed(step.index, step.directions, n)
  }

  /**
   The segmented updates replay in two levels: within a group the local steps carry the segment's old root to its new
   one, all inside that segment, and the segment steps alone carry the old state root to the new one.
   */
  lemma SegmentedUpdatesReplay(h: Hasher, local: seq<UpdateStep>, segments: seq<UpdateStep>, cuts: seq<nat>, n: nat,
                               upper: nat, first: StateHash, last: StateHash)
    requires forall k :: 0 <= k < |local| ==> Local(h, local[k], n)
    requires Grouped(local, segments, cuts, |local|, n, upper) && Chained(h, segments, first, last)
    ensures Replay(h, segments, first) == Some(last)
    ensures |cuts| == |segments| + 1 && cuts[0] == 0 && cuts[|segments|] == |local|
    ensures forall j :: 0 <= j < |segments| ==> CarriesSegment(h, local, segments[j], cuts[j], cuts[j + 1], n)
    ensures forall i, j :: 0 <= i < j < |segments| ==> segments[i].index < segments[j].index
  {
    forall i, j | 0 <= i < j < |segments|
      ensures segments[i].index < segments[j].index
    {
      AdjacentAscend(segments, i, j);
    }
    hide Directed, Replay, Shr, CarriesSegment, Local, Chained, UpdateStep.Authentic;
    forall j | 0 <= j < |segments|
      ensures CarriesSegment(h, local, segments[j], cuts[j], cuts[j + 1], n)
      ensures Directed(segments[j].index, segments[j].directions, |segments[j].siblings|)
    {
      assert GroupOf(local, segments[j], cuts[j], cuts[j + 1], n, upper);
      GroupReplays(h, local, segments[j], cuts[j], cuts[j + 1], n, upper);
    }
    ChainReplays(h, segments, first, last);
  }

  lemma {:induction false} AdjacentAscend(segments: seq<UpdateStep>, i: nat, j: nat)
    requires forall k :: 0 <= k < |segments| - 1 ==> segments[k].index < segments[k + 1].index
    requires i < j < |segments|
    ensures segments[i].index < segments[j].index
    decreases j
  {
    assert segments[j - 1].index < segments[j - 1 + 1].index;
    if i < j - 1 {
      AdjacentAscend(segments, i, j - 1);
    }
  }

  lemma GroupReplays(h: Hasher, local: seq<UpdateStep>, segment: UpdateStep, lo: nat, hi: nat, n: nat, upper: nat)
    requires forall k :: 0 <= k < |local| ==> Local(h, local[k], n)
    requires GroupOf(local, segment, lo, hi, n, upper)
    ensures CarriesSegment(h, local, segment, lo, hi, n)
    ensures Directed(segment.index, segment.directions, |segment.siblings|)
  {
    hide Directed, Replay, Shr, UpdateStep.Authentic;
    var group := local[lo..hi];
    forall k | 0 <= k < |group|
      ensures group[k] == local[lo + k] && Local(h, group[k], n)
      ensures k < |group| - 1 ==> group[k].rootAfter == group[k + 1].rootBefore
    {
    }
    ChainReplays(h, group, segment.oldLeaf, segment.newLeaf);
  }
}
