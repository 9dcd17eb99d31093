/** One canonical proof expanded into a chain of single-leaf updates over a partial node map rewritten in place. */
module MultiproofUpdates {
  import opened Options
  import opened Powers
  import opened PairHashing
  import opened StateHashing
  import opened SparseMultiproof
  import opened MultiproofVerifier
  import opened MultiproofPaths

  // ---------------------------------------------------------------------
  // The partial tree
  // ---------------------------------------------------------------------

  /** The map holds the listed hashes at the listed positions of a level. */
  ghost predicate Has(nodes: Nodes, level: nat, ps: seq<nat>, hashes: seq<StateHash>) {
    |hashes| == |ps| && forall i :: 0 <= i < |ps| ==> (level, ps[i]) in nodes && nodes[(level, ps[i])] == hashes[i]
  }

  /** The map reads as the tree over the touched hashes: on every level the touched nodes and their missing siblings. */
  ghost predicate ReadsAs(h: Hasher, nodes: Nodes, ps: seq<nat>, hashes: seq<StateHash>, siblings: seq<StateHash>,
                          level: nat, depth: nat)
    requires |hashes| == |ps| && |siblings| == |Frontier(ps, level, depth)|
    decreases depth
  {
    && Has(nodes, level, ps, hashes)
    && (depth > 0 ==>
          var here := |Missing(ps)|;
          && Has(nodes, level, Missing(ps), siblings[..here])
          && ReadsAs(h, nodes, Parents(ps), ParentHashes(h, ps, hashes, siblings[..here]), siblings[here..], level + 1,
                     depth - 1))
  }

  ghost predicate SameFrom(a: Nodes, b: Nodes, level: nat) {
    forall at: NodeIndex :: at.0 >= level ==> (at in a <==> at in b) && (at in a ==> a[at] == b[at])
  }

  ghost predicate SameBelow(a: Nodes, b: Nodes, level: nat) {
    forall at: NodeIndex :: at.0 < level ==> (at in a <==> at in b) && (at in a ==> a[at] == b[at])
  }

  /** What is read from a level upwards depends on those levels only. */
  lemma {:induction false} ReadsFrom(h: Hasher, a: Nodes, b: Nodes, ps: seq<nat>, hashes: seq<StateHash>,
                                     siblings: seq<StateHash>, level: nat, depth: nat)
    requires |hashes| == |ps| && |siblings| == |Frontier(ps, level, depth)|
    requires ReadsAs(h, a, ps, hashes, siblings, level, depth) && SameFrom(a, b, level)
    ensures ReadsAs(h, b, ps, hashes, siblings, level, depth)
    decreases depth
  {
    hide Missing, Parents, ParentHashes;
    if depth > 0 {
      var here := |Missing(ps)|;
      ReadsFrom(h, a, b, Parents(ps), ParentHashes(h, ps, hashes, siblings[..here]), siblings[here..], level + 1,
                depth - 1);
    }
  }

  /** A partial tree holds its root at the top. */
  lemma {:induction false} ReadsRoot(h: Hasher, nodes: Nodes, ps: seq<nat>, hashes: seq<StateHash>,
                                     siblings: seq<StateHash>, level: nat, depth: nat)
    requires Canonical(ps, depth) && |hashes| == |ps| && |siblings| == |Frontier(ps, level, depth)|
    requires ReadsAs(h, nodes, ps, hashes, siblings, level, depth)
    ensures (level + depth, 0) in nodes
            && nodes[(level + depth, 0)] == Reconstruct(h, ps, hashes, siblings, level, depth)
    decreases depth
  {
    hide Missing, Parents, ParentHashes;
    if depth == 0 {
      assert ps[0] == 0;
    } else {
      var here := |Missing(ps)|;
      ParentsCanonical(ps, depth);
      ReadsRoot(h, nodes, Parents(ps), ParentHashes(h, ps, hashes, siblings[..here]), siblings[here..], level + 1,
                depth - 1);
    }
  }

  /** The sibling of a touched node is touched or missing. */
  lemma {:induction false} SiblingIsKnown(ps: seq<nat>, p: nat)
    requires Ascending(ps) && p in ps
    ensures Sibling(p) in ps || Sibling(p) in Missing(ps)
  {
    var n := if Paired(ps) then 2 else 1;
    assert ps == ps[..n] + ps[n..];
    if p in ps[n..] {
      SiblingIsKnown(ps[n..], p);
    }
  }

  /** What stands beside touched node `k` in the map is what its path needs. */
  lemma {:induction false} ReadsSibling(nodes: Nodes, ps: seq<nat>, hashes: seq<StateHash>, own: seq<StateHash>,
                                        level: nat, k: nat)
    requires Has(nodes, level, ps, hashes) && Has(nodes, level, Missing(ps), own) && k < |ps|
    ensures (level, Sibling(ps[k])) in nodes
    ensures nodes[(level, Sibling(ps[k]))] == SiblingHash(ps, hashes, own, k)
  {
    var n, m := if Paired(ps) then 2 else 1, if Paired(ps) then 0 else 1;
    if Paired(ps) {
      assert own[0..] == own && Missing(ps) == Missing(ps[2..]);
    } else {
      assert Missing(ps)[0] == Sibling(ps[0]) && Missing(ps)[1..] == Missing(ps[1..]);
    }
    if k >= n {
      HasTail(nodes, level, ps, hashes, n);
      HasTail(nodes, level, Missing(ps), own, m);
      ReadsSibling(nodes, ps[n..], hashes[n..], own[m..], level, k - n);
    } else {
      assert Paired(ps) ==> Sibling(ps[k]) == ps[1 - k];
    }
  }

  lemma HasTail(nodes: Nodes, level: nat, ps: seq<nat>, hashes: seq<StateHash>, n: nat)
    requires Has(nodes, level, ps, hashes) && n <= |ps|
    ensures Has(nodes, level, ps[n..], hashes[n..])
  {
  }

  // ---------------------------------------------------------------------
  // Rewriting one path
  // ---------------------------------------------------------------------

  /** The map once a leaf and every node above it have been rewritten. */
  ghost function Rewritten(h: Hasher, nodes: Nodes, position: nat, hash: StateHash, level: nat, depth: nat): Nodes
    decreases depth
  {
    var here := nodes[(level, position) := hash];
    if depth == 0 then here
    else
      var beside := if (level, Sibling(position)) in nodes then nodes[(level, Sibling(position))] else hash;
      Rewritten(h, here, position / 2, Joined(h.node, position, hash, beside), level + 1, depth - 1)
  }

  lemma {:induction false} RewrittenBelow(h: Hasher, nodes: Nodes, position: nat, hash: StateHash, level: nat,
                                          depth: nat)
    ensures SameBelow(nodes, Rewritten(h, nodes, position, hash, level, depth), level)
    decreases depth
  {
    if depth > 0 {
      var beside := if (level, Sibling(position)) in nodes then nodes[(level, Sibling(position))] else hash;
      RewrittenBelow(h, nodes[(level, position) := hash], position / 2, Joined(h.node, position, hash, beside),
                     level + 1, depth - 1);
    }
  }

  lemma WriteKeepsLevel(nodes: Nodes, ps: seq<nat>, hashes: seq<StateHash>, own: seq<StateHash>, level: nat, k: nat,
                        x: StateHash)
    requires Ascending(ps) && k < |ps| && Has(nodes, level, ps, hashes) && Has(nodes, level, Missing(ps), own)
    ensures Has(nodes[(level, ps[k]) := x], level, ps, hashes[k := x])
    ensures Has(nodes[(level, ps[k]) := x], level, Missing(ps), own)
  {
    hide Missing;
    var missing := Missing(ps);
    forall i | 0 <= i < |missing|
      ensures missing[i] != ps[k]
    {
      MissingIsUntouched(ps, missing[i]);
    }
  }

  lemma HasBelow(a: Nodes, b: Nodes, level: nat, ps: seq<nat>, hashes: seq<StateHash>)
    requires Has(a, level, ps, hashes) && SameBelow(a, b, level + 1)
    ensures Has(b, level, ps, hashes)
  {
  }

  /** Rewriting the path of one touched node turns the tree over the old hashes into the tree over the new ones. */
  lemma {:induction false} RewritingReadsAs(h: Hasher, nodes: Nodes, ps: seq<nat>, hashes: seq<StateHash>,
                                            siblings: seq<StateHash>, level: nat, depth: nat, k: nat, x: StateHash)
    requires Canonical(ps, depth) && k < |ps| == |hashes| && |siblings| == |Frontier(ps, level, depth)|
    requires ReadsAs(h, nodes, ps, hashes, siblings, level, depth)
    ensures ReadsAs(h, Rewritten(h, nodes, ps[k], x, level, depth), ps, hashes[k := x], siblings, level, depth)
    decreases depth
  {
    hide Missing, Parents, ParentHashes, ParentIndex, SiblingHash, SameFrom, SameBelow;
    if depth == 0 {
      AscendingIsDistinct(ps);
    } else {
      var here := |Missing(ps)|;
      var own, rest := siblings[..here], siblings[here..];
      var above, aboveHashes, at := Parents(ps), ParentHashes(h, ps, hashes, own), ParentIndex(ps, k);
      var middle, joined := nodes[(level, ps[k]) := x], Joined(h.node, ps[k], x, SiblingHash(ps, hashes, own, k));
      ReadsSibling(nodes, ps, hashes, own, level, k);
      WriteKeepsLevel(nodes, ps, hashes, own, level, k, x);
      SameAbove(nodes, (level, ps[k]), x);
      ReadsFrom(h, nodes, middle, above, aboveHashes, rest, level + 1, depth - 1);
      ParentsCanonical(ps, depth);
      RewritingReadsAs(h, middle, above, aboveHashes, rest, level + 1, depth - 1, at, joined);
      WriteMovesOneParent(h, ps, hashes, own, k, x);
      var after := Rewritten(h, middle, above[at], joined, level + 1, depth - 1);
      RewrittenBelow(h, middle, above[at], joined, level + 1, depth - 1);
      HasBelow(middle, after, level, ps, hashes[k := x]);
      HasBelow(middle, after, level, Missing(ps), own);
      assert after == Rewritten(h, nodes, ps[k], x, level, depth);
    }
  }

  lemma AscendingIsDistinct(ps: seq<nat>)
    requires Ascending(ps)
    ensures forall i, j :: 0 <= i < |ps| && 0 <= j < |ps| && i != j ==> ps[i] != ps[j]
  {
  }

  lemma SameAbove(nodes: Nodes, at: NodeIndex, x: StateHash)
    ensures SameFrom(nodes, nodes[at := x], at.0 + 1)
  {
  }

  // ---------------------------------------------------------------------
  // Building the map
  // ---------------------------------------------------------------------

  /** Both children of every touched node's parent are in the map. */
  ghost predicate ChildrenThere(nodes: Nodes, ps: seq<nat>, level: nat) {
    forall p :: p in ps ==> (level, Base(p)) in nodes && (level, Base(p) + 1) in nodes
  }

  /** The map with the parents of the first `n` touched nodes stored. */
  ghost function WithParents(h: Hasher, nodes: Nodes, ps: seq<nat>, level: nat, n: nat): Nodes
    requires n <= |ps|
    requires ChildrenThere(nodes, ps, level)
  {
    if n == 0 then nodes
    else
      var before, p := WithParents(h, nodes, ps, level, n - 1), ps[n - 1];
      before[(level + 1, p / 2) := PairHash(h, nodes, level, Base(p))]
  }

  ghost function PairHash(h: Hasher, nodes: Nodes, level: nat, base: nat): StateHash
    requires (level, base) in nodes && (level, base + 1) in nodes
  {
    NodeHash(h, nodes[(level, base)], nodes[(level, base + 1)])
  }

  /** Storing parents adds exactly them, each the hash of its two children. */
  lemma {:induction false} ParentsStored(h: Hasher, nodes: Nodes, ps: seq<nat>, level: nat, n: nat)
    requires n <= |ps| && ChildrenThere(nodes, ps, level)
    ensures var after := WithParents(h, nodes, ps, level, n);
            && (forall i :: 0 <= i < n ==>
                  (level + 1, ps[i] / 2) in after
                  && after[(level + 1, ps[i] / 2)] == PairHash(h, nodes, level, Base(ps[i])))
            && (forall at :: at in nodes && (forall i :: 0 <= i < n ==> at != (level + 1, ps[i] / 2)) ==>
                  at in after && after[at] == nodes[at])
  {
    hide PairHash;
    if n > 0 {
      ParentsStored(h, nodes, ps, level, n - 1);
      forall i | 0 <= i < n && ps[i] / 2 == ps[n - 1] / 2
        ensures Base(ps[i]) == Base(ps[n - 1])
      {
      }
    }
  }

  /** Every sibling of the frontier is in the map, at its own place. */
  ghost predicate FrontierIn(nodes: Nodes, ps: seq<nat>, siblings: seq<StateHash>, level: nat, depth: nat)
    requires |siblings| == |Frontier(ps, level, depth)|
  {
    forall i :: 0 <= i < |siblings| ==>
      Frontier(ps, level, depth)[i] in nodes && nodes[Frontier(ps, level, depth)[i]] == siblings[i]
  }

  lemma FrontierOf(ps: seq<nat>, level: nat, depth: nat)
    requires depth > 0
    ensures Frontier(ps, level, depth) == AtLevel(level, Missing(ps)) + Frontier(Parents(ps), level + 1, depth - 1)
  {
    hide Missing, Parents;
  }

  lemma FrontierSplits(nodes: Nodes, ps: seq<nat>, siblings: seq<StateHash>, level: nat, depth: nat)
    requires depth > 0 && |siblings| == |Frontier(ps, level, depth)| && FrontierIn(nodes, ps, siblings, level, depth)
    ensures var here := |Missing(ps)|;
            && here <= |siblings| && |siblings[here..]| == |Frontier(Parents(ps), level + 1, depth - 1)|
            && Has(nodes, level, Missing(ps), siblings[..here])
            && FrontierIn(nodes, Parents(ps), siblings[here..], level + 1, depth - 1)
  {
    hide Missing, Parents, Frontier;
    FrontierOf(ps, level, depth);
    var here, all, rest := |Missing(ps)|, Frontier(ps, level, depth), Frontier(Parents(ps), level + 1, depth - 1);
    forall i | 0 <= i < here
      ensures (level, Missing(ps)[i]) in nodes && nodes[(level, Missing(ps)[i])] == siblings[..here][i]
    {
      assert all[i] == (level, Missing(ps)[i]);
    }
    forall i | 0 <= i < |rest|
      ensures rest[i] in nodes && nodes[rest[i]] == siblings[here..][i]
    {
      assert all[here + i] == rest[i];
    }
  }

  /** No frontier node above is one of the touched nodes. */
  lemma {:induction false} FrontierAvoids(ps: seq<nat>, level: nat, depth: nat, at: NodeIndex)
    requires Canonical(ps, depth) && at in Frontier(ps, level, depth)
    ensures at.0 >= level && (at.0 == level ==> at.1 !in ps)
    decreases depth
  {
    hide Missing, Parents;
    if depth > 0 {
      if at in AtLevel(level, Missing(ps)) {
        MissingIsUntouched(ps, at.1);
      } else {
        ParentsCanonical(ps, depth);
        FrontierAvoids(Parents(ps), level + 1, depth - 1, at);
      }
    }
  }

  /** The children of every touched parent are there. */
  lemma ChildrenKnown(nodes: Nodes, ps: seq<nat>, hashes: seq<StateHash>, own: seq<StateHash>, level: nat)
    requires Ascending(ps) && Has(nodes, level, ps, hashes) && Has(nodes, level, Missing(ps), own)
    ensures ChildrenThere(nodes, ps, level)
  {
    hide Missing;
    forall p | p in ps
      ensures (level, Base(p)) in nodes && (level, Base(p) + 1) in nodes
    {
      SiblingIsKnown(ps, p);
    }
  }

  /** The stored pair hashes are the level's parent hashes. */
  lemma {:induction false} ParentHashesStored(h: Hasher, nodes: Nodes, after: Nodes, ps: seq<nat>,
                                              hashes: seq<StateHash>, own: seq<StateHash>, level: nat)
    requires Ascending(ps) && Has(nodes, level, ps, hashes) && Has(nodes, level, Missing(ps), own)
    requires ChildrenThere(nodes, ps, level)
    requires forall p :: p in ps ==>
               (level + 1, p / 2) in after && after[(level + 1, p / 2)] == PairHash(h, nodes, level, Base(p))
    ensures Has(after, level + 1, Parents(ps), ParentHashes(h, ps, hashes, own))
  {
    hide Missing, Parents, ParentHashes;
    if ps == [] {
      NoParents(h, hashes, own);
    } else {
      var n, m := if Paired(ps) then 2 else 1, if Paired(ps) then 0 else 1;
      if Paired(ps) {
        UnfoldPair(h, ps, hashes, own);
        assert own[0..] == own && Missing(ps)[0..] == Missing(ps);
      } else {
        UnfoldSingle(h, ps, hashes, own);
        assert Missing(ps)[0] == Sibling(ps[0]);
      }
      HasTail(nodes, level, ps, hashes, n);
      HasTail(nodes, level, Missing(ps), own, m);
      ParentHashesStored(h, nodes, after, ps[n..], hashes[n..], own[m..], level);
      assert ps[0] in ps;
    }
  }

  /** Looks up both children of every touched parent, hashes them once, and stores the parent one level up. */
  method StoreParents(h: Hasher, start: Nodes, ps: seq<nat>, level: nat) returns (nodes: Nodes)
    requires Ascending(ps) && ChildrenThere(start, ps, level)
    ensures nodes == WithParents(h, start, ps, level, |ps|)
  {
    hide PairHash, WithParents;
    nodes := start;
    var processed: set<nat> := {};
    WithNoParents(h, start, ps, level);
    for i := 0 to |ps|
      invariant processed == Bases(ps, i)
      invariant nodes == WithParents(h, start, ps, level, i)
    {
      ParentsStored(h, start, ps, level, i);
      SeenIsProcessed(ps, i);
      WithOneMore(h, start, ps, level, i);
      var base := Base(ps[i]);
      if base in processed {
        assert ps[i - 1] / 2 == ps[i] / 2;
        continue;
      }
      processed := processed + {base};
      assert ps[i] in ps && base / 2 == ps[i] / 2;
      ChildrenUntouched(h, start, ps, level, i);
      nodes := nodes[(level + 1, base / 2) := NodeHash(h, nodes[(level, base)], nodes[(level, base + 1)])];
    }
  }

  lemma WithNoParents(h: Hasher, nodes: Nodes, ps: seq<nat>, level: nat)
    requires ChildrenThere(nodes, ps, level)
    ensures WithParents(h, nodes, ps, level, 0) == nodes
  {
  }

  lemma WithOneMore(h: Hasher, nodes: Nodes, ps: seq<nat>, level: nat, n: nat)
    requires n < |ps| && ChildrenThere(nodes, ps, level)
    ensures WithParents(h, nodes, ps, level, n + 1)
         == WithParents(h, nodes, ps, level, n)[(level + 1, ps[n] / 2) := PairHash(h, nodes, level, Base(ps[n]))]
  {
  }

  lemma ChildrenUntouched(h: Hasher, start: Nodes, ps: seq<nat>, level: nat, i: nat)
    requires i < |ps| && ChildrenThere(start, ps, level)
    ensures var nodes, base := WithParents(h, start, ps, level, i), Base(ps[i]);
            && (level, base) in nodes && (level, base + 1) in nodes
            && NodeHash(h, nodes[(level, base)], nodes[(level, base + 1)]) == PairHash(h, start, level, base)
  {
    hide WithParents;
    ParentsStored(h, start, ps, level, i);
    assert ps[i] in ps;
  }

  /** The touched rows of the first `n` levels above `level` are in the map, over rows that are complete. */
  ghost predicate ReadsUpTo(h: Hasher, nodes: Nodes, ps: seq<nat>, hashes: seq<StateHash>, siblings: seq<StateHash>,
                            level: nat, depth: nat, n: nat)
    requires |hashes| == |ps| && |siblings| == |Frontier(ps, level, depth)| && n <= depth
    decreases depth
  {
    && Has(nodes, level, ps, hashes)
    && (n > 0 ==>
          var here := |Missing(ps)|;
          && Has(nodes, level, Missing(ps), siblings[..here])
          && ReadsUpTo(h, nodes, Parents(ps), ParentHashes(h, ps, hashes, siblings[..here]), siblings[here..],
                       level + 1, depth - 1, n - 1))
  }

  lemma {:induction false} AllRowsRead(h: Hasher, nodes: Nodes, ps: seq<nat>, hashes: seq<StateHash>,
                                       siblings: seq<StateHash>, level: nat, depth: nat)
    requires |hashes| == |ps| && |siblings| == |Frontier(ps, level, depth)|
    requires ReadsUpTo(h, nodes, ps, hashes, siblings, level, depth, depth)
    ensures ReadsAs(h, nodes, ps, hashes, siblings, level, depth)
    decreases depth
  {
    hide Missing, Parents, ParentHashes, Has;
    if depth > 0 {
      var here := |Missing(ps)|;
      AllRowsRead(h, nodes, Parents(ps), ParentHashes(h, ps, hashes, siblings[..here]), siblings[here..], level + 1,
                  depth - 1);
    }
  }

  /** Row `n` and the siblings it misses are there, so its parents can be hashed. */
  lemma {:induction false} TopRowIsComplete(h: Hasher, nodes: Nodes, ps: seq<nat>, hashes: seq<StateHash>,
                                            siblings: seq<StateHash>, level: nat, depth: nat, n: nat)
    requires Canonical(ps, depth) && |hashes| == |ps| && |siblings| == |Frontier(ps, level, depth)| && n < depth
    requires ReadsUpTo(h, nodes, ps, hashes, siblings, level, depth, n) && FrontierIn(nodes, ps, siblings, level, depth)
    ensures Ascending(Climb(ps, n))
    ensures ChildrenThere(nodes, Climb(ps, n), level + n)
    decreases depth
  {
    hide Missing, Parents, ParentHashes, Has, FrontierIn, Frontier;
    FrontierSplits(nodes, ps, siblings, level, depth);
    var own, rest := siblings[..|Missing(ps)|], siblings[|Missing(ps)|..];
    if n == 0 {
      ChildrenKnown(nodes, ps, hashes, own, level);
    } else {
      ParentsCanonical(ps, depth);
      TopRowIsComplete(h, nodes, Parents(ps), ParentHashes(h, ps, hashes, own), rest, level + 1, depth - 1, n - 1);
    }
  }

  /** Storing the parents of row `n` completes it and keeps every row and sibling that was there. */
  lemma {:induction false} NextRowRead(h: Hasher, nodes: Nodes, ps: seq<nat>, hashes: seq<StateHash>,
                                       siblings: seq<StateHash>,
                                       level: nat, depth: nat, n: nat, row: seq<nat>, after: Nodes)
    requires Canonical(ps, depth) && |hashes| == |ps| && |siblings| == |Frontier(ps, level, depth)| && n < depth
    requires ReadsUpTo(h, nodes, ps, hashes, siblings, level, depth, n) && FrontierIn(nodes, ps, siblings, level, depth)
    requires row == Climb(ps, n) && ChildrenThere(nodes, row, level + n)
    requires after == WithParents(h, nodes, row, level + n, |row|)
    ensures ReadsUpTo(h, after, ps, hashes, siblings, level, depth, n + 1)
    ensures FrontierIn(after, ps, siblings, level, depth)
    decreases depth
  {
    hide Missing, Parents, ParentHashes, Has, FrontierIn, Frontier, WithParents, PairHash, SameBelow, Climb;
    FrontierSplits(nodes, ps, siblings, level, depth);
    var own, rest := siblings[..|Missing(ps)|], siblings[|Missing(ps)|..];
    ParentsKeepBelow(h, nodes, row, level + n, |row|);
    HasLower(nodes, after, level, level + n, ps, hashes);
    HasLower(nodes, after, level, level + n, Missing(ps), own);
    ParentsCanonical(ps, depth);
    ClimbStep(ps, n);
    if n == 0 {
      ParentsStored(h, nodes, ps, level, |ps|);
      ParentHashesStored(h, nodes, after, ps, hashes, own, level);
      FrontierSurvives(h, nodes, ps, rest, level, depth);
    } else {
      NextRowRead(h, nodes, Parents(ps), ParentHashes(h, ps, hashes, own), rest, level + 1, depth - 1, n - 1, row,
                  after);
    }
    FrontierJoins(after, ps, siblings, level, depth);
  }

  lemma ClimbStep(ps: seq<nat>, n: nat)
    ensures n == 0 ==> Climb(ps, n) == ps
    ensures n > 0 ==> Climb(ps, n) == Climb(Parents(ps), n - 1)
  {
    hide Parents;
  }

  lemma HasLower(a: Nodes, b: Nodes, level: nat, from: nat, ps: seq<nat>, hashes: seq<StateHash>)
    requires Has(a, level, ps, hashes) && SameBelow(a, b, from + 1) && level <= from
    ensures Has(b, level, ps, hashes)
  {
  }

  lemma FrontierJoins(nodes: Nodes, ps: seq<nat>, siblings: seq<StateHash>, level: nat, depth: nat)
    requires depth > 0 && |siblings| == |Frontier(ps, level, depth)|
    requires |Missing(ps)| <= |siblings| && |siblings[|Missing(ps)|..]| == |Frontier(Parents(ps), level + 1, depth - 1)|
    requires Has(nodes, level, Missing(ps), siblings[..|Missing(ps)|])
    requires FrontierIn(nodes, Parents(ps), siblings[|Missing(ps)|..], level + 1, depth - 1)
    ensures FrontierIn(nodes, ps, siblings, level, depth)
  {
    hide Missing, Parents, Frontier;
    FrontierOf(ps, level, depth);
    var here, all, rest := |Missing(ps)|, Frontier(ps, level, depth), Frontier(Parents(ps), level + 1, depth - 1);
    forall i | 0 <= i < |siblings|
      ensures all[i] in nodes && nodes[all[i]] == siblings[i]
    {
      if i < here {
        assert all[i] == (level, Missing(ps)[i]) && siblings[..here][i] == siblings[i];
      } else {
        assert all[i] == rest[i - here] && siblings[here..][i - here] == siblings[i];
      }
    }
  }

  /** One level of the build keeps the frontier above it. */
  lemma FrontierSurvives(h: Hasher, nodes: Nodes, ps: seq<nat>, siblings: seq<StateHash>, level: nat, depth: nat)
    requires depth > 0 && Canonical(ps, depth) && |siblings| == |Frontier(Parents(ps), level + 1, depth - 1)|
    requires ChildrenThere(nodes, ps, level)
    requires FrontierIn(nodes, Parents(ps), siblings, level + 1, depth - 1)
    ensures FrontierIn(WithParents(h, nodes, ps, level, |ps|), Parents(ps), siblings, level + 1, depth - 1)
  {
    hide Missing, Parents, WithParents, Frontier, PairHash;
    ParentsStored(h, nodes, ps, level, |ps|);
    ParentsCanonical(ps, depth);
    var all := Frontier(Parents(ps), level + 1, depth - 1);
    forall i | 0 <= i < |all|
      ensures forall k :: 0 <= k < |ps| ==> all[i] != (level + 1, ps[k] / 2)
    {
      FrontierAvoids(Parents(ps), level + 1, depth - 1, all[i]);
      forall k | 0 <= k < |ps|
        ensures ps[k] / 2 in Parents(ps)
      {
        ParentTouched(ps, ps[k] / 2);
        assert ps[k] in ps && (ps[k] == 2 * (ps[k] / 2) || ps[k] == 2 * (ps[k] / 2) + 1);
      }
    }
  }

  lemma ParentsKeepBelow(h: Hasher, nodes: Nodes, ps: seq<nat>, level: nat, n: nat)
    requires n <= |ps| && ChildrenThere(nodes, ps, level)
    ensures SameBelow(nodes, WithParents(h, nodes, ps, level, n), level + 1)
  {
    hide PairHash;
    if n > 0 {
      ParentsKeepBelow(h, nodes, ps, level, n - 1);
    }
  }

  /** Inserts the proof's siblings at their frontier positions. */
  method PlaceFrontier(start: Nodes, ps: seq<nat>, leaves: seq<StateHash>, siblings: seq<StateHash>, depth: nat)
    returns (nodes: Nodes)
    requires Canonical(ps, depth) && Has(start, 0, ps, leaves) && |siblings| == |Frontier(ps, 0, depth)|
    ensures Has(nodes, 0, ps, leaves) && FrontierIn(nodes, ps, siblings, 0, depth)
  {
    hide Frontier;
    var positions := Frontier(ps, 0, depth);
    nodes := start;
    for i := 0 to |positions|
      invariant Has(nodes, 0, ps, leaves)
      invariant forall k :: 0 <= k < i ==> positions[k] in nodes && nodes[positions[k]] == siblings[k]
    {
      FrontierIsDistinct(ps, 0, depth);
      FrontierAvoids(ps, 0, depth, positions[i]);
      nodes := nodes[positions[i] := siblings[i]];
    }
  }

  /** The touched leaves, the frontier, and every ancestor of a touched leaf, level by level. */
  method BuildNodes(h: Hasher, ps: seq<nat>, leaves: seq<StateHash>, siblings: seq<StateHash>, depth: nat)
    returns (nodes: Nodes)
    requires Canonical(ps, depth) && |leaves| == |ps| && |siblings| == |Frontier(ps, 0, depth)|
    ensures ReadsAs(h, nodes, ps, leaves, siblings, 0, depth)
  {
    hide Missing, Parents, ParentHashes, Frontier, FrontierIn, WithParents, Climb;
    nodes := map[];
    AscendingIsDistinct(ps);
    for i := 0 to |ps|
      invariant forall k :: 0 <= k < i ==> (0, ps[k]) in nodes && nodes[(0, ps[k])] == leaves[k]
    {
      nodes := nodes[(0, ps[i]) := leaves[i]];
    }
    nodes := PlaceFrontier(nodes, ps, leaves, siblings, depth);
    var known := ps;
    ClimbStep(ps, 0);
    for level := 0 to depth
      invariant known == Climb(ps, level)
      invariant ReadsUpTo(h, nodes, ps, leaves, siblings, 0, depth, level) && FrontierIn(nodes, ps, siblings, 0, depth)
    {
      TopRowIsComplete(h, nodes, ps, leaves, siblings, 0, depth, level);
      ghost var before := nodes;
      nodes := StoreParents(h, nodes, known, level);
      NextRowRead(h, before, ps, leaves, siblings, 0, depth, level, known, nodes);
      ClimbFurther(ps, level);
      known := Parents(known);
    }
    AllRowsRead(h, nodes, ps, leaves, siblings, 0, depth);
  }

  lemma {:induction false} ClimbFurther(ps: seq<nat>, n: nat)
    ensures Climb(ps, n + 1) == Parents(Climb(ps, n))
    decreases n
  {
    hide Parents;
    if n > 0 {
      ClimbFurther(Parents(ps), n - 1);
    }
  }

  ghost predicate Distinct(positions: seq<NodeIndex>) {
    forall i, j :: 0 <= i < j < |positions| ==> positions[i] != positions[j]
  }

  lemma NoneIsDistinct()
    ensures Distinct([])
  {
  }

  lemma DistinctJoins(here: seq<NodeIndex>, rest: seq<NodeIndex>, level: nat)
    requires Distinct(here) && Distinct(rest)
    requires forall i :: 0 <= i < |here| ==> here[i].0 == level
    requires forall i :: 0 <= i < |rest| ==> rest[i].0 > level
    ensures Distinct(here + rest)
  {
  }

  /** No frontier position comes twice. */
  lemma {:induction false} FrontierIsDistinct(ps: seq<nat>, level: nat, depth: nat)
    requires Canonical(ps, depth)
    ensures Distinct(Frontier(ps, level, depth))
    decreases depth
  {
    hide Missing, Parents, Distinct;
    if depth == 0 {
      NoneIsDistinct();
    } else {
      var here, rest := AtLevel(level, Missing(ps)), Frontier(Parents(ps), level + 1, depth - 1);
      ParentsCanonical(ps, depth);
      FrontierIsDistinct(Parents(ps), level + 1, depth - 1);
      forall j | 0 <= j < |rest|
        ensures rest[j].0 > level
      {
        FrontierAvoids(Parents(ps), level + 1, depth - 1, rest[j]);
      }
      LevelIsDistinct(ps, level);
      DistinctJoins(here, rest, level);
    }
  }

  lemma LevelIsDistinct(ps: seq<nat>, level: nat)
    requires Ascending(ps)
    ensures Distinct(AtLevel(level, Missing(ps)))
  {
    hide Missing;
    MissingAscends(ps, 0);
  }

  lemma {:induction false} MissingAscends(ps: seq<nat>, first: nat)
    requires Ascending(ps) && forall i :: 0 <= i < |ps| ==> ps[i] >= 2 * first
    ensures Ascending(Missing(ps)) && forall i :: 0 <= i < |Missing(ps)| ==> Missing(ps)[i] >= 2 * first
  {
    hide Missing;
    if ps == [] {
      MissingOf(ps, 0);
    } else {
      var n, parent := if Paired(ps) then 2 else 1, ps[0] / 2;
      forall i | n <= i < |ps|
        ensures ps[i] >= 2 * (parent + 1)
      {
        AfterFirstParent(ps, n, ps[n..][i - n]);
      }
      MissingAscends(ps[n..], parent + 1);
      MissingOf(ps, n);
    }
  }

  // ---------------------------------------------------------------------
  // Sequential updates
  // ---------------------------------------------------------------------

  /** On which side the path of a leaf stands at each level. */
  ghost predicate Directed(index: nat, directions: seq<bool>, depth: nat) {
    |directions| == depth && forall level :: 0 <= level < depth ==> directions[level] == (Shr(index, level) % 2 == 1)
  }

  lemma DirectedNext(index: nat, directions: seq<bool>, depth: nat)
    requires Directed(index, directions, depth)
    ensures Directed(index, directions + [Shr(index, depth) % 2 == 1], depth + 1)
    ensures Shr(index, depth + 1) == Shr(index, depth) / 2
  {
  }

  /** One single-leaf update: the same siblings authenticate the old leaf before and the new leaf after. */
  datatype UpdateStep = UpdateStep(index: nat, oldLeaf: StateHash, newLeaf: StateHash, siblings: seq<StateHash>,
                                   directions: seq<bool>, rootBefore: StateHash, rootAfter: StateHash)
  {
    ghost predicate Authentic(h: Hasher) {
      && Fold(h.node, index, oldLeaf, siblings) == rootBefore
      && Fold(h.node, index, newLeaf, siblings) == rootAfter
    }

    /** The leaves it moves, its depth, and on which side each path node stands. */
    ghost predicate Moves(index: nat, oldLeaf: StateHash, newLeaf: StateHash, depth: nat) {
      && this.index == index && this.oldLeaf == oldLeaf && this.newLeaf == newLeaf
      && |siblings| == depth && Directed(index, directions, depth)
    }
  }

  /** Each step authenticates, and starts where the one before it ended. */
  ghost predicate Chained(h: Hasher, steps: seq<UpdateStep>, first: StateHash, last: StateHash) {
    && (forall k :: 0 <= k < |steps| ==> steps[k].Authentic(h))
    && (forall k :: 0 <= k < |steps| - 1 ==> steps[k].rootAfter == steps[k + 1].rootBefore)
    && if steps == [] then first == last
       else steps[0].rootBefore == first && steps[|steps| - 1].rootAfter == last
  }

  /** The siblings met are the expanded path, and every one is there. */
  lemma {:induction false} BesideIsPath(h: Hasher, nodes: Nodes, ps: seq<nat>, hashes: seq<StateHash>,
                                        siblings: seq<StateHash>, level: nat, depth: nat, k: nat)
    requires k < |ps| == |hashes| && |siblings| == |Frontier(ps, level, depth)|
    requires ReadsAs(h, nodes, ps, hashes, siblings, level, depth)
    ensures PathIn(nodes, ps[k], level, Path(h, ps, hashes, siblings, level, depth, k))
    decreases depth
  {
    hide Missing, Parents, ParentHashes, ParentIndex, SiblingHash, Has;
    if depth > 0 {
      var here := |Missing(ps)|;
      var own, rest := siblings[..here], siblings[here..];
      ReadsSibling(nodes, ps, hashes, own, level, k);
      BesideIsPath(h, nodes, Parents(ps), ParentHashes(h, ps, hashes, own), rest, level + 1, depth - 1,
                   ParentIndex(ps, k));
    }
  }

  /** The map holds this path beside a position, level after level. */
  ghost predicate PathIn(nodes: Nodes, position: nat, level: nat, path: seq<StateHash>)
    decreases |path|
  {
    path == [] || (
      && (level, Sibling(position)) in nodes && nodes[(level, Sibling(position))] == path[0]
      && PathIn(nodes, position / 2, level + 1, path[1..]))
  }

  lemma {:induction false} PathSurvives(nodes: Nodes, position: nat, level: nat, path: seq<StateHash>, at: NodeIndex,
                                        x: StateHash)
    requires PathIn(nodes, position, level, path) && (at.0 < level || at == (level, position))
    ensures PathIn(nodes[at := x], position, level, path)
    decreases |path|
  {
    if path != [] {
      PathSurvives(nodes, position / 2, level + 1, path[1..], at, x);
    }
  }

  lemma RewrittenAgain(h: Hasher, nodes: Nodes, position: nat, hash: StateHash, level: nat, depth: nat)
    ensures Rewritten(h, nodes[(level, position) := hash], position, hash, level, depth)
         == Rewritten(h, nodes, position, hash, level, depth)
  {
    assert nodes[(level, position) := hash][(level, position) := hash] == nodes[(level, position) := hash];
  }

  /** One more level of a rewrite that has reached `position`. */
  lemma RewrittenNext(h: Hasher, nodes: Nodes, position: nat, hash: StateHash, level: nat, depth: nat)
    requires depth > 0 && (level, Sibling(position)) in nodes
    requires (level, position) in nodes && nodes[(level, position)] == hash
    ensures var joined := Joined(h.node, position, hash, nodes[(level, Sibling(position))]);
            Rewritten(h, nodes[(level + 1, position / 2) := joined], position / 2, joined, level + 1, depth - 1)
            == Rewritten(h, nodes, position, hash, level, depth)
  {
    assert nodes[(level, position) := hash] == nodes;
    RewrittenAgain(h, nodes, position / 2, Joined(h.node, position, hash, nodes[(level, Sibling(position))]), level + 1,
                   depth - 1);
  }

  lemma RewrittenAtTop(h: Hasher, nodes: Nodes, position: nat, hash: StateHash, level: nat)
    requires (level, position) in nodes && nodes[(level, position)] == hash
    ensures Rewritten(h, nodes, position, hash, level, 0) == nodes
  {
    assert nodes[(level, position) := hash] == nodes;
  }

  /** One level of a path in the map, and the path above it once the next node has been stored. */
  lemma PathNext(nodes: Nodes, position: nat, level: nat, path: seq<StateHash>, x: StateHash)
    requires PathIn(nodes, position, level, path) && path != []
    ensures (level, Sibling(position)) in nodes && nodes[(level, Sibling(position))] == path[0]
    ensures PathIn(nodes[(level + 1, position / 2) := x], position / 2, level + 1, path[1..])
  {
    PathSurvives(nodes, position / 2, level + 1, path[1..], (level + 1, position / 2), x);
  }

  /** Writes one leaf and rehashes its path in the map, collecting the siblings it meets. */
  method RewritePath(h: Hasher, start: Nodes, index: nat, leaf: StateHash, depth: nat, ghost path: seq<StateHash>)
    returns (nodes: Nodes, siblings: seq<StateHash>, directions: seq<bool>, root: StateHash)
    requires |path| == depth && PathIn(start, index, 0, path)
    ensures nodes == Rewritten(h, start, index, leaf, 0, depth) && siblings == path
            && Directed(index, directions, depth)
    ensures root == Fold(h.node, index, leaf, path)
  {
    hide Rewritten, Fold, PathIn, Directed, Joined;
    var position := index;
    root, siblings, directions := leaf, [], [];
    nodes := start[(0, index) := leaf];
    RewrittenAgain(h, start, index, leaf, 0, depth);
    PathSurvives(start, index, 0, path, (0, index), leaf);
    NoneDirected(index);
    assert path[0..] == path;
    for level := 0 to depth
      invariant position == Shr(index, level) && siblings == path[..level] && Directed(index, directions, level)
      invariant (level, position) in nodes && nodes[(level, position)] == root
      invariant PathIn(nodes, position, level, path[level..])
      invariant Rewritten(h, nodes, position, root, level, depth - level) == Rewritten(h, start, index, leaf, 0, depth)
      invariant Fold(h.node, position, root, path[level..]) == Fold(h.node, index, leaf, path)
    {
      assert path[level..][0] == path[level] && path[level..][1..] == path[level + 1..];
      ghost var joined := Joined(h.node, position, root, path[level]);
      FoldStep(h.node, position, root, path[level..]);
      PathNext(nodes, position, level, path[level..], joined);
      RewrittenNext(h, nodes, position, root, level, depth - level);
      DirectedNext(index, directions, level);
      var sibling := nodes[(level, Sibling(position))];
      siblings := siblings + [sibling];
      directions := directions + [position % 2 == 1];
      root := Joined(h.node, position, root, sibling);
      position := position / 2;
      nodes := nodes[(level + 1, position) := root];
    }
    RewrittenAtTop(h, nodes, position, root, depth);
    assert path[depth..] == [] && path[..depth] == path;
    FoldNone(h.node, position, root);
  }

  lemma NoneDirected(index: nat)
    ensures Directed(index, [], 0)
  {
  }

  /** The leaves once the first `k` updates are done. */
  function Mixed(oldLeaves: seq<StateHash>, newLeaves: seq<StateHash>, k: nat): (leaves: seq<StateHash>)
    requires |oldLeaves| == |newLeaves| && k <= |newLeaves|
    ensures |leaves| == |oldLeaves|
  {
    newLeaves[..k] + oldLeaves[k..]
  }

  /** Every step moves its own leaf, and its siblings are its expanded path over the leaves as they stand by then. */
  ghost predicate StepsFollow(h: Hasher, ps: seq<nat>, oldLeaves: seq<StateHash>, newLeaves: seq<StateHash>,
                              siblings: seq<StateHash>, depth: nat, steps: seq<UpdateStep>)
    requires Expandable(ps, oldLeaves, newLeaves, siblings, depth) && |steps| <= |ps|
  {
    forall k :: 0 <= k < |steps| ==>
      && steps[k].Moves(ps[k], oldLeaves[k], newLeaves[k], depth)
      && steps[k].siblings == Path(h, ps, Mixed(oldLeaves, newLeaves, k), siblings, 0, depth, k)
      && steps[k].rootBefore == Reconstruct(h, ps, Mixed(oldLeaves, newLeaves, k), siblings, 0, depth)
      && steps[k].rootAfter == Reconstruct(h, ps, Mixed(oldLeaves, newLeaves, k + 1), siblings, 0, depth)
  }

  lemma MixedNext(oldLeaves: seq<StateHash>, newLeaves: seq<StateHash>, k: nat)
    requires |oldLeaves| == |newLeaves| && k < |newLeaves|
    ensures Mixed(oldLeaves, newLeaves, k)[k] == oldLeaves[k]
    ensures Mixed(oldLeaves, newLeaves, k + 1) == Mixed(oldLeaves, newLeaves, k)[k := newLeaves[k]]
  {
  }

  lemma MixedEnds(oldLeaves: seq<StateHash>, newLeaves: seq<StateHash>)
    requires |oldLeaves| == |newLeaves|
    ensures Mixed(oldLeaves, newLeaves, 0) == oldLeaves && Mixed(oldLeaves, newLeaves, |newLeaves|) == newLeaves
  {
  }

  /** The proof is a canonical one for both leaf lists. */
  ghost predicate Expandable(ps: seq<nat>, oldLeaves: seq<StateHash>, newLeaves: seq<StateHash>,
                             siblings: seq<StateHash>, depth: nat)
  {
    && |oldLeaves| == |newLeaves| == |ps| && depth <= MAX_DEPTH && Canonical(ps, depth)
    && |siblings| == |Frontier(ps, 0, depth)|
  }

  /**
   Derives one single-leaf update per touched slot from one frontier, or refuses anything but an exact canonical proof.
   The steps chain from the root of the old leaves to the root of the new leaves: updating one by one, over a node map
   rewritten in place, and updating all at once commit to the same state.
   */
  method SequentialUpdates(h: Hasher, ps: seq<nat>, oldLeaves: seq<StateHash>, newLeaves: seq<StateHash>,
                           siblings: seq<StateHash>, depth: nat) returns (result: Result<seq<UpdateStep>, Error>)
    ensures result.Ok? <==> Expandable(ps, oldLeaves, newLeaves, siblings, depth)
    ensures result == Err(LeafCountMismatch) <==> |ps| != |oldLeaves| || |ps| != |newLeaves|
    ensures result == Err(ProofLengthMismatch) <==>
              && |ps| == |oldLeaves| == |newLeaves| && depth <= MAX_DEPTH && Canonical(ps, depth)
              && |siblings| != |Frontier(ps, 0, depth)|
    ensures result.Ok? ==>
              |result.value| == |ps| && StepsFollow(h, ps, oldLeaves, newLeaves, siblings, depth, result.value)
    ensures result.Ok? ==> Chained(h, result.value, Reconstruct(h, ps, oldLeaves, siblings, 0, depth),
                                   Reconstruct(h, ps, newLeaves, siblings, 0, depth))
  {
    hide Frontier, Reconstruct, Path, ReadsAs, Canonical, StepsFollow;
    if |ps| != |oldLeaves| || |ps| != |newLeaves| {
      return Err(LeafCountMismatch);
    }
    var fault := ValidateIndices(ps, depth);
    if fault.Some? {
      return Err(fault.value);
    }
    if |siblings| != |Frontier(ps, 0, depth)| {
      return Err(ProofLengthMismatch);
    }
    var steps := UpdateAll(h, ps, oldLeaves, newLeaves, siblings, depth);
    return Ok(steps);
  }

  method UpdateAll(h: Hasher, ps: seq<nat>, oldLeaves: seq<StateHash>, newLeaves: seq<StateHash>,
                   siblings: seq<StateHash>, depth: nat) returns (steps: seq<UpdateStep>)
    requires Expandable(ps, oldLeaves, newLeaves, siblings, depth)
    ensures |steps| == |ps| && StepsFollow(h, ps, oldLeaves, newLeaves, siblings, depth, steps)
    ensures Chained(h, steps, Reconstruct(h, ps, oldLeaves, siblings, 0, depth),
                    Reconstruct(h, ps, newLeaves, siblings, 0, depth))
  {
    hide Frontier, Reconstruct, Path, ReadsAs, UpdateStep.Moves, Rewritten, Ascending, Mixed;
    var nodes := BuildNodes(h, ps, oldLeaves, siblings, depth);
    MixedEnds(oldLeaves, newLeaves);
    ReadsRoot(h, nodes, ps, oldLeaves, siblings, 0, depth);
    var root := nodes[(depth, 0)];
    steps := [];
    for i := 0 to |ps|
      invariant |steps| == i && StepsFollow(h, ps, oldLeaves, newLeaves, siblings, depth, steps)
      invariant ReadsAs(h, nodes, ps, Mixed(oldLeaves, newLeaves, i), siblings, 0, depth)
      invariant root == Reconstruct(h, ps, Mixed(oldLeaves, newLeaves, i), siblings, 0, depth)
      invariant Chained(h, steps, Reconstruct(h, ps, oldLeaves, siblings, 0, depth), root)
    {
      ghost var leaves := Mixed(oldLeaves, newLeaves, i);
      MixedNext(oldLeaves, newLeaves, i);
      var rewritten, step := UpdateOne(h, nodes, ps, leaves, oldLeaves[i], newLeaves[i], siblings, depth, i, root);
      nodes, root := rewritten, step.rootAfter;
      steps := steps + [step];
    }
  }

  /** One step: the map over the current leaves becomes the map over the leaves with leaf `i` replaced. */
  method UpdateOne(h: Hasher, nodes: Nodes, ps: seq<nat>, ghost leaves: seq<StateHash>, oldLeaf: StateHash,
                   newLeaf: StateHash, ghost siblings: seq<StateHash>, depth: nat, i: nat, root: StateHash)
    returns (rewritten: Nodes, step: UpdateStep)
    requires Canonical(ps, depth) && i < |ps| == |leaves| && |siblings| == |Frontier(ps, 0, depth)|
    requires leaves[i] == oldLeaf && root == Reconstruct(h, ps, leaves, siblings, 0, depth)
    requires ReadsAs(h, nodes, ps, leaves, siblings, 0, depth)
    ensures ReadsAs(h, rewritten, ps, leaves[i := newLeaf], siblings, 0, depth)
    ensures step.Moves(ps[i], oldLeaf, newLeaf, depth) && step.Authentic(h) && step.rootBefore == root
    ensures step.siblings == Path(h, ps, leaves, siblings, 0, depth, i)
    ensures step.rootAfter == Reconstruct(h, ps, leaves[i := newLeaf], siblings, 0, depth)
  {
    hide Frontier, Reconstruct, Path, ReadsAs, Rewritten, Canonical, Fold, PathIn;
    ghost var path := Path(h, ps, leaves, siblings, 0, depth, i);
    BesideIsPath(h, nodes, ps, leaves, siblings, 0, depth, i);
    PathFoldsToRoot(h, ps, leaves, siblings, 0, depth, i, oldLeaf);
    PathFoldsToRoot(h, ps, leaves, siblings, 0, depth, i, newLeaf);
    assert leaves[i := oldLeaf] == leaves;
    var beside, directions, after;
    rewritten, beside, directions, after := RewritePath(h, nodes, ps[i], newLeaf, depth, path);
    RewritingReadsAs(h, nodes, ps, leaves, siblings, 0, depth, i, newLeaf);
    step := UpdateStep(ps[i], oldLeaf, newLeaf, beside, directions, root, after);
  }
}
