/** Canonical sparse Merkle multiproofs: which siblings a touched set misses, and what a root rebuilt from them says. */
module SparseMultiproof {
  import opened Options
  import opened Powers
  import opened PairHashing
  import opened StateHashing

  predicate Ascending(ps: seq<nat>) {
    forall i, j :: 0 <= i < j < |ps| ==> ps[i] < ps[j]
  }

  /** A canonical touched set: nonempty, strictly sorted, inside the tree. */
  predicate Canonical(ps: seq<nat>, depth: nat) {
    ps != [] && Ascending(ps) && forall i :: 0 <= i < |ps| ==> ps[i] < Pow2(depth)
  }

  /** The first two touched nodes share a parent. */
  predicate Paired(ps: seq<nat>) {
    |ps| > 1 && ps[0] % 2 == 0 && ps[1] == ps[0] + 1
  }

  /** Sibling positions one level leaves untouched, in order of parent. */
  function Missing(ps: seq<nat>): (missing: seq<nat>)
    ensures |missing| <= |ps|
  {
    if ps == [] then []
    else if Paired(ps) then Missing(ps[2..])
    else [Sibling(ps[0])] + Missing(ps[1..])
  }

  /** The touched set one level up. */
  function Parents(ps: seq<nat>): (parents: seq<nat>)
    ensures |parents| + |parents| == |ps| + |Missing(ps)|
    ensures ps != [] ==> parents != [] && parents[0] == ps[0] / 2
  {
    if ps == [] then []
    else [ps[0] / 2] + Parents(if Paired(ps) then ps[2..] else ps[1..])
  }

  /** Hashes of the parents, taking missing siblings in order. */
  function ParentHashes(h: Hasher, ps: seq<nat>, hashes: seq<StateHash>, siblings: seq<StateHash>)
    : (parents: seq<StateHash>)
    requires |hashes| == |ps| && |siblings| == |Missing(ps)|
    ensures |parents| == |Parents(ps)|
  {
    if ps == [] then []
    else if Paired(ps) then
      [NodeHash(h, hashes[0], hashes[1])] + ParentHashes(h, ps[2..], hashes[2..], siblings)
    else
      [Joined(h.node, ps[0], hashes[0], siblings[0])] + ParentHashes(h, ps[1..], hashes[1..], siblings[1..])
  }

  lemma UnfoldPair(h: Hasher, ps: seq<nat>, hashes: seq<StateHash>, siblings: seq<StateHash>)
    requires Paired(ps) && |hashes| == |ps| && |siblings| == |Missing(ps)|
    ensures Missing(ps) == Missing(ps[2..]) && Parents(ps) == [ps[0] / 2] + Parents(ps[2..])
    ensures ParentHashes(h, ps, hashes, siblings)
         == [NodeHash(h, hashes[0], hashes[1])] + ParentHashes(h, ps[2..], hashes[2..], siblings)
  {
  }

  lemma UnfoldSingle(h: Hasher, ps: seq<nat>, hashes: seq<StateHash>, siblings: seq<StateHash>)
    requires ps != [] && !Paired(ps) && |hashes| == |ps| && |siblings| == |Missing(ps)|
    ensures Missing(ps) == [Sibling(ps[0])] + Missing(ps[1..]) && Parents(ps) == [ps[0] / 2] + Parents(ps[1..])
    ensures ParentHashes(h, ps, hashes, siblings)
         == [Joined(h.node, ps[0], hashes[0], siblings[0])] + ParentHashes(h, ps[1..], hashes[1..], siblings[1..])
  {
  }

  /** A node's level above the leaves and its position in that level. */
  type NodeIndex = (nat, nat)

  type Nodes = map<NodeIndex, StateHash>

  function AtLevel(level: nat, ps: seq<nat>): (at: seq<NodeIndex>)
    ensures |at| == |ps| && forall i :: 0 <= i < |at| ==> at[i] == (level, ps[i])
  {
    seq(|ps|, i requires 0 <= i < |ps| => (level, ps[i]))
  }

  /** Every missing sibling, level by level, for a set touched at `level` with `depth` levels above it. */
  function Frontier(ps: seq<nat>, level: nat, depth: nat): seq<NodeIndex>
    decreases depth
  {
    if depth == 0 then []
    else AtLevel(level, Missing(ps)) + Frontier(Parents(ps), level + 1, depth - 1)
  }

  /** The root of the touched hashes and their missing siblings. */
  function Reconstruct(h: Hasher, ps: seq<nat>, hashes: seq<StateHash>, siblings: seq<StateHash>,
                       ghost level: nat, depth: nat): StateHash
    requires ps != [] && |hashes| == |ps| && |siblings| == |Frontier(ps, level, depth)|
    decreases depth
  {
    if depth == 0 then hashes[0]
    else
      var here := |Missing(ps)|;
      Reconstruct(h, Parents(ps), ParentHashes(h, ps, hashes, siblings[..here]), siblings[here..], level + 1, depth - 1)
  }

  // ---------------------------------------------------------------------
  // The touched set as it climbs
  // ---------------------------------------------------------------------

  lemma ParentsOf(ps: seq<nat>, n: nat)
    requires n == if ps == [] then 0 else if Paired(ps) then 2 else 1
    ensures Parents(ps) == if n == 0 then [] else [ps[0] / 2] + Parents(ps[n..])
  {
  }

  lemma {:induction false} ParentsAscendFrom(ps: seq<nat>, first: nat, bound: nat)
    requires Ascending(ps) && forall i :: 0 <= i < |ps| ==> 2 * first <= ps[i] < 2 * bound
    ensures Ascending(Parents(ps))
    ensures forall i :: 0 <= i < |Parents(ps)| ==> first <= Parents(ps)[i] < bound
  {
    hide Parents;
    var n := if ps == [] then 0 else if Paired(ps) then 2 else 1;
    ParentsOf(ps, n);
    if ps != [] {
      var rest, parent := ps[n..], ps[0] / 2;
      forall i | 0 <= i < |rest|
        ensures rest[i] >= 2 * (parent + 1)
      {
        AfterFirstParent(ps, n, rest[i]);
      }
      ParentsAscendFrom(rest, parent + 1, bound);
    }
  }

  lemma ParentsAscend(ps: seq<nat>, bound: nat)
    requires Ascending(ps) && forall i :: 0 <= i < |ps| ==> ps[i] < 2 * bound
    ensures Ascending(Parents(ps)) && forall i :: 0 <= i < |Parents(ps)| ==> Parents(ps)[i] < bound
  {
    ParentsAscendFrom(ps, 0, bound);
  }

  lemma ParentsCanonical(ps: seq<nat>, depth: nat)
    requires depth > 0 && Canonical(ps, depth)
    ensures Canonical(Parents(ps), depth - 1)
  {
    ParentsAscend(ps, Pow2(depth - 1));
  }

  /** The touched set `log` levels up. */
  function Climb(ps: seq<nat>, log: nat): seq<nat>
    decreases log
  {
    if log == 0 then ps else Climb(Parents(ps), log - 1)
  }

  lemma {:induction false} ClimbCanonical(ps: seq<nat>, log: nat, upper: nat)
    requires Canonical(ps, log + upper)
    ensures Canonical(Climb(ps, log), upper)
    decreases log
  {
    if log > 0 {
      ParentsCanonical(ps, log + upper);
      ClimbCanonical(Parents(ps), log - 1, upper);
    }
  }

  /** A parent is touched exactly when one of its children is. */
  lemma {:induction false} ParentTouched(ps: seq<nat>, p: nat)
    requires Ascending(ps)
    ensures p in Parents(ps) <==> 2 * p in ps || 2 * p + 1 in ps
  {
    hide Missing;
    if ps != [] {
      var n := if Paired(ps) then 2 else 1;
      assert ps == ps[..n] + ps[n..];
      assert p in Parents(ps) <==> p == ps[0] / 2 || p in Parents(ps[n..]);
      ParentTouched(ps[n..], p);
      if p == ps[0] / 2 {
        assert ps[0] == 2 * p || ps[0] == 2 * p + 1;
      }
    }
  }

  /** Nodes past the first parent's children have another parent. */
  lemma AfterFirstParent(ps: seq<nat>, n: nat, p: nat)
    requires ps != [] && Ascending(ps) && n == (if Paired(ps) then 2 else 1) && p in ps[n..]
    ensures p / 2 > ps[0] / 2
  {
    assert ps[n..][0] == ps[n];
  }

  lemma SingleIsAlone(ps: seq<nat>)
    requires ps != [] && Ascending(ps) && !Paired(ps)
    ensures Sibling(ps[0]) !in ps
  {
    forall i | 0 <= i < |ps|
      ensures ps[i] != Sibling(ps[0])
    {
      assert i > 1 ==> ps[0] < ps[1] < ps[i];
    }
  }

  lemma MissingOf(ps: seq<nat>, n: nat)
    requires n == if ps == [] then 0 else if Paired(ps) then 2 else 1
    ensures Missing(ps) == if n == 0 then [] else (if n == 2 then [] else [Sibling(ps[0])]) + Missing(ps[n..])
  {
  }

  /** A missing sibling is untouched, and its sibling is touched. */
  lemma {:induction false} MissingIsUntouched(ps: seq<nat>, q: nat)
    requires Ascending(ps) && q in Missing(ps)
    ensures q !in ps && Sibling(q) in ps
  {
    hide Missing;
    var n := if ps == [] then 0 else if Paired(ps) then 2 else 1;
    MissingOf(ps, n);
    assert ps == ps[..n] + ps[n..];
    if q in Missing(ps[n..]) {
      MissingIsUntouched(ps[n..], q);
      AfterFirstParent(ps, n, Sibling(q));
    } else {
      SingleIsAlone(ps);
    }
  }

  // ---------------------------------------------------------------------
  // Completeness: what a tree's own proof reconstructs
  // ---------------------------------------------------------------------

  /** `node` is a complete hash tree: above the leaves, every node is the hash of its children. */
  ghost predicate IsHashTree(h: Hasher, node: NodeIndex -> StateHash) {
    forall level: nat, p: nat :: HashesChildren(h, node, level, p)
  }

  ghost predicate HashesChildren(h: Hasher, node: NodeIndex -> StateHash, level: nat, p: nat) {
    node((level + 1, p)) == h.node.f(node((level, 2 * p)), node((level, 2 * p + 1)))
  }

  /** The hashes a tree holds at the listed nodes. */
  ghost function Read(node: NodeIndex -> StateHash, at: seq<NodeIndex>): (hashes: seq<StateHash>)
    ensures |hashes| == |at| && forall i :: 0 <= i < |at| ==> hashes[i] == node(at[i])
  {
    seq(|at|, i requires 0 <= i < |at| => node(at[i]))
  }

  /** The listed hashes are the tree's own at the listed positions of a level. */
  ghost predicate Holds(node: NodeIndex -> StateHash, level: nat, ps: seq<nat>, hashes: seq<StateHash>) {
    |hashes| == |ps| && forall i :: 0 <= i < |ps| ==> hashes[i] == node((level, ps[i]))
  }

  lemma HoldsTail(node: NodeIndex -> StateHash, level: nat, ps: seq<nat>, hashes: seq<StateHash>, n: nat)
    requires Holds(node, level, ps, hashes) && n <= |ps|
    ensures Holds(node, level, ps[n..], hashes[n..])
  {
  }

  lemma ParentIsNode(h: Hasher, node: NodeIndex -> StateHash, level: nat, p: nat)
    requires IsHashTree(h, node)
    ensures node((level + 1, p)) == NodeHash(h, node((level, 2 * p)), node((level, 2 * p + 1)))
  {
    assert HashesChildren(h, node, level, p);
  }

  lemma NoParents(h: Hasher, hashes: seq<StateHash>, siblings: seq<StateHash>)
    requires |hashes| == 0 && |siblings| == |Missing([])|
    ensures Missing([]) == [] && Parents([]) == [] && ParentHashes(h, [], hashes, siblings) == []
  {
  }

  lemma {:induction false} ParentHashesAreNodes(h: Hasher, node: NodeIndex -> StateHash, ps: seq<nat>, level: nat,
                                                hashes: seq<StateHash>, siblings: seq<StateHash>)
    requires IsHashTree(h, node) && Holds(node, level, ps, hashes) && Holds(node, level, Missing(ps), siblings)
    ensures Holds(node, level + 1, Parents(ps), ParentHashes(h, ps, hashes, siblings))
  {
    hide Missing, Parents, ParentHashes, IsHashTree;
    if ps == [] {
      NoParents(h, hashes, siblings);
    } else {
      ParentIsNode(h, node, level, ps[0] / 2);
      var n, m := if Paired(ps) then 2 else 1, if Paired(ps) then 0 else 1;
      if Paired(ps) {
        UnfoldPair(h, ps, hashes, siblings);
        assert siblings[0..] == siblings && Missing(ps)[0..] == Missing(ps);
      } else {
        UnfoldSingle(h, ps, hashes, siblings);
        assert siblings[0] == node((level, Sibling(ps[0])));
      }
      HoldsTail(node, level, ps, hashes, n);
      HoldsTail(node, level, Missing(ps), siblings, m);
      ParentHashesAreNodes(h, node, ps[n..], level, hashes[n..], siblings[m..]);
    }
  }

  /** The touched hashes of a tree and its own frontier reconstruct its root. */
  lemma {:induction false} ProofIsComplete(h: Hasher, node: NodeIndex -> StateHash, ps: seq<nat>, level: nat,
                                           depth: nat)
    requires IsHashTree(h, node) && Canonical(ps, depth)
    ensures Reconstruct(h, ps, Read(node, AtLevel(level, ps)), Read(node, Frontier(ps, level, depth)), level, depth)
         == node((level + depth, 0))
    decreases depth
  {
    hide Missing, Parents, ParentHashes;
    if depth == 0 {
      assert ps[0] == 0;
    } else {
      var siblings := Read(node, Frontier(ps, level, depth));
      var here := |Missing(ps)|;
      assert siblings[..here] == Read(node, AtLevel(level, Missing(ps)));
      assert siblings[here..] == Read(node, Frontier(Parents(ps), level + 1, depth - 1));
      ParentHashesAreNodes(h, node, ps, level, Read(node, AtLevel(level, ps)), siblings[..here]);
      assert ParentHashes(h, ps, Read(node, AtLevel(level, ps)), siblings[..here])
          == Read(node, AtLevel(level + 1, Parents(ps)));
      ParentsCanonical(ps, depth);
      ProofIsComplete(h, node, Parents(ps), level + 1, depth - 1);
    }
  }

  // ---------------------------------------------------------------------
  // Updates: the frontier does not see a write to the touched set
  // ---------------------------------------------------------------------

  /** The two trees agree at a level, except at the listed positions. */
  ghost predicate AgreeOutside(a: NodeIndex -> StateHash, b: NodeIndex -> StateHash, level: nat, ps: seq<nat>) {
    forall p: nat :: p !in ps ==> a((level, p)) == b((level, p))
  }

  lemma AgreementClimbs(h: Hasher, a: NodeIndex -> StateHash, b: NodeIndex -> StateHash, level: nat, ps: seq<nat>)
    requires IsHashTree(h, a) && IsHashTree(h, b) && Ascending(ps) && AgreeOutside(a, b, level, ps)
    ensures AgreeOutside(a, b, level + 1, Parents(ps))
  {
    forall p: nat | p !in Parents(ps)
      ensures a((level + 1, p)) == b((level + 1, p))
    {
      ParentTouched(ps, p);
      assert HashesChildren(h, a, level, p) && HashesChildren(h, b, level, p);
      assert a((level, 2 * p)) == b((level, 2 * p)) && a((level, 2 * p + 1)) == b((level, 2 * p + 1));
    }
  }

  lemma {:induction false} FrontierUnmoved(h: Hasher, a: NodeIndex -> StateHash, b: NodeIndex -> StateHash,
                                           ps: seq<nat>, level: nat, depth: nat)
    requires IsHashTree(h, a) && IsHashTree(h, b) && Canonical(ps, depth) && AgreeOutside(a, b, level, ps)
    ensures Read(a, Frontier(ps, level, depth)) == Read(b, Frontier(ps, level, depth))
    decreases depth
  {
    hide Missing, Parents, AgreeOutside, Read, AtLevel, IsHashTree;
    if depth > 0 {
      AgreementClimbs(h, a, b, level, ps);
      ParentsCanonical(ps, depth);
      FrontierUnmoved(h, a, b, Parents(ps), level + 1, depth - 1);
      MissingUnmoved(a, b, ps, level);
      ReadConcat(a, AtLevel(level, Missing(ps)), Frontier(Parents(ps), level + 1, depth - 1));
      ReadConcat(b, AtLevel(level, Missing(ps)), Frontier(Parents(ps), level + 1, depth - 1));
    } else {
      assert Read(a, []) == Read(b, []);
    }
  }

  lemma ReadConcat(node: NodeIndex -> StateHash, x: seq<NodeIndex>, y: seq<NodeIndex>)
    ensures Read(node, x + y) == Read(node, x) + Read(node, y)
  {
  }

  lemma MissingUnmoved(a: NodeIndex -> StateHash, b: NodeIndex -> StateHash, ps: seq<nat>, level: nat)
    requires Ascending(ps) && AgreeOutside(a, b, level, ps)
    ensures Read(a, AtLevel(level, Missing(ps))) == Read(b, AtLevel(level, Missing(ps)))
  {
    hide Missing;
    var missing := Missing(ps);
    forall i | 0 <= i < |missing|
      ensures a((level, missing[i])) == b((level, missing[i]))
    {
      MissingIsUntouched(ps, missing[i]);
    }
  }

  /** One frontier authenticates both sides of an update: old leaves to the old root, new leaves to the new root. */
  lemma ProofCarriesUpdate(h: Hasher, before: NodeIndex -> StateHash, after: NodeIndex -> StateHash, ps: seq<nat>,
                           depth: nat)
    requires IsHashTree(h, before) && IsHashTree(h, after) && Canonical(ps, depth) && AgreeOutside(before, after, 0, ps)
    ensures var siblings := Read(before, Frontier(ps, 0, depth));
            && Reconstruct(h, ps, Read(before, AtLevel(0, ps)), siblings, 0, depth) == before((depth, 0))
            && Reconstruct(h, ps, Read(after, AtLevel(0, ps)), siblings, 0, depth) == after((depth, 0))
  {
    hide Reconstruct, Frontier, Canonical;
    FrontierUnmoved(h, before, after, ps, 0, depth);
    ProofIsComplete(h, before, ps, 0, depth);
    ProofIsComplete(h, after, ps, 0, depth);
  }

  // ---------------------------------------------------------------------
  // Binding: a root fixes the touched leaves and the frontier
  // ---------------------------------------------------------------------

  type Collision = PairCollision<StateHash>

  lemma {:induction false} ParentHashesBind(h: Hasher, ps: seq<nat>, a: seq<StateHash>, s: seq<StateHash>,
                                            b: seq<StateHash>, t: seq<StateHash>) returns (c: Option<Collision>)
    requires |a| == |b| == |ps| && |s| == |t| == |Missing(ps)|
    requires ParentHashes(h, ps, a, s) == ParentHashes(h, ps, b, t)
    ensures c.Some? ==> c.value.Holds(h.node)
    ensures c.None? ==> a == b && s == t
  {
    hide Missing, Parents, ParentHashes;
    c := None;
    if ps == [] {
      NoParents(h, a, s);
    } else {
      var n, m := if Paired(ps) then 2 else 1, if Paired(ps) then 0 else 1;
      var x, y := ParentHashes(h, ps, a, s), ParentHashes(h, ps, b, t);
      if Paired(ps) {
        UnfoldPair(h, ps, a, s);
        UnfoldPair(h, ps, b, t);
        assert s[0..] == s && t[0..] == t;
      } else {
        UnfoldSingle(h, ps, a, s);
        UnfoldSingle(h, ps, b, t);
      }
      assert x[0] == y[0] && x[1..] == y[1..];
      c := ParentHashesBind(h, ps[n..], a[n..], s[m..], b[n..], t[m..]);
      var pair := if Paired(ps) then PairCollision(a[0], a[1], b[0], b[1])
                  else if ps[0] % 2 == 0 then PairCollision(a[0], s[0], b[0], t[0])
                  else PairCollision(s[0], a[0], t[0], b[0]);
      if !pair.Holds(h.node) {
        assert a == a[..n] + a[n..] && b == b[..n] + b[n..];
        assert s == s[..m] + s[m..] && t == t[..m] + t[m..];
      } else {
        c := Some(pair);
      }
    }
  }

  /** Two proofs with one root are the same proof, or they exhibit a hash collision. */
  lemma {:induction false} RootBindsProof(h: Hasher, ps: seq<nat>, a: seq<StateHash>, s: seq<StateHash>,
                                          b: seq<StateHash>, t: seq<StateHash>, level: nat, depth: nat)
    returns (c: Option<Collision>)
    requires Canonical(ps, depth) && |a| == |b| == |ps| && |s| == |t| == |Frontier(ps, level, depth)|
    requires Reconstruct(h, ps, a, s, level, depth) == Reconstruct(h, ps, b, t, level, depth)
    ensures c.Some? ==> c.value.Holds(h.node)
    ensures c.None? ==> a == b && s == t
    decreases depth
  {
    hide Missing, Parents, ParentHashes;
    if depth == 0 {
      assert |ps| == 1 by {
        assert ps[0] == 0 && ps[|ps| - 1] == 0;
      }
      c := None;
    } else {
      var here := |Missing(ps)|;
      ParentsCanonical(ps, depth);
      c := RootBindsProof(h, Parents(ps), ParentHashes(h, ps, a, s[..here]), s[here..],
                          ParentHashes(h, ps, b, t[..here]), t[here..], level + 1, depth - 1);
      if c.None? {
        c := ParentHashesBind(h, ps, a, s[..here], b, t[..here]);
        assert s == s[..here] + s[here..] && t == t[..here] + t[here..];
      }
    }
  }

  /** A proof accepted against a tree's root holds that tree's own leaves and frontier, or exhibits a collision. */
  lemma ProofIsSound(h: Hasher, node: NodeIndex -> StateHash, ps: seq<nat>, leaves: seq<StateHash>,
                     siblings: seq<StateHash>, depth: nat) returns (c: Option<Collision>)
    requires IsHashTree(h, node) && Canonical(ps, depth)
    requires |leaves| == |ps| && |siblings| == |Frontier(ps, 0, depth)|
    requires Reconstruct(h, ps, leaves, siblings, 0, depth) == node((depth, 0))
    ensures c.Some? ==> c.value.Holds(h.node)
    ensures c.None? ==> leaves == Read(node, AtLevel(0, ps)) && siblings == Read(node, Frontier(ps, 0, depth))
  {
    hide Reconstruct, Frontier, Canonical;
    ProofIsComplete(h, node, ps, 0, depth);
    c := RootBindsProof(h, ps, leaves, siblings, Read(node, AtLevel(0, ps)), Read(node, Frontier(ps, 0, depth)), 0,
                        depth);
  }
}
