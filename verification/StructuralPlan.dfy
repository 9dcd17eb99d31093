/** The frontier as a straight-line hash plan: derived from positions alone, evaluated on any leaves and siblings. */
module StructuralPlan {
  import opened Options
  import opened StateHashing
  import opened SparseMultiproof
  import opened MultiproofVerifier

  /** A node of the plan, by ordinal: a touched leaf, a frontier sibling, or the result of an earlier combine. */
  datatype NodeRef = TouchedLeaf(n: nat) | FrontierSibling(n: nat) | Combine(n: nat)

  datatype StructuralCombine = StructuralCombine(left: NodeRef, right: NodeRef)

  datatype Plan = Plan(touchedLeafCount: nat, frontierPositions: seq<NodeIndex>, combines: seq<StructuralCombine>,
                       root: NodeRef)

  // ---------------------------------------------------------------------
  // Deriving
  // ---------------------------------------------------------------------

  /** One level's combines: touched children by their refs, missing ones by the next frontier ordinals. */
  function LevelCombines(ps: seq<nat>, refs: seq<NodeRef>, sibling: nat): (combines: seq<StructuralCombine>)
    requires |refs| == |ps|
    ensures |combines| == |Parents(ps)|
  {
    if ps == [] then []
    else if Paired(ps) then [StructuralCombine(refs[0], refs[1])] + LevelCombines(ps[2..], refs[2..], sibling)
    else
      [if ps[0] % 2 == 0 then StructuralCombine(refs[0], FrontierSibling(sibling))
       else StructuralCombine(FrontierSibling(sibling), refs[0])]
      + LevelCombines(ps[1..], refs[1..], sibling + 1)
  }

  function CombineRefs(first: nat, count: nat): (refs: seq<NodeRef>)
    ensures |refs| == count && forall i :: 0 <= i < count ==> refs[i] == Combine(first + i)
  {
    seq(count, i requires 0 <= i < count => Combine(first + i))
  }

  /** The combines of every level from here up, and the ref of the root. */
  function Derive(ps: seq<nat>, refs: seq<NodeRef>, sibling: nat, combine: nat, depth: nat)
    : (seq<StructuralCombine>, NodeRef)
    requires |refs| == |ps| && ps != []
    decreases depth
  {
    if depth == 0 then ([], refs[0])
    else
      var parents, here := Parents(ps), LevelCombines(ps, refs, sibling);
      var (rest, root) :=
        Derive(parents, CombineRefs(combine, |parents|), sibling + |Missing(ps)|, combine + |parents|, depth - 1);
      (here + rest, root)
  }

  lemma DeriveStep(ps: seq<nat>, refs: seq<NodeRef>, sibling: nat, combine: nat, depth: nat)
    requires |refs| == |ps| && ps != []
    ensures depth == 0 ==> Derive(ps, refs, sibling, combine, depth) == ([], refs[0])
    ensures depth > 0 ==>
              var parents := Parents(ps);
              var (rest, root) :=
                Derive(parents, CombineRefs(combine, |parents|), sibling + |Missing(ps)|, combine + |parents|,
                       depth - 1);
              Derive(ps, refs, sibling, combine, depth) == (LevelCombines(ps, refs, sibling) + rest, root)
  {
    hide Missing, Parents, LevelCombines;
  }

  function LeafRefs(count: nat): (refs: seq<NodeRef>)
    ensures |refs| == count && forall i :: 0 <= i < count ==> refs[i] == TouchedLeaf(i)
  {
    seq(count, i requires 0 <= i < count => TouchedLeaf(i))
  }

  /** The plan of a touched set; it depends on the positions only. */
  function PlanOf(ps: seq<nat>, depth: nat): Plan
    requires ps != []
  {
    var (combines, root) := Derive(ps, LeafRefs(|ps|), 0, 0, depth);
    Plan(|ps|, Frontier(ps, 0, depth), combines, root)
  }

  lemma {:induction false} DeriveCount(ps: seq<nat>, refs: seq<NodeRef>, sibling: nat, combine: nat, level: nat,
                                       depth: nat)
    requires Canonical(ps, depth) && |refs| == |ps|
    ensures |Derive(ps, refs, sibling, combine, depth).0| + 1 == |ps| + |Frontier(ps, level, depth)|
    decreases depth
  {
    hide Missing, Parents, LevelCombines;
    if depth == 0 {
      assert ps[0] == 0 && ps[|ps| - 1] == 0;
    } else {
      var parents := Parents(ps);
      ParentsCanonical(ps, depth);
      DeriveCount(parents, CombineRefs(combine, |parents|), sibling + |Missing(ps)|, combine + |parents|, level + 1,
                  depth - 1);
    }
  }

  /** A plan has one combine fewer than it has leaves and siblings. */
  lemma PlanCount(ps: seq<nat>, depth: nat)
    requires Canonical(ps, depth)
    ensures |PlanOf(ps, depth).combines| == |ps| + |PlanOf(ps, depth).frontierPositions| - 1
  {
    DeriveCount(ps, LeafRefs(|ps|), 0, 0, 0, depth);
  }

  // ---------------------------------------------------------------------
  // Evaluating
  // ---------------------------------------------------------------------

  /** A ref names something that is there. */
  predicate Resolves(ref: NodeRef, leaves: nat, siblings: nat, done: nat) {
    match ref
    case TouchedLeaf(n) => n < leaves
    case FrontierSibling(n) => n < siblings
    case Combine(n) => n < done
  }

  function NodeOf(ref: NodeRef, leaves: seq<StateHash>, siblings: seq<StateHash>, done: seq<StateHash>): StateHash
    requires Resolves(ref, |leaves|, |siblings|, |done|)
  {
    match ref
    case TouchedLeaf(n) => leaves[n]
    case FrontierSibling(n) => siblings[n]
    case Combine(n) => done[n]
  }

  /** Every combine refers to leaves, siblings and earlier combines only. */
  ghost predicate Grounded(combines: seq<StructuralCombine>, leaves: nat, siblings: nat, done: nat) {
    forall i :: 0 <= i < |combines| ==>
      Resolves(combines[i].left, leaves, siblings, done + i) && Resolves(combines[i].right, leaves, siblings, done + i)
  }

  /** The hashes after running the combines in order. */
  function Evaluate(h: Hasher, combines: seq<StructuralCombine>, leaves: seq<StateHash>, siblings: seq<StateHash>,
                    done: seq<StateHash>): (hashes: seq<StateHash>)
    requires Grounded(combines, |leaves|, |siblings|, |done|)
    ensures |hashes| == |done| + |combines|
    decreases |combines|
  {
    if combines == [] then done
    else
      assert Resolves(combines[0].left, |leaves|, |siblings|, |done|);
      var hash := NodeHash(h, NodeOf(combines[0].left, leaves, siblings, done),
                           NodeOf(combines[0].right, leaves, siblings, done));
      GroundedRest(combines, |leaves|, |siblings|, |done|);
      Evaluate(h, combines[1..], leaves, siblings, done + [hash])
  }

  lemma GroundedRest(combines: seq<StructuralCombine>, leaves: nat, siblings: nat, done: nat)
    requires Grounded(combines, leaves, siblings, done) && combines != []
    ensures Grounded(combines[1..], leaves, siblings, done + 1)
  {
    var rest := combines[1..];
    forall i | 0 <= i < |rest|
      ensures Resolves(rest[i].left, leaves, siblings, done + 1 + i)
              && Resolves(rest[i].right, leaves, siblings, done + 1 + i)
    {
      assert rest[i] == combines[i + 1];
    }
  }

  /** The refs stand for the listed hashes. */
  ghost predicate StandFor(refs: seq<NodeRef>, hashes: seq<StateHash>, leaves: seq<StateHash>, siblings: seq<StateHash>,
                           done: seq<StateHash>)
  {
    && |refs| == |hashes|
    && forall i :: 0 <= i < |refs| ==>
         Resolves(refs[i], |leaves|, |siblings|, |done|) && NodeOf(refs[i], leaves, siblings, done) == hashes[i]
  }

  lemma StandForMore(refs: seq<NodeRef>, hashes: seq<StateHash>, leaves: seq<StateHash>, siblings: seq<StateHash>,
                     done: seq<StateHash>, more: StateHash, n: nat)
    requires StandFor(refs, hashes, leaves, siblings, done) && n <= |refs|
    ensures StandFor(refs[n..], hashes[n..], leaves, siblings, done + [more])
  {
  }

  /** Running one level's combines appends the level's parent hashes. */
  lemma {:induction false} LevelEvaluates(h: Hasher, ps: seq<nat>, refs: seq<NodeRef>, hashes: seq<StateHash>,
                                          leaves: seq<StateHash>, siblings: seq<StateHash>, done: seq<StateHash>,
                                              sibling: nat)
    requires StandFor(refs, hashes, leaves, siblings, done) && |refs| == |ps| && sibling + |Missing(ps)| <= |siblings|
    ensures Grounded(LevelCombines(ps, refs, sibling), |leaves|, |siblings|, |done|)
    ensures Evaluate(h, LevelCombines(ps, refs, sibling), leaves, siblings, done)
         == done + ParentHashes(h, ps, hashes, siblings[sibling..sibling + |Missing(ps)|])
    decreases |ps|
  {
    hide Missing, Parents, ParentHashes, Evaluate, LevelCombines, StandFor;
    var own := siblings[sibling..sibling + |Missing(ps)|];
    StandForSizes(refs, hashes, leaves, siblings, done);
    if ps == [] {
      NoParents(h, hashes, own);
      LevelStep(ps, refs, sibling);
      EvaluateNone(h, leaves, siblings, done);
    } else {
      var n, m := if Paired(ps) then 2 else 1, if Paired(ps) then 0 else 1;
      if Paired(ps) {
        UnfoldPair(h, ps, hashes, own);
      } else {
        UnfoldSingle(h, ps, hashes, own);
      }
      var first := ParentHashes(h, ps, hashes, own)[0];
      var rest := LevelCombines(ps[n..], refs[n..], sibling + m);
      LevelStep(ps, refs, sibling);
      StandForMore(refs, hashes, leaves, siblings, done, first, n);
      LevelEvaluates(h, ps[n..], refs[n..], hashes[n..], leaves, siblings, done + [first], sibling + m);
      FirstCombine(h, ps, refs, hashes, leaves, siblings, done, sibling);
      EvaluateStep(h, LevelCombines(ps, refs, sibling)[0], rest, leaves, siblings, done);
      assert own[m..] == siblings[sibling + m..sibling + m + |Missing(ps[n..])|];
    }
  }

  lemma StandForSizes(refs: seq<NodeRef>, hashes: seq<StateHash>, leaves: seq<StateHash>, siblings: seq<StateHash>,
                      done: seq<StateHash>)
    requires StandFor(refs, hashes, leaves, siblings, done)
    ensures |refs| == |hashes|
  {
  }

  lemma LevelStep(ps: seq<nat>, refs: seq<NodeRef>, sibling: nat)
    requires |refs| == |ps|
    ensures ps == [] ==> LevelCombines(ps, refs, sibling) == []
    ensures ps != [] ==>
              var n, m := if Paired(ps) then 2 else 1, if Paired(ps) then 0 else 1;
              LevelCombines(ps, refs, sibling)
              == [if Paired(ps) then StructuralCombine(refs[0], refs[1])
                  else if ps[0] % 2 == 0 then StructuralCombine(refs[0], FrontierSibling(sibling))
                  else StructuralCombine(FrontierSibling(sibling), refs[0])]
               + LevelCombines(ps[n..], refs[n..], sibling + m)
  {
  }

  lemma FirstCombine(h: Hasher, ps: seq<nat>, refs: seq<NodeRef>, hashes: seq<StateHash>, leaves: seq<StateHash>,
                     siblings: seq<StateHash>, done: seq<StateHash>, sibling: nat)
    requires ps != [] && |refs| == |ps| && StandFor(refs, hashes, leaves, siblings, done)
    requires sibling + |Missing(ps)| <= |siblings|
    ensures var c := LevelCombines(ps, refs, sibling)[0];
            && Resolves(c.left, |leaves|, |siblings|, |done|) && Resolves(c.right, |leaves|, |siblings|, |done|)
            && NodeHash(h, NodeOf(c.left, leaves, siblings, done), NodeOf(c.right, leaves, siblings, done))
               == ParentHashes(h, ps, hashes, siblings[sibling..sibling + |Missing(ps)|])[0]
  {
    hide Missing, Parents, ParentHashes, LevelCombines;
    var own := siblings[sibling..sibling + |Missing(ps)|];
    LevelStep(ps, refs, sibling);
    if Paired(ps) {
      UnfoldPair(h, ps, hashes, own);
    } else {
      UnfoldSingle(h, ps, hashes, own);
      assert own[0] == siblings[sibling];
    }
  }

  lemma EvaluateNone(h: Hasher, leaves: seq<StateHash>, siblings: seq<StateHash>, done: seq<StateHash>)
    ensures Evaluate(h, [], leaves, siblings, done) == done
  {
  }

  lemma EvaluateStep(h: Hasher, first: StructuralCombine, rest: seq<StructuralCombine>, leaves: seq<StateHash>,
                     siblings: seq<StateHash>, done: seq<StateHash>)
    requires Resolves(first.left, |leaves|, |siblings|, |done|) && Resolves(first.right, |leaves|, |siblings|, |done|)
    requires Grounded(rest, |leaves|, |siblings|, |done| + 1)
    ensures Grounded([first] + rest, |leaves|, |siblings|, |done|)
    ensures Evaluate(h, [first] + rest, leaves, siblings, done)
         == Evaluate(h, rest, leaves, siblings,
                     done + [NodeHash(h, NodeOf(first.left, leaves, siblings, done),
                                      NodeOf(first.right, leaves, siblings, done))])
  {
    var all := [first] + rest;
    forall i | 0 <= i < |all|
      ensures Resolves(all[i].left, |leaves|, |siblings|, |done| + i)
              && Resolves(all[i].right, |leaves|, |siblings|, |done| + i)
    {
      if i > 0 {
        assert all[i] == rest[i - 1];
      }
    }
    assert all[1..] == rest;
  }

  lemma {:induction false} EvaluateConcat(h: Hasher, a: seq<StructuralCombine>, b: seq<StructuralCombine>,
                                          leaves: seq<StateHash>, siblings: seq<StateHash>, done: seq<StateHash>)
    requires Grounded(a, |leaves|, |siblings|, |done|) && Grounded(b, |leaves|, |siblings|, |done| + |a|)
    ensures Grounded(a + b, |leaves|, |siblings|, |done|)
    ensures Evaluate(h, a + b, leaves, siblings, done)
         == Evaluate(h, b, leaves, siblings, Evaluate(h, a, leaves, siblings, done))
    decreases |a|
  {
    if a == [] {
      assert a + b == b;
    } else {
      assert Resolves(a[0].left, |leaves|, |siblings|, |done|);
      var hash := NodeHash(h, NodeOf(a[0].left, leaves, siblings, done), NodeOf(a[0].right, leaves, siblings, done));
      GroundedRest(a, |leaves|, |siblings|, |done|);
      EvaluateConcat(h, a[1..], b, leaves, siblings, done + [hash]);
      EvaluateStep(h, a[0], a[1..] + b, leaves, siblings, done);
      assert [a[0]] + (a[1..] + b) == a + b;
    }
  }

  lemma CombinesStandFor(first: nat, hashes: seq<StateHash>, leaves: seq<StateHash>, siblings: seq<StateHash>,
                         done: seq<StateHash>)
    requires |done| == first
    ensures StandFor(CombineRefs(first, |hashes|), hashes, leaves, siblings, done + hashes)
  {
  }

  /** A plan derived from positions, run on any leaves and siblings, computes what reconstruction does. */
  lemma {:induction false} DeriveComputes(h: Hasher, ps: seq<nat>, refs: seq<NodeRef>, hashes: seq<StateHash>,
                                          leaves: seq<StateHash>, siblings: seq<StateHash>, done: seq<StateHash>,
                                              sibling: nat, level: nat, depth: nat)
    requires Canonical(ps, depth) && |refs| == |ps| && StandFor(refs, hashes, leaves, siblings, done)
    requires sibling + |Frontier(ps, level, depth)| == |siblings|
    ensures var (combines, root) := Derive(ps, refs, sibling, |done|, depth);
            && Grounded(combines, |leaves|, |siblings|, |done|)
            && var all := Evaluate(h, combines, leaves, siblings, done);
               && Resolves(root, |leaves|, |siblings|, |all|) && |hashes| == |ps|
               && NodeOf(root, leaves, siblings, all) == Reconstruct(h, ps, hashes, siblings[sibling..], level, depth)
    decreases depth
  {
    hide Missing, Parents, ParentHashes, Evaluate, LevelCombines, StandFor, Grounded;
    StandForSizes(refs, hashes, leaves, siblings, done);
    if depth == 0 {
      NothingToRun(h, refs, hashes, leaves, siblings, done);
    } else {
      var here, parents := |Missing(ps)|, Parents(ps);
      var own := siblings[sibling..sibling + here];
      var above := ParentHashes(h, ps, hashes, own);
      var combines, more := LevelCombines(ps, refs, sibling), CombineRefs(|done|, |parents|);
      LevelEvaluates(h, ps, refs, hashes, leaves, siblings, done, sibling);
      CombinesStandFor(|done|, above, leaves, siblings, done);
      ParentsCanonical(ps, depth);
      DeriveComputes(h, parents, more, above, leaves, siblings, done + above, sibling + here, level + 1, depth - 1);
      var (rest, root) := Derive(parents, more, sibling + here, |done| + |parents|, depth - 1);
      EvaluateConcat(h, combines, rest, leaves, siblings, done);
      assert siblings[sibling..][..here] == own && siblings[sibling..][here..] == siblings[sibling + here..];
    }
  }

  lemma NothingToRun(h: Hasher, refs: seq<NodeRef>, hashes: seq<StateHash>, leaves: seq<StateHash>,
                     siblings: seq<StateHash>, done: seq<StateHash>)
    requires refs != [] && StandFor(refs, hashes, leaves, siblings, done)
    ensures Grounded([], |leaves|, |siblings|, |done|) && Evaluate(h, [], leaves, siblings, done) == done
    ensures Resolves(refs[0], |leaves|, |siblings|, |done|) && NodeOf(refs[0], leaves, siblings, done) == hashes[0]
  {
  }

  lemma LeavesStandFor(leaves: seq<StateHash>, siblings: seq<StateHash>)
    ensures StandFor(LeafRefs(|leaves|), leaves, leaves, siblings, [])
  {
  }

  /**
   The plan's meaning, for every canonical touched set and every choice of leaves and siblings of the right length.
   */
  lemma PlanComputesRoot(h: Hasher, ps: seq<nat>, leaves: seq<StateHash>, siblings: seq<StateHash>, depth: nat)
    requires Canonical(ps, depth) && |leaves| == |ps| && |siblings| == |Frontier(ps, 0, depth)|
    ensures var plan := PlanOf(ps, depth);
            && Grounded(plan.combines, |leaves|, |siblings|, 0)
            && var all := Evaluate(h, plan.combines, leaves, siblings, []);
               && Resolves(plan.root, |leaves|, |siblings|, |all|)
               && NodeOf(plan.root, leaves, siblings, all) == Reconstruct(h, ps, leaves, siblings, 0, depth)
  {
    hide Frontier, Reconstruct, Derive, Evaluate, Grounded, StandFor;
    LeavesStandFor(leaves, siblings);
    DeriveComputes(h, ps, LeafRefs(|ps|), leaves, leaves, siblings, [], 0, 0, depth);
    assert siblings[0..] == siblings;
  }

  // ---------------------------------------------------------------------
  // The loops
  // ---------------------------------------------------------------------

  method DerivePlan(indices: seq<nat>, depth: nat) returns (plan: Result<Plan, Error>)
    ensures plan.Ok? <==> depth <= MAX_DEPTH && Canonical(indices, depth)
    ensures plan.Ok? ==> plan.value == PlanOf(indices, depth)
  {
    hide Missing, Parents, LevelCombines, Frontier, Derive;
    var fault := ValidateIndices(indices, depth);
    if fault.Some? {
      return Err(fault.value);
    }
    var known, refs, combines, siblings: nat := indices, LeafRefs(|indices|), [], 0;
    ghost var wanted := Derive(indices, refs, 0, 0, depth);
    for level := 0 to depth
      invariant Canonical(known, depth - level) && |refs| == |known|
      invariant var (rest, root) := Derive(known, refs, siblings, |combines|, depth - level);
                combines + rest == wanted.0 && root == wanted.1
    {
      ParentsCanonical(known, depth - level);
      DeriveStep(known, refs, siblings, |combines|, depth - level);
      var first := |combines|;
      combines := combines + LevelCombines(known, refs, siblings);
      siblings := siblings + |Missing(known)|;
      known := Parents(known);
      refs := CombineRefs(first, |known|);
    }
    DeriveStep(known, refs, siblings, |combines|, 0);
    return Ok(Plan(|indices|, Frontier(indices, 0, depth), combines, refs[0]));
  }

  /** Runs a plan: every combine once, in order, then the root; refuses leaf and sibling lists of another length. */
  method EvaluatePlan(h: Hasher, plan: Plan, leaves: seq<StateHash>, siblings: seq<StateHash>)
    returns (root: Result<StateHash, Error>, hashes: seq<StateHash>)
    requires |leaves| == plan.touchedLeafCount && |siblings| == |plan.frontierPositions| ==>
               && Grounded(plan.combines, |leaves|, |siblings|, 0)
               && Resolves(plan.root, |leaves|, |siblings|, |plan.combines|)
    ensures root.Ok? <==> |leaves| == plan.touchedLeafCount && |siblings| == |plan.frontierPositions|
    ensures root.Ok? ==>
              && hashes == Evaluate(h, plan.combines, leaves, siblings, [])
              && root.value == NodeOf(plan.root, leaves, siblings, hashes)
  {
    hashes := [];
    if |leaves| != plan.touchedLeafCount {
      return Err(LeafCountMismatch), [];
    }
    if |siblings| != |plan.frontierPositions| {
      return Err(ProofLengthMismatch), [];
    }
    assert plan.combines[0..] == plan.combines;
    for i := 0 to |plan.combines|
      invariant |hashes| == i && Grounded(plan.combines[i..], |leaves|, |siblings|, i)
      invariant Evaluate(h, plan.combines[i..], leaves, siblings, hashes)
             == Evaluate(h, plan.combines, leaves, siblings, [])
    {
      var combine := plan.combines[i];
      assert plan.combines[i..][1..] == plan.combines[i + 1..] && plan.combines[i..][0] == combine;
      GroundedRest(plan.combines[i..], |leaves|, |siblings|, i);
      hashes := hashes + [NodeHash(h, NodeOf(combine.left, leaves, siblings, hashes),
                                   NodeOf(combine.right, leaves, siblings, hashes))];
    }
    assert plan.combines[|plan.combines|..] == [];
    return Ok(NodeOf(plan.root, leaves, siblings, hashes)), hashes;
  }

  // ---------------------------------------------------------------------
  // Padding to a proof class
  // ---------------------------------------------------------------------

  /** A frontier filled up to the class capacity. */
  function FilledUp(siblings: seq<StateHash>, capacity: nat, pad: StateHash): (padded: seq<StateHash>)
    requires |siblings| <= capacity
    ensures |padded| == capacity
  {
    siblings + seq(capacity - |siblings|, _ => pad)
  }

  /** `padded` is the filled-up frontier of a canonical touched set. */
  ghost predicate PadsTo(indices: seq<nat>, live: seq<StateHash>, depth: nat, capacity: nat, pad: StateHash,
                         padded: seq<StateHash>)
  {
    && depth <= MAX_DEPTH && Canonical(indices, depth) && |live| == |Frontier(indices, 0, depth)| <= capacity
    && padded == FilledUp(live, capacity, pad)
  }

  datatype PaddingError =
    | BadFrontier(error: Error)
    | FrontierCapacityExceeded
    | PaddedProofLengthMismatch
    | NonCanonicalPadding

  method PadFrontier(indices: seq<nat>, siblings: seq<StateHash>, depth: nat, capacity: nat, pad: StateHash)
    returns (padded: Result<seq<StateHash>, PaddingError>)
    ensures padded.Ok? <==>
              depth <= MAX_DEPTH && Canonical(indices, depth) && |siblings| == |Frontier(indices, 0, depth)| <= capacity
    ensures padded.Ok? ==> PadsTo(indices, siblings, depth, capacity, pad, padded.value)
  {
    var required := ExpectedSiblingCount(indices, depth);
    if required.Err? {
      return Err(BadFrontier(required.error));
    }
    if |siblings| != required.value {
      return Err(BadFrontier(ProofLengthMismatch));
    }
    if required.value > capacity {
      return Err(FrontierCapacityExceeded);
    }
    return Ok(FilledUp(siblings, capacity, pad));
  }

  /**
   The live prefix of a padded frontier: accepted exactly when it is the padding of one frontier of the derived length,
   which is then what comes back. A live sibling equal to the pad is not confused with padding.
   */
  method UnpadFrontier(indices: seq<nat>, padded: seq<StateHash>, depth: nat, capacity: nat, pad: StateHash)
    returns (siblings: Result<seq<StateHash>, PaddingError>)
    ensures siblings.Ok? ==> PadsTo(indices, siblings.value, depth, capacity, pad, padded)
    ensures forall live :: PadsTo(indices, live, depth, capacity, pad, padded) ==> siblings == Ok(live)
  {
    if |padded| != capacity {
      return Err(PaddedProofLengthMismatch);
    }
    var required := ExpectedSiblingCount(indices, depth);
    if required.Err? {
      return Err(BadFrontier(required.error));
    }
    var n := required.value;
    if n > capacity {
      return Err(FrontierCapacityExceeded);
    }
    for i := n to capacity
      invariant forall k :: n <= k < i ==> padded[k] == pad
    {
      if padded[i] != pad {
        return Err(NonCanonicalPadding);
      }
    }
    assert padded == FilledUp(padded[..n], capacity, pad);
    return Ok(padded[..n]);
  }
}
