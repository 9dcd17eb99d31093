/** The verifier's loops over sorted touched sets, and how many siblings they can ever need. */
module MultiproofVerifier {
  import opened Options
  import opened Powers
  import opened PairHashing
  import opened StateHashing
  import opened SparseMultiproof

  datatype Error =
    | InvalidDepth
    | EmptyIndices
    | LeafCountMismatch
    | UnsortedIndices
    | DuplicateIndex
    | IndexOutOfRange
    | ProofLengthMismatch
    | CacheDepthMismatch

  const MAX_DEPTH: nat := 32

  /** The first reason an index list is not canonical, if any. */
  method ValidateIndices(indices: seq<nat>, depth: nat) returns (fault: Option<Error>)
    ensures fault.None? <==> depth <= MAX_DEPTH && Canonical(indices, depth)
    ensures fault == Some(InvalidDepth) <==> depth > MAX_DEPTH
    ensures fault == Some(EmptyIndices) <==> depth <= MAX_DEPTH && indices == []
    ensures fault.Some? ==>
              fault.value in {InvalidDepth, EmptyIndices, UnsortedIndices, DuplicateIndex, IndexOutOfRange}
    ensures fault.Some? && fault.value in {UnsortedIndices, DuplicateIndex, IndexOutOfRange} ==>
              exists k :: && 0 <= k < |indices| && (k > 0 ==> Canonical(indices[..k], depth))
                          && fault == Some(FaultAt(indices, k, depth))
  {
    if depth > MAX_DEPTH {
      return Some(InvalidDepth);
    }
    if indices == [] {
      return Some(EmptyIndices);
    }
    for i := 0 to |indices|
      invariant i > 0 ==> Canonical(indices[..i], depth)
    {
      if indices[i] >= Pow2(depth) {
        assert FaultAt(indices, i, depth) == IndexOutOfRange;
        return Some(IndexOutOfRange);
      }
      if i > 0 {
        if indices[i] < indices[i - 1] {
          assert FaultAt(indices, i, depth) == UnsortedIndices;
          return Some(UnsortedIndices);
        }
        if indices[i] == indices[i - 1] {
          assert FaultAt(indices, i, depth) == DuplicateIndex;
          return Some(DuplicateIndex);
        }
        assert indices[..i][i - 1] == indices[i - 1];
      }
      assert indices[..i + 1] == indices[..i] + [indices[i]];
    }
    assert indices[..|indices|] == indices;
    return None;
  }

  /** What is wrong with index `k` after a canonical prefix. */
  function FaultAt(indices: seq<nat>, k: nat, depth: nat): Error
    requires k < |indices|
  {
    if indices[k] >= Pow2(depth) then IndexOutOfRange
    else if k > 0 && indices[k] < indices[k - 1] then UnsortedIndices
    else DuplicateIndex
  }

  // ---------------------------------------------------------------------
  // One level of the verifier's climb
  // ---------------------------------------------------------------------

  /** Where a position stands in a sorted list, or the length if it is absent. */
  function Find(ps: seq<nat>, p: nat): (at: nat)
    ensures at <= |ps| && (at < |ps| ==> ps[at] == p) && (at == |ps| ==> p !in ps)
  {
    if ps == [] || ps[0] == p then 0 else 1 + Find(ps[1..], p)
  }

  function Base(p: nat): nat {
    p - p % 2
  }

  /** The scan, at `i`, has already hashed this parent: its left child stood just before. */
  predicate Seen(ps: seq<nat>, i: nat)
    requires i < |ps|
  {
    i > 0 && Base(ps[i - 1]) == Base(ps[i])
  }

  /** Parents met before `i`. */
  function Bases(ps: seq<nat>, i: nat): set<nat>
    requires i <= |ps|
  {
    set k | 0 <= k < i :: Base(ps[k])
  }

  lemma SeenIsProcessed(ps: seq<nat>, i: nat)
    requires Ascending(ps) && i < |ps|
    ensures Base(ps[i]) in Bases(ps, i) <==> Seen(ps, i)
    ensures Bases(ps, i + 1) == Bases(ps, i) + {Base(ps[i])}
  {
    if Base(ps[i]) in Bases(ps, i) {
      var k :| 0 <= k < i && Base(ps[k]) == Base(ps[i]);
      assert ps[k] <= ps[i - 1] < ps[i];
    }
  }

  /** A parent met for the first time has both children next, or the next one only. */
  lemma FreshParent(ps: seq<nat>, i: nat)
    requires Ascending(ps) && i < |ps| && !Seen(ps, i)
    ensures Paired(ps[i..]) ==> Base(ps[i]) == ps[i] && Base(ps[i]) + 1 == ps[i + 1]
    ensures !Paired(ps[i..]) && ps[i] % 2 == 0 ==> Base(ps[i]) + 1 !in ps
    ensures !Paired(ps[i..]) && ps[i] % 2 == 1 ==> Base(ps[i]) !in ps
    ensures i + 1 < |ps| ==> Seen(ps, i + 1) == Paired(ps[i..])
  {
    forall j | 0 <= j < |ps|
      ensures !Paired(ps[i..]) && ps[i] % 2 == 0 ==> ps[j] != ps[i] + 1
      ensures ps[i] % 2 == 1 ==> ps[j] != ps[i] - 1
    {
      assert i + 1 < j ==> ps[i] < ps[i + 1] < ps[j];
      assert j < i - 1 ==> ps[j] < ps[i - 1] < ps[i];
    }
  }

  /** The scan has consumed `ps[..at]` and `own[..cursor]`; what it built is a prefix of the level's answer. */
  ghost predicate Climbed(h: Hasher, ps: seq<nat>, hashes: seq<StateHash>, own: seq<StateHash>, at: nat, cursor: nat,
                          parents: seq<nat>, parentHashes: seq<StateHash>)
    requires |hashes| == |ps| && |own| == |Missing(ps)|
  {
    && at <= |ps| && cursor <= |own| && cursor + |Missing(ps[at..])| == |own|
    && parents + Parents(ps[at..]) == Parents(ps)
    && parentHashes + ParentHashes(h, ps[at..], hashes[at..], own[cursor..]) == ParentHashes(h, ps, hashes, own)
  }

  lemma ClimbPair(h: Hasher, ps: seq<nat>, hashes: seq<StateHash>, own: seq<StateHash>, at: nat, cursor: nat,
                  parents: seq<nat>, parentHashes: seq<StateHash>)
    requires |hashes| == |ps| && |own| == |Missing(ps)| && at < |ps| && Paired(ps[at..])
    requires Climbed(h, ps, hashes, own, at, cursor, parents, parentHashes)
    ensures Climbed(h, ps, hashes, own, at + 2, cursor, parents + [ps[at] / 2],
                    parentHashes + [NodeHash(h, hashes[at], hashes[at + 1])])
  {
    hide Missing, Parents, ParentHashes;
    UnfoldPair(h, ps[at..], hashes[at..], own[cursor..]);
    assert ps[at..][2..] == ps[at + 2..] && hashes[at..][2..] == hashes[at + 2..];
  }

  lemma ClimbSingle(h: Hasher, ps: seq<nat>, hashes: seq<StateHash>, own: seq<StateHash>, at: nat, cursor: nat,
                    parents: seq<nat>, parentHashes: seq<StateHash>)
    requires |hashes| == |ps| && |own| == |Missing(ps)| && at < |ps| && !Paired(ps[at..])
    requires Climbed(h, ps, hashes, own, at, cursor, parents, parentHashes)
    ensures cursor < |own|
    ensures Climbed(h, ps, hashes, own, at + 1, cursor + 1, parents + [ps[at] / 2],
                    parentHashes + [Joined(h.node, ps[at], hashes[at], own[cursor])])
  {
    hide Missing, Parents, ParentHashes;
    UnfoldSingle(h, ps[at..], hashes[at..], own[cursor..]);
    assert ps[at..][1..] == ps[at + 1..] && hashes[at..][1..] == hashes[at + 1..];
    assert own[cursor..][1..] == own[cursor + 1..];
  }

  lemma ClimbStart(h: Hasher, ps: seq<nat>, hashes: seq<StateHash>, own: seq<StateHash>)
    requires |hashes| == |ps| && |own| == |Missing(ps)|
    ensures Climbed(h, ps, hashes, own, 0, 0, [], [])
  {
    hide Missing, Parents, ParentHashes;
    assert ps[0..] == ps && hashes[0..] == hashes && own[0..] == own;
  }

  lemma ClimbEnd(h: Hasher, ps: seq<nat>, hashes: seq<StateHash>, own: seq<StateHash>, cursor: nat,
                 parents: seq<nat>, parentHashes: seq<StateHash>)
    requires |hashes| == |ps| && |own| == |Missing(ps)|
    requires Climbed(h, ps, hashes, own, |ps|, cursor, parents, parentHashes)
    ensures cursor == |own| && parents == Parents(ps) && parentHashes == ParentHashes(h, ps, hashes, own)
  {
    assert ps[|ps|..] == [];
  }

  /** Looks up both children of an unseen parent and hashes them, drawing a missing one from the proof. */
  method HashParent(h: Hasher, ps: seq<nat>, hashes: seq<StateHash>, siblings: seq<StateHash>, i: nat, cursor: nat)
    returns (parent: StateHash, used: nat)
    requires Ascending(ps) && |hashes| == |ps| && i < |ps| && !Seen(ps, i)
    requires !Paired(ps[i..]) ==> cursor < |siblings|
    ensures Paired(ps[i..]) ==> used == cursor && parent == NodeHash(h, hashes[i], hashes[i + 1])
    ensures !Paired(ps[i..]) ==>
              && used == cursor + 1
              && parent == Joined(h.node, ps[i], hashes[i], siblings[cursor])
  {
    FreshParent(ps, i);
    var left, right := Find(ps, Base(ps[i])), Find(ps, Base(ps[i]) + 1);
    used := cursor;
    if left < |ps| && right < |ps| {
      parent := NodeHash(h, hashes[left], hashes[right]);
    } else if left < |ps| {
      parent := NodeHash(h, hashes[left], siblings[cursor]);
      used := cursor + 1;
    } else {
      parent := NodeHash(h, siblings[cursor], hashes[right]);
      used := cursor + 1;
    }
  }

  /** One level: hash every touched parent once, in order, taking missing siblings from the proof. */
  method LevelUp(h: Hasher, ps: seq<nat>, hashes: seq<StateHash>, siblings: seq<StateHash>)
    returns (parents: seq<nat>, parentHashes: seq<StateHash>, cursor: nat)
    requires Ascending(ps) && |hashes| == |ps| && |siblings| >= |Missing(ps)|
    ensures cursor == |Missing(ps)| && parents == Parents(ps)
    ensures parentHashes == ParentHashes(h, ps, hashes, siblings[..cursor])
  {
    hide Missing, Parents, ParentHashes, Climbed;
    var processed: set<nat> := {};
    ghost var own := siblings[..|Missing(ps)|];
    parents, parentHashes, cursor := [], [], 0;
    ClimbStart(h, ps, hashes, own);
    for i := 0 to |ps|
      invariant processed == Bases(ps, i)
      invariant Climbed(h, ps, hashes, own, if i < |ps| && Seen(ps, i) then i + 1 else i, cursor, parents, parentHashes)
    {
      SeenIsProcessed(ps, i);
      if Base(ps[i]) in processed {
        continue;
      }
      processed := processed + {Base(ps[i])};
      if Paired(ps[i..]) {
        ClimbPair(h, ps, hashes, own, i, cursor, parents, parentHashes);
      } else {
        ClimbSingle(h, ps, hashes, own, i, cursor, parents, parentHashes);
      }
      FreshParent(ps, i);
      var parent, used := HashParent(h, ps, hashes, siblings, i, cursor);
      cursor := used;
      parents := parents + [Base(ps[i]) / 2];
      parentHashes := parentHashes + [parent];
    }
    ClimbEnd(h, ps, hashes, own, cursor, parents, parentHashes);
  }

  /** The number of siblings a canonical touched set needs. */
  method ExpectedSiblingCount(indices: seq<nat>, depth: nat) returns (count: Result<nat, Error>)
    ensures count.Ok? <==> depth <= MAX_DEPTH && Canonical(indices, depth)
    ensures count.Ok? ==> count.value == |Frontier(indices, 0, depth)|
  {
    var fault := ValidateIndices(indices, depth);
    if fault.Some? {
      return Err(fault.value);
    }
    var known, total := indices, 0;
    for level := 0 to depth
      invariant total + |Frontier(known, level, depth - level)| == |Frontier(indices, 0, depth)|
    {
      total := total + |Missing(known)|;
      known := Parents(known);
    }
    return Ok(total);
  }

  /** One level of the reconstruction. */
  lemma ReconstructStep(h: Hasher, ps: seq<nat>, hashes: seq<StateHash>, siblings: seq<StateHash>, level: nat,
                        depth: nat)
    requires ps != [] && |hashes| == |ps| && |siblings| == |Frontier(ps, level, depth)|
    ensures depth == 0 ==> Reconstruct(h, ps, hashes, siblings, level, depth) == hashes[0]
    ensures depth > 0 ==>
              var here := |Missing(ps)|;
              && here <= |siblings| && |siblings[here..]| == |Frontier(Parents(ps), level + 1, depth - 1)|
              && Reconstruct(h, ps, hashes, siblings, level, depth)
                 == Reconstruct(h, Parents(ps), ParentHashes(h, ps, hashes, siblings[..here]), siblings[here..],
                                level + 1, depth - 1)
  {
    hide Missing, Parents, ParentHashes;
  }

  /** Rebuilds the root from touched leaves and proof siblings, refusing anything but an exact canonical proof. */
  method ReconstructRoot(h: Hasher, indices: seq<nat>, leaves: seq<StateHash>, siblings: seq<StateHash>, depth: nat)
    returns (root: Result<StateHash, Error>)
    ensures root.Ok? <==>
              && |leaves| == |indices| && depth <= MAX_DEPTH && Canonical(indices, depth)
              && |siblings| == |Frontier(indices, 0, depth)|
    ensures root.Ok? ==> root.value == Reconstruct(h, indices, leaves, siblings, 0, depth)
  {
    hide Missing, Parents, ParentHashes, Reconstruct, Frontier;
    if |indices| != |leaves| {
      return Err(LeafCountMismatch);
    }
    var expected := ExpectedSiblingCount(indices, depth);
    if expected.Err? {
      return Err(expected.error);
    }
    if |siblings| != expected.value {
      return Err(ProofLengthMismatch);
    }
    var known, hashes, rest := indices, leaves, siblings;
    for level := 0 to depth
      invariant Canonical(known, depth - level) && |hashes| == |known|
      invariant |rest| == |Frontier(known, level, depth - level)|
      invariant Reconstruct(h, known, hashes, rest, level, depth - level)
             == Reconstruct(h, indices, leaves, siblings, 0, depth)
    {
      ParentsCanonical(known, depth - level);
      ReconstructStep(h, known, hashes, rest, level, depth - level);
      var parents, parentHashes, used := LevelUp(h, known, hashes, rest);
      known, hashes, rest := parents, parentHashes, rest[used..];
    }
    ReconstructStep(h, known, hashes, rest, depth, 0);
    return Ok(hashes[0]);
  }

  // ---------------------------------------------------------------------
  // How many siblings a touched set can need
  // ---------------------------------------------------------------------

  function Min(a: nat, b: nat): nat {
    if a <= b then a else b
  }

  /** Touched leaves plus the most siblings they can need: levels stay as wide as the tree allows. */
  function Widest(touched: nat, depth: nat): nat
    decreases depth
  {
    if depth == 0 then touched
    else
      var above := Min(touched, Pow2(depth - 1));
      above + Widest(above, depth - 1)
  }

  lemma {:induction false} WidestMonotone(a: nat, b: nat, depth: nat)
    requires a <= b
    ensures Widest(a, depth) <= Widest(b, depth)
    decreases depth
  {
    if depth > 0 {
      WidestMonotone(Min(a, Pow2(depth - 1)), Min(b, Pow2(depth - 1)), depth - 1);
    }
  }

  lemma {:induction false} AscendingFits(ps: seq<nat>, bound: nat)
    requires Ascending(ps) && forall i :: 0 <= i < |ps| ==> ps[i] < bound
    ensures |ps| <= bound
  {
    if ps != [] {
      AscendingFits(ps[..|ps| - 1], ps[|ps| - 1]);
    }
  }

  /** No touched set needs more siblings than the widest one of its size. */
  lemma {:induction false} FrontierIsBounded(ps: seq<nat>, level: nat, depth: nat)
    requires Canonical(ps, depth)
    ensures |Frontier(ps, level, depth)| + |ps| <= Widest(|ps|, depth)
    decreases depth
  {
    hide Missing, Parents;
    if depth > 0 {
      var parents := Parents(ps);
      ParentsCanonical(ps, depth);
      FrontierIsBounded(parents, level + 1, depth - 1);
      AscendingFits(parents, Pow2(depth - 1));
      WidestMonotone(|parents|, Min(|ps|, Pow2(depth - 1)), depth - 1);
    }
  }

  /** Children of the listed parents: the first `both` keep both, the others their left child only. */
  function Children(parents: seq<nat>, both: nat): (children: seq<nat>)
    ensures |children| == |parents| + Min(both, |parents|)
  {
    if parents == [] then []
    else if both > 0 then [2 * parents[0], 2 * parents[0] + 1] + Children(parents[1..], both - 1)
    else [2 * parents[0]] + Children(parents[1..], 0)
  }

  lemma {:induction false} ChildrenAscend(parents: seq<nat>, both: nat, bound: nat)
    requires Ascending(parents) && forall i :: 0 <= i < |parents| ==> parents[i] < bound
    ensures Ascending(Children(parents, both))
    ensures forall i :: 0 <= i < |Children(parents, both)| ==> 2 * parents[0] <= Children(parents, both)[i] < 2 * bound
  {
    if parents != [] {
      ChildrenAscend(parents[1..], if both > 0 then both - 1 else 0, bound);
    }
  }

  lemma ParentsOfNone()
    ensures Parents([]) == []
  {
  }

  lemma ParentsOfFirst(p: nat, both: bool, rest: seq<nat>)
    requires rest != [] ==> rest[0] > 2 * p + 1
    ensures Parents((if both then [2 * p, 2 * p + 1] else [2 * p]) + rest) == [p] + Parents(rest)
  {
    hide Missing;
    var children := (if both then [2 * p, 2 * p + 1] else [2 * p]) + rest;
    assert Paired(children) == both;
    assert children[if both then 2 else 1..] == rest;
  }

  lemma {:induction false} ParentsOfChildren(parents: seq<nat>, both: nat, bound: nat)
    requires Ascending(parents) && forall i :: 0 <= i < |parents| ==> parents[i] < bound
    ensures Parents(Children(parents, both)) == parents
  {
    hide Parents;
    if parents == [] {
      ParentsOfNone();
    } else {
      var fewer := if both > 0 then both - 1 else 0;
      ParentsOfChildren(parents[1..], fewer, bound);
      ChildrenAscend(parents[1..], fewer, bound);
      ParentsOfFirst(parents[0], both > 0, Children(parents[1..], fewer));
    }
  }

  /** A touched set spread as evenly as the tree allows. */
  function Spread(touched: nat, depth: nat): (ps: seq<nat>)
    requires 1 <= touched <= Pow2(depth)
    ensures |ps| == touched
    decreases depth
  {
    if depth == 0 then [0]
    else
      var above := Min(touched, Pow2(depth - 1));
      Children(Spread(above, depth - 1), touched - above)
  }

  /** The bound is reached, for every size and depth. */
  lemma {:induction false} BoundIsReached(touched: nat, level: nat, depth: nat)
    requires 1 <= touched <= Pow2(depth)
    ensures Canonical(Spread(touched, depth), depth)
    ensures |Frontier(Spread(touched, depth), level, depth)| + touched == Widest(touched, depth)
    decreases depth
  {
    hide Missing, Parents, Children;
    if depth > 0 {
      var above := Min(touched, Pow2(depth - 1));
      BoundIsReached(above, level + 1, depth - 1);
      ChildrenAscend(Spread(above, depth - 1), touched - above, Pow2(depth - 1));
      ParentsOfChildren(Spread(above, depth - 1), touched - above, Pow2(depth - 1));
    }
  }

  /** `2^c` is the least power of two not below `touched`. */
  predicate Covering(touched: nat, c: nat) {
    touched <= Pow2(c) && if c == 0 then touched == 1 else Pow2(c - 1) < touched
  }

  /** The widest total in closed form. */
  lemma {:induction false} WidestClosedForm(touched: nat, c: nat, depth: nat)
    requires c <= depth && Covering(touched, c)
    ensures Widest(touched, depth) == (depth - c) * touched + Pow2(c)
    decreases depth
  {
    if depth > c {
      Pow2Monotone(c, depth - 1);
      WidestClosedForm(touched, c, depth - 1);
      assert (depth - c) * touched == (depth - 1 - c) * touched + touched;
    } else if c > 0 {
      PowerCoversItself(c - 1);
      WidestClosedForm(Pow2(c - 1), c - 1, depth - 1);
      assert 0 * touched == 0 * Pow2(c - 1) == 0;
    }
  }

  lemma PowerCoversItself(c: nat)
    ensures Covering(Pow2(c), c)
  {
  }

  method CoveringDepth(touched: nat, depth: nat) returns (c: nat)
    requires 1 <= touched <= Pow2(depth)
    ensures c <= depth && Covering(touched, c)
  {
    var power := 1;
    c := 0;
    while power < touched
      invariant c <= depth && power == Pow2(c)
      invariant c > 0 ==> Pow2(c - 1) < touched
      decreases depth - c
    {
      if c == depth {
        assert false;
      }
      power := 2 * power;
      c := c + 1;
    }
  }

  /** The proof-class capacity: exactly the most siblings any touched set of that size can need. */
  method MaximumSiblingCount(touched: nat, depth: nat) returns (maximum: nat)
    requires touched <= Pow2(depth)
    ensures touched == 0 ==> maximum == 0
    ensures touched > 0 ==> maximum + touched == Widest(touched, depth)
  {
    if touched == 0 {
      return 0;
    }
    var c := CoveringDepth(touched, depth);
    WidestClosedForm(touched, c, depth);
    maximum := (depth - c) * touched + Pow2(c) - touched;
  }

  /** The capacity is both sufficient for every touched set of the size and needed by one of them. */
  lemma CapacityIsExact(touched: nat, depth: nat, maximum: nat, ps: seq<nat>)
    requires 1 <= touched <= Pow2(depth) && maximum + touched == Widest(touched, depth)
    requires Canonical(ps, depth) && |ps| == touched
    ensures |Frontier(ps, 0, depth)| <= maximum
    ensures Canonical(Spread(touched, depth), depth) && |Frontier(Spread(touched, depth), 0, depth)| == maximum
  {
    FrontierIsBounded(ps, 0, depth);
    BoundIsReached(touched, 0, depth);
  }
}
