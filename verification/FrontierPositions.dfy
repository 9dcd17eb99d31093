/** Which nodes a frontier lists, said without climbing: untouched nodes beside touched ones, level by level. */
module FrontierPositions {
  import opened Powers
  import opened PairHashing
  import opened SparseMultiproof

  /** Node `q`, `up` levels above the listed ones, has one of them below it. */
  ghost predicate Touched(ps: seq<nat>, up: nat, q: nat) {
    exists p :: p in ps && Shr(p, up) == q
  }

  /** Missing siblings are the untouched nodes whose sibling is touched, in ascending order. */
  lemma {:induction false} MissingExactly(ps: seq<nat>)
    requires Ascending(ps)
    ensures forall q: nat :: q in Missing(ps) <==> q !in ps && Sibling(q) in ps
    ensures Ascending(Missing(ps))
    ensures Missing(ps) != [] ==> ps[0] / 2 <= Missing(ps)[0] / 2
  {
    hide Missing, Sibling;
    var n := if ps == [] then 0 else if Paired(ps) then 2 else 1;
    MissingOf(ps, n);
    if ps != [] {
      var rest := ps[n..];
      MissingExactly(rest);
      assert ps == ps[..n] + rest;
      forall q: nat
        ensures q in Missing(ps) <==> q !in ps && Sibling(q) in ps
      {
        MissingAt(ps, n, q);
      }
      if n == 1 && Missing(rest) != [] {
        SingleComesFirst(ps, Missing(rest)[0]);
      }
      assert n == 1 ==> Missing(ps) == [Sibling(ps[0])] + Missing(rest);
      SiblingParent(ps[0]);
    }
  }

  lemma SiblingParent(p: nat)
    ensures Sibling(p) / 2 == p / 2 && Sibling(Sibling(p)) == p && Sibling(p) != p
  {
  }

  /** One step of the scan, seen from one node. */
  lemma MissingAt(ps: seq<nat>, n: nat, q: nat)
    requires Ascending(ps) && ps != [] && n == if Paired(ps) then 2 else 1
    requires q in Missing(ps[n..]) <==> q !in ps[n..] && Sibling(q) in ps[n..]
    requires Missing(ps) == (if n == 2 then [] else [Sibling(ps[0])]) + Missing(ps[n..])
    ensures q in Missing(ps) <==> q !in ps && Sibling(q) in ps
  {
    hide Missing, Sibling;
    var front, rest := ps[..n], ps[n..];
    assert ps == front + rest;
    assert front == if n == 2 then [ps[0], ps[1]] else [ps[0]];
    SiblingParent(q);
    SiblingParent(ps[0]);
    if q in rest {
      AfterFirstParent(ps, n, q);
    }
    if Sibling(q) in rest {
      AfterFirstParent(ps, n, Sibling(q));
    }
    if n == 2 {
      PairAreSiblings(ps);
    }
  }

  lemma PairAreSiblings(ps: seq<nat>)
    requires Paired(ps)
    ensures Sibling(ps[0]) == ps[1] && Sibling(ps[1]) == ps[0] && ps[1] / 2 == ps[0] / 2
  {
  }

  /** A lone first node stands before everything else the level misses. */
  lemma SingleComesFirst(ps: seq<nat>, q: nat)
    requires Ascending(ps) && ps != [] && !Paired(ps) && |ps| > 1 && ps[1] / 2 <= q / 2
    ensures Sibling(ps[0]) < q
  {
  }

  /** One level up, the same nodes are touched. */
  lemma TouchedAbove(ps: seq<nat>, up: nat, q: nat)
    requires Ascending(ps)
    ensures Touched(Parents(ps), up, q) <==> Touched(ps, up + 1, q)
  {
    hide Parents;
    if Touched(Parents(ps), up, q) {
      var r :| r in Parents(ps) && Shr(r, up) == q;
      ParentTouched(ps, r);
      var p := if 2 * r in ps then 2 * r else 2 * r + 1;
      ShrOfHalf(p, up + 1);
      assert p in ps && Shr(p, up + 1) == q;
    }
    if Touched(ps, up + 1, q) {
      var p :| p in ps && Shr(p, up + 1) == q;
      ShrOfHalf(p, up + 1);
      ParentTouched(ps, p / 2);
      assert p / 2 in Parents(ps) && Shr(p / 2, up) == q;
    }
  }

  lemma TouchedHere(ps: seq<nat>, q: nat)
    ensures Touched(ps, 0, q) <==> q in ps
  {
    if q in ps {
      assert Shr(q, 0) == q;
    }
  }

  /** The frontier of a touched set is exactly the untouched nodes below the root whose sibling is touched. */
  lemma {:induction false} FrontierExactly(ps: seq<nat>, level: nat, depth: nat, at: NodeIndex)
    requires Canonical(ps, depth)
    ensures at in Frontier(ps, level, depth) <==>
              && level <= at.0 < level + depth
              && !Touched(ps, at.0 - level, at.1) && Touched(ps, at.0 - level, Sibling(at.1))
    decreases depth
  {
    hide Missing, Parents, Touched, Sibling;
    if depth > 0 {
      ParentsCanonical(ps, depth);
      FrontierExactly(Parents(ps), level + 1, depth - 1, at);
      if at.0 == level {
        MissingExactly(ps);
        TouchedHere(ps, at.1);
        TouchedHere(ps, Sibling(at.1));
        assert at in AtLevel(level, Missing(ps)) <==> at.1 in Missing(ps) by {
          if at.1 in Missing(ps) {
            var i :| 0 <= i < |Missing(ps)| && Missing(ps)[i] == at.1;
            assert AtLevel(level, Missing(ps))[i] == at;
          }
        }
      } else if at.0 > level {
        TouchedAbove(ps, at.0 - level - 1, at.1);
        TouchedAbove(ps, at.0 - level - 1, Sibling(at.1));
      }
    }
  }

  /** It is listed level by level from the leaves, and from left to right in a level. */
  lemma {:induction false} FrontierIsOrdered(ps: seq<nat>, level: nat, depth: nat, i: nat, j: nat)
    requires Canonical(ps, depth) && i < j < |Frontier(ps, level, depth)|
    ensures var a, b := Frontier(ps, level, depth)[i], Frontier(ps, level, depth)[j];
            a.0 < b.0 || (a.0 == b.0 && a.1 < b.1)
    decreases depth
  {
    hide Missing, Parents;
    var here, above := AtLevel(level, Missing(ps)), Frontier(Parents(ps), level + 1, depth - 1);
    ParentsCanonical(ps, depth);
    if i >= |here| {
      FrontierIsOrdered(Parents(ps), level + 1, depth - 1, i - |here|, j - |here|);
    } else {
      MissingExactly(ps);
      if j >= |here| {
        FrontierExactly(Parents(ps), level + 1, depth - 1, above[j - |here|]);
      }
    }
  }
}
