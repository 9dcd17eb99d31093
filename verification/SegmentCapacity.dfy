/** How many siblings a touched set can need when it may stand in a bounded number of segments only. */
module SegmentCapacity {
  import opened Powers
  import opened SparseMultiproof
  import opened MultiproofVerifier

  /** The segments of `2^log` leaves a touched set stands in. */
  ghost function Segments(ps: seq<nat>, log: nat): set<nat> {
    set p | p in ps :: Shr(p, log)
  }

  /** Climbing meets exactly the touched segments. */
  lemma {:induction false} ClimbMeetsSegments(ps: seq<nat>, log: nat, bound: nat)
    requires Ascending(ps) && forall i :: 0 <= i < |ps| ==> ps[i] < bound
    ensures Ascending(Climb(ps, log))
    ensures forall s: nat :: s in Climb(ps, log) <==> s in Segments(ps, log)
    decreases log
  {
    if log > 0 {
      var parents := Parents(ps);
      ParentsAscend(ps, bound);
      ClimbMeetsSegments(parents, log - 1, bound);
      forall s: nat
        ensures s in Segments(parents, log - 1) <==> s in Segments(ps, log)
      {
        SegmentsOfParents(ps, log, s);
      }
    }
  }

  lemma SegmentsOfParents(ps: seq<nat>, log: nat, s: nat)
    requires Ascending(ps) && log > 0
    ensures s in Segments(Parents(ps), log - 1) <==> s in Segments(ps, log)
  {
    hide Shr, Parents;
    if s in Segments(ps, log) {
      var p :| p in ps && Shr(p, log) == s;
      ShrOfHalf(p, log);
      ParentTouched(ps, p / 2);
      assert p == 2 * (p / 2) || p == 2 * (p / 2) + 1;
      assert p / 2 in Parents(ps);
    }
    if s in Segments(Parents(ps), log - 1) {
      var q :| q in Parents(ps) && Shr(q, log - 1) == s;
      ParentTouched(ps, q);
      var p := if 2 * q in ps then 2 * q else 2 * q + 1;
      ShrOfHalf(p, log);
      assert p in ps;
    }
  }

  lemma {:induction false} AscendingCount(ps: seq<nat>, all: set<nat>)
    requires Ascending(ps) && forall p: nat :: p in ps <==> p in all
    ensures |ps| == |all|
  {
    if ps == [] {
      assert all == {};
    } else {
      var n := |ps| - 1;
      var front, last := ps[..n], ps[n];
      assert ps == front + [last] && last !in front;
      AscendingCount(front, all - {last});
    }
  }

  /** As many nodes are left `log` levels up as there are touched segments. */
  lemma ClimbCountsSegments(ps: seq<nat>, log: nat, upper: nat)
    requires Canonical(ps, log + upper)
    ensures |Climb(ps, log)| == |Segments(ps, log)| > 0
  {
    hide Climb, Segments, Canonical;
    CanonicalAscends(ps, log + upper);
    ClimbMeetsSegments(ps, log, Pow2(log + upper));
    AscendingCount(Climb(ps, log), Segments(ps, log));
    ClimbCanonical(ps, log, upper);
    CanonicalAscends(Climb(ps, log), upper);
  }

  lemma CanonicalAscends(ps: seq<nat>, depth: nat)
    requires Canonical(ps, depth)
    ensures ps != [] && Ascending(ps) && forall i :: 0 <= i < |ps| ==> ps[i] < Pow2(depth)
  {
  }

  // ---------------------------------------------------------------------
  // The bound for a number of used segments
  // ---------------------------------------------------------------------

  /** Leaves of `used` segments. */
  function Room(used: nat, log: nat): (room: nat)
    ensures room >= used
  {
    if log == 0 then used else 2 * Room(used, log - 1)
  }

  function Times(used: nat, x: nat): nat {
    used * x
  }

  lemma {:induction false} RoomIsProduct(used: nat, log: nat)
    ensures Room(used, log) == Times(used, Pow2(log))
  {
    if log > 0 {
      RoomIsProduct(used, log - 1);
      assert used * (2 * Pow2(log - 1)) == 2 * (used * Pow2(log - 1));
    }
  }

  /** Touched leaves plus the most siblings they can need below the segment roots, plus the roots themselves. */
  function WidestIn(touched: nat, used: nat, log: nat): nat
    decreases log
  {
    if log == 0 then touched
    else
      var above := Min(touched, Room(used, log - 1));
      above + WidestIn(above, used, log - 1)
  }

  lemma {:induction false} WidestInMonotone(a: nat, b: nat, used: nat, log: nat)
    requires a <= b
    ensures WidestIn(a, used, log) <= WidestIn(b, used, log)
    decreases log
  {
    if log > 0 {
      WidestInMonotone(Min(a, Room(used, log - 1)), Min(b, Room(used, log - 1)), used, log - 1);
    }
  }

  lemma {:induction false} TouchedFits(ps: seq<nat>, log: nat)
    ensures |ps| <= Room(|Climb(ps, log)|, log)
    decreases log
  {
    hide Parents, Missing;
    if log > 0 {
      TouchedFits(Parents(ps), log - 1);
    }
  }

  /** No touched set in that many segments needs more. */
  lemma {:induction false} SegmentedFrontierIsBounded(ps: seq<nat>, level: nat, log: nat, upper: nat)
    requires Canonical(ps, log + upper)
    ensures var used := |Climb(ps, log)|;
            |Frontier(ps, level, log + upper)| + |ps| + used <= WidestIn(|ps|, used, log) + Widest(used, upper)
    decreases log
  {
    hide Missing, Parents, Widest;
    if log == 0 {
      FrontierIsBounded(ps, level, upper);
    } else {
      var parents, used := Parents(ps), |Climb(ps, log)|;
      ParentsCanonical(ps, log + upper);
      SegmentedFrontierIsBounded(parents, level + 1, log - 1, upper);
      TouchedFits(parents, log - 1);
      WidestInMonotone(|parents|, Min(|ps|, Room(used, log - 1)), used, log - 1);
    }
  }

  /** A touched set spread as evenly as possible over evenly spread segments. */
  function SpreadIn(touched: nat, used: nat, log: nat, upper: nat): (ps: seq<nat>)
    requires 1 <= used <= Pow2(upper) && used <= touched <= Room(used, log)
    ensures |ps| == touched
    decreases log
  {
    if log == 0 then Spread(used, upper)
    else
      var above := Min(touched, Room(used, log - 1));
      Children(SpreadIn(above, used, log - 1, upper), touched - above)
  }

  /** The bound is reached, for every number of segments that has room. */
  lemma {:induction false} SegmentedBoundIsReached(touched: nat, used: nat, level: nat, log: nat, upper: nat)
    requires 1 <= used <= Pow2(upper) && used <= touched <= Room(used, log)
    ensures var ps := SpreadIn(touched, used, log, upper);
            && Canonical(ps, log + upper) && Climb(ps, log) == Spread(used, upper)
            && |Frontier(ps, level, log + upper)| + touched + used == WidestIn(touched, used, log) + Widest(used, upper)
    decreases log
  {
    hide Missing, Parents, Children, Spread, Widest;
    if log == 0 {
      BoundIsReached(used, level, upper);
    } else {
      var above := Min(touched, Room(used, log - 1));
      var parents := SpreadIn(above, used, log - 1, upper);
      SegmentedBoundIsReached(above, used, level + 1, log - 1, upper);
      ChildrenAscend(parents, touched - above, Pow2(log - 1 + upper));
      ParentsOfChildren(parents, touched - above, Pow2(log - 1 + upper));
    }
  }

  // ---------------------------------------------------------------------
  // The balanced closed form
  // ---------------------------------------------------------------------

  /** Two kinds of segments, `remainder` of them one leaf fuller. */
  function Balanced(used: nat, remainder: nat, lesser: nat, fuller: nat): nat
    requires remainder < used
  {
    (used - remainder) * lesser + remainder * fuller
  }

  lemma BalancedAdds(used: nat, remainder: nat, a: nat, b: nat, x: nat, y: nat)
    requires remainder < used
    ensures Balanced(used, remainder, a + x, b + y)
         == Balanced(used, remainder, a, b) + Balanced(used, remainder, x, y)
  {
    assert (used - remainder) * (a + x) == (used - remainder) * a + (used - remainder) * x;
    assert remainder * (b + y) == remainder * b + remainder * y;
  }

  lemma BalancedTouched(used: nat, remainder: nat, quotient: nat)
    requires remainder < used
    ensures Balanced(used, remainder, quotient, quotient + 1) == Times(used, quotient) + remainder
  {
    assert (used - remainder) * quotient + remainder * quotient == used * quotient;
    assert remainder * (quotient + 1) == remainder * quotient + remainder;
  }

  lemma BalancedEven(used: nat, remainder: nat, x: nat)
    requires remainder < used
    ensures Balanced(used, remainder, x, x) == Times(used, x)
  {
    assert (used - remainder) * x + remainder * x == used * x;
  }

  lemma {:induction false} ProductMonotone(used: nat, x: nat, y: nat)
    requires x <= y
    ensures Times(used, x) <= Times(used, y)
    decreases y
  {
    if x < y {
      ProductMonotone(used, x, y - 1);
      ProductNext(used, y - 1);
    }
  }

  lemma ProductNext(used: nat, x: nat)
    ensures Times(used, x + 1) == Times(used, x) + used
  {
  }

  /** A quotient below a level's width keeps every leaf apart there; otherwise every node of the level is met. */
  lemma QuotientDecides(used: nat, remainder: nat, quotient: nat, power: nat)
    requires remainder < used
    ensures quotient < power ==> Times(used, quotient) + remainder <= Times(used, power)
    ensures quotient >= power ==> Times(used, power) <= Times(used, quotient)
    ensures quotient > power ==> Times(used, power) < Times(used, quotient)
  {
    hide Times;
    ProductNext(used, quotient);
    ProductNext(used, power);
    if quotient < power {
      ProductMonotone(used, quotient + 1, power);
    } else {
      ProductMonotone(used, power, quotient);
      if quotient > power {
        ProductMonotone(used, power + 1, quotient);
      }
    }
  }

  lemma WidestAtBottom(touched: nat)
    ensures Widest(touched, 0) == touched
  {
  }

  lemma WidestInAtBottom(touched: nat, used: nat)
    ensures WidestIn(touched, used, 0) == touched
  {
  }

  lemma WidestStep(touched: nat, log: nat)
    requires log > 0
    ensures touched <= Pow2(log - 1) ==> Widest(touched, log) == touched + Widest(touched, log - 1)
    ensures touched >= Pow2(log - 1) ==> Widest(touched, log) == Pow2(log - 1) + Widest(Pow2(log - 1), log - 1)
  {
  }

  lemma WidestInStep(touched: nat, used: nat, log: nat)
    requires log > 0
    ensures touched <= Room(used, log - 1) ==>
              WidestIn(touched, used, log) == touched + WidestIn(touched, used, log - 1)
    ensures touched >= Room(used, log - 1) ==>
              WidestIn(touched, used, log) == Room(used, log - 1) + WidestIn(Room(used, log - 1), used, log - 1)
  {
  }

  /** Spreading evenly is widest: the level-by-level bound is the sum of the segments' own maxima. */
  lemma {:induction false} WidestIsBalanced(used: nat, quotient: nat, remainder: nat, log: nat)
    requires remainder < used
    ensures WidestIn(Times(used, quotient) + remainder, used, log)
         == Balanced(used, remainder, Widest(quotient, log), Widest(quotient + 1, log))
    decreases log
  {
    hide Balanced, Times, Pow2, Room, Widest, WidestIn;
    BalancedTouched(used, remainder, quotient);
    if log == 0 {
      WidestAtBottom(quotient);
      WidestAtBottom(quotient + 1);
      WidestInAtBottom(Times(used, quotient) + remainder, used);
    } else {
      var power := Pow2(log - 1);
      RoomIsProduct(used, log - 1);
      QuotientDecides(used, remainder, quotient, power);
      WidestInStep(Times(used, quotient) + remainder, used, log);
      WidestStep(quotient, log);
      WidestStep(quotient + 1, log);
      if quotient < power {
        WidestIsBalanced(used, quotient, remainder, log - 1);
        BalancedAdds(used, remainder, quotient, quotient + 1, Widest(quotient, log - 1), Widest(quotient + 1, log - 1));
      } else {
        WidestIsBalanced(used, power, 0, log - 1);
        WidestOfFull(used, remainder, power, log - 1);
      }
    }
  }

  lemma WidestOfFull(used: nat, remainder: nat, power: nat, log: nat)
    requires remainder < used
    ensures Times(used, power) + Balanced(used, 0, Widest(power, log), Widest(power + 1, log))
         == Balanced(used, remainder, power + Widest(power, log), power + Widest(power, log))
  {
    hide Widest;
    var w := Widest(power, log);
    BalancedEven(used, remainder, power + w);
    assert used * (power + w) == used * power + used * w;
    assert 0 * Widest(power + 1, log) == 0;
  }

  // ---------------------------------------------------------------------
  // The capped maximum
  // ---------------------------------------------------------------------

  /** A canonical touched set of the size that stands in at most `cap` segments. */
  ghost predicate Capped(ps: seq<nat>, touched: nat, log: nat, depth: nat, cap: nat) {
    Canonical(ps, depth) && |ps| == touched && |Segments(ps, log)| <= cap
  }

  /** A number of segments that touched sets of the size can use. */
  predicate Usable(touched: nat, log: nat, upper: nat, cap: nat, used: nat) {
    1 <= used <= cap && used <= Pow2(upper) && used <= touched <= Room(used, log)
  }

  /** The most siblings with that many segments used. */
  function Needed(touched: nat, used: nat, log: nat, upper: nat): int {
    WidestIn(touched, used, log) + Widest(used, upper) - touched - used
  }

  lemma CappedNeedsNoMore(ps: seq<nat>, touched: nat, log: nat, upper: nat, cap: nat)
    requires Capped(ps, touched, log, log + upper, cap)
    ensures Usable(touched, log, upper, cap, |Segments(ps, log)|)
    ensures |Frontier(ps, 0, log + upper)| <= Needed(touched, |Segments(ps, log)|, log, upper)
  {
    hide Frontier, Climb, Segments, WidestIn, Widest, Room, Canonical;
    ClimbCountsSegments(ps, log, upper);
    SegmentedFrontierIsBounded(ps, 0, log, upper);
    TouchedFits(ps, log);
    ClimbCanonical(ps, log, upper);
    CanonicalAscends(Climb(ps, log), upper);
    AscendingFits(Climb(ps, log), Pow2(upper));
    FewerAbove(ps, log);
  }

  lemma {:induction false} FewerAbove(ps: seq<nat>, log: nat)
    ensures |Climb(ps, log)| <= |ps|
    decreases log
  {
    hide Parents, Missing;
    if log > 0 {
      FewerAbove(Parents(ps), log - 1);
    }
  }

  lemma UsableIsReached(touched: nat, log: nat, upper: nat, cap: nat, used: nat)
    requires Usable(touched, log, upper, cap, used)
    ensures Capped(SpreadIn(touched, used, log, upper), touched, log, log + upper, cap)
    ensures |Frontier(SpreadIn(touched, used, log, upper), 0, log + upper)| == Needed(touched, used, log, upper)
  {
    hide Frontier, Climb, Segments, WidestIn, Widest, SpreadIn, Canonical;
    SegmentedBoundIsReached(touched, used, 0, log, upper);
    ClimbCountsSegments(SpreadIn(touched, used, log, upper), log, upper);
  }

  /** The balanced split fits its segments exactly when the segments have room. */
  lemma BalancedFits(touched: nat, used: nat, log: nat)
    requires used > 0
    ensures var quotient, remainder := touched / used, touched % used;
            && touched == Times(used, quotient) + remainder
            && (touched <= Room(used, log) <==>
                quotient <= Pow2(log) && (remainder == 0 || quotient + 1 <= Pow2(log)))
  {
    hide Pow2;
    var quotient, remainder, power := touched / used, touched % used, Pow2(log);
    RoomIsProduct(used, log);
    QuotientDecides(used, remainder, quotient, power);
  }

  /** One candidate, computed from two balanced local maxima and the upper one. */
  method BalancedTotal(touched: nat, used: nat, log: nat, upper: nat) returns (total: nat)
    requires 1 <= used <= Pow2(upper) && used <= touched <= Room(used, log)
    ensures total == Needed(touched, used, log, upper)
  {
    hide Widest, WidestIn, Room, Times, Pow2;
    var quotient, remainder := touched / used, touched % used;
    BalancedFits(touched, used, log);
    var lesser := MaximumSiblingCount(quotient, log);
    var fuller := 0;
    if remainder != 0 {
      fuller := MaximumSiblingCount(quotient + 1, log);
    }
    var highest := MaximumSiblingCount(used, upper);
    var local := Balanced(used, remainder, lesser, fuller);
    total := local + highest;
    LocalIsBalanced(touched, used, log, lesser, fuller);
  }

  lemma LocalIsBalanced(touched: nat, used: nat, log: nat, lesser: nat, fuller: nat)
    requires 1 <= used <= touched
    requires lesser + touched / used == Widest(touched / used, log)
    requires touched % used != 0 ==> fuller + touched / used + 1 == Widest(touched / used + 1, log)
    ensures Balanced(used, touched % used, lesser, fuller) + touched == WidestIn(touched, used, log)
  {
    hide Widest, WidestIn;
    var quotient, remainder := touched / used, touched % used;
    BalancedFits(touched, used, log);
    WidestIsBalanced(used, quotient, remainder, log);
    BalancedTouched(used, remainder, quotient);
    BalancedAdds(used, remainder, lesser, fuller, quotient, quotient + 1);
    assert remainder == 0 ==> remainder * Widest(quotient + 1, log) == 0 == remainder * (fuller + quotient + 1);
  }

  /** Between the caps, some number of segments always has room. */
  lemma LargestIsUsable(touched: nat, log: nat, upper: nat, cap: nat)
    requires touched > 0 && cap > 0 && touched <= Room(Min(cap, Pow2(upper)), log)
    ensures Usable(touched, log, upper, cap, Min(touched, Min(cap, Pow2(upper))))
  {
  }

  /**
   The capacity of a proof class whose touched leaves stand in at most `cap` segments: no such touched set needs
   more siblings, and one of them needs that many.
   */
  method MaximumWithSegmentCap(touched: nat, depth: nat, log: nat, cap: nat) returns (maximum: nat)
    requires log <= depth
    requires touched > 0 ==> cap > 0 && touched <= Times(Min(cap, Pow2(depth - log)), Pow2(log))
    ensures touched == 0 ==> maximum == 0
    ensures forall ps :: Capped(ps, touched, log, depth, cap) ==> |Frontier(ps, 0, depth)| <= maximum
    ensures touched > 0 ==> exists ps :: Capped(ps, touched, log, depth, cap) && |Frontier(ps, 0, depth)| == maximum
  {
    hide Frontier, Segments, Room, Needed, SpreadIn, Canonical;
    if touched == 0 {
      NothingTouched(log, depth, cap);
      return 0;
    }
    var upper := depth - log;
    var capped := Min(cap, Pow2(upper));
    RoomIsProduct(capped, log);
    LargestIsUsable(touched, log, upper, cap);
    var most := Min(touched, capped);
    ghost var best := 0;
    maximum := 0;
    for used := 1 to most + 1
      invariant forall u :: 1 <= u < used && Usable(touched, log, upper, cap, u) ==>
                  Needed(touched, u, log, upper) <= maximum
      invariant if best == 0 then maximum == 0
                else Usable(touched, log, upper, cap, best) && maximum == Needed(touched, best, log, upper)
      invariant used == most + 1 ==> best > 0 || Needed(touched, most, log, upper) == 0
    {
      var quotient, remainder := touched / used, touched % used;
      BalancedFits(touched, used, log);
      if quotient <= Pow2(log) && (remainder == 0 || quotient + 1 <= Pow2(log)) {
        var total := BalancedTotal(touched, used, log, upper);
        if total > maximum {
          maximum := total;
          best := used;
        }
      }
    }
    if best == 0 {
      best := most;
    }
    UsableIsReached(touched, log, upper, cap, best);
    forall ps | Capped(ps, touched, log, depth, cap)
      ensures |Frontier(ps, 0, depth)| <= maximum
    {
      CappedNeedsNoMore(ps, touched, log, upper, cap);
    }
  }

  lemma NothingTouched(log: nat, depth: nat, cap: nat)
    ensures forall ps :: !Capped(ps, 0, log, depth, cap)
  {
  }
}
