/** Reloading an evicted segment: what passes the compact root check is what was evicted. */
module SegmentReload {
  import opened Options
  import opened Powers
  import opened PairHashing
  import opened StateHashing
  import opened SegmentTree
  import opened StateLayout
  import opened SegmentedState
  import opened SparseMultiproof

  /** Two different inputs of one of the two hashes, with one output. */
  datatype Forgery = NodeForgery(pair: Collision) | LeafForgery(slot: SlotValue, other: SlotValue) {
    ghost predicate Holds(h: Hasher) {
      match this
      case NodeForgery(pair) => pair.Holds(h.node)
      case LeafForgery(slot, other) => slot != other && h.leaf(slot) == h.leaf(other)
    }
  }

  /** Two injective hashes have no forgery, and hashes without one are injective. */
  lemma InjectiveIffNoForgery(h: Hasher)
    ensures (forall f: Forgery :: !f.Holds(h)) <==>
              && Injective(h.node)
              && forall a, b :: h.leaf(a) == h.leaf(b) ==> a == b
  {
    InjectiveIffNoCollision(h.node);
    if forall f: Forgery :: !f.Holds(h) {
      forall pair: Collision
        ensures !pair.Holds(h.node)
      {
        assert !NodeForgery(pair).Holds(h);
      }
      forall a, b | h.leaf(a) == h.leaf(b)
        ensures a == b
      {
        assert !LeafForgery(a, b).Holds(h);
      }
    }
  }

  /** The reload check: full columns, the remembered live count, the remembered root. */
  predicate Accepts(h: Hasher, log: nat, root: StateHash, live: nat, columns: SegmentColumns) {
    && columns.Shaped(Pow2(log))
    && LiveCount(columns, Pow2(log)) == live
    && TreeOf(h, log, columns).Root() == root
  }

  /** Two leaf ranges with one root agree leaf by leaf, or exhibit a collision. */
  lemma {:induction false} RangeRootBinds(h: Hasher, a: seq<StateHash>, b: seq<StateHash>, level: nat, start: nat)
    returns (c: Option<Collision>)
    requires start + Pow2(level) <= |a| && start + Pow2(level) <= |b|
    requires RangeRoot(h, a, level, start) == RangeRoot(h, b, level, start)
    ensures c.Some? ==> c.value.Holds(h.node)
    ensures c.None? ==> forall i :: start <= i < start + Pow2(level) ==> a[i] == b[i]
    decreases level
  {
    c := None;
    if level > 0 {
      var mid := start + Pow2(level - 1);
      var pair := PairCollision(RangeRoot(h, a, level - 1, start), RangeRoot(h, a, level - 1, mid),
                                RangeRoot(h, b, level - 1, start), RangeRoot(h, b, level - 1, mid));
      if pair.Holds(h.node) {
        c := Some(pair);
      } else {
        c := RangeRootBinds(h, a, b, level - 1, start);
        if c.None? {
          c := RangeRootBinds(h, a, b, level - 1, mid);
        }
      }
    }
  }

  /** Columns accepted under a segment's remembered root and count are its contents, or a hash is broken. */
  lemma ReloadIsAuthentic(h: Hasher, log: nat, contents: SegmentColumns, columns: SegmentColumns)
    returns (f: Option<Forgery>)
    requires contents.Shaped(Pow2(log))
    requires Accepts(h, log, SegmentRoot(h, log, contents), LiveCount(contents, Pow2(log)), columns)
    ensures f.Some? ==> f.value.Holds(h)
    ensures f.None? ==> columns == contents
  {
    hide RangeRoot, LiveCount;
    TreeRootIsSegmentRoot(h, log, columns);
    var a, b := columns.Leaves(h), contents.Leaves(h);
    var c := RangeRootBinds(h, a, b, log, 0);
    f := None;
    if c.Some? {
      f := Some(NodeForgery(c.value));
    } else if exists i :: 0 <= i < Pow2(log) && columns.SlotAt(i) != contents.SlotAt(i) {
      var i :| 0 <= i < Pow2(log) && columns.SlotAt(i) != contents.SlotAt(i);
      assert a[i] == b[i];
      f := Some(LeafForgery(columns.SlotAt(i), contents.SlotAt(i)));
    } else {
      ColumnsFromSlots(columns, contents, Pow2(log));
    }
  }

  /** The evicted contents themselves always pass. */
  lemma ReloadAcceptsContents(h: Hasher, log: nat, contents: SegmentColumns)
    requires contents.Shaped(Pow2(log))
    ensures Accepts(h, log, SegmentRoot(h, log, contents), LiveCount(contents, Pow2(log)), contents)
  {
    TreeRootIsSegmentRoot(h, log, contents);
  }
}
