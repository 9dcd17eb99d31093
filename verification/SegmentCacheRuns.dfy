/** Whole runs of the cache beside the columns it accelerates. */
module SegmentCacheRuns {
  import opened Options
  import opened Powers
  import opened StateHashing
  import opened SegmentTree
  import opened SegmentCacheModel

  /** A segment's geometry and current columns. */
  datatype Segment = Segment(log: nat, columns: SegmentColumns) {
    ghost predicate Valid() {
      columns.Shaped(Pow2(log))
    }

    function Written(local: nat, value: SlotValue): Segment
      requires Valid() && local < Pow2(log)
    {
      Segment(log, columns.WithSlot(local, value))
    }
  }

  /** The cache and the authoritative columns it must agree with. */
  datatype World = World(cache: Cache<TreeValue>, segments: map<nat, Segment>)

  datatype Op =
    | Remember(id: nat)                                  // build a tree from the columns and cache it
    | Write(id: nat, local: nat, value: SlotValue)       // rewrite one slot of columns and tree
    | Replace(id: nat, segment: Segment)                 // install other columns, dropping the tree
    | Forget(id: nat)                                    // drop the tree only
    | Clear
    | Truncate(count: nat)

  /** Every cached tree is, node for node, the tree a rebuild from the current columns would give. */
  ghost predicate Coherent(h: Hasher, w: World) {
    && w.cache.Valid()
    && (forall id :: id in w.segments ==> w.segments[id].Valid())
    && (forall e :: e in w.cache.entries ==>
          e.id in w.segments && e == EntryOf(h, e.id, w.segments[e.id]))
  }

  /** The entry a rebuild from the segment's columns would insert. */
  function EntryOf(h: Hasher, id: nat, segment: Segment): Entry<TreeValue>
    requires segment.Valid()
  {
    var tree := TreeOf(h, segment.log, segment.columns);
    Entry(id, tree.ResidentBytes(), tree)
  }

  /** What the callers guarantee: known segments, slots inside them, columns of the declared size. */
  ghost predicate Enabled(w: World, op: Op) {
    match op
    case Remember(id) => id in w.segments
    case Write(id, local, _) => id in w.segments && local < Pow2(w.segments[id].log)
    case Replace(_, segment) => segment.Valid()
    case _ => true
  }

  ghost function Step(h: Hasher, w: World, op: Op): World
    requires Coherent(h, w) && Enabled(w, op)
  {
    match op
    case Remember(id) =>
      w.(cache := w.cache.Insert(EntryOf(h, id, w.segments[id])))
    case Write(id, local, value) =>
      WritableWhenCoherent(h, w, id, local);
      World(UpdateSlot(h, w.cache, id, local, value), w.segments[id := w.segments[id].Written(local, value)])
    case Replace(id, segment) => World(w.cache.Remove(id), w.segments[id := segment])
    case Forget(id) => w.(cache := w.cache.Remove(id))
    case Clear => w.(cache := w.cache.Clear())
    case Truncate(count) =>
      World(w.cache.Truncate(count), map id | id in w.segments && id < count :: w.segments[id])
  }

  /** A slot write must land inside the cached tree. */
  ghost predicate Writable(c: Cache<TreeValue>, id: nat, local: nat) {
    var index := Position(c.entries, id);
    index < |c.entries| ==> c.entries[index].tree.Sized() && local < Pow2(c.entries[index].tree.logSlots)
  }

  /** Rewrites a slot of a cached tree and marks it recent; a segment that is not cached is left alone. */
  function UpdateSlot(h: Hasher, c: Cache<TreeValue>, id: nat, local: nat, value: SlotValue): (after: Cache<TreeValue>)
    requires c.Valid() && Writable(c, id, local)
    ensures after.Valid() && after.budget == c.budget
  {
    var index := Position(c.entries, id);
    if index == |c.entries| then c else c.Touch(id, c.entries[index].tree.WithLeaf(h, local, value))
  }

  lemma WritableWhenCoherent(h: Hasher, w: World, id: nat, local: nat)
    requires Coherent(h, w) && id in w.segments && local < Pow2(w.segments[id].log)
    ensures Writable(w.cache, id, local)
  {
    var index := Position(w.cache.entries, id);
    if index < |w.cache.entries| {
      assert w.cache.entries[index] in w.cache.entries;
    }
  }

  lemma {:induction false} BelowMembers(entries: seq<Entry<TreeValue>>, count: nat)
    ensures forall e :: e in Below(entries, count) ==> e in entries && e.id < count
  {
    if entries != [] {
      BelowMembers(entries[1..], count);
    }
  }

  lemma StepKeepsCoherent(h: Hasher, w: World, op: Op)
    requires Coherent(h, w) && Enabled(w, op)
    ensures Coherent(h, Step(h, w, op)) && Step(h, w, op).cache.budget == w.cache.budget
  {
    match op
    case Remember(id) => InsertMembers(w.cache, EntryOf(h, id, w.segments[id]));
    case Write(id, local, value) => WriteKeepsCoherent(h, w, id, local, value);
    case Replace(id, segment) => RemoveKeepsMembers(w.cache, id);
    case Forget(id) => RemoveKeepsMembers(w.cache, id);
    case Clear =>
    case Truncate(count) => BelowMembers(w.cache.entries, count);
  }

  lemma RemoveKeepsMembers(c: Cache<TreeValue>, id: nat)
    requires c.Valid()
    ensures forall e :: e in c.Remove(id).entries ==> e in c.entries && e.id != id
  {
  }

  lemma InsertMembers(c: Cache<TreeValue>, entry: Entry<TreeValue>)
    requires c.Valid()
    ensures forall e :: e in c.Insert(entry).entries ==> e == entry || (e in c.entries && e.id != entry.id)
  {
    RemoveKeepsMembers(c, entry.id);
  }

  lemma WriteKeepsCoherent(h: Hasher, w: World, id: nat, local: nat, value: SlotValue)
    requires Coherent(h, w) && id in w.segments && local < Pow2(w.segments[id].log)
    ensures Coherent(h, Step(h, w, Write(id, local, value)))
  {
    WritableWhenCoherent(h, w, id, local);
    var entries, segment := w.cache.entries, w.segments[id];
    var index := Position(entries, id);
    RemoveKeepsMembers(w.cache, id);
    WriteIsRebuild(h, segment.log, segment.columns, local, value);
    if index < |entries| {
      assert entries[index] in entries;
      var written := Entry(id, entries[index].size, entries[index].tree.WithLeaf(h, local, value));
      assert written == EntryOf(h, id, segment.Written(local, value));
    } else {
      assert forall e :: e in entries ==> e.id != id;
    }
  }

  ghost predicate Feasible(h: Hasher, w: World, ops: seq<Op>)
    requires Coherent(h, w)
    decreases |ops|, 0
  {
    ops == [] || (Feasible(h, w, ops[..|ops| - 1]) && Enabled(Run(h, w, ops[..|ops| - 1]), ops[|ops| - 1]))
  }

  /** Every reachable view is coherent: exact byte accounting within budget, one entry per segment, rebuilt trees. */
  ghost function Run(h: Hasher, w: World, ops: seq<Op>): (after: World)
    requires Coherent(h, w) && Feasible(h, w, ops)
    ensures Coherent(h, after) && after.cache.budget == w.cache.budget
    decreases |ops|, 1
  {
    if ops == [] then w
    else
      var before := Run(h, w, ops[..|ops| - 1]);
      StepKeepsCoherent(h, before, ops[|ops| - 1]);
      Step(h, before, ops[|ops| - 1])
  }

  /** Over every run, a cached answer is the answer a rebuild from the current columns would give. */
  lemma CachedTreeIsRebuilt(h: Hasher, w: World, ops: seq<Op>, id: nat)
    requires Coherent(h, w) && Feasible(h, w, ops) && Run(h, w, ops).cache.Get(id).Some?
    ensures var after := Run(h, w, ops);
            && id in after.segments && after.segments[id].Valid()
            && after.cache.Get(id) == Some(TreeOf(h, after.segments[id].log, after.segments[id].columns))
  {
    var entries := Run(h, w, ops).cache.entries;
    assert entries[Position(entries, id)] in entries;
  }

  /** In every reachable state at production geometry, at most nine trees are held. */
  lemma RunHoldsAtMostNineTrees(h: Hasher, w: World, ops: seq<Op>)
    requires Coherent(h, w) && Feasible(h, w, ops) && w.cache.budget == DEFAULT_CACHE_BYTES
    requires forall id :: id in Run(h, w, ops).segments ==> Run(h, w, ops).segments[id].log == LOG_SEGMENT_SIZE
    ensures |Run(h, w, ops).cache.entries| <= 9
  {
    hide Pow2, TreeOf, TotalBytes;
    var after := Run(h, w, ops);
    var columns := map id | id in after.segments :: after.segments[id].columns;
    forall i | 0 <= i < |after.cache.entries|
      ensures var e := after.cache.entries[i];
              && e.id in columns && columns[e.id].Shaped(Pow2(LOG_SEGMENT_SIZE)) && e.size == e.tree.ResidentBytes()
              && e.tree == TreeOf(h, LOG_SEGMENT_SIZE, columns[e.id])
    {
      assert after.cache.entries[i] in after.cache.entries;
    }
    AtMostNineTrees(h, after.cache, LOG_SEGMENT_SIZE, columns);
  }

  // ---------------------------------------------------------------------
  // Entries stand in order of last insert or write
  // ---------------------------------------------------------------------

  predicate Touches(op: Op, id: nat) {
    (op.Remember? || op.Write?) && op.id == id
  }

  /** Index of the last operation that inserted or wrote `id`, or -1. */
  function LastTouch(ops: seq<Op>, id: nat): (at: int)
    ensures -1 <= at < |ops|
  {
    if ops == [] then -1
    else if Touches(ops[|ops| - 1], id) then |ops| - 1
    else LastTouch(ops[..|ops| - 1], id)
  }

  ghost predicate InTouchOrder(entries: seq<Entry<TreeValue>>, ops: seq<Op>) {
    forall i, j :: 0 <= i < j < |entries| ==> LastTouch(ops, entries[i].id) < LastTouch(ops, entries[j].id)
  }

  lemma WithoutKeepsOrder(entries: seq<Entry<TreeValue>>, index: nat, ops: seq<Op>)
    requires index < |entries| && InTouchOrder(entries, ops)
    ensures InTouchOrder(Without(entries, index), ops)
  {
    var rest := Without(entries, index);
    forall i, j | 0 <= i < j < |rest|
      ensures LastTouch(ops, rest[i].id) < LastTouch(ops, rest[j].id)
    {
      var from, to := if i < index then i else i + 1, if j < index then j else j + 1;
      assert rest[i] == entries[from] && rest[j] == entries[to];
    }
  }

  lemma RemoveKeepsOrder(c: Cache<TreeValue>, id: nat, ops: seq<Op>)
    requires c.Valid() && InTouchOrder(c.entries, ops)
    ensures InTouchOrder(c.Remove(id).entries, ops)
  {
    if Position(c.entries, id) < |c.entries| {
      WithoutKeepsOrder(c.entries, Position(c.entries, id), ops);
    }
  }

  lemma {:induction false} BelowKeepsOrder(entries: seq<Entry<TreeValue>>, count: nat, ops: seq<Op>)
    requires InTouchOrder(entries, ops)
    ensures InTouchOrder(Below(entries, count), ops)
  {
    if entries != [] {
      var rest := Below(entries[1..], count);
      BelowKeepsOrder(entries[1..], count, ops);
      BelowMembers(entries[1..], count);
      forall e | e in rest
        ensures LastTouch(ops, entries[0].id) < LastTouch(ops, e.id)
      {
        assert e in entries[1..];
      }
      if entries[0].id < count {
        assert Below(entries, count) == [entries[0]] + rest;
      } else {
        assert Below(entries, count) == rest;
      }
    }
  }

  /** An operation that touches no listed segment leaves the listed order alone. */
  lemma UntouchedKeepsOrder(entries: seq<Entry<TreeValue>>, ops: seq<Op>, op: Op)
    requires InTouchOrder(entries, ops)
    requires forall i :: 0 <= i < |entries| ==> !Touches(op, entries[i].id)
    ensures InTouchOrder(entries, ops + [op])
  {
    assert (ops + [op])[..|ops|] == ops;
  }

  /** The touched segment goes last. */
  lemma TouchedGoesLast(entries: seq<Entry<TreeValue>>, ops: seq<Op>, op: Op, entry: Entry<TreeValue>)
    requires InTouchOrder(entries, ops) && Lacks(entries, entry.id) && Touches(op, entry.id)
    ensures InTouchOrder(entries + [entry], ops + [op])
  {
    UntouchedKeepsOrder(entries, ops, op);
    assert (ops + [op])[..|ops|] == ops;
    assert LastTouch(ops + [op], entry.id) == |ops|;
  }

  lemma RememberKeepsTouchOrder(c: Cache<TreeValue>, entry: Entry<TreeValue>, ops: seq<Op>)
    requires c.Valid() && InTouchOrder(c.entries, ops)
    ensures InTouchOrder(c.Insert(entry).entries, ops + [Remember(entry.id)])
  {
    RemoveKeepsOrder(c, entry.id, ops);
    var others, op := c.Remove(entry.id).entries, Remember(entry.id);
    if entry.size > c.budget {
      UntouchedKeepsOrder(others, ops, op);
    } else {
      TouchedGoesLast(RoomFor(others, entry.size, c.budget), ops, op, entry);
    }
  }

  lemma WriteKeepsTouchOrder(h: Hasher, c: Cache<TreeValue>, id: nat, local: nat, value: SlotValue, ops: seq<Op>)
    requires c.Valid() && Writable(c, id, local) && InTouchOrder(c.entries, ops)
    ensures InTouchOrder(UpdateSlot(h, c, id, local, value).entries, ops + [Write(id, local, value)])
  {
    RemoveKeepsOrder(c, id, ops);
    var index, op := Position(c.entries, id), Write(id, local, value);
    if index == |c.entries| {
      UntouchedKeepsOrder(c.entries, ops, op);
    } else {
      TouchedGoesLast(c.Remove(id).entries, ops, op,
                      Entry(id, c.entries[index].size, c.entries[index].tree.WithLeaf(h, local, value)));
    }
  }

  lemma StepKeepsTouchOrder(h: Hasher, w: World, ops: seq<Op>, op: Op)
    requires Coherent(h, w) && Enabled(w, op) && InTouchOrder(w.cache.entries, ops)
    ensures InTouchOrder(Step(h, w, op).cache.entries, ops + [op])
  {
    var c := w.cache;
    match op
    case Remember(id) =>
      RememberKeepsTouchOrder(c, EntryOf(h, id, w.segments[id]), ops);
    case Write(id, local, value) =>
      WritableWhenCoherent(h, w, id, local);
      WriteKeepsTouchOrder(h, c, id, local, value, ops);
    case Replace(id, _) =>
      RemoveKeepsOrder(c, id, ops);
      UntouchedKeepsOrder(c.Remove(id).entries, ops, op);
    case Forget(id) =>
      RemoveKeepsOrder(c, id, ops);
      UntouchedKeepsOrder(c.Remove(id).entries, ops, op);
    case Clear =>
    case Truncate(count) =>
      BelowKeepsOrder(c.entries, count, ops);
      UntouchedKeepsOrder(Below(c.entries, count), ops, op);
  }

  /** Over every run from an empty cache, entries stand in order of their last insert or write. */
  lemma {:induction false} RunIsInTouchOrder(h: Hasher, w: World, ops: seq<Op>)
    requires Coherent(h, w) && w.cache.entries == [] && Feasible(h, w, ops)
    ensures InTouchOrder(Run(h, w, ops).cache.entries, ops)
    decreases |ops|
  {
    hide Step, Coherent, Enabled, LastTouch;
    if ops != [] {
      var front, last := ops[..|ops| - 1], ops[|ops| - 1];
      RunIsInTouchOrder(h, w, front);
      StepKeepsTouchOrder(h, Run(h, w, front), front, last);
      assert front + [last] == ops;
    }
  }
}
