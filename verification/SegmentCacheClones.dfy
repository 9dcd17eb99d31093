/** Any number of cache clones over shared trees: writing through one never shows through another. */
module SegmentCacheClones {
  import opened Powers
  import opened StateHashing
  import opened SegmentTree
  import opened SegmentCacheModel
  import opened SegmentCache
  import Runs = SegmentCacheRuns

  // ---------------------------------------------------------------------
  // Reading a cache of handles as a cache of values
  // ---------------------------------------------------------------------

  ghost predicate Known<T, U>(entries: seq<Entry<T>>, values: map<T, U>) {
    forall i :: 0 <= i < |entries| ==> entries[i].tree in values
  }

  ghost function Read<T, U>(entries: seq<Entry<T>>, values: map<T, U>): (read: seq<Entry<U>>)
    requires Known(entries, values)
    ensures |read| == |entries|
    ensures forall i :: 0 <= i < |entries| ==>
              read[i] == Entry(entries[i].id, entries[i].size, values[entries[i].tree])
  {
    seq(|entries|, i requires 0 <= i < |entries| =>
      Entry(entries[i].id, entries[i].size, values[entries[i].tree]))
  }

  ghost function View<T, U>(c: Cache<T>, values: map<T, U>): Cache<U>
    requires Known(c.entries, values)
  {
    Cache(Read(c.entries, values), c.bytes, c.budget)
  }

  lemma {:induction false} ReadKeepsBytes<T, U>(entries: seq<Entry<T>>, values: map<T, U>)
    requires Known(entries, values)
    ensures TotalBytes(Read(entries, values)) == TotalBytes(entries)
  {
    if entries != [] {
      ReadKeepsBytes(entries[1..], values);
      assert Read(entries, values)[1..] == Read(entries[1..], values);
    }
  }

  lemma ViewIsValid<T, U>(c: Cache<T>, values: map<T, U>)
    requires c.Valid() && Known(c.entries, values)
    ensures View(c, values).Valid()
  {
    ReadKeepsBytes(c.entries, values);
  }

  lemma {:induction false} ReadKeepsPosition<T, U>(entries: seq<Entry<T>>, values: map<T, U>, id: nat)
    requires Known(entries, values)
    ensures Position(Read(entries, values), id) == Position(entries, id)
  {
    if entries != [] {
      ReadKeepsPosition(entries[1..], values, id);
      assert Read(entries, values)[1..] == Read(entries[1..], values);
    }
  }

  lemma ViewOfRemove<T, U>(c: Cache<T>, values: map<T, U>, id: nat)
    requires c.Valid() && Known(c.entries, values)
    ensures Known(c.Remove(id).entries, values) && View(c, values).Valid()
    ensures View(c.Remove(id), values) == View(c, values).Remove(id)
  {
    ViewIsValid(c, values);
    ReadKeepsPosition(c.entries, values, id);
    var index := Position(c.entries, id);
    if index < |c.entries| {
      assert Read(Without(c.entries, index), values) == Without(Read(c.entries, values), index);
    }
  }

  lemma {:induction false} ReadOfRoom<T, U>(entries: seq<Entry<T>>, values: map<T, U>, need: nat, budget: nat)
    requires Known(entries, values) && need <= budget
    ensures Known(RoomFor(entries, need, budget), values)
    ensures Read(RoomFor(entries, need, budget), values) == RoomFor(Read(entries, values), need, budget)
  {
    hide TotalBytes, RoomFor;
    ReadKeepsBytes(entries, values);
    RoomStep(entries, need, budget);
    RoomStep(Read(entries, values), need, budget);
    if TotalBytes(entries) + need > budget {
      ReadOfRoom(entries[1..], values, need, budget);
      assert Read(entries, values)[1..] == Read(entries[1..], values);
    }
  }

  lemma ReadOfAppend<T, U>(entries: seq<Entry<T>>, values: map<T, U>, entry: Entry<T>)
    requires Known(entries, values) && entry.tree in values
    ensures Known(entries + [entry], values)
    ensures Read(entries + [entry], values)
         == Read(entries, values) + [Entry(entry.id, entry.size, values[entry.tree])]
  {
  }

  /** Eviction and admission read the same on values. */
  lemma ReadOfAdmission<T, U>(entries: seq<Entry<T>>, values: map<T, U>, entry: Entry<T>, budget: nat)
    requires Known(entries, values) && entry.tree in values && entry.size <= budget
    ensures var kept := RoomFor(entries, entry.size, budget);
            var read := RoomFor(Read(entries, values), entry.size, budget);
            && Known(kept + [entry], values)
            && Read(kept + [entry], values) == read + [Entry(entry.id, entry.size, values[entry.tree])]
            && TotalBytes(kept) == TotalBytes(read)
  {
    ReadOfRoom(entries, values, entry.size, budget);
    var kept := RoomFor(entries, entry.size, budget);
    ReadKeepsBytes(kept, values);
    ReadOfAppend(kept, values, entry);
  }

  lemma ViewOfInsert<T, U>(c: Cache<T>, values: map<T, U>, entry: Entry<T>)
    requires c.Valid() && Known(c.entries, values) && entry.tree in values
    ensures Known(c.Insert(entry).entries, values) && View(c, values).Valid()
    ensures View(c.Insert(entry), values)
         == View(c, values).Insert(Entry(entry.id, entry.size, values[entry.tree]))
  {
    hide RoomFor, TotalBytes, Position;
    ViewOfRemove(c, values, entry.id);
    if entry.size <= c.budget {
      ReadOfAdmission(c.Remove(entry.id).entries, values, entry, c.budget);
    }
  }

  lemma ReadFirst<T, U>(entries: seq<Entry<T>>, values: map<T, U>)
    requires entries != [] && Known(entries, values)
    ensures Known(entries[1..], values)
    ensures Read(entries, values)
         == [Entry(entries[0].id, entries[0].size, values[entries[0].tree])] + Read(entries[1..], values)
  {
  }

  lemma KnownFirst<T, U>(entry: Entry<T>, rest: seq<Entry<T>>, values: map<T, U>)
    requires entry.tree in values && Known(rest, values)
    ensures Known([entry] + rest, values)
    ensures Read([entry] + rest, values) == [Entry(entry.id, entry.size, values[entry.tree])] + Read(rest, values)
  {
  }

  lemma {:induction false} ReadOfBelow<T, U>(entries: seq<Entry<T>>, values: map<T, U>, count: nat)
    requires Known(entries, values)
    ensures Known(Below(entries, count), values)
    ensures Read(Below(entries, count), values) == Below(Read(entries, values), count)
  {
    if entries == [] {
      assert Read(entries, values) == [];
    } else {
      var first, rest := entries[0], Below(entries[1..], count);
      ReadFirst(entries, values);
      ReadOfBelow(entries[1..], values, count);
      KnownFirst(first, rest, values);
      assert Read(entries, values)[1..] == Read(entries[1..], values);
      assert first.id >= count ==> Below(entries, count) == rest;
    }
  }

  lemma ViewOfTruncate<T, U>(c: Cache<T>, values: map<T, U>, count: nat)
    requires c.Valid() && Known(c.entries, values)
    ensures Known(c.Truncate(count).entries, values) && View(c, values).Valid()
    ensures View(c.Truncate(count), values) == View(c, values).Truncate(count)
  {
    ViewIsValid(c, values);
    ReadOfBelow(c.entries, values, count);
    ReadKeepsBytes(Below(c.entries, count), values);
  }

  /** A new value for a tree the cache does not hold is invisible to it. */
  lemma UnheldTreeIsInvisible<T, U>(c: Cache<T>, values: map<T, U>, tree: T, value: U)
    requires Known(c.entries, values) && forall i :: 0 <= i < |c.entries| ==> c.entries[i].tree != tree
    ensures Known(c.entries, values[tree := value]) && View(c, values[tree := value]) == View(c, values)
  {
    assert Read(c.entries, values[tree := value]) == Read(c.entries, values);
  }

  /** Touching an entry with a tree no other entry holds writes that entry's value and nothing else. */
  lemma ViewOfWrite<T, U>(c: Cache<T>, values: map<T, U>, id: nat, tree: T, value: U)
    requires c.Valid() && Known(c.entries, values) && Position(c.entries, id) < |c.entries|
    requires forall k :: 0 <= k < |c.entries| && k != Position(c.entries, id) ==> c.entries[k].tree != tree
    ensures Known(c.Touch(id, tree).entries, values[tree := value]) && View(c, values).Valid()
    ensures Position(View(c, values).entries, id) == Position(c.entries, id)
    ensures View(c.Touch(id, tree), values[tree := value]) == View(c, values).Touch(id, value)
  {
    hide Position, TotalBytes, Distinct, Lacks;
    ViewOfRemove(c, values, id);
    ReadKeepsPosition(c.entries, values, id);
    var index, rest := Position(c.entries, id), c.Remove(id);
    assert forall k :: 0 <= k < |rest.entries| ==> rest.entries[k] == c.entries[if k < index then k else k + 1];
    UnheldTreeIsInvisible(rest, values, tree, value);
    ReadOfAppend(rest.entries, values[tree := value], Entry(id, c.entries[index].size, tree));
  }

  /** A slot write, as the view sees it: the written value takes the entry to the back. */
  lemma WriteOnView<T>(h: Hasher, c: Cache<T>, values: map<T, TreeValue>, id: nat, local: nat, value: SlotValue)
    requires c.Valid() && Known(c.entries, values) && View(c, values).Valid()
             && Runs.Writable(View(c, values), id, local)
    ensures Position(View(c, values).entries, id) == Position(c.entries, id)
    ensures Position(c.entries, id) == |c.entries| ==>
              Runs.UpdateSlot(h, View(c, values), id, local, value) == View(c, values)
    ensures Position(c.entries, id) < |c.entries| ==>
              var tree := c.entries[Position(c.entries, id)].tree;
              && tree in values && values[tree].Sized() && local < Pow2(values[tree].logSlots)
              && Runs.UpdateSlot(h, View(c, values), id, local, value)
                 == View(c, values).Touch(id, values[tree].WithLeaf(h, local, value))
  {
    hide Position, TotalBytes, TreeValue.WithLeaf, Pow2;
    ReadKeepsPosition(c.entries, values, id);
  }

  // ---------------------------------------------------------------------
  // A family of clones
  // ---------------------------------------------------------------------

  datatype CloneOp =
    | Remember(id: nat, log: nat, columns: SegmentColumns)
    | Write(id: nat, local: nat, value: SlotValue)
    | Remove(id: nat)
    | Clear
    | Truncate(count: nat)

  ghost predicate Allowed(view: Cache<TreeValue>, op: CloneOp) {
    match op
    case Remember(_, log, columns) => columns.Shaped(Pow2(log))
    case Write(id, local, _) => Runs.Writable(view, id, local)
    case _ => true
  }

  /** What an operation does to the view of the clone it goes through. */
  ghost function Performed(h: Hasher, view: Cache<TreeValue>, op: CloneOp): (after: Cache<TreeValue>)
    requires view.Valid() && Allowed(view, op)
    ensures after.Valid()
  {
    match op
    case Remember(id, log, columns) => view.Insert(Runs.EntryOf(h, id, Runs.Segment(log, columns)))
    case Write(id, local, value) => Runs.UpdateSlot(h, view, id, local, value)
    case Remove(id) => view.Remove(id)
    case Clear => view.Clear()
    case Truncate(count) => view.Truncate(count)
  }

  /** The single-cache reference: a history of operations, one after the other, on a cache nobody shares. */
  ghost predicate Feasible(h: Hasher, view: Cache<TreeValue>, history: seq<CloneOp>)
    requires view.Valid()
    decreases |history|, 0
  {
    history == [] || (
      var front := history[..|history| - 1];
      Feasible(h, view, front) && Allowed(Unshared(h, view, front), history[|history| - 1]))
  }

  ghost function Unshared(h: Hasher, view: Cache<TreeValue>, history: seq<CloneOp>): (after: Cache<TreeValue>)
    requires view.Valid() && Feasible(h, view, history)
    ensures after.Valid()
    decreases |history|, 1
  {
    if history == [] then view
    else Performed(h, Unshared(h, view, history[..|history| - 1]), history[|history| - 1])
  }

  lemma {:induction false} FeasiblePrefix(h: Hasher, view: Cache<TreeValue>, history: seq<CloneOp>, n: nat)
    requires view.Valid() && Feasible(h, view, history) && n <= |history|
    ensures Feasible(h, view, history[..n])
    decreases |history|
  {
    if n < |history| {
      FeasiblePrefix(h, view, history[..|history| - 1], n);
      assert history[..|history| - 1][..n] == history[..n];
    } else {
      assert history[..n] == history;
    }
  }

  lemma UnsharedNext(h: Hasher, view: Cache<TreeValue>, history: seq<CloneOp>, op: CloneOp)
    requires view.Valid() && Feasible(h, view, history + [op])
    ensures Feasible(h, view, history) && Allowed(Unshared(h, view, history), op)
    ensures Unshared(h, view, history + [op]) == Performed(h, Unshared(h, view, history), op)
  {
    assert (history + [op])[..|history|] == history;
  }

  /** One step of a schedule: an operation through a clone, or a new clone of one. */
  datatype Step = Through(clone: nat, op: CloneOp) | Fork(source: nat)

  /** How many clones there are after a schedule that starts with `n`. */
  function Clones(n: nat, steps: seq<Step>): (count: nat)
    ensures count >= n
  {
    if steps == [] then n
    else Clones(n, steps[..|steps| - 1]) + if steps[|steps| - 1].Fork? then 1 else 0
  }

  /** Every step names a clone that exists by then. */
  ghost predicate Named(n: nat, steps: seq<Step>) {
    steps == [] || (
      var front, last := steps[..|steps| - 1], steps[|steps| - 1];
      Named(n, front) && (if last.Fork? then last.source else last.clone) < Clones(n, front))
  }

  /** The starting cache a clone descends from. */
  ghost function Ancestor(n: nat, steps: seq<Step>, j: nat): (a: nat)
    requires Named(n, steps) && j < Clones(n, steps)
    ensures a < n
    decreases |steps|
  {
    if steps == [] then j
    else
      var front, last := steps[..|steps| - 1], steps[|steps| - 1];
      Ancestor(n, front, if last.Fork? && j == Clones(n, front) then last.source else j)
  }

  /** A clone's own operations, after those its source had seen when it was forked. */
  ghost function History(n: nat, steps: seq<Step>, j: nat): seq<CloneOp>
    requires Named(n, steps) && j < Clones(n, steps)
    decreases |steps|
  {
    if steps == [] then []
    else
      var front, last := steps[..|steps| - 1], steps[|steps| - 1];
      match last
      case Fork(source) => History(n, front, if j == Clones(n, front) then source else j)
      case Through(i, op) => History(n, front, j) + if i == j then [op] else []
  }

  /** Every clone of the schedule can perform its history on its own. */
  ghost predicate Performable(h: Hasher, start: seq<Cache<TreeValue>>, steps: seq<Step>) {
    && Named(|start|, steps)
    && (forall j :: 0 <= j < |start| ==> start[j].Valid())
    && forall j :: 0 <= j < Clones(|start|, steps) ==>
         Feasible(h, start[Ancestor(|start|, steps, j)], History(|start|, steps, j))
  }

  /** Every view is what the clone's history would have left on a cache nobody shares. */
  ghost predicate Isolated(h: Hasher, start: seq<Cache<TreeValue>>, now: seq<Cache<TreeValue>>, steps: seq<Step>) {
    && Performable(h, start, steps) && |now| == Clones(|start|, steps)
    && forall j :: 0 <= j < |now| ==>
         now[j] == Unshared(h, start[Ancestor(|start|, steps, j)], History(|start|, steps, j))
  }

  /** Histories only grow. */
  lemma PerformableFront(h: Hasher, start: seq<Cache<TreeValue>>, steps: seq<Step>)
    requires Performable(h, start, steps) && steps != []
    ensures Performable(h, start, steps[..|steps| - 1])
  {
    var n, front, last := |start|, steps[..|steps| - 1], steps[|steps| - 1];
    forall j | 0 <= j < Clones(n, front)
      ensures Feasible(h, start[Ancestor(n, front, j)], History(n, front, j))
    {
      var before, after := History(n, front, j), History(n, steps, j);
      FeasiblePrefix(h, start[Ancestor(n, front, j)], after, |before|);
      assert after[..|before|] == before;
    }
  }

  lemma {:induction false} PerformablePrefix(h: Hasher, start: seq<Cache<TreeValue>>, steps: seq<Step>, k: nat)
    requires Performable(h, start, steps) && k <= |steps|
    ensures Performable(h, start, steps[..k])
    decreases |steps|
  {
    if k < |steps| {
      PerformableFront(h, start, steps);
      PerformablePrefix(h, start, steps[..|steps| - 1], k);
      assert steps[..|steps| - 1][..k] == steps[..k];
    } else {
      assert steps[..k] == steps;
    }
  }

  lemma IsolatedAtFirst(h: Hasher, start: seq<Cache<TreeValue>>)
    requires Performable(h, start, [])
    ensures Isolated(h, start, start, [])
  {
  }

  /** An operation through one clone keeps every clone to its own history. */
  lemma IsolatedThrough(h: Hasher, start: seq<Cache<TreeValue>>, now: seq<Cache<TreeValue>>, steps: seq<Step>, i: nat,
                        op: CloneOp)
    requires Isolated(h, start, now, steps) && Performable(h, start, steps + [Through(i, op)])
    ensures i < |now| && now[i].Valid() && Allowed(now[i], op)
    ensures Isolated(h, start, now[i := Performed(h, now[i], op)], steps + [Through(i, op)])
  {
    hide Performed, Allowed, Feasible, Unshared, Cache.Valid;
    var n, after := |start|, steps + [Through(i, op)];
    assert after[..|steps|] == steps;
    forall j | 0 <= j < |now|
      ensures Ancestor(n, after, j) == Ancestor(n, steps, j)
      ensures History(n, after, j) == if j == i then History(n, steps, j) + [op] else History(n, steps, j)
    {
      assert History(n, steps, j) + [] == History(n, steps, j);
    }
    assert Feasible(h, start[Ancestor(n, after, i)], History(n, after, i));
    UnsharedNext(h, start[Ancestor(n, steps, i)], History(n, steps, i), op);
  }

  /** A new clone starts from its source's history and no other clone notices. */
  lemma IsolatedFork(h: Hasher, start: seq<Cache<TreeValue>>, now: seq<Cache<TreeValue>>, steps: seq<Step>, source: nat)
    requires Isolated(h, start, now, steps) && Performable(h, start, steps + [Fork(source)])
    ensures source < |now|
    ensures Isolated(h, start, now + [now[source]], steps + [Fork(source)])
  {
    hide Feasible, Unshared, Cache.Valid;
    var n, after := |start|, steps + [Fork(source)];
    assert after[..|steps|] == steps;
    forall j | 0 <= j <= |now|
      ensures var origin := if j == |now| then source else j;
              Ancestor(n, after, j) == Ancestor(n, steps, origin) && History(n, after, j) == History(n, steps, origin)
    {
    }
  }

  /** Every live clone of one cache, and the trees they hold between them. */
  class CacheFamily {
    const h: Hasher
    var caches: seq<ExactSegmentCache>
    /** What each tree in use holds. */
    ghost var values: map<Tree, TreeValue>

    ghost predicate TreesValid()
      reads this, set tree | tree in values :: tree.nodes
    {
      && (forall tree :: tree in values ==>
            tree.h == h && tree.Value() == values[tree] && values[tree].Valid(h))
      && (forall a, b :: a in values && b in values && a != b ==> a.nodes != b.nodes)
    }

    ghost predicate Valid()
      reads this, caches, set tree | tree in values :: tree.nodes
    {
      && (forall i, j :: 0 <= i < j < |caches| ==> caches[i] != caches[j])
      && (forall i :: 0 <= i < |caches| ==> caches[i].Valid() && Known(caches[i].State().entries, values))
      && TreesValid()
    }

    /** Every tree in use was in use before, or has been allocated since. */
    twostate predicate OldOrFresh(before: map<Tree, TreeValue>)
      reads this
    {
      forall tree :: tree in values ==> tree in before || fresh(tree.nodes)
    }

    /** What clone `i` shows. */
    ghost function ViewOf(i: nat): (view: Cache<TreeValue>)
      requires i < |caches| && caches[i].Valid() && Known(caches[i].State().entries, values)
      reads this, caches
      ensures view.Valid()
    {
      ViewIsValid(caches[i].State(), values);
      View(caches[i].State(), values)
    }

    constructor (h: Hasher, budget: nat)
      ensures Valid() && this.h == h && |caches| == 1
      ensures ViewOf(0) == Cache([], 0, budget)
    {
      this.h := h;
      var cache := new ExactSegmentCache(budget);
      caches := [cache];
      values := map[];
    }

    /** Cloning adds a view equal to the cloned one and changes no other. */
    method Clone(i: nat)
      requires Valid() && i < |caches|
      modifies this`caches
      ensures Valid() && |caches| == |old(caches)| + 1
      ensures caches[..|old(caches)|] == old(caches) && fresh(caches[|old(caches)|])
      ensures forall j :: 0 <= j < |old(caches)| ==> ViewOf(j) == old(ViewOf(j))
      ensures ViewOf(|old(caches)|) == old(ViewOf(i))
    {
      var clone := new ExactSegmentCache.Clone(caches[i]);
      caches := caches + [clone];
    }

    /** Drops a segment from clone `i`; every other clone still shows it. */
    method Remove(i: nat, id: nat)
      requires Valid() && i < |caches|
      modifies caches[i]
      ensures Valid()
      ensures ViewOf(i) == old(ViewOf(i)).Remove(id)
      ensures forall j :: 0 <= j < |caches| && j != i ==> ViewOf(j) == old(ViewOf(j))
    {
      ViewOfRemove(caches[i].State(), values, id);
      caches[i].Remove(id);
    }

    /** Takes note of a newly built tree; no clone holds it yet. */
    ghost method Adopt(tree: Tree)
      requires Valid() && tree.h == h && tree.Valid() && tree !in values
      requires forall other :: other in values ==> other.nodes != tree.nodes
      modifies this`values
      ensures Valid() && values == old(values)[tree := tree.Value()]
      ensures forall j :: 0 <= j < |caches| ==> ViewOf(j) == old(ViewOf(j))
    {
      hide TotalBytes, Distinct, SizesHold, View, TreeValue.Valid;
      forall j | 0 <= j < |caches|
        ensures Known(caches[j].State().entries, values[tree := tree.Value()])
        ensures View(caches[j].State(), values[tree := tree.Value()]) == View(caches[j].State(), values)
      {
        UnheldTreeIsInvisible(caches[j].State(), values, tree, tree.Value());
      }
      values := values[tree := tree.Value()];
    }

    method Insert(i: nat, id: nat, tree: Tree)
      requires Valid() && i < |caches| && tree in values
      modifies caches[i]
      ensures Valid()
      ensures ViewOf(i) == old(ViewOf(i)).Insert(Entry(id, ResidentBytes(tree), values[tree]))
      ensures forall j :: 0 <= j < |caches| && j != i ==> ViewOf(j) == old(ViewOf(j))
    {
      ViewOfInsert(caches[i].State(), values, Entry(id, ResidentBytes(tree), tree));
      caches[i].Insert(id, tree);
    }

    /** Builds a tree from columns; no view changes. */
    method Build(logSlots: nat, columns: SegmentColumns) returns (tree: Tree)
      requires Valid() && columns.Shaped(Pow2(logSlots))
      modifies this`values
      ensures Valid() && tree in values && values[tree] == TreeOf(h, logSlots, columns)
      ensures ResidentBytes(tree) == values[tree].ResidentBytes() && OldOrFresh(old(values))
      ensures forall j :: 0 <= j < |caches| ==> ViewOf(j) == old(ViewOf(j))
    {
      hide TotalBytes, Position, RoomFor, TreeOf, View;
      tree := new ExactSegmentTree.FromColumns(h, logSlots, columns);
      Adopt(tree);
    }

    /** Builds a tree from columns and caches it in clone `i`. */
    method Remember(i: nat, id: nat, logSlots: nat, columns: SegmentColumns)
      requires Valid() && i < |caches| && columns.Shaped(Pow2(logSlots))
      modifies this`values, caches[i]
      ensures Valid() && OldOrFresh(old(values))
      ensures ViewOf(i) == old(ViewOf(i)).Insert(Runs.EntryOf(h, id, Runs.Segment(logSlots, columns)))
      ensures forall j :: 0 <= j < |caches| && j != i ==> ViewOf(j) == old(ViewOf(j))
    {
      hide TotalBytes, Position, RoomFor, TreeOf, View, TreeValue.Valid;
      var tree := Build(logSlots, columns);
      Insert(i, id, tree);
    }

    /** Whether entry `index` of clone `i` is the only handle to its tree, as a reference count of one says. */
    predicate IsUnique(i: nat, index: nat)
      requires i < |caches| && index < |caches[i].entries|
      reads this, caches
    {
      forall j, k :: 0 <= j < |caches| && 0 <= k < |caches[j].entries| && (j != i || k != index) ==>
        caches[j].entries[k].tree != caches[i].entries[index].tree
    }

    /** Every handle of the family to one tree: which clone, which entry. */
    ghost function Handles(tree: Tree): set<(nat, nat)>
      reads this, caches
    {
      set j: nat, k: nat | j < |caches| && k < |caches[j].entries| && caches[j].entries[k].tree == tree :: (j, k)
    }

    /** Unique means a count of one: this handle, and no other. */
    lemma UniqueIsOneHandle(i: nat, index: nat)
      requires i < |caches| && index < |caches[i].entries|
      ensures (i, index) in Handles(caches[i].entries[index].tree)
      ensures IsUnique(i, index) <==> Handles(caches[i].entries[index].tree) == {(i, index)}
    {
      var handles := Handles(caches[i].entries[index].tree);
      if handles == {(i, index)} {
        forall j, k | 0 <= j < |caches| && 0 <= k < |caches[j].entries| && (j != i || k != index)
          ensures caches[j].entries[k].tree != caches[i].entries[index].tree
        {
          assert (j, k) !in handles;
        }
      }
    }

    /** Writes the tree of entry `index` in clone `i`, on a private copy unless its handle is unique. */
    method WriteThrough(i: nat, id: nat, index: nat, local: nat, value: SlotValue) returns (tree: Tree)
      requires Valid() && i < |caches| && index == Position(caches[i].entries, id) < |caches[i].entries|
      requires local < Pow2(caches[i].entries[index].tree.logSlots)
      modifies this`values, caches[i], set tree | tree in values :: tree.nodes
      ensures TreesValid() && caches[i].Valid() && OldOrFresh(old(values))
      ensures values == old(values)[tree := old(values[caches[i].entries[index].tree]).WithLeaf(h, local, value)]
      ensures caches[i].State() == old(caches[i].State()).Touch(id, tree)
      ensures if old(IsUnique(i, index)) then tree == old(caches[i].entries[index].tree) else fresh(tree)
      ensures forall j :: 0 <= j < |caches| && j != i ==> caches[j].State() == old(caches[j].State())
      ensures forall j, k :: 0 <= j < |caches| && 0 <= k < |old(caches[j].entries)| && (j != i || k != index) ==>
                old(caches[j].entries)[k].tree != tree
    {
      hide TotalBytes, Pow2, TreeValue.Valid, TreeValue.WithLeaf, Cache.Touch;
      assert caches[i].entries[index].tree in values;
      var unique := IsUnique(i, index);
      var written := caches[i].UpdateSlot(id, local, value, unique);
      tree := written.value;
      values := values[tree := tree.Value()];
    }

    /** A slot write through clone `i` is seen by clone `i` alone. */
    method UpdateSlot(i: nat, id: nat, local: nat, value: SlotValue)
      requires Valid() && i < |caches| && Runs.Writable(ViewOf(i), id, local)
      modifies this`values, caches[i], set tree | tree in values :: tree.nodes
      ensures Valid() && OldOrFresh(old(values))
      ensures ViewOf(i) == Runs.UpdateSlot(h, old(ViewOf(i)), id, local, value)
      ensures forall j :: 0 <= j < |caches| && j != i ==> ViewOf(j) == old(ViewOf(j))
    {
      hide TotalBytes, Pow2, View, Known, Position, TreeValue.WithLeaf, TreeValue.Valid;
      WriteOnView(h, caches[i].State(), values, id, local, value);
      var index := caches[i].Find(id);
      if index < |caches[i].entries| {
        ghost var c, before := caches[i].State(), values;
        ghost var after := values[c.entries[index].tree].WithLeaf(h, local, value);
        var tree := WriteThrough(i, id, index, local, value);
        ViewOfWrite(c, before, id, tree, after);
        forall j | 0 <= j < |caches| && j != i
          ensures Known(caches[j].State().entries, values)
          ensures View(caches[j].State(), values) == View(caches[j].State(), before)
        {
          UnheldTreeIsInvisible(caches[j].State(), before, tree, after);
        }
      }
    }

    method Clear(i: nat)
      requires Valid() && i < |caches|
      modifies caches[i]
      ensures Valid()
      ensures ViewOf(i) == old(ViewOf(i)).Clear()
      ensures forall j :: 0 <= j < |caches| && j != i ==> ViewOf(j) == old(ViewOf(j))
    {
      caches[i].Clear();
    }

    method TruncateSegments(i: nat, count: nat)
      requires Valid() && i < |caches|
      modifies caches[i]
      ensures Valid()
      ensures ViewOf(i) == old(ViewOf(i)).Truncate(count)
      ensures forall j :: 0 <= j < |caches| && j != i ==> ViewOf(j) == old(ViewOf(j))
    {
      ViewOfTruncate(caches[i].State(), values, count);
      caches[i].TruncateSegments(count);
    }

    /** Performs one operation on clone `i`. */
    method Perform(i: nat, op: CloneOp)
      requires Valid() && i < |caches| && Allowed(ViewOf(i), op)
      modifies this`values, caches[i], set tree | tree in values :: tree.nodes
      ensures Valid() && OldOrFresh(old(values))
      ensures ViewOf(i) == Performed(h, old(ViewOf(i)), op)
      ensures forall j :: 0 <= j < |caches| && j != i ==> ViewOf(j) == old(ViewOf(j))
    {
      hide View, TotalBytes, Position, RoomFor;
      match op
      case Remember(id, log, columns) => Remember(i, id, log, columns);
      case Write(id, local, value) => UpdateSlot(i, id, local, value);
      case Remove(id) => Remove(i, id);
      case Clear => Clear(i);
      case Truncate(count) => TruncateSegments(i, count);
    }

    /** What the first `n` clones show. */
    ghost function Views(n: nat): (views: seq<Cache<TreeValue>>)
      requires n <= |caches|
      requires forall i :: 0 <= i < |caches| ==> caches[i].Valid() && Known(caches[i].State().entries, values)
      reads this, caches
      ensures |views| == n && forall j :: 0 <= j < n ==> views[j] == ViewOf(j)
    {
      if n == 0 then [] else Views(n - 1) + [ViewOf(n - 1)]
    }

    /** Every cache in the family was there before, or has been allocated since. */
    twostate predicate SameOrFresh(before: seq<ExactSegmentCache>)
      reads this
    {
      forall i :: 0 <= i < |caches| ==> caches[i] in before || fresh(caches[i])
    }

    /**
     Under any interleaving of operations and forks, each clone shows exactly what its own history (with its source's
     before the fork) would have left on a cache nobody shares.
     */
    method Replay(steps: seq<Step>)
      requires Valid() && Performable(h, Views(|caches|), steps)
      modifies this`values, this`caches, caches, set tree | tree in values :: tree.nodes
      ensures Valid() && Isolated(h, old(Views(|caches|)), Views(|caches|), steps)
    {
      hide View, Known, Performable, Isolated, Cache.Valid, Clones, TreesValid, SizesHold;
      ghost var start := Views(|caches|);
      PerformablePrefix(h, start, steps, 0);
      IsolatedAtFirst(h, start);
      for k := 0 to |steps|
        invariant Valid() && OldOrFresh(old(values)) && SameOrFresh(old(caches))
        invariant Isolated(h, start, Views(|caches|), steps[..k])
      {
        PerformablePrefix(h, start, steps, k + 1);
        assert steps[..k + 1] == steps[..k] + [steps[k]];
        ReplayOne(start, steps[..k], steps[k]);
      }
      assert steps[..|steps|] == steps;
    }

    method ReplayOne(ghost start: seq<Cache<TreeValue>>, ghost steps: seq<Step>, step: Step)
      requires Valid() && Isolated(h, start, Views(|caches|), steps) && Performable(h, start, steps + [step])
      modifies this`values, this`caches, caches, set tree | tree in values :: tree.nodes
      ensures Valid() && OldOrFresh(old(values)) && SameOrFresh(old(caches))
      ensures Isolated(h, start, Views(|caches|), steps + [step])
    {
      hide View, Known, Performed, Performable, Isolated, TreesValid, Allowed, Cache.Valid, Clones;
      ghost var before := Views(|caches|);
      match step
      case Through(i, op) =>
        IsolatedThrough(h, start, before, steps, i, op);
        Perform(i, op);
        assert Views(|caches|) == before[i := Performed(h, before[i], op)];
      case Fork(source) =>
        IsolatedFork(h, start, before, steps, source);
        Clone(source);
        assert Views(|caches|) == before + [before[source]];
    }
  }
}
