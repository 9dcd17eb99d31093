/** The cache as it runs: clones share trees on the heap, and a shared tree is copied before it is written. */
module SegmentCache {
  import opened Options
  import opened Powers
  import opened StateHashing
  import opened SegmentTree
  import opened SegmentCacheModel

  type Tree = ExactSegmentTree

  function ResidentBytes(tree: Tree): nat {
    (tree.nodes.Length + |tree.zeros|) * HASH_BYTES + tree.columnBytes
  }

  /** Entry sizes are their trees' own. */
  ghost predicate SizesHold(entries: seq<Entry<Tree>>) {
    forall i :: 0 <= i < |entries| ==> entries[i].size == ResidentBytes(entries[i].tree)
  }

  /** Appending to what eviction kept keeps ids distinct and the byte count exact. */
  lemma AdmissionIsSound(others: seq<Entry<Tree>>, entry: Entry<Tree>, budget: nat)
    requires Distinct(others) && Lacks(others, entry.id) && SizesHold(others) && entry.size <= budget
    requires entry.size == ResidentBytes(entry.tree)
    ensures var kept := RoomFor(others, entry.size, budget);
            && Distinct(kept + [entry]) && SizesHold(kept + [entry])
            && TotalBytes(kept + [entry]) == TotalBytes(kept) + entry.size <= budget
  {
    hide Distinct, Lacks, TotalBytes;
    AppendKeepsValid(others, |others| - |RoomFor(others, entry.size, budget)|, entry);
  }

  class ExactSegmentCache {
    const budget: nat
    var entries: seq<Entry<Tree>>
    var bytes: nat

    ghost function State(): Cache<Tree>
      reads this
    {
      Cache(entries, bytes, budget)
    }

    ghost predicate Valid()
      reads this
    {
      State().Valid() && SizesHold(entries)
    }

    constructor (budget: nat)
      ensures Valid() && State() == Cache([], 0, budget)
    {
      this.budget := budget;
      entries := [];
      bytes := 0;
    }

    /** A clone shares every tree. */
    constructor Clone(source: ExactSegmentCache)
      requires source.Valid()
      ensures Valid() && State() == source.State()
    {
      budget := source.budget;
      entries := source.entries;
      bytes := source.bytes;
    }

    method Find(id: nat) returns (index: nat)
      ensures index == Position(entries, id)
    {
      index := 0;
      while index < |entries| && entries[index].id != id
        invariant index <= |entries|
        invariant forall i :: 0 <= i < index ==> entries[i].id != id
      {
        index := index + 1;
      }
    }

    method Get(id: nat) returns (tree: Option<Tree>)
      ensures tree == State().Get(id)
    {
      var index := Find(id);
      if index < |entries| {
        return Some(entries[index].tree);
      }
      return None;
    }

    method Remove(id: nat)
      requires Valid()
      modifies this
      ensures Valid() && State() == old(State()).Remove(id)
    {
      hide TotalBytes, Position;
      var index := Find(id);
      if index < |entries| {
        ghost var after := State().Remove(id);
        bytes := bytes - ResidentBytes(entries[index].tree);
        entries := entries[..index] + entries[index + 1..];
        assert State() == after;
      }
    }

    /** Evicts from the old end until `need` more bytes fit; the list never runs out first. */
    method EvictFor(need: nat)
      requires Valid() && need <= budget
      modifies this
      ensures Valid() && entries == RoomFor(old(entries), need, budget)
    {
      hide RoomFor, TotalBytes;
      while bytes + need > budget
        invariant Valid()
        invariant RoomFor(entries, need, budget) == RoomFor(old(entries), need, budget)
        decreases |entries|
      {
        RoomStep(entries, need, budget);
        bytes := bytes - ResidentBytes(entries[0].tree);
        entries := entries[1..];
      }
      RoomStep(entries, need, budget);
    }

    method Admit(entry: Entry<Tree>)
      requires Valid() && Lacks(entries, entry.id)
      requires entry.size == ResidentBytes(entry.tree) && entry.size <= budget
      modifies this
      ensures Valid()
      ensures entries == RoomFor(old(entries), entry.size, budget) + [entry]
    {
      hide TotalBytes, RoomFor, Distinct, Lacks, SizesHold;
      AdmissionIsSound(entries, entry, budget);
      EvictFor(entry.size);
      entries := entries + [entry];
      bytes := bytes + entry.size;
    }

    method Insert(id: nat, tree: Tree)
      requires Valid()
      modifies this
      ensures Valid() && State() == old(State()).Insert(Entry(id, ResidentBytes(tree), tree))
    {
      Remove(id);
      var entry := Entry(id, ResidentBytes(tree), tree);
      if entry.size <= budget {
        Admit(entry);
      }
    }

    method Clear()
      modifies this
      ensures Valid() && State() == old(State()).Clear()
    {
      entries := [];
      bytes := 0;
    }

    method TruncateSegments(count: nat)
      requires Valid()
      modifies this
      ensures Valid() && State() == old(State()).Truncate(count)
    {
      BelowIsSmaller(entries, count);
      var kept, total := Retain(entries, count);
      entries := kept;
      bytes := total;
    }

    static method Retain(all: seq<Entry<Tree>>, count: nat) returns (kept: seq<Entry<Tree>>, total: nat)
      requires SizesHold(all)
      ensures kept == Below(all, count) && total == TotalBytes(kept)
      ensures SizesHold(kept)
    {
      kept := [];
      for i := 0 to |all|
        invariant Below(all, count) == kept + Below(all[i..], count)
        invariant SizesHold(kept)
      {
        assert all[i..][1..] == all[i + 1..];
        if all[i].id < count {
          kept := kept + [all[i]];
        }
      }
      total := 0;
      for i := 0 to |kept|
        invariant total + TotalBytes(kept[i..]) == TotalBytes(kept)
      {
        assert kept[i..][1..] == kept[i + 1..];
        total := total + ResidentBytes(kept[i].tree);
      }
    }

    /**
     Writes one slot of a cached tree. A handle that is not `unique` is first replaced by a private copy,
     so the tree that others hold is never written.
     */
    method UpdateSlot(id: nat, local: nat, value: SlotValue, unique: bool) returns (written: Option<Tree>)
      requires Valid()
      requires State().Get(id).Some? ==>
                 State().Get(id).value.Valid() && local < Pow2(State().Get(id).value.logSlots)
      modifies this, if State().Get(id).Some? && unique then {State().Get(id).value.nodes} else {}
      ensures Valid()
      ensures written.None? <==> old(State()).Get(id).None?
      ensures written.None? ==> State() == old(State())
      ensures written.Some? ==>
                && State() == old(State()).Touch(id, written.value)
                && written.value.Valid() && written.value.h == old(State()).Get(id).value.h
                && written.value.Value()
                   == old(State().Get(id).value.Value()).WithLeaf(written.value.h, local, value)
                && if unique then written == old(State()).Get(id)
                   else fresh(written.value) && fresh(written.value.nodes)
    {
      hide TotalBytes, Position, TreeValue.WithLeaf, TreeValue.Valid, Pow2;
      var index := Find(id);
      if index == |entries| {
        return None;
      }
      var entry := entries[index];
      var tree := entry.tree;
      if !unique {
        tree := new ExactSegmentTree.Clone(tree);
      }
      tree.SetSlot(local, value);
      ghost var touched := old(State()).Touch(id, tree);
      entries := entries[..index] + entries[index + 1..] + [Entry(id, entry.size, tree)];
      assert State() == touched;
      return Some(tree);
    }
  }
}
