/**
 The bounded write-recency cache, over any kind of tree handle. An entry carries its tree's resident
 size, which no slot write changes.
 */
module SegmentCacheModel {
  import opened Options
  import opened Powers
  import opened StateHashing
  import opened SegmentTree

  const DEFAULT_CACHE_BYTES: nat := 64 * 1024 * 1024

  datatype Entry<T> = Entry(id: nat, size: nat, tree: T)

  function TotalBytes<T>(entries: seq<Entry<T>>): nat {
    if entries == [] then 0 else entries[0].size + TotalBytes(entries[1..])
  }

  /** Index of the entry for `id`, or the length if there is none. */
  function Position<T>(entries: seq<Entry<T>>, id: nat): (index: nat)
    ensures index <= |entries|
    ensures index < |entries| ==> entries[index].id == id
    ensures forall i :: 0 <= i < index ==> entries[i].id != id
  {
    if entries == [] || entries[0].id == id then 0 else 1 + Position(entries[1..], id)
  }

  function Without<T>(entries: seq<Entry<T>>, index: nat): seq<Entry<T>>
    requires index < |entries|
  {
    entries[..index] + entries[index + 1..]
  }

  /** What remains once the oldest entries have made room for `need` bytes. */
  function RoomFor<T>(entries: seq<Entry<T>>, need: nat, budget: nat): (kept: seq<Entry<T>>)
    requires need <= budget
    ensures |kept| <= |entries| && kept == entries[|entries| - |kept|..]
    ensures TotalBytes(kept) + need <= budget
  {
    if TotalBytes(entries) + need <= budget then entries else RoomFor(entries[1..], need, budget)
  }

  /** One step of making room. */
  lemma RoomStep<T>(entries: seq<Entry<T>>, need: nat, budget: nat)
    requires need <= budget
    ensures TotalBytes(entries) + need <= budget ==> RoomFor(entries, need, budget) == entries
    ensures TotalBytes(entries) + need > budget ==>
              && entries != [] && RoomFor(entries, need, budget) == RoomFor(entries[1..], need, budget)
              && TotalBytes(entries) == entries[0].size + TotalBytes(entries[1..])
  {
  }

  function Below<T>(entries: seq<Entry<T>>, count: nat): seq<Entry<T>> {
    if entries == [] then []
    else (if entries[0].id < count then [entries[0]] else []) + Below(entries[1..], count)
  }

  ghost predicate Distinct<T>(entries: seq<Entry<T>>) {
    forall i, j :: 0 <= i < j < |entries| ==> entries[i].id != entries[j].id
  }

  ghost predicate Lacks<T>(entries: seq<Entry<T>>, id: nat) {
    forall i :: 0 <= i < |entries| ==> entries[i].id != id
  }

  datatype Cache<T> = Cache(entries: seq<Entry<T>>, bytes: nat, budget: nat) {

    /** Exact accounting, within budget, one entry per segment. */
    ghost predicate Valid() {
      bytes == TotalBytes(entries) <= budget && Distinct(entries)
    }

    function Get(id: nat): Option<T> {
      var index := Position(entries, id);
      if index < |entries| then Some(entries[index].tree) else None
    }

    function Remove(id: nat): (c: Cache<T>)
      requires Valid()
      ensures c.Valid() && c.budget == budget && Lacks(c.entries, id)
    {
      var index := Position(entries, id);
      if index == |entries| then this
      else
        WithoutBytes(entries, index);
        Cache(Without(entries, index), bytes - entries[index].size, budget)
    }

    function Insert(entry: Entry<T>): (c: Cache<T>)
      requires Valid()
      ensures c.Valid() && c.budget == budget
    {
      var rest := Remove(entry.id);
      if entry.size > budget then rest
      else
        var kept := RoomFor(rest.entries, entry.size, budget);
        AppendKeepsValid(rest.entries, |rest.entries| - |kept|, entry);
        Cache(kept + [entry], TotalBytes(kept) + entry.size, budget)
    }

    /** A write moves its entry to the recent end with `tree` in place of the old handle. */
    function Touch(id: nat, tree: T): (c: Cache<T>)
      requires Valid() && Position(entries, id) < |entries|
      ensures c.Valid() && c.budget == budget
    {
      var index := Position(entries, id);
      var rest := Remove(id).entries;
      WithoutBytes(entries, index);
      AppendKeepsValid(rest, 0, Entry(id, entries[index].size, tree));
      assert rest[0..] == rest;
      Cache(rest + [Entry(id, entries[index].size, tree)], bytes, budget)
    }

    function Clear(): (c: Cache<T>)
      ensures c.Valid() && c.budget == budget
    {
      Cache([], 0, budget)
    }

    function Truncate(count: nat): (c: Cache<T>)
      requires Valid()
      ensures c.Valid() && c.budget == budget
    {
      BelowIsSmaller(entries, count);
      Cache(Below(entries, count), TotalBytes(Below(entries, count)), budget)
    }
  }

  lemma {:induction false} WithoutBytes<T>(entries: seq<Entry<T>>, index: nat)
    requires index < |entries|
    ensures TotalBytes(entries) == TotalBytes(Without(entries, index)) + entries[index].size
  {
    if index == 0 {
      assert Without(entries, 0) == entries[1..];
    } else {
      WithoutBytes(entries[1..], index - 1);
      assert Without(entries, index) == [entries[0]] + Without(entries[1..], index - 1);
    }
  }

  lemma {:induction false} AppendBytes<T>(entries: seq<Entry<T>>, entry: Entry<T>)
    ensures TotalBytes(entries + [entry]) == TotalBytes(entries) + entry.size
  {
    if entries != [] {
      AppendBytes(entries[1..], entry);
      assert (entries + [entry])[1..] == entries[1..] + [entry];
    }
  }

  lemma AppendKeepsValid<T>(entries: seq<Entry<T>>, from: nat, entry: Entry<T>)
    requires from <= |entries| && Distinct(entries) && Lacks(entries, entry.id)
    ensures Distinct(entries[from..] + [entry])
    ensures TotalBytes(entries[from..] + [entry]) == TotalBytes(entries[from..]) + entry.size
  {
    AppendBytes(entries[from..], entry);
  }

  lemma {:induction false} BelowLacks<T>(entries: seq<Entry<T>>, count: nat, id: nat)
    requires Lacks(entries, id)
    ensures Lacks(Below(entries, count), id)
  {
    if entries != [] {
      BelowLacks(entries[1..], count, id);
    }
  }

  lemma {:induction false} BelowIsSmaller<T>(entries: seq<Entry<T>>, count: nat)
    requires Distinct(entries)
    ensures TotalBytes(Below(entries, count)) <= TotalBytes(entries)
    ensures Distinct(Below(entries, count))
  {
    if entries != [] {
      BelowIsSmaller(entries[1..], count);
      if entries[0].id < count {
        BelowLacks(entries[1..], count, entries[0].id);
        assert Below(entries, count)[1..] == Below(entries[1..], count);
      } else {
        assert Below(entries, count) == Below(entries[1..], count);
      }
    }
  }

  /** Truncation keeps exactly the entries below the count, in their order. */
  lemma {:induction false} BelowKeeps<T>(entries: seq<Entry<T>>, count: nat, rest: seq<Entry<T>>)
    ensures forall e :: e in Below(entries, count) <==> e in entries && e.id < count
    ensures Below(entries + rest, count) == Below(entries, count) + Below(rest, count)
  {
    hide Below;
    BelowStep(entries, count);
    BelowStep(entries + rest, count);
    if entries == [] {
      assert entries + rest == rest;
    } else {
      BelowKeeps(entries[1..], count, rest);
      assert (entries + rest)[1..] == entries[1..] + rest;
      assert entries == [entries[0]] + entries[1..];
    }
  }

  lemma BelowStep<T>(entries: seq<Entry<T>>, count: nat)
    ensures Below(entries, count) == if entries == [] then [] else
              (if entries[0].id < count then [entries[0]] else []) + Below(entries[1..], count)
  {
  }

  // ---------------------------------------------------------------------
  // What removal and touching leave alone
  // ---------------------------------------------------------------------

  /** The entries of all other segments, in order. */
  function Others<T>(entries: seq<Entry<T>>, id: nat): seq<Entry<T>> {
    if entries == [] then []
    else (if entries[0].id == id then [] else [entries[0]]) + Others(entries[1..], id)
  }

  lemma {:induction false} OthersOfAbsent<T>(entries: seq<Entry<T>>, id: nat)
    requires Lacks(entries, id)
    ensures Others(entries, id) == entries
  {
    if entries != [] {
      OthersOfAbsent(entries[1..], id);
    }
  }

  lemma {:induction false} WithoutIsOthers<T>(entries: seq<Entry<T>>, index: nat)
    requires Distinct(entries) && index < |entries|
    ensures Without(entries, index) == Others(entries, entries[index].id)
  {
    if index == 0 {
      OthersOfAbsent(entries[1..], entries[0].id);
      assert Without(entries, 0) == entries[1..];
    } else {
      WithoutIsOthers(entries[1..], index - 1);
      assert Without(entries, index) == [entries[0]] + Without(entries[1..], index - 1);
    }
  }

  /** Removal drops that segment's entry and nothing else; a write moves it to the recent end and moves nothing else. */
  lemma OnlyItsOwnEntryMoves<T>(c: Cache<T>, id: nat, tree: T)
    requires c.Valid()
    ensures c.Remove(id).entries == Others(c.entries, id)
    ensures Position(c.entries, id) < |c.entries| ==>
              c.Touch(id, tree).entries
              == Others(c.entries, id) + [Entry(id, c.entries[Position(c.entries, id)].size, tree)]
  {
    var index := Position(c.entries, id);
    if index < |c.entries| {
      WithoutIsOthers(c.entries, index);
    } else {
      OthersOfAbsent(c.entries, id);
    }
  }

  lemma {:induction false} OthersAre<T>(entries: seq<Entry<T>>, id: nat)
    ensures forall e :: e in Others(entries, id) <==> e in entries && e.id != id
  {
    if entries != [] {
      OthersAre(entries[1..], id);
      assert entries == [entries[0]] + entries[1..];
    }
  }

  ghost predicate Holding<T>(c: Cache<T>, id: nat, tree: T) {
    exists e :: e in c.entries && e.id == id && e.tree == tree
  }

  /** A lookup answers exactly with the tree its segment's entry holds. */
  lemma GetFindsEntry<T>(c: Cache<T>, id: nat, tree: T)
    requires c.Valid()
    ensures c.Get(id) == Some(tree) <==> Holding(c, id, tree)
  {
    var index := Position(c.entries, id);
    if index < |c.entries| {
      assert c.entries[index] in c.entries;
    }
    if Holding(c, id, tree) {
      var e :| e in c.entries && e.id == id && e.tree == tree;
      var i :| 0 <= i < |c.entries| && c.entries[i] == e;
      assert index == i;
    }
  }

  /** What was last put in for a segment is what a lookup finds; a removal hides that segment and no other. */
  lemma GetAfterPut<T>(c: Cache<T>, entry: Entry<T>, other: nat, tree: T)
    requires c.Valid()
    ensures entry.size <= c.budget ==> c.Insert(entry).Get(entry.id) == Some(entry.tree)
    ensures c.Get(entry.id).Some? ==> c.Touch(entry.id, entry.tree).Get(entry.id) == Some(entry.tree)
    ensures c.Remove(entry.id).Get(other) == Some(tree) <==> other != entry.id && c.Get(other) == Some(tree)
  {
    hide Position, RoomFor, Without, Others, TotalBytes;
    var id := entry.id;
    OnlyItsOwnEntryMoves(c, id, entry.tree);
    OthersAre(c.entries, id);
    GetFindsEntry(c, other, tree);
    GetFindsEntry(c.Remove(id), other, tree);
    if entry.size <= c.budget {
      assert entry in c.Insert(entry).entries;
      GetFindsEntry(c.Insert(entry), id, entry.tree);
    }
    if c.Get(id).Some? {
      var moved := c.Touch(id, entry.tree);
      assert moved.entries[|moved.entries| - 1] in moved.entries;
      GetFindsEntry(moved, id, entry.tree);
    }
  }

  // ---------------------------------------------------------------------
  // What an admitted insert evicts
  // ---------------------------------------------------------------------

  /** The number of oldest entries evicted to make room. */
  function Evictions<T>(entries: seq<Entry<T>>, need: nat, budget: nat): nat
    requires need <= budget
  {
    |entries| - |RoomFor(entries, need, budget)|
  }

  lemma {:induction false} RoomIsTight<T>(entries: seq<Entry<T>>, need: nat, budget: nat, k: nat)
    requires need <= budget && k < Evictions(entries, need, budget)
    ensures TotalBytes(entries[k..]) + need > budget
  {
    if k == 0 {
      assert entries[0..] == entries;
    } else {
      RoomIsTight(entries[1..], need, budget, k - 1);
      assert entries[k..] == entries[1..][k - 1..];
    }
  }

  /** An admitted insert evicts exactly the shortest oldest-first prefix that lets the new tree fit. */
  lemma InsertEvictsShortestPrefix<T>(c: Cache<T>, entry: Entry<T>)
    requires c.Valid() && entry.size <= c.budget
    ensures var others := c.Remove(entry.id).entries;
            var k := Evictions(others, entry.size, c.budget);
            && k <= |others|
            && c.Insert(entry).entries == others[k..] + [entry]
            && TotalBytes(others[k..]) + entry.size <= c.budget
            && forall j :: 0 <= j < k ==> TotalBytes(others[j..]) + entry.size > c.budget
  {
    var others := c.Remove(entry.id).entries;
    forall j | 0 <= j < Evictions(others, entry.size, c.budget)
      ensures TotalBytes(others[j..]) + entry.size > c.budget
    {
      RoomIsTight(others, entry.size, c.budget, j);
    }
  }

  // ---------------------------------------------------------------------
  // Capacity at production geometry
  // ---------------------------------------------------------------------

  lemma {:induction false} TotalAtLeast<T>(entries: seq<Entry<T>>, each: nat)
    requires forall i :: 0 <= i < |entries| ==> entries[i].size >= each
    ensures TotalBytes(entries) >= |entries| * each
  {
    if entries != [] {
      TotalAtLeast(entries[1..], each);
      assert |entries| * each == |entries[1..]| * each + each;
    }
  }

  /** A built tree counts two nodes per slot, one zero root per level and three 16-byte columns. */
  lemma BuiltTreeBytes(h: Hasher, log: nat, columns: SegmentColumns)
    requires columns.Shaped(Pow2(log))
    ensures TreeOf(h, log, columns).ResidentBytes() == 32 * (2 * Pow2(log) + log + 1) + 48 * Pow2(log)
  {
  }

  /** With 2^16-slot segments and the default budget, a view never holds more than nine trees. */
  lemma AtMostNineTrees(h: Hasher, c: Cache<TreeValue>, log: nat, columns: map<nat, SegmentColumns>)
    requires c.Valid() && c.budget == DEFAULT_CACHE_BYTES && log == LOG_SEGMENT_SIZE
    requires forall id :: id in columns ==> columns[id].Shaped(Pow2(log))
    requires forall i :: 0 <= i < |c.entries| ==>
               && c.entries[i].id in columns && c.entries[i].size == c.entries[i].tree.ResidentBytes()
               && c.entries[i].tree == TreeOf(h, log, columns[c.entries[i].id])
    ensures |c.entries| <= 9
  {
    hide TotalBytes;
    assert Pow2(16) == 65536 by {
      assert Pow2(4) == 16;
      assert Pow2(8) == 256;
      assert Pow2(12) == 4096;
    }
    TotalAtLeast(c.entries, 7340576);
  }
}
