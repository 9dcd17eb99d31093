/** The benchmark's matrix cache: least recently requested out, over any run of hits, loads and failed loads. */
module MatrixCache {
  import opened Options

  const MATRIX_CACHE_CAPACITY: nat := 2

  // ---------------------------------------------------------------------
  // Recency
  // ---------------------------------------------------------------------

  function Without(xs: seq<nat>, x: nat): seq<nat> {
    if xs == [] then [] else (if xs[0] == x then [] else [xs[0]]) + Without(xs[1..], x)
  }

  lemma {:induction false} WithoutMembers(xs: seq<nat>, x: nat)
    ensures forall y :: y in Without(xs, x) <==> y in xs && y != x
  {
    if xs != [] {
      WithoutMembers(xs[1..], x);
      assert xs == [xs[0]] + xs[1..];
    }
  }

  /** The distinct classes of a trace, least recently requested first. */
  function Recent(trace: seq<nat>): seq<nat> {
    if trace == [] then []
    else Without(Recent(trace[..|trace| - 1]), trace[|trace| - 1]) + [trace[|trace| - 1]]
  }

  /** Where a class was last requested. */
  function LastAt(trace: seq<nat>, x: nat): (at: int)
    ensures -1 <= at < |trace|
  {
    if trace == [] then -1 else if trace[|trace| - 1] == x then |trace| - 1 else LastAt(trace[..|trace| - 1], x)
  }

  ghost predicate Distinct(xs: seq<nat>) {
    forall i, j :: 0 <= i < j < |xs| ==> xs[i] != xs[j]
  }

  /** Listed in order of last request. */
  ghost predicate ByLastRequest(xs: seq<nat>, trace: seq<nat>) {
    forall i, j :: 0 <= i < j < |xs| ==> LastAt(trace, xs[i]) < LastAt(trace, xs[j])
  }

  lemma {:induction false} WithoutKeepsOrder(xs: seq<nat>, x: nat, trace: seq<nat>)
    requires ByLastRequest(xs, trace)
    ensures ByLastRequest(Without(xs, x), trace)
  {
    hide LastAt;
    if xs != [] {
      var rest := Without(xs[1..], x);
      WithoutKeepsOrder(xs[1..], x, trace);
      WithoutMembers(xs[1..], x);
      forall k | 0 <= k < |rest|
        ensures LastAt(trace, xs[0]) < LastAt(trace, rest[k])
      {
        assert rest[k] in xs[1..];
      }
    }
  }

  /** Exactly the requested classes, each once, in order of last request. */
  lemma {:induction false} RecentIsByLastRequest(trace: seq<nat>)
    ensures ByLastRequest(Recent(trace), trace)
    ensures forall x :: x in Recent(trace) <==> x in trace
  {
    if trace != [] {
      var front, last := trace[..|trace| - 1], trace[|trace| - 1];
      var rest := Without(Recent(front), last);
      RecentIsByLastRequest(front);
      WithoutKeepsOrder(Recent(front), last, front);
      WithoutMembers(Recent(front), last);
      RequestGoesLast(rest, front, last);
      assert trace == front + [last];
    }
  }

  lemma RequestGoesLast(rest: seq<nat>, front: seq<nat>, last: nat)
    requires ByLastRequest(rest, front) && last !in rest
    ensures ByLastRequest(rest + [last], front + [last])
  {
    var trace := front + [last];
    assert trace[..|front|] == front;
    forall k | 0 <= k < |rest|
      ensures LastAt(trace, rest[k]) == LastAt(front, rest[k])
    {
      assert rest[k] in rest;
    }
    assert LastAt(trace, last) == |front|;
  }

  lemma OrderedIsDistinct(xs: seq<nat>, trace: seq<nat>)
    requires ByLastRequest(xs, trace)
    ensures Distinct(xs)
  {
    hide LastAt;
  }

  /** The last `n` elements, or all of them. */
  function Newest(xs: seq<nat>, n: nat): (newest: seq<nat>)
    ensures |newest| <= n && |newest| <= |xs|
  {
    xs[Skipped(|xs|, n)..]
  }

  /** How many of `length` elements are older than the newest `n`. */
  function Skipped(length: nat, n: nat): nat {
    if length <= n then 0 else length - n
  }

  lemma {:induction false} WithoutAbsent(xs: seq<nat>, x: nat)
    requires x !in xs
    ensures Without(xs, x) == xs
  {
    if xs != [] {
      WithoutAbsent(xs[1..], x);
    }
  }

  /** Removing one of distinct elements cuts it out. */
  lemma {:induction false} WithoutCuts(xs: seq<nat>, i: nat)
    requires Distinct(xs) && i < |xs|
    ensures Without(xs, xs[i]) == xs[..i] + xs[i + 1..]
  {
    if i == 0 {
      WithoutAbsent(xs[1..], xs[0]);
    } else {
      WithoutCuts(xs[1..], i - 1);
      assert xs[..i] == [xs[0]] + xs[1..][..i - 1] && xs[1..][i..] == xs[i + 1..];
    }
  }

  /** A hit: taking a kept class to the back of the queue is what taking it to the back of the history keeps. */
  lemma HitKeepsNewest(recent: seq<nat>, n: nat, i: nat)
    requires Distinct(recent) && i < |Newest(recent, n)|
    ensures var kept := Newest(recent, n);
            kept[..i] + kept[i + 1..] + [kept[i]] == Newest(Without(recent, kept[i]) + [kept[i]], n)
  {
    hide Without;
    var kept := Newest(recent, n);
    var skipped := Skipped(|recent|, n);
    WithoutCuts(recent, skipped + i);
    assert recent[skipped + i] == kept[i];
    MoveInTail(recent, skipped, i);
  }

  /** Moving an element of a tail to the back leaves what stands before the tail. */
  lemma MoveInTail(xs: seq<nat>, skipped: nat, i: nat)
    requires skipped + i < |xs|
    ensures var tail, at := xs[skipped..], skipped + i;
            (xs[..at] + xs[at + 1..] + [xs[at]])[skipped..] == tail[..i] + tail[i + 1..] + [tail[i]]
  {
    var tail, at := xs[skipped..], skipped + i;
    assert (xs[..at] + xs[at + 1..] + [xs[at]])[skipped..] == xs[skipped..at] + xs[at + 1..] + [xs[at]];
    assert xs[skipped..at] == tail[..i] && xs[at + 1..] == tail[i + 1..];
  }

  lemma KeptAreNewest(xs: seq<nat>, n: nat, i: nat)
    requires i < |xs|
    ensures i >= |xs| - n ==> xs[i] in Newest(xs, n)
  {
    if i >= |xs| - n && |xs| > n {
      assert xs[|xs| - n..][i - (|xs| - n)] == xs[i];
    }
  }

  /** A load: appending a class that is not kept, then dropping the oldest beyond the limit. */
  lemma LoadKeepsNewest(recent: seq<nat>, n: nat, x: nat)
    requires Distinct(recent) && x !in Newest(recent, n)
    ensures Newest(Newest(recent, n) + [x], n) == Newest(Without(recent, x) + [x], n)
  {
    hide Without;
    if x !in recent {
      WithoutAbsent(recent, x);
    } else {
      var at :| 0 <= at < |recent| && recent[at] == x;
      WithoutCuts(recent, at);
      KeptAreNewest(recent, n, at);
      var moved := recent[..at] + recent[at + 1..] + [x];
      assert moved[|recent| - n..] == (recent[|recent| - n..] + [x])[1..];
    }
  }

  // ---------------------------------------------------------------------
  // The cache
  // ---------------------------------------------------------------------

  class PinnedMatrixCache<Matrix> {
    const capacity: nat
    var classes: seq<nat>
    var matrices: seq<Matrix>
    /** Classes of all successful requests, and what each class's last load returned. */
    ghost var trace: seq<nat>
    ghost var loaded: map<nat, Matrix>

    ghost predicate Valid()
      reads this
    {
      && |matrices| == |classes|
      && classes == Newest(Recent(trace), capacity)
      && forall i :: 0 <= i < |classes| ==> classes[i] in loaded && matrices[i] == loaded[classes[i]]
    }

    constructor (capacity: nat)
      ensures Valid() && this.capacity == capacity && trace == []
    {
      this.capacity := capacity;
      classes := [];
      matrices := [];
      trace := [];
      loaded := map[];
    }

    /**
     A hit moves its class to the back; a successful load goes to the back and evicts the front; a failure changes
     nothing.
     */
    method LoadChecked(id: nat, fromDisk: Option<Matrix>) returns (matrix: Option<Matrix>)
      requires Valid()
      modifies this
      ensures Valid()
      ensures if id in old(classes) then matrix == Some(old(loaded)[id]) && loaded == old(loaded)
              else
                && matrix == fromDisk
                && loaded == if fromDisk.Some? then old(loaded)[id := fromDisk.value] else old(loaded)
      ensures trace == if matrix.Some? then old(trace) + [id] else old(trace)
      ensures matrix.None? ==> classes == old(classes) && matrices == old(matrices)
    {
      hide Without, Recent, Newest;
      RecentIsByLastRequest(trace);
      OrderedIsDistinct(Recent(trace), trace);
      RecentAppend(trace, id);
      var position := Find(id);
      if position < |classes| {
        matrix := Some(matrices[position]);
        HitKeepsNewest(Recent(trace), capacity, position);
        MoveToBack(position);
        trace := trace + [id];
      } else if fromDisk.Some? {
        matrix := fromDisk;
        LoadKeepsNewest(Recent(trace), capacity, id);
        Push(id, fromDisk.value);
        loaded := loaded[id := fromDisk.value];
        trace := trace + [id];
      } else {
        matrix := None;
      }
    }

    method MoveToBack(position: nat)
      requires |matrices| == |classes| && position < |classes|
      modifies this`classes, this`matrices
      ensures |matrices| == |classes| == |old(classes)|
      ensures classes == old(classes)[..position] + old(classes)[position + 1..] + [old(classes)[position]]
      ensures forall i :: 0 <= i < |classes| ==>
                var was := if i < position then i else if i == |classes| - 1 then position else i + 1;
                classes[i] == old(classes)[was] && matrices[i] == old(matrices)[was]
    {
      classes := classes[..position] + classes[position + 1..] + [classes[position]];
      matrices := matrices[..position] + matrices[position + 1..] + [matrices[position]];
    }

    method Find(id: nat) returns (position: nat)
      ensures position <= |classes| && (position < |classes| ==> classes[position] == id)
      ensures position == |classes| ==> id !in classes
    {
      position := 0;
      while position < |classes| && classes[position] != id
        invariant position <= |classes| && id !in classes[..position]
      {
        position := position + 1;
      }
    }

    method Push(id: nat, matrix: Matrix)
      requires |matrices| == |classes|
      modifies this`classes, this`matrices
      ensures |matrices| == |classes| && classes == Newest(old(classes) + [id], capacity)
      ensures |classes| <= |old(classes)| + 1
      ensures forall i :: 0 <= i < |classes| ==>
                var was := |old(classes)| + 1 - |classes| + i;
                classes[i] == (old(classes) + [id])[was] && matrices[i] == (old(matrices) + [matrix])[was]
    {
      ghost var all, values := classes + [id], matrices + [matrix];
      ghost var evicted: nat := 0;
      classes, matrices := classes + [id], matrices + [matrix];
      while |classes| > capacity
        invariant evicted <= |all| && classes == all[evicted..] && matrices == values[evicted..]
        invariant evicted > 0 ==> |classes| >= capacity
        decreases |classes|
      {
        classes, matrices := classes[1..], matrices[1..];
        evicted := evicted + 1;
      }
    }
  }

  lemma RecentAppend(trace: seq<nat>, x: nat)
    ensures Recent(trace + [x]) == Without(Recent(trace), x) + [x]
  {
    assert (trace + [x])[..|trace|] == trace;
  }

  /** With room for two, loading the current class and then its parent leaves both in memory. */
  method PreloadPair<Matrix>(cache: PinnedMatrixCache<Matrix>, current: nat, parent: nat, a: Option<Matrix>,
                             b: Option<Matrix>)
    returns (first: Option<Matrix>, second: Option<Matrix>)
    requires cache.Valid() && cache.capacity == MATRIX_CACHE_CAPACITY
    modifies cache
    ensures cache.Valid()
    ensures first.Some? <==> old(current in cache.classes) || a.Some?
    ensures second.Some? ==> first.Some?
    ensures first.Some? && b.Some? ==> second.Some?
    ensures first.Some? && second.Some? ==>
              && current in cache.classes && parent in cache.classes
              && (current != parent ==> cache.classes == [current, parent])
  {
    ghost var front := cache.trace;
    first := cache.LoadChecked(current, a);
    if first.None? {
      return None, None;
    }
    second := cache.LoadChecked(parent, b);
    if second.Some? {
      PairIsNewest(front, current, parent);
    }
  }

  lemma PairIsNewest(front: seq<nat>, current: nat, parent: nat)
    ensures var kept := Newest(Recent(front + [current] + [parent]), 2);
            && kept != [] && kept[|kept| - 1] == parent
            && (current != parent ==> kept == [current, parent])
  {
    hide Without, Recent, Newest;
    var older := Without(Recent(front), current);
    var rest := Without(older + [current], parent);
    RecentAppend(front + [current], parent);
    RecentAppend(front, current);
    assert Recent(front + [current] + [parent]) == rest + [parent];
    NewestTwo(rest, parent);
    if current != parent {
      LastSurvives(older, current, parent);
      assert rest[|rest| - 1] == current;
    }
  }

  lemma NewestTwo(xs: seq<nat>, last: nat)
    ensures var kept := Newest(xs + [last], 2);
            && kept != [] && kept[|kept| - 1] == last
            && (xs != [] ==> kept == [xs[|xs| - 1], last])
  {
  }

  lemma {:induction false} LastSurvives(xs: seq<nat>, x: nat, y: nat)
    requires x != y
    ensures Without(xs + [x], y) == Without(xs, y) + [x]
  {
    if xs == [] {
      assert (xs + [x])[1..] == [];
    } else {
      LastSurvives(xs[1..], x, y);
      assert (xs + [x])[0] == xs[0] && (xs + [x])[1..] == xs[1..] + [x];
    }
  }
}
