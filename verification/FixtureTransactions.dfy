/** The fixture chain's user transactions: slot allocation, amounts, and the pool of spendable outputs over a run. */
module FixtureTransactions {
  import opened Options

  const TWO_32: nat := 0x1_0000_0000
  const TWO_128: nat := 0x1_0000_0000_0000_0000_0000_0000_0000_0000
  const TX_OUTPUTS: nat := 2

  datatype Slot = Slot(amount: nat, owner: nat)
  datatype Spendable = Spendable(slotIndex: nat, seed: nat)
  datatype Output = Output(slotIndex: nat, amount: nat, owner: nat)
  datatype Tx = Tx(inputSlot: nat, amount: nat, fee: nat, first: Output, second: Output)

  /**
   The parent state, the address of every secret, the fee schedule, page and group validation, and the seeds drawn from.
   */
  datatype Parent = Parent(
    slotCount: nat, slots: map<nat, Slot>, address: nat -> nat, fee: (nat, nat, nat) -> nat, pageOk: Tx -> bool,
    seed: nat, domain: nat)

  /** The wallet seed of an output, in wrapping 128-bit arithmetic. */
  function OutputSeed(p: Parent, txIndex: nat, output: nat): nat {
    (p.seed + 0x2000_0000 + p.domain * 0x10_0000 + txIndex * 16 + output) % TWO_128
  }

  // ---------------------------------------------------------------------
  // The allocator
  // ---------------------------------------------------------------------

  /** The least empty slot at or after the cursor; nothing past the last slot or past 32 bits. */
  function NextEmpty(p: Parent, cursor: nat): (slot: Option<nat>)
    ensures slot.Some? ==> cursor <= slot.value < p.slotCount && slot.value !in p.slots
    ensures slot.Some? ==> forall s :: cursor <= s < slot.value ==> s in p.slots
    decreases p.slotCount - cursor
  {
    if cursor >= p.slotCount then None
    else if cursor !in p.slots then Some(cursor)
    else if cursor + 1 >= TWO_32 then None
    else NextEmpty(p, cursor + 1)
  }

  /** The next empty slot and the cursor behind it. */
  function TakeEmpty(p: Parent, cursor: nat): Option<(nat, nat)> {
    match NextEmpty(p, cursor)
    case None => None
    case Some(slot) => if slot + 1 >= TWO_32 then None else Some((slot, slot + 1))
  }

  /** The slot is empty and allocatable, and every earlier one from the cursor on is live. */
  ghost predicate IsLeastEmpty(p: Parent, cursor: nat, slot: nat) {
    && cursor <= slot < p.slotCount && slot + 1 < 0x1_0000_0000 && slot !in p.slots
    && forall s :: cursor <= s < slot ==> s in p.slots
  }

  /** Allocation takes the least empty slot, and fails only if no allocatable slot is empty. */
  lemma TakesLeastEmpty(p: Parent, cursor: nat)
    ensures TakeEmpty(p, cursor).Some? ==>
              var (slot, next) := TakeEmpty(p, cursor).value;
              IsLeastEmpty(p, cursor, slot) && next == slot + 1
    ensures TakeEmpty(p, cursor).None? <==>
              forall s :: cursor <= s < p.slotCount && s + 1 < 0x1_0000_0000 ==> s in p.slots
  {
    hide NextEmpty;
    if NextEmpty(p, cursor).None? {
      NoneLeft(p, cursor);
    }
  }

  lemma {:induction false} NoneLeft(p: Parent, cursor: nat)
    requires NextEmpty(p, cursor).None?
    ensures forall s :: cursor <= s < p.slotCount && s < TWO_32 ==> s in p.slots
    decreases p.slotCount - cursor
  {
    if cursor < p.slotCount && cursor + 1 < TWO_32 {
      NoneLeft(p, cursor + 1);
    }
  }

  /** One user transaction: two fresh outputs share what the fee leaves of one input. */
  function BuildOne(p: Parent, source: Spendable, txIndex: nat, cursor: nat): Option<(Tx, nat)> {
    if source.slotIndex !in p.slots || p.slots[source.slotIndex].owner != p.address(source.seed) then None
    else
      var slot := p.slots[source.slotIndex];
      match TakeEmpty(p, cursor)
      case None => None
      case Some((a, middle)) =>
        match TakeEmpty(p, middle)
        case None => None
        case Some((b, end)) =>
          var fee := p.fee(source.slotIndex, a, b);
          if fee > slot.amount then None
          else
            var spendable := slot.amount - fee;
            var tx := Tx(source.slotIndex, slot.amount, fee,
                         Output(a, spendable / 2, p.address(OutputSeed(p, txIndex, 0))),
                         Output(b, spendable - spendable / 2, p.address(OutputSeed(p, txIndex, 1))));
            if p.pageOk(tx) then Some((tx, end)) else None
  }

  /** The first `n` user transactions of a child block. */
  function BuildAll(p: Parent, pool: seq<Spendable>, n: nat, cursor: nat): Option<(seq<Tx>, nat)>
    requires n <= |pool|
  {
    if n == 0 then Some(([], cursor))
    else
      match BuildAll(p, pool, n - 1, cursor)
      case None => None
      case Some((txs, at)) =>
        match BuildOne(p, pool[n - 1], n - 1, at)
        case None => None
        case Some((tx, end)) => Some((txs + [tx], end))
  }

  /** Output slots of a run of transactions, in order. */
  function OutputSlots(txs: seq<Tx>): (slots: seq<nat>)
    ensures |slots| == TX_OUTPUTS * |txs|
  {
    if txs == [] then []
    else
      var last := txs[|txs| - 1];
      OutputSlots(txs[..|txs| - 1]) + [last.first.slotIndex, last.second.slotIndex]
  }

  ghost predicate Increasing(xs: seq<nat>) {
    forall i, j :: 0 <= i < j < |xs| ==> xs[i] < xs[j]
  }

  /** The transactions' outputs are exactly the empty slots in `from..end`, in increasing order. */
  ghost predicate Allocates(p: Parent, txs: seq<Tx>, from: nat, end: nat) {
    var slots := OutputSlots(txs);
    && from <= end && Increasing(slots)
    && (forall s :: s in slots ==> from <= s < end && s < p.slotCount && s !in p.slots)
    && (forall s :: from <= s < end && s !in p.slots ==> s in slots)
  }

  lemma AllocatesTwoMore(p: Parent, txs: seq<Tx>, from: nat, at: nat, tx: Tx, end: nat)
    requires Allocates(p, txs, from, at)
    requires TakeEmpty(p, at) == Some((tx.first.slotIndex, tx.first.slotIndex + 1))
    requires TakeEmpty(p, tx.first.slotIndex + 1) == Some((tx.second.slotIndex, end))
    ensures Allocates(p, txs + [tx], from, end)
  {
    hide OutputSlots, NextEmpty;
    var slots, more := OutputSlots(txs), OutputSlots(txs + [tx]);
    OutputSlotsAppend(txs, tx);
    var a, b := tx.first.slotIndex, tx.second.slotIndex;
    assert forall s :: s in more ==> s in slots || s == a || s == b;
    assert a in more && b in more;
    forall i, j | 0 <= i < j < |more|
      ensures more[i] < more[j]
    {
      if i < |slots| {
        assert more[i] == slots[i] && slots[i] in slots;
      }
    }
  }

  lemma OutputSlotsAppend(txs: seq<Tx>, tx: Tx)
    ensures OutputSlots(txs + [tx]) == OutputSlots(txs) + [tx.first.slotIndex, tx.second.slotIndex]
  {
    assert (txs + [tx])[..|txs|] == txs;
  }

  /** A transaction spends a live pool entry; fee plus outputs are the input, and the outputs are its halves. */
  ghost predicate Conserves(p: Parent, source: Spendable, tx: Tx) {
    && tx.inputSlot == source.slotIndex && tx.inputSlot in p.slots
    && tx.amount == p.slots[tx.inputSlot].amount == tx.fee + tx.first.amount + tx.second.amount
    && tx.first.amount <= tx.second.amount <= tx.first.amount + 1
  }

  /** The transaction that spends `source` and hands its halves to the next two empty slots. */
  ghost predicate IsSpend(p: Parent, source: Spendable, txIndex: nat, cursor: nat, tx: Tx) {
    && Conserves(p, source, tx) && p.slots[source.slotIndex].owner == p.address(source.seed)
    && IsLeastEmpty(p, cursor, tx.first.slotIndex) && IsLeastEmpty(p, tx.first.slotIndex + 1, tx.second.slotIndex)
    && tx.fee == p.fee(source.slotIndex, tx.first.slotIndex, tx.second.slotIndex)
    && tx.first.owner == p.address((p.seed + 0x2000_0000 + p.domain * 0x10_0000 + txIndex * 16) % TWO_128)
    && tx.second.owner == p.address((p.seed + 0x2000_0000 + p.domain * 0x10_0000 + txIndex * 16 + 1) % TWO_128)
    && p.pageOk(tx)
  }

  lemma LeastIsTaken(p: Parent, cursor: nat, slot: nat)
    requires IsLeastEmpty(p, cursor, slot)
    ensures TakeEmpty(p, cursor) == Some((slot, slot + 1))
  {
    hide NextEmpty, TakeEmpty;
    TakesLeastEmpty(p, cursor);
    var taken := TakeEmpty(p, cursor);
    if taken.Some? {
      var (found, next) := taken.value;
      assert found == slot;
    }
  }

  /** A build succeeds exactly if there is such a transaction, and then returns it: it never fails without need. */
  lemma BuildsExactly(p: Parent, source: Spendable, txIndex: nat, cursor: nat, tx: Tx, end: nat)
    ensures BuildOne(p, source, txIndex, cursor) == Some((tx, end)) <==>
              IsSpend(p, source, txIndex, cursor, tx) && end == tx.second.slotIndex + 1
  {
    hide TakeEmpty, NextEmpty;
    if BuildOne(p, source, txIndex, cursor) == Some((tx, end)) {
      TakesLeastEmpty(p, cursor);
      TakesLeastEmpty(p, tx.first.slotIndex + 1);
    }
    if IsSpend(p, source, txIndex, cursor, tx) && end == tx.second.slotIndex + 1 {
      LeastIsTaken(p, cursor, tx.first.slotIndex);
      LeastIsTaken(p, tx.first.slotIndex + 1, tx.second.slotIndex);
    }
  }

  /** Every successful build allocates the least empty slots in order and conserves every input. */
  lemma {:induction false} BuildIsSound(p: Parent, pool: seq<Spendable>, n: nat, cursor: nat)
    requires n <= |pool| && BuildAll(p, pool, n, cursor).Some?
    ensures var (txs, end) := BuildAll(p, pool, n, cursor).value;
            && |txs| == n && Allocates(p, txs, cursor, end)
            && forall i :: 0 <= i < n ==> Conserves(p, pool[i], txs[i])
  {
    hide BuildOne, TakeEmpty, Allocates, Conserves;
    if n == 0 {
      NothingAllocated(p, cursor);
    } else {
      BuildIsSound(p, pool, n - 1, cursor);
      var (txs, at) := BuildAll(p, pool, n - 1, cursor).value;
      var (tx, end) := BuildOne(p, pool[n - 1], n - 1, at).value;
      BuiltTakesTwo(p, pool[n - 1], n - 1, at);
      AllocatesTwoMore(p, txs, cursor, at, tx, end);
    }
  }

  lemma BuiltTakesTwo(p: Parent, source: Spendable, txIndex: nat, cursor: nat)
    requires BuildOne(p, source, txIndex, cursor).Some?
    ensures var (tx, end) := BuildOne(p, source, txIndex, cursor).value;
            && Conserves(p, source, tx)
            && TakeEmpty(p, cursor) == Some((tx.first.slotIndex, tx.first.slotIndex + 1))
            && TakeEmpty(p, tx.first.slotIndex + 1) == Some((tx.second.slotIndex, end))
  {
    hide NextEmpty;
  }

  lemma NothingAllocated(p: Parent, cursor: nat)
    ensures Allocates(p, [], cursor, cursor)
  {
  }

  /** In every successful build no slot is handed out twice, none was live, and none is any transaction's input. */
  lemma OutputsAreFresh(p: Parent, pool: seq<Spendable>, n: nat, cursor: nat)
    requires n <= |pool| && BuildAll(p, pool, n, cursor).Some?
    ensures var (txs, end) := BuildAll(p, pool, n, cursor).value;
            var slots := OutputSlots(txs);
            && |slots| == TX_OUTPUTS * n
            && (forall i, j :: 0 <= i < j < |slots| ==> slots[i] != slots[j])
            && (forall s :: s in slots ==> s !in p.slots && s < p.slotCount && cursor <= s < end)
            && forall k :: 0 <= k < n ==> txs[k].inputSlot !in slots
  {
    hide BuildAll, OutputSlots;
    BuildIsSound(p, pool, n, cursor);
  }

  // ---------------------------------------------------------------------
  // The build loop
  // ---------------------------------------------------------------------

  /** The pool entries a run of transactions creates. */
  function NewSpendables(p: Parent, txs: seq<Tx>): (created: seq<Spendable>)
    ensures |created| == TX_OUTPUTS * |txs|
  {
    if txs == [] then []
    else
      var k := |txs| - 1;
      NewSpendables(p, txs[..k]) + [Spendable(txs[k].first.slotIndex, OutputSeed(p, k, 0)),
                                    Spendable(txs[k].second.slotIndex, OutputSeed(p, k, 1))]
  }

  lemma NewSpendablesAppend(p: Parent, txs: seq<Tx>, tx: Tx)
    ensures NewSpendables(p, txs + [tx])
         == NewSpendables(p, txs) + [Spendable(tx.first.slotIndex, OutputSeed(p, |txs|, 0)),
                                     Spendable(tx.second.slotIndex, OutputSeed(p, |txs|, 1))]
  {
    assert (txs + [tx])[..|txs|] == txs;
  }

  /** Walks the cursor past live and reserved slots; reserved slots are always behind it. */
  method TakeSlot(p: Parent, reserved: set<nat>, start: nat) returns (taken: Option<(nat, nat)>)
    requires forall s :: s in reserved ==> s < start
    ensures taken == TakeEmpty(p, start)
    ensures taken.Some? ==> IsLeastEmpty(p, start, taken.value.0) && taken.value.1 == taken.value.0 + 1
    ensures taken.None? <==> forall s :: start <= s < p.slotCount && s + 1 < TWO_32 ==> s in p.slots
  {
    TakesLeastEmpty(p, start);
    var cursor := start;
    while cursor < p.slotCount && (cursor in p.slots || cursor in reserved)
      invariant start <= cursor && NextEmpty(p, cursor) == NextEmpty(p, start)
      decreases p.slotCount - cursor
    {
      if cursor + 1 >= TWO_32 {
        return None;
      }
      cursor := cursor + 1;
    }
    if cursor >= p.slotCount || cursor + 1 >= TWO_32 {
      return None;
    }
    return Some((cursor, cursor + 1));
  }

  lemma {:induction false} FailureIsFinal(p: Parent, pool: seq<Spendable>, n: nat, m: nat, cursor: nat)
    requires n <= m <= |pool| && BuildAll(p, pool, n, cursor).None?
    ensures BuildAll(p, pool, m, cursor).None?
    decreases m
  {
    if n < m {
      FailureIsFinal(p, pool, n, m - 1, cursor);
    }
  }

  method BuildTransaction(p: Parent, source: Spendable, txIndex: nat, reserved: set<nat>, cursor: nat)
    returns (built: Option<(Tx, nat)>)
    requires forall s :: s in reserved ==> s < cursor
    ensures built == BuildOne(p, source, txIndex, cursor)
  {
    hide NextEmpty;
    if source.slotIndex !in p.slots || p.slots[source.slotIndex].owner != p.address(source.seed) {
      return None;
    }
    var slot := p.slots[source.slotIndex];
    var first := TakeSlot(p, reserved, cursor);
    if first.None? {
      return None;
    }
    var second := TakeSlot(p, reserved + {first.value.0}, first.value.1);
    if second.None? {
      return None;
    }
    var fee := p.fee(source.slotIndex, first.value.0, second.value.0);
    if fee > slot.amount {
      return None;
    }
    var spendable := slot.amount - fee;
    var half := spendable / 2;
    var tx := Tx(source.slotIndex, slot.amount, fee,
                 Output(first.value.0, half, p.address(OutputSeed(p, txIndex, 0))),
                 Output(second.value.0, spendable - half, p.address(OutputSeed(p, txIndex, 1))));
    if !p.pageOk(tx) {
      return None;
    }
    return Some((tx, second.value.1));
  }

  /** Builds the child block's user transactions, or fails without a partial result. */
  method ChildUserTransactions(p: Parent, pool: seq<Spendable>, userCount: nat, start: nat)
    returns (built: Option<(seq<Tx>, seq<Spendable>, nat)>)
    ensures built.Some? <==> userCount <= |pool| && BuildAll(p, pool, userCount, start).Some?
    ensures built.Some? ==>
              && BuildAll(p, pool, userCount, start).value == (built.value.0, built.value.2)
              && built.value.1 == NewSpendables(p, built.value.0)
  {
    if |pool| < userCount {
      return None;
    }
    hide NextEmpty, BuildOne;
    var cursor, reserved: set<nat>, txs, next := start, {}, [], [];
    for i := 0 to userCount
      invariant BuildAll(p, pool, i, start) == Some((txs, cursor)) && |txs| == i
      invariant next == NewSpendables(p, txs)
      invariant forall s :: s in reserved ==> s < cursor
    {
      var step := BuildTransaction(p, pool[i], i, reserved, cursor);
      if step.None? {
        FailureIsFinal(p, pool, i + 1, userCount, start);
        return None;
      }
      var (tx, end) := step.value;
      OutputsBelowCursor(p, pool[i], i, cursor);
      NewSpendablesAppend(p, txs, tx);
      reserved := reserved + {tx.first.slotIndex, tx.second.slotIndex};
      next := next + [Spendable(tx.first.slotIndex, OutputSeed(p, i, 0)),
                      Spendable(tx.second.slotIndex, OutputSeed(p, i, 1))];
      txs := txs + [tx];
      cursor := end;
    }
    return Some((txs, next, cursor));
  }

  /** What a built transaction looks like from outside. */
  lemma OutputsBelowCursor(p: Parent, source: Spendable, txIndex: nat, cursor: nat)
    requires BuildOne(p, source, txIndex, cursor).Some?
    ensures var (tx, end) := BuildOne(p, source, txIndex, cursor).value;
            && cursor <= tx.first.slotIndex < tx.second.slotIndex < end
            && tx.first.slotIndex !in p.slots && tx.second.slotIndex !in p.slots
            && tx.inputSlot == source.slotIndex
            && tx.first.owner == p.address(OutputSeed(p, txIndex, 0))
            && tx.second.owner == p.address(OutputSeed(p, txIndex, 1))
  {
  }
}
