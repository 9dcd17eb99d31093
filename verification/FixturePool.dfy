/** The fixture's pool of spendable outputs along a whole backbone run. */
module FixturePool {
  import opened Options
  import opened FixtureTransactions
  import opened FixtureSupply

  /** Every pool entry is live under its own wallet, and no slot is tracked twice. */
  ghost predicate PoolLive(slots: map<nat, Slot>, address: nat -> nat, pool: seq<Spendable>) {
    && (forall i :: 0 <= i < |pool| ==>
          pool[i].slotIndex in slots && slots[pool[i].slotIndex].owner == address(pool[i].seed))
    && (forall i, j :: 0 <= i < j < |pool| ==> pool[i].slotIndex != pool[j].slotIndex)
  }

  /** A state after one transaction: its input is gone and its two outputs are live. */
  function AfterTx(slots: map<nat, Slot>, tx: Tx): map<nat, Slot> {
    (slots - {tx.inputSlot})[tx.first.slotIndex := Slot(tx.first.amount, tx.first.owner)]
                            [tx.second.slotIndex := Slot(tx.second.amount, tx.second.owner)]
  }

  function AfterTxs(slots: map<nat, Slot>, txs: seq<Tx>): map<nat, Slot> {
    if txs == [] then slots else AfterTx(AfterTxs(slots, txs[..|txs| - 1]), txs[|txs| - 1])
  }

  /** Spending the front of a live pool and tracking both outputs leaves a live pool. */
  lemma SpendKeepsPoolLive(slots: map<nat, Slot>, address: nat -> nat, pool: seq<Spendable>, tx: Tx, a: Spendable,
                           b: Spendable)
    requires pool != [] && PoolLive(slots, address, pool) && tx.inputSlot == pool[0].slotIndex
    requires a.slotIndex == tx.first.slotIndex && tx.first.owner == address(a.seed) && a.slotIndex !in slots
    requires b.slotIndex == tx.second.slotIndex && tx.second.owner == address(b.seed) && b.slotIndex !in slots
    requires a.slotIndex != b.slotIndex
    ensures PoolLive(AfterTx(slots, tx), address, pool[1..] + [a, b])
  {
    var after, next := AfterTx(slots, tx), pool[1..] + [a, b];
    forall i | 0 <= i < |pool| - 1
      ensures next[i] == pool[i + 1] && next[i].slotIndex in after
              && after[next[i].slotIndex] == slots[next[i].slotIndex]
    {
    }
  }

  /** A live entry placed between two runs of a live pool. */
  lemma InsertKeepsPoolLive(slots: map<nat, Slot>, address: nat -> nat, front: seq<Spendable>, back: seq<Spendable>,
                            entry: Spendable, amount: nat)
    requires PoolLive(slots, address, front + back) && entry.slotIndex !in slots
    ensures PoolLive(slots[entry.slotIndex := Slot(amount, address(entry.seed))], address, front + [entry] + back)
  {
    var pool, next := front + back, front + [entry] + back;
    forall i | 0 <= i < |next| && i != |front|
      ensures next[i] == pool[if i < |front| then i else i - 1]
    {
    }
  }

  /** What a block's transactions leave behind: untouched pool entries, then the created ones, all live. */
  lemma {:induction false} BuildKeepsPoolLive(p: Parent, pool: seq<Spendable>, n: nat, cursor: nat)
    requires n <= |pool| && BuildAll(p, pool, n, cursor).Some? && PoolLive(p.slots, p.address, pool)
    ensures var (txs, end) := BuildAll(p, pool, n, cursor).value;
            && PoolLive(AfterTxs(p.slots, txs), p.address, pool[n..] + NewSpendables(p, txs))
            && forall s :: s in AfterTxs(p.slots, txs) ==> s in p.slots || s in OutputSlots(txs)
  {
    if n == 0 {
      assert pool[0..] + [] == pool;
    } else {
      BuildKeepsPoolLive(p, pool, n - 1, cursor);
      var (txs, at) := BuildAll(p, pool, n - 1, cursor).value;
      var (tx, end) := BuildOne(p, pool[n - 1], n - 1, at).value;
      LastTransactionKeepsPoolLive(p, pool, n, cursor, txs, at, tx, end);
    }
  }

  lemma LastTransactionKeepsPoolLive(p: Parent, pool: seq<Spendable>, n: nat, cursor: nat, txs: seq<Tx>, at: nat,
                                     tx: Tx, end: nat)
    requires 0 < n <= |pool| && BuildAll(p, pool, n - 1, cursor) == Some((txs, at))
    requires BuildOne(p, pool[n - 1], n - 1, at) == Some((tx, end))
    requires PoolLive(AfterTxs(p.slots, txs), p.address, pool[n - 1..] + NewSpendables(p, txs))
    requires forall s :: s in AfterTxs(p.slots, txs) ==> s in p.slots || s in OutputSlots(txs)
    ensures PoolLive(AfterTxs(p.slots, txs + [tx]), p.address, pool[n..] + NewSpendables(p, txs + [tx]))
    ensures forall s :: s in AfterTxs(p.slots, txs + [tx]) ==> s in p.slots || s in OutputSlots(txs + [tx])
  {
    hide NewSpendables, OutputSlots, BuildOne, BuildAll, PoolLive, OutputSeed;
    BuildIsSound(p, pool, n - 1, cursor);
    NewSpendablesAppend(p, txs, tx);
    OutputSlotsAppend(txs, tx);
    var a, b := Spendable(tx.first.slotIndex, OutputSeed(p, n - 1, 0)),
        Spendable(tx.second.slotIndex, OutputSeed(p, n - 1, 1));
    var queue := pool[n - 1..] + NewSpendables(p, txs);
    OutputsBelowCursor(p, pool[n - 1], n - 1, at);
    SpendKeepsPoolLive(AfterTxs(p.slots, txs), p.address, queue, tx, a, b);
    assert queue[1..] + [a, b] == pool[n..] + (NewSpendables(p, txs) + [a, b]);
    assert (txs + [tx])[..|txs|] == txs;
  }

  // ---------------------------------------------------------------------
  // What a block's transactions do to the state
  // ---------------------------------------------------------------------

  function Fees(txs: seq<Tx>): nat {
    if txs == [] then 0 else Fees(txs[..|txs| - 1]) + txs[|txs| - 1].fee
  }

  /** Outputs go to empty slots only, so whatever was live and still is holds what it held. */
  lemma {:induction false} SurvivorsKeepValue(slots: map<nat, Slot>, txs: seq<Tx>, g: nat)
    requires g in slots && forall s :: s in OutputSlots(txs) ==> s !in slots
    ensures g in AfterTxs(slots, txs) ==> AfterTxs(slots, txs)[g] == slots[g]
    ensures g in AfterTxs(slots, txs) <==> forall k :: 0 <= k < |txs| ==> txs[k].inputSlot != g
  {
    if txs != [] {
      var n := |txs| - 1;
      var front, last := txs[..n], txs[n];
      assert OutputSlots(txs) == OutputSlots(front) + [last.first.slotIndex, last.second.slotIndex];
      SurvivorsKeepValue(slots, front, g);
      assert last.first.slotIndex in OutputSlots(txs) && last.second.slotIndex in OutputSlots(txs);
    }
  }

  /** One transaction takes exactly its fee out of the state. */
  lemma SpendConserves(slots: map<nat, Slot>, tx: Tx)
    requires tx.inputSlot in slots && slots[tx.inputSlot].amount == tx.fee + tx.first.amount + tx.second.amount
    requires tx.first.slotIndex !in slots && tx.second.slotIndex !in slots
    requires tx.first.slotIndex != tx.second.slotIndex
    ensures TotalAmount(AfterTx(slots, tx)) + tx.fee == TotalAmount(slots)
  {
    hide TotalAmount;
    var spent := slots - {tx.inputSlot};
    var half := spent[tx.first.slotIndex := Slot(tx.first.amount, tx.first.owner)];
    TotalWithout(slots, tx.inputSlot);
    TotalWith(spent, tx.first.slotIndex, Slot(tx.first.amount, tx.first.owner));
    TotalWith(half, tx.second.slotIndex, Slot(tx.second.amount, tx.second.owner));
  }

  /** A block's transactions take exactly their fees out of the state. */
  lemma {:induction false} BuildConserves(p: Parent, pool: seq<Spendable>, n: nat, cursor: nat)
    requires n <= |pool| && BuildAll(p, pool, n, cursor).Some? && PoolLive(p.slots, p.address, pool)
    ensures var (txs, end) := BuildAll(p, pool, n, cursor).value;
            TotalAmount(AfterTxs(p.slots, txs)) + Fees(txs) == TotalAmount(p.slots)
  {
    if n > 0 {
      BuildConserves(p, pool, n - 1, cursor);
      var (txs, at) := BuildAll(p, pool, n - 1, cursor).value;
      var (tx, end) := BuildOne(p, pool[n - 1], n - 1, at).value;
      LastTransactionConserves(p, pool, n, cursor, txs, at, tx, end);
      assert (txs + [tx])[..|txs|] == txs;
    }
  }

  lemma LastTransactionConserves(p: Parent, pool: seq<Spendable>, n: nat, cursor: nat, txs: seq<Tx>, at: nat, tx: Tx,
                                 end: nat)
    requires 0 < n <= |pool| && BuildAll(p, pool, n - 1, cursor) == Some((txs, at))
    requires BuildOne(p, pool[n - 1], n - 1, at) == Some((tx, end)) && PoolLive(p.slots, p.address, pool)
    ensures TotalAmount(AfterTx(AfterTxs(p.slots, txs), tx)) + tx.fee == TotalAmount(AfterTxs(p.slots, txs))
  {
    hide BuildOne, BuildAll, OutputSlots, NewSpendables, AfterTxs, AfterTx, TotalAmount;
    BuildIsSound(p, pool, n - 1, cursor);
    BuildKeepsPoolLive(p, pool, n - 1, cursor);
    BuiltTakesTwo(p, pool[n - 1], n - 1, at);
    OutputsBelowCursor(p, pool[n - 1], n - 1, at);
    var live := pool[n - 1..] + NewSpendables(p, txs);
    assert live[0] == pool[n - 1];
    SurvivorsKeepValue(p.slots, txs, tx.inputSlot);
    SpendConserves(AfterTxs(p.slots, txs), tx);
  }

  // ---------------------------------------------------------------------
  // The checkpoint along a run
  // ---------------------------------------------------------------------

  /** One backbone step: how many pool entries it spends, and where its coinbase lands. */
  datatype BackboneStep = BackboneStep(users: nat, coinbaseSlot: nat, coinbaseAmount: nat, minerSeed: nat, seed: nat,
                                       domain: nat)

  /** The rules of the fixture chain: addresses, fees, page validation, and the checks of a sealed block. */
  datatype Rules = Rules(
    address: nat -> nat, fee: (nat, nat, nat) -> nat, pageOk: Tx -> bool, blockOk: (seq<Tx>, BackboneStep) -> bool)

  /**
   Enough pool entries, a successful build, a block that passes its checks, and a coinbase slot nothing else occupies.
   */
  ghost predicate Acceptable(rules: Rules, p: Parent, pool: seq<Spendable>, cursor: nat, step: BackboneStep) {
    && step.users <= |pool|
    && var built := BuildAll(p, pool, step.users, cursor);
       && built.Some? && rules.blockOk(built.value.0, step)
       && step.coinbaseSlot !in AfterTxs(p.slots, built.value.0)
  }

  /** Pool growth of a run. */
  function Growth(steps: seq<BackboneStep>): nat {
    if steps == [] then 0 else Growth(steps[..|steps| - 1]) + steps[|steps| - 1].users + 1
  }

  /** Coinbases of a run. */
  function Minted(steps: seq<BackboneStep>): nat {
    if steps == [] then 0 else Minted(steps[..|steps| - 1]) + steps[|steps| - 1].coinbaseAmount
  }

  class FixtureCheckpoint {
    const slotCount: nat
    const rules: Rules
    var slots: map<nat, Slot>
    var spendables: seq<Spendable>
    var outputSlotCursor: nat

    ghost predicate Valid()
      reads this
    {
      PoolLive(slots, rules.address, spendables)
    }

    constructor (slotCount: nat, rules: Rules, cursor: nat)
      ensures Valid() && spendables == [] && slots == map[] && this.slotCount == slotCount && this.rules == rules
      ensures outputSlotCursor == cursor
    {
      this.slotCount := slotCount;
      this.rules := rules;
      slots := map[];
      spendables := [];
      outputSlotCursor := cursor;
    }

    function ParentFor(step: BackboneStep): Parent
      reads this
    {
      Parent(slotCount, slots, rules.address, rules.fee, rules.pageOk, step.seed, step.domain)
    }

    /** Builds and accepts one child block; a failed build leaves the checkpoint alone. */
    method Advance(step: BackboneStep) returns (ok: bool)
      requires Valid()
      modifies this
      ensures Valid()
      ensures ok <==> Acceptable(rules, old(ParentFor(step)), old(spendables), old(outputSlotCursor), step)
      ensures ok ==>
                var p := old(ParentFor(step));
                var (txs, cursor) := BuildAll(p, old(spendables), step.users, old(outputSlotCursor)).value;
                var coinbase := Spendable(step.coinbaseSlot, step.minerSeed);
                var paid := Slot(step.coinbaseAmount, rules.address(step.minerSeed));
                && spendables == old(spendables)[step.users..] + [coinbase] + NewSpendables(p, txs)
                && slots == AfterTxs(p.slots, txs)[step.coinbaseSlot := paid]
                && outputSlotCursor == cursor >= old(outputSlotCursor)
                && TotalAmount(slots) + Fees(txs) == TotalAmount(old(slots)) + step.coinbaseAmount
      ensures ok ==> |spendables| == |old(spendables)| + step.users + 1
      ensures !ok ==> spendables == old(spendables) && slots == old(slots) && outputSlotCursor == old(outputSlotCursor)
    {
      var p := ParentFor(step);
      var built := ChildUserTransactions(p, spendables, step.users, outputSlotCursor);
      if built.None? {
        return false;
      }
      var (txs, created, cursor) := built.value;
      BuildIsSound(p, spendables, step.users, outputSlotCursor);
      BuildKeepsPoolLive(p, spendables, step.users, outputSlotCursor);
      var after := AfterTxs(slots, txs);
      if !rules.blockOk(txs, step) || step.coinbaseSlot in after {
        return false;
      }
      var coinbase := Spendable(step.coinbaseSlot, step.minerSeed);
      BuildConserves(p, spendables, step.users, outputSlotCursor);
      TotalWith(after, step.coinbaseSlot, Slot(step.coinbaseAmount, rules.address(step.minerSeed)));
      InsertKeepsPoolLive(after, rules.address, spendables[step.users..], created, coinbase, step.coinbaseAmount);
      spendables := spendables[step.users..] + [coinbase] + created;
      slots := after[step.coinbaseSlot := Slot(step.coinbaseAmount, rules.address(step.minerSeed))];
      outputSlotCursor := cursor;
      return true;
    }

    /**
     Stops at the first step that is not acceptable. Up to there the pool stays live and grows by users plus one per
     step, and the total by no more than the coinbases.
     */
    method RunBackbone(steps: seq<BackboneStep>) returns (ok: bool, ghost done: nat)
      requires Valid()
      modifies this
      ensures Valid() && done <= |steps| && (ok <==> done == |steps|)
      ensures |spendables| == |old(spendables)| + Growth(steps[..done])
      ensures outputSlotCursor >= old(outputSlotCursor)
      ensures TotalAmount(slots) <= TotalAmount(old(slots)) + Minted(steps[..done])
      ensures !ok ==> !Acceptable(rules, ParentFor(steps[done]), spendables, outputSlotCursor, steps[done])
    {
      for i := 0 to |steps|
        invariant Valid() && |spendables| == |old(spendables)| + Growth(steps[..i])
        invariant outputSlotCursor >= old(outputSlotCursor)
        invariant TotalAmount(slots) <= TotalAmount(old(slots)) + Minted(steps[..i])
      {
        assert steps[..i + 1][..i] == steps[..i];
        var accepted := Advance(steps[i]);
        if !accepted {
          return false, i;
        }
      }
      return true, |steps|;
    }
  }
}
