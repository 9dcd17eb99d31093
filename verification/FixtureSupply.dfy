/** What a fixture state holds in all. */
module FixtureSupply {
  import opened FixtureTransactions

  ghost function Pick(slots: map<nat, Slot>): (key: nat)
    requires slots != map[]
    ensures key in slots
  {
    var key :| key in slots;
    key
  }

  /** The amounts of all live slots together. */
  ghost function TotalAmount(slots: map<nat, Slot>): nat
    decreases |slots|
  {
    if slots == map[] then 0 else slots[Pick(slots)].amount + TotalAmount(slots - {Pick(slots)})
  }

  lemma {:induction false} TotalWithout(slots: map<nat, Slot>, key: nat)
    requires key in slots
    ensures TotalAmount(slots) == slots[key].amount + TotalAmount(slots - {key})
    decreases |slots|
  {
    var first := Pick(slots);
    if first != key {
      TotalWithout(slots - {first}, key);
      TotalWithout(slots - {key}, first);
      assert slots - {first} - {key} == slots - {key} - {first};
    }
  }

  lemma TotalWith(slots: map<nat, Slot>, key: nat, slot: Slot)
    requires key !in slots
    ensures TotalAmount(slots[key := slot]) == TotalAmount(slots) + slot.amount
  {
    TotalWithout(slots[key := slot], key);
    assert slots[key := slot] - {key} == slots;
  }
}
