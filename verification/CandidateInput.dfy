/** V2 witness preparation: the contract prefix, resource budgets, and which authority signs for each contract. */
module CandidateInput {
  import opened Options

  datatype Body = Body(validityBitmap: nat, bodyHash: nat)

  datatype Opening = Opening(program: nat, state: nat, rules: nat, deadline: nat, controller: nat,
                             refundAuthority: nat, claimRecipient: nat, refundRecipient: nat)

  /** What a checked call reports. */
  datatype Transition = Transition(contexts: seq<nat>, next: nat)

  /** Pinned resource limits of a proof class. */
  datatype Config = Config(pages: nat, activationHeight: nat, contractSlots: nat, maxLiveInputs: nat)

  /** What stream validation reports about a block body. */
  datatype Stream = Stream(userStart: nat, pageCount: nat, hasDevelopmentPayout: bool, liveInputs: nat) {
    function EffectivePages(): nat {
      pageCount + if hasDevelopmentPayout then 1 else 0
    }
  }

  datatype Block = Block(height: nat, bodies: seq<Body>)

  datatype Contract = Contract(
    bodyIndex: nat, live: bool, program: nat, current: nat, contexts: seq<nat>, next: nat, controller: nat,
    refundAuthority: nat, terminal: bool, deadline: nat, claimRecipient: nat, refundRecipient: nat, rules: nat)

  datatype Authorization = Authorization(bodyHash: nat, owner: nat)

  /** The checks this preparation calls, in the order it calls them; each may be anything. */
  datatype Validation = Validation(
    startBoundaryOk: Block -> bool, parentStateOk: Block -> bool, scheduleOk: Block -> bool,
    epochAnchorsOk: Block -> bool, txRootOk: Block -> bool, streamOf: Block -> Option<Stream>,
    execute: (Opening, Body, nat) -> Option<Transition>, componentsOf: Block -> Option<seq<Authorization>>,
    proofsOk: seq<Authorization> -> bool, accumulatorOk: Block -> bool, inputOk: Prepared -> bool)

  datatype Prepared = Prepared(contracts: seq<Contract>, authorizations: seq<Authorization>)

  /** Bits 12 and 13 of a 16-bit bitmap. */
  predicate HasContractBit(body: Body) {
    body.validityBitmap / 0x1000 % 4 != 0
  }

  /** Bit 13. */
  predicate IsTerminal(body: Body) {
    body.validityBitmap / 0x2000 % 2 == 1
  }

  /** The three bitmaps of a call: one output, a second one, or terminal. */
  predicate CallShape(bitmap: nat) {
    bitmap == 0x1D01 || bitmap == 0x1F01 || bitmap == 0x3D01
  }

  /**
   A call has one input, its first output, start, end and contract bits, and either the terminal bit or possibly a
   second output; so it is a contract body, terminal exactly if the last bit says so.
   */
  lemma CallBits(body: Body)
    ensures CallShape(body.validityBitmap) <==>
              exists second: bool, terminal: bool ::
                CallOf(body.validityBitmap, second, terminal) && !(second && terminal)
    ensures forall second, terminal :: CallOf(body.validityBitmap, second, terminal) ==>
              HasContractBit(body) && (IsTerminal(body) <==> terminal)
    ensures HasContractBit(body) <==> body.validityBitmap / 4096 % 2 == 1 || body.validityBitmap / 8192 % 2 == 1
  {
    assert CallShape(body.validityBitmap) ==>
        CallOf(body.validityBitmap, false, false) || CallOf(body.validityBitmap, true, false)
        || CallOf(body.validityBitmap, false, true);
    TwoBits(body.validityBitmap / 4096);
  }

  lemma TwoBits(n: nat)
    ensures n % 4 != 0 <==> n % 2 == 1 || n / 2 % 2 == 1
  {
  }

  predicate CallOf(bitmap: nat, second: bool, terminal: bool) {
    bitmap == 1 + 256 + 1024 + 2048 + 4096 + (if second then 512 else 0) + (if terminal then 8192 else 0)
  }

  function CheckCall(v: Validation, opening: Opening, body: Body, height: nat): (checked: Option<Transition>)
    ensures checked.Some? ==> HasContractBit(body)
  {
    if CallShape(body.validityBitmap) then v.execute(opening, body, height) else None
  }

  function ContractAt(v: Validation, opening: Opening, body: Body, index: nat, height: nat): Option<Contract> {
    match CheckCall(v, opening, body, height)
    case None => None
    case Some(checked) =>
      Some(Contract(index, true, opening.program, opening.state, checked.contexts, checked.next, opening.controller,
                    opening.refundAuthority, IsTerminal(body), opening.deadline, opening.claimRecipient,
                    opening.refundRecipient, opening.rules))
  }

  /** The contract takes its opening's terms as they are and its next state from executing the body. */
  ghost predicate IsCall(v: Validation, opening: Opening, body: Body, index: nat, height: nat, contract: Contract) {
    && CallShape(body.validityBitmap)
    && v.execute(opening, body, height) == Some(Transition(contract.contexts, contract.next))
    && contract.bodyIndex == index && contract.live && contract.current == opening.state
    && contract.program == opening.program && contract.rules == opening.rules
    && contract.controller == opening.controller && contract.refundAuthority == opening.refundAuthority
    && contract.claimRecipient == opening.claimRecipient && contract.refundRecipient == opening.refundRecipient
    && contract.deadline == opening.deadline && (contract.terminal <==> IsTerminal(body))
  }

  lemma ContractIsCall(v: Validation, opening: Opening, body: Body, index: nat, height: nat, contract: Contract)
    ensures ContractAt(v, opening, body, index, height) == Some(contract) <==>
              IsCall(v, opening, body, index, height, contract)
  {
  }

  // ---------------------------------------------------------------------
  // What a preparation must satisfy
  // ---------------------------------------------------------------------

  /** Index `i` of the body belongs to the contract prefix. */
  predicate InPrefix(base: nat, openings: seq<Opening>, i: nat) {
    base <= i < base + |openings|
  }

  /** The openings sit, in order, on the consecutive bodies from `base`, and no other body carries a contract bit. */
  ghost predicate PrefixOk(v: Validation, block: Block, base: nat, openings: seq<Opening>) {
    && (openings != [] ==> base + |openings| <= |block.bodies|)
    && (forall k :: 0 <= k < |openings| && base + k < |block.bodies| ==>
          CheckCall(v, openings[k], block.bodies[base + k], block.height).Some?)
    && (forall i :: 0 <= i < |block.bodies| && !InPrefix(base, openings, i) ==> !HasContractBit(block.bodies[i]))
  }

  /** Contract `k` is opening `k` called by body `base + k`. */
  ghost predicate ContractsOf(v: Validation, block: Block, base: nat, openings: seq<Opening>,
                              contracts: seq<Contract>) {
    && |contracts| <= |openings| && (contracts != [] ==> base + |contracts| <= |block.bodies|)
    && forall k :: 0 <= k < |contracts| ==>
         IsCall(v, openings[k], block.bodies[base + k], base + k, block.height, contracts[k])
  }

  predicate ResourcesOk(stream: Stream, config: Config) {
    stream.EffectivePages() <= config.pages && stream.liveInputs <= config.maxLiveInputs
  }

  /** The controller signs before the deadline, the refund authority from then on. */
  function AuthorityFor(contract: Contract, height: nat): nat {
    if height < contract.deadline then contract.controller else contract.refundAuthority
  }

  /** The authorizations with the first ones rewritten to their contracts' authorities. */
  function Rewritten(authorizations: seq<Authorization>, contracts: seq<Contract>, height: nat)
    : (after: seq<Authorization>)
    ensures |after| == |authorizations|
    ensures forall i :: 0 <= i < |after| ==>
              after[i] == if i < |contracts| then authorizations[i].(owner := AuthorityFor(contracts[i], height))
                          else authorizations[i]
  {
    seq(|authorizations|, i requires 0 <= i < |authorizations| =>
      if i < |contracts| then authorizations[i].(owner := AuthorityFor(contracts[i], height)) else authorizations[i])
  }

  // ---------------------------------------------------------------------
  // The loops
  // ---------------------------------------------------------------------

  /** Walks the bodies once; fails at the first bad call or stray contract bit. */
  method CollectContracts(v: Validation, block: Block, base: nat, openings: seq<Opening>)
    returns (contracts: Option<seq<Contract>>)
    ensures contracts.Some? <==> PrefixOk(v, block, base, openings)
    ensures contracts.Some? ==>
              |contracts.value| == |openings| && ContractsOf(v, block, base, openings, contracts.value)
  {
    var found: seq<Contract> := [];
    for index := 0 to |block.bodies|
      invariant |found| == if index <= base then 0 else if index - base <= |openings| then index - base else |openings|
      invariant forall k :: 0 <= k < |found| ==>
                  IsCall(v, openings[k], block.bodies[base + k], base + k, block.height, found[k])
      invariant forall i :: 0 <= i < index && !InPrefix(base, openings, i) ==> !HasContractBit(block.bodies[i])
    {
      if index >= base && index - base < |openings| {
        var contract := ContractAt(v, openings[index - base], block.bodies[index], index, block.height);
        if contract.None? {
          assert block.bodies[base + (index - base)] == block.bodies[index];
          return None;
        }
        found := found + [contract.value];
      } else if HasContractBit(block.bodies[index]) {
        return None;
      }
    }
    if |found| != |openings| {
      return None;
    }
    return Some(found);
  }

  /** Rewrites the owner of each contract's authorization in place. */
  method RewriteAuthorizations(authorizations: array<Authorization>, contracts: seq<Contract>, height: nat)
    modifies authorizations
    ensures authorizations[..] == Rewritten(old(authorizations[..]), contracts, height)
  {
    var n := if |contracts| < authorizations.Length then |contracts| else authorizations.Length;
    for i := 0 to n
      invariant forall k :: 0 <= k < authorizations.Length ==>
                  authorizations[k] == if k >= i then old(authorizations[k])
                                       else old(authorizations[k]).(owner := AuthorityFor(contracts[k], height))
    {
      authorizations[i] := authorizations[i].(owner := AuthorityFor(contracts[i], height));
    }
  }

  /** The block stands where the parent and the schedule say it does, and its page stream fits the class. */
  predicate BlockAccepted(v: Validation, pages: nat, block: Block, openings: nat, config: Config) {
    && pages == config.pages && block.height >= config.activationHeight && openings <= config.contractSlots
    && v.startBoundaryOk(block) && v.parentStateOk(block) && v.scheduleOk(block) && v.epochAnchorsOk(block)
    && v.txRootOk(block) && v.streamOf(block).Some? && ResourcesOk(v.streamOf(block).value, config)
  }

  /** The budgets an accepted block keeps: pages with the payout's, live inputs, contract slots, height. */
  lemma AcceptedIff(v: Validation, pages: nat, block: Block, openings: nat, config: Config)
    ensures BlockAccepted(v, pages, block, openings, config) <==>
              && config.pages == pages && config.activationHeight <= block.height && openings <= config.contractSlots
              && v.startBoundaryOk(block) && v.parentStateOk(block) && v.scheduleOk(block) && v.epochAnchorsOk(block)
              && v.txRootOk(block) && v.streamOf(block).Some?
              && var stream := v.streamOf(block).value;
                 && stream.liveInputs <= config.maxLiveInputs
                 && stream.pageCount <= config.pages
                 && (stream.hasDevelopmentPayout ==> stream.pageCount < config.pages)
  {
  }

  /** Authorization `k` keeps its transaction and is owned by the controller exactly while the deadline is ahead. */
  ghost predicate SignedByOpening(before: Authorization, after: Authorization, opening: Opening, height: nat) {
    && after.bodyHash == before.bodyHash
    && after.owner == if height < opening.deadline then opening.controller else opening.refundAuthority
  }

  /** The prepared input carries one contract per opening, on consecutive bodies, and their authorities' signatures. */
  ghost predicate Prepares(v: Validation, block: Block, openings: seq<Opening>, inputs: seq<Authorization>,
                           prepared: Prepared)
    requires v.streamOf(block).Some?
  {
    && |prepared.contracts| == |openings|
    && ContractsOf(v, block, v.streamOf(block).value.userStart, openings, prepared.contracts)
    && |prepared.authorizations| == |inputs|
    && forall k :: 0 <= k < |inputs| ==>
         if k < |openings| then SignedByOpening(inputs[k], prepared.authorizations[k], openings[k], block.height)
         else prepared.authorizations[k] == inputs[k]
  }

  /** What is prepared is fixed by the block and the openings. */
  lemma PreparedIsUnique(v: Validation, block: Block, openings: seq<Opening>, inputs: seq<Authorization>, a: Prepared,
                         b: Prepared)
    requires v.streamOf(block).Some? && Prepares(v, block, openings, inputs, a)
             && Prepares(v, block, openings, inputs, b)
    ensures a == b
  {
    var base := v.streamOf(block).value.userStart;
    forall k | 0 <= k < |openings|
      ensures a.contracts[k] == b.contracts[k]
    {
      assert IsCall(v, openings[k], block.bodies[base + k], base + k, block.height, a.contracts[k]);
    }
    forall k | 0 <= k < |inputs|
      ensures a.authorizations[k] == b.authorizations[k]
    {
      assert k < |openings| ==> SignedByOpening(inputs[k], a.authorizations[k], openings[k], block.height);
    }
    assert a.contracts == b.contracts && a.authorizations == b.authorizations;
  }

  /** Rewriting by contract is rewriting by opening. */
  lemma RewrittenByOpening(v: Validation, block: Block, openings: seq<Opening>, inputs: seq<Authorization>,
                           contracts: seq<Contract>)
    requires v.streamOf(block).Some? && |contracts| == |openings|
    requires ContractsOf(v, block, v.streamOf(block).value.userStart, openings, contracts)
    ensures Prepares(v, block, openings, inputs, Prepared(contracts, Rewritten(inputs, contracts, block.height)))
  {
    var base := v.streamOf(block).value.userStart;
    forall k | 0 <= k < |inputs| && k < |openings|
      ensures SignedByOpening(inputs[k], Rewritten(inputs, contracts, block.height)[k], openings[k], block.height)
    {
      ContractNamesItsOpening(v, block, base, openings, contracts, k);
    }
  }

  /**
   Succeeds exactly when every check in turn does; then the contracts are the openings on consecutive bodies from the
   user start, and each authorization is owned by its opening's controller before the deadline, else its refund
   authority.
   */
  method PrepareCandidateInput(v: Validation, pages: nat, block: Block, openings: seq<Opening>, config: Config)
    returns (result: Option<Prepared>)
    ensures result.Some? ==> BlockAccepted(v, pages, block, |openings|, config) && v.componentsOf(block).Some?
    ensures result.Some? ==> Prepares(v, block, openings, v.componentsOf(block).value, result.value)
    ensures result.Some? ==>
              var contracts, base := result.value.contracts, v.streamOf(block).value.userStart;
              && |contracts| == |openings| && (openings != [] ==> base + |openings| <= |block.bodies|)
              && forall k :: 0 <= k < |openings| ==>
                   && contracts[k].current == openings[k].state
                   && v.execute(openings[k], block.bodies[base + k], block.height)
                      == Some(Transition(contracts[k].contexts, contracts[k].next))
    ensures result.Some? <==>
              && BlockAccepted(v, pages, block, |openings|, config)
              && PrefixOk(v, block, v.streamOf(block).value.userStart, openings)
              && v.componentsOf(block).Some?
              && exists p :: && Prepares(v, block, openings, v.componentsOf(block).value, p)
                             && v.proofsOk(p.authorizations) && v.accumulatorOk(block) && v.inputOk(p)
  {
    hide Prepares, PrefixOk, ContractsOf, ResourcesOk;
    if !BlockAccepted(v, pages, block, |openings|, config) {
      return None;
    }
    var contracts := CollectContracts(v, block, v.streamOf(block).value.userStart, openings);
    if contracts.None? {
      return None;
    }
    var components := v.componentsOf(block);
    if components.None? {
      return None;
    }
    ghost var inputs := components.value;
    var n := |components.value|;
    var authorizations := new Authorization[n](i requires 0 <= i < n => components.value[i]);
    assert authorizations[..] == inputs;
    RewriteAuthorizations(authorizations, contracts.value, block.height);
    var prepared := Prepared(contracts.value, authorizations[..]);
    RewrittenByOpening(v, block, openings, inputs, contracts.value);
    forall p | Prepares(v, block, openings, inputs, p)
      ensures p == prepared
    {
      PreparedIsUnique(v, block, openings, inputs, p, prepared);
    }
    if !v.proofsOk(prepared.authorizations) || !v.accumulatorOk(block) || !v.inputOk(prepared) {
      return None;
    }
    AllNameTheirOpenings(v, block, v.streamOf(block).value.userStart, openings, contracts.value);
    return Some(prepared);
  }

  // ---------------------------------------------------------------------
  // What a successful preparation says
  // ---------------------------------------------------------------------

  /** Contract bits mark exactly the consecutive bodies from the user start, one per opening. */
  lemma ContractBitsMarkPrefix(v: Validation, block: Block, base: nat, openings: seq<Opening>, i: nat)
    requires PrefixOk(v, block, base, openings) && i < |block.bodies|
    ensures HasContractBit(block.bodies[i]) <==> InPrefix(base, openings, i)
  {
    if InPrefix(base, openings, i) {
      var k := i - base;
      assert CheckCall(v, openings[k], block.bodies[base + k], block.height).Some?;
    }
  }

  /** Each contract names its body, its opening and its authority. */
  lemma ContractNamesItsOpening(v: Validation, block: Block, base: nat, openings: seq<Opening>,
                                contracts: seq<Contract>, k: nat)
    requires ContractsOf(v, block, base, openings, contracts) && k < |contracts|
    ensures v.execute(openings[k], block.bodies[base + k], block.height)
         == Some(Transition(contracts[k].contexts, contracts[k].next))
    ensures var opening, contract := openings[k], contracts[k];
            contract == Contract(base + k, true, opening.program, opening.state, contract.contexts, contract.next,
                                 opening.controller, opening.refundAuthority,
                                 block.bodies[base + k].validityBitmap / 8192 % 2 == 1, opening.deadline,
                                 opening.claimRecipient, opening.refundRecipient, opening.rules)
    ensures AuthorityFor(contracts[k], block.height)
         == if block.height < openings[k].deadline then openings[k].controller else openings[k].refundAuthority
  {
    assert IsCall(v, openings[k], block.bodies[base + k], base + k, block.height, contracts[k]);
  }

  lemma AllNameTheirOpenings(v: Validation, block: Block, base: nat, openings: seq<Opening>,
                             contracts: seq<Contract>)
    requires ContractsOf(v, block, base, openings, contracts) && |contracts| == |openings|
    ensures openings != [] ==> base + |openings| <= |block.bodies|
    ensures forall k :: 0 <= k < |openings| ==>
              && contracts[k].current == openings[k].state
              && v.execute(openings[k], block.bodies[base + k], block.height)
                 == Some(Transition(contracts[k].contexts, contracts[k].next))
  {
    forall k | 0 <= k < |openings|
      ensures contracts[k].current == openings[k].state
      ensures v.execute(openings[k], block.bodies[base + k], block.height)
           == Some(Transition(contracts[k].contexts, contracts[k].next))
    {
      ContractNamesItsOpening(v, block, base, openings, contracts, k);
    }
  }

  /** A block fixes how many openings it takes. */
  lemma OpeningCountIsForced(v: Validation, block: Block, base: nat, a: seq<Opening>, b: seq<Opening>)
    requires PrefixOk(v, block, base, a) && PrefixOk(v, block, base, b)
    ensures |a| == |b|
  {
    NoMoreOpenings(v, block, base, a, b);
    NoMoreOpenings(v, block, base, b, a);
  }

  lemma NoMoreOpenings(v: Validation, block: Block, base: nat, a: seq<Opening>, b: seq<Opening>)
    requires PrefixOk(v, block, base, a) && PrefixOk(v, block, base, b)
    ensures |b| <= |a|
  {
    if base + |a| < |block.bodies| {
      ContractBitsMarkPrefix(v, block, base, a, base + |a|);
      ContractBitsMarkPrefix(v, block, base, b, base + |a|);
    }
  }
}
