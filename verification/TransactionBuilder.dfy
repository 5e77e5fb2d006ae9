/** The transaction builder (builder/transaction_builder.go): its mana ledger, its allotting and storing
    procedures, and building. */
module TransactionBuilder {
  import opened Common
  import opened Words
  import opened Outputs
  import opened Totals
  import opened ManaLedger
  import opened AvailableMana
  import opened Allotments
  import opened Leftovers
  import opened ContextInputs
  import opened UnlockValidator
  import opened BuilderUnlocks
  import Payloads

  datatype Transaction = Transaction(
    inputs: seq<OutputID>,
    contextInputs: seq<ContextInput>,
    outputs: seq<Output>,
    allotments: seq<Allotment>,
    capabilities: Bytes,
    payload: Option<Payloads.Tagged>,
    creationSlot: uint32)

  datatype SignedTransaction = SignedTransaction(transaction: Transaction, unlocks: seq<Unlock>)

  /** What the builder takes from the protocol; None is an error. `manaCost` is the cost, at a reference
      mana cost, of a block with the transaction. */
  datatype API = API(
    rules: ManaRules,
    maxCommittableAge: uint32,
    signingMessage: Transaction -> Option<Bytes>,
    manaCost: (Mana, SignedTransaction) -> Option<Mana>)

  // ---------- Which account's mana an output holds ----------

  /** The account to which the output's mana is locked for long enough, if it is; slots are 32 bits. */
  function ManaLock(creationSlot: uint32, maxCommittableAge: uint32, output: Output): Option<AccountID> {
    var minManalockedSlot := (creationSlot + 2 * maxCommittableAge) % TWO_TO_THE_32;
    var timelock, address := output.conditions.timelock, output.conditions.address;
    if timelock.None? || minManalockedSlot >= timelock.value then None
    else if address.None? || !address.value.AccountAddress? then None
    else Some(address.value.accountID)
  }

  /** Mana on account outputs is locked to the account. */
  function ManaAccount(creationSlot: uint32, maxCommittableAge: uint32, output: Output): Option<AccountID> {
    if output.AccountOutput? then Some(output.accountID) else ManaLock(creationSlot, maxCommittableAge, output)
  }

  /** The mana of an account output counts for its account; that of any other output counts for an account
      exactly if the output is timelocked beyond the creation slot plus twice the maximum committable age,
      computed in 32 bits, and addressed to that account. */
  lemma ManaAccountIff(creationSlot: uint32, maxCommittableAge: uint32, output: Output, a: AccountID)
    ensures ManaAccount(creationSlot, maxCommittableAge, output) == Some(a) <==>
      if output.AccountOutput? then output.accountID == a
      else
        && output.conditions.timelock.Some?
        && output.conditions.timelock.value > (creationSlot + 2 * maxCommittableAge) % 0x1_0000_0000
        && output.conditions.address == Some(AccountAddress(a))
  {
  }

  /** With slots near 2^32 the limit wraps around, and any later timelock locks the mana. */
  lemma ManaLockWraps(a: AccountID)
    ensures ManaLock(0xFFFF_FFFF, 1, BasicOutput(0, UnlockConditions(Some(2), Some(AccountAddress(a))))) == Some(a)
  {
  }

  function OutputDebit(creationSlot: uint32, maxCommittableAge: uint32, output: Output): Debit {
    Debit(ManaAccount(creationSlot, maxCommittableAge, output), output.StoredMana())
  }

  function OutputDebits(creationSlot: uint32, maxCommittableAge: uint32, outputs: seq<Output>): seq<Debit> {
    seq(|outputs|, i requires 0 <= i < |outputs| => OutputDebit(creationSlot, maxCommittableAge, outputs[i]))
  }

  /** What remains after the first `i` debits. */
  ghost function BoundAfter(available: Balances, debits: seq<Debit>, i: nat): map<AccountID, nat>
    requires i <= |debits|
  {
    BoundLeft(available, ChargesOf(debits[..i]))
  }

  ghost function UnboundAfter(available: Balances, debits: seq<Debit>, i: nat): int
    requires i <= |debits|
  {
    UnboundLeft(available, ChargesOf(debits[..i]))
  }

  lemma AfterNone(available: Balances, debits: seq<Debit>)
    ensures UnboundAfter(available, debits, 0) == available.unbound
    ensures BoundAfter(available, debits, 0) == available.bound
  {
    assert debits[..0] == [];
  }

  lemma AfterNext(available: Balances, debits: seq<Debit>, i: nat)
    requires i < |debits|
    ensures debits[i].account.None? ==>
      && BoundAfter(available, debits, i + 1) == BoundAfter(available, debits, i)
      && UnboundAfter(available, debits, i + 1) == UnboundAfter(available, debits, i) - debits[i].amount
    ensures debits[i].account.Some? ==>
      var a := debits[i].account.value;
      && BoundAfter(available, debits, i + 1) == TakenFrom(BoundAfter(available, debits, i), a, debits[i].amount)
      && UnboundAfter(available, debits, i + 1) == UnboundAfter(available, debits, i)
           - Excess(debits[i].amount, Amount(BoundAfter(available, debits, i), a))
    ensures UnboundAfter(available, debits, |debits|) <= UnboundAfter(available, debits, i + 1)
  {
    hide Charge, UnboundLeft, BoundLeft, TakenFrom;
    assert debits[..i + 1][..i] == debits[..i];
    ChargeOnce(available, ChargesOf(debits[..i]), debits[i]);
    assert debits[..|debits|] == debits;
    PrefixLeavesMore(available, debits, i + 1);
  }

  function AllDebits(outputs: seq<Debit>, allotments: seq<Allotment>): seq<Debit> {
    outputs + AllotmentDebits(allotments)
  }

  lemma AfterAll(available: Balances, outputs: seq<Debit>, allotments: seq<Allotment>)
    requires Distinct(allotments)
    ensures var debits := AllDebits(outputs, allotments);
            var charges := WithAllotments(ChargesOf(outputs), AllotmentMap(allotments));
            && |debits| == |outputs| + |allotments|
            && (forall i :: 0 <= i < |outputs| ==> debits[i] == outputs[i])
            && (forall i :: 0 <= i < |allotments| ==> debits[|outputs| + i] == AllotmentDebit(allotments[i]))
            && UnboundAfter(available, debits, 0) == available.unbound
            && BoundAfter(available, debits, 0) == available.bound
            && UnboundAfter(available, debits, |debits|) == UnboundLeft(available, charges)
            && BoundAfter(available, debits, |debits|) == BoundLeft(available, charges)
  {
    hide ChargesOf, WithAllotments, AllotmentMap, BoundLeft, UnboundLeft, Distinct;
    var debits := AllDebits(outputs, allotments);
    ChargesWithAllotments(outputs, allotments);
    AfterNone(available, debits);
    assert debits[..|debits|] == debits;
  }

  // ---------- The dummy transaction and what it costs ----------

  function SortedTransaction(tx: Transaction): Transaction {
    tx.(contextInputs := SortedInputs(tx.contextInputs), allotments := Sorted(tx.allotments))
  }

  function DummyOf(tx: Transaction, allotted: seq<Allotment>, issuer: AccountID): Transaction {
    SortedTransaction(tx.(allotments := Increase(allotted, issuer, 1074)))
  }

  ghost predicate EqualButMana(a: Output, b: Output) {
    a == b || (a.StoresMana() && b.StoresMana() && a == b.(mana := a.mana))
  }

  /** The transactions differ in mana and in that the first one may have fewer allotments; their context
      inputs are in order. */
  ghost predicate NoLarger(a: Transaction, b: Transaction) {
    && a.inputs == b.inputs && a.capabilities == b.capabilities && a.payload == b.payload
    && a.creationSlot == b.creationSlot && a.contextInputs == b.contextInputs && InOrder(a.contextInputs)
    && |a.allotments| <= |b.allotments|
    && |a.outputs| == |b.outputs| && (forall i :: 0 <= i < |a.outputs| ==> EqualButMana(a.outputs[i], b.outputs[i]))
  }

  /** The cost of a block depends on sizes and counts, not on mana and signatures, and does not grow when
      allotments are left out. */
  ghost predicate CostMonotone(api: API) {
    forall rmc: Mana, a: SignedTransaction, b: SignedTransaction ::
      NoLarger(a.transaction, b.transaction) && SameShape(b.unlocks, a.unlocks) && api.manaCost(rmc, b).Some? ==>
        api.manaCost(rmc, a).Some? && api.manaCost(rmc, a).value <= api.manaCost(rmc, b).value
  }

  lemma SortedLength(allotments: seq<Allotment>)
    ensures |Sorted(allotments)| == |allotments|
  {
    SortedMeans(allotments);
    assert |multiset(Sorted(allotments))| == |multiset(allotments)|;
  }

  lemma SortedNoLarger(a: Transaction, b: Transaction)
    requires NoLarger(a, b)
    ensures NoLarger(SortedTransaction(a), b)
  {
    hide Sorted, SortedInputs, InOrder;
    SortedLength(a.allotments);
    SortedInputsAgain(a.contextInputs);
  }

  lemma NoLargerThanDummy(was: Transaction, now: Transaction, dummy: Transaction, allotted: seq<Allotment>,
      issuer: AccountID, value: Mana, index: nat, account: AccountID, rest: Option<Balances>)
    requires dummy == DummyOf(was, allotted, issuer)
    requires now == was.(contextInputs := SortedInputs(was.contextInputs), allotments := now.allotments, outputs := now.outputs)
    requires now.allotments == Increase(allotted, issuer, value)
    requires StoresRest(was.outputs, now.outputs, index, account, rest)
    ensures NoLarger(now, dummy)
  {
    hide Sorted, SortedInputs, IndexOf, InOrder;
    SortedLength(Increase(allotted, issuer, 1074));
    SortedInputsMeans(was.contextInputs);
  }

  function SpentOf(ids: seq<OutputID>, inputs: map<OutputID, Output>, owners: map<OutputID, Address>): seq<SpentInput>
    requires forall id :: id in ids ==> id in inputs && id in owners
  {
    seq(|ids|, i requires 0 <= i < |ids| => SpentInput(owners[ids[i]], inputs[ids[i]]))
  }

  class TransactionBuilder {
    const api: API
    const signer: Option<Signer>
    var occurredBuildErr: bool
    var txInputs: seq<OutputID>
    var contextInputs: seq<ContextInput>
    var outputs: seq<Output>
    var allotments: seq<Allotment>
    var capabilities: Bytes
    var payload: Option<Payloads.Tagged>
    var creationSlot: uint32
    var inputs: map<OutputID, Output>
    var inputOwner: map<OutputID, Address>
    var rewards: Mana

    ghost predicate Valid()
      reads `allotments, `txInputs, `inputs, `inputOwner
    {
      Distinct(allotments) && InputsKnown()
    }

    /** Output and owner of every input are known. */
    ghost predicate InputsKnown()
      reads `txInputs, `inputs, `inputOwner
    {
      forall id :: id in txInputs ==> id in inputs && id in inputOwner
    }

    constructor (api: API, signer: Option<Signer>)
      ensures this.api == api && this.signer == signer
      ensures Valid() && !occurredBuildErr
      ensures txInputs == [] && outputs == [] && allotments == [] && inputs == map[] && rewards == 0
      ensures contextInputs == [] && capabilities == [] && payload.None? && creationSlot == 0 && inputOwner == map[]
    {
      this.api, this.signer := api, signer;
      occurredBuildErr := false;
      txInputs, outputs, allotments := [], [], [];
      contextInputs, capabilities, payload := [], [], None;
      creationSlot, rewards := 0, 0;
      inputs, inputOwner := map[], map[];
    }

    method AddInput(id: OutputID, unlockTarget: Address, input: Output)
      requires Valid()
      modifies `txInputs, `inputs, `inputOwner
      ensures Valid()
      ensures txInputs == old(txInputs) + [id] && inputs == old(inputs)[id := input]
      ensures inputOwner == old(inputOwner)[id := unlockTarget]
    {
      inputOwner := inputOwner[id := unlockTarget];
      txInputs := txInputs + [id];
      inputs := inputs[id := input];
    }

    method AddOutput(output: Output)
      requires Valid()
      modifies `outputs
      ensures Valid() && outputs == old(outputs) + [output]
    {
      outputs := outputs + [output];
    }

    /** Adds a commitment or block issuance credit input. */
    method AddContextInput(input: ContextInput)
      requires Valid() && !input.RewardInput?
      modifies `contextInputs
      ensures Valid() && contextInputs == old(contextInputs) + [input]
    {
      contextInputs := contextInputs + [input];
    }

    /** Adds a reward input and its mana to the rewards, with the machine's wrap-around. */
    method AddRewardInput(index: uint16, mana: Mana)
      requires Valid()
      modifies `contextInputs, `rewards
      ensures Valid() && contextInputs == old(contextInputs) + [RewardInput(index)]
      ensures rewards == Add64(old(rewards), mana)
    {
      contextInputs := contextInputs + [RewardInput(index)];
      rewards := Add64(rewards, mana);
    }

    method WithTransactionCapabilities(bits: Bytes)
      requires Valid()
      modifies `capabilities
      ensures Valid() && capabilities == bits
    {
      capabilities := bits;
    }

    method AddTaggedDataPayload(taggedData: Payloads.Tagged)
      requires Valid()
      modifies `payload
      ensures Valid() && payload == Some(taggedData)
    {
      payload := Some(taggedData);
    }

    method SetCreationSlot(slot: uint32)
      requires Valid()
      modifies `creationSlot
      ensures Valid() && creationSlot == slot
    {
      creationSlot := slot;
    }

    method SetBuildError()
      modifies `occurredBuildErr
      ensures occurredBuildErr
    {
      occurredBuildErr := true;
    }

    /** The mana allotted to every account. */
    ghost function Allotted(): map<AccountID, Mana>
      reads `allotments
    {
      AllotmentMap(allotments)
    }

    method IncreaseAllotment(accountID: AccountID, value: Mana)
      requires Valid()
      modifies `allotments
      ensures Valid()
      ensures allotments == Increase(old(allotments), accountID, value)
      ensures Allotted() == Increased(old(Allotted()), accountID, value)
    {
      hide Distinct, AllotmentMap, Increased;
      IncreaseMeans(allotments, accountID, value);
      if value == 0 {
        return;
      }
      for i := 0 to |allotments|
        invariant allotments == old(allotments)
        invariant i <= IndexOf(allotments, accountID)
      {
        if allotments[i].accountID == accountID {
          allotments := allotments[i := Allotment(accountID, Wrapped(allotments[i].mana + value))];
          return;
        }
      }
      allotments := allotments + [Allotment(accountID, value)];
    }

    // ---------- What remains ----------

    ghost function Debits(): seq<Debit>
      reads `outputs, `creationSlot
    {
      OutputDebits(creationSlot, api.maxCommittableAge, outputs)
    }

    /** The mana of the inputs and the rewards fits 64 bits, and can be computed. */
    ghost predicate Computes(targetSlot: uint32)
      reads `inputs, `rewards
    {
      InputsFit(api.rules, targetSlot, inputs, rewards)
    }

    /** What the inputs and the rewards provide. */
    ghost function Available(targetSlot: uint32): Balances
      requires Computes(targetSlot)
      reads `inputs, `rewards
    {
      AvailableOf(api.rules, targetSlot, inputs, rewards)
    }

    ghost function AvailableMana(targetSlot: uint32): Option<Balances>
      reads `inputs, `rewards
    {
      if Computes(targetSlot) then Some(Available(targetSlot)) else None
    }

    /** What remains after the outputs and the allotments; None if there is not enough. */
    ghost function RemainingMana(targetSlot: uint32): Option<Balances>
      reads `inputs, `rewards, `outputs, `creationSlot, `allotments
    {
      LeftBy(AvailableMana(targetSlot), Debits(), Allotted())
    }

    /** What the loop over the outputs does with the available mana. */
    method SubtractOutputs(available: AvailableManaResult, ghost all: Balances, ghost debits: seq<Debit>)
        returns (ok: bool)
      requires |outputs| <= |debits|
      requires forall i :: 0 <= i < |outputs| ==> debits[i] == OutputDebit(creationSlot, api.maxCommittableAge, outputs[i])
      requires available.unboundMana == UnboundAfter(all, debits, 0)
      requires available.accountBoundMana == BoundAfter(all, debits, 0)
      modifies available`unboundMana, available`accountBoundMana
      ensures !ok ==> UnboundAfter(all, debits, |debits|) < 0
      ensures ok ==> available.unboundMana == UnboundAfter(all, debits, |outputs|)
      ensures ok ==> available.accountBoundMana == BoundAfter(all, debits, |outputs|)
    {
      hide UnboundAfter, BoundAfter, TakenFrom, Excess;
      for i := 0 to |outputs|
        invariant available.unboundMana == UnboundAfter(all, debits, i)
        invariant available.accountBoundMana == BoundAfter(all, debits, i)
      {
        AfterNext(all, debits, i);
        var output := outputs[i];
        assert debits[i] == OutputDebit(creationSlot, api.maxCommittableAge, output);
        if output.AccountOutput? {
          ok := available.SubtractBound(output.accountID, output.StoredMana());
        } else {
          var accountID := ManaLock(creationSlot, api.maxCommittableAge, output);
          if accountID.Some? {
            ok := available.SubtractBound(accountID.value, output.StoredMana());
          } else {
            ok := available.SubtractUnbound(output.StoredMana());
          }
        }
        if !ok {
          return;
        }
      }
      return true;
    }

    /** What the loop over the allotments does with the available mana. */
    method SubtractAllotments(available: AvailableManaResult, ghost all: Balances, ghost debits: seq<Debit>,
        ghost n: nat)
        returns (ok: bool)
      requires |debits| == n + |allotments|
      requires forall i :: 0 <= i < |allotments| ==> debits[n + i] == AllotmentDebit(allotments[i])
      requires available.unboundMana == UnboundAfter(all, debits, n)
      requires available.accountBoundMana == BoundAfter(all, debits, n)
      modifies available`unboundMana, available`accountBoundMana
      ensures !ok ==> UnboundAfter(all, debits, |debits|) < 0
      ensures ok ==> available.unboundMana == UnboundAfter(all, debits, |debits|)
      ensures ok ==> available.accountBoundMana == BoundAfter(all, debits, |debits|)
    {
      hide UnboundAfter, BoundAfter, TakenFrom, Excess;
      for i := 0 to |allotments|
        invariant available.unboundMana == UnboundAfter(all, debits, n + i)
        invariant available.accountBoundMana == BoundAfter(all, debits, n + i)
      {
        AfterNext(all, debits, n + i);
        ok := available.SubtractBound(allotments[i].accountID, allotments[i].mana);
        if !ok {
          return;
        }
      }
      return true;
    }

    /** Charges the outputs, then the allotments, one after the other. */
    method CalculateAvailableManaRemaining(targetSlot: uint32) returns (result: Option<AvailableManaResult>)
      requires Valid()
      ensures result.Some? <==> RemainingMana(targetSlot).Some?
      ensures result.Some? ==> fresh(result.value)
      ensures result.Some? ==> result.value.unboundMana == RemainingMana(targetSlot).value.unbound
      ensures result.Some? ==> result.value.accountBoundMana == RemainingMana(targetSlot).value.bound
    {
      hide ChargesOf, AvailableOf, InputsFit, WithAllotments, AllotmentMap, BoundLeft, UnboundLeft, Distinct;
      hide UnboundAfter, BoundAfter, AllDebits, OutputDebit, AllotmentDebit;
      result := CalculateAvailableManaInputs(api.rules, inputs, rewards, targetSlot);
      if result.None? {
        return;
      }
      var available := result.value;
      ghost var all := Available(targetSlot);
      ghost var debits := AllDebits(Debits(), allotments);
      AfterAll(all, Debits(), allotments);
      var ok := SubtractOutputs(available, all, debits);
      if !ok {
        return None;
      }
      ok := SubtractAllotments(available, all, debits, |outputs|);
      if !ok {
        return None;
      }
    }

    // ---------- Allotting ----------

    /** Allots bound mana to its accounts, except to the ignored ones, in any order; also returns what the
        callback was called with, once for every such account. */
    method AllotBoundMana(bound: map<AccountID, Mana>, ignored: seq<AccountID>) returns (calls: map<AccountID, Mana>)
      requires Valid()
      modifies `allotments
      ensures Valid()
      ensures Allotted() == IncreasedAll(old(Allotted()), Kept(bound, ignored))
      ensures calls == Kept(bound, ignored)
    {
      hide Distinct, AllotmentMap, IncreasedAll, Increase, Increased;
      calls := map[];
      var remaining := bound.Keys;
      IncreasedByNothing(Allotted());
      while remaining != {}
        invariant remaining <= bound.Keys
        invariant Valid()
        invariant forall a :: a in calls <==> a in bound && a !in remaining && a !in ignored
        invariant forall a :: a in calls ==> calls[a] == bound[a]
        invariant Allotted() == IncreasedAll(old(Allotted()), calls)
        decreases |remaining|
      {
        var accountID :| accountID in remaining;
        remaining := remaining - {accountID};
        if accountID !in ignored {
          var mana := bound[accountID];
          IncreasedAllStep(old(Allotted()), calls, accountID, mana);
          IncreaseAllotment(accountID, mana);
          calls := calls[accountID := mana];
        }
      }
      assert calls == Kept(bound, ignored);
    }

    /** Allots what remains of bound mana, except to the ignored accounts, and calls back with every account
        and its mana. Nothing but the mana of ignored accounts and the unbound mana remains. */
    method AllotRemainingAccountBoundMana(targetSlot: uint32, ignored: seq<AccountID>)
        returns (calls: map<AccountID, Mana>)
      requires Valid()
      modifies `allotments, `occurredBuildErr
      ensures Valid()
      ensures old(RemainingMana(targetSlot)).None? ==>
        occurredBuildErr && allotments == old(allotments) && calls == map[]
      ensures old(RemainingMana(targetSlot)).Some? ==>
        var was := old(RemainingMana(targetSlot)).value;
        && occurredBuildErr == old(occurredBuildErr)
        && Allotted() == AllottingBound(old(Allotted()), was, ignored)
        && calls == Kept(was.bound, ignored)
        && RemainingMana(targetSlot) == Some(AfterAllottingBound(was, ignored))
    {
      hide Distinct, AllotmentMap, IncreasedAll, InputsFit, AvailableOf, ChargesOf, WithAllotments, Remaining, Kept, Without;
      var remainingMana := CalculateAvailableManaRemaining(targetSlot);
      if remainingMana.None? {
        SetBuildError();
        return map[];
      }
      AvailableFits(api.rules, targetSlot, inputs, rewards);
      AllottedBoundRemains(Available(targetSlot), ChargesOf(Debits()), Allotted(), ignored);
      calls := AllotBoundMana(remainingMana.value.accountBoundMana, ignored);
    }

    /** Allots all remaining mana: bound mana to its accounts, unbound mana to the given account. Exactly
        what the account's allotment loses by wrapping around remains. */
    method AllotAllMana(targetSlot: uint32, accountID: AccountID, minRequiredMana: Mana)
      requires Valid()
      modifies `allotments, `occurredBuildErr
      ensures Valid()
      ensures old(RemainingMana(targetSlot)).None? ==> occurredBuildErr && allotments == old(allotments)
      ensures old(RemainingMana(targetSlot)).Some? ==>
        var was := old(RemainingMana(targetSlot)).value;
        var toAccount := Amount(was.bound, accountID) + was.unbound;
        && Allotted() == Increased(IncreasedAll(old(Allotted()), was.bound), accountID, was.unbound)
        && occurredBuildErr == (old(occurredBuildErr) || Wrapped(toAccount) < minRequiredMana)
        && RemainingMana(targetSlot).Some?
        && RemainingMana(targetSlot).value.Total() == Lost(Amount(old(Allotted()), accountID) + toAccount)
        && (Available(targetSlot).Total() < TWO_TO_THE_64 ==> RemainingMana(targetSlot).value.Total() == 0)
    {
      hide *;
      RemainingManaIs(targetSlot);
      var remainingMana := CalculateAvailableManaRemaining(targetSlot);
      if remainingMana.None? {
        SetBuildError();
        return;
      }
      AvailableFitsHere(targetSlot);
      AllottedAllRemains(Available(targetSlot), ChargesOf(Debits()), Allotted(), accountID);
      AllottedFits(Available(targetSlot), ChargesOf(Debits()), Allotted(), accountID);
      KeptAll(remainingMana.value.accountBoundMana);
      var allotted := AllotBoundMana(remainingMana.value.accountBoundMana, []);
      IncreaseAllotment(accountID, remainingMana.value.unboundMana);
      RemainingManaIs(targetSlot);
      var allottedManaAccountSum := Wrapped(Amount(allotted, accountID) + remainingMana.value.unboundMana);
      if allottedManaAccountSum < minRequiredMana {
        SetBuildError();
      }
    }

    // ---------- Storing ----------

    /** The account whose mana may be stored in the output: the one the output's mana is locked to, the
        empty one if it is not locked. Fails for a missing output and one that cannot store mana. */
    method GetStoredManaOutputAccountID(storedManaOutputIndex: nat) returns (accountID: Option<AccountID>)
      ensures accountID.Some? <==> Stores(storedManaOutputIndex)
      ensures accountID.Some? ==> accountID.value == StoredAccount(storedManaOutputIndex)
    {
      if storedManaOutputIndex >= |outputs| {
        return None;
      }
      var output := outputs[storedManaOutputIndex];
      match output
      case AccountOutput(id, _, _) =>
        return Some(id);
      case FoundryOutput(_) =>
        return None;
      case DelegationOutput(_) =>
        return None;
      case _ =>
        var lockedTo := ManaLock(creationSlot, api.maxCommittableAge, output);
        return Some(if lockedTo.Some? then lockedTo.value else EMPTY_ACCOUNT_ID);
    }

    /** Adds the remaining unbound mana, and the bound mana of the given account unless it is the empty
        one, to the stored mana of the output. */
    method StoreRemainingManaInOutput(targetSlot: uint32, storedManaOutputIndex: nat, accountID: AccountID)
        returns (ok: bool)
      requires Valid()
      modifies `outputs
      ensures Valid()
      ensures ok <==> storedManaOutputIndex < |old(outputs)| && old(RemainingMana(targetSlot)).Some?
      ensures !ok ==> outputs == old(outputs)
      ensures ok ==>
        outputs == old(outputs)[storedManaOutputIndex :=
          WithMoreMana(old(outputs)[storedManaOutputIndex], ToStore(old(RemainingMana(targetSlot)).value, accountID))]
    {
      hide *;
      if storedManaOutputIndex >= |outputs| {
        return false;
      }
      var remainingMana := CalculateAvailableManaRemaining(targetSlot);
      if remainingMana.None? {
        return false;
      }
      var remainingManaBalance := StoredBalance(remainingMana.value.unboundMana, remainingMana.value.accountBoundMana, accountID);
      AddedMana(outputs[storedManaOutputIndex], RemainingMana(targetSlot).value,
                remainingMana.value.unboundMana, remainingMana.value.accountBoundMana, accountID);
      outputs := outputs[storedManaOutputIndex := WithMoreMana(outputs[storedManaOutputIndex], remainingManaBalance)];
      return true;
    }

    /** Stores the unbound mana, and the mana bound to the output's account, in the output; allots other
        bound mana to its accounts. What remains is mana bound to the empty account, if the output's
        account is the empty one, and what the output's mana loses by wrapping around. */
    method StoreRemainingManaInOutputAndAllotRemainingAccountBoundMana(targetSlot: uint32, storedManaOutputIndex: nat)
      requires Valid()
      modifies `outputs, `allotments, `occurredBuildErr
      ensures Valid()
      ensures !old(Stores(storedManaOutputIndex)) || old(RemainingMana(targetSlot)).None? ==>
        occurredBuildErr && outputs == old(outputs) && allotments == old(allotments)
      ensures old(Stores(storedManaOutputIndex)) && old(RemainingMana(targetSlot)).Some? ==>
        var was, account := old(RemainingMana(targetSlot)).value, old(StoredAccount(storedManaOutputIndex));
        && occurredBuildErr == old(occurredBuildErr)
        && Allotted() == AllottingBound(old(Allotted()), was, [account])
        && outputs == old(outputs)[storedManaOutputIndex :=
             WithMoreMana(old(outputs)[storedManaOutputIndex], ToStore(was, account))]
        && RemainingMana(targetSlot).Some?
        && RemainingMana(targetSlot).value.Total()
           == NotStored(was, account) + Lost(old(outputs)[storedManaOutputIndex].StoredMana() + ToStore(was, account))
        && (Available(targetSlot).Total() < TWO_TO_THE_64 ==>
              RemainingMana(targetSlot).value.Total() == NotStored(was, account))
    {
      hide *;
      var accountID := GetStoredManaOutputAccountID(storedManaOutputIndex);
      if accountID.None? {
        SetBuildError();
        return;
      }
      RemainingManaIs(targetSlot);
      DebitsAre();
      StoreParts(storedManaOutputIndex);
      ghost var was, debits := RemainingMana(targetSlot), Debits();
      if was.Some? {
        AvailableFitsHere(targetSlot);
        StoredAfterAllotting(Available(targetSlot), debits, Allotted(), storedManaOutputIndex);
        StoredFits(Available(targetSlot), debits, Allotted(), storedManaOutputIndex);
        ToStoreAfterAllotting(was.value, accountID.value);
        StoredDebits(creationSlot, api.maxCommittableAge, outputs, storedManaOutputIndex, ToStore(was.value, accountID.value));
      }
      var _ := AllotRemainingAccountBoundMana(targetSlot, [accountID.value]);
      var ok := StoreRemainingManaInOutput(targetSlot, storedManaOutputIndex, accountID.value);
      if !ok {
        SetBuildError();
        return;
      }
      RemainingManaIs(targetSlot);
      DebitsAre();
    }

    // ---------- Building ----------

    function CurrentTransaction(): Transaction
      reads `txInputs, `contextInputs, `outputs, `allotments, `capabilities, `payload, `creationSlot
    {
      Transaction(txInputs, contextInputs, outputs, allotments, capabilities, payload, creationSlot)
    }

    /** The consumed outputs in the order of the inputs, with their owners. */
    function SpentInputs(): seq<SpentInput>
      requires InputsKnown()
      reads `txInputs, `inputs, `inputOwner
    {
      SpentOf(txInputs, inputs, inputOwner)
    }

    /** `tx` can be built: there is a signer and a message to sign, and every input is unlockable. */
    ghost predicate Buildable(signEssence: bool, tx: Transaction)
      requires InputsKnown()
      reads `occurredBuildErr, `txInputs, `inputs, `inputOwner
    {
      && !occurredBuildErr && signer.Some? && api.signingMessage(tx).Some?
      && AllUnlockable(signer.value.uidFor,
           SignFunctionOf(signer.value, signEssence, api.signingMessage(tx).value), SpentInputs())
    }

    ghost predicate IsBuilt(signEssence: bool, tx: Transaction, signed: SignedTransaction)
      requires InputsKnown()
      reads `txInputs, `inputs, `inputOwner
    {
      && signer.Some? && api.signingMessage(tx).Some?
      && signed.transaction == tx
      && Built(signer.value.uidFor,
           SignFunctionOf(signer.value, signEssence, api.signingMessage(tx).value), SpentInputs(), signed.unlocks)
    }

    /** A transaction that was built and signed is accepted by the unlock validator, one unlock for every
        input, if signatures carry the signer's UID. */
    lemma BuiltIsAccepted(signed: SignedTransaction, encode: Encoder)
      requires Valid() && IsBuilt(true, CurrentTransaction(), signed) && |txInputs| <= TWO_TO_THE_16
      requires SignaturesCarryUID(signer.value.uidFor,
                 SignFunctionOf(signer.value, true, api.signingMessage(CurrentTransaction()).value))
      ensures Consistent(encode, signed.unlocks)
      ensures |signed.unlocks| == |signed.transaction.inputs|
    {
      BuiltUnlocksAccepted(signer.value.uidFor,
        SignFunctionOf(signer.value, true, api.signingMessage(CurrentTransaction()).value), SpentInputs(), signed.unlocks,
        encode);
      hide Consistent, SignaturesCarryUID, SignFunctionOf;
    }

    /** What is built consists of the transaction and, for the owner of every input, the signer's signature of
        the transaction's signing message, or the empty signature for that owner, or a reference. */
    lemma BuiltIsSigned(signEssence: bool, tx: Transaction, signed: SignedTransaction)
      requires Valid() && IsBuilt(signEssence, tx, signed)
      ensures signed.transaction == tx && |signed.unlocks| == |txInputs|
      ensures forall i :: 0 <= i < |txInputs| && signed.unlocks[i].SignatureUnlock? ==>
        var target := inputOwner[txInputs[i]];
        var owner := if target.RestrictedAddress? then target.underlying else target;
        signed.unlocks[i].signature == if signEssence then signer.value.sign(owner, api.signingMessage(tx).value)
                                       else signer.value.emptySignatureFor(owner)
      ensures forall i :: 0 <= i < |txInputs| ==> signed.unlocks[i].SignatureUnlock? || signed.unlocks[i].Referential?
    {
      hide SignFunctionOf;
      BuiltSigns(signer.value, signEssence, api.signingMessage(tx).value, SpentInputs(), signed.unlocks);
      forall i | 0 <= i < |txInputs|
        ensures signed.unlocks[i].SignatureUnlock? || signed.unlocks[i].Referential?
      {
        BuiltKinds(signer.value.uidFor, SignFunctionOf(signer.value, signEssence, api.signingMessage(tx).value),
                   SpentInputs(), signed.unlocks, i);
      }
    }

    /** The signed transaction costs at most what the dummy transaction did, and so the issuer has been
        allotted enough for the block: `tx` is what the builder held when the issuer's allotment was made,
        and it was then built and signed. */
    lemma SignedCostsAtMostDummy(rmc: Mana, issuer: AccountID, tx: Transaction, dummy: SignedTransaction,
                                 signed: SignedTransaction)
      requires Valid() && CostMonotone(api)
      requires NoLarger(tx, dummy.transaction) && CurrentTransaction() == SortedTransaction(tx)
      requires IsBuilt(false, dummy.transaction, dummy) && IsBuilt(true, CurrentTransaction(), signed)
      requires api.manaCost(rmc, dummy).Some? && Amount(Allotted(), issuer) >= api.manaCost(rmc, dummy).value
      ensures api.manaCost(rmc, signed).Some?
      ensures api.manaCost(rmc, signed).value <= api.manaCost(rmc, dummy).value
      ensures Amount(Allotted(), issuer) >= api.manaCost(rmc, signed).value
    {
      hide NoLarger, SameShape, Built, SortedTransaction, AllotmentMap, SpentOf, SignFunctionOf;
      SortedNoLarger(tx, dummy.transaction);
      DummyBuildSameShape(signer.value, api.signingMessage(dummy.transaction).value,
                          api.signingMessage(CurrentTransaction()).value, SpentInputs(), dummy.unlocks, signed.unlocks);
    }

    /** Sorts the allotments and the context inputs, then unlocks all inputs. */
    method Build(signEssence: bool) returns (signed: Option<SignedTransaction>)
      requires Valid()
      modifies `allotments, `contextInputs
      ensures Valid() && Allotted() == old(Allotted())
      ensures allotments == if CanBuild() then Sorted(old(allotments)) else old(allotments)
      ensures contextInputs == if CanBuild() then SortedInputs(old(contextInputs)) else old(contextInputs)
      ensures signed.Some? <==> Buildable(signEssence, CurrentTransaction())
      ensures signed.Some? ==> IsBuilt(signEssence, CurrentTransaction(), signed.value)
    {
      hide Distinct, Built, AllUnlockable, SignFunctionOf, Sorted, SortedInputs, AllotmentMap, SpentOf;
      if occurredBuildErr {
        return None;
      }
      if signer.None? {
        return None;
      }
      SortedKeeps(allotments);
      allotments := Sorted(allotments);
      contextInputs := SortedInputs(contextInputs);
      var txEssenceData := api.signingMessage(CurrentTransaction());
      if txEssenceData.None? {
        return None;
      }
      var unlocks := BuildUnlocks(signer.value, signEssence, txEssenceData.value, SpentInputs());
      if unlocks.None? {
        return None;
      }
      return Some(SignedTransaction(CurrentTransaction(), unlocks.value));
    }

    /** No build error has occurred and there is a signer. */
    predicate CanBuild()
      reads `occurredBuildErr
    {
      !occurredBuildErr && signer.Some?
    }

    /** The transaction with the given allotments and an allotment to the block issuer, sorted. */
    function DummyTransaction(allotted: seq<Allotment>, blockIssuerAccountID: AccountID): Transaction
      reads `txInputs, `contextInputs, `outputs, `capabilities, `payload, `creationSlot
    {
      DummyOf(Transaction(txInputs, contextInputs, outputs, [], capabilities, payload, creationSlot),
              allotted, blockIssuerAccountID)
    }

    /** The mana cost of a block with the dummy transaction, built with empty signatures. The allotments
        are as before afterwards; the context inputs stay sorted. */
    method MinRequiredAllottedMana(rmc: Mana, blockIssuerAccountID: AccountID)
        returns (cost: Option<Mana>, ghost dummy: Option<SignedTransaction>)
      requires Valid()
      modifies `allotments, `contextInputs
      ensures allotments == old(allotments)
      ensures contextInputs == if CanBuild() then SortedInputs(old(contextInputs)) else old(contextInputs)
      ensures dummy.Some? <==> old(Buildable(false, DummyTransaction(allotments, blockIssuerAccountID)))
      ensures dummy.Some? ==> IsBuilt(false, old(DummyTransaction(allotments, blockIssuerAccountID)), dummy.value)
      ensures cost == if dummy.Some? then api.manaCost(rmc, dummy.value) else None
    {
      hide Sorted, SortedInputs, Increase, Distinct, AllotmentMap, Increased, AllUnlockable, Built, SignFunctionOf, SpentOf;
      var allotmentsCpy := allotments;
      IncreaseAllotment(blockIssuerAccountID, 1074);
      var tx := Build(false);
      dummy := tx;
      if tx.None? {
        cost := None;
      } else {
        cost := api.manaCost(rmc, tx.value);
      }
      allotments := allotmentsCpy;
    }

    /** Allots the block's mana cost to the block issuer, less what it already gets of its own bound mana;
        stores the rest in the output and allots other bound mana to its accounts. Also returns the cost,
        and the dummy transaction it is the cost of, with the allotments at that point. */
    method AllotMinRequiredManaAndStoreRemainingManaInOutput(targetSlot: uint32, rmc: Mana,
        blockIssuerAccountID: AccountID, storedManaOutputIndex: nat)
        returns (cost: Option<Mana>, ghost allotted: seq<Allotment>, ghost dummy: Option<SignedTransaction>)
      requires Valid()
      modifies `outputs, `allotments, `contextInputs, `occurredBuildErr
      ensures Valid()
      ensures occurredBuildErr ==> outputs == old(outputs)
      ensures cost == if dummy.Some? then api.manaCost(rmc, dummy.value) else None
      ensures dummy.Some? <==>
        && old(Stores(storedManaOutputIndex)) && old(RemainingMana(targetSlot)).Some?
        && old(Buildable(false, DummyTransaction(allotted, blockIssuerAccountID)))
      ensures dummy.Some? ==> IsBuilt(false, old(DummyTransaction(allotted, blockIssuerAccountID)), dummy.value)
      ensures old(Stores(storedManaOutputIndex)) ==>
        && Distinct(allotted)
        && AllotmentMap(allotted)
           == BoundAllotments(old(AvailableMana(targetSlot)), old(Debits()), old(Allotted()), storedManaOutputIndex)
      ensures !occurredBuildErr <==>
        && cost.Some? && old(Stores(storedManaOutputIndex))
        && MinFits(old(AvailableMana(targetSlot)), old(Debits()), old(Allotted()), storedManaOutputIndex,
                   blockIssuerAccountID, cost.value)
      ensures !occurredBuildErr ==>
        && Allotted() == MinAllotments(old(AvailableMana(targetSlot)), old(Debits()), old(Allotted()),
                                       storedManaOutputIndex, blockIssuerAccountID, cost.value)
        && PaysIssuer(old(Allotted()), Allotted(), blockIssuerAccountID, cost.value)
      ensures !occurredBuildErr ==>
        StoresRest(old(outputs), outputs, storedManaOutputIndex, AccountAt(old(Debits()), storedManaOutputIndex),
                   LeftBy(old(AvailableMana(targetSlot)), old(Debits()), Allotted()))
      ensures !occurredBuildErr ==>
        LeavesLittle(old(AvailableMana(targetSlot)), old(Debits()), old(Allotted()), storedManaOutputIndex,
                     blockIssuerAccountID, cost.value, RemainingMana(targetSlot))
      ensures !occurredBuildErr ==> NoLarger(CurrentTransaction(), dummy.value.transaction)
    {
      hide *;
      cost, allotted, dummy := None, [], None;
      var accountID := GetStoredManaOutputAccountID(storedManaOutputIndex);
      if accountID.None? {
        SetBuildError();
        return;
      }
      RemainingManaIs(targetSlot);
      DebitsAre();
      StoreParts(storedManaOutputIndex);
      ghost var available, was, debits, before := AvailableMana(targetSlot), RemainingMana(targetSlot), Debits(), Allotted();
      ghost var inputsWere, outputsWere := contextInputs, outputs;
      BoundAllotmentsAre(available, debits, before, storedManaOutputIndex);
      var calls := AllotRemainingAccountBoundMana(targetSlot, [accountID.value]);
      var allottedManaBlockIssuer := if blockIssuerAccountID in calls then calls[blockIssuerAccountID] else 0;
      allotted := allotments;
      assert AvailableMana(targetSlot) == available && Debits() == debits;
      AllottedIs();
      DummyMatchesHere(allotted, blockIssuerAccountID);
      ghost var dummyTx := DummyTransaction(allotted, blockIssuerAccountID);
      BuildableOnlyWithoutError(dummyTx);
      cost, dummy := MinRequiredAllottedMana(rmc, blockIssuerAccountID);
      assert AvailableMana(targetSlot) == available && Debits() == debits;
      if cost.None? {
        SetBuildError();
        return;
      }
      var minRequiredMana := cost.value;
      if allottedManaBlockIssuer > 0 {
        if minRequiredMana < allottedManaBlockIssuer {
          minRequiredMana := 0;
        } else {
          minRequiredMana := minRequiredMana - allottedManaBlockIssuer;
        }
      }
      OwnManaIs(was.value, accountID.value, blockIssuerAccountID);
      MinRequiredIs(before, was.value, accountID.value, blockIssuerAccountID, cost.value, minRequiredMana);
      MinAllotmentsAre(available, debits, before, storedManaOutputIndex, blockIssuerAccountID, cost.value);
      var ok := AllotAndStoreRest(targetSlot, blockIssuerAccountID, minRequiredMana, storedManaOutputIndex, accountID.value);
      assert AvailableMana(targetSlot) == available;
      if !ok {
        SetBuildError();
        return;
      }
      RemainingManaIs(targetSlot);
      FinallyNoLarger(dummyTx, allotted, blockIssuerAccountID, inputsWere, outputsWere, minRequiredMana,
                      storedManaOutputIndex, accountID.value, LeftBy(available, debits, Allotted()));
      AvailableManaFits(targetSlot);
      MinMeans(available, debits, before, storedManaOutputIndex, blockIssuerAccountID, cost.value);
    }

    /** The last steps: the issuer's allotment, then storing what remains. */
    method AllotAndStoreRest(targetSlot: uint32, issuer: AccountID, value: Mana, index: nat, accountID: AccountID)
        returns (ok: bool)
      requires Valid() && Stores(index)
      modifies `outputs, `allotments
      ensures Valid()
      ensures allotments == Increase(old(allotments), issuer, value)
      ensures Allotted() == Increased(old(Allotted()), issuer, value)
      ensures var rest := LeftBy(old(AvailableMana(targetSlot)), old(Debits()), Allotted());
              && (ok <==> rest.Some?)
              && (ok ==> StoresRest(old(outputs), outputs, index, accountID, rest))
              && (ok ==> Debits() == old(Debits())[index := Credited(old(Debits())[index], ToStore(rest.value, accountID))])
      ensures !ok ==> outputs == old(outputs)
    {
      hide *;
      StoreParts(index);
      DebitsAre();
      IncreaseByNothing(allotments, issuer);
      AllottedIs();
      if value > 0 {
        IncreaseAllotment(issuer, value);
      }
      RemainingManaIs(targetSlot);
      ghost var rest := RemainingMana(targetSlot);
      ok := StoreRemainingManaInOutput(targetSlot, index, accountID);
      if ok {
        DebitsAre();
        StoredDebits(creationSlot, api.maxCommittableAge, old(outputs), index, ToStore(rest.value, accountID));
        StoresRestIs(old(outputs), outputs, index, accountID, rest);
      }
    }

    lemma BuildableOnlyWithoutError(tx: Transaction)
      requires Valid()
      ensures InputsKnown() && (Buildable(false, tx) ==> CanBuild() && !occurredBuildErr)
      ensures forall signed :: IsBuilt(false, tx, signed) ==> signed.transaction == tx
    {
    }

    /** `dummyTx` is the dummy transaction for these context inputs, outputs and allotments. */
    ghost predicate DummyMatches(dummyTx: Transaction, allotted: seq<Allotment>, issuer: AccountID,
        contextInputs: seq<ContextInput>, outputs: seq<Output>)
      reads `txInputs, `capabilities, `payload, `creationSlot
    {
      dummyTx == DummyOf(Transaction(txInputs, contextInputs, outputs, [], capabilities, payload, creationSlot),
                         allotted, issuer)
    }

    lemma DummyMatchesHere(allotted: seq<Allotment>, issuer: AccountID)
      ensures DummyMatches(DummyTransaction(allotted, issuer), allotted, issuer, contextInputs, outputs)
    {
    }

    lemma FinallyNoLarger(dummyTx: Transaction, allotted: seq<Allotment>, issuer: AccountID,
        inputsWere: seq<ContextInput>, outputsWere: seq<Output>, value: Mana, index: nat, account: AccountID,
        rest: Option<Balances>)
      requires DummyMatches(dummyTx, allotted, issuer, inputsWere, outputsWere)
      requires contextInputs == SortedInputs(inputsWere) && allotments == Increase(allotted, issuer, value)
      requires StoresRest(outputsWere, outputs, index, account, rest)
      ensures NoLarger(CurrentTransaction(), dummyTx)
    {
      hide NoLarger, StoresRest, Sorted, SortedInputs, Increase;
      NoLargerThanDummy(Transaction(txInputs, inputsWere, outputsWere, [], capabilities, payload, creationSlot),
                        CurrentTransaction(), dummyTx, allotted, issuer, value, index, account, rest);
    }

    lemma AllottedIs()
      requires Valid()
      ensures Distinct(allotments) && Allotted() == AllotmentMap(allotments)
    {
    }

    lemma RemainingManaIs(targetSlot: uint32)
      ensures RemainingMana(targetSlot).Some? ==> Computes(targetSlot)
      ensures Computes(targetSlot) ==>
        RemainingMana(targetSlot) == Remaining(Available(targetSlot), WithAllotments(ChargesOf(Debits()), Allotted()))
      ensures RemainingMana(targetSlot) == LeftBy(AvailableMana(targetSlot), Debits(), Allotted())
    {
    }

    lemma DebitsAre()
      ensures Debits() == OutputDebits(creationSlot, api.maxCommittableAge, outputs)
      ensures |Debits()| == |outputs|
    {
    }

    lemma StoreParts(index: nat)
      requires Stores(index)
      ensures index < |outputs| && outputs[index].StoresMana()
      ensures StoredAccount(index) == AccountOf(Debits()[index]) == AccountAt(Debits(), index)
      ensures Debits()[index].amount == outputs[index].StoredMana()
    {
    }

    lemma AvailableFitsHere(targetSlot: uint32)
      requires Computes(targetSlot)
      ensures Available(targetSlot).unbound < TWO_TO_THE_64
      ensures forall a :: a in Available(targetSlot).bound ==> Available(targetSlot).bound[a] < TWO_TO_THE_64
    {
      AvailableFits(api.rules, targetSlot, inputs, rewards);
    }

    lemma AvailableManaFits(targetSlot: uint32)
      ensures AvailableMana(targetSlot).Some? ==>
        forall a :: a in AvailableMana(targetSlot).value.bound ==> AvailableMana(targetSlot).value.bound[a] < TWO_TO_THE_64
    {
      if Computes(targetSlot) {
        AvailableFits(api.rules, targetSlot, inputs, rewards);
      }
    }

    /** The output can store mana. */
    ghost predicate Stores(index: nat)
      reads `outputs
    {
      index < |outputs| && outputs[index].StoresMana()
    }

    /** The account whose mana the output holds, the empty one if its mana is not locked. */
    ghost function StoredAccount(index: nat): AccountID
      requires Stores(index)
      reads `outputs, `creationSlot
    {
      AccountOf(Debits()[index])
    }
  }

  lemma AvailableFits(rules: ManaRules, targetSlot: uint32, inputs: map<OutputID, Output>, rewards: Mana)
    requires InputsFit(rules, targetSlot, inputs, rewards)
    ensures var available := AvailableOf(rules, targetSlot, inputs, rewards);
            && available.unbound < TWO_TO_THE_64
            && forall a :: a in available.bound ==> available.bound[a] < TWO_TO_THE_64
  {
    var available := AvailableOf(rules, targetSlot, inputs, rewards);
    var all := ManaOfAll(rules, targetSlot, inputs);
    SumsExist(all);
    forall a | a in available.bound
      ensures available.bound[a] < TWO_TO_THE_64
    {
      AmountAtMostTotal(available.bound, a);
    }
  }

  /** The output at `index` stores what remains of unbound mana and of its account's; the others stay. */
  ghost predicate StoresRest(outputs: seq<Output>, after: seq<Output>, index: nat, account: AccountID,
      rest: Option<Balances>)
  {
    && index < |outputs| && rest.Some?
    && after == outputs[index := WithMoreMana(outputs[index], ToStore(rest.value, account))]
  }

  lemma IncreaseByNothing(allotments: seq<Allotment>, a: AccountID)
    ensures Increase(allotments, a, 0) == allotments
    ensures Increased(AllotmentMap(allotments), a, 0) == AllotmentMap(allotments)
  {
  }

  lemma StoresRestIs(outputs: seq<Output>, after: seq<Output>, index: nat, account: AccountID, rest: Option<Balances>)
    requires index < |outputs| && rest.Some?
    requires after == outputs[index := WithMoreMana(outputs[index], ToStore(rest.value, account))]
    ensures StoresRest(outputs, after, index, account, rest)
  {
  }

  /** The output with `value` more stored mana, with the machine's wrap-around, if it can store mana. */
  function WithMoreMana(output: Output, value: nat): Output {
    if output.StoresMana() then output.(mana := Wrapped(output.mana + value)) else output
  }

  /** The balance that is stored, with the machine's wrap-around. */
  function StoredBalance(unbound: Mana, bound: map<AccountID, Mana>, account: AccountID): Mana {
    if account != EMPTY_ACCOUNT_ID && account in bound then Add64(unbound, bound[account]) else unbound
  }

  lemma AddedMana(output: Output, was: Balances, unbound: Mana, bound: map<AccountID, Mana>, account: AccountID)
    requires was.unbound == unbound && was.bound == bound
    ensures WithMoreMana(output, StoredBalance(unbound, bound, account)) == WithMoreMana(output, ToStore(was, account))
  {
    if account != EMPTY_ACCOUNT_ID && account in bound && output.StoresMana() {
      WrappedTwice(output.mana, unbound + bound[account]);
    }
  }

  lemma WrappedTwice(x: nat, y: nat)
    ensures Wrapped(x + Wrapped(y)) == Wrapped(x + y)
  {
  }

  lemma StoredDebits(creationSlot: uint32, maxCommittableAge: uint32, outputs: seq<Output>, index: nat, value: nat)
    requires index < |outputs| && outputs[index].StoresMana()
    ensures var debits := OutputDebits(creationSlot, maxCommittableAge, outputs);
            OutputDebits(creationSlot, maxCommittableAge, outputs[index := WithMoreMana(outputs[index], value)])
            == debits[index := Credited(debits[index], value)]
  {
  }
}
