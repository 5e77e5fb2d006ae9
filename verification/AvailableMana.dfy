/** The mana available on the input side of a transaction (builder/transaction_builder.go). */
module AvailableMana {
  import opened Common
  import opened Words
  import opened Outputs
  import opened Totals
  import opened ManaLedger

  /** The protocol's mana rules: potential mana of an input and decayed stored mana, at a target slot;
      None is an error. */
  datatype ManaRules = ManaRules(
    potential: (OutputID, Output, uint32) -> Option<Mana>,
    decayed: (OutputID, Mana, uint32) -> Option<Mana>)

  /** The mana of one input, and the account it is bound to. */
  datatype InputMana = InputMana(potential: Mana, stored: Mana, account: Option<AccountID>)
  {
    function Total(): nat {
      potential + stored
    }
  }

  function AccountOfInput(input: Output): Option<AccountID> {
    if input.AccountOutput? then Some(input.accountID) else None
  }

  function ManaOf(rules: ManaRules, targetSlot: uint32, id: OutputID, input: Output): Option<InputMana> {
    var potential := rules.potential(id, input, targetSlot);
    var stored := rules.decayed(id, input.StoredMana(), targetSlot);
    if potential.None? || stored.None? then None
    else Some(InputMana(potential.value, stored.value, AccountOfInput(input)))
  }

  /** The mana of every input can be computed. */
  ghost predicate Computable(rules: ManaRules, targetSlot: uint32, inputs: map<OutputID, Output>) {
    forall id :: id in inputs ==> ManaOf(rules, targetSlot, id, inputs[id]).Some?
  }

  ghost function ManaOfAll(rules: ManaRules, targetSlot: uint32, inputs: map<OutputID, Output>): map<OutputID,
      InputMana>
    requires Computable(rules, targetSlot, inputs)
  {
    map id | id in inputs :: ManaOf(rules, targetSlot, id, inputs[id]).value
  }

  // ---------- Sums over inputs ----------

  /** The parts of an input's mana that are summed up. */
  datatype Share = Potential | Stored | UnboundPotential | UnboundStored | BoundTo(account: AccountID)

  function UnboundPart(account: Option<AccountID>, amount: nat): nat {
    if account.None? then amount else 0
  }

  function ShareOf(share: Share, m: InputMana): nat {
    match share
    case Potential => m.potential
    case Stored => m.stored
    case UnboundPotential => UnboundPart(m.account, m.potential)
    case UnboundStored => UnboundPart(m.account, m.stored)
    case BoundTo(a) => if m.account == Some(a) then m.Total() else 0
  }

  function Shares(inputs: map<OutputID, InputMana>, share: Share): map<OutputID, nat> {
    map id | id in inputs :: ShareOf(share, inputs[id])
  }

  ghost function SumOf(inputs: map<OutputID, InputMana>, share: Share): nat {
    MapTotal(Shares(inputs, share))
  }

  ghost function TotalOf(inputs: map<OutputID, InputMana>): nat {
    SumOf(inputs, Potential) + SumOf(inputs, Stored)
  }

  ghost function UnboundOf(inputs: map<OutputID, InputMana>): nat {
    SumOf(inputs, UnboundPotential) + SumOf(inputs, UnboundStored)
  }

  ghost predicate HoldsAccount(inputs: map<OutputID, InputMana>, a: AccountID) {
    exists id :: id in inputs && inputs[id].account == Some(a)
  }

  ghost predicate BoundAt(bound: map<AccountID, nat>, inputs: map<OutputID, InputMana>, a: AccountID) {
    && (a in bound <==> HoldsAccount(inputs, a))
    && Amount(bound, a) == SumOf(inputs, BoundTo(a))
  }

  /** Every account with an account output among the inputs, with the mana bound to it. */
  ghost predicate BoundMapOf(bound: map<AccountID, nat>, inputs: map<OutputID, InputMana>) {
    forall a :: BoundAt(bound, inputs, a)
  }

  lemma SumOfAdd(inputs: map<OutputID, InputMana>, id: OutputID, m: InputMana, share: Share)
    requires id !in inputs
    ensures SumOf(inputs[id := m], share) == SumOf(inputs, share) + ShareOf(share, m)
  {
    assert Shares(inputs[id := m], share) == Shares(inputs, share)[id := ShareOf(share, m)];
    MapTotalUpdate(Shares(inputs, share), id, ShareOf(share, m));
  }

  lemma SumOfPart(part: map<OutputID, InputMana>, inputs: map<OutputID, InputMana>, share: Share)
    requires forall id :: id in part ==> id in inputs && inputs[id] == part[id]
    ensures SumOf(part, share) <= SumOf(inputs, share)
  {
    MapTotalMonotone(Shares(part, share), Shares(inputs, share));
  }

  /** An input adds to the bound mana of its account, if it is an account output. */
  function WithInput(bound: map<AccountID, nat>, account: Option<AccountID>, amount: nat): map<AccountID, nat> {
    match account
    case Some(a) => bound[a := Amount(bound, a) + amount]
    case None => bound
  }

  lemma HoldsAccountAdd(inputs: map<OutputID, InputMana>, id: OutputID, m: InputMana, a: AccountID)
    requires id !in inputs
    ensures HoldsAccount(inputs[id := m], a) <==> HoldsAccount(inputs, a) || m.account == Some(a)
  {
    var more := inputs[id := m];
    assert more[id] == m;
    assert forall i :: i in inputs ==> more[i] == inputs[i];
  }

  lemma BoundMapAdd(bound: map<AccountID, nat>, inputs: map<OutputID, InputMana>, id: OutputID, m: InputMana)
    requires id !in inputs && BoundMapOf(bound, inputs)
    ensures BoundMapOf(WithInput(bound, m.account, m.Total()), inputs[id := m])
  {
    hide HoldsAccount, SumOf;
    var withInput, more := WithInput(bound, m.account, m.Total()), inputs[id := m];
    forall a
      ensures BoundAt(withInput, more, a)
    {
      assert BoundAt(bound, inputs, a);
      HoldsAccountAdd(inputs, id, m, a);
      SumOfAdd(inputs, id, m, BoundTo(a));
    }
  }

  ghost predicate AreSums(potential: nat, stored: nat, unboundPotential: nat, unboundStored: nat,
      bound: map<AccountID, nat>, inputs: map<OutputID, InputMana>)
  {
    && potential == SumOf(inputs, Potential)
    && stored == SumOf(inputs, Stored)
    && unboundPotential == SumOf(inputs, UnboundPotential)
    && unboundStored == SumOf(inputs, UnboundStored)
    && BoundMapOf(bound, inputs)
    && unboundPotential + unboundStored + MapTotal(bound) == potential + stored
  }

  // ---------- The accumulated result ----------

  class AvailableManaResult {
    var totalMana: Mana
    var unboundMana: Mana
    var potentialMana: Mana
    var storedMana: Mana
    var unboundPotentialMana: Mana
    var unboundStoredMana: Mana
    var accountBoundMana: map<AccountID, Mana>
    var rewards: Mana

    ghost function Available(): Balances
      reads this
    {
      Balances(unboundMana, accountBoundMana)
    }

    /** Every field has the sum it stands for, for the inputs added so far. */
    ghost predicate Sums(inputs: map<OutputID, InputMana>)
      reads `totalMana, `unboundMana, `potentialMana, `storedMana
      reads `unboundPotentialMana, `unboundStoredMana, `accountBoundMana
    {
      && totalMana == potentialMana + storedMana
      && unboundMana == unboundPotentialMana + unboundStoredMana
      && AreSums(potentialMana, storedMana, unboundPotentialMana, unboundStoredMana, accountBoundMana, inputs)
    }

    constructor ()
      ensures Sums(map[]) && rewards == 0
    {
      totalMana, unboundMana, potentialMana, storedMana := 0, 0, 0, 0;
      unboundPotentialMana, unboundStoredMana, rewards := 0, 0, 0;
      accountBoundMana := map[];
    }

    method AddTotalMana(value: Mana) returns (ok: bool)
      modifies `totalMana
      ensures ok <==> old(totalMana) + value < TWO_TO_THE_64
      ensures totalMana == if ok then old(totalMana) + value else old(totalMana)
    {
      var sum := SafeAdd64(totalMana, value);
      if sum.None? {
        return false;
      }
      totalMana := sum.value;
      return true;
    }

    method AddUnboundMana(value: Mana) returns (ok: bool)
      modifies `unboundMana
      ensures ok <==> old(unboundMana) + value < TWO_TO_THE_64
      ensures unboundMana == if ok then old(unboundMana) + value else old(unboundMana)
    {
      var sum := SafeAdd64(unboundMana, value);
      if sum.None? {
        return false;
      }
      unboundMana := sum.value;
      return true;
    }

    method AddPotentialMana(value: Mana) returns (ok: bool)
      modifies `potentialMana, `totalMana
      ensures ok <==> old(potentialMana) + value < TWO_TO_THE_64 && old(totalMana) + value < TWO_TO_THE_64
      ensures ok ==> potentialMana == old(potentialMana) + value && totalMana == old(totalMana) + value
    {
      var sum := SafeAdd64(potentialMana, value);
      if sum.None? {
        return false;
      }
      potentialMana := sum.value;
      ok := AddTotalMana(value);
    }

    method AddStoredMana(value: Mana) returns (ok: bool)
      modifies `storedMana, `totalMana
      ensures ok <==> old(storedMana) + value < TWO_TO_THE_64 && old(totalMana) + value < TWO_TO_THE_64
      ensures ok ==> storedMana == old(storedMana) + value && totalMana == old(totalMana) + value
    {
      var sum := SafeAdd64(storedMana, value);
      if sum.None? {
        return false;
      }
      storedMana := sum.value;
      ok := AddTotalMana(value);
    }

    method AddUnboundPotentialMana(value: Mana) returns (ok: bool)
      modifies `unboundPotentialMana, `unboundMana
      ensures ok <==> old(unboundPotentialMana) + value < TWO_TO_THE_64 && old(unboundMana) + value < TWO_TO_THE_64
      ensures ok ==> unboundPotentialMana == old(unboundPotentialMana) + value && unboundMana == old(unboundMana) + value
    {
      var sum := SafeAdd64(unboundPotentialMana, value);
      if sum.None? {
        return false;
      }
      unboundPotentialMana := sum.value;
      ok := AddUnboundMana(value);
    }

    method AddUnboundStoredMana(value: Mana) returns (ok: bool)
      modifies `unboundStoredMana, `unboundMana
      ensures ok <==> old(unboundStoredMana) + value < TWO_TO_THE_64 && old(unboundMana) + value < TWO_TO_THE_64
      ensures ok ==> unboundStoredMana == old(unboundStoredMana) + value && unboundMana == old(unboundMana) + value
    {
      var sum := SafeAdd64(unboundStoredMana, value);
      if sum.None? {
        return false;
      }
      unboundStoredMana := sum.value;
      ok := AddUnboundMana(value);
    }

    method AddRewards(value: Mana) returns (ok: bool)
      modifies `rewards, `unboundMana
      ensures ok <==> old(rewards) + value < TWO_TO_THE_64 && old(unboundMana) + value < TWO_TO_THE_64
      ensures ok ==> rewards == old(rewards) + value && unboundMana == old(unboundMana) + value
    {
      var sum := SafeAdd64(rewards, value);
      if sum.None? {
        return false;
      }
      rewards := sum.value;
      ok := AddUnboundMana(value);
    }

    method AddAccountBoundMana(accountID: AccountID, value: Mana) returns (ok: bool)
      modifies `accountBoundMana
      ensures ok <==> Amount(old(accountBoundMana), accountID) + value < TWO_TO_THE_64
      ensures ok ==> accountBoundMana == old(accountBoundMana)[accountID := Amount(old(accountBoundMana), accountID) + value]
    {
      var sum := SafeAdd64(Amount(accountBoundMana, accountID), value);
      if sum.None? {
        return false;
      }
      accountBoundMana := accountBoundMana[accountID := sum.value];
      return true;
    }

    method AddToTotals(potential: Mana, stored: Mana) returns (ok: bool)
      requires potentialMana + storedMana == totalMana
      modifies `potentialMana, `storedMana, `totalMana
      ensures ok <==> old(totalMana) + potential + stored < TWO_TO_THE_64
      ensures ok ==> potentialMana == old(potentialMana) + potential && storedMana == old(storedMana) + stored
      ensures ok ==> totalMana == old(totalMana) + potential + stored
    {
      ok := AddPotentialMana(potential);
      if ok {
        ok := AddStoredMana(stored);
      }
    }

    /** Mana of an account output is bound to the account, other mana is unbound. */
    method AddToBalances(potential: Mana, stored: Mana, account: Option<AccountID>) returns (ok: bool)
      requires unboundPotentialMana + unboundStoredMana == unboundMana
      modifies `accountBoundMana, `unboundPotentialMana, `unboundStoredMana, `unboundMana
      ensures ok <==>
        if account.Some? then
          Amount(old(accountBoundMana), account.value) + potential + stored < TWO_TO_THE_64
        else
          old(unboundMana) + potential + stored < TWO_TO_THE_64
      ensures ok ==> accountBoundMana == WithInput(old(accountBoundMana), account, potential + stored)
      ensures ok ==> unboundPotentialMana == old(unboundPotentialMana) + UnboundPart(account, potential)
      ensures ok ==> unboundStoredMana == old(unboundStoredMana) + UnboundPart(account, stored)
      ensures ok ==> unboundMana == old(unboundMana) + UnboundPart(account, potential) + UnboundPart(account, stored)
    {
      if account.Some? {
        var inputTotalMana := SafeAdd64(potential, stored);
        if inputTotalMana.None? {
          return false;
        }
        ok := AddAccountBoundMana(account.value, inputTotalMana.value);
      } else {
        ok := AddUnboundPotentialMana(potential);
        if !ok {
          return;
        }
        ok := AddUnboundStoredMana(stored);
      }
    }

    /** One round of the loop over the inputs, after the input's mana is computed. It fails exactly if
        the total of all mana does not fit 64 bits. */
    method AddInput(ghost inputs: map<OutputID, InputMana>, ghost id: OutputID, potential: Mana, stored: Mana,
        account: Option<AccountID>) returns (ok: bool)
      requires Sums(inputs) && id !in inputs
      modifies `totalMana, `unboundMana, `potentialMana, `storedMana
      modifies `unboundPotentialMana, `unboundStoredMana, `accountBoundMana
      ensures ok <==> TotalOf(Added(inputs, id, potential, stored, account)) < TWO_TO_THE_64
      ensures ok ==> Sums(Added(inputs, id, potential, stored, account))
    {
      hide AreSums, WithInput, UnboundPart, TotalOf, Added;
      OneMoreInput(potentialMana, storedMana, unboundPotentialMana, unboundStoredMana, accountBoundMana, inputs,
                   id, potential, stored, account);
      ok := AddToTotals(potential, stored);
      if !ok {
        return;
      }
      assert unboundPotentialMana == old(unboundPotentialMana) && unboundStoredMana == old(unboundStoredMana);
      assert unboundMana == old(unboundMana) && accountBoundMana == old(accountBoundMana);
      ok := AddToBalances(potential, stored, account);
    }

    /** Takes stored or allotted mana from the account's bound mana, and what that does not cover from the
        unbound mana. */
    method SubtractBound(accountID: AccountID, amount: Mana) returns (ok: bool)
      modifies `accountBoundMana, `unboundMana
      ensures ok <==> Excess(amount, Amount(old(accountBoundMana), accountID)) <= old(unboundMana)
      ensures ok ==> unboundMana == old(unboundMana) - Excess(amount, Amount(old(accountBoundMana), accountID))
      ensures ok ==> accountBoundMana == TakenFrom(old(accountBoundMana), accountID, amount)
    {
      if amount == 0 {
        return true;
      }
      if accountID in accountBoundMana {
        var accountBalance := accountBoundMana[accountID];
        if accountBalance < amount {
          accountBoundMana := accountBoundMana[accountID := 0];
          ok := SubtractUnbound(amount - accountBalance);
          return;
        }
        accountBoundMana := accountBoundMana[accountID := accountBalance - amount];
        return true;
      }
      ok := SubtractUnbound(amount);
    }

    method SubtractUnbound(amount: Mana) returns (ok: bool)
      modifies `unboundMana
      ensures ok <==> amount <= old(unboundMana)
      ensures ok ==> unboundMana == old(unboundMana) - amount
    {
      var rest := SafeSub64(unboundMana, amount);
      if rest.None? {
        return false;
      }
      unboundMana := rest.value;
      return true;
    }
  }

  function Added(inputs: map<OutputID, InputMana>, id: OutputID, potential: Mana, stored: Mana,
      account: Option<AccountID>): map<OutputID, InputMana>
  {
    inputs[id := InputMana(potential, stored, account)]
  }

  /** Adding an input keeps the sums; no part of the mana exceeds the total. */
  lemma OneMoreInput(potentialSum: nat, storedSum: nat, unboundPotential: nat, unboundStored: nat,
      bound: map<AccountID, nat>, inputs: map<OutputID, InputMana>, id: OutputID, potential: Mana, stored: Mana,
      account: Option<AccountID>)
    requires id !in inputs && AreSums(potentialSum, storedSum, unboundPotential, unboundStored, bound, inputs)
    ensures AreSums(potentialSum + potential, storedSum + stored,
                    unboundPotential + UnboundPart(account, potential), unboundStored + UnboundPart(account, stored),
                    WithInput(bound, account, potential + stored), Added(inputs, id, potential, stored, account))
    ensures TotalOf(Added(inputs, id, potential, stored, account)) == potentialSum + storedSum + potential + stored
    ensures unboundPotential + unboundStored <= potentialSum + storedSum
    ensures account.Some? ==> Amount(bound, account.value) <= potentialSum + storedSum
  {
    hide SumOf, BoundMapOf;
    var m := InputMana(potential, stored, account);
    SumOfAdd(inputs, id, m, Potential);
    SumOfAdd(inputs, id, m, Stored);
    SumOfAdd(inputs, id, m, UnboundPotential);
    SumOfAdd(inputs, id, m, UnboundStored);
    BoundMapAdd(bound, inputs, id, m);
    if account.Some? {
      MapTotalUpdate(bound, account.value, Amount(bound, account.value) + m.Total());
      AmountAtMostTotal(bound, account.value);
    }
  }

  // ---------- The available mana of all inputs ----------

  ghost function BoundMap(inputs: map<OutputID, InputMana>): map<AccountID, nat> {
    map a | a in (set id | id in inputs && inputs[id].account.Some? :: inputs[id].account.value) :: SumOf(inputs, BoundTo(a))
  }

  lemma BoundMapIs(bound: map<AccountID, nat>, inputs: map<OutputID, InputMana>)
    requires BoundMapOf(bound, inputs)
    ensures bound == BoundMap(inputs)
  {
    var all := BoundMap(inputs);
    forall a
      ensures a in bound <==> a in all
      ensures a in all ==> bound[a] == all[a]
    {
      assert BoundAt(bound, inputs, a);
    }
  }

  ghost predicate SumsSplit(inputs: map<OutputID, InputMana>) {
    AreSums(SumOf(inputs, Potential), SumOf(inputs, Stored), SumOf(inputs, UnboundPotential), SumOf(inputs, UnboundStored),
            BoundMap(inputs), inputs)
  }

  lemma SumsAreThese(potential: nat, stored: nat, unboundPotential: nat, unboundStored: nat,
      bound: map<AccountID, nat>, inputs: map<OutputID, InputMana>)
    requires AreSums(potential, stored, unboundPotential, unboundStored, bound, inputs)
    ensures SumsSplit(inputs)
  {
    hide SumOf;
    BoundMapIs(bound, inputs);
    hide BoundMapOf, BoundMap;
  }

  lemma SumsStep(rest: map<OutputID, InputMana>, id: OutputID, potential: Mana, stored: Mana,
      account: Option<AccountID>)
    requires SumsSplit(rest) && id !in rest
    ensures SumsSplit(Added(rest, id, potential, stored, account))
  {
    hide SumOf, AreSums, BoundMap, Added, WithInput, UnboundPart;
    OneMoreInput(SumOf(rest, Potential), SumOf(rest, Stored), SumOf(rest, UnboundPotential), SumOf(rest, UnboundStored),
                 BoundMap(rest), rest, id, potential, stored, account);
    hide SumsSplit;
    SumsAreThese(SumOf(rest, Potential) + potential, SumOf(rest, Stored) + stored,
                 SumOf(rest, UnboundPotential) + UnboundPart(account, potential),
                 SumOf(rest, UnboundStored) + UnboundPart(account, stored),
                 WithInput(BoundMap(rest), account, potential + stored), Added(rest, id, potential, stored, account));
  }

  lemma AddedBack(inputs: map<OutputID, InputMana>, id: OutputID)
    requires id in inputs
    ensures inputs == Added(inputs - {id}, id, inputs[id].potential, inputs[id].stored, inputs[id].account)
  {
  }

  /** The sums of all inputs split into unbound and bound mana without loss. */
  lemma {:induction false} SumsExist(inputs: map<OutputID, InputMana>)
    ensures SumsSplit(inputs)
    decreases |inputs|
  {
    hide SumsSplit, Added;
    if inputs == map[] {
      NoSumsSplit();
    } else {
      var id :| id in inputs;
      SumsExist(inputs - {id});
      SumsStep(inputs - {id}, id, inputs[id].potential, inputs[id].stored, inputs[id].account);
      AddedBack(inputs, id);
    }
  }

  lemma NoSumsSplit()
    ensures SumsSplit(map[])
  {
    hide SumsSplit, AreSums;
    NoSums();
    SumsAreThese(0, 0, 0, 0, map[], map[]);
  }

  lemma NoSums()
    ensures AreSums(0, 0, 0, 0, map[], map[])
  {
    forall a
      ensures BoundAt(map[], map[], a)
    {
      assert Shares(map[], BoundTo(a)) == map[];
    }
  }

  /** Unbound mana includes the rewards. */
  ghost predicate InputsFit(rules: ManaRules, targetSlot: uint32, inputs: map<OutputID, Output>, rewards: Mana) {
    && Computable(rules, targetSlot, inputs)
    && TotalOf(ManaOfAll(rules, targetSlot, inputs)) < TWO_TO_THE_64
    && UnboundOf(ManaOfAll(rules, targetSlot, inputs)) + rewards < TWO_TO_THE_64
  }

  ghost function AvailableOf(rules: ManaRules, targetSlot: uint32, inputs: map<OutputID, Output>,
      rewards: Mana): Balances
    requires Computable(rules, targetSlot, inputs)
  {
    var all := ManaOfAll(rules, targetSlot, inputs);
    Balances(UnboundOf(all) + rewards, BoundMap(all))
  }

  /** The unbound and all bound mana together are the total mana and the rewards. */
  lemma AvailableIsTotal(rules: ManaRules, targetSlot: uint32, inputs: map<OutputID, Output>, rewards: Mana)
    requires Computable(rules, targetSlot, inputs)
    ensures AvailableOf(rules, targetSlot, inputs, rewards).Total()
         == TotalOf(ManaOfAll(rules, targetSlot, inputs)) + rewards
  {
    SumsExist(ManaOfAll(rules, targetSlot, inputs));
  }

  // ---------- What the figures mean for the outputs ----------

  /** Potential and decayed stored mana of an input; foundries and delegations store none. */
  ghost function InputTotal(rules: ManaRules, targetSlot: uint32, id: OutputID, input: Output): nat {
    var stored := rules.decayed(id, if input.FoundryOutput? || input.DelegationOutput? then 0 else input.mana, targetSlot);
    var potential := rules.potential(id, input, targetSlot);
    (if potential.Some? then potential.value else 0) + (if stored.Some? then stored.value else 0)
  }

  /** The mana of the account outputs of one account. */
  ghost function ManaOfAccount(rules: ManaRules, targetSlot: uint32, inputs: map<OutputID, Output>, a: AccountID): nat {
    MapTotal(map id | id in inputs && inputs[id].AccountOutput? && inputs[id].accountID == a ::
               InputTotal(rules, targetSlot, id, inputs[id]))
  }

  /** The mana of all inputs that are not account outputs. */
  ghost function ManaOfNoAccount(rules: ManaRules, targetSlot: uint32, inputs: map<OutputID, Output>): nat {
    MapTotal(map id | id in inputs && !inputs[id].AccountOutput? :: InputTotal(rules, targetSlot, id, inputs[id]))
  }

  /** The mana of exactly the account outputs is bound, to their accounts; the mana of all other inputs and
      the rewards are unbound. */
  lemma BoundMeansAccountOutput(rules: ManaRules, targetSlot: uint32, inputs: map<OutputID, Output>, rewards: Mana)
    requires Computable(rules, targetSlot, inputs)
    ensures var available := AvailableOf(rules, targetSlot, inputs, rewards);
            && (forall a :: a in available.bound <==>
                  exists id :: id in inputs && inputs[id].AccountOutput? && inputs[id].accountID == a)
            && (forall a :: Amount(available.bound, a) == ManaOfAccount(rules, targetSlot, inputs, a))
            && available.unbound == ManaOfNoAccount(rules, targetSlot, inputs) + rewards
  {
    var all := ManaOfAll(rules, targetSlot, inputs);
    var available := AvailableOf(rules, targetSlot, inputs, rewards);
    forall a
      ensures a in available.bound <==> exists id :: id in inputs && inputs[id].AccountOutput? && inputs[id].accountID == a
      ensures Amount(available.bound, a) == ManaOfAccount(rules, targetSlot, inputs, a)
    {
      BoundToAccount(rules, targetSlot, inputs, a);
    }
    UnboundIs(rules, targetSlot, inputs);
  }

  lemma PartsAdd(rules: ManaRules, targetSlot: uint32, inputs: map<OutputID, Output>, id: OutputID)
    requires Computable(rules, targetSlot, inputs) && id in inputs
    ensures var m := ManaOfAll(rules, targetSlot, inputs)[id];
            && m.Total() == m.potential + m.stored == InputTotal(rules, targetSlot, id, inputs[id])
            && m.account == if inputs[id].AccountOutput? then Some(inputs[id].accountID) else None
  {
    assert ManaOf(rules, targetSlot, id, inputs[id]).Some?;
  }

  lemma BoundToAccount(rules: ManaRules, targetSlot: uint32, inputs: map<OutputID, Output>, a: AccountID)
    requires Computable(rules, targetSlot, inputs)
    ensures var bound := BoundMap(ManaOfAll(rules, targetSlot, inputs));
            && (a in bound <==> exists id :: id in inputs && inputs[id].AccountOutput? && inputs[id].accountID == a)
            && Amount(bound, a) == ManaOfAccount(rules, targetSlot, inputs, a)
  {
    hide InputTotal, ManaOf;
    var all := ManaOfAll(rules, targetSlot, inputs);
    var own := map id | id in inputs && inputs[id].AccountOutput? && inputs[id].accountID == a ::
                 InputTotal(rules, targetSlot, id, inputs[id]);
    forall id
      ensures Amount(Shares(all, BoundTo(a)), id) == Amount(own, id)
      ensures id in inputs ==> (all[id].account == Some(a) <==> inputs[id].AccountOutput? && inputs[id].accountID == a)
    {
      if id in inputs {
        PartsAdd(rules, targetSlot, inputs, id);
      }
    }
    MapTotalSame(Shares(all, BoundTo(a)), own);
    if a !in BoundMap(all) {
      assert forall id :: Amount(own, id) == Amount(map[], id);
      MapTotalSame(own, map[]);
    }
  }

  lemma UnboundIs(rules: ManaRules, targetSlot: uint32, inputs: map<OutputID, Output>)
    requires Computable(rules, targetSlot, inputs)
    ensures UnboundOf(ManaOfAll(rules, targetSlot, inputs)) == ManaOfNoAccount(rules, targetSlot, inputs)
  {
    hide InputTotal, ManaOf;
    var all := ManaOfAll(rules, targetSlot, inputs);
    var others := map id | id in inputs && !inputs[id].AccountOutput? :: InputTotal(rules, targetSlot, id, inputs[id]);
    forall id
      ensures Amount(others, id) == Amount(Shares(all, UnboundPotential), id) + Amount(Shares(all, UnboundStored), id)
    {
      if id in inputs {
        PartsAdd(rules, targetSlot, inputs, id);
      }
    }
    MapTotalSum(Shares(all, UnboundPotential), Shares(all, UnboundStored), others);
  }

  /** When every input's mana can be computed, and when all of it fits. */
  lemma InputsFitMeans(rules: ManaRules, targetSlot: uint32, inputs: map<OutputID, Output>, rewards: Mana)
    ensures Computable(rules, targetSlot, inputs) <==>
      forall id :: id in inputs ==>
        && rules.potential(id, inputs[id], targetSlot).Some?
        && rules.decayed(id, if inputs[id].FoundryOutput? || inputs[id].DelegationOutput? then 0 else inputs[id].mana,
                         targetSlot).Some?
    ensures InputsFit(rules, targetSlot, inputs, rewards) <==>
      && Computable(rules, targetSlot, inputs)
      && MapTotal(map id | id in inputs :: InputTotal(rules, targetSlot, id, inputs[id])) < TWO_TO_THE_64
      && ManaOfNoAccount(rules, targetSlot, inputs) + rewards < TWO_TO_THE_64
  {
    ComputableMeans(rules, targetSlot, inputs);
    hide ManaOf, InputTotal;
    if Computable(rules, targetSlot, inputs) {
      var all := ManaOfAll(rules, targetSlot, inputs);
      var totals := map id | id in inputs :: InputTotal(rules, targetSlot, id, inputs[id]);
      forall id
        ensures Amount(totals, id) == Amount(Shares(all, Potential), id) + Amount(Shares(all, Stored), id)
      {
        if id in inputs {
          PartsAdd(rules, targetSlot, inputs, id);
        }
      }
      MapTotalSum(Shares(all, Potential), Shares(all, Stored), totals);
      UnboundIs(rules, targetSlot, inputs);
    }
  }

  lemma ComputableMeans(rules: ManaRules, targetSlot: uint32, inputs: map<OutputID, Output>)
    ensures Computable(rules, targetSlot, inputs) <==>
      forall id :: id in inputs ==>
        && rules.potential(id, inputs[id], targetSlot).Some?
        && rules.decayed(id, if inputs[id].FoundryOutput? || inputs[id].DelegationOutput? then 0 else inputs[id].mana,
                         targetSlot).Some?
  {
    forall id | id in inputs
      ensures ManaOf(rules, targetSlot, id, inputs[id]).Some? <==>
        && rules.potential(id, inputs[id], targetSlot).Some?
        && rules.decayed(id, if inputs[id].FoundryOutput? || inputs[id].DelegationOutput? then 0 else inputs[id].mana,
                         targetSlot).Some?
    {
    }
  }

  lemma TotalOfPart(part: map<OutputID, InputMana>, inputs: map<OutputID, InputMana>)
    requires forall id :: id in part ==> id in inputs && inputs[id] == part[id]
    ensures TotalOf(part) <= TotalOf(inputs)
  {
    SumOfPart(part, inputs, Potential);
    SumOfPart(part, inputs, Stored);
  }

  /** Go iterates over the inputs in no particular order; so does this loop. */
  method CalculateAvailableManaInputs(rules: ManaRules, inputs: map<OutputID, Output>, rewards: Mana,
      targetSlot: uint32)
      returns (result: Option<AvailableManaResult>)
    ensures result.Some? <==> InputsFit(rules, targetSlot, inputs, rewards)
    ensures result.Some? ==> fresh(result.value)
    ensures result.Some? ==>
      && result.value.Available() == AvailableOf(rules, targetSlot, inputs, rewards)
      && result.value.totalMana == TotalOf(ManaOfAll(rules, targetSlot, inputs))
      && result.value.rewards == rewards
    ensures result.Some? ==>
      var all := ManaOfAll(rules, targetSlot, inputs);
      && result.value.potentialMana == SumOf(all, Potential)
      && result.value.storedMana == SumOf(all, Stored)
      && result.value.unboundPotentialMana == SumOf(all, UnboundPotential)
      && result.value.unboundStoredMana == SumOf(all, UnboundStored)
  {
    hide SumOf, ManaOf;
    var available := new AvailableManaResult();
    var remaining := inputs.Keys;
    ghost var done: map<OutputID, InputMana> := map[];
    while remaining != {}
      invariant remaining <= inputs.Keys
      invariant forall id :: id in done <==> id in inputs && id !in remaining
      invariant forall id :: id in done ==> ManaOf(rules, targetSlot, id, inputs[id]) == Some(done[id])
      invariant fresh(available) && available.Sums(done) && available.rewards == 0
      decreases |remaining|
    {
      var id :| id in remaining;
      remaining := remaining - {id};
      var input := inputs[id];
      InputManaParts(rules, targetSlot, id, input);
      var inputPotentialMana := rules.potential(id, input, targetSlot);
      if inputPotentialMana.None? {
        return None;
      }
      var inputStoredMana := rules.decayed(id, input.StoredMana(), targetSlot);
      if inputStoredMana.None? {
        return None;
      }
      var ok := available.AddInput(done, id, inputPotentialMana.value, inputStoredMana.value, AccountOfInput(input));
      done := Added(done, id, inputPotentialMana.value, inputStoredMana.value, AccountOfInput(input));
      if !ok {
        TooMuch(rules, targetSlot, inputs, done);
        return None;
      }
    }
    assert Computable(rules, targetSlot, inputs);
    assert done == ManaOfAll(rules, targetSlot, inputs);
    BoundMapIs(available.accountBoundMana, done);
    var ok := available.AddRewards(rewards);
    if !ok {
      return None;
    }
    return Some(available);
  }

  lemma InputManaParts(rules: ManaRules, targetSlot: uint32, id: OutputID, input: Output)
    ensures var potential, stored := rules.potential(id, input, targetSlot), rules.decayed(id, input.StoredMana(), targetSlot);
            ManaOf(rules, targetSlot, id, input) ==
              if potential.None? || stored.None? then None
              else Some(InputMana(potential.value, stored.value, AccountOfInput(input)))
  {
  }

  /** When the inputs added so far exceed the 64 bits, so do all of them. */
  lemma TooMuch(rules: ManaRules, targetSlot: uint32, inputs: map<OutputID, Output>, done: map<OutputID, InputMana>)
    requires forall id :: id in done ==> id in inputs && ManaOf(rules, targetSlot, id, inputs[id]) == Some(done[id])
    requires TotalOf(done) >= TWO_TO_THE_64
    ensures !(Computable(rules, targetSlot, inputs) && TotalOf(ManaOfAll(rules, targetSlot, inputs)) < TWO_TO_THE_64)
  {
    hide SumOf, ManaOf;
    if Computable(rules, targetSlot, inputs) {
      TotalOfPart(done, ManaOfAll(rules, targetSlot, inputs));
    }
  }
}
