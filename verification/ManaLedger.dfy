/** What charging stored and allotted mana against the available mana comes to, independently of the
    order in which the transaction builder does it. */
module ManaLedger {
  import opened Common
  import opened Words
  import opened Outputs
  import opened Totals

  /** Mana that is spent by an output or an allotment, from an account if it is bound to one. */
  datatype Debit = Debit(account: Option<AccountID>, amount: nat)

  /** What was charged so far: mana of no account, and mana by account. */
  datatype Charges = Charges(unlocked: nat, accounts: map<AccountID, nat>)
  {
    ghost function Total(): nat {
      unlocked + MapTotal(accounts)
    }
  }

  datatype Balances = Balances(unbound: nat, bound: map<AccountID, nat>)
  {
    ghost function Total(): nat {
      unbound + MapTotal(bound)
    }
  }

  function Charge(charges: Charges, d: Debit): Charges {
    match d.account
    case None => charges.(unlocked := charges.unlocked + d.amount)
    case Some(a) => charges.(accounts := charges.accounts[a := Amount(charges.accounts, a) + d.amount])
  }

  function ChargesOf(debits: seq<Debit>): Charges {
    if debits == [] then Charges(0, map[])
    else Charge(ChargesOf(debits[..|debits| - 1]), debits[|debits| - 1])
  }

  // ---------- The closed form ----------

  /** `x - y`, but at least 0. */
  function Excess(x: nat, y: nat): nat {
    if x > y then x - y else 0
  }

  /** What is left of every account's bound mana. */
  function BoundLeft(available: Balances, charges: Charges): map<AccountID, nat> {
    map a | a in available.bound :: Excess(available.bound[a], Amount(charges.accounts, a))
  }

  /** What every account is charged beyond its bound mana. */
  function Overshoot(available: Balances, charges: Charges): map<AccountID, nat> {
    map a | a in charges.accounts :: Excess(charges.accounts[a], Amount(available.bound, a))
  }

  /** What is left of the unbound mana; negative if there is not enough. */
  ghost function UnboundLeft(available: Balances, charges: Charges): int {
    available.unbound - charges.unlocked - MapTotal(Overshoot(available, charges))
  }

  ghost function Remaining(available: Balances, charges: Charges): Option<Balances> {
    if UnboundLeft(available, charges) >= 0 then
      Some(Balances(UnboundLeft(available, charges), BoundLeft(available, charges)))
    else
      None
  }

  /** Charging removes from the unbound and all bound mana together exactly what is charged. */
  lemma ChargingConserves(available: Balances, charges: Charges)
    ensures UnboundLeft(available, charges) + MapTotal(BoundLeft(available, charges))
         == available.Total() - charges.Total()
  {
    var bound, spent := available.bound, charges.accounts;
    var larger := map a | a in bound.Keys + spent.Keys ::
      if Amount(bound, a) > Amount(spent, a) then Amount(bound, a) else Amount(spent, a);
    MapTotalSum(bound, Overshoot(available, charges), larger);
    MapTotalSum(spent, BoundLeft(available, charges), larger);
  }

  /** Charging more leaves less. */
  lemma ChargingMonotone(available: Balances, less: Charges, more: Charges)
    requires less.unlocked <= more.unlocked
    requires forall a :: Amount(less.accounts, a) <= Amount(more.accounts, a)
    ensures UnboundLeft(available, more) <= UnboundLeft(available, less)
    ensures forall a :: Amount(BoundLeft(available, more), a) <= Amount(BoundLeft(available, less), a)
  {
    forall a
      ensures Amount(Overshoot(available, less), a) <= Amount(Overshoot(available, more), a)
      ensures Amount(BoundLeft(available, more), a) <= Amount(BoundLeft(available, less), a)
    {
      assert Amount(less.accounts, a) <= Amount(more.accounts, a);
    }
    MapTotalMonotone(Overshoot(available, less), Overshoot(available, more));
  }

  /** Takes from the bound mana of an account, if it has any, but at most what it has. */
  function TakenFrom(bound: map<AccountID, nat>, a: AccountID, amount: nat): map<AccountID, nat> {
    if a in bound then bound[a := Excess(bound[a], amount)] else bound
  }

  lemma BoundLeftAfter(available: Balances, charges: Charges, a: AccountID, amount: nat)
    ensures BoundLeft(available, Charge(charges, Debit(Some(a), amount)))
         == TakenFrom(BoundLeft(available, charges), a, amount)
  {
  }

  lemma UnboundLeftAfter(available: Balances, charges: Charges, a: AccountID, amount: nat)
    ensures UnboundLeft(available, Charge(charges, Debit(Some(a), amount)))
         == UnboundLeft(available, charges) - Excess(amount, Amount(BoundLeft(available, charges), a))
  {
    var overshoot := Overshoot(available, charges);
    var spent := Amount(charges.accounts, a) + amount;
    assert Overshoot(available, Charge(charges, Debit(Some(a), amount)))
        == overshoot[a := Excess(spent, Amount(available.bound, a))];
    MapTotalUpdate(overshoot, a, Excess(spent, Amount(available.bound, a)));
  }

  /** One debit: an account pays what its bound mana covers, the unbound mana pays the rest. */
  lemma ChargeOnce(available: Balances, charges: Charges, d: Debit)
    ensures var left, after := BoundLeft(available, charges), Charge(charges, d);
            match d.account
            case None =>
              && BoundLeft(available, after) == left
              && UnboundLeft(available, after) == UnboundLeft(available, charges) - d.amount
            case Some(a) =>
              && BoundLeft(available, after) == TakenFrom(left, a, d.amount)
              && UnboundLeft(available, after) == UnboundLeft(available, charges) - Excess(d.amount, Amount(left, a))
  {
    if d.account.Some? {
      BoundLeftAfter(available, charges, d.account.value, d.amount);
      UnboundLeftAfter(available, charges, d.account.value, d.amount);
      assert d == Debit(Some(d.account.value), d.amount);
      hide Charge, UnboundLeft;
    } else {
      assert BoundLeft(available, Charge(charges, d)) == BoundLeft(available, charges);
    }
  }

  lemma ChargeGrows(charges: Charges, d: Debit)
    ensures charges.unlocked <= Charge(charges, d).unlocked
    ensures forall a :: Amount(charges.accounts, a) <= Amount(Charge(charges, d).accounts, a)
  {
  }

  /** Where a prefix of the debits already exceeds the available mana, so do all of them. */
  lemma {:induction false} PrefixLeavesMore(available: Balances, debits: seq<Debit>, i: nat)
    requires i <= |debits|
    ensures UnboundLeft(available, ChargesOf(debits)) <= UnboundLeft(available, ChargesOf(debits[..i]))
  {
    if i < |debits| {
      var init := debits[..|debits| - 1];
      assert init[..i] == debits[..i];
      PrefixLeavesMore(available, init, i);
      ChargeGrows(ChargesOf(init), debits[|debits| - 1]);
      ChargingMonotone(available, ChargesOf(init), ChargesOf(debits));
    } else {
      assert debits[..i] == debits;
    }
  }

  // ---------- The order of the debits does not matter ----------

  function ChargeAmount(charges: Charges, account: Option<AccountID>): nat {
    match account
    case None => charges.unlocked
    case Some(a) => Amount(charges.accounts, a)
  }

  /** The amount a debit charges to `account`. */
  function DebitTo(d: Debit, account: Option<AccountID>): nat {
    if d.account == account then d.amount else 0
  }

  lemma ChargeAdds(charges: Charges, d: Debit, account: Option<AccountID>)
    ensures ChargeAmount(Charge(charges, d), account) == ChargeAmount(charges, account) + DebitTo(d, account)
  {
  }

  lemma {:induction false} ChargesWithout(debits: seq<Debit>, k: nat, account: Option<AccountID>)
    requires k < |debits|
    ensures ChargeAmount(ChargesOf(debits), account)
         == ChargeAmount(ChargesOf(debits[..k] + debits[k + 1..]), account) + DebitTo(debits[k], account)
  {
    hide Charge, ChargeAmount, DebitTo;
    var init, last := debits[..|debits| - 1], debits[|debits| - 1];
    ChargeAdds(ChargesOf(init), last, account);
    var without := debits[..k] + debits[k + 1..];
    if k == |debits| - 1 {
      assert without == init;
    } else {
      ChargesWithout(init, k, account);
      assert without[..|without| - 1] == init[..k] + init[k + 1..];
      ChargeAdds(ChargesOf(init[..k] + init[k + 1..]), last, account);
    }
  }

  lemma RemoveOne<T>(s: seq<T>, k: nat)
    requires k < |s|
    ensures multiset(s[..k] + s[k + 1..]) == multiset(s) - multiset{s[k]}
  {
    assert s == s[..k] + [s[k]] + s[k + 1..];
  }

  lemma {:induction false} ChargesOfPermutation(debits: seq<Debit>, others: seq<Debit>, account: Option<AccountID>)
    requires multiset(debits) == multiset(others)
    ensures ChargeAmount(ChargesOf(debits), account) == ChargeAmount(ChargesOf(others), account)
    decreases |debits|
  {
    hide Charge, ChargeAmount, DebitTo;
    if debits == [] {
      assert |others| == |multiset(others)| == 0;
    } else {
      var last := |debits| - 1;
      assert debits[last] in multiset(others);
      var k :| 0 <= k < |others| && others[k] == debits[last];
      ChargesWithout(debits, last, account);
      ChargesWithout(others, k, account);
      RemoveOne(debits, last);
      RemoveOne(others, k);
      assert debits[..last] + debits[last + 1..] == debits[..last];
      ChargesOfPermutation(debits[..last], others[..k] + others[k + 1..], account);
    }
  }

  lemma SameChargesRemaining(available: Balances, charges: Charges, others: Charges)
    requires forall account :: ChargeAmount(charges, account) == ChargeAmount(others, account)
    ensures Remaining(available, charges) == Remaining(available, others)
  {
    assert ChargeAmount(charges, None) == ChargeAmount(others, None);
    forall a
      ensures Amount(charges.accounts, a) == Amount(others.accounts, a)
    {
      assert ChargeAmount(charges, Some(a)) == ChargeAmount(others, Some(a));
    }
    ChargingMonotone(available, charges, others);
    ChargingMonotone(available, others, charges);
    assert BoundLeft(available, charges) == BoundLeft(available, others);
  }

  /** Charging the same debits in another order leaves the same balances, or fails as well. */
  lemma RemainingInAnyOrder(available: Balances, debits: seq<Debit>, others: seq<Debit>)
    requires multiset(debits) == multiset(others)
    ensures Remaining(available, ChargesOf(debits)) == Remaining(available, ChargesOf(others))
  {
    forall account
      ensures ChargeAmount(ChargesOf(debits), account) == ChargeAmount(ChargesOf(others), account)
    {
      ChargesOfPermutation(debits, others, account);
    }
    SameChargesRemaining(available, ChargesOf(debits), ChargesOf(others));
  }
}
