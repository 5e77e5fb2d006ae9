/** What the builder's allotting and storing procedures leave over, as sums that do not depend on the
    order in which they charge. */
module Leftovers {
  import opened Common
  import opened Words
  import opened Outputs
  import opened Totals
  import opened ManaLedger
  import opened Allotments

  // ---------- What the procedures leave over ----------

  /** What is missing from an amount after wrap-around; 0 exactly for amounts below 2^64. */
  function Lost(amount: nat): (lost: nat)
    ensures lost == amount - Wrapped(amount)
    ensures lost == 0 <==> amount < TWO_TO_THE_64
  {
    amount / TWO_TO_THE_64 * TWO_TO_THE_64
  }

  lemma IncreaseCharges(outputs: Charges, allotted: map<AccountID, Mana>, a: AccountID, value: nat)
    ensures ShortBy(Charge(WithAllotments(outputs, allotted), Debit(Some(a), value)),
                    WithAllotments(outputs, Increased(allotted, a, value)),
                    Some(a), Lost(Amount(allotted, a) + value))
  {
    hide Wrapped, Lost;
    assert value == 0 ==> Lost(Amount(allotted, a)) == 0;
  }

  function Credited(d: Debit, value: nat): Debit {
    Debit(d.account, Wrapped(d.amount + value))
  }

  lemma StoreCharges(outputs: seq<Debit>, allotted: map<AccountID, nat>, index: nat, value: nat)
    requires index < |outputs|
    ensures ShortBy(Charge(WithAllotments(ChargesOf(outputs), allotted), Debit(outputs[index].account, value)),
                    WithAllotments(ChargesOf(outputs[index := Credited(outputs[index], value)]), allotted),
                    outputs[index].account, Lost(outputs[index].amount + value))
  {
    forall other
      ensures ChargeAmount(Charge(WithAllotments(ChargesOf(outputs), allotted), Debit(outputs[index].account, value)), other)
           == ChargeAmount(WithAllotments(ChargesOf(outputs[index := Credited(outputs[index], value)]), allotted), other)
              + if other == outputs[index].account then Lost(outputs[index].amount + value) else 0
    {
      StoreChargesTo(outputs, allotted, index, value, other);
    }
  }

  lemma StoreChargesTo(outputs: seq<Debit>, allotted: map<AccountID, nat>, index: nat, value: nat,
      other: Option<AccountID>)
    requires index < |outputs|
    ensures ChargeAmount(Charge(WithAllotments(ChargesOf(outputs), allotted), Debit(outputs[index].account, value)), other)
         == ChargeAmount(WithAllotments(ChargesOf(outputs[index := Credited(outputs[index], value)]), allotted), other)
            + if other == outputs[index].account then Lost(outputs[index].amount + value) else 0
  {
    hide ChargesOf, ChargeAmount, Wrapped, Lost, Charge, WithAllotments;
    var d := outputs[index];
    var stored := outputs[index := Credited(d, value)];
    ChargesWithout(outputs, index, other);
    ChargesWithout(stored, index, other);
    assert stored[..index] + stored[index + 1..] == outputs[..index] + outputs[index + 1..];
    AllotmentsAdd(ChargesOf(outputs), allotted, other);
    AllotmentsAdd(ChargesOf(stored), allotted, other);
    ChargeAdds(WithAllotments(ChargesOf(outputs), allotted), Debit(d.account, value), other);
  }

  lemma AllotmentsAdd(outputs: Charges, allotted: map<AccountID, nat>, other: Option<AccountID>)
    ensures ChargeAmount(WithAllotments(outputs, allotted), other)
         == ChargeAmount(outputs, other) + if other.Some? then Amount(allotted, other.value) else 0
  {
  }

  /** Allotting everything leaves nothing over exactly if the allotment of `account` does not wrap. */
  lemma AllotAllLeavesOver(available: Balances, outputs: Charges, allotted: map<AccountID, Mana>, account: AccountID,
      left: map<AccountID, nat>, unbound: nat)
    requires forall a :: a in available.bound ==> available.bound[a] < TWO_TO_THE_64
    requires left == BoundLeft(available, WithAllotments(outputs, allotted))
    requires unbound == UnboundLeft(available, WithAllotments(outputs, allotted))
    ensures var after := WithAllotments(outputs, Increased(IncreasedAll(allotted, left), account, unbound));
            && UnboundLeft(available, after) >= 0
            && LeftOver(available, after) == Lost(Amount(allotted, account) + Amount(left, account) + unbound)
  {
    hide IncreasedAll, BoundLeft, UnboundLeft, WithAllotments, Charge, Lost, Without, Increased, LeftOver;
    AllotBound(available, outputs, allotted, left);
    var bound := IncreasedAll(allotted, left);
    var charges := WithAllotments(outputs, bound);
    TotalWithout(left, left);
    assert Amount(bound, account) == Amount(allotted, account) + Amount(left, account);
    ChargeAllUnbound(available, charges, account);
    IncreaseCharges(outputs, bound, account, unbound);
    WrappedCharge(available, Charge(charges, Debit(Some(account), unbound)),
                  WithAllotments(outputs, Increased(bound, account, unbound)),
                  Some(account), Lost(Amount(bound, account) + unbound));
  }

  /** With no bound mana left, charging all unbound mana leaves nothing. */
  lemma ChargeAllUnbound(available: Balances, charges: Charges, account: AccountID)
    requires UnboundLeft(available, charges) >= 0
    requires MapTotal(BoundLeft(available, charges)) == 0
    ensures var more := Charge(charges, Debit(Some(account), UnboundLeft(available, charges)));
            UnboundLeft(available, more) >= 0 && LeftOver(available, more) == 0
  {
    var left := BoundLeft(available, charges);
    ChargeOnce(available, charges, Debit(Some(account), UnboundLeft(available, charges)));
    AmountAtMostTotal(left, account);
    MapTotalUpdate(left, account, 0);
  }

  /** The account the mana of an output counts for, the empty one for unlocked mana. */
  function AccountOf(d: Debit): AccountID {
    match d.account
    case None => EMPTY_ACCOUNT_ID
    case Some(a) => a
  }

  /** The bound mana that is stored together with the unbound mana: that of the output's account, if
      this is not the empty one. */
  function StoredAlong(left: map<AccountID, nat>, d: Debit): nat {
    if AccountOf(d) == EMPTY_ACCOUNT_ID then 0 else Amount(left, AccountOf(d))
  }

  /** Storing the remaining mana in an output leaves the bound mana that is not stored along, and
      nothing else exactly if the output's stored mana does not wrap. */
  lemma StoreLeavesOver(available: Balances, outputs: seq<Debit>, allotted: map<AccountID, nat>, index: nat,
      left: map<AccountID, nat>, unbound: nat)
    requires index < |outputs|
    requires left == BoundLeft(available, WithAllotments(ChargesOf(outputs), allotted))
    requires unbound == UnboundLeft(available, WithAllotments(ChargesOf(outputs), allotted))
    ensures StoredAlong(left, outputs[index]) <= MapTotal(left)
    ensures var along := StoredAlong(left, outputs[index]);
            var after := ChargesOf(outputs[index := Credited(outputs[index], unbound + along)]);
            && UnboundLeft(available, WithAllotments(after, allotted)) >= 0
            && LeftOver(available, WithAllotments(after, allotted))
               == MapTotal(left) - along + Lost(outputs[index].amount + unbound + along)
  {
    hide BoundLeft, UnboundLeft, WithAllotments, Charge, Lost, StoredAlong, ChargesOf, Credited, LeftOver;
    var d := outputs[index];
    var along := StoredAlong(left, d);
    var charges := WithAllotments(ChargesOf(outputs), allotted);
    ChargeStored(available, charges, d);
    StoreCharges(outputs, allotted, index, unbound + along);
    WrappedCharge(available, Charge(charges, Debit(d.account, unbound + along)),
                  WithAllotments(ChargesOf(outputs[index := Credited(d, unbound + along)]), allotted),
                  d.account, Lost(d.amount + (unbound + along)));
  }

  lemma ChargeStored(available: Balances, charges: Charges, d: Debit)
    requires UnboundLeft(available, charges) >= 0
    ensures var left := BoundLeft(available, charges);
            var along := StoredAlong(left, d);
            var more := Charge(charges, Debit(d.account, UnboundLeft(available, charges) + along));
            && along <= MapTotal(left)
            && UnboundLeft(available, more) >= 0
            && LeftOver(available, more) == MapTotal(left) - along
  {
    var left := BoundLeft(available, charges);
    assert left.Keys == available.bound.Keys;
    hide Charge, UnboundLeft, BoundLeft;
    AmountAtMostTotal(left, AccountOf(d));
    var debit := Debit(d.account, UnboundLeft(available, charges) + StoredAlong(left, d));
    ChargeOnce(available, charges, debit);
    ChargeTotal(charges, debit);
    ChargingConserves(available, charges);
    ChargingConserves(available, Charge(charges, debit));
  }

  lemma ChargeTotal(charges: Charges, d: Debit)
    ensures Charge(charges, d).Total() == charges.Total() + d.amount
  {
    if d.account.Some? {
      MapTotalUpdate(charges.accounts, d.account.value, Amount(charges.accounts, d.account.value) + d.amount);
    }
  }

  lemma OnlyLeft(left: map<AccountID, nat>, account: AccountID)
    requires forall a :: a != account ==> Amount(left, a) == 0
    ensures MapTotal(left) == Amount(left, account)
  {
    MapTotalSame(left, map[account := Amount(left, account)]);
    MapTotalRemove(map[account := Amount(left, account)], account);
    assert map[account := Amount(left, account)] - {account} == map[];
  }

  // ---------- The procedures step by step ----------

  /** The amounts of the accounts that are not ignored. */
  function Kept(bound: map<AccountID, nat>, ignored: seq<AccountID>): map<AccountID, nat> {
    map a | a in bound && a !in ignored :: bound[a]
  }

  function AllottingBound(allotted: map<AccountID, Mana>, was: Balances, ignored: seq<AccountID>): map<AccountID,
      Mana>
  {
    IncreasedAll(allotted, Kept(was.bound, ignored))
  }

  /** What is left of the balances after all bound mana except that of ignored accounts is allotted. */
  function AfterAllottingBound(was: Balances, ignored: seq<AccountID>): Balances {
    Balances(was.unbound, Without(was.bound, Kept(was.bound, ignored)))
  }

  /** What is allotted to `issuer` of its own bound mana, when that of `account` is ignored. */
  function OwnMana(was: Balances, account: AccountID, issuer: AccountID): nat {
    Amount(Kept(was.bound, [account]), issuer)
  }

  lemma OwnManaIs(was: Balances, account: AccountID, issuer: AccountID)
    ensures var kept := Kept(was.bound, [account]);
            OwnMana(was, account, issuer) == if issuer in kept then kept[issuer] else 0
  {
  }

  lemma KeptAll(bound: map<AccountID, nat>)
    ensures Kept(bound, []) == bound
  {
  }

  lemma IncreasedByNothing(m: map<AccountID, Mana>)
    ensures IncreasedAll(m, map[]) == m
  {
  }

  lemma AllottedBoundRemains(available: Balances, outputs: Charges, allotted: map<AccountID, Mana>,
      ignored: seq<AccountID>)
    requires forall a :: a in available.bound ==> available.bound[a] < TWO_TO_THE_64
    requires Remaining(available, WithAllotments(outputs, allotted)).Some?
    ensures var was := Remaining(available, WithAllotments(outputs, allotted)).value;
            Remaining(available, WithAllotments(outputs, AllottingBound(allotted, was, ignored)))
            == Some(AfterAllottingBound(was, ignored))
  {
    var was := Remaining(available, WithAllotments(outputs, allotted)).value;
    hide BoundLeft, UnboundLeft, IncreasedAll, WithAllotments, Without;
    AllotBound(available, outputs, allotted, Kept(was.bound, ignored));
  }

  lemma AllottedAllRemains(available: Balances, outputs: Charges, allotted: map<AccountID, Mana>, accountID: AccountID)
    requires forall a :: a in available.bound ==> available.bound[a] < TWO_TO_THE_64
    requires Remaining(available, WithAllotments(outputs, allotted)).Some?
    ensures var was := Remaining(available, WithAllotments(outputs, allotted)).value;
            var after := Remaining(available,
              WithAllotments(outputs, Increased(IncreasedAll(allotted, was.bound), accountID, was.unbound)));
            && after.Some?
            && after.value.Total() == Lost(Amount(allotted, accountID) + Amount(was.bound, accountID) + was.unbound)
  {
    hide Remaining, BoundLeft, UnboundLeft, LeftOver, IncreasedAll, WithAllotments, Increased, Lost;
    var was := Remaining(available, WithAllotments(outputs, allotted)).value;
    RemainingIs(available, WithAllotments(outputs, allotted));
    AllotAllLeavesOver(available, outputs, allotted, accountID, was.bound, was.unbound);
    RemainingIs(available, WithAllotments(outputs, Increased(IncreasedAll(allotted, was.bound), accountID, was.unbound)));
  }

  lemma RemainingIs(available: Balances, charges: Charges)
    ensures Remaining(available, charges).Some? <==> UnboundLeft(available, charges) >= 0
    ensures Remaining(available, charges).Some? ==>
      && Remaining(available, charges).value.unbound == UnboundLeft(available, charges)
      && Remaining(available, charges).value.bound == BoundLeft(available, charges)
      && Remaining(available, charges).value.Total() == LeftOver(available, charges)
  {
  }

  /** The unbound mana, and the mana of the account unless it is the empty one. */
  function ToStore(was: Balances, account: AccountID): nat {
    was.unbound + Along(was.bound, account)
  }

  function Along(bound: map<AccountID, nat>, account: AccountID): nat {
    if account == EMPTY_ACCOUNT_ID then 0 else Amount(bound, account)
  }

  /** Only the mana of the empty account is neither stored along nor allotted. */
  function NotStored(was: Balances, account: AccountID): nat {
    if account == EMPTY_ACCOUNT_ID then Amount(was.bound, account) else 0
  }

  /** After allotting, only the ignored account has bound mana. */
  lemma ToStoreAfterAllotting(was: Balances, account: AccountID)
    ensures var left := AfterAllottingBound(was, [account]);
            && ToStore(left, account) == ToStore(was, account)
            && MapTotal(left.bound) - Along(left.bound, account) == NotStored(was, account)
  {
    OnlyLeft(AfterAllottingBound(was, [account]).bound, account);
  }

  lemma StoredRemains(available: Balances, outputs: seq<Debit>, allotted: map<AccountID, nat>, index: nat)
    requires index < |outputs|
    requires Remaining(available, WithAllotments(ChargesOf(outputs), allotted)).Some?
    ensures var was := Remaining(available, WithAllotments(ChargesOf(outputs), allotted)).value;
            var account := AccountOf(outputs[index]);
            var after := Remaining(available,
              WithAllotments(ChargesOf(outputs[index := Credited(outputs[index], ToStore(was, account))]), allotted));
            && after.Some?
            && after.value.Total()
               == MapTotal(was.bound) - Along(was.bound, account) + Lost(outputs[index].amount + ToStore(was, account))
  {
    hide Remaining, BoundLeft, UnboundLeft, LeftOver, ChargesOf, WithAllotments, Lost, Credited;
    var was := Remaining(available, WithAllotments(ChargesOf(outputs), allotted)).value;
    var value := ToStore(was, AccountOf(outputs[index]));
    RemainingIs(available, WithAllotments(ChargesOf(outputs), allotted));
    StoreLeavesOver(available, outputs, allotted, index, was.bound, was.unbound);
    RemainingIs(available, WithAllotments(ChargesOf(outputs[index := Credited(outputs[index], value)]), allotted));
  }

  /** Allotting the bound mana of other accounts and then storing what remains in an output. */
  lemma StoredAfterAllotting(available: Balances, outputs: seq<Debit>, allotted: map<AccountID, Mana>, index: nat)
    requires forall a :: a in available.bound ==> available.bound[a] < TWO_TO_THE_64
    requires index < |outputs|
    requires Remaining(available, WithAllotments(ChargesOf(outputs), allotted)).Some?
    ensures var was := Remaining(available, WithAllotments(ChargesOf(outputs), allotted)).value;
            var account := AccountOf(outputs[index]);
            var after := Remaining(available, WithAllotments(
              ChargesOf(outputs[index := Credited(outputs[index], ToStore(was, account))]),
              AllottingBound(allotted, was, [account])));
            && after.Some?
            && after.value.Total() == NotStored(was, account) + Lost(outputs[index].amount + ToStore(was, account))
  {
    hide *;
    var was := Remaining(available, WithAllotments(ChargesOf(outputs), allotted)).value;
    var account := AccountOf(outputs[index]);
    AllottedBoundRemains(available, ChargesOf(outputs), allotted, [account]);
    StoredRemains(available, outputs, AllottingBound(allotted, was, [account]), index);
    ToStoreAfterAllotting(was, account);
  }

  // ---------- Allotting the block cost ----------

  /** What the block issuer gets on top of its own remaining bound mana. */
  function OnTop(was: Balances, account: AccountID, issuer: AccountID, cost: nat): nat {
    Excess(cost, OwnMana(was, account, issuer))
  }

  function AllottingMin(allotted: map<AccountID, Mana>, was: Balances, account: AccountID, issuer: AccountID, cost: nat)
    : map<AccountID, Mana>
  {
    Increased(AllottingBound(allotted, was, [account]), issuer, OnTop(was, account, issuer, cost))
  }

  /** What was allotted to the issuer before and the cost together fit 64 bits. */
  predicate IssuerFits(allotted: map<AccountID, Mana>, issuer: AccountID, cost: nat) {
    Amount(allotted, issuer) + cost < TWO_TO_THE_64
  }

  /** Mana bound to the empty account is not stored, but may have paid for the issuer's allotment. */
  function NotStoredAfterMin(was: Balances, account: AccountID, issuer: AccountID, cost: nat): nat {
    if issuer == account then Excess(NotStored(was, account), OnTop(was, account, issuer, cost))
    else NotStored(was, account)
  }

  lemma MinRequiredIs(allotted: map<AccountID, Mana>, was: Balances, account: AccountID, issuer: AccountID, cost: nat,
      minRequired: nat)
    requires var own := OwnMana(was, account, issuer);
             minRequired == if own > 0 then (if cost < own then 0 else cost - own) else cost
    ensures AllottingMin(allotted, was, account, issuer, cost)
         == Increased(AllottingBound(allotted, was, [account]), issuer, minRequired)
    ensures Increased(AllottingBound(allotted, was, [account]), issuer, 0) == AllottingBound(allotted, was, [account])
  {
  }

  lemma IssuerArithmetic(had: nat, own: nat, cost: Mana)
    requires had + own < TWO_TO_THE_64
    ensures var top := Excess(cost, own);
            var gets := if top == 0 then had + own else Wrapped(had + own + top);
            gets >= cost <==> had + cost < TWO_TO_THE_64
  {
    if cost > own && had + cost >= TWO_TO_THE_64 {
      assert Wrapped(had + cost) == had + cost - TWO_TO_THE_64;
    }
  }

  /** The allotments after the bound mana, and then the issuer's. */
  lemma MinAmounts(available: Balances, outputs: Charges, allotted: map<AccountID, Mana>, account: AccountID,
      issuer: AccountID, cost: nat)
    requires forall a :: a in available.bound ==> available.bound[a] < TWO_TO_THE_64
    requires Remaining(available, WithAllotments(outputs, allotted)).Some?
    ensures var was := Remaining(available, WithAllotments(outputs, allotted)).value;
            var own, top := OwnMana(was, account, issuer), OnTop(was, account, issuer, cost);
            && Amount(AllottingBound(allotted, was, [account]), issuer) == Amount(allotted, issuer) + own
            && Amount(AllottingMin(allotted, was, account, issuer, cost), issuer)
               == if top == 0 then Amount(allotted, issuer) + own else Wrapped(Amount(allotted, issuer) + own + top)
  {
    hide BoundLeft, UnboundLeft, WithAllotments, IncreasedAll, Wrapped;
    var was := Remaining(available, WithAllotments(outputs, allotted)).value;
    AllotBoundAmounts(available, outputs, allotted, Kept(was.bound, [account]));
  }

  lemma IssuerGets(available: Balances, outputs: Charges, allotted: map<AccountID, Mana>, account: AccountID,
      issuer: AccountID, cost: Mana)
    requires forall a :: a in available.bound ==> available.bound[a] < TWO_TO_THE_64
    requires Remaining(available, WithAllotments(outputs, allotted)).Some?
    ensures var was := Remaining(available, WithAllotments(outputs, allotted)).value;
            && Amount(allotted, issuer) + OwnMana(was, account, issuer) < TWO_TO_THE_64
            && (Amount(AllottingMin(allotted, was, account, issuer, cost), issuer) >= cost
                <==> IssuerFits(allotted, issuer, cost))
  {
    hide Remaining, WithAllotments, AllottingMin, AllottingBound, OwnMana, Wrapped;
    var was := Remaining(available, WithAllotments(outputs, allotted)).value;
    MinAmounts(available, outputs, allotted, account, issuer, cost);
    AmountIsMana(AllottingBound(allotted, was, [account]), issuer);
    IssuerArithmetic(Amount(allotted, issuer), OwnMana(was, account, issuer), cost);
  }

  /** An issuer that was allotted 2^64 - 1 before and pays 1 for its block ends up with nothing. */
  lemma IssuerWraps(account: AccountID, issuer: AccountID)
    ensures var had := map[issuer := TWO_TO_THE_64 - 1];
            Amount(AllottingMin(had, Balances(0, map[]), account, issuer, 1), issuer) == 0
  {
    IncreasedByNothing(map[issuer := TWO_TO_THE_64 - 1]);
    assert Kept(map[], [account]) == map[];
  }

  lemma AmountIsMana(m: map<AccountID, Mana>, a: AccountID)
    ensures Amount(m, a) < TWO_TO_THE_64
  {
  }

  /** Charging the issuer's allotment after the bound mana was allotted. */
  lemma RestAfterMin(available: Balances, outputs: Charges, allotted: map<AccountID, Mana>, account: AccountID,
      issuer: AccountID, cost: Mana)
    requires forall a :: a in available.bound ==> available.bound[a] < TWO_TO_THE_64
    requires Remaining(available, WithAllotments(outputs, allotted)).Some?
    requires IssuerFits(allotted, issuer, cost)
    ensures var was := Remaining(available, WithAllotments(outputs, allotted)).value;
            var left, top := AfterAllottingBound(was, [account]), OnTop(was, account, issuer, cost);
            var rest := Remaining(available, WithAllotments(outputs, AllottingMin(allotted, was, account, issuer, cost)));
            rest.Some? ==> rest.value.bound == TakenFrom(left.bound, issuer, top)
  {
    hide Remaining, WithAllotments, AllottingBound, AfterAllottingBound, OwnMana, Wrapped, Charge, ChargeAmount, Increased;
    hide TakenFrom, BoundLeft, UnboundLeft, LeftOver;
    var was := Remaining(available, WithAllotments(outputs, allotted)).value;
    var bound := AllottingBound(allotted, was, [account]);
    var top := OnTop(was, account, issuer, cost);
    var charges := WithAllotments(outputs, bound);
    IssuerGets(available, outputs, allotted, account, issuer, cost);
    MinAmounts(available, outputs, allotted, account, issuer, cost);
    AllottedBoundRemains(available, outputs, allotted, [account]);
    IncreaseCharges(outputs, bound, issuer, top);
    SameChargesRemaining(available, Charge(charges, Debit(Some(issuer), top)),
                         WithAllotments(outputs, Increased(bound, issuer, top)));
    ChargeOnce(available, charges, Debit(Some(issuer), top));
    RemainingIs(available, charges);
    RemainingIs(available, Charge(charges, Debit(Some(issuer), top)));
  }

  /** What an output stores and what remains fits into what is available. */
  lemma StoredFits(available: Balances, outputs: seq<Debit>, allotted: map<AccountID, nat>, index: nat)
    requires index < |outputs|
    requires Remaining(available, WithAllotments(ChargesOf(outputs), allotted)).Some?
    ensures var rest := Remaining(available, WithAllotments(ChargesOf(outputs), allotted)).value;
            outputs[index].amount + ToStore(rest, AccountOf(outputs[index])) <= available.Total()
  {
    hide Remaining, WithAllotments, ChargesOf, BoundLeft, UnboundLeft;
    var charges := WithAllotments(ChargesOf(outputs), allotted);
    RemainingIs(available, charges);
    ChargingConserves(available, charges);
    WithAllotmentsTotal(ChargesOf(outputs), allotted);
    DebitAtMostTotal(outputs, index);
    AmountAtMostTotal(Remaining(available, charges).value.bound, AccountOf(outputs[index]));
  }

  /** What an account is allotted and what remains of its mana and the unbound mana fit together. */
  lemma AllottedFits(available: Balances, outputs: Charges, allotted: map<AccountID, nat>, account: AccountID)
    requires Remaining(available, WithAllotments(outputs, allotted)).Some?
    ensures var was := Remaining(available, WithAllotments(outputs, allotted)).value;
            Amount(allotted, account) + Amount(was.bound, account) + was.unbound <= available.Total()
  {
    hide Remaining, WithAllotments, BoundLeft, UnboundLeft;
    var charges := WithAllotments(outputs, allotted);
    RemainingIs(available, charges);
    ChargingConserves(available, charges);
    WithAllotmentsTotal(outputs, allotted);
    AmountAtMostTotal(allotted, account);
    AmountAtMostTotal(Remaining(available, charges).value.bound, account);
  }

  /** If nothing remains in total, then neither unbound mana nor mana bound to any account. */
  lemma NothingRemains(balances: Balances)
    requires balances.Total() == 0
    ensures balances.unbound == 0 && forall a :: a in balances.bound ==> balances.bound[a] == 0
  {
    forall a | a in balances.bound
      ensures balances.bound[a] == 0
    {
      AmountAtMostTotal(balances.bound, a);
    }
  }

  lemma {:induction false} DebitAtMostTotal(debits: seq<Debit>, index: nat)
    requires index < |debits|
    ensures debits[index].amount <= ChargesOf(debits).Total()
  {
    ChargeTotal(ChargesOf(debits[..|debits| - 1]), debits[|debits| - 1]);
    if index < |debits| - 1 {
      DebitAtMostTotal(debits[..|debits| - 1], index);
    }
  }

  /** The issuer's account pays from its own mana; only the output's account may have mana left. */
  lemma OnlyAccountLeft(was: Balances, account: AccountID, issuer: AccountID, cost: nat, rest: map<AccountID, nat>)
    requires rest == TakenFrom(AfterAllottingBound(was, [account]).bound, issuer, OnTop(was, account, issuer, cost))
    ensures MapTotal(rest) - Along(rest, account) == NotStoredAfterMin(was, account, issuer, cost)
  {
    OnlyLeft(rest, account);
  }

  lemma StoredAfterMin(available: Balances, outputs: seq<Debit>, allotted: map<AccountID, Mana>, index: nat,
      issuer: AccountID, cost: Mana)
    requires forall a :: a in available.bound ==> available.bound[a] < TWO_TO_THE_64
    requires available.Total() < TWO_TO_THE_64 && index < |outputs|
    requires Remaining(available, WithAllotments(ChargesOf(outputs), allotted)).Some?
    requires IssuerFits(allotted, issuer, cost)
    requires var was := Remaining(available, WithAllotments(ChargesOf(outputs), allotted)).value;
             Remaining(available, WithAllotments(ChargesOf(outputs),
               AllottingMin(allotted, was, AccountOf(outputs[index]), issuer, cost))).Some?
    ensures var was := Remaining(available, WithAllotments(ChargesOf(outputs), allotted)).value;
            var account := AccountOf(outputs[index]);
            var min := AllottingMin(allotted, was, account, issuer, cost);
            var rest := Remaining(available, WithAllotments(ChargesOf(outputs), min)).value;
            var after := Remaining(available, WithAllotments(
              ChargesOf(outputs[index := Credited(outputs[index], ToStore(rest, account))]), min));
            && after.Some?
            && after.value.Total() == NotStoredAfterMin(was, account, issuer, cost)
  {
    hide *;
    var was := Remaining(available, WithAllotments(ChargesOf(outputs), allotted)).value;
    var account := AccountOf(outputs[index]);
    var min := AllottingMin(allotted, was, account, issuer, cost);
    var rest := Remaining(available, WithAllotments(ChargesOf(outputs), min)).value;
    RestAfterMin(available, ChargesOf(outputs), allotted, account, issuer, cost);
    OnlyAccountLeft(was, account, issuer, cost, rest.bound);
    StoredRemains(available, outputs, min, index);
    StoredFits(available, outputs, min, index);
  }

  // ---------- The procedure as a whole ----------

  /** What outputs and allotments leave of the available mana; None if there is not enough. */
  ghost function LeftBy(available: Option<Balances>, debits: seq<Debit>, allotted: map<AccountID, nat>)
    : Option<Balances>
  {
    if available.None? then None else Remaining(available.value, WithAllotments(ChargesOf(debits), allotted))
  }

  /** The account whose mana the output at `index` holds, the empty one if its mana is not locked. */
  function AccountAt(debits: seq<Debit>, index: nat): AccountID {
    if index < |debits| then AccountOf(debits[index]) else EMPTY_ACCOUNT_ID
  }

  /** The allotments after the bound mana, except that of the output's account, is allotted. */
  ghost function BoundAllotments(available: Option<Balances>, debits: seq<Debit>, allotted: map<AccountID, Mana>,
      index: nat): map<AccountID, Mana>
  {
    var was := LeftBy(available, debits, allotted);
    if was.None? then allotted else AllottingBound(allotted, was.value, [AccountAt(debits, index)])
  }

  /** The allotments after also the issuer's cost is allotted. */
  ghost function MinAllotments(available: Option<Balances>, debits: seq<Debit>, allotted: map<AccountID, Mana>,
      index: nat, issuer: AccountID, cost: Mana): map<AccountID, Mana>
  {
    var was := LeftBy(available, debits, allotted);
    if was.None? then allotted else AllottingMin(allotted, was.value, AccountAt(debits, index), issuer, cost)
  }

  lemma BoundAllotmentsAre(available: Option<Balances>, debits: seq<Debit>, allotted: map<AccountID, Mana>, index: nat)
    ensures var was := LeftBy(available, debits, allotted);
            BoundAllotments(available, debits, allotted, index)
            == if was.None? then allotted else AllottingBound(allotted, was.value, [AccountAt(debits, index)])
  {
  }

  lemma MinAllotmentsAre(available: Option<Balances>, debits: seq<Debit>, allotted: map<AccountID, Mana>, index: nat,
      issuer: AccountID, cost: Mana)
    ensures var was := LeftBy(available, debits, allotted);
            && MinAllotments(available, debits, allotted, index, issuer, cost)
               == (if was.None? then allotted
                   else AllottingMin(allotted, was.value, AccountAt(debits, index), issuer, cost))
            && (MinFits(available, debits, allotted, index, issuer, cost) <==>
                  was.Some? && LeftBy(available, debits, MinAllotments(available, debits, allotted, index, issuer, cost)).Some?)
  {
  }

  /** There is enough mana for the outputs, the allotments, the bound mana of other accounts and the cost. */
  ghost predicate MinFits(available: Option<Balances>, debits: seq<Debit>, allotted: map<AccountID, Mana>, index: nat,
      issuer: AccountID, cost: Mana)
  {
    && LeftBy(available, debits, allotted).Some?
    && LeftBy(available, debits, MinAllotments(available, debits, allotted, index, issuer, cost)).Some?
  }

  /** The issuer gets at least the cost exactly if the cost fits on top of what it was allotted before. */
  ghost predicate PaysIssuer(allotted: map<AccountID, Mana>, after: map<AccountID, Mana>, issuer: AccountID, cost: Mana) {
    Amount(after, issuer) >= cost <==> IssuerFits(allotted, issuer, cost)
  }

  /** If the issuer's allotment and the available mana fit 64 bits, nothing remains but mana of the empty
      account that is neither stored nor needed for the cost. */
  ghost predicate LeavesLittle(available: Option<Balances>, debits: seq<Debit>, allotted: map<AccountID, Mana>,
      index: nat, issuer: AccountID, cost: Mana, rest: Option<Balances>)
  {
    var was := LeftBy(available, debits, allotted);
    was.Some? && available.value.Total() < TWO_TO_THE_64 && IssuerFits(allotted, issuer, cost) ==>
      rest.Some? && rest.value.Total() == NotStoredAfterMin(was.value, AccountAt(debits, index), issuer, cost)
  }

  /** What the issuer's allotment means for the issuer and for what remains after storing the rest. */
  lemma MinMeans(available: Option<Balances>, debits: seq<Debit>, allotted: map<AccountID, Mana>, index: nat,
      issuer: AccountID, cost: Mana)
    requires available.Some? ==> forall a :: a in available.value.bound ==> available.value.bound[a] < TWO_TO_THE_64
    requires MinFits(available, debits, allotted, index, issuer, cost) && index < |debits|
    ensures var min := MinAllotments(available, debits, allotted, index, issuer, cost);
            var stored := Credited(debits[index], ToStore(LeftBy(available, debits, min).value, AccountAt(debits, index)));
            && PaysIssuer(allotted, min, issuer, cost)
            && LeavesLittle(available, debits, allotted, index, issuer, cost,
                            LeftBy(available, debits[index := stored], min))
  {
    hide Remaining, WithAllotments, ChargesOf, AllottingMin, ToStore, Credited, AccountOf, NotStoredAfterMin, IssuerFits,
         OwnMana;
    IssuerGets(available.value, ChargesOf(debits), allotted, AccountAt(debits, index), issuer, cost);
    if available.value.Total() < TWO_TO_THE_64 && IssuerFits(allotted, issuer, cost) {
      StoredAfterMin(available.value, debits, allotted, index, issuer, cost);
    }
  }
}
