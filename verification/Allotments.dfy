/** The allotments of a transaction, as a list and as a map, and how they are charged. */
module Allotments {
  import opened Common
  import opened Words
  import opened Outputs
  import opened Totals
  import opened ManaLedger

  datatype Allotment = Allotment(accountID: AccountID, mana: Mana)

  /** No account has two allotments. */
  ghost predicate Distinct(allotments: seq<Allotment>) {
    forall i, j :: 0 <= i < j < |allotments| ==> allotments[i].accountID != allotments[j].accountID
  }

  function AllotmentMap(allotments: seq<Allotment>): map<AccountID, Mana> {
    if allotments == [] then map[]
    else
      var last := allotments[|allotments| - 1];
      AllotmentMap(allotments[..|allotments| - 1])[last.accountID := last.mana]
  }

  function AllotmentDebit(a: Allotment): Debit {
    Debit(Some(a.accountID), a.mana)
  }

  function AllotmentDebits(allotments: seq<Allotment>): seq<Debit> {
    seq(|allotments|, i requires 0 <= i < |allotments| => AllotmentDebit(allotments[i]))
  }

  lemma {:induction false} AllotmentMapKeys(allotments: seq<Allotment>, a: AccountID)
    ensures a in AllotmentMap(allotments) <==> exists i :: 0 <= i < |allotments| && allotments[i].accountID == a
  {
    if allotments != [] {
      AllotmentMapKeys(allotments[..|allotments| - 1], a);
    }
  }

  /** The map holds what every allotment says. */
  lemma {:induction false} AllotmentMapHolds(allotments: seq<Allotment>, i: nat)
    requires Distinct(allotments) && i < |allotments|
    ensures allotments[i].accountID in AllotmentMap(allotments)
    ensures AllotmentMap(allotments)[allotments[i].accountID] == allotments[i].mana
  {
    if i < |allotments| - 1 {
      AllotmentMapHolds(allotments[..|allotments| - 1], i);
    }
  }

  lemma {:induction false} AllotmentMapUpdate(allotments: seq<Allotment>, i: nat, mana: Mana)
    requires Distinct(allotments) && i < |allotments|
    ensures AllotmentMap(allotments[i := Allotment(allotments[i].accountID, mana)])
         == AllotmentMap(allotments)[allotments[i].accountID := mana]
  {
    var init := allotments[..|allotments| - 1];
    var updated := allotments[i := Allotment(allotments[i].accountID, mana)];
    if i < |allotments| - 1 {
      AllotmentMapUpdate(init, i, mana);
      assert updated[..|updated| - 1] == init[i := Allotment(init[i].accountID, mana)];
    } else {
      assert updated[..|updated| - 1] == init;
    }
  }

  /** An amount as the machine stores it. */
  function Wrapped(amount: nat): Mana {
    amount % TWO_TO_THE_64
  }

  /** Increasing one allotment; increasing by 0 adds no entry. */
  function Increased(m: map<AccountID, Mana>, a: AccountID, value: nat): map<AccountID, Mana> {
    if value == 0 then m else m[a := Wrapped(Amount(m, a) + value)]
  }

  /** Increasing the allotments of many accounts, in any order. */
  function IncreasedAll(m: map<AccountID, Mana>, amounts: map<AccountID, nat>): map<AccountID, Mana> {
    map a | a in m.Keys + amounts.Keys && (a in m || amounts[a] != 0) ::
      if Amount(amounts, a) == 0 then m[a] else Wrapped(Amount(m, a) + amounts[a])
  }

  lemma IncreasedAllStep(m: map<AccountID, Mana>, amounts: map<AccountID, nat>, a: AccountID, value: nat)
    requires a !in amounts
    ensures Increased(IncreasedAll(m, amounts), a, value) == IncreasedAll(m, amounts[a := value])
  {
    hide Wrapped;
    var stepped, all := Increased(IncreasedAll(m, amounts), a, value), IncreasedAll(m, amounts[a := value]);
    forall k
      ensures k in stepped <==> k in all
      ensures k in all ==> stepped[k] == all[k]
    {
      if k == a {
        assert amounts[a := value][k] == value;
      } else {
        assert k in amounts[a := value] <==> k in amounts;
      }
    }
    hide Increased, IncreasedAll;
  }

  /** The first allotment of `a`, or the end of the list. */
  function IndexOf(allotments: seq<Allotment>, a: AccountID): (i: nat)
    ensures i <= |allotments|
    ensures i < |allotments| ==> allotments[i].accountID == a
    ensures forall j :: 0 <= j < i ==> allotments[j].accountID != a
  {
    if allotments == [] || allotments[0].accountID == a then 0 else 1 + IndexOf(allotments[1..], a)
  }

  function Increase(allotments: seq<Allotment>, a: AccountID, value: Mana): seq<Allotment> {
    var i := IndexOf(allotments, a);
    if value == 0 then allotments
    else if i < |allotments| then allotments[i := Allotment(a, Wrapped(allotments[i].mana + value))]
    else allotments + [Allotment(a, value)]
  }

  lemma DistinctAfterUpdate(allotments: seq<Allotment>, i: nat, mana: Mana)
    requires Distinct(allotments) && i < |allotments|
    ensures Distinct(allotments[i := Allotment(allotments[i].accountID, mana)])
  {
  }

  lemma DistinctAfterAppend(allotments: seq<Allotment>, added: Allotment)
    requires Distinct(allotments) && IndexOf(allotments, added.accountID) == |allotments|
    ensures Distinct(allotments + [added])
  {
  }

  lemma AllotmentMapAppend(allotments: seq<Allotment>, added: Allotment)
    requires IndexOf(allotments, added.accountID) == |allotments|
    ensures added.accountID !in AllotmentMap(allotments)
    ensures AllotmentMap(allotments + [added]) == AllotmentMap(allotments)[added.accountID := added.mana]
  {
    hide IndexOf;
    AllotmentMapKeys(allotments, added.accountID);
    var all := allotments + [added];
    assert all[..|all| - 1] == allotments;
    assert all[|all| - 1] == added;
  }

  lemma IncreaseMeans(allotments: seq<Allotment>, a: AccountID, value: Mana)
    requires Distinct(allotments)
    ensures Distinct(Increase(allotments, a, value))
    ensures AllotmentMap(Increase(allotments, a, value)) == Increased(AllotmentMap(allotments), a, value)
  {
    hide Distinct, AllotmentMap;
    var i := IndexOf(allotments, a);
    if i < |allotments| {
      AllotmentMapHolds(allotments, i);
      var mana := Wrapped(allotments[i].mana + value);
      AllotmentMapUpdate(allotments, i, mana);
      DistinctAfterUpdate(allotments, i, mana);
    } else {
      hide Wrapped;
      DistinctAfterAppend(allotments, Allotment(a, value));
      AllotmentMapAppend(allotments, Allotment(a, value));
      assert Wrapped(value) == value by {
        WrappedSmall(value);
      }
    }
  }

  lemma WrappedSmall(amount: nat)
    requires amount < TWO_TO_THE_64
    ensures Wrapped(amount) == amount
  {
  }

  function Insert(x: Allotment, sorted: seq<Allotment>): seq<Allotment> {
    if sorted == [] || x.accountID.number < sorted[0].accountID.number then [x] + sorted
    else [sorted[0]] + Insert(x, sorted[1..])
  }

  /** The allotments in the order of their account IDs. */
  function Sorted(allotments: seq<Allotment>): seq<Allotment> {
    if allotments == [] then [] else Insert(allotments[0], Sorted(allotments[1..]))
  }

  ghost predicate Ascending(allotments: seq<Allotment>) {
    forall i, j :: 0 <= i < j < |allotments| ==> allotments[i].accountID.number <= allotments[j].accountID.number
  }

  lemma PrependedElements(x: Allotment, allotments: seq<Allotment>)
    ensures multiset([x] + allotments) == multiset{x} + multiset(allotments)
  {
  }

  lemma {:induction false} InsertElements(x: Allotment, sorted: seq<Allotment>)
    ensures multiset(Insert(x, sorted)) == multiset{x} + multiset(sorted)
  {
    if sorted == [] || x.accountID.number < sorted[0].accountID.number {
      PrependedElements(x, sorted);
    } else {
      var first, rest := sorted[0], sorted[1..];
      InsertElements(x, rest);
      PrependedElements(first, Insert(x, rest));
      PrependedElements(first, rest);
      assert sorted == [first] + rest;
    }
  }

  ghost predicate AtMostAll(x: Allotment, allotments: seq<Allotment>) {
    forall j :: 0 <= j < |allotments| ==> x.accountID.number <= allotments[j].accountID.number
  }

  lemma AscendingPrepend(x: Allotment, sorted: seq<Allotment>)
    requires Ascending(sorted) && AtMostAll(x, sorted)
    ensures Ascending([x] + sorted)
  {
  }

  lemma {:induction false} InsertAscending(x: Allotment, sorted: seq<Allotment>)
    requires Ascending(sorted)
    ensures Ascending(Insert(x, sorted))
  {
    if sorted == [] || x.accountID.number < sorted[0].accountID.number {
      AscendingPrepend(x, sorted);
    } else {
      var inserted := Insert(x, sorted[1..]);
      InsertAscending(x, sorted[1..]);
      forall j | 0 <= j < |inserted|
        ensures sorted[0].accountID.number <= inserted[j].accountID.number
      {
        InsertElements(x, sorted[1..]);
        assert inserted[j] in multiset(inserted);
        assert inserted[j] == x || inserted[j] in sorted[1..];
      }
      AscendingPrepend(sorted[0], inserted);
    }
  }

  lemma {:induction false} SortedMeans(allotments: seq<Allotment>)
    ensures Ascending(Sorted(allotments))
    ensures multiset(Sorted(allotments)) == multiset(allotments)
  {
    if allotments != [] {
      SortedMeans(allotments[1..]);
      InsertAscending(allotments[0], Sorted(allotments[1..]));
      InsertElements(allotments[0], Sorted(allotments[1..]));
      assert allotments == [allotments[0]] + allotments[1..];
    }
  }

  /** Sorting changes neither the allotments nor their map. */
  lemma SortedKeeps(allotments: seq<Allotment>)
    requires Distinct(allotments)
    ensures Distinct(Sorted(allotments))
    ensures AllotmentMap(Sorted(allotments)) == AllotmentMap(allotments)
  {
    SortedMeans(allotments);
    hide Sorted;
    var sorted := Sorted(allotments);
    PermutedDistinct(allotments, sorted);
    forall a
      ensures a in AllotmentMap(sorted) <==> a in AllotmentMap(allotments)
      ensures a in AllotmentMap(sorted) ==> AllotmentMap(sorted)[a] == AllotmentMap(allotments)[a]
    {
      PermutedMap(allotments, sorted, a);
      PermutedMap(sorted, allotments, a);
    }
    hide AllotmentMap;
  }

  lemma DistinctOccurOnce(allotments: seq<Allotment>, k: nat)
    requires Distinct(allotments) && k < |allotments|
    ensures allotments[k] !in multiset(allotments) - multiset{allotments[k]}
  {
    var rest := allotments[..k] + allotments[k + 1..];
    RemoveOne(allotments, k);
    forall l | 0 <= l < |rest|
      ensures rest[l] != allotments[k]
    {
      assert rest[l] == if l < k then allotments[l] else allotments[l + 1];
    }
    assert allotments[k] !in multiset(rest);
  }

  lemma PermutedDistinct(allotments: seq<Allotment>, others: seq<Allotment>)
    requires Distinct(allotments) && multiset(allotments) == multiset(others)
    ensures Distinct(others)
  {
    forall i, j | 0 <= i < j < |others|
      ensures others[i].accountID != others[j].accountID
    {
      assert others[i] in multiset(allotments) && others[j] in multiset(allotments);
      var k :| 0 <= k < |allotments| && allotments[k] == others[i];
      var l :| 0 <= l < |allotments| && allotments[l] == others[j];
      DistinctOccurOnce(allotments, l);
      RemoveOne(others, j);
      assert (others[..j] + others[j + 1..])[i] == others[i];
      assert k != l;
    }
  }

  lemma PermutedMap(allotments: seq<Allotment>, others: seq<Allotment>, a: AccountID)
    requires Distinct(allotments) && Distinct(others) && multiset(allotments) == multiset(others)
    ensures a in AllotmentMap(allotments) ==>
      a in AllotmentMap(others) && AllotmentMap(others)[a] == AllotmentMap(allotments)[a]
  {
    AllotmentMapKeys(allotments, a);
    if a in AllotmentMap(allotments) {
      var i :| 0 <= i < |allotments| && allotments[i].accountID == a;
      assert allotments[i] in multiset(others);
      var j :| 0 <= j < |others| && others[j] == allotments[i];
      AllotmentMapHolds(allotments, i);
      AllotmentMapHolds(others, j);
    }
  }

  // ---------- Charging outputs and allotments together ----------

  function Summed(m: map<AccountID, nat>, n: map<AccountID, nat>): map<AccountID, nat> {
    map a | a in m.Keys + n.Keys :: Amount(m, a) + Amount(n, a)
  }

  function WithAllotments(outputs: Charges, allotted: map<AccountID, nat>): Charges {
    Charges(outputs.unlocked, Summed(outputs.accounts, allotted))
  }

  lemma {:induction false} ChargesWithAllotments(outputs: seq<Debit>, allotments: seq<Allotment>)
    requires Distinct(allotments)
    ensures ChargesOf(outputs + AllotmentDebits(allotments)) == WithAllotments(ChargesOf(outputs), AllotmentMap(allotments))
  {
    if allotments == [] {
      assert outputs + AllotmentDebits(allotments) == outputs;
      assert Summed(ChargesOf(outputs).accounts, map[]) == ChargesOf(outputs).accounts;
    } else {
      var init, last := allotments[..|allotments| - 1], allotments[|allotments| - 1];
      var all := outputs + AllotmentDebits(allotments);
      ChargesWithAllotments(outputs, init);
      assert all[..|all| - 1] == outputs + AllotmentDebits(init);
      assert all[|all| - 1] == AllotmentDebit(last);
      AllotmentMapKeys(init, last.accountID);
      hide AllotmentDebits;
      OneMoreAllotment(ChargesOf(outputs), AllotmentMap(init), last);
    }
  }

  lemma OneMoreAllotment(outputs: Charges, allotted: map<AccountID, Mana>, last: Allotment)
    requires last.accountID !in allotted
    ensures Charge(WithAllotments(outputs, allotted), AllotmentDebit(last))
         == WithAllotments(outputs, allotted[last.accountID := last.mana])
  {
  }

  lemma WithAllotmentsTotal(outputs: Charges, allotted: map<AccountID, nat>)
    ensures WithAllotments(outputs, allotted).Total() == outputs.Total() + MapTotal(allotted)
  {
    MapTotalSum(outputs.accounts, allotted, Summed(outputs.accounts, allotted));
  }

  // ---------- Allotting what is left of bound mana ----------

  /** The bound amounts that are not in `part`. */
  function Without(left: map<AccountID, nat>, part: map<AccountID, nat>): map<AccountID, nat> {
    map a | a in left :: if a in part then 0 else left[a]
  }

  ghost predicate PartOf(part: map<AccountID, nat>, left: map<AccountID, nat>) {
    forall a :: a in part ==> a in left && part[a] == left[a]
  }

  /** Allotting bound mana to its own accounts never wraps around and leaves the unbound mana as it is. */
  lemma AllotBound(available: Balances, outputs: Charges, allotted: map<AccountID, Mana>, part: map<AccountID, nat>)
    requires forall a :: a in available.bound ==> available.bound[a] < TWO_TO_THE_64
    requires PartOf(part, BoundLeft(available, WithAllotments(outputs, allotted)))
    ensures var charges := WithAllotments(outputs, allotted);
            var after := WithAllotments(outputs, IncreasedAll(allotted, part));
            && (forall a :: Amount(IncreasedAll(allotted, part), a) == Amount(allotted, a) + Amount(part, a))
            && BoundLeft(available, after) == Without(BoundLeft(available, charges), part)
            && UnboundLeft(available, after) == UnboundLeft(available, charges)
  {
    var charges := WithAllotments(outputs, allotted);
    var increased := IncreasedAll(allotted, part);
    var after := WithAllotments(outputs, increased);
    var left := BoundLeft(available, charges);
    AllotBoundAmounts(available, outputs, allotted, part);
    AllotBoundLeft(available, outputs, allotted, part, increased);
    hide BoundLeft, UnboundLeft, IncreasedAll, WithAllotments;
    MapTotalSum(allotted, part, increased);
    MapTotalSum(Without(left, part), part, left);
    WithAllotmentsTotal(outputs, allotted);
    WithAllotmentsTotal(outputs, increased);
    ChargingConserves(available, charges);
    ChargingConserves(available, after);
  }

  lemma AllotBoundAmounts(available: Balances, outputs: Charges, allotted: map<AccountID, Mana>, part: map<AccountID,
      nat>)
    requires forall a :: a in available.bound ==> available.bound[a] < TWO_TO_THE_64
    requires PartOf(part, BoundLeft(available, WithAllotments(outputs, allotted)))
    ensures forall a :: Amount(IncreasedAll(allotted, part), a) == Amount(allotted, a) + Amount(part, a)
  {
  }

  lemma AllotBoundLeft(available: Balances, outputs: Charges, allotted: map<AccountID, Mana>, part: map<AccountID, nat>,
      increased: map<AccountID, Mana>)
    requires PartOf(part, BoundLeft(available, WithAllotments(outputs, allotted)))
    requires forall a :: Amount(increased, a) == Amount(allotted, a) + Amount(part, a)
    ensures BoundLeft(available, WithAllotments(outputs, increased))
         == Without(BoundLeft(available, WithAllotments(outputs, allotted)), part)
  {
    forall a | a in available.bound
      ensures BoundLeft(available, WithAllotments(outputs, increased))[a]
           == Without(BoundLeft(available, WithAllotments(outputs, allotted)), part)[a]
    {
      assert Amount(increased, a) == Amount(allotted, a) + Amount(part, a);
    }
  }

  lemma TotalWithout(left: map<AccountID, nat>, part: map<AccountID, nat>)
    requires PartOf(part, left)
    ensures MapTotal(Without(left, part)) == MapTotal(left) - MapTotal(part)
  {
    MapTotalSum(Without(left, part), part, left);
  }

  // ---------- Charging less ----------

  /** The unbound and all bound mana that is left, together. */
  ghost function LeftOver(available: Balances, charges: Charges): int {
    UnboundLeft(available, charges) + MapTotal(BoundLeft(available, charges))
  }

  /** `less` charges `short` less than `more` to `account`. */
  ghost predicate ShortBy(more: Charges, less: Charges, account: Option<AccountID>, short: nat) {
    forall other :: ChargeAmount(more, other) == ChargeAmount(less, other) + if other == account then short else 0
  }

  /** What is charged less is left over. */
  lemma WrappedCharge(available: Balances, more: Charges, less: Charges, account: Option<AccountID>, short: nat)
    requires UnboundLeft(available, more) >= 0
    requires ShortBy(more, less, account, short)
    ensures UnboundLeft(available, less) >= UnboundLeft(available, more)
    ensures LeftOver(available, less) == LeftOver(available, more) + short
  {
    ChargesPointwise(more, less, account, short);
    ChargingMonotone(available, less, more);
    ChargingConserves(available, less);
    ChargingConserves(available, more);
    ShortTotal(more, less, account, short);
  }

  lemma ChargesPointwise(more: Charges, less: Charges, account: Option<AccountID>, short: nat)
    requires ShortBy(more, less, account, short)
    ensures less.unlocked <= more.unlocked
    ensures forall a :: Amount(less.accounts, a) <= Amount(more.accounts, a)
  {
    assert ChargeAmount(more, None) >= ChargeAmount(less, None);
    forall a
      ensures Amount(less.accounts, a) <= Amount(more.accounts, a)
    {
      assert ChargeAmount(more, Some(a)) >= ChargeAmount(less, Some(a));
    }
  }

  lemma ShortTotal(more: Charges, less: Charges, account: Option<AccountID>, short: nat)
    requires ShortBy(more, less, account, short)
    ensures more.Total() == less.Total() + short
  {
    var shortMap: map<AccountID, nat> := if account.Some? then map[account.value := short] else map[];
    assert ChargeAmount(more, None) == ChargeAmount(less, None) + if None == account then short else 0;
    forall a
      ensures Amount(more.accounts, a) == Amount(less.accounts, a) + Amount(shortMap, a)
    {
      assert ChargeAmount(more, Some(a)) == ChargeAmount(less, Some(a)) + if Some(a) == account then short else 0;
    }
    MapTotalSum(less.accounts, shortMap, more.accounts);
    if account.Some? {
      MapTotalRemove(shortMap, account.value);
      assert shortMap - {account.value} == map[];
    }
  }
}
