/** The context inputs of a transaction and their order (input_context.go and the Compare methods). */
module ContextInputs {
  import opened Common
  import opened Words
  import opened Outputs

  datatype ContextInput =
    | CommitmentInput(commitmentID: Bytes)
    | BlockIssuanceCreditInput(accountID: AccountID)
    | RewardInput(index: uint16)
  {
    /** Ordered by type, then by account or index; any two commitments are alike. */
    predicate Before(other: ContextInput) {
      match this
      case CommitmentInput(_) => !other.CommitmentInput?
      case BlockIssuanceCreditInput(a) =>
        other.RewardInput? || (other.BlockIssuanceCreditInput? && a.number < other.accountID.number)
      case RewardInput(i) => other.RewardInput? && i < other.index
    }
  }

  function InsertInput(x: ContextInput, sorted: seq<ContextInput>): seq<ContextInput> {
    if sorted == [] || !sorted[0].Before(x) then [x] + sorted
    else [sorted[0]] + InsertInput(x, sorted[1..])
  }

  function SortedInputs(contextInputs: seq<ContextInput>): seq<ContextInput> {
    if contextInputs == [] then [] else InsertInput(contextInputs[0], SortedInputs(contextInputs[1..]))
  }

  /** No context input comes before an earlier one. */
  ghost predicate InOrder(contextInputs: seq<ContextInput>) {
    forall i, j :: 0 <= i < j < |contextInputs| ==> !contextInputs[j].Before(contextInputs[i])
  }

  ghost predicate NoneBefore(x: ContextInput, contextInputs: seq<ContextInput>) {
    forall j :: 0 <= j < |contextInputs| ==> !contextInputs[j].Before(x)
  }

  lemma InOrderPrepend(x: ContextInput, sorted: seq<ContextInput>)
    requires InOrder(sorted) && NoneBefore(x, sorted)
    ensures InOrder([x] + sorted)
  {
  }

  lemma {:induction false} InsertInputElements(x: ContextInput, sorted: seq<ContextInput>)
    ensures multiset(InsertInput(x, sorted)) == multiset{x} + multiset(sorted)
  {
    if sorted != [] && sorted[0].Before(x) {
      InsertInputElements(x, sorted[1..]);
      assert sorted == [sorted[0]] + sorted[1..];
    }
  }

  lemma {:induction false} InsertInputInOrder(x: ContextInput, sorted: seq<ContextInput>)
    requires InOrder(sorted)
    ensures InOrder(InsertInput(x, sorted))
  {
    if sorted == [] || !sorted[0].Before(x) {
      InOrderPrepend(x, sorted);
    } else {
      var inserted := InsertInput(x, sorted[1..]);
      InsertInputInOrder(x, sorted[1..]);
      forall j | 0 <= j < |inserted|
        ensures !inserted[j].Before(sorted[0])
      {
        InsertInputElements(x, sorted[1..]);
        assert inserted[j] in multiset(inserted);
        assert inserted[j] == x || inserted[j] in sorted[1..];
      }
      InOrderPrepend(sorted[0], inserted);
    }
  }

  /** Sorting context inputs is a permutation in lexical order. */
  lemma {:induction false} SortedInputsMeans(contextInputs: seq<ContextInput>)
    ensures InOrder(SortedInputs(contextInputs))
    ensures multiset(SortedInputs(contextInputs)) == multiset(contextInputs)
  {
    if contextInputs != [] {
      SortedInputsMeans(contextInputs[1..]);
      InsertInputInOrder(contextInputs[0], SortedInputs(contextInputs[1..]));
      InsertInputElements(contextInputs[0], SortedInputs(contextInputs[1..]));
      assert contextInputs == [contextInputs[0]] + contextInputs[1..];
    }
  }

  /** Sorting again changes nothing. */
  lemma {:induction false} SortedInputsAgain(contextInputs: seq<ContextInput>)
    requires InOrder(contextInputs)
    ensures SortedInputs(contextInputs) == contextInputs
  {
    if contextInputs != [] {
      SortedInputsAgain(contextInputs[1..]);
      assert contextInputs == [contextInputs[0]] + contextInputs[1..];
    }
  }

  /** The place of a context input's type in the order. */
  ghost function Rank(c: ContextInput): nat {
    match c
    case CommitmentInput(_) => 0
    case BlockIssuanceCreditInput(_) => 1
    case RewardInput(_) => 2
  }

  /** Sorted context inputs are commitments, then block issuance credits in the order of their accounts, then
      rewards in the order of their indices. */
  lemma SortedInputsByRank(contextInputs: seq<ContextInput>, i: nat, j: nat)
    requires i < j < |SortedInputs(contextInputs)|
    ensures
      var c, d := SortedInputs(contextInputs)[i], SortedInputs(contextInputs)[j];
      && Rank(c) <= Rank(d)
      && (c.BlockIssuanceCreditInput? && d.BlockIssuanceCreditInput? ==> c.accountID.number <= d.accountID.number)
      && (c.RewardInput? && d.RewardInput? ==> c.index <= d.index)
  {
    SortedInputsMeans(contextInputs);
    hide SortedInputs;
    var c, d := SortedInputs(contextInputs)[i], SortedInputs(contextInputs)[j];
    assert !d.Before(c);
  }

  /** Nothing but an input of an earlier type, account or index comes before another one. */
  lemma BeforeMeans(c: ContextInput, d: ContextInput)
    ensures c.Before(d) <==>
      || Rank(c) < Rank(d)
      || (c.BlockIssuanceCreditInput? && d.BlockIssuanceCreditInput? && c.accountID.number < d.accountID.number)
      || (c.RewardInput? && d.RewardInput? && c.index < d.index)
  {
  }
}
