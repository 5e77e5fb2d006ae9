/** The unlocks the transaction builder generates (builder/transaction_builder.go), and why the
    unlock validator accepts them. */
module BuilderUnlocks {
  import opened Common
  import opened Words
  import opened Outputs
  import opened UnlockValidator

  /** An address signer; None is an error. */
  datatype Signer = Signer(
    uidFor: Address -> Option<Identifier>,
    sign: (Address, Bytes) -> Option<Signature>,
    emptySignatureFor: Address -> Option<Signature>)

  /** Either signing a fixed message, or making empty signatures. */
  type SignFunction = Address -> Option<Signature>

  function SignFunctionOf(signer: Signer, signEssence: bool, message: Bytes): SignFunction {
    if signEssence then a => signer.sign(a, message) else signer.emptySignatureFor
  }

  /** A consumed output with the address that must be unlocked to spend it. */
  datatype SpentInput = SpentInput(unlockTarget: Address, output: Output)
  {
    /** The address behind the unlock target; only one level of restriction is looked through. */
    function Owner(): Address {
      if unlockTarget.RestrictedAddress? then unlockTarget.underlying else unlockTarget
    }

    predicate SignedWith(uidFor: Address -> Option<Identifier>, uid: Identifier) {
      Owner().IsDirectUnlockable() && uidFor(Owner()) == Some(uid)
    }
  }

  // ---------- What the bookkeeping maps hold ----------

  /** The last input that is the chain with this address. */
  function LastChain(inputs: seq<SpentInput>, chain: Address): Option<nat> {
    if inputs == [] then None
    else if inputs[|inputs| - 1].output.Chain() == Some(chain) then Some(|inputs| - 1)
    else LastChain(inputs[..|inputs| - 1], chain)
  }

  lemma {:induction false} LastChainMeans(inputs: seq<SpentInput>, chain: Address)
    ensures var r := LastChain(inputs, chain);
            && (r.Some? ==> r.value < |inputs| && inputs[r.value].output.Chain() == Some(chain))
            && (forall j :: (if r.Some? then r.value else -1) < j < |inputs| ==> inputs[j].output.Chain() != Some(chain))
  {
    if inputs != [] {
      LastChainMeans(inputs[..|inputs| - 1], chain);
    }
  }

  /** The first input whose owner signs with this signer. */
  function FirstSigned(uidFor: Address -> Option<Identifier>, inputs: seq<SpentInput>, uid: Identifier): Option<nat> {
    if inputs == [] then None
    else
      var earlier := FirstSigned(uidFor, inputs[..|inputs| - 1], uid);
      if earlier.Some? then earlier
      else if inputs[|inputs| - 1].SignedWith(uidFor, uid) then Some(|inputs| - 1)
      else None
  }

  lemma {:induction false} FirstSignedMeans(uidFor: Address -> Option<Identifier>, inputs: seq<SpentInput>,
      uid: Identifier)
    ensures var r := FirstSigned(uidFor, inputs, uid);
            && (r.Some? ==> r.value < |inputs| && inputs[r.value].SignedWith(uidFor, uid))
            && (forall j :: 0 <= j < (if r.Some? then r.value else |inputs|) ==> !inputs[j].SignedWith(uidFor, uid))
  {
    if inputs != [] {
      FirstSignedMeans(uidFor, inputs[..|inputs| - 1], uid);
    }
  }

  function Lookup<K, V>(m: map<K, V>, k: K): Option<V> {
    if k in m then Some(m[k]) else None
  }

  ghost predicate HoldsChains(unlockedChains: map<Address, nat>, inputs: seq<SpentInput>) {
    forall chain :: LastChain(inputs, chain) == Lookup(unlockedChains, chain)
  }

  ghost predicate HoldsSigners(signerUIDs: map<Identifier, nat>, uidFor: Address -> Option<Identifier>,
      inputs: seq<SpentInput>)
  {
    forall uid :: FirstSigned(uidFor, inputs, uid) == Lookup(signerUIDs, uid)
  }

  function WithChain(unlockedChains: map<Address, nat>, output: Output, index: nat): map<Address, nat> {
    match output.Chain()
    case Some(chain) => unlockedChains[chain := index]
    case None => unlockedChains
  }

  lemma OneMoreChain(unlockedChains: map<Address, nat>, before: seq<SpentInput>, input: SpentInput)
    requires HoldsChains(unlockedChains, before)
    ensures HoldsChains(WithChain(unlockedChains, input.output, |before|), before + [input])
  {
    var all := before + [input];
    assert all[..|all| - 1] == before;
    forall chain
      ensures LastChain(all, chain) == Lookup(WithChain(unlockedChains, input.output, |before|), chain)
    {
      assert LastChain(before, chain) == Lookup(unlockedChains, chain);
    }
  }

  /** A signer is remembered at its first input. */
  function WithSigner(signerUIDs: map<Identifier, nat>, uidFor: Address -> Option<Identifier>, owner: Address,
      index: nat): map<Identifier, nat>
  {
    if owner.IsDirectUnlockable() && uidFor(owner).Some? && uidFor(owner).value !in signerUIDs then
      signerUIDs[uidFor(owner).value := index]
    else
      signerUIDs
  }

  lemma OneMoreSigner(signerUIDs: map<Identifier, nat>, uidFor: Address -> Option<Identifier>,
      before: seq<SpentInput>, input: SpentInput)
    requires HoldsSigners(signerUIDs, uidFor, before)
    ensures HoldsSigners(WithSigner(signerUIDs, uidFor, input.Owner(), |before|), uidFor, before + [input])
  {
    var all := before + [input];
    assert all[..|all| - 1] == before;
    forall uid
      ensures FirstSigned(uidFor, all, uid) == Lookup(WithSigner(signerUIDs, uidFor, input.Owner(), |before|), uid)
    {
      assert FirstSigned(uidFor, before, uid) == Lookup(signerUIDs, uid);
    }
  }

  function ReferenceKindFor(owner: Address): ReferenceKind {
    match owner
    case AccountAddress(_) => AccountUnlock
    case AnchorAddress(_) => AnchorUnlock
    case NFTAddress(_) => NFTUnlock
    case _ => ReferenceUnlock
  }

  /** The unlock of `input` after the inputs `before`; None where building fails. */
  function UnlockFor(uidFor: Address -> Option<Identifier>, sign: SignFunction, before: seq<SpentInput>,
      input: SpentInput): Option<Unlock>
  {
    var owner := input.Owner();
    if owner.IsChain() then
      match LastChain(before, owner)
      case None => None
      case Some(j) => Some(Referential(ReferenceKindFor(owner), j % TWO_TO_THE_16))
    else if !owner.IsDirectUnlockable() || uidFor(owner).None? then None
    else
      match FirstSigned(uidFor, before, uidFor(owner).value)
      case Some(j) => Some(Referential(ReferenceKindFor(owner), j % TWO_TO_THE_16))
      case None => if sign(owner).None? then None else Some(SignatureUnlock(sign(owner)))
  }

  ghost predicate Built(uidFor: Address -> Option<Identifier>, sign: SignFunction, inputs: seq<SpentInput>,
      unlocks: seq<Unlock>)
  {
    && |unlocks| == |inputs|
    && forall i :: 0 <= i < |inputs| ==> UnlockFor(uidFor, sign, inputs[..i], inputs[i]) == Some(unlocks[i])
  }

  // ---------- Building ----------

  class UnlockedSet {
    var unlocks: seq<Unlock>
    var signerUIDs: map<Identifier, nat>
    var unlockedChains: map<Address, nat>

    /** The maps hold, for the inputs handled so far, where signers signed first and chains were
        unlocked last. */
    ghost predicate Describes(uidFor: Address -> Option<Identifier>, inputs: seq<SpentInput>)
      reads `signerUIDs, `unlockedChains
    {
      HoldsSigners(signerUIDs, uidFor, inputs) && HoldsChains(unlockedChains, inputs)
    }

    constructor ()
      ensures unlocks == [] && forall uidFor :: Describes(uidFor, [])
    {
      unlocks := [];
      signerUIDs := map[];
      unlockedChains := map[];
    }

    method AddUnlock(unlock: Unlock)
      modifies `unlocks
      ensures unlocks == old(unlocks) + [unlock]
    {
      unlocks := unlocks + [unlock];
    }

    method AddReferentialUnlock(owner: Address, referencedInputIndex: nat)
      modifies `unlocks
      ensures unlocks == old(unlocks) + [Referential(ReferenceKindFor(owner), referencedInputIndex % TWO_TO_THE_16)]
    {
      match owner
      case AccountAddress(_) =>
        AddUnlock(Referential(AccountUnlock, referencedInputIndex % TWO_TO_THE_16));
      case AnchorAddress(_) =>
        AddUnlock(Referential(AnchorUnlock, referencedInputIndex % TWO_TO_THE_16));
      case NFTAddress(_) =>
        AddUnlock(Referential(NFTUnlock, referencedInputIndex % TWO_TO_THE_16));
      case _ =>
        AddUnlock(Referential(ReferenceUnlock, referencedInputIndex % TWO_TO_THE_16));
    }

    method AddSignerUID(uid: Identifier, unlockedAtIndex: nat)
      modifies `signerUIDs
      ensures signerUIDs == old(signerUIDs)[uid := unlockedAtIndex]
    {
      signerUIDs := signerUIDs[uid := unlockedAtIndex];
    }

    method AddChainAsUnlocked(input: Output, unlockedAtIndex: nat)
      modifies `unlockedChains
      ensures unlockedChains == WithChain(old(unlockedChains), input, unlockedAtIndex)
    {
      if input.Chain().Some? {
        unlockedChains := unlockedChains[input.Chain().value := unlockedAtIndex];
      }
    }

    method IsChainUnlocked(chain: Address) returns (unlockedAtIndex: Option<nat>)
      ensures unlockedAtIndex == Lookup(unlockedChains, chain)
    {
      unlockedAtIndex := if chain in unlockedChains then Some(unlockedChains[chain]) else None;
    }

    /** One round of the loop over the inputs. */
    method UnlockInput(signer: Signer, sign: SignFunction, ghost before: seq<SpentInput>, inputIndex: nat,
        input: SpentInput) returns (ok: bool)
      requires Describes(signer.uidFor, before) && inputIndex == |before|
      modifies this
      ensures ok <==> UnlockFor(signer.uidFor, sign, before, input).Some?
      ensures ok ==> unlocks == old(unlocks) + [UnlockFor(signer.uidFor, sign, before, input).value]
      ensures ok ==> Describes(signer.uidFor, before + [input])
    {
      OneMoreChain(unlockedChains, before, input);
      OneMoreSigner(signerUIDs, signer.uidFor, before, input);
      var owner := input.Owner();
      assert LastChain(before, owner) == Lookup(unlockedChains, owner);
      assert forall uid :: FirstSigned(signer.uidFor, before, uid) == Lookup(signerUIDs, uid);
      hide LastChain, FirstSigned, HoldsChains, HoldsSigners, WithChain;
      if owner.IsChain() {
        var unlockedAt := IsChainUnlocked(owner);
        if unlockedAt.None? {
          return false;
        }
        AddReferentialUnlock(owner, unlockedAt.value);
        AddChainAsUnlocked(input.output, inputIndex);
        return true;
      }
      if !owner.IsDirectUnlockable() {
        return false;
      }
      var signerUID := signer.uidFor(owner);
      if signerUID.None? {
        return false;
      }
      if signerUID.value !in signerUIDs {
        var signature := sign(owner);
        if signature.None? {
          return false;
        }
        AddUnlock(SignatureUnlock(signature));
        AddSignerUID(signerUID.value, inputIndex);
      } else {
        AddReferentialUnlock(owner, signerUIDs[signerUID.value]);
      }
      AddChainAsUnlocked(input.output, inputIndex);
      return true;
    }
  }

  // ---------- The loop over the inputs ----------

  /** Input `i` can be unlocked: the chain that owns it is consumed before it, or its owner is known to
      the signer. */
  ghost predicate Unlockable(uidFor: Address -> Option<Identifier>, sign: SignFunction, inputs: seq<SpentInput>, i: nat)
    requires i < |inputs|
  {
    var owner := inputs[i].Owner();
    if owner.IsChain() then
      exists j :: 0 <= j < i && inputs[j].output.Chain() == Some(owner)
    else
      && owner.IsDirectUnlockable() && uidFor(owner).Some?
      && (sign(owner).Some? || exists j :: 0 <= j < i && inputs[j].SignedWith(uidFor, uidFor(owner).value))
  }

  ghost predicate AllUnlockable(uidFor: Address -> Option<Identifier>, sign: SignFunction, inputs: seq<SpentInput>) {
    forall i :: 0 <= i < |inputs| ==> Unlockable(uidFor, sign, inputs, i)
  }

  lemma BuildableIffUnlockable(uidFor: Address -> Option<Identifier>, sign: SignFunction, inputs: seq<SpentInput>,
      i: nat)
    requires i < |inputs|
    ensures UnlockFor(uidFor, sign, inputs[..i], inputs[i]).Some? <==> Unlockable(uidFor, sign, inputs, i)
  {
    var owner := inputs[i].Owner();
    LastChainMeans(inputs[..i], owner);
    if uidFor(owner).Some? {
      FirstSignedMeans(uidFor, inputs[..i], uidFor(owner).value);
    }
  }

  /** The unlocks for all inputs in order; fails at the first input that cannot be unlocked. */
  method BuildUnlocks(signer: Signer, signEssence: bool, message: Bytes, inputs: seq<SpentInput>)
      returns (unlocks: Option<seq<Unlock>>)
    ensures unlocks.Some? <==> AllUnlockable(signer.uidFor, SignFunctionOf(signer, signEssence, message), inputs)
    ensures unlocks.Some? ==> Built(signer.uidFor, SignFunctionOf(signer, signEssence, message), inputs, unlocks.value)
    ensures unlocks.Some? ==> Signs(signer, signEssence, message, inputs, unlocks.value)
  {
    hide UnlockFor, SignFunctionOf, Unlockable, Signs;
    var sign := SignFunctionOf(signer, signEssence, message);
    var unlockedSet := new UnlockedSet();
    for i := 0 to |inputs|
      invariant fresh(unlockedSet)
      invariant unlockedSet.Describes(signer.uidFor, inputs[..i])
      invariant Built(signer.uidFor, sign, inputs[..i], unlockedSet.unlocks)
      invariant forall j :: 0 <= j < i ==> Unlockable(signer.uidFor, sign, inputs, j)
    {
      ghost var built := unlockedSet.unlocks;
      BuildableIffUnlockable(signer.uidFor, sign, inputs, i);
      var ok := unlockedSet.UnlockInput(signer, sign, inputs[..i], i, inputs[i]);
      if !ok {
        return None;
      }
      assert inputs[..i + 1] == inputs[..i] + [inputs[i]];
      BuiltOneMore(signer.uidFor, sign, inputs[..i], built, inputs[i], unlockedSet.unlocks[i]);
    }
    assert inputs[..|inputs|] == inputs;
    BuiltSigns(signer, signEssence, message, inputs, unlockedSet.unlocks);
    return Some(unlockedSet.unlocks);
  }

  lemma BuiltOneMore(uidFor: Address -> Option<Identifier>, sign: SignFunction, before: seq<SpentInput>,
      unlocks: seq<Unlock>, input: SpentInput, unlock: Unlock)
    requires Built(uidFor, sign, before, unlocks)
    requires UnlockFor(uidFor, sign, before, input) == Some(unlock)
    ensures Built(uidFor, sign, before + [input], unlocks + [unlock])
  {
    hide UnlockFor;
    var all := before + [input];
    forall i | 0 <= i < |all|
      ensures UnlockFor(uidFor, sign, all[..i], all[i]) == Some((unlocks + [unlock])[i])
    {
      assert all[..i] == before[..i];
      assert before[..|before|] == before;
    }
  }

  // ---------- Which unlocks are built ----------

  /** The signature a signer makes carries the UID it reports for the address. */
  ghost predicate SignaturesCarryUID(uidFor: Address -> Option<Identifier>, sign: SignFunction) {
    forall a :: uidFor(a).Some? && sign(a).Some? ==> sign(a).value.signerUID == uidFor(a).value
  }

  /** The unlock of `i` is right for its owner: it references the last earlier input that is the owning
      chain, or is the signature of the owner's signer, or references the signature of that signer. */
  ghost predicate UnlocksOwner(uidFor: Address -> Option<Identifier>, inputs: seq<SpentInput>, unlocks: seq<Unlock>,
      i: nat)
    requires i < |inputs| == |unlocks|
  {
    var owner := inputs[i].Owner();
    if owner.IsChain() then
      && unlocks[i].Referential? && unlocks[i].kind == ReferenceKindFor(owner)
      && unlocks[i].reference < i
      && inputs[unlocks[i].reference].output.Chain() == Some(owner)
      && forall j :: unlocks[i].reference < j < i ==> inputs[j].output.Chain() != Some(owner)
    else
      && owner.IsDirectUnlockable() && uidFor(owner).Some?
      && (IsSignatureOf(unlocks[i], uidFor(owner).value)
          || (&& unlocks[i].Referential? && unlocks[i].kind == ReferenceUnlock
              && unlocks[i].reference < i
              && IsSignatureOf(unlocks[unlocks[i].reference], uidFor(owner).value)))
  }

  /** Every unlock that is built unlocks its input's owner. */
  lemma BuiltUnlocksOwner(uidFor: Address -> Option<Identifier>, sign: SignFunction, inputs: seq<SpentInput>,
      unlocks: seq<Unlock>, i: nat)
    requires Built(uidFor, sign, inputs, unlocks) && SignaturesCarryUID(uidFor, sign)
    requires |inputs| <= TWO_TO_THE_16 && i < |inputs|
    ensures UnlocksOwner(uidFor, inputs, unlocks, i)
    ensures unlocks[i].SignatureUnlock? ==> inputs[i].Owner().IsDirectUnlockable()
  {
    assert UnlockFor(uidFor, sign, inputs[..i], inputs[i]) == Some(unlocks[i]);
    if inputs[i].Owner().IsChain() {
      ChainUnlocksOwner(uidFor, sign, inputs, unlocks, i);
    } else {
      SignerUnlocksOwner(uidFor, sign, inputs, unlocks, i);
    }
  }

  lemma ChainUnlocksOwner(uidFor: Address -> Option<Identifier>, sign: SignFunction, inputs: seq<SpentInput>,
      unlocks: seq<Unlock>, i: nat)
    requires |inputs| <= TWO_TO_THE_16 && i < |inputs| == |unlocks|
    requires UnlockFor(uidFor, sign, inputs[..i], inputs[i]) == Some(unlocks[i])
    requires inputs[i].Owner().IsChain()
    ensures UnlocksOwner(uidFor, inputs, unlocks, i)
  {
    hide LastChain, FirstSigned;
    LastChainMeans(inputs[..i], inputs[i].Owner());
  }

  lemma SignerUnlocksOwner(uidFor: Address -> Option<Identifier>, sign: SignFunction, inputs: seq<SpentInput>,
      unlocks: seq<Unlock>, i: nat)
    requires Built(uidFor, sign, inputs, unlocks) && SignaturesCarryUID(uidFor, sign)
    requires |inputs| <= TWO_TO_THE_16 && i < |inputs|
    requires !inputs[i].Owner().IsChain()
    ensures UnlocksOwner(uidFor, inputs, unlocks, i)
  {
    hide LastChain, FirstSigned;
    var owner := inputs[i].Owner();
    assert UnlockFor(uidFor, sign, inputs[..i], inputs[i]) == Some(unlocks[i]);
    var uid := uidFor(owner).value;
    FirstSignedMeans(uidFor, inputs[..i], uid);
    var first := FirstSigned(uidFor, inputs[..i], uid);
    if first.Some? {
      assert inputs[..i][first.value] == inputs[first.value];
      FirstOfSignerSigns(uidFor, sign, inputs, unlocks, first.value, uid);
    }
  }

  /** The first input of a signer gets a signature. */
  lemma FirstOfSignerSigns(uidFor: Address -> Option<Identifier>, sign: SignFunction, inputs: seq<SpentInput>,
      unlocks: seq<Unlock>, j: nat, uid: Identifier)
    requires Built(uidFor, sign, inputs, unlocks) && SignaturesCarryUID(uidFor, sign)
    requires j < |inputs| && inputs[j].SignedWith(uidFor, uid)
    requires forall k :: 0 <= k < j ==> !inputs[k].SignedWith(uidFor, uid)
    ensures IsSignatureOf(unlocks[j], uid)
  {
    FirstSignedMeans(uidFor, inputs[..j], uid);
    assert UnlockFor(uidFor, sign, inputs[..j], inputs[j]) == Some(unlocks[j]);
  }

  /** No two inputs get a signature of the same signer. */
  lemma SignatureIsFirst(uidFor: Address -> Option<Identifier>, sign: SignFunction, inputs: seq<SpentInput>,
      unlocks: seq<Unlock>, i: nat, j: nat, uid: Identifier)
    requires Built(uidFor, sign, inputs, unlocks) && SignaturesCarryUID(uidFor, sign)
    requires i < j < |inputs| && IsSignatureOf(unlocks[i], uid)
    ensures !IsSignatureOf(unlocks[j], uid)
  {
    assert UnlockFor(uidFor, sign, inputs[..i], inputs[i]) == Some(unlocks[i]);
    assert UnlockFor(uidFor, sign, inputs[..j], inputs[j]) == Some(unlocks[j]);
    FirstSignedMeans(uidFor, inputs[..j], uid);
    assert inputs[..j][i] == inputs[i];
  }

  /** The unlock validator accepts every list of unlocks that is built. */
  lemma BuiltUnlocksAccepted(uidFor: Address -> Option<Identifier>, sign: SignFunction, inputs: seq<SpentInput>,
      unlocks: seq<Unlock>, encode: Encoder)
    requires Built(uidFor, sign, inputs, unlocks) && SignaturesCarryUID(uidFor, sign)
    requires |inputs| <= TWO_TO_THE_16
    ensures Consistent(encode, unlocks)
  {
    hide SignaturesCarryUID, IsSignatureOf, SignedInside;
    forall i | 0 <= i < |unlocks|
      ensures WellFormed(unlocks[i]) && !unlocks[i].MultiUnlock?
    {
      assert UnlockFor(uidFor, sign, inputs[..i], inputs[i]) == Some(unlocks[i]);
    }
    hide Built;
    forall i | 0 <= i < |unlocks| && unlocks[i].Referential?
      ensures unlocks[i].reference < i && TargetAllowed(unlocks, unlocks[i].kind, unlocks[i].reference)
    {
      BuiltReferenceAllowed(uidFor, sign, inputs, unlocks, i);
    }
    forall i, j, uid | 0 <= i < j < |unlocks| && IsSignatureOf(unlocks[i], uid)
      ensures !IsSignatureOf(unlocks[j], uid)
    {
      SignatureIsFirst(uidFor, sign, inputs, unlocks, i, j, uid);
    }
    forall j, uid | 0 <= j < |unlocks|
      ensures !SignedInside(unlocks[j], uid)
    {
      NotSignedInside(unlocks[j], uid);
    }
  }

  lemma NotSignedInside(u: Unlock, uid: Identifier)
    requires !u.MultiUnlock?
    ensures !SignedInside(u, uid)
  {
  }

  lemma BuiltReferenceAllowed(uidFor: Address -> Option<Identifier>, sign: SignFunction, inputs: seq<SpentInput>,
      unlocks: seq<Unlock>, i: nat)
    requires Built(uidFor, sign, inputs, unlocks) && SignaturesCarryUID(uidFor, sign)
    requires |inputs| <= TWO_TO_THE_16 && i < |inputs| && unlocks[i].Referential?
    ensures unlocks[i].reference < i && TargetAllowed(unlocks, unlocks[i].kind, unlocks[i].reference)
  {
    BuiltUnlocksOwner(uidFor, sign, inputs, unlocks, i);
    var target := unlocks[i].reference;
    assert UnlockFor(uidFor, sign, inputs[..target], inputs[target]) == Some(unlocks[target]);
  }

  // ---------- What is built, owner by owner ----------

  /** The consumed output is the chain with this address. */
  ghost predicate IsChainOutput(output: Output, chain: Address) {
    match chain
    case AccountAddress(id) => output.AccountOutput? && output.accountID == id
    case AnchorAddress(id) => output.AnchorOutput? && output.anchorID == id
    case NFTAddress(id) => output.NFTOutput? && output.nftID == id
    case _ => false
  }

  lemma ChainOutputs(output: Output, chain: Address)
    ensures output.Chain() == Some(chain) <==> IsChainOutput(output, chain)
  {
  }

  /** The owner is the unlock target, or the address that a restricted unlock target restricts. */
  lemma OwnerIs(input: SpentInput)
    ensures match input.unlockTarget
            case RestrictedAddress(underlying) => input.Owner() == underlying
            case _ => input.Owner() == input.unlockTarget
  {
  }

  /** When an input can be unlocked: for an account, anchor or NFT address exactly if that chain is consumed
      before it; for an Ed25519 or implicit account creation address exactly if the signer has a UID for it
      and signs, or has a UID it already signs for; for no other address. */
  lemma UnlockableMeans(uidFor: Address -> Option<Identifier>, sign: SignFunction, inputs: seq<SpentInput>, i: nat)
    requires i < |inputs|
    ensures
      var owner := inputs[i].Owner();
      Unlockable(uidFor, sign, inputs, i) <==>
        match owner
        case Ed25519Address(_) => SignerKnown(uidFor, sign, inputs, i)
        case ImplicitAccountCreationAddress(_) => SignerKnown(uidFor, sign, inputs, i)
        case MultiAddress(_) => false
        case RestrictedAddress(_) => false
        case _ => exists j :: 0 <= j < i && IsChainOutput(inputs[j].output, owner)
  {
    var owner := inputs[i].Owner();
    forall j | 0 <= j < i
      ensures inputs[j].output.Chain() == Some(owner) <==> IsChainOutput(inputs[j].output, owner)
    {
      ChainOutputs(inputs[j].output, owner);
    }
  }

  /** The signer signs for the owner, or signs for an earlier input under the same UID. */
  ghost predicate SignerKnown(uidFor: Address -> Option<Identifier>, sign: SignFunction, inputs: seq<SpentInput>, i: nat)
    requires i < |inputs|
  {
    var owner := inputs[i].Owner();
    && uidFor(owner).Some?
    && (|| sign(owner).Some?
        || exists j :: && 0 <= j < i && uidFor(inputs[j].Owner()) == uidFor(owner)
                       && (inputs[j].Owner().Ed25519Address? || inputs[j].Owner().ImplicitAccountCreationAddress?))
  }

  /** The type of a reference follows the owner's address type. */
  lemma BuiltKinds(uidFor: Address -> Option<Identifier>, sign: SignFunction, inputs: seq<SpentInput>,
      unlocks: seq<Unlock>, i: nat)
    requires Built(uidFor, sign, inputs, unlocks) && i < |inputs|
    ensures
      match inputs[i].Owner()
      case AccountAddress(_) => unlocks[i].Referential? && unlocks[i].kind == AccountUnlock
      case AnchorAddress(_) => unlocks[i].Referential? && unlocks[i].kind == AnchorUnlock
      case NFTAddress(_) => unlocks[i].Referential? && unlocks[i].kind == NFTUnlock
      case _ => unlocks[i].SignatureUnlock? || (unlocks[i].Referential? && unlocks[i].kind == ReferenceUnlock)
  {
    hide LastChain, FirstSigned;
    assert UnlockFor(uidFor, sign, inputs[..i], inputs[i]) == Some(unlocks[i]);
  }

  /** Every signature that is built is the signer's signature of the message for the owner of the input, or
      the empty signature for that owner. */
  ghost predicate Signs(signer: Signer, signEssence: bool, message: Bytes, inputs: seq<SpentInput>,
      unlocks: seq<Unlock>)
  {
    && |unlocks| == |inputs|
    && forall i :: 0 <= i < |inputs| && unlocks[i].SignatureUnlock? ==>
         var owner := inputs[i].Owner();
         unlocks[i].signature == if signEssence then signer.sign(owner, message) else signer.emptySignatureFor(owner)
  }

  lemma BuiltSigns(signer: Signer, signEssence: bool, message: Bytes, inputs: seq<SpentInput>, unlocks: seq<Unlock>)
    requires Built(signer.uidFor, SignFunctionOf(signer, signEssence, message), inputs, unlocks)
    ensures Signs(signer, signEssence, message, inputs, unlocks)
  {
    hide LastChain, FirstSigned;
    forall i | 0 <= i < |inputs| && unlocks[i].SignatureUnlock?
      ensures unlocks[i].signature == if signEssence then signer.sign(inputs[i].Owner(), message)
                                      else signer.emptySignatureFor(inputs[i].Owner())
    {
      assert UnlockFor(signer.uidFor, SignFunctionOf(signer, signEssence, message), inputs[..i], inputs[i])
          == Some(unlocks[i]);
    }
  }

  // ---------- Whose signature a reference leads to ----------

  /** The input reached from `i` by going from an input owned by a chain to the input of that chain. */
  function RootInput(inputs: seq<SpentInput>, i: nat): (r: nat)
    requires i < |inputs|
    ensures r <= i
  {
    var owner := inputs[i].Owner();
    LastChainMeans(inputs[..i], owner);
    if owner.IsChain() && LastChain(inputs[..i], owner).Some? then
      RootInput(inputs, LastChain(inputs[..i], owner).value)
    else
      i
  }

  lemma LastChainUnique(inputs: seq<SpentInput>, chain: Address, j: nat)
    requires j < |inputs| && inputs[j].output.Chain() == Some(chain)
    requires forall k :: j < k < |inputs| ==> inputs[k].output.Chain() != Some(chain)
    ensures LastChain(inputs, chain) == Some(j)
  {
    LastChainMeans(inputs, chain);
  }

  /** Following references from any unlock ends at a signature, made by the signer of the address that
      owns the root of the input's chain of ownership. */
  lemma {:induction false} ReferencesEndAtRootSigner(uidFor: Address -> Option<Identifier>, inputs: seq<SpentInput>,
      unlocks: seq<Unlock>, i: nat)
    requires i < |inputs| == |unlocks|
    requires forall j :: 0 <= j < |inputs| ==> UnlocksOwner(uidFor, inputs, unlocks, j)
    ensures forall j :: 0 <= j < |unlocks| && unlocks[j].Referential? ==> unlocks[j].reference < j
    ensures var rootOwner := inputs[RootInput(inputs, i)].Owner();
            && rootOwner.IsDirectUnlockable() && uidFor(rootOwner).Some?
            && IsSignatureOf(unlocks[Resolve(unlocks, i)], uidFor(rootOwner).value)
  {
    forall j | 0 <= j < |unlocks| && unlocks[j].Referential?
      ensures unlocks[j].reference < j
    {
      assert UnlocksOwner(uidFor, inputs, unlocks, j);
    }
    assert UnlocksOwner(uidFor, inputs, unlocks, i);
    var owner := inputs[i].Owner();
    if owner.IsChain() {
      var target := unlocks[i].reference;
      ReferencesEndAtRootSigner(uidFor, inputs, unlocks, target);
      LastChainUnique(inputs[..i], owner, target);
    }
  }

  /** The same unlocks up to the signatures. */
  ghost predicate SameShape(us: seq<Unlock>, vs: seq<Unlock>) {
    && |us| == |vs|
    && (forall i :: 0 <= i < |us| ==> us[i] == vs[i] || (us[i].SignatureUnlock? && vs[i].SignatureUnlock?))
    && (forall i :: 0 <= i < |us| ==> !us[i].MultiUnlock?)
  }

  /** Building with empty signatures gives the same unlocks up to the signatures, whatever the messages. */
  lemma DummyBuildSameShape(signer: Signer, dummyMessage: Bytes, message: Bytes, inputs: seq<SpentInput>,
      dummy: seq<Unlock>, signed: seq<Unlock>)
    requires Built(signer.uidFor, SignFunctionOf(signer, false, dummyMessage), inputs, dummy)
    requires Built(signer.uidFor, SignFunctionOf(signer, true, message), inputs, signed)
    ensures SameShape(dummy, signed)
  {
    hide SignFunctionOf;
    forall i | 0 <= i < |inputs|
      ensures dummy[i] == signed[i] || (dummy[i].SignatureUnlock? && signed[i].SignatureUnlock?)
      ensures !dummy[i].MultiUnlock?
    {
      assert UnlockFor(signer.uidFor, SignFunctionOf(signer, false, dummyMessage), inputs[..i], inputs[i]) == Some(dummy[i]);
      assert UnlockFor(signer.uidFor, SignFunctionOf(signer, true, message), inputs[..i], inputs[i]) == Some(signed[i]);
    }
  }

  // ---------- The in-memory signer ----------

  /** Ed25519 and the hash of public keys; nothing is assumed about them. */
  datatype Crypto<!PrivateKey> = Crypto(
    publicKey: PrivateKey -> Bytes,
    ed25519Sign: (PrivateKey, Bytes) -> Bytes,
    identifierFromData: Bytes -> Identifier)

  /** Signs with the private keys held for addresses. It is asked only for addresses that are directly
      unlockable, so only those are covered. */
  function InMemorySigner<PrivateKey>(crypto: Crypto<PrivateKey>, keys: map<Address, PrivateKey>): Signer {
    Signer(
      a => if a in keys then Some(crypto.identifierFromData(crypto.publicKey(keys[a]))) else None,
      (a, message) => if a in keys then Some(Ed25519Signature(crypto, keys[a], message)) else None,
      a => Some(Signature(crypto.identifierFromData(seq(32, _ => 0)), seq(64, _ => 0))))
  }

  /** A signature carries the public key; its signer UID is the hash of that key. */
  function Ed25519Signature<PrivateKey>(crypto: Crypto<PrivateKey>, key: PrivateKey, message: Bytes): Signature {
    Signature(crypto.identifierFromData(crypto.publicKey(key)), crypto.ed25519Sign(key, message))
  }

  /** What the in-memory signer builds is accepted. */
  lemma InMemorySignerAccepted<PrivateKey>(crypto: Crypto<PrivateKey>, keys: map<Address, PrivateKey>, message: Bytes,
      inputs: seq<SpentInput>, unlocks: seq<Unlock>, encode: Encoder)
    requires |inputs| <= TWO_TO_THE_16
    requires var signer := InMemorySigner(crypto, keys);
             Built(signer.uidFor, SignFunctionOf(signer, true, message), inputs, unlocks)
    ensures Consistent(encode, unlocks)
  {
    hide Built, Consistent;
    var signer := InMemorySigner(crypto, keys);
    BuiltUnlocksAccepted(signer.uidFor, SignFunctionOf(signer, true, message), inputs, unlocks, encode);
  }

  ghost predicate AllZero(bytes: Bytes, length: nat) {
    |bytes| == length && forall k :: 0 <= k < length ==> bytes[k] == 0
  }

  /** Every signature the in-memory signer puts into a transaction is made with the private key held for the
      owner of the input, over the message; in a dummy transaction all its bytes are 0. */
  lemma InMemorySignerSigns<PrivateKey>(crypto: Crypto<PrivateKey>, keys: map<Address, PrivateKey>, signEssence: bool,
      message: Bytes, inputs: seq<SpentInput>, unlocks: seq<Unlock>, i: nat)
    requires var signer := InMemorySigner(crypto, keys);
             Built(signer.uidFor, SignFunctionOf(signer, signEssence, message), inputs, unlocks)
    requires i < |inputs| && unlocks[i].SignatureUnlock?
    ensures unlocks[i].signature.Some? && inputs[i].Owner() in keys
    ensures var key, signature := keys[inputs[i].Owner()], unlocks[i].signature.value;
            if signEssence then
              && signature.signature == crypto.ed25519Sign(key, message)
              && signature.signerUID == crypto.identifierFromData(crypto.publicKey(key))
            else
              && AllZero(signature.signature, 64)
              && exists publicKey :: AllZero(publicKey, 32) && signature.signerUID == crypto.identifierFromData(publicKey)
  {
    hide LastChain, FirstSigned;
    var signer := InMemorySigner(crypto, keys);
    BuiltSigns(signer, signEssence, message, inputs, unlocks);
    assert UnlockFor(signer.uidFor, SignFunctionOf(signer, signEssence, message), inputs[..i], inputs[i]) == Some(unlocks[i]);
    if !signEssence {
      EmptySignatureIsZero(crypto, keys, inputs[i].Owner());
    }
  }

  lemma EmptySignatureIsZero<PrivateKey>(crypto: Crypto<PrivateKey>, keys: map<Address, PrivateKey>, owner: Address)
    ensures var signature := InMemorySigner(crypto, keys).emptySignatureFor(owner);
            && signature.Some? && AllZero(signature.value.signature, 64)
            && exists publicKey ::
                 AllZero(publicKey, 32) && signature.value.signerUID == crypto.identifierFromData(publicKey)
  {
    assert AllZero(seq(32, _ => 0), 32);
  }
}
