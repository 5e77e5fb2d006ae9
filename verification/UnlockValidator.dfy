/** The unlock validator of unlock.go. */
module UnlockValidator {
  import opened Common
  import opened Words

  type Identifier = Bytes

  datatype Signature = Signature(signerUID: Identifier, signature: Bytes)

  /** The types of referential unlocks. */
  datatype ReferenceKind = ReferenceUnlock | AccountUnlock | AnchorUnlock | NFTUnlock
  {
    /** Whether the unlock may reference another referential unlock. */
    predicate Chainable() {
      this != ReferenceUnlock
    }
  }

  /** An unlock; None is a nil signature. */
  datatype Unlock =
    | SignatureUnlock(signature: Option<Signature>)
    | Referential(kind: ReferenceKind, reference: uint16)
    | MultiUnlock(unlocks: seq<Unlock>)
    | EmptyUnlock

  datatype UnlockError =
    | SignatureNil
    | SignatureNotUnique
    | ReferentialInvalid
    | MultiUnlockNotUnique
    | EncodingFailed
    | NestedMultiUnlock
    | EmptyOutsideMulti

  /** api.Encode for unlocks; None is an encoding error. */
  type Encoder = Unlock -> Option<Bytes>

  // ---------- When an unlock may follow the unlocks before it ----------

  ghost predicate IsSignatureOf(u: Unlock, uid: Identifier) {
    u.SignatureUnlock? && u.signature.Some? && u.signature.value.signerUID == uid
  }

  /** `uid` signs one of the unlocks at top level. */
  ghost predicate SignedBy(unlocks: seq<Unlock>, uid: Identifier) {
    exists i :: 0 <= i < |unlocks| && IsSignatureOf(unlocks[i], uid)
  }

  /** `uid` signs an unlock inside this multi unlock. */
  ghost predicate SignedInside(u: Unlock, uid: Identifier) {
    u.MultiUnlock? && (exists k :: 0 <= k < |u.unlocks| && IsSignatureOf(u.unlocks[k], uid))
  }

  ghost predicate SignedInsideMulti(unlocks: seq<Unlock>, uid: Identifier) {
    exists i :: 0 <= i < |unlocks| && SignedInside(unlocks[i], uid)
  }

  ghost predicate EncodedBefore(encode: Encoder, unlocks: seq<Unlock>, bytes: Bytes) {
    exists i :: 0 <= i < |unlocks| && unlocks[i].MultiUnlock? && encode(unlocks[i]) == Some(bytes)
  }

  /** A reference at top level may point to a signature or multi unlock, and if it is chainable to a
      referential unlock. */
  ghost predicate TargetAllowed(before: seq<Unlock>, kind: ReferenceKind, reference: nat) {
    && reference < |before|
    && match before[reference] {
         case SignatureUnlock(_) => true
         case MultiUnlock(_) => true
         case Referential(_, _) => kind.Chainable()
         case EmptyUnlock => false
       }
  }

  /** A reference inside a multi unlock may not point to a multi unlock. */
  ghost predicate InnerTargetAllowed(before: seq<Unlock>, kind: ReferenceKind, reference: nat) {
    TargetAllowed(before, kind, reference) && !before[reference].MultiUnlock?
  }

  ghost predicate InnerAdmissible(before: seq<Unlock>, u: Unlock) {
    match u
    case SignatureUnlock(s) => s.Some? && !SignedBy(before, s.value.signerUID)
    case Referential(kind, reference) => InnerTargetAllowed(before, kind, reference)
    case MultiUnlock(_) => false
    case EmptyUnlock => true
  }

  ghost predicate Admissible(encode: Encoder, before: seq<Unlock>, u: Unlock) {
    match u
    case SignatureUnlock(s) =>
      s.Some? && !SignedBy(before, s.value.signerUID) && !SignedInsideMulti(before, s.value.signerUID)
    case Referential(kind, reference) => TargetAllowed(before, kind, reference)
    case MultiUnlock(us) =>
      && encode(u).Some?
      && !EncodedBefore(encode, before, encode(u).value)
      && forall k :: 0 <= k < |us| ==> InnerAdmissible(before, us[k])
    case EmptyUnlock => false
  }

  /** The error names what is wrong with an unlock inside a multi unlock. */
  ghost predicate ExplainsInner(before: seq<Unlock>, u: Unlock, e: UnlockError) {
    match u
    case SignatureUnlock(None) => e == SignatureNil
    case SignatureUnlock(Some(s)) => e == SignatureNotUnique && SignedBy(before, s.signerUID)
    case Referential(kind, reference) => e == ReferentialInvalid && !InnerTargetAllowed(before, kind, reference)
    case MultiUnlock(_) => e == NestedMultiUnlock
    case EmptyUnlock => false
  }

  ghost predicate ExplainsSome(before: seq<Unlock>, unlocks: seq<Unlock>, e: UnlockError) {
    exists k :: 0 <= k < |unlocks| && ExplainsInner(before, unlocks[k], e)
  }

  /** The error names what is wrong with an unlock at top level. */
  ghost predicate Explains(encode: Encoder, before: seq<Unlock>, u: Unlock, e: UnlockError) {
    match u
    case SignatureUnlock(None) => e == SignatureNil
    case SignatureUnlock(Some(s)) =>
      e == SignatureNotUnique && (SignedBy(before, s.signerUID) || SignedInsideMulti(before, s.signerUID))
    case Referential(kind, reference) => e == ReferentialInvalid && !TargetAllowed(before, kind, reference)
    case MultiUnlock(us) =>
      if encode(u).None? then e == EncodingFailed
      else if EncodedBefore(encode, before, encode(u).value) then e == MultiUnlockNotUnique
      else ExplainsSome(before, us, e)
    case EmptyUnlock => e == EmptyOutsideMulti
  }

  // ---------- The validator's state ----------

  class Validator {
    const encode: Encoder
    var seenSignatureUnlocks: set<uint16>
    var seenReferentialUnlocks: map<uint16, Unlock>
    var seenSignerUIDs: map<Identifier, nat>
    var seenSignerUIDsInMultiUnlocks: map<Identifier, nat>
    var seenMultiUnlocks: set<uint16>
    var seenMultiUnlockBytes: map<Bytes, nat>

    /** The maps describe exactly the unlocks seen so far at top level. */
    ghost predicate DescribesTop(seen: seq<Unlock>)
      reads `seenSignatureUnlocks, `seenReferentialUnlocks, `seenSignerUIDs, `seenMultiUnlocks, `seenMultiUnlockBytes
    {
      && |seen| <= TWO_TO_THE_16
      && (forall i: uint16 :: i in seenSignatureUnlocks <==> i < |seen| && seen[i].SignatureUnlock?)
      && (forall i: uint16 :: i in seenReferentialUnlocks <==> i < |seen| && seen[i].Referential?)
      && (forall i: uint16 :: i in seenMultiUnlocks <==> i < |seen| && seen[i].MultiUnlock?)
      && (forall uid :: uid in seenSignerUIDs <==> SignedBy(seen, uid))
      && (forall b :: b in seenMultiUnlockBytes <==> EncodedBefore(encode, seen, b))
    }

    /** The signers inside multi unlocks; `inner` are the unlocks of a multi unlock that has been
        entered but not finished. */
    ghost predicate DescribesInner(seen: seq<Unlock>, inner: seq<Unlock>)
      reads `seenSignerUIDsInMultiUnlocks
    {
      forall uid :: uid in seenSignerUIDsInMultiUnlocks <==>
        SignedInsideMulti(seen, uid) || SignedInside(MultiUnlock(inner), uid)
    }

    ghost predicate Describes(seen: seq<Unlock>)
      reads this
    {
      DescribesTop(seen) && DescribesInner(seen, [])
    }

    constructor (encode: Encoder)
      ensures this.encode == encode
      ensures Describes([])
    {
      this.encode := encode;
      seenSignatureUnlocks := {};
      seenReferentialUnlocks := map[];
      seenSignerUIDs := map[];
      seenSignerUIDsInMultiUnlocks := map[];
      seenMultiUnlocks := {};
      seenMultiUnlockBytes := map[];
    }

    /** Validates the next unlock. With at most 65536 unlocks the index is not truncated. */
    method Validate(index: nat, u: Unlock, ghost seen: seq<Unlock>) returns (err: Option<UnlockError>)
      requires Describes(seen) && index == |seen| < TWO_TO_THE_16
      modifies this
      ensures err.None? <==> Admissible(encode, seen, u)
      ensures err.None? ==> Describes(seen + [u])
      ensures err.Some? ==> Explains(encode, seen, u, err.value)
    {
      hide SignedBy, SignedInside, SignedInsideMulti, EncodedBefore, ExplainsSome;
      SeenOneMore(encode, seen, u);
      match u {
        case SignatureUnlock(signature) =>
          if signature.None? {
            return Some(SignatureNil);
          }
          var signerUID := signature.value.signerUID;
          if signerUID in seenSignerUIDs {
            return Some(SignatureNotUnique);
          }
          if signerUID in seenSignerUIDsInMultiUnlocks {
            return Some(SignatureNotUnique);
          }
          seenSignatureUnlocks := seenSignatureUnlocks + {index % TWO_TO_THE_16};
          seenSignerUIDs := seenSignerUIDs[signerUID := index];
        case Referential(kind, reference) =>
          if reference in seenReferentialUnlocks {
            if !kind.Chainable() {
              return Some(ReferentialInvalid);
            }
          } else if reference !in seenSignatureUnlocks && reference !in seenMultiUnlocks {
            return Some(ReferentialInvalid);
          }
          seenReferentialUnlocks := seenReferentialUnlocks[index % TWO_TO_THE_16 := u];
        case MultiUnlock(unlocks) =>
          var multiUnlockBytes := encode(u);
          if multiUnlockBytes.None? {
            return Some(EncodingFailed);
          }
          if multiUnlockBytes.value in seenMultiUnlockBytes {
            return Some(MultiUnlockNotUnique);
          }
          err := ValidateInner(index, unlocks, seen);
          if err.Some? {
            return;
          }
          seenMultiUnlocks := seenMultiUnlocks + {index % TWO_TO_THE_16};
          seenMultiUnlockBytes := seenMultiUnlockBytes[multiUnlockBytes.value := index];
        case EmptyUnlock =>
          return Some(EmptyOutsideMulti);
      }
      return None;
    }

    /** The loop over the unlocks inside a multi unlock. */
    method ValidateInner(index: nat, unlocks: seq<Unlock>, ghost seen: seq<Unlock>) returns (err: Option<UnlockError>)
      requires Describes(seen) && index == |seen| < TWO_TO_THE_16
      modifies this`seenSignerUIDsInMultiUnlocks
      ensures err.None? <==> forall k :: 0 <= k < |unlocks| ==> InnerAdmissible(seen, unlocks[k])
      ensures err.None? ==> DescribesInner(seen, unlocks)
      ensures err.Some? ==> ExplainsSome(seen, unlocks, err.value)
    {
      hide SignedBy, SignedInside, SignedInsideMulti, EncodedBefore;
      for subIndex := 0 to |unlocks|
        invariant DescribesInner(seen, unlocks[..subIndex])
        invariant forall k :: 0 <= k < subIndex ==> InnerAdmissible(seen, unlocks[k])
      {
        var subUnlock := unlocks[subIndex];
        InsideOneMore(unlocks[..subIndex], subUnlock);
        assert unlocks[..subIndex + 1] == unlocks[..subIndex] + [subUnlock];
        match subUnlock
        case SignatureUnlock(signature) =>
          if signature.None? {
            return Some(SignatureNil);
          }
          var signerUID := signature.value.signerUID;
          if signerUID in seenSignerUIDs {
            return Some(SignatureNotUnique);
          }
          seenSignerUIDsInMultiUnlocks := seenSignerUIDsInMultiUnlocks[signerUID := index];
        case Referential(kind, reference) =>
          if reference in seenReferentialUnlocks {
            if !kind.Chainable() {
              return Some(ReferentialInvalid);
            }
          } else if reference !in seenSignatureUnlocks {
            return Some(ReferentialInvalid);
          }
        case MultiUnlock(_) =>
          return Some(NestedMultiUnlock);
        case EmptyUnlock =>
      }
      assert unlocks[..|unlocks|] == unlocks;
      return None;
    }
  }

  lemma SeenOneMore(encode: Encoder, seen: seq<Unlock>, u: Unlock)
    ensures forall uid :: SignedBy(seen + [u], uid) <==>
      SignedBy(seen, uid) || IsSignatureOf(u, uid)
    ensures forall uid :: SignedInsideMulti(seen + [u], uid) <==> SignedInsideMulti(seen, uid) || SignedInside(u, uid)
    ensures forall uid :: !SignedInside(MultiUnlock([]), uid)
    ensures !u.MultiUnlock? ==> forall uid :: !SignedInside(u, uid)
    ensures forall b :: EncodedBefore(encode, seen + [u], b) <==>
      EncodedBefore(encode, seen, b) || (u.MultiUnlock? && encode(u) == Some(b))
  {
    var all := seen + [u];
    assert all[|seen|] == u;
    assert forall i :: 0 <= i < |seen| ==> all[i] == seen[i];
  }

  lemma InsideOneMore(inner: seq<Unlock>, u: Unlock)
    ensures forall uid :: SignedInside(MultiUnlock(inner + [u]), uid) <==>
      SignedInside(MultiUnlock(inner), uid) || IsSignatureOf(u, uid)
  {
    var all := inner + [u];
    assert all[|inner|] == u;
    assert forall i :: 0 <= i < |inner| ==> all[i] == inner[i];
  }

  /** The unlocks are validated one after the other, until the first error. */
  method ValidateUnlocks(unlocks: seq<Unlock>, encode: Encoder) returns (err: Option<UnlockError>)
    requires |unlocks| <= TWO_TO_THE_16
    ensures err.None? <==> Consistent(encode, unlocks)
    ensures err.Some? ==>
      exists i :: 0 <= i < |unlocks| && Accepted(encode, unlocks[..i]) && Explains(encode, unlocks[..i], unlocks[i], err.value)
  {
    hide Consistent, Admissible, Explains;
    AcceptedIffConsistent(encode, unlocks);
    var validator := new Validator(encode);
    for i := 0 to |unlocks|
      invariant validator.Describes(unlocks[..i])
      invariant fresh(validator) && validator.encode == encode
      invariant forall j :: 0 <= j < i ==> Admissible(encode, unlocks[..j], unlocks[j])
    {
      err := validator.Validate(i, unlocks[i], unlocks[..i]);
      if err.Some? {
        assert forall j :: 0 <= j < i ==> unlocks[..i][..j] == unlocks[..j];
        return;
      }
      assert unlocks[..i + 1] == unlocks[..i] + [unlocks[i]];
    }
    return None;
  }

  // ---------- What acceptance means for the whole list ----------

  /** Every unlock was admissible when it was validated. */
  ghost predicate Accepted(encode: Encoder, unlocks: seq<Unlock>) {
    forall i :: 0 <= i < |unlocks| ==> Admissible(encode, unlocks[..i], unlocks[i])
  }

  /** No list position holds an empty unlock, a nil signature, or a nested multi unlock. */
  ghost predicate WellFormed(u: Unlock) {
    match u
    case SignatureUnlock(s) => s.Some?
    case Referential(_, _) => true
    case MultiUnlock(us) =>
      forall k :: 0 <= k < |us| ==> !us[k].MultiUnlock? && (us[k].SignatureUnlock? ==> us[k].signature.Some?)
    case EmptyUnlock => false
  }

  /** Every reference, at top level or inside a multi unlock, points strictly backwards to an unlock
      of a type it may reference. */
  ghost predicate ReferencesBackwards(unlocks: seq<Unlock>) {
    && (forall i :: 0 <= i < |unlocks| && unlocks[i].Referential? ==>
         unlocks[i].reference < i && TargetAllowed(unlocks, unlocks[i].kind, unlocks[i].reference))
    && (forall i :: 0 <= i < |unlocks| && unlocks[i].MultiUnlock? ==> InnerReferencesBackwards(unlocks, i))
  }

  ghost predicate InnerReferencesBackwards(unlocks: seq<Unlock>, i: nat)
    requires i < |unlocks| && unlocks[i].MultiUnlock?
  {
    var us := unlocks[i].unlocks;
    forall k :: 0 <= k < |us| && us[k].Referential? ==>
      us[k].reference < i && InnerTargetAllowed(unlocks, us[k].kind, us[k].reference)
  }

  /** No signer signs twice at top level, or both at top level and inside a multi unlock. */
  ghost predicate SignersUnique(unlocks: seq<Unlock>) {
    && (forall i, j, uid :: 0 <= i < j < |unlocks| && IsSignatureOf(unlocks[i], uid) ==> !IsSignatureOf(unlocks[j], uid))
    && (forall i, j, uid :: 0 <= i < |unlocks| && 0 <= j < |unlocks| && IsSignatureOf(unlocks[i], uid) ==>
         !SignedInside(unlocks[j], uid))
  }

  /** All multi unlocks can be encoded and no two of them have the same encoding. */
  ghost predicate MultiUnlocksUnique(encode: Encoder, unlocks: seq<Unlock>) {
    && (forall i :: 0 <= i < |unlocks| && unlocks[i].MultiUnlock? ==> encode(unlocks[i]).Some?)
    && (forall i, j :: 0 <= i < j < |unlocks| && unlocks[i].MultiUnlock? && unlocks[j].MultiUnlock? ==>
         encode(unlocks[i]) != encode(unlocks[j]))
  }

  ghost predicate Consistent(encode: Encoder, unlocks: seq<Unlock>) {
    && (forall i :: 0 <= i < |unlocks| ==> WellFormed(unlocks[i]))
    && ReferencesBackwards(unlocks)
    && SignersUnique(unlocks)
    && MultiUnlocksUnique(encode, unlocks)
  }

  lemma AcceptedIffConsistent(encode: Encoder, unlocks: seq<Unlock>)
    ensures Accepted(encode, unlocks) <==> Consistent(encode, unlocks)
  {
    if Accepted(encode, unlocks) {
      AcceptedIsConsistent(encode, unlocks);
    }
    if Consistent(encode, unlocks) {
      ConsistentIsAccepted(encode, unlocks);
    }
  }

  lemma AcceptedIsConsistent(encode: Encoder, unlocks: seq<Unlock>)
    requires Accepted(encode, unlocks)
    ensures Consistent(encode, unlocks)
  {
    AcceptedReferences(encode, unlocks);
    AcceptedSigners(encode, unlocks);
    AcceptedMultiUnlocks(encode, unlocks);
    forall i | 0 <= i < |unlocks|
      ensures WellFormed(unlocks[i])
    {
      assert Admissible(encode, unlocks[..i], unlocks[i]);
    }
  }

  lemma AcceptedReferences(encode: Encoder, unlocks: seq<Unlock>)
    requires Accepted(encode, unlocks)
    ensures ReferencesBackwards(unlocks)
  {
    forall i | 0 <= i < |unlocks| && unlocks[i].Referential?
      ensures unlocks[i].reference < i && TargetAllowed(unlocks, unlocks[i].kind, unlocks[i].reference)
    {
      assert Admissible(encode, unlocks[..i], unlocks[i]);
    }
    forall i | 0 <= i < |unlocks| && unlocks[i].MultiUnlock?
      ensures InnerReferencesBackwards(unlocks, i)
    {
      assert Admissible(encode, unlocks[..i], unlocks[i]);
      assert forall k :: 0 <= k < |unlocks[i].unlocks| ==> InnerAdmissible(unlocks[..i], unlocks[i].unlocks[k]);
    }
  }

  lemma AcceptedSigners(encode: Encoder, unlocks: seq<Unlock>)
    requires Accepted(encode, unlocks)
    ensures SignersUnique(unlocks)
  {
    forall i, j, uid | 0 <= i < j < |unlocks| && IsSignatureOf(unlocks[i], uid)
      ensures !IsSignatureOf(unlocks[j], uid)
    {
      assert unlocks[..j][i] == unlocks[i];
      assert SignedBy(unlocks[..j], uid);
      assert Admissible(encode, unlocks[..j], unlocks[j]);
    }
    forall i, j, uid | 0 <= i < |unlocks| && 0 <= j < |unlocks| && IsSignatureOf(unlocks[i], uid)
      ensures !SignedInside(unlocks[j], uid)
    {
      assert Admissible(encode, unlocks[..j], unlocks[j]);
      assert Admissible(encode, unlocks[..i], unlocks[i]);
      if i < j {
        assert unlocks[..j][i] == unlocks[i];
        assert SignedBy(unlocks[..j], uid);
      } else if j < i {
        assert unlocks[..i][j] == unlocks[j];
      }
    }
  }

  lemma AcceptedMultiUnlocks(encode: Encoder, unlocks: seq<Unlock>)
    requires Accepted(encode, unlocks)
    ensures MultiUnlocksUnique(encode, unlocks)
  {
    forall i | 0 <= i < |unlocks| && unlocks[i].MultiUnlock?
      ensures encode(unlocks[i]).Some?
    {
      assert Admissible(encode, unlocks[..i], unlocks[i]);
    }
    forall i, j | 0 <= i < j < |unlocks| && unlocks[i].MultiUnlock? && unlocks[j].MultiUnlock?
      ensures encode(unlocks[i]) != encode(unlocks[j])
    {
      assert Admissible(encode, unlocks[..j], unlocks[j]);
      assert unlocks[..j][i] == unlocks[i];
    }
  }

  lemma ConsistentIsAccepted(encode: Encoder, unlocks: seq<Unlock>)
    requires Consistent(encode, unlocks)
    ensures Accepted(encode, unlocks)
  {
    forall i | 0 <= i < |unlocks|
      ensures Admissible(encode, unlocks[..i], unlocks[i])
    {
      assert WellFormed(unlocks[i]);
      assert unlocks[i].MultiUnlock? ==> InnerReferencesBackwards(unlocks, i);
      assert forall j :: 0 <= j < i ==> unlocks[..i][j] == unlocks[j];
      match unlocks[i]
      case SignatureUnlock(s) =>
        assert IsSignatureOf(unlocks[i], s.value.signerUID);
      case Referential(_, _) =>
      case MultiUnlock(us) =>
        forall k | 0 <= k < |us|
          ensures InnerAdmissible(unlocks[..i], us[k])
        {
          if us[k].SignatureUnlock? {
            assert IsSignatureOf(us[k], us[k].signature.value.signerUID);
            assert SignedInside(unlocks[i], us[k].signature.value.signerUID);
          }
        }
      case EmptyUnlock =>
    }
  }

  /** Which unlock a reference may point to: a reference unlock to a signature or multi unlock, account,
      anchor and NFT unlocks also to a referential unlock; inside a multi unlock none of them to a multi
      unlock. */
  lemma ReferenceAdmissibleIff(encode: Encoder, before: seq<Unlock>, kind: ReferenceKind, reference: uint16)
    ensures Admissible(encode, before, Referential(kind, reference)) <==>
      && reference < |before|
      && match kind
         case ReferenceUnlock => before[reference].SignatureUnlock? || before[reference].MultiUnlock?
         case _ => !before[reference].EmptyUnlock?
    ensures InnerAdmissible(before, Referential(kind, reference)) <==>
      && reference < |before|
      && match kind
         case ReferenceUnlock => before[reference].SignatureUnlock?
         case _ => before[reference].SignatureUnlock? || before[reference].Referential?
  {
  }

  /** In an accepted list, every reference unlock points directly at a signature or multi unlock, inside a
      multi unlock at a signature unlock. */
  lemma ReferenceUnlocksPointDirectly(encode: Encoder, unlocks: seq<Unlock>, i: nat)
    requires Accepted(encode, unlocks) && i < |unlocks|
    ensures unlocks[i].Referential? && unlocks[i].kind == ReferenceUnlock ==>
      && unlocks[i].reference < i
      && (unlocks[unlocks[i].reference].SignatureUnlock? || unlocks[unlocks[i].reference].MultiUnlock?)
    ensures unlocks[i].MultiUnlock? ==>
      var us := unlocks[i].unlocks;
      forall k :: 0 <= k < |us| && us[k].Referential? && us[k].kind == ReferenceUnlock ==>
        us[k].reference < i && unlocks[us[k].reference].SignatureUnlock?
  {
    assert Admissible(encode, unlocks[..i], unlocks[i]);
    if unlocks[i].Referential? {
      ReferenceAdmissibleIff(encode, unlocks[..i], unlocks[i].kind, unlocks[i].reference);
    } else if unlocks[i].MultiUnlock? {
      var us := unlocks[i].unlocks;
      forall k | 0 <= k < |us| && us[k].Referential? && us[k].kind == ReferenceUnlock
        ensures us[k].reference < i && unlocks[us[k].reference].SignatureUnlock?
      {
        assert InnerAdmissible(unlocks[..i], us[k]);
        ReferenceAdmissibleIff(encode, unlocks[..i], us[k].kind, us[k].reference);
      }
    }
  }

  /** The unlock reached by following references from unlock `i`. */
  function Resolve(unlocks: seq<Unlock>, i: nat): (r: nat)
    requires i < |unlocks|
    requires forall j :: 0 <= j < |unlocks| && unlocks[j].Referential? ==> unlocks[j].reference < j
    ensures r <= i
    ensures !unlocks[r].Referential?
  {
    if unlocks[i].Referential? then Resolve(unlocks, unlocks[i].reference) else i
  }

  /** In an accepted list, following references from any unlock ends at a signature or a multi unlock;
      a reference that is not chainable points there directly. */
  lemma ReferencesEnd(encode: Encoder, unlocks: seq<Unlock>, i: nat)
    requires Accepted(encode, unlocks) && i < |unlocks|
    ensures forall j :: 0 <= j < |unlocks| && unlocks[j].Referential? ==> unlocks[j].reference < j
    ensures var end := Resolve(unlocks, i);
            && (unlocks[end].SignatureUnlock? || unlocks[end].MultiUnlock?)
            && (unlocks[i].Referential? && !unlocks[i].kind.Chainable() ==> end == unlocks[i].reference)
  {
    AcceptedIsConsistent(encode, unlocks);
    assert WellFormed(unlocks[Resolve(unlocks, i)]);
  }

  ghost predicate PointsAtMulti(unlocks: seq<Unlock>, i: nat) {
    && i < |unlocks| && unlocks[i].Referential?
    && unlocks[i].reference < |unlocks| && unlocks[unlocks[i].reference].MultiUnlock?
  }

  /** Unlock `j` is met when following references from unlock `i`. */
  ghost predicate Meets(unlocks: seq<Unlock>, i: nat, j: nat)
    requires i < |unlocks|
    requires forall j :: 0 <= j < |unlocks| && unlocks[j].Referential? ==> unlocks[j].reference < j
  {
    i == j || (unlocks[i].Referential? && Meets(unlocks, unlocks[i].reference, j))
  }

  /** Following references from unlock `i` ends at a multi unlock exactly if it is one, or one of the
      references on the way points directly at one. */
  lemma {:induction false} EndsAtMultiIff(unlocks: seq<Unlock>, i: nat)
    requires i < |unlocks|
    requires forall j :: 0 <= j < |unlocks| && unlocks[j].Referential? ==> unlocks[j].reference < j
    ensures unlocks[Resolve(unlocks, i)].MultiUnlock?
       <==> unlocks[i].MultiUnlock? || exists j :: Meets(unlocks, i, j) && PointsAtMulti(unlocks, j)
  {
    if unlocks[i].Referential? {
      var next := unlocks[i].reference;
      EndsAtMultiIff(unlocks, next);
      assert Meets(unlocks, i, i);
      assert forall j :: Meets(unlocks, next, j) ==> Meets(unlocks, i, j);
    }
  }

  /** Following account, anchor and NFT unlocks is documented to end at a signature unlock. In an accepted
      list a reference does exactly if neither it nor a reference on its way points directly at a multi
      unlock, which the validator allows. */
  lemma EndsAtSignatureIff(encode: Encoder, unlocks: seq<Unlock>, i: nat)
    requires Accepted(encode, unlocks) && i < |unlocks|
    ensures forall j :: 0 <= j < |unlocks| && unlocks[j].Referential? ==> unlocks[j].reference < j
    ensures unlocks[Resolve(unlocks, i)].SignatureUnlock?
       <==> !unlocks[i].MultiUnlock? && forall j :: Meets(unlocks, i, j) ==> !PointsAtMulti(unlocks, j)
  {
    ReferencesEnd(encode, unlocks, i);
    EndsAtMultiIff(unlocks, i);
  }

  /** All references of an accepted list end at signature unlocks exactly if none of them points directly
      at a multi unlock. */
  lemma AllEndAtSignaturesIff(encode: Encoder, unlocks: seq<Unlock>)
    requires Accepted(encode, unlocks)
    ensures forall j :: 0 <= j < |unlocks| && unlocks[j].Referential? ==> unlocks[j].reference < j
    ensures (forall i :: 0 <= i < |unlocks| && unlocks[i].Referential? ==> unlocks[Resolve(unlocks, i)].SignatureUnlock?)
       <==> (forall i :: 0 <= i < |unlocks| ==> !PointsAtMulti(unlocks, i))
  {
    AcceptedIsConsistent(encode, unlocks);
    forall i | 0 <= i < |unlocks| && unlocks[i].Referential?
      ensures PointsAtMulti(unlocks, i) ==> !unlocks[Resolve(unlocks, i)].SignatureUnlock?
      ensures (forall j :: 0 <= j < |unlocks| ==> !PointsAtMulti(unlocks, j)) ==> unlocks[Resolve(unlocks, i)].SignatureUnlock?
    {
      EndsAtSignatureIff(encode, unlocks, i);
      assert Meets(unlocks, i, i);
    }
  }

  /** An account unlock that references a multi unlock is accepted. */
  lemma ReferenceToMultiAccepted(encode: Encoder, s: Signature)
    requires encode(MultiUnlock([SignatureUnlock(Some(s))])).Some?
    ensures var unlocks := [MultiUnlock([SignatureUnlock(Some(s))]), Referential(AccountUnlock, 0)];
            Accepted(encode, unlocks) && Resolve(unlocks, 1) == 0
  {
    var multi := MultiUnlock([SignatureUnlock(Some(s))]);
    var unlocks := [multi, Referential(AccountUnlock, 0)];
    assert unlocks[..0] == [] && unlocks[..1] == [multi];
    assert Admissible(encode, [], multi);
    assert Admissible(encode, [multi], unlocks[1]);
  }

  /** Unlock `k` inside multi unlock `i` is a reference. */
  ghost predicate IsInnerReference(unlocks: seq<Unlock>, i: nat, k: nat) {
    i < |unlocks| && unlocks[i].MultiUnlock? && k < |unlocks[i].unlocks| && unlocks[i].unlocks[k].Referential?
  }

  /** A reference inside a multi unlock never points at a multi unlock. Following it through the list
      still ends at one exactly if a reference on the way points at one; otherwise it ends at a
      signature unlock. */
  lemma InnerReferenceEnds(encode: Encoder, unlocks: seq<Unlock>, i: nat, k: nat)
    requires Accepted(encode, unlocks) && IsInnerReference(unlocks, i, k)
    ensures forall j :: 0 <= j < |unlocks| && unlocks[j].Referential? ==> unlocks[j].reference < j
    ensures unlocks[i].unlocks[k].reference < i
    ensures var target := unlocks[i].unlocks[k].reference;
            var end := Resolve(unlocks, target);
            && !unlocks[target].MultiUnlock?
            && (unlocks[end].SignatureUnlock? || unlocks[end].MultiUnlock?)
            && (unlocks[end].SignatureUnlock? <==> forall j :: Meets(unlocks, target, j) ==> !PointsAtMulti(unlocks, j))
            && (!unlocks[i].unlocks[k].kind.Chainable() ==> end == target)
  {
    AcceptedIsConsistent(encode, unlocks);
    assert InnerReferencesBackwards(unlocks, i);
    var target := unlocks[i].unlocks[k].reference;
    assert InnerTargetAllowed(unlocks, unlocks[i].unlocks[k].kind, target);
    ReferencesEnd(encode, unlocks, target);
    EndsAtSignatureIff(encode, unlocks, target);
  }

  /** A multi unlock may hold a reference that leads to an earlier multi unlock. */
  lemma InnerReferenceToMultiAccepted(encode: Encoder, s: Signature)
    requires encode(MultiUnlock([SignatureUnlock(Some(s))])).Some?
    requires encode(MultiUnlock([Referential(AccountUnlock, 1)])).Some?
    requires encode(MultiUnlock([SignatureUnlock(Some(s))])) != encode(MultiUnlock([Referential(AccountUnlock, 1)]))
    ensures var unlocks := [MultiUnlock([SignatureUnlock(Some(s))]), Referential(AccountUnlock, 0),
                            MultiUnlock([Referential(AccountUnlock, 1)])];
            && Accepted(encode, unlocks)
            && IsInnerReference(unlocks, 2, 0) && unlocks[2].unlocks[0].reference == 1
            && Resolve(unlocks, 1) == 0 && unlocks[0].MultiUnlock?
  {
    var first, last := MultiUnlock([SignatureUnlock(Some(s))]), MultiUnlock([Referential(AccountUnlock, 1)]);
    var unlocks := [first, Referential(AccountUnlock, 0), last];
    ReferenceToMultiAccepted(encode, s);
    var two := [first, Referential(AccountUnlock, 0)];
    assert unlocks[..2] == two && unlocks[..1] == two[..1] && unlocks[..0] == two[..0];
    assert Admissible(encode, two[..0], two[0]) && Admissible(encode, two[..1], two[1]);
    assert Admissible(encode, two, last);
  }
}
