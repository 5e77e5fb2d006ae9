/** Whether MaxBlockWork (workscore.go) bounds the work score of all basic blocks. */
module WorkScoreBounds {
  import opened Common
  import opened Words
  import opened UnlockValidator
  import opened Payloads
  import opened WorkScore
  import BuilderUnlocks

  // ---------- The score is linear in what a block contains ----------

  /** How often each price is charged, besides the price of the block itself. */
  datatype Counts = Counts(bytes: nat, inputs: nat, contextInputs: nat, outputs: nat, nativeTokens: nat,
                           stakings: nat, blockIssuers: nat, allotments: nat, signatures: nat)

  function Weighted(p: WorkScoreParameters, c: Counts): int {
    p.block + c.bytes * p.dataByte + c.inputs * p.input + c.contextInputs * p.contextInput + c.outputs * p.output +
    c.nativeTokens * p.nativeToken + c.stakings * p.staking + c.blockIssuers * p.blockIssuer +
    c.allotments * p.allotment + c.signatures * p.signatureEd25519
  }

  /** A foundry pays for its token scheme as for a native token. */
  ghost function NativeTokens(o: Output): nat {
    (if o.outputType == Foundry then 1 else 0) + (if HasType(o.features, NativeTokenFeature) then 1 else 0)
  }

  ghost function NativeTokensOf(outputs: seq<Output>): nat {
    if outputs == [] then 0
    else NativeTokensOf(outputs[..|outputs| - 1]) + NativeTokens(outputs[|outputs| - 1])
  }

  /** The number of outputs with a feature of this type. */
  ghost function OutputsWith(outputs: seq<Output>, t: FeatureType): nat {
    if outputs == [] then 0
    else OutputsWith(outputs[..|outputs| - 1], t) + (if HasType(outputs[|outputs| - 1].features, t) then 1 else 0)
  }

  /** The number of signatures, also inside multi unlocks. */
  function Signatures(u: Unlock): nat
    decreases u, 0
  {
    match u
    case SignatureUnlock(_) => 1
    case MultiUnlock(us) => SignaturesOf(us)
    case _ => 0
  }

  function SignaturesOf(unlocks: seq<Unlock>): nat
    decreases unlocks, |unlocks|
  {
    if unlocks == [] then 0
    else SignaturesOf(unlocks[..|unlocks| - 1]) + Signatures(unlocks[|unlocks| - 1])
  }

  ghost function CountsOf(b: Block): Counts {
    match b.payload
    case None => Counts(0, 0, 0, 0, 0, 0, 0, 0, 0)
    case Some(payload) =>
      match payload
      case SignedTransaction(inputs, contextInputs, allotments, _, _, outputs, unlocks) =>
        Counts(payload.Size(), inputs, |contextInputs|, |outputs|, NativeTokensOf(outputs),
               OutputsWith(outputs, StakingFeature), OutputsWith(outputs, BlockIssuerFeature), allotments,
               SignaturesOf(unlocks))
      case _ => Counts(payload.Size(), 0, 0, 0, 0, 0, 0, 0, 0)
  }

  ghost function ScoreIfPresent(features: seq<Feature>, t: FeatureType, score: nat): nat {
    if HasType(features, t) then score else 0
  }

  lemma TypeOfOneMore(features: seq<Feature>, f: Feature, t: FeatureType)
    ensures HasType(features + [f], t) <==> HasType(features, t) || f.Type() == t
  {
    var all := features + [f];
    assert all[|features|] == f;
    assert forall i :: 0 <= i < |features| ==> all[i] == features[i];
  }

  /** Only native token, block issuer and staking features cost work, each at most once. */
  lemma {:induction false} DistinctFeaturesScore(p: WorkScoreParameters, features: seq<Feature>)
    requires DistinctFeatures(features)
    ensures FeaturesScore(p, features) ==
            ScoreIfPresent(features, NativeTokenFeature, p.nativeToken) +
            ScoreIfPresent(features, BlockIssuerFeature, p.blockIssuer) +
            ScoreIfPresent(features, StakingFeature, p.staking)
  {
    if features != [] {
      var init, last := features[..|features| - 1], features[|features| - 1];
      DistinctFeaturesScore(p, init);
      assert features == init + [last];
      TypeOfOneMore(init, last, NativeTokenFeature);
      TypeOfOneMore(init, last, BlockIssuerFeature);
      TypeOfOneMore(init, last, StakingFeature);
      assert !HasType(init, last.Type());
    }
  }

  lemma OutputScoreIs(p: WorkScoreParameters, o: Output)
    requires ValidFeatures(o)
    ensures OutputScore(p, o) == p.output + NativeTokens(o) * p.nativeToken +
                                 ScoreIfPresent(o.features, StakingFeature, p.staking) +
                                 ScoreIfPresent(o.features, BlockIssuerFeature, p.blockIssuer)
  {
    hide FeaturesScore;
    DistinctFeaturesScore(p, o.features);
    DistinctFeaturesScore(p, o.immutableFeatures);
  }

  lemma MoreTimes(n: int, k: int, x: int)
    ensures (n + k) * x == n * x + k * x
  {
  }

  lemma {:induction false} OutputsScoreIs(p: WorkScoreParameters, outputs: seq<Output>)
    requires forall k :: 0 <= k < |outputs| ==> ValidFeatures(outputs[k])
    ensures OutputsScore(p, outputs) ==
            |outputs| * p.output + NativeTokensOf(outputs) * p.nativeToken +
            OutputsWith(outputs, StakingFeature) * p.staking + OutputsWith(outputs, BlockIssuerFeature) * p.blockIssuer
  {
    hide OutputScore, NativeTokens, HasType, ValidFeatures;
    if outputs != [] {
      var init, last := outputs[..|outputs| - 1], outputs[|outputs| - 1];
      OutputsScoreIs(p, init);
      OutputScoreIs(p, last);
      MoreTimes(|init|, 1, p.output);
      MoreTimes(NativeTokensOf(init), NativeTokens(last), p.nativeToken);
      MoreTimes(OutputsWith(init, StakingFeature), 1, p.staking);
      MoreTimes(OutputsWith(init, BlockIssuerFeature), 1, p.blockIssuer);
    }
  }

  lemma {:induction false} UnlockScoreIs(p: WorkScoreParameters, u: Unlock)
    ensures UnlockScore(p, u) == Signatures(u) * p.signatureEd25519
    decreases u, 0
  {
    if u.MultiUnlock? {
      UnlocksScoreIs(p, u.unlocks);
    }
  }

  lemma {:induction false} UnlocksScoreIs(p: WorkScoreParameters, unlocks: seq<Unlock>)
    ensures UnlocksScore(p, unlocks) == SignaturesOf(unlocks) * p.signatureEd25519
    decreases unlocks, |unlocks|
  {
    if unlocks != [] {
      var init, last := unlocks[..|unlocks| - 1], unlocks[|unlocks| - 1];
      UnlocksScoreIs(p, init);
      UnlockScoreIs(p, last);
      MoreTimes(SignaturesOf(init), Signatures(last), p.signatureEd25519);
    }
  }

  /** The work score of a block within the limits is the sum of the prices times how often they are
      charged. */
  lemma ScoreIsLinear(p: WorkScoreParameters, b: Block)
    requires Limited(b)
    ensures BlockScore(p, b) == Weighted(p, CountsOf(b))
  {
    if b.payload.Some? {
      PayloadScoreIs(p, b.payload.value);
    }
  }

  lemma PayloadScoreIs(p: WorkScoreParameters, t: Payload)
    requires LimitedPayload(t)
    ensures PayloadScore(p, t) == Weighted(p, CountsOf(Block(1, 0, 0, Some(t))))
  {
    hide OutputsScore, UnlocksScore, Payload.Size, ValidFeatures, Weighted;
    var c := CountsOf(Block(1, 0, 0, Some(t)));
    if t.SignedTransaction? {
      OutputsScoreIs(p, t.outputs);
      UnlocksScoreIs(p, t.unlocks);
      PartsAddUp(p, c, DataScore(p, t), EssenceScore(p, t), OutputsScore(p, t.outputs), UnlocksScore(p, t.unlocks));
    } else {
      PartsAddUp(p, c, DataScore(p, t), 0, 0, 0);
    }
  }

  lemma PartsAddUp(p: WorkScoreParameters, c: Counts, data: int, essence: int, outputs: int, unlocks: int)
    requires data == p.dataByte * c.bytes
    requires essence == c.contextInputs * p.contextInput + c.inputs * p.input + p.allotment * c.allotments
    requires outputs == c.outputs * p.output + c.nativeTokens * p.nativeToken + c.stakings * p.staking +
                        c.blockIssuers * p.blockIssuer
    requires unlocks == c.signatures * p.signatureEd25519
    ensures p.block + data + essence + outputs + unlocks == Weighted(p, c)
  {
  }

  // ---------- What the limits say about the counts ----------

  /** An output that stakes or issues blocks is an account, which holds no native tokens. */
  lemma {:induction false} AccountsHoldNoNativeTokens(outputs: seq<Output>, t: FeatureType)
    requires forall k :: 0 <= k < |outputs| ==> ValidFeatures(outputs[k])
    requires t == StakingFeature || t == BlockIssuerFeature
    ensures NativeTokensOf(outputs) + 2 * OutputsWith(outputs, t) <= 2 * |outputs|
  {
    if outputs != [] {
      AccountsHoldNoNativeTokens(outputs[..|outputs| - 1], t);
    }
  }

  /** A signature takes 98 bytes, inside and outside of multi unlocks. */
  lemma {:induction false} SignaturesTakeSpace(unlocks: seq<Unlock>)
    ensures SignaturesOf(unlocks) * (1 + SIGNATURE_LENGTH) <= UnlocksTotal(unlocks)
    decreases unlocks, |unlocks|
  {
    if unlocks != [] {
      SignaturesTakeSpace(unlocks[..|unlocks| - 1]);
      UnlockTakesSpace(unlocks[|unlocks| - 1]);
    }
  }

  lemma {:induction false} UnlockTakesSpace(u: Unlock)
    ensures Signatures(u) * (1 + SIGNATURE_LENGTH) <= UnlockSize(u)
    decreases u, 0
  {
    if u.MultiUnlock? {
      SignaturesTakeSpace(u.unlocks);
    }
  }

  /** As many signatures as fit into the largest payload. */
  const MAX_SIGNATURES := 331

  lemma MaxSignaturesFit()
    ensures MAX_SIGNATURES * (1 + SIGNATURE_LENGTH) <= MAX_PAYLOAD_SIZE < (MAX_SIGNATURES + 1) * (1 + SIGNATURE_LENGTH)
  {
  }

  ghost predicate WithinLimits(c: Counts) {
    && c.bytes <= MAX_PAYLOAD_SIZE && c.inputs <= MAX_COUNT && c.contextInputs <= MAX_COUNT
    && c.outputs <= MAX_COUNT && c.allotments <= MAX_COUNT && c.signatures <= MAX_SIGNATURES
    && c.nativeTokens + 2 * c.stakings <= 2 * c.outputs
    && c.nativeTokens + 2 * c.blockIssuers <= 2 * c.outputs
  }

  /** What the limits on counts and on the size of a block leave. */
  lemma CountsWithinLimits(b: Block)
    requires Limited(b)
    ensures WithinLimits(CountsOf(b))
  {
    if b.payload.Some? {
      PayloadWithinLimits(b.payload.value);
    }
  }

  lemma PayloadWithinLimits(t: Payload)
    requires LimitedPayload(t)
    ensures WithinLimits(CountsOf(Block(1, 0, 0, Some(t))))
  {
    hide OutputsSize, EssenceSize, UnlocksTotal, SignaturesOf, OutputsWith, NativeTokensOf, ValidFeatures;
    if t.SignedTransaction? {
      AccountsHoldNoNativeTokens(t.outputs, StakingFeature);
      AccountsHoldNoNativeTokens(t.outputs, BlockIssuerFeature);
      SignaturesTakeSpace(t.unlocks);
    }
  }

  // ---------- When the maximum is a bound ----------

  /** Outputs that pay for native tokens do not pay for staking and block issuing. */
  lemma OutputChargesAtMost(nt: nat, s: nat, b: nat, n: nat, st: nat, bi: nat)
    requires nt + 2 * s <= 2 * MAX_COUNT && nt + 2 * b <= 2 * MAX_COUNT
    ensures nt * n + s * st + b * bi <= 2 * MAX_COUNT * n || nt * n + s * st + b * bi <= MAX_COUNT * (st + bi)
  {
    var m := if s < b then b else s;
    MulMonotone(nt, 2 * MAX_COUNT - 2 * m, n);
    MulMonotone(s, m, st);
    MulMonotone(b, m, bi);
    assert (2 * MAX_COUNT - 2 * m) * n == 2 * MAX_COUNT * n - m * (2 * n);
    assert m * st + m * bi == m * (st + bi);
    if st + bi <= 2 * n {
      MulMonotone(st + bi, 2 * n, m);
      assert m * (st + bi) == (st + bi) * m && m * (2 * n) == 2 * n * m;
    } else {
      MulMonotone(m, MAX_COUNT, st + bi - 2 * n);
      assert m * (st + bi - 2 * n) == m * (st + bi) - m * (2 * n);
    }
  }

  /** A native token costs at most as much as staking and block issuing, and 949 / 128 signatures. */
  ghost predicate NativeTokensCheap(p: WorkScoreParameters) {
    MAX_COUNT * p.nativeToken
    <= MAX_COUNT * (p.staking + p.blockIssuer) + (MAX_COUNT * MAX_MULTI_UNLOCKS - MAX_SIGNATURES) * p.signatureEd25519
  }

  lemma LimitedCountsAtMost(p: WorkScoreParameters, c: Counts)
    requires WithinLimits(c) && NativeTokensCheap(p)
    ensures Weighted(p, c) <= MaxScore(p)
  {
    OutputChargesAtMost(c.nativeTokens, c.stakings, c.blockIssuers, p.nativeToken, p.staking, p.blockIssuer);
    MulMonotone(c.bytes, MAX_PAYLOAD_SIZE, p.dataByte);
    MulMonotone(c.inputs, MAX_COUNT, p.input);
    MulMonotone(c.contextInputs, MAX_COUNT, p.contextInput);
    MulMonotone(c.outputs, MAX_COUNT, p.output);
    MulMonotone(c.allotments, MAX_COUNT, p.allotment);
    MulMonotone(c.signatures, MAX_SIGNATURES, p.signatureEd25519);
  }

  /** If native tokens are cheap, the maximum bounds the work score of every block within the limits. */
  lemma MaxBlockWorkBounds(p: WorkScoreParameters, b: Block)
    requires Limited(b) && NativeTokensCheap(p)
    ensures BlockScore(p, b) <= MaxScore(p)
  {
    hide Limited, BlockScore, CountsOf, WithinLimits, Weighted, MaxScore, NativeTokensCheap;
    ScoreIsLinear(p, b);
    CountsWithinLimits(b);
    LimitedCountsAtMost(p, CountsOf(b));
  }

  const ONLY_NATIVE_TOKENS := WorkScoreParameters(0, 0, 0, 0, 0, 1, 0, 0, 0, 0)

  lemma CountsAtMost(p: WorkScoreParameters, c: Counts)
    requires WithinLimits(c) && c.nativeTokens <= MAX_COUNT
    ensures Weighted(p, c) <= MaxScore(p)
  {
    MulMonotone(c.nativeTokens, MAX_COUNT, p.nativeToken);
    MulMonotone(c.stakings, MAX_COUNT, p.staking);
    MulMonotone(c.blockIssuers, MAX_COUNT, p.blockIssuer);
    MulMonotone(c.bytes, MAX_PAYLOAD_SIZE, p.dataByte);
    MulMonotone(c.inputs, MAX_COUNT, p.input);
    MulMonotone(c.contextInputs, MAX_COUNT, p.contextInput);
    MulMonotone(c.outputs, MAX_COUNT, p.output);
    MulMonotone(c.allotments, MAX_COUNT, p.allotment);
    MulMonotone(c.signatures, MAX_COUNT * MAX_MULTI_UNLOCKS, p.signatureEd25519);
  }

  /** The blocks that the maximum bounds whatever the prices are: exactly those that pay for at most 128
      native tokens, where foundries with a native token pay for two. */
  lemma BoundedForAllPricesIff(b: Block)
    requires Limited(b)
    ensures (forall p :: BlockScore(p, b) <= MaxScore(p)) <==> CountsOf(b).nativeTokens <= MAX_COUNT
  {
    hide Limited, BlockScore, CountsOf, WithinLimits, Weighted;
    CountsWithinLimits(b);
    if CountsOf(b).nativeTokens <= MAX_COUNT {
      forall p
        ensures BlockScore(p, b) <= MaxScore(p)
      {
        ScoreIsLinear(p, b);
        CountsAtMost(p, CountsOf(b));
      }
    } else {
      ScoreIsLinear(ONLY_NATIVE_TOKENS, b);
      OnlyNativeTokensCost(CountsOf(b));
      assert BlockScore(ONLY_NATIVE_TOKENS, b) > MaxScore(ONLY_NATIVE_TOKENS);
    }
  }

  lemma OnlyNativeTokensCost(c: Counts)
    ensures Weighted(ONLY_NATIVE_TOKENS, c) == c.nativeTokens
    ensures MaxScore(ONLY_NATIVE_TOKENS) == MAX_COUNT
  {
  }

  // ---------- Blocks that exceed the maximum ----------

  function Zeros(n: nat): Bytes {
    seq(n, _ => 0)
  }

  /** A foundry of the account that holds its own native token. */
  function FoundryOutput(account: Bytes, serialNumber: uint32, immutableFeatures: seq<Feature>): Output {
    var id := FoundryID(account, serialNumber);
    Output(Foundry, Some(FoundryChain(id)), [ImmutableAccount(account)], [NativeToken(id)], immutableFeatures)
  }

  function FoundryOutputs(account: Bytes, n: nat): seq<Output>
    requires n <= MAX_COUNT
  {
    if n == 0 then [] else FoundryOutputs(account, n - 1) + [FoundryOutput(account, n, [])]
  }

  /** Metadata that takes `k` bytes. */
  function Filling(k: nat): seq<Feature> {
    if k < 6 then [] else [Metadata([Entry([97], Zeros(k - 6))])]
  }

  /** n foundries, the last of them with `k` bytes of metadata. */
  function FilledFoundries(account: Bytes, n: nat, k: nat): seq<Output>
    requires 1 <= n <= MAX_COUNT
  {
    FoundryOutputs(account, n - 1) + [FoundryOutput(account, n, Filling(k))]
  }

  /** A block with one parent and a transaction that consumes one input with one signature and creates the
      foundries. */
  function FoundryPayload(account: Bytes, s: Signature, n: nat, k: nat): Payload
    requires 1 <= n <= MAX_COUNT
  {
    SignedTransaction(1, [], 0, [], None, FilledFoundries(account, n, k), [SignatureUnlock(Some(s))])
  }

  function FoundryBlock(account: Bytes, s: Signature, n: nat, k: nat): Block
    requires 1 <= n <= MAX_COUNT
  {
    Block(1, 0, 0, Some(FoundryPayload(account, s, n, k)))
  }

  const ADDRESS_LENGTH := 1 + 32
  const FOUNDRY_SIZE := 218

  /** A fill that can be written as metadata, or none. */
  ghost predicate Fills(k: nat) {
    k == 0 || 6 <= k <= MAX_METADATA_MAP_SIZE
  }

  lemma FoundryOutputIs(account: Bytes, serialNumber: uint32, k: nat)
    requires |account| == ADDRESS_LENGTH && Fills(k)
    ensures var o := FoundryOutput(account, serialNumber, Filling(k));
            && ValidOutput(o) && o.Size() == FOUNDRY_SIZE + k
            && o.chainID == Some(FoundryChain(FoundryID(account, serialNumber)))
            && NativeTokens(o) == 2
            && !HasType(o.features, StakingFeature) && !HasType(o.features, BlockIssuerFeature)
  {
    var o := FoundryOutput(account, serialNumber, Filling(k));
    assert o.features[0].Type() == NativeTokenFeature;
    OneConditionSize(o.conditions[0]);
    OneFeatureSize(o.features[0]);
    FillingSize(k);
  }

  lemma FillingSize(k: nat)
    requires Fills(k)
    ensures FeaturesSize(Filling(k)) == 1 + k
    ensures forall i :: 0 <= i < |Filling(k)| ==> ValidFeature(Filling(k)[i]) && Filling(k)[i].Type() == MetadataFeature
  {
    if k > 0 {
      var entries := [Entry([97], Zeros(k - 6))];
      assert entries[..0] == [] && Filling(k)[..0] == [];
      assert MapSize(entries) == k - 1;
    }
  }

  lemma {:induction false} FoundryOutputsAre(account: Bytes, n: nat)
    requires |account| == ADDRESS_LENGTH && n <= MAX_COUNT
    ensures var os := FoundryOutputs(account, n);
            && |os| == n && OutputsSize(os) == 2 + FOUNDRY_SIZE * n
            && NativeTokensOf(os) == 2 * n
            && OutputsWith(os, StakingFeature) == 0 && OutputsWith(os, BlockIssuerFeature) == 0
            && (forall i :: 0 <= i < n ==> os[i].chainID == Some(FoundryChain(FoundryID(account, i + 1))))
            && (forall i :: 0 <= i < n ==> ValidOutput(os[i]))
  {
    hide HasType, ValidOutput, NativeTokens, Output.Size, FoundryOutput;
    if n > 0 {
      FoundryOutputsAre(account, n - 1);
      FoundryOutputIs(account, n, 0);
      assert FoundryOutputs(account, n)[..n - 1] == FoundryOutputs(account, n - 1);
    }
  }

  lemma FilledFoundriesAre(account: Bytes, n: nat, k: nat)
    requires |account| == ADDRESS_LENGTH && 1 <= n <= MAX_COUNT && Fills(k)
    ensures var os := FilledFoundries(account, n, k);
            && |os| == n && OutputsSize(os) == 2 + FOUNDRY_SIZE * n + k
            && NativeTokensOf(os) == 2 * n
            && OutputsWith(os, StakingFeature) == 0 && OutputsWith(os, BlockIssuerFeature) == 0
            && UniqueChains(os)
            && (forall i :: 0 <= i < n ==> ValidOutput(os[i]))
  {
    hide HasType, ValidOutput, NativeTokens, Output.Size, FoundryOutput, UniqueChains;
    var init, last := FoundryOutputs(account, n - 1), FoundryOutput(account, n, Filling(k));
    FoundryOutputsAre(account, n - 1);
    FoundryOutputIs(account, n, k);
    assert FilledFoundries(account, n, k)[..n - 1] == init;
    FoundriesAreUnique(account, init, last);
  }

  lemma SignatureOnly(s: Signature)
    ensures var us := [SignatureUnlock(Some(s))];
            SignaturesOf(us) == 1 && UnlocksTotal(us) == 1 + SIGNATURE_LENGTH
  {
    assert [SignatureUnlock(Some(s))][..0] == [];
  }

  /** The transaction takes 165 bytes besides the foundries and the filling. */
  lemma FoundryPayloadIs(encode: Encoder, account: Bytes, s: Signature, n: nat, k: nat)
    requires |account| == ADDRESS_LENGTH && 1 <= n <= MAX_COUNT && Fills(k)
    ensures ValidPayload(encode, FoundryPayload(account, s, n, k))
    ensures CountsOf(FoundryBlock(account, s, n, k)) == Counts(165 + FOUNDRY_SIZE * n + k, 1, 0, n, 2 * n, 0, 0, 0, 1)
  {
    hide ValidOutput, NativeTokensOf, OutputsWith, OutputsSize, UniqueChains, FilledFoundries, SignaturesOf, UnlocksTotal,
         Consistent;
    FilledFoundriesAre(account, n, k);
    OneSignatureConsistent(encode, s);
    SignatureOnly(s);
  }

  lemma FoundriesAreUnique(account: Bytes, init: seq<Output>, last: Output)
    requires |init| < MAX_COUNT
    requires forall i :: 0 <= i < |init| ==> init[i].chainID == Some(FoundryChain(FoundryID(account, i + 1)))
    requires last.chainID == Some(FoundryChain(FoundryID(account, |init| + 1)))
    ensures UniqueChains(init + [last])
  {
    var all := init + [last];
    assert forall i :: 0 <= i < |all| ==> all[i].chainID == Some(FoundryChain(FoundryID(account, i + 1)));
  }

  lemma OneSignatureConsistent(encode: Encoder, s: Signature)
    ensures Consistent(encode, [SignatureUnlock(Some(s))])
  {
    assert forall uid :: !SignedInside(SignatureUnlock(Some(s)), uid);
  }

  lemma FoundryBlockValid(encode: Encoder, account: Bytes, s: Signature, n: nat, k: nat)
    requires |account| == ADDRESS_LENGTH && 1 <= n <= MAX_COUNT && Fills(k)
    requires 165 + FOUNDRY_SIZE * n + k <= MAX_PAYLOAD_SIZE
    ensures ValidBlock(encode, FoundryBlock(account, s, n, k))
  {
    hide ValidPayload, FoundryPayload, Payload.Size;
    FoundryPayloadIs(encode, account, s, n, k);
    assert CountsOf(FoundryBlock(account, s, n, k)).bytes == FoundryPayload(account, s, n, k).Size();
  }

  /** With 65 to 128 foundries that hold their native tokens, whatever the account and the signature,
      a valid block exceeds the maximum if only native tokens cost anything. */
  lemma FoundriesExceedMaximum(encode: Encoder, account: Bytes, s: Signature, n: nat)
    requires |account| == ADDRESS_LENGTH && 65 <= n <= MAX_COUNT
    ensures ValidBlock(encode, FoundryBlock(account, s, n, 0))
    ensures BlockScore(ONLY_NATIVE_TOKENS, FoundryBlock(account, s, n, 0)) == 2 * n > MaxScore(ONLY_NATIVE_TOKENS)
  {
    hide ValidBlock, Limited, BlockScore, Weighted, MaxScore, FoundryBlock;
    FoundryBlockValid(encode, account, s, n, 0);
    ValidIsLimited(encode, FoundryBlock(account, s, n, 0));
    FoundryPayloadIs(encode, account, s, n, 0);
    ScoreIsLinear(ONLY_NATIVE_TOKENS, FoundryBlock(account, s, n, 0));
    OnlyNativeTokensCost(CountsOf(FoundryBlock(account, s, n, 0)));
  }

  const FILL_OF_128_FOUNDRIES: int := MAX_PAYLOAD_SIZE - 165 - FOUNDRY_SIZE * MAX_COUNT

  /** If the maximum bounds all valid blocks, then native tokens cost at most this: the block with 128
      foundries can be filled up to the last byte. */
  lemma MaxBlockWorkNeeds(p: WorkScoreParameters, encode: Encoder)
    requires forall b :: ValidBlock(encode, b) ==> BlockScore(p, b) <= MaxScore(p)
    ensures MAX_COUNT * p.nativeToken
         <= MAX_COUNT * (p.staking + p.blockIssuer) + (MAX_COUNT - 1) * p.input +
            MAX_COUNT * (p.contextInput + p.allotment) + (MAX_COUNT * MAX_MULTI_UNLOCKS - 1) * p.signatureEd25519
  {
    hide ValidBlock, Limited, BlockScore, FoundryBlock;
    var account, s, k := Zeros(ADDRESS_LENGTH), Signature([], []), FILL_OF_128_FOUNDRIES;
    FoundryBlockValid(encode, account, s, MAX_COUNT, k);
    FoundryPayloadIs(encode, account, s, MAX_COUNT, k);
    ValidIsLimited(encode, FoundryBlock(account, s, MAX_COUNT, k));
    ScoreIsLinear(p, FoundryBlock(account, s, MAX_COUNT, k));
  }

  /** Where inputs, context inputs, allotments and signatures are free, the maximum bounds all valid blocks
      exactly if a native token costs at most a staking and a block issuer feature together. */
  lemma MaxBlockWorkBoundsIff(p: WorkScoreParameters, encode: Encoder)
    requires p.input == 0 && p.contextInput == 0 && p.allotment == 0 && p.signatureEd25519 == 0
    ensures (forall b :: ValidBlock(encode, b) ==> BlockScore(p, b) <= MaxScore(p))
       <==> p.nativeToken <= p.staking + p.blockIssuer
  {
    hide ValidBlock, Limited, BlockScore, MaxScore;
    if p.nativeToken <= p.staking + p.blockIssuer {
      forall b | ValidBlock(encode, b)
        ensures BlockScore(p, b) <= MaxScore(p)
      {
        ValidIsLimited(encode, b);
        MaxBlockWorkBounds(p, b);
      }
    } else if forall b :: ValidBlock(encode, b) ==> BlockScore(p, b) <= MaxScore(p) {
      MaxBlockWorkNeeds(p, encode);
    }
  }

  /** Elsewhere that condition is not needed: here only native tokens and signatures cost anything. */
  lemma CostlySignaturesBound(b: Block)
    requires Limited(b)
    ensures var p := ONLY_NATIVE_TOKENS.(signatureEd25519 := 1000);
            p.nativeToken > p.staking + p.blockIssuer && BlockScore(p, b) <= MaxScore(p)
  {
    hide Limited, BlockScore, MaxScore;
    MaxBlockWorkBounds(ONLY_NATIVE_TOKENS.(signatureEd25519 := 1000), b);
  }

  // ---------- Transactions with fewer allotments ----------

  lemma {:induction false} SameShapeSameScore(p: WorkScoreParameters, us: seq<Unlock>, vs: seq<Unlock>)
    requires BuilderUnlocks.SameShape(us, vs)
    ensures UnlocksScore(p, us) == UnlocksScore(p, vs) && UnlocksTotal(us) == UnlocksTotal(vs)
  {
    if us != [] {
      SameShapeSameScore(p, us[..|us| - 1], vs[..|vs| - 1]);
      assert us[|us| - 1] == vs[|vs| - 1] || (us[|us| - 1].SignatureUnlock? && vs[|vs| - 1].SignatureUnlock?);
    }
  }

  lemma SmallerSize(t: Payload, allotments: nat, unlocks: seq<Unlock>)
    requires t.SignedTransaction? && allotments <= t.allotments && UnlocksTotal(unlocks) == UnlocksTotal(t.unlocks)
    ensures t.(allotments := allotments, unlocks := unlocks).Size() <= t.Size()
  {
    hide UnlocksTotal, OutputsSize, ContextInputsSize, Tagged.Size;
  }

  lemma DataScoreMonotone(p: WorkScoreParameters, s: Payload, t: Payload)
    requires s.Size() <= t.Size() < TWO_TO_THE_32
    ensures DataScore(p, s) <= DataScore(p, t)
  {
    hide Payload.Size;
    MulMonotone(s.Size(), t.Size(), p.dataByte);
  }

  lemma EssenceScoreMonotone(p: WorkScoreParameters, t: Payload, allotments: nat, unlocks: seq<Unlock>)
    requires t.SignedTransaction? && allotments <= t.allotments < TWO_TO_THE_32
    ensures EssenceScore(p, t.(allotments := allotments, unlocks := unlocks)) <= EssenceScore(p, t)
  {
    MulMonotone(allotments, t.allotments, p.allotment);
  }

  /** Other signatures and fewer allotments make a transaction neither larger nor its work score higher. */
  lemma FewerAllotmentsScoreNoMore(p: WorkScoreParameters, t: Payload, allotments: nat, unlocks: seq<Unlock>)
    requires t.SignedTransaction? && t.Size() < TWO_TO_THE_32 && allotments <= t.allotments < TWO_TO_THE_32
    requires BuilderUnlocks.SameShape(t.unlocks, unlocks)
    ensures var s := t.(allotments := allotments, unlocks := unlocks);
            s.Size() <= t.Size() && PayloadScore(p, s) <= PayloadScore(p, t)
  {
    hide UnlocksScore, OutputsScore, EssenceScore, DataScore, Payload.Size, BuilderUnlocks.SameShape;
    SameShapeSameScore(p, t.unlocks, unlocks);
    SmallerSize(t, allotments, unlocks);
    DataScoreMonotone(p, t.(allotments := allotments, unlocks := unlocks), t);
    EssenceScoreMonotone(p, t, allotments, unlocks);
  }

  // ---------- Valid blocks have a work score ----------

  /** Signatures are missing exactly in signature unlocks that hold none, at any depth. */
  lemma NilSignatureIff(s: Option<Signature>, kind: ReferenceKind, r: uint16, us: seq<Unlock>)
    ensures NoNilSignature(SignatureUnlock(s)) <==> s.Some?
    ensures NoNilSignature(Referential(kind, r)) && NoNilSignature(EmptyUnlock)
    ensures NoNilSignature(MultiUnlock(us)) <==> forall k :: 0 <= k < |us| ==> NoNilSignature(us[k])
  {
  }

  /** Every valid block has all its signatures, so its work score can be computed. */
  lemma ValidBlockHasSignatures(encode: Encoder, b: Block)
    requires ValidBlock(encode, b)
    ensures b.payload.Some? ==> HasSignatures(b.payload.value)
  {
    hide Payload.Size, ValidOutput, UniqueChains, ValidContextInputs, ReferencesBackwards, SignersUnique,
         MultiUnlocksUnique;
    if b.payload.Some? && b.payload.value.SignedTransaction? {
      var unlocks := b.payload.value.unlocks;
      forall k | 0 <= k < |unlocks|
        ensures NoNilSignature(unlocks[k])
      {
        assert WellFormed(unlocks[k]);
      }
    }
  }
}
