/** The work score of basic blocks and its maximum (workscore.go and the WorkScore methods). */
module WorkScore {
  import opened Common
  import opened Words
  import opened UnlockValidator
  import opened Payloads

  type Score = uint32

  datatype WorkScoreParameters = WorkScoreParameters(
    dataByte: Score,
    block: Score,
    input: Score,
    contextInput: Score,
    output: Score,
    nativeToken: Score,
    staking: Score,
    blockIssuer: Score,
    allotment: Score,
    signatureEd25519: Score)

  // ---------- The exact score, without overflow ----------

  function FeatureScore(p: WorkScoreParameters, f: Feature): nat {
    match f
    case NativeToken(_) => p.nativeToken
    case BlockIssuer(_) => p.blockIssuer
    case Staking => p.staking
    case _ => 0
  }

  function FeaturesScore(p: WorkScoreParameters, features: seq<Feature>): nat {
    if features == [] then 0
    else FeaturesScore(p, features[..|features| - 1]) + FeatureScore(p, features[|features| - 1])
  }

  /** The simple token scheme costs as much as a native token. */
  function TokenSchemeScore(p: WorkScoreParameters, o: Output): nat {
    if o.outputType == Foundry then p.nativeToken else 0
  }

  function OutputScore(p: WorkScoreParameters, o: Output): nat {
    p.output + TokenSchemeScore(p, o) + FeaturesScore(p, o.features) + FeaturesScore(p, o.immutableFeatures)
  }

  function OutputsScore(p: WorkScoreParameters, outputs: seq<Output>): nat {
    if outputs == [] then 0
    else OutputsScore(p, outputs[..|outputs| - 1]) + OutputScore(p, outputs[|outputs| - 1])
  }

  function UnlockScore(p: WorkScoreParameters, u: Unlock): nat
    decreases u, 0
  {
    match u
    case SignatureUnlock(_) => p.signatureEd25519
    case MultiUnlock(us) => UnlocksScore(p, us)
    case _ => 0
  }

  function UnlocksScore(p: WorkScoreParameters, unlocks: seq<Unlock>): nat
    decreases unlocks, |unlocks|
  {
    if unlocks == [] then 0
    else UnlocksScore(p, unlocks[..|unlocks| - 1]) + UnlockScore(p, unlocks[|unlocks| - 1])
  }

  /** An int converted to 32 bits. */
  function Truncated(n: nat): Score {
    n % TWO_TO_THE_32
  }

  function EssenceScore(p: WorkScoreParameters, t: Payload): nat
    requires t.SignedTransaction?
  {
    |t.contextInputs| * p.contextInput + t.inputs * p.input + p.allotment * Truncated(t.allotments)
  }

  function DataScore(p: WorkScoreParameters, payload: Payload): nat {
    p.dataByte * Truncated(payload.Size())
  }

  function PayloadScore(p: WorkScoreParameters, payload: Payload): nat {
    p.block + DataScore(p, payload) +
    if payload.SignedTransaction? then
      EssenceScore(p, payload) + OutputsScore(p, payload.outputs) + UnlocksScore(p, payload.unlocks)
    else
      0
  }

  function BlockScore(p: WorkScoreParameters, b: Block): nat {
    match b.payload
    case Some(payload) => PayloadScore(p, payload)
    case None => p.block
  }

  // ---------- The score as it is computed, with checked 32-bit arithmetic ----------

  /** The exact value if it fits 32 bits, otherwise an error. */
  predicate Computes(r: Option<Score>, exact: nat) {
    if exact < TWO_TO_THE_32 then r == Some(exact) else r.None?
  }

  function SafeAdd32(x: Score, y: Score): (r: Option<Score>)
    ensures Computes(r, x + y)
  {
    if x + y < TWO_TO_THE_32 then Some(x + y) else None
  }

  function Multiply(w: Score, n: nat): (r: Option<Score>)
    ensures Computes(r, w * Truncated(n))
  {
    if w * Truncated(n) < TWO_TO_THE_32 then Some(w * Truncated(n)) else None
  }

  function Sum(scores: seq<Score>): nat {
    if scores == [] then 0 else Sum(scores[..|scores| - 1]) + scores[|scores| - 1]
  }

  method Add(w: Score, scores: seq<Score>) returns (r: Option<Score>)
    ensures Computes(r, w + Sum(scores))
  {
    var result := w;
    for i := 0 to |scores|
      invariant result == w + Sum(scores[..i])
    {
      assert scores[..i + 1][..i] == scores[..i];
      var next := SafeAdd32(result, scores[i]);
      if next.None? {
        SumOfPrefix(scores, i + 1);
        return None;
      }
      result := next.value;
    }
    assert scores[..|scores|] == scores;
    return Some(result);
  }

  lemma {:induction false} SumOfPrefix(scores: seq<Score>, i: nat)
    requires i <= |scores|
    ensures Sum(scores[..i]) <= Sum(scores)
  {
    if i < |scores| {
      assert scores[..|scores| - 1][..i] == scores[..i];
      SumOfPrefix(scores[..|scores| - 1], i);
    } else {
      assert scores[..i] == scores;
    }
  }

  method FeaturesWorkScore(p: WorkScoreParameters, features: seq<Feature>) returns (r: Option<Score>)
    ensures Computes(r, FeaturesScore(p, features))
  {
    var workScoreFeats: Score := 0;
    for i := 0 to |features|
      invariant workScoreFeats == FeaturesScore(p, features[..i])
    {
      assert features[..i + 1][..i] == features[..i];
      var sum := SafeAdd32(workScoreFeats, FeatureScore(p, features[i]));
      if sum.None? {
        FeaturesPrefix(p, features, i + 1);
        return None;
      }
      workScoreFeats := sum.value;
    }
    assert features[..|features|] == features;
    return Some(workScoreFeats);
  }

  lemma {:induction false} FeaturesPrefix(p: WorkScoreParameters, features: seq<Feature>, i: nat)
    requires i <= |features|
    ensures FeaturesScore(p, features[..i]) <= FeaturesScore(p, features)
  {
    if i < |features| {
      assert features[..|features| - 1][..i] == features[..i];
      FeaturesPrefix(p, features[..|features| - 1], i);
    } else {
      assert features[..i] == features;
    }
  }

  method OutputWorkScore(p: WorkScoreParameters, o: Output) returns (r: Option<Score>)
    ensures Computes(r, OutputScore(p, o))
  {
    var features := FeaturesWorkScore(p, o.features);
    if features.None? {
      return None;
    }
    var immutableFeatures := FeaturesWorkScore(p, o.immutableFeatures);
    if immutableFeatures.None? {
      return None;
    }
    var scores := [TokenSchemeScore(p, o), features.value, immutableFeatures.value];
    SumOfThree(scores);
    r := Add(p.output, scores);
  }

  lemma SumOfThree(scores: seq<Score>)
    requires |scores| == 3
    ensures Sum(scores) == scores[0] as int + scores[1] as int + scores[2] as int
  {
    var two := scores[..2];
    var one := two[..1];
    assert one[..0] == [];
    assert Sum(one) == scores[0] && Sum(two) == Sum(one) + scores[1];
  }

  method OutputsWorkScore(p: WorkScoreParameters, outputs: seq<Output>) returns (r: Option<Score>)
    ensures Computes(r, OutputsScore(p, outputs))
  {
    var workScoreOutputs: Score := 0;
    for i := 0 to |outputs|
      invariant workScoreOutputs == OutputsScore(p, outputs[..i])
    {
      assert outputs[..i + 1][..i] == outputs[..i];
      OutputsPrefix(p, outputs, i + 1);
      var workScoreOutput := OutputWorkScore(p, outputs[i]);
      if workScoreOutput.None? {
        return None;
      }
      var sum := SafeAdd32(workScoreOutputs, workScoreOutput.value);
      if sum.None? {
        return None;
      }
      workScoreOutputs := sum.value;
    }
    assert outputs[..|outputs|] == outputs;
    return Some(workScoreOutputs);
  }

  lemma {:induction false} OutputsPrefix(p: WorkScoreParameters, outputs: seq<Output>, i: nat)
    requires i <= |outputs|
    ensures OutputsScore(p, outputs[..i]) <= OutputsScore(p, outputs)
  {
    if i < |outputs| {
      assert outputs[..|outputs| - 1][..i] == outputs[..i];
      OutputsPrefix(p, outputs[..|outputs| - 1], i);
    } else {
      assert outputs[..i] == outputs;
    }
  }

  /** No signature unlock, at any depth, has a nil signature. */
  predicate NoNilSignature(u: Unlock) {
    match u
    case SignatureUnlock(s) => s.Some?
    case MultiUnlock(us) => forall k :: 0 <= k < |us| ==> NoNilSignature(us[k])
    case _ => true
  }

  method UnlockWorkScore(p: WorkScoreParameters, u: Unlock) returns (r: Option<Score>)
    requires NoNilSignature(u)
    ensures Computes(r, UnlockScore(p, u))
    decreases u, 0
  {
    match u
    case SignatureUnlock(_) =>
      return Some(p.signatureEd25519);
    case MultiUnlock(us) =>
      r := UnlocksWorkScore(p, us);
    case _ =>
      return Some(0);
  }

  /** The loop over all unlocks, and over those inside a multi unlock. */
  method UnlocksWorkScore(p: WorkScoreParameters, unlocks: seq<Unlock>) returns (r: Option<Score>)
    requires forall k :: 0 <= k < |unlocks| ==> NoNilSignature(unlocks[k])
    ensures Computes(r, UnlocksScore(p, unlocks))
    decreases unlocks, |unlocks|
  {
    var sum: Score := 0;
    for i := 0 to |unlocks|
      invariant sum == UnlocksScore(p, unlocks[..i])
    {
      assert unlocks[..i + 1][..i] == unlocks[..i];
      UnlocksPrefix(p, unlocks, i + 1);
      var unlockWorkScore := UnlockWorkScore(p, unlocks[i]);
      if unlockWorkScore.None? {
        return None;
      }
      var next := SafeAdd32(sum, unlockWorkScore.value);
      if next.None? {
        return None;
      }
      sum := next.value;
    }
    assert unlocks[..|unlocks|] == unlocks;
    return Some(sum);
  }

  lemma {:induction false} UnlocksPrefix(p: WorkScoreParameters, unlocks: seq<Unlock>, i: nat)
    requires i <= |unlocks|
    ensures UnlocksScore(p, unlocks[..i]) <= UnlocksScore(p, unlocks)
  {
    if i < |unlocks| {
      assert unlocks[..|unlocks| - 1][..i] == unlocks[..i];
      UnlocksPrefix(p, unlocks[..|unlocks| - 1], i);
    } else {
      assert unlocks[..i] == unlocks;
    }
  }

  /** The loops over inputs and over context inputs; all inputs score the same. */
  method InputsWorkScore(inputScore: Score, count: nat) returns (r: Option<Score>)
    ensures Computes(r, count * inputScore)
  {
    var workScoreInputs: Score := 0;
    for i := 0 to count
      invariant workScoreInputs == i * inputScore
    {
      MulMonotone(i + 1, count, inputScore);
      var sum := SafeAdd32(workScoreInputs, inputScore);
      if sum.None? {
        return None;
      }
      workScoreInputs := sum.value;
    }
    return Some(workScoreInputs);
  }

  method EssenceWorkScore(p: WorkScoreParameters, t: Payload) returns (r: Option<Score>)
    requires t.SignedTransaction?
    ensures Computes(r, EssenceScore(p, t))
  {
    var contextInputs := InputsWorkScore(p.contextInput, |t.contextInputs|);
    if contextInputs.None? {
      return None;
    }
    var inputs := InputsWorkScore(p.input, t.inputs);
    if inputs.None? {
      return None;
    }
    var allotments := Multiply(p.allotment, t.allotments);
    if allotments.None? {
      return None;
    }
    SumOfTwo([inputs.value, allotments.value]);
    r := Add(contextInputs.value, [inputs.value, allotments.value]);
  }

  lemma SumOfTwo(scores: seq<Score>)
    requires |scores| == 2
    ensures Sum(scores) == scores[0] as int + scores[1] as int
  {
    var one := scores[..1];
    assert one[..0] == [];
    assert Sum(one) == scores[0];
  }

  method TransactionWorkScore(p: WorkScoreParameters, t: Payload) returns (r: Option<Score>)
    requires t.SignedTransaction?
    ensures Computes(r, EssenceScore(p, t) + OutputsScore(p, t.outputs))
  {
    var essence := EssenceWorkScore(p, t);
    if essence.None? {
      return None;
    }
    var outputs := OutputsWorkScore(p, t.outputs);
    if outputs.None? {
      return None;
    }
    r := SafeAdd32(essence.value, outputs.value);
  }

  ghost predicate HasSignatures(payload: Payload) {
    payload.SignedTransaction? ==> forall k :: 0 <= k < |payload.unlocks| ==> NoNilSignature(payload.unlocks[k])
  }

  method PayloadWorkScore(p: WorkScoreParameters, payload: Payload) returns (r: Option<Score>)
    requires HasSignatures(payload)
    ensures Computes(r, PayloadScore(p, payload))
  {
    var data := Multiply(p.dataByte, payload.Size());
    if data.None? {
      return None;
    }
    if !payload.SignedTransaction? {
      r := SafeAdd32(p.block, data.value);
      return;
    }
    var transaction := TransactionWorkScore(p, payload);
    if transaction.None? {
      return None;
    }
    var unlocks := UnlocksWorkScore(p, payload.unlocks);
    if unlocks.None? {
      return None;
    }
    SumOfThree([data.value, transaction.value, unlocks.value]);
    r := Add(p.block, [data.value, transaction.value, unlocks.value]);
  }

  method BlockWorkScore(p: WorkScoreParameters, b: Block) returns (r: Option<Score>)
    requires b.payload.Some? ==> HasSignatures(b.payload.value)
    ensures Computes(r, BlockScore(p, b))
  {
    if b.payload.Some? {
      r := PayloadWorkScore(p, b.payload.value);
    } else {
      r := Some(p.block);
    }
  }

  // ---------- The maximum ----------

  function MaxScore(p: WorkScoreParameters): nat {
    p.dataByte * MAX_PAYLOAD_SIZE + p.block + p.input * MAX_COUNT + p.contextInput * MAX_COUNT +
    p.output * MAX_COUNT + p.nativeToken * MAX_COUNT + p.staking * MAX_COUNT + p.blockIssuer * MAX_COUNT +
    p.allotment * MAX_COUNT + p.signatureEd25519 * (MAX_COUNT * MAX_MULTI_UNLOCKS)
  }

  /** The largest payload, one block, 128 of everything countable, and ten signatures for each of 128
      inputs. */
  lemma MaxScoreIs(p: WorkScoreParameters)
    ensures MaxScore(p) == 32530 * p.dataByte + p.block
      + 128 * (p.input + p.contextInput + p.output + p.nativeToken + p.staking + p.blockIssuer + p.allotment)
      + 1280 * p.signatureEd25519
  {
  }

  /** The accumulated maximum and the remembered error, against the exact sum. */
  ghost predicate Accumulates(maxBlockWork: Score, innerErr: bool, exact: nat) {
    if innerErr then exact >= TWO_TO_THE_32 else maxBlockWork == exact
  }

  /** Adds a score times an amount. An error is remembered, and the result of the failed operation is 0. */
  method AddWorkScore(maxBlockWork: Score, innerErr: bool, w: Score, amount: nat, ghost exact: nat)
      returns (newMax: Score, newErr: bool)
    requires amount < TWO_TO_THE_32 && Accumulates(maxBlockWork, innerErr, exact)
    ensures Accumulates(newMax, newErr, exact + w * amount)
  {
    newErr := innerErr;
    var product := Multiply(w, amount);
    if product.None? {
      newErr := true;
    }
    var result := if product.Some? then product.value else 0;
    var sum := SafeAdd32(maxBlockWork, result);
    if sum.None? {
      newErr := true;
    }
    newMax := if sum.Some? then sum.value else 0;
    MulMonotone(0, w, amount);
  }

  method MaxBlockWork(p: WorkScoreParameters) returns (r: Option<Score>)
    ensures Computes(r, MaxScore(p))
  {
    hide Accumulates;
    var max, err: bool := 0, false;
    AccumulatesNothing();
    ghost var s := 0;
    max, err := AddWorkScore(max, err, p.dataByte, MAX_PAYLOAD_SIZE, s);
    s := s + p.dataByte * MAX_PAYLOAD_SIZE;
    max, err := AddWorkScore(max, err, p.block, 1, s);
    s := s + p.block * 1;
    max, err := AddWorkScore(max, err, p.input, MAX_COUNT, s);
    s := s + p.input * MAX_COUNT;
    max, err := AddWorkScore(max, err, p.contextInput, MAX_COUNT, s);
    s := s + p.contextInput * MAX_COUNT;
    max, err := AddWorkScore(max, err, p.output, MAX_COUNT, s);
    s := s + p.output * MAX_COUNT;
    max, err := AddWorkScore(max, err, p.nativeToken, MAX_COUNT, s);
    s := s + p.nativeToken * MAX_COUNT;
    max, err := AddWorkScore(max, err, p.staking, MAX_COUNT, s);
    s := s + p.staking * MAX_COUNT;
    max, err := AddWorkScore(max, err, p.blockIssuer, MAX_COUNT, s);
    s := s + p.blockIssuer * MAX_COUNT;
    max, err := AddWorkScore(max, err, p.allotment, MAX_COUNT, s);
    s := s + p.allotment * MAX_COUNT;
    max, err := AddWorkScore(max, err, p.signatureEd25519, MAX_COUNT * MAX_MULTI_UNLOCKS, s);
    s := s + p.signatureEd25519 * (MAX_COUNT * MAX_MULTI_UNLOCKS);
    AccumulatedComputes(max, err, s);
    if err {
      return None;
    }
    return Some(max);
  }

  lemma AccumulatesNothing()
    ensures Accumulates(0, false, 0)
  {
  }

  lemma AccumulatedComputes(max: Score, err: bool, exact: nat)
    requires Accumulates(max, err, exact)
    ensures Computes(if err then None else Some(max), exact)
  {
  }
}
