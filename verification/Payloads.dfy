/** Blocks and the parts of their payloads, with their sizes (the Size methods) and the limits that
    serialization and syntactic validation enforce. Numbers of a fixed width and identifiers that only
    tell inputs or allotments apart are left out. */
module Payloads {
  import opened Common
  import opened Words
  import opened UnlockValidator
  import opened ContextInputs

  datatype FeatureType =
    | SenderFeature | IssuerFeature | MetadataFeature | StateMetadataFeature
    | TagFeature | NativeTokenFeature | BlockIssuerFeature | StakingFeature

  /** A foundry's account address and serial number; the only token scheme is the simple one. */
  datatype FoundryID = FoundryID(account: Bytes, serialNumber: uint32)

  datatype Entry = Entry(key: Bytes, value: Bytes)

  /** Addresses are given by their serialization. */
  datatype Feature =
    | Sender(address: Bytes)
    | Issuer(address: Bytes)
    | Metadata(entries: seq<Entry>)
    | StateMetadata(entries: seq<Entry>)
    | Tag(tag: Bytes)
    | NativeToken(id: FoundryID)
    | BlockIssuer(keys: seq<Bytes>)
    | Staking
  {
    function Type(): FeatureType {
      match this
      case Sender(_) => SenderFeature
      case Issuer(_) => IssuerFeature
      case Metadata(_) => MetadataFeature
      case StateMetadata(_) => StateMetadataFeature
      case Tag(_) => TagFeature
      case NativeToken(_) => NativeTokenFeature
      case BlockIssuer(_) => BlockIssuerFeature
      case Staking => StakingFeature
    }

    function Size(): nat {
      match this
      case Sender(address) => 1 + |address|
      case Issuer(address) => 1 + |address|
      case Metadata(entries) => 1 + MapSize(entries)
      case StateMetadata(entries) => 1 + MapSize(entries)
      case Tag(tag) => 1 + 1 + |tag|
      case NativeToken(_) => 1 + FOUNDRY_ID_LENGTH + 32
      case BlockIssuer(keys) => 1 + 4 + (1 + |keys| * BLOCK_ISSUER_KEY_LENGTH)
      case Staking => 1 + 8 + 8 + 4 + 4
    }
  }

  const FOUNDRY_ID_LENGTH := (1 + 32) + 4 + 1
  const BLOCK_ISSUER_KEY_LENGTH := 1 + 32

  /** One byte for the number of entries, and each key and value with its length. */
  function MapSize(entries: seq<Entry>): nat {
    if entries == [] then 1
    else
      var last := entries[|entries| - 1];
      MapSize(entries[..|entries| - 1]) + (1 + |last.key| + 2 + |last.value|)
  }

  function FeaturesSize(features: seq<Feature>): nat {
    if features == [] then 1
    else FeaturesSize(features[..|features| - 1]) + features[|features| - 1].Size()
  }

  datatype UnlockCondition =
    | AddressCondition(address: Bytes)
    | StorageDepositReturn(returnAddress: Bytes)
    | Timelock
    | Expiration(returnAddress: Bytes)
    | StateController(address: Bytes)
    | Governor(address: Bytes)
    | ImmutableAccount(address: Bytes)
  {
    function Size(): nat {
      match this
      case StorageDepositReturn(returnAddress) => 1 + |returnAddress| + 8
      case Timelock => 1 + 4
      case Expiration(returnAddress) => 1 + |returnAddress| + 4
      case AddressCondition(address) => 1 + |address|
      case StateController(address) => 1 + |address|
      case Governor(address) => 1 + |address|
      case ImmutableAccount(address) => 1 + |address|
    }
  }

  function ConditionsSize(conditions: seq<UnlockCondition>): nat {
    if conditions == [] then 1
    else ConditionsSize(conditions[..|conditions| - 1]) + conditions[|conditions| - 1].Size()
  }

  datatype OutputType = Basic | Account | Anchor | Foundry | NFT | Delegation

  datatype ChainID = UTXOChain(utxoID: Bytes) | FoundryChain(foundryID: FoundryID)

  /** An output; the chain ID is None for basic outputs and for chains that are newly created. */
  datatype Output = Output(outputType: OutputType, chainID: Option<ChainID>, conditions: seq<UnlockCondition>,
                           features: seq<Feature>, immutableFeatures: seq<Feature>)
  {
    /** The fields that every output of this type has. */
    function FixedSize(): nat {
      match outputType
      case Basic => 1 + 8 + 8
      case Account => 1 + 8 + 8 + 32 + 4
      case Anchor => 1 + 8 + 8 + 32 + 4
      case Foundry => 1 + 8 + 4 + (1 + 32 + 32 + 32)
      case NFT => 1 + 8 + 8 + 32
      case Delegation => 1 + 8 + 8 + 32 + (1 + 32) + 4 + 4
    }

    function Size(): nat {
      FixedSize() + ConditionsSize(conditions) +
      (if outputType == Delegation then 0 else FeaturesSize(features)) +
      (if outputType in {Basic, Delegation} then 0 else FeaturesSize(immutableFeatures))
    }
  }

  function OutputsSize(outputs: seq<Output>): nat {
    if outputs == [] then 2
    else OutputsSize(outputs[..|outputs| - 1]) + outputs[|outputs| - 1].Size()
  }

  function ContextInputSize(c: ContextInput): nat {
    match c
    case CommitmentInput(_) => 1 + (32 + 4)
    case BlockIssuanceCreditInput(_) => 1 + 32
    case RewardInput(_) => 1 + 2
  }

  function ContextInputsSize(contextInputs: seq<ContextInput>): nat {
    if contextInputs == [] then 2
    else ContextInputsSize(contextInputs[..|contextInputs| - 1]) + ContextInputSize(contextInputs[|contextInputs| - 1])
  }

  function UnlockSize(u: Unlock): nat
    decreases u, 0
  {
    match u
    case SignatureUnlock(_) => 1 + SIGNATURE_LENGTH
    case Referential(_, _) => 1 + 2
    case MultiUnlock(us) => 1 + (1 + UnlocksTotal(us))
    case EmptyUnlock => 1
  }

  function UnlocksTotal(unlocks: seq<Unlock>): nat
    decreases unlocks, |unlocks|
  {
    if unlocks == [] then 0
    else UnlocksTotal(unlocks[..|unlocks| - 1]) + UnlockSize(unlocks[|unlocks| - 1])
  }

  datatype Tagged = Tagged(tag: Bytes, data: Bytes)
  {
    function Size(): nat {
      1 + (1 + |tag|) + (4 + |data|)
    }
  }

  /** `inputs` and `allotments` are the numbers of inputs and allotments, which are all of one size. */
  datatype Payload =
    | TaggedData(tagged: Tagged)
    | CandidacyAnnouncement
    | SignedTransaction(inputs: nat, contextInputs: seq<ContextInput>, allotments: nat, capabilities: Bytes,
                        payload: Option<Tagged>, outputs: seq<Output>, unlocks: seq<Unlock>)
  {
    function Size(): nat {
      match this
      case TaggedData(tagged) => tagged.Size()
      case CandidacyAnnouncement => 1
      case SignedTransaction(inputs, contextInputs, allotments, capabilities, payload, outputs, unlocks) =>
        1 + (EssenceSize(inputs, contextInputs, allotments, capabilities, payload) + OutputsSize(outputs)) +
        (2 + UnlocksTotal(unlocks))
    }
  }

  function EssenceSize(inputs: nat, contextInputs: seq<ContextInput>, allotments: nat, capabilities: Bytes,
                       payload: Option<Tagged>): nat
  {
    8 + 4 + ContextInputsSize(contextInputs) + (2 + inputs * (1 + (32 + 4) + 2)) + (2 + allotments * (32 + 8)) +
    (1 + |capabilities|) + (if payload.Some? then payload.value.Size() else 4)
  }

  /** A basic block with the numbers of its parents. */
  datatype Block = Block(strongParents: nat, weakParents: nat, shallowLikeParents: nat, payload: Option<Payload>)
  {
    function Size(): nat {
      BLOCK_HEADER_LENGTH + BASIC_BLOCK_SIZE_EMPTY +
      (strongParents + weakParents + shallowLikeParents) * BLOCK_ID_LENGTH +
      (if payload.Some? then payload.value.Size() else 0) + SIGNATURE_LENGTH
    }
  }

  const MAX_BLOCK_SIZE := 32768
  const BLOCK_HEADER_LENGTH := 1 + 8 + 8 + (32 + 4) + 4 + 32
  const BASIC_BLOCK_SIZE_EMPTY := 1 + 1 + 1 + 1 + 4 + 8
  const BLOCK_ID_LENGTH := 32 + 4
  const SIGNATURE_LENGTH := 1 + 32 + 64
  const MAX_PAYLOAD_SIZE: int :=
    MAX_BLOCK_SIZE - BLOCK_HEADER_LENGTH - BASIC_BLOCK_SIZE_EMPTY - BLOCK_ID_LENGTH - SIGNATURE_LENGTH

  const MAX_PARENTS := 8
  const MAX_COUNT := 128
  const MIN_MULTI_UNLOCKS := 2
  const MAX_MULTI_UNLOCKS := 10
  const MAX_METADATA_MAP_SIZE := 8192
  const MAX_TAG_LENGTH := 64
  const MAX_DATA_LENGTH := 8192
  const MAX_BLOCK_ISSUER_KEYS := 128

  // ---------- What serialization and syntactic validation accept ----------

  ghost predicate AllowedFeature(t: OutputType, f: FeatureType) {
    match t
    case Basic => f in {SenderFeature, MetadataFeature, TagFeature, NativeTokenFeature}
    case Account => f in {SenderFeature, MetadataFeature, BlockIssuerFeature, StakingFeature}
    case Anchor => f in {MetadataFeature, StateMetadataFeature}
    case Foundry => f in {MetadataFeature, NativeTokenFeature}
    case NFT => f in {SenderFeature, MetadataFeature, TagFeature}
    case Delegation => false
  }

  ghost predicate AllowedImmutableFeature(t: OutputType, f: FeatureType) {
    match t
    case Account => f in {IssuerFeature, MetadataFeature}
    case Anchor => f in {IssuerFeature, MetadataFeature}
    case Foundry => f == MetadataFeature
    case NFT => f in {IssuerFeature, MetadataFeature}
    case _ => false
  }

  ghost predicate DistinctFeatures(features: seq<Feature>) {
    forall i, j :: 0 <= i < j < |features| ==> features[i].Type() != features[j].Type()
  }

  ghost predicate HasType(features: seq<Feature>, t: FeatureType) {
    exists i :: 0 <= i < |features| && features[i].Type() == t
  }

  ghost predicate ValidEntries(entries: seq<Entry>) {
    && 1 <= |entries| < 256 && MapSize(entries) <= MAX_METADATA_MAP_SIZE
    && (forall i :: 0 <= i < |entries| ==> |entries[i].key| < 256 && |entries[i].value| < TWO_TO_THE_16)
    && (forall i, k :: 0 <= i < |entries| && 0 <= k < |entries[i].key| ==> 33 <= entries[i].key[k] <= 126)
    && (forall i, j :: 0 <= i < j < |entries| ==> entries[i].key != entries[j].key)
  }

  ghost predicate ValidFeature(f: Feature) {
    match f
    case Metadata(entries) => ValidEntries(entries)
    case StateMetadata(entries) => ValidEntries(entries)
    case Tag(tag) => 1 <= |tag| <= MAX_TAG_LENGTH
    case BlockIssuer(keys) => 1 <= |keys| <= MAX_BLOCK_ISSUER_KEYS
    case _ => true
  }

  ghost predicate ValidFeatures(o: Output) {
    && DistinctFeatures(o.features) && DistinctFeatures(o.immutableFeatures)
    && (forall i :: 0 <= i < |o.features| ==> AllowedFeature(o.outputType, o.features[i].Type()))
    && (forall i :: 0 <= i < |o.immutableFeatures| ==>
         AllowedImmutableFeature(o.outputType, o.immutableFeatures[i].Type()))
  }

  ghost predicate FeatureContents(o: Output) {
    && (forall i :: 0 <= i < |o.features| ==> ValidFeature(o.features[i]))
    && (forall i :: 0 <= i < |o.immutableFeatures| ==> ValidFeature(o.immutableFeatures[i]))
  }

  /** The conditions that must occur and those that may follow, each at most once. */
  ghost predicate ValidConditions(o: Output) {
    var c := o.conditions;
    match o.outputType
    case Foundry => |c| == 1 && c[0].ImmutableAccount? && |c[0].address| == 1 + 32
    case Anchor => |c| == 2 && c[0].StateController? && c[1].Governor?
    case Account => |c| == 1 && c[0].AddressCondition?
    case Delegation => |c| == 1 && c[0].AddressCondition?
    case _ =>
      && 1 <= |c| <= 4 && c[0].AddressCondition?
      && (forall i :: 1 <= i < |c| ==> c[i].StorageDepositReturn? || c[i].Timelock? || c[i].Expiration?)
      && (forall i, j :: 1 <= i < j < |c| ==> !SameCondition(c[i], c[j]))
  }

  ghost predicate SameCondition(c: UnlockCondition, d: UnlockCondition) {
    (c.StorageDepositReturn? <==> d.StorageDepositReturn?) && (c.Timelock? <==> d.Timelock?)
  }

  /** The chain ID is of the type's kind; a foundry's names its account, and native tokens in a foundry
      are its own. */
  ghost predicate ValidChain(o: Output) {
    match o.outputType
    case Basic => o.chainID.None?
    case Foundry =>
      && o.chainID.Some? && o.chainID.value.FoundryChain?
      && (o.conditions != [] && o.conditions[0].ImmutableAccount? ==>
            o.chainID.value.foundryID.account == o.conditions[0].address)
      && (forall i :: 0 <= i < |o.features| && o.features[i].NativeToken? ==> o.features[i].id == o.chainID.value.foundryID)
    case _ => o.chainID.Some? ==> o.chainID.value.UTXOChain?
  }

  /** Staking accounts are block issuers. */
  ghost predicate ValidStaking(o: Output) {
    HasType(o.features, StakingFeature) ==> HasType(o.features, BlockIssuerFeature)
  }

  ghost predicate ValidOutput(o: Output) {
    ValidFeatures(o) && FeatureContents(o) && ValidConditions(o) && ValidChain(o) && ValidStaking(o)
  }

  ghost predicate UniqueChains(outputs: seq<Output>) {
    forall i, j :: 0 <= i < j < |outputs| && outputs[i].chainID.Some? ==> outputs[i].chainID != outputs[j].chainID
  }

  ghost predicate ValidUnlock(u: Unlock) {
    WellFormed(u) && (u.MultiUnlock? ==> MIN_MULTI_UNLOCKS <= |u.unlocks| <= MAX_MULTI_UNLOCKS)
  }

  /** Context inputs are in lexical order and unique, others than commitments need one, which then comes
      first, and rewards name inputs. */
  ghost predicate ValidContextInputs(contextInputs: seq<ContextInput>, inputs: nat) {
    && |contextInputs| <= MAX_COUNT
    && (forall i, j :: 0 <= i < j < |contextInputs| ==> contextInputs[i].Before(contextInputs[j]))
    && (contextInputs != [] ==> contextInputs[0].CommitmentInput?)
    && (forall i :: 0 <= i < |contextInputs| && contextInputs[i].RewardInput? ==> contextInputs[i].index < inputs)
  }

  ghost predicate ValidTagged(t: Tagged) {
    |t.tag| <= MAX_TAG_LENGTH && |t.data| <= MAX_DATA_LENGTH
  }

  ghost predicate ValidPayload(encode: Encoder, p: Payload) {
    match p
    case TaggedData(tagged) => ValidTagged(tagged)
    case CandidacyAnnouncement => true
    case SignedTransaction(inputs, contextInputs, allotments, capabilities, payload, outputs, unlocks) =>
      && 1 <= inputs <= MAX_COUNT && ValidContextInputs(contextInputs, inputs) && allotments <= MAX_COUNT
      && |capabilities| <= 1 && capabilities != [0]
      && (payload.Some? ==> ValidTagged(payload.value))
      && 1 <= |outputs| <= MAX_COUNT && UniqueChains(outputs)
      && (forall k :: 0 <= k < |outputs| ==> ValidOutput(outputs[k]))
      && |unlocks| == inputs && Consistent(encode, unlocks)
      && (forall k :: 0 <= k < |unlocks| ==> ValidUnlock(unlocks[k]))
  }

  /** What is checked of a basic block before its slots, parents and signature are compared with anything. */
  ghost predicate ValidBlock(encode: Encoder, b: Block) {
    && 1 <= b.strongParents <= MAX_PARENTS && b.weakParents <= MAX_PARENTS && b.shallowLikeParents <= MAX_PARENTS
    && b.Size() <= MAX_BLOCK_SIZE
    && (b.payload.Some? ==> ValidPayload(encode, b.payload.value))
  }

  /** The limits on sizes, counts and features alone. */
  ghost predicate LimitedPayload(p: Payload) {
    && p.Size() <= MAX_PAYLOAD_SIZE
    && (p.SignedTransaction? ==>
          && p.inputs <= MAX_COUNT && |p.contextInputs| <= MAX_COUNT && p.allotments <= MAX_COUNT
          && |p.outputs| <= MAX_COUNT && (forall k :: 0 <= k < |p.outputs| ==> ValidFeatures(p.outputs[k])))
  }

  ghost predicate Limited(b: Block) {
    b.payload.Some? ==> LimitedPayload(b.payload.value)
  }

  /** MaxPayloadSize is what one strong parent leaves for the payload, and valid blocks keep the limits. */
  lemma ValidIsLimited(encode: Encoder, b: Block)
    requires ValidBlock(encode, b)
    ensures b.payload.Some? ==> b.payload.value.Size() <= MAX_PAYLOAD_SIZE
    ensures Limited(b)
  {
    hide Payload.Size, ValidFeatures, FeatureContents, ValidConditions, ValidChain, ValidStaking, UniqueChains, Consistent,
         ValidUnlock, ValidTagged;
    MulMonotone(1, b.strongParents + b.weakParents + b.shallowLikeParents, BLOCK_ID_LENGTH);
  }

  /** Which outputs may have a feature, and which as an immutable one. */
  lemma FeatureAllowedIff(t: OutputType, f: Feature)
    ensures AllowedFeature(t, f.Type()) <==>
      match f
      case Sender(_) => t == Basic || t == Account || t == NFT
      case Issuer(_) => false
      case Metadata(_) => t != Delegation
      case StateMetadata(_) => t == Anchor
      case Tag(_) => t == Basic || t == NFT
      case NativeToken(_) => t == Basic || t == Foundry
      case BlockIssuer(_) => t == Account
      case Staking => t == Account
    ensures AllowedImmutableFeature(t, f.Type()) <==>
      match f
      case Issuer(_) => t == Account || t == Anchor || t == NFT
      case Metadata(_) => t == Account || t == Anchor || t == NFT || t == Foundry
      case _ => false
  {
  }

  /** The limits in numbers. */
  lemma LimitsOfParts(tagged: Tagged, tag: Bytes, keys: seq<Bytes>, entries: seq<Entry>, us: seq<Unlock>)
    ensures ValidTagged(tagged) <==> |tagged.tag| <= 64 && |tagged.data| <= 8192
    ensures ValidFeature(Tag(tag)) <==> 1 <= |tag| <= 64
    ensures ValidFeature(BlockIssuer(keys)) <==> 1 <= |keys| <= 128
    ensures ValidFeature(Metadata(entries)) ==> Metadata(entries).Size() <= 8193
    ensures ValidUnlock(MultiUnlock(us)) <==> WellFormed(MultiUnlock(us)) && 2 <= |us| <= 10
  {
  }

  lemma LimitsOfBlocks(encode: Encoder, b: Block)
    requires ValidBlock(encode, b)
    ensures 1 <= b.strongParents <= 8 && b.weakParents <= 8 && b.shallowLikeParents <= 8 && b.Size() <= 32768
    ensures b.payload.Some? && b.payload.value.SignedTransaction? ==>
      var t := b.payload.value;
      && 1 <= t.inputs <= 128 && |t.unlocks| == t.inputs && 1 <= |t.outputs| <= 128
      && |t.contextInputs| <= 128 && t.allotments <= 128 && t.Size() <= 32530
  {
    ValidIsLimited(encode, b);
    hide Payload.Size, Consistent, ValidOutput, ValidUnlock, UniqueChains;
  }

  // ---------- Sizes ----------

  lemma OneEntry(e: Entry)
    ensures MapSize([e]) == 4 + |e.key| + |e.value|
  {
    assert [e][..0] == [];
  }

  lemma OneConditionSize(c: UnlockCondition)
    ensures ConditionsSize([c]) == 1 + c.Size()
  {
    assert [c][..0] == [];
  }

  lemma TwoConditionsSize(c: UnlockCondition, d: UnlockCondition)
    ensures ConditionsSize([c, d]) == 1 + c.Size() + d.Size()
  {
    assert [c, d][..1] == [c];
    OneConditionSize(c);
  }

  lemma OneFeatureSize(f: Feature)
    ensures FeaturesSize([f]) == 1 + f.Size()
  {
    assert [f][..0] == [];
  }

  /** What unlock conditions and features with addresses of 33 bytes take. */
  lemma PartSizes(address: Bytes, id: FoundryID, key: Bytes, value: Bytes)
    requires |address| == 33
    ensures AddressCondition(address).Size() == 34 && ImmutableAccount(address).Size() == 34
    ensures StateController(address).Size() == 34 && Governor(address).Size() == 34
    ensures StorageDepositReturn(address).Size() == 42 && Timelock.Size() == 5 && Expiration(address).Size() == 38
    ensures Sender(address).Size() == 34 && Issuer(address).Size() == 34
    ensures Tag(value).Size() == 2 + |value| && NativeToken(id).Size() == 71 && Staking.Size() == 25
    ensures forall keys :: BlockIssuer(keys).Size() == 6 + 33 * |keys|
    ensures Metadata([Entry(key, value)]).Size() == 5 + |key| + |value|
    ensures StateMetadata([Entry(key, value)]).Size() == 5 + |key| + |value|
  {
    OneEntry(Entry(key, value));
  }

  /** What outputs of every type take at least: with addresses of 33 bytes and no features. */
  lemma BareOutputSizes(address: Bytes, chain: Option<ChainID>)
    requires |address| == 33
    ensures Output(Basic, chain, [AddressCondition(address)], [], []).Size() == 53
    ensures Output(Account, chain, [AddressCondition(address)], [], []).Size() == 90
    ensures Output(Anchor, chain, [StateController(address), Governor(address)], [], []).Size() == 124
    ensures Output(Foundry, chain, [ImmutableAccount(address)], [], []).Size() == 147
    ensures Output(NFT, chain, [AddressCondition(address)], [], []).Size() == 86
    ensures Output(Delegation, chain, [AddressCondition(address)], [], []).Size() == 125
  {
    OneConditionSize(AddressCondition(address));
    OneConditionSize(ImmutableAccount(address));
    TwoConditionsSize(StateController(address), Governor(address));
  }

  /** Every condition and every feature adds its size; delegations have no features, basic outputs no
      immutable ones. */
  lemma OutputGrows(o: Output, c: UnlockCondition, f: Feature)
    ensures o.(conditions := o.conditions + [c]).Size() == o.Size() + c.Size()
    ensures o.(features := o.features + [f]).Size()
         == o.Size() + if o.outputType == Delegation then 0 else f.Size()
    ensures o.(immutableFeatures := o.immutableFeatures + [f]).Size()
         == o.Size() + if o.outputType == Delegation || o.outputType == Basic then 0 else f.Size()
  {
    assert (o.conditions + [c])[..|o.conditions|] == o.conditions;
    assert (o.features + [f])[..|o.features|] == o.features;
    assert (o.immutableFeatures + [f])[..|o.immutableFeatures|] == o.immutableFeatures;
  }

  /** What the parts of a transaction add to its size: an input 39 bytes, an allotment 40, an unlock and an
      output its size, a context input 37, 33 or 3. */
  lemma TransactionGrows(t: Payload, c: ContextInput, o: Output, u: Unlock)
    requires t.SignedTransaction?
    ensures t.(inputs := t.inputs + 1).Size() == t.Size() + 39
    ensures t.(allotments := t.allotments + 1).Size() == t.Size() + 40
    ensures t.(outputs := t.outputs + [o]).Size() == t.Size() + o.Size()
    ensures t.(unlocks := t.unlocks + [u]).Size() == t.Size() + UnlockSize(u)
    ensures t.(contextInputs := t.contextInputs + [c]).Size()
         == t.Size() + if c.CommitmentInput? then 37 else if c.BlockIssuanceCreditInput? then 33 else 3
  {
    hide Output.Size, UnlockSize, Tagged.Size;
    assert (t.outputs + [o])[..|t.outputs|] == t.outputs;
    assert (t.unlocks + [u])[..|t.unlocks|] == t.unlocks;
    assert (t.contextInputs + [c])[..|t.contextInputs|] == t.contextInputs;
  }

  /** The empty transaction takes 28 bytes with its lengths, the inner payload replaces 4 of them, a signature
      unlock takes 98 bytes and a reference 3, a multi unlock 2 besides its unlocks. */
  lemma EmptyTransactionSize(tagged: Tagged, capabilities: Bytes, s: Option<Signature>, kind: ReferenceKind, r: uint16,
                             us: seq<Unlock>, u: Unlock)
    ensures SignedTransaction(0, [], 0, capabilities, None, [], []).Size() == 28 + |capabilities|
    ensures SignedTransaction(0, [], 0, capabilities, Some(tagged), [], []).Size()
         == 30 + |capabilities| + |tagged.tag| + |tagged.data|
    ensures TaggedData(tagged).Size() == 6 + |tagged.tag| + |tagged.data| && CandidacyAnnouncement.Size() == 1
    ensures UnlockSize(SignatureUnlock(s)) == 98 && UnlockSize(Referential(kind, r)) == 3 && UnlockSize(EmptyUnlock) == 1
    ensures UnlockSize(MultiUnlock([])) == 2
    ensures UnlockSize(MultiUnlock(us + [u])) == UnlockSize(MultiUnlock(us)) + UnlockSize(u)
  {
    assert (us + [u])[..|us|] == us;
  }

  /** A block without payload takes 238 bytes with one parent and 36 more with each further one; a payload
      adds its size. */
  lemma BlockSizes(strong: nat, weak: nat, shallow: nat, t: Payload)
    ensures Block(strong, weak, shallow, None).Size() == 202 + 36 * (strong + weak + shallow)
    ensures Block(strong, weak, shallow, Some(t)).Size() == 202 + 36 * (strong + weak + shallow) + t.Size()
    ensures MAX_PAYLOAD_SIZE == 32530
  {
    hide Payload.Size;
  }
}
