/** The inclusion proofs of merklehasher/merkle_proof.go: the prover, the verifier, and what an
    accepted proof means. */
module MerkleProof {
  import opened Common
  import opened Words
  import opened MerkleHasher

  /** A proof tree. The stored hashes come from whoever supplies the proof: any bytes at all. */
  datatype Proof =
    | ValueHash(hash: Bytes)
    | LeafHash(hash: Bytes)
    | Node(left: Proof, right: Proof)

  datatype ProofError = SerializationFailed | ValueNotFound | NoValues | IndexOutOfBounds

  function ProofHash(h: Hasher, p: Proof): Bytes {
    match p
    case ValueHash(hash) => hash
    case LeafHash(hash) => hash
    case Node(left, right) => h.HashNode(ProofHash(h, left), ProofHash(h, right))
  }

  predicate ContainsValueHash(p: Proof, hashedValue: Bytes) {
    match p
    case ValueHash(hash) => hashedValue == hash
    case LeafHash(_) => false
    case Node(left, right) => ContainsValueHash(right, hashedValue) || ContainsValueHash(left, hashedValue)
  }

  predicate ContainsValue(h: Hasher, p: Proof, value: Bytes) {
    ContainsValueHash(p, h.HashLeaf(value))
  }

  // ---------- The prover ----------

  /** The audit path for position `index` of `data`. */
  function ComputePath(h: Hasher, data: seq<Bytes>, index: int): Proof
    requires |data| >= 1
    decreases |data|
  {
    if |data| < 2 then ValueHash(h.HashLeaf(data[0]))
    else if |data| == 2 then
      if index == 0
      then Node(ValueHash(h.HashLeaf(data[0])), LeafHash(h.HashLeaf(data[1])))
      else Node(LeafHash(h.HashLeaf(data[0])), ValueHash(h.HashLeaf(data[1])))
    else
      var k := LargestPowerOfTwo(|data|);
      if index < k
      then Node(ComputePath(h, data[..k], index), LeafHash(h.Hash(data[k..])))
      else Node(LeafHash(h.Hash(data[..k])), ComputePath(h, data[k..], index - k))
  }

  /** The position the prover works for. The source rejects indices that are too large but accepts
      negative ones, which end in the second leaf (or in the only one). */
  function ProvenIndex(n: nat, index: int): int {
    if index >= 0 then index else if n == 1 then 0 else 1
  }

  method ComputeProofForIndex(h: Hasher, values: seq<Value>, index: int) returns (r: Result<Proof, ProofError>)
    ensures r.Ok? <==> |values| >= 1 && index < |values| && AllSerialize(values)
    ensures r.Ok? ==> r.value == ComputePath(h, Serialized(values), index)
    ensures r == Err(NoValues) <==> values == []
    ensures r == Err(IndexOutOfBounds) <==> 1 <= |values| <= index
    ensures r.Err? && 1 <= |values| && index < |values| ==> r.error == SerializationFailed
  {
    if |values| < 1 {
      return Err(NoValues);
    }
    if index >= |values| {
      return Err(IndexOutOfBounds);
    }
    var data := SerializeAll(values);
    if data.None? {
      return Err(SerializationFailed);
    }
    return Ok(ComputePath(h, data.value, index));
  }

  /** Searches `values` for the first element that serializes like `valueToProof`. */
  method ComputeProof(h: Hasher, values: seq<Value>, valueToProof: Value) returns (r: Result<Proof, ProofError>)
    ensures r.Ok? <==> valueToProof.Some? && AllSerialize(values) && valueToProof in values
    ensures r == Err(ValueNotFound) <==> valueToProof.Some? && AllSerialize(values) && valueToProof !in values
    ensures r.Ok? ==>
      exists i :: 0 <= i < |values| && values[i] == valueToProof && valueToProof !in values[..i]
        && r.value == ComputePath(h, Serialized(values), i)
  {
    if valueToProof.None? {
      return Err(SerializationFailed);
    }
    var found := false;
    var index := 0;
    for i := 0 to |values|
      invariant !found
      invariant forall j :: 0 <= j < i ==> values[j].Some? && values[j] != valueToProof
    {
      if values[i].None? {
        return Err(SerializationFailed);
      }
      if valueToProof.value == values[i].value {
        index := i;
        found := true;
        break;
      }
    }
    if !found {
      return Err(ValueNotFound);
    }
    r := ComputeProofForIndex(h, values, index);
  }

  // ---------- Completeness ----------

  /** The hashes of the value-hash nodes, from left to right. */
  ghost function ValueHashes(p: Proof): seq<Bytes> {
    match p
    case ValueHash(hash) => [hash]
    case LeafHash(_) => []
    case Node(left, right) => ValueHashes(left) + ValueHashes(right)
  }

  ghost function Depth(p: Proof): nat {
    match p
    case Node(left, right) => 1 + (if Depth(left) >= Depth(right) then Depth(left) else Depth(right))
    case _ => 0
  }

  lemma {:induction false} BitLenMonotone(a: nat, b: nat)
    requires a <= b
    ensures BitLen(a) <= BitLen(b)
    decreases b
  {
    if a > 0 {
      BitLenMonotone(a / 2, b / 2);
    }
  }

  lemma {:induction false} BitLenOfPow2Minus1(e: nat)
    ensures BitLen(Pow2(e) - 1) == e
  {
    if e > 0 {
      BitLenOfPow2Minus1(e - 1);
      assert (Pow2(e) - 1) / 2 == Pow2(e - 1) - 1;
    }
  }

  /** Splitting at the largest power of two takes a whole level off both halves. */
  lemma SplitTakesOneLevel(n: nat, k: int)
    requires n >= 2 && k == LargestPowerOfTwo(n)
    ensures BitLen(k - 1) == BitLen(n - 1) - 1
    ensures BitLen(n - k - 1) <= BitLen(n - 1) - 1
  {
    hide BitLen, Pow2;
    BitLenBounds(n - 1);
    BitLenOfPow2Minus1(BitLen(n - 1) - 1);
    BitLenMonotone(n - k - 1, k - 1);
  }

  lemma ContainsIsMembership(p: Proof, x: Bytes)
    ensures ContainsValueHash(p, x) <==> x in ValueHashes(p)
  {
  }

  lemma {:induction false} PathHashesToRoot(h: Hasher, data: seq<Bytes>, index: int)
    requires |data| >= 1
    ensures ProofHash(h, ComputePath(h, data, index)) == h.Hash(data)
    decreases |data|
  {
    if |data| > 2 {
      var k := LargestPowerOfTwo(|data|);
      if index < k {
        PathHashesToRoot(h, data[..k], index);
      } else {
        PathHashesToRoot(h, data[k..], index - k);
      }
    } else if |data| == 2 {
      assert LargestPowerOfTwo(2) == 1;
      assert data[..1] == [data[0]] && data[1..] == [data[1]];
    }
  }

  lemma {:induction false} PathHoldsOneValue(h: Hasher, data: seq<Bytes>, index: int)
    requires |data| >= 1 && index < |data|
    ensures 0 <= ProvenIndex(|data|, index) < |data|
    ensures ValueHashes(ComputePath(h, data, index)) == [h.HashLeaf(data[ProvenIndex(|data|, index)])]
    decreases |data|
  {
    if |data| > 2 {
      var k := LargestPowerOfTwo(|data|);
      if index < k {
        PathHoldsOneValue(h, data[..k], index);
      } else {
        PathHoldsOneValue(h, data[k..], index - k);
      }
    }
  }

  /** The path for more than two leaves goes on in the half that holds the index. */
  lemma PathSplits(h: Hasher, data: seq<Bytes>, index: int)
    requires |data| > 2
    ensures var k := LargestPowerOfTwo(|data|);
            && 1 <= k < |data|
            && ComputePath(h, data, index) ==
               if index < k then Node(ComputePath(h, data[..k], index), LeafHash(h.Hash(data[k..])))
               else Node(LeafHash(h.Hash(data[..k])), ComputePath(h, data[k..], index - k))
  {
  }

  lemma ShortPathDepth(h: Hasher, data: seq<Bytes>, index: int)
    requires 1 <= |data| <= 2
    ensures Depth(ComputePath(h, data, index)) <= BitLen(|data| - 1)
  {
  }

  lemma {:induction false} PathDepth(h: Hasher, data: seq<Bytes>, index: int)
    requires |data| >= 1
    ensures Depth(ComputePath(h, data, index)) <= BitLen(|data| - 1)
    decreases |data|
  {
    hide ComputePath, LargestPowerOfTwo, BitLen;
    if |data| > 2 {
      var k := LargestPowerOfTwo(|data|);
      PathSplits(h, data, index);
      SplitTakesOneLevel(|data|, k);
      if index < k {
        PathDepth(h, data[..k], index);
      } else {
        PathDepth(h, data[k..], index - k);
      }
    } else {
      ShortPathDepth(h, data, index);
    }
  }

  /** For every index the prover accepts, the computed path hashes to the root of the list, contains
      the leaf hash of the element at the proven index and no other value hash, and is at most
      ceil(log2 n) levels deep. */
  lemma PathComplete(h: Hasher, data: seq<Bytes>, index: int)
    requires |data| >= 1 && index < |data|
    ensures 0 <= ProvenIndex(|data|, index) < |data|
    ensures ProofHash(h, ComputePath(h, data, index)) == h.Hash(data)
    ensures ContainsValue(h, ComputePath(h, data, index), data[ProvenIndex(|data|, index)])
    ensures ValueHashes(ComputePath(h, data, index)) == [h.HashLeaf(data[ProvenIndex(|data|, index)])]
    ensures Depth(ComputePath(h, data, index)) <= BitLen(|data| - 1)
  {
    PathHashesToRoot(h, data, index);
    PathHoldsOneValue(h, data, index);
    PathDepth(h, data, index);
    ContainsIsMembership(ComputePath(h, data, index), h.HashLeaf(data[ProvenIndex(|data|, index)]));
  }

  // ---------- Soundness ----------

  /** The byte strings handed to the hash function while computing `ProofHash(h, p)`. */
  ghost function ProofPreimages(h: Hasher, p: Proof): set<Bytes> {
    match p
    case Node(left, right) =>
      {NodePreimage(ProofHash(h, left), ProofHash(h, right))} + ProofPreimages(h, left) + ProofPreimages(h, right)
    case _ => {}
  }

  /** Everything hashed to check that `p` proves `value` to be an element of `data`. */
  ghost function Hashed(h: Hasher, p: Proof, data: seq<Bytes>, value: Bytes): set<Bytes> {
    ProofPreimages(h, p) + h.Preimages(data) + {LeafPreimage(value)}
  }

  /** The position, in a list of `n` elements, of the leaf that the verifier finds in `p`. */
  function PathPosition(p: Proof, n: nat, hashedValue: Bytes): nat {
    match p
    case Node(left, right) =>
      if n < 2 then 0
      else if ContainsValueHash(right, hashedValue)
      then LargestPowerOfTwo(n) + PathPosition(right, n - LargestPowerOfTwo(n), hashedValue)
      else PathPosition(left, LargestPowerOfTwo(n), hashedValue)
    case _ => 0
  }

  /** The preimage of the proof's hash, given that the proof contains the leaf hash of `value`. */
  function ProofPreimage(h: Hasher, p: Proof, value: Bytes): Bytes {
    match p
    case Node(left, right) => NodePreimage(ProofHash(h, left), ProofHash(h, right))
    case _ => LeafPreimage(value)
  }

  /** Walks down the proof next to the list and returns the first pair of different preimages. */
  function SoundnessCollision(h: Hasher, p: Proof, data: seq<Bytes>, value: Bytes): Option<Collision> {
    if ProofPreimage(h, p, value) != h.RootPreimage(data)
    then Some(Collision(ProofPreimage(h, p, value), h.RootPreimage(data)))
    else if !p.Node? || |data| < 2 then None
    else
      var k := LargestPowerOfTwo(|data|);
      if ContainsValue(h, p.right, value)
      then SoundnessCollision(h, p.right, data[k..], value)
      else SoundnessCollision(h, p.left, data[..k], value)
  }

  /** A part of the proof that contains the leaf hash is as long as a digest, whatever the lengths of
      the hashes stored elsewhere. */
  lemma ContainingPartIsDigest(h: Hasher, p: Proof, value: Bytes)
    requires h.Valid() && ContainsValue(h, p, value)
    ensures ProofHash(h, p) == h.digest(ProofPreimage(h, p, value))
    ensures |ProofHash(h, p)| == h.size
    ensures ProofPreimage(h, p, value) in ProofPreimages(h, p) + {LeafPreimage(value)}
  {
  }

  /** When a proof node and a list node have the same preimage, their children's hashes agree: the
      child holding the value has a known length, so the boundary between the two is the same. */
  lemma ChildHashesAgree(h: Hasher, p: Proof, data: seq<Bytes>, value: Bytes, k: int)
    requires h.Valid() && p.Node? && |data| >= 2 && k == LargestPowerOfTwo(|data|)
    requires ProofPreimage(h, p, value) == h.RootPreimage(data)
    requires ContainsValue(h, p, value)
    ensures ProofHash(h, p.left) == h.Hash(data[..k]) && ProofHash(h, p.right) == h.Hash(data[k..])
  {
    HalvesHashed(h, data, k);
    HashLength(h, data[..k]);
    HashLength(h, data[k..]);
    ContainingPartIsDigest(h, if ContainsValue(h, p.right, value) then p.right else p.left, value);
    NodeInjective(ProofHash(h, p.left), ProofHash(h, p.right), h.Hash(data[..k]), h.Hash(data[k..]));
  }

  /** `c` is None and the path leads to `value` in `data`, or `c` is a collision among the strings
      hashed to check the proof. */
  ghost predicate FoundOrCollides(h: Hasher, p: Proof, data: seq<Bytes>, value: Bytes, c: Option<Collision>) {
    var i := PathPosition(p, |data|, h.HashLeaf(value));
    if c.None? then i < |data| && data[i] == value else h.Collides(c, Hashed(h, p, data, value))
  }

  /** What holds for the child that contains the value holds for the node. */
  lemma ChildVerdictLifts(h: Hasher, p: Proof, data: seq<Bytes>, value: Bytes, k: int, c: Option<Collision>)
    requires p.Node? && |data| >= 2 && k == LargestPowerOfTwo(|data|)
    requires if ContainsValue(h, p.right, value)
             then FoundOrCollides(h, p.right, data[k..], value, c)
             else FoundOrCollides(h, p.left, data[..k], value, c)
    ensures FoundOrCollides(h, p, data, value, c)
  {
    HalvesHashed(h, data, k);
    if ContainsValue(h, p.right, value) {
      assert Hashed(h, p.right, data[k..], value) <= Hashed(h, p, data, value);
    } else {
      assert Hashed(h, p.left, data[..k], value) <= Hashed(h, p, data, value);
    }
  }

  /** If an arbitrary proof tree hashes to the root of `data` and contains the leaf hash of `value`,
      then `value` is the element of `data` at the position the path leads to, or
      `SoundnessCollision` exhibits two different byte strings with the same digest, both hashed
      while checking this proof against this list. */
  lemma {:induction false} ProofSound(h: Hasher, p: Proof, data: seq<Bytes>, value: Bytes)
    requires h.Valid()
    requires ProofHash(h, p) == h.Hash(data)
    requires ContainsValue(h, p, value)
    ensures FoundOrCollides(h, p, data, value, SoundnessCollision(h, p, data, value))
    decreases p
  {
    var m := h.RootPreimage(data);
    if ProofPreimage(h, p, value) != m {
      ContainingPartIsDigest(h, p, value);
    } else if !p.Node? {
      assert m[0] == LEAF_HASH_PREFIX && |data| == 1;
      LeafInjective(data[0], value);
    } else {
      assert m[0] == NODE_HASH_PREFIX && |data| >= 2;
      var k := LargestPowerOfTwo(|data|);
      ChildHashesAgree(h, p, data, value, k);
      if ContainsValue(h, p.right, value) {
        ProofSound(h, p.right, data[k..], value);
      } else {
        ProofSound(h, p.left, data[..k], value);
      }
      ChildVerdictLifts(h, p, data, value, k, SoundnessCollision(h, p, data, value));
    }
  }

  /** The path computed for an index leads the verifier back to that index. */
  lemma {:induction false} PathLeadsBack(h: Hasher, data: seq<Bytes>, index: nat)
    requires index < |data|
    ensures PathPosition(ComputePath(h, data, index), |data|, h.HashLeaf(data[index])) == index
    decreases |data|
  {
    hide ComputePath, LargestPowerOfTwo;
    var p, x := ComputePath(h, data, index), h.HashLeaf(data[index]);
    if |data| > 2 {
      var k := LargestPowerOfTwo(|data|);
      PathSplits(h, data, index);
      if index < k {
        PathLeadsBack(h, data[..k], index);
        assert !ContainsValueHash(p.right, x);
      } else {
        PathLeadsBack(h, data[k..], index - k);
        PathComplete(h, data[k..], index - k);
      }
    } else {
      ShortPathLeadsBack(h, data, index);
    }
  }

  lemma ShortPathLeadsBack(h: Hasher, data: seq<Bytes>, index: nat)
    requires index < |data| <= 2
    ensures PathPosition(ComputePath(h, data, index), |data|, h.HashLeaf(data[index])) == index
  {
    assert LargestPowerOfTwo(2) == 1;
  }
}
