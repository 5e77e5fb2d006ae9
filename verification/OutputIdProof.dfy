/** Transaction IDs, output IDs and the output ID proofs of output_id_proof.go and transaction.go. */
module OutputIdProof {
  import opened Common
  import opened Words
  import opened MerkleHasher
  import opened MerkleProof

  /** BLAKE2b-256 digests. */
  const IDENTIFIER_LENGTH := 32

  type Identifier = b: Bytes | |b| == IDENTIFIER_LENGTH witness seq(32, _ => 0)

  /** A transaction: its creation slot, the serialization of its essence and of its outputs. */
  datatype Transaction = Transaction(creationSlot: uint32, essence: Value, outputs: seq<Value>)

  datatype OutputIDProof = OutputIDProof(
    slot: uint32,
    outputIndex: uint16,
    transactionCommitment: Identifier,
    outputCommitmentProof: Proof)

  function LittleEndian(x: nat, bytes: nat): (b: Bytes)
    ensures |b| == bytes
  {
    if bytes == 0 then [] else [(x % 256) as byte] + LittleEndian(x / 256, bytes - 1)
  }

  lemma {:induction false} LittleEndianInjective(x: nat, y: nat, bytes: nat)
    requires x < Pow2(8 * bytes) && y < Pow2(8 * bytes)
    requires LittleEndian(x, bytes) == LittleEndian(y, bytes)
    ensures x == y
  {
    if bytes > 0 {
      assert Pow2(8 * bytes) == 256 * Pow2(8 * (bytes - 1)) by {
        Pow2Add(8, 8 * (bytes - 1));
        assert Pow2(8) == 256;
      }
      var b, c := LittleEndian(x, bytes), LittleEndian(y, bytes);
      assert b[0] == c[0] && b[1..] == c[1..];
      LittleEndianInjective(x / 256, y / 256, bytes - 1);
    }
  }

  /** The lowest byte comes first: byte i is the number divided by 2^(8i), modulo 256. */
  lemma {:induction false} LittleEndianDigits(x: nat, bytes: nat, i: nat)
    requires i < bytes
    ensures 0 <= x / Pow2(8 * i)
    ensures LittleEndian(x, bytes)[i] as int == x / Pow2(8 * i) % 256
  {
    if i == 0 {
      assert Pow2(0) == 1;
    } else {
      LittleEndianDigits(x / 256, bytes - 1, i - 1);
      assert 8 * i == 8 + 8 * (i - 1);
      assert Pow2(8) == 256;
      Pow2Add(8, 8 * (i - 1));
      DivDiv(x, 256, Pow2(8 * (i - 1)));
      assert LittleEndian(x, bytes)[i] == LittleEndian(x / 256, bytes - 1)[i - 1];
    }
    DivBounds(x, Pow2(8 * i));
  }

  /** The digest of `data` followed by the slot. */
  function TransactionIDRepresentingData(h: Hasher, slot: uint32, data: Bytes): Bytes {
    h.digest(data) + LittleEndian(slot, 4)
  }

  function TransactionIDFromCommitments(h: Hasher, slot: uint32, transactionCommitment: Bytes,
      outputCommitment: Bytes): Bytes
  {
    TransactionIDRepresentingData(h, slot, transactionCommitment + outputCommitment)
  }

  function TransactionCommitment(h: Hasher, tx: Transaction): Option<Bytes> {
    if tx.essence.None? then None else Some(h.digest(tx.essence.value))
  }

  function OutputCommitment(h: Hasher, tx: Transaction): Option<Bytes> {
    if AllSerialize(tx.outputs) then Some(h.Hash(Serialized(tx.outputs))) else None
  }

  function TransactionID(h: Hasher, tx: Transaction): Option<Bytes> {
    var tc, oc := TransactionCommitment(h, tx), OutputCommitment(h, tx);
    if tc.None? || oc.None? then None
    else Some(TransactionIDFromCommitments(h, tx.creationSlot, tc.value, oc.value))
  }

  function OutputIDFromTransactionIDAndIndex(transactionID: Bytes, index: uint16): Bytes {
    transactionID + LittleEndian(index, 2)
  }

  function NewOutputIDProof(h: Hasher, transactionCommitment: Identifier, creationSlot: uint32,
                            outputs: seq<Value>, outputIndex: uint16): Option<OutputIDProof>
  {
    if outputIndex >= |outputs| || !AllSerialize(outputs) then None
    else Some(OutputIDProof(creationSlot, outputIndex, transactionCommitment,
                            ComputePath(h, Serialized(outputs), outputIndex)))
  }

  function OutputIDProofFromTransaction(h: Hasher, tx: Transaction, outputIndex: uint16): Option<OutputIDProof>
    requires h.size == IDENTIFIER_LENGTH && h.Valid()
  {
    var tc := TransactionCommitment(h, tx);
    if tc.None? then None else NewOutputIDProof(h, tc.value, tx.creationSlot, tx.outputs, outputIndex)
  }

  /** The output ID that the proof gives to `output`, if the proof contains that output. */
  function ProvenOutputID(h: Hasher, p: OutputIDProof, output: Value): Option<Bytes> {
    if output.None? || !ContainsValue(h, p.outputCommitmentProof, output.value) then None
    else
      var outputCommitment := ProofHash(h, p.outputCommitmentProof);
      Some(OutputIDFromTransactionIDAndIndex(
             TransactionIDFromCommitments(h, p.slot, p.transactionCommitment, outputCommitment), p.outputIndex))
  }

  /** Output ID, slot and index can be read back from an output ID. */
  lemma OutputIDParts(d: Bytes, s: uint32, i: uint16, d': Bytes, s': uint32, i': uint16)
    requires |d| == |d'|
    requires d + LittleEndian(s, 4) + LittleEndian(i, 2) == d' + LittleEndian(s', 4) + LittleEndian(i', 2)
    ensures d == d' && s == s' && i == i'
  {
    var id := d + LittleEndian(s, 4) + LittleEndian(i, 2);
    var id' := d' + LittleEndian(s', 4) + LittleEndian(i', 2);
    assert id[..|d|] == d && id[|d|..|d| + 4] == LittleEndian(s, 4) && id[|d| + 4..] == LittleEndian(i, 2);
    assert id'[..|d|] == d' && id'[|d|..|d| + 4] == LittleEndian(s', 4) && id'[|d| + 4..] == LittleEndian(i', 2);
    Pow2At32();
    Pow2Add(8, 8);
    assert Pow2(8) == 256;
    LittleEndianInjective(s, s', 4);
    LittleEndianInjective(i, i', 2);
  }

  /** An output ID is 32 bytes of digest, over the transaction commitment and then the output commitment,
      4 bytes of slot and 2 bytes of index, lowest bytes first. */
  lemma OutputIDLayout(h: Hasher, tx: Transaction, index: uint16)
    requires h.size == IDENTIFIER_LENGTH && h.Valid()
    requires TransactionID(h, tx).Some?
    ensures
      var id := OutputIDFromTransactionIDAndIndex(TransactionID(h, tx).value, index);
      && |id| == 38
      && id[..32] == h.digest(h.digest(tx.essence.value) + h.Hash(Serialized(tx.outputs)))
      && id[32] as int == tx.creationSlot % 256 && id[33] as int == tx.creationSlot / 256 % 256
      && id[34] as int == tx.creationSlot / 65536 % 256 && id[35] as int == tx.creationSlot / 16777216 % 256
      && id[36] as int == index % 256 && id[37] as int == index / 256 % 256
  {
    var d := h.digest(h.digest(tx.essence.value) + h.Hash(Serialized(tx.outputs)));
    var id := OutputIDFromTransactionIDAndIndex(TransactionID(h, tx).value, index);
    var slot, last := LittleEndian(tx.creationSlot, 4), LittleEndian(index, 2);
    assert id == d + slot + last;
    LowBytes(tx.creationSlot, 4);
    LowBytes(index, 2);
    hide LittleEndian;
    assert id[..32] == d;
    assert id[32] == slot[0] && id[33] == slot[1] && id[34] == slot[2] && id[35] == slot[3];
    assert id[36] == last[0] && id[37] == last[1];
  }

  lemma LowBytes(x: nat, bytes: nat)
    requires bytes >= 2
    ensures LittleEndian(x, bytes)[0] as int == x % 256
    ensures LittleEndian(x, bytes)[1] as int == x / 256 % 256
    ensures bytes == 4 ==> LittleEndian(x, bytes)[2] as int == x / 65536 % 256
    ensures bytes == 4 ==> LittleEndian(x, bytes)[3] as int == x / 16777216 % 256
  {
    hide LittleEndian;
    assert Pow2(0) == 1;
    assert Pow2(8) == 256;
    Pow2Add(8, 8);
    Pow2Add(16, 8);
    hide Pow2;
    LittleEndianDigits(x, bytes, 0);
    LittleEndianDigits(x, bytes, 1);
    if bytes == 4 {
      LittleEndianDigits(x, bytes, 2);
      LittleEndianDigits(x, bytes, 3);
    }
  }

  /** The proof made for an output of a transaction gives that output its ID in the transaction. */
  lemma OutputIDProofComplete(h: Hasher, tx: Transaction, index: uint16)
    requires h.size == IDENTIFIER_LENGTH && h.Valid()
    requires TransactionID(h, tx).Some? && index < |tx.outputs|
    ensures OutputIDProofFromTransaction(h, tx, index).Some?
    ensures ProvenOutputID(h, OutputIDProofFromTransaction(h, tx, index).value, tx.outputs[index])
         == Some(OutputIDFromTransactionIDAndIndex(TransactionID(h, tx).value, index))
  {
    PathComplete(h, Serialized(tx.outputs), index);
  }

  /** The first pair of different byte strings met when comparing what the proof hashed with what
      the transaction hashed. */
  function OutputIDCollision(h: Hasher, p: OutputIDProof, output: Bytes, tx: Transaction): Option<Collision>
    requires TransactionID(h, tx).Some?
  {
    var a := p.transactionCommitment + ProofHash(h, p.outputCommitmentProof);
    var b := TransactionCommitment(h, tx).value + OutputCommitment(h, tx).value;
    if a != b then Some(Collision(a, b))
    else SoundnessCollision(h, p.outputCommitmentProof, Serialized(tx.outputs), output)
  }

  ghost function OutputIDHashed(h: Hasher, p: OutputIDProof, output: Bytes, tx: Transaction): set<Bytes>
    requires TransactionID(h, tx).Some?
  {
    Hashed(h, p.outputCommitmentProof, Serialized(tx.outputs), output)
    + {p.transactionCommitment + ProofHash(h, p.outputCommitmentProof),
       TransactionCommitment(h, tx).value + OutputCommitment(h, tx).value}
  }

  /** Whatever proof is presented: if it gives `output` the ID of output `index` of `tx`, then the
      proof names the transaction's slot, index and commitment and the output is one of the
      transaction's outputs, namely the one its path leads to; or two different byte strings hashed
      on the way have the same digest. */
  lemma OutputIDProofSound(h: Hasher, p: OutputIDProof, output: Value, tx: Transaction, index: uint16)
    requires h.size == IDENTIFIER_LENGTH && h.Valid()
    requires TransactionID(h, tx).Some?
    requires ProvenOutputID(h, p, output) == Some(OutputIDFromTransactionIDAndIndex(TransactionID(h, tx).value, index))
    ensures OutputIDCollision(h, p, output.value, tx).None? ==>
      var i := PathPosition(p.outputCommitmentProof, |tx.outputs|, h.HashLeaf(output.value));
      && p.slot == tx.creationSlot
      && p.outputIndex == index
      && p.transactionCommitment == TransactionCommitment(h, tx).value
      && i < |tx.outputs| && tx.outputs[i] == output
    ensures OutputIDCollision(h, p, output.value, tx).Some? ==>
      h.Collides(OutputIDCollision(h, p, output.value, tx), OutputIDHashed(h, p, output.value, tx))
  {
    var tc: Bytes, oc: Bytes := TransactionCommitment(h, tx).value, OutputCommitment(h, tx).value;
    var pc: Bytes, po: Bytes := p.transactionCommitment, ProofHash(h, p.outputCommitmentProof);
    OutputIDParts(h.digest(pc + po), p.slot, p.outputIndex, h.digest(tc + oc), tx.creationSlot, index);
    if pc + po == tc + oc {
      assert pc == (pc + po)[..IDENTIFIER_LENGTH] && tc == (tc + oc)[..IDENTIFIER_LENGTH];
      assert po == (pc + po)[IDENTIFIER_LENGTH..] && oc == (tc + oc)[IDENTIFIER_LENGTH..];
      ProofSound(h, p.outputCommitmentProof, Serialized(tx.outputs), output.value);
    }
  }

  ghost predicate DistinctOutputs(outputs: seq<Value>) {
    forall i, j :: 0 <= i < j < |outputs| ==> outputs[i] != outputs[j]
  }

  /** The claimed index is not compared with the path, so an accepted proof may give an output the ID of
      another one. For every accepted proof, collisions aside: the output that got the ID of output
      `index` is output `index` if, and for distinct outputs only if, the path leads to the claimed
      index. */
  lemma ProvenIDRightIff(h: Hasher, p: OutputIDProof, output: Value, tx: Transaction, index: uint16)
    requires h.size == IDENTIFIER_LENGTH && h.Valid()
    requires TransactionID(h, tx).Some?
    requires ProvenOutputID(h, p, output) == Some(OutputIDFromTransactionIDAndIndex(TransactionID(h, tx).value, index))
    requires OutputIDCollision(h, p, output.value, tx).None?
    ensures
      var path := PathPosition(p.outputCommitmentProof, |tx.outputs|, h.HashLeaf(output.value));
      && (path == p.outputIndex ==> index < |tx.outputs| && tx.outputs[index] == output)
      && (DistinctOutputs(tx.outputs) ==>
           (index < |tx.outputs| && tx.outputs[index] == output <==> path == p.outputIndex))
  {
    OutputIDProofSound(h, p, output, tx, index);
  }

  /** One proof gives both outputs of a transaction the same ID: a tree with two value hashes. */
  lemma OneProofTwoOutputs(h: Hasher, creationSlot: uint32, essence: Bytes, a: Bytes, b: Bytes)
    requires h.size == IDENTIFIER_LENGTH && h.Valid()
    ensures
      var tx := Transaction(creationSlot, Some(essence), [Some(a), Some(b)]);
      var tree := Node(ValueHash(h.HashLeaf(a)), ValueHash(h.HashLeaf(b)));
      var p := OutputIDProof(creationSlot, 0, h.digest(essence), tree);
      && TransactionID(h, tx).Some?
      && ProvenOutputID(h, p, Some(a)) == Some(OutputIDFromTransactionIDAndIndex(TransactionID(h, tx).value, 0))
      && ProvenOutputID(h, p, Some(b)) == Some(OutputIDFromTransactionIDAndIndex(TransactionID(h, tx).value, 0))
  {
    var outputs: seq<Value> := [Some(a), Some(b)];
    var data := Serialized(outputs);
    assert data == [a, b];
    assert LargestPowerOfTwo(2) == 1;
    assert data[..1] == [a] && data[1..] == [b];
    assert h.Hash([a]) == h.HashLeaf(a) && h.Hash([b]) == h.HashLeaf(b);
    assert h.Hash(data) == h.HashNode(h.HashLeaf(a), h.HashLeaf(b));
    var left, right := ValueHash(h.HashLeaf(a)), ValueHash(h.HashLeaf(b));
    assert ProofHash(h, Node(left, right)) == h.Hash(data);
    assert ContainsValueHash(left, h.HashLeaf(a)) && ContainsValueHash(right, h.HashLeaf(b));
  }

  /** A genuine proof for output `i` relabelled with index `j` gives output `i` the ID of output `j`,
      which is its own exactly when j == i. */
  lemma RelabelledProofRightIff(h: Hasher, tx: Transaction, i: uint16, j: uint16)
    requires h.size == IDENTIFIER_LENGTH && h.Valid()
    requires TransactionID(h, tx).Some? && i < |tx.outputs|
    ensures
      var p := OutputIDProofFromTransaction(h, tx, i).value.(outputIndex := j);
      var id := TransactionID(h, tx).value;
      && ProvenOutputID(h, p, tx.outputs[i]) == Some(OutputIDFromTransactionIDAndIndex(id, j))
      && (ProvenOutputID(h, p, tx.outputs[i]) == Some(OutputIDFromTransactionIDAndIndex(id, i)) <==> j == i)
  {
    PathComplete(h, Serialized(tx.outputs), i);
    var d := h.digest(TransactionCommitment(h, tx).value + OutputCommitment(h, tx).value);
    assert TransactionID(h, tx).value == d + LittleEndian(tx.creationSlot, 4);
    var id := TransactionID(h, tx).value;
    var p := OutputIDProofFromTransaction(h, tx, i).value.(outputIndex := j);
    assert ProvenOutputID(h, p, tx.outputs[i]) == Some(OutputIDFromTransactionIDAndIndex(id, j));
    if OutputIDFromTransactionIDAndIndex(id, j) == OutputIDFromTransactionIDAndIndex(id, i) {
      OutputIDParts(d, tx.creationSlot, j, d, tx.creationSlot, i);
    }
  }
}
