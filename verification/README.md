# Verified core of iota.go

This project models five parts of the IOTA protocol library and proves what they promise.

* **Mana and time.** The 64 by 32 bit fixed-point multiplication on split words, the table-driven decay
  loop, mana generation over several epochs, and the slot and epoch conversions. Machine words wrap and
  truncate as in the source (`Words`); `FixedPoint`, `ManaDecay` and `TimeProvider` show when the results
  are exactly the mathematical ones.
* **Merkle trees and inclusion proofs.** `MerkleHasher`, `MerkleProof` and `OutputIdProof`. The hash
  function is an arbitrary function with a fixed digest length. Soundness and binding say that the claim
  holds or that a function of the model returns two different byte strings with the same digest, both of
  them hashed while checking this very claim.
* **Bech32** as in BIP 173, sections "Checksum" and "Uppercase/lowercase": the checksum (`Polymod`,
  `Checksum`), the repacking of bytes in place (`Base32`), the character tables (`Charset`) and the
  printer and parser (`Bech32`).
* **The transaction builder and the unlock validator.** `TransactionBuilder` is the builder class with its
  mana ledger; `AvailableMana` sums up the inputs; `ManaLedger`, `Allotments` and `Leftovers` say what
  charging, allotting and storing mana comes to in any order. `BuilderUnlocks` builds the unlocks,
  `UnlockValidator` is the stateful validator, and the two are proved to agree. `Totals` is about sums
  over maps, `Outputs` holds the addresses and outputs the builder looks at, `ContextInputs` the order of
  context inputs.
* **Work score.** `Payloads` holds blocks with the contents, sizes and limits of their transactions,
  `WorkScore` computes the score of a block with checked 32-bit additions, and `WorkScoreBounds` is about
  which blocks, at which prices, `MaxBlockWork` bounds.

Where the source iterates over a map, the loop here takes the keys in an arbitrary order, so the result
holds for every order. `dafny verify dfyconfig.toml` checks the whole project.

## What does not hold in the code

The code, its names and its comments disagree here. Where a condition is called exact, it is proved in
both directions.

* `SlotFromTime` is right for exactly the times whose distance to the genesis fits a duration of 2^63 - 1
  nanoseconds, about 292 years, and whose slot fits 32 bits (`TimeProvider.SlotFromTimeRightIff`, with a
  concrete time in `TimeProvider.SlotFromTimeSaturates`).
* `SlotsBeforeNextEpoch` and `SlotsSinceEpochStart` add the genesis slot a second time, so for slots from the
  genesis on they are right exactly for genesis slot 0 (`TimeProvider.DistancesRightIff`,
  `TimeProvider.DistanceAddsUpIff`).
* `fixedPointMultiplication32` loses high bits in two places: in the product with the lower word of the
  value, and when the words are merged. It is exact exactly if that product fits 64 bits and the last shift
  leaves none of the bits dropped (`FixedPoint.MultiplicationExactIff`; `FixedPoint.MultiplicationDropsBit64`
  and `FixedPoint.WideFactorWraps` are inputs on which it is wrong). Its comment forbids factors of more
  than 32 bits, but mana generation passes up to 40 (`ManaDecay.GenerationExactIff`).
* `ComputeProofForIndex` accepts negative indices; the proof it then makes is for the second leaf, or for the
  only one of a list with one element (`MerkleProof.PathComplete`).
* An `OutputIDProof` does not compare its index with its path. The output it gives the ID of output i is
  output i, for distinct outputs and collisions aside, exactly if the path leads to that index
  (`OutputIdProof.ProvenIDRightIff`, for every accepted proof). `OutputIdProof.OneProofTwoOutputs` is a proof
  that gives two outputs the same ID, and relabelled genuine proofs fail as well
  (`OutputIdProof.RelabelledProofRightIff`).
* The comments of unlock.go say that account, anchor and NFT unlocks lead to a signature unlock, and that
  references to multi unlocks are not nested in multi unlocks. In an accepted list a reference leads to a
  signature exactly if no reference on its way points directly at a multi unlock, which the validator allows
  (`UnlockValidator.EndsAtSignatureIff`, `UnlockValidator.AllEndAtSignaturesIff`), and the same holds for
  references inside multi unlocks (`UnlockValidator.InnerReferenceEnds`).
  `UnlockValidator.ReferenceToMultiAccepted` and `UnlockValidator.InnerReferenceToMultiAccepted` are accepted
  lists that end at a multi unlock.
* The limit for mana locks is computed in 32 bits and wraps for creation slots near 2^32
  (`TransactionBuilder.ManaLockWraps`).
* Storing the remaining mana in an output whose account ID is still empty leaves the mana bound to the
  empty account ID unspent, and adding to an allotment or an output wraps around at 2^64. The builder's
  theorems say exactly what remains: `Lost` is 0 exactly if nothing wraps, which total mana and rewards
  below 2^64 ensure, and `NotStored` is the empty account's mana.
* An allotment for the block issuer reaches the block's mana cost exactly if what was allotted before and
  the cost together fit 64 bits
  (`TransactionBuilder.TransactionBuilder.AllotMinRequiredManaAndStoreRemainingManaInOutput`, with a concrete
  case in `Leftovers.IssuerWraps`).
* `MaxBlockWork` is meant to bound every block, but a foundry pays for its token scheme and for its native
  token feature. For a given block it is a bound at all prices exactly if the block pays for at most 128
  native tokens (`WorkScoreBounds.BoundedForAllPricesIff`); blocks with 65 to 128 foundries are valid and
  exceed it where only native tokens cost anything (`WorkScoreBounds.FoundriesExceedMaximum`). For given
  prices, it bounds all blocks if a native token costs at most as much as staking, block issuing and 949/128
  signatures (`WorkScoreBounds.MaxBlockWorkBounds`), and only if it costs at most what
  `WorkScoreBounds.MaxBlockWorkNeeds` says. Where inputs, context inputs, allotments and signatures are free
  the two meet: it is a bound exactly if a native token costs at most a staking and a block issuer feature
  together (`WorkScoreBounds.MaxBlockWorkBoundsIff`). Elsewhere that simple condition is not needed
  (`WorkScoreBounds.CostlySignaturesBound`).

## Model

| member | source | states |
|---|---|---|
| MerkleHasher.LargestPowerOfTwo | merklehasher/merkle_hasher.go:96-103 | the split is below the list length and at least half of it |
| MerkleHasher.LargestPowerOfTwoIsPower | merklehasher/merkle_hasher.go:96-103 | the split is a power of two |
| MerkleHasher.HashIsMerkleTreeHash | merklehasher/merkle_hasher.go:60-94 | the Merkle tree hash of RFC 6962, section 2.1: digests of nothing, of 0 and the element, of 1 and the hash of the left and then the right half |
| MerkleHasher.NodeInjective | merklehasher/merkle_hasher.go:87-94 | the two children can be read back from a node's preimage once one length is known |
| MerkleHasher.RootBindsList | merklehasher/merkle_hasher.go:60-103 | lists of any lengths with the same root are equal, or an extracted pair of preimages hashed for these roots collides |
| MerkleHasher.SerializeAll | merklehasher/merkle_hasher.go:46-57 | all serializations in order, or an error exactly if one fails |
| MerkleHasher.HashValues | merklehasher/merkle_hasher.go:46-57 | the root of the serialized values, or an error exactly if one fails |
| MerkleProof.ComputeProofForIndex | merklehasher/merkle_proof.go:80-102 | the path for the index; each error exactly in its case, negative indices accepted |
| MerkleProof.ComputeProof | merklehasher/merkle_proof.go:52-77 | the path for the first element that serializes like the value, not found exactly if there is none |
| MerkleProof.PathComplete | merklehasher/merkle_proof.go:80-195 | every accepted index gives a path that hashes to the root, contains that leaf hash as its only value hash, and is at most ceil(log2 n) deep |
| MerkleProof.PathLeadsBack | merklehasher/merkle_proof.go:105-195 | the verifier's search in the path for an index ends at that index |
| MerkleProof.ProofSound | merklehasher/merkle_proof.go:157-195 | any tree, with stored hashes of any length, that hashes to the root and contains the value's leaf hash leads to the value in the list, or an extracted pair of hashed preimages collides |
| OutputIdProof.LittleEndianInjective | transaction.go:96-99 | little-endian encodings of numbers in range differ for different numbers |
| OutputIdProof.LittleEndianDigits | transaction.go:96-99 | byte i of a little-endian encoding is the number divided by 2^(8i), modulo 256 |
| OutputIdProof.OutputIDParts | output_id_proof.go:72-104 | digest, slot and index can be read back from an output ID |
| OutputIdProof.OutputIDLayout | output_id_proof.go:72-104 | an output ID is the digest of transaction and output commitment, four bytes of slot and two of index, lowest bytes first |
| OutputIdProof.OutputIDProofComplete | output_id_proof.go:20-104 | the proof made for output i of a transaction yields the ID built from the transaction's ID and i |
| OutputIdProof.OutputIDProofSound | output_id_proof.go:72-104 | a proof that yields the ID of output i of a transaction carries its slot, index and commitment and one of its outputs, or an extracted pair collides |
| OutputIdProof.ProvenIDRightIff | output_id_proof.go:72-104 | for every accepted proof, collisions aside: the output that got the ID of output i is output i if, and for distinct outputs only if, the path leads to the index claimed |
| OutputIdProof.OneProofTwoOutputs | output_id_proof.go:72-104 | a tree of two value hashes gives both outputs of a transaction the ID of the first |
| OutputIdProof.RelabelledProofRightIff | output_id_proof.go:33-104 | the inputs on which genuine proofs fail the condition: one for output i relabelled with j gives output i the ID of output j |
| FixedPoint.Product32Fits | mana_decay_provider.go:22-43 | with 32-bit words and factor no intermediate 64-bit operation overflows |
| FixedPoint.SplittedExact | mana_decay_provider.go:22-43 | the two returned words are exactly floor(value * factor / 2^scale) |
| FixedPoint.SplittedWrapped | mana_decay_provider.go:22-43 | for any words and factor, the words of the floor of the two products, each reduced to 64 bits; of the result only the upper word wraps |
| FixedPoint.MergedWords | mana_decay_provider.go:15-60 | for any arguments, the wrapper reduces only the product with the lower word and the scaled product to 64 bits, then shifts out the rest of the scale |
| FixedPoint.MergedProduct | mana_decay_provider.go:15-60 | while the product with the lower word fits, the wrapper returns the scaled product modulo 2^64, shifted |
| FixedPoint.MultiplicationExactIff | mana_decay_provider.go:46-60 | for all factors of 32 bits, and for all larger ones with scales up to 64: exact exactly if the product with the lower word fits 64 bits, and the product before the last shift does or the shift leaves nothing of it |
| FixedPoint.MultiplicationDropsBit64 | mana_decay_provider.go:46-60 | 2^63 times 2 comes out as 0 |
| FixedPoint.WideFactorWraps | mana_decay_provider.go:21-60 | a factor of 33 bits that is multiplied exactly, and the next one that is not |
| TimeProvider.SlotBracketsItsTimes | timeprovider.go:93-127 | start and end time of a slot bracket exactly the times of the slot |
| TimeProvider.SlotFromTimeRightIff | timeprovider.go:93-100 | for every time from the genesis on, the slot is the true one exactly if the duration does not saturate and the slot fits 32 bits |
| TimeProvider.SlotFromTimeInverse | timeprovider.go:93-127 | a slot is found for exactly the times between its start and end, also for times before the genesis |
| TimeProvider.SlotFromTimeSaturates | timeprovider.go:93-115 | a slot start time that is not found to be in its slot |
| TimeProvider.BeforeGenesis | timeprovider.go:93-127 | times before the genesis are in the genesis slot, which ends a nanosecond before the genesis, as all earlier slots |
| TimeProvider.SlotsAdjoin | timeprovider.go:108-127 | from the genesis on, slots last the slot duration and follow each other without gap |
| TimeProvider.EpochOfEarlySlots | timeprovider.go:130-169 | slots up to the genesis slot are in epoch 0, earlier ones have distance 0 |
| TimeProvider.EpochOf8192Slots | timeprovider.go:130-169 | epoch, bounds and distances of particular slots with 8192 slots in an epoch |
| TimeProvider.EpochBracketsItsSlots | timeprovider.go:130-151 | epoch start and end bracket exactly the slots of the epoch |
| TimeProvider.EpochEndModulo | timeprovider.go:144-151 | also where 32 bits wrap, an epoch ends at the slot before the next one's start |
| TimeProvider.DistancesRightIff | timeprovider.go:154-169 | for every slot from the genesis on, both distances are too large by the genesis slot modulo 2^32, so right exactly for genesis slot 0 |
| TimeProvider.DistanceAddsUpIff | timeprovider.go:154-169 | the distances and the whole epochs between two slots of different epochs add up exactly for genesis slot 0 |
| ManaDecay.Decay | mana_decay_provider.go:116-149 | the loop computes the recursive decay and fails exactly for a scale above 32 that is reached |
| ManaDecay.DecayIsExact | mana_decay_provider.go:116-149 | with factors of at most one no word overflows and the result is the chain of floors |
| ManaDecay.IterationsIsCeiling | mana_decay_provider.go:127-146 | the loop runs ceil(epochs / table length) times |
| ManaDecay.DecayRoundingBound | mana_decay_provider.go:116-149 | k iterations lose less than k units against the exact product of factors |
| ManaDecay.DecayOrderLaws | mana_decay_provider.go:116-149 | decay grows with the value, never exceeds it and shrinks with the epochs |
| ManaDecay.DecayComposes | mana_decay_provider.go:116-149 | decaying by a table length and then by n epochs is decaying by both at once |
| ManaDecay.DecayBySlotsIsExact | mana_decay_provider.go:166-181 | between two slots mana decays by the chain of floors for the epochs between them; the only error is a creation slot in a later epoch |
| ManaDecay.DecayBySlotsOrderLaws | mana_decay_provider.go:166-181 | less mana held over a longer time leaves at most as much, and never more than there was |
| ManaDecay.DecayBySlotsComposes | mana_decay_provider.go:166-181 | stopping over a table length of epochs after the creation does not change what is left |
| ManaDecay.GenerationExact | mana_decay_provider.go:152-163 | generated mana is floor(value * slots * rate / 2^exponent) while the product fits |
| ManaDecay.GenerationExactIff | mana_decay_provider.go:152-163 | generated mana is exact exactly if the multiplication by slots times rate, of up to 40 bits, loses nothing |
| ManaDecay.GenerationInTwoSteps | mana_decay_provider.go:152-163 | claiming in two steps yields at most what one step yields and at most one unit less |
| ManaDecay.GenerationNeverUnderflows | mana_decay_provider.go:183-279 | both subtractions over several epochs succeed, only the sums may overflow, and the result is at least the decayed first plus the last epoch's mana |
| ManaDecay.GenerationWithinEpoch | mana_decay_provider.go:183-200 | within an epoch, floor(amount * (target - creation) * rate / 2^exponent) |
| ManaDecay.GenerationOverOneEpoch | mana_decay_provider.go:183-225 | over one epoch boundary, the floor for the slots before it, decayed by one epoch, plus the floor for the slots since; an overflow exactly if the sum does not fit |
| ManaDecay.GenerationOverMoreEpochs | mana_decay_provider.go:183-281 | over more boundaries, the exact value from the decayed first epoch, the constant c, the last epoch and the rounding term, with overflow and underflow exactly where the sums fail |
| ManaDecay.GenerationConstantExact | mana_decay_provider.go:241-245 | c is floor(amount * sum * rate / 2^(sum exponent + rate exponent - slots exponent)) if nothing is lost, and for scales up to 64 only then |
| ManaDecay.CreationExceedsTargetIff | mana_decay_provider.go:183-186 | this error exactly for creation slots after the target slot |
| ManaDecay.ScaleTooLargeIff | mana_decay_provider.go:116-149 | this error exactly for scales above 32 and mana to decay |
| Polymod.Bech32Polymod | bech32/checksum.go:18-31 | the nested loops fold the step over the symbols, starting at 1 |
| Polymod.StepLinear | bech32/checksum.go:20-29 | the step is linear over GF(2) |
| Polymod.StepInjective | bech32/checksum.go:20-29 | the step is injective on 30-bit states |
| Polymod.GenSumIsGeneratorMultiple | bech32/checksum.go:18-31 | what is added for a symbol shifted out is its GF(32) multiple of the BIP 173 generator |
| Polymod.ProductWithPowers | bech32/checksum.go:18-32 | the GF(32) product with a power of a is multiplication by a as often |
| Polymod.PowersOfA | bech32/checksum.go:18-32 | a^5 is a^3 + 1 |
| Polymod.StepReducesModGenerator | bech32/checksum.go:18-31 | a step multiplies by x, adds the symbol and reduces modulo the generator |
| Checksum.Bech32HrpExpand | bech32/checksum.go:34-46 | the characters divided by 32, a 0, and the remainders |
| Checksum.HrpExpandMeans | bech32/checksum.go:34-46 | the same of the expansion that the checksum is computed over |
| Checksum.KnownChecksum | bech32/checksum.go:6-54 | the checksum of the valid string "A12UEL5L" of BIP 173 is created and verifies |
| Checksum.Bech32CreateChecksum | bech32/checksum.go:6-16 | the six symbols of the checksum |
| Checksum.Bech32VerifyChecksum | bech32/checksum.go:48-50 | whether the expanded part and the data have polymod 1 |
| Checksum.FoldLinear | bech32/checksum.go:18-31 | polymod is linear over GF(2) in symbols and state together |
| Checksum.FoldInjective | bech32/checksum.go:18-31 | different states stay different whatever follows |
| Checksum.ChecksumUnique | bech32/checksum.go:6-50 | the created checksum verifies and is the only six-symbol suffix that does |
| Checksum.BurstErrorDetected | bech32/checksum.go:18-50 | two words of any length that differ inside a window of six symbols never both verify |
| Base32.Encode | bech32/internal/base32/base32.go:20-62 | writes exactly the digits of the bytes in place and leaves the rest of the buffer |
| Base32.WriteUpperDigits | bech32/internal/base32/base32.go:26-37 | the first cases of the switch with their fallthrough and carry |
| Base32.WriteLowerDigits | bech32/internal/base32/base32.go:37-52 | the remaining cases of the switch with the carry handed over |
| Base32.Decode | bech32/internal/base32/base32.go:92-149 | writes exactly the decoded bytes in place and reports the same error as the recursive decoding |
| Base32.WriteBytes | bech32/internal/base32/base32.go:101-126 | one quantum of bytes, written without touching other elements |
| Base32.EncodedBits | bech32/internal/base32/base32.go:12-62 | the digits hold the bits of the bytes in order, then fewer than five zero bits |
| Base32.DecodeEncoded | bech32/internal/base32/base32.go:20-149 | decoding the digits of bytes gives the bytes |
| Base32.EncodeDecoded | bech32/internal/base32/base32.go:20-149 | digits that decode are the encoding of the result |
| Base32.DecodesIffEncoding | bech32/internal/base32/base32.go:92-149 | exactly the encodings decode |
| Base32.DecodesIffWellFormed | bech32/internal/base32/base32.go:92-149 | decoding succeeds exactly on legal lengths with zero padding |
| Charset.Encoding.constructor | bech32/chars.go:14-31 | both tables are filled for the character set |
| Charset.Encoding.Encode | bech32/chars.go:33-42 | the character of every digit |
| Charset.Encoding.Decode | bech32/chars.go:44-55 | the digit of every character, up to the first that has none |
| Charset.DecodeEncodedText | bech32/chars.go:33-55 | reading back the characters of digits gives the digits |
| Charset.EncodeDecodedText | bech32/chars.go:33-55 | a text that reads as digits is the text of those digits |
| Bech32.ValidateCase | bech32/bech32.go:126-136 | accepts exactly strings without both cases |
| Bech32.FirstUpper | bech32/bech32.go:138-147 | the first upper-case position, or -1 exactly if there is none |
| Bech32.FirstLower | bech32/bech32.go:149-158 | the first lower-case position, or -1 exactly if there is none |
| Bech32.Encode | bech32/bech32.go:21-64 | the encoded string or the error for every input |
| Bech32.Decode | bech32/bech32.go:67-119 | the decoded parts or the error for every ASCII string |
| Bech32.DecodeInvertsEncode | bech32/bech32.go:21-119 | what was encoded decodes to the lower-case human-readable part and the same bytes |
| Bech32.EncodeInvertsDecode | bech32/bech32.go:21-119 | what decodes is encoded to the same string in lower case |
| Bech32.BurstErrorRejected | bech32/bech32.go:67-119 | two accepted strings that differ inside six characters of the data part are the same, case aside |
| Bech32.EncodedMeans | bech32/bech32.go:21-64 | encoding succeeds exactly for printable human-readable parts in one case within 90 characters; each error exactly in its case |
| Bech32.EncodedCase | bech32/bech32.go:21-64 | the string starts with the part as given and has its case |
| Bech32.DecodedMeans | bech32/bech32.go:67-119 | strings in both cases, above 90 characters or without separator are rejected; what is decoded has its parts where they belong |
| Bech32.KnownLowerCase | bech32/bech32.go:21-64 | "a12uel5l" of BIP 173 encodes the part "a" and no data |
| Bech32.KnownUpperCase | bech32/bech32.go:21-64 | "A12UEL5L" of BIP 173 encodes the part "A" and no data |
| UnlockValidator.Validator.constructor | unlock.go:146-158 | all seen-maps start empty |
| UnlockValidator.Validator.Validate | unlock.go:160-276 | accepts exactly what is admissible after the unlocks seen, an error names what is wrong, and the six maps again describe exactly the unlocks seen |
| UnlockValidator.Validator.ValidateInner | unlock.go:210-259 | accepts exactly if every inner unlock is admissible, an error names what is wrong with one, and exactly the inner signers are recorded |
| UnlockValidator.ValidateUnlocks | unlock.go:279-289 | accepts exactly the consistent lists of at most 65536 unlocks; an error names what is wrong with the first one not admissible |
| UnlockValidator.AcceptedIffConsistent | unlock.go:136-289 | accepted one by one means: references point backwards at allowed types, signers are unique at top level and not also inside, multi unlocks are distinct and not nested |
| UnlockValidator.ReferenceAdmissibleIff | unlock.go:176-255 | reference unlocks may point to signature and multi unlocks, account, anchor and NFT unlocks also to references, inside multi unlocks none to a multi unlock |
| UnlockValidator.ReferenceUnlocksPointDirectly | unlock_reference.gen.go:25-27 | in an accepted list every reference unlock points directly at a signature or multi unlock, inside a multi unlock at a signature |
| UnlockValidator.ReferencesEnd | unlock.go:136-289 | following references ends at a signature or multi unlock, at once for references that are not chainable |
| UnlockValidator.EndsAtSignatureIff | unlock.go:136-289 | in an accepted list a reference leads to a signature exactly if no reference on its way points directly at a multi unlock |
| UnlockValidator.AllEndAtSignaturesIff | unlock.go:136-289 | all references of an accepted list lead to signatures exactly if none points directly at a multi unlock |
| UnlockValidator.ReferenceToMultiAccepted | unlock.go:160-276 | an account unlock that references a multi unlock is accepted |
| UnlockValidator.InnerReferenceEnds | unlock.go:210-259 | a reference inside a multi unlock never points at one, and leads to a signature exactly if no reference on its way does |
| UnlockValidator.InnerReferenceToMultiAccepted | unlock.go:160-276 | an accepted list with a reference inside a multi unlock that leads to another multi unlock |
| BuilderUnlocks.UnlockedSet.UnlockInput | builder/transaction_builder.go:717-781 | one round appends the unlock for the owner, and the maps hold first signatures and last chains again |
| BuilderUnlocks.UnlockedSet.AddReferentialUnlock | builder/transaction_builder.go:808-819 | the unlock type follows the address type, the index is truncated to 16 bits |
| BuilderUnlocks.UnlockedSet.AddChainAsUnlocked | builder/transaction_builder.go:829-833 | an addressable chain is remembered at this index |
| BuilderUnlocks.BuildUnlocks | builder/transaction_builder.go:700-781 | succeeds exactly if every input is unlockable, with one unlock for every input, signed by its owner over the message |
| BuilderUnlocks.BuildableIffUnlockable | builder/transaction_builder.go:717-780 | an input is unlocked exactly if its chain is consumed before it or its owner's signer is known |
| BuilderUnlocks.OwnerIs | builder/transaction_builder.go:706-720 | the owner is the unlock target, or the address a restricted one restricts |
| BuilderUnlocks.UnlockableMeans | builder/transaction_builder.go:717-780 | account, anchor and NFT addresses need their chain before, Ed25519 and implicit account creation addresses a signer, no other address is unlockable |
| BuilderUnlocks.BuiltKinds | builder/transaction_builder.go:808-819 | the unlock type follows the owner's address type |
| BuilderUnlocks.BuiltSigns | builder/transaction_builder.go:752-764 | every signature is the signer's for the owner over the message, or the empty one for the owner |
| BuilderUnlocks.BuiltUnlocksOwner | builder/transaction_builder.go:717-839 | a chain-owned input references the last earlier input of that chain, a reference unlock the signature of the same signer |
| BuilderUnlocks.SignatureIsFirst | builder/transaction_builder.go:752-776 | no signer signs two inputs |
| BuilderUnlocks.BuiltUnlocksAccepted | builder/transaction_builder.go:675-839 | every built list is consistent, so the unlock validator accepts it |
| BuilderUnlocks.ReferencesEndAtRootSigner | builder/transaction_builder.go:717-839 | references lead to the signature of the owner at the root of the chain of ownership |
| BuilderUnlocks.DummyBuildSameShape | builder/transaction_builder.go:752-776 | building with empty signatures gives the same unlocks up to the signatures, whatever is signed |
| BuilderUnlocks.InMemorySignerAccepted | address_signer.go:141-179 | what the in-memory signer signs is accepted, without any assumption on keys |
| BuilderUnlocks.InMemorySignerSigns | address_signer.go:141-190 | signatures are made with the owner's private key over the message and carry the hash of its public key; dummy signatures are zero |
| ManaLedger.ChargingConserves | builder/transaction_builder.go:365-445 | charging removes from unbound and bound mana together exactly what is charged |
| ManaLedger.ChargeOnce | builder/transaction_builder.go:375-411 | an account pays what its bound mana covers, the unbound mana pays the overshoot |
| ManaLedger.PrefixLeavesMore | builder/transaction_builder.go:413-442 | once the debits exceed the mana they exceed it to the end |
| ManaLedger.RemainingInAnyOrder | builder/transaction_builder.go:413-442 | the balances and the failure do not depend on the order of outputs and allotments |
| Allotments.IncreaseMeans | builder/transaction_builder.go:109-129 | increasing changes the one allotment of the account and keeps accounts distinct |
| Allotments.SortedMeans | allotment.go:44-48 | sorting is an ascending permutation |
| ContextInputs.SortedInputsMeans | input_context.go:85-89 | sorting context inputs is a permutation in lexical order |
| ContextInputs.SortedInputsAgain | input_context.go:85-89 | sorting what is in order changes nothing |
| ContextInputs.SortedInputsByRank | input_context.go:14-22 | sorted are commitments, then block issuance credits by account, then rewards by index |
| ContextInputs.BeforeMeans | input_reward.go:38-49 | an input comes before another exactly by type, then account or index |
| Allotments.AllotBound | builder/transaction_builder.go:178-199 | allotting bound mana to its accounts never wraps, uses it up and leaves the unbound mana |
| Leftovers.AllotAllLeavesOver | builder/transaction_builder.go:213-225 | allotting everything leaves exactly what the account's allotment loses by wrapping |
| Leftovers.StoreLeavesOver | builder/transaction_builder.go:262-292 | storing leaves the bound mana not stored along and what the output loses by wrapping |
| AvailableMana.AvailableManaResult.AddInput | builder/transaction_builder.go:584-625 | every figure stays the sum it stands for; fails exactly if the total exceeds 64 bits |
| AvailableMana.AvailableManaResult.SubtractBound | builder/transaction_builder.go:375-411 | bound mana pays first, unbound mana the rest, an error exactly if it cannot |
| AvailableMana.SumsExist | builder/transaction_builder.go:497-633 | the sums over any inputs split into unbound and bound mana without loss |
| AvailableMana.AvailableIsTotal | builder/transaction_builder.go:577-633 | unbound and all bound mana start as total mana plus rewards |
| AvailableMana.CalculateAvailableManaInputs | builder/transaction_builder.go:579-633 | for every order of inputs the sums of all inputs, and an error exactly if one cannot be computed or a sum does not fit |
| AvailableMana.BoundMeansAccountOutput | builder/transaction_builder.go:584-633 | over the outputs: the mana of exactly the account outputs is bound, to their accounts; the mana of all others and the rewards are unbound |
| AvailableMana.InputsFitMeans | builder/transaction_builder.go:584-633 | over the outputs: it succeeds exactly if potential and decayed mana of every input can be computed and the sums fit |
| TransactionBuilder.TransactionBuilder.AddInput | builder/transaction_builder.go:73-79 | the input is appended and its output and owner are recorded |
| TransactionBuilder.TransactionBuilder.AddContextInput | builder/transaction_builder.go:87-98 | the context input is appended |
| TransactionBuilder.TransactionBuilder.AddRewardInput | builder/transaction_builder.go:101-106 | the reward input is appended and rewards grow with wrap-around |
| TransactionBuilder.TransactionBuilder.AddOutput | builder/transaction_builder.go:132-136 | the output is appended |
| TransactionBuilder.TransactionBuilder.WithTransactionCapabilities | builder/transaction_builder.go:139-142 | the capabilities are set |
| TransactionBuilder.TransactionBuilder.SetCreationSlot | builder/transaction_builder.go:148-152 | the creation slot is set |
| TransactionBuilder.TransactionBuilder.AddTaggedDataPayload | builder/transaction_builder.go:155-159 | the inner payload is set |
| TransactionBuilder.TransactionBuilder.IncreaseAllotment | builder/transaction_builder.go:109-129 | the map of allotments grows by the value, with wrap-around |
| TransactionBuilder.TransactionBuilder.CalculateAvailableManaRemaining | builder/transaction_builder.go:368-445 | refines the closed form: max(0, in - out) per account, unbound less unlocked outputs and overshoots; fails exactly if that is negative |
| TransactionBuilder.TransactionBuilder.AllotRemainingAccountBoundMana | builder/transaction_builder.go:171-202 | bound mana of accounts not ignored is allotted and the callback gets each of them with its mana; only ignored bound mana and the unbound mana remain |
| TransactionBuilder.TransactionBuilder.AllotAllMana | builder/transaction_builder.go:206-232 | nothing remains unless the account's allotment wraps; an error exactly below the required mana |
| TransactionBuilder.TransactionBuilder.GetStoredManaOutputAccountID | builder/transaction_builder.go:236-259 | the account whose mana the output holds; an error for missing outputs and outputs without mana |
| TransactionBuilder.ManaAccountIff | builder/transaction_builder.go:447-467 | mana counts for an account exactly in its account outputs and in outputs addressed to it and timelocked beyond creation slot plus twice the maximum committable age |
| TransactionBuilder.ManaLockWraps | builder/transaction_builder.go:449 | near slot 2^32 that limit wraps, and an early timelock locks the mana |
| TransactionBuilder.TransactionBuilder.StoreRemainingManaInOutput | builder/transaction_builder.go:262-295 | the output's mana grows by the unbound mana and its account's, others stay |
| TransactionBuilder.TransactionBuilder.StoreRemainingManaInOutputAndAllotRemainingAccountBoundMana | builder/transaction_builder.go:300-315 | recomputing leaves only mana of the empty account, if that is the output's, and what wraps |
| TransactionBuilder.TransactionBuilder.AllotMinRequiredManaAndStoreRemainingManaInOutput | builder/transaction_builder.go:321-363 | succeeds exactly if the cost is known and the mana suffices; the issuer gets at least the cost exactly if its allotment fits, and then nothing but the empty account's mana remains; the transaction is no larger than the dummy whose cost was allotted |
| TransactionBuilder.TransactionBuilder.AllotAndStoreRest | builder/transaction_builder.go:349-362 | the issuer's allotment grows by the value and the output stores what then remains, or nothing is stored exactly if the mana does not suffice |
| TransactionBuilder.TransactionBuilder.SignedCostsAtMostDummy | builder/transaction_builder.go:637-790 | the transaction finally built and signed costs at most what the dummy did, so the issuer was allotted enough for the block |
| TransactionBuilder.TransactionBuilder.MinRequiredAllottedMana | builder/transaction_builder.go:637-666 | exactly the cost of the dummy transaction with the extra allotment, an error if it cannot be built; the allotments are restored, the context inputs stay sorted |
| TransactionBuilder.TransactionBuilder.Build | builder/transaction_builder.go:675-790 | sorts allotments and context inputs and succeeds exactly if there is a signer, a message and every input is unlockable |
| TransactionBuilder.TransactionBuilder.BuiltIsSigned | builder/transaction_builder.go:675-790 | every signature in what is built is the signer's over the transaction's signing message for the owner of the input, or the empty one |
| TransactionBuilder.TransactionBuilder.BuiltIsAccepted | builder/transaction_builder.go:675-790 | a signed transaction passes the unlock validator with one unlock for every input |
| Leftovers.StoredAfterAllotting | builder/transaction_builder.go:300-315 | what remains after allotting other accounts' mana and storing the rest |
| Leftovers.StoredAfterMin | builder/transaction_builder.go:321-363 | what remains after the issuer's allotment and storing the rest |
| Leftovers.IssuerGets | builder/transaction_builder.go:342-356 | the issuer's allotment is at least the cost exactly if earlier allotment and cost fit 64 bits |
| Leftovers.IssuerWraps | builder/transaction_builder.go:109-129 | an issuer with 2^64 - 1 allotted before ends up with nothing for a cost of 1 |
| Leftovers.MinMeans | builder/transaction_builder.go:321-363 | the whole procedure on sums: what the issuer gets and what remains after storing |
| Leftovers.NothingRemains | builder/transaction_builder.go:365-445 | a total of 0 means no unbound mana and no mana of any account |
| WorkScore.Add | workscore.go:12-24 | the exact sum, or an error exactly if it exceeds 32 bits |
| WorkScore.FeaturesWorkScore | feat.go:103-118 | the exact sum over the features, or an error exactly if it exceeds 32 bits |
| WorkScore.OutputWorkScore | output_foundry.go:187-209 | the exact score of any output type, a foundry with its token scheme |
| WorkScore.OutputsWorkScore | output.go:162-177 | the exact sum over the outputs, or an error exactly if it exceeds 32 bits |
| WorkScore.UnlocksWorkScore | unlock.go:94-109 | the exact sum over unlocks, also inside multi unlocks, or an error exactly if it exceeds 32 bits |
| WorkScore.UnlockWorkScore | unlock_multi.go:35-50 | signatures cost, multi unlocks cost their unlocks, other unlocks nothing |
| WorkScore.InputsWorkScore | input.go:56-71 | the exact score of that many inputs, or an error exactly if it exceeds 32 bits |
| WorkScore.EssenceWorkScore | transaction_essence.go:90-107 | inputs, context inputs and allotments together, exactly |
| WorkScore.TransactionWorkScore | transaction.go:314-326 | essence and outputs together, exactly |
| WorkScore.PayloadWorkScore | signed_transaction.go:122-141 | block offset, data bytes, transaction and unlocks together, exactly |
| WorkScore.BlockWorkScore | block.go:387-395 | the payload's score, or the block offset without a payload |
| WorkScore.AddWorkScore | workscore.go:83-93 | the accumulated value is the exact sum, or an error is remembered exactly once it exceeds 32 bits |
| WorkScore.MaxBlockWork | workscore.go:79-130 | the exact maximum, or an error exactly if it exceeds 32 bits |
| WorkScore.MaxScoreIs | workscore.go:95-123 | the maximum in numbers: 32530 bytes, a block, 128 of everything countable and 1280 signatures |
| Payloads.ValidIsLimited | payload.go:10-13 | a block within the block size has a payload within MaxPayloadSize, and all other limits |
| Payloads.FeatureAllowedIff | api_v3.go:368-468 | which output types may have a feature, and which as an immutable one |
| Payloads.LimitsOfParts | tagged_data.go:11-13 | the limits of tags, data, keys, metadata and multi unlocks in numbers |
| Payloads.LimitsOfBlocks | block.go:280-283 | the limits of valid blocks and their transactions in numbers |
| Payloads.PartSizes | unlock_cond_storage_return.go:58-61 | the sizes of unlock conditions and features |
| Payloads.BareOutputSizes | output_delegation.go:212-224 | the sizes of outputs of every type without features |
| Payloads.OutputGrows | output_basic.go:118-125 | each condition and feature adds its size to its output |
| Payloads.TransactionGrows | transaction_essence.go:69-85 | what each input, context input, allotment, output and unlock adds to a transaction |
| Payloads.EmptyTransactionSize | signed_transaction.go:69-74 | what a transaction takes without parts, and the sizes of unlocks and tagged data |
| Payloads.BlockSizes | block.go:397-408 | the size of a block by its parents and payload |
| WorkScoreBounds.DistinctFeaturesScore | feat.go:103-118 | distinct features cost at most one native token, block issuer and staking each |
| WorkScoreBounds.ScoreIsLinear | block.go:249-256 | the score of every block within the limits is the sum of the prices times how often they are charged |
| WorkScoreBounds.NilSignatureIff | unlock_signature.go:28-30 | a signature is missing exactly in signature unlocks that hold none, at any depth |
| WorkScoreBounds.ValidBlockHasSignatures | unlock.go:160-276 | every valid block has all its signatures, so its work score can be computed |
| WorkScoreBounds.AccountsHoldNoNativeTokens | api_v3.go:418-421 | outputs that stake or issue blocks pay for no native tokens |
| WorkScoreBounds.SignaturesTakeSpace | unlock.go:85-92 | every signature takes 98 bytes, also inside multi unlocks |
| WorkScoreBounds.MaxSignaturesFit | payload.go:10-13 | 331 signatures fit into the largest payload and 332 do not |
| WorkScoreBounds.CountsWithinLimits | workscore.go:74-130 | what the limits on counts and sizes leave, with at most 331 signatures |
| WorkScoreBounds.MaxBlockWorkBounds | workscore.go:74-130 | if a native token costs at most as much as staking, block issuing and 949/128 signatures, no block within the limits overflows or exceeds the maximum |
| WorkScoreBounds.BoundedForAllPricesIff | workscore.go:74-130 | a block is bounded at all prices exactly if it pays for at most 128 native tokens |
| WorkScoreBounds.FoundryOutputIs | output_foundry.go:274-283 | a foundry with its native token is valid, takes 218 bytes besides metadata and pays for two native tokens |
| WorkScoreBounds.FoundryPayloadIs | signed_transaction.go:69-74 | the transaction with n foundries is valid, with its exact size and charges |
| WorkScoreBounds.FoundriesExceedMaximum | workscore.go:74-130 | valid blocks with 65 to 128 foundries exceed the maximum where only native tokens cost anything |
| WorkScoreBounds.MaxBlockWorkNeeds | workscore.go:74-130 | prices at which all valid blocks are bounded meet this inequality |
| WorkScoreBounds.MaxBlockWorkBoundsIff | workscore.go:74-130 | where inputs, context inputs, allotments and signatures are free, all valid blocks are bounded exactly if a native token costs at most staking and block issuing together |
| WorkScoreBounds.CostlySignaturesBound | workscore.go:74-130 | with costly signatures all blocks are bounded although a native token costs more than that |
| WorkScoreBounds.FewerAllotmentsScoreNoMore | signed_transaction.go:122-141 | other signatures and fewer allotments make a transaction neither larger nor more costly |

## Left out

- UnlockValidator.ValidateUnlocks: lists of more than 65536 unlocks, whose indices the validator truncates; a
  transaction has at most 128 inputs.
- BuilderUnlocks.BuiltUnlocksAccepted: more than 65536 inputs, for the same reason. The agreement of a signer's
  UIDs is assumed for signers other than the in-memory one.
- Bech32.Decode: strings other than ASCII; the positions in syntax errors.
- Checksum.BurstErrorDetected: the detection of up to four scattered errors that BIP 173 claims for its code.
- FixedPoint.MultiplicationExactIff: factors of more than 32 bits together with scales above 64, where bits
  lost from the product may be shifted out again.
- WorkScoreBounds.MaxBlockWorkBoundsIff: prices at which inputs, context inputs, allotments or signatures cost
  something. Between the sufficient and the necessary inequality the answer depends on how such parts are
  packed into a block beside the foundries.
- Payloads.ValidIsLimited: the order of features and unlock conditions, identifiers of inputs and allotments,
  and amounts with their checks (deposits, sums, expiration slots), which do not change sizes or scores.
- WorkScore.UnlockWorkScore: a nil signature, on which the source panics; the unlock validator rejects it.
- TransactionBuilder.TransactionBuilder.AllotRemainingAccountBoundMana: the callback's calls are returned
  together; their order is not captured.
- TransactionBuilder.TransactionBuilder.Build: the library's sorts are modelled by their results; context
  inputs that compare equal, which validation rejects, keep their order.
- TransactionBuilder.TransactionBuilder.SignedCostsAtMostDummy: that the cost is monotone in this sense is
  assumed of the cost function; for the work score it is WorkScoreBounds.FewerAllotmentsScoreNoMore.
- TransactionBuilder.TransactionBuilder.StoreRemainingManaInOutput: outputs are values in a list, so an output
  that shares a pointer with the caller is not captured; a negative index, on which the source panics.
- Potential mana, decayed mana and the mana cost inside the builder: arbitrary functions that may fail.
- Serialization and JSON: the bytes of an object are given, and an encoder is a function that may fail.
- BLAKE2b and Ed25519: functions about which only the digest length is assumed, and the state of a hash while
  it is written: a preimage is one byte string.
- Error texts and wrapping; only the kind of an error is kept where it matters.
- EpochDurationSlots and EpochDurationSeconds, whose shift exceeds 32 bits for large exponents.
- The semantic validation of transactions, unlock-condition windows, the other syntactic validators, and
  Clone and Equal methods.
