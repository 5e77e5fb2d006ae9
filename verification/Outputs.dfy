/** Addresses and outputs, as far as the transaction builder looks at them. */
module Outputs {
  import opened Common
  import opened Words

  /** The source's 32-byte chain IDs, read as big-endian numbers. */
  datatype ChainID = ChainID(number: nat)

  type AccountID = ChainID

  /** 38 bytes in the source, read as a big-endian number. */
  datatype OutputID = OutputID(number: nat)

  type Mana = uint64

  /** The ID of an account that is being created. */
  const EMPTY_ACCOUNT_ID: AccountID := ChainID(0)

  datatype Address =
    | Ed25519Address(pubKeyHash: Bytes)
    | ImplicitAccountCreationAddress(pubKeyHash: Bytes)
    | AccountAddress(accountID: AccountID)
    | NFTAddress(nftID: ChainID)
    | AnchorAddress(anchorID: ChainID)
    | MultiAddress(multiAddressID: Bytes)
    | RestrictedAddress(underlying: Address)
  {
    /** Addresses of chains; they are unlocked by unlocking the chain. */
    predicate IsChain() {
      AccountAddress? || NFTAddress? || AnchorAddress?
    }

    /** Addresses that are unlocked by a signature. */
    predicate IsDirectUnlockable() {
      Ed25519Address? || ImplicitAccountCreationAddress?
    }
  }

  /** The slot of the timelock and the address of the address unlock condition, where present. */
  datatype UnlockConditions = UnlockConditions(timelock: Option<uint32>, address: Option<Address>)

  datatype Output =
    | BasicOutput(mana: Mana, conditions: UnlockConditions)
    | AccountOutput(accountID: AccountID, mana: Mana, conditions: UnlockConditions)
    | AnchorOutput(anchorID: ChainID, mana: Mana, conditions: UnlockConditions)
    | NFTOutput(nftID: ChainID, mana: Mana, conditions: UnlockConditions)
    | FoundryOutput(conditions: UnlockConditions)
    | DelegationOutput(conditions: UnlockConditions)
  {
    predicate StoresMana() {
      !FoundryOutput? && !DelegationOutput?
    }

    function StoredMana(): Mana {
      if StoresMana() then mana else 0
    }

    /** The address of the output's own chain, from its raw chain ID, if that is addressable. */
    function Chain(): Option<Address> {
      match this
      case AccountOutput(accountID, _, _) => Some(AccountAddress(accountID))
      case AnchorOutput(anchorID, _, _) => Some(AnchorAddress(anchorID))
      case NFTOutput(nftID, _, _) => Some(NFTAddress(nftID))
      case _ => None
    }
  }
}
