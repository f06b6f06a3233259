/** Identifiers of the chain: addresses, hashes, and the identity of a log. */
module Evm {
  import opened Words

  newtype byte = x: int | 0 <= x < 256

  datatype Address = Address(raw: seq<byte>)

  datatype Hash = Hash(raw: seq<byte>)

  const ZERO_ADDRESS: Address := Address([0, 0, 0, 0, 0, 0, 0, 0, 0, 0, 0, 0, 0, 0, 0, 0, 0, 0, 0, 0])

  /** Metadata of the transaction that emitted a log, as the RPC node reports it. */
  datatype Receipt = Receipt(block: nat, sender: Address, recipient: Option<Address>, gasUsed: nat, succeeded: bool)

  /** A log is identified by its transaction and its index. */
  datatype LogKey = LogKey(tx: Hash, index: nat)
}
