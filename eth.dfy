/**
 * The parts of an Ethereum transaction record that the tracker consults or that
 * tell two transactions apart: the hash and the sender, the destination (absent
 * for a contract creation), the transferred value in wei, and the call data. Gas,
 * nonce, block and chain fields are only displayed and are not modelled.
 */
module Eth {
  import opened Bytes
  import opened Wrappers

  const ADDRESS_LENGTH: nat := 20

  /** A 20-byte account or contract address, compared byte for byte. */
  type Address = s: seq<Byte> | |s| == ADDRESS_LENGTH
    witness [0, 0, 0, 0, 0, 0, 0, 0, 0, 0, 0, 0, 0, 0, 0, 0, 0, 0, 0, 0]

  const HASH_LENGTH: nat := 32

  /** A 32-byte transaction hash: the identity of a transaction. */
  type TxHash = s: seq<Byte> | |s| == HASH_LENGTH
    witness [0, 0, 0, 0, 0, 0, 0, 0, 0, 0, 0, 0, 0, 0, 0, 0, 0, 0, 0, 0, 0, 0, 0, 0, 0, 0, 0, 0, 0, 0, 0, 0]

  /** 2^256. */
  const U256_LIMIT: nat := 0x1_0000_0000_0000_0000_0000_0000_0000_0000_0000_0000_0000_0000_0000_0000_0000_0000

  /** An unsigned 256-bit integer, as the `U256` of the node client. */
  type U256 = n: nat | n < U256_LIMIT

  /** 32 bytes are exactly wide enough for a `U256`. */
  lemma U256Width()
    ensures Pow256(32) == U256_LIMIT
  {
    assert Pow256(1) == 256 * Pow256(0);
    Pow256Double(1, 0x100);
    Pow256Double(2, 0x1_0000);
    Pow256Double(4, 0x1_0000_0000);
    Pow256Double(8, 0x1_0000_0000_0000_0000);
    Pow256Double(16, 0x1_0000_0000_0000_0000_0000_0000_0000_0000);
  }

  /** A transaction record. Two different transactions always differ in `hash`. */
  datatype Transaction = Transaction(hash: TxHash, from: Address, to: Option<Address>, value: U256, input: seq<Byte>)
}
