/** The part of an Ethereum transaction receipt the article rows store. */
module Eth {

  newtype byte = x: int | 0 <= x < 256

  const HashLength := 32

  const AddressLength := 20

  /** `n` zero bytes. */
  function Zeros(n: nat): (r: seq<byte>)
    ensures |r| == n
    ensures forall i | 0 <= i < n :: r[i] == 0
  {
    if n == 0 then [] else [0] + Zeros(n - 1)
  }

  /** A 32-byte transaction hash. */
  type Hash = h: seq<byte> | |h| == HashLength witness Zeros(HashLength)

  /** The all-zero hash: Go's `ethCommon.Hash{}`. */
  const ZeroHash: Hash := Zeros(HashLength)

  /** A 20-byte account address. */
  type Address = a: seq<byte> | |a| == AddressLength witness Zeros(AddressLength)

  /** The all-zero address: Go's `ethCommon.Address{}`. */
  const ZeroAddress: Address := Zeros(AddressLength)

  /** A receipt, reduced to its scalar fields; logs and bloom filter are not modelled. */
  datatype Receipt = Receipt(
    postState: seq<byte>,
    status: nat,
    cumulativeGasUsed: nat,
    txHash: Hash,
    contractAddress: Address,
    gasUsed: nat)

  /** Go's zero `ethTypes.Receipt{}`. */
  const ZeroReceipt := Receipt([], 0, 0, ZeroHash, ZeroAddress, 0)

  /** True when the receipt belongs to a transaction, i.e. its hash is not the zero hash. */
  predicate HasTx(r: Receipt) {
    r.txHash != ZeroHash
  }
}
