/** Value types shared by the modules that model the OP streamer. */
module Batches {

  const MAX_UINT64: nat := 0xFFFF_FFFF_FFFF_FFFF

  type Uint64 = n: nat | n <= MAX_UINT64

  /** An L2 block number. The top uint64 value is excluded, so the successor of a number never wraps. */
  type BlockNumber = n: nat | n < MAX_UINT64

  /** A HotShot block position. The top uint64 value is the source's "no rewind pending" mark. */
  type Height = n: nat | n < MAX_UINT64

  type Hash = nat

  type Address = nat

  const ZERO_ADDRESS: Address := 0

  datatype Option<+T> = None | Some(value: T)

  datatype BlockID = BlockID(hash: Hash, number: nat)

  /** What the streamer reads of a batch: nothing else of the Batch interface is used. */
  datatype Batch = Batch(
    number: BlockNumber,
    hash: Hash,
    parentHash: Hash,
    origin: BlockID,
    signer: Address)

  lemma ConcatAssociates<T>(a: seq<T>, b: seq<T>, c: seq<T>)
    ensures a + (b + c) == a + b + c
  {
  }

  function Min(a: nat, b: nat): nat {
    if a <= b then a else b
  }

  function Max(a: nat, b: nat): nat {
    if a >= b then a else b
  }
}
