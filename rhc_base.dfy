/**
 * Declarations shared by the rhc crate: node and lease identifiers
 * (rhc/src/lib.rs), bytes, and the error type of rhc/src/error.rs.
 */
module RhcBase {
  import Bytes

  /** A `Uuid`, as an opaque natural number; fresh ones are chosen by the caller. */
  type Uuid = nat

  /** `NodeId(Uuid)`. */
  type NodeId = Uuid

  type Byte = Bytes.Byte

  type U8 = x: int | 0 <= x < 256

  /**
   * `Error`. The payloads of `Serialization`, `Io` and `Other` wrap foreign
   * error values; `Other` keeps only its message.
   */
  datatype Error =
    | LeaseExpired(domain: string)
    | LeaseConflict(domain: string, holder: NodeId)
    | InvalidLeaseProof
    | ByzantineFault(node: NodeId)
    | InsufficientShares(got: nat, need: nat)
    | NetworkPartition
    | ClockSkew(skewMs: int)
    | Crypto(message: string)
    | Storage(message: string)
    | Serialization
    | Io
    | Other(message: string)
}
