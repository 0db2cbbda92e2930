/**
 * The value types the ZK access helper builds and reads: curve points as
 * opaque 32-byte coordinates, a Groth16-style proof of three points, and the
 * access request a caller submits. Also the part of the Soroban host the
 * helper calls into, passed in as a value.
 */
module ZkTypes {
  import opened Bytes

  /** Soroban's `u64`, used for the ledger timestamp and the nonce. */
  newtype u64 = x: int | 0 <= x < 0x1_0000_0000_0000_0000

  /** A point of G1: two 32-byte coordinates, not checked to lie on the curve. */
  datatype G1Point = G1Point(x: Bytes32, y: Bytes32)

  /** A point of G2: two pairs of 32-byte coordinates, in the order `x.0, x.1, y.0, y.1`. */
  datatype G2Point = G2Point(x: (Bytes32, Bytes32), y: (Bytes32, Bytes32))

  datatype Proof = Proof(a: G1Point, b: G2Point, c: G1Point)

  datatype AccessRequest<Address> = AccessRequest(
    user: Address,
    resourceId: Bytes32,
    proof: Proof,
    publicInputs: seq<Bytes32>,
    nonce: u64,
    timestamp: u64)

  /**
   * The host services the helper uses: `env.crypto().keccak256`, the byte form
   * of an address (`user.to_array()`) and `env.ledger().timestamp()`. None of
   * them is interpreted here.
   */
  datatype Env<!Address> = Env(
    keccak256: seq<Byte> -> Bytes32,
    addressBytes: Address -> seq<Byte>,
    ledgerTimestamp: u64)
}
