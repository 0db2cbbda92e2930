/**
 * `ZkAccessHelper`: the nullifier that ties one proof to one user and one
 * resource, and the formatting of raw proof buffers into an `AccessRequest`.
 */
module ZkAccessHelper {
  import opened Bytes
  import opened ZkTypes

  /**
   * `to_bytesn32`: a slice of exactly 32 bytes is copied into the zeroed
   * buffer; any other slice leaves the buffer all zero.
   */
  function ToBytesN32(bytes: seq<Byte>): (r: Bytes32)
    ensures |bytes| == 32 ==> r == bytes
    ensures |bytes| != 32 ==> forall i :: 0 <= i < 32 ==> r[i] == 0
  {
    seq(32, i => if |bytes| == 32 && 0 <= i < 32 then bytes[i] else 0)
  }

  /** The eight proof coordinates in the order the nullifier hashes them. */
  function ProofBytes(p: Proof): (r: seq<Byte>)
    ensures |r| == 256
  {
    p.a.x + p.a.y + p.b.x.0 + p.b.x.1 + p.b.y.0 + p.b.y.1 + p.c.x + p.c.y
  }

  /** Each 32-byte block of the proof bytes is the coordinate in that place. */
  lemma ProofBytesLayout(p: Proof)
    ensures ProofBytes(p)[0..32] == p.a.x && ProofBytes(p)[32..64] == p.a.y
    ensures ProofBytes(p)[64..96] == p.b.x.0 && ProofBytes(p)[96..128] == p.b.x.1
    ensures ProofBytes(p)[128..160] == p.b.y.0 && ProofBytes(p)[160..192] == p.b.y.1
    ensures ProofBytes(p)[192..224] == p.c.x && ProofBytes(p)[224..256] == p.c.y
  {
  }

  /**
   * The buffer `compute_nullifier` hashes: the proof coordinates, every public
   * input in order, the user's bytes and the resource id.
   */
  function NullifierPreimage(proof: Proof, publicInputs: seq<Bytes32>, userBytes: seq<Byte>,
                             resourceId: Bytes32): seq<Byte>
  {
    ProofBytes(proof) + Flatten(publicInputs) + userBytes + resourceId
  }

  /** Where each argument sits in the preimage. */
  lemma PreimageLayout(proof: Proof, publicInputs: seq<Bytes32>, userBytes: seq<Byte>,
                       resourceId: Bytes32)
    ensures var pre := NullifierPreimage(proof, publicInputs, userBytes, resourceId);
      && |pre| == 256 + 32 * |publicInputs| + |userBytes| + 32
      && pre[..256] == ProofBytes(proof)
      && (forall k :: 0 <= k < |publicInputs| ==>
            pre[256 + 32 * k .. 256 + 32 * k + 32] == publicInputs[k])
      && pre[256 + 32 * |publicInputs| .. |pre| - 32] == userBytes
      && pre[|pre| - 32 ..] == resourceId
  {
    var pre := NullifierPreimage(proof, publicInputs, userBytes, resourceId);
    var pb, fl := ProofBytes(proof), Flatten(publicInputs);
    FlattenLength(publicInputs);
    var n := 256 + |fl|;
    assert pre[..n] == pb + fl;
    assert pre[..256] == pb;
    forall k | 0 <= k < |publicInputs|
      ensures pre[256 + 32 * k .. 256 + 32 * k + 32] == publicInputs[k]
    {
      FlattenBlock(publicInputs, k);
      assert pre[256 + 32 * k .. 256 + 32 * k + 32] == fl[32 * k .. 32 * k + 32];
    }
    assert pre[n .. |pre| - 32] == userBytes;
    assert pre[|pre| - 32 ..] == resourceId;
  }

  /**
   * The preimage determines its arguments once the length of the user's byte
   * form is fixed: a different proof, a different public input (or order of
   * inputs), a different user encoding or a different resource gives a
   * different buffer to hash.
   */
  lemma PreimageInjective(p1: Proof, pi1: seq<Bytes32>, u1: seq<Byte>, r1: Bytes32,
                          p2: Proof, pi2: seq<Bytes32>, u2: seq<Byte>, r2: Bytes32)
    requires |u1| == |u2|
    requires NullifierPreimage(p1, pi1, u1, r1) == NullifierPreimage(p2, pi2, u2, r2)
    ensures p1 == p2 && pi1 == pi2 && u1 == u2 && r1 == r2
  {
    var pre := NullifierPreimage(p1, pi1, u1, r1);
    PreimageLayout(p1, pi1, u1, r1);
    PreimageLayout(p2, pi2, u2, r2);
    assert |pi1| == |pi2|;
    var n := 256 + 32 * |pi1|;
    assert pre[256..n] == Flatten(pi1) by {
      FlattenLength(pi1);
      assert pre[..n] == ProofBytes(p1) + Flatten(pi1);
    }
    assert pre[256..n] == Flatten(pi2) by {
      FlattenLength(pi2);
      assert pre[..n] == ProofBytes(p2) + Flatten(pi2);
    }
    FlattenInjective(pi1, pi2);
    ProofBytesInjective(p1, p2);
  }

  /**
   * Why `PreimageInjective` fixes the length of the user's bytes: the buffer
   * has no separators, so the last public input can be read as the start of
   * the user's bytes instead. With a user encoding of variable length, moving
   * one input across that boundary leaves the hashed buffer unchanged.
   */
  lemma PreimageShiftsInputIntoUser(proof: Proof, publicInputs: seq<Bytes32>, x: Bytes32,
                                    userBytes: seq<Byte>, resourceId: Bytes32)
    ensures NullifierPreimage(proof, publicInputs + [x], userBytes, resourceId)
         == NullifierPreimage(proof, publicInputs, x + userBytes, resourceId)
  {
  }

  /**
   * `compute_nullifier`: grows the buffer field by field and hashes it, so the
   * nullifier is keccak256 of the preimage and nothing else.
   */
  method ComputeNullifier<Address>(env: Env<Address>, proof: Proof, publicInputs: seq<Bytes32>,
                                   user: Address, resourceId: Bytes32)
    returns (nullifier: Bytes32)
    ensures nullifier == env.keccak256(NullifierPreimage(proof, publicInputs,
                                                        env.addressBytes(user), resourceId))
  {
    var buf: seq<Byte> := [];
    buf := buf + proof.a.x;
    buf := buf + proof.a.y;
    buf := buf + proof.b.x.0;
    buf := buf + proof.b.x.1;
    buf := buf + proof.b.y.0;
    buf := buf + proof.b.y.1;
    buf := buf + proof.c.x;
    buf := buf + proof.c.y;

    for i := 0 to |publicInputs|
      invariant buf == ProofBytes(proof) + Flatten(publicInputs[..i])
    {
      FlattenSnoc(publicInputs[..i], publicInputs[i]);
      assert publicInputs[..i + 1] == publicInputs[..i] + [publicInputs[i]];
      buf := buf + publicInputs[i];
    }
    assert publicInputs[..|publicInputs|] == publicInputs;

    buf := buf + env.addressBytes(user);
    buf := buf + resourceId;
    nullifier := env.keccak256(buf);
  }

  /**
   * The `Proof` literal of `create_request`: each coordinate is a 32-byte
   * slice of its buffer, so the zero-fill of `ToBytesN32` never applies.
   */
  function ProofOf(proofA: Bytes64, proofB: Bytes128, proofC: Bytes64): (p: Proof)
    ensures p.a == G1Point(proofA[0..32], proofA[32..64])
    ensures p.b == G2Point((proofB[0..32], proofB[32..64]), (proofB[64..96], proofB[96..128]))
    ensures p.c == G1Point(proofC[0..32], proofC[32..64])
  {
    Proof(
      G1Point(ToBytesN32(proofA[0..32]), ToBytesN32(proofA[32..64])),
      G2Point((ToBytesN32(proofB[0..32]), ToBytesN32(proofB[32..64])),
              (ToBytesN32(proofB[64..96]), ToBytesN32(proofB[96..128]))),
      G1Point(ToBytesN32(proofC[0..32]), ToBytesN32(proofC[32..64])))
  }

  /** Flattening a formatted proof gives back the three buffers it came from. */
  lemma ProofRoundTrip(proofA: Bytes64, proofB: Bytes128, proofC: Bytes64)
    ensures ProofBytes(ProofOf(proofA, proofB, proofC)) == proofA + proofB + proofC
  {
  }

  /** Formatting the 64/128/64-byte pieces of a proof's bytes gives back the proof. */
  lemma ProofSplitRoundTrip(p: Proof)
    ensures var bs := ProofBytes(p);
      ProofOf(bs[..64], bs[64..192], bs[192..]) == p
  {
    var bs := ProofBytes(p);
    ProofBytesLayout(p);
    var q := ProofOf(bs[..64], bs[64..192], bs[192..]);
    assert bs[..64][0..32] == bs[0..32] && bs[..64][32..64] == bs[32..64];
    assert bs[64..192][0..32] == bs[64..96] && bs[64..192][32..64] == bs[96..128];
    assert bs[64..192][64..96] == bs[128..160] && bs[64..192][96..128] == bs[160..192];
    assert bs[192..][0..32] == bs[192..224] && bs[192..][32..64] == bs[224..256];
  }

  /** Distinct proofs have distinct bytes. */
  lemma ProofBytesInjective(p1: Proof, p2: Proof)
    requires ProofBytes(p1) == ProofBytes(p2)
    ensures p1 == p2
  {
    ProofSplitRoundTrip(p1);
    ProofSplitRoundTrip(p2);
  }

  /**
   * `create_request`: copies the public inputs one by one, splits the proof
   * buffers into coordinates, sets the nonce to 0 and stamps the ledger time.
   */
  method CreateRequest<Address>(env: Env<Address>, user: Address, resourceId: Bytes32,
                                proofA: Bytes64, proofB: Bytes128, proofC: Bytes64,
                                publicInputs: seq<Bytes32>)
    returns (r: AccessRequest<Address>)
    ensures r.user == user && r.resourceId == resourceId
    ensures r.proof.a == G1Point(proofA[0..32], proofA[32..64])
    ensures r.proof.b == G2Point((proofB[0..32], proofB[32..64]), (proofB[64..96], proofB[96..128]))
    ensures r.proof.c == G1Point(proofC[0..32], proofC[32..64])
    ensures ProofBytes(r.proof) == proofA + proofB + proofC
    ensures r.publicInputs == publicInputs
    ensures r.nonce == 0 && r.timestamp == env.ledgerTimestamp
  {
    var piVec: seq<Bytes32> := [];
    for i := 0 to |publicInputs|
      invariant piVec == publicInputs[..i]
    {
      piVec := piVec + [publicInputs[i]];
    }
    assert publicInputs[..|publicInputs|] == publicInputs;

    ProofRoundTrip(proofA, proofB, proofC);
    r := AccessRequest(user, resourceId, ProofOf(proofA, proofB, proofC), piVec, 0,
                       env.ledgerTimestamp);
  }

  /**
   * A request built by `create_request` and hashed by `compute_nullifier`:
   * the hashed buffer is the three raw proof buffers, the public inputs, the
   * user's bytes and the resource id, back to back.
   */
  method CreateThenNullify<Address>(env: Env<Address>, user: Address, resourceId: Bytes32,
                                    proofA: Bytes64, proofB: Bytes128, proofC: Bytes64,
                                    publicInputs: seq<Bytes32>)
    returns (nullifier: Bytes32)
    ensures nullifier == env.keccak256(proofA + proofB + proofC + Flatten(publicInputs)
                                       + env.addressBytes(user) + resourceId)
  {
    var r := CreateRequest(env, user, resourceId, proofA, proofB, proofC, publicInputs);
    nullifier := ComputeNullifier(env, r.proof, r.publicInputs, r.user, r.resourceId);
  }
}
