# Whitelist gate and ZK access helper of the Teye contracts, in Dafny

This project models two pieces of Soroban contract logic and proves properties about them.

- **Whitelist gate** (`contracts/common/src/whitelist.rs`). There is a global enable flag in
  instance storage and an address→bool marker in persistent storage. The policy is that an
  address may call a guarded function when enforcement is off or the address is whitelisted.
  `Whitelist.WhitelistStorage` is a class with the two storages as fields: `flag: Option<bool>`
  and `members: map<Address, bool>`. The three setters are methods that change those fields.
  The three getters are functions that read them. The two storage getters, `IsWhitelistEnabled`
  and `IsWhitelisted`, default to `false` when their key is absent. As a result,
  `RequireWhitelisted` allows every address while the flag is absent. The invariant `Valid()` says that no marker ever holds `false`. The constructor
  establishes it and every setter preserves it. `Inserted` and `Deleted` are the map
  transitions the setters perform. The idempotence lemmas are stated about them.
  `GateScenarios` is a client run that is checked only through the contracts above. It starts
  with enforcement off, switches it on with an empty whitelist, and adds an address. It then
  switches enforcement off and on again, keeping membership, and removes the address.
- **ZK access helper** (`contracts/zk_verifier/src/helpers.rs`).
  - `ToBytesN32` is the 32-byte coercion, which zero-fills when the slice is not 32 bytes long.
  - `ComputeNullifier` builds the preimage buffer one field at a time, with a loop over the
    public inputs. It then hashes the buffer with the host's keccak256. It is proved equal to
    keccak256 of `NullifierPreimage`. Separate lemmas give the layout and length of that
    preimage. They also prove injectivity for a fixed address-byte length.
  - The buffer has no separators. So when the address's byte form can vary in length, one
    public input can move into the address bytes without changing the buffer
    (`PreimageShiftsInputIntoUser`). That is why injectivity needs the fixed length.
  - `Bytes.Flatten` and `NullifierPreimage` are specification functions: the public inputs
    joined end to end, and the whole hashed buffer. The lemmas and the methods' contracts are
    stated in terms of them.
  - `CreateRequest` copies the public inputs in a loop. It slices the 64/128/64-byte proof
    buffers into coordinates, sets `nonce = 0`, and stamps the ledger timestamp. The proof it
    builds is proved to flatten back to `proof_a ++ proof_b ++ proof_c`. The converse is also
    proved: splitting a proof's bytes rebuilds the proof.

The host is a value `ZkTypes.Env`, standing in for the source's `env: &Env`. It holds three
things:

- keccak256, as an uninterpreted function to 32 bytes;
- the byte form of an address, as an uninterpreted function of unspecified length;
- the ledger timestamp.

Nothing is assumed about the hash.

The model follows the code, not a cleaner design, in one place. `to_bytesn32` does not
reject a slice of the wrong length. It substitutes 32 zero bytes, and `ToBytesN32` does the
same. `ProofOf` shows that this fallback is never taken inside `create_request`.

## Model

| member | source | states |
|---|---|---|
| `Whitelist.WhitelistStorage.constructor` | contracts/common/src/whitelist.rs:12-14 | fresh storage has no flag and no markers and satisfies `Valid()`, so enforcement reads as disabled |
| `Whitelist.WhitelistStorage.SetWhitelistEnabled` | contracts/common/src/whitelist.rs:7-9 | the flag becomes `Some(enabled)`, `IsWhitelistEnabled()` returns `enabled`, and membership is unchanged for every address |
| `Whitelist.WhitelistStorage.IsWhitelistEnabled` | contracts/common/src/whitelist.rs:12-14 | true exactly when the stored flag is `Some(true)`; false when it was never set |
| `Whitelist.WhitelistStorage.AddToWhitelist` | contracts/common/src/whitelist.rs:17-21 | markers become `old[address := true]`, `address` is whitelisted, every other address and the flag are unchanged, and no marker holds `false` |
| `Whitelist.WhitelistStorage.RemoveFromWhitelist` | contracts/common/src/whitelist.rs:24-26 | the marker of `address` is deleted, `address` is not whitelisted, every other address and the flag are unchanged, and no marker holds `false` |
| `Whitelist.WhitelistStorage.IsWhitelisted` | contracts/common/src/whitelist.rs:29-34 | false for an absent key; under the no-`false`-marker invariant, true exactly when the key is present |
| `Whitelist.WhitelistStorage.RequireWhitelisted` | contracts/common/src/whitelist.rs:36-41 | every address passes while enforcement is disabled, whatever the map holds; while it is enabled the answer is `IsWhitelisted(address)` |
| `Whitelist.Inserted` | contracts/common/src/whitelist.rs:17-21 | the key set gains `a`, `a` maps to `true`, and every other entry keeps its value |
| `Whitelist.Deleted` | contracts/common/src/whitelist.rs:24-26 | the key set loses `a` and every remaining entry keeps its value |
| `Whitelist.InsertedKeepsOnlyTrue` | contracts/common/src/whitelist.rs:17-21 | adding writes only `true`, so a map with no `false` entry keeps none |
| `Whitelist.DeletedKeepsOnlyTrue` | contracts/common/src/whitelist.rs:24-26 | removing deletes the key, so a map with no `false` entry keeps none |
| `Whitelist.InsertIdempotent` | contracts/common/src/whitelist.rs:17-21 | adding the same address twice gives the same markers as adding it once |
| `Whitelist.InsertDeleteInsert` | contracts/common/src/whitelist.rs:17-26 | `add(a); remove(a); add(a)` gives the same markers as a single `add(a)` |
| `Bytes.FlattenLength` | contracts/zk_verifier/src/helpers.rs:42-44 | appending `n` public inputs contributes `32 * n` bytes |
| `Bytes.FlattenSnoc` | contracts/zk_verifier/src/helpers.rs:42-44 | one more loop iteration appends exactly that public input's 32 bytes |
| `Bytes.FlattenBlock` | contracts/zk_verifier/src/helpers.rs:42-44 | the k-th 32-byte block of the concatenated public inputs is the k-th input |
| `Bytes.FlattenInjective` | contracts/zk_verifier/src/helpers.rs:42-44 | two input sequences with equal concatenations are equal, so order and contents both matter |
| `ZkAccessHelper.ToBytesN32` | contracts/zk_verifier/src/helpers.rs:9-15 | a 32-byte slice is returned unchanged; any other length gives 32 zero bytes |
| `ZkAccessHelper.ProofBytes` | contracts/zk_verifier/src/helpers.rs:32-39 | the proof contributes exactly 256 bytes |
| `ZkAccessHelper.ProofBytesLayout` | contracts/zk_verifier/src/helpers.rs:32-39 | the 32-byte blocks are `a.x, a.y, b.x.0, b.x.1, b.y.0, b.y.1, c.x, c.y`, in that order |
| `ZkAccessHelper.ProofBytesInjective` | contracts/zk_verifier/src/helpers.rs:32-39 | distinct proofs contribute distinct bytes |
| `ZkAccessHelper.PreimageLayout` | contracts/zk_verifier/src/helpers.rs:29-48 | the preimage is 256 + 32 × (number of public inputs) + (address byte length) + 32 bytes long: the proof bytes first, then the k-th public input at `256 + 32k`, then the address bytes, with the last 32 bytes being `resource_id` |
| `ZkAccessHelper.PreimageInjective` | contracts/zk_verifier/src/helpers.rs:29-48 | for a fixed address-byte length, equal preimages have equal proofs, public inputs (count and order), address bytes and resource ids |
| `ZkAccessHelper.PreimageShiftsInputIntoUser` | contracts/zk_verifier/src/helpers.rs:42-48 | moving the last public input to the front of the user's bytes leaves the preimage unchanged, since nothing separates the two fields |
| `ZkAccessHelper.ComputeNullifier` | contracts/zk_verifier/src/helpers.rs:22-52 | the returned nullifier is keccak256 of exactly the preimage; equal arguments, or arguments with equal preimages, give equal nullifiers |
| `ZkAccessHelper.ProofOf` | contracts/zk_verifier/src/helpers.rs:75-94 | `a = (A[0..32], A[32..64])`, `b = ((B[0..32], B[32..64]), (B[64..96], B[96..128]))`, `c = (C[0..32], C[32..64])`, so the zero fallback is never taken |
| `ZkAccessHelper.ProofRoundTrip` | contracts/zk_verifier/src/helpers.rs:75-94 | flattening the formatted proof in nullifier order gives `proof_a ++ proof_b ++ proof_c` |
| `ZkAccessHelper.ProofSplitRoundTrip` | contracts/zk_verifier/src/helpers.rs:75-94 | formatting the 64/128/64-byte pieces of any proof's bytes gives back that proof |
| `ZkAccessHelper.CreateRequest` | contracts/zk_verifier/src/helpers.rs:58-99 | `user` and `resource_id` are copied; the coordinates are the 32-byte slices; public inputs keep their count and order; `nonce == 0`; `timestamp` is the ledger timestamp; the proof flattens to `proof_a ++ proof_b ++ proof_c` |
| `ZkAccessHelper.CreateThenNullify` | contracts/zk_verifier/src/helpers.rs:32-48 | hashing a freshly created request hashes `proof_a ++ proof_b ++ proof_c ++ inputs ++ addr bytes ++ resource_id` |

## Left out

- keccak256 internals, collision resistance, and "a one-byte change changes the digest".
  The hash is an uninterpreted function. Only facts about the preimage are proved, and
  `PreimageInjective` is the strongest of them.
- The Soroban storage machinery is abstracted as two fields. That covers the instance vs
  persistent split, TTLs, and the keys `WL_EN` / `WL_ADR`. Storage unavailability is not
  modelled either.
- Authorization of the whitelist writes. `whitelist.rs` leaves that to its callers.
- The byte encoding of an `Address` (`user.to_array()`). It is an uninterpreted function of
  unspecified length.
- `env.ledger().timestamp()`. It is a field of the `Env` value passed in.
- Curve-point validity, proof verification and verifying keys.
- The source's own type definitions: `G1Point` and `G2Point` in `crate::verifier`, and `Proof`
  and `AccessRequest` in the crate root. Those files are not part of this model. `zk_types.dfy`
  restates the types from how `helpers.rs` uses them, and takes `nonce` and `timestamp` to be
  `u64`.
- The end-to-end access decision. That covers the verifier call, the nullifier registry and
  its atomic check-and-record. None of it is in the modelled files.
- Soroban `Vec` host limits: length bounds, and host errors on allocation.
