/**
 * Byte strings as the Soroban contracts see them: `u8` values, the fixed-size
 * arrays `[u8; 32]`, `[u8; 64]`, `[u8; 128]` (and `BytesN<32>`), and the
 * concatenation of a sequence of 32-byte values.
 */
module Bytes {

  type Byte = bv8

  /** `[u8; 32]` and `BytesN<32>`. */
  type Bytes32 = s: seq<Byte> | |s| == 32 witness seq(32, _ => 0)

  /** `[u8; 64]`, the buffer of one G1 point. */
  type Bytes64 = s: seq<Byte> | |s| == 64 witness seq(64, _ => 0)

  /** `[u8; 128]`, the buffer of one G2 point. */
  type Bytes128 = s: seq<Byte> | |s| == 128 witness seq(128, _ => 0)

  /** The 32-byte values of `s`, one after the other, in order. */
  function Flatten(s: seq<Bytes32>): (r: seq<Byte>)
  {
    if s == [] then [] else Flatten(s[..|s| - 1]) + s[|s| - 1]
  }

  lemma {:induction false} FlattenLength(s: seq<Bytes32>)
    ensures |Flatten(s)| == 32 * |s|
  {
    if s != [] {
      FlattenLength(s[..|s| - 1]);
    }
  }

  /** Appending one more value extends the flattening by exactly that value. */
  lemma FlattenSnoc(s: seq<Bytes32>, x: Bytes32)
    ensures Flatten(s + [x]) == Flatten(s) + x
  {
  }

  /** The k-th 32-byte block of the flattening is the k-th value. */
  lemma {:induction false} FlattenBlock(s: seq<Bytes32>, k: nat)
    requires k < |s|
    ensures |Flatten(s)| == 32 * |s|
    ensures Flatten(s)[32 * k .. 32 * k + 32] == s[k]
  {
    FlattenLength(s);
    var init := s[..|s| - 1];
    FlattenLength(init);
    if k < |s| - 1 {
      FlattenBlock(init, k);
      assert Flatten(s)[..32 * |init|] == Flatten(init);
    } else {
      assert Flatten(s)[32 * |init|..] == s[|s| - 1];
    }
  }

  /** Flattening loses nothing: sequences with equal flattenings are equal. */
  lemma FlattenInjective(s: seq<Bytes32>, t: seq<Bytes32>)
    requires Flatten(s) == Flatten(t)
    ensures s == t
  {
    FlattenLength(s);
    FlattenLength(t);
    forall k | 0 <= k < |s|
      ensures s[k] == t[k]
    {
      FlattenBlock(s, k);
      FlattenBlock(t, k);
    }
  }
}
