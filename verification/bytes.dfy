/**
 * Byte buffers as values: the all-zero buffer that `Secret::new` allocates,
 * the "every byte is zero" property, and the state of a buffer part-way
 * through the zeroing loop of `Drop::drop`.
 */
module Bytes {

  /** A byte (`u8`). */
  type Byte = bv8

  /** True when every byte of `s` is 0. */
  ghost predicate AllZero(s: seq<Byte>) {
    forall i :: 0 <= i < |s| ==> s[i] == 0
  }

  /** The buffer `[0u8; n]`. */
  function Zeros(n: nat): (z: seq<Byte>)
    ensures |z| == n && AllZero(z)
  {
    seq(n, _ => 0)
  }

  /** A buffer is all zero exactly when it is the zero buffer of its own length. */
  lemma AllZeroIffZeros(s: seq<Byte>)
    ensures AllZero(s) <==> s == Zeros(|s|)
  {
    if AllZero(s) {
      assert forall i :: 0 <= i < |s| ==> s[i] == Zeros(|s|)[i];
    }
  }

  /**
   * The buffer `s` after `k` iterations of the zeroing loop: each iteration
   * writes 0 at the next position.
   */
  function ZeroPrefix(s: seq<Byte>, k: nat): (r: seq<Byte>)
    requires k <= |s|
    ensures |r| == |s|
  {
    if k == 0 then s else ZeroPrefix(s, k - 1)[k - 1 := 0]
  }

  /**
   * After `k` iterations the first `k` positions read 0 and the others still
   * hold their original bytes.
   */
  lemma {:induction false} ZeroPrefixAt(s: seq<Byte>, k: nat)
    requires k <= |s|
    ensures forall i :: 0 <= i < k ==> ZeroPrefix(s, k)[i] == 0
    ensures forall i :: k <= i < |s| ==> ZeroPrefix(s, k)[i] == s[i]
  {
    if k > 0 {
      ZeroPrefixAt(s, k - 1);
    }
  }

  /** When the loop has visited every position the buffer is the zero buffer. */
  lemma ZeroPrefixComplete(s: seq<Byte>)
    ensures ZeroPrefix(s, |s|) == Zeros(|s|)
  {
    ZeroPrefixAt(s, |s|);
    AllZeroIffZeros(ZeroPrefix(s, |s|));
  }

  /**
   * Zeroing changes the buffer exactly when it held some non-zero byte, and
   * every non-zero byte of the secret is overwritten.
   */
  lemma ZeroingErases(s: seq<Byte>)
    ensures ZeroPrefix(s, |s|) == s <==> AllZero(s)
    ensures forall i :: 0 <= i < |s| && s[i] != 0 ==> ZeroPrefix(s, |s|)[i] != s[i]
  {
    ZeroPrefixComplete(s);
    AllZeroIffZeros(s);
  }
}
