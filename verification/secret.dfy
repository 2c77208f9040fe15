/**
 * The `Secret<LENGTH>` container: a fixed-length byte buffer owned by the
 * container, filled by swapping it with the caller's buffer and overwritten
 * with zeros when the container is dropped.
 */
module Secrets {
  import opened Bytes

  /**
   * `std::mem::swap` on two byte arrays of the same length: each ends up
   * holding what the other held. The two borrows are exclusive, so the
   * arrays are distinct.
   */
  method SwapContents(a: array<Byte>, b: array<Byte>)
    requires a.Length == b.Length
    requires a != b
    modifies a, b
    ensures a[..] == old(b[..])
    ensures b[..] == old(a[..])
  {
    for i := 0 to a.Length
      invariant forall k :: 0 <= k < i ==> a[k] == old(b[k]) && b[k] == old(a[k])
      invariant forall k :: i <= k < a.Length ==> a[k] == old(a[k]) && b[k] == old(b[k])
    {
      a[i], b[i] := b[i], a[i];
    }
  }

  class Secret {
    /**
     * `LENGTH`. In the source it is a const generic parameter, part of the
     * type; here it is fixed per container by the constructor's argument, and
     * the type-level length match becomes the constructor's precondition.
     */
    const Length: nat
    /** The owned, heap-allocated buffer `bytes: Box<[u8; LENGTH]>`. */
    const bytes: array<Byte>
    /**
     * Modelling scaffolding, not a field of the source: true from
     * construction until `Drop`. The borrow checker guarantees that a value is
     * used only while alive and dropped once; here the methods require it.
     */
    ghost var live: bool

    /** The owned buffer has exactly `Length` bytes. */
    ghost predicate Valid()
      reads this
    {
      bytes.Length == Length
    }

    /**
     * `Secret::new`: allocates a zero-filled buffer of `Length` bytes, swaps
     * it with the caller's buffer, and keeps it. The container then holds the
     * caller's bytes and the caller's buffer holds zeros.
     */
    constructor (length: nat, secret: array<Byte>)
      requires secret.Length == length
      modifies secret
      ensures Valid() && Length == length
      ensures fresh(bytes)
      ensures bytes[..] == old(secret[..])
      ensures secret[..] == Zeros(length)
      ensures live
    {
      var buffer := new Byte[length](_ => 0);
      assert buffer[..] == Zeros(length);
      SwapContents(buffer, secret);
      Length := length;
      bytes := buffer;
      live := true;
    }

    /** `AsRef::as_ref`: a read-only view of exactly the owned bytes. */
    function AsRef(): (view: seq<Byte>)
      reads this, bytes
      requires Valid() && live
      ensures |view| == Length
      ensures forall i :: 0 <= i < Length ==> view[i] == bytes[i]
    {
      bytes[..]
    }

    /**
     * `Drop::drop`: overwrites every owned byte with 0, one position at a
     * time. Only the owned buffer is written.
     */
    method Drop()
      requires Valid() && live
      modifies this`live, bytes
      ensures Valid() && !live
      ensures bytes[..] == Zeros(Length)
    {
      ghost var original := bytes[..];
      for i := 0 to bytes.Length
        invariant bytes[..] == ZeroPrefix(original, i)
      {
        bytes[i] := 0;
      }
      ZeroPrefixComplete(original);
      live := false;
    }
  }

  /**
   * A caller's whole use of the container: build it from `secret`, read it,
   * drop it. The view is the caller's original bytes; afterwards neither the
   * caller's buffer nor the container's buffer holds anything but zeros, and
   * zeroing the container did not disturb the caller's buffer.
   */
  method UseAndDrop(secret: array<Byte>) returns (view: seq<Byte>, remains: seq<Byte>)
    modifies secret
    ensures view == old(secret[..])
    ensures secret[..] == Zeros(secret.Length)
    ensures remains == Zeros(secret.Length)
  {
    var s := new Secret(secret.Length, secret);
    view := s.AsRef();
    assert view == s.bytes[..];
    s.Drop();
    remains := s.bytes[..];
  }
}
