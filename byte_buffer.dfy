/**
 * The part of `java.nio.ByteBuffer` the salt generator uses: a heap buffer
 * of fixed capacity with a write position, filled by relative `putLong`.
 * The limit of a freshly allocated buffer is its capacity and nothing here
 * moves it, so the space left is `capacity - position`.
 */
module ByteBuffers {
  import opened Bytes

  class ByteBuffer {
    /** The backing array that `array()` hands out. */
    const hb: array<Byte>
    /** Index of the next byte a relative put writes. */
    var position: nat

    ghost predicate Valid()
      reads this
    {
      position <= hb.Length
    }

    /** `ByteBuffer.allocate(capacity)`: all bytes zero, position zero. */
    constructor Allocate(capacity: nat)
      ensures Valid() && fresh(hb)
      ensures hb.Length == capacity && position == 0
      ensures hb[..] == seq(capacity, _ => 0)
    {
      hb := new Byte[capacity](_ => 0);
      position := 0;
    }

    /**
     * `putLong(v)`: writes the eight big-endian bytes of `v` at the position
     * and advances it by eight. With fewer than eight bytes left Java throws
     * `BufferOverflowException` and changes nothing; here that is
     * `overflowed == true`.
     */
    method PutLong(v: Long) returns (overflowed: bool)
      requires Valid()
      modifies this, hb
      ensures Valid()
      ensures overflowed <==> old(hb.Length - position) < 8
      ensures overflowed ==> position == old(position) && hb[..] == old(hb[..])
      ensures !overflowed ==> position == old(position) + 8
      ensures !overflowed ==>
        hb[..] == old(hb[..position]) + LongBytes(v) + old(hb[position + 8..])
    {
      if hb.Length - position < 8 {
        return true;
      }
      var p := position;
      var bytes := LongBytes(v);
      forall k | 0 <= k < 8 {
        hb[p + k] := bytes[k];
      }
      position := p + 8;
      overflowed := false;
      assert hb[..] == old(hb[..p]) + bytes + old(hb[p + 8..]);
    }
  }
}
