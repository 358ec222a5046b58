/**
 * Java's primitive `byte` and `long` as the salt generator sees them.
 *
 * A byte is kept as its unsigned bit pattern (0..255), which is what an
 * encoder reads from a `byte[]` (`b & 0xff`). A `long` is a signed 64-bit
 * integer; `LongBytes` is the big-endian two's-complement layout that
 * `ByteBuffer.putLong` writes, and `BytesToLong` reads it back.
 */
module Bytes {
  type Byte = b: int | 0 <= b < 0x100

  const LongModulus: int := 0x1_0000_0000_0000_0000
  const LongMin: int := -0x8000_0000_0000_0000

  type Long = x: int | LongMin <= x < -LongMin

  function Power256(n: nat): (p: nat)
    ensures p > 0
  {
    if n == 0 then 1 else 0x100 * Power256(n - 1)
  }

  /** The low `n` base-256 digits of `u`, most significant first. */
  function Digits(u: nat, n: nat): (r: seq<Byte>)
    ensures |r| == n
  {
    if n == 0 then [] else Digits(u / 0x100, n - 1) + [u % 0x100]
  }

  /** The number whose base-256 digits, most significant first, are `bs`. */
  function FromDigits(bs: seq<Byte>): (u: nat)
    ensures u < Power256(|bs|)
  {
    if bs == [] then 0 else FromDigits(bs[..|bs| - 1]) * 0x100 + bs[|bs| - 1]
  }

  lemma {:induction false} FromDigitsOfDigits(u: nat, n: nat)
    requires u < Power256(n)
    ensures FromDigits(Digits(u, n)) == u
  {
    if n > 0 {
      FromDigitsOfDigits(u / 0x100, n - 1);
      var d := Digits(u, n);
      assert d[..n - 1] == Digits(u / 0x100, n - 1);
    }
  }

  lemma Power256Of8()
    ensures Power256(8) == LongModulus
  {
    calc {
      Power256(8);
      0x100 * 0x100 * 0x100 * 0x100 * Power256(4);
      0x1_0000_0000 * (0x100 * 0x100 * 0x100 * 0x100 * Power256(0));
    }
  }

  /** The eight bytes `ByteBuffer.putLong` writes for `v` (big-endian, two's complement). */
  function LongBytes(v: Long): (r: seq<Byte>)
    ensures |r| == 8
  {
    Digits(v % LongModulus, 8)
  }

  /** The `long` that `ByteBuffer.getLong` reads from eight big-endian bytes. */
  function BytesToLong(bs: seq<Byte>): (v: Long)
    requires |bs| == 8
  {
    Power256Of8();
    var u := FromDigits(bs);
    if u >= 0x8000_0000_0000_0000 then u - LongModulus else u
  }

  /** Reading back the bytes of a long gives the long: the layout loses nothing. */
  lemma LongBytesRoundTrip(v: Long)
    ensures BytesToLong(LongBytes(v)) == v
  {
    Power256Of8();
    FromDigitsOfDigits(v % LongModulus, 8);
  }

  lemma LongBytesInjective(v: Long, w: Long)
    ensures LongBytes(v) == LongBytes(w) <==> v == w
  {
    if LongBytes(v) == LongBytes(w) {
      LongBytesRoundTrip(v);
      LongBytesRoundTrip(w);
    }
  }
}
