/**
 * The standard Base64 encoding with padding (section 4 of RFC 4648), as
 * `java.util.Base64.getEncoder()` produces it: every group of three bytes
 * becomes four characters of the 64-character alphabet, and a final group
 * of one or two bytes is filled with zero bits and completed with `=`.
 *
 * `Decode` is the matching decoder; it is the partner against which the
 * encoder is proved lossless.
 */
module Base64 {
  import opened Bytes
  import opened Wrappers

  /** The padding character. */
  const Pad: char := '='

  /** `A-Z a-z 0-9 + /`: the characters of the Base64 alphabet, all ASCII and none of them `=`. */
  predicate IsAlphabetChar(c: char)
    ensures IsAlphabetChar(c) ==> c != Pad && c as int < 0x80
  {
    ('A' <= c <= 'Z') || ('a' <= c <= 'z') || ('0' <= c <= '9') || c == '+' || c == '/'
  }

  predicate AllAlphabet(s: string) {
    forall k :: 0 <= k < |s| ==> IsAlphabetChar(s[k])
  }

  predicate AllPadding(s: string) {
    forall k :: 0 <= k < |s| ==> s[k] == Pad
  }

  /** The 6-bit value an alphabet character stands for. */
  function SextetValue(c: char): (v: int)
    requires IsAlphabetChar(c)
    ensures 0 <= v < 64
  {
    if 'A' <= c <= 'Z' then c as int - 'A' as int
    else if 'a' <= c <= 'z' then c as int - 'a' as int + 26
    else if '0' <= c <= '9' then c as int - '0' as int + 52
    else if c == '+' then 62
    else 63
  }

  /**
   * The character that stands for the 6-bit value `v` (Table 1 of
   * RFC 4648); it decodes back to `v`.
   */
  function SextetChar(v: int): (c: char)
    requires 0 <= v < 64
    ensures IsAlphabetChar(c) && SextetValue(c) == v
  {
    if v < 26 then ('A' as int + v) as char
    else if v < 52 then ('a' as int + (v - 26)) as char
    else if v < 62 then ('0' as int + (v - 52)) as char
    else if v == 62 then '+'
    else '/'
  }

  /** Each alphabet character is the character of its own value. */
  lemma CharOfSextetValue(c: char)
    requires IsAlphabetChar(c)
    ensures SextetChar(SextetValue(c)) == c
  {
  }

  /** The alphabet is exactly the set of characters the 64 sextets map to. */
  lemma AlphabetIsSextetImage(c: char)
    ensures IsAlphabetChar(c) <==> exists v :: 0 <= v < 64 && SextetChar(v) == c
  {
    if IsAlphabetChar(c) {
      CharOfSextetValue(c);
      assert SextetChar(SextetValue(c)) == c;
    }
  }

  /** Three bytes (24 bits) as four 6-bit characters, most significant bits first. */
  function EncodeQuantum(b0: Byte, b1: Byte, b2: Byte): (q: string)
    ensures |q| == 4 && AllAlphabet(q)
  {
    [SextetChar(b0 / 4), SextetChar((b0 % 4) * 16 + b1 / 16),
     SextetChar((b1 % 16) * 4 + b2 / 64), SextetChar(b2 % 64)]
  }

  /** Four alphabet characters (24 bits) as three bytes. */
  function DecodeQuantum(q: string): (r: seq<Byte>)
    requires |q| == 4 && AllAlphabet(q)
    ensures |r| == 3
  {
    var v0, v1, v2, v3 := SextetValue(q[0]), SextetValue(q[1]), SextetValue(q[2]), SextetValue(q[3]);
    [v0 * 4 + v1 / 16, (v1 % 16) * 16 + v2 / 4, (v2 % 4) * 64 + v3]
  }

  /** The bit regrouping of a quantum is undone by the inverse regrouping. */
  lemma RegroupBits(b0: Byte, b1: Byte, b2: Byte)
    ensures (b0 / 4) * 4 + ((b0 % 4) * 16 + b1 / 16) / 16 == b0
    ensures (((b0 % 4) * 16 + b1 / 16) % 16) * 16 + ((b1 % 16) * 4 + b2 / 64) / 4 == b1
    ensures (((b1 % 16) * 4 + b2 / 64) % 4) * 64 + b2 % 64 == b2
  {
  }

  lemma QuantumRoundTrip(b0: Byte, b1: Byte, b2: Byte)
    ensures DecodeQuantum(EncodeQuantum(b0, b1, b2)) == [b0, b1, b2]
  {
    var v0, v1, v2, v3 := b0 / 4, (b0 % 4) * 16 + b1 / 16, (b1 % 16) * 4 + b2 / 64, b2 % 64;
    var q := EncodeQuantum(b0, b1, b2);
    assert SextetValue(q[0]) == v0 && SextetValue(q[1]) == v1;
    assert SextetValue(q[2]) == v2 && SextetValue(q[3]) == v3;
    RegroupBits(b0, b1, b2);
  }

  /**
   * Standard padded Base64 of `data`: whole groups of four characters, and
   * nothing at all only for no bytes.
   */
  function Encode(data: seq<Byte>): (r: string)
    ensures |r| % 4 == 0 && (|r| == 0 <==> |data| == 0)
    decreases |data|
  {
    if |data| == 0 then ""
    else if |data| == 1 then EncodeQuantum(data[0], 0, 0)[..2] + [Pad, Pad]
    else if |data| == 2 then EncodeQuantum(data[0], data[1], 0)[..3] + [Pad]
    else
      var q, rest := EncodeQuantum(data[0], data[1], data[2]), Encode(data[3..]);
      GroupAppend(|q|, |rest|);
      q + rest
  }

  /** Prepending one group of four keeps whole groups, and is never empty. */
  lemma GroupAppend(m: nat, n: nat)
    requires m == 4 && n % 4 == 0
    ensures (m + n) % 4 == 0 && m + n != 0
  {
  }

  /** Decodes the last four characters, which may end in one or two `=`. */
  function DecodeFinalQuantum(q: string): (r: Option<seq<Byte>>)
    requires |q| == 4
    ensures r.Some? ==> 1 <= |r.value| <= 3
  {
    if AllAlphabet(q) then Some(DecodeQuantum(q))
    else if AllAlphabet(q[..3]) && q[3] == Pad then Some(DecodeQuantum(q[..3] + "A")[..2])
    else if AllAlphabet(q[..2]) && q[2] == Pad && q[3] == Pad then Some(DecodeQuantum(q[..2] + "AA")[..1])
    else None
  }

  /**
   * Decodes padded Base64: groups of four alphabet characters, the last of
   * which may end in padding. Anything else is `None`.
   */
  function Decode(s: string): (r: Option<seq<Byte>>)
    decreases |s|
  {
    if |s| == 0 then Some([])
    else if |s| < 4 then None
    else if |s| == 4 then DecodeFinalQuantum(s)
    else if AllAlphabet(s[..4]) then
      match Decode(s[4..])
      case None => None
      case Some(rest) => Some(DecodeQuantum(s[..4]) + rest)
    else None
  }

  /** Three bytes fewer means one output group fewer and the same padding. */
  lemma GroupStep(n: int)
    requires n >= 3
    ensures (n + 2) / 3 == (n - 3 + 2) / 3 + 1
    ensures PadCount(n) == PadCount(n - 3)
  {
  }

  /** Every three input bytes, or part of them, take four output characters. */
  lemma {:induction false} EncodeLength(data: seq<Byte>)
    ensures |Encode(data)| == 4 * ((|data| + 2) / 3)
    decreases |data|
  {
    if |data| >= 3 {
      EncodeLength(data[3..]);
      GroupStep(|data|);
      assert Encode(data) == EncodeQuantum(data[0], data[1], data[2]) + Encode(data[3..]);
    }
  }

  /** The number of `=` that end the encoding of `n` bytes. */
  function PadCount(n: nat): (p: nat)
    ensures p <= 2
  {
    if n % 3 == 0 then 0 else 3 - n % 3
  }

  /** `e` is alphabet characters followed by exactly `p` padding characters. */
  predicate AlphabetThenPadding(e: string, p: nat) {
    p <= |e| && AllAlphabet(e[..|e| - p]) && AllPadding(e[|e| - p..])
  }

  lemma PrependQuantum(q: string, rest: string, p: nat)
    requires |q| == 4 && AllAlphabet(q) && AlphabetThenPadding(rest, p)
    ensures AlphabetThenPadding(q + rest, p) && |q + rest| - p >= 1
  {
    assert (q + rest)[..|q + rest| - p] == q + rest[..|rest| - p];
    assert (q + rest)[|q + rest| - p..] == rest[|rest| - p..];
  }

  /** The encoding of a final one or two bytes ends in two or one `=`. */
  lemma EncodeShapeFinal(data: seq<Byte>)
    requires 1 <= |data| <= 2
    ensures AlphabetThenPadding(Encode(data), PadCount(|data|))
    ensures |Encode(data)| - PadCount(|data|) >= 1
  {
    var e := Encode(data);
    if |data| == 1 {
      assert PadCount(1) == 2;
      assert e[..2] == EncodeQuantum(data[0], 0, 0)[..2];
    } else {
      assert PadCount(2) == 1;
      assert e[..3] == EncodeQuantum(data[0], data[1], 0)[..3];
    }
  }

  /**
   * The encoding is alphabet characters followed by exactly `PadCount`
   * padding characters; a non-empty input gives at least one alphabet
   * character.
   */
  lemma {:induction false} EncodeShape(data: seq<Byte>)
    ensures AlphabetThenPadding(Encode(data), PadCount(|data|))
    ensures |data| > 0 ==> |Encode(data)| - PadCount(|data|) >= 1
    decreases |data|
  {
    if 1 <= |data| <= 2 {
      EncodeShapeFinal(data);
    } else if |data| >= 3 {
      EncodeShape(data[3..]);
      GroupStep(|data|);
      assert Encode(data) == EncodeQuantum(data[0], data[1], data[2]) + Encode(data[3..]);
      PrependQuantum(EncodeQuantum(data[0], data[1], data[2]), Encode(data[3..]), PadCount(|data|));
    }
  }

  /** A final group `xx==` decodes to the first byte of `xxAA`. */
  lemma DecodeDoublePadded(c0: char, c1: char)
    requires IsAlphabetChar(c0) && IsAlphabetChar(c1)
    ensures Decode([c0, c1, Pad, Pad]) == Some([SextetValue(c0) * 4 + SextetValue(c1) / 16])
  {
    var e := [c0, c1, Pad, Pad];
    assert !AllAlphabet(e) by { assert e[3] == Pad; }
    assert !AllAlphabet(e[..3]) by { assert e[..3][2] == Pad; }
    var q := e[..2] + "AA";
    assert q == [c0, c1, 'A', 'A'];
    assert Decode(e) == Some(DecodeQuantum(q)[..1]);
    assert DecodeQuantum(q)[0] == SextetValue(c0) * 4 + SextetValue(c1) / 16;
    assert DecodeQuantum(q)[..1] == [SextetValue(c0) * 4 + SextetValue(c1) / 16];
  }

  /** A final group `xxx=` decodes to the first two bytes of `xxxA`. */
  lemma DecodeSinglePadded(c0: char, c1: char, c2: char)
    requires IsAlphabetChar(c0) && IsAlphabetChar(c1) && IsAlphabetChar(c2)
    ensures Decode([c0, c1, c2, Pad]) == Some(DecodeQuantum([c0, c1, c2, 'A'])[..2])
  {
    var e := [c0, c1, c2, Pad];
    assert !AllAlphabet(e) by { assert e[3] == Pad; }
    assert e[..3] + "A" == [c0, c1, c2, 'A'];
  }

  /** A single final byte encodes as two sextet characters and `==`. */
  lemma EncodeOne(b: Byte)
    ensures Encode([b]) == [SextetChar(b / 4), SextetChar((b % 4) * 16), Pad, Pad]
  {
    var q := EncodeQuantum(b, 0, 0);
    assert q[..2] == [SextetChar(b / 4), SextetChar((b % 4) * 16)];
  }

  /** `xx==` built from one byte decodes back to that byte. */
  lemma DecodeDoublePaddedByte(b: Byte)
    ensures Decode([SextetChar(b / 4), SextetChar((b % 4) * 16), Pad, Pad]) == Some([b])
  {
    DecodeDoublePadded(SextetChar(b / 4), SextetChar((b % 4) * 16));
    RegroupBits(b, 0, 0);
  }

  /** The encoding of a final single byte, `xx==`, decodes back to it. */
  lemma DecodeEncodeOne(b: Byte)
    ensures Decode(Encode([b])) == Some([b])
  {
    EncodeOne(b);
    DecodeDoublePaddedByte(b);
  }

  /** The encoding of two final bytes, `xxx=`, decodes back to them. */
  lemma DecodeEncodeTwo(data: seq<Byte>)
    requires |data| == 2
    ensures Decode(Encode(data)) == Some(data)
  {
    var q := EncodeQuantum(data[0], data[1], 0);
    assert Encode(data) == [q[0], q[1], q[2], Pad];
    assert [q[0], q[1], q[2], 'A'] == q;
    DecodeSinglePadded(q[0], q[1], q[2]);
    QuantumRoundTrip(data[0], data[1], 0);
    assert [data[0], data[1], 0][..2] == data;
  }

  /** A full group in front of a non-empty remainder decodes on its own. */
  lemma DecodeLeadingQuantum(q: string, rest: string)
    requires |q| == 4 && AllAlphabet(q) && |rest| > 0
    ensures Decode(q + rest) ==
      match Decode(rest)
      case None => None
      case Some(tail) => Some(DecodeQuantum(q) + tail)
  {
    var s := q + rest;
    assert s[..4] == q;
    assert s[4..] == rest;
  }

  /** Exactly three bytes encode as one unpadded group that decodes back to them. */
  lemma DecodeEncodeThree(data: seq<Byte>)
    requires |data| == 3
    ensures Decode(Encode(data)) == Some(data)
  {
    var q := EncodeQuantum(data[0], data[1], data[2]);
    assert Encode(data[3..]) == [];
    assert Encode(data) == q;
    assert Decode(q) == Some(DecodeQuantum(q));
    QuantumRoundTrip(data[0], data[1], data[2]);
    assert data == [data[0], data[1], data[2]];
  }

  /** A sequence of at least three elements is its first three followed by the rest. */
  lemma SplitFirstThree(s: seq<Byte>)
    requires |s| >= 3
    ensures s == [s[0], s[1], s[2]] + s[3..]
  {
  }

  lemma DecodeEncodeStep(data: seq<Byte>)
    requires |data| > 3
    requires Decode(Encode(data[3..])) == Some(data[3..])
    ensures Decode(Encode(data)) == Some(data)
  {
    var q := EncodeQuantum(data[0], data[1], data[2]);
    var rest := Encode(data[3..]);
    assert Encode(data) == q + rest;
    EncodeLength(data[3..]);
    DecodeLeadingQuantum(q, rest);
    assert Decode(q + rest) == Some(DecodeQuantum(q) + data[3..]);
    QuantumRoundTrip(data[0], data[1], data[2]);
    SplitFirstThree(data);
  }

  /** Decoding an encoding gives back the bytes: the encoding is lossless. */
  lemma {:induction false} DecodeEncode(data: seq<Byte>)
    ensures Decode(Encode(data)) == Some(data)
    decreases |data|
  {
    if |data| == 1 {
      assert data == [data[0]];
      DecodeEncodeOne(data[0]);
    } else if |data| == 2 {
      DecodeEncodeTwo(data);
    } else if |data| >= 3 {
      if |data| == 3 {
        DecodeEncodeThree(data);
      } else {
        DecodeEncode(data[3..]);
        DecodeEncodeStep(data);
      }
    }
  }
}
