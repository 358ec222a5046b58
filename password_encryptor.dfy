/**
 * The two default behaviours of the `PasswordEncryptor` plugin contract:
 * salt validation by the pattern `^[0-9A-Za-z+/]+=*$` and salt generation
 * from two UUIDs packed into 32 bytes and Base64-encoded.
 */
module PasswordEncryptor {
  import opened Bytes
  import opened Wrappers
  import opened Base64
  import opened ByteBuffers

  // ---------------------------------------------------------------------
  // validateSalt
  // ---------------------------------------------------------------------

  /**
   * The line terminators of `java.util.regex` when `UNIX_LINES` is off:
   * `\n`, `\r`, U+0085, U+2028 and U+2029 (plus the pair `\r\n`).
   */
  predicate IsLineTerminator(c: char)
    ensures IsLineTerminator(c) ==> !IsAlphabetChar(c) && c != Pad
  {
    c == '\n' || c == '\r' || c == '\U{0085}' || c == '\U{2028}' || c == '\U{2029}'
  }

  /**
   * What `$` without MULTILINE accepts as the rest of the input: nothing,
   * one final line terminator, or a final `\r\n`.
   */
  predicate DollarMatches(t: string)
    ensures DollarMatches(t) ==> |t| <= 2 && forall k :: 0 <= k < |t| ==> IsLineTerminator(t[k])
  {
    |t| == 0 || (|t| == 1 && IsLineTerminator(t[0])) || t == "\r\n"
  }

  /** The characters that can occur where the pattern is found: the class, `=` and line terminators. */
  predicate IsSaltChar(c: char) {
    IsAlphabetChar(c) || c == Pad || IsLineTerminator(c)
  }

  /** `=*$` against `t`. */
  predicate PaddingThenEnd(t: string)
    ensures PaddingThenEnd(t) ==> forall k :: 0 <= k < |t| ==> IsSaltChar(t[k])
    decreases |t|
  {
    if |t| > 0 && t[0] == Pad then PaddingThenEnd(t[1..]) else DollarMatches(t)
  }

  /** `[0-9A-Za-z+/]*=*$` against `t`, taking the class run greedily. */
  predicate RunThenPadding(t: string)
    ensures RunThenPadding(t) ==> forall k :: 0 <= k < |t| ==> IsSaltChar(t[k])
    decreases |t|
  {
    if |t| > 0 && IsAlphabetChar(t[0]) then RunThenPadding(t[1..]) else PaddingThenEnd(t)
  }

  /**
   * `validateSalt`: `Base64SaltPattern.matcher(salt).find()`. The `^` anchors
   * the only attempt at index 0; `+` needs one class character there.
   */
  predicate ValidateSalt(salt: string)
    ensures ValidateSalt(salt) ==> forall k :: 0 <= k < |salt| ==> IsSaltChar(salt[k])
  {
    |salt| > 0 && IsAlphabetChar(salt[0]) && RunThenPadding(salt[1..])
  }

  /**
   * `t` splits into an alphabet run `t[..i]`, a run of `=` `t[i..j]` and a
   * rest `t[j..]` that `$` accepts.
   */
  ghost predicate RunSplit(t: string, i: int, j: int) {
    0 <= i <= j <= |t| && AllAlphabet(t[..i]) && AllPadding(t[i..j]) && DollarMatches(t[j..])
  }

  /** The pattern read as a language: a split whose alphabet run is not empty. */
  ghost predicate PatternFinds(s: string) {
    exists i, j :: 1 <= i && RunSplit(s, i, j)
  }

  /** What a split says about each character of the string. */
  lemma SplitCharFacts(t: string, i: int, j: int, k: int)
    ensures RunSplit(t, i, j) && 0 <= k < |t| ==>
      (k < i ==> IsAlphabetChar(t[k])) &&
      (i <= k < j ==> t[k] == Pad) &&
      (j <= k ==> IsLineTerminator(t[k]) && (k == |t| - 1 || t[k..] == "\r\n"))
  {
    if RunSplit(t, i, j) && 0 <= k < |t| {
      if k < i {
        assert t[..i][k] == t[k];
      } else if k < j {
        assert t[i..j][k - i] == t[k];
      } else {
        assert t[j..][k - j] == t[k];
        if k == j {
          assert t[k..] == t[j..];
        }
      }
    }
  }

  /** A split of `t[1..]` after an alphabet character is a split of `t` with a longer run. */
  lemma ShiftRun(t: string, i: int, j: int)
    requires |t| > 0 && IsAlphabetChar(t[0]) && RunSplit(t[1..], i, j)
    ensures RunSplit(t, i + 1, j + 1)
  {
    assert t[..i + 1] == [t[0]] + t[1..][..i];
    assert t[i + 1..j + 1] == t[1..][i..j];
    assert t[j + 1..] == t[1..][j..];
  }

  /** A padding split of `t[1..]` after a `=` is a padding split of `t`. */
  lemma ShiftPadding(t: string, j: int)
    requires |t| > 0 && t[0] == Pad && RunSplit(t[1..], 0, j)
    ensures RunSplit(t, 0, j + 1)
  {
    assert t[0..j + 1] == [t[0]] + t[1..][0..j];
    assert t[j + 1..] == t[1..][j..];
  }

  /** A split of `t` drops its first character to a split of `t[1..]`. */
  lemma Unshift(t: string, i: int, j: int)
    requires 0 <= i && RunSplit(t, i + 1, j + 1)
    ensures RunSplit(t[1..], i, j)
  {
    assert t[1..][..i] == t[..i + 1][1..];
    assert t[1..][i..j] == t[i + 1..j + 1];
    assert t[1..][j..] == t[j + 1..];
  }

  /** A padding split of `t` that starts with `=` drops it. */
  lemma UnshiftPadding(t: string, j: int)
    requires 0 <= j && RunSplit(t, 0, j + 1)
    ensures RunSplit(t[1..], 0, j)
  {
    assert t[1..][0..j] == t[0..j + 1][1..];
    assert t[1..][j..] == t[j + 1..];
  }

  /** The scan of `=*$` accepts exactly the splits with an empty alphabet run. */
  lemma {:induction false} PaddingThenEndSpec(t: string)
    ensures PaddingThenEnd(t) <==> exists j :: RunSplit(t, 0, j)
    decreases |t|
  {
    if |t| > 0 && t[0] == Pad {
      PaddingThenEndSpec(t[1..]);
      if PaddingThenEnd(t) {
        var j :| RunSplit(t[1..], 0, j);
        ShiftPadding(t, j);
      }
      if j :| RunSplit(t, 0, j) {
        SplitCharFacts(t, 0, j, 0);
        if j == 0 {
          assert false;
        }
        UnshiftPadding(t, j - 1);
      }
    } else {
      if PaddingThenEnd(t) {
        assert RunSplit(t, 0, 0);
      }
      if j :| RunSplit(t, 0, j) {
        SplitCharFacts(t, 0, j, 0);
        if j > 0 {
          assert false;
        }
      }
    }
  }

  /**
   * The greedy scan of `[0-9A-Za-z+/]*=*$` accepts exactly the strings
   * that have a split: taking the longest run loses no match.
   */
  lemma {:induction false} RunThenPaddingSpec(t: string)
    ensures RunThenPadding(t) <==> exists i, j :: RunSplit(t, i, j)
    decreases |t|
  {
    if |t| > 0 && IsAlphabetChar(t[0]) {
      RunThenPaddingSpec(t[1..]);
      if RunThenPadding(t) {
        var i, j :| RunSplit(t[1..], i, j);
        ShiftRun(t, i, j);
      }
      if i, j :| RunSplit(t, i, j) {
        SplitCharFacts(t, i, j, 0);
        if i == 0 {
          assert false;
        }
        Unshift(t, i - 1, j - 1);
      }
    } else {
      PaddingThenEndSpec(t);
      if i, j :| RunSplit(t, i, j) {
        SplitCharFacts(t, i, j, 0);
        if i > 0 {
          assert false;
        }
      }
    }
  }

  /**
   * `validateSalt(s)` holds exactly when `s` is one or more alphabet
   * characters, then zero or more `=`, then what `$` accepts.
   */
  lemma ValidateSaltMatchesPattern(s: string)
    ensures ValidateSalt(s) <==> PatternFinds(s)
  {
    if |s| > 0 && IsAlphabetChar(s[0]) {
      RunThenPaddingSpec(s[1..]);
      if ValidateSalt(s) {
        var i, j :| RunSplit(s[1..], i, j);
        ShiftRun(s, i, j);
      }
      if i, j :| 1 <= i && RunSplit(s, i, j) {
        Unshift(s, i - 1, j - 1);
      }
    } else {
      if i, j :| 1 <= i && RunSplit(s, i, j) {
        SplitCharFacts(s, i, j, 0);
        assert false;
      }
    }
  }

  /**
   * The empty string and strings of `=` alone are rejected: `+` needs an
   * alphabet character before any padding.
   */
  lemma PaddingOnlyRejected(s: string)
    requires AllPadding(s)
    ensures !ValidateSalt(s)
  {
  }

  /**
   * A character outside the alphabet and `=` rejects the salt unless it is
   * a line terminator among the last two characters.
   */
  lemma ForeignCharRejected(s: string, k: int)
    requires 0 <= k < |s| && !IsAlphabetChar(s[k]) && s[k] != Pad
    requires !IsLineTerminator(s[k]) || k < |s| - 2 || (k == |s| - 2 && s[k..] != "\r\n")
    ensures !ValidateSalt(s)
  {
    ValidateSaltMatchesPattern(s);
    if i, j :| 1 <= i && RunSplit(s, i, j) {
      SplitCharFacts(s, i, j, k);
      assert false;
    }
  }

  /** An alphabet character anywhere after a `=` rejects the salt. */
  lemma AlphabetAfterPaddingRejected(s: string, p: int, k: int)
    requires 0 <= p < k < |s| && s[p] == Pad && IsAlphabetChar(s[k])
    ensures !ValidateSalt(s)
  {
    ValidateSaltMatchesPattern(s);
    if i, j :| 1 <= i && RunSplit(s, i, j) {
      SplitCharFacts(s, i, j, p);
      SplitCharFacts(s, i, j, k);
      assert false;
    }
  }

  /**
   * The pattern checks neither length nor padding count, and `$` lets one
   * final line terminator through: any non-empty alphabet run, followed by
   * any number of `=` and by whatever `$` accepts, is valid.
   */
  lemma BodyPaddingEndAccepted(body: string, padding: string, end: string)
    requires |body| > 0 && AllAlphabet(body) && AllPadding(padding) && DollarMatches(end)
    ensures ValidateSalt(body + padding + end)
  {
    var s := body + padding + end;
    var i, j := |body|, |body| + |padding|;
    assert s[..i] == body;
    assert s[i..j] == padding;
    assert s[j..] == end;
    assert RunSplit(s, i, j);
    ValidateSaltMatchesPattern(s);
  }

  /** Concrete instances of what the pattern accepts and rejects. */
  lemma ValidateSaltExamples()
    ensures ValidateSalt("AB") && ValidateSalt("A===") && ValidateSalt("AAAA\n")
    ensures ValidateSalt("AAAA=\r\n")
    ensures !ValidateSalt("") && !ValidateSalt("==") && !ValidateSalt("A A") && !ValidateSalt("A!")
    ensures !ValidateSalt("A=B") && !ValidateSalt("AAAA\n\n")
  {
    BodyPaddingEndAccepted("AB", "", "");
    BodyPaddingEndAccepted("A", "===", "");
    BodyPaddingEndAccepted("AAAA", "", "\n");
    BodyPaddingEndAccepted("AAAA", "=", "\r\n");
    ForeignCharRejected("A A", 1);
    ForeignCharRejected("A!", 1);
    AlphabetAfterPaddingRejected("A=B", 1, 2);
    ForeignCharRejected("AAAA\n\n", 4);
  }

  /** Alphabet characters, at least one, followed by padding pass the pattern. */
  lemma AlphabetThenPaddingValid(e: string, p: nat)
    requires AlphabetThenPadding(e, p) && |e| - p >= 1
    ensures ValidateSalt(e)
  {
    var n := |e| - p;
    assert e == e[..n] + e[n..] + "";
    BodyPaddingEndAccepted(e[..n], e[n..], "");
  }

  /** A Base64 encoding passes the pattern exactly when it encodes at least one byte. */
  lemma EncodingValid(data: seq<Byte>)
    ensures ValidateSalt(Encode(data)) <==> |data| > 0
  {
    if |data| > 0 {
      EncodeShape(data);
      AlphabetThenPaddingValid(Encode(data), PadCount(|data|));
    } else {
      assert Encode(data) == "";
    }
  }

  // ---------------------------------------------------------------------
  // generateSalt
  // ---------------------------------------------------------------------

  /** A `java.util.UUID`: its two 64-bit halves. */
  datatype Uuid = Uuid(mostSigBits: Long, leastSigBits: Long)

  /**
   * The 32 bytes `generateSalt` packs: the least then the most significant
   * half of the first UUID, then the same of the second, each big-endian.
   */
  function SaltBytes(first: Uuid, second: Uuid): (r: seq<Byte>)
    ensures |r| == 32
    ensures BytesToLong(r[0..8]) == first.leastSigBits
    ensures BytesToLong(r[8..16]) == first.mostSigBits
    ensures BytesToLong(r[16..24]) == second.leastSigBits
    ensures BytesToLong(r[24..32]) == second.mostSigBits
  {
    var r := LongBytes(first.leastSigBits) + LongBytes(first.mostSigBits)
           + LongBytes(second.leastSigBits) + LongBytes(second.mostSigBits);
    assert r[0..8] == LongBytes(first.leastSigBits);
    assert r[8..16] == LongBytes(first.mostSigBits);
    assert r[16..24] == LongBytes(second.leastSigBits);
    assert r[24..32] == LongBytes(second.mostSigBits);
    LongBytesRoundTrip(first.leastSigBits);
    LongBytesRoundTrip(first.mostSigBits);
    LongBytesRoundTrip(second.leastSigBits);
    LongBytesRoundTrip(second.mostSigBits);
    r
  }

  /**
   * The padded Base64 of 32 bytes: 44 characters, 43 from the alphabet and
   * a final `=`; it decodes back to the bytes and passes `ValidateSalt`.
   */
  lemma EncodedSaltShape(data: seq<Byte>)
    requires |data| == 32
    ensures |Encode(data)| == 44 && AllAlphabet(Encode(data)[..43]) && Encode(data)[43] == Pad
    ensures Decode(Encode(data)) == Some(data)
    ensures ValidateSalt(Encode(data))
  {
    var e := Encode(data);
    EncodeLength(data);
    assert (|data| + 2) / 3 == 11;
    assert |e| == 44;
    EncodeShape(data);
    assert PadCount(|data|) == 1;
    assert AllPadding(e[43..]);
    assert e[43..][0] == e[43];
    DecodeEncode(data);
    EncodingValid(data);
  }

  /**
   * `generateSalt` with the two random UUIDs passed in: the buffer is
   * filled by four `putLong` calls and its array Base64-encoded.
   */
  method GenerateSalt(first: Uuid, second: Uuid) returns (salt: string)
    ensures salt == Encode(SaltBytes(first, second))
    ensures |salt| == 44 && AllAlphabet(salt[..43]) && salt[43] == Pad
    ensures Decode(salt) == Some(SaltBytes(first, second))
    ensures ValidateSalt(salt)
  {
    var buf := new ByteBuffer.Allocate(32);
    var zeros := buf.hb[..];
    var overflowed := buf.PutLong(first.leastSigBits);
    assert !overflowed && buf.position == 8;
    assert buf.hb[..] == LongBytes(first.leastSigBits) + zeros[8..];
    overflowed := buf.PutLong(first.mostSigBits);
    assert !overflowed && buf.position == 16;
    assert buf.hb[..] == LongBytes(first.leastSigBits) + LongBytes(first.mostSigBits) + zeros[16..];
    overflowed := buf.PutLong(second.leastSigBits);
    assert !overflowed && buf.position == 24;
    assert buf.hb[..] == LongBytes(first.leastSigBits) + LongBytes(first.mostSigBits)
                       + LongBytes(second.leastSigBits) + zeros[24..];
    overflowed := buf.PutLong(second.mostSigBits);
    assert !overflowed && buf.position == 32;
    assert buf.hb[..] == SaltBytes(first, second);
    salt := Encode(buf.hb[..]);
    EncodedSaltShape(SaltBytes(first, second));
  }
}
