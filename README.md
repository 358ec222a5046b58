# PasswordEncryptor salt handling, modelled in Dafny

FusionAuth's `PasswordEncryptor` is the plugin contract for password
hashing algorithms. Its two abstract operations (`defaultFactor`,
`encrypt`) are supplied by plugins. This project models its two default
operations and proves facts about them:

- `validateSalt` accepts a salt when `Base64SaltPattern`,
  `^[0-9A-Za-z+/]+=*$`, is *found* in it. Here that is the predicate
  `PasswordEncryptor.ValidateSalt`. It scans a greedy alphabet run, then a
  run of `=`, then what Java's non-MULTILINE `$` accepts. The project proves
  it equal to the pattern read as a language (`PatternFinds`: a non-empty
  alphabet run, then `=`*, then the end of input or one final line
  terminator).
- `generateSalt` packs the 64-bit halves of two UUIDs into a 32-byte
  `ByteBuffer` with four `putLong` calls, then Base64-encodes the buffer's
  array. `PasswordEncryptor.GenerateSalt` takes the two UUIDs as parameters
  and fills a `ByteBuffers.ByteBuffer`, a class with a backing array and a
  write position. It returns `Base64.Encode` of the array: standard padded
  Base64 as in section 4 of RFC 4648. The project proves that the salt is 44
  characters long, that it decodes back to the packed bytes (whose four
  8-byte ranges read back as the four longs), and that `ValidateSalt`
  accepts it.

Modules: `Bytes` (Java `byte`/`long` and the big-endian layout), `Base64`
(encoder and a matching decoder), `ByteBuffers` (the `ByteBuffer` subset
used), `PasswordEncryptor` (the two default methods), `Wrappers` (`Option`).

A check that decoded the salt as strict Base64 would reject `"AB"` and
`"A==="`. `validateSalt` does not decode: it matches a regular expression.
So unpadded (`"AB"`) and over-padded (`"A==="`) salts are valid, and so is
a valid salt followed by one final line terminator (`"AAAA\n"`).

## Model

| member | source | states |
|---|---|---|
| PasswordEncryptor.ValidateSaltMatchesPattern | src/main/java/io/fusionauth/plugin/spi/security/PasswordEncryptor.java:80-82 | `validateSalt(s)` holds iff `s` splits into one or more `[0-9A-Za-z+/]`, zero or more `=`, and a rest that Java's `$` accepts (both directions) |
| PasswordEncryptor.ValidateSalt | src/main/java/io/fusionauth/plugin/spi/security/PasswordEncryptor.java:80-82 | `validateSalt`: an accepted salt holds only `[0-9A-Za-z+/]`, `=` and line terminators; its partner `ValidateSaltMatchesPattern` proves it equal to the pattern read as a language |
| PasswordEncryptor.IsLineTerminator | src/main/java/io/fusionauth/plugin/spi/security/PasswordEncryptor.java:34 | the characters Java's `$` may skip at the very end (`\n`, `\r`, U+0085, U+2028, U+2029); none of them is in the class `[0-9A-Za-z+/]` or is `=` |
| PasswordEncryptor.DollarMatches | src/main/java/io/fusionauth/plugin/spi/security/PasswordEncryptor.java:34 | what `$` without MULTILINE accepts after the match: at most two characters, all line terminators (the end, one final terminator or `\r\n`) |
| Base64.IsAlphabetChar | src/main/java/io/fusionauth/plugin/spi/security/PasswordEncryptor.java:34 | the character class `[0-9A-Za-z+/]`: ASCII only and never `=`, so the class run and the `=` run cannot overlap |
| Base64.Encode | src/main/java/io/fusionauth/plugin/spi/security/PasswordEncryptor.java:66 | `encodeToString`: whole groups of four characters, empty only for no bytes; its partners `DecodeEncode`, `EncodeLength` and `EncodeShape` prove it lossless, 4 * ceil(n / 3) long and padded correctly |
| Bytes.LongBytes | src/main/java/io/fusionauth/plugin/spi/security/PasswordEncryptor.java:61-65 | the eight bytes `putLong` writes for a long; its partner `LongBytesRoundTrip` proves that `BytesToLong` reads them back as the same long |
| PasswordEncryptor.RunThenPaddingSpec | src/main/java/io/fusionauth/plugin/spi/security/PasswordEncryptor.java:34 | the greedy scan of `[0-9A-Za-z+/]*=*$` accepts exactly the strings that split into an alphabet run, a `=` run and an accepted end, so greediness loses no match |
| PasswordEncryptor.PaddingThenEndSpec | src/main/java/io/fusionauth/plugin/spi/security/PasswordEncryptor.java:34 | the scan of `=*$` accepts exactly a `=` run followed by an end accepted by `$` |
| PasswordEncryptor.PaddingOnlyRejected | src/main/java/io/fusionauth/plugin/spi/security/PasswordEncryptor.java:34 | the empty string and strings made only of `=` are rejected |
| PasswordEncryptor.ForeignCharRejected | src/main/java/io/fusionauth/plugin/spi/security/PasswordEncryptor.java:34 | any character outside the alphabet and `=` rejects the salt, unless it is a line terminator at the very end (or the final `\r\n`) |
| PasswordEncryptor.AlphabetAfterPaddingRejected | src/main/java/io/fusionauth/plugin/spi/security/PasswordEncryptor.java:34 | an alphabet character anywhere after a `=` rejects the salt |
| PasswordEncryptor.BodyPaddingEndAccepted | src/main/java/io/fusionauth/plugin/spi/security/PasswordEncryptor.java:34 | no length or padding-count check: any non-empty alphabet run plus any number of `=` is accepted, also with one trailing line terminator |
| PasswordEncryptor.ValidateSaltExamples | src/main/java/io/fusionauth/plugin/spi/security/PasswordEncryptor.java:80-82 | `"AB"`, `"A==="`, `"AAAA\n"`, `"AAAA=\r\n"` accepted; `""`, `"=="`, `"A A"`, `"A!"`, `"A=B"`, `"AAAA\n\n"` rejected |
| PasswordEncryptor.EncodingValid | src/main/java/io/fusionauth/plugin/spi/security/PasswordEncryptor.java:66 | a standard Base64 encoding passes `validateSalt` iff it encodes at least one byte |
| PasswordEncryptor.SaltBytes | src/main/java/io/fusionauth/plugin/spi/security/PasswordEncryptor.java:59-65 | the packed buffer is exactly 32 bytes; bytes 0-7, 8-15, 16-23, 24-31 read back as first.least, first.most, second.least, second.most |
| PasswordEncryptor.EncodedSaltShape | src/main/java/io/fusionauth/plugin/spi/security/PasswordEncryptor.java:66 | the encoding of 32 bytes has 44 characters, 43 from the alphabet and a final `=`; it decodes back to the bytes and passes `validateSalt` |
| PasswordEncryptor.GenerateSalt | src/main/java/io/fusionauth/plugin/spi/security/PasswordEncryptor.java:58-67 | the salt is the padded Base64 of the packed UUID halves; 44 characters; decodes to those bytes; accepted by `validateSalt` for every pair of UUIDs |
| ByteBuffers.ByteBuffer.Allocate | src/main/java/io/fusionauth/plugin/spi/security/PasswordEncryptor.java:59 | a fresh buffer of the given capacity, all zero, position 0 |
| ByteBuffers.ByteBuffer.PutLong | src/main/java/io/fusionauth/plugin/spi/security/PasswordEncryptor.java:61-65 | with 8 bytes of room, writes the big-endian bytes of the long at the position and advances it by 8, leaving all other bytes alone; otherwise overflows and changes nothing |
| Bytes.LongBytesRoundTrip | src/main/java/io/fusionauth/plugin/spi/security/PasswordEncryptor.java:61-65 | the 8 big-endian two's-complement bytes of a long read back as the same long |
| Bytes.LongBytesInjective | src/main/java/io/fusionauth/plugin/spi/security/PasswordEncryptor.java:61-65 | two longs have the same bytes iff they are equal |
| Base64.DecodeEncode | src/main/java/io/fusionauth/plugin/spi/security/PasswordEncryptor.java:66 | decoding the Base64 encoding of any byte sequence returns that sequence |
| Base64.EncodeLength | src/main/java/io/fusionauth/plugin/spi/security/PasswordEncryptor.java:66 | the encoding of n bytes has 4 * ceil(n / 3) characters |
| Base64.EncodeShape | src/main/java/io/fusionauth/plugin/spi/security/PasswordEncryptor.java:66 | the encoding is alphabet characters followed by exactly (3 - n mod 3) mod 3 `=`, with at least one alphabet character when n > 0 |
| Base64.QuantumRoundTrip | src/main/java/io/fusionauth/plugin/spi/security/PasswordEncryptor.java:66 | a 3-byte group turned into 4 sextet characters decodes back to the 3 bytes |
| Base64.SextetChar | src/main/java/io/fusionauth/plugin/spi/security/PasswordEncryptor.java:66 | each 6-bit value is written as an alphabet character whose value reads back as the same 6 bits |
| Base64.CharOfSextetValue | src/main/java/io/fusionauth/plugin/spi/security/PasswordEncryptor.java:66 | each alphabet character is the digit of its own 6-bit value, so digits and values are in one-to-one correspondence |
| Base64.AlphabetIsSextetImage | src/main/java/io/fusionauth/plugin/spi/security/PasswordEncryptor.java:34 | the pattern's character class `[0-9A-Za-z+/]` is exactly the set of the 64 Base64 digit characters |

## Left out

- `defaultFactor` and `encrypt` are abstract in the interface. They have no body here; the hashing algorithms live in plugins.
- `UUID.randomUUID()`: the randomness and the UUID version and variant bits are not modelled. `GenerateSalt` takes the two UUIDs as arbitrary parameters.
- `java.util.regex` in general: only the one pattern, under `find()` without flags, is modelled.
- Java strings are UTF-16 code units; here a string is a sequence of Unicode scalar values. This changes nothing for the pattern, since every character it names is in the Basic Multilingual Plane.
- A `null` salt, which makes `validateSalt` throw `NullPointerException`, has no counterpart: a Dafny string cannot be null.
- `Base64.Decode` is a standard padded decoder written as the partner of the encoder. It is not `java.util.Base64.Decoder`, which the source does not call. It does not reject non-zero padding bits.
- `ByteBuffer` is modelled only as far as the salt generator uses it: allocation, the write position and relative `putLong`. Limit, mark, byte order changes and the other accessors are not modelled. The backing array is the object `array()` returns, read directly.
- Concurrency and thread safety of the random source are not modelled.
