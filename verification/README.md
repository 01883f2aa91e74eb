# varintbuf in Dafny

A model of the varint codec of the Rust crate `varintbuf` (src/lib.rs). The
codec is the base-128 varint of Protocol Buffers for 64-bit integers. Each
byte carries seven bits of the value, least significant group first. Bit 7
of a byte is set when more bytes of the same varint follow. Signed values go
through the zigzag transform first, which maps 0, -1, 1, -2, ... to 0, 1, 2,
3, ....

The modules follow the parts of src/lib.rs:

- `Arith` (arith.dfy): the `u64` and `i64` widths and powers of two and 128. It also holds Rust's checked arithmetic (`Option`) and wrapping arithmetic (`WrapI64`, and the `as` casts `AsU64`, `AsI64`).
- `Bytes` (bytes.dfy): bytes and the three bit operations the codec applies to them (`& 127`, `& 128`, `| 128`). A lemma ties each of them to the same operation on `bv8`.
- `Varint` (varint.dfy): `length`, `encode` and `decode`.
  - `EncodeBytes` gives the bytes `encode` appends, and the method `Encode` is the source's loop.
  - `Decode` is the source's loop with checked arithmetic (a debug build), as a recursive function over a byte sequence and a cursor. `DecodeLoop` is the same loop as a method.
  - `DecodeWrapping` is the same loop with wrapping arithmetic (a release build).
  - `VarintValue` is the independent reference: the number the payload groups of a byte sequence denote.
- `ZigZag` (zigzag.dfy): `unsign` and `sign`, each in two forms.
  - `Unsign` and `Sign` use checked arithmetic (a debug build).
  - `UnsignWrapping` and `SignWrapping` use wrapping arithmetic (a release build).
  - Both forms are compared against the transform over unbounded integers, `ZigZagEncode` and `ZigZagDecode`.
- `SignedVarint` (signed.dfy): `signed_length`, `signed_encode` and `signed_decode`.
- `Vectors` (vectors.dfy): the unit tests' cases, plus three cases of the model's own for underflow, overflow and an eleven-byte input.

How the model represents the source:

- **Sink and source.** The write sink is a byte sequence that `encode` appends to. The read source is a byte sequence with a cursor.
- **Decode's two ways to stop without a value.** `get_u8` on an exhausted source gives `Failed(BufferUnderflow)`. An overflow of the checked `u64` multiply-and-add at src/lib.rs:34 gives `Failed(ArithmeticOverflow)`. With wrapping arithmetic the multiply-and-add is reduced modulo 2^64 instead, so `DecodeWrapping` only ever underflows.
- **The shift.** `fac <<= 7` discards the bits shifted out, so the weight of the tenth group is 2^63 and every later weight is 0.
- **What decode returns.** With checked arithmetic it fails with an overflow exactly when nine continuation bytes are followed by a tenth byte whose payload is 2 or more. Otherwise the value it returns is the value of the varint's first ten bytes at most (`Significant`), because later groups carry no weight. With wrapping arithmetic the value is that of the same bytes modulo 2^64, and the two builds return the same result exactly when the checked build does not overflow.

Facts about the code that its names or a first reading might suggest otherwise:

- **The variable `zero_len` of `length`.** The name suggests a count of leading zeros. The code stores `64 - leading_zeros`, the number of significant bits. `Length` computes what the code computes: `(6 + bits) / 7`, or 1 for zero.
- **Trailing zero groups.** A multi-byte encoding never ends in an all-zero group: `EncodeCanonical` shows that its last byte is never zero. Groups in the middle can be zero: 16384 encodes to `[0x80, 0x80, 0x01]` (`EncodeZeroGroup`).
- **Decode errors.** Besides running out of input, the checked accumulation at src/lib.rs:34 can overflow on non-canonical inputs of ten or more bytes. The model makes this a second error.
- **The zigzag transform.** Under checked arithmetic `unsign` and `sign` overflow at the extremes of their ranges; see "## Findings".

Which build each signed member follows:

- `SignedLength`, `SignedEncodeBytes` and `SignedEncode` use `ZigZagEncode`, which equals the wrapping build's `unsign` for every value (`UnsignWrapping`). `SignedEncodeBytesChecked` is the checked build.
- `SignedDecode` puts the corrected `ZigZagDecode` on the checked `Decode`, and so follows neither build at the code `u64::MAX`.
- `SignedDecodeChecked` is the source as written in a checked build: the checked `Decode`, then the checked `Sign`.
- `SignedDecodeWrapping` is the source as written in a release build: `DecodeWrapping`, then `SignWrapping`.

## Model

| member | source | states |
|---|---|---|
| Varint.EncodeBytes | src/lib.rs:14-24 | no contract of its own: the bytes `encode` appends; `EncodeIsVarint`, `EncodeMinimal`, `EncodeGroups` and `EncodeLength` state what they are |
| Varint.DecodeFrom | src/lib.rs:32-39 | no contract of its own: one turn of decode's loop per call, from the accumulators `val` and `fac`; `DecodeFromOutcome` and `DecodeFromValue` state what it returns |
| Varint.Decode | src/lib.rs:28-41 | no contract of its own: decode from a cursor, starting with `val = 0` and `fac = 1`; `DecodeOutcome` states what it returns |
| Varint.LeadingZeros | src/lib.rs:6 | `leading_zeros` is at most 64, is 64 exactly for 0, and otherwise places the highest set bit at position `63 - z` |
| Varint.Length | src/lib.rs:5-9 | the byte count lies in 1..10, its groups hold the value (`value < 128^n`), and one group fewer would not (`128^(n-1) <= value` unless n is 1) |
| Varint.LengthFormula | src/lib.rs:6-8 | the source's formula `(offset + bits) / 7`, with `bits = 64 - leading_zeros` and `offset = 7` only for zero, gives the least `n >= 1` with `value < 128^n` |
| Varint.LengthUnique | src/lib.rs:5-9 | those two bounds determine the length: any `n` satisfying them is `length(value)` |
| Varint.LengthAtMost | src/lib.rs:5-9 | `length(value) <= k` exactly when `value < 128^k` |
| Varint.EncodeIsVarint | src/lib.rs:17-22 | every emitted byte but the last has bit 7 set, the last is below 128, and the groups denote the encoded value |
| Varint.EncodeMinimal | src/lib.rs:17-22 | the encoding has as few bytes as its value allows: its groups hold the value, and one group fewer would not |
| Varint.EncodeLength | src/lib.rs:14-24 | the number of bytes appended equals `length(value)` |
| Varint.EncodeGroups | src/lib.rs:18-19 | the low seven bits of byte `i` are bits `7i .. 7i+6` of the value |
| Varint.EncodeCanonical | src/lib.rs:17-22 | no multi-byte encoding ends in a zero byte |
| Varint.EncodeZeroGroup | src/lib.rs:17-22 | a middle group can be zero: 16384 encodes to `[0x80, 0x80, 0x01]` |
| Varint.CanonicalIsEncoding | src/lib.rs:14-24 | every varint-shaped sequence whose last byte is non-zero (or that is a single byte) and whose value fits in 64 bits is the encoding of that value |
| Varint.EncodeInjective | src/lib.rs:14-24 | distinct values have distinct encodings |
| Varint.Encode | src/lib.rs:14-24 | the loop appends exactly the encoding to the sink, leaves the sink's earlier bytes unchanged, and returns the number of bytes appended, which is `length(value)` |
| Varint.DecodeOutcome | src/lib.rs:28-41 | decode overflows exactly when nine continuation bytes are followed by a tenth payload of 2 or more. It underflows exactly when that does not happen and every remaining byte has bit 7 set. Otherwise it stops just past the first byte with bit 7 clear and returns the value of the (at most ten) significant groups read |
| Varint.DecodeStepOverflow | src/lib.rs:34 | the checked `val += fac * payload` fails only for the tenth byte with a payload of 2 or more |
| Varint.WrappedWeight | src/lib.rs:30 | the weight `fac` of the group after `k` bytes is `128^k` reduced modulo 2^64 |
| Varint.ShiftWeight | src/lib.rs:35 | `fac <<= 7`, discarding the bits shifted out, moves the weight from group `k` to group `k + 1`: exact for the first ten groups, zero from group `k = 10`, the eleventh, on |
| Varint.DecodeStep | src/lib.rs:33-36 | one turn of the loop either overflows (tenth byte, payload at least 2) or takes the accumulators from the bytes read so far to the bytes read including this one |
| Varint.DecodeFromOutcome | src/lib.rs:32-39 | from any point of the loop, the run ends in overflow or underflow exactly under the conditions above, measured from the varint's first byte |
| Varint.DecodeFromValue | src/lib.rs:32-39 | from any point of the loop, a run that returns a value stops just past the first terminating byte, and the value is that of the significant groups |
| Varint.DecodeLoop | src/lib.rs:28-41 | the imperative loop with its two accumulators returns what `Decode` returns on every input |
| Varint.DecodeWrappingFrom | src/lib.rs:32-39 | no contract of its own: one turn of decode's loop with `fac * payload` and the addition to `val` each reduced modulo 2^64; `DecodeWrappingFromStops` and `DecodeWrappingFromValue` state what it returns |
| Varint.DecodeWrapping | src/lib.rs:28-41 | no contract of its own: decode with wrapping arithmetic from `val = 0` and `fac = 1`; `DecodeWrappingOutcome` states what it returns |
| Arith.WrappedMulAdd | src/lib.rs:34 | reducing the product modulo 2^64 and then the sum gives the exact sum modulo 2^64 |
| Varint.DecodeWrappingStep | src/lib.rs:33-35 | one turn of the wrapping loop takes the accumulators (the weight of the next group, and the value so far modulo 2^64) from the bytes read to the bytes read including this one |
| Varint.DecodeWrappingFromStops | src/lib.rs:32-39 | from any point of the wrapping loop, the run underflows exactly when every remaining byte has bit 7 set, never fails in any other way, and otherwise stops just past the first byte with bit 7 clear |
| Varint.DecodeWrappingFromValue | src/lib.rs:32-39 | from any point of the wrapping loop, a returned value is the value of the significant groups modulo 2^64 |
| Varint.DecodeWrappingOutcome | src/lib.rs:28-41 | with wrapping arithmetic decode never overflows. It underflows exactly when every remaining byte has bit 7 set; otherwise it stops just past the first byte with bit 7 clear and returns the value of the (at most ten) significant groups modulo 2^64 |
| Varint.DecodeWrappingAgrees | src/lib.rs:28-41 | the two builds return the same result exactly when the checked accumulation does not overflow |
| Varint.TenthGroup | src/lib.rs:17-22 | a ten-byte encoding carries only bit 63 in its tenth byte |
| Varint.EncodingNeverOverflows | src/lib.rs:29-35 | decoding an encoding never overflows |
| Varint.DecodeAtEncoding | src/lib.rs:28-41 | decoding at a cursor where an encoding starts returns the encoded value and moves the cursor exactly past the encoding |
| Varint.DecodeEncoded | src/lib.rs:28-41 | decode(prefix ++ encode(v) ++ rest) at the end of the prefix returns `v` and leaves exactly `rest` unread |
| Varint.DecodeConsecutive | src/lib.rs:113-124 | two values encoded back to back decode in order, the second ending at the end of the buffer |
| Bytes.Truncate | src/lib.rs:22 | `v as u8` keeps the low eight bits: the byte equals `v` exactly when `v < 256` |
| Bytes.Payload | src/lib.rs:34 | no contract of its own: `byte & 127`; `MasksAgreeWithBits` ties it to the bit operation |
| Bytes.HasContinuation | src/lib.rs:36 | no contract of its own: `byte & 128 != 0`; `MasksAgreeWithBits` ties it to the bit operation |
| Bytes.SetContinuation | src/lib.rs:18 | `byte \| 128` sets the continuation flag and keeps the payload |
| Bytes.MasksAgreeWithBits | src/lib.rs:18-36 | `\| 0x80` (line 18), `& 0x7F` (line 34) and `& 0x80 != 0` (line 36) on an 8-bit byte are the flag-setting, payload and continuation test of the integer model |
| Arith.AsU64 | src/lib.rs:66-68 | `as u64` on an `i64` keeps the value modulo 2^64, and keeps it unchanged when it is non-negative |
| Arith.AsI64 | src/lib.rs:76-78 | `as i64` on a `u64` keeps the value modulo 2^64, and keeps it unchanged when it is at most `i64::MAX` |
| Bytes.PayloadOfTruncate | src/lib.rs:18 | the payload of `v as u8` is `v mod 128` |
| Bytes.FlaggedByteOfPayload | src/lib.rs:18 | a byte with bit 7 set is `(v as u8) \| 128` for every `v` with the same low seven bits |
| ZigZag.ZigZagEncode | src/lib.rs:64-70 | no contract of its own: `2v` for `v >= 0` and `-2v - 1` otherwise, in unbounded arithmetic; `ZigZagRoundTrip` and `UnsignWrapping` relate it to `sign` and to `unsign` |
| ZigZag.ZigZagDecode | src/lib.rs:74-80 | no contract of its own: `-(u + 1) / 2` for odd `u` and `u / 2` otherwise, in unbounded arithmetic; `ZigZagRoundTripCode` relates it to `ZigZagEncode` |
| ZigZag.ZigZagParity | src/lib.rs:64-70 | the code of a value is even exactly when the value is non-negative |
| ZigZag.ZigZagRoundTrip | src/lib.rs:64-80 | the inverse transform undoes the transform on every `i64` |
| ZigZag.ZigZagRoundTripCode | src/lib.rs:64-80 | the transform undoes the inverse on every `u64`, so the transform is a bijection |
| ZigZag.ZigZagInjective | src/lib.rs:64-70 | distinct values have distinct codes |
| ZigZag.ZigZagMagnitude | src/lib.rs:64-70 | the codes below `2m` are exactly those of the values `-m .. m-1` |
| ZigZag.Unsign | src/lib.rs:64-70 | with checked arithmetic, `unsign` yields a result exactly for `-2^62 < v < 2^62`, and the result is the zigzag code |
| ZigZag.UnsignWrapping | src/lib.rs:64-70 | with wrapping arithmetic, `unsign` yields the zigzag code of every `i64` |
| ZigZag.Sign | src/lib.rs:74-80 | with checked arithmetic, `sign` fails exactly at `u64::MAX` and otherwise inverts the zigzag code |
| ZigZag.SignWrapping | src/lib.rs:74-80 | with wrapping arithmetic, `sign` inverts the zigzag code except at `u64::MAX`, where it yields 0 |
| ZigZag.CheckedRoundTrip | src/lib.rs:64-80 | on the overflow-free domain, `sign(unsign(v)) == v` |
| ZigZag.WrappingRoundTrip | src/lib.rs:64-80 | with wrapping arithmetic, `sign(unsign(v)) == v` for every `v` except `i64::MIN`, which comes back as 0 |
| ZigZag.UnsignOverflows | src/lib.rs:66 | checked `unsign(2^62)` fails although its code `2^63` is a `u64` |
| ZigZag.SignLosesMin | src/lib.rs:76 | `i64::MIN` has code `u64::MAX`, checked `sign` fails on it, and wrapping `sign` yields 0 for it instead of `i64::MIN` |
| SignedVarint.SignedEncodeBytes | src/lib.rs:52-54 | no contract of its own: the bytes `signed_encode` appends, the encoding of the zigzag code |
| SignedVarint.SignedLength | src/lib.rs:45-47 | the signed length lies in 1..10, is the number of bytes `signed_encode` appends, and is 1 exactly for `-64 <= v < 64` |
| SignedVarint.SignedLengthAtMost | src/lib.rs:45-47 | `signed_length(v) <= k` exactly when `-128^k/2 <= v < 128^k/2` |
| SignedVarint.SignedEncode | src/lib.rs:52-54 | appends the varint of the zigzag code of `v` and returns `signed_length(v)` |
| SignedVarint.SignedDecode | src/lib.rs:58-60 | fails exactly when the unsigned decode fails, with the same error. Otherwise it returns the value whose zigzag code the unsigned decode read, with the same cursor |
| SignedVarint.SignedDecodeEncoded | src/lib.rs:52-60 | decoding a signed encoding returns the value and consumes exactly `signed_length(v)` bytes, whatever precedes or follows it |
| SignedVarint.SignedEncodeBytesChecked | src/lib.rs:52-54 | with checked arithmetic `signed_encode` writes bytes exactly for `-2^62 < v < 2^62`, and then the encoding of the zigzag code |
| SignedVarint.SignedDecodeChecked | src/lib.rs:58-60 | with checked arithmetic `signed_decode` overflows exactly when decode overflows or reads the code `u64::MAX`; it underflows exactly when decode does; otherwise it returns the value with the code decode read, at the same cursor |
| SignedVarint.SignedDecodeWrapping | src/lib.rs:58-60 | with wrapping arithmetic throughout, `signed_decode` never overflows and underflows exactly when every remaining byte has bit 7 set. Otherwise it stops where the wrapping decode stops, reads the code `u64::MAX` as 0 and inverts every other code |
| SignedVarint.SignedDecodeEncodedChecked | src/lib.rs:52-60 | with checked arithmetic the signed codec round-trips every value with `-2^62 < v < 2^62`, consuming exactly its bytes |
| SignedVarint.SignedDecodeEncodedWrapping | src/lib.rs:52-60 | with wrapping arithmetic the signed codec round-trips every value except `i64::MIN`, which decodes as 0, consuming exactly its bytes |
| SignedVarint.MaxEncoding | src/lib.rs:14-24 | `u64::MAX` encodes to nine `0xFF` bytes and `0x01` |
| SignedVarint.SignedMinAsWritten | src/lib.rs:58-60 | for `i64::MIN`, checked `signed_encode` fails. The wrapping build's bytes `[0xFF x9, 0x01]` decode to `u64::MAX`, on which checked `signed_decode` overflows and wrapping `signed_decode` returns 0 |
| SignedVarint.SignedDecodeWrappedSum | src/lib.rs:34 | on nine `0xFF` bytes and `0x02`, checked decode and checked `signed_decode` overflow, while the wrapping decode returns `2^63 - 1` and the wrapping `signed_decode` returns `-2^62`, both at cursor 10 |
| SignedVarint.WrappedSumValue | src/lib.rs:34 | the groups of nine `0xFF` bytes and `0x02` denote `3 * 2^63 - 1`, which exceeds `u64::MAX` |
| Vectors.EncodeVectors | src/lib.rs:88-110 | 100 encodes to `[100]` and 1000 to `[232, 7]`; back to back they are `[100, 232, 7]` |
| Vectors.LengthVectors | src/lib.rs:127-138 | the lengths 1, 2, 8, 8, 9, 9 and 10 of 100, 1000, 2^49, 2^56-1, 2^56, 2^63-1 and 2^63 |
| Vectors.DecodeVectors | src/lib.rs:113-124 | `[100, 232, 7]` decodes to 100 with the cursor at 1, then to 1000 with the cursor at 3 |
| Vectors.UnderflowVectors | src/lib.rs:33 | `[]` and `[0x80, 0xFF]` underflow |
| Vectors.OverflowVector | src/lib.rs:34 | nine `0xFF` bytes followed by `0x02` overflow |
| Vectors.ElevenByteVector | src/lib.rs:34-35 | nine `0x80` bytes, `0x81`, `0x05` decode to 2^63 with the cursor at 11: the eleventh group has no weight |
| Vectors.SignedVectors | src/lib.rs:141-167 | 100 and -100 encode to `[200, 1]` and `[199, 1]` with signed length 2, and decode back |
| Vectors.SignedVectorsAsWritten | src/lib.rs:154-162 | `[200, 1]` and `[199, 1]` decode to 100 and -100 with `sign` as written, in a checked and in a release build |

## Left out

- The `bytes` crate's `Buf`/`BufMut` traits and the concrete `Vec`, `BytesMut` and `Bytes` buffers. The sink is a byte sequence that is appended to; the source is a byte sequence with a cursor. Whether a caller's cursor advances (`&mut buf` against `&*buf` at src/lib.rs:121-123) is buffer behaviour, not codec logic.
- `#[inline]` has no counterpart.
- Build configuration is not modelled as such. Checked (debug) and wrapping (release) arithmetic appear as two forms of `decode`, `unsign` and `sign`.
- Varint.DecodeOutcome: states the decoded value as the value of the first ten groups at most (`Significant`), not as an explicit sum modulo 2^64. The two agree whenever decoding does not overflow.
- SignedVarint.SignedDecode: uses the corrected `ZigZagDecode`, so it returns `i64::MIN` for the code `u64::MAX`. The source as written overflows there under checked arithmetic and returns 0 under wrapping arithmetic. `SignedDecodeChecked` and `SignedDecodeWrapping` model those two.
- SignedVarint.SignedDecodeEncoded: the round trip holds for the corrected transform only. As written, a checked build already fails in `unsign` for `v >= 2^62` or `v <= -2^62` (`SignedEncodeBytesChecked`), and a wrapping build decodes `i64::MIN` as 0 (`SignedDecodeEncodedWrapping`, `SignedMinAsWritten`).

## Findings

| source | as written | input that shows it | evidently intended | confidence | as-written member | corrected member |
|---|---|---|---|---|---|---|
| src/lib.rs:66-68 | `unsign` computes `value * 2` and `value * -2 - 1` in `i64`, which overflows for `v >= 2^62` and `v <= -2^62`, so a checked build panics | `signed_encode(1 << 62)`, whose code `2^63` fits a `u64` | the zigzag code of every `i64`, computed without signed overflow | high, not executed | ZigZag.Unsign (counterexample ZigZag.UnsignOverflows) | ZigZag.ZigZagEncode (ZigZag.ZigZagRoundTrip, ZigZag.UnsignWrapping) |
| src/lib.rs:76 | `sign` computes `value + 1` in `u64`, which overflows for `u64::MAX`: a checked build panics and a wrapping build returns 0 | `signed_decode` of `signed_encode(i64::MIN)`, the bytes `[0xFF x9, 0x01]` | `i64::MIN`, the value whose code is `u64::MAX` | high, not executed | ZigZag.Sign, ZigZag.SignWrapping (counterexamples ZigZag.SignLosesMin, ZigZag.WrappingRoundTrip, SignedVarint.SignedMinAsWritten) | ZigZag.ZigZagDecode (ZigZag.ZigZagRoundTripCode) |
