/**
  The signed codec of src/lib.rs: `signed_length`, `signed_encode` and
  `signed_decode` pass an `i64` through the zigzag transform and use the
  unsigned varint codec for the rest.
 */
module SignedVarint {
  import opened Arith
  import opened Bytes
  import opened Varint
  import opened ZigZag

  /** The bytes `signed_encode` appends for `value`. */
  function SignedEncodeBytes(value: i64): seq<byte>
  {
    EncodeBytes(ZigZagEncode(value))
  }

  /** `signed_length`: bytes needed for the zigzag code of `value`. */
  function SignedLength(value: i64): (n: nat)
    ensures 1 <= n <= 10
    ensures n == |SignedEncodeBytes(value)|
    ensures n == 1 <==> -64 <= value < 64
  {
    var code := ZigZagEncode(value);
    EncodeLength(code);
    LengthAtMost(code, 1);
    ZigZagMagnitude(value, 64);
    Length(code)
  }

  /** `k` bytes suffice exactly for the values of magnitude below 128^k / 2. */
  lemma SignedLengthAtMost(value: i64, k: nat)
    requires k >= 1
    ensures SignedLength(value) <= k <==> -(Pow128(k) / 2) <= value < Pow128(k) / 2
  {
    var m := 64 * Pow128(k - 1);
    assert Pow128(k) == 2 * m;
    assert Pow128(k) / 2 == m;
    LengthAtMost(ZigZagEncode(value), k);
    ZigZagMagnitude(value, m);
  }

  /** `signed_encode`: appends the varint of the zigzag code of `value` and
      returns how many bytes it wrote. */
  method SignedEncode(value: i64, sink: seq<byte>) returns (written: nat, out: seq<byte>)
    ensures out == sink + SignedEncodeBytes(value)
    ensures written == |out| - |sink| == SignedLength(value)
  {
    written, out := Encode(ZigZagEncode(value), sink);
  }

  /** `signed_decode`: decodes a varint and maps its value back through the
      zigzag transform. */
  function SignedDecode(buf: seq<byte>, pos: nat): (r: DecodeResult<i64>)
    requires pos <= |buf|
    ensures r.Failed? <==> Decode(buf, pos).Failed?
    ensures r.Failed? ==> r.error == Decode(buf, pos).error
    ensures r.Decoded? ==>
      && r.next == Decode(buf, pos).next
      && ZigZagEncode(r.value) == Decode(buf, pos).value
  {
    match Decode(buf, pos)
    case Decoded(code, next) =>
      ZigZagRoundTripCode(code);
      Decoded(ZigZagDecode(code), next)
    case Failed(e) => Failed(e)
  }

  /** Decoding where a signed encoding starts returns the value and leaves
      the cursor just past it, whatever precedes or follows it. */
  lemma SignedDecodeEncoded(prefix: seq<byte>, value: i64, rest: seq<byte>)
    ensures var buf := prefix + SignedEncodeBytes(value) + rest;
      SignedDecode(buf, |prefix|) == Decoded(value, |prefix| + SignedLength(value))
  {
    DecodeEncoded(prefix, ZigZagEncode(value), rest);
    ZigZagRoundTrip(value);
  }

  // ---------------------------------------------------------------------
  // The signed codec with `unsign` and `sign` as written
  // ---------------------------------------------------------------------

  /** `signed_encode`'s bytes with checked arithmetic: `None` where `unsign`
      overflows. */
  function SignedEncodeBytesChecked(value: i64): (r: Option<seq<byte>>)
    ensures r.Some? <==> UnsignInRange(value)
    ensures r.Some? ==> r.value == SignedEncodeBytes(value)
  {
    match Unsign(value)
    case None => None
    case Some(code) => Some(EncodeBytes(code))
  }

  /** `signed_decode` with checked arithmetic: the overflow of `value + 1`
      in `sign` is an arithmetic overflow like that of the accumulation. */
  function SignedDecodeChecked(buf: seq<byte>, pos: nat): (r: DecodeResult<i64>)
    requires pos <= |buf|
    ensures r == Failed(ArithmeticOverflow) <==>
      || Decode(buf, pos) == Failed(ArithmeticOverflow)
      || (Decode(buf, pos).Decoded? && Decode(buf, pos).value == U64_MAX)
    ensures r == Failed(BufferUnderflow) <==> Decode(buf, pos) == Failed(BufferUnderflow)
    ensures r.Decoded? ==>
      && Decode(buf, pos).Decoded?
      && r.next == Decode(buf, pos).next
      && ZigZagEncode(r.value) == Decode(buf, pos).value
  {
    match Decode(buf, pos)
    case Decoded(code, next) =>
      (match Sign(code)
       case None => Failed(ArithmeticOverflow)
       case Some(v) =>
         ZigZagRoundTripCode(code);
         Decoded(v, next))
    case Failed(e) => Failed(e)
  }

  /** `signed_decode` with wrapping arithmetic throughout: the release
      build's `decode`, which never overflows, then the wrapping `sign`,
      which reads the code `u64::MAX` as 0. */
  function SignedDecodeWrapping(buf: seq<byte>, pos: nat): (r: DecodeResult<i64>)
    requires pos <= |buf|
    ensures r.Failed? <==> AllContinue(buf, pos, |buf|)
    ensures r.Failed? ==> r.error == BufferUnderflow
    ensures r.Decoded? ==>
      && DecodeWrapping(buf, pos).Decoded?
      && r.next == DecodeWrapping(buf, pos).next
      && (DecodeWrapping(buf, pos).value == U64_MAX ==> r.value == 0)
      && (DecodeWrapping(buf, pos).value != U64_MAX ==> ZigZagEncode(r.value) == DecodeWrapping(buf, pos).value)
  {
    DecodeWrappingOutcome(buf, pos);
    match DecodeWrapping(buf, pos)
    case Decoded(code, next) =>
      ZigZagRoundTripCode(code);
      Decoded(SignWrapping(code), next)
    case Failed(e) => Failed(e)
  }

  /** As written, the signed codec round-trips with checked arithmetic
      exactly on the values whose `unsign` does not overflow. */
  lemma SignedDecodeEncodedChecked(prefix: seq<byte>, value: i64, rest: seq<byte>)
    requires UnsignInRange(value)
    ensures SignedEncodeBytesChecked(value) == Some(SignedEncodeBytes(value))
    ensures var buf := prefix + SignedEncodeBytes(value) + rest;
      SignedDecodeChecked(buf, |prefix|) == Decoded(value, |prefix| + SignedLength(value))
  {
    DecodeEncoded(prefix, ZigZagEncode(value), rest);
    ZigZagRoundTrip(value);
  }

  /** As written, with wrapping arithmetic, the signed codec round-trips
      every value except `i64::MIN`, which decodes as 0. */
  lemma SignedDecodeEncodedWrapping(prefix: seq<byte>, value: i64, rest: seq<byte>)
    ensures var buf := prefix + SignedEncodeBytes(value) + rest;
      SignedDecodeWrapping(buf, |prefix|)
        == Decoded(if value == I64_MIN then 0 else value, |prefix| + SignedLength(value))
  {
    var code := ZigZagEncode(value);
    var buf := prefix + EncodeBytes(code) + rest;
    DecodeEncoded(prefix, code, rest);
    MiddleSlice(prefix, EncodeBytes(code), rest);
    EncodingNeverOverflows(buf, |prefix|, code);
    DecodeWrappingAgrees(buf, |prefix|);
    ZigZagRoundTrip(value);
    SignLosesMin();
  }

  /** `signed_decode(signed_encode(i64::MIN))` as written: a checked build
      already fails in `unsign`. The bytes a wrapping build writes,
      `[0xFF x9, 0x01]`, decode to `u64::MAX`; `sign` then fails with checked
      arithmetic and yields 0 with wrapping arithmetic. */
  lemma SignedMinAsWritten()
    ensures SignedEncodeBytesChecked(I64_MIN) == None
    ensures SignedEncodeBytes(I64_MIN) == [0xFF, 0xFF, 0xFF, 0xFF, 0xFF, 0xFF, 0xFF, 0xFF, 0xFF, 0x01]
    ensures Decode(SignedEncodeBytes(I64_MIN), 0) == Decoded(U64_MAX, 10)
    ensures SignedDecodeChecked(SignedEncodeBytes(I64_MIN), 0) == Failed(ArithmeticOverflow)
    ensures SignedDecodeWrapping(SignedEncodeBytes(I64_MIN), 0) == Decoded(0, 10)
  {
    SignLosesMin();
    MaxEncoding();
    var bs := EncodeBytes(U64_MAX);
    assert bs[0..10] == bs;
    DecodeAtEncoding(bs, 0, U64_MAX);
    EncodingNeverOverflows(bs, 0, U64_MAX);
    DecodeWrappingAgrees(bs, 0);
  }

  /** Nine continuation bytes and a tenth payload of 2, a varint no encoder
      writes: the checked accumulation overflows, while a release build
      wraps the sum 3 * 2^63 - 1 to 2^63 - 1, which `sign` reads as -2^62. */
  lemma SignedDecodeWrappedSum()
    ensures var buf: seq<byte> := [0xFF, 0xFF, 0xFF, 0xFF, 0xFF, 0xFF, 0xFF, 0xFF, 0xFF, 0x02];
      && Decode(buf, 0) == Failed(ArithmeticOverflow)
      && SignedDecodeChecked(buf, 0) == Failed(ArithmeticOverflow)
      && DecodeWrapping(buf, 0) == Decoded(0x7FFF_FFFF_FFFF_FFFF, 10)
      && SignedDecodeWrapping(buf, 0) == Decoded(-0x4000_0000_0000_0000, 10)
  {
    var buf: seq<byte> := [0xFF, 0xFF, 0xFF, 0xFF, 0xFF, 0xFF, 0xFF, 0xFF, 0xFF, 0x02];
    assert OverflowsAt(buf, 0) by {
      assert AllContinue(buf, 0, 9);
    }
    DecodeOutcome(buf, 0);
    DecodeWrappingOutcome(buf, 0);
    var r := DecodeWrapping(buf, 0);
    assert r.Decoded? by {
      assert !HasContinuation(buf[9]);
    }
    assert r.next == 10 by {
      assert AllContinue(buf, 0, r.next - 1);
    }
    assert Significant(buf, 0, 10) == buf;
    WrappedSumValue(buf);
    assert r.value == 0x7FFF_FFFF_FFFF_FFFF by {
      assert r.value == 0x1_7FFF_FFFF_FFFF_FFFF % TWO_64;
    }
    assert SignWrapping(0x7FFF_FFFF_FFFF_FFFF) == -0x4000_0000_0000_0000;
  }

  /** The groups of `[0xFF x9, 0x02]`: 63 one-bits and bit 64. */
  lemma WrappedSumValue(buf: seq<byte>)
    requires buf == [0xFF, 0xFF, 0xFF, 0xFF, 0xFF, 0xFF, 0xFF, 0xFF, 0xFF, 0x02]
    ensures VarintValue(buf) == 0x1_7FFF_FFFF_FFFF_FFFF
  {
    assert VarintValue(buf[9..]) == 0x2;
    assert VarintValue(buf[8..]) == 0x17F;
    assert VarintValue(buf[7..]) == 0xBFFF;
    assert VarintValue(buf[6..]) == 0x5F_FFFF;
    assert VarintValue(buf[5..]) == 0x2FFF_FFFF;
    assert VarintValue(buf[4..]) == 0x17_FFFF_FFFF;
    assert VarintValue(buf[3..]) == 0xBFF_FFFF_FFFF;
    assert VarintValue(buf[2..]) == 0x5_FFFF_FFFF_FFFF;
    assert VarintValue(buf[1..]) == 0x2FF_FFFF_FFFF_FFFF;
  }

  /** The encoding of `u64::MAX`: nine bytes of seven one-bits each and a
      tenth carrying bit 63. */
  lemma MaxEncoding()
    ensures EncodeBytes(U64_MAX) == [0xFF, 0xFF, 0xFF, 0xFF, 0xFF, 0xFF, 0xFF, 0xFF, 0xFF, 0x01]
  {
    var bs: seq<byte> := [0xFF, 0xFF, 0xFF, 0xFF, 0xFF, 0xFF, 0xFF, 0xFF, 0xFF, 0x01];
    assert VarintValue(bs) == U64_MAX by {
      assert VarintValue(bs[9..]) == 1;
      assert VarintValue(bs[8..]) == 0xFF;
      assert VarintValue(bs[7..]) == 0x7FFF;
      assert VarintValue(bs[6..]) == 0x3F_FFFF;
      assert VarintValue(bs[5..]) == 0x1FFF_FFFF;
      assert VarintValue(bs[4..]) == 0xF_FFFF_FFFF;
      assert VarintValue(bs[3..]) == 0x7FF_FFFF_FFFF;
      assert VarintValue(bs[2..]) == 0x3_FFFF_FFFF_FFFF;
      assert VarintValue(bs[1..]) == 0x1FF_FFFF_FFFF_FFFF;
    }
    CanonicalIsEncoding(bs);
  }
}
