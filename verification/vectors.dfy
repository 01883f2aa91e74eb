/**
  The concrete cases of the unit tests of src/lib.rs, stated of the model,
  plus three cases of the model's own: an underflow, an overflow and an
  eleven-byte input.
 */
module Vectors {
  import opened Arith
  import opened Bytes
  import opened Varint
  import opened ZigZag
  import opened SignedVarint

  /** `encode(100)` writes `[100]`; `encode(1000)` writes `[232, 7]`; written
      back to back they take three bytes. */
  lemma EncodeVectors()
    ensures EncodeBytes(100) == [100] && Length(100) == 1
    ensures EncodeBytes(1000) == [232, 7] && Length(1000) == 2
    ensures EncodeBytes(100) + EncodeBytes(1000) == [100, 232, 7]
  {
    EncodeLength(100);
    EncodeLength(1000);
  }

  /** The lengths the tests pin at the group boundaries. */
  lemma LengthVectors()
    ensures Length(100) == 1
    ensures Length(1000) == 2
    ensures Length(0x2_0000_0000_0000) == 8
    ensures Length(0xFF_FFFF_FFFF_FFFF) == 8
    ensures Length(0x100_0000_0000_0000) == 9
    ensures Length(0x7FFF_FFFF_FFFF_FFFF) == 9
    ensures Length(0x8000_0000_0000_0000) == 10
  {
    Pow128Top();
    LengthUnique(100, 1);
    LengthUnique(1000, 2);
    LengthUnique(0x2_0000_0000_0000, 8);
    LengthUnique(0xFF_FFFF_FFFF_FFFF, 8);
    LengthUnique(0x100_0000_0000_0000, 9);
    LengthUnique(0x7FFF_FFFF_FFFF_FFFF, 9);
    LengthUnique(0x8000_0000_0000_0000, 10);
  }

  /** `[100, 232, 7]` decodes to 100 and then to 1000, consuming all three
      bytes. */
  lemma DecodeVectors()
    ensures Decode([100, 232, 7], 0) == Decoded(100, 1)
    ensures Decode([100, 232, 7], 1) == Decoded(1000, 3)
  {
    EncodeVectors();
    DecodeConsecutive(100, 1000);
  }

  /** Decoding runs out of input on an empty buffer and on one whose bytes
      all carry the continuation flag. */
  lemma UnderflowVectors()
    ensures Decode([], 0) == Failed(BufferUnderflow)
    ensures Decode([0x80, 0xFF], 0) == Failed(BufferUnderflow)
  {
    DecodeOutcome([], 0);
    DecodeOutcome([0x80, 0xFF], 0);
  }

  /** A tenth payload of 2 after nine continuation bytes overflows. */
  lemma OverflowVector()
    ensures Decode([0xFF, 0xFF, 0xFF, 0xFF, 0xFF, 0xFF, 0xFF, 0xFF, 0xFF, 0x02], 0)
      == Failed(ArithmeticOverflow)
  {
    DecodeOutcome([0xFF, 0xFF, 0xFF, 0xFF, 0xFF, 0xFF, 0xFF, 0xFF, 0xFF, 0x02], 0);
  }

  /** An eleventh byte contributes nothing: its weight has been shifted out. */
  lemma ElevenByteVector()
    ensures Decode([0x80, 0x80, 0x80, 0x80, 0x80, 0x80, 0x80, 0x80, 0x80, 0x81, 0x05], 0)
      == Decoded(0x8000_0000_0000_0000, 11)
  {
    var buf: seq<byte> := [0x80, 0x80, 0x80, 0x80, 0x80, 0x80, 0x80, 0x80, 0x80, 0x81, 0x05];
    assert AllContinue(buf, 0, 10);
    assert !OverflowsAt(buf, 0) by {
      assert Payload(buf[9]) == 1;
    }
    assert !AllContinue(buf, 0, 11) by {
      assert !HasContinuation(buf[10]);
    }
    assert VarintValue(Significant(buf, 0, 11)) == 0x8000_0000_0000_0000 by {
      assert Significant(buf, 0, 11) == buf[..9] + [buf[9]];
      ZeroGroups(buf[..9]);
      VarintValueSnoc(buf[..9], buf[9]);
      Pow128Top();
    }
    DecodeOutcome(buf, 0);
    var r := Decode(buf, 0);
    assert r.next - 1 >= 10 by {
      assert AllContinue(buf, 0, r.next - 1);
    }
  }

  lemma {:induction false} ZeroGroups(bs: seq<byte>)
    requires forall i :: 0 <= i < |bs| ==> Payload(bs[i]) == 0
    ensures VarintValue(bs) == 0
    decreases |bs|
  {
    if |bs| > 0 {
      ZeroGroups(bs[1..]);
    }
  }

  /** 100 and -100 as signed varints: `[200, 1]` and `[199, 1]`. */
  lemma SignedVectors()
    ensures SignedEncodeBytes(100) == [200, 1] && SignedLength(100) == 2
    ensures SignedEncodeBytes(-100) == [199, 1] && SignedLength(-100) == 2
    ensures SignedDecode([200, 1], 0) == Decoded(100, 2)
    ensures SignedDecode([199, 1], 0) == Decoded(-100, 2)
  {
    assert [] + [200, 1] + [] == [200, 1];
    assert [] + [199, 1] + [] == [199, 1];
    assert SignedEncodeBytes(100) == [200, 1];
    assert SignedEncodeBytes(-100) == [199, 1];
    SignedDecodeEncoded([], 100, []);
    SignedDecodeEncoded([], -100, []);
  }

  /** The same two decodings with `sign` as written, in either build. */
  lemma SignedVectorsAsWritten()
    ensures SignedDecodeChecked([200, 1], 0) == Decoded(100, 2)
    ensures SignedDecodeChecked([199, 1], 0) == Decoded(-100, 2)
    ensures SignedDecodeWrapping([200, 1], 0) == Decoded(100, 2)
    ensures SignedDecodeWrapping([199, 1], 0) == Decoded(-100, 2)
  {
    SignedVectors();
    assert [] + [200, 1] + [] == [200, 1];
    assert [] + [199, 1] + [] == [199, 1];
    assert SignedDecodeChecked([200, 1], 0) == Decoded(100, 2) by {
      SignedDecodeEncodedChecked([], 100, []);
    }
    assert SignedDecodeChecked([199, 1], 0) == Decoded(-100, 2) by {
      SignedDecodeEncodedChecked([], -100, []);
    }
    assert SignedDecodeWrapping([200, 1], 0) == Decoded(100, 2) by {
      SignedDecodeEncodedWrapping([], 100, []);
    }
    assert SignedDecodeWrapping([199, 1], 0) == Decoded(-100, 2) by {
      SignedDecodeEncodedWrapping([], -100, []);
    }
  }
}
