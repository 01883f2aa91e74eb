/**
  The unsigned base-128 varint codec for 64-bit values: `length`, `encode`
  and `decode` of src/lib.rs. The write sink is a byte sequence that encode
  appends to; the read source is a byte sequence with a cursor that decode
  advances.
 */
module Varint {
  import opened Arith
  import opened Bytes

  // ---------------------------------------------------------------------
  // The wire format
  // ---------------------------------------------------------------------

  /** Every byte except the last carries the continuation flag; the last one
      does not. */
  predicate IsVarint(bs: seq<byte>)
  {
    && |bs| >= 1
    && !HasContinuation(bs[|bs| - 1])
    && forall i :: 0 <= i < |bs| - 1 ==> HasContinuation(bs[i])
  }

  /** The number the payload groups of `bs` denote, least significant group
      first, in unbounded arithmetic. */
  function VarintValue(bs: seq<byte>): nat
  {
    if |bs| == 0 then 0 else Payload(bs[0]) + 128 * VarintValue(bs[1..])
  }

  /** Every byte of `bs[lo..hi]` carries the continuation flag. */
  predicate AllContinue(bs: seq<byte>, lo: nat, hi: nat)
    requires lo <= hi <= |bs|
  {
    forall i :: lo <= i < hi ==> HasContinuation(bs[i])
  }

  // ---------------------------------------------------------------------
  // length (src/lib.rs:5-9)
  // ---------------------------------------------------------------------

  /** Number of significant bits of `v`: the position of its highest set
      bit plus one, and 0 for 0. */
  function BitLength(v: nat): (bits: nat)
    ensures bits == 0 <==> v == 0
    ensures bits > 0 ==> Pow2(bits - 1) <= v < Pow2(bits)
    decreases v
  {
    if v == 0 then 0 else 1 + BitLength(v / 2)
  }

  /** `u64::leading_zeros`: the zero bits above the highest set bit of the
      64-bit word. */
  function LeadingZeros(v: u64): (z: nat)
    ensures z <= 64
    ensures z == 64 <==> v == 0
    ensures v > 0 ==> Pow2(63 - z) <= v < Pow2(64 - z)
  {
    WordBitLength(v);
    64 - BitLength(v)
  }

  lemma WordBitLength(v: u64)
    ensures BitLength(v) <= 64
  {
    if BitLength(v) > 64 {
      Pow2Of64();
      Pow2Monotone(64, BitLength(v) - 1);
    }
  }

  /** Bytes needed to encode `value`: the smallest `n >= 1` whose `n` groups
      of seven bits hold `value`. */
  function Length(value: u64): (n: nat)
    ensures 1 <= n <= 10
    ensures value < Pow128(n)
    ensures n == 1 || Pow128(n - 1) <= value
  {
    // Called `zero_len` in the source, this is the count of significant bits.
    var zeroLen := 64 - LeadingZeros(value);
    var offset := if zeroLen == 0 then 7 else 6;
    LengthFormula(value, zeroLen);
    (offset + zeroLen) / 7
  }

  lemma LengthFormula(value: u64, bits: nat)
    requires bits == 64 - LeadingZeros(value)
    ensures var n := ((if bits == 0 then 7 else 6) + bits) / 7;
      && 1 <= n <= 10
      && value < Pow128(n)
      && (n == 1 || Pow128(n - 1) <= value)
  {
    WordBitLength(value);
    assert bits == BitLength(value);
    var n := ((if bits == 0 then 7 else 6) + bits) / 7;
    if bits > 0 {
      assert bits <= 7 * n;
      Pow2Monotone(bits, 7 * n);
      Pow128IsPow2(n);
      if n > 1 {
        assert 7 * (n - 1) <= bits - 1;
        Pow2Monotone(7 * (n - 1), bits - 1);
        Pow128IsPow2(n - 1);
      }
    }
  }

  /** The bounds in the contract of `Length` pin the length down. */
  lemma LengthUnique(value: u64, n: nat)
    requires n >= 1
    requires value < Pow128(n)
    requires n == 1 || Pow128(n - 1) <= value
    ensures Length(value) == n
  {
    var m := Length(value);
    if m < n {
      Pow128Monotone(m, n - 1);
    } else if m > n {
      Pow128Monotone(n, m - 1);
    }
  }

  /** `k` bytes suffice exactly for the values below 128^k. */
  lemma LengthAtMost(value: u64, k: nat)
    requires k >= 1
    ensures Length(value) <= k <==> value < Pow128(k)
  {
    var n := Length(value);
    if n <= k {
      Pow128Monotone(n, k);
    } else {
      Pow128Monotone(k, n - 1);
    }
  }

  // ---------------------------------------------------------------------
  // encode (src/lib.rs:14-24)
  // ---------------------------------------------------------------------

  /** The bytes encode appends for `value`: low group first, continuation
      flag on all but the last. */
  function EncodeBytes(value: u64): seq<byte>
    decreases value
  {
    if value > 127 then [SetContinuation(Truncate(value))] + EncodeBytes(value / 128)
    else [Truncate(value)]
  }

  /** The encoding is a varint and its groups denote `value`. */
  lemma {:induction false} EncodeIsVarint(value: u64)
    ensures IsVarint(EncodeBytes(value))
    ensures VarintValue(EncodeBytes(value)) == value
    decreases value
  {
    var bs := EncodeBytes(value);
    if value > 127 {
      var head, rest := SetContinuation(Truncate(value)), EncodeBytes(value / 128);
      EncodeIsVarint(value / 128);
      assert bs == [head] + rest;
      ConsIsVarint(head, rest);
      PayloadOfTruncate(value);
      assert VarintValue(bs) == value % 128 + 128 * (value / 128) by {
        assert bs[1..] == rest;
      }
    } else {
      assert bs[1..] == [];
    }
  }

  /** A byte with the continuation flag in front of a varint is a varint. */
  lemma ConsIsVarint(head: byte, rest: seq<byte>)
    requires HasContinuation(head)
    requires IsVarint(rest)
    ensures IsVarint([head] + rest)
  {
    var bs := [head] + rest;
    assert forall i :: 1 <= i < |bs| ==> bs[i] == rest[i - 1];
  }

  /** The encoding is minimal: its groups hold `value`, and one group fewer
      would not. */
  lemma {:induction false} EncodeMinimal(value: u64)
    ensures value < Pow128(|EncodeBytes(value)|)
    ensures |EncodeBytes(value)| == 1 || Pow128(|EncodeBytes(value)| - 1) <= value
    decreases value
  {
    if value > 127 {
      var m := |EncodeBytes(value / 128)|;
      EncodeMinimal(value / 128);
      assert |EncodeBytes(value)| == m + 1;
      assert Pow128(m + 1) == 128 * Pow128(m);
      assert value < 128 * Pow128(m);
      if m > 1 {
        assert Pow128(m) == 128 * Pow128(m - 1);
      }
    }
  }

  /** The bytes appended are exactly as many as `length` predicts. */
  lemma EncodeLength(value: u64)
    ensures |EncodeBytes(value)| == Length(value)
  {
    EncodeMinimal(value);
    LengthUnique(value, |EncodeBytes(value)|);
  }

  /** The low seven bits of byte `i` are bits `7i .. 7i+6` of the value. */
  lemma {:induction false} EncodeGroups(value: u64, i: nat)
    requires i < |EncodeBytes(value)|
    ensures Payload(EncodeBytes(value)[i]) == (value / Pow128(i)) % 128
    decreases value
  {
    var bs := EncodeBytes(value);
    if i == 0 {
      PayloadOfTruncate(value);
      assert Pow128(0) == 1;
    } else {
      var rest := EncodeBytes(value / 128);
      assert bs[i] == rest[i - 1];
      EncodeGroups(value / 128, i - 1);
      DivDiv128(value, Pow128(i - 1));
      assert Pow128(i) == 128 * Pow128(i - 1);
    }
  }

  /** No encoding ends in an all-zero group, except the single byte of 0. */
  lemma {:induction false} EncodeCanonical(value: u64)
    ensures var bs := EncodeBytes(value); |bs| > 1 ==> bs[|bs| - 1] != 0
    decreases value
  {
    if value > 127 {
      EncodeCanonical(value / 128);
    }
  }

  /** Only the last group of an encoding is kept non-zero: a middle group
      can be zero. */
  lemma EncodeZeroGroup()
    ensures EncodeBytes(16384) == [0x80, 0x80, 0x01]
    ensures Payload(EncodeBytes(16384)[1]) == 0
  {
  }

  /** Some payload is at least that of the last byte. */
  lemma {:induction false} VarintValueAtLeastLast(bs: seq<byte>)
    requires |bs| >= 1
    ensures VarintValue(bs) >= Payload(bs[|bs| - 1])
    decreases |bs|
  {
    if |bs| > 1 {
      VarintValueAtLeastLast(bs[1..]);
    }
  }

  /** Dropping the first byte of a canonical varint of two or more bytes
      leaves a canonical varint worth the value divided by 128. */
  lemma CanonicalTail(bs: seq<byte>)
    requires IsVarint(bs) && |bs| > 1 && bs[|bs| - 1] != 0
    ensures IsVarint(bs[1..])
    ensures bs[1..][|bs| - 2] != 0
    ensures VarintValue(bs[1..]) >= 1
    ensures VarintValue(bs) / 128 == VarintValue(bs[1..])
    ensures VarintValue(bs) % 128 == Payload(bs[0])
    ensures HasContinuation(bs[0])
  {
    var tail := bs[1..];
    assert forall i :: 0 <= i < |tail| ==> tail[i] == bs[i + 1];
    VarintValueAtLeastLast(tail);
  }

  /** Every canonical varint of a 64-bit value is the encoding of that value:
      encoding is the unique canonical representation. */
  lemma {:induction false} CanonicalIsEncoding(bs: seq<byte>)
    requires IsVarint(bs)
    requires |bs| == 1 || bs[|bs| - 1] != 0
    requires VarintValue(bs) < TWO_64
    ensures bs == EncodeBytes(VarintValue(bs))
    decreases |bs|
  {
    var v := VarintValue(bs);
    if |bs| > 1 {
      var tail := bs[1..];
      CanonicalTail(bs);
      CanonicalIsEncoding(tail);
      FlaggedByteOfPayload(v, bs[0]);
      assert EncodeBytes(v) == [bs[0]] + tail;
    }
  }

  /** Different values have different encodings. */
  lemma EncodeInjective(a: u64, b: u64)
    requires EncodeBytes(a) == EncodeBytes(b)
    ensures a == b
  {
    EncodeIsVarint(a);
    EncodeIsVarint(b);
  }

  /** `encode`: appends the varint of `value` to `sink` and returns how many
      bytes it wrote. */
  method Encode(value: u64, sink: seq<byte>) returns (written: nat, out: seq<byte>)
    ensures out == sink + EncodeBytes(value)
    ensures written == |out| - |sink| == Length(value)
  {
    var val := value;
    written := 1;
    out := sink;
    while val > 127
      invariant out + EncodeBytes(val) == sink + EncodeBytes(value)
      invariant written == |out| - |sink| + 1
      decreases val
    {
      out := out + [SetContinuation(Truncate(val))];
      val := val / 128;
      written := written + 1;
    }
    out := out + [Truncate(val)];
    EncodeLength(value);
  }

  // ---------------------------------------------------------------------
  // decode (src/lib.rs:28-41)
  // ---------------------------------------------------------------------

  /** Why decode stops without a value: the source ran out before a byte
      without the continuation flag (`get_u8` on an empty buffer), or the
      checked `u64` arithmetic of the accumulation overflowed. */
  datatype DecodeError = BufferUnderflow | ArithmeticOverflow

  /** A decoded value and the cursor just past its last byte, or the reason
      decoding stopped. */
  datatype DecodeResult<T> = Decoded(value: T, next: nat) | Failed(error: DecodeError)

  /** One turn of decode's loop per call: `val` and `fac` are its two
      accumulators. `fac <<= 7` discards the bits shifted out. */
  function DecodeFrom(buf: seq<byte>, pos: nat, val: u64, fac: u64): DecodeResult<u64>
    requires pos <= |buf|
    decreases |buf| - pos
  {
    if pos == |buf| then Failed(BufferUnderflow)
    else
      var b := buf[pos];
      var term := fac * Payload(b);
      if term > U64_MAX || val + term > U64_MAX then Failed(ArithmeticOverflow)
      else
        var val' := val + term;
        var fac' := (fac * 128) % TWO_64;
        if !HasContinuation(b) then Decoded(val', pos + 1)
        else DecodeFrom(buf, pos + 1, val', fac')
  }

  /** The accumulation overflows exactly when a tenth byte is reached through
      nine continuation bytes and its payload is 2 or more: its weight is
      2^63, and every later weight has been shifted out to zero. */
  predicate OverflowsAt(buf: seq<byte>, pos: nat)
  {
    && pos + 9 < |buf|
    && AllContinue(buf, pos, pos + 9)
    && Payload(buf[pos + 9]) >= 2
  }

  /** The bytes from `pos` up to `next` whose groups still carry weight when
      they are decoded: the first ten at most, because the weight of an
      eleventh group has been shifted out of `fac`. */
  function Significant(buf: seq<byte>, pos: nat, next: nat): (bs: seq<byte>)
    requires pos <= next <= |buf|
    ensures |bs| <= 10
    ensures bs <= buf[pos..next]
  {
    if next - pos <= 10 then buf[pos..next] else buf[pos..pos + 10]
  }

  /** `decode` reading from `buf` at cursor `pos`; `DecodeOutcome` states
      what it returns. */
  function Decode(buf: seq<byte>, pos: nat): DecodeResult<u64>
    requires pos <= |buf|
  {
    DecodeFrom(buf, pos, 0, 1)
  }

  /** Decode fails with an overflow exactly on a tenth payload of 2 or more
      after nine continuation bytes, runs out of input exactly when every
      remaining byte carries the continuation flag, and otherwise returns
      the value of the varint's significant bytes and the cursor just past
      its terminating byte. */
  lemma DecodeOutcome(buf: seq<byte>, pos: nat)
    requires pos <= |buf|
    ensures var r := Decode(buf, pos);
      && (r == Failed(ArithmeticOverflow) <==> OverflowsAt(buf, pos))
      && (r == Failed(BufferUnderflow) <==> !OverflowsAt(buf, pos) && AllContinue(buf, pos, |buf|))
      && (r.Decoded? <==> !OverflowsAt(buf, pos) && !AllContinue(buf, pos, |buf|))
    ensures var r := Decode(buf, pos);
      r.Decoded? ==>
        && pos < r.next <= |buf|
        && !HasContinuation(buf[r.next - 1])
        && AllContinue(buf, pos, r.next - 1)
        && r.value == VarintValue(Significant(buf, pos, r.next))
  {
    assert buf[pos..pos] == [];
    assert AccumulatorsAfter(buf, pos, pos, 0, 1);
    DecodeFromOutcome(buf, pos, pos, 0, 1);
    DecodeFromValue(buf, pos, pos, 0, 1);
    var r := Decode(buf, pos);
    assert r.Failed? ==> r.error == ArithmeticOverflow || r.error == BufferUnderflow;
  }

  lemma {:induction false} VarintValueSnoc(bs: seq<byte>, b: byte)
    ensures VarintValue(bs + [b]) == VarintValue(bs) + Pow128(|bs|) * Payload(b)
    decreases |bs|
  {
    if |bs| > 0 {
      var tail := bs[1..];
      assert (bs + [b])[1..] == tail + [b];
      VarintValueSnoc(tail, b);
      var w, p := Pow128(|tail|), Payload(b);
      assert VarintValue(bs + [b]) == Payload(bs[0]) + 128 * (VarintValue(tail) + w * p);
      MulAssoc128(w, p);
    }
  }

  lemma {:induction false} VarintValueBound(bs: seq<byte>)
    ensures VarintValue(bs) < Pow128(|bs|)
    decreases |bs|
  {
    if |bs| > 0 {
      VarintValueBound(bs[1..]);
    }
  }

  /** The weight `fac` of the group after `k` bytes: exact for the first
      ten groups (`k <= 9`, the tenth weighing 2^63), shifted out to zero
      from the eleventh on (`k >= 10`). */
  function WrappedWeight(k: nat): (w: u64)
    ensures w == Pow128(k) % TWO_64
  {
    Pow128Wrapped(k);
    if k <= 9 then Pow128(k) else 0
  }

  /** What one turn of the loop does to the accumulators when `k` bytes have
      been read: the checked multiply-and-add fails only on the tenth byte
      with a payload of 2 or more. */
  lemma DecodeStepOverflow(k: nat, val: u64, fac: u64, p: nat)
    requires p < 128
    requires k <= 9 ==> fac == Pow128(k) && val < Pow128(k)
    requires k >= 10 ==> fac == 0
    ensures (fac * p > U64_MAX || val + fac * p > U64_MAX) <==> (k == 9 && p >= 2)
  {
    Pow128Top();
    if k <= 8 {
      Pow128Monotone(k, 8);
      MulLe(fac, p, 127);
      assert Pow128(8) == 0x100_0000_0000_0000;
    } else if k == 9 {
      assert fac == 0x8000_0000_0000_0000;
    }
  }

  /** `fac <<= 7` moves the weight to the next group. */
  lemma ShiftWeight(k: nat)
    ensures (WrappedWeight(k) * 128) % TWO_64 == WrappedWeight(k + 1)
  {
    Pow128Top();
    if k <= 8 {
      Pow128Wrapped(k + 1);
    }
  }

  /** The loop's accumulators after the bytes from `start` up to `pos`:
      `fac` is the weight of the next group and `val` the value of the
      groups that still carry weight, and a tenth byte, if passed, did not
      overflow. */
  predicate AccumulatorsAfter(buf: seq<byte>, start: nat, pos: nat, val: u64, fac: u64)
    requires start <= pos <= |buf|
  {
    && fac == WrappedWeight(pos - start)
    && val == VarintValue(Significant(buf, start, pos))
    && (pos - start >= 10 ==> Payload(buf[start + 9]) < 2)
  }

  /** Adding a group with weight to the value read so far gives the value of
      the longer prefix. */
  lemma AccumulateGroup(buf: seq<byte>, start: nat, pos: nat)
    requires start <= pos < |buf|
    requires pos - start <= 9
    ensures VarintValue(Significant(buf, start, pos + 1))
      == VarintValue(Significant(buf, start, pos)) + Pow128(pos - start) * Payload(buf[pos])
  {
    var prefix := buf[start..pos];
    assert Significant(buf, start, pos) == prefix;
    assert Significant(buf, start, pos + 1) == prefix + [buf[pos]];
    VarintValueSnoc(prefix, buf[pos]);
  }

  /** Past the tenth byte a group adds nothing. */
  lemma SignificantSaturates(buf: seq<byte>, start: nat, pos: nat)
    requires start <= pos < |buf|
    requires pos - start >= 10
    ensures Significant(buf, start, pos + 1) == Significant(buf, start, pos)
  {
  }

  /** One turn of the loop either overflows (tenth byte, payload 2 or more)
      or advances the accumulators to the next byte position. */
  lemma DecodeStep(buf: seq<byte>, start: nat, pos: nat, val: u64, fac: u64)
    requires start <= pos < |buf|
    requires AccumulatorsAfter(buf, start, pos, val, fac)
    ensures var p := Payload(buf[pos]);
      (fac * p > U64_MAX || val + fac * p > U64_MAX) <==> (pos - start == 9 && p >= 2)
    ensures var p := Payload(buf[pos]);
      !(pos - start == 9 && p >= 2) ==>
        AccumulatorsAfter(buf, start, pos + 1, val + fac * p, (fac * 128) % TWO_64)
  {
    var k := pos - start;
    var p := Payload(buf[pos]);
    if k <= 9 {
      VarintValueBound(Significant(buf, start, pos));
    }
    DecodeStepOverflow(k, val, fac, p);
    if !(k == 9 && p >= 2) {
      ShiftWeight(k);
      if k <= 9 {
        AccumulateGroup(buf, start, pos);
      } else {
        SignificantSaturates(buf, start, pos);
      }
    }
  }

  /** Which way decoding from the accumulators at `pos` ends. */
  lemma {:induction false} DecodeFromOutcome(buf: seq<byte>, start: nat, pos: nat, val: u64, fac: u64)
    requires start <= pos <= |buf|
    requires AllContinue(buf, start, pos)
    requires AccumulatorsAfter(buf, start, pos, val, fac)
    ensures DecodeFrom(buf, pos, val, fac) == Failed(ArithmeticOverflow) <==> OverflowsAt(buf, start)
    ensures DecodeFrom(buf, pos, val, fac) == Failed(BufferUnderflow)
      <==> !OverflowsAt(buf, start) && AllContinue(buf, start, |buf|)
    decreases |buf| - pos
  {
    if pos < |buf| {
      var b := buf[pos];
      var p := Payload(b);
      DecodeStep(buf, start, pos, val, fac);
      if pos - start == 9 && p >= 2 {
        assert DecodeFrom(buf, pos, val, fac) == Failed(ArithmeticOverflow);
        assert OverflowsAt(buf, start);
      } else {
        var val', fac' := val + fac * p, (fac * 128) % TWO_64;
        if HasContinuation(b) {
          assert DecodeFrom(buf, pos, val, fac) == DecodeFrom(buf, pos + 1, val', fac');
          DecodeFromOutcome(buf, start, pos + 1, val', fac');
        } else {
          assert DecodeFrom(buf, pos, val, fac) == Decoded(val', pos + 1);
          Terminated(buf, start, pos);
        }
      }
    }
  }

  /** Where decoding from the accumulators at `pos` stops when it returns a
      value, and what that value is. */
  lemma {:induction false} DecodeFromValue(buf: seq<byte>, start: nat, pos: nat, val: u64, fac: u64)
    requires start <= pos <= |buf|
    requires AllContinue(buf, start, pos)
    requires AccumulatorsAfter(buf, start, pos, val, fac)
    ensures var r := DecodeFrom(buf, pos, val, fac);
      r.Decoded? ==>
        && pos < r.next <= |buf|
        && !HasContinuation(buf[r.next - 1])
        && AllContinue(buf, start, r.next - 1)
        && r.value == VarintValue(Significant(buf, start, r.next))
    decreases |buf| - pos
  {
    if pos < |buf| {
      var b := buf[pos];
      var p := Payload(b);
      DecodeStep(buf, start, pos, val, fac);
      if !(pos - start == 9 && p >= 2) {
        var val', fac' := val + fac * p, (fac * 128) % TWO_64;
        if HasContinuation(b) {
          assert DecodeFrom(buf, pos, val, fac) == DecodeFrom(buf, pos + 1, val', fac');
          DecodeFromValue(buf, start, pos + 1, val', fac');
        } else {
          assert DecodeFrom(buf, pos, val, fac) == Decoded(val', pos + 1);
        }
      }
    }
  }

  /** A byte without the continuation flag at or before the tenth position
      rules out the overflow, and with it the underflow. */
  lemma Terminated(buf: seq<byte>, start: nat, pos: nat)
    requires start <= pos < |buf|
    requires !HasContinuation(buf[pos])
    requires pos - start >= 9 ==> Payload(buf[start + 9]) < 2
    requires AllContinue(buf, start, pos)
    ensures !OverflowsAt(buf, start)
    ensures !AllContinue(buf, start, |buf|)
  {
    if pos - start < 9 && start + 9 < |buf| {
      assert !AllContinue(buf, start, start + 9);
    }
  }

  /** `decode` written as the source's loop, reading one byte per turn. */
  method DecodeLoop(buf: seq<byte>, pos: nat) returns (r: DecodeResult<u64>)
    requires pos <= |buf|
    ensures r == Decode(buf, pos)
  {
    var val: u64 := 0;
    var fac: u64 := 1;
    var cursor := pos;
    while true
      invariant pos <= cursor <= |buf|
      invariant DecodeFrom(buf, cursor, val, fac) == DecodeFrom(buf, pos, 0, 1)
      decreases |buf| - cursor
    {
      if cursor == |buf| {
        return Failed(BufferUnderflow);
      }
      var b := buf[cursor];
      var term := fac * Payload(b);
      if term > U64_MAX || val + term > U64_MAX {
        return Failed(ArithmeticOverflow);
      }
      val := val + term;
      fac := (fac * 128) % TWO_64;
      cursor := cursor + 1;
      if !HasContinuation(b) {
        return Decoded(val, cursor);
      }
    }
  }

  // ---------------------------------------------------------------------
  // decode with wrapping arithmetic (src/lib.rs:34 in a release build)
  // ---------------------------------------------------------------------

  /** One turn of decode's loop with wrapping arithmetic: `fac * payload`
      and the addition to `val` are each reduced modulo 2^64 where the
      checked build fails. */
  function DecodeWrappingFrom(buf: seq<byte>, pos: nat, val: u64, fac: u64): DecodeResult<u64>
    requires pos <= |buf|
    decreases |buf| - pos
  {
    if pos == |buf| then Failed(BufferUnderflow)
    else
      var b := buf[pos];
      var val' := (val + (fac * Payload(b)) % TWO_64) % TWO_64;
      var fac' := (fac * 128) % TWO_64;
      if !HasContinuation(b) then Decoded(val', pos + 1)
      else DecodeWrappingFrom(buf, pos + 1, val', fac')
  }

  /** `decode` as a release build computes it; `DecodeWrappingOutcome`
      states what it returns. */
  function DecodeWrapping(buf: seq<byte>, pos: nat): DecodeResult<u64>
    requires pos <= |buf|
  {
    DecodeWrappingFrom(buf, pos, 0, 1)
  }

  /** The accumulators of the wrapping loop after the bytes from `start` up
      to `pos`: the weight of the next group, and the value of the groups
      that carry weight reduced modulo 2^64. */
  predicate WrappedAccumulatorsAfter(buf: seq<byte>, start: nat, pos: nat, val: u64, fac: u64)
    requires start <= pos <= |buf|
  {
    && fac == WrappedWeight(pos - start)
    && val == VarintValue(Significant(buf, start, pos)) % TWO_64
  }

  /** One turn of the wrapping loop keeps its accumulators in step. */
  lemma DecodeWrappingStep(buf: seq<byte>, start: nat, pos: nat, val: u64, fac: u64)
    requires start <= pos < |buf|
    requires WrappedAccumulatorsAfter(buf, start, pos, val, fac)
    ensures var p := Payload(buf[pos]);
      WrappedAccumulatorsAfter(buf, start, pos + 1, (val + (fac * p) % TWO_64) % TWO_64, (fac * 128) % TWO_64)
  {
    var k := pos - start;
    var p := Payload(buf[pos]);
    ShiftWeight(k);
    if k <= 9 {
      AccumulateGroup(buf, start, pos);
      WrappedMulAdd(VarintValue(Significant(buf, start, pos)), val, fac * p);
    } else {
      SignificantSaturates(buf, start, pos);
    }
  }

  /** From any point of the wrapping loop, whatever its accumulators: the
      run runs out of input exactly when every remaining byte carries the
      continuation flag, never fails otherwise, and stops just past the
      first terminating byte. */
  lemma {:induction false} DecodeWrappingFromStops(buf: seq<byte>, start: nat, pos: nat, val: u64, fac: u64)
    requires start <= pos <= |buf|
    requires AllContinue(buf, start, pos)
    ensures var r := DecodeWrappingFrom(buf, pos, val, fac);
      && (r.Failed? <==> AllContinue(buf, start, |buf|))
      && (r.Failed? ==> r.error == BufferUnderflow)
    ensures var r := DecodeWrappingFrom(buf, pos, val, fac);
      r.Decoded? ==>
        && pos < r.next <= |buf|
        && !HasContinuation(buf[r.next - 1])
        && AllContinue(buf, start, r.next - 1)
    decreases |buf| - pos
  {
    if pos < |buf| {
      var b := buf[pos];
      var val', fac' := (val + (fac * Payload(b)) % TWO_64) % TWO_64, (fac * 128) % TWO_64;
      if HasContinuation(b) {
        assert DecodeWrappingFrom(buf, pos, val, fac) == DecodeWrappingFrom(buf, pos + 1, val', fac');
        DecodeWrappingFromStops(buf, start, pos + 1, val', fac');
      } else {
        assert DecodeWrappingFrom(buf, pos, val, fac) == Decoded(val', pos + 1);
        assert !AllContinue(buf, start, |buf|);
      }
    }
  }

  /** From any point of the wrapping loop, a value it returns is that of
      the significant groups modulo 2^64. */
  lemma {:induction false} DecodeWrappingFromValue(buf: seq<byte>, start: nat, pos: nat, val: u64, fac: u64)
    requires start <= pos <= |buf|
    requires WrappedAccumulatorsAfter(buf, start, pos, val, fac)
    ensures var r := DecodeWrappingFrom(buf, pos, val, fac);
      r.Decoded? ==> pos < r.next <= |buf| && r.value == VarintValue(Significant(buf, start, r.next)) % TWO_64
    decreases |buf| - pos
  {
    if pos < |buf| {
      var b := buf[pos];
      var val', fac' := (val + (fac * Payload(b)) % TWO_64) % TWO_64, (fac * 128) % TWO_64;
      DecodeWrappingStep(buf, start, pos, val, fac);
      if HasContinuation(b) {
        assert DecodeWrappingFrom(buf, pos, val, fac) == DecodeWrappingFrom(buf, pos + 1, val', fac');
        DecodeWrappingFromValue(buf, start, pos + 1, val', fac');
      } else {
        assert DecodeWrappingFrom(buf, pos, val, fac) == Decoded(val', pos + 1);
      }
    }
  }

  /** A release build's decode never reports an overflow: it runs out of
      input exactly when every remaining byte carries the continuation flag,
      and otherwise returns the value of the significant groups modulo 2^64
      with the cursor just past the terminating byte. */
  lemma DecodeWrappingOutcome(buf: seq<byte>, pos: nat)
    requires pos <= |buf|
    ensures var r := DecodeWrapping(buf, pos);
      && (r.Failed? <==> AllContinue(buf, pos, |buf|))
      && (r.Failed? ==> r.error == BufferUnderflow)
    ensures var r := DecodeWrapping(buf, pos);
      r.Decoded? ==>
        && pos < r.next <= |buf|
        && !HasContinuation(buf[r.next - 1])
        && AllContinue(buf, pos, r.next - 1)
        && r.value == VarintValue(Significant(buf, pos, r.next)) % TWO_64
  {
    assert buf[pos..pos] == [];
    assert WrappedAccumulatorsAfter(buf, pos, pos, 0, 1);
    DecodeWrappingFromStops(buf, pos, pos, 0, 1);
    DecodeWrappingFromValue(buf, pos, pos, 0, 1);
  }

  /** The two builds agree wherever the checked accumulation does not
      overflow, and on such inputs the release build's result is the
      checked build's. */
  lemma DecodeWrappingAgrees(buf: seq<byte>, pos: nat)
    requires pos <= |buf|
    ensures !OverflowsAt(buf, pos) <==> DecodeWrapping(buf, pos) == Decode(buf, pos)
  {
    DecodeOutcome(buf, pos);
    DecodeWrappingOutcome(buf, pos);
    var c, w := Decode(buf, pos), DecodeWrapping(buf, pos);
    if !OverflowsAt(buf, pos) && c.Decoded? {
      assert w.Decoded?;
      assert w.next == c.next;
    }
  }

  // ---------------------------------------------------------------------
  // Round trip
  // ---------------------------------------------------------------------

  /** A tenth byte, if an encoding has one, carries bit 63 alone. */
  lemma TenthGroup(value: u64)
    requires |EncodeBytes(value)| == 10
    ensures Payload(EncodeBytes(value)[9]) < 2
  {
    EncodeGroups(value, 9);
    Pow128Top();
    assert value / 0x8000_0000_0000_0000 < 2;
  }

  /** On an encoding, the accumulation at src/lib.rs:34 never overflows: an
      encoding has at most ten bytes and its tenth payload is at most 1. */
  lemma EncodingNeverOverflows(buf: seq<byte>, pos: nat, value: u64)
    requires pos + |EncodeBytes(value)| <= |buf|
    requires buf[pos..pos + |EncodeBytes(value)|] == EncodeBytes(value)
    ensures !OverflowsAt(buf, pos)
  {
    var enc := EncodeBytes(value);
    var n := |enc|;
    EncodeLength(value);
    EncodeIsVarint(value);
    if n < 10 {
      var last := pos + n - 1;
      assert buf[last] == enc[n - 1];
      assert pos + 9 < |buf| ==> !AllContinue(buf, pos, pos + 9);
    } else {
      assert buf[pos + 9] == enc[9];
      TenthGroup(value);
    }
  }

  /** Decoding at a cursor where an encoding starts returns its value and
      moves the cursor just past it. */
  lemma DecodeAtEncoding(buf: seq<byte>, pos: nat, value: u64)
    requires pos + |EncodeBytes(value)| <= |buf|
    requires buf[pos..pos + |EncodeBytes(value)|] == EncodeBytes(value)
    ensures Decode(buf, pos) == Decoded(value, pos + |EncodeBytes(value)|)
  {
    var enc := EncodeBytes(value);
    var n := |enc|;
    var last := pos + n - 1;
    EncodeIsVarint(value);
    assert buf[last] == enc[n - 1];
    assert forall j :: pos <= j < last ==> buf[j] == enc[j - pos];
    EncodingNeverOverflows(buf, pos, value);
    assert !AllContinue(buf, pos, |buf|);
    DecodeOutcome(buf, pos);
    var r := Decode(buf, pos);
    assert r.next - 1 >= last by {
      assert AllContinue(buf, pos, last);
    }
    assert r.next - 1 <= last;
    EncodeLength(value);
    assert Significant(buf, pos, r.next) == enc;
  }

  /** Decoding at the start of an encoding returns the value and leaves the
      cursor just past it, whatever precedes or follows it in the buffer. */
  lemma DecodeEncoded(prefix: seq<byte>, value: u64, rest: seq<byte>)
    ensures var buf := prefix + EncodeBytes(value) + rest;
      Decode(buf, |prefix|) == Decoded(value, |prefix| + |EncodeBytes(value)|)
  {
    var enc := EncodeBytes(value);
    var buf := prefix + enc + rest;
    MiddleSlice(prefix, enc, rest);
    DecodeAtEncoding(buf, |prefix|, value);
  }

  lemma MiddleSlice(x: seq<byte>, y: seq<byte>, z: seq<byte>)
    ensures (x + y + z)[|x|..|x| + |y|] == y
  {
  }

  lemma ConcatSlices(x: seq<byte>, y: seq<byte>)
    ensures (x + y)[0..|x|] == x
    ensures (x + y)[|x|..|x| + |y|] == y
  {
  }

  /** Two values encoded back to back decode in order. */
  lemma DecodeConsecutive(a: u64, b: u64)
    ensures var buf := EncodeBytes(a) + EncodeBytes(b);
      && Decode(buf, 0) == Decoded(a, |EncodeBytes(a)|)
      && Decode(buf, |EncodeBytes(a)|) == Decoded(b, |buf|)
  {
    var ea, eb := EncodeBytes(a), EncodeBytes(b);
    var buf := ea + eb;
    assert Decode(buf, 0) == Decoded(a, |ea|) by {
      ConcatSlices(ea, eb);
      DecodeAtEncoding(buf, 0, a);
    }
    assert Decode(buf, |ea|) == Decoded(b, |buf|) by {
      ConcatSlices(ea, eb);
      DecodeAtEncoding(buf, |ea|, b);
    }
  }
}
