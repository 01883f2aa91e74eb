/**
  Bytes and the three bit operations the codec applies to them: the 7-bit
  payload mask `& 127`, the continuation flag `& 128`, and setting that flag
  with `| 128`. Bytes are integers in 0..255; the lemma at the end shows each
  operation agrees with the corresponding operation on 8-bit vectors.
 */
module Bytes {
  import opened Arith

  type byte = x: int | 0 <= x < 256

  /** `value as u8`: keeps the low eight bits. */
  function Truncate(value: nat): (b: byte)
    ensures b == value <==> value < 256
  {
    value % 256
  }

  /** `byte & 127`: the seven payload bits. */
  function Payload(b: byte): nat
  {
    b % 128
  }

  /** `byte & 128 != 0`: more bytes of the same varint follow. */
  predicate HasContinuation(b: byte)
  {
    b >= 128
  }

  /** `byte | 128`: sets the continuation flag and keeps the payload. */
  function SetContinuation(b: byte): (c: byte)
    ensures HasContinuation(c)
    ensures Payload(c) == Payload(b)
  {
    if b >= 128 then b else b + 128
  }

  /** The payload of `v as u8` is the low seven bits of `v`. */
  lemma PayloadOfTruncate(v: nat)
    ensures Payload(Truncate(v)) == v % 128
  {
    var r := v % 256;
    DivUnique(v, 128, 2 * (v / 256) + r / 128, r % 128);
  }

  /** A byte with the continuation flag is determined by its payload: it is
      `(v as u8) | 128` for every `v` with that payload. */
  lemma FlaggedByteOfPayload(v: nat, b: byte)
    requires HasContinuation(b)
    requires v % 128 == Payload(b)
    ensures SetContinuation(Truncate(v)) == b
  {
    var r := v % 256;
    DivUnique(v, 128, 2 * (v / 256) + r / 128, r % 128);
  }

  lemma MasksAgreeWithBits(b: bv8)
    ensures (b & 0x7F) as int == Payload(b as int)
    ensures (b & 0x80 != 0) == HasContinuation(b as int)
    ensures (b | 0x80) as int == SetContinuation(b as int)
  {
  }
}
