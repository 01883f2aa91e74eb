/**
  The zigzag transform between `i64` and `u64` (`unsign` and `sign` of
  src/lib.rs): 0, -1, 1, -2, 2, ... map to 0, 1, 2, 3, 4, ..., so that values
  of small magnitude get short varints.

  `ZigZagEncode` and `ZigZagDecode` are the transform over unbounded
  integers. `Unsign` and `Sign` follow the source's arithmetic with Rust's
  checked operations (`None` where a debug build panics), and
  `UnsignWrapping` and `SignWrapping` with its wrapping operations (what a
  release build computes).
 */
module ZigZag {
  import opened Arith

  /** Non-negative values to the even codes, negative values to the odd
      codes. */
  function ZigZagEncode(v: i64): u64
  {
    if v >= 0 then 2 * v else -2 * v - 1
  }

  /** Even codes back to the non-negative values, odd codes to the negative
      ones. */
  function ZigZagDecode(u: u64): i64
  {
    if u % 2 == 1 then -((u + 1) / 2) else u / 2
  }

  /** The sign of a value is the parity of its code. */
  lemma ZigZagParity(v: i64)
    ensures ZigZagEncode(v) % 2 == 0 <==> v >= 0
  {
  }

  lemma ZigZagRoundTrip(v: i64)
    ensures ZigZagDecode(ZigZagEncode(v)) == v
  {
  }

  /** Every `u64` is the code of exactly one `i64`: the transform is a
      bijection. */
  lemma ZigZagRoundTripCode(u: u64)
    ensures ZigZagEncode(ZigZagDecode(u)) == u
  {
  }

  lemma ZigZagInjective(a: i64, b: i64)
    requires ZigZagEncode(a) == ZigZagEncode(b)
    ensures a == b
  {
    ZigZagRoundTrip(a);
    ZigZagRoundTrip(b);
  }

  /** The codes below `2m` are exactly those of the values `-m .. m-1`:
      codes grow with magnitude. */
  lemma ZigZagMagnitude(v: i64, m: nat)
    ensures ZigZagEncode(v) < 2 * m <==> -(m as int) <= v < m
  {
  }

  // ---------------------------------------------------------------------
  // unsign (src/lib.rs:64-70)
  // ---------------------------------------------------------------------

  /** The values for which the `i64` products of `unsign` do not overflow. */
  predicate UnsignInRange(v: i64)
  {
    -0x4000_0000_0000_0000 < v < 0x4000_0000_0000_0000
  }

  /** `unsign` with checked arithmetic: `value * 2`, or `value * -2 - 1`,
      in `i64`, then reinterpreted as `u64`. */
  function Unsign(value: i64): (r: Option<u64>)
    ensures r.Some? <==> UnsignInRange(value)
    ensures r.Some? ==> r.value == ZigZagEncode(value)
  {
    if value >= 0 then
      match CheckedI64(value * 2)
      case None => None
      case Some(doubled) => Some(AsU64(doubled))
    else
      match CheckedI64(value * -2)
      case None => None
      case Some(doubled) =>
        match CheckedI64(doubled - 1)
        case None => None
        case Some(code) => Some(AsU64(code))
  }

  /** `unsign` with wrapping arithmetic. */
  function UnsignWrapping(value: i64): (r: u64)
    ensures r == ZigZagEncode(value)
  {
    if value >= 0 then AsU64(WrapI64(value * 2))
    else
      var code := WrapI64(WrapI64(value * -2) - 1);
      UnsignWrappingNegative(value, code);
      AsU64(code)
  }

  lemma UnsignWrappingNegative(value: i64, code: i64)
    requires value < 0
    requires code == WrapI64(WrapI64(value * -2) - 1)
    ensures AsU64(code) == -2 * value - 1
  {
    var d := WrapI64(value * -2);
    ModShift(d, value * -2, -1);
    ModEqual(AsU64(code), -2 * value - 1);
  }

  // ---------------------------------------------------------------------
  // sign (src/lib.rs:74-80)
  // ---------------------------------------------------------------------

  /** `sign` with checked arithmetic: for odd codes `value + 1` in `u64`,
      halved, reinterpreted as `i64` and negated; for even codes the half
      reinterpreted as `i64`. */
  function Sign(value: u64): (r: Option<i64>)
    ensures r.None? <==> value == U64_MAX
    ensures r.Some? ==> r.value == ZigZagDecode(value)
  {
    if value % 2 != 0 then
      match CheckedU64(value + 1)
      case None => None
      case Some(succ) => CheckedI64(-AsI64(succ / 2))
    else
      Some(AsI64(value / 2))
  }

  /** `sign` with wrapping arithmetic: it agrees with the transform on every
      code except `u64::MAX`, where `value + 1` wraps to zero. */
  function SignWrapping(value: u64): (r: i64)
    ensures value != U64_MAX ==> r == ZigZagDecode(value)
    ensures value == U64_MAX ==> r == 0
  {
    if value % 2 != 0 then WrapI64(-AsI64(((value + 1) % TWO_64) / 2))
    else AsI64(value / 2)
  }

  /** On the overflow-free domain `unsign` and `sign` are inverse. */
  lemma CheckedRoundTrip(v: i64)
    requires UnsignInRange(v)
    ensures Unsign(v).Some? && Sign(Unsign(v).value) == Some(v)
  {
    ZigZagRoundTrip(v);
  }

  /** With wrapping arithmetic every value round-trips except `i64::MIN`,
      which comes back as 0. */
  lemma WrappingRoundTrip(v: i64)
    ensures SignWrapping(UnsignWrapping(v)) == (if v == I64_MIN then 0 else v)
  {
    ZigZagRoundTrip(v);
  }

  /** `unsign` as written rejects `2^62`, whose code `2^63` is a `u64`. */
  lemma UnsignOverflows()
    ensures Unsign(0x4000_0000_0000_0000) == None
    ensures ZigZagEncode(0x4000_0000_0000_0000) == 0x8000_0000_0000_0000
  {
  }

  /** `sign` as written cannot give back `i64::MIN`: its code `u64::MAX`
      makes `value + 1` overflow, or wrap to 0. */
  lemma SignLosesMin()
    ensures UnsignWrapping(I64_MIN) == U64_MAX
    ensures Sign(U64_MAX) == None
    ensures SignWrapping(U64_MAX) == 0
    ensures ZigZagDecode(U64_MAX) == I64_MIN
  {
  }
}
