/**
  Machine integer widths of the codec and the powers its positional
  arithmetic is built on. Every integer is unbounded here; the widths
  are subset types and wrap-around is written out where it happens.
 */
module Arith {

  const TWO_64: nat := 0x1_0000_0000_0000_0000
  const U64_MAX: nat := 0xFFFF_FFFF_FFFF_FFFF
  const I64_MIN: int := -0x8000_0000_0000_0000
  const I64_MAX: int := 0x7FFF_FFFF_FFFF_FFFF

  /** Rust's `u64`. */
  type u64 = x: int | 0 <= x < 0x1_0000_0000_0000_0000

  /** Rust's `i64`. */
  type i64 = x: int | -0x8000_0000_0000_0000 <= x < 0x8000_0000_0000_0000

  /** The outcome of a checked operation: `None` where Rust's checked
      arithmetic panics. */
  datatype Option<T> = None | Some(value: T)

  /** Checked `i64` arithmetic: the exact result when it fits, else `None`. */
  function CheckedI64(x: int): (r: Option<i64>)
    ensures r.Some? <==> I64_MIN <= x <= I64_MAX
    ensures r.Some? ==> r.value == x
  {
    if I64_MIN <= x <= I64_MAX then Some(x) else None
  }

  /** Checked `u64` arithmetic: the exact result when it fits, else `None`. */
  function CheckedU64(x: int): (r: Option<u64>)
    ensures r.Some? <==> 0 <= x <= U64_MAX
    ensures r.Some? ==> r.value == x
  {
    if 0 <= x <= U64_MAX then Some(x) else None
  }

  /** Wrapping `i64` arithmetic: the two's-complement value of the low 64
      bits of the exact result. */
  function WrapI64(x: int): (r: i64)
    ensures r % TWO_64 == x % TWO_64
    ensures I64_MIN <= x <= I64_MAX ==> r == x
  {
    var m := x % TWO_64;
    WrapFacts(x);
    if m <= I64_MAX then m else m - TWO_64
  }

  lemma WrapFacts(x: int)
    ensures (x % TWO_64 - TWO_64) % TWO_64 == x % TWO_64
    ensures 0 <= x <= I64_MAX ==> x % TWO_64 == x
    ensures I64_MIN <= x < 0 ==> x % TWO_64 == x + TWO_64
  {
    ModAddMultiple(x % TWO_64, -1);
    if I64_MIN <= x < 0 {
      DivUnique(x, TWO_64, -1, x + TWO_64);
    }
  }

  /** `x as u64` for an `i64`: reinterprets the same 64 bits. */
  function AsU64(x: i64): (r: u64)
    ensures r % TWO_64 == x % TWO_64
    ensures x >= 0 ==> r == x
  {
    if x >= 0 then x
    else
      ModAddMultiple(x, 1);
      x + TWO_64
  }

  /** `x as i64` for a `u64`: reinterprets the same 64 bits. */
  function AsI64(x: u64): (r: i64)
    ensures r % TWO_64 == x
    ensures x <= I64_MAX ==> r == x
  {
    WrapI64(x)
  }

  function Pow2(k: nat): (r: nat)
    ensures r > 0
  {
    if k == 0 then 1 else 2 * Pow2(k - 1)
  }

  /** Positional weight of the `k`-th 7-bit group of a varint. */
  function Pow128(k: nat): (r: nat)
    ensures r > 0
  {
    if k == 0 then 1 else 128 * Pow128(k - 1)
  }

  lemma {:induction false} Pow2Add(a: nat, b: nat)
    ensures Pow2(a + b) == Pow2(a) * Pow2(b)
    decreases b
  {
    if b > 0 {
      Pow2Add(a, b - 1);
      assert Pow2(a + b) == 2 * Pow2(a + b - 1);
    }
  }

  lemma {:induction false} Pow2Monotone(a: nat, b: nat)
    requires a <= b
    ensures Pow2(a) <= Pow2(b)
    decreases b
  {
    if a < b {
      Pow2Monotone(a, b - 1);
    }
  }

  /** A group weight is the power of two seven bits further up. */
  lemma {:induction false} Pow128IsPow2(k: nat)
    ensures Pow128(k) == Pow2(7 * k)
    decreases k
  {
    if k > 0 {
      Pow128IsPow2(k - 1);
      Pow2Add(7 * (k - 1), 7);
      assert Pow2(7) == 128;
    }
  }

  lemma {:induction false} Pow128Strict(a: nat, b: nat)
    requires a < b
    ensures Pow128(a) < Pow128(b)
    decreases b
  {
    if a < b - 1 {
      Pow128Strict(a, b - 1);
    }
  }

  lemma Pow128Monotone(a: nat, b: nat)
    requires a <= b
    ensures Pow128(a) <= Pow128(b)
  {
    if a < b {
      Pow128Strict(a, b);
    }
  }

  lemma Pow2Of64()
    ensures Pow2(64) == TWO_64
  {
    assert Pow2(8) == 256;
    Pow2Add(8, 8);
    assert Pow2(16) == 0x1_0000;
    Pow2Add(16, 16);
    assert Pow2(32) == 0x1_0000_0000;
    Pow2Add(32, 32);
  }

  /** Seven and eight groups fill 49 and 56 bits, nine groups fill 63 bits;
      a tenth weight is past the top of a `u64`. */
  lemma Pow128Top()
    ensures Pow128(7) == 0x2_0000_0000_0000
    ensures Pow128(8) == 0x100_0000_0000_0000
    ensures Pow128(9) == 0x8000_0000_0000_0000
    ensures Pow128(10) == 64 * TWO_64
  {
    Pow128IsPow2(9);
    Pow128IsPow2(10);
    Pow2Add(63, 1);
    Pow2Add(64, 6);
    Pow2Of64();
    assert Pow2(6) == 64;
  }

  /** The weight of a group is a `u64` exactly for the first ten groups,
      `k <= 9` (shifting `1` left by `7 * k` keeps its bit), and wraps to
      zero from the eleventh group on, `k >= 10` (the bit has been shifted
      out). */
  lemma {:induction false} Pow128Wrapped(k: nat)
    ensures k <= 9 ==> Pow128(k) <= 0x8000_0000_0000_0000 && Pow128(k) % TWO_64 == Pow128(k)
    ensures k >= 10 ==> Pow128(k) % TWO_64 == 0
    decreases k
  {
    Pow128Top();
    if k <= 9 {
      Pow128Monotone(k, 9);
    } else if k > 10 {
      Pow128Wrapped(k - 1);
      var t := Pow128(k - 1) / TWO_64;
      assert Pow128(k - 1) == TWO_64 * t;
      assert Pow128(k) == TWO_64 * (128 * t);
    }
  }

  lemma DivUnique(v: int, d: int, q: int, r: int)
    requires d > 0
    requires 0 <= r < d
    requires v == d * q + r
    ensures v / d == q
    ensures v % d == r
  {
    var q' := v / d;
    assert d * q' + v % d == d * q + r;
    if q' < q {
      MulLe(d, q' + 1, q);
    } else if q' > q {
      MulLe(d, q + 1, q');
    }
  }

  lemma MulLe(a: nat, b: int, c: int)
    requires b <= c
    ensures a * b <= a * c
  {
    assert a * c - a * b == a * (c - b);
  }

  lemma MulAssoc128(w: int, p: int)
    ensures 128 * (w * p) == (128 * w) * p
  {
  }

  /** Dividing by 128 and then by `p` is dividing by `128 * p`. */
  lemma DivDiv128(v: nat, p: nat)
    requires p > 0
    ensures (v / 128) / p == v / (128 * p)
  {
    var q := (v / 128) / p;
    var r := (v / 128) % p;
    assert v / 128 == p * q + r;
    assert v == 128 * (v / 128) + v % 128;
    assert v == (128 * p) * q + (128 * r + v % 128);
    DivUnique(v, 128 * p, q, 128 * r + v % 128);
  }

  lemma ModAddMultiple(x: int, t: int)
    ensures (x + TWO_64 * t) % TWO_64 == x % TWO_64
  {
    DivUnique(x + TWO_64 * t, TWO_64, x / TWO_64 + t, x % TWO_64);
  }

  /** Adding the same amount keeps two numbers congruent modulo 2^64. */
  lemma ModShift(a: int, b: int, c: int)
    requires a % TWO_64 == b % TWO_64
    ensures (a + c) % TWO_64 == (b + c) % TWO_64
  {
    var r := a % TWO_64;
    ModAddMultiple(r + c, a / TWO_64);
    ModAddMultiple(r + c, b / TWO_64);
  }

  /** Reducing a product before adding it to a reduced accumulator gives
      the reduced sum. */
  lemma WrappedMulAdd(acc: int, val: int, term: int)
    requires val == acc % TWO_64
    ensures (val + term % TWO_64) % TWO_64 == (acc + term) % TWO_64
  {
    ModShift(term % TWO_64, term, val);
    ModShift(val, acc, term);
  }

  /** Two numbers in `0 .. 2^64` that are congruent modulo 2^64 are equal. */
  lemma ModEqual(a: int, b: int)
    requires 0 <= a < TWO_64 && 0 <= b < TWO_64
    requires a % TWO_64 == b % TWO_64
    ensures a == b
  {
  }
}
