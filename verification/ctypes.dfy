/**
 * Fixed-width machine integers and the Rust conversions the binding applies
 * to them. Rust's `as` between integer types keeps the low bits
 * (two's complement), and arithmetic that overflows wraps the same way in a
 * release build; both are written out here as reductions modulo 2^32 or 2^64.
 */
module CTypes {

  const TWO_32: int := 0x1_0000_0000
  const TWO_64: int := 0x1_0000_0000_0000_0000

  const I32_MIN: int := -0x8000_0000
  const I32_MAX: int := 0x7fff_ffff
  const I64_MIN: int := -0x8000_0000_0000_0000
  const I64_MAX: int := 0x7fff_ffff_ffff_ffff

  type u8 = x: int | 0 <= x < 0x100
  type u32 = x: int | 0 <= x < 0x1_0000_0000
  type i32 = x: int | -0x8000_0000 <= x < 0x8000_0000
  type i64 = x: int | -0x8000_0000_0000_0000 <= x < 0x8000_0000_0000_0000
  type u64 = x: int | 0 <= x < 0x1_0000_0000_0000_0000

  /** The unique i32 congruent to `x` modulo 2^32: `x as i32`, or a wrapping i32 operation. */
  function WrapI32(x: int): (r: i32)
    ensures (x - r) % TWO_32 == 0
    ensures I32_MIN <= x <= I32_MAX ==> r == x
  {
    (x - I32_MIN) % TWO_32 + I32_MIN
  }

  /** The unique i64 congruent to `x` modulo 2^64: `x as i64`, or a wrapping i64 operation. */
  function WrapI64(x: int): (r: i64)
    ensures (x - r) % TWO_64 == 0
    ensures I64_MIN <= x <= I64_MAX ==> r == x
  {
    (x - I64_MIN) % TWO_64 + I64_MIN
  }

  /** The unique u64 congruent to `x` modulo 2^64: `x as u64`. */
  function WrapU64(x: int): (r: u64)
    ensures (x - r) % TWO_64 == 0
    ensures 0 <= x < TWO_64 ==> r == x
  {
    x % TWO_64
  }

  /** Two integers congruent modulo 2^64 have the same u64 image. */
  lemma {:induction false} WrapU64Congruent(x: int, y: int)
    requires (x - y) % TWO_64 == 0
    ensures WrapU64(x) == WrapU64(y)
  {
    var k := (x - y) / TWO_64;
    assert x == y + k * TWO_64;
  }

  /**
   * `((usec as i64) + delta) as u64`, the expression behind every
   * "timestamp plus duration" in the binding: whatever the operands, it is
   * addition modulo 2^64.
   */
  function CastAddI64(usec: u64, delta: i64): (r: u64)
    ensures r == (usec + delta) % TWO_64
  {
    var sum := WrapI64(WrapI64(usec) + delta);
    WrapU64Congruent(sum, usec + delta);
    WrapU64(sum)
  }

  /** Rust's `/` on signed integers, which truncates toward zero (Dafny's `/` is Euclidean). */
  function TruncDiv(a: int, b: int): (q: int)
    requires b > 0
    ensures a >= 0 ==> q == a / b
    ensures a < 0 ==> q <= 0 && -q == (-a) / b
  {
    if a >= 0 then a / b else -((-a) / b)
  }
}
