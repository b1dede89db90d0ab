/**
 * Fixed-width integers of the boundary: `i32` scores and `usize` lengths and
 * indices, with the two's-complement wrap-around of an `i32` addition that
 * overflows in a release build.
 */
module Ints {

  const I32_MIN: int := -0x8000_0000
  const I32_MAX: int := 0x7FFF_FFFF
  const I32_MODULUS: int := 0x1_0000_0000
  const USIZE_LIMIT: int := 0x1_0000_0000_0000_0000

  predicate InI32(x: int) {
    I32_MIN <= x <= I32_MAX
  }

  type Int32 = x: int | InI32(x)

  /** A `u8`, the width of a `#[repr(u8)]` discriminant. */
  type U8 = x: nat | x < 0x100

  /** A 64-bit `usize`. */
  type Usize = x: nat | x < USIZE_LIMIT

  /** The `i32` that a two's-complement machine holds for the mathematical value `x`. */
  function WrapI32(x: int): (r: Int32)
    ensures (r - x) % I32_MODULUS == 0
    ensures InI32(x) ==> r == x
  {
    var m := (x - I32_MIN) % I32_MODULUS;
    assert x - I32_MIN == ((x - I32_MIN) / I32_MODULUS) * I32_MODULUS + m;
    m + I32_MIN
  }

  /** Adding to an already wrapped accumulator gives the wrap of the exact sum. */
  lemma WrapAdd(acc: int, x: int)
    ensures WrapI32(WrapI32(acc) + x) == WrapI32(acc + x)
  {
  }
}
