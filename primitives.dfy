/** Machine integer ranges and the two value types of the library. */
module Primitives {

  /** An unsigned 8-bit value (Rust `u8`). */
  type byte = x: int | 0 <= x < 0x100

  /** An unsigned 16-bit value (Rust `u16`). */
  type u16 = x: int | 0 <= x < 0x1_0000

  /** An unsigned 32-bit value (Rust `u32`). */
  type u32 = x: int | 0 <= x < 0x1_0000_0000

  const U32_MAX: int := 0xFFFF_FFFF

  /** Largest Rust `i32`; coordinates are cast to `i32` by the rasteriser. */
  const I32_MAX: int := 0x7FFF_FFFF

  /** A pixel address: both coordinates are `u32`. */
  datatype Point = Point(x: u32, y: u32)

  /** A colour; stored in the buffer in blue, green, red order. */
  datatype Rgb = Rgb(r: byte, g: byte, b: byte)

  function Abs(n: int): nat { if n < 0 then -n else n }

  function Min(a: int, b: int): int { if a <= b then a else b }

  function Max(a: int, b: int): int { if a <= b then b else a }

  /** The multiplication facts the byte-offset arithmetic needs. */
  lemma MulNonNegative(a: nat, b: nat)
    ensures a * b >= 0
  {}

  lemma MulAtLeast(a: int, b: nat)
    requires a >= 1
    ensures a * b >= b
  {}

  lemma MulMonotone(a: nat, b: nat, c: nat)
    requires a <= b
    ensures a * c <= b * c
  {}
}
