/** Go's fixed-width integer types, and the truncating conversions between them. */
module Ints {

  type uint8 = x: int | 0 <= x < 0x100
  type int16 = x: int | -0x8000 <= x < 0x8000
  type uint16 = x: int | 0 <= x < 0x1_0000
  type int32 = x: int | -0x8000_0000 <= x < 0x8000_0000
  type uint32 = x: int | 0 <= x < 0x1_0000_0000

  const INT64_MIN: int := -0x8000_0000_0000_0000
  const INT64_MAX: int := 0x7FFF_FFFF_FFFF_FFFF
  const INT32_MIN: int := -0x8000_0000
  const INT32_MAX: int := 0x7FFF_FFFF

  /** Go's `uint8(x)`: keeps the low 8 bits of a two's-complement integer. */
  function ToUint8(x: int): (r: uint8)
    ensures 0 <= x < 0x100 ==> r == x
    ensures (x - r) % 0x100 == 0
  {
    x % 0x100
  }

  /** Go's `uint16(x)`: keeps the low 16 bits of a two's-complement integer. */
  function ToUint16(x: int): (r: uint16)
    ensures 0 <= x < 0x1_0000 ==> r == x
    ensures -0x1_0000 <= x < 0 ==> r == x + 0x1_0000
    ensures (x - r) % 0x1_0000 == 0
  {
    x % 0x1_0000
  }
}
