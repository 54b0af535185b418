// Fixed-width integer types of the renderer and the C++ narrowing conversions
// between them.  Dafny integers are unbounded, so every width is a subset of
// `int` and every implicit narrowing in the C++ is written out.

module Types {

  const MAX_U8: int := 0xFF
  const MAX_U16: int := 0xFFFF
  const MAX_U32: int := 0xFFFF_FFFF
  const MAX_S32: int := 0x7FFF_FFFF

  type U8 = x: int | 0 <= x <= MAX_U8
  type U16 = x: int | 0 <= x <= MAX_U16
  type U32 = x: int | 0 <= x <= MAX_U32
  /** `unsigned long`, which is 32 bits wide on the Windows target. */
  type U64 = x: nat | x <= MAX_U32

  /** C++ conversion of an integer to an unsigned 8-bit parameter: reduction modulo 2^8. */
  function ToU8(i: int): (r: U8)
    ensures 0 <= i <= MAX_U8 ==> r == i
  {
    i % 0x100
  }

  /** C++ conversion of an integer to an unsigned 16-bit parameter: reduction modulo 2^16. */
  function ToU16(i: int): (r: U16)
    ensures 0 <= i <= MAX_U16 ==> r == i
  {
    i % 0x1_0000
  }
}
