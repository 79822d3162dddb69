/** Machine integers of the source, with their wrap-around written out. */
module BoundedInts {

  const TWO_TO_THE_32: int := 0x1_0000_0000

  /** C++ `unsigned int` on the platforms the library targets: 32 bits. */
  newtype uint32 = x: int | 0 <= x < TWO_TO_THE_32

  const UINT32_MAX: uint32 := 0xFFFF_FFFF

  /** Unsigned multiplication by two, reduced modulo 2^32 as C++ does. */
  function WrappingDouble(v: uint32): (r: uint32)
    ensures r as int == (2 * v as int) % TWO_TO_THE_32
    ensures v < 0x8000_0000 ==> r as int == 2 * v as int
    ensures v >= 0x8000_0000 ==> r as int == 2 * v as int - TWO_TO_THE_32
  {
    ((2 * v as int) % TWO_TO_THE_32) as uint32
  }

  /** Unsigned increment, reduced modulo 2^32 as C++ does. */
  function WrappingSucc(v: uint32): (r: uint32)
    ensures r as int == (v as int + 1) % TWO_TO_THE_32
    ensures v < UINT32_MAX ==> r == v + 1
    ensures v == UINT32_MAX ==> r == 0
  {
    ((v as int + 1) % TWO_TO_THE_32) as uint32
  }
}
