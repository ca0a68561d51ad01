/**
 * Fixed-width integer types of the kernel (src/include/types.h) and the
 * C arithmetic on them that the memory manager relies on.  Widths are those
 * of the i386 target: `unsigned int` and `int` are 32 bits wide.
 */
module Types {

  const U32_MODULUS: int := 0x1_0000_0000

  /** uint8_t */
  newtype u8 = x: int | 0 <= x < 0x100

  /** uint32_t: unsigned 32-bit, arithmetic wraps modulo 2^32 */
  newtype u32 = x: int | 0 <= x < 0x1_0000_0000

  /** int32_t / int: signed 32-bit two's complement */
  newtype i32 = x: int | -0x8000_0000 <= x < 0x8000_0000

  const U32_MAX: u32 := 0xFFFF_FFFF

  /** C's `x += 1` on a uint32_t: the successor, wrapping from the maximum to 0. */
  function Inc32(x: u32): (r: u32)
    ensures x < U32_MAX ==> r as int == x as int + 1
    ensures x == U32_MAX ==> r == 0
  {
    ((x as int + 1) % U32_MODULUS) as u32
  }

  /** C's `x -= 1` on a uint32_t: the predecessor, wrapping from 0 to the maximum. */
  function Dec32(x: u32): (r: u32)
    ensures x > 0 ==> r as int == x as int - 1
    ensures x == 0 ==> r == U32_MAX
  {
    ((x as int - 1) % U32_MODULUS) as u32
  }

  /** Wrapping increment and decrement undo each other, in either order. */
  lemma IncDecInverse(x: u32)
    ensures Dec32(Inc32(x)) == x
    ensures Inc32(Dec32(x)) == x
  {
  }

  /** The bit pattern of an `int` read as a `uint32_t` (two's complement). */
  function I32Bits(c: i32): (w: u32)
    ensures c >= 0 ==> w as int == c as int
    ensures c < 0 ==> w as int == c as int + U32_MODULUS
  {
    (c as int % U32_MODULUS) as u32
  }

  /** A `uint32_t` bit pattern read as an `int` (two's complement). */
  function I32OfBits(w: u32): (c: i32)
    ensures w < 0x8000_0000 ==> c as int == w as int
    ensures w >= 0x8000_0000 ==> c as int == w as int - U32_MODULUS
  {
    if w < 0x8000_0000 then w as int as i32 else (w as int - U32_MODULUS) as i32
  }

  /** Reading an `int`'s bits back gives the same `int`, and every bit pattern is some `int`. */
  lemma I32BitsRoundTrip(c: i32, w: u32)
    ensures I32OfBits(I32Bits(c)) == c
    ensures I32Bits(I32OfBits(w)) == w
  {
  }
}
