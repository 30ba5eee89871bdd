/**
 * Machine-level types shared by the transport and the shell models:
 * fixed-width unsigned integers (as bounded `int`s, with C's wrap-around
 * written out where the source relies on it), bytes and an option type.
 */
module Common {

  const TWO_8: int := 0x100
  const TWO_16: int := 0x1_0000
  const TWO_32: int := 0x1_0000_0000

  type byte = b: int | 0 <= b < TWO_8
  type u16 = x: int | 0 <= x < TWO_16
  type u32 = x: int | 0 <= x < TWO_32

  datatype Option<T> = None | Some(value: T)

  /** `a + b` on C's uint32_t: the sum is reduced modulo 2^32. */
  function Add32(a: u32, b: u32): (r: u32)
    ensures a + b < TWO_32 ==> r == a + b
    ensures a + b >= TWO_32 ==> r == a + b - TWO_32
  {
    (a + b) % TWO_32
  }

  /** `a - b` on C's uint32_t: the difference is reduced modulo 2^32. */
  function Sub32(a: u32, b: u32): (r: u32)
    ensures b <= a ==> r == a - b
    ensures a < b ==> r == a - b + TWO_32
  {
    (a - b) % TWO_32
  }

  /** Conversion of a C `int` to `uint16_t`: reduction modulo 2^16. */
  function ToU16(x: int): (r: u16)
    ensures 0 <= x < TWO_16 ==> r == x
    ensures -TWO_16 <= x < 0 ==> r == x + TWO_16
  {
    x % TWO_16
  }

  function Min(a: int, b: int): int {
    if a <= b then a else b
  }
}
