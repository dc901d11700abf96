/** The 32-bit `unsigned` arithmetic of the library's sizes and ids. */
module Unsigned {

  const Two32: int := 0x1_0000_0000

  /** The value an integer takes as an `unsigned`: reduced modulo 2^32. */
  function U32(x: int): (r: nat)
    ensures r < Two32
    ensures 0 <= x < Two32 ==> r == x
    ensures x < 0 && -Two32 <= x ==> r == x + Two32
  {
    x % Two32
  }
}
