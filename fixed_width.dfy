/**
 * Fixed-width machine integers over Dafny's unbounded ones: the wrap-around of
 * 32-bit arithmetic and the truncating remainder of Java and C.
 */
module FixedWidth {
  const TWO_32: int := 0x1_0000_0000
  const TWO_31: int := 0x8000_0000

  /** x reduced to an unsigned 32-bit value (uint32_t arithmetic). */
  function Uint32(x: int): (r: int)
    ensures 0 <= r < TWO_32
    ensures 0 <= x < TWO_32 ==> r == x
  {
    x % TWO_32
  }

  /** x as a 32-bit two's-complement value (a Java int, or a C int32_t after conversion). */
  function Int32(x: int): (r: int)
    ensures -TWO_31 <= r < TWO_31
    ensures -TWO_31 <= x < TWO_31 ==> r == x
  {
    (x + TWO_31) % TWO_32 - TWO_31
  }

  /** The remainder of Java's and C's %, which takes the sign of the dividend. */
  function TruncRem(a: int, b: int): (r: int)
    requires b > 0
    ensures -b < r < b
    ensures a >= 0 ==> r == a % b
    ensures a < 0 ==> r <= 0
  {
    if a >= 0 then a % b else -((-a) % b)
  }
}
