/** Java's 32-bit `int`, with the wrap-around of `x + 1` written out. */
module JavaInt {

  const INT_MIN: int := -0x8000_0000
  const INT_MAX: int := 0x7fff_ffff

  /** A value of Java type `int` (also used for an unboxed `Integer`). */
  type Int32 = x: int | INT_MIN <= x <= INT_MAX

  /** `x + 1` evaluated in Java: `Integer.MAX_VALUE + 1` is `Integer.MIN_VALUE`. */
  function Inc(x: Int32): Int32
  {
    if x == INT_MAX then INT_MIN else x + 1
  }
}
