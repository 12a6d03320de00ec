/** Java's 32-bit `int`: its range and the two's complement wrap-around of
    its arithmetic. */
module JavaInt {

  /** `Integer.MAX_VALUE` and `Integer.MIN_VALUE`. */
  const IntMax: int := 0x7FFF_FFFF
  const IntMin: int := -0x8000_0000

  /** A value a Java `int` can hold. */
  type int32 = x: int | -0x8000_0000 <= x < 0x8000_0000

  /** The `int` that Java's `+`, `-` and `++` produce for the exact result
      `x`: its low 32 bits read as two's complement. */
  function Wrap32(x: int): (r: int32)
    ensures IntMin <= x <= IntMax ==> r == x
    ensures IntMax < x <= IntMax - IntMin ==> r == x - 0x1_0000_0000
    ensures IntMin - 0x1_0000_0000 <= x < IntMin ==> r == x + 0x1_0000_0000
  {
    if IntMin <= x <= IntMax then x else (x - IntMin) % 0x1_0000_0000 + IntMin
  }

  /** `Wrap32` keeps the low 32 bits: the result differs from `x` by a
      multiple of 2^32, and it is the only `int` that does. */
  lemma Wrap32Congruent(x: int, y: int32)
    ensures (Wrap32(x) - x) % 0x1_0000_0000 == 0
    ensures (y - x) % 0x1_0000_0000 == 0 ==> y == Wrap32(x)
  {
  }
}
