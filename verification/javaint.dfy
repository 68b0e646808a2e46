/** Java's 32-bit `int`: the range `Integer.parseInt` produces and the
    wrap-around every `int` addition and multiplication performs. */
module JavaInt {

  const TwoTo31: int := 0x8000_0000
  const TwoTo32: int := 0x1_0000_0000

  /** Values of Java's primitive `int`. */
  type int32 = x: int | -0x8000_0000 <= x < 0x8000_0000

  /** The `int` a Java arithmetic operation yields for the exact result `x`:
      the unique 32-bit two's-complement value congruent to `x`. */
  function Wrap32(x: int): (r: int32)
    ensures (r - x) % TwoTo32 == 0
    ensures -TwoTo31 <= x < TwoTo31 ==> r == x
  {
    var m := x % TwoTo32;
    if m < TwoTo31 then m else m - TwoTo32
  }
}
