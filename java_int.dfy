/** Java's fixed-width integer arithmetic, written out over unbounded `int`. */
module JavaInt {

  const INT_MIN: int := -0x8000_0000
  const INT_MAX: int := 0x7fff_ffff
  const LONG_MIN: int := -0x8000_0000_0000_0000
  const LONG_MAX: int := 0x7fff_ffff_ffff_ffff

  /** Values of Java's `int`. */
  type Int32 = x: int | -0x8000_0000 <= x < 0x8000_0000

  /** Values of Java's `long`. */
  type Int64 = x: int | -0x8000_0000_0000_0000 <= x < 0x8000_0000_0000_0000

  /** Two's-complement wrap-around to 32 bits: the result of `int` arithmetic and of an `(int)` cast from `long`. */
  function Wrap32(x: int): (r: Int32)
    ensures (r - x) % 0x1_0000_0000 == 0
    ensures INT_MIN <= x <= INT_MAX ==> r == x
  {
    var m := x % 0x1_0000_0000;
    if m < 0x8000_0000 then m else m - 0x1_0000_0000
  }

  /** Java's `%` by a positive divisor: the remainder of division truncated toward zero, carrying the sign of the dividend. */
  function JavaRem(a: int, b: int): (r: int)
    requires b > 0
    ensures a >= 0 ==> 0 <= r < b
    ensures a < 0 ==> -b < r <= 0
  {
    if a >= 0 then a % b else -((-a) % b)
  }

  /** Java's `/`: division truncated toward zero. */
  function JavaDiv(a: int, b: int): (q: int)
    requires b > 0
    ensures q * b + JavaRem(a, b) == a
  {
    if a >= 0 then a / b else -((-a) / b)
  }

  /** `Math.abs` on an `int`; `Math.abs(Integer.MIN_VALUE)` is itself. */
  function Abs32(x: Int32): (r: Int32)
    ensures x != INT_MIN ==> r >= 0 && (r == x || r == -x)
    ensures x == INT_MIN ==> r == INT_MIN
  {
    if x == INT_MIN then x else if x < 0 then -x else x
  }

  /** The 32 bits of a Java `int`. */
  function ToBits(x: Int32): bv32 {
    if x < 0 then (x + 0x1_0000_0000) as bv32 else x as bv32
  }

  /** The Java `int` whose 32 bits are `b`. */
  function FromBits(b: bv32): Int32 {
    var n := b as int;
    if n < 0x8000_0000 then n else n - 0x1_0000_0000
  }

  /** Java's `^` on `int`, computed on the two's-complement bit patterns. */
  function Xor32(a: Int32, b: Int32): Int32 {
    FromBits(ToBits(a) ^ ToBits(b))
  }
}
