/** Go's built-in `int` on a 64-bit platform: its range and the two's-complement
    wrap-around of `+` and `-` on it. */
module GoInt {

  const MinInt: int := -0x8000_0000_0000_0000
  const MaxInt: int := 0x7fff_ffff_ffff_ffff
  /** 2^64, the number of distinct 64-bit values. */
  const Modulus: int := 0x1_0000_0000_0000_0000

  /** `x` is representable as a Go `int`. */
  predicate InRange(x: int) {
    MinInt <= x <= MaxInt
  }

  /** The Go `int` that the exact result `x` of one `+` or `-` on two Go `int`s
      becomes: the one representable value that differs from `x` by a multiple
      of 2^64. */
  function Wrap(x: int): (r: int)
    requires -Modulus <= x < Modulus
    ensures InRange(r)
    ensures r == x || r == x - Modulus || r == x + Modulus
  {
    if x > MaxInt then x - Modulus
    else if x < MinInt then x + Modulus
    else x
  }

  /** Go's `a + b` on `int`. */
  function Add(a: int, b: int): (r: int)
    requires InRange(a) && InRange(b)
    ensures InRange(r)
  {
    Wrap(a + b)
  }

  /** Go's `a - b` on `int`. */
  function Sub(a: int, b: int): (r: int)
    requires InRange(a) && InRange(b)
    ensures InRange(r)
  {
    Wrap(a - b)
  }

  /** Adding two non-negative `int`s wraps exactly when the true sum exceeds
      MaxInt, and then the Go result is negative. */
  lemma AddNonNegative(a: int, b: int)
    requires InRange(a) && InRange(b) && 0 <= a && 0 <= b
    ensures a + b <= MaxInt ==> Add(a, b) == a + b
    ensures a + b > MaxInt ==> Add(a, b) < 0
  {
  }
}
