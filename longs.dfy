/** Java's fixed-width integer arithmetic, written out. A `long` is its bit
    pattern read as an unsigned number in [0, 2^64); `+`, `-` and unary `-`
    wrap around modulo 2^64, written as the one correction by 2^64 that each
    can need. A comparison such as `offset < 0` reads the bits as
    a two's-complement number, given by `SignedValue`. An `int` is the same at
    32 bits. */
module Longs {

  const TWO_TO_THE_31: int := 0x8000_0000
  const TWO_TO_THE_32: int := 0x1_0000_0000
  const TWO_TO_THE_63: int := 0x8000_0000_0000_0000
  const TWO_TO_THE_64: int := 0x1_0000_0000_0000_0000

  /** The 64 bits of a Java `long`, read unsigned. */
  type Long = x: int | 0 <= x < TWO_TO_THE_64

  /** The 32 bits of a Java `int`, read unsigned. */
  type Int = x: int | 0 <= x < TWO_TO_THE_32

  /** `Long.BYTES` */
  const LONG_BYTES: int := 8

  /** `a + b` on `long`s. */
  function Add(a: Long, b: Long): Long
  {
    if a + b < TWO_TO_THE_64 then a + b else a + b - TWO_TO_THE_64
  }

  /** `a - b` on `long`s. */
  function Sub(a: Long, b: Long): Long
  {
    if a >= b then a - b else a - b + TWO_TO_THE_64
  }

  /** `-a` on a `long` (also `a *= -1`). */
  function Neg(a: Long): Long
  {
    if a == 0 then 0 else TWO_TO_THE_64 - a
  }

  /** The two's-complement value of a `long`. */
  function SignedValue(x: Long): (v: int)
    ensures -TWO_TO_THE_63 <= v < TWO_TO_THE_63
    ensures v == x || v == x - TWO_TO_THE_64
  {
    if x < TWO_TO_THE_63 then x else x - TWO_TO_THE_64
  }

  /** Java's `x < 0` on a `long`. */
  predicate IsNegative(x: Long)
  {
    SignedValue(x) < 0
  }

  /** The 64-bit negation of a negative `long`, read unsigned, is the magnitude
      of its signed value; this holds for `Long.MIN_VALUE` too, whose negation is
      itself, 2^63 read unsigned. */
  lemma NegationIsMagnitude(x: Long)
    requires IsNegative(x)
    ensures Neg(x) == -SignedValue(x)
  {
  }

  /** Negation is an involution. */
  lemma NegNeg(x: Long)
    ensures Neg(Neg(x)) == x
  {
  }

  /** `Integer.MAX_VALUE` and `Integer.MIN_VALUE` as 32-bit patterns. */
  const INTEGER_MAX_VALUE: Int := 0x7FFF_FFFF
  const INTEGER_MIN_VALUE: Int := 0x8000_0000

  /** The two's-complement value of an `int`. */
  function IntValue(x: Int): (v: int)
    ensures -TWO_TO_THE_31 <= v < TWO_TO_THE_31
    ensures v == x || v == x - TWO_TO_THE_32
  {
    if x < TWO_TO_THE_31 then x else x - TWO_TO_THE_32
  }

  /** `a + b` on `int`s. */
  function IntAdd(a: Int, b: Int): Int
  {
    if a + b < TWO_TO_THE_32 then a + b else a + b - TWO_TO_THE_32
  }

  /** `Math.abs(int)`: a negative argument is negated in 32 bits, so
      `Integer.MIN_VALUE` is its own absolute value. */
  function IntAbs(x: Int): Int
  {
    if IntValue(x) < 0 then TWO_TO_THE_32 - x else x
  }

  /** Widening an `int` to a `long` (sign extension). */
  function IntToLong(x: Int): (r: Long)
    ensures SignedValue(r) == IntValue(x)
  {
    if x < TWO_TO_THE_31 then x else x + (TWO_TO_THE_64 - TWO_TO_THE_32)
  }

  /** `Integer.MAX_VALUE + Math.abs(Integer.MIN_VALUE)` evaluated in `int`
      arithmetic: the absolute value wraps to `Integer.MIN_VALUE`, so the sum is
      exactly -1. */
  lemma IntegerMaxPlusAbsMinIsMinusOne()
    ensures IntValue(IntAdd(INTEGER_MAX_VALUE, IntAbs(INTEGER_MIN_VALUE))) == -1
    ensures IntToLong(IntAdd(INTEGER_MAX_VALUE, IntAbs(INTEGER_MIN_VALUE))) == TWO_TO_THE_64 - 1
  {
  }

  /** The display expression for a negative offset, `integerMaxValue - offset + 1`
      with `integerMaxValue` the `int` above widened to `long`, is the 64-bit
      negation of the offset, not a 32-bit one. */
  lemma DisplayedOffsetIsNegation(offset: Long)
    ensures Add(Sub(IntToLong(IntAdd(INTEGER_MAX_VALUE, IntAbs(INTEGER_MIN_VALUE))), offset), 1) == Neg(offset)
  {
    IntegerMaxPlusAbsMinIsMinusOne();
  }
}
