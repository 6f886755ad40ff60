/** Wrapping 16-bit time: the macros of zb_time.h and what they mean for unwrapped time. */
module ZbTime {
  import opened Prelude

  const MODULUS := 0x1_0000

  /** ZB_HALF_MAX_TIME_VAL, that is 65535 / 2. */
  const HALF_MAX := 32767

  /** The longest span over which the 16-bit comparison is the true order. */
  const MAX_SPAN := HALF_MAX - 1

  /** The cast back to 16 bits after an addition or a subtraction. */
  function Minus(a: U16, b: U16): U16 {
    if a >= b then a - b else a - b + MODULUS
  }

  function Add(a: U16, b: U16): U16 {
    if a + b < MODULUS then a + b else a + b - MODULUS
  }

  function Subtract(a: U16, b: U16): U16 {
    if Minus(a, b) < HALF_MAX then Minus(a, b) else Minus(b, a)
  }

  predicate Ge(a: U16, b: U16) {
    Minus(a, b) < HALF_MAX
  }

  /** What the 16-bit hardware counter shows at true time t. */
  function Wrap(t: int): U16 {
    t % MODULUS
  }

  /** Subtracting 16-bit values tracks subtracting true times. */
  lemma WrapDifference(x: int, y: int)
    ensures Minus(Wrap(x), Wrap(y)) == (x - y) % MODULUS
  {
    var q := x / MODULUS - y / MODULUS;
    assert x - y == q * MODULUS + (Wrap(x) - Wrap(y));
  }

  /** Adding 16-bit values tracks adding true times. */
  lemma AddWraps(x: int, d: U16)
    ensures Add(Wrap(x), d) == Wrap(x + d)
  {
    var q := x / MODULUS;
    assert x + d == q * MODULUS + (Wrap(x) + d);
  }

  /** Exactly which true differences the comparison gets right, over the whole range
      a 16-bit counter could be asked about. */
  lemma GeIsTrueOrder(x: int, y: int)
    requires -(MODULUS - HALF_MAX) <= x - y < MODULUS
    ensures (Ge(Wrap(x), Wrap(y)) <==> x >= y) <==> x - y <= MAX_SPAN
  {
    WrapDifference(x, y);
  }

  /** Within the supported span, subtraction is the true distance, in either argument order;
      one tick further it is not. */
  lemma SubtractIsDistance(x: int, y: int)
    requires -HALF_MAX <= x - y <= HALF_MAX
    ensures Subtract(Wrap(x), Wrap(y)) == (if x >= y then x - y else y - x) <==> x - y != HALF_MAX
  {
    WrapDifference(x, y);
    WrapDifference(y, x);
  }

  /** One tick beyond the span neither time is found to be at or after the other. */
  lemma GeFailsBeyondSpan()
    ensures !Ge(Wrap(HALF_MAX), Wrap(0)) && !Ge(Wrap(0), Wrap(HALF_MAX))
  {
  }
}
