/**
 Signed 64-bit arithmetic as the release build of the interpreter does it: every sum,
 difference, product and negation is reduced to two's complement.
 */
module Machine {
  import opened Arith

  const MIN_I64: int := -0x8000_0000_0000_0000
  const MAX_I64: int := 0x7FFF_FFFF_FFFF_FFFF
  const TWO_64: int := 0x1_0000_0000_0000_0000

  predicate Fits(x: int) {
    MIN_I64 <= x <= MAX_I64
  }

  /** Two's-complement reduction to 64 bits. */
  function Wrap(x: int): (r: int)
    ensures Fits(r)
    ensures Fits(x) ==> r == x
  {
    (x - MIN_I64) % TWO_64 + MIN_I64
  }

  /** Negation: the least integer has none and stays as it is. */
  function Negated(x: int): (r: int)
    requires Fits(x)
    ensures Fits(r) && (x < 0 ==> r != 0)
  {
    if x == MIN_I64 then x else -x
  }

  /** A cast that stops at the ends of the range. */
  function Saturate(x: int): (r: int)
    ensures Fits(r)
  {
    if x < MIN_I64 then MIN_I64 else if x > MAX_I64 then MAX_I64 else x
  }

  lemma WrapSum(a: int, b: int)
    ensures Wrap(Wrap(a) + b) == Wrap(a + b)
  {
    ModAddLeft(a - MIN_I64, b, TWO_64);
  }

  lemma WrapShift(x: int)
    ensures MAX_I64 < x <= MAX_I64 + TWO_64 ==> Wrap(x) == x - TWO_64
    ensures MIN_I64 - TWO_64 <= x < MIN_I64 ==> Wrap(x) == x + TWO_64
  {
    ModMultiple(x - MIN_I64, -1, TWO_64);
    ModMultiple(x - MIN_I64, 1, TWO_64);
  }

  /** Two numbers wrap to the same word exactly if they differ by a multiple of `2^64`. */
  lemma WrapsAlike(x: int, y: int)
    ensures Wrap(x) == Wrap(y) <==> (x - y) % TWO_64 == 0
  {
    var a, b := x - MIN_I64, y - MIN_I64;
    var q, p := a / TWO_64, b / TWO_64;
    if a % TWO_64 == b % TWO_64 {
      Euclid(x - y, q - p, 0, TWO_64);
    }
    if (x - y) % TWO_64 == 0 {
      var k := (x - y) / TWO_64;
      ModMultiple(b, k, TWO_64);
    }
  }
}
