/**
 Integer arithmetic used by the probe sequence and by the numeric hashes: powers,
 quotients and remainders. Each fact is stated on its own so that no proof
 elsewhere has to reason about products of variables.
 */
module Arith {

  function Pow2(k: nat): (r: nat)
    ensures r >= 1
  {
    if k == 0 then 1 else 2 * Pow2(k - 1)
  }

  function Pow(b: int, e: nat): int {
    if e == 0 then 1 else b * Pow(b, e - 1)
  }

  function Abs(x: int): nat {
    if x < 0 then -x else x
  }

  lemma Distribute(a: int, b: int, c: int)
    ensures (a + b) * c == a * c + b * c
    ensures (a - b) * c == a * c - b * c
  {
  }

  lemma Reassociate(a: int, b: int, c: int)
    ensures a * (b * c) == (a * b) * c == b * (a * c) == (a * c) * b
  {
  }

  lemma ProductAtLeast(k: int, m: int)
    requires k >= 1 && m >= 0
    ensures k * m >= m
  {
    Distribute(k - 1, 1, m);
    ProductNonNegative(k - 1, m);
  }

  lemma ProductNonNegative(k: int, m: int)
    requires k >= 0 && m >= 0
    ensures k * m >= 0
  {
  }

  /** Quotient and remainder are determined by the division equation. */
  lemma Euclid(x: int, q: int, r: int, m: int)
    requires x == q * m + r && 0 <= r < m
    ensures x % m == r && x / m == q
  {
    var q', r' := x / m, x % m;
    assert x == q' * m + r';
    Distribute(q, q', m);
    Distribute(q', q, m);
    if q > q' {
      ProductAtLeast(q - q', m);
    } else if q < q' {
      ProductAtLeast(q' - q, m);
    }
  }

  lemma ModMultiple(x: int, q: int, m: int)
    requires m > 0
    ensures (x + q * m) % m == x % m
  {
    Distribute(x / m, q, m);
    Euclid(x + q * m, x / m + q, x % m, m);
  }

  lemma ModAddLeft(x: int, y: int, m: int)
    requires m > 0
    ensures (x % m + y) % m == (x + y) % m
  {
    ModMultiple(x % m + y, x / m, m);
    assert x == (x / m) * m + x % m;
  }

  lemma EqualFactors(x: int, y: int, z: int)
    requires x == y
    ensures x * z == y * z
  {
  }

  lemma ModMulLeft(x: int, y: int, m: int)
    requires m > 0
    ensures ((x % m) * y) % m == (x * y) % m
  {
    var q, r := x / m, x % m;
    EqualFactors(x, q * m + r, y);
    Distribute(q * m, r, y);
    Reassociate(q, m, y);
    ModMultiple(r * y, q * y, m);
  }

  lemma {:induction false} Pow2Add(a: nat, b: nat)
    ensures Pow2(a + b) == Pow2(a) * Pow2(b)
  {
    if b > 0 {
      Pow2Add(a, b - 1);
      Reassociate(Pow2(a), 2, Pow2(b - 1));
    }
  }

  lemma {:induction false} PowAdd(x: int, a: nat, b: nat)
    ensures Pow(x, a + b) == Pow(x, a) * Pow(x, b)
  {
    if b > 0 {
      PowAdd(x, a, b - 1);
      Reassociate(Pow(x, a), x, Pow(x, b - 1));
    }
  }

  lemma {:induction false} Pow2Less(a: nat, b: nat)
    requires a <= b
    ensures Pow2(a) <= Pow2(b)
  {
    if a < b {
      Pow2Less(a, b - 1);
    }
  }

  lemma Pow2At60()
    ensures Pow2(60) == 0x1000_0000_0000_0000 && Pow2(61) == 0x2000_0000_0000_0000
  {
    assert Pow2(15) == 0x8000;
    Pow2Add(15, 15);
    assert Pow2(30) == 0x4000_0000;
    Pow2Add(30, 30);
  }

  lemma OddProduct(a: int, b: int)
    requires a % 2 == 1 && b % 2 == 1
    ensures (a * b) % 2 == 1
  {
    ModMulLeft(a, b, 2);
  }
}
