/**
 The numeric hash: integers, floats, decimals and fractions reach their hash
 modulo `2^61 - 1` by very different arithmetic. `EqualNumbersHashAlike` shows that
 numbers denoting the same rational hash to the same value.
 */
module NumericHash {
  import opened Arith
  import opened Machine
  import opened Mersenne

  const HASH_INF: nat := 314159
  const HASH_BITS: nat := 61
  const CHUNK: nat := 0x1000_0000              // 2^28
  const POINT: nat := 0x100_0000_0000_0000     // 2^56: a fraction in [0, 1) is `m / POINT`

  /**
   A finite number. A float is `mantissa * 2^exponent` with a 53-bit mantissa, a decimal
   is `coefficient * 10^(-scale)`, a fraction is in lowest terms.
   */
  datatype Number =
    | Int(n: int)
    | Float(negative: bool, mantissa: nat, exponent: int)
    | Decimal(coefficient: int, scale: int)
    | Fraction(num: int, den: nat)

  ghost predicate Valid(x: Number) {
    match x
    case Int(_) => true
    case Float(_, m, _) => m < 0x20_0000_0000_0000
    case Decimal(_, _) => true
    case Fraction(n, d) => d > 0 && (n % P == 0 ==> d % P != 0)
  }

  // ---------- the rational a number denotes ----------

  function Numer(x: Number): int {
    match x
    case Int(n) => n
    case Float(neg, m, e) =>
      var a := if e >= 0 then m * Pow2(e) else m;
      if neg then -a else a
    case Decimal(c, s) => if s >= 0 then c else c * Pow(10, -s)
    case Fraction(n, _) => n
  }

  function Denom(x: Number): int {
    match x
    case Int(_) => 1
    case Float(_, _, e) => if e >= 0 then 1 else Pow2(-e)
    case Decimal(_, s) => if s >= 0 then Pow(10, s) else 1
    case Fraction(_, d) => d
  }

  // ---------- the hash of a rational ----------

  /** The sign is reapplied, and the reserved value -1 becomes -2. */
  function Finish(negative: bool, h: nat): int {
    var r := if negative then 0 - h else h;
    if r == -1 then -2 else r
  }

  /** `h` is the quotient `n / d` modulo `p`. */
  ghost predicate IsQuotient(h: int, n: int, d: int) {
    0 <= h < P && (h * d - n) % P == 0
  }

  /** `n * d^(p-2)`, as the source divides. */
  ghost function Quotient(n: nat, d: nat): nat {
    ProductNonNegative(n, Pow(d, P - 2) % P);
    (n * (Pow(d, P - 2) % P)) % P
  }

  ghost function RationalHash(n: int, d: nat): int {
    if d % P == 0 then Finish(n < 0, HASH_INF)
    else Finish(n < 0, Quotient(Abs(n) % P, d % P))
  }

  // ---------- modular division ----------

  lemma CancelAny(x: int, y: int)
    requires x % P != 0 && (x * y) % P == 0
    ensures y % P == 0
  {
    ModMulLeft(x, y, P);
    Cancel(x % P, y);
  }

  /** `d^(p-2)` is the inverse of `d`. */
  lemma InverseLaw(d: nat)
    requires 0 < d < P
    ensures ((Pow(d, P - 2) % P) * d - 1) % P == 0
  {
    Fermat(d);
    PowerSplit(d);
    var q := Pow(d, P - 2);
    ModMulLeft(q, d, P);
    SameResidue(P, (q % P) * d, q * d);
    DivAdd(P, (q % P) * d - q * d, q * d - 1);
  }

  lemma PowerSplit(d: nat)
    ensures Pow(d, P - 1) == Pow(d, P - 2) * d
  {
    assert Pow(d, P - 1) == d * Pow(d, P - 2);
  }

  lemma QuotientDivides(n: nat, d: nat)
    requires 0 < d < P
    ensures IsQuotient(Quotient(n, d), n, d)
  {
    hide Pow;
    InverseLaw(d);
    QuotientArith(n, d, Pow(d, P - 2) % P);
  }

  lemma QuotientArith(n: nat, d: nat, i: nat)
    requires (i * d - 1) % P == 0
    ensures (((n * i) % P) * d - n) % P == 0
  {
    var y := n * i;
    DivScale(P, i * d - 1, n);
    Regroup(n, i, d);
    ModMulLeft(y, d, P);
    SameResidue(P, (y % P) * d, y * d);
    DivAdd(P, (y % P) * d - y * d, y * d - n);
  }

  lemma Regroup(n: int, i: int, d: int)
    ensures n * (i * d - 1) == (n * i) * d - n
  {
    Distribute(i * d, 1, n);
    Reassociate(n, i, d);
  }

  lemma QuotientUnique(h: int, k: int, n: int, d: int)
    requires d % P != 0 && IsQuotient(h, n, d) && IsQuotient(k, n, d)
    ensures h == k
  {
    DivAdd(P, h * d - n, k * d - n);
    Distribute(h, k, d);
    CancelAny(d, h - k);
    DivSmall(P, h - k);
  }

  /** Reducing numerator and denominator first does not matter. */
  lemma QuotientReduce(h: int, n: int, d: int)
    ensures IsQuotient(h, n % P, d % P) <==> IsQuotient(h, n, d)
  {
    if 0 <= h < P {
      ModMulLeft(d, h, P);
      SameResidue(P, n % P, n);
      SameResidue(P, h * d, n);
      SameResidue(P, h * (d % P), n % P);
      ModIdempotent(n, P);
    }
  }

  lemma ModIdempotent(n: int, m: int)
    requires m > 0
    ensures (n % m) % m == n % m
  {
    Euclid(n % m, 0, n % m, m);
  }

  /** What the division amounts to. */
  lemma RationalHashIs(n: int, d: nat, h: int)
    requires d % P != 0 && IsQuotient(h, Abs(n), d)
    ensures RationalHash(n, d) == Finish(n < 0, h)
    ensures RationalHash(n, d) == if n >= 0 then h else if h == 1 then -2 else -h
  {
    hide Pow, Quotient;
    QuotientDivides(Abs(n) % P, d % P);
    QuotientReduce(Quotient(Abs(n) % P, d % P), Abs(n), d);
    QuotientUnique(h, Quotient(Abs(n) % P, d % P), Abs(n), d);
  }

  lemma RationalHashDivides(n: int, d: nat) returns (h: int)
    requires d % P != 0
    ensures IsQuotient(h, Abs(n), d) && RationalHash(n, d) == Finish(n < 0, h)
  {
    hide Pow, Quotient;
    h := Quotient(Abs(n) % P, d % P);
    QuotientDivides(Abs(n) % P, d % P);
    QuotientReduce(h, Abs(n), d);
  }

  // ---------- equal rationals ----------

  lemma SameSign(n: int, d: nat, m: int, e: nat)
    requires d > 0 && e > 0 && n * e == m * d
    ensures (n < 0 <==> m < 0) && Abs(n) * e == Abs(m) * d
  {
    if n < 0 {
      ProductAtLeast(e, -n);
      if m >= 0 { ProductNonNegative(m, d); }
    } else {
      ProductNonNegative(n, e);
      if m < 0 { ProductAtLeast(d, -m); }
    }
  }

  lemma EqualQuotients(n: nat, d: nat, m: nat, e: nat)
    requires n * e == m * d && d % P != 0 && e % P != 0
    ensures forall h :: IsQuotient(h, n, d) ==> IsQuotient(h, m, e)
  {
    forall h | IsQuotient(h, n, d) ensures IsQuotient(h, m, e) {
      DivScale(P, h * d - n, e);
      Distribute(h * d, n, e);
      Reassociate(h, d, e);
      Distribute(h * e, m, d);
      assert e * (h * d - n) == d * (h * e - m);
      CancelAny(d, h * e - m);
    }
  }

  lemma EqualRationals(n: int, d: nat, m: int, e: nat)
    requires d > 0 && e > 0 && n * e == m * d && d % P != 0 && e % P != 0
    ensures RationalHash(n, d) == RationalHash(m, e)
  {
    hide Pow, Quotient, RationalHash;
    SameSign(n, d, m, e);
    var h := RationalHashDivides(n, d);
    EqualQuotients(Abs(n), d, Abs(m), e);
    RationalHashIs(m, e, h);
  }

  // ---------- denominators that occur ----------

  lemma {:induction false} Pow2NotZero(k: nat)
    ensures Pow2(k) % P != 0
  {
    if k > 0 && Pow2(k) % P == 0 {
      Cancel(2, Pow2(k - 1));
      Pow2NotZero(k - 1);
      assert false;
    }
  }

  lemma {:induction false} Pow10NotZero(k: nat)
    ensures Pow(10, k) % P != 0 && Pow(10, k) > 0
  {
    if k > 0 {
      Pow10NotZero(k - 1);
      if Pow(10, k) % P == 0 {
        Cancel(10, Pow(10, k - 1));
        assert false;
      }
    }
  }

  /** Only a fraction can have a denominator that the modulus divides. */
  lemma DenomNotZero(x: Number)
    requires Valid(x)
    ensures Denom(x) > 0
    ensures Denom(x) % P == 0 ==> x.Fraction?
  {
    match x
    case Float(_, _, e) => Pow2NotZero(if e >= 0 then 0 else -e);
    case Decimal(_, s) => Pow10NotZero(if s >= 0 then s else 0);
    case _ =>
  }

  ghost function Hash(x: Number): int
    requires Valid(x)
  {
    DenomNotZero(x);
    RationalHash(Numer(x), Denom(x))
  }

  /** Numbers that denote the same rational hash alike. */
  lemma EqualNumbersHashAlike(x: Number, y: Number)
    requires Valid(x) && Valid(y)
    requires Numer(x) * Denom(y) == Numer(y) * Denom(x)
    ensures Hash(x) == Hash(y)
  {
    hide Pow, Pow2, Quotient, Numer, Denom;
    DenomNotZero(x);
    DenomNotZero(y);
    var n, d, m, e := Numer(x), Denom(x), Numer(y), Denom(y);
    SameSign(n, d, m, e);
    if d % P != 0 && e % P != 0 {
      EqualRationals(n, d, m, e);
    } else {
      BothFractions(x, y);
    }
  }

  lemma BothFractions(x: Number, y: Number)
    requires Valid(x) && Valid(y) && Denom(x) > 0 && Denom(y) > 0
    requires Numer(x) * Denom(y) == Numer(y) * Denom(x)
    requires Denom(x) % P == 0 ==> x.Fraction?
    requires Denom(y) % P == 0 ==> y.Fraction?
    ensures Denom(x) % P == 0 <==> Denom(y) % P == 0
  {
    hide Pow, Pow2, Numer, Denom;
    NotLowestTerms(Numer(x), Denom(x), Numer(y), Denom(y));
    NotLowestTerms(Numer(y), Denom(y), Numer(x), Denom(x));
    if x.Fraction? { FractionTerms(x); }
    if y.Fraction? { FractionTerms(y); }
  }

  lemma FractionTerms(x: Number)
    requires x.Fraction? && Valid(x)
    ensures Numer(x) % P == 0 ==> Denom(x) % P != 0
  {
  }

  lemma NotLowestTerms(n: int, d: int, m: int, e: int)
    requires n * e == m * d
    ensures d % P == 0 && e % P != 0 ==> n % P == 0
  {
    if d % P == 0 && e % P != 0 {
      DivScale(P, d, m);
      CancelAny(e, n);
    }
  }

  // ---------- sign, folding, constants ----------

  function Opposite(x: Number): Number {
    match x
    case Int(n) => Int(-n)
    case Float(neg, m, e) => Float(!neg, m, e)
    case Decimal(c, s) => Decimal(-c, s)
    case Fraction(n, d) => Fraction(-n, d)
  }

  lemma OppositeIs(x: Number)
    ensures Numer(Opposite(x)) == -Numer(x) && Denom(Opposite(x)) == Denom(x)
    ensures Valid(x) ==> Valid(Opposite(x))
  {
    match x
    case Int(_) =>
    case Float(_, _, _) =>
    case Decimal(c, s) =>
      if s < 0 {
        NegatedProduct(c, Pow(10, -s));
      }
    case Fraction(n, d) =>
      if n % P == 0 || (-n) % P == 0 {
        NegatedMultiple(n);
      }
  }

  lemma NegatedProduct(a: int, b: int)
    ensures (-a) * b == -(a * b)
  {
  }

  lemma NegatedMultiple(n: int)
    ensures n % P == 0 <==> (-n) % P == 0
  {
    if n % P == 0 {
      DivScale(P, n, -1);
    }
    if (-n) % P == 0 {
      DivScale(P, -n, -1);
    }
  }

  /**
   The hash of a number that is not negative is its value modulo `2^61 - 1`, or 314159 where the
   denominator has no inverse. The hash of a negative one is that of its opposite, negated, and
   -2 in place of -1.
   */
  lemma HashExactly(x: Number)
    requires Valid(x)
    ensures P == 2305843009213693951
    ensures Numer(x) >= 0 && Denom(x) % P != 0 ==> 0 <= Hash(x) < P && (Hash(x) * Denom(x) - Numer(x)) % P == 0
    ensures Numer(x) >= 0 && Denom(x) % P == 0 ==> Hash(x) == 314159
    ensures Valid(Opposite(x)) && Numer(Opposite(x)) == -Numer(x) && Denom(Opposite(x)) == Denom(x)
    ensures Numer(x) < 0 ==> Hash(x) == if Hash(Opposite(x)) == 1 then -2 else -Hash(Opposite(x))
  {
    hide Pow, Quotient, Numer, Denom, Valid;
    DenomNotZero(x);
    OppositeIs(x);
    var y := if Numer(x) >= 0 then x else Opposite(x);
    DenomNotZero(y);
    if Denom(x) % P != 0 {
      var h := RationalHashDivides(Numer(y), Denom(y));
      RationalHashIs(Numer(x), Denom(x), h);
    }
  }

  /** Integers below the modulus are their own hashes, except -1. */
  lemma SmallIntHash(n: int)
    requires 0 - P < n < P
    ensures Hash(Int(n)) == if n == -1 then -2 else n
  {
    hide Pow, Hash;
    HashExactly(Int(n));
    var a := if n >= 0 then n else -n;
    HashExactly(Int(a));
    DivSmall(P, Hash(Int(a)) - a);
  }

  /** One half hashes to `2^60` as a float, as a decimal and as a fraction. */
  lemma HalfHash(x: Number)
    requires x == Float(false, 1, -1) || x == Decimal(5, 1) || x == Fraction(1, 2)
    ensures Valid(x) && Hash(x) == 1152921504606846976
  {
    HalfTerms(x);
    hide Hash, Numer, Denom, Valid;
    HashExactly(Fraction(1, 2));
    EqualNumbersHashAlike(x, Fraction(1, 2));
    DivSmall(P, 2 * Hash(Fraction(1, 2)) - 1 - P);
  }

  lemma HalfTerms(x: Number)
    requires x == Float(false, 1, -1) || x == Decimal(5, 1) || x == Fraction(1, 2)
    ensures Valid(x) && Numer(x) * 2 == Denom(x)
    ensures Valid(Fraction(1, 2)) && Numer(Fraction(1, 2)) == 1 && Denom(Fraction(1, 2)) == 2
  {
    assert Pow2(1) == 2 && Pow(10, 1) == 10 * Pow(10, 0);
  }

  // ---------- integers ----------

  /** `hash_i64` and `hash_bigint`. */
  method HashInt(n: int) returns (r: int)
    ensures r == Hash(Int(n))
    ensures r == if n >= 0 then n % P else if (-n) % P == 1 then -2 else -((-n) % P)
  {
    var x: int := Abs(n) % P;
    if n < 0 {
      x := -x;
    }
    r := if x == -1 then -2 else x;
    IntQuotient(n);
  }

  lemma IntQuotient(n: int)
    ensures Hash(Int(n)) == Finish(n < 0, Abs(n) % P)
  {
    hide Pow, Quotient, RationalHash;
    ModIdempotent(Abs(n), P);
    SameResidue(P, Abs(n) % P, Abs(n));
    RationalHashIs(n, 1, Abs(n) % P);
  }

  // ---------- fractions and decimals ----------

  function MulMod(a: nat, b: nat, m: nat): nat
    requires m > 0
  {
    (a * b) % m
  }

  lemma {:induction false} PowMul(a: int, b: int, e: nat)
    ensures Pow(a * b, e) == Pow(a, e) * Pow(b, e)
  {
    if e > 0 {
      PowMul(a, b, e - 1);
      Shuffle(a, Pow(a, e - 1), b, Pow(b, e - 1));
      Shuffle(a, b, Pow(a, e - 1), Pow(b, e - 1));
    }
  }

  lemma {:induction false} PowReduce(b: int, e: nat, m: int)
    requires m > 0
    ensures Pow(b % m, e) % m == Pow(b, e) % m
  {
    if e > 0 {
      PowReduce(b, e - 1, m);
      ReduceFactor(b, Pow(b % m, e - 1), Pow(b, e - 1), m);
    }
  }

  lemma ReduceFactor(b: int, p: int, q: int, m: int)
    requires m > 0 && p % m == q % m
    ensures ((b % m) * p) % m == (b * q) % m
  {
    ModMulLeft(b, p, m);
    ModMulRight(b, p, q, m);
  }

  /** `b^e` by squaring. */
  lemma PowHalve(b: int, e: nat)
    ensures Pow(b, e) == (if e % 2 == 1 then b else 1) * Pow(b * b, e / 2)
  {
    var k := e / 2;
    PowMul(b, b, k);
    PowAdd(b, k, k);
    if e % 2 == 1 {
      assert Pow(b, e) == b * Pow(b, k + k);
    }
  }

  /** One round of the square-and-multiply loop keeps `result * base^exp`. */
  lemma PowRound(result: nat, b: nat, e: nat, m: nat)
    requires m > 0
    ensures var next := if e % 2 == 1 then MulMod(result, b, m) else result;
            (next * Pow(MulMod(b, b, m), e / 2)) % m == (result * Pow(b, e)) % m
  {
    hide Pow;
    var k := e / 2;
    var p, q := Pow(b * b, k), Pow(MulMod(b, b, m), k);
    PowReduce(b * b, k, m);
    PowHalve(b, e);
    var f := if e % 2 == 1 then b else 1;
    var next := if e % 2 == 1 then MulMod(result, b, m) else result;
    ModMulLeft(result * f, q, m);
    ModMulLeft(next, q, m);
    if e % 2 == 1 {
      ModIdempotent(result * b, m);
    }
    ModMulRight(result * f, p, q, m);
    Reassociate(result, f, p);
  }

  lemma ModMulRight(a: int, x: int, y: int, m: int)
    requires m > 0 && x % m == y % m
    ensures (a * x) % m == (a * y) % m
  {
    ModMulLeft(x, a, m);
    ModMulLeft(y, a, m);
  }

  method PowMod(base: nat, exp: nat, m: nat) returns (result: nat)
    requires m > 1
    ensures result == Pow(base, exp) % m
  {
    var b: nat, e: nat := base % m, exp;
    result := 1;
    PowReduce(base, exp, m);
    while e > 0
      invariant result < m && (result * Pow(b, e)) % m == Pow(base, exp) % m
    {
      PowRound(result, b, e, m);
      if e % 2 == 1 {
        result := MulMod(result, b, m);
      }
      b := MulMod(b, b, m);
      e := e / 2;
    }
    Euclid(result, 0, result, m);
  }

  /** `rational_hash`, on operands already reduced. */
  method HashRational(n_abs_mod: nat, d_mod: nat, negative: bool) returns (r: int)
    ensures r == Finish(negative, if d_mod == 0 then HASH_INF else Quotient(n_abs_mod, d_mod))
  {
    hide Pow;
    var hash_abs: nat := HASH_INF;
    if d_mod != 0 {
      var d_inv := PowMod(d_mod, P - 2, P);
      hash_abs := MulMod(n_abs_mod, d_inv, P);
    }
    r := Finish(negative, hash_abs);
  }

  method HashFraction(n: int, d: nat) returns (r: int)
    requires Valid(Fraction(n, d))
    ensures r == Hash(Fraction(n, d))
  {
    r := HashRational(Abs(n) % P, d % P, n < 0);
  }

  /**
   `decimal_hash_slot`. The negated scale is converted to an unsigned exponent, 0 if that
   fails, which it does for the one scale whose negation wraps.
   */
  method HashDecimal(coefficient: int, scale: int) returns (r: int)
    requires Fits(scale)
    ensures r == if scale == MIN_I64 then Hash(Int(coefficient)) else Hash(Decimal(coefficient, scale))
    ensures r == Hash(Decimal(coefficient, scale)) <==> scale != MIN_I64 || coefficient % P == 0
  {
    hide Pow, Quotient;
    var m_mod := Abs(coefficient) % P;
    if scale >= 0 {
      var d := PowMod(10, scale, P);
      r := HashRational(m_mod, d, coefficient < 0);
    } else {
      var exp := if Negated(scale) >= 0 then Negated(scale) else 0;
      var p := PowMod(10, exp, P);
      r := HashRational(MulMod(m_mod, p, P), 1, coefficient < 0);
      Pow10NotZero(exp);
      ScaledNumerator(coefficient, Pow(10, exp));
      if scale == MIN_I64 {
        PowZero();
        LeastScale(coefficient, scale);
      }
    }
  }

  lemma PowZero()
    ensures Pow(10, 0) == 1
  {
  }

  /** One more full period of the multiplicative group changes nothing. */
  lemma PowerStep(k: nat, e: nat)
    requires Pow(10, e) % P == 1
    ensures Pow(10, k + e) % P == Pow(10, k) % P
  {
    hide Pow;
    PowAdd(10, k, e);
    ModMulRight(Pow(10, k), Pow(10, e), 1, P);
  }

  /** `10^(2^63)` is `10^8` modulo `p`, since `2^63 == 4 * (p - 1) + 8`. */
  lemma HugePower(e: nat)
    requires e == P - 1
    ensures Pow(10, 4 * e + 8) % P == 100_000_000
  {
    Fermat(10);
    assert Pow(10, 8) == 100_000_000;
    hide Pow;
    PowerStep(8, e);
    PowerStep(8 + e, e);
    PowerStep(8 + 2 * e, e);
    PowerStep(8 + 3 * e, e);
  }

  /** At the least scale the exponent is lost, and with it the hash, unless the hash is 0 anyway. */
  lemma LeastScale(c: int, scale: int)
    requires scale == MIN_I64
    ensures Hash(Decimal(c, scale)) == Hash(Int(c)) <==> c % P == 0
  {
    hide Pow, Quotient, RationalHash;
    var e: nat := P - 1;
    HugePower(e);
    var k := Pow(10, 4 * e + 8);
    assert 0 - scale == 4 * e + 8;
    Pow10NotZero(4 * e + 8);
    ScaledNumerator(c, k);
    IntQuotient(c);
    IntQuotient(c * k);
    LostFactor(c < 0, Abs(c) % P, MulMod(Abs(c) % P, k % P, P));
    AbsDivides(c);
  }

  lemma AbsDivides(c: int)
    ensures Abs(c) % P == 0 <==> c % P == 0
  {
    if c < 0 {
      SameResidue(P, c, 0);
      SameResidue(P, -c, 0);
      if c % P == 0 { DivScale(P, c, -1); }
      if (-c) % P == 0 { DivScale(P, -c, -1); }
    }
  }

  lemma LostFactor(negative: bool, a: nat, b: nat)
    requires a < P && b == (a * 100_000_000) % P
    ensures Finish(negative, a) == Finish(negative, b) <==> a == 0
  {
    if a == b {
      SameResidue(P, a * 100_000_000, a);
      CancelAny(99_999_999, a);
    }
  }

  /** `Decimal(1)` at scale `-2^63` does not hash like its equal `Decimal(10)` at scale `1 - 2^63`. */
  lemma LeastScaleUnequal(scale: int)
    requires scale == MIN_I64
    ensures Numer(Decimal(1, scale)) == Numer(Decimal(10, scale + 1)) && Denom(Decimal(1, scale)) == Denom(Decimal(10, scale + 1))
    ensures Hash(Int(1)) != Hash(Decimal(10, scale + 1))
  {
    var k: nat := -(scale + 1);
    assert Pow(10, k + 1) == 10 * Pow(10, k);
    hide Pow;
    LeastScale(1, scale);
    EqualNumbersHashAlike(Decimal(1, scale), Decimal(10, scale + 1));
  }

  lemma ScaledNumerator(c: int, p: int)
    requires p > 0
    ensures (c * p < 0 <==> c < 0) && Abs(c * p) % P == MulMod(Abs(c) % P, p % P, P)
  {
    SameSign(c, 1, c * p, p);
    ModMulLeft(Abs(c), p % P, P);
    ModMulLeft(p, Abs(c), P);
  }

  // ---------- floats ----------

  ghost predicate Congruent(x: int, y: int) {
    (x - y) % P == 0
  }

  lemma CongruentSelf(x: int)
    ensures Congruent(x, x)
  {
    DivIntro(P, 0, 0);
  }

  lemma CongruentSum(a: int, b: int, x: int, y: int)
    requires Congruent(a, b) && Congruent(x, y)
    ensures Congruent(a + x, b + y)
  {
    DivAdd(P, a - b, x - y);
  }

  lemma CongruentTrans(x: int, y: int, z: int)
    requires Congruent(x, y) && Congruent(y, z)
    ensures Congruent(x, z)
  {
    DivAdd(P, x - y, y - z);
  }

  lemma CongruentSym(x: int, y: int)
    requires Congruent(x, y)
    ensures Congruent(y, x)
  {
    DivScale(P, x - y, -1);
  }

  lemma CongruentMul(a: int, b: int, x: int, y: int)
    requires Congruent(a, b) && Congruent(x, y)
    ensures Congruent(a * x, b * y)
  {
    CancelWith(P, a - b, x - y, x, -b);
    CrossProducts(a, b, x, y);
  }

  lemma CrossProducts(a: int, b: int, x: int, y: int)
    ensures x * (a - b) - (-b) * (x - y) == a * x - b * y
  {
    Distribute(a, b, x);
    Distribute(x, y, b);
  }

  /** The residue of `2^z` for any integer `z`, from `2^61 == 1`. */
  function Shift(z: int): nat {
    Pow2(z % 61)
  }

  lemma ShiftSum(a: int, b: int)
    ensures Congruent(Shift(a) * Shift(b), Shift(a + b))
  {
    hide Pow2;
    var i, j := a % 61, b % 61;
    Pow2Add(i, j);
    if i + j < 61 {
      Euclid(a + b, a / 61 + b / 61, i + j, 61);
      CongruentSelf(Pow2(i + j));
    } else {
      Euclid(a + b, a / 61 + b / 61 + 1, i + j - 61, 61);
      Pow2Wraps(i + j - 61);
    }
  }

  lemma Pow2Wraps(k: nat)
    ensures Congruent(Pow2(k + 61), Pow2(k))
  {
    hide Pow2;
    Pow2Add(k, 61);
    Pow2At60();
    var y := Pow2(k);
    Distribute(P, 1, y);
    DivIntro(P, P * y, y);
  }

  lemma {:induction false} ShiftNat(k: nat)
    ensures Congruent(Pow2(k), Shift(k))
  {
    hide Pow2, Congruent;
    if k < 61 {
      CongruentSelf(Pow2(k));
    } else {
      ShiftNat(k - 61);
      Pow2Wraps(k - 61);
      Euclid(k, (k - 61) / 61 + 1, (k - 61) % 61, 61);
      CongruentTrans(Pow2(k), Pow2(k - 61), Shift(k - 61));
    }
  }

  function Halves(x: nat, u: nat, w: nat): nat
    requires w > 0
  {
    ProductNonNegative(x, u);
    (x * u) % (P + 1) + x / w
  }

  /** Rotation of a 61-bit word to the left; the two halves share no bit, so their union is their sum. */
  function Rotate(x: nat, r: nat): nat
    requires r <= 61
  {
    Halves(x, Pow2(r), Pow2(61 - r))
  }

  /** Rotating by `r` multiplies by `2^r` modulo `2^61 - 1`. */
  lemma RotateMultiplies(x: nat, r: nat)
    requires x < P && r <= 60
    ensures Rotate(x, r) < P && Congruent(Rotate(x, r), x * Pow2(r))
  {
    hide Pow2;
    Pow2Add(r, 61 - r);
    Pow2At60();
    RotateHalves(x, Pow2(r), Pow2(61 - r));
  }

  lemma RotateHalves(x: nat, u: nat, w: nat)
    requires x < P && u > 0 && w > 0 && u * w == P + 1
    ensures Halves(x, u, w) < P && Congruent(Halves(x, u, w), x * u)
  {
    var hi, lo := x / w, x % w;
    HalvesProduct(x, u, w, hi, lo);
    HalvesBound(u, w, hi, lo);
    Euclid(x * u, hi, lo * u, P + 1);
    DivIntro(P, lo * u + hi - x * u, -hi);
  }

  lemma HalvesProduct(x: nat, u: nat, w: nat, hi: nat, lo: nat)
    requires x == hi * w + lo && u * w == P + 1
    ensures x * u == hi * (P + 1) + lo * u
  {
    EqualFactors(x, hi * w + lo, u);
    Distribute(hi * w, lo, u);
    Reassociate(hi, w, u);
  }

  lemma HalvesBound(u: nat, w: nat, hi: nat, lo: nat)
    requires u > 0 && w > 0 && u * w == P + 1 && lo < w && hi * w + lo < P
    ensures 0 <= lo * u < P + 1 && lo * u + hi < P
  {
    ProductNonNegative(lo, u);
    Distribute(w - 1 - lo, lo, u);
    Distribute(w, 1, u);
    ProductNonNegative(w - 1 - lo, u);
    if hi >= u {
      Distribute(hi - u, u, w);
      ProductNonNegative(hi - u, w);
      assert false;
    }
    if lo == w - 1 {
      Distribute(u - 1 - hi, hi, w);
      Distribute(u, 1, w);
      if hi == u - 1 {
        assert false;
      }
    } else {
      ProductAtLeast(w - 1 - lo, u);
    }
  }

  /** `frexp` on a positive mantissa: shift it up to 53 bits. */
  function Normalize(m: nat, e: int): (r: (nat, int))
    requires 0 < m < 0x20_0000_0000_0000
    ensures 0x10_0000_0000_0000 <= r.0 < 0x20_0000_0000_0000
    decreases 0x20_0000_0000_0000 - m
  {
    if m >= 0x10_0000_0000_0000 then (m, e) else Normalize(2 * m, e - 1)
  }

  lemma {:induction false} NormalizeShifts(m: nat, e: int) returns (t: nat)
    requires 0 < m < 0x20_0000_0000_0000
    ensures Normalize(m, e).0 == m * Pow2(t) && Normalize(m, e).1 == e - t
    decreases 0x20_0000_0000_0000 - m
  {
    if m >= 0x10_0000_0000_0000 {
      t := 0;
    } else {
      t := NormalizeShifts(2 * m, e - 1);
      Reassociate(2, m, Pow2(t));
      t := t + 1;
    }
  }

  /** What the chunk loop has consumed: `a` whole units, and the fraction `m` still to come. */
  ghost predicate Consumed(m0: nat, e0: int, a: nat, m: nat, e: int, t: nat) {
    a * POINT + m == m0 * Pow2(t) && e == e0 - t && m < POINT
  }

  lemma ConsumeChunk(m0: nat, e0: int, a: nat, m: nat, e: int, t: nat)
    requires Consumed(m0, e0, a, m, e, t)
    ensures Consumed(m0, e0, a * CHUNK + (m * CHUNK) / POINT, (m * CHUNK) % POINT, e - 28, t + 28)
  {
    Pow2Add(t, 28);
    assert Pow2(14) == 0x4000;
    Pow2Add(14, 14);
    assert m0 * Pow2(t + 28) == (m0 * Pow2(t)) * CHUNK by {
      Reassociate(m0, Pow2(t), CHUNK);
    }
  }

  /** One rotation and one chunk. */
  lemma AbsorbChunk(x: nat, a: nat, y: nat)
    requires x < P && Congruent(x, a) && y < CHUNK
    ensures var z := Rotate(x, 28) + y;
            var w := if z >= P then z - P else z;
            0 <= w < P && Congruent(w, a * CHUNK + y)
  {
    hide Pow2, Rotate, Congruent;
    RotateMultiplies(x, 28);
    Pow2At28();
    var z := Rotate(x, 28) + y;
    CongruentSelf(CHUNK);
    CongruentMul(x, a, CHUNK, CHUNK);
    CongruentTrans(Rotate(x, 28), x * CHUNK, a * CHUNK);
    CongruentSelf(y);
    CongruentSum(Rotate(x, 28), a * CHUNK, y, y);
    if z >= P {
      DropModulus(z);
      CongruentTrans(z - P, z, a * CHUNK + y);
    }
  }

  lemma Pow2At28()
    ensures Pow2(28) == CHUNK
  {
    assert Pow2(14) == 0x4000;
    Pow2Add(14, 14);
  }

  lemma DropModulus(z: int)
    ensures Congruent(z - P, z)
  {
    DivIntro(P, 0 - P, -1);
  }

  /** The exponent the final rotation uses is `e` modulo 61, also for negative `e`. */
  function FinalShift(e: int): (r: nat)
    ensures r == e % 61
  {
    if e >= 0 then e % HASH_BITS else HASH_BITS - 1 - ((-1 - e) % HASH_BITS)
  }

  /** The chunks add up to the mantissa: rotating them into place gives `mantissa * 2^exponent`. */
  lemma ChunksDenote(mantissa: nat, exponent: int, a: nat, e: int, t: nat)
    requires a * POINT == mantissa * Pow2(t) && e == exponent + 56 - t
    ensures Congruent(a * Shift(e), mantissa * Shift(exponent))
  {
    hide Pow2, Shift, Congruent;
    // a * 2^56 and mantissa * 2^t
    CongruentSelf(a);
    PointShift();
    CongruentMul(a, a, POINT, Shift(56));
    ShiftNat(t);
    CongruentSelf(mantissa);
    CongruentMul(mantissa, mantissa, Pow2(t), Shift(t));
    CongruentSym(a * POINT, a * Shift(56));
    CongruentTrans(a * Shift(56), a * POINT, mantissa * Shift(t));
    // both shifted by exponent - t
    var f := exponent - t;
    ShiftBoth(a, 56, f);
    ShiftBoth(mantissa, t, f);
    CongruentSelf(Shift(f));
    CongruentMul(a * Shift(56), mantissa * Shift(t), Shift(f), Shift(f));
    CongruentSym((a * Shift(56)) * Shift(f), a * Shift(e));
    CongruentTrans(a * Shift(e), (a * Shift(56)) * Shift(f), (mantissa * Shift(t)) * Shift(f));
    CongruentTrans(a * Shift(e), (mantissa * Shift(t)) * Shift(f), mantissa * Shift(exponent));
  }

  lemma PointShift()
    ensures Congruent(POINT, Shift(56))
  {
    Pow2At28();
    hide Pow2;
    Pow2Add(28, 28);
    CongruentSelf(POINT);
  }

  lemma ShiftBoth(a: int, i: int, f: int)
    ensures Congruent((a * Shift(i)) * Shift(f), a * Shift(i + f))
  {
    hide Pow2, Shift, Congruent;
    ShiftSum(i, f);
    CongruentSelf(a);
    CongruentMul(a, a, Shift(i) * Shift(f), Shift(i + f));
    Reassociate(a, Shift(i), Shift(f));
  }

  /** `mantissa * 2^exponent` is the quotient of the float's numerator and denominator. */
  lemma FloatQuotient(negative: bool, mantissa: nat, exponent: int, h: nat)
    requires mantissa < 0x20_0000_0000_0000 && h < P && Congruent(h, mantissa * Shift(exponent))
    ensures Hash(Float(negative, mantissa, exponent)) == Finish(negative, h)
  {
    hide Pow2, Shift, Congruent, Quotient, RationalHash, Pow;
    var x := Float(negative, mantissa, exponent);
    DenomNotZero(x);
    if exponent >= 0 {
      WholeFloat(mantissa, exponent, h);
      ProductNonNegative(mantissa, Pow2(exponent));
      OneTimes(h);
    } else {
      PartFloat(mantissa, exponent, h);
    }
    FloatFinish(x, h);
  }

  lemma OneTimes(h: int)
    ensures h * 1 == h
  {
  }

  lemma WholeFloat(mantissa: nat, exponent: nat, h: nat)
    requires Congruent(h, mantissa * Shift(exponent))
    ensures Congruent(h, mantissa * Pow2(exponent))
  {
    hide Pow2, Shift, Congruent;
    ShiftNat(exponent);
    CongruentSelf(mantissa);
    CongruentMul(mantissa, mantissa, Pow2(exponent), Shift(exponent));
    CongruentSym(mantissa * Pow2(exponent), mantissa * Shift(exponent));
    CongruentTrans(h, mantissa * Shift(exponent), mantissa * Pow2(exponent));
  }

  lemma PartFloat(mantissa: nat, exponent: int, h: nat)
    requires exponent < 0 && Congruent(h, mantissa * Shift(exponent))
    ensures Congruent(h * Pow2(-exponent), mantissa)
  {
    hide Pow2, Shift, Congruent;
    ShiftNat(-exponent);
    CongruentMul(h, mantissa * Shift(exponent), Pow2(-exponent), Shift(-exponent));
    ShiftBoth(mantissa, exponent, -exponent);
    ShiftZero();
    CongruentTrans(h * Pow2(-exponent), (mantissa * Shift(exponent)) * Shift(-exponent), mantissa * Shift(0));
  }

  lemma ShiftZero()
    ensures Shift(0) == 1
  {
  }

  lemma FloatFinish(x: Number, h: nat)
    requires x.Float? && Valid(x) && h < P && Denom(x) > 0 && Denom(x) % P != 0 && Congruent(h * Denom(x), Abs(Numer(x)))
    ensures Hash(x) == Finish(x.negative, h)
  {
    hide Pow, Pow2, Quotient, RationalHash;
    RationalHashIs(Numer(x), Denom(x), h);
    if Numer(x) == 0 {
      DivSmallQuotient(h, Denom(x));
    }
    NumerSign(x);
  }

  lemma DivSmallQuotient(h: nat, d: int)
    requires h < P && d % P != 0 && Congruent(h * d, 0)
    ensures h == 0
  {
    CancelAny(d, h);
    DivSmall(P, h);
  }

  lemma NumerSign(x: Number)
    requires x.Float?
    ensures Numer(x) < 0 ==> x.negative
    ensures Numer(x) > 0 ==> !x.negative
  {
    if x.exponent >= 0 {
      ProductNonNegative(x.mantissa, Pow2(x.exponent));
    }
  }

  /** `hash_double` and `float_hash_impl` on finite values. */
  method HashFloat(negative: bool, mantissa: nat, exponent: int) returns (r: int)
    requires mantissa < 0x20_0000_0000_0000
    ensures r == Hash(Float(negative, mantissa, exponent))
  {
    var m: nat, e := 0, 0;
    if mantissa != 0 {
      var (m53, e53) := Normalize(mantissa, exponent);
      m, e := m53 * 8, e53 + 53;
    }
    var x := ChunkLoop(m, e, mantissa, exponent);
    FloatQuotient(negative, mantissa, exponent, x);
    r := Finish(negative, x);
  }

  /** The rotating accumulator: 28 bits of the fraction at a time, then the exponent. */
  method ChunkLoop(m0: nat, e0: int, ghost mantissa: nat, ghost exponent: int) returns (x: nat)
    requires mantissa < 0x20_0000_0000_0000
    requires if mantissa == 0 then m0 == 0 && e0 == 0
             else (m0, e0) == (Normalize(mantissa, exponent).0 * 8, Normalize(mantissa, exponent).1 + 53)
    ensures x < P && Congruent(x, mantissa * Shift(exponent))
  {
    hide Pow2, Shift, Congruent, Rotate, Consumed;
    x := 0;
    var m: nat, e := m0, e0;
    ghost var a: nat, t: nat := 0, 0;
    CongruentSelf(0);
    NothingConsumed(mantissa, exponent, m0, e0);
    while m != 0
      invariant Consumed(m0, e0, a, m, e, t) && m < POINT && x < P && Congruent(x, a)
      decreases if m == 0 then 0 else if m % CHUNK == 0 then 1 else 2
    {
      ConsumeChunk(m0, e0, a, m, e, t);
      ChunkBounds(m);
      AbsorbChunk(x, a, (m * CHUNK) / POINT);
      x := Rotate(x, 28);
      m := m * CHUNK;
      e := e - 28;
      var y := m / POINT;
      m := m % POINT;
      x := x + y;
      if x >= P {
        x := x - P;
      }
      a, t := a * CHUNK + y, t + 28;
    }
    AllConsumed(mantissa, exponent, m0, e0, a, e, t, x);
    x := Rotate(x, FinalShift(e));
  }

  lemma ChunkBounds(m: nat)
    requires m < POINT
    ensures (m * CHUNK) / POINT < CHUNK
    ensures (m * CHUNK) % POINT == (m % CHUNK) * CHUNK
  {
    var q, r := m / CHUNK, m % CHUNK;
    Euclid(m * CHUNK, q, r * CHUNK, POINT);
  }

  lemma NothingConsumed(mantissa: nat, exponent: int, m0: nat, e0: int)
    requires mantissa < 0x20_0000_0000_0000
    requires if mantissa == 0 then m0 == 0 && e0 == 0
             else (m0, e0) == (Normalize(mantissa, exponent).0 * 8, Normalize(mantissa, exponent).1 + 53)
    ensures m0 < POINT && Consumed(m0, e0, 0, m0, e0, 0)
  {
  }

  /** When the fraction is used up, the final rotation completes the value. */
  lemma AllConsumed(mantissa: nat, exponent: int, m0: nat, e0: int, a: nat, e: int, t: nat, x: nat)
    requires mantissa < 0x20_0000_0000_0000
    requires if mantissa == 0 then m0 == 0 && e0 == 0
             else (m0, e0) == (Normalize(mantissa, exponent).0 * 8, Normalize(mantissa, exponent).1 + 53)
    requires Consumed(m0, e0, a, 0, e, t) && x < P && Congruent(x, a)
    ensures Rotate(x, FinalShift(e)) < P
    ensures Congruent(Rotate(x, FinalShift(e)), mantissa * Shift(exponent))
  {
    hide Pow2, Congruent, Rotate;
    RotateMultiplies(x, FinalShift(e));
    CongruentSelf(Shift(e));
    CongruentMul(x, a, Shift(e), Shift(e));
    CongruentTrans(Rotate(x, FinalShift(e)), x * Shift(e), a * Shift(e));
    if mantissa == 0 {
      assert a == 0;
    } else {
      var j := NormalizeShifts(mantissa, exponent);
      EightTimes(mantissa, j, t, m0);
      ChunksDenote(mantissa, exponent, a, e, j + 3 + t);
      CongruentTrans(Rotate(x, FinalShift(e)), a * Shift(e), mantissa * Shift(exponent));
    }
  }

  lemma EightTimes(mantissa: nat, j: nat, t: nat, m0: nat)
    requires m0 == (mantissa * Pow2(j)) * 8
    ensures m0 * Pow2(t) == mantissa * Pow2(j + 3 + t)
  {
    assert Pow2(3) == 8;
    hide Pow2;
    Pow2Add(j, 3);
    Pow2Add(j + 3, t);
    Reassociate(mantissa, Pow2(j), 8);
    Reassociate(mantissa, Pow2(j + 3), Pow2(t));
  }
}
