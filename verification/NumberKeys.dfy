/**
 Which numbers share a dictionary key. Without floats: exactly the numbers of one rational value,
 except that a decimal and a fraction meet only in integers. A float meets an integer by the
 round-trip test and nothing else.
 */
module NumberKeys {
  import opened Prelude
  import opened Arith
  import opened Machine
  import opened Floats
  import opened KeyHash

  // ---------- the rational a number denotes ----------

  /** Numerator and denominator; floats are left to `Integral` and `IntValue`. */
  function Num(x: Number): int {
    match x
    case VBool(b) => if b then 1 else 0
    case VInt(i) => i
    case VBigInt(n) => n
    case VFloat(_) => 0
    case VDecimal(c, s) => if s < 0 then c * Pow(10, -s) else c
    case VFraction(n, _) => n
  }

  function Den(x: Number): int {
    match x
    case VDecimal(_, s) => if s > 0 then Pow(10, s) else 1
    case VFraction(_, d) => d
    case _ => 1
  }

  ghost predicate SameRational(x: Number, y: Number) {
    Num(x) * Den(y) == Num(y) * Den(x)
  }

  ghost predicate LowestTerms(n: int, d: int) {
    d > 0 && exists u, v :: Combines(u, v, n, d)
  }

  ghost predicate Combines(u: int, v: int, n: int, d: int) {
    u * n + v * d == 1
  }

  /** Fractions are kept in lowest terms. */
  ghost predicate NumberOk(x: Number) {
    match x
    case VFloat(f) => BitsOk(f)
    case VFraction(n, d) => LowestTerms(n, d)
    case _ => true
  }

  // ---------- decimals ----------

  /** The decimal form every number but a fraction or float has. */
  function Coefficient(x: Number): int {
    if x.VDecimal? then x.c else Num(x)
  }

  function Scale(x: Number): int {
    if x.VDecimal? then x.s else 0
  }

  lemma AsScaled(x: Number, m: nat)
    requires !x.VFloat? && !x.VFraction? && Scale(x) <= m
    ensures Num(x) * Pow(10, m) == (Coefficient(x) * Pow(10, m - Scale(x))) * Den(x)
    ensures Den(x) > 0
  {
    var c, s := Coefficient(x), Scale(x);
    assert Pow(10, 0) == 1;
    hide Pow;
    if s < 0 {
      PowAdd(10, -s, m);
      Reassociate(c, Pow(10, -s), Pow(10, m));
    } else {
      Pow10Positive(s);
      PowAdd(10, m - s, s);
      Reassociate(c, Pow(10, m - s), Pow(10, s));
    }
  }

  /** Decimals have one value exactly if they have one rational. */
  lemma DecimalRational(x: Number, y: Number)
    requires !x.VFloat? && !x.VFraction? && !y.VFloat? && !y.VFraction?
    ensures SameRational(x, y) <==> SameDecimal(Coefficient(x), Scale(x), Coefficient(y), Scale(y))
  {
    hide Pow, SameDecimal, Num, Den, Coefficient, Scale;
    var m: nat := if Scale(x) >= 0 && Scale(x) >= Scale(y) then Scale(x) else if Scale(y) >= 0 then Scale(y) else 0;
    DecimalAt(Coefficient(x), Scale(x), Coefficient(y), Scale(y), m);
    AsScaled(x, m);
    AsScaled(y, m);
    Pow10Positive(m);
    CrossScaled(Num(x), Den(x), Num(y), Den(y), Pow(10, m), Coefficient(x) * Pow(10, m - Scale(x)), Coefficient(y) * Pow(10, m - Scale(y)));
  }

  lemma CrossScaled(n: int, d: int, m: int, e: int, w: int, a: int, b: int)
    requires w > 0 && d > 0 && e > 0 && n * w == a * d && m * w == b * e
    ensures n * e == m * d <==> a == b
  {
    assert (n * e) * w == (n * w) * e == (a * d) * e == a * (d * e) by { Swap3(n, e, w); Reassociate(a, d, e); }
    assert (m * d) * w == (m * w) * d == (b * e) * d == b * (d * e) by { Swap3(m, d, w); Reassociate(b, e, d); }
    if n * e == m * d {
      ProductAtLeast(d, e);
      CancelFactor(a, b, d * e);
    }
    if a == b {
      CancelFactor(n * e, m * d, w);
    }
  }

  lemma Swap3(a: int, b: int, c: int)
    ensures (a * b) * c == (a * c) * b
  {
  }

  /** Stripping zeros keeps the value. */
  lemma {:induction false} NormalizedSame(c: int, s: int)
    ensures SameDecimal(c, s, Normalized(c, s).0, Normalized(c, s).1)
    decreases if c < 0 then -c else c
  {
    if c == 0 {
      assert 0 * Pow(10, if s <= 0 then -s else s) == 0;
    } else if c % 10 == 0 {
      NormalizedSame(c / 10, s - 1);
      assert Pow(10, 1) == 10 * Pow(10, 0) && Pow(10, 0) == 1;
      DecimalTransitive(c, s, c / 10, s - 1, Normalized(c, s).0, Normalized(c, s).1);
    } else {
      DecimalReflexive(c, s);
    }
  }

  /** A decimal's key: the integer it denotes, or itself. */
  lemma DecimalKey(c: int, s: int)
    ensures var k := ToKey(VDecimal(c, s));
            if k.KDecimal? then k == KDecimal(c, s) && forall n: int :: !SameDecimal(c, s, n, 0)
            else exists n: int :: k == BigIntToKey(n) && SameDecimal(c, s, n, 0)
  {
    hide SameDecimal;
    var (m, t) := Normalized(c, s);
    NormalizedSame(c, s);
    if t <= 0 {
      ScaleToZero(m, t);
      var n := m * Pow(10, -t);
      DecimalTransitive(c, s, m, t, n, 0);
    } else {
      forall n: int ensures !SameDecimal(c, s, n, 0) {
        if SameDecimal(c, s, n, 0) {
          NormalizedUnique(c, s, n, 0);
          NormalizedInt(n, 0);
          assert false;
        }
      }
    }
  }

  lemma ScaleToZero(m: int, t: int)
    requires t <= 0
    ensures SameDecimal(m, t, m * Pow(10, -t), 0)
  {
  }

  // ---------- fractions ----------

  /** In lowest terms, equal fractions have equal terms. */
  lemma LowestUnique(n: int, d: int, m: int, e: int)
    requires LowestTerms(n, d) && LowestTerms(m, e) && n * e == m * d
    ensures n == m && d == e
  {
    var u, v :| Combines(u, v, n, d);
    var x, y :| Combines(x, y, m, e);
    DividesBack(u, v, n, d, m, e);
    DividesBack(x, y, m, e, n, d);
    var a, b := u * m + v * e, x * n + y * d;
    MutualFactors(d, e, a, b);
    CancelFactor(n, m, d);
  }

  /** `e` is a multiple of `d`. */
  lemma DividesBack(u: int, v: int, n: int, d: int, m: int, e: int)
    requires Combines(u, v, n, d) && n * e == m * d
    ensures e == (u * m + v * e) * d
  {
    assert (u * n) * e == u * (n * e) == u * (m * d) == (u * m) * d by { Reassociate(u, n, e); Reassociate(u, m, d); }
    assert (v * d) * e == (v * e) * d by { Swap3(v, d, e); }
    assert e == (u * n + v * d) * e == (u * n) * e + (v * d) * e by { Spread(u * n, v * d, e); }
    Spread(u * m, v * e, d);
  }

  lemma Spread(a: int, b: int, c: int)
    ensures (a + b) * c == a * c + b * c
  {
  }

  lemma MutualFactors(d: int, e: int, a: int, b: int)
    requires d > 0 && e > 0 && e == a * d && d == b * e
    ensures d == e
  {
    if a <= 0 { Monotone(a, 0, d); assert false; }
    if b <= 0 { Monotone(b, 0, e); assert false; }
    Monotone(1, a, d);
    Monotone(1, b, e);
  }

  // ---------- which numbers share a key ----------

  /** `k` is the key of the integer `n`. */
  predicate IntKey(k: Key, n: int) {
    k == KInt(n) || k == KBigInt(n) || (k.KBool? && n == AsInt(k.b))
  }

  /** `x` denotes `n` and has its key. */
  ghost predicate KeyedAs(x: Number, n: int) {
    Denotes(x, n) && IntKey(ToKey(x), n)
  }

  /** `x` denotes no integer and keeps a key of its own kind. */
  ghost predicate KeepsKind(x: Number) {
    && (forall n: int :: !Denotes(x, n))
    && (x.VDecimal? || x.VFraction?)
    && ToKey(x) == if x.VDecimal? then KDecimal(x.c, x.s) else KFraction(x.num, x.den)
  }

  lemma KeyShape(x: Number)
    requires !x.VFloat? && NumberOk(x)
    ensures (exists n: int :: KeyedAs(x, n)) || KeepsKind(x)
  {
    hide SameDecimal, Normalized;
    match x
    case VDecimal(c, s) =>
      DecimalKey(c, s);
      if !ToKey(x).KDecimal? {
        var n: int :| ToKey(x) == BigIntToKey(n) && SameDecimal(c, s, n, 0);
        assert KeyedAs(x, n);
      }
    case VBool(b) => assert KeyedAs(x, AsInt(b));
    case VInt(i) => assert KeyedAs(x, i);
    case VBigInt(n) => assert KeyedAs(x, n);
    case VFraction(n, d) => if d == 1 { assert KeyedAs(x, n); }
  }

  lemma DenotesRational(x: Number, n: int)
    requires !x.VFloat? && NumberOk(x)
    ensures Denotes(x, n) <==> SameRational(x, VBigInt(n))
    ensures Den(x) > 0 && Num(VBigInt(n)) == n && Den(VBigInt(n)) == 1
  {
    hide SameDecimal, LowestTerms;
    if x.VFraction? {
      WholeFraction(x.num, x.den, n);
    } else {
      DecimalRational(x, VBigInt(n));
      if !x.VDecimal? { IntDecimals(Num(x), n); }
      Pow10Positive(if x.VDecimal? && x.s > 0 then x.s else 0);
    }
  }

  lemma IntDecimals(a: int, b: int)
    ensures SameDecimal(a, 0, b, 0) <==> a == b
  {
    assert Pow(10, 0) == 1;
  }

  lemma WholeFraction(n: int, d: int, m: int)
    requires LowestTerms(n, d)
    ensures d > 0 && (d == 1 && m == n <==> n * 1 == m * d)
  {
    if n * 1 == m * d {
      assert Combines(0, 1, m, 1);
      LowestUnique(n, d, m, 1);
    }
  }

  lemma RationalTransitive(n: int, d: int, m: int, e: int, k: int, f: int)
    requires d > 0 && e > 0 && f > 0 && n * e == m * d && m * f == k * e
    ensures n * f == k * d
  {
    assert (n * f) * e == (n * e) * f == (m * d) * f == (m * f) * d == (k * e) * d == (k * d) * e by {
      Swap3(n, f, e);
      Swap3(m, d, f);
      Swap3(k, e, d);
    }
    CancelFactor(n * f, k * d, e);
  }

  /** The source keeps decimals and fractions apart, except where both are integers. */
  predicate Mixed(x: Number, y: Number) {
    (x.VDecimal? && y.VFraction? && y.den != 1) || (y.VDecimal? && x.VFraction? && x.den != 1)
  }

  /** Integers and bools, big or not, decimals and fractions share a key exactly if they are one rational, but for a decimal and a fraction that are no integer. */
  lemma SharedKeyExactly(x: Number, y: Number)
    requires NumberOk(x) && NumberOk(y) && !x.VFloat? && !y.VFloat?
    ensures KeyEq(ToKey(x), ToKey(y)) <==> SameRational(x, y) && !Mixed(x, y)
  {
    hide ToKey, Denotes, NumberOk, KeyEq, Num, Den;
    KeyShape(x);
    KeyShape(y);
    if n: int :| KeyedAs(x, n) {
      IntegerShares(x, n, y);
    } else if m: int :| KeyedAs(y, m) {
      IntegerShares(y, m, x);
      KeyFlips(x, y);
    } else {
      KindShares(x, y);
    }
  }

  lemma KeyFlips(x: Number, y: Number)
    requires NumberOk(x) && NumberOk(y) && !x.VFloat? && !y.VFloat?
    ensures KeyEq(ToKey(x), ToKey(y)) <==> KeyEq(ToKey(y), ToKey(x))
    ensures SameRational(x, y) <==> SameRational(y, x)
  {
    hide Num, Den, Normalized;
    var k, l := ToKey(x), ToKey(y);
    if k.KDecimal? && l.KDecimal? {
      if KeyEq(k, l) { DecimalSymmetric(k.coefficient, k.scale, l.coefficient, l.scale); }
      if KeyEq(l, k) { DecimalSymmetric(l.coefficient, l.scale, k.coefficient, k.scale); }
    }
  }

  lemma IntegerShares(x: Number, n: int, y: Number)
    requires NumberOk(x) && NumberOk(y) && !x.VFloat? && !y.VFloat? && KeyedAs(x, n)
    requires (exists m: int :: KeyedAs(y, m)) || KeepsKind(y)
    ensures KeyEq(ToKey(x), ToKey(y)) <==> SameRational(x, y) && !Mixed(x, y)
  {
    hide ToKey, NumberOk, KeyEq, SameRational, KeepsKind;
    if m: int :| KeyedAs(y, m) {
      IntegerNotMixed(x, n, y, m);
      SameIntegers(x, n, y, m);
      IntKeysMeet(ToKey(x), n, ToKey(y), m);
    } else {
      NoInteger(x, n, y);
      IntKeyAlone(ToKey(x), n, y);
    }
  }

  lemma IntegerNotMixed(x: Number, n: int, y: Number, m: int)
    requires KeyedAs(x, n) && KeyedAs(y, m)
    ensures !Mixed(x, y)
  {
    hide SameDecimal;
  }

  lemma IntKeysMeet(k: Key, n: int, l: Key, m: int)
    requires IntKey(k, n) && IntKey(l, m)
    ensures KeyEq(k, l) <==> n == m
  {
  }

  lemma IntKeyAlone(k: Key, n: int, y: Number)
    requires IntKey(k, n) && KeepsKind(y)
    ensures !KeyEq(k, ToKey(y))
  {
    hide Normalized;
  }

  lemma NoInteger(x: Number, n: int, y: Number)
    requires NumberOk(x) && NumberOk(y) && !x.VFloat? && KeyedAs(x, n) && KeepsKind(y)
    ensures !SameRational(x, y)
  {
    hide ToKey, NumberOk, Num, Den, Denotes;
    DenotesRational(x, n);
    DenotesRational(y, n);
    if SameRational(x, y) {
      RationalTransitive(Num(y), Den(y), Num(x), Den(x), n, 1);
      assert false;
    }
  }

  lemma SameIntegers(x: Number, n: int, y: Number, m: int)
    requires NumberOk(x) && NumberOk(y) && !x.VFloat? && !y.VFloat? && Denotes(x, n) && Denotes(y, m)
    ensures SameRational(x, y) <==> n == m
  {
    hide NumberOk, Num, Den, Denotes;
    DenotesRational(x, n);
    DenotesRational(y, m);
    if n == m {
      RationalTransitive(Num(x), Den(x), n, 1, Num(y), Den(y));
    }
    if SameRational(x, y) {
      RationalTransitive(Num(y), Den(y), Num(x), Den(x), n, 1);
      OneInteger(Num(y), Den(y), n, m);
    }
  }

  lemma OneInteger(a: int, d: int, n: int, m: int)
    requires d > 0 && a * 1 == n * d && a * 1 == m * d
    ensures n == m
  {
    CancelFactor(n, m, d);
  }

  lemma KindShares(x: Number, y: Number)
    requires NumberOk(x) && NumberOk(y) && KeepsKind(x) && KeepsKind(y)
    ensures KeyEq(ToKey(x), ToKey(y)) <==> SameRational(x, y) && !Mixed(x, y)
  {
    hide ToKey, LowestTerms, SameDecimal;
    if x.VDecimal? && y.VDecimal? {
      DecimalRational(x, y);
    } else if x.VFraction? && y.VFraction? {
      if SameRational(x, y) {
        LowestUnique(x.num, x.den, y.num, y.den);
      }
    } else if x.VFraction? {
      NotWhole(x.num, x.den);
    } else {
      NotWhole(y.num, y.den);
    }
  }

  lemma NotWhole(n: int, d: nat)
    requires KeepsKind(VFraction(n, d))
    ensures d != 1
  {
    assert Denotes(VFraction(n, d), n) <==> d == 1;
  }

  /** A float shares the key of another type's number exactly on the `i64` integers, and at `2^63` with `2^63 - 1`. */
  lemma FloatSharesExactly(f: F64, y: Number)
    requires BitsOk(f) && NumberOk(y) && !y.VFloat?
    ensures KeyEq(ToKey(VFloat(f)), ToKey(y))
       <==> Integral(f) && Denotes(y, if Fits(IntValue(f)) then IntValue(f) else MAX_I64) && (Fits(IntValue(f)) || IntValue(f) == MAX_I64 + 1)
  {
    hide Integral, IntValue, NumberOk, FloatKeyInt;
    KeyShape(y);
    if m: int :| KeyedAs(y, m) {
      FloatMeets(f, ToKey(y), m);
      forall n: int | Denotes(y, n) ensures n == m {
        DenotesRational(y, n);
        DenotesRational(y, m);
        OneInteger(Num(y), Den(y), n, m);
      }
    }
  }

  lemma FloatMeets(f: F64, k: Key, n: int)
    requires BitsOk(f) && IntKey(k, n)
    ensures KeyEq(KFloat(f), k)
       <==> Integral(f) && if Fits(IntValue(f)) then IntValue(f) == n else IntValue(f) == MAX_I64 + 1 && n == MAX_I64
  {
    hide FloatKeyInt, Integral, IntValue;
    FloatKeyMeetsInt(f, n);
    assert KeyEq(KFloat(f), k) <==> FloatKeyInt(f) == Some(n);
    assert KeyEq(KFloat(f), BigIntToKey(n)) <==> FloatKeyInt(f) == Some(n);
  }
}
