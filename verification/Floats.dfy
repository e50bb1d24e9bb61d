/**
 Finite `f64` values by their bit fields: the integer an integral float denotes, the
 conversion of an integer to the nearest float, and the round-trip test that decides
 whether a float counts as an `i64`.
 */
module Floats {
  import opened Prelude
  import opened Arith
  import opened Machine

  /** The fields of an `f64`: sign, biased exponent (11 bits), fraction (52 bits). */
  datatype F64 = F64(negative: bool, exponent: nat, fraction: nat)

  const HIDDEN: nat := 0x10_0000_0000_0000   // 2^52

  predicate BitsOk(f: F64) {
    f.exponent < 2048 && f.fraction < HIDDEN
  }

  predicate Finite(f: F64) {
    f.exponent < 2047
  }

  predicate Zero(f: F64) {
    f.exponent == 0 && f.fraction == 0
  }

  /** `==` on finite floats: the two zeros are equal. */
  predicate FloatEq(f: F64, g: F64) {
    f == g || (Zero(f) && Zero(g))
  }

  /** The magnitude is `Mantissa(f) * 2^Scale(f)`. */
  function Mantissa(f: F64): nat {
    if f.exponent == 0 then f.fraction else HIDDEN + f.fraction
  }

  function Scale(f: F64): int {
    if f.exponent == 0 then -1074 else f.exponent - 1075
  }

  ghost predicate Integral(f: F64) {
    Finite(f) && (Scale(f) >= 0 || Mantissa(f) % Pow2(-Scale(f)) == 0)
  }

  ghost function IntValue(f: F64): int
    requires Integral(f)
  {
    var m := if Scale(f) >= 0 then Mantissa(f) * Pow2(Scale(f)) else Mantissa(f) / Pow2(-Scale(f));
    if f.negative then -m else m
  }

  // ---------- from an integer to the nearest float ----------

  /** The position of the highest bit. */
  function TopBit(n: nat): (k: nat)
    requires n > 0
    ensures Pow2(k) <= n < Pow2(k + 1)
  {
    if n == 1 then 0 else 1 + TopBit(n / 2)
  }

  /** The 53 highest bits of `n`, rounded to the nearest, ties to even. */
  function RoundMantissa(n: nat, k: nat): nat {
    if k <= 52 then n * Pow2(52 - k)
    else
      var w := Pow2(k - 52);
      var q, r := n / w, n % w;
      if 2 * r > w || (2 * r == w && q % 2 == 1) then q + 1 else q
  }

  /** `i as f64`. */
  function ToF64(i: int): F64 {
    if i == 0 then F64(false, 0, 0)
    else
      var n := Abs(i);
      var k := TopBit(n);
      var m := RoundMantissa(n, k);
      RoundRange(n, k);
      if m == 2 * HIDDEN then F64(i < 0, k + 1024, 0) else F64(i < 0, k + 1023, m - HIDDEN)
  }

  lemma HiddenIsPow2()
    ensures Pow2(52) == HIDDEN && Pow2(53) == 2 * HIDDEN
  {
    assert Pow2(13) == 0x2000;
    Pow2Add(13, 13);
    assert Pow2(26) == 0x400_0000;
    Pow2Add(26, 26);
  }

  lemma Monotone(a: int, b: int, w: int)
    requires w > 0
    ensures a <= b <==> a * w <= b * w
    ensures a < b <==> a * w < b * w
  {
    if a < b {
      Distribute(b, a, w);
      ProductAtLeast(b - a, w);
    } else if a > b {
      Distribute(a, b, w);
      ProductAtLeast(a - b, w);
    }
  }

  /** `2^a * w` bounds `n * w` exactly if `2^a` bounds `n`. */
  lemma ScaledBounds(n: nat, a: nat, b: nat)
    ensures Pow2(a) <= n < Pow2(a + 1) <==> Pow2(a + b) <= n * Pow2(b) < Pow2(a + b + 1)
  {
    Pow2Add(a, b);
    Pow2Add(a + 1, b);
    Monotone(Pow2(a), n, Pow2(b));
    Monotone(n, Pow2(a + 1), Pow2(b));
  }

  lemma QuotientBounds(n: nat, lo: nat, hi: nat, w: nat)
    requires w > 0 && lo * w <= n < hi * w
    ensures lo <= n / w < hi
  {
    var q, r := n / w, n % w;
    if q < lo {
      Monotone(q + 1, lo, w);
      Distribute(q, 1, w);
    }
    if q >= hi {
      Monotone(hi, q, w);
    }
  }

  lemma RoundRange(n: nat, k: nat)
    requires Pow2(k) <= n < Pow2(k + 1)
    ensures HIDDEN <= RoundMantissa(n, k) <= 2 * HIDDEN
  {
    HiddenIsPow2();
    hide Pow2;
    if k <= 52 {
      ScaledBounds(n, k, 52 - k);
    } else {
      var w := Pow2(k - 52);
      Pow2Add(52, k - 52);
      Pow2Add(53, k - 52);
      QuotientBounds(n, HIDDEN, 2 * HIDDEN, w);
    }
  }

  /** Rounding moves the magnitude by at most half a unit of its last place, and by exactly half only to an even one. */
  lemma RoundIsNearest(n: nat, k: nat)
    requires k > 52
    ensures var w := Pow2(k - 52); 2 * Abs(RoundMantissa(n, k) * w - n) <= w
    ensures var w := Pow2(k - 52); 2 * Abs(RoundMantissa(n, k) * w - n) == w ==> RoundMantissa(n, k) % 2 == 0
  {
    var w := Pow2(k - 52);
    var q := n / w;
    assert n == q * w + n % w;
    Distribute(q, 1, w);
  }

  lemma TopBitIs(n: nat, k: nat)
    requires n > 0 && Pow2(k) <= n < Pow2(k + 1)
    ensures TopBit(n) == k
  {
    hide Pow2;
    var t := TopBit(n);
    if t < k {
      Pow2Less(t + 1, k);
    } else if k < t {
      Pow2Less(k + 1, t);
    }
  }

  // ---------- the integer of an integral float ----------

  lemma QuotientSign(m: nat, w: nat)
    requires w > 0
    ensures m / w >= 0 && (m % w == 0 ==> (m / w) * w == m)
  {
  }

  lemma MagnitudeScaled(f: F64)
    requires Integral(f)
    ensures var v := Abs(IntValue(f));
            if Scale(f) >= 0 then v == Mantissa(f) * Pow2(Scale(f)) else v * Pow2(-Scale(f)) == Mantissa(f)
    ensures IntValue(f) != 0 ==> (IntValue(f) < 0 <==> f.negative)
  {
    hide Pow2;
    if Scale(f) >= 0 {
      ProductNonNegative(Mantissa(f), Pow2(Scale(f)));
    } else {
      QuotientSign(Mantissa(f), Pow2(-Scale(f)));
    }
  }

  /** A non-zero integer value needs a normalised float. */
  lemma IntegralIsNormal(f: F64)
    requires BitsOk(f) && Integral(f) && IntValue(f) != 0
    ensures f.exponent > 0
  {
    if f.exponent == 0 {
      Pow2Less(60, 1074);
      assert Pow2(60) > HIDDEN by { Pow2At60(); }
      hide Pow2;
      Euclid(f.fraction, 0, f.fraction, Pow2(1074));
      assert false;
    }
  }

  lemma ZeroValue(f: F64)
    requires BitsOk(f) && Integral(f) && IntValue(f) == 0
    ensures Zero(f)
  {
    hide Pow2;
    MagnitudeScaled(f);
    if Scale(f) >= 0 {
      ProductAtLeast(Pow2(Scale(f)), Mantissa(f));
    }
  }

  lemma ZeroIsIntegral(f: F64)
    requires Zero(f)
    ensures Integral(f) && IntValue(f) == 0
  {
    var k: nat := 1074;
    assert Scale(f) == 0 - k;
    hide Pow2;
    Euclid(0, 0, 0, Pow2(k));
  }

  /** The highest bit of an integral float's magnitude is that of its mantissa. */
  lemma TopBitOf(v: nat, m: nat, s: int)
    requires v > 0 && HIDDEN <= m < 2 * HIDDEN
    requires if s >= 0 then v == m * Pow2(s) else v * Pow2(-s) == m
    ensures 52 + s >= 0 && TopBit(v) == 52 + s && RoundMantissa(v, 52 + s) == m
  {
    HiddenIsPow2();
    hide Pow2;
    if s >= 0 {
      ScaledBounds(m, 52, s);
      TopBitIs(v, 52 + s);
      Euclid(v, m, 0, Pow2(s));
      assert s == 0 ==> Pow2(s) == 1 by { PowersOfZero(); }
    } else {
      if -s > 52 {
        Pow2Less(53, -s);
        ProductAtLeast(v, Pow2(-s));
        assert false;
      }
      ScaledBounds(v, 52 + s, -s);
      TopBitIs(v, 52 + s);
    }
  }

  lemma PowersOfZero()
    ensures Pow2(0) == 1
  {
  }

  /** Converting an integral float to its integer and back is exact. */
  lemma RoundTrip(f: F64)
    requires BitsOk(f) && Integral(f)
    ensures FloatEq(ToF64(IntValue(f)), f)
  {
    if IntValue(f) == 0 {
      ZeroValue(f);
    } else {
      IntegralIsNormal(f);
      MagnitudeScaled(f);
      hide Pow2, RoundMantissa;
      TopBitOf(Abs(IntValue(f)), Mantissa(f), Scale(f));
    }
  }

  // ---------- the round-trip test ----------

  /** `float_key_i64`: the integer of a float that survives the saturating cast and the conversion back. */
  ghost function FloatKeyInt(f: F64): (r: Option<int>)
    ensures r.Some? ==> Fits(r.value)
  {
    if !Integral(f) then None
    else
      var i := Saturate(IntValue(f));
      if FloatEq(ToF64(i), f) then Some(i) else None
  }

  /** Both ends of the `i64` range convert to magnitude `2^63`. */
  lemma EndsRound(x: int)
    requires x == MIN_I64 || x == MAX_I64 || x == MAX_I64 + 1
    ensures ToF64(x) == F64(x < 0, 1086, 0)
  {
    var n := Abs(x);
    EndPowers();
    hide Pow2;
    if x == MAX_I64 {
      TopBitIs(n, 62);
      Euclid(n, 0x1F_FFFF_FFFF_FFFF, 0x3FF, Pow2(10));
    } else {
      TopBitIs(n, 63);
      Euclid(n, HIDDEN, 0, Pow2(11));
    }
  }

  lemma EndPowers()
    ensures Pow2(62) == 0x4000_0000_0000_0000 && Pow2(63) == 0x8000_0000_0000_0000 && Pow2(64) == 0x1_0000_0000_0000_0000
    ensures Pow2(10) == 0x400 && Pow2(11) == 0x800
  {
    Pow2At60();
    Pow2Add(60, 2);
    Pow2Add(60, 3);
    Pow2Add(60, 4);
    assert Pow2(2) == 4 && Pow2(3) == 8 && Pow2(4) == 16;
  }

  lemma EndValue(f: F64)
    requires f == F64(f.negative, 1086, 0)
    ensures Integral(f) && IntValue(f) == if f.negative then MIN_I64 else MAX_I64 + 1
  {
    assert Pow2(11) == 0x800;
    assert Scale(f) == 11;
  }

  /**
   The cast test passes exactly on the `i64` range, with the right integer, and at `2^63`,
   with a wrong one: `i64::MAX` rounds up to it.
   */
  lemma FloatKeyIntIs(f: F64)
    requires BitsOk(f) && Integral(f)
    ensures var v := IntValue(f);
            FloatKeyInt(f) == if Fits(v) then Some(v) else if v == MAX_I64 + 1 then Some(MAX_I64) else None
  {
    hide ToF64, Integral, IntValue;
    RoundTrip(f);
    var v := IntValue(f);
    if v == MAX_I64 + 1 {
      EndsRound(v);
    }
    if !Fits(v) {
      var i := Saturate(v);
      EndsRound(i);
      if FloatEq(ToF64(i), f) {
        EndValue(f);
      }
    }
  }
}
