/**
 Dictionary keys: equality across the numeric types, tuples and frozensets, and the
 stream of words each key feeds to the hasher. Equal keys must feed equal streams.
 */
module KeyHash {
  import opened Prelude
  import opened Arith
  import opened Machine
  import opened Floats
  import opened Words
  import opened FrozenHash
  import Mersenne

  // ---------- keys ----------

  datatype Key =
    | KNone
    | KBool(b: bool)
    | KInt(i: int)
    | KBigInt(n: int)
    | KFloat(f: F64)
    | KString(s: string)
    | KDecimal(coefficient: int, scale: int)
    | KFraction(num: int, den: nat)
    | KTuple(items: seq<Key>)
    | KFrozenset(items: seq<Key>)

  function AsInt(b: bool): int {
    if b then 1 else 0
  }

  function Max(a: nat, b: nat): nat {
    if a < b then b else a
  }

  function Depth(k: Key): nat {
    match k
    case KTuple(items) => 1 + DepthOf(items)
    case KFrozenset(items) => 1 + DepthOf(items)
    case _ => 0
  }

  function DepthOf(ks: seq<Key>): (d: nat)
    ensures forall i :: 0 <= i < |ks| ==> Depth(ks[i]) <= d
  {
    if ks == [] then 0
    else
      var n := |ks| - 1;
      assert ks == ks[..n] + [ks[n]];
      Max(DepthOf(ks[..n]), Depth(ks[n]))
  }

  /** Two decimals of one value, whatever their scales. */
  predicate SameDecimal(c: int, s: int, d: int, t: int) {
    if s <= t then c * Pow(10, t - s) == d else c == d * Pow(10, s - t)
  }

  /**
   Three ways of comparing keys. `AsKeys` is the source's own: floats by their bits, and a float
   against an integer by the round-trip test. The other two serve to reason about it: `UpToSign`
   identifies the two zeros, `AsValues` in addition takes a float's exact integer.
   */
  datatype Mode = AsKeys | UpToSign | AsValues

  /** The exact integer of a float in the `i64` range. */
  ghost function ExactInt(f: F64): Option<int> {
    if Integral(f) && Fits(IntValue(f)) then Some(IntValue(f)) else None
  }

  ghost function FloatInt(mode: Mode, f: F64): Option<int> {
    if mode.AsValues? then ExactInt(f) else FloatKeyInt(f)
  }

  ghost predicate Match(mode: Mode, a: Key, b: Key)
    decreases Depth(a) + Depth(b), 0
  {
    match (a, b)
    case (KNone, KNone) => true
    case (KBool(x), KBool(y)) => x == y
    case (KBool(x), KInt(i)) => i == AsInt(x)
    case (KInt(i), KBool(x)) => i == AsInt(x)
    case (KInt(x), KInt(y)) => x == y
    case (KBigInt(x), KBigInt(y)) => x == y
    case (KInt(x), KBigInt(y)) => x == y
    case (KBigInt(x), KInt(y)) => x == y
    case (KBool(x), KBigInt(y)) => y == AsInt(x)
    case (KBigInt(y), KBool(x)) => y == AsInt(x)
    case (KFloat(f), KFloat(g)) => if mode.AsKeys? then f == g else FloatEq(f, g)
    case (KFloat(f), KInt(i)) => FloatInt(mode, f) == Some(i)
    case (KInt(i), KFloat(f)) => FloatInt(mode, f) == Some(i)
    case (KFloat(f), KBool(x)) => FloatInt(mode, f) == Some(AsInt(x))
    case (KBool(x), KFloat(f)) => FloatInt(mode, f) == Some(AsInt(x))
    case (KFloat(f), KBigInt(n)) => FloatInt(mode, f) == Some(n)
    case (KBigInt(n), KFloat(f)) => FloatInt(mode, f) == Some(n)
    case (KString(s), KString(t)) => s == t
    case (KDecimal(c, s), KDecimal(d, t)) => SameDecimal(c, s, d, t)
    case (KFraction(n, d), KFraction(m, e)) => n == m && d == e
    case (KTuple(xs), KTuple(ys)) => |xs| == |ys| && forall i :: 0 <= i < |xs| ==> Match(mode, xs[i], ys[i])
    case (KFrozenset(xs), KFrozenset(ys)) =>
      |xs| == |ys| && forall i :: 0 <= i < |xs| ==> HasPartner(mode, ys, xs[i])
    case _ => false
  }

  /** `ys.contains(x)`. */
  ghost predicate HasPartner(mode: Mode, ys: seq<Key>, x: Key)
    decreases DepthOf(ys) + Depth(x), 1
  {
    exists j :: 0 <= j < |ys| && Match(mode, ys[j], x)
  }

  /** `ValueKey`'s own equality. */
  ghost predicate KeyEq(a: Key, b: Key) {
    Match(AsKeys, a, b)
  }

  /** Equality of keys up to the sign of zero. */
  ghost predicate Same(a: Key, b: Key) {
    Match(UpToSign, a, b)
  }

  /** Equality as Python values, of numbers in the `i64` range. */
  ghost predicate SameValue(a: Key, b: Key) {
    Match(AsValues, a, b)
  }

  /**
   Keys as the interpreter builds them: `i64` integers, and frozensets whose elements differ
   pairwise as Python values. They may still be equal as keys: the float `2^63` and the integer
   `2^63 - 1` are two elements of a set and one key.
   */
  ghost predicate KeyOk(k: Key)
    decreases Depth(k)
  {
    match k
    case KInt(i) => Fits(i)
    case KFloat(f) => BitsOk(f)
    case KTuple(items) => forall i :: 0 <= i < |items| ==> KeyOk(items[i])
    case KFrozenset(items) =>
      && (forall i :: 0 <= i < |items| ==> KeyOk(items[i]))
      && (forall i, j :: 0 <= i < |items| && 0 <= j < |items| && i != j ==> !SameValue(items[i], items[j]))
    case _ => true
  }

  // ---------- a float is determined by its integer ----------

  /** `float_key_i64` tells floats apart, the two zeros excepted: each is the conversion of its integer. */
  lemma FloatKeyInjective(f: F64, g: F64)
    requires FloatKeyInt(f).Some? && FloatKeyInt(f) == FloatKeyInt(g)
    ensures FloatEq(f, g)
  {
    hide ToF64, Integral, IntValue;
  }

  /** The float `2^63`. */
  const TOP: F64 := F64(false, 1086, 0)

  /** The round-trip test finds a float's exact integer, and takes `2^63` for `2^63 - 1`. */
  lemma KeyIntIs(f: F64)
    requires BitsOk(f)
    ensures FloatKeyInt(f) == if f == TOP then Some(MAX_I64) else ExactInt(f)
    ensures ExactInt(f) != Some(MAX_I64)
    ensures ExactInt(TOP).None? && BitsOk(TOP)
  {
    hide FloatKeyInt, Integral, IntValue, ToF64;
    EndValue(TOP);
    if Integral(f) {
      FloatKeyIntIs(f);
      RoundTrip(f);
      if IntValue(f) == MAX_I64 || IntValue(f) == MAX_I64 + 1 {
        EndsRound(IntValue(f));
      }
    } else {
      NotIntegralNoKey(f);
    }
  }

  lemma NotIntegralNoKey(f: F64)
    requires !Integral(f)
    ensures FloatKeyInt(f).None?
  {
  }

  // ---------- what the three have in common ----------

  /** The integer a numeric key stands for. */
  ghost function NumericOf(mode: Mode, k: Key): Option<int> {
    match k
    case KBool(b) => Some(AsInt(b))
    case KInt(i) => Some(i)
    case KBigInt(n) => Some(n)
    case KFloat(f) => FloatInt(mode, f)
    case _ => None
  }

  lemma ZeroKey(f: F64)
    requires Zero(f)
    ensures FloatKeyInt(f) == Some(0) && ExactInt(f) == Some(0)
  {
    hide FloatKeyInt;
    ZeroIsIntegral(f);
    FloatKeyIntIs(f);
  }

  lemma FloatIntInjective(mode: Mode, f: F64, g: F64)
    requires BitsOk(f) && BitsOk(g) && FloatInt(mode, f).Some? && FloatInt(mode, f) == FloatInt(mode, g)
    ensures FloatEq(f, g)
  {
    hide FloatKeyInt, ExactInt;
    KeyIntIs(f);
    KeyIntIs(g);
    FloatKeyInjective(f, g);
  }

  /** But for the sign of zero, a number equals exactly the numbers of the same integer. */
  lemma NumericMatch(mode: Mode, a: Key, b: Key)
    requires !mode.AsKeys? && KeyOk(a) && KeyOk(b) && NumericOf(mode, a).Some?
    ensures Match(mode, a, b) <==> NumericOf(mode, b) == NumericOf(mode, a)
  {
    hide FloatKeyInt, ExactInt;
    if a.KFloat? && b.KFloat? {
      if NumericOf(mode, a) == NumericOf(mode, b) {
        FloatIntInjective(mode, a.f, b.f);
      } else if Zero(a.f) && Zero(b.f) {
        ZeroKey(a.f);
        ZeroKey(b.f);
      }
    }
  }

  lemma DecimalReflexive(c: int, s: int)
    ensures SameDecimal(c, s, c, s)
  {
    assert Pow(10, 0) == 1;
  }

  lemma DecimalSymmetric(c: int, s: int, d: int, t: int)
    requires SameDecimal(c, s, d, t)
    ensures SameDecimal(d, t, c, s)
  {
    assert Pow(10, 0) == 1;
  }

  lemma {:induction false} Pow10Positive(k: nat)
    ensures Pow(10, k) > 0
  {
    if k > 0 { Pow10Positive(k - 1); }
  }

  lemma CancelFactor(a: int, b: int, w: int)
    requires w > 0 && a * w == b * w
    ensures a == b
  {
    Monotone(a, b, w);
    Monotone(b, a, w);
  }

  /** At any scale above both, the coefficients agree. */
  lemma DecimalAt(c: int, s: int, d: int, t: int, m: int)
    requires s <= m && t <= m
    ensures SameDecimal(c, s, d, t) <==> c * Pow(10, m - s) == d * Pow(10, m - t)
  {
    hide Pow;
    var low := if s <= t then t - s else s - t;
    var high := if s <= t then m - t else m - s;
    PowAdd(10, low, high);
    Pow10Positive(high);
    if s <= t {
      Reassociate(c, Pow(10, low), Pow(10, high));
      if c * Pow(10, m - s) == d * Pow(10, m - t) { CancelFactor(c * Pow(10, low), d, Pow(10, high)); }
    } else {
      Reassociate(d, Pow(10, low), Pow(10, high));
      if c * Pow(10, m - s) == d * Pow(10, m - t) { CancelFactor(c, d * Pow(10, low), Pow(10, high)); }
    }
  }

  lemma DecimalTransitive(c: int, s: int, d: int, t: int, e: int, u: int)
    requires SameDecimal(c, s, d, t) && SameDecimal(d, t, e, u)
    ensures SameDecimal(c, s, e, u)
  {
    hide Pow, SameDecimal;
    var m := if s >= t && s >= u then s else if t >= u then t else u;
    DecimalAt(c, s, d, t, m);
    DecimalAt(d, t, e, u, m);
    DecimalAt(c, s, e, u, m);
  }

  lemma {:induction false} KeyReflexive(mode: Mode, a: Key)
    ensures Match(mode, a, a)
    decreases Depth(a)
  {
    match a
    case KDecimal(c, s) => DecimalReflexive(c, s);
    case KTuple(items) =>
      forall i | 0 <= i < |items| ensures Match(mode, items[i], items[i]) { KeyReflexive(mode, items[i]); }
    case KFrozenset(items) =>
      forall i | 0 <= i < |items| ensures HasPartner(mode, items, items[i]) { KeyReflexive(mode, items[i]); }
    case _ =>
  }

  /** But for the sign of zero, equality of keys of depth at most `d` is transitive. */
  lemma {:induction false} MatchTransitive(mode: Mode, d: nat, a: Key, b: Key, c: Key)
    requires !mode.AsKeys? && Depth(a) <= d && Depth(b) <= d && Depth(c) <= d && KeyOk(a) && KeyOk(b) && KeyOk(c)
    requires Match(mode, a, b) && Match(mode, b, c)
    ensures Match(mode, a, c)
    decreases d, 0
  {
    hide FloatKeyInt, ExactInt;
    if NumericOf(mode, a).Some? {
      NumericMatch(mode, a, b);
      NumericMatch(mode, b, c);
      NumericMatch(mode, a, c);
    } else if a.KFloat? && b.KFloat? && a != b {
      ZeroKey(a.f);
    } else {
      match (a, b, c)
      case (KDecimal(x, s), KDecimal(y, t), KDecimal(z, u)) => DecimalTransitive(x, s, y, t, z, u);
      case (KTuple(xs), KTuple(ys), KTuple(zs)) =>
        forall i | 0 <= i < |xs| ensures Match(mode, xs[i], zs[i]) { MatchTransitive(mode, d - 1, xs[i], ys[i], zs[i]); }
      case (KFrozenset(xs), KFrozenset(ys), KFrozenset(zs)) =>
        forall i | 0 <= i < |xs| ensures HasPartner(mode, zs, xs[i]) {
          PartnerTransitive(mode, d - 1, xs[i], ys, zs);
        }
      case _ =>
    }
  }

  lemma {:induction false} PartnerTransitive(mode: Mode, d: nat, x: Key, ys: seq<Key>, zs: seq<Key>)
    requires !mode.AsKeys? && Depth(x) <= d && DepthOf(ys) <= d && DepthOf(zs) <= d && KeyOk(x) && AllOk(ys) && AllOk(zs)
    requires HasPartner(mode, ys, x) && forall j :: 0 <= j < |ys| ==> HasPartner(mode, zs, ys[j])
    ensures HasPartner(mode, zs, x)
    decreases d, 1
  {
    var j :| 0 <= j < |ys| && Match(mode, ys[j], x);
    assert HasPartner(mode, zs, ys[j]);
    var k :| 0 <= k < |zs| && Match(mode, zs[k], ys[j]);
    MatchTransitive(mode, d, zs[k], ys[j], x);
  }

  /** Equal keys, and equal values, are the same up to the sign of zero. */
  lemma {:induction false} MatchIsSame(mode: Mode, d: nat, a: Key, b: Key)
    requires Depth(a) <= d && Depth(b) <= d && KeyOk(a) && KeyOk(b) && Match(mode, a, b)
    ensures Same(a, b)
  {
    hide FloatKeyInt, ExactInt;
    if a.KFloat? { KeyIntIs(a.f); }
    if b.KFloat? { KeyIntIs(b.f); }
    match (a, b)
    case (KTuple(xs), KTuple(ys)) =>
      forall i | 0 <= i < |xs| ensures Match(UpToSign, xs[i], ys[i]) { MatchIsSame(mode, d - 1, xs[i], ys[i]); }
    case (KFrozenset(xs), KFrozenset(ys)) =>
      forall i | 0 <= i < |xs| ensures HasPartner(UpToSign, ys, xs[i]) {
        assert HasPartner(mode, ys, xs[i]);
        var j :| 0 <= j < |ys| && Match(mode, ys[j], xs[i]);
        MatchIsSame(mode, d - 1, ys[j], xs[i]);
      }
    case _ =>
  }

  // ---------- equality as values is an equivalence ----------

  lemma {:induction false} ValueSymmetric(d: nat, a: Key, b: Key)
    requires Depth(a) <= d && Depth(b) <= d && KeyOk(a) && KeyOk(b) && SameValue(a, b)
    ensures SameValue(b, a)
    decreases d, 2
  {
    hide FloatKeyInt, ExactInt;
    if NumericOf(AsValues, a).Some? {
      NumericMatch(AsValues, a, b);
      NumericMatch(AsValues, b, a);
    } else {
      match (a, b)
      case (KDecimal(c, s), KDecimal(e, t)) => DecimalSymmetric(c, s, e, t);
      case (KTuple(xs), KTuple(ys)) =>
        forall i | 0 <= i < |xs| ensures Match(AsValues, ys[i], xs[i]) { ValueSymmetric(d - 1, xs[i], ys[i]); }
      case (KFrozenset(xs), KFrozenset(ys)) => SetSymmetric(d, xs, ys);
      case _ =>
    }
  }

  ghost predicate AllOk(ks: seq<Key>) {
    forall i :: 0 <= i < |ks| ==> KeyOk(ks[i])
  }

  /** `p[i]` is a partner of `xs[i]` in `ys`. */
  ghost predicate Partners(mode: Mode, xs: seq<Key>, ys: seq<Key>, p: seq<nat>) {
    |p| == |xs| && forall i :: 0 <= i < |xs| ==> p[i] < |ys| && Match(mode, ys[p[i]], xs[i])
  }

  lemma {:induction false} PickPartners(mode: Mode, xs: seq<Key>, ys: seq<Key>) returns (p: seq<nat>)
    requires forall i :: 0 <= i < |xs| ==> HasPartner(mode, ys, xs[i])
    ensures Partners(mode, xs, ys, p)
  {
    hide Match;
    p := [];
    if xs != [] {
      var n := |xs| - 1;
      p := PickPartners(mode, xs[..n], ys);
      assert HasPartner(mode, ys, xs[n]);
      var j :| 0 <= j < |ys| && Match(mode, ys[j], xs[n]);
      p := p + [j];
    }
  }

  ghost predicate DistinctNats(p: seq<nat>) {
    forall i, j :: 0 <= i < j < |p| ==> p[i] != p[j]
  }

  /** Distinct numbers below their count are all the numbers below it. */
  lemma {:induction false} Onto(p: seq<nat>, n: nat, j: nat)
    requires |p| == n && DistinctNats(p) && j < n && forall i :: 0 <= i < n ==> p[i] < n
    ensures j in p
  {
    var s := set x | x in p;
    SetSize(p, s);
    if j !in p {
      assert s <= Mersenne.Upto(n) - {j};
      Mersenne.SubsetSize(s, Mersenne.Upto(n) - {j});
      assert false;
    }
  }

  lemma {:induction false} SetSize(p: seq<nat>, s: set<nat>)
    requires DistinctNats(p) && s == (set x | x in p)
    ensures |s| == |p|
  {
    if p != [] {
      var n := |p| - 1;
      SetSize(p[..n], set x | x in p[..n]);
      assert p == p[..n] + [p[n]];
      assert s == (set x | x in p[..n]) + {p[n]};
    }
  }

  /** Elements that differ as values have different partners of the same values. */
  lemma {:induction false} PartnersDiffer(d: nat, xs: seq<Key>, ys: seq<Key>, p: seq<nat>)
    requires d > 0 && KeyOk(KFrozenset(xs)) && KeyOk(KFrozenset(ys)) && Partners(AsValues, xs, ys, p)
    requires Depth(KFrozenset(xs)) <= d && Depth(KFrozenset(ys)) <= d
    ensures DistinctNats(p)
    decreases d, 0
  {
    forall i, k | 0 <= i < k < |p| ensures p[i] != p[k] {
      if p[i] == p[k] {
        ValueSymmetric(d - 1, ys[p[i]], xs[i]);
        MatchTransitive(AsValues, d - 1, xs[i], ys[p[i]], xs[k]);
        assert false;
      }
    }
  }

  lemma {:induction false} SetSymmetric(d: nat, xs: seq<Key>, ys: seq<Key>)
    requires d > 0 && KeyOk(KFrozenset(xs)) && KeyOk(KFrozenset(ys)) && SameValue(KFrozenset(xs), KFrozenset(ys))
    requires Depth(KFrozenset(xs)) <= d && Depth(KFrozenset(ys)) <= d
    ensures SameValue(KFrozenset(ys), KFrozenset(xs))
    decreases d, 1
  {
    hide KeyOk, HasPartner, Match;
    SetsUnfold(AsValues, xs, ys);
    SetsUnfold(AsValues, ys, xs);
    var p := PickPartners(AsValues, xs, ys);
    PartnersDiffer(d, xs, ys, p);
    forall j | 0 <= j < |ys| ensures HasPartner(AsValues, xs, ys[j]) {
      BackPartner(d - 1, xs, ys, p, j);
    }
  }

  lemma SetsUnfold(mode: Mode, xs: seq<Key>, ys: seq<Key>)
    ensures Match(mode, KFrozenset(xs), KFrozenset(ys))
       <==> |xs| == |ys| && forall i :: 0 <= i < |xs| ==> HasPartner(mode, ys, xs[i])
    ensures KeyOk(KFrozenset(xs)) ==> AllOk(xs)
  {
  }

  lemma {:induction false} BackPartner(d: nat, xs: seq<Key>, ys: seq<Key>, p: seq<nat>, j: nat)
    requires AllOk(xs) && AllOk(ys) && DepthOf(xs) <= d && DepthOf(ys) <= d
    requires |xs| == |ys| && Partners(AsValues, xs, ys, p) && DistinctNats(p) && j < |ys|
    ensures HasPartner(AsValues, xs, ys[j])
    decreases d, 3
  {
    hide Match, KeyOk;
    Onto(p, |ys|, j);
    var i :| 0 <= i < |p| && p[i] == j;
    ValueSymmetric(d, ys[j], xs[i]);
  }

  // ---------- exactly where the sign of zero matters ----------

  /**
   The keys hold float zeros of opposite sign in matching places; in frozensets, some element
   does so with every element it could be matched with.
   */
  ghost predicate ZeroClash(a: Key, b: Key)
    decreases Depth(a) + Depth(b), 0
  {
    match (a, b)
    case (KFloat(f), KFloat(g)) => Zero(f) && Zero(g) && f.negative != g.negative
    case (KTuple(xs), KTuple(ys)) => exists i :: 0 <= i < |xs| && i < |ys| && ZeroClash(xs[i], ys[i])
    case (KFrozenset(xs), KFrozenset(ys)) =>
      exists i :: 0 <= i < |xs| && ClashesAll(ys, xs[i])
    case _ => false
  }

  ghost predicate ClashesAll(ys: seq<Key>, x: Key)
    decreases DepthOf(ys) + Depth(x), 1
  {
    forall j :: 0 <= j < |ys| && Match(UpToSign, ys[j], x) ==> ZeroClash(ys[j], x)
  }

  /** Keys are equal exactly if they are so up to the sign of zero and no zeros clash. */
  lemma {:induction false} EqualExactly(d: nat, a: Key, b: Key)
    requires Depth(a) <= d && Depth(b) <= d
    ensures KeyEq(a, b) <==> Same(a, b) && !ZeroClash(a, b)
  {
    hide FloatKeyInt;
    match (a, b)
    case (KTuple(xs), KTuple(ys)) =>
      if |xs| == |ys| {
        forall i | 0 <= i < |xs|
          ensures Match(AsKeys, xs[i], ys[i]) <==> Match(UpToSign, xs[i], ys[i]) && !ZeroClash(xs[i], ys[i])
        {
          EqualExactly(d - 1, xs[i], ys[i]);
        }
      }
    case (KFrozenset(xs), KFrozenset(ys)) =>
      forall i, j | 0 <= i < |xs| && 0 <= j < |ys|
        ensures Match(AsKeys, ys[j], xs[i]) <==> Match(UpToSign, ys[j], xs[i]) && !ZeroClash(ys[j], xs[i])
      {
        EqualExactly(d - 1, ys[j], xs[i]);
      }
      SetsExactly(xs, ys);
    case _ =>
  }

  lemma SetsExactly(xs: seq<Key>, ys: seq<Key>)
    requires forall i, j :: 0 <= i < |xs| && 0 <= j < |ys| ==>
               (Match(AsKeys, ys[j], xs[i]) <==> Match(UpToSign, ys[j], xs[i]) && !ZeroClash(ys[j], xs[i]))
    ensures KeyEq(KFrozenset(xs), KFrozenset(ys))
       <==> Same(KFrozenset(xs), KFrozenset(ys)) && !ZeroClash(KFrozenset(xs), KFrozenset(ys))
  {
    forall i | 0 <= i < |xs|
      ensures HasPartner(AsKeys, ys, xs[i]) <==> HasPartner(UpToSign, ys, xs[i]) && !ClashesAll(ys, xs[i])
    {
    }
    SetsUnfold(AsKeys, xs, ys);
    SetsUnfold(UpToSign, xs, ys);
  }

  /** Key equality is transitive exactly if the outer keys do not clash in the sign of a zero. */
  lemma KeyTransitive(a: Key, b: Key, c: Key)
    requires KeyOk(a) && KeyOk(b) && KeyOk(c) && KeyEq(a, b) && KeyEq(b, c)
    ensures KeyEq(a, c) <==> !ZeroClash(a, c)
  {
    hide KeyEq, KeyOk, ZeroClash, Match, Depth;
    var d := Max(Depth(a), Max(Depth(b), Depth(c)));
    EqualExactly(d, a, b);
    EqualExactly(d, b, c);
    EqualExactly(d, a, c);
    MatchTransitive(UpToSign, d, a, b, c);
  }

  /** A failing triple: `-0.0`, `0` and `0.0`. */
  lemma NegativeZeroBreaksEquality()
    ensures var neg, zero, pos := KFloat(F64(true, 0, 0)), KInt(0), KFloat(F64(false, 0, 0));
            KeyEq(neg, zero) && KeyEq(zero, pos) && !KeyEq(neg, pos)
  {
    hide FloatKeyInt;
    ZeroKey(F64(true, 0, 0));
    ZeroKey(F64(false, 0, 0));
  }

  // ---------- equal keys feed the hasher equally ----------

  /** What a key writes to the hasher. */
  datatype Token = Tag(t: nat) | I64(i: int) | Big(n: int) | Bits(f: F64) | Text(s: string) | Len(len: nat) | Digest(w: U64)

  /** Trailing zeros of the coefficient are stripped before hashing. */
  function Normalized(c: int, s: int): (r: (int, int))
    decreases if c < 0 then -c else c
  {
    if c == 0 then (0, 0)
    else if c % 10 == 0 then Normalized(c / 10, s - 1)
    else (c, s)
  }

  function IntToken(n: int): Token {
    if MIN_I64 <= n <= MAX_I64 then I64(n) else Big(n)
  }

  ghost function Feed(digest: seq<Token> -> U64, k: Key): seq<Token>
    decreases Depth(k), 1
  {
    match k
    case KNone => [Tag(0)]
    case KBool(b) => [Tag(1), I64(AsInt(b))]
    case KInt(i) => [Tag(1), I64(i)]
    case KBigInt(n) => [Tag(1), IntToken(n)]
    case KFloat(f) => if FloatKeyInt(f).Some? then [Tag(1), I64(FloatKeyInt(f).value)] else [Tag(2), Bits(f)]
    case KString(s) => [Tag(3), Text(s)]
    case KTuple(items) => [Tag(4), Len(|items|)] + FeedAll(digest, items, Depth(k))
    case KFrozenset(items) => [Tag(8), Digest(XorAll(Digests(digest, items, Depth(k))))]
    case KDecimal(c, s) => [Tag(13), Big(Normalized(c, s).0), I64(Normalized(c, s).1)]
    case KFraction(n, d) => [Tag(14), Big(n), Big(d)]
  }

  ghost function FeedAll(digest: seq<Token> -> U64, ks: seq<Key>, d: nat): seq<Token>
    requires DepthOf(ks) < d
    decreases d, 0, |ks|
  {
    if ks == [] then []
    else
      var n := |ks| - 1;
      DepthPrefix(ks, n);
      FeedAll(digest, ks[..n], d) + Feed(digest, ks[n])
  }

  /** The digest of each element's own stream. */
  ghost function Digests(digest: seq<Token> -> U64, ks: seq<Key>, d: nat): (r: seq<U64>)
    requires DepthOf(ks) < d
    ensures |r| == |ks| && forall i :: 0 <= i < |ks| ==> r[i] == digest(Feed(digest, ks[i]))
    decreases d, 0, |ks|
  {
    if ks == [] then []
    else
      var n := |ks| - 1;
      DepthPrefix(ks, n);
      Digests(digest, ks[..n], d) + [digest(Feed(digest, ks[n]))]
  }

  lemma {:induction false} DepthPrefix(ks: seq<Key>, n: nat)
    requires n <= |ks|
    ensures DepthOf(ks[..n]) <= DepthOf(ks)
  {
    if n < |ks| {
      DepthPrefix(ks[..|ks| - 1], n);
      assert ks[..|ks| - 1][..n] == ks[..n];
    } else {
      assert ks[..n] == ks;
    }
  }

  /** `b` is `a` rearranged by `p`. */
  ghost predicate Rearranged(a: seq<U64>, b: seq<U64>, p: seq<nat>) {
    |a| == |b| == |p| && DistinctNats(p) && forall i :: 0 <= i < |p| ==> p[i] < |b| && b[p[i]] == a[i]
  }

  /** Taking out the last element and its image leaves a rearrangement. */
  lemma RearrangedRest(a: seq<U64>, b: seq<U64>, p: seq<nat>) returns (q: seq<nat>)
    requires Rearranged(a, b, p) && a != []
    ensures Rearranged(a[..|a| - 1], RemoveAt(b, p[|a| - 1]), q)
  {
    var n := |a| - 1;
    var j := p[n];
    q := seq(n, i requires 0 <= i < n => if p[i] < j then p[i] else p[i] - 1);
    var b' := RemoveAt(b, j);
    forall i | 0 <= i < n ensures q[i] < |b'| && b'[q[i]] == a[..n][i] {
      assert p[i] != j;
    }
  }

  /** A XOR fold does not depend on the order. */
  lemma {:induction false} XorRearranged(a: seq<U64>, b: seq<U64>, p: seq<nat>)
    requires Rearranged(a, b, p)
    ensures XorAll(a) == XorAll(b)
  {
    if a == [] {
      assert b == [];
    } else {
      hide Rearranged, RemoveAt, Exchangeable;
      var q := RearrangedRest(a, b, p);
      LastImage(a, b, p);
      XorRearranged(a[..|a| - 1], RemoveAt(b, p[|a| - 1]), q);
      XorExchangeable();
      FoldWithout(Xor, U64(0), b, p[|a| - 1]);
    }
  }

  lemma LastImage(a: seq<U64>, b: seq<U64>, p: seq<nat>)
    requires Rearranged(a, b, p) && a != []
    ensures |p| == |a| && p[|a| - 1] < |b| && b[p[|a| - 1]] == a[|a| - 1]
  {
  }

  lemma {:induction false} NormalizedUnique(c: int, s: int, d: int, t: int)
    requires SameDecimal(c, s, d, t)
    ensures Normalized(c, s) == Normalized(d, t)
    decreases (if c < 0 then -c else c) + (if d < 0 then -d else d)
  {
    Pow10Positive(if s <= t then t - s else s - t);
    if s > t {
      DecimalSymmetric(c, s, d, t);
      NormalizedShift(d, s - t, t);
    } else {
      NormalizedShift(c, t - s, s);
    }
  }

  /** Scaling the coefficient up by a power of ten is undone. */
  lemma {:induction false} NormalizedShift(c: int, k: nat, s: int)
    ensures Normalized(c * Pow(10, k), s + k) == Normalized(c, s)
  {
    if k == 0 {
      assert c * Pow(10, 0) == c;
    } else if c == 0 {
      assert c * Pow(10, k) == 0;
    } else {
      NormalizedShift(c, k - 1, s);
      Pow10Positive(k - 1);
      NonZeroProduct(c, Pow(10, k - 1));
      Reassociate(c, 10, Pow(10, k - 1));
      NormalizedTen(c * Pow(10, k - 1), s + k);
    }
  }

  lemma NormalizedTen(y: int, s: int)
    requires y != 0
    ensures Normalized(10 * y, s) == Normalized(y, s - 1)
  {
    assert (10 * y) % 10 == 0 && (10 * y) / 10 == y;
  }

  lemma NonZeroProduct(c: int, w: int)
    requires c != 0 && w > 0
    ensures c * w != 0
  {
    if c > 0 { ProductAtLeast(c, w); } else { ProductAtLeast(-c, w); }
  }

  // ---------- numbers as keys ----------

  /** `bigint_to_key`. */
  function BigIntToKey(n: int): Key {
    if MIN_I64 <= n <= MAX_I64 then KInt(n) else KBigInt(n)
  }

  /** `value_to_key` on the numeric types. */
  datatype Number = VBool(b: bool) | VInt(i: int) | VBigInt(n: int) | VFloat(f: F64) | VDecimal(c: int, s: int) | VFraction(num: int, den: nat)

  function ToKey(x: Number): Key {
    match x
    case VBool(b) => KBool(b)
    case VInt(i) => KInt(i)
    case VBigInt(n) => KBigInt(n)
    case VFloat(f) => KFloat(f)
    case VDecimal(c, s) =>
      var (m, t) := Normalized(c, s);
      if t <= 0 then BigIntToKey(m * Pow(10, -t)) else KDecimal(c, s)
    case VFraction(n, d) => if d == 1 then BigIntToKey(n) else KFraction(n, d)
  }

  /** `x` denotes the integer `n`. */
  ghost predicate Denotes(x: Number, n: int) {
    match x
    case VBool(b) => n == AsInt(b)
    case VInt(i) => n == i
    case VBigInt(m) => n == m
    case VFloat(f) => Integral(f) && IntValue(f) == n
    case VDecimal(c, s) => SameDecimal(c, s, n, 0)
    case VFraction(m, d) => d == 1 && n == m
  }

  /** A float key meets the key of an integer exactly on the `i64` range, and at `2^63` it meets a wrong one. */
  lemma FloatKeyMeetsInt(f: F64, n: int)
    requires BitsOk(f)
    ensures KeyEq(KFloat(f), BigIntToKey(n))
       <==> Integral(f) && if Fits(IntValue(f)) then IntValue(f) == n else IntValue(f) == MAX_I64 + 1 && n == MAX_I64
  {
    hide FloatKeyInt, Integral, IntValue;
    if Integral(f) {
      FloatKeyIntIs(f);
    } else {
      NotIntegralNoKey(f);
    }
  }

  lemma DecimalKeyIsInt(c: int, s: int, n: int)
    requires SameDecimal(c, s, n, 0)
    ensures ToKey(VDecimal(c, s)) == BigIntToKey(n)
  {
    NormalizedUnique(c, s, n, 0);
    NormalizedInt(n, 0);
  }

  /** An integer normalises to a coefficient with no fractional digits. */
  lemma {:induction false} NormalizedInt(n: int, s: int)
    requires s <= 0
    ensures var (m, t) := Normalized(n, s); t <= 0 && (n != 0 ==> t <= s && m * Pow(10, s - t) == n) && (n == 0 ==> m == 0)
    decreases if n < 0 then -n else n
  {
    if n != 0 && n % 10 == 0 {
      NormalizedInt(n / 10, s - 1);
      var (m, t) := Normalized(n, s);
      Reassociate(m, 10, Pow(10, s - 1 - t));
      assert Pow(10, s - t) == 10 * Pow(10, s - 1 - t);
    } else {
      assert Pow(10, 0) == 1;
    }
  }

  /** Numbers of one `i64` value get equal keys, whatever their types, unless they are float zeros of opposite sign. */
  lemma EqualIntegersEqualKeys(x: Number, y: Number, n: int)
    requires Denotes(x, n) && Denotes(y, n) && Fits(n)
    requires (x.VFloat? ==> BitsOk(x.f)) && (y.VFloat? ==> BitsOk(y.f))
    ensures KeyEq(ToKey(x), ToKey(y)) <==> !(x.VFloat? && y.VFloat? && n == 0 && x.f.negative != y.f.negative)
  {
    hide KeyEq, KeyOk, NumericOf, ToKey, Denotes, Depth, Match;
    IntegerKey(x, n);
    IntegerKey(y, n);
    NumericMatch(UpToSign, ToKey(x), ToKey(y));
    EqualExactly(Max(Depth(ToKey(x)), Depth(ToKey(y))), ToKey(x), ToKey(y));
    FloatZero(x, n);
    FloatZero(y, n);
  }

  lemma FloatZero(x: Number, n: int)
    requires Denotes(x, n) && (x.VFloat? ==> BitsOk(x.f))
    ensures x.VFloat? ==> ToKey(x) == KFloat(x.f) && (Zero(x.f) <==> n == 0)
    ensures ToKey(x).KFloat? ==> x.VFloat?
    ensures !ToKey(x).KTuple? && !ToKey(x).KFrozenset?
  {
    hide Normalized;
    if x.VFloat? {
      if n == 0 {
        ZeroValue(x.f);
      } else if Zero(x.f) {
        ZeroIsIntegral(x.f);
      }
    }
  }

  lemma IntegerKey(x: Number, n: int)
    requires Denotes(x, n) && Fits(n)
    requires x.VFloat? ==> BitsOk(x.f)
    ensures KeyOk(ToKey(x)) && NumericOf(UpToSign, ToKey(x)) == Some(n)
  {
    if x.VDecimal? {
      DecimalKeyIsInt(x.c, x.s, n);
    } else if x.VFloat? {
      FloatKeyIntIs(x.f);
    }
  }
}
