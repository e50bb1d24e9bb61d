/**
 Where equality of keys is symmetric and agrees with the hasher. It compares frozensets by
 one-sided containment, which is right as long as no two elements of a set are equal as keys.
 Elements that differ as Python values can be: the float `2^63` and the integer `2^63 - 1`.
 The results here say exactly which keys that spoils.
 */
module KeySymmetry {
  import opened Prelude
  import opened Machine
  import opened Floats
  import opened Words
  import opened FrozenHash
  import opened KeyHash

  // ---------- which elements are two values and one key ----------

  predicate IsScalar(k: Key) {
    !k.KTuple? && !k.KFrozenset?
  }

  /** The integer key `2^63 - 1`. */
  predicate IsMaxInt(k: Key) {
    (k.KInt? && k.i == MAX_I64) || (k.KBigInt? && k.n == MAX_I64)
  }

  /** Two scalar values are one key, but for the sign of zero, exactly if they are `2^63` as a float and `2^63 - 1`. */
  lemma TwinsExactly(a: Key, b: Key)
    requires KeyOk(a) && KeyOk(b) && IsScalar(a) && IsScalar(b)
    ensures Same(a, b) && !SameValue(a, b) <==> (a == KFloat(TOP) && IsMaxInt(b)) || (b == KFloat(TOP) && IsMaxInt(a))
  {
    hide FloatKeyInt, ExactInt;
    if a.KFloat? { KeyIntIs(a.f); }
    if b.KFloat? { KeyIntIs(b.f); }
  }

  /** The key holds one of the two, at any depth. */
  ghost predicate Wide(k: Key)
    decreases k
  {
    match k
    case KTuple(items) => exists i :: 0 <= i < |items| && Wide(items[i])
    case KFrozenset(items) => exists i :: 0 <= i < |items| && Wide(items[i])
    case _ => NumericOf(UpToSign, k) == Some(MAX_I64)
  }

  /** Some frozensets of two or more elements in the key holds one of the two. */
  ghost predicate Fragile(k: Key)
    decreases k
  {
    match k
    case KTuple(items) => exists i :: 0 <= i < |items| && Fragile(items[i])
    case KFrozenset(items) => if |items| >= 2 then Wide(k) else exists i :: 0 <= i < |items| && Fragile(items[i])
    case _ => false
  }

  lemma {:induction false} FragileIsWide(k: Key)
    requires Fragile(k)
    ensures Wide(k)
    decreases k
  {
    match k
    case KTuple(items) =>
      var i :| 0 <= i < |items| && Fragile(items[i]);
      FragileIsWide(items[i]);
    case KFrozenset(items) =>
      if |items| < 2 {
        var i :| 0 <= i < |items| && Fragile(items[i]);
        FragileIsWide(items[i]);
      }
    case _ =>
  }

  // ---------- the relations without their depth bound ----------

  lemma SameTransitive(a: Key, b: Key, c: Key)
    requires KeyOk(a) && KeyOk(b) && KeyOk(c) && Same(a, b) && Same(b, c)
    ensures Same(a, c)
  {
    hide Match, KeyOk, Depth;
    MatchTransitive(UpToSign, Max(Depth(a), Max(Depth(b), Depth(c))), a, b, c);
  }

  lemma ValueTransitive(a: Key, b: Key, c: Key)
    requires KeyOk(a) && KeyOk(b) && KeyOk(c) && SameValue(a, b) && SameValue(b, c)
    ensures SameValue(a, c)
  {
    hide Match, KeyOk, Depth;
    MatchTransitive(AsValues, Max(Depth(a), Max(Depth(b), Depth(c))), a, b, c);
  }

  lemma ValueFlips(a: Key, b: Key)
    requires KeyOk(a) && KeyOk(b)
    ensures SameValue(a, b) <==> SameValue(b, a)
  {
    hide Match, KeyOk, Depth, SameValue;
    if SameValue(a, b) {
      ValueSymmetric(Max(Depth(a), Depth(b)), a, b);
    }
    if SameValue(b, a) {
      ValueSymmetric(Max(Depth(a), Depth(b)), b, a);
    }
  }

  lemma IsSame(mode: Mode, a: Key, b: Key)
    requires KeyOk(a) && KeyOk(b) && Match(mode, a, b)
    ensures Same(a, b)
  {
    hide Match, KeyOk, Depth;
    MatchIsSame(mode, Max(Depth(a), Depth(b)), a, b);
  }

  // ---------- keys that are not fragile ----------

  lemma NarrowScalar(a: Key, b: Key)
    requires KeyOk(a) && KeyOk(b) && !Wide(a) && IsScalar(a)
    ensures (Same(a, b) ==> SameValue(a, b)) && (Same(b, a) ==> SameValue(b, a))
  {
    hide Match, KeyOk, FloatKeyInt;
    if IsScalar(b) {
      TwinsExactly(a, b);
      TwinsExactly(b, a);
      KeyIntIs(TOP);
    } else {
      if Same(a, b) { SameKind(UpToSign, a, b); }
      if Same(b, a) { SameKind(UpToSign, b, a); }
    }
  }

  lemma TuplesUnfold(mode: Mode, xs: seq<Key>, ys: seq<Key>)
    ensures Match(mode, KTuple(xs), KTuple(ys))
       <==> |xs| == |ys| && forall i :: 0 <= i < |xs| ==> Match(mode, xs[i], ys[i])
  {
  }

  lemma SameKind(mode: Mode, a: Key, b: Key)
    requires Match(mode, a, b)
    ensures (a.KTuple? <==> b.KTuple?) && (a.KFrozenset? <==> b.KFrozenset?)
  {
  }

  /** Without the two, what is the same key up to the sign of zero is the same value. */
  lemma {:induction false} NarrowMatch(d: nat, a: Key, b: Key, flip: bool)
    requires Depth(a) <= d && Depth(b) <= d && KeyOk(a) && KeyOk(b) && !Wide(a)
    requires if flip then Same(b, a) else Same(a, b)
    ensures if flip then SameValue(b, a) else SameValue(a, b)
    decreases d, 1
  {
    hide Match, HasPartner;
    if flip { SameKind(UpToSign, b, a); } else { SameKind(UpToSign, a, b); }
    if a.KTuple? {
      var xs, ys := a.items, b.items;
      TuplesUnfold(UpToSign, xs, ys);
      TuplesUnfold(AsValues, xs, ys);
      TuplesUnfold(UpToSign, ys, xs);
      TuplesUnfold(AsValues, ys, xs);
      forall i | 0 <= i < |xs| ensures if flip then Match(AsValues, ys[i], xs[i]) else Match(AsValues, xs[i], ys[i]) {
        NarrowMatch(d - 1, xs[i], ys[i], flip);
      }
    } else if a.KFrozenset? {
      NarrowSets(d, a.items, b.items, flip);
    } else {
      NarrowScalar(a, b);
    }
  }

  lemma {:induction false} NarrowSets(d: nat, xs: seq<Key>, ys: seq<Key>, flip: bool)
    requires d > 0 && DepthOf(xs) < d && DepthOf(ys) < d
    requires KeyOk(KFrozenset(xs)) && KeyOk(KFrozenset(ys)) && !Wide(KFrozenset(xs))
    requires if flip then Same(KFrozenset(ys), KFrozenset(xs)) else Same(KFrozenset(xs), KFrozenset(ys))
    ensures if flip then SameValue(KFrozenset(ys), KFrozenset(xs)) else SameValue(KFrozenset(xs), KFrozenset(ys))
    decreases d, 0
  {
    hide Match;
    if flip {
      SetsUnfold(UpToSign, ys, xs);
      SetsUnfold(AsValues, ys, xs);
      forall i | 0 <= i < |ys| ensures HasPartner(AsValues, xs, ys[i]) {
        assert HasPartner(UpToSign, xs, ys[i]);
        var j :| 0 <= j < |xs| && Match(UpToSign, xs[j], ys[i]);
        NarrowMatch(d - 1, xs[j], ys[i], false);
      }
    } else {
      SetsUnfold(UpToSign, xs, ys);
      SetsUnfold(AsValues, xs, ys);
      forall i | 0 <= i < |xs| ensures HasPartner(AsValues, ys, xs[i]) {
        assert HasPartner(UpToSign, ys, xs[i]);
        var j :| 0 <= j < |ys| && Match(UpToSign, ys[j], xs[i]);
        NarrowMatch(d - 1, xs[i], ys[j], true);
      }
    }
  }

  /** Two frozensets of which one holds neither number pair off. */
  lemma PairOff(mode: Mode, d: nat, xs: seq<Key>, ys: seq<Key>) returns (p: seq<nat>)
    requires d > 0 && KeyOk(KFrozenset(xs)) && KeyOk(KFrozenset(ys)) && Match(mode, KFrozenset(xs), KFrozenset(ys))
    requires Depth(KFrozenset(xs)) <= d && Depth(KFrozenset(ys)) <= d
    requires !Wide(KFrozenset(xs)) || !Wide(KFrozenset(ys))
    ensures Partners(mode, xs, ys, p) && DistinctNats(p) && |xs| == |ys|
  {
    hide Match, HasPartner;
    SetsUnfold(mode, xs, ys);
    p := PickPartners(mode, xs, ys);
    forall i | 0 <= i < |xs| ensures Match(AsValues, ys[p[i]], xs[i]) {
      IsSame(mode, ys[p[i]], xs[i]);
      if Wide(KFrozenset(xs)) {
        NarrowMatch(d - 1, ys[p[i]], xs[i], false);
      } else {
        NarrowMatch(d - 1, xs[i], ys[p[i]], true);
      }
    }
    PartnersDiffer(d, xs, ys, p);
  }

  lemma ScalarSymmetric(mode: Mode, a: Key, b: Key)
    requires IsScalar(a)
    ensures Match(mode, a, b) <==> Match(mode, b, a)
  {
    hide FloatKeyInt, ExactInt;
    if a.KDecimal? && b.KDecimal? {
      DecimalFlips(a, b);
    }
  }

  lemma DecimalFlips(a: Key, b: Key)
    requires a.KDecimal? && b.KDecimal?
    ensures SameDecimal(a.coefficient, a.scale, b.coefficient, b.scale) <==> SameDecimal(b.coefficient, b.scale, a.coefficient, a.scale)
  {
    hide SameDecimal;
    if SameDecimal(a.coefficient, a.scale, b.coefficient, b.scale) {
      DecimalSymmetric(a.coefficient, a.scale, b.coefficient, b.scale);
    }
    if SameDecimal(b.coefficient, b.scale, a.coefficient, a.scale) {
      DecimalSymmetric(b.coefficient, b.scale, a.coefficient, a.scale);
    }
  }

  /** A key that is not fragile is equal to another exactly if the other is equal to it. */
  lemma {:induction false} RobustSymmetric(mode: Mode, d: nat, a: Key, b: Key)
    requires !mode.AsValues? && Depth(a) <= d && Depth(b) <= d && KeyOk(a) && KeyOk(b) && !Fragile(a)
    ensures Match(mode, a, b) <==> Match(mode, b, a)
    decreases d, 1
  {
    hide Match;
    if Match(mode, a, b) { SameKind(mode, a, b); }
    if Match(mode, b, a) { SameKind(mode, b, a); }
    if a.KTuple? && b.KTuple? && |a.items| == |b.items| {
      var xs, ys := a.items, b.items;
      TuplesUnfold(mode, xs, ys);
      TuplesUnfold(mode, ys, xs);
      forall i | 0 <= i < |xs| ensures Match(mode, xs[i], ys[i]) <==> Match(mode, ys[i], xs[i]) {
        RobustSymmetric(mode, d - 1, xs[i], ys[i]);
      }
    } else if a.KTuple? && b.KTuple? {
      TuplesUnfold(mode, a.items, b.items);
      TuplesUnfold(mode, b.items, a.items);
    } else if a.KFrozenset? && b.KFrozenset? {
      RobustSets(mode, d, a.items, b.items);
    } else if IsScalar(a) {
      ScalarSymmetric(mode, a, b);
    }
  }

  lemma RobustElement(xs: seq<Key>, i: nat)
    requires !Fragile(KFrozenset(xs)) && i < |xs|
    ensures !Fragile(xs[i])
  {
    if Fragile(xs[i]) {
      FragileIsWide(xs[i]);
    }
  }

  lemma {:induction false} RobustSets(mode: Mode, d: nat, xs: seq<Key>, ys: seq<Key>)
    requires !mode.AsValues? && d > 0 && Depth(KFrozenset(xs)) <= d && Depth(KFrozenset(ys)) <= d
    requires KeyOk(KFrozenset(xs)) && KeyOk(KFrozenset(ys)) && !Fragile(KFrozenset(xs))
    ensures Match(mode, KFrozenset(xs), KFrozenset(ys)) <==> Match(mode, KFrozenset(ys), KFrozenset(xs))
    decreases d, 0
  {
    hide Match, HasPartner;
    SetsUnfold(mode, xs, ys);
    SetsUnfold(mode, ys, xs);
    if Match(mode, KFrozenset(xs), KFrozenset(ys)) {
      var p := PairOffRobust(mode, d, xs, ys, false);
      forall j | 0 <= j < |ys| ensures HasPartner(mode, xs, ys[j]) {
        Onto(p, |ys|, j);
        var i :| 0 <= i < |p| && p[i] == j;
        RobustElement(xs, i);
        RobustSymmetric(mode, d - 1, xs[i], ys[j]);
        Partner(mode, xs, ys[j], i);
      }
    }
    if Match(mode, KFrozenset(ys), KFrozenset(xs)) {
      var p := PairOffRobust(mode, d, ys, xs, true);
      forall j | 0 <= j < |xs| ensures HasPartner(mode, ys, xs[j]) {
        Onto(p, |xs|, j);
        var i :| 0 <= i < |p| && p[i] == j;
        RobustElement(xs, j);
        RobustSymmetric(mode, d - 1, xs[j], ys[i]);
        Partner(mode, ys, xs[j], i);
      }
    }
  }

  lemma Partner(mode: Mode, ys: seq<Key>, x: Key, j: nat)
    requires j < |ys| && Match(mode, ys[j], x)
    ensures HasPartner(mode, ys, x)
  {
  }

  /** `PairOff` where one of the sets is not fragile: at most one element, or none of the two numbers. */
  lemma PairOffRobust(mode: Mode, d: nat, xs: seq<Key>, ys: seq<Key>, second: bool) returns (p: seq<nat>)
    requires d > 0 && KeyOk(KFrozenset(xs)) && KeyOk(KFrozenset(ys)) && Match(mode, KFrozenset(xs), KFrozenset(ys))
    requires Depth(KFrozenset(xs)) <= d && Depth(KFrozenset(ys)) <= d
    requires !Fragile(KFrozenset(if second then ys else xs))
    ensures Partners(mode, xs, ys, p) && DistinctNats(p) && |xs| == |ys|
  {
    hide Match, HasPartner, KeyOk, Wide;
    SetsUnfold(mode, xs, ys);
    if |xs| >= 2 {
      p := PairOff(mode, d, xs, ys);
    } else {
      p := PickPartners(mode, xs, ys);
    }
  }

  // ---------- what they feed the hasher ----------

  /** A key that is not fragile feeds the hasher what every key equal to it feeds, whatever the sign of zeros. */
  lemma {:induction false} RobustFeed(digest: seq<Token> -> U64, d: nat, a: Key, b: Key)
    requires Depth(a) <= d && Depth(b) <= d && KeyOk(a) && KeyOk(b) && !Fragile(a) && Same(a, b)
    ensures Feed(digest, a) == Feed(digest, b)
    decreases d, 1
  {
    hide FloatKeyInt;
    match (a, b)
    case (KFloat(f), KFloat(g)) => if f != g { ZeroKey(f); ZeroKey(g); }
    case (KDecimal(c, s), KDecimal(e, t)) => NormalizedUnique(c, s, e, t);
    case (KTuple(xs), KTuple(ys)) => RobustTuplesFeed(digest, d - 1, xs, ys, Depth(a), Depth(b));
    case (KFrozenset(xs), KFrozenset(ys)) => RobustSetsFeed(digest, d, xs, ys);
    case _ =>
  }

  lemma {:induction false} RobustTuplesFeed(digest: seq<Token> -> U64, d: nat, xs: seq<Key>, ys: seq<Key>, dx: nat, dy: nat)
    requires DepthOf(xs) <= d && DepthOf(ys) <= d && DepthOf(xs) < dx && DepthOf(ys) < dy
    requires |xs| == |ys|
    requires forall i :: 0 <= i < |xs| ==> KeyOk(xs[i]) && KeyOk(ys[i]) && !Fragile(xs[i]) && Match(UpToSign, xs[i], ys[i])
    ensures FeedAll(digest, xs, dx) == FeedAll(digest, ys, dy)
    decreases d, 2, |xs|
  {
    hide Match, KeyOk, Fragile;
    if xs != [] {
      var n := |xs| - 1;
      DepthPrefix(xs, n);
      DepthPrefix(ys, n);
      RobustTuplesFeed(digest, d, xs[..n], ys[..n], dx, dy);
      RobustFeed(digest, d, xs[n], ys[n]);
    }
  }

  lemma {:induction false} RobustSetsFeed(digest: seq<Token> -> U64, d: nat, xs: seq<Key>, ys: seq<Key>)
    requires d > 0 && KeyOk(KFrozenset(xs)) && KeyOk(KFrozenset(ys)) && Same(KFrozenset(xs), KFrozenset(ys))
    requires Depth(KFrozenset(xs)) <= d && Depth(KFrozenset(ys)) <= d && !Fragile(KFrozenset(xs))
    ensures Feed(digest, KFrozenset(xs)) == Feed(digest, KFrozenset(ys))
    decreases d, 0
  {
    hide Match, HasPartner;
    var p := PairOffRobust(UpToSign, d, xs, ys, false);
    forall i | 0 <= i < |p| ensures Feed(digest, ys[p[i]]) == Feed(digest, xs[i]) {
      RobustElement(xs, i);
      RobustSymmetric(UpToSign, d - 1, xs[i], ys[p[i]]);
      RobustFeed(digest, d - 1, xs[i], ys[p[i]]);
    }
    SetFeedRearranged(digest, xs, ys, p);
  }

  /** Frozensets whose elements pair off by what they feed feed the same. */
  lemma SetFeedRearranged(digest: seq<Token> -> U64, xs: seq<Key>, ys: seq<Key>, p: seq<nat>)
    requires |xs| == |ys| == |p| && DistinctNats(p)
    requires forall i :: 0 <= i < |p| ==> p[i] < |ys| && Feed(digest, ys[p[i]]) == Feed(digest, xs[i])
    ensures Feed(digest, KFrozenset(xs)) == Feed(digest, KFrozenset(ys))
  {
    var a, b := Digests(digest, xs, Depth(KFrozenset(xs))), Digests(digest, ys, Depth(KFrozenset(ys)));
    assert Rearranged(a, b, p);
    XorRearranged(a, b, p);
  }

  /** Equal keys of which one is not fragile feed the hasher the same stream, and are equal both ways. */
  lemma RobustKeysFeedAlike(digest: seq<Token> -> U64, a: Key, b: Key)
    requires KeyOk(a) && KeyOk(b) && !Fragile(a) && (KeyEq(a, b) || KeyEq(b, a))
    ensures Feed(digest, a) == Feed(digest, b) && KeyEq(a, b) && KeyEq(b, a)
  {
    hide Match, KeyOk, Feed, Depth, Fragile;
    var d := Max(Depth(a), Depth(b));
    RobustSymmetric(AsKeys, d, a, b);
    MatchIsSame(AsKeys, d, a, b);
    RobustFeed(digest, d, a, b);
  }

  // ---------- building unequal partners ----------

  /** The key with every float zero replaced by the integer 0, which is equal to either zero. */
  ghost function Unsign(k: Key): Key
    decreases k
  {
    match k
    case KFloat(f) => if Zero(f) then KInt(0) else k
    case KTuple(items) => KTuple(seq(|items|, i requires 0 <= i < |items| => Unsign(items[i])))
    case KFrozenset(items) => KFrozenset(seq(|items|, i requires 0 <= i < |items| => Unsign(items[i])))
    case _ => k
  }

  /** So it is equal to whatever the key is equal to up to the sign of zero. */
  lemma {:induction false} UnsignEqual(x: Key, y: Key, flip: bool)
    requires if flip then Same(y, x) else Same(x, y)
    ensures if flip then KeyEq(y, Unsign(x)) else KeyEq(Unsign(x), y)
    decreases x
  {
    hide FloatKeyInt;
    match (x, y)
    case (KFloat(f), _) =>
      if Zero(f) { ZeroKey(f); }
      if y.KFloat? && Zero(y.f) { ZeroKey(y.f); }
    case (KTuple(xs), KTuple(ys)) =>
      forall i | 0 <= i < |xs| && |xs| == |ys|
        ensures if flip then Match(AsKeys, ys[i], Unsign(xs[i])) else Match(AsKeys, Unsign(xs[i]), ys[i])
      {
        UnsignEqual(xs[i], ys[i], flip);
      }
    case (KFrozenset(xs), KFrozenset(ys)) =>
      var us := Unsign(x).items;
      if flip {
        forall i | 0 <= i < |ys| ensures HasPartner(AsKeys, us, ys[i]) {
          assert HasPartner(UpToSign, xs, ys[i]);
          var j :| 0 <= j < |xs| && Match(UpToSign, xs[j], ys[i]);
          UnsignEqual(xs[j], ys[i], false);
          assert us[j] == Unsign(xs[j]);
        }
      } else {
        forall i | 0 <= i < |xs| ensures HasPartner(AsKeys, ys, us[i]) {
          assert HasPartner(UpToSign, ys, xs[i]);
          var j :| 0 <= j < |ys| && Match(UpToSign, ys[j], xs[i]);
          UnsignEqual(xs[i], ys[j], true);
        }
      }
    case _ =>
  }

  lemma {:induction false} UnsignValue(x: Key)
    ensures SameValue(Unsign(x), x) && SameValue(x, Unsign(x))
    decreases x
  {
    match x
    case KFloat(f) => if Zero(f) { ZeroKey(f); }
    case KDecimal(c, s) => DecimalReflexive(c, s);
    case KTuple(xs) =>
      forall i | 0 <= i < |xs| ensures Match(AsValues, Unsign(xs[i]), xs[i]) && Match(AsValues, xs[i], Unsign(xs[i])) {
        UnsignValue(xs[i]);
      }
    case KFrozenset(xs) =>
      var us := Unsign(x).items;
      forall i | 0 <= i < |xs| ensures HasPartner(AsValues, xs, us[i]) && HasPartner(AsValues, us, xs[i]) {
        UnsignValue(xs[i]);
        assert us[i] == Unsign(xs[i]);
      }
    case _ =>
  }

  lemma {:induction false} UnsignOk(x: Key)
    requires KeyOk(x)
    ensures KeyOk(Unsign(x))
    decreases x
  {
    match x
    case KTuple(xs) =>
      forall i | 0 <= i < |xs| ensures KeyOk(Unsign(xs[i])) { UnsignOk(xs[i]); }
    case KFrozenset(xs) =>
      forall i | 0 <= i < |xs| ensures KeyOk(Unsign(xs[i])) { UnsignOk(xs[i]); }
      forall i, j | 0 <= i < |xs| && 0 <= j < |xs| && i != j ensures !SameValue(Unsign(xs[i]), Unsign(xs[j])) {
        UnsignApart(xs[i], xs[j]);
      }
    case _ =>
  }

  lemma UnsignApart(x: Key, y: Key)
    requires KeyOk(x) && KeyOk(y) && KeyOk(Unsign(x)) && KeyOk(Unsign(y)) && !SameValue(x, y)
    ensures !SameValue(Unsign(x), Unsign(y))
  {
    hide KeyOk, SameValue, Unsign;
    if SameValue(Unsign(x), Unsign(y)) {
      UnsignValue(x);
      UnsignValue(y);
      ValueTransitive(x, Unsign(x), Unsign(y));
      ValueTransitive(x, Unsign(y), y);
    }
  }

  /** Every text in the key is shorter than `n`. */
  ghost predicate ShortTexts(k: Key, n: nat)
    decreases k
  {
    match k
    case KString(s) => |s| < n
    case KTuple(items) => forall i :: 0 <= i < |items| ==> ShortTexts(items[i], n)
    case KFrozenset(items) => forall i :: 0 <= i < |items| ==> ShortTexts(items[i], n)
    case _ => true
  }

  lemma {:induction false} StillShort(k: Key, n: nat, m: nat)
    requires ShortTexts(k, n) && n <= m
    ensures ShortTexts(k, m)
    decreases k
  {
    if k.KTuple? || k.KFrozenset? {
      forall i | 0 <= i < |k.items| ensures ShortTexts(k.items[i], m) { StillShort(k.items[i], n, m); }
    }
  }

  /** There is a text that is longer than all those in the key. */
  lemma {:induction false} LongText(k: Key) returns (s: string)
    ensures ShortTexts(k, |s|)
    decreases k, 1
  {
    match k
    case KString(t) => s := t + ".";
    case KTuple(items) => s := LongTextOf(items);
    case KFrozenset(items) => s := LongTextOf(items);
    case _ => s := "";
  }

  lemma {:induction false} LongTextOf(ks: seq<Key>) returns (s: string)
    ensures forall i :: 0 <= i < |ks| ==> ShortTexts(ks[i], |s|)
    decreases ks, 0
  {
    s := "";
    if ks != [] {
      var n := |ks| - 1;
      var first := LongTextOf(ks[..n]);
      var last := LongText(ks[n]);
      s := first + last;
      forall i | 0 <= i < |ks| ensures ShortTexts(ks[i], |s|) {
        if i < n {
          assert ks[..n][i] == ks[i];
          StillShort(ks[i], |first|, |s|);
        } else {
          StillShort(ks[i], |last|, |s|);
        }
      }
    }
  }

  /** No two elements are the same key up to the sign of zero. */
  ghost predicate NoPair(xs: seq<Key>) {
    forall i, j :: 0 <= i < |xs| && 0 <= j < |xs| && i != j ==> !Same(xs[i], xs[j])
  }

  /** Replacing one element by a value that none of the others has leaves a frozenset. */
  lemma ReplaceOk(xs: seq<Key>, k: nat, y: Key)
    requires KeyOk(KFrozenset(xs)) && k < |xs| && KeyOk(y)
    requires forall i :: 0 <= i < |xs| && i != k ==> !SameValue(y, xs[i])
    ensures KeyOk(KFrozenset(xs[k := y]))
  {
    hide SameValue;
    var ys := xs[k := y];
    forall i, j | 0 <= i < |ys| && 0 <= j < |ys| && i != j ensures !SameValue(ys[i], ys[j]) {
      if j == k {
        ValueFlips(xs[i], y);
      }
    }
  }

  /** It changes the value of the frozenset if the new element has another value than the old one. */
  lemma ReplaceDiffers(xs: seq<Key>, k: nat, y: Key)
    requires KeyOk(KFrozenset(xs)) && k < |xs| && KeyOk(y) && !SameValue(xs[k], y)
    ensures !SameValue(KFrozenset(xs), KFrozenset(xs[k := y]))
  {
    var ys := xs[k := y];
    ValueFlips(xs[k], y);
    forall j | 0 <= j < |ys| ensures !Match(AsValues, ys[j], xs[k]) {
      assert j != k ==> !SameValue(xs[j], xs[k]);
    }
    assert !HasPartner(AsValues, ys, xs[k]);
  }

  /** The new element keeps every old partner if it is equal to the old element. */
  lemma ReplaceEqual(xs: seq<Key>, k: nat, y: Key)
    requires k < |xs|
    ensures KeyEq(y, xs[k]) ==> KeyEq(KFrozenset(xs), KFrozenset(xs[k := y]))
    ensures KeyEq(xs[k], y) ==> KeyEq(KFrozenset(xs[k := y]), KFrozenset(xs))
  {
    hide Match, HasPartner;
    var ys := xs[k := y];
    SetsUnfold(AsKeys, xs, ys);
    SetsUnfold(AsKeys, ys, xs);
    forall i | 0 <= i < |xs|
      ensures KeyEq(y, xs[k]) ==> HasPartner(AsKeys, ys, xs[i])
      ensures KeyEq(xs[k], y) ==> HasPartner(AsKeys, xs, ys[i])
    {
      KeyReflexive(AsKeys, xs[i]);
      if i != k || KeyEq(y, xs[k]) { Partner(AsKeys, ys, xs[i], i); }
      if i != k || KeyEq(xs[k], y) { Partner(AsKeys, xs, ys[i], i); }
    }
  }

  /** With two elements that are one key, one of them can give way to a stranger. */
  lemma PairSwap(xs: seq<Key>, i: nat, j: nat, s: string) returns (ys: seq<Key>)
    requires KeyOk(KFrozenset(xs)) && i < |xs| && j < |xs| && i != j && Same(xs[j], xs[i])
    requires forall k :: 0 <= k < |xs| ==> xs[k] != KString(s)
    ensures ys == xs[j := Unsign(xs[j])][i := KString(s)]
    ensures KeyOk(KFrozenset(ys)) && KeyEq(KFrozenset(xs), KFrozenset(ys)) && !KeyEq(KFrozenset(ys), KFrozenset(xs))
    ensures !SameValue(KFrozenset(xs), KFrozenset(ys))
  {
    var u := Unsign(xs[j]);
    var zs := xs[j := u];
    ys := zs[i := KString(s)];
    UnsignedOk(xs, j);
    StrangerApart(zs, i, s);
    ReplaceOk(zs, i, KString(s));
    SwapPartners(xs, i, j, s);
    NoPartnerForText(xs, ys, i, s);
    NoValueForText(xs, ys, i, s);
  }

  lemma UnsignedOk(xs: seq<Key>, j: nat)
    requires KeyOk(KFrozenset(xs)) && j < |xs|
    ensures KeyOk(KFrozenset(xs[j := Unsign(xs[j])]))
  {
    hide SameValue, Unsign;
    UnsignOk(xs[j]);
    UnsignValue(xs[j]);
    forall k | 0 <= k < |xs| && k != j ensures !SameValue(Unsign(xs[j]), xs[k]) {
      if SameValue(Unsign(xs[j]), xs[k]) {
        ValueTransitive(xs[j], Unsign(xs[j]), xs[k]);
      }
    }
    ReplaceOk(xs, j, Unsign(xs[j]));
  }

  lemma StrangerApart(zs: seq<Key>, i: nat, s: string)
    requires i < |zs| && forall k :: 0 <= k < |zs| ==> zs[k] != KString(s)
    ensures forall k :: 0 <= k < |zs| ==> !SameValue(KString(s), zs[k])
  {
  }

  lemma SwapPartners(xs: seq<Key>, i: nat, j: nat, s: string)
    requires i < |xs| && j < |xs| && i != j && Same(xs[j], xs[i])
    ensures KeyEq(KFrozenset(xs), KFrozenset(xs[j := Unsign(xs[j])][i := KString(s)]))
  {
    hide Match, HasPartner, Unsign;
    var ys := xs[j := Unsign(xs[j])][i := KString(s)];
    SetsUnfold(AsKeys, xs, ys);
    forall k | 0 <= k < |xs| ensures HasPartner(AsKeys, ys, xs[k]) {
      if k == i || k == j {
        KeyReflexive(UpToSign, xs[j]);
        UnsignEqual(xs[j], xs[k], false);
        Partner(AsKeys, ys, xs[k], j);
      } else {
        KeyReflexive(AsKeys, xs[k]);
        Partner(AsKeys, ys, xs[k], k);
      }
    }
  }

  lemma NoPartnerForText(xs: seq<Key>, ys: seq<Key>, i: nat, s: string)
    requires i < |ys| && ys[i] == KString(s) && KString(s) !in xs
    ensures !KeyEq(KFrozenset(ys), KFrozenset(xs))
  {
    assert !HasPartner(AsKeys, xs, ys[i]);
  }

  lemma NoValueForText(xs: seq<Key>, ys: seq<Key>, i: nat, s: string)
    requires i < |ys| && ys[i] == KString(s) && KString(s) !in xs && KeyOk(KFrozenset(xs)) && KeyOk(KFrozenset(ys))
    ensures !SameValue(KFrozenset(xs), KFrozenset(ys))
  {
    assert !HasPartner(AsValues, xs, ys[i]);
    ValueFlips(KFrozenset(xs), KFrozenset(ys));
  }

  // ---------- fragile keys ----------

  /** No element has the value of a key that matches one of them, if no two of them are one key. */
  lemma ReplacementApart(xs: seq<Key>, k: nat, y: Key, left: bool)
    requires KeyOk(KFrozenset(xs)) && NoPair(xs) && k < |xs| && KeyOk(y)
    requires if left then KeyEq(xs[k], y) else KeyEq(y, xs[k])
    ensures forall i :: 0 <= i < |xs| && i != k ==> !SameValue(y, xs[i])
    ensures forall i :: 0 <= i < |xs| && i != k ==> if left then !KeyEq(y, xs[i]) else !KeyEq(xs[i], y)
  {
    forall i | 0 <= i < |xs| && i != k
      ensures !SameValue(y, xs[i]) && if left then !KeyEq(y, xs[i]) else !KeyEq(xs[i], y)
    {
      ApartFrom(xs[k], xs[i], y, left);
    }
  }

  lemma ApartFrom(x: Key, z: Key, y: Key, left: bool)
    requires KeyOk(x) && KeyOk(z) && KeyOk(y) && !Same(x, z) && !Same(z, x)
    requires if left then KeyEq(x, y) else KeyEq(y, x)
    ensures !SameValue(y, z) && if left then !KeyEq(y, z) else !KeyEq(z, y)
  {
    hide Match, KeyOk;
    if left {
      IsSame(AsKeys, x, y);
      if KeyEq(y, z) { IsSame(AsKeys, y, z); SameTransitive(x, y, z); }
      if SameValue(y, z) { IsSame(AsValues, y, z); SameTransitive(x, y, z); }
    } else {
      IsSame(AsKeys, y, x);
      if KeyEq(z, y) { IsSame(AsKeys, z, y); SameTransitive(z, y, x); }
      if SameValue(y, z) { ValueFlips(y, z); IsSame(AsValues, z, y); SameTransitive(z, y, x); }
    }
  }

  /** Every key that holds one of the two numbers is equal, in one direction, to a key of another value. */
  lemma {:induction false} Variant(x: Key) returns (y: Key, left: bool)
    requires KeyOk(x) && Wide(x)
    ensures KeyOk(y) && !SameValue(x, y)
    ensures if left then KeyEq(x, y) else KeyEq(y, x)
    decreases x
  {
    if x.KTuple? {
      var i :| 0 <= i < |x.items| && Wide(x.items[i]);
      hide Match;
      var z, l := Variant(x.items[i]);
      y, left := KTuple(x.items[i := z]), l;
      TupleReplace(x.items, i, z);
    } else if x.KFrozenset? {
      y, left := SetVariant(x.items);
    } else {
      y := ScalarVariant(x);
      left := true;
    }
  }

  lemma ScalarVariant(x: Key) returns (y: Key)
    requires KeyOk(x) && Wide(x) && IsScalar(x)
    ensures KeyOk(y) && !SameValue(x, y) && KeyEq(x, y)
  {
    hide FloatKeyInt, ExactInt;
    KeyIntIs(TOP);
    if x.KFloat? {
      KeyIntIs(x.f);
      y := KInt(MAX_I64);
    } else {
      y := KFloat(TOP);
    }
  }

  lemma TupleReplace(xs: seq<Key>, i: nat, z: Key)
    requires i < |xs|
    ensures KeyEq(KTuple(xs), KTuple(xs[i := z])) <==> KeyEq(xs[i], z)
    ensures KeyEq(KTuple(xs[i := z]), KTuple(xs)) <==> KeyEq(z, xs[i])
    ensures !SameValue(xs[i], z) ==> !SameValue(KTuple(xs), KTuple(xs[i := z]))
    ensures KeyOk(KTuple(xs)) && KeyOk(z) ==> KeyOk(KTuple(xs[i := z]))
  {
    hide FloatKeyInt, ExactInt;
    forall k | 0 <= k < |xs| ensures Match(AsKeys, xs[k], xs[k]) {
      KeyReflexive(AsKeys, xs[k]);
    }
    var ys := xs[i := z];
    assert ys[i] == z;
  }

  lemma PairForm(xs: seq<Key>) returns (b: Key)
    requires KeyOk(KFrozenset(xs)) && !NoPair(xs)
    ensures KeyOk(b) && KeyEq(KFrozenset(xs), b) && !KeyEq(b, KFrozenset(xs)) && !SameValue(KFrozenset(xs), b)
  {
    hide Match, KeyOk;
    var j, i :| 0 <= i < |xs| && 0 <= j < |xs| && j != i && Same(xs[j], xs[i]);
    var s := LongText(KFrozenset(xs));
    assert forall k :: 0 <= k < |xs| ==> ShortTexts(xs[k], |s|);
    var ys := PairSwap(xs, i, j, s);
    b := KFrozenset(ys);
  }

  lemma {:induction false} SetVariant(xs: seq<Key>) returns (y: Key, left: bool)
    requires KeyOk(KFrozenset(xs)) && Wide(KFrozenset(xs))
    ensures KeyOk(y) && !SameValue(KFrozenset(xs), y)
    ensures if left then KeyEq(KFrozenset(xs), y) else KeyEq(y, KFrozenset(xs))
    decreases xs
  {
    hide Match, NoPair, SameValue;
    if !NoPair(xs) {
      y := PairForm(xs);
      left := true;
    } else {
      var w :| 0 <= w < |xs| && Wide(xs[w]);
      var z, l := Variant(xs[w]);
      ReplacementApart(xs, w, z, l);
      ReplaceOk(xs, w, z);
      ReplaceDiffers(xs, w, z);
      ReplaceEqual(xs, w, z);
      y, left := KFrozenset(xs[w := z]), !l;
    }
  }

  /** A fragile key is equal to another, or another to it, but not both. */
  lemma {:induction false} FragileWitness(a: Key) returns (b: Key)
    requires KeyOk(a) && Fragile(a)
    ensures KeyOk(b) && KeyEq(a, b) != KeyEq(b, a)
    decreases a
  {
    match a
    case KTuple(xs) =>
      var i :| 0 <= i < |xs| && Fragile(xs[i]);
      var z := FragileWitness(xs[i]);
      b := KTuple(xs[i := z]);
      TupleReplace(xs, i, z);
    case KFrozenset(xs) =>
      if |xs| >= 2 {
        b := FragileSet(xs);
      } else {
        var z := FragileWitness(xs[0]);
        b := KFrozenset([z]);
        Singletons(xs, z);
      }
    case _ =>
  }

  lemma Singletons(xs: seq<Key>, z: Key)
    requires |xs| == 1
    ensures KeyEq(KFrozenset(xs), KFrozenset([z])) <==> KeyEq(z, xs[0])
    ensures KeyEq(KFrozenset([z]), KFrozenset(xs)) <==> KeyEq(xs[0], z)
  {
    hide FloatKeyInt;
    var ys := [z];
    assert HasPartner(AsKeys, ys, xs[0]) <==> Match(AsKeys, ys[0], xs[0]);
    assert HasPartner(AsKeys, xs, ys[0]) <==> Match(AsKeys, xs[0], ys[0]);
    SetsUnfold(AsKeys, xs, ys);
    SetsUnfold(AsKeys, ys, xs);
  }

  lemma FragileSet(xs: seq<Key>) returns (b: Key)
    requires KeyOk(KFrozenset(xs)) && |xs| >= 2 && Wide(KFrozenset(xs))
    ensures KeyOk(b) && KeyEq(KFrozenset(xs), b) != KeyEq(b, KFrozenset(xs))
  {
    hide Match, NoPair, SameValue;
    if !NoPair(xs) {
      b := PairForm(xs);
    } else {
      var q :| 0 <= q < |xs| && Wide(xs[q]);
      var z, left := Variant(xs[q]);
      if left || KeyEq(xs[q], z) {
        b := CrowdOut(xs, q, z);
      } else {
        b := OneWay(xs, q, z);
      }
    }
  }

  /** An element that has a second form can take another element's place. */
  lemma CrowdOut(xs: seq<Key>, q: nat, z: Key) returns (b: Key)
    requires KeyOk(KFrozenset(xs)) && |xs| >= 2 && NoPair(xs) && q < |xs|
    requires KeyOk(z) && !SameValue(xs[q], z) && KeyEq(xs[q], z)
    ensures KeyOk(b) && KeyEq(b, KFrozenset(xs)) && !KeyEq(KFrozenset(xs), b)
  {
    hide Match, NoPair, HasPartner, KeyOk, SameValue;
    var k := if q == 0 then 1 else 0;
    var ys := xs[k := z];
    b := KFrozenset(ys);
    SetsUnfold(AsKeys, ys, xs);
    SetsUnfold(AsKeys, xs, ys);
    ReplacementApart(xs, q, z, true);
    ValueFlips(xs[q], z);
    ReplaceOk(xs, k, z);
    forall i | 0 <= i < |ys| ensures HasPartner(AsKeys, xs, ys[i]) {
      if i == k {
        Partner(AsKeys, xs, ys[i], q);
      } else {
        KeyReflexive(AsKeys, xs[i]);
        Partner(AsKeys, xs, ys[i], i);
      }
    }
    forall i | 0 <= i < |ys| ensures !Match(AsKeys, ys[i], xs[k]) {
      if i != k {
        NotEqualElements(xs, i, k);
      }
    }
    NoPartner(ys, xs[k]);
  }

  lemma NotEqualElements(xs: seq<Key>, i: nat, k: nat)
    requires KeyOk(KFrozenset(xs)) && NoPair(xs) && i < |xs| && k < |xs| && i != k
    ensures !KeyEq(xs[i], xs[k])
  {
    hide Match;
    if KeyEq(xs[i], xs[k]) {
      IsSame(AsKeys, xs[i], xs[k]);
    }
  }

  lemma NoPartner(ys: seq<Key>, x: Key)
    requires forall j :: 0 <= j < |ys| ==> !Match(AsKeys, ys[j], x)
    ensures !HasPartner(AsKeys, ys, x)
  {
    hide Match;
  }

  /** An element to which a key is equal in one direction only can be replaced by it. */
  lemma OneWay(xs: seq<Key>, q: nat, z: Key) returns (b: Key)
    requires KeyOk(KFrozenset(xs)) && NoPair(xs) && q < |xs|
    requires KeyOk(z) && KeyEq(z, xs[q]) && !KeyEq(xs[q], z)
    ensures KeyOk(b) && KeyEq(KFrozenset(xs), b) && !KeyEq(b, KFrozenset(xs))
  {
    hide Match, NoPair, HasPartner, KeyOk, SameValue;
    ReplacementApart(xs, q, z, false);
    ReplaceOk(xs, q, z);
    ReplaceEqual(xs, q, z);
    var ys := xs[q := z];
    b := KFrozenset(ys);
    SetsUnfold(AsKeys, ys, xs);
    assert ys[q] == z;
    NoPartner(xs, z);
  }

  /** A key is equal to exactly the keys that are equal to it if and only if it is not fragile. */
  lemma SymmetryExactly(a: Key)
    requires KeyOk(a)
    ensures (forall b | KeyOk(b) :: KeyEq(a, b) <==> KeyEq(b, a)) <==> !Fragile(a)
  {
    if Fragile(a) {
      var b := FragileWitness(a);
    } else {
      forall b | KeyOk(b) ensures KeyEq(a, b) <==> KeyEq(b, a) {
        RobustSymmetric(AsKeys, Max(Depth(a), Depth(b)), a, b);
      }
    }
  }

  // ---------- keys without two elements that are one key ----------

  /** Some frozenset in the key, at any depth, holds two elements that are one key up to the sign of zero. */
  ghost predicate Paired(k: Key)
    decreases k
  {
    match k
    case KTuple(items) => exists i :: 0 <= i < |items| && Paired(items[i])
    case KFrozenset(items) => !NoPair(items) || exists i :: 0 <= i < |items| && Paired(items[i])
    case _ => false
  }

  lemma {:induction false} FeedAllAlike(digest: seq<Token> -> U64, xs: seq<Key>, ys: seq<Key>, dx: nat, dy: nat)
    requires |xs| == |ys| && DepthOf(xs) < dx && DepthOf(ys) < dy
    requires forall i :: 0 <= i < |xs| ==> Feed(digest, xs[i]) == Feed(digest, ys[i])
    ensures FeedAll(digest, xs, dx) == FeedAll(digest, ys, dy)
    decreases |xs|
  {
    hide Feed;
    if xs != [] {
      var n := |xs| - 1;
      DepthPrefix(xs, n);
      DepthPrefix(ys, n);
      FeedAllAlike(digest, xs[..n], ys[..n], dx, dy);
    }
  }

  lemma TuplesFeed(digest: seq<Token> -> U64, xs: seq<Key>, ys: seq<Key>)
    requires |xs| == |ys| && forall i :: 0 <= i < |xs| ==> Feed(digest, xs[i]) == Feed(digest, ys[i])
    ensures Feed(digest, KTuple(xs)) == Feed(digest, KTuple(ys))
  {
    FeedAllAlike(digest, xs, ys, Depth(KTuple(xs)), Depth(KTuple(ys)));
  }

  /** Equal keys without such elements are equal both ways and feed the hasher the same stream, through any nesting. */
  lemma {:induction false} UnpairedAgree(digest: seq<Token> -> U64, d: nat, a: Key, b: Key)
    requires Depth(a) <= d && Depth(b) <= d && KeyOk(a) && KeyOk(b) && !Paired(a) && !Paired(b) && KeyEq(a, b)
    ensures KeyEq(b, a) && Feed(digest, a) == Feed(digest, b)
    decreases d, 1
  {
    hide Match, Feed;
    SameKind(AsKeys, a, b);
    if a.KTuple? {
      var xs, ys := a.items, b.items;
      TuplesUnfold(AsKeys, xs, ys);
      TuplesUnfold(AsKeys, ys, xs);
      forall i | 0 <= i < |xs| ensures Match(AsKeys, ys[i], xs[i]) && Feed(digest, xs[i]) == Feed(digest, ys[i]) {
        UnpairedAgree(digest, d - 1, xs[i], ys[i]);
      }
      TuplesFeed(digest, xs, ys);
    } else if a.KFrozenset? {
      UnpairedSets(digest, d, a.items, b.items);
    } else {
      RobustKeysFeedAlike(digest, a, b);
    }
  }

  lemma {:induction false} UnpairedSets(digest: seq<Token> -> U64, d: nat, xs: seq<Key>, ys: seq<Key>)
    requires d > 0 && Depth(KFrozenset(xs)) <= d && Depth(KFrozenset(ys)) <= d
    requires KeyOk(KFrozenset(xs)) && KeyOk(KFrozenset(ys)) && KeyEq(KFrozenset(xs), KFrozenset(ys))
    requires !Paired(KFrozenset(xs)) && !Paired(KFrozenset(ys))
    ensures KeyEq(KFrozenset(ys), KFrozenset(xs)) && Feed(digest, KFrozenset(xs)) == Feed(digest, KFrozenset(ys))
    decreases d, 0
  {
    hide Match, HasPartner, Feed, NoPair;
    SetsUnfold(AsKeys, xs, ys);
    SetsUnfold(AsKeys, ys, xs);
    var p := PickPartners(AsKeys, xs, ys);
    forall i | 0 <= i < |xs|
      ensures KeyEq(xs[i], ys[p[i]]) && Feed(digest, ys[p[i]]) == Feed(digest, xs[i])
    {
      UnpairedAgree(digest, d - 1, ys[p[i]], xs[i]);
    }
    UnpairedDistinct(xs, ys, p);
    PartnersBack(xs, ys, p);
    SetFeedRearranged(digest, xs, ys, p);
  }

  /** Partners that are equal both ways and all different lead back. */
  lemma PartnersBack(xs: seq<Key>, ys: seq<Key>, p: seq<nat>)
    requires |xs| == |ys| == |p| && DistinctNats(p) && forall i :: 0 <= i < |p| ==> p[i] < |ys| && KeyEq(xs[i], ys[p[i]])
    ensures KeyEq(KFrozenset(ys), KFrozenset(xs))
  {
    hide Match, HasPartner;
    SetsUnfold(AsKeys, ys, xs);
    forall j | 0 <= j < |ys| ensures HasPartner(AsKeys, xs, ys[j]) {
      Onto(p, |ys|, j);
      var i :| 0 <= i < |p| && p[i] == j;
      Partner(AsKeys, xs, ys[j], i);
    }
  }

  lemma UnpairedDistinct(xs: seq<Key>, ys: seq<Key>, p: seq<nat>)
    requires KeyOk(KFrozenset(xs)) && KeyOk(KFrozenset(ys)) && NoPair(xs) && Partners(AsKeys, xs, ys, p)
    requires forall i :: 0 <= i < |xs| ==> KeyEq(xs[i], ys[p[i]])
    ensures DistinctNats(p)
  {
    hide Match;
    forall i, k | 0 <= i < k < |p| ensures p[i] != p[k] {
      if p[i] == p[k] {
        IsSame(AsKeys, xs[i], ys[p[i]]);
        IsSame(AsKeys, ys[p[i]], xs[k]);
        SameTransitive(xs[i], ys[p[i]], xs[k]);
        assert false;
      }
    }
  }

  /** Keys whose frozensets hold pairwise unequal elements: if equal in either direction, then in both, and they feed alike. */
  lemma EqualKeysFeedAlike(digest: seq<Token> -> U64, a: Key, b: Key)
    requires KeyOk(a) && KeyOk(b) && !Paired(a) && !Paired(b) && (KeyEq(a, b) || KeyEq(b, a))
    ensures KeyEq(a, b) && KeyEq(b, a) && Feed(digest, a) == Feed(digest, b)
  {
    hide KeyOk, KeyEq, Depth, Feed, Paired;
    var d := Max(Depth(a), Depth(b));
    if KeyEq(a, b) {
      UnpairedAgree(digest, d, a, b);
    } else {
      UnpairedAgree(digest, d, b, a);
    }
  }

  // ---------- and keys with two such elements ----------

  /** A digest that singles out one text, and every stream that holds the digest of a set with an odd number of those. */
  ghost function Taint(s: string): seq<Token> -> U64 {
    (t: seq<Token>) => if t == [Tag(3), Text(s)] || Digest(U64(1)) in t then U64(1) else U64(0)
  }

  lemma {:induction false} XorZeros(ws: seq<U64>)
    requires forall i :: 0 <= i < |ws| ==> ws[i] == U64(0)
    ensures XorAll(ws) == U64(0)
  {
    if ws != [] {
      XorZeros(ws[..|ws| - 1]);
    }
  }

  lemma XorOne(ws: seq<U64>, k: nat)
    requires k < |ws| && ws[k] == U64(1) && forall i :: 0 <= i < |ws| && i != k ==> ws[i] == U64(0)
    ensures XorAll(ws) == U64(1)
  {
    hide Exchangeable;
    XorExchangeable();
    FoldWithout(Xor, U64(0), ws, k);
    XorZeros(RemoveAt(ws, k));
  }

  /** Without the text, nothing is tainted. */
  lemma {:induction false} Untainted(s: string, k: Key)
    requires ShortTexts(k, |s|)
    ensures Digest(U64(1)) !in Feed(Taint(s), k) && Taint(s)(Feed(Taint(s), k)) == U64(0)
    decreases k, 1
  {
    hide FloatKeyInt;
    match k
    case KTuple(items) =>
      UntaintedAll(s, items, Depth(k));
      assert Feed(Taint(s), k)[0] == Tag(4);
    case KFrozenset(items) =>
      var ws := Digests(Taint(s), items, Depth(k));
      forall i | 0 <= i < |items| ensures ws[i] == U64(0) { Untainted(s, items[i]); }
      XorZeros(ws);
    case _ =>
  }

  lemma {:induction false} UntaintedAll(s: string, ks: seq<Key>, d: nat)
    requires DepthOf(ks) < d && forall i :: 0 <= i < |ks| ==> ShortTexts(ks[i], |s|)
    ensures Digest(U64(1)) !in FeedAll(Taint(s), ks, d)
    decreases ks, 0
  {
    hide Feed;
    if ks != [] {
      var n := |ks| - 1;
      DepthPrefix(ks, n);
      UntaintedAll(s, ks[..n], d);
      Untainted(s, ks[n]);
    }
  }

  lemma {:induction false} TokenInAll(digest: seq<Token> -> U64, ks: seq<Key>, i: nat, d: nat, t: Token)
    requires DepthOf(ks) < d && i < |ks| && t in Feed(digest, ks[i])
    ensures t in FeedAll(digest, ks, d)
    decreases |ks|
  {
    hide Feed;
    var n := |ks| - 1;
    DepthPrefix(ks, n);
    if i < n {
      TokenInAll(digest, ks[..n], i, d, t);
    }
  }

  /** One tainted element taints the frozenset. */
  lemma TaintedSet(s: string, ks: seq<Key>, i: nat)
    requires i < |ks| && Taint(s)(Feed(Taint(s), ks[i])) == U64(1)
    requires forall k :: 0 <= k < |ks| && k != i ==> ShortTexts(ks[k], |s|)
    ensures Digest(U64(1)) in Feed(Taint(s), KFrozenset(ks))
  {
    hide Feed, Taint, ShortTexts, XorAll;
    var ws := Digests(Taint(s), ks, Depth(KFrozenset(ks)));
    forall k | 0 <= k < |ks| && k != i ensures ws[k] == U64(0) {
      Untainted(s, ks[k]);
    }
    XorOne(ws, i);
    SetStream(Taint(s), ks);
  }

  lemma SetStream(digest: seq<Token> -> U64, ks: seq<Key>)
    ensures Digest(XorAll(Digests(digest, ks, Depth(KFrozenset(ks))))) in Feed(digest, KFrozenset(ks))
  {
    assert Feed(digest, KFrozenset(ks))[1] == Digest(XorAll(Digests(digest, ks, Depth(KFrozenset(ks)))));
  }

  lemma {:induction false} UnsignShort(k: Key, n: nat)
    requires ShortTexts(k, n)
    ensures ShortTexts(Unsign(k), n)
    decreases k
  {
    if k.KTuple? || k.KFrozenset? {
      forall i | 0 <= i < |k.items| ensures ShortTexts(Unsign(k.items[i]), n) { UnsignShort(k.items[i], n); }
    }
  }

  /** A key with two such elements is equal to another, or another to it, but not both, and the other is tainted. */
  lemma {:induction false} PairedWitness(a: Key, s: string) returns (b: Key, left: bool)
    requires KeyOk(a) && Paired(a) && ShortTexts(a, |s|)
    ensures KeyOk(b) && Digest(U64(1)) in Feed(Taint(s), b)
    ensures KeyEq(a, b) == left && KeyEq(b, a) == !left
    ensures Flat(a) ==> left
    decreases a
  {
    hide Match, Feed, NoPair;
    if a.KTuple? {
      var xs := a.items;
      var i :| 0 <= i < |xs| && Paired(xs[i]);
      var z, l := PairedWitness(xs[i], s);
      b, left := KTuple(xs[i := z]), l;
      TupleReplace(xs, i, z);
      TokenInTuple(Taint(s), xs[i := z], i, Digest(U64(1)));
    } else if !NoPair(a.items) {
      b := PairedDirectly(a.items, s);
      left := true;
    } else {
      var xs := a.items;
      var i :| 0 <= i < |xs| && Paired(xs[i]);
      var z, l := PairedWitness(xs[i], s);
      b, left := KFrozenset(xs[i := z]), !l;
      OneWayEither(xs, i, z, l);
      TaintedSet(s, xs[i := z], i);
      if Simple(xs[i]) { SimpleIsUnpaired(xs[i]); }
    }
  }

  lemma TokenInTuple(digest: seq<Token> -> U64, xs: seq<Key>, i: nat, t: Token)
    requires i < |xs| && t in Feed(digest, xs[i])
    ensures t in Feed(digest, KTuple(xs))
  {
    TokenInAll(digest, xs, i, Depth(KTuple(xs)), t);
  }

  lemma PairedDirectly(xs: seq<Key>, s: string) returns (b: Key)
    requires KeyOk(KFrozenset(xs)) && !NoPair(xs) && ShortTexts(KFrozenset(xs), |s|)
    ensures KeyOk(b) && KeyEq(KFrozenset(xs), b) && !KeyEq(b, KFrozenset(xs)) && Digest(U64(1)) in Feed(Taint(s), b)
  {
    hide Match, KeyOk, Feed;
    var j, i :| 0 <= i < |xs| && 0 <= j < |xs| && j != i && Same(xs[j], xs[i]);
    assert forall k :: 0 <= k < |xs| ==> ShortTexts(xs[k], |s|);
    var ys := PairSwap(xs, i, j, s);
    b := KFrozenset(ys);
    UnsignShort(xs[j], |s|);
    TextStream(s);
    TaintedSet(s, ys, i);
  }

  lemma TextStream(s: string)
    ensures Taint(s)(Feed(Taint(s), KString(s))) == U64(1)
  {
  }

  /** Replacing an element by a key that matches it one way only makes the frozensets match the other way only. */
  lemma OneWayEither(xs: seq<Key>, q: nat, z: Key, left: bool)
    requires KeyOk(KFrozenset(xs)) && NoPair(xs) && q < |xs| && KeyOk(z)
    requires KeyEq(xs[q], z) == left && KeyEq(z, xs[q]) == !left
    ensures KeyOk(KFrozenset(xs[q := z]))
    ensures KeyEq(KFrozenset(xs), KFrozenset(xs[q := z])) == !left
    ensures KeyEq(KFrozenset(xs[q := z]), KFrozenset(xs)) == left
  {
    hide Match, NoPair, HasPartner, KeyOk, SameValue;
    ReplacementApart(xs, q, z, left);
    ReplaceOk(xs, q, z);
    ReplaceEqual(xs, q, z);
    var ys := xs[q := z];
    SetsUnfold(AsKeys, ys, xs);
    SetsUnfold(AsKeys, xs, ys);
    if left {
      forall i | 0 <= i < |ys| ensures !Match(AsKeys, ys[i], xs[q]) {
        if i != q { NotEqualElements(xs, i, q); }
      }
      NoPartner(ys, xs[q]);
    } else {
      NoPartner(xs, ys[q]);
    }
  }

  /** The other key brings no such elements of its own. */
  ghost predicate NoNewPair(a: Key, b: Key) {
    Paired(b) ==> Paired(a)
  }

  /** Equality with keys that bring no pair of their own is symmetric if and only if the key holds no pair. */
  lemma PairBreaksSymmetry(a: Key)
    requires KeyOk(a)
    ensures (forall b | KeyOk(b) && NoNewPair(a, b) :: KeyEq(a, b) <==> KeyEq(b, a)) <==> !Paired(a)
  {
    hide KeyOk, KeyEq, Paired;
    if Paired(a) {
      var s := LongText(a);
      var b, left := PairedWitness(a, s);
      assert NoNewPair(a, b);
    } else {
      forall b | KeyOk(b) && NoNewPair(a, b) ensures KeyEq(a, b) <==> KeyEq(b, a) {
        if KeyEq(a, b) || KeyEq(b, a) {
          EqualKeysFeedAlike(Taint(""), a, b);
        }
      }
    }
  }

  /** And it implies equal streams, whatever the digest, if and only if the key holds no pair. */
  lemma PairBreaksFeed(a: Key)
    requires KeyOk(a)
    ensures (forall b, digest: seq<Token> -> U64 | KeyOk(b) && NoNewPair(a, b) && (KeyEq(a, b) || KeyEq(b, a)) ::
               Feed(digest, a) == Feed(digest, b))
       <==> !Paired(a)
  {
    hide KeyOk, KeyEq, Paired, Feed;
    if Paired(a) {
      var s := LongText(a);
      var b, left := PairedWitness(a, s);
      assert NoNewPair(a, b);
      Untainted(s, a);
      assert Feed(Taint(s), a) != Feed(Taint(s), b);
    } else {
      forall b, digest: seq<Token> -> U64 | KeyOk(b) && NoNewPair(a, b) && (KeyEq(a, b) || KeyEq(b, a))
        ensures Feed(digest, a) == Feed(digest, b)
      {
        EqualKeysFeedAlike(digest, a, b);
      }
    }
  }

  // ---------- frozensets that hold no frozensets ----------

  /** No frozenset lies inside another. */
  ghost predicate Flat(k: Key)
    decreases k
  {
    match k
    case KTuple(items) => forall i :: 0 <= i < |items| ==> Flat(items[i])
    case KFrozenset(items) => forall i :: 0 <= i < |items| ==> Simple(items[i])
    case _ => true
  }

  ghost predicate Simple(k: Key)
    decreases k
  {
    match k
    case KTuple(items) => forall i :: 0 <= i < |items| ==> Simple(items[i])
    case KFrozenset(_) => false
    case _ => true
  }

  lemma {:induction false} SimpleIsUnpaired(k: Key)
    requires Simple(k)
    ensures !Paired(k) && !Fragile(k)
    decreases k
  {
    if k.KTuple? {
      forall i | 0 <= i < |k.items| ensures !Paired(k.items[i]) && !Fragile(k.items[i]) {
        SimpleIsUnpaired(k.items[i]);
      }
    }
  }

  /** Then no such pair in the key is enough, whatever the other key holds. */
  lemma {:induction false} FlatAgrees(digest: seq<Token> -> U64, a: Key, b: Key)
    requires KeyOk(a) && KeyOk(b) && Flat(a) && !Paired(a) && KeyEq(a, b)
    ensures KeyEq(b, a) && Feed(digest, a) == Feed(digest, b)
    decreases a
  {
    hide Match, Feed;
    SameKind(AsKeys, a, b);
    if a.KTuple? {
      var xs, ys := a.items, b.items;
      TuplesUnfold(AsKeys, xs, ys);
      TuplesUnfold(AsKeys, ys, xs);
      forall i | 0 <= i < |xs| ensures Match(AsKeys, ys[i], xs[i]) && Feed(digest, xs[i]) == Feed(digest, ys[i]) {
        FlatAgrees(digest, xs[i], ys[i]);
      }
      TuplesFeed(digest, xs, ys);
    } else if a.KFrozenset? {
      FlatSets(digest, a.items, b.items);
    } else {
      RobustKeysFeedAlike(digest, a, b);
    }
  }

  lemma FlatSets(digest: seq<Token> -> U64, xs: seq<Key>, ys: seq<Key>)
    requires KeyOk(KFrozenset(xs)) && KeyOk(KFrozenset(ys)) && Flat(KFrozenset(xs)) && NoPair(xs)
    requires KeyEq(KFrozenset(xs), KFrozenset(ys))
    ensures KeyEq(KFrozenset(ys), KFrozenset(xs)) && Feed(digest, KFrozenset(xs)) == Feed(digest, KFrozenset(ys))
  {
    hide Match, HasPartner, Feed;
    SetsUnfold(AsKeys, xs, ys);
    var p := PickPartners(AsKeys, xs, ys);
    forall i | 0 <= i < |xs|
      ensures KeyEq(xs[i], ys[p[i]]) && Feed(digest, ys[p[i]]) == Feed(digest, xs[i])
    {
      SimpleIsUnpaired(xs[i]);
      RobustKeysFeedAlike(digest, xs[i], ys[p[i]]);
    }
    UnpairedDistinct(xs, ys, p);
    PartnersBack(xs, ys, p);
    SetFeedRearranged(digest, xs, ys, p);
  }

  /** Without frozensets in frozensets: the keys a key is equal to are equal to it, and feed alike, if and only if it holds no pair. */
  lemma FlatExactly(a: Key)
    requires KeyOk(a) && Flat(a)
    ensures (forall b | KeyOk(b) && KeyEq(a, b) :: KeyEq(b, a)) <==> !Paired(a)
    ensures (forall b, digest: seq<Token> -> U64 | KeyOk(b) && KeyEq(a, b) :: Feed(digest, a) == Feed(digest, b)) <==> !Paired(a)
  {
    hide KeyOk, KeyEq, Paired, Feed, Flat;
    if Paired(a) {
      var s := LongText(a);
      var b, left := PairedWitness(a, s);
      Untainted(s, a);
      assert Feed(Taint(s), a) != Feed(Taint(s), b);
    } else {
      forall b, digest: seq<Token> -> U64 | KeyOk(b) && KeyEq(a, b) ensures KeyEq(b, a) && Feed(digest, a) == Feed(digest, b) {
        FlatAgrees(digest, a, b);
      }
      forall b | KeyOk(b) && KeyEq(a, b) ensures KeyEq(b, a) {
        FlatAgrees(Taint(""), a, b);
      }
    }
  }

  // ---------- two inputs ----------

  /** `{2.0**63, 2**63 - 1}`, a frozenset of two elements. */
  ghost function Twins(): seq<Key> {
    [KFloat(TOP), KInt(MAX_I64)]
  }

  ghost function MaxAndSeven(): seq<Key> {
    [KInt(MAX_I64), KInt(7)]
  }

  lemma TwinsOk()
    ensures KeyOk(KFrozenset(Twins())) && KeyOk(KFrozenset(MaxAndSeven()))
  {
    hide FloatKeyInt, ExactInt;
    KeyIntIs(TOP);
    var xs, ys := Twins(), MaxAndSeven();
    assert !SameValue(xs[0], xs[1]) && !SameValue(xs[1], xs[0]);
    assert !SameValue(ys[0], ys[1]) && !SameValue(ys[1], ys[0]);
  }

  lemma TwinsElements(x: Key, y: Key, z: Key)
    requires x == KFloat(TOP) && y == KInt(MAX_I64) && z == KInt(7)
    ensures KeyEq(y, x) && KeyEq(y, y) && !KeyEq(x, z) && !KeyEq(y, z)
  {
    hide FloatKeyInt;
    KeyIntIs(TOP);
  }

  lemma TwinsMatch()
    ensures KeyEq(KFrozenset(Twins()), KFrozenset(MaxAndSeven())) && !KeyEq(KFrozenset(MaxAndSeven()), KFrozenset(Twins()))
  {
    hide Match, HasPartner;
    var xs, ys := Twins(), MaxAndSeven();
    SetsUnfold(AsKeys, xs, ys);
    SetsUnfold(AsKeys, ys, xs);
    TwinsElements(xs[0], xs[1], ys[1]);
    Partner(AsKeys, ys, xs[0], 0);
    Partner(AsKeys, ys, xs[1], 0);
    NoPartner(xs, ys[1]);
  }

  lemma XorTwo(ws: seq<U64>)
    requires |ws| == 2
    ensures XorAll(ws) == U64(0) <==> ws[0] == ws[1]
  {
    var v := ws[..1];
    assert v[..0] == [] && Fold(Xor, U64(0), v) == Xor(U64(0), ws[0]);
    XorBitsZero(ws[0].bits, ws[1].bits);
  }

  lemma XorBitsZero(a: bv64, b: bv64)
    ensures XorBits(XorBits(0, a), b) == 0 <==> a == b
  {
    ZeroBits(a);
    ZeroBits(b);
    SelfBits(a);
    CancelBits(a, b);
    hide XorBits;
  }

  lemma ZeroBits(a: bv64)
    ensures XorBits(0, a) == a
  {
  }

  lemma SelfBits(a: bv64)
    ensures XorBits(a, a) == 0
  {
  }

  lemma CancelBits(a: bv64, b: bv64)
    ensures XorBits(XorBits(a, b), b) == a
  {
  }

  /** The first is equal to the second and not the other way round; they feed differently unless 7 and `2^63 - 1` collide. */
  lemma TwinsBreakKeys(digest: seq<Token> -> U64)
    ensures KeyEq(KFrozenset(Twins()), KFrozenset(MaxAndSeven())) && !KeyEq(KFrozenset(MaxAndSeven()), KFrozenset(Twins()))
    ensures digest([Tag(1), I64(7)]) != digest([Tag(1), I64(MAX_I64)])
            ==> Feed(digest, KFrozenset(Twins())) != Feed(digest, KFrozenset(MaxAndSeven()))
  {
    hide FloatKeyInt, Match;
    TwinsMatch();
    KeyIntIs(TOP);
    var xs, ys := Twins(), MaxAndSeven();
    var a, b := Digests(digest, xs, Depth(KFrozenset(xs))), Digests(digest, ys, Depth(KFrozenset(ys)));
    assert Feed(digest, xs[0]) == Feed(digest, xs[1]) == [Tag(1), I64(MAX_I64)];
    XorTwo(a);
    XorTwo(b);
  }

  /** Inside another frozenset the direction turns round: `{{2**63 - 1, 7}}` holds no pair and is not safe either. */
  lemma NestedTwinsBreakKeys()
    ensures var a, b := KFrozenset([KFrozenset(MaxAndSeven())]), KFrozenset([KFrozenset(Twins())]);
            KeyOk(a) && KeyOk(b) && !Paired(a) && KeyEq(a, b) && !KeyEq(b, a)
  {
    hide Match, Paired;
    TwinsOk();
    TwinsMatch();
    var xs := [KFrozenset(MaxAndSeven())];
    Singletons(xs, KFrozenset(Twins()));
    Unpaired();
  }

  lemma Unpaired()
    ensures !Paired(KFrozenset(MaxAndSeven())) && !Paired(KFrozenset([KFrozenset(MaxAndSeven())]))
  {
    var xs := MaxAndSeven();
    assert !Same(xs[0], xs[1]) && !Same(xs[1], xs[0]);
    assert NoPair(xs);
    assert NoPair([KFrozenset(xs)]);
  }
}
