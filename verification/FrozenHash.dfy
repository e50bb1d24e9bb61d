/** Exclusive or of machine words. */
module Words {
  /** A machine word, kept as one value so that folds do not look inside it. */
  datatype U64 = U64(bits: bv64)

  function XorBits(a: bv64, b: bv64): bv64 {
    a ^ b
  }

  function Xor(a: U64, b: U64): U64 {
    U64(XorBits(a.bits, b.bits))
  }

  lemma XorTwice(a: bv64, b: bv64, c: bv64)
    ensures XorBits(XorBits(a, b), c) == (a ^ b) ^ c
  {
  }

  lemma RawSwap(a: bv64, b: bv64, c: bv64)
    ensures (a ^ b) ^ c == (a ^ c) ^ b
  {
  }

  lemma BitsSwap(a: bv64, b: bv64, c: bv64)
    ensures XorBits(XorBits(a, b), c) == XorBits(XorBits(a, c), b)
  {
    XorTwice(a, b, c);
    XorTwice(a, c, b);
    RawSwap(a, b, c);
  }
}

/**
 The hash of a frozenset: a XOR fold over the element hashes in slot order, a size
 mix and a final avalanche. Slot order depends on the history of a table; the hash
 does not.
 */
module FrozenHash {
  import opened Probe
  import opened TableModel
  import opened TableCorrect
  import opened Words

  function Word(h: int): bv64 {
    (h % WORD) as bv64
  }

  function ShuffleBits(h: bv64): bv64 {
    ((h ^ 89869747) ^ (h << 16)) * 3644798167
  }

  function Avalanche(mixed: bv64, size: nat): bv64 {
    var sized := mixed ^ (Word(size + 1) * 1927868237);
    var folded := sized ^ ((sized >> 11) ^ (sized >> 25));
    var r := folded * 69069 + 907133923;
    if r == 0xFFFF_FFFF_FFFF_FFFF then 590923713 else r
  }

  /** Words combined from the left. */
  function Fold<W>(op: (W, W) -> W, zero: W, ws: seq<W>): W {
    if ws == [] then zero else op(Fold(op, zero, ws[..|ws| - 1]), ws[|ws| - 1])
  }

  /** The element hashes, scattered. */
  function Scattered<V, W>(scatter: int -> W, es: seq<Entry<V>>): (ws: seq<W>)
    ensures |ws| == |es| && forall i :: 0 <= i < |es| ==> ws[i] == scatter(es[i].hash)
  {
    seq(|es|, i requires 0 <= i < |es| => scatter(es[i].hash))
  }

  method FoldHashes<V, W>(op: (W, W) -> W, zero: W, scatter: int -> W, es: seq<Entry<V>>) returns (hash: W)
    ensures hash == Fold(op, zero, Scattered(scatter, es))
  {
    hash := zero;
    ghost var ws := Scattered(scatter, es);
    for k := 0 to |es|
      invariant hash == Fold(op, zero, ws[..k])
    {
      assert ws[..k + 1][..k] == ws[..k];
      hash := op(hash, scatter(es[k].hash));
    }
    assert ws[..|es|] == ws;
  }

  function Scatter(h: int): U64 {
    U64(ShuffleBits(Word(h)))
  }

  /** Exclusive or of all words. */
  function XorAll(ws: seq<U64>): U64 {
    Fold(Xor, U64(0), ws)
  }

  function FrozensetHash<V>(es: seq<Entry<V>>): bv64 {
    Avalanche(XorAll(Scattered(Scatter, es)).bits, |es|)
  }

  /** `hash_frozenset`; the result is the bit pattern of the signed hash. */
  method HashFrozenset<V>(es: seq<Entry<V>>) returns (r: bv64)
    ensures r == FrozensetHash(es)
  {
    var hash := FoldHashes(Xor, U64(0), Scatter, es);
    r := Avalanche(hash.bits, |es|);
  }

  ghost predicate Exchangeable<W(!new)>(op: (W, W) -> W) {
    forall a, b, c :: op(op(a, b), c) == op(op(a, c), b)
  }

  lemma XorExchangeable()
    ensures Exchangeable(Xor)
  {
    forall a, b, c ensures Xor(Xor(a, b), c) == Xor(Xor(a, c), b) {
      BitsSwap(a.bits, b.bits, c.bits);
    }
  }

  function RemoveAt<T>(s: seq<T>, j: nat): seq<T>
    requires j < |s|
  {
    s[..j] + s[j + 1..]
  }

  /** Any word can be folded in last. */
  lemma {:induction false} FoldWithout<W(!new)>(op: (W, W) -> W, zero: W, ws: seq<W>, j: nat)
    requires j < |ws| && Exchangeable(op)
    ensures Fold(op, zero, ws) == op(Fold(op, zero, RemoveAt(ws, j)), ws[j])
  {
    var n := |ws| - 1;
    if j == n {
      assert RemoveAt(ws, j) == ws[..n];
    } else {
      FoldWithout(op, zero, ws[..n], j);
      assert RemoveAt(ws, j)[..n - 1] == RemoveAt(ws[..n], j);
    }
  }

  /** `a` and `b` list the same elements. */
  ghost predicate SameMembers<V>(eq: (V, V) -> bool, a: seq<Entry<V>>, b: seq<Entry<V>>) {
    && (forall i :: 0 <= i < |a| ==> Member(eq, Elements(b), a[i]))
    && (forall j :: 0 <= j < |b| ==> Member(eq, Elements(a), b[j]))
  }

  lemma {:induction false} FoldIgnoresOrder<V(!new), W(!new)>(
    op: (W, W) -> W, zero: W, scatter: int -> W, eq: (V, V) -> bool, a: seq<Entry<V>>, b: seq<Entry<V>>)
    requires Exchangeable(op)
    requires Equivalence(eq) && Distinct(eq, a) && Distinct(eq, b) && SameMembers(eq, a, b)
    ensures |a| == |b| && Fold(op, zero, Scattered(scatter, a)) == Fold(op, zero, Scattered(scatter, b))
    decreases |a|
  {
    hide Exchangeable, Equivalence, Distinct, Member;
    if a == [] {
      if b != [] {
        var j := RemovePair(eq, b, a);
        assert false;
      }
    } else {
      var n := |a| - 1;
      var j := RemovePair(eq, a, b);
      FoldIgnoresOrder(op, zero, scatter, eq, a[..n], RemoveAt(b, j));
      FoldPair(op, zero, scatter, a, b, j);
    }
  }

  /** Folds without the last entry of `a` and without its partner in `b` decide the whole folds. */
  lemma FoldPair<V, W(!new)>(op: (W, W) -> W, zero: W, scatter: int -> W, a: seq<Entry<V>>, b: seq<Entry<V>>, j: nat)
    requires Exchangeable(op) && a != [] && j < |b| && b[j].hash == a[|a| - 1].hash
    requires Fold(op, zero, Scattered(scatter, a[..|a| - 1])) == Fold(op, zero, Scattered(scatter, RemoveAt(b, j)))
    ensures Fold(op, zero, Scattered(scatter, a)) == Fold(op, zero, Scattered(scatter, b))
  {
    hide Exchangeable;
    FoldWithout(op, zero, Scattered(scatter, b), j);
    assert Scattered(scatter, a)[..|a| - 1] == Scattered(scatter, a[..|a| - 1]);
    assert RemoveAt(Scattered(scatter, b), j) == Scattered(scatter, RemoveAt(b, j));
  }

  lemma FindPartner<V>(eq: (V, V) -> bool, a: seq<Entry<V>>, b: seq<Entry<V>>, i: nat) returns (j: nat)
    requires i < |a| && Member(eq, Elements(b), a[i])
    ensures j < |b| && Same(eq, b[j], a[i])
  {
    var x :| x in Elements(b) && Same(eq, x, a[i]);
    j :| 0 <= j < |b| && b[j] == x;
  }

  /** The last entry of `a` and its partner in `b` can be taken out together. */
  lemma RemovePair<V(!new)>(eq: (V, V) -> bool, a: seq<Entry<V>>, b: seq<Entry<V>>) returns (j: nat)
    requires Equivalence(eq) && Distinct(eq, a) && Distinct(eq, b) && SameMembers(eq, a, b) && a != []
    ensures j < |b| && b[j].hash == a[|a| - 1].hash
    ensures Distinct(eq, a[..|a| - 1]) && Distinct(eq, RemoveAt(b, j)) && SameMembers(eq, a[..|a| - 1], RemoveAt(b, j))
  {
    j := FindPartner(eq, a, b, |a| - 1);
    RemoveFromRight(eq, a, b, j);
    RemoveFromLeft(eq, a, b, j);
  }

  lemma RemoveFromRight<V(!new)>(eq: (V, V) -> bool, a: seq<Entry<V>>, b: seq<Entry<V>>, j: nat)
    requires Equivalence(eq) && Distinct(eq, a) && Distinct(eq, b) && SameMembers(eq, a, b)
    requires a != [] && j < |b| && Same(eq, b[j], a[|a| - 1])
    ensures Distinct(eq, RemoveAt(b, j))
    ensures forall i :: 0 <= i < |a| - 1 ==> Member(eq, Elements(RemoveAt(b, j)), a[i])
  {
    forall i | 0 <= i < |a| - 1 ensures Member(eq, Elements(RemoveAt(b, j)), a[i]) {
      var m := FindPartner(eq, a, b, i);
      StillThere(eq, a, b, j, i, m);
    }
  }

  lemma RemoveFromLeft<V(!new)>(eq: (V, V) -> bool, a: seq<Entry<V>>, b: seq<Entry<V>>, j: nat)
    requires Equivalence(eq) && Distinct(eq, b) && SameMembers(eq, a, b)
    requires a != [] && j < |b| && Same(eq, b[j], a[|a| - 1])
    ensures forall i :: 0 <= i < |RemoveAt(b, j)| ==> Member(eq, Elements(a[..|a| - 1]), RemoveAt(b, j)[i])
  {
    var a', b' := a[..|a| - 1], RemoveAt(b, j);
    forall i | 0 <= i < |b'| ensures Member(eq, Elements(a'), b'[i]) {
      var m := if i < j then i else i + 1;
      assert b'[i] == b[m];
      var k := FindPartner(eq, b, a, m);
      NotTheLast(eq, a, b, j, k, m);
      assert a'[k] in Elements(a');
    }
  }

  lemma StillThere<V(!new)>(eq: (V, V) -> bool, a: seq<Entry<V>>, b: seq<Entry<V>>, j: nat, i: nat, m: nat)
    requires Equivalence(eq) && Distinct(eq, a)
    requires a != [] && j < |b| && Same(eq, b[j], a[|a| - 1]) && i < |a| - 1 && m < |b| && Same(eq, b[m], a[i])
    ensures Member(eq, Elements(RemoveAt(b, j)), a[i])
  {
    var x, y := a[i], a[|a| - 1];
    assert m == j ==> Same(eq, x, y);
    var b' := RemoveAt(b, j);
    assert b'[if m < j then m else m - 1] == b[m];
    assert b[m] in Elements(b');
  }

  lemma NotTheLast<V(!new)>(eq: (V, V) -> bool, a: seq<Entry<V>>, b: seq<Entry<V>>, j: nat, k: nat, m: nat)
    requires Equivalence(eq) && Distinct(eq, b)
    requires a != [] && j < |b| && Same(eq, b[j], a[|a| - 1]) && k < |a| && m < |b| && m != j && Same(eq, a[k], b[m])
    ensures k < |a| - 1
  {
    assert k == |a| - 1 ==> Same(eq, b[j], b[m]) && Same(eq, b[m], b[j]);
  }

  /** Two tables with the same elements hash alike, whatever their histories. */
  lemma HashIgnoresHistory<V(!new)>(eq: (V, V) -> bool, t: Table<V>, u: Table<V>)
    requires Inv(eq, t) && Inv(eq, u)
    requires forall e :: Member(eq, Contents(t.slots), e) <==> Member(eq, Contents(u.slots), e)
    ensures FrozensetHash(Actives(t.slots)) == FrozensetHash(Actives(u.slots))
  {
    var a, b := Actives(t.slots), Actives(u.slots);
    ActivesAreContents(t.slots);
    ActivesAreContents(u.slots);
    ActivesDistinct(eq, t.slots);
    ActivesDistinct(eq, u.slots);
    SelfMembers(eq, a);
    SelfMembers(eq, b);
    XorExchangeable();
    FoldIgnoresOrder(Xor, U64(0), Scatter, eq, a, b);
  }

  lemma SelfMembers<V(!new)>(eq: (V, V) -> bool, a: seq<Entry<V>>)
    requires Equivalence(eq)
    ensures forall i :: 0 <= i < |a| ==> Member(eq, Elements(a), a[i])
  {
    forall i | 0 <= i < |a| ensures Member(eq, Elements(a), a[i]) {
      assert a[i] in Elements(a) && Same(eq, a[i], a[i]);
    }
  }

  // ---------- known hashes ----------

  /** The hash depends on the hashes of the elements alone: this is it for one element and for three. */
  lemma FewElements<V>(es: seq<Entry<V>>)
    ensures |es| == 0 ==> FrozensetHash(es) == Avalanche(0, 0)
    ensures |es| == 1 ==> FrozensetHash(es) == Avalanche(ShuffleBits(Word(es[0].hash)), 1)
    ensures |es| == 3 ==>
      var x, y, z := ShuffleBits(Word(es[0].hash)), ShuffleBits(Word(es[1].hash)), ShuffleBits(Word(es[2].hash));
      FrozensetHash(es) == Avalanche(XorBits(XorBits(x, y), z), 3)
  {
    hide Avalanche, ShuffleBits, Word, XorBits;
    var ws := Scattered(Scatter, es);
    FoldFew(Xor, U64(0), ws);
    if |es| == 1 {
      ZeroFirst(ws[0].bits);
    } else if |es| == 3 {
      ZeroFirst(ws[0].bits);
    }
  }

  lemma FoldFew<W>(op: (W, W) -> W, zero: W, ws: seq<W>)
    ensures |ws| == 1 ==> Fold(op, zero, ws) == op(zero, ws[0])
    ensures |ws| == 3 ==> Fold(op, zero, ws) == op(op(op(zero, ws[0]), ws[1]), ws[2])
  {
    if |ws| == 1 {
      assert ws[..0] == [];
      assert Fold(op, zero, ws[..0]) == zero;
    } else if |ws| == 3 {
      assert ws[..2][..1] == ws[..1] && ws[..1][..0] == [];
      assert Fold(op, zero, ws[..1][..0]) == zero;
      assert Fold(op, zero, ws[..1]) == op(zero, ws[0]);
      assert Fold(op, zero, ws[..2]) == op(op(zero, ws[0]), ws[1]);
    }
  }

  lemma ZeroFirst(a: bv64)
    ensures XorBits(0, a) == a
  {
  }

  lemma ShuffledSmall(h: bv64)
    ensures h == 1 ==> ShuffleBits(h) == 327318219996883070
    ensures h == 2 ==> ShuffleBits(h) == 327079350859412391
    ensures h == 3 ==> ShuffleBits(h) == 326840481721941712
  {
  }

  lemma SmallWord(h: int)
    ensures h == 1 ==> Word(h) == 1
    ensures h == 2 ==> Word(h) == 2
    ensures h == 3 ==> Word(h) == 3
    ensures h == 4 ==> Word(h) == 4
  {
  }

  /** `hash(frozenset())`, `hash(frozenset({1, 2, 3}))` as a word, and the element whose mix would be the reserved -1. */
  lemma KnownHashes<V>(es: seq<Entry<V>>)
    ensures |es| == 0 ==> FrozensetHash(es) == 133146708735736
    ensures |es| == 3 && es[0].hash == 1 && es[1].hash == 2 && es[2].hash == 3 ==> FrozensetHash(es) == 18174368672485334456
    ensures |es| == 1 && Word(es[0].hash) == 16293953486600748301 ==> FrozensetHash(es) == 590923713
  {
    FewElements(es);
    hide FrozensetHash;
    if |es| == 0 {
      NoMix(0, 0);
    } else if |es| == 3 && es[0].hash == 1 && es[1].hash == 2 && es[2].hash == 3 {
      hide Avalanche, ShuffleBits, Word, XorBits;
      SmallWord(1);
      SmallWord(2);
      SmallWord(3);
      ShuffledSmall(1);
      ShuffledSmall(2);
      ShuffledSmall(3);
      ThreeMixed(327318219996883070, 327079350859412391, 326840481721941712);
    } else if |es| == 1 && Word(es[0].hash) == 16293953486600748301 {
      hide Avalanche, ShuffleBits, Word;
      ShuffledLarge(Word(es[0].hash));
      MixReserved(ShuffleBits(Word(es[0].hash)));
    }
  }

  lemma NoMix(h: bv64, size: nat)
    requires h == 0 && size == 0
    ensures Avalanche(h, size) == 133146708735736
  {
    SmallWord(size + 1);
  }

  lemma ThreeMixed(x: bv64, y: bv64, z: bv64)
    requires x == 327318219996883070 && y == 327079350859412391 && z == 326840481721941712
    ensures Avalanche(XorBits(XorBits(x, y), z), 3) == 18174368672485334456
  {
    SmallWord(4);
  }

  lemma ShuffledLarge(w: bv64)
    requires w == 16293953486600748301
    ensures ShuffleBits(w) == 4809288294136956818
  {
  }

  lemma MixReserved(x: bv64)
    requires x == 4809288294136956818
    ensures Avalanche(x, 1) == 590923713
  {
    SmallWord(2);
  }

  /** The reserved value -1 is never a hash. */
  lemma NeverReserved<V>(es: seq<Entry<V>>)
    ensures FrozensetHash(es) != 0xFFFF_FFFF_FFFF_FFFF
  {
    hide ShuffleBits, Word, XorAll;
  }
}
