/**
 What a key feeds the hasher says which key it is: without frozensets, two keys feed the same
 stream exactly if they are equal up to the sign of zero, and no stream is the beginning of another.
 */
module KeyStreams {
  import opened Prelude
  import opened Words
  import opened Floats
  import opened KeyHash
  import KeySymmetry
  import NumberKeys

  /** No frozenset in the key, at any depth. */
  ghost predicate NoSets(k: Key)
    decreases k
  {
    match k
    case KTuple(items) => forall i :: 0 <= i < |items| ==> NoSets(items[i])
    case KFrozenset(_) => false
    case _ => true
  }

  lemma {:induction false} NoSetsIsRobust(k: Key)
    requires NoSets(k)
    ensures !KeySymmetry.Fragile(k)
    decreases k
  {
    if k.KTuple? {
      forall i | 0 <= i < |k.items| ensures !KeySymmetry.Fragile(k.items[i]) {
        NoSetsIsRobust(k.items[i]);
      }
    }
  }

  // ---------- scalars ----------

  /** The stream of a key that is neither tuple nor frozenset determines the key. */
  lemma ScalarDecodes(digest: seq<Token> -> U64, a: Key, b: Key, r: seq<Token>, s: seq<Token>)
    requires KeyOk(a) && KeyOk(b) && NoSets(b) && !a.KTuple? && !a.KFrozenset?
    requires Feed(digest, a) + r == Feed(digest, b) + s
    ensures Same(a, b) && r == s
  {
    hide FloatKeyInt, Normalized, SameDecimal, NoSets, KeyOk;
    var t, u := Feed(digest, a) + r, Feed(digest, b) + s;
    FirstToken(digest, b);
    assert t[0] == Feed(digest, a)[0] && u[0] == Feed(digest, b)[0] && t[0] == u[0];
    SameKind(digest, a, b);
    assert |Feed(digest, a)| == |Feed(digest, b)|;
    assert r == t[|Feed(digest, a)|..] && s == u[|Feed(digest, b)|..];
    assert Feed(digest, a) == t[..|Feed(digest, a)|] && Feed(digest, b) == u[..|Feed(digest, b)|];
    ScalarFeeds(digest, a, b);
  }

  lemma FirstToken(digest: seq<Token> -> U64, b: Key)
    requires NoSets(b)
    ensures Feed(digest, b) != [] && (b.KTuple? ==> Feed(digest, b)[0] == Tag(4))
  {
  }

  /** The first token tells how long the stream of a scalar is. */
  lemma SameKind(digest: seq<Token> -> U64, a: Key, b: Key)
    requires !a.KTuple? && !a.KFrozenset? && !b.KFrozenset?
    requires Feed(digest, b) != [] && Feed(digest, a)[0] == Feed(digest, b)[0]
    ensures !b.KTuple? && |Feed(digest, a)| == |Feed(digest, b)|
  {
    hide FloatKeyInt, Normalized;
  }

  lemma ScalarFeeds(digest: seq<Token> -> U64, a: Key, b: Key)
    requires KeyOk(a) && KeyOk(b) && !a.KTuple? && !a.KFrozenset? && !b.KTuple? && !b.KFrozenset?
    requires Feed(digest, a) == Feed(digest, b)
    ensures Same(a, b)
  {
    hide FloatKeyInt, Normalized, SameDecimal;
    var f, g := Feed(digest, a), Feed(digest, b);
    assert f[0] == g[0];
    if |f| > 1 { assert f[1] == g[1]; }
    if |f| > 2 { assert f[2] == g[2]; }
    if a.KFloat? && b.KFloat? && FloatKeyInt(a.f).Some? {
      FloatKeyInjective(a.f, b.f);
    }
    if a.KDecimal? && b.KDecimal? {
      DecimalFeeds(a.coefficient, a.scale, b.coefficient, b.scale);
    }
  }

  lemma DecimalFeeds(c: int, s: int, d: int, t: int)
    requires Normalized(c, s) == Normalized(d, t)
    ensures SameDecimal(c, s, d, t)
  {
    hide SameDecimal;
    var (m, u) := Normalized(c, s);
    NumberKeys.NormalizedSame(c, s);
    NumberKeys.NormalizedSame(d, t);
    DecimalSymmetric(d, t, m, u);
    DecimalTransitive(c, s, m, u, d, t);
  }

  // ---------- tuples ----------

  /** Whatever follows, a stream can be told from every other: it determines its key, and where it ends. */
  lemma {:induction false} StreamDecodes(digest: seq<Token> -> U64, d: nat, a: Key, b: Key, r: seq<Token>, s: seq<Token>)
    requires Depth(a) <= d && KeyOk(a) && KeyOk(b) && NoSets(a) && NoSets(b)
    requires Feed(digest, a) + r == Feed(digest, b) + s
    ensures Same(a, b) && r == s
    decreases d, 1
  {
    hide Match, Feed;
    if !a.KTuple? {
      ScalarDecodes(digest, a, b, r, s);
    } else if !b.KTuple? {
      ScalarDecodes(digest, b, a, s, r);
      KindsAgree(b, a);
      assert false;
    } else {
      var xs, ys := a.items, b.items;
      TupleParts(digest, xs, ys, r, s);
      AllDecode(digest, d - 1, xs, ys, Depth(a), Depth(b), r, s);
      KeySymmetry.TuplesUnfold(UpToSign, xs, ys);
    }
  }

  lemma KindsAgree(a: Key, b: Key)
    requires Same(a, b) && !a.KTuple?
    ensures !b.KTuple?
  {
    hide SameDecimal, FloatInt;
  }

  lemma TupleFeed(digest: seq<Token> -> U64, xs: seq<Key>)
    ensures Feed(digest, KTuple(xs)) == [Tag(4), Len(|xs|)] + FeedAll(digest, xs, Depth(KTuple(xs)))
  {
  }

  lemma Behind<T>(x: T, a: T, f: seq<T>, r: seq<T>, y: T, b: T, g: seq<T>, s: seq<T>)
    requires ([x, a] + f) + r == ([y, b] + g) + s
    ensures a == b && f + r == g + s
  {
    var t, u := ([x, a] + f) + r, ([y, b] + g) + s;
    assert t[1] == a && u[1] == b;
    assert t[2..] == f + r && u[2..] == g + s;
  }

  lemma TupleParts(digest: seq<Token> -> U64, xs: seq<Key>, ys: seq<Key>, r: seq<Token>, s: seq<Token>)
    requires Feed(digest, KTuple(xs)) + r == Feed(digest, KTuple(ys)) + s
    ensures |xs| == |ys|
    ensures FeedAll(digest, xs, Depth(KTuple(xs))) + r == FeedAll(digest, ys, Depth(KTuple(ys))) + s
  {
    hide Feed, FeedAll;
    TupleFeed(digest, xs);
    TupleFeed(digest, ys);
    Behind(Tag(4), Len(|xs|), FeedAll(digest, xs, Depth(KTuple(xs))), r, Tag(4), Len(|ys|), FeedAll(digest, ys, Depth(KTuple(ys))), s);
  }

  lemma Associate<T>(a: seq<T>, b: seq<T>, c: seq<T>)
    ensures (a + b) + c == a + (b + c)
  {
  }

  lemma {:induction false} AllDecode(digest: seq<Token> -> U64, d: nat, xs: seq<Key>, ys: seq<Key>, dx: nat, dy: nat, r: seq<Token>, s: seq<Token>)
    requires |xs| == |ys| && DepthOf(xs) <= d && DepthOf(xs) < dx && DepthOf(ys) < dy
    requires forall i :: 0 <= i < |xs| ==> KeyOk(xs[i]) && KeyOk(ys[i]) && NoSets(xs[i]) && NoSets(ys[i])
    requires FeedAll(digest, xs, dx) + r == FeedAll(digest, ys, dy) + s
    ensures r == s && forall i :: 0 <= i < |xs| ==> Match(UpToSign, xs[i], ys[i])
    decreases d, 2, |xs|
  {
    hide Match, KeyOk, NoSets, Feed;
    if xs == [] {
      assert r == FeedAll(digest, xs, dx) + r && s == FeedAll(digest, ys, dy) + s;
    } else {
      var n := |xs| - 1;
      DepthPrefix(xs, n);
      DepthPrefix(ys, n);
      var f, g := Feed(digest, xs[n]), Feed(digest, ys[n]);
      Associate(FeedAll(digest, xs[..n], dx), f, r);
      Associate(FeedAll(digest, ys[..n], dy), g, s);
      AllDecode(digest, d, xs[..n], ys[..n], dx, dy, f + r, g + s);
      StreamDecodes(digest, d, xs[n], ys[n], r, s);
    }
  }

  /** Without frozensets, keys feed the hasher alike exactly if they are equal up to the sign of zero. */
  lemma FeedsExactly(digest: seq<Token> -> U64, a: Key, b: Key)
    requires KeyOk(a) && KeyOk(b) && NoSets(a) && NoSets(b)
    ensures Feed(digest, a) == Feed(digest, b) <==> Same(a, b)
  {
    hide Match, Feed, Depth, KeyOk, NoSets;
    if Feed(digest, a) == Feed(digest, b) {
      StreamDecodes(digest, Depth(a), a, b, [], []);
    }
    if Same(a, b) {
      NoSetsIsRobust(a);
      KeySymmetry.RobustFeed(digest, Max(Depth(a), Depth(b)), a, b);
    }
  }
}
