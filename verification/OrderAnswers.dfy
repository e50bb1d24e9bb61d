/**
 What `<`, `<=`, `>` and `>=` answer on lists and tuples, in terms of positions and of
 values that unfold alike: the first pair that can be told apart decides, else the lengths.
 And that `<` never holds both ways round.
 */
module OrderAnswers {
  import opened Prelude
  import opened ValueHeap
  import opened GuardedEq
  import opened ListOrder
  import GuardedPrint

  // ---------- the deciding pair ----------

  /** Comparing these elements for equality stays within the depth limit. */
  ghost predicate Shallow(h: Heap, x: Value, y: Value)
    requires HeapOk(h) && ValueOk(h, x) && ValueOk(h, y)
  {
    !Eq(h, x, y, EQ_RECURSION_LIMIT).overflow
  }

  /** The first `n` pairs unfold alike, and are shallow enough for the comparison to see it. */
  ghost predicate SameUpTo(h: Heap, xs: seq<Value>, ys: seq<Value>, n: nat)
    requires HeapOk(h) && AllOk(h, xs) && AllOk(h, ys) && n <= |xs| && n <= |ys|
  {
    forall j :: 0 <= j < n ==> Shallow(h, xs[j], ys[j]) && Indistinguishable(h, xs[j], ys[j])
  }

  lemma {:induction false} DifferIs(h: Heap, xs: seq<Value>, ys: seq<Value>, i: nat, d: nat)
    requires HeapOk(h) && AllOk(h, xs) && AllOk(h, ys) && i <= d <= Min(|xs|, |ys|)
    requires forall j :: i <= j < d ==> Eq(h, xs[j], ys[j], EQ_RECURSION_LIMIT).equal
    requires d < Min(|xs|, |ys|) ==> !Eq(h, xs[d], ys[d], EQ_RECURSION_LIMIT).equal
    ensures Differ(h, {}, xs, ys, i) == d
    decreases d - i
  {
    hide HeapOk, Eq, Blocks;
    if i < d {
      NothingHeld(h, xs[i], ys[i]);
      DifferIs(h, xs, ys, i + 1, d);
    }
  }

  lemma {:induction false} DifferFirst(h: Heap, xs: seq<Value>, ys: seq<Value>, i: nat)
    requires HeapOk(h) && AllOk(h, xs) && AllOk(h, ys) && i <= Min(|xs|, |ys|)
    ensures var d := Differ(h, {}, xs, ys, i);
            && (forall j :: i <= j < d ==> Eq(h, xs[j], ys[j], EQ_RECURSION_LIMIT).equal)
            && (d < Min(|xs|, |ys|) ==> !Eq(h, xs[d], ys[d], EQ_RECURSION_LIMIT).equal)
    decreases |xs| - i
  {
    hide HeapOk, Eq, Blocks;
    if i < Min(|xs|, |ys|) {
      NothingHeld(h, xs[i], ys[i]);
      DifferFirst(h, xs, ys, i + 1);
    }
  }

  /** An ordering of two sequences that returns, without the locks. */
  lemma FromUnlocked(order: ScalarOrder, h: Heap, held: set<Ref>, xs: seq<Value>, ys: seq<Value>)
    requires HeapOk(h) && AllOk(h, xs) && AllOk(h, ys) && LessFrom(order, h, held, xs, ys).Some?
    ensures !BlocksUpTo(h, held, xs, ys, 0)
    ensures var d := Differ(h, {}, xs, ys, 0);
            if d == Min(|xs|, |ys|) then LessFrom(order, h, held, xs, ys) == Some(Walk(Some(|xs| < |ys|), d > 0, false))
            else
              && Less(order, h, held, xs[d], ys[d]).Some?
              && LessFrom(order, h, held, xs, ys) == Deciding(Less(order, h, held, xs[d], ys[d]), Eq(h, xs[d], ys[d], EQ_RECURSION_LIMIT).overflow)
  {
    hide HeapOk, Less, Eq, Blocks, Differ, BlocksUpTo;
    DifferLocked(h, held, xs, ys, 0);
  }

  lemma FewerBlock(h: Heap, held: set<Ref>, fewer: set<Ref>, xs: seq<Value>, ys: seq<Value>)
    requires HeapOk(h) && AllOk(h, xs) && AllOk(h, ys) && fewer <= held && !BlocksUpTo(h, held, xs, ys, 0)
    ensures !BlocksUpTo(h, fewer, xs, ys, 0)
  {
    hide HeapOk, Locks, Differ;
    forall j | 0 <= j < Min(|xs|, |ys|) && j <= Differ(h, {}, xs, ys, 0) ensures !Blocks(h, fewer, xs[j], ys[j]) {
      assert !Blocks(h, held, xs[j], ys[j]);
      assert Locks(h, xs[j], ys[j], EQ_RECURSION_LIMIT) * fewer <= Locks(h, xs[j], ys[j], EQ_RECURSION_LIMIT) * held;
    }
  }

  /** Locks decide whether an ordering returns, not what it says. */
  lemma {:induction false} FewerHeld(order: ScalarOrder, h: Heap, held: set<Ref>, fewer: set<Ref>, a: Value, b: Value)
    requires HeapOk(h) && ValueOk(h, a) && ValueOk(h, b) && fewer <= held && Less(order, h, held, a, b).Some?
    ensures Less(order, h, fewer, a, b) == Less(order, h, held, a, b)
    decreases |h.Keys - held|, a, 1
  {
    hide LessFrom;
    match (a, b)
    case (Tuple(xs), Tuple(ys)) => FewerFrom(order, h, held, fewer, xs, ys);
    case (List(r), List(s)) =>
      if r != s {
        assert ObjectOk(h, h[r]) && ObjectOk(h, h[s]);
        Opens(h, held, r, s);
        FewerFrom(order, h, held + {r, s}, fewer + {r, s}, h[r].items, h[s].items);
      }
    case _ =>
  }

  lemma {:induction false} FewerFrom(order: ScalarOrder, h: Heap, held: set<Ref>, fewer: set<Ref>, xs: seq<Value>, ys: seq<Value>)
    requires HeapOk(h) && AllOk(h, xs) && AllOk(h, ys) && fewer <= held && LessFrom(order, h, held, xs, ys).Some?
    ensures LessFrom(order, h, fewer, xs, ys) == LessFrom(order, h, held, xs, ys)
    decreases |h.Keys - held|, xs, 0
  {
    hide HeapOk, Less, Eq, Blocks, Differ, BlocksUpTo;
    FromUnlocked(order, h, held, xs, ys);
    FewerBlock(h, held, fewer, xs, ys);
    DifferLocked(h, fewer, xs, ys, 0);
    var d := Differ(h, {}, xs, ys, 0);
    if d < Min(|xs|, |ys|) {
      FewerHeld(order, h, held, fewer, xs[d], ys[d]);
    }
  }

  /** `less` is the answer for the first pair that can be told apart, or the lengths decide. */
  ghost predicate Decides(order: ScalarOrder, h: Heap, xs: seq<Value>, ys: seq<Value>, less: Option<bool>)
    requires HeapOk(h) && AllOk(h, xs) && AllOk(h, ys)
  {
    && (|xs| <= |ys| && SameUpTo(h, xs, ys, |xs|) ==> less == Some(|xs| < |ys|))
    && (|ys| <= |xs| && SameUpTo(h, xs, ys, |ys|) ==> less == Some(false))
    && forall i :: 0 <= i < |xs| && i < |ys| && SameUpTo(h, xs, ys, i) && !Indistinguishable(h, xs[i], ys[i]) ==>
         var w := Less(order, h, {}, xs[i], ys[i]); w.Some? && w.value.less == less
  }

  lemma FromDecides(order: ScalarOrder, h: Heap, held: set<Ref>, xs: seq<Value>, ys: seq<Value>)
    requires HeapOk(h) && AllOk(h, xs) && AllOk(h, ys) && LessFrom(order, h, held, xs, ys).Some?
    ensures Decides(order, h, xs, ys, LessFrom(order, h, held, xs, ys).value.less)
  {
    hide HeapOk, Less, LessFrom, Eq, Differ, BlocksUpTo, Indistinguishable;
    FromUnlocked(order, h, held, xs, ys);
    forall i | 0 <= i < |xs| && i < |ys| ensures
      var e := Eq(h, xs[i], ys[i], EQ_RECURSION_LIMIT);
      (Shallow(h, xs[i], ys[i]) && Indistinguishable(h, xs[i], ys[i]) ==> e.equal)
      && (!Indistinguishable(h, xs[i], ys[i]) ==> !e.equal) {
      EqIsExact(h, xs[i], ys[i], EQ_RECURSION_LIMIT);
    }
    var n := Min(|xs|, |ys|);
    if SameUpTo(h, xs, ys, n) {
      DifferIs(h, xs, ys, 0, n);
    }
    forall i | 0 <= i < n && SameUpTo(h, xs, ys, i) && !Indistinguishable(h, xs[i], ys[i])
      ensures Differ(h, {}, xs, ys, 0) == i && Less(order, h, held, xs[i], ys[i]).Some?
              && Less(order, h, {}, xs[i], ys[i]) == Less(order, h, held, xs[i], ys[i]) {
      DifferIs(h, xs, ys, 0, i);
      FewerHeld(order, h, held, {}, xs[i], ys[i]);
    }
  }

  /**
   What `<` says. Scalars are ordered as their types are; a list is not less than itself; values
   of different kinds, and dicts, are a `TypeError`. On two tuples or two lists the first pair that
   can be told apart decides, and where there is none the lengths do.
   */
  ghost predicate Says(order: ScalarOrder, h: Heap, a: Value, b: Value, less: Option<bool>)
    requires HeapOk(h) && ValueOk(h, a) && ValueOk(h, b)
  {
    match (a, b)
    case (Scalar(x), Scalar(y)) => less == order(x, y)
    case (Tuple(xs), Tuple(ys)) => Decides(order, h, xs, ys, less)
    case (List(r), List(s)) =>
      assert ObjectOk(h, h[r]) && ObjectOk(h, h[s]);
      if r == s then less == Some(false) else Decides(order, h, h[r].items, h[s].items, less)
    case _ => less == None
  }

  lemma LessExactly(order: ScalarOrder, h: Heap, held: set<Ref>, a: Value, b: Value)
    requires HeapOk(h) && ValueOk(h, a) && ValueOk(h, b) && Less(order, h, held, a, b).Some?
    ensures Says(order, h, a, b, Less(order, h, held, a, b).value.less)
  {
    hide HeapOk, Decides, LessFrom;
    match (a, b)
    case (Tuple(xs), Tuple(ys)) => FromDecides(order, h, held, xs, ys);
    case (List(r), List(s)) =>
      if r != s {
        GuardedPrint.HeldOk(h, r);
        GuardedPrint.HeldOk(h, s);
        FromDecides(order, h, held + {r, s}, h[r].items, h[s].items);
      }
    case _ =>
  }

  // ---------- the walk on the guard ----------

  /** The result and the flag a walk leaves. */
  ghost predicate Reports(w: Option<Walk>, r: Option<Option<bool>>, before: bool, after: bool) {
    && (r.None? <==> w.None?)
    && (w.Some? ==> r == Some(w.value.less) && after == if w.value.compared then w.value.overflow else before)
  }

  /** `dispatch_lt` on the guard: `None` where the source waits for ever. */
  method DispatchLt(g: EqGuard, order: ScalarOrder, h: Heap, held: set<Ref>, a: Value, b: Value) returns (r: Option<Option<bool>>)
    requires HeapOk(h) && ValueOk(h, a) && ValueOk(h, b) && g.depth == 0
    modifies g
    ensures g.depth == 0
    ensures Reports(Less(order, h, held, a, b), r, old(g.overflow), g.overflow)
    ensures r.Some? ==> Says(order, h, a, b, r.value)
    decreases |h.Keys - held|, a, 1
  {
    if Less(order, h, held, a, b).Some? {
      LessExactly(order, h, held, a, b);
    }
    hide Says;
    match (a, b) {
      case (Scalar(x), Scalar(y)) => r := Some(order(x, y));
      case (Tuple(xs), Tuple(ys)) => r := LexLt(g, order, h, held, xs, ys);
      case (List(i), List(j)) =>
        assert ObjectOk(h, h[i]) && ObjectOk(h, h[j]);
        if i == j {
          r := Some(Some(false));
        } else if i in held || j in held {
          r := None;
        } else {
          Opens(h, held, i, j);
          r := LexLt(g, order, h, held + {i, j}, h[i].items, h[j].items);
        }
      case _ => r := Some(None);
    }
  }

  method LexLt(g: EqGuard, order: ScalarOrder, h: Heap, held: set<Ref>, xs: seq<Value>, ys: seq<Value>) returns (r: Option<Option<bool>>)
    requires HeapOk(h) && AllOk(h, xs) && AllOk(h, ys) && g.depth == 0
    modifies g
    ensures g.depth == 0
    ensures Reports(LessFrom(order, h, held, xs, ys), r, old(g.overflow), g.overflow)
    ensures r.Some? ==> Decides(order, h, xs, ys, r.value)
    decreases |h.Keys - held|, xs, 0
  {
    hide HeapOk, Eq, Less, Locks, Decides;
    if LessFrom(order, h, held, xs, ys).Some? {
      FromDecides(order, h, held, xs, ys);
    }
    for i := 0 to Min(|xs|, |ys|)
      invariant g.depth == 0 && g.overflow == (i == 0 && old(g.overflow))
      invariant Differ(h, held, xs, ys, 0) == Differ(h, held, xs, ys, i)
    {
      if Blocks(h, held, xs[i], ys[i]) {
        return None;
      }
      OverflowIsFalse(h, xs[i], ys[i], EQ_RECURSION_LIMIT);
      var same := g.RecurseEq(h, xs[i], ys[i]);
      if !same {
        r := DispatchLt(g, order, h, held, xs[i], ys[i]);
        return;
      }
    }
    return Some(Some(|xs| < |ys|));
  }

  // ---------- which lists an equality locks ----------

  /** The pair at position `i` is compared: all pairs before it are equal. */
  ghost predicate ComparesAt(h: Heap, xs: seq<Value>, ys: seq<Value>, budget: nat, i: int)
    requires HeapOk(h) && AllOk(h, xs) && AllOk(h, ys)
  {
    |xs| == |ys| && 0 <= i < |xs| && forall j :: 0 <= j < i ==> Eq(h, xs[j], ys[j], budget).equal
  }

  lemma {:induction false} LocksAtPositions(h: Heap, xs: seq<Value>, ys: seq<Value>, budget: nat, i: nat, q: Ref)
    requires HeapOk(h) && AllOk(h, xs) && AllOk(h, ys) && |xs| == |ys| && i <= |xs|
    requires forall j :: 0 <= j < i ==> Eq(h, xs[j], ys[j], budget).equal
    ensures q in LocksFrom(h, xs, ys, budget, i)
       <==> exists k :: i <= k && ComparesAt(h, xs, ys, budget, k) && q in Locks(h, xs[k], ys[k], budget)
    decreases |xs| - i
  {
    hide HeapOk, Eq, Locks;
    if i < |xs| {
      assert ComparesAt(h, xs, ys, budget, i);
      if Eq(h, xs[i], ys[i], budget).equal {
        LocksAtPositions(h, xs, ys, budget, i + 1, q);
      }
    }
  }

  /** Key `i` of the left dict is looked up in the right one: all keys before it are there, with equal values. */
  ghost predicate ComparesKey(h: Heap, keys: seq<Key>, a: map<Key, Value>, b: map<Key, Value>, budget: nat, i: int)
    requires HeapOk(h) && EntriesOk(h, a) && EntriesOk(h, b) && forall k :: k in keys ==> k in a
  {
    0 <= i < |keys| && keys[i] in b && forall j :: 0 <= j < i ==> keys[j] in b && Eq(h, a[keys[j]], b[keys[j]], budget).equal
  }

  lemma {:induction false} LocksAtKeys(h: Heap, keys: seq<Key>, a: map<Key, Value>, b: map<Key, Value>, budget: nat, i: nat, q: Ref)
    requires HeapOk(h) && EntriesOk(h, a) && EntriesOk(h, b) && i <= |keys| && forall k :: k in keys ==> k in a
    requires forall j :: 0 <= j < i ==> keys[j] in b && Eq(h, a[keys[j]], b[keys[j]], budget).equal
    ensures q in LocksEntries(h, keys, a, b, budget, i)
       <==> exists k :: i <= k && ComparesKey(h, keys, a, b, budget, k) && q in Locks(h, a[keys[k]], b[keys[k]], budget)
    decreases |keys| - i
  {
    hide HeapOk, Eq, Locks;
    if i < |keys| && keys[i] in b {
      assert ComparesKey(h, keys, a, b, budget, i);
      if Eq(h, a[keys[i]], b[keys[i]], budget).equal {
        LocksAtKeys(h, keys, a, b, budget, i + 1, q);
      }
    }
  }

  ghost predicate LocksWithin(h: Heap, xs: seq<Value>, ys: seq<Value>, budget: nat, q: Ref)
    requires HeapOk(h) && AllOk(h, xs) && AllOk(h, ys)
  {
    exists k :: ComparesAt(h, xs, ys, budget, k) && q in Locks(h, xs[k], ys[k], budget)
  }

  ghost predicate LocksUnder(h: Heap, keys: seq<Key>, a: map<Key, Value>, b: map<Key, Value>, budget: nat, q: Ref)
    requires HeapOk(h) && EntriesOk(h, a) && EntriesOk(h, b) && forall k :: k in keys ==> k in a
  {
    exists i :: ComparesKey(h, keys, a, b, budget, i) && q in Locks(h, a[keys[i]], b[keys[i]], budget)
  }

  /**
   An equality locks the two lists it compares, if they are different ones, and whatever comparing
   the parts locks, up to and with the first pair of parts that is not equal.
   */
  lemma LocksExactly(h: Heap, a: Value, b: Value, budget: nat, q: Ref)
    requires HeapOk(h) && ValueOk(h, a) && ValueOk(h, b) && budget > 0
    ensures match (a, b)
            case (Tuple(xs), Tuple(ys)) => q in Locks(h, a, b, budget) <==> LocksWithin(h, xs, ys, budget - 1, q)
            case (List(r), List(s)) =>
              assert ObjectOk(h, h[r]) && ObjectOk(h, h[s]);
              q in Locks(h, a, b, budget) <==> r != s && (q == r || q == s || LocksWithin(h, h[r].items, h[s].items, budget - 1, q))
            case (Dict(r), Dict(s)) =>
              assert ObjectOk(h, h[r]) && ObjectOk(h, h[s]);
              q in Locks(h, a, b, budget)
              <==> r != s && |h[r].keys| == |h[s].keys| && LocksUnder(h, h[r].keys, h[r].entries, h[s].entries, budget - 1, q)
            case _ => q !in Locks(h, a, b, budget)
  {
    hide HeapOk, Eq, LocksFrom, LocksEntries, LocksWithin, LocksUnder;
    match (a, b)
    case (Tuple(xs), Tuple(ys)) =>
      PartsLocked(h, xs, ys, budget - 1, q);
    case (List(r), List(s)) =>
      GuardedPrint.HeldOk(h, r);
      GuardedPrint.HeldOk(h, s);
      PartsLocked(h, h[r].items, h[s].items, budget - 1, q);
    case (Dict(r), Dict(s)) =>
      GuardedPrint.HeldOk(h, r);
      GuardedPrint.HeldOk(h, s);
      KeysLocked(h, h[r].keys, h[r].entries, h[s].entries, budget - 1, q);
    case _ =>
  }

  lemma PartsLocked(h: Heap, xs: seq<Value>, ys: seq<Value>, budget: nat, q: Ref)
    requires HeapOk(h) && AllOk(h, xs) && AllOk(h, ys)
    ensures LocksWithin(h, xs, ys, budget, q) <==> |xs| == |ys| && q in LocksFrom(h, xs, ys, budget, 0)
  {
    hide HeapOk, Eq, Locks, LocksFrom;
    if |xs| == |ys| {
      LocksAtPositions(h, xs, ys, budget, 0, q);
    }
  }

  lemma KeysLocked(h: Heap, keys: seq<Key>, a: map<Key, Value>, b: map<Key, Value>, budget: nat, q: Ref)
    requires HeapOk(h) && EntriesOk(h, a) && EntriesOk(h, b) && forall k :: k in keys ==> k in a
    ensures LocksUnder(h, keys, a, b, budget, q) <==> q in LocksEntries(h, keys, a, b, budget, 0)
  {
    hide HeapOk, Eq, Locks, LocksEntries;
    LocksAtKeys(h, keys, a, b, budget, 0, q);
  }

  // ---------- equality is symmetric, whatever the depth ----------

  lemma {:induction false} FromEqual(h: Heap, xs: seq<Value>, ys: seq<Value>, budget: nat, i: nat)
    requires HeapOk(h) && AllOk(h, xs) && AllOk(h, ys) && |xs| == |ys| && i <= |xs|
    ensures EqFrom(h, xs, ys, budget, i).equal <==> forall j :: i <= j < |xs| ==> Eq(h, xs[j], ys[j], budget).equal
    decreases |xs| - i
  {
    hide HeapOk, Eq;
    if i < |xs| {
      FromEqual(h, xs, ys, budget, i + 1);
    }
  }

  lemma {:induction false} EntriesEqual(h: Heap, keys: seq<Key>, a: map<Key, Value>, b: map<Key, Value>, budget: nat, i: nat)
    requires HeapOk(h) && EntriesOk(h, a) && EntriesOk(h, b) && i <= |keys| && forall k :: k in keys ==> k in a
    ensures EqEntries(h, keys, a, b, budget, i).equal
       <==> forall j :: i <= j < |keys| ==> keys[j] in b && Eq(h, a[keys[j]], b[keys[j]], budget).equal
    decreases |keys| - i
  {
    hide HeapOk, Eq;
    if i < |keys| && keys[i] in b {
      EntriesEqual(h, keys, a, b, budget, i + 1);
    }
  }

  lemma {:induction false} KeyCount(keys: seq<Key>, names: set<Key>)
    requires names == set k | k in keys
    requires forall i, j :: 0 <= i < j < |keys| ==> keys[i] != keys[j]
    ensures |names| == |keys|
  {
    if keys != [] {
      var n := |keys| - 1;
      var fewer := set k | k in keys[..n];
      KeyCount(keys[..n], fewer);
      assert keys == keys[..n] + [keys[n]];
      assert names == fewer + {keys[n]};
    }
  }

  lemma EqualSets(a: set<Key>, b: set<Key>)
    requires a <= b && |a| == |b|
    ensures a == b
  {
    assert b == a + (b - a);
    assert |b - a| == 0;
  }

  lemma {:induction false} EqualSymmetric(h: Heap, a: Value, b: Value, budget: nat)
    requires HeapOk(h) && ValueOk(h, a) && ValueOk(h, b)
    ensures Eq(h, a, b, budget).equal ==> Eq(h, b, a, budget).equal
    decreases budget, 1
  {
    if budget > 0 && Eq(h, a, b, budget).equal {
      match (a, b)
      case (Tuple(xs), Tuple(ys)) => ItemsSymmetric(h, xs, ys, budget - 1);
      case (List(r), List(s)) =>
        GuardedPrint.HeldOk(h, r);
        GuardedPrint.HeldOk(h, s);
        if r != s { ItemsSymmetric(h, h[r].items, h[s].items, budget - 1); }
      case (Dict(r), Dict(s)) =>
        GuardedPrint.HeldOk(h, r);
        GuardedPrint.HeldOk(h, s);
        if r != s { EntriesSymmetric(h, h[r].keys, h[s].keys, h[r].entries, h[s].entries, budget - 1); }
      case _ =>
    }
  }

  lemma {:induction false} ItemsSymmetric(h: Heap, xs: seq<Value>, ys: seq<Value>, budget: nat)
    requires HeapOk(h) && AllOk(h, xs) && AllOk(h, ys) && EqItems(h, xs, ys, budget).equal
    ensures EqItems(h, ys, xs, budget).equal
    decreases budget, 2
  {
    hide HeapOk, Eq, EqFrom;
    FromEqual(h, xs, ys, budget, 0);
    FromEqual(h, ys, xs, budget, 0);
    forall j | 0 <= j < |xs| ensures Eq(h, ys[j], xs[j], budget).equal {
      EqualSymmetric(h, xs[j], ys[j], budget);
    }
  }

  lemma {:induction false} EntriesSymmetric(h: Heap, ks: seq<Key>, ls: seq<Key>, a: map<Key, Value>, b: map<Key, Value>, budget: nat)
    requires HeapOk(h) && EntriesOk(h, a) && EntriesOk(h, b) && DictOk(ks, a) && DictOk(ls, b) && |ks| == |ls|
    requires EqEntries(h, ks, a, b, budget, 0).equal
    ensures EqEntries(h, ls, b, a, budget, 0).equal
    decreases budget, 2
  {
    hide HeapOk, Eq, EqEntries;
    EntriesEqual(h, ks, a, b, budget, 0);
    EntriesEqual(h, ls, b, a, budget, 0);
    assert a.Keys == set k | k in ks;
    assert b.Keys == set k | k in ls;
    KeyCount(ks, a.Keys);
    KeyCount(ls, b.Keys);
    EqualSets(a.Keys, b.Keys);
    forall j | 0 <= j < |ls| ensures ls[j] in a && Eq(h, b[ls[j]], a[ls[j]], budget).equal {
      assert ls[j] in b.Keys;
      var i :| 0 <= i < |ks| && ks[i] == ls[j];
      EqualSymmetric(h, a[ls[j]], b[ls[j]], budget);
    }
  }

  lemma DifferSymmetric(h: Heap, xs: seq<Value>, ys: seq<Value>)
    requires HeapOk(h) && AllOk(h, xs) && AllOk(h, ys)
    ensures Differ(h, {}, xs, ys, 0) == Differ(h, {}, ys, xs, 0)
  {
    hide HeapOk, Eq, Blocks, Differ;
    DifferFirst(h, xs, ys, 0);
    var d := Differ(h, {}, xs, ys, 0);
    forall j | 0 <= j < |xs| && j < |ys|
      ensures Eq(h, xs[j], ys[j], EQ_RECURSION_LIMIT).equal <==> Eq(h, ys[j], xs[j], EQ_RECURSION_LIMIT).equal {
      EqualSymmetric(h, xs[j], ys[j], EQ_RECURSION_LIMIT);
      EqualSymmetric(h, ys[j], xs[j], EQ_RECURSION_LIMIT);
    }
    DifferIs(h, ys, xs, 0, d);
  }

  // ---------- never both ways round ----------

  ghost predicate Asymmetric(order: ScalarOrder) {
    forall x, y :: order(x, y) == Some(true) ==> order(y, x) != Some(true)
  }

  /** `a < b` and `b < a` are never both true, at any depth and on any cycles. */
  lemma {:induction false} LessAsymmetric(order: ScalarOrder, h: Heap, held: set<Ref>, a: Value, b: Value)
    requires HeapOk(h) && ValueOk(h, a) && ValueOk(h, b) && Asymmetric(order)
    requires Less(order, h, held, a, b).Some? && Less(order, h, held, b, a).Some?
    ensures !(Less(order, h, held, a, b).value.less == Some(true) && Less(order, h, held, b, a).value.less == Some(true))
    decreases |h.Keys - held|, a, 1
  {
    hide LessFrom;
    match (a, b)
    case (Tuple(xs), Tuple(ys)) => FromAsymmetric(order, h, held, xs, ys);
    case (List(r), List(s)) =>
      if r != s {
        assert ObjectOk(h, h[r]) && ObjectOk(h, h[s]);
        Opens(h, held, r, s);
        assert {r, s} == {s, r};
        FromAsymmetric(order, h, held + {r, s}, h[r].items, h[s].items);
      }
    case _ =>
  }

  lemma {:induction false} FromAsymmetric(order: ScalarOrder, h: Heap, held: set<Ref>, xs: seq<Value>, ys: seq<Value>)
    requires HeapOk(h) && AllOk(h, xs) && AllOk(h, ys) && Asymmetric(order)
    requires LessFrom(order, h, held, xs, ys).Some? && LessFrom(order, h, held, ys, xs).Some?
    ensures !(LessFrom(order, h, held, xs, ys).value.less == Some(true) && LessFrom(order, h, held, ys, xs).value.less == Some(true))
    decreases |h.Keys - held|, xs, 0
  {
    hide HeapOk, Less, LessFrom, Eq, Blocks, Differ, BlocksUpTo, Asymmetric;
    FromUnlocked(order, h, held, xs, ys);
    FromUnlocked(order, h, held, ys, xs);
    DifferSymmetric(h, xs, ys);
    var d := Differ(h, {}, xs, ys, 0);
    if d < Min(|xs|, |ys|) {
      LessAsymmetric(order, h, held, xs[d], ys[d]);
    }
  }

  // ---------- examples ----------

  /** `x < x + z` and not `x + z < x`, for tuples of scalars. */
  lemma PrefixIsLess(order: ScalarOrder, h: Heap, xs: seq<Value>, zs: seq<Value>)
    requires HeapOk(h) && AllOk(h, xs) && AllOk(h, zs) && zs != [] && forall i :: 0 <= i < |xs| ==> xs[i].Scalar?
    ensures var a, b := Tuple(xs), Tuple(xs + zs);
            && Less(order, h, {}, a, b).Some? && Less(order, h, {}, a, b).value.less == Some(true)
            && Less(order, h, {}, b, a).Some? && Less(order, h, {}, b, a).value.less == Some(false)
  {
    var ys := xs + zs;
    forall j | 0 <= j < |xs| ensures ys[j] == xs[j] && Eq(h, xs[j], xs[j], EQ_RECURSION_LIMIT).equal {
    }
    hide HeapOk, Eq, Differ;
    DifferIs(h, xs, ys, 0, |xs|);
    DifferIs(h, ys, xs, 0, |xs|);
  }
}
