/**
 `<` on lists and tuples. The first pair of elements that is not found equal decides, and is
 then ordered itself. While its elements are compared a list stays locked, and the locks are
 not reentrant, so an ordering that comes back to a list it holds never returns.
 */
module ListOrder {
  import opened Prelude
  import opened ValueHeap
  import opened GuardedEq
  import GuardedPrint

  /** How two scalars are ordered; `None` if their types are not comparable. */
  type ScalarOrder = (string, string) -> Option<bool>

  /** How `<` came out, whether elements were compared for equality, and whether the last such comparison overflowed. */
  datatype Walk = Walk(less: Option<bool>, compared: bool, overflow: bool)

  function Min(m: nat, n: nat): nat {
    if m < n then m else n
  }

  // ---------- which lists an equality locks ----------

  /** The lists that comparing `a` with `b` for equality locks, each for a moment. */
  function Locks(h: Heap, a: Value, b: Value, budget: nat): set<Ref>
    requires HeapOk(h) && ValueOk(h, a) && ValueOk(h, b)
    decreases budget, 1, 0
  {
    if budget == 0 then {}
    else
      match (a, b)
      case (Tuple(xs), Tuple(ys)) => if |xs| == |ys| then LocksFrom(h, xs, ys, budget - 1, 0) else {}
      case (List(r), List(s)) =>
        assert ObjectOk(h, h[r]) && ObjectOk(h, h[s]);
        if r == s then {}
        else {r, s} + if |h[r].items| == |h[s].items| then LocksFrom(h, h[r].items, h[s].items, budget - 1, 0) else {}
      case (Dict(r), Dict(s)) =>
        assert ObjectOk(h, h[r]) && ObjectOk(h, h[s]);
        if r == s || |h[r].keys| != |h[s].keys| then {}
        else LocksEntries(h, h[r].keys, h[r].entries, h[s].entries, budget - 1, 0)
      case _ => {}
  }

  function LocksFrom(h: Heap, xs: seq<Value>, ys: seq<Value>, budget: nat, i: nat): set<Ref>
    requires HeapOk(h) && AllOk(h, xs) && AllOk(h, ys) && |xs| == |ys| && i <= |xs|
    decreases budget, 2, |xs| - i
  {
    if i == |xs| then {}
    else
      Locks(h, xs[i], ys[i], budget)
      + if Eq(h, xs[i], ys[i], budget).equal then LocksFrom(h, xs, ys, budget, i + 1) else {}
  }

  function LocksEntries(h: Heap, keys: seq<Key>, a: map<Key, Value>, b: map<Key, Value>, budget: nat, i: nat): set<Ref>
    requires HeapOk(h) && EntriesOk(h, a) && EntriesOk(h, b) && i <= |keys| && forall k :: k in keys ==> k in a
    decreases budget, 2, |keys| - i
  {
    if i == |keys| || keys[i] !in b then {}
    else
      Locks(h, a[keys[i]], b[keys[i]], budget)
      + if Eq(h, a[keys[i]], b[keys[i]], budget).equal then LocksEntries(h, keys, a, b, budget, i + 1) else {}
  }

  /** Comparing `x` with `y` waits for a list that is held. */
  predicate Blocks(h: Heap, held: set<Ref>, x: Value, y: Value)
    requires HeapOk(h) && ValueOk(h, x) && ValueOk(h, y)
  {
    Locks(h, x, y, EQ_RECURSION_LIMIT) * held != {}
  }

  lemma NothingHeld(h: Heap, x: Value, y: Value)
    requires HeapOk(h) && ValueOk(h, x) && ValueOk(h, y)
    ensures !Blocks(h, {}, x, y)
  {
    hide HeapOk, Locks;
  }

  // ---------- the ordering ----------

  /** The first position from `i` on where the elements block or are not found equal, or the end of the shorter sequence. */
  function Differ(h: Heap, held: set<Ref>, xs: seq<Value>, ys: seq<Value>, i: nat): (r: nat)
    requires HeapOk(h) && AllOk(h, xs) && AllOk(h, ys) && i <= Min(|xs|, |ys|)
    ensures i <= r <= Min(|xs|, |ys|)
    decreases |xs| - i
  {
    if i == Min(|xs|, |ys|) then i
    else if !Blocks(h, held, xs[i], ys[i]) && Eq(h, xs[i], ys[i], EQ_RECURSION_LIMIT).equal then Differ(h, held, xs, ys, i + 1)
    else i
  }

  lemma Opens(h: Heap, held: set<Ref>, r: Ref, s: Ref)
    requires r in h && r !in held
    ensures |h.Keys - (held + {r, s})| < |h.Keys - held|
  {
    GuardedPrint.SubsetCount(h.Keys - (held + {r, s}), h.Keys - held);
  }

  /**
   `dispatch_lt` while the lists in `held` are locked: how it came out, or `None` if it never
   returns. It comes to an end on every heap, since each list it enters stays held.
   */
  function Less(order: ScalarOrder, h: Heap, held: set<Ref>, a: Value, b: Value): Option<Walk>
    requires HeapOk(h) && ValueOk(h, a) && ValueOk(h, b)
    decreases |h.Keys - held|, a, 1
  {
    match (a, b)
    case (Scalar(x), Scalar(y)) => Some(Walk(order(x, y), false, false))
    case (Tuple(xs), Tuple(ys)) => LessFrom(order, h, held, xs, ys)
    case (List(r), List(s)) =>
      assert ObjectOk(h, h[r]) && ObjectOk(h, h[s]);
      if r == s then Some(Walk(Some(false), false, false))
      else if r in held || s in held then None
      else
        Opens(h, held, r, s);
        LessFrom(order, h, held + {r, s}, h[r].items, h[s].items)
    case _ => Some(Walk(None, false, false))
  }

  /** `lex_lt`: the first unequal pair decides, else the lengths. */
  function LessFrom(order: ScalarOrder, h: Heap, held: set<Ref>, xs: seq<Value>, ys: seq<Value>): Option<Walk>
    requires HeapOk(h) && AllOk(h, xs) && AllOk(h, ys)
    decreases |h.Keys - held|, xs, 0
  {
    var n, i := Min(|xs|, |ys|), Differ(h, held, xs, ys, 0);
    if i == n then Some(Walk(Some(|xs| < |ys|), n > 0, false))
    else if Blocks(h, held, xs[i], ys[i]) then None
    else Deciding(Less(order, h, held, xs[i], ys[i]), Eq(h, xs[i], ys[i], EQ_RECURSION_LIMIT).overflow)
  }

  /** The pair that decides was itself compared first, and may have overflowed. */
  function Deciding(w: Option<Walk>, overflow: bool): Option<Walk> {
    if w.None? then None
    else Some(Walk(w.value.less, true, if w.value.compared then w.value.overflow else overflow))
  }

  // ---------- exactly when it returns ----------

  /** The sequences whose elements are compared when `a` is ordered against `b`. */
  ghost function Sequences(h: Heap, a: Value, b: Value): (r: Option<(seq<Value>, seq<Value>)>)
    requires HeapOk(h) && ValueOk(h, a) && ValueOk(h, b)
    ensures r.Some? ==> AllOk(h, r.value.0) && AllOk(h, r.value.1)
  {
    match (a, b)
    case (Tuple(xs), Tuple(ys)) => Some((xs, ys))
    case (List(r), List(s)) =>
      assert ObjectOk(h, h[r]) && ObjectOk(h, h[s]);
      if r == s then None else Some((h[r].items, h[s].items))
    case _ => None
  }

  /** The lists that ordering `a` against `b` locks until it is done. */
  ghost function Entered(a: Value, b: Value): set<Ref> {
    if a.List? && b.List? && a.ref != b.ref then {a.ref, b.ref} else {}
  }

  /** The pair that decides, were there no locks. */
  ghost function Next(h: Heap, a: Value, b: Value): (r: Option<(Value, Value)>)
    requires HeapOk(h) && ValueOk(h, a) && ValueOk(h, b)
    ensures r.Some? ==> ValueOk(h, r.value.0) && ValueOk(h, r.value.1)
  {
    var p := Sequences(h, a, b);
    if p.None? then None
    else
      var (xs, ys) := p.value;
      var i := Differ(h, {}, xs, ys, 0);
      if i < Min(|xs|, |ys|) then Some((xs[i], ys[i])) else None
  }

  /** The `k`-th pair on the way down to the one that decides in the end. */
  ghost function Path(h: Heap, a: Value, b: Value, k: nat): (r: Option<(Value, Value)>)
    requires HeapOk(h) && ValueOk(h, a) && ValueOk(h, b)
    ensures r.Some? ==> ValueOk(h, r.value.0) && ValueOk(h, r.value.1)
    decreases k
  {
    if k == 0 then Some((a, b))
    else
      var n := Next(h, a, b);
      if n.None? then None else Path(h, n.value.0, n.value.1, k - 1)
  }

  /** The lists entered by the pairs before the `k`-th. */
  ghost function Opened(h: Heap, a: Value, b: Value, k: nat): set<Ref>
    requires HeapOk(h) && ValueOk(h, a) && ValueOk(h, b)
    decreases k
  {
    if k == 0 then {}
    else
      var n := Next(h, a, b);
      Entered(a, b) + if n.None? then {} else Opened(h, n.value.0, n.value.1, k - 1)
  }

  /** Ordering this pair waits for a list in `held`: to enter it, or to compare elements up to the deciding pair. */
  ghost predicate WaitsAt(h: Heap, held: set<Ref>, a: Value, b: Value)
    requires HeapOk(h) && ValueOk(h, a) && ValueOk(h, b)
  {
    || Entered(a, b) * held != {}
    || var p := Sequences(h, a, b);
       p.Some? && BlocksUpTo(h, held + Entered(a, b), p.value.0, p.value.1, 0)
  }

  ghost predicate BlocksUpTo(h: Heap, held: set<Ref>, xs: seq<Value>, ys: seq<Value>, i: nat)
    requires HeapOk(h) && AllOk(h, xs) && AllOk(h, ys) && i <= Min(|xs|, |ys|)
  {
    exists j :: i <= j < Min(|xs|, |ys|) && j <= Differ(h, {}, xs, ys, i) && Blocks(h, held, xs[j], ys[j])
  }

  /** Somewhere on the way down the ordering waits for a list that it has entered before. */
  ghost predicate Revisits(h: Heap, held: set<Ref>, a: Value, b: Value)
    requires HeapOk(h) && ValueOk(h, a) && ValueOk(h, b)
  {
    exists k: nat :: WaitsIn(h, held, a, b, k)
  }

  /** Until something blocks, locks do not change which pair decides. */
  lemma {:induction false} DifferLocked(h: Heap, held: set<Ref>, xs: seq<Value>, ys: seq<Value>, i: nat)
    requires HeapOk(h) && AllOk(h, xs) && AllOk(h, ys) && i <= Min(|xs|, |ys|)
    ensures var d := Differ(h, held, xs, ys, i);
            if BlocksUpTo(h, held, xs, ys, i) then d < Min(|xs|, |ys|) && Blocks(h, held, xs[d], ys[d])
            else d == Differ(h, {}, xs, ys, i) && (d < Min(|xs|, |ys|) ==> !Blocks(h, held, xs[d], ys[d]))
    decreases |xs| - i
  {
    hide HeapOk, Blocks, Eq;
    if i < Min(|xs|, |ys|) {
      NothingHeld(h, xs[i], ys[i]);
      if !Blocks(h, held, xs[i], ys[i]) && Eq(h, xs[i], ys[i], EQ_RECURSION_LIMIT).equal {
        DifferLocked(h, held, xs, ys, i + 1);
        assert BlocksUpTo(h, held, xs, ys, i) <==> BlocksUpTo(h, held, xs, ys, i + 1) by {
          BlocksLater(h, held, xs, ys, i);
        }
      }
    }
  }

  lemma BlocksLater(h: Heap, held: set<Ref>, xs: seq<Value>, ys: seq<Value>, i: nat)
    requires HeapOk(h) && AllOk(h, xs) && AllOk(h, ys) && i < Min(|xs|, |ys|)
    requires !Blocks(h, held, xs[i], ys[i]) && Differ(h, {}, xs, ys, i) == Differ(h, {}, xs, ys, i + 1)
    ensures BlocksUpTo(h, held, xs, ys, i) <==> BlocksUpTo(h, held, xs, ys, i + 1)
  {
    hide HeapOk, Blocks, Differ;
  }

  lemma EnteredHeld(held: set<Ref>, a: Value, b: Value)
    ensures Entered(a, b) * held != {} <==> a.List? && b.List? && a.ref != b.ref && (a.ref in held || b.ref in held)
  {
    var e := Entered(a, b) * held;
    assert forall q :: q in e <==> q in Entered(a, b) && q in held;
    assert e != {} <==> exists q :: q in e;
  }

  /** One step of the ordering. */
  lemma LessStep(order: ScalarOrder, h: Heap, held: set<Ref>, a: Value, b: Value)
    requires HeapOk(h) && ValueOk(h, a) && ValueOk(h, b)
    ensures var n := Next(h, a, b);
            Less(order, h, held, a, b).None?
            <==> WaitsAt(h, held, a, b) || (n.Some? && Less(order, h, held + Entered(a, b), n.value.0, n.value.1).None?)
  {
    hide Blocks, Eq, Differ, BlocksUpTo;
    var p := Sequences(h, a, b);
    assert a.Tuple? ==> held + Entered(a, b) == held;
    EnteredHeld(held, a, b);
    if p.Some? {
      DifferLocked(h, held + Entered(a, b), p.value.0, p.value.1, 0);
    }
  }

  /** The ordering waits at the `k`-th pair. */
  ghost predicate WaitsIn(h: Heap, held: set<Ref>, a: Value, b: Value, k: nat)
    requires HeapOk(h) && ValueOk(h, a) && ValueOk(h, b)
  {
    var p := Path(h, a, b, k);
    p.Some? && WaitsAt(h, held + Opened(h, a, b, k), p.value.0, p.value.1)
  }

  lemma WaitsFirst(h: Heap, held: set<Ref>, a: Value, b: Value)
    requires HeapOk(h) && ValueOk(h, a) && ValueOk(h, b)
    ensures WaitsIn(h, held, a, b, 0) <==> WaitsAt(h, held, a, b)
  {
    hide HeapOk, WaitsAt;
    assert held + Opened(h, a, b, 0) == held;
  }

  lemma WaitsLater(h: Heap, held: set<Ref>, a: Value, b: Value, k: nat)
    requires HeapOk(h) && ValueOk(h, a) && ValueOk(h, b)
    ensures var n := Next(h, a, b);
            WaitsIn(h, held, a, b, k + 1) <==> n.Some? && WaitsIn(h, held + Entered(a, b), n.value.0, n.value.1, k)
  {
    hide HeapOk, WaitsAt, Next, Entered;
    var n := Next(h, a, b);
    if n.Some? {
      assert held + Opened(h, a, b, k + 1) == held + Entered(a, b) + Opened(h, n.value.0, n.value.1, k);
    }
  }

  lemma RevisitsStep(h: Heap, held: set<Ref>, a: Value, b: Value)
    requires HeapOk(h) && ValueOk(h, a) && ValueOk(h, b)
    ensures var n := Next(h, a, b);
            Revisits(h, held, a, b)
            <==> WaitsAt(h, held, a, b) || (n.Some? && Revisits(h, held + Entered(a, b), n.value.0, n.value.1))
  {
    hide HeapOk, WaitsAt, WaitsIn, Next, Entered;
    WaitsFirst(h, held, a, b);
    var n := Next(h, a, b);
    if Revisits(h, held, a, b) {
      var k: nat :| WaitsIn(h, held, a, b, k);
      if k > 0 {
        WaitsLater(h, held, a, b, k - 1);
      }
    }
    if n.Some? && Revisits(h, held + Entered(a, b), n.value.0, n.value.1) {
      var k: nat :| WaitsIn(h, held + Entered(a, b), n.value.0, n.value.1, k);
      WaitsLater(h, held, a, b, k);
    }
  }

  /** The ordering returns if and only if it never waits, on the way down, for a list that it has entered before. */
  lemma {:induction false} ReturnsExactly(order: ScalarOrder, h: Heap, held: set<Ref>, a: Value, b: Value)
    requires HeapOk(h) && ValueOk(h, a) && ValueOk(h, b)
    ensures Less(order, h, held, a, b).Some? <==> !Revisits(h, held, a, b)
    decreases |h.Keys - held|, a
  {
    LessStep(order, h, held, a, b);
    RevisitsStep(h, held, a, b);
    if !WaitsAt(h, held, a, b) && Next(h, a, b).Some? {
      Descends(h, held, a, b);
      var n := Next(h, a, b).value;
      ReturnsExactly(order, h, held + Entered(a, b), n.0, n.1);
    }
  }

  lemma Descends(h: Heap, held: set<Ref>, a: Value, b: Value)
    requires HeapOk(h) && ValueOk(h, a) && ValueOk(h, b) && !WaitsAt(h, held, a, b) && Next(h, a, b).Some?
    ensures if a.List? then |h.Keys - (held + Entered(a, b))| < |h.Keys - held|
            else held + Entered(a, b) == held && a.Tuple? && Next(h, a, b).value.0 in a.items
  {
    hide Blocks, Differ, BlocksUpTo;
    if a.List? {
      EnteredHeld(held, a, b);
      Opens(h, held, a.ref, b.ref);
    }
  }


  /** `x = [[1]]; y = [x]`: then `y < x` compares `x`, which it holds, and never returns. */
  lemma SharedListBlocks(order: ScalarOrder, text: string)
    ensures var h := map[0 := ListObject([Scalar(text)]), 1 := ListObject([List(0)]), 2 := ListObject([List(1)])];
            HeapOk(h) && Less(order, h, {}, List(2), List(1)).None?
  {
    var h := map[0 := ListObject([Scalar(text)]), 1 := ListObject([List(0)]), 2 := ListObject([List(1)])];
    assert HeapOk(h);
    assert 1 in Locks(h, List(1), List(0), EQ_RECURSION_LIMIT);
    assert Blocks(h, {2, 1}, List(1), List(0));
    assert {} + {2, 1} == {2, 1};
    assert LessFrom(order, h, {2, 1}, [List(1)], [List(0)]).None?;
  }

  /** `r` can be reached from `x` or from `y`. */
  ghost predicate Near(h: Heap, x: set<Ref>, y: set<Ref>, r: Ref)
    requires HeapOk(h)
  {
    GuardedPrint.Reaches(h, x, r) || GuardedPrint.Reaches(h, y, r)
  }

  /** What an equality locks can be reached from its operands. */
  lemma {:induction false} LocksNear(h: Heap, a: Value, b: Value, budget: nat, q: Ref)
    requires HeapOk(h) && ValueOk(h, a) && ValueOk(h, b) && q in Locks(h, a, b, budget)
    ensures Near(h, GuardedPrint.Refs(a), GuardedPrint.Refs(b), q)
    decreases budget, 1, 0
  {
    match (a, b)
    case (Tuple(xs), Tuple(ys)) => LocksFromNear(h, xs, ys, budget - 1, 0, q);
    case (List(r), List(s)) =>
      GuardedPrint.HeldOk(h, r);
      GuardedPrint.HeldOk(h, s);
      GuardedPrint.ReachesItself(h, r);
      GuardedPrint.ReachesItself(h, s);
      if q != r && q != s {
        LocksFromNear(h, h[r].items, h[s].items, budget - 1, 0, q);
        NearInside(h, r, s, q);
      }
    case (Dict(r), Dict(s)) =>
      GuardedPrint.HeldOk(h, r);
      GuardedPrint.HeldOk(h, s);
      LocksEntriesNear(h, r, s, budget - 1, 0, q);
      NearInside(h, r, s, q);
    case _ =>
  }

  /** What is near the contents of two containers is near the containers. */
  lemma NearInside(h: Heap, r: Ref, s: Ref, q: Ref)
    requires HeapOk(h) && r in h && s in h && ObjectOk(h, h[r]) && ObjectOk(h, h[s])
    requires Near(h, GuardedPrint.RefsOf(GuardedPrint.Held(h[r])), GuardedPrint.RefsOf(GuardedPrint.Held(h[s])), q)
    ensures Near(h, {r}, {s}, q)
  {
    hide HeapOk, ValueOk, GuardedPrint.RefsOf, GuardedPrint.Held, GuardedPrint.Reaches;
    var x, y := GuardedPrint.RefsOf(GuardedPrint.Held(h[r])), GuardedPrint.RefsOf(GuardedPrint.Held(h[s]));
    if GuardedPrint.Reaches(h, x, q) {
      GuardedPrint.StepInside(h, r, x, q);
    } else {
      GuardedPrint.StepInside(h, s, y, q);
    }
  }

  lemma NearMore(h: Heap, x: set<Ref>, y: set<Ref>, x': set<Ref>, y': set<Ref>, q: Ref)
    requires HeapOk(h) && Near(h, x, y, q) && x <= x' && y <= y'
    ensures Near(h, x', y', q)
  {
    hide HeapOk, GuardedPrint.Reaches;
    GuardedPrint.ReachesMore(h, x, x');
    GuardedPrint.ReachesMore(h, y, y');
  }

  lemma {:induction false} LocksFromNear(h: Heap, xs: seq<Value>, ys: seq<Value>, budget: nat, i: nat, q: Ref)
    requires HeapOk(h) && AllOk(h, xs) && AllOk(h, ys) && |xs| == |ys| && i <= |xs| && q in LocksFrom(h, xs, ys, budget, i)
    ensures Near(h, GuardedPrint.RefsOf(xs), GuardedPrint.RefsOf(ys), q)
    decreases budget, 2, |xs| - i
  {
    hide HeapOk, Near, Locks, Eq;
    if q in Locks(h, xs[i], ys[i], budget) {
      LocksNear(h, xs[i], ys[i], budget, q);
      NearMore(h, GuardedPrint.Refs(xs[i]), GuardedPrint.Refs(ys[i]), GuardedPrint.RefsOf(xs), GuardedPrint.RefsOf(ys), q);
    } else {
      LocksFromNear(h, xs, ys, budget, i + 1, q);
    }
  }

  lemma {:induction false} LocksEntriesNear(h: Heap, r: Ref, s: Ref, budget: nat, i: nat, q: Ref)
    requires HeapOk(h) && r in h && s in h && ObjectOk(h, h[r]) && ObjectOk(h, h[s]) && h[r].DictObject? && h[s].DictObject?
    requires i <= |h[r].keys| && q in LocksEntries(h, h[r].keys, h[r].entries, h[s].entries, budget, i)
    ensures Near(h, GuardedPrint.RefsOf(GuardedPrint.Held(h[r])), GuardedPrint.RefsOf(GuardedPrint.Held(h[s])), q)
    decreases budget, 2, |h[r].keys| - i
  {
    hide HeapOk, Near, Locks, Eq;
    var k := h[r].keys[i];
    var x, y := h[r].entries[k], h[s].entries[k];
    if q in Locks(h, x, y, budget) {
      LocksNear(h, x, y, budget, q);
      EntryRefs(h, r, k);
      EntryRefs(h, s, k);
      NearMore(h, GuardedPrint.Refs(x), GuardedPrint.Refs(y), GuardedPrint.RefsOf(GuardedPrint.Held(h[r])), GuardedPrint.RefsOf(GuardedPrint.Held(h[s])), q);
    } else {
      LocksEntriesNear(h, r, s, budget, i + 1, q);
    }
  }

  lemma EntryRefs(h: Heap, r: Ref, k: Key)
    requires r in h && h[r].DictObject? && DictOk(h[r].keys, h[r].entries) && k in h[r].entries
    ensures GuardedPrint.Refs(h[r].entries[k]) <= GuardedPrint.RefsOf(GuardedPrint.Held(h[r]))
  {
    var i :| 0 <= i < |h[r].keys| && h[r].keys[i] == k;
    assert GuardedPrint.Held(h[r])[i] == h[r].entries[k];
  }

  /** Nothing held can be reached, nothing reachable lies on a cycle, and the two sides share nothing. */
  ghost predicate Separate(h: Heap, held: set<Ref>, x: set<Ref>, y: set<Ref>)
    requires HeapOk(h)
  {
    && (forall q :: Near(h, x, y, q) ==> q !in held && !GuardedPrint.Cyclic(h, q))
    && (forall q :: GuardedPrint.Reaches(h, x, q) ==> !GuardedPrint.Reaches(h, y, q))
  }

  lemma SeparateParts(h: Heap, held: set<Ref>, xs: seq<Value>, ys: seq<Value>, i: nat)
    requires HeapOk(h) && i < |xs| && i < |ys| && Separate(h, held, GuardedPrint.RefsOf(xs), GuardedPrint.RefsOf(ys))
    ensures Separate(h, held, GuardedPrint.Refs(xs[i]), GuardedPrint.Refs(ys[i]))
  {
    hide HeapOk, GuardedPrint.Reaches, GuardedPrint.Cyclic, GuardedPrint.Refs;
    GuardedPrint.ReachesMore(h, GuardedPrint.Refs(xs[i]), GuardedPrint.RefsOf(xs));
    GuardedPrint.ReachesMore(h, GuardedPrint.Refs(ys[i]), GuardedPrint.RefsOf(ys));
  }

  lemma SeparateInside(h: Heap, held: set<Ref>, r: Ref, s: Ref)
    requires HeapOk(h) && r in h && s in h && ObjectOk(h, h[r]) && ObjectOk(h, h[s]) && Separate(h, held, {r}, {s})
    ensures r !in held && s !in held
    ensures Separate(h, held + {r, s}, GuardedPrint.RefsOf(GuardedPrint.Held(h[r])), GuardedPrint.RefsOf(GuardedPrint.Held(h[s])))
  {
    hide HeapOk, ValueOk, GuardedPrint.RefsOf, GuardedPrint.Held, GuardedPrint.Reaches, GuardedPrint.Cyclic;
    var x, y := GuardedPrint.RefsOf(GuardedPrint.Held(h[r])), GuardedPrint.RefsOf(GuardedPrint.Held(h[s]));
    GuardedPrint.ReachesItself(h, r);
    GuardedPrint.ReachesItself(h, s);
    forall q | GuardedPrint.Reaches(h, x, q) ensures GuardedPrint.Reaches(h, {r}, q) && q != r {
      GuardedPrint.StepInside(h, r, x, q);
    }
    forall q | GuardedPrint.Reaches(h, y, q) ensures GuardedPrint.Reaches(h, {s}, q) && q != s {
      GuardedPrint.StepInside(h, s, y, q);
    }
  }

  lemma SeparateUnblocked(h: Heap, held: set<Ref>, a: Value, b: Value)
    requires HeapOk(h) && ValueOk(h, a) && ValueOk(h, b) && Separate(h, held, GuardedPrint.Refs(a), GuardedPrint.Refs(b))
    ensures !Blocks(h, held, a, b)
  {
    hide HeapOk, Locks, Near;
    forall q | q in Locks(h, a, b, EQ_RECURSION_LIMIT) ensures q !in held {
      LocksNear(h, a, b, EQ_RECURSION_LIMIT, q);
    }
  }

  /** On operands without cycles that share no container, the ordering returns. */
  lemma {:induction false} SeparateReturns(order: ScalarOrder, h: Heap, held: set<Ref>, a: Value, b: Value)
    requires HeapOk(h) && ValueOk(h, a) && ValueOk(h, b) && Separate(h, held, GuardedPrint.Refs(a), GuardedPrint.Refs(b))
    ensures Less(order, h, held, a, b).Some?
    decreases |h.Keys - held|, a, 1
  {
    hide HeapOk, Separate;
    match (a, b)
    case (Tuple(xs), Tuple(ys)) => SeparateFrom(order, h, held, xs, ys);
    case (List(r), List(s)) =>
      if r != s {
        GuardedPrint.HeldOk(h, r);
        GuardedPrint.HeldOk(h, s);
        SeparateInside(h, held, r, s);
        Opens(h, held, r, s);
        SeparateFrom(order, h, held + {r, s}, h[r].items, h[s].items);
      }
    case _ =>
  }

  lemma {:induction false} SeparateFrom(order: ScalarOrder, h: Heap, held: set<Ref>, xs: seq<Value>, ys: seq<Value>)
    requires HeapOk(h) && AllOk(h, xs) && AllOk(h, ys)
    requires Separate(h, held, GuardedPrint.RefsOf(xs), GuardedPrint.RefsOf(ys))
    ensures LessFrom(order, h, held, xs, ys).Some?
    decreases |h.Keys - held|, xs, 0
  {
    hide HeapOk, Separate, Blocks, Less, Eq;
    var i := Differ(h, held, xs, ys, 0);
    if i < Min(|xs|, |ys|) {
      SeparateParts(h, held, xs, ys, i);
      SeparateUnblocked(h, held, xs[i], ys[i]);
      SeparateReturns(order, h, held, xs[i], ys[i]);
    }
  }
}
