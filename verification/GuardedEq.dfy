/**
 Values over a heap of shared, possibly cyclic containers, and structural equality
 on them with a depth limit and a sticky overflow flag.
 */
module ValueHeap {
  type Ref = nat
  type Key = string

  /** A tuple holds its items; a list or dict is a pointer to a shared container. */
  datatype Value =
    | Scalar(text: string)
    | Tuple(items: seq<Value>)
    | List(ref: Ref)
    | Dict(ref: Ref)

  /** A dict keeps its keys in insertion order. */
  datatype Object =
    | ListObject(items: seq<Value>)
    | DictObject(keys: seq<Key>, entries: map<Key, Value>)

  type Heap = map<Ref, Object>

  ghost predicate DictOk(keys: seq<Key>, entries: map<Key, Value>) {
    && (forall k :: k in keys <==> k in entries)
    && (forall i, j :: 0 <= i < j < |keys| ==> keys[i] != keys[j])
  }

  /** Every pointer of `v` leads to a container of its kind. */
  ghost predicate ValueOk(h: Heap, v: Value) {
    match v
    case Scalar(_) => true
    case Tuple(items) => forall i :: 0 <= i < |items| ==> ValueOk(h, items[i])
    case List(r) => r in h && h[r].ListObject?
    case Dict(r) => r in h && h[r].DictObject?
  }

  ghost predicate AllOk(h: Heap, vs: seq<Value>) {
    forall i :: 0 <= i < |vs| ==> ValueOk(h, vs[i])
  }

  ghost predicate ObjectOk(h: Heap, o: Object) {
    match o
    case ListObject(items) => forall i :: 0 <= i < |items| ==> ValueOk(h, items[i])
    case DictObject(keys, entries) => DictOk(keys, entries) && forall k :: k in entries ==> ValueOk(h, entries[k])
  }

  ghost predicate HeapOk(h: Heap) {
    forall r :: r in h ==> ObjectOk(h, h[r])
  }
}

module GuardedEq {
  import opened ValueHeap

  const EQ_RECURSION_LIMIT: nat := 1000

  /** An answer, and whether the depth limit was hit on the way. */
  datatype Outcome = Outcome(equal: bool, overflow: bool)

  // ---------- the comparison, as a function of the depth that is left ----------

  function Eq(h: Heap, a: Value, b: Value, budget: nat): Outcome
    requires HeapOk(h) && ValueOk(h, a) && ValueOk(h, b)
    decreases budget, 1, 0
  {
    if budget == 0 then Outcome(false, true)
    else
      match (a, b)
      case (Scalar(x), Scalar(y)) => Outcome(x == y, false)
      case (Tuple(xs), Tuple(ys)) => EqItems(h, xs, ys, budget - 1)
      case (List(r), List(s)) =>
        if r == s then Outcome(true, false) else EqItems(h, h[r].items, h[s].items, budget - 1)
      case (Dict(r), Dict(s)) =>
        if r == s then Outcome(true, false)
        else
          assert ObjectOk(h, h[r]) && ObjectOk(h, h[s]);
          if |h[r].keys| != |h[s].keys| then Outcome(false, false)
          else EqEntries(h, h[r].keys, h[r].entries, h[s].entries, budget - 1, 0)
      case _ => Outcome(false, false)
  }

  ghost predicate EntriesOk(h: Heap, entries: map<Key, Value>) {
    forall k :: k in entries ==> ValueOk(h, entries[k])
  }

  function EqItems(h: Heap, xs: seq<Value>, ys: seq<Value>, budget: nat): Outcome
    requires HeapOk(h) && AllOk(h, xs) && AllOk(h, ys)
    decreases budget, 3, 0
  {
    if |xs| != |ys| then Outcome(false, false) else EqFrom(h, xs, ys, budget, 0)
  }

  /** Element by element from position `i`, stopping at the first difference. */
  function EqFrom(h: Heap, xs: seq<Value>, ys: seq<Value>, budget: nat, i: nat): Outcome
    requires HeapOk(h) && AllOk(h, xs) && AllOk(h, ys) && |xs| == |ys| && i <= |xs|
    decreases budget, 2, |xs| - i
  {
    if i == |xs| then Outcome(true, false)
    else
      var o := Eq(h, xs[i], ys[i], budget);
      if o.equal then EqFrom(h, xs, ys, budget, i + 1) else o
  }

  /** Key by key in the order of the left dict, stopping at the first difference. */
  function EqEntries(h: Heap, keys: seq<Key>, a: map<Key, Value>, b: map<Key, Value>, budget: nat, i: nat): Outcome
    requires HeapOk(h) && EntriesOk(h, a) && EntriesOk(h, b) && i <= |keys| && forall k :: k in keys ==> k in a
    decreases budget, 2, |keys| - i
  {
    if i == |keys| then Outcome(true, false)
    else if keys[i] !in b then Outcome(false, false)
    else
      var o := Eq(h, a[keys[i]], b[keys[i]], budget);
      if o.equal then EqEntries(h, keys, a, b, budget, i + 1) else o
  }

  // ---------- what the answer means ----------

  /** No difference shows within `n` levels. */
  ghost predicate Alike(h: Heap, a: Value, b: Value, n: nat)
    requires HeapOk(h) && ValueOk(h, a) && ValueOk(h, b)
    decreases n, 0
  {
    n == 0 ||
    match (a, b)
    case (Scalar(x), Scalar(y)) => x == y
    case (Tuple(xs), Tuple(ys)) => AllAlike(h, xs, ys, n - 1)
    case (List(r), List(s)) =>
      assert ObjectOk(h, h[r]) && ObjectOk(h, h[s]);
      AllAlike(h, h[r].items, h[s].items, n - 1)
    case (Dict(r), Dict(s)) =>
      assert ObjectOk(h, h[r]) && ObjectOk(h, h[s]);
      && |h[r].keys| == |h[s].keys|
      && forall k :: k in h[r].keys ==> k in h[s].entries && Alike(h, h[r].entries[k], h[s].entries[k], n - 1)
    case _ => false
  }

  ghost predicate AllAlike(h: Heap, xs: seq<Value>, ys: seq<Value>, n: nat)
    requires HeapOk(h) && AllOk(h, xs) && AllOk(h, ys)
    decreases n, 1
  {
    |xs| == |ys| && forall i :: 0 <= i < |xs| ==> Alike(h, xs[i], ys[i], n)
  }

  /** The two values unfold to the same, possibly infinite, tree. */
  ghost predicate Indistinguishable(h: Heap, a: Value, b: Value)
    requires HeapOk(h) && ValueOk(h, a) && ValueOk(h, b)
  {
    forall n: nat :: Alike(h, a, b, n)
  }

  lemma {:induction false} AlikeSelf(h: Heap, a: Value, n: nat)
    requires HeapOk(h) && ValueOk(h, a)
    ensures Alike(h, a, a, n)
    decreases n
  {
    if n > 0 {
      match a
      case Scalar(_) =>
      case Tuple(items) =>
        forall i | 0 <= i < |items| ensures Alike(h, items[i], items[i], n - 1) { AlikeSelf(h, items[i], n - 1); }
      case List(r) =>
        assert ObjectOk(h, h[r]);
        forall i | 0 <= i < |h[r].items| ensures Alike(h, h[r].items[i], h[r].items[i], n - 1) {
          AlikeSelf(h, h[r].items[i], n - 1);
        }
      case Dict(r) =>
        assert ObjectOk(h, h[r]);
        forall k | k in h[r].keys ensures k in h[r].entries && Alike(h, h[r].entries[k], h[r].entries[k], n - 1) {
          AlikeSelf(h, h[r].entries[k], n - 1);
        }
    }
  }

  // ---------- the overflow flag ----------

  /** Overflow always comes with the answer `false`. */
  lemma {:induction false} OverflowIsFalse(h: Heap, a: Value, b: Value, budget: nat)
    requires HeapOk(h) && ValueOk(h, a) && ValueOk(h, b)
    ensures Eq(h, a, b, budget).overflow ==> !Eq(h, a, b, budget).equal
    decreases budget, 1, 0
  {
    if budget > 0 {
      match (a, b)
      case (Tuple(xs), Tuple(ys)) => if |xs| == |ys| { OverflowFrom(h, xs, ys, budget - 1, 0); }
      case (List(r), List(s)) =>
        assert ObjectOk(h, h[r]) && ObjectOk(h, h[s]);
        if |h[r].items| == |h[s].items| { OverflowFrom(h, h[r].items, h[s].items, budget - 1, 0); }
      case (Dict(r), Dict(s)) =>
        assert ObjectOk(h, h[r]) && ObjectOk(h, h[s]);
        OverflowEntries(h, h[r].keys, h[r].entries, h[s].entries, budget - 1, 0);
      case _ =>
    }
  }

  lemma {:induction false} OverflowFrom(h: Heap, xs: seq<Value>, ys: seq<Value>, budget: nat, i: nat)
    requires HeapOk(h) && AllOk(h, xs) && AllOk(h, ys) && |xs| == |ys| && i <= |xs|
    ensures EqFrom(h, xs, ys, budget, i).overflow ==> !EqFrom(h, xs, ys, budget, i).equal
    decreases budget, 2, |xs| - i
  {
    if i < |xs| {
      OverflowIsFalse(h, xs[i], ys[i], budget);
      OverflowFrom(h, xs, ys, budget, i + 1);
    }
  }

  lemma {:induction false} OverflowEntries(h: Heap, keys: seq<Key>, a: map<Key, Value>, b: map<Key, Value>, budget: nat, i: nat)
    requires HeapOk(h) && EntriesOk(h, a) && EntriesOk(h, b) && i <= |keys| && forall k :: k in keys ==> k in a
    ensures EqEntries(h, keys, a, b, budget, i).overflow ==> !EqEntries(h, keys, a, b, budget, i).equal
    decreases budget, 2, |keys| - i
  {
    if i < |keys| {
      if keys[i] in b { OverflowIsFalse(h, a[keys[i]], b[keys[i]], budget); }
      OverflowEntries(h, keys, a, b, budget, i + 1);
    }
  }

  /** Without overflow the answer is the same under every larger limit. */
  lemma {:induction false} LargerLimit(h: Heap, a: Value, b: Value, budget: nat, more: nat)
    requires HeapOk(h) && ValueOk(h, a) && ValueOk(h, b)
    requires budget <= more && !Eq(h, a, b, budget).overflow
    ensures Eq(h, a, b, more) == Eq(h, a, b, budget)
    decreases budget, 1, 0
  {
    match (a, b)
    case (Tuple(xs), Tuple(ys)) => if |xs| == |ys| { LargerFrom(h, xs, ys, budget - 1, more - 1, 0); }
    case (List(r), List(s)) =>
      assert ObjectOk(h, h[r]) && ObjectOk(h, h[s]);
      if r != s && |h[r].items| == |h[s].items| { LargerFrom(h, h[r].items, h[s].items, budget - 1, more - 1, 0); }
    case (Dict(r), Dict(s)) =>
      assert ObjectOk(h, h[r]) && ObjectOk(h, h[s]);
      if r != s && |h[r].keys| == |h[s].keys| {
        LargerEntries(h, h[r].keys, h[r].entries, h[s].entries, budget - 1, more - 1, 0);
      }
    case _ =>
  }

  lemma {:induction false} LargerFrom(h: Heap, xs: seq<Value>, ys: seq<Value>, budget: nat, more: nat, i: nat)
    requires HeapOk(h) && AllOk(h, xs) && AllOk(h, ys) && |xs| == |ys| && i <= |xs|
    requires budget <= more && !EqFrom(h, xs, ys, budget, i).overflow
    ensures EqFrom(h, xs, ys, more, i) == EqFrom(h, xs, ys, budget, i)
    decreases budget, 2, |xs| - i
  {
    if i < |xs| {
      OverflowIsFalse(h, xs[i], ys[i], budget);
      LargerLimit(h, xs[i], ys[i], budget, more);
      if Eq(h, xs[i], ys[i], budget).equal { LargerFrom(h, xs, ys, budget, more, i + 1); }
    }
  }

  lemma {:induction false} LargerEntries(h: Heap, keys: seq<Key>, a: map<Key, Value>, b: map<Key, Value>, budget: nat, more: nat, i: nat)
    requires HeapOk(h) && EntriesOk(h, a) && EntriesOk(h, b) && i <= |keys| && forall k :: k in keys ==> k in a
    requires budget <= more && !EqEntries(h, keys, a, b, budget, i).overflow
    ensures EqEntries(h, keys, a, b, more, i) == EqEntries(h, keys, a, b, budget, i)
    decreases budget, 2, |keys| - i
  {
    if i < |keys| && keys[i] in b {
      var x, y := a[keys[i]], b[keys[i]];
      OverflowIsFalse(h, x, y, budget);
      LargerLimit(h, x, y, budget, more);
      if Eq(h, x, y, budget).equal { LargerEntries(h, keys, a, b, budget, more, i + 1); }
    }
  }

  // ---------- soundness and completeness ----------

  lemma {:induction false} EqualMeansAlike(h: Heap, a: Value, b: Value, budget: nat, n: nat)
    requires HeapOk(h) && ValueOk(h, a) && ValueOk(h, b) && Eq(h, a, b, budget).equal
    ensures Alike(h, a, b, n)
    decreases budget, 1, 0
  {
    if n > 0 {
      match (a, b)
      case (Tuple(xs), Tuple(ys)) => EqualFrom(h, xs, ys, budget - 1, 0, n - 1);
      case (List(r), List(s)) =>
        assert ObjectOk(h, h[r]) && ObjectOk(h, h[s]);
        if r == s { AlikeSelf(h, a, n); } else { EqualFrom(h, h[r].items, h[s].items, budget - 1, 0, n - 1); }
      case (Dict(r), Dict(s)) =>
        assert ObjectOk(h, h[r]) && ObjectOk(h, h[s]);
        if r == s { AlikeSelf(h, a, n); }
        else { EqualEntries(h, h[r].keys, h[r].entries, h[s].entries, budget - 1, 0, n - 1); }
      case _ =>
    }
  }

  lemma {:induction false} EqualFrom(h: Heap, xs: seq<Value>, ys: seq<Value>, budget: nat, i: nat, n: nat)
    requires HeapOk(h) && AllOk(h, xs) && AllOk(h, ys) && |xs| == |ys| && i <= |xs|
    requires EqFrom(h, xs, ys, budget, i).equal
    ensures forall j :: i <= j < |xs| ==> Alike(h, xs[j], ys[j], n)
    decreases budget, 2, |xs| - i
  {
    if i < |xs| {
      EqualMeansAlike(h, xs[i], ys[i], budget, n);
      EqualFrom(h, xs, ys, budget, i + 1, n);
    }
  }

  lemma {:induction false} EqualEntries(h: Heap, keys: seq<Key>, a: map<Key, Value>, b: map<Key, Value>, budget: nat, i: nat, n: nat)
    requires HeapOk(h) && EntriesOk(h, a) && EntriesOk(h, b) && i <= |keys| && forall k :: k in keys ==> k in a
    requires EqEntries(h, keys, a, b, budget, i).equal
    ensures forall j :: i <= j < |keys| ==> keys[j] in b && Alike(h, a[keys[j]], b[keys[j]], n)
    decreases budget, 2, |keys| - i
  {
    if i < |keys| {
      EqualMeansAlike(h, a[keys[i]], b[keys[i]], budget, n);
      EqualEntries(h, keys, a, b, budget, i + 1, n);
    }
  }

  /** A `false` without overflow points at a difference within the limit. */
  lemma {:induction false} UnequalMeansDifferent(h: Heap, a: Value, b: Value, budget: nat)
    requires HeapOk(h) && ValueOk(h, a) && ValueOk(h, b)
    requires Eq(h, a, b, budget) == Outcome(false, false)
    ensures !Alike(h, a, b, budget)
    decreases budget, 1, 0
  {
    match (a, b)
    case (Tuple(xs), Tuple(ys)) => if |xs| == |ys| { UnequalFrom(h, xs, ys, budget - 1, 0); }
    case (List(r), List(s)) =>
      assert ObjectOk(h, h[r]) && ObjectOk(h, h[s]);
      if |h[r].items| == |h[s].items| { UnequalFrom(h, h[r].items, h[s].items, budget - 1, 0); }
    case (Dict(r), Dict(s)) =>
      assert ObjectOk(h, h[r]) && ObjectOk(h, h[s]);
      if |h[r].keys| == |h[s].keys| { UnequalEntries(h, h[r].keys, h[r].entries, h[s].entries, budget - 1, 0); }
    case _ =>
  }

  lemma {:induction false} UnequalFrom(h: Heap, xs: seq<Value>, ys: seq<Value>, budget: nat, i: nat)
    requires HeapOk(h) && AllOk(h, xs) && AllOk(h, ys) && |xs| == |ys| && i <= |xs|
    requires EqFrom(h, xs, ys, budget, i) == Outcome(false, false)
    ensures !AllAlike(h, xs, ys, budget)
    decreases budget, 2, |xs| - i
  {
    if Eq(h, xs[i], ys[i], budget).equal {
      UnequalFrom(h, xs, ys, budget, i + 1);
    } else {
      UnequalMeansDifferent(h, xs[i], ys[i], budget);
    }
  }

  lemma {:induction false} UnequalEntries(h: Heap, keys: seq<Key>, a: map<Key, Value>, b: map<Key, Value>, budget: nat, i: nat)
    requires HeapOk(h) && EntriesOk(h, a) && EntriesOk(h, b) && i <= |keys| && forall k :: k in keys ==> k in a
    requires EqEntries(h, keys, a, b, budget, i) == Outcome(false, false)
    ensures exists k :: k in keys && !(k in b && Alike(h, a[k], b[k], budget))
    decreases budget, 2, |keys| - i
  {
    if keys[i] in b {
      if Eq(h, a[keys[i]], b[keys[i]], budget).equal {
        UnequalEntries(h, keys, a, b, budget, i + 1);
      } else {
        UnequalMeansDifferent(h, a[keys[i]], b[keys[i]], budget);
        assert keys[i] in keys;
      }
    } else {
      assert keys[i] in keys;
    }
  }

  /** With the flag clear, the answer is exactly indistinguishability, cycles included. */
  lemma EqIsExact(h: Heap, a: Value, b: Value, budget: nat)
    requires HeapOk(h) && ValueOk(h, a) && ValueOk(h, b)
    ensures Eq(h, a, b, budget).equal ==> Indistinguishable(h, a, b)
    ensures !Eq(h, a, b, budget).overflow ==> (Eq(h, a, b, budget).equal <==> Indistinguishable(h, a, b))
  {
    if Eq(h, a, b, budget).equal {
      forall n: nat ensures Alike(h, a, b, n) {
        EqualMeansAlike(h, a, b, budget, n);
      }
    } else if !Eq(h, a, b, budget).overflow {
      UnequalMeansDifferent(h, a, b, budget);
    }
  }

  // ---------- the guarded comparison ----------

  /** Some element of `a` is compared with one of `b`. */
  predicate ComparesElements(h: Heap, a: Value, b: Value)
    requires HeapOk(h) && ValueOk(h, a) && ValueOk(h, b)
  {
    match (a, b)
    case (Tuple(xs), Tuple(ys)) => |xs| == |ys| && xs != []
    case (List(r), List(s)) => r != s && |h[r].items| == |h[s].items| && h[r].items != []
    case (Dict(r), Dict(s)) => r != s && |h[r].keys| == |h[s].keys| && h[r].keys != [] && h[r].keys[0] in h[s].entries
    case _ => false
  }

  /** The flag after the slots have run at `depth`: the last element compared at depth 0 decides alone. */
  predicate FlagAfter(depth: nat, flag: bool, compared: bool, o: Outcome) {
    if depth == 0 && compared then o.overflow else flag || o.overflow
  }

  /** The thread-local depth counter and overflow flag. */
  class EqGuard {
    var depth: nat
    var overflow: bool

    constructor ()
      ensures depth == 0 && !overflow
    {
      depth, overflow := 0, false;
    }

    /** `eq_depth_enter`: the caller holds a guard exactly when the result is true. */
    method Enter() returns (entered: bool)
      modifies this
      ensures entered <==> old(depth) < EQ_RECURSION_LIMIT
      ensures depth == if entered then old(depth) + 1 else old(depth)
      ensures overflow == (!entered || (old(depth) != 0 && old(overflow)))
    {
      if depth == 0 {
        overflow := false;
      }
      if depth >= EQ_RECURSION_LIMIT {
        overflow := true;
        return false;
      }
      depth := depth + 1;
      return true;
    }

    /** Dropping the guard. */
    method Leave()
      modifies this
      ensures depth == (if old(depth) == 0 then 0 else old(depth) - 1) && overflow == old(overflow)
    {
      depth := if depth == 0 then 0 else depth - 1;
    }

    /** `take_eq_overflow`. */
    method Take() returns (was: bool)
      modifies this
      ensures was == old(overflow) && !overflow && depth == old(depth)
    {
      was := overflow;
      overflow := false;
    }

    /** `recurse_eq`: restores the depth, and raises the flag exactly on overflow. */
    method RecurseEq(h: Heap, a: Value, b: Value) returns (r: bool)
      requires HeapOk(h) && ValueOk(h, a) && ValueOk(h, b) && depth <= EQ_RECURSION_LIMIT
      modifies this
      ensures depth == old(depth)
      ensures r == Eq(h, a, b, EQ_RECURSION_LIMIT - old(depth)).equal
      ensures overflow == ((old(depth) != 0 && old(overflow)) || Eq(h, a, b, EQ_RECURSION_LIMIT - old(depth)).overflow)
      decreases EQ_RECURSION_LIMIT - depth, 4, 0
    {
      var entered := Enter();
      if !entered {
        return false;
      }
      r := EqSlot(h, a, b);
      Leave();
    }

    /**
     The equality slots of the types. Their elements go through `RecurseEq`; entered at depth 0,
     each of these starts afresh and overwrites the flag.
     */
    method EqSlot(h: Heap, a: Value, b: Value) returns (r: bool)
      requires HeapOk(h) && ValueOk(h, a) && ValueOk(h, b) && depth <= EQ_RECURSION_LIMIT
      modifies this
      ensures depth == old(depth)
      ensures r == Eq(h, a, b, EQ_RECURSION_LIMIT - old(depth) + 1).equal
      ensures overflow == FlagAfter(old(depth), old(overflow), ComparesElements(h, a, b), Eq(h, a, b, EQ_RECURSION_LIMIT - old(depth) + 1))
      decreases EQ_RECURSION_LIMIT - depth + 1, 3, 0
    {
      match (a, b) {
        case (Scalar(x), Scalar(y)) => r := x == y;
        case (Tuple(xs), Tuple(ys)) => r := ElementwiseEq(h, xs, ys);
        case (List(i), List(j)) =>
          assert ObjectOk(h, h[i]) && ObjectOk(h, h[j]);
          if i == j {
            r := true;
          } else {
            r := ElementwiseEq(h, h[i].items, h[j].items);
          }
        case (Dict(i), Dict(j)) =>
          assert ObjectOk(h, h[i]) && ObjectOk(h, h[j]);
          if i == j {
            r := true;
          } else if |h[i].keys| != |h[j].keys| {
            r := false;
          } else {
            r := EntriesEq(h, h[i].keys, h[i].entries, h[j].entries);
          }
        case _ => r := false;
      }
    }

    method ElementwiseEq(h: Heap, xs: seq<Value>, ys: seq<Value>) returns (r: bool)
      requires HeapOk(h) && AllOk(h, xs) && AllOk(h, ys) && depth <= EQ_RECURSION_LIMIT
      modifies this
      ensures depth == old(depth)
      ensures r == EqItems(h, xs, ys, EQ_RECURSION_LIMIT - old(depth)).equal
      ensures overflow == FlagAfter(old(depth), old(overflow), |xs| == |ys| && xs != [], EqItems(h, xs, ys, EQ_RECURSION_LIMIT - old(depth)))
      decreases EQ_RECURSION_LIMIT - depth + 1, 2, 0
    {
      if |xs| != |ys| {
        return false;
      }
      ghost var budget := EQ_RECURSION_LIMIT - depth;
      for i := 0 to |xs|
        invariant depth == old(depth)
        invariant overflow == (old(overflow) && (depth != 0 || i == 0))
        invariant EqFrom(h, xs, ys, budget, 0) == EqFrom(h, xs, ys, budget, i)
      {
        OverflowIsFalse(h, xs[i], ys[i], budget);
        var same := RecurseEq(h, xs[i], ys[i]);
        if !same {
          return false;
        }
      }
      return true;
    }

    method EntriesEq(h: Heap, keys: seq<Key>, a: map<Key, Value>, b: map<Key, Value>) returns (r: bool)
      requires HeapOk(h) && EntriesOk(h, a) && EntriesOk(h, b) && (forall k :: k in keys ==> k in a)
      requires depth <= EQ_RECURSION_LIMIT
      modifies this
      ensures depth == old(depth)
      ensures r == EqEntries(h, keys, a, b, EQ_RECURSION_LIMIT - old(depth), 0).equal
      ensures overflow == FlagAfter(old(depth), old(overflow), keys != [] && keys[0] in b, EqEntries(h, keys, a, b, EQ_RECURSION_LIMIT - old(depth), 0))
      decreases EQ_RECURSION_LIMIT - depth + 1, 2, 0
    {
      ghost var budget := EQ_RECURSION_LIMIT - depth;
      for i := 0 to |keys|
        invariant depth == old(depth)
        invariant i > 0 ==> keys[0] in b
        invariant overflow == (old(overflow) && (depth != 0 || i == 0))
        invariant EqEntries(h, keys, a, b, budget, 0) == EqEntries(h, keys, a, b, budget, i)
      {
        if keys[i] !in b {
          return false;
        }
        OverflowIsFalse(h, a[keys[i]], b[keys[i]], budget);
        var same := RecurseEq(h, a[keys[i]], b[keys[i]]);
        if !same {
          return false;
        }
      }
      return true;
    }

    /** `sequence_contains` on a list or tuple: a scan that never looks at the flag. */
    method Contains(h: Heap, items: seq<Value>, x: Value) returns (found: bool)
      requires HeapOk(h) && AllOk(h, items) && ValueOk(h, x) && depth == 0
      modifies this
      ensures depth == 0
      ensures found <==> exists i :: 0 <= i < |items| && Eq(h, x, items[i], EQ_RECURSION_LIMIT).equal
      ensures overflow == if items == [] then old(overflow) else !found && Eq(h, x, items[|items| - 1], EQ_RECURSION_LIMIT).overflow
    {
      for i := 0 to |items|
        invariant depth == 0
        invariant forall j :: 0 <= j < i ==> !Eq(h, x, items[j], EQ_RECURSION_LIMIT).equal
        invariant overflow == if i == 0 then old(overflow) else Eq(h, x, items[i - 1], EQ_RECURSION_LIMIT).overflow
      {
        OverflowIsFalse(h, x, items[i], EQ_RECURSION_LIMIT);
        var same := RecurseEq(h, x, items[i]);
        if same {
          return true;
        }
      }
      return false;
    }
  }
}
