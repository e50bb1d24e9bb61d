/**
 What the guard of `GuardedEq` amounts to for a program: exactly how deep a comparison may
 go, and which error a comparison raises after any run of comparisons and membership tests.
 */
module EqualityRuns {
  import opened Prelude
  import opened ValueHeap
  import opened GuardedEq
  import opened ListOrder
  import opened OrderAnswers

  // ---------- the operator ----------

  datatype Comparison = Answer(value: bool) | RecursionError | TypeError

  /**
   `a == b` when the flag is `flag` beforehand. The operands themselves take no level, so their
   elements have the whole limit; with no element to compare, the old flag is what is read.
   */
  function Operator(flag: bool, h: Heap, a: Value, b: Value): Comparison
    requires HeapOk(h) && ValueOk(h, a) && ValueOk(h, b)
  {
    var o := Eq(h, a, b, EQ_RECURSION_LIMIT + 1);
    if (if ComparesElements(h, a, b) then o.overflow else flag) then RecursionError else Answer(o.equal)
  }

  /** Only comparing elements can overflow. */
  lemma NoElementsNoOverflow(h: Heap, a: Value, b: Value, budget: nat)
    requires HeapOk(h) && ValueOk(h, a) && ValueOk(h, b) && budget > 0 && !ComparesElements(h, a, b)
    ensures !Eq(h, a, b, budget).overflow
  {
    match (a, b)
    case (Tuple(xs), Tuple(ys)) => if |xs| == |ys| { assert EqFrom(h, xs, ys, budget - 1, 0) == Outcome(true, false); }
    case (List(r), List(s)) =>
      assert ObjectOk(h, h[r]) && ObjectOk(h, h[s]);
      var xs, ys := h[r].items, h[s].items;
      if r != s && |xs| == |ys| { assert EqFrom(h, xs, ys, budget - 1, 0) == Outcome(true, false); }
    case (Dict(r), Dict(s)) =>
      assert ObjectOk(h, h[r]) && ObjectOk(h, h[s]);
    case _ =>
  }

  /**
   An answer is exact. With the flag clear beforehand, the error is exactly the overflow; a flag
   left set adds an error exactly to the comparisons that compare no element.
   */
  lemma OperatorIsExact(flag: bool, h: Heap, a: Value, b: Value)
    requires HeapOk(h) && ValueOk(h, a) && ValueOk(h, b)
    ensures var r := Operator(flag, h, a, b);
            && !r.TypeError?
            && (r.Answer? ==> (r.value <==> Indistinguishable(h, a, b)))
            && (r.RecursionError? <==>
                Eq(h, a, b, EQ_RECURSION_LIMIT + 1).overflow || (flag && !ComparesElements(h, a, b)))
  {
    hide Eq, Indistinguishable, ComparesElements;
    EqIsExact(h, a, b, EQ_RECURSION_LIMIT + 1);
    if !ComparesElements(h, a, b) {
      NoElementsNoOverflow(h, a, b, EQ_RECURSION_LIMIT + 1);
    }
  }

  /** `compare_builtin` on `==`: the slots run unguarded at depth 0, then the flag is read and cleared. */
  method Compare(g: EqGuard, h: Heap, a: Value, b: Value) returns (r: Comparison)
    requires HeapOk(h) && ValueOk(h, a) && ValueOk(h, b) && g.depth == 0
    modifies g
    ensures g.depth == 0 && !g.overflow
    ensures r == Operator(old(g.overflow), h, a, b)
    ensures r.Answer? ==> (r.value <==> Indistinguishable(h, a, b))
  {
    var equal := g.EqSlot(h, a, b);
    OperatorIsExact(old(g.overflow), h, a, b);
    var raised := g.Take();
    r := if raised then RecursionError else Answer(equal);
  }

  // ---------- where the limit lies ----------

  /** `a` and `b` are `n` nested one-item lists around the same scalar, sharing nothing. */
  ghost predicate Chains(h: Heap, a: Value, b: Value, n: nat)
    requires HeapOk(h) && ValueOk(h, a) && ValueOk(h, b)
    decreases n
  {
    if n == 0 then a.Scalar? && a == b
    else
      && a.List? && b.List? && a.ref != b.ref
      && |h[a.ref].items| == 1 && |h[b.ref].items| == 1
      && (assert ObjectOk(h, h[a.ref]) && ObjectOk(h, h[b.ref]); Chains(h, h[a.ref].items[0], h[b.ref].items[0], n - 1))
  }

  lemma OneElement(h: Heap, xs: seq<Value>, ys: seq<Value>, budget: nat)
    requires HeapOk(h) && AllOk(h, xs) && AllOk(h, ys) && |xs| == |ys| == 1
    ensures EqItems(h, xs, ys, budget).equal == Eq(h, xs[0], ys[0], budget).equal
    ensures EqItems(h, xs, ys, budget).overflow == Eq(h, xs[0], ys[0], budget).overflow
  {
    OverflowIsFalse(h, xs[0], ys[0], budget);
    hide Eq;
    assert EqFrom(h, xs, ys, budget, 1) == Outcome(true, false);
  }

  /** Chains of `n` lists need a budget above `n`, and overflow any other. */
  lemma {:induction false} ChainBudget(h: Heap, a: Value, b: Value, n: nat, budget: nat)
    requires HeapOk(h) && ValueOk(h, a) && ValueOk(h, b) && Chains(h, a, b, n)
    ensures Eq(h, a, b, budget) == if budget > n then Outcome(true, false) else Outcome(false, true)
    decreases n
  {
    if budget > 0 && n > 0 {
      assert ObjectOk(h, h[a.ref]) && ObjectOk(h, h[b.ref]);
      var xs, ys := h[a.ref].items, h[b.ref].items;
      ChainBudget(h, xs[0], ys[0], n - 1, budget - 1);
      OneElement(h, xs, ys, budget - 1);
    }
  }

  /** So `==` answers on separate chains of up to 1000 lists, and raises the error beyond. */
  lemma ChainLimit(flag: bool, h: Heap, a: Value, b: Value, n: nat)
    requires HeapOk(h) && ValueOk(h, a) && ValueOk(h, b) && Chains(h, a, b, n) && n > 0
    ensures Operator(flag, h, a, b) == if n <= 1000 then Answer(true) else RecursionError
  {
    ChainBudget(h, a, b, n, EQ_RECURSION_LIMIT + 1);
  }

  /** Such chains exist: list `i` of the first is reference `i`, of the second `n + i`. */
  ghost function TwoChains(n: nat, text: string): Heap {
    var lists := seq(2 * n, r requires 0 <= r => ListObject([if r + 1 == n || r + 1 == 2 * n then Scalar(text) else List(r + 1)]));
    map r | 0 <= r < |lists| :: lists[r]
  }

  lemma TwoChainsHeap(n: nat, text: string)
    ensures var h := TwoChains(n, text);
            && HeapOk(h)
            && forall r :: r in h <==> 0 <= r < 2 * n
    ensures forall r :: r in TwoChains(n, text) ==>
              TwoChains(n, text)[r] == ListObject([if r + 1 == n || r + 1 == 2 * n then Scalar(text) else List(r + 1)])
  {
  }

  lemma {:induction false} TwoChainsOk(n: nat, text: string, i: nat)
    requires i < n
    ensures HeapOk(TwoChains(n, text)) && i in TwoChains(n, text) && n + i in TwoChains(n, text)
    ensures TwoChains(n, text)[i].ListObject? && TwoChains(n, text)[n + i].ListObject?
    ensures Chains(TwoChains(n, text), List(i), List(n + i), n - i)
    decreases n - i
  {
    TwoChainsHeap(n, text);
    hide HeapOk, ObjectOk, TwoChains;
    var h := TwoChains(n, text);
    if i + 1 < n {
      TwoChainsOk(n, text, i + 1);
    } else {
      assert Chains(h, Scalar(text), Scalar(text), 0);
    }
    assert ObjectOk(h, h[i]) && ObjectOk(h, h[n + i]) by { HeapObject(h, i); HeapObject(h, n + i); }
  }

  lemma HeapObject(h: Heap, r: Ref)
    requires HeapOk(h) && r in h
    ensures ObjectOk(h, h[r])
  {
  }

  // ---------- the flag over whole runs ----------

  datatype Ordering = Lt | Le | Gt | Ge

  /** What a program does with the flag: `==`, an ordering, or a membership test on a list or tuple. */
  datatype Step =
    | Equals(h: Heap, a: Value, b: Value)
    | Orders(h: Heap, a: Value, b: Value, op: Ordering, order: ScalarOrder)
    | In(h: Heap, items: seq<Value>, x: Value)

  /** `>` and `>=` ask for `<` with the operands swapped. */
  function Walked(s: Step): Option<Walk>
    requires s.Orders? && HeapOk(s.h) && ValueOk(s.h, s.a) && ValueOk(s.h, s.b)
  {
    if s.op.Lt? || s.op.Le? then Less(s.order, s.h, {}, s.a, s.b) else Less(s.order, s.h, {}, s.b, s.a)
  }

  /** A step on valid data that returns: an ordering that waits for a lock it holds does not. */
  ghost predicate StepOk(s: Step) {
    match s
    case Equals(h, a, b) => HeapOk(h) && ValueOk(h, a) && ValueOk(h, b)
    case Orders(h, a, b, _, _) => HeapOk(h) && ValueOk(h, a) && ValueOk(h, b) && Walked(s).Some?
    case In(h, items, x) => HeapOk(h) && AllOk(h, items) && ValueOk(h, x)
  }

  /** `<=` and `>=` go on to `==` when the strict order does not hold. */
  predicate AsksEquality(s: Step)
    requires StepOk(s) && s.Orders?
  {
    (s.op.Le? || s.op.Ge?) && Walked(s).value.less == Some(false)
  }

  ghost predicate Found(s: Step)
    requires StepOk(s) && s.In?
  {
    exists i :: 0 <= i < |s.items| && Eq(s.h, s.x, s.items[i], EQ_RECURSION_LIMIT).equal
  }

  /** What the step would say if it did not look at the flag. */
  ghost function Verdict(s: Step): Comparison
    requires StepOk(s)
  {
    match s
    case Equals(h, a, b) => Answer(Eq(h, a, b, EQ_RECURSION_LIMIT + 1).equal)
    case Orders(h, a, b, _, _) =>
      var less := Walked(s).value.less;
      if less.None? then TypeError
      else if AsksEquality(s) then Answer(Eq(h, a, b, EQ_RECURSION_LIMIT + 1).equal)
      else Answer(less.value)
    case In(_, _, _) => Answer(Found(s))
  }

  /** Whether the last comparison of elements in the step overflowed; `None` if there was none. */
  ghost function LastCompared(s: Step): Option<bool>
    requires StepOk(s)
  {
    match s
    case Equals(h, a, b) => if ComparesElements(h, a, b) then Some(Eq(h, a, b, EQ_RECURSION_LIMIT + 1).overflow) else None
    case Orders(h, a, b, _, _) =>
      var w := Walked(s).value;
      if AsksEquality(s) && ComparesElements(h, a, b) then Some(Eq(h, a, b, EQ_RECURSION_LIMIT + 1).overflow)
      else if w.compared then Some(w.overflow)
      else None
    case In(h, items, x) =>
      if items == [] then None else Some(!Found(s) && Eq(h, x, items[|items| - 1], EQ_RECURSION_LIMIT).overflow)
  }

  /** The step returns without reading the flag: a membership test, or an ordering that raises `TypeError`. */
  ghost predicate SkipsFlag(s: Step)
    requires StepOk(s)
  {
    s.In? || Verdict(s).TypeError?
  }

  /** The flag when the step has done its comparisons. */
  ghost function Touched(flag: bool, s: Step): bool
    requires StepOk(s)
  {
    if LastCompared(s).Some? then LastCompared(s).value else flag
  }

  /** The outcome of a step, and the flag it leaves. */
  ghost function Result(flag: bool, s: Step): Comparison
    requires StepOk(s)
  {
    if !SkipsFlag(s) && Touched(flag, s) then RecursionError else Verdict(s)
  }

  ghost function FlagNext(flag: bool, s: Step): bool
    requires StepOk(s)
  {
    SkipsFlag(s) && Touched(flag, s)
  }

  ghost function FlagAfterRun(steps: seq<Step>): bool
    requires forall i :: 0 <= i < |steps| ==> StepOk(steps[i])
  {
    if steps == [] then false
    else
      var n := |steps| - 1;
      FlagNext(FlagAfterRun(steps[..n]), steps[n])
  }

  /** The step neither reads the flag nor compares elements. */
  ghost predicate Silent(s: Step)
    requires StepOk(s)
  {
    SkipsFlag(s) && LastCompared(s).None?
  }

  /** The step ends in an overflow that nothing reads. */
  ghost predicate LeavesFlag(s: Step)
    requires StepOk(s)
  {
    SkipsFlag(s) && LastCompared(s) == Some(true)
  }

  /** The last step that touched the flag left it set. */
  ghost predicate LastTouch(steps: seq<Step>)
    requires forall i :: 0 <= i < |steps| ==> StepOk(steps[i])
  {
    exists i :: 0 <= i < |steps| && LeavesFlag(steps[i]) && forall j :: i < j < |steps| ==> Silent(steps[j])
  }

  lemma FlagCases(flag: bool, s: Step)
    requires StepOk(s)
    ensures FlagNext(flag, s) <==> LeavesFlag(s) || (Silent(s) && flag)
    ensures !(LeavesFlag(s) && Silent(s))
  {
  }

  /** After any run the flag is set exactly if the last step that touched it left it set. */
  lemma {:induction false} FlagSetExactly(steps: seq<Step>)
    requires forall i :: 0 <= i < |steps| ==> StepOk(steps[i])
    ensures FlagAfterRun(steps) <==> LastTouch(steps)
  {
    hide LeavesFlag, Silent, StepOk, FlagNext;
    if steps != [] {
      var n := |steps| - 1;
      FlagSetExactly(steps[..n]);
      FlagCases(FlagAfterRun(steps[..n]), steps[n]);
      if LastTouch(steps[..n]) && Silent(steps[n]) {
        var i :| 0 <= i < n && LeavesFlag(steps[..n][i]) && forall j :: i < j < n ==> Silent(steps[..n][j]);
        forall j | i < j < |steps| ensures Silent(steps[j]) {
          if j < n { assert Silent(steps[..n][j]); }
        }
      }
      if LastTouch(steps) {
        var i :| 0 <= i < |steps| && LeavesFlag(steps[i]) && forall j :: i < j < |steps| ==> Silent(steps[j]);
        if i < n {
          assert LeavesFlag(steps[..n][i]);
        }
      }
    }
  }

  /** A comparison after a run raises a `RecursionError` of its own or, with nothing to compare, an old one. */
  lemma ErrorAfterRun(steps: seq<Step>, s: Step)
    requires StepOk(s) && forall i :: 0 <= i < |steps| ==> StepOk(steps[i])
    ensures Result(FlagAfterRun(steps), s).RecursionError?
       <==> !SkipsFlag(s) && (LastCompared(s) == Some(true) || (LastCompared(s).None? && LastTouch(steps)))
  {
    hide StepOk, LastCompared, LastTouch;
    FlagSetExactly(steps);
  }

  /** On `==` this is the operator. */
  lemma EqualsIsOperator(flag: bool, h: Heap, a: Value, b: Value)
    requires HeapOk(h) && ValueOk(h, a) && ValueOk(h, b)
    ensures Result(flag, Equals(h, a, b)) == Operator(flag, h, a, b)
  {
    hide Eq;
  }

  /**
   What an ordering operator answers, unless it raises `RecursionError`: `<` and `>` what the order
   of the operands says, either way round; `<=` and `>=` also if the operands unfold alike; and
   `TypeError` where there is no order.
   */
  ghost predicate OperatorSays(s: Step, r: Comparison)
    requires s.Orders? && HeapOk(s.h) && ValueOk(s.h, s.a) && ValueOk(s.h, s.b)
  {
    var forward := s.op.Lt? || s.op.Le?;
    exists less ::
      && Says(s.order, s.h, if forward then s.a else s.b, if forward then s.b else s.a, less)
      && match r
         case RecursionError => less.Some?
         case TypeError => less.None?
         case Answer(x) => less.Some? && (x <==> less.value || ((s.op.Le? || s.op.Ge?) && Indistinguishable(s.h, s.a, s.b)))
  }

  lemma OperatorsExactly(flag: bool, s: Step)
    requires StepOk(s) && s.Orders?
    ensures OperatorSays(s, Result(flag, s))
  {
    hide HeapOk, Eq, Less, Says, ComparesElements, Indistinguishable;
    EqIsExact(s.h, s.a, s.b, EQ_RECURSION_LIMIT + 1);
    NoStaleOverflow(s.h, s.a, s.b);
    if s.op.Lt? || s.op.Le? {
      LessExactly(s.order, s.h, {}, s.a, s.b);
    } else {
      LessExactly(s.order, s.h, {}, s.b, s.a);
    }
    assert Walked(s).Some?;
    var less := Walked(s).value.less;
  }

  /** `compare_builtin` on the orderings; a `TypeError` returns before the flag is read. */
  method CompareOrder(g: EqGuard, s: Step) returns (r: Comparison)
    requires StepOk(s) && s.Orders? && g.depth == 0
    modifies g
    ensures g.depth == 0
    ensures r == Result(old(g.overflow), s) && g.overflow == FlagNext(old(g.overflow), s)
    ensures OperatorSays(s, r)
  {
    hide HeapOk, Eq, Less, OperatorSays, Says;
    OperatorsExactly(g.overflow, s);
    var less;
    if s.op.Lt? || s.op.Le? {
      less := DispatchLt(g, s.order, s.h, {}, s.a, s.b);
    } else {
      less := DispatchLt(g, s.order, s.h, {}, s.b, s.a);
    }
    if less.value.None? {
      return TypeError;
    }
    var answer := less.value.value;
    if !answer && (s.op.Le? || s.op.Ge?) {
      NoStaleOverflow(s.h, s.a, s.b);
      answer := g.EqSlot(s.h, s.a, s.b);
    }
    var raised := g.Take();
    r := if raised then RecursionError else Answer(answer);
  }

  lemma NoStaleOverflow(h: Heap, a: Value, b: Value)
    requires HeapOk(h) && ValueOk(h, a) && ValueOk(h, b)
    ensures !ComparesElements(h, a, b) ==> !Eq(h, a, b, EQ_RECURSION_LIMIT + 1).overflow
  {
    hide Eq, ComparesElements;
    if !ComparesElements(h, a, b) {
      NoElementsNoOverflow(h, a, b, EQ_RECURSION_LIMIT + 1);
    }
  }

  /** Running the steps on a fresh guard. */
  method RunSteps(steps: seq<Step>) returns (g: EqGuard, outcomes: seq<Comparison>)
    requires forall i :: 0 <= i < |steps| ==> StepOk(steps[i])
    ensures fresh(g) && g.depth == 0 && g.overflow == FlagAfterRun(steps)
    ensures |outcomes| == |steps|
    ensures forall i :: 0 <= i < |steps| ==> outcomes[i] == Result(FlagAfterRun(steps[..i]), steps[i])
  {
    hide StepOk, Result, FlagNext;
    g := new EqGuard();
    outcomes := [];
    for n := 0 to |steps|
      invariant fresh(g) && g.depth == 0 && g.overflow == FlagAfterRun(steps[..n])
      invariant |outcomes| == n && forall i :: 0 <= i < n ==> outcomes[i] == Result(FlagAfterRun(steps[..i]), steps[i])
    {
      assert StepOk(steps[n]) && steps[..n + 1][..n] == steps[..n];
      var r := RunStep(g, steps[n]);
      outcomes := outcomes + [r];
    }
    assert steps[..|steps|] == steps;
  }

  method RunStep(g: EqGuard, s: Step) returns (r: Comparison)
    requires StepOk(s) && g.depth == 0
    modifies g
    ensures g.depth == 0
    ensures r == Result(old(g.overflow), s) && g.overflow == FlagNext(old(g.overflow), s)
  {
    hide HeapOk, Eq, Less;
    match s {
      case Equals(h, a, b) =>
        EqualsIsOperator(g.overflow, h, a, b);
        r := Compare(g, h, a, b);
      case Orders(_, _, _, _, _) =>
        r := CompareOrder(g, s);
      case In(h, items, x) =>
        var found := g.Contains(h, items, x);
        r := Answer(found);
    }
  }

  /** Two lists that each hold only themselves. */
  ghost function SelfLists(): Heap {
    map[0 := ListObject([List(0)]), 1 := ListObject([List(1)])]
  }

  lemma {:induction false} SelfListsOverflow(budget: nat)
    ensures HeapOk(SelfLists())
    ensures Eq(SelfLists(), List(0), List(1), budget) == Outcome(false, true)
  {
    if budget > 0 {
      SelfListsOverflow(budget - 1);
      OneElement(SelfLists(), [List(0)], [List(1)], budget - 1);
    }
  }

  /** After `c1 in [c2]` on two such lists, `x == x` on scalars raises `RecursionError`. */
  method StaleFlagRaises(text: string) returns (found: bool, r: Comparison)
    ensures !found && r == RecursionError
  {
    var h := map[0 := ListObject([List(0)]), 1 := ListObject([List(1)])];
    SelfListsOverflow(EQ_RECURSION_LIMIT);
    var g := new EqGuard();
    found := g.Contains(h, [List(1)], List(0));
    r := Compare(g, h, Scalar(text), Scalar(text));
  }

  /** So does an ordering of scalars that can be ordered. */
  method StaleFlagRaisesOrder(order: ScalarOrder, x: string, y: string) returns (found: bool, r: Comparison)
    requires order(x, y).Some?
    ensures !found && r == RecursionError
  {
    var h := map[0 := ListObject([List(0)]), 1 := ListObject([List(1)])];
    SelfListsOverflow(EQ_RECURSION_LIMIT);
    var g := new EqGuard();
    found := g.Contains(h, [List(1)], List(0));
    r := CompareOrder(g, Orders(h, Scalar(x), Scalar(y), Lt, order));
  }

  /** Two dicts that each hold themselves. */
  ghost function SelfDicts(k: Key): Heap {
    map[0 := DictObject([k], map[k := Dict(0)]), 1 := DictObject([k], map[k := Dict(1)])]
  }

  lemma {:induction false} SelfDictsOverflow(k: Key, budget: nat)
    ensures HeapOk(SelfDicts(k))
    ensures Eq(SelfDicts(k), Dict(0), Dict(1), budget) == GuardedEq.Outcome(false, true)
  {
    if budget > 0 {
      SelfDictsOverflow(k, budget - 1);
      var h := SelfDicts(k);
      assert EqEntries(h, [k], map[k := Dict(0)], map[k := Dict(1)], budget - 1, 0) == GuardedEq.Outcome(false, true);
    }
  }

  /** `(d1,) < (d2,)` on two such dicts raises `TypeError`, and its overflow stays in the flag. */
  lemma TypeErrorLeavesFlag(k: Key, order: ScalarOrder)
    ensures var s := Orders(SelfDicts(k), Tuple([Dict(0)]), Tuple([Dict(1)]), Lt, order);
            StepOk(s) && Verdict(s) == TypeError && LeavesFlag(s)
  {
    var h := SelfDicts(k);
    SelfDictsOverflow(k, EQ_RECURSION_LIMIT);
    NothingHeld(h, Dict(0), Dict(1));
    assert Differ(h, {}, [Dict(0)], [Dict(1)], 0) == 0;
    assert Less(order, h, {}, Dict(0), Dict(1)) == Some(Walk(None, false, false));
    assert LessFrom(order, h, {}, [Dict(0)], [Dict(1)]) == Some(Walk(None, true, true));
    assert Less(order, h, {}, Tuple([Dict(0)]), Tuple([Dict(1)])) == Some(Walk(None, true, true));
  }
}
