/**
 JSON conversion and `repr` of values over a possibly cyclic heap, each guarded by
 the set of containers being visited.
 */
module GuardedPrint {
  import opened ValueHeap

  // ---------- reachability ----------

  /** The containers `v` points to directly, through tuples. */
  ghost function Refs(v: Value): set<Ref> {
    match v
    case Scalar(_) => {}
    case Tuple(items) => RefsOf(items)
    case List(r) => {r}
    case Dict(r) => {r}
  }

  ghost function RefsOf(vs: seq<Value>): set<Ref> {
    set i, r | 0 <= i < |vs| && r in Refs(vs[i]) :: r
  }

  /** The values a container holds. */
  ghost function Held(o: Object): seq<Value>
    requires o.DictObject? ==> DictOk(o.keys, o.entries)
  {
    match o
    case ListObject(items) => items
    case DictObject(keys, entries) => seq(|keys|, i requires 0 <= i < |keys| => entries[keys[i]])
  }

  ghost predicate Edge(h: Heap, r: Ref, s: Ref)
    requires HeapOk(h)
  {
    r in h && (assert ObjectOk(h, h[r]); s in RefsOf(Held(h[r])))
  }

  /** `s` is `n` pointers away from `r`. */
  ghost predicate ReachIn(h: Heap, r: Ref, s: Ref, n: nat)
    requires HeapOk(h)
    decreases n
  {
    if n == 0 then r == s else exists q :: Edge(h, r, q) && ReachIn(h, q, s, n - 1)
  }

  ghost predicate Cyclic(h: Heap, r: Ref)
    requires HeapOk(h)
  {
    exists n: nat :: n > 0 && ReachIn(h, r, r, n)
  }

  ghost predicate Reaches(h: Heap, vs: set<Ref>, s: Ref)
    requires HeapOk(h)
  {
    exists r, n: nat :: r in vs && ReachIn(h, r, s, n)
  }

  /** Nothing reachable is being visited already, and nothing reachable can reach itself. */
  ghost predicate Clean(h: Heap, vs: set<Ref>, active: set<Ref>)
    requires HeapOk(h)
  {
    forall s :: Reaches(h, vs, s) ==> s !in active && !Cyclic(h, s)
  }

  lemma HeldOk(h: Heap, r: Ref)
    requires HeapOk(h) && r in h
    ensures ObjectOk(h, h[r]) && AllOk(h, Held(h[r]))
  {
    assert ObjectOk(h, h[r]);
  }

  /** Entering container `r`: its contents are clean with `r` active, exactly if `r` is clean. */
  lemma EnterClean(h: Heap, r: Ref, active: set<Ref>)
    requires HeapOk(h) && r in h && r !in active && ObjectOk(h, h[r])
    ensures Clean(h, {r}, active) <==> Clean(h, RefsOf(Held(h[r])), active + {r})
  {
    if Clean(h, {r}, active) {
      CleanInside(h, r, active);
    }
    if Clean(h, RefsOf(Held(h[r])), active + {r}) {
      CleanOutside(h, r, active);
    }
  }

  lemma StepReach(h: Heap, r: Ref, q: Ref, s: Ref, n: nat)
    requires HeapOk(h) && r in h && ObjectOk(h, h[r]) && q in RefsOf(Held(h[r])) && ReachIn(h, q, s, n)
    ensures ReachIn(h, r, s, n + 1) && Reaches(h, {r}, s)
  {
    hide ValueOk, Held, RefsOf;
    assert Edge(h, r, q);
  }

  lemma CleanInside(h: Heap, r: Ref, active: set<Ref>)
    requires HeapOk(h) && r in h && ObjectOk(h, h[r]) && Clean(h, {r}, active)
    ensures Clean(h, RefsOf(Held(h[r])), active + {r})
  {
    var inner := RefsOf(Held(h[r]));
    hide HeapOk, ObjectOk, Held, RefsOf, Reaches, Cyclic;
    forall s | Reaches(h, inner, s) ensures s !in active + {r} && !Cyclic(h, s) {
      StepInside(h, r, inner, s);
    }
  }

  lemma StepInside(h: Heap, r: Ref, inner: set<Ref>, s: Ref)
    requires HeapOk(h) && r in h && ObjectOk(h, h[r]) && inner == RefsOf(Held(h[r])) && Reaches(h, inner, s)
    ensures Reaches(h, {r}, s)
    ensures s == r ==> Cyclic(h, s)
  {
    hide HeapOk, ObjectOk, Held, RefsOf, ReachIn, Edge;
    var q, n: nat :| q in inner && ReachIn(h, q, s, n);
    StepReach(h, r, q, s, n);
  }

  lemma CleanOutside(h: Heap, r: Ref, active: set<Ref>)
    requires HeapOk(h) && r in h && r !in active && ObjectOk(h, h[r]) && Clean(h, RefsOf(Held(h[r])), active + {r})
    ensures Clean(h, {r}, active)
  {
    var inner := RefsOf(Held(h[r]));
    hide ValueOk, ObjectOk, HeapOk, Held, RefsOf;
    forall s | Reaches(h, {r}, s) ensures s !in active && !Cyclic(h, s) {
      var x, n: nat :| x in {r} && ReachIn(h, x, s, n);
      if n == 0 {
        NotCyclic(h, r, inner, active);
      } else {
        var q :| Edge(h, r, q) && ReachIn(h, q, s, n - 1);
        assert Reaches(h, inner, s);
      }
    }
  }

  lemma NotCyclic(h: Heap, r: Ref, inner: set<Ref>, active: set<Ref>)
    requires HeapOk(h) && r in h && ObjectOk(h, h[r]) && inner == RefsOf(Held(h[r])) && Clean(h, inner, active + {r})
    ensures !Cyclic(h, r)
  {
    assert !Reaches(h, inner, r);
    forall n: nat | n > 0 ensures !ReachIn(h, r, r, n) {
      assert forall q :: Edge(h, r, q) ==> q in inner;
    }
  }

  /** A sequence is clean exactly if each of its values is. */
  lemma CleanParts(h: Heap, vs: seq<Value>, active: set<Ref>)
    requires HeapOk(h)
    ensures Clean(h, RefsOf(vs), active) <==> forall i :: 0 <= i < |vs| ==> Clean(h, Refs(vs[i]), active)
  {
    if Clean(h, RefsOf(vs), active) {
      forall i | 0 <= i < |vs| ensures Clean(h, Refs(vs[i]), active) {
        forall s | Reaches(h, Refs(vs[i]), s) ensures s !in active && !Cyclic(h, s) {
          var r, n: nat :| r in Refs(vs[i]) && ReachIn(h, r, s, n);
          assert r in RefsOf(vs);
          assert Reaches(h, RefsOf(vs), s);
        }
      }
    }
    if forall i :: 0 <= i < |vs| ==> Clean(h, Refs(vs[i]), active) {
      forall s | Reaches(h, RefsOf(vs), s) ensures s !in active && !Cyclic(h, s) {
        var r, n: nat :| r in RefsOf(vs) && ReachIn(h, r, s, n);
        var i :| 0 <= i < |vs| && r in Refs(vs[i]);
        assert Clean(h, Refs(vs[i]), active) && Reaches(h, Refs(vs[i]), s);
      }
    }
  }

  lemma ActiveIsNotClean(h: Heap, r: Ref, active: set<Ref>)
    requires HeapOk(h) && r in active
    ensures !Clean(h, {r}, active)
  {
    assert ReachIn(h, r, r, 0);
    assert Reaches(h, {r}, r);
  }

  // ---------- JSON ----------

  datatype Json = JScalar(text: string) | JArray(items: seq<Json>) | JObject(entries: seq<(Key, Json)>)

  datatype Result<T> = Ok(value: T) | Circular

  function Zip(keys: seq<Key>, vs: seq<Json>): seq<(Key, Json)>
    requires |keys| == |vs|
  {
    seq(|keys|, i requires 0 <= i < |keys| => (keys[i], vs[i]))
  }

  ghost function ToJson(h: Heap, v: Value, active: set<Ref>): Result<Json>
    requires HeapOk(h) && ValueOk(h, v)
    decreases |h.Keys - active|, v, 1
  {
    match v
    case Scalar(t) => Ok(JScalar(t))
    case Tuple(items) =>
      var r := ToJsonAll(h, items, active);
      if r.Circular? then Circular else Ok(JArray(r.value))
    case List(r) =>
      if r in active then Circular
      else
        HeldOk(h, r);
        Fewer(h.Keys, active, r);
        var a := ToJsonAll(h, Held(h[r]), active + {r});
        if a.Circular? then Circular else Ok(JArray(a.value))
    case Dict(r) =>
      if r in active then Circular
      else
        HeldOk(h, r);
        Fewer(h.Keys, active, r);
        var a := ToJsonAll(h, Held(h[r]), active + {r});
        if a.Circular? then Circular else Ok(JObject(Zip(h[r].keys, a.value)))
  }

  ghost function ToJsonAll(h: Heap, vs: seq<Value>, active: set<Ref>): (r: Result<seq<Json>>)
    requires HeapOk(h) && AllOk(h, vs)
    ensures r.Ok? ==> |r.value| == |vs|
    decreases |h.Keys - active|, vs, 0
  {
    if vs == [] then Ok([])
    else
      var n := |vs| - 1;
      var first := ToJsonAll(h, vs[..n], active);
      if first.Circular? then Circular
      else
        var last := ToJson(h, vs[n], active);
        if last.Circular? then Circular else Ok(first.value + [last.value])
  }

  lemma Fewer(keys: set<Ref>, active: set<Ref>, r: Ref)
    requires r in keys && r !in active
    ensures |keys - (active + {r})| < |keys - active|
  {
    assert keys - active == (keys - (active + {r})) + {r};
  }

  /** The conversion fails exactly if something reachable is active or lies on a cycle. */
  lemma {:induction false} CircularIff(h: Heap, v: Value, active: set<Ref>)
    requires HeapOk(h) && ValueOk(h, v)
    ensures ToJson(h, v, active).Ok? <==> Clean(h, Refs(v), active)
    decreases |h.Keys - active|, v, 1
  {
    match v
    case Scalar(_) =>
      assert Refs(v) == {};
    case Tuple(items) =>
      CircularAll(h, items, active);
    case List(r) =>
      CircularContainer(h, v, r, active);
    case Dict(r) =>
      CircularContainer(h, v, r, active);
  }

  lemma {:induction false} CircularContainer(h: Heap, v: Value, r: Ref, active: set<Ref>)
    requires HeapOk(h) && ValueOk(h, v) && (v == List(r) || v == Dict(r))
    ensures ToJson(h, v, active).Ok? <==> Clean(h, {r}, active)
    decreases |h.Keys - active|, v, 0
  {
    if r in active {
      ActiveIsNotClean(h, r, active);
    } else {
      HeldOk(h, r);
      Fewer(h.Keys, active, r);
      CircularAll(h, Held(h[r]), active + {r});
      EnterClean(h, r, active);
    }
  }

  lemma {:induction false} CircularAll(h: Heap, vs: seq<Value>, active: set<Ref>)
    requires HeapOk(h) && AllOk(h, vs)
    ensures ToJsonAll(h, vs, active).Ok? <==> Clean(h, RefsOf(vs), active)
    decreases |h.Keys - active|, vs, 0
  {
    CleanParts(h, vs, active);
    if vs != [] {
      var n := |vs| - 1;
      CircularAll(h, vs[..n], active);
      CleanParts(h, vs[..n], active);
      CircularIff(h, vs[n], active);
    }
  }

  /** From a fresh start, the error means that some reachable container can reach itself. */
  lemma JsonCircularExactly(h: Heap, v: Value)
    requires HeapOk(h) && ValueOk(h, v)
    ensures ToJson(h, v, {}).Circular? <==> exists s :: Reaches(h, Refs(v), s) && Cyclic(h, s)
  {
    CircularIff(h, v, {});
  }

  /**
   `j` is the JSON of `v`: a scalar goes with its own text, a list or tuple with an array, item by
   item, a dict with an object whose entry `i` has key `i` and goes with the value stored under it.
   */
  ghost predicate Converts(h: Heap, v: Value, j: Json)
    requires HeapOk(h) && ValueOk(h, v)
    decreases j
  {
    match v
    case Scalar(t) => j == JScalar(t)
    case Tuple(items) =>
      j.JArray? && |j.items| == |items| && forall i :: 0 <= i < |items| ==> Converts(h, items[i], j.items[i])
    case List(r) =>
      HeldOk(h, r);
      j.JArray? && |j.items| == |h[r].items| && forall i :: 0 <= i < |j.items| ==> Converts(h, h[r].items[i], j.items[i])
    case Dict(r) =>
      HeldOk(h, r);
      && j.JObject? && |j.entries| == |h[r].keys|
      && forall i :: 0 <= i < |j.entries| ==>
           j.entries[i].0 == h[r].keys[i] && Converts(h, h[r].entries[h[r].keys[i]], j.entries[i].1)
  }

  lemma ConvertsTuple(h: Heap, items: seq<Value>, js: seq<Json>)
    requires HeapOk(h) && ValueOk(h, Tuple(items)) && |js| == |items| && forall i :: 0 <= i < |js| ==> Converts(h, items[i], js[i])
    ensures Converts(h, Tuple(items), JArray(js))
  {
  }

  lemma ConvertsContainer(h: Heap, r: Ref, js: seq<Json>)
    requires HeapOk(h) && r in h && ObjectOk(h, h[r]) && |js| == |Held(h[r])| && AllOk(h, Held(h[r]))
    requires forall i :: 0 <= i < |js| ==> Converts(h, Held(h[r])[i], js[i])
    ensures h[r].ListObject? ==> Converts(h, List(r), JArray(js))
    ensures h[r].DictObject? ==> Converts(h, Dict(r), JObject(Zip(h[r].keys, js)))
  {
  }

  /** What a successful conversion yields. */
  lemma {:induction false} OkConverts(h: Heap, v: Value, active: set<Ref>)
    requires HeapOk(h) && ValueOk(h, v) && ToJson(h, v, active).Ok?
    ensures Converts(h, v, ToJson(h, v, active).value)
    decreases |h.Keys - active|, v, 1
  {
    if v.Tuple? {
      OkConvertsAll(h, v.items, active);
      ConvertsTuple(h, v.items, ToJsonAll(h, v.items, active).value);
    } else if v.List? || v.Dict? {
      OkContainer(h, v, v.ref, active);
    }
  }

  lemma {:induction false} OkContainer(h: Heap, v: Value, r: Ref, active: set<Ref>)
    requires HeapOk(h) && ValueOk(h, v) && (v == List(r) || v == Dict(r)) && ToJson(h, v, active).Ok?
    ensures Converts(h, v, ToJson(h, v, active).value)
    decreases |h.Keys - active|, v, 0
  {
    hide HeapOk, ToJsonAll, Converts, Held;
    HeldOk(h, r);
    Fewer(h.Keys, active, r);
    OkConvertsAll(h, Held(h[r]), active + {r});
    ConvertsContainer(h, r, ToJsonAll(h, Held(h[r]), active + {r}).value);
  }

  lemma {:induction false} OkConvertsAll(h: Heap, vs: seq<Value>, active: set<Ref>)
    requires HeapOk(h) && AllOk(h, vs) && ToJsonAll(h, vs, active).Ok?
    ensures forall i :: 0 <= i < |vs| ==> Converts(h, vs[i], ToJsonAll(h, vs, active).value[i])
    decreases |h.Keys - active|, vs, 0
  {
    hide HeapOk, Converts, ToJson;
    if vs != [] {
      var n := |vs| - 1;
      OkConvertsAll(h, vs[..n], active);
      OkConverts(h, vs[n], active);
    }
  }

  // ---------- repr ----------

  /** No reachable dict lies on a cycle: dict rendering takes no guard, so on such a dict it would not end. */
  ghost predicate Tame(h: Heap, vs: set<Ref>)
    requires HeapOk(h)
  {
    forall s :: Reaches(h, vs, s) && s in h && h[s].DictObject? ==> !Cyclic(h, s)
  }

  /** The containers that can be reached. */
  ghost function ReachSet(h: Heap, vs: set<Ref>): set<Ref>
    requires HeapOk(h)
  {
    set s | s in h && Reaches(h, vs, s)
  }

  lemma ReachesMore(h: Heap, a: set<Ref>, b: set<Ref>)
    requires HeapOk(h) && a <= b
    ensures forall s :: Reaches(h, a, s) ==> Reaches(h, b, s)
    ensures ReachSet(h, a) <= ReachSet(h, b) && |ReachSet(h, a)| <= |ReachSet(h, b)|
  {
    hide HeapOk, ReachIn;
    forall s | Reaches(h, a, s) ensures Reaches(h, b, s) {
      var r, n: nat :| r in a && ReachIn(h, r, s, n);
    }
    SubsetCount(ReachSet(h, a), ReachSet(h, b));
  }

  lemma {:induction false} SubsetCount(a: set<Ref>, b: set<Ref>)
    requires a <= b
    ensures |a| <= |b| && (a != b ==> |a| < |b|)
  {
    assert b == a + (b - a);
    assert a != b ==> exists x :: x in b - a;
  }

  /** Stepping into a container off every cycle leaves fewer containers in reach. */
  lemma ReachShrinks(h: Heap, r: Ref)
    requires HeapOk(h) && r in h && ObjectOk(h, h[r]) && !Cyclic(h, r)
    ensures |ReachSet(h, RefsOf(Held(h[r])))| < |ReachSet(h, {r})|
  {
    hide HeapOk, ValueOk, Held, RefsOf, Cyclic, Reaches;
    var inner := RefsOf(Held(h[r]));
    var a, b := ReachSet(h, inner), ReachSet(h, {r});
    forall s | Reaches(h, inner, s) ensures Reaches(h, {r}, s) && s != r {
      StepInside(h, r, inner, s);
    }
    ReachesItself(h, r);
    assert r in b && r !in a && a <= b;
    SubsetCount(a, b);
  }

  lemma ReachesItself(h: Heap, r: Ref)
    requires HeapOk(h)
    ensures Reaches(h, {r}, r)
  {
    hide HeapOk;
    assert ReachIn(h, r, r, 0);
  }

  /** What a tame container holds is tame. */
  lemma TameInside(h: Heap, r: Ref)
    requires HeapOk(h) && r in h && ObjectOk(h, h[r]) && Tame(h, {r})
    ensures Tame(h, RefsOf(Held(h[r])))
    ensures h[r].DictObject? ==> !Cyclic(h, r)
  {
    hide HeapOk, ValueOk, Held, RefsOf, Reaches, Cyclic;
    var inner := RefsOf(Held(h[r]));
    forall s | Reaches(h, inner, s) ensures Reaches(h, {r}, s) {
      StepInside(h, r, inner, s);
    }
    ReachesItself(h, r);
  }

  lemma TameParts(h: Heap, vs: seq<Value>, n: nat)
    requires HeapOk(h) && Tame(h, RefsOf(vs)) && n <= |vs|
    ensures Tame(h, RefsOf(vs[..n])) && |ReachSet(h, RefsOf(vs[..n]))| <= |ReachSet(h, RefsOf(vs))|
    ensures n < |vs| ==> Tame(h, Refs(vs[n])) && |ReachSet(h, Refs(vs[n]))| <= |ReachSet(h, RefsOf(vs))|
  {
    hide HeapOk, Reaches, ReachSet, Cyclic, Refs;
    ReachesMore(h, RefsOf(vs[..n]), RefsOf(vs));
    if n < |vs| {
      ReachesMore(h, Refs(vs[n]), RefsOf(vs));
    }
  }

  function Join(parts: seq<string>): string {
    if parts == [] then ""
    else if |parts| == 1 then parts[0]
    else Join(parts[..|parts| - 1]) + ", " + parts[|parts| - 1]
  }

  function Brackets(parts: seq<string>): string {
    "[" + Join(parts) + "]"
  }

  /** A one-item tuple keeps its trailing comma. */
  function Parens(parts: seq<string>): string {
    "(" + Join(parts) + (if |parts| == 1 then ",)" else ")")
  }

  /** A dict's entries, each as `key: value`. */
  function Braces(keys: seq<Key>, parts: seq<string>): string
    requires |keys| == |parts|
  {
    "{" + Join(seq(|keys|, i requires 0 <= i < |keys| => keys[i] + ": " + parts[i])) + "}"
  }

  ghost function Repr(h: Heap, v: Value, active: set<Ref>): string
    requires HeapOk(h) && ValueOk(h, v) && Tame(h, Refs(v))
    decreases |h.Keys - active|, |ReachSet(h, Refs(v))|, v, 1
  {
    match v
    case Scalar(t) => t
    case Tuple(items) => Parens(ReprAll(h, items, active))
    case List(r) =>
      if r in active then "[...]"
      else
        HeldOk(h, r);
        TameInside(h, r);
        Fewer(h.Keys, active, r);
        Brackets(ReprAll(h, Held(h[r]), active + {r}))
    case Dict(r) =>
      HeldOk(h, r);
      TameInside(h, r);
      ReachShrinks(h, r);
      Braces(h[r].keys, ReprAll(h, Held(h[r]), active))
  }

  ghost function ReprAll(h: Heap, vs: seq<Value>, active: set<Ref>): (r: seq<string>)
    requires HeapOk(h) && AllOk(h, vs) && Tame(h, RefsOf(vs))
    ensures |r| == |vs|
    decreases |h.Keys - active|, |ReachSet(h, RefsOf(vs))|, vs, 0
  {
    if vs == [] then []
    else
      var n := |vs| - 1;
      TameParts(h, vs, n);
      ReprAll(h, vs[..n], active) + [Repr(h, vs[n], active)]
  }

  /** The rendering without any guard, for at most `depth` nested containers. */
  ghost function Render(h: Heap, v: Value, depth: nat): Result<string>
    requires HeapOk(h) && ValueOk(h, v)
    decreases depth, v, 1
  {
    match v
    case Scalar(t) => Ok(t)
    case Tuple(items) =>
      var r := RenderAll(h, items, depth);
      if r.Circular? then Circular else Ok(Parens(r.value))
    case List(r) =>
      if depth == 0 then Circular
      else
        HeldOk(h, r);
        var p := RenderAll(h, Held(h[r]), depth - 1);
        if p.Circular? then Circular else Ok(Brackets(p.value))
    case Dict(r) =>
      if depth == 0 then Circular
      else
        HeldOk(h, r);
        var p := RenderAll(h, Held(h[r]), depth - 1);
        if p.Circular? then Circular else Ok(Braces(h[r].keys, p.value))
  }

  ghost function RenderAll(h: Heap, vs: seq<Value>, depth: nat): (r: Result<seq<string>>)
    requires HeapOk(h) && AllOk(h, vs)
    ensures r.Ok? ==> |r.value| == |vs|
    decreases depth, vs, 0
  {
    if vs == [] then Ok([])
    else
      var n := |vs| - 1;
      var first := RenderAll(h, vs[..n], depth);
      var last := Render(h, vs[n], depth);
      if first.Circular? || last.Circular? then Circular else Ok(first.value + [last.value])
  }

  lemma CleanIsTame(h: Heap, vs: set<Ref>, active: set<Ref>)
    requires HeapOk(h) && Clean(h, vs, active)
    ensures Tame(h, vs)
  {
    hide HeapOk, Reaches, Cyclic;
  }

  /** Entering a clean container: what it holds is clean too, and fewer containers are in reach. */
  lemma CleanStep(h: Heap, r: Ref, active: set<Ref>)
    requires HeapOk(h) && r in h && ObjectOk(h, h[r]) && Clean(h, {r}, active)
    ensures r !in active && Clean(h, RefsOf(Held(h[r])), active + {r}) && Clean(h, RefsOf(Held(h[r])), active)
    ensures |ReachSet(h, RefsOf(Held(h[r])))| < |ReachSet(h, {r})|
  {
    hide HeapOk, ObjectOk, Held, RefsOf, Reaches, Cyclic, ReachSet;
    ReachesItself(h, r);
    EnterClean(h, r, active);
    ReachShrinks(h, r);
  }

  /** On acyclic data, shared parts included, the guard changes nothing. */
  lemma {:induction false} ReprIsUnguarded(h: Heap, v: Value, active: set<Ref>, depth: nat)
    requires HeapOk(h) && ValueOk(h, v)
    requires Clean(h, Refs(v), active) && |ReachSet(h, Refs(v))| <= depth
    ensures Tame(h, Refs(v)) && Render(h, v, depth) == Ok(Repr(h, v, active))
    decreases |h.Keys - active|, |ReachSet(h, Refs(v))|, v, 1
  {
    hide Tame, Clean, HeapOk, Held, RefsOf, ReachSet;
    CleanIsTame(h, Refs(v), active);
    match v
    case Scalar(_) =>
    case Tuple(items) =>
      ReprAllIsUnguarded(h, items, active, depth);
    case List(r) =>
      HeldOk(h, r);
      CleanStep(h, r, active);
      Fewer(h.Keys, active, r);
      ReprAllIsUnguarded(h, Held(h[r]), active + {r}, depth - 1);
    case Dict(r) =>
      HeldOk(h, r);
      CleanStep(h, r, active);
      ReprAllIsUnguarded(h, Held(h[r]), active, depth - 1);
  }

  lemma {:induction false} ReprAllIsUnguarded(h: Heap, vs: seq<Value>, active: set<Ref>, depth: nat)
    requires HeapOk(h) && AllOk(h, vs)
    requires Clean(h, RefsOf(vs), active) && |ReachSet(h, RefsOf(vs))| <= depth
    ensures Tame(h, RefsOf(vs)) && RenderAll(h, vs, depth) == Ok(ReprAll(h, vs, active))
    decreases |h.Keys - active|, |ReachSet(h, RefsOf(vs))|, vs, 0
  {
    hide Tame, Clean, HeapOk, ReachSet, RefsOf, Refs;
    CleanIsTame(h, RefsOf(vs), active);
    if vs != [] {
      var n := |vs| - 1;
      TameParts(h, vs, n);
      CleanParts(h, vs, active);
      CleanParts(h, vs[..n], active);
      ReprAllIsUnguarded(h, vs[..n], active, depth);
      ReprIsUnguarded(h, vs[n], active, depth);
    }
  }

  lemma {:induction false} ReachTransitive(h: Heap, a: Ref, b: Ref, c: Ref, n: nat, m: nat)
    requires HeapOk(h) && ReachIn(h, a, b, n) && ReachIn(h, b, c, m)
    ensures ReachIn(h, a, c, n + m)
    decreases n
  {
    hide HeapOk, Edge;
    if n > 0 {
      var q :| Edge(h, a, q) && ReachIn(h, q, b, n - 1);
      ReachTransitive(h, q, b, c, n - 1, m);
    }
  }

  /** Around a cycle there are walks of any length. */
  lemma {:induction false} LongWalk(h: Heap, s: Ref, m: nat, d: nat) returns (len: nat)
    requires HeapOk(h) && m > 0 && ReachIn(h, s, s, m)
    ensures len >= d && ReachIn(h, s, s, len)
  {
    hide HeapOk, ReachIn;
    len := m;
    if d > 0 {
      var rest := LongWalk(h, s, m, d - 1);
      ReachTransitive(h, s, s, s, m, rest);
      len := m + rest;
    }
  }

  lemma {:induction false} RenderEach(h: Heap, vs: seq<Value>, depth: nat, i: nat)
    requires HeapOk(h) && AllOk(h, vs) && RenderAll(h, vs, depth).Ok? && i < |vs|
    ensures Render(h, vs[i], depth).Ok?
    decreases |vs|
  {
    hide HeapOk, Render;
    var n := |vs| - 1;
    if i < n {
      RenderEach(h, vs[..n], depth, i);
    }
  }

  /** Behind each pointer of a rendered container is a value rendered one level deeper. */
  lemma RenderInside(h: Heap, v: Value, depth: nat, q: Ref) returns (x: Value)
    requires HeapOk(h) && ValueOk(h, v) && (v.List? || v.Dict?) && Render(h, v, depth).Ok? && Edge(h, v.ref, q)
    ensures depth > 0 && ValueOk(h, x) && q in Refs(x) && Render(h, x, depth - 1).Ok?
  {
    hide HeapOk, RenderAll, Refs, Held, ObjectOk;
    HeldOk(h, v.ref);
    var items := Held(h[v.ref]);
    var i :| 0 <= i < |items| && q in Refs(items[i]);
    x := items[i];
    RenderEach(h, items, depth - 1, i);
  }

  lemma RenderInTuple(h: Heap, items: seq<Value>, depth: nat, r: Ref) returns (i: nat)
    requires HeapOk(h) && ValueOk(h, Tuple(items)) && Render(h, Tuple(items), depth).Ok?
    requires r in Refs(Tuple(items))
    ensures i < |items| && ValueOk(h, items[i]) && r in Refs(items[i]) && Render(h, items[i], depth).Ok?
  {
    hide HeapOk, RenderAll;
    i :| 0 <= i < |items| && r in Refs(items[i]);
    RenderEach(h, items, depth, i);
  }

  lemma RenderNeedsDepth(h: Heap, v: Value, depth: nat)
    requires HeapOk(h) && ValueOk(h, v) && Render(h, v, depth).Ok?
    ensures v.List? || v.Dict? ==> depth > 0
  {
    hide HeapOk, RenderAll;
  }

  lemma FirstEdge(h: Heap, r: Ref, s: Ref, n: nat) returns (q: Ref)
    requires HeapOk(h) && n > 0 && ReachIn(h, r, s, n)
    ensures Edge(h, r, q) && ReachIn(h, q, s, n - 1)
  {
    hide HeapOk, Edge;
    q :| Edge(h, r, q) && ReachIn(h, q, s, n - 1);
  }

  /** A rendering within `depth` bounds every walk from the value. */
  lemma {:induction false} RenderBound(h: Heap, v: Value, depth: nat, r: Ref, s: Ref, n: nat)
    requires HeapOk(h) && ValueOk(h, v) && Render(h, v, depth).Ok?
    requires r in Refs(v) && ReachIn(h, r, s, n)
    ensures n < depth
    decreases depth, v
  {
    hide HeapOk, Render, ValueOk, ReachIn, Edge, RefsOf;
    RenderNeedsDepth(h, v, depth);
    match v
    case Scalar(_) =>
    case Tuple(items) =>
      var i := RenderInTuple(h, items, depth, r);
      RenderBound(h, items[i], depth, r, s, n);
    case _ =>
      if n > 0 {
        var q := FirstEdge(h, r, s, n);
        var x := RenderInside(h, v, depth, q);
        RenderBound(h, x, depth - 1, q, s, n - 1);
      }
  }

  /** The unguarded rendering ends at some depth exactly if nothing reachable lies on a cycle. */
  lemma RenderEndsExactly(h: Heap, v: Value)
    requires HeapOk(h) && ValueOk(h, v)
    ensures (exists depth: nat :: Render(h, v, depth).Ok?) <==> forall s :: Reaches(h, Refs(v), s) ==> !Cyclic(h, s)
  {
    hide HeapOk, ValueOk, Reaches, Refs, Render, Cyclic;
    if forall s :: Reaches(h, Refs(v), s) ==> !Cyclic(h, s) {
      ReprOnAcyclic(h, v, |h.Keys|);
    }
    forall depth: nat, s | Render(h, v, depth).Ok? && Reaches(h, Refs(v), s) ensures !Cyclic(h, s) {
      NoCycle(h, v, depth, s);
    }
  }

  lemma NoCycle(h: Heap, v: Value, depth: nat, s: Ref)
    requires HeapOk(h) && ValueOk(h, v) && Render(h, v, depth).Ok? && Reaches(h, Refs(v), s)
    ensures !Cyclic(h, s)
  {
    hide HeapOk, Render, ReachIn, Refs;
    if Cyclic(h, s) {
      var r, n: nat :| r in Refs(v) && ReachIn(h, r, s, n);
      var m: nat :| m > 0 && ReachIn(h, s, s, m);
      var len := LongWalk(h, s, m, depth);
      ReachTransitive(h, r, s, s, n, len);
      RenderBound(h, v, depth, r, s, n + len);
      assert false;
    }
  }

  /** Without a cycle, `repr` is the unguarded rendering, at every sufficient depth. */
  lemma ReprOnAcyclic(h: Heap, v: Value, depth: nat)
    requires HeapOk(h) && ValueOk(h, v) && |h.Keys| <= depth
    requires forall s :: Reaches(h, Refs(v), s) ==> !Cyclic(h, s)
    ensures Tame(h, Refs(v)) && Render(h, v, depth) == Ok(Repr(h, v, {}))
  {
    hide HeapOk, ValueOk, Reaches, Refs, Render, Cyclic, Repr;
    assert ReachSet(h, Refs(v)) <= h.Keys;
    SubsetCount(ReachSet(h, Refs(v)), h.Keys);
    ReprIsUnguarded(h, v, {}, depth);
  }

  // ---------- the guarded traversals ----------

  /** A thread-local set of the containers being visited. */
  class ActiveSet {
    var active: set<Ref>

    constructor ()
      ensures active == {}
    {
      active := {};
    }

    /** The caller holds a guard exactly when the result is true. */
    method Enter(r: Ref) returns (newly: bool)
      modifies this
      ensures newly <==> r !in old(active)
      ensures active == old(active) + {r}
    {
      newly := r !in active;
      active := active + {r};
    }

    method Leave(r: Ref)
      modifies this
      ensures active == old(active) - {r}
    {
      active := active - {r};
    }

    /** `to_json`: always ends, and leaves the active set as it found it. */
    method ConvertToJson(h: Heap, v: Value) returns (j: Result<Json>)
      requires HeapOk(h) && ValueOk(h, v)
      modifies this
      ensures j == ToJson(h, v, old(active))
      ensures j.Ok? ==> Converts(h, v, j.value)
      ensures active == old(active)
      decreases |h.Keys - active|, v, 1
    {
      hide Converts;
      if ToJson(h, v, active).Ok? {
        OkConverts(h, v, active);
      }
      match v
      case Scalar(t) => j := Ok(JScalar(t));
      case Tuple(items) =>
        var a := ConvertAll(h, items);
        j := if a.Circular? then Circular else Ok(JArray(a.value));
      case List(r) =>
        var newly := Enter(r);
        if !newly {
          return Circular;
        }
        HeldOk(h, r);
        Fewer(h.Keys, old(active), r);
        var a := ConvertAll(h, h[r].items);
        Leave(r);
        j := if a.Circular? then Circular else Ok(JArray(a.value));
      case Dict(r) =>
        var newly := Enter(r);
        if !newly {
          return Circular;
        }
        HeldOk(h, r);
        Fewer(h.Keys, old(active), r);
        var values := seq(|h[r].keys|, i requires 0 <= i < |h[r].keys| => h[r].entries[h[r].keys[i]]);
        var a := ConvertAll(h, values);
        Leave(r);
        j := if a.Circular? then Circular else Ok(JObject(Zip(h[r].keys, a.value)));
    }

    method ConvertAll(h: Heap, vs: seq<Value>) returns (a: Result<seq<Json>>)
      requires HeapOk(h) && AllOk(h, vs)
      modifies this
      ensures a == ToJsonAll(h, vs, old(active))
      ensures active == old(active)
      decreases |h.Keys - active|, vs, 0
    {
      JsonNone(h, old(active));
      hide ToJson, ToJsonAll, HeapOk, ValueOk;
      var done := [];
      assert vs[..0] == [];
      for i := 0 to |vs|
        invariant active == old(active)
        invariant ToJsonAll(h, vs[..i], old(active)) == Ok(done)
      {
        JsonNext(h, vs, i, old(active));
        var j := ConvertToJson(h, vs[i]);
        if j.Circular? {
          CircularStays(h, vs, i + 1, old(active));
          return Circular;
        }
        done := done + [j.value];
      }
      assert vs[..|vs|] == vs;
      return Ok(done);
    }

    /** List, tuple and dict `Display`; only lists enter the active set. */
    method Display(h: Heap, v: Value) returns (s: string)
      requires HeapOk(h) && ValueOk(h, v) && Tame(h, Refs(v))
      modifies this
      ensures s == Repr(h, v, old(active))
      ensures active == old(active)
      decreases |h.Keys - active|, |ReachSet(h, Refs(v))|, v, 1
    {
      hide Tame, RefsOf, ReachSet, ReprAll, HeapOk;
      match v
      case Scalar(t) => s := t;
      case Tuple(items) =>
        var parts := DisplayAll(h, items);
        s := Parens(parts);
      case List(r) =>
        var newly := Enter(r);
        if !newly {
          assert active == old(active);
          return "[...]";
        }
        HeldOk(h, r);
        TameInside(h, r);
        Fewer(h.Keys, old(active), r);
        var parts := DisplayAll(h, h[r].items);
        Leave(r);
        s := Brackets(parts);
      case Dict(r) =>
        HeldOk(h, r);
        TameInside(h, r);
        ReachShrinks(h, r);
        var values := seq(|h[r].keys|, i requires 0 <= i < |h[r].keys| => h[r].entries[h[r].keys[i]]);
        assert values == Held(h[r]);
        var parts := DisplayAll(h, values);
        s := Braces(h[r].keys, parts);
    }

    method DisplayAll(h: Heap, vs: seq<Value>) returns (parts: seq<string>)
      requires HeapOk(h) && AllOk(h, vs) && Tame(h, RefsOf(vs))
      modifies this
      ensures parts == ReprAll(h, vs, old(active))
      ensures active == old(active)
      decreases |h.Keys - active|, |ReachSet(h, RefsOf(vs))|, vs, 0
    {
      hide Tame, HeapOk, ValueOk, ReprAll, Repr, RefsOf, Refs, ReachSet;
      TameParts(h, vs, 0);
      ReprNone(h, vs[..0], active);
      parts := [];
      for i := 0 to |vs|
        invariant active == old(active)
        invariant Tame(h, RefsOf(vs[..i])) && parts == ReprAll(h, vs[..i], old(active))
      {
        TameParts(h, vs, i);
        TameParts(h, vs, i + 1);
        ReprNext(h, vs, i, old(active));
        var s := Display(h, vs[i]);
        parts := parts + [s];
      }
      assert vs[..|vs|] == vs;
    }
  }

  lemma ReprNone(h: Heap, vs: seq<Value>, active: set<Ref>)
    requires HeapOk(h) && vs == [] && Tame(h, RefsOf(vs))
    ensures ReprAll(h, vs, active) == []
  {
    hide Tame, HeapOk, Repr, RefsOf;
  }

  lemma ReprNext(h: Heap, vs: seq<Value>, i: nat, active: set<Ref>)
    requires HeapOk(h) && AllOk(h, vs) && i < |vs|
    requires Tame(h, RefsOf(vs[..i])) && Tame(h, RefsOf(vs[..i + 1])) && Tame(h, Refs(vs[i]))
    ensures ReprAll(h, vs[..i + 1], active) == ReprAll(h, vs[..i], active) + [Repr(h, vs[i], active)]
  {
    hide Tame, HeapOk, Repr, RefsOf, Refs;
    assert vs[..i + 1][..i] == vs[..i];
  }

  lemma JsonNone(h: Heap, active: set<Ref>)
    requires HeapOk(h)
    ensures ToJsonAll(h, [], active) == Ok([])
  {
  }

  lemma JsonNext(h: Heap, vs: seq<Value>, i: nat, active: set<Ref>)
    requires HeapOk(h) && AllOk(h, vs) && i < |vs|
    ensures var first, last := ToJsonAll(h, vs[..i], active), ToJson(h, vs[i], active);
            ToJsonAll(h, vs[..i + 1], active)
            == if first.Circular? || last.Circular? then Circular else Ok(first.value + [last.value])
  {
    assert vs[..i + 1][..i] == vs[..i];
  }

  /** A failing prefix makes the whole sequence fail. */
  lemma {:induction false} CircularStays(h: Heap, vs: seq<Value>, i: nat, active: set<Ref>)
    requires HeapOk(h) && AllOk(h, vs) && i <= |vs| && ToJsonAll(h, vs[..i], active).Circular?
    ensures ToJsonAll(h, vs, active).Circular?
    decreases |vs| - i
  {
    if i == |vs| {
      assert vs[..i] == vs;
    } else {
      assert vs[..i + 1][..i] == vs[..i];
      CircularStays(h, vs, i + 1, active);
    }
  }
}
