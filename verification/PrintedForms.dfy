/**
 What JSON conversion and `repr` yield, stated on their own: a value converts to the one JSON
 tree that matches it part by part, and fails exactly if there is none; the text of a container
 is the texts of its parts, in order, between its brackets.
 */
module PrintedForms {
  import opened ValueHeap
  import opened GuardedPrint

  // ---------- JSON ----------

  /** At most one JSON tree matches a value. */
  lemma {:induction false} ConvertsOnce(h: Heap, v: Value, j: Json, k: Json)
    requires HeapOk(h) && ValueOk(h, v) && Converts(h, v, j) && Converts(h, v, k)
    ensures j == k
    decreases j
  {
    match v
    case Scalar(_) =>
    case Tuple(items) =>
      forall i | 0 <= i < |items| ensures j.items[i] == k.items[i] {
        ConvertsOnce(h, items[i], j.items[i], k.items[i]);
      }
    case List(r) =>
      HeldOk(h, r);
      forall i | 0 <= i < |h[r].items| ensures j.items[i] == k.items[i] {
        ConvertsOnce(h, h[r].items[i], j.items[i], k.items[i]);
      }
    case Dict(r) =>
      HeldOk(h, r);
      forall i | 0 <= i < |h[r].keys| ensures j.entries[i] == k.entries[i] {
        ConvertsOnce(h, h[r].entries[h[r].keys[i]], j.entries[i].1, k.entries[i].1);
      }
  }

  /** A value that a JSON tree matches reaches no cycle: once around it, the tree would hold itself. */
  lemma {:induction false} ConvertsNoCycle(h: Heap, v: Value, j: Json, r: Ref, s: Ref, n: nat)
    requires HeapOk(h) && ValueOk(h, v) && Converts(h, v, j) && r in Refs(v) && ReachIn(h, r, s, n)
    ensures !Cyclic(h, s)
    decreases j
  {
    hide HeapOk, ReachIn, Edge;
    match v
    case Scalar(_) =>
    case Tuple(items) =>
      var i :| 0 <= i < |items| && r in Refs(items[i]);
      ConvertsNoCycle(h, items[i], j.items[i], r, s, n);
    case List(_) =>
      if Cyclic(h, s) {
        var q, len, i := NextInside(h, r, s, n);
        ConvertsNoCycle(h, h[r].items[i], j.items[i], q, s, len);
        assert false;
      }
    case Dict(_) =>
      if Cyclic(h, s) {
        var q, len, i := NextInside(h, r, s, n);
        ConvertsNoCycle(h, h[r].entries[h[r].keys[i]], j.entries[i].1, q, s, len);
        assert false;
      }
  }

  /** A first step from `r` on the way to `s`, once around the cycle if `r` is `s`. */
  lemma NextInside(h: Heap, r: Ref, s: Ref, n: nat) returns (q: Ref, len: nat, i: nat)
    requires HeapOk(h) && r in h && ReachIn(h, r, s, n) && Cyclic(h, s)
    ensures ObjectOk(h, h[r]) && AllOk(h, Held(h[r])) && i < |Held(h[r])| && q in Refs(Held(h[r])[i]) && ReachIn(h, q, s, len)
  {
    hide HeapOk, ReachIn, Held, Refs, ValueOk;
    HeldOk(h, r);
    var m: nat :| m > 0 && ReachIn(h, s, s, m);
    var steps := if n > 0 then n else m;
    assert ReachIn(h, r, s, steps) by {
      if n == 0 {
        NoSteps(h, r, s);
      }
    }
    q := FirstEdge(h, r, s, steps);
    len := steps - 1;
    i :| 0 <= i < |Held(h[r])| && q in Refs(Held(h[r])[i]);
  }

  lemma NoSteps(h: Heap, r: Ref, s: Ref)
    requires HeapOk(h) && ReachIn(h, r, s, 0)
    ensures r == s
  {
  }

  lemma ReachedNoCycle(h: Heap, v: Value, j: Json, s: Ref)
    requires HeapOk(h) && ValueOk(h, v) && Converts(h, v, j) && Reaches(h, Refs(v), s)
    ensures !Cyclic(h, s)
  {
    hide HeapOk, Converts, ReachIn, Refs, Cyclic;
    var r, n: nat :| r in Refs(v) && ReachIn(h, r, s, n);
    ConvertsNoCycle(h, v, j, r, s, n);
  }

  /** From a fresh start, `to_json` yields the tree that matches the value, and fails exactly if no finite tree does. */
  lemma JsonExactly(h: Heap, v: Value, j: Json)
    requires HeapOk(h) && ValueOk(h, v)
    ensures ToJson(h, v, {}) == Ok(j) <==> Converts(h, v, j)
    ensures ToJson(h, v, {}).Circular? <==> forall k :: !Converts(h, v, k)
  {
    hide HeapOk, Converts, Reaches, Refs, Cyclic, ToJson;
    JsonCircularExactly(h, v);
    if ToJson(h, v, {}).Ok? {
      OkConverts(h, v, {});
      var found := ToJson(h, v, {}).value;
      assert Converts(h, v, found) && !ToJson(h, v, {}).Circular?;
      forall k | Converts(h, v, k) ensures ToJson(h, v, {}) == Ok(k) {
        ConvertsOnce(h, v, k, ToJson(h, v, {}).value);
      }
    } else {
      forall k ensures !Converts(h, v, k) {
        if Converts(h, v, k) {
          var s :| Reaches(h, Refs(v), s) && Cyclic(h, s);
          ReachedNoCycle(h, v, k, s);
          assert false;
        }
      }
    }
  }

  /** The dict `{"a": 1, "b": 2}` keeps each key with its own value. */
  lemma JsonOfDict(h: Heap, r: Ref, k: Key, l: Key, x: string, y: string)
    requires HeapOk(h) && k != l && r in h && h[r] == DictObject([k, l], map[k := Scalar(x), l := Scalar(y)])
    ensures ToJson(h, Dict(r), {}) == Ok(JObject([(k, JScalar(x)), (l, JScalar(y))]))
  {
    hide HeapOk, ToJson;
    assert Converts(h, Dict(r), JObject([(k, JScalar(x)), (l, JScalar(y))]));
    JsonExactly(h, Dict(r), JObject([(k, JScalar(x)), (l, JScalar(y))]));
  }

  // ---------- repr ----------

  /** `s` is the texts of `parts`, in order, with a comma and a space between each two. */
  ghost predicate Separated(parts: seq<string>, s: string) {
    if |parts| == 0 then s == ""
    else if |parts| == 1 then s == parts[0]
    else |s| >= |parts[0]| + 2 && s[..|parts[0]| + 2] == parts[0] + ", " && Separated(parts[1..], s[|parts[0]| + 2..])
  }

  /** Another part goes behind. */
  lemma {:induction false} SeparatedMore(parts: seq<string>, s: string, last: string)
    requires parts != [] && Separated(parts, s)
    ensures Separated(parts + [last], s + ", " + last)
  {
    var all, t := parts + [last], s + ", " + last;
    if |parts| == 1 {
      assert all[1..] == [last];
      assert t[|s| + 2..] == last;
    } else {
      var n := |parts[0]| + 2;
      SeparatedMore(parts[1..], s[n..], last);
      assert all[1..] == parts[1..] + [last];
      assert t[n..] == s[n..] + ", " + last;
      assert t[..n] == s[..n];
    }
  }

  lemma {:induction false} JoinSeparates(parts: seq<string>)
    ensures Separated(parts, Join(parts))
  {
    if |parts| > 1 {
      var n := |parts| - 1;
      JoinSeparates(parts[..n]);
      SeparatedMore(parts[..n], Join(parts[..n]), parts[n]);
      assert parts == parts[..n] + [parts[n]];
    }
  }

  /** The texts of `vs` with `active` being visited. */
  ghost predicate Texts(h: Heap, vs: seq<Value>, active: set<Ref>, parts: seq<string>)
    requires HeapOk(h) && AllOk(h, vs)
  {
    |parts| == |vs| && forall i :: 0 <= i < |vs| ==> Tame(h, Refs(vs[i])) && parts[i] == Repr(h, vs[i], active)
  }

  lemma {:induction false} AllTexts(h: Heap, vs: seq<Value>, active: set<Ref>)
    requires HeapOk(h) && AllOk(h, vs) && Tame(h, RefsOf(vs))
    ensures Texts(h, vs, active, ReprAll(h, vs, active))
    decreases |vs|
  {
    hide HeapOk, Tame, Refs, RefsOf, Repr;
    if vs != [] {
      var n := |vs| - 1;
      TameParts(h, vs, n);
      AllTexts(h, vs[..n], active);
      assert forall i :: 0 <= i < n ==> vs[..n][i] == vs[i];
    }
  }

  /** `s` is `open`, the separated texts of `vs`, `close`. */
  ghost predicate Wrapped(h: Heap, vs: seq<Value>, active: set<Ref>, open: string, close: string, s: string)
    requires HeapOk(h) && AllOk(h, vs)
  {
    exists parts, inner :: Texts(h, vs, active, parts) && Separated(parts, inner) && s == open + inner + close
  }

  /** The texts of a dict's entries: key, colon, value. */
  ghost predicate EntryTexts(h: Heap, keys: seq<Key>, entries: map<Key, Value>, active: set<Ref>, parts: seq<string>)
    requires HeapOk(h) && (forall k :: k in keys ==> k in entries && ValueOk(h, entries[k]))
  {
    && |parts| == |keys|
    && forall i :: 0 <= i < |keys| ==>
         Tame(h, Refs(entries[keys[i]])) && parts[i] == keys[i] + ": " + Repr(h, entries[keys[i]], active)
  }

  ghost predicate WrappedEntries(h: Heap, keys: seq<Key>, entries: map<Key, Value>, active: set<Ref>, s: string)
    requires HeapOk(h) && (forall k :: k in keys ==> k in entries && ValueOk(h, entries[k]))
  {
    exists parts, inner :: EntryTexts(h, keys, entries, active, parts) && Separated(parts, inner) && s == "{" + inner + "}"
  }

  /**
   The text of a value. A list being visited is `[...]`, and only there is the guard consulted; a
   list is visited while its items are rendered, a tuple or dict is not; a tuple of one item keeps
   a comma behind it.
   */
  ghost predicate IsText(h: Heap, v: Value, active: set<Ref>, s: string)
    requires HeapOk(h) && ValueOk(h, v)
  {
    match v
    case Scalar(t) => s == t
    case Tuple(items) => Wrapped(h, items, active, "(", if |items| == 1 then ",)" else ")", s)
    case List(r) =>
      HeldOk(h, r);
      if r in active then s == "[...]" else Wrapped(h, h[r].items, active + {r}, "[", "]", s)
    case Dict(r) =>
      HeldOk(h, r);
      WrappedEntries(h, h[r].keys, h[r].entries, active, s)
  }

  lemma ReprExactly(h: Heap, v: Value, active: set<Ref>)
    requires HeapOk(h) && ValueOk(h, v) && Tame(h, Refs(v))
    ensures IsText(h, v, active, Repr(h, v, active))
  {
    hide HeapOk, Tame, RefsOf, ReachSet, Join, Separated, ReprAll;
    match v
    case Scalar(_) =>
    case Tuple(items) =>
      AllTexts(h, items, active);
      var parts := ReprAll(h, items, active);
      JoinSeparates(parts);
    case List(r) =>
      if r !in active {
        HeldOk(h, r);
        TameInside(h, r);
        AllTexts(h, h[r].items, active + {r});
        var parts := ReprAll(h, h[r].items, active + {r});
        JoinSeparates(parts);
      }
    case Dict(r) =>
      HeldOk(h, r);
      TameInside(h, r);
      var vs, keys := Held(h[r]), h[r].keys;
      AllTexts(h, vs, active);
      var texts := ReprAll(h, vs, active);
      var parts := seq(|keys|, i requires 0 <= i < |keys| => keys[i] + ": " + texts[i]);
      JoinSeparates(parts);
      forall i | 0 <= i < |keys| ensures
        Tame(h, Refs(h[r].entries[keys[i]])) && parts[i] == keys[i] + ": " + Repr(h, h[r].entries[keys[i]], active) {
        assert vs[i] == h[r].entries[keys[i]];
      }
      assert Repr(h, v, active) == "{" + Join(parts) + "}";
  }

  /** A list that holds only itself is `[[...]]`. */
  lemma SelfListText(h: Heap, r: Ref)
    requires HeapOk(h) && r in h && h[r] == ListObject([List(r)]) && Tame(h, {r})
    ensures Repr(h, List(r), {}) == "[[...]]"
  {
    hide HeapOk, Tame, Repr;
    ReprExactly(h, List(r), {});
    var parts, inner :| Texts(h, [List(r)], {} + {r}, parts) && Separated(parts, inner) && Repr(h, List(r), {}) == "[" + inner + "]";
    ReprExactly(h, List(r), {} + {r});
    assert parts[0] == "[...]" && inner == "[...]";
  }
}
