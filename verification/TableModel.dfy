/**
 The set table as a value: slot layouts, the layout every operation produces, and
 the mathematical set a layout stands for. The operations are specified slot by
 slot, because a Python set iterates in slot order; the lemmas of `TableCorrect`
 relate the layouts to sets.
 */
module TableModel {
  import opened Arith
  import opened Probe
  import opened Prelude

  const MINSIZE: nat := 8

  /** A value with its hash, as the table stores it. */
  datatype Entry<V> = Entry(value: V, hash: int)

  datatype Slot<V> = Empty | Dummy | Active(entry: Entry<V>)

  /** `mask` is `|slots| - 1`; `fill` counts actives and dummies, `used` the actives. */
  datatype Table<V> = Table(slots: seq<Slot<V>>, fill: nat, used: nat)

  // ---------- elements and sets of elements ----------

  predicate Same<V>(eq: (V, V) -> bool, x: Entry<V>, y: Entry<V>) {
    x.hash == y.hash && eq(x.value, y.value)
  }

  ghost predicate Equivalence<V(!new)>(eq: (V, V) -> bool) {
    && (forall x :: eq(x, x))
    && (forall x, y :: eq(x, y) ==> eq(y, x))
    && (forall x, y, z :: eq(x, y) && eq(y, z) ==> eq(x, z))
  }

  ghost predicate Member<V>(eq: (V, V) -> bool, S: set<Entry<V>>, e: Entry<V>) {
    exists x :: x in S && Same(eq, x, e)
  }

  /** Set insertion that keeps the element already there. */
  ghost function Insert<V>(eq: (V, V) -> bool, S: set<Entry<V>>, e: Entry<V>): set<Entry<V>> {
    if Member(eq, S, e) then S else S + {e}
  }

  ghost function Remove<V>(eq: (V, V) -> bool, S: set<Entry<V>>, e: Entry<V>): set<Entry<V>> {
    set x | x in S && !Same(eq, x, e)
  }

  // ---------- layouts ----------

  function One<V>(s: Slot<V>): seq<Entry<V>> {
    if s.Active? then [s.entry] else []
  }

  /** The active entries in slot order. */
  function Actives<V>(s: seq<Slot<V>>): seq<Entry<V>> {
    if s == [] then [] else Actives(s[..|s| - 1]) + One(s[|s| - 1])
  }

  /** How many slots are not empty. */
  function Filled<V>(s: seq<Slot<V>>): (n: nat)
    ensures n <= |s|
  {
    if s == [] then 0 else Filled(s[..|s| - 1]) + (if s[|s| - 1].Empty? then 0 else 1)
  }

  ghost function Contents<V>(s: seq<Slot<V>>): set<Entry<V>> {
    set i | 0 <= i < |s| && s[i].Active? :: s[i].entry
  }

  ghost predicate HasEmpty<V>(s: seq<Slot<V>>) {
    exists i :: 0 <= i < |s| && s[i].Empty?
  }

  /** No two active slots hold the same element. */
  ghost predicate Unique<V>(eq: (V, V) -> bool, s: seq<Slot<V>>) {
    forall i, j :: 0 <= i < j < |s| && s[i].Active? && s[j].Active? ==> !Same(eq, s[i].entry, s[j].entry)
  }

  /** The first `t` slots probed for `h` are not empty. */
  ghost predicate Unbroken<V>(s: seq<Slot<V>>, h: int, t: nat)
    requires |s| > 0
  {
    forall u: nat :: u < t ==> !s[Visit(h, |s|, u)].Empty?
  }

  /** The active entry of slot `i` is met before any empty slot on its own probe path. */
  ghost predicate Locatable<V>(s: seq<Slot<V>>, i: nat)
    requires i < |s| && s[i].Active?
  {
    exists t: nat :: Visit(s[i].entry.hash, |s|, t) == i && Unbroken(s, s[i].entry.hash, t)
  }

  ghost predicate WellPlaced<V>(s: seq<Slot<V>>) {
    forall i :: 0 <= i < |s| && s[i].Active? ==> Locatable(s, i)
  }

  ghost predicate Layout<V>(eq: (V, V) -> bool, s: seq<Slot<V>>) {
    && |s| >= MINSIZE
    && IsPow2(|s|)
    && Unique(eq, s)
    && WellPlaced(s)
  }

  /** The table invariant. */
  ghost predicate Inv<V(!new)>(eq: (V, V) -> bool, t: Table<V>)
    ensures Inv(eq, t) ==> Usable(t)
  {
    if Filled(t.slots) < |t.slots| then
      FilledRoom(t.slots);
      && Equivalence(eq)
      && Layout(eq, t.slots)
      && t.used == |Actives(t.slots)|
      && t.fill == Filled(t.slots)
      && 5 * t.fill < 3 * (|t.slots| - 1)
    else false
  }

  /** What a single operation needs of a table to be defined at all. */
  ghost predicate Usable<V>(t: Table<V>) {
    && IsPow2(|t.slots|)
    && HasEmpty(t.slots)
    && t.used == |Actives(t.slots)|
  }

  // ---------- probing ----------

  /** `t` steps of probing for `h` end on the first empty slot. */
  ghost predicate IsStop<V>(s: seq<Slot<V>>, h: int, t: nat)
    requires |s| > 0
  {
    s[Visit(h, |s|, t)].Empty? && Unbroken(s, h, t)
  }

  lemma StopExists<V>(s: seq<Slot<V>>, h: int)
    requires IsPow2(|s|) && HasEmpty(s)
    ensures exists t: nat :: IsStop(s, h, t)
  {
    var i :| 0 <= i < |s| && s[i].Empty?;
    EverySlotIsProbed(h, |s|, i);
    var t: nat :| Visit(h, |s|, t) == i;
    FirstStop(s, h, t);
  }

  lemma {:induction false} FirstStop<V>(s: seq<Slot<V>>, h: int, t: nat)
    requires |s| > 0 && s[Visit(h, |s|, t)].Empty?
    ensures exists t: nat :: IsStop(s, h, t)
    decreases t
  {
    if !IsStop(s, h, t) {
      var u: nat :| u < t && s[Visit(h, |s|, u)].Empty?;
      FirstStop(s, h, u);
    }
  }

  /** The number of steps after which probing for `h` ends. */
  ghost function Stop<V>(s: seq<Slot<V>>, h: int): (t: nat)
    requires IsPow2(|s|) && HasEmpty(s)
    ensures IsStop(s, h, t)
  {
    StopExists(s, h);
    var t: nat :| IsStop(s, h, t);
    t
  }

  predicate Match<V>(eq: (V, V) -> bool, s: seq<Slot<V>>, e: Entry<V>, t: nat)
    requires |s| > 0
  {
    var x := s[Visit(e.hash, |s|, t)];
    x.Active? && Same(eq, x.entry, e)
  }

  /** The first slot among the first `n` probed that holds `e`. */
  ghost function Hit<V>(eq: (V, V) -> bool, s: seq<Slot<V>>, e: Entry<V>, n: nat): (r: Option<nat>)
    requires |s| > 0
    ensures r.Some? ==> r.value < |s|
  {
    if n == 0 then None
    else if Hit(eq, s, e, n - 1).Some? then Hit(eq, s, e, n - 1)
    else if Match(eq, s, e, n - 1) then Some(Visit(e.hash, |s|, n - 1))
    else None
  }

  /** The last tombstone among the first `n` slots probed. */
  ghost function LastDummy<V>(s: seq<Slot<V>>, h: int, n: nat): (r: Option<nat>)
    requires |s| > 0
    ensures r.Some? ==> r.value < |s| && s[r.value].Dummy?
  {
    if n == 0 then None
    else if s[Visit(h, |s|, n - 1)].Dummy? then Some(Visit(h, |s|, n - 1))
    else LastDummy(s, h, n - 1)
  }

  // ---------- operations ----------

  function Blank<V>(size: nat): (s: seq<Slot<V>>)
    ensures |s| == size && forall i :: 0 <= i < size ==> s[i].Empty?
  {
    seq(size, _ => Empty)
  }

  function EmptyTable<V>(): Table<V> {
    Table(Blank(MINSIZE), 0, 0)
  }

  ghost function Place<V>(s: seq<Slot<V>>, e: Entry<V>): (r: seq<Slot<V>>)
    requires IsPow2(|s|) && HasEmpty(s)
    ensures |r| == |s|
  {
    s[Visit(e.hash, |s|, Stop(s, e.hash)) := Active(e)]
  }

  /** `es` placed one after another, without equality checks. */
  ghost function PlaceAll<V>(s: seq<Slot<V>>, es: seq<Entry<V>>): (r: seq<Slot<V>>)
    requires IsPow2(|s|) && Filled(s) + |es| < |s|
    ensures |r| == |s| && Filled(r) == Filled(s) + |es|
  {
    if es == [] then s
    else
      var r := PlaceAll(s, es[..|es| - 1]);
      FilledRoom(r);
      PlaceFilled(r, es[|es| - 1]);
      Place(r, es[|es| - 1])
  }

  function Grow(n: nat, minused: nat): (r: nat)
    requires n > 0
    ensures r > minused
    ensures r == n || r <= 2 * minused
    decreases minused - n
  {
    if n > minused then n else Grow(2 * n, minused)
  }

  function NewSize(minused: nat): (r: nat)
    ensures r > minused
  {
    Grow(MINSIZE, minused)
  }

  lemma {:induction false} GrowPow2(n: nat, minused: nat)
    requires n > 0 && IsPow2(n)
    ensures IsPow2(Grow(n, minused)) && Grow(n, minused) >= n
    decreases minused - n
  {
    if n <= minused {
      var k: nat :| n == Pow2(k);
      assert 2 * n == Pow2(k + 1);
      GrowPow2(2 * n, minused);
    }
  }

  lemma NewSizePow2(minused: nat)
    ensures IsPow2(NewSize(minused)) && NewSize(minused) >= MINSIZE
  {
    assert MINSIZE == Pow2(3);
    GrowPow2(MINSIZE, minused);
  }

  function Target(used: nat): nat {
    if used > 50000 then used * 2 else used * 4
  }

  ghost function Resize<V>(t: Table<V>, minused: nat): (r: Table<V>)
    requires |Actives(t.slots)| <= minused
  {
    var es := Actives(t.slots);
    NewSizePow2(minused);
    BlankFilled<V>(NewSize(minused));
    Table(PlaceAll(Blank(NewSize(minused)), es), |es|, |es|)
  }

  ghost function MaybeResize<V>(t: Table<V>): Table<V>
    requires t.used == |Actives(t.slots)| && |t.slots| > 0
  {
    if t.fill * 5 < (|t.slots| - 1) * 3 then t else Resize(t, Target(t.used))
  }

  ghost function Add<V>(eq: (V, V) -> bool, t: Table<V>, e: Entry<V>): Table<V>
    requires Usable(t)
  {
    var n := Stop(t.slots, e.hash);
    var d := LastDummy(t.slots, e.hash, n);
    if Hit(eq, t.slots, e, n).Some? then t
    else if d.Some? then Table(t.slots[d.value := Active(e)], t.fill, t.used + 1)
    else
      PlaceActives(t.slots, e);
      MaybeResize(Table(Place(t.slots, e), t.fill + 1, t.used + 1))
  }

  ghost predicate Contains<V>(eq: (V, V) -> bool, t: Table<V>, e: Entry<V>)
    requires Usable(t)
  {
    Hit(eq, t.slots, e, Stop(t.slots, e.hash)).Some?
  }

  ghost function Discard<V>(eq: (V, V) -> bool, t: Table<V>, e: Entry<V>): Table<V>
    requires Usable(t)
  {
    var hit := Hit(eq, t.slots, e, Stop(t.slots, e.hash));
    if hit.Some? then
      HitMatches(eq, t.slots, e, Stop(t.slots, e.hash));
      ActivesOfSlot(t.slots, hit.value);
      Table(t.slots[hit.value := Dummy], t.fill, t.used - 1)
    else t
  }

  /** The first active slot at or after `i`, in slot order. */
  function FirstActive<V>(s: seq<Slot<V>>, i: nat): (r: Option<nat>)
    requires i <= |s|
    ensures r.Some? ==> i <= r.value < |s| && s[r.value].Active?
    ensures forall j :: i <= j < (if r.Some? then r.value else |s|) ==> !s[j].Active?
    decreases |s| - i
  {
    if i == |s| then None
    else if s[i].Active? then Some(i)
    else FirstActive(s, i + 1)
  }

  ghost function PopFirst<V>(t: Table<V>): Table<V>
    requires t.used == |Actives(t.slots)|
  {
    var i := FirstActive(t.slots, 0);
    if i.Some? then
      ActivesOfSlot(t.slots, i.value);
      Table(t.slots[i.value := Dummy], t.fill, t.used - 1)
    else t
  }

  ghost function Compact<V>(t: Table<V>): Table<V>
    requires t.used == |Actives(t.slots)| && |t.slots| > 0
  {
    if t.fill - t.used > (|t.slots| - 1) / 4 then Resize(t, Target(t.used)) else t
  }

  // ---------- counting ----------

  lemma {:induction false} FilledRoom<V>(s: seq<Slot<V>>)
    requires Filled(s) < |s|
    ensures HasEmpty(s)
  {
    var n := |s| - 1;
    if s[n].Empty? {
    } else {
      FilledRoom(s[..n]);
      var i :| 0 <= i < n && s[..n][i].Empty?;
      assert s[i].Empty?;
    }
  }

  lemma {:induction false} FilledConcat<V>(a: seq<Slot<V>>, b: seq<Slot<V>>)
    ensures Filled(a + b) == Filled(a) + Filled(b)
  {
    if b == [] {
      assert a + b == a;
    } else {
      var n := |b| - 1;
      assert (a + b)[..|a + b| - 1] == a + b[..n];
      FilledConcat(a, b[..n]);
    }
  }

  lemma {:induction false} ActivesConcat<V>(a: seq<Slot<V>>, b: seq<Slot<V>>)
    ensures Actives(a + b) == Actives(a) + Actives(b)
  {
    if b == [] {
      assert a + b == a;
    } else {
      var n := |b| - 1;
      assert (a + b)[..|a + b| - 1] == a + b[..n];
      ActivesConcat(a, b[..n]);
    }
  }

  lemma Single<V>(x: Slot<V>)
    ensures Actives([x]) == One(x) && Filled([x]) == if x.Empty? then 0 else 1
  {
    assert [x][..0] == [];
  }

  lemma Around<V>(a: seq<Slot<V>>, x: Slot<V>, b: seq<Slot<V>>)
    ensures Actives(a + [x] + b) == Actives(a) + One(x) + Actives(b)
    ensures Filled(a + [x] + b) == Filled(a) + (if x.Empty? then 0 else 1) + Filled(b)
  {
    Single(x);
    ActivesConcat(a + [x], b);
    ActivesConcat(a, [x]);
    FilledConcat(a + [x], b);
    FilledConcat(a, [x]);
  }

  /** A layout split around slot `i`. */
  lemma Split<V>(s: seq<Slot<V>>, i: nat)
    requires i < |s|
    ensures Actives(s) == Actives(s[..i]) + One(s[i]) + Actives(s[i + 1..])
    ensures Filled(s) == Filled(s[..i]) + (if s[i].Empty? then 0 else 1) + Filled(s[i + 1..])
  {
    hide Actives, Filled, One;
    var a, b := s[..i], s[i + 1..];
    assert s == a + [s[i]] + b;
    Around(a, s[i], b);
  }

  lemma UpdateCounts<V>(s: seq<Slot<V>>, i: nat, x: Slot<V>)
    requires i < |s|
    ensures |Actives(s[i := x])| == |Actives(s)| - |One(s[i])| + |One(x)|
    ensures Filled(s[i := x]) == Filled(s) - (if s[i].Empty? then 0 else 1) + (if x.Empty? then 0 else 1)
  {
    var r := s[i := x];
    assert r[..i] == s[..i] && r[i + 1..] == s[i + 1..];
    Split(s, i);
    Split(r, i);
  }

  lemma PlaceFilled<V>(s: seq<Slot<V>>, e: Entry<V>)
    requires IsPow2(|s|) && HasEmpty(s)
    ensures Filled(Place(s, e)) == Filled(s) + 1
  {
    UpdateCounts(s, Visit(e.hash, |s|, Stop(s, e.hash)), Active(e));
  }

  lemma PlaceActives<V>(s: seq<Slot<V>>, e: Entry<V>)
    requires IsPow2(|s|) && HasEmpty(s)
    ensures |Actives(Place(s, e))| == |Actives(s)| + 1
  {
    UpdateCounts(s, Visit(e.hash, |s|, Stop(s, e.hash)), Active(e));
  }

  lemma ActivesOfSlot<V>(s: seq<Slot<V>>, i: nat)
    requires i < |s| && s[i].Active?
    ensures |Actives(s)| > 0
  {
    Split(s, i);
  }

  lemma {:induction false} BlankFilled<V>(size: nat)
    ensures Filled(Blank<V>(size)) == 0 && Actives(Blank<V>(size)) == []
  {
    if size > 0 {
      assert Blank<V>(size)[..size - 1] == Blank<V>(size - 1);
      BlankFilled<V>(size - 1);
    }
  }

  lemma {:induction false} HitMatches<V>(eq: (V, V) -> bool, s: seq<Slot<V>>, e: Entry<V>, n: nat)
    requires |s| > 0
    ensures var r := Hit(eq, s, e, n);
            r.Some? ==> s[r.value].Active? && Same(eq, s[r.value].entry, e)
  {
    if n > 0 {
      HitMatches(eq, s, e, n - 1);
    }
  }
}
