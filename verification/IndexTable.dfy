/**
 The second copy of the table: it stores positions instead of values, skips the
 equality check because its input is already deduplicated, and never deletes. The
 two copies stay in lock step, so the positions it lists are those of the elements
 of the value table in iteration order.
 */
module IndexTables {
  import opened Probe
  import opened TableModel
  import opened TableCorrect
  import opened TableAlgebra
  import opened SetTables
  import opened TablePlacements
  import opened Prelude

  function MapEntry<A, B>(f: A -> B, e: Entry<A>): Entry<B> {
    Entry(f(e.value), e.hash)
  }

  function MapSlot<A, B>(f: A -> B, x: Slot<A>): Slot<B> {
    match x
    case Empty => Empty
    case Dummy => Dummy
    case Active(e) => Active(MapEntry(f, e))
  }

  function MapSlots<A, B>(f: A -> B, s: seq<Slot<A>>): (r: seq<Slot<B>>)
    ensures |r| == |s| && forall i :: 0 <= i < |s| ==> r[i] == MapSlot(f, s[i])
  {
    seq(|s|, i requires 0 <= i < |s| => MapSlot(f, s[i]))
  }

  function MapEntries<A, B>(f: A -> B, es: seq<Entry<A>>): (r: seq<Entry<B>>)
    ensures |r| == |es| && forall i :: 0 <= i < |es| ==> r[i] == MapEntry(f, es[i])
  {
    seq(|es|, i requires 0 <= i < |es| => MapEntry(f, es[i]))
  }

  function MapTable<A, B>(f: A -> B, t: Table<A>): Table<B> {
    Table(MapSlots(f, t.slots), t.fill, t.used)
  }

  // ---------- renaming the stored values moves nothing ----------

  lemma MapHasEmpty<A, B>(f: A -> B, s: seq<Slot<A>>)
    requires HasEmpty(s)
    ensures HasEmpty(MapSlots(f, s))
  {
    var i :| 0 <= i < |s| && s[i].Empty?;
    assert MapSlots(f, s)[i].Empty?;
  }

  lemma MapStop<A, B>(f: A -> B, s: seq<Slot<A>>, h: int)
    requires IsPow2(|s|) && HasEmpty(s)
    ensures HasEmpty(MapSlots(f, s)) && Stop(MapSlots(f, s), h) == Stop(s, h)
  {
    MapHasEmpty(f, s);
    StopUnique(MapSlots(f, s), h, Stop(s, h));
  }

  lemma MapPlace<A, B>(f: A -> B, s: seq<Slot<A>>, e: Entry<A>)
    requires IsPow2(|s|) && HasEmpty(s)
    ensures HasEmpty(MapSlots(f, s))
    ensures Place(MapSlots(f, s), MapEntry(f, e)) == MapSlots(f, Place(s, e))
  {
    MapStop(f, s, e.hash);
  }

  lemma {:induction false} MapCounts<A, B>(f: A -> B, s: seq<Slot<A>>)
    ensures Actives(MapSlots(f, s)) == MapEntries(f, Actives(s))
    ensures Filled(MapSlots(f, s)) == Filled(s)
  {
    if s != [] {
      var n := |s| - 1;
      assert MapSlots(f, s)[..n] == MapSlots(f, s[..n]);
      MapCounts(f, s[..n]);
    }
  }

  lemma {:induction false} MapPlaceAll<A, B>(f: A -> B, s: seq<Slot<A>>, es: seq<Entry<A>>)
    requires IsPow2(|s|) && Filled(s) + |es| < |s|
    ensures Filled(MapSlots(f, s)) == Filled(s)
    ensures PlaceAll(MapSlots(f, s), MapEntries(f, es)) == MapSlots(f, PlaceAll(s, es))
  {
    MapCounts(f, s);
    if es != [] {
      var n := |es| - 1;
      assert MapEntries(f, es)[..n] == MapEntries(f, es[..n]);
      MapPlaceAll(f, s, es[..n]);
      FilledRoom(PlaceAll(s, es[..n]));
      MapPlace(f, PlaceAll(s, es[..n]), es[n]);
    }
  }

  lemma MapMaybeResize<A, B>(f: A -> B, t: Table<A>)
    requires t.used == |Actives(t.slots)| && |t.slots| > 0
    ensures MapTable(f, t).used == |Actives(MapTable(f, t).slots)|
    ensures MaybeResize(MapTable(f, t)) == MapTable(f, MaybeResize(t))
  {
    MapCounts(f, t.slots);
    if !(t.fill * 5 < (|t.slots| - 1) * 3) {
      var size := NewSize(Target(t.used));
      NewSizePow2(Target(t.used));
      BlankFilled<A>(size);
      assert MapSlots(f, Blank<A>(size)) == Blank<B>(size);
      MapPlaceAll(f, Blank<A>(size), Actives(t.slots));
    }
  }

  // ---------- additions of new elements to a table without tombstones ----------

  ghost function Append<V>(t: Table<V>, e: Entry<V>): Table<V>
    requires Usable(t)
  {
    PlaceActives(t.slots, e);
    MaybeResize(Table(Place(t.slots, e), t.fill + 1, t.used + 1))
  }

  lemma {:induction false} NoDummy<V>(s: seq<Slot<V>>, h: int, n: nat)
    requires |s| > 0 && forall i :: 0 <= i < |s| ==> !s[i].Dummy?
    ensures LastDummy(s, h, n).None?
  {
    if n > 0 {
      NoDummy(s, h, n - 1);
    }
  }

  lemma AddIsAppend<V(!new)>(eq: (V, V) -> bool, t: Table<V>, e: Entry<V>)
    requires Inv(eq, t) && t.fill == t.used && !Member(eq, Contents(t.slots), e)
    ensures Add(eq, t, e) == Append(t, e)
    ensures Add(eq, t, e).fill == Add(eq, t, e).used
  {
    ContainsIsMember(eq, t, e);
    FillCoversUsed(t.slots);
    NoDummy(t.slots, e.hash, Stop(t.slots, e.hash));
  }

  lemma MapAppend<A, B>(f: A -> B, t: Table<A>, e: Entry<A>)
    requires Usable(t)
    ensures Usable(MapTable(f, t))
    ensures Append(MapTable(f, t), MapEntry(f, e)) == MapTable(f, Append(t, e))
  {
    MapCounts(f, t.slots);
    MapPlace(f, t.slots, e);
    PlaceActives(t.slots, e);
    MapMaybeResize(f, Table(Place(t.slots, e), t.fill + 1, t.used + 1));
  }

  lemma {:induction false} FromListIsFull<V(!new)>(eq: (V, V) -> bool, es: seq<Entry<V>>)
    requires Equivalence(eq) && Distinct(eq, es)
    ensures FromList(eq, es).fill == FromList(eq, es).used
  {
    if es != [] {
      var n := |es| - 1;
      FromListIsFull(eq, es[..n]);
      NextIsNew(eq, es, n);
      AddIsAppend(eq, FromList(eq, es[..n]), es[n]);
    }
  }

  /** A list of pairwise distinct entries is appended one after another. */
  lemma FromListAppends<V(!new)>(eq: (V, V) -> bool, es: seq<Entry<V>>)
    requires Equivalence(eq) && es != [] && Distinct(eq, es)
    ensures FromList(eq, es) == Append(FromList(eq, es[..|es| - 1]), es[|es| - 1])
  {
    var n := |es| - 1;
    FromListIsFull(eq, es[..n]);
    NextIsNew(eq, es, n);
    AddIsAppend(eq, FromList(eq, es[..n]), es[n]);
  }

  lemma NextIsNew<V(!new)>(eq: (V, V) -> bool, es: seq<Entry<V>>, n: nat)
    requires Equivalence(eq) && n < |es| && Distinct(eq, es)
    ensures !Member(eq, Contents(FromList(eq, es[..n]).slots), es[n])
  {
    hide Inv, Contents, Distinct, AddAll, Same;
    EmptyCorrect(eq);
    AddAllMembers(eq, EmptyTable(), es[..n], es[n]);
    NewAt(eq, es, n);
  }

  lemma NewAt<V>(eq: (V, V) -> bool, es: seq<Entry<V>>, n: nat)
    requires n < |es| && Distinct(eq, es)
    ensures !Member(eq, Elements(es[..n]), es[n])
  {
    forall x | x in Elements(es[..n]) ensures !Same(eq, x, es[n]) {
      var i :| 0 <= i < n && es[i] == x;
    }
  }

  // ---------- lock step ----------

  function SamePosition(i: nat, j: nat): bool { i == j }

  /** Position `k` with the hash of item `k`. */
  function Positions(hashes: seq<int>): (r: seq<Entry<nat>>)
    ensures |r| == |hashes| && forall k :: 0 <= k < |hashes| ==> r[k] == Entry(k, hashes[k])
  {
    seq(|hashes|, k requires 0 <= k < |hashes| => Entry(k, hashes[k]))
  }

  lemma PositionsDistinct(hashes: seq<int>)
    ensures Equivalence(SamePosition) && Distinct(SamePosition, Positions(hashes))
  {
  }

  /** The table of positions, renamed to the items, is the table of the items. */
  lemma {:induction false} LockStep<V(!new)>(eq: (V, V) -> bool, f: nat -> V, hashes: seq<int>)
    requires Equivalence(eq) && Distinct(eq, MapEntries(f, Positions(hashes)))
    ensures Equivalence(SamePosition)
    ensures FromList(eq, MapEntries(f, Positions(hashes))) == MapTable(f, FromList(SamePosition, Positions(hashes)))
    decreases |hashes|
  {
    var ps := Positions(hashes);
    var es := MapEntries(f, ps);
    PositionsDistinct(hashes);
    if hashes == [] {
      assert MapSlots(f, Blank<nat>(MINSIZE)) == Blank<V>(MINSIZE);
    } else {
      var n := |hashes| - 1;
      assert ps[..n] == Positions(hashes[..n]);
      assert es[..n] == MapEntries(f, Positions(hashes[..n]));
      LockStep(eq, f, hashes[..n]);
      FromListAppends(eq, es);
      FromListAppends(SamePosition, ps);
      MapAppend(f, FromList(SamePosition, ps[..n]), ps[n]);
    }
  }

  // ---------- the imperative copy ----------

  function View(slots: seq<Option<nat>>, hashes: seq<int>): (r: seq<Slot<nat>>)
    requires |slots| == |hashes|
    ensures |r| == |slots|
    ensures forall i :: 0 <= i < |slots| ==>
              r[i] == if slots[i].Some? then Active(Entry(slots[i].value, hashes[i])) else Empty
  {
    seq(|slots|, i requires 0 <= i < |slots| =>
      if slots[i].Some? then Active(Entry(slots[i].value, hashes[i])) else Empty)
  }

  class IndexTable {
    var slots: array<Option<nat>>
    var hashes: array<int>
    var mask: nat
    var fill: nat
    var used: nat

    ghost predicate Shape()
      reads this
    {
      slots.Length == hashes.Length == mask + 1
    }

    ghost function Layout(): seq<Slot<nat>>
      requires Shape()
      reads this, slots, hashes
    {
      View(slots[..], hashes[..])
    }

    ghost function Model(): Table<nat>
      requires Shape()
      reads this, slots, hashes
    {
      Table(Layout(), fill, used)
    }

    constructor ()
      ensures Shape() && fresh(slots) && fresh(hashes) && Model() == EmptyTable()
    {
      slots := new Option<nat>[MINSIZE](_ => None);
      hashes := new int[MINSIZE](_ => 0);
      mask := MINSIZE - 1;
      fill, used := 0, 0;
      new;
      assert Layout() == Blank<nat>(MINSIZE);
    }

    /** The probe loop of both insertions: the first free slot. */
    method FreeSlot(hash: int) returns (entry: nat)
      requires Shape() && IsPow2(mask + 1) && HasEmpty(Layout())
      ensures entry < slots.Length
      ensures entry == Visit(hash, mask + 1, Stop(Layout(), hash))
    {
      hide At, Unbroken, Walking, Visit, IsStop, IsPow2, HasEmpty, Jump, Home, Unsigned;
      ghost var s := Layout();
      ghost var n := Stop(s, hash);
      ghost var t: nat := 0;
      var perturb: nat := Unsigned(hash);
      var i: nat := Home(hash, mask + 1);
      WalkStart(s, hash);
      while true
        invariant i < |s| && t <= n && Walking(s, hash, t, Cursor(i, 0, perturb))
        decreases n - t
      {
        ghost var t0 := t;
        var p: nat := if i + LINEAR_PROBES <= mask then LINEAR_PROBES else 0;
        entry := i;
        while true
          invariant i <= entry < |s| && p + (entry - i) == Span(i, |s|)
          invariant t0 <= t <= n && Walking(s, hash, t, Cursor(i, entry - i, perturb))
          decreases n - t
        {
          ghost var c := Cursor(i, entry - i, perturb);
          if slots[entry].None? {
            WalkEnd(s, hash, t, c);
            return;
          }
          WalkStep(s, hash, t, c);
          t := t + 1;
          if p == 0 {
            break;
          }
          entry := entry + 1;
          p := p - 1;
        }
        perturb := perturb / PERTURB_FACTOR;
        i := Jump(i, perturb, mask + 1);
      }
    }

    method InsertClean(elem: nat, hash: int)
      requires Shape() && slots != hashes as object && IsPow2(mask + 1) && HasEmpty(Layout())
      modifies slots, hashes
      ensures Layout() == Place(old(Layout()), Entry(elem, hash))
    {
      ghost var s := Layout();
      var entry := FreeSlot(hash);
      slots[entry] := Some(elem);
      hashes[entry] := hash;
      assert Layout() == s[entry := Active(Entry(elem, hash))];
    }

    method Add(elem: nat, hash: int)
      requires Shape() && IsPow2(mask + 1) && HasEmpty(Layout())
      modifies this`fill, this`used, slots, hashes
      ensures Layout() == Place(old(Layout()), Entry(elem, hash))
      ensures fill == old(fill) + 1 && used == old(used) + 1
    {
      InsertClean(elem, hash);
      fill := fill + 1;
      used := used + 1;
    }

    /** The occupied slots with their hashes, in slot order. */
    method Occupied() returns (es: seq<Entry<nat>>)
      requires Shape()
      ensures es == Actives(Layout())
    {
      es := [];
      ghost var s := Layout();
      for k := 0 to slots.Length
        invariant es == Actives(s[..k])
      {
        ActivesPrefix(s, k);
        if slots[k].Some? {
          es := es + [Entry(slots[k].value, hashes[k])];
        }
      }
      assert s[..slots.Length] == s;
    }

    /** The stored positions, in slot order. */
    method Order() returns (order: seq<nat>)
      requires Shape()
      ensures order == Values(Actives(Layout()))
    {
      order := [];
      ghost var s := Layout();
      for k := 0 to slots.Length
        invariant order == Values(Actives(s[..k]))
      {
        ActivesPrefix(s, k);
        if slots[k].Some? {
          order := order + [slots[k].value];
        }
      }
      assert s[..slots.Length] == s;
    }

    method InsertCleanAll(es: seq<Entry<nat>>)
      requires Shape() && IsPow2(mask + 1) && Filled(Layout()) + |es| < mask + 1
      modifies slots, hashes
      ensures Layout() == PlaceAll(old(Layout()), es)
    {
      ghost var s := Layout();
      for k := 0 to |es|
        invariant Layout() == PlaceAll(s, es[..k])
      {
        FilledRoom(Layout());
        assert es[..k + 1][..k] == es[..k];
        InsertClean(es[k].value, es[k].hash);
      }
      assert es[..|es|] == es;
    }

    method MaybeResize()
      requires Shape() && used == fill == |Actives(Layout())|
      modifies this
      ensures Shape() && ((slots == old(slots) && hashes == old(hashes)) || (fresh(slots) && fresh(hashes)))
      ensures Model() == TableModel.MaybeResize(old(Model()))
      ensures if old(5 * fill < 3 * mask) then Model() == old(Model()) else Rehashed(old(Layout()), Model(), Wanted(old(used)))
    {
      hide Rehashed;
      ResizeRehashes(Model(), Wanted(used));
      if fill * 5 < mask * 3 {
        return;
      }
      var minused := if used > 50000 then used * 2 else used * 4;
      ResizeTo(minused);
    }

    method ResizeTo(minused: nat)
      requires Shape() && used == fill == |Actives(Layout())| <= minused
      modifies this
      ensures Shape() && fresh(slots) && fresh(hashes)
      ensures Model() == TableModel.Resize(old(Model()), minused)
    {
      var newsize := MINSIZE;
      while newsize <= minused
        invariant newsize > 0 && Grow(newsize, minused) == NewSize(minused)
        decreases minused - newsize
      {
        newsize := newsize * 2;
      }
      NewSizePow2(minused);
      var es := Occupied();
      Rebuild(newsize, es);
    }

    /** One round of the loop in `cpython_set_order_indices`. */
    method AddAndResize(elem: nat, hash: int)
      requires Shape() && Usable(Model()) && fill == used
      modifies this, slots, hashes
      ensures Shape() && ((slots == old(slots) && hashes == old(hashes)) || (fresh(slots) && fresh(hashes)))
      ensures Model() == Append(old(Model()), Entry(elem, hash))
    {
      PlaceActives(Layout(), Entry(elem, hash));
      Add(elem, hash);
      MaybeResize();
    }

    method Rebuild(newsize: nat, es: seq<Entry<nat>>)
      requires IsPow2(newsize) && |es| < newsize
      modifies this
      ensures Shape() && fresh(slots) && fresh(hashes) && fill == old(fill) && used == old(used)
      ensures Layout() == (BlankFilled<nat>(newsize); PlaceAll(Blank(newsize), es))
    {
      hide Filled, PlaceAll;
      BlankFilled<nat>(newsize);
      slots := new Option<nat>[newsize](_ => None);
      hashes := new int[newsize](_ => 0);
      mask := newsize - 1;
      ghost var s := Layout();
      assert s == Blank<nat>(newsize);
      assert IsPow2(mask + 1) && Filled(s) == 0;
      InsertCleanAll(es);
    }
  }

  lemma PositionsStep(hashes: seq<int>, k: nat)
    requires k < |hashes|
    ensures Equivalence(SamePosition)
    ensures FromList(SamePosition, Positions(hashes[..k + 1]))
            == Append(FromList(SamePosition, Positions(hashes[..k])), Entry(k, hashes[k]))
    ensures FromList(SamePosition, Positions(hashes[..k])).fill == FromList(SamePosition, Positions(hashes[..k])).used
  {
    var ps := Positions(hashes[..k + 1]);
    PositionsDistinct(hashes[..k + 1]);
    PositionsDistinct(hashes[..k]);
    assert ps[..k] == Positions(hashes[..k]);
    FromListAppends(SamePosition, ps);
    FromListIsFull(SamePosition, ps[..k]);
  }

  function Values<V>(es: seq<Entry<V>>): (r: seq<V>)
    ensures |r| == |es| && forall i :: 0 <= i < |es| ==> r[i] == es[i].value
  {
    seq(|es|, i requires 0 <= i < |es| => es[i].value)
  }

  /** The hashes of items that all have one. */
  function Known(found: seq<Option<int>>): (r: seq<int>)
    requires forall k :: 0 <= k < |found| ==> found[k].Some?
    ensures |r| == |found| && forall k :: 0 <= k < |r| ==> found[k] == Some(r[k])
  {
    seq(|found|, k requires 0 <= k < |found| => found[k].value)
  }

  /** `cpython_set_order_indices`, given the hash of each item if it has a reproducible one. */
  method SetOrderIndices(found: seq<Option<int>>) returns (order: Option<seq<nat>>)
    ensures Equivalence(SamePosition)
    ensures order.None? <==> exists k :: 0 <= k < |found| && found[k].None?
    ensures order.Some? ==> order.value == Values(Actives(FromList(SamePosition, Positions(Known(found))).slots))
  {
    var hashes: seq<int> := [];
    for k := 0 to |found|
      invariant |hashes| == k && forall i :: 0 <= i < k ==> found[i] == Some(hashes[i])
    {
      if found[k].None? {
        PositionsDistinct([]);
        return None;
      }
      hashes := hashes + [found[k].value];
    }
    assert hashes == Known(found);
    var listed := OrderOfHashes(hashes);
    order := Some(listed);
  }

  method OrderOfHashes(hashes: seq<int>) returns (order: seq<nat>)
    ensures Equivalence(SamePosition)
    ensures order == Values(Actives(FromList(SamePosition, Positions(hashes)).slots))
  {
    PositionsDistinct(hashes);
    var table := new IndexTable();
    for k := 0 to |hashes|
      invariant fresh(table.slots) && fresh(table.hashes) && table.Shape()
      invariant table.Model() == FromList(SamePosition, Positions(hashes[..k]))
    {
      PositionsStep(hashes, k);
      table.AddAndResize(k, hashes[k]);
    }
    assert hashes[..|hashes|] == hashes;
    order := table.Order();
  }

  /** The positions listed are those of the value table's elements, in iteration order. */
  lemma OrderMatchesTable<V(!new)>(eq: (V, V) -> bool, items: seq<Entry<V>>, hashes: seq<int>, order: seq<nat>)
    requires Equivalence(eq) && Distinct(eq, items)
    requires |hashes| == |items| && forall k :: 0 <= k < |items| ==> hashes[k] == items[k].hash
    requires Equivalence(SamePosition) && order == Values(Actives(FromList(SamePosition, Positions(hashes)).slots))
    ensures var inOrder := Actives(FromList(eq, items).slots);
            && |order| == |inOrder|
            && forall j :: 0 <= j < |order| ==> order[j] < |items| && items[order[j]] == inOrder[j]
  {
    if items == [] {
      EmptyCorrect(eq);
      BlankFilled<V>(MINSIZE);
      BlankFilled<nat>(MINSIZE);
    } else {
      var f := (k: nat) => if k < |items| then items[k].value else items[0].value;
      assert items == MapEntries(f, Positions(hashes));
      LockStep(eq, f, hashes);
      var s := FromList(SamePosition, Positions(hashes)).slots;
      MapCounts(f, s);
      StoredPositions(hashes);
      forall j | 0 <= j < |order| ensures order[j] < |items| && items[order[j]] == MapEntries(f, Actives(s))[j] {
        assert Actives(s)[j] == Entry(order[j], hashes[order[j]]);
      }
    }
  }

  lemma StoredPositions(hashes: seq<int>)
    ensures Equivalence(SamePosition)
    ensures forall e :: e in Actives(FromList(SamePosition, Positions(hashes)).slots) ==>
              e.value < |hashes| && e == Entry(e.value, hashes[e.value])
  {
    PositionsDistinct(hashes);
    FromListStored(SamePosition, Positions(hashes));
  }
}
