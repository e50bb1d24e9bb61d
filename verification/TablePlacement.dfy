/**
 What every operation of the set table does to the slots, in terms of the probe path and in
 numbers: which slot a new element takes, when the table is rehashed, to which size, and in
 which order the elements go in. A Python set iterates in slot order, so this decides what a
 program sees. None of the relations here mentions the functions of `TableModel`.
 */
module TablePlacements {
  import opened Arith
  import opened Probe
  import opened Prelude
  import opened TableModel
  import opened TableCorrect
  import opened TableAlgebra

  // ---------- the probe path ----------

  /** Runs of ten slots where they fit in the table, else single slots; then `5 * base + 1 + perturb`, with five bits shifted out. */
  lemma ProbePath(h: int, size: nat, t: nat)
    requires size > 0
    ensures At(h, size, 0) == Cursor((h % 0x1_0000_0000_0000_0000) % size, 0, h % 0x1_0000_0000_0000_0000)
    ensures var c := At(h, size, t);
            && Visit(h, size, t) == c.base + c.off
            && At(h, size, t + 1) ==
               if c.off < 9 && c.base + 9 < size then Cursor(c.base, c.off + 1, c.perturb)
               else Cursor((5 * c.base + 1 + c.perturb / 32) % size, 0, c.perturb / 32)
  {
  }

  // ---------- slot order ----------

  /** `es` are the active entries of `s` in slot order: entry `k` is in slot `idx[k]`. */
  ghost predicate Lists<V(!new)>(s: seq<Slot<V>>, es: seq<Entry<V>>, idx: seq<nat>) {
    && |idx| == |es|
    && (forall k :: 0 <= k < |idx| ==> idx[k] < |s| && s[idx[k]] == Active(es[k]))
    && (forall k, l :: 0 <= k < l < |idx| ==> idx[k] < idx[l])
    && (forall i: nat :: i < |s| && s[i].Active? ==> i in idx)
  }

  lemma {:induction false} ActivesInOrder<V(!new)>(s: seq<Slot<V>>) returns (idx: seq<nat>)
    ensures Lists(s, Actives(s), idx)
  {
    hide Lists;
    if s == [] {
      idx := [];
      NothingListed<V>();
      assert Actives(s) == [];
    } else {
      var n := |s| - 1;
      idx := ActivesInOrder(s[..n]);
      if s[n].Active? {
        ListsAppend(s, Actives(s[..n]), idx);
        idx := idx + [n];
      } else {
        ListsSkip(s, Actives(s[..n]), idx);
        assert Actives(s) == Actives(s[..n]);
      }
    }
  }

  lemma NothingListed<V(!new)>()
    ensures Lists<V>([], [], [])
  {
  }

  lemma ListsSkip<V(!new)>(s: seq<Slot<V>>, es: seq<Entry<V>>, idx: seq<nat>)
    requires s != [] && !s[|s| - 1].Active? && Lists(s[..|s| - 1], es, idx)
    ensures Lists(s, es, idx)
  {
    forall i: nat | i < |s| && s[i].Active? ensures i in idx {
      assert s[..|s| - 1][i] == s[i];
    }
  }

  lemma ListsAppend<V(!new)>(s: seq<Slot<V>>, es: seq<Entry<V>>, idx: seq<nat>)
    requires s != [] && s[|s| - 1].Active? && Lists(s[..|s| - 1], es, idx)
    ensures Lists(s, es + [s[|s| - 1].entry], idx + [|s| - 1])
  {
    var n := |s| - 1;
    var jdx := idx + [n];
    forall i: nat | i < |s| && s[i].Active? ensures i in jdx {
      if i == n {
        assert jdx[|idx|] == i;
      } else {
        assert s[..n][i] == s[i];
        AppendKeeps(idx, n, i);
      }
    }
  }

  lemma AppendKeeps(idx: seq<nat>, n: nat, i: nat)
    requires i in idx
    ensures i in idx + [n]
  {
  }

  /** The entries were placed one after another in an empty table: each took the first slot on its path that was still free. */
  ghost predicate PlacedInTurn<V(!new)>(r: seq<Slot<V>>, es: seq<Entry<V>>, pos: seq<nat>) {
    && |r| > 0
    && |pos| == |es|
    && (forall k :: 0 <= k < |pos| ==> pos[k] < |r| && r[pos[k]] == Active(es[k]))
    && (forall i: nat :: i < |r| && i !in pos ==> r[i].Empty?)
    && (forall k :: 0 <= k < |pos| ==> pos[k] !in pos[..k] && FirstFree(es[k].hash, |r|, pos[..k], pos[k]))
  }

  ghost predicate FirstFree(h: int, size: nat, taken: seq<nat>, i: nat)
    requires size > 0
  {
    exists t: nat :: FreeAfter(h, size, taken, i, t)
  }

  ghost predicate FreeAfter(h: int, size: nat, taken: seq<nat>, i: nat, t: nat)
    requires size > 0
  {
    Visit(h, size, t) == i && forall u: nat :: u < t ==> Visit(h, size, u) in taken
  }

  lemma {:induction false} PlaceAllInTurn<V(!new)>(size: nat, es: seq<Entry<V>>) returns (pos: seq<nat>)
    requires IsPow2(size) && |es| < size
    ensures Filled(Blank<V>(size)) == 0 && PlacedInTurn(PlaceAll(Blank(size), es), es, pos)
  {
    hide PlacedInTurn, Filled, Place;
    BlankFilled<V>(size);
    if es == [] {
      pos := [];
      NothingPlaced<V>(size);
    } else {
      var n := |es| - 1;
      var first := PlaceAllInTurn(size, es[..n]);
      var r := PlaceAll(Blank(size), es[..n]);
      FilledRoom(r);
      pos := PlaceOne(r, es[..n], first, es[n]);
      assert es == es[..n] + [es[n]];
    }
  }

  lemma NothingPlaced<V(!new)>(size: nat)
    requires size > 0
    ensures PlacedInTurn(Blank<V>(size), [], [])
  {
  }

  lemma PlaceOne<V(!new)>(r: seq<Slot<V>>, es: seq<Entry<V>>, first: seq<nat>, e: Entry<V>) returns (pos: seq<nat>)
    requires IsPow2(|r|) && HasEmpty(r) && PlacedInTurn(r, es, first)
    ensures PlacedInTurn(Place(r, e), es + [e], pos)
  {
    var t := Stop(r, e.hash);
    var i := Visit(e.hash, |r|, t);
    pos := first + [i];
    forall u: nat | u < t ensures Visit(e.hash, |r|, u) in first {
      assert !r[Visit(e.hash, |r|, u)].Empty?;
    }
    assert FreeAfter(e.hash, |r|, first, i, t);
    assert pos[..|first|] == first;
    forall k | 0 <= k < |pos| ensures pos[k] !in pos[..k] && FirstFree((es + [e])[k].hash, |r|, pos[..k], pos[k]) {
      if k < |first| {
        assert pos[..k] == first[..k];
      }
    }
  }

  // ---------- rehashing ----------

  /** `r` holds the elements of `s`, placed in slot order in the least power of two above `least`, and at least 8. */
  ghost predicate Rehashed<V(!new)>(s: seq<Slot<V>>, r: Table<V>, least: nat) {
    && IsPow2(|r.slots|)
    && |r.slots| > least
    && (|r.slots| == 8 || (|r.slots| > 8 && |r.slots| <= 2 * least))
    && exists es, idx, pos :: Lists(s, es, idx) && PlacedInTurn(r.slots, es, pos) && r.fill == r.used == |es|
  }

  lemma ResizeRehashes<V(!new)>(t: Table<V>, minused: nat)
    requires |Actives(t.slots)| <= minused
    ensures Rehashed(t.slots, TableModel.Resize(t, minused), minused)
  {
    NewSizePow2(minused);
    SizeBound(8, minused);
    var idx := ActivesInOrder(t.slots);
    var pos := PlaceAllInTurn(NewSize(minused), Actives(t.slots));
  }

  lemma {:induction false} SizeBound(n: nat, minused: nat)
    requires n > 0
    ensures Grow(n, minused) == n || n < Grow(n, minused) <= 2 * minused
    decreases minused - n
  {
    if n <= minused {
      SizeBound(2 * n, minused);
    }
  }

  // ---------- add ----------

  /** Probe `u` meets the last tombstone among the first `n`. */
  ghost predicate LastTombstone<V(!new)>(s: seq<Slot<V>>, h: int, n: nat, u: nat)
    requires |s| > 0
  {
    && u < n && s[Visit(h, |s|, u)].Dummy?
    && forall v: nat :: u < v < n ==> !s[Visit(h, |s|, v)].Dummy?
  }

  /** Probing for `h` meets its first empty slot after `n` steps. */
  ghost predicate FirstEmpty<V(!new)>(s: seq<Slot<V>>, h: int, n: nat)
    requires |s| > 0
  {
    s[Visit(h, |s|, n)].Empty? && forall u: nat :: u < n ==> !s[Visit(h, |s|, u)].Empty?
  }

  /** What the table grows to after a new element: more than four times the elements, above 50000 more than twice. */
  function Wanted(used: nat): nat {
    if used <= 50000 then 4 * used else 2 * used
  }

  ghost predicate Added<V(!new)>(eq: (V, V) -> bool, t: Table<V>, e: Entry<V>, r: Table<V>) {
    if Member(eq, Contents(t.slots), e) then r == t
    else |t.slots| > 0 && exists n: nat :: FirstEmpty(t.slots, e.hash, n) && Settled(t, e, n, r)
  }

  /** A new element takes the last tombstone before the first empty slot, or else that slot; only then can the table grow. */
  ghost predicate Settled<V(!new)>(t: Table<V>, e: Entry<V>, n: nat, r: Table<V>)
    requires |t.slots| > 0
  {
    if exists u: nat :: LastTombstone(t.slots, e.hash, n, u) then
      exists u: nat :: LastTombstone(t.slots, e.hash, n, u)
        && r == Table(t.slots[Visit(e.hash, |t.slots|, u) := Active(e)], t.fill, t.used + 1)
    else
      var q := t.slots[Visit(e.hash, |t.slots|, n) := Active(e)];
      if 5 * (t.fill + 1) < 3 * (|t.slots| - 1) then r == Table(q, t.fill + 1, t.used + 1)
      else Rehashed(q, r, Wanted(t.used + 1))
  }

  lemma {:induction false} LastDummyIs<V(!new)>(s: seq<Slot<V>>, h: int, n: nat)
    requires |s| > 0
    ensures LastDummy(s, h, n).Some? ==> exists u: nat :: LastTombstone(s, h, n, u) && LastDummy(s, h, n) == Some(Visit(h, |s|, u))
    ensures LastDummy(s, h, n).None? ==> forall u: nat :: u < n ==> !s[Visit(h, |s|, u)].Dummy?
  {
    if n > 0 {
      LastDummyIs(s, h, n - 1);
      if s[Visit(h, |s|, n - 1)].Dummy? {
        assert LastTombstone(s, h, n, n - 1);
      } else if LastDummy(s, h, n - 1).Some? {
        var u: nat :| LastTombstone(s, h, n - 1, u) && LastDummy(s, h, n - 1) == Some(Visit(h, |s|, u));
        assert LastTombstone(s, h, n, u);
      }
    }
  }

  /** `add`, slot by slot. */
  lemma AddExactly<V(!new)>(eq: (V, V) -> bool, t: Table<V>, e: Entry<V>)
    requires Inv(eq, t)
    ensures Added(eq, t, e, Add(eq, t, e))
  {
    hide Unique, Locatable, Hit, LastDummy, Filled, Actives, Contents, Rehashed;
    var s := t.slots;
    var n := Stop(s, e.hash);
    if Hit(eq, s, e, n).Some? {
      PresentIfHit(eq, s, e, n);
    } else {
      AbsentIfNoHit(eq, s, e, n);
      LastDummyIs(s, e.hash, n);
      assert FirstEmpty(s, e.hash, n);
      if LastDummy(s, e.hash, n).None? {
        GrowsOrNot(eq, t, e, n);
      }
      assert Settled(t, e, n, Add(eq, t, e));
    }
  }

  lemma GrowsOrNot<V(!new)>(eq: (V, V) -> bool, t: Table<V>, e: Entry<V>, n: nat)
    requires Inv(eq, t) && n == Stop(t.slots, e.hash) && Hit(eq, t.slots, e, n).None? && LastDummy(t.slots, e.hash, n).None?
    ensures var q := t.slots[Visit(e.hash, |t.slots|, n) := Active(e)];
            if 5 * (t.fill + 1) < 3 * (|t.slots| - 1) then Add(eq, t, e) == Table(q, t.fill + 1, t.used + 1)
            else Rehashed(q, Add(eq, t, e), Wanted(t.used + 1))
  {
    hide Layout, Hit, LastDummy, Filled, Actives, Contents, Rehashed;
    PlaceActives(t.slots, e);
    var q := t.slots[Visit(e.hash, |t.slots|, n) := Active(e)];
    if 5 * (t.fill + 1) >= 3 * (|t.slots| - 1) {
      ResizeRehashes(Table(q, t.fill + 1, t.used + 1), Wanted(t.used + 1));
    }
  }

  /** When an added element makes the table grow, and to which size. */
  lemma GrowthExactly<V(!new)>(eq: (V, V) -> bool, t: Table<V>, e: Entry<V>, n: nat)
    requires Inv(eq, t) && !Member(eq, Contents(t.slots), e) && FirstEmpty(t.slots, e.hash, n)
    ensures var size := |Add(eq, t, e).slots|;
            if (exists u: nat :: u < n && t.slots[Visit(e.hash, |t.slots|, u)].Dummy?) || 5 * (t.fill + 1) < 3 * (|t.slots| - 1)
            then size == |t.slots|
            else
              && IsPow2(size)
              && (t.used + 1 <= 50000 ==> size > 4 * (t.used + 1) && (size == 8 || size <= 8 * (t.used + 1)))
              && (t.used + 1 > 50000 ==> size > 2 * (t.used + 1) && (size == 8 || size <= 4 * (t.used + 1)))
  {
    hide Inv, Lists, PlacedInTurn, Contents, Add;
    AddExactly(eq, t, e);
    var m: nat :| FirstEmpty(t.slots, e.hash, m) && Settled(t, e, m, Add(eq, t, e));
    assert m == n;
    if u: nat :| u < n && t.slots[Visit(e.hash, |t.slots|, u)].Dummy? {
      LastExists(t.slots, e.hash, n, u);
    }
  }

  lemma {:induction false} LastExists<V(!new)>(s: seq<Slot<V>>, h: int, n: nat, u: nat)
    requires |s| > 0 && u < n && s[Visit(h, |s|, u)].Dummy?
    ensures exists v: nat :: LastTombstone(s, h, n, v)
    decreases n - u
  {
    if !LastTombstone(s, h, n, u) {
      var v: nat :| u < v < n && s[Visit(h, |s|, v)].Dummy?;
      LastExists(s, h, n, v);
    }
  }

  // ---------- discard, pop, compaction, presizing ----------

  ghost predicate Discarded<V(!new)>(eq: (V, V) -> bool, t: Table<V>, e: Entry<V>, r: Table<V>) {
    if !Member(eq, Contents(t.slots), e) then r == t
    else exists i: nat :: i < |t.slots| && t.slots[i].Active? && Same(eq, t.slots[i].entry, e)
           && r.slots == t.slots[i := Dummy] && r.fill == t.fill && r.used == t.used - 1
  }

  lemma DiscardExactly<V(!new)>(eq: (V, V) -> bool, t: Table<V>, e: Entry<V>)
    requires Inv(eq, t)
    ensures Discarded(eq, t, e, Discard(eq, t, e))
  {
    hide Unique, Locatable, Hit, Filled, Actives, Contents;
    var s := t.slots;
    var n := Stop(s, e.hash);
    HitMatches(eq, s, e, n);
    if Hit(eq, s, e, n).Some? {
      PresentIfHit(eq, s, e, n);
      ActivesOfSlot(s, Hit(eq, s, e, n).value);
    } else {
      AbsentIfNoHit(eq, s, e, n);
    }
  }

  /** `pop` takes the first active slot. */
  lemma PopExactly<V(!new)>(t: Table<V>, i: nat)
    requires t.used == |Actives(t.slots)|
    requires i < |t.slots| && t.slots[i].Active? && forall j :: 0 <= j < i ==> !t.slots[j].Active?
    ensures PopFirst(t) == Table(t.slots[i := Dummy], t.fill, t.used - 1) && t.used > 0
  {
    ActivesOfSlot(t.slots, i);
  }

  /** The table is rehashed if more than a quarter of it are tombstones. */
  lemma CompactExactly<V(!new)>(t: Table<V>)
    requires t.used == |Actives(t.slots)| && |t.slots| > 0
    ensures if t.fill - t.used > (|t.slots| - 1) / 4 then Rehashed(t.slots, Compact(t), Wanted(t.used)) else Compact(t) == t
  {
    hide Rehashed;
    ResizeRehashes(t, Wanted(t.used));
  }

  /** Before a merge the table is rehashed if it could come to three fifths, to more than twice the elements of both. */
  ghost predicate Presized<V(!new)>(t: Table<V>, extra: nat, r: Table<V>) {
    if 5 * (t.fill + extra) >= 3 * (|t.slots| - 1) then Rehashed(t.slots, r, 2 * (t.used + extra)) else r == t
  }

  lemma PresizeExactly<V(!new)>(t: Table<V>, extra: nat)
    requires t.used == |Actives(t.slots)|
    ensures Presized(t, extra, Presize(t, extra))
  {
    hide Rehashed;
    ResizeRehashes(t, 2 * (t.used + extra));
  }

  // ---------- many elements in turn ----------

  /** `ts` are the tables on the way from `t` to `r`, adding the entries in turn. */
  ghost predicate AddedInTurn<V(!new)>(eq: (V, V) -> bool, t: Table<V>, es: seq<Entry<V>>, r: Table<V>, ts: seq<Table<V>>) {
    && |ts| == |es| + 1 && ts[0] == t && ts[|es|] == r
    && forall k :: 0 <= k < |es| ==> Added(eq, ts[k], es[k], ts[k + 1])
  }

  ghost predicate DiscardedInTurn<V(!new)>(eq: (V, V) -> bool, t: Table<V>, es: seq<Entry<V>>, r: Table<V>, ts: seq<Table<V>>) {
    && |ts| == |es| + 1 && ts[0] == t && ts[|es|] == r
    && forall k :: 0 <= k < |es| ==> Discarded(eq, ts[k], es[k], ts[k + 1])
  }

  ghost predicate ToggledInTurn<V(!new)>(eq: (V, V) -> bool, t: Table<V>, es: seq<Entry<V>>, r: Table<V>, ts: seq<Table<V>>) {
    && |ts| == |es| + 1 && ts[0] == t && ts[|es|] == r
    && forall k :: 0 <= k < |es| ==>
         if Member(eq, Contents(ts[k].slots), es[k]) then Discarded(eq, ts[k], es[k], ts[k + 1]) else Added(eq, ts[k], es[k], ts[k + 1])
  }

  lemma {:induction false} AddAllInTurn<V(!new)>(eq: (V, V) -> bool, t: Table<V>, es: seq<Entry<V>>) returns (ts: seq<Table<V>>)
    requires Inv(eq, t)
    ensures AddedInTurn(eq, t, es, AddAll(eq, t, es), ts)
  {
    hide Inv, Added, Add;
    if es == [] {
      ts := [t];
    } else {
      var n := |es| - 1;
      ts := AddAllInTurn(eq, t, es[..n]);
      AddExactly(eq, AddAll(eq, t, es[..n]), es[n]);
      ts := ts + [AddAll(eq, t, es)];
    }
  }

  lemma {:induction false} DiscardAllInTurn<V(!new)>(eq: (V, V) -> bool, t: Table<V>, es: seq<Entry<V>>) returns (ts: seq<Table<V>>)
    requires Inv(eq, t)
    ensures DiscardedInTurn(eq, t, es, DiscardAll(eq, t, es), ts)
  {
    hide Inv, Discarded, Discard;
    if es == [] {
      ts := [t];
    } else {
      var n := |es| - 1;
      ts := DiscardAllInTurn(eq, t, es[..n]);
      DiscardExactly(eq, DiscardAll(eq, t, es[..n]), es[n]);
      ts := ts + [DiscardAll(eq, t, es)];
    }
  }

  lemma {:induction false} ToggleAllInTurn<V(!new)>(eq: (V, V) -> bool, t: Table<V>, es: seq<Entry<V>>) returns (ts: seq<Table<V>>)
    requires Inv(eq, t)
    ensures ToggledInTurn(eq, t, es, ToggleAll(eq, t, es), ts)
  {
    hide Inv, Discarded, Discard, Added, Add, Contents, Contains;
    if es == [] {
      ts := [t];
    } else {
      var n := |es| - 1;
      var r := ToggleAll(eq, t, es[..n]);
      ts := ToggleAllInTurn(eq, t, es[..n]);
      DiscardExactly(eq, r, es[n]);
      AddExactly(eq, r, es[n]);
      ContainsIsMember(eq, r, es[n]);
      ts := ts + [ToggleAll(eq, t, es)];
    }
  }

  // ---------- building, merging, copying ----------

  /** The empty table has eight slots. */
  ghost predicate Fresh<V(!new)>(t: Table<V>) {
    |t.slots| == 8 && t.fill == t.used == 0 && forall i :: 0 <= i < 8 ==> t.slots[i].Empty?
  }

  lemma FromListInTurn<V(!new)>(eq: (V, V) -> bool, es: seq<Entry<V>>) returns (start: Table<V>, ts: seq<Table<V>>)
    requires Equivalence(eq)
    ensures Fresh(start) && AddedInTurn(eq, start, es, FromList(eq, es), ts)
  {
    hide Added, Inv;
    EmptyCorrect(eq);
    start := EmptyTable();
    ts := AddAllInTurn(eq, start, es);
  }

  /** After presizing to `p`: a slot copy, a clean fill in slot order, or ordinary adds in slot order. */
  ghost predicate Merged<V(!new)>(eq: (V, V) -> bool, p: Table<V>, o: Table<V>, r: Table<V>) {
    if p.fill == 0 && |p.slots| == |o.slots| && o.fill == o.used then r.slots == o.slots && r.fill == r.used == o.used
    else if p.fill == 0 then
      |r.slots| == |p.slots| && r.fill == r.used == o.used
      && exists es, idx, pos :: Lists(o.slots, es, idx) && PlacedInTurn(r.slots, es, pos)
    else exists es, idx, ts :: Lists(o.slots, es, idx) && AddedInTurn(eq, p, es, r, ts)
  }

  lemma MergeExactly<V(!new)>(eq: (V, V) -> bool, t: Table<V>, o: Table<V>) returns (p: Table<V>)
    requires Inv(eq, t) && Inv(eq, o)
    ensures Presized(t, o.used, p) && Merged(eq, p, o, TableAlgebra.Merge(eq, t, o))
  {
    p := Presize(t, o.used);
    PresizeExactly(t, o.used);
    PresizeCorrect(eq, t, o.used);
    var es := Actives(o.slots);
    var idx := ActivesInOrder(o.slots);
    hide Lists, PlacedInTurn, AddedInTurn, Presized, Presize, Layout, Actives;
    if p.fill == 0 {
      ClearIsBlank(p.slots);
      var pos := PlaceAllInTurn(|p.slots|, es);
    } else {
      var ts := AddAllInTurn(eq, p, es);
    }
  }

  lemma ClearIsBlank<V(!new)>(s: seq<Slot<V>>)
    requires Filled(s) == 0
    ensures s == Blank(|s|)
  {
    NothingFilled(s);
  }

  lemma CopyExactly<V(!new)>(eq: (V, V) -> bool, a: Table<V>) returns (start: Table<V>, p: Table<V>)
    requires Inv(eq, a)
    ensures Fresh(start) && Presized(start, a.used, p) && Merged(eq, p, a, Copy(eq, a))
  {
    hide Merged, Presized, Layout, Filled, Actives;
    EmptyCorrect(eq);
    start := EmptyTable();
    p := MergeExactly(eq, start, a);
  }

  /** A copy of `a`, with `b` merged into it. */
  lemma UnionExactly<V(!new)>(eq: (V, V) -> bool, a: Table<V>, b: Table<V>) returns (p: Table<V>)
    requires Inv(eq, a) && Inv(eq, b)
    ensures Presized(Copy(eq, a), b.used, p) && Merged(eq, p, b, Union(eq, a, b))
  {
    hide Merged, Presized, Layout, Filled, Actives;
    p := MergeExactly(eq, Copy(eq, a), b);
  }

  /** A constant literal is built by adding its items, built again by adding in the slot order of the first, and copied. */
  lemma ConstantLiteralExactly<V(!new)>(eq: (V, V) -> bool, es: seq<Entry<V>>)
    returns (start: Table<V>, once: Table<V>, ts: seq<Table<V>>, order: seq<Entry<V>>, idx: seq<nat>, again: Table<V>, us: seq<Table<V>>, p: Table<V>)
    requires Equivalence(eq)
    ensures Fresh(start) && AddedInTurn(eq, start, es, once, ts)
    ensures Lists(once.slots, order, idx) && AddedInTurn(eq, start, order, again, us)
    ensures Presized(start, again.used, p) && Merged(eq, p, again, ConstantLiteral(eq, es))
  {
    hide Merged, Presized, Inv, Fresh, AddedInTurn, Lists, Actives;
    start, ts := FromListInTurn(eq, es);
    once := FromList(eq, es);
    order := Actives(once.slots);
    idx := ActivesInOrder(once.slots);
    var other;
    other, us := FromListInTurn(eq, order);
    again := FromList(eq, order);
    OneFresh(start, other);
    other, p := CopyExactly(eq, again);
    OneFresh(start, other);
  }

  lemma OneFresh<V(!new)>(t: Table<V>, u: Table<V>)
    requires Fresh(t) && Fresh(u)
    ensures t == u
  {
    assert t.slots == u.slots;
  }

  // ---------- the operators ----------

  /** `ks` are the entries of `es`, in their order, whose membership in `S` is `wanted`. */
  ghost predicate Kept<V(!new)>(eq: (V, V) -> bool, es: seq<Entry<V>>, S: set<Entry<V>>, wanted: bool, ks: seq<Entry<V>>, idx: seq<nat>) {
    && |idx| == |ks|
    && (forall k :: 0 <= k < |idx| ==> idx[k] < |es| && es[idx[k]] == ks[k] && Member(eq, S, ks[k]) == wanted)
    && (forall k, l :: 0 <= k < l < |idx| ==> idx[k] < idx[l])
    && (forall i: nat :: i < |es| && Member(eq, S, es[i]) == wanted ==> i in idx)
  }

  lemma {:induction false} KeepInOrder<V(!new)>(eq: (V, V) -> bool, es: seq<Entry<V>>, t: Table<V>, wanted: bool) returns (idx: seq<nat>)
    requires Inv(eq, t)
    ensures Kept(eq, es, Contents(t.slots), wanted, Keep(eq, es, t, wanted), idx)
  {
    hide Inv, Member, Contents, Contains, Kept;
    if es == [] {
      idx := [];
      NothingKept(eq, Contents(t.slots), wanted);
    } else {
      var n := |es| - 1;
      idx := KeepInOrder(eq, es[..n], t, wanted);
      ContainsIsMember(eq, t, es[n]);
      if Member(eq, Contents(t.slots), es[n]) == wanted {
        KeptAppend(eq, es, Contents(t.slots), wanted, Keep(eq, es[..n], t, wanted), idx);
        idx := idx + [n];
      } else {
        KeptSkip(eq, es, Contents(t.slots), wanted, Keep(eq, es[..n], t, wanted), idx);
      }
    }
  }

  lemma NothingKept<V(!new)>(eq: (V, V) -> bool, S: set<Entry<V>>, wanted: bool)
    ensures Kept(eq, [], S, wanted, [], [])
  {
  }

  lemma KeptSkip<V(!new)>(eq: (V, V) -> bool, es: seq<Entry<V>>, S: set<Entry<V>>, wanted: bool, ks: seq<Entry<V>>, idx: seq<nat>)
    requires es != [] && Member(eq, S, es[|es| - 1]) != wanted && Kept(eq, es[..|es| - 1], S, wanted, ks, idx)
    ensures Kept(eq, es, S, wanted, ks, idx)
  {
    hide Member;
    forall i: nat | i < |es| && Member(eq, S, es[i]) == wanted ensures i in idx {
      assert es[..|es| - 1][i] == es[i];
    }
  }

  lemma KeptAppend<V(!new)>(eq: (V, V) -> bool, es: seq<Entry<V>>, S: set<Entry<V>>, wanted: bool, ks: seq<Entry<V>>, idx: seq<nat>)
    requires es != [] && Member(eq, S, es[|es| - 1]) == wanted && Kept(eq, es[..|es| - 1], S, wanted, ks, idx)
    ensures Kept(eq, es, S, wanted, ks + [es[|es| - 1]], idx + [|es| - 1])
  {
    hide Member;
    var n := |es| - 1;
    var jdx := idx + [n];
    forall i: nat | i < |es| && Member(eq, S, es[i]) == wanted ensures i in jdx {
      if i == n {
        assert jdx[|idx|] == i;
      } else {
        assert es[..n][i] == es[i];
        AppendKeeps(idx, n, i);
      }
    }
  }

  /** `r` is built by adding to an empty table, in slot order, the elements of `a` whose membership in `b` is `wanted`. */
  ghost predicate Filtered<V(!new)>(eq: (V, V) -> bool, a: Table<V>, b: Table<V>, wanted: bool, r: Table<V>) {
    exists es, idx, ks, kept, start, ts ::
      && Lists(a.slots, es, idx) && Kept(eq, es, Contents(b.slots), wanted, ks, kept)
      && Fresh(start) && AddedInTurn(eq, start, ks, r, ts)
  }

  lemma FilterExactly<V(!new)>(eq: (V, V) -> bool, a: Table<V>, b: Table<V>, wanted: bool)
    requires Inv(eq, a) && Inv(eq, b)
    ensures Filtered(eq, a, b, wanted, FromList(eq, Keep(eq, Actives(a.slots), b, wanted)))
  {
    hide Inv, Lists, Kept, Fresh, AddedInTurn, Contents, Actives, Keep;
    InvIsEquivalence(eq, a);
    var idx := ActivesInOrder(a.slots);
    var kept := KeepInOrder(eq, Actives(a.slots), b, wanted);
    var start, ts := FromListInTurn(eq, Keep(eq, Actives(a.slots), b, wanted));
  }

  lemma InvIsEquivalence<V(!new)>(eq: (V, V) -> bool, t: Table<V>)
    requires Inv(eq, t)
    ensures Equivalence(eq)
  {
  }

  /** The smaller operand is walked, the right one on a tie. */
  lemma IntersectionExactly<V(!new)>(eq: (V, V) -> bool, a: Table<V>, b: Table<V>)
    requires Inv(eq, a) && Inv(eq, b)
    ensures if b.used <= a.used then Filtered(eq, b, a, true, Intersection(eq, a, b))
            else Filtered(eq, a, b, true, Intersection(eq, a, b))
  {
    hide Inv, Filtered, Keep, FromList, Actives;
    FilterExactly(eq, a, b, true);
    FilterExactly(eq, b, a, true);
  }

  /** The elements of `b`, in slot order, are discarded from `a`, which is then compacted. */
  ghost predicate Subtracted<V(!new)>(eq: (V, V) -> bool, a: Table<V>, b: Table<V>, r: Table<V>) {
    exists es, idx, d, ts ::
      && Lists(b.slots, es, idx) && DiscardedInTurn(eq, a, es, d, ts)
      && d.used <= d.fill && |d.slots| > 0
      && if d.fill - d.used > (|d.slots| - 1) / 4 then Rehashed(d.slots, r, Wanted(d.used)) else r == d
  }

  lemma SubtractExactly<V(!new)>(eq: (V, V) -> bool, a: Table<V>, b: Table<V>)
    requires Inv(eq, a) && Inv(eq, b)
    ensures Subtracted(eq, a, b, DifferenceUpdate(eq, a, b))
  {
    var es := Actives(b.slots);
    var idx := ActivesInOrder(b.slots);
    var d := DiscardAll(eq, a, es);
    var ts := DiscardAllInTurn(eq, a, es);
    FillCoversUsed(d.slots);
    hide Lists, DiscardedInTurn, Rehashed, Layout, Actives, Filled;
    CompactExactly(d);
  }

  /** Past a quarter, `a` is copied and `b` discarded from it; otherwise what is left of `a` is added up. */
  lemma DifferenceExactly<V(!new)>(eq: (V, V) -> bool, a: Table<V>, b: Table<V>)
    requires Inv(eq, a) && Inv(eq, b)
    ensures if a.used >= 4 * (b.used + 1) then Subtracted(eq, Copy(eq, a), b, Difference(eq, a, b))
            else Filtered(eq, a, b, false, Difference(eq, a, b))
  {
    hide Inv, Filtered, Subtracted, Copy;
    FilterExactly(eq, a, b, false);
    SubtractExactly(eq, Copy(eq, a), b);
  }

  /** A copy of `b`, in which the elements of `a` are toggled in slot order. */
  lemma SymmetricDifferenceExactly<V(!new)>(eq: (V, V) -> bool, a: Table<V>, b: Table<V>) returns (es: seq<Entry<V>>, idx: seq<nat>, ts: seq<Table<V>>)
    requires Inv(eq, a) && Inv(eq, b)
    ensures Lists(a.slots, es, idx) && ToggledInTurn(eq, Copy(eq, b), es, SymmetricDifference(eq, a, b), ts)
  {
    hide Inv, Lists, ToggledInTurn, Copy;
    es := Actives(a.slots);
    idx := ActivesInOrder(a.slots);
    ts := ToggleAllInTurn(eq, Copy(eq, b), es);
  }

  // ---------- an example ----------

  /** Entries in slot order are determined by the slots. */
  lemma {:induction false} ListsUnique<V(!new)>(s: seq<Slot<V>>, es: seq<Entry<V>>, idx: seq<nat>, fs: seq<Entry<V>>, jdx: seq<nat>)
    requires Lists(s, es, idx) && Lists(s, fs, jdx)
    ensures es == fs
    decreases |s|
  {
    hide Lists;
    if s == [] {
      OnlyListed(es, idx);
      OnlyListed(fs, jdx);
    } else {
      var n := |s| - 1;
      if s[n].Active? {
        LastListed(s, es, idx);
        LastListed(s, fs, jdx);
        ListsUnique(s[..n], es[..|es| - 1], idx[..|es| - 1], fs[..|fs| - 1], jdx[..|fs| - 1]);
        assert es == es[..|es| - 1] + [s[n].entry] && fs == fs[..|fs| - 1] + [s[n].entry];
      } else {
        NotListed(s, es, idx);
        NotListed(s, fs, jdx);
        ListsUnique(s[..n], es, idx, fs, jdx);
      }
    }
  }

  lemma OnlyListed<V(!new)>(es: seq<Entry<V>>, idx: seq<nat>)
    requires Lists([], es, idx)
    ensures es == []
  {
    if idx != [] {
      ListedSlot([], es, idx, 0);
      assert false;
    }
  }

  lemma ListedSlot<V(!new)>(s: seq<Slot<V>>, es: seq<Entry<V>>, idx: seq<nat>, k: int)
    requires Lists(s, es, idx) && 0 <= k < |idx|
    ensures idx[k] < |s|
  {
  }

  lemma LargestIsLast(idx: seq<nat>, k: nat, n: nat)
    requires k < |idx| && idx[k] == n && forall l :: 0 <= l < |idx| ==> idx[l] <= n
    requires forall l, m :: 0 <= l < m < |idx| ==> idx[l] < idx[m]
    ensures k == |idx| - 1
  {
    assert idx[|idx| - 1] <= n;
  }

  lemma LastListed<V(!new)>(s: seq<Slot<V>>, es: seq<Entry<V>>, idx: seq<nat>)
    requires s != [] && s[|s| - 1].Active? && Lists(s, es, idx)
    ensures |idx| == |es| > 0 && es[|es| - 1] == s[|s| - 1].entry && Lists(s[..|s| - 1], es[..|es| - 1], idx[..|es| - 1])
  {
    var n := |s| - 1;
    assert n in idx;
    var k :| 0 <= k < |idx| && idx[k] == n;
    LargestIsLast(idx, k, n);
    assert s[idx[k]] == Active(es[k]);
    forall i: nat | i < n && s[i].Active? ensures i in idx[..k] {
      var l :| 0 <= l < |idx| && idx[l] == i;
      assert idx[..k][l] == i;
    }
    forall l | 0 <= l < k ensures idx[l] < n {
      assert idx[l] < idx[k];
    }
  }

  lemma NotListed<V(!new)>(s: seq<Slot<V>>, es: seq<Entry<V>>, idx: seq<nat>)
    requires s != [] && !s[|s| - 1].Active? && Lists(s, es, idx)
    ensures Lists(s[..|s| - 1], es, idx)
  {
    forall k | 0 <= k < |idx| ensures idx[k] < |s| - 1 {
      assert s[idx[k]].Active?;
    }
  }

  function IntEq(x: int, y: int): bool { x == y }

  /** Small integers are their own hashes. */
  function Ints(xs: seq<int>): (es: seq<Entry<int>>)
    ensures |es| == |xs| && forall k :: 0 <= k < |xs| ==> es[k] == Entry(xs[k], xs[k])
  {
    seq(|xs|, k requires 0 <= k < |xs| => Entry(xs[k], xs[k]))
  }

  /** With its first slot free, an element goes there. */
  lemma AddAtHome<V(!new)>(eq: (V, V) -> bool, t: Table<V>, e: Entry<V>, i: nat)
    requires Inv(eq, t) && 0 <= e.hash < 0x1_0000_0000_0000_0000 && i == e.hash % |t.slots| && t.slots[i].Empty?
    ensures var q := t.slots[i := Active(e)];
            if 5 * (t.fill + 1) < 3 * (|t.slots| - 1) then Add(eq, t, e) == Table(q, t.fill + 1, t.used + 1)
            else Rehashed(q, Add(eq, t, e), Wanted(t.used + 1))
    ensures Inv(eq, Add(eq, t, e))
  {
    hide Unique, Locatable, Filled, Actives, Contents, Rehashed, Add;
    ProbePath(e.hash, |t.slots|, 0);
    assert FirstEmpty(t.slots, e.hash, 0) && IsStop(t.slots, e.hash, 0);
    AbsentIfNoHit(eq, t.slots, e, 0);
    AddExactly(eq, t, e);
    AddCorrect(eq, t, e);
    var n: nat :| FirstEmpty(t.slots, e.hash, n) && Settled(t, e, n, Add(eq, t, e));
    assert n == 0;
  }

  /** Placed in turn where every first slot is free, each element is in its first slot. */
  lemma {:induction false} PlacedAtHome(r: seq<Slot<int>>, es: seq<Entry<int>>, pos: seq<nat>, k: nat)
    requires PlacedInTurn(r, es, pos) && k <= |es| && Apart(es, |r|)
    ensures |pos| == |es| && forall j :: 0 <= j < k ==> pos[j] == es[j].hash
  {
    hide FirstFree;
    if k > 0 {
      PlacedAtHome(r, es, pos, k - 1);
      FreeAtOnce(es[k - 1].hash, |r|, pos[..k - 1], pos[k - 1]);
    }
  }

  ghost predicate Apart<V(!new)>(es: seq<Entry<V>>, size: nat) {
    && size <= 0x1_0000_0000_0000_0000
    && (forall j :: 0 <= j < |es| ==> 0 <= es[j].hash < size)
    && (forall i, j :: 0 <= i < j < |es| ==> es[i].hash != es[j].hash)
  }

  lemma HomeFirst(h: int, size: nat)
    requires 0 <= h < size <= 0x1_0000_0000_0000_0000
    ensures Visit(h, size, 0) == h
  {
    hide At, Visit;
    SmallMod(h, 0x1_0000_0000_0000_0000);
    SmallMod(h, size);
    ProbePath(h, size, 0);
  }

  lemma SmallMod(h: nat, m: nat)
    requires h < m
    ensures h % m == h
  {
  }

  lemma FreeAtOnce(h: int, size: nat, taken: seq<nat>, i: nat)
    requires 0 <= h < size <= 0x1_0000_0000_0000_0000 && h !in taken && FirstFree(h, size, taken, i)
    ensures i == h
  {
    hide At, Visit;
    HomeFirst(h, size);
    var t: nat :| FreeAfter(h, size, taken, i, t);
    if t > 0 {
      StartTaken(h, size, taken, i, t);
      assert false;
    }
  }

  lemma StartTaken(h: int, size: nat, taken: seq<nat>, i: nat, t: nat)
    requires size > 0 && FreeAfter(h, size, taken, i, t) && t > 0
    ensures Visit(h, size, 0) in taken
  {
    hide At, Visit;
  }

  /** Each of `xs` is in its first slot of eight, and the other slots are empty. */
  ghost predicate AtHomes(s: seq<Slot<int>>, xs: seq<int>) {
    && |s| == 8
    && (forall j :: 0 <= j < |xs| ==> s[xs[j] % 8] == Active(Entry(xs[j], xs[j])))
    && (forall i :: 0 <= i < 8 && (forall j :: 0 <= j < |xs| ==> xs[j] % 8 != i) ==> s[i].Empty?)
  }

  ghost predicate Spread(xs: seq<int>) {
    && (forall j :: 0 <= j < |xs| ==> 0 <= xs[j] < 0x1_0000_0000_0000_0000)
    && (forall i, j :: 0 <= i < j < |xs| ==> xs[i] % 8 != xs[j] % 8)
  }

  /** Up to four elements with different first slots stay there. */
  lemma {:induction false} FewAtHome(xs: seq<int>)
    requires Spread(xs) && |xs| <= 4
    ensures Equivalence(IntEq)
    ensures var t := FromList(IntEq, Ints(xs)); Inv(IntEq, t) && t.fill == t.used == |xs| && AtHomes(t.slots, xs)
  {
    hide Inv, Add, AtHomes, Spread, Rehashed;
    EmptyCorrect(IntEq);
    if xs == [] {
      EmptyAtHome();
    } else {
      var n := |xs| - 1;
      FewerSpread(xs);
      FewAtHome(xs[..n]);
      var t := FromList(IntEq, Ints(xs[..n]));
      assert Ints(xs)[..n] == Ints(xs[..n]) && xs[..n] + [xs[n]] == xs;
      assert FromList(IntEq, Ints(xs)) == Add(IntEq, t, Entry(xs[n], xs[n]));
      NextAtHome(t, xs[..n], xs[n]);
    }
  }

  lemma NextAtHome(t: Table<int>, xs: seq<int>, x: int)
    requires Spread(xs + [x]) && |xs| <= 3 && Inv(IntEq, t) && t.fill == t.used == |xs| && AtHomes(t.slots, xs)
    ensures var r := Add(IntEq, t, Entry(x, x)); Inv(IntEq, r) && r.fill == r.used == |xs| + 1 && AtHomes(r.slots, xs + [x])
  {
    hide Inv, Add, AtHomes, Spread, Rehashed;
    HomeIsFree(t.slots, xs, x);
    AddAtHome(IntEq, t, Entry(x, x), x % 8);
    HomesGrow(t.slots, xs, x);
  }

  lemma EmptyAtHome()
    ensures AtHomes(EmptyTable<int>().slots, [])
  {
  }

  lemma FewerSpread(xs: seq<int>)
    requires Spread(xs) && xs != []
    ensures Spread(xs[..|xs| - 1])
  {
  }

  lemma HomeIsFree(s: seq<Slot<int>>, xs: seq<int>, x: int)
    requires AtHomes(s, xs) && Spread(xs + [x])
    ensures |s| == 8 && 0 <= x < 0x1_0000_0000_0000_0000 && s[x % 8].Empty?
  {
    var ys := xs + [x];
    assert ys[|xs|] == x;
    forall j | 0 <= j < |xs| ensures xs[j] % 8 != x % 8 {
      assert ys[j] == xs[j];
    }
  }

  lemma HomesGrow(s: seq<Slot<int>>, xs: seq<int>, x: int)
    requires AtHomes(s, xs) && Spread(xs + [x])
    ensures AtHomes(s[x % 8 := Active(Entry(x, x))], xs + [x])
  {
    var ys, r := xs + [x], s[x % 8 := Active(Entry(x, x))];
    forall j | 0 <= j < |ys| ensures r[ys[j] % 8] == Active(Entry(ys[j], ys[j])) {
      if j < |xs| {
        assert ys[j] == xs[j] && ys[j] % 8 != ys[|xs|] % 8;
      }
    }
    forall i | 0 <= i < 8 && (forall j :: 0 <= j < |ys| ==> ys[j] % 8 != i) ensures r[i].Empty? {
      assert ys[|xs|] % 8 != i;
      assert forall j :: 0 <= j < |xs| ==> xs[j] == ys[j];
    }
  }

  /** The slots before the fifth element of `[16, 1, 2, 3, 4]` makes the table grow. */
  lemma FiveAtHome(s: seq<Slot<int>>, xs: seq<int>)
    requires xs == [16, 1, 2, 3, 4] && AtHomes(s, xs)
    ensures Lists(s, Ints(xs), [0, 1, 2, 3, 4])
  {
    hide Lists;
    assert s[xs[0] % 8] == s[0] && s[xs[1] % 8] == s[1] && s[xs[2] % 8] == s[2] && s[xs[3] % 8] == s[3] && s[xs[4] % 8] == s[4];
    forall i | 5 <= i < 8 ensures s[i].Empty? {
      assert forall j :: 0 <= j < |xs| ==> xs[j] % 8 != i;
    }
    FiveListed(s, xs, [0, 1, 2, 3, 4]);
  }

  lemma FiveListed(s: seq<Slot<int>>, xs: seq<int>, idx: seq<nat>)
    requires |s| == 8 && |xs| == |idx| == 5 && forall k :: 0 <= k < 5 ==> idx[k] == k && s[k] == Active(Entry(xs[k], xs[k]))
    requires forall i :: 5 <= i < 8 ==> s[i].Empty?
    ensures Lists(s, Ints(xs), idx)
  {
    forall i: nat | i < 8 && s[i].Active? ensures i in idx {
      assert idx[i] == i;
    }
  }

  /** `list(set([16, 1, 2, 3, 4]))` is `[1, 2, 3, 4, 16]`: the fifth element makes the table grow to 32 slots. */
  lemma SetOfFive(xs: seq<int>)
    requires xs == [16, 1, 2, 3, 4]
    ensures Equivalence(IntEq) && Actives(FromList(IntEq, Ints(xs)).slots) == Ints([1, 2, 3, 4, 16])
  {
    hide Inv, Add, PlacedInTurn, Actives, Lists, AtHomes;
    assert Spread(xs);
    FewAtHome(xs[..4]);
    var t := FromList(IntEq, Ints(xs[..4]));
    assert Ints(xs)[..4] == Ints(xs[..4]) && xs[..4] + [xs[4]] == xs;
    HomeIsFree(t.slots, xs[..4], 4);
    FourthIsFour(t.slots, xs[..4]);
    AddAtHome(IntEq, t, Ints(xs)[4], 4);
    HomesGrow(t.slots, xs[..4], 4);
    var q := t.slots[4 := Active(Ints(xs)[4])];
    var r := FromList(IntEq, Ints(xs));
    assert r == Add(IntEq, t, Ints(xs)[4]);
    GrownTo32(q, r, xs);
  }

  lemma FourthIsFour(s: seq<Slot<int>>, xs: seq<int>)
    requires AtHomes(s, xs)
    ensures |s| == 8
  {
  }

  lemma GrownTo32(q: seq<Slot<int>>, r: Table<int>, xs: seq<int>)
    requires xs == [16, 1, 2, 3, 4] && AtHomes(q, xs) && Rehashed(q, r, Wanted(5))
    ensures Actives(r.slots) == Ints([1, 2, 3, 4, 16])
  {
    hide PlacedInTurn, Actives, Lists, AtHomes;
    ThirtyTwo(r.slots);
    var es, idx, pos :| Lists(q, es, idx) && PlacedInTurn(r.slots, es, pos) && r.fill == r.used == |es|;
    FiveAtHome(q, xs);
    ListsUnique(q, es, idx, Ints(xs), [0, 1, 2, 3, 4]);
    PlacedAtHome(r.slots, Ints(xs), pos, 5);
    SortedFive(r.slots, pos);
  }

  lemma ThirtyTwo(s: seq<Slot<int>>)
    requires IsPow2(|s|) && 20 < |s| <= 40
    ensures |s| == 32
  {
    var k: nat :| |s| == Pow2(k);
    assert Pow2(4) == 16 && Pow2(5) == 32 && Pow2(6) == 64;
    if k <= 4 {
      Pow2Less(k, 4);
    } else if k >= 6 {
      Pow2Less(6, k);
    }
  }

  lemma SortedFive(s: seq<Slot<int>>, pos: seq<nat>)
    requires |s| == 32 && PlacedInTurn(s, Ints([16, 1, 2, 3, 4]), pos)
    requires pos[0] == 16 && pos[1] == 1 && pos[2] == 2 && pos[3] == 3 && pos[4] == 4
    ensures Actives(s) == Ints([1, 2, 3, 4, 16])
  {
    hide Actives;
    var xs := [16, 1, 2, 3, 4];
    assert s[pos[0]] == Active(Ints(xs)[0]) && s[pos[1]] == Active(Ints(xs)[1]) && s[pos[2]] == Active(Ints(xs)[2]);
    assert s[pos[3]] == Active(Ints(xs)[3]) && s[pos[4]] == Active(Ints(xs)[4]);
    forall i: nat | i < 32 && s[i].Active? ensures i == 1 || i == 2 || i == 3 || i == 4 || i == 16 {
      assert i in pos;
    }
    SortedListed(s, [1, 2, 3, 4, 16]);
  }

  lemma SortedListed(s: seq<Slot<int>>, idx: seq<nat>)
    requires |s| == 32 && idx == [1, 2, 3, 4, 16]
    requires forall i: nat :: i < 32 && s[i].Active? ==> i == 1 || i == 2 || i == 3 || i == 4 || i == 16
    requires s[1] == Active(Entry(1, 1)) && s[2] == Active(Entry(2, 2)) && s[3] == Active(Entry(3, 3))
    requires s[4] == Active(Entry(4, 4)) && s[16] == Active(Entry(16, 16))
    ensures Actives(s) == Ints(idx)
  {
    hide Actives;
    assert Lists(s, Ints(idx), idx) by {
      forall i: nat | i < 32 && s[i].Active? ensures i in idx {
        assert idx[0] == 1 && idx[1] == 2 && idx[2] == 3 && idx[3] == 4 && idx[4] == 16;
      }
    }
    var jdx := ActivesInOrder(s);
    ListsUnique(s, Actives(s), jdx, Ints(idx), idx);
  }
}
