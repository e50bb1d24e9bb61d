/**
 The set table as the interpreter runs it: an object whose slot array, mask and
 counters are updated in place by nested probe loops. Each method is proved to
 leave exactly the layout of `TableModel`, and with it the right set of elements.
 */
module SetTables {
  import opened Probe
  import opened TableModel
  import opened TableCorrect
  import opened TableAlgebra
  import opened TablePlacements
  import opened Prelude

  lemma StopUnique<V>(s: seq<Slot<V>>, h: int, t: nat)
    requires IsPow2(|s|) && HasEmpty(s) && IsStop(s, h, t)
    ensures t == Stop(s, h)
  {
    var n := Stop(s, h);
    assert IsStop(s, h, n);
  }

  lemma ActivesPrefix<V>(s: seq<Slot<V>>, k: nat)
    requires k < |s|
    ensures Actives(s[..k + 1]) == Actives(s[..k]) + One(s[k])
  {
    assert s[..k + 1][..k] == s[..k];
  }

  class SetTable<V(!new)> {
    const eq: (V, V) -> bool
    var slots: array<Slot<V>>
    var mask: nat
    var fill: nat
    var used: nat

    ghost function Model(): Table<V>
      reads this, slots
    {
      Table(slots[..], fill, used)
    }

    ghost predicate Valid()
      reads this, slots
    {
      slots.Length == mask + 1 && Inv(eq, Model())
    }

    ghost function Elems(): set<Entry<V>>
      reads this, slots
    {
      Contents(slots[..])
    }

    /** `with_capacity(MINSIZE)`. */
    constructor (eq: (V, V) -> bool)
      requires Equivalence(eq)
      ensures Valid() && fresh(slots) && this.eq == eq
      ensures Model() == EmptyTable() && Elems() == {}
    {
      this.eq := eq;
      slots := new Slot<V>[MINSIZE](_ => Empty);
      mask := MINSIZE - 1;
      fill := 0;
      used := 0;
      new;
      assert slots[..] == Blank<V>(MINSIZE);
      EmptyCorrect(eq);
    }

    /** The probe loop of `insert_clean`: the first empty slot on the path of `h`. */
    method FreeSlot(h: int) returns (entry: nat)
      requires slots.Length == mask + 1 && IsPow2(slots.Length) && HasEmpty(slots[..])
      ensures entry == Visit(h, slots.Length, Stop(slots[..], h))
    {
      hide At, Unbroken, Walking, Visit, IsStop, IsPow2, HasEmpty, Jump, Home, Unsigned;
      ghost var s := slots[..];
      ghost var n := Stop(s, h);
      ghost var t: nat := 0;
      var perturb: nat := Unsigned(h);
      var i: nat := Home(h, mask + 1);
      entry := i;
      WalkStart(s, h);
      label probing: while true
        invariant i < |s| && t <= n && Walking(s, h, t, Cursor(i, 0, perturb))
        decreases n - t
      {
        ghost var t0 := t;
        entry := i;
        if slots[i].Empty? {
          break probing;
        }
        WalkStep(s, h, t, Cursor(i, 0, perturb));
        if i + LINEAR_PROBES <= mask {
          for k := 0 to LINEAR_PROBES
            invariant entry == i + k && t0 <= t < n && Walking(s, h, t, Cursor(i, k, perturb))
            invariant Walking(s, h, t + 1, Advance(Cursor(i, k, perturb), |s|))
          {
            t := t + 1;
            entry := entry + 1;
            if slots[entry].Empty? {
              break probing;
            }
            WalkStep(s, h, t, Cursor(i, k + 1, perturb));
          }
        }
        t := t + 1;
        perturb := perturb / PERTURB_FACTOR;
        i := Jump(i, perturb, mask + 1);
      }
      WalkEnd(s, h, t, Cursor(i, entry - i, perturb));
    }

    method InsertClean(e: Entry<V>)
      requires slots.Length == mask + 1 && IsPow2(slots.Length) && HasEmpty(slots[..])
      modifies slots
      ensures slots[..] == Place(old(slots[..]), e)
    {
      var entry := FreeSlot(e.hash);
      slots[entry] := Active(e);
    }

    /** The smallest power-of-two multiple of `MINSIZE` above `minused`. */
    method Capacity(minused: nat) returns (newsize: nat)
      ensures newsize == NewSize(minused)
    {
      newsize := MINSIZE;
      while newsize <= minused
        invariant newsize > 0 && Grow(newsize, minused) == NewSize(minused)
        decreases minused - newsize
      {
        newsize := newsize * 2;
      }
    }

    method InsertCleanAll(es: seq<Entry<V>>)
      requires slots.Length == mask + 1 && IsPow2(slots.Length) && Filled(slots[..]) + |es| < slots.Length
      modifies slots
      ensures slots[..] == PlaceAll(old(slots[..]), es)
    {
      ghost var s := slots[..];
      for k := 0 to |es|
        invariant slots[..] == PlaceAll(s, es[..k])
      {
        FilledRoom(slots[..]);
        assert es[..k + 1][..k] == es[..k];
        InsertClean(es[k]);
      }
      assert es[..|es|] == es;
    }

    method Resize(minused: nat)
      requires slots.Length == mask + 1 && |Actives(slots[..])| <= minused
      modifies this
      ensures slots.Length == mask + 1 && fresh(slots)
      ensures Model() == TableModel.Resize(old(Model()), minused)
    {
      var newsize := Capacity(minused);
      var actives := IterOrdered();
      NewSizePow2(minused);
      BlankFilled<V>(newsize);
      slots := new Slot<V>[newsize](_ => Empty);
      mask := newsize - 1;
      fill := |actives|;
      used := |actives|;
      assert slots[..] == Blank<V>(newsize);
      InsertCleanAll(actives);
    }

    /** The active entries in iteration order. */
    method IterOrdered() returns (es: seq<Entry<V>>)
      ensures es == Actives(slots[..])
    {
      es := [];
      ghost var s := slots[..];
      for k := 0 to slots.Length
        invariant es == Actives(s[..k])
      {
        ActivesPrefix(s, k);
        if slots[k].Active? {
          es := es + [slots[k].entry];
        }
      }
      assert s[..slots.Length] == s;
    }

    method MaybeResize()
      requires slots.Length == mask + 1 && used == |Actives(slots[..])|
      modifies this
      ensures slots.Length == mask + 1 && (slots == old(slots) || fresh(slots))
      ensures Model() == TableModel.MaybeResize(old(Model()))
    {
      if fill * 5 < mask * 3 {
        return;
      }
      var minused := if used > 50000 then used * 2 else used * 4;
      Resize(minused);
    }

    /** The scan of `add`: where `e` is, or else the free slots it met. */
    method ScanForAdd(e: Entry<V>) returns (found: bool, entry: nat, freeslot: Option<nat>)
      requires slots.Length == mask + 1 && IsPow2(slots.Length) && HasEmpty(slots[..])
      ensures found <==> Hit(eq, slots[..], e, Stop(slots[..], e.hash)).Some?
      ensures !found ==> entry == Visit(e.hash, slots.Length, Stop(slots[..], e.hash))
      ensures !found ==> freeslot == LastDummy(slots[..], e.hash, Stop(slots[..], e.hash))
    {
      hide At, Hit, LastDummy, Unbroken, Scanning, Visit, IsStop, IsPow2, HasEmpty, Jump, Home, Unsigned;
      ghost var s := slots[..];
      ghost var n := Stop(s, e.hash);
      ghost var t: nat := 0;
      var perturb: nat := Unsigned(e.hash);
      var i: nat := Home(e.hash, mask + 1);
      entry := i;
      freeslot := None;
      ScanStart(eq, s, e);
      while true
        invariant i < |s| && t <= n && Scanning(eq, s, e, t, Cursor(i, 0, perturb), freeslot)
        decreases n - t
      {
        ghost var t0 := t;
        var p: nat := if i + LINEAR_PROBES <= mask then LINEAR_PROBES else 0;
        entry := i;
        while true
          invariant i <= entry < |s| && p + (entry - i) == Span(i, |s|)
          invariant t0 <= t <= n && Scanning(eq, s, e, t, Cursor(i, entry - i, perturb), freeslot)
          decreases n - t
        {
          ghost var c, was := Cursor(i, entry - i, perturb), freeslot;
          var x := slots[entry];
          assert x == s[c.Slot()];
          if x.Empty? {
            ScanEnd(eq, s, e, t, c, was);
            return false, entry, freeslot;
          } else if x.Active? && Same(eq, x.entry, e) {
            ScanHit(eq, s, e, t, c, was);
            return true, entry, freeslot;
          } else if x.Dummy? {
            freeslot := Some(entry);
          }
          ScanStep(eq, s, e, t, c, was);
          t := t + 1;
          if p == 0 {
            break;
          }
          entry := entry + 1;
          p := p - 1;
        }
        perturb := perturb / PERTURB_FACTOR;
        i := Jump(i, perturb, mask + 1);
      }
    }

    /** The stores of `add`, on any table that has room to probe. */
    method AddEntry(e: Entry<V>)
      requires slots.Length == mask + 1 && Usable(Model())
      modifies this, slots
      ensures slots.Length == mask + 1 && (slots == old(slots) || fresh(slots))
      ensures Model() == TableModel.Add(eq, old(Model()), e)
    {
      var found, entry, freeslot := ScanForAdd(e);
      if !found {
        if freeslot.Some? {
          slots[freeslot.value] := Active(e);
          used := used + 1;
        } else {
          PlaceActives(slots[..], e);
          slots[entry] := Active(e);
          fill := fill + 1;
          used := used + 1;
          MaybeResize();
        }
      }
    }

    method Add(e: Entry<V>)
      requires Valid()
      modifies this, slots
      ensures Valid() && (slots == old(slots) || fresh(slots))
      ensures Model() == TableModel.Add(eq, old(Model()), e)
      ensures Added(eq, old(Model()), e, Model())
      ensures Elems() == Insert(eq, old(Elems()), e)
    {
      hide Added;
      AddCorrect(eq, Model(), e);
      AddExactly(eq, Model(), e);
      AddEntry(e);
    }

    /** The scan of `contains` and `discard`: the slot that holds `e`, if any. */
    method Lookup(e: Entry<V>) returns (hit: Option<nat>)
      requires slots.Length == mask + 1 && IsPow2(slots.Length) && HasEmpty(slots[..])
      ensures hit == Hit(eq, slots[..], e, Stop(slots[..], e.hash))
    {
      hide At, Hit, LastDummy, Unbroken, Scanning, Visit, IsStop, IsPow2, HasEmpty, Jump, Home, Unsigned;
      ghost var s := slots[..];
      ghost var n := Stop(s, e.hash);
      ghost var t: nat, free: Option<nat> := 0, None;
      var perturb: nat := Unsigned(e.hash);
      var i: nat := Home(e.hash, mask + 1);
      ScanStart(eq, s, e);
      while true
        invariant i < |s| && t <= n && Scanning(eq, s, e, t, Cursor(i, 0, perturb), free)
        decreases n - t
      {
        ghost var t0 := t;
        var p: nat := if i + LINEAR_PROBES <= mask then LINEAR_PROBES else 0;
        var entry: nat := i;
        while true
          invariant i <= entry < |s| && p + (entry - i) == Span(i, |s|)
          invariant t0 <= t <= n && Scanning(eq, s, e, t, Cursor(i, entry - i, perturb), free)
          decreases n - t
        {
          ghost var c := Cursor(i, entry - i, perturb);
          var x := slots[entry];
          assert x == s[c.Slot()];
          if x.Empty? {
            ScanEnd(eq, s, e, t, c, free);
            return None;
          } else if x.Active? && Same(eq, x.entry, e) {
            ScanHit(eq, s, e, t, c, free);
            return Some(entry);
          }
          ScanStep(eq, s, e, t, c, free);
          t, free := t + 1, if x.Dummy? then Some(entry) else free;
          if p == 0 {
            break;
          }
          entry := entry + 1;
          p := p - 1;
        }
        perturb := perturb / PERTURB_FACTOR;
        i := Jump(i, perturb, mask + 1);
      }
    }

    /** Membership by hash and equality. */
    method Contains(e: Entry<V>) returns (r: bool)
      requires Valid()
      ensures r == TableModel.Contains(eq, Model(), e)
      ensures r <==> Member(eq, Elems(), e)
    {
      ContainsIsMember(eq, Model(), e);
      var hit := Lookup(e);
      r := hit.Some?;
    }

    method Discard(e: Entry<V>) returns (removed: bool)
      requires Valid()
      modifies this, slots
      ensures Valid() && slots == old(slots)
      ensures Model() == TableModel.Discard(eq, old(Model()), e)
      ensures Discarded(eq, old(Model()), e, Model())
      ensures Elems() == Remove(eq, old(Elems()), e)
      ensures removed == TableModel.Contains(eq, old(Model()), e)
      ensures removed <==> Member(eq, old(Elems()), e)
    {
      hide Discarded;
      ghost var m := Model();
      DiscardExactly(eq, m, e);
      var hit := Lookup(e);
      removed := hit.Some?;
      if hit.Some? {
        HitMatches(eq, slots[..], e, Stop(slots[..], e.hash));
        ActivesOfSlot(slots[..], hit.value);
        slots[hit.value] := Dummy;
        used := used - 1;
      }
      assert Model() == TableModel.Discard(eq, m, e);
      DiscardCorrect(eq, m, e);
    }

    /** `set.pop`: removes the first element in slot order. */
    method Pop() returns (r: Option<Entry<V>>)
      requires Valid()
      modifies this, slots
      ensures Valid() && slots == old(slots)
      ensures Model() == PopFirst(old(Model()))
      ensures r.None? <==> old(Elems()) == {}
      ensures r.Some? ==> r.value == Actives(old(slots[..]))[0] && Elems() == old(Elems()) - {r.value}
    {
      hide Inv, Contents, Actives, Filled;
      ghost var m := Model();
      PopCorrect(eq, m);
      r := None;
      for i := 0 to slots.Length
        invariant Model() == m && slots == old(slots)
        invariant FirstActive(m.slots, 0) == FirstActive(m.slots, i)
      {
        if slots[i].Active? {
          FirstIsFirst(m.slots, i);
          ActivesOfSlot(m.slots, i);
          r := Some(slots[i].entry);
          slots[i] := Dummy;
          used := used - 1;
          assert Model() == PopFirst(m);
          return;
        }
      }
      NoneActive(m.slots);
    }

    method CompactIfSparse()
      requires Valid()
      modifies this
      ensures Valid() && (slots == old(slots) || fresh(slots))
      ensures Model() == Compact(old(Model()))
      ensures if old(fill - used > mask / 4) then Rehashed(old(slots[..]), Model(), Wanted(old(used))) else Model() == old(Model())
      ensures Elems() == old(Elems())
    {
      hide Rehashed;
      CompactCorrect(eq, Model());
      CompactExactly(Model());
      FillCoversUsed(slots[..]);
      if fill - used > mask / 4 {
        var minused := if used > 50000 then used * 2 else used * 4;
        Resize(minused);
      }
    }

    /** The presizing step of `merge`. */
    method Reserve(extra: nat)
      requires slots.Length == mask + 1 && used == |Actives(slots[..])|
      modifies this
      ensures slots.Length == mask + 1 && (slots == old(slots) || fresh(slots))
      ensures Model() == Presize(old(Model()), extra)
    {
      if (fill + extra) * 5 >= mask * 3 {
        Resize((used + extra) * 2);
      }
    }

    /** The slot-for-slot copy of `merge`. */
    method CopySlots(other: SetTable<V>)
      requires slots.Length == other.slots.Length && other != this && other.slots != slots
      requires Filled(slots[..]) == 0 && |Actives(other.slots[..])| == Filled(other.slots[..])
      modifies slots
      ensures slots[..] == other.slots[..]
    {
      NothingFilled(slots[..]);
      FillCoversUsed(other.slots[..]);
      ghost var s, o := slots[..], other.slots[..];
      for i := 0 to other.slots.Length
        invariant forall j :: 0 <= j < i ==> slots[j] == o[j]
        invariant forall j :: i <= j < |o| ==> slots[j] == s[j]
      {
        if other.slots[i].Active? {
          slots[i] := other.slots[i];
        } else {
          assert o[i].Empty? && s[i].Empty?;
        }
      }
    }

    /** One step of `&` and `-`: add `e` if its membership in `b` is `wanted`. */
    method AddIf(e: Entry<V>, b: SetTable<V>, wanted: bool) returns (c: bool)
      requires Valid() && b.Valid() && b != this && b.slots != slots
      modifies this, slots
      ensures Valid() && (slots == old(slots) || fresh(slots))
      ensures c == TableModel.Contains(b.eq, b.Model(), e)
      ensures Model() == if c == wanted then TableModel.Add(eq, old(Model()), e) else old(Model())
    {
      c := b.Contains(e);
      if c == wanted {
        Add(e);
      }
    }

    /** The loop of `&` and `-` over the entries of one operand. */
    method KeepEach(es: seq<Entry<V>>, b: SetTable<V>, wanted: bool)
      requires Valid() && b.Valid() && b.eq == eq && b != this && b.slots != slots
      modifies this, slots
      ensures Valid() && (slots == old(slots) || fresh(slots))
      ensures Model() == AddAll(eq, old(Model()), Keep(eq, es, b.Model(), wanted))
    {
      hide Inv;
      ghost var m, bm := Model(), b.Model();
      for k := 0 to |es|
        invariant Valid() && (slots == old(slots) || fresh(slots))
        invariant Model() == AddAll(eq, m, Keep(eq, es[..k], bm, wanted))
      {
        KeepStep(eq, m, es, k, bm, wanted);
        var _ := AddIf(es[k], b, wanted);
      }
      assert es[..|es|] == es;
    }

    method AddEach(es: seq<Entry<V>>)
      requires Valid()
      modifies this, slots
      ensures Valid() && (slots == old(slots) || fresh(slots))
      ensures Model() == AddAll(eq, old(Model()), es)
    {
      ghost var m := Model();
      for k := 0 to |es|
        invariant Valid() && (slots == old(slots) || fresh(slots))
        invariant Model() == AddAll(eq, m, es[..k])
      {
        assert es[..k + 1][..k] == es[..k];
        Add(es[k]);
      }
      assert es[..|es|] == es;
    }

    method DiscardEach(es: seq<Entry<V>>)
      requires Valid()
      modifies this, slots
      ensures Valid() && slots == old(slots)
      ensures Model() == DiscardAll(eq, old(Model()), es)
    {
      ghost var m := Model();
      for k := 0 to |es|
        invariant Valid() && slots == old(slots)
        invariant Model() == DiscardAll(eq, m, es[..k])
      {
        assert es[..k + 1][..k] == es[..k];
        var _ := Discard(es[k]);
      }
      assert es[..|es|] == es;
    }

    /** The loop of `^`: discard each entry, add those that were not there. */
    method ToggleEach(es: seq<Entry<V>>)
      requires Valid()
      modifies this, slots
      ensures Valid() && (slots == old(slots) || fresh(slots))
      ensures Model() == ToggleAll(eq, old(Model()), es)
    {
      ghost var m := Model();
      for k := 0 to |es|
        invariant Valid() && (slots == old(slots) || fresh(slots))
        invariant Model() == ToggleAll(eq, m, es[..k])
      {
        assert es[..k + 1][..k] == es[..k];
        var removed := Discard(es[k]);
        if !removed {
          Add(es[k]);
        }
      }
      assert es[..|es|] == es;
    }

    /** `set_merge`: presize, then slot copy, clean insert or ordinary add. */
    method Merge(other: SetTable<V>)
      requires Valid() && other.Valid() && other.eq == eq && other != this && other.slots != slots
      modifies this, slots
      ensures Valid() && (slots == old(slots) || fresh(slots))
      ensures Model() == TableAlgebra.Merge(eq, old(Model()), other.Model())
      ensures exists p :: Presized(old(Model()), other.used, p) && Merged(eq, p, other.Model(), Model())
      ensures Elems() == UnionOf(eq, old(Elems()), other.Elems())
    {
      hide Presized, Merged;
      ghost var p := MergeExactly(eq, Model(), other.Model());
      MergeByPath(other);
    }

    method MergeByPath(other: SetTable<V>)
      requires Valid() && other.Valid() && other.eq == eq && other != this && other.slots != slots
      modifies this, slots
      ensures Valid() && (slots == old(slots) || fresh(slots))
      ensures Model() == TableAlgebra.Merge(eq, old(Model()), other.Model())
      ensures Elems() == UnionOf(eq, old(Elems()), other.Elems())
    {
      ghost var m, o := Model(), other.Model();
      PresizeCorrect(eq, m, other.used);
      Reserve(other.used);
      if fill == 0 {
        FillEmpty(other);
      } else {
        var es := other.IterOrdered();
        AddEach(es);
      }
      assert Model() == TableAlgebra.Merge(eq, m, o);
      MergeCorrect(eq, m, o);
    }

    /** The two paths of `merge` into a table that holds nothing. */
    method FillEmpty(other: SetTable<V>)
      requires Valid() && other.Valid() && other.eq == eq && other != this && other.slots != slots
      requires fill == 0 && 5 * other.used < 3 * mask
      modifies this, slots
      ensures slots == old(slots) && slots.Length == mask + 1 && fill == used == other.used
      ensures slots[..] == if mask == other.mask && other.fill == other.used then other.slots[..]
                           else PlaceAll(old(slots[..]), Actives(other.slots[..]))
    {
      if mask == other.mask && other.fill == other.used {
        CopySlots(other);
        fill := other.fill;
        used := other.used;
      } else {
        var es := other.IterOrdered();
        fill := other.used;
        used := other.used;
        InsertCleanAll(es);
      }
    }
  }

  // ---------- operators ----------

  /** `table_from_incremental`. */
  method FromIncremental<V(!new)>(eq: (V, V) -> bool, items: seq<Entry<V>>) returns (r: SetTable<V>)
    requires Equivalence(eq)
    ensures fresh(r) && fresh(r.slots) && r.Valid() && r.eq == eq
    ensures r.Model() == FromList(eq, items)
    ensures exists start, ts :: Fresh(start) && AddedInTurn(eq, start, items, r.Model(), ts)
  {
    hide AddedInTurn, Fresh;
    ghost var start, ts := FromListInTurn(eq, items);
    r := new SetTable(eq);
    r.AddEach(items);
  }

  method CopyOf<V(!new)>(a: SetTable<V>) returns (r: SetTable<V>)
    requires a.Valid()
    ensures fresh(r) && fresh(r.slots) && r.Valid() && r.eq == a.eq
    ensures r.Model() == Copy(a.eq, a.Model())
    ensures r.Elems() == a.Elems()
  {
    r := new SetTable(a.eq);
    r.Merge(a);
  }

  method UnionTables<V(!new)>(a: SetTable<V>, b: SetTable<V>) returns (r: SetTable<V>)
    requires a.Valid() && b.Valid() && a.eq == b.eq
    ensures fresh(r) && fresh(r.slots) && r.Valid() && r.eq == a.eq
    ensures r.Model() == Union(a.eq, a.Model(), b.Model())
    ensures r.Elems() == UnionOf(a.eq, a.Elems(), b.Elems())
  {
    r := CopyOf(a);
    r.Merge(b);
  }

  lemma KeepStep<V(!new)>(eq: (V, V) -> bool, m: Table<V>, es: seq<Entry<V>>, k: nat, t: Table<V>, wanted: bool)
    requires Inv(eq, m) && Inv(eq, t) && k < |es|
    ensures AddAll(eq, m, Keep(eq, es[..k + 1], t, wanted))
            == var r := AddAll(eq, m, Keep(eq, es[..k], t, wanted));
               if TableModel.Contains(eq, t, es[k]) == wanted then TableModel.Add(eq, r, es[k]) else r
  {
    assert es[..k + 1][..k] == es[..k];
    var kept := Keep(eq, es[..k], t, wanted);
    assert (kept + [es[k]])[..|kept|] == kept;
  }

  /** The entries of `es` whose membership in `b` is `wanted`, added to a new table. */
  method KeepInto<V(!new)>(es: seq<Entry<V>>, b: SetTable<V>, wanted: bool) returns (r: SetTable<V>)
    requires b.Valid()
    ensures fresh(r) && fresh(r.slots) && r.Valid() && r.eq == b.eq
    ensures r.Model() == FromList(b.eq, Keep(b.eq, es, b.Model(), wanted))
  {
    r := new SetTable(b.eq);
    r.KeepEach(es, b, wanted);
  }

  method IntersectTables<V(!new)>(a: SetTable<V>, b: SetTable<V>) returns (r: SetTable<V>)
    requires a.Valid() && b.Valid() && a.eq == b.eq
    ensures fresh(r) && fresh(r.slots) && r.Valid() && r.eq == a.eq
    ensures r.Model() == Intersection(a.eq, a.Model(), b.Model())
    ensures forall x :: Member(a.eq, r.Elems(), x) <==> Member(a.eq, a.Elems(), x) && Member(a.eq, b.Elems(), x)
  {
    if a.used >= b.used {
      var es := b.IterOrdered();
      r := KeepInto(es, a, true);
    } else {
      var es := a.IterOrdered();
      r := KeepInto(es, b, true);
    }
    forall x ensures Member(a.eq, r.Elems(), x) <==> Member(a.eq, a.Elems(), x) && Member(a.eq, b.Elems(), x) {
      IntersectionMembers(a.eq, a.Model(), b.Model(), x);
    }
  }

  /** `a -= b`. */
  method DifferenceUpdateTable<V(!new)>(a: SetTable<V>, b: SetTable<V>)
    requires a.Valid() && b.Valid() && a.eq == b.eq && a != b && a.slots != b.slots
    modifies a, a.slots
    ensures a.Valid() && (a.slots == old(a.slots) || fresh(a.slots))
    ensures a.Model() == DifferenceUpdate(a.eq, old(a.Model()), b.Model())
    ensures a.Elems() == Restrict(a.eq, old(a.Elems()), b.Elems(), false)
  {
    ghost var m := a.Model();
    var removals := b.IterOrdered();
    a.DiscardEach(removals);
    a.CompactIfSparse();
    DifferenceUpdateCorrect(a.eq, m, b.Model());
  }

  method DifferenceTables<V(!new)>(a: SetTable<V>, b: SetTable<V>) returns (r: SetTable<V>)
    requires a.Valid() && b.Valid() && a.eq == b.eq
    ensures fresh(r) && fresh(r.slots) && r.Valid() && r.eq == a.eq
    ensures r.Model() == Difference(a.eq, a.Model(), b.Model())
    ensures r.Elems() == Restrict(a.eq, a.Elems(), b.Elems(), false)
  {
    hide Restrict, Keep, Inv;
    if a.used / 4 > b.used {
      r := CopyOf(a);
      DifferenceUpdateTable(r, b);
    } else {
      var es := a.IterOrdered();
      r := KeepInto(es, b, false);
      DifferenceCorrect(a.eq, a.Model(), b.Model());
    }
  }

  method SymmetricDifferenceTables<V(!new)>(a: SetTable<V>, b: SetTable<V>) returns (r: SetTable<V>)
    requires a.Valid() && b.Valid() && a.eq == b.eq
    ensures fresh(r) && fresh(r.slots) && r.Valid() && r.eq == a.eq
    ensures r.Model() == SymmetricDifference(a.eq, a.Model(), b.Model())
    ensures r.Elems() == Restrict(a.eq, b.Elems(), a.Elems(), false) + Restrict(a.eq, a.Elems(), b.Elems(), false)
  {
    hide Restrict, Inv;
    r := CopyOf(b);
    var toggles := a.IterOrdered();
    r.ToggleEach(toggles);
    SymmetricDifferenceCorrect(a.eq, a.Model(), b.Model());
  }

  method ConstantLiteralTable<V(!new)>(eq: (V, V) -> bool, items: seq<Entry<V>>) returns (r: SetTable<V>)
    requires Equivalence(eq)
    ensures fresh(r) && fresh(r.slots) && r.Valid() && r.eq == eq
    ensures r.Model() == ConstantLiteral(eq, items)
    ensures forall x :: Member(eq, r.Elems(), x) <==> Member(eq, Elements(items), x)
  {
    var fs1 := FromIncremental(eq, items);
    var order := fs1.IterOrdered();
    var konst := FromIncremental(eq, order);
    r := CopyOf(konst);
    forall x ensures Member(eq, r.Elems(), x) <==> Member(eq, Elements(items), x) {
      ConstantLiteralMembers(eq, items, x);
    }
  }

  /** After `t` probes: no empty slot so far. */
  ghost predicate Walking<V>(s: seq<Slot<V>>, h: int, t: nat, c: Cursor)
    requires |s| > 0
  {
    At(h, |s|, t) == c && Unbroken(s, h, t)
  }

  lemma WalkStart<V>(s: seq<Slot<V>>, h: int)
    requires |s| > 0
    ensures Walking(s, h, 0, Cursor(Home(h, |s|), 0, Unsigned(h)))
  {
  }

  lemma WalkEnd<V>(s: seq<Slot<V>>, h: int, t: nat, c: Cursor)
    requires IsPow2(|s|) && HasEmpty(s) && Walking(s, h, t, c) && c.Slot() < |s| && s[c.Slot()].Empty?
    ensures t == Stop(s, h) && Visit(h, |s|, t) == c.Slot()
  {
    assert Visit(h, |s|, t) == c.Slot();
    StopUnique(s, h, t);
  }

  lemma WalkStep<V>(s: seq<Slot<V>>, h: int, t: nat, c: Cursor)
    requires IsPow2(|s|) && HasEmpty(s) && t <= Stop(s, h) && Walking(s, h, t, c)
    requires c.Slot() < |s| && !s[c.Slot()].Empty?
    ensures t < Stop(s, h) && Walking(s, h, t + 1, Advance(c, |s|))
  {
    assert Visit(h, |s|, t) == c.Slot();
  }

  /** After `t` probes for `e`: no match, no empty slot, and the last tombstone met. */
  ghost predicate Scanning<V>(eq: (V, V) -> bool, s: seq<Slot<V>>, e: Entry<V>, t: nat, c: Cursor, free: Option<nat>)
    requires |s| > 0
    ensures Scanning(eq, s, e, t, c, free) ==> c.Slot() < |s|
  {
    && At(e.hash, |s|, t) == c
    && Unbroken(s, e.hash, t)
    && Hit(eq, s, e, t).None?
    && free == LastDummy(s, e.hash, t)
  }

  lemma ScanStart<V>(eq: (V, V) -> bool, s: seq<Slot<V>>, e: Entry<V>)
    requires |s| > 0
    ensures Scanning(eq, s, e, 0, Cursor(Home(e.hash, |s|), 0, Unsigned(e.hash)), None)
  {
  }

  lemma ScanEnd<V>(eq: (V, V) -> bool, s: seq<Slot<V>>, e: Entry<V>, t: nat, c: Cursor, free: Option<nat>)
    requires IsPow2(|s|) && HasEmpty(s) && Scanning(eq, s, e, t, c, free) && s[c.Slot()].Empty?
    ensures var n := Stop(s, e.hash);
            && n == t && Hit(eq, s, e, n).None? && LastDummy(s, e.hash, n) == free && Visit(e.hash, |s|, n) == c.Slot()
  {
    assert Visit(e.hash, |s|, t) == c.Slot();
    StopUnique(s, e.hash, t);
  }

  lemma ScanHit<V>(eq: (V, V) -> bool, s: seq<Slot<V>>, e: Entry<V>, t: nat, c: Cursor, free: Option<nat>)
    requires IsPow2(|s|) && HasEmpty(s) && t <= Stop(s, e.hash) && Scanning(eq, s, e, t, c, free)
    requires s[c.Slot()].Active? && Same(eq, s[c.Slot()].entry, e)
    ensures Hit(eq, s, e, Stop(s, e.hash)) == Some(c.Slot())
  {
    var n := Stop(s, e.hash);
    assert Visit(e.hash, |s|, t) == c.Slot();
    HitLater(eq, s, e, t, n);
  }

  lemma ScanStep<V>(eq: (V, V) -> bool, s: seq<Slot<V>>, e: Entry<V>, t: nat, c: Cursor, free: Option<nat>)
    requires IsPow2(|s|) && HasEmpty(s) && t <= Stop(s, e.hash) && Scanning(eq, s, e, t, c, free)
    requires !s[c.Slot()].Empty? && (s[c.Slot()].Active? ==> !Same(eq, s[c.Slot()].entry, e))
    ensures t < Stop(s, e.hash)
    ensures Scanning(eq, s, e, t + 1, Advance(c, |s|), if s[c.Slot()].Dummy? then Some(c.Slot()) else free)
  {
    assert Visit(e.hash, |s|, t) == c.Slot();
  }

  /** A match found at step `t` is the hit of the whole probe. */
  lemma {:induction false} HitLater<V>(eq: (V, V) -> bool, s: seq<Slot<V>>, e: Entry<V>, t: nat, n: nat)
    requires |s| > 0 && t < n && Hit(eq, s, e, t).None? && Match(eq, s, e, t)
    ensures Hit(eq, s, e, n) == Some(Visit(e.hash, |s|, t))
  {
    if n > t + 1 {
      HitLater(eq, s, e, t, n - 1);
    }
  }
}
