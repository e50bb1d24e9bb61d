/**
 What the layouts of `TableModel` mean: every operation keeps the table invariant
 and acts on the stored elements as the corresponding set operation.
 */
module TableCorrect {
  import opened Probe
  import opened TableModel
  import opened Prelude

  // ---------- probing decides membership ----------

  lemma {:induction false} HitComplete<V>(eq: (V, V) -> bool, s: seq<Slot<V>>, e: Entry<V>, n: nat)
    requires |s| > 0
    ensures Hit(eq, s, e, n).None? <==> forall u: nat :: u < n ==> !Match(eq, s, e, u)
  {
    if n > 0 {
      HitComplete(eq, s, e, n - 1);
    }
  }

  /** A probe that meets no match before the first empty slot proves absence. */
  lemma AbsentIfNoHit<V>(eq: (V, V) -> bool, s: seq<Slot<V>>, e: Entry<V>, n: nat)
    requires |s| > 0 && WellPlaced(s) && IsStop(s, e.hash, n)
    requires Hit(eq, s, e, n).None?
    ensures !Member(eq, Contents(s), e)
  {
    HitComplete(eq, s, e, n);
    if Member(eq, Contents(s), e) {
      var x :| x in Contents(s) && Same(eq, x, e);
      var i :| 0 <= i < |s| && s[i].Active? && s[i].entry == x;
      assert Locatable(s, i);
      var t: nat :| Visit(e.hash, |s|, t) == i && Unbroken(s, e.hash, t);
      assert t < n;
      assert Match(eq, s, e, t);
      assert false;
    }
  }

  lemma PresentIfHit<V>(eq: (V, V) -> bool, s: seq<Slot<V>>, e: Entry<V>, n: nat)
    requires |s| > 0 && Hit(eq, s, e, n).Some?
    ensures Member(eq, Contents(s), e)
  {
    HitMatches(eq, s, e, n);
    var i := Hit(eq, s, e, n).value;
    assert s[i].entry in Contents(s);
  }

  /** `contains` is membership. */
  lemma ContainsIsMember<V(!new)>(eq: (V, V) -> bool, t: Table<V>, e: Entry<V>)
    requires Inv(eq, t)
    ensures Contains(eq, t, e) <==> Member(eq, Contents(t.slots), e)
  {
    var n := Stop(t.slots, e.hash);
    if Hit(eq, t.slots, e, n).Some? {
      PresentIfHit(eq, t.slots, e, n);
    } else {
      AbsentIfNoHit(eq, t.slots, e, n);
    }
  }

  // ---------- writing one slot ----------

  /** Every non-empty slot of `s` is non-empty in `r`. */
  ghost predicate Covers<V>(s: seq<Slot<V>>, r: seq<Slot<V>>) {
    |s| == |r| && forall i :: 0 <= i < |s| && !s[i].Empty? ==> !r[i].Empty?
  }

  lemma LocatableStays<V>(s: seq<Slot<V>>, r: seq<Slot<V>>, i: nat)
    requires Covers(s, r) && i < |s| && s[i].Active? && r[i] == s[i] && Locatable(s, i)
    ensures Locatable(r, i)
  {
    var h := s[i].entry.hash;
    var t: nat :| Visit(h, |s|, t) == i && Unbroken(s, h, t);
    assert Visit(h, |r|, t) == i && Unbroken(r, h, t);
  }

  /** Storing an absent entry in a free slot on its own unbroken path. */
  lemma StoreKeepsLayout<V(!new)>(eq: (V, V) -> bool, s: seq<Slot<V>>, e: Entry<V>, u: nat)
    requires Equivalence(eq) && Layout(eq, s) && !Member(eq, Contents(s), e)
    requires Unbroken(s, e.hash, u) && !s[Visit(e.hash, |s|, u)].Active?
    ensures var r := s[Visit(e.hash, |s|, u) := Active(e)];
            Layout(eq, r) && Contents(r) == Contents(s) + {e}
  {
    var k := Visit(e.hash, |s|, u);
    var r := s[k := Active(e)];
    StoreContents(s, k, e);
    forall i | 0 <= i < |r| && r[i].Active? ensures Locatable(r, i) {
      if i == k {
        assert Visit(e.hash, |r|, u) == k && Unbroken(r, e.hash, u);
      } else {
        LocatableStays(s, r, i);
      }
    }
    assert forall x :: x in Contents(s) ==> !Same(eq, x, e) && !Same(eq, e, x);
    forall i, j | 0 <= i < j < |r| && r[i].Active? && r[j].Active? ensures !Same(eq, r[i].entry, r[j].entry) {
      assert i != k ==> r[i].entry in Contents(s);
      assert j != k ==> r[j].entry in Contents(s);
    }
  }

  lemma StoreContents<V>(s: seq<Slot<V>>, k: nat, e: Entry<V>)
    requires k < |s| && !s[k].Active?
    ensures Contents(s[k := Active(e)]) == Contents(s) + {e}
  {
    var r := s[k := Active(e)];
    assert r[k].entry in Contents(r);
    forall x | x in Contents(s) ensures x in Contents(r) {
      var i :| 0 <= i < |s| && s[i].Active? && s[i].entry == x;
      assert r[i].entry == x;
    }
  }

  /** Turning an active slot into a tombstone. */
  lemma EraseKeepsLayout<V(!new)>(eq: (V, V) -> bool, s: seq<Slot<V>>, k: nat, e: Entry<V>)
    requires Equivalence(eq) && Layout(eq, s)
    requires k < |s| && s[k].Active? && Same(eq, s[k].entry, e)
    ensures Layout(eq, s[k := Dummy])
    ensures Contents(s[k := Dummy]) == Remove(eq, Contents(s), e)
    ensures Remove(eq, Contents(s), e) == Contents(s) - {s[k].entry}
  {
    var r := s[k := Dummy];
    forall i | 0 <= i < |r| && r[i].Active? ensures Locatable(r, i) && !Same(eq, r[i].entry, e) {
      LocatableStays(s, r, i);
      OnlyOne(eq, s, k, i, e);
    }
    forall x | x in Contents(s) && x != s[k].entry ensures x in Contents(r) {
      var i :| 0 <= i < |s| && s[i].Active? && s[i].entry == x;
      assert r[i].entry == x;
    }
  }

  lemma OnlyOne<V(!new)>(eq: (V, V) -> bool, s: seq<Slot<V>>, k: nat, i: nat, e: Entry<V>)
    requires Equivalence(eq) && Unique(eq, s)
    requires k < |s| && i < |s| && i != k && s[k].Active? && s[i].Active? && Same(eq, s[k].entry, e)
    ensures !Same(eq, s[i].entry, e)
  {
    var x, y := s[i].entry, s[k].entry;
    assert Same(eq, x, e) ==> Same(eq, x, y) && Same(eq, y, x);
  }

  lemma {:induction false} DummyOnPath<V>(s: seq<Slot<V>>, h: int, n: nat)
    requires |s| > 0 && LastDummy(s, h, n).Some?
    ensures exists u: nat :: u < n && Visit(h, |s|, u) == LastDummy(s, h, n).value
  {
    if s[Visit(h, |s|, n - 1)].Dummy? {
    } else {
      DummyOnPath(s, h, n - 1);
    }
  }

  /** The tombstone that `add` reuses is the last one met before the empty slot. */
  lemma {:induction false} ReusedDummyIsLast<V>(s: seq<Slot<V>>, h: int, n: nat)
    requires |s| > 0
    ensures LastDummy(s, h, n).None? ==> forall u: nat :: u < n ==> !s[Visit(h, |s|, u)].Dummy?
    ensures LastDummy(s, h, n).Some? ==>
              exists u: nat :: u < n && Visit(h, |s|, u) == LastDummy(s, h, n).value && NoDummyBetween(s, h, u + 1, n)
  {
    if n > 0 {
      ReusedDummyIsLast(s, h, n - 1);
      if s[Visit(h, |s|, n - 1)].Dummy? {
        assert NoDummyBetween(s, h, n, n);
      } else if LastDummy(s, h, n).Some? {
        var u: nat :| u < n - 1 && Visit(h, |s|, u) == LastDummy(s, h, n - 1).value && NoDummyBetween(s, h, u + 1, n - 1);
        assert NoDummyBetween(s, h, u + 1, n);
      }
    }
  }

  ghost predicate NoDummyBetween<V>(s: seq<Slot<V>>, h: int, lo: nat, hi: nat)
    requires |s| > 0
  {
    forall v: nat :: lo <= v < hi ==> !s[Visit(h, |s|, v)].Dummy?
  }

  // ---------- entries in slot order ----------

  ghost function Elements<V>(es: seq<Entry<V>>): set<Entry<V>> {
    set x | x in es
  }

  ghost predicate Distinct<V>(eq: (V, V) -> bool, es: seq<Entry<V>>) {
    forall i, j :: 0 <= i < j < |es| ==> !Same(eq, es[i], es[j])
  }

  lemma {:induction false} ActivesAreContents<V>(s: seq<Slot<V>>)
    ensures Elements(Actives(s)) == Contents(s)
  {
    if s != [] {
      var n := |s| - 1;
      ActivesAreContents(s[..n]);
      assert Contents(s) == Contents(s[..n]) + Elements(One(s[n])) by {
        forall x | x in Contents(s) ensures x in Contents(s[..n]) + Elements(One(s[n])) {
          var i :| 0 <= i < |s| && s[i].Active? && s[i].entry == x;
          if i < n {
            assert s[..n][i].entry == x;
          }
        }
        forall x | x in Contents(s[..n]) ensures x in Contents(s) {
          var i :| 0 <= i < n && s[..n][i].Active? && s[..n][i].entry == x;
          assert s[i].entry == x;
        }
      }
    }
  }

  lemma {:induction false} ActivesDistinct<V>(eq: (V, V) -> bool, s: seq<Slot<V>>)
    requires Unique(eq, s)
    ensures Distinct(eq, Actives(s))
  {
    if s != [] {
      var n := |s| - 1;
      ActivesDistinct(eq, s[..n]);
      ActivesAreContents(s[..n]);
      if s[n].Active? {
        forall x | x in Actives(s[..n]) ensures !Same(eq, x, s[n].entry) {
          assert x in Contents(s[..n]);
          var i :| 0 <= i < n && s[..n][i].Active? && s[..n][i].entry == x;
          assert s[i].entry == x;
        }
      }
    }
  }

  // ---------- rehashing ----------

  lemma LastIsNew<V>(eq: (V, V) -> bool, S: set<Entry<V>>, es: seq<Entry<V>>)
    requires es != [] && Distinct(eq, es) && !Member(eq, S, es[|es| - 1])
    ensures !Member(eq, S + Elements(es[..|es| - 1]), es[|es| - 1])
    ensures Elements(es) == Elements(es[..|es| - 1]) + {es[|es| - 1]}
  {
    var n := |es| - 1;
    forall x | x in Elements(es[..n]) ensures !Same(eq, x, es[n]) {
      var i :| 0 <= i < n && es[i] == x;
    }
    assert es == es[..n] + [es[n]];
  }

  ghost predicate AllAbsent<V>(eq: (V, V) -> bool, S: set<Entry<V>>, es: seq<Entry<V>>) {
    forall x :: x in es ==> !Member(eq, S, x)
  }

  lemma PlaceCorrect<V(!new)>(eq: (V, V) -> bool, s: seq<Slot<V>>, e: Entry<V>)
    requires Equivalence(eq) && Layout(eq, s) && HasEmpty(s) && !Member(eq, Contents(s), e)
    ensures Layout(eq, Place(s, e))
    ensures Contents(Place(s, e)) == Contents(s) + {e}
    ensures |Actives(Place(s, e))| == |Actives(s)| + 1
  {
    StoreKeepsLayout(eq, s, e, Stop(s, e.hash));
    PlaceActives(s, e);
  }

  lemma {:induction false} PlaceAllCorrect<V(!new)>(eq: (V, V) -> bool, s: seq<Slot<V>>, es: seq<Entry<V>>)
    requires Equivalence(eq) && Layout(eq, s) && Filled(s) + |es| < |s|
    requires Distinct(eq, es) && AllAbsent(eq, Contents(s), es)
    ensures Layout(eq, PlaceAll(s, es))
    ensures Contents(PlaceAll(s, es)) == Contents(s) + Elements(es)
    ensures |Actives(PlaceAll(s, es))| == |Actives(s)| + |es|
  {
    hide Filled, Actives, Contents, Place;
    if es == [] {
      assert Elements(es) == {};
    } else {
      var n := |es| - 1;
      PrefixOk(eq, Contents(s), es, n);
      PlaceAllCorrect(eq, s, es[..n]);
      var r := PlaceAll(s, es[..n]);
      FilledRoom(r);
      LastIsNew(eq, Contents(s), es);
      PlaceCorrect(eq, r, es[n]);
      assert PlaceAll(s, es) == Place(r, es[n]);
    }
  }

  lemma PrefixOk<V>(eq: (V, V) -> bool, S: set<Entry<V>>, es: seq<Entry<V>>, n: nat)
    requires n <= |es| && Distinct(eq, es) && AllAbsent(eq, S, es)
    ensures Distinct(eq, es[..n]) && AllAbsent(eq, S, es[..n])
  {
  }

  lemma BlankLayout<V(!new)>(eq: (V, V) -> bool, size: nat)
    requires size >= MINSIZE && IsPow2(size)
    ensures Layout(eq, Blank<V>(size)) && Contents(Blank<V>(size)) == {}
  {
  }

  /** `resize` changes only the layout: the same entries, no tombstones. */
  lemma ResizeCorrect<V(!new)>(eq: (V, V) -> bool, t: Table<V>, minused: nat)
    requires Equivalence(eq) && Unique(eq, t.slots) && |Actives(t.slots)| <= minused
    ensures var r := Resize(t, minused);
            && Layout(eq, r.slots)
            && Contents(r.slots) == Contents(t.slots)
            && r.used == r.fill == |Actives(r.slots)| == Filled(r.slots) == |Actives(t.slots)|
            && |r.slots| == NewSize(minused)
  {
    var es := Actives(t.slots);
    NewSizePow2(minused);
    BlankFilled<V>(NewSize(minused));
    BlankLayout(eq, NewSize(minused));
    ActivesDistinct(eq, t.slots);
    ActivesAreContents(t.slots);
    PlaceAllCorrect(eq, Blank(NewSize(minused)), es);
  }

  lemma ResizeKeepsInv<V(!new)>(eq: (V, V) -> bool, t: Table<V>, minused: nat)
    requires Equivalence(eq) && Unique(eq, t.slots) && t.used == |Actives(t.slots)| <= minused
    requires 5 * t.used < 3 * (NewSize(minused) - 1)
    ensures var r := Resize(t, minused);
            && Inv(eq, r)
            && Contents(r.slots) == Contents(t.slots)
            && r.used == r.fill == t.used
            && |r.slots| == NewSize(minused)
  {
    ResizeCorrect(eq, t, minused);
  }

  lemma TargetLoad(used: nat)
    ensures used <= Target(used)
    ensures used == 0 || 5 * used < 3 * (NewSize(Target(used)) - 1)
    ensures 5 * 0 < 3 * (NewSize(Target(used)) - 1)
  {
    NewSizePow2(Target(used));
  }

  // ---------- the operations ----------

  lemma EmptyCorrect<V(!new)>(eq: (V, V) -> bool)
    requires Equivalence(eq)
    ensures Inv(eq, EmptyTable<V>()) && Contents(EmptyTable<V>().slots) == {}
  {
    assert MINSIZE == Arith.Pow2(3);
    BlankLayout(eq, MINSIZE);
    BlankFilled<V>(MINSIZE);
  }

  /** Reuse of the last tombstone on the path. */
  lemma ReuseCorrect<V(!new)>(eq: (V, V) -> bool, s: seq<Slot<V>>, e: Entry<V>, n: nat, k: nat)
    requires Equivalence(eq) && Layout(eq, s) && !Member(eq, Contents(s), e)
    requires Unbroken(s, e.hash, n) && LastDummy(s, e.hash, n) == Some(k)
    ensures var r := s[k := Active(e)];
            && Layout(eq, r) && Contents(r) == Contents(s) + {e}
            && |Actives(r)| == |Actives(s)| + 1 && Filled(r) == Filled(s)
  {
    DummyOnPath(s, e.hash, n);
    var u: nat :| u < n && Visit(e.hash, |s|, u) == k;
    StoreKeepsLayout(eq, s, e, u);
    UpdateCounts(s, k, Active(e));
  }

  /** `maybe_resize` restores the load bound. */
  lemma MaybeResizeCorrect<V(!new)>(eq: (V, V) -> bool, t: Table<V>)
    requires Equivalence(eq) && Layout(eq, t.slots) && t.used == |Actives(t.slots)| > 0 && t.fill == Filled(t.slots)
    ensures Inv(eq, MaybeResize(t))
    ensures Contents(MaybeResize(t).slots) == Contents(t.slots) && MaybeResize(t).used == t.used
    ensures var n := |MaybeResize(t).slots|;
            if 5 * t.fill < 3 * (|t.slots| - 1) then MaybeResize(t) == t
            else if t.used <= 50000 then n > 4 * t.used && (n == 8 || n <= 8 * t.used)
            else n > 2 * t.used && (n == 8 || n <= 4 * t.used)
  {
    if !(t.fill * 5 < (|t.slots| - 1) * 3) {
      TargetLoad(t.used);
      ResizeKeepsInv(eq, t, Target(t.used));
    }
  }

  /** `add` inserts, keeping an element that is already there. */
  lemma AddCorrect<V(!new)>(eq: (V, V) -> bool, t: Table<V>, e: Entry<V>)
    requires Inv(eq, t)
    ensures Inv(eq, Add(eq, t, e))
    ensures Contents(Add(eq, t, e).slots) == Insert(eq, Contents(t.slots), e)
    ensures Add(eq, t, e).used == t.used + (if Member(eq, Contents(t.slots), e) then 0 else 1)
  {
    hide Unique, Hit, LastDummy, Filled, Actives, Contents;
    var s := t.slots;
    var n := Stop(s, e.hash);
    var d := LastDummy(s, e.hash, n);
    if Hit(eq, s, e, n).Some? {
      PresentIfHit(eq, s, e, n);
    } else {
      AbsentIfNoHit(eq, s, e, n);
      if d.Some? {
        ReuseCorrect(eq, s, e, n, d.value);
      } else {
        PlaceCorrect(eq, s, e);
        PlaceFilled(s, e);
        MaybeResizeCorrect(eq, Table(Place(s, e), t.fill + 1, t.used + 1));
      }
    }
  }

  /** `discard` removes exactly the matching element and reports whether there was one. */
  lemma DiscardCorrect<V(!new)>(eq: (V, V) -> bool, t: Table<V>, e: Entry<V>)
    requires Inv(eq, t)
    ensures Inv(eq, Discard(eq, t, e))
    ensures Contents(Discard(eq, t, e).slots) == Remove(eq, Contents(t.slots), e)
    ensures Contains(eq, t, e) <==> Member(eq, Contents(t.slots), e)
    ensures Discard(eq, t, e).used == t.used - (if Member(eq, Contents(t.slots), e) then 1 else 0)
  {
    var s := t.slots;
    ContainsIsMember(eq, t, e);
    var hit := Hit(eq, s, e, Stop(s, e.hash));
    if hit.Some? {
      HitMatches(eq, s, e, Stop(s, e.hash));
      EraseKeepsLayout(eq, s, hit.value, e);
      UpdateCounts(s, hit.value, Dummy);
    }
  }

  lemma PopCorrect<V(!new)>(eq: (V, V) -> bool, t: Table<V>)
    requires Inv(eq, t)
    ensures Inv(eq, PopFirst(t))
    ensures t.used == 0 <==> Contents(t.slots) == {}
    ensures t.used == 0 ==> PopFirst(t) == t
    ensures t.used > 0 ==>
              && Contents(PopFirst(t).slots) == Contents(t.slots) - {Actives(t.slots)[0]}
              && PopFirst(t).used == t.used - 1
  {
    var s := t.slots;
    ActivesAreContents(s);
    var i := FirstActive(s, 0);
    if i.Some? {
      FirstIsFirst(s, i.value);
      EraseKeepsLayout(eq, s, i.value, s[i.value].entry);
      UpdateCounts(s, i.value, Dummy);
      assert Actives(s)[0] in Elements(Actives(s));
    } else {
      NoneActive(s);
    }
  }

  lemma FirstIsFirst<V>(s: seq<Slot<V>>, i: nat)
    requires i < |s| && s[i].Active? && forall j :: 0 <= j < i ==> !s[j].Active?
    ensures Actives(s) != [] && Actives(s)[0] == s[i].entry
  {
    Split(s, i);
    NoneActive(s[..i]);
  }

  lemma {:induction false} NoneActive<V>(s: seq<Slot<V>>)
    requires forall j :: 0 <= j < |s| ==> !s[j].Active?
    ensures Actives(s) == []
  {
    if s != [] {
      NoneActive(s[..|s| - 1]);
    }
  }

  lemma CompactCorrect<V(!new)>(eq: (V, V) -> bool, t: Table<V>)
    requires Inv(eq, t)
    ensures Inv(eq, Compact(t))
    ensures Contents(Compact(t).slots) == Contents(t.slots)
    ensures Compact(t).used == t.used
  {
    if t.fill - t.used > (|t.slots| - 1) / 4 {
      TargetLoad(t.used);
      ResizeKeepsInv(eq, t, Target(t.used));
    }
  }
}
