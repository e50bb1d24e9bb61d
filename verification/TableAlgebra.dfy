/**
 Merging, copying and the set operators, and whole runs of operations. Each
 operator picks its algorithm by sizes and thresholds; the lemmas show that the
 stored set is the mathematical one on every path.
 */
module TableAlgebra {
  import opened Probe
  import opened TableModel
  import opened TableCorrect
  import opened Prelude

  // ---------- folds over entries in slot order ----------

  ghost function AddAll<V(!new)>(eq: (V, V) -> bool, t: Table<V>, es: seq<Entry<V>>): (r: Table<V>)
    requires Inv(eq, t)
    ensures Inv(eq, r)
  {
    if es == [] then t
    else
      var r := AddAll(eq, t, es[..|es| - 1]);
      AddCorrect(eq, r, es[|es| - 1]);
      Add(eq, r, es[|es| - 1])
  }

  ghost function DiscardAll<V(!new)>(eq: (V, V) -> bool, t: Table<V>, es: seq<Entry<V>>): (r: Table<V>)
    requires Inv(eq, t)
    ensures Inv(eq, r)
  {
    if es == [] then t
    else
      var r := DiscardAll(eq, t, es[..|es| - 1]);
      DiscardCorrect(eq, r, es[|es| - 1]);
      Discard(eq, r, es[|es| - 1])
  }

  /** Discard each entry if it is there, else add it. */
  ghost function ToggleAll<V(!new)>(eq: (V, V) -> bool, t: Table<V>, es: seq<Entry<V>>): (r: Table<V>)
    requires Inv(eq, t)
    ensures Inv(eq, r)
  {
    if es == [] then t
    else
      var r, e := ToggleAll(eq, t, es[..|es| - 1]), es[|es| - 1];
      DiscardCorrect(eq, r, e);
      AddCorrect(eq, r, e);
      if Contains(eq, r, e) then Discard(eq, r, e) else Add(eq, r, e)
  }

  /** The entries of `es` whose membership in `t` is `wanted`. */
  ghost function Keep<V(!new)>(eq: (V, V) -> bool, es: seq<Entry<V>>, t: Table<V>, wanted: bool): seq<Entry<V>>
    requires Inv(eq, t)
  {
    if es == [] then []
    else
      var r, e := Keep(eq, es[..|es| - 1], t, wanted), es[|es| - 1];
      if Contains(eq, t, e) == wanted then r + [e] else r
  }

  // ---------- operators ----------

  /** Room for `extra` more elements. */
  ghost function Presize<V>(t: Table<V>, extra: nat): Table<V>
    requires t.used == |Actives(t.slots)|
  {
    if (t.fill + extra) * 5 >= (|t.slots| - 1) * 3 then Resize(t, (t.used + extra) * 2) else t
  }

  ghost function Merge<V(!new)>(eq: (V, V) -> bool, t: Table<V>, o: Table<V>): Table<V>
    requires Inv(eq, t) && Inv(eq, o)
  {
    var r := Presize(t, o.used);
    PresizeCorrect(eq, t, o.used);
    if r.fill == 0 && |r.slots| == |o.slots| && o.fill == o.used then Table(o.slots, o.fill, o.used)
    else if r.fill == 0 then Table(PlaceAll(r.slots, Actives(o.slots)), o.used, o.used)
    else AddAll(eq, r, Actives(o.slots))
  }

  ghost function FromList<V(!new)>(eq: (V, V) -> bool, es: seq<Entry<V>>): (r: Table<V>)
    requires Equivalence(eq)
    ensures Inv(eq, r)
  {
    EmptyCorrect(eq);
    AddAll(eq, EmptyTable(), es)
  }

  ghost function Copy<V(!new)>(eq: (V, V) -> bool, a: Table<V>): (r: Table<V>)
    requires Inv(eq, a)
    ensures Inv(eq, r) && Contents(r.slots) == Contents(a.slots)
    ensures r.used == r.fill == a.used
  {
    EmptyCorrect(eq);
    MergeCorrect(eq, EmptyTable(), a);
    BlankFilled<V>(MINSIZE);
    Merge(eq, EmptyTable(), a)
  }

  ghost function Union<V(!new)>(eq: (V, V) -> bool, a: Table<V>, b: Table<V>): Table<V>
    requires Inv(eq, a) && Inv(eq, b)
  {
    Merge(eq, Copy(eq, a), b)
  }

  ghost function Intersection<V(!new)>(eq: (V, V) -> bool, a: Table<V>, b: Table<V>): Table<V>
    requires Inv(eq, a) && Inv(eq, b)
  {
    if a.used >= b.used then FromList(eq, Keep(eq, Actives(b.slots), a, true))
    else FromList(eq, Keep(eq, Actives(a.slots), b, true))
  }

  ghost function DifferenceUpdate<V(!new)>(eq: (V, V) -> bool, a: Table<V>, b: Table<V>): Table<V>
    requires Inv(eq, a) && Inv(eq, b)
  {
    Compact(DiscardAll(eq, a, Actives(b.slots)))
  }

  ghost function Difference<V(!new)>(eq: (V, V) -> bool, a: Table<V>, b: Table<V>): Table<V>
    requires Inv(eq, a) && Inv(eq, b)
  {
    if a.used / 4 > b.used then DifferenceUpdate(eq, Copy(eq, a), b)
    else FromList(eq, Keep(eq, Actives(a.slots), b, false))
  }

  ghost function SymmetricDifference<V(!new)>(eq: (V, V) -> bool, a: Table<V>, b: Table<V>): Table<V>
    requires Inv(eq, a) && Inv(eq, b)
  {
    ToggleAll(eq, Copy(eq, b), Actives(a.slots))
  }

  ghost function ConstantLiteral<V(!new)>(eq: (V, V) -> bool, es: seq<Entry<V>>): Table<V>
    requires Equivalence(eq)
  {
    Copy(eq, FromList(eq, Actives(FromList(eq, es).slots)))
  }

  // ---------- sets of elements ----------

  ghost function Restrict<V>(eq: (V, V) -> bool, A: set<Entry<V>>, B: set<Entry<V>>, wanted: bool): set<Entry<V>> {
    set x | x in A && Member(eq, B, x) == wanted
  }

  /** Union that keeps the left representative of an element on both sides. */
  ghost function UnionOf<V>(eq: (V, V) -> bool, A: set<Entry<V>>, B: set<Entry<V>>): set<Entry<V>> {
    A + Restrict(eq, B, A, false)
  }

  // ---------- correctness of the folds ----------

  lemma ElementsLast<V>(es: seq<Entry<V>>)
    requires es != []
    ensures Elements(es) == Elements(es[..|es| - 1]) + {es[|es| - 1]}
  {
    assert es == es[..|es| - 1] + [es[|es| - 1]];
  }

  /** Adding any list, duplicates included: what is stored comes from the list. */
  lemma {:induction false} AddAllStored<V(!new)>(eq: (V, V) -> bool, t: Table<V>, es: seq<Entry<V>>)
    requires Inv(eq, t)
    ensures Contents(AddAll(eq, t, es).slots) <= Contents(t.slots) + Elements(es)
  {
    if es != [] {
      var n := |es| - 1;
      AddAllStored(eq, t, es[..n]);
      AddCorrect(eq, AddAll(eq, t, es[..n]), es[n]);
      ElementsLast(es);
    }
  }

  lemma FromListStored<V(!new)>(eq: (V, V) -> bool, es: seq<Entry<V>>)
    requires Equivalence(eq)
    ensures forall e :: e in Actives(FromList(eq, es).slots) ==> e in es
  {
    var s := FromList(eq, es).slots;
    EmptyCorrect(eq);
    AddAllStored(eq, EmptyTable(), es);
    ActivesAreContents(s);
    forall e | e in Actives(s) ensures e in es {
      assert e in Elements(Actives(s));
      assert e in Elements(es);
    }
  }

  /** Adding any list, duplicates included: what the table answers to. */
  lemma {:induction false} AddAllMembers<V(!new)>(eq: (V, V) -> bool, t: Table<V>, es: seq<Entry<V>>, x: Entry<V>)
    requires Inv(eq, t)
    ensures Member(eq, Contents(AddAll(eq, t, es).slots), x)
            <==> Member(eq, Contents(t.slots), x) || Member(eq, Elements(es), x)
  {
    if es == [] {
      assert Elements(es) == {};
    } else {
      var n := |es| - 1;
      var r, e := AddAll(eq, t, es[..n]), es[n];
      AddAllMembers(eq, t, es[..n], x);
      AddCorrect(eq, r, e);
      ElementsLast(es);
      InsertMembers(eq, Contents(r.slots), e, x);
      MemberOfSum(eq, Elements(es[..n]), e, x);
    }
  }

  lemma MemberOfSum<V>(eq: (V, V) -> bool, S: set<Entry<V>>, e: Entry<V>, x: Entry<V>)
    ensures Member(eq, S + {e}, x) <==> Member(eq, S, x) || Same(eq, e, x)
  {
    if Member(eq, S, x) {
      var y :| y in S && Same(eq, y, x);
      assert y in S + {e};
    }
    assert e in S + {e};
  }

  lemma InsertMembers<V(!new)>(eq: (V, V) -> bool, S: set<Entry<V>>, e: Entry<V>, x: Entry<V>)
    requires Equivalence(eq)
    ensures Member(eq, Insert(eq, S, e), x) <==> Member(eq, S, x) || Same(eq, e, x)
  {
    MemberOfSum(eq, S, e, x);
    if Member(eq, S, e) && Same(eq, e, x) {
      var y :| y in S && Same(eq, y, e);
      assert Same(eq, y, x);
    }
  }

  /** Adding pairwise distinct entries is a union. */
  lemma {:induction false} AddAllDistinct<V(!new)>(eq: (V, V) -> bool, t: Table<V>, es: seq<Entry<V>>)
    requires Inv(eq, t) && Distinct(eq, es)
    ensures Contents(AddAll(eq, t, es).slots) == UnionOf(eq, Contents(t.slots), Elements(es))
  {
    var A := Contents(t.slots);
    if es == [] {
      assert Restrict(eq, Elements(es), A, false) == {};
    } else {
      var n := |es| - 1;
      var r, e := AddAll(eq, t, es[..n]), es[n];
      AddAllDistinct(eq, t, es[..n]);
      AddAllMembers(eq, t, es[..n], e);
      AddCorrect(eq, r, e);
      LastIsFresh(eq, es);
      RestrictSum(eq, Elements(es[..n]), e, A, false);
    }
  }

  lemma LastIsFresh<V>(eq: (V, V) -> bool, es: seq<Entry<V>>)
    requires es != [] && Distinct(eq, es)
    ensures !Member(eq, Elements(es[..|es| - 1]), es[|es| - 1])
    ensures Elements(es) == Elements(es[..|es| - 1]) + {es[|es| - 1]}
  {
    LastIsNew(eq, {}, es);
    assert {} + Elements(es[..|es| - 1]) == Elements(es[..|es| - 1]);
  }

  lemma RestrictSum<V>(eq: (V, V) -> bool, S: set<Entry<V>>, e: Entry<V>, B: set<Entry<V>>, wanted: bool)
    ensures Restrict(eq, S + {e}, B, wanted)
            == Restrict(eq, S, B, wanted) + (if Member(eq, B, e) == wanted then {e} else {})
  {
  }

  lemma {:induction false} KeepCorrect<V(!new)>(eq: (V, V) -> bool, es: seq<Entry<V>>, t: Table<V>, wanted: bool)
    requires Inv(eq, t)
    ensures Elements(Keep(eq, es, t, wanted)) == Restrict(eq, Elements(es), Contents(t.slots), wanted)
    ensures Distinct(eq, es) ==> Distinct(eq, Keep(eq, es, t, wanted))
  {
    if es == [] {
      assert Elements(es) == {};
    } else {
      var n := |es| - 1;
      var r, e := Keep(eq, es[..n], t, wanted), es[n];
      KeepCorrect(eq, es[..n], t, wanted);
      ContainsIsMember(eq, t, e);
      ElementsLast(es);
      RestrictSum(eq, Elements(es[..n]), e, Contents(t.slots), wanted);
      assert Elements(r + [e]) == Elements(r) + {e};
      if Distinct(eq, es) {
        forall x | x in r ensures !Same(eq, x, e) {
          assert x in Elements(r);
          assert x in Elements(es[..n]);
          var i :| 0 <= i < n && es[i] == x;
        }
      }
    }
  }

  lemma {:induction false} DiscardAllCorrect<V(!new)>(eq: (V, V) -> bool, t: Table<V>, es: seq<Entry<V>>)
    requires Inv(eq, t)
    ensures Contents(DiscardAll(eq, t, es).slots) == Restrict(eq, Contents(t.slots), Elements(es), false)
  {
    if es == [] {
      assert Elements(es) == {};
    } else {
      var n := |es| - 1;
      var r, e := DiscardAll(eq, t, es[..n]), es[n];
      DiscardAllCorrect(eq, t, es[..n]);
      DiscardCorrect(eq, r, e);
      ElementsLast(es);
      RestrictByOneMore(eq, Contents(t.slots), Elements(es[..n]), e);
    }
  }

  lemma RestrictByOneMore<V(!new)>(eq: (V, V) -> bool, S: set<Entry<V>>, B: set<Entry<V>>, e: Entry<V>)
    requires Equivalence(eq)
    ensures Restrict(eq, S, B + {e}, false) == Remove(eq, Restrict(eq, S, B, false), e)
  {
    forall x ensures Member(eq, B + {e}, x) <==> Member(eq, B, x) || Same(eq, x, e) {
      MemberOfSum(eq, B, e, x);
    }
  }

  ghost function Toggled<V>(eq: (V, V) -> bool, B: set<Entry<V>>, A: set<Entry<V>>): set<Entry<V>> {
    Restrict(eq, B, A, false) + Restrict(eq, A, B, false)
  }

  lemma {:induction false} ToggleAllCorrect<V(!new)>(eq: (V, V) -> bool, t: Table<V>, es: seq<Entry<V>>)
    requires Inv(eq, t) && Distinct(eq, es)
    ensures Contents(ToggleAll(eq, t, es).slots) == Toggled(eq, Contents(t.slots), Elements(es))
  {
    var B := Contents(t.slots);
    if es == [] {
      assert Elements(es) == {};
    } else {
      var n := |es| - 1;
      var r, e := ToggleAll(eq, t, es[..n]), es[n];
      ToggleAllCorrect(eq, t, es[..n]);
      DiscardCorrect(eq, r, e);
      AddCorrect(eq, r, e);
      LastIsFresh(eq, es);
      ToggleStep(eq, B, Elements(es[..n]), e);
    }
  }

  lemma ToggleStep<V(!new)>(eq: (V, V) -> bool, B: set<Entry<V>>, A: set<Entry<V>>, e: Entry<V>)
    requires Equivalence(eq) && !Member(eq, A, e)
    ensures Member(eq, Toggled(eq, B, A), e) <==> Member(eq, B, e)
    ensures Toggled(eq, B, A + {e})
            == if Member(eq, B, e) then Remove(eq, Toggled(eq, B, A), e) else Toggled(eq, B, A) + {e}
  {
    var T := Toggled(eq, B, A);
    if Member(eq, B, e) {
      var x :| x in B && Same(eq, x, e);
      NotBoth(eq, A, x, e);
      assert x in T;
    }
    RestrictByOneMore(eq, B, A, e);
    RestrictSum(eq, A, e, B, false);
  }

  lemma NotBoth<V(!new)>(eq: (V, V) -> bool, A: set<Entry<V>>, x: Entry<V>, e: Entry<V>)
    requires Equivalence(eq) && !Member(eq, A, e) && Same(eq, x, e)
    ensures !Member(eq, A, x)
  {
    assert forall y :: y in A && Same(eq, y, x) ==> Same(eq, y, e);
  }

  // ---------- correctness of merge ----------

  lemma {:induction false} NothingFilled<V>(s: seq<Slot<V>>)
    requires Filled(s) == 0
    ensures forall i :: 0 <= i < |s| ==> s[i].Empty?
  {
    if s != [] {
      NothingFilled(s[..|s| - 1]);
      forall i | 0 <= i < |s| ensures s[i].Empty? {
        assert i < |s| - 1 ==> s[..|s| - 1][i].Empty?;
      }
    }
  }

  lemma PresizeCorrect<V(!new)>(eq: (V, V) -> bool, t: Table<V>, extra: nat)
    requires Inv(eq, t)
    ensures var r := Presize(t, extra);
            && Inv(eq, r)
            && Contents(r.slots) == Contents(t.slots)
            && 5 * (r.fill + extra) < 3 * (|r.slots| - 1)
            && r.used == t.used
  {
    if (t.fill + extra) * 5 >= (|t.slots| - 1) * 3 {
      NewSizePow2((t.used + extra) * 2);
      ResizeKeepsInv(eq, t, (t.used + extra) * 2);
    }
  }

  /** The two paths that fill an empty table. */
  lemma MergeIntoEmpty<V(!new)>(eq: (V, V) -> bool, s: seq<Slot<V>>, o: Table<V>)
    requires Inv(eq, o) && Layout(eq, s) && Filled(s) == 0 && 5 * o.used < 3 * (|s| - 1)
    ensures Contents(s) == {}
    ensures Inv(eq, Table(PlaceAll(s, Actives(o.slots)), o.used, o.used))
    ensures Contents(PlaceAll(s, Actives(o.slots))) == Contents(o.slots)
  {
    var es := Actives(o.slots);
    NothingFilled(s);
    NoneActive(s);
    assert Contents(s) == {};
    hide Contents, Actives, Filled, WellPlaced;
    ActivesAreContents(o.slots);
    ActivesDistinct(eq, o.slots);
    assert AllAbsent(eq, Contents(s), es);
    PlaceAllCorrect(eq, s, es);
  }

  /** `merge` is union on each of its three paths. */
  lemma MergeCorrect<V(!new)>(eq: (V, V) -> bool, t: Table<V>, o: Table<V>)
    requires Inv(eq, t) && Inv(eq, o)
    ensures Inv(eq, Merge(eq, t, o))
    ensures Contents(Merge(eq, t, o).slots) == UnionOf(eq, Contents(t.slots), Contents(o.slots))
    ensures t.fill == 0 ==> Merge(eq, t, o).used == Merge(eq, t, o).fill == o.used
  {
    hide AddAll, PlaceAll, Contents, Filled, Actives;
    var r := Presize(t, o.used);
    PresizeCorrect(eq, t, o.used);
    if r.fill == 0 {
      MergeIntoEmpty(eq, r.slots, o);
      assert UnionOf(eq, {}, Contents(o.slots)) == Contents(o.slots);
    } else {
      ActivesAreContents(o.slots);
      ActivesDistinct(eq, o.slots);
      AddAllDistinct(eq, r, Actives(o.slots));
      FillCoversUsed(t.slots);
      ResizeCorrect(eq, t, (t.used + o.used) * 2);
    }
  }

  lemma {:induction false} FillCoversUsed<V>(s: seq<Slot<V>>)
    ensures |Actives(s)| <= Filled(s)
    ensures |Actives(s)| == Filled(s) ==> forall i :: 0 <= i < |s| ==> !s[i].Dummy?
  {
    if s != [] {
      FillCoversUsed(s[..|s| - 1]);
      if |Actives(s)| == Filled(s) {
        forall i | 0 <= i < |s| ensures !s[i].Dummy? {
          assert i < |s| - 1 ==> !s[..|s| - 1][i].Dummy?;
        }
      }
    }
  }

  // ---------- correctness of the operators ----------

  lemma UnionCorrect<V(!new)>(eq: (V, V) -> bool, a: Table<V>, b: Table<V>)
    requires Inv(eq, a) && Inv(eq, b)
    ensures Inv(eq, Union(eq, a, b))
    ensures Contents(Union(eq, a, b).slots) == UnionOf(eq, Contents(a.slots), Contents(b.slots))
  {
    MergeCorrect(eq, Copy(eq, a), b);
  }

  lemma SelectCorrect<V(!new)>(eq: (V, V) -> bool, a: Table<V>, b: Table<V>, wanted: bool)
    requires Inv(eq, a) && Inv(eq, b)
    ensures Contents(FromList(eq, Keep(eq, Actives(a.slots), b, wanted)).slots)
            == Restrict(eq, Contents(a.slots), Contents(b.slots), wanted)
  {
    var es := Actives(a.slots);
    ActivesAreContents(a.slots);
    ActivesDistinct(eq, a.slots);
    KeepCorrect(eq, es, b, wanted);
    EmptyCorrect(eq);
    var ks := Keep(eq, es, b, wanted);
    AddAllDistinct(eq, EmptyTable(), ks);
    assert UnionOf(eq, {}, Elements(ks)) == Elements(ks);
  }

  /** Elements of the smaller operand (of the right one on a tie) found in the other. */
  lemma IntersectionCorrect<V(!new)>(eq: (V, V) -> bool, a: Table<V>, b: Table<V>)
    requires Inv(eq, a) && Inv(eq, b)
    ensures Inv(eq, Intersection(eq, a, b))
    ensures Contents(Intersection(eq, a, b).slots)
            == if a.used >= b.used then Restrict(eq, Contents(b.slots), Contents(a.slots), true)
               else Restrict(eq, Contents(a.slots), Contents(b.slots), true)
  {
    SelectCorrect(eq, a, b, true);
    SelectCorrect(eq, b, a, true);
  }

  /** Whichever operand is iterated, the answer has the same members. */
  lemma IntersectionMembers<V(!new)>(eq: (V, V) -> bool, a: Table<V>, b: Table<V>, x: Entry<V>)
    requires Inv(eq, a) && Inv(eq, b)
    ensures Member(eq, Contents(Intersection(eq, a, b).slots), x)
            <==> Member(eq, Contents(a.slots), x) && Member(eq, Contents(b.slots), x)
  {
    IntersectionCorrect(eq, a, b);
    RestrictMembers(eq, Contents(a.slots), Contents(b.slots), x);
    RestrictMembers(eq, Contents(b.slots), Contents(a.slots), x);
  }

  lemma RestrictMembers<V(!new)>(eq: (V, V) -> bool, A: set<Entry<V>>, B: set<Entry<V>>, x: Entry<V>)
    requires Equivalence(eq)
    ensures Member(eq, Restrict(eq, A, B, true), x) <==> Member(eq, A, x) && Member(eq, B, x)
  {
    if Member(eq, Restrict(eq, A, B, true), x) {
      var y :| y in Restrict(eq, A, B, true) && Same(eq, y, x);
      var z :| z in B && Same(eq, z, y);
      assert Same(eq, z, x);
    }
    if Member(eq, A, x) && Member(eq, B, x) {
      var y :| y in A && Same(eq, y, x);
      var z :| z in B && Same(eq, z, x);
      assert Same(eq, z, y);
      assert y in Restrict(eq, A, B, true);
    }
  }

  lemma DifferenceUpdateCorrect<V(!new)>(eq: (V, V) -> bool, a: Table<V>, b: Table<V>)
    requires Inv(eq, a) && Inv(eq, b)
    ensures Inv(eq, DifferenceUpdate(eq, a, b))
    ensures Contents(DifferenceUpdate(eq, a, b).slots) == Restrict(eq, Contents(a.slots), Contents(b.slots), false)
  {
    DiscardAllCorrect(eq, a, Actives(b.slots));
    ActivesAreContents(b.slots);
    CompactCorrect(eq, DiscardAll(eq, a, Actives(b.slots)));
  }

  /** Both sides of the size threshold give the set difference. */
  lemma DifferenceCorrect<V(!new)>(eq: (V, V) -> bool, a: Table<V>, b: Table<V>)
    requires Inv(eq, a) && Inv(eq, b)
    ensures Inv(eq, Difference(eq, a, b))
    ensures Contents(Difference(eq, a, b).slots) == Restrict(eq, Contents(a.slots), Contents(b.slots), false)
  {
    if a.used / 4 > b.used {
      DifferenceUpdateCorrect(eq, Copy(eq, a), b);
    } else {
      SelectCorrect(eq, a, b, false);
    }
  }

  lemma SymmetricDifferenceCorrect<V(!new)>(eq: (V, V) -> bool, a: Table<V>, b: Table<V>)
    requires Inv(eq, a) && Inv(eq, b)
    ensures Inv(eq, SymmetricDifference(eq, a, b))
    ensures Contents(SymmetricDifference(eq, a, b).slots)
            == Restrict(eq, Contents(b.slots), Contents(a.slots), false)
               + Restrict(eq, Contents(a.slots), Contents(b.slots), false)
  {
    ActivesAreContents(a.slots);
    ActivesDistinct(eq, a.slots);
    ToggleAllCorrect(eq, Copy(eq, b), Actives(a.slots));
  }

  // ---------- layouts ----------

  /** `copy` is a normal form, slot for slot. */
  lemma CopyIsNormalForm<V(!new)>(eq: (V, V) -> bool, a: Table<V>)
    requires Inv(eq, a)
    ensures Copy(eq, Copy(eq, a)) == Copy(eq, a)
  {
    var c := Copy(eq, a);
    EmptyCorrect(eq);
    BlankFilled<V>(MINSIZE);
    var e := EmptyTable<V>();
    CopySize(eq, a);
    CopySize(eq, c);
    PresizeCorrect(eq, e, c.used);
    ResizeCorrect(eq, e, c.used * 2);
    assert Presize(e, c.used).fill == 0;
  }

  /** The size `copy` picks depends on the element count only. */
  lemma CopySize<V(!new)>(eq: (V, V) -> bool, a: Table<V>)
    requires Inv(eq, a)
    ensures |Copy(eq, a).slots| == if a.used * 5 >= 21 then NewSize(a.used * 2) else MINSIZE
  {
    EmptyCorrect(eq);
    BlankFilled<V>(MINSIZE);
    var e := EmptyTable<V>();
    PresizeCorrect(eq, e, a.used);
    ResizeCorrect(eq, e, a.used * 2);
    assert Presize(e, a.used).fill == 0;
  }

  /** Folding a constant literal twice and copying it keeps its elements. */
  lemma ConstantLiteralMembers<V(!new)>(eq: (V, V) -> bool, es: seq<Entry<V>>, x: Entry<V>)
    requires Equivalence(eq)
    ensures Member(eq, Contents(ConstantLiteral(eq, es).slots), x) <==> Member(eq, Elements(es), x)
    ensures Contents(ConstantLiteral(eq, es).slots) == Contents(FromList(eq, es).slots)
  {
    EmptyCorrect(eq);
    var a := FromList(eq, es);
    AddAllMembers(eq, EmptyTable(), es, x);
    ActivesAreContents(a.slots);
    ActivesDistinct(eq, a.slots);
    AddAllDistinct(eq, EmptyTable(), Actives(a.slots));
    assert UnionOf(eq, {}, Contents(a.slots)) == Contents(a.slots);
  }

  // ---------- whole runs ----------

  datatype Op<V> =
    | AddOp(e: Entry<V>)
    | DiscardOp(e: Entry<V>)
    | PopOp
    | MergeOp(other: Table<V>)
    | DifferenceOp(other: Table<V>)
    | CompactOp

  ghost predicate Runnable<V(!new)>(eq: (V, V) -> bool, op: Op<V>) {
    (op.MergeOp? || op.DifferenceOp?) ==> Inv(eq, op.other)
  }

  ghost function Step<V(!new)>(eq: (V, V) -> bool, t: Table<V>, op: Op<V>): Table<V>
    requires Inv(eq, t) && Runnable(eq, op)
  {
    match op
    case AddOp(e) => Add(eq, t, e)
    case DiscardOp(e) => Discard(eq, t, e)
    case PopOp => PopFirst(t)
    case MergeOp(o) => Merge(eq, t, o)
    case DifferenceOp(o) => DifferenceUpdate(eq, t, o)
    case CompactOp => Compact(t)
  }

  /** What one operation may do to the mathematical set. */
  ghost predicate SetStep<V>(eq: (V, V) -> bool, S: set<Entry<V>>, op: Op<V>, R: set<Entry<V>>) {
    match op
    case AddOp(e) => R == Insert(eq, S, e)
    case DiscardOp(e) => R == Remove(eq, S, e)
    case PopOp => if S == {} then R == {} else exists x :: x in S && R == S - {x}
    case MergeOp(o) => R == UnionOf(eq, S, Contents(o.slots))
    case DifferenceOp(o) => R == Restrict(eq, S, Contents(o.slots), false)
    case CompactOp => R == S
  }

  lemma StepRefines<V(!new)>(eq: (V, V) -> bool, t: Table<V>, op: Op<V>)
    requires Inv(eq, t) && Runnable(eq, op)
    ensures Inv(eq, Step(eq, t, op))
    ensures SetStep(eq, Contents(t.slots), op, Contents(Step(eq, t, op).slots))
  {
    match op
    case AddOp(e) => AddCorrect(eq, t, e);
    case DiscardOp(e) => DiscardCorrect(eq, t, e);
    case PopOp =>
      PopCorrect(eq, t);
      if t.used > 0 {
        ActivesAreContents(t.slots);
        assert Actives(t.slots)[0] in Elements(Actives(t.slots));
      }
    case MergeOp(o) => MergeCorrect(eq, t, o);
    case DifferenceOp(o) => DifferenceUpdateCorrect(eq, t, o);
    case CompactOp => CompactCorrect(eq, t);
  }

  ghost predicate AllRunnable<V(!new)>(eq: (V, V) -> bool, ops: seq<Op<V>>) {
    forall i :: 0 <= i < |ops| ==> Runnable(eq, ops[i])
  }

  /** The table after a run that starts from an empty set. */
  ghost function Run<V(!new)>(eq: (V, V) -> bool, ops: seq<Op<V>>): (t: Table<V>)
    requires Equivalence(eq) && AllRunnable(eq, ops)
    ensures Inv(eq, t)
  {
    if ops == [] then
      EmptyCorrect(eq);
      EmptyTable()
    else
      var t := Run(eq, ops[..|ops| - 1]);
      StepRefines(eq, t, ops[|ops| - 1]);
      Step(eq, t, ops[|ops| - 1])
  }

  /** Over every run, every step keeps the invariant and is a step of the mathematical set. */
  lemma RunRefines<V(!new)>(eq: (V, V) -> bool, ops: seq<Op<V>>, i: nat)
    requires Equivalence(eq) && AllRunnable(eq, ops) && i < |ops|
    ensures Contents(Run<V>(eq, []).slots) == {}
    ensures Inv(eq, Run(eq, ops[..i])) && Inv(eq, Run(eq, ops[..i + 1]))
    ensures SetStep(eq, Contents(Run(eq, ops[..i]).slots), ops[i], Contents(Run(eq, ops[..i + 1]).slots))
    ensures forall e :: Contains(eq, Run(eq, ops[..i]), e) <==> Member(eq, Contents(Run(eq, ops[..i]).slots), e)
  {
    EmptyCorrect(eq);
    var p := ops[..i + 1];
    assert p[..i] == ops[..i];
    StepRefines(eq, Run(eq, ops[..i]), ops[i]);
    forall e ensures Contains(eq, Run(eq, ops[..i]), e) <==> Member(eq, Contents(Run(eq, ops[..i]).slots), e) {
      ContainsIsMember(eq, Run(eq, ops[..i]), e);
    }
  }
}
