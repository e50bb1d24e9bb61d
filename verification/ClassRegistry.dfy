/**
 The class registry that linearisation feeds, and the method walk over the
 resolution orders it stores: ordinary lookup and `super()`.
 */
module ClassRegistry {
  import opened Linearization
  import opened Prelude

  /** A registered class: its bases, its resolution order, the methods its body defines. */
  datatype ClassInfo = ClassInfo(bases: seq<Name>, mro: seq<Name>, methods: set<Name>)

  type Classes = map<Name, ClassInfo>

  datatype Result<T> = Ok(value: T) | TypeError

  // ---------- build_mro ----------

  function OrderOf(classes: Classes, b: Name): seq<Name> {
    if b in classes then classes[b].mro else [b]
  }

  /** The sequences to merge: each base's order, then the base list. */
  function Inputs(classes: Classes, bases: seq<Name>): (r: seq<seq<Name>>)
    ensures |r| == |bases| + 1 && r[|bases|] == bases
    ensures forall k :: 0 <= k < |bases| ==> r[k] == OrderOf(classes, bases[k])
  {
    seq(|bases|, k requires 0 <= k < |bases| => OrderOf(classes, bases[k])) + [bases]
  }

  function Mro(classes: Classes, name: Name, bases: seq<Name>): Result<seq<Name>> {
    var m := Merge(Inputs(classes, bases));
    if m.None? then TypeError else Ok([name] + m.value)
  }

  function DropEmpty(seqs: seq<seq<Name>>): seq<seq<Name>> {
    if seqs == [] then []
    else if seqs[0] == [] then DropEmpty(seqs[1..])
    else [seqs[0]] + DropEmpty(seqs[1..])
  }

  lemma {:induction false} DropEmptyKeeps(seqs: seq<seq<Name>>)
    ensures forall s :: s != [] ==> (s in DropEmpty(seqs) <==> s in seqs)
    ensures [] !in DropEmpty(seqs)
    ensures Total(DropEmpty(seqs)) == Total(seqs)
  {
    if seqs != [] {
      DropEmptyKeeps(seqs[1..]);
      assert seqs == [seqs[0]] + seqs[1..];
      assert seqs[0] != [] ==> DropEmpty(seqs)[1..] == DropEmpty(seqs[1..]);
    }
  }

  lemma GoodByMembers(a: seq<seq<Name>>, b: seq<seq<Name>>, x: Name)
    requires forall s :: s != [] ==> (s in a <==> s in b)
    ensures Good(a, x) <==> Good(b, x)
  {
    if Good(a, x) {
      forall k | 0 <= k < |b| && b[k] != [] ensures x !in b[k][1..] {
        assert b[k] in a;
      }
    }
    if Good(b, x) {
      forall k | 0 <= k < |a| && a[k] != [] ensures x !in a[k][1..] {
        assert a[k] in b;
      }
    }
  }

  /** The first good head does not depend on the empty sequences. */
  lemma {:induction false} FirstGoodDrop(all: seq<seq<Name>>, kept: seq<seq<Name>>, k: nat, j: nat)
    requires k <= |all| && j <= |kept| && kept[j..] == DropEmpty(all[k..])
    requires forall s :: s != [] ==> (s in all <==> s in kept)
    ensures FirstGood(all, k) == FirstGood(kept, j)
    decreases |all| - k
  {
    if k < |all| {
      assert all[k..][1..] == all[k + 1..];
      if all[k] == [] {
        FirstGoodDrop(all, kept, k + 1, j);
      } else {
        assert kept[j..][0] == kept[j] == all[k];
        assert kept[j..][1..] == kept[j + 1..];
        assert ([all[k]] + DropEmpty(all[k + 1..]))[1..] == DropEmpty(all[k + 1..]);
        GoodByMembers(all, kept, all[k][0]);
        FirstGoodDrop(all, kept, k + 1, j + 1);
      }
    }
  }

  lemma {:induction false} StripDrop(seqs: seq<seq<Name>>, h: Name)
    ensures DropEmpty(Strip(DropEmpty(seqs), h)) == DropEmpty(Strip(seqs, h))
  {
    if seqs != [] {
      StripDrop(seqs[1..], h);
      assert Strip(seqs, h)[1..] == Strip(seqs[1..], h);
      if seqs[0] != [] {
        var d := DropEmpty(seqs);
        assert d[1..] == DropEmpty(seqs[1..]);
        assert Strip(d, h)[1..] == Strip(d[1..], h);
      }
    }
  }

  /** Dropping exhausted sequences, as the loop does, does not change the merge. */
  lemma {:induction false} MergeDrop(seqs: seq<seq<Name>>)
    ensures Merge(DropEmpty(seqs)) == Merge(seqs)
    decreases Total(seqs)
  {
    var d := DropEmpty(seqs);
    DropEmptyKeeps(seqs);
    assert AllEmpty(seqs) <==> AllEmpty(d) by {
      if !AllEmpty(seqs) {
        var k :| 0 <= k < |seqs| && seqs[k] != [];
        assert seqs[k] in d;
      }
      if !AllEmpty(d) {
        var k :| 0 <= k < |d| && d[k] != [];
        assert d[k] in seqs;
      }
    }
    assert seqs[0..] == seqs && d[0..] == d;
    FirstGoodDrop(seqs, d, 0, 0);
    if !AllEmpty(seqs) && FirstGood(seqs, 0).Some? {
      var h := FirstGood(seqs, 0).value;
      var j := FirstGoodFound(seqs, 0);
      StripTotal(seqs, h, j);
      var i := FirstGoodFound(d, 0);
      StripTotal(d, h, i);
      MergeDrop(Strip(seqs, h));
      MergeDrop(Strip(d, h));
      StripDrop(seqs, h);
    }
  }

  /** `seqs` are the stored orders of the bases, an unknown base alone, and behind them the base list. */
  ghost predicate BaseSequences(classes: Classes, bases: seq<Name>, seqs: seq<seq<Name>>) {
    && |seqs| == |bases| + 1
    && seqs[|bases|] == bases
    && forall k :: 0 <= k < |bases| ==> seqs[k] == if bases[k] in classes then classes[bases[k]].mro else [bases[k]]
  }

  /** `r` is the C3 order of the bases. */
  ghost predicate C3Order(classes: Classes, bases: seq<Name>, r: seq<Name>) {
    exists seqs :: BaseSequences(classes, bases, seqs) && IsLinearization(seqs, r)
  }

  /** The order of a class is the class itself and then the C3 order of its bases; there is none exactly on the `TypeError`. */
  lemma MroIsC3(classes: Classes, name: Name, bases: seq<Name>, r: seq<Name>)
    ensures Mro(classes, name, bases) == Ok([name] + r) <==> C3Order(classes, bases, r)
    ensures Mro(classes, name, bases).TypeError? <==> !HasC3Order(classes, bases)
    ensures Mro(classes, name, bases).Ok? ==>
      var mro := Mro(classes, name, bases).value;
      mro != [] && mro[0] == name && C3Order(classes, bases, mro[1..])
  {
    hide IsLinearization, Merge;
    var inputs := Inputs(classes, bases);
    assert BaseSequences(classes, bases, inputs);
    forall seqs | BaseSequences(classes, bases, seqs) ensures seqs == inputs {
    }
    forall q ensures Merge(inputs) == Some(q) <==> C3Order(classes, bases, q) {
      MergeIsLinearization(inputs, q);
    }
    assert ([name] + r)[1..] == r;
    if Merge(inputs).Some? {
      assert ([name] + Merge(inputs).value)[1..] == Merge(inputs).value;
    }
  }

  ghost predicate HasC3Order(classes: Classes, bases: seq<Name>) {
    exists r :: C3Order(classes, bases, r)
  }

  /** `class A`, `class B(A)`, `class C`, `class D(B, C)`: the order of `D` is `[D, B, A, C]`. */
  lemma OrderOfTwoBases(a: Name, b: Name, c: Name, d: Name, classes: Classes)
    requires a != b && a != c && a != d && b != c && b != d && c != d
    requires classes == DefineAll(map[], [Definition(a, [], {}), Definition(b, [a], {}), Definition(c, [], {}), Definition(d, [b, c], {})])
    ensures a in classes && b in classes && c in classes && d in classes
    ensures classes[a].mro == [a] && classes[b].mro == [b, a] && classes[c].mro == [c] && classes[d].mro == [d, b, a, c]
  {
    var ds := [Definition(a, [], {}), Definition(b, [a], {}), Definition(c, [], {}), Definition(d, [b, c], {})];
    hide Define, Mro, Inputs;
    assert ds[..0] == [] && ds[..4] == ds;
    DefineAllStep(ds, 0);
    DefineAllStep(ds, 1);
    DefineAllStep(ds, 2);
    DefineAllStep(ds, 3);
    var r1, r2, r3 := DefineAll(map[], ds[..1]), DefineAll(map[], ds[..2]), DefineAll(map[], ds[..3]);
    MroWithoutBases(map[], a);
    DefineOk(map[], ds[0], [a]);
    MroOfOneBase(r1, b, a);
    DefineOk(r1, ds[1], [b, a]);
    MroWithoutBases(r2, c);
    DefineOk(r2, ds[2], [c]);
    MroOfTwoBases(r3, d, a, b, c);
    DefineOk(r3, ds[3], [d, b, a, c]);
  }

  lemma DefineOk(classes: Classes, d: Definition, mro: seq<Name>)
    requires Mro(classes, d.name, d.bases) == Ok(mro)
    ensures Define(classes, d) == classes[d.name := ClassInfo(d.bases, mro, d.methods)]
  {
  }

  lemma MroOfTwoBases(classes: Classes, d: Name, a: Name, b: Name, c: Name)
    requires a != b && a != c && b != c && b in classes && c in classes && classes[b].mro == [b, a] && classes[c].mro == [c]
    ensures Mro(classes, d, [b, c]) == Ok([d, b, a, c])
  {
    hide Merge, StripOne;
    var s0, s1, s2, s3 := [[b, a], [c], [b, c]], [[a], [c], [c]], [[], [c], [c]], [[], [], []];
    assert Inputs(classes, [b, c]) == s0;
    StripSmall(a, b);
    StripSmall(b, c);
    StripSmall(a, c);
    MergeNext(s0, 0, b, s1);
    MergeNext(s1, 0, a, s2);
    MergeNext(s2, 1, c, s3);
    MergeEmpty(s3);
    assert [c] + [] == [c] && [a] + [c] == [a, c] && [b] + [a, c] == [b, a, c] && [d] + [b, a, c] == [d, b, a, c];
  }

  lemma StripSmall(x: Name, y: Name)
    requires x != y
    ensures StripOne([], x) == [] && StripOne([], y) == []
    ensures StripOne([x], x) == [] && StripOne([x], y) == [x] && StripOne([y], x) == [y] && StripOne([y], y) == []
    ensures StripOne([x, y], x) == [y] && StripOne([y, x], y) == [x]
  {
  }

  lemma MergeNext(seqs: seq<seq<Name>>, j: nat, h: Name, rest: seq<seq<Name>>)
    requires |seqs| == |rest| == 3 && j < 3 && seqs[j] != [] && seqs[j][0] == h
    requires forall k :: 0 <= k < j ==> seqs[k] == []
    requires forall k :: 0 <= k < 3 ==> rest[k] == StripOne(seqs[k], h) && (seqs[k] == [] || h !in seqs[k][1..])
    ensures Merge(rest).Some? ==> Merge(seqs) == Some([h] + Merge(rest).value)
  {
    hide Merge;
    assert Strip(seqs, h) == rest;
    FirstGoodIs(seqs, 0, j);
    if Merge(rest).Some? {
      MergeUnfold(seqs, h, Merge(rest).value);
    }
  }

  lemma MergeEmpty(seqs: seq<seq<Name>>)
    requires AllEmpty(seqs)
    ensures Merge(seqs) == Some([])
  {
  }

  method BuildMro(name: Name, bases: seq<Name>, classes: Classes) returns (r: Result<seq<Name>>)
    ensures r == Mro(classes, name, bases)
    ensures r.Ok? ==> r.value != [] && r.value[0] == name && C3Order(classes, bases, r.value[1..])
    ensures r.TypeError? ==> !HasC3Order(classes, bases)
    ensures r.Ok? <==> exists order :: Consistent(order, Inputs(classes, bases))
  {
    ghost var inputs := Inputs(classes, bases);
    MroIsC3(classes, name, bases, []);
    MergeSucceedsIff(inputs);
    var sequences := Inputs(classes, bases);
    var result := [name];
    ResumeStart(name, Merge(inputs));
    while !AllEmpty(sequences)
      invariant result != [] && result[0] == name
      invariant Merge(inputs) == Resume(result[1..], Merge(sequences))
      decreases Total(sequences)
    {
      var candidate := FirstGood(sequences, 0);
      if candidate.None? {
        return TypeError;
      }
      var head := candidate.value;
      MergeRound(sequences, head);
      ResumeStep(result, head, Merge(DropEmpty(Strip(sequences, head))));
      result := result + [head];
      sequences := DropEmpty(Strip(sequences, head));
    }
    assert result == [name] + result[1..] && result[1..] + [] == result[1..];
    r := Ok(result);
  }

  /** What the loop has emitted, followed by the merge of what is left. */
  ghost function Resume(emitted: seq<Name>, rest: Option<seq<Name>>): Option<seq<Name>> {
    if rest.None? then None else Some(emitted + rest.value)
  }

  lemma ResumeStart(name: Name, m: Option<seq<Name>>)
    ensures Resume([name][1..], m) == m
  {
    if m.Some? {
      assert [name][1..] + m.value == m.value;
    }
  }

  lemma ResumeStep(result: seq<Name>, head: Name, rest: Option<seq<Name>>)
    requires result != []
    ensures Resume((result + [head])[1..], rest) == Resume(result[1..], Resume([head], rest))
  {
    if rest.Some? {
      assert (result + [head])[1..] + rest.value == result[1..] + ([head] + rest.value);
    }
  }

  /** One round of the loop. */
  lemma MergeRound(seqs: seq<seq<Name>>, head: Name)
    requires FirstGood(seqs, 0) == Some(head)
    ensures Merge(seqs) == Resume([head], Merge(DropEmpty(Strip(seqs, head))))
    ensures Total(DropEmpty(Strip(seqs, head))) < Total(seqs)
  {
    var j := FirstGoodFound(seqs, 0);
    StripTotal(seqs, head, j);
    DropEmptyKeeps(Strip(seqs, head));
    MergeDrop(Strip(seqs, head));
  }

  /** A new class comes first, lists each ancestor once, and keeps every input order. */
  lemma MroProperties(classes: Classes, name: Name, bases: seq<Name>)
    requires Mro(classes, name, bases).Ok?
    requires !Mentions(Inputs(classes, bases), name)
    ensures var mro := Mro(classes, name, bases).value;
            && mro[0] == name
            && Distinct(mro)
            && (forall x :: x in mro <==> x == name || Mentions(Inputs(classes, bases), x))
            && Extends(mro, bases)
            && forall b :: b in bases ==> Extends(mro, OrderOf(classes, b))
  {
    var inputs := Inputs(classes, bases);
    MergeSound(inputs);
    var m := Merge(inputs).value;
    assert name !in m;
    assert Extends([name] + m, bases) by {
      InputKept(inputs, name, m, |bases|);
    }
    forall b | b in bases ensures Extends([name] + m, OrderOf(classes, b)) {
      var k :| 0 <= k < |bases| && bases[k] == b;
      InputKept(inputs, name, m, k);
    }
  }

  lemma InputKept(inputs: seq<seq<Name>>, name: Name, m: seq<Name>, k: nat)
    requires k < |inputs| && Consistent(m, inputs) && !Mentions(inputs, name)
    ensures Extends([name] + m, inputs[k])
  {
    assert name !in inputs[k];
    ExtendsCons(m, name, inputs[k]);
  }

  // ---------- the registry over whole runs ----------

  /** Every registered order starts with its class, repeats nothing, and extends the orders of the registered classes in it. */
  ghost predicate Monotone(classes: Classes) {
    forall c :: c in classes ==> Orderly(classes, c)
  }

  ghost predicate Orderly(classes: Classes, c: Name)
    requires c in classes
  {
    var mro := classes[c].mro;
    && mro != [] && mro[0] == c
    && Distinct(mro)
    && forall d :: d in mro && d in classes ==> Extends(mro, classes[d].mro)
  }

  /** `name` is used by no class so far and is not its own base. */
  ghost predicate FreshName(classes: Classes, name: Name, bases: seq<Name>) {
    && name !in classes
    && name !in bases
    && forall c :: c in classes ==> name !in classes[c].mro
  }

  datatype Definition = Definition(name: Name, bases: seq<Name>, methods: set<Name>)

  /** A class statement: on a `TypeError` the registry stays as it was. */
  function Define(classes: Classes, d: Definition): Classes {
    var mro := Mro(classes, d.name, d.bases);
    if mro.Ok? then classes[d.name := ClassInfo(d.bases, mro.value, d.methods)] else classes
  }

  lemma ExtendsTransitive(a: seq<Name>, b: seq<Name>, c: seq<Name>)
    requires Extends(a, b) && Extends(b, c)
    ensures Extends(a, c)
  {
    forall i, j | 0 <= i < j < |c| ensures Before(a, c[i], c[j]) {
      assert Before(b, c[i], c[j]);
      var p, q :| 0 <= p < q < |b| && b[p] == c[i] && b[q] == c[j];
      assert Before(a, b[p], b[q]);
    }
  }

  lemma ExtendsSelf(s: seq<Name>)
    ensures Extends(s, s)
  {
  }

  lemma FreshIsUnmentioned(classes: Classes, name: Name, bases: seq<Name>)
    requires FreshName(classes, name, bases)
    ensures !Mentions(Inputs(classes, bases), name)
  {
    var inputs := Inputs(classes, bases);
    forall k | 0 <= k < |inputs| ensures name !in inputs[k] {
      if k < |bases| {
        assert inputs[k] == OrderOf(classes, bases[k]);
      }
    }
  }

  /** The order of a registered ancestor is kept by every class that inherits it. */
  lemma AncestorKept(classes: Classes, name: Name, bases: seq<Name>, d: Name)
    requires Monotone(classes) && !Mentions(Inputs(classes, bases), name) && Mro(classes, name, bases).Ok?
    requires d in classes && Mentions(Inputs(classes, bases), d)
    ensures Extends(Mro(classes, name, bases).value, classes[d].mro)
  {
    var inputs := Inputs(classes, bases);
    var mro := Mro(classes, name, bases).value;
    MroProperties(classes, name, bases);
    var k :| 0 <= k < |inputs| && d in inputs[k];
    hide Mro, Mentions, Extends, Distinct;
    if k == |bases| {
      assert OrderOf(classes, d) == classes[d].mro;
    } else {
      var b := bases[k];
      assert inputs[k] == OrderOf(classes, b) && Extends(mro, OrderOf(classes, b));
      if b in classes {
        assert Orderly(classes, b);
        ExtendsTransitive(mro, classes[b].mro, classes[d].mro);
      }
    }
  }

  /**
   A definition that keeps the registry monotone: the name occurs in no order that is merged, and
   every other class that already lists the name keeps the new order too. With a fresh name there
   is no such class; a rebound name must not reorder or extend what its subclasses have stored.
   */
  ghost predicate Compatible(classes: Classes, d: Definition) {
    var mro := Mro(classes, d.name, d.bases);
    mro.Ok? ==>
      && !Mentions(Inputs(classes, d.bases), d.name)
      && forall c :: c in classes && c != d.name && d.name in classes[c].mro ==> Extends(classes[c].mro, mro.value)
  }

  /** A class statement, fresh or rebinding, keeps the registry monotone exactly if it is compatible. */
  lemma DefineMonotoneExactly(classes: Classes, d: Definition)
    requires Monotone(classes)
    ensures Monotone(Define(classes, d)) <==> Compatible(classes, d)
  {
    if Mro(classes, d.name, d.bases).Ok? {
      if Compatible(classes, d) {
        CompatibleIsMonotone(classes, d);
      }
      if Monotone(Define(classes, d)) {
        MonotoneIsCompatible(classes, d);
      }
    }
  }

  lemma CompatibleIsMonotone(classes: Classes, d: Definition)
    requires Monotone(classes) && Mro(classes, d.name, d.bases).Ok? && Compatible(classes, d)
    ensures Monotone(Define(classes, d))
  {
    var r := Define(classes, d);
    var mro := Mro(classes, d.name, d.bases).value;
    MroProperties(classes, d.name, d.bases);
    hide Mro, Mentions, Extends, Distinct;
    forall a | a in mro && a in r ensures Extends(mro, r[a].mro) {
      if a == d.name {
        ExtendsSelf(mro);
      } else {
        AncestorKept(classes, d.name, d.bases, a);
      }
    }
    forall c | c in r ensures Orderly(r, c) {
      if c != d.name {
        assert Orderly(classes, c) && r[c] == classes[c];
      }
    }
  }

  lemma MonotoneIsCompatible(classes: Classes, d: Definition)
    requires Mro(classes, d.name, d.bases).Ok? && Monotone(Define(classes, d))
    ensures Compatible(classes, d)
  {
    var r := Define(classes, d);
    var mro := Mro(classes, d.name, d.bases).value;
    MergeSound(Inputs(classes, d.bases));
    assert Orderly(r, d.name);
    NotRepeated(d.name, mro);
    hide Mentions, Extends, Distinct;
    forall c | c in classes && c != d.name && d.name in classes[c].mro ensures Extends(classes[c].mro, mro) {
      assert Orderly(r, c) && r[c] == classes[c];
    }
  }

  lemma NotRepeated(name: Name, mro: seq<Name>)
    requires mro != [] && mro[0] == name && Distinct(mro)
    ensures name !in mro[1..]
  {
  }

  lemma FreshIsCompatible(classes: Classes, d: Definition)
    requires FreshName(classes, d.name, d.bases)
    ensures Compatible(classes, d)
  {
    FreshIsUnmentioned(classes, d.name, d.bases);
  }

  /** Rebinding a name is harmless as long as its order stays what it was. */
  lemma SameOrderIsCompatible(classes: Classes, d: Definition)
    requires Monotone(classes) && d.name in classes && Mro(classes, d.name, d.bases) == Ok(classes[d.name].mro)
    ensures Compatible(classes, d)
  {
    MergeSound(Inputs(classes, d.bases));
    assert Orderly(classes, d.name);
    NotRepeated(d.name, classes[d.name].mro);
    hide Mentions, Extends, Distinct;
    forall c | c in classes && d.name in classes[c].mro ensures Extends(classes[c].mro, classes[d.name].mro) {
      assert Orderly(classes, c);
    }
  }

  function DefineAll(classes: Classes, ds: seq<Definition>): Classes {
    if ds == [] then classes else Define(DefineAll(classes, ds[..|ds| - 1]), ds[|ds| - 1])
  }

  /** Each definition of the run introduces a name that is new when it is made. */
  ghost predicate AllFresh(ds: seq<Definition>) {
    forall i :: 0 <= i < |ds| ==> FreshName(DefineAll(map[], ds[..i]), ds[i].name, ds[i].bases)
  }

  /** A run keeps the registry monotone after every statement exactly if each statement is compatible when it is made. */
  lemma {:induction false} RunMonotoneExactly(ds: seq<Definition>)
    ensures (forall i :: 0 <= i <= |ds| ==> Monotone(DefineAll(map[], ds[..i])))
       <==> forall i :: 0 <= i < |ds| ==> Compatible(DefineAll(map[], ds[..i]), ds[i])
  {
    hide Monotone, Compatible;
    if forall i :: 0 <= i <= |ds| ==> Monotone(DefineAll(map[], ds[..i])) {
      forall i | 0 <= i < |ds| ensures Compatible(DefineAll(map[], ds[..i]), ds[i]) {
        DefineAllStep(ds, i);
        assert Monotone(DefineAll(map[], ds[..i])) && Monotone(DefineAll(map[], ds[..i + 1]));
        DefineMonotoneExactly(DefineAll(map[], ds[..i]), ds[i]);
      }
    }
    if forall i :: 0 <= i < |ds| ==> Compatible(DefineAll(map[], ds[..i]), ds[i]) {
      forall i | 0 <= i <= |ds| ensures Monotone(DefineAll(map[], ds[..i])) {
        CompatibleRun(ds, i);
      }
    }
  }

  lemma EmptyIsMonotone()
    ensures Monotone(map[])
  {
  }

  lemma {:induction false} CompatibleRun(ds: seq<Definition>, n: nat)
    requires n <= |ds| && forall i :: 0 <= i < |ds| ==> Compatible(DefineAll(map[], ds[..i]), ds[i])
    ensures Monotone(DefineAll(map[], ds[..n]))
  {
    hide Monotone, Compatible, Define;
    if n == 0 {
      assert ds[..0] == [];
      EmptyIsMonotone();
    } else {
      CompatibleRun(ds, n - 1);
      DefineAllStep(ds, n - 1);
      DefineMonotoneExactly(DefineAll(map[], ds[..n - 1]), ds[n - 1]);
    }
  }

  /** Over every run of class statements with fresh names the whole registry stays monotone. */
  lemma RegistryMonotone(ds: seq<Definition>)
    requires AllFresh(ds)
    ensures Monotone(DefineAll(map[], ds))
  {
    hide Monotone, Compatible, FreshName, DefineAll;
    forall i | 0 <= i < |ds| ensures Compatible(DefineAll(map[], ds[..i]), ds[i]) {
      FreshIsCompatible(DefineAll(map[], ds[..i]), ds[i]);
    }
    CompatibleRun(ds, |ds|);
    assert ds[..|ds|] == ds;
  }

  lemma MroWithoutBases(classes: Classes, name: Name)
    ensures Mro(classes, name, []) == Ok([name])
  {
    MergeSingle([]);
    assert Inputs(classes, []) == [[]];
    assert [name] + [] == [name];
  }

  lemma MroOfOneBase(classes: Classes, name: Name, b: Name)
    requires OrderOf(classes, b) == [b]
    ensures Mro(classes, name, [b]) == Ok([name, b])
  {
    MergeSingle([b]);
    assert Inputs(classes, [b]) == [[b], [b]];
    assert [name] + [b] == [name, b];
  }

  lemma DefineAllStep(ds: seq<Definition>, i: nat)
    requires i < |ds|
    ensures DefineAll(map[], ds[..i + 1]) == Define(DefineAll(map[], ds[..i]), ds[i])
  {
    assert ds[..i + 1][..i] == ds[..i];
  }

  /** A run that is not compatible: rebinding a base leaves a stale order behind. */
  lemma RebindingBreaksMonotone(a: Name, b: Name, x: Name)
    requires a != b && a != x && b != x
    ensures var ds := [Definition(a, [], {}), Definition(b, [a], {}), Definition(a, [x], {})];
            !AllFresh(ds) && !Monotone(DefineAll(map[], ds))
  {
    var ds := [Definition(a, [], {}), Definition(b, [a], {}), Definition(a, [x], {})];
    assert ds[..2][..1] == ds[..1] && ds[..1][..0] == [];
    assert ds[..3] == ds;
    DefineAllStep(ds, 0);
    DefineAllStep(ds, 1);
    DefineAllStep(ds, 2);
    var r1 := DefineAll(map[], ds[..1]);
    var r2 := DefineAll(map[], ds[..2]);
    var r3 := DefineAll(map[], ds);
    MroWithoutBases(map[], a);
    MroOfOneBase(r1, b, a);
    MroOfOneBase(r2, a, x);
    StaleOrder(r3, a, b, x);
    assert !FreshName(r2, ds[2].name, ds[2].bases);
  }

  lemma StaleOrder(classes: Classes, a: Name, b: Name, x: Name)
    requires a != x && b != x && a in classes && b in classes
    requires classes[b].mro == [b, a] && classes[a].mro == [a, x]
    ensures !Monotone(classes)
  {
    var stale, now := classes[b].mro, classes[a].mro;
    assert now[1] == x && x !in stale;
    assert !Extends(stale, now);
    assert stale[1] == a && a in stale;
    assert !Orderly(classes, b);
  }

  /** One sequence of at most one name, given once or twice. */
  lemma MergeSingle(s: seq<Name>)
    requires |s| <= 1
    ensures Merge([s]) == Some(s) && Merge([s, s]) == Some(s)
  {
    if s == [] {
    } else {
      var x := s[0];
      FirstGoodIs([s], 0, 0);
      FirstGoodIs([s, s], 0, 0);
      assert Strip([s], x) == [[]] && Strip([s, s], x) == [[], []];
      MergeUnfold([s], x, []);
      MergeUnfold([s, s], x, []);
      assert [x] + [] == s;
    }
  }

  // ---------- method lookup and super() ----------

  predicate Defines(classes: Classes, c: Name, m: Name) {
    c in classes && m in classes[c].methods
  }

  /** The classes of `order` that define `m`, in order. */
  function Definers(classes: Classes, order: seq<Name>, m: Name): seq<Name> {
    if order == [] then []
    else if Defines(classes, order[0], m) then [order[0]] + Definers(classes, order[1..], m)
    else Definers(classes, order[1..], m)
  }

  function FirstDefiner(classes: Classes, order: seq<Name>, m: Name): Option<Name> {
    var ds := Definers(classes, order, m);
    if ds == [] then None else Some(ds[0])
  }

  /** `r` is the first class of `order`, at or after position `start`, with `m` among its methods. */
  ghost predicate FirstFrom(classes: Classes, order: seq<Name>, start: nat, m: Name, r: Option<Name>) {
    match r
    case None => forall j :: start <= j < |order| && order[j] in classes ==> m !in classes[order[j]].methods
    case Some(d) =>
      && d in classes && m in classes[d].methods
      && exists j :: start <= j < |order| && order[j] == d
           && forall i :: start <= i < j && order[i] in classes ==> m !in classes[order[i]].methods
  }

  /** The scan both lookups share: the first definer at or after position `start`. */
  method ScanOrder(classes: Classes, order: seq<Name>, start: nat, m: Name) returns (r: Option<Name>)
    requires start <= |order|
    ensures r == FirstDefiner(classes, order[start..], m)
    ensures FirstFrom(classes, order, start, m, r)
  {
    for i := start to |order|
      invariant FirstDefiner(classes, order[start..], m) == FirstDefiner(classes, order[i..], m)
      invariant forall j :: start <= j < i ==> !Defines(classes, order[j], m)
    {
      assert order[i..][1..] == order[i + 1..];
      if order[i] in classes && m in classes[order[i]].methods {
        return Some(order[i]);
      }
    }
    assert order[|order|..] == [];
    r := None;
  }

  /** `lookup_method_in_mro`. */
  method LookupMethod(classes: Classes, c: Name, m: Name) returns (r: Option<Name>)
    ensures r == if c in classes then FirstDefiner(classes, classes[c].mro, m) else None
    ensures c in classes ==> FirstFrom(classes, classes[c].mro, 0, m, r)
  {
    if c !in classes {
      return None;
    }
    r := ScanOrder(classes, classes[c].mro, 0, m);
    assert classes[c].mro[0..] == classes[c].mro;
  }

  /** The outcome of `super().m()`: the next implementation, the object default, or an error. */
  datatype SuperResult = Found(definer: Name) | ObjectDefault | NotInMro | NotRegistered

  /** How a call ends: the chain reaches the object default, or no class of the order has the method. */
  datatype CallEnd = ReachedDefault | NoSuchMethod

  function PositionFrom(order: seq<Name>, x: Name, i: nat): (r: Option<nat>)
    requires i <= |order|
    ensures r.Some? ==> i <= r.value < |order| && order[r.value] == x && x !in order[i..r.value]
    ensures r.None? ==> x !in order[i..]
    decreases |order| - i
  {
    if i == |order| then None
    else if order[i] == x then Some(i)
    else PositionFrom(order, x, i + 1)
  }

  function Super(classes: Classes, instanceClass: Name, defining: Name, m: Name): SuperResult {
    if instanceClass !in classes then NotRegistered
    else
      var mro := classes[instanceClass].mro;
      var p := PositionFrom(mro, defining, 0);
      if p.None? then NotInMro
      else
        var next := FirstDefiner(classes, mro[p.value + 1..], m);
        if next.None? then ObjectDefault else Found(next.value)
  }

  /** The walk resumes behind the first place of `defining`, at the first class there with `m` among its methods. */
  ghost predicate Resumes(classes: Classes, instanceClass: Name, defining: Name, m: Name, r: SuperResult) {
    if instanceClass !in classes then r == NotRegistered
    else
      var mro := classes[instanceClass].mro;
      if defining !in mro then r == NotInMro
      else exists p :: 0 <= p < |mro| && mro[p] == defining && defining !in mro[..p]
             && FirstFrom(classes, mro, p + 1, m, if r.Found? then Some(r.definer) else None)
             && (r.Found? || r == ObjectDefault)
  }

  /** `super_method_call`, up to the choice of the implementation. */
  method SuperMethod(classes: Classes, instanceClass: Name, defining: Name, m: Name) returns (r: SuperResult)
    ensures r == Super(classes, instanceClass, defining, m)
    ensures Resumes(classes, instanceClass, defining, m, r)
  {
    if instanceClass !in classes {
      return NotRegistered;
    }
    var mro := classes[instanceClass].mro;
    var p := PositionFrom(mro, defining, 0);
    if p.None? {
      return NotInMro;
    }
    var next := ScanOrder(classes, mro, p.value + 1, m);
    assert mro[0..p.value] == mro[..p.value];
    r := if next.None? then ObjectDefault else Found(next.value);
  }

  lemma {:induction false} DefinersAfter(classes: Classes, order: seq<Name>, m: Name, i: nat)
    requires i < |order| && Defines(classes, order[i], m)
    ensures Definers(classes, order[i..], m) == [order[i]] + Definers(classes, order[i + 1..], m)
  {
    assert order[i..][1..] == order[i + 1..];
  }

  lemma {:induction false} DefinersMembers(classes: Classes, order: seq<Name>, m: Name)
    ensures forall x :: x in Definers(classes, order, m) <==> x in order && Defines(classes, x, m)
  {
    if order != [] {
      DefinersMembers(classes, order[1..], m);
      assert order == [order[0]] + order[1..];
    }
  }

  lemma {:induction false} FirstDefinerPosition(classes: Classes, order: seq<Name>, m: Name, i: nat) returns (j: nat)
    requires i <= |order| && Definers(classes, order[i..], m) != []
    ensures i <= j < |order| && Defines(classes, order[j], m)
    ensures Definers(classes, order[i..], m) == Definers(classes, order[j..], m)
    ensures Definers(classes, order[i..], m)[0] == order[j]
    decreases |order| - i
  {
    assert order[i..][1..] == order[i + 1..];
    if Defines(classes, order[i], m) {
      j := i;
    } else {
      j := FirstDefinerPosition(classes, order, m, i + 1);
    }
  }

  /** `super().m()` from a definer resumes behind the first place of its class in the order, wherever it was found. */
  lemma SuperResumes(classes: Classes, c: Name, m: Name, j: nat) returns (p: nat)
    requires c in classes && j < |classes[c].mro| && Defines(classes, classes[c].mro[j], m)
    ensures p <= j && classes[c].mro[p] == classes[c].mro[j] && (p == j <==> classes[c].mro[j] !in classes[c].mro[..j])
    ensures var rest := Definers(classes, classes[c].mro[p + 1..], m);
            && Definers(classes, classes[c].mro[p..], m) == [classes[c].mro[p]] + rest
            && Super(classes, c, classes[c].mro[j], m) == if rest == [] then ObjectDefault else Found(rest[0])
  {
    var mro := classes[c].mro;
    assert mro[0..] == mro && mro[j] in mro[0..];
    p := PositionFrom(mro, mro[j], 0).value;
    assert forall i :: 0 <= i < p ==> mro[0..p][i] == mro[i];
    assert p < j ==> mro[..j][p] == mro[j];
    assert mro[0..p] == mro[..p];
    DefinersAfter(classes, mro, m, p);
  }

  // ---------- the cooperative chain ----------

  /** The `k`-th implementation of `m` that a call on an instance of `c` runs, if each calls `super().m()` once. */
  function Running(classes: Classes, c: Name, m: Name, k: nat): Option<Name>
    requires c in classes
  {
    if k == 0 then FirstDefiner(classes, classes[c].mro, m)
    else
      var before := Running(classes, c, m, k - 1);
      if before.None? then None
      else
        var next := Super(classes, c, before.value, m);
        if next.Found? then Some(next.definer) else None
  }

  lemma RunningStep(classes: Classes, c: Name, m: Name, k: nat)
    requires c in classes && Running(classes, c, m, k).Some?
    ensures var next := Super(classes, c, Running(classes, c, m, k).value, m);
            Running(classes, c, m, k + 1) == if next.Found? then Some(next.definer) else None
  {
  }

  /** What every stored order satisfies: the class first, and no repetition behind it. */
  ghost predicate Stored(classes: Classes, c: Name) {
    c in classes && classes[c].mro != [] && classes[c].mro[0] == c && Distinct(classes[c].mro[1..])
  }

  /** Over any run of class statements, rebinding included, every order is of that form. */
  lemma {:induction false} RunStores(ds: seq<Definition>)
    ensures forall c :: c in DefineAll(map[], ds) ==> Stored(DefineAll(map[], ds), c)
  {
    if ds != [] {
      var n := |ds| - 1;
      RunStores(ds[..n]);
      DefineStores(DefineAll(map[], ds[..n]), ds[n]);
    }
  }

  lemma DefineStores(classes: Classes, d: Definition)
    requires forall c :: c in classes ==> Stored(classes, c)
    ensures forall c :: c in Define(classes, d) ==> Stored(Define(classes, d), c)
  {
    var mro := Mro(classes, d.name, d.bases);
    if mro.Ok? {
      MergeSound(Inputs(classes, d.bases));
      assert mro.value[1..] == Merge(Inputs(classes, d.bases)).value;
    }
  }

  /** What a successful class statement registers. */
  ghost predicate StoredAs(classes: Classes, d: Definition, info: ClassInfo) {
    && info.bases == d.bases && info.methods == d.methods
    && info.mro != [] && info.mro[0] == d.name && C3Order(classes, d.bases, info.mro[1..])
  }

  /** The registry after the first `n` statements of a run. */
  ghost function After(ds: seq<Definition>, n: nat): Classes
    requires n <= |ds|
  {
    DefineAll(map[], ds[..n])
  }

  /** The last of the first `n` statements that defines `c` and has a C3 order. */
  ghost predicate LastAccepted(ds: seq<Definition>, n: nat, c: Name, i: nat) {
    && i < n <= |ds| && ds[i].name == c && HasC3Order(After(ds, i), ds[i].bases)
    && forall j: nat :: i < j < n && ds[j].name == c ==> !HasC3Order(After(ds, j), ds[j].bases)
  }

  /** Over any run, a class is stored exactly if some statement defining it has a C3 order, and its order is the one the last of them had. */
  lemma {:induction false} RunStoresC3(ds: seq<Definition>, n: nat, c: Name)
    requires n <= |ds|
    ensures c in After(ds, n) <==> exists i: nat :: LastAccepted(ds, n, c, i)
    ensures forall i: nat :: LastAccepted(ds, n, c, i) ==> c in After(ds, n) && StoredAs(After(ds, i), ds[i], After(ds, n)[c])
  {
    hide HasC3Order, StoredAs, Define, DefineAll;
    if n == 0 {
      NothingStored(ds);
    } else {
      RunStoresC3(ds, n - 1, c);
      DefineAllStep(ds, n - 1);
      DefineStoresC3(After(ds, n - 1), ds[n - 1]);
      if ds[n - 1].name == c && HasC3Order(After(ds, n - 1), ds[n - 1].bases) {
        assert LastAccepted(ds, n, c, n - 1);
      } else {
        NotAccepted(ds, n, n - 1, c);
      }
    }
  }

  lemma NotAccepted(ds: seq<Definition>, n: nat, m: nat, c: Name)
    requires n == m + 1 <= |ds| && !(ds[m].name == c && HasC3Order(After(ds, m), ds[m].bases))
    ensures (exists i: nat :: LastAccepted(ds, n, c, i)) <==> exists i: nat :: LastAccepted(ds, m, c, i)
    ensures forall i: nat :: LastAccepted(ds, n, c, i) ==> LastAccepted(ds, m, c, i)
  {
    hide HasC3Order, After;
    if i: nat :| LastAccepted(ds, n, c, i) {
      assert LastAccepted(ds, m, c, i);
    }
    if i: nat :| LastAccepted(ds, m, c, i) {
      assert LastAccepted(ds, n, c, i);
    }
  }

  lemma NothingStored(ds: seq<Definition>)
    ensures After(ds, 0) == map[]
  {
  }

  lemma DefineStoresC3(classes: Classes, d: Definition)
    ensures HasC3Order(classes, d.bases) ==>
      Define(classes, d).Keys == classes.Keys + {d.name} && StoredAs(classes, d, Define(classes, d)[d.name])
    ensures !HasC3Order(classes, d.bases) ==> Define(classes, d) == classes
    ensures forall c :: c in classes && c != d.name ==> c in Define(classes, d) && Define(classes, d)[c] == classes[c]
  {
    hide C3Order;
    MroIsC3(classes, d.name, d.bases, []);
  }

  /** The class is listed again behind itself, as `class A(A)` does, and defines the method. */
  predicate Loops(classes: Classes, c: Name, m: Name)
    requires c in classes && classes[c].mro != []
  {
    c in classes[c].mro[1..] && Defines(classes, c, m)
  }

  /** Where the `k`-th definer of an order stands. */
  lemma {:induction false} DefinerAt(classes: Classes, order: seq<Name>, m: Name, k: nat) returns (j: nat)
    requires k < |Definers(classes, order, m)|
    ensures j < |order| && order[j] == Definers(classes, order, m)[k] && Defines(classes, order[j], m)
    ensures Definers(classes, order[j..], m) == Definers(classes, order, m)[k..]
  {
    assert order[0..] == order;
    if Defines(classes, order[0], m) {
      if k == 0 {
        j := 0;
      } else {
        j := DefinerAt(classes, order[1..], m, k - 1);
        assert order[1..][j..] == order[j + 1..];
        j := j + 1;
      }
    } else {
      j := DefinerAt(classes, order[1..], m, k);
      assert order[1..][j..] == order[j + 1..];
      j := j + 1;
    }
  }

  /** Where the class does not loop, each definer stands at the first place of its name. */
  lemma FirstPlace(classes: Classes, c: Name, m: Name, j: nat)
    requires Stored(classes, c) && !Loops(classes, c, m)
    requires j < |classes[c].mro| && Defines(classes, classes[c].mro[j], m)
    ensures classes[c].mro[j] !in classes[c].mro[..j]
  {
    var mro := classes[c].mro;
    forall i | 0 <= i < j ensures mro[i] != mro[j] {
      assert mro[1..][j - 1] == mro[j];
      if i > 0 {
        assert mro[1..][i - 1] == mro[i];
      }
    }
  }

  /** Where it does not loop, the call runs the definers of the order one after the other. */
  lemma {:induction false} RunningIs(classes: Classes, c: Name, m: Name, k: nat)
    requires Stored(classes, c) && !Loops(classes, c, m)
    ensures var ds := Definers(classes, classes[c].mro, m);
            Running(classes, c, m, k) == if k < |ds| then Some(ds[k]) else None
  {
    hide Running, Super, Definers, Distinct, Loops, Defines;
    var mro := classes[c].mro;
    var ds := Definers(classes, mro, m);
    if k == 0 {
      RunningFirst(classes, c, m);
    } else {
      RunningIs(classes, c, m, k - 1);
      if k - 1 < |ds| {
        RunningStep(classes, c, m, k - 1);
        var j := DefinerAt(classes, mro, m, k - 1);
        FirstPlace(classes, c, m, j);
        var p := SuperResumes(classes, c, m, j);
        assert ds[k - 1..][1..] == ds[k..];
      } else {
        RunningStops(classes, c, m, k - 1);
      }
    }
  }

  lemma RunningStops(classes: Classes, c: Name, m: Name, k: nat)
    requires c in classes && Running(classes, c, m, k).None?
    ensures Running(classes, c, m, k + 1).None?
  {
  }

  /** Where it loops, the call never gets past the second place of the class. */
  lemma {:induction false} RunningLoops(classes: Classes, c: Name, m: Name, k: nat, q: nat) returns (p: nat)
    requires Stored(classes, c) && 0 < q < |classes[c].mro| && classes[c].mro[q] == c && Defines(classes, c, m)
    ensures p < q && Running(classes, c, m, k) == Some(classes[c].mro[p]) && Defines(classes, classes[c].mro[p], m)
  {
    if k == 0 {
      p := 0;
      assert classes[c].mro[0..] == classes[c].mro;
      DefinersAfter(classes, classes[c].mro, m, 0);
    } else {
      hide Running, Super, Definers;
      var before := RunningLoops(classes, c, m, k - 1, q);
      RunningStep(classes, c, m, k - 1);
      p := NextInLoop(classes, c, m, before, q);
    }
  }

  lemma NextInLoop(classes: Classes, c: Name, m: Name, before: nat, q: nat) returns (p: nat)
    requires Stored(classes, c) && before < q < |classes[c].mro| && classes[c].mro[q] == c && Defines(classes, c, m)
    requires Defines(classes, classes[c].mro[before], m)
    ensures p < q && Super(classes, c, classes[c].mro[before], m) == Found(classes[c].mro[p]) && Defines(classes, classes[c].mro[p], m)
  {
    hide Super;
    var mro := classes[c].mro;
    var first := SuperResumes(classes, c, m, before);
    DefinersMembers(classes, mro[first + 1..], m);
    assert mro[first + 1..][q - first - 1] == c;
    p := FirstDefinerPosition(classes, mro, m, first + 1);
    FirstBefore(classes, mro, m, first + 1, p, q);
    if p == q {
      p := 0;
    }
  }

  /** The first definer from `i` on stands no later than any definer from `i` on. */
  lemma FirstBefore(classes: Classes, order: seq<Name>, m: Name, i: nat, p: nat, q: nat)
    requires i <= p < |order| && i <= q < |order| && Defines(classes, order[q], m)
    requires Definers(classes, order[i..], m) == Definers(classes, order[p..], m)
    ensures p <= q
  {
    if q < p {
      FewerBehind(classes, order, m, i, q);
      FewerBehind(classes, order, m, q + 1, p);
      DefinersAfter(classes, order, m, q);
    }
  }

  lemma {:induction false} FewerBehind(classes: Classes, order: seq<Name>, m: Name, i: nat, p: nat)
    requires i <= p <= |order|
    ensures |Definers(classes, order[p..], m)| <= |Definers(classes, order[i..], m)|
    decreases p - i
  {
    if i < p {
      assert order[i..][1..] == order[i + 1..];
      FewerBehind(classes, order, m, i + 1, p);
    }
  }

  /** A cooperative call ends exactly if the class is not listed behind itself with the method defined. */
  lemma ChainEndsExactly(classes: Classes, c: Name, m: Name)
    requires Stored(classes, c)
    ensures (exists k: nat :: Running(classes, c, m, k).None?) <==> !Loops(classes, c, m)
  {
    if Loops(classes, c, m) {
      var i :| 0 <= i < |classes[c].mro[1..]| && classes[c].mro[1..][i] == c;
      forall k: nat ensures Running(classes, c, m, k).Some? {
        var p := RunningLoops(classes, c, m, k, i + 1);
      }
    } else {
      RunningIs(classes, c, m, |Definers(classes, classes[c].mro, m)|);
    }
  }

  /** The implementations that run are definers of the order, so `super()` finds its place there. */
  lemma {:induction false} RunningListed(classes: Classes, c: Name, m: Name, k: nat)
    requires c in classes && Running(classes, c, m, k).Some?
    ensures var d := Running(classes, c, m, k).value;
            && d in classes[c].mro && Defines(classes, d, m)
            && (Super(classes, c, d, m).Found? || Super(classes, c, d, m) == ObjectDefault)
  {
    var mro := classes[c].mro;
    assert mro[0..] == mro;
    if k == 0 {
      DefinersMembers(classes, mro, m);
    } else {
      var d := Running(classes, c, m, k - 1).value;
      RunningListed(classes, c, m, k - 1);
      var p := PositionFrom(mro, d, 0).value;
      DefinersMembers(classes, mro[p + 1..], m);
      assert forall x :: x in mro[p + 1..] ==> x in mro;
    }
  }

  /** A call, watched for at most `steps` implementations, since it may never end: `end` is `None` while it runs. */
  method CallChain(classes: Classes, c: Name, m: Name, steps: nat) returns (trace: seq<Name>, end: Option<CallEnd>)
    requires c in classes
    ensures |trace| <= steps && forall k :: 0 <= k < |trace| ==> Running(classes, c, m, k) == Some(trace[k])
    ensures end.None? ==> |trace| == steps && Running(classes, c, m, steps).Some?
    ensures end.Some? ==> Running(classes, c, m, |trace|).None?
                          && end.value == if trace == [] then NoSuchMethod else ReachedDefault
    ensures Stored(classes, c) && end.Some? ==> !Loops(classes, c, m) && trace == Definers(classes, classes[c].mro, m)
  {
    hide Definers, FirstDefiner, Super, Loops, Stored;
    RunningFirst(classes, c, m);
    var next := LookupMethod(classes, c, m);
    trace := [];
    while next.Some? && |trace| < steps
      invariant |trace| <= steps && next == Running(classes, c, m, |trace|)
      invariant forall k :: 0 <= k < |trace| ==> Running(classes, c, m, k) == Some(trace[k])
      decreases steps - |trace|
    {
      RunningStep(classes, c, m, |trace|);
      RunningListed(classes, c, m, |trace|);
      trace := trace + [next.value];
      var s := SuperMethod(classes, c, next.value, m);
      assert s.Found? || s == ObjectDefault;
      next := if s.Found? then Some(s.definer) else None;
    }
    if next.Some? {
      return trace, None;
    }
    end := Some(if trace == [] then NoSuchMethod else ReachedDefault);
    if Stored(classes, c) {
      ChainEndsExactly(classes, c, m);
      TraceIsDefiners(classes, c, m, trace);
    }
  }

  lemma RunningFirst(classes: Classes, c: Name, m: Name)
    requires c in classes
    ensures Running(classes, c, m, 0) == FirstDefiner(classes, classes[c].mro, m)
  {
  }

  lemma TraceIsDefiners(classes: Classes, c: Name, m: Name, trace: seq<Name>)
    requires Stored(classes, c) && !Loops(classes, c, m) && Running(classes, c, m, |trace|).None?
    requires forall k :: 0 <= k < |trace| ==> Running(classes, c, m, k) == Some(trace[k])
    ensures trace == Definers(classes, classes[c].mro, m)
  {
    var ds := Definers(classes, classes[c].mro, m);
    RunningIs(classes, c, m, |trace|);
    forall k | 0 <= k < |trace| ensures k < |ds| && trace[k] == ds[k] {
      RunningIs(classes, c, m, k);
    }
  }

  /** `class A: def m`, then `class A(A): def m` calling `super().m()`: the order is `[A, A]`, and `A.m` runs for ever. */
  lemma SelfBaseLoops(a: Name, m: Name, k: nat)
    ensures var classes := DefineAll(map[], [Definition(a, [], {m}), Definition(a, [a], {m})]);
            a in classes && classes[a].mro == [a, a] && Running(classes, a, m, k) == Some(a)
  {
    var ds := [Definition(a, [], {m}), Definition(a, [a], {m})];
    assert ds[..0] == [] && ds[..2] == ds;
    DefineAllStep(ds, 0);
    DefineAllStep(ds, 1);
    var r1 := DefineAll(map[], ds[..1]);
    MroWithoutBases(map[], a);
    MroOfOneBase(r1, a, a);
    var r2 := DefineAll(map[], ds);
    assert r2[a].mro[1..] == [a];
    var p := RunningLoops(r2, a, m, k, 1);
  }

  /** The definers of an order are listed once each, in that order, exactly if the call ends. */
  lemma ChainRunsEachOnce(classes: Classes, c: Name, m: Name)
    requires Stored(classes, c)
    ensures var trace := Definers(classes, classes[c].mro, m);
            && (Distinct(trace) <==> !Loops(classes, c, m))
            && (forall x :: x in trace <==> x in classes[c].mro && Defines(classes, x, m))
            && (!Loops(classes, c, m) ==> Extends(classes[c].mro, trace))
  {
    hide Extends, Defines;
    var mro := classes[c].mro;
    var tail := mro[1..];
    assert mro == [c] + tail;
    DefinersMembers(classes, mro, m);
    DefinersMembers(classes, tail, m);
    DefinersOrdered(classes, tail, m);
    var rest := Definers(classes, tail, m);
    if Loops(classes, c, m) {
      var i :| 0 <= i < |rest| && rest[i] == c;
      var trace := Definers(classes, mro, m);
      assert trace == [c] + rest;
      assert trace[0] == c && trace[i + 1] == c;
    } else if Defines(classes, c, m) {
      PrependBoth(tail, c, rest);
    } else {
      PrependOrder(tail, c, rest);
    }
  }

  lemma {:induction false} DefinersOrdered(classes: Classes, order: seq<Name>, m: Name)
    requires Distinct(order)
    ensures Distinct(Definers(classes, order, m)) && Extends(order, Definers(classes, order, m))
  {
    if order != [] {
      var x, tail := order[0], order[1..];
      assert order == [x] + tail;
      DefinersOrdered(classes, tail, m);
      DefinersMembers(classes, tail, m);
      assert x !in Definers(classes, tail, m);
      PrependBoth(tail, x, Definers(classes, tail, m));
      PrependOrder(tail, x, Definers(classes, tail, m));
    }
  }

  lemma PrependBoth(order: seq<Name>, x: Name, s: seq<Name>)
    requires Extends(order, s) && x !in s
    ensures Extends([x] + order, [x] + s)
  {
    var t := [x] + s;
    assert t[1..] == s;
    ExtendsCons(order, x, t);
  }

  lemma PrependOrder(order: seq<Name>, x: Name, s: seq<Name>)
    requires Extends(order, s) && x !in s
    ensures Extends([x] + order, s)
  {
    assert forall i :: 0 <= i < |s| ==> s[i] != x;
    ExtendsCons(order, x, s);
  }

  lemma OrderlyStored(classes: Classes, c: Name, m: Name)
    requires c in classes && Orderly(classes, c)
    ensures Stored(classes, c) && !Loops(classes, c, m)
  {
    NotRepeated(c, classes[c].mro);
  }

  /** An ancestor's chain is run in the same order by every class that inherits it. */
  lemma ChainsAgree(classes: Classes, c: Name, d: Name, m: Name)
    requires Monotone(classes) && c in classes && d in classes && d in classes[c].mro
    ensures Extends(Definers(classes, classes[c].mro, m), Definers(classes, classes[d].mro, m))
  {
    var a, b := Definers(classes, classes[c].mro, m), Definers(classes, classes[d].mro, m);
    assert Orderly(classes, c) && Orderly(classes, d);
    OrderlyStored(classes, c, m);
    OrderlyStored(classes, d, m);
    ChainRunsEachOnce(classes, c, m);
    ChainRunsEachOnce(classes, d, m);
    ExtendsTransitive(classes[c].mro, classes[d].mro, b);
    forall i, j | 0 <= i < j < |b| ensures Before(a, b[i], b[j]) {
      BeforeInSubsequence(classes[c].mro, a, b[i], b[j]);
    }
  }

  lemma BeforeInSubsequence(order: seq<Name>, a: seq<Name>, x: Name, y: Name)
    requires Distinct(order) && Extends(order, a) && x in a && y in a && Before(order, x, y)
    ensures Before(a, x, y)
  {
    var i :| 0 <= i < |a| && a[i] == x;
    var j :| 0 <= j < |a| && a[j] == y;
    if j < i {
      assert Before(order, a[j], a[i]);
      BeforeIrreflexive(order, x, y);
      assert false;
    } else if i == j {
      BeforeIrreflexive(order, x, y);
      assert false;
    }
  }

  /** The registry object of the interpreter. */
  class Registry {
    var classes: Classes

    constructor ()
      ensures classes == map[] && Monotone(classes)
    {
      classes := map[];
    }

    /** A class statement; on a `TypeError` nothing is registered. */
    method DefineClass(d: Definition) returns (ok: bool)
      modifies this
      ensures classes == Define(old(classes), d)
      ensures ok <==> exists order :: Consistent(order, Inputs(old(classes), d.bases))
      ensures ok ==> classes.Keys == old(classes).Keys + {d.name}
      ensures ok ==> StoredAs(old(classes), d, classes[d.name])
      ensures forall c :: c in old(classes) && (c != d.name || !ok) ==> c in classes && classes[c] == old(classes)[c]
      ensures !ok ==> classes == old(classes) && !HasC3Order(old(classes), d.bases)
      ensures old(Monotone(classes)) ==> (Monotone(classes) <==> old(Compatible(classes, d)))
    {
      var mro := BuildMro(d.name, d.bases, classes);
      DefineStoresC3(classes, d);
      if Monotone(classes) {
        DefineMonotoneExactly(classes, d);
      }
      ok := mro.Ok?;
      if mro.Ok? {
        classes := classes[d.name := ClassInfo(d.bases, mro.value, d.methods)];
      }
    }
  }
}
