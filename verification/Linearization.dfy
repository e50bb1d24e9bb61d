/**
 C3 linearisation of a class hierarchy: the merge of the bases' resolution orders
 and the base list. `MergeSucceedsIff` says exactly when it succeeds,
 `MergeIsLinearization` exactly which order it yields.
 */
module Linearization {
  import opened Prelude

  datatype Name = Name(text: string)

  ghost predicate Distinct(s: seq<Name>) {
    forall i, j :: 0 <= i < j < |s| ==> s[i] != s[j]
  }

  ghost predicate Before(order: seq<Name>, x: Name, y: Name) {
    exists i, j :: 0 <= i < j < |order| && order[i] == x && order[j] == y
  }

  /** `order` lists the names of `s` in the order of `s`. */
  ghost predicate Extends(order: seq<Name>, s: seq<Name>) {
    && (forall i :: 0 <= i < |s| ==> s[i] in order)
    && (forall i, j :: 0 <= i < j < |s| ==> Before(order, s[i], s[j]))
  }

  /** `order` is a strict total order in which every sequence is increasing. */
  ghost predicate Consistent(order: seq<Name>, seqs: seq<seq<Name>>) {
    Distinct(order) && forall k :: 0 <= k < |seqs| ==> Extends(order, seqs[k])
  }

  ghost predicate Mentions(seqs: seq<seq<Name>>, x: Name) {
    exists k :: 0 <= k < |seqs| && x in seqs[k]
  }

  // ---------- the merge ----------

  /** No sequence has `x` behind its head. */
  predicate Good(seqs: seq<seq<Name>>, x: Name) {
    forall k :: 0 <= k < |seqs| && seqs[k] != [] ==> x !in seqs[k][1..]
  }

  /** The first good head at or after sequence `k`. */
  function FirstGood(seqs: seq<seq<Name>>, k: nat): (r: Option<Name>)
    requires k <= |seqs|
    decreases |seqs| - k
  {
    if k == |seqs| then None
    else if seqs[k] != [] && Good(seqs, seqs[k][0]) then Some(seqs[k][0])
    else FirstGood(seqs, k + 1)
  }

  function StripOne(s: seq<Name>, x: Name): seq<Name> {
    if s != [] && s[0] == x then s[1..] else s
  }

  function Strip(seqs: seq<seq<Name>>, x: Name): (r: seq<seq<Name>>)
    ensures |r| == |seqs| && forall k :: 0 <= k < |seqs| ==> r[k] == StripOne(seqs[k], x)
  {
    seq(|seqs|, k requires 0 <= k < |seqs| => StripOne(seqs[k], x))
  }

  function Total(seqs: seq<seq<Name>>): nat {
    if seqs == [] then 0 else |seqs[0]| + Total(seqs[1..])
  }

  predicate AllEmpty(seqs: seq<seq<Name>>) {
    forall k :: 0 <= k < |seqs| ==> seqs[k] == []
  }

  lemma {:induction false} StripTotal(seqs: seq<seq<Name>>, x: Name, k: nat)
    requires k < |seqs| && seqs[k] != [] && seqs[k][0] == x
    ensures Total(Strip(seqs, x)) < Total(seqs)
  {
    assert Strip(seqs, x)[1..] == Strip(seqs[1..], x);
    StripShrinks(seqs[1..], x);
    if k > 0 {
      StripTotal(seqs[1..], x, k - 1);
    }
  }

  lemma {:induction false} StripShrinks(seqs: seq<seq<Name>>, x: Name)
    ensures Total(Strip(seqs, x)) <= Total(seqs)
  {
    if seqs != [] {
      assert Strip(seqs, x)[1..] == Strip(seqs[1..], x);
      StripShrinks(seqs[1..], x);
    }
  }

  lemma {:induction false} FirstGoodFound(seqs: seq<seq<Name>>, k: nat) returns (j: nat)
    requires k <= |seqs| && FirstGood(seqs, k).Some?
    ensures k <= j < |seqs| && seqs[j] != [] && seqs[j][0] == FirstGood(seqs, k).value && Good(seqs, seqs[j][0])
    ensures forall i :: k <= i < j ==> seqs[i] == [] || !Good(seqs, seqs[i][0])
    decreases |seqs| - k
  {
    if seqs[k] != [] && Good(seqs, seqs[k][0]) {
      j := k;
    } else {
      j := FirstGoodFound(seqs, k + 1);
    }
  }

  lemma {:induction false} FirstGoodMissing(seqs: seq<seq<Name>>, k: nat)
    requires k <= |seqs| && FirstGood(seqs, k).None?
    ensures forall i :: k <= i < |seqs| ==> seqs[i] == [] || !Good(seqs, seqs[i][0])
    decreases |seqs| - k
  {
    if k < |seqs| {
      FirstGoodMissing(seqs, k + 1);
    }
  }

  lemma {:induction false} FirstGoodIs(seqs: seq<seq<Name>>, k: nat, j: nat)
    requires k <= j < |seqs| && seqs[j] != [] && Good(seqs, seqs[j][0])
    requires forall i :: k <= i < j ==> seqs[i] == [] || !Good(seqs, seqs[i][0])
    ensures FirstGood(seqs, k) == Some(seqs[j][0])
    decreases j - k
  {
    if k < j {
      FirstGoodIs(seqs, k + 1, j);
    }
  }

  /** The merge, as the source computes it; `None` is the `TypeError`. */
  function Merge(seqs: seq<seq<Name>>): Option<seq<Name>>
    decreases Total(seqs)
  {
    if AllEmpty(seqs) then Some([])
    else
      var head := FirstGood(seqs, 0);
      if head.None? then None
      else
        assert Total(Strip(seqs, head.value)) < Total(seqs) by {
          var j := FirstGoodFound(seqs, 0);
          StripTotal(seqs, head.value, j);
        }
        var rest := Merge(Strip(seqs, head.value));
        if rest.None? then None else Some([head.value] + rest.value)
  }

  // ---------- what a successful merge yields ----------

  lemma ExtendsCons(order: seq<Name>, h: Name, s: seq<Name>)
    requires Extends(order, StripOne(s, h)) && (s == [] || h !in s[1..])
    ensures Extends([h] + order, s)
  {
    var r := [h] + order;
    var t := StripOne(s, h);
    forall i, j | 0 <= i < j < |s| ensures Before(r, s[i], s[j]) {
      if t == s {
        BeforeCons(order, h, s[i], s[j]);
      } else if i == 0 {
        assert t[j - 1] == s[j];
        var m :| 0 <= m < |order| && order[m] == s[j];
        assert r[0] == s[0] && r[m + 1] == s[j];
      } else {
        assert t[i - 1] == s[i] && t[j - 1] == s[j];
        BeforeCons(order, h, s[i], s[j]);
      }
    }
    forall i | 0 <= i < |s| ensures s[i] in r {
      if t != s && i > 0 {
        assert t[i - 1] == s[i];
      }
    }
  }

  lemma BeforeCons(order: seq<Name>, h: Name, x: Name, y: Name)
    requires Before(order, x, y)
    ensures Before([h] + order, x, y)
  {
    var i, j :| 0 <= i < j < |order| && order[i] == x && order[j] == y;
    var r := [h] + order;
    assert r[i + 1] == x && r[j + 1] == y;
  }

  /** Once stripped, a good head is nowhere left. */
  lemma StripRemoves(seqs: seq<seq<Name>>, h: Name)
    requires Good(seqs, h)
    ensures !Mentions(Strip(seqs, h), h)
    ensures forall x :: x != h ==> (Mentions(Strip(seqs, h), x) <==> Mentions(seqs, x))
  {
    var r := Strip(seqs, h);
    forall k | 0 <= k < |seqs| ensures h !in r[k] && forall x :: x != h ==> (x in r[k] <==> x in seqs[k]) {
      if seqs[k] != [] {
        assert seqs[k] == [seqs[k][0]] + seqs[k][1..];
      }
    }
  }

  /** Putting a good head in front of an order for what it leaves. */
  lemma ConsistentCons(seqs: seq<seq<Name>>, h: Name, rest: seq<Name>)
    requires Good(seqs, h) && Consistent(rest, Strip(seqs, h)) && h !in rest
    ensures Consistent([h] + rest, seqs)
  {
    hide Extends, StripOne;
    forall k | 0 <= k < |seqs| ensures Extends([h] + rest, seqs[k]) {
      assert Extends(rest, Strip(seqs, h)[k]);
      ExtendsCons(rest, h, seqs[k]);
    }
  }

  lemma {:induction false} MergeSound(seqs: seq<seq<Name>>)
    requires Merge(seqs).Some?
    ensures Consistent(Merge(seqs).value, seqs)
    ensures forall x :: x in Merge(seqs).value <==> Mentions(seqs, x)
    decreases Total(seqs)
  {
    if !AllEmpty(seqs) {
      var j := FirstGoodFound(seqs, 0);
      var h := seqs[j][0];
      StripTotal(seqs, h, j);
      var rest := Merge(Strip(seqs, h)).value;
      MergeSound(Strip(seqs, h));
      StripRemoves(seqs, h);
      ConsistentCons(seqs, h, rest);
      assert Mentions(seqs, h);
    }
  }

  // ---------- when the merge succeeds ----------

  lemma BeforeIrreflexive(order: seq<Name>, x: Name, y: Name)
    requires Distinct(order) && Before(order, x, y)
    ensures !Before(order, y, x)
  {
  }

  ghost predicate IsHead(seqs: seq<seq<Name>>, x: Name) {
    exists k :: 0 <= k < |seqs| && seqs[k] != [] && seqs[k][0] == x
  }

  lemma {:induction false} EarliestHead(order: seq<Name>, seqs: seq<seq<Name>>, p: nat) returns (m: nat)
    requires p < |order| && IsHead(seqs, order[p])
    ensures m < |order| && IsHead(seqs, order[m])
    ensures forall i :: 0 <= i < m ==> !IsHead(seqs, order[i])
    decreases p
  {
    if i :| 0 <= i < p && IsHead(seqs, order[i]) {
      m := EarliestHead(order, seqs, i);
    } else {
      m := p;
    }
  }

  /** Some head comes first among the heads in a consistent order, and it is good. */
  lemma GoodHeadExists(order: seq<Name>, seqs: seq<seq<Name>>)
    requires Consistent(order, seqs) && !AllEmpty(seqs)
    ensures exists k :: 0 <= k < |seqs| && seqs[k] != [] && Good(seqs, seqs[k][0])
  {
    var k0 :| 0 <= k0 < |seqs| && seqs[k0] != [];
    var p :| 0 <= p < |order| && order[p] == seqs[k0][0];
    var m := EarliestHead(order, seqs, p);
    var k :| 0 <= k < |seqs| && seqs[k] != [] && seqs[k][0] == order[m];
    forall q | 0 <= q < |seqs| && seqs[q] != [] ensures order[m] !in seqs[q][1..] {
      assert IsHead(seqs, seqs[q][0]);
      FirstIsNotBehind(order, seqs[q], m);
    }
    assert Good(seqs, seqs[k][0]);
  }

  lemma FirstIsNotBehind(order: seq<Name>, s: seq<Name>, m: nat)
    requires Distinct(order) && Extends(order, s) && s != [] && m < |order|
    requires forall i :: 0 <= i < m ==> s[0] != order[i]
    ensures order[m] !in s[1..]
  {
    forall p | 0 < p < |s| ensures s[p] != order[m] {
      assert Before(order, s[0], s[p]);
      var i, j :| 0 <= i < j < |order| && order[i] == s[0] && order[j] == s[p];
    }
  }

  lemma {:induction false} MergeComplete(order: seq<Name>, seqs: seq<seq<Name>>)
    requires Consistent(order, seqs)
    ensures Merge(seqs).Some?
    decreases Total(seqs)
  {
    if !AllEmpty(seqs) {
      GoodHeadExists(order, seqs);
      if FirstGood(seqs, 0).None? {
        FirstGoodMissing(seqs, 0);
        assert false;
      }
      var j := FirstGoodFound(seqs, 0);
      var h := seqs[j][0];
      StripTotal(seqs, h, j);
      forall k | 0 <= k < |seqs| ensures Extends(order, Strip(seqs, h)[k]) {
        ExtendsSuffix(order, seqs[k], h);
      }
      MergeComplete(order, Strip(seqs, h));
    }
  }

  lemma ExtendsSuffix(order: seq<Name>, s: seq<Name>, h: Name)
    requires Extends(order, s)
    ensures Extends(order, StripOne(s, h))
  {
    var t := StripOne(s, h);
    if t != s {
      forall i | 0 <= i < |t| ensures t[i] in order {
        assert t[i] == s[i + 1];
      }
      forall i, j | 0 <= i < j < |t| ensures Before(order, t[i], t[j]) {
        assert t[i] == s[i + 1] && t[j] == s[j + 1];
      }
    }
  }

  /** The merge succeeds if and only if some strict total order is consistent with every input. */
  lemma MergeSucceedsIff(seqs: seq<seq<Name>>)
    ensures Merge(seqs).Some? <==> exists order :: Consistent(order, seqs)
  {
    if Merge(seqs).Some? {
      MergeSound(seqs);
    }
    forall order | Consistent(order, seqs) ensures Merge(seqs).Some? {
      MergeComplete(order, seqs);
    }
  }

  // ---------- which order it is ----------

  /** `s` without the names in `done`. */
  function Without(s: seq<Name>, done: seq<Name>): seq<Name> {
    if s == [] then []
    else if s[0] in done then Without(s[1..], done)
    else [s[0]] + Without(s[1..], done)
  }

  function Remaining(seqs: seq<seq<Name>>, done: seq<Name>): (r: seq<seq<Name>>)
    ensures |r| == |seqs| && forall k :: 0 <= k < |seqs| ==> r[k] == Without(seqs[k], done)
  {
    seq(|seqs|, k requires 0 <= k < |seqs| => Without(seqs[k], done))
  }

  /** `x` heads the first sequence whose head stands behind no other. */
  ghost predicate Picks(seqs: seq<seq<Name>>, x: Name) {
    exists j :: 0 <= j < |seqs| && seqs[j] != [] && seqs[j][0] == x && Good(seqs, x)
      && forall i :: 0 <= i < j ==> seqs[i] == [] || !Good(seqs, seqs[i][0])
  }

  /** Each name of `r` is the C3 choice among what the names before it leave. */
  ghost predicate IsLinearization(seqs: seq<seq<Name>>, r: seq<Name>) {
    && (forall k :: 0 <= k < |r| ==> Picks(Remaining(seqs, r[..k]), r[k]))
    && AllEmpty(Remaining(seqs, r))
  }

  lemma {:induction false} WithoutNothing(s: seq<Name>, done: seq<Name>)
    requires forall x :: x in s ==> x !in done
    ensures Without(s, done) == s
  {
    if s != [] {
      WithoutNothing(s[1..], done);
    }
  }

  lemma StripIsWithout(seqs: seq<seq<Name>>, h: Name)
    requires Good(seqs, h)
    ensures Strip(seqs, h) == Remaining(seqs, [h])
  {
    forall k | 0 <= k < |seqs| ensures StripOne(seqs[k], h) == Without(seqs[k], [h]) {
      var s := seqs[k];
      if s != [] {
        WithoutNothing(s[1..], [h]);
      }
    }
  }

  lemma {:induction false} WithoutTwice(s: seq<Name>, a: seq<Name>, b: seq<Name>)
    ensures Without(Without(s, a), b) == Without(s, a + b)
  {
    if s != [] {
      WithoutTwice(s[1..], a, b);
      if s[0] !in a {
        var t := [s[0]] + Without(s[1..], a);
        assert t[1..] == Without(s[1..], a);
      }
    }
  }

  lemma RemainingTwice(seqs: seq<seq<Name>>, a: seq<Name>, b: seq<Name>)
    ensures Remaining(Remaining(seqs, a), b) == Remaining(seqs, a + b)
  {
    forall k | 0 <= k < |seqs| ensures Without(Without(seqs[k], a), b) == Without(seqs[k], a + b) {
      WithoutTwice(seqs[k], a, b);
    }
  }

  lemma RemainingAll(seqs: seq<seq<Name>>)
    ensures Remaining(seqs, []) == seqs
  {
    forall k | 0 <= k < |seqs| ensures Without(seqs[k], []) == seqs[k] {
      WithoutNothing(seqs[k], []);
    }
  }

  lemma PicksIsFirstGood(seqs: seq<seq<Name>>, x: Name)
    ensures Picks(seqs, x) <==> FirstGood(seqs, 0) == Some(x)
  {
    if Picks(seqs, x) {
      var j :| 0 <= j < |seqs| && seqs[j] != [] && seqs[j][0] == x && Good(seqs, x)
        && forall i :: 0 <= i < j ==> seqs[i] == [] || !Good(seqs, seqs[i][0]);
      FirstGoodIs(seqs, 0, j);
    }
    if FirstGood(seqs, 0) == Some(x) {
      var j := FirstGoodFound(seqs, 0);
    }
  }

  lemma TailRemaining(seqs: seq<seq<Name>>, h: Name, rest: seq<Name>, k: nat)
    requires k <= |rest|
    ensures Remaining(seqs, ([h] + rest)[..k + 1]) == Remaining(Remaining(seqs, [h]), rest[..k])
  {
    RemainingTwice(seqs, [h], rest[..k]);
    assert ([h] + rest)[..k + 1] == [h] + rest[..k];
  }

  lemma HeadRemaining(seqs: seq<seq<Name>>, r: seq<Name>)
    ensures Remaining(seqs, r[..0]) == seqs
  {
    assert r[..0] == [];
    RemainingAll(seqs);
  }

  lemma LinearizationSplit(seqs: seq<seq<Name>>, h: Name, rest: seq<Name>)
    requires IsLinearization(seqs, [h] + rest)
    ensures Picks(seqs, h) && IsLinearization(Remaining(seqs, [h]), rest)
  {
    hide Picks, AllEmpty, Without;
    var r := [h] + rest;
    HeadRemaining(seqs, r);
    assert Picks(Remaining(seqs, r[..0]), r[0]);
    RemainingTwice(seqs, [h], rest);
    forall k | 0 <= k < |rest| ensures Picks(Remaining(Remaining(seqs, [h]), rest[..k]), rest[k]) {
      TailRemaining(seqs, h, rest, k);
      assert Picks(Remaining(seqs, r[..k + 1]), r[k + 1]);
    }
  }

  lemma LinearizationJoin(seqs: seq<seq<Name>>, h: Name, rest: seq<Name>)
    requires Picks(seqs, h) && IsLinearization(Remaining(seqs, [h]), rest)
    ensures IsLinearization(seqs, [h] + rest)
  {
    hide Picks, AllEmpty, Without;
    var r := [h] + rest;
    RemainingTwice(seqs, [h], rest);
    forall k | 0 <= k < |r| ensures Picks(Remaining(seqs, r[..k]), r[k]) {
      if k == 0 {
        HeadRemaining(seqs, r);
      } else {
        TailRemaining(seqs, h, rest, k - 1);
        assert Picks(Remaining(Remaining(seqs, [h]), rest[..k - 1]), rest[k - 1]);
      }
    }
  }

  /** The merge yields `r` if and only if every name of `r` is the C3 choice at its place. */
  lemma {:induction false} MergeIsLinearization(seqs: seq<seq<Name>>, r: seq<Name>)
    ensures Merge(seqs) == Some(r) <==> IsLinearization(seqs, r)
    decreases Total(seqs)
  {
    RemainingAll(seqs);
    if r == [] {
      if !AllEmpty(seqs) && FirstGood(seqs, 0).Some? {
        assert Merge(seqs) != Some([]);
      }
    } else {
      var h, rest := r[0], r[1..];
      assert r == [h] + rest;
      PicksIsFirstGood(seqs, h);
      if IsLinearization(seqs, r) {
        LinearizationSplit(seqs, h, rest);
      }
      if Picks(seqs, h) {
        if IsLinearization(Remaining(seqs, [h]), rest) {
          LinearizationJoin(seqs, h, rest);
        }
        var j := FirstGoodFound(seqs, 0);
        StripTotal(seqs, h, j);
        StripIsWithout(seqs, h);
        MergeIsLinearization(Strip(seqs, h), rest);
        MergeUnfold(seqs, h, rest);
      } else if !AllEmpty(seqs) && FirstGood(seqs, 0).Some? {
        assert Merge(seqs) != Some(r);
      }
    }
  }

  lemma MergeUnfold(seqs: seq<seq<Name>>, h: Name, rest: seq<Name>)
    requires FirstGood(seqs, 0) == Some(h)
    ensures Merge(seqs) == Some([h] + rest) <==> Merge(Strip(seqs, h)) == Some(rest)
  {
    var j := FirstGoodFound(seqs, 0);
    StripTotal(seqs, h, j);
    assert !AllEmpty(seqs);
    var t := Merge(Strip(seqs, h));
    if t.Some? && [h] + t.value == [h] + rest {
      assert t.value == ([h] + t.value)[1..] == ([h] + rest)[1..] == rest;
    }
  }
}
