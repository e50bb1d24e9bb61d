/**
 The probe sequence shared by every loop of the set table: a run of up to ten
 neighbouring slots, then a perturbed jump to the next run.

 The main result is `EverySlotIsProbed`: on a power-of-two table the sequence
 started from any hash visits every slot. Nothing in the loops bounds them, so
 this fact is what makes them stop.
 */
module Probe {
  import opened Arith

  const LINEAR_PROBES: nat := 9
  const PERTURB_FACTOR: nat := 32   // perturb >>= 5
  const WORD: nat := 0x1_0000_0000_0000_0000

  /** Table sizes: the powers of two. */
  ghost predicate IsPow2(n: nat) {
    exists k: nat :: n == Pow2(k)
  }

  /** `hash as u64`: two's complement. */
  function Unsigned(h: int): (r: nat)
    ensures r < WORD
    ensures 0 <= h < WORD ==> r == h
  {
    h % WORD
  }

  /** Where a probe loop stands: the run starting at `base`, its `off`-th slot. */
  datatype Cursor = Cursor(base: nat, off: nat, perturb: nat) {
    function Slot(): nat { base + off }
  }

  /** How many further slots the run at `base` covers. */
  function Span(base: nat, size: nat): (r: nat)
    ensures base < size ==> base + r < size
  {
    if base + LINEAR_PROBES <= size - 1 then LINEAR_PROBES else 0
  }

  /** `(base * 5 + 1 + perturb) & mask`. */
  function Jump(base: nat, perturb: nat, size: nat): (r: nat)
    requires size > 0
    ensures r < size
  {
    (base * 5 + 1 + perturb) % size
  }

  /** `hash as usize & mask`. */
  function Home(h: int, size: nat): (r: nat)
    requires size > 0
    ensures r < size
  {
    Unsigned(h) % size
  }

  function Start(h: int, size: nat): (c: Cursor)
    requires size > 0
    ensures c.Slot() < size
  {
    Cursor(Home(h, size), 0, Unsigned(h))
  }

  function Advance(c: Cursor, size: nat): (r: Cursor)
    requires size > 0
  {
    if c.off < Span(c.base, size) then c.(off := c.off + 1)
    else
      var p := c.perturb / PERTURB_FACTOR;
      Cursor(Jump(c.base, p, size), 0, p)
  }

  /** The cursor after `t` steps. */
  function At(h: int, size: nat, t: nat): (c: Cursor)
    requires size > 0
    ensures c.base < size && c.off <= Span(c.base, size) && c.Slot() < size
  {
    if t == 0 then Start(h, size) else Advance(At(h, size, t - 1), size)
  }

  /** The `t`-th slot probed for hash `h`. */
  function Visit(h: int, size: nat, t: nat): (i: nat)
    requires size > 0
    ensures i < size
  {
    At(h, size, t).Slot()
  }

  // ---------- machine words ----------

  /** Reducing modulo `2^64` first does not change a remainder modulo a smaller power of two. */
  lemma WordFirst(x: nat, k: nat)
    requires k <= 64
    ensures (x % WORD) % Pow2(k) == x % Pow2(k)
  {
    WordIsPow2();
    Pow2Add(64 - k, k);
    var q, r, w, p := x / WORD, x % WORD, Pow2(64 - k), Pow2(k);
    assert q * WORD == (q * w) * p by {
      Reassociate(q, w, p);
    }
    ModMultiple(r, q * w, p);
    assert x == r + (q * w) * p;
  }

  /** The jump in machine words: every intermediate result wraps at 64 bits. */
  function MachineJump(base: nat, perturb: nat, size: nat): nat
    requires size > 0
  {
    (((base * 5) % WORD + 1) % WORD + perturb) % WORD % size
  }

  /** Wrapping changes no jump, because the table size divides `2^64`. */
  lemma WrappingIsHarmless(base: nat, perturb: nat, size: nat, k: nat)
    requires k <= 64 && size == Pow2(k)
    ensures MachineJump(base, perturb, size) == Jump(base, perturb, size)
  {
    hide Pow2;
    var x := base * 5;
    ModAddLeft(x, 1, WORD);
    ModAddLeft(x + 1, perturb, WORD);
    WordFirst(x + 1 + perturb, k);
  }

  lemma WordIsPow2()
    ensures Pow2(64) == WORD
  {
    assert Pow2(4) == 0x10;
    Pow2Add(4, 4);
    assert Pow2(8) == 0x100;
    Pow2Add(8, 8);
    assert Pow2(16) == 0x1_0000;
    Pow2Add(16, 16);
    assert Pow2(32) == 0x1_0000_0000;
    Pow2Add(32, 32);
  }

  // ---------- the full-period generator i -> 5*i + 1 ----------

  lemma FiveTimes(p: nat)
    requires p % 4 == 1
    ensures (5 * p) % 4 == 1
  {
  }

  function Pow5(n: nat): (r: nat)
    ensures r % 4 == 1
  {
    if n == 0 then 1
    else
      FiveTimes(Pow5(n - 1));
      5 * Pow5(n - 1)
  }

  /** `n` unreduced jumps without perturbation. */
  function Iterate(x: nat, n: nat): nat {
    if n == 0 then x else 5 * Iterate(x, n - 1) + 1
  }

  lemma {:induction false} IterateAdd(x: nat, m: nat, n: nat)
    ensures Iterate(x, m + n) == Iterate(Iterate(x, m), n)
  {
    if n > 0 {
      IterateAdd(x, m, n - 1);
    }
  }

  lemma {:induction false} IterateLinear(x: nat, d: nat, n: nat)
    ensures Iterate(x + d, n) == Iterate(x, n) + Pow5(n) * d
  {
    if n > 0 {
      IterateLinear(x, d, n - 1);
      Reassociate(5, Pow5(n - 1), d);
    }
  }

  lemma OneJump(x: nat)
    ensures Iterate(x, Pow2(0)) == x + (4 * x + 1) * Pow2(0)
  {
    assert Pow2(0) == 1;
    assert Iterate(x, 1) == 5 * Iterate(x, 0) + 1;
  }

  /** `2^k` jumps move forward by an odd multiple of `2^k`. */
  lemma {:induction false} IterateStride(x: nat, k: nat) returns (c: nat)
    ensures c % 2 == 1
    ensures Iterate(x, Pow2(k)) == x + c * Pow2(k)
  {
    hide Iterate;
    if k == 0 {
      c := 4 * x + 1;
      OneJump(x);
    } else {
      var m: nat := Pow2(k - 1);
      var c1 := IterateStride(x, k - 1);
      ProductNonNegative(c1, m);
      assert Pow2(k) == 2 * m;
      c := StrideTwice(x, m, c1, c1 * m);
    }
  }

  lemma StrideTwice(x: nat, m: nat, c1: nat, d: nat) returns (c: nat)
    requires Iterate(x, m) == x + d && d == c1 * m && c1 % 2 == 1
    ensures c % 2 == 1 && Iterate(x, 2 * m) == x + c * (2 * m)
  {
    IterateAdd(x, m, m);
    IterateLinear(x, d, m);
    c := DoubleStride(Pow5(m), c1, m, d);
  }

  lemma DoubleStride(p: nat, c1: nat, m: nat, d: nat) returns (c: nat)
    requires p % 4 == 1 && c1 % 2 == 1 && d == c1 * m
    ensures c % 2 == 1
    ensures d + p * d == c * (2 * m)
  {
    var half := (1 + p) / 2;
    ProductNonNegative(c1, half);
    c := c1 * half;
    OddProduct(c1, half);
    calc {
      d + p * d;
      { Distribute(1, p, d); }
      (1 + p) * d;
      { EqualFactors(1 + p, 2 * half, d); }
      (2 * half) * d;
      { HalfProduct(2 * half, half, d); }
      half * (2 * d);
      { Reassociate(half, 2, d); }
      2 * (half * d);
      { Reassociate(half, c1, m); Reassociate(c1, half, m); }
      2 * (c * m);
      { HalfProduct(2 * c, c, m); Reassociate(2, c, m); }
      c * (2 * m);
    }
  }

  lemma HalfProduct(u: int, q: int, m: int)
    requires u == 2 * q
    ensures u * m == q * (2 * m)
  {
    EqualFactors(u, 2 * q, m);
    Reassociate(2, q, m);
  }

  /** From any start, `5*i + 1` reaches every residue modulo `2^k`. */
  lemma {:induction false} FullPeriod(x: nat, y: nat, k: nat) returns (n: nat, q: int)
    ensures n < Pow2(k)
    ensures Iterate(x, n) == y + q * Pow2(k)
  {
    if k == 0 {
      n, q := 0, x - y;
    } else {
      var m := Pow2(k - 1);
      var n1, q1 := FullPeriod(x, y, k - 1);
      if q1 % 2 == 0 {
        n, q := n1, q1 / 2;
        HalfProduct(q1, q, m);
      } else {
        n := n1 + m;
        q := NextPeriod(x, y, k - 1, n1, q1);
      }
    }
  }

  lemma NextPeriod(x: nat, y: nat, k: nat, n: nat, q1: int) returns (q: int)
    requires Iterate(x, n) == y + q1 * Pow2(k) && q1 % 2 == 1
    ensures Iterate(x, n + Pow2(k)) == y + q * (2 * Pow2(k))
  {
    var c := IterateStride(Iterate(x, n), k);
    IterateAdd(x, n, Pow2(k));
    q := CombineStrides(Iterate(x, n), y, q1, c, Pow2(k));
  }

  lemma CombineStrides(v: int, y: int, q1: int, c: int, m: int) returns (q: int)
    requires v == y + q1 * m && q1 % 2 == 1 && c % 2 == 1
    ensures v + c * m == y + q * (2 * m)
  {
    q := (q1 + c) / 2;
    Distribute(q1, c, m);
    HalfProduct(q1 + c, q, m);
  }

  // ---------- coverage of the table ----------

  /** From any point of a run the sequence goes on to the next run. */
  lemma {:induction false} NextRun(h: int, size: nat, t: nat) returns (u: nat)
    requires size > 0
    ensures u > t
    ensures var c := At(h, size, t);
            var p := c.perturb / PERTURB_FACTOR;
            At(h, size, u) == Cursor(Jump(c.base, p, size), 0, p)
    decreases Span(At(h, size, t).base, size) - At(h, size, t).off
  {
    var c := At(h, size, t);
    if c.off < Span(c.base, size) {
      assert At(h, size, t + 1) == c.(off := c.off + 1);
      u := NextRun(h, size, t + 1);
    } else {
      u := t + 1;
    }
  }

  /** Eventually the perturbation has shifted down to zero. */
  lemma {:induction false} PerturbVanishes(h: int, size: nat, t: nat) returns (u: nat)
    requires size > 0
    ensures At(h, size, u).perturb == 0 && At(h, size, u).off == 0
    decreases At(h, size, t).perturb
  {
    var v := NextRun(h, size, t);
    if At(h, size, v).perturb == 0 {
      u := v;
    } else {
      u := PerturbVanishes(h, size, v);
    }
  }

  /** `n` unperturbed jumps, reduced at every step as the loops do. */
  function RunBase(base: nat, size: nat, n: nat): nat
    requires size > 0
  {
    if n == 0 then base else Jump(RunBase(base, size, n - 1), 0, size)
  }

  lemma {:induction false} RunBaseIsIterate(base: nat, size: nat, n: nat)
    requires base < size
    ensures RunBase(base, size, n) == Iterate(base, n) % size
  {
    if n == 0 {
      Euclid(base, 0, base, size);
    } else {
      RunBaseIsIterate(base, size, n - 1);
      JumpOfResidue(Iterate(base, n - 1), size);
    }
  }

  /** Without perturbation the run bases follow the generator. */
  lemma {:induction false} UnperturbedRun(h: int, size: nat, t: nat, n: nat) returns (u: nat)
    requires size > 0
    requires At(h, size, t).perturb == 0 && At(h, size, t).off == 0
    ensures At(h, size, u) == Cursor(RunBase(At(h, size, t).base, size, n), 0, 0)
  {
    if n == 0 {
      u := t;
    } else {
      var v := UnperturbedRun(h, size, t, n - 1);
      u := NextRun(h, size, v);
    }
  }

  lemma JumpOfResidue(x: nat, size: nat)
    requires size > 0
    ensures Jump(x % size, 0, size) == (5 * x + 1) % size
  {
    var d, r := x / size, x % size;
    Reassociate(5, d, size);
    assert 5 * x + 1 == (r * 5 + 1) + (5 * d) * size;
    ModMultiple(r * 5 + 1, 5 * d, size);
  }

  /** The probe sequence of any hash visits every slot of a power-of-two table. */
  lemma EverySlotIsProbed(h: int, size: nat, i: nat)
    requires IsPow2(size) && i < size
    ensures exists t: nat :: Visit(h, size, t) == i
  {
    var k: nat :| size == Pow2(k);
    var t0 := PerturbVanishes(h, size, 0);
    var n, q := FullPeriod(At(h, size, t0).base, i, k);
    var t := UnperturbedRun(h, size, t0, n);
    RunBaseIsIterate(At(h, size, t0).base, size, n);
    Euclid(Iterate(At(h, size, t0).base, n), q, i, size);
    assert Visit(h, size, t) == i;
  }
}
