/**
 `range` arithmetic: the closed forms for length, indexing and membership against
 the progression itself, and the materialising loops.
 */
module Ranges {
  import opened Prelude
  import opened Arith
  import opened Machine
  import opened Floats

  const MAX_RANGE_MATERIALIZE: nat := 100_000_000
  const MAX_COLLECTION_SIZE: nat := 10_000_000

  datatype Result<T> = Ok(value: T) | TooLarge | IndexError | Trap

  /** Division as the machine does it, toward zero. */
  function Truncated(a: int, b: int): int
    requires b != 0
  {
    if (a >= 0) == (b > 0) then Abs(a) / Abs(b) else -(Abs(a) / Abs(b))
  }

  /** The matching remainder: it has the sign of the dividend. */
  function Remainder(a: int, b: int): int
    requires b != 0
  {
    if a >= 0 then Abs(a) % Abs(b) else -(Abs(a) % Abs(b))
  }

  /** Still before the stop bound, in the direction of the step. */
  predicate Before(x: int, stop: int, step: int) {
    (step > 0 && x < stop) || (step < 0 && x > stop)
  }

  /** The element count, computed without overflow in 128 bits. */
  function Count(start: int, stop: int, step: int): int {
    var span := stop - start;
    if (step > 0 && span > 0) || (step < 0 && span < 0)
    then Truncated(span, step) + (if Remainder(span, step) != 0 then 1 else 0)
    else 0
  }

  /** The progression, element by element. */
  function Progression(start: int, step: int, n: nat): (r: seq<int>)
    ensures |r| == n && forall i :: 0 <= i < n ==> r[i] == start + i * step
  {
    seq(n, i => start + i * step)
  }

  ghost function Items(start: int, stop: int, step: int): seq<int>
    requires step != 0
  {
    CountIsExact(start, stop, step, 0);
    Progression(start, step, Count(start, stop, step))
  }

  // ---------- the count is exact ----------

  /** The number of multiples of `w` below `d`, rounded up. */
  lemma CeilingIs(d: int, w: int, i: nat)
    requires d > 0 && w > 0
    ensures i * w < d <==> i < d / w + (if d % w != 0 then 1 else 0)
  {
    var q, r := d / w, d % w;
    assert d == q * w + r;
    if i < q {
      Distribute(q - i, i, w);
      ProductAtLeast(q - i, w);
    } else if i > q {
      Distribute(i - q, q, w);
      ProductAtLeast(i - q, w);
    }
  }

  lemma QuotientNonNegative(d: int, w: int)
    requires d >= 0 && w > 0
    ensures d / w >= 0
  {
  }

  lemma Mirror(x: int, w: int)
    ensures x * -w == -(x * w)
  {
  }

  /** Position `i` is before the stop exactly if `i` is below the count. */
  lemma CountIsExact(start: int, stop: int, step: int, i: nat)
    requires step != 0
    ensures Count(start, stop, step) >= 0
    ensures Before(start + i * step, stop, step) <==> i < Count(start, stop, step)
  {
    var d, w := Abs(stop - start), Abs(step);
    ProductNonNegative(i, w);
    if step < 0 {
      Mirror(i, w);
    }
    if (step > 0 && stop > start) || (step < 0 && stop < start) {
      CeilingIs(d, w, i);
      QuotientNonNegative(d, w);
    }
  }

  // ---------- length, membership, indexing ----------

  /** `range_length`. */
  function RangeLength(start: int, stop: int, step: int): (r: nat)
    requires Fits(step)
  {
    var raw :=
      if step > 0 then Truncated(Wrap(Wrap(Wrap(stop - start) + step) - 1), step)
      else if step < 0 then Truncated(Wrap(Wrap(Wrap(start - stop) - step) - 1), Negated(step))
      else 0;
    if raw < 0 then 0 else raw
  }

  /** How far the stop lies from the start, in the direction of the step. */
  function Distance(start: int, stop: int, step: int): int {
    if step > 0 then stop - start else start - stop
  }

  /**
   When the closed-form length can be trusted: the rounded-up span fits in 64 bits. The most
   negative step, which has no negation, is right only for empty and for one-apart bounds.
   */
  predicate LengthFits(start: int, stop: int, step: int) {
    var d := Distance(start, stop, step);
    if step == MIN_I64 then d == 1 || 1 - TWO_64 < d <= 0 else Fits(d + Abs(step) - 1)
  }

  lemma QuotientGrows(x: int, y: int, w: int)
    requires 0 <= x && x + w <= y && w > 0
    ensures y / w > x / w >= 0
  {
    var p, q := x / w, y / w;
    QuotientNonNegative(x, w);
    if q <= p {
      Distribute(p, q, w);
      ProductNonNegative(p - q, w);
    }
  }

  /** Rounding up by adding `w - 1` first. */
  lemma CeilingByShift(d: int, w: int)
    requires d > 0 && w > 0
    ensures (d + w - 1) / w == d / w + (if d % w != 0 then 1 else 0)
  {
    var q, r := d / w, d % w;
    if r == 0 {
      Euclid(d + w - 1, q, w - 1, w);
    } else {
      Distribute(q, 1, w);
      Euclid(d + w - 1, q + 1, r - 1, w);
    }
  }

  /** With exact sums, rounding up and clamping at zero counts the elements. */
  lemma ClampedCeiling(start: int, stop: int, step: int)
    requires step != 0
    ensures var s := Distance(start, stop, step) + Abs(step) - 1;
            var raw := Truncated(s, Abs(step));
            Count(start, stop, step) == if raw < 0 then 0 else raw
  {
    CountIsExact(start, stop, step, 0);
    var d, w := Distance(start, stop, step), Abs(step);
    if d > 0 {
      CeilingByShift(d, w);
      QuotientNonNegative(d + w - 1, w);
    } else if d + w - 1 >= 0 {
      Euclid(d + w - 1, 0, d + w - 1, w);
    } else {
      QuotientNonNegative(Abs(d + w - 1), w);
    }
  }

  lemma WrappedSpan(start: int, stop: int, step: int)
    requires Fits(step) && step != 0
    ensures var w := if step > 0 then step else Negated(step);
            var raw := Truncated(Wrap(Distance(start, stop, step) + Abs(step) - 1), w);
            RangeLength(start, stop, step) == if raw < 0 then 0 else raw
  {
    var d, w := Distance(start, stop, step), Abs(step);
    WrapSum(d, w);
    WrapSum(d + w, -1);
  }

  /** The closed-form length is the element count exactly if the span fits. */
  lemma LengthIsCount(start: int, stop: int, step: int)
    requires Fits(start) && Fits(stop) && Fits(step) && step != 0
    ensures RangeLength(start, stop, step) == Count(start, stop, step) <==> LengthFits(start, stop, step)
  {
    var d, w := Distance(start, stop, step), Abs(step);
    var s := d + w - 1;
    WrappedSpan(start, stop, step);
    ClampedCeiling(start, stop, step);
    hide Truncated, Count, RangeLength, Wrap;
    if step == MIN_I64 {
      LargestStep(d);
    } else if !Fits(s) {
      SpanOverflows(s, w);
    }
  }

  /** A sum that wraps never gives the right length. */
  lemma SpanOverflows(s: int, w: int)
    requires 0 < w <= MAX_I64 && w - TWO_64 <= s < TWO_64 + w && !Fits(s)
    ensures var exact, got := Truncated(s, w), Truncated(Wrap(s), w);
            (if got < 0 then 0 else got) != (if exact < 0 then 0 else exact)
  {
    WrapShift(s);
    QuotientNonNegative(Abs(s), w);
    QuotientNonNegative(Abs(Wrap(s)), w);
    if s < 0 {
      QuotientGrows(0, Wrap(s), w);
    } else if Wrap(s) >= 0 {
      QuotientGrows(Wrap(s), s, w);
    } else {
      QuotientGrows(0, s, w);
    }
  }

  lemma LargestStep(d: int)
    requires -TWO_64 < d < TWO_64
    ensures var exact, got := Truncated(d - MIN_I64 - 1, -MIN_I64), Truncated(Wrap(d - MIN_I64 - 1), MIN_I64);
            (if got < 0 then 0 else got) == (if exact < 0 then 0 else exact) <==> d == 1 || 1 - TWO_64 < d <= 0
  {
    WrapShift(d - MIN_I64 - 1);
  }

  predicate InBounds(start: int, stop: int, step: int, x: int) {
    if step > 0 then start <= x < stop else stop < x <= start
  }

  /** `range_contains` on an integer; the machine remainder traps on the least integer by -1. */
  function RangeContains(start: int, stop: int, step: int, x: int): Result<bool> {
    if step == 0 || !InBounds(start, stop, step, x) then Ok(false)
    else
      var gap := Wrap(x - start);
      if gap == MIN_I64 && step == -1 then Trap else Ok(Remainder(gap, step) == 0)
  }

  datatype Item = IntItem(i: int) | BoolItem(b: bool) | FloatItem(f: F64) | OtherItem

  /** `range_contains`: bools and integral floats are folded to integers first. */
  ghost function RangeContainsItem(start: int, stop: int, step: int, item: Item): Result<bool> {
    match item
    case IntItem(i) => RangeContains(start, stop, step, i)
    case BoolItem(b) => RangeContains(start, stop, step, if b then 1 else 0)
    case FloatItem(f) =>
      var i := FloatKeyInt(f);
      if i.Some? then RangeContains(start, stop, step, i.value) else Ok(false)
    case OtherItem => Ok(false)
  }

  lemma StepDivides(start: int, stop: int, step: int, x: int)
    requires step != 0
    ensures x in Items(start, stop, step) <==> InBounds(start, stop, step, x) && Abs(x - start) % Abs(step) == 0
  {
    var d, w := Abs(x - start), Abs(step);
    if InBounds(start, stop, step, x) && d % w == 0 {
      var i := d / w;
      QuotientNonNegative(d, w);
      assert d == i * w;
      if step < 0 { Mirror(i, w); }
      CountIsExact(start, stop, step, i);
      assert Items(start, stop, step)[i] == start + i * step;
    }
    if x in Items(start, stop, step) {
      var i :| 0 <= i < |Items(start, stop, step)| && Items(start, stop, step)[i] == x;
      CountIsExact(start, stop, step, i);
      ProductNonNegative(i, w);
      if step < 0 { Mirror(i, w); }
      Euclid(d, i, 0, w);
    }
  }

  /**
   When the modular test can be trusted: the gap fits, or wrapping it moves it by a multiple
   of the step, or neither the gap nor its wrapped form is such a multiple.
   */
  predicate GapSound(start: int, step: int, x: int)
    requires step != 0
  {
    var d, w := Abs(x - start), Abs(step);
    if Fits(x - start) then step != -1 || x - start != MIN_I64
    else TWO_64 % w == 0 || (d % w != 0 && d % w != TWO_64 % w)
  }

  /** `m - d` is a multiple exactly if `d` leaves the remainder of `m`. */
  lemma SameRemainder(m: int, d: int, w: int)
    requires w > 0
    ensures (m - d) % w == 0 <==> d % w == m % w
  {
    var q, r := m / w, m % w;
    if (m - d) % w == 0 {
      var k := (m - d) / w;
      assert m - d == k * w;
      Distribute(q, k, w);
      Euclid(d, q - k, r, w);
    }
    if d % w == r {
      var k := d / w;
      assert d == k * w + r;
      Distribute(q, k, w);
      Euclid(m - d, q - k, 0, w);
    }
  }

  /** The modular test is membership exactly if the element is out of bounds or its gap is sound. */
  lemma ContainsIsMembership(start: int, stop: int, step: int, x: int)
    requires Fits(start) && Fits(stop) && Fits(step) && Fits(x) && step != 0
    ensures RangeContains(start, stop, step, x) == Ok(x in Items(start, stop, step))
       <==> !InBounds(start, stop, step, x) || GapSound(start, step, x)
  {
    var d, w := Abs(x - start), Abs(step);
    StepDivides(start, stop, step, x);
    WrapShift(x - start);
    if !Fits(x - start) {
      SameRemainder(TWO_64, d, w);
      WrappedGap(x - start, w);
    }
  }

  /** When a float can be looked up: as its integer, if it has one in range; `2^63` is the case that fails. */
  ghost predicate FloatSound(start: int, stop: int, step: int, f: F64)
    requires step != 0
  {
    if !Integral(f) then true
    else if Fits(IntValue(f)) then !InBounds(start, stop, step, IntValue(f)) || GapSound(start, step, IntValue(f))
    else !(IntValue(f) == MAX_I64 + 1 && step < 0 && start == MAX_I64 && stop < start)
  }

  /**
   An integral float is found exactly where its integer is, except that `2^63` passes for
   `2^63 - 1` and so is found in a descending range that starts there.
   */
  lemma ContainsFloat(start: int, stop: int, step: int, f: F64)
    requires Fits(start) && Fits(stop) && Fits(step) && step != 0 && BitsOk(f)
    ensures RangeContainsItem(start, stop, step, FloatItem(f)) == Ok(Integral(f) && IntValue(f) in Items(start, stop, step))
       <==> FloatSound(start, stop, step, f)
  {
    if Integral(f) {
      FloatKeyIntIs(f);
      var v := IntValue(f);
      hide Integral, IntValue, FloatKeyInt, RangeContains, GapSound, Items, InBounds;
      if Fits(v) {
        ContainsIsMembership(start, stop, step, v);
      } else {
        NotListed(start, stop, step, v);
        FirstItem(start, stop, step);
      }
    }
  }

  lemma NotListed(start: int, stop: int, step: int, v: int)
    requires Fits(start) && Fits(stop) && step != 0 && !Fits(v)
    ensures v !in Items(start, stop, step)
  {
    StepDivides(start, stop, step, v);
  }

  /** The start of a non-empty range is found without any overflow. */
  lemma FirstItem(start: int, stop: int, step: int)
    requires Fits(start) && Fits(stop) && step != 0
    ensures RangeContains(start, stop, step, MAX_I64) == Ok(true) <==> step < 0 && start == MAX_I64 && stop < start
    ensures RangeContains(start, stop, step, MAX_I64) != Trap
  {
    if step < 0 && start == MAX_I64 && stop < start {
      assert Wrap(MAX_I64 - start) == 0;
      Euclid(0, 0, 0, Abs(step));
    }
  }

  lemma WrappedGap(g: int, w: int)
    requires -TWO_64 < g < TWO_64 && !Fits(g) && w > 0
    ensures Remainder(Wrap(g), w) == 0 <==> (TWO_64 - Abs(g)) % w == 0
    ensures Remainder(Wrap(g), -w) == 0 <==> (TWO_64 - Abs(g)) % w == 0
    ensures Wrap(g) == MIN_I64 ==> g == -MIN_I64
  {
    WrapShift(g);
  }

  /** `normalize_seq_index`. */
  function NormalizeIndex(raw: int, len: nat): Result<nat> {
    var adjusted := if raw < 0 then len + raw else raw;
    if adjusted < 0 || adjusted >= len then IndexError else Ok(adjusted)
  }

  /** `range_get_item`. */
  function RangeGetItem(start: int, stop: int, step: int, raw: int): Result<int>
    requires Fits(step)
  {
    var idx := NormalizeIndex(raw, RangeLength(start, stop, step));
    if idx.Ok? then Ok(Wrap(start + Wrap(idx.value * step))) else IndexError
  }

  /** Subscripting the materialised sequence, negative positions from the end. */
  function Subscript(items: seq<int>, raw: int): Result<int> {
    if 0 <= raw < |items| then Ok(items[raw])
    else if -|items| <= raw < 0 then Ok(items[|items| + raw])
    else IndexError
  }

  lemma ItemsFit(start: int, stop: int, step: int, i: nat)
    requires Fits(start) && Fits(stop) && step != 0 && i < Count(start, stop, step)
    ensures Fits(start + i * step)
  {
    CountIsExact(start, stop, step, i);
    ProductNonNegative(i, Abs(step));
    if step < 0 { Mirror(i, -step); }
  }

  /**
   When indexing at `raw` can be trusted, for the computed length `l` and the true one `n`: the
   position is in range for both or for neither, and a position from the end reaches the same
   element through either length.
   */
  predicate IndexSound(l: int, n: int, step: int, raw: int) {
    if raw >= 0 then raw < l <==> raw < n
    else (-l <= raw <==> -n <= raw) && (-n <= raw && -l <= raw ==> ((n - l) * step) % TWO_64 == 0)
  }

  /** Indexing agrees with the materialised range at `raw` exactly if the two lengths do not disagree there. */
  lemma GetItemIsIndexing(start: int, stop: int, step: int, raw: int)
    requires Fits(start) && Fits(stop) && Fits(step) && step != 0
    ensures RangeGetItem(start, stop, step, raw) == Subscript(Items(start, stop, step), raw)
       <==> IndexSound(RangeLength(start, stop, step), Count(start, stop, step), step, raw)
  {
    var l, n := RangeLength(start, stop, step), |Items(start, stop, step)|;
    var got, want := NormalizeIndex(raw, l), NormalizeIndex(raw, n);
    ItemCount(start, stop, step);
    hide RangeLength, Count, Wrap, Items;
    if got.Ok? && want.Ok? {
      ItemAt(start, stop, step, want.value);
      SameElement(start, stop, step, got.value, want.value);
      SameShift(got.value, want.value, l, n, step);
    }
  }

  lemma SameShift(got: int, want: int, l: int, n: int, step: int)
    ensures want - got == n - l ==> (want - got) * step == (n - l) * step
    ensures want == got ==> ((want - got) * step) % TWO_64 == 0
  {
  }

  lemma ItemCount(start: int, stop: int, step: int)
    requires step != 0
    ensures |Items(start, stop, step)| == Count(start, stop, step)
  {
    CountIsExact(start, stop, step, 0);
  }

  lemma ItemAt(start: int, stop: int, step: int, i: nat)
    requires step != 0 && i < |Items(start, stop, step)|
    ensures Items(start, stop, step)[i] == start + i * step
  {
  }

  /** The element computed at `got` is the one at `want` exactly if the steps between them wrap to nothing. */
  lemma SameElement(start: int, stop: int, step: int, got: nat, want: nat)
    requires Fits(start) && Fits(stop) && step != 0 && want < Count(start, stop, step)
    ensures Wrap(start + Wrap(got * step)) == start + want * step <==> ((want - got) * step) % TWO_64 == 0
  {
    hide Count;
    WrapSum(got * step, start);
    ItemsFit(start, stop, step, want);
    WrapsAlike(start + want * step, start + got * step);
    Distribute(want, got, step);
  }

  /** Indexing agrees with the materialised range at every position exactly if the length does. */
  lemma IndexingExactlyWhen(start: int, stop: int, step: int)
    requires Fits(start) && Fits(stop) && Fits(step) && step != 0
    ensures (forall raw | Fits(raw) :: RangeGetItem(start, stop, step, raw) == Subscript(Items(start, stop, step), raw))
       <==> LengthFits(start, stop, step)
  {
    hide RangeGetItem, Subscript, RangeLength, Count, LengthFits;
    LengthIsCount(start, stop, step);
    CountIsExact(start, stop, step, 0);
    LengthIsI64(start, stop, step);
    var l, n := RangeLength(start, stop, step), Count(start, stop, step);
    if l == n {
      forall raw | Fits(raw)
        ensures RangeGetItem(start, stop, step, raw) == Subscript(Items(start, stop, step), raw)
      {
        GetItemIsIndexing(start, stop, step, raw);
      }
    } else {
      GetItemIsIndexing(start, stop, step, if l < n then l else n);
    }
  }

  lemma LengthIsI64(start: int, stop: int, step: int)
    requires Fits(step)
    ensures Fits(RangeLength(start, stop, step))
  {
    if step != 0 {
      WrappedSpan(start, stop, step);
      var s := Wrap(Distance(start, stop, step) + Abs(step) - 1);
      var w := if step > 0 then step else Negated(step);
      if step == MIN_I64 {
        assert Truncated(s, MIN_I64) <= 1;
      } else {
        QuotientAtMost(Abs(s), w);
      }
    }
  }

  lemma QuotientAtMost(x: nat, w: int)
    requires w > 0
    ensures 0 <= x / w <= x
  {
    var q := x / w;
    QuotientNonNegative(x, w);
    ProductNonNegative(q, w - 1);
    Distribute(w - 1, 1, q);
  }

  /** Bounds of opposite sign near the limits, where the 64-bit closed forms go wrong. */
  lemma OverflowingRange()
    ensures !LengthFits(MIN_I64, MAX_I64, 1)
    ensures RangeLength(MIN_I64, MAX_I64, 1) == 0 && Count(MIN_I64, MAX_I64, 1) == TWO_64 - 1
    ensures 1 in Items(MIN_I64, MAX_I64, 3) && RangeContains(MIN_I64, MAX_I64, 3, 1) == Ok(false)
    ensures RangeContains(5, MIN_I64, -1, MIN_I64 + 5) == Trap
  {
    WrappedSpan(MIN_I64, MAX_I64, 1);
    WrapShift(TWO_64 - 1);
    StepDivides(MIN_I64, MAX_I64, 3, 1);
    WrapShift(1 - MIN_I64);
  }

  // ---------- the loops ----------

  lemma ExtendProgression(start: int, step: int, n: nat)
    ensures Progression(start, step, n + 1) == Progression(start, step, n) + [start + n * step]
  {
  }

  lemma NextElement(start: int, step: int, n: nat)
    ensures start + n * step + step == start + (n + 1) * step
  {
    Distribute(n, 1, step);
  }

  /** `range_items`: every `i64` range, also where stepping past the last element would overflow. */
  method RangeItems(start: int, stop: int, step: int) returns (r: Result<seq<int>>)
    requires Fits(start) && Fits(stop) && Fits(step)
    ensures step == 0 ==> r == Ok([])
    ensures step != 0 ==>
              r == if Count(start, stop, step) > 100_000_000 then TooLarge else Ok(Items(start, stop, step))
    ensures r.Ok? ==> forall i :: 0 <= i < |r.value| ==> Fits(r.value[i])
  {
    if step == 0 {
      return Ok([]);
    }
    var count := Count(start, stop, step);
    CountIsExact(start, stop, step, 0);
    if count > MAX_RANGE_MATERIALIZE {
      return TooLarge;
    }
    var items := [];
    var current := start;
    ghost var n: nat := 0;
    while Before(current, stop, step)
      invariant n <= count && current == start + n * step && Fits(current)
      invariant items == Progression(start, step, n)
      invariant forall i :: 0 <= i < |items| ==> Fits(items[i])
      decreases count - n
    {
      CountIsExact(start, stop, step, n);
      ExtendProgression(start, step, n);
      NextElement(start, step, n);
      items := items + [current];
      n := n + 1;
      var next := current + step;
      if !Fits(next) {
        CountIsExact(start, stop, step, n);
        return Ok(items);
      }
      current := next;
    }
    CountIsExact(start, stop, step, n);
    r := Ok(items);
  }

  // ---------- range_iter: the wrapping loop ----------

  /** The loop variable of `range_iter` after `k` turns. */
  function Turn(start: int, step: int, k: nat): int {
    Wrap(start + k * step)
  }

  /** The loop takes exactly `n` turns. */
  ghost predicate StopsAfter(start: int, stop: int, step: int, n: nat) {
    && !Before(Turn(start, step, n), stop, step)
    && forall k: nat :: k < n ==> Before(Turn(start, step, k), stop, step)
  }

  /** What the first `n` turns push. */
  function Pushed(start: int, step: int, n: nat): (r: seq<int>)
    ensures |r| == n && forall k: nat :: k < n ==> r[k] == Turn(start, step, k)
  {
    seq(n, k requires 0 <= k < n => Turn(start, step, k))
  }

  lemma NextTurn(start: int, step: int, k: nat)
    ensures Turn(start, step, k + 1) == Wrap(Turn(start, step, k) + step)
    ensures Pushed(start, step, k + 1) == Pushed(start, step, k) + [Turn(start, step, k)]
  {
    WrapSum(start + k * step, step);
    NextElement(start, step, k);
  }

  /** The first turns are those of the range itself. */
  lemma FirstTurns(start: int, stop: int, step: int, k: nat)
    requires Fits(start) && Fits(stop) && step != 0 && k < Count(start, stop, step)
    ensures Turn(start, step, k) == start + k * step && Before(Turn(start, step, k), stop, step)
  {
    ItemsFit(start, stop, step, k);
    CountIsExact(start, stop, step, k);
  }

  /** After the last element, the wrapped loop variable is past the stop exactly if that addition fits. */
  lemma LoopStopsExactlyWhen(start: int, stop: int, step: int)
    requires Fits(start) && Fits(stop) && Fits(step) && step != 0
    ensures var n := Count(start, stop, step);
            n >= 0 && (Before(Turn(start, step, n), stop, step) <==> n > 0 && !Fits(start + n * step))
  {
    CountIsExact(start, stop, step, 0);
    var n: nat := Count(start, stop, step);
    CountIsExact(start, stop, step, n);
    if n > 0 {
      ItemsFit(start, stop, step, n - 1);
      NextElement(start, step, n - 1);
      WrapShift(start + n * step);
      CountIsExact(start, stop, step, n - 1);
    }
  }

  /** The last addition of the loop, past the last element, fits in 64 bits. */
  predicate LastStepFits(start: int, stop: int, step: int) {
    var n := Count(start, stop, step);
    n > 0 ==> Fits(start + n * step)
  }

  /** The loop stops with exactly the range's elements if and only if its last addition fits. */
  lemma LoopIsItemsExactly(start: int, stop: int, step: int)
    requires Fits(start) && Fits(stop) && Fits(step) && step != 0
    ensures (exists n: nat :: StopsAfter(start, stop, step, n) && Pushed(start, step, n) == Items(start, stop, step))
       <==> LastStepFits(start, stop, step)
    ensures forall n: nat :: StopsAfter(start, stop, step, n) ==>
              n >= |Items(start, stop, step)| && (n == |Items(start, stop, step)| <==> LastStepFits(start, stop, step))
  {
    LoopStopsExactlyWhen(start, stop, step);
    CountIsExact(start, stop, step, 0);
    var c: nat := Count(start, stop, step);
    var items := Items(start, stop, step);
    forall k: nat | k < c ensures Turn(start, step, k) == start + k * step && Before(Turn(start, step, k), stop, step) {
      FirstTurns(start, stop, step, k);
    }
    hide Turn, Before, Count;
    assert Pushed(start, step, c) == items;
    if LastStepFits(start, stop, step) {
      assert StopsAfter(start, stop, step, c);
    }
  }

  /**
   `range_iter`, watched for at most `turns` turns of its loop, which may never stop: the
   result, or `None` while it is still running.
   */
  method RangeIter(start: int, stop: int, step: int, turns: nat) returns (r: Option<Result<seq<int>>>)
    requires Fits(start) && Fits(stop) && Fits(step)
    ensures step == 0 ==> r == Some(Ok([]))
    ensures r == Some(TooLarge) <==> Count(start, stop, step) > 10_000_000
    ensures step != 0 && Count(start, stop, step) <= 10_000_000 ==>
              if r.None? then forall k: nat :: k <= turns ==> Before(Turn(start, step, k), stop, step)
              else exists n: nat :: n <= turns && StopsAfter(start, stop, step, n) && r == Some(Ok(Pushed(start, step, n)))
    ensures step != 0 && r.Some? && r.value.Ok? ==>
              (r.value.value == Items(start, stop, step) <==> LastStepFits(start, stop, step))
  {
    if step == 0 {
      return Some(Ok([]));
    }
    LoopIsItemsExactly(start, stop, step);
    if Count(start, stop, step) > MAX_COLLECTION_SIZE {
      return Some(TooLarge);
    }
    hide Turn, Before, Count, LastStepFits, Items;
    var items := [];
    var i := start;
    var n: nat := 0;
    FirstTurn(start, step);
    while Before(i, stop, step)
      invariant n <= turns && i == Turn(start, step, n) && items == Pushed(start, step, n)
      invariant forall k: nat :: k < n ==> Before(Turn(start, step, k), stop, step)
      decreases turns - n
    {
      if n == turns {
        return None;
      }
      NextTurn(start, step, n);
      items := items + [i];
      i := Wrap(i + step);
      n := n + 1;
    }
    assert StopsAfter(start, stop, step, n);
    r := Some(Ok(items));
  }

  lemma FirstTurn(start: int, step: int)
    requires Fits(start)
    ensures Turn(start, step, 0) == start && Pushed(start, step, 0) == []
  {
    assert 0 * step == 0;
  }

  /** `range(2**63 - 2, 2**63 - 1, 2)` holds one element, and its loop never stops: the wrapped variable stays even. */
  lemma LoopNeverStops(k: nat)
    ensures Count(MAX_I64 - 1, MAX_I64, 2) == 1 && !LastStepFits(MAX_I64 - 1, MAX_I64, 2)
    ensures Before(Turn(MAX_I64 - 1, 2, k), MAX_I64, 2)
  {
    var x := MAX_I64 - 1 + k * 2;
    var q := (x - MIN_I64) / TWO_64;
    assert Wrap(x) == x - q * TWO_64;
    assert Wrap(x) != MAX_I64;
  }
}
