# Verification of the interpreter's core data structures

This project models five connected parts of `interpretthis`, a Python interpreter
written in Rust, and proves what they promise. Everything is proved for all inputs,
all runs or all heaps; there are no axioms and no assumed facts of arithmetic.

1. **The set table** (`Probe`, `TableModel`, `TableCorrect`, `TableAlgebra`,
   `TablePlacement`, `SetTable`, `IndexTable`, `FrozenHash`). A Python set iterates in slot order, so the
   interpreter ports CPython's open-addressing table: runs of ten neighbouring slots,
   then perturbed jumps, tombstones, resizing at 3/5 load, a three-path merge.
   `TableModel` specifies every operation slot by slot as a function of the old
   layout; the class `SetTables.SetTable` is the imperative table, whose methods are
   proved to leave exactly those layouts; `TableCorrect` and `TableAlgebra` prove that
   the layouts refine mathematical sets over every run; `TablePlacement` says, in numbers
   and slots, where each operation puts what, and so in which order a set iterates. The probe loops have no bound
   of their own; they end because `i -> 5*i + 1` visits every slot of a power-of-two
   table and the load bound keeps one slot empty, and both facts are proved.
2. **C3 linearisation and the method walk** (`Linearization`, `ClassRegistry`). The
   merge succeeds if and only if a consistent strict total order exists, it yields
   exactly the C3 order, every stored order is the C3 order its bases had when the class
   was made, and a run of class statements keeps the whole registry monotone
   exactly if each is compatible with what is stored. A cooperative `super()` chain ends
   exactly if the class is not listed behind itself with the method defined, and then
   runs every definer once, in order.
3. **Numeric hashing modulo 2^61 - 1** (`Mersenne`, `NumericHash`), after "Hashing of
   numeric types" in the Built-in Types chapter of the Python 3.12 Library Reference.
   Integers, floats, decimals and fractions that denote one rational hash alike, to its
   value modulo 2^61 - 1 with the sign. The
   primality of the modulus (by the Lucas-Lehmer test) and Fermat's little theorem,
   on which the modular inverse rests, are proved and not assumed.
4. **Guarded traversals of a cyclic heap** (`GuardedEq`, `ListOrder`, `OrderAnswers`,
   `EqualityRuns`, `GuardedPrint`, `PrintedForms`): equality with a depth limit and a
   sticky overflow flag, the ordering of lists, JSON conversion and `repr` with active
   sets: when each ends, and what it then yields.
5. **Closed forms and encodings** (`Machine`, `Floats`, `Ranges`, `KeyHash`,
   `NumberKeys`, `KeyStreams`, `KeySymmetry`, `DecimalText`): range arithmetic, dictionary
   keys and what they feed to the hasher, and the decimal printer with a reader that
   inverts it.

How the model reads the source:

- Values of the set table are an arbitrary type with an equality `eq` that must be an
  equivalence; an element is a value with its hash, and two elements are the same when
  the hashes are equal and `eq` holds. A set operation keeps the representative that
  Python keeps, so results are stated as sets of entries, not only up to equality.
- `x & mask` is `x % size` for a power-of-two size. Unbounded integers stand for
  machine words; `Probe.WrappingIsHarmless` shows that wrapping a jump at 64 bits
  changes no slot. The bitwise union of the two halves of a 61-bit rotation is written
  as their sum, since they share no bit.
- Signed 64-bit sums, products and negations in ranges and decimals wrap, as in a release
  build (`Machine`); `i as f64` rounds to the nearest float, ties to even (`Floats`).
- A finite `f64` is a sign, a 53-bit mantissa and an exponent in the hash, and its
  three bit fields elsewhere. Products with powers of two and
  subtraction of the integer part are exact, so the fraction in the hash loop is a
  56-bit fixed-point number.
- Hash functions that the table only carries along (strings, bytes, user types) and
  the digest inside a frozenset key are parameters.
- A frozenset key holds elements that differ pairwise as Python values. Less is asked of
  them than Python guarantees: a float and an integer beyond 64 bits may both be elements
  even if they are equal.
- Container contents are a finite map from references to lists and dicts. Snapshots and
  `Arc` counts have no counterpart, and of the locks only those that an ordering holds;
  the thread-local guard state is an object passed explicitly.

Places where the code does not do what its comments or its names promise. Each has a
concrete input and a condition that holds if and only if the code is right:

- The closed forms of `range` (crates/interpretthis/src/types.rs:2918-2920, 3250-3260 and
  3628-3635) work in 64 bits and are wrong for some bounds of opposite sign near the
  limits: `len(range(-2**63, 2**63 - 1))` comes out as 0 (`Ranges.OverflowingRange`).
  `Ranges.LengthIsCount`, `Ranges.ContainsIsMembership`, `Ranges.ContainsFloat` and
  `Ranges.GetItemIsIndexing` give the conditions.
- The loop of `range_iter` (crates/interpretthis/src/types.rs:2864-2881) wraps when it
  steps past its last element: `list(range(2**63 - 2, 2**63 - 1, 2))` never stops
  (`Ranges.LoopNeverStops`). `Ranges.LoopIsItemsExactly` gives the condition.
- `float_key_i64` (crates/interpretthis/src/value.rs:1865-1874) accepts the float
  `2^63` with the integer `2^63 - 1`, because the cast saturates and `i64::MAX` rounds
  back up; and the comment on `float_to_key`
  (crates/interpretthis/src/eval/literals.rs:328-332) that an integral float meets the
  matching big-integer key does not hold outside the `i64` range.
  `KeyHash.FloatKeyMeetsInt` gives the condition.
- A float key `-0.0` equals the key `0`, which equals the key `0.0`, but `-0.0` and
  `0.0` are different keys (`KeyHash.NegativeZeroBreaksEquality`). Key equality is
  transitive exactly where the outer keys hold no zeros of opposite sign in matching
  places, through tuples and frozensets (`KeyHash.KeyTransitive`).
- The float `2^63` and the integer `2^63 - 1` are two elements of a set and one key, so
  comparing frozenset keys by one-sided containment
  (crates/interpretthis/src/value.rs:1800-1802) is neither symmetric nor in agreement with
  the hash: `{2.0**63, 2**63 - 1}` is equal to `{2**63 - 1, 7}` and not the other way
  round (`KeySymmetry.TwinsBreakKeys`). A key is equal to exactly the keys that are equal
  to it if and only if no frozenset of two or more elements in it holds one of the two
  numbers (`KeySymmetry.SymmetryExactly`). Keys whose frozensets hold pairwise unequal
  elements are equal both ways or not at all, and feed the hasher alike, through any
  nesting (`KeySymmetry.EqualKeysFeedAlike`); among the keys that bring no such elements
  of their own, a key behaves like that if and only if it holds none itself
  (`KeySymmetry.PairBreaksSymmetry`, `KeySymmetry.PairBreaksFeed`). Inside another
  frozenset the direction of the comparison turns round
  (`KeySymmetry.NestedTwinsBreakKeys`).
- A class statement may name the class it rebinds as a base. `class A(A)` stores the order
  `[A, A]`, and since `super()` looks up the first place of the defining class
  (crates/interpretthis/src/eval/classes.rs:2288), `A.m` calling `super().m()` runs itself
  for ever (`ClassRegistry.SelfBaseLoops`). `ClassRegistry.ChainEndsExactly` says for
  which classes and methods the chain ends.
- Rebinding a class name can leave a stale order in a subclass
  (`ClassRegistry.RebindingBreaksMonotone`). A class statement keeps the registry
  monotone exactly if it is compatible with the stored orders
  (`ClassRegistry.DefineMonotoneExactly`); fresh names always are, and so is a rebinding
  that keeps the order.
- The overflow flag of equality is read after a comparison that may not have touched it
  (crates/interpretthis/src/eval/operations.rs:1316-1321). After `c1 in [c2]` on two
  lists that hold themselves, `1 == 1` and `1 < 2` raise `RecursionError`
  (`EqualityRuns.StaleFlagRaises`, `EqualityRuns.StaleFlagRaisesOrder`).
  `EqualityRuns.ErrorAfterRun` says after which runs, and for which operands, that
  happens.
- The decimal printer and the decimal hash negate a 64-bit scale
  (crates/interpretthis/src/value.rs:3255-3258, crates/interpretthis/src/types.rs:3047).
  `Decimal(12).scaleb(2**63 - 1)` prints `1.2E-9223372036854775808`
  (`DecimalText.WrappedExponentPrints`), and at scale `-2^63` the exponent is dropped from
  the hash (`NumericHash.LeastScaleUnequal`). `DecimalText.FormatReadsBack` and
  `NumericHash.HashDecimal` give the conditions.
- An ordering of lists holds their locks while it compares elements
  (crates/interpretthis/src/types.rs:2446-2448), and equality locks again. After
  `x = [[1]]; y = [x]`, `y < x` waits for itself (`ListOrder.SharedListBlocks`). It
  returns if and only if on the way to the pair that decides it never waits for a list it
  has entered before (`ListOrder.ReturnsExactly`), so operands without cycles that share
  no container are safe (`ListOrder.SeparateReturns`).

## Model

| member | source | states |
|---|---|---|
| `Probe.WrappingIsHarmless` | crates/interpretthis/src/pyset.rs:119-119 | the jump computed in machine words, wrapping at every step, is the unbounded one, because the table size divides 2^64 |
| `Probe.IterateStride` | crates/interpretthis/src/pyset.rs:119-119 | 2^k jumps of `5*i + 1` move by an odd multiple of 2^k |
| `Probe.FullPeriod` | crates/interpretthis/src/pyset.rs:119-119 | from any start the jump `5*i + 1` reaches every residue modulo 2^k within 2^k jumps |
| `Probe.PerturbVanishes` | crates/interpretthis/src/pyset.rs:118-118 | along any probe sequence the perturbation eventually is zero at the start of a run |
| `Probe.EverySlotIsProbed` | crates/interpretthis/src/pyset.rs:99-121 | the probe sequence of any hash visits every slot of a power-of-two table |
| `TablePlacements.ProbePath` | crates/interpretthis/src/pyset.rs:99-121 | runs of ten slots where they fit in the table, else single slots, then 5i + 1 plus the perturbation, five bits of which are shifted out each time |
| `TableModel.StopExists` | crates/interpretthis/src/pyset.rs:99-121 | if some slot is empty, probing for any hash meets a first empty slot |
| `TableModel.Grow` | crates/interpretthis/src/pyset.rs:242-246 | doubling stops above `minused` and at most at twice it |
| `TableCorrect.AbsentIfNoHit` | crates/interpretthis/src/pyset.rs:170-197 | a probe that meets no match before the first empty slot proves that the element is not in the table |
| `TableCorrect.ContainsIsMember` | crates/interpretthis/src/pyset.rs:170-197 | `contains` is exactly membership of the mathematical set |
| `TableCorrect.StoreKeepsLayout` | crates/interpretthis/src/pyset.rs:127-166 | storing an absent element in a free slot on its own unbroken path keeps uniqueness and the no-gap property, and adds exactly that element |
| `TableCorrect.EraseKeepsLayout` | crates/interpretthis/src/pyset.rs:201-230 | a tombstone keeps every other element locatable and removes exactly the matching element |
| `TableCorrect.ReusedDummyIsLast` | crates/interpretthis/src/pyset.rs:123-126 | the tombstone `add` reuses is the last one on the probe path before the empty slot |
| `TableCorrect.PlaceAllCorrect` | crates/interpretthis/src/pyset.rs:97-121 | clean inserts of pairwise distinct absent entries keep the layout invariant and store exactly those entries |
| `TableCorrect.ResizeCorrect` | crates/interpretthis/src/pyset.rs:240-261 | `resize` changes only the layout: same entries, no tombstones, the chosen size |
| `TableCorrect.MaybeResizeCorrect` | crates/interpretthis/src/pyset.rs:232-238 | `maybe_resize` leaves the table alone below three fifths; else the size becomes more than 4 times the elements, above 50000 twice, and 8 or at most twice that bound; the entries stay and the load bound holds |
| `TableCorrect.AddCorrect` | crates/interpretthis/src/pyset.rs:123-166 | `add` keeps the table invariant and inserts, keeping an equal element that is already there |
| `TableCorrect.DiscardCorrect` | crates/interpretthis/src/pyset.rs:199-230 | `discard` keeps the invariant, removes exactly the matching element and reports prior membership |
| `TableCorrect.PopCorrect` | crates/interpretthis/src/pyset.rs:314-325 | `pop_first` keeps the invariant and removes the first element in iteration order, if there is one |
| `TableCorrect.CompactCorrect` | crates/interpretthis/src/pyset.rs:304-312 | compaction keeps the invariant and the elements |
| `TablePlacements.AddExactly` | crates/interpretthis/src/pyset.rs:127-166 | a new element takes the last tombstone before the first empty slot of its path, or else that slot, and only then can the table be rehashed; a present one changes nothing |
| `TablePlacements.GrowthExactly` | crates/interpretthis/src/pyset.rs:232-261 | adding an absent element leaves the size alone if a tombstone is reused or 5 times the new fill stays below 3 times the mask; else the size it leaves is a power of two above 4 times the elements, and 8 or at most 8 times them; above 50000 elements 2 and 4 |
| `TablePlacements.ResizeRehashes` | crates/interpretthis/src/pyset.rs:240-261 | rehashing puts the entries, in old slot order, each in the first slot of its path that is still free |
| `TablePlacements.DiscardExactly` | crates/interpretthis/src/pyset.rs:201-230 | discarding turns the one slot of the element into a tombstone |
| `TablePlacements.PopExactly` | crates/interpretthis/src/pyset.rs:314-325 | pop takes the first active slot |
| `TablePlacements.CompactExactly` | crates/interpretthis/src/pyset.rs:307-312 | the table is rehashed exactly if more than a quarter of the mask are tombstones |
| `TableAlgebra.AddAllMembers` | crates/interpretthis/src/pyset.rs:333-343 | building from any list, duplicates included, answers to exactly the listed elements |
| `TableAlgebra.PresizeCorrect` | crates/interpretthis/src/pyset.rs:265-268 | presizing leaves room for the other table under the load bound |
| `TableAlgebra.MergeCorrect` | crates/interpretthis/src/pyset.rs:263-294 | `merge` keeps the invariant and is union on each of its three paths |
| `TableAlgebra.UnionCorrect` | crates/interpretthis/src/pyset.rs:353-359 | the union operator gives the union that keeps the left representative |
| `TableAlgebra.IntersectionCorrect` | crates/interpretthis/src/pyset.rs:361-373 | `a & b` holds the elements of the smaller operand, the right one on a tie, found in the other |
| `TableAlgebra.IntersectionMembers` | crates/interpretthis/src/pyset.rs:361-373 | whichever operand is iterated, membership is conjunction |
| `TableAlgebra.DifferenceUpdateCorrect` | crates/interpretthis/src/pyset.rs:393-400 | `a -= b` removes exactly the elements of `b`, with or without compaction |
| `TableAlgebra.DifferenceCorrect` | crates/interpretthis/src/pyset.rs:375-391 | both sides of the size threshold give the set difference |
| `TableAlgebra.SymmetricDifferenceCorrect` | crates/interpretthis/src/pyset.rs:402-414 | `a ^ b` is the symmetric difference |
| `TableAlgebra.CopySize` | crates/interpretthis/src/pyset.rs:345-351 | the size of a copy depends on the element count only |
| `TableAlgebra.CopyIsNormalForm` | crates/interpretthis/src/pyset.rs:345-351 | `copy(copy(a))` equals `copy(a)` slot for slot, for any history of `a` |
| `TableAlgebra.ConstantLiteralMembers` | crates/interpretthis/src/pyset.rs:416-427 | a constant literal holds exactly the listed elements |
| `TablePlacements.FromListInTurn` | crates/interpretthis/src/pyset.rs:333-343 | a set is built from eight empty slots by adding in turn |
| `TablePlacements.MergeExactly` | crates/interpretthis/src/pyset.rs:265-294 | presizing at three fifths to more than twice the elements of both; then the slot copy, the clean fill or the ordinary adds, in slot order |
| `TablePlacements.CopyExactly` | crates/interpretthis/src/pyset.rs:345-351 | a copy is such a merge into eight empty slots |
| `TablePlacements.UnionExactly` | crates/interpretthis/src/pyset.rs:353-359 | a union is such a merge into a copy |
| `TablePlacements.IntersectionExactly` | crates/interpretthis/src/pyset.rs:361-373 | adds up, in slot order, the elements of the smaller operand that are in the other, of the right one on a tie |
| `TablePlacements.SubtractExactly` | crates/interpretthis/src/pyset.rs:393-400 | discards the elements of the right operand in slot order and then compacts |
| `TablePlacements.DifferenceExactly` | crates/interpretthis/src/pyset.rs:375-391 | past four times the right operand a copy is reduced, else what is left is added up in slot order |
| `TablePlacements.SymmetricDifferenceExactly` | crates/interpretthis/src/pyset.rs:402-414 | toggles the elements of the left operand, in slot order, in a copy of the right one |
| `TablePlacements.ConstantLiteralExactly` | crates/interpretthis/src/pyset.rs:416-427 | added up, added up again in the slot order of the first, copied |
| `TablePlacements.SetOfFive` | crates/interpretthis/src/pyset.rs:232-261 | `list(set([16, 1, 2, 3, 4]))` is `[1, 2, 3, 4, 16]` |
| `TableAlgebra.StepRefines` | crates/interpretthis/src/pyset.rs:127-325 | every operation keeps the invariant and is a step of the mathematical set |
| `TableAlgebra.RunRefines` | crates/interpretthis/src/pyset.rs:59-325 | over every run from an empty set, each step keeps the invariant, is a step of the mathematical set, and `contains` is membership |
| `SetTables.SetTable.InsertClean` | crates/interpretthis/src/pyset.rs:97-121 | writes the first empty slot of the path |
| `SetTables.SetTable.FreeSlot` | crates/interpretthis/src/pyset.rs:99-121 | the nested probe loop ends at the first empty slot of the path |
| `SetTables.SetTable.ScanForAdd` | crates/interpretthis/src/pyset.rs:127-161 | the scan of `add` ends and finds the match, or the first empty slot and the last tombstone before it |
| `SetTables.SetTable.Add` | crates/interpretthis/src/pyset.rs:123-166 | `add` in place: which slot a new element takes, when and to which size the table grows and in which order it is refilled; the invariant holds and the element is inserted |
| `SetTables.SetTable.Lookup` | crates/interpretthis/src/pyset.rs:170-197 | the scan of `contains` and `discard` ends and finds the matching slot, if any |
| `SetTables.SetTable.Contains` | crates/interpretthis/src/pyset.rs:168-197 | returns membership |
| `SetTables.SetTable.Discard` | crates/interpretthis/src/pyset.rs:199-230 | puts a tombstone in the slot of the element and nothing else, keeps the invariant, and returns prior membership |
| `SetTables.SetTable.Resize` | crates/interpretthis/src/pyset.rs:240-261 | rehashes into a new array with the specified layout |
| `SetTables.SetTable.Merge` | crates/interpretthis/src/pyset.rs:263-294 | presizes, then fills by slot copy, clean placement in slot order, or ordinary adds in slot order; the elements are the union |
| `SetTables.SetTable.CopySlots` | crates/interpretthis/src/pyset.rs:269-277 | copying active slots into a table that holds nothing reproduces a source without tombstones exactly |
| `SetTables.SetTable.CompactIfSparse` | crates/interpretthis/src/pyset.rs:304-312 | past a quarter of tombstones rehashes to the least size above four times the elements, above 50000 twice; else leaves the table alone; keeps the elements |
| `SetTables.SetTable.Pop` | crates/interpretthis/src/pyset.rs:314-325 | removes and returns the first element in slot order, or reports an empty set |
| `SetTables.SetTable.IterOrdered` | crates/interpretthis/src/pyset.rs:85-95 | lists the active entries in slot order |
| `SetTables.SetTable.Capacity` | crates/interpretthis/src/pyset.rs:243-246 | the doubling loop finds the table size |
| `SetTables.FromIncremental` | crates/interpretthis/src/pyset.rs:333-343 | from eight empty slots, adds the items one by one, each by the rules of `add` |
| `SetTables.CopyOf` | crates/interpretthis/src/pyset.rs:345-351 | a fresh table with the same elements and the normal-form layout |
| `SetTables.UnionTables` | crates/interpretthis/src/pyset.rs:353-359 | a fresh table holding the union |
| `SetTables.IntersectTables` | crates/interpretthis/src/pyset.rs:361-373 | a fresh table whose members are those of both operands |
| `SetTables.DifferenceUpdateTable` | crates/interpretthis/src/pyset.rs:393-400 | removes the other table's elements in place |
| `SetTables.DifferenceTables` | crates/interpretthis/src/pyset.rs:375-391 | a fresh table holding the difference |
| `SetTables.SymmetricDifferenceTables` | crates/interpretthis/src/pyset.rs:402-414 | a fresh table holding the symmetric difference |
| `SetTables.ConstantLiteralTable` | crates/interpretthis/src/pyset.rs:416-427 | a fresh table whose members are the listed elements |
| `IndexTables.AddIsAppend` | crates/interpretthis/src/pyhash.rs:355-382 | on a table without tombstones, adding a new element is placement in the first empty slot |
| `IndexTables.LockStep` | crates/interpretthis/src/pyhash.rs:308-409 | for pairwise distinct items the table of positions, renamed to the items, equals the value table slot for slot |
| `IndexTables.IndexTable.FreeSlot` | crates/interpretthis/src/pyhash.rs:357-382 | the probe loop of the position table ends at the first free slot of the path |
| `IndexTables.IndexTable.MaybeResize` | crates/interpretthis/src/pyhash.rs:384-408 | below three fifths leaves the table alone, else rehashes in slot order to the least power of two above four times the entries, above 50000 twice |
| `IndexTables.SetOrderIndices` | crates/interpretthis/src/pyhash.rs:412-423 | nothing exactly if some item has no reproducible hash; otherwise the stored positions in slot order |
| `IndexTables.OrderMatchesTable` | crates/interpretthis/src/pyhash.rs:412-423 | for pairwise distinct items the listed positions are those of the value table's elements, in its iteration order |
| `FrozenHash.HashFrozenset` | crates/interpretthis/src/pyhash.rs:187-203 | the loop computes the XOR fold, size mix and avalanche |
| `FrozenHash.FoldIgnoresOrder` | crates/interpretthis/src/pyhash.rs:194-198 | the fold gives the same word for any two duplicate-free lists of the same elements |
| `FrozenHash.HashIgnoresHistory` | crates/interpretthis/src/pyhash.rs:290-297 | two tables with the same elements hash alike, whatever their insert, delete and resize histories |
| `FrozenHash.KnownHashes` | crates/interpretthis/src/pyhash.rs:187-203 | the hashes of the empty set and of {1, 2, 3}, and a one-element set whose mix is the reserved word |
| `FrozenHash.NeverReserved` | crates/interpretthis/src/pyhash.rs:202-202 | the hash is never -1 |
| `Linearization.MergeSound` | crates/interpretthis/src/eval/classes.rs:1158-1204 | a successful merge lists every mentioned name exactly once and keeps the order of every input |
| `Linearization.MergeComplete` | crates/interpretthis/src/eval/classes.rs:1158-1204 | if a consistent strict total order exists the merge succeeds |
| `Linearization.MergeSucceedsIff` | crates/interpretthis/src/eval/classes.rs:1150-1204 | the merge succeeds if and only if a consistent strict total order exists |
| `Linearization.MergeIsLinearization` | crates/interpretthis/src/eval/classes.rs:1150-1204 | the result is `r` if and only if each name of `r` is the C3 choice among what the names before it leave |
| `ClassRegistry.MergeDrop` | crates/interpretthis/src/eval/classes.rs:1200-1200 | dropping exhausted sequences does not change the merge |
| `ClassRegistry.MroIsC3` | crates/interpretthis/src/eval/classes.rs:1158-1204 | the order of a class is the class and then `r` if and only if `r` is the C3 order of the stored orders of its bases, an unknown base alone, and of the base list behind them |
| `ClassRegistry.OrderOfTwoBases` | crates/interpretthis/src/eval/classes.rs:1158-1204 | `class A`, `class B(A)`, `class C`, `class D(B, C)` give `D` the order [D, B, A, C] |
| `ClassRegistry.BuildMro` | crates/interpretthis/src/eval/classes.rs:1158-1204 | the loop yields the class and then the C3 order of the stored orders of its bases followed by the base list, and fails exactly when there is none, which is when no consistent order exists |
| `ClassRegistry.MroProperties` | crates/interpretthis/src/eval/classes.rs:1150-1204 | for a new name the order starts with the class, lists each ancestor once, and extends the base list and every base's order |
| `ClassRegistry.DefineMonotoneExactly` | crates/interpretthis/src/eval/classes.rs:459-527 | a class statement, with a fresh or a rebound name, keeps the whole registry monotone if and only if the merged orders do not mention the name and every class that lists it keeps the new order |
| `ClassRegistry.RunMonotoneExactly` | crates/interpretthis/src/eval/classes.rs:459-527 | a run keeps the registry monotone throughout if and only if each statement is compatible when it is made |
| `ClassRegistry.SameOrderIsCompatible` | crates/interpretthis/src/eval/classes.rs:507-527 | rebinding a name with an unchanged order is compatible |
| `ClassRegistry.RegistryMonotone` | crates/interpretthis/src/eval/classes.rs:459-527 | over every run with fresh names, each registered order extends the order of every registered class in it |
| `ClassRegistry.RebindingBreaksMonotone` | crates/interpretthis/src/eval/classes.rs:507-507 | a run in which rebinding a base's name breaks monotonicity |
| `ClassRegistry.Registry.DefineClass` | crates/interpretthis/src/eval/classes.rs:459-527 | registers the class under its C3 order and touches no other, or changes nothing on the type error; keeps a monotone registry monotone exactly if the definition is compatible |
| `ClassRegistry.LookupMethod` | crates/interpretthis/src/eval/classes.rs:2595-2609 | finds the first class of the resolution order that has the method among its own |
| `ClassRegistry.SuperMethod` | crates/interpretthis/src/eval/classes.rs:2271-2302 | resumes behind the first place of the defining class, at the first class there with the method; the object default where there is none, and the two errors |
| `ClassRegistry.SuperResumes` | crates/interpretthis/src/eval/classes.rs:2286-2302 | from a definer at any position, `super()` yields the first definer behind the first place of its class, which is that position exactly if the class is not listed before it |
| `ClassRegistry.RunStores` | crates/interpretthis/src/eval/classes.rs:459-527 | over any run of class statements, rebinding included, every stored order has its class first and repeats nothing behind it |
| `ClassRegistry.RunStoresC3` | crates/interpretthis/src/eval/classes.rs:459-527 | over any run a class is stored if and only if some statement defining it had a C3 order, and its order is the one the last of them had when it was made |
| `ClassRegistry.ChainEndsExactly` | crates/interpretthis/src/eval/classes.rs:2286-2302 | a cooperative call ends if and only if the class is not listed behind itself with the method defined |
| `ClassRegistry.RunningIs` | crates/interpretthis/src/eval/classes.rs:2286-2302 | where it ends, the k-th implementation to run is the k-th definer of the order, and then comes the object default |
| `ClassRegistry.RunningLoops` | crates/interpretthis/src/eval/classes.rs:2286-2302 | where it does not, every implementation that runs stands before the second place of the class |
| `ClassRegistry.SelfBaseLoops` | crates/interpretthis/src/eval/classes.rs:1158-1204 | `class A`, then `class A(A)`: the order is [A, A] and A's method runs for ever |
| `ClassRegistry.CallChain` | crates/interpretthis/src/eval/classes.rs:1829-1840 | the call, watched for any number of implementations: what has run, that it still runs, or how it ended; if it ends, the definers of the order ran in order |
| `ClassRegistry.ChainRunsEachOnce` | crates/interpretthis/src/eval/classes.rs:2286-2302 | the definers of a stored order are listed once each exactly if the chain ends, and then in that order |
| `ClassRegistry.ChainsAgree` | crates/interpretthis/src/eval/classes.rs:2286-2302 | in a monotone registry a subclass runs an ancestor's chain in the ancestor's order |
| `Mersenne.LucasLehmer` | crates/interpretthis/src/types.rs:2991-2993 | the Lucas-Lehmer residue of 2^61 - 1 is zero |
| `Mersenne.PIsPrime` | crates/interpretthis/src/types.rs:2991-2993 | 2^61 - 1 is prime |
| `Mersenne.Fermat` | crates/interpretthis/src/types.rs:2991-2993 | `x^(p-1)` is 1 modulo p for every non-zero residue |
| `NumericHash.InverseLaw` | crates/interpretthis/src/types.rs:3019-3020 | `d^(p-2)` is the inverse of `d` |
| `NumericHash.RationalHashIs` | crates/interpretthis/src/types.rs:3014-3024 | the rational hash is the quotient of numerator and denominator modulo p, negated for a negative numerator, -2 in place of -1 |
| `NumericHash.EqualRationals` | crates/interpretthis/src/types.rs:2987-3024 | equal rationals with invertible denominators hash alike |
| `NumericHash.EqualNumbersHashAlike` | crates/interpretthis/src/types.rs:2987-3063 | any two finite numbers, of whatever types, that denote the same rational hash to the same value, also where the modulus divides a denominator |
| `NumericHash.HashExactly` | crates/interpretthis/src/types.rs:2987-3063 | the hash of a number that is not negative is in [0, 2^61 - 1) and times the denominator is the numerator modulo 2^61 - 1, or 314159 where the denominator has no inverse; a negative number has the negated hash of its opposite, -2 in place of -1 |
| `NumericHash.SmallIntHash` | crates/interpretthis/src/pyhash.rs:80-104 | integers below the modulus are their own hashes, except that -1 hashes to -2 |
| `NumericHash.HalfHash` | crates/interpretthis/src/types.rs:2987-3063 | one half hashes to 2^60 as a float, a decimal and a fraction |
| `NumericHash.HashInt` | crates/interpretthis/src/pyhash.rs:80-104 | the integer hash is the magnitude modulo 2^61 - 1 with the sign, -2 in place of -1, and the rational hash of n/1 |
| `NumericHash.PowMod` | crates/interpretthis/src/types.rs:2999-3010 | square-and-multiply computes the power modulo m |
| `NumericHash.HashRational` | crates/interpretthis/src/types.rs:3014-3024 | divides by the Fermat inverse, or yields the infinity hash for a zero denominator |
| `NumericHash.HashFraction` | crates/interpretthis/src/types.rs:3056-3063 | the fraction hash is the rational hash |
| `NumericHash.HashDecimal` | crates/interpretthis/src/types.rs:3032-3054 | the decimal hash is the rational hash for either sign of the scale if and only if the scale is not -2^63 or the modulus divides the coefficient; at -2^63 it is the hash of the coefficient |
| `NumericHash.LeastScale` | crates/interpretthis/src/types.rs:3042-3050 | at scale -2^63 the hash of the coefficient is the hash of the decimal if and only if the modulus divides the coefficient |
| `NumericHash.LeastScaleUnequal` | crates/interpretthis/src/types.rs:3042-3050 | 1 at scale -2^63 and its equal 10 at scale 1 - 2^63 get different hashes |
| `NumericHash.RotateMultiplies` | crates/interpretthis/src/pyhash.rs:124-124 | a 61-bit rotation by r multiplies by 2^r modulo 2^61 - 1 and stays below it |
| `NumericHash.AbsorbChunk` | crates/interpretthis/src/pyhash.rs:124-132 | one round of the loop multiplies the accumulator by 2^28 and adds the chunk |
| `NumericHash.FinalShift` | crates/interpretthis/src/pyhash.rs:134-138 | the rotation amount is the exponent modulo 61, also for negative exponents |
| `NumericHash.ChunkLoop` | crates/interpretthis/src/types.rs:3110-3128 | the loop ends and yields mantissa times 2^exponent modulo p |
| `NumericHash.HashFloat` | crates/interpretthis/src/pyhash.rs:106-145 | the float hash is the rational hash of the exact value, subnormals included |
| `Floats.RoundTrip` | crates/interpretthis/src/value.rs:1868-1869 | converting the integer of an integral float back, to the nearest float with ties to even, gives the float |
| `Floats.RoundIsNearest` | crates/interpretthis/src/value.rs:1869-1869 | the conversion moves a magnitude by at most half a unit in the last place, and by half only to an even mantissa |
| `Floats.FloatKeyIntIs` | crates/interpretthis/src/value.rs:1865-1874 | the saturating cast and the conversion back agree exactly on the `i64` range, with the float's integer, and at 2^63, with 2^63 - 1 |
| `GuardedEq.AlikeSelf` | crates/interpretthis/src/types.rs:2115-2117 | the pointer shortcut is sound: a value is indistinguishable from itself |
| `GuardedEq.OverflowIsFalse` | crates/interpretthis/src/cycle.rs:72-77 | overflow always comes with the answer false |
| `GuardedEq.LargerLimit` | crates/interpretthis/src/cycle.rs:63-99 | without overflow the answer is the same under every larger limit |
| `GuardedEq.EqIsExact` | crates/interpretthis/src/types.rs:2112-2232 | true answers are always right, and without overflow the answer is exactly indistinguishability of the unfoldings, cycles included |
| `GuardedEq.EqGuard.Enter` | crates/interpretthis/src/cycle.rs:78-95 | a fresh comparison clears the flag; the limit sets it and refuses entry |
| `GuardedEq.EqGuard.RecurseEq` | crates/interpretthis/src/types.rs:2215-2232 | ends on every heap, restores the depth, and raises the flag exactly on overflow |
| `GuardedEq.EqGuard.ElementwiseEq` | crates/interpretthis/src/types.rs:2209-2211 | compares element by element up to the first difference; at depth 0 the last element compared decides the flag, and with none it stays |
| `GuardedEq.EqGuard.EntriesEq` | crates/interpretthis/src/types.rs:2132-2150 | compares by key up to the first difference, with the flag as for elements |
| `GuardedEq.EqGuard.EqSlot` | crates/interpretthis/src/types.rs:1108-1119 | the slots of the operands run at the current depth and send only their elements through the guard |
| `GuardedEq.EqGuard.Contains` | crates/interpretthis/src/types.rs:2482-2511 | membership in a list or tuple is equality with some item within the limit; the last item compared leaves its overflow in the flag |
| `EqualityRuns.Compare` | crates/interpretthis/src/eval/operations.rs:1275-1324 | the operator returns an exact answer, or the recursion error exactly if the last element compared overflowed or, with none compared, if the flag was set before; it leaves the guard state clean |
| `EqualityRuns.OperatorIsExact` | crates/interpretthis/src/eval/operations.rs:1275-1324 | an answer is indistinguishability; the error is the overflow of the elements under the limit of 1000, or an old flag on operands without elements to compare |
| `EqualityRuns.ChainLimit` | crates/interpretthis/src/cycle.rs:68-95 | separate chains of nested lists around one scalar compare equal up to exactly 1000 lists |
| `EqualityRuns.TwoChainsOk` | crates/interpretthis/src/cycle.rs:68-95 | such chains exist at every length |
| `OrderAnswers.DispatchLt` | crates/interpretthis/src/types.rs:863-882 | the ordering walk with the lists it holds: if it returns, scalars are ordered by type, a list is not less than itself, mixed kinds are the type error, and on lists and tuples the first pair that can be told apart decides, else the lengths; the flag holds the overflow of its last comparison of elements |
| `OrderAnswers.LexLt` | crates/interpretthis/src/types.rs:2438-2470 | if no comparison waits for a held list: where the shorter sequence unfolds like the beginning of the longer, the answer is whether the left is shorter, else it is the answer for the first pair that differs |
| `OrderAnswers.LessExactly` | crates/interpretthis/src/types.rs:2438-2470 | whatever lists are held, an ordering that returns says what its operands say: the first pair that can be told apart, else the lengths |
| `OrderAnswers.FewerHeld` | crates/interpretthis/src/types.rs:2438-2449 | holding fewer lists changes neither that an ordering returns nor what it says |
| `OrderAnswers.LessAsymmetric` | crates/interpretthis/src/types.rs:2438-2470 | `a < b` and `b < a` are never both true where scalars are ordered that way, at any depth and on any cycles |
| `OrderAnswers.EqualSymmetric` | crates/interpretthis/src/types.rs:2112-2232 | the comparison finds two values equal in both directions or in neither, whatever depth is left |
| `OrderAnswers.PrefixIsLess` | crates/interpretthis/src/types.rs:2462-2470 | a tuple of scalars is less than the same with something behind it, and not the other way round |
| `OrderAnswers.LocksExactly` | crates/interpretthis/src/types.rs:2112-2150 | an equality locks the two lists it compares and what comparing their parts locks, up to and with the first pair that is not equal |
| `ListOrder.LocksNear` | crates/interpretthis/src/types.rs:2112-2150 | every list that an equality locks can be reached from its operands |
| `ListOrder.ReturnsExactly` | crates/interpretthis/src/types.rs:2438-2470 | the ordering returns if and only if on the way down to the deciding pair it never waits for a list it has entered before |
| `ListOrder.SharedListBlocks` | crates/interpretthis/src/types.rs:2438-2449 | acyclic lists on which an ordering never returns |
| `ListOrder.SeparateReturns` | crates/interpretthis/src/types.rs:2438-2470 | on operands without cycles that share no container the ordering returns |
| `EqualityRuns.CompareOrder` | crates/interpretthis/src/eval/operations.rs:1289-1322 | the ordering operators that return: `<` and `>` answer by the order either way round, `<=` and `>=` also where the operands unfold alike, a type error returns before the flag is read |
| `EqualityRuns.OperatorsExactly` | crates/interpretthis/src/eval/operations.rs:1289-1322 | what each of the four operators answers, and when it raises the type error |
| `EqualityRuns.RunSteps` | crates/interpretthis/src/cycle.rs:78-104 | over any run of `==`, orderings and membership tests the outcomes and the flag are the ones computed step by step |
| `EqualityRuns.FlagSetExactly` | crates/interpretthis/src/cycle.rs:78-104 | after any run the flag is set exactly if the last step that touched it ended in an overflow and returned without reading it: a membership test, or an ordering that raised `TypeError` |
| `EqualityRuns.ErrorAfterRun` | crates/interpretthis/src/eval/operations.rs:1275-1324 | after any run a comparison or ordering raises the recursion error exactly if its last comparison of elements overflowed or, with none, if the flag was left set; a type error comes first |
| `EqualityRuns.StaleFlagRaises` | crates/interpretthis/src/eval/operations.rs:1312-1322 | after a membership test on two self-containing lists, comparing a scalar with itself raises the error |
| `EqualityRuns.StaleFlagRaisesOrder` | crates/interpretthis/src/eval/operations.rs:1289-1322 | so does ordering two scalars |
| `EqualityRuns.TypeErrorLeavesFlag` | crates/interpretthis/src/eval/operations.rs:1289-1311 | ordering tuples of two self-containing dicts raises the type error and leaves the flag set |
| `GuardedPrint.EnterClean` | crates/interpretthis/src/cycle.rs:25-48 | a container outside the active set is free of cycles exactly if its contents are with the container active |
| `GuardedPrint.CircularIff` | crates/interpretthis/src/value.rs:3693-3742 | the conversion fails exactly if something reachable is active or lies on a cycle |
| `GuardedPrint.JsonCircularExactly` | crates/interpretthis/src/value.rs:3693-3742 | from a fresh start it reports a circular reference exactly when some reachable list or dict can reach itself |
| `GuardedPrint.OkConverts` | crates/interpretthis/src/value.rs:3693-3786 | every successful conversion matches its value part by part |
| `PrintedForms.ConvertsOnce` | crates/interpretthis/src/value.rs:3693-3786 | at most one tree matches a value |
| `PrintedForms.JsonExactly` | crates/interpretthis/src/value.rs:3693-3786 | from a fresh start the conversion yields the one tree that matches, and reports a circular reference if and only if no finite tree does |
| `PrintedForms.JsonOfDict` | crates/interpretthis/src/value.rs:3773-3786 | a dict of two keys keeps each with its own value |
| `GuardedPrint.ReprIsUnguarded` | crates/interpretthis/src/value.rs:2852-2906 | where nothing reachable is active or cyclic, the guarded rendering of lists, tuples and dicts is the unguarded one |
| `GuardedPrint.ReprOnAcyclic` | crates/interpretthis/src/value.rs:2852-2906 | on acyclic data, shared parts included, `repr` is the unguarded rendering at every sufficient depth |
| `GuardedPrint.RenderEndsExactly` | crates/interpretthis/src/cycle.rs:7-16 | the unguarded rendering ends if and only if nothing reachable lies on a cycle |
| `PrintedForms.ReprExactly` | crates/interpretthis/src/value.rs:2852-2906 | the text of a container is the texts of its parts in order, a comma and a space between each two, in its brackets; a one-item tuple keeps a comma; a list being visited, and only it, is `[...]` |
| `PrintedForms.SelfListText` | crates/interpretthis/src/value.rs:2852-2867 | a list that holds only itself is `[[...]]` |
| `GuardedPrint.ActiveSet.Enter` | crates/interpretthis/src/cycle.rs:31-37 | entry succeeds exactly if the container was not active |
| `GuardedPrint.ActiveSet.ConvertToJson` | crates/interpretthis/src/value.rs:3693-3742 | ends on every heap and restores the active set; a success is a tree that matches the value: scalars their own text, arrays item by item, objects entry by entry under its own key |
| `GuardedPrint.ActiveSet.Display` | crates/interpretthis/src/value.rs:2852-2906 | ends on every heap in which the value reaches no dict on a cycle, computes the rendering and restores the active set |
| `KeyHash.KeyReflexive` | crates/interpretthis/src/value.rs:1763-1852 | key equality is reflexive |
| `KeyHash.EqualExactly` | crates/interpretthis/src/value.rs:1763-1852 | keys are equal if and only if they are so up to the sign of zero and hold no zeros of opposite sign in matching places |
| `KeyHash.KeyTransitive` | crates/interpretthis/src/value.rs:1763-1852 | if a equals b and b equals c, then a equals c if and only if a and c hold no float zeros of opposite sign in matching places |
| `KeySymmetry.TwinsExactly` | crates/interpretthis/src/value.rs:1786-1794 | two scalars of different value are one key, up to the sign of zero, if and only if they are the float 2^63 and the integer key 2^63 - 1 |
| `KeySymmetry.SymmetryExactly` | crates/interpretthis/src/value.rs:1763-1852 | a key is equal to exactly the keys that are equal to it if and only if no frozenset of two or more elements in it holds one of those two numbers at any depth |
| `KeySymmetry.PairBreaksSymmetry` | crates/interpretthis/src/value.rs:1800-1802 | equality with the keys that bring no pair of elements that are one key is symmetric if and only if the key holds no such pair at any depth |
| `KeySymmetry.PairBreaksFeed` | crates/interpretthis/src/value.rs:1945-1956 | equality in either direction with those keys implies the same stream, whatever the digest, if and only if the key holds no such pair |
| `KeySymmetry.EqualKeysFeedAlike` | crates/interpretthis/src/value.rs:1876-2004 | keys whose frozensets hold pairwise unequal elements, if equal in either direction, are equal in both and feed the hasher the same stream, through nested tuples and nested order-free frozensets, signed zeros included |
| `KeySymmetry.RobustKeysFeedAlike` | crates/interpretthis/src/value.rs:1876-2004 | a key in which no frozenset of two or more elements holds one of the two numbers agrees in the same way with every key |
| `KeySymmetry.FlatExactly` | crates/interpretthis/src/value.rs:1800-1802 | where no frozenset lies in another: every key it is equal to is equal to it, and every such key feeds the same stream, if and only if it holds no pair, whatever the others hold |
| `KeySymmetry.TwinsBreakKeys` | crates/interpretthis/src/value.rs:1800-1802 | a frozenset equal to another that is not equal to it and feeds differently unless two digests collide |
| `KeySymmetry.NestedTwinsBreakKeys` | crates/interpretthis/src/value.rs:1800-1802 | a frozenset of frozensets without such a pair that is equal to a key which is not equal to it |
| `KeyHash.NormalizedUnique` | crates/interpretthis/src/value.rs:1973-1981 | equal decimals of any scales normalise to the same coefficient and scale |
| `KeyHash.EqualIntegersEqualKeys` | crates/interpretthis/src/eval/literals.rs:212-263 | bools, ints, big ints, floats, decimals and fractions of one `i64` value get equal keys, unless both are float zeros of opposite sign |
| `KeyHash.DecimalKeyIsInt` | crates/interpretthis/src/eval/literals.rs:249-252 | an integer-valued decimal folds to the integer key |
| `KeyHash.FloatKeyMeetsInt` | crates/interpretthis/src/value.rs:1786-1794 | a float meets the key of an integer exactly when it is integral and equal to it in the `i64` range, or is 2^63 and the integer is 2^63 - 1 |
| `NumberKeys.SharedKeyExactly` | crates/interpretthis/src/eval/literals.rs:212-263 | bools, ints, big ints, decimals and fractions share a key if and only if they are one rational, except that a decimal and a fraction meet only in integers |
| `NumberKeys.FloatSharesExactly` | crates/interpretthis/src/eval/literals.rs:212-263 | a float shares the key of another number if and only if that denotes the float's own `i64` integer, or is 2^63 - 1 for the float 2^63 |
| `KeyStreams.StreamDecodes` | crates/interpretthis/src/value.rs:1876-2004 | without frozensets the stream of a key is the beginning of no other's, and determines the key up to the sign of zero |
| `KeyStreams.FeedsExactly` | crates/interpretthis/src/value.rs:1876-2004 | keys without frozensets feed the hasher alike if and only if they are equal up to the sign of zero |
| `KeyHash.NegativeZeroBreaksEquality` | crates/interpretthis/src/value.rs:1782-1788 | -0.0, 0 and 0.0 as a triple on which key equality is not transitive |
| `Ranges.CountIsExact` | crates/interpretthis-node/src/convert.rs:313-321 | position i is before the stop exactly if i is below the count, for either sign of the step |
| `Ranges.LengthIsCount` | crates/interpretthis/src/types.rs:3628-3635 | the closed-form length, with its 64-bit wrapping sums, is the number of elements if and only if the rounded-up span fits in 64 bits; the step -2^63, whose negation wraps, is right only for empty or one-apart bounds |
| `Ranges.ContainsIsMembership` | crates/interpretthis/src/types.rs:2915-2920 | the modular test, with its wrapping subtraction and trapping remainder, is membership in the materialised range if and only if the element is out of bounds or its gap is sound: it fits, or 2^64 is a multiple of the step, or neither the gap nor its wrapped form is |
| `Ranges.ContainsFloat` | crates/interpretthis/src/types.rs:2900-2920 | a float item is found exactly where its integer is, under the same condition, except 2^63 in a descending range from 2^63 - 1 |
| `Ranges.GetItemIsIndexing` | crates/interpretthis/src/types.rs:3250-3260 | indexing at a position, negative ones included, agrees with the materialised range or its index error if and only if the computed and the true length do not disagree there |
| `Ranges.IndexingExactlyWhen` | crates/interpretthis/src/types.rs:3250-3260 | indexing is right at every 64-bit position if and only if the length fits |
| `Ranges.OverflowingRange` | crates/interpretthis/src/types.rs:3628-3635 | concrete ranges for which the length, the membership test and the remainder fail |
| `Ranges.RangeItems` | crates/interpretthis-node/src/convert.rs:309-340 | over all `i64` ranges yields exactly the counted elements, also where the checked addition stops the loop, or the size error |
| `Ranges.RangeIter` | crates/interpretthis/src/types.rs:2842-2882 | the wrapping loop, watched for any number of turns: the size error, the pushed elements if it has stopped, or that it still runs; what it returns is the range exactly if its last addition fits |
| `Ranges.LoopStopsExactlyWhen` | crates/interpretthis/src/types.rs:2864-2881 | after the last element the wrapping loop variable is past the stop if and only if the last addition fits |
| `Ranges.LoopIsItemsExactly` | crates/interpretthis/src/types.rs:2864-2881 | the loop stops with exactly the elements of the range if and only if its last addition fits; otherwise it stops later or never |
| `Ranges.LoopNeverStops` | crates/interpretthis/src/types.rs:2864-2881 | a one-element range on which the loop never stops |
| `DecimalText.DigitsRead` | crates/interpretthis/src/value.rs:3254-3254 | the digits of a coefficient read back as the coefficient |
| `DecimalText.LayoutRead` | crates/interpretthis/src/value.rs:3261-3279 | digits and exponent are recovered from the plain, leading-zero and exponent forms |
| `DecimalText.FormatReads` | crates/interpretthis/src/value.rs:3237-3280 | what a reader recovers from the text of any decimal, wrapped exponents included |
| `DecimalText.FormatReadsBack` | crates/interpretthis/src/value.rs:3237-3280 | a reader of the numeric-string syntax of the General Decimal Arithmetic Specification recovers sign, coefficient and exponent, negative zero included, if and only if the adjusted exponent fits in 64 bits |
| `DecimalText.FormatShape` | crates/interpretthis/src/value.rs:3237-3280 | the text in full where the adjusted exponent fits: sign, then the digits with the point in place and at most five zeros behind it, else one digit, point, the other digits and an exponent that always has a sign |
| `DecimalText.WrappedExponentPrints` | crates/interpretthis/src/value.rs:3255-3279 | 12 at scale 1 - 2^63 prints with the exponent -2^63 |

## Left out

- `SetBody` and its insertion-order fallback: a fallback value may equal a hashable one, so the two bodies agree only under an assumption the interpreter does not enforce.
- NaN, and equality of large integers with floats: `eq` is not an equivalence on them, so they are outside the set table's domain.
- Hashes of strings, bytes, tuples, complex numbers and temporal values, and the choice of `None` for values without a reproducible hash: they would only add fixed arithmetic.
- The infinities and NaN of floats and decimals in the hash, the keys and the printer: fixed results.
- Enum, class, function, complex and temporal dictionary keys, and instance keys, which compare by identity.
- `repr` of a dict that lies on a cycle: it takes no guard and holds the dict's lock, so it does not return. Sets, deques and the other containers in JSON and equality, and the collision of different dict keys that print alike in a JSON object.
- Membership in sets, dicts and deques, and the other callers of equality that never read the overflow flag: they act on it as the list scan does.
- The rest of class creation (slots, abstract methods, metaclasses, decorators) and the execution of method bodies: the walk models which implementation runs next.
- Host bindings, tools, async evaluation, memory accounting, parsing, name mangling, state export.
- Orderings that wait for ever are no steps of a run; `<` on scalars is a parameter.
- KeySymmetry.RobustKeysFeedAlike: sufficient only. With 64-bit digests there are more nested sets than digests can tell apart, so some keys outside it agree too.
- NumericHash.HashFraction: asks only that the modulus does not divide both terms, which lowest terms imply.
- DecimalText.FormatReadsBack: asks that the digit string be no longer than 2^63 - 1, which no string in memory is.
- Decimal keys: `BigDecimal` normalisation is exact here; the 64-bit scale inside it is not modelled.
- TableModel.Grow: the doubling is on unbounded integers; a table too large for the address space is not modelled.
