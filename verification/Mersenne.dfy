/**
 The hash modulus `2^61 - 1` is prime (Lucas-Lehmer), so every non-zero residue `d`
 has the inverse `d^(p - 2)` (Fermat). Both facts are proved here; the rational
 hashes depend on them.
 */
module Mersenne {
  import opened Arith

  const P: nat := 0x1FFF_FFFF_FFFF_FFFF

  // ---------- divisibility ----------

  lemma DivIntro(m: int, x: int, k: int)
    requires m > 0 && x == k * m
    ensures x % m == 0
  {
    Euclid(x, k, 0, m);
  }

  lemma DivScale(m: int, x: int, a: int)
    requires m > 0 && x % m == 0
    ensures (a * x) % m == 0
  {
    Reassociate(a, x / m, m);
    DivIntro(m, a * x, a * (x / m));
  }

  lemma DivAdd(m: int, x: int, y: int)
    requires m > 0 && x % m == 0 && y % m == 0
    ensures (x + y) % m == 0 && (x - y) % m == 0
  {
    Distribute(x / m, y / m, m);
    DivIntro(m, x + y, x / m + y / m);
    DivIntro(m, x - y, x / m - y / m);
  }

  lemma DivSmall(m: int, x: int)
    requires m > 0 && x % m == 0 && -m < x < m
    ensures x == 0
  {
    if x >= 0 {
      Euclid(x, 0, x, m);
    } else {
      Euclid(x, -1, x + m, m);
    }
  }

  lemma DivTransitive(m: int, n: int, x: int)
    requires m > 0 && n > 0 && n % m == 0 && x % n == 0
    ensures x % m == 0
  {
    DivScale(m, n, x / n);
  }

  lemma SameResidue(m: int, x: int, y: int)
    requires m > 0
    ensures x % m == y % m <==> (x - y) % m == 0
  {
    if x % m == y % m {
      Distribute(x / m, y / m, m);
      DivIntro(m, x - y, x / m - y / m);
    }
    if (x - y) % m == 0 {
      var k := (x - y) / m;
      assert x == y + k * m;
      ModMultiple(y, k, m);
    }
  }

  // ---------- pigeonhole ----------

  ghost predicate Injective(f: nat -> nat, n: nat) {
    forall i, j :: 0 <= i < j < n ==> f(i) != f(j)
  }

  function Upto(m: nat): (s: set<nat>)
    ensures |s| == m && forall x: nat :: x in s <==> x < m
  {
    if m == 0 then {} else Upto(m - 1) + {m - 1}
  }

  lemma {:induction false} ImageSize(f: nat -> nat, n: nat) returns (s: set<nat>)
    requires Injective(f, n)
    ensures |s| == n && forall y :: y in s ==> exists i :: 0 <= i < n && f(i) == y
  {
    s := {};
    if n > 0 {
      s := ImageSize(f, n - 1);
      assert f(n - 1) !in s;
      s := s + {f(n - 1)};
    }
  }

  lemma {:induction false} SubsetSize(a: set<nat>, b: set<nat>)
    requires a <= b
    ensures |a| <= |b|
  {
    if a != {} {
      var x :| x in a;
      SubsetSize(a - {x}, b - {x});
    }
  }

  lemma Pigeonhole(f: nat -> nat, n: nat, m: nat)
    requires Injective(f, n) && forall i :: 0 <= i < n ==> f(i) < m
    ensures n <= m
  {
    var s := ImageSize(f, n);
    assert s <= Upto(m);
    SubsetSize(s, Upto(m));
  }

  // ---------- powers of 2 + sqrt(3) ----------

  /** `(2 + sqrt 3)^n == a + b * sqrt 3`. */
  function RootA(n: nat): int
    decreases n, 0
  {
    if n == 0 then 1 else 2 * RootA(n - 1) + 3 * RootB(n - 1)
  }

  function RootB(n: nat): int
    decreases n, 0
  {
    if n == 0 then 0 else RootA(n - 1) + 2 * RootB(n - 1)
  }

  lemma StepProducts(a: int, b: int, c: int, d: int)
    ensures a * (2 * c + 3 * d) + 3 * (b * (c + 2 * d)) == 2 * (a * c + 3 * (b * d)) + 3 * (a * d + b * c)
    ensures a * (c + 2 * d) + b * (2 * c + 3 * d) == (a * c + 3 * (b * d)) + 2 * (a * d + b * c)
  {
  }

  lemma {:induction false} RootAdd(m: nat, n: nat)
    ensures RootA(m + n) == RootA(m) * RootA(n) + 3 * (RootB(m) * RootB(n))
    ensures RootB(m + n) == RootA(m) * RootB(n) + RootB(m) * RootA(n)
  {
    if n > 0 {
      RootAdd(m, n - 1);
      StepProducts(RootA(m), RootB(m), RootA(n - 1), RootB(n - 1));
    }
  }

  lemma NormStep(a: int, b: int)
    ensures (2 * a + 3 * b) * (2 * a + 3 * b) - 3 * ((a + 2 * b) * (a + 2 * b)) == a * a - 3 * (b * b)
  {
  }

  lemma {:induction false} RootNorm(n: nat)
    ensures RootA(n) * RootA(n) - 3 * (RootB(n) * RootB(n)) == 1
  {
    if n > 0 {
      RootNorm(n - 1);
      NormStep(RootA(n - 1), RootB(n - 1));
    }
  }

  /** Squaring. */
  lemma RootDouble(n: nat)
    ensures RootA(2 * n) == 2 * (RootA(n) * RootA(n)) - 1
    ensures RootB(2 * n) == 2 * (RootA(n) * RootB(n))
  {
    RootAdd(n, n);
    RootNorm(n);
  }

  // ---------- the Lucas-Lehmer residues ----------

  /** `r` is the residue of `2 * a(2^i)`. */
  ghost predicate Lucas(n: nat, r: nat) {
    (2 * RootA(n) - r) % P == 0
  }

  lemma LucasSquare(t: int, r: int)
    requires (t - r) % P == 0
    ensures (t * t - r * r) % P == 0
  {
    DivScale(P, t - r, t + r);
    assert (t + r) * (t - r) == t * t - r * r;
  }

  lemma LucasStep(n: nat, r: nat, s: nat) returns (m: nat)
    requires Lucas(n, r) && (r * r - 2 - s) % P == 0
    ensures m == 2 * n && Lucas(m, s)
  {
    m := 2 * n;
    var t := 2 * RootA(n);
    RootDouble(n);
    LucasSquare(t, r);
    assert t * t == 4 * (RootA(n) * RootA(n));
    DivAdd(P, t * t - r * r, r * r - 2 - s);
  }

  lemma Lucas0To20(n0: nat) returns (n: nat)
    requires Lucas(n0, 4)
    ensures n == 0x100000 * n0 && Lucas(n, 1762244237164037571)
  {
    hide Lucas;
    n := n0;
    n := LucasStep(n, 4, 14);
    n := LucasStep(n, 14, 194);
    n := LucasStep(n, 194, 37634);
    n := LucasStep(n, 37634, 1416317954);
    n := LucasStep(n, 1416317954, 2005956546822746114);
    n := LucasStep(n, 2005956546822746114, 360360107812989935);
    n := LucasStep(n, 360360107812989935, 21902747593568545);
    n := LucasStep(n, 21902747593568545, 1740602589084945420);
    n := LucasStep(n, 1740602589084945420, 1337198076820436604);
    n := LucasStep(n, 1337198076820436604, 2247350346121565718);
    n := LucasStep(n, 2247350346121565718, 83171871456026787);
    n := LucasStep(n, 83171871456026787, 582723273476042577);
    n := LucasStep(n, 582723273476042577, 389768199659558512);
    n := LucasStep(n, 389768199659558512, 1660083560587298637);
    n := LucasStep(n, 1660083560587298637, 1309051187682605027);
    n := LucasStep(n, 1309051187682605027, 2060268568186095243);
    n := LucasStep(n, 2060268568186095243, 1727984905136219803);
    n := LucasStep(n, 1727984905136219803, 1123503237312787381);
    n := LucasStep(n, 1123503237312787381, 720442006828744208);
    n := LucasStep(n, 720442006828744208, 1762244237164037571);
  }

  lemma Lucas20To40(n0: nat) returns (n: nat)
    requires Lucas(n0, 1762244237164037571)
    ensures n == 0x100000 * n0 && Lucas(n, 526190922173809863)
  {
    hide Lucas;
    n := n0;
    n := LucasStep(n, 1762244237164037571, 675035788244419149);
    n := LucasStep(n, 675035788244419149, 403242138936649547);
    n := LucasStep(n, 403242138936649547, 23218429299703654);
    n := LucasStep(n, 23218429299703654, 2303338777166369587);
    n := LucasStep(n, 2303338777166369587, 1807999318695779203);
    n := LucasStep(n, 1807999318695779203, 2117213806962939560);
    n := LucasStep(n, 2117213806962939560, 608422148964310898);
    n := LucasStep(n, 608422148964310898, 1994472770237557072);
    n := LucasStep(n, 1994472770237557072, 505071132657882993);
    n := LucasStep(n, 505071132657882993, 1458686264893839860);
    n := LucasStep(n, 1458686264893839860, 828943682511799464);
    n := LucasStep(n, 828943682511799464, 1873899805900111440);
    n := LucasStep(n, 1873899805900111440, 2100166639529159434);
    n := LucasStep(n, 2100166639529159434, 1690337638073925992);
    n := LucasStep(n, 1690337638073925992, 1850462809098646917);
    n := LucasStep(n, 1850462809098646917, 655691867230185654);
    n := LucasStep(n, 655691867230185654, 1312985360173846259);
    n := LucasStep(n, 1312985360173846259, 555029261697599761);
    n := LucasStep(n, 555029261697599761, 361044435199227874);
    n := LucasStep(n, 361044435199227874, 526190922173809863);
  }

  lemma Lucas40To59(n0: nat) returns (n: nat)
    requires Lucas(n0, 526190922173809863)
    ensures n == 0x80000 * n0 && Lucas(n, 0)
  {
    hide Lucas;
    n := n0;
    n := LucasStep(n, 526190922173809863, 1323436870952128874);
    n := LucasStep(n, 1323436870952128874, 891169157258972721);
    n := LucasStep(n, 891169157258972721, 185842366834216629);
    n := LucasStep(n, 185842366834216629, 222804261526276637);
    n := LucasStep(n, 222804261526276637, 991039614021822014);
    n := LucasStep(n, 991039614021822014, 481713520561357424);
    n := LucasStep(n, 481713520561357424, 1344980214107405881);
    n := LucasStep(n, 1344980214107405881, 1970899971015200366);
    n := LucasStep(n, 1970899971015200366, 1072613472477948613);
    n := LucasStep(n, 1072613472477948613, 1908660977355480791);
    n := LucasStep(n, 1908660977355480791, 863790468803724241);
    n := LucasStep(n, 863790468803724241, 2198539655050736259);
    n := LucasStep(n, 2198539655050736259, 1534797684548241153);
    n := LucasStep(n, 1534797684548241153, 257154353612781495);
    n := LucasStep(n, 257154353612781495, 2098355710732986488);
    n := LucasStep(n, 2098355710732986488, 1394647967359914492);
    n := LucasStep(n, 1394647967359914492, 1080792493261747995);
    n := LucasStep(n, 1080792493261747995, 2147483648);
    n := LucasStep(n, 2147483648, 0);
  }

  /** The Lucas-Lehmer test of `2^61 - 1` ends in zero. */
  lemma LucasLehmer() returns (n: nat)
    ensures n == 0x800_0000_0000_0000 && Lucas(n, 0)
  {
    assert RootA(1) == 2 * RootA(0) + 3 * RootB(0) == 2;
    n := 1;
    n := Lucas0To20(n);
    n := Lucas20To40(n);
    n := Lucas40To59(n);
  }

  // ---------- a divisor would be too small for the powers it has to separate ----------

  /** `(2 + sqrt 3)^n` is the integer `c` modulo `q`. */
  ghost predicate Reduces(q: nat, n: nat, c: int)
    requires q > 0
  {
    (RootA(n) - c) % q == 0 && RootB(n) % q == 0
  }

  lemma ReducesMul(q: nat, m: nat, n: nat, c: int, d: int)
    requires q > 0 && Reduces(q, m, c) && Reduces(q, n, d)
    ensures Reduces(q, m + n, c * d)
  {
    hide RootA, RootB;
    RootAdd(m, n);
    ResidueProduct(q, RootA(m), RootB(m), RootA(n), RootB(n), c, d);
  }

  lemma ResidueProduct(q: nat, a: int, b: int, x: int, y: int, c: int, d: int)
    requires q > 0 && (a - c) % q == 0 && b % q == 0 && (x - d) % q == 0 && y % q == 0
    ensures (a * x + 3 * (b * y) - c * d) % q == 0
    ensures (a * y + b * x) % q == 0
  {
    CancelWith(q, a - c, x - d, x, -c);
    Distribute(a, c, x);
    Distribute(x, d, c);
    assert x * (a - c) - (-c) * (x - d) == a * x - c * d;
    DivScale(q, y, b);
    CancelWith(q, a * x - c * d, b * y, 1, -3);
    CancelWith(q, y, b, a, -x);
    assert a * y - (-x) * b == a * y + b * x;
  }

  function Sign(n: nat): int {
    if n % 2 == 0 then 1 else -1
  }

  lemma {:induction false} ReducesPower(q: nat, m: nat, n: nat, c: int)
    requires q > 0 && Reduces(q, m, c) && (c == 1 || c == -1)
    ensures Reduces(q, m * n, if c == 1 then 1 else Sign(n))
  {
    hide RootA, RootB, Reduces;
    if n == 0 {
      ReducesZero(q);
      assert m * 0 == 0;
    } else {
      ReducesPower(q, m, n - 1, c);
      Distribute(n - 1, 1, m);
      ReducesMul(q, m * (n - 1), m, if c == 1 then 1 else Sign(n - 1), c);
    }
  }

  lemma ReducesZero(q: nat)
    requires q > 0
    ensures Reduces(q, 0, 1)
  {
    DivIntro(q, 0, 0);
  }

  lemma OddCancel(q: nat, x: int)
    requires q % 2 == 1 && (2 * x) % q == 0
    ensures x % q == 0
  {
    var t := q / 2;
    DivScale(q, 2 * x, t);
    DivIntro(q, x * q, x);
    assert x == x * q - t * (2 * x);
    DivAdd(q, x * q, t * (2 * x));
  }

  /** For an odd divisor `q` of the modulus, the `2^60`-th power is `-1`. */
  lemma HalfwayIsMinusOne(q: nat) returns (n: nat)
    requires q > 0 && q % 2 == 1 && P % q == 0
    ensures n == 0x1000_0000_0000_0000 && Reduces(q, n, -1)
  {
    hide RootA, RootB;
    var h := LucasLehmer();
    n := 2 * h;
    DivTransitive(q, P, 2 * RootA(h));
    OddCancel(q, RootA(h));
    RootDouble(h);
    SquareOfMultiple(q, RootA(h), RootB(h));
  }

  lemma SquareOfMultiple(q: nat, a: int, b: int)
    requires q > 0 && a % q == 0
    ensures (2 * (a * a)) % q == 0 && (2 * (a * b)) % q == 0
  {
    DivScale(q, a, 2 * a);
    Reassociate(2, a, a);
    DivScale(q, a, 2 * b);
    Reassociate(2, b, a);
    assert b * a == a * b;
  }

  /** Two powers that agree modulo `q` give a smaller power that is 1. */
  lemma EqualPowers(q: nat, i: nat, j: nat)
    requires q > 0 && i < j
    requires (RootA(j) - RootA(i)) % q == 0 && (RootB(j) - RootB(i)) % q == 0
    ensures Reduces(q, j - i, 1)
  {
    hide RootA, RootB;
    var k := j - i;
    RootAdd(i, k);
    RootNorm(i);
    CancelConjugate(q, RootA(i), RootB(i), RootA(k), RootB(k));
  }

  lemma CancelConjugate(q: nat, a: int, b: int, c: int, d: int)
    requires q > 0 && a * a - 3 * (b * b) == 1
    requires (a * c + 3 * (b * d) - a) % q == 0 && (a * d + b * c - b) % q == 0
    ensures (c - 1) % q == 0 && d % q == 0
  {
    ConjugateA(a, b, c, d);
    ConjugateB(a, b, c, d);
    CancelWith(q, a * c + 3 * (b * d) - a, a * d + b * c - b, a, 3 * b);
    CancelWith(q, a * d + b * c - b, a * c + 3 * (b * d) - a, a, b);
  }

  lemma CancelWith(q: nat, u: int, v: int, x: int, y: int)
    requires q > 0 && u % q == 0 && v % q == 0
    ensures (x * u - y * v) % q == 0
  {
    DivScale(q, u, x);
    DivScale(q, v, y);
    DivAdd(q, x * u, y * v);
  }

  lemma ConjugateA(a: int, b: int, c: int, d: int)
    requires a * a - 3 * (b * b) == 1
    ensures a * (a * c + 3 * (b * d) - a) - (3 * b) * (a * d + b * c - b) == c - 1
  {
    ConjugateExpand(a, b, c, d);
    EqualFactors(a * a - 3 * (b * b), 1, c);
  }

  lemma ConjugateExpand(a: int, b: int, c: int, d: int)
    ensures a * (a * c + 3 * (b * d) - a) - (3 * b) * (a * d + b * c - b)
         == (a * a - 3 * (b * b)) * c - (a * a - 3 * (b * b))
  {
  }

  lemma ConjugateB(a: int, b: int, c: int, d: int)
    requires a * a - 3 * (b * b) == 1
    ensures a * (a * d + b * c - b) - b * (a * c + 3 * (b * d) - a) == d
  {
    assert a * (a * d + b * c - b) - b * (a * c + 3 * (b * d) - a) == (a * a - 3 * (b * b)) * d;
  }

  lemma {:induction false} OddPart(k: nat) returns (s: nat, m: nat)
    requires k > 0
    ensures k == Pow2(s) * m && m % 2 == 1
  {
    if k % 2 == 1 {
      s, m := 0, k;
    } else {
      s, m := OddPart(k / 2);
      Reassociate(2, Pow2(s), m);
      s := s + 1;
    }
  }

  /** No power below the `2^61`-th is 1 modulo an odd divisor. */
  lemma OrderIsFull(q: nat, k: nat)
    requires q > 1 && q % 2 == 1 && P % q == 0 && 0 < k <= P
    ensures !Reduces(q, k, 1)
  {
    if Reduces(q, k, 1) {
      var s, m := OddPart(k);
      ShiftBound(k, s, m);
      Pow2At60();
      var n := HalfwayIsMinusOne(q);
      ReducesPower(q, n, m, -1);
      ReducesPower(q, k, Pow2(60 - s), 1);
      SameExponent(n, k, s, m);
      NotBothSigns(q, n * m);
      assert false;
    }
  }

  lemma NotBothSigns(q: nat, n: nat)
    requires q > 1 && q % 2 == 1 && Reduces(q, n, 1)
    ensures !Reduces(q, n, -1)
  {
    if Reduces(q, n, -1) {
      DivAdd(q, RootA(n) + 1, RootA(n) - 1);
      DivSmall(q, 2);
      assert false;
    }
  }

  lemma ShiftBound(k: nat, s: nat, m: nat)
    requires 0 < k <= P && k == Pow2(s) * m
    ensures s <= 60
  {
    Pow2At60();
    if s > 60 {
      Pow2Less(61, s);
      ProductAtLeast(m, Pow2(s));
      assert false;
    }
  }

  lemma SameExponent(n: nat, k: nat, s: nat, m: nat)
    requires s <= 60 && n == Pow2(60) && k == Pow2(s) * m
    ensures n * m == k * Pow2(60 - s)
  {
    Pow2Add(s, 60 - s);
    var x, y := Pow2(s), Pow2(60 - s);
    EqualFactors(n, x * y, m);
    Reassociate(x, y, m);
    EqualFactors(k, x * m, y);
    Reassociate(x, m, y);
  }

  /** The modulus has no divisor between 1 and its square root. */
  lemma NoSmallDivisor(q: nat)
    requires q > 1 && q * q <= P
    ensures P % q != 0
  {
    if P % q == 0 {
      OddDivisor(q);
      var f := (n: nat) => Code(q, n);
      forall i, j | 0 <= i < j < P + 1 ensures f(i) != f(j) {
        OrderIsFull(q, j - i);
        CodesDiffer(q, i, j);
      }
      assert Injective(f, P + 1);
      forall i | 0 <= i < P + 1 ensures f(i) < q * q {
        CodeBound(q, i);
      }
      Pigeonhole(f, P + 1, q * q);
      assert false;
    }
  }

  lemma OddDivisor(q: nat)
    requires q > 0 && P % q == 0
    ensures q % 2 == 1
  {
    if q % 2 == 0 {
      DivIntro(2, q, q / 2);
      DivTransitive(2, q, P);
      assert false;
    }
  }

  function Code(q: nat, n: nat): nat
    requires q > 0
  {
    ProductNonNegative(RootA(n) % q, q);
    (RootA(n) % q) * q + RootB(n) % q
  }

  lemma CodeBound(q: nat, n: nat)
    requires q > 0
    ensures Code(q, n) < q * q
  {
    var a := RootA(n) % q;
    Distribute(q - 1 - a, a + 1, q);
    ProductNonNegative(q - 1 - a, q);
    Distribute(a, 1, q);
  }

  lemma CodesDiffer(q: nat, i: nat, j: nat)
    requires q > 0 && i < j && !Reduces(q, j - i, 1)
    ensures Code(q, i) != Code(q, j)
  {
    if Code(q, i) == Code(q, j) {
      var a, b, c, d := RootA(i) % q, RootB(i) % q, RootA(j) % q, RootB(j) % q;
      Euclid(Code(q, i), a, b, q);
      Euclid(Code(q, j), c, d, q);
      SameResidue(q, RootA(j), RootA(i));
      SameResidue(q, RootB(j), RootB(i));
      EqualPowers(q, i, j);
      assert false;
    }
  }

  /** `2^61 - 1` is prime. */
  lemma PIsPrime(a: nat, b: nat)
    requires a * b == P
    ensures a == 1 || b == 1
  {
    if a > 1 && b > 1 {
      DivIntro(a, P, b);
      DivIntro(b, P, a);
      if a <= b {
        Distribute(b - a, a, a);
        ProductNonNegative(b - a, a);
        NoSmallDivisor(a);
      } else {
        Distribute(a - b, b, b);
        ProductNonNegative(a - b, b);
        NoSmallDivisor(b);
      }
      assert false;
    }
  }

  // ---------- Fermat's little theorem ----------

  lemma {:induction false} Bezout(a: nat, b: nat) returns (g: nat, u: int, v: int)
    requires a > 0
    ensures g > 0 && a % g == 0 && b % g == 0 && u * a + v * b == g
    decreases b
  {
    if b == 0 {
      g, u, v := a, 1, 0;
      DivIntro(a, a, 1);
      DivIntro(a, 0, 0);
    } else {
      var q, r := a / b, a % b;
      var u1, v1: int;
      g, u1, v1 := Bezout(b, r);
      DivScale(g, b, q);
      DivAdd(g, q * b, r);
      u, v := v1, u1 - v1 * q;
      BezoutStep(a, b, q, r, u1, v1);
    }
  }

  lemma BezoutStep(a: int, b: int, q: int, r: int, u: int, v: int)
    requires a == q * b + r
    ensures v * a + (u - v * q) * b == u * b + v * r
  {
    Distribute(u, v * q, b);
    Reassociate(v, q, b);
    Distribute(q * b, r, v);
    EqualFactors(a, q * b + r, v);
  }

  /** Every non-zero residue has an inverse. */
  lemma InverseExists(x: nat) returns (u: int)
    requires 0 < x < P
    ensures (u * x - 1) % P == 0
  {
    var g, v: int;
    g, u, v := Bezout(x, P);
    PIsPrime(P / g, g);
    if g != 1 {
      DivSmall(P, x);
      assert false;
    }
    DivIntro(P, u * x - 1, -v);
  }

  /** A non-zero residue can be cancelled. */
  lemma Cancel(x: nat, y: int)
    requires 0 < x < P && (x * y) % P == 0
    ensures y % P == 0
  {
    var u := InverseExists(x);
    CancelWith(P, x * y, u * x - 1, u, y);
    Reassociate(u, x, y);
    Distribute(u * x, 1, y);
    assert u * (x * y) - y * (u * x - 1) == y;
  }

  function Factorial(n: nat): nat {
    if n == 0 then 1 else ProductNonNegative(Factorial(n - 1), n); Factorial(n - 1) * n
  }

  function Product(s: seq<nat>): nat {
    if s == [] then 1
    else ProductNonNegative(Product(s[..|s| - 1]), s[|s| - 1]); Product(s[..|s| - 1]) * s[|s| - 1]
  }

  lemma {:induction false} ProductWithout(s: seq<nat>, j: nat)
    requires j < |s|
    ensures Product(s) == Product(s[..j] + s[j + 1..]) * s[j]
  {
    var n := |s| - 1;
    var t := s[..j] + s[j + 1..];
    if j == n {
      assert t == s[..n];
    } else {
      ProductWithout(s[..n], j);
      assert t[..n - 1] == s[..n][..j] + s[..n][j + 1..];
      Reassociate(Product(t[..n - 1]), s[j], s[n]);
    }
  }

  /** `s` lists each of `1..n` once. */
  ghost predicate Arrangement(s: seq<nat>, n: nat) {
    && |s| == n
    && (forall i :: 0 <= i < n ==> 1 <= s[i] <= n)
    && (forall i, j :: 0 <= i < j < n ==> s[i] != s[j])
  }

  lemma LargestOccurs(s: seq<nat>, n: nat) returns (j: nat)
    requires n > 0 && Arrangement(s, n)
    ensures j < n && s[j] == n
  {
    if k :| 0 <= k < n && s[k] == n {
      j := k;
    } else {
      var f := (i: nat) => if i < |s| && s[i] > 0 then s[i] - 1 else 0;
      assert Injective(f, n);
      Pigeonhole(f, n, n - 1);
      assert false;
    }
  }

  lemma {:induction false} ArrangementProduct(s: seq<nat>, n: nat)
    requires Arrangement(s, n)
    ensures Product(s) == Factorial(n)
  {
    if n > 0 {
      var j := LargestOccurs(s, n);
      ProductWithout(s, j);
      ArrangementProduct(s[..j] + s[j + 1..], n - 1);
    }
  }

  /** The residues of `x, 2x, ..., nx`. */
  function Multiples(x: nat, n: nat): (s: seq<nat>)
    ensures |s| == n && forall i :: 0 <= i < n ==> s[i] == (x * (i + 1)) % P
  {
    if n == 0 then [] else Multiples(x, n - 1) + [(x * n) % P]
  }

  lemma {:induction false} MultiplesProduct(x: nat, n: nat)
    ensures (Pow(x, n) * Factorial(n) - Product(Multiples(x, n))) % P == 0
  {
    if n == 0 {
      DivIntro(P, 0, 0);
    } else {
      MultiplesProduct(x, n - 1);
      assert Multiples(x, n)[..n - 1] == Multiples(x, n - 1);
      MultiplesStep(x, n, Pow(x, n - 1), Factorial(n - 1), Product(Multiples(x, n - 1)));
    }
  }

  lemma MultiplesStep(x: nat, n: nat, p: int, f: int, s: int)
    requires (p * f - s) % P == 0
    ensures ((x * p) * (f * n) - s * ((x * n) % P)) % P == 0
  {
    var y := x * n;
    SameResidue(P, y, y % P);
    CancelWith(P, p * f - s, y - y % P, y, -s);
    Shuffle(x, p, f, n);
    CrossTerms(y, p * f, s, y % P);
  }

  lemma Shuffle(x: int, p: int, f: int, n: int)
    ensures (x * p) * (f * n) == (x * n) * (p * f)
  {
    var y := f * n;
    Reassociate(x, p, y);
    Reassociate(p, f, n);
    var z := p * f;
    Reassociate(x, z, n);
  }

  lemma CrossTerms(y: int, z: int, s: int, r: int)
    ensures y * (z - s) - (-s) * (y - r) == y * z - s * r
  {
    Distribute(z, s, y);
    Distribute(y, r, s);
  }

  lemma MultiplesArranged(x: nat, n: nat)
    requires 0 < x < P && n == P - 1
    ensures Arrangement(Multiples(x, n), n)
  {
    hide Multiples;
    var s := Multiples(x, n);
    forall i | 0 <= i < n ensures 1 <= s[i] <= n {
      MultipleNonZero(x, i + 1);
    }
    forall i, j | 0 <= i < j < n ensures s[i] != s[j] {
      MultiplesDiffer(x, i + 1, j + 1);
    }
  }

  lemma MultipleNonZero(x: nat, k: nat)
    requires 0 < x < P && 0 < k < P
    ensures (x * k) % P != 0
  {
    if (x * k) % P == 0 {
      Cancel(x, k);
      DivSmall(P, k);
      assert false;
    }
  }

  lemma MultiplesDiffer(x: nat, j: nat, k: nat)
    requires 0 < x < P && 0 < j < k < P
    ensures (x * j) % P != (x * k) % P
  {
    SameResidue(P, x * k, x * j);
    Distribute(k, j, x);
    MultipleNonZero(x, k - j);
  }

  lemma {:induction false} CancelFactorial(y: int, n: nat)
    requires n < P && (y * Factorial(n)) % P == 0
    ensures y % P == 0
  {
    if n > 0 {
      Reassociate(y, Factorial(n - 1), n);
      assert y * Factorial(n) == n * (y * Factorial(n - 1));
      Cancel(n, y * Factorial(n - 1));
      CancelFactorial(y, n - 1);
    } else {
      assert y * Factorial(0) == y;
    }
  }

  /** Fermat: `x^(p - 1)` is 1 modulo `p`. */
  lemma Fermat(x: nat)
    requires 0 < x < P
    ensures (Pow(x, P - 1) - 1) % P == 0
  {
    hide Pow, Factorial, Product, Multiples;
    MultiplesProduct(x, P - 1);
    MultiplesArranged(x, P - 1);
    ArrangementProduct(Multiples(x, P - 1), P - 1);
    var f := Factorial(P - 1);
    Distribute(Pow(x, P - 1), 1, f);
    CancelFactorial(Pow(x, P - 1) - 1, P - 1);
  }
}
