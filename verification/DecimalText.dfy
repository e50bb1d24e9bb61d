/**
 `str(Decimal)`: the coefficient and exponent printed in plain, leading-zero or
 exponent form. A reader of the numeric-string syntax recovers sign, coefficient and
 exponent from every output whose exponent part is computed without wrapping at 64
 bits, and from no other.
 */
module DecimalText {
  import opened Prelude
  import opened Machine

  /** A finite decimal: `coefficient * 10^-scale`, with a sign of its own for zero. */
  datatype Decimal = Decimal(negative: bool, coefficient: nat, scale: int)

  /** What a reader makes of a text: `coefficient * 10^exponent`. */
  datatype Parsed = Parsed(negative: bool, coefficient: nat, exponent: int)

  /** Scales are 64-bit, and no digit string is longer than memory. */
  predicate DecimalOk(d: Decimal) {
    Fits(d.scale) && |Digits(d.coefficient)| <= MAX_I64
  }

  // ---------- digit strings ----------

  predicate IsDigit(c: char) {
    '0' <= c <= '9'
  }

  predicate AllDigits(s: string) {
    forall i :: 0 <= i < |s| ==> IsDigit(s[i])
  }

  function DigitChar(d: nat): (c: char)
    requires d < 10
    ensures IsDigit(c) && DigitValue(c) == d
  {
    '0' + d as char
  }

  function DigitValue(c: char): (d: nat)
    requires IsDigit(c)
    ensures d < 10
  {
    (c - '0') as nat
  }

  /** The decimal digits of `n`, without leading zeros. */
  function Digits(n: nat): (s: string)
    ensures |s| > 0 && AllDigits(s)
  {
    if n < 10 then [DigitChar(n)] else Digits(n / 10) + [DigitChar(n % 10)]
  }

  function NatOf(s: string): nat
    requires AllDigits(s)
  {
    if s == [] then 0 else NatOf(s[..|s| - 1]) * 10 + DigitValue(s[|s| - 1])
  }

  lemma {:induction false} DigitsRead(n: nat)
    ensures NatOf(Digits(n)) == n
  {
    var s := Digits(n);
    if n < 10 {
      assert s[..0] == [];
    } else {
      assert s[..|s| - 1] == Digits(n / 10);
      DigitsRead(n / 10);
    }
  }

  function Zeros(n: nat): (s: string)
    ensures |s| == n && AllDigits(s)
  {
    seq(n, _ => '0')
  }

  lemma {:induction false} LeadingZeros(n: nat, s: string)
    requires AllDigits(s)
    ensures NatOf(Zeros(n) + s) == NatOf(s)
  {
    var t := Zeros(n) + s;
    if s == [] {
      assert t == Zeros(n);
      if n > 0 {
        assert t[..n - 1] == Zeros(n - 1) + [];
        LeadingZeros(n - 1, []);
      }
    } else {
      assert t[..|t| - 1] == Zeros(n) + s[..|s| - 1];
      LeadingZeros(n, s[..|s| - 1]);
    }
  }

  // ---------- the printer ----------

  function SignedDigits(n: int): string {
    if n < 0 then "-" + Digits(-n) else "+" + Digits(n)
  }

  /** The text for given digits, exponent, number of digits left of the point, and adjusted exponent. */
  function Layout(digits: string, exp: int, left: int, adjusted: int): string
    requires digits != "" && (exp < 0 ==> left < |digits|)
  {
    if exp <= 0 && left > -6 then
      if exp == 0 then digits
      else if left > 0 then digits[..left] + "." + digits[left..]
      else "0." + Zeros(-left) + digits
    else if |digits| == 1 then digits + "E" + SignedDigits(adjusted)
    else digits[..1] + "." + digits[1..] + "E" + SignedDigits(adjusted)
  }

  function FormatMagnitude(digits: string, scale: int): string
    requires digits != "" && |digits| <= MAX_I64 && Fits(scale)
  {
    var exp := Negated(scale);
    var left := Wrap(exp + |digits|);
    Layout(digits, exp, left, Wrap(left - 1))
  }

  /** `format_decimal_str` on a finite decimal, in 64-bit arithmetic. */
  function Format(d: Decimal): string
    requires DecimalOk(d)
  {
    (if d.negative then "-" else "") + FormatMagnitude(Digits(d.coefficient), d.scale)
  }

  // ---------- the reader ----------

  /** The text before the first `c`, and the text after it if there is one. */
  function Cut(s: string, c: char): (string, Option<string>) {
    if s == "" then ("", None)
    else if s[0] == c then ("", Some(s[1..]))
    else
      var (a, b) := Cut(s[1..], c);
      ([s[0]] + a, b)
  }

  /** An optional sign and at least one digit. */
  function ReadInt(s: string): Option<int> {
    if s == "" then None
    else
      var body := if s[0] == '+' || s[0] == '-' then s[1..] else s;
      if body == "" || !AllDigits(body) then None
      else if s[0] == '-' then Some(0 - NatOf(body)) else Some(NatOf(body))
  }

  /** Digits with an optional point and an optional exponent part. */
  function ReadMagnitude(s: string): Option<(nat, int)> {
    var (mantissa, tail) := Cut(s, 'E');
    var exp := if tail.None? then Some(0) else ReadInt(tail.value);
    var (whole, frac) := Cut(mantissa, '.');
    var digits := whole + (if frac.None? then "" else frac.value);
    if exp.None? || digits == "" || !AllDigits(digits) then None
    else Some((NatOf(digits), exp.value - (if frac.None? then 0 else |frac.value|)))
  }

  /** A numeric string of the General Decimal Arithmetic Specification, finite numbers only. */
  function Read(s: string): Option<Parsed> {
    var negative := s != "" && s[0] == '-';
    var body := if s != "" && (s[0] == '-' || s[0] == '+') then s[1..] else s;
    var m := ReadMagnitude(body);
    if m.None? then None else Some(Parsed(negative, m.value.0, m.value.1))
  }

  // ---------- round trip ----------

  lemma {:induction false} CutFound(a: string, c: char, b: string)
    requires c !in a
    ensures Cut(a + [c] + b, c) == (a, Some(b))
  {
    var s := a + [c] + b;
    if a == "" {
      assert s[1..] == b;
    } else {
      assert s[1..] == a[1..] + [c] + b;
      CutFound(a[1..], c, b);
      assert a == [a[0]] + a[1..];
    }
  }

  lemma {:induction false} CutMissing(s: string, c: char)
    requires c !in s
    ensures Cut(s, c) == (s, None)
  {
    if s != "" {
      CutMissing(s[1..], c);
      assert s == [s[0]] + s[1..];
    }
  }

  lemma SignedDigitsRead(n: int)
    ensures ReadInt(SignedDigits(n)) == Some(n)
  {
    var s := SignedDigits(n);
    var k := if n < 0 then -n else n;
    assert s[1..] == Digits(k);
    DigitsRead(k);
  }

  lemma NotInDigits(s: string, c: char)
    requires AllDigits(s) && !IsDigit(c)
    ensures c !in s
  {
  }

  lemma ReadPointed(whole: string, frac: string)
    requires AllDigits(whole + frac) && whole + frac != ""
    ensures ReadMagnitude(whole + "." + frac) == Some((NatOf(whole + frac), 0 - |frac|))
  {
    PointedMantissa(whole, frac);
    hide Cut, NatOf;
    CutMissing(whole + "." + frac, 'E');
  }

  lemma ReadPointedExponent(whole: string, frac: string, e: int)
    requires AllDigits(whole + frac) && whole + frac != ""
    ensures ReadMagnitude(whole + "." + frac + "E" + SignedDigits(e)) == Some((NatOf(whole + frac), e - |frac|))
  {
    PointedMantissa(whole, frac);
    hide Cut, NatOf, SignedDigits, ReadInt, AllDigits, ReadMagnitude;
    var mantissa, tail := whole + "." + frac, SignedDigits(e);
    CutFound(mantissa, 'E', tail);
    SignedDigitsRead(e);
    ReadParts(mantissa + "E" + tail, mantissa, tail, whole, frac);
  }

  lemma ReadParts(s: string, mantissa: string, tail: string, whole: string, frac: string)
    requires Cut(s, 'E') == (mantissa, Some(tail)) && Cut(mantissa, '.') == (whole, Some(frac)) && ReadInt(tail).Some?
    requires whole + frac != "" && AllDigits(whole + frac)
    ensures ReadMagnitude(s) == Some((NatOf(whole + frac), ReadInt(tail).value - |frac|))
  {
    hide Cut, NatOf, ReadInt, AllDigits;
  }

  lemma PointedMantissa(whole: string, frac: string)
    requires AllDigits(whole + frac)
    ensures Cut(whole + "." + frac, '.') == (whole, Some(frac)) && 'E' !in whole + "." + frac
  {
    NotInDigits(whole + frac, '.');
    NotInDigits(whole + frac, 'E');
    var m := whole + "." + frac;
    assert forall i :: 0 <= i < |whole| ==> whole[i] == (whole + frac)[i];
    assert forall i :: 0 <= i < |frac| ==> frac[i] == (whole + frac)[|whole| + i];
    CutFound(whole, '.', frac);
  }

  lemma ReadWhole(digits: string)
    requires AllDigits(digits) && digits != ""
    ensures ReadMagnitude(digits) == Some((NatOf(digits), 0))
  {
    NotInDigits(digits, 'E');
    NotInDigits(digits, '.');
    hide Cut, NatOf;
    CutMissing(digits, 'E');
    CutMissing(digits, '.');
    assert digits + "" == digits;
  }

  lemma ReadWholeExponent(digits: string, e: int)
    requires AllDigits(digits) && digits != ""
    ensures ReadMagnitude(digits + "E" + SignedDigits(e)) == Some((NatOf(digits), e))
  {
    NotInDigits(digits, 'E');
    NotInDigits(digits, '.');
    hide Cut, NatOf, SignedDigits, ReadInt;
    CutFound(digits, 'E', SignedDigits(e));
    CutMissing(digits, '.');
    SignedDigitsRead(e);
    assert digits + "" == digits;
  }

  /** Each layout reads back to its digits and to the exponent that it shows. */
  lemma LayoutRead(digits: string, exp: int, left: int, adjusted: int)
    requires digits != "" && AllDigits(digits) && (exp <= 0 && left > -6 ==> left == exp + |digits|) && (exp < 0 ==> left < |digits|)
    ensures ReadMagnitude(Layout(digits, exp, left, adjusted))
         == Some((NatOf(digits), if exp <= 0 && left > -6 then exp else adjusted - (|digits| - 1)))
  {
    hide NatOf, ReadMagnitude, SignedDigits;
    if exp <= 0 && left > -6 {
      if exp == 0 {
        ReadWhole(digits);
      } else if left > 0 {
        PlainRead(digits, left);
      } else {
        SmallRead(digits, -left);
      }
    } else if |digits| == 1 {
      ReadWholeExponent(digits, adjusted);
    } else {
      ScientificRead(digits, adjusted);
    }
  }

  lemma PlainRead(digits: string, left: nat)
    requires AllDigits(digits) && 0 < left <= |digits|
    ensures ReadMagnitude(digits[..left] + "." + digits[left..]) == Some((NatOf(digits), left - |digits|))
  {
    hide NatOf, ReadMagnitude;
    assert digits[..left] + digits[left..] == digits;
    ReadPointed(digits[..left], digits[left..]);
  }

  lemma SmallRead(digits: string, zeros: nat)
    requires AllDigits(digits)
    ensures ReadMagnitude("0." + Zeros(zeros) + digits) == Some((NatOf(digits), 0 - (zeros + |digits|)))
  {
    hide NatOf, ReadMagnitude;
    var frac := Zeros(zeros) + digits;
    assert "0" + frac == Zeros(zeros + 1) + digits;
    LeadingZeros(zeros + 1, digits);
    ReadPointed("0", frac);
    assert "0" + "." + frac == "0." + Zeros(zeros) + digits;
  }

  lemma ScientificRead(digits: string, adjusted: int)
    requires AllDigits(digits) && |digits| > 1
    ensures ReadMagnitude(digits[..1] + "." + digits[1..] + "E" + SignedDigits(adjusted))
         == Some((NatOf(digits), adjusted - (|digits| - 1)))
  {
    hide NatOf, ReadMagnitude, SignedDigits;
    assert digits[..1] + digits[1..] == digits;
    ReadPointedExponent(digits[..1], digits[1..], adjusted);
  }

  lemma LayoutStartsWithDigit(digits: string, exp: int, left: int, adjusted: int)
    requires digits != "" && AllDigits(digits) && (exp < 0 ==> left < |digits|)
    ensures var s := Layout(digits, exp, left, adjusted); s != "" && IsDigit(s[0])
  {
  }

  lemma SignedRead(negative: bool, m: string)
    requires m != "" && IsDigit(m[0])
    ensures var r := ReadMagnitude(m);
            Read((if negative then "-" else "") + m) == if r.None? then None else Some(Parsed(negative, r.value.0, r.value.1))
  {
    hide ReadMagnitude;
    var s := (if negative then "-" else "") + m;
    if negative {
      assert s[1..] == m;
    } else {
      assert s == m;
    }
  }

  /** The exponent that a reader finds in the printed text. */
  function ReadBackExponent(n: int, scale: int): int
    requires Fits(scale)
  {
    var exp := Negated(scale);
    var left := Wrap(exp + n);
    if exp <= 0 && left > -6 then exp else Wrap(left - 1) - (n - 1)
  }

  /** It is the decimal's own exactly if the adjusted exponent is a 64-bit number. */
  lemma ExponentKept(n: int, scale: int)
    requires Fits(scale) && 0 < n <= MAX_I64
    ensures ReadBackExponent(n, scale) == -scale <==> n - 1 - scale <= MAX_I64
    ensures var exp := Negated(scale); var left := Wrap(exp + n);
            (exp <= 0 ==> left == exp + n) && (exp < 0 ==> left < n)
  {
    var exp := Negated(scale);
    WrapShift(exp + n);
    WrapShift(Wrap(exp + n) - 1);
  }

  lemma MagnitudeReads(digits: string, scale: int)
    requires digits != "" && |digits| <= MAX_I64 && AllDigits(digits) && Fits(scale)
    ensures var m := FormatMagnitude(digits, scale);
            && m != "" && IsDigit(m[0])
            && ReadMagnitude(m) == Some((NatOf(digits), ReadBackExponent(|digits|, scale)))
  {
    hide NatOf, ReadMagnitude, Layout, Wrap, AllDigits, IsDigit, Negated;
    var exp := Negated(scale);
    var left := Wrap(exp + |digits|);
    ExponentKept(|digits|, scale);
    LayoutRead(digits, exp, left, Wrap(left - 1));
    LayoutStartsWithDigit(digits, exp, left, Wrap(left - 1));
  }

  /** What a reader recovers from a printed decimal, whatever its scale. */
  lemma FormatReads(d: Decimal)
    requires DecimalOk(d)
    ensures Read(Format(d))
         == Some(Parsed(d.negative, d.coefficient, ReadBackExponent(|Digits(d.coefficient)|, d.scale)))
  {
    hide Digits, NatOf, ReadMagnitude, FormatMagnitude, ReadBackExponent, Read;
    var digits := Digits(d.coefficient);
    DigitsRead(d.coefficient);
    MagnitudeReads(digits, d.scale);
    SignedRead(d.negative, FormatMagnitude(digits, d.scale));
  }

  /**
   Reading what was printed gives back the sign, the coefficient and the exponent if and only
   if the adjusted exponent fits in 64 bits.
   */
  lemma FormatReadsBack(d: Decimal)
    requires DecimalOk(d)
    ensures Read(Format(d)) == Some(Parsed(d.negative, d.coefficient, -d.scale))
       <==> |Digits(d.coefficient)| - 1 - d.scale <= MAX_I64
  {
    FormatReads(d);
    ExponentKept(|Digits(d.coefficient)|, d.scale);
  }

  lemma WrappedText(digits: string, scale: int)
    requires |digits| == 2 && scale == -MAX_I64
    ensures FormatMagnitude(digits, scale) == digits[..1] + "." + digits[1..] + "E" + SignedDigits(MIN_I64)
  {
    hide SignedDigits, Zeros;
    WrapShift(MAX_I64 + 2);
  }

  lemma WrappedExponent(n: int, scale: int)
    requires n == 2 && scale == -MAX_I64
    ensures ReadBackExponent(n, scale) == MIN_I64 - 1
  {
    WrapShift(MAX_I64 + 2);
  }

  lemma DigitsOfTwelve(n: nat)
    requires n == 12
    ensures Digits(n) == "12"
  {
    assert Digits(n / 10) == "1";
  }

  /** `Decimal(12).scaleb(2**63 - 1)` prints `1.2E-9223372036854775808`. */
  lemma WrappedExponentPrints(d: Decimal)
    requires d == Decimal(false, 12, -MAX_I64)
    ensures DecimalOk(d) && Format(d) == "1.2E" + SignedDigits(MIN_I64)
    ensures Read(Format(d)) == Some(Parsed(false, 12, MIN_I64 - 1))
  {
    hide Digits, Read, SignedDigits, FormatMagnitude, ReadBackExponent;
    DigitsOfTwelve(d.coefficient);
    FormatReads(d);
    WrappedExponent(2, d.scale);
    WrappedText("12", d.scale);
    assert "12"[..1] + "." + "12"[1..] + "E" == "1.2E";
    assert Format(d) == "" + FormatMagnitude("12", d.scale) == FormatMagnitude("12", d.scale);
  }

  // ---------- the form of the text ----------

  /** `s` is the decimal notation of `n`: digits, with no zero in front. */
  ghost predicate Notation(s: string, n: nat) {
    AllDigits(s) && NatOf(s) == n && s != "" && (s == "0" || s[0] != '0')
  }

  lemma {:induction false} DigitsNotation(n: nat)
    ensures Notation(Digits(n), n)
    ensures n > 0 ==> Digits(n)[0] != '0'
  {
    DigitsRead(n);
    if n >= 10 {
      DigitsNotation(n / 10);
      assert Digits(n)[0] == Digits(n / 10)[0];
    }
  }

  /** There is only one. */
  lemma {:induction false} NotationUnique(s: string, n: nat)
    requires Notation(s, n)
    ensures s == Digits(n)
    decreases |s|
  {
    var k := |s| - 1;
    assert s[..k] + [s[k]] == s;
    assert NatOf(s) == NatOf(s[..k]) * 10 + DigitValue(s[k]);
    assert DigitChar(DigitValue(s[k])) == s[k];
    if k == 0 {
      assert s[..k] == "";
    } else {
      LeadingDigit(s[..k]);
      NotationUnique(s[..k], n / 10);
    }
  }

  lemma {:induction false} LeadingDigit(s: string)
    requires s != "" && AllDigits(s) && s[0] != '0'
    ensures NatOf(s) > 0
  {
    if |s| > 1 {
      LeadingDigit(s[..|s| - 1]);
    }
  }

  /** Without an exponent: all digits, with the point `-exp` places from the right, and zeros in front as needed. */
  ghost predicate Plain(b: string, digits: string, exp: int) {
    if exp >= 0 then b == digits
    else if -exp < |digits| then
      var p := |digits| + exp;
      |b| == |digits| + 1 && b[p] == '.' && b[..p] + b[p + 1..] == digits
    else
      && |b| == 2 - exp
      && b[0] == '0' && b[1] == '.'
      && (forall j :: 2 <= j < |b| - |digits| ==> b[j] == '0')
      && b[|b| - |digits|..] == digits
  }

  /** One digit, a point before the others if there are any, and a signed exponent. */
  ghost predicate Scientific(b: string, digits: string, adjusted: int) {
    exists mantissa, sign, e ::
      && b == mantissa + "E" + [sign] + e
      && digits != ""
      && (if |digits| == 1 then mantissa == digits
          else |mantissa| == |digits| + 1 && mantissa[1] == '.' && mantissa[..1] + mantissa[2..] == digits)
      && sign == (if adjusted < 0 then '-' else '+')
      && Notation(e, if adjusted < 0 then -adjusted else adjusted)
  }

  ghost predicate Signed(s: string, negative: bool, b: string) {
    s == if negative then "-" + b else b
  }

  ghost predicate InForm(d: Decimal, digits: string, b: string) {
    if d.scale >= 0 && d.scale - (|digits| - 1) <= 6 then Plain(b, digits, -d.scale)
    else Scientific(b, digits, |digits| - 1 - d.scale)
  }

  /**
   The text of a decimal whose adjusted exponent fits in 64 bits: a minus sign if it is negative,
   zero included, and then the plain form if it has no trailing zeros to show and at most five
   zeros behind the point, else the scientific form.
   */
  lemma FormatShape(d: Decimal, digits: string)
    requires DecimalOk(d) && Notation(digits, d.coefficient) && |digits| - 1 - d.scale <= MAX_I64
    ensures exists b: string :: Signed(Format(d), d.negative, b) && InForm(d, digits, b)
  {
    hide Digits, NatOf, Layout, AllDigits, Plain, Scientific;
    NotationUnique(digits, d.coefficient);
    var exp := Negated(d.scale);
    WrapShift(exp + |digits|);
    WrapShift(Wrap(exp + |digits|) - 1);
    var left, adjusted := Wrap(exp + |digits|), exp + |digits| - 1;
    assert Wrap(left - 1) == adjusted && (exp <= 0 ==> left == exp + |digits|);
    LayoutShape(digits, exp, left, adjusted);
    var b := FormatMagnitude(digits, d.scale);
    assert b == Layout(digits, exp, left, adjusted) && InForm(d, digits, b);
    assert "" + b == b;
    assert Signed(Format(d), d.negative, b);
  }

  lemma LayoutShape(digits: string, exp: int, left: int, adjusted: int)
    requires digits != "" && AllDigits(digits) && adjusted == exp + |digits| - 1 && (exp <= 0 ==> left == exp + |digits|)
    ensures if exp <= 0 && adjusted >= -6 then Plain(Layout(digits, exp, left, adjusted), digits, exp)
            else Scientific(Layout(digits, exp, left, adjusted), digits, adjusted)
  {
    hide Digits, NatOf, Plain, Scientific;
    if exp <= 0 && adjusted >= -6 {
      PlainShape(digits, exp, left, adjusted);
    } else {
      ScientificShape(digits, exp, left, adjusted);
    }
  }

  lemma PlainShape(digits: string, exp: int, left: int, adjusted: int)
    requires digits != "" && AllDigits(digits) && exp <= 0 && left == exp + |digits| && left > -6
    ensures Plain(Layout(digits, exp, left, adjusted), digits, exp)
  {
    hide Digits, NatOf;
    var b := Layout(digits, exp, left, adjusted);
    if exp < 0 && left > 0 {
      assert b[..left] + b[left + 1..] == digits;
    } else if exp < 0 {
      assert b[|b| - |digits|..] == digits;
    }
  }

  lemma ScientificShape(digits: string, exp: int, left: int, adjusted: int)
    requires digits != "" && AllDigits(digits) && !(exp <= 0 && left > -6) && (exp < 0 ==> left < |digits|)
    ensures Scientific(Layout(digits, exp, left, adjusted), digits, adjusted)
  {
    hide Digits, NatOf, Zeros, AllDigits, Notation;
    var b := Layout(digits, exp, left, adjusted);
    var k := if adjusted < 0 then -adjusted else adjusted;
    DigitsNotation(k);
    var mantissa := if |digits| == 1 then digits else digits[..1] + "." + digits[1..];
    var sign := if adjusted < 0 then '-' else '+';
    assert SignedDigits(adjusted) == [sign] + Digits(k);
    assert b == mantissa + "E" + [sign] + Digits(k);
    if |digits| > 1 {
      assert mantissa[..1] + mantissa[2..] == digits;
    }
  }
}
