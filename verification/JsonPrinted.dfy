/** The form of printed numbers, told from the text alone: which of the many texts of a number `"%.17g"`
    and `"%d"` write. */
module JsonPrinted {
  import opened CArithmetic
  import opened JsonDump
  import opened JsonGrammar
  import opened JsonLexical
  import opened JsonNumerals
  import opened JsonValues

  // ---------- the form ----------

  function Last(t: string): char
    requires t != ""
  {
    t[|t| - 1]
  }

  /** No digit too many: the fraction does not end in a zero, and in an exponent one digit stands before
      the point, the sign is written, and there are two digits or as many as it takes. */
  predicate Trimmed(n: Number) {
    && (n.frac == "" || Last(n.frac) != '0')
    && (n.exp.Exponent? ==>
          && n.exp.mark == 'e' && !n.exp.sign.NoSign? && |n.exp.digits| >= 2
          && (n.exp.digits[0] == '0' ==> |n.exp.digits| == 2)
          && |n.whole| == 1 && n.whole != "0")
  }

  lemma {:induction false} TrimmedLast(t: string)
    requires t != "" && t[0] != '0'
    ensures Last(TrimZeros(t)) != '0'
  {
    if |t| > 1 && t[|t| - 1] == '0' {
      TrimmedLast(t[..|t| - 1]);
    }
  }

  lemma {:induction false} NatTextFirst(n: nat)
    requires n > 0
    ensures NatText(n)[0] != '0'
  {
    if n >= 10 {
      NatTextFirst(n / 10);
    }
  }

  lemma ExponentDigitsForm(e: nat)
    ensures |ExponentDigits(e)| >= 2 && (ExponentDigits(e)[0] == '0' ==> |ExponentDigits(e)| == 2)
  {
    if e >= 10 {
      NatTextFirst(e);
      assert NatText(e) == NatText(e / 10) + [DigitChar(e % 10)];
      assert "" + NatText(e) == NatText(e);
    }
  }

  lemma LayoutTrimmed(negative: bool, digits: string, e: int)
    requires digits != "" && digits[0] != '0' && Last(digits) != '0'
    ensures Trimmed(LayoutNumber(negative, digits, e))
    ensures LayoutNumber(negative, digits, e).exp.Exponent? <==> e < -4 || e >= 17
    ensures LayoutNumber(negative, digits, e).negative == negative
    ensures LayoutNumber(negative, digits, e).exp.Exponent? ==>
              (LayoutNumber(negative, digits, e).exp.sign.Negative? <==> e < 0)
  {
    hide ExponentDigits, Zeros;
    ExponentDigitsForm(if e < 0 then -e else e);
  }

  // ---------- the value ----------

  /** `y` is `m` units of the seventeenth digit of `a`: as near to `a` as can be, and even if two are. */
  ghost predicate SeventeenDigits(a: real, y: real, e: int, m: nat) {
    var unit := D.Power(10, e - 16);
    && D.Power(10, e) <= a < D.Power(10, e + 1) && y == m as real * unit
    && -unit <= 2.0 * (y - a) <= unit && (2.0 * (y - a) == unit || 2.0 * (a - y) == unit ==> m % 2 == 0)
  }

  ghost predicate Nearest17(a: real, y: real) {
    exists e: int, m: nat :: SeventeenDigits(a, y, e, m)
  }

  function Magnitude(x: real): real {
    if x < 0.0 then -x else x
  }

  /** What the significant digits spell. */
  function Printed(a: real): real
    requires 0.0 <= a
  {
    D.DecimalValue(D.Significant(a).0, D.Significant(a).1 - 16)
  }

  lemma PrintedNearest(a: real)
    requires 0.0 < a < D.HUGE && D.IsDouble(a)
    ensures Nearest17(a, Printed(a))
  {
    hide D.Power, D.FirstDigit, D.Nearest, D.IsDouble, D.Significant, D.HUGE;
    var e := D.FirstDigit(a);
    var unit := D.Power(10, e - 16);
    D.FirstDigitOfDouble(a);
    D.QuotientNatural(a, unit);
    D.QuotientTimes(a, unit);
    D.SignificantValue(a);
    var m: nat := D.Nearest(a / unit);
    D.NearestUnits(a, a / unit, m, unit, Printed(a));
    assert SeventeenDigits(a, Printed(a), e, m);
  }

  /** Between which powers of ten it lies is what decides the layout. */
  lemma PrintedRange(a: real)
    requires 0.0 < a < D.HUGE && D.IsDouble(a)
    ensures D.Significant(a).1 < -4 <==> Printed(a) < 0.0001
    ensures D.Significant(a).1 >= 17 <==> Printed(a) >= 100_000_000_000_000_000.0
    ensures D.Significant(a).1 < 0 <==> Printed(a) < 1.0
  {
    hide D.Power, D.IsDouble, D.Significant, D.HUGE;
    var n, e := D.Significant(a).0, D.Significant(a).1;
    D.SignificantClose(a);
    DigitsBetween(n, e);
    SmallPowers();
    PowerDecides(Printed(a), e, -4);
    PowerDecides(Printed(a), e, 0);
    PowerDecides(Printed(a), e, 17);
  }

  lemma DigitsBetween(n: nat, e: int)
    requires D.SEVENTEEN_DIGITS / 10 <= n < D.SEVENTEEN_DIGITS
    ensures D.Power(10, e) <= D.DecimalValue(n, e - 16) < D.Power(10, e + 1)
  {
    hide D.Power;
    var p := D.Power(10, e - 16);
    D.TensOf(e);
    assert D.SEVENTEEN_DIGITS as real / 10.0 == (D.SEVENTEEN_DIGITS / 10) as real;
    RealMonotone(D.SEVENTEEN_DIGITS as real / 10.0, n as real, p);
    D.Less(n as real, D.SEVENTEEN_DIGITS as real, p, D.DecimalValue(n, e - 16), D.Power(10, e + 1));
  }

  lemma PowerDecides(y: real, e: int, k: int)
    requires D.Power(10, e) <= y < D.Power(10, e + 1)
    ensures e < k <==> y < D.Power(10, k)
  {
    hide D.Power;
    if e < k {
      D.PowerMonotone(10, e + 1, k);
    } else {
      D.PowerMonotone(10, k, e);
    }
  }

  lemma SmallPowers()
    ensures D.Power(10, -4) == 0.0001 && D.Power(10, 0) == 1.0 && D.Power(10, 17) == 100_000_000_000_000_000.0
  {
    hide D.Power;
    D.PowerZero(10);
    D.PowerStep(10, -4);
    D.PowerStep(10, -3);
    D.PowerStep(10, -2);
    D.PowerStep(10, -1);
    D.PowerIsWhole(10, 17);
    TenPowers();
  }

  lemma PrintedMeaning(x: real)
    requires D.IsDouble(x) && D.IsFinite(x) && x != 0.0
    ensures var n := DoubleNumber(x);
            DecimalMeaning(n.negative, n.whole, n.frac, n.exp)
            == if x < 0.0 then -Printed(Magnitude(x)) else Printed(Magnitude(x))
    ensures DoubleNumber(x).negative == (x < 0.0)
  {
    hide D.Significant, D.IsDouble, D.DecimalValue, TrimZeros, LayoutNumber, DecimalMeaning, Digits;
    var a := Magnitude(x);
    MagnitudeIsDouble(x);
    var s, t := D.Significant(a), TrimZeros(NatText(D.Significant(a).0));
    SignificantDigits(a);
    DigitsBelow(t);
    TrimmedValue(s.0, s.1 - 16, Digits(t), 17 - |t|);
    assert s.1 - 16 + (17 - |t|) == s.1 + 1 - |t|;
    LayoutValue(x < 0.0, t, s.1);
    LayoutSign(x < 0.0, t, s.1);
    SignedDigits(x < 0.0, Digits(t), s.1 + 1 - |t|);
  }

  lemma DoubleTrimmed(x: real)
    requires D.IsDouble(x) && D.IsFinite(x) && x != 0.0
    ensures var n := DoubleNumber(x);
            var e := D.Significant(Magnitude(x)).1;
            && Trimmed(n) && (n.exp.Exponent? <==> e < -4 || e >= 17)
            && (n.exp.Exponent? ==> (n.exp.sign.Negative? <==> e < 0))
  {
    hide D.Significant, D.IsDouble, TrimZeros, LayoutNumber, Trimmed, NatText;
    var a := Magnitude(x);
    MagnitudeIsDouble(x);
    var s := D.Significant(a);
    D.SignificantClose(a);
    NatTextFirst(s.0);
    TrimmedLast(NatText(s.0));
    SignificantDigits(a);
    LayoutTrimmed(x < 0.0, TrimZeros(NatText(s.0)), s.1);
  }

  /** What is printed for a finite double other than zero, told without the printer: a number of the
      grammar, with the sign of the double and the value of seventeen digits as near to it as can be. No
      digit of it is superfluous, and it has an exponent if and only if that value is below 10^-4 or at
      least 10^17. */
  lemma PrintedForm(x: real) returns (n: Number)
    requires D.IsDouble(x) && D.IsFinite(x) && x != 0.0
    ensures ValidNumber(n) && Dump(Double(x)) == NumberText(n) && n.negative == (x < 0.0) && Trimmed(n)
    ensures var y := Magnitude(DecimalMeaning(n.negative, n.whole, n.frac, n.exp));
            && Nearest17(Magnitude(x), y)
            && (n.exp.Exponent? <==> y < 0.0001 || y >= 100_000_000_000_000_000.0)
            && (n.exp.Exponent? ==> (n.exp.sign.Negative? <==> y < 1.0))
  {
    hide D.Significant, D.IsDouble, DecimalMeaning, Trimmed, Nearest17, Printed, DoubleText, NumberText, ValidNumber,
      DoubleNumber;
    n := DoubleNumber(x);
    MagnitudeIsDouble(x);
    DoubleNumberText(x);
    DoubleTrimmed(x);
    PrintedMeaning(x);
    PrintedRange(Magnitude(x));
    PrintedPositive(Magnitude(x));
    PrintedNearest(Magnitude(x));
  }

  lemma PrintedPositive(a: real)
    requires 0.0 <= a
    ensures 0.0 <= Printed(a)
  {
    DecimalPositive(D.Significant(a).0, D.Significant(a).1 - 16);
  }

  // ---------- whole numbers ----------

  lemma {:induction false} WholeText(w: string)
    requires ValidWhole(w)
    ensures Digits(w) >= 0 && NatText(Digits(w)) == w && (w[0] != '0' ==> Digits(w) > 0)
  {
    hide NatText;
    var front, last := w[..|w| - 1], w[|w| - 1];
    assert w == front + [last] && IsDigit(last);
    if front == "" {
      NoDigits();
      NatTextStep(0, last);
    } else {
      assert AllDigits(front) && front[0] == w[0];
      WholeText(front);
      NatTextStep(Digits(front), last);
    }
  }

  lemma NatTextStep(n: nat, last: char)
    requires IsDigit(last)
    ensures NatText(n * 10 + (last as int - '0' as int)) == (if n == 0 then "" else NatText(n)) + [last]
  {
    assert (n * 10 + (last as int - '0' as int)) / 10 == n;
    assert "" + [last] == [last];
  }

  /** Without fraction and exponent the text is the numeral of its value. */
  lemma IntegerText(n: Number)
    requires ValidNumber(n) && n.frac == "" && n.exp.NoExponent?
    requires n.negative ==> Digits(n.whole) > 0
    ensures NumberText(n) == IntText(Signed(n.negative, Digits(n.whole)))
    ensures DecimalMeaning(n.negative, n.whole, n.frac, n.exp) == Signed(n.negative, Digits(n.whole)) as real
  {
    hide Digits, NatText, Decimal;
    WholeText(n.whole);
    WholeDecimal(n.negative, n.whole);
    assert "" + n.whole + "" + "" == n.whole && "-" + n.whole + "" + "" == "-" + n.whole;
  }

  /** Whole numbers of up to seventeen digits are whole numbers of units. */
  lemma WholeNearest(a: nat, y: real, e: int, m: nat)
    requires a < 100_000_000_000_000_000 && SeventeenDigits(a as real, y, e, m)
    ensures y == a as real
  {
    hide D.Power, D.WholePower;
    SmallPowers();
    PowerDecides(a as real, e, 17);
    var unit, w := D.Power(10, e - 16), D.WholePower(10, 16 - e);
    D.PowerInverse(10, e - 16);
    D.PowerIsWhole(10, 16 - e);
    D.RealOfProduct(a, w);
    UnitsApart(m, a * w, unit, y, a as real) by { InUnits(a as real, w as real, unit); }
  }

  lemma InUnits(a: real, w: real, unit: real)
    requires unit * w == 1.0
    ensures a == a * w * unit
  {
    assert a * w * unit == a * (unit * w);
  }

  lemma UnitsApart(m: nat, n: nat, unit: real, y: real, a: real)
    requires unit > 0.0 && y == m as real * unit && a == n as real * unit && -unit <= 2.0 * (y - a) <= unit
    ensures y == a
  {
    D.Difference(m as real, n as real, unit);
    var d := (m - n) as real;
    assert d == m as real - n as real;
    if m > n {
      RealMonotone(1.0, d, unit);
    } else if m < n {
      RealMonotone(1.0, -d, unit);
      assert -d * unit == -(d * unit);
    }
  }

  lemma SameProduct(m: nat, k: int, y: nat)
    requires 0 <= k && m as real * D.Power(10, -k) == y as real
    ensures m == y * D.WholePower(10, k)
  {
    hide D.Power, D.WholePower;
    D.PowerInverse(10, -k);
    D.PowerIsWhole(10, k);
    D.RealOfProduct(y, D.WholePower(10, k));
    InUnits(m as real, D.WholePower(10, k) as real, D.Power(10, -k));
    Swapped(m as real, D.WholePower(10, k) as real, D.Power(10, -k));
  }

  lemma Swapped(m: real, w: real, p: real)
    ensures m * w * p == m * p * w
  {
  }

  /** A fraction that does not end in a zero does not spell a whole number. */
  lemma FractionSpells(n: Number, y: nat)
    requires ValidNumber(n) && Trimmed(n) && n.exp.NoExponent?
    requires Magnitude(DecimalMeaning(n.negative, n.whole, n.frac, n.exp)) == y as real
    ensures n.frac == "" && Digits(n.whole) == y
  {
    hide D.Power, Digits, D.WholePower;
    var t, k := n.whole + n.frac, |n.frac|;
    NoDigits();
    DigitsBelow(t);
    SpelledSize(n.negative, Digits(t), k);
    SameProduct(Digits(t), k, y);
    if k > 0 {
      LastDigit(t, y * D.WholePower(10, k - 1)) by { TenTimes(y, k); }
    } else {
      assert t == n.whole;
      NoTens();
    }
  }

  lemma NoTens()
    ensures D.WholePower(10, 0) == 1
  {
  }

  lemma SpelledSize(negative: bool, m: nat, k: int)
    ensures Magnitude(Signed(negative, m) as real * D.Power(10, -k)) == m as real * D.Power(10, -k)
  {
    hide D.Power;
    var r, p := m as real, D.Power(10, -k);
    RealProduct(r, p);
    assert -r * p == -(r * p);
  }

  lemma TenTimes(y: nat, k: nat)
    requires k > 0
    ensures y * D.WholePower(10, k) == y * D.WholePower(10, k - 1) * 10
  {
    assert y * (D.WholePower(10, k - 1) * 10) == y * D.WholePower(10, k - 1) * 10;
  }

  lemma LastDigit(t: string, tens: nat)
    requires t != "" && AllDigits(t) && Digits(t) == tens * 10
    ensures Last(t) == '0'
  {
    assert IsDigit(Last(t));
  }

  lemma WholeForm(n: Number, a: nat, y: real)
    requires ValidNumber(n) && Trimmed(n) && 0 < a < 100_000_000_000_000_000
    requires Magnitude(DecimalMeaning(n.negative, n.whole, n.frac, n.exp)) == y && Nearest17(a as real, y)
    requires n.exp.Exponent? <==> y < 0.0001 || y >= 100_000_000_000_000_000.0
    ensures NumberText(n) == IntText(Signed(n.negative, a))
  {
    hide DecimalMeaning, Trimmed, SeventeenDigits, NumberText, ValidNumber, IntText, Digits;
    var e, m :| SeventeenDigits(a as real, y, e, m);
    WholeNearest(a, y, e, m);
    FractionSpells(n, a);
    IntegerText(n);
  }

  lemma WholeSize(x: real) returns (a: nat)
    requires D.IsWhole(x)
    ensures Magnitude(x) == a as real && x.Floor == Signed(x < 0.0, a)
  {
    a := if x < 0.0 then -x.Floor else x.Floor;
  }

  /** Whole doubles of up to seventeen digits are printed as integers are. */
  lemma WholePrinted(x: real)
    requires D.IsDouble(x) && D.IsWhole(x) && Magnitude(x) < 100_000_000_000_000_000.0
    ensures Dump(Double(x)) == IntText(x.Floor)
  {
    hide D.IsDouble, DecimalMeaning, Trimmed, Nearest17, NumberText, ValidNumber, IntText, DoubleText, D.IsWhole;
    if x == 0.0 {
      ZeroPrinted();
    } else {
      SmallIsFinite(x);
      var a := WholeSize(x);
      var n := PrintedForm(x);
      WholeForm(n, a, Magnitude(DecimalMeaning(n.negative, n.whole, n.frac, n.exp)));
    }
  }

  lemma ZeroPrinted()
    ensures DoubleText(0.0) == "0" && IntText(0) == "0"
  {
    hide D.Power;
    D.HugeIsMagnitude();
  }

  lemma SmallIsFinite(x: real)
    requires Magnitude(x) < 100_000_000_000_000_000.0
    ensures D.IsFinite(x)
  {
    hide D.Power;
    D.PowerOf53();
    D.PowerIsWhole(2, 4);
    D.PowerSum(2, 53, 4);
    assert D.WholePower(2, 4) == 16;
    D.PowerMonotone(2, 57, 1024);
  }

  /** Only infinities are printed as null, and negative zero keeps its sign. */
  lemma InfinityPrinted(x: real)
    requires D.IsDouble(x)
    ensures Dump(Double(x)) == "null" <==> x <= -D.Power(2, 1024) || D.Power(2, 1024) <= x
    ensures Dump(NegativeZero) == "-0"
  {
    hide D.IsDouble, DecimalMeaning, Trimmed, Nearest17, NumberText, ValidNumber, IntText, MagnitudeText, D.Power;
    if x == 0.0 {
      ZeroPrinted();
      D.HugeIsMagnitude();
    } else if D.IsFinite(x) {
      var n := PrintedForm(x);
      NumberStarts(n);
    }
  }

  lemma NumberStarts(n: Number)
    requires ValidNumber(n)
    ensures NumberText(n) != "" && (NumberText(n)[0] == '-' || IsDigit(NumberText(n)[0]))
  {
    assert NumberText(n)[0] == (Minus(n.negative) + n.whole)[0];
  }
}
