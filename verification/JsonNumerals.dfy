/** The numbers that the printer writes, as trees of the grammar, and what they mean: the layout of
    `"%.17g"` keeps the value of the digits. */
module JsonNumerals {
  import opened CArithmetic
  import opened JsonDump
  import opened JsonGrammar
  import opened JsonLexical
  import opened JsonValues

  // ---------- ints ----------

  lemma {:induction false} NatTextWhole(n: nat)
    ensures ValidWhole(NatText(n)) && Digits(NatText(n)) == n && (NatText(n)[0] == '0' ==> n == 0)
  {
    if n < 10 {
      assert NatText(n)[..0] == "";
    } else {
      NatTextWhole(n / 10);
      assert NatText(n)[..|NatText(n)| - 1] == NatText(n / 10);
      assert NatText(n)[0] == NatText(n / 10)[0];
    }
  }

  function IntNumber(n: int): Number {
    Number(n < 0, NatText(if n < 0 then -n else n), "", NoExponent)
  }

  /** Rounding goes by the magnitude. */
  lemma RoundSigned(negative: bool, y: real)
    requires 0.0 <= y && (negative ==> D.RoundMagnitude(y) > 0.0)
    ensures D.Round(if negative then -y else y) == if negative then -D.RoundMagnitude(y) else D.RoundMagnitude(y)
  {
    hide D.RoundMagnitude;
    D.RoundZero();
  }

  lemma RoundInt(n: int)
    requires FitsInt(n)
    ensures D.Round(n as real) == n as real
  {
    hide D.RoundMagnitude;
    D.RoundWhole(if n < 0 then -n else n);
  }

  /** An int comes back as an int, or as the double of the same value when it has too many digits. */
  lemma IntNumberMeaning(n: int)
    requires FitsInt(n)
    ensures ValidNumber(IntNumber(n)) && NumberText(IntNumber(n)) == IntText(n)
    ensures NumberMeaning(IntNumber(n)) == if |IntText(n)| <= INT_DIGITS then Int(n) else Double(n as real)
  {
    hide D.Round, Decimal;
    var m := if n < 0 then -n else n;
    NatTextWhole(m);
    assert NatText(m) + "" == NatText(m);
    WholeDecimal(n < 0, NatText(m));
    RoundInt(n);
  }

  lemma WholeDecimal(negative: bool, whole: string)
    ensures Decimal(negative, whole, "", false, "") == Signed(negative, Digits(whole)) as real
  {
    hide D.Power;
    assert whole + "" == whole;
    assert Digits("") == 0;
    D.PowerZero(10);
  }

  // ---------- digits ----------

  lemma {:induction false} DigitsOfConcat(a: string, b: string)
    requires AllDigits(b)
    ensures Digits(a + b) == Digits(a) * D.WholePower(10, |b|) + Digits(b)
  {
    if b == "" {
      assert a + b == a;
    } else {
      var front, last := b[..|b| - 1], b[|b| - 1];
      DigitsOfConcat(a, front);
      assert (a + b)[..|a + b| - 1] == a + front && (a + b)[|a + b| - 1] == last;
      assert Digits(a) * (D.WholePower(10, |front|) * 10) == Digits(a) * D.WholePower(10, |front|) * 10;
    }
  }

  lemma {:induction false} ZerosDigits(k: nat)
    ensures AllDigits(Zeros(k)) && Digits(Zeros(k)) == 0
  {
    if k > 0 {
      ZerosDigits(k - 1);
      assert Zeros(k)[..k - 1] == Zeros(k - 1);
    }
  }

  lemma LeadingZeros(k: nat, t: string)
    requires AllDigits(t)
    ensures AllDigits(Zeros(k) + t) && Digits(Zeros(k) + t) == Digits(t)
  {
    ZerosDigits(k);
    DigitsOfConcat(Zeros(k), t);
  }

  lemma TrailingZeros(t: string, k: nat)
    requires AllDigits(t)
    ensures AllDigits(t + Zeros(k)) && Digits(t + Zeros(k)) == Digits(t) * D.WholePower(10, k)
  {
    ZerosDigits(k);
    DigitsOfConcat(t, Zeros(k));
  }

  lemma {:induction false} DigitsBelow(t: string)
    requires AllDigits(t)
    ensures 0 <= Digits(t) < D.WholePower(10, |t|)
  {
    if t != "" {
      DigitsBelow(t[..|t| - 1]);
      assert IsDigit(t[|t| - 1]);
    }
  }

  lemma {:induction false} NatTextLength(n: nat, k: nat)
    requires D.WholePower(10, k) <= n < D.WholePower(10, k + 1)
    ensures |NatText(n)| == k + 1
  {
    if k > 0 {
      NatTextLength(n / 10, k - 1);
    }
  }

  /** Cutting zeros off divides by a power of ten. */
  lemma {:induction false} TrimValue(t: string)
    requires t != "" && AllDigits(t)
    ensures AllDigits(TrimZeros(t)) && TrimZeros(t)[0] == t[0]
    ensures Digits(t) == Digits(TrimZeros(t)) * D.WholePower(10, |t| - |TrimZeros(t)|)
  {
    if |t| > 1 && t[|t| - 1] == '0' {
      var front := t[..|t| - 1];
      TrimValue(front);
      var k := |front| - |TrimZeros(t)|;
      assert Digits(TrimZeros(t)) * (D.WholePower(10, k) * 10) == Digits(TrimZeros(t)) * D.WholePower(10, k) * 10;
    }
  }

  // ---------- the layout of a double ----------

  /** The tree of `Layout`. */
  function LayoutNumber(negative: bool, digits: string, e: int): Number
    requires digits != ""
  {
    if e < -4 || e >= 17 then
      Number(negative, digits[..1], digits[1..],
             Exponent('e', if e < 0 then Negative else Plus, ExponentDigits(if e < 0 then -e else e)))
    else if e < 0 then Number(negative, "0", Zeros(-e - 1) + digits, NoExponent)
    else if |digits| <= e + 1 then Number(negative, digits + Zeros(e + 1 - |digits|), "", NoExponent)
    else Number(negative, digits[..e + 1], digits[e + 1..], NoExponent)
  }

  lemma LayoutText(negative: bool, digits: string, e: int)
    requires digits != ""
    ensures NumberText(LayoutNumber(negative, digits, e)) == Minus(negative) + Layout(digits, e)
  {
    hide Zeros, ExponentDigits, Minus, FractionText, ExponentText, Layout;
    var n := LayoutNumber(negative, digits, e);
    if e < -4 || e >= 17 {
      ScientificText(digits, e);
    } else {
      FixedText(digits, e);
    }
    assert NumberText(n) == Minus(negative) + (n.whole + FractionText(n.frac) + ExponentText(n.exp));
  }

  lemma ScientificText(digits: string, e: int)
    requires digits != "" && (e < -4 || e >= 17)
    ensures var n := LayoutNumber(false, digits, e);
            n.whole + FractionText(n.frac) + ExponentText(n.exp) == Layout(digits, e)
  {
    hide ExponentDigits;
    var x := ExponentDigits(if e < 0 then -e else e);
    assert ['e'] + "-" + x == "e-" + x && ['e'] + "+" + x == "e+" + x;
  }

  lemma FixedText(digits: string, e: int)
    requires digits != "" && -4 <= e < 17
    ensures var n := LayoutNumber(false, digits, e);
            n.whole + FractionText(n.frac) + ExponentText(n.exp) == Layout(digits, e)
  {
    hide Zeros;
    var n := LayoutNumber(false, digits, e);
    var t := n.whole + FractionText(n.frac);
    assert t + "" == t;
    if e < 0 {
      assert "0" + ("." + n.frac) == "0." + n.frac;
    } else if |digits| <= e + 1 {
      assert n.whole + "" == n.whole;
    } else {
      assert n.whole + ("." + n.frac) == n.whole + "." + n.frac;
    }
  }

  lemma ExponentDigitsValue(e: nat)
    ensures ExponentDigits(e) != "" && AllDigits(ExponentDigits(e)) && Digits(ExponentDigits(e)) == e
  {
    NatTextWhole(e);
    LeadingZeros(1, NatText(e));
    assert Zeros(1) == "0";
    assert "" + NatText(e) == NatText(e);
  }

  lemma LayoutValid(negative: bool, digits: string, e: int)
    requires digits != "" && AllDigits(digits) && digits[0] != '0'
    ensures ValidNumber(LayoutNumber(negative, digits, e))
  {
    hide ExponentDigits, Zeros;
    if e < -4 || e >= 17 {
      ExponentDigitsValue(if e < 0 then -e else e);
    } else if e < 0 {
      LeadingZeros(-e - 1, digits);
    } else if |digits| <= e + 1 {
      TrailingZeros(digits, e + 1 - |digits|);
    }
  }

  /** What it means: the digits as an integer, times the power of ten of the last one. */
  lemma LayoutValue(negative: bool, digits: string, e: int)
    requires digits != "" && AllDigits(digits)
    ensures var n := LayoutNumber(negative, digits, e);
            DecimalMeaning(negative, n.whole, n.frac, n.exp)
            == D.DecimalValue(Signed(negative, Digits(digits)), e + 1 - |digits|)
  {
    hide ExponentDigits, Zeros, Digits, D.DecimalValue, Decimal;
    NoDigits();
    var m, p := Digits(digits), e + 1 - |digits|;
    if e < -4 || e >= 17 {
      var x := ExponentDigits(if e < 0 then -e else e);
      ExponentDigitsValue(if e < 0 then -e else e);
      assert digits[..1] + digits[1..] == digits;
      DecimalIs(negative, digits[..1], digits[1..], e < 0, x, m, p);
    } else if e < 0 {
      SmallDigits(digits, -e - 1);
      DecimalIs(negative, "0", Zeros(-e - 1) + digits, false, "", m, p);
    } else if |digits| <= e + 1 {
      WholeLayout(negative, digits, p);
    } else {
      assert digits[..e + 1] + digits[e + 1..] == digits;
      DecimalIs(negative, digits[..e + 1], digits[e + 1..], false, "", m, p);
    }
  }

  lemma DecimalIs(negative: bool, whole: string, frac: string, negativeExp: bool, exp: string, m: int, p: int)
    requires Digits(whole + frac) == m && Signed(negativeExp, Digits(exp)) - |frac| == p
    ensures Decimal(negative, whole, frac, negativeExp, exp) == D.DecimalValue(Signed(negative, m), p)
  {
    hide D.Power, Digits;
  }

  lemma SmallDigits(digits: string, k: nat)
    requires AllDigits(digits)
    ensures Digits("0" + (Zeros(k) + digits)) == Digits(digits)
  {
    LeadingZeros(k + 1, digits);
    ZerosTogether(k);
    assert "0" + (Zeros(k) + digits) == Zeros(k + 1) + digits;
  }

  lemma WholeLayout(negative: bool, digits: string, k: nat)
    requires AllDigits(digits)
    ensures Decimal(negative, digits + Zeros(k), "", false, "")
         == D.DecimalValue(Signed(negative, Digits(digits)), k)
  {
    hide D.Power, Decimal, Zeros, Digits;
    TrailingZeros(digits, k);
    WholeDecimal(negative, digits + Zeros(k));
    D.PowerIsWhole(10, k);
    DigitsBelow(digits);
    D.RealOfProduct(Digits(digits), D.WholePower(10, k));
    var m, p := Digits(digits) as real, D.Power(10, k);
    assert -m * p == -(m * p);
  }

  lemma NoDigits()
    ensures Digits("") == 0
  {
  }

  lemma {:induction false} ZerosTogether(k: nat)
    ensures "0" + Zeros(k) == Zeros(k + 1)
  {
    if k > 0 {
      ZerosTogether(k - 1);
      assert "0" + (Zeros(k - 1) + "0") == "0" + Zeros(k - 1) + "0";
    }
  }

  // ---------- doubles ----------

  /** The tree of a finite double's text. */
  function DoubleNumber(x: real): Number {
    if x == 0.0 then
      Number(false, "0", "", NoExponent)
    else
      var s := D.Significant(if x < 0.0 then -x else x);
      LayoutNumber(x < 0.0, TrimZeros(NatText(s.0)), s.1)
  }

  /** The digits of a double, without the zeros at their end. */
  lemma SignificantDigits(a: real)
    requires 0.0 < a < D.HUGE && D.IsDouble(a)
    ensures var (s, t) := (D.Significant(a), TrimZeros(NatText(D.Significant(a).0)));
            && AllDigits(t) && t[0] != '0' && |t| <= 17
            && s.0 == Digits(t) * D.WholePower(10, 17 - |t|)
  {
    hide D.Significant, D.IsDouble, Digits, AllDigits;
    var n := D.Significant(a).0;
    D.SignificantClose(a);
    TenPowers();
    NatTextLength(n, 16);
    NatTextWhole(n);
    TrimValue(NatText(n));
  }

  lemma TenPowers()
    ensures D.WholePower(10, 16) == D.SEVENTEEN_DIGITS / 10 && D.WholePower(10, 17) == D.SEVENTEEN_DIGITS
    ensures D.WholePower(10, 9) == 1_000_000_000
  {
    assert D.WholePower(10, 3) == 1000;
    assert D.WholePower(10, 6) == 1_000_000;
    assert D.WholePower(10, 9) == 1_000_000_000;
    assert D.WholePower(10, 12) == 1_000_000_000_000;
    assert D.WholePower(10, 15) == 1_000_000_000_000_000;
  }

  lemma TrimmedValue(n: nat, e: int, m: nat, k: nat)
    requires n == m * D.WholePower(10, k)
    ensures D.DecimalValue(m, e + k) == D.DecimalValue(n, e)
  {
    hide D.Power;
    D.PowerSum(10, e, k);
    D.PowerIsWhole(10, k);
    D.RealOfProduct(m, D.WholePower(10, k));
    var p, w, r := D.Power(10, e), D.Power(10, k), m as real;
    assert r * (p * w) == r * w * p;
  }

  lemma DoubleNumberText(x: real)
    requires D.IsDouble(x) && D.IsFinite(x)
    ensures ValidNumber(DoubleNumber(x)) && NumberText(DoubleNumber(x)) == DoubleText(x)
  {
    hide D.Significant, D.IsDouble, LayoutNumber, Layout, TrimZeros, ValidNumber, NumberText;
    if x == 0.0 {
      ZeroNumber();
    } else {
      var a := if x < 0.0 then -x else x;
      MagnitudeIsDouble(x);
      var s := D.Significant(a);
      SignificantDigits(a);
      LayoutText(x < 0.0, TrimZeros(NatText(s.0)), s.1);
      LayoutValid(x < 0.0, TrimZeros(NatText(s.0)), s.1);
    }
  }

  lemma ZeroNumber()
    ensures var zero := Number(false, "0", "", NoExponent);
            ValidNumber(zero) && NumberText(zero) == "0" && NumberMeaning(zero) == Int(0)
  {
    assert "0"[..0] == "";
  }

  lemma MagnitudeIsDouble(x: real)
    requires D.IsDouble(x)
    ensures D.IsDouble(if x < 0.0 then -x else x)
  {
  }

  /** What the digits spell is rounded to the double they were taken from. */
  lemma DigitsRoundBack(a: real)
    requires 0.0 < a < D.HUGE && D.IsDouble(a)
    ensures var (s, t) := (D.Significant(a), TrimZeros(NatText(D.Significant(a).0)));
            var y := D.DecimalValue(Digits(t), s.1 + 1 - |t|);
            0.0 <= y && D.RoundMagnitude(y) == a
  {
    hide D.Significant, D.IsDouble, D.DecimalValue, D.RoundMagnitude, TrimZeros, Digits;
    var s, t := D.Significant(a), TrimZeros(NatText(D.Significant(a).0));
    SignificantDigits(a);
    DigitsBelow(t);
    TrimmedValue(s.0, s.1 - 16, Digits(t), 17 - |t|);
    assert s.1 - 16 + (17 - |t|) == s.1 + 1 - |t|;
    D.SeventeenDigitsSuffice(a);
    DecimalPositive(s.0, s.1 - 16);
  }

  /** So is the tree. */
  lemma DoubleNumberValue(x: real)
    requires D.IsDouble(x) && D.IsFinite(x) && x != 0.0
    ensures var n := DoubleNumber(x);
            D.Round(DecimalMeaning(n.negative, n.whole, n.frac, n.exp)) == x
  {
    hide D.Significant, D.IsDouble, D.Round, D.RoundMagnitude, D.DecimalValue, TrimZeros, LayoutNumber, DecimalMeaning,
      Digits;
    var a := if x < 0.0 then -x else x;
    MagnitudeIsDouble(x);
    var s, t := D.Significant(a), TrimZeros(NatText(D.Significant(a).0));
    SignificantDigits(a);
    DigitsBelow(t);
    DigitsRoundBack(a);
    LayoutValue(x < 0.0, t, s.1);
    LayoutSign(x < 0.0, t, s.1);
    SignedDigits(x < 0.0, Digits(t), s.1 + 1 - |t|);
    RoundSigned(x < 0.0, D.DecimalValue(Digits(t), s.1 + 1 - |t|));
  }

  lemma LayoutSign(negative: bool, digits: string, e: int)
    requires digits != ""
    ensures LayoutNumber(negative, digits, e).negative == negative
  {
  }

  lemma SignedDigits(negative: bool, m: nat, e: int)
    ensures D.DecimalValue(Signed(negative, m), e) ==
              if negative then -D.DecimalValue(m, e) else D.DecimalValue(m, e)
  {
    hide D.Power;
    var r, p := m as real, D.Power(10, e);
    assert -r * p == -(r * p);
  }

  lemma DecimalPositive(n: nat, e: int)
    ensures D.DecimalValue(n, e) >= 0.0
  {
    hide D.Power;
    RealProduct(n as real, D.Power(10, e));
  }

  /** What a double is read back as: short integers come back as ints. */
  function ReadBack(x: real): Json {
    if !D.IsFinite(x) then Null
    else if IsShort(DoubleNumber(x)) then Int(x.Floor)
    else Double(x)
  }

  predicate IsShort(n: Number) {
    n.frac == "" && n.exp.NoExponent? && |NumberText(n)| <= INT_DIGITS
  }

  lemma ShortValue(n: Number)
    requires ValidNumber(n) && IsShort(n)
    ensures NumberMeaning(n) == Int(Signed(n.negative, Digits(n.whole)))
    ensures FitsInt(Signed(n.negative, Digits(n.whole)))
    ensures DecimalMeaning(n.negative, n.whole, n.frac, n.exp) == Signed(n.negative, Digits(n.whole)) as real
  {
    hide Decimal, Digits, D.WholePower;
    WholeDecimal(n.negative, n.whole);
    DigitsBelow(n.whole);
    TenPowers();
    MoreDigits(|n.whole|, 9);
  }

  lemma {:induction false} MoreDigits(j: nat, k: nat)
    requires j <= k
    ensures D.WholePower(10, j) <= D.WholePower(10, k)
  {
    if j < k {
      MoreDigits(j, k - 1);
    }
  }

  /** Every finite double comes back with its value. */
  lemma DoubleNumberMeaning(x: real)
    requires D.IsDouble(x) && D.IsFinite(x)
    ensures ValidNumber(DoubleNumber(x)) && NumberText(DoubleNumber(x)) == DoubleText(x)
    ensures NumberMeaning(DoubleNumber(x)) == ReadBack(x) && IsNumber(ReadBack(x)) && NumberValue(ReadBack(x)) == x
  {
    hide D.IsDouble, D.Round, DecimalMeaning, NumberText, NumberMeaning, ValidNumber, DoubleNumber, IsShort, D.IsFinite;
    DoubleNumberText(x);
    if x == 0.0 {
      ZeroDouble();
    } else {
      DoubleNumberValue(x);
      if IsShort(DoubleNumber(x)) {
        ShortDouble(DoubleNumber(x), x);
      } else {
        LongMeaning(DoubleNumber(x));
      }
    }
  }

  lemma ShortDouble(n: Number, x: real)
    requires ValidNumber(n) && IsShort(n) && D.Round(DecimalMeaning(n.negative, n.whole, n.frac, n.exp)) == x
    ensures NumberMeaning(n) == Int(x.Floor) && x.Floor as real == x
  {
    hide D.Round, DecimalMeaning, NumberMeaning, ValidNumber, Digits, IsShort;
    ShortValue(n);
    RoundInt(Signed(n.negative, Digits(n.whole)));
  }

  lemma ZeroDouble()
    ensures NumberMeaning(DoubleNumber(0.0)) == Int(0) && IsShort(DoubleNumber(0.0))
  {
    ZeroNumber();
  }

  /** What is written for negative zero is a short integer, and comes back as one. */
  const MINUS_ZERO := Number(true, "0", "", NoExponent)

  lemma MinusZero()
    ensures ValidNumber(MINUS_ZERO) && NumberText(MINUS_ZERO) == "-0" && NumberMeaning(MINUS_ZERO) == Int(0)
  {
    assert "0"[..0] == "";
  }

  lemma LongMeaning(n: Number)
    requires !IsShort(n)
    ensures NumberMeaning(n) == SignedDouble(n.negative, D.Round(DecimalMeaning(n.negative, n.whole, n.frac, n.exp)))
  {
    hide DecimalMeaning, NumberText;
  }

  // ---------- characters ----------

  predicate IsNumberChar(c: char) {
    IsDigit(c) || c == '-' || c == '+' || c == '.' || c == 'e' || c == 'E'
  }

  predicate NumberChars(t: string) {
    forall k :: 0 <= k < |t| ==> IsNumberChar(t[k])
  }

  lemma NumberTextChars(n: Number)
    requires ValidNumber(n)
    ensures NumberChars(NumberText(n)) && NumberText(n) != ""
  {
    assert NumberChars(n.whole) && NumberChars(n.frac);
    assert NumberChars(FractionText(n.frac)) && NumberChars(Minus(n.negative));
    if n.exp.Exponent? {
      assert NumberChars(n.exp.digits) && NumberChars(SignText(n.exp.sign));
    }
    assert NumberChars(ExponentText(n.exp));
  }
}
