/** The number scanner against the number grammar, in both directions: every number is read whole, and
    whatever is read is a number. Each of the three parts of a number has its own lemmas. */
module JsonNumbers {
  import opened ByteStrings
  import opened JsonGrammar
  import opened JsonLexical
  import opened JsonParserSpec
  import opened JsonValues

  /** The character `c` cannot continue a number with this fraction and exponent. */
  predicate Stops(c: char, frac: string, e: Exponent) {
    !IsDigit(c) && (e.NoExponent? ==> !IsMark(c) && (frac == "" ==> c != '.'))
  }

  lemma FirstAt(s: string, i: nat, t: string)
    requires t != "" && At(s, i, t)
    ensures s[i] == t[0]
  {
    assert s[i] == s[i..i + |t|][0];
  }

  lemma DigitsEnd(s: string, i: nat, t: string)
    requires AllDigits(t) && At(s, i, t) && !IsDigit(Peek(s, i + |t|))
    ensures SkipDigits(s, i) == i + |t|
  {
    var j := SkipDigits(s, i);
    assert j < i + |t| ==> s[j] == t[j - i] by {
      assert s[i..i + |t|] == t;
    }
  }

  /** `DigitsEnd` when the scanner has already stepped over the first digit. */
  lemma DigitsEndAfterFirst(s: string, i: nat, t: string)
    requires t != "" && AllDigits(t) && At(s, i, t) && !IsDigit(Peek(s, i + |t|))
    ensures SkipDigits(s, i + 1) == i + |t|
  {
    assert [t[0]] + t[1..] == t;
    AtConcat(s, i, [t[0]], t[1..]);
    DigitsEnd(s, i + 1, t[1..]);
  }

  /** A number text occurs at `i`, part by part; its whole part ends at `q`. */
  ghost predicate PartsAt(s: string, i: nat, n: Number, q: nat) {
    && q == i + |Minus(n.negative)| + |n.whole|
    && At(s, i, Minus(n.negative)) && At(s, i + |Minus(n.negative)|, n.whole)
    && At(s, q, FractionText(n.frac)) && At(s, q + |FractionText(n.frac)|, ExponentText(n.exp))
  }

  lemma NumberParts(s: string, i: nat, n: Number)
    ensures |NumberText(n)|
         == |Minus(n.negative)| + |n.whole| + |FractionText(n.frac)| + |ExponentText(n.exp)|
    ensures At(s, i, NumberText(n)) <==> PartsAt(s, i, n, i + |Minus(n.negative)| + |n.whole|)
  {
    var a, b, c, d := Minus(n.negative), n.whole, FractionText(n.frac), ExponentText(n.exp);
    assert NumberText(n) == a + b + c + d;
    AtConcat3(s, i, a, b, c);
    AtConcat(s, i, a + b + c, d);
  }

  // ---------- every number text is accepted ----------

  lemma WholeComplete(s: string, i: nat, negative: bool, whole: string)
    requires ValidWhole(whole) && At(s, i, Minus(negative)) && At(s, i + |Minus(negative)|, whole)
    requires !IsDigit(Peek(s, i + |Minus(negative)| + |whole|))
    ensures var p := i + |Minus(negative)|;
            && p + |whole| <= |s| && s[p..p + |whole|] == whole
            && ParseNumber(s, i) == NumberFraction(s, i, p, p + |whole|)
  {
    hide NumberFraction;
    var p := i + |Minus(negative)|;
    FirstAt(s, p, whole);
    if negative {
      AtSingle(s, i, '-');
    }
    if whole[0] != '0' {
      DigitsEndAfterFirst(s, p, whole);
    }
  }

  lemma StartsAt(s: string, i: nat, t: string)
    requires t != "" && At(s, i, t)
    ensures i < |s| && s[i] == t[0]
  {
    FirstAt(s, i, t);
  }

  /** A row of digits that no other digit follows. */
  lemma RowAt(s: string, i: nat, t: string)
    requires t != "" && AllDigits(t) && At(s, i, t) && !IsDigit(Peek(s, i + |t|))
    ensures i < |s| && IsDigit(s[i]) && SkipDigits(s, i) == i + |t| <= |s| && s[i..i + |t|] == t
  {
    FirstAt(s, i, t);
    DigitsEnd(s, i, t);
  }

  lemma FractionDigits(s: string, q: nat, frac: string)
    requires frac != "" && AllDigits(frac) && At(s, q, "." + frac) && !IsDigit(Peek(s, q + 1 + |frac|))
    ensures q + 1 < |s| && s[q] == '.' && IsDigit(s[q + 1])
    ensures SkipDigits(s, q + 1) == q + 1 + |frac| <= |s| && s[q + 1..q + 1 + |frac|] == frac
  {
    hide AllDigits, At, SkipDigits;
    AtConcat(s, q, ".", frac);
    StartsAt(s, q, ".");
    RowAt(s, q + 1, frac);
  }

  lemma FractionComplete(s: string, i: nat, p: nat, q: nat, frac: string)
    requires i <= p < q <= |s| && frac != "" && AllDigits(frac)
    requires At(s, q, FractionText(frac)) && !IsDigit(Peek(s, q + 1 + |frac|))
    ensures NumberFraction(s, i, p, q) == NumberExponent(s, i < p, s[p..q], frac, q + 1 + |frac|)
  {
    hide NumberExponent, AllDigits, At, SkipDigits, IsDigit, Digits;
    FractionDigits(s, q, frac);
  }

  lemma ExponentComplete(s: string, negative: bool, whole: string, frac: string, r: nat, e: Exponent)
    requires ValidExponent(e) && At(s, r, ExponentText(e)) && Stops(Peek(s, r + |ExponentText(e)|), frac, e)
    ensures NumberExponent(s, negative, whole, frac, r)
         == Ok(SignedDouble(negative, D.Round(DecimalMeaning(negative, whole, frac, e))), r + |ExponentText(e)|)
  {
    hide Decimal, D.Round, At, SkipDigits, AllDigits, SignedDouble;
    if e.Exponent? {
      ExponentDigits(s, r, e);
    }
  }

  lemma ExponentDigits(s: string, r: nat, e: Exponent)
    requires e.Exponent? && ValidExponent(e) && At(s, r, ExponentText(e)) && !IsDigit(Peek(s, r + |ExponentText(e)|))
    ensures var y := r + 1 + |SignText(e.sign)|;
            && r < y < |s| && s[r] == e.mark && IsDigit(s[y])
            && SkipDigits(s, y) == y + |e.digits| <= |s| && s[y..y + |e.digits|] == e.digits
            && (e.sign.NoSign? || s[r + 1] == SignText(e.sign)[0])
  {
    hide At, AllDigits, SkipDigits;
    AtConcat3(s, r, [e.mark], SignText(e.sign), e.digits);
    StartsAt(s, r, [e.mark]);
    RowAt(s, r + 1 + |SignText(e.sign)|, e.digits);
    if !e.sign.NoSign? {
      StartsAt(s, r + 1, SignText(e.sign));
    }
  }

  lemma FirstAfterWhole(s: string, q: nat, frac: string, e: Exponent)
    requires At(s, q, FractionText(frac)) && At(s, q + |FractionText(frac)|, ExponentText(e))
    ensures frac != "" ==> s[q] == '.'
    ensures e.Exponent? ==> s[q + |FractionText(frac)|] == e.mark
  {
    if frac != "" {
      FirstAt(s, q, FractionText(frac));
    }
    if e.Exponent? {
      FirstAt(s, q + |FractionText(frac)|, ExponentText(e));
    }
  }

  lemma TailComplete(s: string, i: nat, p: nat, q: nat, n: Number)
    requires ValidNumber(n) && i <= p < q <= |s| && n.negative == (i < p) && s[p..q] == n.whole
    requires |NumberText(n)| == q - i + |FractionText(n.frac)| + |ExponentText(n.exp)|
    requires At(s, q, FractionText(n.frac)) && At(s, q + |FractionText(n.frac)|, ExponentText(n.exp))
    requires Stops(Peek(s, q + |FractionText(n.frac)| + |ExponentText(n.exp)|), n.frac, n.exp)
    ensures NumberFraction(s, i, p, q)
         == Ok(NumberMeaning(n), q + |FractionText(n.frac)| + |ExponentText(n.exp)|)
  {
    hide Decimal, D.Round, Digits, NumberExponent, NumberText, SignText;
    var r := q + |FractionText(n.frac)|;
    FirstAfterWhole(s, q, n.frac, n.exp);
    if n.frac != "" || n.exp.Exponent? || q - i > INT_DIGITS {
      assert NumberFraction(s, i, p, q) == NumberExponent(s, n.negative, n.whole, n.frac, r) by {
        if n.frac != "" { FractionComplete(s, i, p, q, n.frac); }
      }
      ExponentComplete(s, n.negative, n.whole, n.frac, r, n.exp);
    }
  }

  /** The scanner leaves the whole part where the number does. */
  lemma WholeEnds(s: string, i: nat, n: Number, q: nat)
    requires ValidNumber(n) && PartsAt(s, i, n, q)
    requires Stops(Peek(s, q + |FractionText(n.frac)| + |ExponentText(n.exp)|), n.frac, n.exp)
    ensures var p := i + |Minus(n.negative)|;
            && p < q <= |s| && !IsDigit(Peek(s, q)) && (n.negative <==> i < p)
            && ParseNumber(s, i) == NumberFraction(s, i, p, q) && s[p..q] == n.whole
  {
    hide ParseNumber, NumberFraction, SignText, At, ExponentText;
    FirstAfterWhole(s, q, n.frac, n.exp);
    WholeComplete(s, i, n.negative, n.whole);
  }

  /** Every number text is read to its end, with the value the grammar gives it. */
  lemma NumberComplete(s: string, i: nat, n: Number)
    requires ValidNumber(n) && At(s, i, NumberText(n))
    requires Stops(Peek(s, i + |NumberText(n)|), n.frac, n.exp)
    ensures ParseNumber(s, i) == Ok(NumberMeaning(n), i + |NumberText(n)|)
  {
    hide ParseNumber, NumberFraction, NumberText, NumberMeaning, ValidNumber, Stops, At, Peek, FractionText,
      ExponentText;
    var p := i + |Minus(n.negative)|;
    var q := p + |n.whole|;
    NumberParts(s, i, n);
    WholeEnds(s, i, n, q);
    TailComplete(s, i, p, q, n);
  }

  // ---------- only number texts are accepted ----------

  lemma WholeSound(s: string, i: nat) returns (p: nat, q: nat)
    requires i <= |s| && ParseNumber(s, i).Ok?
    ensures i <= p < q <= |s| && ParseNumber(s, i) == NumberFraction(s, i, p, q)
    ensures !IsDigit(Peek(s, q)) && ValidWhole(s[p..q])
    ensures p == i + |Minus(i < p)| && At(s, i, Minus(i < p))
  {
    hide NumberFraction;
    p := if Peek(s, i) == '-' then i + 1 else i;
    if Peek(s, i) == '-' {
      AtSingle(s, i, '-');
    }
    q := if Peek(s, p) == '0' then p + 1 else SkipDigits(s, p + 1);
    assert s[p..q][0] == s[p];
  }

  /** The fraction, if there is one, of a number that is not a short integer. */
  lemma FractionSound(s: string, i: nat, p: nat, q: nat) returns (frac: string, r: nat)
    requires i <= p < q <= |s| && NumberFraction(s, i, p, q).Ok? && !IsDigit(Peek(s, q))
    requires Peek(s, q) == '.' || IsMark(Peek(s, q)) || q - i > INT_DIGITS
    ensures AllDigits(frac) && r == q + |FractionText(frac)| <= |s| && At(s, q, FractionText(frac))
    ensures !IsDigit(Peek(s, r)) && (Peek(s, r) == '.' ==> frac != "")
    ensures NumberFraction(s, i, p, q) == NumberExponent(s, i < p, s[p..q], frac, r)
  {
    hide NumberExponent, Digits;
    frac, r := "", q;
    if Peek(s, q) == '.' {
      r := SkipDigits(s, q + 1);
      frac := s[q + 1..r];
      assert s[q..r] == "." + frac;
    }
  }

  lemma ExponentSound(s: string, negative: bool, whole: string, frac: string, r: nat) returns (e: Exponent)
    requires r <= |s| && NumberExponent(s, negative, whole, frac, r).Ok?
    requires !IsDigit(Peek(s, r)) && (Peek(s, r) == '.' ==> frac != "")
    ensures ValidExponent(e) && At(s, r, ExponentText(e))
    ensures NumberExponent(s, negative, whole, frac, r).next == r + |ExponentText(e)|
    ensures Stops(Peek(s, r + |ExponentText(e)|), frac, e)
  {
    hide Decimal, D.Round, Digits;
    e := NoExponent;
    if IsMark(Peek(s, r)) {
      e := MarkedSound(s, r);
    }
  }

  lemma DigitsRun(s: string, y: nat)
    requires y < |s| && IsDigit(s[y])
    ensures y < SkipDigits(s, y) <= |s| && AllDigits(s[y..SkipDigits(s, y)])
  {
  }

  lemma ExponentAt(s: string, r: nat, e: Exponent)
    requires e.Exponent? && At(s, r, [e.mark]) && At(s, r + 1, SignText(e.sign))
    requires At(s, r + 1 + |SignText(e.sign)|, e.digits)
    ensures At(s, r, ExponentText(e))
  {
    hide At, SignText;
    AtConcat3(s, r, [e.mark], SignText(e.sign), e.digits);
  }

  lemma MarkedSound(s: string, r: nat) returns (e: Exponent)
    requires r < |s| && IsMark(s[r])
    requires var y := if Peek(s, r + 1) == '+' || Peek(s, r + 1) == '-' then r + 2 else r + 1;
             IsDigit(Peek(s, y))
    ensures e.Exponent? && ValidExponent(e) && At(s, r, ExponentText(e))
    ensures var y := if Peek(s, r + 1) == '+' || Peek(s, r + 1) == '-' then r + 2 else r + 1;
            SkipDigits(s, y) == r + |ExponentText(e)|
  {
    var y := if Peek(s, r + 1) == '+' || Peek(s, r + 1) == '-' then r + 2 else r + 1;
    var z := SkipDigits(s, y);
    var sign := if y == r + 1 then NoSign else if s[r + 1] == '+' then Plus else Negative;
    var digits := s[y..z];
    DigitsRun(s, y);
    e := Exponent(s[r], sign, digits);
    AtSingle(s, r, s[r]);
    assert At(s, r + 1, SignText(sign)) && |SignText(sign)| == y - (r + 1);
    assert At(s, y, digits);
    ExponentAt(s, r, e);
  }

  lemma TailSound(s: string, i: nat, p: nat, q: nat) returns (frac: string, e: Exponent)
    requires i <= p < q <= |s| && NumberFraction(s, i, p, q).Ok? && !IsDigit(Peek(s, q))
    ensures AllDigits(frac) && ValidExponent(e)
    ensures At(s, q, FractionText(frac)) && At(s, q + |FractionText(frac)|, ExponentText(e))
    ensures NumberFraction(s, i, p, q).next == q + |FractionText(frac)| + |ExponentText(e)|
    ensures Stops(Peek(s, q + |FractionText(frac)| + |ExponentText(e)|), frac, e)
  {
    hide Digits, NumberExponent, NumberFraction, At, ValidExponent, FractionText, ExponentText, Stops;
    if Peek(s, q) == '.' || IsMark(Peek(s, q)) || q - i > INT_DIGITS {
      var r;
      frac, r := FractionSound(s, i, p, q);
      e := ExponentSound(s, i < p, s[p..q], frac, r);
    } else {
      frac, e := "", NoExponent;
      ShortInteger(s, i, p, q);
    }
  }

  lemma ShortInteger(s: string, i: nat, p: nat, q: nat)
    requires i <= p < q <= |s| && !IsDigit(Peek(s, q))
    requires Peek(s, q) != '.' && !IsMark(Peek(s, q)) && q - i <= INT_DIGITS
    ensures AllDigits("") && ValidExponent(NoExponent) && At(s, q, "") && FractionText("") == ""
    ensures ExponentText(NoExponent) == "" && Stops(Peek(s, q), "", NoExponent)
    ensures NumberFraction(s, i, p, q) == Ok(Int(Signed(i < p, Digits(s[p..q]))), q)
  {
    hide Digits, NumberExponent;
  }

  /** Whatever the scanner accepts is a number text that the next character cannot continue. */
  lemma NumberSound(s: string, i: nat) returns (n: Number)
    requires i <= |s| && ParseNumber(s, i).Ok?
    ensures ValidNumber(n) && At(s, i, NumberText(n))
    ensures ParseNumber(s, i).next == i + |NumberText(n)|
    ensures Stops(Peek(s, i + |NumberText(n)|), n.frac, n.exp)
  {
    hide Digits, NumberFraction, ParseNumber, NumberText, ExponentText, FractionText, ValidExponent, Stops, Minus;
    var p, q := WholeSound(s, i);
    var frac, e := TailSound(s, i, p, q);
    n := Number(i < p, s[p..q], frac, e);
    NumberParts(s, i, n);
  }
}
