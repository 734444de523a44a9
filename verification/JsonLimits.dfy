/** Where the parser draws its limits: nesting, short integers, whitespace. */
module JsonLimits {
  import opened JsonDump
  import opened JsonGrammar
  import opened JsonLexical
  import opened JsonNumerals
  import opened JsonParserSpec
  import opened JsonTheorems
  import opened JsonValues

  // ---------- nesting ----------

  function Row(c: char, n: nat): string {
    if n == 0 then "" else Row(c, n - 1) + [c]
  }

  /** `n` arrays, one inside the other. */
  function Nest(n: nat): Doc {
    if n <= 1 then EmptyArray("") else Array(LastElem(Elem("", Nest(n - 1), "")))
  }

  lemma {:induction false} RowFirst(c: char, n: nat)
    ensures [c] + Row(c, n) == Row(c, n + 1)
  {
    if n > 0 {
      RowFirst(c, n - 1);
      assert [c] + (Row(c, n - 1) + [c]) == [c] + Row(c, n - 1) + [c];
    }
  }

  lemma {:induction false} NestText(n: nat)
    requires n > 0
    ensures ValidDoc(Nest(n)) && DocDepth(Nest(n)) == n - 1 && Text(Nest(n)) == Row('[', n) + Row(']', n)
  {
    if n > 1 {
      NestText(n - 1);
      RowFirst('[', n - 1);
      var a, b := Row('[', n - 1), Row(']', n - 1);
      assert "" + (a + b) + "" + "" == a + b;
      assert "[" + (a + b) + "]" == (['['] + a) + (b + [']']);
    } else {
      assert Row('[', 1) == Row('[', 0) + ['['] == "[" && Row(']', 1) == Row(']', 0) + [']'] == "]";
    }
  }

  /** Arrays may be nested 201 deep, and no deeper. */
  lemma NestingLimit(n: nat, comments: bool)
    requires n > 0
    ensures Parse(Row('[', n) + Row(']', n), comments).Ok? <==> n <= 201
  {
    hide Parse, Text, DocDepth, ValidDoc, Nest, Row;
    NestText(n);
    ParseComplete("", Nest(n), "", comments);
    assert "" + Text(Nest(n)) + "" == Text(Nest(n));
  }

  // ---------- short integers ----------

  lemma {:induction false} DigitsAtLeast(t: string)
    requires ValidWhole(t) && t[0] != '0'
    ensures Digits(t) >= D.WholePower(10, |t| - 1)
  {
    var front, last := t[..|t| - 1], t[|t| - 1];
    assert IsDigit(last);
    if front == "" {
      NoDigits();
      assert D.WholePower(10, 0) == 1;
    } else {
      assert AllDigits(front) && front[0] == t[0];
      DigitsAtLeast(front);
    }
  }

  lemma NatTextSize(n: nat, k: nat)
    ensures |NatText(n)| <= k + 1 <==> n < D.WholePower(10, k + 1)
  {
    hide Digits, NatText;
    var t := NatText(n);
    NatTextWhole(n);
    DigitsBelow(t);
    if |t| <= k + 1 {
      MoreDigits(|t|, k + 1);
    } else {
      assert t[0] != '0';
      DigitsAtLeast(t);
      MoreDigits(k + 1, |t| - 1);
    }
  }

  /** The texts of integers of up to nine characters, the sign included, are parsed as ints, longer ones as
      doubles. */
  lemma ShortIntegers(n: int, comments: bool)
    requires FitsInt(n)
    ensures var t := IntText(n);
            Parse(t, comments) == Ok(if -100_000_000 < n < 1_000_000_000 then Int(n) else Double(n as real), |t|)
  {
    hide Parse, NatText, ValidNumber, NumberText, NumberMeaning, IntNumber;
    IntNumberMeaning(n);
    ParseComplete("", NumberDoc(IntNumber(n)), "", comments);
    assert "" + IntText(n) + "" == IntText(n);
    NatTextSize(if n < 0 then -n else n, 8);
    NatTextSize(if n < 0 then -n else n, 7);
    TenPowers();
    EightTens();
  }

  lemma EightTens()
    ensures D.WholePower(10, 8) == 100_000_000
  {
    assert D.WholePower(10, 4) == 10000;
  }

  // ---------- whitespace ----------

  /** Space, line feed, carriage return and tab, section 2 of RFC 8259. */
  predicate Blanks(w: string) {
    forall k :: 0 <= k < |w| ==> w[k] as int in {0x20, 0x0A, 0x0D, 0x09}
  }

  lemma BlanksAre(w: string)
    ensures Blanks(w) <==> Spaces(w)
  {
  }

  /** Around a text they make no difference. */
  lemma BlanksAround(before: string, t: string, after: string, v: Json)
    requires Blanks(before) && Blanks(after) && Parse(t, false) == Ok(v, |t|)
    ensures Parse(before + t + after, false) == Ok(v, |before + t + after|)
  {
    hide Parse, Text, Meaning, DocDepth, ValidDoc;
    BlanksAre(before);
    BlanksAre(after);
    var first, d, last := ParseSound(t);
    ParseComplete(before + first, d, last + after, false);
    assert before + first + Text(d) + (last + after) == before + (first + Text(d) + last) + after;
  }
}
