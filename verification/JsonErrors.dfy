/** Which error a broken text is refused with: strings, numbers, literals, comments and what stands where
    a value is due. */
module JsonErrors {
  import opened ByteStrings
  import opened JsonComments
  import opened JsonComplete
  import opened JsonGrammar
  import opened JsonLexical
  import opened JsonNumbers
  import opened JsonParserSpec
  import opened JsonStrings
  import opened JsonValues

  // ---------- strings ----------

  /** A literal is refused at the first thing in it that is no item: for ending, for a control character,
      for an escape that is none, or for what is not four hexadecimal digits behind `\u`. */
  lemma StringErrors(s: string, i: nat, its: Items)
    requires ValidItems(its) && At(s, i, ItemsText(its))
    ensures var j := i + |ItemsText(its)|;
            var e := ParseString(s, i, "", -1);
            && (j == |s| ==> e == Fail(EndInString))
            && (j < |s| && s[j] < ' ' ==> e == Fail(UnescapedInString(s[j])))
            && (j + 1 == |s| && s[j] == '\\' ==> e == Fail(EndInString))
            && (j + 1 < |s| && s[j] == '\\' && s[j + 1] != 'u' && EscapeCode(s[j + 1]) < 0 ==>
                  e == Fail(InvalidEscape(s[j + 1])))
            && (j + 1 < |s| && s[j] == '\\' && s[j + 1] == 'u' ==>
                  && (|s| < j + 6 ==> e == Fail(BadUnicodeEscape(s[j + 2..])))
                  && (j + 6 <= |s| && !IsHex4(s[j + 2..j + 6]) ==> e == Fail(BadUnicodeEscape(s[j + 2..j + 6]))))
  {
    hide ParseString, ItemsText, EscapeCode, IsEscape, Run, IsHex4;
    var j := i + |ItemsText(its)|;
    var m := Run(Machine("", -1), its);
    ParsesItems(s, i, its, Machine("", -1));
    StringTurn(s, j, m.out, m.pending);
    if j < |s| && s[j] == '\\' {
      EscapeTurn(s, j, m.out, m.pending);
      if j + 1 < |s| {
        EscapesAgree(s[j + 1]);
      }
    }
  }

  // ---------- numbers ----------

  lemma AfterMinus(s: string, i: nat, negative: bool)
    requires At(s, i, Minus(negative)) && (!negative ==> Peek(s, i) != '-')
    ensures i + |Minus(negative)| <= |s| && (Peek(s, i) == '-' <==> negative)
  {
    if negative {
      AtSingle(s, i, '-');
    }
  }

  /** Behind an optional minus: no digit, or a zero that another digit follows. */
  lemma WholeErrors(s: string, i: nat, negative: bool)
    requires At(s, i, Minus(negative)) && (!negative ==> Peek(s, i) != '-')
    ensures var p := i + |Minus(negative)|;
            && (!IsDigit(Peek(s, p)) ==> ParseNumber(s, i) == Fail(InvalidInNumber(Peek(s, p))))
            && (Peek(s, p) == '0' && IsDigit(Peek(s, p + 1)) ==> ParseNumber(s, i) == Fail(LeadingZero))
  {
    AfterMinus(s, i, negative);
  }

  /** A point without a digit behind it. */
  lemma FractionError(s: string, i: nat, negative: bool, whole: string)
    requires ValidWhole(whole) && At(s, i, Minus(negative) + whole + ".")
    requires !IsDigit(Peek(s, i + |Minus(negative)| + |whole| + 1))
    ensures ParseNumber(s, i) == Fail(MissingFraction)
  {
    hide ParseNumber, Digits, NumberExponent;
    AtConcat3(s, i, Minus(negative), whole, ".");
    AtSingle(s, i + |Minus(negative)| + |whole|, '.');
    WholeComplete(s, i, negative, whole);
  }

  /** The mark of an exponent, with a sign or without, and no digit behind it. */
  lemma ExponentError(s: string, i: nat, negative: bool, whole: string, frac: string, mark: char, sign: Sign)
    requires ValidWhole(whole) && AllDigits(frac) && IsMark(mark)
    requires At(s, i, Minus(negative) + whole + (FractionText(frac) + ([mark] + SignText(sign))))
    requires var c := Peek(s, i + |Minus(negative)| + |whole| + |FractionText(frac)| + 1 + |SignText(sign)|);
             !IsDigit(c) && (sign.NoSign? ==> c != '+' && c != '-')
    ensures ParseNumber(s, i) == Fail(MissingExponent)
  {
    hide ParseNumber, Digits, At, NumberExponent;
    var p := i + |Minus(negative)|;
    var q := p + |whole|;
    var r := q + |FractionText(frac)|;
    AtConcat3(s, i, Minus(negative), whole, FractionText(frac) + ([mark] + SignText(sign)));
    AtConcat(s, q, FractionText(frac), [mark] + SignText(sign));
    AtConcat(s, r, [mark], SignText(sign));
    MarkStarts(s, q, r, frac, mark);
    WholeComplete(s, i, negative, whole);
    if frac != "" {
      FractionComplete(s, i, p, q, frac);
    }
    NoExponentDigits(s, negative, s[p..q], frac, r, mark, sign);
  }

  lemma MarkStarts(s: string, q: nat, r: nat, frac: string, mark: char)
    requires At(s, q, FractionText(frac)) && r == q + |FractionText(frac)| && At(s, r, [mark]) && IsMark(mark)
    ensures r < |s| && s[r] == mark && (frac == "" || s[q] == '.')
  {
    StartsAt(s, r, [mark]);
    if frac != "" {
      StartsAt(s, q, FractionText(frac));
    }
  }

  lemma NoExponentDigits(s: string, negative: bool, whole: string, frac: string, r: nat, mark: char, sign: Sign)
    requires r < |s| && s[r] == mark && IsMark(mark) && At(s, r + 1, SignText(sign))
    requires var c := Peek(s, r + 1 + |SignText(sign)|); !IsDigit(c) && (sign.NoSign? ==> c != '+' && c != '-')
    ensures NumberExponent(s, negative, whole, frac, r) == Fail(MissingExponent)
  {
    hide Decimal, D.Round;
    if !sign.NoSign? {
      StartsAt(s, r + 1, SignText(sign));
    }
  }

  // ---------- values ----------

  /** Nothing but whitespace is left. */
  lemma EndError(s: string, i: nat, w: string, depth: nat, comments: bool)
    requires Spaces(w) && At(s, i, w) && i + |w| == |s| && depth <= MAX_DEPTH
    ensures ParseValue(s, i, depth, comments) == Fail(EndOfInput)
  {
    GarbageSkipped(s, i, w, comments);
  }

  /** A character that starts no value. */
  lemma ValueError(s: string, i: nat, w: string, c: char, depth: nat, comments: bool)
    requires Spaces(w) && At(s, i, w + [c]) && depth <= MAX_DEPTH
    requires !IsSpace(c) && !StartsValue(c) && c != '/'
    ensures ParseValue(s, i, depth, comments) == Fail(ExpectedValue(c))
  {
    hide NextToken, ParseString, ParseNumber, ParseItems, ParseMembers, Expect;
    TokenAt(s, i, w, c, comments);
  }

  /** A comment that breaks off or is none, and in STANDARD mode any comment. */
  lemma CommentErrors(s: string, i: nat, w: string, depth: nat)
    requires Spaces(w) && At(s, i, w + "/") && depth <= MAX_DEPTH
    ensures i + |w| < |s|
    ensures var j := i + |w|;
            var v := ParseValue(s, i, depth, true);
            && ParseValue(s, i, depth, false) == Fail(ExpectedValue('/'))
            && (j + 1 == |s| ==> v == Fail(EndAfterCommentStart))
            && (j + 1 < |s| && s[j + 1] != '/' && s[j + 1] != '*' ==> v == Fail(MalformedComment))
            && (j + 1 < |s| && s[j + 1] == '*' && (forall k :: j + 2 <= k ==> !BlockEnds(s, k)) ==>
                  v == Fail(EndInComment))
  {
    hide ParseString, ParseNumber, ParseItems, ParseMembers, Expect, SkipSpaces, BlockEnd;
    var j := i + |w|;
    AtConcat(s, i, w, "/");
    AtSingle(s, j, '/');
    SpacesSkipped(s, i, w);
    if j + 1 < |s| && s[j + 1] == '*' {
      BlockOpen(s, j + 2);
    }
  }

  lemma {:induction false} BlockOpen(s: string, i: nat)
    requires i <= |s|
    ensures (forall k :: i <= k ==> !BlockEnds(s, k)) ==> BlockEnd(s, i) == Fail(EndInComment)
    decreases |s| - i
  {
    if i <= |s| - 2 {
      BlockOpen(s, i + 1);
      assert s[i] == '*' && s[i + 1] == '/' ==> BlockEnds(s, i);
    }
  }

  /** What the parser does on the first character of a leaf. */
  lemma LeafTurn(s: string, i: nat, w: string, c: char, depth: nat, comments: bool)
    requires Spaces(w) && At(s, i, w + [c]) && depth <= MAX_DEPTH && StartsValue(c)
    ensures i + |w| + 1 <= |s|
    ensures var j := i + |w|;
            var v := ParseValue(s, i, depth, comments);
            && (c == '-' || IsDigit(c) ==> v == ParseNumber(s, j))
            && (c == 't' ==> v == Expect(s, j, "true", Bool(true)))
            && (c == 'f' ==> v == Expect(s, j, "false", Bool(false))) && (c == 'n' ==> v == Expect(s, j, "null", Null))
            && (c == '"' && ParseString(s, j + 1, "", -1).Fail? ==> v == Fail(ParseString(s, j + 1, "", -1).error))
  {
    hide NextToken, ParseString, ParseNumber, ParseItems, ParseMembers, Expect;
    TokenAt(s, i, w, c, comments);
    AtConcat(s, i, w, [c]);
    AtSingle(s, i + |w|, c);
  }

  /** A literal that is not spelled out is reported with what stands in its place. */
  lemma LiteralError(s: string, i: nat, w: string, word: string, depth: nat, comments: bool)
    requires Spaces(w) && depth <= MAX_DEPTH && word in {"true", "false", "null"}
    requires At(s, i, w + [word[0]]) && !At(s, i + |w|, word)
    ensures i + |w| <= |s|
    ensures var rest := s[i + |w|..];
            ParseValue(s, i, depth, comments)
            == Fail(ExpectedLiteral(word, if |rest| < |word| then rest else rest[..|word|]))
  {
    hide ParseValue, NextToken, Expect, At;
    LeafTurn(s, i, w, word[0], depth, comments);
    NotExpected(s, i + |w|, word, if word == "null" then Null else Bool(word == "true"));
  }

  lemma NotExpected(s: string, j: nat, word: string, value: Json)
    requires j < |s| && word != "" && !At(s, j, word)
    ensures var rest := s[j..];
            Expect(s, j, word, value) == Fail(ExpectedLiteral(word, if |rest| < |word| then rest else rest[..|word|]))
  {
    if j + |word| <= |s| {
      assert s[j..][..|word|] == s[j..j + |word|];
    }
  }

  /** Behind a value and whitespace something else stands. */
  lemma TrailingError(before: string, d: Doc, after: string, c: char, rest: string, comments: bool)
    requires Spaces(before) && ValidDoc(d) && DocDepth(d) <= MAX_DEPTH && Spaces(after)
    requires !IsSpace(c) && c != '/' && (d.NumberDoc? && after == "" ==> Stops(c, d.n.frac, d.n.exp))
    ensures Parse(before + Text(d) + after + ([c] + rest), comments) == Fail(UnexpectedTrailing(c))
  {
    hide ParseValue, NextToken, Text, DocDepth, ValidDoc, At, Spaces, SkipGarbage;
    var s := before + Text(d) + after + ([c] + rest);
    WholeAt(s);
    AtConcat(s, 0, before + Text(d) + after, [c] + rest);
    AtConcat3(s, 0, before, Text(d), after);
    var q := |before| + |Text(d)|;
    AtConcat(s, q + |after|, [c], rest);
    StartsAt(s, q + |after|, [c]);
    TrailEnds(s, q, after, c, d);
    ValueComplete(s, 0, before, d, 0, comments);
    GarbageSkipped(s, q, after, comments);
  }

  lemma WholeAt(s: string)
    ensures At(s, 0, s)
  {
    assert s[0..|s|] == s;
  }

  lemma TrailEnds(s: string, q: nat, after: string, c: char, d: Doc)
    requires Spaces(after) && At(s, q, after) && q + |after| < |s| && s[q + |after|] == c
    requires d.NumberDoc? && after == "" ==> Stops(c, d.n.frac, d.n.exp)
    ensures q <= |s| && Ends(s, q, d)
  {
    if after != "" {
      FirstAt(s, q, after);
    }
  }
}
