/** What `\u` escapes stand for, told from their digits alone. */
module JsonEscapes {
  import opened JsonGrammar
  import opened JsonLexical
  import opened JsonParserSpec
  import opened JsonTheorems
  import opened JsonValues
  import opened Utf8

  const LOWER := "0123456789abcdef"
  const UPPER := "0123456789ABCDEF"

  predicate DigitIs(c: char, d: nat)
    requires d < 16
  {
    c == LOWER[d] || c == UPPER[d]
  }

  /** The four characters are the hexadecimal digits of `u`, in either case. */
  predicate Spells(h: string, u: nat)
    requires u < 0x10000
  {
    && |h| == 4 && DigitIs(h[0], u / 0x1000) && DigitIs(h[1], u / 0x100 % 0x10)
    && DigitIs(h[2], u / 0x10 % 0x10) && DigitIs(h[3], u % 0x10)
  }

  lemma DigitValue(c: char, d: nat)
    requires d < 16
    ensures DigitIs(c, d) <==> HexDigit(c) == d
  {
  }

  lemma Positions(u: nat, a: nat, b: nat, c: nat, d: nat)
    requires a < 16 && b < 16 && c < 16 && d < 16
    ensures u == a * 0x1000 + b * 0x100 + c * 0x10 + d <==>
              a == u / 0x1000 && b == u / 0x100 % 0x10 && c == u / 0x10 % 0x10 && d == u % 0x10
  {
    assert u / 0x100 / 0x10 == u / 0x1000 && u / 0x10 / 0x10 == u / 0x100;
  }

  /** The parser reads four digits as the number they spell, in either case, and nothing else. */
  lemma HexSpelled(h: string, u: nat)
    requires u < 0x10000
    ensures Spells(h, u) <==> IsHex4(h) && HexValue(h) == u
  {
    hide HexDigit, DigitIs;
    if |h| == 4 {
      DigitValue(h[0], u / 0x1000);
      DigitValue(h[1], u / 0x100 % 0x10);
      DigitValue(h[2], u / 0x10 % 0x10);
      DigitValue(h[3], u % 0x10);
      if IsHex4(h) {
        Positions(u, HexDigit(h[0]), HexDigit(h[1]), HexDigit(h[2]), HexDigit(h[3]));
      }
    }
  }

  // ---------- literals of escapes ----------

  predicate IsSurrogate(u: int) {
    0xD800 <= u <= 0xDFFF
  }

  /** Code points of characters: none is negative or a surrogate. */
  predicate Scalars(points: seq<CodePoint>) {
    forall k :: 0 <= k < |points| ==> 0 <= points[k] && !IsSurrogate(points[k])
  }

  /** The items write out the code points as `\u` escapes: one for each in the basic plane, and two for
      the halves of 20 bits of any other (section 2.1 of RFC 2781). */
  predicate Escapes(its: Items, points: seq<CodePoint>)
    requires Scalars(points)
    decreases |points|
  {
    if points == [] then its.End?
    else
      var p := points[0];
      && its.Then? && its.head.Unicode?
      && if p < 0x10000 then Spells(its.head.h, p) && Escapes(its.rest, points[1..])
         else
           && Spells(its.head.h, 0xD800 + (p - 0x10000) / 0x400)
           && its.rest.Then? && its.rest.head.Unicode? && Spells(its.rest.head.h, 0xDC00 + (p - 0x10000) % 0x400)
           && Escapes(its.rest.rest, points[1..])
  }

  function Utf8Text(points: seq<CodePoint>): string {
    if points == [] then "" else Encode(points[0]) + Utf8Text(points[1..])
  }

  lemma UnicodeUnit(its: Items, u: nat)
    requires its.Then? && its.head.Unicode? && u < 0x10000 && Spells(its.head.h, u) && ValidItems(its.rest)
    ensures ValidItems(its) && ItemsUnits(its) == Next(Code(u), ItemsUnits(its.rest))
  {
    hide Spells, HexValue;
    HexSpelled(its.head.h, u);
  }

  /** The only code point with these two halves. */
  lemma Halves(p: CodePoint, q: CodePoint)
    requires 0x10000 <= p && 0x10000 <= q
    requires (p - 0x10000) / 0x400 == (q - 0x10000) / 0x400 && (p - 0x10000) % 0x400 == (q - 0x10000) % 0x400
    ensures p == q
  {
  }

  lemma PairMeaning(p: CodePoint, us: Units)
    requires 0x10000 <= p
    ensures UnitsMeaning(Next(Code(0xD800 + (p - 0x10000) / 0x400), Next(Code(0xDC00 + (p - 0x10000) % 0x400), us)))
         == Encode(p) + UnitsMeaning(us)
  {
    hide Encode, Combine;
    Halves(p, Combine(0xD800 + (p - 0x10000) / 0x400, 0xDC00 + (p - 0x10000) % 0x400));
  }

  lemma {:induction false} EscapesMeaning(its: Items, points: seq<CodePoint>)
    requires Scalars(points)
    requires Escapes(its, points)
    ensures ValidItems(its) && UnitsMeaning(ItemsUnits(its)) == Utf8Text(points)
    decreases |points|
  {
    hide Spells, Encode;
    if points != [] {
      var p := points[0];
      if p < 0x10000 {
        EscapesMeaning(its.rest, points[1..]);
        UnicodeUnit(its, p);
      } else {
        EscapesMeaning(its.rest.rest, points[1..]);
        UnicodeUnit(its.rest, 0xDC00 + (p - 0x10000) % 0x400);
        UnicodeUnit(its, 0xD800 + (p - 0x10000) / 0x400);
        PairMeaning(p, ItemsUnits(its.rest.rest));
      }
    }
  }

  lemma LiteralParses(its: Items, comments: bool)
    requires ValidItems(its)
    ensures var t := "\"" + ItemsText(its) + "\"";
            Parse(t, comments) == Ok(Str(UnitsMeaning(ItemsUnits(its))), |t|)
  {
    hide Parse, ItemsText, ItemsUnits, UnitsMeaning, ValidItems;
    var d := StringDoc(its);
    ParseComplete("", d, "", comments);
    assert "" + Text(d) + "" == "\"" + ItemsText(its) + "\"";
  }

  /** Whatever Unicode text is written as `\u` escapes, in upper or lower case, is parsed to its UTF-8. */
  lemma EscapedText(its: Items, points: seq<CodePoint>, comments: bool)
    requires Scalars(points)
    requires Escapes(its, points)
    ensures var t := "\"" + ItemsText(its) + "\"";
            Parse(t, comments) == Ok(Str(Utf8Text(points)), |t|)
  {
    hide Parse, ItemsText, Escapes, Utf8Text, UnitsMeaning, ItemsUnits;
    EscapesMeaning(its, points);
    LiteralParses(its, comments);
  }

  /** Two escapes are one code point if the first is a high and the second a low surrogate; any others
      stand for themselves, surrogates or not. */
  lemma TwoEscapes(first: string, second: string, u: nat, v: nat, comments: bool)
    requires u < 0x10000 && v < 0x10000 && Spells(first, u) && Spells(second, v)
    ensures var t := "\"\\u" + first + "\\u" + second + "\"";
            var text := if 0xD800 <= u < 0xDC00 && 0xDC00 <= v < 0xE000
                        then Encode(0x10000 + 0x400 * (u - 0xD800) + (v - 0xDC00)) else Encode(u) + Encode(v);
            Parse(t, comments) == Ok(Str(text), |t|)
  {
    hide Parse, Spells, Encode;
    var its := Then(Unicode(first), Then(Unicode(second), End));
    UnicodeUnit(its.rest, v);
    UnicodeUnit(its, u);
    LiteralParses(its, comments);
    TwoTexts(first, second);
    TwoMeanings(u, v);
  }

  lemma TwoTexts(first: string, second: string)
    ensures "\"" + ItemsText(Then(Unicode(first), Then(Unicode(second), End))) + "\""
         == "\"\\u" + first + "\\u" + second + "\""
  {
    assert ItemsText(Then(Unicode(second), End)) == "\\u" + second;
    assert ItemsText(Then(Unicode(first), Then(Unicode(second), End))) == "\\u" + first + ("\\u" + second);
    assert "\"" + "\\u" == "\"\\u";
  }

  lemma TwoMeanings(u: nat, v: nat)
    requires u < 0x10000 && v < 0x10000
    ensures UnitsMeaning(Next(Code(u), Next(Code(v), Done)))
         == if 0xD800 <= u < 0xDC00 && 0xDC00 <= v < 0xE000
            then Encode(0x10000 + 0x400 * (u - 0xD800) + (v - 0xDC00)) else Encode(u) + Encode(v)
  {
    hide Encode;
    assert UnitsMeaning(Next(Code(v), Done)) == Encode(v);
    if 0xD800 <= u < 0xDC00 && 0xDC00 <= v < 0xE000 {
      var p := 0x10000 + 0x400 * (u - 0xD800) + (v - 0xDC00);
      assert (p - 0x10000) / 0x400 == u - 0xD800 && (p - 0x10000) % 0x400 == v - 0xDC00;
      PairMeaning(p, Done);
    }
  }
}
