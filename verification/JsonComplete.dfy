/** The parser accepts the texts of the grammar that nest at most MAX_DEPTH deep, and rejects deeper ones. */
module JsonComplete {
  import opened ByteStrings
  import opened JsonGrammar
  import opened JsonLexical
  import opened JsonNumbers
  import opened JsonParserSpec
  import opened JsonStrings
  import opened JsonValues

  // ---------- tokens behind whitespace ----------

  lemma SpacesSkipped(s: string, i: nat, w: string)
    requires Spaces(w) && At(s, i, w) && !IsSpace(Peek(s, i + |w|))
    ensures SkipSpaces(s, i) == i + |w|
  {
    var j := SkipSpaces(s, i);
    assert j < i + |w| ==> s[j] == w[j - i] by {
      assert s[i..i + |w|] == w;
    }
  }

  lemma GarbageSkipped(s: string, i: nat, w: string, comments: bool)
    requires Spaces(w) && At(s, i, w) && !IsSpace(Peek(s, i + |w|)) && Peek(s, i + |w|) != '/'
    ensures SkipGarbage(s, i, comments) == Ok((), i + |w|)
  {
    SpacesSkipped(s, i, w);
    SpacesSkipped(s, i + |w|, "");
  }

  /** A token that is no whitespace and starts no comment is found behind any whitespace. */
  lemma TokenAt(s: string, i: nat, w: string, c: char, comments: bool)
    requires Spaces(w) && At(s, i, w + [c]) && !IsSpace(c) && c != '/'
    ensures NextToken(s, i, comments) == Ok(c, i + |w| + 1)
  {
    AtConcat(s, i, w, [c]);
    AtSingle(s, i + |w|, c);
    GarbageSkipped(s, i, w, comments);
  }

  // ---------- first characters ----------

  predicate StartsValue(c: char) {
    c == '-' || IsDigit(c) || c == 't' || c == 'f' || c == 'n' || c == '"' || c == '{' || c == '['
  }

  lemma TextStarts(d: Doc)
    requires ValidDoc(d)
    ensures Text(d) != "" && StartsValue(Text(d)[0])
    ensures d.NumberDoc? <==> Text(d)[0] == '-' || IsDigit(Text(d)[0])
  {
    if d.NumberDoc? {
      assert Text(d)[0] == (Minus(d.n.negative) + d.n.whole)[0];
    }
  }

  /** The value's first character is the next token, and the parser steps back onto it. */
  lemma ValueToken(s: string, i: nat, w: string, d: Doc, comments: bool)
    requires Spaces(w) && ValidDoc(d) && At(s, i, w) && At(s, i + |w|, Text(d))
    ensures Text(d) != "" && NextToken(s, i, comments) == Ok(Text(d)[0], i + |w| + 1)
  {
    hide Text, ValidDoc, SkipGarbage, Spaces;
    TextStarts(d);
    FirstAt(s, i + |w|, Text(d));
    GarbageSkipped(s, i, w, comments);
  }

  // ---------- values ----------

  /** What must hold behind a value: a number must really end there. */
  predicate Ends(s: string, j: nat, d: Doc)
    requires j <= |s|
  {
    d.NumberDoc? ==> Stops(Peek(s, j), d.n.frac, d.n.exp)
  }

  /** The verdict the grammar calls for: a value, or an error when the text nests too deep. */
  predicate Reads(o: Outcome<Json>, fits: bool, value: Json, next: nat) {
    if fits then o == Ok(value, next) else o == Fail(DepthExceeded)
  }

  lemma LiteralComplete(s: string, i: nat, text: string, value: Json)
    requires text != "" && At(s, i, text)
    ensures i < |s| && Expect(s, i, text, value) == Ok(value, i + |text|)
  {
  }

  /** The main theorem of this module, for a value behind whitespace. */
  lemma {:induction false} ValueComplete(s: string, i: nat, w: string, d: Doc, depth: nat, comments: bool)
    requires Spaces(w) && ValidDoc(d) && At(s, i, w) && At(s, i + |w|, Text(d))
    requires Ends(s, i + |w| + |Text(d)|, d)
    ensures Reads(ParseValue(s, i, depth, comments), depth + DocDepth(d) <= MAX_DEPTH, Meaning(d),
                  i + |w| + |Text(d)|)
    decreases d, 1
  {
    hide ParseValue, NextToken, Meaning, Text, ValidDoc, Ends, DocDepth, Spaces;
    if depth <= MAX_DEPTH {
      ValueToken(s, i, w, d, comments);
      AtToken(s, i + |w|, i, d, depth, comments);
    } else {
      TooDeep(s, i, depth, comments);
    }
  }

  lemma TooDeep(s: string, i: nat, depth: nat, comments: bool)
    requires i <= |s| && depth > MAX_DEPTH
    ensures ParseValue(s, i, depth, comments) == Fail(DepthExceeded)
  {
  }

  lemma {:induction false} AtToken(s: string, j: nat, i: nat, d: Doc, depth: nat, comments: bool)
    requires ValidDoc(d) && At(s, j, Text(d)) && Ends(s, j + |Text(d)|, d)
    requires i <= |s| && depth <= MAX_DEPTH
    requires Text(d) != "" && NextToken(s, i, comments) == Ok(Text(d)[0], j + 1)
    ensures Reads(ParseValue(s, i, depth, comments), depth + DocDepth(d) <= MAX_DEPTH, Meaning(d), j + |Text(d)|)
    decreases d, 0
  {
    hide ParseValue, NextToken, MembersMeaning, ElemsMeaning, ElemsText, MembersText, ElemsDepth, MembersDepth, At;
    if d.Array? {
      AtConcat3(s, j, "[", ElemsText(d.elems), "]");
      ArrayComplete(s, j, i, d.elems, depth, comments);
    } else if d.Object? {
      AtConcat3(s, j, "{", MembersText(d.members), "}");
      ObjectComplete(s, j, i, d.members, depth, comments);
    } else {
      LeafComplete(s, j, i, d, depth, comments);
    }
  }

  lemma LeafComplete(s: string, j: nat, i: nat, d: Doc, depth: nat, comments: bool)
    requires ValidDoc(d) && At(s, j, Text(d)) && Ends(s, j + |Text(d)|, d) && !d.Array? && !d.Object?
    requires i <= |s| && depth <= MAX_DEPTH
    requires Text(d) != "" && NextToken(s, i, comments) == Ok(Text(d)[0], j + 1)
    ensures ParseValue(s, i, depth, comments) == Ok(Meaning(d), j + |Text(d)|)
  {
    hide NextToken, ParseValue, At, NumberText, ItemsText, NumberMeaning, StringMeaning;
    match d
    case NullDoc =>
      LiteralLeaf(s, j, i, "null", depth, comments);
    case BoolDoc(b) =>
      LiteralLeaf(s, j, i, BoolText(b), depth, comments);
    case NumberDoc(n) => NumberLeaf(s, j, i, n, depth, comments);
    case StringDoc(chars) => StringLeaf(s, j, i, chars, depth, comments);
    case EmptyArray(gap) => EmptyLeaf(s, j, i, '[', gap, ']', depth, comments);
    case EmptyObject(gap) => EmptyLeaf(s, j, i, '{', gap, '}', depth, comments);
  }

  lemma LiteralLeaf(s: string, j: nat, i: nat, text: string, depth: nat, comments: bool)
    requires i <= |s| && depth <= MAX_DEPTH && At(s, j, text)
    requires text == "null" || text == BoolText(true) || text == BoolText(false)
    requires NextToken(s, i, comments) == Ok(text[0], j + 1)
    ensures ParseValue(s, i, depth, comments) ==
              Ok(if text == "null" then Null else Bool(text == BoolText(true)), j + |text|)
  {
    hide NextToken, ParseItems, ParseMembers, ParseNumber, ParseString, Expect, At;
    LiteralComplete(s, j, text, if text == "null" then Null else Bool(text == BoolText(true)));
  }

  lemma NumberLeaf(s: string, j: nat, i: nat, n: Number, depth: nat, comments: bool)
    requires i <= |s| && depth <= MAX_DEPTH && ValidNumber(n) && At(s, j, NumberText(n))
    requires Ends(s, j + |NumberText(n)|, NumberDoc(n))
    requires NumberText(n) != "" && NextToken(s, i, comments) == Ok(NumberText(n)[0], j + 1)
    ensures ParseValue(s, i, depth, comments) == Ok(NumberMeaning(n), j + |NumberText(n)|)
  {
    hide NextToken, ParseItems, ParseMembers, ParseNumber, ParseString, Expect, At, NumberMeaning, ValidNumber;
    TextStarts(NumberDoc(n));
    NumberComplete(s, j, n);
  }

  lemma StringLeaf(s: string, j: nat, i: nat, chars: Items, depth: nat, comments: bool)
    requires i <= |s| && depth <= MAX_DEPTH && ValidItems(chars) && At(s, j, StringText(chars))
    requires NextToken(s, i, comments) == Ok('"', j + 1)
    ensures ParseValue(s, i, depth, comments) == Ok(Str(StringMeaning(chars)), j + |StringText(chars)|)
  {
    hide NextToken, ParseItems, ParseMembers, ParseNumber, ParseString, Expect, At, StringMeaning, StringText;
    StringTextAt(s, j, chars);
    StringComplete(s, j + 1, chars);
  }

  lemma EmptyLeaf(s: string, j: nat, i: nat, open: char, gap: string, close: char, depth: nat, comments: bool)
    requires i <= |s| && depth <= MAX_DEPTH && Spaces(gap) && At(s, j, [open] + gap + [close])
    requires (open == '[' && close == ']') || (open == '{' && close == '}')
    requires NextToken(s, i, comments) == Ok(open, j + 1)
    ensures ParseValue(s, i, depth, comments) == Ok(if open == '[' then Arr([]) else Obj([]), j + |gap| + 2)
  {
    hide NextToken, ParseItems, ParseMembers, ParseNumber, ParseString, Expect, At;
    assert [open] + gap + [close] == [open] + (gap + [close]);
    AtConcat(s, j, [open], gap + [close]);
    InBoundsAt(s, j, [open]);
    TokenAt(s, j + 1, gap, close, comments);
  }

  lemma InBoundsAt(s: string, j: nat, t: string)
    requires At(s, j, t)
    ensures j + |t| <= |s|
  {
  }

  /** What the parser does at an opening bracket or brace. */
  lemma BracketTurn(s: string, i: nat, j: nat, c: char, depth: nat, comments: bool)
    requires i <= |s| && j <= |s| && depth <= MAX_DEPTH && NextToken(s, i, comments) == Ok(c, j)
    ensures c == '[' ==> ParseValue(s, i, depth, comments) == AfterBracket(s, j, depth, comments)
    ensures c == '{' ==> ParseValue(s, i, depth, comments) == AfterBrace(s, j, depth, comments)
  {
    hide NextToken, ParseItems, ParseMembers;
  }

  lemma FirstItem(s: string, j: nat, c: char, k: nat, depth: nat, comments: bool)
    requires j <= |s| && 0 < k <= |s| && NextToken(s, j, comments) == Ok(c, k) && StartsValue(c)
    ensures AfterBracket(s, j, depth, comments) == ParseItems(s, k - 1, depth, comments, [])
  {
    hide NextToken, ParseItems;
  }

  lemma {:induction false} ArrayComplete(s: string, j: nat, i: nat, es: Elems, depth: nat, comments: bool)
    requires ValidElems(es) && At(s, j + 1, ElemsText(es)) && At(s, j + 1 + |ElemsText(es)|, "]")
    requires i <= |s| && depth <= MAX_DEPTH && NextToken(s, i, comments) == Ok('[', j + 1)
    ensures Reads(ParseValue(s, i, depth, comments), depth + 1 + ElemsDepth(es) <= MAX_DEPTH,
                  Arr(ElemsMeaning(es)), j + |ElemsText(es)| + 2)
    decreases es, 1
  {
    hide NextToken, ParseValue, ParseItems, ElemsMeaning, ElemsDepth, ElemsText, ValidElems, At, Text, AfterBracket;
    BracketTurn(s, i, j + 1, '[', depth, comments);
    ElemsToken(s, j + 1, es, comments);
    FirstItem(s, j + 1, Text(es.e.d)[0], j + 1 + |es.e.lead| + 1, depth, comments);
    ElemsComplete(s, j + 1, es, depth, comments, []);
    assert [] + ElemsMeaning(es) == ElemsMeaning(es);
  }

  lemma {:induction false} ObjectComplete(s: string, j: nat, i: nat, ms: Members, depth: nat, comments: bool)
    requires ValidMembers(ms) && At(s, j + 1, MembersText(ms)) && At(s, j + 1 + |MembersText(ms)|, "}")
    requires i <= |s| && depth <= MAX_DEPTH && NextToken(s, i, comments) == Ok('{', j + 1)
    ensures Reads(ParseValue(s, i, depth, comments), depth + 1 + MembersDepth(ms) <= MAX_DEPTH,
                  Obj(MembersMeaning(ms, [])), j + |MembersText(ms)| + 2)
    decreases ms, 1
  {
    hide NextToken, ParseValue, ParseMembers, MembersMeaning, MembersDepth, MembersText, ValidMembers, At;
    BracketTurn(s, i, j + 1, '{', depth, comments);
    MembersToken(s, j + 1, ms, comments);
    MembersComplete(s, j + 1, ms, depth, comments, []);
  }

  lemma StringTextAt(s: string, j: nat, its: Items)
    ensures |StringText(its)| == |ItemsText(its)| + 2
    ensures At(s, j, StringText(its)) <==> At(s, j, "\"") && At(s, j + 1, ItemsText(its) + "\"")
  {
    assert StringText(its) == "\"" + (ItemsText(its) + "\"");
    AtConcat(s, j, "\"", ItemsText(its) + "\"");
  }

  // ---------- array items ----------

  /** What follows an item: a comma and more items, or nothing yet. */
  function ElemsRest(es: Elems): (t: string)
    ensures |t| == if es.MoreElems? then 1 + |ElemsText(es.tail)| else 0
  {
    if es.MoreElems? then "," + ElemsText(es.tail) else ""
  }

  lemma ElemsParts(s: string, j: nat, es: Elems)
    ensures |ElemsText(es)| == |es.e.lead| + |Text(es.e.d)| + |es.e.trail| + |ElemsRest(es)|
    ensures At(s, j, ElemsText(es)) <==>
              && At(s, j, es.e.lead) && At(s, j + |es.e.lead|, Text(es.e.d))
              && At(s, j + |es.e.lead| + |Text(es.e.d)|, es.e.trail)
              && At(s, j + |es.e.lead| + |Text(es.e.d)| + |es.e.trail|, ElemsRest(es))
  {
    hide At, Text;
    var a, b, c, d := es.e.lead, Text(es.e.d), es.e.trail, ElemsRest(es);
    assert ElemsText(es) == a + b + c + d;
    AtConcat3(s, j, a, b, c);
    AtConcat(s, j, a + b + c, d);
  }

  /** The first of several items, and the others. */
  lemma ElemsStep(es: Elems, data: seq<Json>)
    requires ValidElems(es)
    ensures Spaces(es.e.lead) && ValidDoc(es.e.d) && Spaces(es.e.trail) && (es.MoreElems? ==> ValidElems(es.tail))
    ensures data + ElemsMeaning(es)
         == data + [Meaning(es.e.d)] + if es.MoreElems? then ElemsMeaning(es.tail) else []
    ensures ElemsDepth(es) == Max(DocDepth(es.e.d), if es.MoreElems? then ElemsDepth(es.tail) else 0)
  {
    hide Meaning, DocDepth, ValidDoc, Spaces;
  }

  lemma ElemsToken(s: string, j: nat, es: Elems, comments: bool)
    requires ValidElems(es) && At(s, j, ElemsText(es))
    ensures Text(es.e.d) != "" && StartsValue(Text(es.e.d)[0])
    ensures NextToken(s, j, comments) == Ok(Text(es.e.d)[0], j + |es.e.lead| + 1)
  {
    hide NextToken, At, ElemsText, ElemsRest, Text, ValidDoc, Spaces, StartsValue;
    ElemsParts(s, j, es);
    TextStarts(es.e.d);
    ValueToken(s, j, es.e.lead, es.e.d, comments);
  }

  /** A closing character behind optional whitespace ends whatever value stands before it. */
  lemma EndsBefore(s: string, j: nat, w: string, c: char, d: Doc)
    requires Spaces(w) && At(s, j, w + [c]) && (c == ',' || c == ']' || c == '}')
    ensures Ends(s, j, d)
  {
    FirstAt(s, j, w + [c]);
  }

  /** One turn of the array loop. */
  lemma ItemsTurn(s: string, p: nat, depth: nat, comments: bool, data: seq<Json>, v: Json, q: nat, c: char, k: nat)
    requires p <= |s| && q <= |s| && k <= |s| && ParseValue(s, p, depth + 1, comments) == Ok(v, q)
    requires NextToken(s, q, comments) == Ok(c, k) && (c == ']' || c == ',')
    ensures c == ']' ==> ParseItems(s, p, depth, comments, data) == Ok(Arr(data + [v]), k)
    ensures var n := NextToken(s, k, comments);
            c == ',' && n.Ok? ==>
              ParseItems(s, p, depth, comments, data) == ParseItems(s, n.next - 1, depth, comments, data + [v])
  {
    hide ParseValue, NextToken;
  }

  lemma ItemsFail(s: string, p: nat, depth: nat, comments: bool, data: seq<Json>)
    requires p <= |s| && ParseValue(s, p, depth + 1, comments).Fail?
    ensures ParseItems(s, p, depth, comments, data) == Fail(ParseValue(s, p, depth + 1, comments).error)
  {
    hide ParseValue, NextToken;
  }

  lemma {:induction false} ElemsComplete(s: string, j: nat, es: Elems, depth: nat, comments: bool, data: seq<Json>)
    requires ValidElems(es) && At(s, j, ElemsText(es)) && At(s, j + |ElemsText(es)|, "]")
    requires depth <= MAX_DEPTH
    ensures j + |es.e.lead| <= |s|
    ensures Reads(ParseItems(s, j + |es.e.lead|, depth, comments, data), depth + 1 + ElemsDepth(es) <= MAX_DEPTH,
                  Arr(data + ElemsMeaning(es)), j + |ElemsText(es)| + 1)
    decreases es, 0
  {
    hide Meaning, DocDepth, ParseValue, NextToken, ParseItems, Text, Ends, At, Spaces, ElemsText, ElemsRest, ItemsText,
      ValidDoc, ValidElems, ElemsMeaning, ElemsDepth;
    ElemsStep(es, data);
    var d := es.e.d;
    var p := j + |es.e.lead|;
    var q := p + |Text(d)|;
    var k := q + |es.e.trail| + 1;
    var c := if es.MoreElems? then ',' else ']';
    ElemsLayout(s, j, es);
    Empty(s, p);
    ValueComplete(s, p, "", d, depth + 1, comments);
    if depth + 1 + DocDepth(d) > MAX_DEPTH {
      ItemsFail(s, p, depth, comments, data);
    } else {
      TokenAt(s, q, es.e.trail, c, comments);
      ItemsTurn(s, p, depth, comments, data, Meaning(d), q, c, k);
      if es.MoreElems? {
        ElemsToken(s, k, es.tail, comments);
        ElemsComplete(s, k, es.tail, depth, comments, data + [Meaning(d)]);
      } else {
        assert data + [Meaning(d)] + [] == data + [Meaning(d)];
      }
    }
  }

  /** Where the first item ends, and where the array goes on behind it. */
  lemma ElemsLayout(s: string, j: nat, es: Elems)
    requires ValidElems(es) && At(s, j, ElemsText(es)) && At(s, j + |ElemsText(es)|, "]")
    ensures var p := j + |es.e.lead|;
            var q := p + |Text(es.e.d)|;
            var k := q + |es.e.trail| + 1;
            && p <= q < k <= |s| && At(s, p, Text(es.e.d)) && Ends(s, q, es.e.d)
            && At(s, q, es.e.trail + [if es.MoreElems? then ',' else ']'])
            && (if es.MoreElems? then
                  At(s, k, ElemsText(es.tail)) && k + |ElemsText(es.tail)| == j + |ElemsText(es)|
                else k == j + |ElemsText(es)| + 1)
  {
    hide ElemsText, ValidDoc, Text, At;
    var q := j + |es.e.lead| + |Text(es.e.d)|;
    var more := es.MoreElems?;
    ElemsParts(s, j, es);
    CloserAt(s, q, es.e.trail, if more then ElemsText(es.tail) else "", more, ']');
    EndsBefore(s, q, es.e.trail, if more then ',' else ']', es.e.d);
    if more {
      AtConcat(s, q + |es.e.trail|, ",", ElemsText(es.tail));
    }
  }

  lemma Empty(s: string, p: nat)
    requires p <= |s|
    ensures At(s, p, "") && Spaces("")
  {
  }

  /** The character behind an item's whitespace: the comma of the rest, or the closing bracket. */
  lemma CloserAt(s: string, q: nat, trail: string, tail: string, more: bool, close: char)
    requires At(s, q, trail) && At(s, q + |trail|, if more then "," + tail else "")
    requires more || At(s, q + |trail|, [close])
    ensures At(s, q, trail + [if more then ',' else close]) && q + |trail| + 1 <= |s|
  {
    if more {
      AtConcat(s, q + |trail|, ",", tail);
    }
    AtConcat(s, q, trail, [if more then ',' else close]);
  }

  // ---------- object members ----------

  function MembersRest(ms: Members): (t: string)
    ensures |t| == if ms.MoreMembers? then 1 + |MembersText(ms.tail)| else 0
  {
    if ms.MoreMembers? then "," + MembersText(ms.tail) else ""
  }

  lemma MembersParts(s: string, j: nat, ms: Members)
    ensures |MembersText(ms)|
         == |KeyText(ms.m)| + |ms.m.value.lead| + |Text(ms.m.value.d)| + |ms.m.value.trail| + |MembersRest(ms)|
    ensures At(s, j, MembersText(ms)) <==>
              && At(s, j, KeyText(ms.m))
              && At(s, j + |KeyText(ms.m)|, ms.m.value.lead)
              && At(s, j + |KeyText(ms.m)| + |ms.m.value.lead|, Text(ms.m.value.d))
              && At(s, j + |KeyText(ms.m)| + |ms.m.value.lead| + |Text(ms.m.value.d)|, ms.m.value.trail)
              && At(s, j + |KeyText(ms.m)| + |ms.m.value.lead| + |Text(ms.m.value.d)| + |ms.m.value.trail|,
                    MembersRest(ms))
  {
    hide At, Text, KeyText;
    var k, a, b, c, d := KeyText(ms.m), ms.m.value.lead, Text(ms.m.value.d), ms.m.value.trail, MembersRest(ms);
    assert MembersText(ms) == k + (a + b + c) + d;
    AtConcat3(s, j, k, a + b + c, d);
    AtConcat3(s, j + |k|, a, b, c);
  }

  lemma KeyParts(s: string, j: nat, m: Member)
    ensures |KeyText(m)| == |m.lead| + 2 + |ItemsText(m.key)| + |m.gap| + 1
    ensures At(s, j, KeyText(m)) <==>
              && At(s, j, m.lead + "\"") && At(s, j + |m.lead| + 1, ItemsText(m.key) + "\"")
              && At(s, j + |m.lead| + 2 + |ItemsText(m.key)|, m.gap + ":")
  {
    hide At, StringText, ItemsText;
    StringTextAt(s, j + |m.lead|, m.key);
    AtConcat3(s, j, m.lead, StringText(m.key), m.gap + ":");
    AtConcat(s, j, m.lead, "\"");
  }

  lemma MembersToken(s: string, j: nat, ms: Members, comments: bool)
    requires ValidMembers(ms) && At(s, j, MembersText(ms))
    ensures NextToken(s, j, comments) == Ok('"', j + |ms.m.lead| + 1)
  {
    MembersParts(s, j, ms);
    KeyParts(s, j, ms.m);
    TokenAt(s, j, ms.m.lead, '"', comments);
  }

  /** From the opening quote of a key to the cursor behind its colon. */
  lemma KeyComplete(s: string, j: nat, m: Member, comments: bool)
    requires ValidItems(m.key) && Spaces(m.gap) && At(s, j, KeyText(m))
    ensures j + |m.lead| + 1 <= |s|
    ensures var o := ParseString(s, j + |m.lead| + 1, "", -1);
            o.Ok? && o.value == StringMeaning(m.key) && NextToken(s, o.next, comments) == Ok(':', j + |KeyText(m)|)
  {
    hide ParseString, NextToken, ItemsText, StringText, KeyText, Spaces, ValidItems;
    KeyParts(s, j, m);
    StringComplete(s, j + |m.lead| + 1, m.key);
    TokenAt(s, j + |m.lead| + 2 + |ItemsText(m.key)|, m.gap, ':', comments);
  }

  /** One turn of the object loop. */
  lemma MembersTurn(s: string, i: nat, depth: nat, comments: bool, data: seq<Entry>,
                    key: string, j: nat, k: nat, v: Json, l: nat, c: char, m: nat)
    requires i <= |s| && j <= |s| && k <= |s| && l <= |s| && m <= |s|
    requires ParseString(s, i, "", -1) == Ok(key, j) && NextToken(s, j, comments) == Ok(':', k)
    requires ParseValue(s, k, depth + 1, comments) == Ok(v, l)
    requires NextToken(s, l, comments) == Ok(c, m) && (c == '}' || c == ',')
    ensures c == '}' ==> ParseMembers(s, i, '"', depth, comments, data) == Ok(Obj(Insert(data, key, v)), m)
    ensures var n := NextToken(s, m, comments);
            c == ',' && n.Ok? ==>
              ParseMembers(s, i, '"', depth, comments, data)
              == ParseMembers(s, n.next, n.value, depth, comments, Insert(data, key, v))
  {
    hide ParseValue, NextToken, ParseString, Insert;
  }

  lemma MembersFail(s: string, i: nat, depth: nat, comments: bool, data: seq<Entry>, key: string, j: nat, k: nat)
    requires i <= |s| && j <= |s| && k <= |s|
    requires ParseString(s, i, "", -1) == Ok(key, j) && NextToken(s, j, comments) == Ok(':', k)
    requires ParseValue(s, k, depth + 1, comments).Fail?
    ensures ParseMembers(s, i, '"', depth, comments, data) == Fail(ParseValue(s, k, depth + 1, comments).error)
  {
    hide ParseValue, NextToken, ParseString;
  }

  lemma {:induction false} MembersComplete(s: string, j: nat, ms: Members, depth: nat, comments: bool,
                                           data: seq<Entry>)
    requires ValidMembers(ms) && At(s, j, MembersText(ms)) && At(s, j + |MembersText(ms)|, "}")
    requires depth <= MAX_DEPTH
    ensures j + |ms.m.lead| + 1 <= |s|
    ensures Reads(ParseMembers(s, j + |ms.m.lead| + 1, '"', depth, comments, data),
                  depth + 1 + MembersDepth(ms) <= MAX_DEPTH,
                  Obj(MembersMeaning(ms, data)), j + |MembersText(ms)| + 1)
    decreases ms, 0
  {
    hide Meaning, DocDepth, ParseValue, NextToken, ParseString, ParseMembers, StringMeaning, Text, KeyText, ValidItems,
      Ends, At, Spaces, Insert, MembersText, MembersRest, ItemsText;
    var m, d := ms.m, ms.m.value.d;
    var p := j + |KeyText(m)|;
    var q := p + |m.value.lead| + |Text(d)|;
    var k := q + |m.value.trail| + 1;
    var c := if ms.MoreMembers? then ',' else '}';
    var key := StringMeaning(m.key);
    var start := j + |m.lead| + 1;
    MembersLayout(s, j, ms);
    KeyComplete(s, j, m, comments);
    var o := ParseString(s, start, "", -1);
    ValueComplete(s, p, m.value.lead, d, depth + 1, comments);
    if depth + 1 + DocDepth(d) > MAX_DEPTH {
      MembersFail(s, start, depth, comments, data, key, o.next, p);
    } else {
      TokenAt(s, q, m.value.trail, c, comments);
      MembersTurn(s, start, depth, comments, data, key, o.next, p, Meaning(d), q, c, k);
      if ms.MoreMembers? {
        MembersToken(s, k, ms.tail, comments);
        MembersComplete(s, k, ms.tail, depth, comments, Insert(data, key, Meaning(d)));
      }
    }
  }

  lemma MembersLayout(s: string, j: nat, ms: Members)
    requires ValidMembers(ms) && At(s, j, MembersText(ms)) && At(s, j + |MembersText(ms)|, "}")
    ensures var p := j + |KeyText(ms.m)|;
            var q := p + |ms.m.value.lead| + |Text(ms.m.value.d)|;
            var k := q + |ms.m.value.trail| + 1;
            && p <= q < k <= |s| && At(s, j, KeyText(ms.m)) && At(s, p, ms.m.value.lead)
            && At(s, p + |ms.m.value.lead|, Text(ms.m.value.d)) && Ends(s, q, ms.m.value.d)
            && At(s, q, ms.m.value.trail + [if ms.MoreMembers? then ',' else '}'])
            && (if ms.MoreMembers? then
                  At(s, k, MembersText(ms.tail)) && k + |MembersText(ms.tail)| == j + |MembersText(ms)|
                else k == j + |MembersText(ms)| + 1)
  {
    hide MembersText, ValidDoc, Text, KeyText, At;
    var q := j + |KeyText(ms.m)| + |ms.m.value.lead| + |Text(ms.m.value.d)|;
    var trail := ms.m.value.trail;
    var more := ms.MoreMembers?;
    MembersParts(s, j, ms);
    CloserAt(s, q, trail, if more then MembersText(ms.tail) else "", more, '}');
    EndsBefore(s, q, trail, if more then ',' else '}', ms.m.value.d);
    if more {
      AtConcat(s, q + |trail|, ",", MembersText(ms.tail));
    }
  }
}
