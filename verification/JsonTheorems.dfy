/** The parser and the grammar of RFC 8259 agree. */
module JsonTheorems {
  import opened ByteStrings
  import opened JsonComplete
  import opened JsonGrammar
  import opened JsonLexical
  import opened JsonParserSpec
  import opened JsonSound
  import opened JsonValues

  /** `t` is a JSON text for the tree `d`, with whitespace around it. */
  ghost predicate SpellsOut(t: string, before: string, d: Doc, after: string) {
    Spaces(before) && ValidDoc(d) && Spaces(after) && DocDepth(d) <= MAX_DEPTH && t == before + Text(d) + after
  }

  /** `t` is a JSON text that means `v`. */
  ghost predicate IsTextOf(t: string, v: Json) {
    exists before, d, after :: SpellsOut(t, before, d, after) && Meaning(d) == v
  }

  lemma WhitespaceFirst(s: string, i: nat, w: string)
    requires At(s, i, w) && i + |w| == |s| && Spaces(w)
    ensures w != "" ==> IsSpace(Peek(s, i))
  {
    if w != "" {
      assert s[i] == s[i..i + |w|][0] == w[0];
    }
  }

  /** A text of the grammar, parsed in either mode; one that nests too deep is refused. */
  lemma ParseComplete(before: string, d: Doc, after: string, comments: bool)
    requires Spaces(before) && ValidDoc(d) && Spaces(after)
    ensures var t := before + Text(d) + after;
            Parse(t, comments) == if DocDepth(d) <= MAX_DEPTH then Ok(Meaning(d), |t|) else Fail(DepthExceeded)
  {
    hide ParseValue, SkipGarbage, Text, Meaning, DocDepth, ValidDoc;
    var t := before + Text(d) + after;
    var i := |before| + |Text(d)|;
    assert t[0..|t|] == t;
    AtConcat3(t, 0, before, Text(d), after);
    WhitespaceFirst(t, i, after);
    ValueComplete(t, 0, before, d, 0, comments);
    if DocDepth(d) <= MAX_DEPTH {
      GarbageSkipped(t, i, after, comments);
    }
  }

  lemma ParseSound(t: string) returns (before: string, d: Doc, after: string)
    requires Parse(t, false).Ok?
    ensures SpellsOut(t, before, d, after) && Parse(t, false) == Ok(Meaning(d), |t|)
  {
    hide ParseValue, SkipGarbage, Text, DocDepth, ValidDoc;
    before, d := ValueSound(t, 0, 0);
    var i := |before| + |Text(d)|;
    after := t[i..];
    assert SkipGarbage(t, i, false).next == |t|;
    AllSpaces(t, i);
    assert t == t[0..|before|] + t[|before|..i] + t[i..];
    ParseComplete(before, d, after, false);
  }

  lemma AllSpaces(t: string, i: nat)
    requires i <= |t| && SkipGarbage(t, i, false).next == |t|
    ensures Spaces(t[i..])
  {
  }

  /** In STANDARD mode `Json::parse` succeeds with `v` exactly on the JSON texts that mean `v`. */
  lemma ParserIsGrammar(t: string, v: Json)
    ensures Parse(t, false) == Ok(v, |t|) <==> IsTextOf(t, v)
    ensures Parse(t, false).Ok? ==> Parse(t, false).next == |t|
  {
    hide Parse, Text, Meaning, DocDepth, ValidDoc;
    if Parse(t, false).Ok? {
      var before, d, after := ParseSound(t);
      assert Parse(t, false) == Ok(v, |t|) ==> SpellsOut(t, before, d, after) && Meaning(d) == v;
    }
    if IsTextOf(t, v) {
      var before, d, after :| SpellsOut(t, before, d, after) && Meaning(d) == v;
      ParseComplete(before, d, after, false);
    }
  }

  /** Allowing comments changes no text that is accepted without them. */
  lemma CommentsConservative(t: string, v: Json)
    requires IsTextOf(t, v)
    ensures Parse(t, true) == Ok(v, |t|)
  {
    hide Parse, Text, Meaning, DocDepth, ValidDoc;
    var before, d, after :| SpellsOut(t, before, d, after) && Meaning(d) == v;
    ParseComplete(before, d, after, true);
  }
}
