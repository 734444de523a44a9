/** The string parser and its pending code point, against left-to-right surrogate pairing. */
module JsonStrings {
  import opened ByteStrings
  import opened JsonGrammar
  import opened JsonLexical
  import opened JsonParserSpec
  import opened Utf8

  /** What the parser has decided after some items: the text written and the code point held back. */
  datatype Machine = Machine(out: string, pending: CodePoint)

  function Step(m: Machine, it: Item): Machine
    requires ValidItem(it)
  {
    match it
    case Plain(c) => Machine(m.out + Encode(m.pending) + [c], -1)
    case Escape(c) => Machine(m.out + Encode(m.pending) + [Unescape(c)], -1)
    case Unicode(h) =>
      if IsHigh(m.pending) && IsLow(HexValue(h)) then
        Machine(m.out + Encode(Combine(m.pending, HexValue(h))), -1)
      else Machine(m.out + Encode(m.pending), HexValue(h))
  }

  function Run(m: Machine, its: Items): Machine
    requires ValidItems(its)
    decreases its
  {
    if its.End? then m else Run(Step(m, its.head), its.rest)
  }

  /** The parser goes through the text of `its` exactly as the machine does. */
  lemma {:induction false} ParsesItems(s: string, i: nat, its: Items, m: Machine)
    requires ValidItems(its) && At(s, i, ItemsText(its))
    ensures ParseString(s, i, m.out, m.pending)
         == ParseString(s, i + |ItemsText(its)|, Run(m, its).out, Run(m, its).pending)
    decreases its
  {
    hide ParseString, ItemText, Step;
    if its.Then? {
      var t := ItemText(its.head);
      AtConcat(s, i, t, ItemsText(its.rest));
      ParsesItem(s, i, its.head, m);
      ParsesItems(s, i + |t|, its.rest, Step(m, its.head));
    }
  }

  lemma ParsesItem(s: string, i: nat, it: Item, m: Machine)
    requires ValidItem(it) && At(s, i, ItemText(it))
    ensures ParseString(s, i, m.out, m.pending)
         == ParseString(s, i + |ItemText(it)|, Step(m, it).out, Step(m, it).pending)
  {
    var t := ItemText(it);
    assert s[i] == s[i..i + |t|][0] == t[0];
    if !it.Plain? {
      assert s[i + 1] == s[i..i + |t|][1] == t[1];
    }
    if it.Unicode? {
      assert s[i + 2..i + 6] == s[i..i + 6][2..] == it.h;
    }
  }

  /** The units still to come when `pending` has been read but not written. */
  function WithPending(pending: CodePoint, us: Units): Units {
    if pending < 0 then us else Next(Code(pending), us)
  }

  /** Writing late loses nothing: what the machine has written and holds back is the
      left-to-right pairing of all it has read. */
  lemma {:induction false} RunMeaning(m: Machine, its: Items)
    requires ValidItems(its)
    ensures Run(m, its).out + Encode(Run(m, its).pending)
         == m.out + UnitsMeaning(WithPending(m.pending, ItemsUnits(its)))
    decreases its
  {
    if its.Then? {
      RunMeaning(Step(m, its.head), its.rest);
      StepMeaning(m, its.head, ItemsUnits(its.rest));
    } else if 0 <= m.pending {
      assert UnitsMeaning(Next(Code(m.pending), Done)) == Encode(m.pending) + "";
    }
  }

  /** The parser knows the escapes of the grammar, and no others. */
  lemma EscapesAgree(c: char)
    ensures IsEscape(c) <==> EscapeCode(c) >= 0
    ensures IsEscape(c) ==> Unescape(c) == EscapeCode(c) as char
  {
  }

  lemma StepMeaning(m: Machine, it: Item, us: Units)
    requires ValidItem(it)
    ensures Step(m, it).out + UnitsMeaning(WithPending(Step(m, it).pending, us))
         == m.out + UnitsMeaning(WithPending(m.pending, Next(ItemUnit(it), us)))
  {
    hide Encode, Combine, HexValue, EscapeCode, Unescape;
    if it.Escape? {
      EscapesAgree(it.c);
    }
    var u := ItemUnit(it);
    var all := Next(u, us);
    if u.Code? && IsHigh(m.pending) && IsLow(u.u) {
      assert UnitsMeaning(Next(Code(m.pending), all)) == Encode(Combine(m.pending, u.u)) + UnitsMeaning(us);
    } else if 0 <= m.pending {
      assert UnitsMeaning(Next(Code(m.pending), all)) == Encode(m.pending) + UnitsMeaning(all);
    }
  }

  /** `parse_string` refines the declarative reading: for every mix of plain characters, short
      escapes and `\u` escapes it returns their UTF-16 pairing in UTF-8, and stops behind the
      closing quote. */
  lemma StringComplete(s: string, i: nat, its: Items)
    requires ValidItems(its) && At(s, i, ItemsText(its) + "\"")
    ensures ParseString(s, i, "", -1) == Ok(StringMeaning(its), i + |ItemsText(its)| + 1)
  {
    hide ParseString, Encode, ItemsText, ItemsUnits, UnitsMeaning, ValidItems, Run;
    AtConcat(s, i, ItemsText(its), "\"");
    AtSingle(s, i + |ItemsText(its)|, '"');
    var m := Machine("", -1);
    ParsesItems(s, i, its, m);
    StringTurn(s, i + |ItemsText(its)|, Run(m, its).out, Run(m, its).pending);
    RunMeaning(m, its);
    assert "" + StringMeaning(its) == StringMeaning(its);
  }

  /** A raw control character in a string literal is an error, whatever precedes it. */
  lemma StringControl(s: string, i: nat, its: Items, c: char)
    requires ValidItems(its) && c < ' ' && At(s, i, ItemsText(its) + [c])
    ensures ParseString(s, i, "", -1) == Fail(UnescapedInString(c))
  {
    hide Encode, ItemsText;
    AtConcat(s, i, ItemsText(its), [c]);
    AtSingle(s, i + |ItemsText(its)|, c);
    ParsesItems(s, i, its, Machine("", -1));
  }

  lemma NextItem(s: string, i: nat, out: string, pending: CodePoint) returns (it: Item)
    requires i <= |s| && ParseString(s, i, out, pending).Ok? && s[i] != '"'
    ensures ValidItem(it) && At(s, i, ItemText(it))
  {
    if s[i] != '\\' {
      it := Plain(s[i]);
      AtSingle(s, i, s[i]);
    } else if s[i + 1] == 'u' {
      it := Unicode(s[i + 2..i + 6]);
      assert s[i..i + 6] == "\\u" + s[i + 2..i + 6];
    } else {
      it := Escape(s[i + 1]);
      assert s[i..i + 2] == [s[i], s[i + 1]];
    }
  }

  lemma StringGoesOn(s: string, i: nat, out: string, pending: CodePoint)
    requires i <= |s| && ParseString(s, i, out, pending).Ok?
    ensures i < |s| && (s[i] == '"' ==> ParseString(s, i, out, pending).next == i + 1)
  {
  }

  /** Conversely, whatever `parse_string` accepts spells out string items up to the closing quote. */
  lemma {:induction false} StringSound(s: string, i: nat, out: string, pending: CodePoint) returns (its: Items)
    requires i <= |s| && ParseString(s, i, out, pending).Ok?
    ensures ValidItems(its)
    ensures At(s, i, ItemsText(its) + "\"")
    ensures ParseString(s, i, out, pending).next == i + |ItemsText(its)| + 1
    decreases |s| - i
  {
    hide ParseString, Step, Encode, ValidItem;
    StringGoesOn(s, i, out, pending);
    if s[i] == '"' {
      its := End;
      AtSingle(s, i, '"');
      assert "" + "\"" == "\"";
    } else {
      var it := NextItem(s, i, out, pending);
      var m := Step(Machine(out, pending), it);
      ParsesItem(s, i, it, Machine(out, pending));
      var rest := StringSound(s, i + |ItemText(it)|, m.out, m.pending);
      its := Then(it, rest);
      assert ItemText(it) + ItemsText(rest) + "\"" == ItemText(it) + (ItemsText(rest) + "\"");
      AtConcat(s, i, ItemText(it), ItemsText(rest) + "\"");
    }
  }
}
