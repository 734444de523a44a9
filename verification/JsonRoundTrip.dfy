/** Parsing what the printer wrote gives back the value, under `Json::operator==`. */
module JsonRoundTrip {
  import opened ByteStrings
  import opened JsonDump
  import opened JsonGrammar
  import opened JsonLexical
  import opened JsonNumerals
  import opened JsonParserSpec
  import opened JsonTheorems
  import opened JsonValues
  import opened Utf8

  // ---------- strings ----------

  function CharItem(value: string, i: nat): (it: Item)
    requires i < |value|
  {
    var c := value[i];
    if c == '\\' || c == '"' then Escape(c)
    else if c == 8 as char then Escape('b')
    else if c == 12 as char then Escape('f')
    else if c == '\n' then Escape('n')
    else if c == '\r' then Escape('r')
    else if c == '\t' then Escape('t')
    else if c < ' ' then Unicode("00" + [DigitChar(c as int / 16), DigitChar(c as int % 16)])
    else if IsSeparator(value, i, BYTE_A8) then Unicode("2028")
    else if IsSeparator(value, i, BYTE_A9) then Unicode("2029")
    else Plain(c)
  }

  function StringItems(value: string, i: nat): Items
    requires i <= |value|
    decreases |value| - i
  {
    if i == |value| then End else Then(CharItem(value, i), StringItems(value, i + CharText(value, i).1))
  }

  lemma CharItemText(value: string, i: nat)
    requires i < |value|
    ensures ValidItem(CharItem(value, i)) && ItemText(CharItem(value, i)) == CharText(value, i).0
  {
    var c := value[i];
    if c < ' ' {
      HexDigitChar(c as int / 16);
      HexDigitChar(c as int % 16);
    }
  }

  lemma HexDigitChar(d: nat)
    requires d < 16
    ensures HexDigit(DigitChar(d)) == d
  {
  }

  lemma ControlValue(c: char)
    requires c < ' '
    ensures var h := "00" + [DigitChar(c as int / 16), DigitChar(c as int % 16)];
            IsHex4(h) && HexValue(h) == c as int && Encode(c as int) == [c]
  {
    HexDigitChar(c as int / 16);
    HexDigitChar(c as int % 16);
  }

  lemma SeparatorValues()
    ensures IsHex4("2028") && HexValue("2028") == 0x2028 && Encode(0x2028) == [BYTE_E2, BYTE_80, BYTE_A8]
    ensures IsHex4("2029") && HexValue("2029") == 0x2029 && Encode(0x2029) == [BYTE_E2, BYTE_80, BYTE_A9]
  {
  }

  /** Each item means exactly the bytes it was printed for. */
  lemma CharItemUnit(value: string, i: nat)
    requires i < |value|
    ensures ValidItem(CharItem(value, i))
    ensures match ItemUnit(CharItem(value, i))
            case Char(c) => [c] == value[i..i + CharText(value, i).1]
            case Code(u) => !IsHigh(u) && Encode(u) == value[i..i + CharText(value, i).1]
  {
    hide Encode, HexValue, IsHex4, ControlText;
    var c := value[i];
    assert value[i..i + 1] == [c];
    SeparatorValues();
    if CharText(value, i).1 == 3 {
      assert value[i..i + 3] == [value[i], value[i + 1], value[i + 2]];
    } else if c < ' ' {
      ControlValue(c);
    }
  }

  lemma {:induction false} StringItemsText(value: string, i: nat)
    requires i <= |value|
    ensures ValidItems(StringItems(value, i)) && ItemsText(StringItems(value, i)) == CharsText(value, i)
    ensures StringMeaning(StringItems(value, i)) == value[i..]
    decreases |value| - i
  {
    hide CharItem, CharText, ItemText, Encode;
    if i < |value| {
      var k := CharText(value, i).1;
      CharItemText(value, i);
      CharItemUnit(value, i);
      StringItemsText(value, i + k);
      assert value[i..] == value[i..i + k] + value[i + k..];
    }
  }

  // ---------- values ----------

  /** The tree of the printer's text: a space behind every comma and colon, none elsewhere. */
  function DocOf(v: Json): Doc
    requires Printable(v)
    decreases v
  {
    match v
    case Null => NullDoc
    case Bool(b) => BoolDoc(b)
    case Int(n) => NumberDoc(IntNumber(n))
    case Double(x) => if D.IsFinite(x) then NumberDoc(DoubleNumber(x)) else NullDoc
    case NegativeZero => NumberDoc(MINUS_ZERO)
    case Str(s) => StringDoc(StringItems(s, 0))
    case Arr(items) => if items == [] then EmptyArray("") else Array(ElemsOf(items, ""))
    case Obj(entries) => if entries == [] then EmptyObject("") else Object(MembersOf(entries, ""))
  }

  function ElemsOf(items: seq<Json>, lead: string): Elems
    requires items != [] && forall i :: 0 <= i < |items| ==> Printable(items[i])
    decreases items
  {
    var e := Elem(lead, DocOf(items[0]), "");
    if |items| == 1 then LastElem(e) else MoreElems(e, ElemsOf(items[1..], " "))
  }

  function MembersOf(entries: seq<Entry>, lead: string): Members
    requires entries != [] && forall i :: 0 <= i < |entries| ==> Printable(entries[i].value)
    decreases entries
  {
    var m := Member(lead, StringItems(entries[0].key, 0), "", Elem(" ", DocOf(entries[0].value), ""));
    if |entries| == 1 then LastMember(m) else MoreMembers(m, MembersOf(entries[1..], " "))
  }

  lemma LeafText(v: Json)
    requires Printable(v) && !v.Arr? && !v.Obj?
    ensures ValidDoc(DocOf(v)) && Text(DocOf(v)) == Dump(v) && DocDepth(DocOf(v)) == Depth(v)
  {
    hide IntNumber, DoubleNumber, StringItems, IntText, NumberText, CharsText, NumberMeaning, ValidNumber, ValidItems,
      D.IsDouble;
    match v
    case Int(n) => IntNumberMeaning(n);
    case Double(x) =>
      if D.IsFinite(x) { DoubleNumberText(x); }
    case NegativeZero => MinusZero();
    case Str(s) => StringItemsText(s, 0);
    case _ =>
  }

  lemma {:induction false} DocOfText(v: Json)
    requires Printable(v)
    ensures ValidDoc(DocOf(v)) && Text(DocOf(v)) == Dump(v) && DocDepth(DocOf(v)) == Depth(v)
    decreases v
  {
    hide DocOf, ValidDoc, Text, Dump, DocDepth, Depth;
    match v
    case Arr(items) => ArrayText(items);
    case Obj(entries) => ObjectText(entries);
    case _ => LeafText(v);
  }

  lemma {:induction false} ArrayText(items: seq<Json>)
    requires forall i :: 0 <= i < |items| ==> Printable(items[i])
    ensures var d := DocOf(Arr(items));
            ValidDoc(d) && Text(d) == Dump(Arr(items)) && DocDepth(d) == Depth(Arr(items))
    decreases items, 1
  {
    hide ElemsOf, ElemsText, ItemsDump, ValidElems, ElemsDepth, ItemsDepth, Printable;
    EmptyDumps();
    if items != [] {
      ElemsOfText(items, "");
    }
  }

  lemma {:induction false} ObjectText(entries: seq<Entry>)
    requires forall i :: 0 <= i < |entries| ==> Printable(entries[i].value)
    ensures var d := DocOf(Obj(entries));
            ValidDoc(d) && Text(d) == Dump(Obj(entries)) && DocDepth(d) == Depth(Obj(entries))
    decreases entries, 1
  {
    hide MembersOf, MembersText, EntriesDump, ValidMembers, MembersDepth, EntriesDepth, Printable;
    EmptyDumps();
    if entries != [] {
      MembersOfText(entries, "");
    }
  }

  lemma EmptyDumps()
    ensures ItemsDump([]) == "" && EntriesDump([]) == ""
  {
  }

  lemma ElemConcat(lead: string, d: string, r: string)
    ensures lead + d + "" + "" == lead + (d + "")
    ensures lead + d + "" + ("," + (" " + r)) == lead + (d + (", " + r))
  {
    assert "," + " " == ", ";
  }

  lemma {:induction false} ElemsOfText(items: seq<Json>, lead: string)
    requires items != [] && (forall i :: 0 <= i < |items| ==> Printable(items[i])) && Spaces(lead)
    ensures ValidElems(ElemsOf(items, lead)) && ElemsText(ElemsOf(items, lead)) == lead + ItemsDump(items)
    ensures ElemsDepth(ElemsOf(items, lead)) == ItemsDepth(items)
    decreases items, 0
  {
    hide DocOf, Text, Dump, ValidDoc, DocDepth, Depth, Printable;
    DocOfText(items[0]);
    ElemConcat(lead, Dump(items[0]), if |items| > 1 then ItemsDump(items[1..]) else "");
    if |items| > 1 {
      ElemsOfText(items[1..], " ");
    }
  }

  lemma MemberConcat(lead: string, k: string, d: string, r: string)
    ensures lead + k + ("" + ":") + (" " + d + "") == lead + (k + ": " + d)
    ensures lead + k + ("" + ":") + (" " + d + "") + ("," + (" " + r)) == lead + (k + ": " + d + (", " + r))
  {
    assert "" + ":" + " " == ": " && "," + " " == ", ";
  }

  lemma {:induction false} MembersOfText(entries: seq<Entry>, lead: string)
    requires entries != [] && (forall i :: 0 <= i < |entries| ==> Printable(entries[i].value)) && Spaces(lead)
    ensures ValidMembers(MembersOf(entries, lead))
    ensures MembersText(MembersOf(entries, lead)) == lead + EntriesDump(entries)
    ensures MembersDepth(MembersOf(entries, lead)) == EntriesDepth(entries)
    decreases entries, 0
  {
    hide DocOf, Text, Dump, ValidDoc, DocDepth, Depth, Printable, StringItems, CharsText;
    DocOfText(entries[0].value);
    StringItemsText(entries[0].key, 0);
    MemberConcat(lead, StringDump(entries[0].key), Dump(entries[0].value),
                 if |entries| > 1 then EntriesDump(entries[1..]) else "");
    if |entries| > 1 {
      MembersOfText(entries[1..], " ");
    }
  }

  // ---------- meanings ----------

  lemma {:induction false} InsertLast(data: seq<Entry>, key: string, value: Json)
    requires forall i :: 0 <= i < |data| ==> Before(data[i].key, key)
    ensures Insert(data, key, value) == data + [Entry(key, value)]
  {
    if data != [] {
      assert Before(data[0].key, key);
      if Before(key, data[0].key) {
        BeforeTransitive(key, data[0].key, key);
      }
      BeforeIrreflexive(key);
      InsertLast(data[1..], key, value);
      assert data == [data[0]] + data[1..];
    }
  }

  lemma DoubleMeaning(x: real)
    requires D.IsDouble(x)
    ensures ValidDoc(DocOf(Double(x))) && (Equal(Meaning(DocOf(Double(x))), Double(x)) <==> D.IsFinite(x))
  {
    hide D.IsDouble, D.IsFinite, DoubleNumber, NumberMeaning, NumberText, DoubleText, ValidNumber, ReadBack;
    if D.IsFinite(x) {
      DoubleNumberMeaning(x);
    }
  }

  lemma LeafMeaning(v: Json)
    requires Printable(v) && !v.Arr? && !v.Obj? && ValidDoc(DocOf(v))
    ensures Equal(Meaning(DocOf(v)), v) <==> Finite(v)
  {
    hide IntNumber, StringItems, NumberMeaning, ValidNumber, ValidItems, D.IsFinite, StringMeaning, DoubleNumber,
      D.IsDouble, NumberText;
    match v
    case Int(n) => IntNumberMeaning(n);
    case Double(x) => DoubleMeaning(x);
    case NegativeZero => MinusZero();
    case Str(s) =>
      StringItemsText(s, 0);
      assert s[0..] == s;
    case _ =>
  }

  lemma {:induction false} DocOfMeaning(v: Json)
    requires Printable(v) && WellFormed(v)
    ensures ValidDoc(DocOf(v)) && (Equal(Meaning(DocOf(v)), v) <==> Finite(v))
    decreases v
  {
    hide DocOf, Meaning, Equal, Finite, Text, Dump, Depth, DocDepth, ValidDoc, SortedKeys;
    DocOfText(v);
    match v
    case Arr(items) => ArrayMeaning(items);
    case Obj(entries) => ObjectMeaning(entries);
    case _ => LeafMeaning(v);
  }

  lemma {:induction false} ArrayMeaning(items: seq<Json>)
    requires forall i :: 0 <= i < |items| ==> Printable(items[i]) && WellFormed(items[i])
    requires ValidDoc(DocOf(Arr(items)))
    ensures Equal(Meaning(DocOf(Arr(items))), Arr(items)) <==> Finite(Arr(items))
    decreases items, 1
  {
    hide ElemsOf, ElemsMeaning, Printable, WellFormed, ValidElems;
    if items != [] {
      ElemsOfMeaning(items, "");
    }
  }

  lemma {:induction false} ObjectMeaning(entries: seq<Entry>)
    requires forall i :: 0 <= i < |entries| ==> Printable(entries[i].value) && WellFormed(entries[i].value)
    requires SortedKeys(entries) && ValidDoc(DocOf(Obj(entries)))
    ensures Equal(Meaning(DocOf(Obj(entries))), Obj(entries)) <==> Finite(Obj(entries))
    decreases entries, 1
  {
    hide MembersOf, MembersMeaning, Printable, WellFormed, SortedKeys, ValidMembers, Equal, Finite;
    if entries != [] {
      assert [] + entries == entries;
      MembersOfMeaning(entries, "", []);
      ObjectsEqual(MembersMeaning(MembersOf(entries, ""), []), entries);
    } else {
      ObjectsEqual([], []);
    }
  }

  lemma ObjectsEqual(ws: seq<Entry>, entries: seq<Entry>)
    requires |ws| == |entries|
    requires forall i :: 0 <= i < |entries| ==>
               ws[i].key == entries[i].key && (Equal(ws[i].value, entries[i].value) <==> Finite(entries[i].value))
    ensures Equal(Obj(ws), Obj(entries)) <==> Finite(Obj(entries))
  {
  }

  lemma {:induction false} ElemsOfMeaning(items: seq<Json>, lead: string)
    requires items != [] && (forall i :: 0 <= i < |items| ==> Printable(items[i]) && WellFormed(items[i]))
    requires ValidElems(ElemsOf(items, lead))
    ensures var ws := ElemsMeaning(ElemsOf(items, lead));
            |ws| == |items| && forall i :: 0 <= i < |items| ==> (Equal(ws[i], items[i]) <==> Finite(items[i]))
    decreases items, 0
  {
    hide DocOf, Meaning, Printable, WellFormed, ValidDoc, Equal, Finite;
    DocOfMeaning(items[0]);
    if |items| > 1 {
      ElemsOfMeaning(items[1..], " ");
    }
  }

  /** Read in key order, every member goes to the end of the map. */
  lemma {:induction false} MembersOfMeaning(entries: seq<Entry>, lead: string, data: seq<Entry>)
    requires entries != []
    requires forall i :: 0 <= i < |entries| ==> Printable(entries[i].value) && WellFormed(entries[i].value)
    requires SortedKeys(data + entries) && ValidMembers(MembersOf(entries, lead))
    ensures var ws := MembersMeaning(MembersOf(entries, lead), data);
            && |ws| == |data| + |entries| && ws[..|data|] == data
            && forall i :: 0 <= i < |entries| ==>
                 && ws[|data| + i].key == entries[i].key
                 && (Equal(ws[|data| + i].value, entries[i].value) <==> Finite(entries[i].value))
    decreases entries, 0
  {
    hide DocOf, Meaning, Printable, WellFormed, ValidDoc, Equal, Finite, StringItems, StringMeaning, Insert, Before,
      CharsText;
    var key := entries[0].key;
    var all := data + entries;
    DocOfMeaning(entries[0].value);
    StringItemsText(key, 0);
    assert key[0..] == key;
    forall i | 0 <= i < |data| ensures Before(data[i].key, key) {
      assert all[i] == data[i] && all[|data|] == entries[0];
    }
    var value := Meaning(DocOf(entries[0].value));
    InsertLast(data, key, value);
    if |entries| > 1 {
      var now := data + [Entry(key, value)];
      SortedReplace(data, entries, value);
      MembersOfMeaning(entries[1..], " ", now);
    }
  }

  lemma SortedReplace(data: seq<Entry>, entries: seq<Entry>, value: Json)
    requires entries != [] && SortedKeys(data + entries)
    ensures SortedKeys(data + [Entry(entries[0].key, value)] + entries[1..])
  {
    hide Before;
    var a := data + entries;
    var b := data + [Entry(entries[0].key, value)] + entries[1..];
    assert forall i :: 0 <= i < |b| ==> b[i].key == a[i].key;
  }

  /** The parser inverts the printer: on every value of nulls, booleans, ints, doubles, strings of
      arbitrary bytes, arrays and maps, in both modes. The only values that do not come back are those
      that hold an infinity, which is printed as null, and those nested too deep for the parser, which
      are refused. */
  lemma RoundTrip(v: Json, comments: bool)
    requires Printable(v) && WellFormed(v)
    ensures var o := Parse(Dump(v), comments);
            if Depth(v) <= MAX_DEPTH then o.Ok? && (Equal(o.value, v) <==> Finite(v)) else o == Fail(DepthExceeded)
  {
    hide Parse, Dump, Text, Meaning, DocOf, DocDepth, Depth, ValidDoc, Equal, WellFormed, Printable, Finite;
    DocOfText(v);
    DocOfMeaning(v);
    ParseComplete("", DocOf(v), "", comments);
    assert "" + Text(DocOf(v)) + "" == Dump(v);
  }
}
