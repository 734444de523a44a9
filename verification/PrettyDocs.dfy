/** The rewritten dump is a JSON text again unless the rewriting destroys it; then no parser run
    gets through it. */
module PrettyDocs {
  import opened JsonDump
  import opened JsonGrammar
  import opened JsonNumerals
  import opened JsonRoundTrip
  import opened JsonValues
  import opened PrettyPrint
  import opened PrettyStrings
  import opened PrettyValues

  // ---------- the tree of the rewritten text ----------

  function PrettyDoc(v: Json, st: State): Doc
    requires Printable(v)
    decreases v
  {
    var inner := st.(indent := Indent(st.indent));
    match v
    case Str(s) => StringDoc(Filter(StringItems(s, 0), !st.quoted))
    case Arr(items) =>
      if items == [] then EmptyArray(Opening(st) + Ending(inner))
      else Array(PrettyElems(items, Opening(st), inner))
    case Obj(entries) =>
      if entries == [] then EmptyObject(Opening(st) + Ending(inner))
      else Object(PrettyMembers(entries, Opening(st), inner))
    case _ => DocOf(v)
  }

  /** The whitespace behind an opening bracket. */
  function Opening(st: State): string {
    NewLine(Indent(st.indent), st.quoted)
  }

  /** The whitespace in front of a closing bracket. */
  function Ending(st: State): string {
    NewLine(Dedent(st.indent), st.quoted)
  }

  function PrettyElems(items: seq<Json>, lead: string, st: State): Elems
    requires items != [] && forall i :: 0 <= i < |items| ==> Printable(items[i])
    decreases items
  {
    var d := PrettyDoc(items[0], st);
    var next := After(Dump(items[0]), st);
    if |items| == 1 then LastElem(Elem(lead, d, Ending(next)))
    else MoreElems(Elem(lead, d, ""), PrettyElems(items[1..], Gap(next), next))
  }

  function PrettyMembers(entries: seq<Entry>, lead: string, st: State): Members
    requires entries != [] && forall i :: 0 <= i < |entries| ==> Printable(entries[i].value)
    decreases entries
  {
    var key := Filter(StringItems(entries[0].key, 0), !st.quoted);
    var mid := After(StringDump(entries[0].key), st);
    var d := PrettyDoc(entries[0].value, mid);
    var next := After(Dump(entries[0].value), mid);
    if |entries| == 1 then LastMember(Member(lead, key, "", Elem(" ", d, Ending(next))))
    else MoreMembers(Member(lead, key, "", Elem(" ", d, "")), PrettyMembers(entries[1..], Gap(next), next))
  }

  lemma {:induction false} IndentationSpaces(level: nat)
    ensures Spaces(Indentation(level))
  {
    if level > 0 {
      IndentationSpaces(level - 1);
    }
  }

  lemma NewLineSpaces(level: nat, quoted: bool)
    ensures Spaces(NewLine(level, quoted))
  {
    IndentationSpaces(level);
  }

  /** The rewritten dump spells out a tree that is as deep as the value and means the mangled value. */
  ghost predicate Spells(v: Json, st: State)
    requires Printable(v) && Normal(st)
  {
    var d := PrettyDoc(v, st);
    && ValidDoc(d) && Rewrite(Dump(v), st) == Text(d) && DocDepth(d) == Depth(v)
    && Meaning(d) == Mangle(v, st.quoted)
  }

  lemma WordSpells(v: Json, st: State)
    requires Normal(st) && (v.Null? || v.Bool?)
    ensures Spells(v, st)
  {
    hide Rewrite;
    RewritePlain(Dump(v), st);
  }

  lemma IntSpells(n: int, st: State)
    requires Normal(st) && FitsInt(n)
    ensures Spells(Int(n), st)
  {
    hide Rewrite, IntNumber, IntText, NumberText, NumberMeaning, ValidNumber;
    RewriteInt(n, st);
    IntNumberMeaning(n);
  }

  lemma InfiniteText(x: real)
    requires !D.IsFinite(x)
    ensures DoubleText(x) == Text(NullDoc)
  {
  }

  lemma DoubleSpells(x: real, st: State)
    requires Normal(st) && D.IsDouble(x)
    ensures Spells(Double(x), st)
  {
    hide Rewrite, DoubleNumber, DoubleText, NumberText, NumberMeaning, ValidNumber, D.IsDouble, D.IsFinite;
    RewriteDouble(x, st);
    if D.IsFinite(x) {
      DoubleNumberMeaning(x);
    } else {
      InfiniteText(x);
    }
  }

  lemma MinusZeroSpells(st: State)
    requires Normal(st)
    ensures Spells(NegativeZero, st)
  {
    hide Rewrite, NumberText, NumberMeaning, ValidNumber;
    RewritePlain("-0", st);
    MinusZero();
  }

  lemma StringSpells(s: string, st: State)
    requires Normal(st) && !Splits(s, !st.quoted)
    ensures Spells(Str(s), st)
  {
    hide Rewrite, Filter, StringItems, StringDump, Squeeze, Splits, StringMeaning, ValidItems;
    RewriteString(s, st);
    DumpedMeaning(s, 0, !st.quoted);
    assert s[0..] == s;
  }

  /** Unless the rewriting breaks it. */
  lemma {:induction false} PrettyDocText(v: Json, st: State)
    requires Printable(v) && Normal(st) && !Broken(v, st.quoted)
    ensures Spells(v, st)
    decreases v, 1
  {
    hide Rewrite, PrettyDoc, Text, ValidDoc, DocDepth, Depth, Meaning, WellFormed;
    match v
    case Arr(items) => PrettyArrayText(items, st);
    case Obj(entries) => PrettyObjectText(entries, st);
    case Int(n) => IntSpells(n, st);
    case Double(x) => DoubleSpells(x, st);
    case NegativeZero => MinusZeroSpells(st);
    case Str(s) => StringSpells(s, st);
    case _ => WordSpells(v, st);
  }

  lemma EmptyBrackets(open: char, close: char, st: State)
    requires (open == '[' && close == ']') || (open == '{' && close == '}')
    requires Normal(st)
    ensures var inner := st.(indent := Indent(st.indent));
            Rewrite([open] + "" + [close], st) == [open] + (Opening(st) + Ending(inner)) + [close]
    ensures var inner := st.(indent := Indent(st.indent));
            Spaces(Opening(st) + Ending(inner))
  {
    hide Rewrite, After, NewLine, Indent, Dedent, Spaces;
    var inner := st.(indent := Indent(st.indent));
    Brackets(open, "", close, st);
    assert "" + [close] == [close];
    RewriteSingle(close, inner);
    NewLineSpaces(Indent(st.indent), st.quoted);
    NewLineSpaces(Dedent(inner.indent), st.quoted);
    SpacesConcat(Opening(st), Ending(inner));
    assert [open] + Opening(st) + (Ending(inner) + [close]) == [open] + (Opening(st) + Ending(inner)) + [close];
  }

  lemma SpacesConcat(a: string, b: string)
    ensures Spaces(a) && Spaces(b) ==> Spaces(a + b)
    ensures Spaces("") && Spaces(" ")
  {
  }

  lemma {:induction false} PrettyArrayText(items: seq<Json>, st: State)
    requires (forall i :: 0 <= i < |items| ==> Printable(items[i])) && Normal(st) && !BrokenItems(items, st.quoted)
    ensures var d := PrettyDoc(Arr(items), st);
            && ValidDoc(d) && Rewrite("[" + ItemsDump(items) + "]", st) == Text(d)
            && DocDepth(d) == Depth(Arr(items)) && Meaning(d) == Arr(MangleItems(items, st.quoted))
    decreases items, 2
  {
    hide Rewrite, After, NewLine, Indent, Dedent, PrettyElems, ElemsText, ValidElems, ElemsMeaning;
    var inner := st.(indent := Indent(st.indent));
    if items == [] {
      EmptyBrackets('[', ']', st);
    } else {
      Brackets('[', ItemsDump(items), ']', st);
      NewLineSpaces(Indent(st.indent), st.quoted);
      PrettyElemsText(items, Opening(st), inner);
      assert "[" + Opening(st) + Rewrite(ItemsDump(items) + "]", inner)
          == "[" + (Opening(st) + Rewrite(ItemsDump(items) + "]", inner));
      assert Text(PrettyDoc(Arr(items), st)) == "[" + (ElemsText(PrettyElems(items, Opening(st), inner)) + "]");
    }
  }

  lemma RewriteMoreItems(items: seq<Json>, lead: string, st: State, next: State)
    requires |items| > 1 && forall i :: 0 <= i < |items| ==> Printable(items[i])
    requires next == After(Dump(items[0]), st) && Normal(next)
    ensures lead + Rewrite(ItemsDump(items) + "]", st)
         == lead + Rewrite(Dump(items[0]), st) + "" + ("," + (Gap(next) + Rewrite(ItemsDump(items[1..]) + "]", next)))
  {
    hide Rewrite, After, Dump, Printable, Gap;
    var t, rest := Dump(items[0]), ItemsDump(items[1..]) + "]";
    assert ItemsDump(items) + "]" == t + (", " + rest);
    RewriteConcat(t, ", " + rest, st);
    RewriteConcat(", ", rest, next);
    Comma(next);
    assert lead + (Rewrite(t, st) + ("," + Gap(next) + Rewrite(rest, next)))
        == lead + Rewrite(t, st) + "" + ("," + (Gap(next) + Rewrite(rest, next)));
  }

  lemma {:induction false} PrettyElemsText(items: seq<Json>, lead: string, st: State)
    requires items != [] && (forall i :: 0 <= i < |items| ==> Printable(items[i])) && Normal(st)
    requires !BrokenItems(items, st.quoted) && Spaces(lead)
    ensures var es := PrettyElems(items, lead, st);
            && ValidElems(es) && lead + Rewrite(ItemsDump(items) + "]", st) == ElemsText(es) + "]"
            && ElemsDepth(es) == ItemsDepth(items) && ElemsMeaning(es) == MangleItems(items, st.quoted)
    decreases items, 0
  {
    hide Rewrite, After, NewLine, Dump, Printable, PrettyDoc, ValidDoc, Text, DocDepth, Depth, Meaning, Mangle, Broken,
      FlagAfter, Dedent, Ending, Gap;
    var t := Dump(items[0]);
    var next := After(t, st);
    PrettyDocText(items[0], st);
    AfterDump(items[0], st);
    if |items| > 1 {
      RewriteMoreItems(items, lead, st, next);
      GapSpaces(next);
      PrettyElemsText(items[1..], Gap(next), next);
    } else {
      assert ItemsDump(items) + "]" == t + "]";
      RewriteConcat(t, "]", st);
      Closed(']', next);
    }
  }

  lemma GapSpaces(st: State)
    ensures Spaces(Gap(st))
  {
    NewLineSpaces(st.indent, false);
  }

  lemma Closed(c: char, st: State)
    requires c == ']' || c == '}'
    ensures Rewrite([c], st) == Ending(st) + [c] && Spaces(Ending(st))
  {
    hide NewLine;
    RewriteSingle(c, st);
    NewLineSpaces(Dedent(st.indent), st.quoted);
  }

  lemma {:induction false} PrettyObjectText(entries: seq<Entry>, st: State)
    requires (forall i :: 0 <= i < |entries| ==> Printable(entries[i].value)) && Normal(st)
    requires !BrokenEntries(entries, st.quoted)
    ensures var d := PrettyDoc(Obj(entries), st);
            && ValidDoc(d) && Rewrite("{" + EntriesDump(entries) + "}", st) == Text(d)
            && DocDepth(d) == Depth(Obj(entries)) && Meaning(d) == Obj(MangleEntries(entries, st.quoted, []))
    decreases entries, 2
  {
    hide Rewrite, After, NewLine, Indent, Dedent, PrettyMembers, MembersText, ValidMembers, MembersMeaning;
    var inner := st.(indent := Indent(st.indent));
    if entries == [] {
      EmptyBrackets('{', '}', st);
    } else {
      Brackets('{', EntriesDump(entries), '}', st);
      NewLineSpaces(Indent(st.indent), st.quoted);
      PrettyMembersText(entries, Opening(st), inner, []);
      assert "{" + Opening(st) + Rewrite(EntriesDump(entries) + "}", inner)
          == "{" + (Opening(st) + Rewrite(EntriesDump(entries) + "}", inner));
      assert Text(PrettyDoc(Obj(entries), st)) == "{" + (MembersText(PrettyMembers(entries, Opening(st), inner)) + "}");
    }
  }

  /** The members spell out the rewritten entries and mean the mangled ones. */
  ghost predicate MembersSpelled(ms: Members, entries: seq<Entry>, lead: string, st: State, data: seq<Entry>)
    requires forall i :: 0 <= i < |entries| ==> Printable(entries[i].value)
  {
    && ValidMembers(ms) && lead + Rewrite(EntriesDump(entries) + "}", st) == MembersText(ms) + "}"
    && MembersDepth(ms) == EntriesDepth(entries)
    && MembersMeaning(ms, data) == MangleEntries(entries, st.quoted, data)
  }

  /** One entry, up to the state behind its value. */
  lemma {:induction false} PrettyEntry(key: string, value: Json, st: State)
    requires Printable(value) && Normal(st)
    requires !Splits(key, !st.quoted) && !Closing(key, st.quoted) && !Broken(value, false)
    ensures var mid := After(StringDump(key), st);
            var next := After(Dump(value), mid);
            && Normal(mid) && !mid.quoted && Normal(next) && next.quoted == FlagAfter(value, false)
            && Rewrite(StringDump(key), st) == StringText(Filter(StringItems(key, 0), !st.quoted))
            && ValidItems(Filter(StringItems(key, 0), !st.quoted)) && Rewrite(": ", mid) == ": "
            && StringMeaning(Filter(StringItems(key, 0), !st.quoted)) == Squeeze(key, !st.quoted)
            && ValidDoc(PrettyDoc(value, mid)) && Rewrite(Dump(value), mid) == Text(PrettyDoc(value, mid))
            && DocDepth(PrettyDoc(value, mid)) == Depth(value) && Meaning(PrettyDoc(value, mid)) == Mangle(value, false)
    decreases value, 2
  {
    hide Rewrite, After, Dump, StringDump, Printable, PrettyDoc, ValidDoc, Text, DocDepth, Depth, Meaning, Mangle, Broken,
      FlagAfter, Splits, Squeeze, Closing, StringItems, Filter, StringMeaning, StringText;
    var mid := After(StringDump(key), st);
    RewriteString(key, st);
    DumpedMeaning(key, 0, !st.quoted);
    assert key[0..] == key;
    Colon(mid);
    PrettyDocText(value, mid);
    AfterDump(value, mid);
  }

  lemma {:induction false} PrettyMembersText(entries: seq<Entry>, lead: string, st: State, data: seq<Entry>)
    requires entries != [] && (forall i :: 0 <= i < |entries| ==> Printable(entries[i].value)) && Normal(st)
    requires !BrokenEntries(entries, st.quoted) && Spaces(lead)
    ensures MembersSpelled(PrettyMembers(entries, lead, st), entries, lead, st, data)
    decreases entries, 1
  {
    hide Rewrite, After, Dump, StringDump, Printable, Broken, Gap, Splits, Closing, Spaces, PrettyMembers, MembersSpelled;
    if |entries| > 1 {
      var next := After(Dump(entries[0].value), After(StringDump(entries[0].key), st));
      PrettyEntry(entries[0].key, entries[0].value, st);
      GapSpaces(next);
      PrettyMembersText(entries[1..], Gap(next), next,
                        Insert(data, Squeeze(entries[0].key, !st.quoted), Mangle(entries[0].value, false)));
      PrettyMoreMembers(entries, lead, st, data);
    } else {
      PrettyLastMember(entries, lead, st, data);
    }
  }

  /** A member in front of others that are spelled out. */
  lemma {:induction false} PrettyMoreMembers(entries: seq<Entry>, lead: string, st: State, data: seq<Entry>)
    requires |entries| > 1 && (forall i :: 0 <= i < |entries| ==> Printable(entries[i].value)) && Normal(st)
    requires !BrokenEntries(entries, st.quoted) && Spaces(lead)
    requires var next := After(Dump(entries[0].value), After(StringDump(entries[0].key), st));
             MembersSpelled(PrettyMembers(entries[1..], Gap(next), next), entries[1..], Gap(next), next,
                            Insert(data, Squeeze(entries[0].key, !st.quoted), Mangle(entries[0].value, false)))
    ensures MembersSpelled(PrettyMembers(entries, lead, st), entries, lead, st, data)
    decreases entries, 0
  {
    hide Rewrite, After, NewLine, Dump, StringDump, Printable, PrettyDoc, ValidDoc, Text, DocDepth, Depth, Meaning,
      Mangle, Broken, FlagAfter, Dedent, Ending, Gap, Splits, Squeeze, Closing, StringItems, Filter, StringMeaning, Insert,
      StringText, Spaces;
    var k, d := StringDump(entries[0].key), Dump(entries[0].value);
    var mid := After(k, st);
    var next := After(d, mid);
    PrettyEntry(entries[0].key, entries[0].value, st);
    var rest := EntriesDump(entries[1..]) + "}";
    assert EntriesDump(entries) + "}" == k + ": " + d + (", " + rest);
    EntryText(k, d, ", " + rest, st);
    RewriteConcat(", ", rest, next);
    Comma(next);
    SpacesConcat("", "");
    PrettyMemberConcat(lead, Rewrite(k, st), Rewrite(d, mid), "", "," + Gap(next) + Rewrite(rest, next));
    var ms, tail := PrettyMembers(entries, lead, st), PrettyMembers(entries[1..], Gap(next), next);
    MoreConcat(lead + Rewrite(k, st) + ("" + ":") + (" " + Rewrite(d, mid) + ""), Gap(next), Rewrite(rest, next),
               MembersText(tail), "}");
    assert MembersText(ms) + "}" == lead + Rewrite(EntriesDump(entries) + "}", st);
    assert ValidMembers(ms);
    assert MembersDepth(ms) == EntriesDepth(entries);
    assert MembersMeaning(ms, data) == MangleEntries(entries, st.quoted, data);
  }

  lemma {:induction false} PrettyLastMember(entries: seq<Entry>, lead: string, st: State, data: seq<Entry>)
    requires |entries| == 1 && Printable(entries[0].value) && Normal(st)
    requires !BrokenEntries(entries, st.quoted) && Spaces(lead)
    ensures MembersSpelled(PrettyMembers(entries, lead, st), entries, lead, st, data)
    decreases entries, 0
  {
    hide Rewrite, After, NewLine, Dump, StringDump, Printable, PrettyDoc, ValidDoc, Text, DocDepth, Depth, Meaning,
      Mangle, Broken, FlagAfter, Dedent, Ending, Splits, Squeeze, Closing, StringItems, Filter, StringMeaning, Insert,
      StringText, Spaces;
    var k, d := StringDump(entries[0].key), Dump(entries[0].value);
    var mid := After(k, st);
    var next := After(d, mid);
    PrettyEntry(entries[0].key, entries[0].value, st);
    assert EntriesDump(entries) + "}" == k + ": " + d + "}";
    EntryText(k, d, "}", st);
    Closed('}', next);
    SpacesConcat("", "");
    PrettyMemberConcat(lead, Rewrite(k, st), Rewrite(d, mid), Ending(next), "}");
    var ms := PrettyMembers(entries, lead, st);
    var first := lead + Rewrite(k, st) + ("" + ":") + (" " + Rewrite(d, mid) + Ending(next));
    assert first + "" == first;
    assert MembersText(ms) + "}" == lead + Rewrite(EntriesDump(entries) + "}", st);
    assert ValidMembers(ms);
    assert MembersDepth(ms) == EntriesDepth(entries);
    assert MembersMeaning(ms, data) == MangleEntries(entries, st.quoted, data);
  }

  lemma MoreConcat(first: string, gap: string, later: string, members: string, close: string)
    requires gap + later == members + close
    ensures first + ("," + gap + later) == first + ("," + members) + close
  {
    assert "," + gap + later == "," + (gap + later);
    assert "," + (members + close) == "," + members + close;
  }

  lemma PrettyMemberConcat(lead: string, k: string, d: string, trail: string, rest: string)
    ensures lead + (k + ": " + d + (trail + rest)) == lead + k + ("" + ":") + (" " + d + trail) + rest
  {
    assert "" + ":" + " " == ": ";
  }
}
