/** What `json_pretty_print` makes of the dump of a value, whatever the value is: brackets, commas and
    colons between the rewritten strings. */
module PrettyValues {
  import opened JsonDump
  import opened JsonGrammar
  import opened JsonLexical
  import opened JsonNumerals
  import opened JsonRoundTrip
  import opened JsonValues
  import opened PrettyPrint
  import opened PrettyStrings

  // ---------- the flag, the damage, and what is left ----------

  /** The "inside quotes" flag behind the dump of `v` when it was `quoted` in front. */
  predicate FlagAfter(v: Json, quoted: bool)
    decreases v
  {
    match v
    case Str(s) => Closing(s, quoted)
    case Arr(items) => FlagAfterItems(items, quoted)
    case Obj(entries) => FlagAfterEntries(entries, quoted)
    case _ => quoted
  }

  predicate FlagAfterItems(items: seq<Json>, quoted: bool)
    decreases items
  {
    if items == [] then quoted else FlagAfterItems(items[1..], FlagAfter(items[0], quoted))
  }

  predicate FlagAfterEntries(entries: seq<Entry>, quoted: bool)
    decreases entries
  {
    if entries == [] then quoted
    else FlagAfterEntries(entries[1..], FlagAfter(entries[0].value, Closing(entries[0].key, quoted)))
  }

  /** The rewriting destroys the text: a line break lands inside a string, or the colon behind a
      key is taken for a part of a string and dropped. */
  predicate Broken(v: Json, quoted: bool)
    decreases v
  {
    match v
    case Str(s) => Splits(s, !quoted)
    case Arr(items) => BrokenItems(items, quoted)
    case Obj(entries) => BrokenEntries(entries, quoted)
    case _ => false
  }

  predicate BrokenItems(items: seq<Json>, quoted: bool)
    decreases items
  {
    items != [] && (Broken(items[0], quoted) || BrokenItems(items[1..], FlagAfter(items[0], quoted)))
  }

  predicate BrokenEntries(entries: seq<Entry>, quoted: bool)
    decreases entries
  {
    entries != []
    && (Splits(entries[0].key, !quoted) || Closing(entries[0].key, quoted) || Broken(entries[0].value, false)
        || BrokenEntries(entries[1..], FlagAfter(entries[0].value, false)))
  }

  /** The value that is read back when the text is not destroyed. */
  function Mangle(v: Json, quoted: bool): Json
    decreases v
  {
    match v
    case Int(n) => Reread(n)
    case Double(x) => ReadBack(x)
    case NegativeZero => Int(0)
    case Str(s) => Str(Squeeze(s, !quoted))
    case Arr(items) => Arr(MangleItems(items, quoted))
    case Obj(entries) => Obj(MangleEntries(entries, quoted, []))
    case _ => v
  }

  function Reread(n: int): Json {
    if |IntText(n)| <= INT_DIGITS then Int(n) else Double(n as real)
  }

  function MangleItems(items: seq<Json>, quoted: bool): seq<Json>
    decreases items
  {
    if items == [] then []
    else [Mangle(items[0], quoted)] + MangleItems(items[1..], FlagAfter(items[0], quoted))
  }

  function MangleEntries(entries: seq<Entry>, quoted: bool, data: seq<Entry>): seq<Entry>
    decreases entries
  {
    if entries == [] then data
    else
      MangleEntries(entries[1..], FlagAfter(entries[0].value, false),
                    Insert(data, Squeeze(entries[0].key, !quoted), Mangle(entries[0].value, false)))
  }

  // ---------- literals ----------

  predicate Normal(st: State) {
    !st.escaped && !st.first
  }

  lemma QuoteTurns(its: Items, st: State)
    requires Normal(st)
    ensures Rewrite(StringText(its), st)
         == "\"" + (Rewrite(ItemsText(its), st.(quoted := !st.quoted))
                    + Rewrite("\"", After(ItemsText(its), st.(quoted := !st.quoted))))
    ensures After(StringText(its), st) == After("\"", After(ItemsText(its), st.(quoted := !st.quoted)))
  {
    hide Rewrite, After, ItemsText;
    var inner := ItemsText(its);
    assert StringText(its) == "\"" + (inner + "\"");
    RewriteConcat("\"", inner + "\"", st);
    RewriteSingle('"', st);
    RewriteConcat(inner, "\"", st.(quoted := !st.quoted));
  }

  lemma StringDumpText(s: string)
    ensures ValidItems(StringItems(s, 0)) && StringDump(s) == StringText(StringItems(s, 0)) && s[0..] == s
  {
    StringItemsText(s, 0);
  }

  /** The literal of a string: its closing flag, and the filtered literal unless it is torn. */
  lemma RewriteString(s: string, st: State)
    requires Normal(st)
    ensures var r := After(StringDump(s), st);
            r == st.(indent := r.indent, quoted := Closing(s, st.quoted))
    ensures !Splits(s, !st.quoted) ==>
              Rewrite(StringDump(s), st) == StringText(Filter(StringItems(s, 0), !st.quoted))
  {
    hide StringItems, Filter, ItemsText, Rewrite, After, Inside, Splits, StringDump;
    var its, inner := StringItems(s, 0), st.(quoted := !st.quoted);
    StringDumpText(s);
    QuoteTurns(its, st);
    RewriteItems(its, inner);
    DumpedFlags(s, 0, inner.quoted);
    RewriteSingle('"', After(ItemsText(its), inner));
    NotInside(s, inner.quoted);
    if !Splits(s, inner.quoted) {
      assert Rewrite(StringDump(s), st) == "\"" + (ItemsText(Filter(its, inner.quoted)) + "\"");
    }
  }

  lemma NotInside(s: string, quoted: bool)
    ensures !Inside(s, quoted) ==> !quoted
  {
  }

  /** A torn literal: whole items, then a line break. */
  lemma TornString(s: string, st: State) returns (front: Items, tail: string)
    requires Normal(st) && Splits(s, !st.quoted)
    ensures ValidItems(front) && Rewrite(StringDump(s), st) == "\"" + (ItemsText(front) + "\n") + tail
  {
    hide StringItems, ItemsText, Rewrite, After, Inside, Splits, StringDump;
    var its, inner := StringItems(s, 0), st.(quoted := !st.quoted);
    StringDumpText(s);
    QuoteTurns(its, st);
    DumpedFlags(s, 0, inner.quoted);
    var back;
    front, back := TornItems(its, inner);
    tail := back + Rewrite("\"", After(ItemsText(its), inner));
  }

  /** A text without any special character. */
  lemma RewritePlain(t: string, st: State)
    requires t != "" && (forall k :: 0 <= k < |t| ==> Copied(t[k]) && t[k] != '\\') && Normal(st)
    ensures Rewrite(t, st) == t && After(t, st) == st
  {
    CopiesText(t, st);
  }

  lemma RewriteNumber(n: Number, st: State)
    requires Normal(st) && ValidNumber(n)
    ensures Rewrite(NumberText(n), st) == NumberText(n) && After(NumberText(n), st) == st
  {
    hide NumberText, Rewrite, After;
    NumberTextChars(n);
    RewritePlain(NumberText(n), st);
  }

  lemma RewriteInt(n: int, st: State)
    requires Normal(st) && FitsInt(n)
    ensures Rewrite(IntText(n), st) == IntText(n) && After(IntText(n), st) == st
  {
    hide IntText, IntNumber, NumberText, NumberMeaning, Rewrite, After;
    IntNumberMeaning(n);
    RewriteNumber(IntNumber(n), st);
  }

  lemma RewriteDouble(x: real, st: State)
    requires Normal(st) && D.IsDouble(x)
    ensures Rewrite(DoubleText(x), st) == DoubleText(x) && After(DoubleText(x), st) == st
  {
    hide DoubleNumber, D.IsDouble, NumberText, Rewrite, After;
    if D.IsFinite(x) {
      DoubleNumberText(x);
      RewriteNumber(DoubleNumber(x), st);
    } else {
      RewritePlain("null", st);
    }
  }

  // ---------- the state behind a dump ----------

  lemma {:induction false} AfterDump(v: Json, st: State)
    requires Printable(v) && Normal(st)
    ensures var r := After(Dump(v), st);
            r == st.(indent := r.indent, quoted := FlagAfter(v, st.quoted))
    decreases v, 1
  {
    hide After, Closing, IntText, DoubleText, D.IsDouble, StringDump, ItemsDump, EntriesDump;
    match v
    case Null => RewritePlain("null", st);
    case Bool(b) => RewritePlain(if b then "true" else "false", st);
    case Int(n) => RewriteInt(n, st);
    case Double(x) => RewriteDouble(x, st);
    case NegativeZero => RewritePlain("-0", st);
    case Str(s) => RewriteString(s, st);
    case Arr(items) =>
      var inner := st.(indent := Indent(st.indent));
      Brackets('[', ItemsDump(items), ']', st);
      AfterItems(items, inner);
      RewriteSingle(']', After(ItemsDump(items), inner));
    case Obj(entries) =>
      var inner := st.(indent := Indent(st.indent));
      Brackets('{', EntriesDump(entries), '}', st);
      AfterEntries(entries, inner);
      RewriteSingle('}', After(EntriesDump(entries), inner));
  }

  /** A bracketed text: a line break behind the opening bracket, one level deeper inside. */
  lemma Brackets(open: char, text: string, close: char, st: State)
    requires (open == '[' || open == '{') && Normal(st)
    ensures var inner := st.(indent := Indent(st.indent));
            && Rewrite([open] + text + [close], st)
               == [open] + NewLine(inner.indent, st.quoted) + Rewrite(text + [close], inner)
            && After([open] + text + [close], st) == After([close], After(text, inner))
  {
    var inner := st.(indent := Indent(st.indent));
    assert [open] + text + [close] == [open] + (text + [close]);
    RewriteConcat([open], text + [close], st);
    RewriteSingle(open, st);
    RewriteConcat(text, [close], inner);
  }

  /** The separators of the printer. */
  lemma Comma(st: State)
    requires Normal(st)
    ensures Rewrite(", ", st) == "," + Gap(st) && After(", ", st) == st
  {
    assert ", " == [','] + [' '];
    RewriteConcat([','], [' '], st);
    RewriteSingle(',', st);
    RewriteSingle(' ', st);
  }

  /** The whitespace in front of a later item. */
  function Gap(st: State): string {
    if st.quoted then " " else NewLine(st.indent, false)
  }

  lemma Colon(st: State)
    requires Normal(st)
    ensures Rewrite(": ", st) == (if st.quoted then " " else ": ") && After(": ", st) == st
  {
    assert ": " == [':'] + [' '];
    RewriteConcat([':'], [' '], st);
    RewriteSingle(':', st);
    RewriteSingle(' ', st);
  }

  lemma {:induction false} AfterItems(items: seq<Json>, st: State)
    requires (forall i :: 0 <= i < |items| ==> Printable(items[i])) && Normal(st)
    ensures var r := After(ItemsDump(items), st);
            r == st.(indent := r.indent, quoted := FlagAfterItems(items, st.quoted))
    decreases items, 0
  {
    hide Dump, FlagAfter, Printable;
    if items != [] {
      var next := After(Dump(items[0]), st);
      AfterDump(items[0], st);
      if |items| > 1 {
        RewriteConcat(Dump(items[0]), ", " + ItemsDump(items[1..]), st);
        RewriteConcat(", ", ItemsDump(items[1..]), next);
        Comma(next);
        AfterItems(items[1..], next);
      } else {
        assert Dump(items[0]) + "" == Dump(items[0]);
      }
    }
  }

  lemma {:induction false} AfterEntries(entries: seq<Entry>, st: State)
    requires (forall i :: 0 <= i < |entries| ==> Printable(entries[i].value)) && Normal(st)
    ensures var r := After(EntriesDump(entries), st);
            r == st.(indent := r.indent, quoted := FlagAfterEntries(entries, st.quoted))
    decreases entries, 0
  {
    hide Dump, FlagAfter, Printable, StringDump, Closing;
    if entries != [] {
      var k, d := StringDump(entries[0].key), Dump(entries[0].value);
      var mid := After(k, st);
      var next := After(d, mid);
      RewriteString(entries[0].key, st);
      AfterDump(entries[0].value, mid);
      EntryText(k, d, "", st);
      if |entries| > 1 {
        EntryText(k, d, ", " + EntriesDump(entries[1..]), st);
        RewriteConcat(", ", EntriesDump(entries[1..]), next);
        Comma(next);
        AfterEntries(entries[1..], next);
      }
    }
  }

  /** Key, colon, value and whatever follows. */
  lemma EntryText(k: string, d: string, rest: string, st: State)
    requires Normal(After(k, st))
    ensures var mid := After(k, st);
            && After(k + ": " + d + rest, st) == After(rest, After(d, mid))
            && Rewrite(k + ": " + d + rest, st)
               == Rewrite(k, st) + Rewrite(": ", mid) + Rewrite(d, mid) + Rewrite(rest, After(d, mid))
  {
    hide After, Rewrite;
    var mid := After(k, st);
    assert k + ": " + d + rest == k + (": " + (d + rest));
    RewriteConcat(k, ": " + (d + rest), st);
    RewriteConcat(": ", d + rest, mid);
    Colon(mid);
    RewriteConcat(d, rest, mid);
  }
}
