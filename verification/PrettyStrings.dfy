/** What `json_pretty_print` does to the string literals of a dump. The rewriting keeps one flag for
    "inside quotes", which a literal that ends in a backslash leaves inverted. Inside quotes a
    literal loses its colons; outside, where the inverted flag puts it, it loses its blanks, gains a
    blank behind every colon, and is torn by brackets and commas. */
module PrettyStrings {
  import opened JsonDump
  import opened JsonGrammar
  import opened JsonLexical
  import opened JsonRoundTrip
  import opened PrettyPrint
  import opened Utf8

  // ---------- on the bytes of a string ----------

  predicate IsBracketOrComma(c: char) {
    c == '{' || c == '[' || c == '}' || c == ']' || c == ','
  }

  /** What is left of one byte of a string when the flag says `quoted`. */
  function SqueezeChar(c: char, quoted: bool): string {
    if c == ':' then (if quoted then "" else ": ")
    else if c == ' ' && !quoted then ""
    else [c]
  }

  /** What is left of a string. Inside quotes every colon is dropped; with the flag inverted, up to
      the first quotation mark, spaces are dropped and colons get a space. */
  function Squeeze(s: string, quoted: bool): string {
    if s == "" then "" else SqueezeChar(s[0], quoted) + Squeeze(s[1..], quoted || s[0] == '"')
  }

  /** A line break is written into the string. */
  predicate Splits(s: string, quoted: bool) {
    s != "" && !quoted && (IsBracketOrComma(s[0]) || Splits(s[1..], s[0] == '"'))
  }

  /** The flag in front of the closing quotation mark. */
  predicate Inside(s: string, quoted: bool) {
    quoted || '"' in s
  }

  predicate EndsInBackslash(s: string) {
    s != "" && s[|s| - 1] == '\\'
  }

  /** The flag behind the literal of `s`, when it was `quoted` in front of it. */
  predicate Closing(s: string, quoted: bool) {
    if Inside(s, !quoted) then EndsInBackslash(s) else true
  }

  // ---------- on the items of a literal ----------

  predicate ItemSplits(it: Item, quoted: bool) {
    !quoted && it.Plain? && IsBracketOrComma(it.c)
  }

  function FilterItem(it: Item, quoted: bool, rest: Items): Items {
    if it.Plain? && it.c == ':' then
      if quoted then rest else Then(it, Then(Plain(' '), rest))
    else if it.Plain? && it.c == ' ' && !quoted then rest
    else Then(it, rest)
  }

  predicate ItemInside(it: Item, quoted: bool) {
    quoted || it == Escape('"')
  }

  function Filter(its: Items, quoted: bool): Items {
    if its.End? then End else FilterItem(its.head, quoted, Filter(its.rest, ItemInside(its.head, quoted)))
  }

  predicate ItemsSplit(its: Items, quoted: bool) {
    its.Then? && (ItemSplits(its.head, quoted) || ItemsSplit(its.rest, ItemInside(its.head, quoted)))
  }

  predicate ItemsInside(its: Items, quoted: bool) {
    if its.End? then quoted else ItemsInside(its.rest, ItemInside(its.head, quoted))
  }

  /** The rewriting stands behind a backslash that the items wrote last. */
  predicate ItemsEscaped(its: Items, before: bool) {
    if its.End? then before else ItemsEscaped(its.rest, its.head == Escape('\\'))
  }

  // ---------- the rewriting of a literal ----------

  /** Characters that the rewriting copies in any state. */
  predicate Copied(c: char) {
    !IsBracketOrComma(c) && c != '"' && c != ' ' && c != '\n' && c != '\r' && c != '\t' && c != ':'
  }

  lemma {:induction false} CopiesText(t: string, st: State)
    requires forall k :: 0 <= k < |t| ==> Copied(t[k])
    requires !st.first
    ensures Rewrite(t, st) == t
    ensures After(t, st) == if t == "" then st else st.(escaped := t[|t| - 1] == '\\')
  {
    if t != "" {
      CopiesText(t[1..], Turn(st, t[0]).1);
      assert [t[0]] + t[1..] == t;
    }
  }

  /** What the rewriting does to one item: unchanged, dropped or followed by a space, or torn by a
      line break. */
  ghost predicate ItemRewritten(it: Item, st: State) {
    var r, text := After(ItemText(it), st), Rewrite(ItemText(it), st);
    && r == st.(indent := r.indent, quoted := ItemInside(it, st.quoted), escaped := it == Escape('\\'))
    && (!ItemSplits(it, st.quoted) ==> text == ItemsText(FilterItem(it, st.quoted, End)))
    && (ItemSplits(it, st.quoted) ==> exists head: string, tail: string :: Torn(it, text, head, tail))
  }

  predicate Torn(it: Item, text: string, head: string, tail: string) {
    it.Plain? && (head == "" || head == [it.c]) && text == head + "\n" + tail
  }

  lemma RewriteItem(it: Item, st: State)
    requires ValidItem(it) && !st.first
    ensures ItemRewritten(it, st)
  {
    hide ItemRewritten, Copied;
    match it
    case Plain(c) => RewritePlainItem(c, st);
    case Escape(c) => RewriteEscapeItem(c, st);
    case Unicode(h) => RewriteUnicodeItem(h, st);
  }

  lemma RewritePlainItem(c: char, st: State)
    requires ValidItem(Plain(c)) && !st.first
    ensures ItemRewritten(Plain(c), st)
  {
    hide Rewrite, After, Indentation;
    var it := Plain(c);
    RewriteSingle(c, st);
    if ItemSplits(it, st.quoted) {
      if c == '}' || c == ']' {
        var tail := Indentation(Dedent(st.indent)) + [c];
        assert Rewrite([c], st) == "" + "\n" + tail;
        assert Torn(it, Rewrite([c], st), "", tail);
      } else {
        var level := if c == ',' then st.indent else Indent(st.indent);
        assert Rewrite([c], st) == [c] + "\n" + Indentation(level);
        assert Torn(it, Rewrite([c], st), [c], Indentation(level));
      }
    } else {
      assert ItemsText(Then(it, End)) == [c];
      assert ItemsText(Then(it, Then(Plain(' '), End))) == [c, ' '];
    }
  }

  lemma RewriteEscapeItem(c: char, st: State)
    requires ValidItem(Escape(c)) && !st.first
    ensures ItemRewritten(Escape(c), st)
  {
    hide Rewrite, After, Indentation, NewLine;
    assert ItemText(Escape(c)) == ['\\'] + [c];
    RewriteConcat(['\\'], [c], st);
    RewriteSingle('\\', st);
    RewriteSingle(c, Turn(st, '\\').1);
    assert ItemsText(Then(Escape(c), End)) == ['\\', c];
  }

  lemma RewriteUnicodeItem(h: string, st: State)
    requires ValidItem(Unicode(h)) && !st.first
    ensures ItemRewritten(Unicode(h), st)
  {
    hide Rewrite, After;
    CopiesHex(h, st);
    assert ItemsText(Then(Unicode(h), End)) == ItemText(Unicode(h));
  }

  lemma CopiesHex(h: string, st: State)
    requires IsHex4(h) && !st.first
    ensures Rewrite("\\u" + h, st) == "\\u" + h && After("\\u" + h, st) == st.(escaped := false)
  {
    var t := "\\u" + h;
    assert forall k :: 0 <= k < 4 ==> t[2 + k] == h[k] && 0 <= HexDigit(h[k]);
    CopiesText(t, st);
  }

  lemma {:induction false} RewriteItems(its: Items, st: State)
    requires ValidItems(its) && !st.first
    ensures var r := After(ItemsText(its), st);
            r == st.(indent := r.indent, quoted := ItemsInside(its, st.quoted), escaped := ItemsEscaped(its, st.escaped))
    ensures !ItemsSplit(its, st.quoted) ==> Rewrite(ItemsText(its), st) == ItemsText(Filter(its, st.quoted))
    decreases its
  {
    hide ItemText, ItemSplits, ItemInside, After, Rewrite;
    if its.Then? {
      var next := After(ItemText(its.head), st);
      RewriteItem(its.head, st);
      RewriteConcat(ItemText(its.head), ItemsText(its.rest), st);
      RewriteItems(its.rest, next);
      FilterText(its.head, st.quoted, Filter(its.rest, next.quoted));
    } else {
      NothingRewritten(st);
    }
  }

  lemma NothingRewritten(st: State)
    ensures Rewrite("", st) == "" && After("", st) == st
  {
  }

  lemma ThenText(it: Item, rest: Items)
    ensures ItemsText(Then(it, rest)) == ItemText(it) + ItemsText(rest) && ItemsText(End) == ""
  {
  }

  lemma FilterText(it: Item, quoted: bool, rest: Items)
    ensures ItemsText(FilterItem(it, quoted, rest)) == ItemsText(FilterItem(it, quoted, End)) + ItemsText(rest)
  {
    hide ItemText;
    ThenText(it, rest);
    ThenText(it, End);
    if it == Plain(':') && !quoted {
      var space := Plain(' ');
      ThenText(space, rest);
      ThenText(space, End);
      ThenText(it, Then(space, rest));
      ThenText(it, Then(space, End));
    }
  }

  /** The part of a torn literal in front of the line break is made of items again. */
  lemma {:induction false} TornItems(its: Items, st: State) returns (front: Items, tail: string)
    requires ValidItems(its) && !st.first && ItemsSplit(its, st.quoted)
    ensures ValidItems(front) && Rewrite(ItemsText(its), st) == ItemsText(front) + "\n" + tail
    decreases its
  {
    hide After, Rewrite, ItemInside, ItemText;
    var next := After(ItemText(its.head), st);
    RewriteItem(its.head, st);
    RewriteConcat(ItemText(its.head), ItemsText(its.rest), st);
    var later := Rewrite(ItemsText(its.rest), next);
    if ItemSplits(its.head, st.quoted) {
      var head: string, back: string :| Torn(its.head, Rewrite(ItemText(its.head), st), head, back);
      front := if head == "" then End else Then(its.head, End);
      tail := back + later;
      PlainText(its.head);
      assert ItemsText(front) == head;
      assert head + "\n" + back + later == head + "\n" + (back + later);
    } else {
      var rest;
      rest, tail := TornItems(its.rest, next);
      front := FilterItem(its.head, st.quoted, rest);
      FilterText(its.head, st.quoted, rest);
    }
  }

  lemma PlainText(it: Item)
    requires it.Plain?
    ensures ItemsText(Then(it, End)) == [it.c] && ItemsText(End) == ""
  {
    assert ItemsText(Then(it, End)) == [it.c] + "";
  }

  // ---------- items and bytes ----------

  /** Bytes that the rewriting of a string never touches. */
  predicate Untouched(c: char) {
    c != ':' && c != ' ' && c != '"' && !IsBracketOrComma(c)
  }

  lemma UntouchedChar(c: char, rest: string, quoted: bool)
    requires Untouched(c)
    ensures Squeeze([c] + rest, quoted) == [c] + Squeeze(rest, quoted)
    ensures Splits([c] + rest, quoted) == Splits(rest, quoted)
    ensures Inside([c] + rest, quoted) == Inside(rest, quoted)
  {
    hide IsBracketOrComma;
    assert ([c] + rest)[0] == c && ([c] + rest)[1..] == rest;
  }

  lemma {:induction false} UntouchedPrefix(t: string, rest: string, quoted: bool)
    requires forall k :: 0 <= k < |t| ==> Untouched(t[k])
    ensures Squeeze(t + rest, quoted) == t + Squeeze(rest, quoted)
    ensures Splits(t + rest, quoted) == Splits(rest, quoted)
    ensures Inside(t + rest, quoted) == Inside(rest, quoted)
  {
    hide Untouched, Squeeze, Splits, Inside;
    if t == "" {
      assert t + rest == rest;
    } else {
      assert t + rest == [t[0]] + (t[1..] + rest);
      UntouchedChar(t[0], t[1..] + rest, quoted);
      UntouchedPrefix(t[1..], rest, quoted);
    }
  }

  /** One byte that is printed alone. */
  lemma ByteStep(s: string, i: nat, quoted: bool)
    requires i < |s|
    ensures var c, q := s[i], quoted || s[i] == '"';
            && Squeeze(s[i..], quoted) == SqueezeChar(c, quoted) + Squeeze(s[i + 1..], q)
            && Splits(s[i..], quoted) == (!quoted && (IsBracketOrComma(c) || Splits(s[i + 1..], q)))
            && Inside(s[i..], quoted) == Inside(s[i + 1..], q)
  {
    assert s[i..][0] == s[i] && s[i..][1..] == s[i + 1..];
  }

  /** A byte that is printed as an item of its own, or a separator of three bytes. */
  lemma CharItemShape(s: string, i: nat)
    requires i < |s|
    ensures var it := CharItem(s, i);
            if CharText(s, i).1 == 1 then
              (it == Plain(s[i]) || (!it.Plain? && Untouched(s[i])) || (it == Escape('"') && s[i] == '"'))
              && (it == Escape('"') <==> s[i] == '"') && (it == Escape('\\') <==> s[i] == '\\')
            else it.Unicode? && forall k :: i <= k < i + 3 ==> Untouched(s[k])
    ensures CharText(s, i).1 == 3 ==> s[i + 2] != '\\'
  {
  }

  /** What is left of the bytes that an item stands for. */
  function ItemLeft(it: Item, quoted: bool): string
    requires ValidItem(it)
  {
    match ItemUnit(it)
    case Char(c) => if it.Plain? then SqueezeChar(c, quoted) else [c]
    case Code(u) => Encode(u)
  }

  lemma UnitsOfFilter(it: Item, quoted: bool, rest: Items)
    requires ValidItem(it) && ValidItems(rest)
    requires ItemUnit(it).Code? ==> !IsHigh(ItemUnit(it).u)
    ensures ValidItems(FilterItem(it, quoted, rest))
    ensures StringMeaning(FilterItem(it, quoted, rest))
         == ItemLeft(it, quoted) + StringMeaning(rest)
  {
    hide Encode, HexValue;
    if it == Plain(':') && !quoted {
      var spaced := Then(Plain(' '), rest);
      assert StringMeaning(spaced) == [' '] + StringMeaning(rest);
      assert StringMeaning(Then(it, spaced)) == [':'] + StringMeaning(spaced);
      assert [':'] + ([' '] + StringMeaning(rest)) == ": " + StringMeaning(rest);
    }
  }

  /** The flags of the items of a dumped string are those of its bytes. */
  lemma {:induction false} DumpedFlags(s: string, i: nat, quoted: bool)
    requires i <= |s|
    ensures ItemsSplit(StringItems(s, i), quoted) == Splits(s[i..], quoted)
    ensures ItemsInside(StringItems(s, i), quoted) == Inside(s[i..], quoted)
    ensures ItemsEscaped(StringItems(s, i), false) == (i < |s| && EndsInBackslash(s))
    decreases |s| - i
  {
    hide CharItem, CharText, Splits, Inside, ValidItem, ItemLeft, ItemSplits, ItemInside, EndsInBackslash, Squeeze;
    if i < |s| {
      var it, k := CharItem(s, i), CharText(s, i).1;
      var inside := ItemInside(it, quoted);
      DumpedFlags(s, i + k, inside);
      DumpedItem(s, i, quoted);
    } else {
      NoItems(s, quoted);
    }
  }

  /** What the filter leaves of the items of a dumped string means what is left of the string. */
  lemma {:induction false} DumpedMeaning(s: string, i: nat, quoted: bool)
    requires i <= |s|
    ensures var kept := Filter(StringItems(s, i), quoted);
            ValidItems(kept) && StringMeaning(kept) == Squeeze(s[i..], quoted)
    decreases |s| - i
  {
    hide CharItem, CharText, Splits, Inside, ItemLeft, ItemInside, Squeeze, StringMeaning, FilterItem, Encode;
    if i < |s| {
      var it, k := CharItem(s, i), CharText(s, i).1;
      var inside := ItemInside(it, quoted);
      DumpedMeaning(s, i + k, inside);
      DumpedItem(s, i, quoted);
      CharItemUnit(s, i);
      UnitsOfFilter(it, quoted, Filter(StringItems(s, i + k), inside));
    } else {
      NoItems(s, quoted);
    }
  }

  lemma NoItems(s: string, quoted: bool)
    ensures s[|s|..] == "" && !Splits("", quoted) && Inside("", quoted) == quoted && Squeeze("", quoted) == ""
    ensures StringMeaning(End) == ""
  {
  }

  /** One dumped character on its way through the rewriting, inside or outside a string. */
  lemma DumpedItem(s: string, i: nat, quoted: bool)
    requires i < |s|
    ensures ValidItem(CharItem(s, i))
    ensures var it, k := CharItem(s, i), CharText(s, i).1;
            var rest := s[i + k..];
            var inside := ItemInside(it, quoted);
            && Splits(s[i..], quoted) == (ItemSplits(it, quoted) || Splits(rest, inside))
            && Inside(s[i..], quoted) == Inside(rest, inside)
            && (i + k == |s| ==> EndsInBackslash(s) == (it == Escape('\\')))
            && Squeeze(s[i..], quoted)
               == ItemLeft(it, quoted) + Squeeze(rest, inside)
  {
    hide CharItem, CharText, Encode, Squeeze, Splits, Inside;
    var it, k := CharItem(s, i), CharText(s, i).1;
    CharItemShape(s, i);
    CharItemUnit(s, i);
    if k == 1 {
      ByteStep(s, i, quoted);
      NoSplitsInside(s[i + 1..]);
      assert s[i..i + 1] == [s[i]];
      assert ItemLeft(it, quoted) == SqueezeChar(s[i], quoted);
    } else {
      assert s[i..] == s[i..i + 3] + s[i + 3..];
      UntouchedPrefix(s[i..i + 3], s[i + 3..], quoted);
    }
  }

  lemma NoSplitsInside(s: string)
    ensures !Splits(s, true)
  {
  }
}
