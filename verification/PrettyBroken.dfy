/** A text that the rewriting destroyed is never accepted: whatever surrounds it, the parser fails, at its
    torn string or behind it. */
module PrettyBroken {
  import opened ByteStrings
  import opened JsonComplete
  import opened JsonDump
  import opened JsonGrammar
  import opened JsonNumbers
  import opened JsonParserSpec
  import opened JsonRoundTrip
  import opened JsonStrings
  import opened JsonValues
  import opened PrettyDocs
  import opened PrettyPrint
  import opened PrettyStrings
  import opened PrettyValues

  lemma DumpFirst(v: Json)
    requires Printable(v)
    ensures Dump(v) != "" && StartsValue(Dump(v)[0])
    ensures v.Str? <==> Dump(v)[0] == '"'
    ensures v.Arr? <==> Dump(v)[0] == '['
    ensures v.Obj? <==> Dump(v)[0] == '{'
  {
    DocOfText(v);
    TextStarts(DocOf(v));
  }

  /** The rewriting keeps the first character of a text that starts like a value. */
  lemma RewriteFirst(t: string, st: State)
    requires t != "" && StartsValue(t[0])
    ensures Rewrite(t, st) != "" && Rewrite(t, st)[0] == t[0]
  {
    assert Rewrite(t, st) == Turn(st, t[0]).0 + Rewrite(t[1..], Turn(st, t[0]).1);
  }

  /** The next token behind whitespace is the first character of a rewritten value. */
  lemma RewrittenToken(s: string, i: nat, w: string, t: string, st: State, comments: bool)
    requires Spaces(w) && t != "" && StartsValue(t[0]) && At(s, i, w) && At(s, i + |w|, Rewrite(t, st))
    ensures NextToken(s, i, comments) == Ok(t[0], i + |w| + 1)
  {
    hide Rewrite;
    RewriteFirst(t, st);
    FirstAt(s, i + |w|, Rewrite(t, st));
    GarbageSkipped(s, i, w, comments);
  }

  lemma {:induction false} BrokenFails(s: string, i: nat, w: string, v: Json, st: State, depth: nat, comments: bool)
    requires Printable(v) && Normal(st) && Broken(v, st.quoted)
    requires Spaces(w) && At(s, i, w) && At(s, i + |w|, Rewrite(Dump(v), st))
    ensures ParseValue(s, i, depth, comments).Fail?
    decreases v, 1
  {
    hide Rewrite, After, NextToken, ParseString, ParseItems, ParseMembers, ParseNumber, Splits, At, Spaces, StringDump,
      ItemsDump, EntriesDump;
    var j := i + |w|;
    DumpFirst(v);
    RewrittenToken(s, i, w, Dump(v), st, comments);
    match v
    case Str(t) =>
      TornFails(s, j, t, st);
    case Arr(items) =>
      BrokenArrayFails(s, j, items, st, depth, comments);
    case Obj(entries) =>
      BrokenObjectFails(s, j, entries, st, depth, comments);
  }

  lemma TornFails(s: string, j: nat, t: string, st: State)
    requires Normal(st) && Splits(t, !st.quoted) && At(s, j, Rewrite(StringDump(t), st))
    ensures j + 1 <= |s| && ParseString(s, j + 1, "", -1).Fail?
  {
    hide Rewrite, ParseString, StringDump, ItemsText, Splits;
    var front, tail := TornString(t, st);
    AtConcat3(s, j, "\"", ItemsText(front) + "\n", tail);
    StringControl(s, j + 1, front, '\n');
  }

  /** Behind `[`, the array loop starts at the first item and fails. */
  lemma {:induction false} BrokenArrayFails(s: string, j: nat, items: seq<Json>, st: State, depth: nat, comments: bool)
    requires (forall i :: 0 <= i < |items| ==> Printable(items[i])) && Normal(st) && BrokenItems(items, st.quoted)
    requires At(s, j, Rewrite("[" + ItemsDump(items) + "]", st))
    ensures j + 1 <= |s|
    ensures match NextToken(s, j + 1, comments)
            case Fail(_) => true
            case Ok(c, k) => c != ']' && ParseItems(s, k - 1, depth, comments, []).Fail?
    decreases items, 2
  {
    hide Rewrite, NextToken, ParseItems, At, NewLine, Printable, Indent, Dump, Broken;
    var inner := st.(indent := Indent(st.indent));
    var t := ItemsDump(items) + "]";
    Brackets('[', ItemsDump(items), ']', st);
    AtConcat3(s, j, "[", Opening(st), Rewrite(t, inner));
    NewLineSpaces(Indent(st.indent), st.quoted);
    DumpFirst(items[0]);
    assert t[0] == Dump(items[0])[0];
    InBoundsAt(s, j, "[");
    RewrittenToken(s, j + 1, Opening(st), t, inner, comments);
    BrokenItemsFail(s, j + 1 + |Opening(st)|, items, inner, depth, comments, []);
  }

  lemma RestStarts(items: seq<Json>)
    requires |items| > 1 && forall i :: 0 <= i < |items| ==> Printable(items[i])
    ensures var rest := ItemsDump(items[1..]) + "]";
            rest != "" && StartsValue(rest[0])
  {
    hide Dump, Printable;
    DumpFirst(items[1]);
    assert (ItemsDump(items[1..]) + "]")[0] == Dump(items[1])[0];
  }

  lemma ItemsTurnFails(s: string, p: nat, depth: nat, comments: bool, data: seq<Json>, v: Json, q: nat, k: nat, n: nat)
    requires p <= |s| && q <= |s| && k <= |s| && n <= |s| && ParseValue(s, p, depth + 1, comments) == Ok(v, q)
    requires NextToken(s, q, comments) == Ok(',', k)
    requires NextToken(s, k, comments).Ok? && NextToken(s, k, comments).next == n + 1
    requires ParseItems(s, n, depth, comments, data + [v]).Fail?
    ensures ParseItems(s, p, depth, comments, data).Fail?
  {
    hide ParseValue, NextToken, ParseItems;
    JsonComplete.ItemsTurn(s, p, depth, comments, data, v, q, ',', k);
  }

  lemma {:induction false} BrokenItemsFail(s: string, p: nat, items: seq<Json>, st: State, depth: nat, comments: bool,
                                           data: seq<Json>)
    requires (forall i :: 0 <= i < |items| ==> Printable(items[i])) && Normal(st) && BrokenItems(items, st.quoted)
    requires At(s, p, Rewrite(ItemsDump(items) + "]", st))
    ensures p <= |s| && ParseItems(s, p, depth, comments, data).Fail?
    decreases items, 1
  {
    hide Rewrite, After, NextToken, ParseItems, ParseValue, At, Spaces, NewLine, Printable, Dump, Broken, Meaning, Text,
      PrettyDoc, DocDepth, Depth, ValidDoc, Mangle, FlagAfter, Gap;
    var t := Dump(items[0]);
    var next := After(t, st);
    var back := if |items| == 1 then "]" else ", " + (ItemsDump(items[1..]) + "]");
    assert ItemsDump(items) + "]" == t + back;
    RewriteConcat(t, back, st);
    AtConcat(s, p, Rewrite(t, st), Rewrite(back, next));
    InBoundsAt(s, p, Rewrite(t, st));
    Empty(s, p);
    if Broken(items[0], st.quoted) {
      BrokenFails(s, p, "", items[0], st, depth + 1, comments);
      ItemsFail(s, p, depth, comments, data);
    } else {
      var rest := ItemsDump(items[1..]) + "]";
      var q := p + |Rewrite(t, st)|;
      AfterDump(items[0], st);
      LaterText(s, q, rest, next);
      ItemRead(s, p, "", items[0], st, depth + 1, comments);
      var o := ParseValue(s, p, depth + 1, comments);
      if o.Fail? {
        ItemsFail(s, p, depth, comments, data);
      } else {
        LaterItemsFail(s, p, q, items, next, depth, comments, data, o.value);
      }
    }
  }

  /** One item has been read, and the text breaks in a later one. */
  lemma {:induction false} LaterItemsFail(s: string, p: nat, q: nat, items: seq<Json>, st: State, depth: nat,
                                          comments: bool, data: seq<Json>, v: Json)
    requires |items| > 1 && (forall i :: 0 <= i < |items| ==> Printable(items[i]))
    requires Normal(st) && BrokenItems(items[1..], st.quoted)
    requires p <= |s| && q <= |s| && ParseValue(s, p, depth + 1, comments) == Ok(v, q)
    requires At(s, q, "" + [',']) && q + 1 <= |s| && At(s, q + 1, Gap(st))
    requires At(s, q + 1 + |Gap(st)|, Rewrite(ItemsDump(items[1..]) + "]", st))
    ensures ParseItems(s, p, depth, comments, data).Fail?
    decreases items, 0
  {
    hide Rewrite, After, NextToken, ParseItems, ParseValue, At, Spaces, NewLine, Printable, ItemsDump, BrokenItems, Gap;
    var n := q + 1 + |Gap(st)|;
    Empty(s, q);
    TokenAt(s, q, "", ',', comments);
    RestStarts(items);
    GapSpaces(st);
    RewrittenToken(s, q + 1, Gap(st), ItemsDump(items[1..]) + "]", st, comments);
    BrokenItemsFail(s, n, items[1..], st, depth, comments, data + [v]);
    ItemsTurnFails(s, p, depth, comments, data, v, q, q + 1, n);
  }

  /** Behind an item: the comma, the gap and the later items. */
  lemma LaterText(s: string, q: nat, rest: string, st: State)
    requires Normal(st) && At(s, q, Rewrite(", " + rest, st))
    ensures At(s, q, "" + [',']) && q + 1 <= |s| && At(s, q + 1, Gap(st)) && At(s, q + 1 + |Gap(st)|, Rewrite(rest, st))
  {
    hide Rewrite, Gap;
    RewriteConcat(", ", rest, st);
    Comma(st);
    assert "" + [','] == ",";
    AtConcat3(s, q, ",", Gap(st), Rewrite(rest, st));
  }

  /** An unbroken item is read up to its end, or nests too deep. */
  lemma ItemRead(s: string, p: nat, w: string, v: Json, st: State, depth: nat, comments: bool)
    requires Printable(v) && Normal(st) && !Broken(v, st.quoted) && Spaces(w) && At(s, p, w)
    requires At(s, p + |w|, Rewrite(Dump(v), st)) && At(s, p + |w| + |Rewrite(Dump(v), st)|, "" + [','])
    ensures var o := ParseValue(s, p, depth, comments);
            o.Ok? ==> o.next == p + |w| + |Rewrite(Dump(v), st)|
  {
    hide Rewrite, ParseValue, Meaning, Text, PrettyDoc, DocDepth, ValidDoc, Mangle, Broken, Printable, Dump;
    var d := PrettyDoc(v, st);
    PrettyDocText(v, st);
    EndsBefore(s, p + |w| + |Text(d)|, "", ',', d);
    ValueComplete(s, p, w, d, depth, comments);
  }

  lemma {:induction false} BrokenObjectFails(s: string, j: nat, entries: seq<Entry>, st: State, depth: nat,
                                             comments: bool)
    requires (forall i :: 0 <= i < |entries| ==> Printable(entries[i].value)) && Normal(st)
    requires BrokenEntries(entries, st.quoted) && At(s, j, Rewrite("{" + EntriesDump(entries) + "}", st))
    ensures j + 1 <= |s|
    ensures match NextToken(s, j + 1, comments)
            case Fail(_) => true
            case Ok(c, k) => c != '}' && ParseMembers(s, k, c, depth, comments, []).Fail?
    decreases entries, 2
  {
    hide Rewrite, NextToken, ParseMembers, At, NewLine, Printable, Indent, Dump, Broken, Splits, Closing, CharsText;
    var inner := st.(indent := Indent(st.indent));
    var t := EntriesDump(entries) + "}";
    Brackets('{', EntriesDump(entries), '}', st);
    AtConcat3(s, j, "{", Opening(st), Rewrite(t, inner));
    NewLineSpaces(Indent(st.indent), st.quoted);
    assert t[0] == '"';
    InBoundsAt(s, j, "{");
    RewrittenToken(s, j + 1, Opening(st), t, inner, comments);
    BrokenEntriesFail(s, j + 2 + |Opening(st)|, entries, inner, depth, comments, []);
  }

  lemma {:induction false} BrokenEntriesFail(s: string, i: nat, entries: seq<Entry>, st: State, depth: nat,
                                             comments: bool, data: seq<Entry>)
    requires (forall i :: 0 <= i < |entries| ==> Printable(entries[i].value)) && Normal(st)
    requires BrokenEntries(entries, st.quoted) && 0 < i && At(s, i - 1, Rewrite(EntriesDump(entries) + "}", st))
    ensures i <= |s| && ParseMembers(s, i, '"', depth, comments, data).Fail?
    decreases entries, 1
  {
    hide Rewrite, After, NextToken, ParseMembers, ParseValue, ParseString, At, Spaces, NewLine, Printable, Dump, Broken,
      FlagAfter, Splits, Closing, Insert, CharsText, Gap, StringDump;
    var key, v := entries[0].key, entries[0].value;
    var k, d := StringDump(key), Dump(v);
    var mid := After(k, st);
    var back := if |entries| == 1 then "}" else ", " + (EntriesDump(entries[1..]) + "}");
    assert EntriesDump(entries) + "}" == k + ": " + d + back;
    RewriteString(key, st);
    EntryText(k, d, back, st);
    var kt, ct, dt, rt := Rewrite(k, st), Rewrite(": ", mid), Rewrite(d, mid), Rewrite(back, After(d, mid));
    assert kt + ct + dt + rt == kt + (ct + (dt + rt));
    AtConcat(s, i - 1, kt, ct + (dt + rt));
    AtConcat3(s, i - 1 + |kt|, ct, dt, rt);
    assert ct + (dt + rt) == ct + dt + rt;
    if Splits(key, !st.quoted) {
      TornFails(s, i - 1, key, st);
      KeyFails(s, i, depth, comments, data);
    } else {
      var j := i - 1 + |kt|;
      var text := KeyRead(s, i, key, st);
      Colon(mid);
      if Closing(key, st.quoted) {
        ColonLost(s, j, d, v, mid, comments);
        NoColonFails(s, i, depth, comments, data, text, j);
      } else {
        BrokenMemberFails(s, i, entries, st, depth, comments, data, text, j);
      }
    }
  }

  lemma KeyFails(s: string, i: nat, depth: nat, comments: bool, data: seq<Entry>)
    requires i <= |s| && ParseString(s, i, "", -1).Fail?
    ensures ParseMembers(s, i, '"', depth, comments, data).Fail?
  {
    hide ParseString;
  }

  lemma NoColonFails(s: string, i: nat, depth: nat, comments: bool, data: seq<Entry>, text: string, j: nat)
    requires i <= |s| && j <= |s| && ParseString(s, i, "", -1) == Ok(text, j)
    requires NextToken(s, j, comments).Ok? ==> NextToken(s, j, comments).value != ':'
    ensures ParseMembers(s, i, '"', depth, comments, data).Fail?
  {
    hide ParseString, NextToken, ParseValue;
  }

  /** An untorn key is read up to its closing quotation mark. */
  lemma KeyRead(s: string, i: nat, key: string, st: State) returns (text: string)
    requires Normal(st) && !Splits(key, !st.quoted) && 0 < i && At(s, i - 1, Rewrite(StringDump(key), st))
    ensures i <= |s| && ParseString(s, i, "", -1) == Ok(text, i - 1 + |Rewrite(StringDump(key), st)|)
  {
    hide Rewrite, ParseString, StringDump, Splits, Filter, StringItems, ItemsText, After, Closing, StringMeaning;
    var its := Filter(StringItems(key, 0), !st.quoted);
    RewriteString(key, st);
    DumpedMeaning(key, 0, !st.quoted);
    StringTextAt(s, i - 1, its);
    InBoundsAt(s, i - 1, "\"");
    StringComplete(s, i, its);
    text := StringMeaning(its);
  }

  /** With the flag inverted, the value follows the key without a colon. */
  lemma ColonLost(s: string, j: nat, d: string, v: Json, mid: State, comments: bool)
    requires Printable(v) && d == Dump(v) && At(s, j, " ") && At(s, j + 1, Rewrite(d, mid))
    ensures NextToken(s, j, comments).Ok? && NextToken(s, j, comments).value != ':'
  {
    hide Rewrite, NextToken, Dump;
    DumpFirst(v);
    RewrittenToken(s, j, " ", d, mid, comments);
  }

  /** The key and its colon are fine: the damage is in the value or in a later member. */
  lemma {:induction false} BrokenMemberFails(s: string, i: nat, entries: seq<Entry>, st: State, depth: nat,
                                             comments: bool, data: seq<Entry>, text: string, j: nat)
    requires (forall i :: 0 <= i < |entries| ==> Printable(entries[i].value)) && Normal(st)
    requires BrokenEntries(entries, st.quoted) && i <= |s| && ParseString(s, i, "", -1) == Ok(text, j) && j <= |s|
    requires !Splits(entries[0].key, !st.quoted) && !Closing(entries[0].key, st.quoted)
    requires var mid := After(StringDump(entries[0].key), st);
             var d := Dump(entries[0].value);
             var back := if |entries| == 1 then "}" else ", " + (EntriesDump(entries[1..]) + "}");
             && Normal(mid) && !mid.quoted && At(s, j, ": ") && At(s, j + 2, Rewrite(d, mid))
             && At(s, j + 2 + |Rewrite(d, mid)|, Rewrite(back, After(d, mid)))
    ensures ParseMembers(s, i, '"', depth, comments, data).Fail?
    decreases entries, 0
  {
    hide Rewrite, After, NextToken, ParseMembers, ParseValue, ParseString, At, Spaces, NewLine, Printable, Dump, Broken,
      FlagAfter, Splits, Closing, Insert, CharsText, Gap, StringDump;
    var v := entries[0].value;
    var d := Dump(v);
    var mid := After(StringDump(entries[0].key), st);
    var next := After(d, mid);
    var q := j + 2 + |Rewrite(d, mid)|;
    ColonRead(s, j, comments);
    if Broken(v, false) {
      BrokenFails(s, j + 1, " ", v, mid, depth + 1, comments);
      MembersFail(s, i, depth, comments, data, text, j, j + 1);
    } else {
      var rest := EntriesDump(entries[1..]) + "}";
      AfterDump(v, mid);
      LaterText(s, q, rest, next);
      ItemRead(s, j + 1, " ", v, mid, depth + 1, comments);
      var o := ParseValue(s, j + 1, depth + 1, comments);
      if o.Fail? {
        MembersFail(s, i, depth, comments, data, text, j, j + 1);
      } else {
        TokenAt(s, q, "", ',', comments);
        EntriesStart(entries[1..]);
        GapSpaces(next);
        RewrittenToken(s, q + 1, Gap(next), rest, next, comments);
        MembersTurn(s, i, depth, comments, data, text, j, j + 1, o.value, q, ',', q + 1);
        BrokenEntriesFail(s, q + 2 + |Gap(next)|, entries[1..], next, depth, comments, Insert(data, text, o.value));
      }
    }
  }

  lemma EntriesStart(entries: seq<Entry>)
    requires entries != [] && forall i :: 0 <= i < |entries| ==> Printable(entries[i].value)
    ensures EntriesDump(entries) != "" && EntriesDump(entries)[0] == '"'
  {
  }

  lemma ColonRead(s: string, j: nat, comments: bool)
    requires At(s, j, ": ")
    ensures NextToken(s, j, comments) == Ok(':', j + 1) && At(s, j + 1, " ") && Spaces(" ")
  {
    hide NextToken;
    assert ": " == ":" + " ";
    assert ":" == "" + [':'];
    AtConcat(s, j, ":", " ");
    TokenAt(s, j, "", ':', comments);
  }
}
