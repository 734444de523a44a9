/** What comes back from a pretty-printed dump, for every value, and exactly when it is the value. */
module PrettyExact {
  import opened ByteStrings
  import C = JsonClean
  import opened JsonDump
  import opened JsonGrammar
  import opened JsonNumerals
  import opened JsonParserSpec
  import opened JsonRoundTrip
  import opened JsonTheorems
  import opened JsonValues
  import opened PrettyBroken
  import opened PrettyDocs
  import N = PrettyNormal
  import opened PrettyPrint
  import opened PrettyStrings
  import opened PrettyValues

  // ---------- the text as a whole ----------

  const NORMAL := State(0, false, false, false)

  /** No dump starts with a backslash, so the first turn does not matter. */
  lemma PrettyIsRewrite(v: Json)
    requires Printable(v)
    ensures Pretty(Dump(v)) == Rewrite(Dump(v), NORMAL)
  {
    hide Dump;
    DumpFirst(v);
    var t := Dump(v);
    assert Turn(START, t[0]) == Turn(NORMAL, t[0]);
  }

  /** The complete behaviour of dump, pretty-print and parse, for every value and in both modes:
      an error when the rewriting breaks the text or the value nests too deep, and the mangled
      value otherwise. Whitespace behind the text, such as the final newline of a file, is ignored. */
  lemma PrettyParse(v: Json, after: string, comments: bool)
    requires Printable(v) && Spaces(after)
    ensures var o := Parse(Pretty(Dump(v)) + after, comments);
            if Broken(v, false) || Depth(v) > MAX_DEPTH then o.Fail?
            else o.Ok? && o.value == Mangle(v, false)
  {
    hide Parse, Pretty, Dump, Printable, Broken, Mangle, Depth, Rewrite, PrettyDoc, Text, Meaning, ValidDoc, DocDepth;
    PrettyIsRewrite(v);
    var text := Rewrite(Dump(v), NORMAL);
    if Broken(v, false) {
      var t := text + after;
      assert t[0..|text|] == text && t[0..0] == "";
      BrokenFails(t, 0, "", v, NORMAL, 0, comments);
      ParseFails(t, comments);
    } else {
      PrettyDocText(v, NORMAL);
      ParseComplete("", PrettyDoc(v, NORMAL), after, comments);
      assert "" + text + after == text + after;
    }
  }

  lemma ParseFails(t: string, comments: bool)
    requires ParseValue(t, 0, 0, comments).Fail?
    ensures Parse(t, comments).Fail?
  {
    hide ParseValue;
  }

  // ---------- when nothing is lost ----------

  /** Every string and key goes through the rewriting unharmed, and every number through the printer. */
  predicate Unchanged(v: Json, quoted: bool)
    decreases v
  {
    match v
    case Double(x) => D.IsFinite(x)
    case Str(s) => Squeeze(s, !quoted) == s
    case Arr(items) => UnchangedItems(items, quoted)
    case Obj(entries) => UnchangedEntries(entries, quoted)
    case _ => true
  }

  predicate UnchangedItems(items: seq<Json>, quoted: bool)
    decreases items
  {
    items == [] || (Unchanged(items[0], quoted) && UnchangedItems(items[1..], FlagAfter(items[0], quoted)))
  }

  predicate UnchangedEntries(entries: seq<Entry>, quoted: bool)
    decreases entries
  {
    entries == []
    || (Squeeze(entries[0].key, !quoted) == entries[0].key && Unchanged(entries[0].value, false)
        && UnchangedEntries(entries[1..], FlagAfter(entries[0].value, false)))
  }

  /** A value survives pretty-printing: one left-to-right scan of its strings decides it. */
  predicate Survives(v: Json) {
    !Broken(v, false) && Unchanged(v, false)
  }

  lemma RereadEqual(n: int)
    ensures IsNumber(Reread(n)) && NumberValue(Reread(n)) == n as real
  {
  }

  lemma ReadBackEqual(x: real)
    requires D.IsDouble(x)
    ensures Equal(ReadBack(x), Double(x)) <==> D.IsFinite(x)
  {
    hide D.IsDouble, D.IsFinite, IsShort, DoubleNumber, NumberMeaning, NumberText, DoubleText, ValidNumber;
    if D.IsFinite(x) {
      DoubleNumberMeaning(x);
    }
  }

  // ---------- squeezing a key never permutes the keys ----------

  function Colons(s: string): nat {
    if s == "" then 0 else (if s[0] == ':' then 1 else 0) + Colons(s[1..])
  }

  /** Squeezing strictly lowers this weight unless it changes nothing. */
  function Weight(s: string): nat {
    2 * Colons(s) + (if Squeeze(s, false) == s then 0 else 1)
  }

  lemma {:induction false} ColonsConcat(a: string, b: string)
    ensures Colons(a + b) == Colons(a) + Colons(b)
  {
    if a == "" {
      assert a + b == b;
    } else {
      assert (a + b)[0] == a[0] && (a + b)[1..] == a[1..] + b;
      ColonsConcat(a[1..], b);
    }
  }

  lemma {:induction false} SqueezeColons(s: string, quoted: bool)
    ensures Colons(Squeeze(s, quoted)) <= Colons(s)
    ensures quoted ==> Colons(Squeeze(s, quoted)) == 0
    ensures quoted && Squeeze(s, quoted) != s ==> 0 < Colons(s)
  {
    if s != "" {
      var q := quoted || s[0] == '"';
      SqueezeColons(s[1..], q);
      ColonsConcat(SqueezeChar(s[0], quoted), Squeeze(s[1..], q));
      assert s == [s[0]] + s[1..];
      CharColons(s[0], quoted);
    }
  }

  lemma CharColons(c: char, quoted: bool)
    ensures Colons(SqueezeChar(c, quoted)) == if c == ':' && !quoted then 1 else 0
  {
    assert Colons([c]) == if c == ':' then 1 else 0 by { assert [c][1..] == ""; }
    assert Colons(": ") == 1 by { assert ": "[1..] == " " && " "[1..] == ""; }
  }

  lemma {:induction false} SqueezeIdempotent(s: string, quoted: bool)
    ensures Squeeze(Squeeze(s, quoted), quoted) == Squeeze(s, quoted)
  {
    if s != "" {
      var c, q := s[0], quoted || s[0] == '"';
      var rest := Squeeze(s[1..], q);
      SqueezeIdempotent(s[1..], q);
      SqueezeHead(c, rest, quoted);
    }
  }

  lemma SqueezeHead(c: char, rest: string, quoted: bool)
    ensures var q := quoted || c == '"';
            Squeeze(SqueezeChar(c, quoted) + rest, quoted) == SqueezeChar(c, quoted) + Squeeze(rest, q)
  {
    var t := SqueezeChar(c, quoted) + rest;
    if c == ':' && !quoted {
      assert t[0] == ':' && t[1..] == " " + rest;
      assert (" " + rest)[0] == ' ' && (" " + rest)[1..] == rest;
      assert Squeeze(" " + rest, false) == "" + Squeeze(rest, false);
    } else if SqueezeChar(c, quoted) == "" {
      assert t == rest;
    } else {
      assert t[0] == c && t[1..] == rest;
    }
  }

  lemma SqueezeLighter(s: string, quoted: bool)
    requires Squeeze(s, quoted) != s
    ensures Weight(Squeeze(s, quoted)) < Weight(s)
  {
    SqueezeColons(s, quoted);
    if !quoted {
      SqueezeIdempotent(s, false);
    }
  }

  /** The flag in front of entry `i`. */
  predicate FlagBefore(entries: seq<Entry>, quoted: bool, i: nat)
    requires i < |entries|
    decreases i
  {
    if i == 0 then quoted else FlagBefore(entries[1..], FlagAfter(entries[0].value, false), i - 1)
  }

  /** The key that is read back for entry `i`. */
  function KeyRead(entries: seq<Entry>, quoted: bool, i: nat): string
    requires i < |entries|
  {
    Squeeze(entries[i].key, !FlagBefore(entries, quoted, i))
  }

  ghost predicate KeysKept(entries: seq<Entry>, quoted: bool) {
    forall i :: 0 <= i < |entries| ==> KeyRead(entries, quoted, i) == entries[i].key
  }

  ghost predicate KeysReadBack(entries: seq<Entry>, quoted: bool) {
    forall i :: 0 <= i < |entries| ==> IsKeyRead(entries, quoted, entries[i].key)
  }

  ghost predicate IsKeyRead(entries: seq<Entry>, quoted: bool, key: string) {
    exists j :: 0 <= j < |entries| && KeyRead(entries, quoted, j) == key
  }

  function HeaviestKey(entries: seq<Entry>): (w: nat)
    ensures forall i :: 0 <= i < |entries| ==> Weight(entries[i].key) <= w
  {
    if entries == [] then 0 else Max(Weight(entries[0].key), HeaviestKey(entries[1..]))
  }

  /** When every key is read back from some key, every key is read back from itself: a key lost
      to the rewriting would have to come from a heavier lost key, and so on without end. */
  lemma {:induction false} KeysReadBackKept(entries: seq<Entry>, quoted: bool, i: nat)
    requires SortedKeys(entries) && KeysReadBack(entries, quoted) && i < |entries|
    ensures KeyRead(entries, quoted, i) == entries[i].key
    decreases HeaviestKey(entries) - Weight(entries[i].key)
  {
    hide FlagBefore, Squeeze, Weight, Before;
    assert IsKeyRead(entries, quoted, entries[i].key);
    var j :| 0 <= j < |entries| && KeyRead(entries, quoted, j) == entries[i].key;
    if KeyRead(entries, quoted, j) != entries[j].key {
      SqueezeLighter(entries[j].key, !FlagBefore(entries, quoted, j));
      KeysReadBackKept(entries, quoted, j);
      assert false;
    } else {
      BeforeIrreflexive(entries[i].key);
    }
  }

  lemma {:induction false} InsertKeys(data: seq<Entry>, key: string, value: Json, k: nat)
    requires k < |Insert(data, key, value)|
    ensures Insert(data, key, value)[k].key == key
         || exists i :: 0 <= i < |data| && data[i].key == Insert(data, key, value)[k].key
  {
    hide Before;
    var r := Insert(data, key, value);
    if data == [] || Before(key, data[0].key) || data[0].key == key {
      if k > 0 {
        var i := if r == [Entry(key, value)] + data then k - 1 else k;
        assert r[k] == data[i];
      }
    } else if k == 0 {
      assert r[0] == data[0];
    } else {
      InsertKeys(data[1..], key, value, k - 1);
      if r[k].key != key {
        var i :| 0 <= i < |data[1..]| && data[1..][i].key == r[k].key;
        assert data[i + 1].key == r[k].key;
      }
    }
  }

  /** Every key of the mangled object was read for some entry. */
  lemma {:induction false} MangledKeys(entries: seq<Entry>, quoted: bool, data: seq<Entry>, k: nat)
    requires k < |MangleEntries(entries, quoted, data)|
    ensures var key := MangleEntries(entries, quoted, data)[k].key;
            IsKeyRead(entries, quoted, key) || exists i :: 0 <= i < |data| && data[i].key == key
    decreases entries
  {
    hide Insert, Squeeze, Mangle, FlagAfter, Before;
    if entries != [] {
      var key := MangleEntries(entries, quoted, data)[k].key;
      var first, flag := Squeeze(entries[0].key, !quoted), FlagAfter(entries[0].value, false);
      var now := Insert(data, first, Mangle(entries[0].value, false));
      MangledKeys(entries[1..], flag, now, k);
      if IsKeyRead(entries[1..], flag, key) {
        var j :| 0 <= j < |entries[1..]| && KeyRead(entries[1..], flag, j) == key;
        assert KeyRead(entries, quoted, j + 1) == key;
      } else {
        var i :| 0 <= i < |now| && now[i].key == key;
        InsertKeys(data, first, Mangle(entries[0].value, false), i);
        assert KeyRead(entries, quoted, 0) == first;
      }
    }
  }

  /** With all keys kept, the mangled object has the same keys in the same order. */
  lemma {:induction false} KeptEntries(entries: seq<Entry>, quoted: bool, data: seq<Entry>)
    requires KeysKept(entries, quoted) && SortedKeys(data + entries)
    ensures var r := MangleEntries(entries, quoted, data);
            && |r| == |data| + |entries| && r[..|data|] == data
            && forall i :: 0 <= i < |entries| ==>
                 r[|data| + i] == Entry(entries[i].key, Mangle(entries[i].value, false))
    decreases entries
  {
    hide Insert, Squeeze, Mangle, FlagAfter, Before;
    if entries != [] {
      var key, value, flag := entries[0].key, Mangle(entries[0].value, false), FlagAfter(entries[0].value, false);
      var all := data + entries;
      assert KeyRead(entries, quoted, 0) == key;
      forall i | 0 <= i < |data| ensures Before(data[i].key, key) {
        assert all[i] == data[i] && all[|data|] == entries[0];
      }
      InsertLast(data, key, value);
      SortedReplace(data, entries, value);
      KeptLater(entries, quoted);
      KeptEntries(entries[1..], flag, data + [Entry(key, value)]);
    }
  }

  lemma KeptLater(entries: seq<Entry>, quoted: bool)
    requires KeysKept(entries, quoted) && entries != []
    ensures KeysKept(entries[1..], FlagAfter(entries[0].value, false))
  {
    hide Squeeze, FlagAfter;
    var flag := FlagAfter(entries[0].value, false);
    forall i | 0 <= i < |entries| - 1 ensures KeyRead(entries[1..], flag, i) == entries[1..][i].key {
      assert KeyRead(entries, quoted, i + 1) == entries[i + 1].key;
    }
  }

  ghost predicate ValuesKept(entries: seq<Entry>) {
    forall i :: 0 <= i < |entries| ==> Unchanged(entries[i].value, false)
  }

  lemma {:induction false} UnchangedParts(entries: seq<Entry>, quoted: bool)
    ensures UnchangedEntries(entries, quoted) <==> KeysKept(entries, quoted) && ValuesKept(entries)
    decreases entries
  {
    hide Squeeze, FlagAfter, Unchanged;
    if entries != [] {
      var flag, rest := FlagAfter(entries[0].value, false), entries[1..];
      UnchangedParts(rest, flag);
      if KeysKept(entries, quoted) && ValuesKept(entries) {
        KeptLater(entries, quoted);
        assert KeyRead(entries, quoted, 0) == entries[0].key;
      }
      if UnchangedEntries(entries, quoted) {
        forall i | 0 <= i < |entries|
          ensures KeyRead(entries, quoted, i) == entries[i].key && Unchanged(entries[i].value, false)
        {
          if i > 0 {
            assert KeyRead(rest, flag, i - 1) == rest[i - 1].key && Unchanged(rest[i - 1].value, false);
          }
        }
      }
    }
  }

  // ---------- the mangled value equals the value iff nothing was squeezed ----------

  lemma {:induction false} MangleEqual(v: Json, quoted: bool)
    requires Printable(v) && WellFormed(v) && !Broken(v, quoted)
    ensures Equal(Mangle(v, quoted), v) <==> Unchanged(v, quoted)
    decreases v, 1
  {
    hide Squeeze, MangleItems, MangleEntries, Reread, UnchangedItems, UnchangedEntries, BrokenItems, BrokenEntries,
      SortedKeys, Splits;
    match v
    case Int(n) => RereadEqual(n);
    case Double(x) => ReadBackEqual(x);
    case Arr(items) => MangleItemsEqual(items, quoted);
    case Obj(entries) => MangleEntriesEqual(entries, quoted);
    case _ =>
  }

  lemma {:induction false} MangleItemsEqual(items: seq<Json>, quoted: bool)
    requires forall i :: 0 <= i < |items| ==> Printable(items[i]) && WellFormed(items[i])
    requires !BrokenItems(items, quoted)
    ensures Equal(Arr(MangleItems(items, quoted)), Arr(items)) <==> UnchangedItems(items, quoted)
    decreases items, 0
  {
    hide Mangle, FlagAfter, WellFormed, Printable, Broken, Unchanged, Squeeze;
    var ws := MangleItems(items, quoted);
    if items != [] {
      var flag := FlagAfter(items[0], quoted);
      var rest := MangleItems(items[1..], flag);
      MangleEqual(items[0], quoted);
      MangleItemsEqual(items[1..], flag);
      assert ws[0] == Mangle(items[0], quoted) && ws[1..] == rest;
      EqualItems(ws, items);
    }
  }

  lemma {:induction false} UnbrokenValue(entries: seq<Entry>, quoted: bool, i: nat)
    requires !BrokenEntries(entries, quoted) && i < |entries|
    ensures !Broken(entries[i].value, false)
    decreases entries
  {
    hide Broken, FlagAfter, Splits, Closing;
    if i > 0 {
      UnbrokenValue(entries[1..], FlagAfter(entries[0].value, false), i - 1);
    }
  }

  lemma AllKeysKept(entries: seq<Entry>, quoted: bool)
    requires SortedKeys(entries)
    requires var r := MangleEntries(entries, quoted, []);
             |r| == |entries| && forall i :: 0 <= i < |entries| ==> r[i].key == entries[i].key
    ensures KeysKept(entries, quoted)
  {
    hide Mangle, FlagAfter, Squeeze, Before, MangleEntries, KeyRead;
    var r := MangleEntries(entries, quoted, []);
    forall i | 0 <= i < |entries| ensures IsKeyRead(entries, quoted, entries[i].key) {
      MangledKeys(entries, quoted, [], i);
      assert r[i].key == entries[i].key;
    }
    forall i | 0 <= i < |entries| ensures KeyRead(entries, quoted, i) == entries[i].key {
      KeysReadBackKept(entries, quoted, i);
    }
  }

  /** With all keys in place the entries are mangled one by one. */
  lemma MangledOneByOne(entries: seq<Entry>, quoted: bool)
    requires KeysKept(entries, quoted) && SortedKeys(entries)
    ensures var r := MangleEntries(entries, quoted, []);
            |r| == |entries| && forall i :: 0 <= i < |entries| ==>
                                  r[i] == Entry(entries[i].key, Mangle(entries[i].value, false))
  {
    hide KeysKept, SortedKeys, Mangle, MangleEntries;
    assert [] + entries == entries;
    KeptEntries(entries, quoted, []);
    var r := MangleEntries(entries, quoted, []);
    forall i | 0 <= i < |entries|
      ensures r[i] == Entry(entries[i].key, Mangle(entries[i].value, false))
    {
      assert r[0 + i] == r[i];
    }
  }

  lemma EqualObjects(a: seq<Entry>, b: seq<Entry>)
    ensures Equal(Obj(a), Obj(b)) <==>
              |a| == |b| && forall i :: 0 <= i < |a| ==> a[i].key == b[i].key && Equal(a[i].value, b[i].value)
  {
  }

  lemma {:induction false} MangleEntriesEqual(entries: seq<Entry>, quoted: bool)
    requires forall i :: 0 <= i < |entries| ==> Printable(entries[i].value) && WellFormed(entries[i].value)
    requires SortedKeys(entries)
    requires !BrokenEntries(entries, quoted)
    ensures Equal(Obj(MangleEntries(entries, quoted, [])), Obj(entries)) <==> UnchangedEntries(entries, quoted)
    decreases entries, 0
  {
    hide Mangle, FlagAfter, WellFormed, Printable, Broken, Unchanged, Squeeze, MangleEntries, UnchangedEntries,
      KeysKept, Before, BrokenEntries, Equal, SortedKeys;
    var r := MangleEntries(entries, quoted, []);
    UnchangedParts(entries, quoted);
    EqualObjects(r, entries);
    if Equal(Obj(r), Obj(entries)) {
      AllKeysKept(entries, quoted);
    }
    if KeysKept(entries, quoted) {
      MangledOneByOne(entries, quoted);
      forall i | 0 <= i < |entries|
        ensures r[i].key == entries[i].key
        ensures Equal(r[i].value, entries[i].value) <==> Unchanged(entries[i].value, false)
      {
        UnbrokenValue(entries, quoted, i);
        MangleEqual(entries[i].value, false);
      }
    }
  }

  // ---------- the theorems ----------

  /** A value comes back from its pretty-printed dump if and only if it survives the scan. */
  lemma PrettyRoundTrip(v: Json, after: string, comments: bool)
    requires Printable(v) && WellFormed(v) && Depth(v) <= MAX_DEPTH && Spaces(after)
    ensures var o := Parse(Pretty(Dump(v)) + after, comments);
            (o.Ok? && Equal(o.value, v)) <==> Survives(v)
  {
    hide Parse, Pretty, Dump, Printable, Broken, Mangle, Depth, Equal, Unchanged, WellFormed;
    PrettyParse(v, after, comments);
    if !Broken(v, false) {
      MangleEqual(v, false);
    }
  }

  /** No string or key ends in a backslash. */
  predicate NoTrailingBackslash(v: Json)
    decreases v
  {
    match v
    case Str(s) => !EndsInBackslash(s)
    case Arr(items) => forall i :: 0 <= i < |items| ==> NoTrailingBackslash(items[i])
    case Obj(entries) =>
      forall i :: 0 <= i < |entries| ==> !EndsInBackslash(entries[i].key) && NoTrailingBackslash(entries[i].value)
    case _ => true
  }

  /** No string or key contains a colon. */
  predicate NoColon(v: Json)
    decreases v
  {
    match v
    case Str(s) => ':' !in s
    case Arr(items) => forall i :: 0 <= i < |items| ==> NoColon(items[i])
    case Obj(entries) => forall i :: 0 <= i < |entries| ==> ':' !in entries[i].key && NoColon(entries[i].value)
    case _ => true
  }

  lemma {:induction false} SqueezeQuoted(s: string)
    ensures Squeeze(s, true) == s <==> ':' !in s
    ensures |Squeeze(s, true)| <= |s|
  {
    if s != "" {
      SqueezeQuoted(s[1..]);
      assert s == [s[0]] + s[1..];
      var rest := Squeeze(s[1..], true);
      if s[0] == ':' {
        assert |Squeeze(s, true)| == |rest|;
      } else {
        assert Squeeze(s, true)[1..] == rest;
      }
    }
  }

  /** Without trailing backslashes the flag stays right, nothing breaks, and only colons are lost. */
  lemma {:induction false} TidyScan(v: Json)
    requires NoTrailingBackslash(v)
    ensures !FlagAfter(v, false) && !Broken(v, false) && (Unchanged(v, false) <==> NoColon(v) && Finite(v))
    decreases v, 1
  {
    hide FlagAfterItems, FlagAfterEntries, BrokenItems, BrokenEntries, UnchangedItems, UnchangedEntries, Squeeze;
    match v
    case Str(s) => SqueezeQuoted(s);
    case Arr(items) => TidyItems(items);
    case Obj(entries) => TidyEntries(entries);
    case _ =>
  }

  lemma {:induction false} TidyItems(items: seq<Json>)
    requires forall i :: 0 <= i < |items| ==> NoTrailingBackslash(items[i])
    ensures !FlagAfterItems(items, false) && !BrokenItems(items, false)
    ensures UnchangedItems(items, false) <==> forall i :: 0 <= i < |items| ==> NoColon(items[i]) && Finite(items[i])
    decreases items, 0
  {
    hide NoTrailingBackslash, NoColon, Finite, Broken, FlagAfter, Unchanged;
    if items != [] {
      TidyScan(items[0]);
      TidyItems(items[1..]);
      assert items == [items[0]] + items[1..];
    }
  }

  lemma {:induction false} TidyEntries(entries: seq<Entry>)
    requires forall i :: 0 <= i < |entries| ==>
               !EndsInBackslash(entries[i].key) && NoTrailingBackslash(entries[i].value)
    ensures !FlagAfterEntries(entries, false) && !BrokenEntries(entries, false)
    ensures UnchangedEntries(entries, false) <==>
              forall i :: 0 <= i < |entries| ==>
                ':' !in entries[i].key && NoColon(entries[i].value) && Finite(entries[i].value)
    decreases entries, 0
  {
    hide NoTrailingBackslash, NoColon, Finite, Broken, FlagAfter, Unchanged, Squeeze;
    if entries != [] {
      SqueezeQuoted(entries[0].key);
      TidyScan(entries[0].value);
      TidyEntries(entries[1..]);
      assert entries == [entries[0]] + entries[1..];
    }
  }

  /** For values without trailing backslashes, pretty-printing preserves the meaning exactly when
      no string or key contains a colon and no number is infinite. */
  lemma PrettyPreservesMeaning(v: Json, after: string, comments: bool)
    requires Printable(v) && WellFormed(v) && Depth(v) <= MAX_DEPTH && Spaces(after) && NoTrailingBackslash(v)
    ensures var o := Parse(Pretty(Dump(v)) + after, comments);
            (o.Ok? && Equal(o.value, v)) <==> NoColon(v) && Finite(v)
  {
    hide Parse, Pretty, Dump, Printable, Broken, Depth, Equal, Unchanged, WellFormed, NoColon, Finite,
      NoTrailingBackslash;
    PrettyRoundTrip(v, after, comments);
    TidyScan(v);
  }

  /** Two values that do not come back: a colon is dropped from a string, and a key that ends in a
      backslash costs the object its colon. */
  lemma PrettyDamages()
    ensures Parse(Pretty(Dump(Str("a:b"))), false).Ok? && Parse(Pretty(Dump(Str("a:b"))), false).value == Str("ab")
    ensures Parse(Pretty(Dump(Obj([Entry("\\", Null)]))), false).Fail?
  {
    hide Parse, Pretty, Dump;
    ColonLost();
    TrailingBackslashFails();
  }

  lemma ColonLost()
    ensures Parse(Pretty(Dump(Str("a:b"))), false).Ok? && Parse(Pretty(Dump(Str("a:b"))), false).value == Str("ab")
  {
    hide Parse, Pretty, Dump;
    PrettyParse(Str("a:b"), "", false);
    assert Pretty(Dump(Str("a:b"))) + "" == Pretty(Dump(Str("a:b")));
    assert "a:b"[1..] == ":b" && ":b"[1..] == "b" && "b"[1..] == "";
    assert Squeeze("b", true) == "b" && Squeeze(":b", true) == "b";
  }

  lemma TrailingBackslashFails()
    ensures Parse(Pretty(Dump(Obj([Entry("\\", Null)]))), false).Fail?
  {
    hide Parse, Pretty, Dump;
    var o := Obj([Entry("\\", Null)]);
    PrettyParse(o, "", false);
    assert Pretty(Dump(o)) + "" == Pretty(Dump(o));
    assert Closing("\\", false);
    assert BrokenEntries(o.entries, false);
  }

  // ---------- printing twice ----------

  /** Printing a dump twice is printing it once if and only if the scan finds no torn character. */
  lemma DumpTwice(v: Json)
    requires Printable(v)
    ensures Pretty(Pretty(Dump(v))) == Pretty(Dump(v)) <==> N.Harmless(Dump(v), START, START)
  {
    hide Pretty, Dump, N.Harmless;
    C.DumpClean(v);
    N.OneLine(Dump(v), START);
    N.PrettyTwice(Dump(v));
  }

  /** Behind the colon the first printing is outside its string and the second one still inside. */
  lemma TornBehindColon()
    ensures !N.Harmless(['"', ',', ' ', '"', 'a', ' ', 'b', '"', ']'],
                        State(1, true, false, false), State(1, true, true, false))
  {
    hide N.Harmless;
    var a, b, c := State(1, true, false, false), State(1, true, true, false), State(1, false, false, false);
    var t5: string := [' ', 'b', '"', ']'];
    var t4: string := ['a'] + t5;
    var t3: string := ['"'] + t4;
    var t2: string := [' '] + t3;
    var t1: string := [','] + t2;
    assert ['"', ',', ' ', '"', 'a', ' ', 'b', '"', ']'] == ['"'] + t1;
    N.HarmlessStep('"', t1, a, b);
    N.HarmlessStep(',', t2, c, a);
    N.HarmlessStep(' ', t3, c, a);
    N.HarmlessStep('"', t4, c, a);
    N.HarmlessStep('a', t5, a, c);
    assert t5 == [' '] + ['b', '"', ']'];
    N.HarmlessStep(' ', ['b', '"', ']'], a, c);
  }

  /** An array of two strings, a backslash with a colon and `a b`: the second printing drops the space. */
  lemma PrettyNotIdempotent()
    ensures var v := Arr([Str("\\:"), Str("a b")]);
            Pretty(Pretty(Dump(v))) != Pretty(Dump(v))
  {
    hide Pretty, Dump, N.Harmless;
    var v := Arr([Str("\\:"), Str("a b")]);
    DumpTwice(v);
    TwoStringsDump();
    var a, b, c := State(1, true, false, false), State(1, true, true, false), State(1, false, false, false);
    var t5: string := ['"', ',', ' ', '"', 'a', ' ', 'b', '"', ']'];
    var t4: string := [':'] + t5;
    var t3: string := ['\\'] + t4;
    var t2: string := ['\\'] + t3;
    var t1: string := ['"'] + t2;
    assert Dump(v) == ['['] + t1;
    N.HarmlessStep('[', t1, START, START);
    N.HarmlessStep('"', t2, c, c);
    N.HarmlessStep('\\', t3, a, a);
    N.HarmlessStep('\\', t4, b, b);
    N.HarmlessStep(':', t5, b, b);
    TornBehindColon();
  }

  lemma TwoStringsDump()
    ensures Dump(Arr([Str("\\:"), Str("a b")])) == "[\"\\\\:\", \"a b\"]"
  {
    hide StringDump;
    TwoStringDumps();
    var items := [Str("\\:"), Str("a b")];
    assert items[1..] == [Str("a b")];
    assert ItemsDump(items[1..]) == StringDump("a b");
    assert ItemsDump(items) == StringDump("\\:") + (", " + StringDump("a b"));
  }

  lemma TwoStringDumps()
    ensures StringDump("\\:") == "\"\\\\:\"" && StringDump("a b") == "\"a b\""
  {
    assert CharsText("\\:", 2) == "" && CharsText("\\:", 1) == ":" && CharsText("\\:", 0) == "\\\\:";
    assert CharsText("a b", 3) == "" && CharsText("a b", 2) == "b";
    assert CharsText("a b", 1) == " b" && CharsText("a b", 0) == "a b";
  }
}
