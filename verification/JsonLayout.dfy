/** The layout of printed strings, arrays and objects: which characters are escaped and what separates items. */
module JsonLayout {
  import opened JsonDump
  import opened JsonGrammar
  import opened JsonValues

  // ---------- arrays and objects ----------

  /** The texts with `sep` between them. */
  function Join(texts: seq<string>, sep: string): string {
    if texts == [] then ""
    else (if |texts| == 1 then "" else Join(texts[..|texts| - 1], sep) + sep) + texts[|texts| - 1]
  }

  lemma {:induction false} JoinFirst(first: string, rest: seq<string>, sep: string)
    requires rest != []
    ensures Join([first] + rest, sep) == first + (sep + Join(rest, sep))
  {
    var all := [first] + rest;
    assert all[|all| - 1] == rest[|rest| - 1];
    if |rest| == 1 {
      assert all[..1] == [first];
      assert Join([first], sep) == "" + first == first;
      assert first + sep + rest[0] == first + (sep + ("" + rest[0]));
    } else {
      assert all[..|all| - 1] == [first] + rest[..|rest| - 1];
      JoinFirst(first, rest[..|rest| - 1], sep);
      var front, last := Join(rest[..|rest| - 1], sep), rest[|rest| - 1];
      assert first + (sep + front) + sep + last == first + (sep + (front + sep + last));
    }
  }

  function Dumps(items: seq<Json>): seq<string>
    requires forall i :: 0 <= i < |items| ==> Printable(items[i])
  {
    seq(|items|, i requires 0 <= i < |items| => Dump(items[i]))
  }

  lemma {:induction false} ItemsJoined(items: seq<Json>)
    requires forall i :: 0 <= i < |items| ==> Printable(items[i])
    ensures ItemsDump(items) == Join(Dumps(items), ", ")
    decreases |items|
  {
    hide Dump, Printable;
    if |items| == 1 {
      assert Dump(items[0]) + "" == "" + Dump(items[0]);
    } else if items != [] {
      ItemsJoined(items[1..]);
      assert Dumps(items) == [Dump(items[0])] + Dumps(items[1..]);
      JoinFirst(Dump(items[0]), Dumps(items[1..]), ", ");
    }
  }

  /** An array is its items in brackets, a comma and a space between them. */
  lemma ArrayJoined(items: seq<Json>)
    requires forall i :: 0 <= i < |items| ==> Printable(items[i])
    ensures Dump(Arr(items)) == "[" + Join(Dumps(items), ", ") + "]"
  {
    ItemsJoined(items);
  }

  function MemberDumps(entries: seq<Entry>): seq<string>
    requires forall i :: 0 <= i < |entries| ==> Printable(entries[i].value)
  {
    seq(|entries|, i requires 0 <= i < |entries| => Dump(Str(entries[i].key)) + ": " + Dump(entries[i].value))
  }

  lemma JoinFew(t: string, sep: string)
    ensures Join([], sep) == "" && Join([t], sep) == t
  {
    assert "" + t == t;
  }

  lemma KeyDump(key: string)
    ensures Dump(Str(key)) == StringDump(key)
  {
  }

  lemma {:induction false} EntriesJoined(entries: seq<Entry>)
    requires forall i :: 0 <= i < |entries| ==> Printable(entries[i].value)
    ensures EntriesDump(entries) == Join(MemberDumps(entries), ", ")
    decreases |entries|
  {
    hide StringDump, Dump, Printable, Join;
    if entries == [] {
      JoinFew("", ", ");
    } else {
      var t := MemberDumps(entries)[0];
      KeyDump(entries[0].key);
      if |entries| == 1 {
        assert MemberDumps(entries) == [t] && t + "" == t;
        JoinFew(t, ", ");
      } else {
        EntriesJoined(entries[1..]);
        assert MemberDumps(entries) == [t] + MemberDumps(entries[1..]);
        JoinFirst(t, MemberDumps(entries[1..]), ", ");
      }
    }
  }

  /** An object is its members in braces, a colon and a space behind each key. */
  lemma ObjectJoined(entries: seq<Entry>)
    requires forall i :: 0 <= i < |entries| ==> Printable(entries[i].value)
    ensures Dump(Obj(entries)) == "{" + Join(MemberDumps(entries), ", ") + "}"
  {
    EntriesJoined(entries);
  }

  // ---------- strings ----------

  const HEX := "0123456789abcdef"

  /** What stands for `c` in a literal: its short escape if there is one, two hexadecimal digits for any
      other control character, and otherwise the character itself. */
  ghost predicate StandsFor(t: string, c: char) {
    if c != '/' && exists k :: EscapeCode(k) == c as int then |t| == 2 && t[0] == '\\' && EscapeCode(t[1]) == c as int
    else if c < ' ' then t == "\\u00" + [HEX[c as int / 16], HEX[c as int % 16]]
    else t == [c]
  }

  /** U+2028 or U+2029 in UTF-8. */
  predicate SeparatorAt(s: string, i: nat) {
    && i + 3 <= |s| && s[i] == 0xE2 as char && s[i + 1] == 0x80 as char
    && (s[i + 2] == 0xA8 as char || s[i + 2] == 0xA9 as char)
  }

  lemma EscapeCodes(c: char)
    ensures (exists k :: EscapeCode(k) == c as int) <==>
              c == '"' || c == '\\' || c == '/' || c as int in {8, 9, 10, 12, 13}
  {
    assert EscapeCode('"') == 0x22 && EscapeCode('\\') == 0x5C && EscapeCode('/') == 0x2F && EscapeCode('b') == 8;
    assert EscapeCode('f') == 12 && EscapeCode('n') == 10 && EscapeCode('r') == 13 && EscapeCode('t') == 9;
  }

  lemma HexDigits(d: nat)
    requires d < 16
    ensures DigitChar(d) == HEX[d]
  {
  }

  lemma CharStands(s: string, i: nat)
    requires i < |s|
    ensures SeparatorAt(s, i) ==> CharText(s, i) == (if s[i + 2] == 0xA8 as char then "\\u2028" else "\\u2029", 3)
    ensures !SeparatorAt(s, i) ==> CharText(s, i).1 == 1 && StandsFor(CharText(s, i).0, s[i])
  {
    var c := s[i];
    EscapeCodes(c);
    if c < ' ' {
      HexDigits(c as int / 16);
      HexDigits(c as int % 16);
    }
  }

  /** `t` spells out `s` from index `i` on, separators as `\u` escapes. */
  ghost predicate Spelled(t: string, s: string, i: nat)
    decreases |s| - i
  {
    if i >= |s| then t == ""
    else if SeparatorAt(s, i) then
      && 6 <= |t| && t[..6] == (if s[i + 2] == 0xA8 as char then "\\u2028" else "\\u2029")
      && Spelled(t[6..], s, i + 3)
    else exists k :: 0 <= k <= |t| && StandsFor(t[..k], s[i]) && Spelled(t[k..], s, i + 1)
  }

  lemma {:induction false} CharsSpelled(s: string, i: nat)
    requires i <= |s|
    ensures Spelled(CharsText(s, i), s, i)
    decreases |s| - i
  {
    hide CharText, StandsFor;
    if i < |s| {
      var first, k := CharText(s, i).0, CharText(s, i).1;
      var rest := CharsText(s, i + k);
      CharStands(s, i);
      CharsSpelled(s, i + k);
      var t := first + rest;
      assert t[..|first|] == first && t[|first|..] == rest;
    }
  }

  /** A printed literal is the string between quotation marks, with nothing escaped that need not be. */
  lemma StringSpelled(s: string)
    ensures var t := Dump(Str(s));
            |t| >= 2 && t[0] == '"' && t[|t| - 1] == '"' && Spelled(t[1..|t| - 1], s, 0)
  {
    hide CharsText;
    CharsSpelled(s, 0);
    assert Dump(Str(s))[1..|Dump(Str(s))| - 1] == CharsText(s, 0);
  }
}
