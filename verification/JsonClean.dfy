/** Every dump is one line of text that a JavaScript parser takes, too: no control characters and
    neither of the separators U+2028 and U+2029. */
module JsonClean {
  import opened JsonDump
  import opened JsonGrammar
  import opened JsonNumerals
  import opened JsonValues

  predicate SeparatorAt(t: string, i: int) {
    0 <= i < |t| - 2 && t[i] == BYTE_E2 && t[i + 1] == BYTE_80 && (t[i + 2] == BYTE_A8 || t[i + 2] == BYTE_A9)
  }

  predicate Clean(t: string) {
    (forall i :: 0 <= i < |t| ==> t[i] >= ' ') && forall i :: 0 <= i < |t| ==> !SeparatorAt(t, i)
  }

  predicate Ascii(t: string) {
    forall i :: 0 <= i < |t| ==> ' ' <= t[i] < 128 as char
  }

  /** Nothing begins or ends with a byte that could belong to a separator. */
  predicate Enclosed(t: string) {
    t != "" && t[0] < 128 as char && t[|t| - 1] < 128 as char
  }

  lemma AsciiClean(t: string)
    requires Ascii(t)
    ensures Clean(t) && (t != "" ==> Enclosed(t))
  {
  }

  /** A separator does not arise where one side of the seam is no part of one. */
  lemma CleanJoin(a: string, b: string)
    requires Clean(a) && Clean(b)
    requires a == "" || b == "" || a[|a| - 1] < 128 as char || b[0] < 128 as char
    ensures Clean(a + b)
  {
    var t := a + b;
    forall i | 0 <= i < |t| ensures !SeparatorAt(t, i) && t[i] >= ' ' {
      if i < |a| {
        assert t[i] == a[i] && !SeparatorAt(a, i);
      } else {
        assert t[i] == b[i - |a|] && !SeparatorAt(b, i - |a|);
      }
    }
  }

  // ---------- strings ----------

  /** A high byte in the output was copied from the input, where it starts no separator. */
  lemma CharTextAscii(value: string, i: nat)
    requires i < |value|
    ensures CharText(value, i).0 != ""
    ensures CharText(value, i).0[0] >= 128 as char ==> CharText(value, i) == ([value[i]], 1)
    ensures CharText(value, i) == ([value[i]], 1) ==> !SeparatorAt(value, i)
    ensures CharText(value, i) != ([value[i]], 1) || value[i] < 128 as char ==> Ascii(CharText(value, i).0)
  {
    if value[i] < ' ' {
      DigitCharAscii(value[i] as int / 16);
      DigitCharAscii(value[i] as int % 16);
    }
  }

  lemma DigitCharAscii(d: nat)
    requires d < 16
    ensures ' ' <= DigitChar(d) < 128 as char
  {
  }

  lemma {:induction false} CharsClean(value: string, i: nat)
    requires i <= |value|
    ensures Clean(CharsText(value, i))
    decreases |value| - i
  {
    hide CharText, Clean, SeparatorAt;
    if i == |value| {
      AsciiClean("");
    } else {
      var (text, n) := CharText(value, i);
      var rest := CharsText(value, i + n);
      CharsClean(value, i + n);
      CharTextAscii(value, i);
      if Ascii(text) {
        AsciiClean(text);
        CleanJoin(text, rest);
      } else {
        RawByteClean(value, i);
      }
    }
  }

  /** A byte that is copied does not start a separator: such a start is escaped. */
  lemma RawByteClean(value: string, i: nat)
    requires i < |value| && CharText(value, i) == ([value[i]], 1) && value[i] >= 128 as char
    requires Clean(CharsText(value, i + 1))
    ensures Clean([value[i]] + CharsText(value, i + 1))
  {
    hide CharText;
    var c, rest := value[i], CharsText(value, i + 1);
    var t := [c] + rest;
    forall k | 0 <= k < |t| ensures !SeparatorAt(t, k) && t[k] >= ' ' {
      if k > 0 {
        assert t[k] == rest[k - 1] && !SeparatorAt(rest, k - 1);
      } else if SeparatorAt(t, 0) {
        CopiedBytes(value, i + 1);
        CharTextAscii(value, i);
        assert false;
      }
    }
  }

  lemma CopiedBytes(value: string, i: nat)
    requires i <= |value| && |CharsText(value, i)| >= 2
    requires CharsText(value, i)[0] >= 128 as char && CharsText(value, i)[1] >= 128 as char
    ensures i + 2 <= |value| && value[i] == CharsText(value, i)[0] && value[i + 1] == CharsText(value, i)[1]
  {
    hide CharText;
    CharTextAscii(value, i);
    var rest := CharsText(value, i + 1);
    assert CharsText(value, i) == [value[i]] + rest;
    CharTextAscii(value, i + 1);
  }

  lemma StringClean(value: string)
    ensures Clean(StringDump(value)) && Enclosed(StringDump(value))
  {
    hide Clean, CharsText;
    CharsClean(value, 0);
    AsciiClean("\"");
    CleanJoin("\"", CharsText(value, 0));
    CleanJoin("\"" + CharsText(value, 0), "\"");
  }

  // ---------- values ----------

  lemma {:induction false} NatTextAscii(n: nat)
    ensures Ascii(NatText(n)) && NatText(n) != ""
  {
    hide DigitChar;
    DigitCharAscii(n % 10);
    if n >= 10 {
      NatTextAscii(n / 10);
    }
  }

  lemma NumberAscii(n: Number)
    requires ValidNumber(n)
    ensures Ascii(NumberText(n)) && NumberText(n) != ""
  {
    hide NumberText, ValidNumber;
    NumberTextChars(n);
  }

  lemma Around(open: string, text: string, close: string)
    requires Ascii(open) && open != "" && Ascii(close) && close != "" && Clean(text)
    ensures Clean(open + text + close) && Enclosed(open + text + close)
  {
    hide Clean;
    AsciiClean(open);
    AsciiClean(close);
    CleanJoin(open, text);
    CleanJoin(open + text, close);
  }

  lemma DoubleClean(x: real)
    requires D.IsDouble(x)
    ensures Clean(DoubleText(x)) && Enclosed(DoubleText(x))
  {
    hide Clean, Enclosed, DoubleNumber, D.IsDouble;
    if D.IsFinite(x) {
      DoubleNumberText(x);
      NumberAscii(DoubleNumber(x));
      AsciiClean(DoubleText(x));
    } else {
      AsciiClean("null");
    }
  }

  /** No dump contains a control character or one of the separators, whatever bytes its strings hold. */
  lemma {:induction false} DumpClean(v: Json)
    requires Printable(v)
    ensures Clean(Dump(v)) && Enclosed(Dump(v))
    decreases v, 1
  {
    hide Clean, Enclosed, IntText, DoubleText, StringDump, ItemsDump, EntriesDump, IntNumber, DoubleNumber;
    match v
    case Null => AsciiClean("null");
    case Bool(b) => AsciiClean(if b then "true" else "false");
    case Int(n) =>
      IntNumberMeaning(n);
      NumberAscii(IntNumber(n));
      AsciiClean(IntText(n));
    case Double(x) => DoubleClean(x);
    case NegativeZero => AsciiClean("-0");
    case Str(s) => StringClean(s);
    case Arr(items) =>
      ItemsClean(items);
      Around("[", ItemsDump(items), "]");
    case Obj(entries) =>
      EntriesClean(entries);
      Around("{", EntriesDump(entries), "}");
  }

  lemma {:induction false} ItemsClean(items: seq<Json>)
    requires forall i :: 0 <= i < |items| ==> Printable(items[i])
    ensures Clean(ItemsDump(items))
    decreases items, 0
  {
    hide Clean, Dump, Printable;
    if items == [] {
      AsciiClean("");
    } else {
      DumpClean(items[0]);
      if |items| > 1 {
        ItemsClean(items[1..]);
        AsciiClean(", ");
        CleanJoin(", ", ItemsDump(items[1..]));
        CleanJoin(Dump(items[0]), ", " + ItemsDump(items[1..]));
      } else {
        assert Dump(items[0]) + "" == Dump(items[0]);
      }
    }
  }

  lemma {:induction false} EntriesClean(entries: seq<Entry>)
    requires forall i :: 0 <= i < |entries| ==> Printable(entries[i].value)
    ensures Clean(EntriesDump(entries))
    decreases entries, 0
  {
    hide Clean, Dump, Printable, StringDump;
    if entries == [] {
      AsciiClean("");
    } else {
      var key, value := StringDump(entries[0].key), Dump(entries[0].value);
      StringClean(entries[0].key);
      DumpClean(entries[0].value);
      AsciiClean(": ");
      CleanJoin(key, ": ");
      CleanJoin(key + ": ", value);
      if |entries| > 1 {
        EntriesClean(entries[1..]);
        AsciiClean(", ");
        CleanJoin(", ", EntriesDump(entries[1..]));
        CleanJoin(key + ": " + value, ", " + EntriesDump(entries[1..]));
      } else {
        assert key + ": " + value + "" == key + ": " + value;
      }
    }
  }
}
