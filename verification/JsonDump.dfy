/** The JSON printer: the text it produces, and the loops that append it to `out`. */
module JsonDump {
  import opened ByteStrings
  import D = Doubles
  import opened JsonValues

  // ---------- numbers ----------

  function DigitChar(d: nat): char
    requires d < 16
  {
    if d < 10 then (d + '0' as int) as char else (d - 10 + 'a' as int) as char
  }

  function NatText(n: nat): (t: string)
    ensures t != ""
  {
    if n < 10 then [DigitChar(n)] else NatText(n / 10) + [DigitChar(n % 10)]
  }

  /** `"%d"`. */
  function IntText(n: int): string {
    if n < 0 then "-" + NatText(-n) else NatText(n)
  }

  function Zeros(k: nat): (t: string)
    ensures |t| == k
  {
    if k == 0 then "" else Zeros(k - 1) + "0"
  }

  function TrimZeros(t: string): (trimmed: string)
    requires t != ""
    ensures 0 < |trimmed| <= |t| && t[..|trimmed|] == trimmed
  {
    if |t| > 1 && t[|t| - 1] == '0' then TrimZeros(t[..|t| - 1]) else t
  }

  /** An exponent has at least two digits. */
  function ExponentDigits(e: nat): string {
    (if e < 10 then "0" else "") + NatText(e)
  }

  /** The layout of `"%.17g"`: `digits` are the significant digits, the first of them worth `10^e`. */
  function Layout(digits: string, e: int): string
    requires digits != ""
  {
    if e < -4 || e >= 17 then
      digits[..1] + (if |digits| == 1 then "" else "." + digits[1..])
      + (if e < 0 then "e-" + ExponentDigits(-e) else "e+" + ExponentDigits(e))
    else if e < 0 then "0." + (Zeros(-e - 1) + digits)
    else if |digits| <= e + 1 then digits + Zeros(e + 1 - |digits|)
    else digits[..e + 1] + "." + digits[e + 1..]
  }

  function MagnitudeText(a: real): string
    requires 0.0 <= a
  {
    if a == 0.0 then "0" else Layout(TrimZeros(NatText(D.Significant(a).0)), D.Significant(a).1)
  }

  /** `"%.17g"` of a finite double; anything else is dumped as null. */
  function DoubleText(x: real): string {
    if !D.IsFinite(x) then "null" else if x < 0.0 then "-" + MagnitudeText(-x) else MagnitudeText(x)
  }

  // ---------- strings ----------

  const BYTE_E2 := 0xE2 as char
  const BYTE_80 := 0x80 as char
  const BYTE_A8 := 0xA8 as char
  const BYTE_A9 := 0xA9 as char

  /** `value[i]` starts one of the separators U+2028 and U+2029, which end in `last`. The third
      byte is only looked at when the second one is there. */
  predicate IsSeparator(value: string, i: nat, last: char)
    requires i < |value|
  {
    value[i] == BYTE_E2 && Peek(value, i + 1) == BYTE_80 && Peek(value, i + 2) == last
  }

  /** `"\\u%04x"` of a control character. */
  function ControlText(c: char): string
    requires c < ' '
  {
    "\\u00" + [DigitChar(c as int / 16), DigitChar(c as int % 16)]
  }

  /** What one turn of the loop writes, and how far it moves. */
  function CharText(value: string, i: nat): (r: (string, nat))
    requires i < |value|
    ensures r.1 == 1 || (r.1 == 3 && i + 3 <= |value|)
  {
    var c := value[i];
    if c == '\\' then ("\\\\", 1)
    else if c == '"' then ("\\\"", 1)
    else if c == 8 as char then ("\\b", 1)
    else if c == 12 as char then ("\\f", 1)
    else if c == '\n' then ("\\n", 1)
    else if c == '\r' then ("\\r", 1)
    else if c == '\t' then ("\\t", 1)
    else if c < ' ' then (ControlText(c), 1)
    else if IsSeparator(value, i, BYTE_A8) then ("\\u2028", 3)
    else if IsSeparator(value, i, BYTE_A9) then ("\\u2029", 3)
    else ([c], 1)
  }

  function CharsText(value: string, i: nat): string
    requires i <= |value|
    decreases |value| - i
  {
    if i == |value| then "" else CharText(value, i).0 + CharsText(value, i + CharText(value, i).1)
  }

  function StringDump(value: string): string {
    "\"" + CharsText(value, 0) + "\""
  }

  // ---------- values ----------

  predicate FitsInt(n: int) {
    -0x8000_0000 <= n < 0x8000_0000
  }

  /** The numbers are ones that an `int` or a double can hold. */
  predicate Printable(v: Json)
    decreases v
  {
    match v
    case Int(n) => FitsInt(n)
    case Double(x) => D.IsDouble(x)
    case Arr(items) => forall i :: 0 <= i < |items| ==> Printable(items[i])
    case Obj(entries) => forall i :: 0 <= i < |entries| ==> Printable(entries[i].value)
    case _ => true
  }

  /** No number inside `v` is infinite. */
  predicate Finite(v: Json)
    decreases v
  {
    match v
    case Double(x) => D.IsFinite(x)
    case Arr(items) => forall i :: 0 <= i < |items| ==> Finite(items[i])
    case Obj(entries) => forall i :: 0 <= i < |entries| ==> Finite(entries[i].value)
    case _ => true
  }

  function Dump(v: Json): string
    requires Printable(v)
    decreases v
  {
    match v
    case Null => "null"
    case Bool(b) => if b then "true" else "false"
    case Int(n) => IntText(n)
    case Double(x) => DoubleText(x)
    case NegativeZero => "-0"
    case Str(s) => StringDump(s)
    case Arr(items) => "[" + ItemsDump(items) + "]"
    case Obj(entries) => "{" + EntriesDump(entries) + "}"
  }

  function ItemsDump(items: seq<Json>): string
    requires forall i :: 0 <= i < |items| ==> Printable(items[i])
    decreases items
  {
    if items == [] then ""
    else Dump(items[0]) + (if |items| == 1 then "" else ", " + ItemsDump(items[1..]))
  }

  function EntriesDump(entries: seq<Entry>): string
    requires forall i :: 0 <= i < |entries| ==> Printable(entries[i].value)
    decreases entries
  {
    if entries == [] then ""
    else StringDump(entries[0].key) + ": " + Dump(entries[0].value)
         + (if |entries| == 1 then "" else ", " + EntriesDump(entries[1..]))
  }

  // ---------- the printer's loops ----------

  lemma CharsTurn(value: string, i: nat, before: string, all: string)
    requires i < |value| && before + CharsText(value, i) == all
    ensures before + CharText(value, i).0 + CharsText(value, i + CharText(value, i).1) == all
  {
    hide CharText;
  }

  method DumpString(value: string, out: string) returns (out': string)
    ensures out' == out + StringDump(value)
  {
    hide CharsText, StringDump;
    out' := out + "\"";
    ghost var all := out' + CharsText(value, 0);
    var i := 0;
    while i < |value|
      invariant i <= |value|
      invariant out' + CharsText(value, i) == all
      decreases |value| - i
    {
      CharsTurn(value, i, out', all);
      ghost var before, start := out', i;
      var c := value[i];
      if c == '\\' {
        out' := out' + "\\\\";
      } else if c == '"' {
        out' := out' + "\\\"";
      } else if c == 8 as char {
        out' := out' + "\\b";
      } else if c == 12 as char {
        out' := out' + "\\f";
      } else if c == '\n' {
        out' := out' + "\\n";
      } else if c == '\r' {
        out' := out' + "\\r";
      } else if c == '\t' {
        out' := out' + "\\t";
      } else if c < ' ' {
        out' := out' + ControlText(c);
      } else if c == BYTE_E2 && Peek(value, i + 1) == BYTE_80 && Peek(value, i + 2) == BYTE_A8 {
        out' := out' + "\\u2028";
        i := i + 2;
      } else if c == BYTE_E2 && Peek(value, i + 1) == BYTE_80 && Peek(value, i + 2) == BYTE_A9 {
        out' := out' + "\\u2029";
        i := i + 2;
      } else {
        out' := out' + [c];
      }
      i := i + 1;
      assert out' == before + CharText(value, start).0 && i == start + CharText(value, start).1;
    }
    CharsEnd(value);
    assert out' == out + "\"" + CharsText(value, 0);
    out' := out' + "\"";
    StringDumpParts(value, out);
  }

  lemma CharsEnd(value: string)
    ensures CharsText(value, |value|) == ""
  {
  }

  lemma StringDumpParts(value: string, out: string)
    ensures out + "\"" + CharsText(value, 0) + "\"" == out + StringDump(value)
  {
    hide CharsText;
  }

  method DumpValue(v: Json, out: string) returns (out': string)
    requires Printable(v)
    ensures out' == out + Dump(v)
    decreases v, 1
  {
    match v
    case Null => out' := out + "null";
    case Bool(b) => out' := out + (if b then "true" else "false");
    case Int(n) => out' := out + IntText(n);
    case Double(x) => out' := out + DoubleText(x);
    case NegativeZero => out' := out + "-0";
    case Str(s) => out' := DumpString(s, out);
    case Arr(items) => out' := DumpArray(items, out);
    case Obj(entries) => out' := DumpObject(entries, out);
  }

  /** What a loop that separates by a leading comma still has to write from index `i` on. */
  ghost function ItemsLeft(items: seq<Json>, i: nat): string
    requires i <= |items| && forall i :: 0 <= i < |items| ==> Printable(items[i])
  {
    if i == |items| then "" else (if i == 0 then "" else ", ") + ItemsDump(items[i..])
  }

  lemma ItemsTurn(items: seq<Json>, i: nat, out: string, all: string)
    requires i < |items| && (forall i :: 0 <= i < |items| ==> Printable(items[i]))
    requires out + ItemsLeft(items, i) == all
    ensures out + (if i == 0 then "" else ", ") + Dump(items[i]) + ItemsLeft(items, i + 1) == all
  {
    hide Dump, Printable;
    assert items[i..][0] == items[i] && items[i..][1..] == items[i + 1..];
  }

  method DumpArray(items: seq<Json>, out: string) returns (out': string)
    requires forall i :: 0 <= i < |items| ==> Printable(items[i])
    ensures out' == out + "[" + ItemsDump(items) + "]"
    decreases items, 0
  {
    hide Dump, ItemsDump, ItemsLeft, Printable;
    var first := true;
    out' := out + "[";
    ghost var all := out' + ItemsLeft(items, 0);
    for i := 0 to |items|
      invariant first == (i == 0)
      invariant out' + ItemsLeft(items, i) == all
    {
      ItemsTurn(items, i, out', all);
      if !first {
        out' := out' + ", ";
      }
      out' := DumpValue(items[i], out');
      first := false;
    }
    ItemsEnd(items);
    out' := out' + "]";
  }

  lemma ItemsEnd(items: seq<Json>)
    requires forall i :: 0 <= i < |items| ==> Printable(items[i])
    ensures ItemsLeft(items, 0) == ItemsDump(items) && ItemsLeft(items, |items|) == ""
  {
    hide Dump, Printable;
    assert items[0..] == items;
  }

  ghost function EntriesLeft(entries: seq<Entry>, i: nat): string
    requires i <= |entries| && forall i :: 0 <= i < |entries| ==> Printable(entries[i].value)
  {
    if i == |entries| then "" else (if i == 0 then "" else ", ") + EntriesDump(entries[i..])
  }

  lemma EntriesTurn(entries: seq<Entry>, i: nat, out: string, all: string)
    requires i < |entries| && (forall i :: 0 <= i < |entries| ==> Printable(entries[i].value))
    requires out + EntriesLeft(entries, i) == all
    ensures out + (if i == 0 then "" else ", ") + StringDump(entries[i].key) + ": " + Dump(entries[i].value)
            + EntriesLeft(entries, i + 1) == all
  {
    hide Dump, Printable, StringDump;
    assert entries[i..][0] == entries[i] && entries[i..][1..] == entries[i + 1..];
    var key, value, left := StringDump(entries[i].key), Dump(entries[i].value), EntriesLeft(entries, i + 1);
    assert EntriesLeft(entries, i) == (if i == 0 then "" else ", ") + (key + ": " + value + left);
    TurnAssociates(out, if i == 0 then "" else ", ", key, value, left);
  }

  lemma TurnAssociates(out: string, separator: string, key: string, value: string, left: string)
    ensures out + (separator + (key + ": " + value + left)) == out + separator + key + ": " + value + left
  {
  }

  method DumpObject(entries: seq<Entry>, out: string) returns (out': string)
    requires forall i :: 0 <= i < |entries| ==> Printable(entries[i].value)
    ensures out' == out + "{" + EntriesDump(entries) + "}"
    decreases entries, 0
  {
    hide Dump, EntriesDump, EntriesLeft, Printable, StringDump;
    var first := true;
    out' := out + "{";
    ghost var all := out' + EntriesLeft(entries, 0);
    for i := 0 to |entries|
      invariant first == (i == 0)
      invariant out' + EntriesLeft(entries, i) == all
    {
      EntriesTurn(entries, i, out', all);
      if !first {
        out' := out' + ", ";
      }
      out' := DumpString(entries[i].key, out');
      out' := out' + ": ";
      out' := DumpValue(entries[i].value, out');
      first := false;
    }
    EntriesEnd(entries);
    out' := out' + "}";
  }

  lemma EntriesEnd(entries: seq<Entry>)
    requires forall i :: 0 <= i < |entries| ==> Printable(entries[i].value)
    ensures EntriesLeft(entries, 0) == EntriesDump(entries) && EntriesLeft(entries, |entries|) == ""
  {
    hide Dump, Printable;
    assert entries[0..] == entries;
  }
}
