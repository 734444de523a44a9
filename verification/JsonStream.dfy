/** `Json::parse_multi` on streams of values. */
module JsonStream {
  import opened ByteStrings
  import opened JsonComplete
  import opened JsonDump
  import opened JsonGrammar
  import opened JsonLexical
  import opened JsonNumbers
  import opened JsonNumerals
  import opened JsonParserSpec
  import opened JsonPrefix
  import opened JsonRoundTrip
  import opened JsonValues
  import opened Utf8

  // ---------- a stream of dumps is split into its values ----------

  /** One value of a stream and the whitespace behind it. */
  datatype Part = Part(v: Json, gap: string)

  predicate ValidPart(p: Part) {
    Printable(p.v) && WellFormed(p.v) && Depth(p.v) <= MAX_DEPTH && Spaces(p.gap)
  }

  predicate StartsWithDigit(t: string) {
    t != "" && IsDigit(t[0])
  }

  predicate Valid(parts: seq<Part>) {
    forall k :: 0 <= k < |parts| ==> ValidPart(parts[k])
  }

  /** The dump is a number; that of an infinity is not. */
  predicate IsNumeral(v: Json) {
    v.Int? || v.NegativeZero? || (v.Double? && D.IsFinite(v.x))
  }

  /** No number without a gap meets a digit. */
  predicate Joins(p: Part, next: Part)
    requires Printable(next.v)
  {
    p.gap != "" || !IsNumeral(p.v) || !StartsWithDigit(Dump(next.v))
  }

  predicate Apart(parts: seq<Part>)
    requires Valid(parts)
  {
    forall k :: 0 < k < |parts| ==> Joins(parts[k - 1], parts[k])
  }

  function Stream(parts: seq<Part>): string
    requires Valid(parts)
  {
    if parts == [] then "" else Dump(parts[0].v) + parts[0].gap + Stream(parts[1..])
  }

  lemma DumpStarts(v: Json)
    requires Printable(v)
    ensures Dump(v) != "" && StartsValue(Dump(v)[0])
    ensures DocOf(v).NumberDoc? <==> IsNumeral(v)
    ensures IsNumberChar(Dump(v)[0]) ==> IsNumeral(v)
  {
    DocOfText(v);
    TextStarts(DocOf(v));
  }

  /** A value of the stream really ends where its dump ends. */
  lemma PartEnds(s: string, j: nat, parts: seq<Part>)
    requires parts != [] && Valid(parts) && At(s, j, parts[0].gap)
    requires |parts| > 1 ==> Joins(parts[0], parts[1])
    requires j + |parts[0].gap| <= |s| && At(s, j + |parts[0].gap|, Stream(parts[1..]))
    requires j + |parts[0].gap| + |Stream(parts[1..])| == |s|
    ensures Ends(s, j, DocOf(parts[0].v))
  {
    hide Dump, WellFormed, Printable, Depth, DocOf, Stream;
    var gap := parts[0].gap;
    DumpStarts(parts[0].v);
    if gap != "" {
      FirstAt(s, j, gap);
    }
    if |parts| > 1 {
      DumpStarts(parts[1].v);
      StreamStarts(parts[1..]);
      FirstAt(s, j + |gap|, Stream(parts[1..]));
    } else {
      EmptyStream(parts[1..]);
    }
  }

  lemma EmptyStream(parts: seq<Part>)
    requires parts == []
    ensures Stream(parts) == ""
  {
  }

  /** Whatever follows is the start of a value, or nothing. */
  lemma PartStarts(s: string, k: nat, parts: seq<Part>)
    requires Valid(parts) && k <= |s| && At(s, k, Stream(parts)) && k + |Stream(parts)| == |s|
    ensures !IsSpace(Peek(s, k)) && Peek(s, k) != '/'
  {
    hide Dump, Stream, WellFormed, Printable, Depth;
    if parts != [] {
      DumpStarts(parts[0].v);
      StreamStarts(parts);
      FirstAt(s, k, Stream(parts));
    } else {
      EmptyStream(parts);
    }
  }

  lemma StreamStarts(parts: seq<Part>)
    requires parts != [] && Valid(parts)
    ensures Dump(parts[0].v) != "" && Stream(parts) != "" && Stream(parts)[0] == Dump(parts[0].v)[0]
  {
    DumpStarts(parts[0].v);
  }

  lemma {:induction false} StreamFrom(s: string, i: nat, stop: nat, done: seq<Json>, parts: seq<Part>, comments: bool)
    returns (values: seq<Json>)
    requires Valid(parts) && Apart(parts) && At(s, i, Stream(parts)) && i + |Stream(parts)| == |s|
    ensures ParseMulti(s, i, stop, done, comments)
         == Multi(done + values, if parts == [] then stop else |s|, NoError)
    ensures |values| == |parts| && forall k :: 0 <= k < |values| ==>
              (Equal(values[k], parts[k].v) <==> Finite(parts[k].v))
    decreases |parts|
  {
    hide Dump, WellFormed, Printable, Depth, DocOf, Meaning, Equal, Finite, ParseMulti, Joins;
    if parts == [] {
      values := [];
      assert done + [] == done;
      NothingLeft(s, stop, done, comments);
    } else {
      var k, v := FirstPart(s, i, stop, done, parts, comments);
      var later := StreamFrom(s, k, k, done + [v], parts[1..], comments);
      values := [v] + later;
      assert done + [v] + later == done + values;
    }
  }

  lemma NothingLeft(s: string, stop: nat, done: seq<Json>, comments: bool)
    ensures ParseMulti(s, |s|, stop, done, comments) == Multi(done, stop, NoError)
  {
  }

  /** One turn of the loop over a part that is apart from the next one. */
  lemma FirstPart(s: string, i: nat, stop: nat, done: seq<Json>, parts: seq<Part>, comments: bool)
    returns (k: nat, v: Json)
    requires parts != [] && Valid(parts) && At(s, i, Stream(parts)) && i + |Stream(parts)| == |s|
    requires |parts| > 1 ==> Joins(parts[0], parts[1])
    ensures i < k <= |s| && At(s, k, Stream(parts[1..])) && k + |Stream(parts[1..])| == |s|
    ensures Equal(v, parts[0].v) <==> Finite(parts[0].v)
    ensures ParseMulti(s, i, stop, done, comments) == ParseMulti(s, k, k, done + [v], comments)
  {
    hide Dump, WellFormed, Printable, Depth, DocOf, Meaning, Equal, Finite, ParseValue, SkipGarbage, Ends, FailureValue;
    var d, gap, rest := Dump(parts[0].v), parts[0].gap, Stream(parts[1..]);
    var j := i + |d|;
    k := j + |gap|;
    AtConcat3(s, i, d, gap, rest);
    assert ValidPart(parts[0]);
    DumpStarts(parts[0].v);
    PartEnds(s, j, parts);
    PartStarts(s, k, parts[1..]);
    PartParses(s, i, parts[0].v, comments);
    v := Meaning(DocOf(parts[0].v));
    GarbageSkipped(s, j, gap, comments);
  }

  lemma PartParses(s: string, i: nat, v: Json, comments: bool)
    requires Printable(v) && WellFormed(v) && Depth(v) <= MAX_DEPTH && At(s, i, Dump(v))
    requires Ends(s, i + |Dump(v)|, DocOf(v))
    ensures ValidDoc(DocOf(v)) && (Equal(Meaning(DocOf(v)), v) <==> Finite(v))
    ensures ParseValue(s, i, 0, comments) == Ok(Meaning(DocOf(v)), i + |Dump(v)|)
  {
    hide Dump, WellFormed, Printable, Depth, DocOf, Meaning, Equal, Finite, ParseValue, Ends, Text;
    DocOfText(v);
    DocOfMeaning(v);
    Empty(s, i);
    ValueComplete(s, i, "", DocOf(v), 0, comments);
  }

  /** If no number meets a digit, a stream of dumps, concatenated or separated by whitespace, is split
      into exactly its values, and the stop position is the end of the input. */
  lemma StreamSplits(parts: seq<Part>, comments: bool) returns (values: seq<Json>)
    requires Valid(parts) && Apart(parts)
    ensures ParseMulti(Stream(parts), 0, 0, [], comments) == Multi(values, |Stream(parts)|, NoError)
    ensures |values| == |parts| && forall k :: 0 <= k < |values| ==>
              (Equal(values[k], parts[k].v) <==> Finite(parts[k].v))
  {
    hide Dump, WellFormed, Printable, Depth, Equal, Finite, ParseMulti, Apart;
    var s := Stream(parts);
    assert s[0..|s|] == s;
    values := StreamFrom(s, 0, 0, [], parts, comments);
    assert [] + values == values;
    if parts == [] {
      EmptyStream(parts);
    }
  }

  // ---------- what a failed value leaves behind ----------

  /** A value that fails is pushed as the empty string instead of null exactly when it is a string
      literal that is broken. */
  lemma BrokenStringIff(s: string, i: nat, depth: nat, comments: bool)
    requires i <= |s| && ParseValue(s, i, depth, comments).Fail?
    ensures FailureValue(s, i, depth, comments) == Null || FailureValue(s, i, depth, comments) == Str("")
    ensures FailureValue(s, i, depth, comments) == Str("") <==>
              && depth <= MAX_DEPTH
              && exists j: nat :: j <= |s| && NextToken(s, i, comments) == Ok('"', j) && ParseString(s, j, "", -1).Fail?
  {
    hide NextToken, ParseString, ParseNumber, ParseItems, ParseMembers, Expect;
  }

  /** So a stream that is broken off in its first literal holds a value, although none was read. */
  lemma BrokenStringPushed()
    ensures ParseMulti("\"a", 0, 0, [], false) == Multi([Str("")], 0, First(EndInString))
  {
    hide Encode;
    var s := "\"a";
    assert SkipSpaces(s, 0) == 0 && NextToken(s, 0, false) == Ok('"', 1);
    assert ParseString(s, 2, "" + Encode(-1) + ['a'], -1) == Fail(EndInString);
    assert ParseString(s, 1, "", -1) == Fail(EndInString);
    assert ParseValue(s, 0, 0, false) == Fail(EndInString);
  }

  // ---------- the stop position ----------

  /** The values that were parsed successfully; what a failed one returned stands behind them. */
  function Good(m: Multi): seq<Json> {
    if m.error == NoError || m.values == [] then m.values else m.values[..|m.values| - 1]
  }

  lemma {:induction false} PrefixFrom(s: string, i: nat, done: seq<Json>, comments: bool)
    requires i <= |s|
    ensures var m := ParseMulti(s, i, i, done, comments);
            && i <= m.stop <= |s| && |done| <= |Good(m)|
            && ParseMulti(s[..m.stop], i, i, done, comments) == Multi(Good(m), m.stop, NoError)
    decreases |s| - i
  {
    hide ParseValue, SkipGarbage, FailureValue;
    var o := ParseValue(s, i, 0, comments);
    if i < |s| && o.Ok? && SkipGarbage(s, o.next, comments).Ok? {
      var k := SkipGarbage(s, o.next, comments).next;
      PrefixFrom(s, k, done + [o.value], comments);
      var n := ParseMulti(s, i, i, done, comments).stop;
      ValuePrefix(s, n, i, 0, comments);
      GarbagePrefix(s, n, o.next, comments);
    }
  }

  /** On any input and in either mode, the prefix up to the stop position holds exactly the values that
      were read: parsing it again yields them all and no error. */
  lemma StopPosition(s: string, comments: bool)
    ensures var m := ParseMulti(s, 0, 0, [], comments);
            && m.stop <= |s|
            && ParseMulti(s[..m.stop], 0, 0, [], comments) == Multi(Good(m), m.stop, NoError)
  {
    PrefixFrom(s, 0, [], comments);
  }
}
