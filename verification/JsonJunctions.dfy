/** Numbers that run together: exactly when a stream of dumps is not split into its values. A row of
    number characters may end in the midst of the stream, but then a point or an exponent is left over. */
module JsonJunctions {
  import opened ByteStrings
  import opened JsonComplete
  import opened JsonDump
  import opened JsonGrammar
  import opened JsonLexical
  import opened JsonNumbers
  import opened JsonNumerals
  import opened JsonParserSpec
  import opened JsonPrefix
  import opened JsonRoundTrip
  import opened JsonStream
  import opened JsonValues

  // ---------- numbers as rows of characters ----------

  /** What is not a digit is the minus, the point, the mark of an exponent or the sign behind it. */
  lemma NumberAt(n: Number, k: nat)
    requires ValidNumber(n) && k < |NumberText(n)|
    ensures var t := NumberText(n);
            IsDigit(t[k]) || k == 0 || t[k] == '.' || IsMark(t[k]) || IsMark(t[k - 1])
  {
    var a, b, c, d := Minus(n.negative), n.whole, FractionText(n.frac), ExponentText(n.exp);
    assert NumberText(n) == a + b + c + d;
    var p := k - |a|;
    if k == 0 {
    } else if p < |b| {
      assert NumberText(n)[k] == b[p];
    } else if p < |b| + |c| {
      assert c == "." + n.frac;
      assert NumberText(n)[k] == c[p - |b|];
    } else {
      var q := p - |b| - |c|;
      assert d == [n.exp.mark] + SignText(n.exp.sign) + n.exp.digits;
      assert NumberText(n)[k] == d[q];
      assert q > 0 ==> NumberText(n)[k - 1] == d[q - 1];
    }
  }

  lemma NumberEnd(n: Number)
    requires ValidNumber(n)
    ensures NumberText(n) != "" && IsDigit(NumberText(n)[|NumberText(n)| - 1])
  {
    var a, b, c, d := Minus(n.negative), n.whole, FractionText(n.frac), ExponentText(n.exp);
    assert NumberText(n) == a + b + c + d;
    if n.exp.Exponent? {
      assert d == [n.exp.mark] + SignText(n.exp.sign) + n.exp.digits;
    } else if n.frac != "" {
      assert c == "." + n.frac;
    }
  }

  /** `s[i..q]` is a row of such characters that ends in a digit and does not go on with one. */
  ghost predicate Row(s: string, i: nat, q: nat) {
    && i < q <= |s| && IsDigit(s[q - 1]) && !IsDigit(Peek(s, q))
    && forall k :: i <= k < q ==> IsNumberChar(s[k])
  }

  lemma NumberIsRow(s: string, i: nat)
    requires i <= |s| && ParseNumber(s, i).Ok?
    ensures Row(s, i, ParseNumber(s, i).next)
  {
    hide ParseNumber, NumberText, ValidNumber, IsNumberChar;
    var n := NumberSound(s, i);
    NumberEnd(n);
    NumberTextChars(n);
    var t, q := NumberText(n), i + |NumberText(n)|;
    assert s[i..q] == t;
    assert forall k :: i <= k < q ==> s[k] == t[k - i];
  }

  lemma RowTail(s: string, i: nat, e: nat, q: nat)
    requires Row(s, i, q) && i <= e < q
    ensures Row(s, e, q)
  {
  }

  /** A number in front of a digit is not read as itself. */
  lemma NumberGoesOn(s: string, i: nat, n: Number)
    requires ValidNumber(n) && At(s, i, NumberText(n)) && IsDigit(Peek(s, i + |NumberText(n)|))
    requires ParseNumber(s, i).Ok?
    ensures ParseNumber(s, i).next > i + |NumberText(n)|
  {
    hide ParseNumber, NumberText, NumberMeaning, ValidNumber;
    var e := i + |NumberText(n)|;
    NumberIsRow(s, i);
    if ParseNumber(s, i).next <= e {
      NumberPrefix(s, e, i);
      AtPrefix(s, e, i, NumberText(n));
      NumberComplete(s[..e], i, n);
    }
  }

  // ---------- where a number ends in the stream ----------

  lemma NoGap(s: string, e: nat, gap: string)
    requires Spaces(gap) && At(s, e, gap) && e < |s| && IsNumberChar(s[e])
    ensures gap == ""
  {
    if gap != "" {
      FirstAt(s, e, gap);
    }
  }

  lemma InsideNumber(s: string, i: nat, q: nat, v: Json)
    requires Printable(v) && At(s, i, Dump(v)) && Row(s, i, q) && q < i + |Dump(v)|
    ensures q < |s| && (s[q] == '.' || IsMark(s[q]))
  {
    hide Dump, Printable, DocOf, IsNumberChar, NumberText, ValidNumber;
    var t := Dump(v);
    DumpStarts(v);
    FirstAt(s, i, t);
    DocOfText(v);
    assert s[i..i + |t|] == t;
    assert s[q] == t[q - i] && s[q - 1] == t[q - i - 1];
    NumberAt(DocOf(v).n, q - i);
  }

  /** The stream goes on behind position `q` with the gap of part `j - 1` and the parts from `j` on. */
  ghost predicate Behind(s: string, q: nat, parts: seq<Part>, j: nat)
    requires Valid(parts)
  {
    && 0 < j <= |parts| && At(s, q, parts[j - 1].gap) && At(s, q + |parts[j - 1].gap|, Stream(parts[j..]))
    && q + |parts[j - 1].gap| + |Stream(parts[j..])| == |s|
  }

  lemma BehindLater(s: string, q: nat, parts: seq<Part>, j: nat)
    requires parts != [] && Valid(parts) && Behind(s, q, parts[1..], j)
    ensures j > 0 && Behind(s, q, parts, j + 1)
  {
    hide Stream;
    assert parts[1..][j - 1] == parts[j] && parts[1..][j..] == parts[j + 1..];
  }

  lemma BehindFirst(s: string, q: nat, parts: seq<Part>)
    requires parts != [] && Valid(parts) && At(s, q, parts[0].gap)
    requires At(s, q + |parts[0].gap|, Stream(parts[1..])) && q + |parts[0].gap| + |Stream(parts[1..])| == |s|
    ensures Behind(s, q, parts, 1)
  {
  }

  /** Either a point or an exponent is left over, or whole parts were read: more than one if it was more
      than the first. */
  lemma {:induction false} EndOfRow(s: string, i: nat, q: nat, parts: seq<Part>) returns (j: nat)
    requires Valid(parts) && At(s, i, Stream(parts)) && i + |Stream(parts)| == |s| && Row(s, i, q)
    ensures parts != []
    ensures (q < |s| && (s[q] == '.' || IsMark(s[q])))
            || (Behind(s, q, parts, j) && (q > i + |Dump(parts[0].v)| ==> j > 1))
    decreases |parts|
  {
    hide Dump, WellFormed, Printable, Depth, IsNumberChar, IsDigit, Behind;
    if parts == [] {
      EmptyStream(parts);
    }
    var d, gap, rest := Dump(parts[0].v), parts[0].gap, Stream(parts[1..]);
    var e := i + |d|;
    AtConcat3(s, i, d, gap, rest);
    j := 1;
    if q < e {
      InsideNumber(s, i, q, parts[0].v);
    } else if q == e {
      BehindFirst(s, q, parts);
    } else {
      NoGap(s, e, gap);
      RowTail(s, i, e, q);
      var more := EndOfRow(s, e, q, parts[1..]);
      j := more + 1;
      if Behind(s, q, parts[1..], more) {
        BehindLater(s, q, parts, more);
      }
    }
  }

  // ---------- the loop ----------

  /** What a number's first character makes of `parse_json`. */
  lemma NumberTurn(s: string, i: nat, n: Number, comments: bool)
    requires ValidNumber(n) && At(s, i, NumberText(n))
    ensures i <= |s| && ParseValue(s, i, 0, comments) == ParseNumber(s, i)
  {
    hide NumberText, ValidNumber, ParseNumber;
    NumberStarts(n);
    FirstAt(s, i, NumberText(n));
    Empty(s, i);
    GarbageSkipped(s, i, "", comments);
  }

  lemma NumberStarts(n: Number)
    requires ValidNumber(n)
    ensures NumberText(n) != "" && (NumberText(n)[0] == '-' || IsDigit(NumberText(n)[0]))
  {
    assert NumberText(n)[0] == (Minus(n.negative) + n.whole)[0];
  }

  /** In front of a point or an exponent the loop ends with an error. */
  lemma LeftOver(s: string, q: nat, done: seq<Json>, comments: bool)
    requires q < |s| && (s[q] == '.' || IsMark(s[q]))
    ensures SkipGarbage(s, q, comments) == Ok((), q)
    ensures ParseMulti(s, q, q, done, comments).error != NoError
  {
    hide ParseString, ParseNumber, ParseItems, ParseMembers;
    Empty(s, q);
    GarbageSkipped(s, q, "", comments);
  }

  /** One turn over a number that meets a digit: an error now or at once, or a value for at least two
      parts. */
  lemma JoinedTurn(s: string, i: nat, stop: nat, done: seq<Json>, parts: seq<Part>, comments: bool)
    returns (j: nat, k: nat, v: Json)
    requires |parts| > 1 && Valid(parts) && At(s, i, Stream(parts)) && i + |Stream(parts)| == |s|
    requires !Joins(parts[0], parts[1]) && ParseMulti(s, i, stop, done, comments).error == NoError
    ensures 1 < j <= |parts| && i < k <= |s| && At(s, k, Stream(parts[j..])) && k + |Stream(parts[j..])| == |s|
    ensures ParseMulti(s, i, stop, done, comments) == ParseMulti(s, k, k, done + [v], comments)
  {
    hide Dump, WellFormed, Printable, Depth, DocOf, ParseNumber, ParseValue, NumberText, ValidNumber, Stream,
      SkipGarbage, FailureValue, Row, ParseMulti;
    NumberMeetsDigit(s, i, parts);
    var n := DocOf(parts[0].v).n;
    NumberTurn(s, i, n, comments);
    LoopTurn(s, i, stop, done, comments);
    var q := ParseNumber(s, i).next;
    v := ParseNumber(s, i).value;
    NumberIsRow(s, i);
    NumberGoesOn(s, i, n);
    j := EndOfRow(s, i, q, parts);
    if q < |s| && (s[q] == '.' || IsMark(s[q])) {
      LeftOver(s, q, done + [v], comments);
      assert false;
    }
    k := q + |parts[j - 1].gap|;
    PartStarts(s, k, parts[j..]);
    GarbageSkipped(s, q, parts[j - 1].gap, comments);
  }

  lemma NumberMeetsDigit(s: string, i: nat, parts: seq<Part>)
    requires |parts| > 1 && Valid(parts) && At(s, i, Stream(parts)) && i + |Stream(parts)| == |s|
    requires !Joins(parts[0], parts[1])
    ensures DocOf(parts[0].v).NumberDoc?
    ensures var n := DocOf(parts[0].v).n;
            ValidNumber(n) && NumberText(n) == Dump(parts[0].v) && At(s, i, NumberText(n))
            && i < |s| && IsDigit(Peek(s, i + |NumberText(n)|))
  {
    hide Dump, WellFormed, Printable, Depth, DocOf, NumberText, ValidNumber, IsDigit;
    var d, gap, rest := Dump(parts[0].v), parts[0].gap, Stream(parts[1..]);
    AtConcat3(s, i, d, gap, rest);
    DumpStarts(parts[0].v);
    DocOfText(parts[0].v);
    StreamStarts(parts[1..]);
    FirstAt(s, i + |d| + |gap|, rest);
  }

  /** The loop goes on behind a value and what follows it, or ends with an error. */
  lemma LoopTurn(s: string, i: nat, stop: nat, done: seq<Json>, comments: bool)
    requires i < |s|
    ensures var o := ParseValue(s, i, 0, comments);
            var m := ParseMulti(s, i, stop, done, comments);
            if o.Fail? || SkipGarbage(s, o.next, comments).Fail? then m.error != NoError
            else
              var k := SkipGarbage(s, o.next, comments).next;
              m == ParseMulti(s, k, k, done + [o.value], comments)
  {
    hide ParseValue, SkipGarbage, FailureValue;
  }

  lemma ApartFrom(parts: seq<Part>)
    requires parts != [] && Valid(parts) && Apart(parts[1..]) && (|parts| > 1 ==> Joins(parts[0], parts[1]))
    ensures Apart(parts)
  {
    hide Joins, Printable, WellFormed, Depth, Spaces;
    forall m | 0 < m < |parts|
      ensures Joins(parts[m - 1], parts[m])
    {
      assert ValidPart(parts[m]);
      if m > 1 {
        assert parts[1..][m - 2] == parts[m - 1] && parts[1..][m - 1] == parts[m];
      }
    }
  }

  /** Without an error there are at most as many values as parts, and fewer if a number meets a digit. */
  lemma {:induction false} CountValues(s: string, i: nat, stop: nat, done: seq<Json>, parts: seq<Part>, comments: bool)
    requires Valid(parts) && At(s, i, Stream(parts)) && i + |Stream(parts)| == |s|
    requires ParseMulti(s, i, stop, done, comments).error == NoError
    ensures |ParseMulti(s, i, stop, done, comments).values| <= |done| + |parts|
    ensures !Apart(parts) ==> |ParseMulti(s, i, stop, done, comments).values| < |done| + |parts|
    decreases |parts|
  {
    hide Dump, WellFormed, Printable, Depth, Stream, ParseMulti, Joins, Equal;
    if parts == [] {
      EmptyStream(parts);
      NothingLeft(s, stop, done, comments);
    } else if |parts| > 1 && !Joins(parts[0], parts[1]) {
      var j, k, v := JoinedTurn(s, i, stop, done, parts, comments);
      CountValues(s, k, k, done + [v], parts[j..], comments);
    } else {
      var k, v := FirstPart(s, i, stop, done, parts, comments);
      CountValues(s, k, k, done + [v], parts[1..], comments);
      if Apart(parts[1..]) {
        ApartFrom(parts);
      }
    }
  }

  /** A stream of dumps, concatenated or separated by whitespace, is split into exactly its values, with
      the stop position at the end, if and only if no number without a gap meets a digit. */
  lemma StreamSplitsIff(parts: seq<Part>, comments: bool)
    requires Valid(parts)
    ensures var m := ParseMulti(Stream(parts), 0, 0, [], comments);
            (&& m.error == NoError && m.stop == |Stream(parts)| && |m.values| == |parts|
             && forall k :: 0 <= k < |parts| ==> (Equal(m.values[k], parts[k].v) <==> Finite(parts[k].v)))
            <==> Apart(parts)
  {
    hide Dump, WellFormed, Printable, Depth, Stream, ParseMulti, Apart, Equal, Finite;
    var s := Stream(parts);
    assert s[0..|s|] == s;
    if Apart(parts) {
      var values := StreamSplits(parts, comments);
    } else if ParseMulti(s, 0, 0, [], comments).error == NoError {
      CountValues(s, 0, 0, [], parts, comments);
    }
  }
}
