/** The recursive-descent parser with its cursor and sticky failure flag. Every method is proved
    against the function of `JsonParserSpec` that it implements; all reads go through `Peek`, so
    none lies beyond the terminating NUL. */
module JsonParserImpl {
  import opened ByteStrings
  import opened JsonLexical
  import opened JsonParserSpec
  import opened JsonValues
  import opened Utf8

  class JsonParser {
    const str: string
    const comments: bool
    var i: nat
    var err: ErrorSlot
    var failed: bool

    ghost predicate Valid()
      reads this
    {
      i <= |str| && (failed <==> err != NoError)
    }

    constructor (input: string, comments: bool)
      ensures Valid() && str == input && this.comments == comments && i == 0 && !failed
    {
      str, this.comments := input, comments;
      i, err, failed := 0, NoError, false;
    }

    /** Only the first error of a parse is kept. */
    method FailWith(msg: Error)
      modifies `err, `failed
      ensures failed && err == if old(failed) then old(err) else First(msg)
    {
      if !failed {
        err := First(msg);
      }
      failed := true;
    }

    method ConsumeWhitespace()
      requires Valid()
      modifies `i
      ensures Valid() && i == SkipSpaces(str, old(i))
    {
      while Peek(str, i) == ' ' || Peek(str, i) == '\r' || Peek(str, i) == '\n' || Peek(str, i) == '\t'
        invariant Valid() && SkipSpaces(str, i) == SkipSpaces(str, old(i))
        decreases |str| - i
      {
        i := i + 1;
      }
    }

    /** Up to the line break that ends a comment, or the end of the input. */
    method ConsumeLine()
      requires Valid()
      modifies `i
      ensures Valid() && i == LineEnd(str, old(i))
    {
      while i < |str| && Peek(str, i) != '\n'
        invariant Valid() && LineEnd(str, i) == LineEnd(str, old(i))
      {
        i := i + 1;
      }
    }

    /** Behind the end of a comment that may span lines. */
    method ConsumeBlock() returns (found: bool)
      requires Valid()
      modifies `i, `err, `failed
      ensures Valid() && old(i) <= i
      ensures found == BlockEnd(str, old(i)).Ok?
      ensures found ==> i == BlockEnd(str, old(i)).next && failed == old(failed) && err == old(err)
      ensures !found ==> BlockEnd(str, old(i)) == Fail(EndInComment)
      ensures !found ==> failed && err == if old(failed) then old(err) else First(EndInComment)
    {
      if i > |str| - 2 {
        FailWith(EndInComment);
        return false;
      }
      while !(Peek(str, i) == '*' && Peek(str, i + 1) == '/')
        invariant old(i) <= i <= |str| - 2 && BlockEnd(str, i) == BlockEnd(str, old(i))
        invariant failed == old(failed) && err == old(err)
        decreases |str| - i
      {
        i := i + 1;
        if i > |str| - 2 {
          FailWith(EndInComment);
          return false;
        }
      }
      i := i + 2;
      return true;
    }

    method ConsumeComment() returns (found: bool)
      requires Valid()
      modifies `i, `err, `failed
      ensures Valid() && old(i) <= i && (old(failed) ==> failed && err == old(err))
      ensures !old(failed) ==>
                match Comment(str, old(i))
                case Ok(f, j) => !failed && found == f && i == j
                case Fail(e) => failed && err == First(e) && !found
      ensures found ==> old(i) < i
    {
      hide LineEnd, BlockEnd;
      found := false;
      if Peek(str, i) == '/' {
        i := i + 1;
        if i == |str| {
          FailWith(EndAfterCommentStart);
        } else if Peek(str, i) == '/' {
          i := i + 1;
          ConsumeLine();
          found := true;
        } else if Peek(str, i) == '*' {
          i := i + 1;
          found := ConsumeBlock();
        } else {
          FailWith(MalformedComment);
        }
      }
    }

    method ConsumeGarbage()
      requires Valid()
      modifies `i, `err, `failed
      ensures Valid() && old(i) <= i && (old(failed) ==> failed && err == old(err))
      ensures !old(failed) ==>
                match SkipGarbage(str, old(i), comments)
                case Ok(_, j) => !failed && i == j
                case Fail(e) => failed && err == First(e)
    {
      ConsumeWhitespace();
      if comments {
        var found := true;
        while found
          invariant Valid() && old(i) <= i && (old(failed) ==> failed && err == old(err))
          invariant failed ==> found
          invariant !old(failed) ==> !failed
          invariant !failed && found ==> SkipComments(str, i) == SkipGarbage(str, old(i), comments)
          invariant !failed && !found ==> SkipGarbage(str, old(i), comments) == Ok((), i)
          decreases |str| - i, found
        {
          ghost var start := i;
          found := ConsumeComment();
          if failed {
            return;
          }
          ConsumeWhitespace();
          assert SkipComments(str, start) == if found then SkipComments(str, i) else Ok((), i);
        }
      }
    }

    method GetNextToken() returns (c: char)
      requires Valid()
      modifies `i, `err, `failed
      ensures Valid() && old(i) <= i && (old(failed) ==> failed && err == old(err)) && (failed ==> c == '\0')
      ensures !old(failed) ==>
                match NextToken(str, old(i), comments)
                case Ok(t, j) => !failed && c == t && i == j
                case Fail(e) => failed && err == First(e)
    {
      ConsumeGarbage();
      if failed {
        return '\0';
      }
      if i == |str| {
        FailWith(EndOfInput);
        return '\0';
      }
      c := Peek(str, i);
      i := i + 1;
    }

    static method CheckHex(esc: string) returns (hex: bool)
      requires |esc| == 4
      ensures hex == IsHex4(esc)
    {
      hide HexDigit;
      for j := 0 to 4
        invariant forall k :: 0 <= k < j ==> 0 <= HexDigit(esc[k])
      {
        if HexDigit(esc[j]) < 0 {
          return false;
        }
      }
      hex := true;
    }

    /** The part of `parse_string` behind `\u`. */
    method ParseUnicodeEscape(out: string, last: CodePoint) returns (out': string, last': CodePoint)
      requires Valid() && !failed
      modifies `i, `err, `failed
      ensures Valid() && (!failed ==> old(i) < i)
      ensures AfterUnicode(str, old(i), out, last)
           == if failed then Fail(err.e) else ParseString(str, i, out', last')
    {
      hide Encode, ParseString, HexValue, IsHex4, IsHigh, IsLow, Combine;
      out', last' := out, last;
      var esc := if i + 4 <= |str| then str[i..i + 4] else str[i..];
      if |esc| < 4 {
        FailWith(BadUnicodeEscape(esc));
        return;
      }
      var hex := CheckHex(esc);
      if !hex {
        FailWith(BadUnicodeEscape(esc));
        return;
      }
      var codepoint := HexValue(esc);
      if IsHigh(last) && IsLow(codepoint) {
        out' := out + Encode(Combine(last, codepoint));
        last' := -1;
      } else {
        out' := out + Encode(last);
        last' := codepoint;
      }
      i := i + 4;
    }

    method ParseStringLiteral() returns (out: string)
      requires Valid() && !failed
      modifies `i, `err, `failed
      ensures Valid()
      ensures match ParseString(str, old(i), "", -1)
              case Ok(t, j) => !failed && out == t && i == j
              case Fail(e) => failed && err == First(e) && out == ""
    {
      hide Encode, ParseString, AfterUnicode, Unescape, IsEscape;
      out := "";
      var last: CodePoint := -1;
      while true
        invariant Valid() && !failed && ParseString(str, i, out, last) == ParseString(str, old(i), "", -1)
        decreases |str| - i
      {
        StringTurn(str, i, out, last);
        if i == |str| {
          FailWith(EndInString);
          return "";
        }
        var c := Peek(str, i);
        i := i + 1;
        if c == '"' {
          out := out + Encode(last);
          return;
        }
        if c < ' ' {
          FailWith(UnescapedInString(c));
          return "";
        }
        if c != '\\' {
          out := out + Encode(last);
          last := -1;
          out := out + [c];
          continue;
        }
        EscapeTurn(str, i - 1, out, last);
        if i == |str| {
          FailWith(EndInString);
          return "";
        }
        c := Peek(str, i);
        i := i + 1;
        if c == 'u' {
          out, last := ParseUnicodeEscape(out, last);
          if failed {
            return "";
          }
          continue;
        }
        out := out + Encode(last);
        last := -1;
        if IsEscape(c) {
          out := out + [Unescape(c)];
        } else {
          FailWith(InvalidEscape(c));
          return "";
        }
      }
    }

    method ParseNumberLiteral() returns (v: Json)
      requires Valid() && !failed
      modifies `i, `err, `failed
      ensures Valid()
      ensures match ParseNumber(str, old(i))
              case Ok(n, j) => !failed && v == n && i == j
              case Fail(e) => failed && err == First(e) && v == Null
    {
      hide NumberFraction;
      v := Null;
      var start := i;
      if Peek(str, i) == '-' {
        i := i + 1;
      }
      var p := i;
      if Peek(str, i) == '0' {
        i := i + 1;
        if IsDigit(Peek(str, i)) {
          FailWith(LeadingZero);
          return;
        }
      } else if '1' <= Peek(str, i) <= '9' {
        i := i + 1;
        ConsumeDigits();
      } else {
        FailWith(InvalidInNumber(Peek(str, i)));
        return;
      }
      v := ParseFraction(start, p);
    }

    /** The rest of a number whose integer part `str[p..i]` has been read. */
    method ParseFraction(start: nat, p: nat) returns (v: Json)
      requires Valid() && !failed && start <= p < i
      modifies `i, `err, `failed
      ensures Valid()
      ensures match NumberFraction(str, start, p, old(i))
              case Ok(n, j) => !failed && v == n && i == j
              case Fail(e) => failed && err == First(e) && v == Null
    {
      hide Digits, NumberExponent;
      v := Null;
      var q := i;
      if Peek(str, i) != '.' && Peek(str, i) != 'e' && Peek(str, i) != 'E' && i - start <= INT_DIGITS {
        v := Int(Signed(start < p, Digits(str[p..q])));
        return;
      }
      var frac := "";
      if Peek(str, i) == '.' {
        i := i + 1;
        if !IsDigit(Peek(str, i)) {
          FailWith(MissingFraction);
          return;
        }
        ConsumeDigits();
        frac := str[q + 1..i];
      }
      v := ParseExponent(start < p, str[p..q], frac);
    }

    method ParseExponent(negative: bool, whole: string, frac: string) returns (v: Json)
      requires Valid() && !failed
      modifies `i, `err, `failed
      ensures Valid()
      ensures match NumberExponent(str, negative, whole, frac, old(i))
              case Ok(n, j) => !failed && v == n && i == j
              case Fail(e) => failed && err == First(e) && v == Null
    {
      hide Decimal, D.Round;
      v := Null;
      var negativeExp, exp := false, "";
      if Peek(str, i) == 'e' || Peek(str, i) == 'E' {
        i := i + 1;
        negativeExp := Peek(str, i) == '-';
        if Peek(str, i) == '+' || Peek(str, i) == '-' {
          i := i + 1;
        }
        if !IsDigit(Peek(str, i)) {
          FailWith(MissingExponent);
          return;
        }
        var first := i;
        ConsumeDigits();
        exp := str[first..i];
      }
      v := SignedDouble(negative, D.Round(Decimal(negative, whole, frac, negativeExp, exp)));
    }

    /** Skips the decimal digits at the cursor. */
    method ConsumeDigits()
      requires Valid()
      modifies `i
      ensures Valid() && i == SkipDigits(str, old(i))
    {
      while IsDigit(Peek(str, i))
        invariant Valid() && SkipDigits(str, i) == SkipDigits(str, old(i))
        decreases |str| - i
      {
        i := i + 1;
      }
    }

    method ExpectLiteral(expected: string, value: Json) returns (v: Json)
      requires Valid() && !failed && 0 < i && expected != ""
      modifies `i, `err, `failed
      ensures Valid()
      ensures match Expect(str, old(i) - 1, expected, value)
              case Ok(r, j) => !failed && v == r && i == j
              case Fail(e) => failed && err == First(e) && v == Null
    {
      i := i - 1;
      if i + |expected| <= |str| && str[i..i + |expected|] == expected {
        i := i + |expected|;
        v := value;
      } else {
        FailWith(ExpectedLiteral(expected, if i + |expected| <= |str| then str[i..i + |expected|] else str[i..]));
        v := Null;
      }
    }

    /** The value at the cursor. Recursion never goes beyond one level more than MAX_DEPTH, and the
        array loop may call this with the failure flag already set, in which case the flag alone
        ends the recursion although the cursor has stepped back. A failure returns null, except for
        a string literal, which returns the empty string. */
    method ParseJson(depth: nat) returns (v: Json)
      requires Valid() && depth <= MAX_DEPTH + 1
      modifies `i, `err, `failed
      ensures Valid() && (old(failed) ==> failed && err == old(err) && v == Null)
      ensures !old(failed) ==>
                match ParseValue(str, old(i), depth, comments)
                case Ok(r, j) => !failed && v == r && i == j
                case Fail(e) => failed && err == First(e) && v == FailureValue(str, old(i), depth, comments)
      decreases if failed then 0 else |str| - i + 1, 0
    {
      hide NextToken, ParseString, ParseNumber, ParseItems, ParseMembers;
      v := Null;
      if depth > MAX_DEPTH {
        FailWith(DepthExceeded);
        return;
      }
      var c := GetNextToken();
      if failed {
        return;
      }
      if c == '-' || IsDigit(c) {
        i := i - 1;
        v := ParseNumberLiteral();
      } else if c == 't' {
        v := ExpectLiteral("true", Bool(true));
      } else if c == 'f' {
        v := ExpectLiteral("false", Bool(false));
      } else if c == 'n' {
        v := ExpectLiteral("null", Null);
      } else if c == '"' {
        var s := ParseStringLiteral();
        v := Str(s);
      } else if c == '{' {
        v := ParseObject(depth);
      } else if c == '[' {
        v := ParseArray(depth);
      } else {
        FailWith(ExpectedValue(c));
      }
    }

    method ParseObject(depth: nat) returns (v: Json)
      requires Valid() && !failed && depth <= MAX_DEPTH
      modifies `i, `err, `failed
      ensures Valid() && (failed ==> v == Null)
      ensures match AfterBrace(str, old(i), depth, comments)
              case Ok(r, j) => !failed && v == r && i == j
              case Fail(e) => failed && err == First(e)
      decreases |str| - i + 1, 1
    {
      hide ParseValue, NextToken, ParseString, Insert;
      v := Null;
      ghost var spec := AfterBrace(str, i, depth, comments);
      var data: seq<Entry> := [];
      var c := GetNextToken();
      if c == '}' {
        v := Obj(data);
        return;
      }
      while true
        invariant Valid() && v == Null && (!failed ==> old(i) < i)
        invariant failed ==> c == '\0' && spec == Fail(err.e)
        invariant !failed ==> spec == ParseMembers(str, i, c, depth, comments, data)
        decreases if failed then 0 else |str| - i + 1
      {
        if c != '"' {
          FailWith(ExpectedQuoteInObject(c));
          return;
        }
        var key := ParseStringLiteral();
        if failed {
          return;
        }
        c := GetNextToken();
        if c != ':' {
          FailWith(ExpectedColonInObject(c));
          return;
        }
        var value := ParseJson(depth + 1);
        data := Insert(data, key, value);
        if failed {
          return;
        }
        c := GetNextToken();
        if c == '}' {
          v := Obj(data);
          return;
        }
        if c != ',' {
          FailWith(ExpectedCommaInObject(c));
          return;
        }
        c := GetNextToken();
      }
    }

    method ParseArray(depth: nat) returns (v: Json)
      requires Valid() && !failed && depth <= MAX_DEPTH && 0 < i
      modifies `i, `err, `failed
      ensures Valid() && (failed ==> v == Null)
      ensures match AfterBracket(str, old(i), depth, comments)
              case Ok(r, j) => !failed && v == r && i == j
              case Fail(e) => failed && err == First(e)
      decreases |str| - i + 1, 1
    {
      hide ParseValue, NextToken;
      v := Null;
      ghost var spec := AfterBracket(str, i, depth, comments);
      var data: seq<Json> := [];
      var c := GetNextToken();
      if c == ']' {
        v := Arr(data);
        return;
      }
      while true
        invariant Valid() && v == Null && 0 < i && (!failed ==> old(i) < i)
        invariant failed ==> spec == Fail(err.e)
        invariant !failed ==> spec == ParseItems(str, i - 1, depth, comments, data)
        decreases if failed then 0 else |str| - i + 1
      {
        i := i - 1;
        var value := ParseJson(depth + 1);
        data := data + [value];
        if failed {
          return;
        }
        c := GetNextToken();
        if c == ']' {
          v := Arr(data);
          return;
        }
        if c != ',' {
          FailWith(ExpectedCommaInList(c));
          return;
        }
        c := GetNextToken();
      }
    }
  }

  /** `Json::parse`: a failed parse returns null and the first error. */
  method Parse(input: string, comments: bool) returns (result: Json, err: ErrorSlot)
    ensures match JsonParserSpec.Parse(input, comments)
            case Ok(v, _) => result == v && err == NoError
            case Fail(e) => result == Null && err == First(e)
  {
    hide ParseValue, SkipGarbage;
    var parser := new JsonParser(input, comments);
    result := parser.ParseJson(0);
    parser.ConsumeGarbage();
    if !parser.failed && parser.i != |input| {
      parser.FailWith(UnexpectedTrailing(input[parser.i]));
    }
    err := parser.err;
    if parser.failed {
      result := Null;
    }
  }

  /** `Json::parse_multi`. */
  method ParseMulti(input: string, comments: bool) returns (values: seq<Json>, stop: nat, err: ErrorSlot)
    ensures JsonParserSpec.ParseMulti(input, 0, 0, [], comments) == Multi(values, stop, err)
  {
    hide ParseValue, SkipGarbage, FailureValue;
    var parser := new JsonParser(input, comments);
    stop, values := 0, [];
    ghost var spec := JsonParserSpec.ParseMulti(input, 0, 0, [], comments);
    while parser.i != |input| && !parser.failed
      invariant parser.Valid() && fresh(parser) && parser.str == input && parser.comments == comments
      invariant !parser.failed ==> spec == JsonParserSpec.ParseMulti(input, parser.i, stop, values, comments)
      invariant parser.failed ==> spec == Multi(values, stop, parser.err)
      decreases !parser.failed, |input| - parser.i
    {
      var v := parser.ParseJson(0);
      values := values + [v];
      if parser.failed {
        break;
      }
      parser.ConsumeGarbage();
      if parser.failed {
        break;
      }
      stop := parser.i;
    }
    err := parser.err;
  }
}
