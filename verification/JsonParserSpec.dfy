/** What each `JsonParser` operation computes from a cursor, as pure functions of the input.
    `comments` is the strategy: false for STANDARD, true for COMMENTS. */
module JsonParserSpec {
  import opened ByteStrings
  import opened JsonLexical
  import opened JsonValues
  import opened Utf8

  const MAX_DEPTH := 200

  datatype Error =
    | DepthExceeded
    | EndOfInput
    | EndAfterCommentStart
    | EndInComment
    | MalformedComment
    | EndInString
    | UnescapedInString(c: char)
    | BadUnicodeEscape(esc: string)
    | InvalidEscape(c: char)
    | LeadingZero
    | InvalidInNumber(c: char)
    | MissingFraction
    | MissingExponent
    | ExpectedLiteral(expected: string, got: string)
    | ExpectedQuoteInObject(c: char)
    | ExpectedColonInObject(c: char)
    | ExpectedCommaInObject(c: char)
    | ExpectedCommaInList(c: char)
    | ExpectedValue(c: char)
    | UnexpectedTrailing(c: char)

  /** The error string a parser fills in: only the first error is kept. */
  datatype ErrorSlot = NoError | First(e: Error)

  /** A result and the cursor behind it, or the first error of the parse. */
  datatype Outcome<T> = Ok(value: T, next: nat) | Fail(error: Error)

  // ---------- whitespace and comments ----------

  function SkipSpaces(s: string, i: nat): (j: nat)
    requires i <= |s|
    ensures i <= j <= |s|
    ensures forall k :: i <= k < j ==> IsSpace(s[k])
    ensures j < |s| ==> !IsSpace(s[j])
    decreases |s| - i
  {
    if IsSpace(Peek(s, i)) then SkipSpaces(s, i + 1) else i
  }

  function LineEnd(s: string, i: nat): (j: nat)
    requires i <= |s|
    ensures i <= j <= |s|
    ensures forall k :: i <= k < j ==> s[k] != '\n'
    ensures j < |s| ==> s[j] == '\n'
    decreases |s| - i
  {
    if i < |s| && s[i] != '\n' then LineEnd(s, i + 1) else i
  }

  /** End of the multi-line comment whose body starts at `i`. */
  function BlockEnd(s: string, i: nat): (r: Outcome<()>)
    requires i <= |s|
    ensures r.Ok? ==> i + 2 <= r.next <= |s|
    decreases |s| - i
  {
    if i > |s| - 2 then Fail(EndInComment)
    else if s[i] == '*' && s[i + 1] == '/' then Ok((), i + 2)
    else BlockEnd(s, i + 1)
  }

  /** One comment at the cursor; the flag says whether there was one. */
  function Comment(s: string, i: nat): (r: Outcome<bool>)
    requires i <= |s|
    ensures r.Ok? ==> i <= r.next <= |s| && (r.value ==> i < r.next) && (!r.value ==> r.next == i)
  {
    if Peek(s, i) != '/' then Ok(false, i)
    else if i + 1 == |s| then Fail(EndAfterCommentStart)
    else if s[i + 1] == '/' then Ok(true, LineEnd(s, i + 2))
    else if s[i + 1] == '*' then
      match BlockEnd(s, i + 2)
      case Ok(_, j) => Ok(true, j)
      case Fail(e) => Fail(e)
    else Fail(MalformedComment)
  }

  /** The loop of `consume_garbage` in COMMENTS mode. */
  function SkipComments(s: string, i: nat): (r: Outcome<()>)
    requires i <= |s|
    ensures r.Ok? ==> i <= r.next <= |s|
    decreases |s| - i
  {
    match Comment(s, i)
    case Fail(e) => Fail(e)
    case Ok(found, j) => if found then SkipComments(s, SkipSpaces(s, j)) else Ok((), SkipSpaces(s, j))
  }

  function SkipGarbage(s: string, i: nat, comments: bool): (r: Outcome<()>)
    requires i <= |s|
    ensures r.Ok? ==> i <= r.next <= |s|
  {
    if comments then SkipComments(s, SkipSpaces(s, i)) else Ok((), SkipSpaces(s, i))
  }

  /** `get_next_token`: the next significant character, and the cursor behind it. */
  function NextToken(s: string, i: nat, comments: bool): (r: Outcome<char>)
    requires i <= |s|
    ensures r.Ok? ==> i < r.next <= |s| && r.value == s[r.next - 1]
  {
    match SkipGarbage(s, i, comments)
    case Fail(e) => Fail(e)
    case Ok(_, j) => if j == |s| then Fail(EndOfInput) else Ok(s[j], j + 1)
  }

  // ---------- strings ----------

  predicate IsEscape(c: char) {
    c == 'b' || c == 'f' || c == 'n' || c == 'r' || c == 't' || c == '"' || c == '\\' || c == '/'
  }

  function Unescape(c: char): char
    requires IsEscape(c)
  {
    if c == 'b' then 8 as char
    else if c == 'f' then 12 as char
    else if c == 'n' then '\n'
    else if c == 'r' then '\r'
    else if c == 't' then '\t'
    else c
  }

  /** `parse_string` from the cursor `i`, with the text written so far and the code point of
      the last `\u` escape when it is still to be written (-1 for none). */
  function ParseString(s: string, i: nat, out: string, pending: CodePoint): (r: Outcome<string>)
    requires i <= |s|
    ensures r.Ok? ==> i < r.next <= |s|
    decreases |s| - i
  {
    if i == |s| then Fail(EndInString)
    else if s[i] == '"' then Ok(out + Encode(pending), i + 1)
    else if s[i] < ' ' then Fail(UnescapedInString(s[i]))
    else if s[i] != '\\' then ParseString(s, i + 1, out + Encode(pending) + [s[i]], -1)
    else if i + 1 == |s| then Fail(EndInString)
    else if s[i + 1] == 'u' then
      if |s| < i + 6 then Fail(BadUnicodeEscape(s[i + 2..]))
      else if !IsHex4(s[i + 2..i + 6]) then Fail(BadUnicodeEscape(s[i + 2..i + 6]))
      else
        var u := HexValue(s[i + 2..i + 6]);
        if IsHigh(pending) && IsLow(u) then ParseString(s, i + 6, out + Encode(Combine(pending, u)), -1)
        else ParseString(s, i + 6, out + Encode(pending), u)
    else if !IsEscape(s[i + 1]) then Fail(InvalidEscape(s[i + 1]))
    else ParseString(s, i + 2, out + Encode(pending) + [Unescape(s[i + 1])], -1)
  }

  /** One turn of `parse_string` up to a backslash. */
  lemma StringTurn(s: string, i: nat, out: string, last: CodePoint)
    requires i <= |s|
    ensures i == |s| ==> ParseString(s, i, out, last) == Fail(EndInString)
    ensures i < |s| && s[i] == '"' ==> ParseString(s, i, out, last) == Ok(out + Encode(last), i + 1)
    ensures i < |s| && s[i] < ' ' ==> ParseString(s, i, out, last) == Fail(UnescapedInString(s[i]))
    ensures i < |s| && s[i] >= ' ' && s[i] != '"' && s[i] != '\\' ==>
              ParseString(s, i, out, last) == ParseString(s, i + 1, out + Encode(last) + [s[i]], -1)
  {
    hide Encode;
  }

  /** And from a backslash on. */
  lemma EscapeTurn(s: string, i: nat, out: string, last: CodePoint)
    requires i < |s| && s[i] == '\\'
    ensures var r := ParseString(s, i, out, last);
            if i + 1 == |s| then r == Fail(EndInString)
            else if s[i + 1] == 'u' then r == AfterUnicode(s, i + 2, out, last)
            else if IsEscape(s[i + 1]) then r == ParseString(s, i + 2, out + Encode(last) + [Unescape(s[i + 1])], -1)
            else r == Fail(InvalidEscape(s[i + 1]))
  {
    hide Encode, HexValue, Combine, Unescape, IsEscape;
  }

  /** The digits of a `\u` escape and what follows. */
  function AfterUnicode(s: string, i: nat, out: string, last: CodePoint): Outcome<string>
    requires i <= |s|
  {
    if |s| < i + 4 then Fail(BadUnicodeEscape(s[i..]))
    else if !IsHex4(s[i..i + 4]) then Fail(BadUnicodeEscape(s[i..i + 4]))
    else
      var u := HexValue(s[i..i + 4]);
      if IsHigh(last) && IsLow(u) then ParseString(s, i + 4, out + Encode(Combine(last, u)), -1)
      else ParseString(s, i + 4, out + Encode(last), u)
  }

  // ---------- numbers ----------

  function SkipDigits(s: string, i: nat): (j: nat)
    requires i <= |s|
    ensures i <= j <= |s|
    ensures forall k :: i <= k < j ==> IsDigit(s[k])
    ensures !IsDigit(Peek(s, j))
    decreases |s| - i
  {
    if IsDigit(Peek(s, i)) then SkipDigits(s, i + 1) else i
  }

  function ParseNumber(s: string, i: nat): (r: Outcome<Json>)
    requires i <= |s|
    ensures r.Ok? ==> i < r.next <= |s|
  {
    var p := if Peek(s, i) == '-' then i + 1 else i;
    if Peek(s, p) == '0' then
      if IsDigit(Peek(s, p + 1)) then Fail(LeadingZero) else NumberFraction(s, i, p, p + 1)
    else if IsDigit(Peek(s, p)) then NumberFraction(s, i, p, SkipDigits(s, p + 1))
    else Fail(InvalidInNumber(Peek(s, p)))
  }

  /** The number starts at `start`; its integer part is `s[p..q]`. */
  function NumberFraction(s: string, start: nat, p: nat, q: nat): (r: Outcome<Json>)
    requires start <= p < q <= |s|
    ensures r.Ok? ==> q <= r.next <= |s|
  {
    if Peek(s, q) != '.' && Peek(s, q) != 'e' && Peek(s, q) != 'E' && q - start <= INT_DIGITS then
      Ok(Int(Signed(start < p, Digits(s[p..q]))), q)
    else if Peek(s, q) == '.' then
      if !IsDigit(Peek(s, q + 1)) then Fail(MissingFraction)
      else NumberExponent(s, start < p, s[p..q], s[q + 1..SkipDigits(s, q + 1)], SkipDigits(s, q + 1))
    else NumberExponent(s, start < p, s[p..q], "", q)
  }

  function NumberExponent(s: string, negative: bool, whole: string, frac: string, r: nat): (o: Outcome<Json>)
    requires r <= |s|
    ensures o.Ok? ==> r <= o.next <= |s|
  {
    if Peek(s, r) == 'e' || Peek(s, r) == 'E' then
      var x := r + 1;
      var y := if Peek(s, x) == '+' || Peek(s, x) == '-' then x + 1 else x;
      if !IsDigit(Peek(s, y)) then Fail(MissingExponent)
      else
        var z := SkipDigits(s, y);
        Ok(SignedDouble(negative, D.Round(Decimal(negative, whole, frac, Peek(s, x) == '-', s[y..z]))), z)
    else Ok(SignedDouble(negative, D.Round(Decimal(negative, whole, frac, false, ""))), r)
  }

  // ---------- values ----------

  /** `expect`: the literal must start at `i`, the character just read. */
  function Expect(s: string, i: nat, expected: string, value: Json): (r: Outcome<Json>)
    requires i < |s| && expected != ""
    ensures r.Ok? ==> i < r.next <= |s|
  {
    if i + |expected| <= |s| && s[i..i + |expected|] == expected then Ok(value, i + |expected|)
    else Fail(ExpectedLiteral(expected, if i + |expected| <= |s| then s[i..i + |expected|] else s[i..]))
  }

  function ParseValue(s: string, i: nat, depth: nat, comments: bool): (r: Outcome<Json>)
    requires i <= |s|
    ensures r.Ok? ==> i < r.next <= |s|
    decreases |s| - i, 0
  {
    if depth > MAX_DEPTH then Fail(DepthExceeded)
    else
      match NextToken(s, i, comments)
      case Fail(e) => Fail(e)
      case Ok(c, j) =>
        if c == '-' || IsDigit(c) then ParseNumber(s, j - 1)
        else if c == 't' then Expect(s, j - 1, "true", Bool(true))
        else if c == 'f' then Expect(s, j - 1, "false", Bool(false))
        else if c == 'n' then Expect(s, j - 1, "null", Null)
        else if c == '"' then
          match ParseString(s, j, "", -1)
          case Fail(e) => Fail(e)
          case Ok(t, k) => Ok(Str(t), k)
        else if c == '{' then
          match NextToken(s, j, comments)
          case Fail(e) => Fail(e)
          case Ok(c2, k) => if c2 == '}' then Ok(Obj([]), k) else ParseMembers(s, k, c2, depth, comments, [])
        else if c == '[' then
          match NextToken(s, j, comments)
          case Fail(e) => Fail(e)
          case Ok(c2, k) => if c2 == ']' then Ok(Arr([]), k) else ParseItems(s, k - 1, depth, comments, [])
        else Fail(ExpectedValue(c))
  }

  /** The object loop: `c` is the token just read, `i` the cursor behind it. */
  function ParseMembers(s: string, i: nat, c: char, depth: nat, comments: bool, data: seq<Entry>)
    : (r: Outcome<Json>)
    requires i <= |s|
    ensures r.Ok? ==> i < r.next <= |s| && r.value.Obj?
    decreases |s| - i, 1
  {
    if c != '"' then Fail(ExpectedQuoteInObject(c))
    else
      match ParseString(s, i, "", -1)
      case Fail(e) => Fail(e)
      case Ok(key, j) =>
        match NextToken(s, j, comments)
        case Fail(e) => Fail(e)
        case Ok(c2, k) =>
          if c2 != ':' then Fail(ExpectedColonInObject(c2))
          else
            match ParseValue(s, k, depth + 1, comments)
            case Fail(e) => Fail(e)
            case Ok(v, l) =>
              match NextToken(s, l, comments)
              case Fail(e) => Fail(e)
              case Ok(c3, m) =>
                if c3 == '}' then Ok(Obj(Insert(data, key, v)), m)
                else if c3 != ',' then Fail(ExpectedCommaInObject(c3))
                else
                  match NextToken(s, m, comments)
                  case Fail(e) => Fail(e)
                  case Ok(c4, n) => ParseMembers(s, n, c4, depth, comments, Insert(data, key, v))
  }

  /** The array loop, its cursor stepped back onto the first character of the next item. */
  function ParseItems(s: string, i: nat, depth: nat, comments: bool, data: seq<Json>): (r: Outcome<Json>)
    requires i <= |s|
    ensures r.Ok? ==> i < r.next <= |s| && r.value.Arr?
    decreases |s| - i, 1
  {
    match ParseValue(s, i, depth + 1, comments)
    case Fail(e) => Fail(e)
    case Ok(v, j) =>
      match NextToken(s, j, comments)
      case Fail(e) => Fail(e)
      case Ok(c, k) =>
        if c == ']' then Ok(Arr(data + [v]), k)
        else if c != ',' then Fail(ExpectedCommaInList(c))
        else
          match NextToken(s, k, comments)
          case Fail(e) => Fail(e)
          case Ok(_, l) => ParseItems(s, l - 1, depth, comments, data + [v])
  }

  /** What `parse_json` does behind an opening brace. */
  function AfterBrace(s: string, j: nat, depth: nat, comments: bool): Outcome<Json>
    requires j <= |s|
  {
    match NextToken(s, j, comments)
    case Fail(e) => Fail(e)
    case Ok(c, k) => if c == '}' then Ok(Obj([]), k) else ParseMembers(s, k, c, depth, comments, [])
  }

  /** And behind an opening bracket. */
  function AfterBracket(s: string, j: nat, depth: nat, comments: bool): Outcome<Json>
    requires j <= |s|
  {
    match NextToken(s, j, comments)
    case Fail(e) => Fail(e)
    case Ok(c, k) => if c == ']' then Ok(Arr([]), k) else ParseItems(s, k - 1, depth, comments, [])
  }

  /** `Json::parse`: a value and nothing but garbage behind it. */
  function Parse(s: string, comments: bool): (r: Outcome<Json>)
  {
    match ParseValue(s, 0, 0, comments)
    case Fail(e) => Fail(e)
    case Ok(v, i) =>
      match SkipGarbage(s, i, comments)
      case Fail(e) => Fail(e)
      case Ok(_, j) => if j != |s| then Fail(UnexpectedTrailing(s[j])) else Ok(v, j)
  }

  /** What `Json::parse_multi` reports: the values, the position behind the last good one, the error. */
  datatype Multi = Multi(values: seq<Json>, stop: nat, error: ErrorSlot)

  /** What `parse_json` returns when it fails and nothing has failed before: null, but for a string
      literal the empty string that `parse_string` gives back. */
  function FailureValue(s: string, i: nat, depth: nat, comments: bool): Json
    requires i <= |s|
  {
    var token := NextToken(s, i, comments);
    if depth <= MAX_DEPTH && token.Ok? && token.value == '"' then Str("") else Null
  }

  /** `Json::parse_multi` from the cursor `i`; whatever a failed value returns is pushed. */
  function ParseMulti(s: string, i: nat, stop: nat, values: seq<Json>, comments: bool): Multi
    requires i <= |s|
    decreases |s| - i
  {
    if i == |s| then Multi(values, stop, NoError)
    else
      match ParseValue(s, i, 0, comments)
      case Fail(e) => Multi(values + [FailureValue(s, i, 0, comments)], stop, First(e))
      case Ok(v, j) =>
        match SkipGarbage(s, j, comments)
        case Fail(e) => Multi(values + [v], stop, First(e))
        case Ok(_, k) => ParseMulti(s, k, k, values + [v], comments)
  }
}
