/** COMMENTS mode explained by STANDARD mode: comments are whitespace. */
module JsonComments {
  import opened ByteStrings
  import opened JsonComplete
  import opened JsonGrammar
  import opened JsonLexical
  import opened JsonNumbers
  import opened JsonParserSpec
  import opened JsonTheorems
  import opened JsonValues
  import opened Utf8

  // ---------- comments ----------

  /** `s[i..j]` is a comment: from two slashes to the end of the line, or from a slash and a star to
      the first star and slash behind them. */
  ghost predicate IsComment(s: string, i: nat, j: nat) {
    i + 2 <= j <= |s| && s[i] == '/'
    && ((s[i + 1] == '/' && (forall k :: i + 2 <= k < j ==> s[k] != '\n') && (j < |s| ==> s[j] == '\n'))
        || (s[i + 1] == '*' && i + 4 <= j && BlockEnds(s, j - 2) && forall k :: i + 2 <= k < j - 2 ==> !BlockEnds(s, k)))
  }

  predicate BlockEnds(s: string, k: int) {
    0 <= k < |s| - 1 && s[k] == '*' && s[k + 1] == '/'
  }

  lemma {:induction false} BlockEndIs(s: string, i: nat, j: nat)
    requires i <= |s|
    ensures BlockEnd(s, i).Ok? && BlockEnd(s, i).next == j <==>
              i + 2 <= j && BlockEnds(s, j - 2) && forall k :: i <= k < j - 2 ==> !BlockEnds(s, k)
    decreases |s| - i
  {
    if i <= |s| - 2 && !(s[i] == '*' && s[i + 1] == '/') {
      BlockEndIs(s, i + 1, j);
      assert !BlockEnds(s, i);
    } else if i <= |s| - 2 {
      assert BlockEnds(s, i);
    }
  }

  lemma LineEndIs(s: string, i: nat, j: nat)
    requires i <= j <= |s|
    ensures LineEnd(s, i) == j <==> (forall k :: i <= k < j ==> s[k] != '\n') && (j < |s| ==> s[j] == '\n')
  {
    var e := LineEnd(s, i);
    if e < j {
      assert s[e] == '\n';
    }
  }

  /** `consume_comment` skips exactly the comments. */
  lemma CommentIs(s: string, i: nat, j: nat)
    requires i <= |s|
    ensures Comment(s, i) == Ok(true, j) <==> IsComment(s, i, j)
  {
    hide BlockEnd, BlockEnds, LineEnd;
    if i + 2 <= |s| {
      BlockEndIs(s, i + 2, j);
      if i + 2 <= j <= |s| {
        LineEndIs(s, i + 2, j);
      }
    }
  }

  // ---------- blanking the comments of a text ----------

  function Blanks(n: nat): (w: string)
    ensures |w| == n && forall k :: 0 <= k < n ==> w[k] == ' '
  {
    seq(n, _ => ' ')
  }

  /** The text from `i` on with every comment outside strings replaced by as many spaces. A slash
      that starts no complete comment stays. */
  function Blanked(s: string, i: nat, inString: bool): (t: string)
    requires i <= |s|
    ensures |t| == |s| - i
    decreases |s| - i
  {
    if i == |s| then ""
    else if inString then
      if s[i] == '\\' && i + 1 < |s| then [s[i], s[i + 1]] + Blanked(s, i + 2, true)
      else [s[i]] + Blanked(s, i + 1, s[i] != '"')
    else
      match Comment(s, i)
      case Ok(true, j) => Blanks(j - i) + Blanked(s, j, false)
      case _ => [s[i]] + Blanked(s, i + 1, s[i] == '"')
  }

  function WithoutComments(s: string): string {
    Blanked(s, 0, false)
  }

  /** At position `i` the texts `s` and `u` stand at corresponding places. */
  ghost predicate Synced(s: string, u: string, i: nat, inString: bool) {
    |u| == |s| && i <= |s| && u[i..] == Blanked(s, i, inString)
  }

  lemma Cut(u: string, i: nat, x: string, rest: string)
    requires i <= |u| && u[i..] == x + rest
    ensures i + |x| <= |u| && u[i + |x|..] == rest && forall k :: 0 <= k < |x| ==> u[i + k] == x[k]
  {
    assert forall k :: 0 <= k < |x| ==> u[i + k] == u[i..][k];
    assert u[i + |x|..] == u[i..][|x|..];
  }

  lemma CommentCases(s: string, i: nat)
    requires i <= |s|
    ensures Peek(s, i) != '/' ==> Comment(s, i) == Ok(false, i)
    ensures Comment(s, i).Ok? && !Comment(s, i).value ==> Comment(s, i) == Ok(false, i) && Peek(s, i) != '/'
    ensures i == |s| ==> SkipComments(s, i) == Ok((), i)
  {
  }

  /** Outside strings a character is copied or starts a comment, which is blanked. */
  lemma StepOutside(s: string, u: string, i: nat)
    requires Synced(s, u, i, false) && i < |s|
    ensures match Comment(s, i)
            case Ok(true, j) => s[i] == '/' && Synced(s, u, j, false) && forall k :: i <= k < j ==> u[k] == ' '
            case _ => u[i] == s[i] && Synced(s, u, i + 1, s[i] == '"')
  {
    hide Comment;
    if Comment(s, i).Ok? && Comment(s, i).value {
      var j := Comment(s, i).next;
      CommentCases(s, i);
      Cut(u, i, Blanks(j - i), Blanked(s, j, false));
      forall k | i <= k < j ensures u[k] == ' ' {
        assert u[i + (k - i)] == Blanks(j - i)[k - i];
      }
    } else {
      Cut(u, i, [s[i]], Blanked(s, i + 1, s[i] == '"'));
      assert u[i + 0] == s[i];
    }
  }

  /** Inside strings everything is copied, escapes in pairs. */
  lemma StepInside(s: string, u: string, i: nat)
    requires Synced(s, u, i, true) && i < |s|
    ensures u[i] == s[i]
    ensures s[i] != '\\' ==> Synced(s, u, i + 1, s[i] != '"')
    ensures s[i] == '\\' && i + 1 < |s| ==> u[i + 1] == s[i + 1] && Synced(s, u, i + 2, true)
  {
    if s[i] == '\\' && i + 1 < |s| {
      Cut(u, i, [s[i], s[i + 1]], Blanked(s, i + 2, true));
      assert u[i + 0] == s[i] && u[i + 1] == s[i + 1];
    } else {
      Cut(u, i, [s[i]], Blanked(s, i + 1, s[i] != '"'));
      assert u[i + 0] == s[i];
    }
  }

  lemma PeekOutside(s: string, u: string, i: nat)
    requires Synced(s, u, i, false)
    ensures Peek(u, i) == Peek(s, i) || (Peek(s, i) == '/' && Peek(u, i) == ' ')
  {
    hide Comment, Blanked;
    if i < |s| {
      StepOutside(s, u, i);
    }
  }

  // ---------- whitespace and comments ----------

  lemma SkippedTo(u: string, i: nat, k: nat)
    requires i <= k <= |u| && (forall m :: i <= m < k ==> IsSpace(u[m])) && (k < |u| ==> !IsSpace(u[k]))
    ensures SkipSpaces(u, i) == k
  {
  }

  lemma {:induction false} SpacesSynced(s: string, u: string, i: nat)
    requires Synced(s, u, i, false)
    ensures Synced(s, u, SkipSpaces(s, i), false)
    ensures forall m :: i <= m < SkipSpaces(s, i) ==> IsSpace(u[m])
    decreases |s| - i
  {
    hide Synced, Comment;
    SyncedBounds(s, u, i, false);
    if IsSpace(Peek(s, i)) {
      SpaceStep(s, u, i);
      SpacesSynced(s, u, i + 1);
    }
  }

  lemma SpaceStep(s: string, u: string, i: nat)
    requires Synced(s, u, i, false) && IsSpace(Peek(s, i))
    ensures i < |s| && i < |u| && IsSpace(u[i]) && Synced(s, u, i + 1, false)
  {
    hide Blanked;
    StepOutside(s, u, i);
  }

  /** All comments ahead are blanks, up to a token or to a slash that starts no comment. */
  lemma {:induction false} CommentsSynced(s: string, u: string, i: nat) returns (k: nat)
    requires Synced(s, u, i, false) && !IsSpace(Peek(s, i))
    ensures i <= k <= |s| == |u| && Synced(s, u, k, false)
    ensures forall m :: i <= m < k ==> IsSpace(u[m])
    ensures match SkipComments(s, i)
            case Ok(_, j) => j == k && (k < |s| ==> u[k] == s[k] && s[k] != '/' && !IsSpace(s[k]))
            case Fail(_) => k < |s| && u[k] == '/'
    decreases |s| - i
  {
    hide Synced, Comment, Blanked;
    SyncedBounds(s, u, i, false);
    if i < |s| {
      StepOutside(s, u, i);
      CommentCases(s, i);
      var c := Comment(s, i);
      if c.Ok? && c.value {
        SpacesSynced(s, u, c.next);
        k := CommentsSynced(s, u, SkipSpaces(s, c.next));
        assert forall m :: i <= m < c.next ==> IsSpace(u[m]);
      } else {
        k := i;
        if c.Ok? {
          SkippedTo(s, i, i);
        }
      }
    } else {
      k := i;
      CommentCases(s, |s|);
    }
  }

  lemma SyncedBounds(s: string, u: string, i: nat, inString: bool)
    requires Synced(s, u, i, inString)
    ensures |u| == |s| && i <= |s|
  {
  }

  /** Both modes find the same token, or COMMENTS mode fails in front of a stray slash. */
  lemma TokenSame(s: string, u: string, i: nat)
    requires Synced(s, u, i, false)
    ensures i <= |s| == |u|
    ensures match NextToken(s, i, true)
            case Ok(c, j) =>
              c != '/' && NextToken(u, i, false) == Ok(c, j) && Synced(s, u, j - 1, false) && Synced(s, u, j, c == '"')
            case Fail(_) => NextToken(u, i, false).Fail? || NextToken(u, i, false).value == '/'
  {
    hide Synced, Comment, SkipComments, Blanked;
    SyncedBounds(s, u, i, false);
    SpacesSynced(s, u, i);
    var k := CommentsSynced(s, u, SkipSpaces(s, i));
    SkippedTo(u, i, k);
    if k < |s| && u[k] == s[k] && s[k] != '/' {
      StepOutside(s, u, k);
      CommentCases(s, k);
    }
  }

  /** A token stands where it was found. */
  lemma TokenAgain(u: string, i: nat)
    requires i <= |u| && NextToken(u, i, false).Ok?
    ensures NextToken(u, NextToken(u, i, false).next - 1, false) == NextToken(u, i, false)
  {
    SkippedTo(u, NextToken(u, i, false).next - 1, NextToken(u, i, false).next - 1);
  }

  // ---------- strings ----------

  /** Hexadecimal digits are copied as they are, and nothing else looks like them. */
  lemma {:induction false} HexRun(s: string, u: string, i: nat, n: nat)
    requires Synced(s, u, i, true) && i + n <= |s|
    ensures |u| == |s|
    ensures AllHex(s[i..i + n]) <==> AllHex(u[i..i + n])
    ensures AllHex(s[i..i + n]) ==> s[i..i + n] == u[i..i + n] && Synced(s, u, i + n, true)
    decreases n
  {
    hide Synced, Blanked, HexDigit;
    SyncedBounds(s, u, i, true);
    if n > 0 {
      StepInside(s, u, i);
      HexCons(s, i, n);
      HexCons(u, i, n);
      if 0 <= HexDigit(s[i]) {
        NoQuoteHex(s[i]);
        HexRun(s, u, i + 1, n - 1);
      }
    }
  }

  predicate AllHex(t: string) {
    forall k :: 0 <= k < |t| ==> 0 <= HexDigit(t[k])
  }

  lemma HexCons(s: string, i: nat, n: nat)
    requires 0 < n && i + n <= |s|
    ensures AllHex(s[i..i + n]) <==> 0 <= HexDigit(s[i]) && AllHex(s[i + 1..i + n])
    ensures s[i..i + n] == [s[i]] + s[i + 1..i + n]
  {
    hide HexDigit;
    var t, rest := s[i..i + n], s[i + 1..i + n];
    assert t == [s[i]] + rest;
    if AllHex(t) {
      assert t[0] == s[i];
      forall k | 0 <= k < |rest| ensures 0 <= HexDigit(rest[k]) {
        assert t[k + 1] == rest[k];
      }
    }
  }

  lemma NoQuoteHex(c: char)
    requires 0 <= HexDigit(c)
    ensures c != '"' && c != '\\'
  {
  }

  /** Strings are read alike up to their closing quote. */
  lemma {:induction false} StringSame(s: string, u: string, i: nat, out: string, pending: CodePoint)
    requires Synced(s, u, i, true)
    ensures i <= |s| == |u|
    ensures match ParseString(s, i, out, pending)
            case Ok(t, j) => ParseString(u, i, out, pending) == Ok(t, j) && Synced(s, u, j, false)
            case Fail(_) => ParseString(u, i, out, pending).Fail?
    decreases |s| - i
  {
    hide Synced, Blanked, ParseString, Encode, IsEscape, Unescape;
    SyncedBounds(s, u, i, true);
    StringTurn(s, i, out, pending);
    StringTurn(u, i, out, pending);
    if i < |s| {
      StepInside(s, u, i);
      if s[i] == '\\' {
        EscapeTurn(s, i, out, pending);
        EscapeTurn(u, i, out, pending);
        if i + 1 < |s| && s[i + 1] == 'u' {
          UnicodeSame(s, u, i + 2, out, pending);
        } else if i + 1 < |s| && IsEscape(s[i + 1]) {
          StringSame(s, u, i + 2, out + Encode(pending) + [Unescape(s[i + 1])], -1);
        }
      } else if s[i] != '"' && s[i] >= ' ' {
        StringSame(s, u, i + 1, out + Encode(pending) + [s[i]], -1);
      }
    }
  }

  lemma {:induction false} UnicodeSame(s: string, u: string, i: nat, out: string, pending: CodePoint)
    requires Synced(s, u, i, true)
    ensures i <= |s| == |u|
    ensures match AfterUnicode(s, i, out, pending)
            case Ok(t, j) => AfterUnicode(u, i, out, pending) == Ok(t, j) && Synced(s, u, j, false)
            case Fail(_) => AfterUnicode(u, i, out, pending).Fail?
    decreases |s| - i
  {
    hide Synced, Blanked, ParseString, Encode, Combine, AllHex, IsHex4, HexValue;
    SyncedBounds(s, u, i, true);
    if i + 4 <= |s| {
      HexRun(s, u, i, 4);
      FourHex(s[i..i + 4]);
      FourHex(u[i..i + 4]);
      if IsHex4(s[i..i + 4]) {
        var code := HexValue(s[i..i + 4]);
        if IsHigh(pending) && IsLow(code) {
          StringSame(s, u, i + 4, out + Encode(Combine(pending, code)), -1);
        } else {
          StringSame(s, u, i + 4, out + Encode(pending), code);
        }
      }
    }
  }

  lemma FourHex(h: string)
    requires |h| == 4
    ensures IsHex4(h) <==> AllHex(h)
  {
    hide HexDigit;
  }

  // ---------- literals and numbers ----------

  predicate Solid(t: string) {
    forall k :: 0 <= k < |t| ==> t[k] != '"' && t[k] != '/' && t[k] != ' '
  }

  /** Characters that are neither quotes nor slashes nor blanks stand in both texts or in none. */
  lemma {:induction false} SolidSame(s: string, u: string, i: nat, t: string)
    requires Synced(s, u, i, false) && Solid(t)
    ensures At(s, i, t) <==> At(u, i, t)
    ensures At(s, i, t) ==> Synced(s, u, i + |t|, false)
    decreases t
  {
    hide Synced, Blanked, Comment, At;
    SyncedBounds(s, u, i, false);
    if t == "" {
      Empty(s, i);
      Empty(u, i);
    } else {
      assert [t[0]] + t[1..] == t;
      AtConcat(s, i, [t[0]], t[1..]);
      AtConcat(u, i, [t[0]], t[1..]);
      AtSingle(s, i, t[0]);
      AtSingle(u, i, t[0]);
      if i < |s| {
        StepOutside(s, u, i);
        if s[i] == t[0] && u[i] == t[0] {
          CommentCases(s, i);
          SolidSame(s, u, i + 1, t[1..]);
        }
      }
    }
  }

  ghost predicate SameOutcome(o: Outcome<Json>, p: Outcome<Json>, s: string, u: string) {
    if o.Ok? then p == o && Synced(s, u, o.next, false) else p.Fail?
  }

  lemma LiteralSame(s: string, u: string, i: nat, text: string, value: Json)
    requires Synced(s, u, i, false) && i < |s| && Solid(text) && text != ""
    ensures i < |u| && SameOutcome(Expect(s, i, text, value), Expect(u, i, text, value), s, u)
  {
    hide Synced, Blanked, Solid;
    SyncedBounds(s, u, i, false);
    SolidSame(s, u, i, text);
  }

  lemma NumberSolid(n: Number)
    requires ValidNumber(n)
    ensures Solid(NumberText(n))
  {
    hide ExponentText, FractionText;
    SolidJoin(Minus(n.negative), n.whole);
    SolidJoin(Minus(n.negative) + n.whole, FractionText(n.frac));
    SolidJoin(Minus(n.negative) + n.whole + FractionText(n.frac), ExponentText(n.exp));
    TailSolid(n.frac, n.exp);
  }

  lemma SolidJoin(a: string, b: string)
    ensures Solid(a) && Solid(b) ==> Solid(a + b)
  {
  }

  lemma TailSolid(frac: string, e: Exponent)
    requires AllDigits(frac) && ValidExponent(e)
    ensures Solid(FractionText(frac)) && Solid(ExponentText(e))
  {
    SolidJoin(".", frac);
    if e.Exponent? {
      SolidJoin([e.mark], SignText(e.sign));
      SolidJoin([e.mark] + SignText(e.sign), e.digits);
    }
  }

  lemma NumberSame(s: string, u: string, i: nat)
    requires Synced(s, u, i, false)
    ensures i <= |s| == |u| && SameOutcome(ParseNumber(s, i), ParseNumber(u, i), s, u)
  {
    hide Synced, Blanked, ParseNumber, NumberText, NumberMeaning, ValidNumber, Solid, At;
    SyncedBounds(s, u, i, false);
    if ParseNumber(s, i).Ok? {
      var n := NumberSound(s, i);
      NumberSolid(n);
      SolidSame(s, u, i, NumberText(n));
      PeekOutside(s, u, i + |NumberText(n)|);
      NumberComplete(s, i, n);
      NumberComplete(u, i, n);
    } else if ParseNumber(u, i).Ok? {
      var n := NumberSound(u, i);
      NumberSolid(n);
      SolidSame(s, u, i, NumberText(n));
      PeekOutside(s, u, i + |NumberText(n)|);
      NumberComplete(s, i, n);
    }
  }

  // ---------- values ----------

  /** A token that is a slash is refused wherever a value is expected. */
  lemma SlashFails(u: string, i: nat, depth: nat)
    requires i <= |u| && (NextToken(u, i, false).Fail? || NextToken(u, i, false).value == '/')
    ensures ParseValue(u, i, depth, false).Fail?
  {
    hide NextToken;
  }

  lemma {:induction false} ValueSame(s: string, u: string, i: nat, depth: nat)
    requires Synced(s, u, i, false)
    ensures i <= |s| == |u|
    ensures SameOutcome(ParseValue(s, i, depth, true), ParseValue(u, i, depth, false), s, u)
    decreases |s| - i, 0
  {
    hide Synced, Blanked, NextToken, ParseString, ParseNumber, ParseMembers, ParseItems, Expect;
    TokenSame(s, u, i);
    var token := NextToken(s, i, true);
    if depth > MAX_DEPTH {
    } else if token.Fail? {
      SlashFails(u, i, depth);
    } else {
      var c, j := token.value, token.next;
      if c == '-' || IsDigit(c) {
        NumberSame(s, u, j - 1);
      } else if c == 't' {
        LiteralSame(s, u, j - 1, "true", Bool(true));
      } else if c == 'f' {
        LiteralSame(s, u, j - 1, "false", Bool(false));
      } else if c == 'n' {
        LiteralSame(s, u, j - 1, "null", Null);
      } else if c == '"' {
        StringSame(s, u, j, "", -1);
      } else if c == '{' {
        ObjectSame(s, u, j, depth);
      } else if c == '[' {
        ArraySame(s, u, j, depth);
      }
    }
  }

  lemma {:induction false} ObjectSame(s: string, u: string, j: nat, depth: nat)
    requires Synced(s, u, j, false)
    ensures j <= |s| == |u|
    ensures SameOutcome(AfterBrace(s, j, depth, true), AfterBrace(u, j, depth, false), s, u)
    decreases |s| - j, 2
  {
    hide Synced, Blanked, NextToken, ParseMembers;
    TokenSame(s, u, j);
    var token := NextToken(s, j, true);
    if token.Fail? {
      if NextToken(u, j, false).Ok? {
        SlashNoMember(u, NextToken(u, j, false).next, depth, []);
      }
    } else if token.value != '}' {
      MembersSame(s, u, token.next, token.value, depth, []);
    }
  }

  lemma SlashNoMember(u: string, i: nat, depth: nat, data: seq<Entry>)
    requires i <= |u|
    ensures ParseMembers(u, i, '/', depth, false, data).Fail?
  {
  }

  lemma {:induction false} ArraySame(s: string, u: string, j: nat, depth: nat)
    requires Synced(s, u, j, false)
    ensures j <= |s| == |u|
    ensures SameOutcome(AfterBracket(s, j, depth, true), AfterBracket(u, j, depth, false), s, u)
    decreases |s| - j, 2
  {
    hide Synced, Blanked, NextToken, ParseItems;
    TokenSame(s, u, j);
    var token := NextToken(s, j, true);
    if token.Fail? {
      SlashNoItem(u, j, depth, []);
    } else if token.value != ']' {
      ItemsSame(s, u, token.next - 1, depth, []);
    }
  }

  lemma SlashNoItem(u: string, j: nat, depth: nat, data: seq<Json>)
    requires j <= |u| && (NextToken(u, j, false).Fail? || NextToken(u, j, false).value == '/')
    ensures NextToken(u, j, false).Ok? ==> ParseItems(u, NextToken(u, j, false).next - 1, depth, false, data).Fail?
  {
    hide NextToken, ParseItems, ParseValue;
    if NextToken(u, j, false).Ok? {
      TokenAgain(u, j);
      SlashFails(u, NextToken(u, j, false).next - 1, depth + 1);
      ItemsFail(u, NextToken(u, j, false).next - 1, depth, false, data);
    }
  }

  lemma {:induction false} ItemsSame(s: string, u: string, i: nat, depth: nat, data: seq<Json>)
    requires Synced(s, u, i, false)
    ensures i <= |s| == |u|
    ensures SameOutcome(ParseItems(s, i, depth, true, data), ParseItems(u, i, depth, false, data), s, u)
    decreases |s| - i, 1
  {
    hide Synced, Blanked, NextToken, ParseValue;
    ValueSame(s, u, i, depth + 1);
    var item := ParseValue(s, i, depth + 1, true);
    if item.Ok? {
      TokenSame(s, u, item.next);
      var token := NextToken(s, item.next, true);
      if token.Ok? && token.value == ',' {
        var more := data + [item.value];
        TokenSame(s, u, token.next);
        var next := NextToken(s, token.next, true);
        if next.Ok? {
          ItemsSame(s, u, next.next - 1, depth, more);
        } else {
          SlashNoItem(u, token.next, depth, more);
        }
      }
    }
  }

  lemma {:induction false} MembersSame(s: string, u: string, i: nat, c: char, depth: nat, data: seq<Entry>)
    requires Synced(s, u, i, c == '"')
    ensures i <= |s| == |u|
    ensures SameOutcome(ParseMembers(s, i, c, depth, true, data), ParseMembers(u, i, c, depth, false, data), s, u)
    decreases |s| - i, 1
  {
    hide Synced, Blanked, NextToken, ParseString, ParseValue, Insert;
    SyncedBounds(s, u, i, c == '"');
    if c == '"' {
      StringSame(s, u, i, "", -1);
      var key := ParseString(s, i, "", -1);
      if key.Ok? {
        TokenSame(s, u, key.next);
        var colon := NextToken(s, key.next, true);
        if colon.Ok? && colon.value == ':' {
          ValueSame(s, u, colon.next, depth + 1);
          var value := ParseValue(s, colon.next, depth + 1, true);
          if value.Ok? {
            LaterMembersSame(s, u, value.next, depth, Insert(data, key.value, value.value));
          }
        }
      }
    }
  }

  /** What the object loop does behind a member. */
  function AfterMember(s: string, l: nat, depth: nat, comments: bool, data: seq<Entry>): Outcome<Json>
    requires l <= |s|
  {
    match NextToken(s, l, comments)
    case Fail(e) => Fail(e)
    case Ok(c, m) =>
      if c == '}' then Ok(Obj(data), m)
      else if c != ',' then Fail(ExpectedCommaInObject(c))
      else
        match NextToken(s, m, comments)
        case Fail(e) => Fail(e)
        case Ok(c2, n) => ParseMembers(s, n, c2, depth, comments, data)
  }

  lemma {:induction false} LaterMembersSame(s: string, u: string, l: nat, depth: nat, data: seq<Entry>)
    requires Synced(s, u, l, false)
    ensures l <= |s| == |u|
    ensures SameOutcome(AfterMember(s, l, depth, true, data), AfterMember(u, l, depth, false, data), s, u)
    decreases |s| - l, 2
  {
    hide Synced, Blanked, NextToken, ParseMembers;
    TokenSame(s, u, l);
    var token := NextToken(s, l, true);
    if token.Ok? && token.value == ',' {
      TokenSame(s, u, token.next);
      var next := NextToken(s, token.next, true);
      if next.Ok? {
        MembersSame(s, u, next.next, next.value, depth, data);
      } else if NextToken(u, token.next, false).Ok? {
        SlashNoMember(u, NextToken(u, token.next, false).next, depth, data);
      }
    }
  }

  // ---------- the theorems ----------

  lemma WholeSynced(s: string)
    ensures Synced(s, WithoutComments(s), 0, false)
  {
    hide Blanked;
    assert WithoutComments(s)[0..] == WithoutComments(s);
  }

  /** COMMENTS mode reads a text as STANDARD mode reads the text with its comments blanked: one
      accepts it if and only if the other does, with the same value. */
  lemma CommentsAreBlanks(s: string)
    ensures Parse(s, true).Ok? <==> Parse(WithoutComments(s), false).Ok?
    ensures Parse(s, true).Ok? ==> Parse(s, true) == Parse(WithoutComments(s), false)
  {
    hide Synced, ParseValue, SkipComments, Blanked;
    var u := WithoutComments(s);
    WholeSynced(s);
    ValueSame(s, u, 0, 0);
    var value := ParseValue(s, 0, 0, true);
    if value.Ok? {
      SpacesSynced(s, u, value.next);
      var k := CommentsSynced(s, u, SkipSpaces(s, value.next));
      SkippedTo(u, value.next, k);
    }
  }

  /** So in COMMENTS mode `Json::parse` succeeds with `v` exactly on the texts that are JSON texts of `v`
      once their comments are blanked. */
  lemma CommentsParserIsGrammar(s: string, v: Json)
    ensures Parse(s, true) == Ok(v, |s|) <==> IsTextOf(WithoutComments(s), v)
    ensures Parse(s, true).Ok? ==> Parse(s, true).next == |s|
  {
    hide Parse, IsTextOf, Blanked;
    CommentsAreBlanks(s);
    ParserIsGrammar(WithoutComments(s), v);
  }
}
