/** Reading a value does not depend on what stands behind it, in either mode: it reads the same from any
    prefix that covers it. */
module JsonPrefix {
  import opened ByteStrings
  import opened JsonGrammar
  import opened JsonLexical
  import opened JsonNumbers
  import opened JsonParserSpec
  import opened JsonValues
  import opened Utf8

  /** The outcome was reached without looking beyond `n`. */
  predicate Within<T>(o: Outcome<T>, n: nat) {
    o.Ok? && o.next <= n
  }

  // ---------- whitespace and comments ----------

  lemma {:induction false} SpacesPrefix(s: string, n: nat, i: nat)
    requires i <= n <= |s| && SkipSpaces(s, i) <= n
    ensures SkipSpaces(s[..n], i) == SkipSpaces(s, i)
    decreases |s| - i
  {
    if i < n && SkipSpaces(s, i) > i {
      SpacesPrefix(s, n, i + 1);
    }
  }

  lemma {:induction false} LinePrefix(s: string, n: nat, i: nat)
    requires i <= n <= |s| && LineEnd(s, i) <= n
    ensures LineEnd(s[..n], i) == LineEnd(s, i)
    decreases |s| - i
  {
    if i < n && LineEnd(s, i) > i {
      LinePrefix(s, n, i + 1);
    }
  }

  lemma {:induction false} BlockPrefix(s: string, n: nat, i: nat)
    requires i <= n <= |s| && Within(BlockEnd(s, i), n)
    ensures BlockEnd(s[..n], i) == BlockEnd(s, i)
    decreases |s| - i
  {
    if !(s[i] == '*' && s[i + 1] == '/') {
      BlockPrefix(s, n, i + 1);
    }
  }

  lemma CommentPrefix(s: string, n: nat, i: nat)
    requires i <= n <= |s| && Within(Comment(s, i), n)
    ensures Comment(s[..n], i) == Comment(s, i)
  {
    hide LineEnd, BlockEnd;
    if Peek(s, i) == '/' {
      if s[i + 1] == '/' {
        LinePrefix(s, n, i + 2);
      } else {
        BlockPrefix(s, n, i + 2);
      }
    }
  }

  lemma {:induction false} CommentsPrefix(s: string, n: nat, i: nat)
    requires i <= n <= |s| && Within(SkipComments(s, i), n)
    ensures SkipComments(s[..n], i) == SkipComments(s, i)
    decreases |s| - i
  {
    hide Comment;
    CommentPrefix(s, n, i);
    var c := Comment(s, i);
    SpacesPrefix(s, n, c.next);
    if c.value {
      CommentsPrefix(s, n, SkipSpaces(s, c.next));
    }
  }

  lemma GarbagePrefix(s: string, n: nat, i: nat, comments: bool)
    requires i <= n <= |s| && Within(SkipGarbage(s, i, comments), n)
    ensures SkipGarbage(s[..n], i, comments) == SkipGarbage(s, i, comments)
  {
    hide SkipComments;
    SpacesPrefix(s, n, i);
    if comments {
      CommentsPrefix(s, n, SkipSpaces(s, i));
    }
  }

  lemma TokenPrefix(s: string, n: nat, i: nat, comments: bool)
    requires i <= n <= |s| && Within(NextToken(s, i, comments), n)
    ensures NextToken(s[..n], i, comments) == NextToken(s, i, comments)
  {
    hide SkipGarbage;
    GarbagePrefix(s, n, i, comments);
  }

  // ---------- strings, numbers, literals ----------

  lemma {:induction false} StringPrefix(s: string, n: nat, i: nat, out: string, pending: CodePoint)
    requires i <= n <= |s| && Within(ParseString(s, i, out, pending), n)
    ensures ParseString(s[..n], i, out, pending) == ParseString(s, i, out, pending)
    decreases |s| - i
  {
    hide ParseString, Encode, Combine, HexValue, HexDigit, Unescape, IsEscape;
    var t := s[..n];
    StringTurn(s, i, out, pending);
    StringTurn(t, i, out, pending);
    assert i < n;
    if s[i] == '\\' {
      EscapeTurn(s, i, out, pending);
      EscapeTurn(t, i, out, pending);
      if s[i + 1] == 'u' {
        var hex := s[i + 2..i + 6];
        var code := HexValue(hex);
        if IsHigh(pending) && IsLow(code) {
          StringPrefix(s, n, i + 6, out + Encode(Combine(pending, code)), -1);
        } else {
          StringPrefix(s, n, i + 6, out + Encode(pending), code);
        }
        assert t[i + 2..i + 6] == hex;
      } else {
        StringPrefix(s, n, i + 2, out + Encode(pending) + [Unescape(s[i + 1])], -1);
      }
    } else if s[i] != '"' {
      StringPrefix(s, n, i + 1, out + Encode(pending) + [s[i]], -1);
    }
  }

  lemma NumberPrefix(s: string, n: nat, i: nat)
    requires i <= n <= |s| && Within(ParseNumber(s, i), n)
    ensures ParseNumber(s[..n], i) == ParseNumber(s, i)
  {
    hide ParseNumber, NumberText, NumberMeaning, ValidNumber;
    var d := NumberSound(s, i);
    NumberComplete(s, i, d);
    AtPrefix(s, n, i, NumberText(d));
    NumberComplete(s[..n], i, d);
  }

  lemma ExpectPrefix(s: string, n: nat, i: nat, expected: string, value: Json)
    requires i < n <= |s| && expected != "" && Within(Expect(s, i, expected, value), n)
    ensures Expect(s[..n], i, expected, value) == Expect(s, i, expected, value)
  {
    AtPrefix(s, n, i, expected);
  }

  // ---------- values ----------

  lemma {:induction false} ValuePrefix(s: string, n: nat, i: nat, depth: nat, comments: bool)
    requires i <= n <= |s| && Within(ParseValue(s, i, depth, comments), n)
    ensures ParseValue(s[..n], i, depth, comments) == ParseValue(s, i, depth, comments)
    decreases |s| - i, 0
  {
    hide NextToken, ParseString, ParseNumber, Expect, ParseMembers, ParseItems;
    var c, j := NextToken(s, i, comments).value, NextToken(s, i, comments).next;
    TokenPrefix(s, n, i, comments);
    if c == '-' || IsDigit(c) {
      NumberPrefix(s, n, j - 1);
    } else if c == 't' {
      ExpectPrefix(s, n, j - 1, "true", Bool(true));
    } else if c == 'f' {
      ExpectPrefix(s, n, j - 1, "false", Bool(false));
    } else if c == 'n' {
      ExpectPrefix(s, n, j - 1, "null", Null);
    } else if c == '"' {
      StringPrefix(s, n, j, "", -1);
    } else {
      TokenPrefix(s, n, j, comments);
      var c2, k := NextToken(s, j, comments).value, NextToken(s, j, comments).next;
      if c == '{' && c2 != '}' {
        MembersPrefix(s, n, k, c2, depth, comments, []);
      } else if c == '[' && c2 != ']' {
        ItemsPrefix(s, n, k - 1, depth, comments, []);
      }
    }
  }

  lemma {:induction false} MembersPrefix(s: string, n: nat, i: nat, c: char, depth: nat, comments: bool,
                                         data: seq<Entry>)
    requires i <= n <= |s| && Within(ParseMembers(s, i, c, depth, comments, data), n)
    ensures ParseMembers(s[..n], i, c, depth, comments, data) == ParseMembers(s, i, c, depth, comments, data)
    decreases |s| - i, 1
  {
    hide NextToken, ParseString, ParseValue, Insert;
    var key := ParseString(s, i, "", -1);
    var colon := NextToken(s, key.next, comments);
    var value := ParseValue(s, colon.next, depth + 1, comments);
    var comma := NextToken(s, value.next, comments);
    StringPrefix(s, n, i, "", -1);
    TokenPrefix(s, n, key.next, comments);
    ValuePrefix(s, n, colon.next, depth + 1, comments);
    TokenPrefix(s, n, value.next, comments);
    if comma.value == ',' {
      var next := NextToken(s, comma.next, comments);
      TokenPrefix(s, n, comma.next, comments);
      MembersPrefix(s, n, next.next, next.value, depth, comments, Insert(data, key.value, value.value));
    }
  }

  lemma {:induction false} ItemsPrefix(s: string, n: nat, i: nat, depth: nat, comments: bool, data: seq<Json>)
    requires i <= n <= |s| && Within(ParseItems(s, i, depth, comments, data), n)
    ensures ParseItems(s[..n], i, depth, comments, data) == ParseItems(s, i, depth, comments, data)
    decreases |s| - i, 1
  {
    hide NextToken, ParseValue;
    var value := ParseValue(s, i, depth + 1, comments);
    var comma := NextToken(s, value.next, comments);
    ValuePrefix(s, n, i, depth + 1, comments);
    TokenPrefix(s, n, value.next, comments);
    if comma.value == ',' {
      var next := NextToken(s, comma.next, comments);
      TokenPrefix(s, n, comma.next, comments);
      ItemsPrefix(s, n, next.next - 1, depth, comments, data + [value.value]);
    }
  }
}
