/** Pretty-printing as a normal form: it loses nothing but the whitespace between tokens. */
module PrettyNormal {
  import opened PrettyPrint

  predicate IsBlank(c: char) {
    c == ' ' || c == '\n' || c == '\r' || c == '\t'
  }

  predicate Blank(w: string) {
    forall i :: 0 <= i < |w| ==> IsBlank(w[i])
  }

  /** The characters of `t` without the whitespace outside its strings. */
  function Strip(t: string, st: State): string {
    if t == "" then ""
    else (if !st.quoted && IsBlank(t[0]) then "" else [t[0]]) + Strip(t[1..], Turn(st, t[0]).1)
  }

  function Tokens(t: string): string {
    Strip(t, START)
  }

  /** No colon inside a string; such colons are dropped. */
  predicate NoQuotedColon(t: string, st: State) {
    t == "" || (!(st.quoted && t[0] == ':') && NoQuotedColon(t[1..], Turn(st, t[0]).1))
  }

  /** States that no text tells apart: outside a string the last character does not matter. */
  predicate Similar(a: State, b: State) {
    && a.indent == b.indent && a.quoted == b.quoted
    && (a.quoted ==> a.escaped == b.escaped && !a.first && !b.first)
  }

  lemma TurnSimilar(a: State, b: State, c: char)
    requires Similar(a, b)
    ensures Turn(a, c).0 == Turn(b, c).0 && Similar(Turn(a, c).1, Turn(b, c).1)
  {
  }

  lemma {:induction false} SimilarStates(t: string, a: State, b: State)
    requires Similar(a, b)
    ensures Rewrite(t, a) == Rewrite(t, b) && Strip(t, a) == Strip(t, b)
  {
    hide Turn;
    if t != "" {
      TurnSimilar(a, b, t[0]);
      SimilarStates(t[1..], Turn(a, t[0]).1, Turn(b, t[0]).1);
    }
  }

  lemma BlankTurn(st: State, c: char)
    requires !st.quoted && IsBlank(c)
    ensures Turn(st, c).0 == "" && Similar(Turn(st, c).1, st)
  {
  }

  // ---------- whitespace between tokens is ignored ----------

  lemma {:induction false} RewriteStrip(t: string, st: State)
    requires Similar(st, st)
    ensures Rewrite(Strip(t, st), st) == Rewrite(t, st)
  {
    hide Turn, Similar, IsBlank;
    if t != "" {
      var c := t[0];
      var next := Turn(st, c).1;
      TurnSimilar(st, st, c);
      RewriteStrip(t[1..], next);
      var rest := Strip(t[1..], next);
      if !st.quoted && IsBlank(c) {
        BlankTurn(st, c);
        SimilarStates(rest, next, st);
        assert "" + rest == rest && "" + Rewrite(t[1..], next) == Rewrite(t[1..], next);
      } else {
        assert ([c] + rest)[0] == c && ([c] + rest)[1..] == rest;
      }
    }
  }

  // ---------- and nothing else is lost ----------

  lemma {:induction false} StripConcat(a: string, b: string, st: State)
    ensures Strip(a + b, st) == Strip(a, st) + Strip(b, After(a, st))
  {
    hide Turn, IsBlank;
    if a == "" {
      assert a + b == b;
    } else {
      assert (a + b)[0] == a[0] && (a + b)[1..] == a[1..] + b;
      StripConcat(a[1..], b, Turn(st, a[0]).1);
    }
  }

  lemma {:induction false} BlankStrip(w: string, st: State)
    requires Blank(w) && !st.quoted
    ensures Strip(w, st) == "" && Similar(After(w, st), st)
  {
    hide Turn, IsBlank;
    if w != "" {
      BlankTurn(st, w[0]);
      BlankStrip(w[1..], Turn(st, w[0]).1);
    }
  }

  lemma {:induction false} NewLineBlank(indent: nat)
    ensures Blank(Indentation(indent)) && Blank(NewLine(indent, false))
  {
    if indent > 0 {
      NewLineBlank(indent - 1);
    }
  }

  lemma StripSingle(c: char, st: State)
    ensures Strip([c], st) == if !st.quoted && IsBlank(c) then "" else [c]
    ensures After([c], st) == Turn(st, c).1
  {
    hide Turn, IsBlank;
    RewriteSingle(c, st);
    assert [c][1..] == "";
  }

  /** Blanks behind a character outside strings leave no trace. */
  lemma StripFollowed(c: char, w: string, st: State)
    requires Blank(w) && !Turn(st, c).1.quoted
    ensures Strip([c] + w, st) == Strip([c], st) && Similar(After([c] + w, st), Turn(st, c).1)
  {
    hide Turn, IsBlank;
    StripConcat([c], w, st);
    RewriteConcat([c], w, st);
    StripSingle(c, st);
    BlankStrip(w, Turn(st, c).1);
  }

  /** Nor do blanks in front of one. */
  lemma StripPreceded(w: string, c: char, st: State)
    requires Blank(w) && !st.quoted
    ensures Strip(w + [c], st) == Strip([c], st) && Similar(After(w + [c], st), Turn(st, c).1)
  {
    hide Turn, IsBlank;
    var between := After(w, st);
    StripConcat(w, [c], st);
    RewriteConcat(w, [c], st);
    BlankStrip(w, st);
    SimilarStates([c], between, st);
    StripSingle(c, between);
    TurnSimilar(between, st, c);
  }

  /** What is written for one character strips to that character. */
  lemma TurnStrip(st: State, c: char)
    requires Similar(st, st) && !(st.quoted && c == ':')
    ensures Strip(Turn(st, c).0, st) == Strip([c], st) && Similar(After(Turn(st, c).0, st), Turn(st, c).1)
  {
    hide Strip, Rewrite, After, Indentation;
    StripSingle(c, st);
    TurnSimilar(st, st, c);
    if st.quoted {
      assert Turn(st, c).0 == [c];
    } else if IsBlank(c) {
      BlankStrip("", st);
      StripSingle(c, st);
    } else if c == '{' || c == '[' {
      NewLineBlank(Indent(st.indent));
      StripFollowed(c, NewLine(Indent(st.indent), false), st);
    } else if c == '}' || c == ']' {
      NewLineBlank(Dedent(st.indent));
      StripPreceded(NewLine(Dedent(st.indent), false), c, st);
    } else if c == ',' {
      NewLineBlank(st.indent);
      StripFollowed(c, NewLine(st.indent, false), st);
    } else if c == ':' {
      StripFollowed(c, " ", st);
      assert Turn(st, c).0 == [c] + " ";
    } else {
      assert Turn(st, c).0 == [c];
    }
  }

  lemma {:induction false} StripRewrite(t: string, st: State)
    requires Similar(st, st) && NoQuotedColon(t, st)
    ensures Strip(Rewrite(t, st), st) == Strip(t, st)
  {
    hide Turn, Similar, IsBlank;
    if t != "" {
      var c, next := t[0], Turn(st, t[0]).1;
      var text, rest := Turn(st, c).0, Rewrite(t[1..], next);
      TurnSimilar(st, st, c);
      TurnStrip(st, c);
      StripSingle(c, st);
      StripConcat(text, rest, st);
      SimilarStates(rest, After(text, st), next);
      StripRewrite(t[1..], next);
    }
  }

  // ---------- indentation ----------

  /** Open brackets less closed ones; those inside strings count as well. */
  function Balance(t: string): int {
    if t == "" then 0 else Change(t[0]) + Balance(t[1..])
  }

  function Change(c: char): int {
    if c == '{' || c == '[' then 1 else if c == '}' || c == ']' then -1 else 0
  }

  lemma TurnIndent(st: State, c: char)
    requires st.indent < UNSIGNED
    ensures Turn(st, c).1.indent == (st.indent + Change(c)) % UNSIGNED
  {
  }

  lemma ModSum(a: int, b: int)
    ensures (a % UNSIGNED + b) % UNSIGNED == (a + b) % UNSIGNED
  {
  }

  lemma {:induction false} IndentIsBalance(t: string, st: State)
    requires st.indent < UNSIGNED
    ensures After(t, st).indent == (st.indent + Balance(t)) % UNSIGNED
  {
    hide Turn, Change;
    if t != "" {
      TurnIndent(st, t[0]);
      IndentIsBalance(t[1..], Turn(st, t[0]).1);
      ModSum(st.indent + Change(t[0]), Balance(t[1..]));
    }
  }

  predicate AllSpaces(w: string) {
    forall i :: 0 <= i < |w| ==> w[i] == ' '
  }

  lemma {:induction false} IndentationIsSpaces(level: nat)
    ensures |Indentation(level)| == 2 * level && AllSpaces(Indentation(level))
  {
    if level > 0 {
      IndentationIsSpaces(level - 1);
    }
  }

  /** Outside strings every bracket and comma breaks the line. */
  lemma BreaksAt(t: string, c: char)
    requires !After(t, START).quoted
    ensures var open := Balance(t) % UNSIGNED;
            var inside := (Balance(t) + 1) % UNSIGNED;
            var outside := (Balance(t) - 1) % UNSIGNED;
            && (c == '{' || c == '[' ==> Pretty(t + [c]) == Pretty(t) + ([c] + ("\n" + Indentation(inside))))
            && (c == '}' || c == ']' ==> Pretty(t + [c]) == Pretty(t) + (("\n" + Indentation(outside)) + [c]))
            && (c == ',' ==> Pretty(t + [c]) == Pretty(t) + ([c] + ("\n" + Indentation(open))))
  {
    hide Rewrite, After, Indentation, Balance, Turn;
    RewriteConcat(t, [c], START);
    RewriteSingle(c, After(t, START));
    IndentIsBalance(t, START);
    TurnBreaks(After(t, START), c, Balance(t));
  }

  lemma TurnBreaks(st: State, c: char, open: int)
    requires !st.quoted && st.indent == open % UNSIGNED
    ensures c == '{' || c == '[' ==> Turn(st, c).0 == [c] + ("\n" + Indentation((open + 1) % UNSIGNED))
    ensures c == '}' || c == ']' ==> Turn(st, c).0 == ("\n" + Indentation((open - 1) % UNSIGNED)) + [c]
    ensures c == ',' ==> Turn(st, c).0 == [c] + ("\n" + Indentation(open % UNSIGNED))
  {
    hide Indentation;
    ModSum(open, 1);
    ModSum(open, UNSIGNED - 1);
  }

  /** No line break inside a string, as JSON demands. */
  predicate StringsInLine(t: string, st: State) {
    t == "" || (!(st.quoted && t[0] == '\n') && StringsInLine(t[1..], Turn(st, t[0]).1))
  }

  lemma {:induction false} OneLine(t: string, st: State)
    requires '\n' !in t
    ensures StringsInLine(t, st)
  {
    hide Turn;
    if t != "" {
      OneLine(t[1..], Turn(st, t[0]).1);
    }
  }

  /** What is written from outside never starts with a blank or a closing bracket, but for a line break. */
  lemma {:induction false} OutsideFirst(t: string, st: State)
    requires !st.quoted
    ensures var w := Rewrite(t, st);
            w == "" || w[0] == '\n' || (!IsBlank(w[0]) && Change(w[0]) >= 0)
  {
    if t != "" && IsBlank(t[0]) {
      OutsideFirst(t[1..], Turn(st, t[0]).1);
      assert Rewrite(t, st) == Rewrite(t[1..], Turn(st, t[0]).1);
    }
  }

  /** The spaces a line starts with. */
  function Margin(w: string): (n: nat)
    ensures n <= |w|
  {
    if w != "" && w[0] == ' ' then 1 + Margin(w[1..]) else 0
  }

  /** One if the line starts with a closing bracket. */
  function Outdent(w: string): nat {
    if Margin(w) < |w| && Change(w[Margin(w)]) < 0 then 1 else 0
  }

  lemma {:induction false} MarginOf(blank: string, w: string)
    requires AllSpaces(blank) && (w != "" ==> w[0] != ' ')
    ensures Margin(blank + w) == |blank| && Outdent(blank + w) == if w != "" && Change(w[0]) < 0 then 1 else 0
  {
    hide Change;
    if blank == "" {
      assert blank + w == w;
    } else {
      MarginOf(blank[1..], w);
      assert (blank + w)[1..] == blank[1..] + w;
    }
  }

  lemma {:induction false} BalanceConcat(a: string, b: string)
    ensures Balance(a + b) == Balance(a) + Balance(b)
  {
    hide Change;
    if a == "" {
      assert a + b == b;
    } else {
      assert (a + b)[0] == a[0] && (a + b)[1..] == a[1..] + b;
      BalanceConcat(a[1..], b);
    }
  }

  lemma {:induction false} BlankBalance(w: string)
    requires Blank(w)
    ensures Balance(w) == 0
  {
    if w != "" {
      BlankBalance(w[1..]);
    }
  }

  lemma SingleBalance(c: char, w: string)
    requires Blank(w)
    ensures Balance([c] + w) == Change(c) && Balance(w + [c]) == Change(c)
  {
    hide Change;
    BlankBalance(w);
    BalanceConcat([c], w);
    BalanceConcat(w, [c]);
    assert [c][1..] == "";
  }

  /** The printing keeps all brackets. */
  lemma TurnBalance(st: State, c: char)
    ensures Balance(Turn(st, c).0) == Change(c)
  {
    hide Balance, Indentation;
    var indent := st.indent;
    NewLineBlank(indent);
    NewLineBlank(Indent(indent));
    NewLineBlank(Dedent(indent));
    SingleBalance(c, "");
    var level := if c == '{' || c == '[' then Indent(indent) else if c == ',' then indent else Dedent(indent);
    SingleBalance(c, NewLine(level, false));
    BlankBalance("");
    assert [c] + "" == [c] && "" + [c] == [c];
    SingleBalance(c, " ");
    assert [c] + " " == [c, ' '];
  }

  /** The text `w`, written from `st` on, breaks the line at `k`, and the new line starts with two spaces
      for every bracket open there. */
  ghost predicate IndentedAt(w: string, k: nat, open: int)
    requires k < |w|
  {
    w[k] == '\n' ==> Margin(w[k + 1..]) == 2 * ((open + Balance(w[..k]) - Outdent(w[k + 1..])) % UNSIGNED)
  }

  lemma BreakBehind(c: char, line: string, rest: string, open: nat, k: nat)
    requires AllSpaces(line) && |line| == 2 * ((open + Change(c)) % UNSIGNED) && Change(c) >= 0 && c != '\n'
    requires rest == "" || (rest[0] != ' ' && Change(rest[0]) >= 0)
    requires k < |[c] + ("\n" + line)|
    ensures IndentedAt([c] + ("\n" + line) + rest, k, open)
  {
    hide Change, Margin, Outdent, Balance;
    var w := [c] + ("\n" + line) + rest;
    if w[k] == '\n' {
      assert k == 1 && w[2..] == line + rest && w[..1] == [c] + "";
      SingleBalance(c, "");
      MarginOf(line, rest);
    }
  }

  lemma BreakInFront(c: char, line: string, rest: string, open: nat, k: nat)
    requires AllSpaces(line) && |line| == 2 * ((open - 1) % UNSIGNED) && Change(c) < 0 && c != ' ' && c != '\n'
    requires k < |"\n" + line + [c]|
    ensures IndentedAt("\n" + line + [c] + rest, k, open)
  {
    hide Change, Margin, Outdent, Balance;
    var w := "\n" + line + [c] + rest;
    if w[k] == '\n' {
      assert k == 0 && w[1..] == line + ([c] + rest) && w[..0] == "";
      BlankBalance("");
      MarginOf(line, [c] + rest);
    }
  }

  /** The break behind an opening bracket or a comma, and the one in front of a closing bracket. */
  lemma OwnBreak(t: string, st: State, k: nat)
    requires t != "" && st.indent < UNSIGNED && !(st.quoted && t[0] == '\n')
    requires k < |Turn(st, t[0]).0|
    ensures IndentedAt(Turn(st, t[0]).0 + Rewrite(t[1..], Turn(st, t[0]).1), k, st.indent)
  {
    hide Rewrite, Indentation, Margin, Outdent, Balance;
    var c, next := t[0], Turn(st, t[0]).1;
    var text, rest := Turn(st, c).0, Rewrite(t[1..], next);
    if !st.quoted && text[k] == '\n' {
      if c == '}' || c == ']' {
        var line := Indentation(Dedent(st.indent));
        IndentationIsSpaces(Dedent(st.indent));
        BreakInFront(c, line, rest, st.indent, k);
      } else {
        var level := if c == ',' then st.indent else Indent(st.indent);
        IndentationIsSpaces(level);
        OutsideFirst(t[1..], next);
        BreakBehind(c, Indentation(level), rest, st.indent, k);
      }
    }
  }

  lemma {:induction false} BreakAt(t: string, st: State, k: nat)
    requires StringsInLine(t, st) && st.indent < UNSIGNED && k < |Rewrite(t, st)|
    ensures IndentedAt(Rewrite(t, st), k, st.indent)
  {
    hide Turn, Margin, Outdent, Balance, Change;
    var c, next := t[0], Turn(st, t[0]).1;
    var text, rest := Turn(st, c).0, Rewrite(t[1..], next);
    if k < |text| {
      OwnBreak(t, st, k);
    } else {
      var j := k - |text|;
      TurnIndent(st, c);
      BreakAt(t[1..], next, j);
      TurnBalance(st, c);
      assert (text + rest)[..k] == text + rest[..j] && (text + rest)[k + 1..] == rest[j + 1..];
      BalanceConcat(text, rest[..j]);
      ModSum(st.indent + Change(c), Balance(rest[..j]) - Outdent(rest[j + 1..]));
    }
  }

  /** In the whole of a printed text every line starts with two spaces for every bracket that is open
      there, a closing one in front included. */
  lemma BreaksIndented(t: string, k: nat)
    requires StringsInLine(t, START) && k < |Pretty(t)| && Pretty(t)[k] == '\n'
    ensures var line := Pretty(t)[k + 1..];
            Margin(line) == 2 * ((Balance(Pretty(t)[..k]) - Outdent(line)) % UNSIGNED)
  {
    hide Rewrite, Margin, Outdent, Balance, StringsInLine;
    BreakAt(t, START, k);
  }

  // ---------- the theorems ----------

  /** Two texts without colons in their strings print alike exactly when they are the same tokens. */
  lemma PrettyNormalForm(t: string, u: string)
    requires NoQuotedColon(t, START) && NoQuotedColon(u, START)
    ensures Pretty(t) == Pretty(u) <==> Tokens(t) == Tokens(u)
  {
    hide Rewrite, Strip, NoQuotedColon;
    RewriteStrip(t, START);
    RewriteStrip(u, START);
    StripRewrite(t, START);
    StripRewrite(u, START);
  }

  // ---------- printing twice ----------

  /** The second printing goes over what the first one wrote. This is where it stands, before and after
      the text written for `c`: what the first one dropped it never sees. */
  function Reread(c: char, st: State, second: State): State {
    if (st.quoted && c == ':') || (!st.quoted && IsBlank(c)) then second else Turn(second, c).1
  }

  /** The two take `c` differently: one holds it to be inside a string and the other does not, and that
      shows. */
  predicate Torn(c: char, st: State, second: State) {
    || (st.quoted && !second.quoted && (IsBlank(c) || Change(c) != 0 || c == ','))
    || (!st.quoted && second.quoted && c == ':')
  }

  /** No character of the text is torn. */
  predicate Harmless(t: string, st: State, second: State) {
    t == "" || (!Torn(t[0], st, second) && Harmless(t[1..], Turn(st, t[0]).1, Reread(t[0], st, second)))
  }

  lemma {:induction false} BlanksReread(w: string, second: State)
    requires Blank(w)
    ensures Rewrite(w, second) == if second.quoted then w else ""
    ensures After(w, second).indent == second.indent && After(w, second).quoted == second.quoted
    ensures if w == "" then After(w, second) == second else !After(w, second).escaped && !After(w, second).first
  {
    hide Turn;
    if w != "" {
      BlankAgain(second, w[0]);
      BlanksReread(w[1..], Turn(second, w[0]).1);
      assert w == [w[0]] + w[1..];
    }
  }

  lemma BlankAgain(second: State, c: char)
    requires IsBlank(c)
    ensures Turn(second, c) == (if second.quoted then [c] else "", second.(escaped := false, first := false))
  {
  }

  /** Blanks behind a character: written again inside strings, and dropped outside. */
  lemma FollowedAgain(c: char, w: string, second: State)
    requires Blank(w) && c != '\\'
    ensures Rewrite([c] + w, second) == Turn(second, c).0 + if Turn(second, c).1.quoted then w else ""
    ensures After([c] + w, second) == Turn(second, c).1
  {
    hide Rewrite, After, IsBlank;
    RewriteConcat([c], w, second);
    RewriteSingle(c, second);
    BlanksReread(w, Turn(second, c).1);
  }

  /** And in front of one. */
  lemma PrecededAgain(w: string, c: char, second: State)
    requires Blank(w) && (c == '}' || c == ']')
    ensures Rewrite(w + [c], second) == (if second.quoted then w else "") + Turn(second, c).0
    ensures After(w + [c], second) == Turn(second, c).1
  {
    hide Rewrite, After, IsBlank, Indentation;
    RewriteConcat(w, [c], second);
    BlanksReread(w, second);
    RewriteSingle(c, After(w, second));
  }

  lemma QuotedTurn(st: State, c: char)
    requires st.quoted
    ensures Turn(st, c).0 == if c == ':' then "" else [c]
  {
  }

  lemma PlainTurn(st: State, c: char)
    requires !st.quoted && c != ':' && c != ',' && Change(c) == 0 && !IsBlank(c)
    ensures Turn(st, c).0 == [c]
  {
  }

  lemma TurnsAlike(c: char, st: State, second: State)
    requires st.indent == second.indent
    ensures Turn(st, c).1.indent == Reread(c, st, second).indent
  {
  }

  lemma RereadQuoted(c: char, st: State, second: State)
    requires st.quoted && !Torn(c, st, second)
    ensures Rewrite(Turn(st, c).0, second) == Turn(st, c).0
    ensures After(Turn(st, c).0, second) == Reread(c, st, second)
  {
    hide Rewrite, After, Turn;
    RewriteSingle(c, second);
    BlanksReread("", second);
    QuotedTurn(st, c);
    if second.quoted {
      QuotedTurn(second, c);
    } else if c != ':' {
      PlainTurn(second, c);
    }
  }

  /** A character that is not torn is written again as it was. */
  lemma RereadWhole(c: char, st: State, second: State)
    requires st.indent == second.indent && !Torn(c, st, second)
    ensures Rewrite(Turn(st, c).0, second) == Turn(st, c).0
    ensures After(Turn(st, c).0, second) == Reread(c, st, second)
  {
    hide Rewrite, After, Indentation;
    if st.quoted {
      RereadQuoted(c, st, second);
    } else if IsBlank(c) {
      BlankTurn(st, c);
      BlanksReread("", second);
    } else if c == '{' || c == '[' {
      NewLineBlank(Indent(st.indent));
      FollowedAgain(c, NewLine(Indent(st.indent), false), second);
    } else if c == '}' || c == ']' {
      NewLineBlank(Dedent(st.indent));
      PrecededAgain(NewLine(Dedent(st.indent), false), c, second);
    } else if c == ',' {
      NewLineBlank(st.indent);
      FollowedAgain(c, NewLine(st.indent, false), second);
    } else if c == ':' {
      FollowedAgain(c, " ", second);
      assert Turn(st, c).0 == [c] + " ";
    } else {
      PlainTurn(st, c);
      RewriteSingle(c, second);
    }
  }

  lemma {:induction false} HarmlessTwice(t: string, st: State, second: State)
    requires st.indent == second.indent && Harmless(t, st, second)
    ensures Rewrite(Rewrite(t, st), second) == Rewrite(t, st)
  {
    hide Turn, Torn, Reread;
    if t != "" {
      var text, rest := Turn(st, t[0]).0, Rewrite(t[1..], Turn(st, t[0]).1);
      RereadWhole(t[0], st, second);
      TurnsAlike(t[0], st, second);
      HarmlessTwice(t[1..], Turn(st, t[0]).1, Reread(t[0], st, second));
      RewriteConcat(text, rest, second);
    }
  }

  /** What is written from inside a string starts with a character of it. */
  lemma {:induction false} QuotedFirst(t: string, st: State)
    requires st.quoted && StringsInLine(t, st)
    ensures Rewrite(t, st) == "" || Rewrite(t, st)[0] != '\n'
  {
    if t != "" && t[0] == ':' {
      QuotedFirst(t[1..], Turn(st, t[0]).1);
      assert Rewrite(t, st) == Rewrite(t[1..], Turn(st, t[0]).1);
    }
  }

  lemma RewriteStep(c: char, rest: string, st: State)
    ensures Rewrite([c] + rest, st) == Turn(st, c).0 + Rewrite(rest, Turn(st, c).1)
  {
    hide Turn;
    assert ([c] + rest)[0] == c && ([c] + rest)[1..] == rest;
  }

  /** A torn character shows at once. */
  lemma TornShows(t: string, st: State, second: State)
    requires t != "" && Torn(t[0], st, second) && StringsInLine(t, st)
    ensures Rewrite(Rewrite(t, st), second) != Rewrite(t, st)
  {
    hide Rewrite, After, Indentation;
    var c, next := t[0], Turn(st, t[0]).1;
    var rest := Rewrite(t[1..], next);
    assert Rewrite(t, st) == Turn(st, c).0 + rest by { RewriteStep(c, t[1..], st); assert [c] + t[1..] == t; }
    if st.quoted {
      var text, again := Turn(second, c).0, Rewrite(rest, Turn(second, c).1);
      assert Turn(st, c).0 == [c];
      RewriteStep(c, rest, second);
      QuotedFirst(t[1..], next);
      OutsideFirst(rest, Turn(second, c).1);
      if IsBlank(c) {
        assert text + again == again;
      } else if c == '}' || c == ']' {
        assert (text + again)[0] == '\n';
      } else {
        assert (text + again)[1] == '\n';
        assert rest != "" ==> ([c] + rest)[1] == rest[0];
      }
    } else {
      assert Turn(st, c).0 + rest == [':'] + ([' '] + rest);
      RewriteStep(':', [' '] + rest, second);
      RewriteStep(' ', rest, Turn(second, ':').1);
    }
  }

  lemma SamePrefix(a: string, b: string, c: string)
    ensures a + b == a + c <==> b == c
  {
    assert (a + b)[|a|..] == b && (a + c)[|a|..] == c;
  }

  /** Printing twice is printing once if and only if no character is torn. */
  lemma {:induction false} TwiceIff(t: string, st: State, second: State)
    requires st.indent == second.indent && StringsInLine(t, st)
    ensures Rewrite(Rewrite(t, st), second) == Rewrite(t, st) <==> Harmless(t, st, second)
  {
    hide Turn, Torn, Reread;
    if t == "" {
    } else if Torn(t[0], st, second) {
      TornShows(t, st, second);
    } else {
      var text, rest := Turn(st, t[0]).0, Rewrite(t[1..], Turn(st, t[0]).1);
      RereadWhole(t[0], st, second);
      TurnsAlike(t[0], st, second);
      TwiceIff(t[1..], Turn(st, t[0]).1, Reread(t[0], st, second));
      RewriteConcat(text, rest, second);
      SamePrefix(text, Rewrite(rest, Reread(t[0], st, second)), rest);
    }
  }

  /** Exactly when printing twice is printing once. */
  lemma PrettyTwice(t: string)
    requires StringsInLine(t, START)
    ensures Pretty(Pretty(t)) == Pretty(t) <==> Harmless(t, START, START)
  {
    hide Rewrite, Harmless, StringsInLine;
    TwiceIff(t, START, START);
  }

  lemma WrittenAgain(c: char, rest: string, st: State, next: State)
    requires Turn(st, c) == ([c], next) && Rewrite(rest, next) == rest
    ensures Rewrite([c] + rest, st) == [c] + rest
  {
    hide Turn;
    RewriteStep(c, rest, st);
  }

  lemma HarmlessStep(c: char, rest: string, st: State, second: State)
    ensures Harmless([c] + rest, st, second) <==>
              !Torn(c, st, second) && Harmless(rest, Turn(st, c).1, Reread(c, st, second))
  {
    hide Turn, Torn, Reread;
    assert ([c] + rest)[0] == c && ([c] + rest)[1..] == rest;
  }

  /** A comma and the line break behind it: kept inside a string, and written by itself outside. */
  lemma BreakBehindComma(quoted: bool)
    ensures Rewrite([','] + ['\n'], State(0, quoted, false, false)) == [','] + ['\n']
  {
    hide Rewrite;
    var st := State(0, quoted, false, false);
    assert NewLine(0, false) == ['\n'];
    RewriteStep(',', ['\n'], st);
    RewriteSingle('\n', Turn(st, ',').1);
  }

  /** With a line break in a string a text can be torn without a trace: the second printing breaks the
      line where it drops that break. */
  lemma TornUnnoticed()
    ensures var t := "\"\\:\"\",\n";
            !Harmless(t, START, START) && Pretty(Pretty(t)) == Pretty(t)
  {
    hide Rewrite, Harmless;
    var outside, inside := State(0, false, false, false), State(0, true, false, false);
    var slash := State(0, true, true, false);
    var tail := [','] + ['\n'];
    var one := ['"'] + tail;
    var two := ['"'] + one;
    var colon := [':'] + two;
    BreakBehindComma(false);
    BreakBehindComma(true);
    WrittenAgain('"', tail, outside, inside);
    WrittenAgain('"', tail, inside, outside);
    WrittenAgain('"', one, inside, outside);
    WrittenAgain('"', one, slash, inside);
    RewriteStep(':', two, slash);
    assert "" + two == two;
    RewriteStep('\\', colon, inside);
    RewriteStep('"', ['\\'] + colon, START);
    WrittenAgain('\\', two, inside, slash);
    WrittenAgain('"', ['\\'] + two, START, inside);
    HarmlessStep('"', ['\\'] + colon, START, START);
    HarmlessStep('\\', colon, inside, inside);
    HarmlessStep(':', two, slash, slash);
    HarmlessStep('"', one, inside, slash);
    HarmlessStep('"', tail, outside, inside);
    HarmlessStep(',', ['\n'], inside, outside);
    assert "\"\\:\"\",\n" == ['"'] + (['\\'] + colon);
  }

  /** In a string no colons stand between a backslash and a quotation mark: `slash` says whether the
      last character, colons aside, is a backslash. */
  predicate ColonsApart(t: string, st: State, slash: bool) {
    || t == ""
    || (&& !(st.quoted && t[0] == '"' && slash != st.escaped)
        && ColonsApart(t[1..], Turn(st, t[0]).1, if st.quoted && t[0] == ':' then slash else Turn(st, t[0]).1.escaped))
  }

  /** The two printings stand inside the same strings. */
  predicate InStep(st: State, second: State, slash: bool) {
    st.quoted == second.quoted && (st.quoted ==> !st.first && !second.first && second.escaped == slash)
  }

  lemma InStepNext(c: char, st: State, second: State, slash: bool)
    requires InStep(st, second, slash) && !(st.quoted && c == '"' && slash != st.escaped)
    ensures !Torn(c, st, second)
    ensures InStep(Turn(st, c).1, Reread(c, st, second),
                   if st.quoted && c == ':' then slash else Turn(st, c).1.escaped)
  {
  }

  lemma {:induction false} ColonsApartHarmless(t: string, st: State, second: State, slash: bool)
    requires InStep(st, second, slash) && ColonsApart(t, st, slash)
    ensures Harmless(t, st, second)
  {
    hide Turn, Torn, Reread, InStep;
    if t != "" {
      var c := t[0];
      InStepNext(c, st, second, slash);
      ColonsApartHarmless(t[1..], Turn(st, c).1, Reread(c, st, second),
                          if st.quoted && c == ':' then slash else Turn(st, c).1.escaped);
    }
  }

  /** Without such colons it is, whatever else is in the text. */
  lemma PrettyIdempotent(t: string)
    requires ColonsApart(t, START, false)
    ensures Pretty(Pretty(t)) == Pretty(t)
  {
    hide Rewrite, Harmless, ColonsApart;
    ColonsApartHarmless(t, START, START, false);
    HarmlessTwice(t, START, START);
  }
}
