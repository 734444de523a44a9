/** `json_pretty_print`: a character-by-character rewriting of a JSON text. */
module PrettyPrint {

  /** `unsigned` wraps around. */
  const UNSIGNED := 0x1_0000_0000

  /** The local variables of the loop. `escaped` says that the character before the next one is a
      backslash at an index above zero, `first` that no character has been read. */
  datatype State = State(indent: nat, quoted: bool, escaped: bool, first: bool)

  const START := State(0, false, false, true)

  function Indentation(level: nat): string {
    if level == 0 then "" else Indentation(level - 1) + "  "
  }

  /** `add_newline`. */
  function NewLine(indent: nat, quoted: bool): string {
    if quoted then "" else "\n" + Indentation(indent)
  }

  function Indent(indent: nat): nat {
    (indent + 1) % UNSIGNED
  }

  function Dedent(indent: nat): nat {
    (indent + UNSIGNED - 1) % UNSIGNED
  }

  /** The text written for one character, and the variables after it. */
  function Turn(st: State, c: char): (string, State) {
    var next := st.(escaped := c == '\\' && !st.first, first := false);
    if c == '{' || c == '[' then ([c] + NewLine(Indent(st.indent), st.quoted), next.(indent := Indent(st.indent)))
    else if c == '}' || c == ']' then (NewLine(Dedent(st.indent), st.quoted) + [c], next.(indent := Dedent(st.indent)))
    else if c == ',' then ([c] + NewLine(st.indent, st.quoted), next)
    else if c == '"' then ([c], if st.quoted && st.escaped then next else next.(quoted := !st.quoted))
    else if c == ' ' || c == '\n' || c == '\r' || c == '\t' then (if st.quoted then [c] else "", next)
    else if c == ':' then (if st.quoted then "" else ": ", next)
    else ([c], next)
  }

  function Rewrite(t: string, st: State): string {
    if t == "" then "" else Turn(st, t[0]).0 + Rewrite(t[1..], Turn(st, t[0]).1)
  }

  function After(t: string, st: State): State {
    if t == "" then st else After(t[1..], Turn(st, t[0]).1)
  }

  lemma {:induction false} RewriteConcat(a: string, b: string, st: State)
    ensures Rewrite(a + b, st) == Rewrite(a, st) + Rewrite(b, After(a, st))
    ensures After(a + b, st) == After(b, After(a, st))
  {
    hide Turn;
    if a == "" {
      assert a + b == b;
    } else {
      assert (a + b)[0] == a[0] && (a + b)[1..] == a[1..] + b;
      RewriteConcat(a[1..], b, Turn(st, a[0]).1);
    }
  }

  lemma RewriteSingle(c: char, st: State)
    ensures Rewrite([c], st) == Turn(st, c).0 && After([c], st) == Turn(st, c).1
  {
    hide Turn;
    assert [c][1..] == "";
  }

  function Pretty(t: string): string {
    Rewrite(t, START)
  }

  /** What the loop's variables hold after the first `i` characters. */
  ghost predicate Reached(t: string, i: nat, st: State, indent: nat, quoted: bool)
    requires i <= |t|
  {
    && st == After(t[..i], START) && st.indent == indent && st.quoted == quoted
    && st.escaped == (2 <= i && t[i - 1] == '\\') && st.first == (i == 0)
  }

  lemma ReachedNext(t: string, i: nat, st: State, result: string)
    requires i < |t| && Reached(t, i, st, st.indent, st.quoted) && result == Rewrite(t[..i], START)
    ensures var r := Turn(st, t[i]);
            Reached(t, i + 1, r.1, r.1.indent, r.1.quoted) && result + r.0 == Rewrite(t[..i + 1], START)
  {
    assert t[..i + 1] == t[..i] + [t[i]];
    RewriteConcat(t[..i], [t[i]], START);
    RewriteSingle(t[i], st);
  }

  method JsonPrettyPrint(jsonIn: string) returns (result: string)
    ensures result == Pretty(jsonIn)
  {
    hide Rewrite, After, NewLine;
    result := "";
    var indentLevel: nat := 0;
    var quoted := false;
    ghost var st := START;
    StartReached(jsonIn);
    for i := 0 to |jsonIn|
      invariant Reached(jsonIn, i, st, indentLevel, quoted)
      invariant result == Rewrite(jsonIn[..i], START)
    {
      ReachedNext(jsonIn, i, st, result);
      var c := jsonIn[i];
      ghost var before, r := result, Turn(st, c);
      if c == '{' || c == '[' {
        result := result + [c];
        indentLevel := Indent(indentLevel);
        result := AddNewline(result, indentLevel, quoted);
      } else if c == '}' || c == ']' {
        indentLevel := Dedent(indentLevel);
        result := AddNewline(result, indentLevel, quoted);
        result := result + [c];
      } else if c == ',' {
        result := result + [c];
        result := AddNewline(result, indentLevel, quoted);
      } else if c == '"' {
        result := result + [c];
        if !(quoted && i - 1 > 0 && jsonIn[i - 1] == '\\') {
          quoted := !quoted;
        }
      } else if c == ' ' || c == '\n' || c == '\r' || c == '\t' {
        if quoted {
          result := result + [c];
        }
      } else if c == ':' {
        if !quoted {
          result := result + [c];
          result := result + " ";
        }
      } else {
        result := result + [c];
      }
      st := r.1;
      assert result == before + r.0;
    }
    assert jsonIn[..|jsonIn|] == jsonIn;
  }

  lemma StartReached(t: string)
    ensures Reached(t, 0, START, 0, false) && Rewrite(t[..0], START) == ""
  {
  }

  method AddNewline(text: string, indentLevel: nat, quoted: bool) returns (result: string)
    ensures result == text + NewLine(indentLevel, quoted)
  {
    result := text;
    if !quoted {
      result := result + "\n";
      ghost var line := result;
      for idt := 0 to indentLevel
        invariant result == line + Indentation(idt)
      {
        result := result + "  ";
      }
    }
  }
}
