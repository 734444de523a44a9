/** C++ byte strings. A `std::string` is a Dafny `string` whose characters are its bytes;
    reading at index `size()` yields the terminating NUL. */
module ByteStrings {

  /** `str[i]` of the source, defined up to and including index `size()`. */
  function Peek(s: string, i: nat): char
    requires i <= |s|
  {
    if i < |s| then s[i] else '\0'
  }

  /** The text `t` occurs in `s` at index `i`. */
  ghost predicate At(s: string, i: nat, t: string) {
    i + |t| <= |s| && s[i..i + |t|] == t
  }

  lemma AtConcat(s: string, i: nat, a: string, b: string)
    ensures At(s, i, a + b) <==> At(s, i, a) && At(s, i + |a|, b)
  {
    if At(s, i, a + b) {
      assert s[i..i + |a + b|][..|a|] == a;
      assert s[i..i + |a + b|][|a|..] == b;
      assert s[i..i + |a|] == s[i..i + |a + b|][..|a|];
      assert s[i + |a|..i + |a| + |b|] == s[i..i + |a + b|][|a|..];
    }
    if At(s, i, a) && At(s, i + |a|, b) {
      assert s[i..i + |a + b|] == s[i..i + |a|] + s[i + |a|..i + |a| + |b|];
    }
  }

  lemma LeadAssociates(w: string, a: string, b: string, c: string)
    ensures (w + a) + b + c == w + (a + b + c)
  {
  }

  lemma AtConcat3(s: string, i: nat, a: string, b: string, c: string)
    ensures At(s, i, a + b + c) <==> At(s, i, a) && At(s, i + |a|, b) && At(s, i + |a| + |b|, c)
  {
    AtConcat(s, i, a + b, c);
    AtConcat(s, i, a, b);
  }

  lemma AtSingle(s: string, i: nat, c: char)
    ensures At(s, i, [c]) <==> i < |s| && s[i] == c
  {
    if i < |s| {
      assert s[i..i + 1] == [s[i]];
    }
  }

  /** An occurrence only depends on the characters it covers. */
  lemma AtPrefix(s: string, n: nat, i: nat, t: string)
    requires n <= |s|
    ensures At(s[..n], i, t) <==> At(s, i, t) && i + |t| <= n
  {
    if i + |t| <= n {
      assert s[..n][i..i + |t|] == s[i..i + |t|];
    }
  }

  /** The order `std::string` comparison puts on keys: lexicographic. */
  predicate Before(a: string, b: string) {
    if b == "" then false
    else if a == "" then true
    else a[0] < b[0] || (a[0] == b[0] && Before(a[1..], b[1..]))
  }

  lemma {:induction false} BeforeTransitive(a: string, b: string, c: string)
    requires Before(a, b) && Before(b, c)
    ensures Before(a, c)
  {
    if a != "" && a[0] == b[0] && b[0] == c[0] {
      BeforeTransitive(a[1..], b[1..], c[1..]);
    }
  }

  lemma {:induction false} BeforeIrreflexive(a: string)
    ensures !Before(a, a)
  {
    if a != "" {
      BeforeIrreflexive(a[1..]);
    }
  }

  lemma {:induction false} BeforeTotal(a: string, b: string)
    ensures a == b || Before(a, b) || Before(b, a)
  {
    if a != "" && b != "" && a[0] == b[0] {
      BeforeTotal(a[1..], b[1..]);
      if a[1..] == b[1..] {
        assert a == [a[0]] + a[1..] && b == [b[0]] + b[1..];
      }
    }
  }

  /** `a` and `b` part at index `i`: there `a` ends, or its character is the smaller one. */
  predicate PartsAt(a: string, b: string, i: nat) {
    && i <= |a| && i < |b| && (forall k :: 0 <= k < i ==> a[k] == b[k])
    && (i == |a| || a[i] < b[i])
  }

  /** What the order means, from the first difference. */
  lemma {:induction false} BeforeIff(a: string, b: string)
    ensures Before(a, b) <==> exists i: nat :: PartsAt(a, b, i)
  {
    if a == "" || b == "" || a[0] != b[0] {
      if Before(a, b) {
        assert PartsAt(a, b, 0);
      }
    } else {
      BeforeIff(a[1..], b[1..]);
      if Before(a, b) {
        var i: nat :| PartsAt(a[1..], b[1..], i);
        assert forall k :: 0 < k <= i ==> a[k] == a[1..][k - 1] && b[k] == b[1..][k - 1];
        assert PartsAt(a, b, i + 1);
      }
      if exists i: nat :: PartsAt(a, b, i) {
        var i: nat :| PartsAt(a, b, i);
        assert PartsAt(a[1..], b[1..], i - 1);
      }
    }
  }
}
