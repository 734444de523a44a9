/** In STANDARD mode the parser accepts nothing but texts of the grammar: from any run that succeeds the
    tree it read can be rebuilt. */
module JsonSound {
  import opened ByteStrings
  import opened JsonComplete
  import opened JsonGrammar
  import opened JsonLexical
  import opened JsonNumbers
  import opened JsonParserSpec
  import opened JsonStrings
  import opened JsonValues

  /** The whitespace in front of a token. */
  lemma TokenSound(s: string, i: nat) returns (w: string)
    requires i <= |s| && NextToken(s, i, false).Ok?
    ensures var o := NextToken(s, i, false);
            Spaces(w) && At(s, i, w) && o.next == i + |w| + 1 && At(s, i + |w|, [o.value]) && At(s, i, w + [o.value])
  {
    var j := NextToken(s, i, false).next - 1;
    w := s[i..j];
    AtSingle(s, j, s[j]);
    AtConcat(s, i, w, [s[j]]);
  }

  function LeadElems(w: string, es: Elems): Elems {
    match es
    case LastElem(e) => LastElem(e.(lead := w + e.lead))
    case MoreElems(e, tail) => MoreElems(e.(lead := w + e.lead), tail)
  }

  lemma LeadElemsText(w: string, es: Elems)
    requires Spaces(w) && ValidElems(es)
    ensures ValidElems(LeadElems(w, es)) && ElemsText(LeadElems(w, es)) == w + ElemsText(es)
    ensures ElemsDepth(LeadElems(w, es)) == ElemsDepth(es)
  {
    hide ValidDoc, Text, DocDepth;
    LeadAssociates(w, es.e.lead, Text(es.e.d), es.e.trail);
    LeadAssociates(w, es.e.lead + Text(es.e.d) + es.e.trail, ElemsRest(es), "");
  }

  function LeadMembers(w: string, ms: Members): Members {
    match ms
    case LastMember(m) => LastMember(m.(lead := w + m.lead))
    case MoreMembers(m, tail) => MoreMembers(m.(lead := w + m.lead), tail)
  }

  /** The result of reading a value: a tree of the grammar that spells out what was read. */
  ghost predicate Spelled(s: string, i: nat, w: string, d: Doc, next: nat, room: int) {
    && Spaces(w) && ValidDoc(d) && At(s, i, w) && At(s, i + |w|, Text(d))
    && next == i + |w| + |Text(d)| && next <= |s| && Ends(s, next, d) && DocDepth(d) <= room
  }

  lemma {:induction false} ValueSound(s: string, i: nat, depth: nat) returns (w: string, d: Doc)
    requires i <= |s| && ParseValue(s, i, depth, false).Ok?
    ensures Spelled(s, i, w, d, ParseValue(s, i, depth, false).next, MAX_DEPTH - depth)
    decreases |s| - i, 1
  {
    hide NextToken, ParseItems, ParseMembers, ParseNumber, ParseString, Text, ValidDoc, DocDepth;
    w := TokenSound(s, i);
    var c := NextToken(s, i, false).value;
    if c == '[' {
      d := ArraySound(s, i, i + |w|, depth);
    } else if c == '{' {
      d := ObjectSound(s, i, i + |w|, depth);
    } else {
      d := LeafSound(s, i, i + |w|, depth);
    }
  }

  lemma LeafSound(s: string, i: nat, j: nat, depth: nat) returns (d: Doc)
    requires i <= |s| && j < |s| && ParseValue(s, i, depth, false).Ok?
    requires NextToken(s, i, false) == Ok(s[j], j + 1) && s[j] != '[' && s[j] != '{'
    ensures ValidDoc(d) && DocDepth(d) == 0 && depth <= MAX_DEPTH
    ensures At(s, j, Text(d)) && ParseValue(s, i, depth, false).next == j + |Text(d)|
    ensures Ends(s, j + |Text(d)|, d)
  {
    hide NextToken, ParseNumber, ParseString, NumberText;
    if s[j] == '-' || IsDigit(s[j]) {
      var n := NumberSound(s, j);
      d := NumberDoc(n);
    } else if s[j] == '"' {
      var its := StringSound(s, j + 1, "", -1);
      d := StringDoc(its);
      AtSingle(s, j, '"');
      StringTextAt(s, j, its);
    } else {
      d := if s[j] == 't' then BoolDoc(true) else if s[j] == 'f' then BoolDoc(false) else NullDoc;
    }
  }

  lemma {:induction false} ArraySound(s: string, i: nat, j: nat, depth: nat) returns (d: Doc)
    requires i <= |s| && j < |s| && ParseValue(s, i, depth, false).Ok?
    requires NextToken(s, i, false) == Ok('[', j + 1) && i <= j && s[j] == '['
    ensures ValidDoc(d) && !d.NumberDoc? && depth + DocDepth(d) <= MAX_DEPTH
    ensures At(s, j, Text(d)) && ParseValue(s, i, depth, false).next == j + |Text(d)|
    decreases |s| - i, 0
  {
    hide NextToken, ParseItems, ElemsText, ElemsDepth, ValidElems, At;
    var w := TokenSound(s, j + 1);
    var k := j + 1 + |w|;
    AtSingle(s, j, '[');
    if NextToken(s, j + 1, false).value == ']' {
      d := EmptyArray(w);
      assert Text(d) == "[" + w + "]";
      AtConcat3(s, j, "[", w, "]");
    } else {
      var es := ItemsSound(s, k, depth, []);
      d := Array(LeadElems(w, es));
      LeadElemsText(w, es);
      AtConcat(s, j + 1, w, ElemsText(es));
      assert Text(d) == "[" + (w + ElemsText(es)) + "]";
      AtConcat3(s, j, "[", w + ElemsText(es), "]");
    }
  }

  lemma LastItemSpelled(s: string, i: nat, e: Elem)
    requires At(s, i, e.lead) && At(s, i + |e.lead|, Text(e.d)) && At(s, i + |e.lead| + |Text(e.d)|, e.trail)
    ensures At(s, i, ElemsText(LastElem(e)))
    ensures |ElemsText(LastElem(e))| == |e.lead| + |Text(e.d)| + |e.trail|
  {
    hide At, Text;
    ElemsParts(s, i, LastElem(e));
    InBoundsAt(s, i + |e.lead| + |Text(e.d)|, e.trail);
    Empty(s, i + |e.lead| + |Text(e.d)| + |e.trail|);
  }

  lemma MoreItemsSpelled(s: string, i: nat, e: Elem, lead: string, tail: Elems)
    requires Spaces(lead) && ValidElems(tail)
    requires At(s, i, e.lead) && At(s, i + |e.lead|, Text(e.d)) && At(s, i + |e.lead| + |Text(e.d)|, e.trail)
    requires var k := i + |e.lead| + |Text(e.d)| + |e.trail| + 1;
             At(s, k - 1, ",") && At(s, k, lead) && At(s, k + |lead|, ElemsText(tail))
    ensures At(s, i, ElemsText(MoreElems(e, LeadElems(lead, tail))))
    ensures |ElemsText(MoreElems(e, LeadElems(lead, tail)))|
         == |e.lead| + |Text(e.d)| + |e.trail| + 1 + |lead| + |ElemsText(tail)|
  {
    hide At, Text, ElemsText, ValidElems, Spaces;
    var k := i + |e.lead| + |Text(e.d)| + |e.trail| + 1;
    LeadElemsText(lead, tail);
    AtConcat(s, k, lead, ElemsText(tail));
    AtConcat(s, k - 1, ",", lead + ElemsText(tail));
    ElemsParts(s, i, MoreElems(e, LeadElems(lead, tail)));
  }

  lemma {:induction false} ItemsSound(s: string, i: nat, depth: nat, data: seq<Json>) returns (es: Elems)
    requires i <= |s| && ParseItems(s, i, depth, false, data).Ok?
    ensures ValidElems(es) && depth + 1 + ElemsDepth(es) <= MAX_DEPTH
    ensures At(s, i, ElemsText(es)) && At(s, i + |ElemsText(es)|, "]")
    ensures ParseItems(s, i, depth, false, data).next == i + |ElemsText(es)| + 1
    decreases |s| - i, 2
  {
    hide NextToken, ParseValue, ValidDoc, Text, DocDepth, Spaces, Ends, At, ElemsText;
    var w, d := ValueSound(s, i, depth + 1);
    var e, k := ItemSound(s, i, w, d, depth);
    if NextToken(s, k - 1 - |e.trail|, false).value == ']' {
      es := LastElem(e);
      LastItemSpelled(s, i, e);
    } else {
      var lead := TokenSound(s, k);
      var tail := ItemsSound(s, k + |lead|, depth, data + [ParseValue(s, i, depth + 1, false).value]);
      LeadElemsText(lead, tail);
      es := MoreElems(e, LeadElems(lead, tail));
      MoreItemsSpelled(s, i, e, lead, tail);
    }
  }

  /** One item together with the whitespace before the comma or bracket that ends it. */
  lemma ItemSound(s: string, i: nat, w: string, d: Doc, depth: nat) returns (e: Elem, k: nat)
    requires i <= |s| && ParseValue(s, i, depth + 1, false).Ok?
    requires Spelled(s, i, w, d, ParseValue(s, i, depth + 1, false).next, MAX_DEPTH - depth - 1)
    requires NextToken(s, ParseValue(s, i, depth + 1, false).next, false).Ok?
    ensures e.lead == w && e.d == d && Spaces(w) && Spaces(e.trail) && ValidDoc(d)
    ensures At(s, i, w) && At(s, i + |w|, Text(d)) && At(s, i + |w| + |Text(d)|, e.trail)
    ensures ParseValue(s, i, depth + 1, false).next == i + |w| + |Text(d)|
    ensures k == i + |w| + |Text(d)| + |e.trail| + 1 <= |s| && At(s, k - 1, [s[k - 1]])
    ensures NextToken(s, i + |w| + |Text(d)|, false) == Ok(s[k - 1], k)
    ensures DocDepth(d) <= MAX_DEPTH - depth - 1
  {
    hide NextToken, ParseValue, ValidDoc, Text, DocDepth;
    var trail := TokenSound(s, i + |w| + |Text(d)|);
    e := Elem(w, d, trail);
    k := i + |w| + |Text(d)| + |trail| + 1;
  }

  lemma LeadMembersText(w: string, ms: Members)
    requires Spaces(w) && ValidMembers(ms)
    ensures ValidMembers(LeadMembers(w, ms)) && MembersText(LeadMembers(w, ms)) == w + MembersText(ms)
    ensures MembersDepth(LeadMembers(w, ms)) == MembersDepth(ms)
  {
    hide ValidDoc, Text, DocDepth, KeyText, ValidItems;
    var value := ms.m.value;
    LeadKeyText(w, ms.m);
    LeadAssociates(w, KeyText(ms.m), value.lead + Text(value.d) + value.trail, MembersRest(ms));
  }

  lemma LeadKeyText(w: string, m: Member)
    ensures KeyText(m.(lead := w + m.lead)) == w + KeyText(m)
  {
    hide StringText;
    LeadAssociates(w, m.lead, StringText(m.key), m.gap + ":");
  }

  lemma {:induction false} ObjectSound(s: string, i: nat, j: nat, depth: nat) returns (d: Doc)
    requires i <= |s| && j < |s| && ParseValue(s, i, depth, false).Ok?
    requires NextToken(s, i, false) == Ok('{', j + 1) && i <= j && s[j] == '{'
    ensures ValidDoc(d) && !d.NumberDoc? && depth + DocDepth(d) <= MAX_DEPTH
    ensures At(s, j, Text(d)) && ParseValue(s, i, depth, false).next == j + |Text(d)|
    decreases |s| - i, 0
  {
    hide NextToken, ParseMembers, MembersText, MembersDepth, ValidMembers, At;
    var w := TokenSound(s, j + 1);
    var k := j + 1 + |w|;
    AtSingle(s, j, '{');
    if NextToken(s, j + 1, false).value == '}' {
      d := EmptyObject(w);
      assert Text(d) == "{" + w + "}";
      AtConcat3(s, j, "{", w, "}");
    } else {
      QuoteFirst(s, k + 1, NextToken(s, j + 1, false).value, depth, []);
      var ms := MembersSound(s, k + 1, depth, []);
      d := Object(LeadMembers(w, ms));
      LeadMembersText(w, ms);
      AtConcat(s, j + 1, w, MembersText(ms));
      assert Text(d) == "{" + (w + MembersText(ms)) + "}";
      AtConcat3(s, j, "{", w + MembersText(ms), "}");
    }
  }

  lemma QuoteFirst(s: string, i: nat, c: char, depth: nat, data: seq<Entry>)
    requires i <= |s| && ParseMembers(s, i, c, depth, false, data).Ok?
    ensures c == '"'
  {
  }

  /** A key, its value and the whitespace around it stand at `i`. */
  ghost predicate MemberAt(s: string, i: nat, m: Member) {
    var e, j := m.value, i + |KeyText(m)|;
    && At(s, i, KeyText(m)) && At(s, j, e.lead) && At(s, j + |e.lead|, Text(e.d))
    && At(s, j + |e.lead| + |Text(e.d)|, e.trail)
  }

  function MemberLength(m: Member): nat {
    |KeyText(m)| + |m.value.lead| + |Text(m.value.d)| + |m.value.trail|
  }

  lemma LastMemberSpelled(s: string, i: nat, m: Member)
    requires MemberAt(s, i, m)
    ensures At(s, i, MembersText(LastMember(m))) && |MembersText(LastMember(m))| == MemberLength(m)
  {
    hide At, Text, KeyText;
    MembersParts(s, i, LastMember(m));
    InBoundsAt(s, i + |KeyText(m)| + |m.value.lead| + |Text(m.value.d)|, m.value.trail);
    Empty(s, i + |KeyText(m)| + |m.value.lead| + |Text(m.value.d)| + |m.value.trail|);
  }

  lemma MoreMembersSpelled(s: string, i: nat, m: Member, lead: string, tail: Members)
    requires Spaces(lead) && ValidMembers(tail) && MemberAt(s, i, m)
    requires var k := i + MemberLength(m) + 1;
             At(s, k - 1, ",") && At(s, k, lead) && At(s, k + |lead|, MembersText(tail))
    ensures At(s, i, MembersText(MoreMembers(m, LeadMembers(lead, tail))))
    ensures |MembersText(MoreMembers(m, LeadMembers(lead, tail)))| == MemberLength(m) + 1 + |lead| + |MembersText(tail)|
  {
    hide At, Text, KeyText, MembersText, ValidMembers, Spaces;
    var k := i + MemberLength(m) + 1;
    LeadMembersText(lead, tail);
    AtConcat(s, k, lead, MembersText(tail));
    AtConcat(s, k - 1, ",", lead + MembersText(tail));
    MembersParts(s, i, MoreMembers(m, LeadMembers(lead, tail)));
  }

  /** What a successful turn of the object loop has read. */
  lemma MembersRun(s: string, i: nat, depth: nat, data: seq<Entry>)
    requires i <= |s| && ParseMembers(s, i, '"', depth, false, data).Ok?
    ensures var key := ParseString(s, i, "", -1);
            key.Ok? && var colon := NextToken(s, key.next, false);
            colon.Ok? && colon.value == ':' && var value := ParseValue(s, colon.next, depth + 1, false);
            value.Ok? && var after := NextToken(s, value.next, false);
            after.Ok? && var now := Insert(data, key.value, value.value);
            if after.value == '}' then ParseMembers(s, i, '"', depth, false, data) == Ok(Obj(now), after.next)
            else
              && after.value == ',' && NextToken(s, after.next, false).Ok?
              && var next := NextToken(s, after.next, false);
                 ParseMembers(s, i, '"', depth, false, data) == ParseMembers(s, next.next, next.value, depth, false, now)
  {
    hide NextToken, ParseValue, ParseString, Insert;
  }

  /** The cursor `i` stands behind the opening quote of the first key. */
  lemma {:induction false} MembersSound(s: string, i: nat, depth: nat, data: seq<Entry>) returns (ms: Members)
    requires 0 < i <= |s| && s[i - 1] == '"' && ParseMembers(s, i, '"', depth, false, data).Ok?
    ensures ValidMembers(ms) && depth + 1 + MembersDepth(ms) <= MAX_DEPTH
    ensures At(s, i - 1, MembersText(ms)) && At(s, i - 1 + |MembersText(ms)|, "}")
    ensures ParseMembers(s, i, '"', depth, false, data).next == i + |MembersText(ms)|
    decreases |s| - i, 0
  {
    hide NextToken, ParseValue, ParseString, ParseMembers, ValidDoc, Text, DocDepth, Spaces, Ends, At, KeyText, ValidItems,
      Insert, MembersText, ItemsText;
    MembersRun(s, i, depth, data);
    var key, gap, j := KeySound(s, i);
    var w, d := ValueSound(s, j, depth + 1);
    var e, k := ItemSound(s, j, w, d, depth);
    var m := Member("", key, gap, e);
    Empty(s, i - 1);
    assert MemberAt(s, i - 1, m) && i + MemberLength(m) == k;
    if NextToken(s, k - 1 - |e.trail|, false).value == '}' {
      ms := LastMember(m);
      LastMemberSpelled(s, i - 1, m);
    } else {
      var lead := TokenSound(s, k);
      var n := k + |lead| + 1;
      var now := Insert(data, ParseString(s, i, "", -1).value, ParseValue(s, j, depth + 1, false).value);
      QuoteFirst(s, n, NextToken(s, k, false).value, depth, now);
      AtSingle(s, n - 1, '"');
      var tail := MembersSound(s, n, depth, now);
      LeadMembersText(lead, tail);
      ms := MoreMembers(m, LeadMembers(lead, tail));
      MoreMembersSpelled(s, i - 1, m, lead, tail);
    }
  }

  /** A key and its colon. */
  lemma KeySound(s: string, i: nat) returns (key: Items, gap: string, j: nat)
    requires 0 < i <= |s| && s[i - 1] == '"' && ParseString(s, i, "", -1).Ok?
    requires NextToken(s, ParseString(s, i, "", -1).next, false).Ok?
    requires NextToken(s, ParseString(s, i, "", -1).next, false).value == ':'
    ensures ValidItems(key) && Spaces(gap)
    ensures forall e :: At(s, i - 1, KeyText(Member("", key, gap, e)))
    ensures forall e :: j == i - 1 + |KeyText(Member("", key, gap, e))|
    ensures NextToken(s, ParseString(s, i, "", -1).next, false) == Ok(':', j)
  {
    hide NextToken, ParseString, ItemsText;
    key := StringSound(s, i, "", -1);
    gap := TokenSound(s, ParseString(s, i, "", -1).next);
    j := NextToken(s, ParseString(s, i, "", -1).next, false).next;
    AtSingle(s, i - 1, '"');
    assert "" + "\"" == "\"";
    forall e
      ensures At(s, i - 1, KeyText(Member("", key, gap, e)))
      ensures j == i - 1 + |KeyText(Member("", key, gap, e))|
    {
      KeyParts(s, i - 1, Member("", key, gap, e));
    }
  }
}
