/** Errors inside arrays and objects: the first error of a text is the one that is reported, however deep
    it lies. */
module JsonPlaces {
  import opened ByteStrings
  import opened JsonComplete
  import opened JsonErrors
  import opened JsonGrammar
  import opened JsonLexical
  import opened JsonNumbers
  import opened JsonParserSpec
  import opened JsonStrings
  import opened JsonValues

  // ---------- places ----------

  /** The key of a member whose value is still to come. */
  datatype Key = Key(lead: string, name: Items, gap: string)

  /** A place in a text where a value is due: inside open arrays and objects, behind complete items and members. */
  datatype Place =
    | Here
    | InArray(lead: string, items: seq<Elem>, inner: Place)
    | InObject(lead: string, members: seq<Member>, key: Key, inner: Place)

  function Around(e: Elem): string {
    e.lead + Text(e.d) + e.trail
  }

  /** Complete items, each with its comma. */
  function Row(es: seq<Elem>): string {
    if es == [] then "" else Around(es[0]) + "," + Row(es[1..])
  }

  function MemberRow(ms: seq<Member>): string {
    if ms == [] then "" else KeyText(ms[0]) + (Around(ms[0].value) + ",") + MemberRow(ms[1..])
  }

  function OpenKey(k: Key): string {
    k.lead + StringText(k.name) + (k.gap + ":")
  }

  /** The text in front of the place. */
  function Front(pl: Place): string {
    match pl
    case Here => ""
    case InArray(lead, items, inner) => lead + "[" + Row(items) + Front(inner)
    case InObject(lead, members, key, inner) => lead + "{" + MemberRow(members) + (OpenKey(key) + Front(inner))
  }

  function Levels(pl: Place): nat {
    match pl
    case Here => 0
    case InArray(_, _, inner) => 1 + Levels(inner)
    case InObject(_, _, _, inner) => 1 + Levels(inner)
  }

  /** An item that the parser gets through `depth` levels deep. */
  predicate Sound(e: Elem, depth: nat) {
    Spaces(e.lead) && ValidDoc(e.d) && Spaces(e.trail) && depth + DocDepth(e.d) <= MAX_DEPTH
  }

  predicate SoundMember(m: Member, depth: nat) {
    Spaces(m.lead) && ValidItems(m.key) && Spaces(m.gap) && Sound(m.value, depth)
  }

  predicate SoundRow(es: seq<Elem>, depth: nat) {
    forall k :: 0 <= k < |es| ==> Sound(es[k], depth)
  }

  predicate SoundMembers(ms: seq<Member>, depth: nat) {
    forall k :: 0 <= k < |ms| ==> SoundMember(ms[k], depth)
  }

  predicate SoundKey(k: Key) {
    Spaces(k.lead) && ValidItems(k.name) && Spaces(k.gap)
  }

  predicate SoundPlace(pl: Place, depth: nat) {
    match pl
    case Here => true
    case InArray(lead, items, inner) =>
      Spaces(lead) && depth < MAX_DEPTH && SoundRow(items, depth + 1) && SoundPlace(inner, depth + 1)
    case InObject(lead, members, key, inner) =>
      Spaces(lead) && depth < MAX_DEPTH && SoundMembers(members, depth + 1) && SoundKey(key)
      && SoundPlace(inner, depth + 1)
  }

  /** Directly behind an opening bracket, where the array may also end. */
  predicate Bare(pl: Place) {
    match pl
    case Here => false
    case InArray(_, items, inner) => if inner.Here? then items == [] else Bare(inner)
    case InObject(_, _, _, inner) => Bare(inner)
  }

  ghost predicate Closes(s: string, i: nat, c: char, comments: bool) {
    i <= |s| && NextToken(s, i, comments).Ok? && NextToken(s, i, comments).value == c
  }

  // ---------- a token stands where it was found ----------

  lemma {:induction false} CommentsSkipped(s: string, i: nat)
    requires i <= |s| && !IsSpace(Peek(s, i)) && SkipComments(s, i).Ok?
    ensures var j := SkipComments(s, i).next; !IsSpace(Peek(s, j)) && Peek(s, j) != '/'
    decreases |s| - i
  {
    hide LineEnd, BlockEnd;
    var c := Comment(s, i);
    if c.Ok? && c.value {
      CommentsSkipped(s, SkipSpaces(s, c.next));
    }
  }

  lemma NoComment(s: string, i: nat)
    requires i <= |s| && Peek(s, i) != '/'
    ensures Comment(s, i) == Ok(false, i)
  {
  }

  lemma TokenStands(s: string, i: nat, comments: bool)
    requires i <= |s| && NextToken(s, i, comments).Ok?
    ensures NextToken(s, NextToken(s, i, comments).next - 1, comments) == NextToken(s, i, comments)
  {
    hide Comment;
    if comments {
      CommentsSkipped(s, SkipSpaces(s, i));
      NoComment(s, NextToken(s, i, comments).next - 1);
    }
  }

  // ---------- arrays ----------

  /** The parser's position within an array only matters up to the next token. */
  lemma ItemsAgain(s: string, i: nat, depth: nat, comments: bool, data: seq<Json>)
    requires i <= |s| && NextToken(s, i, comments).Ok?
    ensures ParseItems(s, NextToken(s, i, comments).next - 1, depth, comments, data)
         == ParseItems(s, i, depth, comments, data)
  {
    hide NextToken, ParseItems, ParseMembers, ParseNumber, ParseString, Expect;
    var k := NextToken(s, i, comments).next - 1;
    TokenStands(s, i, comments);
    SameValue(s, i, k, depth + 1, comments);
    SameItems(s, i, k, depth, comments, data);
  }

  lemma SameValue(s: string, i: nat, k: nat, depth: nat, comments: bool)
    requires i <= |s| && k <= |s| && NextToken(s, i, comments) == NextToken(s, k, comments)
    ensures ParseValue(s, i, depth, comments) == ParseValue(s, k, depth, comments)
  {
    hide NextToken, ParseItems, ParseMembers, ParseNumber, ParseString, Expect;
  }

  lemma SameItems(s: string, i: nat, k: nat, depth: nat, comments: bool, data: seq<Json>)
    requires i <= |s| && k <= |s| && ParseValue(s, i, depth + 1, comments) == ParseValue(s, k, depth + 1, comments)
    ensures ParseItems(s, i, depth, comments, data) == ParseItems(s, k, depth, comments, data)
  {
    hide NextToken, ParseValue;
  }

  /** At the end of the text, or in a broken comment, the next value fails like its token. */
  lemma TokenFails(s: string, i: nat, depth: nat, comments: bool, data: seq<Json>)
    requires i <= |s| && NextToken(s, i, comments).Fail? && depth < MAX_DEPTH
    ensures ParseItems(s, i, depth, comments, data) == Fail(NextToken(s, i, comments).error)
  {
    hide NextToken;
  }

  /** Behind a comma the array goes on with its next item. */
  lemma NextItem(s: string, j: nat, depth: nat, comments: bool, data: seq<Json>, v: Json, q: nat, k: nat)
    requires j <= |s| && q <= |s| && k <= |s| && depth < MAX_DEPTH
    requires ParseValue(s, j, depth + 1, comments) == Ok(v, q) && NextToken(s, q, comments) == Ok(',', k)
    ensures ParseItems(s, j, depth, comments, data) == ParseItems(s, k, depth, comments, data + [v])
  {
    hide NextToken, ParseItems, ParseValue;
    if NextToken(s, k, comments).Ok? {
      ItemsTurn(s, j, depth, comments, data, v, q, ',', k);
      ItemsAgain(s, k, depth, comments, data + [v]);
    } else {
      TokenFails(s, k, depth, comments, data + [v]);
      CommaLast(s, j, depth, comments, data, v, q, k);
    }
  }

  lemma CommaLast(s: string, j: nat, depth: nat, comments: bool, data: seq<Json>, v: Json, q: nat, k: nat)
    requires j <= |s| && q <= |s| && k <= |s| && NextToken(s, k, comments).Fail?
    requires ParseValue(s, j, depth + 1, comments) == Ok(v, q) && NextToken(s, q, comments) == Ok(',', k)
    ensures ParseItems(s, j, depth, comments, data) == Fail(NextToken(s, k, comments).error)
  {
    hide NextToken, ParseValue;
  }

  /** A complete item and what follows it. */
  lemma ItemRead(s: string, j: nat, e: Elem, c: char, depth: nat, comments: bool)
    requires Sound(e, depth) && At(s, j, Around(e) + [c]) && !IsSpace(c) && c != '/'
    requires e.d.NumberDoc? && e.trail == "" ==> Stops(c, e.d.n.frac, e.d.n.exp)
    ensures j + |Around(e)| + 1 <= |s|
    ensures var q := j + |e.lead| + |Text(e.d)|;
            && ParseValue(s, j, depth, comments) == Ok(Meaning(e.d), q)
            && NextToken(s, q, comments) == Ok(c, j + |Around(e)| + 1)
  {
    hide ParseValue, NextToken, Text, DocDepth, ValidDoc, At, Spaces, Meaning;
    var q := j + |e.lead| + |Text(e.d)|;
    AtConcat(s, j, Around(e), [c]);
    AtConcat3(s, j, e.lead, Text(e.d), e.trail);
    AtConcat(s, q, e.trail, [c]);
    StartsAt(s, q + |e.trail|, [c]);
    TrailEnds(s, q, e.trail, c, e.d);
    ValueComplete(s, j, e.lead, e.d, depth, comments);
    TokenAt(s, q, e.trail, c, comments);
  }

  lemma {:induction false} RowRead(s: string, j: nat, es: seq<Elem>, depth: nat, comments: bool, data: seq<Json>)
    returns (read: seq<Json>)
    requires SoundRow(es, depth + 1) && depth < MAX_DEPTH && At(s, j, Row(es))
    ensures j + |Row(es)| <= |s|
    ensures ParseItems(s, j, depth, comments, data) == ParseItems(s, j + |Row(es)|, depth, comments, read)
    decreases |es|
  {
    hide ParseItems, ParseValue, NextToken, ValidDoc, DocDepth, Spaces, Text, Meaning, Around, At;
    if es == [] {
      InBoundsAt(s, j, "");
      read := data;
    } else {
      var e := es[0];
      var k := j + |Around(e)| + 1;
      AtConcat3(s, j, Around(e), ",", Row(es[1..]));
      AtConcat(s, j, Around(e), ",");
      ItemRead(s, j, e, ',', depth + 1, comments);
      NextItem(s, j, depth, comments, data, Meaning(e.d), j + |e.lead| + |Text(e.d)|, k);
      read := RowRead(s, k, es[1..], depth, comments, data + [Meaning(e.d)]);
    }
  }

  lemma BracketOpens(s: string, j: nat, depth: nat, comments: bool)
    requires j <= |s| && depth < MAX_DEPTH && !Closes(s, j, ']', comments)
    ensures AfterBracket(s, j, depth, comments) == ParseItems(s, j, depth, comments, [])
  {
    hide NextToken, ParseItems;
    if NextToken(s, j, comments).Ok? {
      ItemsAgain(s, j, depth, comments, []);
    } else {
      TokenFails(s, j, depth, comments, []);
    }
  }

  lemma RowStarts(s: string, j: nat, es: seq<Elem>, depth: nat, comments: bool)
    requires es != [] && SoundRow(es, depth) && At(s, j, Row(es))
    ensures !Closes(s, j, ']', comments)
  {
    hide NextToken, ValidDoc, DocDepth, Spaces, Text, At;
    AtConcat3(s, j, Around(es[0]), ",", Row(es[1..]));
    AtConcat3(s, j, es[0].lead, Text(es[0].d), es[0].trail);
    ValueToken(s, j, es[0].lead, es[0].d, comments);
    TextStarts(es[0].d);
  }

  /** Behind an opening bracket and complete items the parser is about to read the next item. */
  lemma ArrayOpened(s: string, i: nat, lead: string, items: seq<Elem>, depth: nat, comments: bool)
    returns (read: seq<Json>)
    requires Spaces(lead) && SoundRow(items, depth + 1) && depth < MAX_DEPTH
    requires At(s, i, lead + "[" + Row(items))
    requires items == [] ==> !Closes(s, i + |lead| + 1, ']', comments)
    ensures var p := i + |lead| + 1 + |Row(items)|;
            p <= |s| && ParseValue(s, i, depth, comments) == ParseItems(s, p, depth, comments, read)
  {
    hide NextToken, ParseItems, ParseValue, AfterBracket, Spaces, SoundRow, At, Closes, Row;
    var j := i + |lead| + 1;
    AtConcat3(s, i, lead, "[", Row(items));
    AtConcat(s, i, lead, "[");
    TokenAt(s, i, lead, '[', comments);
    BracketTurn(s, i, j, '[', depth, comments);
    InBoundsAt(s, j, Row(items));
    if items != [] {
      RowStarts(s, j, items, depth + 1, comments);
    }
    BracketOpens(s, j, depth, comments);
    read := RowRead(s, j, items, depth, comments, []);
  }

  // ---------- objects ----------

  /** The object loop from a place where a key is due. */
  function MembersFrom(s: string, i: nat, depth: nat, comments: bool, data: seq<Entry>): Outcome<Json>
    requires i <= |s|
  {
    match NextToken(s, i, comments)
    case Fail(e) => Fail(e)
    case Ok(c, k) => ParseMembers(s, k, c, depth, comments, data)
  }

  lemma BraceOpens(s: string, j: nat, depth: nat, comments: bool)
    requires j <= |s| && !Closes(s, j, '}', comments)
    ensures AfterBrace(s, j, depth, comments) == MembersFrom(s, j, depth, comments, [])
  {
    hide NextToken, ParseMembers;
  }

  /** A quote, the name and a token behind it. */
  lemma NameRead(s: string, j: nat, k: Key, c: char, comments: bool)
    requires SoundKey(k) && At(s, j, k.lead + StringText(k.name) + (k.gap + [c])) && !IsSpace(c) && c != '/'
    ensures j + |k.lead| + 1 <= |s| && NextToken(s, j, comments) == Ok('"', j + |k.lead| + 1)
    ensures var o := ParseString(s, j + |k.lead| + 1, "", -1);
            && o.Ok?
            && NextToken(s, o.next, comments) == Ok(c, j + |k.lead| + |StringText(k.name)| + |k.gap| + 1)
  {
    hide ParseString, NextToken, ItemsText, StringText, Spaces, ValidItems, At;
    AtConcat3(s, j, k.lead, StringText(k.name), k.gap + [c]);
    StringTextAt(s, j + |k.lead|, k.name);
    AtConcat(s, j, k.lead, "\"");
    InBoundsAt(s, j + |k.lead|, "\"");
    TokenAt(s, j, k.lead, '"', comments);
    StringComplete(s, j + |k.lead| + 1, k.name);
    TokenAt(s, j + |k.lead| + |StringText(k.name)|, k.gap, c, comments);
  }

  /** The object loop behind a key and its colon. */
  function AfterColon(s: string, k: nat, depth: nat, comments: bool, data: seq<Entry>, key: string): Outcome<Json>
    requires k <= |s|
  {
    match ParseValue(s, k, depth + 1, comments)
    case Fail(e) => Fail(e)
    case Ok(v, l) =>
      match NextToken(s, l, comments)
      case Fail(e) => Fail(e)
      case Ok(c, m) =>
        if c == '}' then Ok(Obj(Insert(data, key, v)), m)
        else if c != ',' then Fail(ExpectedCommaInObject(c))
        else MembersFrom(s, m, depth, comments, Insert(data, key, v))
  }

  lemma KeyTurn(s: string, j: nat, depth: nat, comments: bool, data: seq<Entry>)
    requires j <= |s| && Closes(s, j, '"', comments)
    ensures var o := ParseString(s, NextToken(s, j, comments).next, "", -1);
            var m := MembersFrom(s, j, depth, comments, data);
            && (o.Fail? ==> m == Fail(o.error))
            && (o.Ok? && NextToken(s, o.next, comments).Ok? ==>
                  var t := NextToken(s, o.next, comments);
                  m == if t.value == ':' then AfterColon(s, t.next, depth, comments, data, o.value)
                       else Fail(ExpectedColonInObject(t.value)))
  {
    hide NextToken, ParseString, ParseValue, Insert;
  }

  /** Behind a key the object goes on with its value. */
  lemma KeyRead(s: string, j: nat, k: Key, depth: nat, comments: bool, data: seq<Entry>) returns (key: string)
    requires SoundKey(k) && At(s, j, OpenKey(k))
    ensures j + |OpenKey(k)| <= |s|
    ensures MembersFrom(s, j, depth, comments, data)
         == AfterColon(s, j + |OpenKey(k)|, depth, comments, data, key)
  {
    hide NextToken, ParseString, MembersFrom, AfterColon, SoundKey, At, StringText;
    NameRead(s, j, k, ':', comments);
    KeyTurn(s, j, depth, comments, data);
    key := ParseString(s, j + |k.lead| + 1, "", -1).value;
  }

  /** A key and a complete value, and the token behind them. */
  lemma MemberRead(s: string, j: nat, m: Member, c: char, depth: nat, comments: bool, data: seq<Entry>)
    returns (read: seq<Entry>)
    requires SoundMember(m, depth + 1) && At(s, j, KeyText(m) + (Around(m.value) + [c]))
    requires c != '}' && !IsSpace(c) && c != '/'
    requires m.value.d.NumberDoc? && m.value.trail == "" ==> Stops(c, m.value.d.n.frac, m.value.d.n.exp)
    ensures var k := j + |KeyText(m)| + |Around(m.value)| + 1;
            && k <= |s|
            && MembersFrom(s, j, depth, comments, data)
               == if c == ',' then MembersFrom(s, k, depth, comments, read) else Fail(ExpectedCommaInObject(c))
  {
    hide NextToken, ParseValue, MembersFrom, At, Insert, Sound, Stops, Around, StringText;
    var k := Key(m.lead, m.key, m.gap);
    var p := j + |KeyText(m)|;
    assert OpenKey(k) == KeyText(m);
    AtConcat(s, j, KeyText(m), Around(m.value) + [c]);
    var key := KeyRead(s, j, k, depth, comments, data);
    ItemRead(s, p, m.value, c, depth + 1, comments);
    read := Insert(data, key, ParseValue(s, p, depth + 1, comments).value);
  }

  lemma {:induction false} MembersRead(s: string, j: nat, ms: seq<Member>, depth: nat, comments: bool,
                                       data: seq<Entry>)
    returns (read: seq<Entry>)
    requires SoundMembers(ms, depth + 1) && At(s, j, MemberRow(ms))
    ensures j + |MemberRow(ms)| <= |s|
    ensures MembersFrom(s, j, depth, comments, data)
         == MembersFrom(s, j + |MemberRow(ms)|, depth, comments, read)
    decreases |ms|
  {
    hide MembersFrom, At, KeyText, Around, SoundMember;
    if ms == [] {
      InBoundsAt(s, j, "");
      read := data;
    } else {
      var m := ms[0];
      AtConcat3(s, j, KeyText(m), Around(m.value) + ",", MemberRow(ms[1..]));
      AtConcat(s, j, KeyText(m), Around(m.value) + ",");
      read := MemberRead(s, j, m, ',', depth, comments, data);
      read := MembersRead(s, j + |KeyText(m)| + |Around(m.value)| + 1, ms[1..], depth, comments, read);
    }
  }

  lemma MembersStart(s: string, j: nat, ms: seq<Member>, depth: nat, comments: bool)
    requires ms != [] && SoundMembers(ms, depth) && At(s, j, MemberRow(ms))
    ensures !Closes(s, j, '}', comments)
  {
    hide NextToken, At, StringText, Around, Sound;
    var m := ms[0];
    AtConcat3(s, j, KeyText(m), Around(m.value) + ",", MemberRow(ms[1..]));
    NameRead(s, j, Key(m.lead, m.key, m.gap), ':', comments);
  }

  /** Behind an opening brace and complete members the parser is about to read the next key. */
  lemma ObjectOpened(s: string, i: nat, lead: string, members: seq<Member>, depth: nat, comments: bool)
    returns (read: seq<Entry>)
    requires Spaces(lead) && SoundMembers(members, depth + 1) && depth < MAX_DEPTH
    requires At(s, i, lead + "{" + MemberRow(members))
    requires members == [] ==> !Closes(s, i + |lead| + 1, '}', comments)
    ensures var p := i + |lead| + 1 + |MemberRow(members)|;
            p <= |s| && ParseValue(s, i, depth, comments) == MembersFrom(s, p, depth, comments, read)
  {
    hide NextToken, MembersFrom, ParseValue, AfterBrace, Spaces, SoundMembers, At, Closes, MemberRow;
    var j := i + |lead| + 1;
    AtConcat3(s, i, lead, "{", MemberRow(members));
    AtConcat(s, i, lead, "{");
    TokenAt(s, i, lead, '{', comments);
    BracketTurn(s, i, j, '{', depth, comments);
    InBoundsAt(s, j, MemberRow(members));
    if members != [] {
      MembersStart(s, j, members, depth + 1, comments);
    }
    BraceOpens(s, j, depth, comments);
    read := MembersRead(s, j, members, depth, comments, []);
  }

  // ---------- what is refused in an array or object ----------

  /** Behind an item stands neither a comma nor the closing bracket. */
  lemma CommaInList(s: string, i: nat, lead: string, items: seq<Elem>, last: Elem, c: char, depth: nat,
                    comments: bool)
    requires Spaces(lead) && SoundRow(items, depth + 1) && Sound(last, depth + 1) && depth < MAX_DEPTH
    requires At(s, i, lead + "[" + Row(items) + (Around(last) + [c]))
    requires !IsSpace(c) && c != '/' && c != ',' && c != ']'
    requires last.d.NumberDoc? && last.trail == "" ==> Stops(c, last.d.n.frac, last.d.n.exp)
    ensures ParseValue(s, i, depth, comments) == Fail(ExpectedCommaInList(c))
  {
    hide NextToken, ParseItems, ParseValue, Spaces, SoundRow, At, Closes, Around, Stops, Sound;
    var p := i + |lead| + 1 + |Row(items)|;
    AtConcat(s, i, lead + "[" + Row(items), Around(last) + [c]);
    ItemRead(s, p, last, c, depth + 1, comments);
    if items == [] {
      ItemStarts(s, p, last, c, depth + 1, comments);
    }
    var read := ArrayOpened(s, i, lead, items, depth, comments);
    ListBreaks(s, p, depth, comments, read);
  }

  lemma ItemStarts(s: string, p: nat, e: Elem, c: char, depth: nat, comments: bool)
    requires Sound(e, depth) && At(s, p, Around(e) + [c])
    ensures !Closes(s, p, ']', comments)
  {
    hide NextToken, ValidDoc, DocDepth, Spaces, Text, At;
    AtConcat(s, p, Around(e), [c]);
    AtConcat3(s, p, e.lead, Text(e.d), e.trail);
    ValueToken(s, p, e.lead, e.d, comments);
    TextStarts(e.d);
  }

  lemma ListBreaks(s: string, p: nat, depth: nat, comments: bool, data: seq<Json>)
    requires p <= |s| && ParseValue(s, p, depth + 1, comments).Ok?
    requires var t := NextToken(s, ParseValue(s, p, depth + 1, comments).next, comments);
             t.Ok? && t.value != ',' && t.value != ']'
    ensures var t := NextToken(s, ParseValue(s, p, depth + 1, comments).next, comments);
            ParseItems(s, p, depth, comments, data) == Fail(ExpectedCommaInList(t.value))
  {
    hide NextToken, ParseValue;
  }

  /** Where a key is due stands something else: a closing brace behind a comma too. */
  lemma QuoteInObject(s: string, i: nat, lead: string, members: seq<Member>, w: string, c: char, depth: nat,
                      comments: bool)
    requires Spaces(lead) && SoundMembers(members, depth + 1) && Spaces(w) && depth < MAX_DEPTH
    requires At(s, i, lead + "{" + MemberRow(members) + (w + [c]))
    requires !IsSpace(c) && c != '/' && c != '"' && (members == [] ==> c != '}')
    ensures ParseValue(s, i, depth, comments) == Fail(ExpectedQuoteInObject(c))
  {
    hide NextToken, ParseValue, Spaces, SoundMembers, At;
    var p := i + |lead| + 1 + |MemberRow(members)|;
    AtConcat(s, i, lead + "{" + MemberRow(members), w + [c]);
    TokenAt(s, p, w, c, comments);
    var read := ObjectOpened(s, i, lead, members, depth, comments);
  }

  /** A key that is no literal. */
  lemma KeyInObject(s: string, i: nat, lead: string, members: seq<Member>, w: string, depth: nat, comments: bool)
    requires Spaces(lead) && SoundMembers(members, depth + 1) && Spaces(w) && depth < MAX_DEPTH
    requires At(s, i, lead + "{" + MemberRow(members) + (w + "\""))
    ensures var j := i + |lead| + 1 + |MemberRow(members)| + |w| + 1;
            && j <= |s|
            && var o := ParseString(s, j, "", -1);
               o.Fail? ==> ParseValue(s, i, depth, comments) == Fail(o.error)
  {
    hide NextToken, ParseValue, ParseString, Spaces, SoundMembers, At, MembersFrom;
    var p := i + |lead| + 1 + |MemberRow(members)|;
    AtConcat(s, i, lead + "{" + MemberRow(members), w + "\"");
    TokenAt(s, p, w, '"', comments);
    InBoundsAt(s, p, w + "\"");
    var read := ObjectOpened(s, i, lead, members, depth, comments);
    KeyTurn(s, p, depth, comments, read);
  }

  /** Behind a key stands no colon. */
  lemma ColonInObject(s: string, i: nat, lead: string, members: seq<Member>, k: Key, c: char, depth: nat,
                      comments: bool)
    requires Spaces(lead) && SoundMembers(members, depth + 1) && SoundKey(k) && depth < MAX_DEPTH
    requires At(s, i, lead + "{" + MemberRow(members) + (k.lead + StringText(k.name) + (k.gap + [c])))
    requires !IsSpace(c) && c != '/' && c != ':'
    ensures ParseValue(s, i, depth, comments) == Fail(ExpectedColonInObject(c))
  {
    hide NextToken, ParseValue, ParseString, Spaces, SoundMembers, SoundKey, At, StringText, MembersFrom;
    var p := i + |lead| + 1 + |MemberRow(members)|;
    AtConcat(s, i, lead + "{" + MemberRow(members), k.lead + StringText(k.name) + (k.gap + [c]));
    NameRead(s, p, k, c, comments);
    var read := ObjectOpened(s, i, lead, members, depth, comments);
    KeyTurn(s, p, depth, comments, read);
  }

  /** Behind a member stands neither a comma nor the closing brace. */
  lemma CommaInObject(s: string, i: nat, lead: string, members: seq<Member>, last: Member, c: char, depth: nat,
                      comments: bool)
    requires Spaces(lead) && SoundMembers(members, depth + 1) && SoundMember(last, depth + 1) && depth < MAX_DEPTH
    requires At(s, i, lead + "{" + MemberRow(members) + (KeyText(last) + (Around(last.value) + [c])))
    requires !IsSpace(c) && c != '/' && c != ',' && c != '}'
    requires last.value.d.NumberDoc? && last.value.trail == "" ==> Stops(c, last.value.d.n.frac, last.value.d.n.exp)
    ensures ParseValue(s, i, depth, comments) == Fail(ExpectedCommaInObject(c))
  {
    hide NextToken, ParseValue, Spaces, SoundMembers, SoundMember, At, StringText, MembersFrom, Around, Stops, KeyText,
      Closes;
    var p := i + |lead| + 1 + |MemberRow(members)|;
    AtConcat(s, i, lead + "{" + MemberRow(members), KeyText(last) + (Around(last.value) + [c]));
    if members == [] {
      KeyStarts(s, p, last, Around(last.value) + [c], depth + 1, comments);
    }
    var read := ObjectOpened(s, i, lead, members, depth, comments);
    var rest := MemberRead(s, p, last, c, depth, comments, read);
  }

  lemma KeyStarts(s: string, p: nat, m: Member, behind: string, depth: nat, comments: bool)
    requires SoundMember(m, depth) && At(s, p, KeyText(m) + behind)
    ensures !Closes(s, p, '}', comments)
  {
    hide NextToken, At, StringText, Sound;
    AtConcat(s, p, KeyText(m), behind);
    NameRead(s, p, Key(m.lead, m.key, m.gap), ':', comments);
  }

  // ---------- the first error ----------

  lemma FrontOfArray(s: string, i: nat, lead: string, items: seq<Elem>, inner: Place)
    requires At(s, i, Front(InArray(lead, items, inner)))
    ensures At(s, i, lead + "[" + Row(items)) && At(s, i + |lead| + 1 + |Row(items)|, Front(inner))
  {
    hide At, Row;
    AtConcat(s, i, lead + "[" + Row(items), Front(inner));
  }

  lemma FrontOfObject(s: string, i: nat, lead: string, members: seq<Member>, key: Key, inner: Place)
    requires At(s, i, Front(InObject(lead, members, key, inner)))
    ensures At(s, i, lead + "{" + MemberRow(members))
    ensures var p := i + |lead| + 1 + |MemberRow(members)|;
            At(s, p, OpenKey(key)) && At(s, p + |OpenKey(key)|, Front(inner))
  {
    hide At, MemberRow, OpenKey;
    AtConcat(s, i, lead + "{" + MemberRow(members), OpenKey(key) + Front(inner));
    AtConcat(s, i + |lead| + 1 + |MemberRow(members)|, OpenKey(key), Front(inner));
  }

  /** An array or object that opens somewhere is no end of another. */
  lemma FrontStarts(s: string, i: nat, pl: Place, depth: nat, comments: bool)
    requires !pl.Here? && SoundPlace(pl, depth) && At(s, i, Front(pl))
    ensures !Closes(s, i, ']', comments)
  {
    hide NextToken, At, Row, MemberRow, SoundRow, SoundMembers, SoundKey, OpenKey;
    match pl
    case InArray(lead, items, inner) =>
      FrontOfArray(s, i, lead, items, inner);
      AtConcat(s, i, lead + "[", Row(items));
      TokenAt(s, i, lead, '[', comments);
    case InObject(lead, members, key, inner) =>
      FrontOfObject(s, i, lead, members, key, inner);
      AtConcat(s, i, lead + "{", MemberRow(members));
      TokenAt(s, i, lead, '{', comments);
  }

  lemma NothingBefore(items: seq<Elem>)
    ensures items == [] ==> Row(items) == ""
  {
  }

  lemma OpenKeyStarts(s: string, p: nat, members: seq<Member>, k: Key, comments: bool)
    requires SoundKey(k) && At(s, p, OpenKey(k))
    ensures !Closes(s, p, '}', comments) && (members == [] ==> MemberRow(members) == "")
  {
    hide NextToken, At, StringText;
    NameRead(s, p, k, ':', comments);
  }

  lemma ArrayFails(s: string, i: nat, lead: string, items: seq<Elem>, depth: nat, comments: bool)
    requires Spaces(lead) && SoundRow(items, depth + 1) && depth < MAX_DEPTH
    requires At(s, i, lead + "[" + Row(items)) && i + |lead| + 1 + |Row(items)| <= |s|
    requires var p := i + |lead| + 1 + |Row(items)|;
             ParseValue(s, p, depth + 1, comments).Fail? && (items == [] ==> !Closes(s, p, ']', comments))
    ensures ParseValue(s, i, depth, comments)
         == Fail(ParseValue(s, i + |lead| + 1 + |Row(items)|, depth + 1, comments).error)
  {
    hide NextToken, ParseValue, ParseItems, At, Row, SoundRow, Spaces, Closes;
    NothingBefore(items);
    var read := ArrayOpened(s, i, lead, items, depth, comments);
    ItemsFail(s, i + |lead| + 1 + |Row(items)|, depth, comments, read);
  }

  lemma ObjectFails(s: string, i: nat, lead: string, members: seq<Member>, key: Key, depth: nat, comments: bool)
    requires Spaces(lead) && SoundMembers(members, depth + 1) && SoundKey(key) && depth < MAX_DEPTH
    requires At(s, i, lead + "{" + MemberRow(members)) && At(s, i + |lead| + 1 + |MemberRow(members)|, OpenKey(key))
    requires i + |lead| + 1 + |MemberRow(members)| + |OpenKey(key)| <= |s|
    requires ParseValue(s, i + |lead| + 1 + |MemberRow(members)| + |OpenKey(key)|, depth + 1, comments).Fail?
    ensures ParseValue(s, i, depth, comments)
         == Fail(ParseValue(s, i + |lead| + 1 + |MemberRow(members)| + |OpenKey(key)|, depth + 1, comments).error)
  {
    hide NextToken, ParseValue, At, MemberRow, SoundMembers, SoundKey, OpenKey, Spaces, Closes, MembersFrom;
    var p := i + |lead| + 1 + |MemberRow(members)|;
    OpenKeyStarts(s, p, members, key, comments);
    var read := ObjectOpened(s, i, lead, members, depth, comments);
    var name := KeyRead(s, p, key, depth, comments, read);
  }

  /** Whatever a value is refused with at some place is what the whole text is refused with, however deep
      the place lies and whatever stands behind it. */
  lemma {:induction false} ErrorSurfaces(s: string, i: nat, pl: Place, depth: nat, comments: bool)
    requires SoundPlace(pl, depth) && At(s, i, Front(pl)) && i + |Front(pl)| <= |s|
    requires ParseValue(s, i + |Front(pl)|, depth + Levels(pl), comments).Fail?
    requires Bare(pl) ==> !Closes(s, i + |Front(pl)|, ']', comments)
    ensures ParseValue(s, i, depth, comments)
         == Fail(ParseValue(s, i + |Front(pl)|, depth + Levels(pl), comments).error)
    decreases pl
  {
    hide NextToken, ParseValue, At, Row, MemberRow, SoundRow, SoundMembers, SoundKey, OpenKey, Spaces, Closes;
    match pl
    case Here =>
    case InArray(lead, items, inner) =>
      var p := i + |lead| + 1 + |Row(items)|;
      FrontOfArray(s, i, lead, items, inner);
      ErrorSurfaces(s, p, inner, depth + 1, comments);
      if !inner.Here? {
        FrontStarts(s, p, inner, depth + 1, comments);
      }
      ArrayFails(s, i, lead, items, depth, comments);
    case InObject(lead, members, key, inner) =>
      var p := i + |lead| + 1 + |MemberRow(members)|;
      FrontOfObject(s, i, lead, members, key, inner);
      ErrorSurfaces(s, p + |OpenKey(key)|, inner, depth + 1, comments);
      ObjectFails(s, i, lead, members, key, depth, comments);
  }

  /** `Json::parse` reports the first error from the left. */
  lemma FirstError(pl: Place, rest: string, comments: bool)
    requires SoundPlace(pl, 0)
    requires ParseValue(Front(pl) + rest, |Front(pl)|, Levels(pl), comments).Fail?
    requires Bare(pl) ==> !Closes(Front(pl) + rest, |Front(pl)|, ']', comments)
    ensures Parse(Front(pl) + rest, comments)
         == Fail(ParseValue(Front(pl) + rest, |Front(pl)|, Levels(pl), comments).error)
  {
    hide ParseValue, NextToken, SoundPlace, Front, Levels, Bare, Closes;
    var s := Front(pl) + rest;
    assert s[0..|Front(pl)|] == Front(pl);
    ErrorSurfaces(s, 0, pl, 0, comments);
  }
}
