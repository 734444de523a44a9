/** What the parser returns is a value that can be printed again, and comes back from its dump if no
    literal has overflowed. */
module JsonStable {
  import opened ByteStrings
  import opened JsonComments
  import opened JsonDump
  import opened JsonGrammar
  import opened JsonLexical
  import opened JsonNumerals
  import opened JsonParserSpec
  import opened JsonRoundTrip
  import opened JsonTheorems
  import opened JsonValues

  /** The value is one that a `Json` can hold, nested at most `depth` deep. */
  predicate Sound(v: Json, depth: nat) {
    Printable(v) && WellFormed(v) && Depth(v) <= depth
  }

  predicate SoundEntries(entries: seq<Entry>, depth: nat) {
    SortedKeys(entries) && forall i :: 0 <= i < |entries| ==> Sound(entries[i].value, depth)
  }

  lemma NumberSound(n: Number)
    requires ValidNumber(n)
    ensures Sound(NumberMeaning(n), 0)
  {
    hide D.RoundMagnitude, D.IsMagnitude, DecimalMeaning, NumberText, ValidNumber, IsShort, Digits;
    if IsShort(n) {
      ShortValue(n);
    } else {
      LongMeaning(n);
      RoundSound(DecimalMeaning(n.negative, n.whole, n.frac, n.exp));
    }
  }

  lemma RoundSound(y: real)
    ensures D.IsDouble(D.Round(y))
  {
    hide D.RoundMagnitude, D.IsMagnitude;
    D.RoundedIsDouble(if y < 0.0 then -y else y);
    MagnitudeRange(D.RoundMagnitude(if y < 0.0 then -y else y));
  }

  lemma MagnitudeRange(a: real)
    requires D.IsMagnitude(a)
    ensures 0.0 <= a
  {
  }

  // ---------- inserting into a map ----------

  /** Inserting keeps the keys sorted, and every value is an old one or the new one. */
  lemma {:induction false} InsertSound(entries: seq<Entry>, key: string, value: Json, depth: nat)
    requires SoundEntries(entries, depth) && Sound(value, depth)
    ensures SoundEntries(Insert(entries, key, value), depth)
    ensures forall k: string ::
              (forall i :: 0 <= i < |entries| ==> Before(k, entries[i].key)) && Before(k, key) ==>
                forall i :: 0 <= i < |Insert(entries, key, value)| ==> Before(k, Insert(entries, key, value)[i].key)
  {
    hide Before, Sound;
    var r := Insert(entries, key, value);
    if entries == [] || Before(key, entries[0].key) {
      forall i | 0 < i < |r| ensures Before(key, r[i].key) {
        if i > 1 {
          BeforeTransitive(key, entries[0].key, entries[i - 1].key);
        }
      }
      assert forall i :: 0 <= i < |entries| ==> r[i + 1] == entries[i];
      SortedCons(r[0], entries);
    } else if entries[0].key == key {
      SortedCons(r[0], entries[1..]);
    } else {
      BeforeTotal(key, entries[0].key);
      InsertSound(entries[1..], key, value, depth);
      SortedCons(entries[0], Insert(entries[1..], key, value));
    }
  }

  lemma SortedCons(first: Entry, rest: seq<Entry>)
    requires SortedKeys(rest) && forall i :: 0 <= i < |rest| ==> Before(first.key, rest[i].key)
    ensures SortedKeys([first] + rest)
  {
    hide Before;
  }

  // ---------- meanings ----------

  lemma {:induction false} ArraySound(items: seq<Json>, depth: nat)
    requires forall i :: 0 <= i < |items| ==> Sound(items[i], depth)
    ensures ItemsDepth(items) <= depth && Sound(Arr(items), 1 + depth)
  {
    hide Printable, WellFormed, Depth;
    if items != [] {
      ArraySound(items[1..], depth);
    }
    HoldsItems(items, depth);
  }

  lemma HoldsItems(items: seq<Json>, depth: nat)
    requires (forall i :: 0 <= i < |items| ==> Sound(items[i], depth)) && ItemsDepth(items) <= depth
    ensures Sound(Arr(items), 1 + depth)
  {
  }

  lemma {:induction false} EntriesShallow(entries: seq<Entry>, depth: nat)
    requires forall i :: 0 <= i < |entries| ==> Depth(entries[i].value) <= depth
    ensures EntriesDepth(entries) <= depth
  {
    hide Depth;
    if entries != [] {
      EntriesShallow(entries[1..], depth);
    }
  }

  lemma ObjectSound(entries: seq<Entry>, depth: nat)
    requires SoundEntries(entries, depth)
    ensures Sound(Obj(entries), 1 + depth)
  {
    hide Before;
    EntriesShallow(entries, depth);
  }

  /** What a tree means. */
  lemma {:induction false} MeaningSound(d: Doc)
    requires ValidDoc(d)
    ensures Sound(Meaning(d), DocDepth(d))
    decreases d, 1
  {
    hide NumberMeaning, ValidNumber, ValidItems, StringMeaning, ElemsMeaning, MembersMeaning, ElemsDepth, MembersDepth,
      ValidElems, ValidMembers, SortedKeys, D.IsDouble, Sound;
    match d
    case NumberDoc(n) => NumberSound(n);
    case Array(elems) =>
      ElemsSound(elems, ElemsDepth(elems));
      ArraySound(ElemsMeaning(elems), ElemsDepth(elems));
    case Object(members) =>
      NoEntries(MembersDepth(members));
      MembersSound(members, [], MembersDepth(members));
      ObjectSound(MembersMeaning(members, []), MembersDepth(members));
    case _ => LeafSound(d);
  }

  lemma LeafSound(d: Doc)
    requires ValidDoc(d) && !d.NumberDoc? && !d.Array? && !d.Object?
    ensures Sound(Meaning(d), 0)
  {
    hide StringMeaning, ValidItems;
  }

  lemma NoEntries(depth: nat)
    ensures SoundEntries([], depth)
  {
  }

  lemma {:induction false} ElemsSound(es: Elems, depth: nat)
    requires ValidElems(es) && ElemsDepth(es) <= depth
    ensures forall i :: 0 <= i < |ElemsMeaning(es)| ==> Sound(ElemsMeaning(es)[i], depth)
    decreases es, 0
  {
    hide Meaning, ValidDoc, DocDepth, Printable, WellFormed, Depth;
    MeaningSound(es.e.d);
    if es.MoreElems? {
      ElemsSound(es.tail, depth);
    }
  }

  lemma {:induction false} MembersSound(ms: Members, data: seq<Entry>, depth: nat)
    requires ValidMembers(ms) && SoundEntries(data, depth) && MembersDepth(ms) <= depth
    ensures SoundEntries(MembersMeaning(ms, data), depth)
    decreases ms, 0
  {
    hide Meaning, ValidDoc, DocDepth, Printable, WellFormed, Depth, SoundEntries, StringMeaning, ValidItems, Insert;
    MeaningSound(ms.m.value.d);
    InsertSound(data, StringMeaning(ms.m.key), Meaning(ms.m.value.d), depth);
    if ms.MoreMembers? {
      MembersSound(ms.tail, Insert(data, StringMeaning(ms.m.key), Meaning(ms.m.value.d)), depth);
    }
  }

  // ---------- the theorem ----------

  /** Whatever text was accepted, in either mode: the value read from it is one that can be dumped, and
      parsing that dump, again in either mode, gives an equal value, unless a literal overflowed to
      infinity. */
  lemma ParsedAgain(t: string, first: bool, second: bool)
    requires Parse(t, first).Ok?
    ensures var v := Parse(t, first).value;
            && Printable(v) && WellFormed(v) && Depth(v) <= MAX_DEPTH
            && Parse(Dump(v), second).Ok? && (Equal(Parse(Dump(v), second).value, v) <==> Finite(v))
  {
    hide Parse, Dump, Text, Meaning, DocDepth, ValidDoc, Depth, Printable, WellFormed, Finite, Equal, WithoutComments;
    var blanked := t;
    if first {
      CommentsAreBlanks(t);
      blanked := WithoutComments(t);
    }
    var before, d, after := ParseSound(blanked);
    MeaningSound(d);
    RoundTrip(Meaning(d), second);
  }
}
