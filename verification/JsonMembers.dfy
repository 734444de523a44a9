/** The members of a parsed object: of several with the same key the last one counts. */
module JsonMembers {
  import opened ByteStrings
  import opened JsonGrammar
  import opened JsonParserSpec
  import opened JsonTheorems
  import opened JsonValues

  /** Assigning to a key of a map: the entry is there afterwards, the others stay, and keys still increase. */
  lemma {:induction false} InsertIs(entries: seq<Entry>, key: string, value: Json)
    requires SortedKeys(entries)
    ensures SortedKeys(Insert(entries, key, value))
    ensures forall e: Entry :: e in Insert(entries, key, value) <==>
              e == Entry(key, value) || (e in entries && e.key != key)
  {
    hide Before;
    var r := Insert(entries, key, value);
    if entries == [] || Before(key, entries[0].key) {
      assert r[1..] == entries;
      InsertFirst(entries, key, value);
    } else if entries[0].key == key {
      BeforeIrreflexive(key);
      InsertSame(entries, value);
    } else {
      BeforeTotal(key, entries[0].key);
      InsertIs(entries[1..], key, value);
      InsertLater(entries, key, value);
    }
  }

  lemma InsertFirst(entries: seq<Entry>, key: string, value: Json)
    requires SortedKeys(entries) && (entries == [] || Before(key, entries[0].key))
    ensures SortedKeys([Entry(key, value)] + entries) && forall e :: e in entries ==> e.key != key
  {
    hide Before;
    var r := [Entry(key, value)] + entries;
    forall i | 0 <= i < |entries|
      ensures Before(key, entries[i].key) && entries[i].key != key
    {
      if i > 0 {
        BeforeTransitive(key, entries[0].key, entries[i].key);
      }
      BeforeIrreflexive(key);
    }
    forall i, j | 0 <= i < j < |r|
      ensures Before(r[i].key, r[j].key)
    {
      if i > 0 {
        assert r[i] == entries[i - 1] && r[j] == entries[j - 1];
      }
    }
  }

  lemma InsertSame(entries: seq<Entry>, value: Json)
    requires entries != [] && SortedKeys(entries)
    ensures var r := [Entry(entries[0].key, value)] + entries[1..];
            SortedKeys(r) && forall e :: e in r <==>
              e == Entry(entries[0].key, value) || (e in entries && e.key != entries[0].key)
  {
    hide Before;
    var key, r := entries[0].key, [Entry(entries[0].key, value)] + entries[1..];
    BeforeIrreflexive(key);
    assert forall i :: 0 <= i < |r| ==> r[i].key == entries[i].key;
    assert entries == [entries[0]] + entries[1..];
    forall e | e in entries[1..]
      ensures e.key != key
    {
      var i :| 0 <= i < |entries[1..]| && entries[1..][i] == e;
      assert Before(entries[0].key, entries[i + 1].key);
    }
  }

  lemma InsertLater(entries: seq<Entry>, key: string, value: Json)
    requires entries != [] && SortedKeys(entries) && Before(entries[0].key, key)
    requires SortedKeys(Insert(entries[1..], key, value))
    requires forall e: Entry :: e in Insert(entries[1..], key, value) <==>
               e == Entry(key, value) || (e in entries[1..] && e.key != key)
    ensures var r := [entries[0]] + Insert(entries[1..], key, value);
            SortedKeys(r) && forall e: Entry :: e in r <==> e == Entry(key, value) || (e in entries && e.key != key)
  {
    hide Before, Insert, SortedKeys;
    var tail := Insert(entries[1..], key, value);
    assert entries[0].key != key by {
      BeforeIrreflexive(key);
    }
    assert entries == [entries[0]] + entries[1..];
    LaterSorted(entries, key, value);
  }

  lemma LaterSorted(entries: seq<Entry>, key: string, value: Json)
    requires entries != [] && SortedKeys(entries) && Before(entries[0].key, key)
    requires SortedKeys(Insert(entries[1..], key, value))
    requires forall e: Entry :: e in Insert(entries[1..], key, value) <==>
               e == Entry(key, value) || (e in entries[1..] && e.key != key)
    ensures SortedKeys([entries[0]] + Insert(entries[1..], key, value))
  {
    hide Before, Insert;
    var tail := Insert(entries[1..], key, value);
    forall i | 0 <= i < |tail|
      ensures Before(entries[0].key, tail[i].key)
    {
      assert tail[i] in tail;
      if tail[i] != Entry(key, value) {
        var j :| 0 <= j < |entries[1..]| && entries[1..][j] == tail[i];
        assert entries[j + 1] == tail[i];
      }
    }
    var r := [entries[0]] + tail;
    forall i, j | 0 <= i < j < |r|
      ensures Before(r[i].key, r[j].key)
    {
      assert r[j] == tail[j - 1];
      if i > 0 {
        assert r[i] == tail[i - 1];
      }
    }
  }

  // ---------- the members of an object ----------

  /** The members as they are written, from left to right. */
  function Written(ms: Members): seq<Entry>
    requires ValidMembers(ms)
  {
    [Entry(StringMeaning(ms.m.key), Meaning(ms.m.value.d))] + if ms.MoreMembers? then Written(ms.tail) else []
  }

  predicate Absent(written: seq<Entry>, key: string) {
    forall i :: 0 <= i < |written| ==> written[i].key != key
  }

  /** `e` is the last one of its key. */
  ghost predicate LastOf(written: seq<Entry>, e: Entry) {
    exists i :: 0 <= i < |written| && written[i] == e && Absent(written[i + 1..], e.key)
  }

  lemma LastOfMore(first: Entry, rest: seq<Entry>, e: Entry)
    ensures LastOf([first] + rest, e) <==> LastOf(rest, e) || (e == first && Absent(rest, e.key))
    ensures Absent([first] + rest, e.key) <==> first.key != e.key && Absent(rest, e.key)
  {
    var all := [first] + rest;
    assert all[1..] == rest;
    if LastOf(all, e) {
      var i :| 0 <= i < |all| && all[i] == e && Absent(all[i + 1..], e.key);
      if i > 0 {
        assert rest[i - 1] == e && rest[i..] == all[i + 1..];
      }
    }
    if LastOf(rest, e) {
      var i :| 0 <= i < |rest| && rest[i] == e && Absent(rest[i + 1..], e.key);
      assert all[i + 1] == e && all[i + 2..] == rest[i + 1..];
    }
    if e == first && Absent(rest, e.key) {
      assert all[0] == e;
    }
    if Absent(all, e.key) {
      assert all[0].key != e.key && forall i :: 0 <= i < |rest| ==> rest[i] == all[i + 1];
    }
  }

  lemma {:induction false} MembersAre(ms: Members, data: seq<Entry>)
    requires ValidMembers(ms) && SortedKeys(data)
    ensures SortedKeys(MembersMeaning(ms, data))
    ensures forall e: Entry :: e in MembersMeaning(ms, data) <==>
              LastOf(Written(ms), e) || (e in data && Absent(Written(ms), e.key))
    decreases ms
  {
    hide Meaning, StringMeaning, Insert, SortedKeys, ValidDoc, ValidItems, LastOf, Absent;
    var key, value := StringMeaning(ms.m.key), Meaning(ms.m.value.d);
    var now := Insert(data, key, value);
    InsertIs(data, key, value);
    var rest := if ms.MoreMembers? then Written(ms.tail) else [];
    if ms.MoreMembers? {
      MembersAre(ms.tail, now);
    }
    forall e: Entry
      ensures e in MembersMeaning(ms, data) <==>
                LastOf(Written(ms), e) || (e in data && Absent(Written(ms), e.key))
    {
      LastOfMore(Entry(key, value), rest, e);
      NoneLeft(e);
    }
  }

  lemma NoneLeft(e: Entry)
    ensures !LastOf([], e) && Absent([], e.key)
  {
  }

  /** An object text parses to the map of its members: its keys increase, and its entries are the last ones
      of their keys. */
  lemma LastMemberCounts(ms: Members, comments: bool)
    requires ValidMembers(ms) && MembersDepth(ms) < MAX_DEPTH
    ensures var o := Parse(Text(Object(ms)), comments);
            && o.Ok? && o.value.Obj? && SortedKeys(o.value.entries)
            && forall e: Entry :: e in o.value.entries <==> LastOf(Written(ms), e)
  {
    hide Parse, Text, MembersMeaning, MembersDepth, ValidMembers, SortedKeys, Written, LastOf;
    ParseComplete("", Object(ms), "", comments);
    assert "" + Text(Object(ms)) + "" == Text(Object(ms));
    NothingSorted();
    MembersAre(ms, []);
  }

  lemma NothingSorted()
    ensures SortedKeys([])
  {
  }
}
