/** `Json::operator<`, the order that makes JSON values usable as keys. */
module JsonOrder {
  import opened ByteStrings
  import opened JsonValues

  /** The position in `enum Type`. */
  function Rank(v: Json): nat {
    match v
    case Null => 0
    case Int(_) => 1
    case Double(_) => 1
    case NegativeZero => 1
    case Bool(_) => 2
    case Str(_) => 3
    case Arr(_) => 4
    case Obj(_) => 5
  }

  function Size(v: Json): (n: nat)
    ensures n > 0
    decreases v
  {
    match v
    case Arr(items) => 1 + ItemsSize(items)
    case Obj(entries) => 1 + EntriesSize(entries)
    case _ => 1
  }

  function ItemsSize(items: seq<Json>): nat
    decreases items
  {
    if items == [] then 0 else Size(items[0]) + ItemsSize(items[1..])
  }

  function EntriesSize(entries: seq<Entry>): nat
    decreases entries
  {
    if entries == [] then 0 else Size(entries[0].value) + EntriesSize(entries[1..])
  }

  predicate Less(v: Json, w: Json)
    decreases Size(v) + Size(w), 0
  {
    if Rank(v) != Rank(w) then Rank(v) < Rank(w)
    else
      match v
      case Null => false
      case Int(_) => NumberValue(v) < NumberValue(w)
      case Double(_) => NumberValue(v) < NumberValue(w)
      case NegativeZero => NumberValue(v) < NumberValue(w)
      case Bool(b) => !b && w.b
      case Str(s) => Before(s, w.s)
      case Arr(items) => LessItems(items, w.items)
      case Obj(entries) => LessEntries(entries, w.entries)
  }

  /** `std::vector` compares lexicographically, with nothing but `<` on the elements. */
  predicate LessItems(a: seq<Json>, b: seq<Json>)
    decreases ItemsSize(a) + ItemsSize(b), 1
  {
    b != [] && (a == [] || Less(a[0], b[0]) || (!Less(b[0], a[0]) && LessItems(a[1..], b[1..])))
  }

  /** And `std::map` does so on pairs of key and value. */
  predicate LessEntries(a: seq<Entry>, b: seq<Entry>)
    decreases EntriesSize(a) + EntriesSize(b), 2
  {
    b != [] && (a == [] || LessEntry(a[0], b[0]) || (!LessEntry(b[0], a[0]) && LessEntries(a[1..], b[1..])))
  }

  predicate LessEntry(x: Entry, y: Entry)
    decreases Size(x.value) + Size(y.value), 1
  {
    Before(x.key, y.key) || (!Before(y.key, x.key) && Less(x.value, y.value))
  }

  // ---------- trichotomy ----------

  predicate ExactlyOne(a: bool, b: bool, c: bool) {
    (a && !b && !c) || (!a && b && !c) || (!a && !b && c)
  }

  /** Of two values exactly one is less, or they are equal in the sense of `operator==`. */
  lemma {:induction false} Trichotomy(v: Json, w: Json)
    ensures ExactlyOne(Less(v, w), Equal(v, w), Less(w, v))
    decreases Size(v) + Size(w), 0
  {
    hide LessItems, LessEntries, Before;
    match (v, w)
    case (Str(s), Str(t)) => BeforeTrichotomy(s, t);
    case (Arr(a), Arr(b)) => ItemsTrichotomy(a, b);
    case (Obj(a), Obj(b)) => EntriesTrichotomy(a, b);
    case _ =>
  }

  lemma BeforeTrichotomy(s: string, t: string)
    ensures ExactlyOne(Before(s, t), s == t, Before(t, s))
  {
    hide Before;
    BeforeTotal(s, t);
    BeforeIrreflexive(s);
    if Before(s, t) && Before(t, s) {
      BeforeTransitive(s, t, s);
    }
  }

  lemma {:induction false} ItemsTrichotomy(a: seq<Json>, b: seq<Json>)
    ensures ExactlyOne(LessItems(a, b), Equal(Arr(a), Arr(b)), LessItems(b, a))
    decreases ItemsSize(a) + ItemsSize(b), 1
  {
    hide Less, Size;
    if a != [] && b != [] {
      Trichotomy(a[0], b[0]);
      ItemsTrichotomy(a[1..], b[1..]);
      EqualItems(a, b);
    }
  }

  lemma {:induction false} EntryTrichotomy(x: Entry, y: Entry)
    ensures ExactlyOne(LessEntry(x, y), x.key == y.key && Equal(x.value, y.value), LessEntry(y, x))
    decreases Size(x.value) + Size(y.value), 1
  {
    hide Less, Equal, Before, Size;
    Trichotomy(x.value, y.value);
    BeforeTrichotomy(x.key, y.key);
  }

  lemma {:induction false} EntriesTrichotomy(a: seq<Entry>, b: seq<Entry>)
    ensures ExactlyOne(LessEntries(a, b), Equal(Obj(a), Obj(b)), LessEntries(b, a))
    decreases EntriesSize(a) + EntriesSize(b), 2
  {
    hide LessEntry, Size;
    if a != [] && b != [] {
      EntryTrichotomy(a[0], b[0]);
      EntriesTrichotomy(a[1..], b[1..]);
      EqualEntries(a, b);
    }
  }

  // ---------- transitivity ----------

  /** Whatever lies between: a value less than another is separated from it on one side or the other. */
  lemma {:induction false} Separates(u: Json, v: Json, w: Json)
    requires Less(u, w)
    ensures Less(u, v) || Less(v, w)
    decreases Size(u) + Size(v) + Size(w), 0
  {
    hide LessItems, LessEntries, Before;
    if Rank(u) == Rank(v) == Rank(w) {
      match u
      case Str(s) => BeforeSeparates(s, v.s, w.s);
      case Arr(items) => ItemsSeparate(items, v.items, w.items);
      case Obj(entries) => EntriesSeparate(entries, v.entries, w.entries);
      case _ =>
    }
  }

  lemma BeforeSeparates(a: string, b: string, c: string)
    requires Before(a, c)
    ensures Before(a, b) || Before(b, c)
  {
    hide Before;
    BeforeTotal(a, b);
    if Before(b, a) {
      BeforeTransitive(b, a, c);
    }
  }

  lemma {:induction false} ItemsSeparate(a: seq<Json>, b: seq<Json>, c: seq<Json>)
    requires LessItems(a, c)
    ensures LessItems(a, b) || LessItems(b, c)
    decreases ItemsSize(a) + ItemsSize(b) + ItemsSize(c), 1
  {
    hide Less, Size;
    if a != [] && b != [] {
      if Less(a[0], c[0]) {
        Separates(a[0], b[0], c[0]);
      } else if !Less(a[0], b[0]) && !Less(b[0], c[0]) {
        if Less(b[0], a[0]) { Separates(b[0], c[0], a[0]); }
        if Less(c[0], b[0]) { Separates(c[0], a[0], b[0]); }
        ItemsSeparate(a[1..], b[1..], c[1..]);
      }
    }
  }

  lemma {:induction false} EntrySeparates(x: Entry, y: Entry, z: Entry)
    requires LessEntry(x, z)
    ensures LessEntry(x, y) || LessEntry(y, z)
    decreases Size(x.value) + Size(y.value) + Size(z.value), 1
  {
    hide Less, Before, Size;
    BeforeTrichotomy(x.key, y.key);
    BeforeTrichotomy(y.key, z.key);
    BeforeTrichotomy(x.key, z.key);
    if Before(x.key, z.key) {
      BeforeSeparates(x.key, y.key, z.key);
    } else {
      Separates(x.value, y.value, z.value);
    }
  }

  lemma {:induction false} EntriesSeparate(a: seq<Entry>, b: seq<Entry>, c: seq<Entry>)
    requires LessEntries(a, c)
    ensures LessEntries(a, b) || LessEntries(b, c)
    decreases EntriesSize(a) + EntriesSize(b) + EntriesSize(c), 2
  {
    hide LessEntry, Size;
    if a != [] && b != [] {
      if LessEntry(a[0], c[0]) {
        EntrySeparates(a[0], b[0], c[0]);
      } else if !LessEntry(a[0], b[0]) && !LessEntry(b[0], c[0]) {
        if LessEntry(b[0], a[0]) { EntrySeparates(b[0], c[0], a[0]); }
        if LessEntry(c[0], b[0]) { EntrySeparates(c[0], a[0], b[0]); }
        EntriesSeparate(a[1..], b[1..], c[1..]);
      }
    }
  }

  lemma LessTransitive(u: Json, v: Json, w: Json)
    requires Less(u, v) && Less(v, w)
    ensures Less(u, w)
  {
    hide Less, Equal;
    Separates(u, w, v);
    Trichotomy(v, w);
  }

  /** Equal values are interchangeable on either side of `<`, and `==` is transitive. */
  lemma EqualIsCongruence(u: Json, v: Json, w: Json)
    requires Equal(u, v)
    ensures (Less(u, w) <==> Less(v, w)) && (Less(w, u) <==> Less(w, v)) && (Equal(u, w) <==> Equal(v, w))
  {
    hide Less, Equal;
    Trichotomy(u, v);
    Trichotomy(u, w);
    Trichotomy(v, w);
    if Less(u, w) { Separates(u, v, w); }
    if Less(v, w) { Separates(v, u, w); }
    if Less(w, u) { Separates(w, v, u); }
    if Less(w, v) { Separates(w, u, v); }
  }

  // ---------- what it means ----------

  /** The items agree up to index `i`, and there `a` ends or holds the lesser one. */
  ghost predicate ItemsPart(a: seq<Json>, b: seq<Json>, i: nat) {
    && i <= |a| && i < |b| && (forall k :: 0 <= k < i ==> Equal(a[k], b[k]))
    && (i == |a| || Less(a[i], b[i]))
  }

  lemma {:induction false} LessItemsIff(a: seq<Json>, b: seq<Json>)
    ensures LessItems(a, b) <==> exists i: nat :: ItemsPart(a, b, i)
    decreases |a|
  {
    hide Less, Equal;
    if a == [] || b == [] {
      if LessItems(a, b) {
        assert ItemsPart(a, b, 0);
      }
    } else {
      LessItemsIff(a[1..], b[1..]);
      Trichotomy(a[0], b[0]);
      if LessItems(a, b) {
        if Less(a[0], b[0]) {
          assert ItemsPart(a, b, 0);
        } else {
          var i: nat :| ItemsPart(a[1..], b[1..], i);
          assert forall k :: 0 < k <= i ==> a[k] == a[1..][k - 1] && b[k] == b[1..][k - 1];
          assert ItemsPart(a, b, i + 1);
        }
      }
      if exists i: nat :: ItemsPart(a, b, i) {
        var i: nat :| ItemsPart(a, b, i);
        if i > 0 {
          assert ItemsPart(a[1..], b[1..], i - 1);
        }
      }
    }
  }

  /** The same for members, which are compared by key and then by value. */
  ghost predicate EntriesPart(a: seq<Entry>, b: seq<Entry>, i: nat) {
    && i <= |a| && i < |b|
    && (forall k :: 0 <= k < i ==> a[k].key == b[k].key && Equal(a[k].value, b[k].value))
    && (i == |a| || Before(a[i].key, b[i].key) || (a[i].key == b[i].key && Less(a[i].value, b[i].value)))
  }

  lemma EntryParts(x: Entry, y: Entry)
    ensures LessEntry(x, y) <==> Before(x.key, y.key) || (x.key == y.key && Less(x.value, y.value))
  {
    hide Less, Before;
    BeforeTrichotomy(x.key, y.key);
  }

  lemma {:induction false} LessEntriesIff(a: seq<Entry>, b: seq<Entry>)
    ensures LessEntries(a, b) <==> exists i: nat :: EntriesPart(a, b, i)
    decreases |a|
  {
    hide Less, Equal, LessEntry, Before;
    if a == [] || b == [] {
      if LessEntries(a, b) {
        assert EntriesPart(a, b, 0);
      }
    } else {
      LessEntriesIff(a[1..], b[1..]);
      EntryTrichotomy(a[0], b[0]);
      EntryParts(a[0], b[0]);
      if LessEntries(a, b) {
        if LessEntry(a[0], b[0]) {
          assert EntriesPart(a, b, 0);
        } else {
          var i: nat :| EntriesPart(a[1..], b[1..], i);
          assert forall k :: 0 < k <= i ==> a[k] == a[1..][k - 1] && b[k] == b[1..][k - 1];
          assert EntriesPart(a, b, i + 1);
        }
      }
      if exists i: nat :: EntriesPart(a, b, i) {
        var i: nat :| EntriesPart(a, b, i);
        if i > 0 {
          assert EntriesPart(a[1..], b[1..], i - 1);
        }
      }
    }
  }

  /** What `<` decides, type by type, in the order null, number, bool, string, array, object: numbers by
      value, strings by their first different byte, arrays and objects by their first different item. */
  lemma LessIs(v: Json, w: Json)
    ensures v.Null? ==> (Less(v, w) <==> !w.Null?)
    ensures IsNumber(v) ==> (Less(v, w) <==> if IsNumber(w) then NumberValue(v) < NumberValue(w) else !w.Null?)
    ensures v.Bool? ==> (Less(v, w) <==> if w.Bool? then !v.b && w.b else w.Str? || w.Arr? || w.Obj?)
    ensures v.Str? ==> (Less(v, w) <==> if w.Str? then exists i: nat :: PartsAt(v.s, w.s, i) else w.Arr? || w.Obj?)
    ensures v.Arr? ==> (Less(v, w) <==> if w.Arr? then exists i: nat :: ItemsPart(v.items, w.items, i) else w.Obj?)
    ensures v.Obj? ==> (Less(v, w) <==> w.Obj? && exists i: nat :: EntriesPart(v.entries, w.entries, i))
  {
    hide LessItems, LessEntries, Before, PartsAt, ItemsPart, EntriesPart;
    if v.Str? && w.Str? {
      BeforeIff(v.s, w.s);
    } else if v.Arr? && w.Arr? {
      LessItemsIff(v.items, w.items);
    } else if v.Obj? && w.Obj? {
      LessEntriesIff(v.entries, w.entries);
    }
  }
}
