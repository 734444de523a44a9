/** JSON values as `Json` holds them, their equality, assigning to a member, and the depth of brackets
    that the parser bounds. */
module JsonValues {
  import opened ByteStrings

  /** An object is the sorted entry list of its `std::map`. The number of a double is the real number it
      holds, but for negative zero; infinity is a number beyond all others. */
  datatype Json =
    | Null
    | Bool(b: bool)
    | Int(n: int)
    | Double(x: real)
    | NegativeZero
    | Str(s: string)
    | Arr(items: seq<Json>)
    | Obj(entries: seq<Entry>)

  datatype Entry = Entry(key: string, value: Json)

  /** Keys strictly increase, as in a `std::map`. */
  predicate SortedKeys(entries: seq<Entry>) {
    forall i, j :: 0 <= i < j < |entries| ==> Before(entries[i].key, entries[j].key)
  }

  /** Every object inside `v` is a map. */
  predicate WellFormed(v: Json)
    decreases v
  {
    match v
    case Arr(items) => forall i :: 0 <= i < |items| ==> WellFormed(items[i])
    case Obj(entries) => SortedKeys(entries) && forall i :: 0 <= i < |entries| ==> WellFormed(entries[i].value)
    case _ => true
  }

  /** `data[key] = value` on a `std::map`. */
  function Insert(entries: seq<Entry>, key: string, value: Json): seq<Entry> {
    if entries == [] || Before(key, entries[0].key) then [Entry(key, value)] + entries
    else if entries[0].key == key then [Entry(key, value)] + entries[1..]
    else [entries[0]] + Insert(entries[1..], key, value)
  }

  /** Number of brackets around the innermost value. */
  function Depth(v: Json): nat
    decreases v
  {
    match v
    case Arr(items) => if items == [] then 0 else 1 + ItemsDepth(items)
    case Obj(entries) => if entries == [] then 0 else 1 + EntriesDepth(entries)
    case _ => 0
  }

  function ItemsDepth(items: seq<Json>): nat
    decreases items
  {
    if items == [] then 0 else Max(Depth(items[0]), ItemsDepth(items[1..]))
  }

  function EntriesDepth(entries: seq<Entry>): nat
    decreases entries
  {
    if entries == [] then 0 else Max(Depth(entries[0].value), EntriesDepth(entries[1..]))
  }

  function Max(a: nat, b: nat): nat {
    if a < b then b else a
  }

  predicate IsNumber(v: Json) {
    v.Int? || v.Double? || v.NegativeZero?
  }

  /** The double of this sign and value. */
  function SignedDouble(negative: bool, x: real): Json {
    if negative && x == 0.0 then NegativeZero else Double(x)
  }

  function NumberValue(v: Json): real
  {
    match v
    case Int(n) => n as real
    case Double(x) => x
    case _ => 0.0
  }

  /** `Json::operator==`: numbers compare by value, whatever their representation. */
  predicate Equal(v: Json, w: Json)
    decreases v
  {
    if IsNumber(v) && IsNumber(w) then NumberValue(v) == NumberValue(w)
    else
      match (v, w)
      case (Null, Null) => true
      case (Bool(a), Bool(b)) => a == b
      case (Str(a), Str(b)) => a == b
      case (Arr(a), Arr(b)) => |a| == |b| && forall i :: 0 <= i < |a| ==> Equal(a[i], b[i])
      case (Obj(a), Obj(b)) =>
        |a| == |b| && forall i :: 0 <= i < |a| ==> a[i].key == b[i].key && Equal(a[i].value, b[i].value)
      case _ => false
  }

  lemma EqualItems(a: seq<Json>, b: seq<Json>)
    requires a != [] && b != []
    ensures Equal(Arr(a), Arr(b)) <==> Equal(a[0], b[0]) && Equal(Arr(a[1..]), Arr(b[1..]))
  {
    if Equal(a[0], b[0]) && Equal(Arr(a[1..]), Arr(b[1..])) {
      forall i | 0 <= i < |a| ensures Equal(a[i], b[i]) {
        if i > 0 {
          assert Equal(a[1..][i - 1], b[1..][i - 1]);
        }
      }
    }
    if Equal(Arr(a), Arr(b)) {
      forall i | 0 <= i < |a| - 1 ensures Equal(a[1..][i], b[1..][i]) {
        assert Equal(a[i + 1], b[i + 1]);
      }
    }
  }

  lemma EqualEntries(a: seq<Entry>, b: seq<Entry>)
    requires a != [] && b != []
    ensures Equal(Obj(a), Obj(b)) <==>
              a[0].key == b[0].key && Equal(a[0].value, b[0].value) && Equal(Obj(a[1..]), Obj(b[1..]))
  {
    if a[0].key == b[0].key && Equal(a[0].value, b[0].value) && Equal(Obj(a[1..]), Obj(b[1..])) {
      forall i | 0 <= i < |a| ensures a[i].key == b[i].key && Equal(a[i].value, b[i].value) {
        if i > 0 {
          assert a[1..][i - 1].key == b[1..][i - 1].key && Equal(a[1..][i - 1].value, b[1..][i - 1].value);
        }
      }
    }
    if Equal(Obj(a), Obj(b)) {
      forall i | 0 <= i < |a| - 1 ensures a[1..][i].key == b[1..][i].key && Equal(a[1..][i].value, b[1..][i].value) {
        assert a[i + 1].key == b[i + 1].key && Equal(a[i + 1].value, b[i + 1].value);
      }
    }
  }
}
