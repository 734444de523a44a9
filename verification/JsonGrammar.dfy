/** The grammar of JSON texts (RFC 8259, sections 2 to 7) as concrete syntax trees: the text each
    tree spells out and the value it means. It does not mention the parser. */
module JsonGrammar {
  import D = Doubles
  import opened JsonLexical
  import opened JsonValues
  import opened Utf8

  /** One character of a string literal: itself, a short escape, or `\u` and four digits. */
  datatype Item = Plain(c: char) | Escape(c: char) | Unicode(h: string)

  datatype Items = End | Then(head: Item, rest: Items)

  datatype Sign = NoSign | Plus | Negative

  datatype Exponent = NoExponent | Exponent(mark: char, sign: Sign, digits: string)

  datatype Number = Number(negative: bool, whole: string, frac: string, exp: Exponent)

  datatype Doc =
    | NullDoc
    | BoolDoc(b: bool)
    | NumberDoc(n: Number)
    | StringDoc(chars: Items)
    | EmptyArray(gap: string)
    | Array(elems: Elems)
    | EmptyObject(gap: string)
    | Object(members: Members)

  /** A value with the whitespace around it. */
  datatype Elem = Elem(lead: string, d: Doc, trail: string)

  datatype Elems = LastElem(e: Elem) | MoreElems(e: Elem, tail: Elems)

  datatype Member = Member(lead: string, key: Items, gap: string, value: Elem)

  datatype Members = LastMember(m: Member) | MoreMembers(m: Member, tail: Members)

  // ---------- well-formed trees ----------

  predicate Spaces(w: string) {
    forall k :: 0 <= k < |w| ==> IsSpace(w[k])
  }

  /** The code point a two-character escape stands for, or -1 (section 7 of RFC 8259). */
  function EscapeCode(c: char): (code: int)
    ensures code < 0x80
  {
    if c == '"' then 0x22
    else if c == '\\' then 0x5C
    else if c == '/' then 0x2F
    else if c == 'b' then 0x08
    else if c == 'f' then 0x0C
    else if c == 'n' then 0x0A
    else if c == 'r' then 0x0D
    else if c == 't' then 0x09
    else -1
  }

  predicate ValidItem(it: Item) {
    match it
    case Plain(c) => c != '"' && c != '\\' && c >= ' '
    case Escape(c) => EscapeCode(c) >= 0
    case Unicode(h) => IsHex4(h)
  }

  predicate ValidItems(its: Items) {
    its.Then? ==> ValidItem(its.head) && ValidItems(its.rest)
  }

  predicate AllDigits(t: string) {
    forall k :: 0 <= k < |t| ==> IsDigit(t[k])
  }

  predicate IsMark(c: char) {
    c == 'e' || c == 'E'
  }

  predicate ValidExponent(e: Exponent) {
    e.Exponent? ==> IsMark(e.mark) && e.digits != "" && AllDigits(e.digits)
  }

  predicate ValidWhole(whole: string) {
    whole != "" && AllDigits(whole) && (whole[0] == '0' ==> |whole| == 1)
  }

  predicate ValidNumber(n: Number) {
    ValidWhole(n.whole) && AllDigits(n.frac) && ValidExponent(n.exp)
  }

  predicate ValidDoc(d: Doc) {
    match d
    case NumberDoc(n) => ValidNumber(n)
    case StringDoc(chars) => ValidItems(chars)
    case EmptyArray(gap) => Spaces(gap)
    case Array(elems) => ValidElems(elems)
    case EmptyObject(gap) => Spaces(gap)
    case Object(members) => ValidMembers(members)
    case _ => true
  }

  predicate ValidElems(es: Elems) {
    && Spaces(es.e.lead) && ValidDoc(es.e.d) && Spaces(es.e.trail)
    && (es.MoreElems? ==> ValidElems(es.tail))
  }

  predicate ValidMembers(ms: Members) {
    && Spaces(ms.m.lead) && ValidItems(ms.m.key) && Spaces(ms.m.gap)
    && Spaces(ms.m.value.lead) && ValidDoc(ms.m.value.d) && Spaces(ms.m.value.trail)
    && (ms.MoreMembers? ==> ValidMembers(ms.tail))
  }

  // ---------- texts ----------

  function ItemText(it: Item): string {
    match it
    case Plain(c) => [c]
    case Escape(c) => ['\\', c]
    case Unicode(h) => "\\u" + h
  }

  function ItemsText(its: Items): string {
    if its.End? then "" else ItemText(its.head) + ItemsText(its.rest)
  }

  function StringText(its: Items): string {
    "\"" + ItemsText(its) + "\""
  }

  function Minus(negative: bool): (t: string)
    ensures |t| == if negative then 1 else 0
  {
    if negative then "-" else ""
  }

  function FractionText(frac: string): (t: string)
    ensures |t| == if frac == "" then 0 else 1 + |frac|
  {
    if frac == "" then "" else "." + frac
  }

  function SignText(sign: Sign): string {
    match sign
    case NoSign => ""
    case Plus => "+"
    case Negative => "-"
  }

  function ExponentText(e: Exponent): (t: string)
    ensures |t| == if e.NoExponent? then 0 else 1 + |SignText(e.sign)| + |e.digits|
  {
    if e.NoExponent? then "" else [e.mark] + SignText(e.sign) + e.digits
  }

  function NumberText(n: Number): string {
    Minus(n.negative) + n.whole + FractionText(n.frac) + ExponentText(n.exp)
  }

  function BoolText(b: bool): string {
    if b then "true" else "false"
  }

  function Text(d: Doc): string {
    match d
    case NullDoc => "null"
    case BoolDoc(b) => BoolText(b)
    case NumberDoc(n) => NumberText(n)
    case StringDoc(chars) => StringText(chars)
    case EmptyArray(gap) => "[" + gap + "]"
    case Array(elems) => "[" + ElemsText(elems) + "]"
    case EmptyObject(gap) => "{" + gap + "}"
    case Object(members) => "{" + MembersText(members) + "}"
  }

  function ElemsText(es: Elems): string {
    es.e.lead + Text(es.e.d) + es.e.trail + (if es.MoreElems? then "," + ElemsText(es.tail) else "")
  }

  /** A key up to and including its colon. */
  function KeyText(m: Member): string {
    m.lead + StringText(m.key) + (m.gap + ":")
  }

  function MembersText(ms: Members): string {
    KeyText(ms.m) + (ms.m.value.lead + Text(ms.m.value.d) + ms.m.value.trail)
    + (if ms.MoreMembers? then "," + MembersText(ms.tail) else "")
  }

  // ---------- meanings ----------

  /** What an escape contributes before surrogates are paired. */
  datatype Unit = Char(c: char) | Code(u: CodePoint)

  datatype Units = Done | Next(head: Unit, rest: Units)

  function ItemUnit(it: Item): Unit
    requires ValidItem(it)
  {
    match it
    case Plain(c) => Char(c)
    case Escape(c) => Char(EscapeCode(c) as char)
    case Unicode(h) => Code(HexValue(h))
  }

  function ItemsUnits(its: Items): Units
    requires ValidItems(its)
  {
    if its.End? then Done else Next(ItemUnit(its.head), ItemsUnits(its.rest))
  }

  /** UTF-16 pairing from left to right: a high surrogate directly followed by a low one is one
      code point; every other escape stands for itself. Then UTF-8. */
  function UnitsMeaning(us: Units): string {
    match us
    case Done => ""
    case Next(Char(c), rest) => [c] + UnitsMeaning(rest)
    case Next(Code(u), rest) =>
      if IsHigh(u) && rest.Next? && rest.head.Code? && IsLow(rest.head.u) then
        Encode(Combine(u, rest.head.u)) + UnitsMeaning(rest.rest)
      else Encode(u) + UnitsMeaning(rest)
  }

  function StringMeaning(its: Items): string
    requires ValidItems(its)
  {
    UnitsMeaning(ItemsUnits(its))
  }

  /** Short integers are ints, every other number is the double next to it. */
  function NumberMeaning(n: Number): Json {
    if n.frac == "" && n.exp.NoExponent? && |NumberText(n)| <= INT_DIGITS then
      Int(Signed(n.negative, Digits(n.whole)))
    else SignedDouble(n.negative, D.Round(DecimalMeaning(n.negative, n.whole, n.frac, n.exp)))
  }

  function DecimalMeaning(negative: bool, whole: string, frac: string, e: Exponent): real {
    if e.NoExponent? then Decimal(negative, whole, frac, false, "")
    else Decimal(negative, whole, frac, e.sign.Negative?, e.digits)
  }

  function Meaning(d: Doc): Json
    requires ValidDoc(d)
  {
    match d
    case NullDoc => Null
    case BoolDoc(b) => Bool(b)
    case NumberDoc(n) => NumberMeaning(n)
    case StringDoc(chars) => Str(StringMeaning(chars))
    case EmptyArray(_) => Arr([])
    case Array(elems) => Arr(ElemsMeaning(elems))
    case EmptyObject(_) => Obj([])
    case Object(members) => Obj(MembersMeaning(members, []))
  }

  function ElemsMeaning(es: Elems): seq<Json>
    requires ValidElems(es)
  {
    [Meaning(es.e.d)] + (if es.MoreElems? then ElemsMeaning(es.tail) else [])
  }

  /** Later members replace earlier ones with the same key. */
  function MembersMeaning(ms: Members, data: seq<Entry>): seq<Entry>
    requires ValidMembers(ms)
  {
    var now := Insert(data, StringMeaning(ms.m.key), Meaning(ms.m.value.d));
    if ms.MoreMembers? then MembersMeaning(ms.tail, now) else now
  }

  /** Bracket levels that hold a value. */
  function DocDepth(d: Doc): nat {
    match d
    case Array(elems) => 1 + ElemsDepth(elems)
    case Object(members) => 1 + MembersDepth(members)
    case _ => 0
  }

  function ElemsDepth(es: Elems): nat {
    Max(DocDepth(es.e.d), if es.MoreElems? then ElemsDepth(es.tail) else 0)
  }

  function MembersDepth(ms: Members): nat {
    Max(DocDepth(ms.m.value.d), if ms.MoreMembers? then MembersDepth(ms.tail) else 0)
  }
}
