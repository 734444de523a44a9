/** Code points, surrogate pairs and their UTF-8 form (RFC 3629, section 3). */
module Utf8 {
  predicate IsHigh(u: int) { 0xD800 <= u <= 0xDBFF }

  predicate IsLow(u: int) { 0xDC00 <= u <= 0xDFFF }

  type CodePoint = p: int | -1 <= p <= 0x10FFFF

  /** The code point that a surrogate pair stands for. */
  function Combine(high: int, low: int): (p: CodePoint)
    requires IsHigh(high) && IsLow(low)
    ensures 0x10000 <= p <= 0x10FFFF
    ensures high == 0xD800 + (p - 0x10000) / 0x400 && low == 0xDC00 + (p - 0x10000) % 0x400
  {
    (high - 0xD800) * 0x400 + (low - 0xDC00) + 0x10000
  }

  /** `encode_utf8`: shifts and masks are written as quotients and remainders; a negative
      code point writes nothing. */
  function Encode(pt: CodePoint): (t: string)
    ensures pt < 0 ==> t == ""
    ensures 0 <= pt < 0x80 ==> t == [pt as char]
  {
    if pt < 0 then ""
    else if pt < 0x80 then [pt as char]
    else if pt < 0x800 then
      [(pt / 0x40 + 0xC0) as char, (pt % 0x40 + 0x80) as char]
    else if pt < 0x10000 then
      [(pt / 0x1000 + 0xE0) as char, (pt / 0x40 % 0x40 + 0x80) as char, (pt % 0x40 + 0x80) as char]
    else
      [(pt / 0x40000 + 0xF0) as char, (pt / 0x1000 % 0x40 + 0x80) as char,
       (pt / 0x40 % 0x40 + 0x80) as char, (pt % 0x40 + 0x80) as char]
  }

  /** Reads the first code point of a UTF-8 text, after the table in section 3 of RFC 3629:
      the lead byte fixes the length, every further byte carries six bits. */
  function DecodeFirst(t: string): (int, nat)
    requires t != ""
  {
    var b := t[0] as int;
    if b < 0xC0 || |t| < 2 then (b, 1)
    else if b < 0xE0 then ((b - 0xC0) * 0x40 + Tail(t, 1), 2)
    else if b < 0xF0 && 3 <= |t| then ((b - 0xE0) * 0x1000 + Tail(t, 1) * 0x40 + Tail(t, 2), 3)
    else if 4 <= |t| then ((b - 0xF0) * 0x40000 + Tail(t, 1) * 0x1000 + Tail(t, 2) * 0x40 + Tail(t, 3), 4)
    else (b, 1)
  }

  function Tail(t: string, k: nat): int
    requires k < |t|
  {
    t[k] as int - 0x80
  }

  /** The groups of six bits, put together again. */
  lemma SixBits(pt: nat)
    ensures pt == pt / 0x40 * 0x40 + pt % 0x40
    ensures pt == pt / 0x1000 * 0x1000 + pt / 0x40 % 0x40 * 0x40 + pt % 0x40
    ensures pt == pt / 0x40000 * 0x40000 + pt / 0x1000 % 0x40 * 0x1000 + pt / 0x40 % 0x40 * 0x40 + pt % 0x40
  {
    assert pt / 0x40 / 0x40 == pt / 0x1000 && pt / 0x1000 / 0x40 == pt / 0x40000;
  }

  lemma EncodeLength(pt: CodePoint)
    ensures |Encode(pt)| ==
              if pt < 0 then 0 else if pt < 0x80 then 1 else if pt < 0x800 then 2 else if pt < 0x10000 then 3 else 4
    ensures forall k :: 0 <= k < |Encode(pt)| ==> Encode(pt)[k] < 256 as char
  {
  }

  /** The encoder is undone by the decoder, whatever text follows: encodings are injective and
      self-delimiting, and a merged surrogate pair takes exactly four bytes. */
  lemma DecodeEncode(pt: CodePoint, rest: string)
    requires 0 <= pt
    ensures Encode(pt) != "" && DecodeFirst(Encode(pt) + rest) == (pt, |Encode(pt)|)
    ensures |Encode(pt)| == 4 <==> 0x10000 <= pt
    ensures forall k :: 0 <= k < |Encode(pt)| ==> Encode(pt)[k] < 256 as char
  {
    EncodeLength(pt);
    SixBits(pt);
    var t := Encode(pt) + rest;
    assert forall k :: 0 <= k < |Encode(pt)| ==> t[k] == Encode(pt)[k];
    if pt < 0x80 {
      assert t[0] as int == pt;
    } else if pt < 0x800 {
      assert t[0] as int == pt / 0x40 + 0xC0 && Tail(t, 1) == pt % 0x40;
    } else if pt < 0x10000 {
      assert t[0] as int == pt / 0x1000 + 0xE0 && Tail(t, 1) == pt / 0x40 % 0x40 && Tail(t, 2) == pt % 0x40;
    } else {
      assert t[0] as int == pt / 0x40000 + 0xF0 && Tail(t, 1) == pt / 0x1000 % 0x40;
      assert Tail(t, 2) == pt / 0x40 % 0x40 && Tail(t, 3) == pt % 0x40;
    }
  }

  /** Two different code points never share an encoding. */
  lemma EncodeInjective(p: CodePoint, q: CodePoint)
    requires 0 <= p && 0 <= q && Encode(p) == Encode(q)
    ensures p == q
  {
    DecodeEncode(p, "");
    DecodeEncode(q, "");
  }
}
