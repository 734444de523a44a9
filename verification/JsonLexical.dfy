/** Characters and numerals: what single characters count as, and the numbers rows of digits stand for. */
module JsonLexical {
  import D = Doubles
  import opened Utf8

  /** The most digits an `int` surely holds, `numeric_limits<int>::digits10`. */
  const INT_DIGITS := 9

  predicate IsSpace(c: char) {
    c == ' ' || c == '\r' || c == '\n' || c == '\t'
  }

  predicate IsDigit(c: char) {
    '0' <= c <= '9'
  }

  function HexDigit(c: char): (d: int)
    ensures -1 <= d < 16
  {
    if '0' <= c <= '9' then c as int - '0' as int
    else if 'a' <= c <= 'f' then c as int - 'a' as int + 10
    else if 'A' <= c <= 'F' then c as int - 'A' as int + 10
    else -1
  }

  predicate IsHex4(h: string) {
    |h| == 4 && forall k :: 0 <= k < 4 ==> 0 <= HexDigit(h[k])
  }

  /** The number four hexadecimal digits stand for. */
  function HexValue(h: string): (u: CodePoint)
    requires IsHex4(h)
    ensures 0 <= u < 0x10000
  {
    HexDigit(h[0]) * 0x1000 + HexDigit(h[1]) * 0x100 + HexDigit(h[2]) * 0x10 + HexDigit(h[3])
  }

  /** The number a row of decimal digits stands for. */
  function Digits(t: string): int {
    if t == "" then 0 else Digits(t[..|t| - 1]) * 10 + (t[|t| - 1] as int - '0' as int)
  }

  function Signed(negative: bool, n: int): int {
    if negative then -n else n
  }

  /** The exact value of a decimal literal. */
  function Decimal(negative: bool, whole: string, frac: string, negativeExp: bool, exp: string): real {
    Signed(negative, Digits(whole + frac)) as real * D.Power(10, Signed(negativeExp, Digits(exp)) - |frac|)
  }
}
