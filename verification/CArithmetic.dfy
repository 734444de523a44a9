/** C integer arithmetic: conversions to `int` and `size_t`, which wrap around, and division and
    remainder, which truncate towards zero. With them go the facts about products and quotients of
    integers that the other modules use. */
module CArithmetic {

  function Abs(x: int): nat {
    if x < 0 then -x else x
  }

  const TWO_32 := 0x1_0000_0000

  /** `(int)x` keeps the low 32 bits, read as two's complement. */
  function ToInt(x: int): (n: int)
    ensures -0x8000_0000 <= n < 0x8000_0000
  {
    (x + 0x8000_0000) % TWO_32 - 0x8000_0000
  }

  lemma ToIntOfInt(x: int)
    ensures ToInt(x) == x <==> -0x8000_0000 <= x < 0x8000_0000
  {
  }

  const TWO_64 := 0x1_0000_0000_0000_0000

  /** `(size_t)x`. */
  function ToSize(x: int): (n: nat)
    ensures n < TWO_64
  {
    x % TWO_64
  }

  lemma SizeFits(x: nat)
    requires x < TWO_64
    ensures ToSize(x) == x
  {
  }

  /** `a / b`. */
  function Quotient(a: int, b: int): int
    requires b != 0
  {
    if (a < 0) == (b < 0) then Abs(a) / Abs(b) else -(Abs(a) / Abs(b))
  }

  /** `a % b`. */
  function Remainder(a: int, b: int): int
    requires b != 0
  {
    if a < 0 then -(Abs(a) % Abs(b)) else Abs(a) % Abs(b)
  }

  /** Casts differ from their argument by a multiple of the word size; with its range that fixes them. */
  lemma CastsCongruent(x: int)
    ensures (x - ToInt(x)) % 0x1_0000_0000 == 0 && (x - ToSize(x)) % 0x1_0000_0000_0000_0000 == 0
  {
    MultipleLeft(x + 0x8000_0000, TWO_32);
    MultipleLeft(x, TWO_64);
  }

  lemma MultipleLeft(x: int, n: nat)
    requires n > 0
    ensures (x - x % n) % n == 0
  {
    assert x - x % n == x / n * n + 0;
    DivMulPlus(x / n, n, 0);
  }

  /** The quotient is truncated towards zero, and the remainder has the sign of the dividend. */
  lemma QuotientRemainder(a: int, b: int)
    requires b != 0
    ensures a == Quotient(a, b) * b + Remainder(a, b) && Abs(Remainder(a, b)) < Abs(b)
    ensures (0 <= a ==> 0 <= Remainder(a, b)) && (a <= 0 ==> Remainder(a, b) <= 0)
  {
    DivMod(Abs(a), Abs(b));
    SignedExact(a - Remainder(a, b), b, Abs(a) / Abs(b));
  }

  lemma DivMulPlus(k: int, b: int, r: int)
    requires 0 <= r < b
    ensures (k * b + r) / b == k && (k * b + r) % b == r
  {
    var q, m := (k * b + r) / b, (k * b + r) % b;
    assert k * b + r == q * b + m;
    assert (q + 1) * b == q * b + b && (k + 1) * b == k * b + b;
    if q < k {
      MulMonotone(q + 1, k, b);
    } else if q > k {
      MulMonotone(k + 1, q, b);
    }
  }

  lemma MulMonotone(x: int, y: int, b: int)
    requires x <= y && 0 <= b
    ensures x * b <= y * b
  {
    assert (y - x) * b >= 0;
    assert (y - x) * b == y * b - x * b;
  }

  lemma RealProduct(a: real, x: real)
    requires 0.0 <= a && 0.0 <= x
    ensures 0.0 <= a * x
  {
  }

  lemma RealMonotone(a: real, b: real, x: real)
    requires a <= b && 0.0 <= x
    ensures a * x <= b * x
  {
    RealProduct(b - a, x);
    assert (b - a) * x == b * x - a * x;
  }

  lemma AbsMul(k: int, b: int)
    ensures Abs(k * b) == Abs(k) * Abs(b)
  {
  }

  /** Multiples of different numbers are at least the factor apart. */
  lemma MultiplesApart(i: int, j: int, b: int)
    requires i != j
    ensures Abs(i * b - j * b) >= Abs(b)
  {
    var d := i - j;
    assert i * b - j * b == d * b;
    AbsMul(d, b);
    MulMonotone(1, Abs(d), Abs(b));
  }

  /** The quotient of an exact multiple. */
  lemma QuotientOfMultiple(k: int, b: int)
    requires b != 0
    ensures Remainder(k * b, b) == 0 && Quotient(k * b, b) == k
  {
    AbsMul(k, b);
    DivMulPlus(Abs(k), Abs(b), 0);
    if k > 0 {
      MulMonotone(1, k, Abs(b));
    } else if k < 0 {
      MulMonotone(1, -k, Abs(b));
    }
  }

  /** A zero remainder means an exact multiple. */
  lemma ExactMultiple(n: int, b: int)
    requires b != 0 && Remainder(n, b) == 0
    ensures n == Quotient(n, b) * b
  {
    DivMod(Abs(n), Abs(b));
    SignedExact(n, b, Abs(n) / Abs(b));
  }

  lemma SignedExact(n: int, b: int, q: int)
    requires Abs(n) == q * Abs(b)
    ensures n == (if (n < 0) == (b < 0) then q else -q) * b
  {
    assert q * -b == -(q * b) && (-q) * b == -(q * b);
  }

  lemma DivMod(n: nat, d: nat)
    requires 0 < d
    ensures n == n / d * d + n % d && 0 <= n % d < d && 0 <= n / d
  {
  }

  /** Which quotients are below `s`, for a dividend that is not negative. */
  lemma QuotientBelow(n: nat, d: nat, s: nat)
    requires 0 < d
    ensures 0 <= Quotient(n, d) && (Quotient(n, d) < s <==> n < s * d)
  {
    DivMod(n, d);
    var q := n / d;
    assert (q + 1) * d == q * d + d;
    if q < s {
      MulMonotone(q + 1, s, d);
    } else {
      MulMonotone(s, q, d);
    }
  }

  /** A negative divisor hands its sign to the dividend. */
  lemma QuotientByNegative(n: int, d: int)
    requires 0 < d
    ensures Quotient(n, -d) == Quotient(-n, d)
  {
    if n == 0 {
      DivMulPlus(0, d, 0);
    }
  }

  /** A negative dividend has quotient zero as long as it is shorter than the divisor. */
  lemma QuotientOfNegative(n: int, d: nat)
    requires 0 < d && n < 0
    ensures 0 <= Quotient(n, d) <==> -n < d
    ensures -n < d ==> Quotient(n, d) == 0
  {
    DivMod(-n, d);
    QuotientBelow(-n, d, 1);
  }
}
