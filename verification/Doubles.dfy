/** Doubles of 64 bits as real numbers. A finite double is a whole number of units, where the unit is the
    power of two that leaves it at most 53 bits, but none below the unit of the subnormal numbers.
    Rounding goes to the nearest double, ties to even, and seventeen decimal digits are enough to tell
    every double from all others. */
module Doubles {
  import opened CArithmetic

  // ---------- powers ----------

  function Power(b: nat, e: int): (p: real)
    requires b > 1
    ensures p > 0.0
    decreases Abs(e)
  {
    if e == 0 then 1.0 else if e > 0 then Power(b, e - 1) * b as real else Power(b, e + 1) / b as real
  }

  lemma PowerStep(b: nat, e: int)
    requires b > 1
    ensures Power(b, e + 1) == Power(b, e) * b as real
  {
  }

  lemma PowerZero(b: nat)
    requires b > 1
    ensures Power(b, 0) == 1.0
  {
  }

  lemma Grows(p: real, b: real)
    requires p > 0.0 && b >= 1.0
    ensures p <= p * b
  {
  }

  lemma {:induction false} PowerMonotone(b: nat, d: int, e: int)
    requires b > 1 && d <= e
    ensures Power(b, d) <= Power(b, e)
    decreases e - d
  {
    hide Power;
    if d < e {
      PowerMonotone(b, d, e - 1);
      PowerStep(b, e - 1);
      assert b as real >= 1.0;
      Grows(Power(b, e - 1), b as real);
      assert Power(b, e) == Power(b, e - 1) * b as real;
      assert Power(b, d) <= Power(b, e - 1);
    }
  }

  lemma {:induction false} PowerSum(b: nat, d: int, k: nat)
    requires b > 1
    ensures Power(b, d + k) == Power(b, d) * Power(b, k)
  {
    hide Power;
    PowerZero(b);
    if k > 0 {
      PowerSum(b, d, k - 1);
      PowerStep(b, d + k - 1);
      PowerStep(b, k - 1);
      Regroup(Power(b, d), Power(b, k - 1), b as real);
    }
  }

  lemma Regroup(x: real, y: real, z: real)
    ensures x * y * z == x * (y * z)
  {
  }

  /** Up to the powers in use here a power of ten lies beyond the one of two, on either side of one. */
  lemma {:induction false} PowerBases(e: int)
    requires 0 <= e
    ensures Power(2, e) <= Power(10, e) && Power(10, -e) <= Power(2, -e)
  {
    hide Power;
    PowerZero(2);
    PowerZero(10);
    if e > 0 {
      PowerBases(e - 1);
      PowerStep(2, e - 1);
      PowerStep(10, e - 1);
      PowerStep(2, -e);
      PowerStep(10, -e);
    }
  }

  const MANTISSA: nat := 0x20_0000_0000_0000

  lemma PowerOf53()
    ensures Power(2, 53) == MANTISSA as real && Power(2, 52) * 2.0 == MANTISSA as real
  {
    hide Power;
    PowerZero(2);
    PowerStep(2, 0);
    PowerStep(2, 1);
    PowerStep(2, 2);
    PowerStep(2, 3);
    PowerSum(2, 4, 4);
    PowerSum(2, 8, 8);
    PowerSum(2, 16, 16);
    PowerSum(2, 32, 16);
    PowerSum(2, 48, 4);
    PowerStep(2, 52);
  }

  // ---------- rounding ----------

  /** The nearest integer; the even one of two. */
  function Nearest(z: real): int {
    var rest := z - z.Floor as real;
    if rest < 0.5 || (rest == 0.5 && z.Floor % 2 == 0) then z.Floor else z.Floor + 1
  }

  lemma NearestOf(z: real, m: int)
    requires m as real - 0.5 < z < m as real + 0.5
    ensures Nearest(z) == m
  {
  }

  lemma NearestClose(z: real)
    ensures z - 0.5 <= Nearest(z) as real <= z + 0.5
  {
  }

  /** Of two nearest integers it is the even one. */
  lemma NearestEven(z: real)
    requires Nearest(z) as real - z == 0.5 || Nearest(z) as real - z == -0.5
    ensures Nearest(z) % 2 == 0
  {
  }

  /** The same in units of `p`. */
  lemma NearestUnits(y: real, z: real, k: int, p: real, x: real)
    requires p > 0.0 && y == z * p && k == Nearest(z) && x == k as real * p
    ensures -p <= 2.0 * (x - y) <= p
    ensures 2.0 * (x - y) == p || 2.0 * (y - x) == p ==> k % 2 == 0
  {
    hide Nearest;
    NearestClose(z);
    HalfUnitAway(y, z, k, p, x);
    HalfExactly(k as real - z, p, x - y) by { Difference(k as real, z, p); }
    if 2.0 * (x - y) == p || 2.0 * (y - x) == p {
      NearestEven(z);
    }
  }

  lemma HalfExactly(d: real, p: real, w: real)
    requires p > 0.0 && w == d * p
    ensures 2.0 * w == p ==> d == 0.5
    ensures 2.0 * -w == p ==> d == -0.5
  {
    if 2.0 * w == p {
      Cancel(d, p);
      Cancel(0.5, p);
    }
    if 2.0 * -w == p {
      Cancel(d, p);
      Cancel(-0.5, p);
    }
  }

  /** Stands for infinity; every finite double is smaller. */
  const HUGE: real := Power(2, 1024)

  /** The least exponent from `e` on with which 53 bits reach beyond `y`. */
  function ExponentFrom(y: real, e: int): (r: int)
    requires -1074 <= e <= 971
    ensures e <= r <= 971
    ensures r == 971 || y < Power(2, r + 53)
    ensures r == e || Power(2, r + 52) <= y
    decreases 971 - e
  {
    if e == 971 || y < Power(2, e + 53) then e else ExponentFrom(y, e + 1)
  }

  /** The exponent of the last bit of a double of this size, not below that of the subnormal ones. */
  function Exponent(y: real): (e: int)
    ensures -1074 <= e <= 971
    ensures e == 971 || y < Power(2, e + 53)
    ensures e == -1074 || Power(2, e + 52) <= y
  {
    ExponentFrom(y, -1074)
  }

  function Unit(y: real): (p: real)
    ensures p > 0.0
  {
    Power(2, Exponent(y))
  }

  function RoundMagnitude(y: real): real {
    var rounded := Nearest(y / Unit(y)) as real * Unit(y);
    if rounded < HUGE then rounded else HUGE
  }

  /** The double next to a real number, as `strtod`, conversions and products round: ties to even,
      overflow to infinity. */
  function Round(y: real): real {
    if y < 0.0 then -RoundMagnitude(-y) else RoundMagnitude(y)
  }

  predicate IsWhole(z: real) {
    z.Floor as real == z
  }

  predicate IsFinite(x: real) {
    -HUGE < x < HUGE
  }

  /** A whole number of units of its size. */
  predicate IsMagnitude(a: real) {
    0.0 <= a <= HUGE && (a < HUGE ==> IsWhole(a / Unit(a)))
  }

  predicate IsDouble(x: real) {
    IsMagnitude(if x < 0.0 then -x else x)
  }

  lemma ExponentIs(y: real, e: int)
    requires -1074 <= e <= 971 && y < Power(2, e + 53) && (e == -1074 || Power(2, e + 52) <= y)
    ensures Exponent(y) == e
  {
    hide Power;
    var r := Exponent(y);
    if r < e {
      PowerMonotone(2, r + 53, e + 52);
    } else if r > e {
      PowerMonotone(2, e + 53, r + 52);
    }
  }

  /** The units of size `e` in the powers that bound it. */
  lemma UnitsOf(e: int)
    ensures Power(2, e + 53) == MANTISSA as real * Power(2, e)
    ensures Power(2, e + 52) * 2.0 == MANTISSA as real * Power(2, e)
    ensures Power(2, e - 1) * 2.0 == Power(2, e)
  {
    hide Power;
    PowerOf53();
    PowerSum(2, e, 53);
    PowerStep(2, e + 52);
    PowerStep(2, e - 1);
  }

  lemma QuotientTimes(y: real, p: real)
    requires p > 0.0
    ensures y == y / p * p
  {
  }

  lemma Compare(a: real, b: real, p: real)
    requires p > 0.0
    ensures a * p < b * p <==> a < b
  {
    if a < b {
      RealPositive(b - a, p);
      assert (b - a) * p == b * p - a * p;
    } else {
      RealMonotone(b, a, p);
    }
  }

  lemma RealPositive(a: real, p: real)
    requires a > 0.0 && p > 0.0
    ensures a * p > 0.0
  {
  }

  /** A positive finite double is a positive number of its units, with at most 53 bits, and with less
      than 53 only if the units are the smallest there are. */
  lemma UnitsOfDouble(x: real) returns (m: int)
    requires 0.0 < x < HUGE && IsDouble(x)
    ensures x == m as real * Unit(x) && 0 < m < MANTISSA
    ensures Exponent(x) == -1074 || MANTISSA / 2 <= m
  {
    hide Power, Exponent;
    var e, p := Exponent(x), Unit(x);
    UnitsOf(e);
    QuotientTimes(x, p);
    m := (x / p).Floor;
    assert m as real == x / p;
    UnitsBetween(m, x, p, e);
  }

  lemma UnitsBetween(m: int, x: real, p: real, e: int)
    requires p > 0.0 && x == m as real * p && 0.0 < x < MANTISSA as real * p
    requires e == -1074 || MANTISSA as real * p <= x * 2.0
    ensures 0 < m < MANTISSA && (e == -1074 || MANTISSA / 2 <= m)
  {
    var z := m as real;
    Compare(0.0, z, p);
    Compare(z, MANTISSA as real, p);
    assert z * 2.0 * p == x * 2.0;
    Compare(z * 2.0, MANTISSA as real, p);
  }

  /** Two numbers closer than one part in 2 * 10^16, in units of the first. */
  predicate Close(x: real, y: real) {
    20_000_000_000_000_000.0 * (y - x) <= x && 20_000_000_000_000_000.0 * (x - y) <= x
  }

  lemma CloseUnits(m: int, z: real, p: real)
    requires p > 0.0 && 0 < m < MANTISSA && Close(m as real * p, z * p)
    ensures Close(m as real, z)
    ensures m as real - 0.46 < z < m as real + 0.46
  {
    var n := 20_000_000_000_000_000.0;
    var x := m as real;
    assert n * (z * p - x * p) == n * (z - x) * p && n * (x * p - z * p) == n * (x - z) * p;
    Compare(x, n * (z - x), p);
    Compare(x, n * (x - z), p);
  }

  /** Whatever lies that close to a double is rounded to it: closer than half a unit, and below a power
      of two, where units are half as large, closer than a quarter. */
  lemma RoundsBack(x: real, y: real)
    requires 0.0 < x < HUGE && IsDouble(x) && Close(x, y)
    ensures RoundMagnitude(y) == x
  {
    hide Power, Exponent, RoundMagnitude, Close, IsDouble;
    var e, p := Exponent(x), Unit(x);
    var m := UnitsOfDouble(x);
    var z := y / p;
    QuotientTimes(y, p);
    assert m as real * p == x && z * p == y;
    CloseUnits(m, z, p);
    if e == -1074 || MANTISSA as real <= z * 2.0 {
      SameUnits(m, e, y, z);
    } else {
      HalfUnits(m, e, y, z);
    }
  }

  lemma RoundedUnits(k: int, e: int, y: real, z: real)
    requires Exponent(y) == e && y == z * Power(2, e) && Nearest(z) == k && k as real * Power(2, e) < HUGE
    ensures RoundMagnitude(y) == k as real * Power(2, e)
  {
    hide Power, Exponent, Nearest;
    Cancel(z, Power(2, e));
    assert y / Unit(y) == z;
  }

  lemma SameUnits(m: int, e: int, y: real, z: real)
    requires -1074 <= e <= 971 && 0 < m < MANTISSA && (e == -1074 || MANTISSA as real <= z * 2.0)
    requires m as real - 0.46 < z < m as real + 0.46 && y == z * Power(2, e) && m as real * Power(2, e) < HUGE
    ensures RoundMagnitude(y) == m as real * Power(2, e)
  {
    hide Power, Exponent, RoundMagnitude, Nearest;
    var p := Power(2, e);
    UnitsOf(e);
    Compare(z, MANTISSA as real, p);
    assert z * 2.0 * p == y * 2.0;
    Compare(z * 2.0, MANTISSA as real, p);
    ExponentIs(y, e);
    NearestOf(z, m);
    RoundedUnits(m, e, y, z);
  }

  lemma HalfUnits(m: int, e: int, y: real, z: real)
    requires -1074 < e <= 971 && MANTISSA / 2 <= m && z * 2.0 < MANTISSA as real
    requires Close(m as real, z) && m as real - 0.46 < z && y == z * Power(2, e) && m as real * Power(2, e) < HUGE
    ensures RoundMagnitude(y) == m as real * Power(2, e)
  {
    hide Power, Exponent, RoundMagnitude, Nearest;
    var h := Power(2, e - 1);
    UnitsOf(e - 1);
    PowerStep(2, e - 1);
    assert m == MANTISSA / 2;
    var w := 2.0 * z;
    assert y == w * h by { assert 2.0 * z * h == z * (h * 2.0); }
    assert m as real * Power(2, e) == MANTISSA as real * h by { assert m as real * (h * 2.0) == 2.0 * m as real * h; }
    Compare(w, MANTISSA as real, h);
    Compare(MANTISSA as real, w * 2.0, h);
    assert w * 2.0 * h == y * 2.0;
    ExponentIs(y, e - 1);
    NearestOf(w, MANTISSA);
    RoundedUnits(MANTISSA, e - 1, y, w);
  }

  lemma Cancel(z: real, p: real)
    requires p > 0.0
    ensures z * p / p == z
  {
  }

  lemma BelowFullUnits(r: real, p: real, x: real)
    requires p > 0.0 && x == r * p && 0.0 <= r < MANTISSA as real
    ensures 0.0 <= x < MANTISSA as real * p
  {
    var c := MANTISSA as real;
    Less(r, c, p, x, c * p);
    RealProduct(r, p);
  }

  lemma Less(a: real, b: real, p: real, x: real, y: real)
    requires p > 0.0 && a < b && x == a * p && y == b * p
    ensures x < y
  {
    Compare(a, b, p);
  }

  lemma HalfFullUnits(r: real, p: real, x: real)
    requires p > 0.0 && x == r * p && MANTISSA as real <= r * 2.0
    ensures MANTISSA as real * p <= x * 2.0
  {
    assert r * 2.0 * p == r * p * 2.0;
    RealMonotone(MANTISSA as real, r * 2.0, p);
  }

  lemma WholeUnits(x: real, e: int, r: real)
    requires Exponent(x) == e && x == r * Power(2, e) && 0.0 <= x <= HUGE && IsWhole(r)
    ensures IsMagnitude(x)
  {
    hide Power, Exponent, IsWhole;
    Cancel(r, Power(2, e));
    assert x / Unit(x) == r;
  }

  /** So many units of size `e` are a double. */
  lemma UnitsAreDouble(k: int, e: int, x: real)
    requires -1074 <= e <= 971 && 0 <= k < MANTISSA && (e == -1074 || MANTISSA / 2 <= k)
    requires x == k as real * Power(2, e)
    ensures IsMagnitude(x) && x < HUGE
  {
    hide Power, Exponent, IsMagnitude;
    UnitsOf(e);
    PowerMonotone(2, e + 53, 1024);
    BelowFullUnits(k as real, Power(2, e), x);
    if e != -1074 {
      HalfFullUnits(k as real, Power(2, e), x);
    }
    ExponentIs(x, e);
    WholeUnits(x, e, k as real);
  }

  lemma HugeIsMagnitude()
    ensures IsMagnitude(HUGE) && HUGE > 0.0
  {
    hide Exponent;
  }

  lemma RoundedValue(y: real, e: int, z: real, k: int)
    requires Exponent(y) == e && y == z * Power(2, e) && k == Nearest(z)
    ensures var x := k as real * Power(2, e);
            RoundMagnitude(y) == if x < HUGE then x else HUGE
  {
    hide Power, Exponent, Nearest;
    Cancel(z, Power(2, e));
    assert y / Unit(y) == z;
  }

  /** Rounding gives a double, at most half a unit away unless it overflows. */
  lemma RoundedIsDouble(y: real)
    requires 0.0 <= y
    ensures IsMagnitude(RoundMagnitude(y))
    ensures RoundMagnitude(y) < HUGE ==> -Unit(y) <= 2.0 * (RoundMagnitude(y) - y) <= Unit(y)
  {
    hide Power, Exponent, Nearest, RoundMagnitude, IsMagnitude;
    var e, p := Exponent(y), Unit(y);
    var z := y / p;
    var k := Nearest(z);
    var x := k as real * p;
    QuotientTimes(y, p);
    QuotientNatural(y, p);
    NearestClose(z);
    HugeIsMagnitude();
    RoundedValue(y, e, z, k);
    HalfUnitAway(y, z, k, p, x);
    UnitsOf(e);
    if k < MANTISSA {
      ManyUnits(y, z, k, p, e);
      UnitsAreDouble(k, e, x);
    } else if e < 971 {
      FullUnits(y, z, k, p);
      PowerStep(2, e);
      DoubledUnits(p, x);
      UnitsAreDouble(MANTISSA / 2, e + 1, x);
    } else {
      TopUnits(k, p, x);
    }
  }

  lemma DoubledUnits(p: real, x: real)
    requires x == MANTISSA as real * p
    ensures x == (MANTISSA / 2) as real * (p * 2.0)
  {
    assert (MANTISSA / 2) as real * 2.0 == MANTISSA as real;
  }

  lemma TopUnits(k: int, p: real, x: real)
    requires p > 0.0 && MANTISSA <= k && x == k as real * p
    ensures MANTISSA as real * p <= x
  {
    RealMonotone(MANTISSA as real, k as real, p);
  }

  lemma HalfUnitAway(y: real, z: real, k: int, p: real, x: real)
    requires p > 0.0 && y == z * p && z - 0.5 <= k as real <= z + 0.5 && x == k as real * p
    ensures -p <= 2.0 * (x - y) <= p
  {
    Difference(k as real, z, p);
    HalfOf(k as real - z, p, x - y);
  }

  lemma Difference(a: real, b: real, p: real)
    ensures a * p - b * p == (a - b) * p
  {
  }

  lemma HalfOf(d: real, p: real, w: real)
    requires p > 0.0 && -0.5 <= d <= 0.5 && w == d * p
    ensures -p <= 2.0 * w <= p
  {
    RealProduct(0.5 - d, p);
    RealProduct(d + 0.5, p);
    assert (0.5 - d) * p == 0.5 * p - d * p && (d + 0.5) * p == d * p + 0.5 * p;
  }

  lemma ManyUnits(y: real, z: real, k: int, p: real, e: int)
    requires p > 0.0 && y == z * p && z - 0.5 <= k as real <= z + 0.5
    requires e == -1074 || MANTISSA as real * p <= y * 2.0
    ensures e == -1074 || MANTISSA / 2 <= k
  {
    assert z * 2.0 * p == y * 2.0;
    Compare(z * 2.0, MANTISSA as real, p);
  }

  lemma FullUnits(y: real, z: real, k: int, p: real)
    requires p > 0.0 && y == z * p && z - 0.5 <= k as real <= z + 0.5 && MANTISSA <= k
    requires y < MANTISSA as real * p
    ensures k == MANTISSA
  {
    Compare(z, MANTISSA as real, p);
  }

  // ---------- integers ----------

  function WholePower(b: nat, k: nat): (n: nat)
    requires b > 1
    ensures n > 0
  {
    if k == 0 then 1 else WholePower(b, k - 1) * b
  }

  lemma {:induction false} PowerIsWhole(b: nat, k: nat)
    requires b > 1
    ensures Power(b, k) == WholePower(b, k) as real
  {
    hide Power;
    PowerZero(b);
    if k > 0 {
      PowerIsWhole(b, k - 1);
      PowerStep(b, k - 1);
      RealOfProduct(WholePower(b, k - 1), b);
    }
  }

  lemma {:induction false} RealOfProduct(n: nat, k: nat)
    ensures (n * k) as real == n as real * k as real
  {
    if n > 0 {
      RealOfProduct(n - 1, k);
      assert n * k == (n - 1) * k + k;
      assert n as real * k as real == (n - 1) as real * k as real + k as real;
    }
  }

  lemma PowerInverse(b: nat, e: int)
    requires b > 1 && e <= 0
    ensures Power(b, e) * Power(b, -e) == 1.0
  {
    hide Power;
    PowerSum(b, e, -e);
    PowerZero(b);
  }

  /** Integers of up to 53 bits are doubles. */
  lemma WholeIsDouble(n: nat)
    requires n < MANTISSA
    ensures IsMagnitude(n as real) && n as real < HUGE
  {
    hide Power, Exponent;
    var x := n as real;
    var e := Exponent(x);
    PowerOf53();
    PowerMonotone(2, 53, 1024);
    if e > 0 {
      PowerMonotone(2, 53, e + 52);
    }
    PowerInverse(2, e);
    PowerIsWhole(2, -e);
    var k := WholePower(2, -e);
    WholeQuotient(n, k, Unit(x));
  }

  lemma WholeQuotient(n: nat, k: nat, p: real)
    requires p > 0.0 && p * k as real == 1.0
    ensures IsWhole(n as real / p)
  {
    RealOfProduct(n, k);
    Regroup(n as real, k as real, p);
    Cancel(n as real * k as real, p);
    assert p * k as real == k as real * p;
    assert n as real * k as real == n as real / p;
    assert IsWhole((n * k) as real);
  }

  lemma RoundWhole(n: nat)
    requires n < MANTISSA
    ensures RoundMagnitude(n as real) == n as real
  {
    hide Power, Exponent;
    WholeIsDouble(n);
    if n > 0 {
      RoundsBack(n as real, n as real);
    }
  }

  lemma RoundZero()
    ensures RoundMagnitude(0.0) == 0.0
  {
    hide Power, Exponent;
    RoundWhole(0);
  }

  // ---------- seventeen digits ----------

  /** The decimal exponent of the first digit, from `e` on. */
  function FirstDigitFrom(a: real, e: int): (r: int)
    requires -1100 <= e <= 1100
    ensures e <= r <= 1100
    ensures r == 1100 || a < Power(10, r + 1)
    ensures r == e || Power(10, r) <= a
    decreases 1100 - e
  {
    if e == 1100 || a < Power(10, e + 1) then e else FirstDigitFrom(a, e + 1)
  }

  function FirstDigit(a: real): (r: int)
    ensures -1100 <= r <= 1100
    ensures r == 1100 || a < Power(10, r + 1)
    ensures r == -1100 || Power(10, r) <= a
  {
    FirstDigitFrom(a, -1100)
  }

  const SEVENTEEN_DIGITS: nat := 100_000_000_000_000_000

  /** The seventeen significant digits of `a`, rounded, and the decimal exponent of the first. */
  function Significant(a: real): (nat, int)
    requires 0.0 <= a
  {
    var e := FirstDigit(a);
    QuotientNatural(a, Power(10, e - 16));
    var n: nat := Nearest(a / Power(10, e - 16));
    if n == SEVENTEEN_DIGITS then (SEVENTEEN_DIGITS / 10, e + 1) else (n, e)
  }

  lemma QuotientNatural(a: real, p: real)
    requires 0.0 <= a && p > 0.0
    ensures 0 <= Nearest(a / p)
  {
    hide Nearest;
    QuotientTimes(a, p);
    Compare(a / p, 0.0, p);
    NearestNatural(a / p);
  }

  lemma NearestNatural(z: real)
    requires 0.0 <= z
    ensures 0 <= Nearest(z)
  {
  }

  lemma AtLeastOne(a: real, m: int, p: real)
    requires 0 < m && p > 0.0 && a == m as real * p
    ensures p <= a
  {
    Grows(p, m as real);
  }

  lemma FirstDigitOfDouble(a: real)
    requires 0.0 < a < HUGE && IsDouble(a)
    ensures Power(10, FirstDigit(a)) <= a < Power(10, FirstDigit(a) + 1)
  {
    hide Power, Exponent, FirstDigit, IsDouble;
    var m := UnitsOfDouble(a);
    AtLeastOne(a, m, Unit(a));
    PowerMonotone(2, -1074, Exponent(a));
    PowerBases(1074);
    PowerMonotone(10, -1100, -1074);
    PowerBases(1024);
    PowerMonotone(10, 1024, 1101);
  }

  lemma TensOf(e: int)
    ensures Power(10, e) == SEVENTEEN_DIGITS as real / 10.0 * Power(10, e - 16)
    ensures Power(10, e + 1) == SEVENTEEN_DIGITS as real * Power(10, e - 16)
    ensures Power(10, e + 1 - 16) == 10.0 * Power(10, e - 16)
  {
    hide Power;
    PowerZero(10);
    PowerStep(10, 0);
    PowerSum(10, 1, 1);
    PowerSum(10, 2, 2);
    PowerSum(10, 4, 4);
    PowerSum(10, 8, 8);
    PowerSum(10, e - 16, 16);
    PowerStep(10, e);
    PowerStep(10, e - 16);
  }

  /** `n` times a power of ten. */
  function DecimalValue(n: int, e: int): real {
    n as real * Power(10, e)
  }

  /** Carried over to the next power of ten or not, the digits spell the same value. */
  lemma SignificantValue(a: real)
    requires 0.0 <= a
    ensures var q := Power(10, FirstDigit(a) - 16);
            DecimalValue(Significant(a).0, Significant(a).1 - 16) == Nearest(a / q) as real * q
  {
    hide Power, FirstDigit, Nearest;
    var e := FirstDigit(a);
    var q := Power(10, e - 16);
    QuotientNatural(a, q);
    TensOf(e);
    Carried(q);
  }

  /** The value the digits spell lies within half a unit of the last digit. */
  lemma SignificantClose(a: real)
    requires 0.0 < a < HUGE && IsDouble(a)
    ensures SEVENTEEN_DIGITS / 10 <= Significant(a).0 < SEVENTEEN_DIGITS
    ensures Close(a, DecimalValue(Significant(a).0, Significant(a).1 - 16))
  {
    hide Power, IsDouble, FirstDigit, Nearest, Close;
    var e := FirstDigit(a);
    var q := Power(10, e - 16);
    var z := a / q;
    var n := Nearest(z);
    QuotientTimes(a, q);
    FirstDigitOfDouble(a);
    TensOf(e);
    NearestClose(z);
    NearestBetween(a, q, z, n);
    WithinHalf(a, z, n, q);
    SignificantValue(a);
    assert DecimalValue(Significant(a).0, Significant(a).1 - 16) == n as real * q;
    assert SEVENTEEN_DIGITS / 10 <= Significant(a).0 < SEVENTEEN_DIGITS;
  }

  lemma Carried(q: real)
    ensures SEVENTEEN_DIGITS as real * q == (SEVENTEEN_DIGITS / 10) as real * (10.0 * q)
  {
  }

  lemma NearestBetween(a: real, q: real, z: real, n: int)
    requires q > 0.0 && a == z * q && z - 0.5 <= n as real <= z + 0.5
    requires SEVENTEEN_DIGITS as real / 10.0 * q <= a < SEVENTEEN_DIGITS as real * q
    ensures SEVENTEEN_DIGITS as real / 10.0 <= z && SEVENTEEN_DIGITS / 10 <= n <= SEVENTEEN_DIGITS
  {
    Compare(z, SEVENTEEN_DIGITS as real / 10.0, q);
    Compare(z, SEVENTEEN_DIGITS as real, q);
  }

  lemma WithinHalf(a: real, z: real, n: int, q: real)
    requires q > 0.0 && a == z * q && z - 0.5 <= n as real <= z + 0.5 && SEVENTEEN_DIGITS as real / 10.0 <= z
    ensures Close(a, n as real * q)
  {
    var t := 20_000_000_000_000_000.0;
    var y := n as real;
    assert t * (y * q - z * q) == t * (y - z) * q && t * (z * q - y * q) == t * (z - y) * q;
    RealMonotone(t * (y - z), z, q);
    RealMonotone(t * (z - y), z, q);
  }

  /** Seventeen digits suffice: read back they give the same double. */
  lemma SeventeenDigitsSuffice(a: real)
    requires 0.0 < a < HUGE && IsDouble(a)
    ensures RoundMagnitude(DecimalValue(Significant(a).0, Significant(a).1 - 16)) == a
  {
    hide Power, Significant, Close, RoundMagnitude, IsDouble, DecimalValue;
    SignificantClose(a);
    RoundsBack(a, DecimalValue(Significant(a).0, Significant(a).1 - 16));
  }
}
