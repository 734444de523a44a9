/** Rounding to doubles keeps the order, leaves doubles alone, and keeps whole numbers whole. The order is
    what bounds a rounded product by the doubles around the exact one. */
module Rounding {
  import opened CArithmetic
  import D = Doubles

  lemma RoundOfDouble(x: real)
    requires 0.0 <= x < D.HUGE && D.IsDouble(x)
    ensures D.Round(x) == x
  {
    hide D.Power, D.Exponent, D.RoundMagnitude, D.IsDouble;
    if x > 0.0 {
      D.RoundsBack(x, x);
    } else {
      D.RoundedValue(0.0, D.Exponent(0.0), 0.0, 0);
      D.HugeIsMagnitude();
    }
  }

  /** Integers of up to 53 bits are doubles. */
  lemma WholeIsDouble(n: nat)
    requires n < D.MANTISSA
    ensures D.IsDouble(n as real) && n as real < D.HUGE && D.Round(n as real) == n as real
  {
    hide D.Power, D.IsMagnitude;
    D.WholeIsDouble(n);
    RoundOfDouble(n as real);
  }

  /** So are they divided by a power of two, as long as it is not beyond the smallest double. */
  lemma BinaryIsDouble(n: nat, k: int, x: real)
    requires n < D.MANTISSA && 0 <= k <= 1074 && x == n as real * D.Power(2, -k)
    ensures D.IsDouble(x) && 0.0 <= x < D.HUGE
  {
    hide D.Power, D.Exponent, D.IsMagnitude, D.WholePower, D.IsWhole;
    BelowUnits(n, k, x);
    var j: nat := -k - D.Exponent(x);
    var r := (n * D.WholePower(2, j)) as real;
    D.PowerSum(2, D.Exponent(x), j);
    D.PowerIsWhole(2, j);
    D.RealOfProduct(n, D.WholePower(2, j));
    WholeReal(n * D.WholePower(2, j), r);
    Regrouped(n as real, D.WholePower(2, j) as real, D.Power(2, D.Exponent(x)), D.Power(2, -k), r, x);
    D.WholeUnits(x, D.Exponent(x), r);
  }

  lemma Regrouped(n: real, q: real, u: real, p: real, r: real, x: real)
    requires p == u * q && x == n * p && r == n * q
    ensures x == r * u
  {
    assert n * q * u == n * (u * q);
  }

  lemma BelowUnits(n: nat, k: int, x: real)
    requires n < D.MANTISSA && 0 <= k <= 1074 && x == n as real * D.Power(2, -k)
    ensures D.Exponent(x) <= -k && 0.0 <= x < D.HUGE
  {
    hide D.Power, D.Exponent;
    D.UnitsOf(-k);
    RealProduct(n as real, D.Power(2, -k));
    D.Less(n as real, D.MANTISSA as real, D.Power(2, -k), x, D.Power(2, 53 - k));
    D.PowerMonotone(2, 53 - k, 1024);
    if -k < D.Exponent(x) {
      D.PowerMonotone(2, 53 - k, D.Exponent(x) + 52);
    }
  }

  lemma ExponentMonotone(a: real, b: real)
    requires 0.0 <= a <= b
    ensures D.Exponent(a) <= D.Exponent(b)
  {
    hide D.Power, D.Exponent;
    if D.Exponent(b) < D.Exponent(a) {
      D.PowerMonotone(2, D.Exponent(b) + 53, D.Exponent(a) + 52);
    }
  }

  lemma QuotientMonotone(a: real, b: real, p: real)
    requires a <= b && p > 0.0
    ensures a / p <= b / p && D.Nearest(a / p) <= D.Nearest(b / p)
  {
    hide D.Nearest;
    D.QuotientTimes(a, p);
    D.QuotientTimes(b, p);
    D.Compare(b / p, a / p, p);
    NearestMonotone(a / p, b / p);
  }

  lemma NearestMonotone(y: real, z: real)
    requires y <= z
    ensures D.Nearest(y) <= D.Nearest(z)
  {
  }

  /** The units next to `y`, before overflow is looked at. */
  function Rounded(y: real): real {
    D.Nearest(y / D.Unit(y)) as real * D.Unit(y)
  }

  /** A number below a power of two is not rounded beyond it. */
  lemma RoundedBelow(y: real)
    requires D.Exponent(y) < 971
    ensures Rounded(y) <= D.Power(2, D.Exponent(y) + 53)
  {
    hide D.Power, D.Exponent, D.Nearest;
    var p := D.Unit(y);
    D.UnitsOf(D.Exponent(y));
    D.QuotientTimes(y, p);
    FewerUnits(y, y / p, p, D.MANTISSA as real);
    NearestAtMost(y / p, D.MANTISSA);
    RealMonotone(D.Nearest(y / p) as real, D.MANTISSA as real, p);
  }

  lemma FewerUnits(y: real, z: real, p: real, m: real)
    requires p > 0.0 && y == z * p && y < m * p
    ensures z < m
  {
    D.Compare(z, m, p);
  }

  lemma NearestAtMost(z: real, m: int)
    requires z < m as real
    ensures D.Nearest(z) as real <= m as real
  {
    hide D.Nearest;
    D.NearestClose(z);
    assert m < D.Nearest(z) ==> (m + 1) as real <= D.Nearest(z) as real;
  }

  /** A number from a power of two on is not rounded below it. */
  lemma RoundedAbove(y: real)
    requires -1074 < D.Exponent(y)
    ensures D.Power(2, D.Exponent(y) + 52) <= Rounded(y)
  {
    hide D.Power, D.Exponent, D.Nearest;
    var p := D.Unit(y);
    D.UnitsOf(D.Exponent(y));
    D.QuotientTimes(y, p);
    D.ManyUnits(y, y / p, D.Nearest(y / p), p, D.Exponent(y)) by { D.NearestClose(y / p); }
    RealMonotone((D.MANTISSA / 2) as real, D.Nearest(y / p) as real, p);
    D.DoubledUnits(p / 2.0, D.MANTISSA as real * (p / 2.0));
  }

  lemma RoundedMonotone(a: real, b: real)
    requires 0.0 <= a <= b
    ensures Rounded(a) <= Rounded(b)
  {
    hide D.Power, D.Exponent, D.Nearest, Rounded;
    ExponentMonotone(a, b);
    if D.Exponent(a) == D.Exponent(b) {
      SameUnit(a, b);
    } else {
      RoundedBelow(a);
      RoundedAbove(b);
      D.PowerMonotone(2, D.Exponent(a) + 53, D.Exponent(b) + 52);
    }
  }

  lemma SameUnit(a: real, b: real)
    requires a <= b && D.Exponent(a) == D.Exponent(b)
    ensures Rounded(a) <= Rounded(b)
  {
    hide D.Power, D.Exponent, D.Nearest;
    var p := D.Unit(a);
    QuotientMonotone(a, b, p);
    RealMonotone(D.Nearest(a / p) as real, D.Nearest(b / p) as real, p);
  }

  /** Rounding keeps the order of two numbers. */
  lemma RoundMonotone(a: real, b: real)
    requires 0.0 <= a <= b
    ensures D.Round(a) <= D.Round(b)
  {
    hide D.Power, D.Exponent, D.Nearest;
    RoundedMonotone(a, b);
  }

  /** Nothing is rounded across a double. */
  lemma RoundBetween(low: real, y: real, high: real)
    requires 0.0 <= low <= y <= high < D.HUGE && D.IsDouble(low) && D.IsDouble(high)
    ensures low <= D.Round(y) <= high
  {
    hide D.Round, D.IsDouble, D.Power;
    RoundOfDouble(low);
    RoundOfDouble(high);
    RoundMonotone(low, y);
    RoundMonotone(y, high);
  }

  /** A whole number is rounded to a whole number. */
  lemma RoundWhole(n: nat)
    requires n as real < D.HUGE
    ensures 0.0 <= D.Round(n as real) && D.IsDouble(D.Round(n as real))
    ensures D.Round(n as real) < D.HUGE ==> D.IsWhole(D.Round(n as real))
  {
    hide D.Power, D.Exponent, D.Nearest, D.IsMagnitude;
    var x := n as real;
    D.RoundedIsDouble(x);
    if n < D.MANTISSA {
      D.RoundWhole(n);
    } else {
      WideUnits(x);
      WholeMultiple(x);
    }
  }

  lemma WideUnits(x: real)
    requires D.MANTISSA as real <= x
    ensures D.Exponent(x) >= 0
  {
    hide D.Power, D.Exponent;
    D.PowerOf53();
    if D.Exponent(x) < 0 {
      D.PowerMonotone(2, D.Exponent(x) + 53, 53);
    }
  }

  lemma WholeMultiple(x: real)
    requires 0.0 <= x && D.Exponent(x) >= 0
    ensures D.IsWhole(Rounded(x))
  {
    hide D.Power, D.Exponent, D.Nearest, D.IsWhole, D.WholePower;
    var p := D.Unit(x);
    D.QuotientNatural(x, p);
    D.PowerIsWhole(2, D.Exponent(x));
    var k: nat := D.Nearest(x / p);
    TimesWhole(k, D.WholePower(2, D.Exponent(x)), p);
    assert Rounded(x) == k as real * p;
  }

  lemma TimesWhole(k: nat, n: nat, p: real)
    requires p == n as real
    ensures D.IsWhole(k as real * p)
  {
    D.RealOfProduct(k, n);
    WholeReal(k * n, k as real * p);
  }

  lemma WholeReal(n: nat, x: real)
    requires x == n as real
    ensures D.IsWhole(x)
  {
  }

  /** The double taken is a whole number of units, at most half of one away; of two it is the even one. From
      2^1024 on it is infinity. */
  lemma RoundedEven(y: real) returns (k: nat)
    requires 0.0 <= y
    ensures var unit := D.Unit(y);
            var x := k as real * unit;
            && -unit <= 2.0 * (x - y) <= unit && (2.0 * (x - y) == unit || 2.0 * (y - x) == unit ==> k % 2 == 0)
            && D.Round(y) == if x < D.Power(2, 1024) then x else D.HUGE
  {
    hide D.Power, D.Exponent, D.Nearest;
    D.QuotientNatural(y, D.Unit(y));
    D.QuotientTimes(y, D.Unit(y));
    k := D.Nearest(y / D.Unit(y));
    D.NearestUnits(y, y / D.Unit(y), k, D.Unit(y), k as real * D.Unit(y));
  }
}
