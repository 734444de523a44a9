/** The two-dimensional stride workload and its oracle. */
module Stride2D {
  import opened CArithmetic

  /** `gap1` steps of `stride` bytes, `gap2` of `stride + delta`, and again. */
  datatype Pattern = Pattern(stride: int, step: nat, first: nat, delta: int, gap1: nat, gap2: nat)

  /** Forward patterns: there is a step, and every step that is taken goes up. */
  predicate Forward(p: Pattern): (forward: bool)
    ensures forward ==> 0 < Period(p)
  {
    PositivePeriod(p);
    0 < p.gap1 + p.gap2 && (0 < p.gap1 ==> 0 < p.stride) && (0 < p.gap2 ==> 0 < p.stride + p.delta)
  }

  lemma PositivePeriod(p: Pattern)
    ensures 0 < p.gap1 + p.gap2 && (0 < p.gap1 ==> 0 < p.stride) && (0 < p.gap2 ==> 0 < p.stride + p.delta) ==>
              0 < Period(p)
  {
    if 0 < p.gap1 && 0 < p.stride { MulMonotone(1, p.gap1, p.stride); }
    if 0 < p.gap2 && 0 < p.stride + p.delta { MulMonotone(1, p.gap2, p.stride + p.delta); }
  }

  /** The same pattern with every step turned round. */
  function Reversed(p: Pattern): Pattern {
    p.(stride := -p.stride, delta := -p.delta)
  }

  lemma ReversedParts(p: Pattern, i: nat)
    ensures Period(Reversed(p)) == -Period(p) && Partial(Reversed(p), i) == -Partial(p, i)
  {
    assert i * -p.stride == -(i * p.stride) && p.gap1 * -p.stride == -(p.gap1 * p.stride);
    assert (i - p.gap1) * (-p.stride + -p.delta) == -((i - p.gap1) * (p.stride + p.delta));
    assert (-p.stride + -p.delta) * p.gap2 == -((p.stride + p.delta) * p.gap2);
  }

  /** Every step that is taken goes the same way. */
  predicate Steady(p: Pattern): (steady: bool)
    ensures steady ==> Period(p) != 0 && (Forward(p) <==> 0 < Period(p)) && (Forward(Reversed(p)) <==> Period(p) < 0)
  {
    ReversedParts(p, 0);
    Forward(p) || Forward(Reversed(p))
  }

  /** The casts to `int` lose nothing. */
  predicate FitsInt(p: Pattern): (fits: bool)
    ensures fits ==> ToInt(Period(p)) == Period(p)
  {
    ToInt(Period(p)) == Period(p) && ToInt(p.step * Period(p)) == p.step * Period(p)
  }

  function Period(p: Pattern): int {
    p.stride * p.gap1 + (p.stride + p.delta) * p.gap2
  }

  /** How far `n` lies ahead of the first access, in the direction of the pattern. */
  function Ahead(p: Pattern, n: int): int {
    if 0 < Period(p) then n else -n
  }

  /** Bytes from the start of a period to its access `i`. */
  function Partial(p: Pattern, i: nat): int {
    if i < p.gap1 then i * p.stride else p.gap1 * p.stride + (i - p.gap1) * (p.stride + p.delta)
  }

  // ---------- the oracle ----------

  /** `labs(n) % labs(period)` is one of the positions inside a period. */
  ghost predicate OnPattern(p: Pattern, n: int)
    requires Period(p) != 0
  {
    exists i :: 0 <= i < p.gap1 + p.gap2 && Matches(p, n, i)
  }

  predicate Matches(p: Pattern, n: int, i: nat)
    requires Period(p) != 0
  {
    Abs(n) % Abs(Period(p)) == Abs(Partial(p, i))
  }

  /** One byte is taken off all offsets above one before they are divided. */
  function Shifted(n: int): int {
    if n > 1 then n - 1 else n
  }

  ghost predicate OffsetAccessed(p: Pattern, offset: int)
    requires ToInt(Period(p)) != 0 && Period(p) != 0
  {
    var n := offset - p.first;
    OnPattern(p, n) && 0 <= Quotient(Shifted(n), ToInt(Period(p))) < p.step
  }

  ghost predicate OffsetPotentialPrefetch(p: Pattern, offset: int)
    requires ToInt(Period(p)) != 0 && Period(p) != 0
  {
    var n := offset - p.first;
    OnPattern(p, n) && 0 <= Quotient(n, ToInt(Period(p))) && p.step <= Quotient(n, ToInt(Period(p)))
  }

  method IsMultipleOfStride(p: Pattern, n: int) returns (found: bool)
    requires Period(p) != 0
    ensures found == OnPattern(p, n)
  {
    hide Period;
    found := false;
    for i := 0 to p.gap1 + p.gap2
      invariant found <==> exists k :: 0 <= k < i && Matches(p, n, k)
    {
      ghost var before := found;
      if i < p.gap1 {
        found := found || Abs(n) % Abs(Period(p)) == Abs(i * p.stride);
      } else {
        found := found || Abs(n) % Abs(Period(p)) == Abs(p.gap1 * p.stride + (i - p.gap1) * (p.stride + p.delta));
      }
      assert found == (before || Matches(p, n, i));
    }
  }

  method IsOffsetAccessed(p: Pattern, offset: int) returns (accessed: bool)
    requires ToInt(Period(p)) != 0 && Period(p) != 0
    ensures accessed == OffsetAccessed(p, offset)
  {
    var n := offset - p.first;
    var isMultiple := IsMultipleOfStride(p, n);
    if n > 1 {
      n := n - 1;
    }
    var offsetStep := Quotient(n, ToInt(Period(p)));
    accessed := isMultiple && offsetStep >= 0 && offsetStep < p.step;
  }

  method IsOffsetPotentialPrefetch(p: Pattern, offset: int) returns (potential: bool)
    requires ToInt(Period(p)) != 0 && Period(p) != 0
    ensures potential == OffsetPotentialPrefetch(p, offset)
  {
    var n := offset - p.first;
    var isMultiple := IsMultipleOfStride(p, n);
    var offsetStep := Quotient(n, ToInt(Period(p)));
    potential := isMultiple && offsetStep >= 0 && offsetStep >= p.step;
  }

  // ---------- the workload ----------

  /** The loads of period `k`, behind the one it starts from. */
  function PeriodLoads(p: Pattern, k: nat): (loads: seq<int>)
    ensures |loads| == p.gap1 + p.gap2
  {
    seq(p.gap1 + p.gap2, i requires 0 <= i < p.gap1 + p.gap2 => p.first + k * Period(p) + Partial(p, i + 1))
  }

  function Loads(p: Pattern, periods: nat): seq<int> {
    if periods == 0 then [p.first] else Loads(p, periods - 1) + PeriodLoads(p, periods - 1)
  }

  lemma PartialStep(p: Pattern, i: nat)
    ensures Partial(p, i + 1) == Partial(p, i) + (if i < p.gap1 then p.stride else p.stride + p.delta)
    ensures Partial(p, 0) == 0 && Partial(p, p.gap1 + p.gap2) == Period(p)
  {
    assert (i + 1) * p.stride == i * p.stride + p.stride;
    assert (i + 1 - p.gap1) * (p.stride + p.delta) == (i - p.gap1) * (p.stride + p.delta) + (p.stride + p.delta);
  }

  lemma PeriodLoadsStep(p: Pattern, k: nat, i: nat)
    requires i < p.gap1 + p.gap2
    ensures PeriodLoads(p, k)[..i + 1] == PeriodLoads(p, k)[..i] + [p.first + k * Period(p) + Partial(p, i + 1)]
  {
    hide Period, Partial;
  }

  lemma PeriodLoadsAt(p: Pattern, k: nat, i: nat)
    requires i < p.gap1 + p.gap2
    ensures PeriodLoads(p, k)[i] == p.first + k * Period(p) + Partial(p, i + 1)
  {
  }

  lemma LoadsMore(p: Pattern, k: nat)
    ensures Loads(p, k + 1) == Loads(p, k) + PeriodLoads(p, k) && Loads(p, 0) == [p.first]
  {
    hide Period, Partial, PeriodLoads;
  }

  lemma OneTimesMore(k: nat, x: int)
    ensures (k + 1) * x == k * x + x && 0 * x == 0
  {
  }

  /** Every period ends where the next one starts. */
  lemma {:induction false} LoadsEnd(p: Pattern, periods: nat)
    ensures |Loads(p, periods)| == periods * (p.gap1 + p.gap2) + 1 && Loads(p, periods)[0] == p.first
    ensures Loads(p, periods)[periods * (p.gap1 + p.gap2)] == p.first + periods * Period(p)
  {
    hide Period, Partial, PeriodLoads, Loads;
    var g := p.gap1 + p.gap2;
    if periods == 0 {
      LoadsMore(p, 0);
      OneTimesMore(0, g);
      OneTimesMore(0, Period(p));
    } else {
      var k := periods - 1;
      LoadsEnd(p, k);
      LoadsMore(p, k);
      OneTimesMore(k, g);
      OneTimesMore(k, Period(p));
      PartialStep(p, 0);
      if g > 0 {
        PeriodLoadsAt(p, k, g - 1);
      }
    }
  }

  /** Access `i` of period `k`. */
  lemma {:induction false} LoadsAt(p: Pattern, periods: nat, k: nat, i: nat)
    requires k < periods && i <= p.gap1 + p.gap2
    ensures 0 <= k * (p.gap1 + p.gap2) + i < |Loads(p, periods)|
    ensures Loads(p, periods)[k * (p.gap1 + p.gap2) + i] == p.first + k * Period(p) + Partial(p, i)
  {
    hide Period, Partial, PeriodLoads;
    var g, last := p.gap1 + p.gap2, periods - 1;
    LoadsEnd(p, last);
    MulMonotone(0, k, g);
    if k < last {
      LoadsAt(p, last, k, i);
    } else if i == 0 {
      PartialStep(p, 0);
    } else {
      PeriodLoadsAt(p, last, i - 1);
    }
  }

  /** The workload step by step: from the first access on, `gap1` strides and then `gap2` longer ones, over
      and over. */
  lemma LoadsStep(p: Pattern, periods: nat, m: nat)
    requires m < periods * (p.gap1 + p.gap2)
    ensures |Loads(p, periods)| == periods * (p.gap1 + p.gap2) + 1 && Loads(p, periods)[0] == p.first
    ensures Loads(p, periods)[m + 1] - Loads(p, periods)[m]
         == if m % (p.gap1 + p.gap2) < p.gap1 then p.stride else p.stride + p.delta
  {
    hide Period, Partial, Loads;
    var g := p.gap1 + p.gap2;
    LoadsEnd(p, periods);
    assert g > 0 by { assert g == 0 ==> periods * g == 0; }
    PeriodOf(m, g, periods);
    PartialStep(p, m % g);
    LoadsAt(p, periods, m / g, m % g);
    LoadsAt(p, periods, m / g, m % g + 1);
  }

  lemma PeriodOf(m: nat, g: nat, periods: nat)
    requires 0 < g && m < periods * g
    ensures 0 <= m / g < periods && m == m / g * g + m % g && m % g < g
  {
    DivMod(m, g);
    if periods <= m / g {
      MulMonotone(periods, m / g, g);
    }
  }

  /** Whole periods lie one behind the other, in the direction of the pattern. */
  lemma MorePeriods(p: Pattern, j: nat, k: nat)
    requires Period(p) != 0
    ensures Ahead(p, j * Period(p)) == j * Abs(Period(p)) && Ahead(p, k * Period(p)) == k * Abs(Period(p))
    ensures j * Abs(Period(p)) < k * Abs(Period(p)) <==> j < k
    ensures (j + 1) * Period(p) == j * Period(p) + Period(p)
  {
    hide Period;
    var t := Abs(Period(p));
    assert j * -Period(p) == -(j * Period(p)) && k * -Period(p) == -(k * Period(p));
    if j < k {
      MulMonotone(j + 1, k, t);
      assert (j + 1) * t == j * t + t;
    } else {
      MulMonotone(k, j, t);
    }
  }

  /** Where the loop is to stop, in bytes from its start: the length of the run, cast to `int`. */
  function RunEnd(p: Pattern): int {
    ToInt(p.step * Period(p))
  }

  /** The test of the loop after `k` periods. */
  predicate GoesOn(p: Pattern, k: nat) {
    if 0 < RunEnd(p) then k * Period(p) < RunEnd(p) else k * Period(p) > RunEnd(p)
  }

  /** The cast has not turned the run round. */
  predicate Ends(p: Pattern) {
    RunEnd(p) == 0 || (0 < RunEnd(p) && 0 < Period(p)) || (RunEnd(p) < 0 && Period(p) < 0)
  }

  /** The periods up to the end, the last one begun included. */
  function Rounds(p: Pattern): nat
    requires Ends(p)
  {
    if RunEnd(p) == 0 then 0 else (Abs(RunEnd(p)) + Abs(Period(p)) - 1) / Abs(Period(p))
  }

  lemma Ceiling(n: nat, t: nat, k: nat)
    requires 0 < t
    ensures k < (n + t - 1) / t <==> k * t < n
  {
    var r := (n + t - 1) / t;
    DivMod(n + t - 1, t);
    assert (r - 1) * t == r * t - t;
    if k < r {
      MulMonotone(k, r - 1, t);
    } else {
      MulMonotone(r, k, t);
    }
  }

  lemma GoesOnIff(p: Pattern, k: nat)
    requires Ends(p) && k <= Rounds(p)
    ensures GoesOn(p, k) <==> k < Rounds(p)
  {
    hide Period, RunEnd;
    if RunEnd(p) != 0 {
      Ceiling(Abs(RunEnd(p)), Abs(Period(p)), k);
      assert k * -Period(p) == -(k * Period(p));
    } else {
      assert 0 * Period(p) == 0;
    }
  }

  lemma NeverEnds(p: Pattern, k: nat)
    requires !Ends(p)
    ensures GoesOn(p, k)
  {
    hide Period;
    assert Period(p) == 0 ==> p.step * Period(p) == 0;
    if Period(p) < 0 {
      MulMonotone(0, k, -Period(p));
      assert k * -Period(p) == -(k * Period(p));
    } else {
      MulMonotone(0, k, Period(p));
    }
  }

  /** The workload comes to an end if and only if the cast has not turned the run round. */
  lemma RunEndsIff(p: Pattern)
    ensures Ends(p) <==> exists k: nat :: !GoesOn(p, k)
  {
    hide GoesOn, Ends;
    if Ends(p) {
      GoesOnIff(p, Rounds(p));
    } else {
      forall k: nat
        ensures GoesOn(p, k)
      {
        NeverEnds(p, k);
      }
    }
  }

  /** A run that fits goes through all its periods; if the steps cancel out, there is none. */
  lemma FittingRun(p: Pattern)
    requires FitsInt(p)
    ensures Ends(p) && Rounds(p) == if Period(p) == 0 then 0 else p.step
  {
    hide Period, ToInt;
    var t := Abs(Period(p));
    if Period(p) == 0 {
      assert p.step * Period(p) == 0;
    } else {
      MorePeriods(p, 0, p.step);
      assert 0 * t == 0;
      DivMulPlus(p.step, t, t - 1);
    }
  }

  /** The workload loads its start and then every access of its periods, in order, as many as it takes to
      reach the end it computes. It does so for either direction, and also if steps of both directions are
      mixed. */
  method Workload2DStrideLoop(p: Pattern, base: int) returns (loads: seq<int>)
    requires Ends(p)
    ensures loads == Loads(p, Rounds(p))
  {
    hide Period, Partial, ToInt, PeriodLoads, Ends, Rounds;
    var ptrBegin := base + p.first;
    var ptrEnd := ptrBegin + ToInt(p.step * Period(p));
    var ptr := ptrBegin;
    loads := [ptr - base];
    ghost var k := 0;
    assert 0 * Period(p) == 0;
    GoesOnIff(p, 0);
    while if ptrEnd > ptrBegin then ptr < ptrEnd else ptr > ptrEnd
      invariant k <= Rounds(p) && ptr == ptrBegin + k * Period(p) && loads == Loads(p, k)
      invariant GoesOn(p, k) <==> k < Rounds(p)
      decreases Rounds(p) - k
    {
      ghost var start, before := ptr, loads;
      PartialStep(p, 0);
      for i := 0 to p.gap1 + p.gap2
        invariant ptr == start + Partial(p, i) && loads == before + PeriodLoads(p, k)[..i]
      {
        PartialStep(p, i);
        PeriodLoadsStep(p, k, i);
        if i < p.gap1 {
          ptr := ptr + p.stride;
        } else {
          ptr := ptr + (p.stride + p.delta);
        }
        loads := loads + [ptr - base];
      }
      assert (k + 1) * Period(p) == k * Period(p) + Period(p);
      k := k + 1;
      GoesOnIff(p, k);
    }
  }

  // ---------- positions inside a period ----------

  lemma MultiplesBelow(i: nat, g: nat, a: int)
    requires i <= g && (0 < g ==> 0 < a)
    ensures 0 <= i * a <= g * a && (i < g ==> i * a < g * a) && (0 < i ==> 0 < i * a)
  {
    if 0 < g {
      MulMonotone(0, i, a);
      MulMonotone(i, g, a);
      if i < g { MulMonotone(i + 1, g, a); }
      if 0 < i { MulMonotone(1, i, a); }
      assert (i + 1) * a == i * a + a;
    }
  }

  lemma PartialInPeriod(p: Pattern, i: nat)
    requires Forward(p) && i < p.gap1 + p.gap2
    ensures 0 <= Partial(p, i) < Period(p) && (0 < i ==> 0 < Partial(p, i))
  {
    var a, b := p.stride, p.stride + p.delta;
    assert Period(p) == p.gap1 * a + p.gap2 * b;
    MultiplesBelow(0, p.gap1, a);
    MultiplesBelow(0, p.gap2, b);
    if i < p.gap1 {
      MultiplesBelow(i, p.gap1, a);
    } else {
      MultiplesBelow(p.gap1, p.gap1, a);
      MultiplesBelow(i - p.gap1, p.gap2, b);
    }
  }

  ghost predicate Position(p: Pattern, n: int, k: int, i: nat) {
    i < p.gap1 + p.gap2 && n == k * Period(p) + Partial(p, i)
  }

  lemma ForwardOnPatternIff(p: Pattern, n: int)
    requires Forward(p) && 0 <= n
    ensures OnPattern(p, n) <==> exists k, i :: 0 <= k && Position(p, n, k, i)
  {
    hide Period, Partial, Matches, Position, Forward;
    if OnPattern(p, n) {
      var i :| 0 <= i < p.gap1 + p.gap2 && Matches(p, n, i);
      MatchesPosition(p, n, i);
    }
    if exists k, i :: 0 <= k && Position(p, n, k, i) {
      var k, i :| 0 <= k && Position(p, n, k, i);
      PositionMatches(p, n, k, i);
    }
  }

  lemma ReversedPosition(p: Pattern, n: int, k: int, i: nat)
    ensures Position(Reversed(p), -n, k, i) <==> Position(p, n, k, i)
  {
    hide Period, Partial;
    ReversedParts(p, i);
    assert k * -Period(p) == -(k * Period(p));
  }

  lemma ReversedOnPattern(p: Pattern, n: int)
    requires Period(p) != 0
    ensures Period(Reversed(p)) != 0
    ensures OnPattern(Reversed(p), -n) <==> OnPattern(p, n)
  {
    hide Period, Partial;
    ReversedParts(p, 0);
    var q, m := Reversed(p), -n;
    forall i: nat
      ensures Matches(q, m, i) <==> Matches(p, n, i)
    {
      ReversedParts(p, i);
    }
  }

  /** From the start on, the pattern is where whole periods plus a position inside one end. */
  lemma OnPatternIff(p: Pattern, n: int)
    requires Steady(p) && 0 <= Ahead(p, n)
    ensures OnPattern(p, n) <==> exists k, i :: 0 <= k && Position(p, n, k, i)
  {
    hide Period, Partial, OnPattern, Position, Forward;
    if 0 < Period(p) {
      ForwardOnPatternIff(p, n);
    } else {
      var q, m := Reversed(p), -n;
      ReversedOnPattern(p, n);
      ForwardOnPatternIff(q, m);
      forall k, i: nat
        ensures Position(q, m, k, i) <==> Position(p, n, k, i)
      {
        ReversedPosition(p, n, k, i);
      }
    }
  }

  lemma MatchesPosition(p: Pattern, n: int, i: nat)
    requires Forward(p) && 0 <= n && i < p.gap1 + p.gap2 && Matches(p, n, i)
    ensures 0 <= n / Period(p) && Position(p, n, n / Period(p), i)
  {
    hide Period, Partial, Forward;
    PartialInPeriod(p, i);
    DivMod(n, Period(p));
    NonNegative(p, n, i);
  }

  lemma NonNegative(p: Pattern, n: int, i: nat)
    requires 0 < Period(p) && 0 <= n && 0 <= Partial(p, i)
    ensures Matches(p, n, i) <==> n % Period(p) == Partial(p, i)
  {
    hide Period, Partial;
  }

  lemma PositionMatches(p: Pattern, n: int, k: int, i: nat)
    requires Forward(p) && 0 <= n && 0 <= k && Position(p, n, k, i)
    ensures i < p.gap1 + p.gap2 && Matches(p, n, i)
  {
    hide Period, Partial, Forward;
    PartialInPeriod(p, i);
    DivMulPlus(k, Period(p), Partial(p, i));
    NonNegative(p, n, i);
  }

  /** What `periods` periods load, without the order. */
  lemma {:induction false} LoadsSet(p: Pattern, periods: nat, n: int)
    ensures p.first + n in Loads(p, periods) <==>
              || n == periods * Period(p)
              || exists k, i :: 0 <= k < periods && Position(p, n, k, i)
  {
    hide Period, Partial, Position, PeriodLoads;
    if periods > 0 {
      var k := periods - 1;
      LoadsSet(p, k, n);
      PeriodSet(p, k, n);
    } else {
      assert 0 * Period(p) == 0;
    }
  }

  /** A period's loads with the one it starts from are its positions and the start of the next. */
  lemma PeriodSet(p: Pattern, k: nat, n: int)
    ensures n == k * Period(p) || p.first + n in PeriodLoads(p, k) <==>
              n == (k + 1) * Period(p) || exists i :: Position(p, n, k, i)
  {
    hide Period, Partial;
    var g := p.gap1 + p.gap2;
    assert (k + 1) * Period(p) == k * Period(p) + Period(p);
    PartialStep(p, 0);
    if n == k * Period(p) && g > 0 {
      assert Position(p, n, k, 0);
    }
    if p.first + n in PeriodLoads(p, k) {
      var i :| 0 <= i < g && PeriodLoads(p, k)[i] == p.first + n;
      if i + 1 < g {
        assert Position(p, n, k, i + 1);
      }
    }
    if n == (k + 1) * Period(p) && g > 0 {
      assert PeriodLoads(p, k)[g - 1] == p.first + n;
    }
    if exists i :: Position(p, n, k, i) {
      var i :| Position(p, n, k, i);
      if i > 0 {
        assert PeriodLoads(p, k)[i - 1] == p.first + n;
      }
    }
  }

  lemma ForwardPositionBefore(p: Pattern, n: int, k: int, i: nat, steps: int)
    requires Forward(p) && Position(p, n, k, i)
    ensures n < steps * Period(p) <==> k < steps
    ensures 0 <= n <==> 0 <= k
  {
    hide Period, Partial, Forward;
    PartialInPeriod(p, i);
    assert (k + 1) * Period(p) == k * Period(p) + Period(p);
    if k < steps {
      MulMonotone(k + 1, steps, Period(p));
    } else {
      MulMonotone(steps, k, Period(p));
    }
    if 0 <= k {
      MulMonotone(0, k, Period(p));
    } else {
      MulMonotone(k + 1, 0, Period(p));
    }
  }

  /** A position of period `k` lies before the end of period `steps - 1` exactly when `k < steps`. */
  lemma PositionBefore(p: Pattern, n: int, k: int, i: nat, steps: int)
    requires Steady(p) && Position(p, n, k, i)
    ensures Ahead(p, n) < steps * Abs(Period(p)) <==> k < steps
    ensures 0 <= Ahead(p, n) <==> 0 <= k
  {
    hide Period, Partial, Forward, Position;
    if 0 < Period(p) {
      ForwardPositionBefore(p, n, k, i, steps);
    } else {
      ReversedParts(p, 0);
      ReversedPosition(p, n, k, i);
      ForwardPositionBefore(Reversed(p), -n, k, i, steps);
    }
  }

  /** From the start on, the loads are the pattern up to and including the end of the last period. */
  lemma LoadedIff(p: Pattern, n: int)
    requires Steady(p)
    ensures p.first + n in Loads(p, p.step) <==>
              0 <= Ahead(p, n) <= p.step * Abs(Period(p)) && OnPattern(p, n)
  {
    hide Period, Partial, Position, OnPattern, Forward, Loads, Steady;
    MorePeriods(p, 0, p.step);
    LoadsSet(p, p.step, n);
    if 0 <= Ahead(p, n) {
      OnPatternIff(p, n);
    }
    forall k, i | Position(p, n, k, i)
      ensures (Ahead(p, n) < p.step * Abs(Period(p)) <==> k < p.step) && (0 <= Ahead(p, n) <==> 0 <= k)
    {
      PositionBefore(p, n, k, i, p.step);
    }
    if n == p.step * Period(p) {
      PeriodStart(p, p.step);
    }
  }

  lemma PeriodStart(p: Pattern, k: int)
    requires Steady(p)
    ensures Position(p, k * Period(p), k, 0)
  {
    hide Period;
    PartialStep(p, 0);
  }

  // ---------- the oracle against the workload ----------

  /** The mirror image of the first period on the far side of the first access. Backwards it reaches
      one byte further, because the test takes one byte off. */
  ghost predicate Mirrored(p: Pattern, n: int)
    requires Period(p) != 0
  {
    Ahead(p, n) < 0 && Abs(Shifted(n)) < Abs(Period(p)) && OnPattern(p, n)
  }

  lemma AccessedIff(p: Pattern, offset: int)
    requires Steady(p) && FitsInt(p)
    ensures var n := offset - p.first;
            OffsetAccessed(p, offset) <==>
              || (0 <= Ahead(p, n) <= p.step * Abs(Period(p)) && OnPattern(p, n) && !(n == p.step * Period(p) < 2))
              || (0 < p.step && Mirrored(p, n))
  {
    hide Period, OnPattern, FitsInt, ToInt, Quotient, Steady, OffsetAccessed;
    var n, t := offset - p.first, Abs(Period(p));
    MorePeriods(p, 0, p.step);
    QuotientByNegative(Shifted(n), t);
    if Ahead(p, n) < 0 {
      QuotientOfNegative(Ahead(p, Shifted(n)), t);
    } else {
      QuotientBelow(Ahead(p, Shifted(n)), t, p.step);
    }
    AccessedTest(p, offset);
  }

  lemma AccessedTest(p: Pattern, offset: int)
    requires Period(p) != 0 && FitsInt(p)
    ensures OffsetAccessed(p, offset) <==>
              OnPattern(p, offset - p.first) && 0 <= Quotient(Shifted(offset - p.first), Period(p)) < p.step
  {
    hide Period, OnPattern, ToInt, Quotient;
  }

  lemma PotentialTest(p: Pattern, offset: int)
    requires Period(p) != 0 && FitsInt(p)
    ensures OffsetPotentialPrefetch(p, offset) <==>
              OnPattern(p, offset - p.first) && p.step <= Quotient(offset - p.first, Period(p))
  {
    hide Period, OnPattern, ToInt, Quotient;
  }

  lemma PotentialIff(p: Pattern, offset: int)
    requires Steady(p) && FitsInt(p)
    ensures var n := offset - p.first;
            OffsetPotentialPrefetch(p, offset) <==>
              && OnPattern(p, n)
              && if 0 <= Ahead(p, n) then p.step * Abs(Period(p)) <= Ahead(p, n)
                 else p.step == 0 && Abs(n) < Abs(Period(p))
  {
    hide Period, OnPattern, FitsInt, ToInt, Quotient, Steady, OffsetPotentialPrefetch;
    var n, t := offset - p.first, Abs(Period(p));
    QuotientByNegative(n, t);
    if Ahead(p, n) < 0 {
      QuotientOfNegative(Ahead(p, n), t);
    } else {
      QuotientBelow(Ahead(p, n), t, p.step);
    }
    PotentialTest(p, offset);
  }

  /** Exactly where the two-dimensional oracle is right: everywhere except at the very last load when
      that load is less than two bytes above the first, as it always is in a backward run, and at the
      mirror image of the first period on the far side of the first access. */
  lemma AccessedIffLoaded(p: Pattern, offset: int)
    requires Steady(p) && FitsInt(p)
    ensures (OffsetAccessed(p, offset) <==> offset in Loads(p, p.step)) <==>
              !(offset - p.first == p.step * Period(p) < 2)
              && !(0 < p.step && Mirrored(p, offset - p.first))
  {
    hide Period, OnPattern, Steady, FitsInt, ToInt, Loads, OffsetAccessed;
    var n := offset - p.first;
    MorePeriods(p, 0, p.step);
    AccessedIff(p, offset);
    LoadedIff(p, n);
    if n == p.step * Period(p) {
      EndOnPattern(p);
    }
  }

  /** With steps of both directions the test goes wrong in the midst of a run as well. Two steps of 128
      bytes and one back by 64: the byte at 256 is loaded and does not count as accessed, because a
      period is only 192 bytes long. */
  lemma MixedStepsMissed()
    ensures var p := Pattern(128, 1, 0, -192, 2, 1);
            !Steady(p) && FitsInt(p) && 256 in Loads(p, p.step) && !OffsetAccessed(p, 256)
  {
    hide OffsetAccessed, Loads;
    var p := Pattern(128, 1, 0, -192, 2, 1);
    assert Period(p) == 192 && Partial(p, 0) == 0 && Partial(p, 1) == 128 && Partial(p, 2) == 256;
    AccessedTest(p, 256);
    LoadsSet(p, p.step, 256);
    assert Position(p, 256, 0, 2);
    assert forall i :: 0 <= i < 3 ==> !Matches(p, 256, i);
  }

  /** Off the mirror image nothing counts as accessed that was not loaded. */
  lemma AccessedIsLoaded(p: Pattern, offset: int)
    requires Steady(p) && FitsInt(p) && !Mirrored(p, offset - p.first) && OffsetAccessed(p, offset)
    ensures offset in Loads(p, p.step)
  {
    hide Period, OnPattern, Steady, FitsInt, ToInt, Loads, OffsetAccessed, Mirrored;
    AccessedIff(p, offset);
    LoadedIff(p, offset - p.first);
  }

  lemma EndOnPattern(p: Pattern)
    requires Steady(p)
    ensures OnPattern(p, p.step * Period(p))
  {
    hide Period, OnPattern, Steady, Position;
    MorePeriods(p, 0, p.step);
    PeriodStart(p, p.step);
    OnPatternIff(p, p.step * Period(p));
  }

  lemma {:induction false} PartialGrows(p: Pattern, i: nat)
    requires Forward(p) && 0 < i < p.gap1 + p.gap2
    ensures Partial(p, 1) <= Partial(p, i)
  {
    hide Partial;
    if i > 1 {
      PartialGrows(p, i - 1);
      PartialStep(p, i - 1);
    }
  }

  /** The second position is where the mirror image of a forward pattern begins. */
  lemma MirrorBegins(p: Pattern)
    requires Forward(p) && 1 < p.gap1 + p.gap2
    ensures Mirrored(p, -Partial(p, 1))
  {
    hide Period, Partial, Forward;
    PartialInPeriod(p, 1);
    assert Partial(p, 1) % Period(p) == Partial(p, 1) by { DivMulPlus(0, Period(p), Partial(p, 1)); }
    assert Matches(p, -Partial(p, 1), 1);
  }

  lemma MirrorReaches(p: Pattern, n: int)
    requires Forward(p) && Mirrored(p, n)
    ensures 1 < p.gap1 + p.gap2 && Partial(p, 1) <= -n
  {
    hide Period, Partial, Forward;
    var i :| 0 <= i < p.gap1 + p.gap2 && Matches(p, n, i);
    PartialInPeriod(p, i);
    DivMulPlus(0, Period(p), -n);
    PartialStep(p, 0);
    PartialGrows(p, i);
  }

  /** For a forward pattern, or a backward one that stays inside the mapping, the oracle is exact for every
      offset of the mapping if and only if the run goes up by at least two bytes, never for a backward
      one, and the mirror image does not reach into the mapping. */
  lemma OracleExact(p: Pattern)
    requires Steady(p) && FitsInt(p) && (Period(p) < 0 ==> 0 <= p.first + p.step * Period(p))
    ensures (forall offset: nat :: OffsetAccessed(p, offset) <==> offset in Loads(p, p.step)) <==>
              2 <= p.step * Period(p) && (1 < p.gap1 + p.gap2 ==> p.first < Partial(p, 1))
  {
    hide Period, Partial, OnPattern, Steady, FitsInt, ToInt, Loads, OffsetAccessed, Mirrored;
    MorePeriods(p, 0, p.step);
    var last: nat := p.first + p.step * Period(p);
    AccessedIffLoaded(p, last);
    if 2 <= p.step * Period(p) {
      assert Forward(p) && 0 < p.step;
      if 1 < p.gap1 + p.gap2 && Partial(p, 1) <= p.first {
        MirrorBegins(p);
        var mirrored: nat := p.first - Partial(p, 1);
        AccessedIffLoaded(p, mirrored);
        assert !(OffsetAccessed(p, mirrored) <==> mirrored in Loads(p, p.step));
      } else {
        forall offset: nat
          ensures OffsetAccessed(p, offset) <==> offset in Loads(p, p.step)
        {
          AccessedIffLoaded(p, offset);
          if Mirrored(p, offset - p.first) {
            MirrorReaches(p, offset - p.first);
            assert false;
          }
        }
      }
    } else {
      assert !(OffsetAccessed(p, last) <==> last in Loads(p, p.step));
    }
  }

  /** The only offset that is both accessed and a prefetch candidate is the end of the last period of
      a forward run. */
  lemma AccessedAndPotential(p: Pattern, offset: int)
    requires Steady(p) && FitsInt(p)
    ensures OffsetAccessed(p, offset) && OffsetPotentialPrefetch(p, offset) <==>
              offset - p.first == p.step * Period(p) && 2 <= p.step * Period(p)
  {
    hide Period, OnPattern, Steady, FitsInt, ToInt, OffsetAccessed, OffsetPotentialPrefetch;
    var n := offset - p.first;
    MorePeriods(p, 0, p.step);
    AccessedIff(p, offset);
    PotentialIff(p, offset);
    if n == p.step * Period(p) {
      EndOnPattern(p);
    }
  }

  /** `n` bytes behind the first access lies what a period after the last one would load. */
  ghost predicate Later(p: Pattern, n: int) {
    exists k, i :: p.step <= k && Position(p, n, k, i)
  }

  /** Candidates are what further periods would load; for empty runs only from the first access on. */
  lemma PotentialIffLater(p: Pattern, n: int)
    requires Steady(p) && FitsInt(p) && (0 < p.step || 0 <= Ahead(p, n))
    ensures OffsetPotentialPrefetch(p, p.first + n) <==> Later(p, n)
  {
    hide Period, OnPattern, Steady, FitsInt, ToInt, OffsetPotentialPrefetch, Position;
    PotentialIff(p, p.first + n);
    if 0 <= Ahead(p, n) {
      OnPatternIff(p, n);
    }
    forall k, i | Position(p, n, k, i)
      ensures (Ahead(p, n) < p.step * Abs(Period(p)) <==> k < p.step) && (0 <= Ahead(p, n) <==> 0 <= k)
    {
      PositionBefore(p, n, k, i, p.step);
    }
  }

  /** The first access counts as one, unless the run is empty. */
  lemma StartAccessed(p: Pattern)
    requires Steady(p) && FitsInt(p) && 0 < p.step
    ensures OffsetAccessed(p, p.first) && p.first in Loads(p, p.step)
  {
    hide Period, OnPattern, Steady, FitsInt, ToInt, OffsetAccessed, Loads, Position;
    MorePeriods(p, 0, p.step);
    assert 0 * Period(p) == 0;
    PeriodStart(p, 0);
    OnPatternIff(p, 0);
    AccessedIff(p, p.first);
    LoadedIff(p, 0);
  }

  /** Loaded and yet a candidate: that is the end of the run, in both directions. */
  lemma LoadedAndPotential(p: Pattern, offset: int)
    requires Steady(p) && FitsInt(p) && offset in Loads(p, p.step)
    ensures OffsetPotentialPrefetch(p, offset) <==> offset == p.first + p.step * Period(p)
  {
    hide Period, OnPattern, Steady, FitsInt, ToInt, Loads, OffsetPotentialPrefetch;
    MorePeriods(p, 0, p.step);
    LoadedIff(p, offset - p.first);
    PotentialIff(p, offset);
  }
}
