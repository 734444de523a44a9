/** Turning a histogram of hits into verdicts: which lines were prefetched. */
module Evaluate {
  import opened CArithmetic
  import D = Doubles
  import R = Rounding
  import Stride2D
  import opened StrideModel
  import O = StrideOracle

  /** What the oracle says of a line. */
  datatype Prediction = Prediction(accessed: bool, potential: bool)

  datatype Kind = Hit | Candidate | Miss

  function KindOf(p: Prediction): Kind {
    if p.accessed then Hit else if p.potential then Candidate else Miss
  }

  // ---------- averages and threshold ----------

  function Sum(counts: seq<nat>, lines: seq<Prediction>, kind: Kind, k: nat): nat
    requires |counts| == |lines| && k <= |lines|
  {
    if k == 0 then 0
    else Sum(counts, lines, kind, k - 1) + if KindOf(lines[k - 1]) == kind then counts[k - 1] else 0
  }

  function Number(lines: seq<Prediction>, kind: Kind, k: nat): nat
    requires k <= |lines|
  {
    if k == 0 then 0 else Number(lines, kind, k - 1) + if KindOf(lines[k - 1]) == kind then 1 else 0
  }

  /** Line `i` joins one of the three sums. */
  lemma SumStep(counts: seq<nat>, lines: seq<Prediction>, i: nat)
    requires |counts| == |lines| && i < |lines|
    ensures Sum(counts, lines, Hit, i + 1) == Sum(counts, lines, Hit, i) + if lines[i].accessed then counts[i] else 0
    ensures Number(lines, Hit, i + 1) == Number(lines, Hit, i) + if lines[i].accessed then 1 else 0
    ensures Sum(counts, lines, Miss, i + 1) ==
              Sum(counts, lines, Miss, i) + if !lines[i].accessed && !lines[i].potential then counts[i] else 0
    ensures Number(lines, Miss, i + 1) ==
              Number(lines, Miss, i) + if !lines[i].accessed && !lines[i].potential then 1 else 0
  {
  }

  lemma SumNone(counts: seq<nat>, lines: seq<Prediction>, kind: Kind)
    requires |counts| == |lines|
    ensures Sum(counts, lines, kind, 0) == 0 && Number(lines, kind, 0) == 0
  {
  }

  function Average(counts: seq<nat>, lines: seq<Prediction>, kind: Kind): nat
    requires |counts| == |lines|
  {
    var n := Number(lines, kind, |lines|);
    var sum := Sum(counts, lines, kind, |lines|);
    if n > 0 then sum / n else sum
  }

  /** `multiplier * (double)difference`: the conversion rounds, and so does the product. */
  function Product(multiplier: real, difference: nat): real {
    D.Round(multiplier * D.Round(difference as real))
  }

  /** Cast to `size_t` the fraction is cut off. */
  function Scaled(multiplier: real, difference: nat): int {
    var product := Product(multiplier, difference);
    if product >= 0.0 then product.Floor else -(-product).Floor
  }

  /** The difference of the averages is taken in `size_t`, where it wraps if misses outweigh hits. */
  function Threshold(hitAvg: nat, missAvg: nat, multiplier: real): nat {
    var difference := ToSize(hitAvg - missAvg);
    var t := ToSize(missAvg + Scaled(multiplier, difference));
    if t <= 0 then 1 else t
  }

  function ThresholdOf(counts: seq<nat>, lines: seq<Prediction>, multiplier: real): nat
    requires |counts| == |lines|
  {
    Threshold(Average(counts, lines, Hit), Average(counts, lines, Miss), multiplier)
  }

  predicate Verdict(count: nat, line: Prediction, threshold: nat, noiseThresh: nat) {
    line.potential && count > noiseThresh && count >= threshold
  }

  function Verdicts(counts: seq<nat>, lines: seq<Prediction>, multiplier: real, noiseThresh: nat): (marks: seq<bool>)
    requires |counts| == |lines|
    ensures |marks| == |counts|
  {
    var threshold := ThresholdOf(counts, lines, multiplier);
    seq(|counts|, i requires 0 <= i < |counts| => Verdict(counts[i], lines[i], threshold, noiseThresh))
  }

  // ---------- the methods ----------

  ghost function Predictions(e: Experiment, n: nat): (lines: seq<Prediction>)
    requires e.stride != 0
    ensures |lines| == n
  {
    seq(n, i requires 0 <= i < n => Prediction(O.LineAccessed(e, i), O.LinePotentialPrefetch(e, i)))
  }

  method PrefetchThreshold(e: Experiment, counts: seq<nat>, multiplier: real) returns (threshold: nat)
    requires e.stride != 0
    ensures threshold == ThresholdOf(counts, Predictions(e, |counts|), multiplier)
  {
    hide O.LineAccessed, O.LinePotentialPrefetch, Threshold, Sum, Number, KindOf;
    ghost var lines := Predictions(e, |counts|);
    var hitAvg, hitN, missAvg, missN := 0, 0, 0, 0;
    SumNone(counts, lines, Hit);
    SumNone(counts, lines, Miss);
    for i := 0 to |counts|
      invariant hitAvg == Sum(counts, lines, Hit, i) && hitN == Number(lines, Hit, i)
      invariant missAvg == Sum(counts, lines, Miss, i) && missN == Number(lines, Miss, i)
    {
      var accessed := O.ClAccessed(e, i);
      var potential := O.ClPotentialPrefetch(e, i);
      SumStep(counts, lines, i);
      if accessed {
        hitAvg, hitN := hitAvg + counts[i], hitN + 1;
      } else if !potential {
        missAvg, missN := missAvg + counts[i], missN + 1;
      }
    }
    if hitN > 0 {
      hitAvg := hitAvg / hitN;
    }
    if missN > 0 {
      missAvg := missAvg / missN;
    }
    threshold := Threshold(hitAvg, missAvg, multiplier);
  }

  method EvaluateCacheHistogram(e: Experiment, counts: seq<nat>, multiplier: real)
    returns (marks: seq<bool>)
    requires e.stride != 0
    ensures marks == Verdicts(counts, Predictions(e, |counts|), multiplier, e.noiseThresh)
  {
    hide O.LineAccessed, O.LinePotentialPrefetch, ThresholdOf;
    ghost var lines := Predictions(e, |counts|);
    var threshold := PrefetchThreshold(e, counts, multiplier);
    marks := seq(|counts|, _ => false);
    for i := 0 to |counts|
      invariant |marks| == |counts|
      invariant forall j :: i <= j < |counts| ==> !marks[j]
      invariant forall j :: 0 <= j < i ==> marks[j] == Verdict(counts[j], lines[j], threshold, e.noiseThresh)
    {
      var potential := O.ClPotentialPrefetch(e, i);
      if potential {
        if counts[i] > e.noiseThresh {
          if counts[i] >= threshold {
            marks := marks[i := true];
          }
        }
      }
    }
  }

  /** The oracle divides by the period, once it has been cast to `int`. */
  predicate Divides(p: Stride2D.Pattern) {
    Stride2D.Period(p) != 0 && ToInt(Stride2D.Period(p)) != 0
  }

  /** In two dimensions a counter stands for a single byte. */
  ghost function Predictions2D(p: Stride2D.Pattern, n: nat): (lines: seq<Prediction>)
    requires Divides(p)
    ensures |lines| == n
  {
    seq(n, i requires 0 <= i < n => Prediction(Stride2D.OffsetAccessed(p, i), Stride2D.OffsetPotentialPrefetch(p, i)))
  }

  method PrefetchThreshold2D(p: Stride2D.Pattern, counts: seq<nat>, multiplier: real) returns (threshold: nat)
    requires Divides(p)
    ensures threshold == ThresholdOf(counts, Predictions2D(p, |counts|), multiplier)
  {
    hide Stride2D.OffsetAccessed, Stride2D.OffsetPotentialPrefetch, Stride2D.Period, Threshold, Sum, Number, KindOf;
    ghost var lines := Predictions2D(p, |counts|);
    var hitAvg, hitN, missAvg, missN := 0, 0, 0, 0;
    SumNone(counts, lines, Hit);
    SumNone(counts, lines, Miss);
    for i := 0 to |counts|
      invariant hitAvg == Sum(counts, lines, Hit, i) && hitN == Number(lines, Hit, i)
      invariant missAvg == Sum(counts, lines, Miss, i) && missN == Number(lines, Miss, i)
    {
      var accessed := Stride2D.IsOffsetAccessed(p, i);
      var potential := Stride2D.IsOffsetPotentialPrefetch(p, i);
      SumStep(counts, lines, i);
      if accessed {
        hitAvg, hitN := hitAvg + counts[i], hitN + 1;
      } else if !potential {
        missAvg, missN := missAvg + counts[i], missN + 1;
      }
    }
    if hitN > 0 {
      hitAvg := hitAvg / hitN;
    }
    if missN > 0 {
      missAvg := missAvg / missN;
    }
    threshold := Threshold(hitAvg, missAvg, multiplier);
  }

  method EvaluateCacheHistogram2D(p: Stride2D.Pattern, counts: seq<nat>, multiplier: real, noiseThresh: nat)
    returns (marks: seq<bool>)
    requires Divides(p)
    ensures marks == Verdicts(counts, Predictions2D(p, |counts|), multiplier, noiseThresh)
  {
    hide Stride2D.OffsetAccessed, Stride2D.OffsetPotentialPrefetch, Stride2D.Period, ThresholdOf;
    ghost var lines := Predictions2D(p, |counts|);
    var threshold := PrefetchThreshold2D(p, counts, multiplier);
    marks := seq(|counts|, _ => false);
    for i := 0 to |counts|
      invariant |marks| == |counts|
      invariant forall j :: i <= j < |counts| ==> !marks[j]
      invariant forall j :: 0 <= j < i ==> marks[j] == Verdict(counts[j], lines[j], threshold, noiseThresh)
    {
      var potential := Stride2D.IsOffsetPotentialPrefetch(p, i);
      if potential {
        if counts[i] > noiseThresh {
          if counts[i] >= threshold {
            marks := marks[i := true];
          }
        }
      }
    }
  }

  // ---------- soundness ----------

  /** A marked line is one that no load of the workload fell into, and that comes next. */
  lemma MarkedNotLoaded(e: Experiment, counts: seq<nat>, multiplier: real, line: nat)
    requires e.stride != 0 && line < |counts|
    requires Verdicts(counts, Predictions(e, |counts|), multiplier, e.noiseThresh)[line]
    ensures O.Next(e, line) && !O.Loaded(e, line)
  {
    hide O.LineAccessed, O.LinePotentialPrefetch, O.Next, O.Loaded, ThresholdOf;
    O.CandidateIff(e, line);
  }

  /** In two dimensions that is not so. Of the loaded bytes exactly the end of the run, in either
      direction, is marked, and it always is if its count clears noise and threshold: the candidate
      test of the 2-D oracle does not leave out what was accessed. */
  lemma MarkedNotLoaded2D(p: Stride2D.Pattern, counts: seq<nat>, multiplier: real, noiseThresh: nat, byte: nat)
    requires Stride2D.Steady(p) && Stride2D.FitsInt(p) && byte < |counts|
    requires byte in Stride2D.Loads(p, p.step)
    ensures var lines := Predictions2D(p, |counts|);
            Verdicts(counts, lines, multiplier, noiseThresh)[byte] <==>
              && byte == p.first + p.step * Stride2D.Period(p)
              && counts[byte] > noiseThresh && counts[byte] >= ThresholdOf(counts, lines, multiplier)
  {
    hide Stride2D.OffsetAccessed, Stride2D.OffsetPotentialPrefetch, Stride2D.Loads, Stride2D.Steady, Stride2D.FitsInt,
      Stride2D.Period, ThresholdOf;
    Stride2D.LoadedAndPotential(p, byte);
  }

  // ---------- averages ----------

  /** The counts of one kind of line, in order. */
  function Selected(counts: seq<nat>, lines: seq<Prediction>, kind: Kind): seq<nat>
    requires |counts| == |lines|
  {
    if counts == [] then []
    else (if KindOf(lines[0]) == kind then [counts[0]] else []) + Selected(counts[1..], lines[1..], kind)
  }

  function Total(xs: seq<nat>): nat {
    if xs == [] then 0 else xs[0] + Total(xs[1..])
  }

  lemma {:induction false} TotalConcat(a: seq<nat>, b: seq<nat>)
    ensures Total(a + b) == Total(a) + Total(b)
  {
    if a == [] {
      assert a + b == b;
    } else {
      assert (a + b)[1..] == a[1..] + b;
      TotalConcat(a[1..], b);
    }
  }

  lemma {:induction false} SelectedLast(counts: seq<nat>, lines: seq<Prediction>, kind: Kind, count: nat,
                                        line: Prediction)
    requires |counts| == |lines|
    ensures Selected(counts + [count], lines + [line], kind)
         == Selected(counts, lines, kind) + if KindOf(line) == kind then [count] else []
  {
    hide KindOf;
    if counts == [] {
      assert counts + [count] == [count] && lines + [line] == [line];
      assert [count][1..] == [] && [line][1..] == [];
    } else {
      assert (counts + [count])[1..] == counts[1..] + [count] && (lines + [line])[1..] == lines[1..] + [line];
      SelectedLast(counts[1..], lines[1..], kind, count, line);
    }
  }

  lemma {:induction false} SumIsTotal(counts: seq<nat>, lines: seq<Prediction>, kind: Kind, k: nat)
    requires |counts| == |lines| && k <= |lines|
    ensures var xs := Selected(counts[..k], lines[..k], kind);
            Sum(counts, lines, kind, k) == Total(xs) && Number(lines, kind, k) == |xs|
  {
    hide KindOf, Selected, Total;
    if k > 0 {
      SumIsTotal(counts, lines, kind, k - 1);
      assert counts[..k] == counts[..k - 1] + [counts[k - 1]] && lines[..k] == lines[..k - 1] + [lines[k - 1]];
      SelectedLast(counts[..k - 1], lines[..k - 1], kind, counts[k - 1], lines[k - 1]);
      TotalLast(Selected(counts[..k - 1], lines[..k - 1], kind), counts[k - 1]);
    } else {
      NothingSelected(kind);
    }
  }

  lemma TotalLast(xs: seq<nat>, x: nat)
    ensures Total(xs + [x]) == Total(xs) + x && xs + [] == xs
  {
    TotalConcat(xs, [x]);
    assert [x][1..] == [];
  }

  lemma NothingSelected(kind: Kind)
    ensures Selected([], [], kind) == [] && Total([]) == 0
  {
  }

  /** The average is that of the counts of its kind, cut off; zero if there are none. */
  lemma AverageOf(counts: seq<nat>, lines: seq<Prediction>, kind: Kind)
    requires |counts| == |lines|
    ensures var xs := Selected(counts, lines, kind);
            Average(counts, lines, kind) == if xs == [] then 0 else Total(xs) / |xs|
  {
    hide Selected, Total, Sum, Number;
    assert counts[..|lines|] == counts && lines[..|lines|] == lines;
    SumIsTotal(counts, lines, kind, |lines|);
    NothingSelected(kind);
  }

  /** Hits are the lines that were loaded, candidates those that come next and were not, and misses all
      others. */
  lemma KindIs(e: Experiment, n: nat, line: nat)
    requires e.stride != 0 && line < n
    ensures KindOf(Predictions(e, n)[line])
         == if O.Loaded(e, line) then Hit else if O.Next(e, line) then Candidate else Miss
  {
    hide O.LineAccessed, O.LinePotentialPrefetch, O.Loaded, O.Next;
    O.LineAccessedIffLoaded(e, line);
    O.CandidateIff(e, line);
  }

  // ---------- candidates do not disturb each other ----------

  lemma {:induction false} SumIgnoresCandidates(a: seq<nat>, b: seq<nat>, lines: seq<Prediction>, kind: Kind, k: nat)
    requires |a| == |b| == |lines| && k <= |lines| && kind != Candidate
    requires forall i :: 0 <= i < |lines| && KindOf(lines[i]) != Candidate ==> a[i] == b[i]
    ensures Sum(a, lines, kind, k) == Sum(b, lines, kind, k)
  {
    if k > 0 {
      SumIgnoresCandidates(a, b, lines, kind, k - 1);
    }
  }

  /** Whatever two runs counted on candidate lines: a candidate's verdict depends on its own count
      alone, and a larger count never unmarks it. */
  lemma CandidatesIndependent(a: seq<nat>, b: seq<nat>, lines: seq<Prediction>, multiplier: real, noise: nat, i: nat)
    requires |a| == |b| == |lines| && i < |lines|
    requires forall j :: 0 <= j < |lines| && KindOf(lines[j]) != Candidate ==> a[j] == b[j]
    ensures a[i] == b[i] ==> Verdicts(a, lines, multiplier, noise)[i] == Verdicts(b, lines, multiplier, noise)[i]
    ensures a[i] <= b[i] && Verdicts(a, lines, multiplier, noise)[i] ==> Verdicts(b, lines, multiplier, noise)[i]
  {
    hide Threshold;
    SumIgnoresCandidates(a, b, lines, Hit, |lines|);
    SumIgnoresCandidates(a, b, lines, Miss, |lines|);
  }

  // ---------- the threshold ----------

  function Max(a: nat, b: nat): nat {
    if a < b then b else a
  }

  /** The double next to the difference is not larger. */
  predicate RoundsDown(d: nat) {
    D.Round(d as real) <= d as real
  }

  /** Differences of up to 53 bits are doubles themselves. */
  lemma SmallDifference(d: nat)
    requires d < D.MANTISSA
    ensures D.Round(d as real) == d as real && RoundsDown(d)
  {
    hide D.Round, D.IsDouble, D.HUGE;
    R.WholeIsDouble(d);
  }

  lemma Two64IsDouble()
    ensures D.IsDouble(TWO_64 as real) && TWO_64 as real < D.HUGE
  {
    hide D.Power, D.Exponent, D.IsMagnitude;
    D.PowerIsWhole(2, 12);
    assert D.WholePower(2, 6) == 64 && D.WholePower(2, 12) == 4096;
    D.UnitsAreDouble(D.MANTISSA / 2, 12, TWO_64 as real);
  }

  /** A 64-bit difference stays below the overflow of doubles. */
  lemma DifferenceRounded(d: nat)
    requires d < TWO_64
    ensures 0.0 <= D.Round(d as real) <= TWO_64 as real < D.HUGE && D.IsDouble(D.Round(d as real))
  {
    hide D.Round, D.IsDouble, D.HUGE;
    Two64IsDouble();
    R.WholeIsDouble(0);
    R.RoundBetween(0.0, d as real, TWO_64 as real);
    R.RoundWhole(d);
  }

  lemma ProductAtMost(multiplier: real, d: nat)
    requires 0.0 <= multiplier <= 1.0 && d < TWO_64
    ensures 0.0 <= Product(multiplier, d) <= D.Round(d as real) <= TWO_64 as real
  {
    hide D.Round, D.IsDouble, D.HUGE;
    DifferenceRounded(d);
    RealMonotone(0.0, multiplier, D.Round(d as real));
    RealMonotone(multiplier, 1.0, D.Round(d as real));
    R.WholeIsDouble(0);
    R.RoundBetween(0.0, multiplier * D.Round(d as real), D.Round(d as real));
  }

  lemma ScaledBetween(multiplier: real, d: nat)
    requires 0.0 <= multiplier <= 1.0 && d < TWO_64 && RoundsDown(d)
    ensures 0 <= Scaled(multiplier, d) <= d
  {
    hide D.Round, Product;
    ProductAtMost(multiplier, d);
  }

  /** With hits above misses the threshold lies between the two averages, but is never zero, if the
      difference is not rounded up. */
  lemma ThresholdBetween(hitAvg: nat, missAvg: nat, multiplier: real)
    requires missAvg <= hitAvg < TWO_64 && 0.0 <= multiplier <= 1.0 && RoundsDown(hitAvg - missAvg)
    ensures missAvg <= Threshold(hitAvg, missAvg, multiplier) <= Max(hitAvg, 1)
    ensures 1 <= Threshold(hitAvg, missAvg, multiplier)
  {
    hide Scaled, RoundsDown;
    ScaledBetween(multiplier, hitAvg - missAvg);
  }

  /** A difference that is rounded up lifts the threshold above the hits, with a multiplier of one. */
  lemma RoundedUp(hitAvg: nat, missAvg: nat)
    requires missAvg <= hitAvg && !RoundsDown(hitAvg - missAvg)
    requires missAvg as real + D.Round((hitAvg - missAvg) as real) < TWO_64 as real
    ensures Threshold(hitAvg, missAvg, 1.0) > Max(hitAvg, 1)
  {
    hide D.Round, D.IsDouble, D.HUGE;
    var d := hitAvg - missAvg;
    var x := D.Round(d as real);
    DifferenceRounded(d);
    R.RoundWhole(d);
    R.RoundOfDouble(x);
    assert 1.0 * x == x;
    assert Scaled(1.0, d) == x.Floor && x.Floor > d;
    if hitAvg == 0 {
      SmallDifference(0);
    }
  }

  /** As long as the sum fits, no multiplier up to one lifts the threshold above the hits if and only if
      the difference is not rounded up. */
  lemma ThresholdBetweenIff(hitAvg: nat, missAvg: nat)
    requires missAvg <= hitAvg < TWO_64
    requires missAvg as real + D.Round((hitAvg - missAvg) as real) < TWO_64 as real
    ensures (forall m: real :: 0.0 <= m <= 1.0 ==> Threshold(hitAvg, missAvg, m) <= Max(hitAvg, 1))
            <==> RoundsDown(hitAvg - missAvg)
  {
    hide Threshold, RoundsDown, D.Round;
    if RoundsDown(hitAvg - missAvg) {
      forall m: real | 0.0 <= m <= 1.0
        ensures Threshold(hitAvg, missAvg, m) <= Max(hitAvg, 1)
      {
        ThresholdBetween(hitAvg, missAvg, m);
      }
    } else {
      RoundedUp(hitAvg, missAvg);
    }
  }

  // ---------- its exact value ----------

  lemma SameFactor(a: real, b: real, c: real)
    requires b == c
    ensures a * b == a * c
  {
  }

  lemma SameRound(a: real, b: real)
    requires a == b
    ensures D.Round(a) == D.Round(b)
  {
  }

  /** The difference itself is not rounded. */
  lemma ProductIs(multiplier: real, d: nat, x: real)
    requires 0.0 <= multiplier <= 1.0 && d < D.MANTISSA && x == multiplier * d as real
    ensures Product(multiplier, d) == D.Round(x) && 0.0 <= x <= d as real
  {
    hide D.Round;
    SmallDifference(d);
    SameFactor(multiplier, D.Round(d as real), d as real);
    SameRound(multiplier * D.Round(d as real), x);
    RealMonotone(0.0, multiplier, d as real);
    RealMonotone(multiplier, 1.0, d as real);
  }

  /** The product is cut off below: the nearest double to it is not below a whole number that is not
      above it, and reaches the next one at most. */
  lemma ScaledFloor(multiplier: real, d: nat, x: real)
    requires 0.0 <= multiplier <= 1.0 && d < D.MANTISSA && x == multiplier * d as real
    ensures x.Floor <= Scaled(multiplier, d) && Scaled(multiplier, d) as real < x + 1.0
    ensures D.IsDouble(x) ==> Scaled(multiplier, d) == x.Floor
    ensures 0.0 <= x <= d as real
  {
    hide D.Round, D.IsDouble, D.HUGE, Product;
    ProductIs(multiplier, d, x);
    FloorRounds(x);
  }

  lemma FloorRounds(x: real)
    requires 0.0 <= x <= (D.MANTISSA - 1) as real
    ensures x.Floor as real <= D.Round(x) <= (x.Floor + 1) as real
    ensures x.Floor as real == x || D.IsDouble(x) ==> D.Round(x) == x
  {
    hide D.Round, D.IsDouble, D.HUGE;
    R.WholeIsDouble(x.Floor);
    R.WholeIsDouble(D.MANTISSA - 1);
    if x.Floor as real != x {
      R.WholeIsDouble(x.Floor + 1);
      R.RoundBetween(x.Floor as real, x, (x.Floor + 1) as real);
    }
    if D.IsDouble(x) {
      R.RoundOfDouble(x);
    }
  }

  /** With hits at or above misses the threshold is the miss average and the product `x`, cut off, but not
      zero. */
  lemma ThresholdIs(hitAvg: nat, missAvg: nat, multiplier: real, x: real)
    requires missAvg <= hitAvg < TWO_64 && 0.0 <= multiplier <= 1.0 && hitAvg - missAvg < D.MANTISSA
    requires x == multiplier * (hitAvg - missAvg) as real
    ensures var t := Threshold(hitAvg, missAvg, multiplier);
            && t >= 1 && t >= missAvg + x.Floor && (t == 1 || (t - missAvg) as real < x + 1.0)
            && (D.IsDouble(x) ==> t == 1 || t == missAvg + x.Floor)
  {
    hide Scaled, D.IsDouble, D.Round, Threshold, RoundsDown;
    SmallDifference(hitAvg - missAvg);
    ScaledBetween(multiplier, hitAvg - missAvg);
    ScaledFloor(multiplier, hitAvg - missAvg, x);
    ThresholdSum(hitAvg, missAvg, multiplier);
  }

  lemma ThresholdSum(hitAvg: nat, missAvg: nat, multiplier: real)
    requires missAvg <= hitAvg < TWO_64 && 0 <= Scaled(multiplier, hitAvg - missAvg) <= hitAvg - missAvg
    ensures Threshold(hitAvg, missAvg, multiplier) == Max(1, missAvg + Scaled(multiplier, hitAvg - missAvg))
  {
    hide Scaled;
  }

  /** With the default multiplier of 1/64 nothing is rounded. */
  lemma DefaultThreshold(hitAvg: nat, missAvg: nat)
    requires missAvg <= hitAvg < TWO_64 && hitAvg - missAvg < D.MANTISSA
    ensures Threshold(hitAvg, missAvg, 1.0 / 64.0) == Max(1, missAvg + (hitAvg - missAvg) / 64)
  {
    hide Threshold, D.IsDouble;
    var x := 1.0 / 64.0 * (hitAvg - missAvg) as real;
    ThresholdIs(hitAvg, missAvg, 1.0 / 64.0, x);
    Sixtyfourth(hitAvg - missAvg, x);
  }

  lemma Sixtyfourth(d: nat, x: real)
    requires d < D.MANTISSA && x == 1.0 / 64.0 * d as real
    ensures D.IsDouble(x) && x.Floor == d / 64
  {
    hide D.Power, D.IsDouble, D.HUGE;
    D.PowerInverse(2, -6);
    D.PowerIsWhole(2, 6);
    assert D.WholePower(2, 6) == 64;
    R.BinaryIsDouble(d, 6, x);
    var q := d / 64;
    assert d == 64 * q + d % 64;
    assert q as real <= x < q as real + 1.0;
  }

  /** So by default a line is marked if and only if it is a candidate above the noise that was counted as
      often as a miss is on the average, and a 64th of the way from there to a hit. */
  lemma DefaultVerdict(counts: seq<nat>, lines: seq<Prediction>, noise: nat, i: nat)
    requires |counts| == |lines| && i < |lines|
    requires Average(counts, lines, Miss) <= Average(counts, lines, Hit) < D.MANTISSA
    ensures var hitAvg, missAvg := Average(counts, lines, Hit), Average(counts, lines, Miss);
            Verdicts(counts, lines, 1.0 / 64.0, noise)[i] <==>
              && lines[i].potential && counts[i] > noise && counts[i] > 0
              && counts[i] >= missAvg + (hitAvg - missAvg) / 64
  {
    hide Average, Threshold;
    DefaultThreshold(Average(counts, lines, Hit), Average(counts, lines, Miss));
  }

  /** A larger multiplier does not lower the threshold. */
  lemma ThresholdMonotone(hitAvg: nat, missAvg: nat, low: real, high: real)
    requires missAvg <= hitAvg < TWO_64 && 0.0 <= low <= high <= 1.0 && RoundsDown(hitAvg - missAvg)
    ensures Threshold(hitAvg, missAvg, low) <= Threshold(hitAvg, missAvg, high)
  {
    hide Scaled, RoundsDown;
    var d := hitAvg - missAvg;
    ScaledBetween(low, d);
    ScaledBetween(high, d);
    ScaledMonotone(low, high, d);
    ThresholdSum(hitAvg, missAvg, low);
    ThresholdSum(hitAvg, missAvg, high);
  }

  lemma ScaledMonotone(low: real, high: real, d: nat)
    requires 0.0 <= low <= high <= 1.0 && d < TWO_64
    ensures Scaled(low, d) <= Scaled(high, d)
  {
    hide D.Round, Product;
    ProductAtMost(low, d);
    ProductAtMost(high, d);
    ProductMonotone(low, high, d);
  }

  lemma ProductMonotone(low: real, high: real, d: nat)
    requires 0.0 <= low <= high <= 1.0 && d < TWO_64
    ensures Product(low, d) <= Product(high, d)
  {
    hide D.Round, D.HUGE, D.IsDouble;
    DifferenceRounded(d);
    RealProduct(low, D.Round(d as real));
    RealMonotone(low, high, D.Round(d as real));
    R.RoundMonotone(low * D.Round(d as real), high * D.Round(d as real));
  }

  /** Nothing weak is reported: a marked line is a candidate above the noise, above zero and, with hits
      above misses, not below the average miss. */
  lemma WeakNeverMarked(counts: seq<nat>, lines: seq<Prediction>, multiplier: real, noise: nat, i: nat)
    requires |counts| == |lines| && i < |lines|
    requires Verdicts(counts, lines, multiplier, noise)[i]
    ensures lines[i].potential && counts[i] > noise && counts[i] > 0
    ensures var hitAvg, missAvg := Average(counts, lines, Hit), Average(counts, lines, Miss);
            0.0 <= multiplier <= 1.0 && missAvg <= hitAvg < TWO_64 && RoundsDown(hitAvg - missAvg) ==>
              counts[i] >= missAvg
  {
    hide Average, Scaled, RoundsDown;
    var hitAvg, missAvg := Average(counts, lines, Hit), Average(counts, lines, Miss);
    if 0.0 <= multiplier <= 1.0 && missAvg <= hitAvg < TWO_64 && RoundsDown(hitAvg - missAvg) {
      ThresholdBetween(hitAvg, missAvg, multiplier);
    }
  }

  /** No prefetch at least as strong as an ordinary hit goes unreported. */
  lemma StrongCandidatesMarked(counts: seq<nat>, lines: seq<Prediction>, multiplier: real, noise: nat, i: nat)
    requires |counts| == |lines| && 0.0 <= multiplier <= 1.0 && i < |lines|
    requires Average(counts, lines, Miss) <= Average(counts, lines, Hit) < TWO_64
    requires RoundsDown(Average(counts, lines, Hit) - Average(counts, lines, Miss))
    requires lines[i].potential && counts[i] > noise && counts[i] >= Max(Average(counts, lines, Hit), 1)
    ensures Verdicts(counts, lines, multiplier, noise)[i]
  {
    hide Average, Threshold, RoundsDown;
    ThresholdBetween(Average(counts, lines, Hit), Average(counts, lines, Miss), multiplier);
  }

  // ---------- misses above hits ----------

  /** No candidate counted up to `bound` times is marked. */
  ghost predicate OutOfReach(hitAvg: nat, missAvg: nat, multiplier: real, noise: nat, bound: nat) {
    forall count: nat :: count <= bound ==>
      !Verdict(count, Prediction(false, true), Threshold(hitAvg, missAvg, multiplier), noise)
  }

  lemma OutOfReachIff(hitAvg: nat, missAvg: nat, multiplier: real, noise: nat, bound: nat)
    ensures OutOfReach(hitAvg, missAvg, multiplier, noise, bound) <==>
              bound <= noise || bound < Threshold(hitAvg, missAvg, multiplier)
  {
    hide Threshold;
    assert Verdict(bound, Prediction(false, true), Threshold(hitAvg, missAvg, multiplier), noise) <==>
        !(bound <= noise || bound < Threshold(hitAvg, missAvg, multiplier));
  }

  lemma WrappedThreshold(hitAvg: nat, missAvg: nat, multiplier: real)
    requires hitAvg < missAvg < TWO_64 && 0.0 <= multiplier <= 1.0
    ensures var s := Scaled(multiplier, TWO_64 + hitAvg - missAvg);
            && 0 <= s <= TWO_64
            && Threshold(hitAvg, missAvg, multiplier)
               == if missAvg + s < TWO_64 then missAvg + s else Max(1, missAvg + s - TWO_64)
  {
    hide D.Round, Product;
    assert ToSize(hitAvg as int - missAvg) == TWO_64 + hitAvg - missAvg;
    ProductAtMost(multiplier, TWO_64 + hitAvg - missAvg);
  }

  lemma FloorBetween(x: real, low: int, high: int)
    ensures low <= x.Floor < high <==> low as real <= x < high as real
  {
  }

  /** With misses above hits the difference wraps around. For counts up to `bound`, the averages among
      them, no candidate at all can be reported if and only if the noise threshold rules them all out, or
      the multiplier takes the wrapped difference beyond the counts and not back around again. */
  lemma MissesAboveHits(hitAvg: nat, missAvg: nat, multiplier: real, noise: nat, bound: nat)
    requires hitAvg < missAvg <= bound < TWO_64 && 0.0 <= multiplier <= 1.0
    ensures var product := Product(multiplier, TWO_64 + hitAvg - missAvg);
            OutOfReach(hitAvg, missAvg, multiplier, noise, bound) <==>
              || bound <= noise
              || (bound + 1 - missAvg) as real <= product < (TWO_64 - missAvg) as real
  {
    hide OutOfReach, Product, Threshold, D.Round;
    var difference := TWO_64 + hitAvg - missAvg;
    ProductAtMost(multiplier, difference);
    WrappedThreshold(hitAvg, missAvg, multiplier);
    OutOfReachIff(hitAvg, missAvg, multiplier, noise, bound);
    FloorBetween(Product(multiplier, difference), bound + 1 - missAvg, TWO_64 - missAvg);
  }

  /** The default multiplier does, for all counts below 2^57. */
  lemma DefaultOutOfReach(hitAvg: nat, missAvg: nat, noise: nat, bound: nat)
    requires hitAvg < missAvg <= bound < 0x200_0000_0000_0000
    ensures OutOfReach(hitAvg, missAvg, 1.0 / 64.0, noise, bound)
  {
    hide OutOfReach, Product;
    DefaultProduct(TWO_64 + hitAvg - missAvg);
    MissesAboveHits(hitAvg, missAvg, 1.0 / 64.0, noise, bound);
  }

  lemma DefaultProduct(d: nat)
    requires 0xFE00_0000_0000_0000 <= d < TWO_64
    ensures 0x3F8_0000_0000_0000 as real <= Product(1.0 / 64.0, d) <= 0x400_0000_0000_0000 as real
  {
    hide D.Round, D.IsDouble, D.HUGE;
    DefaultDoubles();
    R.RoundBetween(0xFE00_0000_0000_0000 as real, d as real, TWO_64 as real);
    R.RoundBetween(0x3F8_0000_0000_0000 as real, 1.0 / 64.0 * D.Round(d as real), 0x400_0000_0000_0000 as real);
  }

  lemma DefaultDoubles()
    ensures D.IsDouble(0xFE00_0000_0000_0000 as real) && D.IsDouble(TWO_64 as real) && TWO_64 as real < D.HUGE
    ensures D.IsDouble(0x3F8_0000_0000_0000 as real) && D.IsDouble(0x400_0000_0000_0000 as real)
  {
    hide D.Power, D.Exponent, D.IsMagnitude;
    Two64IsDouble();
    D.PowerIsWhole(2, 5);
    D.PowerIsWhole(2, 6);
    D.PowerIsWhole(2, 11);
    assert D.WholePower(2, 5) == 32 && D.WholePower(2, 6) == 64 && D.WholePower(2, 11) == 2048;
    D.UnitsAreDouble(0x1F_C000_0000_0000, 11, 0xFE00_0000_0000_0000 as real);
    D.UnitsAreDouble(0x1F_C000_0000_0000, 5, 0x3F8_0000_0000_0000 as real);
    D.UnitsAreDouble(D.MANTISSA / 2, 6, 0x400_0000_0000_0000 as real);
  }
}
