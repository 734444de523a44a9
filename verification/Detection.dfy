/** Collection and evaluation together: what is reported for a cache. */
module Detection {
  import opened CArithmetic
  import opened Choices
  import opened Evaluate
  import opened Histogram
  import L = LazyProbing
  import S = Stride2D
  import opened StrideModel
  import opened StrideOracle

  /** What a run leaves in the cache: every line the workload loaded, and of the others only lines that
      a stride prefetcher might have fetched. Which of those it fetched is up to it. */
  ghost predicate CachedAsExpected(e: Experiment, n: nat, cached: nat -> bool)
  {
    forall c: nat :: c < n ==> (Loaded(e, c) ==> cached(c)) && (cached(c) ==> Loaded(e, c) || Next(e, c))
  }

  /** A probe is fast exactly when its line is cached. */
  ghost predicate ProbesTell(time: nat -> nat, frThresh: nat, n: nat, cached: nat -> bool)
    requires n > 0
  {
    forall r: nat :: time(r) < frThresh <==> cached(r % n)
  }

  /** The histogram of the collection. */
  function Values(time: nat -> nat, frThresh: nat, n: nat, r: nat): (values: seq<nat>)
    requires 0 < n <= r
    ensures |values| == n
  {
    QuotientPositive(r, n);
    seq(n, c requires 0 <= c < n => Normalised(Hits(time, frThresh, n, c, r), r / n))
  }

  lemma {:induction false} AllProbesAlike(time: nat -> nat, frThresh: nat, n: nat, cached: nat -> bool, c: nat, r: nat)
    requires c < n && ProbesTell(time, frThresh, n, cached)
    ensures Hits(time, frThresh, n, c, r) == if cached(c) then Probes(n, c, r) else 0
  {
    if r > 0 {
      AllProbesAlike(time, frThresh, n, cached, c, r - 1);
      assert time(r - 1) < frThresh <==> cached((r - 1) % n);
    }
  }

  /** Cached lines report a thousand or more, others nothing. */
  lemma ValuesTell(time: nat -> nat, frThresh: nat, n: nat, cached: nat -> bool, r: nat, c: nat)
    requires c < n <= r && ProbesTell(time, frThresh, n, cached)
    ensures if cached(c) then 1000 <= Values(time, frThresh, n, r)[c] <= 2000 else Values(time, frThresh, n, r)[c] == 0
  {
    hide Hits, Probes, Normalised, ProbesTell;
    QuotientPositive(r, n);
    AllProbesAlike(time, frThresh, n, cached, c, r);
    ProbesFair(n, c, r);
    NormalisedRange(time, frThresh, n, c, r);
    DivMod(1000, r / n);
    MulMonotone(1, r / n, 1000 / (r / n));
    NormalisedBelow(0, r / n, 1);
  }

  lemma {:induction false} SumBounded(counts: seq<nat>, lines: seq<Prediction>, kind: Kind, k: nat, bound: nat)
    requires |counts| == |lines| && k <= |lines|
    requires forall i :: 0 <= i < |lines| && KindOf(lines[i]) == kind ==> counts[i] <= bound
    ensures Sum(counts, lines, kind, k) <= bound * Number(lines, kind, k)
  {
    hide KindOf;
    if k > 0 {
      SumBounded(counts, lines, kind, k - 1, bound);
      OneMore(bound, Number(lines, kind, k - 1));
    }
  }

  lemma OneMore(bound: nat, x: nat)
    ensures bound * (x + 1) == bound * x + bound && bound * 0 == 0
  {
  }

  lemma AverageBounded(counts: seq<nat>, lines: seq<Prediction>, kind: Kind, bound: nat)
    requires |counts| == |lines|
    requires forall i :: 0 <= i < |lines| && KindOf(lines[i]) == kind ==> counts[i] <= bound
    ensures Average(counts, lines, kind) <= bound
  {
    hide Sum, Number, KindOf;
    SumBounded(counts, lines, kind, |lines|, bound);
    var n, sum := Number(lines, kind, |lines|), Sum(counts, lines, kind, |lines|);
    if n > 0 {
      DivMod(sum, n);
      OneMore(n, bound);
      if bound < sum / n {
        MulMonotone(bound + 1, sum / n, n);
      }
    }
  }

  lemma AtMostHalf(multiplier: real, x: real)
    requires 0.0 <= multiplier <= 0.5 && 0.0 <= x <= 2000.0
    ensures 0.0 <= multiplier * x <= 1000.0
  {
    RealProduct(multiplier, x);
    RealProduct(0.5 - multiplier, x);
    assert (0.5 - multiplier) * x == 0.5 * x - multiplier * x;
  }

  lemma ScaledByHalf(multiplier: real, d: nat)
    requires 0.0 <= multiplier <= 0.5 && d <= 2000
    ensures 0 <= Scaled(multiplier, d) <= 1000
  {
    hide D.Round, D.IsDouble, D.HUGE;
    SmallDifference(d);
    AtMostHalf(multiplier, D.Round(d as real));
    R.WholeIsDouble(0);
    R.WholeIsDouble(1000);
    R.RoundBetween(0.0, multiplier * D.Round(d as real), 1000.0);
  }

  lemma ThresholdLow(hitAvg: nat, multiplier: real)
    requires hitAvg <= 2000 && 0.0 <= multiplier <= 0.5
    ensures 1 <= Threshold(hitAvg, 0, multiplier) <= 1000
  {
    hide Scaled;
    ScaledByHalf(multiplier, hitAvg);
  }

  /** Each line's count tells whether it was cached. */
  ghost predicate CountsTell(counts: seq<nat>, cached: nat -> bool) {
    forall c: nat :: c < |counts| ==> if cached(c) then 1000 <= counts[c] <= 2000 else counts[c] == 0
  }

  lemma VerdictsTell(e: Experiment, counts: seq<nat>, cached: nat -> bool, multiplier: real, c: nat)
    requires e.stride != 0 && c < |counts| && 0.0 <= multiplier <= 0.5 && e.noiseThresh < 1000
    requires CachedAsExpected(e, |counts|, cached) && CountsTell(counts, cached)
    ensures Verdicts(counts, Predictions(e, |counts|), multiplier, e.noiseThresh)[c] <==>
              Next(e, c) && !Loaded(e, c) && cached(c)
  {
    hide LineAccessed, LinePotentialPrefetch, Threshold, Average, Loaded, Next;
    var lines := Predictions(e, |counts|);
    forall b: nat | b < |counts|
      ensures LineAccessed(e, b) <==> Loaded(e, b)
      ensures LinePotentialPrefetch(e, b) <==> Next(e, b) && !Loaded(e, b)
    {
      LineAccessedIffLoaded(e, b);
      CandidateIff(e, b);
    }
    AverageBounded(counts, lines, Hit, 2000);
    AverageBounded(counts, lines, Miss, 0);
    ThresholdLow(Average(counts, lines, Hit), multiplier);
  }

  /** Whatever the prefetcher fetched, for any number of repetitions, any multiplier up to one half
      (the default is 1/64) and any noise threshold below a thousand: a line is marked if and only if
      it comes next, was not loaded, and was really fetched. */
  lemma DetectsExactly(e: Experiment, n: nat, r: nat, time: nat -> nat, cached: nat -> bool, multiplier: real, c: nat)
    requires e.stride != 0 && c < n <= r && 0.0 <= multiplier <= 0.5 && e.noiseThresh < 1000
    requires CachedAsExpected(e, n, cached) && ProbesTell(time, e.frThresh, n, cached)
    ensures Verdicts(Values(time, e.frThresh, n, r), Predictions(e, n), multiplier, e.noiseThresh)[c] <==>
              Next(e, c) && !Loaded(e, c) && cached(c)
  {
    hide ProbesTell, CachedAsExpected, Values, Verdicts, Predictions, Loaded, Next;
    forall i: nat | i < n
      ensures if cached(i) then 1000 <= Values(time, e.frThresh, n, r)[i] <= 2000
              else Values(time, e.frThresh, n, r)[i] == 0
    {
      ValuesTell(time, e.frThresh, n, cached, r, i);
    }
    VerdictsTell(e, Values(time, e.frThresh, n, r), cached, multiplier, c);
  }

  // ---------- lazily ----------

  /** The histogram of the lazy collection. */
  function LazyValues(e: Experiment, size: nat, time: nat -> nat, r: nat): (values: seq<nat>)
    requires e.stride != 0 && e.firstAccessOffset < size && r >= |L.Slots(e, size)|
    ensures |values| == size / CACHE_LINE_SIZE
  {
    var slots := L.Slots(e, size);
    seq(size / CACHE_LINE_SIZE, line requires 0 <= line < size / CACHE_LINE_SIZE =>
      L.LazyValue(time, e.frThresh, slots, line, r))
  }

  ghost predicate LazyProbesTell(e: Experiment, size: nat, time: nat -> nat, cached: nat -> bool)
    requires e.stride != 0 && e.firstAccessOffset < size
  {
    var slots := L.Slots(e, size);
    forall k: nat :: time(k) < e.frThresh <==> cached(slots[k % |slots|])
  }

  lemma LazyCountsTell(e: Experiment, size: nat, r: nat, time: nat -> nat, cached: nat -> bool)
    requires e.stride != 0 && e.firstAccessOffset < size && size % CACHE_LINE_SIZE == 0
    requires Distinct(L.Slots(e, size)) && r >= |L.Slots(e, size)|
    requires CachedAsExpected(e, size / CACHE_LINE_SIZE, cached)
    requires LazyProbesTell(e, size, time, cached)
    ensures CountsTell(LazyValues(e, size, time, r), cached)
  {
    hide Loaded, Next, L.Slots, L.Grid, L.LazyValue, Normalised, Hits;
    var slots := L.Slots(e, size);
    var m := |slots|;
    var inSlot := (c: nat) => c < m && cached(slots[c]);
    assert ProbesTell(time, e.frThresh, m, inSlot);
    L.DistinctNormalisedOnce(e, size, r, time, e.frThresh);
    forall line: nat | line < size / CACHE_LINE_SIZE
      ensures var count := LazyValues(e, size, time, r)[line];
              if cached(line) then 1000 <= count <= 2000 else count == 0
    {
      if line in slots {
        var c :| 0 <= c < m && slots[c] == line;
        ValuesTell(time, e.frThresh, m, inSlot, r, c);
      } else if Loaded(e, line) || Next(e, line) {
        L.ProbesWhatMatters(e, size, line);
      }
    }
  }

  /** As long as it lists no line twice the lazy collection leads to the same verdicts as the full scan. */
  lemma LazyDetectsExactly(e: Experiment, size: nat, r: nat, time: nat -> nat, cached: nat -> bool, multiplier: real,
                           line: nat)
    requires e.stride != 0 && e.firstAccessOffset < size && size % CACHE_LINE_SIZE == 0
    requires Distinct(L.Slots(e, size)) && r >= |L.Slots(e, size)| && line < size / CACHE_LINE_SIZE
    requires 0.0 <= multiplier <= 0.5 && e.noiseThresh < 1000
    requires CachedAsExpected(e, size / CACHE_LINE_SIZE, cached)
    requires LazyProbesTell(e, size, time, cached)
    ensures var verdicts := Verdicts(LazyValues(e, size, time, r), Predictions(e, size / CACHE_LINE_SIZE), multiplier,
                                     e.noiseThresh);
            verdicts[line] <==> Next(e, line) && !Loaded(e, line) && cached(line)
  {
    hide Loaded, Next, CachedAsExpected, L.Slots, LazyValues, LazyProbesTell, CountsTell, Verdicts, Predictions;
    LazyCountsTell(e, size, r, time, cached);
    VerdictsTell(e, LazyValues(e, size, time, r), cached, multiplier, line);
  }

  // ---------- whatever else is cached ----------

  lemma {:induction false} SumExact(counts: seq<nat>, lines: seq<Prediction>, kind: Kind, k: nat, value: nat)
    requires |counts| == |lines| && k <= |lines|
    requires forall i :: 0 <= i < |lines| && KindOf(lines[i]) == kind ==> counts[i] == value
    ensures Sum(counts, lines, kind, k) == value * Number(lines, kind, k)
    ensures forall i :: 0 <= i < k && KindOf(lines[i]) == kind ==> Number(lines, kind, k) > 0
  {
    hide KindOf;
    OneMore(value, 0);
    if k > 0 {
      SumExact(counts, lines, kind, k - 1, value);
      OneMore(value, Number(lines, kind, k - 1));
    }
  }

  lemma AverageExact(counts: seq<nat>, lines: seq<Prediction>, kind: Kind, value: nat, i: nat)
    requires |counts| == |lines| && i < |lines| && KindOf(lines[i]) == kind
    requires forall i :: 0 <= i < |lines| && KindOf(lines[i]) == kind ==> counts[i] == value
    ensures Average(counts, lines, kind) == value
  {
    hide Sum, Number, KindOf;
    SumExact(counts, lines, kind, |lines|, value);
    DivMulPlus(value, Number(lines, kind, |lines|), 0);
  }

  /** With hits all alike and nothing above them, a candidate that is as strong is marked, whatever was
      counted elsewhere. */
  lemma AsStrongAsHits(counts: seq<nat>, lines: seq<Prediction>, multiplier: real, noise: nat, value: nat, hit: nat,
                       i: nat)
    requires |counts| == |lines| && 0.0 <= multiplier <= 1.0 && hit < |lines| && i < |lines|
    requires forall j :: 0 <= j < |lines| ==> counts[j] <= value && (lines[j].accessed ==> counts[j] == value)
    requires lines[hit].accessed && noise < value < D.MANTISSA
    ensures counts[i] == value ==> (Verdicts(counts, lines, multiplier, noise)[i] <==> lines[i].potential)
    ensures counts[i] == 0 ==> !Verdicts(counts, lines, multiplier, noise)[i]
  {
    hide Average, Verdicts, D.Round;
    AverageExact(counts, lines, Hit, value, hit);
    AverageBounded(counts, lines, Miss, value);
    SmallDifference(value - Average(counts, lines, Miss));
    if Verdicts(counts, lines, multiplier, noise)[i] {
      WeakNeverMarked(counts, lines, multiplier, noise, i);
    } else if counts[i] == value && lines[i].potential {
      StrongCandidatesMarked(counts, lines, multiplier, noise, i);
    }
  }

  /** If all lines are probed equally often, or so often that it makes no difference, a value is a
      thousand or nothing. */
  lemma ValuesSharp(time: nat -> nat, frThresh: nat, n: nat, cached: nat -> bool, r: nat, c: nat)
    requires c < n <= r && ProbesTell(time, frThresh, n, cached)
    ensures r / n > 0
    ensures r % n == 0 || r / n > 1000 ==>
              Values(time, frThresh, n, r)[c] == if cached(c) then 1000 else 0
  {
    hide Hits, Probes, Normalised, ProbesTell;
    QuotientPositive(r, n);
    ValuesTell(time, frThresh, n, cached, r, c);
    AllProbesAlike(time, frThresh, n, cached, c, r);
    ProbesFair(n, c, r);
    AboveScale(time, frThresh, n, c, r);
  }

  /** The same verdicts if other lines are cached too, for whatever reason: hits then set the threshold.
      For every multiplier up to one. */
  lemma DetectsDespiteNoise(e: Experiment, n: nat, r: nat, time: nat -> nat, cached: nat -> bool, multiplier: real,
                            c: nat)
    requires e.stride != 0 && 0 < e.step && L.LineOf(e.firstAccessOffset) < n
    requires c < n <= r && (r % n == 0 || r / n > 1000)
    requires 0.0 <= multiplier <= 1.0 && e.noiseThresh < 1000
    requires forall b: nat :: b < n && Loaded(e, b) ==> cached(b)
    requires ProbesTell(time, e.frThresh, n, cached)
    ensures Verdicts(Values(time, e.frThresh, n, r), Predictions(e, n), multiplier, e.noiseThresh)[c] <==>
              Next(e, c) && !Loaded(e, c) && cached(c)
  {
    hide LineAccessed, LinePotentialPrefetch, ProbesTell, Values, Verdicts, Loaded, Next;
    var counts, lines := Values(time, e.frThresh, n, r), Predictions(e, n);
    forall b: nat | b < n
      ensures counts[b] == if cached(b) then 1000 else 0
      ensures LineAccessed(e, b) ==> cached(b)
    {
      ValuesSharp(time, e.frThresh, n, cached, r, b);
      LineAccessedIffLoaded(e, b);
    }
    CandidateIff(e, c);
    FirstLineAccessed(e);
    AsStrongAsHits(counts, lines, multiplier, e.noiseThresh, 1000, L.LineOf(e.firstAccessOffset), c);
  }

  lemma FirstLineAccessed(e: Experiment)
    requires e.stride != 0 && 0 < e.step
    ensures LineAccessed(e, L.LineOf(e.firstAccessOffset))
  {
    hide InLine, L.LineOf;
    LineAccessedIffLoaded(e, L.LineOf(e.firstAccessOffset));
    L.LineOfIff(e.firstAccessOffset, L.LineOf(e.firstAccessOffset));
    assert Loads(e)[0] == e.firstAccessOffset;
  }

  // ---------- in two dimensions ----------

  /** The end to end statement in two dimensions, where a counter stands for a byte. Whatever else is in
      the cache: a byte is marked if and only if it is cached and either a position that later periods
      would load or the end of the run, which was loaded. */
  lemma Detects2DExactly(p: S.Pattern, n: nat, r: nat, time: nat -> nat, frThresh: nat, cached: nat -> bool,
                         multiplier: real, noise: nat, byte: nat)
    requires S.Steady(p) && S.FitsInt(p) && 0 < p.step && p.first < n
    requires byte < n <= r && (r % n == 0 || r / n > 1000)
    requires 0.0 <= multiplier <= 1.0 && noise < 1000
    requires forall b: nat :: b < n ==> (b in S.Loads(p, p.step) ==> cached(b)) && !S.Mirrored(p, b - p.first)
    requires ProbesTell(time, frThresh, n, cached)
    ensures var marked := Verdicts(Values(time, frThresh, n, r), Predictions2D(p, n), multiplier, noise)[byte];
            && (marked <==> cached(byte) && S.Later(p, byte - p.first))
            && (byte in S.Loads(p, p.step) ==> (marked <==> byte == p.first + p.step * S.Period(p)))
  {
    hide S.Steady, S.FitsInt, S.Period, S.OffsetAccessed, S.OffsetPotentialPrefetch, S.Loads, S.Mirrored, S.Later,
      ProbesTell, Values, Verdicts;
    var counts, lines := Values(time, frThresh, n, r), Predictions2D(p, n);
    forall b: nat | b < n
      ensures counts[b] == if cached(b) then 1000 else 0
      ensures S.OffsetAccessed(p, b) ==> cached(b)
    {
      ValuesSharp(time, frThresh, n, cached, r, b);
      if S.OffsetAccessed(p, b) {
        S.AccessedIsLoaded(p, b);
      }
    }
    S.StartAccessed(p);
    AsStrongAsHits(counts, lines, multiplier, noise, 1000, p.first, byte);
    S.PotentialIffLater(p, byte - p.first);
    if byte in S.Loads(p, p.step) {
      S.LoadedAndPotential(p, byte);
    }
  }

  /** The pattern of `test_2D_steps`, the two-dimensional test that is run: 128 steps of four bytes. */
  const STEPS_TEST := S.Pattern(4, 1, 0, 126, 128, 0)

  /** It reports a prefetch at byte 512, which the workload loads itself, whatever the prefetcher did and
      whatever else was in the cache. */
  lemma StepsTestMarksOwnLoad(time: nat -> nat, frThresh: nat, cached: nat -> bool, noise: nat)
    requires forall b: nat :: b in S.Loads(STEPS_TEST, 1) ==> cached(b)
    requires ProbesTell(time, frThresh, 4096, cached) && noise <= 1000
    ensures 512 in S.Loads(STEPS_TEST, 1)
    ensures Verdicts(Values(time, frThresh, 4096, 400000), Predictions2D(STEPS_TEST, 4096), 1.0 / 64.0, noise)[512]
  {
    hide S.OffsetAccessed, S.OffsetPotentialPrefetch, S.Loads, S.OnPattern, ProbesTell, Values, Verdicts;
    var p, n, r := STEPS_TEST, 4096, 400000;
    var counts, lines := Values(time, frThresh, n, r), Predictions2D(p, n);
    assert r / n == 97 && r % n == 2688;
    S.StartAccessed(p);
    S.EndOnPattern(p);
    S.LoadedIff(p, 512);
    S.LoadedAndPotential(p, 512);
    forall b: nat | b < n
      ensures counts[b] <= 1010 && (b in S.Loads(p, 1) ==> counts[b] == 1010)
      ensures S.OffsetAccessed(p, b) ==> b in S.Loads(p, 1)
    {
      StepsTestValue(time, frThresh, cached, b);
      S.LoadedIff(p, b);
      if S.OffsetAccessed(p, b) {
        S.AccessedIsLoaded(p, b);
      }
    }
    AsStrongAsHits(counts, lines, 1.0 / 64.0, noise, 1010, 0, 512);
  }

  /** The first 2688 bytes are probed 98 times, the others 97 times. */
  lemma StepsTestValue(time: nat -> nat, frThresh: nat, cached: nat -> bool, b: nat)
    requires ProbesTell(time, frThresh, 4096, cached) && b < 4096
    ensures var value := Values(time, frThresh, 4096, 400000)[b];
            value <= 1010 && (cached(b) && b < 2688 ==> value == 1010)
  {
    hide Hits, Probes, ProbesTell;
    AllProbesAlike(time, frThresh, 4096, cached, b, 400000);
    ProbesFair(4096, b, 400000);
  }
}
