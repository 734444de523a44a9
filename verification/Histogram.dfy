/** Collecting a histogram of cache hits, for any probe times. */
module Histogram {
  import opened CArithmetic
  import opened StrideModel

  /** The repetitions below `r` whose probe went to slot `c` of `n`. */
  function Probes(n: nat, c: nat, r: nat): nat
    requires n > 0
  {
    if r == 0 then 0 else Probes(n, c, r - 1) + if (r - 1) % n == c then 1 else 0
  }

  /** Those of them that were hits. `time(r)` is what the probe after repetition `r` measures: anything. */
  function Hits(time: nat -> nat, frThresh: nat, n: nat, c: nat, r: nat): nat
    requires n > 0
  {
    if r == 0 then 0
    else Hits(time, frThresh, n, c, r - 1) + if (r - 1) % n == c && time(r - 1) < frThresh then 1 else 0
  }

  function AllHits(time: nat -> nat, frThresh: nat, r: nat): nat {
    if r == 0 then 0 else AllHits(time, frThresh, r - 1) + if time(r - 1) < frThresh then 1 else 0
  }

  function Normalised(count: nat, rounds: nat): nat
    requires rounds > 0
  {
    count * 1000 / rounds
  }

  /** The first and the last access lie in the mapping. */
  predicate InMapping(e: Experiment, size: nat) {
    && e.firstAccessOffset < size
    && 0 <= e.firstAccessOffset + e.stride * e.step - e.stride < size
  }

  // ---------- collection ----------

  method ProbeSingle(histogram: array<nat>, idx: nat, time: nat, frThresh: nat)
    requires idx < histogram.Length
    modifies histogram
    ensures histogram[..] == old(histogram[..])[idx := old(histogram[idx]) + if time < frThresh then 1 else 0]
  {
    histogram[idx] := histogram[idx] + if time < frThresh then 1 else 0;
  }

  /** Every line reports its hits per thousand probes. */
  method CollectCacheHistogram(e: Experiment, size: nat, repetitions: nat, time: nat -> nat)
    returns (histogram: array<nat>)
    requires InMapping(e, size)
    requires size / CACHE_LINE_SIZE > 0 && repetitions >= size / CACHE_LINE_SIZE
    ensures histogram.Length == size / CACHE_LINE_SIZE
    ensures repetitions / histogram.Length > 0
    ensures forall c :: 0 <= c < histogram.Length ==>
              histogram[c] == Normalised(Hits(time, e.frThresh, histogram.Length, c, repetitions),
                                         repetitions / histogram.Length)
  {
    hide Normalised;
    var n := size / CACHE_LINE_SIZE;
    QuotientPositive(repetitions, n);
    histogram := new nat[n](_ => 0);
    for repetition := 0 to repetitions
      invariant forall c :: 0 <= c < n ==> histogram[c] == Hits(time, e.frThresh, n, c, repetition)
    {
      ghost var before := histogram[..];
      var probeIdx := repetition % n;
      ProbeSingle(histogram, probeIdx, time(repetition), e.frThresh);
      assert forall c :: 0 <= c < n ==>
               histogram[..][c] == histogram[c] && before[c] == Hits(time, e.frThresh, n, c, repetition);
    }
    for i := 0 to n
      invariant forall c :: 0 <= c < i ==>
                  histogram[c] == Normalised(Hits(time, e.frThresh, n, c, repetitions), repetitions / n)
      invariant forall c :: i <= c < n ==> histogram[c] == Hits(time, e.frThresh, n, c, repetitions)
    {
      histogram[i] := Normalised(histogram[i], repetitions / n);
    }
  }

  lemma QuotientPositive(r: nat, n: nat)
    requires 0 < n <= r
    ensures r / n > 0
  {
    DivMod(r, n);
  }

  // ---------- fairness ----------

  /** The turns go round: each line has been probed as often as any other, give or take one. */
  lemma {:induction false} ProbesFair(n: nat, c: nat, r: nat)
    requires c < n
    ensures Probes(n, c, r) == r / n + if c < r % n then 1 else 0
  {
    if r == 0 {
      DivMulPlus(0, n, 0);
    } else {
      ProbesFair(n, c, r - 1);
      NextTurn(r - 1, n);
    }
  }

  lemma NextTurn(r: nat, n: nat)
    requires 0 < n
    ensures r % n + 1 < n ==> (r + 1) / n == r / n && (r + 1) % n == r % n + 1
    ensures r % n + 1 >= n ==> r % n == n - 1 && (r + 1) / n == r / n + 1 && (r + 1) % n == 0
  {
    DivMod(r, n);
    var q := r / n;
    assert (q + 1) * n == q * n + n;
    if r % n + 1 < n {
      DivMulPlus(q, n, r % n + 1);
    } else {
      DivMulPlus(q + 1, n, 0);
    }
  }

  lemma {:induction false} HitsAtMostProbes(time: nat -> nat, frThresh: nat, n: nat, c: nat, r: nat)
    requires n > 0
    ensures Hits(time, frThresh, n, c, r) <= Probes(n, c, r)
  {
    if r > 0 {
      HitsAtMostProbes(time, frThresh, n, c, r - 1);
    }
  }

  // ---------- conservation ----------

  /** The hits of the first `k` lines together. */
  function HitsBelow(time: nat -> nat, frThresh: nat, n: nat, k: nat, r: nat): nat
    requires n > 0
  {
    if k == 0 then 0 else HitsBelow(time, frThresh, n, k - 1, r) + Hits(time, frThresh, n, k - 1, r)
  }

  lemma {:induction false} HitsBelowStep(time: nat -> nat, frThresh: nat, n: nat, k: nat, r: nat)
    requires n > 0
    ensures HitsBelow(time, frThresh, n, k, r + 1) ==
              HitsBelow(time, frThresh, n, k, r) + if r % n < k && time(r) < frThresh then 1 else 0
  {
    if k > 0 {
      HitsBelowStep(time, frThresh, n, k - 1, r);
    }
  }

  lemma {:induction false} NoHitsYet(time: nat -> nat, frThresh: nat, n: nat, k: nat)
    requires n > 0
    ensures HitsBelow(time, frThresh, n, k, 0) == 0
  {
    if k > 0 {
      NoHitsYet(time, frThresh, n, k - 1);
    }
  }

  /** No hit is lost and none is counted twice. */
  lemma {:induction false} HitsConserved(time: nat -> nat, frThresh: nat, n: nat, r: nat)
    requires n > 0
    ensures HitsBelow(time, frThresh, n, n, r) == AllHits(time, frThresh, r)
  {
    if r == 0 {
      NoHitsYet(time, frThresh, n, n);
    } else {
      HitsConserved(time, frThresh, n, r - 1);
      HitsBelowStep(time, frThresh, n, n, r - 1);
    }
  }

  // ---------- the scale ----------

  lemma NormalisedBelow(count: nat, rounds: nat, bound: nat)
    requires rounds > 0
    ensures Normalised(count, rounds) < bound <==> count * 1000 < bound * rounds
  {
    DivMod(count * 1000, rounds);
    var q := count * 1000 / rounds;
    assert (q + 1) * rounds == q * rounds + rounds;
    if q < bound {
      MulMonotone(q + 1, bound, rounds);
    } else {
      MulMonotone(bound, q, rounds);
    }
  }

  /** A value is the largest number of thousandths of the rounds that the hits reach. */
  lemma PerThousand(count: nat, rounds: nat, value: nat)
    requires rounds > 0
    ensures value == Normalised(count, rounds) <==> value * rounds <= count * 1000 < (value + 1) * rounds
  {
    hide Normalised;
    NormalisedBelow(count, rounds, value);
    NormalisedBelow(count, rounds, value + 1);
  }

  /** Values stay on a scale of a thousand, except that a line with one probe more than full rounds
      can exceed it by that probe's share. A thousand is reached by hits in number of the rounds. */
  lemma NormalisedRange(time: nat -> nat, frThresh: nat, n: nat, c: nat, r: nat)
    requires c < n <= r
    ensures r / n > 0
    ensures var value := Normalised(Hits(time, frThresh, n, c, r), r / n);
            && (c >= r % n ==> value <= 1000)
            && (c < r % n ==> value <= 1000 + 1000 / (r / n))
            && (value >= 1000 <==> Hits(time, frThresh, n, c, r) >= r / n)
  {
    hide Hits, Probes, Normalised;
    QuotientPositive(r, n);
    var rounds, hits := r / n, Hits(time, frThresh, n, c, r);
    HitsAtMostProbes(time, frThresh, n, c, r);
    ProbesFair(n, c, r);
    NormalisedBelow(hits, rounds, 1001);
    NormalisedBelow(hits, rounds, 1000);
    NormalisedBelow(hits, rounds, 1001 + 1000 / rounds);
    DivMod(1000, rounds);
    assert (1001 + 1000 / rounds) * rounds == 1001 * rounds + 1000 / rounds * rounds;
  }

  /** A value leaves the scale exactly if the line was probed once more than there are full rounds, all
      probes were hits, and there are at most a thousand rounds. */
  lemma AboveScale(time: nat -> nat, frThresh: nat, n: nat, c: nat, r: nat)
    requires c < n <= r
    ensures r / n > 0
    ensures Normalised(Hits(time, frThresh, n, c, r), r / n) > 1000 <==>
              Hits(time, frThresh, n, c, r) == r / n + 1 && r / n <= 1000
  {
    hide Hits, Probes, Normalised;
    QuotientPositive(r, n);
    HitsAtMostProbes(time, frThresh, n, c, r);
    ProbesFair(n, c, r);
    NormalisedBelow(Hits(time, frThresh, n, c, r), r / n, 1001);
  }

  lemma {:induction false} EveryProbeHits(time: nat -> nat, frThresh: nat, n: nat, c: nat, r: nat)
    requires n > 0 && forall k: nat :: time(k) < frThresh
    ensures Hits(time, frThresh, n, c, r) == Probes(n, c, r)
  {
    if r > 0 {
      EveryProbeHits(time, frThresh, n, c, r - 1);
    }
  }

  /** So the scale is kept whatever the probes measure if and only if the repetitions are a multiple of
      the lines, or more than a thousand times as many. */
  lemma ScaleKept(n: nat, r: nat)
    requires 0 < n <= r
    ensures r / n > 0
    ensures (forall time: nat -> nat, frThresh: nat, c: nat :: c < n ==>
               Normalised(Hits(time, frThresh, n, c, r), r / n) <= 1000) <==> r % n == 0 || r / n > 1000
  {
    hide Hits, Probes, Normalised;
    QuotientPositive(r, n);
    forall time: nat -> nat, frThresh: nat, c: nat | c < n && (r % n == 0 || r / n > 1000)
      ensures Normalised(Hits(time, frThresh, n, c, r), r / n) <= 1000
    {
      AboveScale(time, frThresh, n, c, r);
      HitsAtMostProbes(time, frThresh, n, c, r);
      ProbesFair(n, c, r);
    }
    if r % n != 0 && r / n <= 1000 {
      var fast := (_: nat) => 0;
      EveryProbeHits(fast, 1, n, 0, r);
      ProbesFair(n, 0, r);
      AboveScale(fast, 1, n, 0, r);
    }
  }
}
