/** The collection that probes only the lines on the stride grid. */
module LazyProbing {
  import opened CArithmetic
  import opened Choices
  import H = Histogram
  import opened StrideModel
  import opened StrideOracle

  // ---------- the index list ----------

  predicate Inside(a: int, d: int, size: nat) {
    if d > 0 then a < size else a >= 0
  }

  /** `a`, `a + d`, `a + 2d` and so on, as long as it stays on the near side of the end ahead. */
  function Walk(a: int, d: int, size: nat): seq<int>
    requires d != 0
    decreases if d > 0 then size - a else a + 1
  {
    if Inside(a, d, size) then [a] + Walk(a + d, d, size) else []
  }

  /** The offsets to probe: forwards from the first access, then backwards. */
  function Grid(e: Experiment, size: nat): seq<int>
    requires e.stride != 0
  {
    Walk(e.firstAccessOffset, e.stride, size) + Walk(e.firstAccessOffset - e.stride, -e.stride, size)
  }

  /** One of the two loops that collect indices; the backward one runs with the stride negated. */
  method PushIndices(start: int, d: int, size: nat) returns (indices: seq<int>)
    requires d != 0
    ensures indices == Indices(Walk(start, d, size))
  {
    hide Walk, Quotient;
    indices := [];
    var offset := start;
    ghost var seen := [];
    while if d > 0 then offset < size else offset >= 0
      invariant indices == Indices(seen) && seen + Walk(offset, d, size) == Walk(start, d, size)
      decreases if d > 0 then size - offset else offset + 1
    {
      WalkStep(offset, d, size, seen);
      indices := indices + [Quotient(offset, CACHE_LINE_SIZE)];
      seen := seen + [offset];
      offset := offset + d;
    }
    WalkStep(offset, d, size, seen);
  }

  function Indices(offsets: seq<int>): seq<int> {
    seq(|offsets|, i requires 0 <= i < |offsets| => Quotient(offsets[i], CACHE_LINE_SIZE))
  }

  method IndicesToProbe(e: Experiment, size: nat) returns (indices: seq<int>)
    requires e.stride != 0
    ensures indices == Indices(Grid(e, size))
  {
    hide Walk, Quotient;
    var forwards := PushIndices(e.firstAccessOffset, e.stride, size);
    var backwards := PushIndices(e.firstAccessOffset - e.stride, -e.stride, size);
    indices := forwards + backwards;
  }

  lemma WalkStep(a: int, d: int, size: nat, seen: seq<int>)
    requires d != 0
    ensures if (if d > 0 then a < size else a >= 0)
            then (seen + [a]) + Walk(a + d, d, size) == seen + Walk(a, d, size)
            else Walk(a, d, size) == [] && seen + Walk(a, d, size) == seen
  {
  }

  // ---------- what the list holds ----------

  lemma {:induction false} WalkAt(a: int, d: int, size: nat, i: nat)
    requires d != 0 && i < |Walk(a, d, size)|
    ensures Walk(a, d, size)[i] == a + i * d && Inside(a + i * d, d, size)
    decreases i
  {
    hide Inside;
    if i > 0 {
      WalkAt(a + d, d, size, i - 1);
      assert i * d == (i - 1) * d + d;
    } else {
      assert 0 * d == 0;
    }
  }

  /** The walk stops only at the end of the mapping. */
  lemma {:induction false} WalkReaches(a: int, d: int, size: nat, k: nat)
    requires d != 0 && Inside(a + k * d, d, size)
    ensures k < |Walk(a, d, size)|
    decreases k
  {
    assert 0 * d == 0;
    MulSign(k, d);
    if k > 0 {
      assert k * d == (k - 1) * d + d;
      WalkReaches(a + d, d, size, k - 1);
    }
  }

  lemma MulSign(k: nat, d: int)
    ensures d > 0 ==> k * d >= 0
    ensures d < 0 ==> k * d <= 0
  {
    if d > 0 { MulMonotone(0, k, d); }
    if d < 0 { MulMonotone(0, k, -d); assert k * -d == -(k * d); }
  }

  /** Which access, done or not, entry `i` of the list belongs to: 0, 1, 2, ... and then -1, -2, ... */
  function Turn(e: Experiment, size: nat, i: nat): int
    requires e.stride != 0
  {
    var m := |Walk(e.firstAccessOffset, e.stride, size)|;
    if i < m then i else m - 1 - i
  }

  lemma GridAt(e: Experiment, size: nat, i: nat)
    requires e.stride != 0 && e.firstAccessOffset < size && i < |Grid(e, size)|
    ensures Grid(e, size)[i] == AccessOffset(e, Turn(e, size, i))
    ensures 0 <= Grid(e, size)[i] < size
  {
    hide Walk;
    var first, s := e.firstAccessOffset, e.stride;
    var m := |Walk(first, s, size)|;
    if i < m {
      WalkAt(first, s, size, i);
      MulSign(i, s);
    } else {
      var j := i - m;
      WalkAt(first - s, -s, size, j);
      MulSign(j + 1, s);
      assert first - s + j * -s == first + (-1 - j) * s && (-1 - j) * s == -((j + 1) * s);
    }
  }

  lemma GridReaches(e: Experiment, size: nat, k: int)
    requires e.stride != 0 && e.firstAccessOffset < size && 0 <= AccessOffset(e, k) < size
    ensures exists i :: 0 <= i < |Grid(e, size)| && Grid(e, size)[i] == AccessOffset(e, k)
  {
    hide Walk;
    var first, s := e.firstAccessOffset, e.stride;
    var m := |Walk(first, s, size)|;
    if k >= 0 {
      WalkReaches(first, s, size, k);
      WalkAt(first, s, size, k);
      assert Grid(e, size)[k] == AccessOffset(e, k);
    } else {
      var j := -1 - k;
      assert first - s + j * -s == first + k * s;
      WalkReaches(first - s, -s, size, j);
      WalkAt(first - s, -s, size, j);
      assert Grid(e, size)[m + j] == AccessOffset(e, k);
    }
  }

  function LineOf(offset: nat): nat {
    offset / CACHE_LINE_SIZE
  }

  lemma LineOfIff(offset: nat, line: nat)
    ensures LineOf(offset) == line <==> InLine(offset, line)
    ensures Quotient(offset, CACHE_LINE_SIZE) == LineOf(offset)
  {
  }

  /** The list of lines to probe, for a first access inside the mapping. */
  function Slots(e: Experiment, size: nat): (slots: seq<nat>)
    requires e.stride != 0 && e.firstAccessOffset < size
    ensures |slots| == |Grid(e, size)| && |slots| > 0
  {
    hide Walk, LineOf, Turn;
    assert |Walk(e.firstAccessOffset, e.stride, size)| > 0 by {
      assert 0 * e.stride == 0;
      WalkReaches(e.firstAccessOffset, e.stride, size, 0);
    }
    seq(|Grid(e, size)|, i requires 0 <= i < |Grid(e, size)| =>
      GridAt(e, size, i);
      LineOf(Grid(e, size)[i]))
  }

  /** A line is probed exactly when it holds an offset of the mapping on the stride grid. */
  lemma ProbedIffOnGrid(e: Experiment, size: nat, line: nat)
    requires e.stride != 0 && e.firstAccessOffset < size
    ensures line in Slots(e, size) <==>
              exists offset :: 0 <= offset < size && InLine(offset, line)
                               && Remainder(offset - e.firstAccessOffset, e.stride) == 0
  {
    hide Walk, LineOf, InLine, Remainder, Quotient, AccessOffset, Grid, Turn;
    if line in Slots(e, size) {
      var i :| 0 <= i < |Slots(e, size)| && Slots(e, size)[i] == line;
      GridAt(e, size, i);
      var offset := Grid(e, size)[i];
      OffsetStep(e, offset);
      LineOfIff(offset, line);
      assert 0 <= offset < size && InLine(offset, line);
    }
    if exists offset :: 0 <= offset < size && InLine(offset, line)
                        && Remainder(offset - e.firstAccessOffset, e.stride) == 0 {
      var offset :| 0 <= offset < size && InLine(offset, line)
                    && Remainder(offset - e.firstAccessOffset, e.stride) == 0;
      OffsetStep(e, offset);
      GridReaches(e, size, Quotient(offset - e.firstAccessOffset, e.stride));
      var i :| 0 <= i < |Grid(e, size)| && Grid(e, size)[i] == offset;
      LineOfIff(offset, line);
      assert Slots(e, size)[i] == line;
    }
  }

  /** So no line that matters is skipped: every line that was loaded or comes next is probed. */
  lemma ProbesWhatMatters(e: Experiment, size: nat, line: nat)
    requires e.stride != 0 && e.firstAccessOffset < size
    requires size % CACHE_LINE_SIZE == 0 && line < size / CACHE_LINE_SIZE
    requires Loaded(e, line) || Next(e, line)
    ensures line in Slots(e, size)
  {
    hide Slots, Remainder, Quotient, Loaded, Next;
    LineAccessedIffLoaded(e, line);
    NextIffPotential(e, line);
    var offset :| InLine(offset, line) && (OffsetAccessed(e, offset) || OffsetPotentialPrefetch(e, offset));
    assert 0 <= offset < size;
    ProbedIffOnGrid(e, size, line);
  }

  lemma SlotsInHistogram(e: Experiment, size: nat)
    requires e.stride != 0 && e.firstAccessOffset < size && size % CACHE_LINE_SIZE == 0
    ensures forall i :: 0 <= i < |Slots(e, size)| ==> Slots(e, size)[i] < size / CACHE_LINE_SIZE
  {
    hide Walk, Grid, Turn;
    forall i | 0 <= i < |Slots(e, size)|
      ensures Slots(e, size)[i] < size / CACHE_LINE_SIZE
    {
      GridAt(e, size, i);
    }
  }

  /** A stride of at least a line never lists a line twice. */
  lemma WideStridesDistinct(e: Experiment, size: nat)
    requires e.stride != 0 && e.firstAccessOffset < size && Abs(e.stride) >= CACHE_LINE_SIZE
    ensures Distinct(Slots(e, size))
  {
    hide Walk, LineOf, AccessOffset, Grid;
    forall i, j | 0 <= i < j < |Slots(e, size)|
      ensures Slots(e, size)[i] != Slots(e, size)[j]
    {
      GridAt(e, size, i);
      GridAt(e, size, j);
      AccessesApart(e, Turn(e, size, i), Turn(e, size, j));
      LineOfIff(Grid(e, size)[i], Slots(e, size)[i]);
      LineOfIff(Grid(e, size)[j], Slots(e, size)[j]);
    }
  }

  /** A grid offset whose successor lies in the mapping and in the same line. */
  predicate Shared(e: Experiment, size: nat, offset: int)
    requires e.stride != 0
  {
    && Remainder(offset - e.firstAccessOffset, e.stride) == 0
    && 0 <= offset && offset + Abs(e.stride) < size
    && offset % CACHE_LINE_SIZE + Abs(e.stride) < CACHE_LINE_SIZE
  }

  /** Two entries of the list that name one line are the trace of such an offset. */
  lemma TwiceListedShared(e: Experiment, size: nat, i: nat, j: nat) returns (offset: int)
    requires e.stride != 0 && e.firstAccessOffset < size && i < j < |Slots(e, size)|
    requires Slots(e, size)[i] == Slots(e, size)[j]
    ensures Shared(e, size, offset)
  {
    hide Walk, AccessOffset, Grid, Remainder, Quotient;
    GridAt(e, size, i);
    GridAt(e, size, j);
    AccessesApart(e, Turn(e, size, i), Turn(e, size, j));
    offset := if Grid(e, size)[i] < Grid(e, size)[j] then Grid(e, size)[i] else Grid(e, size)[j];
    OffsetStep(e, offset);
  }

  /** And such an offset has its line listed twice, once for it and once for its successor. */
  lemma SharedTwiceListed(e: Experiment, size: nat, offset: int)
    requires e.stride != 0 && e.firstAccessOffset < size && Shared(e, size, offset)
    ensures !Distinct(Slots(e, size))
  {
    hide Walk, Grid, Remainder, Quotient, AccessOffset, Turn;
    var k := Quotient(offset - e.firstAccessOffset, e.stride);
    OffsetStep(e, offset);
    NextUp(e, k);
    GridReaches(e, size, k);
    GridReaches(e, size, if e.stride > 0 then k + 1 else k - 1);
    var i :| 0 <= i < |Grid(e, size)| && Grid(e, size)[i] == offset;
    var j :| 0 <= j < |Grid(e, size)| && Grid(e, size)[j] == offset + Abs(e.stride);
    SameLine(offset, Abs(e.stride));
    assert Slots(e, size)[i] == LineOf(offset) && Slots(e, size)[j] == LineOf(offset + Abs(e.stride));
  }

  lemma NextUp(e: Experiment, k: int)
    ensures AccessOffset(e, if e.stride > 0 then k + 1 else k - 1) == AccessOffset(e, k) + Abs(e.stride)
  {
    assert (k + 1) * e.stride == k * e.stride + e.stride && (k - 1) * e.stride == k * e.stride - e.stride;
  }

  lemma SameLine(offset: nat, d: nat)
    requires offset % CACHE_LINE_SIZE + d < CACHE_LINE_SIZE
    ensures LineOf(offset + d) == LineOf(offset)
  {
  }

  /** Exactly when no line is listed twice: for strides of at least a line, and for shorter ones if no
      two neighbouring grid offsets of the mapping share a line. */
  lemma DistinctIff(e: Experiment, size: nat)
    requires e.stride != 0 && e.firstAccessOffset < size
    ensures Distinct(Slots(e, size)) <==>
              Abs(e.stride) >= CACHE_LINE_SIZE || !exists offset :: Shared(e, size, offset)
  {
    hide Slots, Shared;
    if Abs(e.stride) >= CACHE_LINE_SIZE {
      WideStridesDistinct(e, size);
    } else if exists offset :: Shared(e, size, offset) {
      var offset :| Shared(e, size, offset);
      SharedTwiceListed(e, size, offset);
    } else if !Distinct(Slots(e, size)) {
      var i: nat, j: nat :| i < j < |Slots(e, size)| && Slots(e, size)[i] == Slots(e, size)[j];
      var offset := TwiceListedShared(e, size, i, j);
    }
  }

  lemma {:induction false} WalkLeaves(a: int, d: int, size: nat)
    requires d != 0
    ensures !Inside(a + |Walk(a, d, size)| * d, d, size)
  {
    hide Inside;
    if Inside(a + |Walk(a, d, size)| * d, d, size) {
      WalkReaches(a, d, size, |Walk(a, d, size)|);
    }
  }

  /** The grid leaves no room for another stride. */
  lemma GridFills(e: Experiment, size: nat)
    requires e.stride != 0 && e.firstAccessOffset < size
    ensures (|Grid(e, size)| + 1) * Abs(e.stride) > size
  {
    hide Walk;
    var first, s := e.firstAccessOffset, e.stride;
    var m, n := |Walk(first, s, size)|, |Walk(first - s, -s, size)|;
    WalkLeaves(first, s, size);
    WalkLeaves(first - s, -s, size);
    assert (m + n + 1) * s == m * s - n * -s + s;
    assert (m + n + 1) * -s == -((m + n + 1) * s);
  }

  /** Short strides in a mapping of enough lines always list one twice: strides up to half a line in any
      mapping, and all strides below a line if there are at least 63 lines, which is a page. */
  lemma NarrowStridesRepeat(e: Experiment, size: nat)
    requires e.stride != 0 && e.firstAccessOffset < size && size % CACHE_LINE_SIZE == 0
    requires Abs(e.stride) <= 32 || (Abs(e.stride) < CACHE_LINE_SIZE && size >= 63 * CACHE_LINE_SIZE)
    ensures !Distinct(Slots(e, size))
  {
    hide Slots, Grid;
    var lines, s := size / CACHE_LINE_SIZE, Abs(e.stride);
    if Distinct(Slots(e, size)) {
      SlotsInHistogram(e, size);
      DistinctBelow(Slots(e, size), lines);
      GridFills(e, size);
      MulMonotone(|Grid(e, size)| + 1, lines + 1, s);
      assert (lines + 1) * s == lines * s + s;
      if s <= 32 {
        MulMonotone(s, 32, lines);
      } else {
        MulMonotone(s, 63, lines);
      }
      assert false;
    }
  }

  // ---------- collection ----------

  /** The hits among the first `r` probes that went to `line`. */
  function LineHits(time: nat -> nat, frThresh: nat, slots: seq<nat>, line: nat, r: nat): nat
    requires |slots| > 0
  {
    if r == 0 then
      0
    else
      var hit := slots[(r - 1) % |slots|] == line && time(r - 1) < frThresh;
      LineHits(time, frThresh, slots, line, r - 1) + if hit then 1 else 0
  }

  function Occurrences(slots: seq<nat>, line: nat, k: nat): nat
    requires k <= |slots|
  {
    if k == 0 then 0 else Occurrences(slots, line, k - 1) + if slots[k - 1] == line then 1 else 0
  }

  function NormalisedTimes(count: nat, rounds: nat, times: nat): nat
    requires rounds > 0
  {
    if times == 0 then count else H.Normalised(NormalisedTimes(count, rounds, times - 1), rounds)
  }

  /** A counter ends up normalised once for every time its line is in the list. */
  function LazyValue(time: nat -> nat, frThresh: nat, slots: seq<nat>, line: nat, r: nat): nat
    requires 0 < |slots| <= r
  {
    H.QuotientPositive(r, |slots|);
    NormalisedTimes(LineHits(time, frThresh, slots, line, r), r / |slots|, Occurrences(slots, line, |slots|))
  }

  lemma LineHitsStep(time: nat -> nat, frThresh: nat, slots: seq<nat>, line: nat, r: nat)
    requires |slots| > 0
    ensures LineHits(time, frThresh, slots, line, r + 1) ==
              LineHits(time, frThresh, slots, line, r)
              + if slots[r % |slots|] == line && time(r) < frThresh then 1 else 0
    ensures LineHits(time, frThresh, slots, line, 0) == 0
  {
  }

  method CollectCacheHistogramLazy(e: Experiment, size: nat, repetitions: nat, time: nat -> nat)
    returns (histogram: array<nat>)
    requires e.stride != 0 && H.InMapping(e, size) && size % CACHE_LINE_SIZE == 0
    requires repetitions >= |Slots(e, size)|
    ensures histogram.Length == size / CACHE_LINE_SIZE
    ensures forall line :: 0 <= line < histogram.Length ==>
              histogram[line] == LazyValue(time, e.frThresh, Slots(e, size), line, repetitions)
  {
    hide Slots, Walk, Grid, Quotient, H.Normalised, LineOf, LineHits, NormalisedTimes, Occurrences;
    var list := IndicesToProbe(e, size);
    SlotsAreIndices(e, size, list);
    var slots: seq<nat> := list;
    SlotsInHistogram(e, size);
    histogram := new nat[size / CACHE_LINE_SIZE](_ => 0);
    forall c: nat { LineHitsStep(time, e.frThresh, slots, c, 0); }
    for repetition := 0 to repetitions
      invariant forall c :: 0 <= c < histogram.Length ==>
                  histogram[..][c] == LineHits(time, e.frThresh, slots, c, repetition)
    {
      forall c: nat { LineHitsStep(time, e.frThresh, slots, c, repetition); }
      var probeIdx := slots[repetition % |slots|];
      H.ProbeSingle(histogram, probeIdx, time(repetition), e.frThresh);
    }
    assert forall c :: 0 <= c < histogram.Length ==> histogram[c] == histogram[..][c];
    H.QuotientPositive(repetitions, |slots|);
    NormaliseListed(histogram, slots, repetitions / |slots|);
  }

  method NormaliseListed(histogram: array<nat>, slots: seq<nat>, rounds: nat)
    requires rounds > 0 && forall i :: 0 <= i < |slots| ==> slots[i] < histogram.Length
    modifies histogram
    ensures forall c :: 0 <= c < histogram.Length ==>
              histogram[c] == NormalisedTimes(old(histogram[c]), rounds, Occurrences(slots, c, |slots|))
  {
    hide H.Normalised;
    for k := 0 to |slots|
      invariant forall c :: 0 <= c < histogram.Length ==>
                  histogram[c] == NormalisedTimes(old(histogram[c]), rounds, Occurrences(slots, c, k))
    {
      var idx := slots[k];
      histogram[idx] := H.Normalised(histogram[idx], rounds);
    }
  }

  lemma SlotsAreIndices(e: Experiment, size: nat, indices: seq<int>)
    requires e.stride != 0 && e.firstAccessOffset < size && indices == Indices(Grid(e, size))
    ensures indices == Slots(e, size)
  {
    hide Walk, Grid, Quotient, LineOf, Turn;
    forall i | 0 <= i < |indices|
      ensures indices[i] == Slots(e, size)[i]
    {
      GridAt(e, size, i);
      LineOfIff(Grid(e, size)[i], Slots(e, size)[i]);
    }
  }

  lemma {:induction false} OccurrencesOfDistinct(slots: seq<nat>, c: nat, k: nat)
    requires Distinct(slots) && c < |slots| && k <= |slots|
    ensures Occurrences(slots, slots[c], k) == if c < k then 1 else 0
  {
    if k > 0 {
      OccurrencesOfDistinct(slots, c, k - 1);
    }
  }

  lemma {:induction false} OccurrencesOfAbsent(slots: seq<nat>, line: nat, k: nat)
    requires line !in slots && k <= |slots|
    ensures Occurrences(slots, line, k) == 0
  {
    if k > 0 {
      OccurrencesOfAbsent(slots, line, k - 1);
    }
  }

  lemma {:induction false} LineHitsOfDistinct(time: nat -> nat, frThresh: nat, slots: seq<nat>, c: nat, r: nat)
    requires Distinct(slots) && c < |slots|
    ensures LineHits(time, frThresh, slots, slots[c], r) == H.Hits(time, frThresh, |slots|, c, r)
  {
    if r > 0 {
      LineHitsOfDistinct(time, frThresh, slots, c, r - 1);
    }
  }

  lemma {:induction false} LineHitsOfAbsent(time: nat -> nat, frThresh: nat, slots: seq<nat>, line: nat, r: nat)
    requires |slots| > 0 && line !in slots
    ensures LineHits(time, frThresh, slots, line, r) == 0
  {
    if r > 0 {
      LineHitsOfAbsent(time, frThresh, slots, line, r - 1);
    }
  }

  lemma {:induction false} OccurrencesOfRepeated(slots: seq<nat>, i: nat, j: nat, k: nat)
    requires i <= j < k <= |slots| && slots[i] == slots[j]
    ensures Occurrences(slots, slots[i], k) >= if i < j then 2 else 1
  {
    if j < k - 1 {
      OccurrencesOfRepeated(slots, i, j, k - 1);
    } else if i < j {
      OccurrencesOfRepeated(slots, i, i, k - 1);
    }
  }

  /** Every listed counter is normalised exactly once, as the scale of the histogram needs it, if and only
      if the stride is at least a line or no two neighbouring grid offsets share one. */
  lemma NormalisedOnceIff(e: Experiment, size: nat)
    requires e.stride != 0 && e.firstAccessOffset < size
    ensures var slots := Slots(e, size);
            (forall line :: line in slots ==> Occurrences(slots, line, |slots|) == 1) <==>
              Abs(e.stride) >= CACHE_LINE_SIZE || !exists offset :: Shared(e, size, offset)
  {
    hide Slots, Grid, Shared, Occurrences;
    var slots := Slots(e, size);
    DistinctIff(e, size);
    if Distinct(slots) {
      forall c: nat | c < |slots|
        ensures Occurrences(slots, slots[c], |slots|) == 1
      {
        OccurrencesOfDistinct(slots, c, |slots|);
      }
    } else {
      var i: nat, j: nat :| i < j < |slots| && slots[i] == slots[j];
      OccurrencesOfRepeated(slots, i, j, |slots|);
      assert slots[i] in slots;
    }
  }

  /** If no line is listed twice the values are those of a full scan over the listed lines, on the same
      scale, and zero elsewhere. */
  lemma DistinctNormalisedOnce(e: Experiment, size: nat, r: nat, time: nat -> nat, frThresh: nat)
    requires e.stride != 0 && e.firstAccessOffset < size && Distinct(Slots(e, size))
    requires r >= |Slots(e, size)|
    ensures r / |Slots(e, size)| > 0
    ensures forall c :: 0 <= c < |Slots(e, size)| ==>
              LazyValue(time, frThresh, Slots(e, size), Slots(e, size)[c], r)
              == H.Normalised(H.Hits(time, frThresh, |Slots(e, size)|, c, r), r / |Slots(e, size)|)
    ensures forall line: nat :: line !in Slots(e, size) ==> LazyValue(time, frThresh, Slots(e, size), line, r) == 0
  {
    hide Slots, Grid, H.Normalised, H.Hits, LineHits, Occurrences;
    var slots := Slots(e, size);
    H.QuotientPositive(r, |slots|);
    forall c | 0 <= c < |slots|
      ensures LazyValue(time, frThresh, slots, slots[c], r)
              == H.Normalised(H.Hits(time, frThresh, |slots|, c, r), r / |slots|)
    {
      OccurrencesOfDistinct(slots, c, |slots|);
      LineHitsOfDistinct(time, frThresh, slots, c, r);
      assert NormalisedTimes(LineHits(time, frThresh, slots, slots[c], r), r / |slots|, 0)
          == LineHits(time, frThresh, slots, slots[c], r);
    }
    forall line: nat | line !in slots
      ensures LazyValue(time, frThresh, slots, line, r) == 0
    {
      OccurrencesOfAbsent(slots, line, |slots|);
      LineHitsOfAbsent(time, frThresh, slots, line, r);
    }
  }

  /** A stride of half a line lists a line twice and scales its counter by a thousand twice, far off
      the documented scale. */
  lemma NarrowStrideScaledTwice()
    ensures var e := Experiment(32, 1, 0, false, 100, 0);
            Slots(e, 64) == [0, 0] && LazyValue(_ => 0, 100, Slots(e, 64), 0, 2) == 2000000
  {
    hide H.Normalised;
    var e := Experiment(32, 1, 0, false, 100, 0);
    assert Walk(64, 32, 64) == [] && Walk(32, 32, 64) == [32] + Walk(64, 32, 64);
    assert Walk(0, 32, 64) == [0] + Walk(32, 32, 64) && Walk(-32, -32, 64) == [];
    assert Grid(e, 64) == [0, 32];
    assert Slots(e, 64) == [0, 0];
    TwiceNormalised();
  }

  lemma TwiceNormalised()
    ensures LazyValue(_ => 0, 100, [0, 0], 0, 2) == 2000000
  {
    var time := _ => 0;
    assert LineHits(time, 100, [0, 0], 0, 1) == 1;
    assert LineHits(time, 100, [0, 0], 0, 2) == 2;
    assert Occurrences([0, 0], 0, 1) == 1 && Occurrences([0, 0], 0, 2) == 2;
    assert NormalisedTimes(2, 1, 0) == 2 && NormalisedTimes(2, 1, 1) == 2000;
    assert NormalisedTimes(2, 1, 2) == 2000000;
  }
}
