/** The one-dimensional stride workload and its oracle. */
module StrideOracle {
  import opened CArithmetic
  import opened StrideModel

  // ---------- the workload ----------

  /** The offset of access `k`, in bytes from the start of the mapping. */
  function AccessOffset(e: Experiment, k: int): int {
    e.firstAccessOffset + k * e.stride
  }

  function Loads(e: Experiment): seq<int> {
    seq(e.step, k requires 0 <= k < e.step => AccessOffset(e, k))
  }

  /** The loop over pointers, for either sign of the stride; it loads `Loads(e)` in this order. */
  method WorkloadStrideLoop(e: Experiment, base: int) returns (loads: seq<int>)
    requires e.stride != 0
    ensures loads == Loads(e)
  {
    var ptrBegin := base + e.firstAccessOffset;
    var ptrEnd := ptrBegin + e.stride * e.step;
    loads := [];
    var ptr := ptrBegin;
    ghost var k := 0;
    SignOfProduct(e.stride, e.step);
    while if ptrEnd > ptrBegin then ptr < ptrEnd else ptr > ptrEnd
      invariant 0 <= k <= e.step && ptr == base + AccessOffset(e, k)
      invariant ptrEnd - ptr == (e.step - k) * e.stride
      invariant loads == Loads(e)[..k]
      decreases e.step - k
    {
      SignOfProduct(e.stride, e.step - k);
      loads := loads + [ptr - base];
      ptr := ptr + e.stride;
      assert (e.step - k) * e.stride == (e.step - (k + 1)) * e.stride + e.stride;
      assert AccessOffset(e, k + 1) == AccessOffset(e, k) + e.stride;
      k := k + 1;
    }
    SignOfProduct(e.stride, e.step - k);
    assert Loads(e)[..e.step] == Loads(e);
  }

  lemma SignOfProduct(a: int, n: int)
    requires a != 0
    ensures n * a == a * n
    ensures a * n > 0 <==> (a > 0 && n > 0) || (a < 0 && n < 0)
    ensures a * n == 0 <==> n == 0
  {
    if a > 0 && n > 0 { MulMonotone(1, n, a); }
    if a > 0 && n < 0 { MulMonotone(n, -1, a); }
    if a < 0 && n > 0 { MulMonotone(1, n, -a); assert n * -a == -(a * n); }
    if a < 0 && n < 0 { MulMonotone(1, -n, -a); assert (-n) * (-a) == a * n; }
  }

  // ---------- offsets ----------

  predicate OffsetAccessed(e: Experiment, offset: int)
    requires e.stride != 0
  {
    var n := offset - e.firstAccessOffset;
    Remainder(n, e.stride) == 0 && 0 <= Quotient(n, e.stride) < e.step
  }

  predicate OffsetPotentialPrefetch(e: Experiment, offset: int)
    requires e.stride != 0
  {
    var n := offset - e.firstAccessOffset;
    Remainder(n, e.stride) == 0 && 0 <= Quotient(n, e.stride) && e.step <= Quotient(n, e.stride)
  }

  lemma OffsetStep(e: Experiment, offset: int)
    requires e.stride != 0
    ensures var n := offset - e.firstAccessOffset;
            Remainder(n, e.stride) == 0 <==> offset == AccessOffset(e, Quotient(n, e.stride))
    ensures forall k {:trigger AccessOffset(e, k)} :: offset == AccessOffset(e, k) ==>
              Remainder(offset - e.firstAccessOffset, e.stride) == 0
              && Quotient(offset - e.firstAccessOffset, e.stride) == k
  {
    hide Remainder, Quotient;
    var n := offset - e.firstAccessOffset;
    if Remainder(n, e.stride) == 0 {
      ExactMultiple(n, e.stride);
    }
    forall k | offset == AccessOffset(e, k)
      ensures Remainder(n, e.stride) == 0 && Quotient(n, e.stride) == k
    {
      QuotientOfMultiple(k, e.stride);
    }
  }

  /** The oracle is exact: for every nonzero stride of either sign, an offset is predicted as
      accessed if and only if the workload loads it. */
  lemma AccessedIffLoaded(e: Experiment, offset: int)
    requires e.stride != 0
    ensures OffsetAccessed(e, offset) <==> offset in Loads(e)
  {
    hide Remainder, Quotient, AccessOffset;
    OffsetStep(e, offset);
    if OffsetAccessed(e, offset) {
      assert Loads(e)[Quotient(offset - e.firstAccessOffset, e.stride)] == offset;
    }
    if offset in Loads(e) {
      var k :| 0 <= k < e.step && Loads(e)[k] == offset;
      assert AccessOffset(e, k) == offset;
    }
  }

  /** Candidates are the offsets of the accesses that would come next. */
  lemma PotentialIffLater(e: Experiment, offset: int)
    requires e.stride != 0
    ensures OffsetPotentialPrefetch(e, offset) <==> exists k :: e.step <= k && offset == AccessOffset(e, k)
  {
    hide Remainder, Quotient, AccessOffset;
    OffsetStep(e, offset);
  }

  /** Different accesses are at least a stride apart, so none is repeated. */
  lemma AccessesApart(e: Experiment, j: int, k: int)
    requires j != k
    ensures Abs(AccessOffset(e, j) - AccessOffset(e, k)) >= Abs(e.stride)
  {
    MultiplesApart(j, k, e.stride);
  }

  // ---------- cache lines ----------

  predicate InLine(offset: int, line: nat) {
    line * CACHE_LINE_SIZE <= offset < (line + 1) * CACHE_LINE_SIZE
  }

  ghost predicate LineAccessed(e: Experiment, line: nat)
    requires e.stride != 0
  {
    exists offset :: InLine(offset, line) && OffsetAccessed(e, offset)
  }

  ghost predicate LinePotentialPrefetch(e: Experiment, line: nat)
    requires e.stride != 0
  {
    && (exists offset :: InLine(offset, line) && OffsetPotentialPrefetch(e, offset))
    && (e.stride >= CACHE_LINE_SIZE || !LineAccessed(e, line))
  }

  method ClAccessed(e: Experiment, line: nat) returns (accessed: bool)
    requires e.stride != 0
    ensures accessed == LineAccessed(e, line)
  {
    hide OffsetAccessed;
    var offset := line * CACHE_LINE_SIZE;
    while offset < (line + 1) * CACHE_LINE_SIZE
      invariant line * CACHE_LINE_SIZE <= offset <= (line + 1) * CACHE_LINE_SIZE
      invariant forall o :: line * CACHE_LINE_SIZE <= o < offset ==> !OffsetAccessed(e, o)
    {
      if OffsetAccessed(e, offset) {
        assert InLine(offset, line);
        return true;
      }
      offset := offset + 1;
    }
    accessed := false;
  }

  method ClPotentialPrefetch(e: Experiment, line: nat) returns (potential: bool)
    requires e.stride != 0
    ensures potential == LinePotentialPrefetch(e, line)
  {
    hide OffsetAccessed, OffsetPotentialPrefetch;
    var offset := line * CACHE_LINE_SIZE;
    while offset < (line + 1) * CACHE_LINE_SIZE
      invariant line * CACHE_LINE_SIZE <= offset <= (line + 1) * CACHE_LINE_SIZE
      invariant forall o :: line * CACHE_LINE_SIZE <= o < offset ==>
                  !(OffsetPotentialPrefetch(e, o) && (e.stride >= CACHE_LINE_SIZE || !LineAccessed(e, line)))
    {
      if OffsetPotentialPrefetch(e, offset) {
        assert InLine(offset, line);
        if e.stride >= CACHE_LINE_SIZE {
          return true;
        }
        var accessed := ClAccessed(e, line);
        if !accessed {
          return true;
        }
      }
      offset := offset + 1;
    }
    potential := false;
  }

  /** Some load of the workload falls into the line. */
  ghost predicate Loaded(e: Experiment, line: nat) {
    exists k :: 0 <= k < |Loads(e)| && InLine(Loads(e)[k], line)
  }

  /** Some access falls into it that the workload would make if it went on. */
  ghost predicate Next(e: Experiment, line: nat) {
    exists k :: e.step <= k && InLine(AccessOffset(e, k), line)
  }

  /** A line counts as accessed exactly when some load of the workload falls into it. */
  lemma LineAccessedIffLoaded(e: Experiment, line: nat)
    requires e.stride != 0
    ensures LineAccessed(e, line) <==> Loaded(e, line)
  {
    hide OffsetAccessed, InLine, Loads;
    if LineAccessed(e, line) {
      var offset :| InLine(offset, line) && OffsetAccessed(e, offset);
      AccessedIffLoaded(e, offset);
      var k :| 0 <= k < |Loads(e)| && Loads(e)[k] == offset;
    }
    if Loaded(e, line) {
      var k :| 0 <= k < |Loads(e)| && InLine(Loads(e)[k], line);
      AccessedIffLoaded(e, Loads(e)[k]);
    }
  }

  /** No line is both accessed and a prefetch candidate, for strides of either sign and also for
      strides shorter than a line. */
  lemma LinesPartition(e: Experiment, line: nat)
    requires e.stride != 0
    ensures !(LineAccessed(e, line) && LinePotentialPrefetch(e, line))
  {
    hide OffsetAccessed, OffsetPotentialPrefetch, AccessOffset;
    if LineAccessed(e, line) && LinePotentialPrefetch(e, line) {
      var a :| InLine(a, line) && OffsetAccessed(e, a);
      var b :| InLine(b, line) && OffsetPotentialPrefetch(e, b);
      AccessedIffLoaded(e, a);
      var j :| 0 <= j < e.step && Loads(e)[j] == a;
      PotentialIffLater(e, b);
      var k :| e.step <= k && b == AccessOffset(e, k);
      AccessesApart(e, j, k);
      assert false;
    }
  }

  lemma NextIffPotential(e: Experiment, line: nat)
    requires e.stride != 0
    ensures Next(e, line) <==> exists offset :: InLine(offset, line) && OffsetPotentialPrefetch(e, offset)
  {
    hide OffsetPotentialPrefetch, AccessOffset, InLine;
    if Next(e, line) {
      var k :| e.step <= k && InLine(AccessOffset(e, k), line);
      PotentialIffLater(e, AccessOffset(e, k));
    }
    if exists offset :: InLine(offset, line) && OffsetPotentialPrefetch(e, offset) {
      var offset :| InLine(offset, line) && OffsetPotentialPrefetch(e, offset);
      PotentialIffLater(e, offset);
    }
  }

  /** Candidates are exactly the lines that come next and were not loaded, for strides of either sign and
      of any size. */
  lemma CandidateIff(e: Experiment, line: nat)
    requires e.stride != 0
    ensures LinePotentialPrefetch(e, line) <==> Next(e, line) && !Loaded(e, line)
  {
    hide OffsetPotentialPrefetch, InLine, Loads, LineAccessed, Next;
    NextIffPotential(e, line);
    LineAccessedIffLoaded(e, line);
    LinesPartition(e, line);
  }
}
