/** The pointer-array test: blinded pointers to distinct targets. */
module Parr {
  import opened Bits
  import opened CArithmetic
  import opened Choices
  import opened Pages

  const BLIND_MEASURE_KEY: nat := 0x4242_4242_4242_4242

  datatype Config = Config(
    parrEntries: nat,     // entries in the pointer array
    parrEntrySize: nat,   // distance between them, in pointers
    tarr: nat,            // address of the memory mapped for the target array
    tarrEntries: nat,     // entries in the target array
    tarrEntrySize: nat,   // distance between them, in words of eight bytes
    iterIncrement: int,   // distance between accesses, in pointers, negative for a backward walk
    startIdx: nat,        // where the walk starts, in pointers
    iters: nat,
    measureIndex: nat,    // entry to measure
    ptrOffset: nat,       // distance from its target to the measured address, as an unsigned word
    blindKey: nat)

  /** The targets start four pages behind the start of their memory. */
  function Target(c: Config, j: nat): nat {
    c.tarr + 4 * PAGE_SIZE + j * (c.tarrEntrySize * 8)
  }

  /** The size of that memory: rounded up to the next 16 KiB. */
  function TarrSize(c: Config): (size: nat)
    ensures size >= c.tarrEntries * (c.tarrEntrySize * 8) + 5 * PAGE_SIZE
  {
    var size := c.tarrEntries * (c.tarrEntrySize * 8) + PAGE_SIZE + 4 * PAGE_SIZE;
    size + (4 * PAGE_SIZE - size % (4 * PAGE_SIZE))
  }

  /** Where entry `i` lies in the pointer array, in pointers. */
  function Cell(c: Config, i: int): int {
    i * c.parrEntrySize
  }

  /** Both arrays are in memory, with room between the entries, and the key is a word. */
  predicate Laid(c: Config) {
    && 0 < c.parrEntrySize && 0 < c.tarrEntrySize && 0 < c.tarrEntries
    && Target(c, c.tarrEntries) < TWO_64 && c.blindKey < TWO_64
  }

  lemma TargetsApart(c: Config, i: nat, j: nat)
    requires Laid(c) && i != j
    ensures Abs(Target(c, i) as int - Target(c, j)) >= c.tarrEntrySize * 8
  {
    MultiplesApart(i, j, c.tarrEntrySize * 8);
  }

  /** Behind four pages the targets follow one another, an entry each, and the last one ends inside the
      memory, whose size is the next multiple of 16 KiB with room for a page more. */
  lemma TargetsInside(c: Config, j: nat)
    ensures Target(c, 0) == c.tarr + 0x4000 && Target(c, j + 1) - Target(c, j) == c.tarrEntrySize * 8
    ensures TarrSize(c) % 0x4000 == 0
    ensures var least := Target(c, c.tarrEntries) + 4096 - c.tarr; least < TarrSize(c) <= least + 0x4000
  {
    var size := c.tarrEntries * (c.tarrEntrySize * 8) + PAGE_SIZE + 4 * PAGE_SIZE;
    assert (j + 1) * (c.tarrEntrySize * 8) == j * (c.tarrEntrySize * 8) + c.tarrEntrySize * 8;
    DivMod(size, 0x4000);
    DivMulPlus(size / 0x4000 + 1, 0x4000, 0);
  }

  lemma TargetFits(c: Config, i: nat)
    requires Laid(c) && i < c.tarrEntries
    ensures Target(c, i) < TWO_64
  {
    MulMonotone(i, c.tarrEntries, c.tarrEntrySize * 8);
  }

  lemma CellInjective(c: Config, i: nat, j: nat)
    requires Laid(c)
    ensures 0 <= Cell(c, i) && (Cell(c, i) == Cell(c, j) <==> i == j)
    ensures Cell(c, i) < Cell(c, j) <==> i < j
  {
    MulMonotone(0, i, c.parrEntrySize);
    if i < j {
      MulMonotone(i + 1, j, c.parrEntrySize);
      assert (i + 1) * c.parrEntrySize == i * c.parrEntrySize + c.parrEntrySize;
    } else if j < i {
      MulMonotone(j + 1, i, c.parrEntrySize);
      assert (j + 1) * c.parrEntrySize == j * c.parrEntrySize + c.parrEntrySize;
    }
  }

  /** The slots marked are the slots taken. */
  ghost predicate Taken(marks: seq<bool>, taken: set<nat>) {
    taken <= Below(|marks|) && forall i :: 0 <= i < |marks| ==> (marks[i] <==> i in taken)
  }

  /** A slot drawn again adds nothing. */
  lemma DrawnAgain(rand: nat -> nat, n: nat, start: nat, draws: nat, taken: set<nat>, idx: nat)
    requires n > 0 && Collected(rand, n, start, draws, taken + {idx}) && idx in taken
    ensures Collected(rand, n, start, draws + 1, taken + {Slot(rand, n, draws)})
  {
    hide Collected;
    assert taken + {idx} == taken;
    CollectedStep(rand, n, start, draws, taken);
  }

  lemma TakenStep(marks: seq<bool>, taken: set<nat>, idx: nat)
    requires Taken(marks, taken) && idx < |marks| && idx !in taken
    ensures Taken(marks[idx := true], taken + {idx}) && |taken + {idx}| == |taken| + 1
  {
    hide Below;
  }

  ghost predicate Pointers(c: Config, cells: seq<nat>, targets: seq<nat>) {
    forall i {:trigger targets[i]} :: 0 <= i < |targets| ==>
      0 <= Cell(c, i) < |cells| && cells[Cell(c, i)] == Xor(Target(c, targets[i]), c.blindKey)
  }

  lemma PointersStep(c: Config, cells: seq<nat>, targets: seq<nat>, idx: nat)
    requires Laid(c) && Pointers(c, cells, targets) && 0 <= Cell(c, |targets|) < |cells|
    ensures Pointers(c, cells[Cell(c, |targets|) := Xor(Target(c, idx), c.blindKey)], targets + [idx])
  {
    hide Cell, Target, Xor, Laid;
    var updated, more := cells[Cell(c, |targets|) := Xor(Target(c, idx), c.blindKey)], targets + [idx];
    forall i | 0 <= i < |more|
      ensures 0 <= Cell(c, i) < |updated| && updated[Cell(c, i)] == Xor(Target(c, more[i]), c.blindKey)
    {
      CellInjective(c, i, |targets|);
      if i < |targets| {
        assert more[i] == targets[i];
      }
    }
  }

  /** Different targets, none of them the reference target. */
  ghost predicate Chosen(targets: seq<nat>, reference: nat, n: nat) {
    && Distinct(targets) && reference !in targets && reference < n
    && forall i :: 0 <= i < |targets| ==> targets[i] < n
  }

  /** Before the first pointer is set up nothing is taken. */
  lemma NothingYet(c: Config, marks: seq<bool>, cells: seq<nat>, reference: nat)
    requires (forall i :: 0 <= i < |marks| ==> !marks[i]) && reference < c.tarrEntries
    ensures Taken(marks, {}) && Pointers(c, cells, []) && Chosen([], reference, c.tarrEntries)
  {
  }

  lemma ChosenStep(targets: seq<nat>, reference: nat, n: nat, taken: set<nat>, idx: nat)
    requires Chosen(targets, reference, n) && idx < n && idx !in taken
    requires reference in taken && forall i :: 0 <= i < |targets| ==> targets[i] in taken
    ensures Chosen(targets + [idx], reference, n)
    ensures forall i :: 0 <= i < |targets + [idx]| ==> (targets + [idx])[i] in taken + {idx}
  {
  }

  /** The pointers set up: entry `i` blinds the address of target `targets[i]`, all of them different
      and different from the reference target. */
  ghost predicate SetUp(c: Config, cells: seq<nat>, targets: seq<nat>, reference: nat) {
    |targets| == c.parrEntries && Chosen(targets, reference, c.tarrEntries) && Pointers(c, cells, targets)
  }

  ghost predicate Words(c: Config, cells: seq<nat>) {
    forall i: nat :: i < c.parrEntries ==> 0 <= Cell(c, i) < |cells| && cells[Cell(c, i)] < TWO_64
  }

  /** Blinded pointers are words again. */
  lemma PointersFit(c: Config, cells: seq<nat>, targets: seq<nat>, reference: nat)
    requires Laid(c) && SetUp(c, cells, targets, reference)
    ensures Words(c, cells)
  {
    hide Cell, Target, Xor;
    forall i: nat | i < c.parrEntries
      ensures 0 <= Cell(c, i) < |cells| && cells[Cell(c, i)] < TWO_64
    {
      PointerAt(c, cells, targets, i);
      TargetFits(c, targets[i]);
      Xor64(Target(c, targets[i]), c.blindKey);
    }
  }

  // ---------- addresses ----------

  function Entry(s: int, d: int, i: int): int {
    s + i * d
  }

  /** The walk starts at an entry of the pointer array and moves by whole entries, inside the array. */
  ghost predicate OnEntries(c: Config, s: int, d: int) {
    && c.startIdx == s * c.parrEntrySize && c.iterIncrement == d * c.parrEntrySize
    && forall i :: 0 <= i < c.iters ==> 0 <= Entry(s, d, i) < c.parrEntries
  }

  /** The pointer followed in round `r`, as an index into the array. */
  function Follow(c: Config, r: nat): int {
    c.startIdx + r * c.iterIncrement
  }

  lemma FollowEntry(c: Config, s: int, d: int, r: nat)
    requires OnEntries(c, s, d) && r < c.iters
    ensures Follow(c, r) == Cell(c, Entry(s, d, r)) && 0 <= Entry(s, d, r) < c.parrEntries
  {
    assert (s + r * d) * c.parrEntrySize == s * c.parrEntrySize + r * (d * c.parrEntrySize);
  }

  lemma PointerAt(c: Config, cells: seq<nat>, targets: seq<nat>, i: nat)
    requires Pointers(c, cells, targets) && i < |targets|
    ensures 0 <= Cell(c, i) < |cells| && cells[Cell(c, i)] == Xor(Target(c, targets[i]), c.blindKey)
    ensures Xor(cells[Cell(c, i)], c.blindKey) == Target(c, targets[i])
  {
    hide Cell, Target, Xor;
    assert targets[i] == targets[i];
    XorXor(Target(c, targets[i]), c.blindKey);
  }

  /** The reference pointer unblinds to its target and the offset. */
  lemma ReferenceAddress(c: Config, t: nat)
    ensures Xor(Xor(ToSize(Target(c, t) + c.ptrOffset), BLIND_MEASURE_KEY), BLIND_MEASURE_KEY) ==
              ToSize(Target(c, t) + c.ptrOffset)
  {
    hide Xor, Target;
    XorXor(ToSize(Target(c, t) + c.ptrOffset), BLIND_MEASURE_KEY);
  }

  /** Adding an offset to a blinded word is right, for every word, if and only if there is no offset or
      the key lies below the offset's lowest bit, but for the key's top bit, which never matters. */
  lemma OffsetUnderKey(key: nat, offset: nat)
    requires key < TWO_64
    ensures (forall t: nat :: t < TWO_64 ==> Xor(ToSize(Xor(t, key) + offset), key) == ToSize(t + offset)) <==>
              ToSize(offset) == 0 || key % 0x8000_0000_0000_0000 < LowestBit(ToSize(offset))
  {
    hide Xor, Pow2, Word, LowestBit, ToSize, Commutes;
    Word64(offset);
    Word64(key);
    if Harmless(64, key, offset) {
      forall t: nat
        ensures Xor(ToSize(Xor(t, key) + offset), key) == ToSize(t + offset)
      {
        HarmlessCommutes(64, key, offset, t);
        Commutes64(key, offset, t);
      }
    } else {
      var t := HarmfulFails(64, key, offset);
      Commutes64(key, offset, t);
    }
  }

  lemma Word64(x: nat)
    ensures Word(64, x) == ToSize(x) && Word(63, x) == x % 0x8000_0000_0000_0000
    ensures Pow2(64) == TWO_64
  {
    hide Pow2;
    Pow2Of64();
    Pow2Step(64);
  }

  lemma Commutes64(key: nat, offset: nat, t: nat)
    ensures Commutes(64, key, offset, t) <==> Xor(ToSize(Xor(t, key) + offset), key) == ToSize(t + offset)
  {
    hide Xor, Word, ToSize;
    Word64(Xor(t, key) + offset);
    Word64(t + offset);
  }

  predicate OffsetHarmless(c: Config) {
    ToSize(c.ptrOffset) == 0 || c.blindKey % 0x8000_0000_0000_0000 < LowestBit(ToSize(c.ptrOffset))
  }

  /** Where the measured pointer of target `t` leads: the offset is added under the key. */
  function MeasuredAt(c: Config, t: nat): nat {
    Xor(ToSize(Xor(Target(c, t), c.blindKey) + c.ptrOffset), c.blindKey)
  }

  /** Under a harmless key that is the target and the offset, as it is for the reference pointer. */
  lemma MeasuredAddress(c: Config, t: nat)
    requires Laid(c) && t < c.tarrEntries && OffsetHarmless(c)
    ensures MeasuredAt(c, t) == ToSize(Target(c, t) + c.ptrOffset)
  {
    hide Xor, Target, LowestBit, ToSize;
    TargetFits(c, t);
    OffsetUnderKey(c.blindKey, c.ptrOffset);
    assert Xor(ToSize(Xor(Target(c, t), c.blindKey) + c.ptrOffset), c.blindKey) == ToSize(Target(c, t) + c.ptrOffset);
  }

  /** Without an offset that is the target, under any key. */
  lemma MeasuredTarget(c: Config, t: nat)
    requires Laid(c) && t < c.tarrEntries && c.ptrOffset == 0
    ensures MeasuredAt(c, t) == Target(c, t)
  {
    hide Xor, Target;
    TargetFits(c, t);
    Xor64(Target(c, t), c.blindKey);
    SizeFits(Xor(Target(c, t), c.blindKey));
    XorXor(Target(c, t), c.blindKey);
  }

  /** What one repetition loads and measures. */
  ghost predicate Measured(c: Config, r: nat, s: int, d: int, targets: seq<nat>, reference: nat,
                           loads: seq<nat>, measured: nat)
    requires c.measureIndex < c.parrEntries
  {
    && |targets| == c.parrEntries && Chosen(targets, reference, c.tarrEntries) && |loads| == c.iters
    && (forall i :: 0 <= i < |loads| ==>
          0 <= Entry(s, d, i) < |targets| && loads[i] == Target(c, targets[Entry(s, d, i)]))
    && measured == if r % 2 == 1 then MeasuredAt(c, targets[c.measureIndex])
                   else ToSize(Target(c, reference) + c.ptrOffset)
  }

  /** What the walk leaves alone: with a zero offset none of its loads came near the measured address,
      neither the reference in even repetitions nor, in odd ones, the target behind the entry to be
      measured, unless it follows that very entry. */
  lemma MeasuredNeverLoaded(c: Config, r: nat, s: int, d: int, targets: seq<nat>, reference: nat,
                            loads: seq<nat>, measured: nat)
    requires Laid(c) && c.measureIndex < c.parrEntries && c.ptrOffset == 0
    requires Measured(c, r, s, d, targets, reference, loads, measured)
    ensures forall i :: 0 <= i < |loads| ==>
              if r % 2 == 1 && Entry(s, d, i) == c.measureIndex then loads[i] == measured
              else Abs(loads[i] as int - measured) >= c.tarrEntrySize * 8
  {
    hide Target, Entry, Abs, ToSize, MeasuredAt;
    var t := if r % 2 == 1 then targets[c.measureIndex] else reference;
    TargetFits(c, t);
    SizeFits(Target(c, t));
    MeasuredTarget(c, t);
    forall i | 0 <= i < |loads|
      ensures if r % 2 == 1 && Entry(s, d, i) == c.measureIndex then loads[i] == measured
              else Abs(loads[i] as int - measured) >= c.tarrEntrySize * 8
    {
      if targets[Entry(s, d, i)] != t {
        TargetsApart(c, targets[Entry(s, d, i)], t);
      }
    }
  }

  /** But the pages of the target memory are touched before the walk, and with them every target that
      lies whole pages behind the first, the measured one included. */
  lemma MeasuredTouchedIff(c: Config, r: nat, s: int, d: int, targets: seq<nat>, reference: nat,
                           loads: seq<nat>, measured: nat)
    requires Laid(c) && c.measureIndex < c.parrEntries && c.ptrOffset == 0
    requires Measured(c, r, s, d, targets, reference, loads, measured)
    ensures var t := if r % 2 == 1 then targets[c.measureIndex] else reference;
            measured in Starts(c.tarr, TarrSize(c)) <==> t * (c.tarrEntrySize * 8) % PAGE_SIZE == 0
  {
    hide Target, TarrSize, Entry, ToSize, MeasuredAt;
    var t := if r % 2 == 1 then targets[c.measureIndex] else reference;
    TargetFits(c, t);
    SizeFits(Target(c, t));
    MeasuredTarget(c, t);
    TargetTouchedIff(c, t);
  }

  lemma TargetTouchedIff(c: Config, t: nat)
    requires Laid(c) && t < c.tarrEntries
    ensures Target(c, t) in Starts(c.tarr, TarrSize(c)) <==> t * (c.tarrEntrySize * 8) % PAGE_SIZE == 0
  {
    hide TarrSize;
    MulMonotone(t, c.tarrEntries, c.tarrEntrySize * 8);
    TouchedIff(c.tarr, TarrSize(c), Target(c, t));
    PagesBehind(t * (c.tarrEntrySize * 8));
  }

  lemma PagesBehind(x: nat)
    ensures (4 * PAGE_SIZE + x) % PAGE_SIZE == x % PAGE_SIZE
  {
  }

  /** And loads through different entries are apart, too. */
  lemma LoadsApart(c: Config, targets: seq<nat>, s: int, d: int, loads: seq<nat>)
    requires Laid(c) && Distinct(targets)
    requires forall i :: 0 <= i < |loads| ==>
               0 <= Entry(s, d, i) < |targets| && loads[i] == Target(c, targets[Entry(s, d, i)])
    ensures forall i, j :: 0 <= i < |loads| && 0 <= j < |loads| && Entry(s, d, i) != Entry(s, d, j) ==>
              Abs(loads[i] as int - loads[j]) >= c.tarrEntrySize * 8
  {
    hide Laid, Target, Entry, Abs;
    forall i, j | 0 <= i < |loads| && 0 <= j < |loads| && Entry(s, d, i) != Entry(s, d, j)
      ensures Abs(loads[i] as int - loads[j]) >= c.tarrEntrySize * 8
    {
      TargetsApart(c, targets[Entry(s, d, i)], targets[Entry(s, d, j)]);
    }
  }

  /** What is known of a repetition afterwards. */
  datatype Run = Run(targets: seq<nat>, reference: nat, loads: seq<nat>, measured: nat)

  class Experiment {
    const parr: array<nat>
    const parrAddress: nat
    const rand: nat -> nat     // the results of `rand64()`, in order
    var draws: nat
    var iters: nat
    var blindKey: nat
    var head: nat
    var increment: nat
    var blindMeasure: nat

    constructor (parr: array<nat>, parrAddress: nat, rand: nat -> nat)
      ensures this.parr == parr && this.parrAddress == parrAddress && this.rand == rand
    {
      this.parr, this.parrAddress, this.rand := parr, parrAddress, rand;
    }

    // ---------- setting up ----------

    /** Draws until the slot drawn is not used yet. */
    method Draw(used: array<bool>, ghost taken: set<nat>, ghost start: nat) returns (idx: nat)
      requires used.Length > 0 && Fair(rand, used.Length) && Taken(used[..], taken) && |taken| < used.Length
      requires Collected(rand, used.Length, start, draws, taken)
      modifies this`draws
      ensures idx < used.Length && idx !in taken
      ensures old(draws) < draws && idx == Slot(rand, used.Length, draws - 1)
      ensures forall m :: old(draws) <= m < draws - 1 ==> Slot(rand, used.Length, m) in taken
      ensures Collected(rand, used.Length, start, draws, taken + {idx})
    {
      hide Below, Fair, Slot, Collected;
      ghost var latest := FreeSlotComes(rand, used.Length, draws, taken);
      CollectedStep(rand, used.Length, start, draws, taken);
      idx := Slot(rand, used.Length, draws);
      draws := draws + 1;
      while used[idx]
        invariant old(draws) < draws <= latest + 1 && idx == Slot(rand, used.Length, draws - 1)
        invariant forall m :: old(draws) <= m < draws - 1 ==> Slot(rand, used.Length, m) in taken
        invariant Collected(rand, used.Length, start, draws, taken + {idx})
        decreases latest - draws
      {
        DrawnAgain(rand, used.Length, start, draws, taken, idx);
        idx := Slot(rand, used.Length, draws);
        draws := draws + 1;
      }
    }

    method Use(used: array<bool>, ghost taken: set<nat>, idx: nat)
      requires Taken(used[..], taken) && idx < used.Length && idx !in taken
      modifies used
      ensures Taken(used[..], taken + {idx}) && |taken + {idx}| == |taken| + 1
    {
      hide Taken;
      TakenStep(used[..], taken, idx);
      ghost var marks := used[..];
      used[idx] := true;
      assert used[..] == marks[idx := true];
    }

    /** Fails when the guard does; between guard and need lie two array sizes for which the drawing
        never ends. Otherwise it stops as soon as enough different targets have been drawn. */
    method SetupPointers(c: Config) returns (ok: bool, ghost targets: seq<nat>, ghost reference: nat)
      requires Laid(c) && Fair(rand, c.tarrEntries)
      requires c.parrEntries < c.tarrEntries || c.tarrEntries + 1 < c.parrEntries
      requires Cell(c, c.parrEntries) <= parr.Length
      modifies this`draws, this`blindMeasure, parr
      ensures ok <==> c.parrEntries < c.tarrEntries
      ensures ok ==> SetUp(c, parr[..], targets, reference) && Words(c, parr[..])
      ensures ok ==> blindMeasure == Xor(ToSize(Target(c, reference) + c.ptrOffset), BLIND_MEASURE_KEY)
      ensures ok ==> exists taken :: Collected(rand, c.tarrEntries, old(draws), draws, taken)
                                     && |taken| == c.parrEntries + 1
    {
      hide Below, Fair, Collected, Words, Cell, Target, Xor, Taken, Pointers, Laid, Chosen, Distinct, ToSize;
      targets, reference := [], 0;
      if c.tarrEntries + 1 < c.parrEntries {
        return false, targets, reference;
      }
      LaidNonEmpty(c);
      NothingCollected(rand, c.tarrEntries, draws);
      var used := new bool[c.tarrEntries](_ => false);
      var idx := Slot(rand, c.tarrEntries, draws);
      draws := draws + 1;
      NothingYet(c, used[..], parr[..], idx);
      Use(used, {}, idx);
      reference := idx;
      CollectedStep(rand, c.tarrEntries, old(draws), old(draws), {});
      ghost var taken: set<nat> := {} + {idx};
      blindMeasure := Xor(ToSize(Target(c, idx) + c.ptrOffset), BLIND_MEASURE_KEY);
      for i := 0 to c.parrEntries
        invariant Taken(used[..], taken) && |taken| == i + 1 && reference in taken
        invariant |targets| == i && Chosen(targets, reference, c.tarrEntries)
        invariant forall j :: 0 <= j < i ==> targets[j] in taken
        invariant Pointers(c, parr[..], targets)
        invariant blindMeasure == Xor(ToSize(Target(c, reference) + c.ptrOffset), BLIND_MEASURE_KEY)
        invariant Collected(rand, c.tarrEntries, old(draws), draws, taken)
      {
        idx := Draw(used, taken, old(draws));
        CellInjective(c, i, c.parrEntries);
        ghost var cells := parr[..];
        parr[Cell(c, i)] := Xor(Target(c, idx), c.blindKey);
        PointersStep(c, cells, targets, idx);
        assert parr[..] == cells[Cell(c, i) := Xor(Target(c, idx), c.blindKey)];
        Use(used, taken, idx);
        ChosenStep(targets, reference, c.tarrEntries, taken, idx);
        targets := targets + [idx];
        taken := taken + {idx};
      }
      PointersFit(c, parr[..], targets, reference);
      ok := true;
    }

    lemma LaidNonEmpty(c: Config)
      requires Laid(c)
      ensures c.tarrEntries > 0
    {
    }

    // ---------- the walk ----------

    /** The walk stays inside the pointer array, and the array inside memory. */
    ghost predicate Walkable(c: Config) {
      && parrAddress + parr.Length * 8 < TWO_64 && c.iters < TWO_64
      && forall r :: 0 <= r < c.iters ==> 0 <= Follow(c, r) < parr.Length
    }

    /** The registers the assembly code starts from. */
    ghost predicate Loaded(c: Config)
      reads this
    {
      && iters == c.iters && blindKey == c.blindKey && head == parrAddress + c.startIdx * 8
      && increment == ToSize(c.iterIncrement * 8)
    }

    /** Word at an address inside the pointer array. */
    function Load(address: nat): nat
      reads parr
      requires parrAddress <= address < parrAddress + parr.Length * 8
    {
      parr[(address - parrAddress) / 8]
    }

    lemma LoadAt(k: nat)
      requires k < parr.Length
      ensures Load(parrAddress + k * 8) == parr[k]
    {
    }

    /** In 64-bit registers a negative increment walks backwards. */
    lemma AddressWraps(c: Config, r: nat)
      requires Walkable(c) && r < c.iters
      ensures ToSize(ToSize(r * ToSize(c.iterIncrement * 8)) + (parrAddress + c.startIdx * 8)) ==
                parrAddress + Follow(c, r) * 8
    {
      var step := c.iterIncrement * 8;
      assert ToSize(step) == step + TWO_64 * -(step / TWO_64);
      var product := r * ToSize(step);
      assert ToSize(product) == product + TWO_64 * -(product / TWO_64);
      assert r * (TWO_64 * -(step / TWO_64)) == TWO_64 * (r * -(step / TWO_64));
      assert r * step == (r * c.iterIncrement) * 8;
      assert product == r * step + r * (TWO_64 * -(step / TWO_64));
      WholeTurns(parrAddress + Follow(c, r) * 8, r * -(step / TWO_64) - product / TWO_64);
    }

    lemma WholeTurns(x: nat, z: int)
      requires x < TWO_64
      ensures ToSize(x + TWO_64 * z) == x
    {
    }

    /** The loop of the assembly code. The remainder, which is there to keep the processor from running
        ahead, changes nothing: the pointers followed are those of rounds 0, 1, ... in order. */
    method Walk(ghost c: Config) returns (cells: seq<nat>, loads: seq<nat>)
      requires Loaded(c) && Walkable(c)
      ensures |cells| == |loads| == c.iters
      ensures forall r :: 0 <= r < c.iters ==>
                cells[r] == parrAddress + Follow(c, r) * 8 && loads[r] == Xor(parr[Follow(c, r)], c.blindKey)
    {
      hide ToSize, Xor, Follow, Load;
      var r9, r8, rcx, r11, r14 := iters, increment, 0, head, blindKey;
      cells, loads := [], [];
      while rcx != r9
        invariant 0 <= rcx <= r9 && |cells| == |loads| == rcx
        invariant forall r :: 0 <= r < rcx ==>
                    cells[r] == parrAddress + Follow(c, r) * 8 && loads[r] == Xor(parr[Follow(c, r)], c.blindKey)
      {
        DivMulPlus(0, r9, rcx);
        assert rcx % r9 == (0 * r9 + rcx) % r9;
        rcx := rcx % r9;
        AddressWraps(c, rcx);
        LoadAt(Follow(c, rcx));
        var rax: nat := ToSize(ToSize(rcx * r8) + r11);
        cells := cells + [rax];
        rax := Load(rax);
        rax := Xor(rax, r14);
        loads := loads + [rax];
        rcx := rcx + 1;
      }
    }

    // ---------- one repetition ----------

    method Prepare(c: Config)
      modifies this`iters, this`blindKey, this`head, this`increment
      ensures Loaded(c)
    {
      blindKey := c.blindKey;
      iters := c.iters;
      increment := ToSize(c.iterIncrement * 8);
      head := parrAddress + c.startIdx * 8;
    }

    method ClearPointers(c: Config)
      requires 0 <= Cell(c, c.parrEntries) <= parr.Length
      modifies parr
    {
      for i := 0 to Cell(c, c.parrEntries) {
        parr[i] := 0;
      }
    }

    /** Repetition `r`: in odd ones the address behind entry `measureIndex` is measured, in even ones
        the reference. The walk is taken to go from entry `s` in steps of `d` entries, forwards or
        backwards. */
    method Repetition(c: Config, r: nat, ghost s: int, ghost d: int)
      returns (ok: bool, touched: seq<nat>, loads: seq<nat>, measured: nat,
               ghost targets: seq<nat>, ghost reference: nat)
      requires Laid(c) && Fair(rand, c.tarrEntries) && Walkable(c) && Loaded(c)
      requires c.parrEntries < c.tarrEntries || c.tarrEntries + 1 < c.parrEntries
      requires 0 <= Cell(c, c.parrEntries) <= parr.Length && c.measureIndex < c.parrEntries
      requires OnEntries(c, s, d)
      modifies this`draws, this`blindMeasure, parr
      ensures ok <==> c.parrEntries < c.tarrEntries
      ensures ok ==> touched == Starts(c.tarr, TarrSize(c))
      ensures ok ==> Measured(c, r, s, d, targets, reference, loads, measured)
    {
      hide Starts, TarrSize, DrawnFrom, Fair, Pointers, Cell, Target, Xor, Entry, Follow, Laid, ToSize, OnEntries;
      ClearPointers(c);
      ok, targets, reference := SetupPointers(c);
      touched, loads, measured := [], [], 0;
      if !ok {
        return;
      }
      ReferenceAddress(c, reference);
      PointerAt(c, parr[..], targets, c.measureIndex);
      if r % 2 == 1 {
        blindMeasure := Xor(Xor(ToSize(parr[Cell(c, c.measureIndex)] + c.ptrOffset), c.blindKey), BLIND_MEASURE_KEY);
        XorXor(MeasuredAt(c, targets[c.measureIndex]), BLIND_MEASURE_KEY);
      }
      touched := AccessPages(c.tarr, TarrSize(c));
      var cells;
      cells, loads := Walk(c);
      measured := Xor(blindMeasure, BLIND_MEASURE_KEY);
      forall i | 0 <= i < |loads|
        ensures 0 <= Entry(s, d, i) < c.parrEntries && loads[i] == Target(c, targets[Entry(s, d, i)])
      {
        FollowEntry(c, s, d, i);
        PointerAt(c, parr[..], targets, Entry(s, d, i));
      }
    }

    /** The whole experiment: the registers are set once, and every repetition, of which odd and even
        ones alternate, sets up pointers of its own. It is given up if the guard fails. */
    method RunExperiment(c: Config, repeat: nat, ghost s: int, ghost d: int)
      returns (ok: bool, references: seq<nat>, measures: seq<nat>, ghost runs: seq<Run>)
      requires Laid(c) && Fair(rand, c.tarrEntries) && Walkable(c)
      requires c.parrEntries < c.tarrEntries || c.tarrEntries + 1 < c.parrEntries
      requires 0 <= Cell(c, c.parrEntries) <= parr.Length && c.measureIndex < c.parrEntries
      requires OnEntries(c, s, d)
      modifies this`draws, this`iters, this`blindKey, this`head, this`increment, this`blindMeasure, parr
      ensures ok <==> repeat == 0 || c.parrEntries < c.tarrEntries
      ensures ok ==> |references| == |measures| == repeat && |runs| == 2 * repeat
      ensures ok ==> forall i :: 0 <= i < repeat ==>
                references[i] == runs[2 * i].measured && measures[i] == runs[2 * i + 1].measured
      ensures ok ==> forall r :: 0 <= r < 2 * repeat ==>
                Measured(c, r, s, d, runs[r].targets, runs[r].reference, runs[r].loads, runs[r].measured)
    {
      hide Fair, Cell, Laid, OnEntries, Measured, Starts, TarrSize, Follow;
      ok, references, measures, runs := true, [], [], [];
      Prepare(c);
      for r := 0 to 2 * repeat
        invariant ok && Loaded(c) && (r > 0 ==> c.parrEntries < c.tarrEntries)
        invariant |runs| == r && |references| == (r + 1) / 2 && |measures| == r / 2
        invariant forall i :: 0 <= i < |references| ==> references[i] == runs[2 * i].measured
        invariant forall i :: 0 <= i < |measures| ==> measures[i] == runs[2 * i + 1].measured
        invariant forall q :: 0 <= q < r ==>
                    Measured(c, q, s, d, runs[q].targets, runs[q].reference, runs[q].loads, runs[q].measured)
      {
        var touched, loads, measured;
        ghost var targets, reference;
        ok, touched, loads, measured, targets, reference := Repetition(c, r, s, d);
        if !ok {
          return;
        }
        runs := runs + [Run(targets, reference, loads, measured)];
        if r % 2 == 1 {
          measures := measures + [measured];
        } else {
          references := references + [measured];
        }
      }
    }
  }

  // ---------- when drawing ends ----------

  /** Turn `i` finds a free target if and only if `i + 1` targets are fewer than all. */
  lemma TurnEndsIff(c: Config, rand: nat -> nat, draws: nat, taken: set<nat>, i: nat)
    requires Laid(c) && Fair(rand, c.tarrEntries) && taken <= Below(c.tarrEntries) && |taken| == i + 1
    ensures (exists m: nat :: m >= draws && Slot(rand, c.tarrEntries, m) !in taken) <==> i + 1 < c.tarrEntries
  {
    hide Below, Fair;
    DrawingEndsIff(rand, c.tarrEntries, draws, taken);
  }

  /** The guard gives up, or after some number of draws the reference and all entries have targets of
      their own. */
  ghost predicate SetupEnds(c: Config, rand: nat -> nat, draws: nat)
    requires Laid(c)
  {
    c.tarrEntries + 1 < c.parrEntries || Collects(rand, c.tarrEntries, draws, c.parrEntries + 1)
  }

  /** So a call ends if and only if the guard gives up or there are fewer entries than targets. For as
      many entries as targets, and for one more, it passes the guard and draws for ever. */
  lemma SetupEndsIff(c: Config, rand: nat -> nat, draws: nat)
    requires Laid(c) && Fair(rand, c.tarrEntries)
    ensures SetupEnds(c, rand, draws) <==> c.tarrEntries + 1 < c.parrEntries || c.parrEntries < c.tarrEntries
  {
    hide Fair, Collects;
    CollectingEndsIff(rand, c.tarrEntries, draws, c.parrEntries + 1);
  }
}
