/** The linked list of the pointer-chasing test and its loop. */
module Pchase {
  import opened Bits
  import opened CArithmetic
  import opened Choices
  import opened Pages

  const BLIND_MEASURE_KEY: nat := 0x4242_4242_4242_4242
  /** 20 pages of 16 KiB, in entries of two cache lines. */
  const ENTRIES_COUNT: nat := 2560
  const ENTRY_SIZE: nat := 128

  class Test {
    const base: nat                 // address of the entry array
    const next: array<nat>          // the `next` field of each entry, an address or 0
    const selected: array<bool>     // the `selected[0]` byte of each entry
    const rand: nat -> nat          // the results of `rand()`, in order
    var draws: nat                  // how many of them have been used
    var entries: nat
    var xorKey: nat
    var headBlinded: nat
    var prefBlinded: nat

    /** `malloc` returned memory that does not wrap around. */
    constructor (base: nat, rand: nat -> nat, entries: nat)
      requires 0 < base && base + ENTRIES_COUNT * ENTRY_SIZE < TWO_64 && Fair(rand, ENTRIES_COUNT)
      ensures Valid() && this.base == base && this.rand == rand && this.entries == entries
      ensures fresh(next) && fresh(selected)
    {
      this.base, this.rand, this.entries := base, rand, entries;
      this.next, this.selected := new nat[ENTRIES_COUNT](_ => 0), new bool[ENTRIES_COUNT](_ => false);
      draws, xorKey, headBlinded, prefBlinded := 0, 0, 0, 0;
    }

    ghost predicate Valid() {
      && next.Length == selected.Length == ENTRIES_COUNT
      && 0 < base && base + ENTRIES_COUNT * ENTRY_SIZE < TWO_64
      && Fair(rand, ENTRIES_COUNT)
    }

    function Address(i: nat): nat {
      base + i * ENTRY_SIZE
    }

    function Drawn(m: nat): (i: nat)
      ensures i < ENTRIES_COUNT
    {
      Slot(rand, ENTRIES_COUNT, m)
    }

    // ---------- building the list ----------

    ghost predicate Taken(taken: set<nat>)
      reads selected
      requires Valid()
    {
      taken <= Below(ENTRIES_COUNT) && forall i :: 0 <= i < ENTRIES_COUNT ==> (selected[i] <==> i in taken)
    }

    lemma LatestDraw(taken: set<nat>) returns (m: nat)
      requires Valid() && taken <= Below(ENTRIES_COUNT) && |taken| < ENTRIES_COUNT
      ensures m >= draws && Drawn(m) !in taken
    {
      m := FreeSlotComes(rand, ENTRIES_COUNT, draws, taken);
    }

    /** Draws until the slot drawn is free, and takes it. */
    method SelectEntry(ghost taken: set<nat>) returns (result: nat)
      requires Valid() && Taken(taken) && |taken| < ENTRIES_COUNT
      modifies this`draws, selected
      ensures |taken + {result}| == |taken| + 1
      ensures result < ENTRIES_COUNT && result !in taken && Taken(taken + {result})
      ensures old(draws) < draws && result == Drawn(draws - 1)
      ensures forall m :: old(draws) <= m < draws - 1 ==> Drawn(m) in taken
    {
      hide Below, Fair, Drawn;
      ghost var latest := LatestDraw(taken);
      result := Drawn(draws);
      draws := draws + 1;
      while selected[result]
        invariant old(draws) < draws <= latest + 1 && result == Drawn(draws - 1)
        invariant forall m :: old(draws) <= m < draws - 1 ==> Drawn(m) in taken
        decreases latest - draws
        modifies this`draws
      {
        result := Drawn(draws);
        draws := draws + 1;
      }
      selected[result] := true;
    }

    /** The entries of the list in order, none of them twice, and the reference outside. */
    ghost predicate Arranged(order: seq<nat>, reference: nat) {
      && Distinct(order) && reference !in order && reference < ENTRIES_COUNT
      && forall i :: 0 <= i < |order| ==> order[i] < ENTRIES_COUNT
    }

    /** `order` is the list from its head to its last entry. */
    ghost predicate Linked(order: seq<nat>, reference: nat)
      reads this`entries, next
      requires Valid()
    {
      && |order| == entries + 1 && Arranged(order, reference)
      && Chain(next[..], order, entries) && next[order[entries]] == 0
    }

    ghost predicate Blinded(order: seq<nat>, reference: nat, isRef: bool)
      reads this
      requires |order| == entries + 1
    {
      && xorKey == BLIND_MEASURE_KEY
      && headBlinded == Xor(Address(order[0]), BLIND_MEASURE_KEY)
      && prefBlinded == Xor(Address(if isRef then reference else order[entries]), BLIND_MEASURE_KEY)
    }

    /** The first `k` links of the list. */
    ghost predicate Chain(links: seq<nat>, order: seq<nat>, k: nat) {
      && |links| == ENTRIES_COUNT && k < |order|
      && forall i :: 0 <= i < k ==> order[i] < ENTRIES_COUNT && links[order[i]] == Address(order[i + 1])
    }

    lemma ArrangedAlone(links: seq<nat>, head: nat, reference: nat)
      requires head < ENTRIES_COUNT && reference < ENTRIES_COUNT && head != reference && |links| == ENTRIES_COUNT
      ensures Arranged([head], reference) && Chain(links, [head], 0)
    {
    }

    /** Setting the last entry's link extends the chain and keeps the links before it. */
    lemma ChainStep(links: seq<nat>, order: seq<nat>, k: nat, reference: nat, cur: nat)
      requires |order| == k + 1 && Arranged(order, reference) && Chain(links, order, k)
      ensures order[k] < ENTRIES_COUNT && Chain(links[order[k] := Address(cur)], order + [cur], k + 1)
    {
    }

    method Clear()
      requires Valid()
      modifies next, selected
      ensures Taken({}) && forall j :: 0 <= j < ENTRIES_COUNT ==> next[j] == 0
    {
      for i := 0 to ENTRIES_COUNT
        invariant forall j :: 0 <= j < i ==> next[j] == 0 && !selected[j]
      {
        next[i] := 0;
        selected[i] := false;
      }
    }

    lemma ArrangedStep(order: seq<nat>, reference: nat, taken: set<nat>, cur: nat)
      requires Arranged(order, reference) && reference in taken && cur < ENTRIES_COUNT && cur !in taken
      requires forall i :: i in order ==> i in taken
      ensures Arranged(order + [cur], reference) && forall i :: i in order + [cur] ==> i in taken + {cur}
    {
    }

    /** The list while it grows: `taken` are its entries and the reference. */
    ghost predicate Growing(order: seq<nat>, reference: nat, taken: set<nat>)
      reads next, selected
      requires Valid()
    {
      && Taken(taken) && |taken| == |order| + 1 && reference in taken && (forall j :: j in order ==> j in taken)
      && order != [] && Arranged(order, reference) && Chain(next[..], order, |order| - 1)
      && next[order[|order| - 1]] == 0
      && forall j :: 0 <= j < ENTRIES_COUNT && j !in taken ==> next[j] == 0
    }

    /** One turn of the loop: a fresh entry is linked behind the last one. */
    method Append(last: nat, ghost order: seq<nat>, ghost reference: nat, ghost taken: set<nat>) returns (cur: nat)
      requires Valid() && Growing(order, reference, taken) && last == order[|order| - 1]
      requires |taken| < ENTRIES_COUNT
      modifies this`draws, next, selected
      ensures Growing(order + [cur], reference, taken + {cur})
    {
      hide Below, Fair, Taken, Drawn, Distinct, Address, Arranged, Chain;
      ArrangedBelow(order, reference);
      ghost var links := next[..];
      cur := SelectEntry(taken);
      next[last] := Address(cur);
      ChainStep(links, order, |order| - 1, reference, cur);
      assert next[..] == links[last := Address(cur)];
      ArrangedStep(order, reference, taken, cur);
    }

    /** A list of `entries + 1` distinct entries in random order, and one more entry for reference. */
    method Init(isRef: bool) returns (ghost order: seq<nat>, ghost reference: nat)
      requires Valid() && entries + 2 <= ENTRIES_COUNT
      modifies this`draws, this`xorKey, this`headBlinded, this`prefBlinded, next, selected
      ensures Valid() && Linked(order, reference) && Blinded(order, reference, isRef)
    {
      hide Below, Fair, Taken, Xor, Drawn, Distinct, Address, Arranged, Chain;
      Clear();
      var ref := SelectEntry({});
      ghost var taken: set<nat> := {} + {ref};
      var head := SelectEntry(taken);
      var last := head;
      taken := taken + {head};
      reference, order := ref, [head];
      ArrangedAlone(next[..], head, ref);
      for i := 0 to entries
        invariant |order| == i + 1 && order[0] == head && order[i] == last && Growing(order, ref, taken)
      {
        var cur := Append(last, order, ref, taken);
        order, taken := order + [cur], taken + {cur};
        last := cur;
      }
      xorKey := BLIND_MEASURE_KEY;
      headBlinded := Xor(Address(head), xorKey);
      prefBlinded := Xor(Address(if isRef then ref else last), xorKey);
    }

    // ---------- the chase ----------

    predicate IsEntry(address: nat) {
      base <= address < base + ENTRIES_COUNT * ENTRY_SIZE && (address - base) % ENTRY_SIZE == 0
    }

    /** A load of the `next` field at an address. */
    function Load(address: nat): nat
      reads next
      requires Valid() && IsEntry(address)
    {
      next[(address - base) / ENTRY_SIZE]
    }

    lemma LoadAt(i: nat)
      requires Valid() && i < ENTRIES_COUNT
      ensures IsEntry(Address(i)) && Load(Address(i)) == next[i]
    {
    }

    /** The loop of the assembly code, over its registers, with every address it loads; then the
        address whose access time it measures. */
    method Chase(ghost order: seq<nat>, ghost reference: nat, ghost isRef: bool)
      returns (loads: seq<nat>, measured: nat)
      requires Valid() && Linked(order, reference) && Blinded(order, reference, isRef)
      ensures |loads| == entries
      ensures forall i :: 0 <= i < entries ==> loads[i] == Address(order[i])
      ensures measured == Address(if isRef then reference else order[entries])
    {
      hide Load, IsEntry, Address, Xor, Fair, Arranged;
      ArrangedBelow(order, reference);
      XorXor(Address(order[0]), BLIND_MEASURE_KEY);
      XorXor(Address(if isRef then reference else order[entries]), BLIND_MEASURE_KEY);
      var r10, r14, r8, r15 := entries, xorKey, headBlinded, prefBlinded;
      r8 := Xor(r8, r14);
      loads := [];
      while r10 != 0
        invariant 0 <= r10 <= entries && |loads| == entries - r10
        invariant r8 == Address(order[|loads|])
        invariant forall i :: 0 <= i < |loads| ==> loads[i] == Address(order[i])
      {
        LoadAt(order[|loads|]);
        loads := loads + [r8];
        r8 := Load(r8);
        r10 := r10 - 1;
      }
      r15 := Xor(r15, r14);
      LoadAt(if isRef then reference else order[entries]);
      var rax := Load(r15);
      measured := r15;
    }

    lemma ArrangedBelow(order: seq<nat>, reference: nat)
      requires Arranged(order, reference)
      ensures reference < ENTRIES_COUNT && forall i :: 0 <= i < |order| ==> order[i] < ENTRIES_COUNT
    {
    }

    /** One measurement: whichever pointer is measured, no load of the chase came near it. Entries are
        a pair of cache lines each, so even the neighbouring line was left alone. */
    method Measure(isRef: bool) returns (loads: seq<nat>, measured: nat)
      requires Valid() && entries + 2 <= ENTRIES_COUNT
      modifies this`draws, this`xorKey, this`headBlinded, this`prefBlinded, next, selected
      ensures Valid() && |loads| == entries
      ensures forall i :: 0 <= i < |loads| ==> Abs(loads[i] as int - measured) >= ENTRY_SIZE
      ensures forall i, j :: 0 <= i < j < |loads| ==> Abs(loads[i] as int - loads[j]) >= ENTRY_SIZE
    {
      hide Chain, Fair, Xor, Blinded;
      ghost var order, reference;
      order, reference := Init(isRef);
      loads, measured := Chase(order, reference, isRef);
    }
  }

  // ---------- touching the pages ----------

  /** Before the chase the pages of the array are touched. This does load a node: exactly those whose
      index is a multiple of 32, measured or not. */
  lemma PageTouchesNode(base: nat, i: nat)
    requires i < ENTRIES_COUNT
    ensures base + i * ENTRY_SIZE in Starts(base, ENTRIES_COUNT * ENTRY_SIZE) <==> i % 32 == 0
  {
    TouchedIff(base, ENTRIES_COUNT * ENTRY_SIZE, base + i * ENTRY_SIZE);
  }
}
