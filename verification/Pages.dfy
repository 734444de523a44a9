/** Touching the pages of an array before a measurement, as both pointer tests do. */
module Pages {
  const PAGE_SIZE: nat := 4096

  /** The first byte of every page, one past the end included. */
  function Starts(base: nat, size: nat): (starts: seq<nat>)
    ensures |starts| == size / PAGE_SIZE + 1
  {
    seq(size / PAGE_SIZE + 1, k requires 0 <= k => base + k * PAGE_SIZE)
  }

  method AccessPages(base: nat, size: nat) returns (touched: seq<nat>)
    ensures touched == Starts(base, size)
  {
    touched := [];
    var i := 0;
    while i <= size
      invariant i == |touched| * PAGE_SIZE && i <= size + PAGE_SIZE
      invariant forall k :: 0 <= k < |touched| ==> touched[k] == base + k * PAGE_SIZE
    {
      touched := touched + [base + i];
      i := i + PAGE_SIZE;
    }
  }

  /** An address is touched exactly if it lies whole pages behind the start and not beyond the end. */
  lemma TouchedIff(base: nat, size: nat, address: nat)
    ensures address in Starts(base, size) <==> base <= address <= base + size && (address - base) % PAGE_SIZE == 0
  {
    if base <= address <= base + size && (address - base) % PAGE_SIZE == 0 {
      assert Starts(base, size)[(address - base) / PAGE_SIZE] == address;
    }
  }
}
