/** The affine line permutation and the memory activity that resets the prefetcher. */
module Mapping {
  import opened Bits
  import opened CArithmetic
  import opened StrideModel

  // ---------- the permutation ----------

  const FACTOR: nat := 167
  const OFFSET: nat := 13

  function Permute(upperBound: nat, idx: nat): nat
    requires upperBound > 0
  {
    And(ToSize(idx * FACTOR + OFFSET), upperBound - 1)
  }

  /** The factor's inverse modulo 2^64, hence modulo every smaller power of two. */
  const INVERSE: nat := 10162278172342986519
  const CARRY: nat := 92

  function Unpermute(upperBound: nat, line: nat): nat
    requires upperBound > 0
  {
    (INVERSE * (line - OFFSET)) % upperBound
  }

  lemma ModPlusMultiple(i: nat, n: nat, z: int)
    requires i < n
    ensures (i + n * z) % n == i
  {
    assert n * z == z * n;
    DivMulPlus(z, n, i);
  }

  /** The remainder of an integer differs from it by a multiple. */
  lemma ModIs(x: int, n: nat)
    requires n > 0
    ensures exists q: int :: x % n == x + n * q
  {
    assert x % n == x + n * -(x / n);
  }

  lemma PermuteIs(k: nat, idx: nat)
    requires k <= 64
    ensures exists q: int :: Permute(Pow2(k), idx) == idx * FACTOR + OFFSET + Pow2(k) * q
    ensures Permute(Pow2(k), idx) < Pow2(k)
  {
    hide And, Pow2;
    var n, x := Pow2(k), idx * FACTOR + OFFSET;
    AndMask(ToSize(x), k);
    Pow2Of64();
    Pow2Sum(k, 64 - k);
    var m := Pow2(64 - k);
    ModIs(x, TWO_64);
    var q: int :| x % TWO_64 == x + TWO_64 * q;
    ModIs(ToSize(x), n);
    var r: int :| ToSize(x) % n == ToSize(x) + n * r;
    assert n * m * q + n * r == n * (m * q + r);
  }

  /** The permuted index is `167 * i + 13`, reduced. */
  lemma PermuteAffine(k: nat, i: nat)
    requires k <= 64
    ensures Permute(Pow2(k), i) == (167 * i + 13) % Pow2(k)
  {
    hide Permute, Pow2;
    PermuteIs(k, i);
    var n := Pow2(k);
    var q: int :| Permute(n, i) == i * FACTOR + OFFSET + n * q;
    assert 167 * i + 13 == -q * n + Permute(n, i) by { assert -q * n == -(n * q); }
    DivMulPlus(-q, n, Permute(n, i));
  }

  /** `Permute` is a bijection on the indices below any power of two: `Unpermute` is its inverse on
      both sides. */
  lemma PermuteBijection(k: nat, i: nat)
    requires k <= 64 && i < Pow2(k)
    ensures Permute(Pow2(k), i) < Pow2(k) && Unpermute(Pow2(k), Permute(Pow2(k), i)) == i
    ensures Unpermute(Pow2(k), i) < Pow2(k) && Permute(Pow2(k), Unpermute(Pow2(k), i)) == i
  {
    UnpermutePermute(k, i);
    PermuteUnpermute(k, i);
  }

  lemma InverseTimes(x: int, n: nat, m: nat)
    requires n * m == TWO_64
    ensures INVERSE * (x * FACTOR) == x + n * (CARRY * (m * x))
  {
    assert INVERSE * FACTOR == 1 + CARRY * TWO_64;
    Regroup(CARRY, n, m * x, 0);
    assert n * (m * x) == n * m * x;
  }

  lemma Regroup(c: int, n: int, x: int, b: int)
    ensures n * (b + c * x) == n * b + c * (n * x)
  {
  }

  lemma UnpermutePermute(k: nat, i: nat)
    requires k <= 64 && i < Pow2(k)
    ensures Permute(Pow2(k), i) < Pow2(k) && Unpermute(Pow2(k), Permute(Pow2(k), i)) == i
  {
    hide Permute, Pow2;
    var n := Pow2(k);
    PermuteIs(k, i);
    var q: int :| Permute(n, i) == i * FACTOR + OFFSET + n * q;
    Pow2Of64();
    Pow2Sum(k, 64 - k);
    var m := Pow2(64 - k);
    InverseTimes(i, n, m);
    var z := CARRY * (m * i) + INVERSE * q;
    assert INVERSE * (i * FACTOR + n * q) == i + n * z by {
      Regroup(INVERSE, n, q, CARRY * (m * i));
    }
    ModPlusMultiple(i, n, z);
  }

  lemma PermuteUnpermute(k: nat, i: nat)
    requires k <= 64 && i < Pow2(k)
    ensures Unpermute(Pow2(k), i) < Pow2(k) && Permute(Pow2(k), Unpermute(Pow2(k), i)) == i
  {
    hide Permute, Pow2;
    var n := Pow2(k);
    var j := Unpermute(n, i);
    ModIs(INVERSE * (i - OFFSET), n);
    var q: int :| j == INVERSE * (i - OFFSET) + n * q;
    PermuteIs(k, j);
    var r: int :| Permute(n, j) == j * FACTOR + OFFSET + n * r;
    Pow2Of64();
    Pow2Sum(k, 64 - k);
    var m := Pow2(64 - k);
    InverseTimes(i - OFFSET, n, m);
    var z := CARRY * (m * (i - OFFSET)) + (FACTOR * q + r);
    assert j * FACTOR + OFFSET + n * r == i + n * z by {
      Regroup(FACTOR, n, q, CARRY * (m * (i - OFFSET)) + r);
      Regroup(1, n, r, CARRY * (m * (i - OFFSET)));
    }
    ModPlusMultiple(i, n, z);
    ModPlusMultiple(Permute(n, j), n, 0);
  }

  // ---------- random activity ----------

  const PAGE_SIZE: nat := 4096
  const PASSES: nat := 100000

  /** The loads within one page: every second index, permuted. */
  function PageOffsets(page: nat): (offsets: seq<nat>)
    ensures |offsets| == 32
  {
    seq(32, i requires 0 <= i < 32 => page * PAGE_SIZE + Permute(64, 2 * i) * CACHE_LINE_SIZE)
  }

  function PassOffsets(pages: nat): seq<nat> {
    if pages == 0 then [] else PassOffsets(pages - 1) + PageOffsets(pages - 1)
  }

  /** The loads of each pass, as offsets into the mapping; the flush before each pass is left out. */
  method RandomActivity(size: nat) returns (passes: seq<seq<nat>>)
    ensures |passes| == PASSES
    ensures forall i :: 0 <= i < PASSES ==> passes[i] == PassOffsets(size / PAGE_SIZE)
  {
    hide Permute;
    passes := [];
    for i := 0 to PASSES
      invariant |passes| == i && forall j :: 0 <= j < i ==> passes[j] == PassOffsets(size / PAGE_SIZE)
    {
      var clsPerPage := PAGE_SIZE / CACHE_LINE_SIZE;
      var pass: seq<nat> := [];
      for page := 0 to size / PAGE_SIZE
        invariant pass == PassOffsets(page)
      {
        ghost var before := pass;
        var cl := 0;
        while cl < clsPerPage
          invariant 0 <= cl <= clsPerPage && cl % 2 == 0
          invariant pass == before + PageOffsets(page)[..cl / 2]
        {
          pass := pass + [page * PAGE_SIZE + Permute(clsPerPage, cl) * CACHE_LINE_SIZE];
          assert PageOffsets(page)[..cl / 2 + 1] == PageOffsets(page)[..cl / 2] + [PageOffsets(page)[cl / 2]];
          cl := cl + 2;
        }
        assert PageOffsets(page)[..32] == PageOffsets(page);
      }
      passes := passes + [pass];
    }
  }

  lemma PermuteParity(i: nat)
    requires i < 64
    ensures Permute(64, i) < 64 && Permute(64, i) % 2 == (i + 1) % 2
  {
    hide Permute, Pow2;
    Pow2Of8();
    PermuteIs(6, i);
    var q: int :| Permute(64, i) == i * FACTOR + OFFSET + 64 * q;
    ParityOf(i, 83 * i + 6 + 32 * q);
  }

  lemma ParityOf(i: nat, z: int)
    ensures (2 * z + i + 1) % 2 == (i + 1) % 2
  {
  }

  /** The first byte of a line with an odd index. */
  predicate OddLine(offset: nat) {
    offset % CACHE_LINE_SIZE == 0 && offset / CACHE_LINE_SIZE % 2 == 1
  }

  lemma PageParity(page: nat, line: nat)
    ensures (64 * page + line) % 2 == line % 2
  {
  }

  lemma OddLineIff(page: nat, line: nat)
    requires line < 64
    ensures var offset := page * PAGE_SIZE + line * CACHE_LINE_SIZE;
            && (OddLine(offset) <==> line % 2 == 1)
            && page * PAGE_SIZE <= offset < (page + 1) * PAGE_SIZE
  {
    var offset := page * PAGE_SIZE + line * CACHE_LINE_SIZE;
    assert offset == (64 * page + line) * CACHE_LINE_SIZE + 0;
    PageParity(page, line);
    DivMulPlus(64 * page + line, CACHE_LINE_SIZE, 0);
  }

  lemma LineInPage(page: nat, offset: nat) returns (line: nat)
    requires OddLine(offset) && page * PAGE_SIZE <= offset < (page + 1) * PAGE_SIZE
    ensures line < 64 && line % 2 == 1 && offset == page * PAGE_SIZE + line * CACHE_LINE_SIZE
  {
    line := offset / CACHE_LINE_SIZE - 64 * page;
  }

  lemma PermutedLines(i: nat)
    requires i < 64
    ensures Permute(64, i) < 64 && Permute(64, i) % 2 == (i + 1) % 2 && Unpermute(64, Permute(64, i)) == i
    ensures Unpermute(64, i) < 64 && Permute(64, Unpermute(64, i)) == i
  {
    hide Permute, Unpermute, Pow2;
    Pow2Of8();
    PermuteParity(i);
    PermuteBijection(6, i);
  }

  predicate Unrepeated(s: seq<nat>) {
    forall i, j :: 0 <= i < j < |s| ==> s[i] != s[j]
  }

  /** The loads of a page are the starts of its odd lines, each exactly once. */
  lemma PageOffsetsOdd(page: nat, offset: nat)
    ensures offset in PageOffsets(page) <==> OddLine(offset) && page * PAGE_SIZE <= offset < (page + 1) * PAGE_SIZE
    ensures Unrepeated(PageOffsets(page))
  {
    hide Permute, Unpermute, OddLine;
    if offset in PageOffsets(page) {
      var i :| 0 <= i < 32 && PageOffsets(page)[i] == offset;
      PermutedLines(2 * i);
      OddLineIff(page, Permute(64, 2 * i));
    }
    if OddLine(offset) && page * PAGE_SIZE <= offset < (page + 1) * PAGE_SIZE {
      var line := LineInPage(page, offset);
      PermutedLines(line);
      PermutedLines(Unpermute(64, line));
      assert PageOffsets(page)[Unpermute(64, line) / 2] == offset;
    }
    forall i, j | 0 <= i < j < 32
      ensures PageOffsets(page)[i] != PageOffsets(page)[j]
    {
      PermutedLines(2 * i);
      PermutedLines(2 * j);
    }
  }

  /** A pass over the mapping loads exactly the odd lines of its pages, each once. */
  lemma {:induction false} PassOdd(pages: nat)
    ensures forall offset: nat :: offset in PassOffsets(pages) <==> OddLine(offset) && offset < pages * PAGE_SIZE
    ensures Unrepeated(PassOffsets(pages))
  {
    hide OddLine, PageOffsets;
    if pages > 0 {
      var before, page := PassOffsets(pages - 1), PageOffsets(pages - 1);
      PassOdd(pages - 1);
      forall offset: nat
        ensures offset in page <==> OddLine(offset) && (pages - 1) * PAGE_SIZE <= offset < pages * PAGE_SIZE
      {
        PageOffsetsOdd(pages - 1, offset);
      }
      PageOffsetsOdd(pages - 1, 0);
      assert PassOffsets(pages) == before + page;
      assert Unrepeated(before) && Unrepeated(page) && forall offset :: offset in before ==> offset !in page;
      UnrepeatedConcat(before, page);
    }
  }

  /** The loads of a pass one by one, page after page. */
  lemma {:induction false} PassAt(pages: nat, page: nat, i: nat)
    requires page < pages && i < 32
    ensures |PassOffsets(pages)| == 32 * pages
    ensures PassOffsets(pages)[32 * page + i] == 4096 * page + 64 * ((334 * i + 13) % 64)
  {
    hide PageOffsets, Permute;
    PassLength(pages - 1);
    if page < pages - 1 {
      PassAt(pages - 1, page, i);
    } else {
      PageAt(page, i);
    }
  }

  lemma PageAt(page: nat, i: nat)
    requires i < 32
    ensures PageOffsets(page)[i] == 4096 * page + 64 * ((334 * i + 13) % 64)
  {
    hide Permute;
    PermuteAffine(6, 2 * i);
    Pow2Of8();
  }

  lemma {:induction false} PassLength(pages: nat)
    ensures |PassOffsets(pages)| == 32 * pages
  {
    if pages > 0 {
      PassLength(pages - 1);
    }
  }

  lemma UnrepeatedConcat(a: seq<nat>, b: seq<nat>)
    requires Unrepeated(a) && Unrepeated(b) && forall x :: x in a ==> x !in b
    ensures Unrepeated(a + b)
  {
    forall i, j | 0 <= i < j < |a + b|
      ensures (a + b)[i] != (a + b)[j]
    {
      if i < |a| <= j {
        assert a[i] in a && b[j - |a|] in b;
      }
    }
  }
}
