/** Random choices without repetition, by rejection. */
module Choices {
  predicate Distinct(s: seq<nat>) {
    forall i, j :: 0 <= i < j < |s| ==> s[i] != s[j]
  }

  /** The slot that draw `m` of the generator comes to. */
  function Slot(rand: nat -> nat, n: nat, m: nat): (slot: nat)
    requires n > 0
    ensures slot < n
  {
    rand(m) % n
  }

  /** From draw `k` on the generator comes to slot `c` of `n` at some time. */
  ghost predicate Comes(rand: nat -> nat, n: nat, k: nat, c: nat)
    requires n > 0
  {
    exists m: nat :: m >= k && Slot(rand, n, m) == c
  }

  /** The generator never stops coming back to any slot. Without this the loops that draw until they
      hit a free slot might not end. */
  ghost predicate Fair(rand: nat -> nat, n: nat)
    requires n > 0
  {
    forall k: nat, c: nat :: c < n ==> Comes(rand, n, k, c)
  }

  function Below(n: nat): (s: set<nat>)
    ensures |s| == n && forall c: nat :: c in s <==> c < n
  {
    if n == 0 then {} else Below(n - 1) + {n - 1}
  }

  lemma SubsetSmaller(a: set<nat>, b: set<nat>)
    requires a <= b
    ensures |a| <= |b| && (a != b ==> |a| < |b|)
  {
    if a != {} {
      var x :| x in a;
      SubsetSmaller(a - {x}, b - {x});
    }
  }

  /** Pigeonholes: no more than `n` different slots lie below `n`. */
  lemma DistinctBelow(s: seq<nat>, n: nat)
    requires Distinct(s) && forall i :: 0 <= i < |s| ==> s[i] < n
    ensures |s| <= n
  {
    hide Below;
    SubsetSmaller(Members(s), Below(n));
  }

  function Members(s: seq<nat>): (members: set<nat>)
    ensures forall c: nat :: c in members <==> c in s
    ensures Distinct(s) ==> |members| == |s|
  {
    if s == [] then
      {}
    else
      assert s == s[..|s| - 1] + [s[|s| - 1]];
      Members(s[..|s| - 1]) + {s[|s| - 1]}
  }

  /** Slots below `n` are left exactly as long as fewer than `n` are taken. */
  lemma FreeSlot(taken: set<nat>, n: nat)
    requires taken <= Below(n)
    ensures |taken| <= n
    ensures (exists c: nat :: c < n && c !in taken) <==> |taken| < n
  {
    hide Below;
    SubsetSmaller(taken, Below(n));
    if taken != Below(n) {
      var c: nat :| c in Below(n) && c !in taken;
    }
  }

  /** So from any draw on, a free slot comes up. */
  lemma FreeSlotComes(rand: nat -> nat, n: nat, k: nat, taken: set<nat>) returns (m: nat)
    requires n > 0 && Fair(rand, n) && taken <= Below(n) && |taken| < n
    ensures m >= k && Slot(rand, n, m) !in taken
  {
    hide Below;
    FreeSlot(taken, n);
    var c: nat :| c < n && c !in taken;
    assert Comes(rand, n, k, c);
    m :| m >= k && Slot(rand, n, m) == c;
  }

  /** Drawing until a free slot comes up ends if and only if there is one. */
  lemma DrawingEndsIff(rand: nat -> nat, n: nat, k: nat, taken: set<nat>)
    requires n > 0 && Fair(rand, n) && taken <= Below(n)
    ensures (exists m: nat :: m >= k && Slot(rand, n, m) !in taken) <==> |taken| < n
  {
    hide Below, Fair;
    FreeSlot(taken, n);
    if |taken| < n {
      var m := FreeSlotComes(rand, n, k, taken);
    }
  }

  /** The slots that draws `k` to `k + m - 1` come to. */
  ghost function DrawnFrom(rand: nat -> nat, n: nat, k: nat, m: nat): set<nat>
    requires n > 0
  {
    if m == 0 then {} else DrawnFrom(rand, n, k, m - 1) + {Slot(rand, n, k + m - 1)}
  }

  lemma {:induction false} DrawnBelow(rand: nat -> nat, n: nat, k: nat, m: nat)
    requires n > 0
    ensures DrawnFrom(rand, n, k, m) <= Below(n)
  {
    hide Below;
    if m > 0 {
      DrawnBelow(rand, n, k, m - 1);
    }
  }

  lemma {:induction false} DrawnGrows(rand: nat -> nat, n: nat, k: nat, l: nat, m: nat)
    requires n > 0 && l <= m
    ensures DrawnFrom(rand, n, k, l) <= DrawnFrom(rand, n, k, m)
  {
    if l < m {
      DrawnGrows(rand, n, k, l, m - 1);
    }
  }

  lemma DrawnStep(rand: nat -> nat, n: nat, k: nat, m: nat)
    requires n > 0
    ensures DrawnFrom(rand, n, k, 0) == {}
    ensures DrawnFrom(rand, n, k, m + 1) == DrawnFrom(rand, n, k, m) + {Slot(rand, n, k + m)}
  {
  }

  lemma {:induction false} DrawsSuffice(rand: nat -> nat, n: nat, k: nat, need: nat) returns (m: nat)
    requires n > 0 && Fair(rand, n) && need <= n
    ensures |DrawnFrom(rand, n, k, m)| >= need
  {
    hide Below, Fair, DrawnFrom;
    m := 0;
    if need > 0 {
      m := DrawsSuffice(rand, n, k, need - 1);
      var taken := DrawnFrom(rand, n, k, m);
      DrawnBelow(rand, n, k, m);
      if |taken| < need {
        var next := FreeSlotComes(rand, n, k + m, taken);
        DrawnGrows(rand, n, k, m, next - k);
        m := next + 1 - k;
        DrawnStep(rand, n, k, next - k);
        SubsetSmaller(taken + {Slot(rand, n, next)}, DrawnFrom(rand, n, k, m));
      }
    }
  }

  /** `taken` is what the draws since `start` came to. */
  ghost predicate Collected(rand: nat -> nat, n: nat, start: nat, draws: nat, taken: set<nat>)
    requires n > 0
  {
    start <= draws && taken == DrawnFrom(rand, n, start, draws - start)
  }

  lemma NothingCollected(rand: nat -> nat, n: nat, start: nat)
    requires n > 0
    ensures Collected(rand, n, start, start, {})
  {
  }

  lemma CollectedStep(rand: nat -> nat, n: nat, start: nat, draws: nat, taken: set<nat>)
    requires n > 0 && Collected(rand, n, start, draws, taken)
    ensures Collected(rand, n, start, draws + 1, taken + {Slot(rand, n, draws)})
  {
    DrawnStep(rand, n, start, draws - start);
  }

  /** At some time `need` different slots have been drawn. */
  ghost predicate Collects(rand: nat -> nat, n: nat, k: nat, need: nat)
    requires n > 0
  {
    exists m: nat :: |DrawnFrom(rand, n, k, m)| >= need
  }

  /** That is so if and only if there are as many. */
  lemma CollectingEndsIff(rand: nat -> nat, n: nat, k: nat, need: nat)
    requires n > 0 && Fair(rand, n)
    ensures Collects(rand, n, k, need) <==> need <= n
  {
    hide Below, Fair, DrawnFrom;
    if need <= n {
      var m := DrawsSuffice(rand, n, k, need);
    } else {
      forall m: nat
        ensures |DrawnFrom(rand, n, k, m)| < need
      {
        DrawnBelow(rand, n, k, m);
        SubsetSmaller(DrawnFrom(rand, n, k, m), Below(n));
      }
    }
  }
}
