/** Bitwise operators on unsigned integers, and the powers of two. The operators are defined by recursion
    on the lowest bit, so that their laws hold for words of any width. */
module Bits {
  import opened CArithmetic

  /** `x & y`, bit by bit. */
  function And(x: nat, y: nat): nat {
    if x == 0 || y == 0 then 0 else 2 * And(x / 2, y / 2) + (x % 2) * (y % 2)
  }

  function Pow2(k: nat): (n: nat)
    ensures n > 0
  {
    if k == 0 then 1 else 2 * Pow2(k - 1)
  }

  lemma ModDouble(x: nat, n: nat)
    requires n > 0
    ensures x % (2 * n) == 2 * (x / 2 % n) + x % 2
  {
    DivMod(x / 2, n);
    var q, r := x / 2 / n, x / 2 % n;
    assert q * (2 * n) == 2 * (q * n);
    DivMulPlus(q, 2 * n, 2 * r + x % 2);
  }

  lemma AndOdd(x: nat, y: nat)
    ensures And(x, 2 * y + 1) == 2 * And(x / 2, y) + x % 2
  {
    var z := 2 * y + 1;
    assert z / 2 == y && z % 2 == 1;
    if x > 0 {
      assert And(x, z) == 2 * And(x / 2, z / 2) + x % 2 * (z % 2);
    }
  }

  /** Masking with one less than a power of two is the remainder. */
  lemma {:induction false} AndMask(x: nat, k: nat)
    ensures And(x, Pow2(k) - 1) == x % Pow2(k)
  {
    hide And;
    if k > 0 {
      AndMask(x / 2, k - 1);
      AndOdd(x, Pow2(k - 1) - 1);
      ModDouble(x, Pow2(k - 1));
    } else {
      AndZero(x);
    }
  }

  lemma AndZero(x: nat)
    ensures And(x, 0) == 0
  {
  }

  lemma {:induction false} Pow2Sum(j: nat, k: nat)
    ensures Pow2(j + k) == Pow2(j) * Pow2(k)
  {
    if j > 0 {
      Pow2Sum(j - 1, k);
      assert 2 * Pow2(j - 1) * Pow2(k) == 2 * (Pow2(j - 1) * Pow2(k));
    }
  }

  lemma Pow2Of8()
    ensures Pow2(6) == 64 && Pow2(8) == 256
  {
    assert Pow2(2) == 4 && Pow2(4) == 16 && Pow2(6) == 64;
  }

  lemma Pow2Of64()
    ensures Pow2(64) == TWO_64
  {
    hide Pow2;
    Pow2Of8();
    Pow2Sum(8, 8);
    Pow2Sum(16, 16);
    Pow2Sum(32, 32);
  }

  /** `x ^ y`, bit by bit. */
  function Xor(x: nat, y: nat): nat {
    if x == 0 then y else if y == 0 then x else 2 * Xor(x / 2, y / 2) + (x % 2 + y % 2) % 2
  }

  lemma XorBits(x: nat, y: nat)
    ensures Xor(x, y) / 2 == Xor(x / 2, y / 2) && Xor(x, y) % 2 == (x % 2 + y % 2) % 2
  {
  }

  /** Blinding twice with one key gives the value back. */
  lemma {:induction false} XorXor(x: nat, key: nat)
    ensures Xor(Xor(x, key), key) == x
    decreases x + key
  {
    hide Xor;
    if x + key > 0 {
      XorBits(x, key);
      XorBits(Xor(x, key), key);
      XorXor(x / 2, key / 2);
    } else {
      XorZero(0);
    }
  }

  lemma XorZero(x: nat)
    ensures Xor(0, x) == x && Xor(x, 0) == x
  {
  }

  lemma {:induction false} XorBelow(x: nat, y: nat, k: nat)
    requires x < Pow2(k) && y < Pow2(k)
    ensures Xor(x, y) < Pow2(k)
  {
    hide Xor;
    if k > 0 {
      XorBits(x, y);
      XorBelow(x / 2, y / 2, k - 1);
    } else {
      XorZero(0);
    }
  }

  lemma Xor64(x: nat, y: nat)
    requires x < TWO_64 && y < TWO_64
    ensures Xor(x, y) < TWO_64
  {
    hide Xor, Pow2;
    Pow2Of64();
    XorBelow(x, y, 64);
  }

  // ---------- single bits ----------

  function Bit(x: nat, k: nat): nat {
    x / Pow2(k) % 2
  }

  lemma BitNext(x: nat, k: nat)
    ensures Bit(x, k + 1) == Bit(x / 2, k) && Bit(x, 0) == x % 2
  {
    assert x / (2 * Pow2(k)) == x / 2 / Pow2(k) by { HalfQuotient(x, Pow2(k)); }
  }

  lemma HalfQuotient(x: nat, n: nat)
    requires n > 0
    ensures x / (2 * n) == x / 2 / n
  {
    DivMod(x / 2, n);
    var q, r := x / 2 / n, x / 2 % n;
    assert q * (2 * n) == 2 * (q * n);
    DivMulPlus(q, 2 * n, 2 * r + x % 2);
  }

  lemma AndBits(x: nat, y: nat)
    ensures And(x, y) / 2 == And(x / 2, y / 2)
    ensures And(x, y) % 2 == if x % 2 == 1 && y % 2 == 1 then 1 else 0
  {
    var a, b := x % 2, y % 2;
    BothSet(a, b);
    if x != 0 && y != 0 {
      assert And(x, y) == 2 * And(x / 2, y / 2) + a * b;
    } else {
      AndNothing(x / 2, y / 2);
    }
  }

  lemma BothSet(a: nat, b: nat)
    requires a < 2 && b < 2
    ensures a * b == if a == 1 && b == 1 then 1 else 0
  {
  }

  lemma AndNothing(x: nat, y: nat)
    ensures x == 0 || y == 0 ==> And(x, y) == 0
  {
  }

  /** A bit of `x & y` is set if and only if it is set in both. */
  lemma {:induction false} AndBit(x: nat, y: nat, k: nat)
    ensures Bit(And(x, y), k) == 1 <==> Bit(x, k) == 1 && Bit(y, k) == 1
  {
    hide And, Bit;
    AndBits(x, y);
    if k == 0 {
      BitNext(And(x, y), 0);
      BitNext(x, 0);
      BitNext(y, 0);
    } else {
      BitNext(And(x, y), k - 1);
      BitNext(x, k - 1);
      BitNext(y, k - 1);
      AndBit(x / 2, y / 2, k - 1);
    }
  }

  /** A bit of `x ^ y` is set if and only if it differs. */
  lemma {:induction false} XorBit(x: nat, y: nat, k: nat)
    ensures Bit(Xor(x, y), k) == 1 <==> Bit(x, k) != Bit(y, k)
  {
    hide Xor, Bit;
    XorBits(x, y);
    if k == 0 {
      BitNext(Xor(x, y), 0);
      BitNext(x, 0);
      BitNext(y, 0);
    } else {
      BitNext(Xor(x, y), k - 1);
      BitNext(x, k - 1);
      BitNext(y, k - 1);
      XorBit(x / 2, y / 2, k - 1);
    }
  }

  // ---------- adding under a key ----------

  /** `x` in a word of `w` bits. */
  function Word(w: nat, x: nat): nat {
    x % Pow2(w)
  }

  /** In words of `w` bits: adding `o` to the blinded value gives, once unblinded, the sum. */
  predicate Commutes(w: nat, key: nat, o: nat, t: nat) {
    Xor(Word(w, Xor(t, key) + o), key) == Word(w, t + o)
  }

  /** The lowest bit set, as a power of two. */
  function LowestBit(o: nat): nat {
    if o == 0 then 0 else if o % 2 == 1 then 1 else 2 * LowestBit(o / 2)
  }

  /** Nothing is added, or the key lies below all of it, but for the top bit, where carries get lost. */
  predicate Harmless(w: nat, key: nat, o: nat)
    requires w > 0
  {
    Word(w, o) == 0 || Word(w - 1, key) < LowestBit(Word(w, o))
  }

  lemma Pow2Step(w: nat)
    requires w > 0
    ensures Pow2(w) == 2 * Pow2(w - 1)
  {
  }

  lemma WordIs(w: nat, x: nat)
    ensures Word(w, x) == x % Pow2(w)
  {
  }

  lemma HalfMod(x: nat, w: nat)
    requires w > 0
    ensures Word(w, x) / 2 == Word(w - 1, x / 2) && Word(w, x) % 2 == x % 2
  {
    hide Pow2;
    Pow2Step(w);
    ModDouble(x, Pow2(w - 1));
  }

  lemma HalfSum(a: nat, b: nat)
    ensures (a + b) / 2 == a / 2 + b / 2 + (a % 2 + b % 2) / 2 && (a + b) % 2 == (a % 2 + b % 2) % 2
  {
  }

  lemma Halves(a: nat, b: nat)
    ensures a == b <==> a / 2 == b / 2 && a % 2 == b % 2
  {
  }

  /** The key bit cancels out. */
  lemma BitBack(t: nat, key: nat, o: nat)
    requires t < 2 && key < 2 && o < 2
    ensures (((t + key) % 2 + o) % 2 + key) % 2 == (t + o) % 2
  {
  }

  lemma UpperBits(w: nat, key: nat, o: nat, t: nat)
    requires w > 0
    ensures Xor(Word(w, Xor(t, key) + o), key) / 2 ==
              Xor(Word(w - 1, Xor(t / 2, key / 2) + o / 2 + ((t % 2 + key % 2) % 2 + o % 2) / 2), key / 2)
  {
    hide Xor, Word;
    XorBits(t, key);
    HalfSum(Xor(t, key), o);
    HalfMod(Xor(t, key) + o, w);
    XorBits(Word(w, Xor(t, key) + o), key);
  }

  lemma LowestBits(w: nat, key: nat, o: nat, t: nat)
    requires w > 0
    ensures Xor(Word(w, Xor(t, key) + o), key) % 2 == (t % 2 + o % 2) % 2
  {
    hide Xor, Word;
    XorBits(t, key);
    HalfSum(Xor(t, key), o);
    HalfMod(Xor(t, key) + o, w);
    XorBits(Word(w, Xor(t, key) + o), key);
    BitBack(t % 2, key % 2, o % 2);
  }

  /** Whether it commutes shows in the upper bits alone, where the carries arrive. */
  lemma CommutesStep(w: nat, key: nat, o: nat, t: nat)
    requires w > 0
    ensures Commutes(w, key, o, t) <==>
              Xor(Word(w - 1, Xor(t / 2, key / 2) + o / 2 + ((t % 2 + key % 2) % 2 + o % 2) / 2), key / 2)
              == Word(w - 1, t / 2 + o / 2 + (t % 2 + o % 2) / 2)
  {
    hide Xor, Word;
    UpperBits(w, key, o, t);
    LowestBits(w, key, o, t);
    HalfSum(t, o);
    HalfMod(t + o, w);
    Halves(Xor(Word(w, Xor(t, key) + o), key), Word(w, t + o));
  }

  lemma HarmlessEven(w: nat, key: nat, o: nat)
    requires w > 1 && o % 2 == 0
    ensures Harmless(w, key, o) <==> Harmless(w - 1, key / 2, o / 2)
  {
    hide Word;
    HalfMod(o, w);
    HalfMod(key, w - 1);
  }

  lemma HarmlessOdd(w: nat, key: nat, o: nat)
    requires w > 0 && o % 2 == 1
    ensures Harmless(w, key, o) <==> Word(w - 1, key) == 0
  {
    hide Word;
    HalfMod(o, w);
  }

  lemma NoKeyHarmless(w: nat, key: nat, o: nat)
    requires w > 0 && Word(w - 1, key) == 0
    ensures Harmless(w, key, o)
  {
    hide Word;
    LowestBitPositive(Word(w, o));
  }

  lemma {:induction false} LowestBitPositive(o: nat)
    ensures o > 0 ==> LowestBit(o) > 0
  {
    if o > 0 && o % 2 == 0 {
      LowestBitPositive(o / 2);
    }
  }

  lemma OneBit(key: nat, o: nat, t: nat)
    requires key < 2
    ensures Commutes(1, key, o, t)
  {
    hide Xor;
    CommutesStep(1, key, o, t);
    XorZero(0);
  }

  /** An even summand leaves the lowest bit alone. */
  lemma CommutesEven(w: nat, key: nat, o: nat, t: nat)
    requires w > 0 && o % 2 == 0
    ensures Commutes(w, key, o, t) <==> Commutes(w - 1, key / 2, o / 2, t / 2)
  {
    hide Xor, Word;
    CommutesStep(w, key, o, t);
  }

  /** An odd one leaves a carry behind, the right one if the key is even. */
  lemma CommutesOdd(w: nat, key: nat, o: nat, t: nat)
    requires w > 0 && o % 2 == 1 && key % 2 == 0
    ensures Commutes(w, key, o, t) <==> Commutes(w - 1, key / 2, o / 2 + t % 2, t / 2)
  {
    hide Xor, Word;
    CommutesStep(w, key, o, t);
  }

  /** With an odd key the carry out of the lowest bit of 1 is lost. */
  lemma OddKeyFails(w: nat, key: nat, o: nat)
    requires w > 1 && o % 2 == 1 && key % 2 == 1
    ensures !Commutes(w, key, o, 1)
  {
    hide Xor, Word;
    CommutesStep(w, key, o, 1);
    XorZero(key / 2);
    var sum := key / 2 + o / 2;
    HalfMod(sum, w - 1);
    HalfMod(o / 2 + 1, w - 1);
    XorBits(Word(w - 1, sum), key / 2);
  }

  lemma {:induction false} HarmlessCommutes(w: nat, key: nat, o: nat, t: nat)
    requires 0 < w && key < Pow2(w) && Harmless(w, key, o)
    ensures Commutes(w, key, o, t)
  {
    hide Xor, Pow2, Word, Harmless, Commutes;
    Pow2Step(w);
    if w == 1 {
      Pow2Zero();
      OneBit(key, o, t);
    } else if o % 2 == 0 {
      HarmlessEven(w, key, o);
      HarmlessCommutes(w - 1, key / 2, o / 2, t / 2);
      CommutesEven(w, key, o, t);
    } else {
      HarmlessOdd(w, key, o);
      HalfMod(key, w - 1);
      NoKeyHarmless(w - 1, key / 2, o / 2 + t % 2);
      HarmlessCommutes(w - 1, key / 2, o / 2 + t % 2, t / 2);
      CommutesOdd(w, key, o, t);
    }
  }

  lemma {:induction false} HarmfulFails(w: nat, key: nat, o: nat) returns (t: nat)
    requires 0 < w && key < Pow2(w) && !Harmless(w, key, o)
    ensures t < Pow2(w) && !Commutes(w, key, o, t)
  {
    hide Xor, Pow2, Word, Harmless, Commutes;
    Pow2Step(w);
    if w == 1 {
      Pow2Zero();
      assert Word(0, key) == 0 by { Pow2Zero(); WordIs(0, key); }
      NoKeyHarmless(w, key, o);
      assert false;
    } else if o % 2 == 0 {
      HarmlessEven(w, key, o);
      t := HarmfulFails(w - 1, key / 2, o / 2);
      t := 2 * t;
      CommutesEven(w, key, o, t);
    } else if key % 2 == 1 {
      t := 1;
      OddKeyFails(w, key, o);
    } else {
      // One of the two halves that a carry can lead to is odd.
      HarmlessOdd(w, key, o);
      HalfMod(key, w - 1);
      var carry := (o / 2 + 1) % 2;
      HarmlessOdd(w - 1, key / 2, o / 2 + carry);
      t := HarmfulFails(w - 1, key / 2, o / 2 + carry);
      t := 2 * t + carry;
      CommutesOdd(w, key, o, t);
    }
  }

  lemma Pow2Zero()
    ensures Pow2(0) == 1
  {
  }
}
