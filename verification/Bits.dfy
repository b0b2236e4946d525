/** 32-bit words as numbers, with the bit operations the kernel uses on them. */
module Bits {
  const WORD := 0x1_0000_0000
  const PAGE := 4096

  type Word = x: int | 0 <= x < WORD

  /** 1 << k. */
  function Shl(k: nat): (r: nat)
    ensures r > 0
  {
    if k == 0 then 1 else 2 * Shl(k - 1)
  }

  function Shr(w: nat, k: nat): nat {
    if k == 0 then w else Shr(w / 2, k - 1)
  }

  function Or(a: nat, b: nat): nat
    decreases a + b
  {
    if a == 0 || b == 0 then a + b
    else (if a % 2 == 1 || b % 2 == 1 then 1 else 0) + 2 * Or(a / 2, b / 2)
  }

  function And(a: nat, b: nat): nat
    decreases a + b
  {
    if a == 0 || b == 0 then 0
    else (if a % 2 == 1 && b % 2 == 1 then 1 else 0) + 2 * And(a / 2, b / 2)
  }

  /** The complement of a 32-bit word. */
  function Not(w: Word): Word {
    WORD - 1 - w
  }

  predicate Bit(w: nat, k: nat) {
    Shr(w, k) % 2 == 1
  }

  /** Bit 0 is the remainder by two, bit k + 1 is bit k of the half; the k-th power of two has bit k. */
  lemma BitMeans(w: nat, k: nat)
    ensures Bit(w, 0) <==> w % 2 == 1
    ensures Bit(w, k + 1) <==> Bit(w / 2, k)
    ensures Shl(0) == 1 && Shl(k + 1) == 2 * Shl(k)
    ensures WORD == 0x1_0000_0000 && PAGE == 4096
  {
  }

  lemma {:induction false} NoBits(k: nat)
    ensures !Bit(0, k)
  {
    if k > 0 { NoBits(k - 1); }
  }

  lemma {:induction false} BitOr(a: nat, b: nat, k: nat)
    ensures Bit(Or(a, b), k) <==> Bit(a, k) || Bit(b, k)
    decreases k
  {
    NoBits(k);
    if a != 0 && b != 0 && k > 0 {
      assert Or(a, b) / 2 == Or(a / 2, b / 2);
      BitOr(a / 2, b / 2, k - 1);
    }
  }

  lemma {:induction false} BitAnd(a: nat, b: nat, k: nat)
    ensures Bit(And(a, b), k) <==> Bit(a, k) && Bit(b, k)
    decreases k
  {
    NoBits(k);
    if a != 0 && b != 0 && k > 0 {
      assert And(a, b) / 2 == And(a / 2, b / 2);
      BitAnd(a / 2, b / 2, k - 1);
    }
  }

  lemma {:induction false} BitShl(j: nat, k: nat)
    ensures Bit(Shl(j), k) <==> j == k
    decreases k
  {
    if j == 0 {
      if k > 0 { NoBits(k - 1); }
    } else if k > 0 {
      assert Shl(j) / 2 == Shl(j - 1);
      BitShl(j - 1, k - 1);
    }
  }

  lemma {:induction false} BitOfComplement(w: nat, n: nat, k: nat)
    requires k < n && w < Shl(n)
    ensures Bit(Shl(n) - 1 - w, k) <==> !Bit(w, k)
    decreases n
  {
    var c := Shl(n) - 1 - w;
    assert c / 2 == Shl(n - 1) - 1 - w / 2;
    if k > 0 { BitOfComplement(w / 2, n - 1, k - 1); }
  }

  lemma BitNot(w: Word, k: nat)
    requires k < 32
    ensures Bit(Not(w), k) <==> !Bit(w, k)
  {
    WordSize();
    BitOfComplement(w, 32, k);
  }

  lemma WordSize()
    ensures Shl(32) == WORD
  {
    assert Shl(8) == 0x100;
    assert Shl(16) == 0x1_0000;
    assert Shl(24) == 0x100_0000;
  }

  lemma {:induction false} ShlGrows(j: nat, k: nat)
    requires j < k
    ensures Shl(j) < Shl(k)
    decreases k
  {
    if j < k - 1 { ShlGrows(j, k - 1); }
  }

  lemma {:induction false} OrSize(a: nat, b: nat, n: nat)
    requires a < Shl(n) && b < Shl(n)
    ensures Or(a, b) < Shl(n)
    decreases n
  {
    if n > 0 { OrSize(a / 2, b / 2, n - 1); }
  }

  lemma {:induction false} AndSize(a: nat, b: nat)
    ensures And(a, b) <= a
    decreases a
  {
    if a != 0 && b != 0 { AndSize(a / 2, b / 2); }
  }

  /** A word is its bits. */
  lemma {:induction false} SameBits(a: nat, b: nat, n: nat)
    requires a < Shl(n) && b < Shl(n)
    requires forall k | 0 <= k < n :: Bit(a, k) <==> Bit(b, k)
    ensures a == b
    decreases n
  {
    if n > 0 {
      assert Bit(a, 0) <==> Bit(b, 0);
      forall k | 0 <= k < n - 1 ensures Bit(a / 2, k) <==> Bit(b / 2, k) {
        assert Bit(a, k + 1) <==> Bit(b, k + 1);
      }
      SameBits(a / 2, b / 2, n - 1);
    }
  }

  /** Setting a single bit of a word. */
  lemma SetBit(w: Word, j: nat)
    requires j < 32
    ensures Or(w, Shl(j)) < WORD
    ensures forall k: nat | k < 32 :: Bit(Or(w, Shl(j)), k) <==> Bit(w, k) || k == j
  {
    WordSize();
    ShlGrows(j, 32);
    OrSize(w, Shl(j), 32);
    forall k: nat | k < 32 ensures Bit(Or(w, Shl(j)), k) <==> Bit(w, k) || k == j {
      BitOr(w, Shl(j), k);
      BitShl(j, k);
    }
  }

  /** Clearing a single bit of a word. */
  lemma ClearBit(w: Word, j: nat)
    requires j < 32
    ensures Shl(j) < WORD && And(w, Not(Shl(j))) < WORD
    ensures forall k: nat | k < 32 :: Bit(And(w, Not(Shl(j))), k) <==> Bit(w, k) && k != j
  {
    WordSize();
    ShlGrows(j, 32);
    AndSize(w, Not(Shl(j)));
    forall k: nat | k < 32 ensures Bit(And(w, Not(Shl(j))), k) <==> Bit(w, k) && k != j {
      BitAnd(w, Not(Shl(j)), k);
      BitNot(Shl(j), k);
      BitShl(j, k);
    }
  }

  lemma AllOnes(k: nat)
    requires k < 32
    ensures Bit(0xFFFF_FFFF, k)
  {
    NoBits(k);
    BitNot(0, k);
  }
}
