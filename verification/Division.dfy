/** 64-bit division by shifting and subtracting, the routine the compiler calls on a 32-bit machine. */
module Division {
  import opened Bits

  const LONG := 0x1_0000_0000_0000_0000

  type Long = x: int | 0 <= x < LONG

  /** Quotient and remainder are what is left of the numerator after taking out multiples. */
  lemma DivisionIsUnique(num: nat, den: nat, quot: nat, rem: nat)
    requires den > 0 && num == Product(quot, den) + rem && rem < den
    ensures quot == num / den && rem == num % den
  {
    var q := num / den;
    assert num == q * den + num % den;
    if quot < q {
      MultiplesApart(quot, q, den);
    } else if q < quot {
      MultiplesApart(q, quot, den);
    }
  }

  lemma MultiplesApart(a: nat, b: nat, den: nat)
    requires a < b
    ensures a * den + den <= b * den
  {
    assert b * den == a * den + (b - a) * den;
    assert (b - a) * den >= den by {
      assert (b - a) * den == den + (b - a - 1) * den;
    }
  }

  lemma ProductGrows(a: nat, b: nat)
    requires a > 0
    ensures b <= a * b
  {
    assert a * b == b + (a - 1) * b;
  }

  /** d shifted left k times. */
  ghost function Shifted(d: nat, k: nat): nat {
    if k == 0 then d else 2 * Shifted(d, k - 1)
  }

  lemma {:induction false} ShiftedIsProduct(d: nat, k: nat)
    ensures Shifted(d, k) == d * Shl(k)
    ensures d > 0 ==> Shl(k) <= Shifted(d, k)
  {
    if k > 0 {
      ShiftedIsProduct(d, k - 1);
      assert d * Shl(k) == 2 * (d * Shl(k - 1));
    } else {
      assert Shl(0) == 1;
    }
  }

  ghost function Product(a: nat, b: nat): nat { a * b }

  /** Quotient and remainder of any two 64-bit numbers; dividing by zero gives zero for both. Both loops end,
      and normalising the divisor shifts no bit out. */
  method UDivMod(num0: Long, den0: Long) returns (quot: Long, rem: Long)
    ensures den0 != 0 ==> quot == num0 / den0 && rem == num0 % den0
    ensures den0 == 0 ==> quot == 0 && rem == 0
  {
    hide Product;
    var num: Long, den: Long, qbit: Long := num0, den0, 1;
    quot := 0;
    if den == 0 { return 0, 0; }
    ghost var k: nat := 0;
    assert qbit == Shl(k);
    while den < LONG / 2
      invariant 0 < den < LONG && den == Shifted(den0, k) && qbit == Shl(k) <= den
      decreases LONG - den
    {
      den := den * 2 % LONG;
      qbit := qbit * 2 % LONG;
      k := k + 1;
    }
    assert Product(0, den0) == 0 by { NoProduct(den0); }
    while qbit > 0
      invariant num0 == Product(quot, den0) + num
      invariant qbit > 0 ==> qbit == Shl(k) && den == Shifted(den0, k) && num < 2 * den
      invariant qbit == 0 ==> num < den0
      decreases qbit
    {
      if den <= num {
        Taken(quot, qbit, den0, k);
        num := num - den;
        quot := (quot + qbit) % LONG;
      }
      den := den / 2;
      qbit := qbit / 2;
      k := if k > 0 then k - 1 else 0;
    }
    rem := num;
    DivisionIsUnique(num0, den0, quot, rem);
  }

  lemma NoProduct(b: nat)
    ensures Product(0, b) == 0
  {
  }

  lemma Taken(quot: nat, qbit: nat, den0: nat, k: nat)
    requires qbit == Shl(k) && den0 > 0
    ensures Product(quot + qbit, den0) == Product(quot, den0) + Shifted(den0, k)
    ensures quot + qbit <= Product(quot + qbit, den0)
  {
    ShiftedIsProduct(den0, k);
    ProductGrows(den0, quot + qbit);
  }

  method UDiv(num: Long, den: Long) returns (quot: Long)
    ensures quot == if den == 0 then 0 else num / den
  {
    var rem;
    quot, rem := UDivMod(num, den);
  }

  method UMod(num: Long, den: Long) returns (rem: Long)
    ensures rem == if den == 0 then 0 else num % den
  {
    var quot;
    quot, rem := UDivMod(num, den);
  }
}
