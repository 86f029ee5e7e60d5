/** Powers of two and shifts on natural numbers. */
module Bits {

  function Pow2(k: nat): (p: nat)
    ensures p > 0
  {
    if k == 0 then 1 else 2 * Pow2(k - 1)
  }

  /** The shift x >> n. */
  function ShiftRight(x: nat, n: nat): nat {
    if n == 0 then x else ShiftRight(x / 2, n - 1)
  }

  lemma {:induction false} Pow2Splits(k: nat, n: nat)
    requires k <= n
    ensures Pow2(n) == Pow2(k) * Pow2(n - k)
  {
    if k < n {
      Pow2Splits(k, n - 1);
      assert Pow2(n) == 2 * (Pow2(k) * Pow2(n - 1 - k)) == Pow2(k) * (2 * Pow2(n - 1 - k));
    }
  }

  lemma {:induction false} ShiftBound(x: nat, n: nat, m: nat)
    requires x < Pow2(n + m)
    ensures ShiftRight(x, n) < Pow2(m)
  {
    if n > 0 {
      ShiftBound(x / 2, n - 1, m);
    }
  }

  /** The shift is the quotient by a power of two. */
  lemma {:induction false} ShiftFloor(x: nat, n: nat)
    ensures ShiftRight(x, n) * Pow2(n) <= x < (ShiftRight(x, n) + 1) * Pow2(n)
  {
    if n > 0 {
      ShiftFloor(x / 2, n - 1);
      Twice(ShiftRight(x, n), Pow2(n - 1));
      Twice(ShiftRight(x, n) + 1, Pow2(n - 1));
    }
  }

  lemma Twice(q: nat, p: nat)
    ensures q * (2 * p) == 2 * (q * p)
  {
  }

  lemma WordIsPow2()
    ensures Pow2(32) == 0x1_0000_0000
  {
    Pow2Splits(16, 32);
    Pow2Splits(8, 16);
    assert Pow2(8) == 256;
  }

  lemma LongIsPow2()
    ensures Pow2(64) == 0x1_0000_0000_0000_0000
  {
    Pow2Splits(32, 64);
    WordIsPow2();
  }
}
