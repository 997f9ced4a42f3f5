/** Bits of numbers, and powers of two. */
module Bits {

  const WORD_LIMIT: int := 0x1_0000_0000_0000_0000

  /** Bit `j` of a number. */
  predicate Bit(w: nat, j: nat) {
    if j == 0 then w % 2 == 1 else Bit(w / 2, j - 1)
  }

  function Pow2(n: nat): (p: nat)
    ensures p > 0
  {
    if n == 0 then 1 else 2 * Pow2(n - 1)
  }

  lemma {:induction false} ZeroBit(j: nat)
    ensures !Bit(0, j)
  {
    if j > 0 { ZeroBit(j - 1); }
  }

  lemma {:induction false} PowerHasBit(k: nat)
    ensures Bit(Pow2(k), k)
  {
    if k > 0 { PowerHasBit(k - 1); }
  }

  lemma {:induction false} Pow2Monotone(m: nat, n: nat)
    requires m <= n
    ensures Pow2(m) <= Pow2(n)
    decreases n
  {
    if m < n { Pow2Monotone(m, n - 1); }
  }

  lemma Pow2By4(k: nat)
    ensures Pow2(k + 4) == 16 * Pow2(k)
  {
    assert Pow2(k + 2) == 4 * Pow2(k);
  }

  lemma Pow2By16(k: nat)
    ensures Pow2(k + 16) == 0x10000 * Pow2(k)
  {
    Pow2By4(k);
    Pow2By4(k + 4);
    Pow2By4(k + 8);
    Pow2By4(k + 12);
  }

  lemma PowersOfTwo()
    ensures Pow2(63) == 0x8000_0000_0000_0000 && Pow2(64) == WORD_LIMIT
  {
    Pow2By16(0);
    Pow2By16(16);
    Pow2By16(32);
    Pow2By16(48);
    assert Pow2(64) == 2 * Pow2(63);
  }

  lemma ProductGap(d: nat, k: int)
    requires d > 0
    ensures k >= 1 ==> k * d >= d
    ensures k <= -1 ==> k * d + d <= 0
  {
  }
}
