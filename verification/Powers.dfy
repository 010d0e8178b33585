/** Powers of two. */
module Powers {
  function Pow2(k: nat): (p: nat)
    ensures p > 0
  {
    if k == 0 then 1 else 2 * Pow2(k - 1)
  }

  lemma Pow2Step(k: int)
    ensures k >= 0 ==> Pow2(k + 1) == 2 * Pow2(k)
    ensures Pow2(0) == 1
  {
  }

  lemma {:induction false} Pow2Shift(a: nat, b: nat)
    ensures Pow2(a + b) == Pow2(b) * Pow2(a)
  {
    if b > 0 {
      Pow2Shift(a, b - 1);
    }
  }

  lemma {:induction false} Pow2Monotone(a: nat, b: nat)
    requires a <= b
    ensures Pow2(a) <= Pow2(b)
  {
    if a < b {
      Pow2Monotone(a, b - 1);
    }
  }
}
