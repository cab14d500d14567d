/** Powers of two and logarithms. */
module Powers {

  function Pow2(k: nat): (p: nat)
    ensures p >= 1
  {
    if k == 0 then 1 else 2 * Pow2(k - 1)
  }

  lemma {:induction false} Pow2Add(j: nat, k: nat)
    ensures Pow2(j + k) == Pow2(j) * Pow2(k)
  {
    if j > 0 { Pow2Add(j - 1, k); }
  }

  lemma {:induction false} Pow2Monotone(j: nat, k: nat)
    requires j <= k
    ensures Pow2(j) <= Pow2(k)
  {
    if j < k { Pow2Monotone(j, k - 1); }
  }

  /** The logarithm to base 2, rounded down. */
  function Lg(n: nat): nat { if n < 2 then 0 else 1 + Lg(n / 2) }

  /** Lg(n) is the exponent of the largest power of two that is at most n. */
  lemma {:induction false} LgExactly(n: nat)
    requires n >= 1
    ensures Pow2(Lg(n)) <= n < Pow2(Lg(n) + 1)
  {
    if n >= 2 { LgExactly(n / 2); }
  }

  lemma {:induction false} LgMonotone(a: nat, b: nat)
    requires a <= b
    ensures Lg(a) <= Lg(b)
  {
    if a >= 2 { LgMonotone(a / 2, b / 2); }
  }

  lemma {:induction false} LgSum(a: nat, b: nat)
    requires a >= 1 && b >= 1
    ensures Lg(a) + Lg(b) + 1 <= 2 * Lg(a + b)
  {
    if a == 1 {
      LgMonotone(b, a + b);
      LgMonotone(2, a + b);
      LgGap(b);
    } else if b == 1 {
      LgMonotone(a, a + b);
      LgMonotone(2, a + b);
      LgGap(a);
    } else {
      LgSum(a / 2, b / 2);
      LgMonotone(a / 2 + b / 2, (a + b) / 2);
    }
  }

  lemma LgGap(b: nat)
    requires b >= 1
    ensures Lg(b) + 1 <= 2 * Lg(b + 1)
  {
    LgMonotone(b, b + 1);
    LgMonotone(2, b + 1);
  }
}
