/**
 * Powers of two and the floor of the binary logarithm, used to state the
 * comparison bounds of binary search and heap sort.
 */
module Logarithm {

  function Pow2(k: nat): (p: nat)
    ensures p >= 1
  {
    if k == 0 then 1 else 2 * Pow2(k - 1)
  }

  /** `floor(log2 n)` for `n >= 1`, and 0 for `n == 0`. */
  function Log2(n: nat): (r: nat)
    ensures n >= 1 ==> Pow2(r) <= n < Pow2(r + 1)
    ensures n <= 1 ==> r == 0
  {
    if n < 2 then 0 else 1 + Log2(n / 2)
  }

  lemma {:induction false} Pow2Monotone(j: nat, k: nat)
    requires j <= k
    ensures Pow2(j) <= Pow2(k)
    decreases k
  {
    if j < k {
      Pow2Monotone(j, k - 1);
    }
  }

  /** The bracketing `Pow2(k) <= n < Pow2(k + 1)` determines `k`. */
  lemma Log2Unique(n: nat, k: nat)
    requires Pow2(k) <= n < Pow2(k + 1)
    ensures Log2(n) == k
  {
    var r := Log2(n);
    if r < k {
      Pow2Monotone(r + 1, k);
    } else if r > k {
      Pow2Monotone(k + 1, r);
    }
  }

  /** `Log2` is monotone. */
  lemma Log2Monotone(m: nat, n: nat)
    requires m <= n
    ensures Log2(m) <= Log2(n)
  {
  }

  /** Any power of two not above `n` has exponent at most `Log2(n)`. */
  lemma PowBelow(n: nat, k: nat)
    requires Pow2(k) <= n
    ensures k <= Log2(n)
  {
  }
}
