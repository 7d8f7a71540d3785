/**
 * Powers of two and the ceiling of the binary logarithm: the height a
 * midpoint-split tree over a given number of leaves reaches.
 */
module Log2 {

  function Pow2(k: nat): (p: nat)
    ensures p >= 1
  {
    if k == 0 then 1 else 2 * Pow2(k - 1)
  }

  /** Halving the range until one element remains; `k` is the least exponent with `n <= 2^k`. */
  function CeilLog2(n: nat): (k: nat)
    requires n >= 1
    ensures n <= Pow2(k)
    ensures n >= 2 ==> k >= 1 && Pow2(k - 1) < n
    decreases n
  {
    if n == 1 then 0 else 1 + CeilLog2((n + 1) / 2)
  }

  lemma {:induction false} Pow2Monotone(j: nat, k: nat)
    requires j <= k
    ensures Pow2(j) <= Pow2(k)
    decreases k
  {
    if j < k {
      Pow2Monotone(j, k - 1);
    }
  }

  /** Any exponent whose power covers `n` is at least CeilLog2(n). */
  lemma {:induction false} CeilLog2Least(n: nat, k: nat)
    requires n >= 1 && n <= Pow2(k)
    ensures CeilLog2(n) <= k
    decreases n
  {
    if n >= 2 {
      assert k >= 1;
      assert (n + 1) / 2 <= Pow2(k - 1);
      CeilLog2Least((n + 1) / 2, k - 1);
    }
  }

  lemma CeilLog2Monotone(m: nat, n: nat)
    requires 1 <= m <= n
    ensures CeilLog2(m) <= CeilLog2(n)
  {
    CeilLog2Least(m, CeilLog2(n));
  }

  /** Doubling a count adds exactly one level. */
  lemma CeilLog2Double(m: nat)
    requires m >= 1
    ensures CeilLog2(2 * m) == 1 + CeilLog2(m)
  {
    assert (2 * m + 1) / 2 == m;
  }

  /** Splitting n >= 2 at n/2: the larger half sets the height, and the halves differ by at most one level. */
  lemma CeilLog2Halves(n: nat)
    requires n >= 2
    ensures CeilLog2(n / 2) <= CeilLog2(n - n / 2) <= CeilLog2(n / 2) + 1
    ensures CeilLog2(n) == 1 + CeilLog2(n - n / 2)
  {
    var mid := n / 2;
    var hi := n - mid;
    assert hi == (n + 1) / 2 && 1 <= mid <= hi <= 2 * mid;
    assert CeilLog2(n) == 1 + CeilLog2(hi);
    CeilLog2Monotone(mid, hi);
    CeilLog2Monotone(hi, 2 * mid);
    CeilLog2Double(mid);
  }
}
