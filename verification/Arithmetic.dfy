/** Facts about products and remainders. */
module Arithmetic {

  lemma MulMono(k: nat, a: nat, b: nat)
    ensures a <= b ==> k * a <= k * b
  {
    if a <= b {
      assert k * (b - a) >= 0;
    }
  }

  /** A multiple other than 0 is at least n away from it. */
  lemma MulBeyond(k: int, n: nat)
    ensures k > 0 ==> k * n >= n
    ensures k < 0 ==> k * n <= -(n as int)
  {
    if k > 0 {
      MulMono(n, 1, k);
    } else if k < 0 {
      MulMono(n, 1, -k);
    }
  }

  lemma ModOf(n: nat, q: nat, r: nat, i: nat)
    requires r < n && i == q * n + r
    ensures i % n == r
  {
    var k := i / n - q;
    assert i == (i / n) * n + i % n;
    assert k * n == r - i % n;
    MulBeyond(k, n);
  }
}
