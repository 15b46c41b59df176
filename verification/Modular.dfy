/** Remainders of sums, for counters that wrap around. */
module Modular {
  lemma MulMonotone(n: nat, a: int, b: int)
    ensures a <= b ==> n * a <= n * b
  {
  }

  lemma Distributes(n: nat, q: int)
    ensures n * (q + 1) == n * q + n
  {
  }

  lemma RemainderIs(q: nat, m: nat, n: nat)
    requires m < n
    ensures (n * q + m) % n == m
  {
    var x := n * q + m;
    assert x == n * (x / n) + x % n;
    MulMonotone(n, x / n + 1, q);
    MulMonotone(n, q + 1, x / n);
    Distributes(n, x / n);
    Distributes(n, q);
    assert x / n == q;
  }

  /** Adding less than the modulus wraps around at most once. */
  lemma AddRemainder(p: nat, k: nat, n: nat)
    requires k < n
    ensures (p + k) % n == if p % n + k < n then p % n + k else p % n + k - n
  {
    var q, r := p / n, p % n;
    assert p == n * q + r;
    Distributes(n, q);
    if r + k < n {
      RemainderIs(q, r + k, n);
    } else {
      RemainderIs(q + 1, r + k - n, n);
    }
  }
}
