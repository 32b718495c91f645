/** Facts about products and quotients that the solver does not find by itself. */
module Arith {
  lemma Quotient(a: nat, b: nat)
    requires b > 0
    ensures a / b > 0 <==> a >= b
    ensures a < 2 * b ==> a / b < 2
    ensures a / b * b <= a && a / b <= a
  {
    var q := a / b;
    assert a == q * b + a % b;
    Grow(q, b);
  }

  lemma Grow(q: nat, b: nat)
    requires b > 0
    ensures q <= q * b && (q >= 1 ==> q * b >= b) && (q >= 2 ==> q * b >= 2 * b)
  {
    assert q * b == q + q * (b - 1);
    if q >= 2 { assert q * b == 2 * b + (q - 2) * b; }
  }

  lemma Step(i: nat, j: nat, k: nat)
    requires i < j
    ensures i * k + k <= j * k
  {
    assert j * k == i * k + k + (j - i - 1) * k;
  }

  lemma Multiple(i: nat, k: nat)
    requires k > 0
    ensures i * k % k == 0 && i * k / k == i
  {
    var x := i * k;
    assert x == x / k * k + x % k;
    assert (i - x / k) * k == i * k - x / k * k;
    Small(i - x / k, k);
  }

  lemma {:induction false} AtLeastOnce(d: nat, k: nat)
    requires d > 0
    ensures d * k >= k
  {
    if d > 1 {
      AtLeastOnce(d - 1, k);
      assert d * k == (d - 1) * k + k;
    }
  }

  lemma Small(d: int, k: nat)
    ensures (d > 0 ==> d * k >= k) && (d < 0 ==> d * k <= 0 - k)
  {
    if d > 0 { AtLeastOnce(d, k); }
    if d < 0 {
      AtLeastOnce(0 - d, k);
      assert (0 - d) * k == 0 - d * k;
    }
  }

  /** Quotient and remainder are what they should be. */
  lemma DivUnique(a: int, q: int, r: int, n: int)
    requires n > 0 && a == q * n + r && 0 <= r < n
    ensures a / n == q && a % n == r
  {
    var d := a / n - q;
    assert a == a / n * n + a % n;
    assert d * n == a / n * n - q * n;
    Small(d, n);
  }

  lemma AddMultiple(a: int, k: int, n: int)
    requires n > 0
    ensures (a + k * n) % n == a % n && (a + k * n) / n == a / n + k
  {
    assert a == a / n * n + a % n;
    assert a + k * n == (a / n + k) * n + a % n;
    DivUnique(a + k * n, a / n + k, a % n, n);
  }
}
