/** Facts about products, quotients and remainders that the solver is not left to
    find inside larger proofs. */
module Arithmetic {

  lemma MulStep(n: nat, c: nat)
    ensures (n + 1) * c == n * c + c
  {
  }

  lemma MulDistributes(m: int, n: int, c: int)
    ensures (m + n) * c == m * c + n * c
  {
  }

  lemma MulMonotone(a: int, b: int, c: nat)
    requires a <= b
    ensures a * c <= b * c
  {
  }

  lemma SmallMultiple(k: int, d: int)
    requires -k < k * d < k
    ensures d == 0
  {
  }

  lemma SmallMod(n: nat, k: nat)
    requires n < k
    ensures n / k == 0 && n % k == n
  {
    DivUnique(n, k, 0, n);
  }

  lemma DivUnique(n: int, k: int, q: int, r: int)
    requires 0 <= r < k && n == k * q + r
    ensures n / k == q && n % k == r
  {
    var q', r' := n / k, n % k;
    assert k * (q - q') == r' - r;
    SmallMultiple(k, q - q');
  }

  lemma DivPositive(n: nat, k: nat)
    requires 0 < k <= n
    ensures 0 < n / k
  {
    if n / k <= 0 {
      MulMonotone(n / k, 0, k);
      assert false;
    }
  }

  lemma DivStep(n: nat, k: nat)
    requires 0 < k
    ensures (n + 1) / k == n / k + (if (n + 1) % k == 0 then 1 else 0)
    ensures (n + 1) % k == (if n % k + 1 == k then 0 else n % k + 1)
  {
    var q, r := n / k, n % k;
    if r + 1 == k {
      assert n + 1 == k * (q + 1);
      DivUnique(n + 1, k, q + 1, 0);
    } else {
      DivUnique(n + 1, k, q, r + 1);
    }
  }

  lemma DivSum(m: nat, n: nat, k: nat)
    requires 0 < k
    ensures m / k + n / k <= (m + n) / k <= m / k + n / k + 1
  {
    var r := m % k + n % k;
    assert m + n == k * (m / k + n / k) + r;
    if r < k {
      DivUnique(m + n, k, m / k + n / k, r);
    } else {
      assert m + n == k * (m / k + n / k + 1) + (r - k);
      DivUnique(m + n, k, m / k + n / k + 1, r - k);
    }
  }

  lemma ModOfSum(m: nat, r: nat, k: nat)
    requires 0 < k && m % k == 0 && r < k
    ensures (m + r) % k == r
  {
    DivUnique(m + r, k, m / k, r);
  }

  lemma ModOfNext(m: nat, k: nat)
    requires 0 < k && m % k == 0
    ensures (m + k) % k == 0
  {
    assert m + k == k * (m / k + 1);
    DivUnique(m + k, k, m / k + 1, 0);
  }

  lemma DivMonotone(a: nat, b: nat, k: nat)
    requires a <= b && 0 < k
    ensures a / k <= b / k
  {
    DivSum(a, b - a, k);
    DivNonNegative(b - a, k);
  }

  lemma DivNonNegative(a: nat, k: nat)
    requires 0 < k
    ensures 0 <= a / k && a % k < k
  {
  }

  /** Moving on inside one block. */
  lemma DivWithin(n: nat, j: nat, k: nat)
    requires 0 < k && n % k + j < k
    ensures (n + j) / k == n / k && (n + j) % k == n % k + j
  {
    DivUnique(n + j, k, n / k, n % k + j);
  }

  /** Moving on to the next block. */
  lemma DivBoundary(n: nat, j: nat, k: nat)
    requires 0 < k && n % k + j == k
    ensures (n + j) / k == n / k + 1 && (n + j) % k == 0
  {
    assert n + j == k * (n / k + 1);
    DivUnique(n + j, k, n / k + 1, 0);
  }

  /** Rounding up. */
  lemma DivUp(n: nat, k: nat)
    requires 0 < k
    ensures (n + k - 1) / k == if n == 0 then 0 else (n - 1) / k + 1
  {
    if n == 0 {
      SmallMod(k - 1, k);
    } else {
      var q, r := (n - 1) / k, (n - 1) % k;
      assert n + k - 1 == k * (q + 1) + r;
      DivUnique(n + k - 1, k, q + 1, r);
    }
  }

  /** Binary digit `k` of a number, the lowest is digit 0. */
  predicate Digit(n: nat, k: nat) {
    if k == 0 then n % 2 == 1 else Digit(n / 2, k - 1)
  }
}
