/** Minimum, maximum, and facts of division and multiplication that the solver does not find
    by itself. */
module Arith {
  function Min(a: int, b: int): int { if a < b then a else b }
  function Max(a: int, b: int): int { if a < b then b else a }

  lemma {:induction false} MulMonotone(a: int, b: int, d: int)
    requires a <= b && 0 <= d
    ensures a * d <= b * d
    decreases b - a
  {
    if a < b {
      MulMonotone(a, b - 1, d);
      assert b * d == (b - 1) * d + d;
    }
  }

  lemma Divided(n: int, d: int)
    requires 0 < d
    ensures n == (n / d) * d + n % d && 0 <= n % d < d
  {
  }

  lemma QuotientUnique(d: int, p: int, r: int, q: int, s: int)
    requires 0 <= r < d && 0 <= s < d && p * d + r == q * d + s
    ensures p == q && r == s
  {
    assert (p + 1) * d == p * d + d && (q + 1) * d == q * d + d;
    if p < q {
      MulMonotone(p + 1, q, d);
    } else if q < p {
      MulMonotone(q + 1, p, d);
    }
  }

  /** Quotient and remainder are determined by what they say. */
  lemma DivModUnique(n: int, d: int, q: int, r: int)
    requires 0 <= r < d && n == q * d + r
    ensures n / d == q && n % d == r
  {
    Divided(n, d);
    QuotientUnique(d, n / d, n % d, q, r);
  }

  lemma DivPositive(n: int, d: int)
    requires 0 < d && 0 <= n
    ensures 0 <= n / d && n % d <= n
  {
    Divided(n, d);
    if n / d < 0 {
      MulMonotone(n / d, -1, d);
    } else {
      MulMonotone(0, n / d, d);
    }
  }

  lemma ModSmall(n: int, d: int)
    requires 0 <= n < d
    ensures n % d == n && n / d == 0
  {
    DivModUnique(n, d, 0, n);
  }

  lemma ModAtMost(m: nat, n: nat)
    requires 0 < n
    ensures m % n <= m && (m % n == m <==> m < n)
  {
    DivPositive(m, n);
    if m < n { ModSmall(m, n); }
  }

  /** A remainder by a multiple of `n` gives the remainder by `n`. */
  lemma ModMod(x: nat, m: nat, n: nat)
    requires 0 < n && 0 < m && m % n == 0
    ensures (x % m) % n == x % n
  {
    var q, k := x / m, m / n;
    var p, r := (x % m) / n, (x % m) % n;
    Divided(x, m);
    Divided(m, n);
    Divided(x % m, n);
    Product(q, k, n, p);
    DivModUnique(x, n, q * k + p, r);
  }

  lemma Product(q: int, k: int, n: int, p: int)
    ensures q * (k * n) + p * n == (q * k + p) * n
  {
  }

  /** Adding to a total that is kept modulo `m`. */
  lemma ModAdd(x: nat, y: nat, m: nat)
    requires 0 < m
    ensures (x % m + y) % m == (x + y) % m
  {
    var q := x / m;
    Divided(x, m);
    var p, r := (x % m + y) / m, (x % m + y) % m;
    Divided(x % m + y, m);
    assert (q + p) * m == q * m + p * m;
    DivModUnique(x + y, m, q + p, r);
  }
}
