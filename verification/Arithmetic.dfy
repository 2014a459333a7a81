/** Facts about division that several components share. */
module Arithmetic {

  /** Quotient and remainder are determined by the division equation. */
  lemma DivModUnique(n: int, m: int, q: int, r: int)
    requires m > 0 && n == m * q + r && 0 <= r < m
    ensures n / m == q && n % m == r
  {
    var d := n / m - q;
    assert m * d == r - n % m by {
      assert n == m * (n / m) + n % m;
      assert m * d == m * (n / m) - m * q;
    }
    Multiples(m, d);
  }

  lemma Multiples(m: int, k: int)
    requires m > 0
    ensures k >= 1 ==> m * k >= m
    ensures k <= 0 ==> m * k <= 0
    ensures k <= -1 ==> m * k <= -m
    ensures k >= 3 ==> m * k >= 3 * m
  {
  }

  /** Dividing by `k` and then by `m` is dividing by `k * m`; the remainders nest the same way. */
  lemma DivModNested(n: nat, k: nat, m: nat)
    requires k > 0 && m > 0
    ensures k * m > 0
    ensures n / k / m == n / (k * m)
    ensures n % (k * m) / k == n / k % m
    ensures n % (k * m) % k == n % k
  {
    var d, q, u, r := n / k, n / k / m, n / k % m, n % k;
    assert n == k * d + r && d == m * q + u;
    Regroup(k, m, d, q, u, r);
    DivModUnique(n, k * m, q, k * u + r);
    DivModUnique(k * u + r, k, u, r);
  }

  lemma Regroup(k: nat, m: nat, d: nat, q: int, u: nat, r: nat)
    requires d == m * q + u && u < m && r < k
    ensures k * d + r == (k * m) * q + (k * u + r) && 0 <= k * u + r < k * m
  {
    Associates(k, m, q);
    Distributes(k, m * q, u);
    BelowProduct(k, m, u);
  }

  lemma Associates(a: int, b: int, c: int)
    ensures a * (b * c) == (a * b) * c
  {
  }

  lemma Distributes(a: int, b: int, c: int)
    ensures a * (b + c) == a * b + a * c
  {
  }

  lemma BelowProduct(k: nat, m: nat, u: nat)
    requires u < m
    ensures 0 <= k * u && k * u + k <= k * m
  {
    Distributes(k, u + 1, m - u - 1);
    Distributes(k, u, 1);
  }

  /** Numbers with the same remainder differ by a multiple, numbers with the same quotient by less than the divisor. */
  lemma SameRemainder(p: int, q: int, m: int)
    requires m > 0
    ensures p % m == q % m ==> q - p == m * (q / m - p / m)
    ensures p / m == q / m ==> q - p == q % m - p % m && -m < q - p < m
  {
    assert p == m * (p / m) + p % m && q == m * (q / m) + q % m;
    assert m * (q / m - p / m) == m * (q / m) - m * (p / m);
  }

  lemma MultipleBetween(m: int, k: int, d: int)
    requires m > 0 && d == m * k && 0 < d < 3 * m
    ensures k == 1 || k == 2
  {
    Multiples(m, k);
  }

  function Below(n: nat): (s: set<nat>)
    ensures |s| == n && forall m :: m in s <==> 0 <= m < n
  {
    if n == 0 then {} else Below(n - 1) + {n - 1}
  }

  function Abs(n: int): (a: nat)
    ensures a == n || a == -n
  {
    if n < 0 then -n else n
  }
}
