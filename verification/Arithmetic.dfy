/** Products, quotients and remainders. */
module Arithmetic {

  function Times(n: nat, k: nat): nat {
    n * k
  }

  lemma TimesNext(n: nat, k: nat)
    ensures Times(n + 1, k) == Times(n, k) + k
  {
  }

  lemma ZeroTimes(k: nat)
    ensures Times(0, k) == 0
  {
  }

  lemma TimesZero(n: nat, k: nat)
    requires k > 0
    ensures Times(n, k) == 0 <==> n == 0
  {
  }

  lemma TimesMonotone(a: nat, b: nat, k: nat)
    requires a <= b
    ensures Times(a, k) <= Times(b, k)
  {
    assert b * k == a * k + (b - a) * k;
  }

  lemma TimesGrows(a: nat, b: nat, k: nat)
    requires k > 0
    ensures a < b <==> Times(a, k) < Times(b, k)
  {
    if a < b {
      assert b * k == a * k + (b - a) * k && (b - a) * k > 0;
    } else {
      TimesMonotone(b, a, k);
    }
  }

  lemma TimesSwap(a: nat, d: nat, k: nat)
    ensures Times(Times(a, d), k) == Times(Times(a, k), d)
  {
  }

  lemma Multiple(d: int, m: int)
    requires m >= 0
    ensures d >= 1 ==> d * m >= m
    ensures d <= -1 ==> d * m <= -m
  {
  }

  lemma DivUnique(n: nat, m: nat, q: nat, k: nat)
    requires 0 < m && k < m && n == q * m + k
    ensures n % m == k && n / m == q
  {
    var d := n / m - q;
    assert n == (n / m) * m + n % m;
    assert d * m == k - n % m;
    Multiple(d, m);
  }

  lemma Divided(n: nat, m: nat)
    requires 0 < m
    ensures 0 <= n % m < m && n == Times(n / m, m) + n % m
  {
  }

  lemma Quotient(n: nat, m: nat, q: nat, k: nat)
    requires 0 < m && k < m && n == Times(q, m) + k
    ensures n % m == k && n / m == q
  {
    DivUnique(n, m, q, k);
  }

  lemma ModAdd(n: nat, m: nat)
    requires 0 < m
    ensures (n + m) % m == n % m
  {
    var q, k := n / m, n % m;
    assert n + m == (q + 1) * m + k;
    DivUnique(n + m, m, q + 1, k);
  }

  lemma Small(n: nat, p: nat)
    requires n < p
    ensures n % p == n && n / p == 0
  {
  }
}
