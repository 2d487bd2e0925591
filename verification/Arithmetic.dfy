/** Division and powers of two, for the modules that need more than linear arithmetic. */
module Arithmetic {

  lemma MulAtLeast(m: nat, k: int)
    requires m > 0
    ensures k >= 1 ==> m * k >= m
    ensures k <= 0 ==> m * k <= 0
    ensures k <= -1 ==> m * k + m <= 0
  {
    if k >= 1 {
      assert m * (k - 1) >= 0;
    } else if k <= -1 {
      assert m * (-k - 1) >= 0;
    }
  }

  /** The quotient and remainder are the only ones. */
  lemma DivModUnique(x: int, m: nat, q: int, r: int)
    requires m > 0 && 0 <= r < m && x == m * q + r
    ensures x / m == q && x % m == r
  {
    var d := q - x / m;
    assert m * d == x % m - r by {
      assert x == m * (x / m) + x % m;
    }
    MulAtLeast(m, d);
  }

  lemma ModBelow(x: nat, m: nat)
    requires x < m
    ensures x % m == x
  {
    DivModUnique(x, m, 0, x);
  }

  lemma ModAddMultiple(a: int, k: int, m: nat)
    requires m > 0
    ensures (a + m * k) % m == a % m
    ensures (a + m * k) / m == a / m + k
  {
    assert a == m * (a / m) + a % m;
    assert a + m * k == m * (a / m + k) + a % m;
    DivModUnique(a + m * k, m, a / m + k, a % m);
  }

  function Pow2(k: nat): (p: nat)
    ensures p >= 1
  {
    if k == 0 then 1 else 2 * Pow2(k - 1)
  }

  lemma {:induction false} Pow2Add(j: nat, k: nat)
    ensures Pow2(j + k) == Pow2(j) * Pow2(k)
  {
    if j == 0 {
    } else {
      Pow2Add(j - 1, k);
      assert Pow2(j + k) == 2 * Pow2((j - 1) + k);
    }
  }

  lemma {:induction false} Pow2Monotone(j: nat, k: nat)
    requires j < k
    ensures 2 * Pow2(j) <= Pow2(k)
  {
    if j + 1 >= k {
    } else {
      Pow2Monotone(j, k - 1);
    }
  }

  lemma MulMonotone(x: nat, y: nat, m: nat, n: nat)
    requires x <= m && y <= n
    ensures 0 <= x * y <= m * n
  {
    assert m * n == x * y + x * (n - y) + (m - x) * n;
    assert x * (n - y) >= 0 && (m - x) * n >= 0;
  }

  lemma QuotientBelow(x: nat, d: nat, k: nat)
    requires d > 0 && x < d * k
    ensures x / d < k
  {
    assert x == d * (x / d) + x % d;
    if x / d >= k { MulMonotone(d, k, d, x / d); }
  }

  lemma Pow2Words()
    ensures Pow2(32) == 0x1_0000_0000
    ensures Pow2(63) == 0x8000_0000_0000_0000
    ensures Pow2(64) == 0x1_0000_0000_0000_0000
  {
    assert Pow2(8) == 256;
    Pow2Add(8, 8); Pow2Add(16, 16); Pow2Add(32, 32);
  }
}
