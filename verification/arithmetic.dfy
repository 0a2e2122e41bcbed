/** Small facts about products, quotients and remainders. */
module Arithmetic {

  lemma MulNonneg(a: nat, b: nat)
    ensures a * b >= 0
  {
  }

  lemma AtLeast(d: int, m: nat)
    requires d > 0
    ensures d * m >= m
  {
    MulNonneg(d - 1, m);
    assert d * m == (d - 1) * m + m;
  }

  lemma AtMost(d: int, m: nat)
    requires d < 0
    ensures d * m <= -(m as int)
  {
    AtLeast(-d, m);
    assert (-d) * m == -(d * m);
  }

  /** Quotient and remainder are determined by the division equation. */
  lemma DivModOf(k: nat, m: nat, q: nat, r: nat)
    requires r < m && k == q * m + r
    ensures k % m == r && k / m == q
  {
    var d := k / m - q;
    assert (k / m) * m + k % m == k;
    assert d * m == (k / m) * m - q * m;
    if d > 0 { AtLeast(d, m); }
    if d < 0 { AtMost(d, m); }
  }

  lemma ModuloShift(k: nat, m: nat)
    requires m > 0
    ensures (k + m) % m == k % m && (k + m) / m == k / m + 1
  {
    assert (k / m + 1) * m == (k / m) * m + m;
    DivModOf(k + m, m, k / m + 1, k % m);
  }

  lemma QuotientNonneg(x: nat, m: nat)
    requires m > 0
    ensures x / m >= 0
  {
    assert (x / m) * m + x % m == x;
    if x / m < 0 { AtMost(x / m, m); }
  }

  /** Quotient and remainder under names of their own, so that a proof can treat them
      as opaque numbers. */
  function Quot(x: nat, m: nat): (q: nat)
    requires m > 0
  {
    QuotientNonneg(x, m);
    x / m
  }

  function Rem(x: nat, m: nat): (r: nat)
    requires m > 0
    ensures r < m
  {
    x % m
  }

  lemma Distribute(a: int, b: int, c: int)
    ensures (b + c) * a == b * a + c * a
  {
  }

  lemma Associate(a: int, b: int, c: int)
    ensures (a * b) * c == a * (b * c)
  {
  }

  lemma Spread(m: int, a: int, b: int)
    ensures m * (a + b) == m * a + m * b
  {
  }

  function Power(b: nat, n: nat): (p: nat)
    ensures b > 0 ==> p > 0
  {
    if n == 0 then 1 else b * Power(b, n - 1)
  }

  lemma {:induction false} Pow2AtMost(m: nat, n: nat)
    requires m <= n
    ensures Power(2, m) <= Power(2, n)
    decreases n
  {
    if m == n {
    } else {
      Pow2AtMost(m, n - 1);
    }
  }

  function TrailingZeros(n: nat): nat
    requires n > 0
  {
    if n % 2 == 1 then 0 else 1 + TrailingZeros(n / 2)
  }

  lemma {:induction false} TrailingZerosPow2(k: nat)
    ensures TrailingZeros(Power(2, k)) == k
  {
    if k == 0 {
    } else {
      TrailingZerosPow2(k - 1);
    }
  }
}
