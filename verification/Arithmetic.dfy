/** Facts about products and remainders that the solver needs one at a time. */
module Arithmetic {

  lemma Distribute(k: int, a: int, b: int)
    ensures k * (a + b) == k * a + k * b
  {
  }

  lemma ScaledDistance(k: nat, a: int, b: int, g: nat)
    requires a >= b + g
    ensures k * a >= k * b + k * g
  {
    assert k * (a - b - g) >= 0;
  }

  lemma ModUnique(x: int, m: nat, q: int, r: nat)
    requires r < m && x == m * q + r
    ensures x % m == r && x / m == q
  {
    var q', r' := x / m, x % m;
    assert x == m * q' + r';
    if q > q' {
      ScaledDistance(m, q, q', 1);
    } else if q < q' {
      ScaledDistance(m, q', q, 1);
    }
  }

  lemma ModMultiple(x: int, k: int, m: nat)
    requires m > 0
    ensures (x + m * k) % m == x % m
  {
    assert x + m * k == m * (x / m + k) + x % m;
    ModUnique(x + m * k, m, x / m + k, x % m);
  }

  lemma ModOfFactor(a: int, b: int, c: int, m: nat)
    requires m > 0
    ensures ((a % m) * b + c) % m == (a * b + c) % m
  {
    var q, r := a / m, a % m;
    assert a == m * q + r;
    assert a * b + c == r * b + c + m * (q * b) by {
      assert a * b == (m * q) * b + r * b;
      assert (m * q) * b == m * (q * b);
    }
    ModMultiple(r * b + c, q * b, m);
  }

  lemma QuotientBounds(x: int, m: nat)
    requires m > 0
    ensures m * (x / m) <= x < m * (x / m) + m
  {
  }

  /** The digits of a number in base m: the last one, and those before it. */
  lemma ScaledQuotient(x: nat, r: nat, m: nat, p: nat)
    requires r < m && p >= 1
    ensures m * p >= 1
    ensures (m * x + r) / (m * p) == x / p
    ensures (m * x + r) % m == r
  {
    var q, t := x / p, x % p;
    QuotientBounds(x, p);
    ScaledDistance(m, p, t, 1);
    Distribute(m, p * q, t);
    assert m * (p * q) == m * p * q;
    ModUnique(m * x + r, m * p, q, m * t + r);
    ModUnique(m * x + r, m, x, r);
  }

  lemma RemainderIs(x: nat, k: nat, r: nat)
    requires r < k
    ensures x % k == r <==> (x - r) % k == 0
  {
    QuotientBounds(x, k);
    if (x - r) % k == 0 {
      ModUnique(x, k, (x - r) / k, r);
    } else if x % k == r {
      ModUnique(x - r, k, x / k, 0);
    }
  }

  lemma RemainderQuotient(x: nat, p: nat, m: nat)
    requires p >= 1 && m >= 1
    ensures p * m >= 1
    ensures x % (p * m) / p == x / p % m
  {
    var y, t := x / p, x % p;
    var q, u := y / m, y % m;
    QuotientBounds(x, p);
    QuotientBounds(y, m);
    ScaledDistance(p, m, u, 1);
    Distribute(p, m * q, u);
    assert p * (m * q) == p * m * q;
    ModUnique(x, p * m, q, p * u + t);
    ModUnique(p * u + t, p, u, t);
  }

  lemma RemainderOfMultiple(x: nat, m: nat, k: nat)
    requires m >= 1 && k >= 1
    ensures m * k >= 1
    ensures x % (m * k) % m == x % m
  {
    var q, r := x / (m * k), x % (m * k);
    assert x == m * k * q + r;
    assert m * k * q == m * (k * q);
    ModMultiple(r, k * q, m);
  }

  lemma EvenlyReduced(x: nat, y: nat, p: nat, m: nat, half: nat)
    requires p >= 1 && half >= 1 && m == 2 * half && y == p * m
    ensures y >= 1
    ensures x % y / p % 2 == x / p % 2
  {
    RemainderQuotient(x, p, m);
    RemainderOfMultiple(x / p, 2, half);
  }

  // Real quotients.

  lemma DivMul(a: real, b: real)
    requires b != 0.0
    ensures a / b * b == a
  {
  }

  lemma Cancel(x: real, y: real, m: real)
    requires m > 0.0 && x * m == y * m
    ensures x == y
  {
  }

  lemma Associate(a: real, b: real, c: real)
    ensures a * b * c == a * (b * c)
  {
  }

  lemma SignOfProduct(x: real, m: real)
    requires m > 0.0
    ensures x * m < m <==> x < 1.0
    ensures x * m >= 0.0 <==> x >= 0.0
  {
  }

  lemma Between(x: real, q: real, r: real, m: real)
    requires m > 0.0 && x * m == m * q + r && 0.0 <= r < m
    ensures q <= x < q + 1.0
  {
    var d := x - q;
    assert d * m == r;
    SignOfProduct(d, m);
  }

  lemma RealParts(a: int, m: int, q: int, r: int)
    requires a == m * q + r
    ensures a as real == m as real * q as real + r as real
  {
  }

  lemma FloorIs(x: real, k: int)
    requires k as real <= x < k as real + 1.0
    ensures (1.0 + x).Floor == 1 + k
  {
  }

  lemma FloorOfQuotient(a: nat, m: nat)
    requires m >= 1
    ensures (1.0 + a as real / m as real).Floor == 1 + a / m
  {
    var q, r := a / m, a % m;
    RealParts(a, m, q, r);
    DivMul(a as real, m as real);
    Between(a as real / m as real, q as real, r as real, m as real);
    FloorIs(a as real / m as real, q);
  }
}
