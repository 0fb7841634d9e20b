// Facts about multiplication, division and powers of two that the other
// modules share.
module Arithmetic {

  function Pow2(n: nat): (r: int)
    ensures r >= 1
  {
    if n == 0 then 1 else 2 * Pow2(n - 1)
  }

  lemma {:induction false} Pow2Add(a: nat, b: nat)
    ensures Pow2(a + b) == Pow2(a) * Pow2(b)
  {
    if a > 0 {
      Pow2Add(a - 1, b);
      MulAssoc(2, Pow2(a - 1), Pow2(b));
    }
  }

  lemma Pow2Zero()
    ensures Pow2(0) == 1
  {
  }

  lemma Pow2Next(n: nat)
    ensures Pow2(n + 1) == 2 * Pow2(n)
  {
  }

  lemma Distribute(a: int, b: int, c: int, m: int)
    ensures (a * b + c) * m == a * (b * m) + c * m
  {
    MulAssoc(a, b, m);
  }

  lemma MulAssoc(a: int, b: int, c: int)
    ensures (a * b) * c == a * (b * c)
  {
  }

  lemma MulOrder(a: int, b: int, m: int)
    requires a <= b && m >= 0
    ensures a * m <= b * m
  {
  }

  lemma MulStep(a: int, b: int, m: int)
    requires a < b && m >= 0
    ensures a * m + m <= b * m
  {
    MulOrder(a + 1, b, m);
  }

  // Quotient and remainder are unique.
  lemma DivModOf(a: int, q: int, m: int, r: int)
    requires m > 0 && a == q * m + r && 0 <= r < m
    ensures a / m == q && a % m == r
  {
    var d := a / m;
    var e := a % m;
    assert a == d * m + e;
    if d > q {
      MulStep(q, d, m);
    } else if d < q {
      MulStep(d, q, m);
    }
  }

  // Dividing by m and then by n is dividing by their product.
  lemma DivDiv(a: int, m: int, n: int)
    requires m > 0 && n > 0
    ensures m * n > 0 && a / m / n == a / (m * n)
    ensures a % (m * n) == a / m % n * m + a % m
  {
    var q, r := a / m, a % m;
    var u, v := q / n, q % n;
    assert a == q * m + r && q == u * n + v;
    MulStep(v, n, m);
    assert q * m == u * (m * n) + v * m by {
      MulAssoc(u, n, m);
    }
    MulOrder(0, v, m);
    MulOrder(1, m, n);
    DivModOf(a, u, m * n, v * m + r);
  }

  lemma {:induction false} Pow2Order(a: nat, b: nat)
    requires a <= b
    ensures Pow2(a) <= Pow2(b)
    decreases b - a
  {
    if a < b {
      Pow2Order(a + 1, b);
    }
  }

  lemma Pow2Small()
    ensures Pow2(1) == 2 && Pow2(2) == 4 && Pow2(8) == 256 && Pow2(10) == 1024
  {
  }

  lemma Pow2Values()
    ensures Pow2(32) == 0x1_0000_0000 && Pow2(60) == 0x1000_0000_0000_0000 && Pow2(64) == 0x1_0000_0000_0000_0000
    ensures Pow2(52) == 0x10_0000_0000_0000
  {
    hide Pow2;
    Pow2Small();
    Pow2Add(8, 8);
    Pow2Add(16, 16);
    Pow2Add(32, 10);
    Pow2Add(42, 10);
    Pow2Add(52, 8);
    Pow2Add(32, 32);
  }

  lemma QuotientBound(c: int, m: int, k: int)
    requires m > 0 && 0 <= c < m * k
    ensures 0 <= c / m < k
  {
    if c / m >= k {
      MulOrder(k, c / m, m);
    }
  }
}
