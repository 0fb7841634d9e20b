// Powers of two and of ten with any integer exponent.
module RealPowers {
  import opened Arithmetic
  import opened Decimals

  ghost function Power(b: real, n: int): (r: real)
    requires b > 0.0
    ensures r > 0.0
    decreases if n >= 0 then n else -n
  {
    if n == 0 then 1.0 else if n > 0 then b * Power(b, n - 1) else Power(b, n + 1) / b
  }

  ghost function TwoTo(n: int): (r: real)
    ensures r > 0.0
  {
    Power(2.0, n)
  }

  ghost function TenTo(n: int): (r: real)
    ensures r > 0.0
  {
    Power(10.0, n)
  }

  // n * 10^e.
  ghost function Scaled(n: int, e: int): real { n as real * TenTo(e) }

  lemma PowerNext(b: real, n: int)
    requires b > 0.0
    ensures Power(b, n + 1) == b * Power(b, n)
  {
  }

  lemma {:induction false} PowerAdd(b: real, m: int, n: int)
    requires b > 0.0
    ensures Power(b, m + n) == Power(b, m) * Power(b, n)
    decreases if n >= 0 then n else -n
  {
    hide Power;
    PowerZero(b);
    var x := Power(b, m);
    if n > 0 {
      var y := Power(b, n - 1);
      PowerAdd(b, m, n - 1);
      PowerNext(b, m + n - 1);
      PowerNext(b, n - 1);
      Swap(x, b, y);
      assert Power(b, m + n) == b * (x * y) == x * Power(b, n);
    } else if n < 0 {
      var y, z := Power(b, n), Power(b, m + n);
      PowerAdd(b, m, n + 1);
      PowerNext(b, m + n);
      PowerNext(b, n);
      Swap(x, b, y);
      assert b * z == x * (b * y) == b * (x * y);
      Cancel(b, z, x * y);
    }
  }

  lemma TwoToSum(a: int, b: int)
    ensures TwoTo(a + b) == TwoTo(a) * TwoTo(b)
  {
    hide Power;
    PowerAdd(2.0, a, b);
  }

  lemma PowerZero(b: real)
    requires b > 0.0
    ensures Power(b, 0) == 1.0
  {
  }

  lemma Cancel(b: real, x: real, y: real)
    requires b > 0.0 && b * x == b * y
    ensures x == y
  {
    assert b * (x - y) == 0.0;
  }

  lemma Swap(a: real, b: real, c: real)
    ensures a * (b * c) == b * (a * c)
  {
  }

  lemma {:induction false} TwoToNat(n: nat)
    ensures TwoTo(n) == Pow2(n) as real
  {
    if n > 0 {
      TwoToNat(n - 1);
    }
  }

  lemma {:induction false} TenToNat(n: nat)
    ensures TenTo(n) == Ten(n) as real
  {
    if n > 0 {
      TenToNat(n - 1);
    }
  }
}
