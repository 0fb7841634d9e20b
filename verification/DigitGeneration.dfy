// The digit generation of Grisu2: the shortest digits it finds within a
// distance below an upper bound, in 64-bit arithmetic.
module DigitGeneration {
  import opened Arithmetic
  import opened Decimals

  newtype uint32 = x: int | 0 <= x < 0x1_0000_0000
  newtype uint64 = x: int | 0 <= x < 0x1_0000_0000_0000_0000

  const POW10: seq<uint64> := [1, 10, 100, 1000, 10000, 100000, 1000000, 10000000, 100000000, 1000000000]

  lemma Pow10Table(k: nat)
    requires k < 10
    ensures POW10[k] as int == Ten(k)
  {
    assert Ten(3) == 1000 && Ten(6) == 1000 * Ten(3) && Ten(9) == 1000 * Ten(6);
  }

  function Dist(a: int, b: int): int { if a < b then b - a else a - b }

  // What is left when the last digit has been lowered j times.
  function RestAfter(rest: int, unit: int, j: nat): int { rest + j * unit }

  // What is left beside n units.
  function RestBeside(total: int, unit: int, n: int): int { total - n * unit }

  // The rest is as near to the margin as after any number of lowerings that stays
  // within delta, or up to k.
  ghost predicate NoneNearer(margin: int, rest: int, rest0: int, unit: int, delta: int) {
    forall j: nat ::
      RestAfter(rest0, unit, j) <= delta ==> Dist(margin, rest) <= Dist(margin, RestAfter(rest0, unit, j))
  }

  ghost predicate NoneBefore(margin: int, rest: int, rest0: int, unit: int, k: nat) {
    forall j: nat :: j <= k ==> Dist(margin, rest) <= Dist(margin, RestAfter(rest0, unit, j))
  }

  ghost predicate NoneBeside(margin: int, rest: int, total: int, unit: int, delta: int) {
    forall n: int ::
      0 <= RestBeside(total, unit, n) <= delta ==> Dist(margin, rest) <= Dist(margin, RestBeside(total, unit, n))
  }

  lemma NowNearer(margin: int, rest: int, rest0: int, unit: int, k: nat)
    requires NoneBefore(margin, rest, rest0, unit, k) && unit > 0
    requires Dist(margin, rest + unit) < Dist(margin, rest) && rest == RestAfter(rest0, unit, k)
    ensures rest + unit == RestAfter(rest0, unit, k + 1) && NoneBefore(margin, rest + unit, rest0, unit, k + 1)
  {
    assert (k + 1) * unit == k * unit + unit;
    forall j: nat | j <= k + 1 ensures Dist(margin, rest + unit) <= Dist(margin, RestAfter(rest0, unit, j)) {
      if j <= k {
        assert Dist(margin, rest) <= Dist(margin, RestAfter(rest0, unit, j));
      }
    }
  }

  lemma NearestNow(margin: int, rest: int, rest0: int, unit: int, delta: int, k: nat)
    requires NoneBefore(margin, rest, rest0, unit, k) && unit > 0 && rest == RestAfter(rest0, unit, k)
    requires rest >= margin || delta - rest < unit || margin - rest <= rest + unit - margin
    ensures NoneNearer(margin, rest, rest0, unit, delta)
  {
    assert (k + 1) * unit == k * unit + unit;
    forall j: nat | RestAfter(rest0, unit, j) <= delta
      ensures Dist(margin, rest) <= Dist(margin, RestAfter(rest0, unit, j))
    {
      if j > k {
        MulOrder(k + 1, j, unit);
      }
    }
  }

  // The last digit is lowered while that brings the number closer to the value:
  // none of the numbers not below the interval is closer in the end.
  method Round(start: array<char>, length: nat, delta: uint64, rest0: uint64, tenKappa: uint64, margin: uint64)
    returns (rest: uint64)
    requires 1 <= length <= start.Length && AllDigits(start[..length])
    requires rest0 < delta && margin <= delta && tenKappa > 0
    requires delta as int <= rest0 as int + DigitValue(start[length - 1]) * tenKappa as int
    modifies start
    ensures AllDigits(start[..length]) && rest0 <= rest <= delta
    ensures start[..length - 1] == old(start[..length - 1])
    ensures Number(start[..length]) * tenKappa as int + rest as int
            == old(Number(start[..length])) * tenKappa as int + rest0 as int
    ensures NoneNearer(margin as int, rest as int, rest0 as int, tenKappa as int, delta as int)
  {
    hide NoneNearer, NoneBefore;
    rest := rest0;
    ghost var head, d := start[..length - 1], DigitValue(start[length - 1]);
    ghost var k := 0;
    NothingLowered(margin as int, rest0 as int, tenKappa as int);
    assert start[..length] == head + [start[length - 1]];
    NumberAppend(head, start[length - 1]);
    while rest < margin && delta - rest >= tenKappa
          && (rest + tenKappa < margin || margin - rest > rest + tenKappa - margin)
      invariant 0 <= k <= d <= 9 && start[..length - 1] == head && DigitValue(start[length - 1]) == d - k
      invariant rest0 <= rest <= delta && rest as int == RestAfter(rest0 as int, tenKappa as int, k)
      invariant NoneBefore(margin as int, rest as int, rest0 as int, tenKappa as int, k)
      decreases d - k
    {
      if k == d {
        assert false;
      }
      start[length - 1] := start[length - 1] - 1 as char;
      NowNearer(margin as int, rest as int, rest0 as int, tenKappa as int, k);
      rest := rest + tenKappa;
      k := k + 1;
    }
    NearestNow(margin as int, rest as int, rest0 as int, tenKappa as int, delta as int, k);
    assert start[..length] == head + [start[length - 1]];
    NumberAppend(head, start[length - 1]);
    assert (10 * Number(head) + d - k) * tenKappa as int + k * tenKappa as int
           == (10 * Number(head) + d) * tenKappa as int;
  }

  lemma NothingLowered(margin: int, rest0: int, unit: int)
    ensures RestAfter(rest0, unit, 0) == rest0 && NoneBefore(margin, rest0, rest0, unit, 0)
  {
  }

  // The number of decimal digits of n.
  function DecCount(n: uint32): (k: nat)
    ensures 1 <= k <= 10 && (n as int) < Ten(k) && (k > 1 ==> Ten(k - 1) <= n as int)
  {
    Pow10Table(1); Pow10Table(2); Pow10Table(3); Pow10Table(4); Pow10Table(5);
    Pow10Table(6); Pow10Table(7); Pow10Table(8); Pow10Table(9);
    assert Ten(10) == 10 * Ten(9);
    if n < 10000 then
      if n < 100 then (if n < 10 then 1 else 2) else (if n < 1000 then 3 else 4)
    else if n < 1000000 then (if n < 100000 then 5 else 6)
    else if n < 100000000 then (if n < 10000000 then 7 else 8)
    else (if n < 1000000000 then 9 else 10)
  }

  // The digits d with exponent kappa denote a number between high - delta and
  // high, all in units of 1 / one.
  predicate Between(d: int, kappa: int, one: int, high: int, delta: int) {
    if kappa >= 0 then high - delta <= d * (Ten(kappa) * one) <= high
    else (high - delta) * Ten(-kappa) <= d * one <= high * Ten(-kappa)
  }

  // How far from value the number with exponent kappa is, in the same units.
  function Off(n: int, kappa: int, one: int, value: int): int {
    if kappa >= 0 then Dist(value, n * (Ten(kappa) * one)) else Dist(value * Ten(-kappa), n * one)
  }

  // No number with this exponent in the interval is nearer to value.
  ghost predicate Nearest(d: int, kappa: int, one: int, high: int, delta: int, value: int) {
    forall n: int :: Between(n, kappa, one, high, delta) ==> Off(d, kappa, one, value) <= Off(n, kappa, one, value)
  }

  // Between, and not at the lower end.
  predicate Inside(n: int, kappa: int, one: int, high: int, delta: int) {
    if kappa >= 0 then high - delta < n * (Ten(kappa) * one) <= high
    else (high - delta) * Ten(-kappa) < n * one <= high * Ten(-kappa)
  }

  // No number with one digit less is inside.
  ghost predicate Shortest(kappa: int, one: int, high: int, delta: int) {
    var k := kappa + 1;
    forall n: int :: !Inside(n, k, one, high, delta)
  }

  // Nor is one with fewer still.
  lemma {:induction false} ShorterOutside(kappa: int, one: int, high: int, delta: int, k: int, n: int)
    requires Shortest(kappa, one, high, delta) && k > kappa
    ensures !Inside(n, k, one, high, delta)
    decreases k - kappa
  {
    if k > kappa + 1 {
      ShorterOutside(kappa, one, high, delta, k - 1, 10 * n);
      if k > 0 {
        TenNext(k - 1);
        assert n * (Ten(k) * one) == (10 * n) * (Ten(k - 1) * one) by {
          MulAssoc(10, Ten(k - 1), one);
          MulAssoc(n, 10, Ten(k - 1) * one);
        }
        TenZero();
      } else {
        TenNext(-k);
        MulAssoc(high - delta, 10, Ten(-k));
        MulAssoc(high, 10, Ten(-k));
        MulAssoc(10, n, one);
        TenZero();
      }
    }
  }

  lemma NoneInside(number: int, unit: int, rest: int, total: int, delta: int, n: int)
    requires unit > 0 && number * unit + rest == total && 0 <= delta <= rest < unit
    ensures !(total - delta < n * unit <= total)
  {
    if n > number {
      MulOrder(number + 1, n, unit);
      assert (number + 1) * unit == number * unit + unit;
    } else {
      MulOrder(n, number, unit);
    }
  }

  // The digits written so far.
  ghost predicate Written(start: array<char>, p: nat, d: int)
    reads start
  {
    && p <= start.Length && AllDigits(start[..p]) && Number(start[..p]) == d
    && (p > 0 ==> start[0] != '0')
  }

  // A digit is written, but no zero at the beginning.
  method WriteDigit(start: array<char>, p: nat, d: uint32, ghost number: int) returns (q: nat)
    requires Written(start, p, number) && d <= 9 && p < start.Length
    modifies start
    ensures Written(start, q, 10 * number + d as int) && p <= q <= p + 1
    ensures q > 0 ==> DigitValue(start[q - 1]) == d as int
  {
    q := p;
    if d != 0 || p != 0 {
      start[p] := DigitChar(d as nat);
      assert start[..p + 1] == old(start[..p]) + [start[p]];
      NumberAppend(old(start[..p]), start[p]);
      q := p + 1;
    }
  }

  // The next digit of the integer part, in units of the digit.
  lemma IntegerDigit(t: int, integer: int, one: int, fraction: int, number: int)
    requires t > 0 && 0 <= integer < 10 * t && one > 0
    ensures var d, left := integer / t, integer % t;
            && 0 <= d <= 9 && 0 <= left < t && left * one >= 0
            && integer * one + fraction == d * (t * one) + (left * one + fraction)
            && number * (10 * t * one) + (integer * one + fraction)
               == (10 * number + d) * (t * one) + (left * one + fraction)
  {
    var d, left := integer / t, integer % t;
    assert integer == d * t + left;
    QuotientBound(integer, t, 10);
    Distribute(d, t, left, one);
    MulOrder(0, left, one);
    var u := t * one;
    assert 10 * t * one == 10 * u;
    MulAssoc(number, 10, u);
    assert (10 * number + d) * u == 10 * number * u + d * u;
  }

  // The two parts of the upper bound.
  lemma Parts(high: int, f: nat)
    requires 0 <= high < 0x1_0000_0000_0000_0000 && 32 <= f <= 60
    ensures var one := Pow2(f);
            && 0x1_0000_0000 <= one <= 0x1000_0000_0000_0000
            && 0 <= high / one < 0x1_0000_0000 && 0 <= high % one < one
            && high / one * one + high % one == high
  {
    hide Pow2;
    var one := Pow2(f);
    Pow2Values();
    Pow2Order(32, f);
    Pow2Order(f, 60);
    MulOrder(0x1_0000_0000, one, 0x1_0000_0000);
    QuotientBound(high, one, 0x1_0000_0000);
  }

  // In the middle of the integer part: what is left, and the digits so far.
  ghost predicate InInteger(high: int, delta: int, one: int, count: nat, number: int, kappa: int, integer: int,
                            fraction: int)
  {
    && 0 <= kappa <= count <= 10 && 0 <= fraction < one
    && 0 <= integer < Ten(kappa) && integer * one + fraction >= delta
    && (count > 1 ==> Ten(count - 1) * one <= high)
    && number >= 0 && number * (Ten(kappa) * one) + (integer * one + fraction) == high
  }

  lemma IntegerStep(high: int, delta: int, one: int, count: nat, number: int, kappa: int, integer: int, fraction: int)
    requires InInteger(high, delta, one, count, number, kappa, integer, fraction) && kappa > 0
    requires high < 0x1_0000_0000_0000_0000 && 0 < one <= 0x1000_0000_0000_0000
    ensures var t := Ten(kappa - 1);
            var d, left, number1 := integer / t, integer % t, 10 * number + integer / t;
            var rest := left * one + fraction;
            && 0 <= d <= 9 && 0 <= left < t && 0 <= rest <= high && 0 < t * one < 0x1_0000_0000_0000_0000
            && delta <= rest + d * (t * one) && rest < t * one
            && number1 * (t * one) + rest == high
            && (rest >= delta ==> InInteger(high, delta, one, count, number1, kappa - 1, left, fraction))
  {
    hide Ten;
    var t := Ten(kappa - 1);
    TenNext(kappa - 1);
    IntegerDigit(t, integer, one, fraction, number);
    MulOrder(1, t, one);
    TenOrder(kappa - 1, count - 1);
    TenZero();
    MulOrder(t, Ten(count - 1), one);
    MulStep(integer % t, t, one);
    MulOrder(0, 10 * number + integer / t, t * one);
  }

  lemma IntegerStart(high: int, delta: int, one: int, count: nat, integer: int, fraction: int)
    requires 0 < one && delta < high && 0 <= fraction < one && integer * one + fraction == high
    requires 0 <= integer && 1 <= count <= 10 && integer < Ten(count) && (count > 1 ==> Ten(count - 1) <= integer)
    ensures InInteger(high, delta, one, count, 0, count, integer, fraction)
  {
    assert 0 * (Ten(count) * one) == 0;
    if count > 1 {
      MulOrder(Ten(count - 1), integer, one);
    }
  }

  // The digits are there: they are rounded, and begin with no zero.
  method Finish(start: array<char>, p: nat, delta: uint64, rest0: uint64, unit: uint64, margin: uint64,
                ghost number: int, ghost total: int) returns (rest: uint64)
    requires Written(start, p, number) && rest0 < delta && margin <= delta && unit > 0
    requires number * unit as int + rest0 as int == total && (delta as int) < total
    requires p > 0 ==> delta as int <= rest0 as int + DigitValue(start[p - 1]) * unit as int
    requires rest0 < unit
    modifies start
    ensures NoneBeside(margin as int, rest as int, total, unit as int, delta as int)
    ensures 1 <= p <= start.Length && AllDigits(start[..p]) && start[0] != '0'
    ensures rest <= delta && Number(start[..p]) * unit as int + rest as int == total
  {
    hide NoneNearer, NoneBeside;
    assert start[..0] == [] && Number([]) == 0;
    rest := Round(start, p, delta, rest0, unit, margin);
    BesideOf(margin as int, rest as int, rest0 as int, unit as int, delta as int, number, total);
    if p == 1 {
      assert start[..1] == [] + [start[0]];
      NumberAppend([], start[0]);
    } else {
      assert start[0] == start[..p - 1][0] == old(start[..p - 1])[0];
    }
  }

  lemma Lowered(number: int, unit: int, rest: int, total: int, n: int)
    requires unit > 0 && 0 <= rest < unit && number * unit + rest == total && RestBeside(total, unit, n) >= 0
    ensures n <= number && RestBeside(total, unit, n) == RestAfter(rest, unit, number - n)
  {
    assert (number + 1) * unit == number * unit + unit;
    if n > number {
      MulOrder(number + 1, n, unit);
    }
    assert (number - n) * unit == number * unit - n * unit;
  }

  lemma BesideOf(margin: int, rest: int, rest0: int, unit: int, delta: int, number: int, total: int)
    requires NoneNearer(margin, rest, rest0, unit, delta)
    requires unit > 0 && 0 <= rest0 < unit && number * unit + rest0 == total
    ensures NoneBeside(margin, rest, total, unit, delta)
  {
    forall n: int | 0 <= RestBeside(total, unit, n) <= delta
      ensures Dist(margin, rest) <= Dist(margin, RestBeside(total, unit, n))
    {
      Lowered(number, unit, rest0, total, n);
      assert RestAfter(rest0, unit, number - n) <= delta;
    }
  }

  // What Finish leaves is nearest to the value.
  lemma NearestInteger(d: int, kappa: nat, one: int, high: int, delta: int, rest: int, margin: int)
    requires var unit := Ten(kappa) * one;
             d * unit + rest == high && NoneBeside(margin, rest, high, unit, delta)
    ensures Nearest(d, kappa, one, high, delta, high - margin)
  {
    hide Ten;
    var unit := Ten(kappa) * one;
    forall n: int | Between(n, kappa, one, high, delta)
      ensures Off(d, kappa, one, high - margin) <= Off(n, kappa, one, high - margin)
    {
      assert 0 <= RestBeside(high, unit, n) <= delta;
    }
  }

  lemma NearestFraction(d: int, kappa: int, one: int, high: int, delta: int, rest: int, margin: int)
    requires kappa < 0
    requires var total := high * Ten(-kappa);
             d * one + rest == total && NoneBeside(margin * Ten(-kappa), rest, total, one, delta * Ten(-kappa))
    ensures Nearest(d, kappa, one, high, delta, high - margin)
  {
    hide Ten;
    var t := Ten(-kappa);
    var total := high * t;
    assert (high - margin) * t == total - margin * t && (high - delta) * t == total - delta * t;
    forall n: int | Between(n, kappa, one, high, delta)
      ensures Off(d, kappa, one, high - margin) <= Off(n, kappa, one, high - margin)
    {
      assert 0 <= RestBeside(total, one, n) <= delta * t;
    }
  }

  lemma ShortestInteger(high: int, delta: int, one: int, count: nat, number: int, kappa: int, integer: int,
                        fraction: int)
    requires InInteger(high, delta, one, count, number, kappa, integer, fraction) && one > 0 && delta >= 0
    ensures Shortest(kappa - 1, one, high, delta)
  {
    hide Ten;
    var unit := Ten(kappa) * one;
    MulOrder(1, Ten(kappa), one);
    MulOrder(integer + 1, Ten(kappa), one);
    assert (integer + 1) * one == integer * one + one;
    forall n: int ensures !Inside(n, kappa, one, high, delta) {
      NoneInside(number, unit, integer * one + fraction, high, delta, n);
    }
  }

  lemma ShortestFraction(high: int, delta: int, one: int, number: int, kappa: int, fraction: int)
    requires kappa <= 0 && one > 0 && delta >= 0 && number * one + fraction == high * Ten(-kappa)
    requires delta * Ten(-kappa) <= fraction < one
    ensures Shortest(kappa - 1, one, high, delta)
  {
    hide Ten;
    var t := Ten(-kappa);
    TenZero();
    MulOrder(0, delta, t);
    assert (high - delta) * t == high * t - delta * t;
    forall n: int ensures !Inside(n, kappa, one, high, delta) {
      NoneInside(number, one, fraction, high * t, delta * t, n);
    }
  }

  // After the integer part only the fraction is left.
  lemma IntegerLeft(high: int, delta: int, one: int, count: nat, number: int, integer: int, fraction: int)
    requires InInteger(high, delta, one, count, number, 0, integer, fraction)
    ensures number * one + fraction == high && fraction >= delta && fraction < one && number >= 0
  {
    assert Ten(0) * one == one;
  }

  lemma IntegerEnd(d: int, kappa: nat, one: int, high: int, delta: int, rest: int)
    requires d * (Ten(kappa) * one) + rest == high && 0 <= rest <= delta
    ensures Between(d, kappa, one, high, delta)
  {
  }

  lemma FractionEnd(d: int, kappa: int, one: int, high: int, delta: int, rest: int)
    requires kappa < 0 && d * one + rest == high * Ten(-kappa) && 0 <= rest <= delta * Ten(-kappa)
    ensures Between(d, kappa, one, high, delta)
  {
    assert (high - delta) * Ten(-kappa) == high * Ten(-kappa) - delta * Ten(-kappa);
  }

  // A digit of the integer part is split off.
  method NextInteger(integer: uint32, kappa: nat, one: int, fraction: uint64, ghost high: uint64, ghost delta: uint64,
                     ghost count: nat, ghost number: int)
    returns (d: uint32, left: uint32, rest: uint64, unit: uint64)
    requires InInteger(high as int, delta as int, one, count, number, kappa, integer as int, fraction as int)
    requires kappa > 0 && 0 < one <= 0x1000_0000_0000_0000
    ensures d <= 9 && 0 < unit as int == Ten(kappa - 1) * one
    ensures delta as int <= rest as int + d as int * unit as int && rest < unit
    ensures (10 * number + d as int) * unit as int + rest as int == high as int
    ensures rest >= delta ==>
              InInteger(high as int, delta as int, one, count, 10 * number + d as int, kappa - 1, left as int,
                        fraction as int)
  {
    hide Ten, Pow2;
    IntegerStep(high as int, delta as int, one, count, number, kappa, integer as int, fraction as int);
    Pow10Table(kappa - 1);
    TenOrder(kappa - 1, 9);
    Pow10Table(9);
    var divisor := POW10[kappa - 1] as uint32;
    d, left := integer / divisor, integer % divisor;
    rest, unit := (left as int * one) as uint64 + fraction, (POW10[kappa - 1] as int * one) as uint64;
  }

  // The fraction is not zero below delta.
  method FractionGen(high: uint64, delta0: uint64, margin0: uint64, one: int, fraction0: uint64, p0: nat,
                     start: array<char>, ghost number0: int)
    returns (length: nat, kappa: int)
    requires 0 < one <= 0x1000_0000_0000_0000 && number0 >= 0 && margin0 <= delta0 && 0 < delta0 <= fraction0
             && delta0 < high
    requires fraction0 as int < one && number0 * one + fraction0 as int == high as int
    requires Written(start, p0, number0) && p0 <= 10 && start.Length >= 29
    modifies start
    ensures 1 <= length <= 29 && AllDigits(start[..length]) && start[0] != '0' && -19 <= kappa <= 0
    ensures Between(Number(start[..length]), kappa, one, high as int, delta0 as int)
    ensures Shortest(kappa, one, high as int, delta0 as int)
    ensures kappa > -10 ==>
              Nearest(Number(start[..length]), kappa, one, high as int, delta0 as int, high as int - margin0 as int)
  {
    hide Ten, Between, Shortest, Nearest;
    TenZero();
    var fraction, delta, margin, p := fraction0, delta0, margin0, p0;
    kappa := 0;
    ghost var number := number0;
    while true
      invariant -18 <= kappa <= 0 <= p <= p0 - kappa
      invariant Written(start, p, number) && number >= 0
      invariant number * one + fraction as int == high as int * Ten(-kappa)
      invariant delta as int == delta0 as int * Ten(-kappa) && delta <= fraction && (fraction as int) < one
      decreases one - delta as int
    {
      FractionStep(high as int, delta0 as int, one, number, -kappa, fraction as int);
      ShortestFraction(high as int, delta0 as int, one, number, kappa, fraction as int);
      fraction := fraction * 10;
      delta := delta * 10;
      var d := (fraction as int / one) as uint32;
      p := WriteDigit(start, p, d, number);
      number := 10 * number + d as int;
      fraction := (fraction as int % one) as uint64;
      kappa := kappa - 1;
      if fraction < delta {
        MarginBound(margin0 as int, delta0 as int, -kappa);
        margin := margin * if -kappa < 10 then POW10[-kappa] else 0;
        var rest := Finish(start, p, delta, fraction, one as uint64, margin, number, high as int * Ten(-kappa));
        FractionEnd(Number(start[..p]), kappa, one, high as int, delta0 as int, rest as int);
        if kappa > -10 {
          NearestFraction(Number(start[..p]), kappa, one, high as int, delta0 as int, rest as int, margin0 as int);
        }
        return p, kappa;
      }
    }
  }

  // One more digit of the fraction.
  lemma FractionStep(high: int, delta0: int, one: int, number: int, n: nat, fraction: int)
    requires 0 < one <= 0x1000_0000_0000_0000 && number >= 0 && 0 < delta0 < high
    requires number * one + fraction == high * Ten(n) && delta0 * Ten(n) <= fraction < one
    ensures n <= 18
    ensures var d, left := 10 * fraction / one, 10 * fraction % one;
            && 0 <= d <= 9 && 0 <= left < one && (10 * number + d) * one + left == high * Ten(n + 1)
            && delta0 * Ten(n + 1) == 10 * (delta0 * Ten(n)) < high * Ten(n + 1)
            && delta0 * Ten(n + 1) <= left + d * one
            && (left >= delta0 * Ten(n + 1) ==> n <= 17)
  {
    hide Ten;
    var d, left := 10 * fraction / one, 10 * fraction % one;
    assert 10 * fraction == d * one + left;
    QuotientBound(10 * fraction, one, 10);
    TenNext(n);
    assert (10 * number + d) * one == 10 * (number * one) + d * one by {
      MulAssoc(10, number, one);
    }
    assert high * Ten(n + 1) == 10 * (high * Ten(n)) by {
      MulAssoc(high, 10, Ten(n));
    }
    assert delta0 * Ten(n + 1) == 10 * (delta0 * Ten(n)) by {
      MulAssoc(delta0, 10, Ten(n));
    }
    MulOrder(1, delta0, Ten(n));
    MulOrder(1, delta0, Ten(n + 1));
    MulStep(delta0, high, Ten(n + 1));
    BigTen();
    if n > 18 {
      TenOrder(19, n);
    }
  }

  lemma BigTen()
    ensures Ten(19) > 0x1000_0000_0000_0000
  {
    TenAdd(9, 10);
    Pow10Table(9);
    assert Ten(10) == 10 * Ten(9);
  }

  lemma MarginBound(margin: int, delta: int, n: nat)
    requires 0 <= margin <= delta
    ensures n < 10 ==> POW10[n] as int == Ten(n)
    ensures 0 <= margin * Ten(n) <= delta * Ten(n)
  {
    if n < 10 {
      Pow10Table(n);
    }
    MulOrder(0, margin, Ten(n));
    MulOrder(margin, delta, Ten(n));
  }

  // The digits of the integer part; done if they are enough.
  method IntegerGen(high: uint64, delta: uint64, margin: uint64, one: int, integer0: uint32, fraction: uint64,
                    start: array<char>)
    returns (done: bool, p: nat, kappa: int, ghost number: int)
    requires 0 < one <= 0x1000_0000_0000_0000 && margin <= delta < high && start.Length >= 29
    requires integer0 as int * one + fraction as int == high as int && fraction as int < one
    modifies start
    ensures p <= 10 && 0 <= kappa <= 10 && (done ==> 1 <= p && AllDigits(start[..p]) && start[0] != '0')
    ensures done ==> Between(Number(start[..p]), kappa, one, high as int, delta as int)
    ensures done ==> Shortest(kappa, one, high as int, delta as int)
    ensures done ==> Nearest(Number(start[..p]), kappa, one, high as int, delta as int, high as int - margin as int)
    ensures !done ==> Written(start, p, number) && number >= 0 && number * one + fraction as int == high as int
    ensures !done ==> fraction >= delta
  {
    hide Ten, Between, InInteger, Written, Shortest, Nearest;
    var integer := integer0;
    p := 0;
    kappa := DecCount(integer);
    number := 0;
    ghost var count := kappa;
    IntegerStart(high as int, delta as int, one, count, integer as int, fraction as int);
    NothingWritten(start);
    while kappa > 0
      invariant InInteger(high as int, delta as int, one, count, number, kappa, integer as int, fraction as int)
      invariant 0 <= kappa <= count <= 10
      invariant Written(start, p, number) && p <= count - kappa
    {
      ShortestInteger(high as int, delta as int, one, count, number, kappa, integer as int, fraction as int);
      var d, rest, unit;
      d, integer, rest, unit := NextInteger(integer, kappa, one, fraction, high, delta, count, number);
      p := WriteDigit(start, p, d, number);
      number := 10 * number + d as int;
      kappa := kappa - 1;
      if rest < delta {
        rest := Finish(start, p, delta, rest, unit, margin, number, high as int);
        IntegerEnd(Number(start[..p]), kappa, one, high as int, delta as int, rest as int);
        NearestInteger(Number(start[..p]), kappa, one, high as int, delta as int, rest as int, margin as int);
        done := true;
        return;
      }
    }
    IntegerLeft(high as int, delta as int, one, count, number, integer as int, fraction as int);
    done := false;
  }

  lemma NothingWritten(start: array<char>)
    ensures Written(start, 0, 0)
  {
  }

  method DigitGen(value: uint64, high: uint64, exp: int, delta: uint64, start: array<char>)
    returns (length: nat, kappa: int)
    requires -60 <= exp <= -32 && value <= high && high - value <= delta && 0 < delta < high
    requires start.Length >= 29
    modifies start
    ensures 1 <= length <= 29 && AllDigits(start[..length]) && start[0] != '0' && -19 <= kappa <= 10
    ensures Between(Number(start[..length]), kappa, Pow2(-exp), high as int, delta as int)
    ensures Shortest(kappa, Pow2(-exp), high as int, delta as int)
    ensures kappa > -10 ==>
              Nearest(Number(start[..length]), kappa, Pow2(-exp), high as int, delta as int, value as int)
  {
    hide Ten, Pow2, Between, Written, Shortest, Nearest;
    var one := Pow2(-exp);
    Parts(high as int, -exp);
    var integer, fraction, margin := (high as int / one) as uint32, (high as int % one) as uint64, high - value;
    var done;
    ghost var number;
    done, length, kappa, number := IntegerGen(high, delta, margin, one, integer, fraction, start);
    if !done {
      length, kappa := FractionGen(high, delta, margin, one, fraction, length, start, number);
    }
  }
}
