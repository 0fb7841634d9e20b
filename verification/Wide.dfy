// 128-bit numbers in two halves.
module Wide {
  import opened Arithmetic

  datatype U128 = U128(high: int, low: int)

  const WORD := 0x1_0000_0000_0000_0000
  const HALF := 0x1_0000_0000

  function Full(v: U128): int { v.high * WORD + v.low }

  predicate Fits(v: U128) { 0 <= v.high < WORD && 0 <= v.low < WORD }

  // Four partial products; what goes beyond 128 bits is cut off.
  function Mul(v: U128, m: int): U128 {
    var a0 := v.low % HALF * m;
    var part0 := a0 % HALF;
    var a1 := a0 / HALF + v.low / HALF * m;
    var low := a1 * HALF % WORD + part0;
    var a2 := a1 / HALF + v.high % HALF * m;
    var part2 := a2 % HALF;
    var a3 := a2 / HALF + v.high / HALF * m;
    U128(a3 * HALF % WORD + part2, low)
  }

  lemma MulFull(v: U128, m: int)
    requires Fits(v) && 0 <= m < HALF && Full(v) * m < WORD * WORD
    ensures Fits(Mul(v, m)) && Full(Mul(v, m)) == Full(v) * m
  {
    var l0, l1, h0, h1 := v.low % HALF, v.low / HALF, v.high % HALF, v.high / HALF;
    MulOrder(0, l0, m); MulOrder(0, l1, m); MulOrder(0, h0, m); MulOrder(0, h1, m);
    Partial(l0, l1, v.low, m);
    Partial(h0, h1, v.high, m);
    WordTimes(v.high, v.low, m);
    Carries(l0 * m, l1 * m, h0 * m, h1 * m, Full(v) * m);
  }

  lemma WordTimes(a: int, b: int, m: int)
    ensures (a * WORD + b) * m == a * m * WORD + b * m
  {
  }

  lemma Partial(a: int, b: int, x: int, m: int)
    requires x == b * HALF + a
    ensures x * m == b * m * HALF + a * m
  {
  }

  // The carries of the partial products x0, x1, y0 and y1.
  lemma Carries(x0: int, x1: int, y0: int, y1: int, total: int)
    requires 0 <= x0 && 0 <= x1 && 0 <= y0 && 0 <= y1 && total < WORD * WORD
    requires total == y1 * (HALF * WORD) + y0 * WORD + x1 * HALF + x0
    ensures var a1 := x0 / HALF + x1;
            var a2 := a1 / HALF + y0;
            var a3 := a2 / HALF + y1;
            var r := U128(a3 * HALF % WORD + a2 % HALF, a1 * HALF % WORD + x0 % HALF);
            Fits(r) && Full(r) == total
  {
    var a1 := x0 / HALF + x1;
    var a2 := a1 / HALF + y0;
    var a3 := a2 / HALF + y1;
    assert total == (a3 * HALF + a2 % HALF) * WORD + a1 % HALF * HALF + x0 % HALF;
    assert a3 < HALF;
  }

  // To the right for a positive shift, to the left for a negative one.
  function Shift(v: U128, shift: int): U128
    requires -64 <= shift <= 64
  {
    if shift == -64 then U128(v.low, 0)
    else if shift < 0 then
      U128((v.high * Pow2(-shift) + v.low / Pow2(64 + shift)) % WORD, v.low * Pow2(-shift) % WORD)
    else if shift == 0 then v
    else if shift == 64 then U128(0, v.high)
    else U128(v.high / Pow2(shift), (v.low / Pow2(shift) + v.high * Pow2(64 - shift)) % WORD)
  }

  // A number of whole words is shifted without a loss.
  lemma ShiftWhole(n: int, shift: nat)
    requires 0 <= n < WORD && 0 < shift <= 64
    ensures Fits(Shift(U128(n, 0), shift))
    ensures Full(Shift(U128(n, 0), shift)) == n * Pow2(64 - shift)
  {
    hide Pow2;
    Pow2Values();
    Pow2Add(shift, 64 - shift);
    Pow2Zero();
    if shift < 64 {
      var m, k := Pow2(shift), Pow2(64 - shift);
      var q, r := n / m, n % m;
      assert n == q * m + r;
      DivModOf(0, 0, m, 0);
      Distribute(q, m, r, k);
      MulOrder(0, r, k);
      MulStep(r, m, k);
      DivModOf(n * k, q, WORD, r * k);
      MulOrder(0, q, m);
      MulOrder(1, m, q);
    }
  }

  // The quotient by a power of two, and what is left.
  function DivModPow2(v: U128, power: nat): (r: (int, U128))
    requires power < 128
  {
    if power >= 64 then
      var q := v.high / Pow2(power - 64);
      (q, U128(v.high - q * Pow2(power - 64), v.low))
    else
      var partLow := v.low / Pow2(power);
      var q := partLow + v.high * Pow2(64 - power) % WORD;
      (q, U128(0, v.low - partLow * Pow2(power)))
  }

  lemma DivModFull(v: U128, power: nat)
    requires Fits(v) && 0 < power < 128 && Full(v) < 10 * Pow2(power)
    ensures var (q, r) := DivModPow2(v, power);
            && 0 <= q <= 9 && Fits(r) && 0 <= Full(r) < Pow2(power) && Full(v) == q * Pow2(power) + Full(r)
  {
    hide Pow2;
    Pow2Values();
    if power >= 64 {
      Pow2Add(power - 64, 64);
      HighQuotient(v, Pow2(power - 64), Pow2(power));
    } else {
      Pow2Add(power, 64 - power);
      LowQuotient(v, Pow2(power), Pow2(64 - power));
    }
  }

  lemma HighQuotient(v: U128, m: int, all: int)
    requires Fits(v) && m > 0 && all == m * WORD && Full(v) < 10 * all
    ensures var q := v.high / m;
            var r := U128(v.high - q * m, v.low);
            0 <= q <= 9 && Fits(r) && 0 <= Full(r) < all && Full(v) == q * all + Full(r)
  {
    var q, r := v.high / m, v.high % m;
    DivModLaw(v.high, m);
    Distribute(q, m, r, WORD);
    QuotientBound(v.high, m, 10);
  }

  lemma DivModLaw(a: int, m: int)
    requires m > 0
    ensures a == a / m * m + a % m && 0 <= a % m < m
  {
  }

  lemma LowQuotient(v: U128, m: int, k: int)
    requires Fits(v) && m > 0 && k > 0 && m * k == WORD && Full(v) < 10 * m
    ensures var p := v.low / m;
            var q, r := p + v.high * k % WORD, U128(0, v.low - p * m);
            0 <= q <= 9 && Fits(r) && 0 <= Full(r) < m && Full(v) == q * m + Full(r)
  {
    var p, r, hk := v.low / m, v.low % m, v.high * k;
    DivModLaw(v.low, m);
    assert v.high * WORD == hk * m by {
      MulAssoc(v.high, k, m);
    }
    MulOrder(0, v.high, k);
    MulOrder(0, p, m);
    SmallQuotient(hk, p, m, r);
    DivModOf(hk, 0, WORD, hk);
  }

  lemma SmallQuotient(a: int, b: int, m: int, r: int)
    requires 0 <= a && 0 <= b && m > 0 && 0 <= r && a * m + b * m + r < 10 * m
    ensures a + b <= 9 && (a + b) * m == a * m + b * m
  {
    assert (a + b) * m == a * m + b * m;
    if a + b > 9 {
      MulOrder(10, a + b, m);
    }
  }

  function BitAt(v: U128, pos: nat): int {
    if pos >= 64 then v.high / Pow2(pos - 64) % 2 else v.low / Pow2(pos) % 2
  }

  // The highest bit that may be there tells whether the rest is half or more.
  lemma TopBit(v: U128, pos: nat)
    requires Fits(v) && pos < 128 && Full(v) < Pow2(pos + 1)
    ensures BitAt(v, pos) == 1 <==> Full(v) >= Pow2(pos)
    ensures BitAt(v, pos) == 0 || BitAt(v, pos) == 1
  {
    hide Pow2;
    Pow2Values();
    Pow2Next(pos);
    if pos >= 64 {
      Pow2Add(pos - 64, 64);
      TopOf(v.high, Pow2(pos - 64));
    } else {
      Pow2Order(pos + 1, 64);
      TopOf(v.low, Pow2(pos));
    }
  }

  lemma TopOf(x: int, m: int)
    requires 0 <= x < 2 * m && m > 0
    ensures x / m % 2 == (if x >= m then 1 else 0)
  {
    if x >= m {
      DivModOf(x, 1, m, x - m);
    } else {
      DivModOf(x, 0, m, x);
    }
  }
}
