// Numbers with a 64-bit significand and a binary exponent.
module DiyFloats {
  import opened Arithmetic
  import opened Decimals
  import opened RealPowers

  datatype DiyFp = DiyFp(significand: int, exp: int)

  const HIDDEN_BIT := 0x10_0000_0000_0000
  const WORD := 0x1_0000_0000_0000_0000

  ghost function Value(d: DiyFp): real { d.significand as real * TwoTo(d.exp) }

  // ----- doubles -----

  // The value of a double that is not negative, from its 64 bits; the bits after
  // those of the largest double stand for the power of two that would come next.
  ghost function DoubleValue(bits: nat): real {
    var biased, fraction := bits / HIDDEN_BIT, bits % HIDDEN_BIT;
    if biased == 0 then fraction as real * TwoTo(-1074)
    else (HIDDEN_BIT + fraction) as real * TwoTo(biased - 1075)
  }

  const MAX_BITS := 2047 * HIDDEN_BIT - 1

  function FromDouble(bits: nat): (d: DiyFp)
    requires bits <= MAX_BITS
    ensures Value(d) == DoubleValue(bits)
    ensures 0 <= d.significand < 2 * HIDDEN_BIT && -1074 <= d.exp <= 971
    ensures d.significand < HIDDEN_BIT ==> d.exp == -1074
  {
    var biased, fraction := bits / HIDDEN_BIT % 2048, bits % HIDDEN_BIT;
    if biased != 0 then DiyFp(fraction + HIDDEN_BIT, biased - 1075) else DiyFp(fraction, -1074)
  }

  // The value of the next double.
  lemma NextDouble(bits: nat)
    requires bits <= MAX_BITS
    ensures var d := FromDouble(bits);
            DoubleValue(bits + 1) == (d.significand + 1) as real * TwoTo(d.exp)
  {
    if bits % HIDDEN_BIT + 1 < HIDDEN_BIT {
      hide Power;
      DivModOf(bits + 1, bits / HIDDEN_BIT, HIDDEN_BIT, bits % HIDDEN_BIT + 1);
    } else {
      NextAbove(bits);
    }
  }

  // The next double is a power of two.
  lemma NextAbove(bits: nat)
    requires bits <= MAX_BITS && bits % HIDDEN_BIT + 1 == HIDDEN_BIT
    ensures var d := FromDouble(bits);
            DoubleValue(bits + 1) == (d.significand + 1) as real * TwoTo(d.exp)
  {
    hide Power;
    var biased := bits / HIDDEN_BIT;
    DivModOf(bits + 1, biased + 1, HIDDEN_BIT, 0);
    PowerNext(2.0, biased - 1075);
    Doubled(HIDDEN_BIT as real, TwoTo(biased - 1075));
  }

  // The bits that do not fit in the significand of a double.
  function Excess(n: int): (k: nat)
    requires 0 <= n
    decreases n
  {
    if n < 2 * HIDDEN_BIT then 0 else 1 + Excess(n / 2)
  }

  const INFINITY := 2047 * HIDDEN_BIT

  // The double next to v towards zero; infinity if v is too large, and zero if
  // its exponent is too small even for a denormal double.
  method ToDouble(v: DiyFp) returns (bits: nat)
    requires 0 <= v.significand < WORD
    ensures var e := v.exp + Excess(v.significand);
            if e >= 972 then bits == INFINITY
            else if e < -1074 then bits == 0
            else bits <= MAX_BITS && DoubleValue(bits) <= Value(v) < DoubleValue(bits + 1)
  {
    hide Power, DoubleValue, Value;
    var s, e := v.significand, v.exp;
    ghost var k := 0;
    OneMore(s, e);
    assert DiyFp(s, e) == v;
    while s >= 2 * HIDDEN_BIT
      invariant 0 <= s && e == v.exp + k && k + Excess(s) == Excess(v.significand)
      invariant k > 0 ==> s >= HIDDEN_BIT
      invariant Value(DiyFp(s, e)) <= Value(v) < Value(DiyFp(s + 1, e))
      invariant k == 0 ==> s == v.significand
      decreases s
    {
      HalfDropped(s, e, Value(v));
      s, e, k := s / 2, e + 1, k + 1;
    }
    if e >= 972 {
      return INFINITY;
    }
    if e < -1074 {
      return 0;
    }
    while e > -1074 && s / HIDDEN_BIT % 2 == 0
      invariant 0 <= s < 2 * HIDDEN_BIT && -1074 <= e <= 971
      invariant Value(DiyFp(s, e)) <= Value(v) < Value(DiyFp(s + 1, e))
      invariant s < HIDDEN_BIT ==> Value(DiyFp(s, e)) == Value(v)
      decreases e + 1075
    {
      ShiftedUp(s, e);
      s, e := s * 2, e - 1;
      OneMore(s, e);
    }
    var biased := if e == -1074 && s / HIDDEN_BIT % 2 == 0 then 0 else e + 1075;
    bits := s % HIDDEN_BIT + biased * HIDDEN_BIT;
    BitsOf(s, e, biased, bits);
    NextOf(bits, s, e);
  }

  lemma HalfDropped(s: int, e: int, x: real)
    requires 2 * HIDDEN_BIT <= s && Value(DiyFp(s, e)) <= x < Value(DiyFp(s + 1, e))
    ensures Value(DiyFp(s / 2, e + 1)) <= x < Value(DiyFp(s / 2 + 1, e + 1))
  {
    hide Power;
    PowerNext(2.0, e);
    var t, h := TwoTo(e), s / 2;
    Doubled(h as real, t);
    Doubled((h + 1) as real, t);
    assert 2 * h <= s <= 2 * h + 1;
    Grows(2 * h, s, t);
    Grows(s + 1, 2 * h + 2, t);
  }

  lemma NextOf(bits: nat, s: int, e: int)
    requires bits <= MAX_BITS && FromDouble(bits) == DiyFp(s, e)
    ensures DoubleValue(bits) == Value(DiyFp(s, e)) && DoubleValue(bits + 1) == Value(DiyFp(s + 1, e))
  {
    hide Power, DoubleValue;
    NextDouble(bits);
  }

  lemma Grows(a: int, b: int, t: real)
    requires a <= b && t > 0.0
    ensures a as real * t <= b as real * t
  {
  }

  lemma Doubled(a: real, t: real)
    ensures a * (2.0 * t) == (2.0 * a) * t
  {
  }

  lemma OneMore(s: int, e: int)
    ensures Value(DiyFp(s, e)) < Value(DiyFp(s + 1, e))
  {
    hide Power;
    var t := TwoTo(e);
    assert (s + 1) as real * t == s as real * t + t;
  }

  lemma ShiftedUp(s: int, e: int)
    ensures Value(DiyFp(2 * s, e - 1)) == Value(DiyFp(s, e))
    ensures Value(DiyFp(2 * s + 1, e - 1)) <= Value(DiyFp(s + 1, e))
  {
    hide Power;
    var t := TwoTo(e - 1);
    PowerNext(2.0, e - 1);
    Doubled(s as real, t);
    Doubled((s + 1) as real, t);
    Grows(2 * s + 1, 2 * s + 2, t);
  }

  lemma BitsOf(s: int, e: int, biased: int, bits: nat)
    requires 0 <= s < 2 * HIDDEN_BIT && -1074 <= e <= 971 && (s < HIDDEN_BIT ==> e == -1074)
    requires biased == if s < HIDDEN_BIT then 0 else e + 1075
    requires bits == s % HIDDEN_BIT + biased * HIDDEN_BIT
    ensures bits <= MAX_BITS && FromDouble(bits) == DiyFp(s, e)
  {
    DivModOf(bits, biased, HIDDEN_BIT, s % HIDDEN_BIT);
  }

  // Doubles grow with their bits.
  lemma {:induction false} DoubleOrder(a: nat, b: nat)
    requires a < b <= MAX_BITS + 1
    ensures DoubleValue(a) < DoubleValue(b)
    decreases b
  {
    hide Power, DoubleValue;
    NextDouble(b - 1);
    var d := FromDouble(b - 1);
    var t := TwoTo(d.exp);
    assert (d.significand + 1) as real * t == d.significand as real * t + t;
    if a < b - 1 {
      DoubleOrder(a, b - 1);
    }
  }

  // What ToDouble makes of a double is the double itself.
  lemma ToDoubleInverts(bits: nat, back: nat)
    requires bits <= MAX_BITS && back <= MAX_BITS
    requires DoubleValue(back) <= Value(FromDouble(bits)) < DoubleValue(back + 1)
    ensures back == bits && Excess(FromDouble(bits).significand) == 0
  {
    hide DoubleValue, Power;
    if back < bits {
      if back + 1 < bits {
        DoubleOrder(back + 1, bits);
      }
    } else if bits < back {
      DoubleOrder(bits, back);
    }
  }

  // The values half-way to the neighbours of a double: what lies between them is
  // read back as the double itself.
  ghost function UpperBoundary(bits: nat): real { (DoubleValue(bits) + DoubleValue(bits + 1)) / 2.0 }

  ghost function LowerBoundary(bits: nat): real
    requires bits > 0
  {
    (DoubleValue(bits - 1) + DoubleValue(bits)) / 2.0
  }

  // ----- multiplication -----

  // The 128-bit product, its lower half rounded off.
  function Mul(a: DiyFp, b: DiyFp): DiyFp {
    var product := a.significand * b.significand;
    var h, l := product / WORD, product % WORD;
    DiyFp(if l / 0x8000_0000_0000_0000 == 1 then h + 1 else h, a.exp + b.exp + 64)
  }

  // The same from 32-bit halves.
  function MulHalves(x: DiyFp, y: DiyFp): DiyFp {
    var half := 0x1_0000_0000;
    var a, b := x.significand / half, x.significand % half;
    var c, d := y.significand / half, y.significand % half;
    var ac, bc, ad, bd := a * c, b * c, a * d, b * d;
    var tmp := bd / half + ad % half + bc % half + 0x8000_0000;
    DiyFp(ac + ad / half + bc / half + tmp / half, x.exp + y.exp + 64)
  }

  // Both round the product to the nearest multiple of a word, half upwards.
  lemma MulRounds(x: DiyFp, y: DiyFp)
    requires 0 <= x.significand < WORD && 0 <= y.significand < WORD
    ensures var p := x.significand * y.significand;
            Mul(x, y).significand == (p + WORD / 2) / WORD && 0 <= Mul(x, y).significand < WORD
  {
    var p := x.significand * y.significand;
    MulOrder(0, x.significand, y.significand);
    MulOrder(x.significand, WORD - 1, y.significand);
    var h, l := p / WORD, p % WORD;
    if l >= WORD / 2 {
      DivModOf(p + WORD / 2, h + 1, WORD, l - WORD / 2);
    } else {
      DivModOf(p + WORD / 2, h, WORD, l + WORD / 2);
    }
  }

  // No sum of the second form goes beyond 64 bits, and it computes the same.
  lemma MulFormsAgree(x: DiyFp, y: DiyFp)
    requires 0 <= x.significand < WORD && 0 <= y.significand < WORD
    ensures MulHalves(x, y) == Mul(x, y)
    ensures var half := 0x1_0000_0000;
            var a, b, c, d := x.significand / half, x.significand % half, y.significand / half, y.significand % half;
            && 0 <= a * c < WORD && 0 <= b * c < WORD && 0 <= a * d < WORD && 0 <= b * d < WORD
            && b * d / half + a * d % half + b * c % half + 0x8000_0000 < WORD
  {
    var half := 0x1_0000_0000;
    var a, b, c, d := x.significand / half, x.significand % half, y.significand / half, y.significand % half;
    HalfProduct(a, c); HalfProduct(b, c); HalfProduct(a, d); HalfProduct(b, d);
    var ac, bc, ad, bd := a * c, b * c, a * d, b * d;
    assert x.significand * y.significand == ac * WORD + (ad + bc) * half + bd by {
      assert x.significand == a * half + b && y.significand == c * half + d;
      assert (a * half + b) * (c * half + d) == ac * half * half + ad * half + bc * half + bd;
    }
    MulRounds(x, y);
    HalvesSum(ac, bc, ad, bd, x.significand * y.significand);
  }

  lemma HalfProduct(a: int, b: int)
    requires 0 <= a < 0x1_0000_0000 && 0 <= b < 0x1_0000_0000
    ensures 0 <= a * b <= 0xFFFF_FFFE_0000_0001
  {
    MulOrder(0, a, b);
    MulOrder(a, 0xFFFF_FFFF, b);
  }

  lemma HalvesSum(ac: int, bc: int, ad: int, bd: int, p: int)
    requires p == ac * WORD + (ad + bc) * 0x1_0000_0000 + bd
    ensures var half := 0x1_0000_0000;
            var tmp := bd / half + ad % half + bc % half + 0x8000_0000;
            ac + ad / half + bc / half + tmp / half == (p + WORD / 2) / WORD
  {
    var half := 0x1_0000_0000;
    var tmp := bd / half + ad % half + bc % half + 0x8000_0000;
    var q := ac + ad / half + bc / half + tmp / half;
    DivModOf(p + WORD / 2, q, WORD, tmp % half * half + bd % half);
  }

  // ----- normalization -----

  function LeadingZeros(n: int): (z: nat)
    requires 0 < n < WORD
    ensures z <= 63 && WORD / 2 <= n * Pow2(z) < WORD
    decreases WORD - n
  {
    if n >= WORD / 2 then 0 else
    var z := LeadingZeros(2 * n);
    Pow2Next(z);
    MulAssoc(n, 2, Pow2(z));
    ShiftBound(n, z + 1);
    z + 1
  }

  lemma ShiftBound(n: int, z: nat)
    requires 0 < n && n * Pow2(z) < WORD
    ensures z <= 63
  {
    hide Pow2;
    if z > 63 {
      Pow2Order(64, z);
      Pow2Values();
      MulOrder(1, n, Pow2(z));
    }
  }

  // One shift only normalizes a number.
  lemma OneShift(n: int, a: nat, b: nat)
    requires 0 < n && WORD / 2 <= n * Pow2(a) < WORD && WORD / 2 <= n * Pow2(b) < WORD
    ensures a == b
  {
    hide Pow2;
    var lo, hi := if a < b then a else b, if a < b then b else a;
    if lo < hi {
      Pow2Next(lo);
      Pow2Order(lo + 1, hi);
      assert n * (2 * Pow2(lo)) == 2 * (n * Pow2(lo));
      MulOrder(2 * Pow2(lo), Pow2(hi), n);
    }
  }

  function Normalize(v: DiyFp): DiyFp
    requires 0 < v.significand < WORD
  {
    var z := LeadingZeros(v.significand);
    DiyFp(v.significand * Pow2(z), v.exp - z)
  }

  // The upper boundary is shifted until bit 53 is its highest, and then by ten.
  method NormalizeBoundary(v: DiyFp) returns (r: DiyFp, ghost shift: nat)
    requires 0 < v.significand < 4 * HIDDEN_BIT
    ensures shift >= 10 && r == DiyFp(v.significand * Pow2(shift), v.exp - shift)
    ensures WORD / 2 <= r.significand < WORD
  {
    var s, e := v.significand, v.exp;
    shift := 0;
    while s / (2 * HIDDEN_BIT) % 2 == 0
      invariant 0 < s < 4 * HIDDEN_BIT && s == v.significand * Pow2(shift) && e == v.exp - shift
      decreases 4 * HIDDEN_BIT - s
    {
      Pow2Next(shift);
      MulAssoc(v.significand, 2, Pow2(shift));
      s, e := s * 2, e - 1;
      shift := shift + 1;
    }
    Pow2Small();
    Pow2Add(shift, 10);
    MulAssoc(v.significand, Pow2(shift), 1024);
    r := DiyFp(s * 1024, e - 10);
    shift := shift + 10;
  }

  // The boundaries of a double, with the exponent its normal form has.
  predicate BoundariesOf(v: DiyFp, minus: DiyFp, plus: DiyFp)
    requires 0 < v.significand < WORD
  {
    var z := LeadingZeros(v.significand);
    && z >= 11 && plus == DiyFp((2 * v.significand + 1) * Pow2(z - 1), v.exp - z)
    && minus == DiyFp(if v.significand == HIDDEN_BIT then (4 * v.significand - 1) * Pow2(z - 2)
                      else (2 * v.significand - 1) * Pow2(z - 1), v.exp - z)
  }

  method NormalizeBoundaries(v: DiyFp) returns (minus: DiyFp, plus: DiyFp)
    requires 0 < v.significand < 2 * HIDDEN_BIT
    ensures BoundariesOf(v, minus, plus) && WORD / 2 <= plus.significand < WORD
  {
    hide Pow2, LeadingZeros;
    var f := v.significand;
    var z := LeadingZeros(f);
    ghost var shift;
    plus, shift := NormalizeBoundary(DiyFp(2 * f + 1, v.exp - 1));
    BoundaryShift(f, shift);
    var mi := if f == HIDDEN_BIT then DiyFp(4 * f - 1, v.exp - 2) else DiyFp(2 * f - 1, v.exp - 1);
    minus := DiyFp(mi.significand * Pow2(mi.exp - plus.exp), plus.exp);
  }

  lemma BoundaryShift(f: int, shift: nat)
    requires 0 < f < 2 * HIDDEN_BIT && WORD / 2 <= (2 * f + 1) * Pow2(shift) < WORD
    ensures LeadingZeros(f) == shift + 1 && shift >= 10
  {
    hide Pow2;
    var z := LeadingZeros(f);
    Pow2Next(shift);
    MulAssoc(f, 2, Pow2(shift));
    assert (2 * f + 1) * Pow2(shift) == 2 * f * Pow2(shift) + Pow2(shift);
    assert 2 * f * Pow2(shift) == f * Pow2(shift + 1);
    Pow2Half(f, shift);
    OneShift(f, z, shift + 1);
    Pow2Small();
    if shift < 10 {
      Pow2Order(shift, 9);
      Pow2Nine();
      MulOrder(2 * f + 1, 4 * HIDDEN_BIT - 1, Pow2(shift));
      MulOrder(Pow2(shift), 512, 4 * HIDDEN_BIT - 1);
    }
  }

  lemma Pow2Nine()
    ensures Pow2(9) == 512 && Pow2(62) == WORD / 4
  {
    Pow2Values();
    Pow2Add(60, 2);
    Pow2Small();
  }

  // With the boundary in the upper half of the words, so is the double below it.
  lemma Pow2Half(f: int, shift: nat)
    requires f > 0 && WORD / 2 <= f * Pow2(shift + 1) + Pow2(shift) < WORD
    ensures WORD / 2 <= f * Pow2(shift + 1)
  {
    hide Pow2;
    Pow2Next(shift);
    Pow2Values();
    Pow2Nine();
    Pow2Next(62);
    if shift <= 62 {
      Pow2Add(62 - shift, shift + 1);
      MultipleBelow(f, Pow2(shift), Pow2(62 - shift), WORD / 2);
    } else {
      Pow2Order(63, shift);
      MulOrder(1, f, Pow2(shift + 1));
    }
  }

  // Adding half a step to a multiple does not reach another multiple.
  lemma MultipleBelow(f: int, m: int, q: int, top: int)
    requires m > 0 && q * (2 * m) == top && top <= f * (2 * m) + m
    ensures top <= f * (2 * m)
  {
    if f < q {
      MulStep(f, q, 2 * m);
    } else {
      MulOrder(q, f, 2 * m);
    }
  }
}
