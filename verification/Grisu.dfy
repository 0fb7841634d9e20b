// Grisu2: the decimal printed for a double lies strictly between the double's
// rounding boundaries.
module Grisu {
  import opened Arithmetic
  import opened Decimals
  import opened RealPowers
  import opened DigitGeneration
  import opened DiyFloats
  import opened NumberText
  import opened CachedPowers

  // Products of numbers far enough apart stay apart.
  lemma MulGap(a: DiyFp, b: DiyFp, c: DiyFp)
    requires 0 <= b.significand && b.significand + 8 <= a.significand < WORD && WORD / 2 <= c.significand < WORD
    ensures Mul(b, c).significand + 3 <= Mul(a, c).significand
  {
    MulRounds(a, c);
    MulRounds(b, c);
    var pa, pb := a.significand * c.significand, b.significand * c.significand;
    MulOrder(b.significand + 8, a.significand, c.significand);
    assert (b.significand + 8) * c.significand == pb + 8 * c.significand;
  }

  // The scaled upper boundary less one is below the boundary itself, and the
  // scaled lower boundary plus one above.
  lemma ScaledBoundary(x: DiyFp, c: DiyFp, k: int)
    requires 0 <= x.significand < WORD && CachedPowerOk(c, k, x.exp)
    ensures var m := Mul(x, c);
            && (m.significand - 1) as real * TwoTo(m.exp) < Value(x) * TenTo(k)
            && Value(x) * TenTo(k) < (m.significand + 1) as real * TwoTo(m.exp)
  {
    hide Power, TwoTo, TenTo, Mul, CachedPowerOk;
    CachedPowerBounds(c, k, x.exp);
    MulRounds(x, c);
    MulExponent(x, c);
    var m := Mul(x, c);
    var tc, te := TwoTo(c.exp), TwoTo(x.exp);
    ProductReal(x.significand, c.significand);
    Rounded(m.significand, x.significand * c.significand);
    NearScaled(m.significand as real, x.significand as real, c.significand as real, tc, TenTo(k));
    TwoToWord(x.exp, c.exp);
    var u := WORD as real * tc;
    Lift(te, (m.significand - 1) as real, u, x.significand as real, TenTo(k));
    Lift(te, (m.significand + 1) as real, u, x.significand as real, TenTo(k));
  }

  lemma CachedPowerBounds(c: DiyFp, k: int, exp: int)
    requires CachedPowerOk(c, k, exp)
    ensures 0 <= c.significand < WORD
    ensures c.significand as real * TwoTo(c.exp) - TwoTo(c.exp) / 2.0 <= TenTo(k)
    ensures TenTo(k) <= c.significand as real * TwoTo(c.exp) + TwoTo(c.exp) / 2.0
  {
    hide Power;
  }

  lemma Rounded(m: int, p: int)
    requires m == (p + WORD / 2) / WORD
    ensures m as real * WORD as real - WORD as real / 2.0 <= p as real <= m as real * WORD as real + WORD as real / 2.0
  {
    assert m * WORD - WORD / 2 <= p <= m * WORD + WORD / 2;
    assert m as real * WORD as real == (m * WORD) as real;
  }

  lemma NearScaled(m: real, s: real, cs: real, tc: real, ten: real)
    requires 0.0 <= s < WORD as real && tc > 0.0 && cs * tc - tc / 2.0 <= ten <= cs * tc + tc / 2.0
    requires m * WORD as real - WORD as real / 2.0 <= s * cs <= m * WORD as real + WORD as real / 2.0
    ensures (m - 1.0) * (WORD as real * tc) < s * ten < (m + 1.0) * (WORD as real * tc)
  {
    var w := WORD as real;
    ScaleTen(s, cs, tc, ten, w);
    ScaleProduct(m, s * cs, tc, w);
    Split(m, w * tc);
    Widened(m * (w * tc), s * cs * tc, w * tc, s * ten);
  }

  lemma Widened(a: real, b: real, u: real, x: real)
    requires a - u / 2.0 <= b <= a + u / 2.0 && b - u / 2.0 < x < b + u / 2.0
    ensures a - u < x < a + u
  {
  }

  lemma Split(m: real, u: real)
    ensures (m - 1.0) * u == m * u - u && (m + 1.0) * u == m * u + u
  {
  }

  lemma Lift(t: real, a: real, u: real, s: real, ten: real)
    requires t > 0.0
    ensures a * u < s * ten ==> a * (t * u) < s * t * ten
    ensures s * ten < a * u ==> s * t * ten < a * (t * u)
  {
    Regroup(a, u, t);
    Regroup(s, ten, t);
    if a * u < s * ten {
      Times(t, a * u, s * ten);
    }
    if s * ten < a * u {
      Times(t, s * ten, a * u);
    }
  }

  lemma TwoToWord(a: int, b: int)
    ensures TwoTo(a + b + 64) == TwoTo(a) * (WORD as real * TwoTo(b))
  {
    hide Power, Pow2;
    PowerAdd(2.0, a, b + 64);
    PowerAdd(2.0, b, 64);
    TwoToNat(64);
    Pow2Values();
  }

  lemma MulExponent(x: DiyFp, c: DiyFp)
    ensures Mul(x, c).exp == x.exp + c.exp + 64
  {
  }

  lemma ProductReal(a: int, b: int)
    ensures (a * b) as real == a as real * b as real
  {
  }

  // s times ten differs from s times c by less than half a word.
  lemma ScaleTen(s: real, cs: real, tc: real, ten: real, w: real)
    requires 0.0 <= s < w && tc > 0.0 && cs * tc - tc / 2.0 <= ten <= cs * tc + tc / 2.0
    ensures s * cs * tc - w * tc / 2.0 < s * ten < s * cs * tc + w * tc / 2.0
  {
    Ordered(s, cs * tc - tc / 2.0, ten);
    Ordered(s, ten, cs * tc + tc / 2.0);
    Times(tc, s, w);
  }

  lemma ScaleProduct(m: real, p: real, tc: real, w: real)
    requires tc > 0.0 && m * w - w / 2.0 <= p <= m * w + w / 2.0
    ensures m * (w * tc) - w * tc / 2.0 <= p * tc <= m * (w * tc) + w * tc / 2.0
  {
    Ordered(tc, m * w - w / 2.0, p);
    Ordered(tc, p, m * w + w / 2.0);
  }

  lemma Times(t: real, a: real, b: real)
    requires t > 0.0 && a < b
    ensures t * a < t * b
  {
  }

  lemma Ordered(t: real, a: real, b: real)
    requires t >= 0.0 && a <= b
    ensures t * a <= t * b
  {
  }

  lemma Regroup(a: real, b: real, t: real)
    ensures t * (a * b) == a * (t * b) && t * (a * b) == a * t * b
  {
  }

  lemma OneUnit(e: int)
    requires e <= 0
    ensures Pow2(-e) as real * TwoTo(e) == 1.0
  {
    hide Power, Pow2;
    TwoToNat(-e);
    PowerAdd(2.0, e, -e);
    PowerZero(2.0);
  }

  // The digits as a real number, in the scale of the bounds.
  lemma DigitsScaled(d: int, kappa: int, e: int, high: int, delta: int)
    requires e <= 0 && Between(d, kappa, Pow2(-e), high, delta)
    ensures (high - delta) as real * TwoTo(e) <= d as real * TenTo(kappa) <= high as real * TwoTo(e)
  {
    if kappa >= 0 {
      WholeScaled(d, kappa, Pow2(-e), e, high - delta, high);
    } else {
      FractionScaled(d, kappa, Pow2(-e), e, high - delta, high);
    }
  }

  lemma WholeScaled(d: int, kappa: nat, one: int, e: int, low: int, high: int)
    requires e <= 0 && one == Pow2(-e) && low <= d * (Ten(kappa) * one) <= high
    ensures low as real * TwoTo(e) <= d as real * TenTo(kappa) <= high as real * TwoTo(e)
  {
    hide Power, Pow2, Ten;
    OneUnit(e);
    TenToNat(kappa);
    ProductReal(Ten(kappa), one);
    ProductReal(d, Ten(kappa) * one);
    var n, ten, u, t := d as real, TenTo(kappa), one as real, TwoTo(e);
    Cancelled(n, ten, u, t);
    Unscale(low as real, n * (ten * u), t);
    Unscale(n * (ten * u), high as real, t);
  }

  lemma FractionScaled(d: int, kappa: int, one: int, e: int, low: int, high: int)
    requires kappa < 0 && e <= 0 && one == Pow2(-e) && low * Ten(-kappa) <= d * one <= high * Ten(-kappa)
    ensures low as real * TwoTo(e) <= d as real * TenTo(kappa) <= high as real * TwoTo(e)
  {
    hide Power, Pow2, Ten;
    OneUnit(e);
    TenToNat(-kappa);
    PowerAdd(10.0, kappa, -kappa);
    PowerZero(10.0);
    ProductReal(d, one);
    ProductReal(high, Ten(-kappa));
    ProductReal(low, Ten(-kappa));
    var n, ten, u, t := d as real, TenTo(-kappa), one as real, TwoTo(e);
    Unscale2(low as real, n, ten, u, t, TenTo(kappa));
    Unscale2(n, high as real, u, ten, TenTo(kappa), t);
  }

  lemma Unscale(a: real, b: real, t: real)
    requires a <= b && t > 0.0
    ensures a * t <= b * t
  {
  }

  lemma Cancelled(n: real, ten: real, one: real, t: real)
    requires one * t == 1.0
    ensures n * (ten * one) * t == n * ten
  {
    assert n * (ten * one) * t == n * ten * (one * t);
  }

  // a/y <= b/x from a * x <= b * y, with the inverses of x and y.
  lemma Unscale2(a: real, b: real, x: real, y: real, ty: real, tx: real)
    requires a * x <= b * y && x * tx == 1.0 && y * ty == 1.0 && tx > 0.0 && ty > 0.0
    ensures a * ty <= b * tx
  {
    assert tx * ty > 0.0;
    Ordered(tx * ty, a * x, b * y);
    assert tx * ty * (a * x) == a * ty * (x * tx);
    assert tx * ty * (b * y) == b * tx * (y * ty);
  }

  // The values of the boundaries.
  lemma BoundaryValues(bits: nat, minus: DiyFp, plus: DiyFp)
    requires 0 < bits <= MAX_BITS
    requires var v := FromDouble(bits);
             var f := v.significand;
             && 0 < f && 11 <= LeadingZeros(f)
             && plus == DiyFp((2 * f + 1) * Pow2(LeadingZeros(f) - 1), v.exp - LeadingZeros(f))
             && minus == DiyFp(if f == HIDDEN_BIT then (4 * f - 1) * Pow2(LeadingZeros(f) - 2)
                               else (2 * f - 1) * Pow2(LeadingZeros(f) - 1), v.exp - LeadingZeros(f))
    ensures Value(plus) == UpperBoundary(bits) && Value(minus) >= LowerBoundary(bits)
  {
    hide Power, Pow2, LeadingZeros, DoubleValue, FromDouble;
    var v, w := FromDouble(bits), FromDouble(bits - 1);
    var f, z := v.significand, LeadingZeros(v.significand);
    NextDouble(bits);
    NextDouble(bits - 1);
    var t := TwoTo(v.exp);
    Shifted(2 * f + 1, z - 1, v.exp - z);
    PowerNext(2.0, v.exp - 1);
    assert Value(plus) == (2 * f + 1) as real * (t / 2.0);
    Halves(f as real, t);
    PreviousDouble(bits);
    if f == HIDDEN_BIT {
      Shifted(4 * f - 1, z - 2, v.exp - z);
      PowerNext(2.0, v.exp - 2);
      assert Value(minus) == (4 * f - 1) as real * (t / 4.0);
    } else {
      Shifted(2 * f - 1, z - 1, v.exp - z);
      assert Value(minus) == (2 * f - 1) as real * (t / 2.0);
    }
  }

  lemma Halves(f: real, t: real)
    ensures (2.0 * f + 1.0) * (t / 2.0) == (f * t + (f + 1.0) * t) / 2.0
    ensures (2.0 * f - 1.0) * (t / 2.0) == ((f - 1.0) * t + f * t) / 2.0
    ensures (4.0 * f - 1.0) * (t / 4.0) == ((f - 0.5) * t + f * t) / 2.0
  {
  }

  lemma Shifted(n: int, a: nat, e: int)
    ensures Value(DiyFp(n * Pow2(a), e)) == n as real * TwoTo(e + a)
  {
    hide Power, Pow2;
    TwoToNat(a);
    PowerAdd(2.0, e, a);
    ProductReal(n, Pow2(a));
    Regroup(n as real, TwoTo(a), TwoTo(e));
  }

  // The double before: one less in the significand, or the last of the binade
  // before.
  lemma PreviousDouble(bits: nat)
    requires 0 < bits <= MAX_BITS
    ensures var v := FromDouble(bits);
            && (v.significand != HIDDEN_BIT ==> DoubleValue(bits - 1) == (v.significand - 1) as real * TwoTo(v.exp))
            && (v.significand == HIDDEN_BIT ==> DoubleValue(bits - 1) <= (v.significand as real - 0.5) * TwoTo(v.exp))
  {
    if bits % HIDDEN_BIT > 0 {
      PreviousInside(bits);
    } else {
      PreviousBelow(bits);
    }
  }

  lemma PreviousInside(bits: nat)
    requires 0 < bits <= MAX_BITS && bits % HIDDEN_BIT > 0
    ensures var v := FromDouble(bits);
            v.significand != HIDDEN_BIT && DoubleValue(bits - 1) == (v.significand - 1) as real * TwoTo(v.exp)
  {
    hide Power;
    DivModOf(bits - 1, bits / HIDDEN_BIT, HIDDEN_BIT, bits % HIDDEN_BIT - 1);
  }

  // The double below a power of two; its exponent is one less unless it is denormal.
  lemma PreviousBelow(bits: nat)
    requires 0 < bits <= MAX_BITS && bits % HIDDEN_BIT == 0
    ensures var v := FromDouble(bits);
            && v.significand == HIDDEN_BIT
            && DoubleValue(bits - 1) <= (v.significand as real - 0.5) * TwoTo(v.exp)
  {
    hide Power;
    var biased := bits / HIDDEN_BIT;
    DivModOf(bits - 1, biased - 1, HIDDEN_BIT, HIDDEN_BIT - 1);
    PowerNext(2.0, biased - 1076);
    HalfStep(TwoTo(biased - 1076));
    HalfStep(TwoTo(biased - 1075));
  }

  lemma HalfStep(t: real)
    requires t > 0.0
    ensures (2 * HIDDEN_BIT - 1) as real * t == (HIDDEN_BIT as real - 0.5) * (2.0 * t)
    ensures (HIDDEN_BIT - 1) as real * t <= (HIDDEN_BIT as real - 0.5) * t
  {
  }

  // The exponent for which the cached power is looked up.
  function PlusExponent(bits: nat): int
    requires 0 < bits <= MAX_BITS
  {
    SomeSignificand(bits);
    FromDouble(bits).exp - LeadingZeros(FromDouble(bits).significand)
  }

  lemma SomeSignificand(bits: nat)
    requires 0 < bits <= MAX_BITS
    ensures 0 < FromDouble(bits).significand < WORD
  {
    var biased, fraction := bits / HIDDEN_BIT, bits % HIDDEN_BIT;
    assert bits == biased * HIDDEN_BIT + fraction;
  }

  // The decimal number digits * 10^exponent.
  ghost function Decimal(digits: seq<char>, exponent: int): real { Scaled(Number(digits), exponent) }

  // The scaled bounds are what the digit generation asks for.
  lemma HalfGaps(f: int, q: int)
    requires f >= 1 && q >= 1
    ensures (2 * f + 1) * (2 * q) == f * (4 * q) + 2 * q
    ensures (2 * f - 1) * (2 * q) == f * (4 * q) - 2 * q
    ensures (4 * f - 1) * q == f * (4 * q) - q && f * (4 * q) >= 4 * q
  {
    MulAssoc(f, 4, q);
    MulAssoc(f, 2, 2 * q);
    MulOrder(1, f, 4 * q);
  }

  lemma ScaledBounds(bits: nat, minus: DiyFp, plus: DiyFp, c: DiyFp)
    requires 0 < bits <= MAX_BITS && WORD / 2 <= c.significand < WORD
    requires 0 < FromDouble(bits).significand < WORD && WORD / 2 <= plus.significand < WORD
    requires BoundariesOf(FromDouble(bits), minus, plus)
    ensures var w := Normalize(FromDouble(bits));
            && w.exp == plus.exp == minus.exp && 0 <= minus.significand < WORD
            && Mul(minus, c).significand + 3 <= Mul(w, c).significand
            && Mul(w, c).significand + 3 <= Mul(plus, c).significand
            && 0 <= Mul(minus, c).significand
            && Mul(plus, c).significand >= 0x1000_0000_0000_0001
  {
    hide Pow2, LeadingZeros, Mul;
    var v := FromDouble(bits);
    var f, z := v.significand, LeadingZeros(v.significand);
    var w := Normalize(v);
    Pow2Next(z - 1);
    Pow2Next(z - 2);
    Pow2Order(8, z - 2);
    Pow2Small();
    HalfGaps(f, Pow2(z - 2));
    MulGap(plus, w, c);
    MulGap(w, minus, c);
    MulRounds(minus, c);
    BigProduct(plus, c);
  }

  lemma BigProduct(a: DiyFp, c: DiyFp)
    requires WORD / 2 <= a.significand < WORD && WORD / 2 <= c.significand < WORD
    ensures Mul(a, c).significand >= 0x1000_0000_0000_0001
  {
    MulRounds(a, c);
    MulOrder(WORD / 2, a.significand, c.significand);
    MulOrder(WORD / 2, c.significand, WORD / 2);
  }

  ghost predicate ScaledBy(bits: nat, c: DiyFp, minus: DiyFp, plus: DiyFp, value: int, low: int, high: int, exp: int)
    requires 0 < bits <= MAX_BITS
  {
    SomeSignificand(bits);
    && BoundariesOf(FromDouble(bits), minus, plus) && exp == PlusExponent(bits) + c.exp + 64
    && value == Mul(Normalize(FromDouble(bits)), c).significand
    && low == Mul(minus, c).significand + 1 && high == Mul(plus, c).significand - 1
  }

  // The digits are in the scaled interval, no number with fewer digits is inside,
  // and, while the margin is kept, none with as many is nearer to the scaled value.
  ghost predicate DigitsFrom(bits: nat, digits: seq<char>, point: int, c: DiyFp, decExp: int, minus: DiyFp, plus: DiyFp,
                             value: int, low: int, high: int, exp: int)
    requires 0 < bits <= MAX_BITS
  {
    var kappa := point - |digits| - decExp;
    && LookedUp(c, decExp, PlusExponent(bits)) && ScaledBy(bits, c, minus, plus, value, low, high, exp) && exp <= 0
    && Between(Number(digits), kappa, Pow2(-exp), high, high - low)
    && Shortest(kappa, Pow2(-exp), high, high - low)
    && (kappa > -10 ==> Nearest(Number(digits), kappa, Pow2(-exp), high, high - low, value))
  }

  ghost predicate GrisuDigits(bits: nat, digits: seq<char>, point: int)
    requires 0 < bits <= MAX_BITS
  {
    exists c, decExp, minus, plus, value, low, high, exp ::
      DigitsFrom(bits, digits, point, c, decExp, minus, plus, value, low, high, exp)
  }

  // The double and its boundaries times the cached power, the boundaries one
  // unit inside.
  method Scale(bits: nat, c: DiyFp, k: int)
    returns (value: uint64, low: uint64, high: uint64, exp: int, ghost minus: DiyFp, ghost plus: DiyFp)
    requires 0 < bits <= MAX_BITS && CachedPowerOk(c, k, PlusExponent(bits))
    ensures ScaledBy(bits, c, minus, plus, value as int, low as int, high as int, exp)
    ensures -60 <= exp <= -32 && 0 < low < value <= high && high as int >= Pow2(-exp)
    ensures LowerBoundary(bits) * TenTo(k) < low as real * TwoTo(exp)
    ensures high as real * TwoTo(exp) < UpperBoundary(bits) * TenTo(k)
  {
    hide Pow2, Mul, Power, LeadingZeros, Value, UpperBoundary, LowerBoundary, FromDouble;
    SomeSignificand(bits);
    var v := FromDouble(bits);
    var lower, upper := NormalizeBoundaries(v);
    minus, plus := lower, upper;
    ScaledBounds(bits, minus, plus, c);
    BoundaryValues(bits, minus, plus);
    var scaledV, scaledLow, scaledHigh := Mul(Normalize(v), c), Mul(lower, c), Mul(upper, c);
    MulExponent(plus, c);
    MulExponent(minus, c);
    MulRounds(plus, c);
    ScaledBoundary(plus, c, k);
    ScaledBoundary(minus, c, k);
    Ordered(TenTo(k), LowerBoundary(bits), Value(minus));
    exp := scaledHigh.exp;
    Pow2Order(-exp, 60);
    Pow2Values();
    value, low, high := scaledV.significand as uint64, (scaledLow.significand + 1) as uint64,
        (scaledHigh.significand - 1) as uint64;
  }

  method Grisu2(bits: nat, start: array<char>) returns (length: nat, point: int)
    requires 0 < bits <= MAX_BITS && start.Length >= 29
    modifies start
    ensures 1 <= length <= 29 && AllDigits(start[..length]) && start[0] != '0' && -419 <= point - length <= 410
    ensures LowerBoundary(bits) < Decimal(start[..length], point - length) < UpperBoundary(bits)
    ensures GrisuDigits(bits, start[..length], point)
  {
    hide Pow2, Power, TenTo, TwoTo, Between, UpperBoundary, LowerBoundary, Decimal, CachedPowerOk, Number, PlusExponent;
    hide Nearest, Shortest, LookedUp, ScaledBy;
    PlusRange(bits);
    var c, decExp := CachedPowerBin(PlusExponent(bits));
    var value, low, high, exp;
    ghost var minus, plus;
    value, low, high, exp, minus, plus := Scale(bits, c, -decExp);
    var kappa;
    length, kappa := DigitGen(value, high, exp, high - low, start);
    DigitsScaled(Number(start[..length]), kappa, exp, high as int, (high - low) as int);
    Unscaled(start[..length], kappa, -decExp, LowerBoundary(bits), UpperBoundary(bits));
    point := length + (decExp + kappa);
    assert DigitsFrom(bits, start[..length], point, c, decExp, minus, plus, value as int, low as int, high as int, exp);
  }

  lemma PlusRange(bits: nat)
    requires 0 < bits <= MAX_BITS
    ensures -1137 <= PlusExponent(bits) <= 960
  {
    hide LeadingZeros, Pow2;
    SomeSignificand(bits);
    var n := FromDouble(bits).significand;
    var z := LeadingZeros(n);
    if z < 11 {
      Pow2Order(z, 10);
      Pow2Small();
      MulOrder(Pow2(z), 1024, n);
      MulOrder(n, 2 * HIDDEN_BIT - 1, 1024);
    }
  }

  lemma Unscaled(digits: seq<char>, kappa: int, k: int, lower: real, upper: real)
    requires lower * TenTo(k) < Number(digits) as real * TenTo(kappa) < upper * TenTo(k)
    ensures lower < Decimal(digits, kappa - k) < upper
  {
    hide Power, Number;
    PowerAdd(10.0, kappa - k, k);
    var n, u, t := Number(digits) as real, TenTo(kappa - k), TenTo(k);
    Regroup(n, t, u);
    Regroup(n, u, t);
    assert n * TenTo(kappa) == t * (n * u);
    assert Decimal(digits, kappa - k) == n * u;
    if n * u <= lower {
      Ordered(t, n * u, lower);
    }
    if n * u >= upper {
      Ordered(t, upper, n * u);
    }
  }

  // ----- what a reader makes of it -----

  function Distance(x: real, y: real): real { if x < y then y - x else x - y }

  // A number strictly between the boundaries of a double is nearer to it than to
  // any other: a reader that rounds to the nearest double gets it back.
  lemma ReadBack(bits: nat, x: real, other: nat)
    requires 0 < bits <= MAX_BITS && LowerBoundary(bits) < x < UpperBoundary(bits)
    requires other != bits && other <= MAX_BITS + 1
    ensures Distance(x, DoubleValue(bits)) < Distance(x, DoubleValue(other))
  {
    hide DoubleValue;
    DoubleOrder(bits, bits + 1);
    DoubleOrder(bits - 1, bits);
    if other > bits + 1 {
      DoubleOrder(bits + 1, other);
    } else if other < bits - 1 {
      DoubleOrder(other, bits - 1);
    }
  }

  // A reader that rounds to the nearest double reads x as this one.
  ghost predicate ReadAs(x: real, bits: nat) {
    forall other: nat | other <= MAX_BITS + 1 && other != bits ::
      Distance(x, DoubleValue(bits)) < Distance(x, DoubleValue(other))
  }

  lemma ReadBackAll(bits: nat, x: real)
    requires 0 < bits <= MAX_BITS && LowerBoundary(bits) < x < UpperBoundary(bits)
    ensures ReadAs(x, bits)
  {
    forall other: nat | other <= MAX_BITS + 1 && other != bits
      ensures Distance(x, DoubleValue(bits)) < Distance(x, DoubleValue(other))
    {
      ReadBack(bits, x, other);
    }
  }

  // The text is the layout of digits that are in the interval, shortest and nearest.
  ghost predicate Printed(bits: nat, text: seq<char>)
    requires 0 < bits <= MAX_BITS
  {
    exists digits: seq<char>, point ::
      && digits != [] && AllDigits(digits) && digits[0] != '0' && GrisuDigits(bits, digits, point)
      && text == Layout(digits, point)
  }

  // The text printed for a double that is not negative is read back as it.
  method Dtoa(bits: nat, start: array<char>) returns (size: nat)
    requires bits <= MAX_BITS && start.Length >= 57
    modifies start
    ensures 0 < size <= start.Length && IsDigit(start[0])
    ensures if bits == 0 then start[..size] == ['0'] else ReadAs(TextValue(start[..size]), bits)
    ensures bits > 0 ==> Printed(bits, start[..size])
  {
    hide GrisuDigits, DoubleValue, TextValue, Layout, LowerBoundary, UpperBoundary, Number, Scaled, ReadAs;
    if bits == 0 {
      start[0] := '0';
      return 1;
    }
    var length, point := Grisu2(bits, start);
    ghost var digits := start[..length];
    size := Format(start, length, point);
    LayoutValue(digits, point);
    LayoutBegins(digits, point);
    assert start[0] == start[..size][0];
    ReadBackAll(bits, TextValue(start[..size]));
  }

  // A double with its sign; minus zero is printed without it.  The source writes
  // the rest behind the sign in the same place.
  method SignedDtoa(bits: nat, negative: bool, start: array<char>) returns (size: nat)
    requires bits <= MAX_BITS && start.Length >= 58
    modifies start
    ensures 0 < size <= start.Length
    ensures if bits == 0 then start[..size] == ['0'] else
              && (negative <==> start[0] == '-')
              && ReadAs(TextValue(if negative then start[1..size] else start[..size]), bits)
  {
    hide TextValue, ReadAs;
    if bits == 0 || !negative {
      size := Dtoa(bits, start);
      return;
    }
    start[0] := '-';
    var rest := new char[start.Length - 1];
    var length := Dtoa(bits, rest);
    ghost var text := rest[..length];
    forall i | 0 <= i < length {
      start[1 + i] := rest[i];
    }
    size := 1 + length;
    assert start[1..size] == text && start[0] == '-';
  }

  // ----- the smallest double -----

  const ONE := 0x1000_0000_0000_0000

  lemma SmallestScaled(c: DiyFp, decExp: int, minus: DiyFp, plus: DiyFp, value: int, low: int, high: int, exp: int)
    requires LookedUp(c, decExp, PlusExponent(1)) && ScaledBy(1, c, minus, plus, value, low, high, exp)
    ensures decExp == -324 && exp == -60 && value == 0x4f0c_edc9_5a71_8dd5
    ensures low == 0x2786_76e4_ad38_c6eb && high == 0x7693_64ae_07aa_54be
  {
    hide LeadingZeros, Pow2, Mul, LookedUp;
    SomeSignificand(1);
    SixtyThree();
    assert PlusExponent(1) == -1137;
    SmallestEntry(c, decExp);
    MulRounds(Normalize(FromDouble(1)), c);
    MulRounds(minus, c);
    MulRounds(plus, c);
  }

  lemma SmallestEntry(c: DiyFp, decExp: int)
    requires LookedUp(c, decExp, -1137)
    ensures c == DiyFp(0x9e19_db92_b4e3_1ba9, 1013) && decExp == -324
  {
    var p: real :| Product(p, 1076) && IsEntry(EntryFor(p), c, decExp);
    assert EntryFor(p) == 84;
  }

  lemma SixtyThree()
    ensures LeadingZeros(1) == 63 && Pow2(62) == 0x4000_0000_0000_0000 && Pow2(63) == 0x8000_0000_0000_0000
  {
    hide LeadingZeros, Pow2;
    Pow2Values();
    Pow2Small();
    Pow2Add(60, 2);
    Pow2Next(62);
    var z := LeadingZeros(1);
    if z < 63 {
      Pow2Order(z, 62);
    }
  }

  lemma {:induction false} NumberAtLeast(digits: seq<char>)
    requires digits != [] && AllDigits(digits) && digits[0] != '0'
    ensures Number(digits) >= Ten(|digits| - 1)
  {
    if |digits| > 1 {
      NumberAtLeast(digits[..|digits| - 1]);
    } else {
      assert digits == [] + [digits[0]];
      NumberAppend([], digits[0]);
    }
  }

  // The digits of the smallest double are 5, at 10^-324.
  lemma SmallestDigits(digits: seq<char>, point: int)
    requires digits != [] && AllDigits(digits) && digits[0] != '0' && GrisuDigits(1, digits, point)
    ensures digits == ['5'] && point == -323
  {
    hide Pow2, ScaledBy, LookedUp, Nearest, Shortest, Number, PlusExponent;
    var c, decExp, minus, plus, value, low, high, exp :|
      DigitsFrom(1, digits, point, c, decExp, minus, plus, value, low, high, exp);
    SmallestScaled(c, decExp, minus, plus, value, low, high, exp);
    Pow2Values();
    var kappa := point - |digits| - decExp;
    NumberAtLeast(digits);
    SmallestKappa(Number(digits), kappa, high, high - low);
    SmallestNumber(Number(digits), high, high - low, value);
    OneDigit(digits);
  }

  lemma SmallestKappa(n: int, kappa: int, high: int, delta: int)
    requires high == 0x7693_64ae_07aa_54be && high - delta == 0x2786_76e4_ad38_c6eb && n >= 1
    requires Between(n, kappa, ONE, high, delta) && Shortest(kappa, ONE, high, delta)
    ensures kappa == 0
  {
    hide Ten, Shortest;
    TenZero();
    if kappa > 0 {
      TenNext(kappa - 1);
      MulOrder(10, Ten(kappa), ONE);
      MulOrder(1, n, Ten(kappa) * ONE);
    } else if kappa < 0 {
      ShorterOutside(kappa, ONE, high, delta, 0, 5);
    }
  }

  lemma SmallestNumber(n: int, high: int, delta: int, value: int)
    requires high == 0x7693_64ae_07aa_54be && high - delta == 0x2786_76e4_ad38_c6eb && value == 0x4f0c_edc9_5a71_8dd5
    requires Nearest(n, 0, ONE, high, delta, value)
    ensures n == 5
  {
    hide Ten;
    TenZero();
    assert Between(5, 0, ONE, high, delta);
    assert Off(n, 0, ONE, value) <= Off(5, 0, ONE, value);
  }

  lemma OneDigit(digits: seq<char>)
    requires digits != [] && AllDigits(digits) && Number(digits) == 5 && 5 >= Ten(|digits| - 1)
    ensures digits == ['5']
  {
    hide Number, Ten;
    TwoDigitsTen(|digits| - 1);
    assert digits == [] + [digits[0]];
    NumberAppend([], digits[0]);
    NoDigits();
  }

  lemma TwoDigitsTen(n: nat)
    ensures n >= 1 ==> Ten(n) >= 10
  {
  }

  lemma NoDigits()
    ensures Number([]) == 0
  {
  }

  lemma SmallestLayout()
    ensures Layout(['5'], -323) == "5e-324"
  {
    assert ExponentDigits(324) == [DigitChar(3)] + [DigitChar(2)] + [DigitChar(4)];
  }

  // The smallest double is printed as 5e-324.
  method PrintSmallest(start: array<char>) returns (size: nat)
    requires start.Length >= 57
    modifies start
    ensures size <= start.Length && start[..size] == "5e-324"
  {
    hide GrisuDigits, Layout, TextValue, ReadAs;
    size := Dtoa(1, start);
    ghost var digits: seq<char>, point :|
      && digits != [] && AllDigits(digits) && digits[0] != '0' && GrisuDigits(1, digits, point)
      && start[..size] == Layout(digits, point);
    SmallestDigits(digits, point);
    SmallestLayout();
  }
}
