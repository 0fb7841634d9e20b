// Printing a double with a fixed number of digits after the point, in integer
// arithmetic.
module FixedDtoa {
  import opened Arithmetic
  import opened Decimals
  import opened DiyFloats
  import W = Wide

  // ----- digits of integers -----

  // The number, least significant digit first, and then turned round.
  method FillDigits32(number0: nat, start: array<char>, length: nat) returns (size: nat)
    requires 0 < number0 < Ten(20) && length + 20 <= start.Length
    modifies start
    ensures length < size <= length + 20 && start[..length] == old(start[..length])
    ensures AllDigits(start[length..size]) && Number(start[length..size]) == number0 && start[length] != '0'
  {
    hide Number, Ten, Backwards;
    var number, n := number0, 0;
    ghost var head := start[..length];
    NoDigits(number0);
    while number != 0
      invariant 0 <= number <= number0 && 0 <= n <= 20 && start[..length] == head
      invariant number < Ten(20 - n)
      invariant AllDigits(start[length..length + n])
      invariant number == 0 ==> n > 0
      invariant number * Ten(n) + Number(Backwards(start[length..length + n])) == number0
      invariant n > 0 && number == 0 ==> start[length + n - 1] != '0'
      invariant n == 0 ==> number == number0
    {
      ghost var was := start[length..length + n];
      TenZero();
      DigitStep(number, n, was, number0);
      start[length + n] := DigitChar(number % 10);
      assert start[length..length + n + 1] == was + [DigitChar(number % 10)];
      number := number / 10;
      n := n + 1;
    }
    ghost var digits := start[length..length + n];
    TurnRound(start, length, length + n);
    size := length + n;
    assert start[length..size] == Backwards(digits);
  }

  lemma NoDigits(number: int)
    ensures number * Ten(0) + Number(Backwards([])) == number
  {
  }

  function Backwards(s: seq<char>): (r: seq<char>)
    ensures |r| == |s| && forall i | 0 <= i < |s| :: r[i] == s[|s| - 1 - i]
  {
    seq(|s|, i requires 0 <= i < |s| => s[|s| - 1 - i])
  }

  lemma DigitStep(number: nat, n: nat, s: seq<char>, total: int)
    requires number != 0 && number * Ten(n) + Number(Backwards(s)) == total && |s| == n
    ensures number / 10 * Ten(n + 1) + Number(Backwards(s + [DigitChar(number % 10)])) == total
    ensures n < 20 && number < Ten(20 - n) ==> number / 10 < Ten(19 - n)
    ensures number / 10 == 0 ==> DigitChar(number % 10) != '0'
  {
    hide Ten, Number;
    var q, r := number / 10, number % 10;
    assert Backwards(s + [DigitChar(r)]) == [DigitChar(r)] + Backwards(s);
    NumberPrepend(DigitChar(r), Backwards(s));
    TenNext(n);
    FixedStep(number, n);
    if n < 20 {
      TenNext(19 - n);
    }
  }

  lemma {:induction false} NumberPrepend(c: char, s: seq<char>)
    ensures Number([c] + s) == DigitValue(c) * Ten(|s|) + Number(s)
  {
    if s == [] {
      assert [c] + s == [] + [c];
      NumberAppend([], c);
    } else {
      var t := s[..|s| - 1];
      assert [c] + s == ([c] + t) + [s[|s| - 1]];
      NumberAppend([c] + t, s[|s| - 1]);
      NumberPrepend(c, t);
      MulAssoc(DigitValue(c), Ten(|t|), 10);
    }
  }

  method TurnRound(start: array<char>, lo: nat, hi: nat)
    requires lo < hi <= start.Length
    modifies start
    ensures start[lo..hi] == Backwards(old(start[lo..hi])) && start[..lo] == old(start[..lo])
  {
    var i, j := lo, hi - 1;
    ghost var was := start[lo..hi];
    while i < j
      invariant lo <= i <= j + 1 <= hi && i + j == lo + hi - 1
      invariant start[..lo] == old(start[..lo])
      invariant forall k | lo <= k < i || j < k < hi :: start[k] == was[hi - 1 - k]
      invariant forall k | i <= k <= j :: start[k] == was[k - lo]
    {
      var c := start[i];
      start[i] := start[j];
      start[j] := c;
      i, j := i + 1, j - 1;
    }
    forall m | 0 <= m < hi - lo ensures start[lo..hi][m] == Backwards(was)[m] {
      assert start[lo + m] == was[hi - lo - 1 - m];
    }
  }

  // Exactly so many digits, from the last to the first; number may have more.
  method FillDigitsFixed(number0: nat, requested: nat, start: array<char>, length: nat) returns (size: nat)
    requires length + requested <= start.Length
    modifies start
    ensures size == length + requested && start[..length] == old(start[..length])
    ensures AllDigits(start[length..size]) && Number(start[length..size]) == number0 % Ten(requested)
  {
    var number, i := number0, requested;
    ghost var head := start[..length];
    while i > 0
      invariant 0 <= i <= requested && number >= 0 && start[..length] == head
      invariant AllDigits(start[length + i..length + requested])
      invariant number * Ten(requested - i) + Number(start[length + i..length + requested]) == number0
      decreases i
    {
      i := i - 1;
      ghost var was := start[length + i + 1..length + requested];
      start[length + i] := DigitChar(number % 10);
      assert start[length + i..length + requested] == [DigitChar(number % 10)] + was;
      NumberPrepend(DigitChar(number % 10), was);
      FixedStep(number, requested - i - 1);
      number := number / 10;
    }
    size := length + requested;
    NumberBound(start[length..size]);
    DivModOf(number0, number, Ten(requested), Number(start[length..size]));
  }

  lemma FixedStep(number: nat, n: nat)
    ensures number / 10 * Ten(n + 1) + number % 10 * Ten(n) == number * Ten(n)
  {
    hide Ten;
    TenNext(n);
    Distribute(number / 10, 10, number % 10, Ten(n));
  }

  lemma {:induction false} NumberConcat(a: seq<char>, b: seq<char>)
    ensures Number(a + b) == Number(a) * Ten(|b|) + Number(b)
  {
    if b == [] {
      assert a + b == a;
    } else {
      var t, c := b[..|b| - 1], b[|b| - 1];
      assert a + b == (a + t) + [c];
      NumberAppend(a + t, c);
      NumberConcat(a, t);
      MulAssoc(Number(a), Ten(|t|), 10);
    }
  }

  method FillDigits64(number: nat, start: array<char>, length: nat) returns (size: nat)
    requires 0 < number < WORD && length + 34 <= start.Length
    modifies start
    ensures length < size <= length + 34 && start[..length] == old(start[..length])
    ensures AllDigits(start[length..size]) && Number(start[length..size]) == number && start[length] != '0'
  {
    hide Number, Ten;
    SevenDigits(number);
    var part2, rest := number % 10000000, number / 10000000;
    var part1, part0 := rest % 10000000, rest / 10000000;
    if part0 != 0 {
      size := FillDigits32(part0, start, length);
      size := AppendSeven(part1, start, length, size, part0);
      size := AppendSeven(part2, start, length, size, rest);
    } else if part1 != 0 {
      size := FillDigits32(part1, start, length);
      size := AppendSeven(part2, start, length, size, part1);
    } else {
      size := FillDigits32(part2, start, length);
    }
  }

  lemma SevenDigits(number: nat)
    ensures number / 10000000 / 10000000 * 10000000 + number / 10000000 % 10000000 == number / 10000000
    ensures number / 10000000 * 10000000 + number % 10000000 == number
    ensures number < WORD ==> number / 10000000 / 10000000 < 200000
    ensures Ten(7) == 10000000 && Ten(20) >= 1000000000000
  {
    hide Ten;
    var rest := number / 10000000;
    assert rest == rest / 10000000 * 10000000 + rest % 10000000;
    assert rest * 10000000 <= number;
    TenSeven();
  }

  lemma TenSeven()
    ensures Ten(7) == 10000000 && Ten(20) >= 1000000000000
  {
    hide Ten;
    TenThree();
    TenAdd(3, 3);
    TenAdd(6, 6);
    TenAdd(6, 1);
    TenOrder(12, 20);
  }

  lemma TenThree()
    ensures Ten(1) == 10 && Ten(3) == 1000
  {
  }

  // Seven more digits after those of a number.
  lemma SevenMore(a: seq<char>, b: seq<char>, number: int, part: int)
    requires AllDigits(a) && AllDigits(b) && |b| == 7 && Number(a) == number && Number(b) == part
    ensures AllDigits(a + b) && Number(a + b) == number * 10000000 + part
  {
    hide Ten, Number;
    TenSeven();
    NumberConcat(a, b);
  }

  method AppendSeven(part: nat, start: array<char>, lo: nat, length: nat, ghost number: int) returns (size: nat)
    requires part < 10000000 && lo < length && length + 7 <= start.Length
    requires AllDigits(start[lo..length]) && Number(start[lo..length]) == number
    modifies start
    ensures size == length + 7 && start[..lo] == old(start[..lo])
    ensures AllDigits(start[lo..size]) && Number(start[lo..size]) == number * 10000000 + part
    ensures start[lo] == old(start[lo])
  {
    hide Ten, Number, AllDigits;
    ghost var was := start[lo..length];
    size := FillDigitsFixed(part, 7, start, length);
    TenSeven();
    assert start[lo..length] == was by {
      assert start[lo..length] == start[..length][lo..];
    }
    assert start[lo..size] == was + start[length..size];
    SevenMore(was, start[length..size], number, part);
    assert start[lo] == start[..length][lo];
    assert start[..lo] == start[..length][..lo];
  }

  // Seventeen digits.
  method FillDigits64Fixed(number: nat, start: array<char>, length: nat) returns (size: nat)
    requires number < Ten(17) && 0 < length && length + 17 <= start.Length && AllDigits(start[..length])
    modifies start
    ensures size == length + 17 && AllDigits(start[..size])
    ensures Number(start[..size]) == old(Number(start[..length])) * Ten(17) + number
  {
    hide Number, Ten;
    ghost var was := start[..length];
    var part2, rest := number % 10000000, number / 10000000;
    var part1, part0 := rest % 10000000, rest / 10000000;
    SeventeenDigits(number);
    size := FillDigitsFixed(part0, 3, start, length);
    assert start[0..size] == was + start[length..size];
    NumberConcat(was, start[length..size]);
    ghost var head := Number(was) * 1000 + part0;
    size := AppendSeven(part1, start, 0, size, head);
    size := AppendSeven(part2, start, 0, size, head * 10000000 + part1);
    assert start[0..size] == start[..size];
  }

  lemma SeventeenDigits(number: nat)
    requires number < Ten(17)
    ensures Ten(3) == 1000 && Ten(17) == 1000 * 10000000 * 10000000
    ensures number / 10000000 / 10000000 < 1000
    ensures number == (number / 10000000 / 10000000 * 10000000 + number / 10000000 % 10000000) * 10000000
            + number % 10000000
  {
    SevenDigits(number);
    TenAdd(3, 7);
    TenAdd(10, 7);
  }

  // ----- rounding -----

  lemma {:induction false} NumberUpdate(s: seq<char>, i: nat, c: char)
    requires i < |s|
    ensures Number(s[i := c]) == Number(s) + (DigitValue(c) - DigitValue(s[i])) * Ten(|s| - 1 - i)
  {
    hide Number, Ten;
    var t, l := s[..|s| - 1], s[|s| - 1];
    if i == |s| - 1 {
      TenZero();
      assert s[i := c] == t + [c] && s == t + [l];
      NumberAppend(t, c);
      NumberAppend(t, l);
    } else {
      assert s[i := c] == t[i := c] + [l] && s == t + [l];
      NumberAppend(t[i := c], l);
      NumberAppend(t, l);
      NumberUpdate(t, i, c);
      TenNext(|s| - 2 - i);
      MulAssoc(DigitValue(c) - DigitValue(s[i]), 10, Ten(|s| - 2 - i));
    }
  }

  const TEN_CHAR := '0' + 10 as char

  predicate Carrying(s: seq<char>, i: nat) {
    && i < |s| && AllDigits(s[..i]) && (IsDigit(s[i]) || s[i] == TEN_CHAR)
    && forall k | i < k < |s| :: s[k] == '0'
  }

  // One unit more in the last place; the carry out of the first digit moves the
  // point.
  method RoundUp(start: array<char>, length: nat, point: int) returns (size: nat, point': int)
    requires length < start.Length && AllDigits(start[..length])
    modifies start
    ensures size <= start.Length && AllDigits(start[..size])
    ensures length == 0 ==> size == 1 && point' == 1 && Number(start[..1]) == 1
    ensures length > 0 ==>
              && size == length && point <= point' <= point + 1
              && Number(start[..size]) * Ten(point' - point) == old(Number(start[..length])) + 1
  {
    if length == 0 {
      start[0] := '1';
      assert start[..1] == [] + ['1'];
      NumberAppend([], '1');
      return 1, 1;
    }
    ghost var total, was := Number(start[..length]) + 1, start[..length];
    size, point' := length, point;
    start[length - 1] := start[length - 1] + 1 as char;
    assert start[..length] == was[length - 1 := was[length - 1] + 1 as char];
    NumberUpdate(was, length - 1, start[length - 1]);
    var i := length - 1;
    while i > 0
      invariant 0 <= i < length && Carrying(start[..length], i) && Number(start[..length]) == total
    {
      if start[i] != TEN_CHAR {
        return;
      }
      ghost var s := start[..length];
      start[i] := '0';
      start[i - 1] := start[i - 1] + 1 as char;
      CarryStep(s, i, start[..length]);
      i := i - 1;
    }
    if start[0] == TEN_CHAR {
      ghost var s := start[..length];
      start[0] := '1';
      FirstCarry(s, start[..length]);
      point' := point + 1;
    }
  }

  lemma CarryStep(s: seq<char>, i: nat, s1: seq<char>)
    requires 0 < i && Carrying(s, i) && s[i] == TEN_CHAR
    requires s1 == s[i := '0'][i - 1 := s[i - 1] + 1 as char]
    ensures Carrying(s1, i - 1) && Number(s1) == Number(s)
  {
    NumberUpdate(s, i, '0');
    NumberUpdate(s[i := '0'], i - 1, s[i - 1] + 1 as char);
  }

  lemma FirstCarry(s: seq<char>, s1: seq<char>)
    requires Carrying(s, 0) && s[0] == TEN_CHAR && s1 == s[0 := '1']
    ensures AllDigits(s1) && Number(s1) * Ten(1) == Number(s)
  {
    var n := |s| - 1;
    assert s == [TEN_CHAR] + s[1..] && s1 == ['1'] + s[1..];
    NumberPrepend(TEN_CHAR, s[1..]);
    NumberPrepend('1', s[1..]);
    AllZeros(s[1..]);
    assert Ten(1) == 10;
  }

  lemma {:induction false} AllZeros(s: seq<char>)
    requires forall k | 0 <= k < |s| :: s[k] == '0'
    ensures Number(s) == 0
  {
    if s != [] {
      AllZeros(s[..|s| - 1]);
    }
  }

  // ----- the fraction -----

  function Five(n: nat): (r: int)
    ensures r >= 1
  {
    if n == 0 then 1 else 5 * Five(n - 1)
  }

  lemma {:induction false} TenParts(n: nat)
    ensures Ten(n) == Five(n) * Pow2(n)
  {
    if n > 0 {
      TenParts(n - 1);
      assert 10 * (Five(n - 1) * Pow2(n - 1)) == 5 * Five(n - 1) * (2 * Pow2(n - 1));
    }
  }

  // x / 2^t times 10^frac, rounded to the nearest integer, half upwards.
  function Rounded(x: int, t: nat, frac: nat): int {
    (2 * (x * Ten(frac)) + Pow2(t)) / Pow2(t + 1)
  }

  // The digits so far, d, and what is left, f, in units of 2^(i - t).
  ghost predicate InFraction(x: int, t: nat, i: nat, d: int, f: int) {
    i <= t && d >= 0 && 0 <= f < Pow2(t - i) && x * Five(i) == d * Pow2(t - i) + f
  }

  lemma FractionDigit(x: int, t: nat, i: nat, d: int, f: int)
    requires InFraction(x, t, i, d, f) && f > 0
    ensures i < t
    ensures var m := Pow2(t - i - 1);
            var q, r := 5 * f / m, 5 * f % m;
            0 <= q <= 9 && InFraction(x, t, i + 1, 10 * d + q, r)
  {
    assert Pow2(0) == 1;
    hide Pow2, Five;
    var m := Pow2(t - i - 1);
    Pow2Next(t - i - 1);
    FiveNext(i);
    QuotientBound(5 * f, m, 10);
    DigitSplit(x, Five(i), d, m, f);
  }

  lemma FiveNext(n: nat)
    ensures Five(n + 1) == 5 * Five(n)
  {
  }

  lemma DigitSplit(x: int, a: int, d: int, m: int, f: int)
    requires x * a == d * (2 * m) + f && m > 0
    ensures var q, r := 5 * f / m, 5 * f % m; x * (5 * a) == (10 * d + q) * m + r && 0 <= r < m
  {
    var q, r := 5 * f / m, 5 * f % m;
    assert 5 * f == q * m + r;
    assert x * (5 * a) == 5 * (x * a);
    assert d * (2 * m) == 2 * (d * m);
    Sum(10 * d, q, m);
    MulAssoc(10, d, m);
  }

  lemma Sum(a: int, b: int, m: int)
    ensures (a + b) * m == a * m + b * m
  {
  }

  // The end: as many digits as asked for, or nothing left.
  lemma FractionEnd(x: int, t: nat, i: nat, d: int, f: int, frac: nat, up: bool)
    requires InFraction(x, t, i, d, f) && i <= frac && (i == frac || f == 0)
    requires up <==> 2 * f >= Pow2(t - i)
    ensures Rounded(x, t, frac) == (d + if up then 1 else 0) * Ten(frac - i)
  {
    hide Pow2, Five, Ten, InFraction;
    var w, p := Ten(frac - i), Pow2(t);
    Expanded(x, t, i, d, f);
    Pow2Add(i, t - i);
    Pow2Next(t);
    TenZero();
    if i == frac {
      RoundQuotient(x * Ten(frac), d, p, f * Pow2(i), f, Pow2(t - i), Pow2(i), up);
    } else {
      TenAdd(i, frac - i);
      TimesTen(x, Ten(i), d, p, w);
      RoundQuotient(x * Ten(frac), d * w, p, 0, 0, Pow2(t - i), Pow2(i), false);
    }
  }

  lemma Expanded(x: int, t: nat, i: nat, d: int, f: int)
    requires InFraction(x, t, i, d, f)
    ensures i <= t && 0 <= f < Pow2(t - i) && x * Ten(i) == d * Pow2(t) + f * Pow2(i)
  {
    hide Pow2, Five, Ten;
    Pow2Add(i, t - i);
    TenParts(i);
    ExpandedBy(x, Five(i), d, Pow2(t - i), f, Pow2(i));
  }

  lemma ExpandedBy(x: int, a: int, d: int, m: int, f: int, k: int)
    requires x * a == d * m + f
    ensures x * (a * k) == d * (k * m) + f * k
  {
    MulAssoc(x, a, k);
    Distribute(d, m, f, k);
  }

  lemma TimesTen(x: int, a: int, d: int, p: int, w: int)
    requires x * a == d * p
    ensures x * (a * w) == d * w * p
  {
    MulAssoc(x, a, w);
    assert d * p * w == d * w * p;
  }

  // y == d * p + e with e == f * k below p == k * m.
  lemma RoundQuotient(y: int, d: int, p: int, e: int, f: int, m: int, k: int, up: bool)
    requires p > 0 && k > 0 && p == k * m && e == f * k && 0 <= f < m && y == d * p + e && (up <==> 2 * f >= m)
    ensures (2 * y + p) / (2 * p) == d + if up then 1 else 0
  {
    MulOrder(0, f, k);
    if up {
      MulOrder(m, 2 * f, k);
      MulStep(f, m, k);
      DivModOf(2 * y + p, d + 1, 2 * p, 2 * e - p);
    } else {
      MulStep(2 * f, m, k);
      DivModOf(2 * y + p, d, 2 * p, 2 * e + p);
    }
  }

  // The text so far: the number it denotes, without the point.
  ghost predicate Text(start: array<char>, length: nat, d: int)
    reads start
  {
    length <= start.Length && AllDigits(start[..length]) && Number(start[..length]) == d
  }

  method WriteDigit(start: array<char>, length: nat, digit: nat, ghost d: int)
    requires Text(start, length, d) && length < start.Length && digit <= 9
    modifies start
    ensures Text(start, length + 1, 10 * d + digit)
  {
    start[length] := DigitChar(digit);
    assert start[..length + 1] == old(start[..length]) + [start[length]];
    NumberAppend(old(start[..length]), start[length]);
  }

  // The rounded digits and the point: together x / 2^t with frac digits.
  ghost predicate Printed(start: array<char>, size: nat, point: int, n: int, frac: nat)
    reads start
  {
    && size <= start.Length && AllDigits(start[..size]) && size <= point + frac
    && Number(start[..size]) * Ten(point + frac - size) == n
  }

  // The last step: rounding up if half a unit or more is left.
  method Finish(start: array<char>, length: nat, point0: nat, up: bool, ghost x: int, ghost t: nat, ghost d: int,
                ghost f: int, frac: nat)
    returns (size: nat, point: int)
    requires Text(start, length, d) && length < start.Length && point0 <= length <= point0 + frac
    requires InFraction(x, t, length - point0, d, f) && (length == point0 + frac || f == 0)
    requires up <==> 2 * f >= Pow2(t - (length - point0))
    modifies start
    ensures Printed(start, size, point, Rounded(x, t, frac), frac)
  {
    hide Rounded, Pow2;
    ghost var i := length - point0;
    FractionEnd(x, t, i, d, f, frac, up);
    size, point := length, point0;
    if up {
      assert f > 0 by {
        PowPositive(t - i);
      }
      size, point := RoundUp(start, length, point0);
      assert start[..0] == [];
      if length == 0 {
        assert Text(start, 1, 1);
        assert point + frac - size == 0;
      } else {
        RoundedTens(Number(start[..size]), point - point0, d + 1, frac - i);
      }
    }
  }

  lemma PowPositive(n: nat)
    ensures Pow2(n) > 0
  {
  }

  // length == point0 + frac when rounding up, so only the moved point matters.
  lemma RoundedTens(a: int, k: nat, b: int, e: nat)
    requires a * Ten(k) == b
    ensures a * Ten(k + e) == b * Ten(e)
  {
    TenAdd(k, e);
    MulAssoc(a, Ten(k), Ten(e));
  }

  // ----- the fraction digits, in 64 bits and in 128 -----

  method FillFractionals64(fractionals0: nat, exponent: int, frac: nat, start: array<char>, length: nat, ghost d0: int)
    returns (size: nat, point: int)
    requires -64 <= exponent <= 0 && fractionals0 < 2 * HIDDEN_BIT && fractionals0 < Pow2(-exponent)
    requires Text(start, length, d0) && d0 >= 0 && length + frac < start.Length && frac <= 100
    modifies start
    ensures Printed(start, size, point, Rounded(d0 * Pow2(-exponent) + fractionals0, -exponent, frac), frac)
  {
    hide Pow2, Rounded, Ten, InFraction;
    var fractionals, n, i := fractionals0, -exponent, 0;
    ghost var t: nat, x, d := -exponent, d0 * Pow2(-exponent) + fractionals0, d0;
    FractionStart(x, t, d0, fractionals0);
    while i < frac && fractionals != 0
      invariant 0 <= i <= frac && n == t - i && InFraction(x, t, i, d, fractionals)
      invariant Text(start, length + i, d) && fractionals >= 0
      invariant i <= 2 ==> fractionals < 2 * HIDDEN_BIT * 25
      invariant i == 0 ==> fractionals < 2 * HIDDEN_BIT
      invariant i == 1 ==> fractionals < 2 * HIDDEN_BIT * 5
    {
      NoOverflow(x, t, i, d, fractionals);
      var digit;
      n := n - 1;
      digit, fractionals := NextDigit64(fractionals, n, x, t, i, d);
      WriteDigit(start, length + i, digit, d);
      d := 10 * d + digit;
      i := i + 1;
    }
    FractionBound(x, t, i, d, fractionals);
    var up := n > 0 && fractionals / Pow2(n - 1) % 2 == 1;
    HalfBit(fractionals, n);
    size, point := Finish(start, length + i, length, up, x, t, d, fractionals, frac);
  }

  lemma FractionStart(x: int, t: nat, d: int, f: int)
    requires d >= 0 && 0 <= f < Pow2(t) && x == d * Pow2(t) + f
    ensures InFraction(x, t, 0, d, f)
  {
    assert Five(0) == 1;
  }

  lemma Pow2Positive(n: nat)
    ensures Pow2(n) >= 1
  {
  }

  lemma QuotientLeft(a: int, m: int)
    requires m > 0
    ensures a - a / m * m == a % m
  {
  }

  // The next digit: multiplying by five and moving the point by one bit stands
  // for multiplying by ten.
  method NextDigit64(f: nat, n: nat, ghost x: int, ghost t: nat, ghost i: nat, ghost d: int)
    returns (digit: nat, left: nat)
    requires InFraction(x, t, i, d, f) && f > 0 && n == t - i - 1 && f * 5 < WORD
    ensures digit <= 9 && left <= 5 * f && InFraction(x, t, i + 1, 10 * d + digit, left)
  {
    hide Pow2, InFraction;
    FractionDigit(x, t, i, d, f);
    var f5 := f * 5;
    Pow2Positive(n);
    digit := f5 / Pow2(n);
    QuotientLeft(f5, Pow2(n));
    left := f5 - digit * Pow2(n);
  }

  method NextDigit128(f: W.U128, n: nat, ghost x: int, ghost i: nat, ghost d: int) returns (digit: nat, left: W.U128)
    requires W.Fits(f) && i < 128 && InFraction(x, 128, i, d, W.Full(f)) && W.Full(f) > 0 && n == 128 - i - 1 && n > 0
    requires i <= 2 ==> W.Full(f) < 25 * Pow2(117)
    ensures W.Fits(left) && W.Full(left) <= 5 * W.Full(f)
    ensures digit <= 9 && InFraction(x, 128, i + 1, 10 * d + digit, W.Full(left))
  {
    hide Pow2, InFraction, W.Mul, W.DivModPow2, W.Full;
    FractionDigit(x, 128, i, d, W.Full(f));
    FractionBound(x, 128, i, d, W.Full(f));
    WideRoom(W.Full(f), i);
    W.MulFull(f, 5);
    var f5 := W.Mul(f, 5);
    WideDigit(W.Full(f), n);
    W.DivModFull(f5, n);
    var qr := W.DivModPow2(f5, n);
    DivModOf(5 * W.Full(f), qr.0, Pow2(n), W.Full(qr.1));
    digit, left := qr.0, qr.1;
    Pow2Positive(n);
    MulOrder(0, qr.0, Pow2(n));
  }

  lemma FractionBound(x: int, t: nat, i: nat, d: int, f: int)
    requires InFraction(x, t, i, d, f)
    ensures i <= t && 0 <= f < Pow2(t - i)
  {
  }

  lemma NoOverflow(x: int, t: nat, i: nat, d: int, f: int)
    requires t <= 64 && InFraction(x, t, i, d, f) && f > 0 && (i <= 2 ==> f < 2 * HIDDEN_BIT * 25)
    ensures i < t && f * 5 < WORD
  {
    FractionDigit(x, t, i, d, f);
    hide Pow2;
    if i > 2 {
      Pow2Order(t - i, 61);
      Pow2Values();
      Pow2Next(60);
    }
  }

  // The highest bit of what is left is half a unit.
  lemma HalfBit(f: int, n: nat)
    requires 0 <= f < Pow2(n)
    ensures (n > 0 && f / Pow2(n - 1) % 2 == 1) <==> 2 * f >= Pow2(n)
  {
    if n > 0 {
      Pow2Next(n - 1);
      W.TopOf(f, Pow2(n - 1));
    }
  }

  method FillFractionals128(fractionals0: nat, exponent: int, frac: nat, start: array<char>)
    returns (size: nat, point: int)
    requires -128 <= exponent < -64 && fractionals0 < 2 * HIDDEN_BIT && frac <= 100 && frac < start.Length
    modifies start
    ensures Printed(start, size, point, Rounded(fractionals0 * Pow2(128 + exponent), 128, frac), frac)
  {
    hide Pow2, Rounded, Ten, W.Mul, W.DivModPow2, W.BitAt, W.Shift, W.Full, InFraction;
    W.ShiftWhole(fractionals0, -exponent - 64);
    var fractionals := W.Shift(W.U128(fractionals0, 0), -exponent - 64);
    var n, i := 128, 0;
    ghost var x, d := W.Full(fractionals), 0;
    WideStart(fractionals0, exponent, x);
    assert start[..0] == [] && Number([]) == 0;
    while i < frac && !(fractionals.low == 0 && fractionals.high == 0)
      invariant 0 <= i <= frac && n == 128 - i && W.Fits(fractionals)
      invariant InFraction(x, 128, i, d, W.Full(fractionals))
      invariant Text(start, i, d)
      invariant i <= 2 ==> W.Full(fractionals) < 25 * Pow2(117)
      invariant i == 0 ==> W.Full(fractionals) < Pow2(117)
      invariant i == 1 ==> W.Full(fractionals) < 5 * Pow2(117)
    {
      NotZero(fractionals);
      var digit;
      n := n - 1;
      digit, fractionals := NextDigit128(fractionals, n, x, i, d);
      WriteDigit(start, i, digit, d);
      d := 10 * d + digit;
      i := i + 1;
    }
    Zero(fractionals);
    FractionBound(x, 128, i, d, W.Full(fractionals));
    W.TopBit(fractionals, n - 1);
    Pow2Next(n - 1);
    size, point := Finish(start, i, 0, W.BitAt(fractionals, n - 1) == 1, x, 128, d, W.Full(fractionals), frac);
  }

  lemma WideStart(f: nat, exponent: int, x: int)
    requires -128 <= exponent < -64 && f < 2 * HIDDEN_BIT && x == f * Pow2(128 + exponent)
    ensures InFraction(x, 128, 0, 0, x) && x < Pow2(117)
  {
    hide Pow2;
    Pow2Values();
    Pow2Next(52);
    Pow2Add(53, 64);
    Pow2Order(128 + exponent, 63);
    Pow2Next(63);
    MulOrder(0, f, Pow2(128 + exponent));
    MulStep(f, 2 * HIDDEN_BIT, Pow2(128 + exponent));
    MulOrder(Pow2(128 + exponent), Pow2(64), 2 * HIDDEN_BIT);
    Pow2Order(117, 128);
    assert Five(0) == 1;
  }

  lemma NotZero(v: W.U128)
    requires W.Fits(v) && !(v.low == 0 && v.high == 0)
    ensures W.Full(v) > 0
  {
  }

  lemma Zero(v: W.U128)
    ensures v.low == 0 && v.high == 0 ==> W.Full(v) == 0
  {
  }

  lemma WideRoom(f: int, i: nat)
    requires i < 128 && 0 <= f < Pow2(128 - i) && (i <= 2 ==> f < 25 * Pow2(117))
    ensures f * 5 < W.WORD * W.WORD
  {
    hide Pow2;
    Pow2Values();
    Pow2Add(64, 64);
    Pow2Add(117, 8);
    Pow2Small();
    Pow2Next(125); Pow2Next(126); Pow2Next(127);
    if i > 2 {
      Pow2Order(128 - i, 125);
    }
  }

  lemma WideDigit(f: int, n: nat)
    requires 0 <= f < Pow2(n + 1)
    ensures 5 * f < 10 * Pow2(n)
  {
  }

  // ----- zeroes -----

  // Zeroes at the end are dropped, and those at the beginning with the point.
  method TrimZeroes(start: array<char>, length: nat, point: int, ghost n: int, ghost frac: nat)
    returns (size: nat, point': int)
    requires Printed(start, length, point, n, frac)
    modifies start
    ensures size <= length <= start.Length && (size > 0 ==> Printed(start, size, point', n, frac))
    ensures size == 0 <==> n == 0
    ensures size > 0 ==> start[0] != '0' && start[size - 1] != '0'
  {
    size, point' := length, point;
    while size > 0 && start[size - 1] == '0'
      invariant 0 <= size <= length && Printed(start, size, point, n, frac) && start[..length] == old(start[..length])
    {
      LastZero(start[..size], start[..size - 1], point + frac - size);
      size := size - 1;
    }
    var z := 0;
    while z < size && start[z] == '0'
      invariant 0 <= z <= size && forall k | 0 <= k < z :: start[k] == '0'
    {
      z := z + 1;
    }
    SomeDigit(start[..size], z);
    TenPositive(n, Number(start[..size]), point + frac - size);
    if z != 0 {
      ghost var s := start[..size];
      MoveDown(start, z, size);
      size, point' := size - z, point - z;
      FirstZeroes(s, z);
    }
  }

  method MoveDown(start: array<char>, z: nat, size: nat)
    requires 0 < z <= size <= start.Length
    modifies start
    ensures start[..size - z] == old(start[z..size])
  {
    ghost var s := start[..size];
    for i := z to size
      invariant forall k | 0 <= k < i - z :: start[k] == s[z + k]
      invariant forall k | i <= k < size :: start[k] == s[k]
    {
      start[i - z] := start[i];
    }
    assert start[..size - z] == s[z..];
  }

  lemma LastZero(s: seq<char>, t: seq<char>, e: nat)
    requires s == t + ['0']
    ensures Number(s) * Ten(e) == Number(t) * Ten(e + 1)
  {
    NumberAppend(t, '0');
    MulAssoc(Number(t), 10, Ten(e));
  }

  // The number is zero exactly when there are no other digits.
  lemma SomeDigit(s: seq<char>, z: nat)
    requires AllDigits(s) && z <= |s| && (forall k | 0 <= k < z :: s[k] == '0') && (z < |s| ==> s[z] != '0')
    requires |s| > 0 ==> s[|s| - 1] != '0'
    ensures z == |s| <==> s == []
    ensures Number(s) == 0 <==> s == []
    ensures Number(s) >= 0
  {
    NumberBound(s);
    if s != [] {
      var t := s[..|s| - 1];
      NumberBound(t);
    }
  }

  lemma TenPositive(n: int, a: int, e: nat)
    requires a * Ten(e) == n && a >= 0
    ensures n == 0 <==> a == 0
  {
    MulOrder(1, Ten(e), a);
  }

  lemma {:induction false} FirstZeroes(s: seq<char>, z: nat)
    requires z <= |s| && forall k | 0 <= k < z :: s[k] == '0'
    ensures Number(s[z..]) == Number(s)
  {
    if z == 0 {
      assert s[0..] == s;
    } else {
      assert s == ['0'] + s[1..] && s[z..] == s[1..][z - 1..];
      NumberPrepend('0', s[1..]);
      FirstZeroes(s[1..], z - 1);
    }
  }

  // ----- the whole -----

  // The double times 10^frac, rounded to the nearest integer, half upwards.
  function Nearest(v: DiyFp, frac: nat): int {
    if v.exp >= 0 then v.significand * Pow2(v.exp) * Ten(frac) else Rounded(v.significand, -v.exp, frac)
  }

  const FIVE17 := 0xB1_A2BC_2EC5

  method Digits(significand: nat, exponent: int, frac: nat, start: array<char>) returns (size: nat, point: int)
    requires HIDDEN_BIT <= significand < 2 * HIDDEN_BIT && -128 <= exponent <= 20 && frac <= 100 && start.Length >= 200
    modifies start
    ensures Printed(start, size, point, Nearest(DiyFp(significand, exponent), frac), frac)
  {
    hide Nearest, Rounded, Pow2, Ten, Number, Printed;
    ghost var v := DiyFp(significand, exponent);
    if exponent + 53 > 64 {
      size := LargeInteger(significand, exponent, start);
      point := size;
      IntegerPrinted(v, frac, start, size);
    } else if exponent >= 0 {
      size := MediumInteger(significand, exponent, start);
      point := size;
      IntegerPrinted(v, frac, start, size);
    } else if exponent > -53 {
      size, point := WithFraction(significand, exponent, frac, start);
      NearestRounded(v, frac);
    } else {
      size, point := SmallFraction(significand, exponent, frac, start);
      NearestRounded(v, frac);
    }
  }

  // Below half of the last place: significand * 2^exp * 10^frac < 1/2.
  predicate BelowHalf(v: DiyFp, frac: nat)
    requires v.exp <= 0
  {
    2 * v.significand * Ten(frac) < Pow2(0 - v.exp)
  }

  lemma RoundsToZero(v: DiyFp, frac: nat)
    requires v.exp < 0 && v.significand >= 0
    ensures Nearest(v, frac) == 0 <==> BelowHalf(v, frac)
  {
    hide Pow2, Ten;
    var x, p := v.significand * Ten(frac), Pow2(0 - v.exp);
    Pow2Next(0 - v.exp);
    MulOrder(0, v.significand, Ten(frac));
    assert Nearest(v, frac) == (2 * x + p) / (2 * p);
    assert 2 * v.significand * Ten(frac) == 2 * x;
    if 2 * x < p {
      DivModOf(2 * x + p, 0, 2 * p, 2 * x + p);
    } else {
      var q, r := (2 * x + p) / (2 * p), (2 * x + p) % (2 * p);
      assert 2 * x + p == q * (2 * p) + r;
      if q <= 0 {
        MulOrder(q, 0, 2 * p);
      }
    }
  }

  // 2^-77 to 26 places is not zero, and is printed as zero.
  lemma SmallDouble()
    ensures var v := FromDouble(946 * HIDDEN_BIT);
            v == DiyFp(HIDDEN_BIT, -129) && !BelowHalf(v, 26) && Nearest(v, 26) > 0
  {
    hide Pow2, Ten, Nearest, DoubleValue, Value;
    var v := FromDouble(946 * HIDDEN_BIT);
    assert v == DiyFp(HIDDEN_BIT, -129);
    TenAbovePow2(26);
    Pow2Values();
    Pow2Next(52);
    Pow2Add(53, 78);
    Pow2Order(129, 131);
    MulOrder(Pow2(78), Ten(26), 2 * HIDDEN_BIT);
    RoundsToZero(v, 26);
    NearestPositive(v, 26);
  }

  lemma NearestPositive(v: DiyFp, frac: nat)
    requires v.exp < 0 && v.significand >= 0
    ensures Nearest(v, frac) >= 0
  {
    hide Pow2, Ten;
    MulOrder(0, v.significand, Ten(frac));
  }

  lemma {:induction false} TenAbovePow2(n: nat)
    ensures Ten(n) >= Pow2(3 * n)
  {
    if n > 0 {
      TenAbovePow2(n - 1);
      Pow2Add(3, 3 * (n - 1));
      Pow2Eight();
    }
  }

  // The digits of the double and the place of the point.  They are those of the
  // nearest number with frac places, but doubles below 2^-75 are printed as zero,
  // which they are near only when below half of the last place.
  method FixedDtoa(bits: nat, frac: nat, start: array<char>) returns (size: nat, point: int)
    requires bits <= MAX_BITS && FromDouble(bits).exp <= 20 && frac <= 100 && start.Length >= 200
    modifies start
    ensures size <= start.Length
    ensures Printed(start, size, point, Nearest(FromDouble(bits), frac), frac)
            <==> FromDouble(bits).exp >= -128 || BelowHalf(FromDouble(bits), frac)
    ensures size > 0 ==> start[0] != '0' && start[size - 1] != '0'
    ensures FromDouble(bits).exp < -128 ==> size == 0 && point == 0 - frac
  {
    hide Nearest, Rounded, Pow2, Ten, Number, FromDouble, Printed, Value, DoubleValue, BelowHalf;
    var v := FromDouble(bits);
    ghost var n := Nearest(v, frac);
    if v.exp < -128 {
      size, point := 0, 0 - frac;
      NothingPrinted(start, n, frac);
      RoundsToZero(v, frac);
      return;
    }
    size, point := Digits(v.significand, v.exp, frac, start);
    size, point := TrimZeroes(start, size, point, n, frac);
    if size == 0 {
      point := 0 - frac;
      NothingPrinted(start, n, frac);
    }
  }

  lemma NothingPrinted(start: array<char>, n: int, frac: nat)
    ensures Printed(start, 0, 0 - frac, n, frac) <==> n == 0
  {
    assert start[..0] == [];
  }

  lemma IntegerPrinted(v: DiyFp, frac: nat, start: array<char>, size: nat)
    requires v.exp >= 0 && size <= start.Length && AllDigits(start[..size])
    requires Number(start[..size]) == v.significand * Pow2(v.exp)
    ensures Printed(start, size, size, Nearest(v, frac), frac)
  {
    hide Pow2, Ten, Number;
  }

  lemma NearestRounded(v: DiyFp, frac: nat)
    requires v.exp < 0
    ensures Nearest(v, frac) == Rounded(v.significand, -v.exp, frac)
  {
  }

  // More than 64 bits: split at 10^17.
  method LargeInteger(significand: nat, exponent: int, start: array<char>) returns (size: nat)
    requires HIDDEN_BIT <= significand < 2 * HIDDEN_BIT && 12 <= exponent <= 20 && start.Length >= 40
    modifies start
    ensures size <= 37 && AllDigits(start[..size]) && Number(start[..size]) == significand * Pow2(exponent)
  {
    var quotient, remainder;
    if exponent > 17 {
      var dividend := significand * Pow2(exponent - 17);
      quotient, remainder := dividend / FIVE17, dividend % FIVE17 * Pow2(17);
      SplitHigh(significand, exponent, dividend);
    } else {
      var divisor := FIVE17 * Pow2(17 - exponent);
      quotient, remainder := significand / divisor, significand % divisor * Pow2(exponent);
      SplitLow(significand, exponent, divisor);
    }
    TenOrder(6, 20);
    size := FillDigits32(quotient, start, 0);
    assert start[0..size] == start[..size];
    size := FillDigits64Fixed(remainder, start, size);
  }

  lemma Powers17()
    ensures Pow2(17) == 131072 && Ten(17) == FIVE17 * 131072 && Ten(6) == 1000000
  {
    Pow2Small();
    Pow2Add(8, 8);
    Pow2Next(16);
    SeventeenDigits(0);
  }

  lemma SplitHigh(f: nat, e: int, dividend: int)
    requires HIDDEN_BIT <= f < 2 * HIDDEN_BIT && 18 <= e <= 20 && dividend == f * Pow2(e - 17)
    ensures var q, r := dividend / FIVE17, dividend % FIVE17 * Pow2(17);
            && 0 < q < Ten(6) && 0 <= r < Ten(17) && q * Ten(17) + r == f * Pow2(e)
  {
    hide Pow2, Ten;
    Powers17();
    Pow2Add(e - 17, 17);
    Pow2Order(0, e - 17);
    Pow2Order(e - 17, 3);
    Pow2Eight();
    MulAssoc(f, Pow2(e - 17), Pow2(17));
    MulOrder(1, Pow2(e - 17), f);
    MulOrder(Pow2(e - 17), 8, f);
  }

  lemma Pow2Eight()
    ensures Pow2(0) == 1 && Pow2(3) == 8 && Pow2(5) == 32
  {
  }

  lemma SplitLow(f: nat, e: int, divisor: int)
    requires HIDDEN_BIT <= f < 2 * HIDDEN_BIT && 12 <= e <= 17 && divisor == FIVE17 * Pow2(17 - e)
    ensures divisor > 0
    ensures var q, r := f / divisor, f % divisor * Pow2(e);
            && 0 < q < Ten(6) && 0 <= r < Ten(17) && q * Ten(17) + r == f * Pow2(e)
  {
    hide Pow2, Ten;
    Powers17();
    Pow2Eight();
    var k, m := Pow2(17 - e), Pow2(e);
    Pow2Add(17 - e, e);
    Pow2Order(0, 17 - e);
    Pow2Order(17 - e, 5);
    var q, r := f / divisor, f % divisor;
    assert f == q * divisor + r;
    MulAssoc(FIVE17, k, m);
    Distribute(q, divisor, r, m);
    MulOrder(0, r, m);
    MulStep(r, divisor, m);
    QuotientRange(f, divisor);
  }

  lemma QuotientRange(f: nat, divisor: int)
    requires HIDDEN_BIT <= f < 2 * HIDDEN_BIT && FIVE17 <= divisor <= 32 * FIVE17
    ensures 0 < f / divisor < 1000000
  {
    QuotientBound(f, divisor, 1000000);
    assert f == f / divisor * divisor + f % divisor;
  }

  // Up to 64 bits.
  method MediumInteger(significand: nat, exponent: int, start: array<char>) returns (size: nat)
    requires HIDDEN_BIT <= significand < 2 * HIDDEN_BIT && 0 <= exponent <= 11 && start.Length >= 40
    modifies start
    ensures size <= 34 && AllDigits(start[..size]) && Number(start[..size]) == significand * Pow2(exponent)
  {
    MediumFits(significand, exponent);
    size := FillDigits64(significand * Pow2(exponent), start, 0);
    assert start[0..size] == start[..size];
  }

  lemma MediumFits(f: nat, e: int)
    requires HIDDEN_BIT <= f < 2 * HIDDEN_BIT && 0 <= e <= 11
    ensures 0 < f * Pow2(e) < WORD
  {
    hide Pow2;
    Pow2Order(0, e);
    Pow2Order(e, 11);
    Pow2Small();
    Pow2Next(10);
    Pow2Eight();
    MulOrder(1, Pow2(e), f);
    MulOrder(Pow2(e), 2048, f);
  }

  // Digits before the point and after it.
  method WithFraction(significand: nat, exponent: int, frac: nat, start: array<char>) returns (size: nat, point: int)
    requires HIDDEN_BIT <= significand < 2 * HIDDEN_BIT && -52 <= exponent < 0 && frac <= 100 && start.Length >= 200
    modifies start
    ensures Printed(start, size, point, Rounded(significand, -exponent, frac), frac)
  {
    hide Pow2, Rounded;
    var one := Pow2(-exponent);
    IntegralPart(significand, -exponent);
    var integral := significand / one;
    var fract := significand - integral * one;
    if integral > 0xFFFF_FFFF {
      size := FillDigits64(integral, start, 0);
    } else {
      TenOrder(10, 20);
      size := FillDigits32(integral, start, 0);
    }
    assert start[0..size] == start[..size];
    size, point := FillFractionals64(fract, exponent, frac, start, size, integral);
  }

  lemma IntegralPart(f: nat, n: nat)
    requires HIDDEN_BIT <= f < 2 * HIDDEN_BIT && 0 < n <= 52
    ensures var one := Pow2(n);
            && one > 0 && 0 < f / one < 2 * HIDDEN_BIT && 0 <= f - f / one * one < one
            && f - f / one * one < 2 * HIDDEN_BIT
            && f / one * one + (f - f / one * one) == f
    ensures Ten(10) > 0xFFFF_FFFF
  {
    hide Pow2;
    Pow2Order(n, 52);
    Pow2Values();
    var one := Pow2(n);
    QuotientLeft(f, one);
    MulOrder(1, one, f / one);
    assert f == f / one * one + f % one;
    TenAdd(5, 5);
    assert Ten(5) == 100000;
  }

  // Only digits after the point.
  method SmallFraction(significand: nat, exponent: int, frac: nat, start: array<char>) returns (size: nat, point: int)
    requires HIDDEN_BIT <= significand < 2 * HIDDEN_BIT && -128 <= exponent <= -53 && frac <= 100 && start.Length >= 200
    modifies start
    ensures Printed(start, size, point, Rounded(significand, -exponent, frac), frac)
  {
    hide Pow2, Rounded;
    if -exponent <= 64 {
      assert start[..0] == [] && Number([]) == 0;
      Pow2Order(53, -exponent);
      Pow2Values();
      Pow2Next(52);
      size, point := FillFractionals64(significand, exponent, frac, start, 0, 0);
    } else {
      size, point := FillFractionals128(significand, exponent, frac, start);
      RoundedScales(significand, -exponent, 128 + exponent, frac);
    }
  }

  // Rounding does not depend on the unit.
  lemma RoundedScales(x: int, t: nat, k: nat, frac: nat)
    ensures Rounded(x * Pow2(k), t + k, frac) == Rounded(x, t, frac)
  {
    hide Pow2, Ten;
    var m, p, y := Pow2(k), Pow2(t), x * Ten(frac);
    Pow2Add(t, k);
    Pow2Next(t);
    Pow2Next(t + k);
    assert x * m * Ten(frac) == y * m;
    Cancelling(2 * y + p, 2 * p, m);
    assert (2 * y + p) * m == 2 * (y * m) + p * m;
    assert 2 * p * m == 2 * (p * m);
  }

  lemma Cancelling(a: int, b: int, m: int)
    requires b > 0 && m > 0
    ensures b * m > 0 && a * m / (b * m) == a / b
  {
    var q, r := a / b, a % b;
    MulOrder(1, m, b);
    MulStep(r, b, m);
    MulOrder(0, r, m);
    Distribute(q, b, r, m);
    DivModOf(a * m, q, b * m, r * m);
  }
}
