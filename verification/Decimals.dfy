// Decimal digits in text, and the integer powers of ten.
module Decimals {
  import opened Arithmetic

  function Ten(n: nat): (r: int)
    ensures r >= 1
  {
    if n == 0 then 1 else 10 * Ten(n - 1)
  }

  lemma TenZero()
    ensures Ten(0) == 1
  {
  }

  lemma TenNext(n: nat)
    ensures Ten(n + 1) == 10 * Ten(n)
  {
  }

  lemma {:induction false} TenAdd(a: nat, b: nat)
    ensures Ten(a + b) == Ten(a) * Ten(b)
  {
    if a > 0 {
      TenAdd(a - 1, b);
      MulAssoc(10, Ten(a - 1), Ten(b));
    }
  }

  lemma {:induction false} TenOrder(a: nat, b: nat)
    requires a <= b
    ensures Ten(a) <= Ten(b)
    decreases b - a
  {
    if a < b {
      TenOrder(a + 1, b);
    }
  }

  predicate IsDigit(c: char) { '0' <= c <= '9' }

  predicate AllDigits(s: seq<char>) { forall i | 0 <= i < |s| :: IsDigit(s[i]) }

  function DigitValue(c: char): int { c as int - '0' as int }

  function DigitChar(d: nat): (c: char)
    requires d <= 9
    ensures IsDigit(c) && DigitValue(c) == d
  {
    '0' + d as char
  }

  // The number a text of digits denotes.
  function Number(s: seq<char>): int {
    if s == [] then 0 else 10 * Number(s[..|s| - 1]) + DigitValue(s[|s| - 1])
  }

  lemma NumberAppend(s: seq<char>, c: char)
    ensures Number(s + [c]) == 10 * Number(s) + DigitValue(c)
  {
    assert (s + [c])[..|s|] == s;
  }

  lemma {:induction false} NumberBound(s: seq<char>)
    requires AllDigits(s)
    ensures 0 <= Number(s) < Ten(|s|)
  {
    if s != [] {
      NumberBound(s[..|s| - 1]);
    }
  }
}
