// The text a printed number is laid out in, and what it denotes to a reader.
module NumberText {
  import opened Arithmetic
  import opened Decimals
  import opened RealPowers

  function IndexOf(s: seq<char>, c: char): (i: nat)
    ensures i <= |s| && (i < |s| ==> s[i] == c) && forall k | 0 <= k < i :: s[k] != c
  {
    if s == [] || s[0] == c then 0 else 1 + IndexOf(s[1..], c)
  }

  lemma IndexAt(s: seq<char>, c: char, i: nat)
    requires i <= |s| && (i < |s| ==> s[i] == c) && forall k | 0 <= k < i :: s[k] != c
    ensures IndexOf(s, c) == i
  {
  }

  function SignedNumber(s: seq<char>): int {
    if s == [] then 0 else if s[0] == '-' then -Number(s[1..]) else Number(s[1..])
  }

  // A reader's view: digits, perhaps a point and more digits, perhaps an exponent.
  ghost function TextValue(text: seq<char>): real {
    var e := IndexOf(text, 'e');
    var exp := if e == |text| then 0 else SignedNumber(text[e + 1..]);
    var dot := IndexOf(text[..e], '.');
    var fraction := if dot == e then [] else text[dot + 1..e];
    Scaled(Number(text[..dot] + fraction), exp - |fraction|)
  }

  function Zeros(n: int): seq<char> { seq(if n > 0 then n else 0, i => '0') }

  lemma {:induction false} NumberZeros(s: seq<char>, n: nat)
    ensures Number(s + Zeros(n)) == Number(s) * Ten(n)
  {
    if n == 0 {
      assert s + Zeros(0) == s;
    } else {
      NumberZeros(s, n - 1);
      assert s + Zeros(n) == (s + Zeros(n - 1)) + ['0'];
      NumberAppend(s + Zeros(n - 1), '0');
      MulAssoc(Number(s), Ten(n - 1), 10);
    }
  }

  lemma {:induction false} ZerosBefore(s: seq<char>, n: nat)
    ensures Number(Zeros(n) + s) == Number(s)
  {
    if s == [] {
      assert Zeros(n) + s == [] + Zeros(n);
      NumberZeros([], n);
    } else {
      assert (Zeros(n) + s)[..n + |s| - 1] == Zeros(n) + s[..|s| - 1];
      ZerosBefore(s[..|s| - 1], n);
    }
  }

  // ----- the exponent -----

  function ExponentDigits(n: nat): (s: seq<char>)
    ensures AllDigits(s) && |s| >= 1
  {
    if n < 10 then [DigitChar(n)] else ExponentDigits(n / 10) + [DigitChar(n % 10)]
  }

  lemma {:induction false} ExponentNumber(n: nat)
    ensures Number(ExponentDigits(n)) == n
  {
    if n < 10 {
      assert ExponentDigits(n) == [] + [DigitChar(n)];
      NumberAppend([], DigitChar(n));
    } else {
      ExponentNumber(n / 10);
      NumberAppend(ExponentDigits(n / 10), DigitChar(n % 10));
    }
  }

  function Exponent(exp: int): (s: seq<char>)
    ensures |s| >= 2 && SignedNumber(s) == exp
  {
    ExponentNumber(if exp < 0 then -exp else exp);
    var s := [if exp < 0 then '-' else '+'] + ExponentDigits(if exp < 0 then -exp else exp);
    assert s[1..] == ExponentDigits(if exp < 0 then -exp else exp);
    s
  }

  // The digits are written backwards into a small buffer first.
  method WriteExponent(exp: int, start: array<char>, at: nat) returns (size: nat)
    requires -9999 <= exp <= 9999 && at + 5 <= start.Length
    modifies start
    ensures size == |Exponent(exp)| <= 5 && start[at..at + size] == Exponent(exp)
    ensures start[..at] == old(start[..at])
  {
    hide Exponent, ExponentDigits;
    start[at] := if exp < 0 then '-' else '+';
    var n: nat := if exp < 0 then -exp else exp;
    var buf := new char[4];
    var p := FillBuffer(n, buf);
    ghost var was := start[..];
    forall i | 0 <= i < 4 - p {
      start[at + 1 + i] := buf[p + i];
    }
    size := 4 - p + 1;
    assert start[at..at + size] == [was[at]] + buf[p..];
    ExponentText(exp);
    assert start[..at] == was[..at];
  }

  method FillBuffer(n: nat, buf: array<char>) returns (p: nat)
    requires n <= 9999 && buf.Length == 4
    modifies buf
    ensures p <= 4 && buf[p..] == ExponentDigits(n)
  {
    hide Ten, ExponentDigits;
    ghost var digits := ExponentDigits(n);
    FourDigits(n);
    p := 4;
    var left := n;
    assert digits + buf[p..] == digits;
    while p == 4 || left != 0
      invariant 0 <= p <= 4 && 0 <= left
      invariant p < 4 && left == 0 ==> buf[p..] == digits
      invariant p == 4 || left != 0 ==> left < Ten(p) && ExponentDigits(left) + buf[p..] == digits
      decreases p
    {
      LastDigit(left, p, buf[p..], digits);
      p := p - 1;
      buf[p] := DigitChar(left % 10);
      left := left / 10;
      assert buf[p..] == [buf[p]] + buf[p + 1..];
    }
  }

  lemma LastDigit(left: nat, p: nat, tail: seq<char>, digits: seq<char>)
    requires left < Ten(p) && (p == 4 || left != 0) && ExponentDigits(left) + tail == digits
    ensures p >= 1 && left / 10 < Ten(p - 1)
    ensures var t := [DigitChar(left % 10)] + tail;
            if left / 10 == 0 then t == digits else ExponentDigits(left / 10) + t == digits
  {
    hide Ten;
    TenZero();
    if p > 0 {
      TenNext(p - 1);
    }
  }

  lemma ExponentText(exp: int)
    ensures Exponent(exp)
            == [if exp < 0 then '-' else '+'] + ExponentDigits(if exp < 0 then -exp else exp)
  {
  }

  lemma FourDigits(n: nat)
    ensures n < 10000 ==> n < Ten(4)
  {
  }

  // ----- the layout -----

  function Layout(digits: seq<char>, point: int): seq<char>
    requires |digits| >= 1
  {
    var n := |digits|;
    if n <= point && point <= 21 then digits + Zeros(point - n)
    else if 0 < point && point <= 21 then digits[..point] + ['.'] + digits[point..]
    else if -6 < point && point <= 0 then ['0', '.'] + Zeros(-point) + digits
    else if n == 1 then digits + ['e'] + Exponent(point - 1)
    else [digits[0], '.'] + digits[1..] + ['e'] + Exponent(point - 1)
  }

  // Digits, a point and more digits if it is there, and an exponent if it is.
  function Assembled(a: seq<char>, dot: bool, b: seq<char>, exp: seq<char>): seq<char> {
    a + (if dot then ['.'] + b else []) + (if exp == [] then [] else ['e'] + exp)
  }

  lemma AssembledValue(a: seq<char>, dot: bool, b: seq<char>, exp: seq<char>)
    requires AllDigits(a) && AllDigits(b) && (!dot ==> b == [])
    ensures TextValue(Assembled(a, dot, b, exp)) == Scaled(Number(a + b), SignedNumber(exp) - |b|)
  {
    hide Scaled, Number, IndexOf, SignedNumber, Assembled;
    MarksAt(a, dot, b, exp);
    PartsOf(a, dot, b, exp);
    NoExponent();
    TextParts(Assembled(a, dot, b, exp), a, b, exp);
  }

  // A text with its parts known.
  lemma TextParts(text: seq<char>, a: seq<char>, b: seq<char>, exp: seq<char>)
    requires var e := IndexOf(text, 'e');
             var dot := IndexOf(text[..e], '.');
             && text[..dot] == a && (if dot == e then [] else text[dot + 1..e]) == b
             && (if e == |text| then 0 else SignedNumber(text[e + 1..])) == SignedNumber(exp)
    ensures TextValue(text) == Scaled(Number(a + b), SignedNumber(exp) - |b|)
  {
    hide Number, Scaled, SignedNumber, IndexOf;
  }

  lemma PartsOf(a: seq<char>, dot: bool, b: seq<char>, exp: seq<char>)
    ensures var m, text := a + (if dot then ['.'] + b else []), Assembled(a, dot, b, exp);
            && |text| >= |m| >= |a| && (|text| == |m| <==> exp == []) && (|m| == |a| <==> !dot)
            && text[..|m|] == m && text[..|a|] == a && (dot ==> text[|a| + 1..|m|] == b)
            && (exp != [] ==> text[|m| + 1..] == exp)
  {
  }

  lemma NoExponent()
    ensures SignedNumber([]) == 0
  {
  }

  lemma MarksAt(a: seq<char>, dot: bool, b: seq<char>, exp: seq<char>)
    requires AllDigits(a) && AllDigits(b)
    ensures var m := a + if dot then ['.'] + b else [];
            IndexOf(Assembled(a, dot, b, exp), 'e') == |m| && IndexOf(m, '.') == |a|
  {
    var text := Assembled(a, dot, b, exp);
    var m := a + if dot then ['.'] + b else [];
    forall k | 0 <= k < |m| ensures text[k] != 'e' {
      assert text[k] == m[k];
    }
    IndexAt(text, 'e', |m|);
    IndexAt(m, '.', |a|);
  }

  lemma LayoutBegins(digits: seq<char>, point: int)
    requires |digits| >= 1 && AllDigits(digits)
    ensures |Layout(digits, point)| >= 1 && IsDigit(Layout(digits, point)[0])
  {
    hide Exponent, Zeros;
  }

  // The layout denotes the digits with the point where it belongs.
  lemma LayoutValue(digits: seq<char>, point: int)
    requires |digits| >= 1 && AllDigits(digits)
    ensures TextValue(Layout(digits, point)) == Scaled(Number(digits), point - |digits|)
  {
    hide TextValue, Number, Scaled, Zeros, Exponent, SignedNumber, Assembled, Layout;
    NoExponent();
    LayoutParts(digits, point);
    var n := |digits|;
    if n <= point && point <= 21 {
      PlainValue(digits, point - n);
    } else if 0 < point && point <= 21 {
      PointValue(digits, point, []);
    } else if -6 < point && point <= 0 {
      SmallValue(digits, -point);
    } else if n == 1 {
      WholeValue(digits, Exponent(point - 1));
    } else {
      PointValue(digits, 1, Exponent(point - 1));
    }
  }

  lemma PlainValue(digits: seq<char>, zeros: nat)
    requires AllDigits(digits)
    ensures TextValue(digits + Zeros(zeros)) == Scaled(Number(digits), zeros)
  {
    hide TextValue, Number, Scaled, Ten, SignedNumber;
    var text := digits + Zeros(zeros);
    AssembledValue(text, false, [], []);
    assert text == Assembled(text, false, [], []) && text + [] == text;
    NumberZeros(digits, zeros);
    NoExponent();
    ScaledTen(Number(digits), zeros);
  }

  lemma ScaledTen(n: int, e: nat)
    ensures Scaled(n * Ten(e), 0) == Scaled(n, e)
  {
    hide Power, Ten;
    TenToNat(e);
    PowerZero(10.0);
    assert (n * Ten(e)) as real == n as real * Ten(e) as real;
  }

  lemma PointValue(digits: seq<char>, point: nat, exp: seq<char>)
    requires AllDigits(digits) && point <= |digits|
    ensures TextValue(Assembled(digits[..point], true, digits[point..], exp))
            == Scaled(Number(digits), SignedNumber(exp) + point - |digits|)
  {
    hide TextValue, Number, Scaled, SignedNumber, Assembled;
    AssembledValue(digits[..point], true, digits[point..], exp);
    assert digits[..point] + digits[point..] == digits;
  }

  lemma LayoutParts(digits: seq<char>, point: int)
    requires |digits| >= 1
    ensures var n, text := |digits|, Layout(digits, point);
            if n <= point && point <= 21 then text == digits + Zeros(point - n)
            else if 0 < point && point <= 21 then text == Assembled(digits[..point], true, digits[point..], [])
            else if -6 < point && point <= 0 then text == ['0', '.'] + Zeros(-point) + digits
            else if n == 1 then text == Assembled(digits, false, [], Exponent(point - 1))
            else text == Assembled(digits[..1], true, digits[1..], Exponent(point - 1))
  {
    hide Exponent, Zeros;
  }

  lemma WholeValue(digits: seq<char>, exp: seq<char>)
    requires AllDigits(digits)
    ensures TextValue(Assembled(digits, false, [], exp)) == Scaled(Number(digits), SignedNumber(exp))
  {
    hide TextValue, Number, Scaled, SignedNumber, Assembled;
    AssembledValue(digits, false, [], exp);
    assert digits + [] == digits;
  }

  lemma SmallValue(digits: seq<char>, zeros: nat)
    requires AllDigits(digits)
    ensures TextValue(['0', '.'] + Zeros(zeros) + digits) == Scaled(Number(digits), 0 - zeros - |digits|)
  {
    hide TextValue, Number, Scaled, Ten, SignedNumber;
    AssembledValue(['0'], true, Zeros(zeros) + digits, []);
    NoExponent();
    assert ['0'] + (Zeros(zeros) + digits) == Zeros(zeros + 1) + digits;
    ZerosBefore(digits, zeros + 1);
    assert ['0', '.'] + Zeros(zeros) + digits == Assembled(['0'], true, Zeros(zeros) + digits, []);
  }

  // 1234e7 -> 12340000000
  method AppendZeros(start: array<char>, length: nat, point: nat)
    requires length <= point <= start.Length
    modifies start
    ensures start[..point] == old(start[..length]) + Zeros(point - length)
  {
    forall i | length <= i < point {
      start[i] := '0';
    }
  }

  // 1234e-2 -> 12.34
  method InsertPoint(start: array<char>, length: nat, point: nat)
    requires 0 < point <= length < start.Length
    modifies start
    ensures start[..length + 1] == old(start[..point]) + ['.'] + old(start[point..length])
  {
    forall i | 0 <= i < length - point {
      start[point + 1 + i] := start[point + i];
    }
    start[point] := '.';
  }

  // 1234e-6 -> 0.001234
  method PrependZeros(start: array<char>, length: nat, zeros: nat)
    requires length + zeros + 2 <= start.Length
    modifies start
    ensures start[..length + zeros + 2] == ['0', '.'] + Zeros(zeros) + old(start[..length])
  {
    ghost var was := start[..length];
    forall i | 0 <= i < length {
      start[zeros + 2 + i] := start[i];
    }
    assert start[zeros + 2..zeros + 2 + length] == was;
    start[0], start[1] := '0', '.';
    forall i | 0 <= i < zeros {
      start[2 + i] := '0';
    }
    assert start[..2] == ['0', '.'] && start[2..zeros + 2] == Zeros(zeros);
    assert start[zeros + 2..length + zeros + 2] == was;
  }

  method AddExponent(start: array<char>, at: nat, exp: int) returns (size: nat)
    requires -9999 <= exp <= 9999 && at + 5 <= start.Length
    modifies start
    ensures size <= start.Length && start[..size] == old(start[..at]) + Exponent(exp)
  {
    size := WriteExponent(exp, start, at);
    assert start[..at + size] == start[..at] + start[at..at + size];
    size := at + size;
  }

  method Format(start: array<char>, length: nat, point: int) returns (size: nat)
    requires 1 <= length <= start.Length && -9999 < point <= 9999 && AllDigits(start[..length])
    requires start.Length >= length + 28
    modifies start
    ensures size <= start.Length && start[..size] == Layout(old(start[..length]), point)
  {
    hide Exponent, Zeros;
    ghost var digits := start[..length];
    if length <= point && point <= 21 {
      AppendZeros(start, length, point);
      return point;
    }
    if 0 < point && point <= 21 {
      InsertPoint(start, length, point);
      assert digits[point..] == old(start[point..length]) && digits[..point] == old(start[..point]);
      return length + 1;
    }
    if -6 < point && point <= 0 {
      PrependZeros(start, length, -point);
      return length + (2 - point);
    }
    size := Scientific(start, length, point - 1);
  }

  // One digit, a point if there are more, the others and the exponent.
  method Scientific(start: array<char>, length: nat, exp: int) returns (size: nat)
    requires 1 <= length && start.Length >= length + 28 && -9999 <= exp <= 9999
    modifies start
    ensures size <= start.Length
    ensures var digits := old(start[..length]);
            start[..size] == (if length == 1 then digits else [digits[0], '.'] + digits[1..]) + ['e'] + Exponent(exp)
  {
    hide Exponent;
    ghost var digits := start[..length];
    if length == 1 {
      start[1] := 'e';
      assert start[..2] == digits + ['e'];
      size := AddExponent(start, 2, exp);
      return;
    }
    InsertPoint(start, length, 1);
    start[length + 1] := 'e';
    assert start[..length + 2] == [digits[0], '.'] + digits[1..] + ['e'];
    size := AddExponent(start, length + 2, exp);
  }
}
