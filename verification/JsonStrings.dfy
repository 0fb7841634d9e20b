// Strings in JSON text: writing them with escapes, and reading them in two
// passes.
module JsonStrings {
  import opened JsonBuffer
  import opened Utf8Text

  // ----- the text between the quotes -----

  predicate IsHex(b: Byte) { C('0') <= b <= C('9') || C('A') <= b <= C('F') || C('a') <= b <= C('f') }

  predicate IsSimple(b: Byte) {
    b in {C('\"'), C('\\'), C('/'), C('n'), C('r'), C('t'), C('b'), C('f')}
  }

  // How long the first character or escape is, or zero.
  function First(t: Text): (n: nat)
    ensures n <= |t|
  {
    if t == [] || t[0] == C('\"') || t[0] < 32 then 0
    else if t[0] != C('\\') then 1
    else if |t| < 2 then 0
    else if IsSimple(t[1]) then 2
    else if t[1] == C('u') && |t| >= 6 && IsHex(t[2]) && IsHex(t[3]) && IsHex(t[4]) && IsHex(t[5]) then 6 else 0
  }

  predicate Body(t: Text)
    decreases |t|
  {
    t == [] || (First(t) > 0 && Body(t[First(t)..]))
  }

  // The bytes that escapes surely save.
  function Surplus(t: Text): nat
    requires Body(t)
    decreases |t|
  {
    if t == [] then 0 else (if First(t) == 6 then 3 else if First(t) == 2 then 1 else 0) + Surplus(t[First(t)..])
  }

  lemma {:induction false} BodyConcat(a: Text, b: Text)
    requires Body(a) && Body(b)
    ensures Body(a + b) && Surplus(a + b) == Surplus(a) + Surplus(b)
    decreases |a|
  {
    if a == [] {
      assert a + b == b;
    } else {
      var n := First(a);
      assert First(a + b) == n && (a + b)[n..] == a[n..] + b;
      BodyConcat(a[n..], b);
    }
  }

  lemma {:induction false} BodyCut(t: Text, i: nat)
    requires Body(t) && i <= |t| && Body(t[..i])
    ensures Body(t[i..])
    decreases |t|
  {
    if i > 0 {
      var n := First(t[..i]);
      assert First(t) == n;
      assert t[n..][..i - n] == t[..i][n..] && t[n..][i - n..] == t[i..];
      BodyCut(t[n..], i - n);
    }
  }

  // ----- decoding -----

  const REPLACEMENT := 0xfffd

  function HexValue(b: Byte): nat
    requires IsHex(b)
  {
    if b <= C('9') then b - C('0') else if b <= C('F') then b - C('A') + 10 else b - C('a') + 10
  }

  function Unicode(t: Text): (u: nat)
    requires |t| == 4 && IsHex(t[0]) && IsHex(t[1]) && IsHex(t[2]) && IsHex(t[3])
    ensures u < 0x10000
  {
    ((HexValue(t[0]) * 16 + HexValue(t[1])) * 16 + HexValue(t[2])) * 16 + HexValue(t[3])
  }

  function SimpleValue(b: Byte): Byte
    requires IsSimple(b)
  {
    if b == C('n') then 10 else if b == C('r') then 13 else if b == C('t') then 9 else if b == C('b') then 8
    else if b == C('f') then 12 else b
  }

  // The escapes of one letter, and what they stand for.
  const SIMPLE := map[34 := 34, 92 := 92, 47 := 47, 98 := 8, 102 := 12, 110 := 10, 114 := 13, 116 := 9]

  lemma SimpleEscapes(b: Byte)
    ensures IsSimple(b) <==> b in SIMPLE
    ensures IsSimple(b) ==> SimpleValue(b) == SIMPLE[b]
  {
  }

  const LOWER := "0123456789abcdef"
  const UPPER := "0123456789ABCDEF"

  // Each of sixteen digits has its value, and no other byte is a digit.
  lemma HexDigits(b: Byte)
    ensures IsHex(b) <==> exists d | 0 <= d < 16 :: b == LOWER[d] as int || b == UPPER[d] as int
    ensures forall d | 0 <= d < 16 && (b == LOWER[d] as int || b == UPPER[d] as int) :: IsHex(b) && HexValue(b) == d
  {
    if IsHex(b) {
      var d := HexValue(b);
      assert b == LOWER[d] as int || b == UPPER[d] as int;
    }
  }

  // Four digits are a number in base 16, the first one worth most.
  lemma FourDigits(u: nat, t: Text)
    requires u < 0x10000 && |t| == 4
    requires forall i | 0 <= i < 4 :: IsHex(t[i])
    ensures Unicode(t) == u <==> HexValue(t[0]) == u / 0x1000 && HexValue(t[1]) == u / 0x100 % 16
                                 && HexValue(t[2]) == u / 16 % 16 && HexValue(t[3]) == u % 16
  {
    var a, b, c, d := HexValue(t[0]), HexValue(t[1]), HexValue(t[2]), HexValue(t[3]);
    Nibbles(a, b, c, d);
    Nibbles(u / 0x1000, u / 0x100 % 16, u / 16 % 16, u % 16);
    assert u / 0x1000 == u / 0x100 / 16 && u / 0x100 == u / 16 / 16;
  }

  lemma Nibbles(a: nat, b: nat, c: nat, d: nat)
    requires a < 16 && b < 16 && c < 16 && d < 16
    ensures var u := ((a * 16 + b) * 16 + c) * 16 + d;
            u / 0x1000 == a && u / 0x100 % 16 == b && u / 16 % 16 == c && u % 16 == d
  {
    var u := ((a * 16 + b) * 16 + c) * 16 + d;
    assert u / 16 == (a * 16 + b) * 16 + c;
    assert u / 0x100 == u / 16 / 16 == a * 16 + b;
  }

  predicate High(u: nat) { 0xd800 <= u <= 0xdbff }

  predicate Low(u: nat) { 0xdc00 <= u <= 0xdfff }

  function Pair(high: nat, low: nat): (u: nat)
    requires High(high) && Low(low)
    ensures 0x10000 <= u < 0x110000
  {
    0x10000 + (high - 0xd800) * 0x400 + (low - 0xdc00)
  }

  // A character behind the first 0x10000 in two halves of ten bits.
  lemma PairHalves(u: nat)
    requires 0x10000 <= u < 0x110000
    ensures var v := u - 0x10000;
            && High(0xd800 + v / 0x400) && Low(0xdc00 + v % 0x400)
            && Pair(0xd800 + v / 0x400, 0xdc00 + v % 0x400) == u
  {
  }

  // A byte, or what an escape by number names.
  datatype Item = Raw(b: Byte) | Unit(u: nat)

  predicate ItemOk(i: Item) { i.Unit? ==> i.u < 0x10000 }

  function ItemOf(t: Text): (i: Item)
    requires First(t) > 0
    ensures ItemOk(i)
  {
    if First(t) == 1 then Raw(t[0]) else if First(t) == 2 then Raw(SimpleValue(t[1])) else Unit(Unicode(t[2..6]))
  }

  function Items(t: Text): (s: seq<Item>)
    requires Body(t)
    ensures forall i | i in s :: ItemOk(i)
    decreases |t|
  {
    if t == [] then [] else [ItemOf(t)] + Items(t[First(t)..])
  }

  type ItemList = s: seq<Item> | forall i | i in s :: ItemOk(i)

  // Surrogates that are not a pair become replacement characters.  After a high
  // surrogate, the next number is taken with it whatever it is.
  function Decode(s: ItemList): Text {
    if s == [] then []
    else
      match s[0]
      case Raw(b) => [b] + Decode(s[1..])
      case Unit(u) =>
        if !High(u) && !Low(u) then Utf8(u) + Decode(s[1..])
        else if Low(u) || |s| == 1 || s[1].Raw? then Utf8(REPLACEMENT) + Decode(s[1..])
        else Two(u, s[1].u) + Decode(s[2..])
  }

  function Two(u: nat, low: nat): Text
    requires High(u) && low < 0x10000
  {
    if Low(low) then Utf8(Pair(u, low))
    else Utf8(REPLACEMENT) + Utf8(if High(low) then REPLACEMENT else low)
  }

  function Decoded(t: Text): Text
    requires Body(t)
  {
    Decode(Items(t))
  }

  // The room reckoned from the surplus is enough.
  lemma {:induction false} DecodedFits(t: Text)
    requires Body(t)
    ensures |Decoded(t)| + Surplus(t) <= |t|
    decreases |t|
  {
    if t != [] {
      var n := First(t);
      DecodedFits(t[n..]);
      var s := Items(t);
      assert s[1..] == Items(t[n..]);
      if s[0].Unit? && High(s[0].u) && |s| > 1 && s[1].Unit? {
        var t1 := t[n..];
        DecodedFits(t1[6..]);
        assert s[2..] == Items(t1[6..]);
      }
    }
  }

  // ----- escaping -----

  function HexChar(d: nat): (b: Byte)
    requires d < 16
    ensures IsHex(b) && HexValue(b) == d
  {
    if d <= 9 then C('0') + d else C('A') + (d - 10)
  }

  predicate Plain(b: Byte) { b >= 32 && b != C('\"') && b != C('\\') }

  function Escape(b: Byte): Text {
    if Plain(b) then [b]
    else if b == C('\\') || b == C('\"') then [C('\\'), b]
    else if b == 13 then [C('\\'), C('r')]
    else if b == 10 then [C('\\'), C('n')]
    else if b == 9 then [C('\\'), C('t')]
    else if b == 8 then [C('\\'), C('b')]
    else if b == 12 then [C('\\'), C('f')]
    else [C('\\'), C('u'), C('0'), C('0'), HexChar(b / 16), HexChar(b % 16)]
  }

  // Bytes that may stand in a string do so, those with an escape of their own
  // take it, and the others are given by number.
  lemma EscapeForms(b: Byte)
    ensures var e := Escape(b);
            if b in {8, 9, 10, 12, 13, 34, 92} then exists c | c in SIMPLE :: SIMPLE[c] == b && e == [92, c]
            else if b >= 32 then e == [b]
            else |e| == 6 && e[..4] == [92, 117, 48, 48] && e[4] == UPPER[b / 16] as int && e[5] == UPPER[b % 16] as int
  {
    var e := Escape(b);
    if b in {8, 9, 10, 12, 13, 34, 92} {
      assert e[1] in SIMPLE && SIMPLE[e[1]] == b && e == [92, e[1]];
    }
  }

  function Escaped(s: Text): Text {
    if s == [] then [] else Escape(s[0]) + Escaped(s[1..])
  }

  lemma {:induction false} EscapedConcat(a: Text, b: Text)
    ensures Escaped(a + b) == Escaped(a) + Escaped(b)
  {
    if a == [] {
      assert a + b == b;
    } else {
      assert (a + b)[0] == a[0] && (a + b)[1..] == a[1..] + b;
      EscapedConcat(a[1..], b);
    }
  }

  lemma EscapeOne(b: Byte, rest: Text)
    ensures var e := Escape(b);
            && First(e + rest) == |e| > 0 && (e + rest)[|e|..] == rest
            && (ItemOf(e + rest) == Raw(b) || (ItemOf(e + rest) == Unit(b) && b < 32))
  {
    var e := Escape(b);
    if |e| == 6 {
      assert (e + rest)[2..6] == [C('0'), C('0'), HexChar(b / 16), HexChar(b % 16)];
      assert b / 16 * 16 + b % 16 == b;
    }
  }

  // What is written is read back.
  lemma {:induction false} EscapedDecoded(s: Text)
    ensures Body(Escaped(s)) && Decoded(Escaped(s)) == s
  {
    if s != [] {
      hide Escape;
      var e, rest := Escape(s[0]), Escaped(s[1..]);
      EscapeOne(s[0], rest);
      EscapedDecoded(s[1..]);
      hide ItemOf, First, Escaped;
      assert Items(e + rest)[1..] == Items(rest);
    }
  }

  // ----- what decoding should be -----

  // Every high surrogate with a low one right after it is a pair.
  function Utf16(s: ItemList): Text {
    if s == [] then []
    else
      match s[0]
      case Raw(b) => [b] + Utf16(s[1..])
      case Unit(u) =>
        if High(u) && |s| > 1 && s[1].Unit? && Low(s[1].u) then Utf8(Pair(u, s[1].u)) + Utf16(s[2..])
        else Utf8(if High(u) || Low(u) then REPLACEMENT else u) + Utf16(s[1..])
  }

  predicate IsHigh(i: Item) { i.Unit? && High(i.u) }

  function HighRun(s: ItemList): (k: nat)
    ensures k <= |s| && forall i | 0 <= i < k :: IsHigh(s[i])
  {
    if s != [] && IsHigh(s[0]) then 1 + HighRun(s[1..]) else 0
  }

  // Before a low surrogate there is never an even number of high ones in a run.
  predicate NoEvenRuns(s: ItemList)
    decreases |s|
  {
    if s == [] then true
    else if !IsHigh(s[0]) then NoEvenRuns(s[1..])
    else
      var k := HighRun(s);
      (k % 2 == 0 && k < |s| && s[k].Unit? ==> !Low(s[k].u)) && NoEvenRuns(s[k..])
  }

  // That is just when the decoder does what it should.
  lemma {:induction false} DecodeIsUtf16(s: ItemList)
    ensures Decode(s) == Utf16(s) <==> NoEvenRuns(s)
    decreases |s|, 2
  {
    hide Utf8, Pair;
    if s != [] {
      if !IsHigh(s[0]) {
        DecodeIsUtf16(s[1..]);
        SamePrefix(if s[0].Raw? then [s[0].b] else Utf8(if Low(s[0].u) then REPLACEMENT else s[0].u), Decode(s[1..]),
                   Utf16(s[1..]));
      } else {
        RunDecoded(s);
      }
    }
  }

  lemma SamePrefix(p: Text, a: Text, b: Text)
    ensures p + a == p + b <==> a == b
  {
    if p + a == p + b {
      assert a == (p + a)[|p|..] && b == (p + b)[|p|..];
    }
  }

  // The first high surrogate of a run, and the item after it.
  lemma RunDecoded(s: ItemList)
    requires s != [] && IsHigh(s[0])
    ensures Decode(s) == Utf16(s) <==> NoEvenRuns(s)
    decreases |s|, 1
  {
    hide Utf8, Pair;
    var r := Utf8(REPLACEMENT);
    if |s| == 1 || s[1].Raw? {
      DecodeIsUtf16(s[1..]);
      SamePrefix(r, Decode(s[1..]), Utf16(s[1..]));
    } else if !IsHigh(s[1]) {
      var u := s[1].u;
      DecodeIsUtf16(s[2..]);
      assert s[1..][1..] == s[2..];
      if Low(u) {
        LowAfterHigh(s);
        SamePrefix(Utf8(Pair(s[0].u, u)), Decode(s[2..]), Utf16(s[2..]));
      } else {
        assert Utf16(s) == r + (Utf8(u) + Utf16(s[2..])) == (r + Utf8(u)) + Utf16(s[2..]);
        SamePrefix(r + Utf8(u), Decode(s[2..]), Utf16(s[2..]));
      }
    } else {
      TwoHighs(s);
    }
  }

  lemma LowAfterHigh(s: ItemList)
    requires |s| > 1 && IsHigh(s[0]) && s[1].Unit? && Low(s[1].u)
    ensures NoEvenRuns(s) <==> NoEvenRuns(s[2..])
  {
    assert HighRun(s[1..]) == 0;
    assert s[1..][1..] == s[2..];
  }

  lemma TwoHighs(s: ItemList)
    requires |s| > 1 && IsHigh(s[0]) && IsHigh(s[1])
    ensures Decode(s) == Utf16(s) <==> NoEvenRuns(s)
    decreases |s|, 0
  {
    var r := Utf8(REPLACEMENT);
    DecodeIsUtf16(s[2..]);
    RunOfTwo(s);
    Utf16TwoHighs(s);
    DecodeHigh(s);
    Assoc(r, r, Decode(s[2..]));
    hide Utf8, Pair, Decode, Utf16, NoEvenRuns;
    if |s| > 2 && s[2].Unit? && Low(s[2].u) {
      var p := Utf8(Pair(s[1].u, s[2].u));
      SamePrefix(r, r + Decode(s[2..]), p + Utf16(s[3..]));
      FirstBytes(Pair(s[1].u, s[2].u));
      assert (r + Decode(s[2..]))[0] == r[0] && (p + Utf16(s[3..]))[0] == p[0];
    } else {
      SamePrefix(r, r + Decode(s[2..]), r + Utf16(s[2..]));
      SamePrefix(r, Decode(s[2..]), Utf16(s[2..]));
    }
  }

  lemma Utf16TwoHighs(s: ItemList)
    requires |s| > 1 && IsHigh(s[0]) && IsHigh(s[1])
    ensures var r := Utf8(REPLACEMENT);
            Utf16(s) == r + if |s| > 2 && s[2].Unit? && Low(s[2].u) then Utf8(Pair(s[1].u, s[2].u)) + Utf16(s[3..])
                               else r + Utf16(s[2..])
  {
    hide Utf16, Utf8, Pair;
    var t := s[1..];
    assert t[1..] == s[2..] && (|s| == 2 || t[2..] == s[3..]);
    assert |t| > 1 ==> t[1] == s[2];
    Utf16High(s);
    Utf16High(t);
  }

  lemma Assoc(a: Text, b: Text, c: Text)
    ensures (a + b) + c == a + (b + c)
  {
  }

  lemma DecodeHigh(s: ItemList)
    requires |s| > 1 && IsHigh(s[0]) && IsHigh(s[1])
    ensures Decode(s) == (Utf8(REPLACEMENT) + Utf8(REPLACEMENT)) + Decode(s[2..])
  {
    hide Utf8, Pair;
  }

  lemma Utf16High(s: ItemList)
    requires s != [] && IsHigh(s[0])
    ensures Utf16(s) == if |s| > 1 && s[1].Unit? && Low(s[1].u) then Utf8(Pair(s[0].u, s[1].u)) + Utf16(s[2..])
                        else Utf8(REPLACEMENT) + Utf16(s[1..])
  {
    hide Utf8, Pair;
  }

  lemma FirstBytes(u: nat)
    requires 0x10000 <= u < 0x110000
    ensures Utf8(u)[0] != Utf8(REPLACEMENT)[0]
  {
  }

  lemma RunOfTwo(s: ItemList)
    requires |s| > 1 && IsHigh(s[0]) && IsHigh(s[1])
    ensures |s| > 2 && s[2].Unit? && Low(s[2].u) ==> !NoEvenRuns(s)
    ensures !(|s| > 2 && s[2].Unit? && Low(s[2].u)) ==> (NoEvenRuns(s) <==> NoEvenRuns(s[2..]))
  {
    var k, t := HighRun(s), s[2..];
    TwoLonger(s);
    RunUnfold(s);
    LowThird(s);
    if t != [] && IsHigh(t[0]) {
      RunUnfold(t);
      DropTwo(s, k);
      hide *;
    } else {
      hide *;
      assert k == 2;
    }
  }

  // No low surrogate after an even number of items.
  predicate Uneven(s: ItemList, k: nat) { k % 2 == 0 && k < |s| && s[k].Unit? ==> !Low(s[k].u) }

  lemma LowThird(s: ItemList)
    requires |s| > 1
    ensures Uneven(s, 2) <==> !(|s| > 2 && s[2].Unit? && Low(s[2].u))
    ensures |s| > 2 && IsHigh(s[2]) ==> !Low(s[2].u)
  {
  }

  lemma DropTwo(s: ItemList, k: nat)
    requires 2 <= k <= |s|
    ensures s[2..][k - 2..] == s[k..] && (Uneven(s[2..], k - 2) <==> Uneven(s, k))
  {
  }

  lemma TwoLonger(s: ItemList)
    requires |s| > 1 && IsHigh(s[0]) && IsHigh(s[1])
    ensures HighRun(s) == 2 + HighRun(s[2..]) && (HighRun(s[2..]) == 0 <==> |s| == 2 || !IsHigh(s[2]))
  {
    assert s[1..][1..] == s[2..];
    assert s[1..][0] == s[1];
  }

  lemma RunUnfold(s: ItemList)
    requires s != [] && IsHigh(s[0])
    ensures var k := HighRun(s);
            NoEvenRuns(s) <==> Uneven(s, k) && NoEvenRuns(s[k..])
  {
  }
}
