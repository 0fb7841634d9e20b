// Streaming digests with blocks of 64 bytes: MD5, SHA-1 and SHA-256 differ in
// their words, in the step that takes in a block, and in the order of bytes.
module Digests {
  import opened Arithmetic

  type Byte = n: nat | n < 256

  datatype Algorithm = Algorithm(words: seq<nat>, step: (seq<nat>, seq<Byte>) -> seq<nat>, big: bool)

  // The step keeps the number of words.
  ghost predicate AlgorithmOk(alg: Algorithm) {
    1 <= |alg.words| <= 8 && forall w, b | |w| == |alg.words| :: |alg.step(w, b)| == |w|
  }

  // ----- the whole message at once -----

  function ByteOf(n: nat, i: nat): Byte { n / Pow2(8 * i) % 256 }

  // A number in count bytes.
  function Bytes(n: nat, count: nat, big: bool): (r: seq<Byte>)
    ensures |r| == count
  {
    seq(count, i requires 0 <= i < count => ByteOf(n, if big then count - 1 - i else i))
  }

  // Zeros up to the eight bytes for the length, which end a block.
  function ZeroCount(length: nat): (k: nat)
    ensures k < 64 && (length + 1 + k + 8) % 64 == 0
  {
    (119 - length % 64) % 64
  }

  function Zeros(n: nat): (r: seq<Byte>)
    ensures |r| == n
  {
    seq(n, _ => 0)
  }

  // The message, a one bit, zeros, and the number of bits modulo 2^64.
  function Padded(message: seq<Byte>, big: bool): (r: seq<Byte>)
    ensures |r| % 64 == 0
  {
    message + [0x80] + Zeros(ZeroCount(|message|)) + Bytes(8 * |message| % Pow2(64), 8, big)
  }

  // ----- what the padding says -----

  // The number that bytes denote.
  function NumberOf(s: seq<Byte>, big: bool): nat {
    if s == [] then 0
    else if big then NumberOf(s[..|s| - 1], big) * 256 + s[|s| - 1] else s[0] + 256 * NumberOf(s[1..], big)
  }

  lemma {:induction false} NumberOfBytes(n: nat, count: nat, big: bool)
    ensures NumberOf(Bytes(n, count, big), big) == n % Pow2(8 * count)
  {
    hide Pow2, Bytes;
    if count == 0 {
      Pow2Zero();
    } else {
      NumberOfBytes(n / 256, count - 1, big);
      LowestByte(n, count, big);
      NumberOfMore(Bytes(n / 256, count - 1, big), n % 256, big);
      Pow2Add(8, 8 * (count - 1));
      Pow2Small();
      DivDiv(n, 256, Pow2(8 * (count - 1)));
    }
  }

  lemma NumberOfMore(s: seq<Byte>, b: Byte, big: bool)
    ensures NumberOf(if big then s + [b] else [b] + s, big) == NumberOf(s, big) * 256 + b
  {
    assert (s + [b])[..|s|] == s && ([b] + s)[1..] == s;
  }

  lemma LowestByte(n: nat, count: nat, big: bool)
    requires count > 0
    ensures var rest := Bytes(n / 256, count - 1, big);
            Bytes(n, count, big) == if big then rest + [n % 256] else [n % 256] + rest
  {
    hide ByteOf;
    FirstByte(n);
    forall i: nat ensures ByteOf(n / 256, i) == ByteOf(n, i + 1) {
      NextByte(n, i);
    }
    var rest := Bytes(n / 256, count - 1, big);
    if big {
      assert Bytes(n, count, big) == rest + [n % 256];
    } else {
      assert Bytes(n, count, big) == [n % 256] + rest;
    }
  }

  lemma FirstByte(n: nat)
    ensures ByteOf(n, 0) == n % 256
  {
    Pow2Zero();
  }

  lemma NextByte(n: nat, i: nat)
    ensures ByteOf(n / 256, i) == ByteOf(n, i + 1)
  {
    hide Pow2;
    Pow2Add(8, 8 * i);
    Pow2Small();
    DivDiv(n, 256, Pow2(8 * i));
  }

  lemma {:induction false} NumberOfOnce(s: seq<Byte>, t: seq<Byte>, big: bool)
    requires |s| == |t| && NumberOf(s, big) == NumberOf(t, big)
    ensures s == t
  {
    if s != [] {
      if big {
        NumberOfOnce(s[..|s| - 1], t[..|t| - 1], big);
        assert s == s[..|s| - 1] + [s[|s| - 1]] && t == t[..|t| - 1] + [t[|t| - 1]];
      } else {
        NumberOfOnce(s[1..], t[1..], big);
        assert s == [s[0]] + s[1..] && t == [t[0]] + t[1..];
      }
    }
  }

  // The message, then 0x80 and no more zeros than are needed to leave eight bytes
  // of the last block, which hold the number of bits.
  predicate IsPadded(message: seq<Byte>, big: bool, p: seq<Byte>) {
    var n := |message|;
    && |p| % 64 == 0 && n + 9 <= |p| < n + 73 && p[..n] == message && p[n] == 0x80
    && (forall i | n < i < |p| - 8 :: p[i] == 0)
    && NumberOf(p[|p| - 8..], big) == 8 * n % Pow2(64)
  }

  lemma PaddedExactly(message: seq<Byte>, big: bool, p: seq<Byte>)
    ensures p == Padded(message, big) <==> IsPadded(message, big, p)
  {
    hide Pow2, Bytes, NumberOf;
    var q, n := Padded(message, big), |message|;
    var length := 8 * n % Pow2(64);
    NumberOfBytes(length, 8, big);
    DivModOf(length, 0, Pow2(64), length);
    assert q[|q| - 8..] == Bytes(length, 8, big);
    assert IsPadded(message, big, q);
    if IsPadded(message, big, p) {
      NumberOfOnce(p[|p| - 8..], q[|q| - 8..], big);
      assert |p| == |q|;
      assert p == p[..|p| - 8] + p[|p| - 8..] && q == q[..|q| - 8] + q[|q| - 8..];
      assert p[..|p| - 8] == q[..|q| - 8];
    }
  }

  function Fold(alg: Algorithm, words: seq<nat>, data: seq<Byte>): seq<nat>
    requires |data| % 64 == 0
    decreases |data|
  {
    if data == [] then words else Fold(alg, alg.step(words, data[..64]), data[64..])
  }

  function Output(words: seq<nat>, big: bool): (r: seq<Byte>)
    ensures |r| == 4 * |words|
  {
    if words == [] then [] else Bytes(words[0], 4, big) + Output(words[1..], big)
  }

  // Every word is in its four bytes of the output.
  lemma {:induction false} OutputWord(words: seq<nat>, big: bool, i: nat)
    requires i < |words|
    ensures NumberOf(Output(words, big)[4 * i..4 * i + 4], big) == words[i] % 0x1_0000_0000
  {
    hide NumberOf, Bytes;
    var r := Output(words, big);
    if i == 0 {
      NumberOfBytes(words[0], 4, big);
      assert r[4 * i..4 * i + 4] == Bytes(words[0], 4, big);
      Pow2Values();
    } else {
      var rest := Output(words[1..], big);
      OutputWord(words[1..], big, i - 1);
      assert r == Bytes(words[0], 4, big) + rest;
      assert r[4 * i..4 * i + 4] == rest[4 * (i - 1)..4 * (i - 1) + 4];
    }
  }

  function Digest(alg: Algorithm, message: seq<Byte>): seq<Byte> {
    Output(Fold(alg, alg.words, Padded(message, alg.big)), alg.big)
  }

  lemma {:induction false} FoldConcat(alg: Algorithm, words: seq<nat>, a: seq<Byte>, b: seq<Byte>)
    requires |a| % 64 == 0 && |b| % 64 == 0
    ensures Fold(alg, words, a + b) == Fold(alg, Fold(alg, words, a), b)
    decreases |a|
  {
    if a == [] {
      assert a + b == b;
    } else {
      assert (a + b)[..64] == a[..64] && (a + b)[64..] == a[64..] + b;
      FoldConcat(alg, alg.step(words, a[..64]), a[64..], b);
    }
  }

  lemma {:induction false} FoldLength(alg: Algorithm, words: seq<nat>, data: seq<Byte>)
    requires AlgorithmOk(alg) && |words| == |alg.words| && |data| % 64 == 0
    ensures |Fold(alg, words, data)| == |words|
    decreases |data|
  {
    if data != [] {
      FoldLength(alg, alg.step(words, data[..64]), data[64..]);
    }
  }

  // Messages below 2^61 bytes are padded differently.
  lemma PaddingInjective(a: seq<Byte>, b: seq<Byte>, big: bool)
    requires |a| < Pow2(61) && |b| < Pow2(61) && Padded(a, big) == Padded(b, big)
    ensures a == b
  {
    hide Pow2, ZeroCount, Zeros, Bytes;
    var p := Padded(a, big);
    EightTimes(|a|);
    EightTimes(|b|);
    assert p[|p| - 8..] == Bytes(8 * |a|, 8, big) == Bytes(8 * |b|, 8, big);
    BytesInjective(8 * |a|, 8 * |b|, 8, big);
    assert p[..|a|] == a && p[..|b|] == b;
  }

  lemma EightTimes(n: nat)
    requires n < Pow2(61)
    ensures 8 * n < Pow2(64) && 8 * n % Pow2(64) == 8 * n
  {
    hide Pow2;
    Pow2Add(61, 3);
    assert Pow2(3) == 8 by {
      Pow2Three();
    }
    DivModOf(8 * n, 0, Pow2(64), 8 * n);
  }

  lemma Pow2Three()
    ensures Pow2(3) == 8
  {
  }

  lemma BytesInjective(n: nat, m: nat, count: nat, big: bool)
    requires Bytes(n, count, big) == Bytes(m, count, big) && n < Pow2(8 * count) && m < Pow2(8 * count)
    ensures n == m
  {
    hide Pow2, ByteOf;
    forall i | 0 <= i < count ensures ByteOf(n, i) == ByteOf(m, i) {
      var j := if big then count - 1 - i else i;
      assert Bytes(n, count, big)[j] == Bytes(m, count, big)[j];
    }
    LowBytes(n, m, count);
    DivModOf(n, 0, Pow2(8 * count), n);
    DivModOf(m, 0, Pow2(8 * count), m);
  }

  lemma {:induction false} LowBytes(n: nat, m: nat, count: nat)
    requires forall i | 0 <= i < count :: ByteOf(n, i) == ByteOf(m, i)
    ensures n % Pow2(8 * count) == m % Pow2(8 * count)
  {
    hide Pow2;
    if count == 0 {
      Pow2Zero();
    } else {
      var k := count - 1;
      LowBytes(n, m, k);
      assert ByteOf(n, k) == ByteOf(m, k);
      Pow2Add(8 * k, 8);
      Pow2Small();
      DivDiv(n, Pow2(8 * k), 256);
      DivDiv(m, Pow2(8 * k), 256);
    }
  }

  // ----- in pieces -----

  function Whole(n: nat): (r: nat)
    ensures r <= n && r % 64 == 0 && n - r == n % 64 < 64
  {
    n - n % 64
  }

  class Context {
    const alg: Algorithm
    var words: seq<nat>
    var bytes: nat
    var buffer: array<Byte>
    ghost var message: seq<Byte>

    ghost predicate Valid()
      reads this, buffer
    {
      var full := Whole(|message|);
      && buffer.Length == 64 && bytes == |message| % Pow2(64)
      && words == Fold(alg, alg.words, message[..full]) && buffer[..|message| - full] == message[full..]
    }

    constructor (alg: Algorithm)
      ensures Valid() && message == [] && this.alg == alg && fresh(buffer)
    {
      this.alg := alg;
      words, bytes, message := alg.words, 0, [];
      buffer := new Byte[64];
    }

    method Init()
      requires buffer.Length == 64
      modifies this`words, this`bytes, this`message
      ensures Valid() && message == []
    {
      words, bytes, message := alg.words, 0, [];
    }

    // Takes in whole blocks.
    method Body(data: seq<Byte>)
      requires |data| % 64 == 0 && data != []
      modifies this`words
      ensures words == Fold(alg, old(words), data)
    {
      var rest := data;
      while rest != []
        invariant |rest| % 64 == 0
        invariant Fold(alg, words, rest) == Fold(alg, old(words), data)
      {
        words := alg.step(words, rest[..64]);
        rest := rest[64..];
      }
    }

    method Copy(at: nat, data: seq<Byte>)
      requires at + |data| <= buffer.Length
      modifies buffer
      ensures buffer[..at + |data|] == old(buffer[..at]) + data
    {
      forall i | at <= i < at + |data| {
        buffer[i] := data[i - at];
      }
    }

    // Fills the block begun in the buffer and takes it in.
    method Fill(used: nat, data: seq<Byte>)
      requires buffer.Length == 64 && used + |data| == 64
      modifies this`words, buffer
      ensures words == Fold(alg, old(words), old(buffer[..used]) + data)
    {
      Copy(used, data);
      assert buffer[..] == buffer[..64];
      Body(buffer[..]);
    }

    method Update(data: seq<Byte>)
      requires Valid()
      modifies this`words, this`bytes, this`message, buffer
      ensures Valid() && message == old(message) + data
    {
      hide Fold, Pow2, Whole;
      var used := bytes % 64;
      Used(|message|);
      ghost var n: nat := Whole(|message|);
      SplitAt(message, data, n);
      Count(data);
      if used != 0 {
        AddToBlock(n, used, data);
      } else {
        TakeBlocks(n, data);
      }
    }

    method Count(data: seq<Byte>)
      requires bytes == |message| % Pow2(64)
      modifies this`bytes, this`message
      ensures message == old(message) + data && bytes == |message| % Pow2(64)
    {
      hide Pow2;
      BytesAdded(|message|, |data|);
      bytes := (bytes + |data|) % Pow2(64);
      message := message + data;
    }

    // The data complete the block begun in the buffer, or do not.
    method AddToBlock(ghost n: nat, used: nat, data: seq<Byte>)
      requires buffer.Length == 64 && n % 64 == 0 && n <= |message| && used < 64
               && buffer[..used] + data == message[n..]
      requires words == Fold(alg, alg.words, message[..n]) && bytes == |message| % Pow2(64)
      modifies this`words, buffer
      ensures Valid()
    {
      hide Fold, Pow2, Whole;
      var free := 64 - used;
      if |data| < free {
        WholeOf(|message|, n);
        Copy(used, data);
        return;
      }
      assert message[n..][used..] == data[..free] + data[free..];
      FirstBlock(alg, message, n, data[..free], data[free..]);
      assert message[n..][..used] == buffer[..used];
      Fill(used, data[..free]);
      TakeBlocks(n + 64, data[free..]);
    }

    // Takes in the whole blocks of data; the rest begins a block.
    method TakeBlocks(ghost n: nat, data: seq<Byte>)
      requires buffer.Length == 64 && n % 64 == 0 && n <= |message| && data == message[n..]
      requires words == Fold(alg, alg.words, message[..n]) && bytes == |message| % Pow2(64)
      modifies this`words, buffer
      ensures Valid()
    {
      hide Fold, Pow2, Whole;
      var rest := data;
      var k := |data| - |data| % 64;
      SplitBlocks(alg, message, n, k);
      if |data| >= 64 {
        Body(data[..k]);
        rest := data[k..];
      }
      Copy(0, rest);
    }

    method Final() returns (result: seq<Byte>)
      requires Valid()
      modifies this`words, this`bytes, buffer
      ensures result == Digest(alg, message) && buffer.Length == 64
    {
      hide Fold, Pow2, Whole, Padded, Zeros, Bytes, Output;
      var used := bytes % 64;
      Used(|message|);
      BitsOf(|message|);
      PaddedParts(alg, message);
      ghost var rest := message[Whole(|message|)..] + [0x80];
      bytes := bytes * 8 % Pow2(64);
      Copy(used, [0x80]);
      used := used + 1;
      assert buffer[..used] == rest;
      FinalBlocks(used, rest);
      result := Output(words, alg.big);
    }

    // The last one or two blocks, the first of which has begun.
    method FinalBlocks(used0: nat, ghost rest: seq<Byte>)
      requires buffer.Length == 64 && 1 <= used0 <= 64 && buffer[..used0] == rest
      modifies this`words, buffer
      ensures var length := Bytes(bytes, 8, alg.big);
              if |rest| <= 56 then words == Fold(alg, old(words), rest + (Zeros(56 - |rest|) + length))
              else words == Fold(alg, Fold(alg, old(words), rest + Zeros(64 - |rest|)), Zeros(56) + length)
    {
      hide Fold, Pow2, Zeros, Bytes;
      var used, free := used0, 64 - used0;
      if free < 8 {
        Fill(used, Zeros(free));
        used, free := 0, 64;
        assert buffer[..0] + (Zeros(56) + Bytes(bytes, 8, alg.big)) == Zeros(56) + Bytes(bytes, 8, alg.big);
      }
      Fill(used, Zeros(free - 8) + Bytes(bytes, 8, alg.big));
    }
  }

  lemma Used(n: nat)
    ensures n % Pow2(64) % 64 == n % 64
  {
    hide Pow2;
    Pow2Add(58, 6);
    assert Pow2(6) == 64 by {
      Pow2Six();
    }
    DivDiv(n, 64, Pow2(58));
    var q := n / 64 % Pow2(58);
    DivModOf(q * 64 + n % 64, q, 64, n % 64);
  }

  lemma Pow2Six()
    ensures Pow2(6) == 64
  {
  }

  lemma BytesAdded(n: nat, k: nat)
    ensures (n % Pow2(64) + k) % Pow2(64) == (n + k) % Pow2(64)
  {
    hide Pow2;
    ModAdd(n, k, Pow2(64));
  }

  lemma ModAdd(a: nat, b: nat, m: nat)
    requires m > 0
    ensures (a % m + b) % m == (a + b) % m
  {
    var q, r := (a % m + b) / m, (a % m + b) % m;
    assert a == a / m * m + a % m && a % m + b == q * m + r;
    assert a + b == (a / m + q) * m + r;
    DivModOf(a + b, a / m + q, m, r);
  }

  // The number of bits from the number of bytes, both modulo 2^64.
  lemma BitsOf(n: nat)
    ensures n % Pow2(64) * 8 % Pow2(64) == 8 * n % Pow2(64)
  {
    hide Pow2;
    var m := Pow2(64);
    var q, r := n / m, n % m;
    var u, v := r * 8 / m, r * 8 % m;
    assert n == q * m + r && r * 8 == u * m + v;
    assert 8 * n == (8 * q + u) * m + v;
    DivModOf(8 * n, 8 * q + u, m, v);
  }

  lemma FoldMore(alg: Algorithm, m: seq<Byte>, n: nat, k: nat)
    requires n % 64 == 0 && k % 64 == 0 && n + k <= |m|
    ensures (n + k) % 64 == 0 && |m[n..n + k]| == k
    ensures Fold(alg, Fold(alg, alg.words, m[..n]), m[n..n + k]) == Fold(alg, alg.words, m[..n + k])
  {
    assert m[..n + k] == m[..n] + m[n..n + k];
    FoldConcat(alg, alg.words, m[..n], m[n..n + k]);
  }

  lemma WholeOf(length: nat, n: nat)
    requires n <= length < n + 64 && n % 64 == 0
    ensures Whole(length) == n
  {
  }

  lemma SplitAt(m: seq<Byte>, data: seq<Byte>, n: nat)
    requires n <= |m|
    ensures (m + data)[..n] == m[..n] && (m + data)[n..] == m[n..] + data
  {
  }

  lemma FirstBlock(alg: Algorithm, m: seq<Byte>, n: nat, a: seq<Byte>, b: seq<Byte>)
    requires n % 64 == 0 && n + 64 <= |m| && |a| <= 64 && |m[n..]| >= 64 && m[n..][64 - |a|..] == a + b
    ensures Fold(alg, Fold(alg, alg.words, m[..n]), m[n..][..64 - |a|] + a) == Fold(alg, alg.words, m[..n + 64])
    ensures m[n + 64..] == b
  {
    assert m[n..][..64 - |a|] + a == m[n..n + 64] by {
      assert a == (a + b)[..|a|];
    }
    assert b == (a + b)[|a|..];
    FoldMore(alg, m, n, 64);
  }

  lemma SplitBlocks(alg: Algorithm, m: seq<Byte>, n: nat, k: nat)
    requires n % 64 == 0 && n <= |m| && k == Whole(|m| - n)
    ensures Whole(|m|) == n + k && m[n..][k..] == m[n + k..]
    ensures Fold(alg, Fold(alg, alg.words, m[..n]), m[n..][..k]) == Fold(alg, alg.words, m[..n + k])
    ensures k == 0 <==> |m| - n < 64
  {
    assert m[n..][..k] == m[n..n + k];
    FoldMore(alg, m, n, k);
  }

  // The last blocks of a padded message: its rest, the one bit, zeros and length.
  lemma PaddedParts(alg: Algorithm, message: seq<Byte>)
    ensures var p, n, length := Padded(message, alg.big), Whole(|message|), Bytes(8 * |message| % Pow2(64), 8, alg.big);
            var rest := message[n..] + [0x80];
            var words := Fold(alg, alg.words, message[..n]);
            if |rest| <= 56 then
              |rest + (Zeros(56 - |rest|) + length)| == 64
              && Fold(alg, words, rest + (Zeros(56 - |rest|) + length)) == Fold(alg, alg.words, p)
            else
              |rest + Zeros(64 - |rest|)| == 64
              && Fold(alg, Fold(alg, words, rest + Zeros(64 - |rest|)), Zeros(56) + length) == Fold(alg, alg.words, p)
  {
    hide Pow2, Fold, Bytes, Zeros, Padded;
    var p, n, length := Padded(message, alg.big), Whole(|message|), Bytes(8 * |message| % Pow2(64), 8, alg.big);
    var rest := message[n..] + [0x80];
    PaddedText(message, alg.big);
    if |rest| <= 56 {
      FoldConcat(alg, alg.words, message[..n], rest + (Zeros(56 - |rest|) + length));
    } else {
      var last := rest + Zeros(64 - |rest|);
      FoldConcat(alg, alg.words, message[..n], last);
      FoldConcat(alg, alg.words, message[..n] + last, Zeros(56) + length);
    }
  }

  // The padded message as whole blocks and what follows them.
  lemma PaddedText(message: seq<Byte>, big: bool)
    ensures var n, length := Whole(|message|), Bytes(8 * |message| % Pow2(64), 8, big);
            var rest := message[n..] + [0x80];
            Padded(message, big) == if |rest| <= 56 then message[..n] + (rest + (Zeros(56 - |rest|) + length))
                                    else message[..n] + (rest + Zeros(64 - |rest|)) + (Zeros(56) + length)
  {
    hide Pow2, Bytes, Zeros;
    var n, length := Whole(|message|), Bytes(8 * |message| % Pow2(64), 8, big);
    var rest := message[n..] + [0x80];
    assert message == message[..n] + message[n..];
    if |rest| <= 56 {
      assert ZeroCount(|message|) == 56 - |rest|;
    } else {
      assert ZeroCount(|message|) == 64 - |rest| + 56;
      ZerosAdd(64 - |rest|, 56);
    }
  }

  lemma ZerosAdd(a: nat, b: nat)
    ensures Zeros(a + b) == Zeros(a) + Zeros(b)
  {
  }

  // However the message is split.
  method HashPieces(alg: Algorithm, pieces: seq<seq<Byte>>) returns (result: seq<Byte>)
    ensures result == Digest(alg, Joined(pieces))
  {
    var context := new Context(alg);
    var i := 0;
    while i < |pieces|
      invariant 0 <= i <= |pieces| && fresh(context) && fresh(context.buffer)
      invariant context.Valid() && context.alg == alg && context.message == Joined(pieces[..i])
    {
      context.Update(pieces[i]);
      assert pieces[..i + 1][..i] == pieces[..i];
      i := i + 1;
    }
    assert pieces[..i] == pieces;
    result := context.Final();
  }

  function Joined(pieces: seq<seq<Byte>>): seq<Byte> {
    if pieces == [] then [] else Joined(pieces[..|pieces| - 1]) + pieces[|pieces| - 1]
  }
}
