// Keyed digests by the construction of RFC 2104.
module Hmacs {
  import opened Wrappers
  import opened Arithmetic
  import opened Digests

  function XorByte(a: Byte, b: Byte): Byte { (a as bv8 ^ b as bv8) as Byte }

  predicate Bit(x: bv8, i: nat)
    requires i < 8
  {
    (x >> i) & 1 == 1
  }

  // A bit is set if it is in just one of the two.
  lemma XorBits(a: Byte, b: Byte, i: nat)
    requires i < 8
    ensures Bit(XorByte(a, b) as bv8, i) <==> Bit(a as bv8, i) != Bit(b as bv8, i)
  {
    XorVectors(a, b);
    VectorBits(a as bv8, b as bv8, i);
    hide *;
  }

  lemma VectorBits(x: bv8, y: bv8, i: nat)
    requires i < 8
    ensures Bit(x ^ y, i) <==> Bit(x, i) != Bit(y, i)
  {
    assert ((x ^ y) >> i) & 1 == ((x >> i) & 1) ^ ((y >> i) & 1);
  }

  lemma XorVectors(a: Byte, b: Byte)
    ensures XorByte(a, b) as bv8 == (a as bv8) ^ (b as bv8)
  {
  }

  function Xor(s: seq<Byte>, b: Byte): (r: seq<Byte>)
    ensures |r| == |s| && forall i | 0 <= i < |s| :: r[i] == XorByte(s[i], b)
  {
    seq(|s|, i requires 0 <= i < |s| => XorByte(s[i], b))
  }

  // The key in a block: a long key is digested first.
  function BlockKey(alg: Algorithm, key: seq<Byte>): seq<Byte> {
    var k := if |key| > 64 then Digest(alg, key) else key;
    k + Zeros(if |k| < 64 then 64 - |k| else 0)
  }

  function HmacOf(alg: Algorithm, key: seq<Byte>, message: seq<Byte>): seq<Byte> {
    var k := BlockKey(alg, key);
    Digest(alg, Xor(k, 0x5c) + Digest(alg, Xor(k, 0x36) + message))
  }

  lemma DigestLength(alg: Algorithm, message: seq<Byte>)
    requires AlgorithmOk(alg)
    ensures |Digest(alg, message)| == 4 * |alg.words| <= 32
  {
    hide Padded;
    FoldLength(alg, alg.words, Padded(message, alg.big));
  }

  // The block for the key; a long key is digested in the context, which is then
  // started again.
  method KeyBlock(u: Context, key: seq<Byte>) returns (keyBuf: array<Byte>)
    requires AlgorithmOk(u.alg) && u.Valid() && u.message == []
    modifies u, u.buffer
    ensures fresh(keyBuf) && keyBuf[..] == BlockKey(u.alg, key) && keyBuf.Length == 64
    ensures u.Valid() && u.message == [] && u.buffer == old(u.buffer)
  {
    keyBuf := new Byte[64];
    if |key| > keyBuf.Length {
      hide Digest, Context.Valid;
      u.Update(key);
      assert [] + key == key;
      var digest := u.Final();
      DigestLength(u.alg, key);
      Pad(keyBuf, digest);
      u.Init();
    } else {
      Pad(keyBuf, key);
    }
  }

  method Pad(buf: array<Byte>, s: seq<Byte>)
    requires buf.Length == 64 && |s| <= 64
    modifies buf
    ensures buf[..] == s + Zeros(64 - |s|)
  {
    forall i | 0 <= i < |s| {
      buf[i] := s[i];
    }
    forall i | |s| <= i < 64 {
      buf[i] := 0;
    }
  }

  method CopyXor(src: array<Byte>, dst: array<Byte>, b: Byte)
    requires src.Length == dst.Length
    modifies dst
    ensures dst[..] == Xor(old(src[..]), b)
  {
    hide XorByte;
    var i := 0;
    while i < src.Length
      invariant 0 <= i <= src.Length
      invariant forall j | 0 <= j < src.Length :: dst[j] == if j < i then XorByte(old(src[j]), b) else old(dst[j])
      invariant src != dst ==> src[..] == old(src[..])
    {
      dst[i] := XorByte(src[i], b);
      i := i + 1;
    }
  }

  // The digest of the inner message ends, and the outer one is taken in the same
  // context.
  method OuterDigest(u: Context, outer: seq<Byte>) returns (digest: seq<Byte>)
    requires u.Valid()
    modifies u, u.buffer
    ensures digest == Digest(u.alg, outer + Digest(u.alg, old(u.message))) && u.buffer == old(u.buffer)
  {
    hide Digest, Context.Valid;
    var hash1 := u.Final();
    u.Init();
    u.Update(outer);
    assert [] + outer == outer;
    u.Update(hash1);
    digest := u.Final();
  }

  datatype Answer = Bytes(bytes: seq<Byte>) | AlreadyCalled

  class Hmac {
    var alg: Option<Algorithm>
    var opad: array<Byte>
    const context: Context
    ghost const key: seq<Byte>
    ghost var message: seq<Byte>

    ghost predicate Valid()
      reads this, context, opad, context.buffer
    {
      && opad.Length == 64 && opad != context.buffer
      && (alg.Some? ==>
            && alg.value == context.alg && context.Valid() && opad[..] == Xor(BlockKey(context.alg, key), 0x5c)
            && context.message == Xor(BlockKey(context.alg, key), 0x36) + message)
    }

    constructor (alg: Algorithm, key: seq<Byte>)
      requires AlgorithmOk(alg)
      ensures Valid() && fresh(opad) && fresh(context) && fresh(context.buffer)
      ensures this.alg == Some(alg) && this.key == key && message == []
    {
      hide Xor, XorByte, BlockKey, Context.Valid;
      var u := new Context(alg);
      var keyBuf := KeyBlock(u, key);
      var outer := new Byte[64];
      CopyXor(keyBuf, outer, 0x5c);
      CopyXor(keyBuf, keyBuf, 0x36);
      u.Update(keyBuf[..]);
      assert Xor(BlockKey(alg, key), 0x36) + [] == Xor(BlockKey(alg, key), 0x36);
      context, opad, message := u, outer, [];
      this.alg, this.key := Some(alg), key;
    }

    method Update(data: seq<Byte>) returns (ok: bool)
      requires Valid()
      modifies context, context.buffer, this`message
      ensures Valid() && alg == old(alg)
      ensures ok <==> alg.Some?
      ensures message == if ok then old(message) + data else old(message)
    {
      if alg.None? {
        return false;
      }
      hide Context.Valid, Xor, BlockKey;
      ghost var inner := Xor(BlockKey(context.alg, key), 0x36);
      assert inner + (message + data) == inner + message + data;
      context.Update(data);
      message := message + data;
      ok := true;
    }

    method Finish() returns (r: Answer)
      requires Valid()
      modifies this`alg, context, context.buffer
      ensures Valid() && alg == None
      ensures r == if old(alg).Some? then Answer.Bytes(HmacOf(old(alg).value, key, message)) else AlreadyCalled
    {
      if alg.None? {
        return AlreadyCalled;
      }
      hide Digest, Xor, BlockKey, Context.Valid;
      var digest := OuterDigest(context, opad[..]);
      alg := None;
      r := Answer.Bytes(digest);
    }
  }
}
