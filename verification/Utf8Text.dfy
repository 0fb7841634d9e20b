// Characters in UTF-8: writing one, and reading one.
module Utf8Text {
  import opened Wrappers
  import opened JsonBuffer

  function Utf8(u: nat): (r: Text)
    requires u < 0x110000
    ensures 1 <= |r| <= 4 && (u < 0x10000 ==> |r| <= 3)
  {
    if u < 0x80 then [u]
    else if u < 0x800 then [u / 0x40 + 0xc0, u % 0x40 + 0x80]
    else if u < 0x10000 then [u / 0x1000 + 0xe0, u / 0x40 % 0x40 + 0x80, u % 0x40 + 0x80]
    else [u / 0x40000 + 0xf0, u / 0x1000 % 0x40 + 0x80, u / 0x40 % 0x40 + 0x80, u % 0x40 + 0x80]
  }

  // ----- reading -----

  // How many bytes continue a character that begins with this one.
  function Following(lead: Byte): nat
    requires 0xc2 <= lead <= 0xf4
  {
    if lead >= 0xf0 then 3 else if lead >= 0xe0 then 2 else 1
  }

  // The bits of the first byte behind those that tell the length.
  function LeadBits(lead: Byte): nat
    requires 0xc2 <= lead <= 0xf4
  {
    if lead >= 0xf0 then lead - 0xf0 else if lead >= 0xe0 then lead - 0xe0 else lead - 0xc0
  }

  // Takes in n bytes of six bits each.
  function Continued(t: Text, n: nat, u: nat): Option<nat> {
    if n == 0 then Some(u)
    else if t == [] || t[0] < 0x80 || t[0] > 0xbf then None
    else Continued(t[1..], n - 1, u * 0x40 + (t[0] - 0x80))
  }

  // The greatest character that takes fewer bytes.
  function Overlong(n: nat): nat
    requires 1 <= n <= 3
  {
    if n == 1 then 0x7f else if n == 2 then 0x7ff else 0xffff
  }

  // The character at the beginning, and the number of its bytes.
  function ReadUtf8(t: Text): Option<(nat, nat)> {
    if t == [] then None
    else if t[0] < 0x80 then Some((t[0], 1))
    else if t[0] < 0xc2 || t[0] > 0xf4 then None
    else
      var n := Following(t[0]);
      match Continued(t[1..], n, LeadBits(t[0]))
      case None => None
      case Some(u) => if Overlong(n) < u < 0x110000 then Some((u, n + 1)) else None
  }

  // What is written is read back, whatever follows.
  lemma WrittenIsRead(u: nat, rest: Text)
    requires u < 0x110000
    ensures ReadUtf8(Utf8(u) + rest) == Some((u, |Utf8(u)|))
  {
    var r := Utf8(u);
    var t := r + rest;
    if u >= 0x80 {
      assert forall i | 0 <= i < |r| - 1 :: t[1..][i] == r[i + 1];
      ContinuedBytes(t[1..], |r| - 1, LeadBits(t[0]));
      if u < 0x800 {
      } else if u < 0x10000 {
        Sextets(u, 2);
      } else {
        Sextets(u, 3);
      }
    }
  }

  // A number in pieces of six bits.
  lemma Sextets(u: nat, n: nat)
    requires 2 <= n <= 3
    ensures n == 2 ==> (u / 0x1000 * 0x40 + u / 0x40 % 0x40) * 0x40 + u % 0x40 == u
    ensures n == 3 ==> ((u / 0x40000 * 0x40 + u / 0x1000 % 0x40) * 0x40 + u / 0x40 % 0x40) * 0x40 + u % 0x40 == u
  {
  }

  // And what is read is what would be written, so that no two texts are read as
  // the same character.
  lemma ReadIsWritten(t: Text)
    requires ReadUtf8(t).Some?
    ensures var (u, n) := ReadUtf8(t).value; u < 0x110000 && n <= |t| && t[..n] == Utf8(u)
  {
    var (u, n) := ReadUtf8(t).value;
    if n > 1 {
      var s, lead := t[1..], LeadBits(t[0]);
      ContinuedLength(s, n - 1, lead);
      ContinuedBytes(s, n - 1, lead);
      if n == 2 {
        assert t[..2] == [t[0], s[0]];
      } else if n == 3 {
        assert t[..3] == [t[0], s[0], s[1]];
        Pieces(u, 0, lead, s[0] - 0x80, s[1] - 0x80);
      } else {
        assert t[..4] == [t[0], s[0], s[1], s[2]];
        Pieces(u, lead, s[0] - 0x80, s[1] - 0x80, s[2] - 0x80);
      }
    }
  }

  lemma Pieces(u: nat, a: nat, b: nat, c: nat, d: nat)
    requires b < 0x40 && c < 0x40 && d < 0x40 && u == ((a * 0x40 + b) * 0x40 + c) * 0x40 + d
    ensures u / 0x40000 == a && u / 0x1000 == a * 0x40 + b && u / 0x1000 % 0x40 == b
    ensures u / 0x40 % 0x40 == c && u % 0x40 == d
  {
    var x := (a * 0x40 + b) * 0x40 + c;
    assert u / 0x40 == x;
    assert u / 0x1000 == x / 0x40 == a * 0x40 + b;
  }

  lemma ContinuedLength(t: Text, n: nat, u: nat)
    requires Continued(t, n, u).Some?
    ensures n <= |t| && forall i | 0 <= i < n :: 0x80 <= t[i] <= 0xbf
  {
    if n > 0 {
      ContinuedLength(t[1..], n - 1, u * 0x40 + (t[0] - 0x80));
      assert forall i | 0 < i < n :: t[i] == t[1..][i - 1];
    }
  }

  lemma ContinuedBytes(t: Text, n: nat, u: nat)
    requires 1 <= n <= 3 && n <= |t| && forall i | 0 <= i < n :: 0x80 <= t[i] <= 0xbf
    ensures n == 1 ==> Continued(t, n, u) == Some(u * 0x40 + (t[0] - 0x80))
    ensures n == 2 ==> Continued(t, n, u) == Some((u * 0x40 + (t[0] - 0x80)) * 0x40 + (t[1] - 0x80))
    ensures n == 3 ==>
              Continued(t, n, u)
              == Some(((u * 0x40 + (t[0] - 0x80)) * 0x40 + (t[1] - 0x80)) * 0x40 + (t[2] - 0x80))
  {
    if n > 1 {
      ContinuedBytes(t[1..], n - 1, u * 0x40 + (t[0] - 0x80));
    }
  }

  // The code that reads a character.
  method DecodeUtf8(t: Text, start: nat) returns (r: Option<nat>, next: nat)
    requires start < |t|
    ensures r == (match ReadUtf8(t[start..]) case Some(c) => Some(c.0) case None => None)
    ensures next == (match ReadUtf8(t[start..]) case Some(c) => start + c.1 case None => start)
  {
    var u: nat, p := t[start], start + 1;
    assert t[start..][1..] == t[p..];
    if u < 0x80 {
      return Some(u), p;
    }
    if u < 0xc2 || u > 0xf4 {
      return None, start;
    }
    var overlong, n: nat := 0x7f, 1;
    if u >= 0xf0 {
      u, overlong, n := u % 8, 0xffff, 3;
    } else if u >= 0xe0 {
      u, overlong, n := u % 16, 0x7ff, 2;
    } else {
      u := u % 32;
    }
    ghost var whole, n0 := Continued(t[p..], n, u), n;
    if p + n <= |t| {
      while n != 0
        invariant p == start + 1 + n0 - n && n <= n0 && p + n <= |t| && Continued(t[p..], n, u) == whole
      {
        var c := t[p];
        if c < 0x80 || c - 0x80 > 0x3f {
          return None, start;
        }
        assert t[p..][1..] == t[p + 1..];
        u, p, n := u * 0x40 + (c - 0x80), p + 1, n - 1;
      }
      if overlong < u < 0x110000 {
        return Some(u), p;
      }
    } else {
      TooShort(t[p..], n, u);
    }
    return None, start;
  }

  lemma {:induction false} TooShort(t: Text, n: nat, u: nat)
    requires |t| < n
    ensures Continued(t, n, u).None?
  {
    if t != [] && 0x80 <= t[0] <= 0xbf {
      TooShort(t[1..], n - 1, u * 0x40 + (t[0] - 0x80));
    }
  }
}
