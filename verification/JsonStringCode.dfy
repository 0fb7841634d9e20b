// The code that writes and reads strings of JSON text.
module JsonStringCode {
  import opened Allocations
  import opened JsonBuffer
  import opened Utf8Text
  import opened JsonStrings

  const QUOTE: Byte := 34
  const BACKSLASH: Byte := 92

  // ----- writing -----

  predicate Continues(b: Byte) { 0x80 <= b < 0xc0 }

  // Characters of one byte, and of two to four of which all but the first
  // continue it.
  predicate Characters(s: Text) {
    s == [] || (CharLength(s) > 0 && Characters(s[CharLength(s)..]))
  }

  function CharLength(s: Text): (n: nat)
    requires s != []
    ensures n <= 4 && n <= |s|
  {
    if s[0] < 0x80 then 1
    else if s[0] < 0xc0 || |s| < 2 || !Continues(s[1]) then 0
    else if |s| < 3 || !Continues(s[2]) then 2
    else if |s| < 4 || !Continues(s[3]) then 3
    else if |s| < 5 || !Continues(s[4]) then 4 else 0
  }

  function Encoded(u: seq<nat>): (r: Text)
    requires forall i | 0 <= i < |u| :: u[i] < 0x110000
  {
    if u == [] then [] else Utf8(u[0]) + Encoded(u[1..])
  }

  // All text in UTF-8 is such, and each of its characters is found.
  lemma {:induction false} EncodedCharacters(u: seq<nat>)
    requires forall i | 0 <= i < |u| :: u[i] < 0x110000
    ensures Characters(Encoded(u)) && (u != [] ==> CharLength(Encoded(u)) == |Utf8(u[0])|)
    ensures u != [] ==> Encoded(u) != [] && !Continues(Encoded(u)[0])
  {
    if u != [] {
      var c, rest := Utf8(u[0]), Encoded(u[1..]);
      EncodedCharacters(u[1..]);
      assert (c + rest)[|c|..] == rest;
      FirstCharacter(u[0], rest);
    }
  }

  lemma FirstCharacter(u: nat, rest: Text)
    requires u < 0x110000 && (rest != [] ==> !Continues(rest[0]))
    ensures CharLength(Utf8(u) + rest) == |Utf8(u)| && !Continues(Utf8(u)[0])
  {
    var c := Utf8(u);
    assert forall i | 0 < i < |c| :: Continues(c[i]);
    assert u >= 0x80 ==> c[0] >= 0xc0;
  }

  lemma CharactersPlain(s: Text)
    requires s != [] && CharLength(s) > 1
    ensures forall i | 0 <= i < CharLength(s) :: Plain(s[i])
  {
  }

  lemma {:induction false} PlainEscaped(s: Text)
    requires forall i | 0 <= i < |s| :: Plain(s[i])
    ensures Escaped(s) == s
  {
    if s != [] {
      PlainEscaped(s[1..]);
    }
  }

  // The length of a character, found by looking for the bytes that continue it.
  method CharToCopy(s: Text, p: nat) returns (n: nat)
    requires p < |s| && Characters(s[p..])
    ensures n == CharLength(s[p..])
  {
    var t := s[p..];
    n := 1;
    if s[p] >= 0x80 {
      while p + n < |s| && Continues(s[p + n])
        invariant 1 <= n <= CharLength(t) && p + n <= |s|
      {
        assert s[p + n] == t[n];
        n := n + 1;
      }
      assert p + n < |s| ==> s[p + n] == t[n];
    }
  }

  function Quoted(s: Text): Text { [QUOTE] + Escaped(s) + [QUOTE] }

  // From a to b the string was written, as far as memory allowed: allocations
  // were asked for until one was refused, and the string is complete just when
  // none was.  Without one the room it takes was there, which it is for an empty
  // string if 64 bytes are.
  ghost predicate StringWritten(memory: seq<bool>, a: Store, s: Text, b: Store, ok: bool) {
    var w := |b.text| - |a.text|;
    && 0 <= w <= |Quoted(s)| && b.text == a.text + Quoted(s)[..w] && (ok <==> w == |Quoted(s)|)
    && b.quiet == a.quiet && b.lost == a.lost && a.asked <= b.asked
    && (forall i | a.asked <= i < b.asked - 1 :: Granted(memory, i))
    && (if a.asked == b.asked then ok && b.room + w == a.room else ok == Granted(memory, b.asked - 1))
    && (s == [] && a.room >= 64 ==> a.asked == b.asked)
  }

  // Writes a string; utf8 tells whether it is in characters or in bytes.  Seven
  // bytes of the room are left for the closing quote, which is why it needs no
  // memory, whatever the source does not look at.
  method AppendString(buffer: Buffer, s: Text, utf8: bool) returns (ok: bool)
    requires buffer.Valid() && (utf8 ==> Characters(s))
    modifies buffer`full, buffer`any, buffer`data, buffer`pos, buffer`asked, buffer.data
    ensures buffer.Valid() && (buffer.data == old(buffer.data) || fresh(buffer.data))
    ensures StringWritten(buffer.memory, old(buffer.State()), s, buffer.State(), ok)
  {
    hide Escaped, Characters, Wrote, Partly, StringWritten;
    ghost var a := buffer.State();
    ok := buffer.Reserve(64);
    if !ok {
      NothingWritten(buffer.memory, a, s, buffer.State());
      return;
    }
    ghost var text := a.text + [QUOTE];
    var dst, end := Open(buffer, s, text);
    var p := 0;
    StartPartly(buffer.memory, a, s, buffer.State());
    while p < |s|
      invariant 0 <= p <= |s| && 0 <= dst && (utf8 ==> Characters(s[p..])) && buffer.Valid()
      invariant buffer.any && Wrote(buffer, s, p, dst, text) && dst + 7 <= end <= buffer.data.Length
      invariant buffer.data == old(buffer.data) || fresh(buffer.data)
      invariant Partly(buffer.memory, a, s, buffer.State(), p)
      decreases |s| - p
    {
      ghost var p0 := p;
      p, dst := WriteSome(buffer, s, utf8, p, dst, end, text);
      PartlyOn(buffer.memory, a, s, buffer.State(), p0, p);
      if end - dst <= 6 {
        ok := Flush(buffer, s, p, dst, text, a);
        if !ok {
          return;
        }
        dst, end := buffer.pos, buffer.pos + 64;
      }
    }
    Close(buffer, s, dst, text, a);
    ok := true;
  }

  // All allocations since a were granted, and if there was none the node is the
  // same; p bytes of the string have been written or stand behind.
  ghost predicate Partly(memory: seq<bool>, a: Store, s: Text, c: Store, p: nat) {
    && p <= |s| && |a.text| <= |c.text| && c.quiet == a.quiet && c.lost == a.lost && a.asked <= c.asked
    && (forall i | a.asked <= i < c.asked :: Granted(memory, i))
    && (a.asked == c.asked ==> c.room + |c.text| == a.room + |a.text|)
    && (p == 0 && a.room >= 64 ==> a.asked == c.asked)
  }

  lemma StartPartly(memory: seq<bool>, a: Store, s: Text, c: Store)
    requires (c, true) == Taken(memory, a, 64)
    ensures Partly(memory, a, s, c, 0)
  {
  }

  lemma PartlyOn(memory: seq<bool>, a: Store, s: Text, c: Store, p0: nat, p: nat)
    requires Partly(memory, a, s, c, p0) && p0 <= p <= |s|
    ensures Partly(memory, a, s, c, p)
  {
  }

  lemma NothingWritten(memory: seq<bool>, a: Store, s: Text, b: Store)
    requires (b, false) == Taken(memory, a, 64)
    ensures StringWritten(memory, a, s, b, false)
  {
    assert a.text + Quoted(s)[..0] == a.text;
  }

  method Open(buffer: Buffer, s: Text, ghost text: Text) returns (dst: nat, end: nat)
    requires buffer.Valid() && buffer.pos + 64 <= buffer.data.Length && text == buffer.Contents() + [QUOTE]
    modifies buffer.data
    ensures Wrote(buffer, s, 0, dst, text) && dst + 63 == end <= buffer.data.Length
    ensures buffer.State() == old(buffer.State())
  {
    dst, end := buffer.pos, buffer.pos + 64;
    buffer.Put(dst, [QUOTE]);
    dst := dst + 1;
    StartEscaped(s);
  }

  // What was written is counted, and there is room for 64 bytes more.
  method Flush(buffer: Buffer, s: Text, p: nat, dst: nat, ghost text: Text, ghost a: Store) returns (ok: bool)
    requires Wrote(buffer, s, p, dst, text) && buffer.any && p > 0 && text == a.text + [QUOTE]
    requires Partly(buffer.memory, a, s, buffer.State(), p)
    modifies buffer`full, buffer`any, buffer`data, buffer`pos, buffer`asked
    ensures buffer.data == old(buffer.data) || fresh(buffer.data)
    ensures ok ==> buffer.any && buffer.pos + 64 <= buffer.data.Length
    ensures ok ==> Wrote(buffer, s, p, buffer.pos, text) && Partly(buffer.memory, a, s, buffer.State(), p)
    ensures !ok ==> buffer.Valid() && StringWritten(buffer.memory, a, s, buffer.State(), false)
  {
    hide Escaped;
    buffer.Written(dst - buffer.pos);
    ghost var c := buffer.State();
    ok := buffer.Reserve(64);
    if !ok {
      CutShort(buffer.memory, a, s, c, buffer.State(), p);
    }
  }

  lemma CutShort(memory: seq<bool>, a: Store, s: Text, c: Store, b: Store, p: nat)
    requires Partly(memory, a, s, c, p) && p > 0 && c.text == a.text + [QUOTE] + Escaped(s[..p])
    requires (b, false) == Taken(memory, c, 64)
    ensures StringWritten(memory, a, s, b, false)
  {
    hide Escaped;
    assert s == s[..p] + s[p..];
    EscapedConcat(s[..p], s[p..]);
    var w := 1 + |Escaped(s[..p])|;
    assert Quoted(s)[..w] == [QUOTE] + Escaped(s[..p]);
  }

  method Close(buffer: Buffer, s: Text, dst: nat, ghost text: Text, ghost a: Store)
    requires Wrote(buffer, s, |s|, dst, text) && buffer.any && dst + 7 <= buffer.data.Length
    requires text == a.text + [QUOTE] && Partly(buffer.memory, a, s, buffer.State(), |s|)
    modifies buffer`full, buffer`any, buffer`data, buffer`pos, buffer`asked, buffer.data
    ensures buffer.Valid() && (buffer.data == old(buffer.data) || fresh(buffer.data))
    ensures StringWritten(buffer.memory, a, s, buffer.State(), true)
  {
    hide Escaped;
    assert s[..|s|] == s;
    buffer.Written(dst - buffer.pos);
    ghost var c := buffer.State();
    var closed := buffer.Append([QUOTE]);
    assert closed;
    assert buffer.State().text == a.text + Quoted(s);
    assert Quoted(s)[..|Quoted(s)|] == Quoted(s);
  }

  // The text in the buffer, with what stands behind it up to dst, is text and
  // the first p bytes escaped.
  ghost predicate Wrote(buffer: Buffer, s: Text, p: nat, dst: nat, text: Text)
    reads buffer, buffer.data
  {
    && buffer.Valid() && p <= |s| && buffer.pos <= dst <= buffer.data.Length
    && buffer.Contents() + buffer.data[buffer.pos..dst] == text + Escaped(s[..p])
  }

  // Writes an escape, if one is due, and then plain bytes while there is room
  // for an escape still.
  method WriteSome(buffer: Buffer, s: Text, utf8: bool, p0: nat, dst0: nat, end: nat, ghost text: Text)
    returns (p: nat, dst: nat)
    requires buffer.Valid() && Wrote(buffer, s, p0, dst0, text) && p0 < |s| && (utf8 ==> Characters(s[p0..]))
    requires dst0 + 7 <= end <= buffer.data.Length
    modifies buffer.data
    ensures p0 < p <= |s| && dst <= end && Wrote(buffer, s, p, dst, text) && (utf8 ==> Characters(s[p..]))
    ensures buffer.Valid() && buffer.State() == old(buffer.State())
  {
    hide Escaped, Escape, Characters, Wrote;
    p, dst := p0, dst0;
    if !Plain(s[p]) {
      EscapedByte(s[p]);
      EscapedStep(s, p, 1);
      assert s[p..p + 1] == [s[p]];
      CharacterStep(s, p, utf8);
      PutMore(buffer, s, p, dst, text, 1, Escape(s[p]));
      dst := dst + |Escape(s[p])|;
      p := p + 1;
    }
    while p < |s| && end - dst > 6 && Plain(s[p])
      invariant p0 <= p <= |s| && (utf8 ==> Characters(s[p..])) && (p == p0 ==> end - dst > 6 && Plain(s[p0]))
      invariant dst <= end && Wrote(buffer, s, p, dst, text) && buffer.Valid() && buffer.State() == old(buffer.State())
      decreases |s| - p
    {
      var n := 1;
      if utf8 {
        CharacterStep(s, p, true);
        n := CharToCopy(s, p);
      }
      CharacterStep(s, p, utf8);
      PlainRun(s, p, n, utf8);
      EscapedStep(s, p, n);
      PutMore(buffer, s, p, dst, text, n, s[p..p + n]);
      dst, p := dst + n, p + n;
    }
  }

  method PutMore(buffer: Buffer, s: Text, p: nat, dst: nat, ghost text: Text, n: nat, msg: Text)
    requires Wrote(buffer, s, p, dst, text) && p + n <= |s| && dst + |msg| <= buffer.data.Length
    requires Escaped(s[..p + n]) == Escaped(s[..p]) + msg
    modifies buffer.data
    ensures Wrote(buffer, s, p + n, dst + |msg|, text)
    ensures buffer.Valid() && buffer.State() == old(buffer.State())
  {
    hide Escaped;
    ghost var c, d := buffer.Contents(), buffer.data[buffer.pos..dst];
    buffer.Put(dst, msg);
    assert c + (d + msg) == (c + d) + msg && (text + Escaped(s[..p])) + msg == text + (Escaped(s[..p]) + msg);
  }

  lemma StartEscaped(s: Text)
    ensures Escaped(s[..0]) == []
  {
  }

  lemma EscapedStep(s: Text, p: nat, n: nat)
    requires p + n <= |s|
    ensures Escaped(s[..p + n]) == Escaped(s[..p]) + Escaped(s[p..p + n])
  {
    assert s[..p + n] == s[..p] + s[p..p + n];
    EscapedConcat(s[..p], s[p..p + n]);
  }

  lemma EscapedByte(b: Byte)
    ensures Escaped([b]) == Escape(b) && 1 <= |Escape(b)| <= 6
  {
    assert [b][1..] == [];
  }

  lemma CharacterStep(s: Text, p: nat, utf8: bool)
    requires p < |s| && (utf8 ==> Characters(s[p..]))
    ensures utf8 ==> 1 <= CharLength(s[p..]) <= 4 && Characters(s[p + CharLength(s[p..])..])
    ensures utf8 && !Plain(s[p]) ==> CharLength(s[p..]) == 1
  {
    if utf8 {
      assert s[p..][CharLength(s[p..])..] == s[p + CharLength(s[p..])..];
    }
  }

  lemma PlainRun(s: Text, p: nat, n: nat, utf8: bool)
    requires p + n <= |s| && p < |s| && Plain(s[p]) && n == if utf8 then CharLength(s[p..]) else 1
    ensures Escaped(s[p..p + n]) == s[p..p + n]
  {
    if n > 1 {
      CharactersPlain(s[p..]);
      assert forall i | 0 <= i < n :: s[p..p + n][i] == s[p..][i];
    }
    PlainEscaped(s[p..p + n]);
  }

  // ----- reading -----

  datatype StringError = ForbiddenChar | UnknownEscape | InvalidUnicode | UnexpectedEnd | NoMemory

  datatype StringResult = Read(value: Text, next: nat) | Failed(error: StringError, at: nat)

  // The string that begins at start ends at last.
  ghost predicate Ends(text: Text, start: nat, last: nat) {
    start <= last < |text| && text[last] == QUOTE && Body(text[start..last])
  }

  ghost predicate HasEnd(text: Text, start: nat) { exists e: nat :: Ends(text, start, e) }

  // Where a scan of the text stands: within an escape of which k bytes are read.
  ghost predicate Scanned(text: Text, start: nat, p: nat, k: nat, surplus: nat) {
    && start + k <= p <= |text| && k <= 5 && Body(text[start..p - k])
    && surplus == Surplus(text[start..p - k]) + (if k >= 2 then 3 else 0)
    && (k > 0 ==> text[p - k] == BACKSLASH) && (k > 1 ==> text[p - k + 1] == C('u'))
    && forall i | p - k + 2 <= i < p :: IsHex(text[i])
  }

  // The token that begins where the scan stands is n bytes long.
  lemma TokenEnds(text: Text, start: nat, p: nat, k: nat, surplus: nat)
    requires Scanned(text, start, p, k, surplus) && p < |text|
    requires First(text[p - k..p + 1]) == k + 1
    ensures Scanned(text, start, p + 1, 0, surplus + if k == 1 then 1 else 0)
  {
    var t := text[p - k..p + 1];
    assert text[start..p + 1] == text[start..p - k] + t;
    assert t[k + 1..] == [];
    BodyConcat(text[start..p - k], t);
  }

  // If the token where the scan stands cannot be ended, no string can.
  lemma NoEnd(text: Text, start: nat, q: nat, last: nat)
    requires start <= q <= |text| && Body(text[start..q]) && Ends(text, start, last)
    ensures q <= last && (q < last ==> First(text[q..last]) > 0) && (q == last ==> text[q] == QUOTE)
  {
    if last < q {
      NoQuoteInside(text, start, last, q);
    } else {
      RestBody(text, start, q, last);
    }
  }

  lemma NoQuoteInside(text: Text, start: nat, last: nat, q: nat)
    requires start <= last < q <= |text| && Body(text[start..q]) && Body(text[start..last])
    ensures text[last] != QUOTE
  {
    assert text[start..q][..last - start] == text[start..last];
    BodyCut(text[start..q], last - start);
    assert text[start..q][last - start..] == text[last..q];
    assert text[last..q][0] == text[last];
  }

  // A string has only one end.
  lemma OneEnd(t: Text, start: nat, a: nat, b: nat)
    requires Ends(t, start, a) && Ends(t, start, b)
    ensures a == b
  {
    if a < b {
      NoQuoteInside(t, start, a, b);
    } else if b < a {
      NoQuoteInside(t, start, b, a);
    }
  }

  lemma RestBody(text: Text, start: nat, q: nat, last: nat)
    requires start <= q <= last <= |text| && Body(text[start..q]) && Body(text[start..last])
    ensures Body(text[q..last])
  {
    assert text[start..last][..q - start] == text[start..q];
    BodyCut(text[start..last], q - start);
    assert text[start..last][q - start..] == text[q..last];
  }

  // Why the scan cannot go on: the character it stands at does not fit what k
  // bytes of an escape were read before it.
  predicate Misfit(text: Text, p: nat, k: nat, error: StringError)
    requires p <= |text|
  {
    match error
    case UnexpectedEnd => p == |text|
    case ForbiddenChar => p < |text| && k == 0 && text[p] < 32
    case UnknownEscape => p < |text| && k == 1 && !IsSimple(text[p]) && text[p] != C('u')
    case InvalidUnicode => p < |text| && k >= 2 && !IsHex(text[p])
    case NoMemory => false
  }

  ghost predicate Stops(text: Text, start: nat, p: nat, error: StringError) {
    p <= |text| && exists k: nat, surplus: nat :: Scanned(text, start, p, k, surplus) && Misfit(text, p, k, error)
  }

  // The first pass looks for the closing quote and reckons what escapes save.
  method FindEnd(text: Text, start: nat) returns (error: StringError, last: nat, surplus: nat)
    requires start <= |text|
    ensures last <= |text|
    ensures error != UnexpectedEnd || last == |text| ==> Stops(text, start, last, error)
    ensures error == UnexpectedEnd && last < |text| ==> Ends(text, start, last) && surplus == Surplus(text[start..last])
    ensures HasEnd(text, start) ==> error == UnexpectedEnd && last < |text|
  {
    hide Body, Surplus, Ends, HasEnd, Scanned;
    var p: nat, k: nat := start, 0;
    surplus := 0;
    ScanStarts(text, start);
    while p < |text|
      invariant start <= p <= |text| && Scanned(text, start, p, k, surplus)
    {
      if k == 0 && text[p] == QUOTE {
        ScanEnds(text, start, p, surplus);
        return UnexpectedEnd, p, surplus;
      }
      error, k, surplus := ScanChar(text, start, p, k, surplus);
      if error != UnexpectedEnd {
        return error, p, surplus;
      }
      p := p + 1;
    }
    Stuck(text, start, p, k, surplus);
    return UnexpectedEnd, p, surplus;
  }

  lemma ScanStarts(text: Text, start: nat)
    requires start <= |text|
    ensures Scanned(text, start, start, 0, 0)
  {
    assert text[start..start] == [];
  }

  lemma ScanEnds(text: Text, start: nat, p: nat, surplus: nat)
    requires Scanned(text, start, p, 0, surplus) && p < |text| && text[p] == QUOTE
    ensures Ends(text, start, p) && surplus == Surplus(text[start..p])
  {
    assert text[start..p - 0] == text[start..p];
  }

  // Takes in one character of the string; UnexpectedEnd means that there is no
  // error so far.
  method ScanChar(text: Text, start: nat, p: nat, k0: nat, surplus0: nat)
    returns (error: StringError, k: nat, surplus: nat)
    requires p < |text| && Scanned(text, start, p, k0, surplus0) && !(k0 == 0 && text[p] == QUOTE)
    ensures error == UnexpectedEnd ==> Scanned(text, start, p + 1, k, surplus)
    ensures error != UnexpectedEnd ==> Stops(text, start, p, error) && !HasEnd(text, start)
  {
    hide Body, Surplus, Ends, HasEnd;
    error, k, surplus := UnexpectedEnd, k0, surplus0;
    var ch := text[p];
    ghost var t := text[p - k..p + 1];
    assert t[k] == ch;
    assert forall i | 0 <= i < |t| :: t[i] == text[p - k + i];
    if k == 0 {
      if ch == BACKSLASH {
        k := 1;
      } else if ch >= 32 {
        TokenEnds(text, start, p, k, surplus);
      } else {
        Stuck(text, start, p, k, surplus);
        error := ForbiddenChar;
      }
    } else if k == 1 {
      if IsSimple(ch) {
        TokenEnds(text, start, p, k, surplus);
        surplus := surplus + 1;
        k := 0;
      } else if ch == C('u') {
        surplus := surplus + 3;
        k := 2;
      } else {
        Stuck(text, start, p, k, surplus);
        error := UnknownEscape;
      }
    } else if IsHex(ch) {
      if k == 5 {
        TokenEnds(text, start, p, k, surplus);
        k := 0;
      } else {
        k := k + 1;
      }
    } else {
      Stuck(text, start, p, k, surplus);
      error := InvalidUnicode;
    }
  }

  lemma Stuck(text: Text, start: nat, p: nat, k: nat, surplus: nat)
    requires Scanned(text, start, p, k, surplus)
    requires p == |text| || (k == 0 && text[p] < 32) || (k == 1 && !IsSimple(text[p]) && text[p] != C('u'))
             || (k >= 2 && !IsHex(text[p]))
    ensures !HasEnd(text, start)
  {
    var q := p - k;
    forall e: nat ensures !Ends(text, start, e) {
      if Ends(text, start, e) {
        NoEnd(text, start, q, e);
        if q < e {
          NoToken(text, start, p, k, surplus, e);
        }
      }
    }
  }

  lemma NoToken(text: Text, start: nat, p: nat, k: nat, surplus: nat, e: nat)
    requires Scanned(text, start, p, k, surplus) && p - k < e <= |text|
    requires p == |text| || (k == 0 && text[p] < 32) || (k == 1 && !IsSimple(text[p]) && text[p] != C('u'))
             || (k >= 2 && !IsHex(text[p]))
    ensures First(text[p - k..e]) == 0
  {
    hide Body, Surplus;
    var t := text[p - k..e];
    assert forall i | 0 <= i < |t| :: t[i] == text[p - k + i];
  }

  // The requests for memory: for the decoded text, and for a string of more than
  // 14 bytes.
  function Requests(t: Text): nat
    requires Body(t)
  {
    (if Surplus(t) > 0 then 1 else 0) + if |Decoded(t)| > 14 then 1 else 0
  }

  method ParseString(text: Text, p: nat, memory: seq<bool>, asked0: nat) returns (r: StringResult, asked: nat)
    requires p < |text|
    ensures r.Read? ==>
              && r.next > 0 && Ends(text, p + 1, r.next - 1) && r.value == Decoded(text[p + 1..r.next - 1])
              && asked == asked0 + Requests(text[p + 1..r.next - 1])
    ensures r.Failed? ==> if HasEnd(text, p + 1) then r.error == NoMemory else Stops(text, p + 1, r.at, r.error)
    ensures asked0 <= asked && (r.Failed? && r.error == NoMemory <==> !Served(memory, asked0, asked))
  {
    hide Body, Surplus, Decode, Items, Ends, Stops;
    var start := p + 1;
    asked := asked0;
    var error, last, surplus := FindEnd(text, start);
    if error != UnexpectedEnd || last == |text| {
      NotForMemory(text, start, last, error);
      return Failed(error, last), asked;
    }
    EndsBody(text, start, last);
    var size: nat := last - start - surplus;
    var value := text[start..last];
    if surplus == 0 {
      NoEscapes(value);
    } else {
      asked := asked + 1;
      if !Granted(memory, asked - 1) {
        return Failed(NoMemory, last), asked;
      }
      value := DecodePass(text, start, last, size);
    }
    if |value| > 14 {
      asked := asked + 1;
      if !Granted(memory, asked - 1) {
        return Failed(NoMemory, last), asked;
      }
    }
    r := Read(value, last + 1);
  }

  lemma NotForMemory(text: Text, start: nat, p: nat, error: StringError)
    requires Stops(text, start, p, error)
    ensures error != NoMemory
  {
  }

  // A letter with an accent, a pair of surrogates, and one that has no pair.
  const SAMPLE: Text :=
    [34, 92, 117, 48, 48, 101, 57, 92, 117, 68, 56, 51, 68, 92, 117, 68, 69, 48, 48, 92, 117, 100, 99, 48, 48, 34]

  method ParseSample() returns (r: StringResult)
    ensures r == Read([0xc3, 0xa9, 0xf0, 0x9f, 0x98, 0x80, 0xef, 0xbf, 0xbd], 26)
  {
    hide Body, Decoded, Ends, Stops;
    var asked;
    r, asked := ParseString(SAMPLE, 0, [], 0);
    SampleEnds();
    SampleDecoded();
    if r.Read? {
      OneEnd(SAMPLE, 1, 25, r.next - 1);
    }
  }

  lemma SampleItems()
    ensures var t := SAMPLE[1..25];
            && Body(t) && Surplus(t) == 12
            && Items(t) == [Unit(0xe9), Unit(0xd83d), Unit(0xde00), Unit(0xdc00)]
  {
    hide Body, Surplus, Items, Unicode, IsHex;
    var a: Text, b: Text := [92, 117, 48, 48, 101, 57], [92, 117, 68, 56, 51, 68];
    var c: Text, d: Text := [92, 117, 68, 69, 48, 48], [92, 117, 100, 99, 48, 48];
    SampleDigits(a, b, c, d);
    assert d + [] == d && Body([]) && Surplus([]) == 0 && Items([]) == [] by {
      EmptyBody();
    }
    UnitToken(d, [], 0xdc00);
    UnitToken(c, d, 0xde00);
    UnitToken(b, c + d, 0xd83d);
    UnitToken(a, b + (c + d), 0xe9);
    SampleTokens(a, b, c, d);
  }

  lemma SampleTokens(a: Text, b: Text, c: Text, d: Text)
    requires a == [92, 117, 48, 48, 101, 57] && b == [92, 117, 68, 56, 51, 68]
    requires c == [92, 117, 68, 69, 48, 48] && d == [92, 117, 100, 99, 48, 48]
    ensures SAMPLE[1..25] == a + (b + (c + d))
  {
    assert SAMPLE == [34] + a + b + c + d + [34];
  }

  lemma EmptyBody()
    ensures Body([]) && Surplus([]) == 0 && Items([]) == []
  {
  }

  lemma SampleDigits(a: Text, b: Text, c: Text, d: Text)
    requires a == [92, 117, 48, 48, 101, 57] && b == [92, 117, 68, 56, 51, 68]
    requires c == [92, 117, 68, 69, 48, 48] && d == [92, 117, 100, 99, 48, 48]
    ensures forall b: Byte | b in {48, 51, 56, 57, 68, 69, 99, 100, 101} :: IsHex(b)
    ensures Unicode(a[2..6]) == 0xe9 && Unicode(b[2..6]) == 0xd83d
    ensures Unicode(c[2..6]) == 0xde00 && Unicode(d[2..6]) == 0xdc00
  {
    assert a[2..6] == [48, 48, 101, 57] && b[2..6] == [68, 56, 51, 68];
    assert c[2..6] == [68, 69, 48, 48] && d[2..6] == [100, 99, 48, 48];
  }

  lemma UnitToken(e: Text, rest: Text, u: nat)
    requires |e| == 6 && e[0] == 92 && e[1] == 117 && Body(rest) && u < 0x10000
    requires IsHex(e[2]) && IsHex(e[3]) && IsHex(e[4]) && IsHex(e[5]) && Unicode(e[2..6]) == u
    ensures Body(e + rest) && Surplus(e + rest) == 3 + Surplus(rest)
    ensures Items(e + rest) == [Unit(u)] + Items(rest)
  {
    hide IsHex, HexValue, Unicode;
    var s := e + rest;
    assert s[6..] == rest && s[2..6] == e[2..6];
    assert First(s) == 6;
  }

  lemma SampleEnds()
    ensures HasEnd(SAMPLE, 1) && Ends(SAMPLE, 1, 25)
  {
    hide Body, Items, Surplus, Decode;
    SampleItems();
    assert |SAMPLE| == 26 && SAMPLE[25] == QUOTE;
    assert Ends(SAMPLE, 1, 25);
  }

  lemma SampleDecoded()
    ensures Body(SAMPLE[1..25])
    ensures Decoded(SAMPLE[1..25]) == [0xc3, 0xa9, 0xf0, 0x9f, 0x98, 0x80, 0xef, 0xbf, 0xbd]
  {
    hide Body, Items, Surplus;
    SampleItems();
    var s: ItemList := [Unit(0xe9), Unit(0xd83d), Unit(0xde00), Unit(0xdc00)];
    assert s[3..] == [Unit(0xdc00)] && s[1..] == [Unit(0xd83d), Unit(0xde00), Unit(0xdc00)];
    assert s[1..][2..] == s[3..] && s[3..][1..] == [];
    assert Decode(s[3..]) == Utf8(REPLACEMENT);
    assert Decode(s[1..]) == Utf8(Pair(0xd83d, 0xde00)) + Decode(s[3..]);
    assert Decode(s) == Utf8(0xe9) + Decode(s[1..]);
  }

  lemma EndsBody(text: Text, start: nat, last: nat)
    requires Ends(text, start, last)
    ensures start <= last < |text| && Body(text[start..last]) && text[last] == QUOTE
    ensures Surplus(text[start..last]) + |Decoded(text[start..last])| <= last - start
  {
    DecodedFits(text[start..last]);
  }

  lemma {:induction false} NoEscapes(t: Text)
    requires Body(t) && Surplus(t) == 0
    ensures Decoded(t) == t
    decreases |t|
  {
    if t != [] {
      NoEscapes(t[1..]);
      assert Items(t)[1..] == Items(t[1..]);
    }
  }

  // What is left to decode, and what is decoded.
  ghost predicate Decoding(text: Text, start: nat, p: nat, last: nat, done: Text) {
    && start <= p <= last < |text| && text[last] == QUOTE && Body(text[start..last]) && Body(text[p..last])
    && done + Decoded(text[p..last]) == Decoded(text[start..last])
  }

  // The second pass decodes into room of the size reckoned.
  method DecodePass(text: Text, start: nat, last: nat, size: nat) returns (r: Text)
    requires start < last < |text| && text[last] == QUOTE && Body(text[start..last])
    requires size >= |Decoded(text[start..last])|
    ensures r == Decoded(text[start..last])
  {
    hide Body, Decode, Items, Decoding, First;
    var dst := new Byte[size];
    var s, p := 0, start;
    StartDecoding(text, start, last);
    while true
      invariant start <= p < last && 0 <= s <= size && Decoding(text, start, p, last, dst[..s])
      decreases last - p
    {
      ghost var done := dst[..s];
      var out;
      out, p := DecodeNext(text, start, p, last, done);
      DecodingFits(text, start, p, last, done + out);
      PutInto(dst, s, out);
      s := s + |out|;
      if p == last {
        break;
      }
    }
    EndDecoding(text, start, last, dst[..s]);
    r := dst[..s];
  }

  method PutInto(dst: array<Byte>, at: nat, out: Text)
    requires at + |out| <= dst.Length
    modifies dst
    ensures dst[..at + |out|] == old(dst[..at]) + out
  {
    forall i | at <= i < at + |out| {
      dst[i] := out[i - at];
    }
  }

  lemma StartDecoding(text: Text, start: nat, last: nat)
    requires start < last < |text| && text[last] == QUOTE && Body(text[start..last])
    ensures Decoding(text, start, start, last, [])
  {
  }

  lemma EndDecoding(text: Text, start: nat, last: nat, done: Text)
    requires Decoding(text, start, last, last, done)
    ensures done == Decoded(text[start..last])
  {
    assert text[last..last] == [];
  }

  lemma DecodingFits(text: Text, start: nat, p: nat, last: nat, done: Text)
    requires Decoding(text, start, p, last, done)
    ensures |done| <= |Decoded(text[start..last])|
  {
  }

  // The token at p.
  lemma Token(text: Text, p: nat, last: nat)
    requires p <= last < |text| && text[last] == QUOTE && Body(text[p..last])
    ensures p == last ==> text[p] != BACKSLASH && Items(text[p..last]) == []
    ensures p < last ==>
              var t, n := text[p..last], First(text[p..last]);
              && n > 0 && p + n <= last && Body(text[p + n..last])
              && Items(t) == [ItemOf(t)] + Items(text[p + n..last])
              && (n == 1 <==> text[p] != BACKSLASH) && (n > 1 ==> (n == 2 <==> IsSimple(text[p + 1])))
              && (n == 6 <==> text[p] == BACKSLASH && text[p + 1] == C('u')) && n in {1, 2, 6}
  {
    if p < last {
      var t := text[p..last];
      assert t[First(t)..] == text[p + First(t)..last];
      assert t[0] == text[p] && (|t| > 1 ==> t[1] == text[p + 1]);
    }
  }

  // Decodes what begins at p: a byte, an escape, or two escapes of which the
  // first is a high surrogate.
  method DecodeNext(text: Text, start: nat, p0: nat, last: nat, ghost done: Text) returns (out: Text, p: nat)
    requires Decoding(text, start, p0, last, done) && p0 < last
    ensures p0 < p <= last && Decoding(text, start, p, last, done + out)
  {
    hide Body, Decode, Items, First, Unicode;
    Token(text, p0, last);
    ghost var n := First(text[p0..last]);
    p := p0;
    var ch := text[p];
    p := p + 1;
    if ch != BACKSLASH {
      out := [ch];
      OneStep(text, start, p0, last, done, out);
      return;
    }
    ch := text[p];
    p := p + 1;
    if IsSimple(ch) {
      out := [SimpleValue(ch)];
      OneStep(text, start, p0, last, done, out);
      return;
    }
    EscapeDigits(text, p0, last);
    var utf := Unicode(text[p..p + 4]);
    p := p + 4;
    out := [];
    Token(text, p, last);
    if 0xd800 <= utf <= 0xdfff {
      if utf > 0xdbff || text[p] != BACKSLASH || text[p + 1] != C('u') {
        out := Utf8(REPLACEMENT);
        OneStep(text, start, p0, last, done, out);
        return;
      }
      EscapeDigits(text, p, last);
      ghost var p1 := p;
      p := p + 2;
      var low := Unicode(text[p..p + 4]);
      p := p + 4;
      if 0xdc00 <= low <= 0xdfff {
        utf := Pair(utf, low);
      } else if 0xd800 <= low <= 0xdbff {
        utf := REPLACEMENT;
        out := Utf8(REPLACEMENT);
      } else {
        utf := low;
        out := Utf8(REPLACEMENT);
      }
      out := out + Utf8(utf);
      TwoSteps(text, start, p0, p1, last, done, out);
      return;
    }
    out := out + Utf8(utf);
    OneStep(text, start, p0, last, done, out);
  }

  lemma EscapeDigits(text: Text, p: nat, last: nat)
    requires p < last < |text| && First(text[p..last]) == 6
    ensures var t := text[p..last];
            && |t| >= 6 && t[2..6] == text[p + 2..p + 6]
            && forall i | p + 2 <= i < p + 6 :: IsHex(text[i])
  {
    var t := text[p..last];
    assert forall i | p + 2 <= i < p + 6 :: text[i] == t[i - p];
  }

  lemma OneStep(text: Text, start: nat, p: nat, last: nat, done: Text, out: Text)
    requires Decoding(text, start, p, last, done) && p < last
    requires First(text[p..last]) > 0
    requires var t := text[p..last];
             var i := ItemOf(t);
             match i
             case Raw(b) => out == [b]
             case Unit(u) =>
               if !High(u) && !Low(u) then out == Utf8(u)
               else
                 var next := p + First(t);
                 && out == Utf8(REPLACEMENT)
                 && (Low(u) || (next <= last && (next == last || First(text[next..last]) != 6)))
    ensures p + First(text[p..last]) <= last && Decoding(text, start, p + First(text[p..last]), last, done + out)
  {
    hide Body, Items, First, Utf8;
    var t, n := text[p..last], First(text[p..last]);
    Token(text, p, last);
    Token(text, p + n, last);
    Assoc(done, out, Decoded(text[p + n..last]));
  }

  lemma TwoSteps(text: Text, start: nat, p: nat, p1: nat, last: nat, done: Text, out: Text)
    requires Decoding(text, start, p, last, done) && p < p1 < last && p1 == p + 6
    requires First(text[p..last]) == 6 && First(text[p1..last]) == 6
    requires var u, low := ItemOf(text[p..last]), ItemOf(text[p1..last]);
             u.Unit? && low.Unit? && High(u.u) && out == Two(u.u, low.u)
    ensures p1 + 6 <= last && Decoding(text, start, p1 + 6, last, done + out)
  {
    hide Body, Items, First, Two;
    Token(text, p, last);
    Token(text, p1, last);
    var s := Items(text[p..last]);
    assert s[1..][1..] == s[2..] == Items(text[p1 + 6..last]);
    Assoc(done, out, Decoded(text[p1 + 6..last]));
  }
}
