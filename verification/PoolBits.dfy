// The bitmap of a page's chunks: four bytes, the highest bit of each first.
module PoolBits {

  type Bitmap = m: seq<bv8> | |m| == 4 witness [0, 0, 0, 0]

  function Mask(j: nat): bv8
    requires j < 8
  {
    match j
    case 0 => 0x80
    case 1 => 0x40
    case 2 => 0x20
    case 3 => 0x10
    case 4 => 0x08
    case 5 => 0x04
    case 6 => 0x02
    case 7 => 0x01
  }

  predicate HasBit(b: bv8, j: nat)
    requires j < 8
  {
    b & Mask(j) != 0
  }

  function WithBit(b: bv8, j: nat): bv8
    requires j < 8
  {
    b | Mask(j)
  }

  function WithoutBit(b: bv8, j: nat): bv8
    requires j < 8
  {
    b & !Mask(j)
  }

  // Chunk c is busy.
  predicate Busy(m: Bitmap, c: nat)
    requires c < 32
  {
    HasBit(m[c / 8], c % 8)
  }

  function SetBusy(m: Bitmap, c: nat): Bitmap
    requires c < 32
  {
    m[c / 8 := WithBit(m[c / 8], c % 8)]
  }

  function SetFree(m: Bitmap, c: nat): Bitmap
    requires c < 32
  {
    m[c / 8 := WithoutBit(m[c / 8], c % 8)]
  }

  lemma ByteBits(b: bv8, j: nat, k: nat)
    requires j < 8 && k < 8
    ensures HasBit(WithBit(b, j), k) <==> (j == k || HasBit(b, k))
    ensures HasBit(WithoutBit(b, j), k) <==> (j != k && HasBit(b, k))
  {
    hide Mask;
    if j == k {
      MaskBits(b, Mask(j));
      SingleBit(j);
    } else {
      MaskApart(j, k);
      OtherBits(b, Mask(j), Mask(k));
    }
  }

  lemma SingleBit(j: nat)
    requires j < 8
    ensures Mask(j) != 0
  {
  }

  lemma MaskBits(b: bv8, m: bv8)
    ensures (b | m) & m == m && (b & !m) & m == 0
  {
  }

  lemma MaskApart(j: nat, k: nat)
    requires j < 8 && k < 8 && j != k
    ensures Mask(j) & Mask(k) == 0
  {
  }

  lemma OtherBits(b: bv8, m: bv8, n: bv8)
    requires m & n == 0
    ensures (b | m) & n == b & n && (b & !m) & n == b & n
  {
  }

  lemma BusyAfter(m: Bitmap, c: nat, d: nat)
    requires c < 32 && d < 32
    ensures Busy(SetBusy(m, c), d) <==> (d == c || Busy(m, d))
    ensures Busy(SetFree(m, c), d) <==> (d != c && Busy(m, d))
  {
    hide HasBit, WithBit, WithoutBit, Mask;
    if c / 8 == d / 8 {
      ByteBits(m[c / 8], c % 8, d % 8);
    }
  }

  // The free chunks among the first n.
  function FreeCount(m: Bitmap, n: nat): (r: nat)
    requires n <= 32
    ensures r <= n
  {
    if n == 0 then 0 else FreeCount(m, n - 1) + if Busy(m, n - 1) then 0 else 1
  }

  lemma {:induction false} FreeCountAfter(m: Bitmap, c: nat, n: nat)
    requires c < 32 && n <= 32
    ensures !Busy(m, c) ==> FreeCount(SetBusy(m, c), n) == FreeCount(m, n) - if c < n then 1 else 0
    ensures Busy(m, c) ==> FreeCount(SetFree(m, c), n) == FreeCount(m, n) + if c < n then 1 else 0
    decreases n
  {
    if n > 0 {
      FreeCountAfter(m, c, n - 1);
      BusyAfter(m, c, n - 1);
    }
  }

  lemma {:induction false} AllFree(m: Bitmap, n: nat)
    requires n <= 32
    ensures FreeCount(m, n) == n <==> forall c | 0 <= c < n :: !Busy(m, c)
    ensures FreeCount(m, n) == 0 <==> forall c | 0 <= c < n :: Busy(m, c)
  {
    hide Busy;
    if n > 0 {
      AllFree(m, n - 1);
    }
  }

  lemma FullByte(b: bv8)
    ensures b == 0xff <==> forall j: nat | j < 8 :: HasBit(b, j)
  {
    var all := && HasBit(b, 0) && HasBit(b, 1) && HasBit(b, 2) && HasBit(b, 3)
               && HasBit(b, 4) && HasBit(b, 5) && HasBit(b, 6) && HasBit(b, 7);
    assert all <==> b == 0xff;
  }

  // The first clear bit of a byte that is not full.
  method FreeBit(b: bv8, size: nat, offset0: nat) returns (offset: nat, j: nat)
    requires b != 0xff
    ensures j < 8 && !HasBit(b, j) && offset == offset0 + j * size
    ensures forall k: nat | k < j :: HasBit(b, k)
  {
    FullByte(b);
    offset, j := offset0, 0;
    while HasBit(b, j)
      invariant 0 <= j < 8 && offset == offset0 + j * size
      invariant forall k: nat | k < j :: HasBit(b, k)
      decreases 8 - j
    {
      SomeClear(b, j);
      offset, j := offset + size, j + 1;
    }
  }

  lemma SomeClear(b: bv8, j: nat)
    requires b != 0xff && j < 8 && forall k: nat | k <= j :: HasBit(b, k)
    ensures j < 7
  {
    FullByte(b);
  }

  // The first free chunk, looking at whole bytes first; offset is its place in
  // the page.
  method AllocChunk(m: Bitmap, size: nat, ghost total: nat) returns (offset: nat, m': Bitmap, ghost c: nat)
    requires total <= 32 && FreeCount(m, total) > 0
    ensures c < total && !Busy(m, c) && m' == SetBusy(m, c) && offset == c * size
    ensures forall d: nat | d < c :: Busy(m, d)
  {
    hide Mask, SetBusy, Busy, HasBit, WithBit;
    AllFree(m, total);
    ghost var free: nat :| free < total && !Busy(m, free);
    offset, c := 0, 0;
    var n := 0;
    while m[n] == 0xff
      invariant 0 <= n < 4 && c == 8 * n <= free && offset == c * size
      invariant forall d: nat | d < c :: Busy(m, d)
      decreases 4 - n
    {
      ByteFull(m, n);
      Eight(c, size);
      offset, c, n := offset + size * 8, c + 8, n + 1;
    }
    var j;
    offset, j := FreeBit(m[n], size, offset);
    Together(c, j, size);
    c := c + j;
    FirstFree(m, n, j);
    m' := m[n := WithBit(m[n], j)];
  }

  lemma Eight(c: nat, size: nat)
    ensures c * size + size * 8 == (c + 8) * size
  {
  }

  lemma Together(c: nat, j: nat, size: nat)
    ensures c * size + j * size == (c + j) * size
  {
  }

  lemma FirstFree(m: Bitmap, n: nat, j: nat)
    requires n < 4 && j < 8 && !HasBit(m[n], j) && forall k: nat | k < j :: HasBit(m[n], k)
    ensures var c := 8 * n + j;
            && !Busy(m, c) && SetBusy(m, c) == m[n := WithBit(m[n], j)]
            && forall d: nat | 8 * n <= d < c :: Busy(m, d)
  {
    hide HasBit, WithBit, Mask;
    var c := 8 * n + j;
    assert c / 8 == n && c % 8 == j;
    forall d: nat | 8 * n <= d < c ensures Busy(m, d) {
      assert d / 8 == n && d % 8 < j;
    }
  }

  lemma ByteFull(m: Bitmap, n: nat)
    requires n < 4 && m[n] == 0xff
    ensures forall d: nat | 8 * n <= d < 8 * n + 8 :: Busy(m, d)
  {
    hide HasBit, Mask;
    FullByte(m[n]);
    forall d: nat | 8 * n <= d < 8 * n + 8 ensures Busy(m, d) {
      assert d / 8 == n;
    }
  }
}
