// What the pool's structures say about an address or about an empty pool.
module PoolQueries {
  import opened Wrappers
  import opened Arithmetic
  import opened Sets
  import opened PoolBits
  import opened PoolState
  import opened PoolSteps
  import SearchTree

  // The tree holds the sizes of the blocks.
  ghost predicate Indexed(tree: SearchTree.Tree, blocks: Blocks) {
    && SearchTree.Sorted(tree)
    && forall a :: SearchTree.Lookup(tree, a) == if a in blocks then Some(blocks[a].size) else None
  }

  lemma IndexedApart(c: Config, tree: SearchTree.Tree, blocks: Blocks)
    requires ConfigOk(c) && BlocksOk(c, blocks) && Indexed(tree, blocks)
    ensures SearchTree.Apart(tree)
  {
    hide SearchTree.Lookup, BlockOk;
  }

  lemma IndexAdded(tree: SearchTree.Tree, blocks: Blocks, a: Address, b: Block)
    requires Indexed(tree, blocks) && a !in blocks
    ensures Indexed(SearchTree.Insert(tree, a, b.size), blocks[a := b])
  {
    hide SearchTree.Lookup, SearchTree.Insert;
    SearchTree.InsertAdds(tree, a, b.size);
  }

  lemma IndexRemoved(tree: SearchTree.Tree, blocks: Blocks, a: Address)
    requires Indexed(tree, blocks)
    ensures Indexed(SearchTree.Delete(tree, a), blocks - {a})
  {
    hide SearchTree.Lookup, SearchTree.Delete;
    SearchTree.DeleteRemoves(tree, a);
  }

  lemma IndexKept(tree: SearchTree.Tree, blocks: Blocks, r: Ref, g: Page)
    requires Indexed(tree, blocks) && ValidRef(blocks, r)
    ensures Indexed(tree, SetPage(blocks, r, g))
  {
    hide SearchTree.Lookup;
  }

  lemma IndexEmpty(tree: SearchTree.Tree, blocks: Blocks)
    requires Indexed(tree, blocks)
    ensures tree.Leaf? <==> blocks == map[]
  {
    if tree.Node? {
      assert SearchTree.Lookup(tree, tree.start).Some?;
    } else {
      forall a ensures a !in blocks {
        assert SearchTree.Lookup(tree, a) == None;
      }
    }
  }

  // The blocks of size zero, in which no address lies.
  ghost function ZeroSized(blocks: Blocks): (z: set<Address>)
    ensures forall a :: a in z <==> a in blocks && blocks[a].size == 0
  {
    set a | a in blocks && blocks[a].size == 0
  }

  lemma ZeroKept(blocks: Blocks, r: Ref, g: Page)
    requires ValidRef(blocks, r)
    ensures ZeroSized(SetPage(blocks, r, g)) == ZeroSized(blocks)
  {
  }

  lemma ZeroAdded(blocks: Blocks, a: Address, b: Block)
    requires a !in blocks
    ensures ZeroSized(blocks[a := b]) == ZeroSized(blocks) + if b.size == 0 then {a} else {}
  {
  }

  lemma ZeroRemoved(blocks: Blocks, a: Address)
    requires a in blocks
    ensures blocks[a].size > 0 ==> ZeroSized(blocks - {a}) == ZeroSized(blocks)
  {
  }

  lemma ClusterNotEmpty(c: Config)
    requires ConfigOk(c)
    ensures ClusterSize(c) > 0
  {
    MulOrder(1, c.pages, PageSize(c));
  }

  lemma ClusterSized(c: Config, blocks: Blocks, a: Address)
    requires ConfigOk(c) && BlocksOk(c, blocks) && a in blocks && blocks[a].Cluster?
    ensures blocks[a].size > 0
  {
    hide Pow2, PageOk;
    ClusterNotEmpty(c);
  }

  // A live allocation that lies in block a is one of that block, and where.
  lemma WhereLive(c: Config, blocks: Blocks, live: map<Address, Live>, a: Address, p: Address)
    requires ConfigOk(c) && BlocksOk(c, blocks) && LiveOk(c, blocks, live)
    requires p in live && a in blocks && a <= p < a + blocks[a].size
    ensures var l := live[p].place;
            && live[p].block == a && BusyPlace(c, blocks[a], l)
            && (blocks[a].Large? ==> p == a)
            && (blocks[a].Cluster? ==>
                  && !l.AllOfIt? && l.number == (p - a) / PageSize(c)
                  && (l.PageAt? ==> (p - a) % PageSize(c) == 0)
                  && (l.ChunkAt? ==>
                        (p - a) % PageSize(c) == l.chunk * SlotSize(c, Log(blocks[a].pages[l.number].size))))
  {
    hide Pow2, PageOk;
    var v := live[p];
    var l, b := v.place, blocks[v.block];
    PlaceInBlock(c, b, l);
    assert v.block == a;
    if !l.AllOfIt? {
      PlaceInPage(c, b, l, l.number);
      assert (l.number + 1) * PageSize(c) == l.number * PageSize(c) + PageSize(c);
      DivModOf(p - a, l.number, PageSize(c), p - a - l.number * PageSize(c));
    }
  }

  // A page in use has an allocation.
  lemma PageBusy(c: Config, blocks: Blocks, r: Ref) returns (l: Place)
    requires ConfigOk(c) && BlocksOk(c, blocks) && ValidRef(blocks, r) && PageOf(blocks, r).size != 0
    ensures !l.AllOfIt? && l.number == r.number && BusyPlace(c, blocks[r.cluster], l)
  {
    hide Pow2, Busy;
    var g := PageOf(blocks, r);
    PageIsOk(c, blocks, r);
    if Whole(c, g) {
      l := PageAt(r.number);
    } else {
      var n := Total(c, Log(g.size));
      AllFree(g.bits, n);
      var h: nat :| h < n && Busy(g.bits, h);
      l := ChunkAt(r.number, h);
    }
  }

  // A pool without blocks has no allocation; a pool with blocks has one, or a
  // large block of size zero.
  lemma BlocksLive(c: Config, blocks: Blocks, free: seq<Ref>, lists: seq<seq<Ref>>, live: map<Address, Live>)
    requires PoolOk(c, blocks, free, lists, live, {})
    ensures blocks == map[] <==> live == map[] && forall a | a in blocks :: blocks[a].size > 0
    ensures blocks == map[] ==> free == []
  {
    hide Pow2, BlockOk, BusyPlace, Offset, Room, PageOf, LiveOk;
    assert forall r | r in free :: ValidRef(blocks, r);
    assert free != [] ==> free[0] in free;
    if live != map[] {
      LiveThere(c, blocks, live, Pick(live.Keys));
    }
    if blocks != map[] && forall a | a in blocks :: blocks[a].size > 0 {
      var a := Pick(blocks.Keys);
      var l := AllOfIt;
      if blocks[a].Cluster? {
        var i :| 0 <= i < |blocks[a].pages| && (blocks[a].pages[i].size != 0 || Ref(a, i) in {});
        assert PageOf(blocks, Ref(a, i)).size != 0 by {
          PageAtRef(blocks, a, i);
        }
        l := PageBusy(c, blocks, Ref(a, i));
      } else {
        LargeBusy(c, blocks[a]);
      }
      BusyThere(c, blocks, live, a, l);
    }
  }

  lemma PageAtRef(blocks: Blocks, a: Address, i: nat)
    requires a in blocks && blocks[a].Cluster? && i < |blocks[a].pages|
    ensures PageOf(blocks, Ref(a, i)) == blocks[a].pages[i]
  {
  }

  lemma LargeBusy(c: Config, b: Block)
    requires ConfigOk(c) && b.Large? && b.size > 0
    ensures BusyPlace(c, b, AllOfIt)
  {
  }

  // Memory that overlaps no block, aligned, can be found beyond them all.
  lemma SomewhereClear(blocks: Blocks, alignment: nat, size: nat)
    ensures exists p: Address :: p > 0 && (alignment == 0 || p % alignment == 0) && Clear(blocks, p, size)
  {
    var ends := set a | a in blocks :: a + blocks[a].size;
    var m := if alignment == 0 then 1 else alignment;
    var q := Top(ends) + Top(blocks.Keys) + 1;
    MulOrder(1, m, q);
    DivModOf(q * m, q, m, 0);
    forall a | a in blocks ensures Disjoint(q * m, size, a, blocks[a].size) && q * m != a {
      assert a + blocks[a].size in ends && a in blocks.Keys;
    }
    assert Clear(blocks, q * m, size);
  }

  // ----- positions -----

  // What page n of cluster a says about the place o in it: whether an
  // allocation begins there.
  ghost predicate PageSays(c: Config, blocks: Blocks, live: map<Address, Live>, r: Ref, o: int)
    requires ConfigOk(c) && ValidRef(blocks, r)
  {
    var g, p := PageOf(blocks, r), r.cluster + r.number * PageSize(c) + o;
    if g.size == 0 then p !in live
    else
      var k, s := Log(g.size), g.size * Pow2(c.chunkShift);
      && k <= Slots(c) && s == SlotSize(c, k) > 0
      && if s == PageSize(c) then k == Slots(c) && (p in live <==> o == 0)
         else
           && s <= PageSize(c) / 2 && ChunkPage(c, blocks, r, k)
           && 0 <= o / s < Total(c, k) <= 32 && (p in live <==> o == o / s * s && Busy(g.bits, o / s))
  }

  lemma PageAtAddress(c: Config, blocks: Blocks, free: seq<Ref>, lists: seq<seq<Ref>>, live: map<Address, Live>,
                      a: Address, p: Address)
    requires PoolOk(c, blocks, free, lists, live, {})
    requires a in blocks && blocks[a].Cluster? && a <= p < a + blocks[a].size
    ensures PageSize(c) > 0 && Slots(c) > 0
    ensures var n, o := (p - a) / PageSize(c), (p - a) % PageSize(c);
            && n >= 0 && ValidRef(blocks, Ref(a, n)) && p - (a + n * PageSize(c)) == o
            && (p - (a + n * PageSize(c))) % PageSize(c) == o && PageSays(c, blocks, live, Ref(a, n), o)
  {
    hide Pow2, PageOk, Busy, ListsOk, ClustersUsed, LiveOk, PageSays;
    assert blocks[a].size == ClusterSize(c) && |blocks[a].pages| == c.pages;
    var n, o := (p - a) / PageSize(c), (p - a) % PageSize(c);
    QuotientBound(p - a, PageSize(c), c.pages);
    assert p - a == n * PageSize(c) + o;
    DivModOf(o, 0, PageSize(c), o);
    SaysSo(c, blocks, live, Ref(a, n), o);
  }

  lemma SaysSo(c: Config, blocks: Blocks, live: map<Address, Live>, r: Ref, o: int)
    requires ConfigOk(c) && BlocksOk(c, blocks) && LiveOk(c, blocks, live) && ValidRef(blocks, r)
             && 0 <= o < PageSize(c)
    ensures PageSays(c, blocks, live, r, o)
  {
    hide Pow2, PageOk, Busy, LiveOk, BlocksOk;
    var g, p := PageOf(blocks, r), r.cluster + r.number * PageSize(c) + o;
    if p in live {
      LiveInPage(c, blocks, live, r, o);
    }
    if g.size > 0 {
      PageIsOk(c, blocks, r);
      PageUnits(c, g);
      var k, s := Log(g.size), SlotSize(c, Log(g.size));
      if k < Slots(c) {
        ChunksFill(c, k);
        QuotientBound(o, s, Total(c, k));
        if Busy(g.bits, o / s) {
          ChunkLive(c, blocks, live, r.cluster, r.number, o / s);
        }
        if p in live {
          DivModOf(o, live[p].place.chunk, s, 0);
        }
      } else {
        WholeLive(c, blocks, live, r.cluster, r.number);
      }
    }
  }

  lemma LiveInPage(c: Config, blocks: Blocks, live: map<Address, Live>, r: Ref, o: int)
    requires ConfigOk(c) && BlocksOk(c, blocks) && LiveOk(c, blocks, live) && ValidRef(blocks, r)
             && 0 <= o < PageSize(c)
    requires r.cluster + r.number * PageSize(c) + o in live
    ensures var l, g := live[r.cluster + r.number * PageSize(c) + o].place, PageOf(blocks, r);
            && BusyPlace(c, blocks[r.cluster], l) && l != AllOfIt && l.number == r.number && g.size > 0
            && (l.PageAt? ==> o == 0) && (l.ChunkAt? ==> o == l.chunk * SlotSize(c, Log(g.size)))
  {
    hide Pow2, PageOk, Busy, LiveOk;
    var p, n := r.cluster + r.number * PageSize(c) + o, r.number;
    MulStep(n, c.pages, PageSize(c));
    MulOrder(0, n, PageSize(c));
    WhereLive(c, blocks, live, r.cluster, p);
    DivModOf(p - r.cluster, n, PageSize(c), o);
  }

  lemma PageUnits(c: Config, g: Page)
    requires ConfigOk(c) && PageOk(c, g) && g.size > 0
    ensures var k := Log(g.size);
            && k <= Slots(c) && g.size == Pow2(k) && g.size * Pow2(c.chunkShift) == SlotSize(c, k) > 0
            && (SlotSize(c, k) == PageSize(c) <==> k == Slots(c))
            && (k < Slots(c) ==> SlotSize(c, k) <= PageSize(c) / 2)
  {
    hide Pow2;
    var k := Log(g.size);
    Pow2Add(k, c.chunkShift);
    if k < Slots(c) {
      Pow2Order(c.chunkShift + k, c.pageShift - 1);
      Pow2Next(c.pageShift - 1);
    }
  }

  lemma ChunkLive(c: Config, blocks: Blocks, live: map<Address, Live>, a: Address, n: nat, h: nat)
    requires ConfigOk(c) && LiveOk(c, blocks, live) && a in blocks && ValidRef(blocks, Ref(a, n))
    requires InChunks(c, PageOf(blocks, Ref(a, n)))
    requires var g := PageOf(blocks, Ref(a, n));
             h < 32 && h < Total(c, Log(g.size)) && Busy(g.bits, h)
    ensures a + (n * PageSize(c) + h * SlotSize(c, Log(PageOf(blocks, Ref(a, n)).size))) in live
  {
    hide Pow2, Busy, LiveOk;
    BusyThere(c, blocks, live, a, ChunkAt(n, h));
  }

  lemma WholeLive(c: Config, blocks: Blocks, live: map<Address, Live>, a: Address, n: nat)
    requires ConfigOk(c) && LiveOk(c, blocks, live) && ValidRef(blocks, Ref(a, n))
             && Whole(c, PageOf(blocks, Ref(a, n)))
    ensures a + n * PageSize(c) in live
  {
    hide Pow2, Busy, LiveOk;
    BusyThere(c, blocks, live, a, PageAt(n));
  }

  // When all chunks but one are free, that one is the page's only allocation.
  lemma OneBusy(c: Config, blocks: Blocks, r: Ref, k: nat, h: nat)
    requires ConfigOk(c) && BlocksOk(c, blocks) && ChunkPage(c, blocks, r, k) && h < 32 && h < Total(c, k)
    requires Busy(PageOf(blocks, r).bits, h) && PageOf(blocks, r).chunks + 1 == Total(c, k)
    ensures OnlyPlace(c, blocks, r, ChunkAt(r.number, h)) && InChunks(c, PageOf(blocks, r))
            && Log(PageOf(blocks, r).size) == k
  {
    hide Pow2, Busy, SetFree;
    var g := PageOf(blocks, r);
    ChunkPageOk(c, blocks, r, k);
    FreeCountAfter(g.bits, h, Total(c, k));
    AllFree(SetFree(g.bits, h), Total(c, k));
    forall d | 0 <= d < Total(c, k) && d != h ensures !Busy(g.bits, d) {
      BusyAfter(g.bits, h, d);
    }
  }

  lemma OneWhole(c: Config, blocks: Blocks, r: Ref)
    requires ConfigOk(c) && ValidRef(blocks, r) && Whole(c, PageOf(blocks, r))
    ensures OnlyPlace(c, blocks, r, PageAt(r.number)) && !InChunks(c, PageOf(blocks, r))
  {
    hide Pow2, Busy;
  }

  lemma PageOffset(c: Config, r: Ref, k: nat, h: nat)
    ensures r.cluster + r.number * PageSize(c) + h * SlotSize(c, k)
            == r.cluster + (r.number * PageSize(c) + h * SlotSize(c, k))
  {
  }

  lemma ClusterLists(c: Config, blocks: Blocks, free: seq<Ref>, lists: seq<seq<Ref>>, a: Address)
    requires ConfigOk(c) && ListsOk(c, blocks, free, lists, {}) && a in blocks && blocks[a].Cluster?
    ensures NoDuplicates(free) && forall q | q in free && q.cluster == a :: q.number < |blocks[a].pages|
  {
    hide Pow2;
    forall q | q in free ensures ValidRef(blocks, q) {
    }
  }

  // ----- sizes -----

  // Bitwise and of two naturals.
  function And(a: nat, b: nat): (r: nat) {
    if a == 0 || b == 0 then 0 else (a % 2) * (b % 2) + 2 * And(a / 2, b / 2)
  }

  lemma {:induction false} AndSelf(a: nat)
    ensures And(a, a) == a
  {
    if a > 0 {
      AndSelf(a / 2);
    }
  }

  // The test for powers of two, which zero passes too.
  predicate PassesAsPower(v: nat) { v == 0 || And(v - 1, v) == 0 }

  lemma {:induction false} PowerTest(v: nat)
    requires v > 0
    ensures PassesAsPower(v) <==> v == Pow2(Log(v))
  {
    if v > 1 {
      if v % 2 == 0 {
        PowerTest(v / 2);
        assert (v - 1) / 2 == v / 2 - 1 && (v - 1) % 2 == 1;
      } else {
        AndSelf(v / 2);
        assert (v - 1) / 2 == v / 2;
      }
    }
  }

  lemma {:induction false} LogOrder(a: nat, b: nat)
    requires 0 < a <= b
    ensures Log(a) <= Log(b)
  {
    if a > 1 {
      LogOrder(a / 2, b / 2);
    }
  }

  lemma Divides(e: nat, k: nat, q: int)
    requires e <= k
    ensures (q * Pow2(k)) % Pow2(e) == 0
  {
    hide Pow2;
    Pow2Add(k - e, e);
    MulAssoc(q, Pow2(k - e), Pow2(e));
    DivModOf(q * Pow2(k), q * Pow2(k - e), Pow2(e), 0);
  }

  lemma MultiplesAdd(a: int, b: int, m: int)
    requires m > 0 && a % m == 0 && b % m == 0
    ensures (a + b) % m == 0
  {
    var q, r := a / m, b / m;
    assert a + b == (q + r) * m;
    DivModOf(a + b, q + r, m, 0);
  }

  // Every power of two up to the size asked for, and to the alignment of pages,
  // divides the address of a chunk or page.
  lemma ChunkAligned(c: Config, r: Ref, k: nat, h: nat, size: nat)
    requires ConfigOk(c) && k <= Slots(c) && size <= SlotSize(c, k) && r.cluster % Pow2(c.alignShift) == 0
    ensures Aligned(c, r.cluster + (r.number * PageSize(c) + h * SlotSize(c, k)), size)
  {
    hide Pow2;
    forall e: nat | e <= c.alignShift && Pow2(e) <= size
      ensures (r.cluster + (r.number * PageSize(c) + h * SlotSize(c, k))) % Pow2(e) == 0
    {
      LogPow2(e);
      LogPow2(c.chunkShift + k);
      LogOrder(Pow2(e), SlotSize(c, k));
      var q := r.cluster / Pow2(c.alignShift);
      assert r.cluster == q * Pow2(c.alignShift);
      SumDivides(c.alignShift, c.pageShift, c.chunkShift + k, e, q, r.number, h);
    }
  }

  lemma SumDivides(a: nat, p: nat, s: nat, e: nat, q: int, n: int, h: int)
    requires e <= a && e <= p && e <= s
    ensures (q * Pow2(a) + (n * Pow2(p) + h * Pow2(s))) % Pow2(e) == 0
  {
    hide Pow2;
    Divides(e, a, q);
    Divides(e, p, n);
    Divides(e, s, h);
    MultiplesAdd(n * Pow2(p), h * Pow2(s), Pow2(e));
    MultiplesAdd(q * Pow2(a), n * Pow2(p) + h * Pow2(s), Pow2(e));
  }

  // The size of a page is counted in smallest chunks.
  function Units(c: Config, size: int): int { size / Pow2(c.chunkShift) }

  lemma InUnits(c: Config, k: nat)
    ensures Units(c, SlotSize(c, k)) == Pow2(k)
  {
    hide Pow2;
    Pow2Add(k, c.chunkShift);
    DivModOf(SlotSize(c, k), Pow2(k), Pow2(c.chunkShift), 0);
  }

  // The powers of two up to the size, and the alignment of pages, divide p.
  ghost predicate Aligned(c: Config, p: Address, size: nat) {
    forall e: nat | e <= c.alignShift && Pow2(e) <= size :: p % Pow2(e) == 0
  }

  lemma BusyChunk(g: Page, h: nat)
    requires h < 32 && g.chunks > 0
    ensures WithChunk(g, h, true) == g.(bits := SetBusy(g.bits, h), chunks := g.chunks - 1)
  {
  }
}
