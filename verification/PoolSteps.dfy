// What each step of the pool does to its invariant.
module PoolSteps {
  import opened Arithmetic
  import opened PoolBits
  import opened PoolState

  // Everything but the rule that no cluster is left without a page in use.
  ghost predicate PoolBase(c: Config, blocks: Blocks, free: seq<Ref>, lists: seq<seq<Ref>>, live: map<Address, Live>,
                           pending: set<Ref>)
  {
    && ConfigOk(c) && BlocksOk(c, blocks) && LiveOk(c, blocks, live) && ListsOk(c, blocks, free, lists, pending)
    && forall r | r in pending :: ValidRef(blocks, r) && PageOf(blocks, r).size == 0
  }

  function SetPage(blocks: Blocks, r: Ref, g: Page): Blocks
    requires ValidRef(blocks, r)
  {
    blocks[r.cluster := blocks[r.cluster].(pages := blocks[r.cluster].pages[r.number := g])]
  }

  lemma SetPageBlocks(c: Config, blocks: Blocks, r: Ref, g: Page)
    requires ConfigOk(c) && BlocksOk(c, blocks) && ValidRef(blocks, r) && PageOk(c, g)
    ensures BlocksOk(c, SetPage(blocks, r, g))
    ensures forall q :: ValidRef(SetPage(blocks, r, g), q) <==> ValidRef(blocks, q)
    ensures forall q | ValidRef(blocks, q) ::
              PageOf(SetPage(blocks, r, g), q) == if q == r then g else PageOf(blocks, q)
  {
    hide PageOk, Pow2;
  }

  // The places in other pages are not concerned.
  lemma OtherPlaces(c: Config, blocks: Blocks, r: Ref, g: Page, a: Address, l: Place)
    requires ConfigOk(c) && ValidRef(blocks, r) && a in blocks
             && !(a == r.cluster && !l.AllOfIt? && l.number == r.number)
    ensures var b, b1 := blocks[a], SetPage(blocks, r, g)[a];
            && (BusyPlace(c, b1, l) <==> BusyPlace(c, b, l))
            && (BusyPlace(c, b, l) ==> Offset(c, b1, l) == Offset(c, b, l) && Room(c, b1, l) == Room(c, b, l))
  {
    hide Pow2;
  }

  // From blocks to blocks1 the place l of block a came to be busy.
  ghost predicate PlaceTaken(c: Config, blocks: Blocks, blocks1: Blocks, a: Address, l: Place)
    requires ConfigOk(c)
  {
    && a in blocks1 && BusyPlace(c, blocks1[a], l) && (a in blocks ==> !BusyPlace(c, blocks[a], l))
    && (forall d | d in blocks :: d in blocks1)
    && (forall d, m | d in blocks1 && BusyPlace(c, blocks1[d], m) && !(d == a && m == l) ::
          d in blocks && BusyPlace(c, blocks[d], m))
    && (forall d, m | d in blocks && BusyPlace(c, blocks[d], m) ::
          && BusyPlace(c, blocks1[d], m) && Offset(c, blocks1[d], m) == Offset(c, blocks[d], m)
          && Room(c, blocks1[d], m) == Room(c, blocks[d], m))
  }

  lemma LiveAdded(c: Config, blocks: Blocks, blocks1: Blocks, a: Address, l: Place, live: map<Address, Live>, size: nat)
    requires ConfigOk(c) && BlocksOk(c, blocks1) && LiveOk(c, blocks, live) && PlaceTaken(c, blocks, blocks1, a, l)
    requires size <= Room(c, blocks1[a], l)
    ensures var p := a + Offset(c, blocks1[a], l);
            p !in live && LiveOk(c, blocks1, live[p := Live(a, l, size)])
  {
    hide Pow2, PageOk, BusyPlace, Offset, Room, BlocksOk, LiveOk;
    var p := a + Offset(c, blocks1[a], l);
    var live1 := live[p := Live(a, l, size)];
    forall q | q in live ensures q != p && LiveAt(c, blocks1, live1, q) {
      LiveThere(c, blocks, live, q);
      PlacesDiffer(c, blocks1, a, l, live[q].block, live[q].place);
    }
    forall d, m | d in blocks1 && BusyPlace(c, blocks1[d], m) ensures PlaceLive(c, blocks1, live1, d, m) {
      if !(d == a && m == l) {
        BusyThere(c, blocks, live, d, m);
      }
    }
    AllThere(c, blocks1, live1);
  }

  // No two busy places begin at the same address.
  lemma PlacesDiffer(c: Config, blocks: Blocks, a: Address, l: Place, d: Address, m: Place)
    requires ConfigOk(c) && BlocksOk(c, blocks) && a in blocks && d in blocks && !(d == a && m == l)
    requires BusyPlace(c, blocks[a], l) && BusyPlace(c, blocks[d], m)
    ensures a + Offset(c, blocks[a], l) != d + Offset(c, blocks[d], m)
  {
    hide Pow2, PageOk, Offset, Room;
    PlaceInBlock(c, blocks[a], l);
    PlaceInBlock(c, blocks[d], m);
    if d == a {
      PlacesApart(c, blocks[a], l, m);
    }
  }

  // From blocks to blocks1 the place l of block a came to be free, and perhaps
  // its block went.
  ghost predicate PlaceLeft(c: Config, blocks: Blocks, blocks1: Blocks, a: Address, l: Place)
    requires ConfigOk(c)
  {
    && a in blocks && BusyPlace(c, blocks[a], l) && (a in blocks1 ==> !BusyPlace(c, blocks1[a], l))
    && (forall d, m | d in blocks1 && BusyPlace(c, blocks1[d], m) :: d in blocks && BusyPlace(c, blocks[d], m))
    && (forall d, m | d in blocks && BusyPlace(c, blocks[d], m) && !(d == a && m == l) ::
          && d in blocks1 && BusyPlace(c, blocks1[d], m) && Offset(c, blocks1[d], m) == Offset(c, blocks[d], m)
          && Room(c, blocks1[d], m) == Room(c, blocks[d], m))
  }

  lemma LiveRemoved(c: Config, blocks: Blocks, blocks1: Blocks, a: Address, l: Place, live: map<Address, Live>)
    requires ConfigOk(c) && LiveOk(c, blocks, live) && PlaceLeft(c, blocks, blocks1, a, l)
    ensures var p := a + Offset(c, blocks[a], l);
            p in live && LiveOk(c, blocks1, live - {p})
  {
    hide Pow2, PageOk, BusyPlace, Offset, Room, LiveOk;
    var p := a + Offset(c, blocks[a], l);
    var live1 := live - {p};
    BusyThere(c, blocks, live, a, l);
    forall q | q in live1 ensures LiveAt(c, blocks1, live1, q) {
      LiveThere(c, blocks, live, q);
    }
    forall d, m | d in blocks1 && BusyPlace(c, blocks1[d], m) ensures PlaceLive(c, blocks1, live1, d, m) {
      BusyThere(c, blocks, live, d, m);
    }
    AllThere(c, blocks1, live1);
  }

  // ----- pages -----

  // A page taken from the head of the free list is pending.
  lemma PageTaken(c: Config, blocks: Blocks, free: seq<Ref>, lists: seq<seq<Ref>>, live: map<Address, Live>)
    requires PoolOk(c, blocks, free, lists, live, {}) && free != []
    ensures PoolOk(c, blocks, free[1..], lists, live, {free[0]})
  {
    hide BlocksOk, LiveOk, Pow2;
    assert free == [free[0]] + free[1..];
    forall r ensures r in free[1..] <==> r != free[0] && r in free {
      if r in free[1..] {
        var i :| 0 <= i < |free[1..]| && free[1..][i] == r;
        assert free[i + 1] == r;
      }
    }
  }

  // A page is used as a whole or for chunks, its first chunk busy.
  function FreshPage(c: Config, k: nat, was: Page): Page
    requires ConfigOk(c) && k <= Slots(c)
  {
    LogPow2(k);
    if k == Slots(c) then was.(size := Pow2(k))
    else Page(Pow2(k), if Total(c, k) > 0 then Total(c, k) - 1 else 0, [0x80, 0, 0, 0])
  }

  lemma {:induction false} FirstBusy(n: nat)
    requires 1 <= n <= 32
    ensures forall h | 0 <= h < 32 :: Busy([0x80, 0, 0, 0], h) <==> h == 0
    ensures FreeCount([0x80, 0, 0, 0], n) == n - 1
  {
    var m: Bitmap := [0x80, 0, 0, 0];
    forall h | 0 <= h < 32 ensures Busy(m, h) <==> h == 0 {
      assert h < 8 || m[h / 8] == 0;
      ZeroByte(h % 8);
      FirstBit(h % 8);
    }
    if n > 1 {
      FirstBusy(n - 1);
    }
  }

  lemma ZeroByte(j: nat)
    requires j < 8
    ensures 0 & Mask(j) == 0
  {
  }

  lemma FirstBit(j: nat)
    requires j < 8
    ensures 0x80 & Mask(j) != 0 <==> j == 0
  {
  }

  lemma FreshPageOk(c: Config, k: nat, was: Page)
    requires ConfigOk(c) && k <= Slots(c)
    ensures var g := FreshPage(c, k, was);
            && PageOk(c, g) && g.size == Pow2(k) > 0 && Log(g.size) == k
            && (k < Slots(c) ==> g.chunks == Total(c, k) - 1 && g.bits == [0x80, 0, 0, 0] && g.chunks > 0)
  {
    LogPow2(k);
    ChunksFill(c, k);
    FirstBusy(Total(c, k));
    if k < Slots(c) {
      Pow2Order(1, Slots(c) - k);
      assert Pow2(1) == 2;
    }
  }

  function FreshPlace(c: Config, r: Ref, k: nat): Place
    requires ConfigOk(c)
  {
    if k == Slots(c) then PageAt(r.number) else ChunkAt(r.number, 0)
  }

  // The pending page is used.
  lemma PageUsed(c: Config, blocks: Blocks, free: seq<Ref>, lists: seq<seq<Ref>>, live: map<Address, Live>, r: Ref,
                 k: nat, size: nat)
    requires PoolOk(c, blocks, free, lists, live, {r}) && k <= Slots(c) && size <= SlotSize(c, k)
    ensures ValidRef(blocks, r)
    ensures var g := FreshPage(c, k, PageOf(blocks, r));
            var p := r.cluster + r.number * PageSize(c);
            && p !in live
            && PoolOk(c, SetPage(blocks, r, g), free, if k < Slots(c) then lists[k := [r] + lists[k]] else lists,
                      live[p := Live(r.cluster, FreshPlace(c, r, k), size)], {})
  {
    hide Pow2, PageOk, BlocksOk, LiveOk, ListsOk, ClustersUsed, PlaceTaken, BusyPlace, FreshPlace;
    var g := FreshPage(c, k, PageOf(blocks, r));
    var blocks1 := SetPage(blocks, r, g);
    FreshPageOk(c, k, PageOf(blocks, r));
    SetPageBlocks(c, blocks, r, g);
    FreshTaken(c, blocks, r, k);
    LiveAdded(c, blocks, blocks1, r.cluster, FreshPlace(c, r, k), live, size);
    FreshLists(c, blocks, free, lists, r, k);
    FreshUsed(blocks, r, g);
  }

  lemma FreshTaken(c: Config, blocks: Blocks, r: Ref, k: nat)
    requires ConfigOk(c) && BlocksOk(c, blocks) && ValidRef(blocks, r) && PageOf(blocks, r).size == 0 && k <= Slots(c)
    ensures var blocks1, l := SetPage(blocks, r, FreshPage(c, k, PageOf(blocks, r))), FreshPlace(c, r, k);
            && PlaceTaken(c, blocks, blocks1, r.cluster, l)
            && Offset(c, blocks1[r.cluster], l) == r.number * PageSize(c)
            && Room(c, blocks1[r.cluster], l) == SlotSize(c, k)
  {
    hide Pow2, PageOk, BlockOk;
    var g := FreshPage(c, k, PageOf(blocks, r));
    var blocks1, l := SetPage(blocks, r, g), FreshPlace(c, r, k);
    FreshPageOk(c, k, PageOf(blocks, r));
    ChunksFill(c, k);
    FirstBusy(1);
    forall d, m: Place | d in blocks && !(d == r.cluster && !m.AllOfIt? && m.number == r.number)
      ensures BusyPlace(c, blocks1[d], m) <==> BusyPlace(c, blocks[d], m)
      ensures BusyPlace(c, blocks[d], m) ==>
                Offset(c, blocks1[d], m) == Offset(c, blocks[d], m) && Room(c, blocks1[d], m) == Room(c, blocks[d], m)
    {
      OtherPlaces(c, blocks, r, g, d, m);
    }
    forall m: Place | !m.AllOfIt? && m.number == r.number
      ensures !BusyPlace(c, blocks[r.cluster], m) && (BusyPlace(c, blocks1[r.cluster], m) <==> m == l)
    {
    }
  }

  lemma FreshLists(c: Config, blocks: Blocks, free: seq<Ref>, lists: seq<seq<Ref>>, r: Ref, k: nat)
    requires ConfigOk(c) && BlocksOk(c, blocks) && ListsOk(c, blocks, free, lists, {r})
    requires ValidRef(blocks, r) && PageOf(blocks, r).size == 0 && k <= Slots(c)
    ensures var lists1 := if k < Slots(c) then lists[k := [r] + lists[k]] else lists;
            ListsOk(c, SetPage(blocks, r, FreshPage(c, k, PageOf(blocks, r))), free, lists1, {})
  {
    hide Pow2, PageOk, BlockOk;
    var g := FreshPage(c, k, PageOf(blocks, r));
    FreshPageOk(c, k, PageOf(blocks, r));
    SetPageBlocks(c, blocks, r, g);
    forall j | 0 <= j < |lists| ensures Pow2(j) > 0 && (Pow2(j) == Pow2(k) <==> j == k) {
      LogPow2(j);
      LogPow2(k);
    }
    if k < Slots(c) {
      Prepended(lists[k], r);
    }
  }

  lemma Prepended(s: seq<Ref>, r: Ref)
    requires NoDuplicates(s) && r !in s
    ensures NoDuplicates([r] + s) && forall q :: q in [r] + s <==> q == r || q in s
  {
  }

  lemma FreshUsed(blocks: Blocks, r: Ref, g: Page)
    requires ClustersUsed(blocks, {r}) && ValidRef(blocks, r) && g.size != 0
    ensures ClustersUsed(SetPage(blocks, r, g), {})
  {
    var blocks1 := SetPage(blocks, r, g);
    forall a | a in blocks1 && blocks1[a].Cluster?
      ensures exists i :: 0 <= i < |blocks1[a].pages| && blocks1[a].pages[i].size != 0
    {
      if a == r.cluster {
        assert blocks1[a].pages[r.number].size != 0;
      } else {
        var i :| 0 <= i < |blocks[a].pages| && (blocks[a].pages[i].size != 0 || Ref(a, i) in {r});
        assert blocks1[a].pages[i].size != 0;
      }
    }
  }

  // ----- chunks -----

  // The page r is in chunks of slot k.
  ghost predicate ChunkPage(c: Config, blocks: Blocks, r: Ref, k: nat)
    requires ConfigOk(c)
  {
    k < Slots(c) && ValidRef(blocks, r) && PageOf(blocks, r).size == Pow2(k)
  }

  lemma ChunkPageOk(c: Config, blocks: Blocks, r: Ref, k: nat)
    requires ConfigOk(c) && BlocksOk(c, blocks) && ChunkPage(c, blocks, r, k)
    ensures var g, n := PageOf(blocks, r), Total(c, k);
            && g.size > 0 && Log(g.size) == k && InChunks(c, g) && 1 <= n <= 32 && n * SlotSize(c, k) == PageSize(c)
            && g.chunks == FreeCount(g.bits, n) < n
    ensures blocks[r.cluster].Cluster? && PageOk(c, PageOf(blocks, r))
  {
    hide Pow2;
    LogPow2(k);
    ChunksFill(c, k);
  }

  // A page's chunk h is switched; the others and their places stay.
  lemma ChunkSwitched(c: Config, blocks: Blocks, r: Ref, k: nat, g: Page, h: nat)
    requires ConfigOk(c) && BlocksOk(c, blocks) && ChunkPage(c, blocks, r, k) && h < Total(c, k) && h < 32
    requires g.size == PageOf(blocks, r).size
    requires forall d | 0 <= d < 32 && d != h :: Busy(g.bits, d) <==> Busy(PageOf(blocks, r).bits, d)
    ensures var blocks1, l := SetPage(blocks, r, g), ChunkAt(r.number, h);
            && (!Busy(PageOf(blocks, r).bits, h) && Busy(g.bits, h) ==> PlaceTaken(c, blocks, blocks1, r.cluster, l))
            && (Busy(PageOf(blocks, r).bits, h) && !Busy(g.bits, h) ==> PlaceLeft(c, blocks, blocks1, r.cluster, l))
            && Offset(c, blocks1[r.cluster], l) == Offset(c, blocks[r.cluster], l)
               == r.number * PageSize(c) + h * SlotSize(c, k)
            && Room(c, blocks1[r.cluster], l) == SlotSize(c, k)
  {
    hide Pow2, PageOk, BlocksOk, Busy;
    var blocks1, l := SetPage(blocks, r, g), ChunkAt(r.number, h);
    ChunkPageOk(c, blocks, r, k);
    forall d, m: Place | d in blocks && !(d == r.cluster && !m.AllOfIt? && m.number == r.number)
      ensures BusyPlace(c, blocks1[d], m) <==> BusyPlace(c, blocks[d], m)
      ensures BusyPlace(c, blocks[d], m) ==>
                Offset(c, blocks1[d], m) == Offset(c, blocks[d], m) && Room(c, blocks1[d], m) == Room(c, blocks[d], m)
    {
      OtherPlaces(c, blocks, r, g, d, m);
    }
    forall m: Place | !m.AllOfIt? && m.number == r.number && m != l
      ensures BusyPlace(c, blocks1[r.cluster], m) <==> BusyPlace(c, blocks[r.cluster], m)
      ensures Offset(c, blocks1[r.cluster], m) == Offset(c, blocks[r.cluster], m)
      ensures Room(c, blocks1[r.cluster], m) == Room(c, blocks[r.cluster], m)
    {
    }
    assert BusyPlace(c, blocks[r.cluster], l) <==> Busy(PageOf(blocks, r).bits, h);
    assert BusyPlace(c, blocks1[r.cluster], l) <==> Busy(g.bits, h);
  }

  // The page with chunk h busy or free.
  function WithChunk(g: Page, h: nat, busy: bool): Page
    requires h < 32 && (busy ==> g.chunks > 0)
  {
    if busy then g.(bits := SetBusy(g.bits, h), chunks := g.chunks - 1)
    else g.(bits := SetFree(g.bits, h), chunks := g.chunks + 1)
  }

  lemma WithChunkOk(c: Config, blocks: Blocks, r: Ref, k: nat, h: nat, busy: bool)
    requires ConfigOk(c) && BlocksOk(c, blocks) && ChunkPage(c, blocks, r, k) && h < Total(c, k) && h < 32
    requires Busy(PageOf(blocks, r).bits, h) <==> !busy
    requires busy || PageOf(blocks, r).chunks + 1 < Total(c, k)
    ensures var g := PageOf(blocks, r);
            && (busy ==> g.chunks > 0) && PageOk(c, WithChunk(g, h, busy))
            && (Busy(WithChunk(g, h, busy).bits, h) <==> busy)
            && forall d | 0 <= d < 32 && d != h :: Busy(WithChunk(g, h, busy).bits, d) <==> Busy(g.bits, d)
  {
    hide Pow2, Busy, SetBusy, SetFree;
    var g := PageOf(blocks, r);
    ChunkPageOk(c, blocks, r, k);
    FreeCountAfter(g.bits, h, Total(c, k));
    forall d | 0 <= d < 32
      ensures Busy(SetBusy(g.bits, h), d) <==> (d == h || Busy(g.bits, d))
      ensures Busy(SetFree(g.bits, h), d) <==> (d != h && Busy(g.bits, d))
    {
      BusyAfter(g.bits, h, d);
    }
    if busy {
      AllFree(g.bits, Total(c, k));
    }
  }

  // The list of a slot when the free count of one of its pages changes to n.
  lemma ListChanges(c: Config, blocks: Blocks, free: seq<Ref>, lists: seq<seq<Ref>>, r: Ref, k: nat, g: Page,
                    list: seq<Ref>)
    requires ConfigOk(c) && BlocksOk(c, blocks) && ListsOk(c, blocks, free, lists, {}) && ChunkPage(c, blocks, r, k)
    requires g.size == PageOf(blocks, r).size && NoDuplicates(list)
    requires forall q :: q in list <==> if q == r then g.chunks > 0 else q in lists[k]
    ensures ListsOk(c, SetPage(blocks, r, g), free, lists[k := list], {})
  {
    hide Pow2, PageOk, BlocksOk;
    ChunkPageOk(c, blocks, r, k);
    var blocks1 := SetPage(blocks, r, g);
    forall q ensures ValidRef(blocks1, q) <==> ValidRef(blocks, q)
             ensures ValidRef(blocks, q) ==> PageOf(blocks1, q) == if q == r then g else PageOf(blocks, q)
    {
    }
    forall j | 0 <= j < |lists| ensures Pow2(j) == Pow2(k) <==> j == k {
      LogPow2(j);
      LogPow2(k);
    }
  }

  lemma UsedKeeps(blocks: Blocks, r: Ref, g: Page)
    requires ClustersUsed(blocks, {}) && ValidRef(blocks, r) && g.size != 0
    ensures ClustersUsed(SetPage(blocks, r, g), {})
  {
    forall a | a in blocks && blocks[a].Cluster?
      ensures exists i :: 0 <= i < |blocks[a].pages| && (blocks[a].pages[i].size != 0 || Ref(a, i) in {r})
    {
      var i :| 0 <= i < |blocks[a].pages| && (blocks[a].pages[i].size != 0 || Ref(a, i) in {});
    }
    FreshUsed(blocks, r, g);
  }

  // A free chunk of the first page on the slot's list is taken; a full page
  // leaves the list.
  lemma ChunkTaken(c: Config, blocks: Blocks, free: seq<Ref>, lists: seq<seq<Ref>>, live: map<Address, Live>, k: nat,
                   h: nat, size: nat)
    requires PoolOk(c, blocks, free, lists, live, {}) && k < Slots(c) && lists[k] != [] && size <= SlotSize(c, k)
    requires var r := lists[k][0];
             && ChunkPage(c, blocks, r, k) && h < Total(c, k) && h < 32 && !Busy(PageOf(blocks, r).bits, h)
    ensures var r := lists[k][0];
            PageOf(blocks, r).chunks > 0
    ensures var r := lists[k][0];
            var g := WithChunk(PageOf(blocks, r), h, true);
            var p := r.cluster + (r.number * PageSize(c) + h * SlotSize(c, k));
            && p !in live
            && PoolOk(c, SetPage(blocks, r, g), free, if g.chunks == 0 then lists[k := lists[k][1..]] else lists,
                      live[p := Live(r.cluster, ChunkAt(r.number, h), size)], {})
  {
    hide Pow2, PageOk, BlocksOk, LiveOk, ClustersUsed, PlaceTaken, BusyPlace, Offset, Room, ListsOk;
    ListsLength(c, blocks, free, lists, {});
    var r, list := lists[k][0], lists[k];
    WithChunkOk(c, blocks, r, k, h, true);
    var g := WithChunk(PageOf(blocks, r), h, true);
    SetPageBlocks(c, blocks, r, g);
    ChunkSwitched(c, blocks, r, k, g, h);
    LiveAdded(c, blocks, SetPage(blocks, r, g), r.cluster, ChunkAt(r.number, h), live, size);
    ChunkPageOk(c, blocks, r, k);
    UsedKeeps(blocks, r, g);
    HeadOfList(c, blocks, free, lists, k);
    ListChanges(c, blocks, free, lists, r, k, g, if g.chunks == 0 then list[1..] else list);
    assert lists[k := list] == lists;
  }

  lemma ListsLength(c: Config, blocks: Blocks, free: seq<Ref>, lists: seq<seq<Ref>>, pending: set<Ref>)
    requires ConfigOk(c) && ListsOk(c, blocks, free, lists, pending)
    ensures |lists| == Slots(c)
  {
  }

  lemma HeadOfList(c: Config, blocks: Blocks, free: seq<Ref>, lists: seq<seq<Ref>>, k: nat)
    requires ConfigOk(c) && ListsOk(c, blocks, free, lists, {}) && k < Slots(c) && lists[k] != []
    ensures var list := lists[k];
            && NoDuplicates(list) && NoDuplicates(list[1..])
            && (forall q :: q in list[1..] <==> q != list[0] && q in list)
            && ChunkPage(c, blocks, list[0], k) && PageOf(blocks, list[0]).chunks > 0
  {
    var list := lists[k];
    assert list == [list[0]] + list[1..];
    assert list[0] in list;
    forall q ensures q in list[1..] <==> q != list[0] && q in list {
      if q in list[1..] {
        var i :| 0 <= i < |list[1..]| && list[1..][i] == q;
        assert list[i + 1] == q;
      }
    }
  }

  // A busy chunk is given back, and others of its page stay busy; a page that
  // was full comes to the head of the slot's list.
  lemma ChunkReturned(c: Config, blocks: Blocks, free: seq<Ref>, lists: seq<seq<Ref>>, live: map<Address, Live>, r: Ref,
                      k: nat, h: nat)
    requires PoolOk(c, blocks, free, lists, live, {}) && ChunkPage(c, blocks, r, k) && h < Total(c, k) && h < 32
    requires Busy(PageOf(blocks, r).bits, h) && PageOf(blocks, r).chunks + 1 < Total(c, k)
    ensures var g := WithChunk(PageOf(blocks, r), h, false);
            var p := r.cluster + (r.number * PageSize(c) + h * SlotSize(c, k));
            && p in live
            && PoolOk(c, SetPage(blocks, r, g), free, if g.chunks == 1 then lists[k := [r] + lists[k]] else lists,
                      live - {p}, {})
  {
    hide Pow2, PageOk, BlocksOk, LiveOk, ClustersUsed, PlaceLeft, BusyPlace, Offset, Room, ListsOk;
    WithChunkOk(c, blocks, r, k, h, false);
    var g := WithChunk(PageOf(blocks, r), h, false);
    SetPageBlocks(c, blocks, r, g);
    ChunkSwitched(c, blocks, r, k, g, h);
    LiveRemoved(c, blocks, SetPage(blocks, r, g), r.cluster, ChunkAt(r.number, h), live);
    ChunkPageOk(c, blocks, r, k);
    UsedKeeps(blocks, r, g);
    OnList(c, blocks, free, lists, r, k);
    if g.chunks == 1 {
      Prepended(lists[k], r);
      ListChanges(c, blocks, free, lists, r, k, g, [r] + lists[k]);
    } else {
      ListChanges(c, blocks, free, lists, r, k, g, lists[k]);
      assert lists[k := lists[k]] == lists;
    }
  }

  lemma OnList(c: Config, blocks: Blocks, free: seq<Ref>, lists: seq<seq<Ref>>, r: Ref, k: nat)
    requires ConfigOk(c) && ListsOk(c, blocks, free, lists, {}) && ChunkPage(c, blocks, r, k)
    ensures |lists| == Slots(c) && NoDuplicates(lists[k]) && (r in lists[k] <==> PageOf(blocks, r).chunks > 0)
  {
  }

  // ----- pages and clusters that become free -----

  function Removed(s: seq<Ref>, r: Ref): (t: seq<Ref>)
    ensures forall q :: q in t <==> q in s && q != r
  {
    if s == [] then [] else if s[0] == r then Removed(s[1..], r) else [s[0]] + Removed(s[1..], r)
  }

  lemma {:induction false} RemovedDistinct(s: seq<Ref>, r: Ref)
    requires NoDuplicates(s)
    ensures NoDuplicates(Removed(s, r))
  {
    if s != [] {
      RemovedDistinct(s[1..], r);
      if s[0] != r {
        Prepended(Removed(s[1..], r), s[0]);
      }
    }
  }

  // The clusters but a have a page in use.
  ghost predicate OthersUsed(blocks: Blocks, a: Address) {
    forall d | d in blocks && d != a && blocks[d].Cluster? ::
      exists i :: 0 <= i < |blocks[d].pages| && blocks[d].pages[i].size != 0
  }

  // The last allocation of a page is given back, and the page with it.
  lemma PageReturned(c: Config, blocks: Blocks, free: seq<Ref>, lists: seq<seq<Ref>>, live: map<Address, Live>, r: Ref,
                     l: Place, g: Page, lists1: seq<seq<Ref>>)
    requires PoolOk(c, blocks, free, lists, live, {}) && ValidRef(blocks, r)
    requires OnlyPlace(c, blocks, r, l) && g.size == 0
    requires lists1 == if InChunks(c, PageOf(blocks, r)) && Log(PageOf(blocks, r).size) < |lists|
                       then var k := Log(PageOf(blocks, r).size); lists[k := Removed(lists[k], r)] else lists
    ensures var p := r.cluster + Offset(c, blocks[r.cluster], l);
            && p in live
            && PoolBase(c, SetPage(blocks, r, g), [r] + free, lists1, live - {p}, {})
            && OthersUsed(SetPage(blocks, r, g), r.cluster)
  {
    hide Pow2, LiveOk, PlaceLeft, BlocksOk, BusyPlace, Offset, Room, ListsOk;
    var blocks1 := SetPage(blocks, r, g);
    SetPageBlocks(c, blocks, r, g);
    OnlyPlaceLeft(c, blocks, r, l, g);
    LiveRemoved(c, blocks, blocks1, r.cluster, l, live);
    ReturnedLists(c, blocks, free, lists, r, g, lists1);
    forall d | d in blocks1 && d != r.cluster && blocks1[d].Cluster?
      ensures exists i :: 0 <= i < |blocks1[d].pages| && blocks1[d].pages[i].size != 0
    {
      assert blocks1[d] == blocks[d];
    }
  }

  // The only busy place of a page in use.
  ghost predicate OnlyPlace(c: Config, blocks: Blocks, r: Ref, l: Place)
    requires ConfigOk(c) && ValidRef(blocks, r)
  {
    && !l.AllOfIt? && l.number == r.number && BusyPlace(c, blocks[r.cluster], l) && PageOf(blocks, r).size > 0
    && forall m: Place | !m.AllOfIt? && m.number == r.number && BusyPlace(c, blocks[r.cluster], m) :: m == l
  }

  lemma OnlyPlaceLeft(c: Config, blocks: Blocks, r: Ref, l: Place, g: Page)
    requires ConfigOk(c) && ValidRef(blocks, r) && OnlyPlace(c, blocks, r, l) && g.size == 0
    ensures PlaceLeft(c, blocks, SetPage(blocks, r, g), r.cluster, l)
  {
    hide Pow2;
    var blocks1 := SetPage(blocks, r, g);
    forall d, m: Place | d in blocks && !(d == r.cluster && !m.AllOfIt? && m.number == r.number)
      ensures BusyPlace(c, blocks1[d], m) <==> BusyPlace(c, blocks[d], m)
      ensures BusyPlace(c, blocks[d], m) ==>
                Offset(c, blocks1[d], m) == Offset(c, blocks[d], m) && Room(c, blocks1[d], m) == Room(c, blocks[d], m)
    {
      OtherPlaces(c, blocks, r, g, d, m);
    }
    forall m: Place | !m.AllOfIt? && m.number == r.number ensures !BusyPlace(c, blocks1[r.cluster], m) {
    }
  }

  lemma ReturnedLists(c: Config, blocks: Blocks, free: seq<Ref>, lists: seq<seq<Ref>>, r: Ref, g: Page,
                      lists1: seq<seq<Ref>>)
    requires ConfigOk(c) && BlocksOk(c, blocks) && ListsOk(c, blocks, free, lists, {}) && ValidRef(blocks, r)
    requires PageOf(blocks, r).size > 0 && g.size == 0
    requires lists1 == if InChunks(c, PageOf(blocks, r)) && Log(PageOf(blocks, r).size) < |lists|
                       then var k := Log(PageOf(blocks, r).size); lists[k := Removed(lists[k], r)] else lists
    ensures ListsOk(c, SetPage(blocks, r, g), [r] + free, lists1, {})
  {
    hide Pow2, BlocksOk;
    var blocks1, s := SetPage(blocks, r, g), PageOf(blocks, r).size;
    assert PageOk(c, PageOf(blocks, r)) by {
      PageIsOk(c, blocks, r);
    }
    SetPageBlocks(c, blocks, r, g);
    Prepended(free, r);
    if Log(s) < Slots(c) {
      RemovedDistinct(lists[Log(s)], r);
    }
    forall j | 0 <= j < |lists| ensures Pow2(j) > 0 && (Pow2(j) == s <==> j == Log(s)) {
      LogPow2(j);
    }
  }

  lemma PageIsOk(c: Config, blocks: Blocks, r: Ref)
    requires ConfigOk(c) && BlocksOk(c, blocks) && ValidRef(blocks, r)
    ensures PageOk(c, PageOf(blocks, r))
  {
  }

  // A list without the pages of cluster a.
  ghost predicate Without(s: seq<Ref>, a: Address, t: seq<Ref>) {
    NoDuplicates(t) && forall q :: q in t <==> q in s && q.cluster != a
  }

  // A cluster with all its pages free goes.
  lemma ClusterRemoved(c: Config, blocks: Blocks, free: seq<Ref>, lists: seq<seq<Ref>>, live: map<Address, Live>,
                       a: Address,
                       free1: seq<Ref>)
    requires PoolBase(c, blocks, free, lists, live, {}) && OthersUsed(blocks, a) && Without(free, a, free1)
    requires a in blocks && blocks[a].Cluster? && forall i | 0 <= i < |blocks[a].pages| :: blocks[a].pages[i].size == 0
    ensures PoolOk(c, blocks - {a}, free1, lists, live, {})
  {
    hide Pow2, PageOk, BlockOk, LiveOk, ListsOk;
    var blocks1 := blocks - {a};
    assert BlocksOk(c, blocks1);
    forall l ensures !BusyPlace(c, blocks[a], l) {
    }
    LiveKept(c, blocks, blocks1, live);
    GoneLists(c, blocks, free, lists, a, free1);
  }

  // The same places are busy.
  lemma LiveKept(c: Config, blocks: Blocks, blocks1: Blocks, live: map<Address, Live>)
    requires ConfigOk(c) && LiveOk(c, blocks, live)
    requires forall a, l | a in blocks && BusyPlace(c, blocks[a], l) :: a in blocks1 && blocks1[a] == blocks[a]
    requires forall a, l | a in blocks1 && BusyPlace(c, blocks1[a], l) :: a in blocks && blocks1[a] == blocks[a]
    ensures LiveOk(c, blocks1, live)
  {
    hide Pow2, BusyPlace, Offset, Room, LiveOk;
    forall p | p in live ensures LiveAt(c, blocks1, live, p) {
      LiveThere(c, blocks, live, p);
    }
    forall a, l | a in blocks1 && BusyPlace(c, blocks1[a], l) ensures PlaceLive(c, blocks1, live, a, l) {
      BusyThere(c, blocks, live, a, l);
    }
    AllThere(c, blocks1, live);
  }

  lemma GoneLists(c: Config, blocks: Blocks, free: seq<Ref>, lists: seq<seq<Ref>>, a: Address, free1: seq<Ref>)
    requires ConfigOk(c) && ListsOk(c, blocks, free, lists, {}) && Without(free, a, free1)
    requires a in blocks && blocks[a].Cluster? && forall i | 0 <= i < |blocks[a].pages| :: blocks[a].pages[i].size == 0
    ensures ListsOk(c, blocks - {a}, free1, lists, {})
  {
    hide Pow2;
    var blocks1 := blocks - {a};
    forall r ensures ValidRef(blocks1, r) <==> ValidRef(blocks, r) && r.cluster != a {
    }
    forall k | 0 <= k < |lists| ensures Pow2(k) > 0 {
      LogPow2(k);
    }
  }

  // The same pages in the same states.
  lemma ListsKept(c: Config, blocks: Blocks, free: seq<Ref>, lists: seq<seq<Ref>>, blocks1: Blocks)
    requires ConfigOk(c) && ListsOk(c, blocks, free, lists, {})
    requires forall r :: ValidRef(blocks1, r) <==> ValidRef(blocks, r)
    requires forall r | ValidRef(blocks, r) :: PageOf(blocks1, r) == PageOf(blocks, r)
    ensures ListsOk(c, blocks1, free, lists, {})
  {
    hide Pow2;
  }

  // ----- new blocks -----

  // A region that overlaps no block.
  predicate Clear(blocks: Blocks, p: Address, size: int) {
    forall a | a in blocks :: Disjoint(p, size, a, blocks[a].size) && p != a
  }

  function FreshPages(n: nat): (s: seq<Page>)
    ensures |s| == n
  {
    seq(n, i => Page(0, 0, [0, 0, 0, 0]))
  }

  function PageRefs(a: Address, n: nat): (s: seq<Ref>)
    ensures |s| == n && forall i | 0 <= i < n :: s[i] == Ref(a, i)
  {
    seq(n, i requires 0 <= i < n => Ref(a, i))
  }

  // A cluster is added: its pages come to the head of the free list, in order,
  // and the first of them is taken at once.
  lemma ClusterAdded(c: Config, blocks: Blocks, free: seq<Ref>, lists: seq<seq<Ref>>, live: map<Address, Live>,
                     a: Address)
    requires PoolOk(c, blocks, free, lists, live, {}) && Clear(blocks, a, ClusterSize(c)) && a > 0
    requires a % Pow2(c.alignShift) == 0
    ensures var refs := PageRefs(a, c.pages) + free;
            && |refs| > 0 && refs[0] == Ref(a, 0)
            && PoolOk(c, blocks[a := Cluster(ClusterSize(c), FreshPages(c.pages))], refs[1..], lists, live, {Ref(a, 0)})
  {
    hide Pow2, LiveOk, ListsOk;
    var b := Cluster(ClusterSize(c), FreshPages(c.pages));
    var blocks1 := blocks[a := b];
    EmptyPagesOk(c);
    assert BlockOk(c, a, b);
    assert BlocksOk(c, blocks1) by {
      hide BlockOk;
    }
    forall l ensures !BusyPlace(c, b, l) {
    }
    LiveKept(c, blocks, blocks1, live);
    AddedLists(c, blocks, free, lists, a);
    assert b.pages[0].size == 0 && Ref(a, 0) in {Ref(a, 0)};
  }

  lemma AddedLists(c: Config, blocks: Blocks, free: seq<Ref>, lists: seq<seq<Ref>>, a: Address)
    requires ConfigOk(c) && ListsOk(c, blocks, free, lists, {}) && a !in blocks
    ensures ListsOk(c, blocks[a := Cluster(ClusterSize(c), FreshPages(c.pages))], (PageRefs(a, c.pages) + free)[1..],
                    lists,
                    {Ref(a, 0)})
  {
    hide Pow2;
    var blocks1 := blocks[a := Cluster(ClusterSize(c), FreshPages(c.pages))];
    NewRefs(blocks, free, a, c.pages);
    forall r: Ref ensures ValidRef(blocks1, r) <==> (ValidRef(blocks, r) || (r.cluster == a && r.number < c.pages))
             ensures ValidRef(blocks1, r) ==>
                       PageOf(blocks1, r) == if r.cluster == a then Page(0, 0, [0, 0, 0, 0]) else PageOf(blocks, r)
    {
    }
    forall k | 0 <= k < |lists| ensures Pow2(k) > 0 {
      LogPow2(k);
    }
  }

  lemma EmptyPagesOk(c: Config)
    requires ConfigOk(c)
    ensures forall i | 0 <= i < c.pages :: PageOk(c, FreshPages(c.pages)[i])
  {
  }

  lemma NewRefs(blocks: Blocks, free: seq<Ref>, a: Address, n: nat)
    requires a !in blocks && NoDuplicates(free) && n >= 1 && forall r | r in free :: ValidRef(blocks, r)
    ensures var refs := PageRefs(a, n) + free;
            && NoDuplicates(refs[1..])
            && forall r :: r in refs[1..] <==> r in free || (r.cluster == a && 1 <= r.number < n)
  {
    var refs := PageRefs(a, n) + free;
    var s := refs[1..];
    forall i | 0 <= i < |s|
      ensures if i < n - 1 then s[i] == Ref(a, i + 1) else s[i] == free[i - (n - 1)] && s[i] in free
    {
    }
    forall r: Ref | r.cluster == a && 1 <= r.number < n ensures r in refs[1..] {
      assert refs[1..][r.number - 1] == r;
    }
    forall r | r in free ensures r in refs[1..] {
      var i :| 0 <= i < |free| && free[i] == r;
      assert s[n - 1 + i] == r;
    }
  }

  lemma LargeAdded(c: Config, blocks: Blocks, free: seq<Ref>, lists: seq<seq<Ref>>, live: map<Address, Live>,
                   p: Address,
                   size: nat, embedded: bool)
    requires PoolOk(c, blocks, free, lists, live, {}) && Clear(blocks, p, size) && p > 0
    ensures size > 0 ==> p !in live
    ensures PoolOk(c, blocks[p := Large(size, embedded)], free, lists,
                   if size > 0 then live[p := Live(p, AllOfIt, size)] else live, {})
  {
    hide Pow2, BlockOk, LiveOk, ListsOk;
    var b := Large(size, embedded);
    var blocks1 := blocks[p := b];
    assert BlockOk(c, p, b) by {
      LargeOk(c, p, b);
    }
    assert BlocksOk(c, blocks1);
    forall r ensures ValidRef(blocks1, r) <==> ValidRef(blocks, r) {
    }
    ListsKept(c, blocks, free, lists, blocks1);
    if size > 0 {
      LargeTaken(c, blocks, p, b);
      LiveAdded(c, blocks, blocks1, p, AllOfIt, live, size);
    } else {
      forall l ensures !BusyPlace(c, b, l) {
      }
      LiveKept(c, blocks, blocks1, live);
    }
  }

  lemma LargeOk(c: Config, p: Address, b: Block)
    requires ConfigOk(c) && b.Large? && p > 0
    ensures BlockOk(c, p, b)
  {
  }

  lemma LargeTaken(c: Config, blocks: Blocks, p: Address, b: Block)
    requires ConfigOk(c) && p !in blocks && b.Large? && b.size > 0
    ensures PlaceTaken(c, blocks, blocks[p := b], p, AllOfIt)
    ensures PlaceLeft(c, blocks[p := b], blocks, p, AllOfIt)
  {
    forall m | BusyPlace(c, b, m) ensures m == AllOfIt {
    }
  }

  lemma LargeRemoved(c: Config, blocks: Blocks, free: seq<Ref>, lists: seq<seq<Ref>>, live: map<Address, Live>,
                     p: Address)
    requires PoolOk(c, blocks, free, lists, live, {}) && p in blocks && blocks[p].Large? && blocks[p].size > 0
    ensures p in live && PoolOk(c, blocks - {p}, free, lists, live - {p}, {})
  {
    hide Pow2, BlockOk, LiveOk, ListsOk, PlaceLeft;
    var blocks1 := blocks - {p};
    assert BlocksOk(c, blocks1);
    forall r ensures ValidRef(blocks1, r) <==> ValidRef(blocks, r) {
    }
    ListsKept(c, blocks, free, lists, blocks1);
    LargeTaken(c, blocks1, p, blocks[p]);
    assert blocks1[p := blocks[p]] == blocks;
    LiveRemoved(c, blocks, blocks1, p, AllOfIt, live);
  }
}
