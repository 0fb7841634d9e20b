// A pool of memory: clusters of pages, pages of chunks, and large blocks.
module PoolAllocator {
  import opened Wrappers
  import opened Allocations
  import opened Arithmetic
  import opened PoolBits
  import opened PoolState
  import opened PoolSteps
  import opened PoolQueries
  import SearchTree

  const MAX_ALIGNMENT: nat := 16
  const HEADER: nat := 40

  datatype Slot = Slot(size: nat, chunks: nat)

  datatype FreeResult = Freed | OutOfPool | MiddleOfBlock | FreePage | WrongChunk | FreeChunk | WrongStart

  ghost predicate SlotsOk(c: Config, slots: seq<Slot>)
    requires ConfigOk(c)
  {
    && |slots| == Slots(c)
    && forall k | 0 <= k < |slots| :: slots[k].size == SlotSize(c, k) && slots[k].chunks + 1 == Total(c, k)
  }

  // The allocation p is new, with the size asked for; the others stay.
  ghost predicate Gained(was: map<Address, Live>, now: map<Address, Live>, p: Address, size: nat) {
    p !in was && p in now && now == was[p := now[p]] && now[p].size == size
  }

  // Why a pointer at this offset in a page in use as g says is refused, if it is.
  function Refusal(c: Config, g: Page, offset: nat): Option<FreeResult> {
    var size := g.size * Pow2(c.chunkShift);
    if g.size == 0 then Some(FreePage)
    else if size != PageSize(c) then
      if offset != offset / size * size then Some(WrongChunk)
      else if offset / size < 32 && Busy(g.bits, offset / size) then None else Some(FreeChunk)
    else if offset != 0 then Some(WrongStart) else None
  }

  // What freeing p, an address in block a, comes to.
  predicate Answered(c: Config, blocks: Blocks, a: Address, p: Address, r: FreeResult)
    requires a in blocks && a <= p < a + blocks[a].size
  {
    match blocks[a]
    case Large(_, _) => r == if p == a then Freed else MiddleOfBlock
    case Cluster(_, pages) =>
      && PageSize(c) > 0
      && (var n, o := (p - a) / PageSize(c), (p - a) % PageSize(c);
          && 0 <= n < |pages|
          && r == match Refusal(c, pages[n], o) case None => Freed case Some(e) => e)
  }

  class Pool {
    const c: Config
    const slots: seq<Slot>
    const memory: seq<bool>
    var asked: nat
    var tree: SearchTree.Tree
    var blocks: Blocks
    var free: seq<Ref>
    var lists: seq<seq<Ref>>
    ghost var live: map<Address, Live>

    ghost predicate Valid()
      reads this
    {
      ConfigOk(c) && PoolOk(c, blocks, free, lists, live, {}) && SlotsOk(c, slots) && Indexed(tree, blocks)
    }

    // The first request was for the pool itself.
    constructor (c: Config, slots: seq<Slot>, memory: seq<bool>)
      ensures this.c == c && this.slots == slots && this.memory == memory && asked == 1
      ensures blocks == map[] && free == [] && live == map[] && tree == SearchTree.Leaf && |lists| == |slots|
      ensures ZeroSized(blocks) == {}
      ensures ConfigOk(c) && SlotsOk(c, slots) ==> Valid()
    {
      this.c, this.slots, this.memory, asked := c, slots, memory, 1;
      tree, blocks, free, live := SearchTree.Leaf, map[], [], map[];
      lists := seq(|slots|, _ => []);
      new;
      if ConfigOk(c) && SlotsOk(c, slots) {
        EmptyOk();
      }
    }

    lemma EmptyOk()
      requires ConfigOk(c) && SlotsOk(c, slots)
      requires blocks == map[] && free == [] && live == map[] && tree == SearchTree.Leaf
      requires |lists| == |slots| && forall k | 0 <= k < |lists| :: lists[k] == []
      ensures Valid()
    {
    }

    // There is no block, which is when nothing is live and no block has size zero.
    method IsEmpty() returns (empty: bool)
      requires Valid()
      ensures empty <==> live == map[] && ZeroSized(blocks) == {}
    {
      BlocksLive(c, blocks, free, lists, live);
      IndexEmpty(tree, blocks);
      empty := tree.Leaf? && free == [];
    }

    // ----- allocation -----

    twostate predicate Untouched()
      reads this
    {
      && unchanged(this`tree) && unchanged(this`blocks) && unchanged(this`free) && unchanged(this`lists)
      && unchanged(this`live)
    }

    // The slot of chunks of this size has a page with a free one.
    predicate ChunkReady(size: nat)
      reads this
    {
      exists k: nat ::
        k < |lists| && lists[k] != [] && size <= SlotSize(c, k) && forall j: nat | j < k :: SlotSize(c, j) < size
    }

    predicate Oversized(size: nat) { size > PageSize(c) && size >= 0xffff_ffff }

    // A request for an aligned block goes to the system unless a page will do.
    predicate Oversize(alignment: nat, size: nat) {
      !(size <= PageSize(c) && alignment <= Pow2(c.alignShift)) && size >= 0xffff_ffff
    }

    method Alloc(size: nat) returns (p: Option<Address>)
      requires Valid()
      modifies this
      ensures Valid()
      ensures p.Some? ==>
                && Gained(old(live), live, p.value, size)
                && if size <= PageSize(c) then Aligned(c, p.value, size) else p.value % MAX_ALIGNMENT == 0
      ensures old(asked) <= asked && (p.None? <==> Oversized(size) || !Served(memory, old(asked), asked))
      ensures size <= PageSize(c) && old(free != [] || ChunkReady(size)) ==> asked == old(asked)
      ensures size <= PageSize(c) && old(ChunkReady(size)) ==> free == old(free)
      ensures ZeroSized(blocks) == old(ZeroSized(blocks))
      ensures p.None? ==> Untouched()
    {
      hide ChunkReady, PoolOk, Indexed, Gained, Aligned, Pow2;
      if size <= PageSize(c) {
        p := AllocSmall(size);
      } else {
        p := AllocLarge(MAX_ALIGNMENT, size);
      }
    }

    // A request whose block has size zero, and so is never found again.
    predicate Unfindable(alignment: nat, size: nat) { size == 0 && alignment > Pow2(c.alignShift) }

    // A request that fits in a page is widened to its alignment.
    function RoomAsked(alignment: nat, size: nat): nat {
      if size <= PageSize(c) && size < alignment <= Pow2(c.alignShift) then alignment else size
    }

    method Align(alignment: nat, size: nat) returns (p: Option<Address>)
      requires Valid()
      modifies this
      ensures Valid()
      ensures p.Some? ==>
                && PassesAsPower(alignment) && (alignment > 0 ==> p.value % alignment == 0)
                && if Unfindable(alignment, size) then
                     && live == old(live) && p.value !in old(blocks)
                     && ZeroSized(blocks) == old(ZeroSized(blocks)) + {p.value}
                   else
                     && Gained(old(live), live, p.value, RoomAsked(alignment, size))
                     && ZeroSized(blocks) == old(ZeroSized(blocks))
      ensures old(asked) <= asked
      ensures p.None? <==>
                !PassesAsPower(alignment) || Oversize(alignment, size) || !Served(memory, old(asked), asked)
      ensures p.None? ==> Untouched()
    {
      hide ChunkReady, PoolOk, Indexed, Pow2;
      if PassesAsPower(alignment) {
        SmallPages();
        if size <= PageSize(c) && alignment <= Pow2(c.alignShift) {
          var most := if size >= alignment then size else alignment;
          if most <= PageSize(c) {
            p := AllocSmall(most);
            if p.Some? && alignment > 0 {
              AlignedTo(p.value, alignment, most);
            }
            return;
          }
        }
        p := AllocLarge(alignment, size);
      } else {
        p := None;
      }
    }

    lemma SmallPages()
      requires Valid()
      ensures Pow2(c.alignShift) <= PageSize(c) && Slots(c) > 0
    {
      Pow2Order(c.alignShift, c.pageShift);
    }

    lemma AlignedTo(p: Address, alignment: nat, size: nat)
      requires Valid() && Aligned(c, p, size) && PassesAsPower(alignment) && 0 < alignment <= size
      requires alignment <= Pow2(c.alignShift)
      ensures p % alignment == 0
    {
      hide Pow2;
      PowerTest(alignment);
      LogOrder(alignment, Pow2(c.alignShift));
      LogPow2(c.alignShift);
    }

    method AllocSmall(size: nat) returns (p: Option<Address>)
      requires Valid() && size <= PageSize(c)
      modifies this
      ensures Valid()
      ensures p.Some? ==> Gained(old(live), live, p.value, size) && Aligned(c, p.value, size)
      ensures p.None? ==> Untouched()
      ensures ZeroSized(blocks) == old(ZeroSized(blocks))
      ensures old(asked) <= asked && (p.None? <==> !Served(memory, old(asked), asked))
      ensures old(free != [] || ChunkReady(size)) ==> asked == old(asked)
      ensures old(ChunkReady(size)) ==> free == old(free)
    {
      hide ChunkReady, PoolOk, Indexed, Gained, Aligned, Pow2;
      BlocksAndLists();
      if size <= PageSize(c) / 2 {
        var k := FindSlot(size);
        SlotIs(k, size);
        if lists[k] != [] {
          p := TakeChunk(k, size);
        } else {
          p := UsePage(k, size);
        }
      } else {
        NoSlot(size);
        p := UsePage(Slots(c), size);
      }
    }

    lemma SlotIs(k: nat, size: nat)
      requires Valid() && |lists| == Slots(c) && k < Slots(c)
      requires size <= SlotSize(c, k) && forall j: nat | j < k :: SlotSize(c, j) < size
      ensures ChunkReady(size) <==> lists[k] != []
    {
      hide Pow2, PoolOk, Indexed, SlotsOk;
    }

    lemma NoSlot(size: nat)
      requires Valid() && |lists| == Slots(c) && size > PageSize(c) / 2
      ensures !ChunkReady(size)
    {
      hide Pow2, PoolOk, Indexed, SlotsOk;
      forall k: nat | k < |lists| ensures SlotSize(c, k) <= PageSize(c) / 2 {
        Pow2Order(c.chunkShift + k, c.pageShift - 1);
        Pow2Next(c.pageShift - 1);
      }
    }

    // The first slot with chunks of at least this size.
    method FindSlot(size: nat) returns (k: nat)
      requires Valid() && size <= PageSize(c) / 2
      ensures k < Slots(c) && size <= SlotSize(c, k) && forall j: nat | j < k :: SlotSize(c, j) < size
    {
      assert SlotSize(c, Slots(c) - 1) == PageSize(c) / 2;
      k := 0;
      while slots[k].size < size
        invariant 0 <= k < Slots(c)
        invariant forall j: nat | j < k :: SlotSize(c, j) < size
      {
        k := k + 1;
      }
    }

    // A chunk of the first page on the slot's list; the page leaves the list when
    // it becomes full.
    method TakeChunk(k: nat, size: nat) returns (p: Option<Address>)
      requires Valid() && k < Slots(c) && |lists| == Slots(c) && lists[k] != [] && size <= SlotSize(c, k)
      modifies this
      ensures Valid() && p.Some?
      ensures Gained(old(live), live, p.value, size) && Aligned(c, p.value, size)
      ensures ZeroSized(blocks) == old(ZeroSized(blocks)) && free == old(free) && asked == old(asked)
    {
      hide Pow2, PoolOk, Indexed, Aligned, WithChunk, SetPage, SetBusy;
      HeadInUse(k);
      var r := lists[k][0];
      var g := PageOf(blocks, r);
      ghost var h;
      var offset, bits;
      offset, bits, h := AllocChunk(g.bits, slots[k].size, Total(c, k));
      ChunkTaken(c, blocks, free, lists, live, k, h, size);
      ChunkAligned(c, r, k, h, size);
      IndexKept(tree, blocks, r, WithChunk(g, h, true));
      ZeroKept(blocks, r, WithChunk(g, h, true));
      BusyChunk(g, h);
      p := Some(r.cluster + r.number * PageSize(c) + offset);
      live := live[p.value := Live(r.cluster, ChunkAt(r.number, h), size)];
      blocks := SetPage(blocks, r, g.(bits := bits, chunks := g.chunks - 1));
      if g.chunks - 1 == 0 {
        lists := lists[k := lists[k][1..]];
      }
    }

    lemma HeadInUse(k: nat)
      requires Valid() && k < Slots(c) && |lists| == Slots(c) && lists[k] != []
      ensures var r := lists[k][0];
              && ChunkPage(c, blocks, r, k) && slots[k].size == SlotSize(c, k)
              && r.cluster % Pow2(c.alignShift) == 0 && k < |slots|
              && Total(c, k) <= 32 && PageOf(blocks, r).chunks == FreeCount(PageOf(blocks, r).bits, Total(c, k)) > 0
    {
      hide Pow2;
      HeadOfList(c, blocks, free, lists, k);
      ChunkPageOk(c, blocks, lists[k][0], k);
    }

    // A page is taken for chunks of slot k, or as a whole.
    method UsePage(k: nat, size: nat) returns (p: Option<Address>)
      requires Valid() && k <= Slots(c) && size <= SlotSize(c, k)
      modifies this
      ensures Valid()
      ensures p.Some? ==> Gained(old(live), live, p.value, size) && Aligned(c, p.value, size)
      ensures p.None? ==> Untouched()
      ensures ZeroSized(blocks) == old(ZeroSized(blocks))
      ensures old(asked) <= asked && (p.None? <==> !Served(memory, old(asked), asked))
      ensures old(free) != [] ==> asked == old(asked)
    {
      hide Pow2, PoolOk, Indexed, Aligned, SetPage, FreshPage;
      var page := AllocPage();
      if page.None? {
        return None;
      }
      var r := page.value;
      PageUsed(c, blocks, free, lists, live, r, k, size);
      var g := PageOf(blocks, r);
      FreshChunks(k, g);
      ChunkAligned(c, r, k, 0, size);
      IndexKept(tree, blocks, r, FreshPage(c, k, g));
      ZeroKept(blocks, r, FreshPage(c, k, g));
      p := Some(r.cluster + r.number * PageSize(c));
      live := live[p.value := Live(r.cluster, FreshPlace(c, r, k), size)];
      if k < Slots(c) {
        lists := lists[k := [r] + lists[k]];
        blocks := SetPage(blocks, r, Page(Units(c, slots[k].size), slots[k].chunks, [0x80, 0, 0, 0]));
      } else {
        blocks := SetPage(blocks, r, g.(size := Units(c, PageSize(c))));
      }
    }

    // The page's size is counted in smallest chunks.
    lemma FreshChunks(k: nat, g: Page)
      requires ConfigOk(c) && SlotsOk(c, slots) && k <= Slots(c)
      ensures FreshPage(c, k, g) ==
              if k < Slots(c) then Page(Units(c, slots[k].size), slots[k].chunks, [0x80, 0, 0, 0])
              else g.(size := Units(c, PageSize(c)))
    {
      hide Pow2, Units, ConfigOk;
      LogPow2(k);
      InUnits(c, k);
      assert PageSize(c) == SlotSize(c, Slots(c));
      hide SlotSize, PageSize;
    }

    // The head of the free list, from a new cluster when there is none.
    method AllocPage() returns (page: Option<Ref>)
      requires Valid()
      modifies this
      ensures page.None? ==> Untouched()
      ensures old(asked) <= asked && (page.None? <==> !Served(memory, old(asked), asked))
      ensures old(free) != [] ==> asked == old(asked)
      ensures ZeroSized(blocks) == old(ZeroSized(blocks))
      ensures live == old(live) && lists == old(lists) && Indexed(tree, blocks)
      ensures page.Some? ==>
                && PoolOk(c, blocks, free, lists, live, {page.value}) && page.value.cluster % Pow2(c.alignShift) == 0
                && ValidRef(blocks, page.value) && |lists| == Slots(c)
    {
      hide Pow2;
      if free == [] {
        var ok := AllocCluster();
        if !ok {
          return None;
        }
      } else {
        PageTaken(c, blocks, free, lists, live);
      }
      page := Some(free[0]);
      free := free[1..];
    }

    method AllocCluster() returns (ok: bool)
      requires Valid() && free == []
      modifies this
      ensures !ok ==> Untouched()
      ensures old(asked) <= asked && (ok <==> Served(memory, old(asked), asked))
      ensures ZeroSized(blocks) == old(ZeroSized(blocks))
      ensures live == old(live) && lists == old(lists) && Indexed(tree, blocks)
      ensures ok ==> free != [] && PoolOk(c, blocks, free[1..], lists, live, {free[0]})
    {
      hide Pow2, PoolOk, Indexed, ZeroSized, Clear, ConfigOk;
      ok := Ask();
      if !ok {
        return;
      }
      var start := MemAlign(Pow2(c.alignShift), ClusterSize(c));
      if start.None? {
        return false;
      }
      AddCluster(start.value);
      ok := true;
    }

    method AddCluster(start: Address)
      requires Valid() && free == [] && start > 0 && (Pow2(c.alignShift) == 0 || start % Pow2(c.alignShift) == 0)
      requires Clear(blocks, start, ClusterSize(c))
      modifies this`free, this`tree, this`blocks
      ensures ZeroSized(blocks) == old(ZeroSized(blocks)) && Indexed(tree, blocks)
      ensures free != [] && PoolOk(c, blocks, free[1..], lists, live, {free[0]})
    {
      hide Pow2, PageRefs;
      var b := Cluster(ClusterSize(c), FreshPages(c.pages));
      ClusterAdded(c, blocks, free, lists, live, start);
      IndexAdded(tree, blocks, start, b);
      ClusterNotEmpty(c);
      ZeroAdded(blocks, start, b);
      var refs := AllPages(start);
      free := refs + free;
      tree := SearchTree.Insert(tree, start, ClusterSize(c));
      blocks := blocks[start := b];
    }

    method AllPages(start: Address) returns (refs: seq<Ref>)
      requires c.pages > 0
      ensures refs == PageRefs(start, c.pages)
    {
      var n := c.pages - 1;
      refs := [Ref(start, n)];
      while n != 0
        invariant 0 <= n < c.pages && refs == PageRefs(start, c.pages)[n..]
      {
        n := n - 1;
        refs := [Ref(start, n)] + refs;
      }
    }

    method Ask() returns (ok: bool)
      modifies this`asked
      ensures asked == old(asked) + 1 && ok == Granted(memory, old(asked))
    {
      ok := Granted(memory, asked);
      asked := asked + 1;
    }

    // Memory from the system, somewhere that is not in use.
    method MemAlign(alignment: nat, size: nat) returns (p: Option<Address>)
      modifies this`asked
      ensures asked == old(asked) + 1 && (p.Some? <==> Granted(memory, old(asked)))
      ensures p.Some? ==> p.value > 0 && (alignment == 0 || p.value % alignment == 0) && Clear(blocks, p.value, size)
    {
      var ok := Ask();
      if !ok {
        return None;
      }
      SomewhereClear(blocks, alignment, size);
      var a: Address :| a > 0 && (alignment == 0 || a % alignment == 0) && Clear(blocks, a, size);
      return Some(a);
    }

    method AllocLarge(alignment: nat, size: nat) returns (p: Option<Address>)
      requires Valid()
      modifies this
      ensures Valid()
      ensures p.Some? ==>
                && size < 0xffff_ffff && (alignment > 0 ==> p.value % alignment == 0)
                && p.value !in old(blocks) && p.value in blocks && blocks[p.value].size == size
                && (size > 0 ==> Gained(old(live), live, p.value, size)) && (size == 0 ==> live == old(live))
      ensures p.Some? ==> ZeroSized(blocks) == old(ZeroSized(blocks)) + if size == 0 then {p.value} else {}
      ensures old(asked) <= asked && (p.None? <==> size >= 0xffff_ffff || !Served(memory, old(asked), asked))
      ensures p.None? ==> Untouched()
    {
      hide Pow2, PoolOk, Indexed;
      if size >= 0xffff_ffff {
        return None;
      }
      var embedded := !PassesAsPower(size);
      if !embedded {
        var ok := Ask();
        if !ok {
          return None;
        }
        p := MemAlign(alignment, size);
      } else {
        p := MemAlign(alignment, (size + 7) / 8 * 8 + HEADER);
      }
      if p.None? {
        return;
      }
      LargeAdded(c, blocks, free, lists, live, p.value, size, embedded);
      IndexAdded(tree, blocks, p.value, Large(size, embedded));
      ZeroAdded(blocks, p.value, Large(size, embedded));
      tree := SearchTree.Insert(tree, p.value, size);
      blocks := blocks[p.value := Large(size, embedded)];
      if size > 0 {
        live := live[p.value := Live(p.value, AllOfIt, size)];
      }
    }

    // ----- freeing -----

    method FindBlock(p: Address) returns (a: Option<Address>)
      requires Valid()
      ensures match a
              case Some(a) => a in blocks && a <= p < a + blocks[a].size
              case None => forall b | b in blocks :: !(b <= p < b + blocks[b].size)
    {
      hide SearchTree.Lookup, BlockOk;
      IndexedApart(c, tree, blocks);
      a := SearchTree.Find(tree, p);
      assert forall b :: b in blocks <==> SearchTree.Lookup(tree, b).Some?;
      assert forall b | b in blocks :: SearchTree.Holds(tree, b, p) <==> b <= p < b + blocks[b].size;
    }

    // Just the live allocations can be freed.
    method Free(p: Address) returns (r: FreeResult)
      requires Valid()
      modifies this
      ensures Valid()
      ensures r == Freed <==> p in old(live)
      ensures r == Freed ==> live == old(live) - {p}
      ensures r != Freed ==> unchanged(this)
      ensures ZeroSized(blocks) == old(ZeroSized(blocks))
      ensures r == OutOfPool <==> forall a | a in old(blocks) :: !(a <= p < a + old(blocks)[a].size)
      ensures forall a | a in old(blocks) && a <= p < a + old(blocks)[a].size :: Answered(c, old(blocks), a, p, r)
    {
      hide Pow2, BlockOk, BusyPlace, Offset, Room, ListsOk, ClustersUsed;
      var found := FindBlock(p);
      if p in live {
        LiveInside(p);
      }
      if found.None? {
        return OutOfPool;
      }
      var a := found.value;
      assert forall b | b in blocks && b <= p < b + blocks[b].size :: b == a by {
        OneBlock(a, p);
      }
      if p in live {
        WhereLive(c, blocks, live, a, p);
      }
      if blocks[a].Cluster? {
        r := ChunkFree(a, p);
      } else if p == a {
        LargeRemoved(c, blocks, free, lists, live, a);
        IndexRemoved(tree, blocks, a);
        ZeroRemoved(blocks, a);
        tree := SearchTree.Delete(tree, a);
        blocks := blocks - {a};
        live := live - {p};
        r := Freed;
      } else {
        r := MiddleOfBlock;
      }
    }

    lemma OneBlock(a: Address, p: Address)
      requires Valid() && a in blocks && a <= p < a + blocks[a].size
      ensures forall b | b in blocks && b <= p < b + blocks[b].size :: b == a
    {
      hide BlockOk, LiveOk, ListsOk;
      assert forall b | b in blocks && b != a :: Disjoint(a, blocks[a].size, b, blocks[b].size);
    }

    lemma LiveInside(p: Address)
      requires Valid() && p in live
      ensures exists a :: a in blocks && a <= p < a + blocks[a].size
    {
      hide Pow2, ListsOk, ClustersUsed;
      var v := live[p];
      PlaceInBlock(c, blocks[v.block], v.place);
    }

    method ChunkFree(a: Address, p: Address) returns (r: FreeResult)
      requires Valid() && a in blocks && blocks[a].Cluster? && a <= p < a + blocks[a].size
      modifies this
      ensures Valid()
      ensures r == Freed <==> p in old(live)
      ensures r == Freed ==> live == old(live) - {p}
      ensures r != Freed ==> unchanged(this)
      ensures r != OutOfPool
      ensures Answered(c, old(blocks), a, p, r)
      ensures ZeroSized(blocks) == old(ZeroSized(blocks))
    {
      hide Pow2, PoolOk, Indexed, SetPage, Busy, SetFree, SlotsOk, FreeCount;
      PageAtAddress(c, blocks, free, lists, live, a, p);
      var n := (p - a) / PageSize(c);
      var start := a + n * PageSize(c);
      var page := Ref(a, n);
      var g := PageOf(blocks, page);
      if g.size == 0 {
        return FreePage;
      }
      var size := g.size * Pow2(c.chunkShift);
      if size != PageSize(c) {
        var offset := (p - start) % PageSize(c);
        var chunk := offset / size;
        if offset != chunk * size {
          return WrongChunk;
        }
        if !Busy(g.bits, chunk) {
          return FreeChunk;
        }
        PageOffset(c, page, Log(g.size), chunk);
        var k := FindSlot(size);
        SlotOf(k, size, Log(g.size));
        if g.chunks != slots[k].chunks {
          KeepPage(page, k, chunk, p);
          return Freed;
        }
        BlocksAndLists();
        OneBusy(c, blocks, page, k, chunk);
        ReleasePage(page, k, ChunkAt(n, chunk), p);
      } else if p != start {
        return WrongStart;
      } else {
        OneWhole(c, blocks, page);
        ReleasePage(page, Slots(c), PageAt(n), p);
      }
      FreeCluster(a);
      r := Freed;
    }

    lemma BlocksAndLists()
      requires Valid()
      ensures BlocksOk(c, blocks) && |lists| == Slots(c)
    {
    }

    // Chunk h of the page is given back, and the page is still in use.
    method KeepPage(page: Ref, k: nat, h: nat, p: Address)
      requires Valid() && ChunkPage(c, blocks, page, k) && h < 32 && h < Total(c, k) && k < |slots|
      requires Busy(PageOf(blocks, page).bits, h) && PageOf(blocks, page).chunks != slots[k].chunks
      requires p == page.cluster + (page.number * PageSize(c) + h * SlotSize(c, k))
      modifies this
      ensures Valid() && p in old(live) && live == old(live) - {p}
      ensures ZeroSized(blocks) == old(ZeroSized(blocks))
    {
      hide Pow2, PoolOk, Indexed, SetPage, Busy, SetFree, FreeCount;
      BlocksAndLists();
      ChunkPageOk(c, blocks, page, k);
      ChunkReturned(c, blocks, free, lists, live, page, k, h);
      var g := PageOf(blocks, page);
      g := g.(bits := SetFree(g.bits, h), chunks := g.chunks + 1);
      IndexKept(tree, blocks, page, g);
      ZeroKept(blocks, page, g);
      blocks := SetPage(blocks, page, g);
      if g.chunks == 1 {
        lists := lists[k := [page] + lists[k]];
      }
      live := live - {p};
    }

    // The page's only allocation is given back: the page leaves the list of its
    // slot, if it has one, and is free.
    method ReleasePage(page: Ref, k: nat, l: Place, p: Address)
      requires Valid() && ValidRef(blocks, page) && OnlyPlace(c, blocks, page, l) && k == Log(PageOf(blocks, page).size)
      requires p == page.cluster + Offset(c, blocks[page.cluster], l)
      modifies this
      ensures PoolBase(c, blocks, free, lists, live, {}) && OthersUsed(blocks, page.cluster) && Indexed(tree, blocks)
      ensures page.cluster in blocks && blocks[page.cluster].Cluster? && p in old(live) && live == old(live) - {p}
      ensures ZeroSized(blocks) == old(ZeroSized(blocks))
    {
      hide Pow2, PoolOk, Indexed, OnlyPlace, Offset, PoolBase, OthersUsed;
      var g := PageOf(blocks, page);
      var lists1 := if InChunks(c, g) && k < |lists| then lists[k := Removed(lists[k], page)] else lists;
      g := g.(size := 0);
      PageReturned(c, blocks, free, lists, live, page, l, g, lists1);
      IndexKept(tree, blocks, page, g);
      ZeroKept(blocks, page, g);
      lists := lists1;
      blocks := SetPage(blocks, page, g);
      free := [page] + free;
      live := live - {p};
    }

    lemma SlotOf(k: nat, size: nat, k0: nat)
      requires ConfigOk(c) && SlotsOk(c, slots) && k < Slots(c) && k0 < Slots(c) && size == SlotSize(c, k0)
      requires size <= SlotSize(c, k) && forall j: nat | j < k :: SlotSize(c, j) < size
      ensures k == k0 && k < |slots| && slots[k].chunks + 1 == Total(c, k)
    {
      hide Pow2;
      if k < k0 {
        Pow2Order(c.chunkShift + k + 1, c.chunkShift + k0);
        Pow2Next(c.chunkShift + k);
      }
    }

    // A cluster without a page in use goes.
    method FreeCluster(a: Address)
      requires PoolBase(c, blocks, free, lists, live, {}) && OthersUsed(blocks, a) && a in blocks && blocks[a].Cluster?
      requires SlotsOk(c, slots) && Indexed(tree, blocks)
      modifies this
      ensures Valid() && live == old(live) && lists == old(lists)
      ensures ZeroSized(blocks) == old(ZeroSized(blocks))
    {
      hide Pow2, BlockOk, LiveOk, ListsOk, SlotsOk, Indexed;
      var pages := blocks[a].pages;
      var n := 0;
      while n < |pages|
        invariant n <= |pages| && forall i | 0 <= i < n :: pages[i].size == 0
      {
        if pages[n].size != 0 {
          return;
        }
        n := n + 1;
      }
      ClusterLists(c, blocks, free, lists, a);
      n := 0;
      var rest := free;
      while n < |pages|
        invariant n <= |pages| && NoDuplicates(rest) && unchanged(this)
        invariant forall q :: q in rest <==> q in free && !(q.cluster == a && q.number < n)
      {
        RemovedDistinct(rest, Ref(a, n));
        rest := Removed(rest, Ref(a, n));
        n := n + 1;
      }
      ClusterRemoved(c, blocks, free, lists, live, a, rest);
      IndexRemoved(tree, blocks, a);
      ClusterSized(c, blocks, a);
      ZeroRemoved(blocks, a);
      free := rest;
      tree := SearchTree.Delete(tree, a);
      blocks := blocks - {a};
    }
  }

  // ----- runs -----

  datatype Op = AllocOp(size: nat) | AlignOp(alignment: nat, size: nat) | FreeOp(p: Address)

  // After any run from an empty pool, the pool is empty just when nothing is live
  // and none of the requests met was for a block of size zero.  Such a block stays
  // for the rest of the run.
  method Run(pool: Pool, ops: seq<Op>) returns (empty: bool, met: seq<bool>)
    requires pool.Valid() && pool.live == map[] && ZeroSized(pool.blocks) == {}
    modifies pool
    ensures pool.Valid() && |met| == |ops|
    ensures empty <==> pool.live == map[] && forall i | 0 <= i < |ops| && met[i] :: !Lost(pool, ops[i])
  {
    hide Pool.Valid, Aligned, Gained, PassesAsPower, Pow2, Pool.RoomAsked, Pool.Unfindable, ZeroSized;
    met := [];
    while |met| < |ops|
      invariant |met| <= |ops| && pool.Valid()
      invariant ZeroSized(pool.blocks) == {} <==> forall i | 0 <= i < |met| && met[i] :: !Lost(pool, ops[i])
    {
      var ok := Perform(pool, ops[|met|]);
      met := met + [ok];
    }
    empty := pool.IsEmpty();
  }

  // A request for a block of size zero.
  predicate Lost(pool: Pool, op: Op) {
    op.AlignOp? && pool.Unfindable(op.alignment, op.size)
  }

  method Perform(pool: Pool, op: Op) returns (met: bool)
    requires pool.Valid()
    modifies pool
    ensures pool.Valid()
    ensures ZeroSized(pool.blocks) == {} <==> old(ZeroSized(pool.blocks)) == {} && !(met && Lost(pool, op))
  {
    hide Pool.Valid, Aligned, Gained, PassesAsPower, Pow2, Pool.RoomAsked, Pool.Unfindable;
    match op {
      case AllocOp(size) =>
        var p := pool.Alloc(size);
        met := p.Some?;
      case AlignOp(alignment, size) =>
        var p := pool.Align(alignment, size);
        met := p.Some?;
      case FreeOp(p) =>
        var r := pool.Free(p);
        met := r == Freed;
    }
  }

  // In a pool with pages aligned to 16, a block of size zero aligned to 32 that is
  // met keeps the pool from ever being empty, whatever is done before and after.
  method ZeroForever(pool: Pool, before: seq<Op>, after: seq<Op>) returns (empty: bool, met: seq<bool>)
    requires pool.Valid() && pool.live == map[] && ZeroSized(pool.blocks) == {} && Pow2(pool.c.alignShift) == 16
    modifies pool
    ensures |met| == |before| + 1 + |after| && (met[|before|] ==> !empty)
  {
    var ops := before + [AlignOp(32, 0)] + after;
    empty, met := Run(pool, ops);
    assert ops[|before|] == AlignOp(32, 0);
    assert Lost(pool, ops[|before|]);
  }

  // ----- creation -----

  // The sizes a pool is made for; alignments below 16 count as 16.
  predicate Accepts(clusterSize: nat, pageAlignment: nat, pageSize: nat, minChunk: nat) {
    && PowerOfTwo(pageSize) && PowerOfTwo(minChunk) && (pageAlignment == 0 || PowerOfTwo(pageAlignment))
    && 64 <= pageSize && 16 <= pageSize && pageAlignment <= pageSize && minChunk <= pageSize <= 32 * minChunk
    && clusterSize % pageSize == 0 && 1 <= clusterSize / pageSize <= 256
  }

  predicate PowerOfTwo(v: nat) { v > 0 && v == Pow2(Log(v)) }

  // The pool works only for smallest chunks below the size of a page.
  method Create(clusterSize: nat, pageAlignment: nat, pageSize: nat, minChunk: nat, memory: seq<bool>)
    returns (r: Option<Pool>)
    ensures r.Some? <==> Granted(memory, 0) && Accepts(clusterSize, pageAlignment, pageSize, minChunk)
    ensures r.Some? ==>
              var pool := r.value;
              && fresh(pool) && pool.live == map[] && pool.blocks == map[] && pool.memory == memory && pool.asked == 1
              && PageSize(pool.c) == pageSize && ClusterSize(pool.c) == clusterSize
              && Pow2(pool.c.chunkShift) == minChunk
              && Pow2(pool.c.alignShift) == (if pageAlignment > MAX_ALIGNMENT then pageAlignment else MAX_ALIGNMENT)
              && (minChunk < pageSize ==> pool.Valid())
              && (minChunk == pageSize ==> pool.slots == [Slot(pageSize / 2, 1)])
  {
    if !PassesAsPower(pageAlignment) || !PassesAsPower(pageSize) || !PassesAsPower(minChunk) {
      Refused(pageAlignment, pageSize, minChunk);
      return None;
    }
    var alignment := if pageAlignment > MAX_ALIGNMENT then pageAlignment else MAX_ALIGNMENT;
    if pageSize < 64 || pageSize < alignment || pageSize < minChunk || minChunk * 32 < pageSize
       || clusterSize < pageSize
       || clusterSize / pageSize > 256 || clusterSize % pageSize != 0 {
      if pageSize > 0 {
        QuotientOne(clusterSize, pageSize);
      }
      return None;
    }
    Accepted(clusterSize, pageAlignment, pageSize, minChunk);
    if !Granted(memory, 0) {
      return None;
    }
    r := FastCreate(clusterSize, alignment, pageSize, minChunk, memory);
  }

  lemma Refused(pageAlignment: nat, pageSize: nat, minChunk: nat)
    requires !PassesAsPower(pageAlignment) || !PassesAsPower(pageSize) || !PassesAsPower(minChunk)
    ensures !((pageAlignment == 0 || PowerOfTwo(pageAlignment)) && PowerOfTwo(pageSize) && PowerOfTwo(minChunk))
  {
    forall v: nat | v == pageAlignment || v == pageSize || v == minChunk
      ensures v > 0 ==> (PassesAsPower(v) <==> PowerOfTwo(v))
    {
      if v > 0 {
        PowerTest(v);
      }
    }
  }

  lemma QuotientOne(a: nat, m: nat)
    requires m > 0
    ensures a < m ==> a / m == 0
  {
  }

  lemma Accepted(clusterSize: nat, pageAlignment: nat, pageSize: nat, minChunk: nat)
    requires PassesAsPower(pageAlignment) && PassesAsPower(pageSize) && PassesAsPower(minChunk)
    requires 64 <= pageSize && pageAlignment <= pageSize && minChunk <= pageSize <= 32 * minChunk
    requires clusterSize >= pageSize && clusterSize / pageSize <= 256 && clusterSize % pageSize == 0
    ensures Accepts(clusterSize, pageAlignment, pageSize, minChunk)
  {
    hide Pow2, Log, PassesAsPower;
    PowerTest(pageSize);
    PowerTest(minChunk);
    if pageAlignment > 0 {
      PowerTest(pageAlignment);
    }
    QuotientAtLeastOne(clusterSize, pageSize);
  }

  lemma QuotientAtLeastOne(a: nat, m: nat)
    requires 0 < m <= a
    ensures a / m >= 1
  {
  }

  method FastCreate(clusterSize: nat, pageAlignment: nat, pageSize: nat, minChunk: nat, memory: seq<bool>)
    returns (r: Option<Pool>)
    requires Accepts(clusterSize, pageAlignment, pageSize, minChunk) && pageAlignment >= MAX_ALIGNMENT
    ensures r.Some? && fresh(r.value) && r.value.live == map[] && r.value.blocks == map[]
    ensures r.value.memory == memory && r.value.asked == 1
    ensures var pool := r.value;
            && PageSize(pool.c) == pageSize && ClusterSize(pool.c) == clusterSize && Pow2(pool.c.chunkShift) == minChunk
            && Pow2(pool.c.alignShift) == pageAlignment && (minChunk < pageSize ==> pool.Valid())
            && (minChunk == pageSize ==> pool.slots == [Slot(pageSize / 2, 1)])
  {
    hide Pow2, Log, PoolOk, Indexed;
    var table := SlotTable(pageSize, minChunk);
    Shifts(pageAlignment, pageSize, minChunk);
    var chunkShift := Shift(minChunk);
    var pageShift := Shift(pageSize);
    var alignShift := Shift(pageAlignment);
    var c := Config(chunkShift, pageShift, alignShift, clusterSize / pageSize);
    assert clusterSize == clusterSize / pageSize * pageSize;
    assert minChunk < pageSize ==> ConfigOk(c) && SlotsOk(c, table) by {
      if minChunk < pageSize {
        TableOk(c, table);
      }
    }
    hide ConfigOk, SlotsOk, Accepts, Slots;
    var pool := new Pool(c, table, memory);
    r := Some(pool);
  }

  lemma TableOk(c: Config, table: seq<Slot>)
    requires ConfigOk(c) && |table| == Slots(c)
    requires forall k | 0 <= k < |table| :: table[k] == Slot(Pow2(c.chunkShift + k), Pow2(Slots(c) - k) - 1)
    ensures SlotsOk(c, table)
  {
    hide Pow2;
  }

  // The slots for chunks from the smallest to half a page, and their numbers of
  // chunks less one.
  method SlotTable(pageSize: nat, minChunk: nat) returns (table: seq<Slot>)
    requires PowerOfTwo(pageSize) && PowerOfTwo(minChunk) && minChunk <= pageSize && pageSize >= 2
    ensures minChunk < pageSize ==>
              var low, n := Log(minChunk), Log(pageSize) - Log(minChunk);
              |table| == n && forall k | 0 <= k < n :: table[k] == Slot(Pow2(low + k), Pow2(n - k) - 1)
    ensures minChunk == pageSize ==> table == [Slot(pageSize / 2, 1)]
  {
    hide Pow2, Log;
    ghost var top, low := Log(pageSize), Log(minChunk);
    ThirtyTwo();
    PowOrder(top, low);
    PowOrder(0, top);
    var slots, chunk := 1, pageSize / 2;
    PowOrder(top - 1, top);
    while chunk > minChunk
      invariant 1 <= slots <= top && chunk == Pow2(top - slots) && (low < top ==> low <= top - slots)
      invariant minChunk == pageSize ==> slots == 1
    {
      PowOrder(low, top - slots);
      PowOrder(top - slots - 1, top);
      slots, chunk := slots + 1, chunk / 2;
    }
    PowOrder(low, top - slots);
    table := [];
    while chunk < pageSize
      invariant |table| <= slots && chunk == Pow2(top - slots + |table|)
      invariant forall k | 0 <= k < |table| :: table[k] == Slot(Pow2(top - slots + k), Pow2(slots - k) - 1)
      decreases slots - |table|
    {
      PowOrder(top - slots + |table|, top);
      PowQuotient(slots - |table|, top - slots + |table|);
      var chunks := pageSize / chunk;
      assert chunks == Pow2(slots - |table|);
      table, chunk := table + [Slot(chunk, chunks - 1)], chunk * 2;
    }
    PowOrder(top - slots + |table|, top);
    if minChunk == pageSize {
      PowOrder(top - 1, top);
      assert |table| == 1 && table[0] == Slot(Pow2(top - 1), Pow2(1) - 1);
    }
  }

  lemma PowQuotient(a: nat, b: nat)
    ensures Pow2(a + b) / Pow2(b) == Pow2(a)
  {
    hide Pow2;
    Pow2Add(a, b);
    DivModOf(Pow2(a + b), Pow2(a), Pow2(b), 0);
  }

  lemma PowOrder(a: nat, b: nat)
    ensures a < b <==> Pow2(a) < Pow2(b)
    ensures Pow2(a + 1) == 2 * Pow2(a)
  {
    hide Pow2;
    Pow2Next(a);
    if a < b {
      Pow2Order(a + 1, b);
    } else {
      Pow2Order(b, a);
    }
  }

  lemma Shifts(pageAlignment: nat, pageSize: nat, minChunk: nat)
    requires PowerOfTwo(pageSize) && PowerOfTwo(minChunk) && PowerOfTwo(pageAlignment)
    requires 64 <= pageSize && 16 <= pageAlignment <= pageSize && minChunk <= pageSize <= 32 * minChunk
    ensures 1 <= Log(minChunk) <= Log(pageSize) <= Log(minChunk) + 5 && 6 <= Log(pageSize)
    ensures 4 <= Log(pageAlignment) <= Log(pageSize) && minChunk >= 2
    ensures minChunk < pageSize ==> Log(minChunk) < Log(pageSize)
  {
    hide Pow2, Log;
    var a, p, m := Log(pageAlignment), Log(pageSize), Log(minChunk);
    Pow2Small();
    ThirtyTwo();
    Pow2Add(m, 5);
    Pow2Next(5);
    Pow2Next(3);
    Pow2Next(2);
    PowOrder(0, m);
    PowOrder(p, m);
    PowOrder(m, p);
    PowOrder(m + 5, p);
    PowOrder(p, 6);
    PowOrder(a, 4);
    PowOrder(p, a);
  }

  // With a smallest chunk as large as a page, the size recorded for a page of
  // half-page chunks is zero, which marks free pages: just then a chunk of such a
  // page that was handed out, at any offset, is refused.
  lemma HalfPageRefused(c: Config, chunks: nat, bits: Bitmap)
    requires 1 <= c.chunkShift <= c.pageShift
    ensures var g := Page(Units(c, PageSize(c) / 2), chunks, bits);
            && (g.size == 0 <==> c.chunkShift == c.pageShift)
            && ((forall offset: nat :: Refusal(c, g, offset) == Some(FreePage)) <==> c.chunkShift == c.pageShift)
  {
    hide Pow2;
    var g := Page(Units(c, PageSize(c) / 2), chunks, bits);
    PowOrder(c.pageShift - 1, c.pageShift);
    assert PageSize(c) / 2 == Pow2(c.pageShift - 1);
    if c.chunkShift < c.pageShift {
      PowQuotient(c.pageShift - 1 - c.chunkShift, c.chunkShift);
    } else {
      DivModOf(Pow2(c.pageShift - 1), 0, Pow2(c.chunkShift), Pow2(c.pageShift - 1));
    }
    assert g.size == 0 <==> c.chunkShift == c.pageShift;
    assert Refusal(c, g, 0) == Some(FreePage) <==> g.size == 0;
    assert g.size == 0 ==> forall offset: nat :: Refusal(c, g, offset) == Some(FreePage);
  }

  // The number of halvings, and one for a size of one.
  method Shift(n: nat) returns (shift: nat)
    ensures n >= 2 ==> shift == Log(n)
  {
    var m: nat := n / 2;
    shift := 1;
    m := m / 2;
    while m != 0
      invariant n >= 2 ==> if m == 0 then shift == Log(n) else Log(n) == shift + 1 + Log(m)
    {
      shift := shift + 1;
      m := m / 2;
    }
  }
}
