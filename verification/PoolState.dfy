// The state of a memory pool: clusters of pages, pages of chunks, large blocks,
// the lists of pages, and the allocations that are live.
module PoolState {
  import opened Arithmetic
  import opened PoolBits

  type Address = int

  // size counts smallest chunks, and is zero for a free page; chunks counts the
  // free chunks of a page in chunks.
  datatype Page = Page(size: nat, chunks: nat, bits: Bitmap)

  datatype Block = Cluster(size: nat, pages: seq<Page>) | Large(size: nat, embedded: bool)

  type Blocks = map<Address, Block>

  // A page is known by its cluster and its number there.
  datatype Ref = Ref(cluster: Address, number: nat)

  // Sizes and the alignment of clusters are powers of two.
  datatype Config = Config(chunkShift: nat, pageShift: nat, alignShift: nat, pages: nat)

  predicate ConfigOk(c: Config) {
    && 1 <= c.chunkShift < c.pageShift <= c.chunkShift + 5 && 6 <= c.pageShift
    && 4 <= c.alignShift <= c.pageShift && 1 <= c.pages <= 256
  }

  function PageSize(c: Config): int { Pow2(c.pageShift) }

  function ClusterSize(c: Config): int { c.pages * PageSize(c) }

  // Chunk sizes go from the smallest to half a page.
  function Slots(c: Config): nat
    requires ConfigOk(c)
  {
    c.pageShift - c.chunkShift
  }

  function SlotSize(c: Config, k: nat): int { Pow2(c.chunkShift + k) }

  // The chunks of a page.
  function Total(c: Config, k: nat): int
    requires ConfigOk(c) && k <= Slots(c)
  {
    Pow2(Slots(c) - k)
  }

  function Log(n: nat): nat
    requires n > 0
  {
    if n == 1 then 0 else 1 + Log(n / 2)
  }

  lemma {:induction false} LogPow2(k: nat)
    ensures Pow2(k) > 0 && Log(Pow2(k)) == k
  {
    if k > 0 {
      LogPow2(k - 1);
    }
  }

  lemma ChunksFill(c: Config, k: nat)
    requires ConfigOk(c) && k <= Slots(c)
    ensures Total(c, k) * SlotSize(c, k) == PageSize(c) && 1 <= Total(c, k) <= 32 && SlotSize(c, k) > 0
  {
    hide Pow2;
    Pow2Add(Slots(c) - k, c.chunkShift + k);
    Pow2Order(Slots(c) - k, 5);
    ThirtyTwo();
  }

  lemma ThirtyTwo()
    ensures Pow2(5) == 32 && Pow2(0) == 1
  {
  }

  predicate InChunks(c: Config, g: Page)
    requires ConfigOk(c)
  {
    g.size > 0 && Log(g.size) < Slots(c)
  }

  predicate Whole(c: Config, g: Page)
    requires ConfigOk(c)
  {
    g.size > 0 && Log(g.size) == Slots(c)
  }

  // Free, used as a whole, or in chunks of which some are busy and the others
  // counted.
  ghost predicate PageOk(c: Config, g: Page)
    requires ConfigOk(c)
  {
    g.size > 0 ==>
      && g.size == Pow2(Log(g.size)) && Log(g.size) <= Slots(c)
      && (InChunks(c, g) ==>
            var n := Total(c, Log(g.size));
            n <= 32 && g.chunks == FreeCount(g.bits, n) < n)
  }

  // ----- allocations -----

  // Where an allocation is in its block.
  datatype Place = AllOfIt | PageAt(number: nat) | ChunkAt(number: nat, chunk: nat)

  ghost predicate BusyPlace(c: Config, b: Block, l: Place)
    requires ConfigOk(c)
  {
    match l
    case AllOfIt => b.Large? && b.size > 0
    case PageAt(i) => b.Cluster? && i < |b.pages| && Whole(c, b.pages[i])
    case ChunkAt(i, h) =>
      && b.Cluster? && i < |b.pages| && InChunks(c, b.pages[i])
      && h < 32 && h < Total(c, Log(b.pages[i].size)) && Busy(b.pages[i].bits, h)
  }

  function Offset(c: Config, b: Block, l: Place): int
    requires ConfigOk(c)
  {
    match l
    case AllOfIt => 0
    case PageAt(i) => i * PageSize(c)
    case ChunkAt(i, h) =>
      if b.Cluster? && i < |b.pages| && b.pages[i].size > 0
      then i * PageSize(c) + h * SlotSize(c, Log(b.pages[i].size)) else 0
  }

  function Room(c: Config, b: Block, l: Place): int
    requires ConfigOk(c)
  {
    match l
    case AllOfIt => b.size
    case PageAt(_) => PageSize(c)
    case ChunkAt(i, _) =>
      if b.Cluster? && i < |b.pages| && b.pages[i].size > 0 then SlotSize(c, Log(b.pages[i].size)) else 0
  }

  predicate Disjoint(a: int, n: int, b: int, m: int) { a + n <= b || b + m <= a }

  lemma PlaceInPage(c: Config, b: Block, l: Place, i: nat)
    requires ConfigOk(c) && BusyPlace(c, b, l) && !l.AllOfIt? && l.number == i
    ensures i * PageSize(c) <= Offset(c, b, l) && Offset(c, b, l) + Room(c, b, l) <= (i + 1) * PageSize(c)
    ensures Room(c, b, l) > 0
  {
    hide Pow2;
    assert (i + 1) * PageSize(c) == i * PageSize(c) + PageSize(c);
    if l.ChunkAt? {
      var k := Log(b.pages[i].size);
      ChunksFill(c, k);
      MulOrder(0, l.chunk, SlotSize(c, k));
      MulStep(l.chunk, Total(c, k), SlotSize(c, k));
    }
  }

  // Allocations of a block lie in it and do not overlap.
  lemma PlaceInBlock(c: Config, b: Block, l: Place)
    requires ConfigOk(c) && BusyPlace(c, b, l) && (b.Cluster? ==> b.size == ClusterSize(c) && |b.pages| == c.pages)
    ensures 0 <= Offset(c, b, l) && Offset(c, b, l) + Room(c, b, l) <= b.size && Room(c, b, l) > 0
  {
    hide Pow2;
    if !l.AllOfIt? {
      PlaceInPage(c, b, l, l.number);
      MulOrder(l.number + 1, c.pages, PageSize(c));
      MulOrder(0, l.number, PageSize(c));
    }
  }

  lemma PlacesApart(c: Config, b: Block, l: Place, m: Place)
    requires ConfigOk(c) && BusyPlace(c, b, l) && BusyPlace(c, b, m) && l != m
    ensures Disjoint(Offset(c, b, l), Room(c, b, l), Offset(c, b, m), Room(c, b, m))
  {
    hide Pow2;
    PlaceInPage(c, b, l, l.number);
    PlaceInPage(c, b, m, m.number);
    if l.number < m.number {
      MulOrder(l.number + 1, m.number, PageSize(c));
    } else if m.number < l.number {
      MulOrder(m.number + 1, l.number, PageSize(c));
    } else {
      var s := SlotSize(c, Log(b.pages[l.number].size));
      var lo, hi := if l.chunk < m.chunk then l.chunk else m.chunk, if l.chunk < m.chunk then m.chunk else l.chunk;
      ChunksFill(c, Log(b.pages[l.number].size));
      MulStep(lo, hi, s);
    }
  }

  // ----- the whole pool -----

  ghost predicate BlockOk(c: Config, a: Address, b: Block)
    requires ConfigOk(c)
  {
    && a > 0
    && (b.Cluster? ==>
          && b.size == ClusterSize(c) && |b.pages| == c.pages && a % Pow2(c.alignShift) == 0
          && forall i | 0 <= i < |b.pages| :: PageOk(c, b.pages[i]))
  }

  // Blocks do not overlap.
  ghost predicate BlocksOk(c: Config, blocks: Blocks)
    requires ConfigOk(c)
  {
    && (forall a | a in blocks :: BlockOk(c, a, blocks[a]))
    && (forall a, b | a in blocks && b in blocks && a != b :: Disjoint(a, blocks[a].size, b, blocks[b].size))
  }

  // A live allocation: its block, its place there, and the size asked for.
  datatype Live = Live(block: Address, place: Place, size: nat)

  // Every live allocation is at a busy place, and every busy place is live.
  ghost predicate LiveOk(c: Config, blocks: Blocks, live: map<Address, Live>)
    requires ConfigOk(c)
  {
    && (forall p | p in live ::
          var v := live[p];
          && v.block in blocks && BusyPlace(c, blocks[v.block], v.place)
          && p == v.block + Offset(c, blocks[v.block], v.place) && v.size <= Room(c, blocks[v.block], v.place))
    && (forall a, l | a in blocks && BusyPlace(c, blocks[a], l) ::
          var p := a + Offset(c, blocks[a], l);
          p in live && live[p].block == a && live[p].place == l)
  }

  // The same for one live address, and for one busy place.
  ghost predicate LiveAt(c: Config, blocks: Blocks, live: map<Address, Live>, p: Address)
    requires ConfigOk(c)
  {
    && p in live
    && (var v := live[p];
        && v.block in blocks && BusyPlace(c, blocks[v.block], v.place)
        && p == v.block + Offset(c, blocks[v.block], v.place) && v.size <= Room(c, blocks[v.block], v.place))
  }

  ghost predicate PlaceLive(c: Config, blocks: Blocks, live: map<Address, Live>, a: Address, l: Place)
    requires ConfigOk(c)
  {
    && a in blocks && BusyPlace(c, blocks[a], l)
    && (var p := a + Offset(c, blocks[a], l); p in live && live[p].block == a && live[p].place == l)
  }

  lemma LiveThere(c: Config, blocks: Blocks, live: map<Address, Live>, p: Address)
    requires ConfigOk(c) && LiveOk(c, blocks, live) && p in live
    ensures LiveAt(c, blocks, live, p)
  {
    hide BusyPlace, Offset, Room, Pow2;
  }

  lemma BusyThere(c: Config, blocks: Blocks, live: map<Address, Live>, a: Address, l: Place)
    requires ConfigOk(c) && LiveOk(c, blocks, live) && a in blocks && BusyPlace(c, blocks[a], l)
    ensures PlaceLive(c, blocks, live, a, l)
  {
    hide BusyPlace, Offset, Room, Pow2;
  }

  lemma AllThere(c: Config, blocks: Blocks, live: map<Address, Live>)
    requires ConfigOk(c) && forall p | p in live :: LiveAt(c, blocks, live, p)
    requires forall a, l | a in blocks && BusyPlace(c, blocks[a], l) :: PlaceLive(c, blocks, live, a, l)
    ensures LiveOk(c, blocks, live)
  {
    hide BusyPlace, Offset, Room, Pow2;
    assert forall p | p in live :: LiveAt(c, blocks, live, p);
  }

  // Live allocations are inside their blocks and do not overlap.
  lemma LiveDisjoint(c: Config, blocks: Blocks, live: map<Address, Live>, p: Address, q: Address)
    requires ConfigOk(c) && BlocksOk(c, blocks) && LiveOk(c, blocks, live) && p in live && q in live && p != q
    ensures var v, w := live[p], live[q];
            && v.block <= p && p + v.size <= p + Room(c, blocks[v.block], v.place) <= v.block + blocks[v.block].size
            && Disjoint(p, Room(c, blocks[v.block], v.place), q, Room(c, blocks[w.block], w.place))
  {
    hide Pow2;
    var v, w := live[p], live[q];
    PlaceInBlock(c, blocks[v.block], v.place);
    PlaceInBlock(c, blocks[w.block], w.place);
    if v.block == w.block {
      PlacesApart(c, blocks[v.block], v.place, w.place);
    }
  }

  predicate ValidRef(blocks: Blocks, r: Ref) {
    r.cluster in blocks && blocks[r.cluster].Cluster? && r.number < |blocks[r.cluster].pages|
  }

  function PageOf(blocks: Blocks, r: Ref): Page
    requires ValidRef(blocks, r)
  {
    blocks[r.cluster].pages[r.number]
  }

  predicate NoDuplicates(s: seq<Ref>) { forall i, j | 0 <= i < j < |s| :: s[i] != s[j] }

  // The free list holds the free pages, and the list of a slot the pages partly
  // used for its chunks; a page about to be used is on no list.
  ghost predicate ListsOk(c: Config, blocks: Blocks, free: seq<Ref>, lists: seq<seq<Ref>>, pending: set<Ref>)
    requires ConfigOk(c)
  {
    && |lists| == Slots(c) && NoDuplicates(free)
    && (forall r :: r in free <==> r !in pending && ValidRef(blocks, r) && PageOf(blocks, r).size == 0)
    && (forall k | 0 <= k < |lists| :: NoDuplicates(lists[k]))
    && (forall k, r | 0 <= k < |lists| ::
          r in lists[k] <==> ValidRef(blocks, r) && PageOf(blocks, r).size == Pow2(k) && PageOf(blocks, r).chunks > 0)
  }

  // Every cluster has a page in use.
  ghost predicate ClustersUsed(blocks: Blocks, pending: set<Ref>) {
    forall a | a in blocks && blocks[a].Cluster? ::
      exists i :: 0 <= i < |blocks[a].pages| && (blocks[a].pages[i].size != 0 || Ref(a, i) in pending)
  }

  ghost predicate PoolOk(c: Config, blocks: Blocks, free: seq<Ref>, lists: seq<seq<Ref>>, live: map<Address, Live>,
                         pending: set<Ref>)
  {
    && ConfigOk(c) && BlocksOk(c, blocks) && LiveOk(c, blocks, live)
    && ListsOk(c, blocks, free, lists, pending) && ClustersUsed(blocks, pending)
    && forall r | r in pending :: ValidRef(blocks, r) && PageOf(blocks, r).size == 0
  }
}
