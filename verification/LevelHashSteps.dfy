// What the operations on the hash read and write, one small step at a time.
module LevelHashSteps {
  import opened Wrappers
  import opened Arithmetic
  import opened Sets
  import opened LevelHashTree
  import opened LevelHashChains
  import opened LevelHashLevels
  import opened LevelHashQueries
  import opened LevelHashSpread

  // What hangs from a slot is replaced, and both are as they should be.
  ghost predicate Changed(p: Proto, m0: Memory, t0: Tree, m1: Memory, t1: Tree, w: Word, d: nat)
    requires ProtoOk(p)
  {
    Replaced(m0, t0, m1, t1) && TreeOk(p, t1, d) && w == WordOf(t1) && Positive(m1)
  }

  // Some multiple of size is not the address of a block.
  lemma FreshAddress(mem: Memory, size: nat)
    requires size > 0
    ensures exists a: Address :: a > 0 && a % size == 0 && a !in mem
  {
    var top := Top(mem.Keys);
    var q := if top > 0 then top + 1 else 1;
    MulOrder(1, size, q);
    DivModOf(q * size, q, size, 0);
    assert q * size !in mem;
  }

  // Bucket j in memory, and the word that leads to it.
  lemma LinkAt(p: Proto, mem: Memory, t: Tree, d: nat, j: nat)
    requires ProtoOk(p) && t.Chain? && TreeOk(p, t, d) && Held(mem, t) && j < |t.buckets| && Positive(mem)
    ensures var b, link := t.buckets[j], LinkAddr(t.buckets, j);
            && b.addr in mem && mem[b.addr] == BucketBlock(b.cells, ChainWord(t.buckets, j + 1))
            && (j == 0 <==> link == 0) && link != b.addr
            && (j > 0 ==> link in mem && mem[link] == BucketBlock(t.buckets[j - 1].cells, BucketWord(b)))
            && (j == 0 ==> WordOf(t) == BucketWord(b))
  {
  }

  lemma LastEntryRemoved(p: Proto, m0: Memory, t: Tree, d: nat, j: nat, at: nat, hash: nat, key: string, m1: Memory)
    returns (t1: Tree)
    requires ProtoOk(p) && t.Chain? && TreeOk(p, t, d) && Held(m0, t) && Positive(m0)
    requires j < |t.buckets| && t.buckets[j].count == 1
    requires var cells := t.buckets[j].cells;
             at < |cells| && Taken(cells[at]) && Matches(p, CellItem(cells[at]), hash, key)
    requires m1 == Linked(m0, LinkAddr(t.buckets, j), ChainWord(t.buckets, j + 1)) - {t.buckets[j].addr}
    ensures Changed(p, m0, t, m1, t1, if j == 0 then ChainWord(t.buckets, 1) else WordOf(t), d)
    ensures Deleted(p, Items(t), Items(t1), hash, key, OK, t.buckets[j].cells[at].value)
  {
    hide TreeOk, Items, Replaced, Deleted, Matches;
    EntryDeleted(p, t, d, j, at, hash, key);
    t1 := WithoutBucket(t.buckets, j);
    ChainRemoved(m0, t.buckets, j, m1);
  }

  lemma EntryCleared(p: Proto, m0: Memory, t: Tree, d: nat, j: nat, at: nat, hash: nat, key: string, m1: Memory)
    returns (t1: Tree)
    requires ProtoOk(p) && t.Chain? && TreeOk(p, t, d) && Held(m0, t) && Positive(m0)
    requires j < |t.buckets| && t.buckets[j].count != 1
    requires var cells := t.buckets[j].cells;
             at < |cells| && Taken(cells[at]) && Matches(p, CellItem(cells[at]), hash, key)
    requires var b := t.buckets[j];
             m1 == Linked(m0, LinkAddr(t.buckets, j), BucketWord(b) - 2)
                   [b.addr := BucketBlock(b.cells[at := Entry(0, hash)], ChainWord(t.buckets, j + 1))]
    ensures Changed(p, m0, t, m1, t1, if j == 0 then WordOf(t) - 2 else WordOf(t), d)
    ensures Deleted(p, Items(t), Items(t1), hash, key, OK, t.buckets[j].cells[at].value)
  {
    hide TreeOk, Held, Items, Replaced, Deleted, Matches;
    var b := t.buckets[j];
    EntryDeleted(p, t, d, j, at, hash, key);
    var b1 := Bucket(b.addr, b.cells[at := Entry(0, hash)], b.count - 1);
    t1 := Chain(t.buckets[j := b1]);
    LinkAt(p, m0, t, d, j);
    assert m1 == Linked(m0[b.addr := BucketBlock(b1.cells, ChainWord(t.buckets, j + 1))], LinkAddr(t.buckets, j),
                        BucketWord(b1));
    HeldChain(m0, t);
    ChainWritten(m0, t.buckets, j, b1, m1);
  }

  lemma HeldChain(mem: Memory, t: Tree)
    requires t.Chain? && Held(mem, t)
    ensures ChainHeld(mem, t.buckets)
  {
  }

  // The bucket to be converted is still there.
  lemma BucketStays(m0: Memory, t0: Tree, m1: Memory, t1: Tree)
    requires t0.Chain? && |t0.buckets| >= 1 && Held(m0, t0) && Replaced(m0, Nil, m1, t1)
    ensures t0.buckets[0].addr in m1 && m1[t0.buckets[0].addr] == m0[t0.buckets[0].addr]
    ensures m0[t0.buckets[0].addr].BucketBlock? && m0[t0.buckets[0].addr].cells == t0.buckets[0].cells
  {
  }

  lemma FullBucket(p: Proto, t: Tree, d: nat)
    requires ProtoOk(p) && t.Chain? && TreeOk(p, t, d) && p.shift[d] != 0 && t.buckets[0].count == p.entries
    ensures var cells := t.buckets[0].cells;
            |t.buckets| == 1 && |cells| == p.entries && CellsOk(p, cells, p.entries) && Items(t) == BucketItems(cells)
    ensures Addrs(t) == {t.buckets[0].addr}
  {
    assert BucketOk(p, t.buckets[0]);
    OneItems(t.buckets);
  }

  lemma SlotItems(p: Proto, t: Tree, d: nat, i: nat)
    requires ProtoOk(p) && t.Level? && LevelOk(p, t, d) && i < |t.kids|
    ensures forall x | x in Items(t.kids[i]) :: x in Items(t) && Slot(p, d, x.hash) == i
    ensures Items(Nil) == {}
  {
    forall x | x in Items(t.kids[i]) ensures x in Items(t) && Slot(p, d, x.hash) == i {
      LevelItems(p, t, d, i, x);
    }
  }

  lemma SpreadAddr(p: Proto, t: Tree, d: nat, n: nat, i: nat)
    requires ProtoOk(p) && t.Level? && LevelOk(p, t, d) && Spread(t, n) && i < |t.kids|
    ensures var w := WordOf(t.kids[i]);
            Addrs(t.kids[i]) == if w == 0 then {} else {BucketAddr(p, w)}
  {
    var kid := t.kids[i];
    assert Compact(kid, n);
    WordKind(p, kid, d + 1);
    if kid.Chain? {
      OneItems(kid.buckets);
      TakenAtMost(p, kid.buckets[0]);
      BucketRead(p, kid.buckets[0]);
    }
  }

  lemma KidAddrsAll(t: Tree)
    requires t.Level?
    ensures Addrs(t) == {t.addr} + KidAddrsFrom(t.kids, 0) && KidAddrsFrom(t.kids, |t.kids|) == {}
  {
  }

  lemma SameMemory(m0: Memory, m1: Memory, t: Tree, m2: Memory)
    requires Replaced(m0, Nil, m1, t) && m2.Keys == m0.Keys && forall a | a in m2 :: a in m1 && m2[a] == m1[a]
    ensures m2 == m0
  {
    forall a | a in m0 ensures m2[a] == m0[a] {
      assert a in m2;
    }
  }

  lemma LevelIsTree(p: Proto, t: Tree, d: nat)
    requires ProtoOk(p) && t.Level? && LevelOk(p, t, d)
    ensures d < 7 && (t.count >= 1 ==> TreeOk(p, t, d))
  {
  }

  lemma NoneFound(p: Proto, hash: nat, key: string)
    ensures Found(p, Items(Nil), hash, key, None)
  {
  }

  // At the root the whole hash is left, and a level is level 0.
  lemma SlotStart(p: Proto, hash: nat)
    requires ProtoOk(p)
    ensures hash == hash / Pow2(ShiftSum(p, 0))
  {
  }

  lemma OneItems(buckets: seq<Bucket>)
    requires |buckets| == 1
    ensures Items(Chain(buckets)) == BucketItems(buckets[0].cells)
    ensures Addrs(Chain(buckets)) == {buckets[0].addr}
  {
  }

  // A vacant place: the bucket, the entry, and where the word that leads to the
  // bucket is kept.
  datatype Place = Place(bucket: Address, entry: nat, link: Address)

  ghost predicate PlaceOk(buckets: seq<Bucket>, j: nat, v: Place) {
    && j < |buckets| && v.bucket == buckets[j].addr && v.link == LinkAddr(buckets, j)
    && v.entry < |buckets[j].cells| && !Taken(buckets[j].cells[v.entry])
    && forall k | 0 <= k < v.entry :: buckets[j].cells[k].Entry?
  }

  lemma LinkSame(m0: Memory, buckets: seq<Bucket>, j: nat, cells: seq<Cell>, m1: Memory)
    requires Positive(m0) && ChainHeld(m0, buckets) && j < |buckets|
    requires m1 == m0[buckets[j].addr := BucketBlock(cells, ChainWord(buckets, j + 1))]
    ensures Linked(m1, LinkAddr(buckets, j), BucketWord(buckets[j])) == m1
  {
    if j > 0 {
      assert buckets[j - 1].addr != buckets[j].addr;
      assert m0[buckets[j - 1].addr] == BucketBlock(buckets[j - 1].cells, ChainWord(buckets, j));
    }
  }

  lemma ValueWritten(p: Proto, m0: Memory, t: Tree, d: nat, j: nat, i: nat, q: Query, m1: Memory) returns (t1: Tree)
    requires ProtoOk(p) && QueryOk(p, q) && t.Chain? && TreeOk(p, t, d) && Held(m0, t) && Positive(m0)
    requires j < |t.buckets|
    requires var cells := t.buckets[j].cells;
             i < |cells| && Taken(cells[i]) && Matches(p, CellItem(cells[i]), q.hash, q.key)
    requires var b := t.buckets[j];
             m1 == m0[b.addr := BucketBlock(b.cells[i := Entry(q.value, q.hash)], ChainWord(t.buckets, j + 1))]
    ensures Changed(p, m0, t, m1, t1, WordOf(t), d) && t1.Chain?
    ensures q.replace ==> Inserted(p, Items(t), Items(t1), q, OK, t.buckets[j].cells[i].value)
  {
    hide TreeOk, Items, Replaced, ChainHeld;
    var b := t.buckets[j];
    var b1 := b.(cells := b.cells[i := Entry(q.value, q.hash)]);
    t1 := Chain(t.buckets[j := b1]);
    ValueReplaced(p, t, d, j, i, q);
    LinkSame(m0, t.buckets, j, b1.cells, m1);
    ChainWritten(m0, t.buckets, j, b1, m1);
  }

  lemma EntryWritten(p: Proto, m0: Memory, t: Tree, d: nat, j: nat, v: Place, q: Query, m1: Memory) returns (t1: Tree)
    requires ProtoOk(p) && QueryOk(p, q) && t.Chain? && TreeOk(p, t, d) && Held(m0, t) && Positive(m0)
    requires PlaceOk(t.buckets, j, v) && Absent(p, Items(t), q.hash, q.key)
    requires var b := t.buckets[j];
             var m := m0[b.addr := BucketBlock(b.cells[v.entry := Entry(q.value, q.hash)],
                                               ChainWord(t.buckets, j + 1))];
             m1 == Linked(m, v.link, BucketWord(b) + 2)
    ensures Replaced(m0, t, m1, t1) && TreeOk(p, t1, d) && Positive(m1) && t1.Chain?
    ensures WordOf(t1) == if j == 0 then WordOf(t) + 2 else WordOf(t)
    ensures Items(t1) == Items(t) + {Item(q.hash, q.value)}
  {
    hide TreeOk, Items, Replaced, ChainHeld;
    var b := t.buckets[j];
    var b1 := Bucket(b.addr, b.cells[v.entry := Entry(q.value, q.hash)], b.count + 1);
    t1 := Chain(t.buckets[j := b1]);
    EntryAdded(p, t, d, j, v.entry, q);
    ChainWritten(m0, t.buckets, j, b1, m1);
  }

  // A new bucket in an empty slot.
  lemma OneBucket(p: Proto, m0: Memory, b: Bucket, m1: Memory, d: nat)
    requires ProtoOk(p) && BucketOk(p, b) && b.addr !in m0 && m1 == m0[b.addr := BucketBlock(b.cells, 0)] && d <= 7
    ensures Replaced(m0, Nil, m1, Chain([b])) && TreeOk(p, Chain([b]), d)
    ensures Items(Chain([b])) == BucketItems(b.cells) && WordOf(Chain([b])) == BucketWord(b)
  {
    assert [b][0] == b;
    assert Addrs(Chain([b])) == {b.addr};
  }

  lemma LevelKept(p: Proto, m0: Memory, t: Tree, d: nat, i: nat, m1: Memory, kid: Tree)
    requires ProtoOk(p) && t.Level? && i < |t.kids| && Held(m0, t) && Replaced(m0, t.kids[i], m1, kid)
    ensures t.addr in m1 && m1[t.addr] == LevelBlock(Words(t.kids))
  {
    HeldKeys(m0, t);
  }

  // What hangs from slot i, and then the slot, has been replaced.
  lemma LevelPut(p: Proto, m0: Memory, t: Tree, d: nat, i: nat, m1: Memory, kid: Tree, m2: Memory) returns (t1: Tree)
    requires ProtoOk(p) && t.Level? && LevelOk(p, t, d) && i < |t.kids| && Held(m0, t)
    requires Replaced(m0, t.kids[i], m1, kid) && TreeOk(p, kid, d + 1) && Positive(m1)
    requires forall x | x in Items(kid) :: Slot(p, d, x.hash) == i
    requires m2 == m1[t.addr := LevelBlock(Words(t.kids)[i := WordOf(kid)])]
    ensures Replaced(m0, t, m2, t1) && Positive(m2) && t1.Level? && t1.addr == t.addr && LevelOk(p, t1, d)
    ensures t1.kids == t.kids[i := kid] && Items(t1) == Items(t) - Items(t.kids[i]) + Items(kid)
    ensures t1.count == t.count + (if kid.Nil? then 0 else 1) - (if t.kids[i].Nil? then 0 else 1)
    ensures t1.count >= 1 ==> TreeOk(p, t1, d)
    ensures !kid.Nil? ==> t1.count >= 1
  {
    t1 := Level(t.addr, UsedSlots(t.kids[i := kid], |t.kids|), t.kids[i := kid]);
    LevelChanges(p, t, d, i, kid);
    NoneUsed(t1.kids, |t1.kids|);
    assert t1.kids[i] == kid;
    KidReplaced(m0, t, m1, kid, i, m2, t1.count);
  }

  // The map the items stand for.
  ghost predicate Stores(p: Proto, items: set<Item>, m: map<(nat, string), nat>) {
    && (forall x | x in items :: (x.hash, p.keyOf(x.value)) in m && m[(x.hash, p.keyOf(x.value))] == x.value)
    && (forall k | k in m :: Item(k.0, m[k]) in items && p.keyOf(m[k]) == k.1)
  }

  lemma UsedAtMost(t: Tree)
    requires t.Level? && t.count == UsedSlots(t.kids, |t.kids|)
    ensures t.count <= |t.kids|
  {
  }

  lemma TakenAtMost(p: Proto, b: Bucket)
    requires ProtoOk(p) && BucketOk(p, b)
    ensures 1 <= b.count <= p.entries
  {
  }

  lemma ChainEnds(p: Proto, t: Tree, d: nat, j: nat)
    requires ProtoOk(p) && t.Chain? && TreeOk(p, t, d)
    ensures |t.buckets| >= 1 && (ChainWord(t.buckets, j) == 0 <==> j >= |t.buckets|)
  {
    if j < |t.buckets| {
      assert BucketOk(p, t.buckets[j]);
    }
  }

  lemma ChainAbsent(p: Proto, buckets: seq<Bucket>, hash: nat, key: string)
    requires forall i | 0 <= i < |buckets| :: Absent(p, BucketItems(buckets[i].cells), hash, key)
    ensures Absent(p, Items(Chain(buckets)), hash, key)
  {
  }

  // What a word leads to in a chain.
  lemma BucketAt(p: Proto, mem: Memory, t: Tree, d: nat, j: nat)
    requires ProtoOk(p) && t.Chain? && TreeOk(p, t, d) && Held(mem, t) && ChainWord(t.buckets, j) != 0
    ensures j < |t.buckets|
    ensures var b, w := t.buckets[j], ChainWord(t.buckets, j);
            && BucketAddr(p, w) == b.addr && BucketEntries(p, w) == b.count >= 1 && CellsOk(p, b.cells, b.count)
            && b.addr in mem && mem[b.addr] == BucketBlock(b.cells, ChainWord(t.buckets, j + 1))
  {
    TakenAtMost(p, t.buckets[j]);
    BucketRead(p, t.buckets[j]);
  }

  lemma LevelSlotRead(p: Proto, mem: Memory, t: Tree, d: nat, w: Word, hash: nat)
    requires ProtoOk(p) && t.Level? && LevelOk(p, t, d) && Held(mem, t) && w == WordOf(t)
    ensures d < 7 && LevelAddr(w, p.shift[d]) == t.addr && t.addr in mem && mem[t.addr] == LevelBlock(Words(t.kids))
    ensures var i := Slot(p, d, hash);
            && 0 <= i < |t.kids| && Held(mem, t.kids[i]) && TreeOk(p, t.kids[i], d + 1)
            && (WordOf(t.kids[i]) == 0 <==> t.kids[i].Nil?)
  {
    hide LevelAddr, LevelEntries, Slot, Items, Pow2;
    UsedAtMost(t);
    LevelWord(t.addr, t.count, p.shift[d]);
    QueryInSlot(p, t, d, hash, "");
    WordKind(p, t.kids[Slot(p, d, hash)], d + 1);
  }

  // What a level's word leads to.
  lemma LevelRead(p: Proto, mem: Memory, t: Tree, d: nat, w: Word, hash: nat)
    requires ProtoOk(p) && t.Level? && TreeOk(p, t, d) && Held(mem, t) && w == WordOf(t)
    ensures d < 7 && LevelOk(p, t, d) && t.count >= 1
    ensures LevelAddr(w, p.shift[d]) == t.addr && t.addr in mem && mem[t.addr] == LevelBlock(Words(t.kids))
    ensures var i := Slot(p, d, hash);
            && 0 <= i < |t.kids| && Held(mem, t.kids[i]) && TreeOk(p, t.kids[i], d + 1)
            && (t.kids[i].Level? ==> d + 1 < 7)
            && (WordOf(t.kids[i]) == 0 <==> t.kids[i].Nil?)
            && (WordOf(t.kids[i]) != 0 ==> (IsBucket(WordOf(t.kids[i])) <==> t.kids[i].Chain?))
  {
    hide Held, LevelAddr;
    LevelSlotRead(p, mem, t, d, w, hash);
    WordKind(p, t.kids[Slot(p, d, hash)], d + 1);
  }

  // The tag of a word tells what it leads to.
  lemma WordKind(p: Proto, t: Tree, d: nat)
    requires ProtoOk(p) && TreeOk(p, t, d)
    ensures WordOf(t) == 0 <==> t.Nil?
    ensures WordOf(t) != 0 ==> (IsBucket(WordOf(t)) <==> t.Chain?)
  {
    match t
    case Nil =>
    case Chain(buckets) =>
      assert BucketOk(p, buckets[0]);
      TakenAtMost(p, buckets[0]);
      BucketRead(p, buckets[0]);
    case Level(addr, count, kids) =>
      UsedAtMost(t);
      LevelWord(addr, count, p.shift[d]);
  }

  lemma StoresInserted(p: Proto, items0: set<Item>, items1: set<Item>, q: Query, status: Status, out: nat,
                       m: map<(nat, string), nat>)
    requires Stores(p, items0, m) && QueryOk(p, q) && Inserted(p, items0, items1, q, status, out)
    ensures var k := (q.hash, q.key);
            match status
            case OK =>
              && Stores(p, items1, m[k := q.value])
              && (if k in m then q.replace && out == m[k] else out == q.value)
            case DECLINED => k in m && !q.replace && out == m[k] && Stores(p, items1, m)
            case ERROR => k !in m && Stores(p, items1, m)
  {
    var k := (q.hash, q.key);
    if k in m {
      assert Item(k.0, m[k]) in items0 && Matches(p, Item(k.0, m[k]), q.hash, q.key);
    }
  }

  lemma StoresDeleted(p: Proto, items0: set<Item>, items1: set<Item>, hash: nat, key: string, status: Status, out: nat,
                      m: map<(nat, string), nat>)
    requires Stores(p, items0, m) && Deleted(p, items0, items1, hash, key, status, out)
    ensures status == (if (hash, key) in m then OK else DECLINED)
    ensures status == OK ==> out == m[(hash, key)]
    ensures Stores(p, items1, m - {(hash, key)})
  {
    var k := (hash, key);
    if k in m {
      assert Item(hash, m[k]) in items0 && Matches(p, Item(hash, m[k]), hash, key);
    }
  }

  lemma SlotItemsNil()
    ensures Items(Nil) == {} && Addrs(Nil) == {}
  {
  }

  // A level's count, read from its word after a slot was emptied.
  lemma LevelCount(p: Proto, t: Tree, d: nat)
    requires ProtoOk(p) && t.Level? && LevelOk(p, t, d)
    ensures t.count < Pow2(p.shift[d]) ==> LevelEntries(WordOf(t), p.shift[d]) == t.count
    ensures (exists i :: 0 <= i < |t.kids| && t.kids[i].Nil?) ==> t.count < Pow2(p.shift[d])
  {
    LevelWord(t.addr, t.count, p.shift[d]);
    SomeUnused(t.kids, |t.kids|);
  }

  lemma {:induction false} SomeUnused(kids: seq<Tree>, n: nat)
    requires n <= |kids|
    ensures (exists i :: 0 <= i < n && kids[i].Nil?) ==> UsedSlots(kids, n) < n
  {
    if n > 0 {
      SomeUnused(kids, n - 1);
    }
  }

  // An empty level is freed.
  lemma EmptyLevelGone(p: Proto, m0: Memory, t: Tree, d: nat, m1: Memory)
    requires ProtoOk(p) && t.Level? && LevelOk(p, t, d) && t.count == 0 && Held(m0, t) && m1 == m0 - {t.addr}
    ensures Replaced(m0, t, m1, Nil) && Items(t) == Items(Nil) && (Positive(m0) ==> Positive(m1))
  {
    NoneUsed(t.kids, |t.kids|);
    assert forall i | 0 <= i < |t.kids| :: t.kids[i] == Nil && Addrs(t.kids[i]) == {};
    assert Addrs(t) == {t.addr};
  }
}
