// A full bucket spread over a new level: every slot holds nothing or one bucket
// whose entries fill it from the start.
module LevelHashSpread {
  import opened Wrappers
  import opened Arithmetic
  import opened LevelHashTree
  import opened LevelHashChains
  import opened LevelHashLevels

  ghost predicate Compact(kid: Tree, n: nat) {
    kid.Nil?
    || (kid.Chain? && |kid.buckets| == 1
        && var b := kid.buckets[0];
           b.count <= n && forall k | 0 <= k < |b.cells| :: Taken(b.cells[k]) <==> k < b.count)
  }

  ghost predicate Spread(t: Tree, n: nat) {
    t.Level? && forall i | 0 <= i < |t.kids| :: Compact(t.kids[i], n)
  }

  function EmptyLevel(p: Proto, addr: Address, d: nat): Tree
    requires ProtoOk(p) && d <= 7
  {
    Level(addr, 0, seq(Pow2(p.shift[d]), i => Nil))
  }

  lemma EmptyLevelOk(p: Proto, m0: Memory, addr: Address, d: nat)
    requires ProtoOk(p) && d < 7 && p.shift[d] != 0 && addr !in m0 && addr > 0 && addr % (8 * Pow2(p.shift[d])) == 0
    ensures var t := EmptyLevel(p, addr, d);
            && t.Level? && LevelOk(p, t, d) && Spread(t, 0) && Items(t) == BucketItems([])
            && t.addr == WordOf(t) == addr && |t.kids| == Pow2(p.shift[d])
            && Replaced(m0, Nil, m0[addr := LevelBlock(seq(Pow2(p.shift[d]), i => 0))], t)
  {
    var t := EmptyLevel(p, addr, d);
    NoneUsed(t.kids, |t.kids|);
    var zeros: seq<Word> := seq(Pow2(p.shift[d]), i => 0);
    assert Words(t.kids) == zeros;
    assert forall i | 0 <= i < |t.kids| :: t.kids[i] == Nil && Addrs(t.kids[i]) == {};
    assert Held(m0[addr := LevelBlock(zeros)], t);
    assert Addrs(t) == {addr};
  }

  // One more entry.
  lemma SpreadBucket(p: Proto, kid: Tree, d: nat, n: nat, value: nat, hash: nat)
    requires ProtoOk(p) && TreeOk(p, kid, d) && kid.Chain? && Compact(kid, n) && n < p.entries && value != 0
    requires Apart(p, Items(kid), {Item(hash, value)})
    ensures var b := kid.buckets[0];
            && b.count < |b.cells| && (forall k | 0 <= k <= b.count :: k < b.count ==> b.cells[k].Entry?)
            && var b1 := Bucket(b.addr, b.cells[b.count := Entry(value, hash)], b.count + 1);
               var kid1 := Chain([b1]);
               && TreeOk(p, kid1, d) && Compact(kid1, n + 1) && kid1 == Chain(kid.buckets[0 := b1])
               && Items(kid1) == Items(kid) + {Item(hash, value)}
  {
    var b := kid.buckets[0];
    forall y | y in BucketItems(b.cells) ensures y in Items(kid) {
    }
    CellsAdd(p, b.cells, b.count, b.count, value, hash);
    var b1 := Bucket(b.addr, b.cells[b.count := Entry(value, hash)], b.count + 1);
    ChainChanges(p, kid.buckets, 0, b1);
    assert kid.buckets[0 := b1] == [b1];
  }

  lemma SpreadKid(t: Tree, i: nat, kid: Tree, n: nat, count: nat)
    requires Spread(t, n) && i < |t.kids| && Compact(kid, n + 1)
    ensures Spread(Level(t.addr, count, t.kids[i := kid]), n + 1)
  {
  }

  // The bucket's first n entries.
  lemma FirstItems(p: Proto, cells: seq<Cell>, count: nat, n: nat)
    requires CellsOk(p, cells, count) && count == |cells| && n < |cells|
    ensures Taken(cells[n]) && BucketItems(cells[..n + 1]) == BucketItems(cells[..n]) + {CellItem(cells[n])}
    ensures Apart(p, BucketItems(cells[..n]), {CellItem(cells[n])})
  {
    AllTaken(cells, |cells|);
    var c0, c1 := cells[..n], cells[..n + 1];
    forall x | x in BucketItems(c0) ensures x in BucketItems(c1) {
      var i :| 0 <= i < |c0| && Taken(c0[i]) && CellItem(c0[i]) == x;
      assert CellItem(c1[i]) == x;
    }
    assert CellItem(c1[n]) in BucketItems(c1);
    forall x | x in BucketItems(c1) && x != CellItem(cells[n]) ensures x in BucketItems(c0) {
      var i :| 0 <= i < |c1| && Taken(c1[i]) && CellItem(c1[i]) == x;
      assert CellItem(c0[i]) == x;
    }
  }

  // The addresses of what hangs from the slots from number i on.
  ghost function KidAddrsFrom(kids: seq<Tree>, i: nat): set<Address> {
    set j, a | i <= j < |kids| && a in Addrs(kids[j]) :: a
  }

  lemma KidAddrsStep(mem: Memory, t: Tree, i: nat)
    requires t.Level? && Held(mem, t) && i < |t.kids|
    ensures KidAddrsFrom(t.kids, i) == Addrs(t.kids[i]) + KidAddrsFrom(t.kids, i + 1)
    ensures Addrs(t.kids[i]) !! KidAddrsFrom(t.kids, i + 1)
  {
    hide Addrs, Held;
    var kids := t.kids;
    KidsApart(mem, t, i);
    forall a | a in KidAddrsFrom(kids, i + 1) ensures a in KidAddrsFrom(kids, i) && a !in Addrs(kids[i]) {
      var j :| i + 1 <= j < |kids| && a in Addrs(kids[j]);
    }
    forall a | a in Addrs(kids[i]) ensures a in KidAddrsFrom(kids, i) {
    }
    forall a | a in KidAddrsFrom(kids, i) ensures a in Addrs(kids[i]) || a in KidAddrsFrom(kids, i + 1) {
      var j :| i <= j < |kids| && a in Addrs(kids[j]);
    }
  }

  lemma KidsApart(mem: Memory, t: Tree, i: nat)
    requires t.Level? && Held(mem, t) && i < |t.kids|
    ensures forall j | i < j < |t.kids| :: Addrs(t.kids[i]) !! Addrs(t.kids[j])
  {
  }

  // The level takes the bucket's place once the bucket is freed.
  lemma BucketGivesWay(m0: Memory, t0: Tree, m1: Memory, t1: Tree, m2: Memory)
    requires Held(m0, t0) && Replaced(m0, Nil, m1, t1) && Addrs(t0) <= m0.Keys
    requires m2 == m1 - Addrs(t0)
    ensures Replaced(m0, t0, m2, t1)
  {
    HeldKeys(m1, t1);
    HeldKeeps(m1, m2, t1);
  }
}
