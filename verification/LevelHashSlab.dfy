// A table of the predefined prototype with ten bits in its first level, in which
// a level is as deep as levels go: its slot numbers do not fit in the position.
module LevelHashSlab {
  import opened Arithmetic
  import opened LevelHashTree
  import opened LevelHashChains
  import opened LevelHashLevels
  import opened LevelHashQueries
  import opened LevelHashSteps
  import opened LevelHashOrder
  import LevelHash
  import LevelHashEach

  const SLAB := Proto(LARGE_SLAB_SHIFT, 10, 128, _ => "key")
  const STORED := Item(0, 2)

  function AddrAt(d: nat): Address { 8192 * (d + 1) }

  function OneEntry(): Bucket { Bucket(AddrAt(7), [Entry(2, 0)] + seq(9, _ => Raw), 1) }

  // Levels with only their first slots in use, from level d on.
  function Tower(d: nat): Tree
    requires d <= 7
    decreases 7 - d
  {
    if d == 7 then Chain([OneEntry()]) else Level(AddrAt(d), 1, [Tower(d + 1)] + seq(Pow2(SLAB.shift[d]) - 1, _ => Nil))
  }

  function Storage(d: nat): Memory
    requires d <= 7
    decreases 7 - d
  {
    if d == 7 then map[AddrAt(7) := BucketBlock(OneEntry().cells, 0)]
    else Storage(d + 1)[AddrAt(d) := LevelBlock(Words(Tower(d).kids))]
  }

  lemma {:induction false} OneUsed(kids: seq<Tree>, n: nat)
    requires 1 <= n <= |kids| && !kids[0].Nil? && forall i | 1 <= i < |kids| :: kids[i].Nil?
    ensures UsedSlots(kids, n) == 1
  {
    if n > 1 {
      OneUsed(kids, n - 1);
    }
  }

  lemma SlabShift(d: nat)
    requires d < 7
    ensures ProtoOk(SLAB) && (SLAB.shift[d] == 4 || SLAB.shift[d] == 10) && SLAB.shift[7] == 0
    ensures Pow2(SLAB.shift[d]) == if SLAB.shift[d] == 4 then 16 else 1024
  {
    Pow2Small();
    Pow2Add(2, 2);
  }

  lemma BucketFine()
    ensures ProtoOk(SLAB) && BucketOk(SLAB, OneEntry()) && BucketItems(OneEntry().cells) == {STORED}
  {
    var cells := OneEntry().cells;
    assert Taken(cells[0]) && CellItem(cells[0]) == STORED;
    assert forall i | 1 <= i < 10 :: cells[i] == Raw;
    Counted(cells, 10);
  }

  lemma {:induction false} Counted(cells: seq<Cell>, n: nat)
    requires 1 <= n <= |cells| && Taken(cells[0]) && forall i | 1 <= i < |cells| :: cells[i] == Raw
    ensures TakenCount(cells, n) == 1
  {
    if n > 1 {
      Counted(cells, n - 1);
    }
  }

  // The kids of a level of the tower.
  lemma TowerKids(d: nat)
    requires d < 7
    ensures var t := Tower(d);
            && t.Level? && t.addr == AddrAt(d) && t.count == 1 && |t.kids| == Pow2(SLAB.shift[d])
            && t.kids[0] == Tower(d + 1) && forall i | 1 <= i < |t.kids| :: t.kids[i] == Nil
  {
    hide Pow2;
  }

  lemma SlotZero(d: nat)
    requires d <= 7 && ProtoOk(SLAB)
    ensures Slot(SLAB, d, 0) == 0
  {
    hide Pow2;
    DivModOf(0, 0, Pow2(ShiftSum(SLAB, d)), 0);
    DivModOf(0, 0, Pow2(SLAB.shift[d]), 0);
  }

  lemma {:induction false} TowerFine(d: nat)
    requires d <= 7
    ensures ProtoOk(SLAB) && TreeOk(SLAB, Tower(d), d) && Items(Tower(d)) == {STORED} && !Tower(d).Nil?
    decreases 7 - d
  {
    if d < 7 {
      TowerFine(d + 1);
      SlabShift(d);
      SlotZero(d);
      TowerKids(d);
      hide Pow2, Tower, ShiftSum, Slot;
      LevelFine(Tower(d), Tower(d + 1), d);
    } else {
      BucketFine();
      ChainFine([OneEntry()]);
    }
  }

  lemma ChainFine(buckets: seq<Bucket>)
    requires ProtoOk(SLAB) && buckets == [OneEntry()] && BucketOk(SLAB, OneEntry())
    requires BucketItems(OneEntry().cells) == {STORED}
    ensures TreeOk(SLAB, Chain(buckets), 7) && Items(Chain(buckets)) == {STORED}
  {
    hide OneEntry, BucketOk, BucketItems;
    assert buckets[0] == OneEntry();
  }

  lemma LevelFine(t: Tree, kid: Tree, d: nat)
    requires ProtoOk(SLAB) && d < 7 && t.Level? && t.addr == AddrAt(d) && t.count == 1
             && |t.kids| == Pow2(SLAB.shift[d])
    requires Pow2(SLAB.shift[d]) == (if SLAB.shift[d] == 4 then 16 else 1024)
             && (SLAB.shift[d] == 4 || SLAB.shift[d] == 10)
    requires t.kids[0] == kid && (forall i | 1 <= i < |t.kids| :: t.kids[i] == Nil) && !kid.Nil?
    requires TreeOk(SLAB, kid, d + 1) && Items(kid) == {STORED} && Slot(SLAB, d, 0) == 0
    ensures TreeOk(SLAB, t, d) && Items(t) == {STORED}
  {
    hide Pow2, Slot, ShiftSum;
    OneUsed(t.kids, |t.kids|);
    assert STORED in Items(t.kids[0]);
    assert forall i, x | 0 <= i < |t.kids| && x in Items(t.kids[i]) :: i == 0 && x == STORED;
    forall i | 0 <= i < |t.kids| ensures TreeOk(SLAB, t.kids[i], d + 1) {
    }
    assert t.addr % (8 * Pow2(SLAB.shift[d])) == 0;
    assert LevelOk(SLAB, t, d);
  }

  lemma {:induction false} TowerHeld(d: nat)
    requires d <= 7
    ensures Held(Storage(d), Tower(d)) && Storage(d).Keys == Addrs(Tower(d))
    ensures forall a | a in Addrs(Tower(d)) :: a >= AddrAt(d)
    decreases 7 - d
  {
    if d < 7 {
      TowerHeld(d + 1);
      TowerKids(d);
      var t, m, n := Tower(d), Storage(d), Storage(d + 1);
      assert m == n[AddrAt(d) := LevelBlock(Words(t.kids))];
      hide Tower, Storage;
      LevelHeld(t, Tower(d + 1), d, n, m);
    } else {
      LastHeld([OneEntry()]);
    }
  }

  lemma LastHeld(buckets: seq<Bucket>)
    requires buckets == [OneEntry()]
    ensures var m := map[AddrAt(7) := BucketBlock(OneEntry().cells, 0)];
            Held(m, Chain(buckets)) && m.Keys == Addrs(Chain(buckets)) && Addrs(Chain(buckets)) == {AddrAt(7)}
  {
    assert buckets[0].addr == AddrAt(7);
  }

  lemma LevelHeld(t: Tree, kid: Tree, d: nat, n: Memory, m: Memory)
    requires t.Level? && t.addr == AddrAt(d) && |t.kids| > 0
    requires t.kids[0] == kid && forall i | 1 <= i < |t.kids| :: t.kids[i] == Nil
    requires Held(n, kid) && n.Keys == Addrs(kid) && forall a | a in Addrs(kid) :: a >= AddrAt(d + 1)
    requires m == n[AddrAt(d) := LevelBlock(Words(t.kids))]
    ensures Held(m, t) && m.Keys == Addrs(t) && forall a | a in Addrs(t) :: a >= AddrAt(d)
  {
    hide OneEntry, Held, Addrs;
    HeldKeeps(n, m, kid);
    KidAddresses(t, kid);
    Assembled(t, kid, m);
  }

  lemma Assembled(t: Tree, kid: Tree, m: Memory)
    requires t.Level? && |t.kids| > 0 && t.kids[0] == kid && forall i | 1 <= i < |t.kids| :: t.kids[i] == Nil
    requires Held(m, kid) && t.addr in m && m[t.addr] == LevelBlock(Words(t.kids)) && t.addr !in Addrs(kid)
    ensures Held(m, t)
  {
    EmptyKids(t, m);
    hide OneEntry, Addrs;
    forall i | 0 <= i < |t.kids| ensures Held(m, t.kids[i]) && t.addr !in Addrs(t.kids[i]) {
    }
    forall i, j | 0 <= i < j < |t.kids| ensures Addrs(t.kids[i]) !! Addrs(t.kids[j]) {
      assert Addrs(t.kids[j]) == {};
    }
  }

  lemma KidAddresses(t: Tree, kid: Tree)
    requires t.Level? && |t.kids| > 0 && t.kids[0] == kid && forall i | 1 <= i < |t.kids| :: t.kids[i] == Nil
    ensures Addrs(t) == {t.addr} + Addrs(kid)
  {
    forall a ensures a in Addrs(t) <==> a == t.addr || a in Addrs(kid) {
      assert a in Addrs(t.kids[0]) <==> a in Addrs(kid);
    }
  }

  lemma EmptyKids(t: Tree, m: Memory)
    requires t.Level? && forall i | 1 <= i < |t.kids| :: t.kids[i] == Nil
    ensures forall i | 1 <= i < |t.kids| :: Addrs(t.kids[i]) == {} && Held(m, t.kids[i])
  {
  }

  lemma {:induction false} TowerUnfit(d: nat)
    requires d <= 6
    ensures ProtoOk(SLAB) && TreeOk(SLAB, Tower(d), d) && !Fits(SLAB, Tower(d), d)
    decreases 6 - d
  {
    hide Pow2;
    TowerFine(d);
    PredefinedShifts(SLAB);
    AheadAt(SLAB, Tower(d), d, 0);
    if d < 6 {
      TowerUnfit(d + 1);
      assert Tower(d).kids[0] == Tower(d + 1);
    }
  }

  // Such a table is valid, and walking through it never ends.
  method SlabTable() returns (h: LevelHash.Table)
    ensures fresh(h) && h.Valid() && h.p.shift == LARGE_SLAB_SHIFT && Short(h.p) && Small(h.tree)
            && !Fits(h.p, h.tree, 0)
  {
    hide Pow2, Tower, Storage, Fits, Held, TreeOk, Addrs, Items, LevelHash.Table.Valid, Short, Small;
    SlabFine();
    h := new LevelHash.Table(SLAB, []);
    h.slot, h.mem := AddrAt(0) + 2, Storage(0);
    h.tree, h.contents := Tower(0), map[(0, "key") := 2];
    SlabValid(h);
  }

  // However often the next value is asked for, there is one.
  method WalkForever(n: nat) returns (items: seq<Item>)
    ensures |items| == n && forall x | x in items :: x.value != 0
  {
    hide LevelHash.Table.Valid, Short, Small, Fits, Flat, Once;
    var h := SlabTable();
    var ended;
    items, ended := LevelHashEach.Calls(h, n);
  }

  lemma SlabFine()
    ensures ProtoOk(SLAB) && Short(SLAB) && TreeOk(SLAB, Tower(0), 0) && Items(Tower(0)) == {STORED}
    ensures Held(Storage(0), Tower(0)) && Storage(0).Keys == Addrs(Tower(0)) && !Fits(SLAB, Tower(0), 0)
    ensures (forall a | a in Addrs(Tower(0)) :: a >= AddrAt(0)) && Tower(0).Level? && Tower(0).addr == AddrAt(0)
            && Tower(0).count == 1
  {
    hide Pow2, Tower, Storage, Fits, Held, TreeOk, Addrs, Items, Short;
    TowerFine(0);
    TowerHeld(0);
    TowerUnfit(0);
    TowerKids(0);
    SlabShort();
  }

  lemma SlabValid(h: LevelHash.Table)
    requires ProtoOk(SLAB) && h.p == SLAB && h.slot == AddrAt(0) + 2 && h.mem == Storage(0) && h.tree == Tower(0)
    requires h.contents == map[(0, "key") := 2] && TreeOk(SLAB, Tower(0), 0) && Items(Tower(0)) == {STORED}
    requires Held(Storage(0), Tower(0)) && Storage(0).Keys == Addrs(Tower(0))
    requires (forall a | a in Addrs(Tower(0)) :: a >= AddrAt(0)) && Tower(0).Level? && Tower(0).addr == AddrAt(0)
             && Tower(0).count == 1
    ensures h.Valid() && Small(h.tree)
  {
    hide Pow2, Tower, Storage, Held, TreeOk, Addrs, Items;
    assert SLAB.keyOf(2) == "key";
  }

  lemma SlabShort()
    ensures ProtoOk(SLAB) && Short(SLAB)
  {
    PredefinedShifts(SLAB);
    forall d | 0 <= d < 7 ensures ShiftSum(SLAB, d) < WIDTH {
      ShiftOrder(SLAB, d, 6);
    }
  }
}
