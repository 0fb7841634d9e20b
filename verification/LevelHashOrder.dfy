// The order in which a level hash is walked through, and the position of a walk
// kept as the bits of a path.
module LevelHashOrder {
  import opened Arithmetic
  import opened LevelHashTree
  import opened LevelHashChains
  import opened LevelHashLevels

  // ----- the whole order -----

  ghost function CellsFrom(cells: seq<Cell>, i: nat): seq<Item>
    decreases |cells| - i
  {
    if i >= |cells| then [] else
    (if Taken(cells[i]) then [CellItem(cells[i])] else []) + CellsFrom(cells, i + 1)
  }

  ghost function ChainFrom(buckets: seq<Bucket>, j: nat): seq<Item>
    decreases |buckets| - j
  {
    if j >= |buckets| then [] else CellsFrom(buckets[j].cells, 0) + ChainFrom(buckets, j + 1)
  }

  // What hangs from the slots of a level from number i on.
  ghost function KidsFrom(t: Tree, i: nat): seq<Item>
    requires t.Level?
    decreases t, 0, |t.kids| - i
  {
    if i >= |t.kids| then [] else Flat(t.kids[i]) + KidsFrom(t, i + 1)
  }

  ghost function Flat(t: Tree): seq<Item>
    decreases t, 1
  {
    match t
    case Nil => []
    case Chain(buckets) => ChainFrom(buckets, 0)
    case Level(_, _, _) => KidsFrom(t, 0)
  }

  // ----- positions -----

  const WIDTH: nat := 32

  lemma SlotBound(p: Proto, t: Tree, d: nat, c: nat)
    requires ProtoOk(p) && t.Level? && TreeOk(p, t, d)
    ensures d < 7 && 0 <= Slot(p, d, c) < |t.kids| == Pow2(p.shift[d])
    ensures forall i | 0 <= i < |t.kids| :: TreeOk(p, t.kids[i], d + 1)
  {
  }

  // Every level's slot numbers fit in the position.
  ghost predicate Fits(p: Proto, t: Tree, d: nat)
    requires ProtoOk(p) && TreeOk(p, t, d)
    decreases t
  {
    if !t.Level? then true else
    SlotBound(p, t, d, 0);
    ShiftSum(p, d + 1) <= WIDTH && forall i | 0 <= i < |t.kids| :: Fits(p, t.kids[i], d + 1)
  }

  // What is at the end of the path.
  ghost function Leaf(p: Proto, t: Tree, d: nat, c: nat): (r: Tree)
    requires ProtoOk(p) && TreeOk(p, t, d)
    ensures !r.Level?
    decreases t
  {
    if !t.Level? then t else
    SlotBound(p, t, d, c);
    Leaf(p, t.kids[Slot(p, d, c)], d + 1, c)
  }

  // There are no bits beyond the path.
  ghost predicate Clean(p: Proto, t: Tree, d: nat, c: nat)
    requires ProtoOk(p) && TreeOk(p, t, d)
    decreases t
  {
    if !t.Level? then d <= 8 && c < Pow2(ShiftSum(p, d)) else
    SlotBound(p, t, d, c);
    Clean(p, t.kids[Slot(p, d, c)], d + 1, c)
  }

  // What is left of the walk from a position on; done tells whether the chain
  // there has been left already.
  ghost function After(p: Proto, t: Tree, d: nat, c: nat, done: bool): seq<Item>
    requires ProtoOk(p) && TreeOk(p, t, d)
    decreases t
  {
    match t
    case Nil => []
    case Chain(_) => if done then [] else Flat(t)
    case Level(_, _, kids) =>
      SlotBound(p, t, d, c);
      After(p, kids[Slot(p, d, c)], d + 1, c, done) + KidsFrom(t, Slot(p, d, c) + 1)
  }

  // With no bits from level d on, everything below is still to come.
  lemma {:induction false} AfterFresh(p: Proto, t: Tree, d: nat, c: nat)
    requires ProtoOk(p) && TreeOk(p, t, d) && d <= 8 && c < Pow2(ShiftSum(p, d))
    ensures After(p, t, d, c, false) == Flat(t) && Clean(p, t, d, c)
    decreases t
  {
    if t.Level? {
      SlotBound(p, t, d, c);
      var m, s := Pow2(ShiftSum(p, d)), Pow2(p.shift[d]);
      DivModOf(c, 0, m, c);
      DivModOf(0, 0, s, 0);
      assert Slot(p, d, c) == 0;
      Pow2Add(ShiftSum(p, d), p.shift[d]);
      MulOrder(1, s, m);
      AfterFresh(p, t.kids[0], d + 1, c);
    }
  }

  function LowBits(c: nat, s: nat): int { c % Pow2(s) }

  function SlotNumber(c: nat, s: nat, b: nat): int { c / Pow2(s) % Pow2(b) }

  // From one slot of a level to the next: the slot's bits are replaced in a word
  // of 32 bits, and the walk of the level goes on unless they become zero.
  function NextPosition(c: nat, s: nat, b: nat): (r: (int, bool)) {
    var n := SlotNumber(c, s, b);
    var m := (n + 1) % Pow2(b) * Pow2(s);
    (c - n * Pow2(s) + m % Pow2(WIDTH), m != 0)
  }

  lemma NextSlot(c: nat, s: nat, b: nat)
    requires s + b <= WIDTH && c < Pow2(s + b)
    ensures var n, low := SlotNumber(c, s, b), LowBits(c, s);
            && 0 <= n < Pow2(b) && c == n * Pow2(s) + low
            && if n + 1 < Pow2(b) then NextPosition(c, s, b) == (low + (n + 1) * Pow2(s), true)
               else NextPosition(c, s, b) == (low, false)
  {
    hide Pow2;
    var m, k := Pow2(s), Pow2(b);
    var q, low := c / m, c % m;
    assert c == q * m + low;
    Pow2Add(s, b);
    QuotientBound(c, m, k);
    DivModOf(q, 0, k, q);
    if q + 1 < k {
      DivModOf(q + 1, 0, k, q + 1);
      MulOrder(0, q + 1, m);
      MulStep(q + 1, k, m);
      Pow2Order(s + b, WIDTH);
      DivModOf((q + 1) * m, 0, Pow2(WIDTH), (q + 1) * m);
      MulOrder(1, q + 1, m);
    } else {
      DivModOf(q + 1, 1, k, 0);
      DivModOf(0, 0, Pow2(WIDTH), 0);
    }
  }

  // The next slot holds everything below it, and nothing else has changed.
  lemma SlotAdvance(p: Proto, t: Tree, d: nat, c: nat)
    requires ProtoOk(p) && t.Level? && TreeOk(p, t, d)
    requires d < 8 && c < Pow2(ShiftSum(p, d + 1)) && ShiftSum(p, d + 1) <= WIDTH
    ensures d < 7
    ensures var n := Slot(p, d, c);
            var (c1, more) := NextPosition(c, ShiftSum(p, d), p.shift[d]);
            && 0 <= n < |t.kids| && c1 >= 0 && LowBits(c1, ShiftSum(p, d)) == LowBits(c, ShiftSum(p, d))
            && (more <==> n + 1 < |t.kids|)
            && (more ==> Slot(p, d, c1) == n + 1 && Clean(p, t, d, c1)
                         && After(p, t, d, c1, false) == KidsFrom(t, n + 1)
                         && c1 < Pow2(ShiftSum(p, d + 1)))
            && (!more ==> c1 < Pow2(ShiftSum(p, d)) && KidsFrom(t, n + 1) == [])
  {
    SlotBound(p, t, d, c);
    var s, b := ShiftSum(p, d), p.shift[d];
    var n, low := Slot(p, d, c), c % Pow2(s);
    NextSlot(c, s, b);
    if n + 1 < Pow2(b) {
      var c1 := low + (n + 1) * Pow2(s);
      MulOrder(0, n + 1, Pow2(s));
      DivModOf(c1, n + 1, Pow2(s), low);
      DivModOf(n + 1, 0, Pow2(b), n + 1);
      Pow2Add(s, b);
      MulStep(n + 1, Pow2(b), Pow2(s));
      AfterFresh(p, t.kids[n + 1], d + 1, c1);
    } else {
      DivModOf(low, 0, Pow2(s), low);
    }
  }

  // A slot and what is below it depend on the low bits only.
  lemma SlotOfLow(p: Proto, d: nat, c: nat, c': nat)
    requires ProtoOk(p) && d < 7 && LowBits(c, ShiftSum(p, d + 1)) == LowBits(c', ShiftSum(p, d + 1))
    ensures Slot(p, d, c) == Slot(p, d, c') && LowBits(c, ShiftSum(p, d)) == LowBits(c', ShiftSum(p, d))
  {
    hide Pow2;
    var m, n := Pow2(ShiftSum(p, d)), Pow2(p.shift[d]);
    Pow2Add(ShiftSum(p, d), p.shift[d]);
    DivDiv(c, m, n);
    DivDiv(c', m, n);
    var low := c % (m * n);
    DivModOf(low, Slot(p, d, c), m, c % m);
    DivModOf(low, Slot(p, d, c'), m, c' % m);
  }

  // ----- every item once -----

  predicate Once(s: seq<Item>) { forall i, j | 0 <= i < j < |s| :: s[i] != s[j] }

  lemma OnceJoin(a: seq<Item>, b: seq<Item>)
    requires Once(a) && Once(b) && forall x | x in a :: x !in b
    ensures Once(a + b)
  {
    forall i, j | 0 <= i < j < |a + b| ensures (a + b)[i] != (a + b)[j] {
      assert i < |a| <= j ==> a[i] in a;
    }
  }

  lemma {:induction false} CellsOnce(p: Proto, cells: seq<Cell>, count: nat, i: nat)
    requires CellsOk(p, cells, count) && i <= |cells|
    ensures forall x :: x in CellsFrom(cells, i) <==>
              exists k :: i <= k < |cells| && Taken(cells[k]) && CellItem(cells[k]) == x
    ensures Once(CellsFrom(cells, i))
    decreases |cells| - i
  {
    if i < |cells| {
      CellsOnce(p, cells, count, i + 1);
      var rest := CellsFrom(cells, i + 1);
      if Taken(cells[i]) {
        assert forall k | i < k < |cells| && Taken(cells[k]) :: !SameKey(p, CellItem(cells[i]), CellItem(cells[k]));
        OnceJoin([CellItem(cells[i])], rest);
      } else {
        assert CellsFrom(cells, i) == rest;
      }
    }
  }

  lemma {:induction false} ChainOnce(p: Proto, buckets: seq<Bucket>, j: nat)
    requires ProtoOk(p) && ChainOk(p, buckets) && j <= |buckets|
    ensures forall x :: x in ChainFrom(buckets, j) <==>
              exists k :: j <= k < |buckets| && x in BucketItems(buckets[k].cells)
    ensures Once(ChainFrom(buckets, j))
    decreases |buckets| - j
  {
    if j < |buckets| {
      var cells, rest := buckets[j].cells, ChainFrom(buckets, j + 1);
      assert BucketOk(p, buckets[j]);
      CellsOnce(p, cells, buckets[j].count, 0);
      ChainOnce(p, buckets, j + 1);
      forall x ensures x in CellsFrom(cells, 0) <==> x in BucketItems(cells) {
      }
      forall x | x in CellsFrom(cells, 0) ensures x !in rest {
        forall k | j < k < |buckets| ensures x !in BucketItems(buckets[k].cells) {
          InOneBucket(p, buckets, j, k, x);
        }
      }
      OnceJoin(CellsFrom(cells, 0), rest);
    }
  }

  lemma {:induction false} KidsOnce(p: Proto, t: Tree, d: nat, i: nat)
    requires ProtoOk(p) && t.Level? && TreeOk(p, t, d) && i <= |t.kids|
    ensures forall x :: x in KidsFrom(t, i) <==> exists k :: i <= k < |t.kids| && x in Items(t.kids[k])
    ensures Once(KidsFrom(t, i))
    decreases t, 0, |t.kids| - i
  {
    if i < |t.kids| {
      var rest := KidsFrom(t, i + 1);
      SlotBound(p, t, d, 0);
      FlatOnce(p, t.kids[i], d + 1);
      KidsOnce(p, t, d, i + 1);
      forall x | x in Flat(t.kids[i]) ensures x !in rest {
        LevelItems(p, t, d, i, x);
        forall k | i < k < |t.kids| ensures x !in Items(t.kids[k]) {
          LevelItems(p, t, d, k, x);
        }
      }
      OnceJoin(Flat(t.kids[i]), rest);
    }
  }

  // The order holds every item of the hash exactly once.
  lemma {:induction false} FlatOnce(p: Proto, t: Tree, d: nat)
    requires ProtoOk(p) && TreeOk(p, t, d)
    ensures (forall x :: x in Flat(t) <==> x in Items(t)) && Once(Flat(t))
    decreases t, 1
  {
    match t
    case Nil =>
    case Chain(buckets) => ChainOnce(p, buckets, 0);
    case Level(_, _, _) => KidsOnce(p, t, d, 0);
  }

  // ----- the width of the position -----

  lemma Pow2Less(a: nat, b: nat)
    requires a < b
    ensures Pow2(a) < Pow2(b)
  {
    Pow2Order(a + 1, b);
  }

  // ----- levels that do not fit -----

  // Every level begins within the position; a machine word is not shifted by its
  // whole width.
  predicate Short(p: Proto)
    requires ProtoOk(p)
  {
    forall d | 0 <= d < 7 :: p.shift[d] != 0 ==> ShiftSum(p, d) < WIDTH
  }

  // The hashes have the width of the position.
  ghost predicate Small(t: Tree) { forall x | x in Items(t) :: x.hash < Pow2(WIDTH) }

  // The position is at a level that does not fit, or before it.
  ghost predicate Ahead(p: Proto, t: Tree, d: nat, c: nat)
    requires ProtoOk(p) && TreeOk(p, t, d)
    decreases t
  {
    t.Level? &&
    (SlotBound(p, t, d, c);
     var n := Slot(p, d, c);
     ShiftSum(p, d + 1) > WIDTH
     || if Fits(p, t.kids[n], d + 1) then
          Clean(p, t.kids[n], d + 1, c) && exists i :: n < i < |t.kids| && !Fits(p, t.kids[i], d + 1)
        else Ahead(p, t.kids[n], d + 1, c))
  }

  lemma {:induction false} AheadFresh(p: Proto, t: Tree, d: nat, c: nat)
    requires ProtoOk(p) && TreeOk(p, t, d) && !Fits(p, t, d) && d <= 8 && c < Pow2(ShiftSum(p, d))
    ensures Ahead(p, t, d, c)
    decreases t
  {
    SlotBound(p, t, d, c);
    if ShiftSum(p, d + 1) <= WIDTH {
      var m, s := Pow2(ShiftSum(p, d)), Pow2(p.shift[d]);
      DivModOf(c, 0, m, c);
      DivModOf(0, 0, s, 0);
      assert Slot(p, d, c) == 0;
      Pow2Add(ShiftSum(p, d), p.shift[d]);
      MulOrder(1, s, m);
      if Fits(p, t.kids[0], d + 1) {
        AfterFresh(p, t.kids[0], d + 1, c);
      } else {
        AheadFresh(p, t.kids[0], d + 1, c);
      }
    }
  }

  // Ahead depends on the low bits of the path only as far as the level before.
  lemma AheadAt(p: Proto, t: Tree, d: nat, c: nat)
    requires ProtoOk(p) && t.Level? && TreeOk(p, t, d) && d < 7
    ensures 0 <= Slot(p, d, c) < |t.kids| && forall i | 0 <= i < |t.kids| :: TreeOk(p, t.kids[i], d + 1)
    ensures ShiftSum(p, d + 1) <= WIDTH ==>
              (Ahead(p, t, d, c) <==>
                 var n := Slot(p, d, c);
                 if Fits(p, t.kids[n], d + 1) then
                   Clean(p, t.kids[n], d + 1, c) && exists i :: n < i < |t.kids| && !Fits(p, t.kids[i], d + 1)
                 else Ahead(p, t.kids[n], d + 1, c))
    ensures ShiftSum(p, d + 1) > WIDTH ==> Ahead(p, t, d, c)
    ensures Fits(p, t, d) <==> ShiftSum(p, d + 1) <= WIDTH && forall i | 0 <= i < |t.kids| :: Fits(p, t.kids[i], d + 1)
  {
    SlotBound(p, t, d, c);
  }

  // Below a level that does not fit there are only buckets.
  lemma LeavesOnly(p: Proto, t: Tree, d: nat, i: nat)
    requires ProtoOk(p) && Short(p) && t.Level? && TreeOk(p, t, d) && d < 7 && ShiftSum(p, d + 1) > WIDTH
             && i < |t.kids|
    ensures TreeOk(p, t.kids[i], d + 1) && !t.kids[i].Level? && Fits(p, t.kids[i], d + 1)
  {
    SlotBound(p, t, d, 0);
    var kid := t.kids[i];
    assert TreeOk(p, kid, d + 1);
    assert kid.Level? ==> LevelOk(p, kid, d + 1);
  }

  // The slots with something in them are among those that the position reaches.
  lemma ReachedSlot(p: Proto, t: Tree, d: nat) returns (j: nat)
    requires ProtoOk(p) && Short(p) && Small(t) && t.Level? && TreeOk(p, t, d) && d < 7 && ShiftSum(p, d + 1) > WIDTH
    ensures ShiftSum(p, d) < WIDTH && j < Pow2(WIDTH - ShiftSum(p, d)) && j < |t.kids| && t.kids[j].Chain?
  {
    SlotBound(p, t, d, 0);
    j := UsedSlot(t.kids, |t.kids|);
    LeavesOnly(p, t, d, j);
    var x := SomeItem(p, t.kids[j], d + 1);
    LevelItems(p, t, d, j, x);
    hide Pow2;
    var s := ShiftSum(p, d);
    Pow2Add(s, WIDTH - s);
    QuotientBound(x.hash, Pow2(s), Pow2(WIDTH - s));
    Pow2Less(WIDTH - s, p.shift[d]);
    DivModOf(x.hash / Pow2(s), 0, Pow2(p.shift[d]), x.hash / Pow2(s));
  }

  lemma {:induction false} UsedSlot(kids: seq<Tree>, n: nat) returns (j: nat)
    requires n <= |kids| && UsedSlots(kids, n) > 0
    ensures j < n && !kids[j].Nil?
  {
    if kids[n - 1].Nil? {
      j := UsedSlot(kids, n - 1);
    } else {
      j := n - 1;
    }
  }

  lemma SomeItem(p: Proto, t: Tree, d: nat) returns (x: Item)
    requires ProtoOk(p) && t.Chain? && TreeOk(p, t, d)
    ensures x in Items(t)
  {
    var b := t.buckets[0];
    assert BucketOk(p, b);
    var k := TakenAt(b.cells, |b.cells|);
    x := CellItem(b.cells[k]);
    assert x in BucketItems(b.cells);
  }

  lemma {:induction false} TakenAt(cells: seq<Cell>, n: nat) returns (k: nat)
    requires n <= |cells| && TakenCount(cells, n) > 0
    ensures k < n && Taken(cells[k])
  {
    if Taken(cells[n - 1]) {
      k := n - 1;
    } else {
      k := TakenAt(cells, n - 1);
    }
  }

  // From the last slot that the position reaches it comes to the first again.
  lemma NextCyclic(c: nat, s: nat, b: nat)
    requires s < WIDTH < s + b && c < Pow2(WIDTH)
    ensures var n, w := SlotNumber(c, s, b), Pow2(WIDTH - s);
            var (c1, more) := NextPosition(c, s, b);
            && 0 <= n < w <= Pow2(b) && more && 0 <= c1 < Pow2(WIDTH) && LowBits(c1, s) == LowBits(c, s)
            && SlotNumber(c1, s, b) == if n + 1 < w then n + 1 else 0
  {
    hide Pow2, LowBits, SlotNumber, NextPosition;
    var m, k, w := Pow2(s), Pow2(b), Pow2(WIDTH - s);
    var q, low := c / m, c % m;
    assert c == q * m + low;
    Pow2Add(s, WIDTH - s);
    Pow2Less(WIDTH - s, b);
    QuotientBound(c, m, w);
    SmallSlot(c, s, b);
    DivModOf(q + 1, 0, k, q + 1);
    MulOrder(1, q + 1, m);
    Cyclic(q, low, m, w);
    NextParts(c, s, b);
    var c1 := low + (q + 1) * m % Pow2(WIDTH);
    SmallSlot(c1, s, b);
    LowOf(c, s);
    LowOf(c1, s);
  }

  lemma SmallSlot(c: nat, s: nat, b: nat)
    ensures c / Pow2(s) < Pow2(b) ==> SlotNumber(c, s, b) == c / Pow2(s)
  {
    hide Pow2;
    if c / Pow2(s) < Pow2(b) {
      QuotientNat(c, Pow2(s));
      DivModOf(c / Pow2(s), 0, Pow2(b), c / Pow2(s));
    }
  }

  lemma QuotientNat(c: nat, m: int)
    requires m > 0
    ensures c / m >= 0
  {
  }

  lemma NextParts(c: nat, s: nat, b: nat)
    ensures var n, m := SlotNumber(c, s, b), Pow2(s);
            var up := (n + 1) % Pow2(b) * m;
            NextPosition(c, s, b) == (c - n * m + up % Pow2(WIDTH), up != 0)
  {
    hide SlotNumber, Pow2;
  }

  lemma LowOf(c: nat, s: nat)
    ensures LowBits(c, s) == c % Pow2(s)
  {
  }

  lemma Cyclic(q: nat, low: nat, m: nat, w: nat)
    requires m > 0 && q < w && low < m
    ensures w * m > 0
    ensures var c1 := low + (q + 1) * m % (w * m);
            0 <= c1 < w * m && c1 % m == low && c1 / m == if q + 1 < w then q + 1 else 0
  {
    MulOrder(1, w, m);
    if q + 1 < w {
      MulStep(q + 1, w, m);
      MulOrder(0, q + 1, m);
      DivModOf((q + 1) * m, 0, w * m, (q + 1) * m);
      DivModOf(low + (q + 1) * m, q + 1, m, low);
    } else {
      DivModOf((q + 1) * m, 1, w * m, 0);
      DivModOf(low, 0, m, low);
    }
  }

  // A clean position in a tree that fits is within the word.
  lemma {:induction false} CleanInWord(p: Proto, t: Tree, d: nat, c: nat)
    requires ProtoOk(p) && TreeOk(p, t, d) && Fits(p, t, d) && Clean(p, t, d, c) && d <= 8 && ShiftSum(p, d) <= WIDTH
    ensures c < Pow2(WIDTH)
    decreases t
  {
    if t.Level? {
      SlotBound(p, t, d, c);
      CleanInWord(p, t.kids[Slot(p, d, c)], d + 1, c);
    } else {
      Pow2Order(ShiftSum(p, d), WIDTH);
    }
  }

  // Shifts that sum to no more than the width make every tree fit.
  lemma {:induction false} ShiftsFit(p: Proto, t: Tree, d: nat)
    requires ProtoOk(p) && TreeOk(p, t, d) && ShiftSum(p, 7) <= WIDTH
    ensures Fits(p, t, d)
    decreases t
  {
    if t.Level? {
      SlotBound(p, t, d, 0);
      ShiftOrder(p, d + 1, 7);
      forall i | 0 <= i < |t.kids| ensures Fits(p, t.kids[i], d + 1) {
        ShiftsFit(p, t.kids[i], d + 1);
      }
    }
  }

  lemma {:induction false} ShiftOrder(p: Proto, a: nat, b: nat)
    requires ProtoOk(p) && a <= b <= 8
    ensures ShiftSum(p, a) <= ShiftSum(p, b)
    decreases b
  {
    if a < b {
      ShiftOrder(p, a, b - 1);
    }
  }

  const DEFAULT_SHIFT := [4, 4, 4, 4, 4, 4, 4, 0]
  const LARGE_SLAB_SHIFT := [10, 4, 4, 4, 4, 4, 4, 0]
  const LARGE_MEMALIGN_SHIFT := [10, 4, 4, 4, 4, 0, 0, 0]

  // The predefined prototypes: with ten bits in the first level and six levels
  // of four bits below, the last one does not fit.
  lemma PredefinedShifts(p: Proto)
    requires ProtoOk(p)
    ensures p.shift == DEFAULT_SHIFT ==> ShiftSum(p, 7) == 28
    ensures p.shift == LARGE_MEMALIGN_SHIFT ==> ShiftSum(p, 7) == 26
    ensures p.shift == LARGE_SLAB_SHIFT ==> ShiftSum(p, 6) == 30 && ShiftSum(p, 7) == 34
  {
    assert ShiftSum(p, 1) == p.shift[0];
    assert ShiftSum(p, 2) == ShiftSum(p, 1) + p.shift[1];
    assert ShiftSum(p, 3) == ShiftSum(p, 2) + p.shift[2];
    assert ShiftSum(p, 4) == ShiftSum(p, 3) + p.shift[3];
    assert ShiftSum(p, 5) == ShiftSum(p, 4) + p.shift[4];
    assert ShiftSum(p, 6) == ShiftSum(p, 5) + p.shift[5];
  }
}
