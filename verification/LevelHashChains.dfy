// Changes to a chain of buckets: its memory, its invariant and its contents.
module LevelHashChains {
  import opened Arithmetic
  import opened LevelHashTree

  // Where the word that leads to bucket j is kept: in the bucket before, or (0)
  // in the slot the chain hangs from.
  function LinkAddr(buckets: seq<Bucket>, j: nat): Address
    requires j <= |buckets|
  {
    if j == 0 then 0 else buckets[j - 1].addr
  }

  // The word at the link is set; the slot itself is not in memory here.
  function Linked(mem: Memory, link: Address, w: Word): Memory {
    if link in mem && mem[link].BucketBlock? then mem[link := BucketBlock(mem[link].cells, w)] else mem
  }

  // A tree's addresses are positive.
  ghost predicate Positive(mem: Memory) { forall a | a in mem :: a > 0 }

  // ----- memory -----

  lemma ChainWritten(m0: Memory, buckets: seq<Bucket>, j: nat, b: Bucket, m1: Memory)
    requires Positive(m0) && ChainHeld(m0, buckets) && j < |buckets| && b.addr == buckets[j].addr
    requires m1 == Linked(m0[b.addr := BucketBlock(b.cells, ChainWord(buckets, j + 1))], LinkAddr(buckets, j),
                          BucketWord(b))
    ensures Replaced(m0, Chain(buckets), m1, Chain(buckets[j := b]))
    ensures WordOf(Chain(buckets[j := b])) == if j == 0 then BucketWord(b) else WordOf(Chain(buckets))
    ensures Positive(m1)
  {
    var buckets1 := buckets[j := b];
    SameAddrs(buckets, j, b);
    HeldKeys(m0, Chain(buckets));
    forall k | 0 <= k < |buckets1|
      ensures buckets1[k].addr in m1
      ensures m1[buckets1[k].addr] == BucketBlock(buckets1[k].cells, ChainWord(buckets1, k + 1))
    {
      assert buckets[k].addr in m0;
      if k != j {
        assert buckets[k].addr != b.addr;
      }
      if k + 1 != j {
        assert j > 0 ==> buckets[k].addr != buckets[j - 1].addr;
        assert ChainWord(buckets1, k + 1) == ChainWord(buckets, k + 1);
      }
    }
    assert ChainHeld(m1, buckets1);
  }

  lemma SameAddrs(buckets: seq<Bucket>, j: nat, b: Bucket)
    requires j < |buckets| && b.addr == buckets[j].addr
    ensures Addrs(Chain(buckets[j := b])) == Addrs(Chain(buckets))
    ensures j > 0 ==> LinkAddr(buckets, j) in Addrs(Chain(buckets))
    ensures b.addr in Addrs(Chain(buckets))
  {
    var buckets1 := buckets[j := b];
    forall a | a in Addrs(Chain(buckets)) ensures a in Addrs(Chain(buckets1)) {
      var k :| 0 <= k < |buckets| && buckets[k].addr == a;
      assert buckets1[k].addr == a;
    }
  }

  lemma ChainAppended(m0: Memory, buckets: seq<Bucket>, b: Bucket, m1: Memory)
    requires Positive(m0) && ChainHeld(m0, buckets) && b.addr !in m0 && |buckets| > 0
    requires m1 == Linked(m0[b.addr := BucketBlock(b.cells, 0)], LinkAddr(buckets, |buckets|), BucketWord(b))
    ensures Replaced(m0, Chain(buckets), m1, Chain(buckets + [b]))
    ensures WordOf(Chain(buckets + [b])) == WordOf(Chain(buckets))
  {
    var n, buckets1 := |buckets|, buckets + [b];
    assert Addrs(Chain(buckets1)) == Addrs(Chain(buckets)) + {b.addr} by {
      assert buckets1[n].addr == b.addr;
      forall a | a in Addrs(Chain(buckets)) ensures a in Addrs(Chain(buckets1)) {
        var k :| 0 <= k < n && buckets[k].addr == a;
        assert buckets1[k].addr == a;
      }
    }
    assert Addrs(Chain(buckets)) <= m0.Keys;
  }

  // Bucket j is taken out and freed; an empty chain is no chain.
  function WithoutBucket(buckets: seq<Bucket>, j: nat): Tree
    requires j < |buckets|
  {
    if |buckets| == 1 then Nil else Chain(buckets[..j] + buckets[j + 1..])
  }

  lemma ChainRemoved(m0: Memory, buckets: seq<Bucket>, j: nat, m1: Memory)
    requires Positive(m0) && ChainHeld(m0, buckets) && j < |buckets|
    requires m1 == Linked(m0, LinkAddr(buckets, j), ChainWord(buckets, j + 1)) - {buckets[j].addr}
    ensures Replaced(m0, Chain(buckets), m1, WithoutBucket(buckets, j))
    ensures WordOf(WithoutBucket(buckets, j)) == if j == 0 then ChainWord(buckets, 1) else WordOf(Chain(buckets))
    ensures Positive(m1)
  {
    HeldKeys(m0, Chain(buckets));
    SameAddrs(buckets, j, buckets[j]);
    RemovedAddrs(buckets, j);
    RemovedHeld(m0, buckets, j, m1);
  }

  lemma RemovedHeld(m0: Memory, buckets: seq<Bucket>, j: nat, m1: Memory)
    requires Positive(m0) && ChainHeld(m0, buckets) && j < |buckets|
    requires m1 == Linked(m0, LinkAddr(buckets, j), ChainWord(buckets, j + 1)) - {buckets[j].addr}
    ensures Held(m1, WithoutBucket(buckets, j))
  {
    if |buckets| > 1 {
      var buckets1 := buckets[..j] + buckets[j + 1..];
      forall k | 0 <= k < |buckets1|
        ensures buckets1[k].addr in m1
        ensures m1[buckets1[k].addr] == BucketBlock(buckets1[k].cells, ChainWord(buckets1, k + 1))
      {
        LinkedBlock(m0, buckets, j, m1, if k < j then k else k + 1);
        RemovedWord(buckets, j, k);
      }
    }
  }

  lemma LinkedBlock(m0: Memory, buckets: seq<Bucket>, j: nat, m1: Memory, i: nat)
    requires Positive(m0) && ChainHeld(m0, buckets) && j < |buckets| && i < |buckets| && i != j
    requires m1 == Linked(m0, LinkAddr(buckets, j), ChainWord(buckets, j + 1)) - {buckets[j].addr}
    ensures buckets[i].addr in m1
    ensures var k := if i + 1 == j then j + 1 else i + 1;
            m1[buckets[i].addr] == BucketBlock(buckets[i].cells, ChainWord(buckets, k))
  {
    assert buckets[i].addr != buckets[j].addr;
    assert j > 0 && i != j - 1 ==> buckets[i].addr != buckets[j - 1].addr;
  }

  lemma RemovedWord(buckets: seq<Bucket>, j: nat, k: nat)
    requires j < |buckets| && k < |buckets| - 1
    ensures var buckets1 := buckets[..j] + buckets[j + 1..];
            var i := if k < j then k else k + 1;
            && buckets1[k] == buckets[i]
            && ChainWord(buckets1, k + 1) == ChainWord(buckets, if i + 1 == j then j + 1 else i + 1)
  {
  }

  lemma RemovedAddrs(buckets: seq<Bucket>, j: nat)
    requires j < |buckets| && forall i, k | 0 <= i < k < |buckets| :: buckets[i].addr != buckets[k].addr
    ensures Addrs(WithoutBucket(buckets, j)) == Addrs(Chain(buckets)) - {buckets[j].addr}
  {
    var t, t1 := Chain(buckets), WithoutBucket(buckets, j);
    var a := buckets[j].addr;
    if |buckets| > 1 {
      var buckets1 := buckets[..j] + buckets[j + 1..];
      forall c | c in Addrs(t) && c != a ensures c in Addrs(t1) {
        var k :| 0 <= k < |buckets| && buckets[k].addr == c;
        assert buckets1[if k < j then k else k - 1].addr == c;
      }
      forall c | c in Addrs(t1) ensures c in Addrs(t) && c != a {
        var k :| 0 <= k < |buckets1| && buckets1[k].addr == c;
        assert buckets1[k] == buckets[if k < j then k else k + 1];
      }
    }
  }

  // ----- cells -----

  lemma {:induction false} TakenStep(cells: seq<Cell>, i: nat, c: Cell, n: nat)
    requires i < |cells| && n <= |cells|
    ensures TakenCount(cells[i := c], n) ==
              TakenCount(cells, n) +
              if i < n then (if Taken(c) then 1 else 0) - (if Taken(cells[i]) then 1 else 0) else 0
    decreases n
  {
    if n > 0 {
      TakenStep(cells, i, c, n - 1);
    }
  }

  // With fewer taken cells before i than in all, a taken one is ahead.
  lemma {:induction false} TakenAhead(cells: seq<Cell>, i: nat, n: nat) returns (k: nat)
    requires i <= n <= |cells| && TakenCount(cells, i) < TakenCount(cells, n)
    ensures i <= k < n && Taken(cells[k])
    decreases n
  {
    if Taken(cells[n - 1]) {
      k := n - 1;
    } else {
      k := TakenAhead(cells, i, n - 1);
    }
  }

  lemma {:induction false} NoneAhead(cells: seq<Cell>, i: nat, n: nat, k: nat)
    requires i <= k < n <= |cells| && TakenCount(cells, i) == TakenCount(cells, n)
    ensures !Taken(cells[k]) && TakenCount(cells, i) <= TakenCount(cells, k)
    decreases k
  {
    TakenRises(cells, i, k);
    TakenRises(cells, k + 1, n);
  }

  lemma {:induction false} TakenRises(cells: seq<Cell>, i: nat, n: nat)
    requires i <= n <= |cells|
    ensures TakenCount(cells, i) <= TakenCount(cells, n) <= TakenCount(cells, i) + (n - i)
    decreases n
  {
    if i < n {
      TakenRises(cells, i, n - 1);
    }
  }

  lemma {:induction false} AllTaken(cells: seq<Cell>, n: nat)
    requires n <= |cells| && TakenCount(cells, n) == n
    ensures forall i | 0 <= i < n :: Taken(cells[i])
  {
    if n > 0 {
      AllTaken(cells, n - 1);
    }
  }

  // An entry is put in a free cell that is not beyond the first unwritten one.
  lemma CellsAdd(p: Proto, cells: seq<Cell>, count: nat, i: nat, value: nat, hash: nat)
    requires CellsOk(p, cells, count) && i < |cells| && !Taken(cells[i]) && value != 0
    requires forall k | 0 <= k < i :: cells[k].Entry?
    requires Apart(p, BucketItems(cells), {Item(hash, value)})
    ensures var cells1 := cells[i := Entry(value, hash)];
            CellsOk(p, cells1, count + 1) && BucketItems(cells1) == BucketItems(cells) + {Item(hash, value)}
  {
    var c := Entry(value, hash);
    var cells1 := cells[i := c];
    TakenStep(cells, i, c, |cells|);
    forall k | 0 <= k < |cells| && Taken(cells[k])
      ensures CellItem(cells[k]) in BucketItems(cells) && k != i && CellItem(cells1[k]) in BucketItems(cells1)
    {
    }
    assert CellItem(cells1[i]) in BucketItems(cells1);
    forall j, k | 0 <= j < k < |cells1| && Taken(cells1[j]) && Taken(cells1[k])
      ensures !SameKey(p, CellItem(cells1[j]), CellItem(cells1[k]))
    {
      if j == i {
        assert CellItem(cells[k]) in BucketItems(cells);
      } else if k == i {
        assert CellItem(cells[j]) in BucketItems(cells);
      }
    }
  }

  // The value of an entry is replaced by one with the same key.
  lemma CellsSet(p: Proto, cells: seq<Cell>, count: nat, i: nat, value: nat)
    requires CellsOk(p, cells, count) && i < |cells| && Taken(cells[i]) && value != 0
    requires p.keyOf(value) == p.keyOf(cells[i].value)
    ensures var cells1 := cells[i := Entry(value, cells[i].hash)];
            && CellsOk(p, cells1, count)
            && BucketItems(cells1) == BucketItems(cells) - {CellItem(cells[i])} + {Item(cells[i].hash, value)}
  {
    var c := Entry(value, cells[i].hash);
    var cells1 := cells[i := c];
    TakenStep(cells, i, c, |cells|);
    forall k | 0 <= k < |cells| && Taken(cells[k]) && k != i
      ensures CellItem(cells1[k]) in BucketItems(cells1) && !SameKey(p, CellItem(cells[k]), CellItem(cells[i]))
    {
    }
    assert CellItem(cells1[i]) in BucketItems(cells1);
    assert CellItem(cells[i]) in BucketItems(cells);
  }

  // An entry is deleted: its value becomes zero.
  lemma CellsClear(p: Proto, cells: seq<Cell>, count: nat, i: nat)
    requires CellsOk(p, cells, count) && i < |cells| && Taken(cells[i])
    ensures var cells1 := cells[i := Entry(0, cells[i].hash)];
            && count >= 1 && CellsOk(p, cells1, count - 1)
            && BucketItems(cells1) == BucketItems(cells) - {CellItem(cells[i])}
  {
    var c := Entry(0, cells[i].hash);
    var cells1 := cells[i := c];
    TakenStep(cells, i, c, |cells|);
    forall k | 0 <= k < |cells| && Taken(cells[k]) && k != i
      ensures CellItem(cells1[k]) in BucketItems(cells1) && !SameKey(p, CellItem(cells[k]), CellItem(cells[i]))
    {
    }
  }

  function FirstCells(p: Proto, value: nat, hash: nat): seq<Cell>
    requires p.entries >= 1
  {
    [Entry(value, hash)] + seq(p.entries - 1, i => Raw)
  }

  lemma CellsFirst(p: Proto, value: nat, hash: nat)
    requires p.entries >= 1 && value != 0
    ensures var cells := FirstCells(p, value, hash);
            CellsOk(p, cells, 1) && BucketItems(cells) == {Item(hash, value)}
  {
    var cells := FirstCells(p, value, hash);
    assert TakenCount(cells, 1) == 1;
    RawCount(cells, |cells|);
    assert CellItem(cells[0]) in BucketItems(cells);
  }

  lemma {:induction false} RawCount(cells: seq<Cell>, n: nat)
    requires 1 <= n <= |cells| && forall i | 1 <= i < n :: cells[i].Raw?
    ensures TakenCount(cells, n) == TakenCount(cells, 1)
  {
    if n > 1 {
      RawCount(cells, n - 1);
    }
  }

  // ----- chains -----

  // Bucket j is changed.
  lemma ChainChanges(p: Proto, buckets: seq<Bucket>, j: nat, b: Bucket)
    requires ProtoOk(p) && ChainOk(p, buckets) && j < |buckets| && BucketOk(p, b)
    requires forall i | 0 <= i < |buckets| && i != j ::
               Apart(p, BucketItems(buckets[i].cells), BucketItems(b.cells) - BucketItems(buckets[j].cells))
    ensures ChainOk(p, buckets[j := b])
    ensures Items(Chain(buckets[j := b])) == Items(Chain(buckets)) - BucketItems(buckets[j].cells)
            + BucketItems(b.cells)
  {
    hide BucketOk, BucketItems;
    var buckets1 := buckets[j := b];
    var items := BucketItems(buckets[j].cells);
    forall i, k | 0 <= i < k < |buckets1|
      ensures Apart(p, BucketItems(buckets1[i].cells), BucketItems(buckets1[k].cells))
    {
      assert Apart(p, BucketItems(buckets[i].cells), BucketItems(buckets[k].cells));
      if k == j {
        ApartJoin(p, BucketItems(buckets[i].cells), items, BucketItems(b.cells));
      } else if i == j {
        assert Apart(p, BucketItems(buckets[k].cells), BucketItems(b.cells) - items);
        ApartJoin(p, BucketItems(buckets[k].cells), items, BucketItems(b.cells));
      }
    }
    forall x ensures x in Items(Chain(buckets1)) <==>
                       (x in Items(Chain(buckets)) && x !in items) || x in BucketItems(b.cells)
    {
      ChainItemMoves(p, buckets, j, b, x);
    }
  }

  lemma ApartJoin(p: Proto, a: set<Item>, b: set<Item>, c: set<Item>)
    requires (Apart(p, a, b) || Apart(p, b, a)) && Apart(p, a, c - b)
    ensures Apart(p, a, c) && Apart(p, c, a)
  {
    forall x, y | x in a && y in c ensures !SameKey(p, x, y) && !SameKey(p, y, x) {
      if y !in b {
        assert y in c - b;
      }
    }
  }

  lemma ChainItemMoves(p: Proto, buckets: seq<Bucket>, j: nat, b: Bucket, x: Item)
    requires ProtoOk(p) && ChainOk(p, buckets) && j < |buckets|
    ensures x in Items(Chain(buckets[j := b])) <==>
              (x in Items(Chain(buckets)) && x !in BucketItems(buckets[j].cells)) || x in BucketItems(b.cells)
  {
    hide BucketOk, BucketItems;
    var buckets1 := buckets[j := b];
    if x in BucketItems(b.cells) {
      assert x in BucketItems(buckets1[j].cells);
    } else if x in Items(Chain(buckets)) && x !in BucketItems(buckets[j].cells) {
      var i :| 0 <= i < |buckets| && x in BucketItems(buckets[i].cells);
      assert buckets1[i] == buckets[i];
    } else if x in Items(Chain(buckets1)) {
      var i :| 0 <= i < |buckets1| && x in BucketItems(buckets1[i].cells);
      assert x in BucketItems(buckets[i].cells);
      InOneBucket(p, buckets, i, j, x);
    }
  }

  lemma InOneBucket(p: Proto, buckets: seq<Bucket>, i: nat, j: nat, x: Item)
    requires ProtoOk(p) && ChainOk(p, buckets) && i < |buckets| && j < |buckets| && i != j
    requires x in BucketItems(buckets[i].cells)
    ensures x !in BucketItems(buckets[j].cells)
  {
    hide BucketOk, BucketItems;
    var lo, hi := if i < j then i else j, if i < j then j else i;
    assert Apart(p, BucketItems(buckets[lo].cells), BucketItems(buckets[hi].cells));
    assert SameKey(p, x, x);
  }

  // A bucket is added at the end.
  lemma ChainGrows(p: Proto, buckets: seq<Bucket>, b: Bucket)
    requires ProtoOk(p) && ChainOk(p, buckets) && BucketOk(p, b)
    requires Apart(p, Items(Chain(buckets)), BucketItems(b.cells))
    ensures ChainOk(p, buckets + [b])
    ensures Items(Chain(buckets + [b])) == Items(Chain(buckets)) + BucketItems(b.cells)
  {
    hide BucketOk, BucketItems;
    var buckets1, n := buckets + [b], |buckets|;
    forall i, k | 0 <= i < k < |buckets1|
      ensures Apart(p, BucketItems(buckets1[i].cells), BucketItems(buckets1[k].cells))
    {
      if k < n {
        assert Apart(p, BucketItems(buckets[i].cells), BucketItems(buckets[k].cells));
      } else {
        assert forall x | x in BucketItems(buckets[i].cells) :: x in Items(Chain(buckets));
      }
    }
    assert buckets1[n] == b;
    forall x | x in Items(Chain(buckets)) ensures x in Items(Chain(buckets1)) {
      var i :| 0 <= i < n && x in BucketItems(buckets[i].cells);
      assert x in BucketItems(buckets1[i].cells);
    }
    forall x | x in Items(Chain(buckets1)) ensures x in Items(Chain(buckets)) || x in BucketItems(b.cells) {
      var i :| 0 <= i < n + 1 && x in BucketItems(buckets1[i].cells);
      assert i < n ==> x in BucketItems(buckets[i].cells);
    }
  }

  // Bucket j is taken out.
  lemma ChainShrinks(p: Proto, buckets: seq<Bucket>, j: nat)
    requires ProtoOk(p) && ChainOk(p, buckets) && j < |buckets|
    ensures var t := WithoutBucket(buckets, j);
            && (t.Chain? ==> ChainOk(p, t.buckets) && |t.buckets| < |buckets|)
            && Items(t) == Items(Chain(buckets)) - BucketItems(buckets[j].cells)
  {
    hide BucketOk, BucketItems;
    var t := WithoutBucket(buckets, j);
    if t.Chain? {
      forall i, k | 0 <= i < k < |t.buckets|
        ensures Apart(p, BucketItems(t.buckets[i].cells), BucketItems(t.buckets[k].cells))
      {
        var i', k' := if i < j then i else i + 1, if k < j then k else k + 1;
        assert t.buckets[i] == buckets[i'] && t.buckets[k] == buckets[k'];
      }
      forall x | x in Items(t) ensures x in Items(Chain(buckets)) && x !in BucketItems(buckets[j].cells) {
        var k :| 0 <= k < |t.buckets| && x in BucketItems(t.buckets[k].cells);
        var i := if k < j then k else k + 1;
        assert t.buckets[k] == buckets[i];
        InOneBucket(p, buckets, i, j, x);
      }
    }
    forall x | x in Items(Chain(buckets)) && x !in BucketItems(buckets[j].cells) ensures x in Items(t) {
      var i :| 0 <= i < |buckets| && x in BucketItems(buckets[i].cells);
      assert t.Chain? && t.buckets[if i < j then i else i - 1] == buckets[i];
    }
  }
}
