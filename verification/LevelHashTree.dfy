// The level hash as a tree: what the blocks of memory it is made of stand for,
// and the invariants of its levels and buckets.
module LevelHashTree {
  import opened Arithmetic

  // The prototype of a hash: the number of bits of each level (a zero ends the
  // list), the entries of a bucket and its size in bytes.  keyOf gives the key a
  // value is stored under, with which the prototype's test function compares.
  datatype Proto = Proto(shift: seq<nat>, entries: nat, bucketSize: nat, keyOf: nat -> string)

  predicate ProtoOk(p: Proto) {
    && |p.shift| == 8 && p.shift[7] == 0
    && p.entries >= 1 && 2 * p.entries + 1 < p.bucketSize && p.bucketSize % 2 == 0
  }

  // A word is an address that carries a count and a tag in its low bits.
  type Word = int
  type Address = int

  // An entry of a bucket: memory never written, or a value (a free one is zero)
  // and its hash.
  datatype Cell = Raw | Entry(value: nat, hash: nat)

  datatype Block = BucketBlock(cells: seq<Cell>, next: Word) | LevelBlock(slots: seq<Word>)

  type Memory = map<Address, Block>

  predicate Taken(c: Cell) { c.Entry? && c.value != 0 }

  datatype Item = Item(hash: nat, value: nat)

  function CellItem(c: Cell): Item
    requires c.Entry?
  {
    Item(c.hash, c.value)
  }

  datatype Bucket = Bucket(addr: Address, cells: seq<Cell>, count: nat)

  datatype Tree = Nil | Chain(buckets: seq<Bucket>) | Level(addr: Address, count: nat, kids: seq<Tree>)

  // ----- words -----

  // A level's address is a multiple of its size in bytes; its count, at most
  // the number of slots, takes one bit more than a slot number.
  function LevelAddr(w: Word, s: nat): Address { w - w % (4 * Pow2(s)) }

  // The count modulo the number of slots.
  function LevelEntries(w: Word, s: nat): int { w / 2 % Pow2(s) }

  predicate IsBucket(w: Word) { w % 2 == 1 }

  function BucketAddr(p: Proto, w: Word): Address
    requires ProtoOk(p)
  {
    w - w % p.bucketSize
  }

  function BucketEntries(p: Proto, w: Word): int
    requires ProtoOk(p)
  {
    w % p.bucketSize / 2
  }

  function BucketWord(b: Bucket): Word { b.addr + 2 * b.count + 1 }

  function ChainWord(buckets: seq<Bucket>, j: nat): Word {
    if j < |buckets| then BucketWord(buckets[j]) else 0
  }

  function WordOf(t: Tree): Word {
    match t
    case Nil => 0
    case Chain(buckets) => ChainWord(buckets, 0)
    case Level(addr, count, _) => addr + 2 * count
  }

  // The count of a level is read back from its word, but that of a full level
  // reads as zero.
  lemma LevelWord(addr: Address, count: nat, s: nat)
    requires addr % (8 * Pow2(s)) == 0 && count <= Pow2(s)
    ensures var w := addr + 2 * count;
            && !IsBucket(w) && LevelAddr(w, s) == addr
            && LevelEntries(w, s) == if count == Pow2(s) then 0 else count
  {
    var m := Pow2(s);
    var q := addr / (8 * m);
    assert addr == q * (8 * m);
    MulAssoc(q, 2, 4 * m);
    DivModOf(addr + 2 * count, 2 * q, 4 * m, 2 * count);
    MulAssoc(q, 4, m);
    var half := 4 * q * m + count;
    assert addr + 2 * count == 2 * half;
    DivModOf(2 * half, half, 2, 0);
    if count == m {
      DivModOf(half, 4 * q + 1, m, 0);
    } else {
      DivModOf(half, 4 * q, m, count);
    }
  }

  lemma BucketRead(p: Proto, b: Bucket)
    requires ProtoOk(p) && b.addr % p.bucketSize == 0 && b.count <= p.entries
    ensures var w := BucketWord(b);
            IsBucket(w) && BucketAddr(p, w) == b.addr && BucketEntries(p, w) == b.count
  {
    var q, h := b.addr / p.bucketSize, p.bucketSize / 2;
    assert b.addr == q * p.bucketSize;
    DivModOf(BucketWord(b), q, p.bucketSize, 2 * b.count + 1);
    MulAssoc(2, q, h);
    MulAssoc(q, 2, h);
    DivModOf(BucketWord(b), q * h + b.count, 2, 1);
  }

  // ----- contents -----

  ghost function BucketItems(cells: seq<Cell>): set<Item> {
    set i | 0 <= i < |cells| && Taken(cells[i]) :: CellItem(cells[i])
  }

  ghost function Items(t: Tree): set<Item> {
    match t
    case Nil => {}
    case Chain(buckets) => set j, x | 0 <= j < |buckets| && x in BucketItems(buckets[j].cells) :: x
    case Level(_, _, kids) => set i, x | 0 <= i < |kids| && x in Items(kids[i]) :: x
  }

  // Found by the same query.
  predicate SameKey(p: Proto, x: Item, y: Item) {
    x.hash == y.hash && p.keyOf(x.value) == p.keyOf(y.value)
  }

  ghost predicate Apart(p: Proto, a: set<Item>, b: set<Item>) {
    forall x, y | x in a && y in b :: !SameKey(p, x, y)
  }

  function TakenCount(cells: seq<Cell>, n: nat): (r: nat)
    requires n <= |cells|
    ensures r <= n
  {
    if n == 0 then 0 else TakenCount(cells, n - 1) + if Taken(cells[n - 1]) then 1 else 0
  }

  // The written cells come first, the count is exact and not zero, and no two
  // entries have the same key.
  ghost predicate CellsOk(p: Proto, cells: seq<Cell>, count: nat) {
    && |cells| == p.entries && count == TakenCount(cells, |cells|)
    && (forall i, j | 0 <= i < j < |cells| && cells[j].Entry? :: cells[i].Entry?)
    && (forall i, j | 0 <= i < j < |cells| && Taken(cells[i]) && Taken(cells[j]) ::
          !SameKey(p, CellItem(cells[i]), CellItem(cells[j])))
  }

  ghost predicate BucketOk(p: Proto, b: Bucket)
    requires ProtoOk(p)
  {
    CellsOk(p, b.cells, b.count) && b.count >= 1 && b.addr > 0 && b.addr % p.bucketSize == 0
  }

  ghost predicate ChainOk(p: Proto, buckets: seq<Bucket>)
    requires ProtoOk(p)
  {
    && |buckets| >= 1
    && (forall j | 0 <= j < |buckets| :: BucketOk(p, buckets[j]))
    && (forall i, j | 0 <= i < j < |buckets| ::
          Apart(p, BucketItems(buckets[i].cells), BucketItems(buckets[j].cells)))
  }

  // The bits below level d.
  function ShiftSum(p: Proto, d: nat): nat
    requires ProtoOk(p) && d <= 8
  {
    if d == 0 then 0 else ShiftSum(p, d - 1) + p.shift[d - 1]
  }

  // The slot of level d an entry belongs to.
  function Slot(p: Proto, d: nat, hash: nat): int
    requires ProtoOk(p) && d <= 7
  {
    hash / Pow2(ShiftSum(p, d)) % Pow2(p.shift[d])
  }

  function UsedSlots(kids: seq<Tree>, n: nat): (r: nat)
    requires n <= |kids|
    ensures r <= n
  {
    if n == 0 then 0 else UsedSlots(kids, n - 1) + if kids[n - 1].Nil? then 0 else 1
  }

  // A level, perhaps with no slot in use.
  ghost predicate LevelOk(p: Proto, t: Tree, d: nat)
    requires ProtoOk(p) && t.Level?
    decreases t, 0
  {
    && d < 7 && p.shift[d] != 0 && |t.kids| == Pow2(p.shift[d])
    && t.addr > 0 && t.addr % (8 * Pow2(p.shift[d])) == 0
    && t.count == UsedSlots(t.kids, |t.kids|)
    && (forall i | 0 <= i < |t.kids| :: TreeOk(p, t.kids[i], d + 1))
    && (forall i, x | 0 <= i < |t.kids| && x in Items(t.kids[i]) :: Slot(p, d, x.hash) == i)
  }

  // What hangs from a slot that level d would come from.  Buckets are chained
  // only where no more levels are possible.
  ghost predicate TreeOk(p: Proto, t: Tree, d: nat)
    requires ProtoOk(p)
    decreases t, 1
  {
    match t
    case Nil => true
    case Chain(buckets) => d <= 7 && ChainOk(p, buckets) && (|buckets| > 1 ==> p.shift[d] == 0)
    case Level(_, count, _) => LevelOk(p, t, d) && count >= 1
  }

  // ----- memory -----

  ghost function Addrs(t: Tree): set<Address> {
    match t
    case Nil => {}
    case Chain(buckets) => set j | 0 <= j < |buckets| :: buckets[j].addr
    case Level(addr, _, kids) => {addr} + set i, a | 0 <= i < |kids| && a in Addrs(kids[i]) :: a
  }

  function Words(kids: seq<Tree>): (s: seq<Word>)
    ensures |s| == |kids| && forall i | 0 <= i < |kids| :: s[i] == WordOf(kids[i])
  {
    seq(|kids|, i requires 0 <= i < |kids| => WordOf(kids[i]))
  }

  ghost predicate ChainHeld(mem: Memory, buckets: seq<Bucket>) {
    && (forall j | 0 <= j < |buckets| ::
          && buckets[j].addr in mem
          && mem[buckets[j].addr] == BucketBlock(buckets[j].cells, ChainWord(buckets, j + 1)))
    && (forall i, j | 0 <= i < j < |buckets| :: buckets[i].addr != buckets[j].addr)
  }

  // The blocks of the tree are in memory, each at an address of its own.
  ghost predicate Held(mem: Memory, t: Tree) {
    match t
    case Nil => true
    case Chain(buckets) => ChainHeld(mem, buckets)
    case Level(addr, _, kids) =>
      && addr in mem && mem[addr] == LevelBlock(Words(kids))
      && (forall i | 0 <= i < |kids| :: Held(mem, kids[i]) && addr !in Addrs(kids[i]))
      && (forall i, j | 0 <= i < j < |kids| :: Addrs(kids[i]) !! Addrs(kids[j]))
  }

  // Memory holds t1 instead of t0, and is otherwise the same.
  ghost predicate Replaced(m0: Memory, t0: Tree, m1: Memory, t1: Tree) {
    && Held(m1, t1)
    && m1.Keys == m0.Keys - Addrs(t0) + Addrs(t1)
    && Addrs(t1) !! (m0.Keys - Addrs(t0))
    && forall a | a in m0 && a !in Addrs(t0) :: a in m1 && m1[a] == m0[a]
  }

  lemma {:induction false} HeldKeys(mem: Memory, t: Tree)
    requires Held(mem, t)
    ensures Addrs(t) <= mem.Keys
    decreases t
  {
    if t.Level? {
      forall i | 0 <= i < |t.kids| ensures Addrs(t.kids[i]) <= mem.Keys {
        HeldKeys(mem, t.kids[i]);
      }
    }
  }

  lemma {:induction false} HeldKeeps(m0: Memory, m1: Memory, t: Tree)
    requires Held(m0, t)
    requires forall a | a in Addrs(t) && a in m0 :: a in m1 && m1[a] == m0[a]
    ensures Held(m1, t)
    decreases t
  {
    HeldKeys(m0, t);
    match t
    case Nil =>
    case Chain(buckets) =>
      forall j | 0 <= j < |buckets|
        ensures buckets[j].addr in m1 && m1[buckets[j].addr] == BucketBlock(buckets[j].cells, ChainWord(buckets, j + 1))
      {
        assert buckets[j].addr in Addrs(t);
      }
    case Level(_, _, kids) =>
      forall i | 0 <= i < |kids| ensures Held(m1, kids[i]) {
        HeldKeeps(m0, m1, kids[i]);
      }
  }

  lemma ReplacedSame(mem: Memory, t: Tree)
    requires Held(mem, t)
    ensures Replaced(mem, t, mem, t)
  {
    HeldKeys(mem, t);
  }

  lemma ReplacedTwice(m0: Memory, t0: Tree, m1: Memory, t1: Tree, m2: Memory, t2: Tree)
    requires Held(m0, t0) && Replaced(m0, t0, m1, t1) && Replaced(m1, t1, m2, t2)
    ensures Replaced(m0, t0, m2, t2)
  {
    HeldKeys(m0, t0);
  }

  // A slot of a level is replaced: what hangs from it first, then its word.
  lemma KidReplaced(m0: Memory, t0: Tree, m1: Memory, kid: Tree, i: nat, m2: Memory, count: nat)
    requires t0.Level? && i < |t0.kids| && Held(m0, t0) && Replaced(m0, t0.kids[i], m1, kid)
    requires m2 == m1[t0.addr := LevelBlock(Words(t0.kids)[i := WordOf(kid)])]
    ensures Replaced(m0, t0, m2, Level(t0.addr, count, t0.kids[i := kid]))
    ensures t0.addr in m1 && m1[t0.addr] == LevelBlock(Words(t0.kids))
  {
    var t1 := Level(t0.addr, count, t0.kids[i := kid]);
    HeldKeys(m0, t0);
    assert Words(t1.kids) == Words(t0.kids)[i := WordOf(kid)];
    assert t0.addr !in Addrs(kid);
    HeldKeeps(m1, m2, kid);
    forall j | 0 <= j < |t1.kids|
      ensures Held(m2, t1.kids[j]) && t0.addr !in Addrs(t1.kids[j])
      ensures j != i ==> Addrs(t1.kids[j]) !! Addrs(kid)
    {
      if j != i {
        KidStays(m0, t0, m1, kid, i, m2, j);
      }
    }
    assert Held(m2, t1);
    KidAddrs(m0, t0, i, kid, count);
  }

  lemma KidStays(m0: Memory, t0: Tree, m1: Memory, kid: Tree, i: nat, m2: Memory, j: nat)
    requires t0.Level? && i < |t0.kids| && j < |t0.kids| && j != i
    requires Held(m0, t0) && Replaced(m0, t0.kids[i], m1, kid)
    requires m2.Keys == m1.Keys + {t0.addr} && forall a | a in m1 && a != t0.addr :: m2[a] == m1[a]
    ensures Held(m2, t0.kids[j]) && t0.addr !in Addrs(t0.kids[j]) && Addrs(t0.kids[j]) !! Addrs(kid)
  {
    var other := t0.kids[j];
    HeldKeys(m0, other);
    assert Addrs(t0.kids[if i < j then i else j]) !! Addrs(t0.kids[if i < j then j else i]);
    HeldKeeps(m0, m2, other);
  }

  lemma KidAddrs(mem: Memory, t: Tree, i: nat, kid: Tree, count: nat)
    requires t.Level? && i < |t.kids| && Held(mem, t)
    ensures Addrs(Level(t.addr, count, t.kids[i := kid])) == Addrs(t) - Addrs(t.kids[i]) + Addrs(kid)
  {
    var t1 := Level(t.addr, count, t.kids[i := kid]);
    forall a | a in Addrs(t) && a !in Addrs(t.kids[i]) ensures a in Addrs(t1) {
      if a != t.addr {
        var j :| 0 <= j < |t.kids| && a in Addrs(t.kids[j]);
        assert a in Addrs(t1.kids[j]);
      }
    }
    forall a | a in Addrs(kid) ensures a in Addrs(t1) {
      assert a in Addrs(t1.kids[i]);
    }
    forall a | a in Addrs(t1) ensures a in Addrs(kid) || (a in Addrs(t) && a !in Addrs(t.kids[i])) {
      if a != t.addr {
        var j :| 0 <= j < |t.kids| && a in Addrs(t1.kids[j]);
        assert j != i ==> a in Addrs(t.kids[j]);
      }
    }
  }
}
