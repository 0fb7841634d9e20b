// The level hash itself: a slot and the blocks of memory that hang from it,
// changed in place.
module LevelHash {
  import opened Wrappers
  import opened Allocations
  import opened Arithmetic
  import opened LevelHashTree
  import opened LevelHashChains
  import opened LevelHashLevels
  import opened LevelHashQueries
  import opened LevelHashSpread
  import opened LevelHashSteps

  class Table {
    const p: Proto
    const memory: seq<bool>
    var asked: nat
    var slot: Word
    var mem: Memory
    ghost var tree: Tree
    // The hash as a map from hashes and keys to values.
    ghost var contents: map<(nat, string), nat>

    // Memory holds the blocks of the tree and no others.
    ghost predicate Valid()
      reads this
    {
      && ProtoOk(p) && Held(mem, tree) && mem.Keys == Addrs(tree) && Positive(mem) && slot == WordOf(tree)
      && TreeOk(p, tree, 0) && Stores(p, Items(tree), contents)
    }

    constructor (p: Proto, memory: seq<bool>)
      requires ProtoOk(p)
      ensures Valid() && contents == map[] && this.p == p && this.memory == memory && asked == 0
    {
      this.p, this.memory, asked := p, memory, 0;
      slot, mem := 0, map[];
      tree, contents := Nil, map[];
    }

    // An allocation fails or gives an aligned block of its own.
    method Alloc(size: nat) returns (a: Address)
      requires size > 0
      modifies this`asked
      ensures asked == old(asked) + 1 && (a == 0 <==> !Granted(memory, old(asked)))
      ensures a != 0 ==> a > 0 && a % size == 0 && a !in mem
    {
      asked := asked + 1;
      if !Granted(memory, asked - 1) {
        return 0;
      }
      FreshAddress(mem, size);
      a :| a > 0 && a % size == 0 && a !in mem;
    }

    // The search of one bucket: the entry found, or else a vacant place if
    // there is one.  Cells behind the last entry in use are never looked at.
    method Scan(cells: seq<Cell>, count: nat, hash: nat, key: string) returns (at: Option<nat>, vacant: Option<nat>)
      requires CellsOk(p, cells, count) && count >= 1
      ensures match at
              case Some(i) => i < |cells| && Taken(cells[i]) && Matches(p, CellItem(cells[i]), hash, key)
              case None =>
                && Absent(p, BucketItems(cells), hash, key)
                && match vacant
                   case Some(i) =>
                     i < |cells| && !Taken(cells[i]) && forall k | 0 <= k < i :: cells[k].Entry?
                   case None => count == |cells|
    {
      var i, n := 0, count;
      vacant := None;
      while n != 0
        invariant 0 <= i <= |cells| && n == count - TakenCount(cells, i)
        invariant forall k | 0 <= k < i :: cells[k].Entry?
        invariant forall k | 0 <= k < i && Taken(cells[k]) :: !Matches(p, CellItem(cells[k]), hash, key)
        invariant match vacant
                  case Some(v) => v < i && !Taken(cells[v])
                  case None => TakenCount(cells, i) == i
        decreases |cells| - i
      {
        ghost var ahead := TakenAhead(cells, i, |cells|);
        assert cells[i].Entry?;
        if cells[i].value != 0 {
          if cells[i].hash == hash && p.keyOf(cells[i].value) == key {
            return Some(i), None;
          }
          n := n - 1;
        } else if vacant == None {
          vacant := Some(i);
        }
        i := i + 1;
      }
      if i < |cells| && vacant == None {
        vacant := Some(i);
        NoneAhead(cells, i, |cells|, i);
      }
      at := None;
      forall k | 0 <= k < |cells| && Taken(cells[k]) ensures k < i {
        if k >= i {
          NoneAhead(cells, i, |cells|, k);
        }
      }
    }

    // ----- find -----

    method Find(hash: nat, key: string) returns (r: Option<nat>)
      requires Valid()
      ensures r == if (hash, key) in contents then Some(contents[(hash, key)]) else None
    {
      if slot == 0 {
        return None;
      }
      WordKind(p, tree, 0);
      if IsBucket(slot) {
        r := BucketFind(slot, hash, key, tree, 0);
      } else {
        r := LevelFind(slot, hash, 0, hash, key, tree);
      }
    }

    method LevelFind(w: Word, bits: nat, d: nat, hash: nat, key: string, ghost t: Tree) returns (r: Option<nat>)
      requires ProtoOk(p) && t.Level? && TreeOk(p, t, d) && Held(mem, t) && w == WordOf(t)
      requires d <= 7 && bits == hash / Pow2(ShiftSum(p, d))
      ensures Found(p, Items(t), hash, key, r)
      decreases 7 - d
    {
      hide TreeOk, Held, LevelAddr, LevelOk, Found, Items, Pow2, ShiftSum;
      LevelRead(p, mem, t, d, w, hash);
      var i := bits % Pow2(p.shift[d]);
      var next := mem[LevelAddr(w, p.shift[d])].slots[i];
      ghost var kid := t.kids[i];
      if next == 0 {
        r := None;
        NoneFound(p, hash, key);
      } else if IsBucket(next) {
        r := BucketFind(next, hash, key, kid, d + 1);
      } else {
        SlotShift(p, d, hash);
        r := LevelFind(next, bits / Pow2(p.shift[d]), d + 1, hash, key, kid);
      }
      FoundInSlot(p, t, d, hash, key, r);
    }

    method BucketFind(w: Word, hash: nat, key: string, ghost t: Tree, ghost d: nat) returns (r: Option<nat>)
      requires ProtoOk(p) && t.Chain? && TreeOk(p, t, d) && Held(mem, t) && w == WordOf(t)
      ensures Found(p, Items(t), hash, key, r)
    {
      hide TreeOk, Held, Items, BucketAddr, BucketEntries, CellsOk;
      ghost var buckets := t.buckets;
      var bkt := w;
      ghost var j := 0;
      while bkt != 0
        invariant 0 <= j <= |buckets| && bkt == ChainWord(buckets, j)
        invariant forall i | 0 <= i < j :: Absent(p, BucketItems(buckets[i].cells), hash, key)
        decreases |buckets| - j
      {
        BucketAt(p, mem, t, d, j);
        var bucket := BucketAddr(p, bkt);
        var at, vacant := Scan(mem[bucket].cells, BucketEntries(p, bkt), hash, key);
        if at.Some? {
          r := Some(mem[bucket].cells[at.value].value);
          ItemOf(buckets, j, at.value);
          return;
        }
        bkt := mem[bucket].next;
        j := j + 1;
      }
      r := None;
      ChainEnds(p, t, d, j);
      ChainAbsent(p, buckets, hash, key);
    }

    // ----- insert -----

    method Insert(q: Query) returns (status: Status, out: nat)
      requires Valid() && QueryOk(p, q)
      modifies this
      ensures Valid()
      ensures var k := (q.hash, q.key);
              match status
              case OK =>
                && contents == old(contents)[k := q.value]
                && (if k in old(contents) then q.replace && out == old(contents)[k] else out == q.value)
              case DECLINED => k in old(contents) && !q.replace && out == old(contents)[k] && contents == old(contents)
              case ERROR => k !in old(contents) && contents == old(contents)
      ensures old(asked) <= asked && (status == ERROR <==> !Served(memory, old(asked), asked))
    {
      hide TreeOk, Held, Items, Stores, Inserted, Addrs;
      ghost var t;
      WordKind(p, tree, 0);
      SlotStart(p, q.hash);
      if slot != 0 {
        if IsBucket(slot) {
          status, slot, out, t := BucketInsert(slot, q.hash, 0, q, tree);
        } else {
          status, slot, out, t := LevelInsert(slot, q.hash, 0, q, tree);
        }
      } else {
        status, slot, t := SlotInsert(q, 0);
        out := q.value;
      }
      StoresInserted(p, Items(tree), Items(t), q, status, out, contents);
      tree := t;
      contents := if status == OK then contents[(q.hash, q.key) := q.value] else contents;
    }

    // A bucket with one entry.
    method NewBucket(value: nat, hash: nat) returns (status: Status, w: Word, ghost b: Bucket)
      requires ProtoOk(p) && value != 0 && Positive(mem)
      modifies this`mem, this`asked
      ensures Positive(mem) && (status == OK || status == ERROR)
      ensures status == ERROR ==> mem == old(mem) && w == 0
      ensures status == OK ==>
                && b.addr !in old(mem) && mem == old(mem)[b.addr := BucketBlock(b.cells, 0)] && w == BucketWord(b)
                && BucketOk(p, b) && b.count == 1 && BucketItems(b.cells) == {Item(hash, value)}
                && forall k | 0 <= k < |b.cells| :: Taken(b.cells[k]) <==> k < 1
      ensures old(asked) <= asked && (status == ERROR <==> !Served(memory, old(asked), asked))
    {
      var bucket := Alloc(p.bucketSize);
      w, b := 0, Bucket(bucket, FirstCells(p, value, hash), 1);
      if bucket == 0 {
        return ERROR, w, b;
      }
      mem := mem[bucket := BucketBlock(FirstCells(p, value, hash), 0)];
      CellsFirst(p, value, hash);
      status, w := OK, bucket + 2 + 1;
    }

    method LevelInsert(w: Word, bits: nat, d: nat, q: Query, ghost t: Tree)
      returns (status: Status, w': Word, out: nat, ghost t': Tree)
      requires ProtoOk(p) && QueryOk(p, q) && t.Level? && TreeOk(p, t, d) && Held(mem, t) && w == WordOf(t)
      requires d < 7 && bits == q.hash / Pow2(ShiftSum(p, d)) && Positive(mem)
      modifies this`mem, this`asked
      ensures Changed(p, old(mem), t, mem, t', w', d) && Inserted(p, Items(t), Items(t'), q, status, out) && !t'.Nil?
      ensures old(asked) <= asked && (status == ERROR <==> !Served(memory, old(asked), asked))
      decreases 8 - d, 0
    {
      hide TreeOk, Held, LevelAddr, Replaced, LevelOk, Items;
      LevelRead(p, mem, t, d, w, q.hash);
      QueryInSlot(p, t, d, q.hash, q.key);
      var s := p.shift[d];
      var lvl, i := LevelAddr(w, s), bits % Pow2(s);
      var next := mem[lvl].slots[i];
      ghost var kid, kid' := t.kids[i], t.kids[i];
      w' := w;
      if next != 0 {
        SlotShift(p, d, q.hash);
        if IsBucket(next) {
          status, next, out, kid' := BucketInsert(next, bits / Pow2(s), d + 1, q, kid);
        } else {
          status, next, out, kid' := LevelInsert(next, bits / Pow2(s), d + 1, q, kid);
        }
      } else {
        status, next, kid' := SlotInsert(q, d + 1);
        out := q.value;
        w' := if status == OK then w + 2 else w;
      }
      InsertedInSlot(p, t, d, kid', q, status, out);
      LevelKept(p, old(mem), t, d, i, mem, kid');
      ghost var m1 := mem;
      mem := mem[lvl := LevelBlock(mem[lvl].slots[i := next])];
      t' := LevelPut(p, old(mem), t, d, i, m1, kid', mem);
    }

    method BucketInsert(w: Word, bits: nat, d: nat, q: Query, ghost t: Tree)
      returns (status: Status, w': Word, out: nat, ghost t': Tree)
      requires ProtoOk(p) && QueryOk(p, q) && t.Chain? && TreeOk(p, t, d) && Held(mem, t) && w == WordOf(t)
      requires d <= 7 && bits == q.hash / Pow2(ShiftSum(p, d)) && Positive(mem)
      modifies this`mem, this`asked
      ensures Changed(p, old(mem), t, mem, t', w', d) && Inserted(p, Items(t), Items(t'), q, status, out) && !t'.Nil?
      ensures old(asked) <= asked && (status == ERROR <==> !Served(memory, old(asked), asked))
      decreases 8 - d, 1
    {
      var at;
      var place: Option<Place>;
      ghost var j;
      var bucket;
      at, place, bucket, j := BucketSearch(w, d, q, t);
      if at.Some? {
        // A duplicate.
        var block := mem[bucket];
        out := block.cells[at.value].value;
        if q.replace {
          mem := mem[bucket := BucketBlock(block.cells[at.value := Entry(q.value, q.hash)], block.next)];
          t' := ValueWritten(p, old(mem), t, d, j, at.value, q, mem);
          return OK, w, out, t';
        }
        ItemOf(t.buckets, j, at.value);
        ReplacedSame(mem, t);
        return DECLINED, w, out, t;
      }
      out := q.value;
      if place.Some? {
        status := OK;
        w', t' := TakePlace(w, d, q, place.value, t, j);
      } else if p.shift[d] != 0 {
        status, w', t' := Convert(bucket, d, t);
        if status == OK {
          ghost var m1, t1 := mem, t';
          status, w', out, t' := LevelInsert(w', bits, d, q, t1);
          ReplacedTwice(old(mem), t, m1, t1, mem, t');
        } else {
          w', t' := w, t;
          ReplacedSame(mem, t);
        }
      } else {
        status, t' := AddBucket(bucket, d, q, t);
        w' := w;
      }
    }

    // The entry is put in a vacant place, and the count at the link goes up.
    method TakePlace(w: Word, d: nat, q: Query, v: Place, ghost t: Tree, ghost j: nat)
      returns (w': Word, ghost t': Tree)
      requires ProtoOk(p) && QueryOk(p, q) && t.Chain? && TreeOk(p, t, d) && Held(mem, t) && w == WordOf(t)
      requires PlaceOk(t.buckets, j, v) && Absent(p, Items(t), q.hash, q.key) && Positive(mem)
      modifies this`mem
      ensures Changed(p, old(mem), t, mem, t', w', d) && Items(t') == Items(t) + {Item(q.hash, q.value)} && t'.Chain?
    {
      hide TreeOk, Items, Absent, Replaced;
      var block := mem[v.bucket];
      mem := mem[v.bucket := BucketBlock(block.cells[v.entry := Entry(q.value, q.hash)], block.next)];
      w' := w;
      if v.link == 0 {
        w' := w + 2;
      } else {
        mem := mem[v.link := BucketBlock(mem[v.link].cells, mem[v.link].next + 2)];
      }
      t' := EntryWritten(p, old(mem), t, d, j, v, q, mem);
    }

    // A bucket for the end of a chain.
    method AddBucket(link: Address, d: nat, q: Query, ghost t: Tree) returns (status: Status, ghost t': Tree)
      requires ProtoOk(p) && QueryOk(p, q) && t.Chain? && TreeOk(p, t, d) && Held(mem, t) && p.shift[d] == 0
      requires link == LinkAddr(t.buckets, |t.buckets|) && Absent(p, Items(t), q.hash, q.key) && Positive(mem)
      modifies this`mem, this`asked
      ensures Changed(p, old(mem), t, mem, t', WordOf(t), d) && Inserted(p, Items(t), Items(t'), q, status, q.value)
      ensures t'.Chain?
      ensures old(asked) <= asked && (status == ERROR <==> !Served(memory, old(asked), asked))
    {
      ghost var b;
      var w;
      status, w, b := NewBucket(q.value, q.hash);
      t' := t;
      if status == OK {
        mem := mem[link := BucketBlock(mem[link].cells, w)];
        ChainAppended(old(mem), t.buckets, b, mem);
        BucketAdded(p, t, d, b, q);
        t' := Chain(t.buckets + [b]);
      } else {
        ReplacedSame(mem, t);
      }
    }

    // Search for a duplicate entry in the chain: bucket is where it is, at, or
    // the last one.  The first vacant place is remembered.
    method BucketSearch(w: Word, d: nat, q: Query, ghost t: Tree)
      returns (at: Option<nat>, place: Option<Place>, bucket: Address, ghost j: nat)
      requires ProtoOk(p) && t.Chain? && TreeOk(p, t, d) && Held(mem, t) && w == WordOf(t)
      ensures j < |t.buckets|
      ensures match at
              case Some(i) =>
                && bucket == t.buckets[j].addr && i < |t.buckets[j].cells| && Taken(t.buckets[j].cells[i])
                && Matches(p, CellItem(t.buckets[j].cells[i]), q.hash, q.key)
              case None =>
                && Absent(p, Items(t), q.hash, q.key)
                && match place
                   case Some(v) => PlaceOk(t.buckets, j, v)
                   case None =>
                     && bucket == t.buckets[j].addr && j == |t.buckets| - 1
                     && forall k | 0 <= k < |t.buckets| :: t.buckets[k].count == p.entries
    {
      hide TreeOk, Held, Items, BucketAddr, BucketEntries, CellsOk;
      ghost var buckets := t.buckets;
      var bkt, link := w, 0;
      place := None;
      ghost var v, n := 0, 0;
      bucket, j := 0, 0;
      while bkt != 0
        invariant 0 <= n <= |buckets| && bkt == ChainWord(buckets, n) && link == LinkAddr(buckets, n)
        invariant n > 0 ==> bucket == buckets[n - 1].addr
        invariant forall i | 0 <= i < n :: Absent(p, BucketItems(buckets[i].cells), q.hash, q.key)
        invariant match place
                  case Some(u) => v < n && PlaceOk(buckets, v, u)
                  case None => forall i | 0 <= i < n :: buckets[i].count == p.entries
        decreases |buckets| - n
      {
        BucketAt(p, mem, t, d, n);
        bucket := BucketAddr(p, bkt);
        var vacant;
        at, vacant := Scan(mem[bucket].cells, BucketEntries(p, bkt), q.hash, q.key);
        if at.Some? {
          j := n;
          return;
        }
        if vacant.Some? && place.None? {
          place, v := Some(Place(bucket, vacant.value, link)), n;
        }
        link := bucket;
        bkt := mem[bucket].next;
        n := n + 1;
      }
      ChainEnds(p, t, d, n);
      ChainAbsent(p, buckets, q.hash, q.key);
      at := None;
      j := if place.Some? then v else |buckets| - 1;
    }

    // ----- conversion -----

    // A full bucket becomes a level.
    method Convert(bucket: Address, d: nat, ghost t: Tree) returns (status: Status, w: Word, ghost t': Tree)
      requires ProtoOk(p) && t.Chain? && TreeOk(p, t, d) && Held(mem, t) && Positive(mem) && d < 7 && p.shift[d] != 0
      requires bucket == t.buckets[0].addr && t.buckets[0].count == p.entries
      modifies this`mem, this`asked
      ensures status == OK || (status == ERROR && mem == old(mem))
      ensures status == OK ==> Changed(p, old(mem), t, mem, t', w, d) && Items(t') == Items(t) && t'.Level?
      ensures old(asked) <= asked && (status == ERROR <==> !Served(memory, old(asked), asked))
    {
      hide TreeOk, LevelOk, Held, Items, BucketItems, Compact, CellsOk, EmptyLevel;
      var size := Pow2(p.shift[d]);
      var level := Alloc(8 * size);
      w, t' := 0, t;
      if level == 0 {
        return ERROR, w, t';
      }
      FullBucket(p, t, d);
      ghost var m0, cells := mem, t.buckets[0].cells;
      mem := mem[level := LevelBlock(seq(size, i => 0))];
      EmptyLevelOk(p, m0, level, d);
      w, t' := level, EmptyLevel(p, level, d);
      var e := 0;
      while e < p.entries
        invariant 0 <= e <= p.entries && Positive(mem)
        invariant Spread(t', e) && Replaced(m0, Nil, mem, t') && LevelOk(p, t', d) && t'.addr == level
                  && w == WordOf(t')
        invariant |t'.kids| == size && Items(t') == BucketItems(cells[..e]) && (e > 0 ==> t'.count >= 1)
        invariant old(asked) <= asked && Served(memory, old(asked), asked)
      {
        BucketStays(m0, t, mem, t');
        FirstItems(p, cells, p.entries, e);
        var entry := mem[bucket].cells[e];
        ghost var m1, t1 := mem, t';
        status, w, t' := ConvertInsert(w, entry.hash / Pow2(ShiftSum(p, d)), d, entry.value, entry.hash, t1, e);
        ReplacedTwice(m0, Nil, m1, t1, mem, t');
        if status != OK {
          FreeLevel(level, size, t', d, m0, e + 1);
          t' := t;
          return ERROR, w, t';
        }
        e := e + 1;
      }
      assert cells[..e] == cells;
      status := OK;
      ghost var m1 := mem;
      mem := mem - {bucket};
      HeldKeys(m0, t);
      BucketGivesWay(m0, t, m1, t', mem);
      LevelIsTree(p, t', d);
    }

    // An entry of the bucket is put in the level: no test is needed, and there
    // is room in its slot.
    method ConvertInsert(w: Word, bits: nat, d: nat, value: nat, hash: nat, ghost t: Tree, ghost n: nat)
      returns (status: Status, w': Word, ghost t': Tree)
      requires ProtoOk(p) && t.Level? && LevelOk(p, t, d) && Held(mem, t) && w == WordOf(t) && Positive(mem)
      requires bits == hash / Pow2(ShiftSum(p, d)) && value != 0 && Spread(t, n) && n < p.entries
      requires Apart(p, Items(t), {Item(hash, value)})
      modifies this`mem, this`asked
      ensures Spread(t', n + 1) && t'.addr == t.addr && |t'.kids| == |t.kids|
      ensures Replaced(old(mem), t, mem, t') && LevelOk(p, t', d) && w' == WordOf(t') && Positive(mem)
      ensures status == OK ==> Items(t') == Items(t) + {Item(hash, value)} && t'.count >= 1
      ensures status == OK || status == ERROR
      ensures old(asked) <= asked && (status == ERROR <==> !Served(memory, old(asked), asked))
    {
      hide Held, Replaced, LevelAddr, Items, LevelOk, TreeOk;
      LevelSlotRead(p, mem, t, d, w, hash);
      var s := p.shift[d];
      var lvl, i := LevelAddr(w, s), bits % Pow2(s);
      var slot := mem[lvl].slots[i];
      ghost var kid, kid' := t.kids[i], t.kids[i];
      w', status := w, OK;
      SlotItems(p, t, d, i);
      if slot == 0 {
        ghost var b;
        status, slot, b := NewBucket(value, hash);
        if status == OK {
          OneBucket(p, old(mem), b, mem, d + 1);
          kid' := Chain([b]);
          w' := w + 2;
        } else {
          ReplacedSame(mem, kid);
        }
      } else {
        slot, kid' := SpreadInsert(slot, d + 1, value, hash, kid, n);
      }
      LevelKept(p, old(mem), t, d, i, mem, kid');
      ghost var m1 := mem;
      mem := mem[lvl := LevelBlock(mem[lvl].slots[i := slot])];
      t' := LevelPut(p, old(mem), t, d, i, m1, kid', mem);
      assert status == OK ==> Items(t) - Items(kid) + Items(kid') == Items(t) + {Item(hash, value)};
      assert status != OK ==> Items(t) - Items(kid) + Items(kid') == Items(t);
      SpreadKid(t, i, kid', n, t'.count);
    }

    // The entry goes right after those in use.
    method SpreadInsert(w: Word, ghost d: nat, value: nat, hash: nat, ghost t: Tree, ghost n: nat)
      returns (w': Word, ghost t': Tree)
      requires ProtoOk(p) && t.Chain? && TreeOk(p, t, d) && Held(mem, t) && w == WordOf(t) && Positive(mem)
      requires value != 0 && Compact(t, n) && n < p.entries && Apart(p, Items(t), {Item(hash, value)})
      modifies this`mem
      ensures Changed(p, old(mem), t, mem, t', w', d) && Compact(t', n + 1) && t'.Chain?
      ensures Items(t') == Items(t) + {Item(hash, value)}
    {
      ghost var b := t.buckets[0];
      TakenAtMost(p, b);
      BucketRead(p, b);
      SpreadBucket(p, t, d, n, value, hash);
      var bucket, e := BucketAddr(p, w), BucketEntries(p, w);
      var block := mem[bucket];
      if e < p.entries {
        mem := mem[bucket := BucketBlock(block.cells[e := Entry(value, hash)], block.next)];
        w' := w + 2;
      } else {
        // A chain or another conversion would be needed.
        assert false;
      }
      ghost var b1 := Bucket(b.addr, b.cells[b.count := Entry(value, hash)], b.count + 1);
      t' := Chain([b1]);
      ChainWritten(old(mem), t.buckets, 0, b1, mem);
    }

    method FreeLevel(level: Address, size: nat, ghost t: Tree, ghost d: nat, ghost m0: Memory, ghost n: nat)
      requires ProtoOk(p) && t.Level? && Replaced(m0, Nil, mem, t) && Spread(t, n) && size == |t.kids|
      requires level == t.addr && LevelOk(p, t, d)
      modifies this`mem
      ensures mem == m0
    {
      hide LevelOk, TreeOk, BucketAddr, Items, Compact;
      HeldKeys(mem, t);
      ghost var m1 := mem;
      KidAddrsAll(t);
      var slots := mem[level].slots;
      var i := 0;
      while i < size
        invariant 0 <= i <= size
        invariant mem.Keys == m0.Keys + {level} + KidAddrsFrom(t.kids, i)
        invariant forall a | a in mem :: a in m1 && mem[a] == m1[a]
      {
        KidAddrsStep(m1, t, i);
        SpreadAddr(p, t, d, n, i);
        if slots[i] != 0 {
          mem := mem - {BucketAddr(p, slots[i])};
        }
        i := i + 1;
      }
      mem := mem - {level};
      SameMemory(m0, m1, t, mem);
    }

    // A bucket for an empty slot.
    method SlotInsert(q: Query, ghost d: nat) returns (status: Status, w: Word, ghost t: Tree)
      requires ProtoOk(p) && QueryOk(p, q) && Positive(mem) && d <= 7
      modifies this`mem, this`asked
      ensures Changed(p, old(mem), Nil, mem, t, w, d) && Inserted(p, Items(Nil), Items(t), q, status, q.value)
      ensures (status == OK && t.Chain?) || (status == ERROR && t == Nil && mem == old(mem))
      ensures old(asked) <= asked && (status == ERROR <==> !Served(memory, old(asked), asked))
    {
      ghost var b;
      status, w, b := NewBucket(q.value, q.hash);
      t := if status == OK then Chain([b]) else Nil;
      if status == OK {
        OneBucket(p, old(mem), b, mem, d);
      }
    }

    // ----- delete -----

    method Delete(hash: nat, key: string) returns (status: Status, out: nat)
      requires Valid()
      modifies this
      ensures Valid()
      ensures status == (if (hash, key) in old(contents) then OK else DECLINED)
      ensures status == OK ==> out == old(contents)[(hash, key)]
      ensures contents == old(contents) - {(hash, key)}
    {
      hide TreeOk, Held, Items, Stores, Addrs;
      ghost var t := tree;
      WordKind(p, tree, 0);
      SlotStart(p, hash);
      status, out := DECLINED, 0;
      if slot != 0 {
        if IsBucket(slot) {
          status, slot, out, t := BucketDelete(slot, 0, hash, key, tree);
        } else {
          status, slot, out, t := LevelDelete(slot, hash, 0, hash, key, tree);
        }
      } else {
        ReplacedSame(mem, tree);
        SlotItemsNil();
      }
      StoresDeleted(p, Items(tree), Items(t), hash, key, status, out, contents);
      tree := t;
      contents := contents - {(hash, key)};
    }

    method LevelDelete(w: Word, bits: nat, d: nat, hash: nat, key: string, ghost t: Tree)
      returns (status: Status, w': Word, out: nat, ghost t': Tree)
      requires ProtoOk(p) && t.Level? && TreeOk(p, t, d) && Held(mem, t) && w == WordOf(t)
      requires d < 7 && bits == hash / Pow2(ShiftSum(p, d)) && Positive(mem)
      modifies this`mem
      ensures Changed(p, old(mem), t, mem, t', w', d) && Deleted(p, Items(t), Items(t'), hash, key, status, out)
      decreases 8 - d, 0
    {
      hide TreeOk, Held, LevelAddr, LevelOk, Items;
      LevelRead(p, mem, t, d, w, hash);
      QueryInSlot(p, t, d, hash, key);
      SlotItemsNil();
      var s := p.shift[d];
      var lvl, i := LevelAddr(w, s), bits % Pow2(s);
      var next := mem[lvl].slots[i];
      ghost var kid, kid' := t.kids[i], t.kids[i];
      if next == 0 {
        ReplacedSame(mem, t);
        return DECLINED, w, 0, t;
      }
      if IsBucket(next) {
        status, next, out, kid' := BucketDelete(next, d + 1, hash, key, kid);
      } else {
        SlotShift(p, d, hash);
        status, next, out, kid' := LevelDelete(next, bits / Pow2(s), d + 1, hash, key, kid);
      }
      DeletedInSlot(p, t, d, kid', hash, key, status, out);
      LevelKept(p, old(mem), t, d, i, mem, kid');
      ghost var m1 := mem;
      mem := mem[lvl := LevelBlock(mem[lvl].slots[i := next])];
      t' := LevelPut(p, old(mem), t, d, i, m1, kid', mem);
      w' := w;
      WordKind(p, kid', d + 1);
      if next == 0 {
        ghost var m2, t2 := mem, t';
        assert t2.kids[i].Nil?;
        w', t' := SlotEmptied(w, lvl, d, t2);
        ReplacedTwice(old(mem), t, m2, t2, mem, t');
      }
    }

    // A slot of the level was emptied: its count goes down, and a level with no
    // slot in use is freed.
    method SlotEmptied(w: Word, lvl: Address, d: nat, ghost t: Tree) returns (w': Word, ghost t': Tree)
      requires ProtoOk(p) && t.Level? && LevelOk(p, t, d) && Held(mem, t) && w - 2 == WordOf(t) && lvl == t.addr
      requires Positive(mem) && exists i :: 0 <= i < |t.kids| && t.kids[i].Nil?
      modifies this`mem
      ensures Changed(p, old(mem), t, mem, t', w', d) && Items(t') == Items(t)
    {
      hide Held, LevelAddr, LevelOk, Items;
      w', t' := w - 2, t;
      LevelCount(p, t, d);
      LevelIsTree(p, t, d);
      if LevelEntries(w', p.shift[d]) == 0 {
        mem := mem - {lvl};
        w', t' := 0, Nil;
        EmptyLevelGone(p, old(mem), t, d, mem);
      } else {
        ReplacedSame(mem, t);
      }
    }

    method BucketDelete(w: Word, d: nat, hash: nat, key: string, ghost t: Tree)
      returns (status: Status, w': Word, out: nat, ghost t': Tree)
      requires ProtoOk(p) && t.Chain? && TreeOk(p, t, d) && Held(mem, t) && w == WordOf(t) && Positive(mem)
      modifies this`mem
      ensures Changed(p, old(mem), t, mem, t', w', d) && Deleted(p, Items(t), Items(t'), hash, key, status, out)
      decreases 8 - d, 1
    {
      hide TreeOk, Held, Items, BucketAddr, BucketEntries, CellsOk, Replaced;
      ghost var buckets := t.buckets;
      var bkt, link := w, 0;
      ghost var j := 0;
      w', out := w, 0;
      while bkt != 0
        invariant 0 <= j <= |buckets| && bkt == ChainWord(buckets, j) && link == LinkAddr(buckets, j)
        invariant forall i | 0 <= i < j :: Absent(p, BucketItems(buckets[i].cells), hash, key)
        invariant mem == old(mem) && w' == w
        decreases |buckets| - j
      {
        BucketAt(p, mem, t, d, j);
        var bucket, n := BucketAddr(p, bkt), BucketEntries(p, bkt);
        var at, vacant := Scan(mem[bucket].cells, n, hash, key);
        if at.Some? {
          out := mem[bucket].cells[at.value].value;
          w', t' := Remove(w, d, bucket, n, link, at.value, hash, key, t, j);
          return OK, w', out, t';
        }
        link := bucket;
        bkt := mem[bucket].next;
        j := j + 1;
      }
      ChainEnds(p, t, d, j);
      ChainAbsent(p, buckets, hash, key);
      ReplacedSame(mem, t);
      status, t' := DECLINED, t;
    }

    // The entry is removed; with its last entry the bucket is freed.
    method Remove(w: Word, d: nat, bucket: Address, n: nat, link: Address, at: nat, hash: nat, key: string,
                  ghost t: Tree, ghost j: nat) returns (w': Word, ghost t': Tree)
      requires ProtoOk(p) && t.Chain? && TreeOk(p, t, d) && Held(mem, t) && w == WordOf(t) && Positive(mem)
      requires j < |t.buckets| && bucket == t.buckets[j].addr && n == t.buckets[j].count
               && link == LinkAddr(t.buckets, j)
      requires var cells := t.buckets[j].cells;
               at < |cells| && Taken(cells[at]) && Matches(p, CellItem(cells[at]), hash, key)
      modifies this`mem
      ensures Changed(p, old(mem), t, mem, t', w', d)
      ensures Deleted(p, Items(t), Items(t'), hash, key, OK, t.buckets[j].cells[at].value)
    {
      hide TreeOk, Held, Items, Replaced, Deleted, Matches;
      LinkAt(p, mem, t, d, j);
      w' := w;
      var block := mem[bucket];
      if n == 1 {
        if link == 0 {
          w' := block.next;
        } else {
          mem := mem[link := BucketBlock(mem[link].cells, block.next)];
        }
        mem := mem - {bucket};
        t' := LastEntryRemoved(p, old(mem), t, d, j, at, hash, key, mem);
      } else {
        if link == 0 {
          w' := w - 2;
        } else {
          mem := mem[link := BucketBlock(mem[link].cells, mem[link].next - 2)];
        }
        mem := mem[bucket := BucketBlock(mem[bucket].cells[at := Entry(0, hash)], mem[bucket].next)];
        t' := EntryCleared(p, old(mem), t, d, j, at, hash, key, mem);
      }
    }
  }
}
