// What one insertion or deletion makes of a chain of buckets.
module LevelHashQueries {
  import opened Wrappers
  import opened Arithmetic
  import opened LevelHashTree
  import opened LevelHashChains
  import opened LevelHashLevels

  // Entry i of bucket j gets the value of the query.
  lemma ValueReplaced(p: Proto, t: Tree, d: nat, j: nat, i: nat, q: Query)
    requires ProtoOk(p) && QueryOk(p, q) && t.Chain? && TreeOk(p, t, d) && j < |t.buckets|
    requires var cells := t.buckets[j].cells;
             i < |cells| && Taken(cells[i]) && Matches(p, CellItem(cells[i]), q.hash, q.key)
    ensures var b := t.buckets[j];
            var b1 := b.(cells := b.cells[i := Entry(q.value, q.hash)]);
            var t1 := Chain(t.buckets[j := b1]);
            && TreeOk(p, t1, d)
            && Item(q.hash, b.cells[i].value) in Items(t)
            && Items(t1) == Items(t) - {Item(q.hash, b.cells[i].value)} + {Item(q.hash, q.value)}
  {
    hide BucketItems;
    var b := t.buckets[j];
    var x := CellItem(b.cells[i]);
    var b1 := b.(cells := b.cells[i := Entry(q.value, q.hash)]);
    CellsSet(p, b.cells, b.count, i, q.value);
    ItemOf(t.buckets, j, i);
    forall k | 0 <= k < |t.buckets| && k != j
      ensures Apart(p, BucketItems(t.buckets[k].cells), BucketItems(b1.cells) - BucketItems(b.cells))
    {
      assert Apart(p, BucketItems(t.buckets[if k < j then k else j].cells),
                   BucketItems(t.buckets[if k < j then j else k].cells));
    }
    ChainChanges(p, t.buckets, j, b1);
    forall y | y in BucketItems(b.cells) ensures y in Items(t) {
    }
  }

  lemma ItemOf(buckets: seq<Bucket>, j: nat, i: nat)
    requires j < |buckets| && i < |buckets[j].cells| && Taken(buckets[j].cells[i])
    ensures CellItem(buckets[j].cells[i]) in BucketItems(buckets[j].cells)
    ensures CellItem(buckets[j].cells[i]) in Items(Chain(buckets))
  {
    assert CellItem(buckets[j].cells[i]) in BucketItems(buckets[j].cells);
  }

  // The vacant place i of bucket j is taken.
  lemma EntryAdded(p: Proto, t: Tree, d: nat, j: nat, i: nat, q: Query)
    requires ProtoOk(p) && QueryOk(p, q) && t.Chain? && TreeOk(p, t, d) && j < |t.buckets|
    requires var cells := t.buckets[j].cells;
             i < |cells| && !Taken(cells[i]) && forall k | 0 <= k < i :: cells[k].Entry?
    requires Absent(p, Items(t), q.hash, q.key)
    ensures var b := t.buckets[j];
            var b1 := Bucket(b.addr, b.cells[i := Entry(q.value, q.hash)], b.count + 1);
            var t1 := Chain(t.buckets[j := b1]);
            TreeOk(p, t1, d) && Items(t1) == Items(t) + {Item(q.hash, q.value)}
  {
    hide BucketItems;
    var b := t.buckets[j];
    var b1 := Bucket(b.addr, b.cells[i := Entry(q.value, q.hash)], b.count + 1);
    forall y | y in BucketItems(b.cells) ensures y in Items(t) {
    }
    CellsAdd(p, b.cells, b.count, i, q.value, q.hash);
    forall k | 0 <= k < |t.buckets| && k != j
      ensures Apart(p, BucketItems(t.buckets[k].cells), BucketItems(b1.cells) - BucketItems(b.cells))
    {
      forall y | y in BucketItems(t.buckets[k].cells) ensures y in Items(t) {
      }
    }
    ChainChanges(p, t.buckets, j, b1);
  }

  // A bucket with the one new entry hangs at the end.
  lemma BucketAdded(p: Proto, t: Tree, d: nat, b: Bucket, q: Query)
    requires ProtoOk(p) && QueryOk(p, q) && t.Chain? && TreeOk(p, t, d) && p.shift[d] == 0
    requires BucketOk(p, b) && BucketItems(b.cells) == {Item(q.hash, q.value)}
    requires Absent(p, Items(t), q.hash, q.key)
    ensures var t1 := Chain(t.buckets + [b]);
            TreeOk(p, t1, d) && Items(t1) == Items(t) + {Item(q.hash, q.value)}
  {
    ChainGrows(p, t.buckets, b);
  }

  // Entry i of bucket j is deleted; the bucket with its last entry.
  lemma EntryDeleted(p: Proto, t: Tree, d: nat, j: nat, i: nat, hash: nat, key: string)
    requires ProtoOk(p) && t.Chain? && TreeOk(p, t, d) && j < |t.buckets|
    requires var cells := t.buckets[j].cells;
             i < |cells| && Taken(cells[i]) && Matches(p, CellItem(cells[i]), hash, key)
    ensures var b := t.buckets[j];
            var b1 := Bucket(b.addr, b.cells[i := Entry(0, hash)], if b.count >= 1 then b.count - 1 else 0);
            var t1 := if b.count == 1 then WithoutBucket(t.buckets, j) else Chain(t.buckets[j := b1]);
            && b.count >= 1 && TreeOk(p, t1, d)
            && Deleted(p, Items(t), Items(t1), hash, key, OK, b.cells[i].value)
  {
    hide BucketItems;
    var b := t.buckets[j];
    var b1 := Bucket(b.addr, b.cells[i := Entry(0, hash)], if b.count >= 1 then b.count - 1 else 0);
    CellsClear(p, b.cells, b.count, i);
    ItemOf(t.buckets, j, i);
    if b.count == 1 {
      NoItems(b1.cells);
      assert BucketItems(b.cells) == {CellItem(b.cells[i])};
      ChainShrinks(p, t.buckets, j);
    } else {
      ChainChanges(p, t.buckets, j, b1);
      forall y | y in BucketItems(b.cells) ensures y in Items(t) {
      }
    }
  }

  lemma NoItems(cells: seq<Cell>)
    requires TakenCount(cells, |cells|) == 0
    ensures BucketItems(cells) == {}
  {
    forall k | 0 <= k < |cells| ensures !Taken(cells[k]) {
      NoneAhead(cells, 0, |cells|, k);
    }
  }
}
