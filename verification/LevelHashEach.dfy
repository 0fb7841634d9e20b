// The walk through a level hash: only the bits of the current path and a place
// in a bucket are kept between two calls.
module LevelHashEach {
  import opened Wrappers
  import opened Arithmetic
  import opened LevelHashTree
  import opened LevelHashChains
  import opened LevelHashLevels
  import opened LevelHashSteps
  import opened LevelHashOrder
  import LevelHash

  // The chain at the current position has been left.
  const DONE: Address := -1

  lemma {:induction false} NoneFrom(cells: seq<Cell>, i: nat, e: nat)
    requires i <= e <= |cells| && forall k | i <= k < e :: !Taken(cells[k])
    ensures CellsFrom(cells, i) == CellsFrom(cells, e)
    decreases e - i
  {
    if i < e {
      NoneFrom(cells, i + 1, e);
    }
  }

  lemma TakenFrom(cells: seq<Cell>, i: nat, e: nat)
    requires i <= e <= |cells| && TakenCount(cells, i) == TakenCount(cells, e)
    ensures CellsFrom(cells, i) == CellsFrom(cells, e)
  {
    forall k | i <= k < e ensures !Taken(cells[k]) {
      NoneAhead(cells, i, e, k);
    }
    NoneFrom(cells, i, e);
  }

  lemma BucketOf(p: Proto, t: Tree, d: nat, j: nat)
    requires ProtoOk(p) && t.Chain? && TreeOk(p, t, d) && j < |t.buckets|
    ensures BucketOk(p, t.buckets[j])
  {
  }

  lemma {:induction false} LeafHeld(p: Proto, mem: Memory, t: Tree, d: nat, c: nat) returns (e: nat)
    requires ProtoOk(p) && TreeOk(p, t, d) && Held(mem, t)
    ensures Held(mem, Leaf(p, t, d, c)) && TreeOk(p, Leaf(p, t, d, c), e)
    decreases t
  {
    if t.Level? {
      SlotBound(p, t, d, c);
      e := LeafHeld(p, mem, t.kids[Slot(p, d, c)], d + 1, c);
    } else {
      e := d;
    }
  }

  class Walk {
    const p: Proto
    var bucket: Address   // zero at first, then a bucket or DONE
    var current: nat
    var entry: nat
    var entries: int
    var hash: nat         // of the value returned last
    ghost var at: nat     // the number of the bucket in its chain

    constructor (h: LevelHash.Table)
      requires h.Valid() && (Fits(h.p, h.tree, 0) || (Short(h.p) && Small(h.tree)))
      ensures p == h.p && WalkOk(h.tree)
      ensures Fits(p, h.tree, 0) ==> PositionOk(h.tree, 0) && Remaining(h.tree, 0) == Flat(h.tree)
    {
      p := h.p;
      bucket, current, entry, entries, hash, at := 0, 0, 0, 0, 0, 0;
      new;
      AfterFresh(p, h.tree, 0, 0);
      if !Fits(p, h.tree, 0) {
        AheadFresh(p, h.tree, 0, 0);
        Pow2Order(0, WIDTH);
      }
    }

    // In the middle of a chain, with entries left in the bucket.
    ghost predicate InChain(buckets: seq<Bucket>)
      reads this
    {
      && at < |buckets| && bucket == buckets[at].addr > 0 && entry <= |buckets[at].cells|
      && entries == TakenCount(buckets[at].cells, |buckets[at].cells|) - TakenCount(buckets[at].cells, entry) >= 1
    }

    ghost function LeftInChain(buckets: seq<Bucket>): seq<Item>
      reads this
      requires bucket == DONE || InChain(buckets)
    {
      if bucket == DONE then [] else CellsFrom(buckets[at].cells, entry) + ChainFrom(buckets, at + 1)
    }

    // The bucket is one of the chain at the position.
    ghost predicate Placed(t: Tree, d: nat)
      reads this
      requires ProtoOk(p) && TreeOk(p, t, d)
    {
      && (bucket <= 0 ==> entry == 0)
      && (bucket != 0 ==>
            var leaf := Leaf(p, t, d, current); leaf.Chain? && (bucket == DONE || InChain(leaf.buckets)))
    }

    ghost predicate PositionOk(t: Tree, d: nat)
      reads this
      requires ProtoOk(p) && TreeOk(p, t, d)
    {
      Clean(p, t, d, current) && Placed(t, d)
    }

    // Where a level does not fit, the walk comes to it and does not leave it.
    ghost predicate Ready(t: Tree, d: nat)
      reads this
      requires ProtoOk(p) && TreeOk(p, t, d)
    {
      if Fits(p, t, d) then PositionOk(t, d)
      else Placed(t, d) && Ahead(p, t, d, current) && current < Pow2(WIDTH) && Short(p) && Small(t)
    }

    // What is still to be returned.
    ghost function Remaining(t: Tree, d: nat): seq<Item>
      reads this
      requires ProtoOk(p) && TreeOk(p, t, d) && PositionOk(t, d)
    {
      if bucket == 0 then After(p, t, d, current, false)
      else LeftInChain(Leaf(p, t, d, current).buckets) + After(p, t, d, current, true)
    }

    ghost predicate WalkOk(t: Tree)
      reads this
    {
      ProtoOk(p) && TreeOk(p, t, 0) && Ready(t, 0)
    }

    // A position in a level is one in what hangs from its slot.
    lemma AtSlot(t: Tree, d: nat)
      requires ProtoOk(p) && t.Level? && TreeOk(p, t, d) && d < 7
      ensures 0 <= Slot(p, d, current) < |t.kids| && TreeOk(p, t.kids[Slot(p, d, current)], d + 1)
      ensures SlotNumber(current, ShiftSum(p, d), p.shift[d]) == Slot(p, d, current)
      ensures ShiftSum(p, d + 1) == ShiftSum(p, d) + p.shift[d]
      ensures var kid := t.kids[Slot(p, d, current)];
              && (Fits(p, t, d) ==> Fits(p, kid, d + 1))
              && (PositionOk(t, d) <==> PositionOk(kid, d + 1))
              && (PositionOk(t, d) ==> Remaining(t, d) == Remaining(kid, d + 1) + KidsFrom(t, Slot(p, d, current) + 1))
    {
      hide ChainFrom, CellsFrom, Pow2;
      SlotBound(p, t, d, current);
    }

    // The same where something ahead does not fit: the slot is ready, with
    // something ahead in it or in a later one.
    lemma ReadySlot(t: Tree, d: nat)
      requires ProtoOk(p) && t.Level? && TreeOk(p, t, d) && d < 7 && !Fits(p, t, d) && Ready(t, d)
      ensures 0 <= Slot(p, d, current) < |t.kids| && TreeOk(p, t.kids[Slot(p, d, current)], d + 1)
      ensures Ready(t.kids[Slot(p, d, current)], d + 1)
    {
      hide ChainFrom, CellsFrom, Pow2;
      AheadAt(p, t, d, current);
      AtSlot(t, d);
      var n := Slot(p, d, current);
      forall x | x in Items(t.kids[n]) ensures x in Items(t) {
      }
      if ShiftSum(p, d + 1) > WIDTH {
        LeavesOnly(p, t, d, n);
        Pow2Order(WIDTH, ShiftSum(p, d + 1));
      }
    }

    method BucketEach(mem: Memory, ghost t: Tree, ghost d: nat) returns (value: nat)
      requires ProtoOk(p) && t.Chain? && TreeOk(p, t, d) && Held(mem, t) && InChain(t.buckets)
      modifies this`bucket, this`entry, this`entries, this`hash, this`at
      ensures value != 0 && ((bucket == DONE && entry == 0) || InChain(t.buckets))
      ensures old(LeftInChain(t.buckets)) == [Item(hash, value)] + LeftInChain(t.buckets)
    {
      hide TreeOk, Held, BucketAddr, BucketEntries;
      ghost var i := entry;
      BucketOf(p, t, d, at);
      BucketAt(p, mem, t, d, at);
      ghost var cells := t.buckets[at].cells;
      ghost var ahead := TakenAhead(cells, entry, |cells|);
      var e := entry;
      entry := entry + 1;
      while mem[bucket].cells[e].value == 0
        invariant i <= e < |cells| && entry == e + 1 && cells[e].Entry?
        invariant TakenCount(cells, e) == TakenCount(cells, i)
        invariant bucket == old(bucket) && at == old(at) && entries == old(entries)
        decreases |cells| - e
      {
        ahead := TakenAhead(cells, entry, |cells|);
        e := entry;
        entry := entry + 1;
      }
      TakenFrom(cells, i, e);
      value, hash := mem[bucket].cells[e].value, mem[bucket].cells[e].hash;
      entries := entries - 1;
      if entries == 0 {
        TakenFrom(cells, entry, |cells|);
        NextBucket(mem, t, d);
      }
    }

    // The bucket has no more entries.
    method NextBucket(mem: Memory, ghost t: Tree, ghost d: nat)
      requires ProtoOk(p) && t.Chain? && TreeOk(p, t, d) && Held(mem, t)
      requires at < |t.buckets| && bucket == t.buckets[at].addr
      modifies this`bucket, this`entry, this`entries, this`at
      ensures (bucket == DONE && entry == 0) || InChain(t.buckets)
      ensures LeftInChain(t.buckets) == ChainFrom(t.buckets, old(at) + 1)
    {
      hide TreeOk, Held, BucketAddr, BucketEntries, CellsFrom;
      ChainEnds(p, t, d, at);
      BucketAt(p, mem, t, d, at);
      ChainEnds(p, t, d, at + 1);
      var next := mem[bucket].next;
      if next == 0 {
        bucket, entries := DONE, 0;
      } else {
        BucketAt(p, mem, t, d, at + 1);
        BucketOf(p, t, d, at + 1);
        bucket, entries := BucketAddr(p, next), BucketEntries(p, next);
      }
      entry, at := 0, at + 1;
    }

    // What hangs from the slot at the current position.  Where something ahead
    // does not fit, there is always a value.
    method SlotEach(mem: Memory, slot: Word, d: nat, shift: nat, ghost kid: Tree) returns (value: nat)
      requires ProtoOk(p) && d <= 7 && TreeOk(p, kid, d) && Held(mem, kid) && slot == WordOf(kid)
      requires shift == ShiftSum(p, d) && Ready(kid, d) && (bucket == 0 || bucket == DONE)
      modifies this
      ensures Ready(kid, d) && LowBits(current, shift) == LowBits(old(current), shift)
      ensures Fits(p, kid, d) && value == 0 ==>
                old(Remaining(kid, d)) == [] && bucket == entry == 0 && current < Pow2(shift)
      ensures Fits(p, kid, d) && value != 0 ==> old(Remaining(kid, d)) == [Item(hash, value)] + Remaining(kid, d)
      ensures !Fits(p, kid, d) ==> value != 0
      ensures value != 0 ==> bucket != 0
      ensures !kid.Level? ==> current == old(current)
      ensures kid.Chain? && old(bucket) == 0 ==> value != 0
      ensures Fits(p, kid, d) ==> PositionOk(kid, d)
      decreases 8 - d, 0
    {
      hide Pow2, LowBits;
      WordKind(p, kid, d);
      value := 0;
      if slot != 0 {
        if IsBucket(slot) {
          if bucket != DONE {
            assert Held(mem, kid) && ChainWord(kid.buckets, 0) == slot;
            BucketAt(p, mem, kid, d, 0);
            assert BucketOk(p, kid.buckets[0]);
            bucket, entries, entry, at := BucketAddr(p, slot), BucketEntries(p, slot), 0, 0;
            value := BucketEach(mem, kid, d);
            return;
          }
          bucket := 0;
        } else {
          value := LevelEach(mem, slot, d, shift, kid);
        }
      }
    }

    // The next slot of the level: if there is one, or, where the slot numbers do
    // not fit, another one again.
    method Advance(d: nat, shift: nat, ghost t: Tree) returns (more: bool)
      requires ProtoOk(p) && t.Level? && TreeOk(p, t, d) && d < 7 && shift == ShiftSum(p, d) && bucket == entry == 0
      requires if ShiftSum(p, d + 1) <= WIDTH then current < Pow2(ShiftSum(p, d + 1))
               else ShiftSum(p, d) < WIDTH && current < Pow2(WIDTH)
      modifies this`current
      ensures LowBits(current, shift) == LowBits(old(current), shift)
      ensures ShiftSum(p, d + 1) <= WIDTH ==>
                var n := Slot(p, d, old(current));
                && 0 <= n < |t.kids| && PositionOk(t, d) && (n + 1 < |t.kids| ==> more)
                && (more ==> Remaining(t, d) == KidsFrom(t, n + 1) && Slot(p, d, current) == n + 1 < |t.kids|
                             && current < Pow2(ShiftSum(p, d + 1)))
                && (!more ==> KidsFrom(t, n + 1) == [] && current < Pow2(shift))
      ensures ShiftSum(p, d + 1) > WIDTH ==>
                var n, w := Slot(p, d, old(current)), Pow2(WIDTH - shift);
                more && current < Pow2(WIDTH) && 0 <= n < w && Slot(p, d, current) == if n + 1 < w then n + 1 else 0
    {
      hide Pow2, LowBits, KidsFrom;
      var next := NextPosition(current, shift, p.shift[d]);
      if ShiftSum(p, d + 1) <= WIDTH {
        hide Slot, NextPosition, ShiftSum;
        SlotAdvance(p, t, d, current);
        current, more := next.0, next.1;
        if !more {
          AfterFresh(p, t, d, current);
        }
      } else {
        NextCyclic(current, shift, p.shift[d]);
        current, more := next.0, next.1;
      }
    }

    // How many slots the walk of a level may still pass before it finds a value
    // in slot j, or comes to the end.
    ghost function Turns(d: nat, j: nat, size: nat): nat
      reads this
      requires ProtoOk(p) && d < 7
    {
      var n := Slot(p, d, current);
      if ShiftSum(p, d + 1) <= WIDTH then (if n < size then size - n else 0)
      else if ShiftSum(p, d) > WIDTH then 0
      else
        var w := Pow2(WIDTH - ShiftSum(p, d));
        if n >= w || n < 0 then 0
        else if j > n || (j == n && bucket == 0) then j - n else j + w - n
    }

    // The slot that comes next is ready if a later one does not fit.
    lemma ReadyNext(t: Tree, d: nat)
      requires ProtoOk(p) && t.Level? && TreeOk(p, t, d) && d < 7 && Short(p) && Small(t) && ShiftSum(p, d + 1) <= WIDTH
      requires bucket == entry == 0 && current < Pow2(ShiftSum(p, d + 1))
      requires exists i: nat :: Slot(p, d, current) <= i && KidUnfit(p, t, d, i)
      ensures Ready(t, d)
    {
      hide Pow2, ChainFrom, CellsFrom, KidsFrom, After;
      AheadAt(p, t, d, current);
      var n := Slot(p, d, current);
      var i: nat :| n <= i && KidUnfit(p, t, d, i);
      if Fits(p, t.kids[n], d + 1) {
        AfterFresh(p, t.kids[n], d + 1, current);
      } else {
        AheadFresh(p, t.kids[n], d + 1, current);
      }
      Pow2Order(ShiftSum(p, d + 1), WIDTH);
    }

    // Back from the slot: ready again where a value was found in it.
    lemma ReadyAgain(t: Tree, d: nat, n: nat)
      requires ProtoOk(p) && t.Level? && TreeOk(p, t, d) && d < 7 && Short(p) && Small(t) && !Fits(p, t, d)
      requires n < |t.kids| && n == Slot(p, d, current) && TreeOk(p, t.kids[n], d + 1) && Ready(t.kids[n], d + 1)
      requires Fits(p, t.kids[n], d + 1) && ShiftSum(p, d + 1) <= WIDTH ==>
                 exists i: nat :: n < i && KidUnfit(p, t, d, i)
      requires ShiftSum(p, d + 1) > WIDTH ==> current < Pow2(WIDTH)
      ensures Ready(t, d)
    {
      hide Pow2, ChainFrom, CellsFrom, KidsFrom, After, Clean;
      AheadAt(p, t, d, current);
      AtSlot(t, d);
      if ShiftSum(p, d + 1) <= WIDTH && Fits(p, t.kids[n], d + 1) {
        CleanInWord(p, t.kids[n], d + 1, current);
      }
    }

    // A level that does not fit is ready wherever the position is.
    lemma ReadyUnfit(t: Tree, d: nat)
      requires ProtoOk(p) && t.Level? && TreeOk(p, t, d) && d < 7 && Short(p) && Small(t) && ShiftSum(p, d + 1) > WIDTH
      requires bucket == entry == 0 && current < Pow2(WIDTH)
      ensures Ready(t, d)
    {
      AheadAt(p, t, d, current);
    }

    // What readiness says about a level where something ahead does not fit.
    lemma ReadyParts(t: Tree, d: nat)
      requires ProtoOk(p) && t.Level? && TreeOk(p, t, d) && d < 7 && Ready(t, d)
      ensures Fits(p, t, d) ==> PositionOk(t, d) && ShiftSum(p, d + 1) <= WIDTH
      ensures !Fits(p, t, d) ==> current < Pow2(WIDTH) && Short(p) && Small(t)
      ensures 0 <= Slot(p, d, current) < |t.kids| && TreeOk(p, t.kids[Slot(p, d, current)], d + 1)
      ensures Ready(t.kids[Slot(p, d, current)], d + 1)
      ensures !Fits(p, t, d) && ShiftSum(p, d + 1) <= WIDTH && Fits(p, t.kids[Slot(p, d, current)], d + 1) ==>
                exists i: nat :: Slot(p, d, current) < i && KidUnfit(p, t, d, i)
      ensures !Fits(p, t, d) && ShiftSum(p, d + 1) > WIDTH ==>
                !t.kids[Slot(p, d, current)].Level? && Fits(p, t.kids[Slot(p, d, current)], d + 1)
    {
      hide Pow2, ChainFrom, CellsFrom, KidsFrom, After;
      AtSlot(t, d);
      AheadAt(p, t, d, current);
      var n := Slot(p, d, current);
      if !Fits(p, t, d) {
        ReadySlot(t, d);
        if ShiftSum(p, d + 1) > WIDTH {
          LeavesOnly(p, t, d, n);
        } else if Fits(p, t.kids[n], d + 1) {
          var i :| n < i < |t.kids| && !Fits(p, t.kids[i], d + 1);
          assert KidUnfit(p, t, d, i);
        }
      }
    }

    // One slot of the level; j is a slot with something in it.
    method LevelStep(mem: Memory, w: Word, d: nat, shift: nat, ghost t: Tree, ghost j: nat)
      returns (value: nat, more: bool)
      requires ProtoOk(p) && t.Level? && TreeOk(p, t, d) && Held(mem, t) && w == WordOf(t)
      requires d < 7 && shift == ShiftSum(p, d) && Ready(t, d) && (bucket == 0 || bucket == DONE)
      requires ShiftSum(p, d + 1) > WIDTH ==>
                 shift < WIDTH && j < Pow2(WIDTH - shift) && j < |t.kids| && t.kids[j].Chain?
      modifies this
      ensures Ready(t, d) && LowBits(current, shift) == LowBits(old(current), shift)
      ensures value != 0 ==> bucket != 0
      ensures value == 0 ==> bucket == 0
      ensures value != 0 && Fits(p, t, d) ==> old(Remaining(t, d)) == [Item(hash, value)] + Remaining(t, d)
      ensures value == 0 && more && Fits(p, t, d) ==> Remaining(t, d) == old(Remaining(t, d))
      ensures value == 0 && !more ==> Fits(p, t, d) && old(Remaining(t, d)) == [] && current < Pow2(shift)
      ensures value == 0 && more ==> Turns(d, j, |t.kids|) < old(Turns(d, j, |t.kids|))
      decreases 7 - d, 1
    {
      hide Pow2, LowBits, Slot, SlotNumber, Held, LevelAddr, Clean, Leaf, After, KidsFrom, Fits, ShiftSum, PositionOk,
           Remaining, Ready, Ahead, Placed;
      LevelSlotRead(p, mem, t, d, w, current);
      ReadyParts(t, d);
      AtSlot(t, d);
      var bits := p.shift[d];
      var slot := mem[LevelAddr(w, bits)].slots[SlotNumber(current, shift, bits)];
      ghost var c, n := current, Slot(p, d, current);
      ghost var kid := t.kids[n];
      value := SlotEach(mem, slot, d + 1, shift + bits, kid);
      SlotOfLow(p, d, c, current);
      AtSlot(t, d);
      more := true;
      if value == 0 {
        more := Advance(d, shift, t);
        Advanced(t, d, n);
      } else {
        BackAtSlot(t, d, n);
      }
    }

    // Ready again after the step to the next slot.
    lemma Advanced(t: Tree, d: nat, n: nat)
      requires ProtoOk(p) && t.Level? && TreeOk(p, t, d) && d < 7 && bucket == entry == 0
      requires Fits(p, t, d) ==> PositionOk(t, d)
      requires !Fits(p, t, d) ==>
                 && Short(p) && Small(t)
                 && if ShiftSum(p, d + 1) > WIDTH then current < Pow2(WIDTH)
                    else
                      && current < Pow2(ShiftSum(p, d + 1)) && Slot(p, d, current) == n + 1
                      && exists i: nat :: n < i && KidUnfit(p, t, d, i)
      ensures Ready(t, d)
    {
      hide Pow2, ChainFrom, CellsFrom, KidsFrom, After, Slot, Fits;
      if !Fits(p, t, d) {
        if ShiftSum(p, d + 1) <= WIDTH {
          ReadyNext(t, d);
        } else {
          ReadyUnfit(t, d);
        }
      }
    }

    lemma BackAtSlot(t: Tree, d: nat, n: nat)
      requires ProtoOk(p) && t.Level? && TreeOk(p, t, d) && d < 7
      requires n < |t.kids| && n == Slot(p, d, current) && TreeOk(p, t.kids[n], d + 1) && Ready(t.kids[n], d + 1)
      requires Fits(p, t, d) ==> Fits(p, t.kids[n], d + 1)
      requires !Fits(p, t, d) ==>
                 && Short(p) && Small(t)
                 && (Fits(p, t.kids[n], d + 1) && ShiftSum(p, d + 1) <= WIDTH ==>
                       exists i: nat :: n < i && KidUnfit(p, t, d, i))
                 && (ShiftSum(p, d + 1) > WIDTH ==> current < Pow2(WIDTH))
      ensures Ready(t, d)
    {
      hide Pow2, ChainFrom, CellsFrom, KidsFrom, After, Slot;
      if Fits(p, t, d) {
        AtSlot(t, d);
      } else {
        ReadyAgain(t, d, n);
      }
    }

    method LevelEach(mem: Memory, w: Word, d: nat, shift: nat, ghost t: Tree) returns (value: nat)
      requires ProtoOk(p) && t.Level? && TreeOk(p, t, d) && Held(mem, t) && w == WordOf(t)
      requires d < 7 && shift == ShiftSum(p, d) && Ready(t, d) && (bucket == 0 || bucket == DONE)
      modifies this
      ensures Ready(t, d) && LowBits(current, shift) == LowBits(old(current), shift)
      ensures Fits(p, t, d) && value == 0 ==>
                old(Remaining(t, d)) == [] && bucket == entry == 0 && current < Pow2(shift)
      ensures Fits(p, t, d) && value != 0 ==> old(Remaining(t, d)) == [Item(hash, value)] + Remaining(t, d)
      ensures !Fits(p, t, d) ==> value != 0
      ensures value != 0 ==> bucket != 0
      decreases 7 - d, 2
    {
      hide Pow2, LowBits, Slot, Held, Clean, Leaf, After, KidsFrom, TreeOk, Fits, ShiftSum;
      ghost var rest := if Fits(p, t, d) then Remaining(t, d) else [];
      ghost var low := LowBits(current, shift);
      ghost var j := FindReached(t, d);
      var more := true;
      value := 0;
      while more
        invariant Ready(t, d) && (bucket == 0 || bucket == DONE) && LowBits(current, shift) == low
        invariant Fits(p, t, d) ==>
                    if more then Remaining(t, d) == rest else rest == [] && current < Pow2(shift) && bucket == 0
        invariant !Fits(p, t, d) ==> more
        decreases if more then 1 else 0, Turns(d, j, |t.kids|)
      {
        value, more := LevelStep(mem, w, d, shift, t, j);
        if value != 0 {
          return;
        }
      }
    }

    lemma FindReached(t: Tree, d: nat) returns (j: nat)
      requires ProtoOk(p) && t.Level? && TreeOk(p, t, d) && d < 7 && Ready(t, d)
      ensures ShiftSum(p, d + 1) > WIDTH ==>
                ShiftSum(p, d) < WIDTH && j < Pow2(WIDTH - ShiftSum(p, d)) && j < |t.kids| && t.kids[j].Chain?
    {
      j := 0;
      if ShiftSum(p, d + 1) > WIDTH {
        AheadAt(p, t, d, current);
        j := ReachedSlot(p, t, d);
      }
    }

    // Each call gives the next item of the hash, and zero after the last one; but
    // where a level does not fit there is never a zero.
    method Each(h: LevelHash.Table) returns (value: nat)
      requires h.Valid() && h.p == p && WalkOk(h.tree)
      modifies this
      ensures WalkOk(h.tree) && (Fits(p, h.tree, 0) ==> PositionOk(h.tree, 0))
      ensures !Fits(p, h.tree, 0) ==> value != 0
      ensures Fits(p, h.tree, 0) ==> (value == 0 <==> old(Remaining(h.tree, 0)) == [])
      ensures Fits(p, h.tree, 0) && value != 0 ==>
                old(Remaining(h.tree, 0)) == [Item(hash, value)] + Remaining(h.tree, 0)
    {
      value := EachFrom(h.slot, h.mem, h.tree);
    }

    method EachFrom(slot: Word, mem: Memory, ghost t: Tree) returns (value: nat)
      requires WalkOk(t) && Held(mem, t) && slot == WordOf(t)
      modifies this
      ensures WalkOk(t)
      ensures !Fits(p, t, 0) ==> value != 0
      ensures Fits(p, t, 0) ==> (value == 0 <==> old(Remaining(t, 0)) == [])
      ensures Fits(p, t, 0) && value != 0 ==> old(Remaining(t, 0)) == [Item(hash, value)] + Remaining(t, 0)
    {
      hide Fits, Clean, CellsFrom, KidsFrom, TreeOk, Held, BucketAddr, BucketEntries;
      WordKind(p, t, 0);
      if bucket == DONE {
        if IsBucket(slot) {
          LeafFits(p, t, 0);
          return 0;
        }
      } else {
        if bucket == 0 {
          LeafFits(p, t, 0);
          if slot == 0 {
            return 0;
          }
          if !IsBucket(slot) {
            value := LevelEach(mem, slot, 0, 0, t);
            return;
          }
          BucketAt(p, mem, t, 0, 0);
          BucketOf(p, t, 0, 0);
          bucket, entries, at := BucketAddr(p, slot), BucketEntries(p, slot), 0;
        }
        ghost var d := LeafHeld(p, mem, t, 0, current);
        value := BucketEach(mem, Leaf(p, t, 0, current), d);
        return;
      }
      value := LevelEach(mem, slot, 0, 0, t);
    }
  }

  ghost predicate KidUnfit(p: Proto, t: Tree, d: nat, i: nat)
    requires ProtoOk(p)
  {
    t.Level? && i < |t.kids| && TreeOk(p, t.kids[i], d + 1) && !Fits(p, t.kids[i], d + 1)
  }

  lemma LeafFits(p: Proto, t: Tree, d: nat)
    requires ProtoOk(p) && TreeOk(p, t, d)
    ensures !t.Level? ==> Fits(p, t, d)
  {
  }

  lemma AllStored(h: LevelHash.Table, items: seq<Item>)
    requires h.Valid() && items == Flat(h.tree)
    ensures Once(items)
    ensures forall x | x in items :: (x.hash, h.p.keyOf(x.value)) in h.contents
    ensures forall k | k in h.contents :: Item(k.0, h.contents[k]) in items
  {
    FlatOnce(h.p, h.tree, 0);
  }

  // For every table whose slot numbers fit in the position, calling Each until
  // it gives zero gives every value of the hash, once.
  method All(h: LevelHash.Table) returns (items: seq<Item>)
    requires h.Valid() && ShiftSum(h.p, 7) <= WIDTH
    ensures items == Flat(h.tree) && Once(items)
    ensures forall x | x in items :: (x.hash, h.p.keyOf(x.value)) in h.contents
    ensures forall k | k in h.contents :: Item(k.0, h.contents[k]) in items
  {
    hide Fits, Flat, TreeOk, Held, Stores, Items, Addrs, Once, Walk.Remaining, Walk.PositionOk, Walk.Ready,
         LevelHash.Table.Valid;
    TableOk(h);
    ShiftsFit(h.p, h.tree, 0);
    var walk := new Walk(h);
    items := [];
    ghost var rest := walk.Remaining(h.tree, 0);
    var value := walk.Each(h);
    while value != 0
      invariant h.Valid() && ProtoOk(h.p) && TreeOk(h.p, h.tree, 0) && walk.p == h.p
      invariant walk.WalkOk(h.tree) && Fits(h.p, h.tree, 0) && walk.PositionOk(h.tree, 0)
      invariant Flat(h.tree) == items + rest
      invariant value == 0 <==> rest == []
      invariant value != 0 ==> rest == [Item(walk.hash, value)] + walk.Remaining(h.tree, 0)
      decreases |rest|
    {
      items := items + [Item(walk.hash, value)];
      rest := walk.Remaining(h.tree, 0);
      value := walk.Each(h);
    }
    AllStored(h, items);
  }

  // At most n calls of Each, until one gives zero.  With more calls than there
  // are values, one does if and only if every level in the table fits in the
  // position; and then the values have come up once each.
  method Calls(h: LevelHash.Table, n: nat) returns (items: seq<Item>, ended: bool)
    requires h.Valid() && (Fits(h.p, h.tree, 0) || (Short(h.p) && Small(h.tree)))
    ensures n > |Flat(h.tree)| ==> (ended <==> Fits(h.p, h.tree, 0))
    ensures ended ==> Fits(h.p, h.tree, 0) && items == Flat(h.tree) && Once(items)
    ensures !ended ==> |items| == n && forall x | x in items :: x.value != 0
  {
    hide Fits, Flat, TreeOk, Held, Stores, Items, Addrs, Once, Walk.Remaining, Walk.PositionOk, Walk.Ready,
         LevelHash.Table.Valid;
    TableOk(h);
    var walk := new Walk(h);
    ghost var fits := Fits(h.p, h.tree, 0);
    items, ended := [], false;
    while |items| < n
      invariant |items| <= n && h.Valid() && ProtoOk(h.p) && TreeOk(h.p, h.tree, 0) && walk.p == h.p
      invariant walk.WalkOk(h.tree) && (fits <==> Fits(h.p, h.tree, 0))
      invariant fits ==> walk.PositionOk(h.tree, 0) && Flat(h.tree) == items + walk.Remaining(h.tree, 0)
      invariant forall x | x in items :: x.value != 0
    {
      var value := walk.Each(h);
      if value == 0 {
        ended := true;
        FlatOnce(h.p, h.tree, 0);
        return;
      }
      items := items + [Item(walk.hash, value)];
    }
  }

  lemma TableOk(h: LevelHash.Table)
    requires h.Valid()
    ensures ProtoOk(h.p) && TreeOk(h.p, h.tree, 0) && Held(h.mem, h.tree) && h.slot == WordOf(h.tree)
  {
  }
}
