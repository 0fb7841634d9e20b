// Changes to a level, and what queries ask and answer.
module LevelHashLevels {
  import opened Wrappers
  import opened Arithmetic
  import opened LevelHashTree
  import opened LevelHashChains

  datatype Query = Query(hash: nat, key: string, value: nat, replace: bool)

  datatype Status = OK | DECLINED | ERROR

  predicate Matches(p: Proto, x: Item, hash: nat, key: string) {
    x.hash == hash && p.keyOf(x.value) == key
  }

  ghost predicate Absent(p: Proto, items: set<Item>, hash: nat, key: string) {
    forall x | x in items :: !Matches(p, x, hash, key)
  }

  ghost predicate Found(p: Proto, items: set<Item>, hash: nat, key: string, r: Option<nat>) {
    match r
    case Some(v) => Item(hash, v) in items && p.keyOf(v) == key
    case None => Absent(p, items, hash, key)
  }

  // The value is stored under the key the query asks for.
  predicate QueryOk(p: Proto, q: Query) { q.value != 0 && p.keyOf(q.value) == q.key }

  // An insertion: out is the value the query is left with.
  ghost predicate Inserted(p: Proto, items0: set<Item>, items1: set<Item>, q: Query, status: Status, out: nat) {
    var old', new' := Item(q.hash, out), Item(q.hash, q.value);
    match status
    case OK =>
      || (Absent(p, items0, q.hash, q.key) && items1 == items0 + {new'} && out == q.value)
      || (old' in items0 && p.keyOf(out) == q.key && q.replace && items1 == items0 - {old'} + {new'})
    case DECLINED => old' in items0 && p.keyOf(out) == q.key && !q.replace && items1 == items0
    case ERROR => Absent(p, items0, q.hash, q.key) && items1 == items0 && out == q.value
  }

  ghost predicate Deleted(p: Proto, items0: set<Item>, items1: set<Item>, hash: nat, key: string, status: Status,
                          out: nat)
  {
    match status
    case OK => Item(hash, out) in items0 && p.keyOf(out) == key && items1 == items0 - {Item(hash, out)}
    case DECLINED => Absent(p, items0, hash, key) && items1 == items0
    case ERROR => false
  }

  lemma {:induction false} UsedStep(kids: seq<Tree>, i: nat, kid: Tree, n: nat)
    requires i < |kids| && n <= |kids|
    ensures UsedSlots(kids[i := kid], n) ==
              UsedSlots(kids, n) +
              if i < n then (if kid.Nil? then 0 else 1) - (if kids[i].Nil? then 0 else 1) else 0
    decreases n
  {
    if n > 0 {
      UsedStep(kids, i, kid, n - 1);
    }
  }

  lemma {:induction false} NoneUsed(kids: seq<Tree>, n: nat)
    requires n <= |kids|
    ensures UsedSlots(kids, n) == 0 <==> forall i | 0 <= i < n :: kids[i].Nil?
  {
    if n > 0 {
      NoneUsed(kids, n - 1);
    }
  }

  // Items of a slot are exactly those of the level that belong there.
  lemma LevelItems(p: Proto, t: Tree, d: nat, i: nat, x: Item)
    requires ProtoOk(p) && t.Level? && LevelOk(p, t, d) && i < |t.kids|
    ensures x in Items(t.kids[i]) <==> x in Items(t) && Slot(p, d, x.hash) == i
  {
    if x in Items(t) {
      var j :| 0 <= j < |t.kids| && x in Items(t.kids[j]);
      assert Slot(p, d, x.hash) == j;
    }
  }

  // What hangs from slot i is replaced.
  lemma LevelChanges(p: Proto, t: Tree, d: nat, i: nat, kid: Tree)
    requires ProtoOk(p) && t.Level? && LevelOk(p, t, d) && i < |t.kids| && TreeOk(p, kid, d + 1)
    requires forall x | x in Items(kid) :: Slot(p, d, x.hash) == i
    ensures var t1 := Level(t.addr, UsedSlots(t.kids[i := kid], |t.kids|), t.kids[i := kid]);
            LevelOk(p, t1, d) && Items(t1) == Items(t) - Items(t.kids[i]) + Items(kid)
    ensures UsedSlots(t.kids[i := kid], |t.kids|) ==
              t.count + (if kid.Nil? then 0 else 1) - (if t.kids[i].Nil? then 0 else 1)
  {
    var t1 := Level(t.addr, UsedSlots(t.kids[i := kid], |t.kids|), t.kids[i := kid]);
    UsedStep(t.kids, i, kid, |t.kids|);
    forall x | x in Items(t1) ensures (x in Items(t) && x !in Items(t.kids[i])) || x in Items(kid) {
      var j :| 0 <= j < |t.kids| && x in Items(t1.kids[j]);
      if j != i {
        assert x in Items(t.kids[j]);
        LevelItems(p, t, d, i, x);
      }
    }
    forall x | x in Items(kid) ensures x in Items(t1) {
      assert x in Items(t1.kids[i]);
    }
    forall x | x in Items(t) && x !in Items(t.kids[i]) ensures x in Items(t1) {
      var j :| 0 <= j < |t.kids| && x in Items(t.kids[j]);
      assert x in Items(t1.kids[j]);
    }
  }

  // A query that hits slot i only concerns what hangs there.
  lemma QueryInSlot(p: Proto, t: Tree, d: nat, hash: nat, key: string)
    requires ProtoOk(p) && t.Level? && LevelOk(p, t, d)
    ensures 0 <= Slot(p, d, hash) < |t.kids|
    ensures Absent(p, Items(t.kids[Slot(p, d, hash)]), hash, key) <==> Absent(p, Items(t), hash, key)
  {
    var i := Slot(p, d, hash);
    forall x | x in Items(t) && Matches(p, x, hash, key) ensures x in Items(t.kids[i]) {
      LevelItems(p, t, d, i, x);
    }
    forall x | x in Items(t.kids[i]) ensures x in Items(t) {
    }
  }

  lemma FoundInSlot(p: Proto, t: Tree, d: nat, hash: nat, key: string, r: Option<nat>)
    requires ProtoOk(p) && t.Level? && d < 7 && TreeOk(p, t, d)
    requires var i := Slot(p, d, hash); 0 <= i < |t.kids| && Found(p, Items(t.kids[i]), hash, key, r)
    ensures Found(p, Items(t), hash, key, r)
  {
    QueryInSlot(p, t, d, hash, key);
    if r.Some? {
      LevelItems(p, t, d, Slot(p, d, hash), Item(hash, r.value));
    }
  }

  lemma InsertedInSlot(p: Proto, t: Tree, d: nat, kid: Tree, q: Query, status: Status, out: nat)
    requires ProtoOk(p) && t.Level? && LevelOk(p, t, d)
    requires var i := Slot(p, d, q.hash);
             0 <= i < |t.kids| && Inserted(p, Items(t.kids[i]), Items(kid), q, status, out)
    ensures var i := Slot(p, d, q.hash);
            && (forall x | x in Items(kid) :: Slot(p, d, x.hash) == i)
            && Inserted(p, Items(t), Items(t) - Items(t.kids[i]) + Items(kid), q, status, out)
  {
    var i := Slot(p, d, q.hash);
    QueryInSlot(p, t, d, q.hash, q.key);
    forall x | x in Items(t.kids[i]) ensures x in Items(t) {
    }
    assert Items(t) - Items(t.kids[i]) + Items(t.kids[i]) == Items(t);
  }

  lemma DeletedInSlot(p: Proto, t: Tree, d: nat, kid: Tree, hash: nat, key: string, status: Status, out: nat)
    requires ProtoOk(p) && t.Level? && LevelOk(p, t, d)
    requires var i := Slot(p, d, hash);
             0 <= i < |t.kids| && Deleted(p, Items(t.kids[i]), Items(kid), hash, key, status, out)
    ensures var i := Slot(p, d, hash);
            && (forall x | x in Items(kid) :: Slot(p, d, x.hash) == i)
            && Deleted(p, Items(t), Items(t) - Items(t.kids[i]) + Items(kid), hash, key, status, out)
  {
    var i := Slot(p, d, hash);
    QueryInSlot(p, t, d, hash, key);
    forall x | x in Items(t.kids[i]) ensures x in Items(t) {
    }
    assert Items(t) - Items(t.kids[i]) + Items(t.kids[i]) == Items(t);
  }

  // The key shifted past level d.
  lemma SlotShift(p: Proto, d: nat, hash: nat)
    requires ProtoOk(p) && d < 7
    ensures hash / Pow2(ShiftSum(p, d)) / Pow2(p.shift[d]) == hash / Pow2(ShiftSum(p, d + 1))
  {
    Pow2Add(ShiftSum(p, d), p.shift[d]);
    DivDiv(hash, Pow2(ShiftSum(p, d)), Pow2(p.shift[d]));
  }
}
