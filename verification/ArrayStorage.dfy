// Arrays whose elements are kept with room before and after them.
module ArrayStorage {
  import opened Wrappers
  import opened StableSorting

  const MAX_LENGTH: nat := 0xffff_ffff / 16

  // ----- arrays as sequences -----

  function Cells<T>(items: seq<T>): (r: seq<Cell<T>>)
    ensures |r| == |items| && forall i | 0 <= i < |items| :: r[i] == Some(items[i])
  {
    seq(|items|, i requires 0 <= i < |items| => Some(items[i]))
  }

  lemma CellsFrom<T>(items: seq<T>, n: nat, s: seq<Cell<T>>)
    requires n < |items|
    ensures Cells(items[n..]) + s == [Some(items[n])] + (Cells(items[n + 1..]) + s)
  {
    assert Cells(items[n..]) == [Some(items[n])] + Cells(items[n + 1..]);
  }

  function Holes<T>(n: nat): seq<Cell<T>> { seq(n, _ => None) }

  // A position counted from the end when it is negative.
  function Relative(v: int, length: nat): (r: nat)
    ensures r <= length
  {
    if v < 0 then (if length + v > 0 then length + v else 0) else if v < length then v else length
  }

  // Of all positions in the array it is the nearest to the one that is meant.
  lemma RelativeNearest(v: int, length: nat, k: nat)
    requires k <= length
    ensures var x, r := if v < 0 then length + v else v, Relative(v, length);
            (if x < r then r - x else x - r) <= if x < k then k - x else x - k
  {
  }

  function Spliced<T>(s: seq<Cell<T>>, at: nat, count: nat, items: seq<Cell<T>>): seq<Cell<T>>
    requires at + count <= |s|
  {
    s[..at] + items + s[at + count..]
  }

  // What splice deletes and puts in its place can be put back.
  lemma SpliceUndone<T>(s: seq<Cell<T>>, at: nat, count: nat, items: seq<Cell<T>>)
    requires at + count <= |s|
    ensures Spliced(Spliced(s, at, count, items), at, |items|, s[at..at + count]) == s
  {
    var t := Spliced(s, at, count, items);
    assert t[..at] == s[..at] && t[at + |items|..] == s[at + count..];
  }

  lemma SamePlaces<T>(s: seq<Cell<T>>, t: seq<Cell<T>>, at: nat, count: nat, items: seq<Cell<T>>)
    requires at + count <= |s| && at + |items| <= |t|
    requires t[..at] == s[..at] && t[at + |items|..] == s[at + count..]
    ensures Spliced(t, at, |items|, items) == Spliced(s, at, count, items)
  {
  }

  function SpliceAt(length: nat, from: Option<int>): (at: nat)
    ensures at <= length
  {
    if from.None? then 0 else Relative(from.value, length)
  }

  function SpliceCount(length: nat, from: Option<int>, count: Option<int>): (n: nat)
    ensures SpliceAt(length, from) + n <= length
  {
    var rest := length - SpliceAt(length, from);
    if from.None? then 0 else if count.None? then rest else if count.value < 0 then 0
    else if count.value < rest then count.value else rest
  }

  // How many elements copyWithin copies.
  function CopyCount(length: nat, to: nat, from: nat, end: nat): (n: nat)
    requires to <= length && from <= length && end <= length
    ensures to + n <= length && from + n <= length
  {
    if end <= from then 0 else if end - from < length - to then end - from else length - to
  }

  // As many as there are to copy and as there is room for.
  lemma CopyCountMost(length: nat, to: nat, from: nat, end: nat, n: nat)
    requires to <= length && from <= length && end <= length
    ensures var m := CopyCount(length, to, from, end);
            (from <= end ==> from + m <= end) && (from + n <= end && to + n <= length ==> n <= m)
  {
  }

  // The elements from a snapshot stand at their new places.
  ghost predicate Copied<T>(was: seq<Cell<T>>, now: seq<Cell<T>>, to: nat, from: nat, n: nat)
    requires to + n <= |was| && from + n <= |was|
  {
    && |now| == |was|
    && (forall k | to <= k < to + n :: now[k] == was[from + (k - to)])
    && (forall k | 0 <= k < |was| && !(to <= k < to + n) :: now[k] == was[k])
  }

  // Copying upwards when the source is above, and downwards when it is below,
  // reads no element that was written.
  lemma CopyStart<T>(s: seq<Cell<T>>, to: nat, from: nat)
    requires to <= |s| && from <= |s|
    ensures Copied(s, s, to, from, 0)
  {
  }

  lemma CopyUp<T>(was: seq<Cell<T>>, now: seq<Cell<T>>, to: nat, from: nat, n: nat)
    requires to <= from && from + n < |was| && Copied(was, now, to, from, n)
    ensures Copied(was, now[to + n := now[from + n]], to, from, n + 1)
  {
    assert now[from + n] == was[from + n];
  }

  lemma CopyDown<T>(was: seq<Cell<T>>, now: seq<Cell<T>>, to: nat, from: nat, n: nat)
    requires from < to && to + 1 + n <= |was| && Copied(was, now, to + 1, from + 1, n)
    ensures Copied(was, now[to := now[from]], to, from, n + 1)
  {
    assert now[from] == was[from];
  }

  lemma FillStep<T>(s: seq<Cell<T>>, at: nat, items: seq<T>, i: nat)
    requires i < |items| && at + |items| <= |s|
    ensures Spliced(s, at, i, Cells(items[..i]))[at + i := Some(items[i])]
            == Spliced(s, at, i + 1, Cells(items[..i + 1]))
  {
    assert Cells(items[..i + 1]) == Cells(items[..i]) + [Some(items[i])];
  }

  datatype Op<T> =
    | Push(items: seq<T>)
    | Pop
    | Shift
    | Unshift(items: seq<T>)
    | SetLength(n: int)
    | Splice(at: Option<int>, count: Option<int>, items: seq<T>)
    | CopyWithin(to: int, from: int, end: Option<int>)

  datatype Outcome<T> =
    | Done
    | Length(n: nat)
    | Element(cell: Cell<T>)
    | Deleted(items: seq<Cell<T>>)
    | RangeError
    | TypeError
    | MemoryError

  predicate OpOk<T>(op: Op<T>) {
    op.Splice? ==> (op.items != [] ==> op.count.Some?) && (op.count.Some? ==> op.at.Some?)
  }

  // What an operation does to a plain sequence, and gives back.
  ghost predicate Does<T(!new)>(op: Op<T>, s: seq<Cell<T>>, t: seq<Cell<T>>, r: Outcome<T>) {
    match op
    case Push(items) => t == s + Cells(items) && r == Length(|t|)
    case Unshift(items) =>
      if |s| + |items| > 0xffff_ffff then t == s && r == TypeError
      else t == Cells(items) + s && r == Length(|t|)
    case Pop => if s == [] then t == s && r == Element(None) else s == t + [s[|s| - 1]] && r == Element(s[|s| - 1])
    case Shift => if s == [] then t == s && r == Element(None) else s == [s[0]] + t && r == Element(s[0])
    case SetLength(n) =>
      if 0 <= n <= 0xffff_ffff then r == Done && |t| == n && (if n <= |s| then t == s[..n] else t == s + Holes(n - |s|))
      else t == s && r == RangeError
    case Splice(from, count, items) =>
      var at, n := SpliceAt(|s|, from), SpliceCount(|s|, from, count);
      t == Spliced(s, at, n, Cells(items)) && r == Deleted(s[at..at + n])
    case CopyWithin(to, from, end) =>
      var a, b := Relative(to, |s|), Relative(from, |s|);
      var n := CopyCount(|s|, a, b, if end.Some? then Relative(end.value, |s|) else |s|);
      Copied(s, t, a, b, n) && r == Done
  }

  // The room that is asked for when there is too little.
  function RoomFor(size: nat): nat { if size < 16 then size * 2 else size + size / 2 }

  // There may be no room for so many elements.
  predicate Lacks(size: nat, memory: bool) { !memory || RoomFor(size) > MAX_LENGTH }

  // When an operation on that many elements may want memory and get none.
  predicate MayFail<T>(op: Op<T>, length: nat, memory: bool) {
    match op
    case Push(items) => Lacks(length + |items| + 1, memory)
    case Unshift(items) => items != [] && length + |items| <= 0xffff_ffff && Lacks(length + |items|, memory)
    case SetLength(n) => length < n <= 0xffff_ffff && Lacks(n, memory)
    case Splice(from, count, items) =>
      var n := SpliceCount(length, from, count);
      !memory || (n < |items| && Lacks(length + |items| - n, memory))
    case _ => false
  }

  // An operation that finds no memory changes nothing.
  ghost predicate Steps<T(!new)>(op: Op<T>, memory: bool, s: seq<Cell<T>>, t: seq<Cell<T>>, r: Outcome<T>) {
    if r.MemoryError? then t == s && MayFail(op, |s|, memory) else Does(op, s, t, r)
  }

  ghost predicate Run<T(!new)>(ops: seq<Op<T>>, memory: seq<bool>, states: seq<seq<Cell<T>>>, rs: seq<Outcome<T>>)
    requires |memory| == |ops|
  {
    && |rs| == |ops| && |states| == |ops| + 1
    && forall i | 0 <= i < |ops| :: Steps(ops[i], memory[i], states[i], states[i + 1], rs[i])
  }

  // Given memory, operations on arrays that stay below the limit never fail.
  lemma NeverFails<T(!new)>(ops: seq<Op<T>>, memory: seq<bool>, states: seq<seq<Cell<T>>>,
                            rs: seq<Outcome<T>>, i: nat)
    requires |memory| == |ops| && Run(ops, memory, states, rs) && i < |ops|
    requires memory[i] && |states[i]| + Added(ops[i], |states[i]|) <= MAX_LENGTH * 2 / 3
    ensures Does(ops[i], states[i], states[i + 1], rs[i])
  {
    hide Does;
    assert Steps(ops[i], memory[i], states[i], states[i + 1], rs[i]);
  }

  // How many elements an operation may add, and one more for push.
  function Added<T>(op: Op<T>, length: nat): nat {
    match op
    case Push(items) => |items| + 1
    case Unshift(items) => |items|
    case Splice(_, _, items) => |items|
    case SetLength(n) => if n > length then n - length else 0
    case _ => 0
  }

  // ----- the storage -----

  method MemMove<T>(a: array<T>, to: nat, from: nat, n: nat, ghost lo: nat, ghost hi: nat)
    requires lo <= hi <= to && to + n <= a.Length && from + n <= a.Length
    modifies a
    ensures a[to..to + n] == old(a[from..from + n]) && a[lo..hi] == old(a[lo..hi])
  {
    forall j | to <= j < to + n {
      a[j] := a[j - to + from];
    }
  }

  lemma Placed<T>(a: array<T>, start: nat, length: nat, at: nat, to: nat, head: seq<T>, tail: seq<T>)
    requires start + length <= a.Length && at <= to <= length
    requires a[start..start + at] == head && a[start + to..start + length] == tail
    ensures a[start..start + length][..at] == head && a[start..start + length][to..] == tail
  {
    Ends(a, start, length, at, to);
  }

  lemma Ends<T>(a: array<T>, start: nat, length: nat, at: nat, to: nat)
    requires start + length <= a.Length && at <= length && to <= length
    ensures a[start..start + at] == a[start..start + length][..at]
    ensures a[start + to..start + length] == a[start..start + length][to..]
  {
    Slice(a, start, length, 0, at);
    Slice(a, start, length, to, length);
  }

  lemma Slice<T>(a: array<T>, start: nat, length: nat, lo: nat, hi: nat)
    requires start + length <= a.Length && lo <= hi <= length
    ensures a[start + lo..start + hi] == a[start..start + length][lo..hi]
  {
    var s, t := a[start + lo..start + hi], a[start..start + length][lo..hi];
    assert |s| == |t| && forall k | 0 <= k < |s| :: s[k] == t[k];
  }

  class JsArray<T(!new)> {
    var data: array<Cell<T>>
    var start: nat
    var length: nat

    ghost predicate Valid()
      reads this
    {
      start + length <= data.Length <= MAX_LENGTH
    }

    ghost function Contents(): (s: seq<Cell<T>>)
      requires Valid()
      reads this, data
      ensures |s| == length
    {
      data[start..start + length]
    }

    constructor (length: nat, spare: nat)
      requires length + spare <= MAX_LENGTH
      ensures Valid() && fresh(data) && this.length == length && start == 0
    {
      this.data := new Cell<T>[length + spare];
      this.start, this.length := 0, length;
    }

    predicate HasRoom(prepend: nat, append: nat)
      reads this
    {
      start >= prepend && start + length + append <= data.Length
    }

    // Room for more elements before and after; memory says whether there is any.
    method Expand(prepend: nat, append: nat, memory: bool) returns (ok: bool)
      requires Valid()
      modifies this
      ensures Valid() && length == old(length) && (data == old(data) || fresh(data))
      ensures Contents() == old(Contents())
      ensures ok <==> old(HasRoom(prepend, append)) || !Lacks(prepend + length + append, memory)
      ensures ok ==> HasRoom(prepend, append)
      ensures !ok || old(HasRoom(prepend, append)) ==> unchanged(this)
    {
      var after := data.Length - length - start;
      if start >= prepend && after >= append {
        return true;
      }
      var size := prepend + length + append;
      size := if size < 16 then size * 2 else size + size / 2;
      if size > MAX_LENGTH || !memory {
        return false;
      }
      Resize(prepend, size);
      ok := true;
    }

    method Resize(prepend: nat, size: nat)
      requires Valid() && prepend + length <= size <= MAX_LENGTH
      modifies this
      ensures Valid() && length == old(length) && fresh(data) && data.Length == size && start == prepend
      ensures Contents() == old(Contents())
    {
      var room := new Cell<T>[size];
      forall j | prepend <= j < prepend + length {
        room[j] := data[start + (j - prepend)];
      }
      assert room[prepend..prepend + length] == Contents();
      data, start := room, prepend;
    }

    method Set(i: nat, c: Cell<T>)
      requires Valid() && i < length
      modifies data
      ensures Contents() == old(Contents())[i := c]
    {
      data[start + i] := c;
    }

    // The next element goes behind the last one.
    method Append(x: T)
      requires Valid() && start + length < data.Length
      modifies this`length, data
      ensures Valid() && Contents() == old(Contents()) + [Some(x)]
      ensures length == old(length) + 1
    {
      data[start + length] := Some(x);
      length := length + 1;
      assert Contents()[..length - 1] == old(Contents());
    }

    method Push(items: seq<T>, memory: bool) returns (r: Outcome<T>)
      requires Valid()
      modifies this, data
      ensures Valid() && (data == old(data) || fresh(data))
      ensures Steps(Op.Push(items), memory, old(Contents()), Contents(), r)
      ensures r.MemoryError? <==> !old(HasRoom(0, |items| + 1)) && MayFail(Op.Push(items), old(length), memory)
    {
      var ok := Expand(0, |items| + 1, memory);
      if !ok {
        return MemoryError;
      }
      var i := 0;
      ghost var room := data;
      while i < |items|
        invariant 0 <= i <= |items| && data == room && Valid()
        invariant start + length + (|items| - i) <= data.Length
        invariant Contents() == old(Contents()) + Cells(items[..i])
      {
        Append(items[i]);
        assert Cells(items[..i + 1]) == Cells(items[..i]) + [Some(items[i])];
        i := i + 1;
      }
      assert items[..i] == items;
      r := Length(length);
    }

    method Pop() returns (r: Outcome<T>)
      requires Valid()
      modifies this
      ensures Valid() && data == old(data) && Steps(Op.Pop, true, old(Contents()), Contents(), r)
    {
      r := Element(None);
      if length != 0 {
        length := length - 1;
        r := Element(data[start + length]);
        assert old(Contents()) == Contents() + [data[start + length]];
      }
    }

    method Shift() returns (r: Outcome<T>)
      requires Valid()
      modifies this
      ensures Valid() && data == old(data) && Steps(Op.Shift, true, old(Contents()), Contents(), r)
    {
      r := Element(None);
      if length != 0 {
        length := length - 1;
        r := Element(data[start]);
        start := start + 1;
        assert old(Contents()) == [data[start - 1]] + Contents();
      }
    }

    method Unshift(items: seq<T>, memory: bool) returns (r: Outcome<T>)
      requires Valid() && |items| <= 0xffff_ffff
      modifies this, data
      ensures Valid() && (data == old(data) || fresh(data))
      ensures Steps(Op.Unshift(items), memory, old(Contents()), Contents(), r)
      ensures r.MemoryError? <==> !old(HasRoom(|items|, 0)) && MayFail(Op.Unshift(items), old(length), memory)
    {
      if length > 0xffff_ffff - |items| {
        return TypeError;
      }
      if |items| != 0 {
        var ok := Expand(|items|, 0, memory);
        if !ok {
          return MemoryError;
        }
        PutAllBefore(items);
      }
      r := Length(length);
    }

    method PutAllBefore(items: seq<T>)
      requires Valid() && |items| <= start
      modifies this`start, this`length, data
      ensures Valid() && Contents() == Cells(items) + old(Contents())
    {
      ghost var s := Contents();
      length := length + |items|;
      var n := |items|;
      while n > 0
        invariant 0 <= n <= |items| && n <= start && start + length - n <= data.Length
        invariant length == |s| + |items|
        invariant data[start..start + length - n] == Cells(items[n..]) + s
      {
        PutBefore(items[n - 1], n);
        n := n - 1;
        CellsFrom(items, n, s);
      }
      assert items[0..] == items;
    }

    // The next element goes before the first one; n of the elements counted are
    // not there yet.
    method PutBefore(x: T, n: nat)
      requires 0 < start && 1 <= n <= length && start + length - n <= data.Length
      modifies this`start, data
      ensures start == old(start) - 1
      ensures data[start..start + length - (n - 1)] == [Some(x)] + old(data[start..start + length - n])
    {
      start := start - 1;
      data[start] := Some(x);
    }

    method SetLength(n: int, memory: bool) returns (r: Outcome<T>)
      requires Valid()
      modifies this, data
      ensures Valid() && (data == old(data) || fresh(data))
      ensures Steps(Op.SetLength(n), memory, old(Contents()), Contents(), r)
      ensures r.MemoryError? <==>
                MayFail(Op<T>.SetLength(n), old(length), memory) && !old(HasRoom(0, n - length))
    {
      if n < 0 || n > 0xffff_ffff {
        r := RangeError;
        return;
      }
      var size := n - length;
      if size > 0 {
        var ok := Expand(0, size, memory);
        if !ok {
          return MemoryError;
        }
        MakeHoles(size);
      } else {
        Slice(data, start, length, 0, n);
        length := n;
      }
      r := Done;
    }

    // What the storage held behind the last element is cleared.
    method MakeHoles(size0: nat)
      requires Valid() && start + length + size0 <= data.Length
      modifies this`length, data
      ensures Valid() && Contents() == old(Contents()) + Holes(size0)
    {
      var val, size := start + length, size0;
      while size != 0
        invariant val + size == start + length + size0 && 0 <= size <= size0 && length == old(length)
        invariant data[start..val] == old(Contents()) + Holes(size0 - size)
      {
        ghost var was := data[start..val];
        data[val] := None;
        assert data[start..val + 1] == was + [None];
        val, size := val + 1, size - 1;
      }
      length := length + size0;
    }

    method Splice(from: Option<int>, count: Option<int>, items: seq<T>, memory: bool, more: bool)
      returns (r: Outcome<T>, deleted: JsArray?<T>)
      requires Valid() && OpOk(Op.Splice(from, count, items))
      modifies this, data
      ensures Valid() && (data == old(data) || fresh(data))
      ensures Steps(Op.Splice(from, count, items), memory && more, old(Contents()), Contents(), r)
      ensures r.Deleted? ==>
                deleted != null && fresh(deleted) && fresh(deleted.data) && deleted.data != data && deleted.Valid()
                && r.items == deleted.Contents()
      ensures var n := SpliceCount(old(length), from, count);
              r.MemoryError? <==> !memory || (n < |items| && !old(HasRoom(0, |items| - n))
                                              && Lacks(old(length) + |items| - n, more))
    {
      var at, delete := SpliceRange(from, count);
      if !memory {
        return MemoryError, null;
      }
      deleted := CopyOut(at, delete);
      r := Deleted(deleted.data[0..delete]);
      ghost var s := Contents();
      var ok := Exchange(at, delete, items, more);
      if !ok {
        return MemoryError, null;
      }
    }

    method SpliceRange(from: Option<int>, count: Option<int>) returns (at: nat, delete: nat)
      requires Valid() && (count.Some? ==> from.Some?)
      ensures at == SpliceAt(length, from) && delete == SpliceCount(length, from, count)
    {
      at, delete := 0, 0;
      if from.Some? {
        var i := from.value;
        if i < 0 {
          i := i + length;
          if i < 0 {
            i := 0;
          }
        } else if i > length {
          i := length;
        }
        at := i;
        delete := length - at;
        if count.Some? {
          if count.value < 0 {
            delete := 0;
          } else if count.value < delete {
            delete := count.value;
          }
        }
      }
    }

    // The elements to be deleted, in an array of their own.
    method CopyOut(at: nat, delete: nat) returns (deleted: JsArray<T>)
      requires Valid() && at + delete <= length
      ensures fresh(deleted) && fresh(deleted.data) && deleted.Valid()
      ensures deleted.start == 0 && deleted.length == delete && deleted.Contents() == Contents()[at..at + delete]
    {
      deleted := new JsArray(delete, 0);
      var i, n := 0, at;
      ghost var room := deleted.data;
      while i < delete
        invariant 0 <= i <= delete && n == at + i
        invariant deleted.start == 0 && deleted.length == delete && deleted.data == room
        invariant deleted.data[..i] == data[start + at..start + n]
      {
        deleted.data[i] := data[start + n];
        i, n := i + 1, n + 1;
      }
      assert deleted.data[..delete] == deleted.Contents();
      Slice(data, start, length, at, at + delete);
    }

    method Exchange(at: nat, delete: nat, items: seq<T>, memory: bool) returns (ok: bool)
      requires Valid() && at + delete <= length
      modifies this, data
      ensures Valid() && (data == old(data) || fresh(data))
      ensures !ok ==> Contents() == old(Contents())
      ensures !ok <==> |items| > delete && !old(HasRoom(0, |items| - delete))
                       && Lacks(old(length) + |items| - delete, memory)
      ensures ok ==> Contents() == Spliced(old(Contents()), at, delete, Cells(items))
    {
      hide Spliced;
      ghost var s := Contents();
      var delta := |items| - delete;
      if delta != 0 {
        if delta > 0 {
          ok := Expand(0, delta, memory);
          if !ok {
            return;
          }
        }
        Relocate(at, at + |items|, at + delete);
      }
      SamePlaces(s, Contents(), at, delete, Cells(items));
      Fill(at, items);
      ok := true;
    }

    // New elements are written over those from at on.
    method Fill(at: nat, items: seq<T>)
      requires Valid() && at + |items| <= length
      modifies data
      ensures Contents() == Spliced(old(Contents()), at, |items|, Cells(items))
    {
      ghost var s := Contents();
      var i, n := 0, at;
      while i < |items|
        invariant 0 <= i <= |items| && n == at + i
        invariant Contents() == Spliced(s, at, i, Cells(items[..i]))
      {
        Set(n, Some(items[i]));
        FillStep(s, at, items, i);
        i, n := i + 1, n + 1;
      }
      assert items[..i] == items;
    }

    method Relocate(at: nat, to: nat, n: nat)
      requires Valid() && at <= n <= length && at <= to && start + length + to - n <= data.Length
      modifies this`length, data
      ensures Valid() && length == old(length) + to - n
      ensures Contents()[..at] == old(Contents())[..at] && Contents()[to..] == old(Contents())[n..]
    {
      ghost var head, tail := Contents()[..at], Contents()[n..];
      Ends(data, start, length, at, n);
      MoveRest(at, to, n, head, tail);
      length := length + to - n;
      Placed(data, start, length, at, to, head, tail);
    }

    // The elements from n on move to place to, all at once.
    method MoveRest(at: nat, to: nat, n: nat, ghost head: seq<Cell<T>>, ghost tail: seq<Cell<T>>)
      requires Valid() && at <= n <= length && at <= to && start + length + to - n <= data.Length
      requires data[start..start + at] == head && data[start + n..start + length] == tail
      modifies data
      ensures data[start..start + at] == head
      ensures data[start + to..start + to + (length - n)] == tail
    {
      MemMove(data, start + to, start + n, length - n, start, start + at);
    }

    method CopyWithin(to0: int, from0: int, end0: Option<int>) returns (r: Outcome<T>)
      requires Valid()
      modifies data
      ensures Valid() && Steps(Op.CopyWithin(to0, from0, end0), true, old(Contents()), Contents(), r)
    {
      var to: int := Relative(to0, length);
      var from: int := Relative(from0, length);
      var end: int := Relative(if end0.Some? then end0.value else length, length);
      var count := if end - from < length - to then end - from else length - to;
      ghost var n := CopyCount(length, to, from, end);
      CopyCells(to, from, count, n);
      r := Done;
    }

    method CopyCells(to0: nat, from0: nat, count0: int, ghost n: nat)
      requires Valid() && to0 + n <= length && from0 + n <= length && n == if count0 > 0 then count0 else 0
      modifies data
      ensures Copied(old(Contents()), Contents(), to0, from0, n)
    {
      hide Copied;
      var to: int, from: int, count, direction := to0, from0, count0, 1;
      if from < to && from + count != 0 {
        direction, from, to := -1, from + count - 1, to + count - 1;
      }
      ghost var s, i := Contents(), 0;
      CopyStart(s, to0, from0);
      CopyStart(s, to0 + n, from0 + n);
      while count > 0
        invariant 0 <= i <= n && (n > 0 ==> count == n - i) && (n == 0 ==> count <= 0)
        invariant n > 0 ==> direction == if from0 < to0 then -1 else 1
        invariant n > 0 ==> if from0 < to0 then from == from0 + n - 1 - i && to == to0 + n - 1 - i
                            else from == from0 + i && to == to0 + i
        invariant if from0 < to0 then Copied(s, Contents(), to0 + n - i, from0 + n - i, i)
                  else Copied(s, Contents(), to0, from0, i)
      {
        count := count - 1;
        if from0 < to0 {
          CopyDown(s, Contents(), to, from, i);
        } else {
          CopyUp(s, Contents(), to0, from0, i);
        }
        assert data[start + from] == Contents()[from];
        Set(to, data[start + from]);
        from, to, i := from + direction, to + direction, i + 1;
      }
    }

    method Sort(cmp: (T, T) -> Compared) returns (sorted: bool)
      requires Valid()
      modifies data
      ensures Valid() && multiset(Contents()) == multiset(old(Contents()))
      ensures (Contents(), sorted) == SortOf(cmp, old(Contents()))
      ensures Preorder(cmp) && Quiet(cmp) ==>
                sorted && Sorted(cmp, Contents()) && SameClasses(cmp, Contents(), old(Contents()))
    {
      sorted := StableSorting.Sort(data, start, length, cmp);
    }

    method Apply(op: Op<T>, memory: bool) returns (r: Outcome<T>)
      requires Valid() && OpOk(op) && (op.Unshift? ==> |op.items| <= 0xffff_ffff)
      modifies this, data
      ensures Valid() && (data == old(data) || fresh(data))
      ensures Steps(op, memory, old(Contents()), Contents(), r)
    {
      hide Does;
      match op {
        case Push(items) => r := Push(items, memory);
        case Pop => r := Pop();
        case Shift => r := Shift();
        case Unshift(items) => r := Unshift(items, memory);
        case SetLength(n) => r := SetLength(n, memory);
        case Splice(at, count, items) =>
          var deleted;
          r, deleted := Splice(at, count, items, memory, memory);
        case CopyWithin(to, from, end) => r := CopyWithin(to, from, end);
      }
    }

    // A run of operations does to the contents what it does to a sequence.
    method Execute(ops: seq<Op<T>>, memory: seq<bool>) returns (rs: seq<Outcome<T>>, ghost states: seq<seq<Cell<T>>>)
      requires Valid() && |memory| == |ops|
      requires forall i | 0 <= i < |ops| :: OpOk(ops[i]) && (ops[i].Unshift? ==> |ops[i].items| <= 0xffff_ffff)
      modifies this, data
      ensures Valid() && Run(ops, memory, states, rs) && states[0] == old(Contents()) && states[|ops|] == Contents()
    {
      rs, states := [], [Contents()];
      var i := 0;
      while i < |ops|
        invariant 0 <= i <= |ops| && Valid() && (data == old(data) || fresh(data))
        invariant Run(ops[..i], memory[..i], states, rs) && states[0] == old(Contents()) && states[i] == Contents()
      {
        hide Steps;
        var r := Apply(ops[i], memory[i]);
        rs, states, i := rs + [r], states + [Contents()], i + 1;
      }
      assert ops[..i] == ops && memory[..i] == memory;
    }
  }
}
