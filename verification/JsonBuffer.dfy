// Text in bytes, and the chain of buffers in which it is put together.
module JsonBuffer {
  import opened Allocations

  type Byte = n: nat | n < 256

  type Text = seq<Byte>

  const MIN_SIZE := 128

  function Flat(parts: seq<Text>): Text {
    if parts == [] then [] else Flat(parts[..|parts| - 1]) + parts[|parts| - 1]
  }

  // A character of ASCII.
  function C(c: char): Byte
    requires c as int < 128
  {
    c as int
  }

  // What a buffer holds, the room in its last node and the number of allocations
  // asked for; and of the texts whose writer did not look whether there was
  // memory, the allocations they asked for and the bytes that were lost.
  datatype Store = Store(text: Text, room: nat, asked: nat, quiet: set<nat>, lost: nat)

  function NodeSize(size: nat): nat { if size < MIN_SIZE then MIN_SIZE else size }

  // Room is made; a new node is asked for when the last one has not enough.
  function Taken(memory: seq<bool>, a: Store, size: nat): (r: (Store, bool))
    ensures r.0.text == a.text && a.asked <= r.0.asked && (r.1 ==> r.0.room >= size)
  {
    if a.room >= size then (a, true)
    else if Granted(memory, a.asked) then (a.(room := NodeSize(size), asked := a.asked + 1), true)
    else (a.(asked := a.asked + 1), false)
  }

  function Appended(memory: seq<bool>, a: Store, msg: Text): (Store, bool) {
    var (b, ok) := Taken(memory, a, |msg|);
    if msg == [] then (a, true)
    else if ok then (b.(text := b.text + msg, room := b.room - |msg|), true)
    else (b, false)
  }

  class Buffer {
    const memory: seq<bool>
    // What the nodes before the last hold, and the last one if there is any.
    var full: seq<Text>
    var any: bool
    var data: array<Byte>
    var pos: nat
    var asked: nat
    ghost var quiet: set<nat>
    ghost var lost: nat

    ghost predicate Valid()
      reads this
    {
      pos <= data.Length && (!any ==> full == [] && pos == 0)
    }

    ghost function Contents(): Text
      requires Valid()
      reads this, data
    {
      Flat(full) + data[..pos]
    }

    ghost function State(): Store
      requires Valid()
      reads this, data
    {
      Store(Contents(), if any then data.Length - pos else 0, asked, quiet, lost)
    }

    constructor (memory: seq<bool>)
      ensures Valid() && State() == Store([], 0, 0, {}, 0) && fresh(data) && this.memory == memory
    {
      this.memory := memory;
      full, any, pos, asked, quiet, lost := [], false, 0, 0, {}, 0;
      data := new Byte[0];
      new;
      assert Flat(full) + data[..0] == [];
    }

    // An allocation for something else.
    method Ask() returns (ok: bool)
      requires Valid()
      modifies this`asked
      ensures Valid() && ok == Granted(memory, old(asked)) && State() == old(State()).(asked := old(asked) + 1)
    {
      ok := Granted(memory, asked);
      asked := asked + 1;
    }

    method Reserve(size: nat) returns (ok: bool)
      requires Valid() && size > 0
      modifies this`full, this`any, this`data, this`pos, this`asked
      ensures Valid() && (data == old(data) || fresh(data))
      ensures (State(), ok) == Taken(memory, old(State()), size)
      ensures ok ==> any && pos + size <= data.Length
      ensures asked == old(asked) || !ok ==> data == old(data) && pos == old(pos) && any == old(any)
    {
      if any && data.Length - pos >= size {
        return true;
      }
      ok := Granted(memory, asked);
      asked := asked + 1;
      if !ok {
        return;
      }
      ghost var text := Contents();
      var node := new Byte[NodeSize(size)];
      if any {
        assert (full + [data[..pos]])[..|full|] == full;
        full := full + [data[..pos]];
      } else {
        assert Flat([]) + data[..0] == [];
      }
      any, data, pos := true, node, 0;
      assert Flat(full) + data[..0] == text;
    }

    method Written(bytes: nat)
      requires Valid() && any && pos + bytes <= data.Length
      modifies this`pos
      ensures Valid() && pos == old(pos) + bytes
      ensures var a := old(State());
              a.room >= bytes && State() == a.(text := a.text + data[old(pos)..pos], room := a.room - bytes)
    {
      hide Flat;
      assert data[..pos + bytes] == data[..pos] + data[pos..pos + bytes];
      assert Flat(full) + data[..pos + bytes] == Contents() + data[pos..pos + bytes];
      pos := pos + bytes;
    }

    method Append(msg: Text) returns (ok: bool)
      requires Valid()
      modifies this`full, this`any, this`data, this`pos, this`asked, data
      ensures Valid() && (data == old(data) || fresh(data))
      ensures (State(), ok) == Appended(memory, old(State()), msg)
    {
      hide Flat;
      ok := true;
      if |msg| != 0 {
        ok := Reserve(|msg|);
        if ok {
          Put(pos, msg);
          assert data[pos..pos + |msg|] == msg;
          Written(|msg|);
        }
      }
    }

    // Bytes behind those counted.
    method Put(at: nat, msg: Text)
      requires Valid() && pos <= at && at + |msg| <= data.Length
      modifies data
      ensures Valid() && data[pos..at + |msg|] == old(data[pos..at]) + msg && State() == old(State())
    {
      forall i | at <= i < at + |msg| {
        data[i] := msg[i - at];
      }
      assert data[..pos] == old(data[..pos]);
    }

    // All the text in one piece.
    method Pullup() returns (text: Text)
      requires Valid()
      ensures text == Contents()
    {
      if !any {
        assert Flat(full) + data[..0] == [];
        return [];
      }
      text := [];
      var i := 0;
      while i < |full|
        invariant 0 <= i <= |full| && text == Flat(full[..i])
      {
        assert full[..i + 1][..i] == full[..i];
        text := text + full[i];
        i := i + 1;
      }
      assert full[..i] == full;
      text := text + data[..pos];
    }
  }
}
