// The serializer, which keeps its own stack of containers.
module JsonSerializer {
  import opened Allocations
  import opened JsonBuffer
  import opened JsonStrings
  import opened JsonStringCode
  import opened JsonText

  // ----- what the steps do to the stack -----

  // What stands before the value of an entry.
  function EntryHead<N>(v: Value<N>, n: nat, written: bool): Text
    requires n < Length(v)
  {
    (if written then COMMA else []) + (if v.Obj? then Quoted(v.members[n].key) + COLON else [])
  }

  predicate Skipped<N>(v: Value<N>, n: nat)
    requires n < Length(v)
  {
    v.Obj? && v.members[n].value.Undefined?
  }

  function Opening<N>(st: State<N>): Text { if st.index == 0 then OpenText(st.value) else [] }

  function Top<N>(states: seq<State<N>>): State<N>
    requires states != []
  {
    states[|states| - 1]
  }

  function WithTop<N>(states: seq<State<N>>, st: State<N>): (r: seq<State<N>>)
    requires states != []
    ensures |r| == |states| && r[..|states| - 1] == states[..|states| - 1] && r[|states| - 1] == st
  {
    states[|states| - 1 := st]
  }

  // An entry that is no container, or is left out, is passed.
  lemma Advanced<N>(pr: Printer<N>, states: seq<State<N>>)
    requires StackOk(states) && Top(states).index < Length(Top(states).value)
    requires !IsContainer(Entry(Top(states).value, Top(states).index))
    ensures var st := Top(states);
            var skipped := Skipped(st.value, st.index);
            var next := WithTop(states, State(st.value, st.index + 1, st.written || !skipped));
            && StackOk(next) && next[0].value == states[0].value && StackLeft(next) < StackLeft(states)
            && RestAll(pr, states)
               == Opening(st)
                  + (if skipped then []
                     else EntryHead(st.value, st.index, st.written) + TextOf(pr, Entry(st.value, st.index)))
                  + RestAll(pr, next)
  {
    hide TextOf, Rest, Depth, Left, Quoted, Passed;
    var st := Top(states);
    RestEntry(pr, st.value, st.index, st.written);
    PassedNext(st.value, st.index);
    LeftNext(st.value, st.index);
    NoDepth(Entry(st.value, st.index));
    var skipped := Skipped(st.value, st.index);
    var next := WithTop(states, State(st.value, st.index + 1, st.written || !skipped));
    Kept(states, next);
  }

  lemma NoDepth<N>(v: Value<N>)
    requires !IsContainer(v)
    ensures Depth(v) == 0
  {
  }

  // The stack below the top is as it was.
  lemma Kept<N>(states: seq<State<N>>, next: seq<State<N>>)
    requires StackOk(states) && |next| == |states| && next[..|states| - 1] == states[..|states| - 1]
    requires Top(next).value == Top(states).value && Top(next).index <= Length(Top(next).value)
    requires Passed(Top(next).value, Top(next).index) < MAX_DEPTH - (|states| - 1)
    ensures StackOk(next) && next[0].value == states[0].value
  {
    hide Passed;
    assert forall i | 0 <= i < |states| - 1 :: next[i] == next[..|states| - 1][i] == states[i];
    forall i | 0 < i < |next| ensures BelowOk(next[i - 1], next[i], i) {
      assert BelowOk(states[i - 1], states[i], i);
    }
  }

  // A container is pushed.
  lemma Pushed<N>(pr: Printer<N>, states: seq<State<N>>, written: bool)
    requires StackOk(states) && Top(states).index < Length(Top(states).value) && |states| < MAX_DEPTH
    requires IsContainer(Entry(Top(states).value, Top(states).index))
    ensures var st := Top(states);
            var e := Entry(st.value, st.index);
            var next := WithTop(states, State(st.value, st.index + 1, written)) + [State(e, 0, false)];
            && StackOk(next) && next[0].value == states[0].value && StackLeft(next) < StackLeft(states)
            && RestAll(pr, states) == Opening(st) + EntryHead(st.value, st.index, st.written) + RestAll(pr, next)
  {
    hide TextOf, Rest, RestAll, Depth, Left, Quoted, Passed, EntryHead;
    var st := Top(states);
    var e := Entry(st.value, st.index);
    var below := WithTop(states, State(st.value, st.index + 1, written));
    var next := below + [State(e, 0, false)];
    PushedText(pr, states, written);
    LeftNext(st.value, st.index);
    LeftStart(e);
    assert next[..|next| - 1] == below;
    PushedOk(states, below, e, next);
  }

  lemma PushedText<N>(pr: Printer<N>, states: seq<State<N>>, written: bool)
    requires StackOk(states) && Top(states).index < Length(Top(states).value)
    requires IsContainer(Entry(Top(states).value, Top(states).index))
    ensures var st := Top(states);
            var e := Entry(st.value, st.index);
            var next := WithTop(states, State(st.value, st.index + 1, written)) + [State(e, 0, false)];
            RestAll(pr, states) == Opening(st) + EntryHead(st.value, st.index, st.written) + RestAll(pr, next)
  {
    hide TextOf, Rest, Depth, Left, Quoted, Passed, StackOk;
    TopOk(states);
    var st := Top(states);
    var e := Entry(st.value, st.index);
    var below := WithTop(states, State(st.value, st.index + 1, written));
    var next := below + [State(e, 0, false)];
    RestEntry(pr, st.value, st.index, st.written);
    RestStart(pr, e);
    assert next[..|next| - 1] == below;
  }

  lemma PushedOk<N>(states: seq<State<N>>, below: seq<State<N>>, e: Value<N>, next: seq<State<N>>)
    requires StackOk(states) && |states| < MAX_DEPTH && Top(states).index < Length(Top(states).value)
    requires IsContainer(e) && e == Entry(Top(states).value, Top(states).index)
    requires |below| == |states| && below[..|states| - 1] == states[..|states| - 1]
    requires Top(below).value == Top(states).value && Top(below).index == Top(states).index + 1
    requires next == below + [State(e, 0, false)]
    ensures StackOk(next) && next[0].value == states[0].value
  {
    var k := |states|;
    assert forall i | 0 <= i < k - 1 :: next[i] == below[..k - 1][i] == states[i];
    assert Passed(e, 0) == 0;
    forall i | 0 < i < |next| ensures BelowOk(next[i - 1], next[i], i) {
      if i < k {
        assert BelowOk(states[i - 1], states[i], i);
      }
    }
  }

  // A container that has been written is popped.
  lemma Popped<N>(pr: Printer<N>, states: seq<State<N>>)
    requires StackOk(states) && Top(states).index == Length(Top(states).value)
    ensures var st := Top(states);
            if |states| == 1 then
              && RestAll(pr, states) == Opening(st) + CloseText(st.value) && Depth(states[0].value) <= MAX_DEPTH
            else
              var below := states[..|states| - 1];
              var next := WithTop(below, Top(below).(written := true));
              && StackOk(next) && next[0].value == states[0].value && StackLeft(next) < StackLeft(states)
              && RestAll(pr, states) == Opening(st) + CloseText(st.value) + RestAll(pr, next)
  {
    hide TextOf, Rest, Depth, Quoted, Passed;
    var st := Top(states);
    RestEnd(pr, st.value, st.written);
    PassedAll(st.value);
    if |states| > 1 {
      var k := |states|;
      var below := states[..k - 1];
      var up := Top(below);
      assert BelowOk(states[k - 2], states[k - 1], k - 1);
      PassedNext(up.value, up.index - 1);
      var next := WithTop(below, up.(written := true));
      forall i | 0 < i < |below| ensures BelowOk(below[i - 1], below[i], i) {
        assert BelowOk(states[i - 1], states[i], i);
      }
      Kept(below, next);
    }
  }

  // ----- writing -----

  datatype Outcome = Continue | Finished | TooMuch | OutOfMemory

  // The allocations a up to b.
  function Range(a: nat, b: nat): (r: set<nat>)
    ensures forall i :: i in r <==> a <= i < b
    decreases b - a
  {
    if a >= b then {} else {a} + Range(a + 1, b)
  }

  function Asked(memory: seq<bool>, a: Store): (Store, bool) {
    (a.(asked := a.asked + 1), Granted(memory, a.asked))
  }

  // From a to k the key was written, and nobody looked whether there was memory.
  function Unnoticed(a: Store, k: Store, key: Text): Store
  {
    var w := |k.text| - |a.text|;
    k.(quiet := a.quiet + Range(a.asked, k.asked), lost := a.lost + if w < |Quoted(key)| then |Quoted(key)| - w else 0)
  }

  // From a to b what stands before the value of an entry was written.
  ghost predicate HeadWritten<N>(memory: seq<bool>, a: Store, v: Value<N>, n: nat, written: bool, b: Store, ok: bool)
    requires n < Length(v)
  {
    var (c, fine) := if written then Appended(memory, a, COMMA) else (a, true);
    if !fine || !v.Obj? then b == c && ok == fine
    else
      exists k, noticed ::
        && StringWritten(memory, c, v.members[n].key, k, noticed)
        && (b, ok) == Appended(memory, Unnoticed(c, k, v.members[n].key), COLON)
  }

  // Numbers ask for room for 64 bytes, which all have.
  function NumberAppended(memory: seq<bool>, a: Store, msg: Text): (Store, bool) {
    var (b, ok) := Taken(memory, a, if |msg| <= 64 then 64 else |msg|);
    if ok then (b.(text := b.text + msg, room := b.room - |msg|), true) else (b, false)
  }

  ghost predicate ValueWritten<N>(memory: seq<bool>, pr: Printer<N>, a: Store, v: Value<N>, b: Store, ok: bool) {
    if v.Str? then StringWritten(memory, a, v.s, b, ok)
    else if v.Num? && pr.finite(v.n) then (b, ok) == NumberAppended(memory, a, pr.write(v.n))
    else (b, ok) == Appended(memory, a, if v.Bool? then if v.b then TRUE else FALSE else NULL)
  }

  // One turn of the loop, from a to b: the container at the top is opened if need
  // be, and then its next entry is written, or pushed, or the container is closed.
  ghost predicate Turn<N>(memory: seq<bool>, pr: Printer<N>, a: Store, states: seq<State<N>>, b: Store,
                          next: seq<State<N>>, outcome: Outcome)
    requires states != []
  {
    var st := Top(states);
    var (o, ok) := if st.index == 0 then Appended(memory, a, OpenText(st.value)) else (a, true);
    if !ok then b == o && outcome == OutOfMemory
    else if st.index >= Length(st.value) then Closes(memory, o, states, b, next, outcome)
    else Enters(memory, pr, o, states, b, next, outcome)
  }

  ghost predicate Closes<N>(memory: seq<bool>, o: Store, states: seq<State<N>>, b: Store, next: seq<State<N>>,
                            outcome: Outcome)
    requires states != []
  {
    var (c, ok) := Appended(memory, o, CloseText(Top(states).value));
    && b == c
    && (if !ok then outcome == OutOfMemory
        else if |states| == 1 then outcome == Finished
        else
          var below := states[..|states| - 1];
          outcome == Continue && next == WithTop(below, Top(below).(written := true)))
  }

  ghost predicate Enters<N>(memory: seq<bool>, pr: Printer<N>, o: Store, states: seq<State<N>>, b: Store,
                            next: seq<State<N>>, outcome: Outcome)
    requires states != [] && Top(states).index < Length(Top(states).value)
  {
    var st := Top(states);
    if Skipped(st.value, st.index) then
      b == o && outcome == Continue && next == WithTop(states, State(st.value, st.index + 1, st.written))
    else
      exists h, ok ::
        && HeadWritten(memory, o, st.value, st.index, st.written, h, ok)
        && (if ok then Follows(memory, pr, h, states, b, next, outcome) else b == h && outcome == OutOfMemory)
  }

  // What follows the head of an entry.
  ghost predicate Follows<N>(memory: seq<bool>, pr: Printer<N>, h: Store, states: seq<State<N>>, b: Store,
                             next: seq<State<N>>, outcome: Outcome)
    requires states != [] && Top(states).index < Length(Top(states).value)
  {
    var st := Top(states);
    var e := Entry(st.value, st.index);
    if !IsContainer(e) then
      if outcome == Continue then
        ValueWritten(memory, pr, h, e, b, true) && next == WithTop(states, State(st.value, st.index + 1, true))
      else outcome == OutOfMemory && ValueWritten(memory, pr, h, e, b, false)
    else if |states| >= MAX_DEPTH then b == h && outcome == TooMuch
    else
      var (k, ok) := if e.Obj? then Asked(memory, h) else (h, true);
      && b == k
      && (if !ok then outcome == OutOfMemory
          else
            var written := st.value.Obj? || st.written;
            && outcome == Continue
            && next == WithTop(states, State(st.value, st.index + 1, written)) + [State(e, 0, false)])
  }

  method AppendQuoted(buffer: Buffer, s: Text) returns (ok: bool)
    requires buffer.Valid()
    modifies buffer`full, buffer`any, buffer`data, buffer`pos, buffer`asked, buffer.data
    ensures buffer.Valid() && (buffer.data == old(buffer.data) || fresh(buffer.data))
    ensures StringWritten(buffer.memory, old(buffer.State()), s, buffer.State(), ok)
  {
    hide Characters, StringWritten;
    ok := AppendString(buffer, s, Characters(s));
  }

  method AppendNumber(buffer: Buffer, msg: Text) returns (ok: bool)
    requires buffer.Valid()
    modifies buffer`full, buffer`any, buffer`data, buffer`pos, buffer`asked, buffer.data
    ensures buffer.Valid() && (buffer.data == old(buffer.data) || fresh(buffer.data))
    ensures (buffer.State(), ok) == NumberAppended(buffer.memory, old(buffer.State()), msg)
  {
    ok := buffer.Reserve(if |msg| <= 64 then 64 else |msg|);
    if ok {
      buffer.Put(buffer.pos, msg);
      assert buffer.data[buffer.pos..buffer.pos + |msg|] == msg;
      buffer.Written(|msg|);
    }
  }

  method AppendValue<N>(buffer: Buffer, pr: Printer<N>, v: Value<N>) returns (ok: bool)
    requires buffer.Valid() && !IsContainer(v)
    modifies buffer`full, buffer`any, buffer`data, buffer`pos, buffer`asked, buffer.data
    ensures buffer.Valid() && (buffer.data == old(buffer.data) || fresh(buffer.data))
    ensures ValueWritten(buffer.memory, pr, old(buffer.State()), v, buffer.State(), ok)
  {
    hide StringWritten, Appended, NumberAppended;
    if v.Str? {
      ok := AppendQuoted(buffer, v.s);
    } else if v.Num? && pr.finite(v.n) {
      ok := AppendNumber(buffer, pr.write(v.n));
    } else if v.Bool? {
      ok := buffer.Append(if v.b then TRUE else FALSE);
    } else {
      ok := buffer.Append(NULL);
    }
  }

  // A memory error is given back, but not for the key.
  method AppendHead<N>(buffer: Buffer, v: Value<N>, n: nat, written: bool) returns (ok: bool)
    requires buffer.Valid() && n < Length(v)
    modifies buffer, buffer.data
    ensures buffer.Valid() && (buffer.data == old(buffer.data) || fresh(buffer.data))
    ensures HeadWritten(buffer.memory, old(buffer.State()), v, n, written, buffer.State(), ok)
  {
    hide Appended, StringWritten, Unnoticed;
    ghost var was := buffer.State();
    ok := true;
    if written {
      ok := buffer.Append(COMMA);
      if !ok {
        return;
      }
    }
    if v.Obj? {
      ghost var a := buffer.State();
      var unnoticed := AppendQuoted(buffer, v.members[n].key);
      ghost var k := buffer.State();
      assert StringWritten(buffer.memory, a, v.members[n].key, k, unnoticed);
      buffer.quiet := a.quiet + Range(a.asked, k.asked);
      buffer.lost := Unnoticed(a, k, v.members[n].key).lost;
      UnnoticedParts(a, k, v.members[n].key);
      assert buffer.State() == Unnoticed(a, k, v.members[n].key);
      ok := buffer.Append(COLON);
      HeadIs(buffer.memory, was, v, n, written, a, k, unnoticed, buffer.State(), ok);
    }
  }

  lemma UnnoticedParts(a: Store, k: Store, key: Text)
    ensures var u := Unnoticed(a, k, key); u == k.(quiet := a.quiet + Range(a.asked, k.asked), lost := u.lost)
  {
  }

  lemma HeadIs<N>(memory: seq<bool>, a: Store, v: Value<N>, n: nat, written: bool, c: Store, k: Store, noticed: bool,
                  b: Store, ok: bool)
    requires n < Length(v) && v.Obj? && (c, true) == if written then Appended(memory, a, COMMA) else (a, true)
    requires StringWritten(memory, c, v.members[n].key, k, noticed)
    requires (b, ok) == Appended(memory, Unnoticed(c, k, v.members[n].key), COLON)
    ensures HeadWritten(memory, a, v, n, written, b, ok)
  {
    var (c1, fine) := if written then Appended(memory, a, COMMA) else (a, true);
    assert c1 == c && fine;
    assert StringWritten(memory, c1, v.members[n].key, k, noticed);
    assert (b, ok) == Appended(memory, Unnoticed(c1, k, v.members[n].key), COLON);
    assert exists k, noticed ::
        && StringWritten(memory, c1, v.members[n].key, k, noticed)
        && (b, ok) == Appended(memory, Unnoticed(c1, k, v.members[n].key), COLON);
  }

  method Step<N>(buffer: Buffer, pr: Printer<N>, states: seq<State<N>>) returns (next: seq<State<N>>, outcome: Outcome)
    requires buffer.Valid() && states != [] && IsContainer(Top(states).value)
    modifies buffer, buffer.data
    ensures buffer.Valid() && (buffer.data == old(buffer.data) || fresh(buffer.data))
    ensures Turn(buffer.memory, pr, old(buffer.State()), states, buffer.State(), next, outcome)
  {
    hide Appended, HeadWritten, Enters;
    next := states;
    var st := Top(states);
    var ok := true;
    if st.index == 0 {
      ok := buffer.Append(OpenText(st.value));
      if !ok {
        return next, OutOfMemory;
      }
    }
    if st.index < Length(st.value) {
      next, outcome := NextEntry(buffer, pr, states);
      return;
    }
    ok := buffer.Append(CloseText(st.value));
    if !ok {
      return next, OutOfMemory;
    }
    if |states| == 1 {
      return next, Finished;
    }
    var below := states[..|states| - 1];
    next := WithTop(below, Top(below).(written := true));
    outcome := Continue;
  }

  method NextEntry<N>(buffer: Buffer, pr: Printer<N>, states: seq<State<N>>)
    returns (next: seq<State<N>>, outcome: Outcome)
    requires buffer.Valid() && states != [] && Top(states).index < Length(Top(states).value)
    modifies buffer, buffer.data
    ensures buffer.Valid() && (buffer.data == old(buffer.data) || fresh(buffer.data))
    ensures Enters(buffer.memory, pr, old(buffer.State()), states, buffer.State(), next, outcome)
  {
    hide HeadWritten, ValueWritten;
    next := states;
    var st := Top(states);
    var e := Entry(st.value, st.index);
    if Skipped(st.value, st.index) {
      next := WithTop(states, State(st.value, st.index + 1, st.written));
      return next, Continue;
    }
    var ok := AppendHead(buffer, st.value, st.index, st.written);
    if !ok {
      return next, OutOfMemory;
    }
    if !IsContainer(e) {
      ok := AppendValue(buffer, pr, e);
      next := WithTop(states, State(st.value, st.index + 1, true));
      outcome := if ok then Continue else OutOfMemory;
      return;
    }
    if |states| >= MAX_DEPTH {
      return next, TooMuch;
    }
    if e.Obj? {
      ok := buffer.Ask();
      if !ok {
        return next, OutOfMemory;
      }
    }
    var written := if st.value.Obj? then true else st.written;
    next := WithTop(states, State(st.value, st.index + 1, written)) + [State(e, 0, false)];
    outcome := Continue;
  }

  // ----- what is written -----

  // All refused allocations were asked for by keys.
  ghost predicate Calm(memory: seq<bool>, a: Store) {
    && (forall i | i in a.quiet :: i < a.asked)
    && (forall i | 0 <= i < a.asked && i !in a.quiet :: Granted(memory, i))
  }

  ghost predicate Refused(memory: seq<bool>, a: Store) {
    && (forall i | i in a.quiet :: i < a.asked)
    && exists i :: 0 <= i < a.asked && i !in a.quiet && !Granted(memory, i)
  }

  // An allocation for a key was refused.
  ghost predicate KeyRefused(memory: seq<bool>, quiet: set<nat>) {
    exists i :: i in quiet && !Granted(memory, i)
  }

  // The text so far and what is still to be written are all the text, but for what
  // was lost, which is nothing just when no allocation for a key was refused.
  ghost predicate OnTrack(memory: seq<bool>, a: Store, rest: Text, all: Text) {
    && Calm(memory, a) && |a.text| + a.lost + |rest| == |all| && (a.lost == 0 ==> a.text + rest == all)
    && (a.lost > 0 <==> KeyRefused(memory, a.quiet))
  }

  lemma AppendedTracks(memory: seq<bool>, a: Store, msg: Text, rest: Text, all: Text)
    requires OnTrack(memory, a, msg + rest, all)
    ensures var (b, ok) := Appended(memory, a, msg);
            if ok then OnTrack(memory, b, rest, all) else Refused(memory, b)
  {
    TakenTracks(memory, a, |msg|, msg, rest, all);
    assert (a.text + msg) + rest == a.text + (msg + rest);
  }

  lemma TakenTracks(memory: seq<bool>, a: Store, size: nat, msg: Text, rest: Text, all: Text)
    requires OnTrack(memory, a, msg + rest, all)
    ensures var (b, ok) := Taken(memory, a, size);
            if ok then OnTrack(memory, b, msg + rest, all) else Refused(memory, b)
  {
    if !Taken(memory, a, size).1 {
      assert a.asked !in a.quiet;
    }
  }

  lemma NumberTracks(memory: seq<bool>, a: Store, msg: Text, rest: Text, all: Text)
    requires OnTrack(memory, a, msg + rest, all)
    ensures var (b, ok) := NumberAppended(memory, a, msg);
            if ok then OnTrack(memory, b, rest, all) else Refused(memory, b)
  {
    TakenTracks(memory, a, if |msg| <= 64 then 64 else |msg|, msg, rest, all);
    assert (a.text + msg) + rest == a.text + (msg + rest);
  }

  lemma StringTracks(memory: seq<bool>, a: Store, s: Text, b: Store, ok: bool, rest: Text, all: Text)
    requires StringWritten(memory, a, s, b, ok) && OnTrack(memory, a, Quoted(s) + rest, all)
    ensures if ok then OnTrack(memory, b, rest, all) else Refused(memory, b)
  {
    hide Quoted;
    var q := Quoted(s);
    if ok {
      assert q[..|q|] == q;
      assert (a.text + q) + rest == a.text + (q + rest);
    } else {
      assert b.asked - 1 !in b.quiet && !Granted(memory, b.asked - 1);
    }
  }

  lemma KeyTracks(memory: seq<bool>, a: Store, key: Text, k: Store, noticed: bool, rest: Text, all: Text)
    requires StringWritten(memory, a, key, k, noticed) && OnTrack(memory, a, Quoted(key) + rest, all)
    ensures OnTrack(memory, Unnoticed(a, k, key), rest, all)
  {
    hide Quoted;
    var q, b := Quoted(key), Unnoticed(a, k, key);
    if noticed {
      assert q[..|q|] == q;
      assert (a.text + q) + rest == a.text + (q + rest);
    } else {
      assert k.asked - 1 in b.quiet && !Granted(memory, k.asked - 1);
    }
  }

  lemma HeadTracks<N>(memory: seq<bool>, a: Store, v: Value<N>, n: nat, written: bool, b: Store, ok: bool, rest: Text,
                      all: Text)
    requires n < Length(v) && HeadWritten(memory, a, v, n, written, b, ok)
    requires OnTrack(memory, a, EntryHead(v, n, written) + rest, all)
    ensures if ok then OnTrack(memory, b, rest, all) else Refused(memory, b)
  {
    hide OnTrack, Refused, Appended, Quoted, StringWritten;
    var tail := if v.Obj? then Quoted(v.members[n].key) + COLON + rest else rest;
    assert EntryHead(v, n, written) + rest == (if written then COMMA else []) + tail;
    var c := a;
    if written {
      AppendedTracks(memory, a, COMMA, tail, all);
      c := Appended(memory, a, COMMA).0;
    } else {
      assert [] + tail == tail;
    }
    if v.Obj? && (written ==> Appended(memory, a, COMMA).1) {
      var key := v.members[n].key;
      var k, noticed :|
        StringWritten(memory, c, key, k, noticed) && (b, ok) == Appended(memory, Unnoticed(c, k, key), COLON);
      assert Quoted(key) + COLON + rest == Quoted(key) + (COLON + rest);
      KeyTracks(memory, c, key, k, noticed, COLON + rest, all);
      AppendedTracks(memory, Unnoticed(c, k, key), COLON, rest, all);
    }
  }

  lemma ValueTracks<N>(memory: seq<bool>, pr: Printer<N>, a: Store, v: Value<N>, b: Store, ok: bool, rest: Text,
                       all: Text)
    requires !IsContainer(v) && ValueWritten(memory, pr, a, v, b, ok) && OnTrack(memory, a, TextOf(pr, v) + rest, all)
    ensures if ok then OnTrack(memory, b, rest, all) else Refused(memory, b)
  {
    hide OnTrack, Refused, Appended, NumberAppended, Quoted, StringWritten;
    if v.Str? {
      StringTracks(memory, a, v.s, b, ok, rest, all);
    } else if v.Num? && pr.finite(v.n) {
      NumberTracks(memory, a, pr.write(v.n), rest, all);
    } else {
      AppendedTracks(memory, a, TextOf(pr, v), rest, all);
    }
  }

  // Where a turn of the loop leads.
  ghost predicate Stepped<N>(memory: seq<bool>, pr: Printer<N>, states: seq<State<N>>, all: Text, b: Store,
                             next: seq<State<N>>, outcome: Outcome)
    requires StackOk(states)
  {
    match outcome
    case Continue =>
      && StackOk(next) && next[0].value == states[0].value && StackLeft(next) < StackLeft(states)
      && OnTrack(memory, b, RestAll(pr, next), all)
    case Finished => Depth(states[0].value) <= MAX_DEPTH && OnTrack(memory, b, [], all)
    case TooMuch => Depth(states[0].value) > MAX_DEPTH && Calm(memory, b)
    case OutOfMemory => Refused(memory, b)
  }

  lemma TurnTracks<N>(memory: seq<bool>, pr: Printer<N>, a: Store, states: seq<State<N>>, b: Store,
                      next: seq<State<N>>, outcome: Outcome, all: Text)
    requires StackOk(states) && Turn(memory, pr, a, states, b, next, outcome)
    requires OnTrack(memory, a, RestAll(pr, states), all)
    ensures Stepped(memory, pr, states, all, b, next, outcome)
  {
    hide StackOk, RestAll, StackLeft, Depth, OnTrack, Refused, Appended, Enters, Closes;
    TopOk(states);
    var st := Top(states);
    var (o, ok) := if st.index == 0 then Appended(memory, a, OpenText(st.value)) else (a, true);
    var rest := RestOpened(pr, states);
    if st.index == 0 {
      AppendedTracks(memory, a, OpenText(st.value), rest, all);
    } else {
      assert [] + rest == rest;
    }
    if ok {
      if st.index >= Length(st.value) {
        ClosesTracks(memory, pr, o, states, b, next, outcome, all);
      } else {
        EntersTracks(memory, pr, o, states, b, next, outcome, all);
      }
    }
  }

  // What the stack has still to write when its top has been opened.
  function RestOpened<N>(pr: Printer<N>, states: seq<State<N>>): (rest: Text)
    requires StackOk(states)
    ensures RestAll(pr, states) == Opening(Top(states)) + rest
  {
    hide Rest, RestAll, StackOk, TextOf, Opening, Passed, Depth;
    OpensRest(pr, states);
    RestAll(pr, states)[|Opening(Top(states))|..]
  }

  lemma OpensRest<N>(pr: Printer<N>, states: seq<State<N>>)
    requires StackOk(states)
    ensures var o, rest := Opening(Top(states)), RestAll(pr, states);
            |o| <= |rest| && rest == o + rest[|o|..]
  {
    hide TextOf, Rest, Depth, Left, Quoted, Passed;
    TopOk(states);
    var st := Top(states);
    if st.index < Length(st.value) {
      RestEntry(pr, st.value, st.index, st.written);
    } else {
      RestEnd(pr, st.value, st.written);
    }
  }

  lemma ClosesTracks<N>(memory: seq<bool>, pr: Printer<N>, o: Store, states: seq<State<N>>, b: Store,
                        next: seq<State<N>>, outcome: Outcome, all: Text)
    requires StackOk(states) && Top(states).index >= Length(Top(states).value)
    requires Closes(memory, o, states, b, next, outcome) && OnTrack(memory, o, RestOpened(pr, states), all)
    ensures Stepped(memory, pr, states, all, b, next, outcome)
  {
    hide StackOk, RestAll, StackLeft, Depth, OnTrack, Refused, Appended, RestOpened;
    TopOk(states);
    Popped(pr, states);
    var st := Top(states);
    var after := if |states| == 1 then []
                 else RestAll(pr, WithTop(states[..|states| - 1], Top(states[..|states| - 1]).(written := true)));
    assert Opening(st) + CloseText(st.value) + after == Opening(st) + (CloseText(st.value) + after);
    SameTail(Opening(st), CloseText(st.value) + after, RestOpened(pr, states));
    AppendedTracks(memory, o, CloseText(st.value), after, all);
  }

  lemma SameTail(a: Text, b: Text, c: Text)
    requires a + b == a + c
    ensures b == c
  {
    assert b == (a + b)[|a|..] && c == (a + c)[|a|..];
  }

  lemma EntersTracks<N>(memory: seq<bool>, pr: Printer<N>, o: Store, states: seq<State<N>>, b: Store,
                        next: seq<State<N>>, outcome: Outcome, all: Text)
    requires StackOk(states) && Top(states).index < Length(Top(states).value)
    requires Enters(memory, pr, o, states, b, next, outcome) && OnTrack(memory, o, RestOpened(pr, states), all)
    ensures Stepped(memory, pr, states, all, b, next, outcome)
  {
    hide StackOk, RestAll, StackLeft, Depth, OnTrack, Refused, RestOpened, HeadWritten, Follows, EntryHead, TextOf;
    TopOk(states);
    var st := Top(states);
    if Skipped(st.value, st.index) {
      Advanced(pr, states);
      assert Opening(st) + [] + RestAll(pr, next) == Opening(st) + RestAll(pr, next);
      SameTail(Opening(st), RestAll(pr, next), RestOpened(pr, states));
    } else {
      var h, ok :|
        && HeadWritten(memory, o, st.value, st.index, st.written, h, ok)
        && (if ok then Follows(memory, pr, h, states, b, next, outcome) else b == h && outcome == OutOfMemory);
      var rest := AfterHead(pr, states);
      SameTail(Opening(st), EntryHead(st.value, st.index, st.written) + rest, RestOpened(pr, states));
      HeadTracks(memory, o, st.value, st.index, st.written, h, ok, rest, all);
      if ok {
        FollowsTracks(memory, pr, h, states, b, next, outcome, all);
      }
    }
  }

  // What is still to be written after the head of the next entry.
  function AfterHead<N>(pr: Printer<N>, states: seq<State<N>>): (rest: Text)
    requires StackOk(states) && Top(states).index < Length(Top(states).value)
    requires !Skipped(Top(states).value, Top(states).index)
    ensures var st := Top(states);
            RestAll(pr, states) == Opening(st) + (EntryHead(st.value, st.index, st.written) + rest)
  {
    var st := Top(states);
    var head := Opening(st) + EntryHead(st.value, st.index, st.written);
    hide Rest, RestAll, StackOk, TextOf, EntryHead;
    HeadFirst(pr, states);
    RestAll(pr, states)[|head|..]
  }

  lemma HeadFirst<N>(pr: Printer<N>, states: seq<State<N>>)
    requires StackOk(states) && Top(states).index < Length(Top(states).value)
    requires !Skipped(Top(states).value, Top(states).index)
    ensures var st := Top(states);
            var head := Opening(st) + EntryHead(st.value, st.index, st.written);
            && head <= RestAll(pr, states)
            && RestAll(pr, states)
               == Opening(st) + (EntryHead(st.value, st.index, st.written) + RestAll(pr, states)[|head|..])
  {
    hide TextOf, Rest, Depth, Left, Quoted, Passed;
    TopOk(states);
    var st := Top(states);
    RestEntry(pr, st.value, st.index, st.written);
    var head := Opening(st) + EntryHead(st.value, st.index, st.written);
    assert head <= RestAll(pr, states);
    assert RestAll(pr, states) == head + RestAll(pr, states)[|head|..];
  }

  lemma FollowsTracks<N>(memory: seq<bool>, pr: Printer<N>, h: Store, states: seq<State<N>>, b: Store,
                         next: seq<State<N>>, outcome: Outcome, all: Text)
    requires StackOk(states) && Top(states).index < Length(Top(states).value)
    requires !Skipped(Top(states).value, Top(states).index)
    requires Follows(memory, pr, h, states, b, next, outcome) && OnTrack(memory, h, AfterHead(pr, states), all)
    ensures Stepped(memory, pr, states, all, b, next, outcome)
  {
    hide StackOk, RestAll, StackLeft, Depth, OnTrack, Refused, EntryHead, TextOf, AfterHead, ValueWritten;
    TopOk(states);
    var st := Top(states);
    var e := Entry(st.value, st.index);
    var head := EntryHead(st.value, st.index, st.written);
    if !IsContainer(e) {
      Advanced(pr, states);
      var after := RestAll(pr, WithTop(states, State(st.value, st.index + 1, true)));
      assert Opening(st) + (head + TextOf(pr, e)) + after == Opening(st) + (head + (TextOf(pr, e) + after));
      SameTail(Opening(st), head + (TextOf(pr, e) + after), head + AfterHead(pr, states));
      SameTail(head, TextOf(pr, e) + after, AfterHead(pr, states));
      ValueTracks(memory, pr, h, e, b, outcome == Continue, after, all);
    } else if |states| >= MAX_DEPTH {
      TooDeepFor(states);
      IsCalm(memory, h, AfterHead(pr, states), all);
    } else {
      var written := st.value.Obj? || st.written;
      Pushed(pr, states, written);
      var after := RestAll(pr, WithTop(states, State(st.value, st.index + 1, written)) + [State(e, 0, false)]);
      assert Opening(st) + head + after == Opening(st) + (head + after);
      SameTail(Opening(st), head + after, head + AfterHead(pr, states));
      SameTail(head, after, AfterHead(pr, states));
      AskedTracks(memory, h, after, all);
    }
  }

  lemma IsCalm(memory: seq<bool>, a: Store, rest: Text, all: Text)
    requires OnTrack(memory, a, rest, all)
    ensures Calm(memory, a)
  {
  }

  lemma AskedTracks(memory: seq<bool>, a: Store, rest: Text, all: Text)
    requires OnTrack(memory, a, rest, all)
    ensures var (b, ok) := Asked(memory, a); if ok then OnTrack(memory, b, rest, all) else Refused(memory, b)
  {
    assert a.asked !in a.quiet;
  }

  lemma TopOk<N>(states: seq<State<N>>)
    requires StackOk(states)
    ensures 1 <= |states| <= MAX_DEPTH && IsContainer(Top(states).value)
    ensures Top(states).index <= Length(Top(states).value)
  {
  }

  lemma TooDeepFor<N>(states: seq<State<N>>)
    requires StackOk(states) && |states| == MAX_DEPTH && Top(states).index < Length(Top(states).value)
    requires IsContainer(Entry(Top(states).value, Top(states).index))
    ensures Depth(states[0].value) > MAX_DEPTH
  {
    var st := Top(states);
    StackDepth(states, |states| - 1);
    EntryDepth(st.value, st.index);
    PassedAll(Entry(st.value, st.index));
  }

  // ----- the whole text -----

  datatype Result = Done(text: Text) | NoText | TooDeep | NoMemory

  function Wrapper<N>(v: Value<N>): Value<N> { Obj([Member([], v)]) }

  lemma WrapperText<N>(pr: Printer<N>, v: Value<N>)
    ensures var t := TextOf(pr, Wrapper(v));
            && (v.Undefined? ==> t == [123, 125])
            && (!v.Undefined? ==> t == [123, QUOTE, QUOTE, 58] + TextOf(pr, v) + [125])
    ensures Depth(Wrapper(v)) == 1 + Depth(v)
  {
    var members := [Member([], v)];
    assert members[1..] == [];
    assert MembersDepth(members) == Max(Depth(v), 0);
    OnlyMember(pr, v);
  }

  lemma OnlyMember<N>(pr: Printer<N>, v: Value<N>)
    ensures MembersText(pr, [Member([], v)], false)
            == if v.Undefined? then [] else [QUOTE, QUOTE, 58] + TextOf(pr, v)
  {
    hide TextOf;
    var members := [Member([], v)];
    assert members[1..] == [];
    if !v.Undefined? {
      assert Quoted([]) == [QUOTE, QUOTE];
      assert MembersText(pr, members, false) == [] + Quoted([]) + COLON + TextOf(pr, v) + [];
    }
  }

  // ----- runs -----

  // The store and the stack at the start of a turn.
  datatype Config<!N> = Config(store: Store, states: seq<State<N>>)

  // All turns of a run, how the last one ended, and the store and stack then.
  datatype Run<!N> = Run(turns: seq<Config<N>>, outcome: Outcome, last: Store, left: seq<State<N>>)

  // The allocations for the wrapper: the object, its property, the place of the
  // property, and the list of keys.
  const WRAPPING := 4

  ghost predicate Turns<N>(memory: seq<bool>, pr: Printer<N>, turns: seq<Config<N>>) {
    forall i | 0 <= i < |turns| - 1 :: TurnAt(memory, pr, turns, i)
  }

  ghost predicate TurnAt<N>(memory: seq<bool>, pr: Printer<N>, turns: seq<Config<N>>, i: nat)
    requires i + 1 < |turns|
  {
    && turns[i].states != []
    && Turn(memory, pr, turns[i].store, turns[i].states, turns[i + 1].store, turns[i + 1].states, Continue)
  }

  ghost predicate RunOf<N>(memory: seq<bool>, pr: Printer<N>, v: Value<N>, run: Run<N>) {
    && run.turns != []
    && run.turns[0] == Config(Store([], 0, WRAPPING, {}, 0), [State(Wrapper(v), 0, false)])
    && Turns(memory, pr, run.turns) && run.outcome != Continue
    && (var c := run.turns[|run.turns| - 1];
        c.states != [] && Turn(memory, pr, c.store, c.states, run.last, run.left, run.outcome))
  }

  // The value is wrapped in an object, and the wrapper stripped from the text.  The
  // allocations asked for number up to asked, and those for keys are in quiet.
  method Stringify<N>(pr: Printer<N>, v: Value<N>, memory: seq<bool>)
    returns (r: Result, ghost asked: nat, ghost quiet: set<nat>, ghost run: Run<N>)
    ensures forall i | i in quiet :: i < asked
    ensures r.NoMemory? <==> exists i :: 0 <= i < asked && i !in quiet && !Granted(memory, i)
    ensures r.Done? ==>
              Depth(v) < MAX_DEPTH && (r.text == TextOf(pr, v) <==> forall i | i in quiet :: Granted(memory, i))
    ensures r.TooDeep? ==> Depth(v) >= MAX_DEPTH
    ensures (forall i | 0 <= i < asked :: Granted(memory, i)) ==>
              r == if Depth(v) >= MAX_DEPTH then TooDeep
                   else if v.Undefined? then NoText else Done(TextOf(pr, v))
    ensures (forall i | 0 <= i < WRAPPING :: Granted(memory, i)) ==>
              RunOf(memory, pr, v, run) && quiet == run.last.quiet
    ensures r.NoText? ==> |run.last.text| <= 4
  {
    hide TextOf, StackOk, RestAll, StackLeft, Depth, OnTrack, Refused, Calm, Turn, Stepped, RunOf, Turns;
    var buffer := new Buffer(memory);
    asked, quiet, run := 0, {}, Run([], OutOfMemory, buffer.State(), []);
    var ok := Wrap(buffer);
    if !ok {
      asked := buffer.asked;
      return Result.NoMemory, asked, quiet, run;
    }
    ghost var all := TextOf(pr, Wrapper(v));
    var outcome;
    outcome, run := Turning(buffer, pr, v, all);
    WrapperText(pr, v);
    quiet := buffer.quiet;
    if outcome == OutOfMemory {
      asked := buffer.asked;
      IsRefused(memory, buffer.State());
      return Result.NoMemory, asked, quiet, run;
    }
    if outcome == TooMuch {
      asked := buffer.asked;
      NotRefused(memory, buffer.State());
      return TooDeep, asked, quiet, run;
    }
    r := Strip(buffer, pr, v, all);
    asked := buffer.asked;
  }

  // The allocations for the wrapper.
  method Wrap(buffer: Buffer) returns (ok: bool)
    requires buffer.Valid() && buffer.State() == Store([], 0, 0, {}, 0)
    modifies buffer`asked
    ensures buffer.Valid() && ok == forall i | 0 <= i < WRAPPING :: Granted(buffer.memory, i)
    ensures ok ==> buffer.State() == Store([], 0, WRAPPING, {}, 0)
    ensures !ok ==> buffer.asked <= WRAPPING && exists i :: 0 <= i < buffer.asked && !Granted(buffer.memory, i)
  {
    ok := true;
    var n := 0;
    while n < WRAPPING
      invariant 0 <= n <= WRAPPING && buffer.Valid() && buffer.State() == Store([], 0, n, {}, 0)
      invariant forall i | 0 <= i < n :: Granted(buffer.memory, i)
    {
      ok := buffer.Ask();
      n := n + 1;
      if !ok {
        return;
      }
    }
  }

  // The turns of the loop.
  method Turning<N>(buffer: Buffer, pr: Printer<N>, v: Value<N>, ghost all: Text)
    returns (outcome: Outcome, ghost run: Run<N>)
    requires buffer.Valid() && buffer.State() == Store([], 0, WRAPPING, {}, 0)
    requires (forall i | 0 <= i < WRAPPING :: Granted(buffer.memory, i)) && all == TextOf(pr, Wrapper(v))
    modifies buffer, buffer.data
    ensures buffer.Valid() && (buffer.data == old(buffer.data) || fresh(buffer.data))
    ensures RunOf(buffer.memory, pr, v, run) && run.outcome == outcome && run.last == buffer.State()
    ensures Ended(buffer.memory, Wrapper(v), all, run.last, outcome)
  {
    hide TextOf, StackOk, RestAll, StackLeft, Depth, OnTrack, Refused, Calm, Turn, Stepped, RunOf, Turns;
    var states := [State(Wrapper(v), 0, false)];
    Starts(pr, v, states);
    StartTracks(buffer.memory, all);
    ghost var turns := [Config(buffer.State(), states)];
    OneTurn(buffer.memory, pr, turns);
    while true
      invariant buffer.Valid() && (buffer.data == old(buffer.data) || fresh(buffer.data))
      invariant StackOk(states) && states != [] && states[0].value == Wrapper(v)
      invariant OnTrack(buffer.memory, buffer.State(), RestAll(pr, states), all)
      invariant turns != [] && turns[0] == Config(Store([], 0, WRAPPING, {}, 0), [State(Wrapper(v), 0, false)])
      invariant turns[|turns| - 1] == Config(buffer.State(), states) && Turns(buffer.memory, pr, turns)
      decreases StackLeft(states)
    {
      ghost var a := buffer.State();
      TopOk(states);
      var next;
      next, outcome := Step(buffer, pr, states);
      TurnTracks(buffer.memory, pr, a, states, buffer.State(), next, outcome, all);
      SteppedParts(buffer.memory, pr, states, all, buffer.State(), next, outcome);
      if outcome != Continue {
        run := Run(turns, outcome, buffer.State(), next);
        RunEnds(buffer.memory, pr, v, run);
        return;
      }
      TopOk(next);
      MoreTurns(buffer.memory, pr, turns, Config(buffer.State(), next));
      turns := turns + [Config(buffer.State(), next)];
      states := next;
    }
  }

  // How a run may end.
  ghost predicate Ended<N>(memory: seq<bool>, v: Value<N>, all: Text, last: Store, outcome: Outcome) {
    match outcome
    case Continue => false
    case Finished => Depth(v) <= MAX_DEPTH && OnTrack(memory, last, [], all)
    case TooMuch => Depth(v) > MAX_DEPTH && Calm(memory, last)
    case OutOfMemory => Refused(memory, last)
  }

  // The text is put together in one piece, and made a string without the wrapper.
  method Strip<N>(buffer: Buffer, pr: Printer<N>, v: Value<N>, ghost all: Text) returns (r: Result)
    requires buffer.Valid() && OnTrack(buffer.memory, buffer.State(), [], all) && all == TextOf(pr, Wrapper(v))
    requires Depth(v) < MAX_DEPTH
    modifies buffer`asked
    ensures buffer.Valid() && (forall i | i in buffer.quiet :: i < buffer.asked)
    ensures r.NoMemory? <==> exists i :: 0 <= i < buffer.asked && i !in buffer.quiet && !Granted(buffer.memory, i)
    ensures !r.TooDeep? && (r.NoText? ==> |old(buffer.Contents())| <= 4)
    ensures r.Done? ==> (r.text == TextOf(pr, v) <==> forall i | i in buffer.quiet :: Granted(buffer.memory, i))
    ensures (forall i | 0 <= i < buffer.asked :: Granted(buffer.memory, i)) ==>
              r == if v.Undefined? then NoText else Done(TextOf(pr, v))
  {
    hide TextOf, Depth, Granted, Wrapper, Flat;
    WrapperText(pr, v);
    var ok := true;
    if buffer.any && buffer.full != [] {
      ok := buffer.Ask();
      if !ok {
        return Result.NoMemory;
      }
    }
    var text := buffer.Pullup();
    if |text| <= 4 {
      return NoText;
    }
    ok := buffer.Ask();
    if !ok {
      return Result.NoMemory;
    }
    r := Done(text[4..|text| - 1]);
    assert text + [] == text;
  }

  lemma StartTracks(memory: seq<bool>, all: Text)
    requires forall i | 0 <= i < WRAPPING :: Granted(memory, i)
    ensures OnTrack(memory, Store([], 0, WRAPPING, {}, 0), all, all)
  {
    assert [] + all == all;
  }

  lemma OneTurn<N>(memory: seq<bool>, pr: Printer<N>, turns: seq<Config<N>>)
    requires |turns| == 1
    ensures Turns(memory, pr, turns)
  {
  }

  lemma MoreTurns<N>(memory: seq<bool>, pr: Printer<N>, turns: seq<Config<N>>, c: Config<N>)
    requires turns != [] && Turns(memory, pr, turns)
    requires var d := turns[|turns| - 1];
             d.states != [] && Turn(memory, pr, d.store, d.states, c.store, c.states, Continue)
    ensures Turns(memory, pr, turns + [c])
  {
    hide Turn;
    var more := turns + [c];
    forall i | 0 <= i < |more| - 1 ensures TurnAt(memory, pr, more, i) {
      if i < |turns| - 1 {
        assert TurnAt(memory, pr, turns, i);
      }
    }
  }

  lemma RunEnds<N>(memory: seq<bool>, pr: Printer<N>, v: Value<N>, run: Run<N>)
    requires run.turns != [] && Turns(memory, pr, run.turns) && run.outcome != Continue
    requires run.turns[0] == Config(Store([], 0, WRAPPING, {}, 0), [State(Wrapper(v), 0, false)])
    requires var c := run.turns[|run.turns| - 1];
             c.states != [] && Turn(memory, pr, c.store, c.states, run.last, run.left, run.outcome)
    ensures RunOf(memory, pr, v, run)
  {
    hide Turn;
  }

  lemma SteppedParts<N>(memory: seq<bool>, pr: Printer<N>, states: seq<State<N>>, all: Text, b: Store,
                        next: seq<State<N>>, outcome: Outcome)
    requires StackOk(states) && Stepped(memory, pr, states, all, b, next, outcome)
    ensures match outcome
            case Continue =>
              && StackOk(next) && next[0].value == states[0].value && StackLeft(next) < StackLeft(states)
              && OnTrack(memory, b, RestAll(pr, next), all)
            case Finished => Depth(states[0].value) <= MAX_DEPTH && OnTrack(memory, b, [], all)
            case TooMuch => Depth(states[0].value) > MAX_DEPTH && Calm(memory, b)
            case OutOfMemory => Refused(memory, b)
  {
  }

  lemma IsRefused(memory: seq<bool>, a: Store)
    requires Refused(memory, a)
    ensures forall i | i in a.quiet :: i < a.asked
    ensures exists i :: 0 <= i < a.asked && i !in a.quiet && !Granted(memory, i)
  {
  }

  lemma NotRefused(memory: seq<bool>, a: Store)
    requires Calm(memory, a)
    ensures forall i | i in a.quiet :: i < a.asked
    ensures !exists i :: 0 <= i < a.asked && i !in a.quiet && !Granted(memory, i)
  {
  }

  // ----- a key cut short -----

  // What a turn does is only added to.
  lemma HeadGrows<N>(memory: seq<bool>, a: Store, v: Value<N>, n: nat, written: bool, b: Store, ok: bool)
    requires n < Length(v) && HeadWritten(memory, a, v, n, written, b, ok)
    ensures a.text <= b.text && a.quiet <= b.quiet
  {
    hide StringWritten, Appended;
    var c := if written then Appended(memory, a, COMMA).0 else a;
    AppendedGrows(memory, a, COMMA);
    if v.Obj? && (written ==> Appended(memory, a, COMMA).1) {
      var key := v.members[n].key;
      var k, noticed :|
        StringWritten(memory, c, key, k, noticed) && (b, ok) == Appended(memory, Unnoticed(c, k, key), COLON);
      StringGrows(memory, c, key, k, noticed);
      AppendedGrows(memory, Unnoticed(c, k, key), COLON);
    }
  }

  lemma AppendedGrows(memory: seq<bool>, a: Store, msg: Text)
    ensures a.text <= Appended(memory, a, msg).0.text && a.quiet <= Appended(memory, a, msg).0.quiet
  {
  }

  lemma StringGrows(memory: seq<bool>, a: Store, s: Text, b: Store, ok: bool)
    requires StringWritten(memory, a, s, b, ok)
    ensures a.text <= b.text && a.quiet <= b.quiet
  {
  }

  lemma TurnGrows<N>(memory: seq<bool>, pr: Printer<N>, a: Store, states: seq<State<N>>, b: Store, next: seq<State<N>>,
                     outcome: Outcome)
    requires states != [] && Turn(memory, pr, a, states, b, next, outcome)
    ensures a.text <= b.text && a.quiet <= b.quiet
  {
    hide HeadWritten, Appended, Follows;
    var st := Top(states);
    var (o, fine) := if st.index == 0 then Appended(memory, a, OpenText(st.value)) else (a, true);
    AppendedGrows(memory, a, OpenText(st.value));
    if fine && st.index >= Length(st.value) {
      AppendedGrows(memory, o, CloseText(st.value));
    } else if fine && !Skipped(st.value, st.index) {
      var h, ok :|
        && HeadWritten(memory, o, st.value, st.index, st.written, h, ok)
        && (if ok then Follows(memory, pr, h, states, b, next, outcome) else b == h && outcome == OutOfMemory);
      HeadGrows(memory, o, st.value, st.index, st.written, h, ok);
      if ok {
        FollowsGrows(memory, pr, h, states, b, next, outcome);
      }
    }
  }

  lemma FollowsGrows<N>(memory: seq<bool>, pr: Printer<N>, h: Store, states: seq<State<N>>, b: Store,
                        next: seq<State<N>>, outcome: Outcome)
    requires states != [] && Top(states).index < Length(Top(states).value)
    requires Follows(memory, pr, h, states, b, next, outcome)
    ensures h.text <= b.text && h.quiet <= b.quiet
  {
    hide StringWritten;
    var e := Entry(Top(states).value, Top(states).index);
    if e.Str? {
      StringGrows(memory, h, e.s, b, outcome == Continue);
    }
  }

  lemma {:induction false} RunGrows<N>(memory: seq<bool>, pr: Printer<N>, v: Value<N>, run: Run<N>, i: nat)
    requires RunOf(memory, pr, v, run) && i < |run.turns|
    ensures run.turns[i].store.text <= run.last.text && run.turns[i].store.quiet <= run.last.quiet
    decreases |run.turns| - i
  {
    hide Turn;
    var a := run.turns[i];
    if i + 1 < |run.turns| {
      assert TurnAt(memory, pr, run.turns, i);
      TurnGrows(memory, pr, a.store, a.states, run.turns[i + 1].store, run.turns[i + 1].states, Continue);
      RunGrows(memory, pr, v, run, i + 1);
    } else {
      TurnGrows(memory, pr, a.store, a.states, run.last, run.left, run.outcome);
    }
  }

  function OneMember<N>(key: Text): Value<N> { Obj([Member(key, Null)]) }

  // Only allocation number 6 is refused.
  const SIXTH: seq<bool> := [true, true, true, true, true, true, false]

  // The wrapper is opened, its key written, and the object pushed: one node of 128
  // bytes, of which four are taken, and six allocations.
  lemma FirstTurn<N>(pr: Printer<N>, key: Text, b: Store, next: seq<State<N>>, outcome: Outcome)
    requires var v: Value<N> := OneMember(key);
             Turn(SIXTH, pr, Store([], 0, WRAPPING, {}, 0), [State(Wrapper(v), 0, false)], b, next, outcome)
    ensures outcome == Continue && next == [State(Wrapper(OneMember(key)), 1, true), State(OneMember(key), 0, false)]
    ensures |b.text| == 4 && b.room == 124 && b.asked == 6
  {
    hide StringWritten;
    var v: Value<N> := OneMember(key);
    var w: Value<N> := Wrapper(v);
    var o := Store(OPEN_OBJECT, 127, 5, {}, 0);
    NewNode();
    var h, ok :|
      && HeadWritten(SIXTH, o, w, 0, false, h, ok)
      && (if ok then Follows(SIXTH, pr, h, [State(w, 0, false)], b, next, outcome)
          else b == h && outcome == OutOfMemory);
    var k, noticed :|
      StringWritten(SIXTH, o, [], k, noticed) && (h, ok) == Appended(SIXTH, Unnoticed(o, k, []), COLON);
    EmptyKey(SIXTH, o, k, noticed);
    RoomForOne(SIXTH, Unnoticed(o, k, []), COLON);
    assert ok && h.asked == 5 && h.room == 124 && |h.text| == 4;
    assert next == [State(w, 1, true)] + [State(v, 0, false)];
  }

  lemma RoomForOne(memory: seq<bool>, a: Store, msg: Text)
    requires |msg| == 1 && a.room >= 1
    ensures Appended(memory, a, msg) == (a.(text := a.text + msg, room := a.room - 1), true)
  {
  }

  lemma AllGranted(memory: seq<bool>, a: Store, msg: Text)
    requires forall i | i >= a.asked :: Granted(memory, i)
    ensures Appended(memory, a, msg).1
  {
  }

  lemma NewNode()
    ensures Appended(SIXTH, Store([], 0, WRAPPING, {}, 0), OPEN_OBJECT) == (Store(OPEN_OBJECT, 127, 5, {}, 0), true)
    ensures Granted(SIXTH, 5) && !Granted(SIXTH, 6)
  {
    var a := Store([], 0, WRAPPING, {}, 0);
    assert a.text + OPEN_OBJECT == OPEN_OBJECT;
    assert SIXTH[4] && Taken(SIXTH, a, 1) == (a.(room := 128, asked := 5), true);
  }

  lemma EmptyKey(memory: seq<bool>, a: Store, k: Store, noticed: bool)
    requires StringWritten(memory, a, [], k, noticed) && a.room >= 64
    ensures |k.text| == |a.text| + 2 && k.room + 2 == a.room && k.asked == a.asked
  {
    assert Quoted([]) == [QUOTE, QUOTE];
  }

  // A key that does not fit in the node asks for allocation number 6.
  lemma SecondTurn<N>(pr: Printer<N>, key: Text, a: Store, states: seq<State<N>>, b: Store, next: seq<State<N>>,
                      outcome: Outcome)
    requires states == [State(Wrapper(OneMember(key)), 1, true), State(OneMember(key), 0, false)]
    requires |a.text| == 4 && a.room == 124 && a.asked == 6 && |Quoted(key)| > 123
    requires Turn(SIXTH, pr, a, states, b, next, outcome)
    ensures outcome == Continue && 6 in b.quiet && |b.text| > 4
  {
    hide StringWritten;
    var v: Value<N> := OneMember(key);
    var o := a.(text := a.text + OPEN_OBJECT, room := 123);
    RoomForOne(SIXTH, a, OPEN_OBJECT);
    var h, ok :|
      && HeadWritten(SIXTH, o, v, 0, false, h, ok)
      && (if ok then Follows(SIXTH, pr, h, states, b, next, outcome) else b == h && outcome == OutOfMemory);
    var k, noticed :|
      StringWritten(SIXTH, o, key, k, noticed) && (h, ok) == Appended(SIXTH, Unnoticed(o, k, key), COLON);
    LongKey(o, key, k, noticed);
    assert 6 in Unnoticed(o, k, key).quiet;
    AllGranted(SIXTH, Unnoticed(o, k, key), COLON);
    AllGranted(SIXTH, h, NULL);
    AppendedGrows(SIXTH, Unnoticed(o, k, key), COLON);
    AppendedGrows(SIXTH, h, NULL);
  }

  lemma LongKey(a: Store, key: Text, k: Store, noticed: bool)
    requires StringWritten(SIXTH, a, key, k, noticed) && a.asked == 6 && a.room < |Quoted(key)|
    ensures k.asked == 7 && a.text <= k.text && |k.text| - |a.text| <= |Quoted(key)|
  {
    hide Quoted;
    assert !Granted(SIXTH, 6);
  }

  lemma KeyCut<N>(pr: Printer<N>, key: Text, run: Run<N>)
    requires RunOf(SIXTH, pr, OneMember(key), run) && |Quoted(key)| > 123
    ensures 6 in run.last.quiet && |run.last.text| > 4
  {
    hide Turn, Quoted;
    var v: Value<N> := OneMember(key);
    var t := run.turns;
    if |t| == 1 {
      FirstTurn(pr, key, run.last, run.left, run.outcome);
    } else {
      assert TurnAt(SIXTH, pr, t, 0);
      FirstTurn(pr, key, t[1].store, t[1].states, Continue);
      if |t| == 2 {
        SecondTurn(pr, key, t[1].store, t[1].states, run.last, run.left, run.outcome);
      } else {
        assert TurnAt(SIXTH, pr, t, 1);
        SecondTurn(pr, key, t[1].store, t[1].states, t[2].store, t[2].states, Continue);
        RunGrows(SIXTH, pr, v, run, 2);
      }
    }
  }

  // With one refused allocation, for a key that does not fit in the first node, the
  // serializer succeeds with a text that is not that of the value.
  method CutKey<N>(pr: Printer<N>, key: Text) returns (r: Result)
    requires |Quoted(key)| > 123
    ensures r.Done? && r.text != TextOf(pr, OneMember(key))
  {
    hide TextOf, RunOf, Quoted;
    ghost var asked, quiet, run;
    r, asked, quiet, run := Stringify(pr, OneMember(key), SIXTH);
    assert forall i | 0 <= i < WRAPPING :: Granted(SIXTH, i);
    KeyCut(pr, key, run);
    assert !Granted(SIXTH, 6) && forall i | i != 6 :: Granted(SIXTH, i);
    OneDeep<N>(key);
  }

  lemma OneDeep<N>(key: Text)
    ensures Depth<N>(OneMember(key)) == 1
  {
    var members: seq<Member<N>> := [Member(key, Null)];
    assert members[1..] == [];
    assert MembersDepth(members) == 0;
  }

  lemma Starts<N>(pr: Printer<N>, v: Value<N>, states: seq<State<N>>)
    requires states == [State(Wrapper(v), 0, false)]
    ensures StackOk(states) && RestAll(pr, states) == TextOf(pr, Wrapper(v))
  {
    RestStart(pr, Wrapper(v));
    assert states[..0] == [];
    assert Passed(Wrapper(v), 0) == 0;
  }
}
