// JSON values, their text, and the serializer with its own stack.
module JsonText {
  import opened JsonBuffer
  import opened JsonStrings
  import opened JsonStringCode

  // Numbers are kept abstract: how they are printed, and which are finite.
  datatype Printer<!N> = Printer(write: N -> Text, finite: N -> bool)

  datatype Value<+N> =
    | Undefined
    | Null
    | Bool(b: bool)
    | Num(n: N)
    | Str(s: Text)
    | Arr(items: seq<Value<N>>)
    | Obj(members: seq<Member<N>>)

  datatype Member<+N> = Member(key: Text, value: Value<N>)

  const MAX_DEPTH := 32
  const NULL: Text := [110, 117, 108, 108]
  const TRUE: Text := [116, 114, 117, 101]
  const FALSE: Text := [102, 97, 108, 115, 101]
  const COMMA: Text := [44]
  const COLON: Text := [58]
  const OPEN_ARRAY: Text := [91]
  const CLOSE_ARRAY: Text := [93]
  const OPEN_OBJECT: Text := [123]
  const CLOSE_OBJECT: Text := [125]

  predicate Reads(t: Text, s: string) { |t| == |s| && forall i | 0 <= i < |s| :: t[i] == s[i] as int }

  lemma Words()
    ensures Reads(NULL, "null") && Reads(TRUE, "true") && Reads(FALSE, "false")
    ensures Reads(COMMA, ",") && Reads(COLON, ":") && Reads(OPEN_ARRAY, "[") && Reads(CLOSE_ARRAY, "]")
    ensures Reads(OPEN_OBJECT, "{") && Reads(CLOSE_OBJECT, "}") && MAX_DEPTH == 32
  {
  }

  // ----- the text of a value -----

  function ScalarText<N>(pr: Printer<N>, v: Value<N>): Text
    requires !v.Arr? && !v.Obj?
  {
    match v
    case Bool(b) => if b then TRUE else FALSE
    case Num(n) => if pr.finite(n) then pr.write(n) else NULL
    case Str(s) => Quoted(s)
    case _ => NULL
  }

  function TextOf<N>(pr: Printer<N>, v: Value<N>): Text
    decreases v
  {
    match v
    case Arr(items) => OPEN_ARRAY + ItemsText(pr, items, false) + CLOSE_ARRAY
    case Obj(members) => OPEN_OBJECT + MembersText(pr, members, false) + CLOSE_OBJECT
    case _ => ScalarText(pr, v)
  }

  // Each item but the first written has a comma before it.
  function ItemsText<N>(pr: Printer<N>, items: seq<Value<N>>, written: bool): Text
    decreases items
  {
    if items == [] then []
    else (if written then COMMA else []) + TextOf(pr, items[0]) + ItemsText(pr, items[1..], true)
  }

  // Members without a value are left out.
  function MembersText<N>(pr: Printer<N>, members: seq<Member<N>>, written: bool): Text
    decreases members
  {
    if members == [] then []
    else if members[0].value.Undefined? then MembersText(pr, members[1..], written)
    else
      (if written then COMMA else []) + Quoted(members[0].key) + COLON + TextOf(pr, members[0].value)
      + MembersText(pr, members[1..], true)
  }

  // How deeply arrays and objects are nested.
  function Depth<N>(v: Value<N>): nat
    decreases v
  {
    match v
    case Arr(items) => 1 + ItemsDepth(items)
    case Obj(members) => 1 + MembersDepth(members)
    case _ => 0
  }

  function Max(a: nat, b: nat): nat { if a < b then b else a }

  function ItemsDepth<N>(items: seq<Value<N>>): nat
    decreases items
  {
    if items == [] then 0 else Max(Depth(items[0]), ItemsDepth(items[1..]))
  }

  function MembersDepth<N>(members: seq<Member<N>>): nat
    decreases members
  {
    if members == [] then 0 else Max(Depth(members[0].value), MembersDepth(members[1..]))
  }

  // ----- the stack -----

  // A container, the index of its next entry, and whether an entry is written.
  datatype State<+N> = State(value: Value<N>, index: nat, written: bool)

  // What is still to be written of a container from its entry n on.
  function Rest<N>(pr: Printer<N>, v: Value<N>, n: nat, written: bool): Text {
    match v
    case Arr(items) =>
      (if n == 0 then OPEN_ARRAY else []) + (if n <= |items| then ItemsText(pr, items[n..], written) else [])
      + CLOSE_ARRAY
    case Obj(members) =>
      (if n == 0 then OPEN_OBJECT else []) + (if n <= |members| then MembersText(pr, members[n..], written) else [])
      + CLOSE_OBJECT
    case _ => []
  }

  // The containers below the top have an entry written when it comes to them.
  function RestBelow<N>(pr: Printer<N>, states: seq<State<N>>): Text {
    if states == [] then []
    else
      var st := states[|states| - 1];
      Rest(pr, st.value, st.index, true) + RestBelow(pr, states[..|states| - 1])
  }

  function RestAll<N>(pr: Printer<N>, states: seq<State<N>>): Text
    requires states != []
  {
    var st := states[|states| - 1];
    Rest(pr, st.value, st.index, st.written) + RestBelow(pr, states[..|states| - 1])
  }

  function Length<N>(v: Value<N>): nat {
    match v
    case Arr(items) => |items|
    case Obj(members) => |members|
    case _ => 0
  }

  function Entry<N>(v: Value<N>, n: nat): Value<N>
    requires n < Length(v)
  {
    if v.Arr? then v.items[n] else v.members[n].value
  }

  // How deeply the entries before n are nested.
  function Passed<N>(v: Value<N>, n: nat): nat
    requires n <= Length(v)
  {
    match v
    case Arr(items) => ItemsDepth(items[..n])
    case Obj(members) => MembersDepth(members[..n])
    case _ => 0
  }

  predicate IsContainer<N>(v: Value<N>) { v.Arr? || v.Obj? }

  // Each container on the stack is the entry just passed of the one below, and
  // the entries passed before were not nested too deeply.
  ghost predicate StackOk<N>(states: seq<State<N>>) {
    && 1 <= |states| <= MAX_DEPTH
    && (forall i | 0 <= i < |states| :: IsContainer(states[i].value) && states[i].index <= Length(states[i].value))
    && (forall i | 0 < i < |states| :: BelowOk(states[i - 1], states[i], i))
    && Passed(states[|states| - 1].value, states[|states| - 1].index) < MAX_DEPTH - (|states| - 1)
  }

  ghost predicate BelowOk<N>(below: State<N>, st: State<N>, i: nat) {
    && 0 < below.index <= Length(below.value) && st.value == Entry(below.value, below.index - 1)
    && Passed(below.value, below.index - 1) < MAX_DEPTH - (i - 1)
  }

  // ----- entries -----

  function EntryText<N>(pr: Printer<N>, v: Value<N>, n: nat, written: bool): Text
    requires n < Length(v)
  {
    if v.Obj? && v.members[n].value.Undefined? then []
    else
      (if written then COMMA else []) + (if v.Obj? then Quoted(v.members[n].key) + COLON else [])
      + TextOf(pr, Entry(v, n))
  }

  function OpenText<N>(v: Value<N>): Text { if v.Arr? then OPEN_ARRAY else OPEN_OBJECT }

  function CloseText<N>(v: Value<N>): Text { if v.Arr? then CLOSE_ARRAY else CLOSE_OBJECT }

  lemma RestEntry<N>(pr: Printer<N>, v: Value<N>, n: nat, written: bool)
    requires IsContainer(v) && n < Length(v)
    ensures Rest(pr, v, n, written)
            == (if n == 0 then OpenText(v) else []) + EntryText(pr, v, n, written)
               + Rest(pr, v, n + 1, written || !(v.Obj? && v.members[n].value.Undefined?))
  {
    if v.Arr? {
      RestItem(pr, v, n, written);
    } else {
      RestMember(pr, v, n, written);
    }
  }

  lemma RestItem<N>(pr: Printer<N>, v: Value<N>, n: nat, written: bool)
    requires v.Arr? && n < Length(v)
    ensures Rest(pr, v, n, written)
            == (if n == 0 then OpenText(v) else []) + EntryText(pr, v, n, written) + Rest(pr, v, n + 1, true)
  {
    hide Quoted, TextOf;
    var s, t := v.items[n..], v.items[n + 1..];
    assert s[0] == v.items[n] && s[1..] == t;
    assert ItemsText(pr, s, written) == EntryText(pr, v, n, written) + ItemsText(pr, t, true);
  }

  lemma RestMember<N>(pr: Printer<N>, v: Value<N>, n: nat, written: bool)
    requires v.Obj? && n < Length(v)
    ensures Rest(pr, v, n, written)
            == (if n == 0 then OpenText(v) else []) + EntryText(pr, v, n, written)
               + Rest(pr, v, n + 1, written || !v.members[n].value.Undefined?)
  {
    hide Quoted, TextOf;
    var s, t := v.members[n..], v.members[n + 1..];
    assert s[0] == v.members[n] && s[1..] == t;
    assert MembersText(pr, s, written)
           == EntryText(pr, v, n, written) + MembersText(pr, t, written || !s[0].value.Undefined?);
  }

  lemma RestEnd<N>(pr: Printer<N>, v: Value<N>, written: bool)
    requires IsContainer(v)
    ensures Rest(pr, v, Length(v), written) == (if Length(v) == 0 then OpenText(v) else []) + CloseText(v)
  {
    if v.Arr? {
      assert v.items[Length(v)..] == [];
    } else {
      assert v.members[Length(v)..] == [];
    }
  }

  lemma RestStart<N>(pr: Printer<N>, v: Value<N>)
    requires IsContainer(v)
    ensures Rest(pr, v, 0, false) == TextOf(pr, v)
  {
    if v.Arr? {
      assert v.items[0..] == v.items;
    } else {
      assert v.members[0..] == v.members;
    }
  }

  lemma {:induction false} ItemsDepthAdd<N>(items: seq<Value<N>>, x: Value<N>)
    ensures ItemsDepth(items + [x]) == Max(ItemsDepth(items), Depth(x))
  {
    if items == [] {
      assert (items + [x])[1..] == [];
    } else {
      assert (items + [x])[1..] == items[1..] + [x];
      ItemsDepthAdd(items[1..], x);
    }
  }

  lemma {:induction false} MembersDepthAdd<N>(members: seq<Member<N>>, x: Member<N>)
    ensures MembersDepth(members + [x]) == Max(MembersDepth(members), Depth(x.value))
  {
    if members == [] {
      assert (members + [x])[1..] == [];
    } else {
      assert (members + [x])[1..] == members[1..] + [x];
      MembersDepthAdd(members[1..], x);
    }
  }

  lemma PassedNext<N>(v: Value<N>, n: nat)
    requires IsContainer(v) && n < Length(v)
    ensures Passed(v, n + 1) == Max(Passed(v, n), Depth(Entry(v, n)))
  {
    if v.Arr? {
      assert v.items[..n + 1] == v.items[..n] + [v.items[n]];
      ItemsDepthAdd(v.items[..n], v.items[n]);
    } else {
      assert v.members[..n + 1] == v.members[..n] + [v.members[n]];
      MembersDepthAdd(v.members[..n], v.members[n]);
    }
  }

  lemma PassedAll<N>(v: Value<N>)
    requires IsContainer(v)
    ensures Depth(v) == 1 + Passed(v, Length(v))
  {
    if v.Arr? {
      assert v.items[..Length(v)] == v.items;
    } else {
      assert v.members[..Length(v)] == v.members;
    }
  }

  lemma {:induction false} EntryDepth<N>(v: Value<N>, n: nat)
    requires IsContainer(v) && n < Length(v)
    ensures Depth(Entry(v, n)) < Depth(v)
  {
    if v.Arr? {
      ItemDepth(v.items, n);
    } else {
      MemberDepth(v.members, n);
    }
  }

  lemma {:induction false} ItemDepth<N>(items: seq<Value<N>>, n: nat)
    requires n < |items|
    ensures Depth(items[n]) <= ItemsDepth(items)
  {
    if n > 0 {
      ItemDepth(items[1..], n - 1);
    }
  }

  lemma {:induction false} MemberDepth<N>(members: seq<Member<N>>, n: nat)
    requires n < |members|
    ensures Depth(members[n].value) <= MembersDepth(members)
  {
    if n > 0 {
      MemberDepth(members[1..], n - 1);
    }
  }

  // The bottom of the stack is nested as deeply as the stack shows.
  lemma {:induction false} StackDepth<N>(states: seq<State<N>>, k: nat)
    requires StackOk(states) && k < |states|
    ensures Depth(states[0].value) >= k + Depth(states[k].value)
    decreases k
  {
    if k > 0 {
      StackDepth(states, k - 1);
      assert BelowOk(states[k - 1], states[k], k);
      EntryDepth(states[k - 1].value, states[k - 1].index - 1);
    }
  }

  // ----- how much is left to do -----

  function Work<N>(v: Value<N>): nat
    decreases v
  {
    match v
    case Arr(items) => 1 + ItemsWork(items)
    case Obj(members) => 1 + MembersWork(members)
    case _ => 0
  }

  function ItemsWork<N>(items: seq<Value<N>>): nat
    decreases items
  {
    if items == [] then 0 else 1 + Work(items[0]) + ItemsWork(items[1..])
  }

  function MembersWork<N>(members: seq<Member<N>>): nat
    decreases members
  {
    if members == [] then 0 else 1 + Work(members[0].value) + MembersWork(members[1..])
  }

  function Left<N>(v: Value<N>, n: nat): nat
    requires n <= Length(v)
  {
    match v
    case Arr(items) => 1 + ItemsWork(items[n..])
    case Obj(members) => 1 + MembersWork(members[n..])
    case _ => 0
  }

  ghost function StackLeft<N>(states: seq<State<N>>): nat {
    if states == [] then 0
    else
      var st := states[|states| - 1];
      StackLeft(states[..|states| - 1]) + if st.index <= Length(st.value) then Left(st.value, st.index) else 0
  }

  lemma LeftNext<N>(v: Value<N>, n: nat)
    requires IsContainer(v) && n < Length(v)
    ensures Left(v, n) == 1 + Work(Entry(v, n)) + Left(v, n + 1)
  {
    if v.Arr? {
      assert v.items[n..][0] == v.items[n] && v.items[n..][1..] == v.items[n + 1..];
    } else {
      assert v.members[n..][0] == v.members[n] && v.members[n..][1..] == v.members[n + 1..];
    }
  }

  lemma LeftStart<N>(v: Value<N>)
    requires IsContainer(v)
    ensures Left(v, 0) == Work(v)
  {
    if v.Arr? {
      assert v.items[0..] == v.items;
    } else {
      assert v.members[0..] == v.members;
    }
  }
}
