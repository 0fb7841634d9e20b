// What a text spells as JSON, and the values read from it.
module JsonGrammar {
  import opened Wrappers
  import opened JsonBuffer
  import opened JsonStrings
  import opened JsonStringCode
  import opened JsonText

  // The reader of numbers is kept abstract.
  datatype Numeral<N> = NoNumeral | Numeral(n: N, next: nat)

  datatype Reader<!N> = Reader(read: (Text, nat) -> Numeral<N>)

  ghost predicate ReaderOk<N(!new)>(rd: Reader<N>) {
    forall t, p: nat :: rd.read(t, p).Numeral? ==> p < rd.read(t, p).next <= |t|
  }

  predicate IsSpace(b: Byte) { b == 32 || b == 9 || b == 13 || b == 10 }

  lemma Spaces(b: Byte)
    ensures IsSpace(b) <==> exists i | 0 <= i < 4 :: b == " \t\r\n"[i] as int
  {
    var s := " \t\r\n";
    assert s[0] as int == 32 && s[1] as int == 9 && s[2] as int == 13 && s[3] as int == 10;
  }

  function Skip(t: Text, p: nat): (q: nat)
    requires p <= |t|
    ensures p <= q <= |t| && (q < |t| ==> !IsSpace(t[q]))
    decreases |t| - p
  {
    if p < |t| && IsSpace(t[p]) then Skip(t, p + 1) else p
  }

  predicate At(t: Text, p: nat, b: Byte) { p < |t| && t[p] == b }

  // The text from p to q spells the value, with members as they are written.
  ghost predicate Spells<N(!new)>(rd: Reader<N>, t: Text, p: nat, q: nat, v: Value<N>)
    decreases v
  {
    p < q <= |t|
    && match v
       case Undefined => false
       case Null => t[p..q] == NULL
       case Bool(b) => t[p..q] == if b then TRUE else FALSE
       case Num(n) => t[p] <= 57 && t[p] != QUOTE && rd.read(t, p) == Numeral(n, q)
       case Str(s) => StringSpells(t, p, q, s)
       case Arr(items) =>
         t[p] == OPEN_ARRAY[0]
         && if items == [] then At(t, Skip(t, p + 1), CLOSE_ARRAY[0]) && q == Skip(t, p + 1) + 1
            else ItemsSpell(rd, t, Skip(t, p + 1), q, items)
       case Obj(members) =>
         t[p] == OPEN_OBJECT[0]
         && if members == [] then At(t, Skip(t, p + 1), CLOSE_OBJECT[0]) && q == Skip(t, p + 1) + 1
            else MembersSpell(rd, t, Skip(t, p + 1), q, members)
  }

  ghost predicate StringSpells(t: Text, p: nat, q: nat, s: Text) {
    At(t, p, QUOTE) && q > 0 && Ends(t, p + 1, q - 1) && s == Decoded(t[p + 1..q - 1])
  }

  // Items with commas between them and a bracket at the end.
  ghost predicate ItemsSpell<N(!new)>(rd: Reader<N>, t: Text, p: nat, q: nat, items: seq<Value<N>>)
    decreases items
  {
    items != [] && exists e: nat :: ItemSpells(rd, t, p, e, q, items)
  }

  ghost predicate ItemSpells<N(!new)>(rd: Reader<N>, t: Text, p: nat, e: nat, q: nat, items: seq<Value<N>>)
    requires items != []
    decreases items, 0
  {
    e <= |t| && Spells(rd, t, p, e, items[0])
    && if |items| == 1 then At(t, Skip(t, e), CLOSE_ARRAY[0]) && q == Skip(t, e) + 1
       else At(t, Skip(t, e), COMMA[0]) && ItemsSpell(rd, t, Skip(t, Skip(t, e) + 1), q, items[1..])
  }

  ghost predicate MembersSpell<N(!new)>(rd: Reader<N>, t: Text, p: nat, q: nat, members: seq<Member<N>>)
    decreases members
  {
    members != [] && exists k: nat, e: nat :: MemberSpells(rd, t, p, k, e, q, members)
  }

  // The key ends at k and the value at e.
  ghost predicate MemberSpells<N(!new)>(rd: Reader<N>, t: Text, p: nat, k: nat, e: nat, q: nat, members: seq<Member<N>>)
    requires members != []
    decreases members, 0
  {
    k <= |t| && e <= |t| && StringSpells(t, p, k, members[0].key)
    && At(t, Skip(t, k), COLON[0]) && Spells(rd, t, Skip(t, Skip(t, k) + 1), e, members[0].value)
    && if |members| == 1 then At(t, Skip(t, e), CLOSE_OBJECT[0]) && q == Skip(t, e) + 1
       else At(t, Skip(t, e), COMMA[0]) && MembersSpell(rd, t, Skip(t, Skip(t, e) + 1), q, members[1..])
  }

  // ----- the values read -----

  // A member with the same key is replaced.
  function Put<N>(members: seq<Member<N>>, key: Text, value: Value<N>): seq<Member<N>> {
    if members == [] then [Member(key, value)]
    else if members[0].key == key then [Member(key, value)] + members[1..]
    else [members[0]] + Put(members[1..], key, value)
  }

  function Collapse<N>(v: Value<N>): Value<N>
    decreases v
  {
    match v
    case Arr(items) => Arr(CollapseItems(items))
    case Obj(members) => Obj(CollapseMembers(members))
    case _ => v
  }

  function CollapseItems<N>(items: seq<Value<N>>): seq<Value<N>>
    decreases items
  {
    if items == [] then [] else CollapseItems(items[..|items| - 1]) + [Collapse(items[|items| - 1])]
  }

  function CollapseMembers<N>(members: seq<Member<N>>): seq<Member<N>>
    decreases members
  {
    if members == [] then []
    else
      var m := members[|members| - 1];
      Put(CollapseMembers(members[..|members| - 1]), m.key, Collapse(m.value))
  }

  function Under<N>(members: seq<Member<N>>, key: Text): Option<Value<N>> {
    if members == [] then None else if members[0].key == key then Some(members[0].value) else Under(members[1..], key)
  }

  lemma {:induction false} PutUnder<N>(members: seq<Member<N>>, key: Text, value: Value<N>, other: Text)
    ensures Under(Put(members, key, value), other) == if other == key then Some(value) else Under(members, other)
  {
    if members != [] && members[0].key != key {
      PutUnder(members[1..], key, value, other);
    }
  }

  // The member at i is the last with its key.
  predicate Last<N>(members: seq<Member<N>>, key: Text, i: nat) {
    i < |members| && members[i].key == key && forall j | i < j < |members| :: members[j].key != key
  }

  // Under every key is the value written last, if the key was written at all.
  lemma {:induction false} LastWins<N>(members: seq<Member<N>>, key: Text)
    ensures var r := Under(CollapseMembers(members), key);
            if r.None? then forall i | 0 <= i < |members| :: members[i].key != key
            else exists i: nat :: Last(members, key, i) && r.value == Collapse(members[i].value)
  {
    if members != [] {
      hide Collapse;
      var n := |members| - 1;
      var m, rest := members[n], members[..n];
      var before := CollapseMembers(rest);
      LastWins(rest, key);
      PutUnder(before, m.key, Collapse(m.value), key);
      assert CollapseMembers(members) == Put(before, m.key, Collapse(m.value));
      hide CollapseMembers, Put, Under;
      if m.key == key {
        assert Last(members, key, n);
      } else if Under(before, key).Some? {
        var i: nat :| Last(rest, key, i) && Under(before, key).value == Collapse(rest[i].value);
        LastStays(members, key, i);
      } else {
        assert forall i | 0 <= i < n :: members[i] == rest[i];
      }
    }
  }

  lemma LastStays<N>(members: seq<Member<N>>, key: Text, i: nat)
    requires members != [] && members[|members| - 1].key != key && Last(members[..|members| - 1], key, i)
    ensures Last(members, key, i) && members[..|members| - 1][i] == members[i]
  {
    var rest := members[..|members| - 1];
    assert forall j | 0 <= j < |rest| :: members[j] == rest[j];
  }

  // What every value begins with.
  lemma SpellsStart<N(!new)>(rd: Reader<N>, t: Text, p: nat, q: nat, v: Value<N>)
    requires Spells(rd, t, p, q, v)
    ensures t[p] != CLOSE_ARRAY[0] && t[p] != CLOSE_OBJECT[0] && !v.Undefined?
    ensures t[p] == OPEN_ARRAY[0] <==> v.Arr?
    ensures t[p] == OPEN_OBJECT[0] <==> v.Obj?
    ensures t[p] == QUOTE <==> v.Str?
    ensures v.Null? <==> t[p] == NULL[0]
    ensures v.Bool? ==> t[p] == if v.b then TRUE[0] else FALSE[0]
    ensures (t[p] == TRUE[0] ==> v == Bool(true)) && (t[p] == FALSE[0] ==> v == Bool(false))
    ensures v.Num? ==> t[p] <= 57
  {
    assert v.Null? || v.Bool? ==> t[p] == t[p..q][0];
  }

  // What has been read up to s is followed by the rest of the items.
  ghost predicate ItemsLead<N(!new)>(rd: Reader<N>, t: Text, s0: nat, s: nat, items: seq<Value<N>>) {
    forall q, rest :: ItemsSpell(rd, t, s, q, rest) ==> ItemsSpell(rd, t, s0, q, items + rest)
  }

  lemma ItemsLeadNext<N(!new)>(rd: Reader<N>, t: Text, s0: nat, s: nat, items: seq<Value<N>>, e: nat, x: Value<N>)
    requires ItemsLead(rd, t, s0, s, items) && Spells(rd, t, s, e, x) && At(t, Skip(t, e), COMMA[0])
    ensures ItemsLead(rd, t, s0, Skip(t, Skip(t, e) + 1), items + [x])
  {
    forall q, rest | ItemsSpell(rd, t, Skip(t, Skip(t, e) + 1), q, rest)
      ensures ItemsSpell(rd, t, s0, q, items + [x] + rest)
    {
      assert ([x] + rest)[1..] == rest;
      assert ItemSpells(rd, t, s, e, q, [x] + rest);
      assert items + ([x] + rest) == items + [x] + rest;
    }
  }

  lemma ItemsLeadEnd<N(!new)>(rd: Reader<N>, t: Text, s0: nat, s: nat, items: seq<Value<N>>, e: nat, x: Value<N>)
    requires ItemsLead(rd, t, s0, s, items) && Spells(rd, t, s, e, x) && At(t, Skip(t, e), CLOSE_ARRAY[0])
    ensures ItemsSpell(rd, t, s0, Skip(t, e) + 1, items + [x])
  {
    assert ItemSpells(rd, t, s, e, Skip(t, e) + 1, [x]);
    assert ItemsSpell(rd, t, s, Skip(t, e) + 1, [x]);
  }

  ghost predicate MembersLead<N(!new)>(rd: Reader<N>, t: Text, s0: nat, s: nat, members: seq<Member<N>>) {
    forall q, rest :: MembersSpell(rd, t, s, q, rest) ==> MembersSpell(rd, t, s0, q, members + rest)
  }

  lemma MembersLeadNext<N(!new)>(rd: Reader<N>, t: Text, s0: nat, s: nat, members: seq<Member<N>>, k: nat, e: nat,
                                 x: Member<N>)
    requires MembersLead(rd, t, s0, s, members) && k <= |t| && e <= |t| && StringSpells(t, s, k, x.key)
    requires At(t, Skip(t, k), COLON[0]) && Spells(rd, t, Skip(t, Skip(t, k) + 1), e, x.value)
    requires At(t, Skip(t, e), COMMA[0])
    ensures MembersLead(rd, t, s0, Skip(t, Skip(t, e) + 1), members + [x])
  {
    forall q, rest | MembersSpell(rd, t, Skip(t, Skip(t, e) + 1), q, rest)
      ensures MembersSpell(rd, t, s0, q, members + [x] + rest)
    {
      assert ([x] + rest)[1..] == rest;
      assert MemberSpells(rd, t, s, k, e, q, [x] + rest);
      assert members + ([x] + rest) == members + [x] + rest;
    }
  }

  lemma MembersLeadEnd<N(!new)>(rd: Reader<N>, t: Text, s0: nat, s: nat, members: seq<Member<N>>, k: nat, e: nat,
                                x: Member<N>)
    requires MembersLead(rd, t, s0, s, members) && k <= |t| && e <= |t| && StringSpells(t, s, k, x.key)
    requires At(t, Skip(t, k), COLON[0]) && Spells(rd, t, Skip(t, Skip(t, k) + 1), e, x.value)
    requires At(t, Skip(t, e), CLOSE_OBJECT[0])
    ensures MembersSpell(rd, t, s0, Skip(t, e) + 1, members + [x])
  {
    assert MemberSpells(rd, t, s, k, e, Skip(t, e) + 1, [x]);
    assert MembersSpell(rd, t, s, Skip(t, e) + 1, [x]);
  }
}
