// Text written by the serializer is read back by the parser.
module JsonRoundTrip {
  import opened Allocations
  import opened JsonBuffer
  import opened JsonStrings
  import opened JsonStringCode
  import opened JsonText
  import opened JsonGrammar
  import JsonSerializer
  import JsonParser

  // What may follow a value in text that the serializer writes.
  predicate Follows(post: Text) { post == [] || post[0] in {COMMA[0], CLOSE_ARRAY[0], CLOSE_OBJECT[0]} }

  // Numbers are read as they were written, whatever stands around them.
  ghost predicate NumbersOk<N(!new)>(pr: Printer<N>, rd: Reader<N>) {
    && ReaderOk(rd)
    && (forall n | pr.finite(n) :: pr.write(n) != [] && (pr.write(n)[0] == 45 || 48 <= pr.write(n)[0] <= 57))
    && (forall n, pre, post :: ReadsBack(pr, rd, n, pre, post))
  }

  ghost predicate ReadsBack<N(!new)>(pr: Printer<N>, rd: Reader<N>, n: N, pre: Text, post: Text) {
    pr.finite(n) && Follows(post) ==>
      rd.read(pre + pr.write(n) + post, |pre|) == Numeral(n, |pre| + |pr.write(n)|)
  }

  // Values that have a text of their own: all numbers are finite, and no key is
  // there twice.
  predicate JsonValue<N>(pr: Printer<N>, v: Value<N>)
    decreases v
  {
    match v
    case Undefined => false
    case Num(n) => pr.finite(n)
    case Arr(items) => forall i | 0 <= i < |items| :: JsonValue(pr, items[i])
    case Obj(members) =>
      && (forall i | 0 <= i < |members| :: JsonValue(pr, members[i].value))
      && DistinctKeys(members)
    case _ => true
  }

  predicate DistinctKeys<N>(members: seq<Member<N>>) {
    forall i, j | 0 <= i < j < |members| :: members[i].key != members[j].key
  }

  lemma TextStart<N(!new)>(pr: Printer<N>, rd: Reader<N>, v: Value<N>)
    requires NumbersOk(pr, rd) && JsonValue(pr, v)
    ensures TextOf(pr, v) != [] && !IsSpace(TextOf(pr, v)[0])
  {
  }

  lemma SkipNone(t: Text, p: nat)
    requires p <= |t| && (p < |t| ==> !IsSpace(t[p]))
    ensures Skip(t, p) == p
  {
  }

  // The text of v, with anything before it and what may follow after it.
  lemma {:induction false} TextSpells<N(!new)>(pr: Printer<N>, rd: Reader<N>, v: Value<N>, pre: Text, post: Text)
    requires NumbersOk(pr, rd) && JsonValue(pr, v) && Follows(post)
    ensures Spells(rd, pre + TextOf(pr, v) + post, |pre|, |pre| + |TextOf(pr, v)|, v)
    decreases v
  {
    hide Spells, TextOf, NumbersOk, ItemsSpell, MembersSpell, ItemsText, MembersText;
    if v.Arr? && v.items != [] {
      ItemsSpelled(pr, rd, v.items, pre + OPEN_ARRAY, post);
      ArrayText(pr, rd, v.items, pre, post);
    } else if v.Obj? && v.members != [] {
      MembersSpelled(pr, rd, v.members, pre + OPEN_OBJECT, post);
      ObjectText(pr, rd, v.members, pre, post);
    } else {
      ScalarSpelled(pr, rd, v, pre, post);
    }
  }

  lemma ScalarSpelled<N(!new)>(pr: Printer<N>, rd: Reader<N>, v: Value<N>, pre: Text, post: Text)
    requires NumbersOk(pr, rd) && JsonValue(pr, v) && Follows(post) && (v.Arr? ==> v.items == [])
             && (v.Obj? ==> v.members == [])
    ensures Spells(rd, pre + TextOf(pr, v) + post, |pre|, |pre| + |TextOf(pr, v)|, v)
  {
    hide Spells, NumbersOk, StringSpells, TextOf, Quoted;
    if v.Str? {
      StringText(pre, v.s, post);
      StringSpelled(pr, rd, v.s, pre, post);
    } else if v.Num? {
      NumberSpelled(pr, rd, v.n, pre, post);
    } else if v.Arr? || v.Obj? {
      EmptySpelled(pr, rd, v, pre, post);
    } else {
      WordSpelled(pr, rd, v, pre, post);
    }
  }

  lemma WordSpelled<N(!new)>(pr: Printer<N>, rd: Reader<N>, v: Value<N>, pre: Text, post: Text)
    requires v.Null? || v.Bool?
    ensures Spells(rd, pre + TextOf(pr, v) + post, |pre|, |pre| + |TextOf(pr, v)|, v)
  {
    Middle(pre, TextOf(pr, v), post);
  }

  lemma StringSpelled<N(!new)>(pr: Printer<N>, rd: Reader<N>, s: Text, pre: Text, post: Text)
    requires StringSpells(pre + Quoted(s) + post, |pre|, |pre| + |Quoted(s)|, s)
    ensures Spells(rd, pre + TextOf(pr, Str(s)) + post, |pre|, |pre| + |TextOf(pr, Str(s))|, Str(s))
  {
    hide Escaped, StringSpells;
    assert TextOf(pr, Str(s)) == Quoted(s);
  }

  lemma NumberSpelled<N(!new)>(pr: Printer<N>, rd: Reader<N>, n: N, pre: Text, post: Text)
    requires NumbersOk(pr, rd) && pr.finite(n) && Follows(post)
    ensures Spells(rd, pre + TextOf(pr, Num(n)) + post, |pre|, |pre| + |TextOf(pr, Num(n))|, Num(n))
  {
    var x := pr.write(n);
    assert TextOf(pr, Num(n)) == x;
    assert ReadsBack(pr, rd, n, pre, post);
    assert rd.read(pre + x + post, |pre|) == Numeral(n, |pre| + |x|);
    Middle(pre, x, post);
  }

  lemma EmptySpelled<N(!new)>(pr: Printer<N>, rd: Reader<N>, v: Value<N>, pre: Text, post: Text)
    requires v == Arr([]) || v == Obj([])
    ensures Spells(rd, pre + TextOf(pr, v) + post, |pre|, |pre| + |TextOf(pr, v)|, v)
  {
    var x: Text := if v.Arr? then [91, 93] else [123, 125];
    assert TextOf(pr, v) == x;
    hide TextOf;
    Middle(pre, x, post);
    assert (pre + x + post)[|pre| + 1] == x[1];
    SkipNone(pre + x + post, |pre| + 1);
  }

  lemma ArrayText<N(!new)>(pr: Printer<N>, rd: Reader<N>, items: seq<Value<N>>, pre: Text, post: Text)
    requires NumbersOk(pr, rd) && items != [] && JsonValue(pr, items[0])
    requires var x := ItemsText(pr, items, false) + CLOSE_ARRAY;
             var pre1 := pre + OPEN_ARRAY;
             ItemsSpell(rd, pre1 + x + post, |pre1|, |pre1| + |x|, items)
    ensures Spells(rd, pre + TextOf(pr, Arr(items)) + post, |pre|, |pre| + |TextOf(pr, Arr(items))|, Arr(items))
  {
    hide ItemsText, ItemsSpell, NumbersOk, JsonValue;
    var x := ItemsText(pr, items, false) + CLOSE_ARRAY;
    ItemsStart(pr, rd, items);
    Opened(pre, OPEN_ARRAY[0], x, post);
    assert TextOf(pr, Arr(items)) == OPEN_ARRAY + x;
  }

  lemma ObjectText<N(!new)>(pr: Printer<N>, rd: Reader<N>, members: seq<Member<N>>, pre: Text, post: Text)
    requires members != [] && JsonValue(pr, members[0].value)
    requires var x := MembersText(pr, members, false) + CLOSE_OBJECT;
             var pre1 := pre + OPEN_OBJECT;
             MembersSpell(rd, pre1 + x + post, |pre1|, |pre1| + |x|, members)
    ensures Spells(rd, pre + TextOf(pr, Obj(members)) + post, |pre|, |pre| + |TextOf(pr, Obj(members))|, Obj(members))
  {
    hide MembersText, MembersSpell, JsonValue;
    var x := MembersText(pr, members, false) + CLOSE_OBJECT;
    MembersStart(pr, members);
    Opened(pre, OPEN_OBJECT[0], x, post);
    assert TextOf(pr, Obj(members)) == OPEN_OBJECT + x;
  }

  lemma Opened(pre: Text, b: Byte, x: Text, post: Text)
    requires x != [] && !IsSpace(x[0])
    ensures var t := pre + ([b] + x) + post;
            && t == (pre + [b]) + x + post && t[|pre|] == b && Skip(t, |pre| + 1) == |pre| + 1
            && |pre + [b]| == |pre| + 1
  {
    var t := pre + ([b] + x) + post;
    assert t == (pre + [b]) + x + post;
    SkipNone(t, |pre| + 1);
  }

  lemma Middle(pre: Text, x: Text, post: Text)
    ensures var t := pre + x + post;
            && t[|pre|..|pre| + |x|] == x && (forall i | 0 <= i < |x| :: t[|pre| + i] == x[i])
            && (post != [] ==> t[|pre| + |x|] == post[0])
  {
  }

  lemma StringText(pre: Text, s: Text, post: Text)
    ensures StringSpells(pre + Quoted(s) + post, |pre|, |pre| + |Quoted(s)|, s)
  {
    hide Body, Decoded, Escaped;
    var x := Quoted(s);
    var t := pre + x + post;
    EscapedDecoded(s);
    Middle(pre, x, post);
    Middle(pre + [QUOTE], Escaped(s), [QUOTE] + post);
    assert t == (pre + [QUOTE]) + Escaped(s) + ([QUOTE] + post);
  }

  lemma ItemsStart<N(!new)>(pr: Printer<N>, rd: Reader<N>, items: seq<Value<N>>)
    requires NumbersOk(pr, rd) && items != [] && JsonValue(pr, items[0])
    ensures ItemsText(pr, items, false) != [] && !IsSpace(ItemsText(pr, items, false)[0])
    ensures ItemsText(pr, items, true) == COMMA + ItemsText(pr, items, false)
  {
    TextStart(pr, rd, items[0]);
  }

  lemma MembersStart<N>(pr: Printer<N>, members: seq<Member<N>>)
    requires members != [] && JsonValue(pr, members[0].value)
    ensures MembersText(pr, members, false) != [] && MembersText(pr, members, false)[0] == QUOTE
    ensures MembersText(pr, members, true) == COMMA + MembersText(pr, members, false)
  {
    hide MembersText, JsonValue, TextOf;
    MembersFirst(pr, members, false);
    MembersFirst(pr, members, true);
  }

  lemma MembersFirst<N>(pr: Printer<N>, members: seq<Member<N>>, written: bool)
    requires members != [] && JsonValue(pr, members[0].value)
    ensures MembersText(pr, members, written)
            == (if written then COMMA else [])
               + (Quoted(members[0].key) + (COLON + TextOf(pr, members[0].value) + MembersText(pr, members[1..], true)))
  {
    hide Quoted, TextOf;
    DefinedMember(pr, members[0]);
  }

  lemma {:induction false} ItemsSpelled<N(!new)>(pr: Printer<N>, rd: Reader<N>, items: seq<Value<N>>, pre: Text,
                                                 post: Text)
    requires NumbersOk(pr, rd) && items != [] && forall i | 0 <= i < |items| :: JsonValue(pr, items[i])
    ensures var x := ItemsText(pr, items, false) + CLOSE_ARRAY;
            ItemsSpell(rd, pre + x + post, |pre|, |pre| + |x|, items)
    decreases items
  {
    hide Spells, TextOf, NumbersOk, JsonValue;
    var x := ItemsText(pr, items, false) + CLOSE_ARRAY;
    var x0 := TextOf(pr, items[0]);
    var e := |pre| + |x0|;
    if |items| == 1 {
      assert ItemsText(pr, items[1..], true) == [];
      assert x == x0 + CLOSE_ARRAY;
      hide ItemsText;
      ItemParts(pre, x0, CLOSE_ARRAY, post);
      TextSpells(pr, rd, items[0], pre, CLOSE_ARRAY + post);
      assert ItemSpells(rd, pre + x + post, |pre|, e, |pre| + |x|, items);
    } else {
      var inner := ItemsText(pr, items[1..], false) + CLOSE_ARRAY;
      ItemsStart(pr, rd, items[1..]);
      assert x == x0 + (COMMA + inner);
      ItemsSpelled(pr, rd, items[1..], pre + x0 + COMMA, post);
      hide ItemsText, ItemsSpell;
      ItemParts(pre, x0, COMMA + inner, post);
      TextSpells(pr, rd, items[0], pre, COMMA + inner + post);
      AfterComma(pre + x0, inner, post);
      assert pre + x + post == (pre + x0 + COMMA) + inner + post;
      assert ItemSpells(rd, pre + x + post, |pre|, e, |pre| + |x|, items);
      SomeItem(rd, pre + x + post, |pre|, e, |pre| + |x|, items);
    }
  }

  lemma SomeItem<N(!new)>(rd: Reader<N>, t: Text, p: nat, e: nat, q: nat, items: seq<Value<N>>)
    requires items != [] && ItemSpells(rd, t, p, e, q, items)
    ensures ItemsSpell(rd, t, p, q, items)
  {
  }

  lemma ItemParts(pre: Text, x0: Text, rest: Text, post: Text)
    requires rest != [] && !IsSpace(rest[0])
    ensures var t, e := pre + (x0 + rest) + post, |pre| + |x0|;
            t == pre + x0 + (rest + post) && Skip(t, e) == e && t[e] == rest[0]
  {
    var t, e := pre + (x0 + rest) + post, |pre| + |x0|;
    assert t == pre + x0 + (rest + post);
    Middle(pre, x0, rest + post);
    SkipNone(t, e);
  }

  lemma {:induction false} MembersSpelled<N(!new)>(pr: Printer<N>, rd: Reader<N>, members: seq<Member<N>>, pre: Text,
                                                   post: Text)
    requires NumbersOk(pr, rd) && members != [] && forall i | 0 <= i < |members| :: JsonValue(pr, members[i].value)
    ensures var x := MembersText(pr, members, false) + CLOSE_OBJECT;
            MembersSpell(rd, pre + x + post, |pre|, |pre| + |x|, members)
    decreases members
  {
    hide Spells, TextOf, NumbersOk, JsonValue, Quoted, StringSpells, MemberSpells, MembersSpell;
    var x := MembersText(pr, members, false) + CLOSE_OBJECT;
    var key, x0 := Quoted(members[0].key), TextOf(pr, members[0].value);
    DefinedMember(pr, members[0]);
    var pre0 := pre + key + COLON;
    if |members| == 1 {
      assert MembersText(pr, members[1..], true) == [];
      assert x == key + COLON + x0 + CLOSE_OBJECT;
      TextSpells(pr, rd, members[0].value, pre0, CLOSE_OBJECT + post);
      LastMember(pr, rd, members, pre, post);
    } else {
      var inner := MembersText(pr, members[1..], false) + CLOSE_OBJECT;
      MembersStart(pr, members[1..]);
      assert x == key + COLON + x0 + (COMMA + inner);
      MembersSpelled(pr, rd, members[1..], pre0 + x0 + COMMA, post);
      TextSpells(pr, rd, members[0].value, pre0, COMMA + inner + post);
      EarlierMember(pr, rd, members, pre, inner, post);
    }
  }

  lemma LastMember<N(!new)>(pr: Printer<N>, rd: Reader<N>, members: seq<Member<N>>, pre: Text, post: Text)
    requires NumbersOk(pr, rd) && |members| == 1 && JsonValue(pr, members[0].value)
    requires var pre0, x0 := pre + Quoted(members[0].key) + COLON, TextOf(pr, members[0].value);
             Spells(rd, pre0 + x0 + (CLOSE_OBJECT + post), |pre0|, |pre0| + |x0|, members[0].value)
    ensures var x := Quoted(members[0].key) + COLON + TextOf(pr, members[0].value) + CLOSE_OBJECT;
            MembersSpell(rd, pre + x + post, |pre|, |pre| + |x|, members)
  {
    hide Spells, TextOf, NumbersOk, JsonValue, Quoted, StringSpells, MembersSpell;
    var key, x0 := Quoted(members[0].key), TextOf(pr, members[0].value);
    var k, e := |pre| + |key|, |pre| + |key| + 1 + |x0|;
    TextStart(pr, rd, members[0].value);
    MemberParts(pre, key, x0, CLOSE_OBJECT, post);
    StringText(pre, members[0].key, COLON + x0 + CLOSE_OBJECT + post);
    var x := key + COLON + x0 + CLOSE_OBJECT;
    SomeMember(rd, pre + x + post, |pre|, k, e, |pre| + |x|, members);
  }

  lemma EarlierMember<N(!new)>(pr: Printer<N>, rd: Reader<N>, members: seq<Member<N>>, pre: Text, inner: Text,
                               post: Text)
    requires NumbersOk(pr, rd) && |members| > 1 && JsonValue(pr, members[0].value) && inner != [] && !IsSpace(inner[0])
    requires var pre0, x0 := pre + Quoted(members[0].key) + COLON, TextOf(pr, members[0].value);
             && Spells(rd, pre0 + x0 + (COMMA + inner + post), |pre0|, |pre0| + |x0|, members[0].value)
             && var pre1 := pre0 + x0 + COMMA;
                MembersSpell(rd, pre1 + inner + post, |pre1|, |pre1| + |inner|, members[1..])
    ensures var x := Quoted(members[0].key) + COLON + TextOf(pr, members[0].value) + (COMMA + inner);
            MembersSpell(rd, pre + x + post, |pre|, |pre| + |x|, members)
  {
    hide Spells, TextOf, NumbersOk, JsonValue, Quoted, StringSpells, MembersSpell;
    var key, x0 := Quoted(members[0].key), TextOf(pr, members[0].value);
    var k, e, pre0 := |pre| + |key|, |pre| + |key| + 1 + |x0|, pre + key + COLON;
    TextStart(pr, rd, members[0].value);
    MemberParts(pre, key, x0, COMMA + inner, post);
    StringText(pre, members[0].key, COLON + x0 + (COMMA + inner) + post);
    AfterComma(pre0 + x0, inner, post);
    var x := key + COLON + x0 + (COMMA + inner);
    assert pre + x + post == (pre0 + x0 + COMMA) + inner + post;
    SomeMember(rd, pre + x + post, |pre|, k, e, |pre| + |x|, members);
  }

  lemma SomeMember<N(!new)>(rd: Reader<N>, t: Text, p: nat, k: nat, e: nat, q: nat, members: seq<Member<N>>)
    requires members != [] && k < |t| && e < |t| && Skip(t, k) == k && Skip(t, k + 1) == k + 1 && Skip(t, e) == e
    requires StringSpells(t, p, k, members[0].key) && t[k] == COLON[0] && Spells(rd, t, k + 1, e, members[0].value)
    requires if |members| == 1 then t[e] == CLOSE_OBJECT[0] && q == e + 1
             else t[e] == COMMA[0] && Skip(t, e + 1) == e + 1 && MembersSpell(rd, t, e + 1, q, members[1..])
    ensures MembersSpell(rd, t, p, q, members)
  {
    assert MemberSpells(rd, t, p, k, e, q, members);
  }

  // Where a key, a colon, a value and what comes after it stand.
  lemma MemberParts(pre: Text, key: Text, x0: Text, rest: Text, post: Text)
    requires rest != [] && !IsSpace(rest[0]) && x0 != [] && !IsSpace(x0[0])
    ensures var t, k := pre + (key + COLON + x0 + rest) + post, |pre| + |key|;
            && t == pre + key + (COLON + x0 + rest + post) && t == (pre + key + COLON) + x0 + (rest + post)
            && Skip(t, k) == k && t[k] == COLON[0] && Skip(t, k + 1) == k + 1
            && Skip(t, k + 1 + |x0|) == k + 1 + |x0| && t[k + 1 + |x0|] == rest[0]
  {
    var t, k := pre + (key + COLON + x0 + rest) + post, |pre| + |key|;
    Regrouped(pre, key, COLON, x0, rest, post);
    Stands(pre, key, COLON + x0 + rest + post);
    Stands(pre + key, COLON, x0 + rest + post);
    Stands(pre + key + COLON, x0, rest + post);
    Assoc3(pre + key, COLON, x0, rest, post);
    assert (COLON + x0 + rest + post)[0] == COLON[0] && (rest + post)[0] == rest[0];
  }

  // Nothing is skipped before x, nor before what follows it.
  lemma Stands(pre: Text, x: Text, post: Text)
    ensures var t := pre + x + post;
            && (post != [] && !IsSpace(post[0]) ==> Skip(t, |pre| + |x|) == |pre| + |x| && t[|pre| + |x|] == post[0])
            && (x != [] && !IsSpace(x[0]) ==> Skip(t, |pre|) == |pre| && t[|pre|] == x[0])
  {
    var t := pre + x + post;
    assert x != [] ==> t[|pre|] == x[0];
    assert post != [] ==> t[|pre| + |x|] == post[0];
    if post != [] && !IsSpace(post[0]) {
      SkipNone(t, |pre| + |x|);
    }
    if x != [] && !IsSpace(x[0]) {
      SkipNone(t, |pre|);
    }
  }

  lemma Assoc3(a: Text, c: Text, d: Text, e: Text, f: Text)
    ensures a + c + (d + e + f) == a + (c + d + e + f)
  {
    Assoc(c, d, e);
    Assoc(c, d + e, f);
    Assoc(a, c, d + e + f);
  }

  lemma Regrouped(a: Text, b: Text, c: Text, d: Text, e: Text, f: Text)
    ensures a + (b + c + d + e) + f == a + b + (c + d + e + f)
    ensures a + (b + c + d + e) + f == (a + b + c) + d + (e + f)
  {
    assert b + c + d + e == b + (c + d + e) == (b + c) + (d + e);
    Assoc(a, b, c + d + e);
    Assoc(a + b, c + d + e, f);
    Assoc(a + b, c, d + e);
    Assoc(a + b + c, d, e);
    Assoc(a + b + c + d, e, f);
    Assoc(a, b, c);
    Assoc(a, b + c, d + e);
    Assoc(a + b + c, d, e + f);
    Assoc(a + b + c, d + e, f);
    Assoc(d, e, f);
  }

  lemma AfterComma(pre: Text, inner: Text, post: Text)
    requires inner != [] && !IsSpace(inner[0])
    ensures Skip((pre + COMMA) + inner + post, |pre| + 1) == |pre| + 1
  {
    Middle(pre + COMMA, inner, post);
    SkipNone((pre + COMMA) + inner + post, |pre| + 1);
  }

  lemma DefinedMember<N>(pr: Printer<N>, m: Member<N>)
    requires JsonValue(pr, m.value)
    ensures !m.value.Undefined?
  {
  }

  // ----- the value read -----

  lemma {:induction false} NothingReplaced<N>(pr: Printer<N>, v: Value<N>)
    requires JsonValue(pr, v)
    ensures Collapse(v) == v
    decreases v
  {
    match v {
      case Arr(items) => ItemsStay(pr, items);
      case Obj(members) => MembersStay(pr, members);
      case _ =>
    }
  }

  lemma {:induction false} ItemsStay<N>(pr: Printer<N>, items: seq<Value<N>>)
    requires forall i | 0 <= i < |items| :: JsonValue(pr, items[i])
    ensures CollapseItems(items) == items
    decreases items
  {
    if items != [] {
      ItemsStay(pr, items[..|items| - 1]);
      NothingReplaced(pr, items[|items| - 1]);
    }
  }

  lemma {:induction false} MembersStay<N>(pr: Printer<N>, members: seq<Member<N>>)
    requires DistinctKeys(members) && forall i | 0 <= i < |members| :: JsonValue(pr, members[i].value)
    ensures CollapseMembers(members) == members
    decreases members
  {
    if members != [] {
      var m := members[|members| - 1];
      MembersStay(pr, members[..|members| - 1]);
      NothingReplaced(pr, m.value);
      PutNew(members[..|members| - 1], m.key, m.value);
      assert members == members[..|members| - 1] + [m];
    }
  }

  lemma {:induction false} PutNew<N>(members: seq<Member<N>>, key: Text, value: Value<N>)
    requires forall i | 0 <= i < |members| :: members[i].key != key
    ensures Put(members, key, value) == members + [Member(key, value)]
  {
    if members != [] {
      PutNew(members[1..], key, value);
    }
  }

  // Given memory, a value nested at most 31 deep is written, and what is written is
  // read back if no allocation for a key was refused.
  method WriteAndRead<N(!new)>(pr: Printer<N>, rd: Reader<N>, v: Value<N>, memory: seq<bool>, free: seq<bool>,
                               growth: seq<Text> -> nat)
    returns (r: JsonParser.Outcome<N>, written: bool, ghost asked: nat, ghost quiet: set<nat>, wanted: nat)
    requires NumbersOk(pr, rd) && JsonValue(pr, v)
    ensures (forall i | 0 <= i < asked :: Granted(memory, i)) ==> (written <==> Depth(v) < MAX_DEPTH)
    ensures written && (forall i | i in quiet :: Granted(memory, i)) ==>
              if Served(free, 0, wanted) then r == JsonParser.Ok(v) else r.Bad? && JsonParser.OutOfMemory(r.error)
  {
    hide TextOf, Depth, Spells, Collapse, NumbersOk, JsonValue, JsonParser.TextSpells, JsonSerializer.RunOf;
    r, written, wanted := JsonParser.Bad(JsonParser.ParseError.NoMemory), false, 0;
    var text;
    ghost var run;
    text, asked, quiet, run := JsonSerializer.Stringify(pr, v, memory);
    DefinedValue(pr, v);
    if text.Done? {
      written := true;
      WholeText(pr, rd, v);
      NothingReplaced(pr, v);
      ReadersOk(pr, rd);
      ghost var tree;
      r, wanted, tree := JsonParser.Parse(text.text, rd, free, growth, v);
    }
  }

  lemma DefinedValue<N>(pr: Printer<N>, v: Value<N>)
    requires JsonValue(pr, v)
    ensures !v.Undefined?
  {
  }

  lemma ReadersOk<N(!new)>(pr: Printer<N>, rd: Reader<N>)
    requires NumbersOk(pr, rd)
    ensures ReaderOk(rd)
  {
  }

  lemma WholeText<N(!new)>(pr: Printer<N>, rd: Reader<N>, v: Value<N>)
    requires NumbersOk(pr, rd) && JsonValue(pr, v)
    ensures JsonParser.TextSpells(rd, TextOf(pr, v), v)
  {
    hide TextOf, Spells, NumbersOk, JsonValue;
    var t := TextOf(pr, v);
    TextSpells(pr, rd, v, [], []);
    assert [] + t + [] == t;
    TextStart(pr, rd, v);
    SkipNone(t, 0);
    SkipNone(t, |t|);
  }
}
