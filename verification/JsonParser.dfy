// The recursive parser of JSON text.
module JsonParser {
  import opened Wrappers
  import opened Allocations
  import opened JsonBuffer
  import opened JsonStrings
  import opened JsonStringCode
  import opened JsonText
  import opened JsonGrammar

  datatype ParseError =
    | UnexpectedToken
    | UnexpectedEnd
    | UnexpectedNumber
    | TrailingComma
    | TooDeep
    | BadString(error: StringError)
    | NoMemory
    | NoProperty

  datatype Parsed<+N> = Found(value: Value<N>, next: nat) | Error(error: ParseError, at: nat)

  predicate OutOfMemory(e: ParseError) { e in {ParseError.NoMemory, NoProperty, BadString(StringError.NoMemory)} }

  // Memory was asked for from a up to b, and there was too little just when a
  // request was refused.
  predicate Paid(memory: seq<bool>, a: nat, b: nat, short: bool) {
    a <= b && (short <==> !Served(memory, a, b))
  }

  lemma PaidNone(memory: seq<bool>, a: nat)
    ensures Paid(memory, a, a, false)
  {
  }

  lemma PaidOn(memory: seq<bool>, a: nat, b: nat, c: nat, short: bool)
    requires Paid(memory, a, b, false) && Paid(memory, b, c, short)
    ensures Paid(memory, a, c, short)
  {
  }

  // What the text has where an error is reported.
  ghost predicate Blamed(t: Text, e: ParseError, at: nat) {
    match e
    case UnexpectedEnd => at == |t|
    case UnexpectedToken => at <= |t| && (at < |t| ==> !IsSpace(t[at]))
    case UnexpectedNumber => at < |t| && t[at] <= 57
    case TrailingComma => at + 1 < |t| && t[at + 1] in {CLOSE_ARRAY[0], CLOSE_OBJECT[0]}
    case TooDeep => at < |t| && t[at] in {OPEN_ARRAY[0], OPEN_OBJECT[0]}
    case BadString(error) => error != StringError.NoMemory ==> BadStringAt(t, at, error)
    case _ => true
  }

  ghost predicate BadStringAt(t: Text, at: nat, error: StringError) {
    exists p: nat :: At(t, p, QUOTE) && Stops(t, p + 1, at, error)
  }

  lemma StringBlamed(t: Text, p: nat, error: StringError, at: nat)
    requires At(t, p, QUOTE) && (error != StringError.NoMemory ==> Stops(t, p + 1, at, error))
    ensures Blamed(t, BadString(error), at)
  {
  }

  predicate Short<N>(r: Parsed<N>) { r.Error? && OutOfMemory(r.error) }

  // The room for an array that had no room for its n-th item.
  function Grown(n: nat): nat { if n < 16 then 2 * n else n + n / 2 }

  method SkipSpace(t: Text, start: nat) returns (p: nat)
    requires start <= |t|
    ensures p == Skip(t, start)
  {
    p := start;
    while p != |t| && IsSpace(t[p])
      invariant start <= p <= |t| && Skip(t, p) == Skip(t, start)
    {
      p := p + 1;
    }
  }

  class Context<N(!new)> {
    const text: Text
    const reader: Reader<N>
    const memory: seq<bool>
    // How often memory is asked for when the last of these keys is put into the
    // hash of an object that has the others.
    const growth: seq<Text> -> nat
    var depth: nat
    var asked: nat

    constructor (text: Text, reader: Reader<N>, memory: seq<bool>, growth: seq<Text> -> nat)
      ensures this.text == text && this.reader == reader && this.memory == memory && depth == MAX_DEPTH && asked == 0
    {
      this.text, this.reader, this.memory, this.growth, depth, asked := text, reader, memory, growth, MAX_DEPTH, 0;
    }

    method Ask(n: nat) returns (ok: bool)
      modifies this`asked
      ensures Paid(memory, old(asked), asked, !ok)
      ensures asked <= old(asked) + n && (ok ==> asked == old(asked) + n)
    {
      var i := 0;
      while i < n
        invariant 0 <= i <= n && asked == old(asked) + i && Served(memory, old(asked), asked)
      {
        asked, i := asked + 1, i + 1;
        if !Granted(memory, asked - 1) {
          return false;
        }
      }
      ok := true;
    }

    // Room for one more item.
    method Expand(size0: nat, length: nat) returns (ok: bool, size: nat)
      requires length <= size0
      modifies this`asked
      ensures Paid(memory, old(asked), asked, !ok) && (ok ==> size > length)
      ensures asked == old(asked) + (if length < size0 then 0 else 1)
    {
      size := size0;
      ok := true;
      if length == size {
        size := Grown(length + 1);
        ok := Ask(1);
      }
    }

    // The property is made, and put into the hash.
    method AddProperty(keys: seq<Text>) returns (error: Option<ParseError>)
      modifies this`asked
      ensures Paid(memory, old(asked), asked, error.Some?)
      ensures error in {None, Some(ParseError.NoMemory), Some(NoProperty)}
    {
      var ok := Ask(1);
      if !ok {
        return Some(ParseError.NoMemory);
      }
      ok := Ask(growth(keys));
      error := if ok then None else Some(NoProperty);
    }

    // q0 and v0 are any place and any value.
    method ParseValue(p: nat, ghost q0: nat, ghost v0: Value<N>)
      returns (r: Parsed<N>, ghost tree: Value<N>)
      requires p < |text| && ReaderOk(reader) && depth > 0
      modifies this
      ensures Sound(reader, text, p, old(depth), r, tree) && Complete(reader, text, p, old(depth), q0, v0, r, tree)
      ensures if r.Found? then depth == old(depth) else Blamed(text, r.error, r.at)
      ensures Paid(memory, old(asked), asked, Short(r))
      decreases |text| - p, 2
    {
      hide Spells, Ends, Body, Decoded;
      tree := Undefined;
      if Spells(reader, text, p, q0, v0) {
        SpellsStart(reader, text, p, q0, v0);
      }
      var c := text[p];
      if c == OPEN_OBJECT[0] {
        r, tree := ParseObject(p, q0, v0);
      } else if c == OPEN_ARRAY[0] {
        r, tree := ParseArray(p, q0, v0);
      } else if c == QUOTE {
        r, tree := ParseText(p, q0, v0);
      } else if c == TRUE[0] {
        r, tree := ParseWord(p, TRUE, Bool(true), q0, v0);
      } else if c == FALSE[0] {
        r, tree := ParseWord(p, FALSE, Bool(false), q0, v0);
      } else if c == NULL[0] {
        r, tree := ParseWord(p, NULL, Null, q0, v0);
      } else if c <= 57 {
        r, tree := ParseNumber(p, q0, v0);
      } else {
        return Error(UnexpectedToken, p), Undefined;
      }
    }

    method ParseWord(p: nat, word: Text, v: Value<N>, ghost q0: nat, ghost v0: Value<N>)
      returns (r: Parsed<N>, ghost tree: Value<N>)
      requires p < |text| && word != [] && text[p] == word[0] && depth > 0
      requires (v == Null && word == NULL) || (v.Bool? && word == if v.b then TRUE else FALSE)
      ensures r.Error? ==> r == Error(UnexpectedToken, p)
      ensures Sound(reader, text, p, depth, r, tree)
      ensures Complete(reader, text, p, depth, q0, v0, r, tree)
    {
      tree := v;
      if Spells(reader, text, p, q0, v0) {
        SpellsStart(reader, text, p, q0, v0);
      }
      if |text| - p >= |word| && text[p..p + |word|] == word {
        return Found(v, p + |word|), v;
      }
      r := Error(UnexpectedToken, p);
    }

    method ParseNumber(p: nat, ghost q0: nat, ghost v0: Value<N>)
      returns (r: Parsed<N>, ghost tree: Value<N>)
      requires p < |text| && text[p] <= 57 && text[p] != QUOTE && ReaderOk(reader) && depth > 0
      ensures r.Error? ==> r == Error(UnexpectedNumber, p)
      ensures Sound(reader, text, p, depth, r, tree)
      ensures Complete(reader, text, p, depth, q0, v0, r, tree)
    {
      tree := Undefined;
      if Spells(reader, text, p, q0, v0) {
        SpellsStart(reader, text, p, q0, v0);
      }
      var n := reader.read(text, p);
      if n.Numeral? {
        return Found(Num(n.n), n.next), Num(n.n);
      }
      r := Error(UnexpectedNumber, p);
    }

    method ParseText(p: nat, ghost q0: nat, ghost v0: Value<N>)
      returns (r: Parsed<N>, ghost tree: Value<N>)
      requires p < |text| && text[p] == QUOTE && depth > 0
      modifies this`asked
      ensures Sound(reader, text, p, depth, r, tree)
      ensures Complete(reader, text, p, depth, q0, v0, r, tree)
      ensures Paid(memory, old(asked), asked, Short(r)) && (r.Error? ==> Blamed(text, r.error, r.at))
    {
      hide Body, Decoded, Ends, Stops;
      if Spells(reader, text, p, q0, v0) {
        SpellsStart(reader, text, p, q0, v0);
      }
      ghost var s: Text := if v0.Str? then v0.s else [];
      var str := ParseKey(p, q0, s);
      match str {
        case Read(value, next) =>
          EndAfterStart(text, p, next);
          return Found(Str(value), next), Str(value);
        case Failed(error, at) =>
          StringBlamed(text, p, error, at);
          return Error(BadString(error), at), Undefined;
      }
    }

    method ParseKey(p: nat, ghost q0: nat, ghost s0: Text) returns (r: StringResult)
      requires p < |text| && text[p] == QUOTE
      modifies this`asked
      ensures Paid(memory, old(asked), asked, r.Failed? && r.error == StringError.NoMemory)
      ensures r.Failed? && r.error != StringError.NoMemory ==> Stops(text, p + 1, r.at, r.error)
      ensures r.Read? ==> StringSpells(text, p, r.next, r.value)
      ensures StringSpells(text, p, q0, s0) ==>
                if r.Read? then r.next == q0 && r.value == s0 else r.error == StringError.NoMemory
    {
      hide Body, Decoded;
      r, asked := ParseString(text, p, memory, asked);
      if StringSpells(text, p, q0, s0) {
        assert HasEnd(text, p + 1) by {
          assert Ends(text, p + 1, q0 - 1);
        }
        if r.Read? {
          OneEnd(text, p + 1, q0 - 1, r.next - 1);
        }
      }
    }

    method ParseArray(p: nat, ghost q0: nat, ghost v0: Value<N>) returns (r: Parsed<N>, ghost tree: Value<N>)
      requires p < |text| && text[p] == OPEN_ARRAY[0] && ReaderOk(reader) && depth > 0
      modifies this
      ensures Sound(reader, text, p, old(depth), r, tree) && Complete(reader, text, p, old(depth), q0, v0, r, tree)
      ensures if r.Found? then depth == old(depth) else Blamed(text, r.error, r.at)
      ensures Paid(memory, old(asked), asked, Short(r))
      decreases |text| - p, 1
    {
      hide Spells, ArrayState, Sound, Complete, Paid;
      tree := Undefined;
      ghost var todo := ArrayBegins(reader, text, p, depth - 1, q0, v0);
      depth := depth - 1;
      PaidNone(memory, asked);
      if depth == 0 {
        r := Error(TooDeep, p);
        return;
      }
      var ok := Ask(2);
      if !ok {
        r := Error(ParseError.NoMemory, p);
        Unmet(reader, text, p, old(depth), q0, v0, r, tree);
        return;
      }
      var items: seq<Value<N>>, pos, size: nat := [], p, 0;
      ghost var trees: seq<Value<N>> := [];
      while true
        invariant p <= pos < |text| && depth == old(depth) - 1 && |items| <= size
        invariant Paid(memory, old(asked), asked, false)
        invariant ArrayState(reader, text, p, pos, depth, q0, v0, items, trees, todo)
        decreases |text| - pos
      {
        var s := SkipSpace(text, pos + 1);
        ghost var e0, x0 := ArrayHint(reader, text, p, pos, depth, q0, v0, items, trees, todo);
        if s == |text| {
          r := Error(ParseError.UnexpectedEnd, s);
          NotSpelled(reader, text, p, old(depth), q0, v0, r, tree);
          return;
        }
        if text[s] == CLOSE_ARRAY[0] {
          if items != [] {
            r := Error(TrailingComma, s - 1);
            NotSpelled(reader, text, p, old(depth), q0, v0, r, tree);
            return;
          }
          depth := depth + 1;
          r, tree := Found(Arr([]), s + 1), Arr([]);
          return;
        }
        var item;
        ghost var x, asked0 := Undefined, asked;
        item, x := ParseValue(s, e0, x0);
        PaidOn(memory, old(asked), asked0, asked, Short(item));
        if item.Error? {
          r := item;
          ArrayError(reader, text, p, pos, old(depth) - 1, q0, v0, items, trees, todo, e0, x0, item, x);
          return;
        }
        asked0 := asked;
        ok, size := Expand(size, |items|);
        PaidOn(memory, old(asked), asked0, asked, !ok);
        if !ok {
          r := Error(ParseError.NoMemory, item.next);
          Unmet(reader, text, p, old(depth), q0, v0, r, tree);
          return;
        }
        ArrayItem(reader, text, p, pos, depth, q0, v0, items, trees, todo, e0, x0, item, x);
        items, trees := items + [item.value], trees + [x];
        var k := SkipSpace(text, item.next);
        if k == |text| {
          r := Error(ParseError.UnexpectedEnd, k);
          NotSpelled(reader, text, p, old(depth), q0, v0, r, tree);
          return;
        }
        if text[k] != COMMA[0] {
          if text[k] == CLOSE_ARRAY[0] {
            depth := depth + 1;
            r, tree := Found(Arr(items), k + 1), Arr(trees);
            return;
          }
          r := Error(UnexpectedToken, k);
          NotSpelled(reader, text, p, old(depth), q0, v0, r, tree);
          return;
        }
        pos := k;
        todo := Tail(todo);
      }
    }

    method ParseObject(p: nat, ghost q0: nat, ghost v0: Value<N>) returns (r: Parsed<N>, ghost tree: Value<N>)
      requires p < |text| && text[p] == OPEN_OBJECT[0] && ReaderOk(reader) && depth > 0
      modifies this
      ensures Sound(reader, text, p, old(depth), r, tree) && Complete(reader, text, p, old(depth), q0, v0, r, tree)
      ensures if r.Found? then depth == old(depth) else Blamed(text, r.error, r.at)
      ensures Paid(memory, old(asked), asked, Short(r))
      decreases |text| - p, 1
    {
      hide Spells, ObjectState, Sound, Complete, PairSpells, Paid;
      tree := Undefined;
      ghost var todo := ObjectBegins(reader, text, p, depth - 1, q0, v0);
      depth := depth - 1;
      PaidNone(memory, asked);
      if depth == 0 {
        r := Error(TooDeep, p);
        return;
      }
      var ok := Ask(1);
      if !ok {
        r := Error(ParseError.NoMemory, p);
        Unmet(reader, text, p, old(depth), q0, v0, r, tree);
        return;
      }
      var obj: seq<Member<N>>, pos, any := [], p, false;
      var keys: seq<Text> := [];
      ghost var trees: seq<Member<N>> := [];
      while true
        invariant p <= pos < |text| && depth == old(depth) - 1
        invariant Paid(memory, old(asked), asked, false)
        invariant ObjectState(reader, text, p, pos, depth, q0, v0, obj, any, trees, todo)
        decreases |text| - pos
      {
        var s := SkipSpace(text, pos + 1);
        ghost var k0, e0, m0 := ObjectHint(reader, text, p, pos, depth, q0, v0, obj, any, trees, todo);
        if s == |text| {
          r := Error(ParseError.UnexpectedEnd, s);
          NotSpelled(reader, text, p, old(depth), q0, v0, r, tree);
          return;
        }
        if text[s] != QUOTE {
          if text[s] == CLOSE_OBJECT[0] && !any {
            depth := depth + 1;
            r, tree := Found(Obj([]), s + 1), Obj([]);
            return;
          }
          r := if text[s] == CLOSE_OBJECT[0] then Error(TrailingComma, s - 1) else Error(UnexpectedToken, s);
          NotSpelled(reader, text, p, old(depth), q0, v0, r, tree);
          return;
        }
        var member;
        ghost var x, k1, asked0 := Member([], Undefined), 0, asked;
        member, x, k1 := ParseMember(s, k0, e0, m0);
        PaidOn(memory, old(asked), asked0, asked, member.NoMember? && OutOfMemory(member.error));
        if member.NoMember? {
          r := Error(member.error, member.at);
          ObjectError(reader, text, p, pos, old(depth) - 1, q0, v0, obj, any, trees, todo, k0, e0, m0, r, tree);
          return;
        }
        keys := keys + [member.key];
        asked0 := asked;
        var short := AddProperty(keys);
        PaidOn(memory, old(asked), asked0, asked, short.Some?);
        if short.Some? {
          r := Error(short.value, member.next);
          Unmet(reader, text, p, old(depth), q0, v0, r, tree);
          return;
        }
        ObjectItem(reader, text, p, pos, depth, q0, v0, obj, any, trees, todo, k0, e0, m0, member, x, k1);
        obj, trees, any := Put(obj, member.key, member.value), trees + [x], true;
        var k := SkipSpace(text, member.next);
        if k == |text| {
          r := Error(ParseError.UnexpectedEnd, k);
          NotSpelled(reader, text, p, old(depth), q0, v0, r, tree);
          return;
        }
        if text[k] != COMMA[0] {
          if text[k] == CLOSE_OBJECT[0] {
            depth := depth + 1;
            r, tree := Found(Obj(obj), k + 1), Obj(trees);
            return;
          }
          r := Error(UnexpectedToken, k);
          NotSpelled(reader, text, p, old(depth), q0, v0, r, tree);
          return;
        }
        pos := k;
        todo := Tail(todo);
      }
    }

    // A key, a colon and a value; the key ends at k, and k0, e0 and m0 are any
    // places and any member.
    method ParseMember(s: nat, ghost k0: nat, ghost e0: nat, ghost m0: Member<N>)
      returns (r: ParsedMember<N>, ghost tree: Member<N>, ghost k: nat)
      requires s < |text| && text[s] == QUOTE && ReaderOk(reader) && depth > 0
      modifies this
      ensures r.FoundMember? ==>
                && depth == old(depth) && s < r.next <= |text| && k <= |text|
                && PairSpells(reader, text, s, k, r.next, tree) && Depth(tree.value) < depth
                && r.key == tree.key && r.value == Collapse(tree.value)
      ensures PairSpells(reader, text, s, k0, e0, m0) ==>
                if r.FoundMember? then r.next == e0 && k == k0 && tree == m0
                else OutOfMemory(r.error) || (r.error == TooDeep && Depth(m0.value) >= old(depth))
      ensures Paid(memory, old(asked), asked, r.NoMember? && OutOfMemory(r.error))
      ensures r.NoMember? ==> Blamed(text, r.error, r.at)
      decreases |text| - s, 0
    {
      hide Spells, Ends, Body, Decoded, Stops;
      tree, k := Member([], Undefined), 0;
      ghost var hyp := PairSpells(reader, text, s, k0, e0, m0);
      var key := ParseKey(s, k0, m0.key);
      if key.Failed? {
        StringBlamed(text, s, key.error, key.at);
        return NoMember(BadString(key.error), key.at), tree, k;
      }
      KeyEnds(text, s, key.next, key.value);
      k := key.next;
      var c := SkipSpace(text, key.next);
      if c == |text| || text[c] != COLON[0] {
        return NoMember(UnexpectedToken, c), tree, k;
      }
      var v := SkipSpace(text, c + 1);
      if hyp {
        SpellsStart(reader, text, v, e0, m0.value);
        SpellsInside(reader, text, v, e0, m0.value);
      }
      if v == |text| {
        return NoMember(ParseError.UnexpectedEnd, v), tree, k;
      }
      var value;
      ghost var x;
      value, x := ParseValue(v, e0, m0.value);
      if value.Error? {
        return NoMember(value.error, value.at), tree, k;
      }
      tree := Member(key.value, x);
      return FoundMember(key.value, value.value, value.next), tree, k;
    }
  }

  // What a parse at p gives: the value of a tree that the text spells, nested
  // less deeply than the depth left.
  ghost predicate Sound<N(!new)>(rd: Reader<N>, t: Text, p: nat, depth: nat, r: Parsed<N>, tree: Value<N>) {
    r.Found? ==> p < r.next <= |t| && Spells(rd, t, p, r.next, tree) && Depth(tree) < depth && r.value == Collapse(tree)
  }

  // If the text spells v up to q, that is what is found.
  ghost predicate Complete<N(!new)>(rd: Reader<N>, t: Text, p: nat, depth: nat, q: nat, v: Value<N>, r: Parsed<N>,
                                    tree: Value<N>)
  {
    Spells(rd, t, p, q, v) ==>
      if r.Found? then r.next == q && tree == v
      else OutOfMemory(r.error) || (r.error == TooDeep && Depth(v) >= depth)
  }

  lemma NotSpelled<N(!new)>(rd: Reader<N>, t: Text, p: nat, depth: nat, q: nat, v: Value<N>, r: Parsed<N>,
                            tree: Value<N>)
    requires !Spells(rd, t, p, q, v) && r.Error?
    ensures Sound(rd, t, p, depth, r, tree) && Complete(rd, t, p, depth, q, v, r, tree)
  {
  }

  lemma Unmet<N(!new)>(rd: Reader<N>, t: Text, p: nat, depth: nat, q: nat, v: Value<N>, r: Parsed<N>, tree: Value<N>)
    requires r.Error? && OutOfMemory(r.error)
    ensures Sound(rd, t, p, depth, r, tree) && Complete(rd, t, p, depth, q, v, r, tree)
  {
  }

  function Tail<T>(s: seq<T>): seq<T> { if s == [] then [] else s[1..] }

  lemma SpellsInside<N(!new)>(rd: Reader<N>, t: Text, p: nat, q: nat, v: Value<N>)
    requires Spells(rd, t, p, q, v)
    ensures p < q <= |t|
  {
  }

  // ----- arrays -----

  // The items read so far, and what is to come if the text spells v up to q.
  ghost predicate ArrayState<N(!new)>(rd: Reader<N>, t: Text, p: nat, pos: nat, depth: nat, q: nat, v: Value<N>,
                                      items: seq<Value<N>>, trees: seq<Value<N>>, todo: seq<Value<N>>)
  {
    && p <= pos < |t| && t[p] == OPEN_ARRAY[0] && depth > 0 && (trees == [] ==> pos == p)
    && items == CollapseItems(trees) && (items == [] <==> trees == []) && ItemsDepth(trees) < depth
    && ItemsLead(rd, t, Skip(t, p + 1), Skip(t, pos + 1), trees)
    && (Spells(rd, t, p, q, v) ==> v == Arr(trees + todo) && Awaited(rd, t, p, pos, q, trees, todo))
  }

  ghost predicate Awaited<N(!new)>(rd: Reader<N>, t: Text, p: nat, pos: nat, q: nat, done: seq<Value<N>>,
                                   todo: seq<Value<N>>)
    requires p < |t| && pos < |t|
  {
    if todo == [] then done == [] && At(t, Skip(t, p + 1), CLOSE_ARRAY[0]) && q == Skip(t, p + 1) + 1
    else ItemsSpell(rd, t, Skip(t, pos + 1), q, todo)
  }

  lemma ArrayBegins<N(!new)>(rd: Reader<N>, t: Text, p: nat, depth: nat, q: nat, v: Value<N>)
    returns (todo: seq<Value<N>>)
    requires p < |t| && t[p] == OPEN_ARRAY[0]
    ensures depth == 0 ==> Sound(rd, t, p, 1, Error(TooDeep, p), Undefined)
                           && Complete(rd, t, p, 1, q, v, Error(TooDeep, p), Undefined)
    ensures depth > 0 ==> ArrayState(rd, t, p, p, depth, q, v, [], [], todo)
  {
    todo := [];
    if Spells(rd, t, p, q, v) {
      SpellsStart(rd, t, p, q, v);
      todo := v.items;
      assert [] + todo == todo;
    }
    NoItems(rd, t, Skip(t, p + 1));
  }

  lemma NoItems<N(!new)>(rd: Reader<N>, t: Text, s: nat)
    ensures ItemsLead(rd, t, s, s, [])
  {
    forall q, rest | ItemsSpell(rd, t, s, q, rest) ensures ItemsSpell(rd, t, s, q, [] + rest) {
      assert [] + rest == rest;
    }
  }

  // The next item and its end, if the text spells v.
  lemma ArrayHint<N(!new)>(rd: Reader<N>, t: Text, p: nat, pos: nat, depth: nat, q: nat, v: Value<N>,
                           items: seq<Value<N>>, trees: seq<Value<N>>, todo: seq<Value<N>>)
    returns (e: nat, x: Value<N>)
    requires ArrayState(rd, t, p, pos, depth, q, v, items, trees, todo)
    ensures pos < |t|
    ensures var s := Skip(t, pos + 1);
            && (s == |t| || (t[s] == CLOSE_ARRAY[0] && items != []) ==> !Spells(rd, t, p, q, v))
            && (At(t, s, CLOSE_ARRAY[0]) && items == [] ==>
                  var r, tree := Found(Arr([]), s + 1), Arr([]);
                  Sound(rd, t, p, depth + 1, r, tree) && Complete(rd, t, p, depth + 1, q, v, r, tree))
            && (Spells(rd, t, p, q, v) && !At(t, s, CLOSE_ARRAY[0]) ==> Ahead(rd, t, s, e, q, x, todo))
  {
    hide ItemsSpell, ItemSpells, ItemsLead, CollapseItems, ItemsDepth;
    e, x := 0, Undefined;
    var s := Skip(t, pos + 1);
    if Spells(rd, t, p, q, v) && todo != [] {
      e := FirstItem(rd, t, s, q, todo);
      x := todo[0];
    }
    if At(t, s, CLOSE_ARRAY[0]) && items == [] {
      EmptyArray(rd, t, p);
    }
  }

  // The item x comes first, from s to e.
  ghost predicate Ahead<N(!new)>(rd: Reader<N>, t: Text, s: nat, e: nat, q: nat, x: Value<N>, todo: seq<Value<N>>) {
    && todo != [] && x == todo[0] && e <= |t| && Spells(rd, t, s, e, x)
    && if |todo| == 1 then At(t, Skip(t, e), CLOSE_ARRAY[0]) && q == Skip(t, e) + 1
       else At(t, Skip(t, e), COMMA[0]) && ItemsSpell(rd, t, Skip(t, Skip(t, e) + 1), q, todo[1..])
  }

  lemma FirstItem<N(!new)>(rd: Reader<N>, t: Text, s: nat, q: nat, todo: seq<Value<N>>) returns (e: nat)
    requires ItemsSpell(rd, t, s, q, todo)
    ensures todo != [] && s < |t| && t[s] != CLOSE_ARRAY[0] && Ahead(rd, t, s, e, q, todo[0], todo)
  {
    e :| ItemSpells(rd, t, s, e, q, todo);
    SpellsStart(rd, t, s, e, todo[0]);
  }

  lemma EmptyArray<N(!new)>(rd: Reader<N>, t: Text, p: nat)
    requires p < |t| && t[p] == OPEN_ARRAY[0] && At(t, Skip(t, p + 1), CLOSE_ARRAY[0])
    ensures Spells(rd, t, p, Skip(t, p + 1) + 1, Arr([]))
    ensures Depth(Value<N>.Arr([])) == 1 && Collapse(Value<N>.Arr([])) == Arr([])
  {
  }

  lemma ArrayError<N(!new)>(rd: Reader<N>, t: Text, p: nat, pos: nat, depth: nat, q: nat, v: Value<N>,
                            items: seq<Value<N>>, trees: seq<Value<N>>, todo: seq<Value<N>>, e: nat, x0: Value<N>,
                            item: Parsed<N>, x: Value<N>)
    requires ArrayState(rd, t, p, pos, depth, q, v, items, trees, todo) && item.Error?
    requires var s := Skip(t, pos + 1);
             && Complete(rd, t, s, depth, e, x0, item, x)
             && (Spells(rd, t, p, q, v) ==> Ahead(rd, t, s, e, q, x0, todo))
    ensures Sound(rd, t, p, depth + 1, item, Undefined) && Complete(rd, t, p, depth + 1, q, v, item, Undefined)
  {
    hide Spells, ItemsSpell, ItemsLead, CollapseItems, Collapse;
    if Spells(rd, t, p, q, v) {
      ItemDepth(trees + todo, |trees|);
    }
  }

  // An item has been read.
  lemma ArrayItem<N(!new)>(rd: Reader<N>, t: Text, p: nat, pos: nat, depth: nat, q: nat, v: Value<N>,
                           items: seq<Value<N>>, trees: seq<Value<N>>, todo: seq<Value<N>>, e: nat, x0: Value<N>,
                           item: Parsed<N>, x: Value<N>)
    requires ArrayState(rd, t, p, pos, depth, q, v, items, trees, todo) && item.Found?
    requires var s := Skip(t, pos + 1);
             && Sound(rd, t, s, depth, item, x) && Complete(rd, t, s, depth, e, x0, item, x)
             && (Spells(rd, t, p, q, v) ==> Ahead(rd, t, s, e, q, x0, todo))
    ensures pos < item.next <= |t|
    ensures var k := Skip(t, item.next);
            var items1, trees1 := items + [item.value], trees + [x];
            && (k == |t| || (t[k] != COMMA[0] && t[k] != CLOSE_ARRAY[0]) ==> !Spells(rd, t, p, q, v))
            && (At(t, k, CLOSE_ARRAY[0]) ==>
                  var r, tree := Found(Arr(items1), k + 1), Arr(trees1);
                  Sound(rd, t, p, depth + 1, r, tree) && Complete(rd, t, p, depth + 1, q, v, r, tree))
            && (At(t, k, COMMA[0]) ==> ArrayState(rd, t, p, k, depth, q, v, items1, trees1, Tail(todo)))
  {
    hide Spells, ItemsSpell, ItemsLead, CollapseItems, Collapse, Depth, ItemsDepth;
    var s, k := Skip(t, pos + 1), Skip(t, item.next);
    LongerItems(trees, x);
    if Spells(rd, t, p, q, v) {
      assert trees + todo == (trees + [x]) + Tail(todo);
    }
    if At(t, k, CLOSE_ARRAY[0]) {
      ItemsLeadEnd(rd, t, Skip(t, p + 1), s, trees, item.next, x);
      ArrayOf(rd, t, p, k + 1, trees + [x]);
      assert Tail(todo) == [] ==> (trees + [x]) + Tail(todo) == trees + [x];
    }
    if At(t, k, COMMA[0]) {
      ItemsLeadNext(rd, t, Skip(t, p + 1), s, trees, item.next, x);
    }
  }

  lemma ArrayOf<N(!new)>(rd: Reader<N>, t: Text, p: nat, q: nat, items: seq<Value<N>>)
    requires p < |t| && t[p] == OPEN_ARRAY[0] && items != [] && ItemsSpell(rd, t, Skip(t, p + 1), q, items)
             && p < q <= |t|
    ensures Spells(rd, t, p, q, Arr(items))
  {
  }

  lemma LongerItems<N>(items: seq<Value<N>>, x: Value<N>)
    ensures ItemsDepth(items + [x]) == Max(ItemsDepth(items), Depth(x))
    ensures CollapseItems(items + [x]) == CollapseItems(items) + [Collapse(x)]
    ensures Depth(Arr(items + [x])) == 1 + ItemsDepth(items + [x])
    ensures Collapse(Arr(items + [x])) == Arr(CollapseItems(items + [x]))
  {
    ItemsDepthAdd(items, x);
    assert (items + [x])[..|items|] == items;
  }

  // ----- objects -----

  datatype ParsedMember<+N> = FoundMember(key: Text, value: Value<N>, next: nat) | NoMember(error: ParseError, at: nat)

  ghost predicate PairSpells<N(!new)>(rd: Reader<N>, t: Text, p: nat, k: nat, e: nat, m: Member<N>) {
    k <= |t| && e <= |t| && StringSpells(t, p, k, m.key)
    && At(t, Skip(t, k), COLON[0]) && Spells(rd, t, Skip(t, Skip(t, k) + 1), e, m.value)
  }

  lemma KeyEnds(t: Text, p: nat, q: nat, s: Text)
    requires StringSpells(t, p, q, s)
    ensures p < q <= |t|
  {
  }

  ghost predicate ObjectState<N(!new)>(rd: Reader<N>, t: Text, p: nat, pos: nat, depth: nat, q: nat, v: Value<N>,
                                       obj: seq<Member<N>>, any: bool, trees: seq<Member<N>>, todo: seq<Member<N>>)
  {
    && p <= pos < |t| && t[p] == OPEN_OBJECT[0] && depth > 0 && (trees == [] ==> pos == p)
    && obj == CollapseMembers(trees) && (any <==> trees != []) && MembersDepth(trees) < depth
    && MembersLead(rd, t, Skip(t, p + 1), Skip(t, pos + 1), trees)
    && (Spells(rd, t, p, q, v) ==> v == Obj(trees + todo) && Expected(rd, t, p, pos, q, trees, todo))
  }

  ghost predicate Expected<N(!new)>(rd: Reader<N>, t: Text, p: nat, pos: nat, q: nat, done: seq<Member<N>>,
                                    todo: seq<Member<N>>)
    requires p < |t| && pos < |t|
  {
    if todo == [] then done == [] && At(t, Skip(t, p + 1), CLOSE_OBJECT[0]) && q == Skip(t, p + 1) + 1
    else MembersSpell(rd, t, Skip(t, pos + 1), q, todo)
  }

  lemma ObjectBegins<N(!new)>(rd: Reader<N>, t: Text, p: nat, depth: nat, q: nat, v: Value<N>)
    returns (todo: seq<Member<N>>)
    requires p < |t| && t[p] == OPEN_OBJECT[0]
    ensures depth == 0 ==> Sound(rd, t, p, 1, Error(TooDeep, p), Undefined)
                           && Complete(rd, t, p, 1, q, v, Error(TooDeep, p), Undefined)
    ensures depth > 0 ==> ObjectState(rd, t, p, p, depth, q, v, [], false, [], todo)
  {
    todo := [];
    if Spells(rd, t, p, q, v) {
      SpellsStart(rd, t, p, q, v);
      todo := v.members;
      assert [] + todo == todo;
    }
    NoMembers(rd, t, Skip(t, p + 1));
  }

  lemma NoMembers<N(!new)>(rd: Reader<N>, t: Text, s: nat)
    ensures MembersLead(rd, t, s, s, [])
  {
    forall q, rest | MembersSpell(rd, t, s, q, rest) ensures MembersSpell(rd, t, s, q, [] + rest) {
      assert [] + rest == rest;
    }
  }

  lemma ObjectHint<N(!new)>(rd: Reader<N>, t: Text, p: nat, pos: nat, depth: nat, q: nat, v: Value<N>,
                            obj: seq<Member<N>>, any: bool, trees: seq<Member<N>>, todo: seq<Member<N>>)
    returns (k: nat, e: nat, m: Member<N>)
    requires ObjectState(rd, t, p, pos, depth, q, v, obj, any, trees, todo)
    ensures pos < |t|
    ensures var s := Skip(t, pos + 1);
            && (s == |t| || (t[s] != QUOTE && (any || t[s] != CLOSE_OBJECT[0])) ==> !Spells(rd, t, p, q, v))
            && (At(t, s, CLOSE_OBJECT[0]) && !any ==>
                  var r, tree := Found(Obj([]), s + 1), Obj([]);
                  Sound(rd, t, p, depth + 1, r, tree) && Complete(rd, t, p, depth + 1, q, v, r, tree))
            && (Spells(rd, t, p, q, v) && At(t, s, QUOTE) ==> MemberAhead(rd, t, s, k, e, q, m, todo))
  {
    hide MembersSpell, MemberSpells, MembersLead, CollapseMembers, MembersDepth;
    k, e, m := 0, 0, Member([], Undefined);
    var s := Skip(t, pos + 1);
    if Spells(rd, t, p, q, v) && todo != [] {
      k, e := FirstMember(rd, t, s, q, todo);
      m := todo[0];
    }
    if At(t, s, CLOSE_OBJECT[0]) && !any {
      EmptyObject(rd, t, p);
    }
  }

  ghost predicate MemberAhead<N(!new)>(rd: Reader<N>, t: Text, s: nat, k: nat, e: nat, q: nat, m: Member<N>,
                                       todo: seq<Member<N>>) {
    && todo != [] && m == todo[0] && e <= |t| && PairSpells(rd, t, s, k, e, m)
    && if |todo| == 1 then At(t, Skip(t, e), CLOSE_OBJECT[0]) && q == Skip(t, e) + 1
       else At(t, Skip(t, e), COMMA[0]) && MembersSpell(rd, t, Skip(t, Skip(t, e) + 1), q, todo[1..])
  }

  lemma FirstMember<N(!new)>(rd: Reader<N>, t: Text, s: nat, q: nat, todo: seq<Member<N>>) returns (k: nat, e: nat)
    requires MembersSpell(rd, t, s, q, todo)
    ensures todo != [] && s < |t| && t[s] == QUOTE && MemberAhead(rd, t, s, k, e, q, todo[0], todo)
  {
    k, e :| MemberSpells(rd, t, s, k, e, q, todo);
  }

  lemma EmptyObject<N(!new)>(rd: Reader<N>, t: Text, p: nat)
    requires p < |t| && t[p] == OPEN_OBJECT[0] && At(t, Skip(t, p + 1), CLOSE_OBJECT[0])
    ensures Spells(rd, t, p, Skip(t, p + 1) + 1, Obj([]))
    ensures Depth(Value<N>.Obj([])) == 1 && Collapse(Value<N>.Obj([])) == Obj([])
  {
  }

  lemma ObjectError<N(!new)>(rd: Reader<N>, t: Text, p: nat, pos: nat, depth: nat, q: nat, v: Value<N>,
                             obj: seq<Member<N>>, any: bool, trees: seq<Member<N>>, todo: seq<Member<N>>, k: nat,
                             e: nat,
                             m: Member<N>, r: Parsed<N>, tree: Value<N>)
    requires ObjectState(rd, t, p, pos, depth, q, v, obj, any, trees, todo) && r.Error?
    requires var s := Skip(t, pos + 1);
             && (Spells(rd, t, p, q, v) ==> MemberAhead(rd, t, s, k, e, q, m, todo))
             && (PairSpells(rd, t, s, k, e, m) ==>
                   OutOfMemory(r.error) || (r.error == TooDeep && Depth(m.value) >= depth))
    ensures Sound(rd, t, p, depth + 1, r, tree) && Complete(rd, t, p, depth + 1, q, v, r, tree)
  {
    hide Spells, MembersSpell, MembersLead, CollapseMembers, Collapse, PairSpells;
    if Spells(rd, t, p, q, v) {
      MemberDepth(trees + todo, |trees|);
    }
  }

  lemma ObjectItem<N(!new)>(rd: Reader<N>, t: Text, p: nat, pos: nat, depth: nat, q: nat, v: Value<N>,
                            obj: seq<Member<N>>, any: bool, trees: seq<Member<N>>, todo: seq<Member<N>>, k0: nat,
                            e: nat,
                            m: Member<N>, member: ParsedMember<N>, x: Member<N>, k1: nat)
    requires ObjectState(rd, t, p, pos, depth, q, v, obj, any, trees, todo) && member.FoundMember?
    requires var s := Skip(t, pos + 1);
             && s < member.next <= |t| && PairSpells(rd, t, s, k1, member.next, x) && Depth(x.value) < depth
             && member.key == x.key && member.value == Collapse(x.value)
             && (Spells(rd, t, p, q, v) ==> MemberAhead(rd, t, s, k0, e, q, m, todo))
             && (PairSpells(rd, t, s, k0, e, m) ==> member.next == e && x == m)
    ensures var k := Skip(t, member.next);
            var obj1, trees1 := Put(obj, member.key, member.value), trees + [x];
            && (k == |t| || (t[k] != COMMA[0] && t[k] != CLOSE_OBJECT[0]) ==> !Spells(rd, t, p, q, v))
            && (At(t, k, CLOSE_OBJECT[0]) ==>
                  var r, tree := Found(Obj(obj1), k + 1), Obj(trees1);
                  Sound(rd, t, p, depth + 1, r, tree) && Complete(rd, t, p, depth + 1, q, v, r, tree))
            && (At(t, k, COMMA[0]) ==> ObjectState(rd, t, p, k, depth, q, v, obj1, true, trees1, Tail(todo)))
  {
    hide Spells, MembersSpell, MembersLead, CollapseMembers, Collapse, Depth, MembersDepth, StringSpells, Put;
    var s, k := Skip(t, pos + 1), Skip(t, member.next);
    LongerMembers(trees, x);
    if Spells(rd, t, p, q, v) {
      assert trees + todo == (trees + [x]) + Tail(todo);
    }
    if At(t, k, CLOSE_OBJECT[0]) {
      MembersLeadEnd(rd, t, Skip(t, p + 1), s, trees, k1, member.next, x);
      ObjectOf(rd, t, p, k + 1, trees + [x]);
      assert Tail(todo) == [] ==> (trees + [x]) + Tail(todo) == trees + [x];
    }
    if At(t, k, COMMA[0]) {
      MembersLeadNext(rd, t, Skip(t, p + 1), s, trees, k1, member.next, x);
    }
  }

  lemma ObjectOf<N(!new)>(rd: Reader<N>, t: Text, p: nat, q: nat, members: seq<Member<N>>)
    requires p < |t| && t[p] == OPEN_OBJECT[0] && members != [] && MembersSpell(rd, t, Skip(t, p + 1), q, members)
             && p < q <= |t|
    ensures Spells(rd, t, p, q, Obj(members))
  {
  }

  lemma LongerMembers<N>(members: seq<Member<N>>, x: Member<N>)
    ensures MembersDepth(members + [x]) == Max(MembersDepth(members), Depth(x.value))
    ensures CollapseMembers(members + [x]) == Put(CollapseMembers(members), x.key, Collapse(x.value))
    ensures Depth(Obj(members + [x])) == 1 + MembersDepth(members + [x])
    ensures Collapse(Obj(members + [x])) == Obj(CollapseMembers(members + [x]))
  {
    MembersDepthAdd(members, x);
    assert (members + [x])[..|members|] == members;
  }

  lemma EndAfterStart(t: Text, p: nat, q: nat)
    requires q > 0 && Ends(t, p + 1, q - 1)
    ensures p < q <= |t|
  {
  }

  // ----- whole texts -----

  // The text spells the value, between spaces.
  ghost predicate TextSpells<N(!new)>(rd: Reader<N>, t: Text, v: Value<N>) {
    exists q: nat :: q <= |t| && Spells(rd, t, Skip(t, 0), q, v) && Skip(t, q) == |t|
  }

  datatype Outcome<+N> = Ok(value: Value<N>) | Bad(error: ParseError)

  // The memory for what is read is all that can be missing.
  method Parse<N(!new)>(t: Text, rd: Reader<N>, memory: seq<bool>, growth: seq<Text> -> nat, ghost v0: Value<N>)
    returns (r: Outcome<N>, asked: nat, ghost tree: Value<N>)
    requires ReaderOk(rd)
    ensures r.Ok? ==> TextSpells(rd, t, tree) && Depth(tree) < MAX_DEPTH && r.value == Collapse(tree)
    ensures TextSpells(rd, t, v0) ==>
              if r.Ok? then tree == v0
              else OutOfMemory(r.error) || (r.error == TooDeep && Depth(v0) >= MAX_DEPTH)
    ensures r.Bad? && OutOfMemory(r.error) <==> !Served(memory, 0, asked)
  {
    hide Spells, Depth, Collapse;
    tree, asked := Undefined, 0;
    var ctx := new Context(t, rd, memory, growth);
    var p := SkipSpace(t, 0);
    ghost var q0: nat := 0;
    if TextSpells(rd, t, v0) {
      q0 :| q0 <= |t| && Spells(rd, t, p, q0, v0) && Skip(t, q0) == |t|;
      SpellsInside(rd, t, p, q0, v0);
    }
    if p == |t| {
      return Bad(ParseError.UnexpectedEnd), asked, tree;
    }
    var value;
    value, tree := ctx.ParseValue(p, q0, v0);
    asked := ctx.asked;
    if value.Error? {
      return Bad(value.error), asked, tree;
    }
    var end := SkipSpace(t, value.next);
    if end != |t| {
      return Bad(UnexpectedToken), asked, tree;
    }
    r := Ok(value.value);
  }
}
