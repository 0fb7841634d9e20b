// The bytecode generator: it appends to a code buffer, keeps a stack of open
// blocks with the jumps to be patched at their ends, and recycles temporaries
// through a last-in-first-out cache.
module Generator {
  import opened Wrappers
  import opened Bytecode
  import opened Syntax
  import opened CodeMeaning
  import opened CodeHoles
  import opened Patching
  import opened CodeJoins
  import opened Scripts
  import opened Readings

  function Max(a: nat, b: nat): nat {
    if a > b then a else b
  }

  // Calls of njs_generator() nested on the way to the deepest node.
  function ExprDepth(e: Expr): nat {
    1 + match e
        case Literal(_) => 0
        case Name(_) => 0
        case Unary(_, a) => ExprDepth(a)
        case Binary(_, a, b) => Max(ExprDepth(a), ExprDepth(b))
        case Logical(_, a, b) => Max(ExprDepth(a), ExprDepth(b))
        case Conditional(c, y, n) => Max(ExprDepth(c), Max(ExprDepth(y), ExprDepth(n)))
        case Comma(a, b) => Max(ExprDepth(a), ExprDepth(b))
        case Assign(_, a) => ExprDepth(a)
        case OpAssign(_, _, a) => ExprDepth(a)
        case Count(_, _, _) => 0
  }

  function OptionDepth(e: Option<Expr>): nat {
    if e.Some? then ExprDepth(e.value) else 1
  }

  function StmtDepth(s: Stmt): nat {
    match s
    case Empty => 1
    case Expression(e) => ExprDepth(e)
    case Sequence(a, b) => 1 + Max(StmtDepth(a), StmtDepth(b))
    case Block(_, b) => 1 + StmtDepth(b)
    case If(c, y) => 1 + Max(ExprDepth(c), StmtDepth(y))
    case IfElse(c, y, n) => 1 + Max(ExprDepth(c), Max(StmtDepth(y), StmtDepth(n)))
    case While(_, c, b) => 1 + Max(ExprDepth(c), StmtDepth(b))
    case DoWhile(_, c, b) => 1 + Max(ExprDepth(c), StmtDepth(b))
    case For(_, i, t, u, b) =>
      1 + Max(Max(OptionDepth(i), StmtDepth(b)), Max(OptionDepth(u), if t.Some? then ExprDepth(t.value) else 0))
    case Switch(_, d, c) => 1 + Max(ExprDepth(d), Max(TestsDepth(c), BodiesDepth(c)))
    case Break(_) => 1
    case Continue(_) => 1
  }

  function TestsDepth(c: Clauses): nat {
    match c
    case NoClauses => 0
    case Case(t, _, next) => Max(ExprDepth(t), TestsDepth(next))
    case Default(_, next) => TestsDepth(next)
  }

  function BodiesDepth(c: Clauses): nat {
    if c.NoClauses? then 0 else Max(StmtDepth(c.body), BodiesDepth(c.next))
  }

  function ProgramDepth(p: Program): nat {
    1 + Max(StmtDepth(p.chain), StmtDepth(p.last))
  }

  const MAX_DEPTH: nat := 4096

  // Every break and continue has an open block it belongs to.
  predicate WellLabelled(s: Stmt, scopes: seq<Scope>) {
    match s
    case Empty => true
    case Expression(_) => true
    case Sequence(a, b) => WellLabelled(a, scopes) && WellLabelled(b, scopes)
    case Block(n, b) => WellLabelled(b, scopes + [Scope(BlockKind, n)])
    case If(_, y) => WellLabelled(y, scopes)
    case IfElse(_, y, n) => WellLabelled(y, scopes) && WellLabelled(n, scopes)
    case While(n, _, b) => WellLabelled(b, scopes + [Scope(LoopKind, n)])
    case DoWhile(n, _, b) => WellLabelled(b, scopes + [Scope(LoopKind, n)])
    case For(n, _, _, _, b) => WellLabelled(b, scopes + [Scope(LoopKind, n)])
    case Switch(n, _, c) => WellLabelledClauses(c, scopes + [Scope(SwitchKind, n)])
    case Break(_) => JumpBlock(s, scopes).Some?
    case Continue(_) => JumpBlock(s, scopes).Some?
  }

  predicate WellLabelledClauses(c: Clauses, scopes: seq<Scope>) {
    c.NoClauses? || (WellLabelled(c.body, scopes) && WellLabelledClauses(c.next, scopes))
  }

  // The result of a node: its index, and whether it is a temporary the parent
  // has to release.
  datatype Result = Result(index: Index, temporary: bool)

  class CodeGenerator {
    // Any interpretation of the operators: the code depends on none.  The tree is
    // read as it is written to code.
    ghost const m: Machine

    var code: array<Word>
    var end: nat
    var size: nat        // of the buffer, in bytes
    var blocks: seq<OpenBlock>   // innermost last
    var cache: seq<nat>
    var next: nat        // the next temporary never used
    var count: nat
    ghost var words: seq<Word>   // the code written so far
    ghost var free: set<nat>     // what the cache may hand out
    ghost var holes: map<nat, Hole>

    ghost predicate Buffer()
      reads this, code
    {
      end <= code.Length == size / 8 && words == code[..end] && !m.keeps
    }

    ghost predicate Valid()
      reads this, code
    {
      && Buffer()
      && NoDuplicates(cache)
      && (forall i | 0 <= i < |cache| :: cache[i] in free)
      && (forall t | t in free :: t < next)
    }

    // None of the temporaries is in the cache or still to be created.
    ghost predicate InUse(busy: set<nat>)
      reads this
    {
      forall t | t in busy :: t < next && t !in free
    }

    constructor (ghost m: Machine)
      requires !m.keeps
      ensures Valid() && words == [] && blocks == [] && holes == map[] && count == 0 && this.m == m
      ensures fresh(code)
    {
      this.m := m;
      size := 128;
      code := new Word[16];
      end := 0;
      blocks, cache, next, count := [], [], 0, 0;
      words, free, holes := [], {}, map[];
    }

    // ----- the buffer -----

    method Reserve(n: nat)
      requires Buffer()
      modifies this`code, this`size
      ensures Buffer() && end + n <= code.Length && words == old(words)
      ensures code == old(code) || fresh(code)
    {
      if 8 * (end + n) <= size {
        return;
      }
      var bytes := if 8 * (end + n) > size then 8 * (end + n) else size;
      if bytes < 1024 {
        bytes := bytes * 2;
      } else {
        bytes := bytes + bytes / 2;
      }
      var p := new Word[bytes / 8];
      forall i | 0 <= i < end {
        p[i] := code[i];
      }
      size := bytes;
      code := p;
    }

    method Emit(i: Instruction)
      requires Buffer()
      modifies this`code, this`size, this`end, this`words, code
      ensures Buffer() && old(words) <= words && Has(words, old(end), i)
      ensures end == old(end) + Size(i)
      ensures code == old(code) || fresh(code)
    {
      var w := Encode(i);
      Reserve(|w|);
      forall k | 0 <= k < |w| {
        code[end + k] := w[k];
      }
      end := end + |w|;
      words := words + w;
      assert words[old(end)..] == w;
      assert words == code[..end];
    }

    // njs_code_set_offset(): the field at p leads from target to the end.
    method SetOffset(p: nat, target: nat)
      requires Buffer() && p < end
      modifies this`words, code
      ensures Buffer() && words == old(words)[p := Offset(end - target)]
    {
      code[p] := Offset(end - target);
      words := words[p := Offset(end - target)];
    }

    // njs_code_update_offset(): the field at p is completed to lead to the end.
    method UpdateOffset(p: nat)
      requires Buffer() && p < end && words[p].Offset?
      modifies this`words, code
      ensures Buffer() && words == old(words)[p := Offset(old(words)[p].off + (end - p))]
    {
      code[p] := Offset(code[p].off + (end - p));
      words := words[p := code[p]];
    }

    // njs_generate_patch_block(): every field of the list is completed once.
    method PatchBlock(list: seq<nat>)
      requires Buffer() && NoDuplicates(list)
      requires forall p | p in list :: p < end && words[p] == Offset(1)
      modifies this`words, code
      ensures Buffer() && Patched(old(words), words, list, end)
    {
      var i := 0;
      while i < |list|
        invariant 0 <= i <= |list| && Buffer() && code == old(code) && end == old(end)
        invariant Patched(old(words), words, list[..i], end)
        invariant forall k | i <= k < |list| :: list[k] in list && words[list[k]] == Offset(1)
      {
        assert list[..i + 1] == list[..i] + [list[i]];
        UpdateOffset(list[i]);
        i := i + 1;
      }
      assert list[..i] == list;
    }

    // ----- temporaries -----

    method TakeTemp() returns (t: nat)
      requires Valid()
      modifies this`cache, this`free, this`next
      ensures Valid() && t < next && t !in free && next >= old(next)
      ensures t in old(free) || t >= old(next)
      ensures free == old(free) - {t}
    {
      if |cache| != 0 {
        t := cache[|cache| - 1];
        cache := cache[..|cache| - 1];
      } else {
        t := next;
        next := next + 1;
      }
      free := free - {t};
    }

    // njs_generate_children_indexes_release().
    method ReleaseBoth(a: Result, b: Result, ghost busy: set<nat>)
      requires Valid() && InUse(busy + TempOf(a.index)) && Owned(a, busy) && Owned(b, busy + TempOf(a.index))
      modifies this`cache, this`free
      ensures Valid() && InUse(busy)
      ensures forall t | t in free && t !in old(free) :: t in TempOf(a.index) + TempOf(b.index)
    {
      Release(a);
      Release(b);
    }

    // Gives back the temporary of a result its parent owns.
    method Release(r: Result)
      requires Valid()
      requires r.temporary ==> r.index.Temporary? && r.index.n < next && r.index.n !in free
      modifies this`cache, this`free
      ensures Valid()
      ensures free == if r.temporary then old(free) + {r.index.n} else old(free)
    {
      if r.temporary {
        cache := cache + [r.index.n];
        free := free + {r.index.n};
      }
    }

    // njs_generate_dest_index(), after the children are released.
    method DestIndex(dest: Option<Index>, ghost busy: set<nat>) returns (r: Result)
      requires Valid() && InUse(busy)
      requires dest.Some? ==> DestTemps(dest) <= busy
      modifies this`cache, this`free, this`next
      ensures Valid() && InUse(busy) && next >= old(next)
      ensures r.index.Temporary? ==> r.index.n < next && r.index.n !in free
      ensures dest.Some? ==> r == Result(dest.value, false)
      ensures dest.None? ==> r.index.Temporary? && r.temporary && r.index.n !in busy
    {
      if dest.Some? {
        return Result(dest.value, false);
      }
      var t := TakeTemp();
      return Result(Temporary(t), true);
    }

    // A move of index i to a new temporary.
    method SaveIndex(i: Index, ghost busy: set<nat>) returns (r: Result)
      requires Valid() && InUse(busy)
      modifies this`code, this`size, this`end, this`words, this`cache, this`free, this`next, code
      ensures Valid() && InUse(busy) && next >= old(next)
      ensures r.temporary && r.index.Temporary? && r.index.n < next && r.index.n !in free && r.index.n !in busy
      ensures old(words) <= words && Has(words, old(end), IMove(r.index, i)) && end == old(end) + 3
      ensures code == old(code) || fresh(code)
    {
      var t := TakeTemp();
      r := Result(Temporary(t), true);
      Emit(IMove(r.index, i));
    }

    // ----- expressions -----

    // A result that is a temporary is not in the cache, and one that has to be
    // released is none of the busy ones.
    ghost predicate Owned(r: Result, busy: set<nat>)
      reads this
    {
      && (r.index.Temporary? ==> r.index.n < next && r.index.n !in free)
      && (r.temporary ==> r.index.Temporary? && r.index.n !in busy)
    }

    // Code was only appended, and no busy temporary was handed out.
    twostate predicate Undisturbed(busy: set<nat>)
      reads this, code
    {
      && Valid() && InUse(busy) && next >= old(next)
      && old(words) <= words
    }

    // What generating e promises.
    twostate predicate ExprDone(e: Expr, dest: Option<Index>, busy: set<nat>, r: Result)
      reads this, code
    {
      && Undisturbed(busy) && Owned(r, busy)
      && ResultVariable(e, DestName(dest)) == NameOf(r.index)
      && ExprImpl(m, words, old(end), end, e, r.index, dest, Live(busy, dest))
    }

    method GenExpr(e: Expr, dest: Option<Index>, ghost busy: set<nat>) returns (ok: bool, r: Result)
      requires Valid() && InUse(busy)
      requires dest.Some? ==> Writable(dest.value) && DestTemps(dest) <= busy
      modifies this`code, this`size, this`end, this`words, this`cache, this`free, this`next, this`count, code
      ensures ok <==> old(count) + ExprDepth(e) <= MAX_DEPTH + 1
      ensures ok ==> ExprDone(e, dest, busy, r) && count == old(count)
      ensures count >= old(count)
      ensures code == old(code) || fresh(code)
      decreases e, 2
    {
      r := Result(Constant(Undefined), false);
      if count > MAX_DEPTH {
        count := count + 1;
        return false, r;
      }
      count := count + 1;
      match e {
        case Literal(v) =>
          ok, r := true, Result(Constant(v), false);
          LeafImpl(m, words, end, e, r.index, dest, Live(busy, dest));
        case Name(x) =>
          ok, r := true, Result(Variable(x), false);
          LeafImpl(m, words, end, e, r.index, dest, Live(busy, dest));
        case Unary(_, _) => ok, r := GenUnary(e, dest, busy);
        case Binary(_, _, _) => ok, r := GenBinary(e, dest, busy);
        case Logical(_, _, _) => ok, r := GenLogical(e, dest, busy);
        case Conditional(_, _, _) => ok, r := GenConditional(e, dest, busy);
        case Comma(_, _) => ok, r := GenComma(e, dest, busy);
        case Assign(_, _) => ok, r := GenAssign(e, dest, busy);
        case OpAssign(_, _, _) => ok, r := GenOpAssign(e, dest, busy);
        case Count(_, _, _) => ok, r := GenCount(e, dest, busy);
      }
      count := count - 1;
    }

    method GenUnary(e: Expr, dest: Option<Index>, ghost busy: set<nat>) returns (ok: bool, r: Result)
      requires e.Unary? && Valid() && InUse(busy) && count <= MAX_DEPTH + 1
      requires dest.Some? ==> Writable(dest.value) && DestTemps(dest) <= busy
      modifies this`code, this`size, this`end, this`words, this`cache, this`free, this`next, this`count, code
      ensures ok <==> old(count) + ExprDepth(e) <= MAX_DEPTH + 2
      ensures ok ==> ExprDone(e, dest, busy, r) && count == old(count)
      ensures count >= old(count)
      ensures code == old(code) || fresh(code)
      decreases e, 1
    {
      hide ExprImpl;
      ghost var lo := end;
      var a;
      ok, a := GenExpr(e.operand, None, busy);
      r := a;
      if !ok {
        return;
      }
      ghost var c1, mid := words, end;
      Release(a);
      r := DestIndex(dest, busy);
      Emit(IUnary(e.uop, r.index, a.index));
      UnaryJoin(m, c1, words, lo, mid, e, a.index, r.index, dest, busy);
    }

    method GenBinary(e: Expr, dest: Option<Index>, ghost busy: set<nat>) returns (ok: bool, r: Result)
      requires e.Binary? && Valid() && InUse(busy) && count <= MAX_DEPTH + 1
      requires dest.Some? ==> Writable(dest.value) && DestTemps(dest) <= busy
      modifies this`code, this`size, this`end, this`words, this`cache, this`free, this`next, this`count, code
      ensures ok <==> old(count) + ExprDepth(e) <= MAX_DEPTH + 2
      ensures ok ==> ExprDone(e, dest, busy, r) && count == old(count)
      ensures count >= old(count)
      ensures code == old(code) || fresh(code)
      decreases e, 1
    {
      hide ExprImpl, Has;
      ghost var lo := end;
      var s, b;
      ok, s := GenLeft(e.left, HasSideEffect(e.right), busy);
      r := s;
      if !ok {
        return;
      }
      ghost var c1, mid := words, end;
      ok, b := GenExpr(e.right, None, busy + TempOf(s.index));
      if !ok {
        return;
      }
      ghost var c2, p := words, end;
      r := Finish(e.bop, s, b, dest, busy);
      BinaryJoin(m, c1, c2, words, lo, mid, p, e, s.index, b.index, r.index, dest, busy);
    }

    // A left operand; a variable is moved to a temporary if the right operand
    // has side effects.
    method GenLeft(a: Expr, effects: bool, ghost busy: set<nat>) returns (ok: bool, s: Result)
      requires Valid() && InUse(busy)
      modifies this`code, this`size, this`end, this`words, this`cache, this`free, this`next, this`count, code
      ensures ok <==> old(count) + ExprDepth(a) <= MAX_DEPTH + 1
      ensures ok ==> Undisturbed(busy) && Owned(s, busy) && count == old(count)
      ensures ok ==> NameOf(s.index) == if a.Name? && effects then None else ResultVariable(a, None)
      ensures ok ==> ExprImpl(m, words, old(end), end, a, s.index, None, busy)
      ensures count >= old(count)
      ensures code == old(code) || fresh(code)
      decreases a, 3
    {
      ghost var lo := end;
      ok, s := GenExpr(a, None, busy);
      if ok && a.Name? && effects {
        ghost var c1, p := words, end;
        var i := s.index;
        s := SaveIndex(i, busy);
        ExprMoves(m, c1, words, lo, p, a, i, None, busy);
        SaveImpl(m, words, lo, p, end, a, i, s.index, busy);
      }
    }

    // The operands are released and the instruction gets its destination.
    method Finish(op: nat, s: Result, b: Result, dest: Option<Index>, ghost busy: set<nat>) returns (r: Result)
      requires Valid() && InUse(busy + TempOf(s.index)) && Owned(s, busy) && Owned(b, busy + TempOf(s.index))
      requires dest.Some? ==> DestTemps(dest) <= busy
      modifies this`code, this`size, this`end, this`words, this`cache, this`free, this`next, code
      ensures Valid() && InUse(busy) && next >= old(next) && Owned(r, busy)
      ensures if dest.Some? then r == Result(dest.value, false) else r.index.Temporary? && r.temporary
      ensures old(words) <= words && Has(words, old(end), IBinary(op, r.index, s.index, b.index))
      ensures end == old(end) + 4
      ensures code == old(code) || fresh(code)
    {
      ReleaseBoth(s, b, busy);
      r := DestIndex(dest, busy);
      Emit(IBinary(op, r.index, s.index, b.index));
    }

    method GenLogical(e: Expr, dest: Option<Index>, ghost busy: set<nat>) returns (ok: bool, r: Result)
      requires e.Logical? && Valid() && InUse(busy) && count <= MAX_DEPTH + 1
      requires dest.Some? ==> Writable(dest.value) && DestTemps(dest) <= busy
      modifies this`code, this`size, this`end, this`words, this`cache, this`free, this`next, this`count, code
      ensures ok <==> old(count) + ExprDepth(e) <= MAX_DEPTH + 2
      ensures ok ==> ExprDone(e, dest, busy, r) && count == old(count)
      ensures count >= old(count)
      ensures code == old(code) || fresh(code)
      decreases e, 1
    {
      hide ExprImpl, Has, NoDuplicates, Encode, Decode;
      ghost var c0 := words;
      var a, b;
      ok, a := GenExpr(e.left, None, busy);
      r := a;
      if !ok {
        return;
      }
      ghost var c1 := words;
      var test, t := TestJump(e.isOr, a, busy);
      r := Result(Temporary(t), true);
      ghost var c2 := words;
      ghost var inner := busy + TempOf(a.index);
      assert Live(inner + {t}, Some(r.index)) == inner;
      ok, b := GenInto(e.right, r.index, inner + {t});
      if !ok {
        return;
      }
      ghost var c3 := words;
      SetOffset(test + 3, test);
      LogicalJoin(m, c0, c1, c2, c3, words, e, a.index, t, dest, busy, inner);
      ReleaseBoth(a, b, busy + {t});
    }

    // The test of the left operand, its result in a new temporary.
    method TestJump(isOr: bool, a: Result, ghost busy: set<nat>) returns (test: nat, t: nat)
      requires Valid() && InUse(busy) && Owned(a, busy)
      modifies this`code, this`size, this`end, this`words, this`cache, this`free, this`next, code
      ensures Valid() && InUse(busy + TempOf(a.index) + {t}) && t !in busy + TempOf(a.index) && next >= old(next)
      ensures old(words) <= words && Has(words, test, ITest(isOr, Temporary(t), a.index, 0))
      ensures test == old(end) && end == test + 4
      ensures code == old(code) || fresh(code)
    {
      test := end;
      t := TakeTemp();
      Emit(ITest(isOr, Temporary(t), a.index, 0));
    }

    // Code for e and, if its result is elsewhere, the move to dst; b is the
    // result of e, to be released.
    method GenInto(e: Expr, dst: Index, ghost busy: set<nat>) returns (ok: bool, b: Result)
      requires Valid() && InUse(busy) && Writable(dst) && TempOf(dst) <= busy
      modifies this`code, this`size, this`end, this`words, this`cache, this`free, this`next, this`count, code
      ensures ok <==> old(count) + ExprDepth(e) <= MAX_DEPTH + 1
      ensures ok ==> Undisturbed(busy) && Owned(b, busy) && count == old(count)
      ensures ok ==> ExprImpl(m, words, old(end), end, e, dst, Some(dst), Live(busy, Some(dst)))
      ensures count >= old(count)
      ensures code == old(code) || fresh(code)
      decreases e, 3
    {
      ghost var lo, live := end, Live(busy, Some(dst));
      ok, b := GenExpr(e, Some(dst), busy);
      if ok {
        ghost var c1, p := words, end;
        if dst != b.index {
          Emit(IMove(dst, b.index));
        }
        ExprMoves(m, c1, words, lo, p, e, b.index, Some(dst), live);
        MoveImpl(m, words, lo, p, end, e, b.index, dst, live);
      }
    }

    method GenConditional(e: Expr, dest: Option<Index>, ghost busy: set<nat>) returns (ok: bool, r: Result)
      requires e.Conditional? && Valid() && InUse(busy) && count <= MAX_DEPTH + 1
      requires dest.Some? ==> Writable(dest.value) && DestTemps(dest) <= busy
      modifies this`code, this`size, this`end, this`words, this`cache, this`free, this`next, this`count, code
      ensures ok <==> old(count) + ExprDepth(e) <= MAX_DEPTH + 2
      ensures ok ==> ExprDone(e, dest, busy, r) && count == old(count)
      ensures count >= old(count)
      ensures code == old(code) || fresh(code)
      decreases e, 1
    {
      hide ExprImpl, Has, NoDuplicates, Encode, Decode;
      ghost var lo, live := end, Live(busy, dest);
      ghost var c0 := words;
      var test, jump, c, n;
      ok, test, jump, c, r := GenFirst(e, dest, busy);
      if !ok {
        return;
      }
      ghost var c1, inner := words, busy + TempOf(r.index);
      assert Live(inner, Some(r.index)) == live;
      ok, n := GenInto(e.no, r.index, inner);
      if !ok {
        return;
      }
      ghost var c2 := words;
      SetOffset(jump + 1, jump);
      assert c1[..lo] == c0;
      ConditionalJoin(m, c1, c2, words, lo, test, jump, e, c.index, r.index, dest, live);
      Release(n);
    }

    // A conditional expression up to its second branch.
    method GenFirst(e: Expr, dest: Option<Index>, ghost busy: set<nat>)
      returns (ok: bool, test: nat, jump: nat, c: Result, r: Result)
      requires e.Conditional? && Valid() && InUse(busy) && count <= MAX_DEPTH + 1
      requires dest.Some? ==> Writable(dest.value) && DestTemps(dest) <= busy
      modifies this`code, this`size, this`end, this`words, this`cache, this`free, this`next, this`count, code
      ensures ok <==> old(count) + Max(ExprDepth(e.cond), ExprDepth(e.yes)) <= MAX_DEPTH + 1
      ensures ok ==> Undisturbed(busy) && Owned(r, busy) && count == old(count)
      ensures ok ==> if dest.Some? then r == Result(dest.value, false) else r.index.Temporary? && r.temporary
      ensures ok ==> FirstBranch(m, words, old(end), test, jump, e, c.index, r.index, Live(busy, dest))
      ensures count >= old(count)
      ensures code == old(code) || fresh(code)
      decreases e, 0
    {
      hide ExprImpl, Has;
      ghost var c0 := words;
      var y;
      test, jump := 0, 0;
      ok, c := GenExpr(e.cond, None, busy);
      r := c;
      if !ok {
        return;
      }
      ghost var c1 := words;
      test, r := CondJump(c, dest, busy);
      ghost var c2, inner := words, busy + TempOf(r.index);
      assert Live(inner, Some(r.index)) == Live(busy, dest);
      ok, y := GenInto(e.yes, r.index, inner);
      if !ok {
        return;
      }
      ghost var c3 := words;
      jump := end;
      SkipBranch(test, y, inner);
      FirstBranchJoin(m, c0, c1, c2, c3, words, e, c.index, r.index, busy, Live(busy, dest));
    }

    // The jump that ends the first branch; the one at test is made to lead past it.
    method SkipBranch(test: nat, y: Result, ghost busy: set<nat>)
      requires Valid() && InUse(busy) && Owned(y, busy) && test + 1 < end
      modifies this`code, this`size, this`end, this`words, this`cache, this`free, code
      ensures Valid() && InUse(busy)
      ensures old(words)[test + 1 := Offset(end - test)] <= words && Has(words, old(end), IJump(0))
      ensures end == old(end) + 2
      ensures code == old(code) || fresh(code)
    {
      Release(y);
      Emit(IJump(0));
      ghost var c := words;
      SetOffset(test + 1, test);
      HasAgrees(c, words, old(end), end, old(end), IJump(0));
    }

    // The jump over the first branch; its condition is released.
    method JumpUnless(c: Result) returns (test: nat)
      requires Valid() && Owned(c, {})
      modifies this`code, this`size, this`end, this`words, this`cache, this`free, code
      ensures Valid() && free == if c.temporary then old(free) + {c.index.n} else old(free)
      ensures old(words) <= words && Has(words, test, ICond(false, 0, c.index))
      ensures test == old(end) && end == test + 3
      ensures code == old(code) || fresh(code)
    {
      test := end;
      Emit(ICond(false, 0, c.index));
      Release(c);
    }

    method CondJump(c: Result, dest: Option<Index>, ghost busy: set<nat>) returns (test: nat, r: Result)
      requires Valid() && InUse(busy) && Owned(c, busy)
      requires dest.Some? ==> DestTemps(dest) <= busy
      modifies this`code, this`size, this`end, this`words, this`cache, this`free, this`next, code
      ensures Valid() && InUse(busy) && next >= old(next) && Owned(r, busy)
      ensures if dest.Some? then r == Result(dest.value, false) else r.index.Temporary? && r.temporary
      ensures old(words) <= words && Has(words, test, ICond(false, 0, c.index))
      ensures test == old(end) && end == test + 3
      ensures code == old(code) || fresh(code)
    {
      test := JumpUnless(c);
      r := DestIndex(dest, busy);
    }

    method GenComma(e: Expr, dest: Option<Index>, ghost busy: set<nat>) returns (ok: bool, r: Result)
      requires e.Comma? && Valid() && InUse(busy) && count <= MAX_DEPTH + 1
      requires dest.Some? ==> Writable(dest.value) && DestTemps(dest) <= busy
      modifies this`code, this`size, this`end, this`words, this`cache, this`free, this`next, this`count, code
      ensures ok <==> old(count) + ExprDepth(e) <= MAX_DEPTH + 2
      ensures ok ==> ExprDone(e, dest, busy, r) && count == old(count)
      ensures count >= old(count)
      ensures code == old(code) || fresh(code)
      decreases e, 1
    {
      ghost var lo := end;
      var a, b;
      ok, a := GenExpr(e.left, None, busy);
      r := a;
      if !ok {
        return;
      }
      ghost var c1, mid := words, end;
      Release(a);
      ok, b := GenExpr(e.right, None, busy);
      if !ok {
        return;
      }
      // The node takes over the index, not the duty to release it.
      r := Result(b.index, false);
      CommaJoin(m, c1, words, lo, mid, end, e, a.index, b.index, dest, busy);
    }

    method GenAssign(e: Expr, dest: Option<Index>, ghost busy: set<nat>) returns (ok: bool, r: Result)
      requires e.Assign? && Valid() && InUse(busy) && count <= MAX_DEPTH + 1
      requires dest.Some? ==> Writable(dest.value) && DestTemps(dest) <= busy
      modifies this`code, this`size, this`end, this`words, this`cache, this`free, this`next, this`count, code
      ensures ok <==> old(count) + ExprDepth(e) <= MAX_DEPTH + 2
      ensures ok ==> ExprDone(e, dest, busy, r) && count == old(count)
      ensures count >= old(count)
      ensures code == old(code) || fresh(code)
      decreases e, 1
    {
      ghost var lo := end;
      var x := Variable(e.name);
      ok, r := GenExpr(e.rhs, Some(x), busy);
      if !ok {
        return;
      }
      ghost var c1, p := words, end;
      if x != r.index {
        Emit(IMove(x, r.index));
      }
      AssignJoin(m, c1, words, lo, p, end, e, r.index, dest, busy);
    }

    method GenOpAssign(e: Expr, dest: Option<Index>, ghost busy: set<nat>) returns (ok: bool, r: Result)
      requires e.OpAssign? && Valid() && InUse(busy) && count <= MAX_DEPTH + 1
      requires dest.Some? ==> Writable(dest.value) && DestTemps(dest) <= busy
      modifies this`code, this`size, this`end, this`words, this`cache, this`free, this`next, this`count, code
      ensures ok <==> old(count) + ExprDepth(e) <= MAX_DEPTH + 2
      ensures ok ==> ExprDone(e, dest, busy, r) && count == old(count)
      ensures count >= old(count)
      ensures code == old(code) || fresh(code)
      decreases e, 1
    {
      hide ExprImpl, Has;
      ghost var lo := end;
      var x := Variable(e.name);
      var a;
      var s := Result(x, false);
      LeafImpl(m, words, lo, Name(e.name), x, None, busy);
      if HasSideEffect(e.rhs) {
        // Preserve the variable: the expression may change it.
        s := SaveIndex(x, busy);
        LeafImpl(m, words, lo, Name(e.name), x, None, busy);
        SaveImpl(m, words, lo, lo, end, Name(e.name), x, s.index, busy);
      }
      r := s;
      ghost var c1, mid := words, end;
      ok, a := GenExpr(e.rhs, None, busy + TempOf(s.index));
      if !ok {
        return;
      }
      ghost var c2, p := words, end;
      r := Finish(e.bop, s, a, Some(x), busy);
      OpAssignJoin(m, c1, c2, words, lo, mid, p, e, s.index, a.index, dest, busy);
    }

    method GenCount(e: Expr, dest: Option<Index>, ghost busy: set<nat>) returns (ok: bool, r: Result)
      requires e.Count? && Valid() && InUse(busy) && count <= MAX_DEPTH + 1
      requires dest.Some? ==> Writable(dest.value) && DestTemps(dest) <= busy
      modifies this`code, this`size, this`end, this`words, this`cache, this`free, this`next, this`count, code
      ensures ok <==> old(count) + ExprDepth(e) <= MAX_DEPTH + 2
      ensures ok ==> ExprDone(e, dest, busy, r) && count == old(count)
      ensures count >= old(count)
      ensures code == old(code) || fresh(code)
      decreases e, 1
    {
      ghost var lo := end;
      var x := Variable(e.name);
      r := DestIndex(dest, busy);
      ok := true;
      Emit(ICount(e.decrement, e.post, r.index, x, x));
      CountImpl(m, words, lo, e.decrement, e.post, e.name, r.index, dest, Live(busy, dest));
    }

    // ----- statements -----

    ghost predicate Consistent()
      reads this, code
    {
      Valid() && HolesOk(words, blocks, holes)
    }

    // Code was only appended; the same blocks are open, with new holes at most
    // in the new code.
    twostate predicate Grown()
      reads this, code
    {
      && Consistent() && next >= old(next)
      && Scopes(blocks) == Scopes(old(blocks))
      && MoreHoles(old(holes), holes, old(end))
      && old(words) <= words
    }

    twostate predicate StmtDone(s: Stmt, r: Result)
      reads this, code
    {
      && Grown() && Owned(r, {})
      && StmtImpl(m, words, holes, Scopes(blocks), old(end), end, s)
      && (s.Expression? ==> ExprImpl(m, words, old(end), end, s.e, r.index, None, {}))
    }

    // An expression whose value a statement uses.
    method GenValue(e: Expr) returns (ok: bool, r: Result)
      requires Consistent()
      modifies this, code
      ensures ok <==> old(count) + ExprDepth(e) <= MAX_DEPTH + 1
      ensures ok ==> Grown() && blocks == old(blocks) && holes == old(holes) && Owned(r, {}) && count == old(count)
      ensures ok ==> ExprImpl(m, words, old(end), end, e, r.index, None, {})
      ensures count >= old(count)
      ensures code == old(code) || fresh(code)
    {
      ghost var c0 := words;
      ok, r := GenExpr(e, None, {});
      if ok {
        HolesKeep(c0, words, blocks, holes);
      }
    }

    method GenStmt(s: Stmt) returns (ok: bool, r: Result)
      requires Consistent()
      modifies this, code
      ensures ok <==> old(count) + StmtDepth(s) <= MAX_DEPTH + 1 && WellLabelled(s, Scopes(old(blocks)))
      ensures ok ==> StmtDone(s, r) && count == old(count)
      ensures count >= old(count)
      ensures code == old(code) || fresh(code)
      decreases s, 2
    {
      hide HolesOk, StmtImpl, ExprImpl;
      r := Result(Constant(Undefined), false);
      if s.Expression? {
        ok, r := GenExpression(s);
        return;
      }
      if count > MAX_DEPTH {
        count := count + 1;
        return false, r;
      }
      count := count + 1;
      ok := GenNode(s);
      count := count - 1;
    }

    method GenNode(s: Stmt) returns (ok: bool)
      requires !s.Expression? && Consistent() && count <= MAX_DEPTH + 1
      modifies this, code
      ensures ok <==> old(count) + StmtDepth(s) <= MAX_DEPTH + 2 && WellLabelled(s, Scopes(old(blocks)))
      ensures ok ==> StmtDone(s, Result(Constant(Undefined), false)) && count == old(count)
      ensures count >= old(count)
      ensures code == old(code) || fresh(code)
      decreases s, 1, 1
    {
      hide HolesOk, StmtImpl, ExprImpl;
      match s {
        case Empty =>
          ok := true;
          EmptyImpl(m, words, holes, Scopes(blocks), end);
        case Sequence(_, _) => ok := GenSequence(s);
        case Block(_, _) => ok := GenBlock(s);
        case If(_, _) => ok := GenIf(s);
        case IfElse(_, _, _) => ok := GenIfElse(s);
        case While(_, _, _) => ok := GenWhile(s);
        case DoWhile(_, _, _) => ok := GenDoWhile(s);
        case For(_, _, _, _, _) => ok := GenFor(s);
        case Switch(_, _, _) => ok := GenSwitch(s);
        case Break(_) => ok := GenJump(s);
        case Continue(_) => ok := GenJump(s);
      }
    }

    // An expression statement: its node passes for the statement's.
    method GenExpression(s: Stmt) returns (ok: bool, r: Result)
      requires s.Expression? && Consistent()
      modifies this, code
      ensures ok <==> old(count) + StmtDepth(s) <= MAX_DEPTH + 1
      ensures ok ==> StmtDone(s, r) && count == old(count)
      ensures count >= old(count)
      ensures code == old(code) || fresh(code)
    {
      ghost var lo := end;
      HolesBelow(words, blocks, holes);
      ok, r := GenValue(s.e);
      if ok {
        ExpressionImpl(m, words, holes, Scopes(blocks), lo, end, s.e, r.index);
      }
    }

    method GenSequence(s: Stmt) returns (ok: bool)
      requires s.Sequence? && Consistent() && count <= MAX_DEPTH + 1
      modifies this, code
      ensures ok <==> old(count) + StmtDepth(s) <= MAX_DEPTH + 2 && WellLabelled(s, Scopes(old(blocks)))
      ensures ok ==> StmtDone(s, Result(Constant(Undefined), false)) && count == old(count)
      ensures count >= old(count)
      ensures code == old(code) || fresh(code)
      decreases s, 1, 0
    {
      ghost var lo, scopes := end, Scopes(blocks);
      var r;
      ok, r := GenStmt(s.first);
      if !ok {
        return;
      }
      ghost var c1, h1 := words, holes;
      Release(r);
      ok, r := GenStmt(s.second);
      if !ok {
        return;
      }
      Release(r);
      SequenceJoin(m, c1, h1, words, holes, scopes, lo, s);
    }

    // A condition and the jump taken when it is false.
    method GenTest(e: Expr) returns (ok: bool, test: nat, ghost rc: Index)
      requires Consistent()
      modifies this, code
      ensures ok <==> old(count) + ExprDepth(e) <= MAX_DEPTH + 1
      ensures ok ==> Grown() && blocks == old(blocks) && holes == old(holes) && count == old(count)
      ensures ok ==> CondHead(m, words, old(end), test, e, rc)
      ensures count >= old(count)
      ensures code == old(code) || fresh(code)
    {
      ghost var c0, lo := words, end;
      var c;
      ok, c := GenExpr(e, None, {});
      test, rc := 0, c.index;
      if !ok {
        return;
      }
      ghost var c1 := words;
      test := JumpUnless(c);
      ExprMoves(m, c1, words, lo, test, e, rc, None, {});
      HolesKeep(c0, words, blocks, holes);
    }

    // The jump field at p, not a hole, is made to lead from target to the end.
    method SetJump(p: nat, target: nat)
      requires Consistent() && p < end && p !in holes
      modifies this`words, code
      ensures Consistent() && words == old(words)[p := Offset(end - target)]
    {
      ghost var c0 := words;
      SetOffset(p, target);
      HolesKeep(c0, words, blocks, holes);
    }

    method GenIf(s: Stmt) returns (ok: bool)
      requires s.If? && Consistent() && count <= MAX_DEPTH + 1
      modifies this, code
      ensures ok <==> old(count) + StmtDepth(s) <= MAX_DEPTH + 2 && WellLabelled(s, Scopes(old(blocks)))
      ensures ok ==> StmtDone(s, Result(Constant(Undefined), false)) && count == old(count)
      ensures count >= old(count)
      ensures code == old(code) || fresh(code)
      decreases s, 1, 0
    {
      hide HolesOk, StmtImpl, CondHead, ExprImpl, Has, NoDuplicates, Encode, Decode;
      ghost var c0, h0, scopes := words, holes, Scopes(blocks);
      HolesBelow(words, blocks, holes);
      var test, y;
      ghost var rc;
      ok, test, rc := GenTest(s.cond);
      if !ok {
        return;
      }
      ghost var c1 := words;
      ok, y := GenStmt(s.yes);
      if !ok {
        return;
      }
      ghost var c2 := words;
      Release(y);
      SetJump(test + 1, test);
      IfJoin(m, c0, h0, c1, c2, holes, words, scopes, s, test, rc);
    }

    method GenIfElse(s: Stmt) returns (ok: bool)
      requires s.IfElse? && Consistent() && count <= MAX_DEPTH + 1
      modifies this, code
      ensures ok <==> old(count) + StmtDepth(s) <= MAX_DEPTH + 2 && WellLabelled(s, Scopes(old(blocks)))
      ensures ok ==> StmtDone(s, Result(Constant(Undefined), false)) && count == old(count)
      ensures count >= old(count)
      ensures code == old(code) || fresh(code)
      decreases s, 1, 0
    {
      hide HolesOk, StmtImpl, ExprImpl, Has, NoDuplicates, Encode, Decode, FindBlock, ThenBranch;
      ghost var c0 := words;
      var test, jump, n;
      ghost var rc;
      ok, test, jump, rc := GenThen(s);
      if !ok {
        return;
      }
      ghost var c1, h1 := words, holes;
      ok, n := GenStmt(s.no);
      if !ok {
        return;
      }
      EndElse(n, s, test, jump, c0, c1, h1, rc);
    }

    // The jump over the second branch is made to lead past it.
    method EndElse(n: Result, s: Stmt, ghost test: nat, jump: nat, ghost c0: seq<Word>, ghost c1: seq<Word>,
                   ghost h1: map<nat, Hole>, ghost rc: Index)
      requires s.IfElse? && Consistent() && Owned(n, {}) && c0 <= c1 <= words && MoreHoles(h1, holes, |c1|)
      requires ThenBranch(m, c1, h1, Scopes(blocks), |c0|, test, jump, s, rc)
      requires StmtImpl(m, words, holes, Scopes(blocks), |c1|, |words|, s.no)
      modifies this`words, this`cache, this`free, code
      ensures Consistent() && c0 <= words && StmtImpl(m, words, holes, Scopes(blocks), |c0|, |words|, s)
    {
      hide HolesOk, StmtImpl, ExprImpl, Has, Encode, Decode;
      ghost var c2 := words;
      Release(n);
      SetJump(jump + 1, jump);
      ElseJoin(m, c0, c1, h1, c2, holes, words, Scopes(blocks), |c0|, test, jump, s, rc);
    }

    // An if/else statement up to its second branch.
    method GenThen(s: Stmt) returns (ok: bool, test: nat, jump: nat, ghost rc: Index)
      requires s.IfElse? && Consistent() && count <= MAX_DEPTH + 1
      modifies this, code
      ensures ok <==> && old(count) + Max(ExprDepth(s.cond), StmtDepth(s.yes)) <= MAX_DEPTH + 1
                      && WellLabelled(s.yes, Scopes(old(blocks)))
      ensures ok ==> Grown() && count == old(count)
      ensures ok ==> ThenBranch(m, words, holes, Scopes(blocks), old(end), test, jump, s, rc)
      ensures count >= old(count)
      ensures code == old(code) || fresh(code)
      decreases s, 0
    {
      hide HolesOk, StmtImpl, NoDuplicates, Encode, Decode;
      ghost var c0, h0, scopes := words, holes, Scopes(blocks);
      HolesBelow(words, blocks, holes);
      var y;
      jump := 0;
      ok, test, rc := GenTest(s.cond);
      if !ok {
        return;
      }
      ghost var c1 := words;
      ok, y := GenStmt(s.yes);
      if !ok {
        return;
      }
      ghost var c2 := words;
      HolesBelow(words, blocks, holes);
      jump := end;
      SkipBranch(test, y, {});
      ThenJoin(m, c0, h0, c1, c2, holes, words, scopes, s, test, rc);
      HolesKeep(c2, words, blocks, holes);
    }

    method GenJump(s: Stmt) returns (ok: bool)
      requires (s.Break? || s.Continue?) && Consistent() && count <= MAX_DEPTH + 1
      modifies this, code
      ensures ok <==> old(count) + StmtDepth(s) <= MAX_DEPTH + 2 && WellLabelled(s, Scopes(old(blocks)))
      ensures ok ==> StmtDone(s, Result(Constant(Undefined), false)) && count == old(count)
      ensures count >= old(count)
      ensures code == old(code) || fresh(code)
      decreases s, 1, 0
    {
      hide StmtImpl, HolesOk, ExprImpl, NoDuplicates;
      var k := LookupBlock(if s.Break? then BreakMask(s.target) else CONTINUE_MASK, s.target);
      if k.None? {
        // Illegal break or continue statement.
        return false;
      }
      AddJump(s, k.value);
      ok := true;
    }

    // A jump whose field is put on a list of block k.
    method AddJump(s: Stmt, k: nat)
      requires (s.Break? || s.Continue?) && Consistent() && JumpBlock(s, Scopes(blocks)) == Some(k)
      modifies this`code, this`size, this`end, this`words, this`blocks, this`holes, code
      ensures Grown() && StmtImpl(m, words, holes, Scopes(blocks), old(end), end, s)
      ensures code == old(code) || fresh(code)
    {
      hide HolesOk, StmtImpl;
      ghost var c0 := words;
      Emit(IJump(1));
      var p := end - 1;
      JumpJoin(m, c0, words, blocks, holes, Scopes(blocks), s);
      holes := holes[p := Hole(k, s.Break?)];
      blocks := blocks[k := AddPatch(blocks[k], s.Break?, p)];
      assert Scopes(blocks) == Scopes(old(blocks));
    }

    // njs_generate_lookup_block().
    method LookupBlock(mask: set<Kind>, name: string) returns (r: Option<nat>)
      ensures r == FindBlock(Scopes(blocks), mask, name)
    {
      ghost var scopes := Scopes(blocks);
      var i := |blocks|;
      assert scopes[..i] == scopes;
      while i != 0
        invariant 0 <= i <= |blocks|
        invariant FindBlock(scopes, mask, name) == FindBlock(scopes[..i], mask, name)
      {
        assert scopes[..i][..i - 1] == scopes[..i - 1];
        if blocks[i - 1].kind in mask && (name == "" || blocks[i - 1].name == name) {
          return Some(i - 1);
        }
        i := i - 1;
      }
      return None;
    }

    // ----- blocks -----

    method StartBlock(kind: Kind, name: string)
      requires Consistent()
      modifies this`blocks
      ensures Consistent() && blocks == old(blocks) + [OpenBlock(kind, name, [], [])]
      ensures Scopes(blocks) == Scopes(old(blocks)) + [Scope(kind, name)]
    {
      HolesOpen(words, blocks, holes, OpenBlock(kind, name, [], []));
      blocks := blocks + [OpenBlock(kind, name, [], [])];
    }

    // The innermost block continues here.
    method PatchContinuation()
      requires Consistent() && blocks != []
      modifies this`blocks, this`words, this`holes, code
      ensures var last := old(blocks)[|old(blocks)| - 1];
              && Consistent() && blocks == old(blocks)[|old(blocks)| - 1 := last.(continuation := [])]
              && holes == Without(old(holes), last.continuation)
              && Patched(old(words), words, last.continuation, end)
    {
      var n := |blocks| - 1;
      hide HolesOk, ListsOk;
      InnermostFields(words, blocks, holes);
      ghost var c0 := words;
      PatchBlock(blocks[n].continuation);
      HolesContinue(c0, words, blocks, holes, end);
      holes := Without(holes, blocks[n].continuation);
      // The source leaves the freed list in the block and does not look at it again.
      blocks := blocks[n := blocks[n].(continuation := [])];
    }

    // njs_generate_patch_block_exit(): the innermost block ends here.
    method PatchExit()
      requires Consistent() && blocks != [] && blocks[|blocks| - 1].continuation == []
      modifies this`blocks, this`words, this`holes, code
      ensures var last := old(blocks)[|old(blocks)| - 1];
              && Consistent() && blocks == old(blocks)[..|old(blocks)| - 1]
              && holes == Without(old(holes), last.exit)
              && Patched(old(words), words, last.exit, end)
    {
      var n := |blocks| - 1;
      hide HolesOk, ListsOk;
      InnermostFields(words, blocks, holes);
      ghost var c0 := words;
      PatchBlock(blocks[n].exit);
      HolesClose(c0, words, blocks, holes, end);
      holes := Without(holes, blocks[n].exit);
      blocks := blocks[..n];
    }

    method GenBlock(s: Stmt) returns (ok: bool)
      requires s.Block? && Consistent() && count <= MAX_DEPTH + 1
      modifies this, code
      ensures ok <==> old(count) + StmtDepth(s) <= MAX_DEPTH + 2 && WellLabelled(s, Scopes(old(blocks)))
      ensures ok ==> StmtDone(s, Result(Constant(Undefined), false)) && count == old(count)
      ensures count >= old(count)
      ensures code == old(code) || fresh(code)
      decreases s, 1, 0
    {
      hide HolesOk, StmtImpl, Without, Patched, NoDuplicates, Encode, Decode;
      ghost var c0, h0, scopes := words, holes, Scopes(blocks);
      HolesBelow(words, blocks, holes);
      StartBlock(BlockKind, s.name);
      var r;
      ok, r := GenStmt(s.body);
      if !ok {
        return;
      }
      Release(r);
      EndBlock(s, c0, h0, scopes);
    }

    // The block is closed.
    method EndBlock(s: Stmt, ghost c0: seq<Word>, ghost h0: map<nat, Hole>, ghost scopes: seq<Scope>)
      requires s.Block? && Consistent() && Scopes(blocks) == scopes + [Scope(BlockKind, s.name)]
      requires c0 <= words && Below(h0, |c0|) && (forall p | p in h0 :: h0[p].block < |scopes|)
      requires MoreHoles(h0, holes, |c0|)
      requires StmtImpl(m, words, holes, Scopes(blocks), |c0|, end, s.body)
      modifies this`words, this`blocks, this`holes, code
      ensures Consistent() && Scopes(blocks) == scopes && c0 <= words && MoreHoles(h0, holes, |c0|)
      ensures StmtImpl(m, words, holes, scopes, |c0|, end, s)
    {
      hide HolesOk, StmtImpl, Without, Patched, NoDuplicates, Encode, Decode;
      ghost var c1, b1, h1 := words, blocks, holes;
      assert Scopes(b1)[|b1| - 1] == Scope(BlockKind, s.name);
      InnermostLists(words, blocks, holes);
      PatchExit();
      BlockJoin(m, c0, h0, c1, b1, h1, words, scopes, s);
      assert Scopes(blocks) == scopes;
    }

    // ----- loops -----

    // A jump to be set or patched by the caller.
    method JumpAhead(off: int)
      requires Consistent()
      modifies this`code, this`size, this`end, this`words, code
      ensures Consistent() && old(words) <= words && Has(words, old(end), IJump(off)) && end == old(end) + 2
      ensures code == old(code) || fresh(code)
    {
      ghost var c0 := words;
      Emit(IJump(off));
      HolesKeep(c0, words, blocks, holes);
    }

    // The body of the loop whose block is the innermost one, up to the point
    // where the loop continues.
    method LoopBody(body: Stmt) returns (ok: bool, ghost d: Body)
      requires Consistent() && blocks != []
      requires var b := blocks[|blocks| - 1]; b.kind == LoopKind && b.continuation == b.exit == []
      modifies this, code
      ensures ok <==> old(count) + StmtDepth(body) <= MAX_DEPTH + 1 && WellLabelled(body, Scopes(old(blocks)))
      ensures ok ==>
                && Consistent() && count == old(count) && next >= old(next) && Scopes(blocks) == Scopes(old(blocks))
                && BodyOk(m, old(words), old(holes), d, |blocks| - 1, Scopes(blocks), body)
                && blocks[|blocks| - 1] == d.last.(continuation := [])
                && holes == Without(d.holes, d.last.continuation)
                && (forall p | p in holes :: p in old(holes) || p >= old(end))
                && Patched(d.code, words, d.last.continuation, |d.code|) && end == |d.code| >= old(end)
      ensures count >= old(count)
      ensures code == old(code) || fresh(code)
      decreases body, 3
    {
      hide HolesOk, StmtImpl, NoDuplicates, WellLabelled, ExprImpl;
      var r;
      ok, r := GenStmt(body);
      if ok {
        d := Body(words, holes, blocks[|blocks| - 1]);
        HolesBelow(words, blocks, holes);
        InnermostLists(words, blocks, holes);
        PatchContinuation();
        assert Scopes(blocks) == Scopes(old(blocks));
      } else {
        d := Body([], map[], OpenBlock(LoopKind, "", [], []));
      }
    }

    // The condition of a loop and the jump back to its body; the block ends.
    // c3 is the code before the exits are patched.
    method LoopBack(e: Expr, loop: nat) returns (ok: bool, ghost c3: seq<Word>, ghost back: nat, ghost rc: Index)
      requires Consistent() && blocks != [] && blocks[|blocks| - 1].continuation == []
      modifies this, code
      ensures ok <==> old(count) + ExprDepth(e) <= MAX_DEPTH + 1
      ensures ok ==>
                && Consistent() && count == old(count) && next >= old(next)
                && blocks == old(blocks)[..|old(blocks)| - 1]
                && old(words) <= c3 && |c3| == back + 3 == end && old(end) <= back
                && ExprImpl(m, c3, old(end), back, e, rc, None, {})
                && Has(c3, back, ICond(true, loop - back, rc))
                && Patched(c3, words, old(blocks)[|old(blocks)| - 1].exit, |c3|)
                && holes == Without(old(holes), old(blocks)[|old(blocks)| - 1].exit)
      ensures count >= old(count)
      ensures code == old(code) || fresh(code)
    {
      hide HolesOk, ExprImpl, Without, Patched, Has;
      ghost var c0, lo := words, end;
      var c;
      ok, c := GenExpr(e, None, {});
      c3, back, rc := words, end, c.index;
      if !ok {
        return;
      }
      Emit(ICond(true, loop - end, c.index));
      ExprMoves(m, c3, words, lo, back, e, rc, None, {});
      c3 := words;
      HolesKeep(c0, c3, blocks, holes);
      PatchExit();
      Release(c);
    }

    method GenWhile(s: Stmt) returns (ok: bool)
      requires s.While? && Consistent() && count <= MAX_DEPTH + 1
      modifies this, code
      ensures ok <==> old(count) + StmtDepth(s) <= MAX_DEPTH + 2 && WellLabelled(s, Scopes(old(blocks)))
      ensures ok ==> StmtDone(s, Result(Constant(Undefined), false)) && count == old(count)
      ensures count >= old(count)
      ensures code == old(code) || fresh(code)
      decreases s, 1, 0
    {
      hide HolesOk, BodyOk, StmtImpl, ExprImpl, Has, Without, Patched, NoDuplicates, Encode, Decode;
      ghost var c0, h0, scopes := words, holes, Scopes(blocks);
      HolesBelow(words, blocks, holes);
      var jump := end;
      JumpAhead(0);
      StartBlock(LoopKind, s.name);
      ghost var c1 := words;
      ghost var d;
      ok, d := LoopBody(s.body);
      if !ok {
        return;
      }
      assert Scopes(blocks) == scopes + [Scope(LoopKind, s.name)];
      ok := WhileTail(s, jump, c0, h0, c1, d, scopes);
    }

    // A while loop from the end of its body on.
    method WhileTail(s: Stmt, jump: nat, ghost c0: seq<Word>, ghost h0: map<nat, Hole>, ghost c1: seq<Word>,
                     ghost d: Body, ghost scopes: seq<Scope>) returns (ok: bool)
      requires s.While? && Consistent() && blocks != [] && blocks[|blocks| - 1] == d.last.(continuation := [])
      requires c0 <= c1 && jump == |c0| && |c1| == jump + 2 && Has(c1, jump, IJump(0)) && jump + 1 !in holes
      requires Below(h0, |c0|) && forall q | q in h0 :: h0[q].block < |blocks| - 1
      requires |scopes| == |blocks| - 1 && Scopes(blocks) == scopes + [Scope(LoopKind, s.name)]
      requires BodyOk(m, c1, h0, d, |blocks| - 1, Scopes(blocks), s.body)
      requires holes == Without(d.holes, d.last.continuation) && Patched(d.code, words, d.last.continuation, |d.code|)
      requires |c1| <= end == |d.code|
      modifies this, code
      ensures ok <==> old(count) + ExprDepth(s.cond) <= MAX_DEPTH + 1
      ensures ok ==> Consistent() && next >= old(next) && Scopes(blocks) == scopes && count == old(count)
      ensures ok ==> c0 <= words && MoreHoles(h0, holes, |c0|)
      ensures ok ==> StmtImpl(m, words, holes, scopes, |c0|, end, s)
      ensures count >= old(count)
      ensures code == old(code) || fresh(code)
    {
      hide HolesOk, BodyOk, StmtImpl, ExprImpl, Has, Without, Patched, NoDuplicates, Encode, Decode;
      ghost var c2, cont := words, end;
      SetJump(jump + 1, jump);
      ghost var c3, back, rc;
      ok, c3, back, rc := LoopBack(s.cond, jump + 2);
      if !ok {
        return;
      }
      ghost var p := LoopShape(jump + 2, cont, cont, back, |c3|, rc, rc);
      WhileJoin(m, c0, h0, c1, d, c2, c3, words, scopes, s, p);
      assert Scopes(blocks) == scopes;
    }

    method GenDoWhile(s: Stmt) returns (ok: bool)
      requires s.DoWhile? && Consistent() && count <= MAX_DEPTH + 1
      modifies this, code
      ensures ok <==> old(count) + StmtDepth(s) <= MAX_DEPTH + 2 && WellLabelled(s, Scopes(old(blocks)))
      ensures ok ==> StmtDone(s, Result(Constant(Undefined), false)) && count == old(count)
      ensures count >= old(count)
      ensures code == old(code) || fresh(code)
      decreases s, 1, 0
    {
      hide HolesOk, BodyOk, StmtImpl, ExprImpl, Has, Without, Patched;
      ghost var c0, h0, scopes := words, holes, Scopes(blocks);
      HolesBelow(words, blocks, holes);
      StartBlock(LoopKind, s.name);
      var loop := end;
      ghost var d;
      ok, d := LoopBody(s.body);
      if !ok {
        return;
      }
      ghost var c2, cont := words, end;
      ghost var c3, back, rc;
      ok, c3, back, rc := LoopBack(s.cond, loop);
      if !ok {
        return;
      }
      ghost var p := LoopShape(loop, cont, cont, back, end, rc, rc);
      DoWhileJoin(m, c0, h0, d, c2, c3, words, scopes, s, p);
      assert Scopes(blocks) == scopes;
    }

    // njs_generator() on a part that may be missing; its value is not used.
    method GenOption(e: Option<Expr>) returns (ok: bool, ghost r: Index)
      requires Consistent()
      modifies this, code
      ensures ok <==> old(count) + OptionDepth(e) <= MAX_DEPTH + 1
      ensures ok ==> Grown() && blocks == old(blocks) && holes == old(holes) && count == old(count)
      ensures ok ==> match e
                     case None => words == old(words)
                     case Some(x) => ExprImpl(m, words, old(end), end, x, r, None, {})
      ensures count >= old(count)
      ensures code == old(code) || fresh(code)
    {
      if e.None? {
        ok, r := count <= MAX_DEPTH, Constant(Undefined);
      } else {
        var v;
        ok, v := GenValue(e.value);
        r := v.index;
        if ok {
          Release(v);
        }
      }
    }

    // The jump back to the body of a loop without a condition; the block ends.
    method LoopForever(loop: nat) returns (ghost c3: seq<Word>)
      requires Consistent() && blocks != [] && blocks[|blocks| - 1].continuation == []
      modifies this`code, this`size, this`end, this`words, this`blocks, this`holes, code
      ensures Consistent() && blocks == old(blocks)[..|old(blocks)| - 1]
      ensures old(words) <= c3 && |c3| == old(end) + 2 && Has(c3, old(end), IJump(loop - old(end)))
      ensures Patched(c3, words, old(blocks)[|old(blocks)| - 1].exit, |c3|)
      ensures holes == Without(old(holes), old(blocks)[|old(blocks)| - 1].exit)
      ensures code == old(code) || fresh(code)
    {
      JumpAhead(loop - end);
      c3 := words;
      PatchExit();
    }

    // The initialization of a for loop and the jump to its condition.
    method ForHead(s: Stmt) returns (ok: bool, ghost mid: nat, ghost ri: Index)
      requires s.For? && Consistent()
      modifies this, code
      ensures ok <==> old(count) + OptionDepth(s.init) <= MAX_DEPTH + 1
      ensures ok ==> Consistent() && count == old(count) && next >= old(next) && holes == old(holes)
      ensures ok ==> blocks == old(blocks) + [OpenBlock(LoopKind, s.name, [], [])]
      ensures ok ==> Scopes(blocks) == Scopes(old(blocks)) + [Scope(LoopKind, s.name)]
      ensures ok ==> ForInit(m, old(words), words, s, mid, ri)
      ensures count >= old(count)
      ensures code == old(code) || fresh(code)
    {
      ghost var lo := end;
      StartBlock(LoopKind, s.name);
      ok, ri := GenOption(s.init);
      mid := end;
      if !ok {
        return;
      }
      ghost var c1 := words;
      if s.test.Some? {
        JumpAhead(0);
        if s.init.Some? {
          ExprMoves(m, c1, words, lo, mid, s.init.value, ri, None, {});
        }
      }
    }

    method GenFor(s: Stmt) returns (ok: bool)
      requires s.For? && Consistent() && count <= MAX_DEPTH + 1
      modifies this, code
      ensures ok <==> old(count) + StmtDepth(s) <= MAX_DEPTH + 2 && WellLabelled(s, Scopes(old(blocks)))
      ensures ok ==> StmtDone(s, Result(Constant(Undefined), false)) && count == old(count)
      ensures count >= old(count)
      ensures code == old(code) || fresh(code)
      decreases s, 1, 0
    {
      hide HolesOk, BodyOk, StmtImpl, ExprImpl, Has;
      ghost var c0, h0, scopes := words, holes, Scopes(blocks);
      HolesBelow(words, blocks, holes);
      ghost var mid, ri;
      ok, mid, ri := ForHead(s);
      if !ok {
        return;
      }
      var loop := end;
      ghost var c1 := words;
      ghost var d;
      ok, d := LoopBody(s.body);
      if !ok {
        return;
      }
      ghost var c2 := words;
      assert Scopes(blocks[..|blocks| - 1]) == scopes;
      ok := ForTail(s, loop, c0, h0, c1, d, mid, ri);
      assert ok ==> Scopes(blocks) == scopes;
    }

    // The test of a for loop and the jump back, and the end of its block.
    method ForTest(test: Option<Expr>, loop: nat)
      returns (ok: bool, ghost c3: seq<Word>, ghost back: nat, ghost rc: Index)
      requires Consistent() && blocks != [] && blocks[|blocks| - 1].continuation == []
      requires test.Some? ==> 2 <= loop <= end && loop - 1 !in holes
      modifies this, code
      ensures ok <==> old(count) + (if test.Some? then ExprDepth(test.value) else 0) <= MAX_DEPTH + 1 || test.None?
      ensures ok ==>
                && Consistent() && count == old(count) && next >= old(next)
                && blocks == old(blocks)[..|old(blocks)| - 1]
                && old(end) <= |c3| && Patched(c3, words, old(blocks)[|old(blocks)| - 1].exit, |c3|)
                && holes == Without(old(holes), old(blocks)[|old(blocks)| - 1].exit)
      ensures ok ==> forall q | 0 <= q < old(end) ::
                c3[q] == if test.Some? && q == loop - 1 then Offset(old(end) - (loop - 2)) else old(words)[q]
      ensures ok ==>
                match test
                case None => |c3| == old(end) + 2 && Has(c3, old(end), IJump(loop - old(end)))
                case Some(e) =>
                  && old(end) <= back && |c3| == back + 3
                  && ExprImpl(m, c3, old(end), back, e, rc, None, {})
                  && Has(c3, back, ICond(true, loop - back, rc))
      ensures count >= old(count)
      ensures code == old(code) || fresh(code)
    {
      hide HolesOk, StmtImpl, ExprImpl, Has, NoDuplicates, Encode, Decode, Without;
      ok, back, rc := true, 0, Constant(Undefined);
      ghost var c4 := words;
      if test.Some? {
        SetJump(loop - 1, loop - 2);
        ok, c3, back, rc := LoopBack(test.value, loop);
        assert ok ==> forall q | 0 <= q < |c4| && q != loop - 1 :: c3[q] == c4[q];
      } else {
        c3 := LoopForever(loop);
      }
    }

    // The update and the condition of a for loop; the block ends.
    method ForTail(s: Stmt, loop: nat, ghost c0: seq<Word>, ghost h0: map<nat, Hole>, ghost c1: seq<Word>,
                   ghost d: Body, ghost mid: nat, ghost ri: Index) returns (ok: bool)
      requires s.For? && Consistent() && blocks != [] && blocks[|blocks| - 1] == d.last.(continuation := [])
      requires ForInit(m, c0, c1, s, mid, ri) && loop == |c1|
      requires Below(h0, |c0|) && forall q | q in h0 :: h0[q].block < |blocks| - 1
      requires BodyOk(m, c1, h0, d, |blocks| - 1, Scopes(blocks[..|blocks| - 1]) + [Scope(LoopKind, s.name)], s.body)
      requires holes == Without(d.holes, d.last.continuation) && Patched(d.code, words, d.last.continuation, |d.code|)
      modifies this, code
      ensures ok <==> old(count) + Max(OptionDepth(s.update), if s.test.Some? then ExprDepth(s.test.value) else 0)
                      <= MAX_DEPTH + 1
      ensures ok ==> Consistent() && next >= old(next) && blocks == old(blocks)[..|old(blocks)| - 1]
      ensures ok ==> count == old(count)
      ensures ok ==> c0 <= words && MoreHoles(h0, holes, |c0|)
      ensures ok ==> StmtImpl(m, words, holes, Scopes(blocks), |c0|, end, s)
      ensures count >= old(count)
      ensures code == old(code) || fresh(code)
    {
      hide HolesOk, StmtImpl, ExprImpl, Has, NoDuplicates, Encode, Decode;
      ghost var c2, scopes, cont := words, Scopes(blocks[..|blocks| - 1]), end;
      ghost var ru, rc, c3, back;
      ok, ru := GenOption(s.update);
      if !ok {
        return;
      }
      ghost var test, c4 := end, words;
      ok, c3, back, rc := ForTest(s.test, loop);
      if !ok {
        return;
      }
      ghost var p := LoopShape(loop, cont, test, back, end, rc, ru);
      ForJoin(m, c0, h0, c1, mid, ri, d, c2, c4, c3, words, scopes, s, p);
    }

    // ----- switch -----

    // The discriminant, in a temporary.
    method GenDiscriminant(e: Expr) returns (ok: bool, t: nat)
      requires Consistent()
      modifies this, code
      ensures ok <==> old(count) + ExprDepth(e) <= MAX_DEPTH + 1
      ensures ok ==> Grown() && blocks == old(blocks) && holes == old(holes) && InUse({t}) && count == old(count)
      ensures ok ==> ExprImpl(m, words, old(end), end, e, Temporary(t), None, {})
      ensures count >= old(count)
      ensures code == old(code) || fresh(code)
    {
      hide ExprImpl;
      ghost var c0, lo := words, end;
      var r;
      t := 0;
      ok, r := GenExpr(e, None, {});
      if !ok {
        return;
      }
      if r.temporary {
        t := r.index.n;
      } else {
        ghost var c1, p := words, end;
        var s := SaveIndex(r.index, {});
        t := s.index.n;
        ExprMoves(m, c1, words, lo, p, e, r.index, None, {});
        SaveImpl(m, words, lo, p, end, e, r.index, s.index, {});
      }
      HolesKeep(c0, words, blocks, holes);
    }

    // One test, and the jump taken when it succeeds.
    method GenCaseTest(e: Expr, t: nat) returns (ok: bool, ghost c2: seq<Word>, ghost r: Index)
      requires Valid() && InUse({t})
      modifies this`code, this`size, this`end, this`words, this`cache, this`free, this`next, this`count, code
      ensures ok <==> old(count) + ExprDepth(e) <= MAX_DEPTH + 1
      ensures ok ==> Undisturbed({t}) && count == old(count)
      ensures ok ==> ExprImpl(m, c2, old(end), |c2|, e, r, None, {t})
      ensures ok ==> old(words) <= c2 <= words && end == |c2| + 4 && Has(words, |c2|, IEqual(1, Temporary(t), r))
      ensures count >= old(count)
      ensures code == old(code) || fresh(code)
    {
      hide ExprImpl, Encode;
      var v;
      ok, v := GenExpr(e, None, {t});
      c2, r := words, v.index;
      if !ok {
        return;
      }
      Emit(IEqual(1, Temporary(t), v.index));
      Release(v);
    }

    // The tests of all clauses, in order.
    method GenTests(c: Clauses, t: nat) returns (ok: bool, patches: seq<nat>, ghost tests: seq<TestSpot>)
      requires Consistent() && InUse({t}) && count <= MAX_DEPTH + 1
      modifies this, code
      ensures ok <==> old(count) + TestsDepth(c) <= MAX_DEPTH + 1
      ensures ok ==> Grown() && blocks == old(blocks) && holes == old(holes) && InUse({t}) && count == old(count)
      ensures ok ==> |tests| == ClauseCount(c) + 1 && tests[0].lo == old(end) && tests[|tests| - 1].lo == end
      ensures ok ==> TestsAt(m, words, c, ClauseCount(c), 0, tests, [], t, old(end), end)
      ensures ok ==> PatchesOf(c, ClauseCount(c), tests, patches)
      ensures count >= old(count)
      ensures code == old(code) || fresh(code)
    {
      hide ExprImpl, HolesOk, TestsAt, PatchesOf, Has, Encode;
      ghost var c0, lo := words, end;
      patches := [];
      tests := [TestSpot(end, 0, Constant(Undefined))];
      TestsNone(m, words, c, tests, t, lo, end);
      var branch := c;
      ghost var i := 0;
      while !branch.NoClauses?
        invariant i <= ClauseCount(c) && branch == ClauseAt(c, i) && |tests| == i + 1
        invariant Valid() && InUse({t}) && next >= old(next) && count == old(count)
        invariant blocks == old(blocks) && holes == old(holes) && c0 <= words
        invariant code == old(code) || fresh(code)
        invariant tests[0].lo == lo && tests[i].lo == end
        invariant TestsAt(m, words, c, i, 0, tests, [], t, lo, end)
        invariant PatchesOf(c, i, tests, patches)
        invariant old(count) + TestsDepth(c) <= MAX_DEPTH + 1 <==> old(count) + TestsDepth(branch) <= MAX_DEPTH + 1
        decreases branch
      {
        ClauseNext(c, i);
        ghost var c1 := words;
        if branch.Case? {
          ghost var c2, r;
          ok, c2, r := GenCaseTest(branch.test, t);
          if !ok {
            return;
          }
          TestsAdd(m, c1, c2, words, c, i, tests, t, lo, TestSpot(|c1|, |c2|, r));
          PatchesAdd(c, i, tests, patches, TestSpot(|c1|, |c2|, r), TestSpot(end, 0, r));
          patches := patches + [end - 3];
          tests := tests[..i] + [TestSpot(|c1|, |c2|, r), TestSpot(end, 0, r)];
        } else {
          TestsSkip(m, words, c, i, tests, t, lo);
          PatchesSkip(c, i, tests, patches);
          tests := tests + [tests[i]];
        }
        branch := branch.next;
        i := i + 1;
      }
      ClauseNext(c, i);
      ok := true;
      HolesKeep(c0, words, blocks, holes);
    }

    // The bodies of all clauses, in order; each test is made to lead to its body.
    method GenBodies(c: Clauses, patches: seq<nat>, jump: nat, ghost t: nat, ghost tests: seq<TestSpot>, ghost lo: nat)
      returns (ok: bool, ghost bodies: seq<nat>)
      requires Consistent() && blocks != [] && end == jump + 2 && lo <= jump && count <= MAX_DEPTH + 1
      requires |tests| == ClauseCount(c) + 1 && tests[0].lo == lo && tests[|tests| - 1].lo == jump
      requires BodiesState(m, words, holes, Scopes(blocks), c, 0, t, tests, [end], lo)
      requires PatchesOf(c, ClauseCount(c), tests, patches)
      modifies this, code
      ensures ok <==> && old(count) + BodiesDepth(c) <= MAX_DEPTH + 1
                      && WellLabelledClauses(c, Scopes(old(blocks)))
      ensures ok ==> Consistent() && next >= old(next) && Scopes(blocks) == Scopes(old(blocks)) && count == old(count)
      ensures ok ==> MoreHoles(old(holes), holes, jump + 2) && end >= old(end) && words[..lo] == old(words[..lo])
      ensures ok ==> |bodies| == ClauseCount(c) + 1
      ensures ok ==> SwitchParts(m, words, holes, Scopes(blocks), c, t, tests, bodies, lo)
      ensures count >= old(count)
      ensures code == old(code) || fresh(code)
      decreases c, 3
    {
      hide HolesOk, StmtImpl, Has, BodiesAt, TestsAt, BodiesState, BodyReady, SwitchParts, Encode, NoDuplicates;
      hide Decode, PatchesOf, StmtDepth, WellLabelled;
      ghost var n, scopes := ClauseCount(c), Scopes(blocks);
      bodies := [end];
      var branch, pending, k := c, true, 0;
      ghost var i := 0;
      while !branch.NoClauses?
        invariant i <= n && branch == ClauseAt(c, i) && |bodies| == i + 1 && k == TestCount(c, i)
        invariant Consistent() && next >= old(next) && Scopes(blocks) == scopes && count == old(count)
        invariant MoreHoles(old(holes), holes, jump + 2) && end >= old(end) && words[..lo] == old(words[..lo])
        invariant BodiesState(m, words, holes, scopes, c, i, t, tests, bodies, lo)
        invariant pending <==> DefaultBefore(c, i).None?
        invariant && old(count) + BodiesDepth(c) <= MAX_DEPTH + 1
                  && WellLabelledClauses(c, scopes)
                  <==> && old(count) + BodiesDepth(branch) <= MAX_DEPTH + 1
                       && WellLabelledClauses(branch, scopes)
        invariant code == old(code) || fresh(code)
        decreases branch
      {
        ClauseNext(c, i);
        k, pending := EnterBody(c, i, branch, patches, k, jump, pending, t, tests, bodies, lo);
        ghost var c1, h1 := words, holes;
        var r;
        ok, r := GenStmt(branch.body);
        if !ok {
          return;
        }
        BodyAdded(m, c1, h1, words, holes, scopes, c, i, t, tests, bodies, lo);
        bodies := bodies + [end];
        branch := branch.next;
        i := i + 1;
      }
      ClauseNext(c, i);
      ok := true;
      LeaveBodies(c, jump, pending, t, tests, bodies, lo);
    }

    // Without a default clause the jump after the tests is set to the end.
    method LeaveBodies(ghost c: Clauses, jump: nat, pending: bool, ghost t: nat, ghost tests: seq<TestSpot>,
                       ghost bodies: seq<nat>, ghost lo: nat)
      requires Consistent() && |tests| == |bodies| == ClauseCount(c) + 1 && tests[0].lo == lo
      requires jump == tests[|tests| - 1].lo && jump + 2 <= end
      requires BodiesState(m, words, holes, Scopes(blocks), c, ClauseCount(c), t, tests, bodies, lo)
      requires pending <==> DefaultBefore(c, ClauseCount(c)).None?
      modifies this`words, code
      ensures Consistent() && words[..lo] == old(words[..lo])
      ensures SwitchParts(m, words, holes, Scopes(blocks), c, t, tests, bodies, lo)
    {
      hide HolesOk, StmtImpl, Has, BodiesAt, TestsAt, BodiesState, SwitchParts, Encode, NoDuplicates;
      ghost var c0 := words;
      if pending {
        SetOffset(jump + 1, jump);
      }
      BodiesEnd(m, c0, words, holes, Scopes(blocks), c, t, tests, bodies, lo);
      HolesKeep(c0, words, blocks, holes);
    }

    // The jumps to the body of clause i are set.
    method EnterBody(ghost c: Clauses, ghost i: nat, branch: Clauses, patches: seq<nat>, k: nat, jump: nat,
                     pending: bool, ghost t: nat, ghost tests: seq<TestSpot>, ghost bodies: seq<nat>, ghost lo: nat)
      returns (k': nat, pending': bool)
      requires Consistent() && i < ClauseCount(c) && branch == ClauseAt(c, i) && !branch.NoClauses?
      requires |tests| == ClauseCount(c) + 1 && |bodies| == i + 1 && jump == tests[|tests| - 1].lo
      requires BodiesState(m, words, holes, Scopes(blocks), c, i, t, tests, bodies, lo)
      requires PatchesOf(c, ClauseCount(c), tests, patches) && k == TestCount(c, i)
      requires pending <==> DefaultBefore(c, i).None?
      modifies this`words, code
      ensures Consistent() && words[..lo] == old(words[..lo]) && end == |words|
      ensures k' == TestCount(c, i + 1) && (pending' <==> DefaultBefore(c, i + 1).None?)
      ensures BodyReady(m, words, holes, Scopes(blocks), c, i, t, tests, bodies, lo)
    {
      hide HolesOk, StmtImpl, BodiesAt, TestsAt, Has, Encode;
      ghost var c0 := words;
      k', pending' := k, pending;
      if branch.Default? {
        HasInside(c0, jump, DefaultJump(c, i, bodies, jump));
        SetOffset(jump + 1, jump);
        pending' := false;
      } else {
        TestInside(m, c0, c, i, tests, bodies, t, lo, jump);
        UpdateOffset(patches[k]);
        k' := k + 1;
        assert words == c0[tests[i].hi + 1 := Offset(|c0| - tests[i].hi)];
      }
      BodyEntered(m, c0, words, holes, Scopes(blocks), c, i, t, tests, bodies, lo);
      HolesKeep(c0, words, blocks, holes);
    }

    method GenSwitch(s: Stmt) returns (ok: bool)
      requires s.Switch? && Consistent() && count <= MAX_DEPTH + 1
      modifies this, code
      ensures ok <==> old(count) + StmtDepth(s) <= MAX_DEPTH + 2 && WellLabelled(s, Scopes(old(blocks)))
      ensures ok ==> StmtDone(s, Result(Constant(Undefined), false)) && count == old(count)
      ensures count >= old(count)
      ensures code == old(code) || fresh(code)
      decreases s, 1, 0
    {
      hide HolesOk, StmtImpl, ExprImpl, Has, SwitchParts, Without, Patched;
      ghost var c0, h0, scopes := words, holes, Scopes(blocks);
      HolesBelow(words, blocks, holes);
      var t;
      ok, t := GenDiscriminant(s.disc);
      if !ok {
        return;
      }
      ghost var c1 := words;
      StartBlock(SwitchKind, s.name);
      ghost var tests, bodies;
      ok, tests, bodies := GenClauses(s.clauses, t);
      if !ok {
        return;
      }
      ghost var c2, h2, b := words, holes, blocks[|blocks| - 1];
      InnermostLists(words, blocks, holes);
      assert Scopes(blocks)[|blocks| - 1] == Scope(SwitchKind, s.name);
      PatchExit();
      SwitchJoin(m, c0, h0, c1, c2, b, h2, words, scopes, s, t, tests, bodies);
      assert Scopes(blocks) == scopes;
    }

    // The tests and the jump taken when all fail.
    method GenHead(c: Clauses, t: nat) returns (ok: bool, patches: seq<nat>, jump: nat, ghost tests: seq<TestSpot>)
      requires Consistent() && InUse({t}) && count <= MAX_DEPTH + 1
      modifies this, code
      ensures ok <==> old(count) + TestsDepth(c) <= MAX_DEPTH + 1
      ensures ok ==> Grown() && blocks == old(blocks) && holes == old(holes) && count == old(count)
      ensures ok ==> |tests| == ClauseCount(c) + 1 && tests[0].lo == old(end) && tests[|tests| - 1].lo == jump
      ensures ok ==> end == jump + 2 && old(end) <= jump
      ensures ok ==> BodiesState(m, words, holes, Scopes(blocks), c, 0, t, tests, [end], old(end))
      ensures ok ==> PatchesOf(c, ClauseCount(c), tests, patches)
      ensures count >= old(count)
      ensures code == old(code) || fresh(code)
    {
      hide HolesOk, TestsAt, PatchesOf, BodiesState;
      ghost var lo := end;
      HolesBelow(words, blocks, holes);
      ok, patches, tests := GenTests(c, t);
      jump := end;
      if !ok {
        return;
      }
      ghost var c1 := words;
      Release(Result(Temporary(t), true));
      JumpAhead(1);
      TestsMove(m, c1, words, c, ClauseCount(c), 0, tests, [], t, lo, jump);
      BodiesStart(m, words, holes, Scopes(blocks), c, t, tests, lo);
    }

    // The tests, the jump and the bodies.
    method GenClauses(c: Clauses, t: nat) returns (ok: bool, ghost tests: seq<TestSpot>, ghost bodies: seq<nat>)
      requires Consistent() && blocks != [] && InUse({t}) && count <= MAX_DEPTH + 1
      modifies this, code
      ensures ok <==> && old(count) + Max(TestsDepth(c), BodiesDepth(c)) <= MAX_DEPTH + 1
                      && WellLabelledClauses(c, Scopes(old(blocks)))
      ensures ok ==> Consistent() && next >= old(next) && Scopes(blocks) == Scopes(old(blocks)) && count == old(count)
      ensures ok ==> |tests| == |bodies| == ClauseCount(c) + 1
      ensures ok ==> SwitchParts(m, words, holes, Scopes(blocks), c, t, tests, bodies, old(end))
      ensures ok ==> MoreHoles(old(holes), holes, bodies[0]) && old(words) <= words
      ensures count >= old(count)
      ensures code == old(code) || fresh(code)
      decreases c, 4
    {
      hide HolesOk, TestsAt, BodiesAt, BodiesState, PatchesOf;
      ghost var lo := end;
      ghost var c0 := words;
      var patches, jump;
      bodies := [];
      ok, patches, jump, tests := GenHead(c, t);
      if !ok {
        return;
      }
      ok, bodies := GenBodies(c, patches, jump, t, tests, lo);
      assert ok ==> c0 <= words;
    }

    // The code of a script: its statements, then the stop instruction.
    method GenProgram(p: Program) returns (ok: bool)
      requires Consistent() && words == [] && blocks == [] && holes == map[] && count <= MAX_DEPTH
      modifies this, code
      ensures ok <==> && old(count) + ProgramDepth(p) <= MAX_DEPTH + 1
                      && WellLabelled(p.chain, []) && WellLabelled(p.last, [])
      ensures ok ==> Buffer() && ScriptOk(m, words, p) && ScriptLaid(m, words, p)
      ensures code == old(code) || fresh(code)
    {
      hide HolesOk, StmtImpl, ExprImpl, Has, ScriptOk, Decode, Encode, NoDuplicates, ScriptLaid;
      count := count + 1;
      var r;
      ok, r := GenStmt(p.chain);
      if !ok {
        return;
      }
      ghost var c1 := words;
      NoHoles(words, blocks, holes);
      Release(r);
      ok, r := GenStmt(p.last);
      if !ok {
        return;
      }
      NoHoles(words, blocks, holes);
      GenStop(p, r, c1);
      count := count - 1;
    }

    // The last node is not released before its value is returned.
    method GenStop(p: Program, r: Result, ghost c1: seq<Word>)
      requires Buffer() && c1 <= words && StmtImpl(m, c1, map[], [], 0, |c1|, p.chain)
      requires StmtImpl(m, words, map[], [], |c1|, end, p.last)
      requires p.last.Expression? ==> ExprImpl(m, words, |c1|, end, p.last.e, r.index, None, {})
      modifies this`code, this`size, this`end, this`words, code
      ensures Buffer() && ScriptOk(m, words, p) && ScriptLaid(m, words, p)
      ensures code == old(code) || fresh(code)
    {
      hide StmtImpl, ExprImpl, Has, ScriptOk, ScriptLaid;
      ghost var c2 := words;
      Emit(IStop(if p.last.Expression? then r.index else Constant(Undefined)));
      ScriptJoin(m, c1, c2, words, p, r.index);
    }
  }

  // Compilation: it fails exactly when the tree is too deep or a jump has no
  // block to leave or continue.  The code it makes halts exactly as the script
  // as written does, with the same value and the same variables, and if all left
  // operands are kept, exactly as the language has it; its breaks and continues
  // lead where they belong.
  method Compile(p: Program, ghost m: Machine) returns (ok: bool, code: seq<Word>)
    ensures ok <==> ProgramDepth(p) <= MAX_DEPTH + 1 && WellLabelled(p.chain, []) && WellLabelled(p.last, [])
    ensures ok ==> ScriptOk(AsWritten(m), code, p) && ScriptLaid(AsWritten(m), code, p)
    ensures ok && SafeProgram(p) ==> ScriptOk(m, code, p)
  {
    hide ScriptOk, ScriptLaid;
    var g := new CodeGenerator(AsWritten(m));
    ok := g.GenProgram(p);
    code := if ok then g.code[..g.end] else [];
    if ok && SafeProgram(p) {
      SafeScript(AsWritten(m), m.keeps, code, p);
    }
  }

  // The code made of a + (a = 5) halts with the value the language has.
  method CompileSaved() returns (code: seq<Word>)
    ensures var f := Frame(map["a" := Number(1)], map[]);
            && (exists st :: Halts(Adder(), code, State(0, f), Number(6), st))
            && (forall v, st :: Halts(Adder(), code, State(0, f), v, st) ==> v == Number(6))
  {
    var ok;
    ok, code := Compile(Only(Saved()), Adder());
    SavedName(code, Saved());
  }

  // The code made of a + a++ halts with 1 where the language has 0.
  method CompileIncrement() returns (code: seq<Word>)
    ensures var f := Frame(map["a" := Number(0)], map[]);
            && Evaluate(AsMeant(Adder()), Increment(), f.vars).value == Number(0)
            && (exists st :: Halts(Adder(), code, State(0, f), Number(1), st))
            && (forall st :: !Halts(Adder(), code, State(0, f), Number(0), st))
  {
    var ok;
    ok, code := Compile(Only(Increment()), Adder());
    UnkeptIncrement(code);
  }

  // The code made of (a = b) + (b = 5) halts with 10 where the language has 6.
  method CompileAssignment() returns (code: seq<Word>)
    ensures var f := Frame(map["a" := Number(0), "b" := Number(1)], map[]);
            && Evaluate(AsMeant(Adder()), Assignment(), f.vars).value == Number(6)
            && (exists st :: Halts(Adder(), code, State(0, f), Number(10), st))
            && (forall st :: !Halts(Adder(), code, State(0, f), Number(6), st))
  {
    var ok;
    ok, code := Compile(Only(Assignment()), Adder());
    UnkeptAssignment(code);
  }
}
