// Code under construction: jump fields still to be patched are holes, each
// belonging to an open block.  A node is implemented when every way of filling
// the holes gives code that means the node.
module CodeHoles {
  import opened Wrappers
  import opened Bytecode
  import opened Syntax
  import opened CodeMeaning

  // An exit hole waits for the end of its block, the others for the point
  // where the block continues.
  datatype Hole = Hole(block: nat, isExit: bool)

  predicate Agrees(code: seq<Word>, fc: seq<Word>, lo: nat, hi: nat) {
    && lo <= hi <= |code| && hi <= |fc|
    && forall p | lo <= p < hi :: fc[p] == code[p]
  }

  predicate Has(code: seq<Word>, p: nat, i: Instruction) {
    && p + Size(i) <= |code|
    && code[p..p + Size(i)] == Encode(i)
  }

  lemma HasAgrees(code: seq<Word>, fc: seq<Word>, lo: nat, hi: nat, p: nat, i: Instruction)
    requires Has(code, p, i) && Agrees(code, fc, lo, hi)
    requires lo <= p && p + Size(i) <= hi
    ensures Has(fc, p, i) && Decode(fc, p) == Some(i)
  {
    assert fc[p..p + Size(i)] == code[p..p + Size(i)];
    DecodeEncode(fc, p, i);
  }

  lemma HasKeeps(c0: seq<Word>, c1: seq<Word>, p: nat, i: Instruction)
    requires Has(c0, p, i) && c0 <= c1
    ensures Has(c1, p, i)
  {
    HasAgrees(c0, c1, p, p + Size(i), p, i);
  }

  predicate Jumps(i: Instruction) { i.IJump? || i.ICond? || i.IEqual? || i.ITest? }

  // The word of the jump offset within the instruction.
  function Field(i: Instruction): nat
    requires Jumps(i)
  {
    if i.ITest? then 3 else 1
  }

  // From c0 to c1 the instruction at p got the offset off, if anything.
  predicate Retargeted(c0: seq<Word>, c1: seq<Word>, p: nat, i: Instruction, off: int)
    requires Jumps(i)
  {
    var q := p + Size(i);
    && q <= |c0| && q <= |c1|
    && forall k | p <= k < q :: c1[k] == if k == p + Field(i) then Offset(off) else c0[k]
  }

  lemma HasRetargeted(c0: seq<Word>, c1: seq<Word>, p: nat, i: Instruction, off: int)
    requires Jumps(i) && Has(c0, p, i) && Retargeted(c0, c1, p, i, off)
    ensures Has(c1, p, i.(off := off))
  {
    var n := Size(i);
    var j := i.(off := off);
    forall k | 0 <= k < n ensures c1[p..p + n][k] == Encode(j)[k] {
      assert c0[p..p + n][k] == Encode(i)[k];
    }
    assert c1[p..p + n] == Encode(j);
  }

  // ----- expressions -----

  ghost predicate ExprImpl(m: Machine, code: seq<Word>, lo: nat, hi: nat, e: Expr, r: Index, dest: Option<Index>,
                           live: set<nat>)
  {
    forall fc | Agrees(code, fc, lo, hi) :: ExprOk(m, fc, lo, hi, e, r, dest, live)
  }

  lemma ExprMoves(m: Machine, c1: seq<Word>, c2: seq<Word>, lo: nat, hi: nat, e: Expr, r: Index, dest: Option<Index>,
                  live: set<nat>)
    requires ExprImpl(m, c1, lo, hi, e, r, dest, live) && Agrees(c1, c2, lo, hi)
    ensures ExprImpl(m, c2, lo, hi, e, r, dest, live)
  {
    forall fc | Agrees(c2, fc, lo, hi) ensures ExprOk(m, fc, lo, hi, e, r, dest, live) {
      assert Agrees(c1, fc, lo, hi);
    }
  }

  lemma ExprWeaken(m: Machine, code: seq<Word>, lo: nat, hi: nat, e: Expr, r: Index, dest: Option<Index>,
                   live: set<nat>, less: set<nat>)
    requires ExprImpl(m, code, lo, hi, e, r, dest, live) && less <= live
    ensures ExprImpl(m, code, lo, hi, e, r, dest, less)
  {
    forall fc | Agrees(code, fc, lo, hi) ensures ExprOk(m, fc, lo, hi, e, r, dest, less) {
      forall f ensures ExprAt(m, fc, lo, hi, e, r, dest, less, f) {
        var g := ExprResult(m, fc, lo, hi, e, r, dest, live, f);
        assert Computes(m, e, f, g, r, dest, less);
      }
    }
  }

  lemma LeafImpl(m: Machine, code: seq<Word>, lo: nat, e: Expr, r: Index, dest: Option<Index>, live: set<nat>)
    requires (e.Literal? && r == Constant(e.value)) || (e.Name? && r == Variable(e.name))
    ensures ExprImpl(m, code, lo, lo, e, r, dest, live)
  {
    forall fc | Agrees(code, fc, lo, lo) ensures ExprOk(m, fc, lo, lo, e, r, dest, live) {
      LeafOk(m, fc, lo, e, r, dest, live);
    }
  }

  lemma UnaryImpl(m: Machine, code: seq<Word>, lo: nat, mid: nat, op: nat, a: Expr, ra: Index, dst: Index,
                  dest: Option<Index>, live: set<nat>)
    requires lo <= mid && ExprImpl(m, code, lo, mid, a, ra, None, live)
    requires Has(code, mid, IUnary(op, dst, ra)) && IsDestination(dst, dest, live)
    ensures ExprImpl(m, code, lo, mid + 3, Unary(op, a), dst, dest, live)
  {
    var e, hi := Unary(op, a), mid + 3;
    forall fc | Agrees(code, fc, lo, hi) ensures ExprOk(m, fc, lo, hi, e, dst, dest, live) {
      HasAgrees(code, fc, lo, hi, mid, IUnary(op, dst, ra));
      assert Agrees(code, fc, lo, mid);
      UnaryOk(m, fc, lo, mid, op, a, ra, dst, dest, live);
    }
  }

  // Either nothing was emitted in [p, q), or the move of r to a new temporary s.
  predicate SaveCode(code: seq<Word>, p: nat, q: nat, r: Index, s: Index, live: set<nat>) {
    (q == p && s == r) || (q == p + 3 && Has(code, p, IMove(s, r)) && s.Temporary? && s.n !in live)
  }

  lemma SaveImpl(m: Machine, code: seq<Word>, lo: nat, p: nat, q: nat, a: Expr, r: Index, s: Index, live: set<nat>)
    requires lo <= p && ExprImpl(m, code, lo, p, a, r, None, live) && SaveCode(code, p, q, r, s, live)
    ensures ExprImpl(m, code, lo, q, a, s, None, live)
  {
    forall fc | Agrees(code, fc, lo, q) ensures ExprOk(m, fc, lo, q, a, s, None, live) {
      assert Agrees(code, fc, lo, p);
      if q != p {
        HasAgrees(code, fc, lo, q, p, IMove(s, r));
      }
      SaveOk(m, fc, lo, p, q, a, r, s, live);
    }
  }

  lemma BinaryImpl(m: Machine, code: seq<Word>, lo: nat, mid: nat, end: nat, op: nat, a: Expr, ra: Index, b: Expr,
                   rb: Index, dst: Index, dest: Option<Index>, live: set<nat>)
    requires lo <= mid <= end
    requires ExprImpl(m, code, lo, mid, a, ra, None, live)
    requires ExprImpl(m, code, mid, end, b, rb, None, live + TempOf(ra))
    requires !m.keeps && Reread(a, b) == NameOf(ra)
    requires Has(code, end, IBinary(op, dst, ra, rb)) && IsDestination(dst, dest, live)
    ensures ExprImpl(m, code, lo, end + 4, Binary(op, a, b), dst, dest, live)
  {
    var e, hi := Binary(op, a, b), end + 4;
    forall fc | Agrees(code, fc, lo, hi) ensures ExprOk(m, fc, lo, hi, e, dst, dest, live) {
      HasAgrees(code, fc, lo, hi, end, IBinary(op, dst, ra, rb));
      assert Agrees(code, fc, lo, mid) && Agrees(code, fc, mid, end);
      BinaryOk(m, fc, lo, mid, end, op, a, ra, b, rb, dst, dest, live);
    }
  }

  predicate MoveCode(code: seq<Word>, p: nat, q: nat, r: Index, dst: Index) {
    if r == dst then q == p else q == p + 3 && Has(code, p, IMove(dst, r))
  }

  lemma MoveImpl(m: Machine, code: seq<Word>, lo: nat, p: nat, q: nat, e: Expr, r: Index, dst: Index, live: set<nat>)
    requires lo <= p && ExprImpl(m, code, lo, p, e, r, Some(dst), live)
    requires MoveCode(code, p, q, r, dst) && Writable(dst) && TempOf(dst) !! live
    ensures ExprImpl(m, code, lo, q, e, dst, Some(dst), live)
  {
    forall fc | Agrees(code, fc, lo, q) ensures ExprOk(m, fc, lo, q, e, dst, Some(dst), live) {
      assert Agrees(code, fc, lo, p);
      if r != dst {
        HasAgrees(code, fc, lo, q, p, IMove(dst, r));
      }
      MoveOk(m, fc, lo, p, q, e, r, dst, live);
    }
  }

  lemma ConditionalImpl(m: Machine, code: seq<Word>, lo: nat, test: nat, jump: nat, end: nat, c: Expr, rc: Index,
                        y: Expr, n: Expr, dst: Index, dest: Option<Index>, live: set<nat>)
    requires lo <= test && test + 3 <= jump && jump + 2 <= end
    requires ExprImpl(m, code, lo, test, c, rc, None, live)
    requires Has(code, test, ICond(false, jump + 2 - test, rc))
    requires ExprImpl(m, code, test + 3, jump, y, dst, Some(dst), live)
    requires Has(code, jump, IJump(end - jump))
    requires ExprImpl(m, code, jump + 2, end, n, dst, Some(dst), live)
    requires IsDestination(dst, dest, live)
    ensures ExprImpl(m, code, lo, end, Conditional(c, y, n), dst, dest, live)
  {
    var e := Conditional(c, y, n);
    forall fc | Agrees(code, fc, lo, end) ensures ExprOk(m, fc, lo, end, e, dst, dest, live) {
      HasAgrees(code, fc, lo, end, test, ICond(false, jump + 2 - test, rc));
      HasAgrees(code, fc, lo, end, jump, IJump(end - jump));
      assert Agrees(code, fc, lo, test) && Agrees(code, fc, test + 3, jump) && Agrees(code, fc, jump + 2, end);
      ConditionalOk(m, fc, lo, test, jump, end, c, rc, y, n, dst, dest, live);
    }
  }

  lemma LogicalImpl(m: Machine, code: seq<Word>, lo: nat, test: nat, end: nat, isOr: bool, a: Expr, ra: Index,
                    b: Expr, t: nat, dest: Option<Index>, live: set<nat>)
    requires lo <= test && test + 4 <= end && t !in live
    requires ExprImpl(m, code, lo, test, a, ra, None, live)
    requires Has(code, test, ITest(isOr, Temporary(t), ra, end - test))
    requires ExprImpl(m, code, test + 4, end, b, Temporary(t), Some(Temporary(t)), live)
    ensures ExprImpl(m, code, lo, end, Logical(isOr, a, b), Temporary(t), dest, live)
  {
    var e, r := Logical(isOr, a, b), Temporary(t);
    forall fc | Agrees(code, fc, lo, end) ensures ExprOk(m, fc, lo, end, e, r, dest, live) {
      HasAgrees(code, fc, lo, end, test, ITest(isOr, r, ra, end - test));
      assert Agrees(code, fc, lo, test) && Agrees(code, fc, test + 4, end);
      LogicalOk(m, fc, lo, test, end, isOr, a, ra, b, t, dest, live);
    }
  }

  lemma CommaImpl(m: Machine, code: seq<Word>, lo: nat, mid: nat, end: nat, a: Expr, ra: Index, b: Expr, rb: Index,
                  dest: Option<Index>, live: set<nat>)
    requires lo <= mid <= end
    requires ExprImpl(m, code, lo, mid, a, ra, None, live) && ExprImpl(m, code, mid, end, b, rb, None, live)
    ensures ExprImpl(m, code, lo, end, Comma(a, b), rb, dest, live)
  {
    var e := Comma(a, b);
    forall fc | Agrees(code, fc, lo, end) ensures ExprOk(m, fc, lo, end, e, rb, dest, live) {
      assert Agrees(code, fc, lo, mid) && Agrees(code, fc, mid, end);
      CommaOk(m, fc, lo, mid, end, a, ra, b, rb, dest, live);
    }
  }

  lemma AssignImpl(m: Machine, code: seq<Word>, lo: nat, p: nat, q: nat, x: string, a: Expr, ra: Index,
                   dest: Option<Index>, live: set<nat>)
    requires lo <= p && ExprImpl(m, code, lo, p, a, ra, Some(Variable(x)), live)
    requires MoveCode(code, p, q, ra, Variable(x))
    ensures ExprImpl(m, code, lo, q, Assign(x, a), ra, dest, live)
  {
    var e := Assign(x, a);
    forall fc | Agrees(code, fc, lo, q) ensures ExprOk(m, fc, lo, q, e, ra, dest, live) {
      assert Agrees(code, fc, lo, p);
      if ra != Variable(x) {
        HasAgrees(code, fc, lo, q, p, IMove(Variable(x), ra));
      }
      AssignOk(m, fc, lo, p, q, x, a, ra, dest, live);
    }
  }

  lemma OpAssignImpl(m: Machine, code: seq<Word>, lo: nat, mid: nat, end: nat, op: nat, x: string, s: Index, a: Expr,
                     ra: Index, dest: Option<Index>, live: set<nat>)
    requires lo <= mid <= end
    requires ExprImpl(m, code, lo, mid, Name(x), s, None, live)
    requires ExprImpl(m, code, mid, end, a, ra, None, live + TempOf(s))
    requires !m.keeps && Reread(Name(x), a) == NameOf(s)
    requires Has(code, end, IBinary(op, Variable(x), s, ra))
    ensures ExprImpl(m, code, lo, end + 4, OpAssign(op, x, a), Variable(x), dest, live)
  {
    var e, hi, r := OpAssign(op, x, a), end + 4, Variable(x);
    forall fc | Agrees(code, fc, lo, hi) ensures ExprOk(m, fc, lo, hi, e, r, dest, live) {
      HasAgrees(code, fc, lo, hi, end, IBinary(op, r, s, ra));
      assert Agrees(code, fc, lo, mid) && Agrees(code, fc, mid, end);
      OpAssignOk(m, fc, lo, mid, end, op, x, s, a, ra, dest, live);
    }
  }

  lemma CountImpl(m: Machine, code: seq<Word>, lo: nat, decrement: bool, post: bool, x: string, dst: Index,
                  dest: Option<Index>, live: set<nat>)
    requires Has(code, lo, ICount(decrement, post, dst, Variable(x), Variable(x)))
    requires IsDestination(dst, dest, live)
    ensures ExprImpl(m, code, lo, lo + 4, Count(decrement, post, x), dst, dest, live)
  {
    var e, hi := Count(decrement, post, x), lo + 4;
    forall fc | Agrees(code, fc, lo, hi) ensures ExprOk(m, fc, lo, hi, e, dst, dest, live) {
      HasAgrees(code, fc, lo, hi, lo, ICount(decrement, post, dst, Variable(x), Variable(x)));
      CountOk(m, fc, lo, decrement, post, x, dst, dest, live);
    }
  }

  // ----- statements -----

  function HoleTarget(h: Hole, env: seq<Target>): int {
    if h.block >= |env| then 0 else if h.isExit then env[h.block].brk else env[h.block].cont
  }

  // fc is the code with the holes of [lo, hi) filled: a jump field holds the
  // distance of its target from the first word of the jump.
  ghost predicate Final(code: seq<Word>, holes: map<nat, Hole>, fc: seq<Word>, env: seq<Target>, lo: nat, hi: nat) {
    && lo <= hi <= |code| && hi <= |fc|
    && forall p | lo <= p < hi ::
         fc[p] == if p in holes then Offset(HoleTarget(holes[p], env) - (p - 1)) else code[p]
  }

  ghost predicate StmtImpl(m: Machine, code: seq<Word>, holes: map<nat, Hole>, scopes: seq<Scope>, lo: nat, hi: nat,
                           s: Stmt)
  {
    forall fc, env: seq<Target> | |env| == |scopes| && Final(code, holes, fc, env, lo, hi) ::
      StmtOk(m, fc, scopes, env, lo, hi, s)
  }

  // No hole in [lo, hi).
  predicate Whole(holes: map<nat, Hole>, lo: nat, hi: nat) {
    forall p | lo <= p < hi :: p !in holes
  }

  // The same words and holes in [lo, hi).
  predicate SameStretch(c1: seq<Word>, h1: map<nat, Hole>, c2: seq<Word>, h2: map<nat, Hole>, lo: nat, hi: nat) {
    && lo <= hi <= |c1| && hi <= |c2|
    && forall p | lo <= p < hi ::
         && (p in h1 <==> p in h2)
         && (if p in h1 then h1[p] == h2[p] else c1[p] == c2[p])
  }

  lemma StmtMoves(m: Machine, c1: seq<Word>, h1: map<nat, Hole>, c2: seq<Word>, h2: map<nat, Hole>,
                  scopes: seq<Scope>, lo: nat, hi: nat, s: Stmt)
    requires StmtImpl(m, c1, h1, scopes, lo, hi, s) && SameStretch(c1, h1, c2, h2, lo, hi)
    ensures StmtImpl(m, c2, h2, scopes, lo, hi, s)
  {
    forall fc, env: seq<Target> | |env| == |scopes| && Final(c2, h2, fc, env, lo, hi)
      ensures StmtOk(m, fc, scopes, env, lo, hi, s)
    {
      assert Final(c1, h1, fc, env, lo, hi);
    }
  }

  // In [lo, hi), c2 and h2 come from c1 and h1 by filling the holes of block k as t says.
  predicate ClosedBlock(c1: seq<Word>, h1: map<nat, Hole>, c2: seq<Word>, h2: map<nat, Hole>, k: nat, t: Target,
                        lo: nat, hi: nat)
  {
    && lo <= hi <= |c1| && hi <= |c2|
    && forall p | lo <= p < hi ::
         if p in h1 && h1[p].block == k then
           && p !in h2
           && c2[p] == Offset((if h1[p].isExit then t.brk else t.cont) - (p - 1))
         else
           && (p in h1 <==> p in h2)
           && (if p in h1 then h1[p] == h2[p] && h1[p].block < k else c1[p] == c2[p])
  }

  lemma ClosedFinal(c1: seq<Word>, h1: map<nat, Hole>, c2: seq<Word>, h2: map<nat, Hole>, k: nat, t: Target,
                    fc: seq<Word>, env: seq<Target>, lo: nat, hi: nat)
    requires |env| == k && ClosedBlock(c1, h1, c2, h2, k, t, lo, hi) && Final(c2, h2, fc, env, lo, hi)
    ensures Final(c1, h1, fc, env + [t], lo, hi)
  {
  }

  lemma FinalPart(code: seq<Word>, holes: map<nat, Hole>, fc: seq<Word>, env: seq<Target>, lo: nat, hi: nat,
                  a: nat, b: nat)
    requires Final(code, holes, fc, env, lo, hi) && lo <= a <= b <= hi
    ensures Final(code, holes, fc, env, a, b)
    ensures Whole(holes, a, b) ==> Agrees(code, fc, a, b)
  {
  }

  lemma FinalHas(code: seq<Word>, holes: map<nat, Hole>, fc: seq<Word>, env: seq<Target>, lo: nat, hi: nat,
                 p: nat, i: Instruction)
    requires Final(code, holes, fc, env, lo, hi)
    requires Has(code, p, i) && lo <= p && p + Size(i) <= hi && Whole(holes, p, p + Size(i))
    ensures Decode(fc, p) == Some(i)
  {
    var q := p + Size(i);
    FinalPart(code, holes, fc, env, lo, hi, p, q);
    HasAgrees(code, fc, p, q, p, i);
  }

  lemma EmptyImpl(m: Machine, code: seq<Word>, holes: map<nat, Hole>, scopes: seq<Scope>, lo: nat)
    ensures StmtImpl(m, code, holes, scopes, lo, lo, Empty)
  {
    forall fc, env: seq<Target> | |env| == |scopes| && Final(code, holes, fc, env, lo, lo)
      ensures StmtOk(m, fc, scopes, env, lo, lo, Empty)
    {
      EmptyOk(m, fc, scopes, env, lo);
    }
  }

  lemma ExpressionImpl(m: Machine, code: seq<Word>, holes: map<nat, Hole>, scopes: seq<Scope>, lo: nat, hi: nat,
                       e: Expr, r: Index)
    requires ExprImpl(m, code, lo, hi, e, r, None, {}) && Whole(holes, lo, hi)
    ensures StmtImpl(m, code, holes, scopes, lo, hi, Expression(e))
  {
    forall fc, env: seq<Target> | |env| == |scopes| && Final(code, holes, fc, env, lo, hi)
      ensures StmtOk(m, fc, scopes, env, lo, hi, Expression(e))
    {
      FinalPart(code, holes, fc, env, lo, hi, lo, hi);
      ExpressionOk(m, fc, scopes, env, lo, hi, e, r);
    }
  }

  lemma SequenceImpl(m: Machine, code: seq<Word>, holes: map<nat, Hole>, scopes: seq<Scope>, lo: nat, mid: nat,
                     hi: nat, a: Stmt, b: Stmt)
    requires lo <= mid <= hi
    requires StmtImpl(m, code, holes, scopes, lo, mid, a) && StmtImpl(m, code, holes, scopes, mid, hi, b)
    ensures StmtImpl(m, code, holes, scopes, lo, hi, Sequence(a, b))
  {
    var s := Sequence(a, b);
    forall fc, env: seq<Target> | |env| == |scopes| && Final(code, holes, fc, env, lo, hi)
      ensures StmtOk(m, fc, scopes, env, lo, hi, s)
    {
      FinalPart(code, holes, fc, env, lo, hi, lo, mid);
      FinalPart(code, holes, fc, env, lo, hi, mid, hi);
      SequenceOk(m, fc, scopes, env, lo, mid, hi, a, b);
    }
  }

  // c1 and h1 are the code and holes when the body was finished, c2 and h2 when the block was closed.
  lemma BlockImpl(m: Machine, c1: seq<Word>, h1: map<nat, Hole>, c2: seq<Word>, h2: map<nat, Hole>,
                  scopes: seq<Scope>, lo: nat, hi: nat, name: string, body: Stmt, t: Target)
    requires t == Target(hi, hi) && ClosedBlock(c1, h1, c2, h2, |scopes|, t, lo, hi)
    requires StmtImpl(m, c1, h1, scopes + [Scope(BlockKind, name)], lo, hi, body)
    ensures StmtImpl(m, c2, h2, scopes, lo, hi, Block(name, body))
  {
    var s := Block(name, body);
    forall fc, env: seq<Target> | |env| == |scopes| && Final(c2, h2, fc, env, lo, hi)
      ensures StmtOk(m, fc, scopes, env, lo, hi, s)
    {
      ClosedFinal(c1, h1, c2, h2, |scopes|, t, fc, env, lo, hi);
      BlockOk(m, fc, scopes, env, lo, hi, name, body, t);
    }
  }

  lemma IfImpl(m: Machine, code: seq<Word>, holes: map<nat, Hole>, scopes: seq<Scope>, lo: nat, test: nat, hi: nat,
               c: Expr, rc: Index, y: Stmt)
    requires lo <= test && test + 3 <= hi && Whole(holes, lo, test + 3)
    requires ExprImpl(m, code, lo, test, c, rc, None, {}) && Has(code, test, ICond(false, hi - test, rc))
    requires StmtImpl(m, code, holes, scopes, test + 3, hi, y)
    ensures StmtImpl(m, code, holes, scopes, lo, hi, If(c, y))
  {
    var s := If(c, y);
    forall fc, env: seq<Target> | |env| == |scopes| && Final(code, holes, fc, env, lo, hi)
      ensures StmtOk(m, fc, scopes, env, lo, hi, s)
    {
      FinalPart(code, holes, fc, env, lo, hi, lo, test);
      FinalHas(code, holes, fc, env, lo, hi, test, ICond(false, hi - test, rc));
      FinalPart(code, holes, fc, env, lo, hi, test + 3, hi);
      IfOk(m, fc, scopes, env, lo, test, hi, c, rc, y);
    }
  }

  lemma IfElseImpl(m: Machine, code: seq<Word>, holes: map<nat, Hole>, scopes: seq<Scope>, lo: nat, test: nat,
                   jump: nat, hi: nat, c: Expr, rc: Index, y: Stmt, n: Stmt)
    requires lo <= test && test + 3 <= jump && jump + 2 <= hi
    requires Whole(holes, lo, test + 3) && Whole(holes, jump, jump + 2)
    requires ExprImpl(m, code, lo, test, c, rc, None, {}) && Has(code, test, ICond(false, jump + 2 - test, rc))
    requires StmtImpl(m, code, holes, scopes, test + 3, jump, y)
    requires Has(code, jump, IJump(hi - jump))
    requires StmtImpl(m, code, holes, scopes, jump + 2, hi, n)
    ensures StmtImpl(m, code, holes, scopes, lo, hi, IfElse(c, y, n))
  {
    var s := IfElse(c, y, n);
    forall fc, env: seq<Target> | |env| == |scopes| && Final(code, holes, fc, env, lo, hi)
      ensures StmtOk(m, fc, scopes, env, lo, hi, s)
    {
      FinalPart(code, holes, fc, env, lo, hi, lo, test);
      FinalHas(code, holes, fc, env, lo, hi, test, ICond(false, jump + 2 - test, rc));
      FinalPart(code, holes, fc, env, lo, hi, test + 3, jump);
      FinalHas(code, holes, fc, env, lo, hi, jump, IJump(hi - jump));
      FinalPart(code, holes, fc, env, lo, hi, jump + 2, hi);
      IfElseOk(m, fc, scopes, env, lo, test, jump, hi, c, rc, y, n);
    }
  }

  // The block a break or continue statement belongs to.
  function JumpBlock(s: Stmt, scopes: seq<Scope>): Option<nat>
    requires s.Break? || s.Continue?
  {
    FindBlock(scopes, if s.Break? then BreakMask(s.target) else CONTINUE_MASK, s.target)
  }

  lemma JumpImpl(m: Machine, code: seq<Word>, holes: map<nat, Hole>, scopes: seq<Scope>, lo: nat, s: Stmt)
    requires s.Break? || s.Continue?
    requires Has(code, lo, IJump(1)) && JumpBlock(s, scopes).Some?
    requires lo !in holes && lo + 1 in holes && holes[lo + 1] == Hole(JumpBlock(s, scopes).value, s.Break?)
    ensures StmtImpl(m, code, holes, scopes, lo, lo + 2, s)
  {
    var hi := lo + 2;
    forall fc, env: seq<Target> | |env| == |scopes| && Final(code, holes, fc, env, lo, hi)
      ensures StmtOk(m, fc, scopes, env, lo, hi, s)
    {
      var d := Destination(JumpOutcome(s), scopes, env, hi).value;
      assert code[lo..lo + 2][0] == Opcode(Jump);
      assert fc[lo] == Opcode(Jump) && fc[lo + 1] == Offset(d - lo);
      assert fc[lo..lo + 2] == Encode(IJump(d - lo));
      DecodeEncode(fc, lo, IJump(d - lo));
      JumpOk(m, fc, scopes, env, lo, hi, s);
    }
  }

  // The code of a loop whose block has been closed; c1 and h1 are from the time
  // the body was finished.
  ghost predicate LoopImpl(m: Machine, c1: seq<Word>, h1: map<nat, Hole>, code: seq<Word>, holes: map<nat, Hole>,
                           scopes: seq<Scope>, s: Stmt, p: LoopShape)
    requires IsLoop(s)
  {
    && p.body <= p.cont <= p.test && Whole(holes, p.cont, p.end)
    && ClosedBlock(c1, h1, code, holes, |scopes|, Target(p.end, p.cont), p.body, p.cont)
    && StmtImpl(m, c1, h1, scopes + [Scope(LoopKind, s.name)], p.body, p.cont, s.body)
    && (match LoopUpdate(s)
        case None => p.test == p.cont
        case Some(u) => ExprImpl(m, code, p.cont, p.test, u, p.ru, None, {}))
    && (match LoopTest(s)
        case None => p.end == p.test + 2 && Has(code, p.test, IJump(p.body - p.test))
        case Some(c) =>
          && p.test <= p.back && p.end == p.back + 3
          && ExprImpl(m, code, p.test, p.back, c, p.rc, None, {})
          && Has(code, p.back, ICond(true, p.body - p.back, p.rc)))
  }

  lemma LoopFinal(m: Machine, c1: seq<Word>, h1: map<nat, Hole>, code: seq<Word>, holes: map<nat, Hole>,
                  scopes: seq<Scope>, s: Stmt, p: LoopShape, fc: seq<Word>, env: seq<Target>)
    requires IsLoop(s) && LoopImpl(m, c1, h1, code, holes, scopes, s, p)
    requires |env| == |scopes| && Final(code, holes, fc, env, p.body, p.end)
    ensures LoopCode(m, fc, scopes, env, s, p, false)
  {
    var t := Target(p.end, p.cont);
    FinalPart(code, holes, fc, env, p.body, p.end, p.body, p.cont);
    ClosedFinal(c1, h1, code, holes, |scopes|, t, fc, env, p.body, p.cont);
    FinalPart(code, holes, fc, env, p.body, p.end, p.cont, p.test);
    if LoopTest(s).None? {
      FinalHas(code, holes, fc, env, p.body, p.end, p.test, IJump(p.body - p.test));
    } else {
      FinalPart(code, holes, fc, env, p.body, p.end, p.test, p.back);
      FinalHas(code, holes, fc, env, p.body, p.end, p.back, ICond(true, p.body - p.back, p.rc));
    }
  }

  lemma WhileImpl(m: Machine, c1: seq<Word>, h1: map<nat, Hole>, code: seq<Word>, holes: map<nat, Hole>,
                  scopes: seq<Scope>, lo: nat, s: Stmt, p: LoopShape)
    requires s.While? && LoopImpl(m, c1, h1, code, holes, scopes, s, p)
    requires Has(code, lo, IJump(p.test - lo)) && p.body == lo + 2 && Whole(holes, lo, p.body)
    ensures StmtImpl(m, code, holes, scopes, lo, p.end, s)
  {
    forall fc, env: seq<Target> | |env| == |scopes| && Final(code, holes, fc, env, lo, p.end)
      ensures StmtOk(m, fc, scopes, env, lo, p.end, s)
    {
      FinalHas(code, holes, fc, env, lo, p.end, lo, IJump(p.test - lo));
      FinalPart(code, holes, fc, env, lo, p.end, p.body, p.end);
      LoopFinal(m, c1, h1, code, holes, scopes, s, p, fc, env);
      WhileOk(m, fc, scopes, env, lo, s, p);
    }
  }

  lemma DoWhileImpl(m: Machine, c1: seq<Word>, h1: map<nat, Hole>, code: seq<Word>, holes: map<nat, Hole>,
                    scopes: seq<Scope>, s: Stmt, p: LoopShape)
    requires s.DoWhile? && LoopImpl(m, c1, h1, code, holes, scopes, s, p)
    ensures StmtImpl(m, code, holes, scopes, p.body, p.end, s)
  {
    forall fc, env: seq<Target> | |env| == |scopes| && Final(code, holes, fc, env, p.body, p.end)
      ensures StmtOk(m, fc, scopes, env, p.body, p.end, s)
    {
      LoopFinal(m, c1, h1, code, holes, scopes, s, p, fc, env);
      DoWhileOk(m, fc, scopes, env, s, p);
    }
  }

  lemma ForImpl(m: Machine, c1: seq<Word>, h1: map<nat, Hole>, code: seq<Word>, holes: map<nat, Hole>,
                scopes: seq<Scope>, lo: nat, mid: nat, s: Stmt, ri: Index, p: LoopShape)
    requires s.For? && LoopImpl(m, c1, h1, code, holes, scopes, s, p)
    requires lo <= mid <= p.body && Whole(holes, lo, p.body)
    requires match s.init
             case None => mid == lo
             case Some(i) => ExprImpl(m, code, lo, mid, i, ri, None, {})
    requires if s.test.Some? then p.body == mid + 2 && Has(code, mid, IJump(p.test - mid)) else p.body == mid
    ensures StmtImpl(m, code, holes, scopes, lo, p.end, s)
  {
    forall fc, env: seq<Target> | |env| == |scopes| && Final(code, holes, fc, env, lo, p.end)
      ensures StmtOk(m, fc, scopes, env, lo, p.end, s)
    {
      FinalPart(code, holes, fc, env, lo, p.end, lo, mid);
      FinalPart(code, holes, fc, env, lo, p.end, p.body, p.end);
      if s.test.Some? {
        FinalHas(code, holes, fc, env, lo, p.end, mid, IJump(p.test - mid));
      }
      LoopFinal(m, c1, h1, code, holes, scopes, s, p, fc, env);
      ForOk(m, fc, scopes, env, lo, mid, s, ri, p);
    }
  }

  // ----- switch -----

  // The tests of the clauses numbered from i on, as CodeMeaning.TestsCode states them.
  ghost predicate TestsImpl(m: Machine, code: seq<Word>, c: Clauses, i: nat, tests: seq<TestSpot>, bodies: seq<nat>,
                            t: nat, lo: nat, hi: nat)
    requires |tests| == |bodies| == i + ClauseCount(c) + 1
    decreases c
  {
    match c
    case NoClauses => true
    case Default(_, next) =>
      tests[i + 1].lo == tests[i].lo && TestsImpl(m, code, next, i + 1, tests, bodies, t, lo, hi)
    case Case(e, _, next) =>
      && lo <= tests[i].lo <= tests[i].hi && tests[i].hi + 4 <= hi
      && ExprImpl(m, code, tests[i].lo, tests[i].hi, e, tests[i].r, None, {t})
      && Has(code, tests[i].hi, IEqual(bodies[i] - tests[i].hi, Temporary(t), tests[i].r))
      && tests[i + 1].lo == tests[i].hi + 4
      && TestsImpl(m, code, next, i + 1, tests, bodies, t, lo, hi)
  }

  lemma {:induction false} TestsFinal(m: Machine, code: seq<Word>, c: Clauses, i: nat, tests: seq<TestSpot>,
                                      bodies: seq<nat>, t: nat, lo: nat, hi: nat, fc: seq<Word>)
    requires |tests| == |bodies| == i + ClauseCount(c) + 1
    requires TestsImpl(m, code, c, i, tests, bodies, t, lo, hi) && Agrees(code, fc, lo, hi)
    ensures TestsCode(m, fc, c, i, tests, bodies, t)
    decreases c
  {
    if c.Case? {
      var p := tests[i];
      assert Agrees(code, fc, p.lo, p.hi);
      HasAgrees(code, fc, lo, hi, p.hi, IEqual(bodies[i] - p.hi, Temporary(t), p.r));
    }
    if !c.NoClauses? {
      TestsFinal(m, code, c.next, i + 1, tests, bodies, t, lo, hi, fc);
    }
  }

  // The bodies of the clauses numbered from i on.
  ghost predicate BodiesImpl(m: Machine, code: seq<Word>, holes: map<nat, Hole>, scopes: seq<Scope>, c: Clauses,
                             i: nat, bodies: seq<nat>)
    requires |bodies| == i + ClauseCount(c) + 1
    decreases c
  {
    c.NoClauses?
    || (&& bodies[i] <= bodies[i + 1] <= bodies[|bodies| - 1]
        && StmtImpl(m, code, holes, scopes, bodies[i], bodies[i + 1], c.body)
        && BodiesImpl(m, code, holes, scopes, c.next, i + 1, bodies))
  }

  lemma {:induction false} BodiesFinal(m: Machine, code: seq<Word>, holes: map<nat, Hole>, scopes: seq<Scope>,
                                       c: Clauses, i: nat, bodies: seq<nat>, fc: seq<Word>, env: seq<Target>)
    requires |bodies| == i + ClauseCount(c) + 1 && |env| == |scopes|
    requires BodiesImpl(m, code, holes, scopes, c, i, bodies)
    requires Final(code, holes, fc, env, bodies[i], bodies[|bodies| - 1])
    ensures BodiesCode(m, fc, scopes, env, c, i, bodies, false)
    decreases c
  {
    if !c.NoClauses? {
      var end := bodies[|bodies| - 1];
      FinalPart(code, holes, fc, env, bodies[i], end, bodies[i], bodies[i + 1]);
      FinalPart(code, holes, fc, env, bodies[i], end, bodies[i + 1], end);
      BodiesFinal(m, code, holes, scopes, c.next, i + 1, bodies, fc, env);
    }
  }

  // Everything before the first body of a switch.
  ghost predicate SwitchHead(m: Machine, code: seq<Word>, holes: map<nat, Hole>, lo: nat, s: Stmt, t: nat,
                             tests: seq<TestSpot>, bodies: seq<nat>)
    requires s.Switch? && |tests| == |bodies| == ClauseCount(s.clauses) + 1
  {
    var j := tests[|tests| - 1].lo;
    && lo <= tests[0].lo <= j && j + 2 == bodies[0] && Whole(holes, lo, bodies[0])
    && ExprImpl(m, code, lo, tests[0].lo, s.disc, Temporary(t), None, {})
    && TestsImpl(m, code, s.clauses, 0, tests, bodies, t, lo, j)
    && Has(code, j, IJump(bodies[DefaultIndex(s.clauses)] - j))
  }

  lemma SwitchHeadFinal(m: Machine, code: seq<Word>, holes: map<nat, Hole>, lo: nat, hi: nat, s: Stmt, t: nat,
                        tests: seq<TestSpot>, bodies: seq<nat>, fc: seq<Word>, env: seq<Target>)
    requires s.Switch? && |tests| == |bodies| == ClauseCount(s.clauses) + 1
    requires SwitchHead(m, code, holes, lo, s, t, tests, bodies)
    requires bodies[0] <= hi && Final(code, holes, fc, env, lo, hi)
    ensures SwitchCode(m, fc, lo, s, t, tests, bodies)
  {
    var j := tests[|tests| - 1].lo;
    FinalPart(code, holes, fc, env, lo, hi, lo, tests[0].lo);
    FinalPart(code, holes, fc, env, lo, hi, lo, j);
    var off: int := (bodies[DefaultIndex(s.clauses)] as int) - j;
    FinalHas(code, holes, fc, env, lo, hi, j, IJump(off));
    TestsFinal(m, code, s.clauses, 0, tests, bodies, t, lo, j, fc);
  }

  lemma SwitchImpl(m: Machine, c1: seq<Word>, h1: map<nat, Hole>, code: seq<Word>, holes: map<nat, Hole>,
                   scopes: seq<Scope>, lo: nat, s: Stmt, t: nat, tests: seq<TestSpot>, bodies: seq<nat>, target: Target)
    requires s.Switch? && |tests| == |bodies| == ClauseCount(s.clauses) + 1
    requires SwitchHead(m, code, holes, lo, s, t, tests, bodies)
    requires bodies[0] <= bodies[|bodies| - 1] && target == Target(bodies[|bodies| - 1], bodies[|bodies| - 1])
    requires ClosedBlock(c1, h1, code, holes, |scopes|, target, bodies[0], bodies[|bodies| - 1])
    requires BodiesImpl(m, c1, h1, scopes + [Scope(SwitchKind, s.name)], s.clauses, 0, bodies)
    ensures StmtImpl(m, code, holes, scopes, lo, bodies[|bodies| - 1], s)
  {
    var hi := bodies[|bodies| - 1];
    var inner := scopes + [Scope(SwitchKind, s.name)];
    forall fc, env: seq<Target> | |env| == |scopes| && Final(code, holes, fc, env, lo, hi)
      ensures StmtOk(m, fc, scopes, env, lo, hi, s)
    {
      SwitchHeadFinal(m, code, holes, lo, hi, s, t, tests, bodies, fc, env);
      FinalPart(code, holes, fc, env, lo, hi, bodies[0], hi);
      ClosedFinal(c1, h1, code, holes, |scopes|, target, fc, env, bodies[0], hi);
      BodiesFinal(m, c1, h1, inner, s.clauses, 0, bodies, fc, env + [target]);
      SwitchOk(m, fc, scopes, env, lo, s, t, tests, bodies, target);
    }
  }
}
