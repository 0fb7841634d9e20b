// One lemma per construct: the pieces of code the generator has appended, seen
// in the code as it is at the end, make up the whole construct.
module CodeJoins {
  import opened Wrappers
  import opened Bytecode
  import opened Syntax
  import opened CodeMeaning
  import opened CodeHoles
  import opened Patching

  function DestName(dest: Option<Index>): Option<string> {
    if dest.Some? then NameOf(dest.value) else None
  }

  // The busy temporaries but the destination itself.
  function Live(busy: set<nat>, dest: Option<Index>): set<nat> {
    if dest.Some? && dest.value.Temporary? then busy - {dest.value.n} else busy
  }

  function DestTemps(dest: Option<Index>): set<nat> {
    if dest.Some? then TempOf(dest.value) else {}
  }

  // ----- expressions -----

  lemma UnaryJoin(m: Machine, c1: seq<Word>, c: seq<Word>, lo: nat, mid: nat, e: Expr, a: Index, r: Index,
                  dest: Option<Index>, busy: set<nat>)
    requires e.Unary? && lo <= mid == |c1| && c1 <= c
    requires ExprImpl(m, c1, lo, mid, e.operand, a, None, busy)
    requires Has(c, mid, IUnary(e.uop, r, a)) && IsDestination(r, dest, Live(busy, dest))
    ensures ExprImpl(m, c, lo, mid + 3, e, r, dest, Live(busy, dest))
  {
    ExprMoves(m, c1, c, lo, mid, e.operand, a, None, busy);
    ExprWeaken(m, c, lo, mid, e.operand, a, None, busy, Live(busy, dest));
    UnaryImpl(m, c, lo, mid, e.uop, e.operand, a, r, dest, Live(busy, dest));
  }

  lemma BinaryJoin(m: Machine, c1: seq<Word>, c2: seq<Word>, c: seq<Word>, lo: nat, mid: nat, end: nat, e: Expr,
                   s: Index, b: Index, r: Index, dest: Option<Index>, busy: set<nat>)
    requires e.Binary? && lo <= mid == |c1| && mid <= end == |c2| && c1 <= c && c2 <= c
    requires ExprImpl(m, c1, lo, mid, e.left, s, None, busy)
    requires ExprImpl(m, c2, mid, end, e.right, b, None, busy + TempOf(s))
    requires Has(c, end, IBinary(e.bop, r, s, b)) && IsDestination(r, dest, Live(busy, dest))
    requires !m.keeps && Reread(e.left, e.right) == NameOf(s)
    ensures ExprImpl(m, c, lo, end + 4, e, r, dest, Live(busy, dest))
  {
    var live := Live(busy, dest);
    ExprMoves(m, c1, c, lo, mid, e.left, s, None, busy);
    ExprWeaken(m, c, lo, mid, e.left, s, None, busy, live);
    ExprMoves(m, c2, c, mid, end, e.right, b, None, busy + TempOf(s));
    ExprWeaken(m, c, mid, end, e.right, b, None, busy + TempOf(s), live + TempOf(s));
    BinaryImpl(m, c, lo, mid, end, e.bop, e.left, s, e.right, b, r, dest, live);
  }

  // c0, c1, ... is the code at the start and after each step; the last one is
  // patched.
  lemma LogicalJoin(m: Machine, c0: seq<Word>, c1: seq<Word>, c2: seq<Word>, c3: seq<Word>, c: seq<Word>, e: Expr,
                    a: Index, t: nat, dest: Option<Index>, busy: set<nat>, inner: set<nat>)
    requires e.Logical? && c0 <= c1 <= c2 <= c3 && |c2| == |c1| + 4
    requires t !in inner && Live(busy, dest) <= inner
    requires ExprImpl(m, c1, |c0|, |c1|, e.left, a, None, busy)
    requires Has(c2, |c1|, ITest(e.isOr, Temporary(t), a, 0))
    requires ExprImpl(m, c3, |c2|, |c3|, e.right, Temporary(t), Some(Temporary(t)), inner)
    requires c == c3[|c1| + 3 := Offset(|c3| - |c1|)]
    ensures c0 <= c && ExprImpl(m, c, |c0|, |c|, e, Temporary(t), dest, Live(busy, dest))
  {
    var live, r, test := Live(busy, dest), Temporary(t), |c1|;
    HasRetargeted(c2, c, test, ITest(e.isOr, r, a, 0), |c| - test);
    ExprMoves(m, c1, c, |c0|, test, e.left, a, None, busy);
    ExprWeaken(m, c, |c0|, test, e.left, a, None, busy, live);
    ExprMoves(m, c3, c, test + 4, |c3|, e.right, r, Some(r), inner);
    ExprWeaken(m, c, test + 4, |c3|, e.right, r, Some(r), inner, live);
    LogicalImpl(m, c, |c0|, test, |c|, e.isOr, e.left, a, e.right, t, dest, live);
  }

  // The condition, the first branch and the jump over the second one, whose
  // offset is still zero.
  ghost predicate FirstBranch(m: Machine, c: seq<Word>, lo: nat, test: nat, jump: nat, e: Expr, rc: Index, r: Index,
                              live: set<nat>)
    requires e.Conditional?
  {
    && lo <= test && test + 3 <= jump && jump + 2 == |c|
    && ExprImpl(m, c, lo, test, e.cond, rc, None, live)
    && Has(c, test, ICond(false, jump + 2 - test, rc))
    && ExprImpl(m, c, test + 3, jump, e.yes, r, Some(r), live)
    && Has(c, jump, IJump(0))
  }

  lemma FirstBranchJoin(m: Machine, c0: seq<Word>, c1: seq<Word>, c2: seq<Word>, c3: seq<Word>, c: seq<Word>, e: Expr,
                        rc: Index, r: Index, busy: set<nat>, live: set<nat>)
    requires e.Conditional? && c0 <= c1 <= c2 <= c3 && |c2| == |c1| + 3 && |c| == |c3| + 2 && live <= busy
    requires ExprImpl(m, c1, |c0|, |c1|, e.cond, rc, None, busy)
    requires Has(c2, |c1|, ICond(false, 0, rc))
    requires ExprImpl(m, c3, |c2|, |c3|, e.yes, r, Some(r), live)
    requires c3[|c1| + 1 := Offset(|c| - |c1|)] <= c && Has(c, |c3|, IJump(0))
    ensures c0 <= c && FirstBranch(m, c, |c0|, |c1|, |c3|, e, rc, r, live)
  {
    var test, jump := |c1|, |c3|;
    var c4 := c3[|c1| + 1 := Offset(|c| - |c1|)];
    assert forall k | 0 <= k < |c3| :: c[k] == c4[k];
    HasRetargeted(c2, c, test, ICond(false, 0, rc), |c| - test);
    ExprMoves(m, c1, c, |c0|, test, e.cond, rc, None, busy);
    ExprWeaken(m, c, |c0|, test, e.cond, rc, None, busy, live);
    ExprMoves(m, c3, c, test + 3, jump, e.yes, r, Some(r), live);
  }

  lemma ConditionalJoin(m: Machine, c1: seq<Word>, c2: seq<Word>, c: seq<Word>, lo: nat, test: nat, jump: nat,
                        e: Expr, rc: Index, r: Index, dest: Option<Index>, live: set<nat>)
    requires e.Conditional? && c1 <= c2 && FirstBranch(m, c1, lo, test, jump, e, rc, r, live)
    requires ExprImpl(m, c2, |c1|, |c2|, e.no, r, Some(r), live)
    requires c == c2[jump + 1 := Offset(|c2| - jump)]
    requires IsDestination(r, dest, live)
    ensures c1[..lo] <= c && ExprImpl(m, c, lo, |c|, e, r, dest, live)
  {
    HasAgrees(c1, c, test, test + 3, test, ICond(false, jump + 2 - test, rc));
    HasRetargeted(c1, c, jump, IJump(0), |c| - jump);
    ExprMoves(m, c1, c, lo, test, e.cond, rc, None, live);
    ExprMoves(m, c1, c, test + 3, jump, e.yes, r, Some(r), live);
    ExprMoves(m, c2, c, jump + 2, |c|, e.no, r, Some(r), live);
    ConditionalImpl(m, c, lo, test, jump, |c|, e.cond, rc, e.yes, e.no, r, dest, live);
  }

  lemma CommaJoin(m: Machine, c1: seq<Word>, c: seq<Word>, lo: nat, mid: nat, end: nat, e: Expr, a: Index, b: Index,
                  dest: Option<Index>, busy: set<nat>)
    requires e.Comma? && lo <= mid == |c1| && mid <= end && c1 <= c
    requires ExprImpl(m, c1, lo, mid, e.left, a, None, busy) && ExprImpl(m, c, mid, end, e.right, b, None, busy)
    ensures ExprImpl(m, c, lo, end, e, b, dest, Live(busy, dest))
  {
    var live := Live(busy, dest);
    ExprMoves(m, c1, c, lo, mid, e.left, a, None, busy);
    ExprWeaken(m, c, lo, mid, e.left, a, None, busy, live);
    ExprWeaken(m, c, mid, end, e.right, b, None, busy, live);
    CommaImpl(m, c, lo, mid, end, e.left, a, e.right, b, dest, live);
  }

  lemma AssignJoin(m: Machine, c1: seq<Word>, c: seq<Word>, lo: nat, p: nat, end: nat, e: Expr, r: Index,
                   dest: Option<Index>, busy: set<nat>)
    requires e.Assign? && lo <= p == |c1| && c1 <= c
    requires ExprImpl(m, c1, lo, p, e.rhs, r, Some(Variable(e.name)), busy)
    requires MoveCode(c, p, end, r, Variable(e.name))
    ensures ExprImpl(m, c, lo, end, e, r, dest, Live(busy, dest))
  {
    var live, x := Live(busy, dest), Variable(e.name);
    ExprMoves(m, c1, c, lo, p, e.rhs, r, Some(x), busy);
    ExprWeaken(m, c, lo, p, e.rhs, r, Some(x), busy, live);
    AssignImpl(m, c, lo, p, end, e.name, e.rhs, r, dest, live);
  }

  lemma OpAssignJoin(m: Machine, c1: seq<Word>, c2: seq<Word>, c: seq<Word>, lo: nat, mid: nat, end: nat, e: Expr,
                     s: Index, a: Index, dest: Option<Index>, busy: set<nat>)
    requires e.OpAssign? && lo <= mid == |c1| && mid <= end == |c2| && c1 <= c && c2 <= c
    requires ExprImpl(m, c1, lo, mid, Name(e.name), s, None, busy)
    requires ExprImpl(m, c2, mid, end, e.rhs, a, None, busy + TempOf(s))
    requires Has(c, end, IBinary(e.bop, Variable(e.name), s, a))
    requires !m.keeps && Reread(Name(e.name), e.rhs) == NameOf(s)
    ensures ExprImpl(m, c, lo, end + 4, e, Variable(e.name), dest, Live(busy, dest))
  {
    var live := Live(busy, dest);
    ExprMoves(m, c1, c, lo, mid, Name(e.name), s, None, busy);
    ExprWeaken(m, c, lo, mid, Name(e.name), s, None, busy, live);
    ExprMoves(m, c2, c, mid, end, e.rhs, a, None, busy + TempOf(s));
    ExprWeaken(m, c, mid, end, e.rhs, a, None, busy + TempOf(s), live + TempOf(s));
    OpAssignImpl(m, c, lo, mid, end, e.bop, e.name, s, e.rhs, a, dest, live);
  }

  // ----- statements -----

  lemma SequenceJoin(m: Machine, c1: seq<Word>, h1: map<nat, Hole>, c: seq<Word>, h: map<nat, Hole>,
                     scopes: seq<Scope>, lo: nat, s: Stmt)
    requires s.Sequence? && lo <= |c1| && c1 <= c && MoreHoles(h1, h, |c1|)
    requires StmtImpl(m, c1, h1, scopes, lo, |c1|, s.first) && StmtImpl(m, c, h, scopes, |c1|, |c|, s.second)
    ensures StmtImpl(m, c, h, scopes, lo, |c|, s)
  {
    AppendKeeps(c1, h1, c, h, lo, |c1|);
    StmtMoves(m, c1, h1, c, h, scopes, lo, |c1|, s.first);
    SequenceImpl(m, c, h, scopes, lo, |c1|, |c|, s.first, s.second);
  }

  // A condition and the jump over what depends on it, whose offset is still zero.
  ghost predicate CondHead(m: Machine, c: seq<Word>, lo: nat, test: nat, e: Expr, rc: Index) {
    lo <= test && test + 3 == |c| && ExprImpl(m, c, lo, test, e, rc, None, {}) && Has(c, test, ICond(false, 0, rc))
  }

  lemma CondHeadSet(m: Machine, c1: seq<Word>, c: seq<Word>, lo: nat, test: nat, e: Expr, rc: Index, off: int)
    requires CondHead(m, c1, lo, test, e, rc) && |c1| <= |c|
    requires forall p | lo <= p < |c1| :: c[p] == if p == test + 1 then Offset(off) else c1[p]
    ensures ExprImpl(m, c, lo, test, e, rc, None, {}) && Has(c, test, ICond(false, off, rc))
  {
    HasRetargeted(c1, c, test, ICond(false, 0, rc), off);
    ExprMoves(m, c1, c, lo, test, e, rc, None, {});
  }

  lemma IfJoin(m: Machine, c0: seq<Word>, h0: map<nat, Hole>, c1: seq<Word>, c2: seq<Word>, h: map<nat, Hole>,
               c: seq<Word>, scopes: seq<Scope>, s: Stmt, test: nat, rc: Index)
    requires s.If? && c0 <= c1 <= c2 && Below(h0, |c0|) && MoreHoles(h0, h, |c1|)
    requires CondHead(m, c1, |c0|, test, s.cond, rc)
    requires StmtImpl(m, c2, h, scopes, |c1|, |c2|, s.yes)
    requires c == c2[test + 1 := Offset(|c2| - test)]
    ensures c0 <= c && StmtImpl(m, c, h, scopes, |c0|, |c|, s)
  {
    CondHeadSet(m, c1, c, |c0|, test, s.cond, rc, |c| - test);
    StmtMoves(m, c2, h, c, h, scopes, |c1|, |c2|, s.yes);
    IfImpl(m, c, h, scopes, |c0|, test, |c|, s.cond, rc, s.yes);
  }

  // The condition and first branch of an if/else statement, and the jump over
  // the second branch with its offset still zero.
  ghost predicate ThenBranch(m: Machine, c: seq<Word>, h: map<nat, Hole>, scopes: seq<Scope>, lo: nat, test: nat,
                             jump: nat, s: Stmt, rc: Index)
    requires s.IfElse?
  {
    && lo <= test && test + 3 <= jump && jump + 2 == |c|
    && Whole(h, lo, test + 3) && Below(h, jump)
    && ExprImpl(m, c, lo, test, s.cond, rc, None, {})
    && Has(c, test, ICond(false, jump + 2 - test, rc))
    && StmtImpl(m, c, h, scopes, test + 3, jump, s.yes)
    && Has(c, jump, IJump(0))
  }

  lemma ThenJoin(m: Machine, c0: seq<Word>, h0: map<nat, Hole>, c1: seq<Word>, c2: seq<Word>, h: map<nat, Hole>,
                 c: seq<Word>, scopes: seq<Scope>, s: Stmt, test: nat, rc: Index)
    requires s.IfElse? && c0 <= c1 <= c2 && |c| == |c2| + 2
    requires Below(h0, |c0|) && MoreHoles(h0, h, |c1|) && Below(h, |c2|)
    requires CondHead(m, c1, |c0|, test, s.cond, rc)
    requires StmtImpl(m, c2, h, scopes, |c1|, |c2|, s.yes)
    requires c2[test + 1 := Offset(|c| - test)] <= c && Has(c, |c2|, IJump(0))
    ensures c0 <= c && ThenBranch(m, c, h, scopes, |c0|, test, |c2|, s, rc)
  {
    var c3 := c2[test + 1 := Offset(|c| - test)];
    assert forall k | 0 <= k < |c2| :: c[k] == c3[k];
    CondHeadSet(m, c1, c, |c0|, test, s.cond, rc, |c| - test);
    StmtMoves(m, c2, h, c, h, scopes, |c1|, |c2|, s.yes);
  }

  lemma ElseJoin(m: Machine, c0: seq<Word>, c1: seq<Word>, h1: map<nat, Hole>, c2: seq<Word>, h: map<nat, Hole>,
                 c: seq<Word>, scopes: seq<Scope>, lo: nat, test: nat, jump: nat, s: Stmt, rc: Index)
    requires s.IfElse? && c1 <= c2 && MoreHoles(h1, h, |c1|) && ThenBranch(m, c1, h1, scopes, lo, test, jump, s, rc)
    requires StmtImpl(m, c2, h, scopes, |c1|, |c2|, s.no)
    requires c == c2[jump + 1 := Offset(|c2| - jump)] && |c0| == lo && c0 <= c1
    ensures c0 <= c && StmtImpl(m, c, h, scopes, lo, |c|, s)
  {
    HasAgrees(c1, c, test, test + 3, test, ICond(false, jump + 2 - test, rc));
    HasRetargeted(c1, c, jump, IJump(0), |c| - jump);
    ExprMoves(m, c1, c, lo, test, s.cond, rc, None, {});
    StmtMoves(m, c1, h1, c, h, scopes, test + 3, jump, s.yes);
    StmtMoves(m, c2, h, c, h, scopes, jump + 2, |c|, s.no);
    IfElseImpl(m, c, h, scopes, lo, test, jump, |c|, s.cond, rc, s.yes, s.no);
  }

  lemma BlockJoin(m: Machine, c0: seq<Word>, h0: map<nat, Hole>, c1: seq<Word>, b: seq<OpenBlock>, h1: map<nat, Hole>,
                  c: seq<Word>, scopes: seq<Scope>, s: Stmt)
    requires s.Block? && c0 <= c1 && b != [] && |scopes| == |b| - 1 && HolesOk(c1, b, h1)
    requires b[|b| - 1].kind == BlockKind
    requires Below(h0, |c0|) && (forall p | p in h0 :: h0[p].block < |scopes|) && MoreHoles(h0, h1, |c0|)
    requires StmtImpl(m, c1, h1, scopes + [Scope(BlockKind, s.name)], |c0|, |c1|, s.body)
    requires Patched(c1, c, b[|b| - 1].exit, |c1|)
    ensures var h := Without(h1, b[|b| - 1].exit);
            c0 <= c && MoreHoles(h0, h, |c0|) && StmtImpl(m, c, h, scopes, |c0|, |c|, s)
  {
    var last, k := b[|b| - 1], |scopes|;
    assert ListsOk(last, k, h1);
    var h := Without(h1, last.exit);
    assert Patched(c1, c1, last.continuation, |c1|);
    ListsClose(c1, last, k, h1, c1, c1, c, |c0|, |c1|, |c1|);
    assert Without(Without(h1, last.continuation), last.exit) == h;
    BlockImpl(m, c1, h1, c, h, scopes, |c0|, |c|, s.name, s.body, Target(|c|, |c|));
    ExitsAreNew(c0, h0, c1, last, k, h1, c);
  }

  // Filling the exit holes of a block opened after c0 changes nothing in c0.
  lemma ExitsAreNew(c0: seq<Word>, h0: map<nat, Hole>, c1: seq<Word>, b: OpenBlock, k: nat, h1: map<nat, Hole>,
                    c: seq<Word>)
    requires c0 <= c1 && ListsOk(b, k, h1) && MoreHoles(h0, h1, |c0|) && (forall p | p in h0 :: h0[p].block < k)
    requires |c1| == |c| && forall p | 0 <= p < |c1| && p !in b.exit && p !in b.continuation :: c[p] == c1[p]
    ensures c0 <= c && MoreHoles(h0, Without(h1, b.exit), |c0|)
    ensures forall p | p in b.exit || p in b.continuation :: p >= |c0|
  {
    forall p | p in b.exit || p in b.continuation ensures p >= |c0| {
      assert p in h1 && h1[p].block == k;
    }
  }

  lemma JumpJoin(m: Machine, c0: seq<Word>, c: seq<Word>, b: seq<OpenBlock>, h0: map<nat, Hole>, scopes: seq<Scope>,
                 s: Stmt)
    requires s.Break? || s.Continue?
    requires HolesOk(c0, b, h0) && scopes == Scopes(b) && c0 <= c && |c| == |c0| + 2 && Has(c, |c0|, IJump(1))
    requires JumpBlock(s, scopes).Some?
    ensures var k := JumpBlock(s, scopes).value;
            var h := h0[|c0| + 1 := Hole(k, s.Break?)];
            && HolesOk(c, b[k := AddPatch(b[k], s.Break?, |c0| + 1)], h)
            && StmtImpl(m, c, h, scopes, |c0|, |c|, s)
            && MoreHoles(h0, h, |c0|)
  {
    var k, p := JumpBlock(s, scopes).value, |c0| + 1;
    assert c[|c0|..|c0| + 2] == [Opcode(Jump), Offset(1)];
    assert c[p] == Offset(1);
    assert !s.Break? ==> scopes[k].kind == LoopKind;
    HolesAdd(c0, c, b, h0, k, s.Break?, p);
    JumpImpl(m, c, h0[p := Hole(k, s.Break?)], scopes, |c0|, s);
  }

  // The code and holes when the body of a loop was finished, and its block then.
  datatype Body = Body(code: seq<Word>, holes: map<nat, Hole>, last: OpenBlock)

  // The body starts after c0, and belongs to block k.
  ghost predicate BodyOk(m: Machine, c0: seq<Word>, h0: map<nat, Hole>, d: Body, k: nat, scopes: seq<Scope>,
                         body: Stmt) {
    && c0 <= d.code && MoreHoles(h0, d.holes, |c0|) && Below(d.holes, |d.code|)
    && ListsOk(d.last, k, d.holes) && (forall p | p in d.holes :: d.holes[p].block <= k)
    && StmtImpl(m, d.code, d.holes, scopes, |c0|, |d.code|, body)
  }

  // Filling the continuation holes of the body changes nothing before it.
  lemma BodyIsNew(m: Machine, c0: seq<Word>, h0: map<nat, Hole>, d: Body, k: nat, scopes: seq<Scope>, body: Stmt,
                  c: seq<Word>)
    requires BodyOk(m, c0, h0, d, k, scopes, body) && forall q | q in h0 :: h0[q].block < k
    requires Patched(d.code, c, d.last.continuation, |d.code|)
    ensures c0 <= c
  {
    forall q | q in d.last.continuation ensures q >= |c0| {
      assert q in d.holes;
    }
  }

  // c2 is the code with the continuation list filled, c3 the code of the whole
  // loop (words before the body may have been set since), and c the code with
  // the exit list filled as well.
  lemma LoopJoin(m: Machine, c0: seq<Word>, h0: map<nat, Hole>, d: Body, c2: seq<Word>, c3: seq<Word>, c: seq<Word>,
                 scopes: seq<Scope>, s: Stmt, p: LoopShape)
    requires IsLoop(s) && BodyOk(m, c0, h0, d, |scopes|, scopes + [Scope(LoopKind, s.name)], s.body)
    requires forall q | q in h0 :: h0[q].block < |scopes|
    requires p.body == |c0| && p.cont == |d.code| <= p.test && p.end == |c3|
    requires Patched(d.code, c2, d.last.continuation, |d.code|) && Patched(c3, c, d.last.exit, |c3|)
    requires |c2| <= |c3| && forall q | p.body <= q < |c2| :: c3[q] == c2[q]
    requires match LoopUpdate(s)
             case None => p.test == p.cont
             case Some(u) => ExprImpl(m, c3, p.cont, p.test, u, p.ru, None, {})
    requires match LoopTest(s)
             case None => p.end == p.test + 2 && Has(c3, p.test, IJump(p.body - p.test))
             case Some(e) =>
               && p.test <= p.back && p.end == p.back + 3
               && ExprImpl(m, c3, p.test, p.back, e, p.rc, None, {})
               && Has(c3, p.back, ICond(true, p.body - p.back, p.rc))
    ensures var h := Without(Without(d.holes, d.last.continuation), d.last.exit);
            LoopImpl(m, d.code, d.holes, c, h, scopes, s, p) && MoreHoles(h0, h, |c0|)
    ensures |c| == |c3| && forall q | 0 <= q < p.body :: c[q] == c3[q]
  {
    ListsClose(d.code, d.last, |scopes|, d.holes, c2, c3, c, |c0|, |d.code|, |c3|);
    forall q | q in d.last.exit || q in d.last.continuation ensures |c0| <= q < |d.code| {
      assert q in d.holes && d.holes[q].block == |scopes|;
    }
    assert Agrees(c3, c, p.cont, p.end);
    if LoopUpdate(s).Some? {
      ExprMoves(m, c3, c, p.cont, p.test, LoopUpdate(s).value, p.ru, None, {});
    }
    if LoopTest(s).Some? {
      ExprMoves(m, c3, c, p.test, p.back, LoopTest(s).value, p.rc, None, {});
      HasAgrees(c3, c, p.back, p.end, p.back, ICond(true, p.body - p.back, p.rc));
    } else {
      HasAgrees(c3, c, p.test, p.end, p.test, IJump(p.body - p.test));
    }
  }

  lemma WhileJoin(m: Machine, c0: seq<Word>, h0: map<nat, Hole>, c1: seq<Word>, d: Body, c2: seq<Word>, c3: seq<Word>,
                  c: seq<Word>, scopes: seq<Scope>, s: Stmt, p: LoopShape)
    requires s.While? && c0 <= c1 && |c1| == |c0| + 2 && Has(c1, |c0|, IJump(0))
    requires BodyOk(m, c1, h0, d, |scopes|, scopes + [Scope(LoopKind, s.name)], s.body)
    requires Below(h0, |c0|) && forall q | q in h0 :: h0[q].block < |scopes|
    requires p.body == |c1| && p.cont == p.test == |d.code| <= p.back && p.end == p.back + 3 == |c3|
    requires Patched(d.code, c2, d.last.continuation, |d.code|) && Patched(c3, c, d.last.exit, |c3|)
    requires c2[|c0| + 1 := Offset(|c2| - |c0|)] <= c3
    requires ExprImpl(m, c3, p.test, p.back, s.cond, p.rc, None, {})
    requires Has(c3, p.back, ICond(true, p.body - p.back, p.rc))
    ensures var h := Without(Without(d.holes, d.last.continuation), d.last.exit);
            c0 <= c && MoreHoles(h0, h, |c0|) && StmtImpl(m, c, h, scopes, |c0|, |c|, s)
  {
    hide ExprImpl, StmtImpl, LoopImpl;
    var lo := |c0|;
    var c4 := c2[lo + 1 := Offset(|c2| - lo)];
    assert forall q | 0 <= q < |c2| :: c3[q] == c4[q];
    LoopJoin(m, c1, h0, d, c2, c3, c, scopes, s, p);
    BodyIsNew(m, c1, h0, d, |scopes|, scopes + [Scope(LoopKind, s.name)], s.body, c2);
    HasRetargeted(c1, c, lo, IJump(0), p.test - lo);
    var h := Without(Without(d.holes, d.last.continuation), d.last.exit);
    WhileImpl(m, d.code, d.holes, c, h, scopes, lo, s, p);
  }

  lemma DoWhileJoin(m: Machine, c0: seq<Word>, h0: map<nat, Hole>, d: Body, c2: seq<Word>, c3: seq<Word>,
                    c: seq<Word>, scopes: seq<Scope>, s: Stmt, p: LoopShape)
    requires s.DoWhile? && BodyOk(m, c0, h0, d, |scopes|, scopes + [Scope(LoopKind, s.name)], s.body)
    requires forall q | q in h0 :: h0[q].block < |scopes|
    requires p.body == |c0| && p.cont == p.test == |d.code| <= p.back && p.end == p.back + 3 == |c3|
    requires Patched(d.code, c2, d.last.continuation, |d.code|) && Patched(c3, c, d.last.exit, |c3|)
    requires c2 <= c3
    requires ExprImpl(m, c3, p.test, p.back, s.cond, p.rc, None, {})
    requires Has(c3, p.back, ICond(true, p.body - p.back, p.rc))
    ensures var h := Without(Without(d.holes, d.last.continuation), d.last.exit);
            c0 <= c && MoreHoles(h0, h, |c0|) && StmtImpl(m, c, h, scopes, |c0|, |c|, s)
  {
    LoopJoin(m, c0, h0, d, c2, c3, c, scopes, s, p);
    BodyIsNew(m, c0, h0, d, |scopes|, scopes + [Scope(LoopKind, s.name)], s.body, c2);
    var h := Without(Without(d.holes, d.last.continuation), d.last.exit);
    DoWhileImpl(m, d.code, d.holes, c, h, scopes, s, p);
  }

  // The initialization of a for loop and the jump to its condition, its offset
  // still zero: the code c1, after c0.
  ghost predicate ForInit(m: Machine, c0: seq<Word>, c1: seq<Word>, s: Stmt, mid: nat, ri: Index)
    requires s.For?
  {
    && c0 <= c1 && |c0| <= mid
    && (match s.init
        case None => mid == |c0|
        case Some(i) => ExprImpl(m, c1, |c0|, mid, i, ri, None, {}))
    && (if s.test.Some? then |c1| == mid + 2 && Has(c1, mid, IJump(0)) else |c1| == mid)
  }

  lemma ForInitMoves(m: Machine, c0: seq<Word>, c1: seq<Word>, c: seq<Word>, s: Stmt, mid: nat, ri: Index, off: int)
    requires s.For? && ForInit(m, c0, c1, s, mid, ri) && |c1| <= |c|
    requires forall q | 0 <= q < |c1| :: c[q] == if s.test.Some? && q == mid + 1 then Offset(off) else c1[q]
    ensures c0 <= c && |c0| <= mid <= |c1|
    ensures s.init.Some? ==> ExprImpl(m, c, |c0|, mid, s.init.value, ri, None, {})
    ensures s.test.Some? ==> Has(c, mid, IJump(off))
  {
    hide ExprImpl;
    if s.init.Some? {
      ExprMoves(m, c1, c, |c0|, mid, s.init.value, ri, None, {});
    }
    if s.test.Some? {
      HasRetargeted(c1, c, mid, IJump(0), off);
    }
  }

  // c2 is the code when the body was closed, c4 with the update, c3 with the
  // condition or the jump back.
  lemma ForJoin(m: Machine, c0: seq<Word>, h0: map<nat, Hole>, c1: seq<Word>, mid: nat, ri: Index, d: Body,
                c2: seq<Word>, c4: seq<Word>, c3: seq<Word>, c: seq<Word>, scopes: seq<Scope>, s: Stmt, p: LoopShape)
    requires s.For? && ForInit(m, c0, c1, s, mid, ri)
    requires BodyOk(m, c1, h0, d, |scopes|, scopes + [Scope(LoopKind, s.name)], s.body)
    requires Below(h0, |c0|) && forall q | q in h0 :: h0[q].block < |scopes|
    requires p.body == |c1| && p.cont == |d.code| == |c2| <= p.test == |c4| && p.end == |c3|
    requires Patched(d.code, c2, d.last.continuation, |d.code|) && Patched(c3, c, d.last.exit, |c3|)
    requires c2 <= c4
    requires |c4| <= |c3| && forall q | 0 <= q < |c4| ::
               c3[q] == if s.test.Some? && q == mid + 1 then Offset(p.test - mid) else c4[q]
    requires match s.update
             case None => p.test == p.cont
             case Some(u) => ExprImpl(m, c4, p.cont, p.test, u, p.ru, None, {})
    requires match s.test
             case None => p.end == p.test + 2 && Has(c3, p.test, IJump(p.body - p.test))
             case Some(e) =>
               && p.test <= p.back && p.end == p.back + 3
               && ExprImpl(m, c3, p.test, p.back, e, p.rc, None, {})
               && Has(c3, p.back, ICond(true, p.body - p.back, p.rc))
    ensures var h := Without(Without(d.holes, d.last.continuation), d.last.exit);
            c0 <= c && MoreHoles(h0, h, |c0|) && StmtImpl(m, c, h, scopes, |c0|, |c|, s)
  {
    hide ExprImpl, StmtImpl, LoopImpl;
    hide Has;
    var lo := |c0|;
    if s.update.Some? {
      ExprMoves(m, c4, c3, p.cont, p.test, s.update.value, p.ru, None, {});
    }
    LoopJoin(m, c1, h0, d, c2, c3, c, scopes, s, p);
    BodyIsNew(m, c1, h0, d, |scopes|, scopes + [Scope(LoopKind, s.name)], s.body, c2);
    ForInitMoves(m, c0, c1, c, s, mid, ri, p.test - mid);
    var h := Without(Without(d.holes, d.last.continuation), d.last.exit);
    ForImpl(m, d.code, d.holes, c, h, scopes, lo, mid, s, ri, p);
  }

  function ClauseAt(c: Clauses, k: nat): Clauses
    requires k <= ClauseCount(c)
  {
    if k == 0 then c else ClauseAt(c.next, k - 1)
  }

  lemma ClauseNext(c: Clauses, k: nat)
    requires k <= ClauseCount(c)
    ensures ClauseCount(ClauseAt(c, k)) == ClauseCount(c) - k
    ensures k < ClauseCount(c) ==> !ClauseAt(c, k).NoClauses? && ClauseAt(c, k + 1) == ClauseAt(c, k).next
    decreases k
  {
    if k > 0 {
      ClauseNext(c.next, k - 1);
    }
  }

  // The test of clause k: its code and the jump, with the given offset, to its body.
  ghost predicate TestAt(m: Machine, code: seq<Word>, c: Clauses, k: nat, tests: seq<TestSpot>, off: int, t: nat,
                         lo: nat, hi: nat)
    requires k + 1 < |tests|
  {
    match c
    case NoClauses => true
    case Default(_, _) => tests[k + 1].lo == tests[k].lo
    case Case(e, _, _) =>
      && lo <= tests[k].lo <= tests[k].hi && tests[k].hi + 4 <= hi
      && ExprImpl(m, code, tests[k].lo, tests[k].hi, e, tests[k].r, None, {t})
      && Has(code, tests[k].hi, IEqual(off, Temporary(t), tests[k].r))
      && tests[k + 1].lo == tests[k].hi + 4
  }

  lemma TestMoves(m: Machine, c0: seq<Word>, c1: seq<Word>, c: Clauses, k: nat, tests: seq<TestSpot>, off: int,
                  t: nat, lo: nat, hi: nat)
    requires k + 1 < |tests| && TestAt(m, c0, c, k, tests, off, t, lo, hi) && Agrees(c0, c1, lo, hi)
    ensures TestAt(m, c1, c, k, tests, off, t, lo, hi)
  {
    if c.Case? {
      var p := tests[k];
      ExprMoves(m, c0, c1, p.lo, p.hi, c.test, p.r, None, {t});
      HasAgrees(c0, c1, lo, hi, p.hi, IEqual(off, Temporary(t), p.r));
    }
  }

  // The offset of the test of clause k when the bodies of the clauses before
  // number i are there; until then it is one.
  function TestOffset(k: nat, i: nat, tests: seq<TestSpot>, bodies: seq<nat>): int
    requires k < |tests| && i <= |bodies|
  {
    if k < i then bodies[k] - tests[k].hi else 1
  }

  ghost predicate TestsAt(m: Machine, code: seq<Word>, c: Clauses, n: nat, i: nat, tests: seq<TestSpot>,
                          bodies: seq<nat>, t: nat, lo: nat, hi: nat)
    requires n <= ClauseCount(c) && |tests| > n && i <= |bodies|
  {
    forall k | 0 <= k < n :: TestAt(m, code, ClauseAt(c, k), k, tests, TestOffset(k, i, tests, bodies), t, lo, hi)
  }

  lemma TestsMove(m: Machine, c0: seq<Word>, c1: seq<Word>, c: Clauses, n: nat, i: nat, tests: seq<TestSpot>,
                  bodies: seq<nat>, t: nat, lo: nat, hi: nat)
    requires n <= ClauseCount(c) && |tests| > n && i <= |bodies|
    requires TestsAt(m, c0, c, n, i, tests, bodies, t, lo, hi) && Agrees(c0, c1, lo, hi)
    ensures TestsAt(m, c1, c, n, i, tests, bodies, t, lo, hi)
  {
    forall k | 0 <= k < n
      ensures TestAt(m, c1, ClauseAt(c, k), k, tests, TestOffset(k, i, tests, bodies), t, lo, hi)
    {
      TestMoves(m, c0, c1, ClauseAt(c, k), k, tests, TestOffset(k, i, tests, bodies), t, lo, hi);
    }
  }

  lemma TestsNone(m: Machine, code: seq<Word>, c: Clauses, tests: seq<TestSpot>, t: nat, lo: nat, hi: nat)
    requires |tests| > 0
    ensures TestsAt(m, code, c, 0, 0, tests, [], t, lo, hi) && PatchesOf(c, 0, tests, [])
  {
  }

  // One more test after n others.
  lemma TestsAdd(m: Machine, c0: seq<Word>, c1: seq<Word>, c2: seq<Word>, c: Clauses, n: nat, tests: seq<TestSpot>,
                 t: nat, lo: nat, spot: TestSpot)
    requires n < ClauseCount(c) && |tests| == n + 1 && lo <= |c0| && c0 <= c1 && c1 <= c2
    requires TestsAt(m, c0, c, n, 0, tests, [], t, lo, |c0|)
    requires tests[n].lo == |c0| && ClauseAt(c, n).Case? && spot.lo == |c0| && spot.hi == |c1| && |c2| == |c1| + 4
    requires ExprImpl(m, c1, |c0|, |c1|, ClauseAt(c, n).test, spot.r, None, {t})
    requires Has(c2, |c1|, IEqual(1, Temporary(t), spot.r))
    ensures var tests1 := tests[..n] + [spot, TestSpot(|c2|, 0, spot.r)];
            TestsAt(m, c2, c, n + 1, 0, tests1, [], t, lo, |c2|)
  {
    var tests1 := tests[..n] + [spot, TestSpot(|c2|, 0, spot.r)];
    forall k | 0 <= k < n + 1 ensures TestAt(m, c2, ClauseAt(c, k), k, tests1, 1, t, lo, |c2|) {
      if k < n {
        TestMoves(m, c0, c2, ClauseAt(c, k), k, tests, 1, t, lo, |c0|);
      } else {
        ExprMoves(m, c1, c2, |c0|, |c1|, ClauseAt(c, n).test, spot.r, None, {t});
      }
    }
  }

  lemma TestsSkip(m: Machine, code: seq<Word>, c: Clauses, n: nat, tests: seq<TestSpot>, t: nat, lo: nat)
    requires n < ClauseCount(c) && |tests| == n + 1 && ClauseAt(c, n).Default?
    requires TestsAt(m, code, c, n, 0, tests, [], t, lo, |code|)
    ensures TestsAt(m, code, c, n + 1, 0, tests + [tests[n]], [], t, lo, |code|)
  {
    var tests1 := tests + [tests[n]];
    forall k | 0 <= k < n + 1 ensures TestAt(m, code, ClauseAt(c, k), k, tests1, 1, t, lo, |code|) {
      if k < n {
        assert TestAt(m, code, ClauseAt(c, k), k, tests, TestOffset(k, 0, tests, []), t, lo, |code|);
      }
    }
  }

  // The test of clause k when the one of clause i gets its offset.
  lemma TestPatched(m: Machine, c0: seq<Word>, c1: seq<Word>, b: Clauses, k: nat, i: nat, tests: seq<TestSpot>,
                    bodies: seq<nat>, t: nat, lo: nat, hi: nat)
    requires k + 1 < |tests| && |bodies| == i + 1 && b.Case? && hi <= |c0| == |c1|
    requires TestAt(m, c0, b, k, tests, TestOffset(k, i, tests, bodies), t, lo, hi)
    requires if k == i
             then Retargeted(c0, c1, tests[k].hi, IEqual(1, Temporary(t), tests[k].r), bodies[i] - tests[k].hi)
             else Agrees(c0, c1, tests[k].hi, tests[k].hi + 4)
    requires Agrees(c0, c1, tests[k].lo, tests[k].hi)
    ensures TestAt(m, c1, b, k, tests, TestOffset(k, i + 1, tests, bodies), t, lo, hi)
  {
    hide ExprImpl, Has, Encode;
    var p := tests[k];
    ExprMoves(m, c0, c1, p.lo, p.hi, b.test, p.r, None, {t});
    if k == i {
      HasRetargeted(c0, c1, p.hi, IEqual(1, Temporary(t), p.r), bodies[i] - p.hi);
    } else {
      HasAgrees(c0, c1, p.hi, p.hi + 4, p.hi, IEqual(TestOffset(k, i, tests, bodies), Temporary(t), p.r));
    }
  }

  // The jump of the test of clause i is set to lead to its body, at the end of
  // the code.
  lemma TestsPatch(m: Machine, c0: seq<Word>, c1: seq<Word>, c: Clauses, i: nat, tests: seq<TestSpot>,
                   bodies: seq<nat>, t: nat, lo: nat, hi: nat)
    requires i < ClauseCount(c) && |tests| == ClauseCount(c) + 1 && |bodies| == i + 1 && ClauseAt(c, i).Case?
    requires TestsAt(m, c0, c, ClauseCount(c), i, tests, bodies, t, lo, hi) && hi <= |c0|
    requires tests[i].hi + 1 < |c0| && c1 == c0[tests[i].hi + 1 := Offset(bodies[i] - tests[i].hi)]
    ensures TestsAt(m, c1, c, ClauseCount(c), i + 1, tests, bodies, t, lo, hi)
  {
    hide ExprImpl, Has, Encode, TestAt;
    var n := ClauseCount(c);
    forall k | 0 <= k < n
      ensures TestAt(m, c1, ClauseAt(c, k), k, tests, TestOffset(k, i + 1, tests, bodies), t, lo, hi)
    {
      if ClauseAt(c, k).Case? {
        TestSpan(m, c0, c, i, i, tests, bodies, t, lo, hi);
        TestSpan(m, c0, c, i, k, tests, bodies, t, lo, hi);
        if k < i {
          TestsOrdered(m, c0, c, n, i, tests, bodies, t, lo, hi, k, i);
        } else if i < k {
          TestsOrdered(m, c0, c, n, i, tests, bodies, t, lo, hi, i, k);
        }
        TestPatched(m, c0, c1, ClauseAt(c, k), k, i, tests, bodies, t, lo, hi);
      } else {
        TestNone(m, c0, c1, c, k, i, tests, bodies, t, lo, hi);
      }
    }
  }

  // Where the test of clause k stands.
  lemma TestSpan(m: Machine, code: seq<Word>, c: Clauses, i: nat, k: nat, tests: seq<TestSpot>, bodies: seq<nat>,
                 t: nat, lo: nat, hi: nat)
    requires k < ClauseCount(c) && |tests| == ClauseCount(c) + 1 && i <= |bodies| && ClauseAt(c, k).Case?
    requires TestsAt(m, code, c, ClauseCount(c), i, tests, bodies, t, lo, hi)
    ensures lo <= tests[k].lo <= tests[k].hi && tests[k].hi + 4 <= hi
  {
    hide ExprImpl, Has;
    assert TestAt(m, code, ClauseAt(c, k), k, tests, TestOffset(k, i, tests, bodies), t, lo, hi);
  }

  // "default" has no test.
  lemma TestNone(m: Machine, c0: seq<Word>, c1: seq<Word>, c: Clauses, k: nat, i: nat, tests: seq<TestSpot>,
                 bodies: seq<nat>, t: nat, lo: nat, hi: nat)
    requires k < ClauseCount(c) && |tests| == ClauseCount(c) + 1 && i < |bodies| && !ClauseAt(c, k).Case?
    requires TestsAt(m, c0, c, ClauseCount(c), i, tests, bodies, t, lo, hi)
    ensures TestAt(m, c1, ClauseAt(c, k), k, tests, TestOffset(k, i + 1, tests, bodies), t, lo, hi)
  {
    hide ExprImpl, Has;
    assert TestAt(m, c0, ClauseAt(c, k), k, tests, TestOffset(k, i, tests, bodies), t, lo, hi);
  }

  // The jump of a "default" is set: the tests stay as they are.
  lemma TestsStay(m: Machine, c0: seq<Word>, c1: seq<Word>, c: Clauses, i: nat, tests: seq<TestSpot>,
                  bodies: seq<nat>, t: nat, lo: nat, hi: nat)
    requires i < ClauseCount(c) && |tests| == ClauseCount(c) + 1 && |bodies| == i + 1 && !ClauseAt(c, i).Case?
    requires TestsAt(m, c0, c, ClauseCount(c), i, tests, bodies, t, lo, hi) && Agrees(c0, c1, lo, hi)
    ensures TestsAt(m, c1, c, ClauseCount(c), i + 1, tests, bodies, t, lo, hi)
  {
    hide ExprImpl, Has, TestAt;
    var n := ClauseCount(c);
    forall k | 0 <= k < n
      ensures TestAt(m, c1, ClauseAt(c, k), k, tests, TestOffset(k, i + 1, tests, bodies), t, lo, hi)
    {
      assert TestAt(m, c0, ClauseAt(c, k), k, tests, TestOffset(k, i, tests, bodies), t, lo, hi);
      if k == i {
        TestNone(m, c0, c1, c, k, i, tests, bodies, t, lo, hi);
      } else {
        TestMoves(m, c0, c1, ClauseAt(c, k), k, tests, TestOffset(k, i, tests, bodies), t, lo, hi);
      }
    }
  }

  // Tests stand in the order of their clauses.
  lemma {:induction false} TestsOrdered(m: Machine, code: seq<Word>, c: Clauses, n: nat, i: nat, tests: seq<TestSpot>,
                                        bodies: seq<nat>, t: nat, lo: nat, hi: nat, a: nat, b: nat)
    requires n <= ClauseCount(c) && |tests| > n && i <= |bodies|
    requires TestsAt(m, code, c, n, i, tests, bodies, t, lo, hi)
    requires a < b <= n
    ensures tests[a].lo <= tests[b].lo
    ensures ClauseAt(c, a).Case? ==> tests[a].hi + 4 <= tests[b].lo
    decreases b
  {
    ClauseNext(c, b - 1);
    assert TestAt(m, code, ClauseAt(c, b - 1), b - 1, tests, TestOffset(b - 1, i, tests, bodies), t, lo, hi);
    if a < b - 1 {
      TestsOrdered(m, code, c, n, i, tests, bodies, t, lo, hi, a, b - 1);
    }
  }

  lemma {:induction false} TestsCollect(m: Machine, code: seq<Word>, c: Clauses, i: nat, tests: seq<TestSpot>,
                                        bodies: seq<nat>, t: nat, lo: nat, hi: nat)
    requires i <= ClauseCount(c) && |tests| == |bodies| == ClauseCount(c) + 1
    requires TestsAt(m, code, c, ClauseCount(c), ClauseCount(c), tests, bodies, t, lo, hi)
    ensures ClauseCount(ClauseAt(c, i)) == ClauseCount(c) - i
    ensures TestsImpl(m, code, ClauseAt(c, i), i, tests, bodies, t, lo, hi)
    decreases ClauseCount(c) - i
  {
    var n := ClauseCount(c);
    ClauseNext(c, i);
    if i < n {
      TestsCollect(m, code, c, i + 1, tests, bodies, t, lo, hi);
      assert TestAt(m, code, ClauseAt(c, i), i, tests, TestOffset(i, n, tests, bodies), t, lo, hi);
    }
  }

  // The bodies of the first i clauses.
  ghost predicate BodiesAt(m: Machine, code: seq<Word>, holes: map<nat, Hole>, scopes: seq<Scope>, c: Clauses, i: nat,
                           bodies: seq<nat>)
    requires i <= ClauseCount(c) && |bodies| == i + 1
  {
    forall k | 0 <= k < i && !ClauseAt(c, k).NoClauses? ::
      && bodies[k] <= bodies[k + 1] <= bodies[i]
      && StmtImpl(m, code, holes, scopes, bodies[k], bodies[k + 1], ClauseAt(c, k).body)
  }

  lemma BodiesAdd(m: Machine, c0: seq<Word>, h0: map<nat, Hole>, c1: seq<Word>, h1: map<nat, Hole>,
                  scopes: seq<Scope>, c: Clauses, i: nat, bodies: seq<nat>)
    requires i < ClauseCount(c) && |bodies| == i + 1 && !ClauseAt(c, i).NoClauses?
    requires BodiesAt(m, c0, h0, scopes, c, i, bodies) && bodies[i] == |c0|
    requires c0 <= c1 && MoreHoles(h0, h1, |c0|)
    requires StmtImpl(m, c1, h1, scopes, |c0|, |c1|, ClauseAt(c, i).body)
    ensures BodiesAt(m, c1, h1, scopes, c, i + 1, bodies + [|c1|])
  {
    hide StmtImpl;
    forall k | 0 <= k < i && !ClauseAt(c, k).NoClauses?
      ensures StmtImpl(m, c1, h1, scopes, bodies[k], bodies[k + 1], ClauseAt(c, k).body)
    {
      AppendKeeps(c0, h0, c1, h1, bodies[k], bodies[k + 1]);
      StmtMoves(m, c0, h0, c1, h1, scopes, bodies[k], bodies[k + 1], ClauseAt(c, k).body);
    }
  }

  // Setting words before the first body.
  lemma BodiesMove(m: Machine, c0: seq<Word>, c1: seq<Word>, h: map<nat, Hole>, scopes: seq<Scope>, c: Clauses,
                   i: nat, bodies: seq<nat>)
    requires i <= ClauseCount(c) && |bodies| == i + 1
    requires BodiesAt(m, c0, h, scopes, c, i, bodies) && bodies[i] <= |c0| <= |c1|
    requires forall p | bodies[0] <= p < |c0| :: c1[p] == c0[p]
    requires forall k | 0 <= k <= i :: bodies[0] <= bodies[k]
    ensures BodiesAt(m, c1, h, scopes, c, i, bodies)
  {
    forall k | 0 <= k < i && !ClauseAt(c, k).NoClauses?
      ensures StmtImpl(m, c1, h, scopes, bodies[k], bodies[k + 1], ClauseAt(c, k).body)
    {
      StmtMoves(m, c0, h, c1, h, scopes, bodies[k], bodies[k + 1], ClauseAt(c, k).body);
    }
  }

  lemma {:induction false} BodiesCollect(m: Machine, code: seq<Word>, holes: map<nat, Hole>, scopes: seq<Scope>,
                                         c: Clauses, i: nat, bodies: seq<nat>)
    requires i <= ClauseCount(c) && |bodies| == ClauseCount(c) + 1
    requires BodiesAt(m, code, holes, scopes, c, ClauseCount(c), bodies)
    ensures ClauseCount(ClauseAt(c, i)) == ClauseCount(c) - i
    ensures BodiesImpl(m, code, holes, scopes, ClauseAt(c, i), i, bodies)
    decreases ClauseCount(c) - i
  {
    ClauseNext(c, i);
    if i < ClauseCount(c) {
      BodiesCollect(m, code, holes, scopes, c, i + 1, bodies);
    }
  }

  // The last "default" among the first i clauses.
  function DefaultBefore(c: Clauses, i: nat): (r: Option<nat>)
    requires i <= ClauseCount(c)
    ensures r.Some? ==> r.value < i
  {
    if i == 0 then None
    else if ClauseAt(c, i - 1).Default? then Some(i - 1)
    else DefaultBefore(c, i - 1)
  }

  lemma {:induction false} DefaultShift(c: Clauses, i: nat)
    requires !c.NoClauses? && i <= ClauseCount(c.next)
    ensures DefaultBefore(c, i + 1) ==
              match DefaultBefore(c.next, i)
              case Some(k) => Some(k + 1)
              case None => if c.Default? then Some(0) else None
  {
    if i > 0 {
      DefaultShift(c, i - 1);
      assert ClauseAt(c, i) == ClauseAt(c.next, i - 1);
    }
  }

  lemma {:induction false} DefaultFound(c: Clauses)
    ensures DefaultIndex(c) ==
              match DefaultBefore(c, ClauseCount(c))
              case Some(k) => k
              case None => ClauseCount(c)
  {
    if !c.NoClauses? {
      DefaultFound(c.next);
      DefaultShift(c, ClauseCount(c.next));
    }
  }

  // The number of tests among the first k clauses.
  function TestCount(c: Clauses, k: nat): nat
    requires k <= ClauseCount(c)
  {
    if k == 0 then 0 else TestCount(c, k - 1) + if ClauseAt(c, k - 1).Case? then 1 else 0
  }

  // The list of jump fields of the tests, in order.
  ghost predicate PatchesOf(c: Clauses, n: nat, tests: seq<TestSpot>, patches: seq<nat>)
    requires n <= ClauseCount(c) && |tests| > n
  {
    && |patches| == TestCount(c, n)
    && forall k | 0 <= k < n && ClauseAt(c, k).Case? ::
         TestCount(c, k) < |patches| && patches[TestCount(c, k)] == tests[k].hi + 1
  }

  lemma PatchesAdd(c: Clauses, n: nat, tests: seq<TestSpot>, patches: seq<nat>, spot: TestSpot, after: TestSpot)
    requires n < ClauseCount(c) && |tests| == n + 1 && PatchesOf(c, n, tests, patches) && ClauseAt(c, n).Case?
    ensures PatchesOf(c, n + 1, tests[..n] + [spot, after], patches + [spot.hi + 1])
  {
    hide ClauseAt;
    var tests1, patches1 := tests[..n] + [spot, after], patches + [spot.hi + 1];
    TestsCounted(c, n);
    forall k | 0 <= k < n + 1 && ClauseAt(c, k).Case?
      ensures TestCount(c, k) < |patches1| && patches1[TestCount(c, k)] == tests1[k].hi + 1
    {
      if k < n {
        assert patches1[TestCount(c, k)] == patches[TestCount(c, k)];
      }
    }
  }

  lemma PatchesSkip(c: Clauses, n: nat, tests: seq<TestSpot>, patches: seq<nat>)
    requires n < ClauseCount(c) && |tests| == n + 1 && PatchesOf(c, n, tests, patches) && !ClauseAt(c, n).Case?
    ensures PatchesOf(c, n + 1, tests + [tests[n]], patches)
  {
  }

  lemma {:induction false} TestsCounted(c: Clauses, n: nat)
    requires n <= ClauseCount(c)
    ensures forall k | 0 <= k < n && ClauseAt(c, k).Case? :: TestCount(c, k) < TestCount(c, n)
  {
    if n > 0 {
      hide ClauseAt;
      TestsCounted(c, n - 1);
    }
  }

  // The jump taken when no test succeeds, when the bodies of the first i clauses
  // are there: it leads to the last "default" among them.
  function DefaultJump(c: Clauses, i: nat, bodies: seq<nat>, j: nat): Instruction
    requires i <= ClauseCount(c) && i <= |bodies|
  {
    IJump(match DefaultBefore(c, i)
          case Some(k) => (bodies[k] as int) - j
          case None => 1)
  }

  // The state of the switch when the bodies of the first i clauses are done: the
  // jump at j, taken when no test succeeds, leads to the last "default" so far.
  ghost predicate BodiesState(m: Machine, code: seq<Word>, holes: map<nat, Hole>, scopes: seq<Scope>, c: Clauses,
                              i: nat, t: nat, tests: seq<TestSpot>, bodies: seq<nat>, lo: nat)
    requires i <= ClauseCount(c) && |tests| == ClauseCount(c) + 1 && |bodies| == i + 1
  {
    var j := tests[|tests| - 1].lo;
    && lo <= j && j + 2 == bodies[0] && bodies[i] == |code|
    && (forall k | 0 <= k <= i :: bodies[0] <= bodies[k])
    && TestsAt(m, code, c, ClauseCount(c), i, tests, bodies, t, lo, j)
    && Has(code, j, DefaultJump(c, i, bodies, j))
    && BodiesAt(m, code, holes, scopes, c, i, bodies)
    && (forall p | p in holes :: p < lo || p >= bodies[0])
  }

  lemma BodiesStart(m: Machine, code: seq<Word>, holes: map<nat, Hole>, scopes: seq<Scope>, c: Clauses, t: nat,
                    tests: seq<TestSpot>, lo: nat)
    requires |tests| == ClauseCount(c) + 1 && tests[|tests| - 1].lo + 2 == |code|
    requires lo <= tests[|tests| - 1].lo && TestsAt(m, code, c, ClauseCount(c), 0, tests, [], t, lo, |code| - 2)
    requires Has(code, |code| - 2, IJump(1)) && Below(holes, lo)
    ensures BodiesState(m, code, holes, scopes, c, 0, t, tests, [|code|], lo)
  {
    forall k | 0 <= k < ClauseCount(c)
      ensures TestAt(m, code, ClauseAt(c, k), k, tests, TestOffset(k, 0, tests, [|code|]), t, lo, |code| - 2)
    {
      assert TestAt(m, code, ClauseAt(c, k), k, tests, TestOffset(k, 0, tests, []), t, lo, |code| - 2);
    }
  }

  // The jumps to body i are set, and the body is about to be generated.
  ghost predicate BodyReady(m: Machine, code: seq<Word>, holes: map<nat, Hole>, scopes: seq<Scope>, c: Clauses,
                            i: nat, t: nat, tests: seq<TestSpot>, bodies: seq<nat>, lo: nat)
    requires i < ClauseCount(c) && |tests| == ClauseCount(c) + 1 && |bodies| == i + 1
  {
    var j := tests[|tests| - 1].lo;
    && lo <= j && j + 2 == bodies[0] && bodies[i] == |code|
    && (forall k | 0 <= k <= i :: bodies[0] <= bodies[k])
    && TestsAt(m, code, c, ClauseCount(c), i + 1, tests, bodies, t, lo, j)
    && Has(code, j, DefaultJump(c, i + 1, bodies, j))
    && BodiesAt(m, code, holes, scopes, c, i, bodies)
    && (forall p | p in holes :: p < lo || p >= bodies[0])
  }

  // Before body i: the jump of its test, or the one at j, has been set.
  lemma BodyEntered(m: Machine, c0: seq<Word>, c1: seq<Word>, holes: map<nat, Hole>, scopes: seq<Scope>, c: Clauses,
                    i: nat, t: nat, tests: seq<TestSpot>, bodies: seq<nat>, lo: nat)
    requires i < ClauseCount(c) && |tests| == ClauseCount(c) + 1 && |bodies| == i + 1
    requires BodiesState(m, c0, holes, scopes, c, i, t, tests, bodies, lo) && !ClauseAt(c, i).NoClauses?
    requires var j := tests[|tests| - 1].lo;
             if ClauseAt(c, i).Case? then
               tests[i].hi + 1 < |c0| && c1 == c0[tests[i].hi + 1 := Offset(|c0| - tests[i].hi)]
             else j + 1 < |c0| && c1 == c0[j + 1 := Offset(|c0| - j)]
    ensures BodyReady(m, c1, holes, scopes, c, i, t, tests, bodies, lo)
    ensures c1[..lo] == c0[..lo] && forall p | p in holes && p < |c0| :: c1[p] == c0[p]
  {
    hide TestsAt, BodiesAt, Has, Encode;
    var j := tests[|tests| - 1].lo;
    if ClauseAt(c, i).Case? {
      TestSpan(m, c0, c, i, i, tests, bodies, t, lo, j);
      TestsPatch(m, c0, c1, c, i, tests, bodies, t, lo, j);
      HasAgrees(c0, c1, j, j + 2, j, DefaultJump(c, i, bodies, j));
    } else {
      TestsStay(m, c0, c1, c, i, tests, bodies, t, lo, j);
      HasRetargeted(c0, c1, j, DefaultJump(c, i, bodies, j), |c0| - j);
    }
    BodiesMove(m, c0, c1, holes, scopes, c, i, bodies);
  }

  // Body i is there.
  lemma BodyAdded(m: Machine, c1: seq<Word>, h1: map<nat, Hole>, c2: seq<Word>, h2: map<nat, Hole>,
                  scopes: seq<Scope>, c: Clauses, i: nat, t: nat, tests: seq<TestSpot>, bodies: seq<nat>, lo: nat)
    requires i < ClauseCount(c) && |tests| == ClauseCount(c) + 1 && |bodies| == i + 1 && !ClauseAt(c, i).NoClauses?
    requires BodyReady(m, c1, h1, scopes, c, i, t, tests, bodies, lo)
    requires c1 <= c2 && MoreHoles(h1, h2, |c1|) && StmtImpl(m, c2, h2, scopes, |c1|, |c2|, ClauseAt(c, i).body)
    ensures BodiesState(m, c2, h2, scopes, c, i + 1, t, tests, bodies + [|c2|], lo)
  {
    hide BodiesAt, TestAt, Has, StmtImpl;
    var n, j, bodies2 := ClauseCount(c), tests[|tests| - 1].lo, bodies + [|c2|];
    TestsMove(m, c1, c2, c, n, i + 1, tests, bodies, t, lo, j);
    forall k | 0 <= k < n
      ensures TestAt(m, c2, ClauseAt(c, k), k, tests, TestOffset(k, i + 1, tests, bodies2), t, lo, j)
    {
      assert TestAt(m, c2, ClauseAt(c, k), k, tests, TestOffset(k, i + 1, tests, bodies), t, lo, j);
    }
    HasKeeps(c1, c2, j, DefaultJump(c, i + 1, bodies, j));
    BodiesAdd(m, c1, h1, c2, h2, scopes, c, i, bodies);
  }

  // All bodies are there; without a "default" the jump at j is set to the end.
  lemma BodiesEnd(m: Machine, c0: seq<Word>, c1: seq<Word>, holes: map<nat, Hole>, scopes: seq<Scope>, c: Clauses,
                  t: nat, tests: seq<TestSpot>, bodies: seq<nat>, lo: nat)
    requires |tests| == |bodies| == ClauseCount(c) + 1 && tests[0].lo == lo
    requires BodiesState(m, c0, holes, scopes, c, ClauseCount(c), t, tests, bodies, lo)
    requires var j := tests[|tests| - 1].lo;
             if DefaultBefore(c, ClauseCount(c)).Some? then c1 == c0
             else j + 1 < |c0| && c1 == c0[j + 1 := Offset(|c0| - j)]
    ensures SwitchParts(m, c1, holes, scopes, c, t, tests, bodies, lo)
    ensures c1[..lo] == c0[..lo] && forall p | p in holes && p < |c0| :: c1[p] == c0[p]
  {
    hide TestsAt, BodiesAt, StmtImpl, Has, Encode;
    var n, j := ClauseCount(c), tests[|tests| - 1].lo;
    DefaultFound(c);
    TestsMove(m, c0, c1, c, n, n, tests, bodies, t, lo, j);
    BodiesMove(m, c0, c1, holes, scopes, c, n, bodies);
    if DefaultBefore(c, n).None? {
      HasRetargeted(c0, c1, j, IJump(1), |c0| - j);
    }
  }

  lemma HasInside(c: seq<Word>, p: nat, i: Instruction)
    requires Has(c, p, i)
    ensures p + Size(i) <= |c|
  {
  }

  // The jump field of the test of clause i is still one.
  lemma TestInside(m: Machine, code: seq<Word>, c: Clauses, i: nat, tests: seq<TestSpot>, bodies: seq<nat>, t: nat,
                   lo: nat, hi: nat)
    requires i < ClauseCount(c) && |tests| == ClauseCount(c) + 1 && |bodies| == i + 1 && ClauseAt(c, i).Case?
    requires TestsAt(m, code, c, ClauseCount(c), i, tests, bodies, t, lo, hi)
    ensures tests[i].hi + 4 <= |code| && code[tests[i].hi + 1] == Offset(1)
  {
    assert TestAt(m, code, ClauseAt(c, i), i, tests, TestOffset(i, i, tests, bodies), t, lo, hi);
    var p := tests[i].hi;
    assert code[p..p + 4][1] == Encode(IEqual(1, Temporary(t), tests[i].r))[1];
  }

  // c1 is the code with the discriminant, after c0; c2 has tests and bodies; the
  // exits are patched in c.
  lemma SwitchJoin(m: Machine, c0: seq<Word>, h0: map<nat, Hole>, c1: seq<Word>, c2: seq<Word>, b: OpenBlock,
                   h2: map<nat, Hole>, c: seq<Word>, scopes: seq<Scope>, s: Stmt, t: nat, tests: seq<TestSpot>,
                   bodies: seq<nat>)
    requires s.Switch? && c0 <= c1 && Below(h0, |c0|) && forall p | p in h0 :: h0[p].block < |scopes|
    requires |tests| == |bodies| == ClauseCount(s.clauses) + 1
    requires ExprImpl(m, c1, |c0|, |c1|, s.disc, Temporary(t), None, {}) && c1 <= c2
    requires SwitchParts(m, c2, h2, scopes + [Scope(SwitchKind, s.name)], s.clauses, t, tests, bodies, |c1|)
    requires MoreHoles(h0, h2, bodies[0]) && ListsOk(b, |scopes|, h2) && b.kind == SwitchKind
    requires forall p | p in h2 :: h2[p].block <= |scopes|
    requires Patched(c2, c, b.exit, |c2|)
    ensures var h := Without(h2, b.exit);
            c0 <= c && MoreHoles(h0, h, |c0|) && StmtImpl(m, c, h, scopes, |c0|, |c|, s)
  {
    hide ExprImpl, StmtImpl, TestsAt, BodiesAt, TestsImpl, BodiesImpl, Has, Encode;
    var n, j := ClauseCount(s.clauses), tests[|tests| - 1].lo;
    var h := Without(h2, b.exit);
    forall p | p in b.exit ensures p >= bodies[0] {
      assert p in h2 && h2[p].block == |scopes|;
    }
    assert Patched(c2, c2, b.continuation, |c2|);
    ListsClose(c2, b, |scopes|, h2, c2, c2, c, bodies[0], |c2|, |c2|);
    assert Without(Without(h2, b.continuation), b.exit) == h;
    BodiesCollect(m, c2, h2, scopes + [Scope(SwitchKind, s.name)], s.clauses, 0, bodies);
    ExprMoves(m, c1, c, |c0|, |c1|, s.disc, Temporary(t), None, {});
    TestsMove(m, c2, c, s.clauses, n, n, tests, bodies, t, |c1|, j);
    TestsCollect(m, c, s.clauses, 0, tests, bodies, t, |c1|, j);
    TestsInside(m, c, s.clauses, 0, tests, bodies, t, |c1|, |c0|, j);
    HasAgrees(c2, c, j, j + 2, j, IJump((bodies[DefaultIndex(s.clauses)] as int) - j));
    SwitchImpl(m, c2, h2, c, h, scopes, |c0|, s, t, tests, bodies, Target(|c|, |c|));
  }

  lemma {:induction false} TestsInside(m: Machine, code: seq<Word>, c: Clauses, i: nat, tests: seq<TestSpot>,
                                       bodies: seq<nat>, t: nat, lo: nat, lower: nat, hi: nat)
    requires |tests| == |bodies| == i + ClauseCount(c) + 1 && lower <= lo
    requires TestsImpl(m, code, c, i, tests, bodies, t, lo, hi)
    ensures TestsImpl(m, code, c, i, tests, bodies, t, lower, hi)
    decreases c
  {
    if !c.NoClauses? {
      TestsInside(m, code, c.next, i + 1, tests, bodies, t, lo, lower, hi);
    }
  }

  // The tests from lo on, the jump after them and the bodies, all set.
  ghost predicate SwitchParts(m: Machine, code: seq<Word>, holes: map<nat, Hole>, scopes: seq<Scope>, c: Clauses,
                              t: nat, tests: seq<TestSpot>, bodies: seq<nat>, lo: nat)
    requires |tests| == |bodies| == ClauseCount(c) + 1
  {
    var n, j := ClauseCount(c), tests[|tests| - 1].lo;
    && tests[0].lo == lo <= j && j + 2 == bodies[0] <= bodies[n] == |code|
    && TestsAt(m, code, c, n, n, tests, bodies, t, lo, j)
    && Has(code, j, IJump(bodies[DefaultIndex(c)] - j))
    && BodiesAt(m, code, holes, scopes, c, n, bodies)
  }
}
