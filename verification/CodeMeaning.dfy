// What it means for a stretch of code to implement a node of the tree, and one
// lemma per construct: parts that mean their subtrees, joined by the right
// instructions, mean the whole.
module CodeMeaning {
  import opened Wrappers
  import opened Bytecode
  import opened Syntax

  // ----- expressions -----

  predicate Kept(f: Frame, g: Frame, live: set<nat>) {
    forall t :: t in live ==> ReadTemp(g, t) == ReadTemp(f, t)
  }

  // The frame after the code of e ran from f: index r holds the value, the
  // variables changed as e says, and if r is the variable offered as the
  // destination it has been written as well.
  predicate Computes(m: Machine, e: Expr, f: Frame, g: Frame, r: Index, dest: Option<Index>, live: set<nat>) {
    var v := Evaluate(m, e, f.vars);
    && Read(g, r) == v.value
    && Kept(f, g, live)
    && g.vars == if dest == Some(r) && r.Variable? then Update(v.store, r.name, v.value) else v.store
  }

  ghost predicate ExprAt(m: Machine, code: seq<Word>, lo: nat, hi: nat, e: Expr, r: Index,
                         dest: Option<Index>, live: set<nat>, f: Frame)
  {
    exists g ::
      Reaches(m, code, State(lo, f), State(hi, g)) && Computes(m, e, f, g, r, dest, live)
  }

  // The code in [lo, hi) leaves the value of e in r, and keeps the live temporaries.
  ghost predicate ExprOk(m: Machine, code: seq<Word>, lo: nat, hi: nat, e: Expr, r: Index,
                         dest: Option<Index>, live: set<nat>)
  {
    forall f :: ExprAt(m, code, lo, hi, e, r, dest, live, f)
  }

  lemma ExprResult(m: Machine, code: seq<Word>, lo: nat, hi: nat, e: Expr, r: Index,
                   dest: Option<Index>, live: set<nat>, f: Frame) returns (g: Frame)
    requires ExprOk(m, code, lo, hi, e, r, dest, live)
    ensures Reaches(m, code, State(lo, f), State(hi, g)) && Computes(m, e, f, g, r, dest, live)
  {
    assert ExprAt(m, code, lo, hi, e, r, dest, live, f);
    g :| Reaches(m, code, State(lo, f), State(hi, g)) && Computes(m, e, f, g, r, dest, live);
  }

  function TempOf(i: Index): set<nat> {
    if i.Temporary? then {i.n} else {}
  }

  // dst is the destination offered by the parent, or else a temporary not in use.
  predicate IsDestination(dst: Index, dest: Option<Index>, live: set<nat>) {
    && Writable(dst)
    && TempOf(dst) !! live
    && (dest == Some(dst) || (dest.None? && dst.Temporary?))
  }

  lemma LeafOk(m: Machine, code: seq<Word>, lo: nat, e: Expr, r: Index, dest: Option<Index>, live: set<nat>)
    requires (e.Literal? && r == Constant(e.value)) || (e.Name? && r == Variable(e.name))
    ensures ExprOk(m, code, lo, lo, e, r, dest, live)
  {
    forall f ensures ExprAt(m, code, lo, lo, e, r, dest, live, f) {
      Zero(m, code, State(lo, f));
      assert Computes(m, e, f, f, r, dest, live);
    }
  }

  lemma UnaryOk(m: Machine, code: seq<Word>, lo: nat, mid: nat, op: nat, a: Expr, ra: Index,
                dst: Index, dest: Option<Index>, live: set<nat>)
    requires ExprOk(m, code, lo, mid, a, ra, None, live)
    requires Decode(code, mid) == Some(IUnary(op, dst, ra)) && IsDestination(dst, dest, live)
    ensures ExprOk(m, code, lo, mid + 3, Unary(op, a), dst, dest, live)
  {
    var e, hi := Unary(op, a), mid + 3;
    forall f ensures ExprAt(m, code, lo, hi, e, dst, dest, live, f) {
      var g := ExprResult(m, code, lo, mid, a, ra, None, live, f);
      var h := Write(g, dst, m.unary(op, Read(g, ra)));
      One(m, code, State(mid, g), State(mid + 3, h));
      Trans(m, code, State(lo, f), State(mid, g), State(mid + 3, h));
      assert Computes(m, e, f, h, dst, dest, live);
    }
  }

  // The optional move that puts the result of the left operand in a temporary.
  predicate SavedAs(code: seq<Word>, p: nat, q: nat, r: Index, s: Index, live: set<nat>) {
    (q == p && s == r)
    || (q == p + 3 && Decode(code, p) == Some(IMove(s, r)) && s.Temporary? && s.n !in live)
  }

  lemma SaveOk(m: Machine, code: seq<Word>, lo: nat, p: nat, q: nat, a: Expr, r: Index, s: Index, live: set<nat>)
    requires ExprOk(m, code, lo, p, a, r, None, live)
    requires SavedAs(code, p, q, r, s, live)
    ensures ExprOk(m, code, lo, q, a, s, None, live)
  {
    if q != p {
      forall f ensures ExprAt(m, code, lo, q, a, s, None, live, f) {
        var g := ExprResult(m, code, lo, p, a, r, None, live, f);
        var h := Write(g, s, Read(g, r));
        One(m, code, State(p, g), State(q, h));
        Trans(m, code, State(lo, f), State(p, g), State(q, h));
        assert Computes(m, a, f, h, s, None, live);
      }
    }
  }

  lemma BinaryOk(m: Machine, code: seq<Word>, lo: nat, mid: nat, end: nat, op: nat,
                 a: Expr, ra: Index, b: Expr, rb: Index, dst: Index, dest: Option<Index>, live: set<nat>)
    requires ExprOk(m, code, lo, mid, a, ra, None, live)
    requires ExprOk(m, code, mid, end, b, rb, None, live + TempOf(ra))
    requires !m.keeps && Reread(a, b) == NameOf(ra)
    requires Decode(code, end) == Some(IBinary(op, dst, ra, rb)) && IsDestination(dst, dest, live)
    ensures ExprOk(m, code, lo, end + 4, Binary(op, a, b), dst, dest, live)
  {
    var e, hi := Binary(op, a, b), end + 4;
    forall f ensures ExprAt(m, code, lo, hi, e, dst, dest, live, f) {
      var g := ExprResult(m, code, lo, mid, a, ra, None, live, f);
      var h := ExprResult(m, code, mid, end, b, rb, None, live + TempOf(ra), g);
      assert Read(h, ra) == LeftValue(m, a, b, Read(g, ra), h.vars);
      var k := Write(h, dst, m.binary(op, Read(h, ra), Read(h, rb)));
      One(m, code, State(end, h), State(end + 4, k));
      Trans(m, code, State(lo, f), State(mid, g), State(end, h));
      Trans(m, code, State(lo, f), State(end, h), State(end + 4, k));
      assert Computes(m, e, f, k, dst, dest, live);
    }
  }

  // The move that follows code whose result is not yet in its destination.
  predicate MovedTo(code: seq<Word>, p: nat, q: nat, r: Index, dst: Index) {
    if r == dst then q == p else q == p + 3 && Decode(code, p) == Some(IMove(dst, r))
  }

  lemma MoveOk(m: Machine, code: seq<Word>, lo: nat, p: nat, q: nat, e: Expr, r: Index, dst: Index, live: set<nat>)
    requires ExprOk(m, code, lo, p, e, r, Some(dst), live)
    requires MovedTo(code, p, q, r, dst) && Writable(dst) && TempOf(dst) !! live
    ensures ExprOk(m, code, lo, q, e, dst, Some(dst), live)
  {
    if r != dst {
      forall f ensures ExprAt(m, code, lo, q, e, dst, Some(dst), live, f) {
        var g := ExprResult(m, code, lo, p, e, r, Some(dst), live, f);
        var h := Write(g, dst, Read(g, r));
        One(m, code, State(p, g), State(q, h));
        Trans(m, code, State(lo, f), State(p, g), State(q, h));
        assert Computes(m, e, f, h, dst, Some(dst), live);
      }
    }
  }

  lemma ConditionalOk(m: Machine, code: seq<Word>, lo: nat, test: nat, jump: nat, end: nat,
                      c: Expr, rc: Index, y: Expr, n: Expr, dst: Index, dest: Option<Index>, live: set<nat>)
    requires ExprOk(m, code, lo, test, c, rc, None, live)
    requires Decode(code, test) == Some(ICond(false, jump + 2 - test, rc))
    requires ExprOk(m, code, test + 3, jump, y, dst, Some(dst), live)
    requires Decode(code, jump) == Some(IJump(end - jump))
    requires ExprOk(m, code, jump + 2, end, n, dst, Some(dst), live)
    requires IsDestination(dst, dest, live)
    ensures ExprOk(m, code, lo, end, Conditional(c, y, n), dst, dest, live)
  {
    var e := Conditional(c, y, n);
    forall f ensures ExprAt(m, code, lo, end, e, dst, dest, live, f) {
      var g := ExprResult(m, code, lo, test, c, rc, None, live, f);
      if m.truthy(Read(g, rc)) {
        One(m, code, State(test, g), State(test + 3, g));
        var h := ExprResult(m, code, test + 3, jump, y, dst, Some(dst), live, g);
        One(m, code, State(jump, h), State(end, h));
        Trans(m, code, State(lo, f), State(test, g), State(test + 3, g));
        Trans(m, code, State(lo, f), State(test + 3, g), State(jump, h));
        Trans(m, code, State(lo, f), State(jump, h), State(end, h));
        assert Computes(m, e, f, h, dst, dest, live);
      } else {
        One(m, code, State(test, g), State(jump + 2, g));
        var h := ExprResult(m, code, jump + 2, end, n, dst, Some(dst), live, g);
        Trans(m, code, State(lo, f), State(test, g), State(jump + 2, g));
        Trans(m, code, State(lo, f), State(jump + 2, g), State(end, h));
        assert Computes(m, e, f, h, dst, dest, live);
      }
    }
  }

  lemma LogicalOk(m: Machine, code: seq<Word>, lo: nat, test: nat, end: nat, isOr: bool,
                  a: Expr, ra: Index, b: Expr, t: nat, dest: Option<Index>, live: set<nat>)
    requires ExprOk(m, code, lo, test, a, ra, None, live)
    requires Decode(code, test) == Some(ITest(isOr, Temporary(t), ra, end - test))
    requires ExprOk(m, code, test + 4, end, b, Temporary(t), Some(Temporary(t)), live)
    requires t !in live
    ensures ExprOk(m, code, lo, end, Logical(isOr, a, b), Temporary(t), dest, live)
  {
    var e := Logical(isOr, a, b);
    var r := Temporary(t);
    forall f ensures ExprAt(m, code, lo, end, e, r, dest, live, f) {
      var g := ExprResult(m, code, lo, test, a, ra, None, live, f);
      var h := Write(g, r, Read(g, ra));
      if m.truthy(Read(g, ra)) == isOr {
        One(m, code, State(test, g), State(end, h));
        Trans(m, code, State(lo, f), State(test, g), State(end, h));
        assert Computes(m, e, f, h, r, dest, live);
      } else {
        One(m, code, State(test, g), State(test + 4, h));
        var k := ExprResult(m, code, test + 4, end, b, r, Some(r), live, h);
        Trans(m, code, State(lo, f), State(test, g), State(test + 4, h));
        Trans(m, code, State(lo, f), State(test + 4, h), State(end, k));
        assert Computes(m, e, f, k, r, dest, live);
      }
    }
  }

  lemma CommaOk(m: Machine, code: seq<Word>, lo: nat, mid: nat, end: nat, a: Expr, ra: Index,
                b: Expr, rb: Index, dest: Option<Index>, live: set<nat>)
    requires ExprOk(m, code, lo, mid, a, ra, None, live)
    requires ExprOk(m, code, mid, end, b, rb, None, live)
    ensures ExprOk(m, code, lo, end, Comma(a, b), rb, dest, live)
  {
    var e := Comma(a, b);
    forall f ensures ExprAt(m, code, lo, end, e, rb, dest, live, f) {
      var g := ExprResult(m, code, lo, mid, a, ra, None, live, f);
      var h := ExprResult(m, code, mid, end, b, rb, None, live, g);
      Trans(m, code, State(lo, f), State(mid, g), State(end, h));
      assert Computes(m, e, f, h, rb, dest, live);
    }
  }

  lemma AssignOk(m: Machine, code: seq<Word>, lo: nat, p: nat, q: nat, x: string, a: Expr, ra: Index,
                 dest: Option<Index>, live: set<nat>)
    requires ExprOk(m, code, lo, p, a, ra, Some(Variable(x)), live)
    requires MovedTo(code, p, q, ra, Variable(x))
    ensures ExprOk(m, code, lo, q, Assign(x, a), ra, dest, live)
  {
    var e := Assign(x, a);
    var v := Variable(x);
    forall f ensures ExprAt(m, code, lo, q, e, ra, dest, live, f) {
      var g := ExprResult(m, code, lo, p, a, ra, Some(v), live, f);
      if ra == v {
        assert Computes(m, e, f, g, ra, dest, live);
      } else {
        var h := Write(g, v, Read(g, ra));
        One(m, code, State(p, g), State(q, h));
        Trans(m, code, State(lo, f), State(p, g), State(q, h));
        assert Computes(m, e, f, h, ra, dest, live);
      }
    }
  }

  lemma OpAssignOk(m: Machine, code: seq<Word>, lo: nat, mid: nat, end: nat, op: nat, x: string, s: Index,
                   a: Expr, ra: Index, dest: Option<Index>, live: set<nat>)
    requires ExprOk(m, code, lo, mid, Name(x), s, None, live)
    requires ExprOk(m, code, mid, end, a, ra, None, live + TempOf(s))
    requires !m.keeps && Reread(Name(x), a) == NameOf(s)
    requires Decode(code, end) == Some(IBinary(op, Variable(x), s, ra))
    ensures ExprOk(m, code, lo, end + 4, OpAssign(op, x, a), Variable(x), dest, live)
  {
    var e := OpAssign(op, x, a);
    var r, hi := Variable(x), end + 4;
    forall f ensures ExprAt(m, code, lo, hi, e, r, dest, live, f) {
      var g := ExprResult(m, code, lo, mid, Name(x), s, None, live, f);
      var h := ExprResult(m, code, mid, end, a, ra, None, live + TempOf(s), g);
      assert Read(h, s) == LeftValue(m, Name(x), a, Read(g, s), h.vars);
      var k := Write(h, r, m.binary(op, Read(h, s), Read(h, ra)));
      One(m, code, State(end, h), State(end + 4, k));
      Trans(m, code, State(lo, f), State(mid, g), State(end, h));
      Trans(m, code, State(lo, f), State(end, h), State(end + 4, k));
      assert Computes(m, e, f, k, r, dest, live);
    }
  }

  lemma CountOk(m: Machine, code: seq<Word>, lo: nat, decrement: bool, post: bool, x: string,
                dst: Index, dest: Option<Index>, live: set<nat>)
    requires Decode(code, lo) == Some(ICount(decrement, post, dst, Variable(x), Variable(x)))
    requires IsDestination(dst, dest, live)
    ensures ExprOk(m, code, lo, lo + 4, Count(decrement, post, x), dst, dest, live)
  {
    var e, hi := Count(decrement, post, x), lo + 4;
    forall f ensures ExprAt(m, code, lo, hi, e, dst, dest, live, f) {
      var ev := Evaluate(m, e, f.vars);
      var num := m.numeric(Lookup(f.vars, x));
      var g := Write(f, Variable(x), m.count(decrement, num));
      var h := Write(g, dst, ev.value);
      One(m, code, State(lo, f), State(lo + 4, h));
      assert Computes(m, e, f, h, dst, dest, live);
    }
  }

  // ----- blocks and labels -----

  datatype Kind = LoopKind | SwitchKind | BlockKind

  // What a lookup reads of a block the generator has open.
  datatype Scope = Scope(kind: Kind, name: string)

  predicate Matches(s: Scope, mask: set<Kind>, name: string) {
    s.kind in mask && (name == "" || s.name == name)
  }

  // The innermost open block (the last one) of a kind in the mask with the label.
  function FindBlock(scopes: seq<Scope>, mask: set<Kind>, name: string): (r: Option<nat>)
    ensures r.Some? ==> r.value < |scopes| && Matches(scopes[r.value], mask, name)
    ensures forall k | 0 <= k < |scopes| && (r.Some? ==> r.value < k) :: !Matches(scopes[k], mask, name)
  {
    if scopes == [] then None
    else if Matches(scopes[|scopes| - 1], mask, name) then Some(|scopes| - 1)
    else FindBlock(scopes[..|scopes| - 1], mask, name)
  }

  function BreakMask(name: string): set<Kind> {
    if name == "" then {LoopKind, SwitchKind} else {LoopKind, SwitchKind, BlockKind}
  }

  const CONTINUE_MASK: set<Kind> := {LoopKind}

  // Where the breaks and continues of an open block go.
  datatype Target = Target(brk: nat, cont: nat)

  function Destination(o: Outcome, scopes: seq<Scope>, env: seq<Target>, hi: nat): Option<nat>
    requires |env| == |scopes|
  {
    match o
    case Normal => Some(hi)
    case Broke(t) =>
      var k := FindBlock(scopes, BreakMask(t), t);
      if k.Some? then Some(env[k.value].brk) else None
    case Continued(t) =>
      var k := FindBlock(scopes, CONTINUE_MASK, t);
      if k.Some? then Some(env[k.value].cont) else None
  }

  function JumpOutcome(s: Stmt): Outcome
    requires s.Break? || s.Continue?
  {
    if s.Break? then Broke(s.target) else Continued(s.target)
  }

  // Outcomes the block s takes for itself.
  predicate TakesBreak(s: Scope, o: Outcome) {
    if s.kind == BlockKind then BlockCatches(s.name, o) else CatchesBreak(s.name, o)
  }

  predicate TakesContinue(s: Scope, o: Outcome) {
    s.kind == LoopKind && CatchesContinue(s.name, o)
  }

  lemma InnerDestination(o: Outcome, scopes: seq<Scope>, env: seq<Target>, s: Scope, t: Target, inner: nat, hi: nat)
    requires |env| == |scopes|
    ensures TakesBreak(s, o) ==> Destination(o, scopes + [s], env + [t], inner) == Some(t.brk)
    ensures TakesContinue(s, o) ==> Destination(o, scopes + [s], env + [t], inner) == Some(t.cont)
    ensures !o.Normal? && !TakesBreak(s, o) && !TakesContinue(s, o) ==>
              Destination(o, scopes + [s], env + [t], inner) == Destination(o, scopes, env, hi)
  {
    assert (scopes + [s])[..|scopes|] == scopes;
  }

  // ----- statements -----

  ghost predicate ReachesStore(m: Machine, code: seq<Word>, s: State, pc: nat, st: Store) {
    exists g :: Reaches(m, code, s, State(pc, g)) && g.vars == st
  }

  // From s the machine does what r says: it gets to where outcome r leads with
  // the variables of r or, if r was cut short, makes at least k steps.
  ghost predicate Yields(m: Machine, code: seq<Word>, scopes: seq<Scope>, env: seq<Target>, hi: nat,
                         s: State, r: Exec, k: nat)
    requires |env| == |scopes|
  {
    match r
    case Timeout => Runs(m, code, s, k)
    case Done(o, st) =>
      var d := Destination(o, scopes, env, hi);
      d.Some? && ReachesStore(m, code, s, d.value, st)
  }

  ghost predicate StmtAt(m: Machine, code: seq<Word>, scopes: seq<Scope>, env: seq<Target>,
                         lo: nat, hi: nat, s: Stmt, f: Frame, fuel: nat)
    requires |env| == |scopes|
  {
    Yields(m, code, scopes, env, hi, State(lo, f), Execute(m, s, f.vars, fuel), fuel)
  }

  ghost predicate Means(m: Machine, code: seq<Word>, scopes: seq<Scope>, env: seq<Target>,
                        lo: nat, hi: nat, s: Stmt)
    requires |env| == |scopes|
  {
    forall f, fuel: nat :: StmtAt(m, code, scopes, env, lo, hi, s, f, fuel)
  }

  // ----- where the parts of a statement are -----

  // A condition, and the jump taken when it fails.
  ghost predicate CondCode(m: Machine, code: seq<Word>, lo: nat, test: nat, to: nat, c: Expr, rc: Index) {
    && lo <= test && ExprOk(m, code, lo, test, c, rc, None, {})
    && Decode(code, test) == Some(ICond(false, to - test, rc))
  }

  datatype LoopShape = LoopShape(body: nat, cont: nat, test: nat, back: nat, end: nat, rc: Index, ru: Index)

  // What comes before the body of a for loop.
  ghost predicate ForHead(m: Machine, code: seq<Word>, lo: nat, mid: nat, s: Stmt, ri: Index, p: LoopShape)
    requires s.For?
  {
    && lo <= mid
    && (match s.init
        case None => mid == lo
        case Some(i) => ExprOk(m, code, lo, mid, i, ri, None, {}))
    && (if s.test.Some? then p.body == mid + 2 && Decode(code, mid) == Some(IJump(p.test - mid)) else p.body == mid)
  }

  // Where the test of a clause is and which index holds its value.
  datatype TestSpot = TestSpot(lo: nat, hi: nat, r: Index)

  // The tests of the clauses c, the first of which has number i: each compares
  // its value with temporary t and jumps to the body of the same number.
  ghost predicate TestsCode(m: Machine, code: seq<Word>, c: Clauses, i: nat, tests: seq<TestSpot>, bodies: seq<nat>,
                            t: nat)
    requires |tests| == |bodies| == i + ClauseCount(c) + 1
    decreases c
  {
    match c
    case NoClauses => true
    case Default(_, next) =>
      tests[i + 1].lo == tests[i].lo && TestsCode(m, code, next, i + 1, tests, bodies, t)
    case Case(e, _, next) =>
      && tests[i].lo <= tests[i].hi
      && ExprOk(m, code, tests[i].lo, tests[i].hi, e, tests[i].r, None, {t})
      && Decode(code, tests[i].hi) == Some(IEqual(bodies[i] - tests[i].hi, Temporary(t), tests[i].r))
      && tests[i + 1].lo == tests[i].hi + 4
      && TestsCode(m, code, next, i + 1, tests, bodies, t)
  }

  // Discriminant, tests, and the jump taken when all fail, up to the first body.
  ghost predicate SwitchCode(m: Machine, code: seq<Word>, lo: nat, s: Stmt, t: nat, tests: seq<TestSpot>,
                             bodies: seq<nat>)
    requires s.Switch? && |tests| == |bodies| == ClauseCount(s.clauses) + 1
  {
    && lo <= tests[0].lo && ExprOk(m, code, lo, tests[0].lo, s.disc, Temporary(t), None, {})
    && TestsCode(m, code, s.clauses, 0, tests, bodies, t)
    && (var j := tests[|tests| - 1].lo;
        bodies[0] == j + 2 && Decode(code, j) == Some(IJump(bodies[DefaultIndex(s.clauses)] - j)))
  }

  // The code of s is [lo, hi): it means s, and so do its parts their subtrees, one
  // after another with the instructions that join them.  A break or continue is
  // one jump to the end or the continuation of the innermost block it matches; a
  // block ends where its code does, and a loop continues where the code of its
  // body ends.  With "ahead" all of these jumps lead forward.
  ghost predicate Laid(m: Machine, code: seq<Word>, scopes: seq<Scope>, env: seq<Target>, lo: nat, hi: nat, s: Stmt,
                       ahead: bool)
    requires |env| == |scopes|
    decreases s, 1
  {
    lo <= hi && Means(m, code, scopes, env, lo, hi, s) &&
    match s
    case Empty => lo == hi
    case Expression(e) =>
      exists r :: ExprOk(m, code, lo, hi, e, r, None, {})
    case Sequence(a, b) =>
      exists mid: nat ::
        Laid(m, code, scopes, env, lo, mid, a, ahead) && Laid(m, code, scopes, env, mid, hi, b, ahead)
    case Block(n, b) =>
      Laid(m, code, scopes + [Scope(BlockKind, n)], env + [Target(hi, hi)], lo, hi, b, ahead)
    case If(c, y) =>
      exists test: nat, rc ::
        CondCode(m, code, lo, test, hi, c, rc) && Laid(m, code, scopes, env, test + 3, hi, y, ahead)
    case IfElse(c, y, n) =>
      exists test: nat, jump: nat, rc :: BranchesCode(m, code, scopes, env, lo, test, jump, hi, s, rc, ahead)
    case While(_, _, _) =>
      exists p: LoopShape :: p.body == lo + 2 && p.end == hi && Decode(code, lo) == Some(IJump(p.test - lo))
                  && LoopCode(m, code, scopes, env, s, p, ahead)
    case DoWhile(_, _, _) =>
      exists p: LoopShape :: p.body == lo && p.end == hi && LoopCode(m, code, scopes, env, s, p, ahead)
    case For(_, _, _, _, _) =>
      exists mid: nat, ri, p: LoopShape ::
        ForHead(m, code, lo, mid, s, ri, p) && p.end == hi && LoopCode(m, code, scopes, env, s, p, ahead)
    case Switch(n, _, c) =>
      exists t: nat, tests: seq<TestSpot>, bodies: seq<nat> | |tests| == |bodies| == ClauseCount(c) + 1 ::
        && SwitchCode(m, code, lo, s, t, tests, bodies) && bodies[|bodies| - 1] == hi
        && BodiesCode(m, code, scopes + [Scope(SwitchKind, n)], env + [Target(hi, hi)], c, 0, bodies, ahead)
    case _ =>
      var d := Destination(JumpOutcome(s), scopes, env, hi);
      d.Some? && hi == lo + 2 && Decode(code, lo) == Some(IJump(d.value - lo)) && (ahead ==> d.value >= hi)
  }

  // Condition, first branch, jump over the second branch, and second branch.
  ghost predicate BranchesCode(m: Machine, code: seq<Word>, scopes: seq<Scope>, env: seq<Target>, lo: nat, test: nat,
                               jump: nat, hi: nat, s: Stmt, rc: Index, ahead: bool)
    requires |env| == |scopes| && s.IfElse?
    decreases s, 0
  {
    && CondCode(m, code, lo, test, jump + 2, s.cond, rc) && Laid(m, code, scopes, env, test + 3, jump, s.yes, ahead)
    && Decode(code, jump) == Some(IJump(hi - jump)) && Laid(m, code, scopes, env, jump + 2, hi, s.no, ahead)
  }

  ghost predicate StmtOk(m: Machine, code: seq<Word>, scopes: seq<Scope>, env: seq<Target>,
                         lo: nat, hi: nat, s: Stmt)
    requires |env| == |scopes|
  {
    Laid(m, code, scopes, env, lo, hi, s, false)
  }

  // Body, update and test of a loop one after another, the last instruction
  // leading back to the body.
  ghost predicate LoopCode(m: Machine, code: seq<Word>, scopes: seq<Scope>, env: seq<Target>, s: Stmt, p: LoopShape,
                           ahead: bool)
    requires |env| == |scopes| && IsLoop(s)
    decreases s, 0
  {
    && Laid(m, code, scopes + [Scope(LoopKind, s.name)], env + [Target(p.end, p.cont)], p.body, p.cont, s.body, ahead)
    && p.cont <= p.test
    && (match LoopUpdate(s)
        case None => p.test == p.cont
        case Some(u) => ExprOk(m, code, p.cont, p.test, u, p.ru, None, {}))
    && (match LoopTest(s)
        case None => p.end == p.test + 2 && Decode(code, p.test) == Some(IJump(p.body - p.test))
        case Some(c) =>
          && p.test <= p.back && ExprOk(m, code, p.test, p.back, c, p.rc, None, {})
          && Decode(code, p.back) == Some(ICond(true, p.body - p.back, p.rc))
          && p.end == p.back + 3)
  }

  // The bodies of the clauses c, the first of which has number i.
  ghost predicate BodiesCode(m: Machine, code: seq<Word>, scopes: seq<Scope>, env: seq<Target>, c: Clauses, i: nat,
                             bodies: seq<nat>, ahead: bool)
    requires |env| == |scopes| && |bodies| == i + ClauseCount(c) + 1
    decreases c, 0
  {
    c.NoClauses?
    || (&& Laid(m, code, scopes, env, bodies[i], bodies[i + 1], c.body, ahead)
        && BodiesCode(m, code, scopes, env, c.next, i + 1, bodies, ahead))
  }

  predicate Ahead(env: seq<Target>, hi: nat) {
    forall k | 0 <= k < |env| :: env[k].brk >= hi && env[k].cont >= hi
  }

  lemma LaidOrder(m: Machine, code: seq<Word>, scopes: seq<Scope>, env: seq<Target>, lo: nat, hi: nat, s: Stmt)
    requires |env| == |scopes| && Laid(m, code, scopes, env, lo, hi, s, false)
    ensures lo <= hi
  {
  }

  // If the open blocks end and continue only after it, all jumps of s lead forward.
  lemma {:induction false} LaidAhead(m: Machine, code: seq<Word>, scopes: seq<Scope>, env: seq<Target>, lo: nat,
                                     hi: nat, s: Stmt)
    requires |env| == |scopes| && Laid(m, code, scopes, env, lo, hi, s, false) && Ahead(env, hi)
    ensures Laid(m, code, scopes, env, lo, hi, s, true)
    decreases s, 1
  {
    hide Means, ExprOk, Decode;
    match s
    case Empty =>
    case Expression(_) =>
    case Sequence(a, b) =>
      var mid: nat :|
        Laid(m, code, scopes, env, lo, mid, a, false) && Laid(m, code, scopes, env, mid, hi, b, false);
      LaidAhead(m, code, scopes, env, lo, mid, a);
      LaidAhead(m, code, scopes, env, mid, hi, b);
    case Block(n, b) =>
      LaidAhead(m, code, scopes + [Scope(BlockKind, n)], env + [Target(hi, hi)], lo, hi, b);
    case If(c, y) =>
      var test: nat, rc :|
        CondCode(m, code, lo, test, hi, c, rc) && Laid(m, code, scopes, env, test + 3, hi, y, false);
      LaidAhead(m, code, scopes, env, test + 3, hi, y);
    case IfElse(c, y, n) =>
      var test: nat, jump: nat, rc :| BranchesCode(m, code, scopes, env, lo, test, jump, hi, s, rc, false);
      LaidOrder(m, code, scopes, env, jump + 2, hi, n);
      LaidAhead(m, code, scopes, env, test + 3, jump, y);
      LaidAhead(m, code, scopes, env, jump + 2, hi, n);
      assert BranchesCode(m, code, scopes, env, lo, test, jump, hi, s, rc, true);
    case While(_, _, _) =>
      var p: LoopShape :| p.body == lo + 2 && p.end == hi && Decode(code, lo) == Some(IJump(p.test - lo))
               && LoopCode(m, code, scopes, env, s, p, false);
      LoopAhead(m, code, scopes, env, s, p);
    case DoWhile(_, _, _) =>
      var p: LoopShape :| p.body == lo && p.end == hi && LoopCode(m, code, scopes, env, s, p, false);
      LoopAhead(m, code, scopes, env, s, p);
    case For(_, _, _, _, _) =>
      var mid: nat, ri, p: LoopShape :|
        ForHead(m, code, lo, mid, s, ri, p) && p.end == hi && LoopCode(m, code, scopes, env, s, p, false);
      LoopAhead(m, code, scopes, env, s, p);
    case Switch(n, _, c) =>
      var sc, e := scopes + [Scope(SwitchKind, n)], env + [Target(hi, hi)];
      var t: nat, tests: seq<TestSpot>, bodies: seq<nat> :|
        && |tests| == |bodies| == ClauseCount(c) + 1
        && SwitchCode(m, code, lo, s, t, tests, bodies) && bodies[|bodies| - 1] == hi
        && BodiesCode(m, code, sc, e, c, 0, bodies, false);
      BodiesAhead(m, code, sc, e, c, 0, bodies);
    case _ =>
  }

  // In a loop whose body is a break for it or a continue, the first instruction of
  // the body leads to the end, or to the test right behind it.
  lemma LoopJumps(m: Machine, code: seq<Word>, scopes: seq<Scope>, env: seq<Target>, lo: nat, hi: nat, name: string,
                  c: Expr, body: Stmt)
    requires |env| == |scopes| && (body == Break("") || body == Stmt.Continue(""))
    requires Laid(m, code, scopes, env, lo, hi, While(name, c, body), true)
    ensures Decode(code, lo + 2) == Some(IJump(if body.Break? then hi - (lo + 2) else 2))
  {
    hide Means, ExprOk, Decode;
    var s := While(name, c, body);
    var p: LoopShape :| p.body == lo + 2 && p.end == hi && LoopCode(m, code, scopes, env, s, p, true);
    InnerDestination(JumpOutcome(body), scopes, env, Scope(LoopKind, name), Target(p.end, p.cont), p.cont, p.cont);
    LoopBodyLaid(m, code, scopes, env, s, p);
    JumpLaid(m, code, scopes + [Scope(LoopKind, name)], env + [Target(p.end, p.cont)], p.body, p.cont, body);
  }

  lemma LoopBodyLaid(m: Machine, code: seq<Word>, scopes: seq<Scope>, env: seq<Target>, s: Stmt, p: LoopShape)
    requires |env| == |scopes| && IsLoop(s) && LoopCode(m, code, scopes, env, s, p, true)
    ensures var sc, t := scopes + [Scope(LoopKind, s.name)], env + [Target(p.end, p.cont)];
            Laid(m, code, sc, t, p.body, p.cont, s.body, true)
  {
  }

  lemma JumpLaid(m: Machine, code: seq<Word>, scopes: seq<Scope>, env: seq<Target>, lo: nat, hi: nat, s: Stmt)
    requires |env| == |scopes| && (s.Break? || s.Continue?) && Laid(m, code, scopes, env, lo, hi, s, true)
    ensures var d := Destination(JumpOutcome(s), scopes, env, hi);
            d.Some? && hi == lo + 2 && Decode(code, lo) == Some(IJump(d.value - lo)) && d.value - lo >= 2
  {
  }

  lemma {:induction false} LoopAhead(m: Machine, code: seq<Word>, scopes: seq<Scope>, env: seq<Target>, s: Stmt,
                                     p: LoopShape)
    requires IsLoop(s) && |env| == |scopes| && LoopCode(m, code, scopes, env, s, p, false) && Ahead(env, p.end)
    ensures LoopCode(m, code, scopes, env, s, p, true)
    decreases s, 0
  {
    hide Means, ExprOk, Decode;
    LaidAhead(m, code, scopes + [Scope(LoopKind, s.name)], env + [Target(p.end, p.cont)], p.body, p.cont, s.body);
  }

  lemma {:induction false} BodiesAhead(m: Machine, code: seq<Word>, scopes: seq<Scope>, env: seq<Target>, c: Clauses,
                                       i: nat, bodies: seq<nat>)
    requires |env| == |scopes| && |bodies| == i + ClauseCount(c) + 1
    requires BodiesCode(m, code, scopes, env, c, i, bodies, false) && Ahead(env, bodies[|bodies| - 1])
    ensures BodiesCode(m, code, scopes, env, c, i, bodies, true) && bodies[i] <= bodies[|bodies| - 1]
    decreases c, 0
  {
    hide Means, ExprOk, Decode;
    if !c.NoClauses? {
      BodiesAhead(m, code, scopes, env, c.next, i + 1, bodies);
      LaidAhead(m, code, scopes, env, bodies[i], bodies[i + 1], c.body);
    }
  }

  lemma YieldsAfter(m: Machine, code: seq<Word>, scopes: seq<Scope>, env: seq<Target>, hi: nat,
                    s: State, t: State, r: Exec, k: nat)
    requires |env| == |scopes|
    requires Reaches(m, code, s, t) && Yields(m, code, scopes, env, hi, t, r, k)
    ensures Yields(m, code, scopes, env, hi, s, r, k)
  {
    match r
    case Timeout => RunsAfter(m, code, s, t, k);
    case Done(o, st) =>
      var d := Destination(o, scopes, env, hi).value;
      var g :| Reaches(m, code, t, State(d, g)) && g.vars == st;
      Trans(m, code, s, t, State(d, g));
  }

  lemma StmtResult(m: Machine, code: seq<Word>, scopes: seq<Scope>, env: seq<Target>, lo: nat, hi: nat,
                   s: Stmt, f: Frame, fuel: nat) returns (r: Exec)
    requires |env| == |scopes| && StmtOk(m, code, scopes, env, lo, hi, s)
    ensures r == Execute(m, s, f.vars, fuel)
    ensures Yields(m, code, scopes, env, hi, State(lo, f), r, fuel)
  {
    r := Execute(m, s, f.vars, fuel);
    assert StmtAt(m, code, scopes, env, lo, hi, s, f, fuel);
  }

  lemma EmptyOk(m: Machine, code: seq<Word>, scopes: seq<Scope>, env: seq<Target>, lo: nat)
    requires |env| == |scopes|
    ensures StmtOk(m, code, scopes, env, lo, lo, Empty)
  {
    forall f, fuel: nat ensures StmtAt(m, code, scopes, env, lo, lo, Empty, f, fuel) {
      Zero(m, code, State(lo, f));
    }
  }

  lemma ExpressionOk(m: Machine, code: seq<Word>, scopes: seq<Scope>, env: seq<Target>, lo: nat, hi: nat,
                     e: Expr, r: Index)
    requires |env| == |scopes| && lo <= hi && ExprOk(m, code, lo, hi, e, r, None, {})
    ensures StmtOk(m, code, scopes, env, lo, hi, Expression(e))
  {
    forall f, fuel: nat ensures StmtAt(m, code, scopes, env, lo, hi, Expression(e), f, fuel) {
      var g := ExprResult(m, code, lo, hi, e, r, None, {}, f);
    }
  }

  lemma SequenceOk(m: Machine, code: seq<Word>, scopes: seq<Scope>, env: seq<Target>, lo: nat, mid: nat, hi: nat,
                   a: Stmt, b: Stmt)
    requires |env| == |scopes|
    requires StmtOk(m, code, scopes, env, lo, mid, a) && StmtOk(m, code, scopes, env, mid, hi, b)
    ensures StmtOk(m, code, scopes, env, lo, hi, Sequence(a, b))
  {
    forall f, fuel: nat ensures StmtAt(m, code, scopes, env, lo, hi, Sequence(a, b), f, fuel) {
      var r := StmtResult(m, code, scopes, env, lo, mid, a, f, fuel);
      if r.Done? && r.outcome.Normal? {
        var g :| Reaches(m, code, State(lo, f), State(mid, g)) && g.vars == r.store;
        var r2 := StmtResult(m, code, scopes, env, mid, hi, b, g, fuel);
        YieldsAfter(m, code, scopes, env, hi, State(lo, f), State(mid, g), r2, fuel);
      }
    }
  }

  lemma BlockOk(m: Machine, code: seq<Word>, scopes: seq<Scope>, env: seq<Target>, lo: nat, hi: nat,
                name: string, body: Stmt, t: Target)
    requires |env| == |scopes| && t == Target(hi, hi)
    requires StmtOk(m, code, scopes + [Scope(BlockKind, name)], env + [t], lo, hi, body)
    ensures StmtOk(m, code, scopes, env, lo, hi, Block(name, body))
  {
    var sc := Scope(BlockKind, name);
    forall f, fuel: nat ensures StmtAt(m, code, scopes, env, lo, hi, Block(name, body), f, fuel) {
      var r := StmtResult(m, code, scopes + [sc], env + [t], lo, hi, body, f, fuel);
      if r.Done? {
        InnerDestination(r.outcome, scopes, env, sc, t, hi, hi);
      }
    }
  }

  lemma IfOk(m: Machine, code: seq<Word>, scopes: seq<Scope>, env: seq<Target>, lo: nat, test: nat, hi: nat,
             c: Expr, rc: Index, y: Stmt)
    requires |env| == |scopes| && lo <= test && ExprOk(m, code, lo, test, c, rc, None, {})
    requires Decode(code, test) == Some(ICond(false, hi - test, rc))
    requires StmtOk(m, code, scopes, env, test + 3, hi, y)
    ensures StmtOk(m, code, scopes, env, lo, hi, If(c, y))
  {
    assert CondCode(m, code, lo, test, hi, c, rc);
    forall f, fuel: nat ensures StmtAt(m, code, scopes, env, lo, hi, If(c, y), f, fuel) {
      var g := ExprResult(m, code, lo, test, c, rc, None, {}, f);
      var next := if m.truthy(Read(g, rc)) then State(test + 3, g) else State(hi, g);
      One(m, code, State(test, g), next);
      Trans(m, code, State(lo, f), State(test, g), next);
      if m.truthy(Read(g, rc)) {
        var r := StmtResult(m, code, scopes, env, test + 3, hi, y, g, fuel);
        YieldsAfter(m, code, scopes, env, hi, State(lo, f), next, r, fuel);
      }
    }
  }

  lemma IfElseOk(m: Machine, code: seq<Word>, scopes: seq<Scope>, env: seq<Target>, lo: nat, test: nat, jump: nat,
                 hi: nat, c: Expr, rc: Index, y: Stmt, n: Stmt)
    requires |env| == |scopes| && lo <= test && ExprOk(m, code, lo, test, c, rc, None, {})
    requires Decode(code, test) == Some(ICond(false, jump + 2 - test, rc))
    requires StmtOk(m, code, scopes, env, test + 3, jump, y)
    requires Decode(code, jump) == Some(IJump(hi - jump))
    requires StmtOk(m, code, scopes, env, jump + 2, hi, n)
    ensures StmtOk(m, code, scopes, env, lo, hi, IfElse(c, y, n))
  {
    hide Means, ExprOk, Decode;
    IfElseMeans(m, code, scopes, env, lo, test, jump, hi, c, rc, y, n);
    assert BranchesCode(m, code, scopes, env, lo, test, jump, hi, IfElse(c, y, n), rc, false);
  }

  lemma IfElseMeans(m: Machine, code: seq<Word>, scopes: seq<Scope>, env: seq<Target>, lo: nat, test: nat, jump: nat,
                    hi: nat, c: Expr, rc: Index, y: Stmt, n: Stmt)
    requires |env| == |scopes| && lo <= test && ExprOk(m, code, lo, test, c, rc, None, {})
    requires Decode(code, test) == Some(ICond(false, jump + 2 - test, rc))
    requires StmtOk(m, code, scopes, env, test + 3, jump, y)
    requires Decode(code, jump) == Some(IJump(hi - jump))
    requires StmtOk(m, code, scopes, env, jump + 2, hi, n)
    ensures Means(m, code, scopes, env, lo, hi, IfElse(c, y, n))
  {
    hide StmtOk;
    forall f, fuel: nat ensures StmtAt(m, code, scopes, env, lo, hi, IfElse(c, y, n), f, fuel) {
      var g := ExprResult(m, code, lo, test, c, rc, None, {}, f);
      var next := if m.truthy(Read(g, rc)) then State(test + 3, g) else State(jump + 2, g);
      One(m, code, State(test, g), next);
      Trans(m, code, State(lo, f), State(test, g), next);
      if m.truthy(Read(g, rc)) {
        var r := StmtResult(m, code, scopes, env, test + 3, jump, y, g, fuel);
        YieldsAfter(m, code, scopes, env, jump, State(lo, f), next, r, fuel);
        if r.Done? && r.outcome.Normal? {
          var h :| Reaches(m, code, State(lo, f), State(jump, h)) && h.vars == r.store;
          One(m, code, State(jump, h), State(hi, h));
          Trans(m, code, State(lo, f), State(jump, h), State(hi, h));
        }
      } else {
        var r := StmtResult(m, code, scopes, env, jump + 2, hi, n, g, fuel);
        YieldsAfter(m, code, scopes, env, hi, State(lo, f), next, r, fuel);
      }
    }
  }

  lemma JumpOk(m: Machine, code: seq<Word>, scopes: seq<Scope>, env: seq<Target>, lo: nat, hi: nat, s: Stmt)
    requires |env| == |scopes|
    requires s.Break? || s.Continue?
    requires var d := Destination(JumpOutcome(s), scopes, env, hi);
             d.Some? && hi == lo + 2 && Decode(code, lo) == Some(IJump(d.value - lo))
    ensures StmtOk(m, code, scopes, env, lo, hi, s)
  {
    forall f, fuel: nat ensures StmtAt(m, code, scopes, env, lo, hi, s, f, fuel) {
      var d := Destination(JumpOutcome(s), scopes, env, hi);
      One(m, code, State(lo, f), State(d.value, f));
    }
  }

  // ----- loops -----

  lemma {:induction false} BodyYields(m: Machine, code: seq<Word>, scopes: seq<Scope>, env: seq<Target>, s: Stmt,
                                      p: LoopShape, f: Frame, fuel: nat)
    requires |env| == |scopes| && IsLoop(s) && LoopCode(m, code, scopes, env, s, p, false)
    ensures Yields(m, code, scopes, env, p.end, State(p.body, f), ExecuteBody(m, s, f.vars, fuel), fuel)
    decreases fuel, 0
  {
    var sc := Scope(LoopKind, s.name);
    var t := Target(p.end, p.cont);
    var r := StmtResult(m, code, scopes + [sc], env + [t], p.body, p.cont, s.body, f, fuel);
    if r.Done? {
      InnerDestination(r.outcome, scopes, env, sc, t, p.cont, p.end);
      if r.outcome.Normal? || CatchesContinue(s.name, r.outcome) {
        var g :| Reaches(m, code, State(p.body, f), State(p.cont, g)) && g.vars == r.store;
        var h := g;
        if LoopUpdate(s).Some? {
          h := ExprResult(m, code, p.cont, p.test, LoopUpdate(s).value, p.ru, None, {}, g);
          Trans(m, code, State(p.body, f), State(p.cont, g), State(p.test, h));
        }
        if fuel > 0 {
          TestYields(m, code, scopes, env, s, p, h, fuel - 1);
          var next := ExecuteTest(m, s, h.vars, fuel - 1);
          YieldsAfter(m, code, scopes, env, p.end, State(p.body, f), State(p.test, h), next, fuel);
        }
      }
    }
  }

  lemma {:induction false} TestYields(m: Machine, code: seq<Word>, scopes: seq<Scope>, env: seq<Target>, s: Stmt,
                                      p: LoopShape, f: Frame, fuel: nat)
    requires |env| == |scopes| && IsLoop(s) && LoopCode(m, code, scopes, env, s, p, false)
    ensures Yields(m, code, scopes, env, p.end, State(p.test, f), ExecuteTest(m, s, f.vars, fuel), fuel + 1)
    decreases fuel, 1
  {
    if LoopTest(s).None? {
      BodyYields(m, code, scopes, env, s, p, f, fuel);
      BackToBody(m, code, scopes, env, p, State(p.test, f), f, ExecuteBody(m, s, f.vars, fuel), fuel);
    } else {
      var g := ExprResult(m, code, p.test, p.back, LoopTest(s).value, p.rc, None, {}, f);
      if m.truthy(Read(g, p.rc)) {
        BodyYields(m, code, scopes, env, s, p, g, fuel);
        var r := ExecuteBody(m, s, g.vars, fuel);
        BackToBody(m, code, scopes, env, p, State(p.back, g), g, r, fuel);
        YieldsAfter(m, code, scopes, env, p.end, State(p.test, f), State(p.back, g), r, fuel + 1);
      } else {
        One(m, code, State(p.back, g), State(p.end, g));
        Trans(m, code, State(p.test, f), State(p.back, g), State(p.end, g));
      }
    }
  }

  lemma BackToBody(m: Machine, code: seq<Word>, scopes: seq<Scope>, env: seq<Target>, p: LoopShape, s: State,
                   f: Frame, r: Exec, k: nat)
    requires |env| == |scopes| && Step(m, code, s) == Transition.Continue(State(p.body, f))
    requires Yields(m, code, scopes, env, p.end, State(p.body, f), r, k)
    ensures Yields(m, code, scopes, env, p.end, s, r, k + 1)
  {
    One(m, code, s, State(p.body, f));
    if r.Done? {
      YieldsAfter(m, code, scopes, env, p.end, s, State(p.body, f), r, k);
    }
  }

  // The first instructions of each loop lead to its test or to its body.
  lemma WhileOk(m: Machine, code: seq<Word>, scopes: seq<Scope>, env: seq<Target>, lo: nat, s: Stmt, p: LoopShape)
    requires |env| == |scopes| && s.While? && LoopCode(m, code, scopes, env, s, p, false)
    requires Decode(code, lo) == Some(IJump(p.test - lo)) && p.body == lo + 2
    ensures StmtOk(m, code, scopes, env, lo, p.end, s)
  {
    forall f, fuel: nat ensures StmtAt(m, code, scopes, env, lo, p.end, s, f, fuel) {
      One(m, code, State(lo, f), State(p.test, f));
      FromTest(m, code, scopes, env, lo, s, p, f, f, fuel);
    }
  }

  lemma FromTest(m: Machine, code: seq<Word>, scopes: seq<Scope>, env: seq<Target>, lo: nat, s: Stmt, p: LoopShape,
                 f: Frame, g: Frame, fuel: nat)
    requires |env| == |scopes| && IsLoop(s) && LoopCode(m, code, scopes, env, s, p, false)
    requires Reaches(m, code, State(lo, f), State(p.test, g))
    ensures Yields(m, code, scopes, env, p.end, State(lo, f), ExecuteTest(m, s, g.vars, fuel), fuel)
  {
    TestYields(m, code, scopes, env, s, p, g, fuel);
    var r := ExecuteTest(m, s, g.vars, fuel);
    YieldsAfter(m, code, scopes, env, p.end, State(lo, f), State(p.test, g), r, fuel + 1);
    if r.Timeout? {
      Halfway(m, code, State(lo, f), fuel + 1, fuel);
    }
  }

  lemma DoWhileOk(m: Machine, code: seq<Word>, scopes: seq<Scope>, env: seq<Target>, s: Stmt, p: LoopShape)
    requires |env| == |scopes| && s.DoWhile? && LoopCode(m, code, scopes, env, s, p, false)
    ensures StmtOk(m, code, scopes, env, p.body, p.end, s)
  {
    forall f, fuel: nat ensures StmtAt(m, code, scopes, env, p.body, p.end, s, f, fuel) {
      BodyYields(m, code, scopes, env, s, p, f, fuel);
    }
  }

  lemma ForOk(m: Machine, code: seq<Word>, scopes: seq<Scope>, env: seq<Target>, lo: nat, mid: nat, s: Stmt,
              ri: Index, p: LoopShape)
    requires |env| == |scopes| && s.For? && LoopCode(m, code, scopes, env, s, p, false)
    requires ForHead(m, code, lo, mid, s, ri, p)
    ensures StmtOk(m, code, scopes, env, lo, p.end, s)
  {
    forall f, fuel: nat ensures StmtAt(m, code, scopes, env, lo, p.end, s, f, fuel) {
      var g := f;
      if s.init.Some? {
        g := ExprResult(m, code, lo, mid, s.init.value, ri, None, {}, f);
      } else {
        Zero(m, code, State(lo, f));
      }
      if s.test.Some? {
        One(m, code, State(mid, g), State(p.test, g));
        Trans(m, code, State(lo, f), State(mid, g), State(p.test, g));
        FromTest(m, code, scopes, env, lo, s, p, f, g, fuel);
      } else {
        BodyYields(m, code, scopes, env, s, p, g, fuel);
        YieldsAfter(m, code, scopes, env, p.end, State(lo, f), State(mid, g), ExecuteBody(m, s, g.vars, fuel), fuel);
      }
    }
  }

  // ----- switch -----

  lemma {:induction false} TestsSelect(m: Machine, code: seq<Word>, c: Clauses, i: nat, tests: seq<TestSpot>,
                                       bodies: seq<nat>, t: nat, f: Frame)
    requires |tests| == |bodies| == i + ClauseCount(c) + 1
    requires TestsCode(m, code, c, i, tests, bodies, t)
    ensures var (found, st) := SelectCase(m, c, ReadTemp(f, t), f.vars);
            ReachesStore(m, code, State(tests[i].lo, f),
              if found.Some? then bodies[i + found.value] else tests[|tests| - 1].lo, st)
    decreases c
  {
    match c
    case NoClauses => Zero(m, code, State(tests[i].lo, f));
    case Default(_, next) => TestsSelect(m, code, next, i + 1, tests, bodies, t, f);
    case Case(e, _, next) =>
      var p := tests[i];
      var g := ExprResult(m, code, p.lo, p.hi, e, p.r, None, {t}, f);
      assert ReadTemp(g, t) == ReadTemp(f, t);
      if m.same(ReadTemp(f, t), Read(g, p.r)) {
        One(m, code, State(p.hi, g), State(bodies[i], g));
        Trans(m, code, State(p.lo, f), State(p.hi, g), State(bodies[i], g));
      } else {
        One(m, code, State(p.hi, g), State(p.hi + 4, g));
        Trans(m, code, State(p.lo, f), State(p.hi, g), State(p.hi + 4, g));
        TestsSelect(m, code, next, i + 1, tests, bodies, t, g);
        var (found, st) := SelectCase(m, next, ReadTemp(g, t), g.vars);
        var to := if found.Some? then bodies[i + 1 + found.value] else tests[|tests| - 1].lo;
        var h :| Reaches(m, code, State(p.hi + 4, g), State(to, h)) && h.vars == st;
        Trans(m, code, State(p.lo, f), State(p.hi + 4, g), State(to, h));
      }
  }

  lemma {:induction false} BodiesYield(m: Machine, code: seq<Word>, scopes: seq<Scope>, env: seq<Target>, c: Clauses,
                                       i: nat, bodies: seq<nat>, skip: nat, f: Frame, fuel: nat)
    requires |env| == |scopes| && |bodies| == i + ClauseCount(c) + 1 && skip <= ClauseCount(c)
    requires BodiesCode(m, code, scopes, env, c, i, bodies, false)
    ensures Yields(m, code, scopes, env, bodies[|bodies| - 1], State(bodies[i + skip], f),
              ExecuteClauses(m, c, skip, f.vars, fuel), fuel)
    decreases c
  {
    var end := bodies[|bodies| - 1];
    if c.NoClauses? {
      Zero(m, code, State(bodies[i], f));
    } else if skip > 0 {
      BodiesYield(m, code, scopes, env, c.next, i + 1, bodies, skip - 1, f, fuel);
    } else {
      var r := StmtResult(m, code, scopes, env, bodies[i], bodies[i + 1], c.body, f, fuel);
      if r.Done? && r.outcome.Normal? {
        var g :| Reaches(m, code, State(bodies[i], f), State(bodies[i + 1], g)) && g.vars == r.store;
        BodiesYield(m, code, scopes, env, c.next, i + 1, bodies, 0, g, fuel);
        var r2 := ExecuteClauses(m, c.next, 0, g.vars, fuel);
        YieldsAfter(m, code, scopes, env, end, State(bodies[i], f), State(bodies[i + 1], g), r2, fuel);
      }
    }
  }

  // The clause whose body runs first, and the variables then.
  function SwitchStart(m: Machine, s: Stmt, st: Store): (r: (nat, Store))
    requires s.Switch?
    ensures r.0 <= ClauseCount(s.clauses)
  {
    var d := Evaluate(m, s.disc, st);
    var (found, st1) := SelectCase(m, s.clauses, d.value, d.store);
    (if found.Some? then found.value else DefaultIndex(s.clauses), st1)
  }

  lemma SwitchEnters(m: Machine, code: seq<Word>, lo: nat, s: Stmt, t: nat, tests: seq<TestSpot>, bodies: seq<nat>,
                     f: Frame) returns (h: Frame)
    requires s.Switch? && |tests| == |bodies| == ClauseCount(s.clauses) + 1
    requires SwitchCode(m, code, lo, s, t, tests, bodies)
    ensures var (from, st) := SwitchStart(m, s, f.vars);
            h.vars == st && Reaches(m, code, State(lo, f), State(bodies[from], h))
  {
    var d := Evaluate(m, s.disc, f.vars);
    var g := ExprResult(m, code, lo, tests[0].lo, s.disc, Temporary(t), None, {}, f);
    TestsSelect(m, code, s.clauses, 0, tests, bodies, t, g);
    var (found, st) := SelectCase(m, s.clauses, d.value, d.store);
    var j := if found.Some? then bodies[found.value] else tests[|tests| - 1].lo;
    h :| Reaches(m, code, State(tests[0].lo, g), State(j, h)) && h.vars == st;
    Trans(m, code, State(lo, f), State(tests[0].lo, g), State(j, h));
    if found.None? {
      var to := bodies[DefaultIndex(s.clauses)];
      One(m, code, State(j, h), State(to, h));
      Trans(m, code, State(lo, f), State(j, h), State(to, h));
    }
  }

  lemma SwitchOk(m: Machine, code: seq<Word>, scopes: seq<Scope>, env: seq<Target>, lo: nat, s: Stmt, t: nat,
                 tests: seq<TestSpot>, bodies: seq<nat>, target: Target)
    requires |env| == |scopes|
    requires s.Switch? && |tests| == |bodies| == ClauseCount(s.clauses) + 1
    requires SwitchCode(m, code, lo, s, t, tests, bodies)
    requires target == Target(bodies[|bodies| - 1], bodies[|bodies| - 1]) && lo <= bodies[|bodies| - 1]
    requires BodiesCode(m, code, scopes + [Scope(SwitchKind, s.name)], env + [target], s.clauses, 0, bodies, false)
    ensures StmtOk(m, code, scopes, env, lo, bodies[|bodies| - 1], s)
  {
    var sc := Scope(SwitchKind, s.name);
    var hi := bodies[|bodies| - 1];
    forall f, fuel: nat ensures StmtAt(m, code, scopes, env, lo, hi, s, f, fuel) {
      var h := SwitchEnters(m, code, lo, s, t, tests, bodies, f);
      var from := SwitchStart(m, s, f.vars).0;
      BodiesYield(m, code, scopes + [sc], env + [target], s.clauses, 0, bodies, from, h, fuel);
      var r := ExecuteClauses(m, s.clauses, from, h.vars, fuel);
      YieldsAfter(m, code, scopes + [sc], env + [target], hi, State(lo, f), State(bodies[from], h), r, fuel);
      if r.Done? {
        InnerDestination(r.outcome, scopes, env, sc, target, hi, hi);
      }
    }
  }
}
