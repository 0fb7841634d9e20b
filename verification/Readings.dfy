// The two readings of the tree: as the language has it, where a left operand
// keeps its value, and as the generator writes it, where one that is in a
// variable is read again after the right operand.
module Readings {
  import opened Wrappers
  import opened Bytecode
  import opened Syntax

  function AsWritten(m: Machine): Machine { m.(keeps := false) }

  function AsMeant(m: Machine): Machine { m.(keeps := true) }

  // The result of an expression is in the variable the generator takes it to be
  // in, unless that one is still to be written.
  lemma {:induction false} ResultHolds(m: Machine, e: Expr, s: Store, dest: Option<string>, x: string)
    requires ResultVariable(e, dest) == Some(x) && dest != Some(x)
    ensures Lookup(Evaluate(m, e, s).store, x) == Evaluate(m, e, s).value
  {
    match e
    case Comma(a, b) => ResultHolds(m, b, Evaluate(m, a, s).store, None, x);
    case Assign(y, a) =>
      if x != y {
        ResultHolds(m, a, s, Some(y), x);
      }
    case _ =>
  }

  lemma {:induction false} SafeEvaluate(m: Machine, k: bool, e: Expr, s: Store)
    requires Safe(e)
    ensures Evaluate(m.(keeps := k), e, s) == Evaluate(m, e, s)
  {
    match e
    case Literal(_) =>
    case Name(_) =>
    case Unary(_, a) => SafeEvaluate(m, k, a, s);
    case Binary(_, a, b) =>
      var l := Evaluate(m, a, s);
      SafeEvaluate(m, k, a, s);
      SafeEvaluate(m, k, b, l.store);
      SafeLeft(m, a, b, s, l.value, l.store);
    case Logical(_, a, b) =>
      SafeEvaluate(m, k, a, s);
      SafeEvaluate(m, k, b, Evaluate(m, a, s).store);
    case Conditional(c, y, n) =>
      SafeEvaluate(m, k, c, s);
      SafeEvaluate(m, k, y, Evaluate(m, c, s).store);
      SafeEvaluate(m, k, n, Evaluate(m, c, s).store);
    case Comma(a, b) =>
      SafeEvaluate(m, k, a, s);
      SafeEvaluate(m, k, b, Evaluate(m, a, s).store);
    case Assign(_, a) => SafeEvaluate(m, k, a, s);
    case OpAssign(_, x, a) =>
      SafeEvaluate(m, k, a, s);
      SafeLeft(m, Name(x), a, s, Lookup(s, x), s);
    case Count(_, _, _) =>
  }

  // A kept left operand is the same in both readings.
  lemma SafeLeft(m: Machine, a: Expr, b: Expr, s: Store, v: Value, st: Store)
    requires LeftKept(a, b) && Evaluate(m, a, s) == Eval(v, st)
    ensures Reread(a, b).Some? ==> Lookup(Evaluate(m, b, st).store, Reread(a, b).value) == v
  {
    var x := Reread(a, b);
    if x.Some? {
      ResultHolds(m, a, s, None, x.value);
      OnlyAssignedChange(m, b, st, x.value);
    }
  }

  lemma SafeOptional(m: Machine, k: bool, e: Option<Expr>, s: Store)
    requires SafeOption(e)
    ensures EvalOption(m.(keeps := k), e, s) == EvalOption(m, e, s)
  {
    if e.Some? {
      SafeEvaluate(m, k, e.value, s);
    }
  }

  // A statement all of whose left operands are kept does the same in both readings.
  lemma {:induction false} SafeExecute(m: Machine, k: bool, s: Stmt, st: Store, fuel: nat)
    requires SafeStmt(s)
    ensures Execute(m.(keeps := k), s, st, fuel) == Execute(m, s, st, fuel)
    decreases fuel, s, 1
  {
    match s
    case Empty =>
    case Expression(e) => SafeEvaluate(m, k, e, st);
    case Sequence(a, b) =>
      SafeExecute(m, k, a, st, fuel);
      var r := Execute(m, a, st, fuel);
      if r.Done? {
        SafeExecute(m, k, b, r.store, fuel);
      }
    case Block(_, b) => SafeExecute(m, k, b, st, fuel);
    case If(c, y) =>
      SafeEvaluate(m, k, c, st);
      SafeExecute(m, k, y, Evaluate(m, c, st).store, fuel);
    case IfElse(c, y, n) =>
      SafeEvaluate(m, k, c, st);
      SafeExecute(m, k, y, Evaluate(m, c, st).store, fuel);
      SafeExecute(m, k, n, Evaluate(m, c, st).store, fuel);
    case While(_, _, _) => SafeTest(m, k, s, st, fuel);
    case DoWhile(_, _, _) => SafeBody(m, k, s, st, fuel);
    case For(_, init, _, _, _) =>
      SafeOptional(m, k, init, st);
      SafeTest(m, k, s, EvalOption(m, init, st), fuel);
    case Switch(_, d, clauses) =>
      var r := Evaluate(m, d, st);
      SafeEvaluate(m, k, d, st);
      SafeSelect(m, k, clauses, r.value, r.store);
      var (found, st1) := SelectCase(m, clauses, r.value, r.store);
      SafeClausesExecute(m, k, clauses, if found.Some? then found.value else DefaultIndex(clauses), st1, fuel);
    case Break(_) =>
    case Continue(_) =>
  }

  lemma {:induction false} SafeTest(m: Machine, k: bool, s: Stmt, st: Store, fuel: nat)
    requires IsLoop(s) && SafeStmt(s)
    ensures ExecuteTest(m.(keeps := k), s, st, fuel) == ExecuteTest(m, s, st, fuel)
    decreases fuel, s, 0, 1
  {
    if LoopTest(s).None? {
      SafeBody(m, k, s, st, fuel);
    } else {
      SafeEvaluate(m, k, LoopTest(s).value, st);
      SafeBody(m, k, s, Evaluate(m, LoopTest(s).value, st).store, fuel);
    }
  }

  lemma {:induction false} SafeBody(m: Machine, k: bool, s: Stmt, st: Store, fuel: nat)
    requires IsLoop(s) && SafeStmt(s)
    ensures ExecuteBody(m.(keeps := k), s, st, fuel) == ExecuteBody(m, s, st, fuel)
    decreases fuel, s, 0, 0
  {
    SafeExecute(m, k, s.body, st, fuel);
    var r := Execute(m, s.body, st, fuel);
    if r.Done? {
      SafeOptional(m, k, LoopUpdate(s), r.store);
      if fuel > 0 {
        SafeTest(m, k, s, EvalOption(m, LoopUpdate(s), r.store), fuel - 1);
      }
    }
  }

  lemma {:induction false} SafeSelect(m: Machine, k: bool, c: Clauses, d: Value, st: Store)
    requires SafeClauses(c)
    ensures SelectCase(m.(keeps := k), c, d, st) == SelectCase(m, c, d, st)
  {
    match c
    case NoClauses =>
    case Default(_, next) => SafeSelect(m, k, next, d, st);
    case Case(t, _, next) =>
      SafeEvaluate(m, k, t, st);
      SafeSelect(m, k, next, d, Evaluate(m, t, st).store);
  }

  lemma {:induction false} SafeClausesExecute(m: Machine, k: bool, c: Clauses, skip: nat, st: Store, fuel: nat)
    requires SafeClauses(c)
    ensures ExecuteClauses(m.(keeps := k), c, skip, st, fuel) == ExecuteClauses(m, c, skip, st, fuel)
    decreases fuel, c, 0
  {
    if c.NoClauses? {
    } else if skip > 0 {
      SafeClausesExecute(m, k, c.next, skip - 1, st, fuel);
    } else {
      SafeExecute(m, k, c.body, st, fuel);
      var r := Execute(m, c.body, st, fuel);
      if r.Done? {
        SafeClausesExecute(m, k, c.next, 0, r.store, fuel);
      }
    }
  }

  // The names under a "++" or "--" of the expression.
  function Counted(e: Expr): set<string> {
    match e
    case Literal(_) => {}
    case Name(_) => {}
    case Unary(_, a) => Counted(a)
    case Binary(_, a, b) => Counted(a) + Counted(b)
    case Logical(_, a, b) => Counted(a) + Counted(b)
    case Conditional(c, y, n) => Counted(c) + Counted(y) + Counted(n)
    case Comma(a, b) => Counted(a) + Counted(b)
    case Assign(_, a) => Counted(a)
    case OpAssign(_, _, a) => Counted(a)
    case Count(_, _, x) => {x}
  }

  lemma {:induction false} EffectsOrCounts(e: Expr)
    ensures HasSideEffect(e) || Assigned(e) <= Counted(e)
  {
    match e
    case Unary(_, a) => EffectsOrCounts(a);
    case Binary(_, a, b) =>
      EffectsOrCounts(a);
      EffectsOrCounts(b);
    case Logical(_, a, b) =>
      EffectsOrCounts(a);
      EffectsOrCounts(b);
    case Conditional(c, y, n) =>
      EffectsOrCounts(c);
      EffectsOrCounts(y);
      EffectsOrCounts(n);
    case Comma(a, b) =>
      EffectsOrCounts(a);
      EffectsOrCounts(b);
    case _ =>
  }

  // A plain name keeps its value as a left operand whatever the right one assigns
  // to it, if it does not count it up or down.
  lemma NameKept(m: Machine, op: nat, x: string, b: Expr, s: Store)
    requires Safe(b) && x !in Counted(b)
    ensures Evaluate(AsWritten(m), Binary(op, Name(x), b), s) == Evaluate(AsMeant(m), Binary(op, Name(x), b), s)
    ensures Evaluate(AsWritten(m), OpAssign(op, x, b), s) == Evaluate(AsMeant(m), OpAssign(op, x, b), s)
  {
    EffectsOrCounts(b);
    SafeEvaluate(m, false, Binary(op, Name(x), b), s);
    SafeEvaluate(m, true, Binary(op, Name(x), b), s);
    SafeEvaluate(m, false, OpAssign(op, x, b), s);
    SafeEvaluate(m, true, OpAssign(op, x, b), s);
  }

  // A binary operation on safe operands means the same in both readings exactly
  // when the operator cannot tell the value of the left operand from what the
  // variable it is read from holds after the right one.
  lemma OperationAgrees(m: Machine, op: nat, a: Expr, b: Expr, s: Store)
    requires Safe(a) && Safe(b)
    ensures var e := Binary(op, a, b);
            var l := Evaluate(m, a, s);
            var r := Evaluate(m, b, l.store);
            Evaluate(AsWritten(m), e, s) == Evaluate(AsMeant(m), e, s)
            <==> Reread(a, b).None?
                 || m.binary(op, Lookup(r.store, Reread(a, b).value), r.value) == m.binary(op, l.value, r.value)
  {
    var l := Evaluate(m, a, s);
    SafeEvaluate(m, false, a, s);
    SafeEvaluate(m, true, a, s);
    SafeEvaluate(m, false, b, l.store);
    SafeEvaluate(m, true, b, l.store);
  }

  // The same for "x op= e".
  lemma AssignmentAgrees(m: Machine, op: nat, x: string, a: Expr, s: Store)
    requires Safe(a)
    ensures var e := OpAssign(op, x, a);
            var r := Evaluate(m, a, s);
            Evaluate(AsWritten(m), e, s) == Evaluate(AsMeant(m), e, s)
            <==> HasSideEffect(a)
                 || m.binary(op, Lookup(r.store, x), r.value) == m.binary(op, Lookup(s, x), r.value)
  {
    SafeEvaluate(m, false, a, s);
    SafeEvaluate(m, true, a, s);
  }

  // ----- the machine does not know of readings -----

  lemma {:induction false} RunReading(m: Machine, k: bool, code: seq<Word>, s: State, n: nat)
    ensures Run(m.(keeps := k), code, s, n) == Run(m, code, s, n)
    ensures Step(m.(keeps := k), code, s) == Step(m, code, s)
    decreases n
  {
    if n > 0 && Step(m, code, s).Continue? {
      RunReading(m, k, code, Step(m, code, s).next, n - 1);
    }
  }
}
