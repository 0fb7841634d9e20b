// The part of the njs syntax tree the model covers, with its meaning.
module Syntax {
  import opened Wrappers
  import opened Bytecode

  datatype Expr =
    | Literal(value: Value)
    | Name(name: string)
    | Unary(uop: nat, operand: Expr)
    | Binary(bop: nat, left: Expr, right: Expr)
    | Logical(isOr: bool, left: Expr, right: Expr)
    | Conditional(cond: Expr, yes: Expr, no: Expr)
    | Comma(left: Expr, right: Expr)
    | Assign(name: string, rhs: Expr)
    | OpAssign(bop: nat, name: string, rhs: Expr)
    | Count(decrement: bool, post: bool, name: string)

  datatype Stmt =
    | Empty
    | Expression(e: Expr)
    | Sequence(first: Stmt, second: Stmt)
    | Block(name: string, body: Stmt)
    | If(cond: Expr, yes: Stmt)
    | IfElse(cond: Expr, yes: Stmt, no: Stmt)
    | While(name: string, cond: Expr, body: Stmt)
    | DoWhile(name: string, cond: Expr, body: Stmt)
    | For(name: string, init: Option<Expr>, test: Option<Expr>, update: Option<Expr>, body: Stmt)
    | Switch(name: string, disc: Expr, clauses: Clauses)
    | Break(target: string)
    | Continue(target: string)

  // The clauses of a switch, in source order; "default" may stand anywhere.
  datatype Clauses =
    | NoClauses
    | Case(test: Expr, body: Stmt, next: Clauses)
    | Default(body: Stmt, next: Clauses)

  // A script: all statements but the last, and the last one.
  datatype Program = Program(chain: Stmt, last: Stmt)

  // ----- expressions -----

  datatype Eval = Eval(value: Value, store: Store)

  function Evaluate(m: Machine, e: Expr, s: Store): Eval {
    match e
    case Literal(v) => Eval(v, s)
    case Name(x) => Eval(Lookup(s, x), s)
    case Unary(o, a) =>
      var r := Evaluate(m, a, s);
      Eval(m.unary(o, r.value), r.store)
    case Binary(o, a, b) =>
      var l := Evaluate(m, a, s);
      var r := Evaluate(m, b, l.store);
      Eval(m.binary(o, LeftValue(m, a, b, l.value, r.store), r.value), r.store)
    case Logical(isOr, a, b) =>
      var l := Evaluate(m, a, s);
      if m.truthy(l.value) == isOr then l else Evaluate(m, b, l.store)
    case Conditional(c, y, n) =>
      var r := Evaluate(m, c, s);
      if m.truthy(r.value) then Evaluate(m, y, r.store) else Evaluate(m, n, r.store)
    case Comma(a, b) => Evaluate(m, b, Evaluate(m, a, s).store)
    case Assign(x, a) =>
      var r := Evaluate(m, a, s);
      Eval(r.value, Update(r.store, x, r.value))
    case OpAssign(o, x, a) =>
      var r := Evaluate(m, a, s);
      var v := m.binary(o, LeftValue(m, Name(x), a, Lookup(s, x), r.store), r.value);
      Eval(v, Update(r.store, x, v))
    case Count(dec, post, x) =>
      var num := m.numeric(Lookup(s, x));
      var next := m.count(dec, num);
      Eval(if post then num else next, Update(s, x, next))
  }

  // The left operand of a binary operation when the right one has been evaluated:
  // its value, as the language has it, or, in the reading of the tree as the
  // generator writes it, what the variable holding that value contains by then.
  function LeftValue(m: Machine, left: Expr, right: Expr, v: Value, st: Store): Value {
    var x := Reread(left, right);
    if m.keeps || x.None? then v else Lookup(st, x.value)
  }

  // The names an expression may write.
  function Assigned(e: Expr): set<string> {
    match e
    case Literal(_) => {}
    case Name(_) => {}
    case Unary(_, a) => Assigned(a)
    case Binary(_, a, b) => Assigned(a) + Assigned(b)
    case Logical(_, a, b) => Assigned(a) + Assigned(b)
    case Conditional(c, y, n) => Assigned(c) + Assigned(y) + Assigned(n)
    case Comma(a, b) => Assigned(a) + Assigned(b)
    case Assign(x, a) => {x} + Assigned(a)
    case OpAssign(_, x, a) => {x} + Assigned(a)
    case Count(_, _, x) => {x}
  }

  lemma {:induction false} OnlyAssignedChange(m: Machine, e: Expr, s: Store, x: string)
    requires x !in Assigned(e)
    ensures Lookup(Evaluate(m, e, s).store, x) == Lookup(s, x)
  {
    match e
    case Literal(_) =>
    case Name(_) =>
    case Unary(_, a) => OnlyAssignedChange(m, a, s, x);
    case Binary(_, a, b) =>
      OnlyAssignedChange(m, a, s, x);
      OnlyAssignedChange(m, b, Evaluate(m, a, s).store, x);
    case Logical(_, a, b) =>
      OnlyAssignedChange(m, a, s, x);
      OnlyAssignedChange(m, b, Evaluate(m, a, s).store, x);
    case Conditional(c, y, n) =>
      OnlyAssignedChange(m, c, s, x);
      OnlyAssignedChange(m, y, Evaluate(m, c, s).store, x);
      OnlyAssignedChange(m, n, Evaluate(m, c, s).store, x);
    case Comma(a, b) =>
      OnlyAssignedChange(m, a, s, x);
      OnlyAssignedChange(m, b, Evaluate(m, a, s).store, x);
    case Assign(_, a) => OnlyAssignedChange(m, a, s, x);
    case OpAssign(_, _, a) => OnlyAssignedChange(m, a, s, x);
    case Count(_, _, _) =>
  }

  // njs_parser_has_side_effect(): the tokens from "=" to "&=" only, so "++"
  // and "--" do not count.
  predicate HasSideEffect(e: Expr) {
    match e
    case Literal(_) => false
    case Name(_) => false
    case Unary(_, a) => HasSideEffect(a)
    case Binary(_, a, b) => HasSideEffect(a) || HasSideEffect(b)
    case Logical(_, a, b) => HasSideEffect(a) || HasSideEffect(b)
    case Conditional(c, y, n) => HasSideEffect(c) || HasSideEffect(y) || HasSideEffect(n)
    case Comma(a, b) => HasSideEffect(a) || HasSideEffect(b)
    case Assign(_, _) => true
    case OpAssign(_, _, _) => true
    case Count(_, _, _) => false
  }

  // The variable, if any, whose index the generator returns as the result of e;
  // dest is the variable the parent offers as a destination.
  function ResultVariable(e: Expr, dest: Option<string>): Option<string> {
    match e
    case Literal(_) => None
    case Name(x) => Some(x)
    case Unary(_, _) => dest
    case Binary(_, _, _) => dest
    case Logical(_, _, _) => None
    case Conditional(_, _, _) => dest
    case Comma(_, b) => ResultVariable(b, None)
    case Assign(x, a) => ResultVariable(a, Some(x))
    case OpAssign(_, x, _) => Some(x)
    case Count(_, _, _) => dest
  }

  // The variable from which the left operand is read after the right one was
  // evaluated; a plain name is saved in a temporary if the right one has side effects.
  function Reread(left: Expr, right: Expr): Option<string> {
    if left.Name? && HasSideEffect(right) then None else ResultVariable(left, None)
  }

  // The left operand keeps its value while the right one is evaluated: it is not
  // read from a variable, or from one the right operand does not write.
  predicate LeftKept(left: Expr, right: Expr) {
    var x := Reread(left, right);
    x.None? || x.value !in Assigned(right)
  }

  // Every binary operation and every "x op= e" of the expression keeps its
  // left operand.
  predicate Safe(e: Expr) {
    match e
    case Literal(_) => true
    case Name(_) => true
    case Unary(_, a) => Safe(a)
    case Binary(_, a, b) => Safe(a) && Safe(b) && LeftKept(a, b)
    case Logical(_, a, b) => Safe(a) && Safe(b)
    case Conditional(c, y, n) => Safe(c) && Safe(y) && Safe(n)
    case Comma(a, b) => Safe(a) && Safe(b)
    case Assign(_, a) => Safe(a)
    case OpAssign(_, x, a) => Safe(a) && LeftKept(Name(x), a)
    case Count(_, _, _) => true
  }

  predicate SafeOption(e: Option<Expr>) { e.Some? ==> Safe(e.value) }

  predicate SafeStmt(s: Stmt) {
    match s
    case Empty => true
    case Expression(e) => Safe(e)
    case Sequence(a, b) => SafeStmt(a) && SafeStmt(b)
    case Block(_, b) => SafeStmt(b)
    case If(c, y) => Safe(c) && SafeStmt(y)
    case IfElse(c, y, n) => Safe(c) && SafeStmt(y) && SafeStmt(n)
    case While(_, c, b) => Safe(c) && SafeStmt(b)
    case DoWhile(_, c, b) => Safe(c) && SafeStmt(b)
    case For(_, i, t, u, b) => SafeOption(i) && SafeOption(t) && SafeOption(u) && SafeStmt(b)
    case Switch(_, d, c) => Safe(d) && SafeClauses(c)
    case Break(_) => true
    case Continue(_) => true
  }

  predicate SafeClauses(c: Clauses) {
    match c
    case NoClauses => true
    case Case(t, b, next) => Safe(t) && SafeStmt(b) && SafeClauses(next)
    case Default(b, next) => SafeStmt(b) && SafeClauses(next)
  }

  // ----- statements -----

  // How a statement ends; an empty label means none was written.
  datatype Outcome = Normal | Broke(target: string) | Continued(target: string)

  // Execution is cut after fuel turns of a loop.
  datatype Exec = Done(outcome: Outcome, store: Store) | Timeout

  // A loop or switch called name consumes a break, a loop a continue, without
  // a label or with its own; a block consumes only its own label.
  predicate CatchesBreak(name: string, o: Outcome) {
    o.Broke? && (o.target == "" || o.target == name)
  }

  predicate CatchesContinue(name: string, o: Outcome) {
    o.Continued? && (o.target == "" || o.target == name)
  }

  predicate BlockCatches(name: string, o: Outcome) {
    o.Broke? && o.target != "" && o.target == name
  }

  function After(o: Outcome, caught: bool): Outcome {
    if caught then Normal else o
  }

  function EvalOption(m: Machine, e: Option<Expr>, s: Store): Store {
    if e.Some? then Evaluate(m, e.value, s).store else s
  }

  function Execute(m: Machine, s: Stmt, st: Store, fuel: nat): Exec
    decreases fuel, s, 1
  {
    match s
    case Empty => Done(Normal, st)
    case Expression(e) => Done(Normal, Evaluate(m, e, st).store)
    case Sequence(a, b) =>
      (match Execute(m, a, st, fuel)
       case Timeout => Timeout
       case Done(o, st1) => if o.Normal? then Execute(m, b, st1, fuel) else Done(o, st1))
    case Block(name, b) =>
      (match Execute(m, b, st, fuel)
       case Timeout => Timeout
       case Done(o, st1) => Done(After(o, BlockCatches(name, o)), st1))
    case If(c, y) =>
      var r := Evaluate(m, c, st);
      if m.truthy(r.value) then Execute(m, y, r.store, fuel) else Done(Normal, r.store)
    case IfElse(c, y, n) =>
      var r := Evaluate(m, c, st);
      if m.truthy(r.value) then Execute(m, y, r.store, fuel) else Execute(m, n, r.store, fuel)
    case While(_, _, _) => ExecuteTest(m, s, st, fuel)
    case DoWhile(_, _, _) => ExecuteBody(m, s, st, fuel)
    case For(_, init, _, _, _) => ExecuteTest(m, s, EvalOption(m, init, st), fuel)
    case Switch(name, d, clauses) =>
      var r := Evaluate(m, d, st);
      var (found, st1) := SelectCase(m, clauses, r.value, r.store);
      var from := if found.Some? then found.value else DefaultIndex(clauses);
      (match ExecuteClauses(m, clauses, from, st1, fuel)
       case Timeout => Timeout
       case Done(o, st2) => Done(After(o, CatchesBreak(name, o)), st2))
    case Break(t) => Done(Broke(t), st)
    case Continue(t) => Done(Continued(t), st)
  }

  predicate IsLoop(s: Stmt) { s.While? || s.DoWhile? || s.For? }

  function LoopTest(s: Stmt): Option<Expr>
    requires IsLoop(s)
  {
    if s.For? then s.test else Some(s.cond)
  }

  function LoopUpdate(s: Stmt): Option<Expr>
    requires IsLoop(s)
  {
    if s.For? then s.update else None
  }

  // A loop about to test its condition.
  function ExecuteTest(m: Machine, s: Stmt, st: Store, fuel: nat): Exec
    requires IsLoop(s)
    decreases fuel, s, 0, 1
  {
    if LoopTest(s).None? then ExecuteBody(m, s, st, fuel) else
    var r := Evaluate(m, LoopTest(s).value, st);
    if m.truthy(r.value) then ExecuteBody(m, s, r.store, fuel) else Done(Normal, r.store)
  }

  // A loop about to execute its body.
  function ExecuteBody(m: Machine, s: Stmt, st: Store, fuel: nat): Exec
    requires IsLoop(s)
    decreases fuel, s, 0, 0
  {
    match Execute(m, s.body, st, fuel)
    case Timeout => Timeout
    case Done(o, st1) =>
      if o.Normal? || CatchesContinue(s.name, o) then
        if fuel == 0 then Timeout
        else ExecuteTest(m, s, EvalOption(m, LoopUpdate(s), st1), fuel - 1)
      else Done(After(o, CatchesBreak(s.name, o)), st1)
  }

  function ClauseCount(c: Clauses): nat {
    if c.NoClauses? then 0 else 1 + ClauseCount(c.next)
  }

  // The number of the first clause whose test is strictly equal to d.
  function SelectCase(m: Machine, c: Clauses, d: Value, st: Store): (r: (Option<nat>, Store))
    ensures r.0.Some? ==> r.0.value < ClauseCount(c)
  {
    match c
    case NoClauses => (None, st)
    case Default(_, next) => NextClause(SelectCase(m, next, d, st))
    case Case(t, _, next) =>
      var r := Evaluate(m, t, st);
      if m.same(d, r.value) then (Some(0), r.store) else NextClause(SelectCase(m, next, d, r.store))
  }

  function NextClause(r: (Option<nat>, Store)): (Option<nat>, Store) {
    (if r.0.Some? then Some(r.0.value + 1) else None, r.1)
  }

  // The number of the "default" clause, the number of clauses if there is none;
  // the last one counts, but the parser allows only one.
  function DefaultIndex(c: Clauses): (i: nat)
    ensures i <= ClauseCount(c)
  {
    match c
    case NoClauses => 0
    case Default(_, next) =>
      var i := DefaultIndex(next);
      if i < ClauseCount(next) then 1 + i else 0
    case Case(_, _, next) => 1 + DefaultIndex(next)
  }

  // The bodies of all clauses but the first "skip", one after another.
  function ExecuteClauses(m: Machine, c: Clauses, skip: nat, st: Store, fuel: nat): Exec
    decreases fuel, c, 0
  {
    match c
    case NoClauses => Done(Normal, st)
    case _ =>
      if skip > 0 then ExecuteClauses(m, c.next, skip - 1, st, fuel) else
      match Execute(m, c.body, st, fuel)
      case Timeout => Timeout
      case Done(o, st1) =>
        if o.Normal? then ExecuteClauses(m, c.next, 0, st1, fuel) else Done(o, st1)
  }
}
