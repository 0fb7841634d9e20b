// Whole scripts: when the machine halts on the code of a script, and with what.
module Scripts {
  import opened Wrappers
  import opened Bytecode
  import opened Syntax
  import opened CodeMeaning
  import opened CodeHoles
  import opened Readings

  // What a script comes to within fuel turns of its loops.  The value is that of
  // the last statement if it is an expression.
  datatype Completion = Finished(value: Value, store: Store) | Cut | Escaped

  function Complete(m: Machine, p: Program, st: Store, fuel: nat): Completion {
    match Execute(m, p.chain, st, fuel)
    case Timeout => Cut
    case Done(o, st1) =>
      if !o.Normal? then Escaped
      else if p.last.Expression? then
        var r := Evaluate(m, p.last.e, st1);
        Finished(r.value, r.store)
      else
        match Execute(m, p.last, st1, fuel)
        case Timeout => Cut
        case Done(o2, st2) => if o2.Normal? then Finished(Undefined, st2) else Escaped
  }

  // The machine stops after n steps from s with value v and variables st.
  ghost predicate HaltsAfter(m: Machine, code: seq<Word>, s: State, n: nat, v: Value, st: Store) {
    var t := Run(m, code, s, n);
    t.Some? && t.value.frame.vars == st && Step(m, code, t.value) == Stopped(v)
  }

  ghost predicate Halts(m: Machine, code: seq<Word>, s: State, v: Value, st: Store) {
    exists n: nat :: HaltsAfter(m, code, s, n, v, st)
  }

  ghost predicate ScriptAt(m: Machine, code: seq<Word>, p: Program, f: Frame, fuel: nat) {
    match Complete(m, p, f.vars, fuel)
    case Finished(v, st) => Halts(m, code, State(0, f), v, st)
    case Cut => Runs(m, code, State(0, f), fuel)
    case Escaped => false
  }

  // The code means the script: it halts with what the script comes to, and a
  // script cut after any number of turns keeps the machine going that long.
  ghost predicate ScriptOk(m: Machine, code: seq<Word>, p: Program) {
    forall f, fuel: nat :: ScriptAt(m, code, p, f, fuel)
  }

  // The statements of the script are [0, mid) and [mid, end), with all their parts
  // in place and all their breaks and continues leading forward; what follows is
  // the instruction that stops with the value in r.
  ghost predicate ScriptParts(m: Machine, code: seq<Word>, p: Program, mid: nat, end: nat, r: Index) {
    && Laid(m, code, [], [], 0, mid, p.chain, true) && Laid(m, code, [], [], mid, end, p.last, true)
    && (p.last.Expression? ==> ExprOk(m, code, mid, end, p.last.e, r, None, {}))
    && Decode(code, end) == Some(IStop(if p.last.Expression? then r else Constant(Undefined)))
    && |code| == end + 2
  }

  ghost predicate ScriptLaid(m: Machine, code: seq<Word>, p: Program) {
    exists mid: nat, end: nat, r :: ScriptParts(m, code, p, mid, end, r)
  }

  predicate SafeProgram(p: Program) { SafeStmt(p.chain) && SafeStmt(p.last) }

  lemma HaltsAt(m: Machine, code: seq<Word>, s: State, t: State, v: Value)
    requires Reaches(m, code, s, t) && Step(m, code, t) == Stopped(v)
    ensures Halts(m, code, s, v, t.frame.vars)
  {
    var n: nat :| Run(m, code, s, n) == Some(t);
    assert HaltsAfter(m, code, s, n, v, t.frame.vars);
  }

  // The statements of the script one after another, then the stop instruction.
  lemma ScriptCode(m: Machine, code: seq<Word>, p: Program, mid: nat, end: nat, r: Index)
    requires StmtOk(m, code, [], [], 0, mid, p.chain) && StmtOk(m, code, [], [], mid, end, p.last)
    requires p.last.Expression? ==> ExprOk(m, code, mid, end, p.last.e, r, None, {})
    requires Decode(code, end) == Some(IStop(if p.last.Expression? then r else Constant(Undefined)))
    ensures ScriptOk(m, code, p)
  {
    forall f, fuel: nat ensures ScriptAt(m, code, p, f, fuel) {
      var r1 := StmtResult(m, code, [], [], 0, mid, p.chain, f, fuel);
      if r1.Done? {
        var g :| Reaches(m, code, State(0, f), State(mid, g)) && g.vars == r1.store;
        LastCode(m, code, p, mid, end, r, f, g, fuel);
      }
    }
  }

  lemma LastCode(m: Machine, code: seq<Word>, p: Program, mid: nat, end: nat, r: Index, f: Frame, g: Frame, fuel: nat)
    requires StmtOk(m, code, [], [], mid, end, p.last)
    requires p.last.Expression? ==> ExprOk(m, code, mid, end, p.last.e, r, None, {})
    requires Decode(code, end) == Some(IStop(if p.last.Expression? then r else Constant(Undefined)))
    requires Execute(m, p.chain, f.vars, fuel) == Done(Normal, g.vars)
    requires Reaches(m, code, State(0, f), State(mid, g))
    ensures ScriptAt(m, code, p, f, fuel)
  {
    var s := State(0, f);
    if p.last.Expression? {
      var h := ExprResult(m, code, mid, end, p.last.e, r, None, {}, g);
      Trans(m, code, s, State(mid, g), State(end, h));
      HaltsAt(m, code, s, State(end, h), Read(h, r));
    } else {
      var r2 := StmtResult(m, code, [], [], mid, end, p.last, g, fuel);
      YieldsAfter(m, code, [], [], end, s, State(mid, g), r2, fuel);
      if r2.Done? {
        var h :| Reaches(m, code, s, State(end, h)) && h.vars == r2.store;
        HaltsAt(m, code, s, State(end, h), Undefined);
      }
    }
  }

  // The machine halts in one way only.
  lemma HaltsOnce(m: Machine, code: seq<Word>, s: State, n: nat, v: Value, st: Store, n': nat, v': Value, st': Store)
    requires HaltsAfter(m, code, s, n, v, st) && HaltsAfter(m, code, s, n', v', st')
    ensures n == n' && v == v' && st == st'
  {
    if n < n' {
      RunAdd(m, code, s, Run(m, code, s, n).value, n, n' - n);
    } else if n' < n {
      RunAdd(m, code, s, Run(m, code, s, n').value, n', n - n');
    }
  }

  // Code that means a script halts exactly when the script comes to an end, with
  // the same value and the same variables.
  lemma HaltsExactly(m: Machine, code: seq<Word>, p: Program, f: Frame, v: Value, st: Store)
    requires ScriptOk(m, code, p)
    ensures Halts(m, code, State(0, f), v, st) <==>
            exists fuel: nat :: Complete(m, p, f.vars, fuel) == Finished(v, st)
  {
    var s := State(0, f);
    if Halts(m, code, s, v, st) {
      var n: nat :| HaltsAfter(m, code, s, n, v, st);
      assert ScriptAt(m, code, p, f, n + 1);
      match Complete(m, p, f.vars, n + 1)
      case Finished(v', st') =>
        var n': nat :| HaltsAfter(m, code, s, n', v', st');
        HaltsOnce(m, code, s, n, v, st, n', v', st');
      case Cut =>
        RunAdd(m, code, s, Run(m, code, s, n).value, n, 1);
        assert false;
      case Escaped =>
    }
    if exists fuel: nat :: Complete(m, p, f.vars, fuel) == Finished(v, st) {
      var fuel: nat :| Complete(m, p, f.vars, fuel) == Finished(v, st);
      assert ScriptAt(m, code, p, f, fuel);
    }
  }

  // c1 is the code of the chain, c2 with the last statement, c with the stop.
  lemma ScriptJoin(m: Machine, c1: seq<Word>, c2: seq<Word>, c: seq<Word>, p: Program, r: Index)
    requires c1 <= c2 && c2 <= c
    requires StmtImpl(m, c1, map[], [], 0, |c1|, p.chain) && StmtImpl(m, c2, map[], [], |c1|, |c2|, p.last)
    requires p.last.Expression? ==> ExprImpl(m, c2, |c1|, |c2|, p.last.e, r, None, {})
    requires Has(c, |c2|, IStop(if p.last.Expression? then r else Constant(Undefined))) && |c| == |c2| + 2
    ensures ScriptOk(m, c, p) && ScriptLaid(m, c, p)
  {
    assert Final(c1, map[], c, [], 0, |c1|) && Final(c2, map[], c, [], |c1|, |c2|);
    assert Agrees(c2, c, |c1|, |c2|);
    HasAgrees(c, c, 0, |c|, |c2|, IStop(if p.last.Expression? then r else Constant(Undefined)));
    ScriptCode(m, c, p, |c1|, |c2|, r);
    LaidAhead(m, c, [], [], 0, |c1|, p.chain);
    LaidAhead(m, c, [], [], |c1|, |c2|, p.last);
    assert ScriptParts(m, c, p, |c1|, |c2|, r);
  }

  // ----- operands the generator does not keep -----

  const PLUS: nat := 12

  function Adder(): Machine {
    Machine(true, (o: nat, v: Value) => v,
            (o: nat, a: Value, b: Value) => if a.Number? && b.Number? then Number(a.n + b.n) else Undefined,
            (v: Value) => v,
            (dec: bool, v: Value) => if v.Number? then Number(if dec then v.n - 1 else v.n + 1) else v,
            (v: Value) => v != Undefined && v != Number(0),
            (a: Value, b: Value) => a == b)
  }

  // ----- the two readings of a script -----

  // Code that means a safe script in one reading means it in the other.
  lemma SafeScript(m: Machine, k: bool, code: seq<Word>, p: Program)
    requires SafeProgram(p) && ScriptOk(m, code, p)
    ensures ScriptOk(m.(keeps := k), code, p)
  {
    var m' := m.(keeps := k);
    forall f, fuel: nat ensures ScriptAt(m', code, p, f, fuel) {
      assert ScriptAt(m, code, p, f, fuel);
      SafeComplete(m, k, p, f.vars, fuel);
      match Complete(m, p, f.vars, fuel)
      case Finished(v, st) => HaltsReading(m, k, code, State(0, f), v, st);
      case Cut => RunReading(m, k, code, State(0, f), fuel);
      case Escaped =>
    }
  }

  lemma SafeComplete(m: Machine, k: bool, p: Program, st: Store, fuel: nat)
    requires SafeProgram(p)
    ensures Complete(m.(keeps := k), p, st, fuel) == Complete(m, p, st, fuel)
  {
    SafeExecute(m, k, p.chain, st, fuel);
    var r := Execute(m, p.chain, st, fuel);
    if r.Done? {
      SafeExecute(m, k, p.last, r.store, fuel);
      if p.last.Expression? {
        SafeEvaluate(m, k, p.last.e, r.store);
      }
    }
  }

  lemma HaltsReading(m: Machine, k: bool, code: seq<Word>, s: State, v: Value, st: Store)
    requires Halts(m, code, s, v, st)
    ensures Halts(m.(keeps := k), code, s, v, st)
  {
    var n: nat :| HaltsAfter(m, code, s, n, v, st);
    RunReading(m, k, code, s, n);
    RunReading(m, k, code, Run(m, code, s, n).value, 0);
    assert HaltsAfter(m.(keeps := k), code, s, n, v, st);
  }

  // A script of one expression.
  function Only(e: Expr): Program {
    Program(Empty, Expression(e))
  }

  // The code of one expression halts, in one way only: with the value the
  // expression has as written.
  lemma OnlyValue(m: Machine, code: seq<Word>, e: Expr, f: Frame)
    requires ScriptOk(AsWritten(m), code, Only(e))
    ensures var r := Evaluate(AsWritten(m), e, f.vars);
            && Halts(m, code, State(0, f), r.value, r.store)
            && forall v, st :: Halts(m, code, State(0, f), v, st) ==> v == r.value && st == r.store
  {
    var w, s := AsWritten(m), State(0, f);
    var r := Evaluate(w, e, f.vars);
    assert ScriptAt(w, code, Only(e), f, 0);
    HaltsReading(w, m.keeps, code, s, r.value, r.store);
    var n: nat :| HaltsAfter(m, code, s, n, r.value, r.store);
    forall v, st | Halts(m, code, s, v, st) ensures v == r.value && st == r.store {
      var n': nat :| HaltsAfter(m, code, s, n', v, st);
      HaltsOnce(m, code, s, n, r.value, r.store, n', v, st);
    }
  }

  // The code of one binary operation on safe operands halts with what the language
  // asks for exactly when the operator cannot tell the left value from what the
  // variable it is read from holds after the right operand.
  lemma OperationExactly(m: Machine, code: seq<Word>, op: nat, a: Expr, b: Expr, f: Frame)
    requires Safe(a) && Safe(b) && ScriptOk(AsWritten(m), code, Only(Binary(op, a, b)))
    ensures var meant := Evaluate(AsMeant(m), Binary(op, a, b), f.vars);
            var l := Evaluate(m, a, f.vars);
            var r := Evaluate(m, b, l.store);
            Halts(m, code, State(0, f), meant.value, meant.store)
            <==> Reread(a, b).None?
                 || m.binary(op, Lookup(r.store, Reread(a, b).value), r.value) == m.binary(op, l.value, r.value)
  {
    OnlyValue(m, code, Binary(op, a, b), f);
    OperationAgrees(m, op, a, b, f.vars);
  }

  // The code of an operation on a name, or of an assignment with one, halts with
  // what the language asks for, whatever the right operand assigns to the name.
  lemma NameKeptInCode(m: Machine, code: seq<Word>, e: Expr, f: Frame)
    requires match e
             case Binary(_, Name(x), b) => Safe(b) && x !in Counted(b)
             case OpAssign(_, x, b) => Safe(b) && x !in Counted(b)
             case _ => false
    requires ScriptOk(AsWritten(m), code, Only(e))
    ensures var meant := Evaluate(AsMeant(m), e, f.vars);
            && Halts(m, code, State(0, f), meant.value, meant.store)
            && forall v, st :: Halts(m, code, State(0, f), v, st) ==> v == meant.value && st == meant.store
  {
    if e.Binary? {
      NameKept(m, e.bop, e.left.name, e.right, f.vars);
    } else {
      NameKept(m, e.bop, e.name, e.rhs, f.vars);
    }
    OnlyValue(m, code, e, f);
  }

  // a + (a = 5).
  function Saved(): Expr {
    Binary(PLUS, Name("a"), Assign("a", Literal(Number(5))))
  }

  // a += (a = 5).
  function SavedAssignment(): Expr {
    OpAssign(PLUS, "a", Assign("a", Literal(Number(5))))
  }

  // With a = 1 the code of both halts with 6.
  lemma SavedName(code: seq<Word>, e: Expr)
    requires e == Saved() || e == SavedAssignment()
    requires ScriptOk(AsWritten(Adder()), code, Only(e))
    ensures var f := Frame(map["a" := Number(1)], map[]);
            && (exists st :: Halts(Adder(), code, State(0, f), Number(6), st))
            && (forall v, st :: Halts(Adder(), code, State(0, f), v, st) ==> v == Number(6))
  {
    var m := Adder();
    var f := Frame(map["a" := Number(1)], map[]);
    assert Counted(Assign("a", Literal(Number(5)))) == {};
    assert Safe(Assign("a", Literal(Number(5))));
    NameKeptInCode(m, code, e, f);
    assert Evaluate(AsMeant(m), Assign("a", Literal(Number(5))), f.vars).value == Number(5);
    assert Evaluate(AsMeant(m), e, f.vars).value == Number(6);
  }

  function Assignment(): Expr {
    Binary(PLUS, Assign("a", Name("b")), Assign("b", Literal(Number(5))))
  }

  function Increment(): Expr {
    Binary(PLUS, Name("a"), Count(false, true, "a"))
  }

  // (a = b) + (b = 5) does not keep its left operand: the result of a = b is
  // taken to be in b, so with b = 1 the code halts with 10 instead of 6.
  lemma UnkeptAssignment(code: seq<Word>)
    ensures var e := Assignment();
            var f := Frame(map["a" := Number(0), "b" := Number(1)], map[]);
            && !Safe(e) && Evaluate(AsMeant(Adder()), e, f.vars).value == Number(6)
            && (ScriptOk(AsWritten(Adder()), code, Only(e)) ==>
                  && (exists st :: Halts(Adder(), code, State(0, f), Number(10), st))
                  && (forall st :: !Halts(Adder(), code, State(0, f), Number(6), st)))
  {
    var m := Adder();
    var e := Assignment();
    var f := Frame(map["a" := Number(0), "b" := Number(1)], map[]);
    var st1 := Update(f.vars, "a", Number(1));
    var st2 := Update(st1, "b", Number(5));
    assert Evaluate(AsWritten(m), Assign("a", Name("b")), f.vars) == Eval(Number(1), st1);
    assert Evaluate(AsWritten(m), Assign("b", Literal(Number(5))), st1) == Eval(Number(5), st2);
    assert Evaluate(AsMeant(m), Assign("a", Name("b")), f.vars) == Eval(Number(1), st1);
    assert Evaluate(AsMeant(m), Assign("b", Literal(Number(5))), st1) == Eval(Number(5), st2);
    if ScriptOk(AsWritten(m), code, Only(e)) {
      OnlyValue(m, code, e, f);
    }
  }

  // a + a++ does not either: "++" is not among the side effects for which a is
  // saved, so with a = 0 the code halts with 1 instead of 0.
  lemma UnkeptIncrement(code: seq<Word>)
    ensures var e := Increment();
            var f := Frame(map["a" := Number(0)], map[]);
            && !Safe(e) && Evaluate(AsMeant(Adder()), e, f.vars).value == Number(0)
            && (ScriptOk(AsWritten(Adder()), code, Only(e)) ==>
                  && (exists st :: Halts(Adder(), code, State(0, f), Number(1), st))
                  && (forall st :: !Halts(Adder(), code, State(0, f), Number(0), st)))
  {
    var m := Adder();
    var e := Increment();
    var f := Frame(map["a" := Number(0)], map[]);
    var st := Update(f.vars, "a", Number(1));
    assert Evaluate(AsWritten(m), Count(false, true, "a"), f.vars) == Eval(Number(0), st);
    assert Evaluate(AsMeant(m), Count(false, true, "a"), f.vars) == Eval(Number(0), st);
    if ScriptOk(AsWritten(m), code, Only(e)) {
      OnlyValue(m, code, e, f);
    }
  }
}
