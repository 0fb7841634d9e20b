// The instruction words the generator writes and the interpreter that runs
// them.  Every field of an njs instruction is one pointer-sized word, so code
// is a sequence of words, and jump offsets count words from the first word of
// the jump instruction (the source counts bytes, eight per word).
module Bytecode {
  import opened Wrappers

  datatype Value = Undefined | Boolean(b: bool) | Number(n: int) | Text(s: string)

  // An index names a constant, a variable or a temporary of the current scope.
  datatype Index = Constant(value: Value) | Variable(name: string) | Temporary(n: nat)

  // Operation codes of two- and three-address instructions stay abstract: the
  // machine below gives them any meaning.
  datatype Operation =
    | Jump | IfTrueJump | IfFalseJump | IfEqualJump
    | Move | UnaryOp(code: nat) | BinaryOp(code: nat)
    | CountOp(decrement: bool, post: bool)
    | TestIfTrue | TestIfFalse | Stop

  datatype Word = Opcode(op: Operation) | Offset(off: int) | Operand(index: Index)

  // Any interpretation of the operators of the language.  The field "keeps"
  // chooses between two readings of the tree (see Syntax.LeftValue) and means
  // nothing to the instructions.
  datatype Machine = Machine(
    keeps: bool,
    unary: (nat, Value) -> Value,
    binary: (nat, Value, Value) -> Value,
    numeric: Value -> Value,
    count: (bool, Value) -> Value,
    truthy: Value -> bool,
    same: (Value, Value) -> bool)

  type Store = map<string, Value>

  function Lookup(s: Store, x: string): Value {
    if x in s then s[x] else Undefined
  }

  // A variable that already holds v (an absent one holds Undefined) is left alone.
  function Update(s: Store, x: string, v: Value): (r: Store)
    ensures Lookup(r, x) == v
    ensures forall y :: y != x ==> Lookup(r, y) == Lookup(s, y)
  {
    if Lookup(s, x) == v then s else s[x := v]
  }

  datatype Frame = Frame(vars: Store, temps: map<nat, Value>)

  function ReadTemp(f: Frame, t: nat): Value {
    if t in f.temps then f.temps[t] else Undefined
  }

  function Read(f: Frame, i: Index): Value {
    match i
    case Constant(v) => v
    case Variable(x) => Lookup(f.vars, x)
    case Temporary(t) => ReadTemp(f, t)
  }

  predicate Writable(i: Index) { !i.Constant? }

  function NameOf(i: Index): Option<string> {
    if i.Variable? then Some(i.name) else None
  }

  function Write(f: Frame, i: Index, v: Value): (g: Frame)
    requires Writable(i)
    ensures Read(g, i) == v
    ensures forall t: nat :: i != Temporary(t) ==> ReadTemp(g, t) == ReadTemp(f, t)
  {
    match i
    case Variable(x) => f.(vars := Update(f.vars, x, v))
    case Temporary(t) => f.(temps := f.temps[t := v])
  }

  datatype Instruction =
    | IJump(off: int)
    | ICond(want: bool, off: int, cond: Index)
    | IEqual(off: int, value1: Index, value2: Index)
    | IMove(dst: Index, src: Index)
    | IUnary(code: nat, dst: Index, src: Index)
    | IBinary(code: nat, dst: Index, src1: Index, src2: Index)
    | ICount(decrement: bool, post: bool, dst: Index, src1: Index, src2: Index)
    | ITest(want: bool, retval: Index, value: Index, off: int)
    | IStop(result: Index)

  function Size(i: Instruction): nat {
    match i
    case IJump(_) => 2
    case ICond(_, _, _) => 3
    case IEqual(_, _, _) => 4
    case IMove(_, _) => 3
    case IUnary(_, _, _) => 3
    case IBinary(_, _, _, _) => 4
    case ICount(_, _, _, _, _) => 4
    case ITest(_, _, _, _) => 4
    case IStop(_) => 2
  }

  function Encode(i: Instruction): (w: seq<Word>)
    ensures |w| == Size(i)
  {
    match i
    case IJump(off) => [Opcode(Jump), Offset(off)]
    case ICond(want, off, c) =>
      [Opcode(if want then IfTrueJump else IfFalseJump), Offset(off), Operand(c)]
    case IEqual(off, a, b) => [Opcode(IfEqualJump), Offset(off), Operand(a), Operand(b)]
    case IMove(d, s) => [Opcode(Move), Operand(d), Operand(s)]
    case IUnary(o, d, s) => [Opcode(UnaryOp(o)), Operand(d), Operand(s)]
    case IBinary(o, d, a, b) => [Opcode(BinaryOp(o)), Operand(d), Operand(a), Operand(b)]
    case ICount(dec, post, d, a, b) =>
      [Opcode(CountOp(dec, post)), Operand(d), Operand(a), Operand(b)]
    case ITest(want, r, v, off) =>
      [Opcode(if want then TestIfTrue else TestIfFalse), Operand(r), Operand(v), Offset(off)]
    case IStop(r) => [Opcode(Stop), Operand(r)]
  }

  function OperandAt(code: seq<Word>, p: nat): Option<Index> {
    if p < |code| && code[p].Operand? then Some(code[p].index) else None
  }

  function OffsetAt(code: seq<Word>, p: nat): Option<int> {
    if p < |code| && code[p].Offset? then Some(code[p].off) else None
  }

  // The instruction whose first word is at pc, if the words there form one.
  function Decode(code: seq<Word>, pc: nat): Option<Instruction> {
    if pc >= |code| || !code[pc].Opcode? then None else
    var o1, x1 := OffsetAt(code, pc + 1), OperandAt(code, pc + 1);
    var x2, x3 := OperandAt(code, pc + 2), OperandAt(code, pc + 3);
    match code[pc].op
    case Jump => if o1.Some? then Some(IJump(o1.value)) else None
    case IfTrueJump =>
      if o1.Some? && x2.Some? then Some(ICond(true, o1.value, x2.value)) else None
    case IfFalseJump =>
      if o1.Some? && x2.Some? then Some(ICond(false, o1.value, x2.value)) else None
    case IfEqualJump =>
      if o1.Some? && x2.Some? && x3.Some? then Some(IEqual(o1.value, x2.value, x3.value)) else None
    case Move => if x1.Some? && x2.Some? then Some(IMove(x1.value, x2.value)) else None
    case UnaryOp(c) => if x1.Some? && x2.Some? then Some(IUnary(c, x1.value, x2.value)) else None
    case BinaryOp(c) =>
      if x1.Some? && x2.Some? && x3.Some? then Some(IBinary(c, x1.value, x2.value, x3.value)) else None
    case CountOp(dec, post) =>
      if x1.Some? && x2.Some? && x3.Some? then Some(ICount(dec, post, x1.value, x2.value, x3.value))
      else None
    case TestIfTrue =>
      var o3 := OffsetAt(code, pc + 3);
      if x1.Some? && x2.Some? && o3.Some? then Some(ITest(true, x1.value, x2.value, o3.value)) else None
    case TestIfFalse =>
      var o3 := OffsetAt(code, pc + 3);
      if x1.Some? && x2.Some? && o3.Some? then Some(ITest(false, x1.value, x2.value, o3.value)) else None
    case Stop => if x1.Some? then Some(IStop(x1.value)) else None
  }

  lemma DecodeEncode(code: seq<Word>, pc: nat, i: Instruction)
    requires pc + |Encode(i)| <= |code|
    requires code[pc..pc + |Encode(i)|] == Encode(i)
    ensures Decode(code, pc) == Some(i)
  {
    var e := Encode(i);
    forall k | 0 <= k < |e| ensures code[pc + k] == e[k] {
      assert code[pc..pc + |e|][k] == e[k];
    }
    assert code[pc + 0] == e[0] && code[pc + 1] == e[1];
    assert |e| > 2 ==> code[pc + 2] == e[2];
    assert |e| > 3 ==> code[pc + 3] == e[3];
  }

  datatype State = State(pc: nat, frame: Frame)

  datatype Transition = Continue(next: State) | Stopped(result: Value) | Stuck

  function JumpTo(pc: nat, off: int, f: Frame): Transition {
    if pc + off >= 0 then Continue(State(pc + off, f)) else Stuck
  }

  function Store1(pc: nat, f: Frame, dst: Index, v: Value): Transition {
    if Writable(dst) then Continue(State(pc, Write(f, dst, v))) else Stuck
  }

  // One turn of the interpreter's loop.
  function Step(m: Machine, code: seq<Word>, s: State): Transition {
    var f := s.frame;
    match Decode(code, s.pc)
    case None => Stuck
    case Some(i) =>
      match i
      case IJump(off) => JumpTo(s.pc, off, f)
      case ICond(want, off, c) =>
        if m.truthy(Read(f, c)) == want then JumpTo(s.pc, off, f) else Continue(State(s.pc + 3, f))
      case IEqual(off, a, b) =>
        if m.same(Read(f, a), Read(f, b)) then JumpTo(s.pc, off, f) else Continue(State(s.pc + 4, f))
      case IMove(d, src) => Store1(s.pc + 3, f, d, Read(f, src))
      case IUnary(o, d, src) => Store1(s.pc + 3, f, d, m.unary(o, Read(f, src)))
      case IBinary(o, d, a, b) => Store1(s.pc + 4, f, d, m.binary(o, Read(f, a), Read(f, b)))
      case ICount(dec, post, d, a, b) =>
        // The operand is updated first and the result stored after it.
        var num := m.numeric(Read(f, b));
        var next := m.count(dec, num);
        if Writable(a) then Store1(s.pc + 4, Write(f, a, next), d, if post then num else next) else Stuck
      case ITest(want, r, v, off) =>
        var x := Read(f, v);
        if !Writable(r) then Stuck
        else if m.truthy(x) == want then JumpTo(s.pc, off, Write(f, r, x))
        else Continue(State(s.pc + 4, Write(f, r, x)))
      case IStop(r) => Stopped(Read(f, r))
  }

  // The state after n steps, if the machine neither stops nor gets stuck before.
  function Run(m: Machine, code: seq<Word>, s: State, n: nat): Option<State>
    decreases n
  {
    if n == 0 then Some(s) else
    match Step(m, code, s)
    case Continue(t) => Run(m, code, t, n - 1)
    case Stopped(_) => None
    case Stuck => None
  }

  ghost predicate Reaches(m: Machine, code: seq<Word>, s: State, t: State) {
    exists n: nat :: Run(m, code, s, n) == Some(t)
  }

  // The machine can make at least k steps from s.
  predicate Runs(m: Machine, code: seq<Word>, s: State, k: nat) {
    Run(m, code, s, k).Some?
  }

  lemma {:induction false} RunAdd(m: Machine, code: seq<Word>, s: State, t: State, n: nat, k: nat)
    requires Run(m, code, s, n) == Some(t)
    ensures Run(m, code, s, n + k) == Run(m, code, t, k)
    decreases n
  {
    if n > 0 {
      RunAdd(m, code, Step(m, code, s).next, t, n - 1, k);
    }
  }

  lemma Halfway(m: Machine, code: seq<Word>, s: State, k: nat, j: nat)
    requires j <= k && Runs(m, code, s, k)
    ensures Runs(m, code, s, j)
    decreases k
  {
    if j > 0 {
      Halfway(m, code, Step(m, code, s).next, k - 1, j - 1);
    }
  }

  lemma Trans(m: Machine, code: seq<Word>, s: State, t: State, u: State)
    requires Reaches(m, code, s, t) && Reaches(m, code, t, u)
    ensures Reaches(m, code, s, u)
  {
    var n: nat :| Run(m, code, s, n) == Some(t);
    var k: nat :| Run(m, code, t, k) == Some(u);
    RunAdd(m, code, s, t, n, k);
  }

  lemma RunsAfter(m: Machine, code: seq<Word>, s: State, t: State, k: nat)
    requires Reaches(m, code, s, t) && Runs(m, code, t, k)
    ensures Runs(m, code, s, k)
  {
    var n: nat :| Run(m, code, s, n) == Some(t);
    RunAdd(m, code, s, t, n, k);
    Halfway(m, code, s, n + k, k);
  }

  lemma One(m: Machine, code: seq<Word>, s: State, t: State)
    requires Step(m, code, s) == Continue(t)
    ensures Reaches(m, code, s, t)
    ensures forall k: nat :: Runs(m, code, t, k) ==> Runs(m, code, s, k + 1)
  {
    assert Run(m, code, t, 0) == Some(t);
    assert Run(m, code, s, 1) == Some(t);
    forall k: nat | Runs(m, code, t, k) ensures Runs(m, code, s, k + 1) {
      assert Run(m, code, s, k + 1) == Run(m, code, t, k);
    }
  }

  lemma Zero(m: Machine, code: seq<Word>, s: State)
    ensures Reaches(m, code, s, s)
  {
    assert Run(m, code, s, 0) == Some(s);
  }
}
