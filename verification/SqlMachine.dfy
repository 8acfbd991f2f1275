// The part of the virtual machine (src/db_sqlite/vdbe.c) that runs compiled scalar
// expressions: instructions, a stack of values, and the steps between states.
module SqlMachine {

  datatype Value = Null | Int(i: int) | Real(r: real) | Str(z: seq<int>)

  datatype Truth = True | False | Unknown

  datatype Comparison = Eq | Ne | Lt | Le | Gt | Ge

  // The affinity and the collating sequence with which two operands are compared.
  type Affinity = x: int | 0 <= x < 0x100
  datatype Rule = Rule(affinity: Affinity, collation: int)

  // What the machine gets from outside: comparison of two non-null values, operators and
  // functions by number, and the numeric reading of texts.
  datatype Env = Env(compare: (Rule, Value, Value) -> int, apply: (int, seq<Value>) -> Value,
                     column: (int, int) -> Value, toInt: seq<int> -> int, toReal: seq<int> -> real)

  datatype Opcode =
    | OpInteger | OpLiteral | OpNull | OpColumn | OpDup | OpPull | OpPop | OpGoto | OpAddImm | OpHalt
    | OpTest(cmp: Comparison) | OpAnd | OpOr | OpNot | OpNegative | OpIf | OpIfNot | OpIsNull | OpNotNull
    | OpUnary | OpBinary | OpFunction

  datatype P3 = NoP3 | Constant(v: Value) | Collation(id: int) | Operator(f: int)

  datatype Op = Op(opcode: Opcode, p1: int, p2: int, p3: P3)

  datatype State = Running(pc: nat, stack: seq<Value>) | Halted | Fault

  function Truncate(r: real): int {
    if r >= 0.0 then r.Floor else -((-r).Floor)
  }

  // sqlite3VdbeIntValue and sqlite3VdbeRealValue.
  function IntOf(env: Env, v: Value): int {
    match v
    case Null => 0
    case Int(i) => i
    case Real(r) => Truncate(r)
    case Str(z) => env.toInt(z)
  }

  function RealOf(env: Env, v: Value): real {
    match v
    case Null => 0.0
    case Int(i) => i as real
    case Real(r) => r
    case Str(z) => env.toReal(z)
  }

  // How OP_And, OP_Or and OP_Not read a value, and how OP_If and OP_IfNot read it.
  function IntTruth(env: Env, v: Value): Truth {
    if v.Null? then Unknown else if IntOf(env, v) != 0 then True else False
  }

  function RealTruth(env: Env, v: Value): Truth {
    if v.Null? then Unknown else if RealOf(env, v) != 0.0 then True else False
  }

  function FromTruth(t: Truth): Value {
    match t case True => Int(1) case False => Int(0) case Unknown => Null
  }

  function And3(a: Truth, b: Truth): Truth {
    if a == False || b == False then False else if a == Unknown || b == Unknown then Unknown else True
  }

  function Or3(a: Truth, b: Truth): Truth {
    if a == True || b == True then True else if a == Unknown || b == Unknown then Unknown else False
  }

  function Not3(a: Truth): Truth {
    match a case True => False case False => True case Unknown => Unknown
  }

  predicate Holds(cmp: Comparison, res: int) {
    match cmp
    case Eq => res == 0
    case Ne => res != 0
    case Lt => res < 0
    case Le => res <= 0
    case Gt => res > 0
    case Ge => res >= 0
  }

  function Compare3(env: Env, cmp: Comparison, rule: Rule, a: Value, b: Value): Truth {
    if a.Null? || b.Null? then Unknown
    else if Holds(cmp, env.compare(rule, a, b)) then True else False
  }

  function Negate(env: Env, v: Value): Value {
    match v
    case Null => Null
    case Int(i) => Int(-i)
    case Real(r) => Real(-r)
    case Str(z) => Real(-env.toReal(z))
  }

  function Jump(pc: int, stack: seq<Value>): State {
    if pc < 0 then Fault else Running(pc, stack)
  }

  // A comparison jumps if p2 is set, and otherwise pushes its result. P1 holds the affinity in
  // its low byte and in 0x100 whether NULL takes the jump.
  function Test(env: Env, op: Op, cmp: Comparison, pc: nat, rest: seq<Value>, a: Value, b: Value): State {
    var t := Compare3(env, cmp, Rule(op.p1 % 0x100, if op.p3.Collation? then op.p3.id else 0), a, b);
    if op.p2 == 0 then Running(pc + 1, rest + [FromTruth(t)])
    else if t == True || (t == Unknown && op.p1 / 0x100 % 2 == 1) then Jump(op.p2, rest)
    else Running(pc + 1, rest)
  }

  // Instructions that only push a value.
  function Pushed(env: Env, op: Op, stack: seq<Value>): Value {
    match op.opcode
    case OpInteger => Int(op.p1)
    case OpLiteral => if op.p3.Constant? then op.p3.v else Null
    case OpColumn => env.column(op.p1, op.p2)
    case OpDup => if 0 <= op.p1 < |stack| then stack[|stack| - 1 - op.p1] else Null
    case _ => Null
  }

  // Instructions that replace the top of the stack.
  function Replaced(env: Env, op: Op, v: Value): Value {
    match op.opcode
    case OpAddImm => Int(IntOf(env, v) + op.p1)
    case OpNot => FromTruth(Not3(IntTruth(env, v)))
    case OpNegative => Negate(env, v)
    case _ => env.apply(if op.p3.Operator? then op.p3.f else 0, [v])
  }

  // Instructions that replace the two topmost values a, b by one.
  function Combined(env: Env, op: Op, a: Value, b: Value): Value {
    match op.opcode
    case OpAnd => FromTruth(And3(IntTruth(env, a), IntTruth(env, b)))
    case OpOr => FromTruth(Or3(IntTruth(env, a), IntTruth(env, b)))
    case _ => env.apply(if op.p3.Operator? then op.p3.f else 0, [a, b])
  }

  // Instructions that pop the top of the stack and may jump.
  predicate Branches(env: Env, op: Op, v: Value) {
    match op.opcode
    case OpIf => if v.Null? then op.p1 != 0 else RealTruth(env, v) == True
    case OpIfNot => if v.Null? then op.p1 != 0 else RealTruth(env, v) == False
    case OpIsNull => v.Null?
    case _ => !v.Null?
  }

  function Execute(env: Env, op: Op, pc: nat, stack: seq<Value>): State {
    var n := |stack|;
    match op.opcode
    case OpInteger | OpLiteral | OpNull | OpColumn => Running(pc + 1, stack + [Pushed(env, op, stack)])
    case OpDup => if 0 <= op.p1 < n then Running(pc + 1, stack + [Pushed(env, op, stack)]) else Fault
    case OpPull =>
      if 0 <= op.p1 < n then
        Running(pc + 1, stack[..n - 1 - op.p1] + stack[n - op.p1..] + [stack[n - 1 - op.p1]])
      else Fault
    case OpPop => if 0 <= op.p1 <= n then Running(pc + 1, stack[..n - op.p1]) else Fault
    case OpGoto => Jump(op.p2, stack)
    case OpHalt => Halted
    case OpAddImm | OpNot | OpNegative | OpUnary =>
      if n < 1 then Fault else Running(pc + 1, stack[..n - 1] + [Replaced(env, op, stack[n - 1])])
    case OpAnd | OpOr | OpBinary =>
      if n < 2 then Fault else Running(pc + 1, stack[..n - 2] + [Combined(env, op, stack[n - 2], stack[n - 1])])
    case OpFunction =>
      if 0 <= op.p2 <= n
      then Running(pc + 1, stack[..n - op.p2] + [env.apply(if op.p3.Operator? then op.p3.f else 0, stack[n - op.p2..])])
      else Fault
    case OpTest(cmp) => if n < 2 then Fault else Test(env, op, cmp, pc, stack[..n - 2], stack[n - 2], stack[n - 1])
    case OpIf | OpIfNot | OpIsNull | OpNotNull =>
      if n < 1 || ((op.opcode.OpIsNull? || op.opcode.OpNotNull?) && op.p1 != 1) then Fault
      else if Branches(env, op, stack[n - 1]) then Jump(op.p2, stack[..n - 1])
      else Running(pc + 1, stack[..n - 1])
  }

  function Step(env: Env, prog: seq<Op>, s: State): State {
    if !s.Running? then s
    else if s.pc >= |prog| then s
    else Execute(env, prog[s.pc], s.pc, s.stack)
  }

  function Run(env: Env, prog: seq<Op>, s: State, n: nat): State
    decreases n
  {
    if n == 0 then s else Run(env, prog, Step(env, prog, s), n - 1)
  }

  // Some number of steps leads from s to t.
  ghost predicate Reaches(env: Env, prog: seq<Op>, s: State, t: State) {
    exists n: nat :: Run(env, prog, s, n) == t
  }

  lemma {:induction false} RunAgain(env: Env, prog: seq<Op>, s: State, m: nat, n: nat)
    ensures Run(env, prog, s, m + n) == Run(env, prog, Run(env, prog, s, m), n)
    decreases m
  {
    if m > 0 {
      RunAgain(env, prog, Step(env, prog, s), m - 1, n);
    }
  }

  lemma Chain(env: Env, prog: seq<Op>, s: State, t: State, u: State)
    requires Reaches(env, prog, s, t) && Reaches(env, prog, t, u)
    ensures Reaches(env, prog, s, u)
  {
    var m: nat :| Run(env, prog, s, m) == t;
    var n: nat :| Run(env, prog, t, n) == u;
    RunAgain(env, prog, s, m, n);
  }

  lemma Stay(env: Env, prog: seq<Op>, s: State)
    ensures Reaches(env, prog, s, s)
  {
    assert Run(env, prog, s, 0) == s;
  }

  lemma OneStep(env: Env, prog: seq<Op>, s: State, t: State)
    requires Step(env, prog, s) == t
    ensures Reaches(env, prog, s, t)
  {
    assert Run(env, prog, s, 1) == Run(env, prog, t, 0) == t;
  }

  // A machine that stops, stops in one state only: two final states reached from the same state agree.
  lemma Deterministic(env: Env, prog: seq<Op>, s: State, t: State, u: State)
    requires Reaches(env, prog, s, t) && Reaches(env, prog, s, u)
    requires Step(env, prog, t) == t && Step(env, prog, u) == u
    ensures t == u
  {
    var m: nat :| Run(env, prog, s, m) == t;
    var n: nat :| Run(env, prog, s, n) == u;
    RunAgain(env, prog, s, m, n);
    RunAgain(env, prog, s, n, m);
    Rests(env, prog, t, n);
    Rests(env, prog, u, m);
  }

  lemma {:induction false} Rests(env: Env, prog: seq<Op>, s: State, n: nat)
    requires Step(env, prog, s) == s
    ensures Run(env, prog, s, n) == s
  {
    if n > 0 {
      Rests(env, prog, s, n - 1);
    }
  }
}
