// Scalar SQL expressions (src/db_sqlite/expr.c) and their meaning, as a value and as a
// three-valued condition.
module SqlExpr {

  import opened SqlMachine

  datatype Option<T> = None | Some(value: T)

  // A scalar expression after name resolution. CheckColumn is a column of the row a CHECK
  // constraint looks at (-1 is the rowid).
  datatype Expr =
    | Literal(v: Value)
    | Column(table: int, col: nat)
    | CheckColumn(k: int)
    | Plus(operand: Expr)
    | Minus(operand: Expr)
    | Unary(f: int, operand: Expr)
    | Binary(f: int, left: Expr, right: Expr)
    | Call(f: int, args: seq<Expr>)
    | Compare(cmp: Comparison, left: Expr, right: Expr)
    | And(left: Expr, right: Expr)
    | Or(left: Expr, right: Expr)
    | Not(operand: Expr)
    | IsNull(operand: Expr)
    | NotNull(operand: Expr)
    | Between(operand: Expr, low: Expr, high: Expr)
    | Case(base: Option<Expr>, arms: seq<Arm>, otherwise: Option<Expr>)

  datatype Arm = Arm(cond: Expr, result: Expr)

  // rule: the affinity and collation the schema gives a pair of operands.
  datatype World = World(env: Env, rule: (Expr, Expr) -> Rule)

  // The source compares the operand of CASE with WHEN in either order.
  ghost predicate Symmetric(w: World) {
    forall r, a, b :: w.env.compare(r, a, b) == 0 <==> w.env.compare(r, b, a) == 0
  }

  // An integer literal that does not fit in 64 bits is a real number.
  function LiteralValue(v: Value): Value {
    if v.Int? && !(-0x7FFF_FFFF_FFFF_FFFF <= v.i <= 0x7FFF_FFFF_FFFF_FFFF) then Real(v.i as real) else v
  }

  predicate Folds(e: Expr) {
    e.Minus? && e.operand.Literal? && (e.operand.v.Int? || e.operand.v.Real?)
  }

  // The value of an expression. AND, OR and NOT read their operands as integers.
  function Eval(w: World, row: seq<Value>, e: Expr): Value
    decreases e, 1, 0
  {
    match e
    case Literal(v) => LiteralValue(v)
    case Column(t, c) => w.env.column(t, c)
    case CheckColumn(k) => if 0 <= k + 1 < |row| then row[k + 1] else Null
    case Plus(a) => Eval(w, row, a)
    case Minus(a) =>
      if Folds(e) then LiteralValue(SqlMachine.Negate(w.env, a.v)) else SqlMachine.Negate(w.env, Eval(w, row, a))
    case Unary(f, a) => w.env.apply(f, [Eval(w, row, a)])
    case Binary(f, a, b) => w.env.apply(f, [Eval(w, row, a), Eval(w, row, b)])
    case Call(f, args) => w.env.apply(f, EvalArgs(w, row, e, |args|))
    case Compare(cmp, a, b) => FromTruth(Compare3(w.env, cmp, w.rule(a, b), Eval(w, row, a), Eval(w, row, b)))
    case And(a, b) => FromTruth(And3(IntTruth(w.env, Eval(w, row, a)), IntTruth(w.env, Eval(w, row, b))))
    case Or(a, b) => FromTruth(Or3(IntTruth(w.env, Eval(w, row, a)), IntTruth(w.env, Eval(w, row, b))))
    case Not(a) => FromTruth(Not3(IntTruth(w.env, Eval(w, row, a))))
    case IsNull(a) => FromTruth(if Eval(w, row, a).Null? then True else False)
    case NotNull(a) => FromTruth(if Eval(w, row, a).Null? then False else True)
    case Between(x, lo, hi) => FromTruth(Within(w, x, lo, hi, Eval(w, row, x), Eval(w, row, lo), Eval(w, row, hi)))
    case Case(_, _, _) => EvalArms(w, row, e, 0)
  }

  function Within(w: World, x: Expr, lo: Expr, hi: Expr, vx: Value, vlo: Value, vhi: Value): Truth {
    And3(Compare3(w.env, Ge, w.rule(x, lo), vx, vlo), Compare3(w.env, Le, w.rule(x, hi), vx, vhi))
  }

  // The first n arguments.
  function EvalArgs(w: World, row: seq<Value>, e: Expr, n: nat): (r: seq<Value>)
    requires e.Call? && n <= |e.args|
    ensures |r| == n
    decreases e, 0, n
  {
    if n == 0 then [] else EvalArgs(w, row, e, n - 1) + [Eval(w, row, e.args[n - 1])]
  }

  // The first arm from i on whose WHEN equals the base, or is true without a base; else ELSE.
  function EvalArms(w: World, row: seq<Value>, e: Expr, i: nat): Value
    requires e.Case?
    decreases e, 0, |e.arms| - i
  {
    if i < |e.arms| then
      if Picked(w, e, i, if e.base.Some? then Eval(w, row, e.base.value) else Null, Eval(w, row, e.arms[i].cond))
      then Eval(w, row, e.arms[i].result)
      else EvalArms(w, row, e, i + 1)
    else if e.otherwise.Some? then Eval(w, row, e.otherwise.value) else Null
  }

  predicate Picked(w: World, e: Expr, i: nat, vb: Value, vw: Value)
    requires e.Case? && i < |e.arms|
  {
    if e.base.Some? then Compare3(w.env, Eq, w.rule(e.base.value, e.arms[i].cond), vb, vw) == True
    else RealTruth(w.env, vw) == True
  }

  // The condition an expression stands for. AND, OR and NOT combine conditions; every other
  // value counts as true when it differs from 0.0.
  function EvalCond(w: World, row: seq<Value>, e: Expr): Truth
    decreases e
  {
    match e
    case Compare(cmp, a, b) => Compare3(w.env, cmp, w.rule(a, b), Eval(w, row, a), Eval(w, row, b))
    case And(a, b) => And3(EvalCond(w, row, a), EvalCond(w, row, b))
    case Or(a, b) => Or3(EvalCond(w, row, a), EvalCond(w, row, b))
    case Not(a) => Not3(EvalCond(w, row, a))
    case IsNull(a) => if Eval(w, row, a).Null? then True else False
    case NotNull(a) => if Eval(w, row, a).Null? then False else True
    case Between(x, lo, hi) => Within(w, x, lo, hi, Eval(w, row, x), Eval(w, row, lo), Eval(w, row, hi))
    case _ => RealTruth(w.env, Eval(w, row, e))
  }

  // ----- Where the two readings agree.

  // Integer and real reading of a value give the same truth.
  ghost predicate Crisp(w: World, v: Value) {
    IntTruth(w.env, v) == RealTruth(w.env, v)
  }

  // Every operand of AND, OR and NOT in condition position is crisp.
  ghost predicate CrispOperands(w: World, row: seq<Value>, e: Expr)
    decreases e
  {
    match e
    case And(a, b) => Crisp(w, Eval(w, row, a)) && Crisp(w, Eval(w, row, b)) && CrispOperands(w, row, a) &&
      CrispOperands(w, row, b)
    case Or(a, b) => Crisp(w, Eval(w, row, a)) && Crisp(w, Eval(w, row, b)) && CrispOperands(w, row, a) &&
      CrispOperands(w, row, b)
    case Not(a) => Crisp(w, Eval(w, row, a)) && CrispOperands(w, row, a)
    case _ => true
  }

  lemma TruthRoundTrip(env: Env, t: Truth)
    ensures IntTruth(env, FromTruth(t)) == t && RealTruth(env, FromTruth(t)) == t
  {
  }

  lemma {:induction false} ConditionIsTruthOfValue(w: World, row: seq<Value>, e: Expr)
    requires CrispOperands(w, row, e)
    ensures EvalCond(w, row, e) == RealTruth(w.env, Eval(w, row, e))
    decreases e
  {
    match e
    case And(a, b) =>
      ConditionIsTruthOfValue(w, row, a);
      ConditionIsTruthOfValue(w, row, b);
      TruthRoundTrip(w.env, EvalCond(w, row, e));
    case Or(a, b) =>
      ConditionIsTruthOfValue(w, row, a);
      ConditionIsTruthOfValue(w, row, b);
      TruthRoundTrip(w.env, EvalCond(w, row, e));
    case Not(a) =>
      ConditionIsTruthOfValue(w, row, a);
      TruthRoundTrip(w.env, EvalCond(w, row, e));
    case _ =>
      TruthRoundTrip(w.env, EvalCond(w, row, e));
  }

  // The condition that e stands for is the truth of its value.
  ghost predicate Agrees(w: World, row: seq<Value>, e: Expr) {
    EvalCond(w, row, e) == RealTruth(w.env, Eval(w, row, e))
  }

  // The integer reading of operands a and b is harmless: both are crisp, or a decisive one (false for
  // AND, true for OR) is there in either reading.
  ghost predicate Harmless(w: World, row: seq<Value>, a: Expr, b: Expr, decisive: Truth) {
    var va, vb := Eval(w, row, a), Eval(w, row, b);
    || (Crisp(w, va) && Crisp(w, vb))
    || ((RealTruth(w.env, va) == decisive || RealTruth(w.env, vb) == decisive)
        && (IntTruth(w.env, va) == decisive || IntTruth(w.env, vb) == decisive))
  }

  ghost predicate HarmlessHere(w: World, row: seq<Value>, e: Expr) {
    match e
    case And(a, b) => Harmless(w, row, a, b, False)
    case Or(a, b) => Harmless(w, row, a, b, True)
    case Not(a) => Crisp(w, Eval(w, row, a))
    case _ => true
  }

  // If the operands agree, so does the whole exactly if the integer reading of the operands is harmless.
  lemma AgreesExactly(w: World, row: seq<Value>, e: Expr)
    requires match e
      case And(a, b) => Agrees(w, row, a) && Agrees(w, row, b)
      case Or(a, b) => Agrees(w, row, a) && Agrees(w, row, b)
      case Not(a) => Agrees(w, row, a)
      case _ => true
    ensures Agrees(w, row, e) <==> HarmlessHere(w, row, e)
  {
    match e
    case And(a, b) => TruthRoundTrip(w.env, And3(IntTruth(w.env, Eval(w, row, a)), IntTruth(w.env, Eval(w, row, b))));
    case Or(a, b) => TruthRoundTrip(w.env, Or3(IntTruth(w.env, Eval(w, row, a)), IntTruth(w.env, Eval(w, row, b))));
    case Not(a) => TruthRoundTrip(w.env, Not3(IntTruth(w.env, Eval(w, row, a))));
    case _ => TruthRoundTrip(w.env, EvalCond(w, row, e));
  }

  // Every condition within e, down through AND, OR and NOT, agrees.
  ghost predicate AgreesThroughout(w: World, row: seq<Value>, e: Expr)
    decreases e
  {
    && Agrees(w, row, e)
    && match e
       case And(a, b) => AgreesThroughout(w, row, a) && AgreesThroughout(w, row, b)
       case Or(a, b) => AgreesThroughout(w, row, a) && AgreesThroughout(w, row, b)
       case Not(a) => AgreesThroughout(w, row, a)
       case _ => true
  }

  ghost predicate HarmlessThroughout(w: World, row: seq<Value>, e: Expr)
    decreases e
  {
    && HarmlessHere(w, row, e)
    && match e
       case And(a, b) => HarmlessThroughout(w, row, a) && HarmlessThroughout(w, row, b)
       case Or(a, b) => HarmlessThroughout(w, row, a) && HarmlessThroughout(w, row, b)
       case Not(a) => HarmlessThroughout(w, row, a)
       case _ => true
  }

  lemma {:induction false} AgreesThroughoutExactly(w: World, row: seq<Value>, e: Expr)
    ensures AgreesThroughout(w, row, e) <==> HarmlessThroughout(w, row, e)
    decreases e
  {
    hide HarmlessHere, Agrees;
    match e
    case And(a, b) =>
      AgreesThroughoutExactly(w, row, a);
      AgreesThroughoutExactly(w, row, b);
      if AgreesThroughout(w, row, a) && AgreesThroughout(w, row, b) { AgreesExactly(w, row, e); }
    case Or(a, b) =>
      AgreesThroughoutExactly(w, row, a);
      AgreesThroughoutExactly(w, row, b);
      if AgreesThroughout(w, row, a) && AgreesThroughout(w, row, b) { AgreesExactly(w, row, e); }
    case Not(a) =>
      AgreesThroughoutExactly(w, row, a);
      if AgreesThroughout(w, row, a) { AgreesExactly(w, row, e); }
    case _ => AgreesExactly(w, row, e);
  }

  predicate Logical(e: Expr) {
    match e
    case Compare(_, _, _) | IsNull(_) | NotNull(_) | Between(_, _, _) => true
    case And(a, b) => Logical(a) && Logical(b)
    case Or(a, b) => Logical(a) && Logical(b)
    case Not(a) => Logical(a)
    case _ => false
  }

  // Over comparisons, IS NULL tests and BETWEEN the two readings always agree.
  lemma {:induction false} LogicalIsCrisp(w: World, row: seq<Value>, e: Expr)
    requires Logical(e)
    ensures Crisp(w, Eval(w, row, e)) && CrispOperands(w, row, e)
    decreases e
  {
    match e
    case And(a, b) =>
      LogicalIsCrisp(w, row, a);
      LogicalIsCrisp(w, row, b);
    case Or(a, b) =>
      LogicalIsCrisp(w, row, a);
      LogicalIsCrisp(w, row, b);
    case Not(a) =>
      LogicalIsCrisp(w, row, a);
    case _ =>
  }

  // 0.5 AND 1: true as a condition, 0 as a value.
  lemma HalfIsTrueAndFalse(w: World, row: seq<Value>)
    ensures var e := And(Literal(Real(0.5)), Literal(Int(1)));
      EvalCond(w, row, e) == True && Eval(w, row, e) == Int(0) && RealTruth(w.env, Eval(w, row, e)) == False
  {
    assert Truncate(0.5) == 0;
    var a, b := Literal(Real(0.5)), Literal(Int(1));
    assert Eval(w, row, a) == Real(0.5) && Eval(w, row, b) == Int(1);
    assert EvalCond(w, row, a) == True && EvalCond(w, row, b) == True;
  }

  // ----- The stack depth the compiler keeps track of in CHECK constraints.

  // How much coding e as a value adds to ckOffset.
  function Change(e: Expr): (r: int)
    ensures r >= 1
    decreases e, 1, 0
  {
    match e
    case Literal(_) | Column(_, _) | CheckColumn(_) => 1
    case Plus(a) => Change(a)
    case Minus(a) => if Folds(e) then 1 else Change(a)
    case Unary(_, a) => Change(a)
    case Binary(_, a, b) => Change(a) + Change(b) - 1
    case Call(_, args) => ChangeArgs(e, |args|) + 1 - |args|
    case Compare(_, a, b) => Change(a) + Change(b) - 1
    case And(a, b) => Change(a) + Change(b) - 1
    case Or(a, b) => Change(a) + Change(b) - 1
    case Not(a) => Change(a)
    case IsNull(a) => Change(a)
    case NotNull(a) => Change(a)
    case Between(a, b, c) => Change(a) + Change(b) + Change(c) + 1
    case Case(b, arms, o) =>
      (if b.Some? then Change(b.value) else 0) + ChangeArms(e, |arms|) + (if o.Some? then Change(o.value) else 0) + 1
  }

  function ChangeArgs(e: Expr, n: nat): (r: int)
    requires e.Call? && n <= |e.args|
    ensures r >= n
    decreases e, 0, n
  {
    if n == 0 then 0 else ChangeArgs(e, n - 1) + Change(e.args[n - 1])
  }

  function ChangeArms(e: Expr, n: nat): (r: int)
    requires e.Case? && n <= |e.arms|
    ensures r >= 0
    decreases e, 0, n
  {
    if n == 0 then 0 else ChangeArms(e, n - 1) + Change(e.arms[n - 1].cond) + Change(e.arms[n - 1].result)
  }

  // ----- What the compiled code computes, whatever ckOffset says.

  // ckOffset after k more values were counted; it stays 0 while it is not in use.
  function Bump(ck: nat, k: nat): nat {
    if ck > 0 then ck + k else 0
  }

  // The value that code for e pushes when it starts on stack s while ckOffset is ck: a column of
  // the checked row is the stack element at the depth ckOffset gives.
  function EvalAt(w: World, e: Expr, s: seq<Value>, ck: nat): Value
    decreases e, 1, 0
  {
    match e
    case Literal(v) => LiteralValue(v)
    case Column(t, c) => w.env.column(t, c)
    case CheckColumn(k) => if 0 <= ck - k - 1 < |s| then s[|s| - (ck - k)] else Null
    case Plus(a) => EvalAt(w, a, s, ck)
    case Minus(a) =>
      if Folds(e) then LiteralValue(SqlMachine.Negate(w.env, a.v)) else SqlMachine.Negate(w.env, EvalAt(w, a, s, ck))
    case Unary(f, a) => w.env.apply(f, [EvalAt(w, a, s, ck)])
    case Binary(f, a, b) => w.env.apply(f, [EvalAt(w, a, s, ck), SecondAt(w, e, s, ck)])
    case Call(f, args) => w.env.apply(f, ArgsAt(w, e, |args|, s, ck))
    case Compare(cmp, a, b) => FromTruth(Compare3(w.env, cmp, w.rule(a, b), EvalAt(w, a, s, ck), SecondAt(w, e, s, ck)))
    case And(a, b) => FromTruth(And3(IntTruth(w.env, EvalAt(w, a, s, ck)), IntTruth(w.env, SecondAt(w, e, s, ck))))
    case Or(a, b) => FromTruth(Or3(IntTruth(w.env, EvalAt(w, a, s, ck)), IntTruth(w.env, SecondAt(w, e, s, ck))))
    case Not(a) => FromTruth(Not3(IntTruth(w.env, EvalAt(w, a, s, ck))))
    case IsNull(a) => FromTruth(if EvalAt(w, a, s + [Int(1)], ck).Null? then True else False)
    case NotNull(a) => FromTruth(if EvalAt(w, a, s + [Int(1)], ck).Null? then False else True)
    case Between(x, lo, hi) =>
      var vx, vlo := EvalAt(w, x, s, ck), LowAt(w, e, s, ck);
      var ge := FromTruth(Compare3(w.env, Ge, w.rule(x, lo), vx, vlo));
      FromTruth(Within(w, x, lo, hi, vx, vlo, EvalAt(w, hi, s + [ge] + [vx], Bump(Bump(ck, Change(x)), Change(lo)))))
    case Case(_, _, _) => ArmsAt(w, e, 0, s, BaseAt(w, e, s, ck), Bump(ck, BaseChange(e)))
  }

  // The second operand finds the first one on the stack.
  function SecondAt(w: World, e: Expr, s: seq<Value>, ck: nat): Value
    requires e.Binary? || e.Compare? || e.And? || e.Or?
    decreases e, 0, 0
  {
    EvalAt(w, e.right, s + [EvalAt(w, e.left, s, ck)], Bump(ck, Change(e.left)))
  }

  // The low end of BETWEEN finds the operand twice on the stack.
  function LowAt(w: World, e: Expr, s: seq<Value>, ck: nat): Value
    requires e.Between?
    decreases e, 0, 0
  {
    var vx := EvalAt(w, e.operand, s, ck);
    EvalAt(w, e.low, s + [vx] + [vx], Bump(ck, Change(e.operand)))
  }

  function ArgsAt(w: World, e: Expr, n: nat, s: seq<Value>, ck: nat): (r: seq<Value>)
    requires e.Call? && n <= |e.args|
    ensures |r| == n
    decreases e, 0, n
  {
    if n == 0 then [] else
      var before := ArgsAt(w, e, n - 1, s, ck);
      before + [EvalAt(w, e.args[n - 1], s + before, Bump(ck, ChangeArgs(e, n - 1)))]
  }

  function BaseChange(e: Expr): nat
    requires e.Case?
  {
    if e.base.Some? then Change(e.base.value) else 0
  }

  // The base of CASE as it lies on the stack, if there is one.
  function BaseAt(w: World, e: Expr, s: seq<Value>, ck: nat): (r: seq<Value>)
    requires e.Case?
    ensures |r| == if e.base.Some? then 1 else 0
    decreases e, 0, 0
  {
    if e.base.Some? then [EvalAt(w, e.base.value, s, ck)] else []
  }

  function ArmsAt(w: World, e: Expr, i: nat, s: seq<Value>, vb: seq<Value>, ck: nat): Value
    requires e.Case? && i <= |e.arms| && |vb| == if e.base.Some? then 1 else 0
    decreases e, 0, |e.arms| - i
  {
    if i < |e.arms| then
      var ck' := Bump(ck, ChangeArms(e, i));
      if Picked(w, e, i, if e.base.Some? then vb[0] else Null, EvalAt(w, e.arms[i].cond, s + vb, ck'))
      then EvalAt(w, e.arms[i].result, s, Bump(ck', Change(e.arms[i].cond)))
      else ArmsAt(w, e, i + 1, s, vb, ck)
    else if e.otherwise.Some? then EvalAt(w, e.otherwise.value, s, Bump(ck, ChangeArms(e, i))) else Null
  }

  // The condition on which jump code for e decides.
  function CondAt(w: World, e: Expr, s: seq<Value>, ck: nat): Truth
    decreases e
  {
    match e
    case Compare(cmp, a, b) => Compare3(w.env, cmp, w.rule(a, b), EvalAt(w, a, s, ck), SecondAt(w, e, s, ck))
    case And(a, b) => And3(CondAt(w, a, s, ck), CondAt(w, b, s, ck))
    case Or(a, b) => Or3(CondAt(w, a, s, ck), CondAt(w, b, s, ck))
    case Not(a) => Not3(CondAt(w, a, s, ck))
    case IsNull(a) => if EvalAt(w, a, s, ck).Null? then True else False
    case NotNull(a) => if EvalAt(w, a, s, ck).Null? then False else True
    case Between(x, lo, hi) =>
      var vx := EvalAt(w, x, s, ck);
      Within(w, x, lo, hi, vx, LowAt(w, e, s, ck), EvalAt(w, hi, s + [vx], Bump(Bump(ck, Change(x)), Change(lo))))
    case _ => RealTruth(w.env, EvalAt(w, e, s, ck))
  }

  // Where code for e reads a column of the checked row, ok holds of the column, the height of the
  // stack and ckOffset at that point. h and ck are those at the start.
  predicate Columns(e: Expr, h: nat, ck: nat, ok: (int, nat, nat) -> bool)
    decreases e, 1, 0
  {
    match e
    case Literal(_) | Column(_, _) => true
    case CheckColumn(k) => ok(k, h, ck)
    case Plus(a) => Columns(a, h, ck, ok)
    case Minus(a) => Folds(e) || Columns(a, h, ck, ok)
    case Unary(_, a) => Columns(a, h, ck, ok)
    case Binary(_, a, b) => Columns(a, h, ck, ok) && Columns(b, h + 1, Bump(ck, Change(a)), ok)
    case Call(_, args) => forall i :: 0 <= i < |args| ==> ArgColumns(e, i, h, ck, ok)
    case Compare(_, a, b) => Columns(a, h, ck, ok) && Columns(b, h + 1, Bump(ck, Change(a)), ok)
    case And(a, b) => Columns(a, h, ck, ok) && Columns(b, h + 1, Bump(ck, Change(a)), ok)
    case Or(a, b) => Columns(a, h, ck, ok) && Columns(b, h + 1, Bump(ck, Change(a)), ok)
    case Not(a) => Columns(a, h, ck, ok)
    case IsNull(a) => Columns(a, h + 1, ck, ok)
    case NotNull(a) => Columns(a, h + 1, ck, ok)
    case Between(x, lo, hi) =>
      Columns(x, h, ck, ok) && Columns(lo, h + 2, Bump(ck, Change(x)), ok) &&
        Columns(hi, h + 2, Bump(Bump(ck, Change(x)), Change(lo)), ok)
    case Case(b, arms, o) =>
      && (b.Some? ==> Columns(b.value, h, ck, ok))
      && (forall i :: 0 <= i < |arms| ==> ArmColumns(e, i, h, Bump(Bump(ck, BaseChange(e)), ChangeArms(e, i)), ok))
      && (o.Some? ==> Columns(o.value, h, Bump(Bump(ck, BaseChange(e)), ChangeArms(e, |arms|)), ok))
  }

  predicate ArgColumns(e: Expr, i: nat, h: nat, ck: nat, ok: (int, nat, nat) -> bool)
    requires e.Call? && i < |e.args|
    decreases e, 0, 0
  {
    Columns(e.args[i], h + i, Bump(ck, ChangeArgs(e, i)), ok)
  }

  predicate ArmColumns(e: Expr, i: nat, h: nat, ck: nat, ok: (int, nat, nat) -> bool)
    requires e.Case? && i < |e.arms|
    decreases e, 0, 0
  {
    && Columns(e.arms[i].cond, if e.base.Some? then h + 1 else h, ck, ok)
    && Columns(e.arms[i].result, h, Bump(ck, Change(e.arms[i].cond)), ok)
  }

  predicate ColumnsCond(e: Expr, h: nat, ck: nat, ok: (int, nat, nat) -> bool)
    decreases e
  {
    match e
    case And(a, b) => ColumnsCond(a, h, ck, ok) && ColumnsCond(b, h, ck, ok)
    case Or(a, b) => ColumnsCond(a, h, ck, ok) && ColumnsCond(b, h, ck, ok)
    case Not(a) => ColumnsCond(a, h, ck, ok)
    case IsNull(a) => Columns(a, h, ck, ok)
    case NotNull(a) => Columns(a, h, ck, ok)
    case Between(x, lo, hi) =>
      Columns(x, h, ck, ok) && Columns(lo, h + 2, Bump(ck, Change(x)), ok) &&
        Columns(hi, h + 1, Bump(Bump(ck, Change(x)), Change(lo)), ok)
    case _ => Columns(e, h, ck, ok)
  }

  // The depth computed from ckOffset exists on the stack.
  predicate InStack(k: int, h: nat, ck: nat) {
    ck > 0 && 0 <= ck - k - 1 < h
  }

  // ckOffset is the true distance from the top of the stack to column 0, which lies at index r;
  // the row has n columns.
  function Aligned(r: int, n: int): (int, nat, nat) -> bool {
    (k, h, ck) => ck > 0 && h - ck == r && -1 <= k < n
  }

  // The checked row lies on the stack: its rowid, then column 0 at index r, and so on.
  ghost predicate OnRow(s: seq<Value>, row: seq<Value>, r: int) {
    && |row| > 0 && 1 <= r && r + |row| - 1 <= |s|
    && forall i :: 0 <= i < |row| ==> s[r - 1 + i] == row[i]
  }

  lemma RowStays(s: seq<Value>, t: seq<Value>, row: seq<Value>, r: int)
    requires OnRow(s, row, r)
    ensures OnRow(s + t, row, r)
  {
  }

  // While ckOffset is the true depth wherever a column is read, compiled code computes the value.
  lemma {:induction false} AlignedValue(w: World, e: Expr, s: seq<Value>, ck: nat, row: seq<Value>, r: int)
    requires Columns(e, |s|, ck, Aligned(r, |row| - 1)) && OnRow(s, row, r)
    ensures Columns(e, |s|, ck, InStack) && EvalAt(w, e, s, ck) == Eval(w, row, e)
    decreases e, 1, 0
  {
    match e
    case Literal(_) =>
    case Column(_, _) =>
    case CheckColumn(k) =>
      assert s[r - 1 + (k + 1)] == row[k + 1];
    case Plus(a) => AlignedValue(w, a, s, ck, row, r);
    case Minus(a) => if !Folds(e) { AlignedValue(w, a, s, ck, row, r); }
    case Unary(_, a) => AlignedValue(w, a, s, ck, row, r);
    case Not(a) => AlignedValue(w, a, s, ck, row, r);
    case Binary(_, _, _) => AlignedOperands(w, e, s, ck, row, r);
    case Compare(_, _, _) => AlignedOperands(w, e, s, ck, row, r);
    case And(_, _) => AlignedOperands(w, e, s, ck, row, r);
    case Or(_, _) => AlignedOperands(w, e, s, ck, row, r);
    case IsNull(a) => AlignedValue(w, a, s + [Int(1)], ck, row, r);
    case NotNull(a) => AlignedValue(w, a, s + [Int(1)], ck, row, r);
    case Between(x, lo, hi) =>
      AlignedLow(w, e, s, ck, row, r);
      var ge := FromTruth(Compare3(w.env, Ge, w.rule(x, lo), EvalAt(w, x, s, ck), LowAt(w, e, s, ck)));
      AlignedValue(w, hi, s + [ge] + [EvalAt(w, x, s, ck)], Bump(Bump(ck, Change(x)), Change(lo)), row, r);
    case Call(_, args) => AlignedArgs(w, e, |args|, s, ck, row, r, Aligned(r, |row| - 1));
    case Case(b, arms, o) =>
      if b.Some? { AlignedValue(w, b.value, s, ck, row, r); }
      AlignedArms(w, e, 0, s, BaseAt(w, e, s, ck), Bump(ck, BaseChange(e)), row, r);
  }

  lemma {:induction false} AlignedOperands(w: World, e: Expr, s: seq<Value>, ck: nat, row: seq<Value>, r: int)
    requires (e.Binary? || e.Compare? || e.And? || e.Or?) && OnRow(s, row, r)
    requires Columns(e.left, |s|, ck, Aligned(r, |row| - 1))
    requires Columns(e.right, |s| + 1, Bump(ck, Change(e.left)), Aligned(r, |row| - 1))
    ensures Columns(e.left, |s|, ck, InStack) && Columns(e.right, |s| + 1, Bump(ck, Change(e.left)), InStack)
    ensures EvalAt(w, e.left, s, ck) == Eval(w, row, e.left) && SecondAt(w, e, s, ck) == Eval(w, row, e.right)
    decreases e, 0, 0
  {
    AlignedValue(w, e.left, s, ck, row, r);
    AlignedValue(w, e.right, s + [EvalAt(w, e.left, s, ck)], Bump(ck, Change(e.left)), row, r);
  }

  lemma {:induction false} AlignedLow(w: World, e: Expr, s: seq<Value>, ck: nat, row: seq<Value>, r: int)
    requires e.Between? && OnRow(s, row, r)
    requires Columns(e.operand, |s|, ck, Aligned(r, |row| - 1))
    requires Columns(e.low, |s| + 2, Bump(ck, Change(e.operand)), Aligned(r, |row| - 1))
    ensures Columns(e.operand, |s|, ck, InStack) && Columns(e.low, |s| + 2, Bump(ck, Change(e.operand)), InStack)
    ensures EvalAt(w, e.operand, s, ck) == Eval(w, row, e.operand) && LowAt(w, e, s, ck) == Eval(w, row, e.low)
    decreases e, 0, 0
  {
    AlignedValue(w, e.operand, s, ck, row, r);
    var vx := EvalAt(w, e.operand, s, ck);
    AlignedValue(w, e.low, s + [vx] + [vx], Bump(ck, Change(e.operand)), row, r);
  }

  lemma {:induction false} AlignedArgs(w: World, e: Expr, n: nat, s: seq<Value>, ck: nat, row: seq<Value>, r: int,
      ok: (int, nat, nat) -> bool)
    requires e.Call? && n <= |e.args| && OnRow(s, row, r) && ok == Aligned(r, |row| - 1)
    requires forall i :: 0 <= i < n ==> ArgColumns(e, i, |s|, ck, ok)
    ensures forall i :: 0 <= i < n ==> ArgColumns(e, i, |s|, ck, InStack)
    ensures ArgsAt(w, e, n, s, ck) == EvalArgs(w, row, e, n)
    decreases e, 0, n
  {
    hide OnRow, Columns, Eval, EvalAt, ChangeArgs;
    if n > 0 {
      AlignedArgs(w, e, n - 1, s, ck, row, r, ok);
      RowStays(s, ArgsAt(w, e, n - 1, s, ck), row, r);
      assert ArgColumns(e, n - 1, |s|, ck, ok);
      AlignedValue(w, e.args[n - 1], s + ArgsAt(w, e, n - 1, s, ck), Bump(ck, ChangeArgs(e, n - 1)), row, r);
    }
  }

  lemma {:induction false} AlignedArms(w: World, e: Expr, i: nat, s: seq<Value>, vb: seq<Value>, ck: nat,
      row: seq<Value>, r: int)
    requires e.Case? && i <= |e.arms| && OnRow(s, row, r)
    requires vb == if e.base.Some? then [Eval(w, row, e.base.value)] else []
    requires forall j :: i <= j < |e.arms| ==> ArmColumns(e, j, |s|, Bump(ck, ChangeArms(e, j)), Aligned(r, |row| - 1))
    requires e.otherwise.Some? ==>
      Columns(e.otherwise.value, |s|, Bump(ck, ChangeArms(e, |e.arms|)), Aligned(r, |row| - 1))
    ensures forall j :: i <= j < |e.arms| ==> ArmColumns(e, j, |s|, Bump(ck, ChangeArms(e, j)), InStack)
    ensures e.otherwise.Some? ==> Columns(e.otherwise.value, |s|, Bump(ck, ChangeArms(e, |e.arms|)), InStack)
    ensures ArmsAt(w, e, i, s, vb, ck) == EvalArms(w, row, e, i)
    decreases e, 0, |e.arms| - i
  {
    if i < |e.arms| {
      var ck' := Bump(ck, ChangeArms(e, i));
      assert ArmColumns(e, i, |s|, ck', Aligned(r, |row| - 1));
      AlignedValue(w, e.arms[i].cond, s + vb, ck', row, r);
      AlignedValue(w, e.arms[i].result, s, Bump(ck', Change(e.arms[i].cond)), row, r);
      AlignedArms(w, e, i + 1, s, vb, ck, row, r);
    } else if e.otherwise.Some? {
      AlignedValue(w, e.otherwise.value, s, Bump(ck, ChangeArms(e, i)), row, r);
    }
  }

  lemma {:induction false} AlignedCondition(w: World, e: Expr, s: seq<Value>, ck: nat, row: seq<Value>, r: int)
    requires ColumnsCond(e, |s|, ck, Aligned(r, |row| - 1)) && OnRow(s, row, r)
    ensures ColumnsCond(e, |s|, ck, InStack) && CondAt(w, e, s, ck) == EvalCond(w, row, e)
    decreases e
  {
    hide OnRow, Eval, EvalAt;
    match e
    case And(a, b) =>
      AlignedCondition(w, a, s, ck, row, r);
      AlignedCondition(w, b, s, ck, row, r);
    case Or(a, b) =>
      AlignedCondition(w, a, s, ck, row, r);
      AlignedCondition(w, b, s, ck, row, r);
    case Not(a) => AlignedCondition(w, a, s, ck, row, r);
    case Compare(_, _, _) => AlignedOperands(w, e, s, ck, row, r);
    case IsNull(a) => AlignedValue(w, a, s, ck, row, r);
    case NotNull(a) => AlignedValue(w, a, s, ck, row, r);
    case Between(x, lo, hi) =>
      AlignedLow(w, e, s, ck, row, r);
      RowStays(s, [EvalAt(w, x, s, ck)], row, r);
      AlignedValue(w, hi, s + [EvalAt(w, x, s, ck)], Bump(Bump(ck, Change(x)), Change(lo)), row, r);
    case _ => AlignedValue(w, e, s, ck, row, r);
  }

  // ----- Expressions that read no column of a checked row.

  predicate Free(e: Expr)
    decreases e, 1, 0
  {
    match e
    case Literal(_) | Column(_, _) => true
    case CheckColumn(_) => false
    case Plus(a) => Free(a)
    case Minus(a) => Free(a)
    case Unary(_, a) => Free(a)
    case Not(a) => Free(a)
    case IsNull(a) => Free(a)
    case NotNull(a) => Free(a)
    case Binary(_, a, b) => Free(a) && Free(b)
    case Compare(_, a, b) => Free(a) && Free(b)
    case And(a, b) => Free(a) && Free(b)
    case Or(a, b) => Free(a) && Free(b)
    case Between(x, lo, hi) => Free(x) && Free(lo) && Free(hi)
    case Call(_, args) => forall i :: 0 <= i < |args| ==> Free(args[i])
    case Case(b, arms, o) =>
      && (b.Some? ==> Free(b.value)) && (o.Some? ==> Free(o.value))
      && forall i :: 0 <= i < |arms| ==> Free(arms[i].cond) && Free(arms[i].result)
  }

  // Their value does not depend on the stack or on ckOffset.
  lemma {:induction false} FreeValue(w: World, e: Expr, s: seq<Value>, ck: nat, row: seq<Value>)
    requires Free(e)
    ensures EvalAt(w, e, s, ck) == Eval(w, row, e)
    decreases e, 1, 0
  {
    match e
    case Literal(_) | Column(_, _) =>
    case Plus(a) => FreeValue(w, a, s, ck, row);
    case Minus(a) => if !Folds(e) { FreeValue(w, a, s, ck, row); }
    case Unary(_, a) => FreeValue(w, a, s, ck, row);
    case Not(a) => FreeValue(w, a, s, ck, row);
    case IsNull(a) => FreeValue(w, a, s + [Int(1)], ck, row);
    case NotNull(a) => FreeValue(w, a, s + [Int(1)], ck, row);
    case Binary(_, _, _) => FreeOperands(w, e, s, ck, row);
    case Compare(_, _, _) => FreeOperands(w, e, s, ck, row);
    case And(_, _) => FreeOperands(w, e, s, ck, row);
    case Or(_, _) => FreeOperands(w, e, s, ck, row);
    case Between(x, lo, hi) =>
      FreeLow(w, e, s, ck, row);
      var ge := FromTruth(Compare3(w.env, Ge, w.rule(x, lo), EvalAt(w, x, s, ck), LowAt(w, e, s, ck)));
      FreeValue(w, hi, s + [ge] + [EvalAt(w, x, s, ck)], Bump(Bump(ck, Change(x)), Change(lo)), row);
    case Call(_, args) => FreeArgs(w, e, |args|, s, ck, row);
    case Case(b, arms, o) =>
      if b.Some? { FreeValue(w, b.value, s, ck, row); }
      FreeArms(w, e, 0, s, BaseAt(w, e, s, ck), Bump(ck, BaseChange(e)), row);
  }

  lemma {:induction false} FreeOperands(w: World, e: Expr, s: seq<Value>, ck: nat, row: seq<Value>)
    requires (e.Binary? || e.Compare? || e.And? || e.Or?) && Free(e.left) && Free(e.right)
    ensures EvalAt(w, e.left, s, ck) == Eval(w, row, e.left) && SecondAt(w, e, s, ck) == Eval(w, row, e.right)
    decreases e, 0, 0
  {
    FreeValue(w, e.left, s, ck, row);
    FreeValue(w, e.right, s + [EvalAt(w, e.left, s, ck)], Bump(ck, Change(e.left)), row);
  }

  lemma {:induction false} FreeLow(w: World, e: Expr, s: seq<Value>, ck: nat, row: seq<Value>)
    requires e.Between? && Free(e.operand) && Free(e.low)
    ensures EvalAt(w, e.operand, s, ck) == Eval(w, row, e.operand) && LowAt(w, e, s, ck) == Eval(w, row, e.low)
    decreases e, 0, 0
  {
    FreeValue(w, e.operand, s, ck, row);
    var vx := EvalAt(w, e.operand, s, ck);
    FreeValue(w, e.low, s + [vx] + [vx], Bump(ck, Change(e.operand)), row);
  }

  lemma {:induction false} FreeArgs(w: World, e: Expr, n: nat, s: seq<Value>, ck: nat, row: seq<Value>)
    requires e.Call? && n <= |e.args| && forall i :: 0 <= i < |e.args| ==> Free(e.args[i])
    ensures ArgsAt(w, e, n, s, ck) == EvalArgs(w, row, e, n)
    decreases e, 0, n
  {
    hide Eval, EvalAt, ChangeArgs, Free;
    if n > 0 {
      FreeArgs(w, e, n - 1, s, ck, row);
      FreeValue(w, e.args[n - 1], s + ArgsAt(w, e, n - 1, s, ck), Bump(ck, ChangeArgs(e, n - 1)), row);
    }
  }

  lemma {:induction false} FreeArms(w: World, e: Expr, i: nat, s: seq<Value>, vb: seq<Value>, ck: nat, row: seq<Value>)
    requires e.Case? && i <= |e.arms| && vb == if e.base.Some? then [Eval(w, row, e.base.value)] else []
    requires forall j :: 0 <= j < |e.arms| ==> Free(e.arms[j].cond) && Free(e.arms[j].result)
    requires e.otherwise.Some? ==> Free(e.otherwise.value)
    ensures ArmsAt(w, e, i, s, vb, ck) == EvalArms(w, row, e, i)
    decreases e, 0, |e.arms| - i
  {
    if i < |e.arms| {
      var ck' := Bump(ck, ChangeArms(e, i));
      FreeValue(w, e.arms[i].cond, s + vb, ck', row);
      FreeValue(w, e.arms[i].result, s, Bump(ck', Change(e.arms[i].cond)), row);
      FreeArms(w, e, i + 1, s, vb, ck, row);
    } else if e.otherwise.Some? {
      FreeValue(w, e.otherwise.value, s, Bump(ck, ChangeArms(e, i)), row);
    }
  }

  lemma {:induction false} FreeColumns(e: Expr, h: nat, ck: nat, ok: (int, nat, nat) -> bool)
    requires Free(e)
    ensures Columns(e, h, ck, ok)
    decreases e
  {
    match e
    case Literal(_) | Column(_, _) =>
    case Plus(a) => FreeColumns(a, h, ck, ok);
    case Minus(a) => FreeColumns(a, h, ck, ok);
    case Unary(_, a) => FreeColumns(a, h, ck, ok);
    case Not(a) => FreeColumns(a, h, ck, ok);
    case IsNull(a) => FreeColumns(a, h + 1, ck, ok);
    case NotNull(a) => FreeColumns(a, h + 1, ck, ok);
    case Binary(_, a, b) => FreeColumns(a, h, ck, ok); FreeColumns(b, h + 1, Bump(ck, Change(a)), ok);
    case Compare(_, a, b) => FreeColumns(a, h, ck, ok); FreeColumns(b, h + 1, Bump(ck, Change(a)), ok);
    case And(a, b) => FreeColumns(a, h, ck, ok); FreeColumns(b, h + 1, Bump(ck, Change(a)), ok);
    case Or(a, b) => FreeColumns(a, h, ck, ok); FreeColumns(b, h + 1, Bump(ck, Change(a)), ok);
    case Between(x, lo, hi) =>
      FreeColumns(x, h, ck, ok);
      FreeColumns(lo, h + 2, Bump(ck, Change(x)), ok);
      FreeColumns(hi, h + 2, Bump(Bump(ck, Change(x)), Change(lo)), ok);
    case Call(_, args) =>
      forall i | 0 <= i < |args| ensures ArgColumns(e, i, h, ck, ok) {
        FreeColumns(args[i], h + i, Bump(ck, ChangeArgs(e, i)), ok);
      }
    case Case(b, arms, o) =>
      var ck0 := Bump(ck, BaseChange(e));
      if b.Some? { FreeColumns(b.value, h, ck, ok); }
      forall i | 0 <= i < |arms| ensures ArmColumns(e, i, h, Bump(ck0, ChangeArms(e, i)), ok) {
        FreeColumns(arms[i].cond, if b.Some? then h + 1 else h, Bump(ck0, ChangeArms(e, i)), ok);
        FreeColumns(arms[i].result, h, Bump(Bump(ck0, ChangeArms(e, i)), Change(arms[i].cond)), ok);
      }
      if o.Some? { FreeColumns(o.value, h, Bump(ck0, ChangeArms(e, |arms|)), ok); }
  }

  // Such a condition decides by its meaning, on any stack, an empty one included.
  lemma {:induction false} FreeCondition(w: World, e: Expr, s: seq<Value>, ck: nat, row: seq<Value>,
      ok: (int, nat, nat) -> bool)
    requires Free(e)
    ensures ColumnsCond(e, |s|, ck, ok) && CondAt(w, e, s, ck) == EvalCond(w, row, e)
    decreases e
  {
    hide Eval, EvalAt, Columns;
    match e
    case And(a, b) =>
      FreeCondition(w, a, s, ck, row, ok);
      FreeCondition(w, b, s, ck, row, ok);
    case Or(a, b) =>
      FreeCondition(w, a, s, ck, row, ok);
      FreeCondition(w, b, s, ck, row, ok);
    case Not(a) => FreeCondition(w, a, s, ck, row, ok);
    case Compare(_, _, _) =>
      FreeColumns(e, |s|, ck, ok);
      FreeOperands(w, e, s, ck, row);
    case IsNull(a) =>
      FreeValue(w, a, s, ck, row);
      FreeColumns(a, |s|, ck, ok);
    case NotNull(a) =>
      FreeValue(w, a, s, ck, row);
      FreeColumns(a, |s|, ck, ok);
    case Between(x, lo, hi) =>
      FreeLow(w, e, s, ck, row);
      var ck' := Bump(Bump(ck, Change(x)), Change(lo));
      FreeValue(w, hi, s + [EvalAt(w, x, s, ck)], ck', row);
      FreeColumns(x, |s|, ck, ok);
      FreeColumns(lo, |s| + 2, Bump(ck, Change(x)), ok);
      FreeColumns(hi, |s| + 1, ck', ok);
    case _ => FreePlain(w, e, s, ck, row, ok);
  }

  lemma FreePlain(w: World, e: Expr, s: seq<Value>, ck: nat, row: seq<Value>, ok: (int, nat, nat) -> bool)
    requires Free(e)
    ensures Columns(e, |s|, ck, ok) && EvalAt(w, e, s, ck) == Eval(w, row, e)
  {
    hide *;
    FreeValue(w, e, s, ck, row);
    FreeColumns(e, |s|, ck, ok);
  }

  // ----- When ckOffset can be relied on, and when not.

  // Built only from constructs whose code ckOffset counts correctly; columns exist.
  predicate Countable(e: Expr, n: int) {
    match e
    case Literal(_) | Column(_, _) => true
    case CheckColumn(k) => -1 <= k < n
    case Plus(a) => Countable(a, n)
    case Minus(a) => Countable(a, n)
    case Unary(_, a) => Countable(a, n)
    case Not(a) => Countable(a, n)
    case Binary(_, a, b) => Countable(a, n) && Countable(b, n)
    case Compare(_, a, b) => Countable(a, n) && Countable(b, n)
    case And(a, b) => Countable(a, n) && Countable(b, n)
    case Or(a, b) => Countable(a, n) && Countable(b, n)
    case Call(_, args) => forall i :: 0 <= i < |args| ==> Countable(args[i], n)
    case _ => false
  }

  lemma {:induction false} CountableIsAligned(e: Expr, n: int, h: nat, ck: nat)
    requires Countable(e, n) && ck > 0
    ensures Change(e) == 1 && Columns(e, h, ck, Aligned(h - ck, n))
    decreases e, 1, 0
  {
    match e
    case Literal(_) | Column(_, _) | CheckColumn(_) =>
    case Plus(a) => CountableIsAligned(a, n, h, ck);
    case Minus(a) => CountableIsAligned(a, n, h, ck);
    case Unary(_, a) => CountableIsAligned(a, n, h, ck);
    case Not(a) => CountableIsAligned(a, n, h, ck);
    case Binary(_, a, b) => CountableIsAligned(a, n, h, ck); CountableIsAligned(b, n, h + 1, ck + 1);
    case Compare(_, a, b) => CountableIsAligned(a, n, h, ck); CountableIsAligned(b, n, h + 1, ck + 1);
    case And(a, b) => CountableIsAligned(a, n, h, ck); CountableIsAligned(b, n, h + 1, ck + 1);
    case Or(a, b) => CountableIsAligned(a, n, h, ck); CountableIsAligned(b, n, h + 1, ck + 1);
    case Call(_, args) =>
      var ok := Aligned(h - ck, n);
      CountableArgs(e, n, |args|, h, ck, ok);
      assert Columns(e, h, ck, ok);
  }

  lemma {:induction false} CountableArgs(e: Expr, n: int, i: nat, h: nat, ck: nat, ok: (int, nat, nat) -> bool)
    requires e.Call? && i <= |e.args| && Countable(e, n) && ck > 0 && ok == Aligned(h - ck, n)
    ensures ChangeArgs(e, i) == i
    ensures forall j :: 0 <= j < i ==> ArgColumns(e, j, h, ck, ok)
    decreases e, 0, i
  {
    if i > 0 {
      CountableArgs(e, n, i - 1, h, ck, ok);
      CountableIsAligned(e.args[i - 1], n, h + (i - 1), ck + (i - 1));
    }
  }

  lemma {:induction false} ColumnFree(e: Expr)
    requires Countable(e, -1)
    ensures Free(e)
    decreases e
  {
    match e
    case Literal(_) | Column(_, _) =>
    case Plus(a) => ColumnFree(a);
    case Minus(a) => ColumnFree(a);
    case Unary(_, a) => ColumnFree(a);
    case Not(a) => ColumnFree(a);
    case Binary(_, a, b) => ColumnFree(a); ColumnFree(b);
    case Compare(_, a, b) => ColumnFree(a); ColumnFree(b);
    case And(a, b) => ColumnFree(a); ColumnFree(b);
    case Or(a, b) => ColumnFree(a); ColumnFree(b);
    case Call(_, args) => forall i | 0 <= i < |args| ensures Free(args[i]) { ColumnFree(args[i]); }
  }

  // Conditions whose code reads every column where it lies.
  predicate CountableCond(e: Expr, n: int) {
    match e
    case And(a, b) => CountableCond(a, n) && CountableCond(b, n)
    case Or(a, b) => CountableCond(a, n) && CountableCond(b, n)
    case Not(a) => CountableCond(a, n)
    case IsNull(a) => Countable(a, n)
    case NotNull(a) => Countable(a, n)
    case Between(x, lo, hi) => Countable(x, n) && Countable(lo, -1) && Countable(hi, -1)
    case _ => Countable(e, n)
  }

  lemma {:induction false} CountableCondition(e: Expr, n: int, h: nat, ck: nat)
    requires CountableCond(e, n) && ck > 0
    ensures ColumnsCond(e, h, ck, Aligned(h - ck, n))
    decreases e
  {
    match e
    case And(a, b) => CountableCondition(a, n, h, ck); CountableCondition(b, n, h, ck);
    case Or(a, b) => CountableCondition(a, n, h, ck); CountableCondition(b, n, h, ck);
    case Not(a) => CountableCondition(a, n, h, ck);
    case IsNull(a) => CountableIsAligned(a, n, h, ck);
    case NotNull(a) => CountableIsAligned(a, n, h, ck);
    case Between(x, lo, hi) =>
      CountableIsAligned(x, n, h, ck);
      ColumnFree(lo);
      ColumnFree(hi);
      FreeColumns(lo, h + 2, Bump(ck, Change(x)), Aligned(h - ck, n));
      FreeColumns(hi, h + 1, Bump(Bump(ck, Change(x)), Change(lo)), Aligned(h - ck, n));
    case _ => CountableIsAligned(e, n, h, ck);
  }

  // Where ckOffset is off by d, column k + d is read in place of column k.
  lemma DriftedColumn(w: World, k: int, s: seq<Value>, ck: nat, row: seq<Value>, r: int)
    requires OnRow(s, row, r) && 0 <= k + 1 < |row| && ck > 0
    ensures var d := |s| - ck - r;
      0 <= k + 1 + d < |row| ==> InStack(k, |s|, ck) && EvalAt(w, CheckColumn(k), s, ck) == row[k + 1 + d]
  {
    var d := |s| - ck - r;
    if 0 <= k + 1 + d < |row| {
      assert s[r - 1 + (k + 1 + d)] == row[k + 1 + d];
    }
  }

  // A column is read right, whatever is in the row, exactly where ckOffset is not off.
  lemma DriftExactly(w: World, k: int, h: nat, ck: nat, r: int, n: nat)
    requires ck > 0 && -1 <= k < n && 1 <= r && r + n <= h
    ensures (forall s, row :: |s| == h && |row| == n + 1 && OnRow(s, row, r) ==>
      EvalAt(w, CheckColumn(k), s, ck) == row[k + 1])
      <==> h - ck == r
  {
    if h - ck == r {
      forall s, row | |s| == h && |row| == n + 1 && OnRow(s, row, r)
        ensures EvalAt(w, CheckColumn(k), s, ck) == row[k + 1] {
        DriftedColumn(w, k, s, ck, row, r);
      }
    } else {
      var s := seq(h, i requires 0 <= i < h => Int(i));
      var row := s[r - 1..r + n];
      assert |s| == h && |row| == n + 1 && OnRow(s, row, r);
      assert row[k + 1] == s[r + k] == Int(r + k);
    }
  }

  // ----- Exactly which expressions are coded so that every column is read where it lies.

  // d: by how much ckOffset is off where the code of e starts.
  predicate Straight(e: Expr, n: int, d: int)
    decreases e, 1, 0
  {
    match e
    case Literal(_) | Column(_, _) => true
    case CheckColumn(k) => d == 0 && -1 <= k < n
    case Plus(a) => Straight(a, n, d)
    case Minus(a) => Folds(e) || Straight(a, n, d)
    case Unary(_, a) => Straight(a, n, d)
    case Not(a) => Straight(a, n, d)
    case Binary(_, a, b) => Straight(a, n, d) && Straight(b, n, d + 1 - Change(a))
    case Compare(_, a, b) => Straight(a, n, d) && Straight(b, n, d + 1 - Change(a))
    case And(a, b) => Straight(a, n, d) && Straight(b, n, d + 1 - Change(a))
    case Or(a, b) => Straight(a, n, d) && Straight(b, n, d + 1 - Change(a))
    case IsNull(a) => Straight(a, n, d + 1)
    case NotNull(a) => Straight(a, n, d + 1)
    case Between(x, lo, hi) =>
      Straight(x, n, d) && Straight(lo, n, d + 2 - Change(x)) && Straight(hi, n, d + 2 - Change(x) - Change(lo))
    case Call(_, args) => forall i :: 0 <= i < |args| ==> ArgStraight(e, i, n, d)
    case Case(b, arms, o) =>
      && (b.Some? ==> Straight(b.value, n, d))
      && (forall i :: 0 <= i < |arms| ==> ArmStraight(e, i, n, d - BaseChange(e) - ChangeArms(e, i)))
      && (o.Some? ==> Straight(o.value, n, d - BaseChange(e) - ChangeArms(e, |arms|)))
  }

  predicate ArgStraight(e: Expr, i: nat, n: int, d: int)
    requires e.Call? && i < |e.args|
    decreases e, 0, 0
  {
    Straight(e.args[i], n, d + i - ChangeArgs(e, i))
  }

  predicate ArmStraight(e: Expr, i: nat, n: int, d: int)
    requires e.Case? && i < |e.arms|
    decreases e, 0, 0
  {
    && Straight(e.arms[i].cond, n, if e.base.Some? then d + 1 else d)
    && Straight(e.arms[i].result, n, d - Change(e.arms[i].cond))
  }

  // The same for conditions; BETWEEN bounds and what follows a longer operand are where it goes wrong.
  predicate StraightCond(e: Expr, n: int, d: int)
    decreases e
  {
    match e
    case And(a, b) => StraightCond(a, n, d) && StraightCond(b, n, d)
    case Or(a, b) => StraightCond(a, n, d) && StraightCond(b, n, d)
    case Not(a) => StraightCond(a, n, d)
    case IsNull(a) => Straight(a, n, d)
    case NotNull(a) => Straight(a, n, d)
    case Between(x, lo, hi) =>
      Straight(x, n, d) && Straight(lo, n, d + 2 - Change(x)) && Straight(hi, n, d + 1 - Change(x) - Change(lo))
    case _ => Straight(e, n, d)
  }

  lemma {:induction false} StraightExactly(e: Expr, n: int, h: nat, ck: nat, r: int)
    requires ck > 0
    ensures Columns(e, h, ck, Aligned(r, n)) <==> Straight(e, n, h - ck - r)
    decreases e, 1, 0
  {
    match e
    case Literal(_) | Column(_, _) | CheckColumn(_) =>
    case Plus(a) => StraightExactly(a, n, h, ck, r);
    case Minus(a) => StraightExactly(a, n, h, ck, r);
    case Unary(_, a) => StraightExactly(a, n, h, ck, r);
    case Not(a) => StraightExactly(a, n, h, ck, r);
    case Binary(_, _, _) => StraightOperands(e, n, h, ck, r);
    case Compare(_, _, _) => StraightOperands(e, n, h, ck, r);
    case And(_, _) => StraightOperands(e, n, h, ck, r);
    case Or(_, _) => StraightOperands(e, n, h, ck, r);
    case IsNull(a) => StraightExactly(a, n, h + 1, ck, r);
    case NotNull(a) => StraightExactly(a, n, h + 1, ck, r);
    case Between(_, _, _) => StraightBetween(e, n, h, ck, r);
    case Call(_, args) =>
      StraightArgs(e, n, h, ck, r, Aligned(r, n), h - ck - r);
    case Case(b, arms, o) =>
      if b.Some? { StraightExactly(b.value, n, h, ck, r); }
      StraightArms(e, n, h, ck + BaseChange(e), r, Aligned(r, n));
      if o.Some? { StraightExactly(o.value, n, h, ck + BaseChange(e) + ChangeArms(e, |arms|), r); }
  }

  lemma {:induction false} StraightOperands(e: Expr, n: int, h: nat, ck: nat, r: int)
    requires ck > 0 && (e.Binary? || e.Compare? || e.And? || e.Or?)
    ensures Columns(e, h, ck, Aligned(r, n)) <==> Straight(e, n, h - ck - r)
    decreases e, 0, 0
  {
    StraightExactly(e.left, n, h, ck, r);
    StraightExactly(e.right, n, h + 1, ck + Change(e.left), r);
  }

  lemma {:induction false} StraightBetween(e: Expr, n: int, h: nat, ck: nat, r: int)
    requires ck > 0 && e.Between?
    ensures Columns(e, h, ck, Aligned(r, n)) <==> Straight(e, n, h - ck - r)
    decreases e, 0, 0
  {
    var ck1 := ck + Change(e.operand);
    StraightExactly(e.operand, n, h, ck, r);
    StraightExactly(e.low, n, h + 2, ck1, r);
    StraightExactly(e.high, n, h + 2, ck1 + Change(e.low), r);
  }

  lemma {:induction false} StraightArgs(e: Expr, n: int, h: nat, ck: nat, r: int, ok: (int, nat, nat) -> bool, d: int)
    requires e.Call? && ck > 0 && ok == Aligned(r, n) && d == h - ck - r
    ensures Columns(e, h, ck, ok) <==> Straight(e, n, d)
    decreases e, 0, 0
  {
    forall i | 0 <= i < |e.args| ensures ArgColumns(e, i, h, ck, ok) <==> ArgStraight(e, i, n, d) {
      StraightExactly(e.args[i], n, h + i, ck + ChangeArgs(e, i), r);
    }
  }

  lemma {:induction false} StraightArms(e: Expr, n: int, h: nat, ck: nat, r: int, ok: (int, nat, nat) -> bool)
    requires e.Case? && ck > 0 && ok == Aligned(r, n)
    ensures forall i :: 0 <= i < |e.arms| ==>
      (ArmColumns(e, i, h, Bump(ck, ChangeArms(e, i)), ok) <==> ArmStraight(e, i, n, h - ck - r - ChangeArms(e, i)))
    decreases e, 0, 0
  {
    forall i | 0 <= i < |e.arms|
      ensures ArmColumns(e, i, h, Bump(ck, ChangeArms(e, i)), ok) <==>
        ArmStraight(e, i, n, h - ck - r - ChangeArms(e, i))
    {
      var ck' := ck + ChangeArms(e, i);
      StraightExactly(e.arms[i].cond, n, if e.base.Some? then h + 1 else h, ck', r);
      StraightExactly(e.arms[i].result, n, h, ck' + Change(e.arms[i].cond), r);
    }
  }

  lemma {:induction false} StraightCondExactly(e: Expr, n: int, h: nat, ck: nat, r: int)
    requires ck > 0
    ensures ColumnsCond(e, h, ck, Aligned(r, n)) <==> StraightCond(e, n, h - ck - r)
    decreases e
  {
    hide Columns, Straight, Aligned;
    match e
    case And(a, b) => StraightCondExactly(a, n, h, ck, r); StraightCondExactly(b, n, h, ck, r);
    case Or(a, b) => StraightCondExactly(a, n, h, ck, r); StraightCondExactly(b, n, h, ck, r);
    case Not(a) => StraightCondExactly(a, n, h, ck, r);
    case IsNull(a) => StraightExactly(a, n, h, ck, r);
    case NotNull(a) => StraightExactly(a, n, h, ck, r);
    case Between(x, lo, hi) =>
      StraightExactly(x, n, h, ck, r);
      StraightExactly(lo, n, h + 2, ck + Change(x), r);
      StraightExactly(hi, n, h + 1, ck + Change(x) + Change(lo), r);
    case _ => StraightExactly(e, n, h, ck, r);
  }

  // What is built only from constructs that ckOffset counts correctly is straight.
  lemma CountableIsStraight(e: Expr, n: int)
    requires CountableCond(e, n)
    ensures StraightCond(e, n, 0)
  {
    CountableCondition(e, n, 1, 1);
    StraightCondExactly(e, n, 1, 1, 0);
  }

  ghost predicate ComparesIntegers(w: World) {
    forall r, i, j {:trigger w.env.compare(r, Int(i), Int(j))} ::
      w.env.compare(r, Int(i), Int(j)) == if i < j then -1 else if i == j then 0 else 1
  }

  // CHECK (c0 BETWEEN 0 AND c1) on the row (5, 3): the code compares c0 with itself and accepts.
  lemma BetweenMisread(w: World, rowid: Value)
    requires ComparesIntegers(w)
    ensures var e, s := Between(CheckColumn(0), Literal(Int(0)), CheckColumn(1)), [rowid, Int(5), Int(3)];
      OnRow(s, s, 1) && ColumnsCond(e, 3, 2, InStack) && CondAt(w, e, s, 2) == True && EvalCond(w, s, e) == False
  {
    var x, lo, hi := CheckColumn(0), Literal(Int(0)), CheckColumn(1);
    var e, s := Between(x, lo, hi), [rowid, Int(5), Int(3)];
    assert EvalAt(w, x, s, 2) == Int(5) == Eval(w, s, x) && Eval(w, s, hi) == Int(3);
    assert LowAt(w, e, s, 2) == Int(0) == Eval(w, s, lo);
    var s' := s + [Int(5)];
    assert EvalAt(w, hi, s', 4) == s'[1] == Int(5);
  }

  // CHECK ((c0 IS NULL) = 1) on the row (NULL, 7): the code looks at c1 and refuses.
  lemma IsNullMisread(w: World, rowid: Value)
    requires ComparesIntegers(w)
    ensures var e, s := Compare(Eq, IsNull(CheckColumn(0)), Literal(Int(1))), [rowid, Null, Int(7)];
      OnRow(s, s, 1) && ColumnsCond(e, 3, 2, InStack) && CondAt(w, e, s, 2) == False && EvalCond(w, s, e) == True
  {
    var x, one := CheckColumn(0), Literal(Int(1));
    var e, s := Compare(Eq, IsNull(x), one), [rowid, Null, Int(7)];
    var s' := s + [Int(1)];
    assert EvalAt(w, x, s', 2) == s'[2] == Int(7);
    assert EvalAt(w, IsNull(x), s, 2) == Int(0) && Eval(w, s, IsNull(x)) == Int(1);
    assert SecondAt(w, e, s, 2) == Int(1);
  }
}
