// The expression compiler (src/db_sqlite/expr.c:1464-2080): it appends instructions to a
// program whose jump targets may be labels resolved later (src/db_sqlite/vdbeaux.c:97-361).
module ExprCompiler {

  import opened SqlMachine
  import opened SqlExpr

  // The code emitted so far. Labels not yet resolved are -1.
  datatype Emitted = Emitted(world: World, ops: seq<Op>, labels: seq<int>)

  // A finished program with the label table it was linked with.
  datatype Image = Image(prog: seq<Op>, link: seq<int>)

  function Target(p2: int, link: seq<int>): int {
    if p2 < 0 && -1 - p2 < |link| then link[-1 - p2] else p2
  }

  function Resolve(op: Op, link: seq<int>): Op {
    op.(p2 := Target(op.p2, link))
  }

  // The finished program contains the emitted instructions lo..hi.
  ghost predicate Linked(m: Image, c: Emitted, lo: int, hi: int) {
    && 0 <= lo <= hi <= |c.ops| && hi <= |m.prog| && |c.labels| <= |m.link|
    && (forall j :: 0 <= j < |c.labels| && c.labels[j] != -1 ==> m.link[j] == c.labels[j])
    && (forall i :: lo <= i < hi ==> m.prog[i] == Resolve(c.ops[i], m.link))
  }

  ghost predicate Goes(c: Emitted, m: Image, pc: int, s: seq<Value>, pc': int, s': seq<Value>) {
    pc >= 0 && pc' >= 0 && Reaches(c.world.env, m.prog, Running(pc, s), Running(pc', s'))
  }

  // Instructions lo..hi, coded when ckOffset was ck, push the value of e and nothing else,
  // whatever program they end up in.
  ghost predicate Pushes(c: Emitted, lo: int, hi: int, e: Expr, ck: nat) {
    forall m, s {:trigger PushesOn(c, m, lo, hi, e, ck, s)} :: Linked(m, c, lo, hi) ==> PushesOn(c, m, lo, hi, e, ck, s)
  }

  ghost predicate PushesOn(c: Emitted, m: Image, lo: int, hi: int, e: Expr, ck: nat, s: seq<Value>) {
    Columns(e, |s|, ck, InStack) ==> Goes(c, m, lo, s, hi, s + [EvalAt(c.world, e, s, ck)])
  }

  predicate Taken(t: Truth, jumpIfNull: bool, sense: bool) {
    match t case True => sense case False => !sense case Unknown => jumpIfNull
  }

  // Instructions lo..hi leave the stack as it was and go to dest if the condition e is sense, or
  // is NULL and jumpIfNull is set; otherwise they fall through.
  ghost predicate Jumps(c: Emitted, lo: int, hi: int, e: Expr, dest: int, jumpIfNull: bool, sense: bool, ck: nat) {
    forall m, s {:trigger JumpsOn(c, m, lo, hi, e, dest, jumpIfNull, sense, ck, s)} ::
      Linked(m, c, lo, hi) ==> JumpsOn(c, m, lo, hi, e, dest, jumpIfNull, sense, ck, s)
  }

  ghost predicate JumpsOn(c: Emitted, m: Image, lo: int, hi: int, e: Expr, dest: int, jumpIfNull: bool, sense: bool,
      ck: nat, s: seq<Value>) {
    ColumnsCond(e, |s|, ck, InStack) && Target(dest, m.link) > 0 ==>
      Goes(c, m, lo, s, if Taken(CondAt(c.world, e, s, ck), jumpIfNull, sense) then Target(dest, m.link) else hi, s)
  }

  // ----- Using and keeping what is known about emitted code.

  // c' has all of c's instructions lo..hi, and has only resolved or added labels.
  ghost predicate Keeps(c: Emitted, c': Emitted, lo: int, hi: int) {
    && c'.world == c.world && 0 <= lo <= hi <= |c.ops| && hi <= |c'.ops| && |c.labels| <= |c'.labels|
    && (forall j :: 0 <= j < |c.labels| && c.labels[j] != -1 ==> c'.labels[j] == c.labels[j])
    && (forall i :: lo <= i < hi ==> c'.ops[i] == c.ops[i])
  }

  lemma LinkedPart(m: Image, c: Emitted, lo: int, hi: int, a: int, b: int)
    requires Linked(m, c, lo, hi) && lo <= a <= b <= hi
    ensures Linked(m, c, a, b)
  {
  }

  lemma LinkedBefore(m: Image, c: Emitted, c': Emitted, lo: int, hi: int)
    requires Keeps(c, c', lo, hi) && Linked(m, c', lo, hi)
    ensures Linked(m, c, lo, hi)
  {
  }

  lemma PushesKept(c: Emitted, c': Emitted, lo: int, hi: int, e: Expr, ck: nat)
    requires Pushes(c, lo, hi, e, ck) && Keeps(c, c', lo, hi)
    ensures Pushes(c', lo, hi, e, ck)
  {
    hide Linked, Columns, EvalAt, Reaches;
    forall m, s | Linked(m, c', lo, hi) ensures PushesOn(c', m, lo, hi, e, ck, s) {
      if Columns(e, |s|, ck, InStack) {
        LinkedBefore(m, c, c', lo, hi);
        assert PushesOn(c, m, lo, hi, e, ck, s);
      }
    }
  }

  lemma JumpsKept(c: Emitted, c': Emitted, lo: int, hi: int, e: Expr, dest: int, jumpIfNull: bool, sense: bool, ck: nat)
    requires Jumps(c, lo, hi, e, dest, jumpIfNull, sense, ck) && Keeps(c, c', lo, hi)
    ensures Jumps(c', lo, hi, e, dest, jumpIfNull, sense, ck)
  {
    hide Linked, ColumnsCond, CondAt, Reaches, Target;
    forall m, s | Linked(m, c', lo, hi) ensures JumpsOn(c', m, lo, hi, e, dest, jumpIfNull, sense, ck, s) {
      if ColumnsCond(e, |s|, ck, InStack) && Target(dest, m.link) > 0 {
        LinkedBefore(m, c, c', lo, hi);
        assert JumpsOn(c, m, lo, hi, e, dest, jumpIfNull, sense, ck, s);
      }
    }
  }

  lemma Pushing(c: Emitted, m: Image, lo: int, hi: int, a: int, b: int, e: Expr, ck: nat, s: seq<Value>)
    requires Pushes(c, a, b, e, ck) && Linked(m, c, lo, hi) && lo <= a <= b <= hi
    requires Columns(e, |s|, ck, InStack)
    ensures Goes(c, m, a, s, b, s + [EvalAt(c.world, e, s, ck)])
  {
    hide Columns, EvalAt, Reaches;
    LinkedPart(m, c, lo, hi, a, b);
    assert PushesOn(c, m, a, b, e, ck, s);
  }

  lemma Jumping(c: Emitted, m: Image, lo: int, hi: int, a: int, b: int, e: Expr, dest: int, jumpIfNull: bool,
      sense: bool, ck: nat, s: seq<Value>)
    requires Jumps(c, a, b, e, dest, jumpIfNull, sense, ck) && Linked(m, c, lo, hi) && lo <= a <= b <= hi
    requires ColumnsCond(e, |s|, ck, InStack) && Target(dest, m.link) > 0
    ensures Goes(c, m, a, s, if Taken(CondAt(c.world, e, s, ck), jumpIfNull, sense) then Target(dest, m.link) else b, s)
  {
    hide ColumnsCond, CondAt, Reaches, Target;
    LinkedPart(m, c, lo, hi, a, b);
    assert JumpsOn(c, m, a, b, e, dest, jumpIfNull, sense, ck, s);
  }

  lemma Goes2(c: Emitted, m: Image, p: int, s: seq<Value>, q: int, t: seq<Value>, r: int, u: seq<Value>)
    requires Goes(c, m, p, s, q, t) && Goes(c, m, q, t, r, u)
    ensures Goes(c, m, p, s, r, u)
  {
    Chain(c.world.env, m.prog, Running(p, s), Running(q, t), Running(r, u));
  }

  // One instruction.
  lemma At(c: Emitted, m: Image, lo: int, hi: int, i: int, s: seq<Value>)
    requires Linked(m, c, lo, hi) && lo <= i < hi
    ensures var t := Execute(c.world.env, Resolve(c.ops[i], m.link), i, s); t.Running? ==>
      Goes(c, m, i, s, t.pc, t.stack)
  {
    hide Execute;
    var t := Execute(c.world.env, Resolve(c.ops[i], m.link), i, s);
    if t.Running? {
      OneStep(c.world.env, m.prog, Running(i, s), t);
    }
  }

  // An instruction that pushes.
  lemma PushStep(c: Emitted, m: Image, lo: int, hi: int, i: int, s: seq<Value>)
    requires Linked(m, c, lo, hi) && lo <= i < hi && c.ops[i].p2 >= 0
    requires c.ops[i].opcode in {OpInteger, OpLiteral, OpNull, OpColumn} ||
      (c.ops[i].opcode == OpDup && 0 <= c.ops[i].p1 < |s|)
    ensures Goes(c, m, i, s, i + 1, s + [Pushed(c.world.env, c.ops[i], s)])
  {
    At(c, m, lo, hi, i, s);
  }

  // An instruction that replaces the top.
  lemma ReplaceStep(c: Emitted, m: Image, lo: int, hi: int, i: int, s: seq<Value>, v: Value)
    requires Linked(m, c, lo, hi) && lo <= i < hi && c.ops[i].p2 >= 0
    requires c.ops[i].opcode in {OpAddImm, OpNot, OpNegative, OpUnary}
    ensures Goes(c, m, i, s + [v], i + 1, s + [Replaced(c.world.env, c.ops[i], v)])
  {
    At(c, m, lo, hi, i, s + [v]);
    assert (s + [v])[..|s|] == s;
  }

  lemma CombineStep(c: Emitted, m: Image, lo: int, hi: int, i: int, s: seq<Value>, a: Value, b: Value)
    requires Linked(m, c, lo, hi) && lo <= i < hi && c.ops[i].p2 >= 0
    requires c.ops[i].opcode in {OpAnd, OpOr, OpBinary}
    ensures Goes(c, m, i, s + [a] + [b], i + 1, s + [Combined(c.world.env, c.ops[i], a, b)])
  {
    At(c, m, lo, hi, i, s + [a] + [b]);
    assert (s + [a] + [b])[..|s|] == s;
  }

  lemma BranchStep(c: Emitted, m: Image, lo: int, hi: int, i: int, s: seq<Value>, v: Value)
    requires Linked(m, c, lo, hi) && lo <= i < hi && Target(c.ops[i].p2, m.link) > 0
    requires c.ops[i].opcode in {OpIf, OpIfNot} || (c.ops[i].opcode in {OpIsNull, OpNotNull} && c.ops[i].p1 == 1)
    ensures Goes(c, m, i, s + [v], if Branches(c.world.env, c.ops[i], v) then Target(c.ops[i].p2, m.link) else i + 1, s)
  {
    At(c, m, lo, hi, i, s + [v]);
    assert (s + [v])[..|s|] == s;
  }

  lemma PopStep(c: Emitted, m: Image, lo: int, hi: int, i: int, s: seq<Value>, v: Value)
    requires Linked(m, c, lo, hi) && lo <= i < hi && c.ops[i].opcode == OpPop && c.ops[i].p1 == 1
    ensures Goes(c, m, i, s + [v], i + 1, s)
  {
    At(c, m, lo, hi, i, s + [v]);
    assert (s + [v])[..|s|] == s;
  }

  lemma GotoStep(c: Emitted, m: Image, lo: int, hi: int, i: int, s: seq<Value>)
    requires Linked(m, c, lo, hi) && lo <= i < hi && c.ops[i].opcode == OpGoto && Target(c.ops[i].p2, m.link) > 0
    ensures Goes(c, m, i, s, Target(c.ops[i].p2, m.link), s)
  {
    At(c, m, lo, hi, i, s);
  }

  // A comparison instruction for operands l and r.
  function CompareOp(w: World, l: Expr, r: Expr, cmp: Comparison, dest: int, jumpIfNull: bool): Op {
    var rule := w.rule(l, r);
    Op(OpTest(cmp), rule.affinity + if jumpIfNull then 0x100 else 0, dest, Collation(rule.collation))
  }

  lemma TestPushStep(c: Emitted, m: Image, lo: int, hi: int, i: int, l: Expr, r: Expr, cmp: Comparison, s: seq<Value>,
      a: Value, b: Value)
    requires Linked(m, c, lo, hi) && lo <= i < hi && c.ops[i] == CompareOp(c.world, l, r, cmp, 0, false)
    ensures Goes(c, m, i, s + [a] + [b], i + 1, s + [FromTruth(Compare3(c.world.env, cmp, c.world.rule(l, r), a, b))])
  {
    At(c, m, lo, hi, i, s + [a] + [b]);
    assert (s + [a] + [b])[..|s|] == s;
  }

  lemma TestJumpStep(c: Emitted, m: Image, lo: int, hi: int, i: int, l: Expr, r: Expr, cmp: Comparison, dest: int,
      jn: bool, s: seq<Value>, a: Value, b: Value)
    requires Linked(m, c, lo, hi) && lo <= i < hi && c.ops[i] == CompareOp(c.world, l, r, cmp, dest, jn) &&
      Target(dest, m.link) > 0
    ensures var t := Compare3(c.world.env, cmp, c.world.rule(l, r), a, b);
      Goes(c, m, i, s + [a] + [b], if Taken(t, jn, true) then Target(dest, m.link) else i + 1, s)
  {
    At(c, m, lo, hi, i, s + [a] + [b]);
    assert (s + [a] + [b])[..|s|] == s;
  }

  // ----- Code that pushes a value, construct by construct.

  lemma CodedLeaf(c: Emitted, lo: int, e: Expr, ck: nat)
    requires 0 <= lo < |c.ops| && c.ops[lo].p2 >= 0
    requires c.ops[lo].opcode in {OpInteger, OpLiteral, OpNull, OpColumn}
    requires forall s, k :: Pushed(c.world.env, c.ops[lo], []) == EvalAt(c.world, e, s, k)
    ensures Pushes(c, lo, lo + 1, e, ck)
  {
    hide Columns, Reaches, Linked, EvalAt;
    var hi := lo + 1;
    forall m, s | Linked(m, c, lo, hi) ensures PushesOn(c, m, lo, hi, e, ck, s) {
      if Columns(e, |s|, ck, InStack) {
        PushStep(c, m, lo, lo + 1, lo, s);
        assert Pushed(c.world.env, c.ops[lo], []) == Pushed(c.world.env, c.ops[lo], s);
      }
    }
  }

  lemma CodedCheckColumn(c: Emitted, lo: int, k: int, ck: nat)
    requires 0 <= lo < |c.ops| && c.ops[lo] == Op(OpDup, ck - k - 1, 1, NoP3)
    ensures Pushes(c, lo, lo + 1, CheckColumn(k), ck)
  {
    hide Reaches, Linked;
    var hi := lo + 1;
    forall m, s | Linked(m, c, lo, hi) ensures PushesOn(c, m, lo, hi, CheckColumn(k), ck, s) {
      if Columns(CheckColumn(k), |s|, ck, InStack) {
        PushStep(c, m, lo, lo + 1, lo, s);
      }
    }
  }

  lemma CodedReplace(c: Emitted, lo: int, mid: int, e: Expr, a: Expr, ck: nat)
    requires e.Not? || e.Unary? || (e.Minus? && !Folds(e))
    requires a == e.operand && Pushes(c, lo, mid, a, ck) && 0 <= lo <= mid < |c.ops|
    requires c.ops[mid] ==
      if e.Not? then Op(OpNot, 0, 0, NoP3)
      else if e.Minus? then Op(OpNegative, 0, 0, NoP3)
      else Op(OpUnary, 0, 0, Operator(e.f))
    ensures Pushes(c, lo, mid + 1, e, ck)
  {
    hide Reaches, Linked, IntTruth, SqlMachine.Negate, Goes;
    var hi := mid + 1;
    forall m, s | Linked(m, c, lo, hi) ensures PushesOn(c, m, lo, hi, e, ck, s) {
      if Columns(e, |s|, ck, InStack) {
        Pushing(c, m, lo, mid + 1, lo, mid, a, ck, s);
        var v := EvalAt(c.world, a, s, ck);
        ReplaceStep(c, m, lo, mid + 1, mid, s, v);
        Goes2(c, m, lo, s, mid, s + [v], mid + 1, s + [EvalAt(c.world, e, s, ck)]);
      }
    }
  }

  // Two operands, one after the other.
  lemma BothOperands(c: Emitted, m: Image, lo: int, hi: int, mid: int, at: int, a: Expr, b: Expr, ck: nat,
      s: seq<Value>)
    requires Pushes(c, lo, mid, a, ck) && Pushes(c, mid, at, b, Bump(ck, Change(a))) && lo <= mid <= at <= hi
    requires Linked(m, c, lo, hi) && Columns(a, |s|, ck, InStack)
    requires Columns(b, |s| + 1, Bump(ck, Change(a)), InStack)
    ensures var va := EvalAt(c.world, a, s, ck);
      var vb := EvalAt(c.world, b, s + [va], Bump(ck, Change(a)));
      Goes(c, m, lo, s, at, s + [va] + [vb])
  {
    hide Reaches, Linked, Pushes, Goes, EvalAt, Columns, Change;
    var va := EvalAt(c.world, a, s, ck);
    var vb := EvalAt(c.world, b, s + [va], Bump(ck, Change(a)));
    Pushing(c, m, lo, hi, lo, mid, a, ck, s);
    Pushing(c, m, lo, hi, mid, at, b, Bump(ck, Change(a)), s + [va]);
    Goes2(c, m, lo, s, mid, s + [va], at, s + [va] + [vb]);
  }

  lemma CodedCombine(c: Emitted, lo: int, mid: int, at: int, e: Expr, a: Expr, b: Expr, ck: nat)
    requires e == And(a, b) || e == Or(a, b) || (e.Binary? && e == Binary(e.f, a, b))
    requires 0 <= lo <= mid <= at < |c.ops| && Pushes(c, lo, mid, a, ck) && Pushes(c, mid, at, b, Bump(ck, Change(a)))
    requires c.ops[at] ==
      if e.And? then Op(OpAnd, 0, 0, NoP3)
      else if e.Or? then Op(OpOr, 0, 0, NoP3)
      else Op(OpBinary, 0, 0, Operator(e.f))
    ensures Pushes(c, lo, at + 1, e, ck)
  {
    hide Reaches, Linked, IntTruth, Goes, And3, Or3, Change;
    var hi := at + 1;
    forall m, s | Linked(m, c, lo, hi) ensures PushesOn(c, m, lo, hi, e, ck, s) {
      if Columns(e, |s|, ck, InStack) {
        BothOperands(c, m, lo, at + 1, mid, at, a, b, ck, s);
        var va, vb := EvalAt(c.world, a, s, ck), SecondAt(c.world, e, s, ck);
        CombineStep(c, m, lo, at + 1, at, s, va, vb);
        Goes2(c, m, lo, s, at, s + [va] + [vb], at + 1, s + [EvalAt(c.world, e, s, ck)]);
      }
    }
  }

  lemma CodedCompare(c: Emitted, lo: int, mid: int, at: int, e: Expr, ck: nat)
    requires e.Compare? && 0 <= lo <= mid <= at < |c.ops|
    requires Pushes(c, lo, mid, e.left, ck) && Pushes(c, mid, at, e.right, Bump(ck, Change(e.left)))
    requires c.ops[at] == CompareOp(c.world, e.left, e.right, e.cmp, 0, false)
    ensures Pushes(c, lo, at + 1, e, ck)
  {
    hide Reaches, Linked, Goes, Compare3, FromTruth, CompareOp, Change;
    var hi := at + 1;
    forall m, s | Linked(m, c, lo, hi) ensures PushesOn(c, m, lo, hi, e, ck, s) {
      if Columns(e, |s|, ck, InStack) {
        BothOperands(c, m, lo, at + 1, mid, at, e.left, e.right, ck, s);
        var va, vb := EvalAt(c.world, e.left, s, ck), SecondAt(c.world, e, s, ck);
        TestPushStep(c, m, lo, at + 1, at, e.left, e.right, e.cmp, s, va, vb);
        Goes2(c, m, lo, s, at, s + [va] + [vb], at + 1, s + [EvalAt(c.world, e, s, ck)]);
      }
    }
  }

  // 1; operand; IsNull end; AddImm -1 (NotNull likewise).
  lemma CodedNullTest(c: Emitted, lo: int, at: int, e: Expr, a: Expr, ck: nat)
    requires (e == IsNull(a) || e == NotNull(a)) && 0 <= lo < at && at + 1 < |c.ops|
    requires c.ops[lo] == Op(OpInteger, 1, 0, NoP3) && Pushes(c, lo + 1, at, a, ck)
    requires c.ops[at] == Op(if e.IsNull? then OpIsNull else OpNotNull, 1, at + 2, NoP3)
    requires c.ops[at + 1] == Op(OpAddImm, -1, 0, NoP3)
    ensures Pushes(c, lo, at + 2, e, ck)
  {
    hide Reaches, Linked, Goes;
    var hi := at + 2;
    forall m, s | Linked(m, c, lo, hi) ensures PushesOn(c, m, lo, hi, e, ck, s) {
      if Columns(e, |s|, ck, InStack) {
        var one := s + [Int(1)];
        var v := EvalAt(c.world, a, one, ck);
        PushStep(c, m, lo, at + 2, lo, s);
        Pushing(c, m, lo, at + 2, lo + 1, at, a, ck, one);
        Goes2(c, m, lo, s, lo + 1, one, at, one + [v]);
        BranchStep(c, m, lo, at + 2, at, one, v);
        if !Branches(c.world.env, c.ops[at], v) {
          Goes2(c, m, lo, s, at, one + [v], at + 1, one);
          ReplaceStep(c, m, lo, at + 2, at + 1, s, Int(1));
          Goes2(c, m, lo, s, at + 1, one, at + 2, s + [Int(0)]);
        } else {
          Goes2(c, m, lo, s, at, one + [v], at + 2, one);
        }
      }
    }
  }

  // operand; Dup; low; Ge; Pull 1; high; Le; And.
  ghost predicate BetweenCode(c: Emitted, lo: int, a: int, b: int, d: int, e: Expr, ck: nat)
  {
    && e.Between? && 0 <= lo <= a && a + 1 <= b && b + 2 <= d && d + 1 < |c.ops|
    && Pushes(c, lo, a, e.operand, ck) && c.ops[a] == Op(OpDup, 0, 0, NoP3)
    && Pushes(c, a + 1, b, e.low, Bump(ck, Change(e.operand)))
    && c.ops[b] == CompareOp(c.world, e.operand, e.low, Ge, 0, false) && c.ops[b + 1] == Op(OpPull, 1, 0, NoP3)
    && Pushes(c, b + 2, d, e.high, Bump(Bump(ck, Change(e.operand)), Change(e.low)))
    && c.ops[d] == CompareOp(c.world, e.operand, e.high, Le, 0, false) && c.ops[d + 1] == Op(OpAnd, 0, 0, NoP3)
  }

  lemma BetweenRun(c: Emitted, lo: int, a: int, b: int, d: int, e: Expr, ck: nat, m: Image, s: seq<Value>)
    requires BetweenCode(c, lo, a, b, d, e, ck) && Linked(m, c, lo, d + 2)
    requires Columns(e, |s|, ck, InStack)
    ensures Goes(c, m, lo, s, d + 2, s + [EvalAt(c.world, e, s, ck)])
  {
    hide Reaches, Linked, Goes, CompareOp, Change, Target, Execute, Pushes, LowAt, Compare3;
    var x, y, ck' := EvalAt(c.world, e.operand, s, ck), LowAt(c.world, e, s, ck),
      Bump(Bump(ck, Change(e.operand)), Change(e.low));
    var g := Compare3(c.world.env, Ge, c.world.rule(e.operand, e.low), x, y);
    var z := EvalAt(c.world, e.high, s + [FromTruth(g)] + [x], ck');
    var l := Compare3(c.world.env, Le, c.world.rule(e.operand, e.high), x, z);
    LowTested(c, m, lo, d + 2, a, b, e, ck, s);
    TestPushStep(c, m, lo, d + 2, b, e.operand, e.low, Ge, s + [x], x, y);
    Goes2(c, m, lo, s, b, s + [x] + [x] + [y], b + 1, s + [x] + [FromTruth(g)]);
    PullStep(c, m, lo, d + 2, b + 1, s, x, FromTruth(g));
    Goes2(c, m, lo, s, b + 1, s + [x] + [FromTruth(g)], b + 2, s + [FromTruth(g)] + [x]);
    Pushing(c, m, lo, d + 2, b + 2, d, e.high, ck', s + [FromTruth(g)] + [x]);
    Goes2(c, m, lo, s, b + 2, s + [FromTruth(g)] + [x], d, s + [FromTruth(g)] + [x] + [z]);
    TestPushStep(c, m, lo, d + 2, d, e.operand, e.high, Le, s + [FromTruth(g)], x, z);
    Goes2(c, m, lo, s, d, s + [FromTruth(g)] + [x] + [z], d + 1, s + [FromTruth(g)] + [FromTruth(l)]);
    CombineStep(c, m, lo, d + 2, d + 1, s, FromTruth(g), FromTruth(l));
    TruthRoundTrip(c.world.env, g);
    TruthRoundTrip(c.world.env, l);
    Goes2(c, m, lo, s, d + 1, s + [FromTruth(g)] + [FromTruth(l)], d + 2, s + [FromTruth(And3(g, l))]);
  }

  lemma CodedBetween(c: Emitted, lo: int, a: int, b: int, d: int, e: Expr, ck: nat)
    requires e.Between?
    requires BetweenCode(c, lo, a, b, d, e, ck)
    ensures Pushes(c, lo, d + 2, e, ck)
  {
    hide Reaches, Linked, Goes, CompareOp, Change, Target, BetweenCode, Within;
    var hi := d + 2;
    forall m, s | Linked(m, c, lo, hi) ensures PushesOn(c, m, lo, hi, e, ck, s) {
      if Columns(e, |s|, ck, InStack) {
        BetweenRun(c, lo, a, b, d, e, ck, m, s);
      }
    }
  }

  // The common start of the three forms of BETWEEN: operand, operand again, low end.
  lemma LowTested(c: Emitted, m: Image, lo: int, hi: int, a: int, b: int, e: Expr, ck: nat, s: seq<Value>)
    requires e.Between? && 0 <= lo <= a && a + 1 <= b <= hi <= |c.ops|
    requires Linked(m, c, lo, hi)
    requires Pushes(c, lo, a, e.operand, ck) && c.ops[a] == Op(OpDup, 0, 0, NoP3)
    requires Pushes(c, a + 1, b, e.low, Bump(ck, Change(e.operand)))
    requires Columns(e.operand, |s|, ck, InStack)
    requires Columns(e.low, |s| + 2, Bump(ck, Change(e.operand)), InStack)
    ensures var x, y := EvalAt(c.world, e.operand, s, ck), LowAt(c.world, e, s, ck);
      Goes(c, m, lo, s, b, s + [x] + [x] + [y])
  {
    hide Reaches, Linked, Goes, EvalAt, Columns, Change, Pushes;
    var x, y := EvalAt(c.world, e.operand, s, ck), LowAt(c.world, e, s, ck);
    Pushing(c, m, lo, hi, lo, a, e.operand, ck, s);
    PushStep(c, m, lo, hi, a, s + [x]);
    assert Pushed(c.world.env, c.ops[a], s + [x]) == x;
    Goes2(c, m, lo, s, a, s + [x], a + 1, s + [x] + [x]);
    Pushing(c, m, lo, hi, a + 1, b, e.low, Bump(ck, Change(e.operand)), s + [x] + [x]);
    Goes2(c, m, lo, s, a + 1, s + [x] + [x], b, s + [x] + [x] + [y]);
  }

  lemma PullStep(c: Emitted, m: Image, lo: int, hi: int, i: int, s: seq<Value>, a: Value, b: Value)
    requires Linked(m, c, lo, hi) && lo <= i < hi && c.ops[i] == Op(OpPull, 1, 0, NoP3)
    ensures Goes(c, m, i, s + [a] + [b], i + 1, s + [b] + [a])
  {
    At(c, m, lo, hi, i, s + [a] + [b]);
    assert (s + [a] + [b])[..|s|] + (s + [a] + [b])[|s| + 1..] + [a] == s + [b] + [a];
  }

  // ----- Code that jumps.

  function Inverse(cmp: Comparison): Comparison {
    match cmp
    case Eq => Ne
    case Ne => Eq
    case Lt => Ge
    case Le => Gt
    case Gt => Le
    case Ge => Lt
  }

  lemma JumpCompare(c: Emitted, lo: int, mid: int, at: int, e: Expr, dest: int, jn: bool, sense: bool, ck: nat)
    requires e.Compare? && 0 <= lo <= mid <= at < |c.ops|
    requires Pushes(c, lo, mid, e.left, ck) && Pushes(c, mid, at, e.right, Bump(ck, Change(e.left)))
    requires c.ops[at] == CompareOp(c.world, e.left, e.right, if sense then e.cmp else Inverse(e.cmp), dest, jn)
    ensures Jumps(c, lo, at + 1, e, dest, jn, sense, ck)
  {
    hide Reaches, Linked, Goes, CompareOp, Change, Target, EvalAt;
    var hi := at + 1;
    forall m, s | Linked(m, c, lo, hi) ensures JumpsOn(c, m, lo, hi, e, dest, jn, sense, ck, s) {
      if ColumnsCond(e, |s|, ck, InStack) && Target(dest, m.link) > 0 {
        BothOperands(c, m, lo, at + 1, mid, at, e.left, e.right, ck, s);
        var va, vb := EvalAt(c.world, e.left, s, ck), SecondAt(c.world, e, s, ck);
        TestJumpStep(c, m, lo, at + 1, at, e.left, e.right, if sense then e.cmp else Inverse(e.cmp), dest, jn, s,
          va, vb);
        Goes2(c, m, lo, s, at, s + [va] + [vb],
          if Taken(CondAt(c.world, e, s, ck), jn, sense) then Target(dest, m.link) else at + 1, s);
      }
    }
  }

  // IS NULL and IS NOT NULL are never NULL, so the flag is not looked at.
  lemma JumpNullTest(c: Emitted, lo: int, at: int, e: Expr, a: Expr, dest: int, jn: bool, sense: bool, ck: nat)
    requires (e == IsNull(a) || e == NotNull(a)) && 0 <= lo <= at < |c.ops| && Pushes(c, lo, at, a, ck)
    requires c.ops[at] == Op(if e.IsNull? == sense then OpIsNull else OpNotNull, 1, dest, NoP3)
    ensures Jumps(c, lo, at + 1, e, dest, jn, sense, ck)
  {
    hide Reaches, Linked, Goes, Target, EvalAt;
    var hi := at + 1;
    forall m, s | Linked(m, c, lo, hi) ensures JumpsOn(c, m, lo, hi, e, dest, jn, sense, ck, s) {
      if ColumnsCond(e, |s|, ck, InStack) && Target(dest, m.link) > 0 {
        Pushing(c, m, lo, at + 1, lo, at, a, ck, s);
        var v := EvalAt(c.world, a, s, ck);
        BranchStep(c, m, lo, at + 1, at, s, v);
        Goes2(c, m, lo, s, at, s + [v],
          if Taken(CondAt(c.world, e, s, ck), jn, sense) then Target(dest, m.link) else at + 1, s);
      }
    }
  }

  predicate Plain(e: Expr) {
    !(e.And? || e.Or? || e.Not? || e.Compare? || e.IsNull? || e.NotNull? || e.Between?)
  }

  lemma JumpPlain(c: Emitted, lo: int, at: int, e: Expr, dest: int, jn: bool, sense: bool, ck: nat)
    requires Plain(e) && 0 <= lo <= at < |c.ops| && Pushes(c, lo, at, e, ck)
    requires c.ops[at] == Op(if sense then OpIf else OpIfNot, if jn then 1 else 0, dest, NoP3)
    ensures Jumps(c, lo, at + 1, e, dest, jn, sense, ck)
  {
    hide Reaches, Linked, Goes, Target, EvalAt, RealOf;
    var hi := at + 1;
    forall m, s | Linked(m, c, lo, hi) ensures JumpsOn(c, m, lo, hi, e, dest, jn, sense, ck, s) {
      if ColumnsCond(e, |s|, ck, InStack) && Target(dest, m.link) > 0 {
        Pushing(c, m, lo, at + 1, lo, at, e, ck, s);
        var v := EvalAt(c.world, e, s, ck);
        BranchStep(c, m, lo, at + 1, at, s, v);
        Goes2(c, m, lo, s, at, s + [v],
          if Taken(CondAt(c.world, e, s, ck), jn, sense) then Target(dest, m.link) else at + 1, s);
      }
    }
  }

  lemma JumpNot(c: Emitted, lo: int, hi: int, a: Expr, dest: int, jn: bool, sense: bool, ck: nat)
    requires lo <= hi && Jumps(c, lo, hi, a, dest, jn, !sense, ck)
    ensures Jumps(c, lo, hi, Not(a), dest, jn, sense, ck)
  {
    hide Reaches, Linked, Goes, Target;
    forall m, s | Linked(m, c, lo, hi) ensures JumpsOn(c, m, lo, hi, Not(a), dest, jn, sense, ck, s) {
      if ColumnsCond(Not(a), |s|, ck, InStack) && Target(dest, m.link) > 0 {
        Jumping(c, m, lo, hi, lo, hi, a, dest, jn, !sense, ck, s);
      }
    }
  }

  // Either operand decides: OR jumping when true, AND jumping when false.
  lemma JumpEither(c: Emitted, lo: int, mid: int, hi: int, e: Expr, a: Expr, b: Expr, dest: int, jn: bool, sense: bool,
      ck: nat)
    requires e == if sense then Or(a, b) else And(a, b)
    requires lo <= mid <= hi && Jumps(c, lo, mid, a, dest, jn, sense, ck) && Jumps(c, mid, hi, b, dest, jn, sense, ck)
    ensures Jumps(c, lo, hi, e, dest, jn, sense, ck)
  {
    hide Reaches, Linked, Goes, Target;
    forall m, s | Linked(m, c, lo, hi) ensures JumpsOn(c, m, lo, hi, e, dest, jn, sense, ck, s) {
      if ColumnsCond(e, |s|, ck, InStack) && Target(dest, m.link) > 0 {
        Jumping(c, m, lo, hi, lo, mid, a, dest, jn, sense, ck, s);
        Jumping(c, m, lo, hi, mid, hi, b, dest, jn, sense, ck, s);
        if !Taken(CondAt(c.world, a, s, ck), jn, sense) {
          Goes2(c, m, lo, s, mid, s,
            if Taken(CondAt(c.world, b, s, ck), jn, sense) then Target(dest, m.link) else hi, s);
        }
      }
    }
  }

  lemma LabelTarget(m: Image, c: Emitted, lo: int, hi: int, label': int)
    requires Linked(m, c, lo, hi) && label' < 0 && -1 - label' < |c.labels| && c.labels[-1 - label'] != -1
    ensures Target(label', m.link) == c.labels[-1 - label']
  {
  }

  // The first operand may skip the second: AND jumping when true, OR jumping when false. Reading
  // NULL the other way round for the first operand is what three-valued logic needs.
  lemma JumpBoth(c: Emitted, lo: int, mid: int, hi: int, e: Expr, a: Expr, b: Expr, d2: int, dest: int, jn: bool,
      sense: bool, ck: nat)
    requires e == if sense then And(a, b) else Or(a, b)
    requires lo <= mid <= hi && 0 < hi && Jumps(c, lo, mid, a, d2, !jn, !sense, ck) &&
      Jumps(c, mid, hi, b, dest, jn, sense, ck)
    requires d2 < 0 && -1 - d2 < |c.labels| && c.labels[-1 - d2] == hi
    ensures Jumps(c, lo, hi, e, dest, jn, sense, ck)
  {
    hide Reaches, Linked, Goes, Target;
    forall m, s | Linked(m, c, lo, hi) ensures JumpsOn(c, m, lo, hi, e, dest, jn, sense, ck, s) {
      if ColumnsCond(e, |s|, ck, InStack) && Target(dest, m.link) > 0 {
        LabelTarget(m, c, lo, hi, d2);
        Jumping(c, m, lo, hi, lo, mid, a, d2, !jn, !sense, ck, s);
        Jumping(c, m, lo, hi, mid, hi, b, dest, jn, sense, ck, s);
        if !Taken(CondAt(c.world, a, s, ck), !jn, !sense) {
          Goes2(c, m, lo, s, mid, s,
            if Taken(CondAt(c.world, b, s, ck), jn, sense) then Target(dest, m.link) else hi, s);
        }
      }
    }
  }

  // operand; Dup; low; Lt pop; high; Le dest; Integer 0; pop: Pop 1.
  ghost predicate BetweenTrueCode(c: Emitted, lo: int, a: int, b: int, d: int, e: Expr, dest: int, jn: bool, ck: nat)
  {
    && e.Between? && 0 <= lo <= a && a + 1 <= b && b + 1 <= d && d + 2 < |c.ops|
    && Pushes(c, lo, a, e.operand, ck) && c.ops[a] == Op(OpDup, 0, 0, NoP3)
    && Pushes(c, a + 1, b, e.low, Bump(ck, Change(e.operand)))
    && c.ops[b] == CompareOp(c.world, e.operand, e.low, Lt, d + 2, !jn)
    && Pushes(c, b + 1, d, e.high, Bump(Bump(ck, Change(e.operand)), Change(e.low)))
    && c.ops[d] == CompareOp(c.world, e.operand, e.high, Le, dest, jn)
    && c.ops[d + 1] == Op(OpInteger, 0, 0, NoP3) && c.ops[d + 2] == Op(OpPop, 1, 0, NoP3)
  }

  lemma BetweenTrueRun(c: Emitted, lo: int, a: int, b: int, d: int, e: Expr, dest: int, jn: bool, ck: nat, m: Image,
      s: seq<Value>)
    requires BetweenTrueCode(c, lo, a, b, d, e, dest, jn, ck) && Linked(m, c, lo, d + 3) && Target(dest, m.link) > 0
    requires ColumnsCond(e, |s|, ck, InStack)
    ensures Goes(c, m, lo, s, if Taken(CondAt(c.world, e, s, ck), jn, true) then Target(dest, m.link) else d + 3, s)
  {
    hide Reaches, Linked, Goes, CompareOp, Change, Target, Execute, Pushes, Columns, EvalAt, LowAt;
    var x, y, ck' := EvalAt(c.world, e.operand, s, ck), LowAt(c.world, e, s, ck),
      Bump(Bump(ck, Change(e.operand)), Change(e.low));
    var z := EvalAt(c.world, e.high, s + [x], ck');
    var l := Compare3(c.world.env, Lt, c.world.rule(e.operand, e.low), x, y);
    var h := Compare3(c.world.env, Le, c.world.rule(e.operand, e.high), x, z);
    LowTested(c, m, lo, d + 3, a, b, e, ck, s);
    PositiveTarget(d + 2, m.link);
    TestJumpStep(c, m, lo, d + 3, b, e.operand, e.low, Lt, d + 2, !jn, s + [x], x, y);
    PopStep(c, m, lo, d + 3, d + 2, s, x);
    PopStep(c, m, lo, d + 3, d + 2, s, Int(0));
    if Taken(l, !jn, true) {
      Goes2(c, m, lo, s, b, s + [x] + [x] + [y], d + 2, s + [x]);
      Goes2(c, m, lo, s, d + 2, s + [x], d + 3, s);
    } else {
      Goes2(c, m, lo, s, b, s + [x] + [x] + [y], b + 1, s + [x]);
      Pushing(c, m, lo, d + 3, b + 1, d, e.high, ck', s + [x]);
      Goes2(c, m, lo, s, b + 1, s + [x], d, s + [x] + [z]);
      TestJumpStep(c, m, lo, d + 3, d, e.operand, e.high, Le, dest, jn, s, x, z);
      Goes2(c, m, lo, s, d, s + [x] + [z], if Taken(h, jn, true) then Target(dest, m.link) else d + 1, s);
      if !Taken(h, jn, true) {
        PushStep(c, m, lo, d + 3, d + 1, s);
        Goes2(c, m, lo, s, d + 1, s, d + 2, s + [Int(0)]);
        Goes2(c, m, lo, s, d + 2, s + [Int(0)], d + 3, s);
      }
    }
  }

  lemma JumpBetweenTrue(c: Emitted, lo: int, a: int, b: int, d: int, e: Expr, dest: int, jn: bool, ck: nat)
    requires e.Between?
    requires BetweenTrueCode(c, lo, a, b, d, e, dest, jn, ck)
    ensures Jumps(c, lo, d + 3, e, dest, jn, true, ck)
  {
    hide Reaches, Linked, Goes, CompareOp, Change, Target, BetweenTrueCode, Within;
    var hi := d + 3;
    forall m, s | Linked(m, c, lo, hi) ensures JumpsOn(c, m, lo, hi, e, dest, jn, true, ck, s) {
      if ColumnsCond(e, |s|, ck, InStack) && Target(dest, m.link) > 0 {
        BetweenTrueRun(c, lo, a, b, d, e, dest, jn, ck, m, s);
      }
    }
  }

  // operand; Dup; low; Ge high; Pop 1; Goto dest; high: high; Gt dest.
  ghost predicate BetweenFalseCode(c: Emitted, lo: int, a: int, b: int, d: int, e: Expr, dest: int, jn: bool, ck: nat)
  {
    && e.Between? && 0 <= lo <= a && a + 1 <= b && b + 3 <= d < |c.ops|
    && Pushes(c, lo, a, e.operand, ck) && c.ops[a] == Op(OpDup, 0, 0, NoP3)
    && Pushes(c, a + 1, b, e.low, Bump(ck, Change(e.operand)))
    && c.ops[b] == CompareOp(c.world, e.operand, e.low, Ge, b + 3, !jn)
    && c.ops[b + 1] == Op(OpPop, 1, 0, NoP3) && c.ops[b + 2] == Op(OpGoto, 0, dest, NoP3)
    && Pushes(c, b + 3, d, e.high, Bump(Bump(ck, Change(e.operand)), Change(e.low)))
    && c.ops[d] == CompareOp(c.world, e.operand, e.high, Gt, dest, jn)
  }

  lemma BetweenFalseRun(c: Emitted, lo: int, a: int, b: int, d: int, e: Expr, dest: int, jn: bool, ck: nat, m: Image,
      s: seq<Value>)
    requires BetweenFalseCode(c, lo, a, b, d, e, dest, jn, ck) && Linked(m, c, lo, d + 1) && Target(dest, m.link) > 0
    requires ColumnsCond(e, |s|, ck, InStack)
    ensures Goes(c, m, lo, s, if Taken(CondAt(c.world, e, s, ck), jn, false) then Target(dest, m.link) else d + 1, s)
  {
    hide Reaches, Linked, Goes, CompareOp, Change, Target, Execute, Pushes, Columns, EvalAt, LowAt;
    var x, y, ck' := EvalAt(c.world, e.operand, s, ck), LowAt(c.world, e, s, ck),
      Bump(Bump(ck, Change(e.operand)), Change(e.low));
    var z := EvalAt(c.world, e.high, s + [x], ck');
    var l := Compare3(c.world.env, Ge, c.world.rule(e.operand, e.low), x, y);
    var h := Compare3(c.world.env, Gt, c.world.rule(e.operand, e.high), x, z);
    LowTested(c, m, lo, d + 1, a, b, e, ck, s);
    PositiveTarget(b + 3, m.link);
    TestJumpStep(c, m, lo, d + 1, b, e.operand, e.low, Ge, b + 3, !jn, s + [x], x, y);
    if Taken(l, !jn, true) {
      Goes2(c, m, lo, s, b, s + [x] + [x] + [y], b + 3, s + [x]);
      Pushing(c, m, lo, d + 1, b + 3, d, e.high, ck', s + [x]);
      Goes2(c, m, lo, s, b + 3, s + [x], d, s + [x] + [z]);
      TestJumpStep(c, m, lo, d + 1, d, e.operand, e.high, Gt, dest, jn, s, x, z);
      Goes2(c, m, lo, s, d, s + [x] + [z], if Taken(h, jn, true) then Target(dest, m.link) else d + 1, s);
    } else {
      Goes2(c, m, lo, s, b, s + [x] + [x] + [y], b + 1, s + [x]);
      PopStep(c, m, lo, d + 1, b + 1, s, x);
      Goes2(c, m, lo, s, b + 1, s + [x], b + 2, s);
      GotoStep(c, m, lo, d + 1, b + 2, s);
      Goes2(c, m, lo, s, b + 2, s, Target(dest, m.link), s);
    }
  }

  lemma JumpBetweenFalse(c: Emitted, lo: int, a: int, b: int, d: int, e: Expr, dest: int, jn: bool, ck: nat)
    requires e.Between?
    requires BetweenFalseCode(c, lo, a, b, d, e, dest, jn, ck)
    ensures Jumps(c, lo, d + 1, e, dest, jn, false, ck)
  {
    hide Reaches, Linked, Goes, CompareOp, Change, Target, BetweenFalseCode, Within;
    var hi := d + 1;
    forall m, s | Linked(m, c, lo, hi) ensures JumpsOn(c, m, lo, hi, e, dest, jn, false, ck, s) {
      if ColumnsCond(e, |s|, ck, InStack) && Target(dest, m.link) > 0 {
        BetweenFalseRun(c, lo, a, b, d, e, dest, jn, ck, m, s);
      }
    }
  }

  lemma PositiveTarget(p2: int, link: seq<int>)
    requires p2 >= 0
    ensures Target(p2, link) == p2
  {
  }

  // ----- Argument lists and CASE arms, as far as they are coded.

  ghost predicate ArgsPushed(c: Emitted, lo: int, hi: int, e: Expr, i: nat, ck: nat)
    requires e.Call? && i <= |e.args|
  {
    forall m, s {:trigger ArgsRun(c, m, lo, hi, e, i, ck, s)} :: Linked(m, c, lo, hi) ==>
      ArgsRun(c, m, lo, hi, e, i, ck, s)
  }

  ghost predicate ArgsRun(c: Emitted, m: Image, lo: int, hi: int, e: Expr, i: nat, ck: nat, s: seq<Value>)
    requires e.Call? && i <= |e.args|
  {
    Columns(e, |s|, ck, InStack) ==> Goes(c, m, lo, s, hi, s + ArgsAt(c.world, e, i, s, ck))
  }

  lemma NoArgsYet(c: Emitted, lo: nat, e: Expr, ck: nat)
    requires e.Call?
    ensures ArgsPushed(c, lo, lo, e, 0, ck)
  {
    hide Reaches, Linked;
    forall m, s | Linked(m, c, lo, lo) ensures ArgsRun(c, m, lo, lo, e, 0, ck, s) {
      if Columns(e, |s|, ck, InStack) {
        Stay(c.world.env, m.prog, Running(lo, s));
        assert s + ArgsAt(c.world, e, 0, s, ck) == s;
      }
    }
  }

  lemma OneMoreArg(c: Emitted, c': Emitted, lo: int, mid: int, hi: int, e: Expr, i: nat, ck: nat)
    requires e.Call? && i < |e.args| && ArgsPushed(c, lo, mid, e, i, ck) && Keeps(c, c', lo, mid) && mid <= hi
    requires Pushes(c', mid, hi, e.args[i], Bump(ck, ChangeArgs(e, i)))
    ensures ArgsPushed(c', lo, hi, e, i + 1, ck)
  {
    hide Reaches, Linked, Keeps, Change, Goes, EvalAt, ArgsAt;
    var n := i + 1;
    forall m, s | Linked(m, c', lo, hi) ensures ArgsRun(c', m, lo, hi, e, n, ck, s) {
      if Columns(e, |s|, ck, InStack) {
        PartBefore(m, c, c', lo, mid, hi);
        assert ArgsRun(c, m, lo, mid, e, i, ck, s);
        assert ArgColumns(e, i, |s|, ck, InStack);
        var t := s + ArgsAt(c.world, e, i, s, ck);
        var v := EvalAt(c.world, e.args[i], t, Bump(ck, ChangeArgs(e, i)));
        SameGoing(c, c', m, lo, s, mid, t);
        Pushing(c', m, lo, hi, mid, hi, e.args[i], Bump(ck, ChangeArgs(e, i)), t);
        Goes2(c', m, lo, s, mid, t, hi, t + [v]);
        LongerArgs(c.world, e, i, s, ck);
      }
    }
  }

  lemma LongerArgs(w: World, e: Expr, i: nat, s: seq<Value>, ck: nat)
    requires e.Call? && i < |e.args|
    ensures var t := s + ArgsAt(w, e, i, s, ck);
      t + [EvalAt(w, e.args[i], t, Bump(ck, ChangeArgs(e, i)))] == s + ArgsAt(w, e, i + 1, s, ck)
  {
  }

  lemma PartBefore(m: Image, c: Emitted, c': Emitted, lo: int, mid: int, hi: int)
    requires Keeps(c, c', lo, mid) && Linked(m, c', lo, hi) && mid <= hi
    ensures Linked(m, c, lo, mid) && c.world == c'.world && lo <= mid <= hi
  {
  }

  lemma CodedCall(c: Emitted, lo: int, at: int, e: Expr, ck: nat)
    requires e.Call? && 0 <= lo <= at < |c.ops| && ArgsPushed(c, lo, at, e, |e.args|, ck)
    requires c.ops[at] == Op(OpFunction, 0, |e.args|, Operator(e.f))
    ensures Pushes(c, lo, at + 1, e, ck)
  {
    hide Reaches, Columns, ArgsAt, Change, Linked, Goes;
    var hi := at + 1;
    forall m, s | Linked(m, c, lo, hi) ensures PushesOn(c, m, lo, hi, e, ck, s) {
      if Columns(e, |s|, ck, InStack) {
        var args := ArgsAt(c.world, e, |e.args|, s, ck);
        LinkedPart(m, c, lo, at + 1, lo, at);
        assert ArgsRun(c, m, lo, at, e, |e.args|, ck, s);
        At(c, m, lo, at + 1, at, s + args);
        assert (s + args)[..|s|] == s && (s + args)[|s|..] == args;
        Goes2(c, m, lo, s, at, s + args, at + 1, s + [EvalAt(c.world, e, s, ck)]);
      }
    }
  }

  // The first i arms are coded: either one of them was picked and control is at the end label,
  // or the base is on the stack and the rest of the arms decide.
  ghost predicate ArmsCoded(c: Emitted, lo: int, hi: int, e: Expr, i: nat, end: int, ck: nat)
    requires e.Case? && i <= |e.arms|
  {
    forall m, s {:trigger ArmsRun(c, m, lo, hi, e, i, end, ck, s)} :: Linked(m, c, lo, hi) ==>
      ArmsRun(c, m, lo, hi, e, i, end, ck, s)
  }

  ghost predicate ArmsRun(c: Emitted, m: Image, lo: int, hi: int, e: Expr, i: nat, end: int, ck: nat, s: seq<Value>)
    requires e.Case? && i <= |e.arms|
  {
    Columns(e, |s|, ck, InStack) && Target(end, m.link) > 0 ==>
    var vb, ck' := BaseAt(c.world, e, s, ck), Bump(ck, BaseChange(e));
    if Goes(c, m, lo, s, hi, s + vb) && ArmsAt(c.world, e, i, s, vb, ck') == EvalAt(c.world, e, s, ck) then true
    else Goes(c, m, lo, s, Target(end, m.link), s + [EvalAt(c.world, e, s, ck)])
  }

  lemma NoArmsYet(c: Emitted, lo: nat, hi: int, e: Expr, end: int, ck: nat)
    requires e.Case? && if e.base.Some? then Pushes(c, lo, hi, e.base.value, ck) else lo == hi
    ensures ArmsCoded(c, lo, hi, e, 0, end, ck)
  {
    hide Reaches, Linked, Change, ArmsAt;
    forall m, s | Linked(m, c, lo, hi) ensures ArmsRun(c, m, lo, hi, e, 0, end, ck, s) {
      if Columns(e, |s|, ck, InStack) && Target(end, m.link) > 0 {
        assert e.base.Some? ==> PushesOn(c, m, lo, hi, e.base.value, ck, s);
        Stay(c.world.env, m.prog, Running(lo, s));
        assert s + [] == s;
      }
    }
  }

  // With a base: cond; Dup 1; Ne next; Pop 1; result; Goto end. Without: cond; IfNot next; result;
  // Goto end. p is the end of cond, q the start of result, r its end.
  ghost predicate ArmCode(c: Emitted, lo: int, p: int, q: int, r: int, e: Expr, i: nat, end: int, ck: nat)
    requires e.Case? && i < |e.arms|
  {
    && 0 <= lo <= p < q <= r < |c.ops| && Pushes(c, lo, p, e.arms[i].cond, ck)
    && Pushes(c, q, r, e.arms[i].result, Bump(ck, Change(e.arms[i].cond))) && c.ops[r] == Op(OpGoto, 0, end, NoP3)
    && if e.base.Some? then
         && q == p + 3 && c.ops[p] == Op(OpDup, 1, 1, NoP3) && c.ops[p + 2] == Op(OpPop, 1, 0, NoP3)
         && c.ops[p + 1] == CompareOp(c.world, e.base.value, e.arms[i].cond, Ne, r + 1, true)
       else q == p + 1 && c.ops[p] == Op(OpIfNot, 1, r + 1, NoP3)
  }

  // From the base on the stack to the result at the end, or to the next arm with the base kept.
  lemma ArmTested(c: Emitted, m: Image, start: int, lo: int, p: int, q: int, r: int, e: Expr, i: nat, end: int,
      ck: nat, s: seq<Value>, vb: seq<Value>)
    requires e.Case? && i < |e.arms| && ArmCode(c, lo, p, q, r, e, i, end, ck) && start <= lo && Symmetric(c.world)
    requires Linked(m, c, start, r + 1)
    requires |vb| == (if e.base.Some? then 1 else 0) && Columns(e.arms[i].cond, |s + vb|, ck, InStack)
    ensures var t := s + vb;
      var vw := EvalAt(c.world, e.arms[i].cond, t, ck);
      if Picked(c.world, e, i, if e.base.Some? then vb[0] else Null, vw)
      then Goes(c, m, lo, t, q, s) else Goes(c, m, lo, t, r + 1, t)
  {
    hide Reaches, Linked, Goes, CompareOp, Change, Target, Execute, Pushes, Columns, EvalAt, RealOf;
    var t := s + vb;
    var vw := EvalAt(c.world, e.arms[i].cond, t, ck);
    Pushing(c, m, start, r + 1, lo, p, e.arms[i].cond, ck, t);
    PositiveTarget(r + 1, m.link);
    if e.base.Some? {
      var b := vb[0];
      assert t == s + [b];
      PushStep(c, m, start, r + 1, p, t + [vw]);
      assert Pushed(c.world.env, c.ops[p], t + [vw]) == b;
      Goes2(c, m, lo, t, p, t + [vw], p + 1, t + [vw] + [b]);
      TestJumpStep(c, m, start, r + 1, p + 1, e.base.value, e.arms[i].cond, Ne, r + 1, true, t, vw, b);
      var rule := c.world.rule(e.base.value, e.arms[i].cond);
      assert c.world.env.compare(rule, vw, b) == 0 <==> c.world.env.compare(rule, b, vw) == 0;
      if Picked(c.world, e, i, b, vw) {
        Goes2(c, m, lo, t, p + 1, t + [vw] + [b], p + 2, t);
        PopStep(c, m, start, r + 1, p + 2, s, b);
        Goes2(c, m, lo, t, p + 2, t, q, s);
      } else {
        Goes2(c, m, lo, t, p + 1, t + [vw] + [b], r + 1, t);
      }
    } else {
      assert t == s;
      BranchStep(c, m, start, r + 1, p, s, vw);
      Goes2(c, m, lo, t, p, t + [vw], if Picked(c.world, e, i, Null, vw) then q else r + 1, t);
    }
  }

  lemma ArmTaken(c: Emitted, m: Image, start: int, lo: int, p: int, q: int, r: int, e: Expr, i: nat, end: int, ck: nat,
      s: seq<Value>)
    requires e.Case? && i < |e.arms| && ArmCode(c, lo, p, q, r, e, i, end, ck) && start <= lo &&
      Linked(m, c, start, r + 1)
    requires Columns(e.arms[i].result, |s|, Bump(ck, Change(e.arms[i].cond)), InStack) && Target(end, m.link) > 0
    ensures Goes(c, m, q, s, Target(end, m.link),
      s + [EvalAt(c.world, e.arms[i].result, s, Bump(ck, Change(e.arms[i].cond)))])
  {
    hide Reaches, Linked, Goes, CompareOp, Change, Target, Execute, Pushes, Columns, EvalAt;
    var v := EvalAt(c.world, e.arms[i].result, s, Bump(ck, Change(e.arms[i].cond)));
    Pushing(c, m, start, r + 1, q, r, e.arms[i].result, Bump(ck, Change(e.arms[i].cond)), s);
    GotoStep(c, m, start, r + 1, r, s + [v]);
    Goes2(c, m, q, s, r, s + [v], Target(end, m.link), s + [v]);
  }

  lemma OneMoreArm(c: Emitted, c': Emitted, start: int, lo: int, p: int, q: int, r: int, e: Expr, i: nat, end: int,
      ck: nat)
    requires e.Case? && i < |e.arms| && ArmsCoded(c, start, lo, e, i, end, ck) && Keeps(c, c', start, lo) &&
      Symmetric(c.world)
    requires ArmCode(c', lo, p, q, r, e, i, end, Bump(Bump(ck, BaseChange(e)), ChangeArms(e, i)))
    ensures ArmsCoded(c', start, r + 1, e, i + 1, end, ck)
  {
    hide Reaches, Linked, Goes, CompareOp, Change, Target, Keeps, EvalAt, BaseAt, Symmetric, Picked;
    var hi := r + 1;
    var n := i + 1;
    forall m, s | Linked(m, c', start, hi) ensures ArmsRun(c', m, start, hi, e, n, end, ck, s) {
      if Columns(e, |s|, ck, InStack) && Target(end, m.link) > 0 {
        PartBefore(m, c, c', start, lo, r + 1);
        assert ArmsRun(c, m, start, lo, e, i, end, ck, s);
        var vb, ck0 := BaseAt(c.world, e, s, ck), Bump(ck, BaseChange(e));
        var t, ck' := s + vb, Bump(ck0, ChangeArms(e, i));
        assert ArmColumns(e, i, |s|, ck', InStack);
        ArmTested(c', m, start, lo, p, q, r, e, i, end, ck', s, vb);
        if Goes(c, m, start, s, lo, t) && ArmsAt(c.world, e, i, s, vb, ck0) == EvalAt(c.world, e, s, ck) {
          SameGoing(c, c', m, start, s, lo, t);
          if Picked(c.world, e, i, if e.base.Some? then vb[0] else Null, EvalAt(c.world, e.arms[i].cond, t, ck')) {
            Goes2(c', m, start, s, lo, t, q, s);
            ArmTaken(c', m, start, lo, p, q, r, e, i, end, ck', s);
            Goes2(c', m, start, s, q, s, Target(end, m.link),
              s + [EvalAt(c.world, e.arms[i].result, s, Bump(ck', Change(e.arms[i].cond)))]);
          } else {
            Goes2(c', m, start, s, lo, t, r + 1, t);
          }
        } else {
          SameGoing(c, c', m, start, s, Target(end, m.link), s + [EvalAt(c.world, e, s, ck)]);
        }
      }
    }
  }

  lemma SameGoing(c: Emitted, c': Emitted, m: Image, p: int, s: seq<Value>, q: int, t: seq<Value>)
    requires c.world == c'.world && Goes(c, m, p, s, q, t)
    ensures Goes(c', m, p, s, q, t)
  {
  }

  // After the last arm: drop the base, then ELSE or NULL; the end label is here.
  lemma CodedCase(c: Emitted, c': Emitted, lo: int, a: int, b: int, hi: int, e: Expr, end: int, ck: nat)
    requires e.Case? && ArmsCoded(c, lo, a, e, |e.arms|, end, ck) && Keeps(c, c', lo, a)
    requires 0 <= lo <= a <= b <= hi <= |c'.ops| && b == (if e.base.Some? then a + 1 else a)
    requires e.base.Some? ==> a < hi && c'.ops[a] == Op(OpPop, 1, 0, NoP3)
    requires if e.otherwise.Some? then
      Pushes(c', b, hi, e.otherwise.value, Bump(Bump(ck, BaseChange(e)), ChangeArms(e, |e.arms|)))
             else hi == b + 1 && c'.ops[b] == Op(OpNull, 0, 0, NoP3)
    requires end < 0 && -1 - end < |c'.labels| && c'.labels[-1 - end] == hi && hi > 0
    ensures Pushes(c', lo, hi, e, ck)
  {
    hide Reaches, Linked, Goes, Change, Target, Keeps;
    forall m, s | Linked(m, c', lo, hi) ensures PushesOn(c', m, lo, hi, e, ck, s) {
      if Columns(e, |s|, ck, InStack) {
        LabelTarget(m, c', lo, hi, end);
        PartBefore(m, c, c', lo, a, hi);
        assert ArmsRun(c, m, lo, a, e, |e.arms|, end, ck, s);
        var vb, ck' := BaseAt(c.world, e, s, ck), Bump(ck, BaseChange(e));
        var t, v := s + vb, ArmsAt(c.world, e, |e.arms|, s, vb, ck');
        if Goes(c, m, lo, s, a, t) && v == EvalAt(c.world, e, s, ck) {
          SameGoing(c, c', m, lo, s, a, t);
          if e.base.Some? {
            assert t == s + [vb[0]];
            PopStep(c', m, lo, hi, a, s, vb[0]);
            Goes2(c', m, lo, s, a, t, b, s);
          } else {
            assert t == s;
          }
          if e.otherwise.Some? {
            Pushing(c', m, lo, hi, b, hi, e.otherwise.value, Bump(Bump(ck, BaseChange(e)), ChangeArms(e, |e.arms|)), s);
          } else {
            PushStep(c', m, lo, hi, b, s);
          }
          Goes2(c', m, lo, s, b, s, hi, s + [v]);
        } else {
          SameGoing(c, c', m, lo, s, hi, s + [EvalAt(c.world, e, s, ck)]);
        }
      }
    }
  }

  lemma PrefixKept(c: Emitted, c': Emitted, lo: int, hi: int)
    requires c'.world == c.world && 0 <= lo <= hi <= |c.ops| && c.ops <= c'.ops && c.labels <= c'.labels
    ensures Keeps(c, c', lo, hi)
  {
  }

  lemma PushesPrefix(c: Emitted, c': Emitted, lo: int, hi: int, e: Expr, ck: nat)
    requires Pushes(c, lo, hi, e, ck) && c'.world == c.world && 0 <= lo <= hi <= |c.ops| && c.ops <= c'.ops &&
      c.labels <= c'.labels
    ensures Pushes(c', lo, hi, e, ck)
  {
    hide Pushes, Keeps;
    PrefixKept(c, c', lo, hi);
    PushesKept(c, c', lo, hi, e, ck);
  }

  lemma ArgsKept(c: Emitted, c': Emitted, lo: int, hi: int, e: Expr, ck: nat)
    requires e.Call? && ArgsPushed(c, lo, hi, e, |e.args|, ck) && Keeps(c, c', lo, hi)
    ensures ArgsPushed(c', lo, hi, e, |e.args|, ck)
  {
    hide Reaches, Linked, Keeps, Change, Goes, Columns, EvalAt, ArgsAt;
    forall m, s | Linked(m, c', lo, hi) ensures ArgsRun(c', m, lo, hi, e, |e.args|, ck, s) {
      if Columns(e, |s|, ck, InStack) {
        PartBefore(m, c, c', lo, hi, hi);
        assert ArgsRun(c, m, lo, hi, e, |e.args|, ck, s);
        SameGoing(c, c', m, lo, s, hi, s + ArgsAt(c.world, e, |e.args|, s, ck));
      }
    }
  }

  // Patching or appending outside lo..p and q..r.
  lemma KeptApart(c: Emitted, c': Emitted, c'': Emitted, lo: int, p: int, q: int, r: int)
    requires c'.world == c.world && c''.world == c'.world && 0 <= lo <= p == |c.ops| && p <= q <= r == |c'.ops| &&
      r <= |c''.ops|
    requires c.ops <= c'.ops && c.labels <= c'.labels <= c''.labels
    requires forall i :: 0 <= i < r && (i < p || q <= i) ==> c''.ops[i] == c'.ops[i]
    ensures Keeps(c, c'', lo, p) && Keeps(c', c'', q, r)
  {
  }

  // Resolving a label that was open keeps all code.
  lemma LabelResolved(c: Emitted, c': Emitted, c'': Emitted, lo: int, a: int, b: int)
    requires c'.world == c.world == c''.world && 0 <= lo <= a <= |c.ops| && c.ops <= c'.ops && c.labels <= c'.labels
    requires c''.ops == c'.ops && a <= b <= |c'.ops| && |c''.labels| == |c'.labels|
    requires forall j :: 0 <= j < |c'.labels| && c'.labels[j] != -1 ==> c''.labels[j] == c'.labels[j]
    ensures Keeps(c, c'', lo, a) && Keeps(c', c'', b, |c'.ops|)
  {
  }

  lemma TwoTestsKept(c: Emitted, c': Emitted, c'': Emitted, lo: int, mid: int)
    requires c'.world == c.world == c''.world && 0 <= lo <= mid == |c.ops| && c.ops <= c'.ops && c.labels <= c'.labels
    requires c''.ops == c'.ops && |c''.labels| == |c'.labels|
    requires forall j :: 0 <= j < |c'.labels| && c'.labels[j] != -1 ==> c''.labels[j] == c'.labels[j]
    ensures Keeps(c, c'', lo, mid) && Keeps(c', c'', mid, |c'.ops|)
  {
  }

  // Patching the comparison at b.
  lemma PatchedLow(c: Emitted, c': Emitted, c'': Emitted, lo: int, a: int, b: int, d: int)
    requires c'.world == c.world == c''.world && 0 <= lo <= a < b == |c.ops| && b + 1 <= d == |c'.ops| && d <= |c''.ops|
    requires c.ops <= c'.ops && c.labels <= c'.labels <= c''.labels
    requires forall i :: 0 <= i < d && i != b ==> c''.ops[i] == c'.ops[i]
    ensures Keeps(c, c'', lo, a) && Keeps(c, c'', a + 1, b) && Keeps(c', c'', b + 1, d)
  {
  }

  lemma LiteralMeans(w: World, e: Expr)
    requires e.Literal? || Folds(e)
    ensures forall s, k ::
      LiteralValue(if e.Literal? then e.v else SqlMachine.Negate(w.env, e.operand.v)) == EvalAt(w, e, s, k)
    ensures Counted(e) == 0
  {
  }

  lemma ColumnMeans(w: World, e: Expr, op: Op)
    requires e.Column? && op == Op(OpColumn, e.table, e.col, NoP3)
    ensures forall s, k :: Pushed(w.env, op, []) == EvalAt(w, e, s, k)
  {
  }

  lemma CodedPlus(c: Emitted, lo: int, hi: int, a: Expr, ck: nat)
    requires Pushes(c, lo, hi, a, ck)
    ensures Pushes(c, lo, hi, Plus(a), ck)
  {
    hide Goes, Linked;
    forall m, s | Linked(m, c, lo, hi) ensures PushesOn(c, m, lo, hi, Plus(a), ck, s) {
      assert PushesOn(c, m, lo, hi, a, ck, s);
    }
  }

  // The last step of sqlite3ExprCode adds stackChng to what the operands counted.
  lemma ChangeBy(e: Expr, stackChng: int)
    requires stackChng == match e
      case Plus(_) | Unary(_, _) | Not(_) | IsNull(_) | NotNull(_) => 0
      case Minus(_) => if Folds(e) then 1 else 0
      case Binary(_, _, _) | And(_, _) | Or(_, _) | Compare(_, _, _) => -1
      case Call(_, args) => 1 - |args|
      case _ => 1
    ensures Change(e) == Counted(e) + stackChng
  {
  }

  function Counted(e: Expr): nat {
    match e
    case Literal(_) | Column(_, _) | CheckColumn(_) => 0
    case Plus(a) => Change(a)
    case Minus(a) => if Folds(e) then 0 else Change(a)
    case Unary(_, a) => Change(a)
    case Not(a) => Change(a)
    case IsNull(a) => Change(a)
    case NotNull(a) => Change(a)
    case Binary(_, a, b) => Change(a) + Change(b)
    case Compare(_, a, b) => Change(a) + Change(b)
    case And(a, b) => Change(a) + Change(b)
    case Or(a, b) => Change(a) + Change(b)
    case Call(_, args) => ChangeArgs(e, |args|)
    case Between(a, b, c) => Change(a) + Change(b) + Change(c)
    case Case(_, arms, o) => BaseChange(e) + ChangeArms(e, |arms|) + (if o.Some? then Change(o.value) else 0)
  }

  const SQLITE_CONSTRAINT := 19
  const OE_ABORT := 2

  // Instructions lo..hi go on with the stack unchanged if the condition is sense, or is NULL and ifNull is
  // set, and otherwise halt.
  ghost predicate Guards(c: Emitted, lo: int, hi: int, e: Expr, ifNull: bool, sense: bool, ck: nat) {
    forall m, s {:trigger GuardsOn(c, m, lo, hi, e, ifNull, sense, ck, s)} ::
      Linked(m, c, lo, hi) ==> GuardsOn(c, m, lo, hi, e, ifNull, sense, ck, s)
  }

  ghost predicate GuardsOn(c: Emitted, m: Image, lo: int, hi: int, e: Expr, ifNull: bool, sense: bool, ck: nat,
      s: seq<Value>) {
    0 <= lo && 0 <= hi && (ColumnsCond(e, |s|, ck, InStack) ==>
      Reaches(c.world.env, m.prog, Running(lo, s),
        if Taken(CondAt(c.world, e, s, ck), ifNull, sense) then Running(hi, s) else Halted))
  }

  lemma CodedGuard(c: Emitted, lo: int, at: int, e: Expr, allOk: int, ifNull: bool, sense: bool, ck: nat)
    requires 0 <= lo <= at < |c.ops| && Jumps(c, lo, at, e, allOk, ifNull, sense, ck) && c.ops[at].opcode == OpHalt
    requires allOk < 0 && -1 - allOk < |c.labels| && c.labels[-1 - allOk] == at + 1
    ensures Guards(c, lo, at + 1, e, ifNull, sense, ck)
  {
    hide ColumnsCond, CondAt, Target, Taken;
    var hi := at + 1;
    forall m, s | Linked(m, c, lo, hi) ensures GuardsOn(c, m, lo, hi, e, ifNull, sense, ck, s) {
      if ColumnsCond(e, |s|, ck, InStack) {
        LabelTarget(m, c, lo, hi, allOk);
        Jumping(c, m, lo, hi, lo, at, e, allOk, ifNull, sense, ck, s);
        if !Taken(CondAt(c.world, e, s, ck), ifNull, sense) {
          OneStep(c.world.env, m.prog, Running(at, s), Halted);
          Chain(c.world.env, m.prog, Running(lo, s), Running(at, s), Halted);
        }
      }
    }
  }

  lemma WholeProgram(c: Emitted, prog: seq<Op>, e: Expr, ifNull: bool, sense: bool, ck: nat, s: seq<Value>)
    requires Guards(c, 0, |c.ops|, e, ifNull, sense, ck) && |prog| == |c.ops|
    requires forall i :: 0 <= i < |prog| ==> prog[i] == Resolve(c.ops[i], c.labels)
    requires ColumnsCond(e, |s|, ck, InStack)
    ensures Reaches(c.world.env, prog, Running(0, s),
      if Taken(CondAt(c.world, e, s, ck), ifNull, sense) then Running(|prog|, s) else Halted)
  {
    hide ColumnsCond, CondAt, Reaches, Taken;
    var m := Image(prog, c.labels);
    assert Linked(m, c, 0, |c.ops|);
    assert GuardsOn(c, m, 0, |c.ops|, e, ifNull, sense, ck, s);
  }

  // ----- Jump code in terms of what its condition means.

  ghost predicate Decides(c: Emitted, lo: int, hi: int, e: Expr, dest: int, jumpIfNull: bool, sense: bool) {
    forall m, s, row {:trigger DecidesOn(c, m, lo, hi, e, dest, jumpIfNull, sense, s, row)} ::
      Linked(m, c, lo, hi) ==> DecidesOn(c, m, lo, hi, e, dest, jumpIfNull, sense, s, row)
  }

  ghost predicate DecidesOn(c: Emitted, m: Image, lo: int, hi: int, e: Expr, dest: int, jumpIfNull: bool, sense: bool,
      s: seq<Value>, row: seq<Value>) {
    Target(dest, m.link) > 0 ==>
      Goes(c, m, lo, s, if Taken(EvalCond(c.world, row, e), jumpIfNull, sense) then Target(dest, m.link) else hi, s)
  }

  // Outside CHECK constraints jump code decides by the three-valued meaning of its condition.
  lemma JumpsByMeaning(c: Emitted, lo: int, hi: int, e: Expr, dest: int, jumpIfNull: bool, sense: bool, ck: nat)
    requires Jumps(c, lo, hi, e, dest, jumpIfNull, sense, ck) && Free(e)
    ensures Decides(c, lo, hi, e, dest, jumpIfNull, sense)
  {
    hide Free, Goes, Linked, Target, Taken, CondAt, EvalCond, ColumnsCond;
    forall m, s, row | Linked(m, c, lo, hi) ensures DecidesOn(c, m, lo, hi, e, dest, jumpIfNull, sense, s, row) {
      FreeCondition(c.world, e, s, ck, row, InStack);
      assert JumpsOn(c, m, lo, hi, e, dest, jumpIfNull, sense, ck, s);
    }
  }

  // The parsing context: the program under construction, its labels, and ckOffset, which is the
  // depth of the checked row while a CHECK constraint is coded and 0 otherwise.
  class Parse {
    const world: World
    var aOp: seq<Op>
    var aLabel: seq<int>
    var ckOffset: nat

    ghost function Code(): Emitted
      reads this
    {
      Emitted(world, aOp, aLabel)
    }

    // Every label used as an operand has been made.
    ghost predicate InRange()
      reads this`aOp, this`aLabel
    {
      forall i :: 0 <= i < |aOp| ==> -1 - aOp[i].p2 < |aLabel|
    }

    constructor (world: World)
      ensures this.world == world && aOp == [] && aLabel == [] && ckOffset == 0 && InRange()
    {
      this.world, aOp, aLabel, ckOffset := world, [], [], 0;
    }

    // ----- vdbeaux.c

    method AddOp(opcode: Opcode, p1: int, p2: int, p3: P3) returns (addr: nat)
      requires InRange() && -1 - p2 < |aLabel|
      modifies this`aOp
      ensures addr == |old(aOp)| && aOp == old(aOp) + [Op(opcode, p1, p2, p3)] && InRange()
    {
      addr := |aOp|;
      aOp := aOp + [Op(opcode, p1, p2, p3)];
    }

    method MakeLabel() returns (x: int)
      requires InRange()
      modifies this`aLabel
      ensures x == -1 - |old(aLabel)| && aLabel == old(aLabel) + [-1] && InRange()
    {
      x := -1 - |aLabel|;
      aLabel := aLabel + [-1];
    }

    method ResolveLabel(x: int)
      requires InRange() && 0 <= -1 - x < |aLabel|
      modifies this`aLabel
      ensures aLabel == old(aLabel)[-1 - x := |aOp|] && InRange()
    {
      aLabel := aLabel[-1 - x := |aOp|];
    }

    method JumpHere(addr: nat)
      requires InRange() && addr < |aOp|
      modifies this`aOp
      ensures aOp == old(aOp)[addr := old(aOp)[addr].(p2 := |old(aOp)|)] && InRange()
    {
      aOp := aOp[addr := aOp[addr].(p2 := |aOp|)];
    }

    // Replace every label by its address.
    method ResolveP2Values()
      requires InRange()
      modifies this`aOp
      ensures |aOp| == |old(aOp)| && forall i :: 0 <= i < |aOp| ==> aOp[i] == Resolve(old(aOp)[i], aLabel)
    {
      var i := 0;
      while i < |aOp|
        invariant i <= |aOp| == |old(aOp)|
        invariant forall k :: 0 <= k < i ==> aOp[k] == Resolve(old(aOp)[k], aLabel)
        invariant forall k :: i <= k < |aOp| ==> aOp[k] == old(aOp)[k]
      {
        if aOp[i].p2 < 0 {
          aOp := aOp[i := aOp[i].(p2 := aLabel[-1 - aOp[i].p2])];
        }
        i := i + 1;
      }
    }

    // ----- expr.c

    // The program only grew, by at least one instruction.
    twostate predicate Longer()
      reads this
    {
      old(aOp) < aOp && old(aLabel) <= aLabel && InRange()
    }

    twostate predicate Coded(e: Expr, counted: nat)
      reads this
    {
      Longer() && ckOffset == Bump(old(ckOffset), counted) && Pushes(Code(), |old(aOp)|, |aOp|, e, old(ckOffset))
    }

    method CodeLiteral(v: Value, ghost e: Expr)
      requires forall s, k :: LiteralValue(v) == EvalAt(world, e, s, k)
      requires Counted(e) == 0 && InRange()
      modifies this`aOp
      ensures Coded(e, Counted(e))
    {
      hide Pushes, Jumps, Linked, Keeps, Change, EvalAt, CondAt, Columns, ColumnsCond, Goes, Target, Symmetric, InRange;
      ghost var lo := |aOp|;
      if v.Null? {
        var addr := AddOp(OpNull, 0, 0, NoP3);
      } else if v.Int? && -0x7FFF_FFFF <= v.i <= 0x7FFF_FFFF {
        var addr := AddOp(OpInteger, v.i, 0, NoP3);
      } else if v.Int? && -0x7FFF_FFFF_FFFF_FFFF <= v.i <= 0x7FFF_FFFF_FFFF_FFFF {
        var addr := AddOp(OpLiteral, 0, 0, Constant(v));
      } else if v.Int? {
        var addr := AddOp(OpLiteral, 0, 0, Constant(Real(v.i as real)));
      } else {
        var addr := AddOp(OpLiteral, 0, 0, Constant(v));
      }
      CodedLeaf(Code(), lo, e, ckOffset);
    }

    method CodeCompare(left: Expr, right: Expr, cmp: Comparison, dest: int, jumpIfNull: bool) returns (addr: nat)
      requires InRange() && -1 - dest < |aLabel|
      modifies this`aOp
      ensures addr == |old(aOp)| && aOp == old(aOp) + [CompareOp(world, left, right, cmp, dest, jumpIfNull)] &&
        InRange()
    {
      var rule := world.rule(left, right);
      addr := AddOp(OpTest(cmp), rule.affinity + if jumpIfNull then 0x100 else 0, dest, Collation(rule.collation));
    }

    // Both operands on the stack; mid is where the code of the second begins.
    method CodeOperands(e: Expr) returns (ghost mid: nat)
      requires Symmetric(world) && InRange() && (e.Binary? || e.Compare? || e.And? || e.Or?)
      modifies this
      ensures Longer() && ckOffset == Bump(old(ckOffset), Change(e.left) + Change(e.right)) && |old(aOp)| < mid < |aOp|
      ensures Pushes(Code(), |old(aOp)|, mid, e.left, old(ckOffset))
      ensures Pushes(Code(), mid, |aOp|, e.right, Bump(old(ckOffset), Change(e.left)))
      decreases e, 0
    {
      hide Pushes, Jumps, Linked, Keeps, Change, EvalAt, CondAt, Columns, ColumnsCond, Goes, Target, Symmetric, InRange;
      ghost var lo, ck := |aOp|, ckOffset;
      ExprCode(e.left);
      mid := |aOp|;
      ghost var c := Code();
      ExprCode(e.right);
      PushesPrefix(c, Code(), lo, mid, e.left, ck);
    }

    method CodeOperator(e: Expr)
      requires Symmetric(world) && InRange() && (e.Binary? || e.Compare? || e.And? || e.Or?)
      modifies this
      ensures Coded(e, Counted(e))
      decreases e, 1
    {
      hide Pushes, Jumps, Linked, Keeps, Change, EvalAt, CondAt, Columns, ColumnsCond, Goes, Target, Symmetric, InRange;
      ghost var lo, ck := |aOp|, ckOffset;
      ghost var mid := CodeOperands(e);
      ghost var c, at := Code(), |aOp|;
      if e.Compare? {
        var addr := CodeCompare(e.left, e.right, e.cmp, 0, false);
      } else if e.And? {
        var addr := AddOp(OpAnd, 0, 0, NoP3);
      } else if e.Or? {
        var addr := AddOp(OpOr, 0, 0, NoP3);
      } else {
        var addr := AddOp(OpBinary, 0, 0, Operator(e.f));
      }
      PushesPrefix(c, Code(), lo, mid, e.left, ck);
      PushesPrefix(c, Code(), mid, at, e.right, Bump(ck, Change(e.left)));
      if e.Compare? {
        CodedCompare(Code(), lo, mid, at, e, ck);
      } else {
        CodedCombine(Code(), lo, mid, at, e, e.left, e.right, ck);
      }
    }

    method CodeReplacing(e: Expr)
      requires Symmetric(world) && InRange() && (e.Not? || e.Unary? || (e.Minus? && !Folds(e)))
      modifies this
      ensures Coded(e, Counted(e))
      decreases e, 1
    {
      hide Pushes, Jumps, Linked, Keeps, Change, EvalAt, CondAt, Columns, ColumnsCond, Goes, Target, Symmetric, InRange;
      ghost var lo, ck := |aOp|, ckOffset;
      ExprCode(e.operand);
      ghost var c, at := Code(), |aOp|;
      if e.Not? {
        var addr := AddOp(OpNot, 0, 0, NoP3);
      } else if e.Minus? {
        var addr := AddOp(OpNegative, 0, 0, NoP3);
      } else {
        var addr := AddOp(OpUnary, 0, 0, Operator(e.f));
      }
      PushesPrefix(c, Code(), lo, at, e.operand, ck);
      CodedReplace(Code(), lo, at, e, e.operand, ck);
    }

    method CodeNullTest(e: Expr)
      requires Symmetric(world) && InRange() && (e.IsNull? || e.NotNull?)
      modifies this
      ensures Coded(e, Counted(e))
      decreases e, 1
    {
      hide Pushes, Jumps, Linked, Keeps, Change, EvalAt, CondAt, Columns, ColumnsCond, Goes, Target, Symmetric, InRange;
      ghost var lo, ck := |aOp|, ckOffset;
      var addr := AddOp(OpInteger, 1, 0, NoP3);
      ExprCode(e.operand);
      ghost var c, at := Code(), |aOp|;
      var dest := |aOp| + 2;
      addr := AddOp(if e.IsNull? then OpIsNull else OpNotNull, 1, dest, NoP3);
      addr := AddOp(OpAddImm, -1, 0, NoP3);
      PushesPrefix(c, Code(), lo + 1, at, e.operand, ck);
      CodedNullTest(Code(), lo, at, e, e.operand, ck);
    }

    // operand; Dup; low: the start of every form of BETWEEN.
    method CodeLow(e: Expr) returns (ghost a: nat)
      requires Symmetric(world) && InRange() && e.Between?
      modifies this
      ensures Longer() && ckOffset == Bump(Bump(old(ckOffset), Change(e.operand)), Change(e.low)) &&
        |old(aOp)| < a < |aOp| - 1
      ensures Pushes(Code(), |old(aOp)|, a, e.operand, old(ckOffset)) && aOp[a] == Op(OpDup, 0, 0, NoP3)
      ensures Pushes(Code(), a + 1, |aOp|, e.low, Bump(old(ckOffset), Change(e.operand)))
      decreases e, 0
    {
      hide Pushes, Jumps, Linked, Keeps, Change, EvalAt, CondAt, Columns, ColumnsCond, Goes, Target, Symmetric, InRange;
      ghost var lo, ck := |aOp|, ckOffset;
      ExprCode(e.operand);
      ghost var c := Code();
      a := |aOp|;
      var addr := AddOp(OpDup, 0, 0, NoP3);
      ExprCode(e.low);
      PushesPrefix(c, Code(), lo, a, e.operand, ck);
    }

    method CodeBetween(e: Expr)
      requires Symmetric(world) && InRange() && e.Between?
      modifies this
      ensures Coded(e, Counted(e))
      decreases e, 1
    {
      hide Pushes, Jumps, Linked, Keeps, Change, EvalAt, CondAt, Columns, ColumnsCond, Goes, Target, Symmetric, InRange;
      ghost var lo, ck := |aOp|, ckOffset;
      ghost var a := CodeLow(e);
      ghost var c, b := Code(), |aOp|;
      var addr := CodeCompare(e.operand, e.low, Ge, 0, false);
      addr := AddOp(OpPull, 1, 0, NoP3);
      ExprCode(e.high);
      ghost var c', d := Code(), |aOp|;
      addr := CodeCompare(e.operand, e.high, Le, 0, false);
      addr := AddOp(OpAnd, 0, 0, NoP3);
      PushesPrefix(c, Code(), lo, a, e.operand, ck);
      PushesPrefix(c, Code(), a + 1, b, e.low, Bump(ck, Change(e.operand)));
      PushesPrefix(c', Code(), b + 2, d, e.high, Bump(Bump(ck, Change(e.operand)), Change(e.low)));
      CodedBetween(Code(), lo, a, b, d, e, ck);
    }

    // sqlite3ExprCodeExprList and OP_Function.
    method CodeCall(e: Expr)
      requires Symmetric(world) && InRange() && e.Call?
      modifies this
      ensures Coded(e, Counted(e))
      decreases e, 1
    {
      hide Pushes, Jumps, Linked, Keeps, Change, EvalAt, CondAt, Columns, ColumnsCond, Goes, Target, Symmetric,
        InRange, ArgsPushed;
      ghost var lo, ck := |aOp|, ckOffset;
      NoArgsYet(Code(), lo, e, ck);
      var i := 0;
      while i < |e.args|
        invariant InRange() && i <= |e.args| && old(aOp) <= aOp && old(aLabel) <= aLabel
        invariant ckOffset == Bump(ck, ChangeArgs(e, i)) && ArgsPushed(Code(), lo, |aOp|, e, i, ck)
      {
        ghost var c, mid := Code(), |aOp|;
        ExprCode(e.args[i]);
        PrefixKept(c, Code(), lo, mid);
        OneMoreArg(c, Code(), lo, mid, |aOp|, e, i, ck);
        i := i + 1;
      }
      ghost var c, at := Code(), |aOp|;
      var addr := AddOp(OpFunction, 0, |e.args|, Operator(e.f));
      PrefixKept(c, Code(), lo, at);
      ArgsKept(c, Code(), lo, at, e, ck);
      CodedCall(Code(), lo, at, e, ck);
    }

    // One WHEN and THEN.
    method CodeArm(e: Expr, i: nat, end: int) returns (ghost p: nat, ghost q: nat)
      requires Symmetric(world) && InRange() && e.Case? && i < |e.arms| && -1 - end < |aLabel|
      modifies this
      ensures Longer() && ckOffset == Bump(Bump(old(ckOffset), Change(e.arms[i].cond)), Change(e.arms[i].result))
      ensures ArmCode(Code(), |old(aOp)|, p, q, |aOp| - 1, e, i, end, old(ckOffset))
      decreases e, 0
    {
      hide Pushes, Jumps, Linked, Keeps, Change, EvalAt, CondAt, Columns, ColumnsCond, Goes, Target, Symmetric, InRange;
      ghost var lo, ck := |aOp|, ckOffset;
      ExprCode(e.arms[i].cond);
      ghost var c := Code();
      p := |aOp|;
      var jumpInst: nat;
      if e.base.Some? {
        var addr := AddOp(OpDup, 1, 1, NoP3);
        jumpInst := CodeCompare(e.base.value, e.arms[i].cond, Ne, 0, true);
        addr := AddOp(OpPop, 1, 0, NoP3);
      } else {
        jumpInst := AddOp(OpIfNot, 1, 0, NoP3);
      }
      q := |aOp|;
      ExprCode(e.arms[i].result);
      ghost var c', r := Code(), |aOp|;
      var addr := AddOp(OpGoto, 0, end, NoP3);
      JumpHere(jumpInst);
      PrefixKept(c, c', lo, p);
      assert Keeps(c, Code(), lo, p) && Keeps(c', Code(), q, r) by { KeptApart(c, c', Code(), lo, p, q, r); }
      PushesKept(c, Code(), lo, p, e.arms[i].cond, ck);
      PushesKept(c', Code(), q, r, e.arms[i].result, Bump(ck, Change(e.arms[i].cond)));
    }

    // Drop the base, then ELSE or NULL.
    method CodeOtherwise(e: Expr) returns (ghost b: nat)
      requires Symmetric(world) && InRange() && e.Case?
      modifies this
      ensures Longer() && |old(aOp)| <= b < |aOp| && b == (if e.base.Some? then |old(aOp)| + 1 else |old(aOp)|)
      ensures ckOffset == Bump(old(ckOffset), if e.otherwise.Some? then Change(e.otherwise.value) else 0)
      ensures e.base.Some? ==> aOp[|old(aOp)|] == Op(OpPop, 1, 0, NoP3)
      ensures if e.otherwise.Some? then Pushes(Code(), b, |aOp|, e.otherwise.value, old(ckOffset))
              else |aOp| == b + 1 && aOp[b] == Op(OpNull, 0, 0, NoP3)
      decreases e, 0
    {
      hide Pushes, Jumps, Linked, Keeps, Change, EvalAt, CondAt, Columns, ColumnsCond, Goes, Target, Symmetric, InRange;
      if e.base.Some? {
        var addr := AddOp(OpPop, 1, 0, NoP3);
      }
      b := |aOp|;
      if e.otherwise.Some? {
        ExprCode(e.otherwise.value);
      } else {
        var addr := AddOp(OpNull, 0, 0, NoP3);
      }
    }

    method CodeCase(e: Expr)
      requires Symmetric(world) && InRange() && e.Case?
      modifies this
      ensures Coded(e, Counted(e))
      decreases e, 1
    {
      hide Pushes, Jumps, Linked, Keeps, Change, EvalAt, CondAt, Columns, ColumnsCond, Goes, Target, Symmetric,
        InRange, ArmsCoded, ArmCode;
      ghost var lo, ck := |aOp|, ckOffset;
      var end := MakeLabel();
      if e.base.Some? {
        ExprCode(e.base.value);
      }
      NoArmsYet(Code(), lo, |aOp|, e, end, ck);
      var i := 0;
      while i < |e.arms|
        invariant InRange() && i <= |e.arms| && old(aOp) <= aOp && old(aLabel) + [-1] <= aLabel
        invariant ckOffset == Bump(Bump(ck, BaseChange(e)), ChangeArms(e, i)) &&
          ArmsCoded(Code(), lo, |aOp|, e, i, end, ck)
      {
        ghost var c, mid := Code(), |aOp|;
        ghost var p, q := CodeArm(e, i, end);
        PrefixKept(c, Code(), lo, mid);
        OneMoreArm(c, Code(), lo, mid, p, q, |aOp| - 1, e, i, end, ck);
        i := i + 1;
      }
      ghost var c, a := Code(), |aOp|;
      ghost var b := CodeOtherwise(e);
      ghost var c' := Code();
      ResolveLabel(end);
      LabelResolved(c, c', Code(), lo, a, b);
      if e.otherwise.Some? {
        PushesKept(c', Code(), b, |aOp|, e.otherwise.value, Bump(Bump(ck, BaseChange(e)), ChangeArms(e, |e.arms|)));
      }
      CodedCase(c, Code(), lo, a, b, |aOp|, e, end, ck);
    }

    method ExprCode(e: Expr)
      requires Symmetric(world) && InRange()
      modifies this
      ensures Coded(e, Change(e))
      decreases e, 2
    {
      hide Pushes, Jumps, Linked, Keeps, Change, EvalAt, CondAt, Columns, ColumnsCond, Goes, Target, Symmetric, InRange;
      var stackChng := 1;
      match e {
      case Literal(v) =>
        LiteralMeans(world, e);
        CodeLiteral(v, e);
      case Column(t, c) =>
        var addr := AddOp(OpColumn, t, c, NoP3);
        ColumnMeans(world, e, aOp[addr]);
        CodedLeaf(Code(), addr, e, ckOffset);
      case CheckColumn(k) =>
        var addr := AddOp(OpDup, ckOffset - k - 1, 1, NoP3);
        CodedCheckColumn(Code(), addr, k, ckOffset);
      case Plus(a) =>
        ghost var lo, ck := |aOp|, ckOffset;
        ExprCode(a);
        CodedPlus(Code(), lo, |aOp|, a, ck);
        stackChng := 0;
      case Minus(a) =>
        if a.Literal? && (a.v.Int? || a.v.Real?) {
          LiteralMeans(world, e);
          CodeLiteral(SqlMachine.Negate(world.env, a.v), e);
        } else {
          CodeReplacing(e);
          stackChng := 0;
        }
      case Unary(_, _) =>
        CodeReplacing(e);
        stackChng := 0;
      case Not(_) =>
        CodeReplacing(e);
        stackChng := 0;
      case Binary(_, _, _) =>
        CodeOperator(e);
        stackChng := -1;
      case And(_, _) =>
        CodeOperator(e);
        stackChng := -1;
      case Or(_, _) =>
        CodeOperator(e);
        stackChng := -1;
      case Compare(_, _, _) =>
        CodeOperator(e);
        stackChng := -1;
      case IsNull(_) =>
        CodeNullTest(e);
        stackChng := 0;
      case NotNull(_) =>
        CodeNullTest(e);
        stackChng := 0;
      case Call(_, args) =>
        CodeCall(e);
        stackChng := 1 - |args|;
      case Between(_, _, _) =>
        CodeBetween(e);
      case Case(_, _, _) =>
        CodeCase(e);
      }
      ChangeBy(e, stackChng);
      if ckOffset != 0 {
        ckOffset := ckOffset + stackChng;
      }
    }

    // The code tests e and, one way or the other, leaves stack and ckOffset as they were.
    twostate predicate Tested(e: Expr, dest: int, jumpIfNull: bool, sense: bool)
      reads this
    {
      && Longer() && ckOffset == old(ckOffset)
      && Jumps(Code(), |old(aOp)|, |aOp|, e, dest, jumpIfNull, sense, ckOffset)
      && (Free(e) ==> Decides(Code(), |old(aOp)|, |aOp|, e, dest, jumpIfNull, sense))
    }

    method TestCompare(e: Expr, dest: int, jumpIfNull: bool, sense: bool)
      requires Symmetric(world) && InRange() && e.Compare? && -1 - dest < |aLabel|
      modifies this
      ensures Longer() && Jumps(Code(), |old(aOp)|, |aOp|, e, dest, jumpIfNull, sense, old(ckOffset))
      decreases e, 3
    {
      hide Pushes, Jumps, Linked, Keeps, Change, EvalAt, CondAt, Columns, ColumnsCond, Goes, Target, Symmetric, InRange;
      ghost var lo, ck := |aOp|, ckOffset;
      ghost var mid := CodeOperands(e);
      ghost var c, at := Code(), |aOp|;
      var addr := CodeCompare(e.left, e.right, if sense then e.cmp else Inverse(e.cmp), dest, jumpIfNull);
      PushesPrefix(c, Code(), lo, mid, e.left, ck);
      PushesPrefix(c, Code(), mid, at, e.right, Bump(ck, Change(e.left)));
      JumpCompare(Code(), lo, mid, at, e, dest, jumpIfNull, sense, ck);
    }

    method TestNull(e: Expr, dest: int, jumpIfNull: bool, sense: bool)
      requires Symmetric(world) && InRange() && (e.IsNull? || e.NotNull?) && -1 - dest < |aLabel|
      modifies this
      ensures Longer() && Jumps(Code(), |old(aOp)|, |aOp|, e, dest, jumpIfNull, sense, old(ckOffset))
      decreases e, 3
    {
      hide Pushes, Jumps, Linked, Keeps, Change, EvalAt, CondAt, Columns, ColumnsCond, Goes, Target, Symmetric, InRange;
      ghost var lo, ck := |aOp|, ckOffset;
      ExprCode(e.operand);
      ghost var c, at := Code(), |aOp|;
      var addr := AddOp(if e.IsNull? == sense then OpIsNull else OpNotNull, 1, dest, NoP3);
      PushesPrefix(c, Code(), lo, at, e.operand, ck);
      JumpNullTest(Code(), lo, at, e, e.operand, dest, jumpIfNull, sense, ck);
    }

    method TestValue(e: Expr, dest: int, jumpIfNull: bool, sense: bool)
      requires Symmetric(world) && InRange() && Plain(e) && -1 - dest < |aLabel|
      modifies this
      ensures Longer() && Jumps(Code(), |old(aOp)|, |aOp|, e, dest, jumpIfNull, sense, old(ckOffset))
      decreases e, 3
    {
      hide Pushes, Jumps, Linked, Keeps, Change, EvalAt, CondAt, Columns, ColumnsCond, Goes, Target, Symmetric,
        InRange, Plain;
      ghost var lo, ck := |aOp|, ckOffset;
      ExprCode(e);
      ghost var c, at := Code(), |aOp|;
      var addr := AddOp(if sense then OpIf else OpIfNot, if jumpIfNull then 1 else 0, dest, NoP3);
      PushesPrefix(c, Code(), lo, at, e, ck);
      JumpPlain(Code(), lo, at, e, dest, jumpIfNull, sense, ck);
    }

    method TestBetweenTrue(e: Expr, dest: int, jumpIfNull: bool)
      requires Symmetric(world) && InRange() && e.Between? && -1 - dest < |aLabel|
      modifies this
      ensures Longer() && Jumps(Code(), |old(aOp)|, |aOp|, e, dest, jumpIfNull, true, old(ckOffset))
      decreases e, 3
    {
      hide Pushes, Jumps, Linked, Keeps, Change, EvalAt, CondAt, Columns, ColumnsCond, Goes, Target, Symmetric, InRange;
      ghost var lo, ck := |aOp|, ckOffset;
      ghost var a := CodeLow(e);
      ghost var c, b := Code(), |aOp|;
      var addr := CodeCompare(e.operand, e.low, Lt, 0, !jumpIfNull);
      ExprCode(e.high);
      ghost var c', d := Code(), |aOp|;
      var other := CodeCompare(e.operand, e.high, Le, dest, jumpIfNull);
      other := AddOp(OpInteger, 0, 0, NoP3);
      JumpHere(addr);
      other := AddOp(OpPop, 1, 0, NoP3);
      PatchedLow(c, c', Code(), lo, a, b, d);
      PushesKept(c, Code(), lo, a, e.operand, ck);
      PushesKept(c, Code(), a + 1, b, e.low, Bump(ck, Change(e.operand)));
      PushesKept(c', Code(), b + 1, d, e.high, Bump(Bump(ck, Change(e.operand)), Change(e.low)));
      JumpBetweenTrue(Code(), lo, a, b, d, e, dest, jumpIfNull, ck);
    }

    method TestBetweenFalse(e: Expr, dest: int, jumpIfNull: bool)
      requires Symmetric(world) && InRange() && e.Between? && -1 - dest < |aLabel|
      modifies this
      ensures Longer() && Jumps(Code(), |old(aOp)|, |aOp|, e, dest, jumpIfNull, false, old(ckOffset))
      decreases e, 3
    {
      hide Pushes, Jumps, Linked, Keeps, Change, EvalAt, CondAt, Columns, ColumnsCond, Goes, Target, Symmetric, InRange;
      ghost var lo, ck := |aOp|, ckOffset;
      ghost var a := CodeLow(e);
      ghost var c, b := Code(), |aOp|;
      var addr := |aOp|;
      addr := CodeCompare(e.operand, e.low, Ge, addr + 3, !jumpIfNull);
      addr := AddOp(OpPop, 1, 0, NoP3);
      addr := AddOp(OpGoto, 0, dest, NoP3);
      ExprCode(e.high);
      ghost var c', d := Code(), |aOp|;
      addr := CodeCompare(e.operand, e.high, Gt, dest, jumpIfNull);
      PushesPrefix(c, Code(), lo, a, e.operand, ck);
      PushesPrefix(c, Code(), a + 1, b, e.low, Bump(ck, Change(e.operand)));
      PushesPrefix(c', Code(), b + 3, d, e.high, Bump(Bump(ck, Change(e.operand)), Change(e.low)));
      JumpBetweenFalse(Code(), lo, a, b, d, e, dest, jumpIfNull, ck);
    }

    // Jump to dest when e is true (expr.c:1890-1969).
    method ExprIfTrue(e: Expr, dest: int, jumpIfNull: bool)
      requires Symmetric(world) && InRange() && -1 - dest < |aLabel|
      modifies this
      ensures Tested(e, dest, jumpIfNull, true)
      decreases e, 4
    {
      hide Pushes, Jumps, Linked, Keeps, Change, EvalAt, CondAt, Columns, ColumnsCond, Goes, Target, Symmetric,
        InRange, Decides, Free;
      ghost var lo := |aOp|;
      var saved := ckOffset;
      match e {
      case And(a, b) =>
        var d2 := MakeLabel();
        ExprIfFalse(a, d2, !jumpIfNull);
        ghost var c, mid := Code(), |aOp|;
        ExprIfTrue(b, dest, jumpIfNull);
        ghost var c' := Code();
        ResolveLabel(d2);
        TwoTestsKept(c, c', Code(), lo, mid);
        JumpsKept(c, Code(), lo, mid, a, d2, !jumpIfNull, false, saved);
        JumpsKept(c', Code(), mid, |aOp|, b, dest, jumpIfNull, true, saved);
        JumpBoth(Code(), lo, mid, |aOp|, e, a, b, d2, dest, jumpIfNull, true, saved);
      case Or(a, b) =>
        ExprIfTrue(a, dest, jumpIfNull);
        ghost var c, mid := Code(), |aOp|;
        ExprIfTrue(b, dest, jumpIfNull);
        PrefixKept(c, Code(), lo, mid);
        JumpsKept(c, Code(), lo, mid, a, dest, jumpIfNull, true, saved);
        JumpEither(Code(), lo, mid, |aOp|, e, a, b, dest, jumpIfNull, true, saved);
      case Not(a) =>
        ExprIfFalse(a, dest, jumpIfNull);
        JumpNot(Code(), lo, |aOp|, a, dest, jumpIfNull, true, saved);
      case Compare(_, _, _) =>
        TestCompare(e, dest, jumpIfNull, true);
      case IsNull(_) =>
        TestNull(e, dest, jumpIfNull, true);
      case NotNull(_) =>
        TestNull(e, dest, jumpIfNull, true);
      case Between(_, _, _) =>
        TestBetweenTrue(e, dest, jumpIfNull);
      case _ =>
        TestValue(e, dest, jumpIfNull, true);
      }
      ckOffset := saved;
      if Free(e) {
        JumpsByMeaning(Code(), lo, |aOp|, e, dest, jumpIfNull, true, saved);
      }
    }

    // Jump to dest when e is false (expr.c:1979-2080).
    method ExprIfFalse(e: Expr, dest: int, jumpIfNull: bool)
      requires Symmetric(world) && InRange() && -1 - dest < |aLabel|
      modifies this
      ensures Tested(e, dest, jumpIfNull, false)
      decreases e, 4
    {
      hide Pushes, Jumps, Linked, Keeps, Change, EvalAt, CondAt, Columns, ColumnsCond, Goes, Target, Symmetric,
        InRange, Decides, Free;
      ghost var lo := |aOp|;
      var saved := ckOffset;
      match e {
      case And(a, b) =>
        ExprIfFalse(a, dest, jumpIfNull);
        ghost var c, mid := Code(), |aOp|;
        ExprIfFalse(b, dest, jumpIfNull);
        PrefixKept(c, Code(), lo, mid);
        JumpsKept(c, Code(), lo, mid, a, dest, jumpIfNull, false, saved);
        JumpEither(Code(), lo, mid, |aOp|, e, a, b, dest, jumpIfNull, false, saved);
      case Or(a, b) =>
        var d2 := MakeLabel();
        ExprIfTrue(a, d2, !jumpIfNull);
        ghost var c, mid := Code(), |aOp|;
        ExprIfFalse(b, dest, jumpIfNull);
        ghost var c' := Code();
        ResolveLabel(d2);
        TwoTestsKept(c, c', Code(), lo, mid);
        JumpsKept(c, Code(), lo, mid, a, d2, !jumpIfNull, true, saved);
        JumpsKept(c', Code(), mid, |aOp|, b, dest, jumpIfNull, false, saved);
        JumpBoth(Code(), lo, mid, |aOp|, e, a, b, d2, dest, jumpIfNull, false, saved);
      case Not(a) =>
        ExprIfTrue(a, dest, jumpIfNull);
        JumpNot(Code(), lo, |aOp|, a, dest, jumpIfNull, false, saved);
      case Compare(_, _, _) =>
        TestCompare(e, dest, jumpIfNull, false);
      case IsNull(_) =>
        TestNull(e, dest, jumpIfNull, false);
      case NotNull(_) =>
        TestNull(e, dest, jumpIfNull, false);
      case Between(_, _, _) =>
        TestBetweenFalse(e, dest, jumpIfNull);
      case _ =>
        TestValue(e, dest, jumpIfNull, false);
      }
      ckOffset := saved;
      if Free(e) {
        JumpsByMeaning(Code(), lo, |aOp|, e, dest, jumpIfNull, false, saved);
      }
    }

    // insert.c:869-879: a row whose CHECK condition is false halts the statement; true and NULL pass.
    method CheckConstraint(check: Expr, nCol: nat)
      requires Symmetric(world) && InRange() && ckOffset == 0 && nCol > 0
      modifies this
      ensures Longer() && ckOffset == 0 && Guards(Code(), |old(aOp)|, |aOp|, check, true, true, nCol)
    {
      hide Pushes, Jumps, Linked, Keeps, Change, EvalAt, CondAt, Columns, ColumnsCond, Goes, Target, Symmetric,
        InRange, Guards, Decides, Free;
      ghost var lo := |aOp|;
      var allOk := MakeLabel();
      ckOffset := nCol;
      ExprIfTrue(check, allOk, true);
      ckOffset := 0;
      ghost var c, at := Code(), |aOp|;
      var addr := AddOp(OpHalt, SQLITE_CONSTRAINT, OE_ABORT, NoP3);
      ResolveLabel(allOk);
      LabelResolved(c, Emitted(world, aOp, c.labels), Code(), lo, at, at);
      JumpsKept(c, Code(), lo, at, check, allOk, true, true, nCol);
      CodedGuard(Code(), lo, at, check, allOk, true, true, nCol);
    }

    method Test(e: Expr, dest: int, jumpIfNull: bool, sense: bool)
      requires Symmetric(world) && InRange() && -1 - dest < |aLabel|
      modifies this
      ensures Tested(e, dest, jumpIfNull, sense)
    {
      if sense {
        ExprIfTrue(e, dest, jumpIfNull);
      } else {
        ExprIfFalse(e, dest, jumpIfNull);
      }
    }

    // A test followed by a halt.
    method GuardBy(e: Expr, ifNull: bool, sense: bool)
      requires Symmetric(world) && InRange() && ckOffset == 0
      modifies this
      ensures Longer() && Guards(Code(), |old(aOp)|, |aOp|, e, ifNull, sense, 0)
    {
      hide Pushes, Jumps, Linked, Keeps, Change, EvalAt, CondAt, Columns, ColumnsCond, Goes, Target, Symmetric,
        InRange, Guards, Decides, Free;
      ghost var lo := |aOp|;
      var allOk := MakeLabel();
      Test(e, allOk, ifNull, sense);
      ghost var c, at := Code(), |aOp|;
      var addr := AddOp(OpHalt, 0, 0, NoP3);
      ResolveLabel(allOk);
      LabelResolved(c, Emitted(world, aOp, c.labels), Code(), lo, at, at);
      JumpsKept(c, Code(), lo, at, e, allOk, ifNull, sense, 0);
      CodedGuard(Code(), lo, at, e, allOk, ifNull, sense, 0);
    }
  }

  // A whole program that does nothing but check a row of nCol columns lying on top of the stack. It passes
  // exactly the rows for which the condition is not false, if the condition is straight.
  method CompileCheck(world: World, check: Expr, nCol: nat) returns (prog: seq<Op>)
    requires Symmetric(world) && nCol > 0
    ensures StraightCond(check, nCol, 0) ==> forall s, row :: OnRow(s, row, |s| - nCol) && |row| == nCol + 1 ==>
      Reaches(world.env, prog, Running(0, s),
        if EvalCond(world, row, check) != False then Running(|prog|, s) else Halted)
    ensures forall s :: ColumnsCond(check, |s|, nCol, InStack) ==>
      Reaches(world.env, prog, Running(0, s),
        if CondAt(world, check, s, nCol) != False then Running(|prog|, s) else Halted)
  {
    hide Pushes, Jumps, Linked, Keeps, Change, EvalAt, CondAt, Columns, ColumnsCond, Goes, Target, Symmetric,
      Parse.InRange, Guards, Aligned, StraightCond, Reaches;
    var p := new Parse(world);
    p.CheckConstraint(check, nCol);
    ghost var c := p.Code();
    p.ResolveP2Values();
    prog := p.aOp;
    forall s | ColumnsCond(check, |s|, nCol, InStack)
      ensures Reaches(world.env, prog, Running(0, s),
        if CondAt(world, check, s, nCol) != False then Running(|prog|, s) else Halted)
    {
      WholeProgram(c, prog, check, true, true, nCol, s);
    }
    forall s, row | StraightCond(check, nCol, 0) && OnRow(s, row, |s| - nCol) && |row| == nCol + 1
      ensures Reaches(world.env, prog, Running(0, s),
        if EvalCond(world, row, check) != False then Running(|prog|, s) else Halted)
    {
      StraightCondExactly(check, nCol, |s|, nCol, |s| - nCol);
      AlignedCondition(world, check, s, nCol, row, |s| - nCol);
    }
  }

  // A whole program that tests a condition without columns of a checked row: it comes to its end exactly if
  // the condition is sense, or is NULL and ifNull is set, and otherwise halts.
  method CompileCondition(world: World, e: Expr, ifNull: bool, sense: bool) returns (prog: seq<Op>)
    requires Symmetric(world) && Free(e)
    ensures forall s, row ::
      Reaches(world.env, prog, Running(0, s),
        if Taken(EvalCond(world, row, e), ifNull, sense) then Running(|prog|, s) else Halted)
  {
    hide Pushes, Jumps, Linked, Keeps, Change, EvalAt, EvalCond, CondAt, Columns, ColumnsCond, Goes, Target, Symmetric,
      Parse.InRange, Guards, Free, Taken, Reaches;
    var p := new Parse(world);
    p.GuardBy(e, ifNull, sense);
    ghost var c := p.Code();
    p.ResolveP2Values();
    prog := p.aOp;
    forall s, row
      ensures Reaches(world.env, prog, Running(0, s),
        if Taken(EvalCond(world, row, e), ifNull, sense) then Running(|prog|, s) else Halted)
    {
      FreeCondition(world, e, s, 0, row, InStack);
      WholeProgram(c, prog, e, ifNull, sense, 0, s);
    }
  }
}
