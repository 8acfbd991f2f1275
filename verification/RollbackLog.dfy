// The undo log of the red-black database (src/db_sqlite/btree_rb.c:41-71, 1314-1407) on abstract
// table contents: what executing a list of rollback operations does to a database.
module RollbackLog {
  import opened Keys

  // Every table, by number, with its records.
  type Db = map<int, map<Key, Data>>

  datatype RollbackOp =
    | OpInsert(iTab: int, key: Key, data: Data)
    | OpDelete(iTab: int, key: Key)
    | OpCreate(iTab: int)
    | OpDrop(iTab: int)

  // What the source asserts before it runs an operation.
  ghost predicate Runs(db: Db, op: RollbackOp) {
    match op
    case OpInsert(t, _, _) => t in db
    case OpDelete(t, k) => t in db && k in db[t]
    case OpCreate(t) => t !in db
    case OpDrop(t) => t in db
  }

  ghost function Apply(db: Db, op: RollbackOp): Db {
    match op
    case OpInsert(t, k, d) => if t in db then db[t := db[t][k := d]] else db
    case OpDelete(t, k) => if t in db then db[t := db[t] - {k}] else db
    case OpCreate(t) => db[t := map[]]
    case OpDrop(t) => db - {t}
  }

  ghost function Undo(db: Db, ops: seq<RollbackOp>): Db
    decreases |ops|
  {
    if ops == [] then db else Undo(Apply(db, ops[0]), ops[1..])
  }

  ghost predicate AllRun(db: Db, ops: seq<RollbackOp>)
    decreases |ops|
  {
    ops == [] || (Runs(db, ops[0]) && AllRun(Apply(db, ops[0]), ops[1..]))
  }

  // Record operations on a table with an open read cursor are refused, and the refusal is ignored.
  ghost predicate Refused(op: RollbackOp, locked: set<int>) {
    (op.OpInsert? || op.OpDelete?) && op.iTab in locked
  }

  ghost function ApplyLocked(db: Db, op: RollbackOp, locked: set<int>): Db {
    if Refused(op, locked) then db else Apply(db, op)
  }

  ghost function UndoLocked(db: Db, ops: seq<RollbackOp>, locked: set<int>): Db
    decreases |ops|
  {
    if ops == [] then db else UndoLocked(ApplyLocked(db, ops[0], locked), ops[1..], locked)
  }

  ghost predicate AllRunLocked(db: Db, ops: seq<RollbackOp>, locked: set<int>)
    decreases |ops|
  {
    ops == [] ||
    ((if Refused(ops[0], locked) then ops[0].iTab in db else Runs(db, ops[0])) &&
      AllRunLocked(ApplyLocked(db, ops[0], locked), ops[1..], locked))
  }

  // A table that a cursor holds open may not be dropped.
  predicate KeepsTables(ops: seq<RollbackOp>, held: set<int>) {
    forall op :: op in ops && op.OpDrop? ==> op.iTab !in held
  }

  // The tables the log drops were created after the database was as it was before.
  ghost predicate DropsNew(ops: seq<RollbackOp>, before: Db) {
    forall op :: op in ops && op.OpDrop? ==> op.iTab !in before
  }

  // A table that is not there after the undo is dropped by it.
  lemma {:induction false} GoneIsDropped(db: Db, ops: seq<RollbackOp>, t: int)
    requires t in db && t !in Undo(db, ops)
    ensures OpDrop(t) in ops
    decreases |ops|
  {
    if ops != [] && ops[0] != OpDrop(t) {
      GoneIsDropped(Apply(db, ops[0]), ops[1..], t);
    }
  }

  // No cursor stands in the way of the undo exactly if the tables held open were there before.
  lemma HeldOpen(db: Db, ops: seq<RollbackOp>, held: set<int>)
    requires held <= db.Keys && DropsNew(ops, Undo(db, ops))
    ensures KeepsTables(ops, held) <==> held <= Undo(db, ops).Keys
  {
    if KeepsTables(ops, held) {
      forall t | t in held ensures t in Undo(db, ops) {
        if t !in Undo(db, ops) {
          GoneIsDropped(db, ops, t);
        }
      }
    }
  }

  lemma {:induction false} UndoConcat(db: Db, a: seq<RollbackOp>, b: seq<RollbackOp>)
    ensures Undo(db, a + b) == Undo(Undo(db, a), b)
    ensures AllRun(db, a + b) <==> AllRun(db, a) && AllRun(Undo(db, a), b)
    decreases |a|
  {
    if a == [] {
      assert a + b == b;
    } else {
      assert (a + b)[1..] == a[1..] + b;
      UndoConcat(Apply(db, a[0]), a[1..], b);
    }
  }

  // Logging the inverse of a change keeps the log able to restore the same database.
  lemma LogInverse(before: Db, after: Db, op: RollbackOp, log: seq<RollbackOp>)
    requires Runs(after, op) && Apply(after, op) == before && AllRun(before, log)
    ensures AllRun(after, [op] + log) && Undo(after, [op] + log) == Undo(before, log)
  {
    assert ([op] + log)[1..] == log;
  }

  // Two databases with the same tables that agree outside the locked ones.
  ghost predicate Agree(a: Db, b: Db, locked: set<int>) {
    a.Keys == b.Keys && forall t :: t in a && t !in locked ==> a[t] == b[t]
  }

  lemma ApplyAgrees(a: Db, b: Db, op: RollbackOp, locked: set<int>)
    requires Agree(a, b, locked) && Runs(b, op) && locked <= a.Keys && (op.OpDrop? ==> op.iTab !in locked)
    ensures Refused(op, locked) ==> op.iTab in a
    ensures !Refused(op, locked) ==> Runs(a, op)
    ensures Agree(ApplyLocked(a, op, locked), Apply(b, op), locked)
    ensures locked <= ApplyLocked(a, op, locked).Keys
    ensures forall t :: t in locked ==> ApplyLocked(a, op, locked)[t] == a[t]
  {
  }

  // Undoing with refusals restores every table that is not locked and leaves the locked ones alone.
  lemma {:induction false} UndoLockedAgrees(a: Db, b: Db, ops: seq<RollbackOp>, locked: set<int>)
    requires Agree(a, b, locked) && AllRun(b, ops) && locked <= a.Keys && KeepsTables(ops, locked)
    ensures AllRunLocked(a, ops, locked)
    ensures Agree(UndoLocked(a, ops, locked), Undo(b, ops), locked)
    ensures locked <= UndoLocked(a, ops, locked).Keys
    ensures forall t :: t in locked ==> UndoLocked(a, ops, locked)[t] == a[t]
    decreases |ops|
  {
    if ops != [] {
      ApplyAgrees(a, b, ops[0], locked);
      UndoLockedAgrees(ApplyLocked(a, ops[0], locked), Apply(b, ops[0]), ops[1..], locked);
    }
  }

  // Exactly when a rollback restores the database: no locked table has been changed.
  lemma UndoLockedRestores(db: Db, ops: seq<RollbackOp>, locked: set<int>)
    requires AllRun(db, ops) && locked <= db.Keys && KeepsTables(ops, locked)
    ensures locked <= Undo(db, ops).Keys
    ensures UndoLocked(db, ops, locked) == Undo(db, ops) <==> forall t :: t in locked ==> Undo(db, ops)[t] == db[t]
    ensures locked == {} ==> UndoLocked(db, ops, locked) == Undo(db, ops)
  {
    UndoLockedAgrees(db, db, ops, locked);
    var u, l := Undo(db, ops), UndoLocked(db, ops, locked);
    if forall t :: t in locked ==> u[t] == db[t] {
      assert forall t :: t in u ==> u[t] == l[t];
      assert u == l;
    }
  }

  // Tables whose records the log rewrites.
  function Touched(ops: seq<RollbackOp>): set<int> {
    set op | op in ops && (op.OpInsert? || op.OpDelete?) :: op.iTab
  }

  // With no read cursor on a touched table nothing is refused.
  lemma {:induction false} UntouchedUndo(db: Db, ops: seq<RollbackOp>, locked: set<int>)
    requires Touched(ops) !! locked
    ensures UndoLocked(db, ops, locked) == Undo(db, ops)
    decreases |ops|
  {
    if ops != [] {
      assert Touched(ops[1..]) <= Touched(ops);
      assert ops[0].OpInsert? || ops[0].OpDelete? ==> ops[0].iTab in Touched(ops);
      UntouchedUndo(Apply(db, ops[0]), ops[1..], locked);
    }
  }

  lemma {:induction false} UndoLockedConcat(db: Db, a: seq<RollbackOp>, b: seq<RollbackOp>, locked: set<int>)
    ensures UndoLocked(db, a + b, locked) == UndoLocked(UndoLocked(db, a, locked), b, locked)
    ensures AllRunLocked(db, a + b, locked) <==>
      AllRunLocked(db, a, locked) && AllRunLocked(UndoLocked(db, a, locked), b, locked)
    decreases |a|
  {
    if a == [] {
      assert a + b == b;
    } else {
      assert (a + b)[1..] == a[1..] + b;
      UndoLockedConcat(ApplyLocked(db, a[0], locked), a[1..], b, locked);
    }
  }

  // A transaction that inserted one record into a table with an open read cursor is not undone.
  lemma ReadCursorDefeatsRollback(key: Key, data: Data)
    ensures var before: Db := map[2 := map[]];
            var after: Db := map[2 := map[key := data]];
            var log := [OpDelete(2, key)];
            AllRun(after, log) && Undo(after, log) == before && UndoLocked(after, log, {2}) == after && after != before
  {
    var before: Db := map[2 := map[]];
    var after: Db := map[2 := map[key := data]];
    assert after[2] - {key} == map[];
    assert after[2 := map[]] == before;
    assert before[2] != after[2];
    assert Undo(Apply(after, OpDelete(2, key)), []) == Apply(after, OpDelete(2, key));
  }
}
