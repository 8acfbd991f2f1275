// Runs of the in-core database (src/db_sqlite/btree_rb.c:644-1407): any list of calls between the
// beginning of a transaction and its rollback, and between a checkpoint and its rollback.
module RbtreeRuns {

  import opened Keys
  import opened RollbackLog
  import opened RedBlackTree
  import opened RbtreeDatabase

  // Calls of a client. k: the cursor's place in its table's list. Delete moves the cursor to the key first.
  datatype DbOp =
    | Open(t: int, wrFlag: bool)
    | Close(t: int, k: nat)
    | Insert(t: int, k: nat, key: Key, data: Data)
    | Delete(t: int, k: nat, key: Key)
    | Clear(t: int)
    | Create
    | Drop(t: int)
    | BeginCkpt
    | CommitCkpt
    | RollbackCkpt

  predicate Writable(rb: Rbtree, t: int, k: nat)
    reads rb`cursors
  {
    t in rb.cursors && k < |rb.cursors[t]| && rb.cursors[t][k].wrFlag
  }

  // Tables and cursors exist, a table dropped is not open, and a rolled-back checkpoint finds no new
  // table open and no changed one read.
  predicate Allowed(rb: Rbtree, op: DbOp)
    reads rb`cursors, rb`state, rb`checkRollback
  {
    match op
    case Open(t, _) => t in rb.cursors
    case Close(t, k) => t in rb.cursors && k < |rb.cursors[t]|
    case Insert(t, k, _, _) => Writable(rb, t, k)
    case Delete(t, k, _) => Writable(rb, t, k)
    case Clear(t) => t in rb.cursors
    case Create => true
    case Drop(t) => t in rb.cursors && rb.cursors[t] == []
    case BeginCkpt => true
    case CommitCkpt => true
    case RollbackCkpt =>
      rb.state != InCheckpoint ||
      (KeepsTables(rb.checkRollback, Rbtree.Held(rb.cursors)) &&
        Touched(rb.checkRollback) !! Rbtree.Reading(rb.cursors))
  }

  ghost predicate ReadBesides(list: seq<RbtCursor>, c: RbtCursor) {
    exists x :: x in list && x != c && !x.wrFlag
  }

  // The contents of the database after the call.
  ghost function Outcome(rb: Rbtree, op: DbOp): Db
    requires Allowed(rb, op)
    reads rb`cursors, rb`state, rb`checkRollback, rb`db, rb`atCkpt, rb`nextIdx
  {
    match op
    case Insert(t, k, key, data) =>
      if t !in rb.db || ReadBesides(rb.cursors[t], rb.cursors[t][k]) then rb.db else rb.db[t := rb.db[t][key := data]]
    case Delete(t, k, key) =>
      if t !in rb.db || ReadBesides(rb.cursors[t], rb.cursors[t][k]) then rb.db else rb.db[t := rb.db[t] - {key}]
    case Clear(t) => rb.db[t := map[]]
    case Create => rb.db[rb.nextIdx := map[]]
    case Drop(t) => rb.db - {t}
    case RollbackCkpt => if rb.state == InCheckpoint then rb.atCkpt else rb.db
    case _ => rb.db
  }

  ghost predicate Working(rb: Rbtree)
    reads rb, rb.trees, rb.nodes
  {
    rb.Valid() && (rb.state == InTransaction || rb.state == InCheckpoint)
  }

  method PerformInsert(rb: Rbtree, t: int, k: nat, key: Key, data: Data)
    requires Working(rb) && Writable(rb, t, k)
    modifies rb`db, rb`nodes, rb`transRollback, rb`checkRollback
    modifies rb.trees, rb.nodes, Rbtree.CursorsOf(rb.cursors)
    ensures Working(rb) && rb.db == old(Outcome(rb, Insert(t, k, key, data))) && fresh(rb.nodes - old(rb.nodes))
  {
    hide BtRbTree.RedBlack, Rbtree.TablesValid, Rbtree.LogValid, Rbtree.CursorsOf, RbtCursor.Ready;
    rb.TableKeys(t);
    rb.Separate(t);
    Rbtree.CursorsIn(rb.cursors, t);
    var c := rb.cursors[t][k];
    rb.CursorAt(t, k);
    var rc := c.Insert(key, data);
  }

  lemma Unaffected(db: Db, t: int, key: Key)
    requires t in db && key !in db[t]
    ensures db[t := db[t] - {key}] == db
  {
    assert db[t] - {key} == db[t];
  }

  method Find(c: RbtCursor, key: Key) returns (found: bool)
    requires c.tree.RedBlack() && Sorted(c.tree.entries)
    modifies c`node, c`eSkip
    ensures c.Ready() && (found ==> c.node != null && c.node.key == key)
    ensures found || key !in MapOf(c.tree.entries)
  {
    hide BtRbTree.RedBlack, MapOf, Sorted, Slot, Less;
    var res := c.Moveto(key);
    ghost var p := if c.node == null then 0 else if res == -1 then c.node.pos + 1 else c.node.pos;
    Rbtree.MovetoFinds(c.tree.entries, key, p);
    found := res == 0;
  }

  method PerformDelete(rb: Rbtree, t: int, k: nat, key: Key)
    requires Working(rb) && Writable(rb, t, k)
    modifies rb`db, rb`nodes, rb`transRollback, rb`checkRollback
    modifies rb.trees, rb.nodes, Rbtree.CursorsOf(rb.cursors)
    ensures Working(rb) && rb.db == old(Outcome(rb, Delete(t, k, key))) && fresh(rb.nodes - old(rb.nodes))
  {
    hide BtRbTree.RedBlack, Rbtree.TablesValid, Rbtree.LogValid, Rbtree.CursorsOf, RbtCursor.Ready, RbtCursor.InGap,
      MapOf, Sorted;
    rb.TableKeys(t);
    rb.Separate(t);
    Rbtree.CursorsIn(rb.cursors, t);
    var c := rb.cursors[t][k];
    rb.CursorAt(t, k);
    var found := Find(c, key);
    if found {
      var rc := c.Delete();
    } else {
      assert key !in rb.db[t];
      Unaffected(rb.db, t, key);
    }
  }

  // One call, if it is allowed.
  method Perform(rb: Rbtree, op: DbOp)
    requires Working(rb)
    modifies rb`state, rb`atCkpt, rb`nextIdx, rb`tables, rb`cursors, rb`db, rb`nodes, rb`trees, rb`transRollback,
      rb`checkRollback
    modifies rb.trees, rb.nodes, Rbtree.CursorsOf(rb.cursors)
    ensures Working(rb) && Fresh(rb)
    ensures rb.db == old(if Allowed(rb, op) then Outcome(rb, op) else rb.db)
    ensures rb.state ==
      old(if op.BeginCkpt? then InCheckpoint
          else if op.CommitCkpt? || (op.RollbackCkpt? && Allowed(rb, op)) then InTransaction
          else rb.state)
    ensures rb.atCkpt == old(if op.BeginCkpt? && rb.state == InTransaction then rb.db else rb.atCkpt)
  {
    hide BtRbTree.RedBlack, Rbtree.TablesValid, Rbtree.LogValid, Rbtree.CursorsOf, Rbtree.Held, Rbtree.Reading,
      KeepsTables, Touched;
    if !Allowed(rb, op) {
      return;
    }
    match op
    case Open(t, wrFlag) => PerformOpen(rb, t, wrFlag);
    case Close(t, k) => PerformClose(rb, t, k);
    case Insert(t, k, key, data) => PerformInsert(rb, t, k, key, data);
    case Delete(t, k, key) => PerformDelete(rb, t, k, key);
    case Clear(t) => PerformClear(rb, t);
    case Create => PerformCreate(rb);
    case Drop(t) => PerformDrop(rb, t);
    case BeginCkpt => var rc := rb.BeginCkpt();
    case CommitCkpt => rb.CommitCkpt();
    case RollbackCkpt => PerformRollbackCkpt(rb);
  }

  // Trees, nodes and cursors that were not there before are new.
  twostate predicate Fresh(rb: Rbtree)
    reads rb`trees, rb`nodes, rb`cursors
  {
    && (forall t :: t in rb.trees ==> t in old(rb.trees) || fresh(t))
    && (forall n :: n in rb.nodes ==> n in old(rb.nodes) || fresh(n))
    && (forall c :: c in Rbtree.CursorsOf(rb.cursors) ==> c in old(Rbtree.CursorsOf(rb.cursors)) || fresh(c))
  }

  method PerformOpen(rb: Rbtree, t: int, wrFlag: bool)
    requires Working(rb) && t in rb.cursors
    modifies rb`cursors
    ensures Working(rb) && Fresh(rb)
    ensures t in rb.cursors && exists c ::
      rb.cursors == old(rb.cursors)[t := [c] + old(rb.cursors)[t]] && c.wrFlag == wrFlag
  {
    hide BtRbTree.RedBlack, Rbtree.TablesValid, Rbtree.LogValid;
    rb.TableKeys(t);
    var c := rb.OpenCursor(t, wrFlag);
    ListGrew(old(rb.cursors), t, c);
  }

  lemma ListGrew(m: map<int, seq<RbtCursor>>, t: int, c: RbtCursor)
    requires t in m
    ensures Rbtree.CursorsOf(m[t := [c] + m[t]]) - Rbtree.CursorsOf(m) <= {c}
  {
    var m' := m[t := [c] + m[t]];
    forall x | x in Rbtree.CursorsOf(m') && x != c ensures x in Rbtree.CursorsOf(m) {
      var i :| i in m' && x in m'[i];
      assert x in m[i];
    }
  }

  method PerformClose(rb: Rbtree, t: int, k: nat)
    requires Working(rb) && t in rb.cursors && k < |rb.cursors[t]|
    modifies rb`cursors
    ensures Working(rb) && Fresh(rb)
    ensures var list := old(rb.cursors)[t];
      exists j :: 0 <= j < |list| && list[j] == list[k] && rb.cursors == old(rb.cursors)[t := list[..j] + list[j + 1..]]
  {
    hide BtRbTree.RedBlack, Rbtree.TablesValid, Rbtree.LogValid;
    rb.CursorAt(t, k);
    rb.CloseCursor(rb.cursors[t][k]);
    ghost var m := old(rb.cursors);
    forall x | x in Rbtree.CursorsOf(rb.cursors) ensures x in Rbtree.CursorsOf(m) {
      var i :| i in rb.cursors && x in rb.cursors[i];
      assert i in m && x in m[i];
    }
  }

  method PerformClear(rb: Rbtree, t: int)
    requires Working(rb) && t in rb.cursors
    modifies rb`db, rb`nodes, rb`transRollback, rb`checkRollback, rb.trees, rb.nodes
    ensures Working(rb) && rb.db == old(Outcome(rb, Clear(t))) && rb.nodes == old(rb.nodes)
  {
    hide BtRbTree.RedBlack, Rbtree.TablesValid, Rbtree.LogValid;
    rb.TableKeys(t);
    rb.ClearTable(t);
  }

  method PerformCreate(rb: Rbtree)
    requires Working(rb)
    modifies rb`nextIdx, rb`tables, rb`cursors, rb`db, rb`nodes, rb`trees, rb`transRollback, rb`checkRollback
    ensures Working(rb) && Fresh(rb) && rb.db == old(Outcome(rb, Create))
  {
    hide BtRbTree.RedBlack, Rbtree.TablesValid, Rbtree.LogValid, Rbtree.CursorsOf;
    var n := rb.CreateTable();
    Rbtree.EmptyLists(old(rb.cursors), n);
  }

  method PerformDrop(rb: Rbtree, t: int)
    requires Working(rb) && t in rb.cursors && rb.cursors[t] == []
    modifies rb`tables, rb`cursors, rb`db, rb`nodes, rb`transRollback, rb`checkRollback, rb.trees, rb.nodes
    ensures Working(rb) && Fresh(rb) && rb.db == old(Outcome(rb, Drop(t)))
  {
    hide BtRbTree.RedBlack, Rbtree.TablesValid, Rbtree.LogValid, Rbtree.CursorsOf;
    rb.TableKeys(t);
    Rbtree.EmptyLists(rb.cursors, t);
    rb.DropTable(t);
  }

  method PerformRollbackCkpt(rb: Rbtree)
    requires Working(rb) && Allowed(rb, RollbackCkpt)
    modifies rb`state, rb`tables, rb`cursors, rb`db, rb`nodes, rb`trees, rb`transRollback, rb`checkRollback
    modifies rb.trees, rb.nodes, Rbtree.CursorsOf(rb.cursors)
    ensures Working(rb) && Fresh(rb) && rb.state == InTransaction && rb.db == old(Outcome(rb, RollbackCkpt))
    ensures Rbtree.Held(rb.cursors) == old(Rbtree.Held(rb.cursors)) &&
      Rbtree.Reading(rb.cursors) == old(Rbtree.Reading(rb.cursors))
  {
    hide BtRbTree.RedBlack, Rbtree.TablesValid, Rbtree.LogValid, Rbtree.CursorsOf, Rbtree.Held, Rbtree.Reading,
      KeepsTables, Touched;
    rb.OpenTables();
    rb.RollbackCkpt();
  }

  // Any calls.
  method Run(rb: Rbtree, ops: seq<DbOp>)
    requires Working(rb)
    modifies rb`state, rb`atCkpt, rb`nextIdx, rb`tables, rb`cursors, rb`db, rb`nodes, rb`trees, rb`transRollback,
      rb`checkRollback
    modifies rb.trees, rb.nodes, Rbtree.CursorsOf(rb.cursors)
    ensures Working(rb) && Fresh(rb)
    ensures (forall op :: op in ops ==> !op.BeginCkpt? && !op.CommitCkpt? && !op.RollbackCkpt?) ==>
      rb.state == old(rb.state) && rb.atCkpt == old(rb.atCkpt)
  {
    hide Working, Allowed, Outcome, Rbtree.CursorsOf;
    for i := 0 to |ops|
      invariant Working(rb) && Fresh(rb)
      invariant (forall op :: op in ops ==> !op.BeginCkpt? && !op.CommitCkpt? && !op.RollbackCkpt?) ==>
        rb.state == old(rb.state) && rb.atCkpt == old(rb.atCkpt)
    {
      Perform(rb, ops[i]);
    }
  }

  // Begin a transaction, make any calls, among them checkpoints begun, committed and rolled back, and
  // roll back. That can be done unless a table created meanwhile is still open, and it restores every
  // table that nobody is reading.
  method RunAndRollback(rb: Rbtree, ops: seq<DbOp>) returns (undone: bool)
    requires rb.Valid() && rb.state == TransNone
    modifies rb, rb.trees, rb.nodes, Rbtree.CursorsOf(rb.cursors)
    ensures rb.Valid()
    ensures undone <==> Rbtree.Held(rb.cursors) <= old(rb.db).Keys
    ensures undone ==> rb.state == TransNone && rb.db.Keys == old(rb.db).Keys
    ensures undone ==> forall t :: t in rb.db && t !in Rbtree.Reading(rb.cursors) ==> rb.db[t] == old(rb.db)[t]
    ensures undone && Rbtree.Reading(rb.cursors) == {} ==> rb.db == old(rb.db)
  {
    hide BtRbTree.RedBlack, Rbtree.TablesValid, Rbtree.LogValid, Rbtree.CursorsOf, Rbtree.Held, Rbtree.Reading, Touched;
    rb.TableKeys(0);
    var begin := rb.tables.Keys;
    var rc := rb.BeginTrans();
    Run(rb, ops);
    undone := Rbtree.Held(rb.cursors) <= begin;
    if undone {
      rb.Rollback();
      assert Rbtree.Reading(rb.cursors) == {} ==> forall t :: t in old(rb.db) ==> rb.db[t] == old(rb.db)[t];
    }
  }

  // The same for a checkpoint within a transaction; the transaction can still be rolled back.
  method RunAndRollbackCkpt(rb: Rbtree, ops: seq<DbOp>) returns (undone: bool)
    requires Working(rb) && rb.state == InTransaction
    requires forall op :: op in ops ==> !op.BeginCkpt? && !op.CommitCkpt? && !op.RollbackCkpt?
    modifies rb`state, rb`atCkpt, rb`nextIdx, rb`tables, rb`cursors, rb`db, rb`nodes, rb`trees, rb`transRollback,
      rb`checkRollback
    modifies rb.trees, rb.nodes, Rbtree.CursorsOf(rb.cursors)
    ensures Working(rb) && rb.atBegin == old(rb.atBegin)
    ensures undone ==> rb.state == InTransaction && rb.db == old(rb.db)
    ensures Rbtree.Reading(rb.cursors) == {} ==> (undone <==> Rbtree.Held(rb.cursors) <= old(rb.db).Keys)
  {
    hide BtRbTree.RedBlack, Rbtree.TablesValid, Rbtree.LogValid, Rbtree.CursorsOf, Rbtree.Held, Rbtree.Reading,
      Touched, KeepsTables;
    var rc := rb.BeginCkpt();
    Run(rb, ops);
    rb.OpenTables();
    undone := Allowed(rb, RollbackCkpt);
    if undone {
      PerformRollbackCkpt(rb);
    }
  }
}
