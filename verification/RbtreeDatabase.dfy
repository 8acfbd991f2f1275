// The in-core database (src/db_sqlite/btree_rb.c:585-1407): tables, cursors on their trees, a
// transaction with one nested checkpoint, and rollback by executing the undo log.
module RbtreeDatabase {
  import opened Keys
  import opened RollbackLog
  import opened RedBlackTree

  datatype Skip = SkipNone | SkipNext | SkipPrev
  datatype TransState = TransNone | InTransaction | InCheckpoint | InRollback
  datatype Code = Ok | Locked | Error

  class RbtCursor {
    const rb: Rbtree
    const tree: BtRbTree
    const iTree: int
    const wrFlag: bool
    var node: Node?
    var eSkip: Skip

    constructor (rb: Rbtree, tree: BtRbTree, iTree: int, wrFlag: bool)
      ensures this.rb == rb && this.tree == tree && this.iTree == iTree && this.wrFlag == wrFlag
      ensures node == null && eSkip == SkipNone
    {
      this.rb, this.tree, this.iTree, this.wrFlag := rb, tree, iTree, wrFlag;
      node, eSkip := null, SkipNone;
    }

    ghost predicate Ready()
      reads this, tree, tree.repr
    {
      && tree.RedBlack() && Sorted(tree.entries)
      && (node != null ==> node in tree.repr && tree.Linked(node))
    }

    // Where the next step forward (backward) leads: an entry number, or -1 past the end.
    ghost function NextEntry(): int
      requires Ready()
      reads this, tree, tree.repr
    {
      if node == null then -1
      else if eSkip == SkipNext then node.pos
      else if node.pos + 1 < |tree.entries| then node.pos + 1 else -1
    }

    ghost function PreviousEntry(): int
      requires Ready()
      reads this, tree, tree.repr
    {
      if node == null then -1
      else if eSkip == SkipPrev then node.pos
      else node.pos - 1
    }

    // The cursor waits where entry k used to be: the next step forward or backward enters the
    // table on the right side of the gap.
    ghost predicate InGap(k: int)
      requires Ready()
      reads this, tree, tree.repr
    {
      NextEntry() == (if k < |tree.entries| then k else -1) && PreviousEntry() == k - 1
    }

    ghost predicate PointsAt(k: int)
      requires Ready()
      reads this, tree, tree.repr
    {
      if k == -1 then node == null
      else 0 <= k < |tree.entries| && node != null && node.pos == k && (node.key, node.data) == tree.entries[k]
    }

    // Leaves the cursor on the key, or on its neighbour in the empty child slot where it belongs.
    method Moveto(key: Key) returns (res: int)
      requires tree.RedBlack() && Sorted(tree.entries)
      modifies this`node, this`eSkip
      ensures Ready() && eSkip == SkipNone && -1 <= res <= 1
      ensures node == null <==> tree.entries == []
      ensures node == null ==> res == -1
      ensures res == 0 ==> node != null && node.key == key
      ensures res == -1 && node != null ==> node.right == null && Slot(tree.entries, key, node.pos + 1)
      ensures res == 1 ==> node != null && node.left == null && Slot(tree.entries, key, node.pos)
    {
      node, res := tree.Search(key);
      eSkip := SkipNone;
    }

    method First() returns (res: int)
      requires Ready()
      modifies this`node, this`eSkip
      ensures Ready() && eSkip == SkipNone
      ensures tree.entries != [] ==> PointsAt(0) && res == 0
      ensures tree.entries == [] ==> PointsAt(-1) && res == 1
    {
      if tree.head != null {
        node := tree.Leftmost(tree.head);
      }
      res := if node != null then 0 else 1;
      eSkip := SkipNone;
    }

    method Last() returns (res: int)
      requires Ready()
      modifies this`node, this`eSkip
      ensures Ready() && eSkip == SkipNone
      ensures tree.entries != [] ==> PointsAt(|tree.entries| - 1) && res == 0
      ensures tree.entries == [] ==> PointsAt(-1) && res == 1
    {
      if tree.head != null {
        node := tree.Rightmost(tree.head);
      }
      res := if node != null then 0 else 1;
      eSkip := SkipNone;
    }

    method Next() returns (res: int)
      requires Ready()
      modifies this`node, this`eSkip
      ensures Ready() && eSkip == SkipNone && PointsAt(old(NextEntry()))
      ensures res == if node == null then 1 else 0
      ensures old(node != null && eSkip != SkipNext && node.right != null) ==> node != null && node.left == null
    {
      if node != null && eSkip != SkipNext {
        if node.right != null {
          node := tree.Leftmost(node.right);
        } else {
          node := tree.ClimbLeft(node);
        }
      }
      eSkip := SkipNone;
      res := if node == null then 1 else 0;
    }

    method Previous() returns (res: int)
      requires Ready()
      modifies this`node, this`eSkip
      ensures Ready() && eSkip == SkipNone && PointsAt(old(PreviousEntry()))
      ensures res == if node == null then 1 else 0
    {
      if node != null && eSkip != SkipPrev {
        if node.left != null {
          node := tree.Rightmost(node.left);
        } else {
          node := tree.ClimbRight(node);
        }
      }
      eSkip := SkipNone;
      res := if node == null then 1 else 0;
    }

    // ----- Changing records.

    // Another cursor is reading the table.
    ghost predicate ReadLocked()
      requires iTree in rb.cursors
      reads rb`cursors
    {
      exists c :: c in rb.cursors[iTree] && c != this && !c.wrFlag
    }

    // For a cursor outside the list, as the undo cursor is.
    lemma LockedWhenRead()
      requires iTree in rb.cursors && this !in rb.cursors[iTree]
      ensures ReadLocked() <==> iTree in Rbtree.Reading(rb.cursors)
    {
    }

    // Every other cursor on the table loses its place; a read cursor among them refuses the change.
    method CheckReadLocks() returns (locked: bool)
      requires wrFlag && iTree in rb.cursors
      modifies (set c | c in rb.cursors[iTree])`node
      ensures locked == ReadLocked()
      ensures !locked ==> forall c :: c in rb.cursors[iTree] && c != this ==> c.node == null
      ensures node == old(node)
    {
      var list := rb.cursors[iTree];
      for k := 0 to |list|
        invariant forall i :: 0 <= i < k && list[i] != this ==> list[i].wrFlag && list[i].node == null
        invariant node == old(node)
      {
        if list[k] != this {
          if !list[k].wrFlag {
            return true;
          }
          list[k].node := null;
        }
      }
      locked := false;
    }

    ghost predicate OnTable()
      reads this, rb
    {
      iTree in rb.tables && rb.tables[iTree] == tree
    }

    // The record work of an insertion: a new node where the search stopped, or new data in place.
    method Place(key: Key, data: Data) returns (op: RollbackOp)
      requires tree.RedBlack() && Sorted(tree.entries)
      modifies this, tree, tree.repr
      ensures Ready() && node != null && node.key == key && node.data == data
      ensures fresh(tree.repr - old(tree.repr)) && MapOf(tree.entries) == MapOf(old(tree.entries))[key := data]
      ensures key in MapOf(old(tree.entries)) ==> op == OpInsert(iTree, key, MapOf(old(tree.entries))[key])
      ensures key !in MapOf(old(tree.entries)) ==> op == OpDelete(iTree, key)
    {
      ghost var e := tree.entries;
      var side := Moveto(key);
      if side != 0 {
        var n := new Node(key, data);
        tree.InsertNode(node, n, side);
        node := n;
        op := OpDelete(iTree, key);
      } else {
        ReplaceSorted(e, node.pos, data);
        op := OpInsert(iTree, node.key, node.data);
        tree.Rewrite(node, node.key, data);
      }
    }

    method Store(key: Key, data: Data)
      requires rb.Valid() && OnTable() && rb.state != TransNone
      modifies this, rb`db, rb`nodes, rb`transRollback, rb`checkRollback, tree, tree.repr
      ensures rb.Valid() && fresh(tree.repr - old(tree.repr))
      ensures Ready() && node != null && node.key == key && node.data == data
      ensures rb.db == old(rb.db)[iTree := old(rb.db)[iTree][key := data]]
      ensures fresh(rb.nodes - old(rb.nodes)) &&
        (rb.state == InRollback ==>
        rb.transRollback == old(rb.transRollback) && rb.checkRollback == old(rb.checkRollback))
    {
      hide BtRbTree.RedBlack, Rbtree.TablesValid, Rbtree.LogValid, Runs, Apply, MapOf;
      rb.Separate(iTree);
      rb.TableKeys(iTree);
      var op := Place(key, data);
      rb.InsertInverse(rb.db, op, iTree, key, data);
      rb.Record(rb.db[iTree := rb.db[iTree][key := data]], op, tree.repr);
      rb.OneTableChanged(iTree);
    }

    // Insert or replace the record; the cursor ends on it (btree_rb.c:745-856).
    method Insert(key: Key, data: Data) returns (rc: Code)
      requires rb.Valid() && OnTable() && wrFlag && rb.state != TransNone
      modifies this, rb`db, rb`nodes, rb`transRollback, rb`checkRollback, tree, tree.repr
      modifies (set c | c in rb.cursors[iTree])`node
      ensures rb.Valid() && fresh(tree.repr - old(tree.repr))
      ensures rc == if old(ReadLocked()) then Locked else Ok
      ensures rc == Locked ==> rb.db == old(rb.db) && tree.repr == old(tree.repr)
      ensures rc == Ok ==> Ready() && node != null && node.key == key && node.data == data
      ensures rc == Ok ==> rb.db == old(rb.db)[iTree := old(rb.db)[iTree][key := data]]
      ensures rc == Ok ==> forall c :: c in rb.cursors[iTree] && c != this ==> c.node == null
      ensures fresh(rb.nodes - old(rb.nodes)) &&
        (rb.state == InRollback ==>
        rb.transRollback == old(rb.transRollback) && rb.checkRollback == old(rb.checkRollback))
    {
      hide BtRbTree.RedBlack, Rbtree.TablesValid, Rbtree.LogValid, ReadLocked;
      rb.Separate(iTree);
      var locked := CheckReadLocks();
      if locked {
        return Locked;
      }
      Store(key, data);
      rc := Ok;
    }
  
    // The node with two children takes over the next entry, and the next node leaves the tree instead.
    method TakeSuccessor() returns (z: Node)
      requires Ready() && node != null && node.left != null && node.right != null && eSkip == SkipNone
      modifies this, tree`entries, node`key, node`data
      ensures tree.RedBlack() && node == old(node) && node in tree.repr && z in tree.repr && z.left == null &&
        z != node && eSkip == SkipNext
      ensures var k := old(node.pos);
        && 0 <= k && k + 1 < |old(tree.entries)| == |tree.entries| && node.pos == k && z.pos == k + 1
        && RemoveAt(tree.entries, z.pos) == RemoveAt(old(tree.entries), k)
    {
      hide BtRbTree.RedBlack, Sorted, RemoveAt;
      z := node;
      var dummy := Next();
      SuccessorCopied(tree.entries, z.pos);
      tree.Rewrite(z, node.key, node.data);
      z, node := node, z;
      tree.RedBlackLinked(z);
      tree.RedBlackLinked(node);
      eSkip := SkipNext;
    }

    // Which node leaves the tree, and where the cursor waits: the entry after the removed one
    // (SkipNext) or, at the end of the table, the entry before it (SkipPrev).
    method StepOff() returns (z: Node)
      requires Ready() && node != null
      modifies this, tree`entries, node`key, node`data
      ensures tree.RedBlack() && (node != null ==> node in tree.repr)
      ensures z in tree.repr && (z.left == null || z.right == null)
      ensures var k := old(node.pos);
        && 0 <= k < |old(tree.entries)| && (z.pos == k || z.pos == k + 1) && z.pos < |tree.entries|
        && RemoveAt(tree.entries, z.pos) == RemoveAt(old(tree.entries), k)
        && (node != null ==> node != z)
        && (k + 1 < |old(tree.entries)| ==>
          node != null && eSkip == SkipNext && node.pos == if z.pos == k then k + 1 else k)
        && (k + 1 == |old(tree.entries)| ==>
          eSkip == SkipPrev && (node == null <==> k == 0) && (node != null ==> node.pos == k - 1))
    {
      hide BtRbTree.RedBlack, Sorted;
      z := node;
      eSkip := SkipNone;
      if z.left != null && z.right != null {
        z := TakeSuccessor();
      } else {
        var res := Next();
        eSkip := SkipNext;
        if res != 0 {
          res := Last();
          res := Previous();
          eSkip := SkipPrev;
        }
      }
    }

    // Remove the record under the cursor (btree_rb.c:953-1019).
    method Remove()
      requires Ready() && node != null
      modifies this, tree, tree.repr
      ensures Ready() && tree.repr <= old(tree.repr)
      ensures var k := old(node.pos);
        && 0 <= k < |old(tree.entries)| && tree.entries == RemoveAt(old(tree.entries), k) && InGap(k)
    {
      assert tree.Linked(node);
      RemoveKeepsSorted(tree.entries, node.pos);
      var z := StepOff();
      tree.SpliceOut(z);
      assert node != null ==> tree.Linked(node);
    }
  
    method Erase()
      requires rb.Valid() && OnTable() && rb.state != TransNone && Ready() && node != null
      modifies this, rb`db, rb`nodes, rb`transRollback, rb`checkRollback, tree, tree.repr
      ensures rb.Valid() && tree.repr <= old(tree.repr) && Ready()
      ensures rb.db == old(rb.db)[iTree := old(rb.db)[iTree] - {old(node.key)}]
      ensures var k := old(node.pos);
        && 0 <= k < |old(tree.entries)| && tree.entries == RemoveAt(old(tree.entries), k) && InGap(k)
      ensures fresh(rb.nodes - old(rb.nodes)) &&
        (rb.state == InRollback ==>
        rb.transRollback == old(rb.transRollback) && rb.checkRollback == old(rb.checkRollback))
    {
      hide BtRbTree.RedBlack, Rbtree.TablesValid, Rbtree.LogValid, Runs, Apply, MapOf, Sorted, RemoveAt, InGap;
      rb.Separate(iTree);
      rb.TableKeys(iTree);
      assert tree.entries[node.pos] == (node.key, node.data);
      RemoveSorted(tree.entries, node.pos);
      ghost var key := node.key;
      var op := OpInsert(iTree, node.key, node.data);
      Remove();
      rb.DeleteInverse(rb.db, iTree, op.key, op.data);
      rb.Record(rb.db[iTree := rb.db[iTree] - {key}], op, tree.repr);
      rb.OneTableChanged(iTree);
    }

    // Delete the record under the cursor (btree_rb.c:920-1021). Next then yields the first larger
    // key and Previous the first smaller one.
    method Delete() returns (rc: Code)
      requires rb.Valid() && OnTable() && wrFlag && rb.state != TransNone && Ready()
      modifies this, rb`db, rb`nodes, rb`transRollback, rb`checkRollback, tree, tree.repr
      modifies (set c | c in rb.cursors[iTree])`node
      ensures rb.Valid() && tree.repr <= old(tree.repr) && Ready()
      ensures rc == if old(ReadLocked()) then Locked else Ok
      ensures rc == Locked || old(node) == null ==>
        rb.db == old(rb.db) && node == old(node) && tree.entries == old(tree.entries)
      ensures rc == Ok && old(node) != null ==> rb.db == old(rb.db)[iTree := old(rb.db)[iTree] - {old(node.key)}]
      ensures rc == Ok && old(node) != null ==> var k := old(node.pos);
        && 0 <= k < |old(tree.entries)| && tree.entries == RemoveAt(old(tree.entries), k) && InGap(k)
      ensures fresh(rb.nodes - old(rb.nodes)) &&
        (rb.state == InRollback ==>
        rb.transRollback == old(rb.transRollback) && rb.checkRollback == old(rb.checkRollback))
    {
      hide BtRbTree.RedBlack, Rbtree.TablesValid, Rbtree.LogValid, ReadLocked, InGap;
      rb.Separate(iTree);
      var locked := CheckReadLocks();
      if locked {
        return Locked;
      }
      if node != null {
        Erase();
      }
      rc := Ok;
    }
  }

  // Overwriting an entry by its successor and dropping the successor drops the entry.
  lemma SuccessorCopied(e: seq<Entry>, k: int)
    requires 0 <= k && k + 1 < |e|
    ensures RemoveAt(e[k := e[k + 1]], k + 1) == RemoveAt(e, k)
  {
  }

  class Rbtree {
    var nextIdx: int
    var tables: map<int, BtRbTree>
    var cursors: map<int, seq<RbtCursor>>
    var state: TransState
    var transRollback: seq<RollbackOp>
    var checkRollback: seq<RollbackOp>
    // The contents of all tables now, at BeginTrans and at BeginCkpt.
    ghost var db: Db
    ghost var atBegin: Db
    ghost var atCkpt: Db
    // Every tree and every node of the tables.
    ghost var trees: set<BtRbTree>
    ghost var nodes: set<Node>

    ghost predicate TableOK(t: BtRbTree)
      reads t, t.repr
    {
      t.RedBlack() && Sorted(t.entries)
    }

    ghost predicate Valid()
      reads this, trees, nodes
    {
      && TablesValid() && LogValid()
    }

    ghost predicate TableAt(i: int)
      requires i in tables
      reads this`tables, this`cursors, this`db, this`nextIdx, this`trees, this`nodes, trees, nodes
    {
      && i < nextIdx && i in cursors && i in db
      && tables[i] in trees && tables[i].repr <= nodes
      && TableOK(tables[i]) && db[i] == MapOf(tables[i].entries)
      && forall c :: c in cursors[i] ==> c.rb == this && c.iTree == i && c.tree == tables[i]
    }

    ghost predicate Apart(i: int, j: int)
      requires i in tables && j in tables
      reads this`tables, this`cursors, this`db, this`nextIdx, this`trees, this`nodes, trees, nodes
    {
      tables[i] in trees && tables[j] in trees && tables[i] != tables[j] && tables[i].repr !! tables[j].repr
    }

    ghost predicate TablesValid()
      reads this`tables, this`cursors, this`db, this`nextIdx, this`trees, this`nodes, trees, nodes
    {
      && cursors.Keys == tables.Keys && db.Keys == tables.Keys
      && (forall i {:trigger TableAt(i)} :: i in tables ==> TableAt(i))
      && (forall i, j {:trigger Apart(i, j)} :: i in tables && j in tables && i != j ==> Apart(i, j))
    }

    lemma TableKeys(i: int)
      requires TablesValid()
      ensures tables.Keys == db.Keys == cursors.Keys
      ensures i in tables ==>
        tables[i] in trees && tables[i].repr <= nodes && (i !in Held(cursors) ==> cursors[i] == [])
    {
      hide BtRbTree.RedBlack;
      assert i in tables ==> TableAt(i);
    }

    lemma Separate(i: int)
      requires TablesValid() && i in tables
      ensures i in cursors && i in db && i < nextIdx && TableOK(tables[i]) && tables[i].RedBlack() &&
        Sorted(tables[i].entries) && db[i] == MapOf(tables[i].entries)
      ensures forall j :: j in tables && j != i ==> tables[j] != tables[i] && tables[j].repr !! tables[i].repr
    {
      hide BtRbTree.RedBlack;
      assert TableAt(i);
      forall j | j in tables && j != i
        ensures tables[j] != tables[i] && tables[j].repr !! tables[i].repr { assert Apart(i, j); }
    }

    // A change confined to one table leaves every other table as it was.
    twostate lemma OneTableChanged(i: int)
      requires old(TablesValid()) && i in old(tables) && tables == old(tables) && cursors == old(cursors) &&
        nextIdx == old(nextIdx)
      requires trees == old(trees) && old(nodes) <= nodes
      requires var t := tables[i];
        && TableOK(t) && fresh(t.repr - old(t.repr)) && t.repr <= nodes && db == old(db)[i := MapOf(t.entries)]
        && forall j :: j in tables && j != i ==> unchanged(tables[j]) && unchanged(tables[j].repr)
      ensures TablesValid()
    {
      hide BtRbTree.RedBlack, MapOf, Sorted;
      assert old(TableAt(i));
      forall j {:trigger TableAt(j)} | j in tables ensures TableAt(j) { assert old(TableAt(j)); }
      forall j, k {:trigger Apart(j, k)} | j in tables && k in tables && j != k ensures Apart(j, k) {
        assert old(Apart(j, k)) && old(TableAt(j)) && old(TableAt(k));
      }
    }

    static lemma InsertInverse(db: Db, op: RollbackOp, i: int, key: Key, data: Data)
      requires i in db && op == if key in db[i] then OpInsert(i, key, db[i][key]) else OpDelete(i, key)
      ensures var db' := db[i := db[i][key := data]]; Runs(db', op) && Apply(db', op) == db
    {
      var m := db[i][key := data];
      if key in db[i] {
        assert m[key := db[i][key]] == db[i];
      } else {
        assert m - {key} == db[i];
      }
    }

    static lemma DeleteInverse(db: Db, i: int, key: Key, data: Data)
      requires i in db && key in db[i] && db[i][key] == data
      ensures var db' := db[i := db[i] - {key}];
        Runs(db', OpInsert(i, key, data)) && Apply(db', OpInsert(i, key, data)) == db
    {
      assert (db[i] - {key})[key := data] == db[i];
    }

    ghost predicate Bounded(ops: seq<RollbackOp>)
      reads this`nextIdx
    {
      forall op :: op in ops ==> op.iTab < nextIdx
    }

    // Table numbers in use then are not given out again.
    ghost predicate Older(before: Db)
      reads this`nextIdx
    {
      forall t :: t in before ==> t < nextIdx
    }

    // The transaction's log leads back from this state to the beginning.
    ghost predicate RestoresBegin(after: Db)
      reads this`transRollback, this`atBegin, this`nextIdx
    {
      && AllRun(after, transRollback) && Undo(after, transRollback) == atBegin
      && Older(atBegin) && DropsNew(transRollback, atBegin)
    }

    // The table is new since the transaction began, and since the checkpoint did.
    ghost predicate NewTable(n: int)
      reads this`state, this`atBegin, this`atCkpt
    {
      && (state == InTransaction || state == InCheckpoint ==> n !in atBegin)
      && (state == InCheckpoint ==> n !in atCkpt)
    }

    ghost predicate LogValid()
      reads this`db, this`state, this`transRollback, this`checkRollback, this`atBegin, this`atCkpt, this`nextIdx
    {
      && Bounded(transRollback) && Bounded(checkRollback)
      && match state
         case TransNone => transRollback == [] && checkRollback == []
         case InTransaction =>
           && checkRollback == [] && RestoresBegin(db)
         case InCheckpoint =>
           && AllRun(db, checkRollback) && Undo(db, checkRollback) == atCkpt
           && RestoresBegin(atCkpt) && DropsNew(checkRollback, atBegin)
           && Older(atCkpt) && DropsNew(checkRollback, atCkpt)
         case InRollback => true
    }

    method LogRollbackOp(op: RollbackOp)
      requires state == InTransaction || state == InCheckpoint
      modifies this`transRollback, this`checkRollback
      ensures
        if state == InTransaction then
          transRollback == [op] + old(transRollback) && checkRollback == old(checkRollback)
        else
          checkRollback == [op] + old(checkRollback) && transRollback == old(transRollback)
    {
      if state == InTransaction {
        transRollback := [op] + transRollback;
      }
      if state == InCheckpoint {
        checkRollback := [op] + checkRollback;
      }
    }

    // The database moved to db' by one change whose inverse is op: log op unless rolling back.
    method Record(ghost db': Db, op: RollbackOp, ghost fresh': set<Node>)
      requires LogValid() && state != TransNone
      requires Runs(db', op) && Apply(db', op) == db && op.iTab < nextIdx && (op.OpDrop? ==> NewTable(op.iTab))
      modifies this`transRollback, this`checkRollback, this`db, this`nodes
      ensures LogValid() && db == db' && nodes == old(nodes) + fresh'
      ensures state == InRollback ==> transRollback == old(transRollback) && checkRollback == old(checkRollback)
    {
      nodes := nodes + fresh';
      if state != InRollback {
        LogInverse(db, db', op, if state == InTransaction then transRollback else checkRollback);
        LogRollbackOp(op);
      }
      db := db';
    }

    // ----- Tables.

    constructor ()
      ensures Valid() && state == TransNone && db == map[2 := map[]] && cursors == map[2 := []]
    {
      var t := new BtRbTree();
      tables, cursors, nextIdx := map[2 := t], map[2 := []], 3;
      state, transRollback, checkRollback := TransNone, [], [];
      db, trees, nodes := map[2 := map[]], {t}, {};
    }

    // btreeCreateTable: table n must not exist (btree_rb.c:585-589).
    method AddTable(n: int)
      requires TablesValid() && n !in tables && n < nextIdx
      modifies this`tables, this`cursors, this`trees, this`db
      ensures TablesValid() && cursors == old(cursors)[n := []] && db == old(db)[n := map[]]
      ensures n in tables && fresh(tables[n]) && trees == old(trees) + {tables[n]}
    {
      hide BtRbTree.RedBlack;
      var t := new BtRbTree();
      tables := tables[n := t];
      cursors := cursors[n := []];
      trees, db := trees + {t}, db[n := map[]];
      TableAdded(n);
    }

    twostate lemma TableAdded(n: int)
      requires old(TablesValid()) && n !in old(tables) && n < old(nextIdx) <= nextIdx && n in tables &&
        nodes == old(nodes)
      requires var t := tables[n];
        && fresh(t) && t.entries == [] && t.repr == {} && TableOK(t) && trees == old(trees) + {t}
        && tables == old(tables)[n := t] && cursors == old(cursors)[n := []] && db == old(db)[n := map[]]
      requires unchanged(old(trees)) && unchanged(nodes)
      ensures TablesValid()
    {
      hide BtRbTree.RedBlack, Sorted;
      forall j {:trigger TableAt(j)} | j in tables ensures TableAt(j) { if j != n { assert old(TableAt(j)); } }
      forall j, k {:trigger Apart(j, k)} | j in tables && k in tables && j != k ensures Apart(j, k) {
        assert (j != n ==> old(TableAt(j))) && (k != n ==> old(TableAt(k)));
        assert j != n && k != n ==> old(Apart(j, k));
      }
    }

    // A table number is never used twice.
    method CreateTable() returns (n: int)
      requires Valid() && state != TransNone
      modifies this`nextIdx, this`tables, this`cursors, this`trees, this`nodes, this`db, this`transRollback,
        this`checkRollback
      ensures Valid() && n == old(nextIdx) && nextIdx == n + 1 && n !in old(db) && db == old(db)[n := map[]]
      ensures cursors == old(cursors)[n := []] && n !in old(cursors)
      ensures nodes == old(nodes) && fresh(trees - old(trees))
      ensures state == InRollback ==> transRollback == old(transRollback) && checkRollback == old(checkRollback)
    {
      hide BtRbTree.RedBlack, Apply, Runs, TableAt, Apart, LogValid, Bounded, Undo, NewTable, TableOK;
      n := nextIdx;
      NumberUnused();
      nextIdx := nextIdx + 1;
      BumpedIndex();
      ghost var before := db;
      AddTable(n);
      CreateInverse(before, n);
      db := before;
      Record(before[n := map[]], OpDrop(n), {});
      assert nodes == old(nodes);
    }

    lemma NumbersOlder()
      requires TablesValid()
      ensures Older(db)
    {
      forall i | i in tables ensures i < nextIdx { assert TableAt(i); }
    }

    lemma NumberUnused()
      requires Valid()
      ensures nextIdx !in tables && nextIdx !in db && nextIdx !in cursors && NewTable(nextIdx)
    {
      forall i | i in tables ensures i < nextIdx { assert TableAt(i); }
    }

    twostate lemma BumpedIndex()
      requires old(Valid()) && nextIdx >= old(nextIdx)
      requires unchanged(this`tables, this`cursors, this`trees, this`nodes, this`db, this`state, this`transRollback,
        this`checkRollback, this`atBegin, this`atCkpt) && unchanged(trees) && unchanged(nodes)
      ensures Valid()
    {
      hide BtRbTree.RedBlack, Sorted, MapOf;
      forall j {:trigger TableAt(j)} | j in tables ensures TableAt(j) { assert old(TableAt(j)); }
      forall j, k {:trigger Apart(j, k)} | j in tables && k in tables && j != k
        ensures Apart(j, k) { assert old(Apart(j, k)); }
    }

    static lemma CreateInverse(db: Db, n: int)
      requires n !in db
      ensures Runs(db[n := map[]], OpDrop(n)) && Apply(db[n := map[]], OpDrop(n)) == db
    {
      assert db[n := map[]] - {n} == db;
    }

    // Log and free one leaf.
    method DropLeaf(n: int, t: BtRbTree, p: Node) returns (tmp: Node?)
      requires LogValid() && state != TransNone && n < nextIdx && n in db
      requires t.Shape() && Sorted(t.entries) && db[n] == MapOf(t.entries) && p in t.repr && p.left == null &&
        p.right == null
      modifies this`db, this`nodes, this`transRollback, this`checkRollback, t, t.repr
      ensures LogValid() && nodes == old(nodes) && db == old(db)[n := MapOf(t.entries)]
      ensures state == InRollback ==> transRollback == old(transRollback) && checkRollback == old(checkRollback)
      ensures t.Shape() && Sorted(t.entries) && t.repr <= old(t.repr) && |t.entries| < |old(t.entries)|
      ensures if tmp == null then t.entries == [] else tmp in t.repr
    {
      hide Apply, Runs, MapOf;
      t.ShapeLinked(p);
      tmp := p.parent;
      RemoveSorted(t.entries, p.pos);
      DeleteInverse(db, n, p.key, p.data);
      Record(db[n := db[n] - {p.key}], OpInsert(n, p.key, p.data), {});
      t.LeafParent(p);
      var c := t.Unlink(p);
    }

    // Free the nodes of table n leaf by leaf, logging each record (btree_rb.c:1026-1069).
    method ClearTable(n: int)
      requires Valid() && n in tables && state != TransNone
      modifies this`db, this`nodes, this`transRollback, this`checkRollback, tables[n], tables[n].repr
      ensures Valid() && db == old(db)[n := map[]] && nodes == old(nodes)
      ensures state == InRollback ==> transRollback == old(transRollback) && checkRollback == old(checkRollback)
    {
      hide BtRbTree.RedBlack, BtRbTree.Shape, MapOf, Sorted, LogValid, TablesValid;
      Separate(n);
      var t := tables[n];
      t.RedBlackShape();
      var p := t.head;
      while p != null
        invariant t.Shape() && Sorted(t.entries) && t.repr <= old(t.repr)
        invariant if p == null then t.entries == [] else p in t.repr
        invariant LogValid() && db == old(db)[n := MapOf(t.entries)] && nodes == old(nodes)
        invariant state == InRollback ==> transRollback == old(transRollback) && checkRollback == old(checkRollback)
        decreases |t.entries|, Width(p)
      {
        t.ShapeLinked(p);
        if p.left != null {
          p := p.left;
        } else if p.right != null {
          p := p.right;
        } else {
          p := DropLeaf(n, t, p);
        }
      }
      t.Emptied();
      t.head := null;
      t.Emptied();
      EmptyMap();
      OneTableChanged(n);
    }

    static lemma EmptyMap()
      ensures MapOf([]) == map[] && Sorted([])
    {
    }

    // Drop table n, which no cursor may hold open (btree_rb.c:668-688).
    method DropTable(n: int)
      requires Valid() && n in tables && cursors[n] == [] && state != TransNone
      modifies this`tables, this`cursors, this`db, this`nodes, this`transRollback, this`checkRollback, tables[n],
        tables[n].repr
      ensures Valid() && db == old(db) - {n} && cursors == old(cursors) - {n} && nodes == old(nodes)
      ensures state == InRollback ==> transRollback == old(transRollback) && checkRollback == old(checkRollback)
    {
      hide BtRbTree.RedBlack, Apply, Runs, TablesValid, LogValid;
      Separate(n);
      ClearTable(n);
      DropInverse(db, n);
      label Cleared:
      Record(db - {n}, OpCreate(n), {});
      assert nodes == old(nodes);
      tables := tables - {n};
      cursors := cursors - {n};
      TableDropped@Cleared(n);
    }

    twostate lemma TableDropped(n: int)
      requires old(TablesValid()) && tables == old(tables) - {n} && cursors == old(cursors) - {n} && db == old(db) - {n}
      requires unchanged(this`nextIdx, this`trees, this`nodes) && unchanged(trees) && unchanged(nodes)
      ensures TablesValid()
    {
      hide BtRbTree.RedBlack, Sorted, MapOf;
      forall j {:trigger TableAt(j)} | j in tables ensures TableAt(j) { assert old(TableAt(j)); }
      forall j, k {:trigger Apart(j, k)} | j in tables && k in tables && j != k
        ensures Apart(j, k) { assert old(Apart(j, k)); }
    }

    static lemma DropInverse(db: Db, n: int)
      requires n in db && db[n] == map[]
      ensures Runs(db - {n}, OpCreate(n)) && Apply(db - {n}, OpCreate(n)) == db
    {
      assert (db - {n})[n := map[]] == db;
    }

    // ----- Cursors.

    static ghost function CursorsOf(m: map<int, seq<RbtCursor>>): set<RbtCursor> {
      set i, c | i in m && c in m[i] :: c
    }

    // Tables that some cursor holds open, and those that some cursor reads.
    static function Held(m: map<int, seq<RbtCursor>>): set<int> {
      set i | i in m && m[i] != []
    }

    static function Reading(m: map<int, seq<RbtCursor>>): set<int> {
      set i | i in m && exists c :: c in m[i] && !c.wrFlag
    }

    // Tables without cursors come and go unnoticed.
    static lemma EmptyLists(m: map<int, seq<RbtCursor>>, n: int)
      ensures n !in m ==>
        CursorsOf(m[n := []]) == CursorsOf(m) && Held(m[n := []]) == Held(m) && Reading(m[n := []]) == Reading(m)
      ensures n in m && m[n] == [] ==>
        CursorsOf(m - {n}) == CursorsOf(m) && Held(m - {n}) == Held(m) && Reading(m - {n}) == Reading(m)
    {
      if n !in m {
        var m' := m[n := []];
        assert forall c :: c in CursorsOf(m) ==> c in CursorsOf(m') by {
          forall c | c in CursorsOf(m)
            ensures c in CursorsOf(m') { var i :| i in m && c in m[i]; assert i in m' && c in m'[i]; }
        }
      } else if m[n] == [] {
        var m' := m - {n};
        forall c | c in CursorsOf(m)
          ensures c in CursorsOf(m') { var i :| i in m && c in m[i]; assert i in m' && c in m'[i]; }
      }
    }

    method OpenCursor(iTable: int, wrFlag: bool) returns (c: RbtCursor)
      requires Valid() && iTable in tables
      modifies this`cursors
      ensures Valid() && fresh(c) && c.rb == this && c.OnTable() && c.iTree == iTable && c.wrFlag == wrFlag && c.Ready()
      ensures cursors == old(cursors)[iTable := [c] + old(cursors)[iTable]]
    {
      hide BtRbTree.RedBlack, LogValid, TablesValid;
      Separate(iTable);
      c := new RbtCursor(this, tables[iTable], iTable, wrFlag);
      cursors := cursors[iTable := [c] + cursors[iTable]];
      CursorsChanged();
    }

    twostate lemma CursorsChanged()
      requires old(TablesValid()) && cursors.Keys == old(cursors).Keys
      requires unchanged(this`nextIdx, this`trees, this`nodes, this`tables, this`db) && unchanged(trees) &&
        unchanged(nodes)
      requires forall i :: i in cursors ==> forall c :: c in cursors[i] ==>
        c in old(cursors)[i] || (c.rb == this && c.iTree == i && c.tree == tables[i])
      ensures TablesValid()
    {
      hide BtRbTree.RedBlack, Sorted, MapOf;
      forall j {:trigger TableAt(j)} | j in tables ensures TableAt(j) { assert old(TableAt(j)); }
      forall j, k {:trigger Apart(j, k)} | j in tables && k in tables && j != k
        ensures Apart(j, k) { assert old(Apart(j, k)); }
    }

    // Unlink the cursor from its table's list (btree_rb.c:1209-1223).
    method CloseCursor(c: RbtCursor)
      requires Valid() && c.iTree in cursors && c in cursors[c.iTree]
      modifies this`cursors
      ensures Valid() && cursors.Keys == old(cursors).Keys
      ensures exists k :: 0 <= k < |old(cursors)[c.iTree]| && old(cursors)[c.iTree][k] == c &&
                cursors == old(cursors)[c.iTree := old(cursors)[c.iTree][..k] + old(cursors)[c.iTree][k + 1..]]
    {
      hide BtRbTree.RedBlack, LogValid, TablesValid;
      var list := cursors[c.iTree];
      var k := 0;
      while list[k] != c
        invariant 0 <= k < |list| && c in list[k..]
        decreases |list| - k
      {
        k := k + 1;
      }
      cursors := cursors[c.iTree := list[..k] + list[k + 1..]];
      CursorsChanged();
    }

    // ----- Transactions and checkpoints.

    method BeginTrans() returns (rc: Code)
      requires Valid()
      modifies this`state, this`atBegin
      ensures Valid() && rc == if old(state) == TransNone then Ok else Error
      ensures rc == Ok ==> state == InTransaction && atBegin == db
      ensures rc == Error ==> state == old(state) && atBegin == old(atBegin)
    {
      if state != TransNone {
        return Error;
      }
      NumbersOlder();
      state := InTransaction;
      atBegin := db;
      rc := Ok;
    }

    method Commit()
      requires Valid()
      modifies this`state, this`transRollback, this`checkRollback
      ensures Valid() && state == TransNone
    {
      transRollback, checkRollback, state := [], [], TransNone;
    }

    method BeginCkpt() returns (rc: Code)
      requires Valid()
      modifies this`state, this`atCkpt
      ensures Valid() && rc == if old(state) == InTransaction then Ok else Error
      ensures rc == Ok ==> state == InCheckpoint && atCkpt == db
      ensures rc == Error ==> state == old(state) && atCkpt == old(atCkpt)
    {
      if state != InTransaction {
        return Error;
      }
      NumbersOlder();
      state := InCheckpoint;
      atCkpt := db;
      rc := Ok;
    }

    // The checkpoint's log goes in front of the transaction's: a rollback still undoes both.
    method CommitCkpt()
      requires Valid()
      modifies this`state, this`transRollback, this`checkRollback
      ensures Valid() && state == (if old(state) == InCheckpoint then InTransaction else old(state))
    {
      if state == InCheckpoint {
        UndoConcat(db, checkRollback, transRollback);
        transRollback, checkRollback := checkRollback + transRollback, [];
        state := InTransaction;
      }
    }

    // Run one undo operation; the result of a refused record operation is not looked at.
    method RunOp(op: RollbackOp)
      requires Valid() && state == InRollback && op.iTab < nextIdx
      requires if Refused(op, Reading(cursors)) then op.iTab in db else Runs(db, op)
      requires op.OpDrop? ==> op.iTab !in Held(cursors)
      modifies this`tables, this`cursors, this`db, this`nodes, this`trees, this`transRollback, this`checkRollback
      modifies trees, nodes, CursorsOf(cursors)`node
      ensures Valid() && db == ApplyLocked(old(db), op, old(Reading(cursors)))
      ensures Held(cursors) == old(Held(cursors)) && Reading(cursors) == old(Reading(cursors)) &&
        CursorsOf(cursors) == old(CursorsOf(cursors))
      ensures transRollback == old(transRollback) && checkRollback == old(checkRollback)
      ensures fresh(trees - old(trees)) && fresh(nodes - old(nodes))
    {
      hide BtRbTree.RedBlack, TablesValid, CursorsOf, Held, Reading;
      TableKeys(op.iTab);
      EmptyLists(cursors, op.iTab);
      match op
      case OpInsert(t, k, d) =>
        RunInsert(t, k, d);
      case OpDelete(t, k) =>
        RunDelete(t, k);
      case OpCreate(t) =>
        AddTable(t);
      case OpDrop(t) =>
        DropTable(t);
    }

    method RunInsert(t: int, k: Key, d: Data)
      requires Valid() && state == InRollback && t in db
      modifies this`db, this`nodes, this`transRollback, this`checkRollback, trees, nodes, CursorsOf(cursors)`node
      ensures Valid() && db == ApplyLocked(old(db), OpInsert(t, k, d), Reading(cursors))
      ensures transRollback == old(transRollback) && checkRollback == old(checkRollback)
      ensures fresh(nodes - old(nodes))
    {
      hide BtRbTree.RedBlack, LogValid, TablesValid, RbtCursor.Ready, MapOf, Sorted, CursorsOf;
      TableKeys(t);
      Separate(t);
      CursorsIn(cursors, t);
      var cur := new RbtCursor(this, tables[t], t, true);
      var rc := cur.Insert(k, d);
    }

    method RunDelete(t: int, k: Key)
      requires Valid() && state == InRollback && t in db && (t in Reading(cursors) || k in db[t])
      modifies this`db, this`nodes, this`transRollback, this`checkRollback, trees, nodes, CursorsOf(cursors)`node
      ensures Valid() && db == ApplyLocked(old(db), OpDelete(t, k), Reading(cursors))
      ensures transRollback == old(transRollback) && checkRollback == old(checkRollback)
      ensures fresh(nodes - old(nodes))
    {
      hide BtRbTree.RedBlack, LogValid, TablesValid, RbtCursor.InGap, RbtCursor.Ready, Less, RemoveAt, MapOf, Sorted,
        Slot, RbtCursor.ReadLocked, CursorsOf;
      TableKeys(t);
      Separate(t);
      CursorsIn(cursors, t);
      var cur := new RbtCursor(this, tables[t], t, true);
      var res := cur.Moveto(k);
      MovetoFinds(cur.tree.entries, k,
        if cur.node == null then 0 else if res == -1 then cur.node.pos + 1 else cur.node.pos);
      cur.LockedWhenRead();
      var rc := cur.Delete();
    }

    lemma CursorAt(t: int, k: nat)
      requires TablesValid() && t in cursors && k < |cursors[t]|
      ensures var c := cursors[t][k];
        c.rb == this && c.iTree == t && c.OnTable() && c.tree in trees && c in CursorsOf(cursors)
    {
      hide BtRbTree.RedBlack;
      assert TableAt(t);
      assert cursors[t][k] in cursors[t];
    }

    static lemma CursorsIn(m: map<int, seq<RbtCursor>>, t: int)
      requires t in m
      ensures forall c :: c in m[t] ==> c in CursorsOf(m)
      ensures t in Reading(m) <==> exists c :: c in m[t] && !c.wrFlag
    {
    }

    static lemma MovetoFinds(e: seq<Entry>, k: Key, p: int)
      requires Sorted(e)
      ensures k in MapOf(e) ==> !Slot(e, k, p) && e != []
    {
      hide MapOf;
      if k in MapOf(e) && Slot(e, k, p) {
        SlotAbsent(e, k, p);
      }
      EmptyMap();
    }

    // What the log promises about running a first and then b, whatever cursors are open.
    lemma PrepareUndo(a: seq<RollbackOp>, b: seq<RollbackOp>)
      requires TablesValid() && AllRun(db, a + b) && KeepsTables(a + b, Held(cursors))
      ensures var l := Reading(cursors);
        && l <= db.Keys && KeepsTables(a, Held(cursors)) && KeepsTables(b, Held(cursors)) && KeepsTables(a + b, l)
        && AllRunLocked(db, a, l) && AllRunLocked(UndoLocked(db, a, l), b, l)
        && UndoLocked(UndoLocked(db, a, l), b, l) == UndoLocked(db, a + b, l)
    {
      var l := Reading(cursors);
      assert l <= Held(cursors);
      UndoLockedAgrees(db, db, a + b, l);
      UndoLockedConcat(db, a, b, l);
    }

    // The two logs together undo the whole transaction.
    lemma CombinedLog()
      requires LogValid() && state != InRollback
      ensures AllRun(db, checkRollback + transRollback)
      ensures state != TransNone ==> Undo(db, checkRollback + transRollback) == atBegin
      ensures state == InCheckpoint ==> AllRun(db, checkRollback) && Undo(db, checkRollback) == atCkpt
      ensures state == InCheckpoint ==> RestoresBegin(atCkpt)
      ensures state == TransNone ==> checkRollback == [] && transRollback == []
      ensures Bounded(checkRollback) && Bounded(transRollback)
    {
      UndoConcat(db, checkRollback, transRollback);
    }

    lemma LogUnderway()
      requires state == InRollback && Bounded(transRollback) && Bounded(checkRollback)
      ensures LogValid()
    {
    }

    lemma NothingLogged()
      ensures Bounded([])
    {
    }

    // Without a checkpoint's log.
    lemma LogEmptied()
      requires checkRollback == [] && Bounded(transRollback)
      requires if state == TransNone then transRollback == [] else state == InTransaction && RestoresBegin(db)
      ensures LogValid()
    {
    }

    // Tables held open that were there at the beginning are not dropped.
    lemma LogDropsNew()
      requires LogValid() && state != InRollback
      ensures state != TransNone && Held(cursors) <= atBegin.Keys ==>
        KeepsTables(checkRollback + transRollback, Held(cursors))
      ensures state == TransNone ==> KeepsTables(checkRollback + transRollback, Held(cursors))
      ensures state == InCheckpoint && Held(cursors) <= atCkpt.Keys ==> KeepsTables(checkRollback, Held(cursors))
    {
    }

    // No table that the checkpoint's rollback drops is open exactly if all open ones were there before.
    lemma OpenTables()
      requires Valid()
      ensures state == InCheckpoint ==> (KeepsTables(checkRollback, Held(cursors)) <==> Held(cursors) <= atCkpt.Keys)
    {
      hide BtRbTree.RedBlack;
      if state == InCheckpoint {
        HeldOpen(db, checkRollback, Held(cursors));
      }
    }

    static lemma RestoredBy(db: Db, ops: seq<RollbackOp>, locked: set<int>)
      requires AllRun(db, ops) && locked <= db.Keys && KeepsTables(ops, locked)
      ensures Restored(db, Undo(db, ops), UndoLocked(db, ops, locked), Touched(ops), locked)
    {
      UndoLockedAgrees(db, db, ops, locked);
      UndoLockedRestores(db, ops, locked);
      if Touched(ops) !! locked {
        UntouchedUndo(db, ops, locked);
      }
    }

    // Both logs, one after the other, can be executed, and what that comes to.
    lemma PrepareRollback()
      requires Valid() && state != InRollback && (state != TransNone ==> Held(cursors) <= atBegin.Keys)
      ensures Bounded(checkRollback) && Bounded(transRollback)
      ensures KeepsTables(checkRollback, Held(cursors)) && KeepsTables(transRollback, Held(cursors))
      ensures var l := Reading(cursors); var undone := UndoLocked(db, checkRollback, l);
        var result := UndoLocked(undone, transRollback, l);
        && AllRunLocked(db, checkRollback, l) && AllRunLocked(undone, transRollback, l)
        && (if state == TransNone then result == db
            else Restored(db, atBegin, result, Touched(checkRollback + transRollback), l))
    {
      hide BtRbTree.RedBlack, Restored;
      CombinedLog();
      LogDropsNew();
      PrepareUndo(checkRollback, transRollback);
      RestoredBy(db, checkRollback + transRollback, Reading(cursors));
    }

    lemma PrepareCkptUndo()
      requires Valid() && state == InCheckpoint && Held(cursors) <= atCkpt.Keys
      ensures Bounded(checkRollback) && Bounded(transRollback) && KeepsTables(checkRollback, Held(cursors)) &&
        RestoresBegin(atCkpt)
      ensures var l := Reading(cursors);
        AllRunLocked(db, checkRollback, l) &&
        Restored(db, atCkpt, UndoLocked(db, checkRollback, l), Touched(checkRollback), l)
    {
      hide BtRbTree.RedBlack, Restored;
      CombinedLog();
      LogDropsNew();
      assert checkRollback + [] == checkRollback;
      PrepareUndo(checkRollback, []);
      RestoredBy(db, checkRollback, Reading(cursors));
    }

    // execute_rollback_list (btree_rb.c:1317-1359).
    method ExecuteRollbackList(list: seq<RollbackOp>)
      requires Valid() && state == InRollback && Bounded(list)
      requires AllRunLocked(db, list, Reading(cursors)) && KeepsTables(list, Held(cursors))
      modifies this`tables, this`cursors, this`db, this`nodes, this`trees, this`transRollback, this`checkRollback
      modifies trees, nodes, CursorsOf(cursors)`node
      ensures Valid() && db == UndoLocked(old(db), list, old(Reading(cursors)))
      ensures Held(cursors) == old(Held(cursors)) && Reading(cursors) == old(Reading(cursors)) &&
        CursorsOf(cursors) == old(CursorsOf(cursors))
      ensures transRollback == old(transRollback) && checkRollback == old(checkRollback)
      ensures fresh(trees - old(trees)) && fresh(nodes - old(nodes))
    {
      hide BtRbTree.RedBlack, TablesValid, LogValid, CursorsOf, Held, Reading, ApplyLocked;
      var rest := list;
      while rest != []
        invariant Valid() && Bounded(rest) && KeepsTables(rest, Held(cursors))
        invariant AllRunLocked(db, rest, Reading(cursors))
        invariant UndoLocked(db, rest, Reading(cursors)) == UndoLocked(old(db), list, old(Reading(cursors)))
        invariant Held(cursors) == old(Held(cursors)) && Reading(cursors) == old(Reading(cursors)) &&
          CursorsOf(cursors) == old(CursorsOf(cursors))
        invariant transRollback == old(transRollback) && checkRollback == old(checkRollback)
        invariant fresh(trees - old(trees)) && fresh(nodes - old(nodes))
        decreases |rest|
      {
        RunOp(rest[0]);
        rest := rest[1..];
      }
    }

    // Undo everything since BeginTrans (btree_rb.c:1361-1371). A table created since then must not be
    // open any more.
    method Rollback()
      requires Valid() && state != InRollback && (state != TransNone ==> Held(cursors) <= atBegin.Keys)
      modifies this`state, this`tables, this`cursors, this`db, this`nodes, this`trees, this`transRollback,
        this`checkRollback
      modifies trees, nodes, CursorsOf(cursors)`node
      ensures Valid() && state == TransNone
      ensures Held(cursors) == old(Held(cursors)) && Reading(cursors) == old(Reading(cursors)) &&
        CursorsOf(cursors) == old(CursorsOf(cursors))
      ensures old(state) == TransNone ==> db == old(db)
      ensures old(state) != TransNone ==>
        Restored(old(db), atBegin, db, old(Touched(checkRollback + transRollback)), old(Reading(cursors)))
      ensures fresh(trees - old(trees)) && fresh(nodes - old(nodes))
    {
      hide BtRbTree.RedBlack, TablesValid, LogValid, CursorsOf, Held, Reading, Restored, AllRunLocked, AllRun, Undo,
        UndoLocked, KeepsTables, Touched, Bounded;
      PrepareRollback();
      state := InRollback;
      LogUnderway();
      ExecuteRollbackList(checkRollback);
      ExecuteRollbackList(transRollback);
      transRollback, checkRollback, state := [], [], TransNone;
      NothingLogged();
      LogEmptied();
    }

    // Undo everything since BeginCkpt (btree_rb.c:1398-1407).
    method RollbackCkpt()
      requires Valid() && state != InRollback && (state == InCheckpoint ==> Held(cursors) <= atCkpt.Keys)
      modifies this`state, this`tables, this`cursors, this`db, this`nodes, this`trees, this`transRollback,
        this`checkRollback
      modifies trees, nodes, CursorsOf(cursors)`node
      ensures TablesValid() && state == (if old(state) == InCheckpoint then InTransaction else old(state))
      ensures Held(cursors) == old(Held(cursors)) && Reading(cursors) == old(Reading(cursors)) &&
        CursorsOf(cursors) == old(CursorsOf(cursors))
      ensures old(state) != InCheckpoint ==> db == old(db) && Valid()
      ensures old(state) == InCheckpoint ==>
        Restored(old(db), atCkpt, db, old(Touched(checkRollback)), old(Reading(cursors)))
      ensures old(state) == InCheckpoint && db == atCkpt ==> Valid()
      ensures fresh(trees - old(trees)) && fresh(nodes - old(nodes))
    {
      hide BtRbTree.RedBlack, TablesValid, LogValid, RestoresBegin, CursorsOf, Held, Reading, Restored, AllRunLocked,
        AllRun, Undo, UndoLocked, KeepsTables, Touched, Bounded;
      if state != InCheckpoint {
        return;
      }
      PrepareCkptUndo();
      state := InRollback;
      LogUnderway();
      ExecuteRollbackList(checkRollback);
      checkRollback := [];
      state := InTransaction;
      if db == atCkpt {
        LogEmptied();
      }
    }
  }

  // What a rollback achieves: without a read cursor on a touched table it restores everything;
  // with one, it restores exactly the tables nobody reads, and the rest only if they never changed.
  ghost predicate Restored(changed: Db, begin: Db, result: Db, touched: set<int>, locked: set<int>) {
    && result.Keys == begin.Keys && locked <= begin.Keys && locked <= changed.Keys
    && (touched !! locked ==> result == begin)
    && (forall t :: t in begin && t !in locked ==> result[t] == begin[t])
    && (forall t :: t in locked ==> result[t] == changed[t])
    && (result == begin <==> forall t :: t in locked ==> begin[t] == changed[t])
  }
}
