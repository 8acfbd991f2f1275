// Transactions and table locks of handles that share one b-tree (src/db_sqlite/btree.c:610-739,
// 1113-1117, 1679-1704, 1955-1994, 2065-2124, 2439-2621, 6517-6527).
module SharedCache {

  datatype Trans = NoTrans | ReadTrans | WriteTrans

  function Rank(t: Trans): nat {
    match t
    case NoTrans => 0
    case ReadTrans => 1
    case WriteTrans => 2
  }

  datatype LockKind = ReadLock | WriteLock

  datatype Code = Ok | Busy | ReadOnly | Locked | Error

  const MASTER_ROOT: nat := 1

  class Btree {
    var inTrans: Trans
    const readUncommitted: bool
  }

  datatype BtLock = BtLock(pBtree: Btree, iTable: nat, eLock: LockKind)

  // Locks of different handles on one table are all read locks.
  predicate Compatible(a: BtLock, b: BtLock) {
    a.pBtree != b.pBtree && a.iTable == b.iTable ==> a.eLock == ReadLock && b.eLock == ReadLock
  }

  ghost predicate AllCompatible(locks: seq<BtLock>) {
    forall i, j {:trigger locks[i], locks[j]} :: 0 <= i < |locks| && 0 <= j < |locks| ==> Compatible(locks[i], locks[j])
  }

  // A handle has one lock on a table at most.
  ghost predicate OneEach(locks: seq<BtLock>) {
    forall i, j {:trigger locks[i], locks[j]} :: 0 <= i < j < |locks| ==>
      locks[i].pBtree != locks[j].pBtree || locks[i].iTable != locks[j].iTable
  }

  // The locks that handles other than p hold.
  function Others(locks: seq<BtLock>, p: Btree): seq<BtLock> {
    if locks == [] then []
    else if locks[0].pBtree == p then Others(locks[1..], p)
    else [locks[0]] + Others(locks[1..], p)
  }

  lemma {:induction false} OthersAre(locks: seq<BtLock>, p: Btree, l: BtLock)
    ensures l in Others(locks, p) <==> l in locks && l.pBtree != p
    decreases |locks|
  {
    if locks != [] {
      OthersAre(locks[1..], p, l);
      assert locks == [locks[0]] + locks[1..];
    }
  }

  lemma {:induction false} OthersKeep(locks: seq<BtLock>, p: Btree)
    requires AllCompatible(locks) && OneEach(locks)
    ensures AllCompatible(Others(locks, p)) && OneEach(Others(locks, p))
    decreases |locks|
  {
    if locks != [] {
      var rest := locks[1..];
      OthersKeep(rest, p);
      var r := Others(rest, p);
      if locks[0].pBtree != p {
        forall i | 0 <= i < |r|
          ensures Compatible(locks[0], r[i]) && (r[i].pBtree != locks[0].pBtree || r[i].iTable != locks[0].iTable) {
          OthersAre(rest, p, r[i]);
          var k :| 0 <= k < |rest| && rest[k] == r[i];
          assert locks[k + 1] == r[i];
        }
      }
    }
  }

  lemma {:induction false} OthersAgain(locks: seq<BtLock>, p: Btree)
    requires forall l :: l in locks ==> l.pBtree != p
    ensures Others(locks, p) == locks
    decreases |locks|
  {
    if locks != [] {
      assert locks == [locks[0]] + locks[1..];
      OthersAgain(locks[1..], p);
    }
  }

  lemma Added(locks: seq<BtLock>, l: BtLock)
    requires AllCompatible(locks) && OneEach(locks) && forall i :: 0 <= i < |locks| ==> Compatible(locks[i], l)
    requires forall i :: 0 <= i < |locks| ==> locks[i].iTable != l.iTable || locks[i].pBtree != l.pBtree
    ensures var locks' := [l] + locks;
      AllCompatible(locks') && OneEach(locks') && forall x: BtLock :: x in locks' <==> x == l || x in locks
  {
  }

  lemma Raised(locks: seq<BtLock>, i: nat, l: BtLock)
    requires AllCompatible(locks) && OneEach(locks) && forall j :: 0 <= j < |locks| ==> Compatible(locks[j], l)
    requires i < |locks| && locks[i].pBtree == l.pBtree && locks[i].iTable == l.iTable
    ensures var locks' := locks[i := l];
      AllCompatible(locks') && OneEach(locks') && forall x: BtLock :: x in locks' ==> x == l || x in locks
    ensures forall x: BtLock :: x in locks && (x.pBtree != l.pBtree || x.iTable != l.iTable) ==> x in locks[i := l]
  {
    var locks' := locks[i := l];
    forall x: BtLock | x in locks && (x.pBtree != l.pBtree || x.iTable != l.iTable) ensures x in locks' {
      var k :| 0 <= k < |locks| && locks[k] == x;
      assert locks'[k] == x;
    }
    forall x: BtLock | x in locks' ensures x == l || x in locks {
      var k :| 0 <= k < |locks'| && locks'[k] == x;
      assert k != i ==> locks[k] == x;
    }
  }

  class BtShared {
    const readOnly: bool
    const useSharedData: bool
    var inTransaction: Trans
    var nRef: nat
    var nTransaction: int
    var page1: bool
    var nCursor: nat
    var inStmt: bool
    // The pager has a statement journal open.
    var stmtOpen: bool
    var locks: seq<BtLock>
    ghost var handles: set<Btree>

    constructor (useSharedData: bool)
      ensures Valid() && handles == {} && !inStmt && !stmtOpen && !readOnly && this.useSharedData == useSharedData
    {
      readOnly, this.useSharedData := false, useSharedData;
      inTransaction, nRef, nTransaction, page1, nCursor := NoTrans, 0, 0, false, 0;
      inStmt, stmtOpen, locks, handles := false, false, [], {};
      new;
      assert Active() == {};
    }

    ghost function Active(): set<Btree>
      reads this`handles, handles
    {
      set h | h in handles && h.inTrans != NoTrans
    }

    // The shared state is the highest of the handles'.
    ghost predicate Highest()
      reads this`handles, this`inTransaction, handles
    {
      && (forall h :: h in handles ==> Rank(h.inTrans) <= Rank(inTransaction))
      && (inTransaction != NoTrans ==> exists h :: h in handles && h.inTrans == inTransaction)
    }

    ghost predicate OneWriter()
      reads this`handles, handles
    {
      forall g, h :: g in handles && h in handles && g.inTrans == WriteTrans && h.inTrans == WriteTrans ==> g == h
    }

    ghost predicate Valid()
      reads this, handles
    {
      && Transacting()
      && (inTransaction != NoTrans ==> page1) && (readOnly ==> inTransaction != WriteTrans)
      && (inStmt ==> inTransaction == WriteTrans) && (stmtOpen ==> inTransaction == WriteTrans)
      && LocksHeld()
    }

    // The shared state and the counters are right, and one handle writes at most.
    ghost predicate Transacting()
      reads this`nRef, this`nTransaction, this`inTransaction, this`handles, handles
    {
      nRef == |handles| && nTransaction == |Active()| && Highest() && OneWriter()
    }

    ghost predicate LocksHeld()
      reads this`locks, this`handles
    {
      AllCompatible(locks) && OneEach(locks) && forall l :: l in locks ==> l.pBtree in handles
    }

    // The assertions that guard every operation (btree.c:1113-1117).
    lemma BtreeIntegrity(p: Btree)
      requires Valid() && p in handles
      ensures p.inTrans != NoTrans || nTransaction < nRef
      ensures nTransaction <= nRef
      ensures inTransaction != NoTrans || nTransaction == 0
      ensures Rank(inTransaction) >= Rank(p.inTrans)
    {
      assert handles == Active() + (handles - Active());
      if inTransaction == NoTrans {
        assert Active() == {};
      }
      if p.inTrans == NoTrans {
        assert p in handles - Active();
      }
    }

    lemma SomeoneWrites()
      requires Transacting()
      ensures inTransaction == WriteTrans <==> exists h :: h in handles && h.inTrans == WriteTrans
    {
    }

    // btree.c:1982-1994.
    method UnlockBtreeIfUnused()
      modifies this`page1, this`inStmt
      ensures page1 == (old(page1) && !(inTransaction == NoTrans && nCursor == 0))
      ensures inStmt == (old(inStmt) && !(inTransaction == NoTrans && nCursor == 0 && old(page1)))
    {
      if inTransaction == NoTrans && nCursor == 0 && page1 {
        page1, inStmt := false, false;
      }
    }

    // btree.c:2065-2124. pagerRc: what locking the file and starting a pager transaction came to.
    method BeginTrans(p: Btree, wrflag: bool, pagerRc: Code) returns (rc: Code)
      requires Valid() && p in handles
      modifies this`inTransaction, this`nTransaction, this`page1, this`inStmt, p
      ensures Valid()
      ensures var want := if wrflag then WriteTrans else ReadTrans;
        if Rank(old(p.inTrans)) >= Rank(want) then
          rc == Ok && p.inTrans == old(p.inTrans) && inTransaction == old(inTransaction)
        else if wrflag && readOnly then rc == ReadOnly && p.inTrans == old(p.inTrans)
        else if wrflag && exists h :: h in handles && old(h.inTrans) == WriteTrans then
          rc == Busy && p.inTrans == old(p.inTrans)
        else rc == pagerRc && p.inTrans == (if rc == Ok then want else old(p.inTrans))
      ensures rc != Ok ==> inTransaction == old(inTransaction) && nTransaction == old(nTransaction)
      ensures inStmt ==> old(inStmt)
      ensures rc == Ok ==> nTransaction == old(nTransaction) + if old(p.inTrans) == NoTrans then 1 else 0
      ensures rc == Ok ==>
        page1 && inTransaction == if Rank(p.inTrans) > Rank(old(inTransaction)) then p.inTrans else old(inTransaction)
    {
      hide LocksHeld, Transacting;
      BtreeIntegrity(p);
      SomeoneWrites();
      if p.inTrans == WriteTrans || (p.inTrans == ReadTrans && !wrflag) {
        return Ok;
      }
      if readOnly && wrflag {
        return ReadOnly;
      }
      if inTransaction == WriteTrans && wrflag {
        return Busy;
      }
      rc := pagerRc;
      if rc == Ok {
        page1 := true;
        if wrflag {
          inStmt := false;
        }
      } else {
        UnlockBtreeIfUnused();
      }
      if rc == Ok {
        EnterTrans(p, if wrflag then WriteTrans else ReadTrans);
      }
    }

    // The end of sqlite3BtreeBeginTrans.
    method EnterTrans(p: Btree, want: Trans)
      requires p in handles && Transacting()
      requires Rank(p.inTrans) < Rank(want) && (want == WriteTrans ==> inTransaction != WriteTrans)
      modifies this`inTransaction, this`nTransaction, p
      ensures Transacting() && p.inTrans == want
      ensures nTransaction == old(nTransaction) + if old(p.inTrans) == NoTrans then 1 else 0
      ensures inTransaction == if Rank(want) > Rank(old(inTransaction)) then want else old(inTransaction)
    {
      hide OneWriter, Highest;
      NobodyWrites();
      ghost var active := Active();
      if p.inTrans == NoTrans {
        nTransaction := nTransaction + 1;
      }
      p.inTrans := want;
      if Rank(p.inTrans) > Rank(inTransaction) {
        inTransaction := p.inTrans;
      }
      assert Active() == active + {p};
      assert p in active ==> active + {p} == active;
      StillOneWriter(p);
      GoneUp(p);
    }

    lemma NobodyWrites()
      requires Highest()
      ensures inTransaction != WriteTrans ==> forall h :: h in handles ==> h.inTrans != WriteTrans
    {
    }

    // The shared state after p has gone up.
    twostate lemma GoneUp(p: Btree)
      requires old(Highest()) && p in handles && handles == old(handles) && Rank(old(p.inTrans)) < Rank(p.inTrans)
      requires forall h :: h in handles && h != p ==> h.inTrans == old(h.inTrans)
      requires inTransaction == if Rank(p.inTrans) > Rank(old(inTransaction)) then p.inTrans else old(inTransaction)
      ensures Highest()
    {
    }

    lemma NoOtherWriter(p: Btree)
      requires OneWriter() && p in handles && p.inTrans == WriteTrans
      ensures forall h :: h in handles && h != p ==> h.inTrans != WriteTrans
    {
    }

    twostate lemma StillOneWriter(p: Btree)
      requires old(OneWriter()) && handles == old(handles) && p in handles
      requires forall h :: h in handles && h != p ==> h.inTrans == old(h.inTrans)
      requires p.inTrans == WriteTrans ==> forall h :: h in handles && h != p ==> h.inTrans != WriteTrans
      ensures OneWriter()
    {
    }

    // btree.c:721-739.
    method UnlockAllTables(p: Btree)
      modifies this`locks
      ensures locks == Others(old(locks), p)
    {
      var rest, kept := locks, [];
      while rest != []
        invariant kept + Others(rest, p) == Others(locks, p)
        decreases |rest|
      {
        if rest[0].pBtree != p {
          kept := kept + [rest[0]];
        }
        rest := rest[1..];
      }
      locks := kept;
    }

    method DropLocks(p: Btree)
      requires LocksHeld()
      modifies this`locks
      ensures LocksHeld() && locks == Others(old(locks), p)
    {
      UnlockAllTables(p);
      forall l | l in locks ensures l in old(locks) { OthersAre(old(locks), p, l); }
      OthersKeep(old(locks), p);
    }

    // What commit and rollback have in common: p leaves its transaction.
    method LeaveTrans(p: Btree)
      requires p in handles && Transacting()
      modifies this`inTransaction, this`nTransaction, p
      ensures p.inTrans == NoTrans && Transacting()
      ensures Rank(inTransaction) <= Rank(old(inTransaction)) &&
        (inTransaction == WriteTrans <==> old(inTransaction) == WriteTrans && old(p.inTrans) != WriteTrans)
    {
      hide OneWriter, Highest;
      if p.inTrans == WriteTrans { NoOtherWriter(p); }
      ghost var active := Active();
      if p.inTrans == WriteTrans {
        inTransaction := ReadTrans;
      }
      if p.inTrans != NoTrans {
        nTransaction := nTransaction - 1;
        if nTransaction == 0 {
          inTransaction := NoTrans;
        }
      }
      p.inTrans := NoTrans;
      assert Active() == active - {p} && (p !in active ==> active - {p} == active);
      assert nTransaction == |Active()|;
      StillOneWriter(p);
      Remaining(p);
    }

    // The shared state after p has left its transaction.
    twostate lemma Remaining(p: Btree)
      requires p in handles && handles == old(handles) && p.inTrans == NoTrans
      requires forall h :: h in handles && h != p ==> h.inTrans == old(h.inTrans)
      requires old(Highest()) && p in old(handles)
      requires old(p.inTrans) == WriteTrans ==> forall h :: h in handles && h != p ==> h.inTrans != WriteTrans
      requires inTransaction ==
        if old(p.inTrans) != NoTrans && |Active()| == 0 then NoTrans
        else if old(p.inTrans) == WriteTrans then ReadTrans
        else old(inTransaction)
      ensures Highest()
      ensures Rank(inTransaction) <= Rank(old(inTransaction)) &&
        (inTransaction == WriteTrans <==> old(inTransaction) == WriteTrans && old(p.inTrans) != WriteTrans)
    {
      if |Active()| == 0 {
        forall h | h in handles ensures h.inTrans == NoTrans { assert h !in Active(); }
      } else {
        var h :| h in Active();
        if old(inTransaction) == WriteTrans && old(p.inTrans) != WriteTrans {
          var w :| w in handles && old(w.inTrans) == WriteTrans;
          assert w != p;
        }
      }
    }

    // btree.c:2439-2477. Page 1 stays pinned as long as a transaction or a cursor needs it.
    method Commit(p: Btree)
      requires Valid() && p in handles
      modifies this`inTransaction, this`nTransaction, this`page1, this`inStmt, this`stmtOpen, this`locks, p
      ensures Valid() && p.inTrans == NoTrans && locks == Others(old(locks), p) &&
        (old(StatementKnown()) ==> StatementKnown())
      ensures inTransaction == WriteTrans <==> old(inTransaction) == WriteTrans && old(p.inTrans) != WriteTrans
    {
      hide LocksHeld, Transacting;
      DropLocks(p);
      if p.inTrans == WriteTrans {
        stmtOpen := false;
        inStmt := false;
      }
      LeaveTrans(p);
      UnlockBtreeIfUnused();
    }

    // The shared structure knows of the open statement.
    ghost predicate StatementKnown()
      reads this`inStmt, this`stmtOpen
    {
      inStmt == stmtOpen
    }

    // btree.c:2523-2559. A statement of another handle is forgotten: it stays open in the pager.
    method Rollback(p: Btree)
      requires Valid() && p in handles
      modifies this`inTransaction, this`nTransaction, this`page1, this`inStmt, this`stmtOpen, this`locks, p
      ensures Valid() && p.inTrans == NoTrans && locks == Others(old(locks), p)
      ensures inTransaction == WriteTrans <==> old(inTransaction) == WriteTrans && old(p.inTrans) != WriteTrans
      ensures stmtOpen == (old(stmtOpen) && old(p.inTrans) != WriteTrans) && !inStmt
      ensures StatementKnown() <==> !(old(stmtOpen) && old(p.inTrans) != WriteTrans)
    {
      hide LocksHeld, Transacting;
      DropLocks(p);
      if p.inTrans == WriteTrans {
        stmtOpen := false;
      }
      LeaveTrans(p);
      inStmt := false;
      UnlockBtreeIfUnused();
    }

    // btree.c:2576-2586.
    method BeginStmt(p: Btree) returns (rc: Code)
      requires Valid() && p in handles
      modifies this`inStmt, this`stmtOpen
      ensures Valid() && (old(StatementKnown()) ==> StatementKnown())
      ensures rc == Ok <==> p.inTrans == WriteTrans && !old(inStmt)
      ensures rc == Ok ==> inStmt && stmtOpen
      ensures rc != Ok ==>
        inStmt == old(inStmt) && stmtOpen == old(stmtOpen) && rc == if readOnly then ReadOnly else Error
    {
      if p.inTrans != WriteTrans || inStmt {
        return if readOnly then ReadOnly else Error;
      }
      stmtOpen := !readOnly;
      inStmt := true;
      rc := Ok;
    }

    // btree.c:2593-2603 and, undoing the statement's changes, 2613-2621.
    method EndStmt()
      requires Valid()
      modifies this`inStmt, this`stmtOpen
      ensures Valid() && !inStmt && stmtOpen == (old(stmtOpen) && (!old(inStmt) || readOnly))
    {
      if inStmt && !readOnly {
        stmtOpen := false;
      }
      inStmt := false;
    }

    // btree.c:1955-1969: locks the file without entering a transaction.
    method LockBtreeWithRetry(p: Btree, pagerRc: Code) returns (rc: Code)
      requires Valid() && p in handles
      modifies this`inTransaction, this`nTransaction, this`page1, this`inStmt, p
      ensures Valid() && p.inTrans == old(p.inTrans) && inTransaction == old(inTransaction) &&
        nTransaction == old(nTransaction)
      ensures rc == Ok ==> page1
    {
      hide LocksHeld, Transacting;
      BtreeIntegrity(p);
      rc := Ok;
      if p.inTrans == NoTrans {
        var inTransaction0 := inTransaction;
        label Before:
        rc := BeginTrans(p, false, pagerRc);
        inTransaction := inTransaction0;
        p.inTrans := NoTrans;
        if rc == Ok {
          nTransaction := nTransaction - 1;
        }
        AsBefore@Before(p);
      }
    }

    twostate lemma AsBefore(p: Btree)
      requires old(Transacting()) && handles == old(handles) && nRef == old(nRef)
      requires inTransaction == old(inTransaction) && nTransaction == old(nTransaction)
      requires forall h :: h in handles ==> h.inTrans == old(h.inTrans)
      ensures Transacting()
    {
      assert Active() == old(Active());
    }

    // ----- Table locks.

    // Read locks of such a handle are neither asked for nor taken, but on the master table.
    predicate Exempt(p: Btree, iTab: nat, eLock: LockKind) {
      p.readUncommitted && eLock == ReadLock && iTab != MASTER_ROOT
    }

    // btree.c:610-647.
    method QueryTableLock(p: Btree, iTab: nat, eLock: LockKind) returns (rc: Code)
      ensures rc == Ok || rc == Locked
      ensures rc == Ok <==> !useSharedData || Exempt(p, iTab, eLock) || forall l :: l in locks ==>
        Compatible(l, BtLock(p, iTab, eLock))
    {
      if !useSharedData {
        return Ok;
      }
      if !Exempt(p, iTab, eLock) {
        var i := 0;
        while i < |locks|
          invariant 0 <= i <= |locks| && forall j :: 0 <= j < i ==> Compatible(locks[j], BtLock(p, iTab, eLock))
        {
          if locks[i].pBtree != p && locks[i].iTable == iTab && (locks[i].eLock != eLock || eLock != ReadLock) {
            assert locks[i] in locks && !Compatible(locks[i], BtLock(p, iTab, eLock));
            return Locked;
          }
          i := i + 1;
        }
      }
      rc := Ok;
    }

    ghost predicate Holds(p: Btree, iTab: nat, eLock: LockKind)
      reads this`locks
    {
      BtLock(p, iTab, eLock) in locks
    }

    // btree.c:657-715.
    method LockTable(p: Btree, iTab: nat, eLock: LockKind)
      requires Valid() && p in handles
      requires !useSharedData || Exempt(p, iTab, eLock) || forall l :: l in locks ==>
        Compatible(l, BtLock(p, iTab, eLock))
      modifies this`locks
      ensures Valid()
      ensures !useSharedData || Exempt(p, iTab, eLock) ==> locks == old(locks)
      ensures useSharedData && !Exempt(p, iTab, eLock) ==>
        Holds(p, iTab, if eLock == WriteLock || old(Holds(p, iTab, WriteLock)) then WriteLock else ReadLock)
      ensures forall l: BtLock :: l.pBtree != p || l.iTable != iTab ==> (l in locks <==> l in old(locks))
    {
      if !useSharedData || Exempt(p, iTab, eLock) {
        return;
      }
      var i := 0;
      while i < |locks| && !(locks[i].iTable == iTab && locks[i].pBtree == p)
        invariant 0 <= i <= |locks| && forall j :: 0 <= j < i ==> locks[j].iTable != iTab || locks[j].pBtree != p
      {
        i := i + 1;
      }
      ghost var l := BtLock(p, iTab, eLock);
      if i == |locks| {
        Added(locks, l);
        locks := [BtLock(p, iTab, eLock)] + locks;
        assert locks[0] == l;
      } else if eLock == WriteLock && locks[i].eLock == ReadLock {
        Raised(locks, i, l);
        locks := locks[i := locks[i].(eLock := eLock)];
        assert locks[i] == l;
      } else {
        assert locks[i] == BtLock(p, iTab, ReadLock) || locks[i] == BtLock(p, iTab, WriteLock);
        assert locks[i] in locks;
        if l.eLock == ReadLock && BtLock(p, iTab, WriteLock) in locks {
          ghost var k :| 0 <= k < |locks| && locks[k] == BtLock(p, iTab, WriteLock);
          assert k == i;
        }
      }
    }

    // btree.c:6517-6527.
    method BtreeLockTable(p: Btree, iTab: nat, isWriteLock: bool) returns (rc: Code)
      requires Valid() && p in handles
      modifies this`locks
      ensures Valid() && (rc == Ok || rc == Locked) && (rc == Locked ==> locks == old(locks))
      ensures useSharedData && isWriteLock && rc == Ok ==>
        Holds(p, iTab, WriteLock) && forall l :: l in locks && l.pBtree != p ==> l.iTable != iTab
    {
      var lockType := if isWriteLock then WriteLock else ReadLock;
      rc := QueryTableLock(p, iTab, lockType);
      if rc == Ok {
        LockTable(p, iTab, lockType);
      }
    }

    // ----- Handles come and go.

    method Open() returns (p: Btree)
      requires Valid()
      modifies this`nRef, this`handles
      ensures Valid() && fresh(p) && handles == old(handles) + {p} && p.inTrans == NoTrans
      ensures inStmt == old(inStmt) && stmtOpen == old(stmtOpen) && inTransaction == old(inTransaction)
    {
      hide Transacting;
      p := new Btree;
      p.inTrans := NoTrans;
      nRef := nRef + 1;
      handles := handles + {p};
      OneHandleMore(p);
    }

    twostate lemma OneHandleMore(new p: Btree)
      requires old(Transacting()) && p !in old(handles) && handles == old(handles) + {p} && nRef == old(nRef) + 1 &&
        p.inTrans == NoTrans
      requires inTransaction == old(inTransaction) && nTransaction == old(nTransaction)
      requires forall h :: h in old(handles) ==> h.inTrans == old(h.inTrans)
      ensures Transacting()
    {
      assert Active() == old(Active());
    }

    // btree.c:1679-1704. The handle goes, with its locks, its transaction and its nOwn cursors.
    method Close(p: Btree, nOwn: nat)
      requires Valid() && p in handles && nOwn <= nCursor
      modifies this, p
      ensures Valid() && handles == old(handles) - {p} && locks == Others(old(locks), p)
      ensures inTransaction == WriteTrans <==> old(inTransaction) == WriteTrans && old(p.inTrans) != WriteTrans
    {
      hide LocksHeld, Transacting;
      DropLocks(p);
      forall l | l in locks ensures l.pBtree != p { OthersAre(old(locks), p, l); }
      nCursor := nCursor - nOwn;
      UnlockBtreeIfUnused();
      OthersAgain(locks, p);
      Rollback(p);
      Leave(p);
    }

    method Leave(p: Btree)
      requires Valid() && p in handles && p.inTrans == NoTrans && forall l :: l in locks ==> l.pBtree != p
      modifies this`nRef, this`handles
      ensures Valid() && handles == old(handles) - {p}
    {
      hide AllCompatible, OneEach;
      ghost var active := Active();
      nRef := nRef - 1;
      handles := handles - {p};
      assert Active() == active;
    }
  }

  // A run after which the shared structure no longer knows of an open statement: one handle begins a
  // statement in its write transaction, and another one rolls back, though it has no transaction.
  method ForgottenStatement() returns (s: BtShared, a: Btree)
    ensures s.Valid() && a.inTrans == WriteTrans && s.stmtOpen && !s.StatementKnown()
  {
    s := new BtShared(true);
    a := s.Open();
    var b := s.Open();
    assert s.handles == {a, b} && a.inTrans == NoTrans && b.inTrans == NoTrans;
    var rc := s.BeginTrans(a, true, Ok);
    rc := s.BeginStmt(a);
    s.Rollback(b);
  }
}
