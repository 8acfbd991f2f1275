// Search and iteration in a b-tree (src/db_sqlite/btree.c:3092-3555): a cursor walks the pages of a
// tree and always stands at a known place in the sorted list of its entries.
module BtreeCursor {

  // A page: keys of its cells, and the pages below (the left children of its cells and the right child).
  datatype PageData = PageData(leaf: bool, keys: seq<int>, child: seq<nat>)

  // The pages as a tree.
  datatype Tree = Node(pgno: nat, leaf: bool, keys: seq<int>, children: seq<Tree>)

  // ----- Entries in order. dividers: keys of interior pages are entries too (not so in leaf-data trees).

  function Entries(t: Tree, dividers: bool): seq<int>
    decreases t, 2 * |t.children| + 1
  {
    if t.leaf then t.keys else Upto(t, |t.children|, dividers)
  }

  // Entries before child i.
  function Upto(t: Tree, i: nat, dividers: bool): seq<int>
    requires i <= |t.children|
    decreases t, 2 * i
  {
    if i == 0 then [] else Through(t, i - 1, dividers) + if dividers && i - 1 < |t.keys| then [t.keys[i - 1]] else []
  }

  // Entries up to the end of child i.
  function Through(t: Tree, i: nat, dividers: bool): seq<int>
    requires i < |t.children|
    decreases t, 2 * i + 1
  {
    Upto(t, i, dividers) + Entries(t.children[i], dividers)
  }

  ghost predicate Prefix(a: seq<int>, b: seq<int>) {
    |a| <= |b| && forall i :: 0 <= i < |a| ==> b[i] == a[i]
  }

  lemma {:induction false} UptoPrefix(t: Tree, i: nat, j: nat, dividers: bool)
    requires i <= j <= |t.children|
    ensures Prefix(Upto(t, i, dividers), Upto(t, j, dividers))
    decreases j
  {
    if i < j {
      UptoPrefix(t, i, j - 1, dividers);
    }
  }

  // ----- Shape.

  predicate Proper(t: Tree, isRoot: bool) {
    && t.pgno > 0
    && (if t.leaf then t.children == [] else |t.children| == |t.keys| + 1)
    && (t.keys == [] ==> isRoot && (t.leaf || t.pgno == 1))
    && forall i :: 0 <= i < |t.children| ==> Proper(t.children[i], false)
  }

  predicate Has(t: Tree, p: nat) {
    t.pgno == p || exists i :: 0 <= i < |t.children| && Has(t.children[i], p)
  }

  // No page lies below itself.
  predicate NoLoop(t: Tree) {
    forall i :: 0 <= i < |t.children| ==> !Has(t.children[i], t.pgno) && NoLoop(t.children[i])
  }

  predicate OnFile(pages: map<nat, PageData>, t: Tree) {
    && t.pgno in pages && pages[t.pgno].leaf == t.leaf && pages[t.pgno].keys == t.keys
    && |pages[t.pgno].child| == |t.children|
    && forall i :: 0 <= i < |t.children| ==>
      pages[t.pgno].child[i] == t.children[i].pgno && OnFile(pages, t.children[i])
  }

  // ----- Order.

  ghost predicate Increasing(s: seq<int>) {
    forall i, j :: 0 <= i < j < |s| ==> s[i] < s[j]
  }

  // Cell i parts the entries: those up to it are no greater than its key, those after it greater.
  ghost predicate Parts(t: Tree, i: nat, dividers: bool)
    requires i < |t.keys| && i < |t.children|
  {
    var e, m := Entries(t, dividers), |Upto(t, i + 1, dividers)|;
    && (forall x :: 0 <= x < m && x < |e| ==> e[x] <= t.keys[i])
    && (forall x :: m <= x < |e| ==> t.keys[i] < e[x])
  }

  ghost predicate Separated(t: Tree, dividers: bool) {
    && Increasing(t.keys)
    && (forall i {:trigger Parts(t, i, dividers)} :: 0 <= i < |t.keys| && i < |t.children| ==> Parts(t, i, dividers))
    && (forall i {:trigger t.children[i]} :: 0 <= i < |t.children| ==> Separated(t.children[i], dividers))
  }

  // ----- Paths: the child taken on each page, and last the cell on the page reached.

  predicate Reaches(t: Tree, path: seq<nat>)
    decreases |path|
  {
    path != [] && (|path| > 1 ==> path[0] < |t.children| && Reaches(t.children[path[0]], path[1..]))
  }

  function At(t: Tree, path: seq<nat>): Tree
    requires Reaches(t, path)
    decreases |path|
  {
    if |path| == 1 then t else At(t.children[path[0]], path[1..])
  }

  // Entries before the page reached.
  function Base(t: Tree, path: seq<nat>, dividers: bool): nat
    requires Reaches(t, path)
    decreases |path|
  {
    if |path| == 1 then 0 else |Upto(t, path[0], dividers)| + Base(t.children[path[0]], path[1..], dividers)
  }

  datatype Link = Link(parent: nat, idx: nat) | NoParent

  // Each page on the path knows its parent and its place there.
  predicate Linked(mem: map<nat, Link>, t: Tree, path: seq<nat>)
    requires Reaches(t, path)
    decreases |path|
  {
    |path| > 1 ==>
      var c := t.children[path[0]];
      c.pgno in mem && mem[c.pgno] == Link(t.pgno, path[0]) && Linked(mem, c, path[1..])
  }

  // One page down: to child j of the page reached.
  lemma {:induction false} Down(t: Tree, path: seq<nat>, j: nat, k: nat, dividers: bool)
    requires Reaches(t, path) && j < |At(t, path).children|
    ensures var down := path[..|path| - 1] + [j, k];
      && Reaches(t, down) && At(t, down) == At(t, path).children[j]
      && Base(t, down, dividers) == Base(t, path, dividers) + |Upto(At(t, path), j, dividers)|
    decreases |path|
  {
    var down := path[..|path| - 1] + [j, k];
    if |path| > 1 {
      Down(t.children[path[0]], path[1..], j, k, dividers);
      assert down[1..] == path[1..][..|path| - 2] + [j, k];
    } else {
      assert down == [j, k] && down[1..] == [k];
    }
  }

  // The cell on the page reached does not matter to the page.
  lemma {:induction false} SamePage(t: Tree, path: seq<nat>, k: nat, dividers: bool)
    requires Reaches(t, path)
    ensures var other := path[..|path| - 1] + [k];
      Reaches(t, other) && At(t, other) == At(t, path) && Base(t, other, dividers) == Base(t, path, dividers)
    decreases |path|
  {
    var other := path[..|path| - 1] + [k];
    if |path| > 1 {
      SamePage(t.children[path[0]], path[1..], k, dividers);
      assert other[1..] == path[1..][..|path| - 2] + [k];
    }
  }

  // One page up.
  lemma {:induction false} Up(t: Tree, path: seq<nat>, dividers: bool)
    requires Reaches(t, path) && |path| > 1
    ensures var up := path[..|path| - 1]; var j := path[|path| - 2];
      && Reaches(t, up) && j < |At(t, up).children| && At(t, path) == At(t, up).children[j]
      && Base(t, path, dividers) == Base(t, up, dividers) + |Upto(At(t, up), j, dividers)|
    decreases |path|
  {
    var up := path[..|path| - 1];
    if |path| > 2 {
      Up(t.children[path[0]], path[1..], dividers);
      assert up[1..] == path[1..][..|path| - 2];
    } else {
      assert path[1..] == [path[1]] && up == [path[0]];
    }
  }

  lemma ChildPiece(t: Tree, isRoot: bool, j: nat, dividers: bool)
    requires Proper(t, isRoot) && j < |t.children|
    ensures Embedded(Entries(t, dividers), |Upto(t, j, dividers)|, Entries(t.children[j], dividers))
  {
    hide Proper;
    UptoPrefix(t, j + 1, |t.children|, dividers);
    var e, b, up := Entries(t.children[j], dividers), |Upto(t, j, dividers)|, Upto(t, j + 1, dividers);
    assert !t.leaf by { Childless(t, isRoot); }
    var through := Upto(t, j, dividers) + e;
    assert through == Through(t, j, dividers) && Prefix(through, up);
    forall i | 0 <= i < |e| ensures Entries(t, dividers)[b + i] == e[i] {
      assert through[b + i] == e[i];
    }
  }

  lemma Childless(t: Tree, isRoot: bool)
    requires Proper(t, isRoot)
    ensures t.leaf <==> t.children == []
    ensures !t.leaf ==> |t.children| == |t.keys| + 1
    ensures forall i :: 0 <= i < |t.children| ==> Proper(t.children[i], false)
    ensures t.keys == [] ==> isRoot && (t.leaf || t.pgno == 1)
  {
  }

  // e is found in all from position b on.
  ghost predicate Embedded(all: seq<int>, b: int, e: seq<int>) {
    0 <= b && b + |e| <= |all| && forall i :: 0 <= i < |e| ==> all[b + i] == e[i]
  }

  lemma EmbeddedTwice(all: seq<int>, m: int, c: seq<int>, b: int, e: seq<int>)
    requires Embedded(all, m, c) && Embedded(c, b, e)
    ensures Embedded(all, m + b, e)
  {
    forall i | 0 <= i < |e| ensures all[m + b + i] == e[i] {
      assert all[m + (b + i)] == c[b + i];
    }
  }

  lemma {:induction false} PieceOf(t: Tree, isRoot: bool, path: seq<nat>, dividers: bool)
    requires Reaches(t, path) && Proper(t, isRoot)
    ensures Embedded(Entries(t, dividers), Base(t, path, dividers), Entries(At(t, path), dividers))
    decreases |path|
  {
    hide Entries, Upto, Proper;
    if |path| > 1 {
      hide Embedded;
      Childless(t, isRoot);
      var c := t.children[path[0]];
      PieceOf(c, false, path[1..], dividers);
      ChildPiece(t, isRoot, path[0], dividers);
      EmbeddedTwice(Entries(t, dividers), |Upto(t, path[0], dividers)|, Entries(c, dividers),
        Base(c, path[1..], dividers), Entries(At(t, path), dividers));
    }
  }

  // The entries of the page reached lie in one piece among all.
  lemma Piece(t: Tree, isRoot: bool, path: seq<nat>, dividers: bool)
    requires Reaches(t, path) && Proper(t, isRoot)
    ensures var e, b, all := Entries(At(t, path), dividers), Base(t, path, dividers), Entries(t, dividers);
      b + |e| <= |all| && forall i :: 0 <= i < |e| ==> all[b + i] == e[i]
  {
    hide Entries, Base, Proper, At, Reaches;
    PieceOf(t, isRoot, path, dividers);
  }

  // ----- What holds of every page on a path.

  lemma {:induction false} PageAt(pages: map<nat, PageData>, t: Tree, isRoot: bool, path: seq<nat>, dividers: bool)
    requires Reaches(t, path) && Proper(t, isRoot) && NoLoop(t) && OnFile(pages, t) && Separated(t, dividers)
    ensures var n := At(t, path);
      Proper(n, isRoot && |path| == 1) && NoLoop(n) && OnFile(pages, n) && Separated(n, dividers)
    decreases |path|
  {
    if |path| > 1 {
      PageAt(pages, t.children[path[0]], false, path[1..], dividers);
    }
  }

  lemma {:induction false} HasPage(t: Tree, path: seq<nat>)
    requires Reaches(t, path)
    ensures Has(t, At(t, path).pgno)
    decreases |path|
  {
    if |path| > 1 {
      HasPage(t.children[path[0]], path[1..]);
    }
  }

  // A page on the path is none above it.
  lemma Apart(t: Tree, path: seq<nat>)
    requires Reaches(t, path) && NoLoop(t) && |path| > 1
    ensures At(t, path).pgno != t.pgno
  {
    HasPage(t.children[path[0]], path[1..]);
  }

  lemma {:induction false} LinkedDown(mem: map<nat, Link>, t: Tree, path: seq<nat>, dividers: bool)
    requires Reaches(t, path) && NoLoop(t) && Linked(mem, t, path) && path[|path| - 1] < |At(t, path).children|
    ensures Reaches(t, path + [0]) &&
      Linked(mem[At(t, path + [0]).pgno := Link(At(t, path).pgno, path[|path| - 1])], t, path + [0])
    decreases |path|
  {
    var j := path[|path| - 1];
    assert path[..|path| - 1] + [j, 0] == path + [0];
    Down(t, path, j, 0, dividers);
    if |path| > 1 {
      var c := t.children[path[0]];
      assert (path + [0])[1..] == path[1..] + [0];
      LinkedDown(mem, c, path[1..], dividers);
      Apart(c, path[1..] + [0]);
    } else {
      assert (path + [0])[1..] == [0];
    }
  }

  lemma {:induction false} LinkedUp(mem: map<nat, Link>, t: Tree, path: seq<nat>)
    requires Reaches(t, path) && Linked(mem, t, path) && |path| > 1
    ensures var up := path[..|path| - 1]; var p := At(t, path).pgno;
      && Reaches(t, up) && Linked(mem, t, up) && p in mem && mem[p] == Link(At(t, up).pgno, path[|path| - 2])
    decreases |path|
  {
    if |path| > 2 {
      LinkedUp(mem, t.children[path[0]], path[1..]);
      assert path[..|path| - 1][1..] == path[1..][..|path| - 2];
    } else {
      assert path[1..] == [path[1]] && path[..1] == [path[0]];
    }
  }

  lemma {:induction false} LinkedHere(mem: map<nat, Link>, t: Tree, path: seq<nat>, k: nat)
    requires Reaches(t, path) && Linked(mem, t, path)
    ensures Reaches(t, path[..|path| - 1] + [k]) && Linked(mem, t, path[..|path| - 1] + [k])
    decreases |path|
  {
    SamePage(t, path, k, true);
    if |path| > 1 {
      LinkedHere(mem, t.children[path[0]], path[1..], k);
      assert (path[..|path| - 1] + [k])[1..] == path[1..][..|path| - 2] + [k];
    }
  }

  // A page with cells has entries below it.
  lemma {:induction false} SomeEntry(t: Tree, isRoot: bool, dividers: bool)
    requires Proper(t, isRoot) && (t.leaf || t.children != []) && t.keys != []
    ensures Entries(t, dividers) != []
    decreases t
  {
    if !t.leaf {
      SomeEntry(t.children[0], false, dividers);
      ChildPiece(t, isRoot, 0, dividers);
    }
  }

  // Sizes on one page.
  lemma Sizes(t: Tree, isRoot: bool, j: nat, dividers: bool)
    requires Proper(t, isRoot) && j < |t.children|
    ensures |Through(t, j, dividers)| == |Upto(t, j, dividers)| + |Entries(t.children[j], dividers)|
    ensures j == |t.keys| ==> |Entries(t, dividers)| == |Through(t, j, dividers)|
    ensures j < |t.keys| ==> |Upto(t, j + 1, dividers)| == |Through(t, j, dividers)| + if dividers then 1 else 0
    ensures |Upto(t, 0, dividers)| == 0 && |Upto(t, j, dividers)| <= |Entries(t, dividers)|
    ensures j < |t.keys| && dividers ==>
      |Through(t, j, dividers)| < |Entries(t, dividers)| && Entries(t, dividers)[|Through(t, j, dividers)|] == t.keys[j]
  {
    Childless(t, isRoot);
    UptoPrefix(t, j, |t.children|, dividers);
    if j < |t.keys| {
      UptoPrefix(t, j + 1, |t.children|, dividers);
      if dividers {
        var up := Upto(t, j + 1, dividers);
        assert up == Through(t, j, dividers) + [t.keys[j]];
        assert up[|Through(t, j, dividers)|] == t.keys[j];
      }
    }
  }

  datatype Code = Ok | Corrupt

  class BtCursor {
    const pages: map<nat, PageData>
    const pgnoRoot: nat
    const intKey: bool
    const leafData: bool
    ghost const tree: Tree
    var pgno: nat
    var idx: nat
    var valid: bool
    var mem: map<nat, Link>
    ghost var path: seq<nat>

    // The file holds a well-ordered tree.
    ghost predicate Fixed() {
      && Proper(tree, true) && NoLoop(tree) && OnFile(pages, tree) && tree.pgno == pgnoRoot
      && Increasing(Table()) && Separated(tree, !leafData)
    }

    ghost function Table(): seq<int> {
      Entries(tree, !leafData)
    }

    ghost predicate Placed()
      reads this
    {
      && Fixed() && Reaches(tree, path) && Linked(mem, tree, path) && Page().pgno == pgno && path[|path| - 1] == idx
      && pgnoRoot in mem && mem[pgnoRoot] == NoParent
    }

    ghost function Page(): Tree
      requires Reaches(tree, path)
      reads this
    {
      At(tree, path)
    }

    // Entries before the page.
    ghost function Before(): nat
      requires Reaches(tree, path)
      reads this
    {
      Base(tree, path, !leafData)
    }

    // The place of the entry the cursor stands on. A divider of a leaf-data tree stands for the last
    // entry to its left.
    ghost function Pos(): int
      requires Reaches(tree, path) && (!Page().leaf ==> path[|path| - 1] < |Page().children|)
      reads this
    {
      Before() +
        if Page().leaf then path[|path| - 1]
        else |Through(Page(), path[|path| - 1], !leafData)| - (if leafData then 1 else 0)
    }

    // Entries before the cell.
    ghost function Slot(): nat
      requires Reaches(tree, path) && (!Page().leaf ==> path[|path| - 1] <= |Page().children|)
      reads this
    {
      Before() + if Page().leaf then path[|path| - 1] else |Upto(Page(), path[|path| - 1], !leafData)|
    }

    ghost predicate Standing()
      reads this
    {
      Placed() && (valid ==> idx < |Page().keys|)
    }

    lemma PageFacts()
      requires Placed()
      ensures pgno in pages && pages[pgno].leaf == Page().leaf && pages[pgno].keys == Page().keys &&
        |pages[pgno].child| == |Page().children|
      ensures forall j :: 0 <= j < |Page().children| ==> pages[pgno].child[j] == Page().children[j].pgno
      ensures Proper(Page(), |path| == 1) && NoLoop(Page()) && Separated(Page(), !leafData)
      ensures if Page().leaf then Page().children == [] else |Page().children| == |Page().keys| + 1
      ensures |path| > 1 ==> Page().keys != []
    {
      PageAt(pages, tree, true, path, !leafData);
    }

    // btree.c:3092-3113.
    method MoveToChild(newPgno: nat) returns (rc: Code)
      requires Placed() && idx < |Page().children| && Page().children[idx].pgno == newPgno
      modifies this`pgno, this`idx, this`mem, this`path
      ensures Placed() && path == old(path) + [0] && idx == 0 && rc == Ok
      ensures Page() == old(Page()).children[old(idx)]
      ensures Before() == old(Before()) + |Upto(old(Page()), old(idx), !leafData)|
    {
      hide Upto, Proper, OnFile, Separated, Increasing;
      PageFacts();
      assert path[..|path| - 1] + [idx, 0] == path + [0];
      Down(tree, path, idx, 0, !leafData);
      LinkedDown(mem, tree, path, !leafData);
      Apart(tree, path + [0]);
      mem := mem[newPgno := Link(pgno, idx)];
      pgno, idx := newPgno, 0;
      path := path + [0];
      PageFacts();
      rc := if |pages[pgno].keys| < 1 then Corrupt else Ok;
    }

    // btree.c:3124-3130.
    method IsRootPage() returns (r: bool)
      requires Placed()
      ensures r <==> |path| == 1 || (|path| == 2 && tree.keys == [])
    {
      hide Upto, OnFile, Separated, Increasing, Proper;
      PageFacts();
      if |path| > 1 {
        LinkedUp(mem, tree, path);
        Up(tree, path, !leafData);
        var up := path[..|path| - 1];
        PageAt(pages, tree, true, up, !leafData);
        Childless(At(tree, up), |up| == 1);
        ParentOnFile(At(tree, up));
      }
      if mem[pgno] == NoParent {
        return true;
      }
      var parent := mem[pgno].parent;
      if parent > 1 {
        return false;
      }
      r := pages[parent].keys == [];
    }

    lemma ParentOnFile(t: Tree)
      requires OnFile(pages, t)
      ensures t.pgno in pages && pages[t.pgno].keys == t.keys
    {
    }

    // btree.c:3140-3160.
    method MoveToParent()
      requires Placed() && |path| > 1
      modifies this`pgno, this`idx, this`path
      ensures Placed() && path == old(path)[..|old(path)| - 1] && idx < |Page().children|
      ensures old(Page()) == Page().children[idx]
      ensures old(Before()) == Before() + |Upto(Page(), idx, !leafData)|
    {
      hide Upto, OnFile, Separated, Increasing, Proper;
      LinkedUp(mem, tree, path);
      Up(tree, path, !leafData);
      pgno, idx := mem[pgno].parent, mem[pgno].idx;
      path := path[..|path| - 1];
    }

    // Point to cell k of the page.
    method SetIdx(k: nat)
      requires Placed()
      modifies this`idx, this`path
      ensures Placed() && idx == k && path == old(path)[..|old(path)| - 1] + [k] && Page() == old(Page()) &&
        Before() == old(Before())
    {
      hide Upto, OnFile, Separated, Increasing, Proper;
      SamePage(tree, path, k, !leafData);
      LinkedHere(mem, tree, path, k);
      idx := k;
      path := path[..|path| - 1] + [k];
    }

    // btree.c:3165-3198. The page reached holds all entries of the table.
    method MoveToRoot() returns (rc: Code)
      requires Fixed()
      modifies this
      ensures Standing() && idx == 0 && rc == Ok && Before() == 0 && Entries(Page(), !leafData) == Table()
      ensures valid <==> Page().keys != []
      ensures valid <==> Table() != []
      ensures |path| == 1 || (|path| == 2 && tree.keys == [])
    {
      hide Upto, OnFile, Separated, Increasing, Proper;
      pgno, idx, path := pgnoRoot, 0, [0];
      mem := mem[pgnoRoot := NoParent];
      rc := Ok;
      PageFacts();
      if |pages[pgno].keys| == 0 && !pages[pgno].leaf {
        var subpage := pages[pgno].child[0];
        valid := true;
        rc := MoveToChild(subpage);
        OnlyChild(tree, !leafData);
        PageFacts();
      }
      valid := |pages[pgno].keys| > 0;
      if valid { SomeEntry(Page(), |path| == 1, !leafData); }
    }

    // btree.c:3207-3220. Down to the leaf that holds the first entry at or after the cell.
    method MoveToLeftmost() returns (rc: Code)
      requires Placed() && idx < |Page().keys| && (!Page().leaf ==> idx < |Page().children|)
      modifies this`pgno, this`idx, this`mem, this`path
      ensures Placed() && rc == Ok && Page().leaf && idx < |Page().keys| && Pos() == old(Slot())
    {
      hide Upto, OnFile, Separated, Increasing, Proper;
      ghost var goal := Slot();
      PageFacts();
      while !pages[pgno].leaf
        invariant Placed() && idx < |Page().keys| && (!Page().leaf ==> idx < |Page().children|) && goal == Slot()
        invariant pgno in pages && pages[pgno].leaf == Page().leaf
        decreases Page()
      {
        PageFacts();
        rc := MoveToChild(pages[pgno].child[idx]);
        PageFacts();
        NothingBefore(Page(), !leafData);
      }
      rc := Ok;
    }

    lemma NothingBefore(t: Tree, dividers: bool)
      ensures |Upto(t, 0, dividers)| == 0
    {
    }

    // btree.c:3232-3247. Down to the leaf that holds the last entry of the page.
    method MoveToRightmost() returns (rc: Code)
      requires Placed() && Page().keys != []
      modifies this`pgno, this`idx, this`mem, this`path
      ensures Placed() && rc == Ok && Page().leaf && idx < |Page().keys|
      ensures Pos() == old(Before()) + |Entries(old(Page()), !leafData)| - 1
    {
      hide Upto, OnFile, Separated, Increasing, Proper, Entries;
      ghost var goal := Before() + |Entries(Page(), !leafData)|;
      PageFacts();
      while !pages[pgno].leaf
        invariant Placed() && Page().keys != [] && goal == Before() + |Entries(Page(), !leafData)|
        invariant pgno in pages && pages[pgno].leaf == Page().leaf && pages[pgno].keys == Page().keys
        decreases Page()
      {
        PageFacts();
        SetIdx(|pages[pgno].keys|);
        Sizes(Page(), |path| == 1, idx, !leafData);
        rc := MoveToChild(pages[pgno].child[|pages[pgno].keys|]);
        PageFacts();
      }
      SetIdx(|pages[pgno].keys| - 1);
      LeafEntries(Page(), !leafData);
      rc := Ok;
    }

    // btree.c:3253-3266: the first entry, or *pRes = 1 for an empty table.
    method First() returns (rc: Code, pRes: int)
      requires Fixed()
      modifies this
      ensures Standing() && rc == Ok && (pRes == 1 <==> Table() == []) && (pRes == 0 || pRes == 1) &&
        (valid <==> pRes == 0)
      ensures pRes == 0 ==> Page().leaf && Pos() == 0
    {
      hide Upto, OnFile, Separated, Increasing, Proper, Entries;
      rc := MoveToRoot();
      if !valid {
        return Ok, 1;
      }
      PageFacts();
      NothingBefore(Page(), !leafData);
      rc := MoveToLeftmost();
      pRes := 0;
    }

    // btree.c:3272-3285: the last entry.
    method Last() returns (rc: Code, pRes: int)
      requires Fixed()
      modifies this
      ensures Standing() && rc == Ok && (pRes == 1 <==> Table() == []) && (pRes == 0 || pRes == 1) &&
        (valid <==> pRes == 0)
      ensures pRes == 0 ==> Page().leaf && Pos() == |Table()| - 1
    {
      hide Upto, OnFile, Separated, Increasing, Proper, Entries;
      rc := MoveToRoot();
      if !valid {
        return Ok, 1;
      }
      rc := MoveToRightmost();
      pRes := 0;
    }

    lemma TopHoldsAll()
      requires Placed() && (|path| == 1 || (|path| == 2 && tree.keys == []))
      ensures Before() == 0 && Entries(Page(), !leafData) == Table()
    {
      hide Upto, OnFile, Separated, Increasing, Entries, Proper;
      Childless(tree, true);
      if |path| == 2 {
        OnlyChild(tree, !leafData);
        assert path[0] == 0 && Base(tree.children[0], path[1..], !leafData) == 0;
        assert At(tree.children[0], path[1..]) == tree.children[0];
      }
    }

    // The loop that climbs in btree.c:3438-3496: up to the first page with a cell after the page left.
    method ClimbPast(ghost p: int) returns (atEnd: bool)
      requires Placed() && Before() + |Entries(Page(), !leafData)| == p + 1
      modifies this`pgno, this`idx, this`path
      ensures Placed() && (atEnd ==> p + 1 == |Table()|)
      ensures !atEnd ==>
        idx < |Page().keys| && idx < |Page().children| && !Page().leaf &&
        Before() + |Through(Page(), idx, !leafData)| == p + 1
      ensures !atEnd && !leafData ==> p + 1 < |Table()|
    {
      hide Upto, OnFile, Separated, Increasing, Proper, Entries;
      while true
        invariant Placed() && Before() + |Entries(Page(), !leafData)| == p + 1
        decreases |path|
      {
        var atRoot := IsRootPage();
        if atRoot {
          TopHoldsAll();
          return true;
        }
        MoveToParent();
        PageFacts();
        Sizes(Page(), |path| == 1, idx, !leafData);
        if idx < |pages[pgno].keys| {
          Piece(tree, true, path, !leafData);
          return false;
        }
      }
    }

    // To the first entry below the right child.
    method IntoLastChild() returns (rc: Code)
      requires Placed() && idx == |Page().keys| && idx < |Page().children|
      modifies this`pgno, this`idx, this`mem, this`path
      ensures Placed() && rc == Ok && Page().leaf && idx < |Page().keys|
      ensures Pos() == old(Before()) + old(|Upto(Page(), idx, !leafData)|)
    {
      hide Upto, OnFile, Separated, Increasing, Entries;
      PageFacts();
      rc := MoveToChild(pages[pgno].child[|pages[pgno].keys|]);
      PageFacts();
      NothingBefore(Page(), !leafData);
      rc := MoveToLeftmost();
    }

    // btree.c:3438-3496: one entry on; past the last one *pRes is 1.
    method Next() returns (rc: Code, pRes: int)
      requires Standing() && (valid && !Page().leaf ==> idx < |Page().children|)
      modifies this
      ensures Standing() && rc == Ok && (pRes == 0 || pRes == 1) && (valid <==> pRes == 0)
      ensures !old(valid) ==> pRes == 1
      ensures old(valid) ==> (pRes == 0 <==> old(Pos()) + 1 < |Table()|)
      ensures old(valid) && pRes == 0 ==>
        (Page().leaf || (!leafData && idx < |Page().children|)) && Pos() == old(Pos()) + 1
      decreases if leafData && valid && !Page().leaf then 0 else 1
    {
      hide Upto, OnFile, Separated, Increasing, Proper, Entries;
      if !valid {
        return Ok, 1;
      }
      ghost var p := Pos();
      PageFacts();
      Piece(tree, true, path, !leafData);
      SetIdx(idx + 1);
      if idx >= |pages[pgno].keys| {
        if !pages[pgno].leaf {
          Sizes(Page(), |path| == 1, idx - 1, !leafData);
          rc := IntoLastChild();
          InTable();
          return rc, 0;
        }
        LeafEntries(Page(), !leafData);
        var atEnd := ClimbPast(p);
        if atEnd {
          valid := false;
          return Ok, 1;
        }
        if leafData {
          assert Pos() == p;
          rc, pRes := Next();
          return;
        }
        return Ok, 0;
      }
      if pages[pgno].leaf {
        LeafEntries(Page(), !leafData);
        return Ok, 0;
      }
      Sizes(Page(), |path| == 1, idx - 1, !leafData);
      rc := MoveToLeftmost();
      InTable();
      pRes := 0;
    }

    // The loop that climbs in btree.c:3504-3555: up to the first page with a cell before the page left.
    method ClimbBack(ghost p: int) returns (atStart: bool)
      requires Placed() && (if Page().leaf then idx < |Page().keys| else idx < |Page().children|) && Slot() == p
      modifies this`pgno, this`idx, this`path
      ensures Placed() && (atStart ==> p == 0)
      ensures !atStart ==>
        idx > 0 && (if Page().leaf then idx < |Page().keys| else idx < |Page().children|) && Slot() == p
    {
      hide Upto, OnFile, Separated, Increasing, Proper, Entries;
      while idx == 0
        invariant Placed() && if Page().leaf then idx < |Page().keys| else idx < |Page().children|
        invariant Slot() == p
        decreases |path|
      {
        PageFacts();
        NothingBefore(Page(), !leafData);
        var atRoot := IsRootPage();
        if atRoot {
          TopHoldsAll();
          return true;
        }
        MoveToParent();
        PageFacts();
      }
      atStart := false;
    }

    // btree.c:3504-3555: one entry back; before the first one *pRes is 1.
    method Previous() returns (rc: Code, pRes: int)
      requires Standing() && (valid && !Page().leaf ==> idx < |Page().children|)
      modifies this
      ensures Standing() && rc == Ok && (pRes == 0 || pRes == 1) && (valid <==> pRes == 0)
      ensures !old(valid) ==> pRes == 1
      ensures old(valid) && !(leafData && !old(Page()).leaf) ==> (pRes == 0 <==> old(Pos()) > 0)
      ensures old(valid) && leafData && !old(Page()).leaf ==> pRes == 0
      ensures old(valid) && pRes == 0 ==>
        (Page().leaf || (!leafData && idx < |Page().children|)) &&
        Pos() == old(Pos()) - if leafData && !old(Page()).leaf then 0 else 1
      decreases if leafData && valid && !Page().leaf then 0 else 1
    {
      hide Upto, OnFile, Separated, Increasing, Proper, Entries;
      if !valid {
        return Ok, 1;
      }
      ghost var p := Pos();
      PageFacts();
      if !pages[pgno].leaf {
        Sizes(Page(), |path| == 1, idx, !leafData);
        rc := MoveToChild(pages[pgno].child[idx]);
        PageFacts();
        rc := MoveToRightmost();
      } else {
        var atStart := ClimbBack(p);
        if atStart {
          valid := false;
          return Ok, 1;
        }
        PageFacts();
        if !Page().leaf { Sizes(Page(), |path| == 1, idx - 1, !leafData); }
        SetIdx(idx - 1);
        if leafData && !pages[pgno].leaf {
          rc, pRes := Previous();
        } else {
          rc := Ok;
        }
      }
      pRes := 0;
    }

    // The cursor stands on the entry at its place.
    lemma InTable()
      requires Placed() && idx < |Page().keys| && (Page().leaf || (!leafData && idx < |Page().children|))
      ensures 0 <= Pos() < |Table()| && Table()[Pos()] == Page().keys[idx]
      ensures pgno in pages && pages[pgno].keys == Page().keys
    {
      hide Upto, OnFile, Separated, Increasing, Proper, Entries;
      PageFacts();
      Piece(tree, true, path, !leafData);
      if Page().leaf {
        LeafEntries(Page(), !leafData);
      } else {
        Sizes(Page(), |path| == 1, idx, !leafData);
      }
    }

    // The search on one page (the inner loop of btree.c:3314-3415). c is the last comparison, of the
    // cell the cursor is left on; cells before lwr are smaller than the key.
    method SearchPage(nKey: int, tryRight: bool) returns (c: int, lwr: nat, tryRightmost: bool)
      requires Placed() && Page().keys != []
      modifies this`idx, this`path
      ensures Placed() && Page() == old(Page()) && Before() == old(Before()) && |path| == old(|path|)
      ensures idx < |Page().keys| && lwr <= |Page().keys|
      ensures forall i :: 0 <= i < lwr ==> Page().keys[i] < nKey
      ensures forall i :: lwr <= i < |Page().keys| ==> nKey < Page().keys[i] || (c == 0 && i == lwr)
      ensures c == 0 ==> idx == lwr && Page().keys[idx] == nKey
      ensures c < 0 ==> idx + 1 == lwr
      ensures c > 0 ==> idx == lwr
    {
      hide Upto, OnFile, Separated, Proper, Entries;
      PageFacts();
      KeysIncrease(Page(), !leafData);
      tryRightmost := tryRight;
      var upr := |pages[pgno].keys| - 1;
      lwr, c := 0, -1;
      while lwr <= upr
        invariant Placed() && Page() == old(Page()) && Before() == old(Before()) && |path| == old(|path|) &&
          pgno == old(pgno)
        invariant 0 <= lwr <= upr + 1 <= |Page().keys|
        invariant forall i :: 0 <= i < lwr ==> Page().keys[i] < nKey
        invariant forall i :: upr < i < |Page().keys| ==> nKey < Page().keys[i]
        invariant lwr > upr ==> c != 0 && (if c < 0 then idx + 1 == lwr else idx == lwr) && idx < |Page().keys|
        decreases upr - lwr
      {
        SetIdx((lwr + upr) / 2);
        if intKey && tryRightmost {
          SetIdx(upr);
        }
        var nCellKey := pages[pgno].keys[idx];
        if nCellKey < nKey {
          c := -1;
        } else if nCellKey > nKey {
          c := 1;
          tryRightmost := false;
        } else {
          c := 0;
          lwr := idx;
          return;
        }
        if c < 0 {
          lwr := idx + 1;
        } else {
          upr := idx - 1;
        }
      }
    }

    lemma KeysIncrease(t: Tree, dividers: bool)
      requires Separated(t, dividers)
      ensures Increasing(t.keys)
    {
    }

    // Entries outside the page reached are on their side of the key.
    ghost predicate Bracketed(nKey: int)
      requires Reaches(tree, path)
      reads this
    {
      && (forall x :: 0 <= x < Before() && x < |Table()| ==> Table()[x] < nKey)
      && (forall x :: Before() + |Entries(Page(), !leafData)| <= x < |Table()| ==> nKey < Table()[x])
    }

    lemma Narrowed(nKey: int, lwr: nat)
      requires Placed() && Bracketed(nKey) && lwr < |Page().children| && lwr <= |Page().keys|
      requires forall i :: 0 <= i < lwr ==> Page().keys[i] < nKey
      requires forall i :: lwr <= i < |Page().keys| ==>
        nKey < Page().keys[i] || (leafData && i == lwr && Page().keys[i] == nKey)
      ensures forall x :: 0 <= x < Before() + |Upto(Page(), lwr, !leafData)| && x < |Table()| ==> Table()[x] < nKey
      ensures forall x :: Before() + |Through(Page(), lwr, !leafData)| <= x < |Table()| ==> nKey < Table()[x]
    {
      hide Upto, OnFile, Separated, Proper, Entries, Through;
      NarrowedBelow(nKey, lwr);
      NarrowedAbove(nKey, lwr);
    }

    lemma NarrowedBelow(nKey: int, lwr: nat)
      requires Placed() && Bracketed(nKey) && lwr < |Page().children| && lwr <= |Page().keys|
      requires forall i :: 0 <= i < lwr ==> Page().keys[i] < nKey
      ensures forall x :: 0 <= x < Before() + |Upto(Page(), lwr, !leafData)| && x < |Table()| ==> Table()[x] < nKey
    {
      hide Upto, OnFile, Separated, Proper, Entries;
      var t, d := Page(), !leafData;
      PageFacts();
      Piece(tree, true, path, d);
      Sizes(t, |path| == 1, lwr, d);
      if lwr > 0 {
        Sizes(t, |path| == 1, lwr - 1, d);
        PartsAt(t, lwr - 1, d);
      }
      var e := Entries(t, d);
      forall x | 0 <= x < Before() + |Upto(t, lwr, d)| && x < |Table()| ensures Table()[x] < nKey {
        assert x >= Before() ==> Table()[x] == e[x - Before()];
      }
    }

    lemma NarrowedAbove(nKey: int, lwr: nat)
      requires Placed() && Bracketed(nKey) && lwr < |Page().children| && lwr <= |Page().keys|
      requires forall i :: lwr <= i < |Page().keys| ==>
        nKey < Page().keys[i] || (leafData && i == lwr && Page().keys[i] == nKey)
      ensures forall x :: Before() + |Through(Page(), lwr, !leafData)| <= x < |Table()| ==> nKey < Table()[x]
    {
      hide Upto, OnFile, Separated, Proper, Entries;
      var t, d := Page(), !leafData;
      PageFacts();
      Piece(tree, true, path, d);
      Sizes(t, |path| == 1, lwr, d);
      if lwr < |t.keys| {
        PartsAt(t, lwr, d);
      }
      var e := Entries(t, d);
      forall x | Before() + |Through(t, lwr, d)| <= x < |Table()| ensures nKey < Table()[x] {
        assert x < Before() + |e| ==> Table()[x] == e[x - Before()];
      }
    }

    lemma PartsAt(t: Tree, i: nat, dividers: bool)
      requires Separated(t, dividers) && i < |t.keys| && i < |t.children|
      ensures Parts(t, i, dividers)
    {
    }

    // What *pRes says about the entry the cursor is left on.
    ghost predicate Near(nKey: int, c: int)
      requires Reaches(tree, path) && (!Page().leaf ==> path[|path| - 1] < |Page().children|)
      reads this
    {
      && 0 <= Pos() < |Table()|
      && (c == 0 <==> Table()[Pos()] == nKey)
      && (c < 0 ==> Table()[Pos()] < nKey && (Pos() + 1 < |Table()| ==> nKey < Table()[Pos() + 1]))
      && (c > 0 ==> nKey < Table()[Pos()] && (Pos() > 0 ==> Table()[Pos() - 1] < nKey))
    }

    lemma Nearest(nKey: int, c: int, lwr: nat)
      requires Placed() && Bracketed(nKey) && Page().leaf && idx < |Page().keys| && lwr <= |Page().keys|
      requires forall i :: 0 <= i < lwr ==> Page().keys[i] < nKey
      requires forall i :: lwr <= i < |Page().keys| ==> nKey < Page().keys[i]
      requires c != 0 && if c < 0 then idx + 1 == lwr else idx == lwr
      ensures Near(nKey, c)
    {
      hide Upto, OnFile, Separated, Proper, Entries;
      InTable();
      PageFacts();
      LeafEntries(Page(), !leafData);
      Piece(tree, true, path, !leafData);
      assert idx + 1 < |Page().keys| ==> Table()[Before() + (idx + 1)] == Page().keys[idx + 1];
      assert idx > 0 ==> Table()[Before() + (idx - 1)] == Page().keys[idx - 1];
    }

    // btree.c:3314-3415. noKey: no key text was given.
    method Moveto(noKey: bool, nKey: int) returns (rc: Code, pRes: int)
      requires Fixed()
      modifies this
      ensures Standing() && (valid <==> Table() != [])
      ensures rc == Corrupt <==> valid && !intKey && noKey
      ensures !valid ==> pRes == -1
      ensures rc == Ok && valid ==> (Page().leaf || (!leafData && idx < |Page().children|)) && Near(nKey, pRes)
    {
      hide Upto, OnFile, Separated, Proper, Entries, Increasing;
      rc := MoveToRoot();
      var tryRightmost := intKey;
      if !valid {
        return Ok, -1;
      }
      while true
        invariant Placed() && valid && Page().keys != [] && Bracketed(nKey) && idx < |Page().keys| && Table() != []
        decreases Page()
      {
        if !intKey && noKey {
          return Corrupt, 0;
        }
        PageFacts();
        var c, lwr;
        c, lwr, tryRightmost := SearchPage(nKey, tryRightmost);
        if c == 0 && !(leafData && !pages[pgno].leaf) {
          InTable();
          return Ok, 0;
        }
        if pages[pgno].leaf {
          Nearest(nKey, c, lwr);
          return Ok, c;
        }
        rc := Descend(nKey, lwr);
      }
    }

    // On to the child where the key belongs.
    method Descend(nKey: int, lwr: nat) returns (rc: Code)
      requires Placed() && Bracketed(nKey) && lwr < |Page().children| && lwr <= |Page().keys|
      requires forall i :: 0 <= i < lwr ==> Page().keys[i] < nKey
      requires forall i :: lwr <= i < |Page().keys| ==>
        nKey < Page().keys[i] || (leafData && i == lwr && Page().keys[i] == nKey)
      modifies this`pgno, this`idx, this`mem, this`path
      ensures Placed() && rc == Ok && Page() == old(Page()).children[lwr] && Page().keys != [] && idx == 0 &&
        Bracketed(nKey)
    {
      hide Upto, OnFile, Separated, Proper, Entries, Increasing;
      PageFacts();
      Narrowed(nKey, lwr);
      Sizes(Page(), |path| == 1, lwr, !leafData);
      SetIdx(lwr);
      rc := MoveToChild(pages[pgno].child[lwr]);
      PageFacts();
    }

    // First and then Next until the end: every entry once, in order.
    method Scan() returns (seen: seq<int>)
      requires Fixed()
      modifies this
      ensures seen == Table() && Increasing(seen)
    {
      hide Upto, OnFile, Separated, Proper, Entries, Increasing;
      var rc, pRes := First();
      seen := [];
      while pRes == 0
        invariant Standing() && Fixed() && (valid <==> pRes == 0) && (pRes == 0 || pRes == 1)
        invariant valid ==>
          (Page().leaf || (!leafData && idx < |Page().children|)) && 0 <= Pos() < |Table()| && seen == Table()[..Pos()]
        invariant !valid ==> seen == Table()
        decreases if valid then |Table()| - Pos() else 0
      {
        InTable();
        seen := seen + [pages[pgno].keys[idx]];
        ghost var p := Pos();
        assert seen == Table()[..p + 1];
        rc, pRes := Next();
        if valid { InTable(); }
      }
    }

    lemma LeafEntries(t: Tree, dividers: bool)
      requires t.leaf
      ensures Entries(t, dividers) == t.keys
    {
    }
  }

  lemma OnlyChild(t: Tree, dividers: bool)
    requires |t.children| == 1 && t.keys == [] && !t.leaf
    ensures Entries(t, dividers) == Entries(t.children[0], dividers) && |Upto(t, 0, dividers)| == 0
  {
    assert Upto(t, 1, dividers) == Through(t, 0, dividers) + [];
  }
}
