// Rebalancing up to three neighbouring pages (balance_nonroot, src/db_sqlite/btree.c:4389-4929):
// their cells and the dividers between them are gathered, distributed anew, and put back with new
// dividers in the parent.
module Balance {

  import opened Packing

  // On interior pages child is the page left of the entry; on leaves it means nothing.
  datatype Cell = Cell(child: int, key: int, data: int)

  // right is the rightmost child of an interior page.
  datatype Node = Node(pgno: int, cells: seq<Cell>, right: int)

  // What a tree walk meets on a page.
  datatype Token = Child(pgno: int) | Entry(key: int, data: int)

  function CellTokens(cells: seq<Cell>, leaf: bool): seq<Token> {
    if cells == [] then [] else
      var c := cells[|cells| - 1];
      CellTokens(cells[..|cells| - 1], leaf) +
        (if leaf then [Entry(c.key, c.data)] else [Child(c.child), Entry(c.key, c.data)])
  }

  function Tokens(n: Node, leaf: bool): seq<Token> {
    CellTokens(n.cells, leaf) + if leaf then [] else [Child(n.right)]
  }

  // The first n pages, each followed by its divider; in leaf-data trees dividers are no entries.
  function Region(nodes: seq<Node>, divs: seq<Cell>, n: nat, leaf: bool, leafData: bool): seq<Token>
    requires n <= |nodes|
  {
    if n == 0 then [] else
      Region(nodes, divs, n - 1, leaf, leafData) + Tokens(nodes[n - 1], leaf)
      + if n - 1 < |divs| && !leafData then [Entry(divs[n - 1].key, divs[n - 1].data)] else []
  }

  lemma {:induction false} CellTokensConcat(a: seq<Cell>, b: seq<Cell>, leaf: bool)
    ensures CellTokens(a + b, leaf) == CellTokens(a, leaf) + CellTokens(b, leaf)
    decreases |b|
  {
    if b == [] {
      assert a + b == a;
    } else {
      var n := |b| - 1;
      CellTokensConcat(a, b[..n], leaf);
      assert (a + b)[..|a + b| - 1] == a + b[..n];
    }
  }

  lemma OneCell(c: Cell, leaf: bool)
    ensures CellTokens([c], leaf) == if leaf then [Entry(c.key, c.data)] else [Child(c.child), Entry(c.key, c.data)]
  {
    assert CellTokens([c][..0], leaf) == [];
  }

  lemma {:induction false} RegionGrows(nodes: seq<Node>, divs: seq<Cell>, nodes': seq<Node>, divs': seq<Cell>, n: nat,
      leaf: bool, leafData: bool)
    requires n <= |nodes| && nodes <= nodes' && divs <= divs' && n <= |divs|
    ensures Region(nodes', divs', n, leaf, leafData) == Region(nodes, divs, n, leaf, leafData)
    decreases n
  {
    if n > 0 {
      RegionGrows(nodes, divs, nodes', divs', n - 1, leaf, leafData);
    }
  }

  // A page's cells, then a divider that has taken over the page's right child.
  lemma PageAndDivider(all: seq<Cell>, n: Node, c: Cell, leaf: bool)
    requires !leaf ==> c.child == n.right
    ensures CellTokens(all + n.cells, leaf) + (if leaf then [] else [Child(n.right)]) ==
      CellTokens(all, leaf) + Tokens(n, leaf)
    ensures CellTokens(all + n.cells + [c], leaf) == CellTokens(all, leaf) + Tokens(n, leaf) + [Entry(c.key, c.data)]
  {
    CellTokensConcat(all, n.cells, leaf);
    CellTokensConcat(all + n.cells, [c], leaf);
    OneCell(c, leaf);
  }

  // ----- Gathering.

  function ChildAt(p: Node, k: nat): int
    requires k <= |p.cells|
  {
    if k < |p.cells| then p.cells[k].child else p.right
  }

  function WithChildAt(p: Node, k: nat, pgno: int): Node
    requires k <= |p.cells|
  {
    if k < |p.cells| then p.(cells := p.cells[k := p.cells[k].(child := pgno)]) else p.(right := pgno)
  }

  // olds are children of the parent from slot nxDiv on.
  ghost predicate Siblings(p: Node, nxDiv: nat, olds: seq<Node>) {
    olds != [] && nxDiv + |olds| - 1 <= |p.cells| && forall i :: 0 <= i < |olds| ==>
      olds[i].pgno == ChildAt(p, nxDiv + i)
  }

  function DropCell(p: Node, k: nat): Node
    requires k < |p.cells|
  {
    p.(cells := p.cells[..k] + p.cells[k + 1..])
  }

  function InsertCell(p: Node, k: nat, c: Cell): Node
    requires k <= |p.cells|
  {
    p.(cells := p.cells[..k] + [c] + p.cells[k..])
  }

  // All cells of the siblings; dividers between them included and dropped from the parent.
  method Gather(p0: Node, nxDiv: nat, olds: seq<Node>, leaf: bool, leafData: bool) returns (p: Node, all: seq<Cell>)
    requires Siblings(p0, nxDiv, olds) && (leafData ==> leaf)
    ensures p == p0.(cells := p0.cells[..nxDiv] + p0.cells[nxDiv + |olds| - 1..])
    ensures CellTokens(all, leaf) + (if leaf then [] else [Child(olds[|olds| - 1].right)]) ==
      Region(olds, p0.cells[nxDiv..nxDiv + |olds| - 1], |olds|, leaf, leafData)
  {
    hide CellTokens, Tokens, Region;
    p, all := p0, [];
    ghost var divs := p0.cells[nxDiv..nxDiv + |olds| - 1];
    NoPages(olds, divs, leaf, leafData);
    var i := 0;
    while i < |olds| - 1
      invariant 0 <= i <= |olds| - 1
      invariant p == p0.(cells := p0.cells[..nxDiv] + p0.cells[nxDiv + i..])
      invariant CellTokens(all, leaf) == Region(olds, divs, i, leaf, leafData)
    {
      var div := p.cells[nxDiv];
      var c := if leaf then div else div.(child := olds[i].right);
      GatherStep(olds, divs, all, i, c, leaf, leafData);
      all := all + olds[i].cells + if leafData then [] else [c];
      DropOne(p0.cells, nxDiv, i);
      p := DropCell(p, nxDiv);
      i := i + 1;
    }
    GatherLast(olds, divs, all, leaf, leafData);
    all := all + olds[i].cells;
  }

  lemma NoPages(olds: seq<Node>, divs: seq<Cell>, leaf: bool, leafData: bool)
    ensures CellTokens([], leaf) == Region(olds, divs, 0, leaf, leafData)
  {
  }

  lemma GatherStep(olds: seq<Node>, divs: seq<Cell>, all: seq<Cell>, i: nat, c: Cell, leaf: bool, leafData: bool)
    requires i < |olds| && i < |divs| && CellTokens(all, leaf) == Region(olds, divs, i, leaf, leafData) &&
      (leafData ==> leaf)
    requires c.key == divs[i].key && c.data == divs[i].data && (!leaf ==> c.child == olds[i].right)
    ensures CellTokens(all + olds[i].cells + (if leafData then [] else [c]), leaf) ==
      Region(olds, divs, i + 1, leaf, leafData)
  {
    hide CellTokens, Tokens;
    PageAndDivider(all, olds[i], c, leaf);
    assert all + olds[i].cells + [] == all + olds[i].cells;
  }

  lemma GatherLast(olds: seq<Node>, divs: seq<Cell>, all: seq<Cell>, leaf: bool, leafData: bool)
    requires olds != [] && |divs| == |olds| - 1 &&
      CellTokens(all, leaf) == Region(olds, divs, |olds| - 1, leaf, leafData)
    ensures var n := olds[|olds| - 1];
      CellTokens(all + n.cells, leaf) + (if leaf then [] else [Child(n.right)]) ==
        Region(olds, divs, |olds|, leaf, leafData)
  {
    hide CellTokens;
    CellTokensConcat(all, olds[|olds| - 1].cells, leaf);
  }

  lemma DropOne(cells: seq<Cell>, nxDiv: nat, i: nat)
    requires nxDiv + i < |cells|
    ensures var cs := cells[..nxDiv] + cells[nxDiv + i..];
      cs[nxDiv] == cells[nxDiv + i] && cs[..nxDiv] + cs[nxDiv + 1..] == cells[..nxDiv] + cells[nxDiv + i + 1..]
  {
  }

  lemma InsertOne(cells: seq<Cell>, nxDiv: nat, divs: seq<Cell>, d: Cell)
    requires nxDiv <= |cells|
    ensures var cs := cells[..nxDiv] + divs + cells[nxDiv..];
      cs[..nxDiv + |divs|] + [d] + cs[nxDiv + |divs|..] == cells[..nxDiv] + (divs + [d]) + cells[nxDiv..]
  {
    var cs := cells[..nxDiv] + divs + cells[nxDiv..];
    assert cs[..nxDiv + |divs|] == cells[..nxDiv] + divs && cs[nxDiv + |divs|..] == cells[nxDiv..];
  }

  // ----- Putting back.

  // Page numbers in ascending order (the O(n^2) sort of btree.c:4763-4782).
  method SortPages(pgnos: seq<int>) returns (r: seq<int>)
    ensures multiset(r) == multiset(pgnos) && forall i, j :: 0 <= i < j < |r| ==> r[i] <= r[j]
  {
    r := pgnos;
    var i := 0;
    while i < |r| - 1
      invariant 0 <= i && (i < |r| || r == []) && |r| == |pgnos| && multiset(r) == multiset(pgnos)
      invariant forall x, y :: 0 <= x < y < |r| && x < i ==> r[x] <= r[y]
    {
      var minI := MinFrom(r, i);
      if minI > i {
        r := r[i := r[minI]][minI := r[i]];
      }
      i := i + 1;
    }
  }

  method MinFrom(r: seq<int>, i: nat) returns (minI: nat)
    requires i < |r|
    ensures i <= minI < |r| && forall x :: i <= x < |r| ==> r[minI] <= r[x]
  {
    minI := i;
    var j := i + 1;
    while j < |r|
      invariant i <= minI < j <= |r| && forall x :: i <= x < j ==> r[minI] <= r[x]
    {
      if r[j] < r[minI] {
        minI := j;
      }
      j := j + 1;
    }
  }

  // The divider after a page that ends before cell j: in leaf-data trees a copy of the page's last
  // key, otherwise cell j itself; either way with the page as its left child.
  function Divider(all: seq<Cell>, j: nat, pgno: int, leafData: bool): Cell
    requires j < |all| && (leafData ==> j > 0)
  {
    if leafData then Cell(pgno, all[j - 1].key, 0) else all[j].(child := pgno)
  }

  // Page i as it is assembled. The divider after an interior page gives it its right child.
  function NewPage(all: seq<Cell>, cnt: seq<nat>, i: nat, pgno: int, lastRight: int, leaf: bool, leafData: bool): Node
    requires i < |cnt| && Start(cnt, i, leafData) <= cnt[i] <= |all|
  {
    Node(pgno, all[Start(cnt, i, leafData)..cnt[i]],
         if i == |cnt| - 1 then lastRight else if leaf || cnt[i] == |all| then 0 else all[cnt[i]].child)
  }

  lemma {:induction false} RegionStep(nodes: seq<Node>, divs: seq<Cell>, n: Node, d: Cell, leaf: bool, leafData: bool)
    requires |nodes| == |divs|
    ensures Region(nodes + [n], divs + [d], |nodes| + 1, leaf, leafData)
         == Region(nodes, divs, |nodes|, leaf, leafData) + Tokens(n, leaf) +
            if leafData then [] else [Entry(d.key, d.data)]
  {
    RegionGrows(nodes, divs, nodes + [n], divs + [d], |nodes|, leaf, leafData);
  }

  lemma {:induction false} RegionLast(nodes: seq<Node>, divs: seq<Cell>, n: Node, leaf: bool, leafData: bool)
    requires |nodes| == |divs|
    ensures Region(nodes + [n], divs, |nodes| + 1, leaf, leafData) ==
      Region(nodes, divs, |nodes|, leaf, leafData) + Tokens(n, leaf)
  {
    RegionGrows(nodes, divs, nodes + [n], divs, |nodes|, leaf, leafData);
  }

  // The split points cut all into non-empty pages, with a cell left between two of them in index trees.
  ghost predicate Cuts(all: seq<Cell>, cnt: seq<nat>, leafData: bool) {
    && cnt != [] && cnt[|cnt| - 1] == |all|
    && forall i {:trigger Cut(all, cnt, i, leafData)} :: 0 <= i < |cnt| ==> Cut(all, cnt, i, leafData)
  }

  ghost predicate Cut(all: seq<Cell>, cnt: seq<nat>, i: nat, leafData: bool) {
    i < |cnt| && Start(cnt, i, leafData) < cnt[i] <= |all| && (i < |cnt| - 1 ==> cnt[i] < |all|)
  }

  // The first pages and dividers are as they should be.
  ghost predicate Assembled(all: seq<Cell>, cnt: seq<nat>, pgnos: seq<int>, lastRight: int, leaf: bool, leafData: bool,
      news: seq<Node>, divs: seq<Cell>) {
    && Cuts(all, cnt, leafData) && |pgnos| == |cnt| && |news| <= |cnt| && |divs| < |cnt|
    && (forall i {:trigger news[i]} :: 0 <= i < |news| ==>
      Cut(all, cnt, i, leafData) && news[i] == NewPage(all, cnt, i, pgnos[i], lastRight, leaf, leafData))
    && (forall i {:trigger divs[i]} :: 0 <= i < |divs| ==>
      Cut(all, cnt, i, leafData) && divs[i] == Divider(all, cnt[i], pgnos[i], leafData))
  }

  method Distribute(p0: Node, nxDiv: nat, all: seq<Cell>, cnt: seq<nat>, pgnos: seq<int>, lastRight: int, leaf: bool,
      leafData: bool)
    returns (p: Node, news: seq<Node>, ghost divs: seq<Cell>)
    requires nxDiv <= |p0.cells| && (leafData ==> leaf) && |pgnos| == |cnt| && Cuts(all, cnt, leafData)
    ensures |news| == |cnt| && |divs| == |cnt| - 1 && Assembled(all, cnt, pgnos, lastRight, leaf, leafData, news, divs)
    ensures p == WithChildAt(p0.(cells := p0.cells[..nxDiv] + divs + p0.cells[nxDiv..]), nxDiv + |divs|,
      pgnos[|pgnos| - 1])
    ensures Region(news, divs, |news|, leaf, leafData) ==
      CellTokens(all, leaf) + if leaf then [] else [Child(lastRight)]
  {
    hide CellTokens, Tokens, Region, Assembled;
    p, news, divs := p0, [], [];
    assert p0.cells[..nxDiv] + [] + p0.cells[nxDiv..] == p0.cells;
    NoPages(news, divs, leaf, leafData);
    assert all[..0] == [];
    NothingAssembled(all, cnt, pgnos, lastRight, leaf, leafData);
    var j, i, slot := 0, 0, nxDiv;
    while i < |cnt| - 1
      invariant 0 <= i <= |cnt| - 1 && |news| == |divs| == i && slot == nxDiv + i
      invariant j == Start(cnt, i, leafData) && j <= |all|
      invariant Assembled(all, cnt, pgnos, lastRight, leaf, leafData, news, divs)
      invariant p == p0.(cells := p0.cells[..nxDiv] + divs + p0.cells[nxDiv..])
      invariant Region(news, divs, i, leaf, leafData) == CellTokens(all[..j], leaf)
    {
      assert Cut(all, cnt, i, leafData);
      ghost var j0 := j;
      var n := Node(pgnos[i], all[j..cnt[i]], if leaf then 0 else all[cnt[i]].child);
      j := cnt[i];
      var d := Divider(all, j, n.pgno, leafData);
      PageTokens(all, j0, j, n, leaf, leafData);
      RegionStep(news, divs, n, d, leaf, leafData);
      AssembledMore(all, cnt, pgnos, lastRight, leaf, leafData, news, divs, n, d);
      p := Insert(p, p0, nxDiv, divs, d, slot);
      news, divs := news + [n], divs + [d];
      j := if leafData then j else j + 1;
      slot := slot + 1;
      i := i + 1;
    }
    assert Cut(all, cnt, i, leafData);
    var n := Node(pgnos[i], all[j..cnt[i]], lastRight);
    RegionLast(news, divs, n, leaf, leafData);
    LastTokens(all, j, n, leaf);
    AssembledLast(all, cnt, pgnos, lastRight, leaf, leafData, news, divs, n);
    news := news + [n];
    p := WithChildAt(p, slot, n.pgno);
  }

  // One more divider in the parent, after those already put back.
  method Insert(p: Node, ghost p0: Node, ghost nxDiv: nat, ghost divs: seq<Cell>, d: Cell, slot: nat) returns (p': Node)
    requires nxDiv <= |p0.cells| && p == p0.(cells := p0.cells[..nxDiv] + divs + p0.cells[nxDiv..]) &&
      slot == nxDiv + |divs|
    ensures p' == p0.(cells := p0.cells[..nxDiv] + (divs + [d]) + p0.cells[nxDiv..])
  {
    InsertOne(p0.cells, nxDiv, divs, d);
    p' := InsertCell(p, slot, d);
  }

  lemma NothingAssembled(all: seq<Cell>, cnt: seq<nat>, pgnos: seq<int>, lastRight: int, leaf: bool, leafData: bool)
    requires Cuts(all, cnt, leafData) && |pgnos| == |cnt|
    ensures Assembled(all, cnt, pgnos, lastRight, leaf, leafData, [], [])
  {
  }

  lemma AssembledMore(all: seq<Cell>, cnt: seq<nat>, pgnos: seq<int>, lastRight: int, leaf: bool, leafData: bool,
      news: seq<Node>, divs: seq<Cell>, n: Node, d: Cell)
    requires Assembled(all, cnt, pgnos, lastRight, leaf, leafData, news, divs) && |news| == |divs| < |cnt| - 1
    requires Cut(all, cnt, |news|, leafData)
    requires var i := |news|;
      n == NewPage(all, cnt, i, pgnos[i], lastRight, leaf, leafData) && d == Divider(all, cnt[i], pgnos[i], leafData)
    ensures Assembled(all, cnt, pgnos, lastRight, leaf, leafData, news + [n], divs + [d])
  {
  }

  lemma AssembledLast(all: seq<Cell>, cnt: seq<nat>, pgnos: seq<int>, lastRight: int, leaf: bool, leafData: bool,
      news: seq<Node>, divs: seq<Cell>, n: Node)
    requires Assembled(all, cnt, pgnos, lastRight, leaf, leafData, news, divs) && |news| == |divs| == |cnt| - 1
    requires Cut(all, cnt, |news|, leafData)
    requires var i := |news|; n == NewPage(all, cnt, i, pgnos[i], lastRight, leaf, leafData)
    ensures Assembled(all, cnt, pgnos, lastRight, leaf, leafData, news + [n], divs)
  {
  }

  lemma PageTokens(all: seq<Cell>, j0: nat, j: nat, n: Node, leaf: bool, leafData: bool)
    requires j0 <= j < |all| && n.cells == all[j0..j] && (!leaf ==> n.right == all[j].child) && (leafData ==> leaf)
    ensures CellTokens(all[..if leafData then j else j + 1], leaf)
         == CellTokens(all[..j0], leaf) + Tokens(n, leaf) + if leafData then [] else [Entry(all[j].key, all[j].data)]
  {
    PageAndDivider(all[..j0], n, all[j], leaf);
    assert all[..j0] + n.cells == all[..j];
    assert all[..j] + [all[j]] == all[..j + 1];
  }

  lemma LastTokens(all: seq<Cell>, j: nat, n: Node, leaf: bool)
    requires j <= |all| && n.cells == all[j..]
    ensures CellTokens(all, leaf) + (if leaf then [] else [Child(n.right)]) ==
      CellTokens(all[..j], leaf) + Tokens(n, leaf)
  {
    CellTokensConcat(all[..j], n.cells, leaf);
    assert all[..j] + n.cells == all;
  }

  // ----- The whole operation.

  function Sizes(cells: seq<Cell>, size: (int, int) -> nat): (r: seq<nat>)
    ensures |r| == |cells| && forall i :: 0 <= i < |r| ==> r[i] == size(cells[i].key, cells[i].data)
  {
    seq(|cells|, i requires 0 <= i < |cells| => size(cells[i].key, cells[i].data))
  }

  // Bytes the cells of a page take, with their pointers.
  function PageLoad(n: Node, size: (int, int) -> nat): nat {
    Load(Sizes(n.cells, size), 0, |n.cells|)
  }

  lemma {:induction false} LoadSlice(sz: seq<nat>, lo: nat, hi: nat, t: seq<nat>)
    requires lo <= hi <= |sz| && t == sz[lo..hi]
    ensures Load(sz, lo, hi) == Load(t, 0, |t|)
    decreases hi - lo
  {
    if lo < hi {
      LoadSlice(sz, lo, hi - 1, t[..|t| - 1]);
      LoadPrefix(t, |t| - 1);
    }
  }

  lemma {:induction false} LoadPrefix(t: seq<nat>, n: nat)
    requires n <= |t|
    ensures Load(t, 0, n) == Load(t[..n], 0, n)
    decreases n
  {
    if n > 0 {
      LoadPrefix(t, n - 1);
      LoadPrefix(t[..n], n - 1);
      assert t[..n][..n - 1] == t[..n - 1];
    }
  }

  // Cell k in the token sequence.
  lemma {:induction false} TokenAt(cells: seq<Cell>, leaf: bool, k: nat)
    requires k < |cells|
    ensures |CellTokens(cells, leaf)| == if leaf then |cells| else 2 * |cells|
    ensures CellTokens(cells, leaf)[if leaf then k else 2 * k + 1] == Entry(cells[k].key, cells[k].data)
    decreases |cells|
  {
    var n := |cells| - 1;
    if n > 0 {
      TokenAt(cells[..n], leaf, if k < n then k else 0);
    }
  }

  // The keys in the order of the walk ascend.
  ghost predicate AscendingKeys(ts: seq<Token>) {
    forall i, j {:trigger ts[i], ts[j]} :: 0 <= i < j < |ts| && ts[i].Entry? && ts[j].Entry? ==> ts[i].key < ts[j].key
  }

  ghost predicate AscendingCells(all: seq<Cell>) {
    forall i, j {:trigger all[i], all[j]} :: 0 <= i < j < |all| ==> all[i].key < all[j].key
  }

  // A search for a key is sent to the right page: keys left of a divider are below it (or, in
  // leaf-data trees, not above it), keys right of it are above it.
  ghost predicate Separated(news: seq<Node>, divs: seq<Cell>, leafData: bool) {
    && |divs| == |news| - 1
    && (forall i, c :: 0 <= i < |divs| && c in news[i].cells ==>
      if leafData then c.key <= divs[i].key else c.key < divs[i].key)
    && (forall i, c :: 0 <= i < |divs| && c in news[i + 1].cells ==> divs[i].key < c.key)
    && (leafData ==> forall i :: 0 <= i < |divs| ==> exists c :: c in news[i].cells && c.key == divs[i].key)
  }

  lemma CellsAscend(all: seq<Cell>, ts: seq<Token>, leaf: bool)
    requires AscendingKeys(ts) && CellTokens(all, leaf) <= ts
    ensures AscendingCells(all)
  {
    forall i, j {:trigger all[i], all[j]} | 0 <= i < j < |all| ensures all[i].key < all[j].key {
      TokenAt(all, leaf, i);
      TokenAt(all, leaf, j);
      var x, y := if leaf then i else 2 * i + 1, if leaf then j else 2 * j + 1;
      assert ts[x] == CellTokens(all, leaf)[x] && ts[y] == CellTokens(all, leaf)[y];
    }
  }

  // Cell x of page i among all cells.
  lemma CellOfPage(all: seq<Cell>, cnt: seq<nat>, pgnos: seq<int>, lastRight: int, leaf: bool, leafData: bool,
      news: seq<Node>, divs: seq<Cell>, i: nat, x: nat)
    requires Assembled(all, cnt, pgnos, lastRight, leaf, leafData, news, divs) && i < |news| && x < |news[i].cells|
    ensures i < |cnt| && cnt[i] <= |all| && Start(cnt, i, leafData) + x < cnt[i] &&
      news[i].cells[x] == all[Start(cnt, i, leafData) + x]
  {
  }

  lemma DividerOf(all: seq<Cell>, cnt: seq<nat>, pgnos: seq<int>, lastRight: int, leaf: bool, leafData: bool,
      news: seq<Node>, divs: seq<Cell>, i: nat)
    requires Assembled(all, cnt, pgnos, lastRight, leaf, leafData, news, divs) && i < |divs|
    ensures i < |cnt| - 1 && Start(cnt, i, leafData) < cnt[i] < |all| &&
      divs[i].key == all[if leafData then cnt[i] - 1 else cnt[i]].key
  {
    assert Cut(all, cnt, i, leafData);
  }

  lemma PagesSeparated(all: seq<Cell>, cnt: seq<nat>, pgnos: seq<int>, lastRight: int, leaf: bool, leafData: bool,
      news: seq<Node>, divs: seq<Cell>)
    requires Assembled(all, cnt, pgnos, lastRight, leaf, leafData, news, divs) && |news| == |cnt| &&
      |divs| == |cnt| - 1 && AscendingCells(all)
    ensures Separated(news, divs, leafData)
  {
    hide Assembled;
    forall i, c | 0 <= i < |divs| && c in news[i].cells
      ensures if leafData then c.key <= divs[i].key else c.key < divs[i].key {
      var x :| 0 <= x < |news[i].cells| && news[i].cells[x] == c;
      CellOfPage(all, cnt, pgnos, lastRight, leaf, leafData, news, divs, i, x);
      DividerOf(all, cnt, pgnos, lastRight, leaf, leafData, news, divs, i);
    }
    forall i, c | 0 <= i < |divs| && c in news[i + 1].cells ensures divs[i].key < c.key {
      var x :| 0 <= x < |news[i + 1].cells| && news[i + 1].cells[x] == c;
      CellOfPage(all, cnt, pgnos, lastRight, leaf, leafData, news, divs, i + 1, x);
      DividerOf(all, cnt, pgnos, lastRight, leaf, leafData, news, divs, i);
    }
    forall i | 0 <= i < |divs| && leafData ensures exists c :: c in news[i].cells && c.key == divs[i].key {
      DividerTaken(all, cnt, pgnos, lastRight, leaf, news, divs, i);
    }
  }

  // In leaf-data trees a divider repeats the last key of its page.
  lemma DividerTaken(all: seq<Cell>, cnt: seq<nat>, pgnos: seq<int>, lastRight: int, leaf: bool, news: seq<Node>,
      divs: seq<Cell>, i: nat)
    requires Assembled(all, cnt, pgnos, lastRight, leaf, true, news, divs) && |news| > |divs| > i
    ensures exists c :: c in news[i].cells && c.key == divs[i].key
  {
    hide Assembled;
    DividerOf(all, cnt, pgnos, lastRight, leaf, true, news, divs, i);
    LastOfPage(all, cnt, pgnos, lastRight, leaf, true, news, divs, i);
    var c := news[i].cells[|news[i].cells| - 1];
    assert c in news[i].cells && c.key == divs[i].key;
  }

  lemma LastOfPage(all: seq<Cell>, cnt: seq<nat>, pgnos: seq<int>, lastRight: int, leaf: bool, leafData: bool,
      news: seq<Node>, divs: seq<Cell>, i: nat)
    requires Assembled(all, cnt, pgnos, lastRight, leaf, leafData, news, divs) && i < |news|
    ensures i < |cnt| && 0 < cnt[i] <= |all| && news[i].cells != [] &&
      news[i].cells[|news[i].cells| - 1] == all[cnt[i] - 1]
  {
    assert Cut(all, cnt, i, leafData);
  }

  lemma PagesFit(all: seq<Cell>, cnt: seq<nat>, pgnos: seq<int>, lastRight: int, leaf: bool, leafData: bool,
      news: seq<Node>, divs: seq<Cell>, size: (int, int) -> nat, usableSpace: nat)
    requires Assembled(all, cnt, pgnos, lastRight, leaf, leafData, news, divs) && |news| == |cnt|
    requires Packed(Sizes(all, size), cnt, leafData, usableSpace)
    ensures forall i :: 0 <= i < |news| ==>
      news[i].pgno == pgnos[i] && news[i].cells != [] && PageLoad(news[i], size) <= usableSpace
  {
    forall i | 0 <= i < |news|
      ensures news[i].pgno == pgnos[i] && news[i].cells != [] && PageLoad(news[i], size) <= usableSpace {
      assert PageOK(Sizes(all, size), cnt, i, leafData, usableSpace);
      assert news[i] == NewPage(all, cnt, i, pgnos[i], lastRight, leaf, leafData);
      var lo := Start(cnt, i, leafData);
      assert Sizes(news[i].cells, size) == Sizes(all, size)[lo..cnt[i]];
      LoadSlice(Sizes(all, size), lo, cnt[i], Sizes(news[i].cells, size));
    }
  }

  lemma PackedCuts(all: seq<Cell>, sz: seq<nat>, cnt: seq<nat>, leafData: bool, usableSpace: nat)
    requires Packed(sz, cnt, leafData, usableSpace) && |sz| == |all| && forall i, j :: 0 <= i < j < |cnt| ==>
      cnt[i] < cnt[j]
    ensures Cuts(all, cnt, leafData) && |cnt| <= |all|
  {
    forall i | 0 <= i < |cnt| ensures Cut(all, cnt, i, leafData) { assert PageOK(sz, cnt, i, leafData, usableSpace); }
    assert PageOK(sz, cnt, 0, leafData, usableSpace);
    ManyPages(cnt, |cnt| - 1);
  }

  lemma {:induction false} ManyPages(cnt: seq<nat>, i: nat)
    requires i < |cnt| && cnt[0] > 0 && forall i, j :: 0 <= i < j < |cnt| ==> cnt[i] < cnt[j]
    ensures cnt[i] > i
    decreases i
  {
    if i > 0 {
      ManyPages(cnt, i - 1);
    }
  }

  // Every cell has room: one to a page in leaf-data trees, two to a page in the others.
  ghost predicate Roomy(ts: seq<Token>, size: (int, int) -> nat, leafData: bool, usableSpace: nat) {
    forall t :: t in ts && t.Entry? ==>
      (if leafData then size(t.key, t.data) + 2 else 2 * (size(t.key, t.data) + 2)) <= usableSpace
  }

  lemma RoomyCells(all: seq<Cell>, ts: seq<Token>, leaf: bool, size: (int, int) -> nat, leafData: bool,
      usableSpace: nat)
    requires Roomy(ts, size, leafData, usableSpace) && CellTokens(all, leaf) <= ts
    ensures CellsFit(Sizes(all, size), leafData, usableSpace) && |all| <= |ts|
  {
    forall k | 0 <= k < |all| ensures Entry(all[k].key, all[k].data) in ts {
      TokenAt(all, leaf, k);
      assert ts[if leaf then k else 2 * k + 1] == Entry(all[k].key, all[k].data);
    }
    if all != [] { TokenAt(all, leaf, 0); }
  }

  lemma NumbersOf(news: seq<Node>, pgnos: seq<int>)
    requires |news| == |pgnos| && forall i :: 0 <= i < |news| ==> news[i].pgno == pgnos[i]
    ensures PageNumbers(news) == pgnos
  {
  }

  lemma SiblingsFit(p: Node, nxDiv: nat, olds: seq<Node>)
    requires Siblings(p, nxDiv, olds)
    ensures |olds| > 0 && nxDiv + |olds| - 1 <= |p.cells|
  {
  }

  function PageNumbers(nodes: seq<Node>): (r: seq<int>)
    ensures |r| == |nodes| && forall i :: 0 <= i < |r| ==> r[i] == nodes[i].pgno
  {
    seq(|nodes|, i requires 0 <= i < |nodes| => nodes[i].pgno)
  }

  // spare: pages that can be had from the free list. At least one cell must be there.
  method BalanceNonroot(p0: Node, nxDiv: nat, olds: seq<Node>, leaf: bool, leafData: bool, size: (int, int) -> nat,
      usableSpace: nat, spare: seq<int>)
    returns (p: Node, news: seq<Node>, freed: seq<int>, ghost divs: seq<Cell>)
    requires Siblings(p0, nxDiv, olds) && (leafData ==> leaf)
    requires var ts := Region(olds, p0.cells[nxDiv..nxDiv + |olds| - 1], |olds|, leaf, leafData);
      Roomy(ts, size, leafData, usableSpace) && (exists t :: t in ts && t.Entry?) && |ts| <= |spare|
    ensures Region(news, divs, |news|, leaf, leafData) ==
      Region(olds, p0.cells[nxDiv..nxDiv + |olds| - 1], |olds|, leaf, leafData)
    ensures news != [] && |divs| == |news| - 1 && |news| <= |spare|
    ensures p == WithChildAt(p0.(cells := p0.cells[..nxDiv] + divs + p0.cells[nxDiv + |olds| - 1..]), nxDiv + |divs|,
      news[|news| - 1].pgno)
    ensures Siblings(p, nxDiv, news)
    ensures forall i :: 0 <= i < |news| ==> news[i].cells != [] && PageLoad(news[i], size) <= usableSpace
    ensures forall i, j :: 0 <= i < j < |news| ==> news[i].pgno <= news[j].pgno
    ensures multiset(PageNumbers(news)) + multiset(freed) ==
      multiset(PageNumbers(olds) + spare[..if |news| > |olds| then |news| - |olds| else 0])
    ensures AscendingKeys(Region(olds, p0.cells[nxDiv..nxDiv + |olds| - 1], |olds|, leaf, leafData)) ==>
      Separated(news, divs, leafData)
  {
    hide CellTokens, Tokens, Region, Assembled, Packed, CellsFit, Load, Separated, AscendingKeys, AscendingCells,
      Roomy, Cuts, PageLoad, WithChildAt, Siblings, PageNumbers, Sizes;
    SiblingsFit(p0, nxDiv, olds);
    ghost var ts := Region(olds, p0.cells[nxDiv..nxDiv + |olds| - 1], |olds|, leaf, leafData);
    var all;
    p, all := Gather(p0, nxDiv, olds, leaf, leafData);
    RoomyCells(all, ts, leaf, size, leafData, usableSpace);
    SomeCell(all, ts, leaf, olds[|olds| - 1].right);
    var sz := Sizes(all, size);
    var cnt := Pack(sz, leafData, usableSpace);
    PackedCuts(all, sz, cnt, leafData, usableSpace);
    var pgnos;
    pgnos, freed := ChoosePages(PageNumbers(olds), spare, |cnt|);
    p, news, divs := Distribute(p, nxDiv, all, cnt, pgnos, olds[|olds| - 1].right, leaf, leafData);
    PagesFit(all, cnt, pgnos, olds[|olds| - 1].right, leaf, leafData, news, divs, size, usableSpace);
    NumbersOf(news, pgnos);
    if AscendingKeys(ts) {
      CellsAscend(all, ts, leaf);
      PagesSeparated(all, cnt, pgnos, olds[|olds| - 1].right, leaf, leafData, news, divs);
    }
    HangNew(p0, p, nxDiv, |olds|, all, cnt, pgnos, olds[|olds| - 1].right, leaf, leafData, news, divs);
  }

  lemma SomeCell(all: seq<Cell>, ts: seq<Token>, leaf: bool, right: int)
    requires CellTokens(all, leaf) + (if leaf then [] else [Child(right)]) == ts && exists t :: t in ts && t.Entry?
    ensures all != []
  {
  }

  // Old pages first, then spare ones; old pages that are not needed are freed.
  method ChoosePages(old': seq<int>, spare: seq<int>, k: nat) returns (pgnos: seq<int>, freed: seq<int>)
    requires k <= |spare|
    ensures |pgnos| == k && forall i, j :: 0 <= i < j < k ==> pgnos[i] <= pgnos[j]
    ensures multiset(pgnos) + multiset(freed) == multiset(old' + spare[..if k > |old'| then k - |old'| else 0])
  {
    var chosen := (old' + spare)[..k];
    pgnos := SortPages(chosen);
    assert |multiset(pgnos)| == |multiset(chosen)|;
    freed := if k < |old'| then old'[k..] else [];
    if k < |old'| {
      assert old' == old'[..k] + old'[k..] && chosen == old'[..k];
      assert old' + spare[..0] == old';
    } else {
      assert chosen == old' + spare[..k - |old'|];
    }
  }

  lemma HangNew(p0: Node, p: Node, nxDiv: nat, nOld: nat, all: seq<Cell>, cnt: seq<nat>, pgnos: seq<int>,
      lastRight: int, leaf: bool, leafData: bool, news: seq<Node>, divs: seq<Cell>)
    requires Assembled(all, cnt, pgnos, lastRight, leaf, leafData, news, divs) && |news| == |cnt| && |divs| == |cnt| - 1
    requires nOld > 0 && nxDiv + nOld - 1 <= |p0.cells|
    requires var q := p0.(cells := p0.cells[..nxDiv] + p0.cells[nxDiv + nOld - 1..]);
      p == WithChildAt(q.(cells := q.cells[..nxDiv] + divs + q.cells[nxDiv..]), nxDiv + |divs|, pgnos[|pgnos| - 1])
    ensures p == WithChildAt(p0.(cells := p0.cells[..nxDiv] + divs + p0.cells[nxDiv + nOld - 1..]), nxDiv + |divs|,
      news[|news| - 1].pgno)
    ensures Siblings(p, nxDiv, news)
  {
    var q := p0.(cells := p0.cells[..nxDiv] + p0.cells[nxDiv + nOld - 1..]);
    assert q.cells[..nxDiv] == p0.cells[..nxDiv] && q.cells[nxDiv..] == p0.cells[nxDiv + nOld - 1..];
    forall i | 0 <= i < |news| ensures news[i].pgno == ChildAt(p, nxDiv + i) {
      var n := news[i];
      assert Cut(all, cnt, i, leafData) && n.pgno == pgnos[i];
      if i < |divs| { assert divs[i] == Divider(all, cnt[i], pgnos[i], leafData); }
    }
  }
}
