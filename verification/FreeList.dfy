// The list of free pages (src/db_sqlite/btree.c:3578-3859, exact search left out): trunk pages, each
// naming the next one and a number of leaf pages.
module FreeList {

  import opened Bytes
  import opened PointerMap

  type Pages = map<nat, seq<Byte>>

  const U32 := 0x1_0000_0000

  datatype Trunk = Trunk(pgno: nat, leaves: seq<nat>)

  // All free pages.
  function Flat(trunks: seq<Trunk>): seq<nat> {
    if trunks == [] then [] else [trunks[0].pgno] + trunks[0].leaves + Flat(trunks[1..])
  }

  function Head(trunks: seq<Trunk>): nat {
    if trunks == [] then 0 else trunks[0].pgno
  }

  predicate Leaves(page: seq<Byte>, leaves: seq<nat>) {
    forall i :: 0 <= i < |leaves| ==> Get4(page, 8 + 4 * i) == leaves[i]
  }

  // What a trunk page says, next being the number of the next trunk.
  predicate TrunkPage(u: nat, page: seq<Byte>, t: Trunk, next: nat) {
    && |page| == u && |t.leaves| + 8 <= u / 4
    && Get4(page, 0) == next && Get4(page, 4) == |t.leaves| && Leaves(page, t.leaves)
  }

  predicate Chain(u: nat, pages: Pages, trunks: seq<Trunk>) {
    trunks == [] || (
      var t, rest := trunks[0], trunks[1..];
      t.pgno in pages && TrunkPage(u, pages[t.pgno], t, Head(rest)) && Chain(u, pages, rest))
  }

  // No page is on the list twice.
  ghost predicate Once(list: seq<nat>) {
    forall p {:trigger multiset(list)[p]} :: multiset(list)[p] <= 1
  }

  // The header's list and count are right; every page on the list exists, and only once.
  ghost predicate Listed(u: nat, pages: Pages, pageCount: nat, trunks: seq<Trunk>) {
    && 1 in pages && |pages[1]| == u && 500 <= u <= 65536
    && Get4(pages[1], 32) == Head(trunks) && Get4(pages[1], 36) == |Flat(trunks)| < U32
    && Chain(u, pages, trunks) && Once(Flat(trunks))
    && forall p :: p in Flat(trunks) ==> 1 < p <= pageCount && p in pages && |pages[p]| == u && p < U32
  }

  lemma {:induction false} ChainFrame(u: nat, pages: Pages, pages': Pages, trunks: seq<Trunk>)
    requires Chain(u, pages, trunks)
    requires forall p :: p in Flat(trunks) ==> p in pages && p in pages' && pages'[p] == pages[p]
    ensures Chain(u, pages', trunks)
    decreases |trunks|
  {
    if trunks != [] {
      assert trunks[0].pgno in Flat(trunks);
      assert forall p :: p in Flat(trunks[1..]) ==> p in Flat(trunks);
      ChainFrame(u, pages, pages', trunks[1..]);
    }
  }

  lemma Get4Other(s: seq<Byte>, i: nat, t: seq<Byte>, j: nat)
    requires i + |t| <= |s| && (j + 4 <= i || i + |t| <= j)
    ensures Get4(Splice(s, i, t), j) == Get4(s, j)
  {
    SpliceAt(s, i, t);
  }

  lemma Get4Copy(s: seq<Byte>, i: nat, t: seq<Byte>, j: nat)
    requires i + 4 <= |s| && j + 4 <= |t|
    ensures Get4(Splice(s, i, t[j..j + 4]), i) == Get4(t, j)
  {
    SpliceAt(s, i, t[j..j + 4]);
  }

  // The leaves once leaf j has been taken: the last one fills its place.
  function WithoutLeaf(leaves: seq<nat>, j: nat): (r: seq<nat>)
    requires j < |leaves|
    ensures |r| == |leaves| - 1
  {
    leaves[j := leaves[|leaves| - 1]][..|leaves| - 1]
  }

  lemma WithoutBag(leaves: seq<nat>, j: nat)
    requires j < |leaves|
    ensures multiset(WithoutLeaf(leaves, j)) == multiset(leaves) - multiset{leaves[j]}
  {
    var n := |leaves| - 1;
    assert leaves == leaves[..n] + [leaves[n]];
    if j < n {
      assert WithoutLeaf(leaves, j) == leaves[..n][j := leaves[n]];
    } else {
      assert WithoutLeaf(leaves, j) == leaves[..n];
    }
  }

  lemma FlatParts(t: Trunk, rest: seq<Trunk>)
    ensures Flat([t] + rest) == [t.pgno] + t.leaves + Flat(rest)
    ensures multiset(Flat([t] + rest)) == multiset{t.pgno} + multiset(t.leaves) + multiset(Flat(rest))
    ensures Head([t] + rest) == t.pgno
  {
    assert ([t] + rest)[1..] == rest;
  }

  // The free pages before and after page p has been taken.
  ghost predicate OneLess(trunks: seq<Trunk>, trunks': seq<Trunk>, p: nat) {
    p in Flat(trunks) && multiset(Flat(trunks')) == multiset(Flat(trunks)) - multiset{p} &&
      |Flat(trunks')| == |Flat(trunks)| - 1
  }

  lemma StillOnce(a: seq<nat>, b: seq<nat>)
    requires Once(a) && multiset(b) <= multiset(a)
    ensures Once(b) && forall p :: p in b ==> p in a
  {
    forall p | p in b ensures p in a { assert p in multiset(b); }
  }

  lemma {:induction false} ChainRest(u: nat, pages: Pages, trunks: seq<Trunk>)
    requires Chain(u, pages, trunks) && trunks != []
    ensures trunks[0].pgno in pages && TrunkPage(u, pages[trunks[0].pgno], trunks[0], Head(trunks[1..])) &&
      Chain(u, pages, trunks[1..])
  {
  }

  lemma ListedAgain(u: nat, pages: Pages, pages': Pages, pageCount: nat, trunks: seq<Trunk>, trunks': seq<Trunk>)
    requires Listed(u, pages, pageCount, trunks) && multiset(Flat(trunks')) <= multiset(Flat(trunks)) &&
      |Flat(trunks')| <= |Flat(trunks)|
    requires pages'.Keys == pages.Keys && (forall p :: p in pages ==> |pages'[p]| == |pages[p]|)
    requires Get4(pages'[1], 32) == Head(trunks') && Get4(pages'[1], 36) == |Flat(trunks')| && Chain(u, pages', trunks')
    ensures Listed(u, pages', pageCount, trunks')
  {
    hide Get4, Flat, Chain;
    StillOnce(Flat(trunks), Flat(trunks'));
  }

  // The first trunk has no leaves and is taken itself.
  lemma TakeTrunk(u: nat, pages: Pages, pages': Pages, pageCount: nat, trunks: seq<Trunk>)
    requires Listed(u, pages, pageCount, trunks) && trunks != [] && trunks[0].leaves == []
    requires pages'.Keys == pages.Keys && (forall p :: p in pages && p != 1 ==> pages'[p] == pages[p]) &&
      |pages'[1]| == u
    requires Get4(pages'[1], 36) == |Flat(trunks)| - 1 && Get4(pages'[1], 32) == Get4(pages[trunks[0].pgno], 0)
    ensures Listed(u, pages', pageCount, trunks[1..]) && OneLess(trunks, trunks[1..], trunks[0].pgno)
  {
    hide Get4, Leaves, Flat, Chain;
    var t, rest := trunks[0], trunks[1..];
    assert trunks == [t] + rest;
    FlatParts(t, rest);
    ChainRest(u, pages, trunks);
    StillOnce(Flat(trunks), Flat(rest));
    ChainFrame(u, pages, pages', rest);
    ListedAgain(u, pages, pages', pageCount, trunks, rest);
  }

  // Leaf j of the first trunk is taken.
  lemma TakeLeaf(u: nat, pages: Pages, pages': Pages, pageCount: nat, trunks: seq<Trunk>, j: nat)
    requires Listed(u, pages, pageCount, trunks) && trunks != [] && j < |trunks[0].leaves|
    requires pages'.Keys == pages.Keys &&
      (forall p :: p in pages && p != 1 && p != trunks[0].pgno ==> pages'[p] == pages[p]) && |pages'[1]| == u
    requires Get4(pages'[1], 36) == |Flat(trunks)| - 1 && Get4(pages'[1], 32) == Get4(pages[1], 32)
    requires trunks[0].pgno in pages &&
      TrunkPage(u, pages'[trunks[0].pgno], Trunk(trunks[0].pgno, WithoutLeaf(trunks[0].leaves, j)), Head(trunks[1..]))
    ensures var trunks' := [Trunk(trunks[0].pgno, WithoutLeaf(trunks[0].leaves, j))] + trunks[1..];
      Listed(u, pages', pageCount, trunks') && OneLess(trunks, trunks', trunks[0].leaves[j])
  {
    hide Get4, Leaves, WithoutLeaf, TrunkPage, Flat, Once, OneLess, Chain;
    var t, rest := trunks[0], trunks[1..];
    var t' := Trunk(t.pgno, WithoutLeaf(t.leaves, j));
    var trunks' := [t'] + rest;
    assert trunks == [t] + rest && trunks'[1..] == rest;
    FlatParts(t, rest);
    FlatParts(t', rest);
    LeafLess(t, rest, j);
    ChainRest(u, pages, trunks);
    StillOnce(Flat(trunks), Flat(rest));
    NotAgain(t, rest);
    ChainFrame(u, pages, pages', rest);
    TrunkSize(u, pages[t.pgno], t, Head(rest));
    TrunkSize(u, pages'[t.pgno], t', Head(rest));
    ChainJoin(u, pages', t', rest);
    ListedAgain(u, pages, pages', pageCount, trunks, trunks');
  }

  lemma ChainJoin(u: nat, pages: Pages, t: Trunk, rest: seq<Trunk>)
    requires t.pgno in pages && TrunkPage(u, pages[t.pgno], t, Head(rest)) && Chain(u, pages, rest)
    ensures Chain(u, pages, [t] + rest)
  {
    assert ([t] + rest)[1..] == rest;
  }

  lemma LeafLess(t: Trunk, rest: seq<Trunk>, j: nat)
    requires j < |t.leaves|
    ensures var after := [Trunk(t.pgno, WithoutLeaf(t.leaves, j))] + rest;
      OneLess([t] + rest, after, t.leaves[j]) && multiset(Flat(after)) <= multiset(Flat([t] + rest)) &&
        |Flat(after)| + 1 == |Flat([t] + rest)|
  {
    hide Flat, WithoutLeaf;
    FlatParts(t, rest);
    FlatParts(Trunk(t.pgno, WithoutLeaf(t.leaves, j)), rest);
    WithoutBag(t.leaves, j);
    BagLess(multiset{t.pgno}, multiset(t.leaves), multiset(Flat(rest)), t.leaves[j]);
    assert t.leaves[j] in multiset(t.leaves);
    assert t.leaves[j] in multiset(Flat([t] + rest));
  }

  lemma BagLess(a: multiset<nat>, b: multiset<nat>, c: multiset<nat>, x: nat)
    requires x in b
    ensures a + (b - multiset{x}) + c == a + b + c - multiset{x} && a + b + c - multiset{x} <= a + b + c
  {
  }

  lemma TrunkSize(u: nat, page: seq<Byte>, t: Trunk, next: nat)
    requires TrunkPage(u, page, t, next)
    ensures |page| == u && 4 * |t.leaves| + 8 <= u
  {
  }

  lemma NotAgain(t: Trunk, rest: seq<Trunk>)
    requires Once(Flat([t] + rest))
    ensures t.pgno !in Flat(rest) && t.pgno !in t.leaves
  {
    FlatParts(t, rest);
    var p := t.pgno;
    assert multiset(Flat([t] + rest))[p] == 1 + multiset(t.leaves)[p] + multiset(Flat(rest))[p];
  }

  // ----- Adding a page.

  ghost predicate OneMore(trunks: seq<Trunk>, trunks': seq<Trunk>, p: nat) {
    multiset(Flat(trunks')) == multiset(Flat(trunks)) + multiset{p} && |Flat(trunks')| == |Flat(trunks)| + 1
  }

  lemma ListedMore(u: nat, pages: Pages, pages': Pages, pageCount: nat, trunks: seq<Trunk>, trunks': seq<Trunk>, p: nat)
    requires Listed(u, pages, pageCount, trunks) && OneMore(trunks, trunks', p) && p !in Flat(trunks)
    requires 1 < p <= pageCount && p in pages && |pages[p]| == u && p < U32 && |Flat(trunks')| < U32
    requires pages'.Keys == pages.Keys && (forall q :: q in pages ==> |pages'[q]| == |pages[q]|)
    requires Get4(pages'[1], 32) == Head(trunks') && Get4(pages'[1], 36) == |Flat(trunks')| && Chain(u, pages', trunks')
    ensures Listed(u, pages', pageCount, trunks')
  {
    hide Get4, Flat, Chain;
    forall q {:trigger multiset(Flat(trunks'))[q]} ensures multiset(Flat(trunks'))[q] <= 1 {
      assert p !in multiset(Flat(trunks));
      assert multiset(Flat(trunks))[q] <= 1;
    }
    forall q | q in Flat(trunks') ensures q == p || q in Flat(trunks) {
      assert q in multiset(Flat(trunks'));
    }
  }

  // Page p becomes the first trunk, without leaves.
  lemma AddTrunk(u: nat, pages: Pages, pages': Pages, pageCount: nat, trunks: seq<Trunk>, p: nat)
    requires Listed(u, pages, pageCount, trunks) && p !in Flat(trunks) && |Flat(trunks)| + 1 < U32
    requires 1 < p <= pageCount && p in pages && |pages[p]| == u && p < U32
    requires pages'.Keys == pages.Keys && (forall q :: q in pages && q != 1 && q != p ==> pages'[q] == pages[q]) &&
      |pages'[1]| == u
    requires Get4(pages'[1], 36) == |Flat(trunks)| + 1 && Get4(pages'[1], 32) == p &&
      TrunkPage(u, pages'[p], Trunk(p, []), Head(trunks))
    ensures Listed(u, pages', pageCount, [Trunk(p, [])] + trunks) && OneMore(trunks, [Trunk(p, [])] + trunks, p)
  {
    hide Get4, Leaves, Flat;
    var trunks' := [Trunk(p, [])] + trunks;
    assert trunks'[1..] == trunks;
    FlatParts(Trunk(p, []), trunks);
    ChainFrame(u, pages, pages', trunks);
    ListedMore(u, pages, pages', pageCount, trunks, trunks', p);
  }

  // Page p becomes the last leaf of the first trunk.
  lemma AddLeaf(u: nat, pages: Pages, pages': Pages, pageCount: nat, trunks: seq<Trunk>, p: nat)
    requires Listed(u, pages, pageCount, trunks) && trunks != [] && p !in Flat(trunks) && |Flat(trunks)| + 1 < U32
    requires 1 < p <= pageCount && p in pages && |pages[p]| == u && p < U32
    requires pages'.Keys == pages.Keys &&
      (forall q :: q in pages && q != 1 && q != trunks[0].pgno ==> pages'[q] == pages[q]) && |pages'[1]| == u
    requires Get4(pages'[1], 36) == |Flat(trunks)| + 1 && Get4(pages'[1], 32) == Get4(pages[1], 32)
    requires trunks[0].pgno in pages &&
      TrunkPage(u, pages'[trunks[0].pgno], Trunk(trunks[0].pgno, trunks[0].leaves + [p]), Head(trunks[1..]))
    ensures var trunks' := [Trunk(trunks[0].pgno, trunks[0].leaves + [p])] + trunks[1..];
      Listed(u, pages', pageCount, trunks') && OneMore(trunks, trunks', p)
  {
    hide Get4, Leaves, Flat, TrunkPage, Once, OneMore, Chain;
    var t, rest := trunks[0], trunks[1..];
    var t' := Trunk(t.pgno, t.leaves + [p]);
    var trunks' := [t'] + rest;
    assert trunks == [t] + rest && trunks'[1..] == rest;
    FlatParts(t, rest);
    FlatParts(t', rest);
    LeafMore(t, rest, p);
    ChainRest(u, pages, trunks);
    StillOnce(Flat(trunks), Flat(rest));
    NotAgain(t, rest);
    ChainFrame(u, pages, pages', rest);
    TrunkSize(u, pages[t.pgno], t, Head(rest));
    TrunkSize(u, pages'[t.pgno], t', Head(rest));
    ChainJoin(u, pages', t', rest);
    ListedMore(u, pages, pages', pageCount, trunks, trunks', p);
  }

  lemma LeafMore(t: Trunk, rest: seq<Trunk>, p: nat)
    ensures var after := [Trunk(t.pgno, t.leaves + [p])] + rest;
      OneMore([t] + rest, after, p) && |Flat(after)| == |Flat([t] + rest)| + 1
  {
    hide Flat;
    FlatParts(t, rest);
    FlatParts(Trunk(t.pgno, t.leaves + [p]), rest);
  }

  // ----- The bytes.

  // Page 1 after the count, and perhaps the head, have been written.
  lemma HeaderWritten(page: seq<Byte>, n: nat, head: seq<Byte>)
    requires |page| >= 40 && n < U32 && |head| == 4
    ensures var counted := Splice(page, 36, Big4(n));
      && Get4(counted, 36) == n && Get4(counted, 32) == Get4(page, 32)
      && Get4(Splice(counted, 32, head), 36) == n && Get4(Splice(counted, 32, head), 32) == Get4(head, 0)
  {
    Big4Gets(page, 36, n);
    Get4Other(page, 36, Big4(n), 32);
    var counted := Splice(page, 36, Big4(n));
    Get4Other(counted, 32, head, 36);
    SpliceAt(counted, 32, head);
  }

  // A page that names the next trunk and has no leaves.
  lemma TrunkStarted(u: nat, page: seq<Byte>, p: nat, next: nat)
    requires 500 <= u <= 65536 && |page| == u && next < U32
    ensures TrunkPage(u, Splice(Splice(page, 0, Big4(next)), 4, Big4(0)), Trunk(p, []), next)
  {
    hide Splice, Get4;
    var named := Splice(page, 0, Big4(next));
    Big4Gets(page, 0, next);
    Get4Other(named, 4, Big4(0), 0);
    Big4Gets(named, 4, 0);
  }

  // A trunk page after leaf j has been replaced by the last, and the count written.
  lemma LeafTaken(u: nat, page: seq<Byte>, t: Trunk, next: nat, j: nat)
    requires 500 <= u <= 65536 && TrunkPage(u, page, t, next) && j < |t.leaves|
    ensures var k := |t.leaves|;
      var moved := if j < k - 1 then Splice(page, 8 + 4 * j, page[4 + 4 * k..8 + 4 * k]) else page;
      TrunkPage(u, Splice(moved, 4, Big4(k - 1)), Trunk(t.pgno, WithoutLeaf(t.leaves, j)), next)
  {
    hide Get4, Splice, Big4;
    var k := |t.leaves|;
    var last := page[4 + 4 * k..8 + 4 * k];
    var moved := if j < k - 1 then Splice(page, 8 + 4 * j, last) else page;
    var page' := Splice(moved, 4, Big4(k - 1));
    var leaves' := WithoutLeaf(t.leaves, j);
    if j < k - 1 {
      Get4Copy(page, 8 + 4 * j, page, 4 + 4 * k);
      Get4Other(page, 8 + 4 * j, last, 0);
      assert Get4(page, 8 + 4 * (k - 1)) == t.leaves[k - 1];
    }
    Big4Gets(moved, 4, k - 1);
    Get4Other(moved, 4, Big4(k - 1), 0);
    forall i | 0 <= i < |leaves'| ensures Get4(page', 8 + 4 * i) == leaves'[i] {
      Get4Other(moved, 4, Big4(k - 1), 8 + 4 * i);
      assert Get4(page, 8 + 4 * i) == t.leaves[i];
      if j < k - 1 && i != j { Get4Other(page, 8 + 4 * j, last, 8 + 4 * i); }
    }
  }

  lemma LeafAdded(u: nat, page: seq<Byte>, t: Trunk, next: nat, p: nat)
    requires 500 <= u <= 65536 && TrunkPage(u, page, t, next) && |t.leaves| + 9 <= u / 4 && p < U32
    ensures var k := |t.leaves|;
      TrunkPage(u, Splice(Splice(page, 4, Big4(k + 1)), 8 + 4 * k, Big4(p)), Trunk(t.pgno, t.leaves + [p]), next)
  {
    hide Get4, Splice, Big4;
    var k := |t.leaves|;
    var counted := Splice(page, 4, Big4(k + 1));
    var page' := Splice(counted, 8 + 4 * k, Big4(p));
    Big4Gets(page, 4, k + 1);
    Big4Gets(counted, 8 + 4 * k, p);
    Get4Other(page, 4, Big4(k + 1), 0);
    Get4Other(counted, 8 + 4 * k, Big4(p), 0);
    Get4Other(counted, 8 + 4 * k, Big4(p), 4);
    forall i | 0 <= i < k ensures Get4(page', 8 + 4 * i) == t.leaves[i] {
      Get4Other(page, 4, Big4(k + 1), 8 + 4 * i);
      Get4Other(counted, 8 + 4 * k, Big4(p), 8 + 4 * i);
    }
  }

  lemma TrunkCount(u: nat, page: seq<Byte>, t: Trunk, next: nat)
    requires TrunkPage(u, page, t, next)
    ensures Get4(page, 4) == |t.leaves|
  {
  }

  lemma NothingFree(trunks: seq<Trunk>)
    ensures Flat(trunks) == [] <==> trunks == []
  {
  }

  lemma ListedGrown(u: nat, pages: Pages, pages': Pages, count: nat, count': nat)
    requires Listed(u, pages, count, []) && 1 in pages' && pages'[1] == pages[1]
    ensures Listed(u, pages', count', [])
  {
  }

  // ----- The file.

  function Dist(a: nat, b: nat): nat { if a < b then b - a else a - b }

  datatype Code = Ok | Corrupt | Full

  class BtShared {
    const usable: nat
    const autoVacuum: bool
    var pages: map<nat, array<Byte>>
    var pageCount: nat
    var ptrmap: PtrMap
    ghost var trunks: seq<Trunk>

    ghost function Contents(): Pages
      reads this`pages, set p | p in pages :: pages[p]
    {
      map p | p in pages :: pages[p][..]
    }

    ghost predicate Valid()
      reads this`pages, this`pageCount, this`trunks, set p | p in pages :: pages[p]
    {
      && Listed(usable, Contents(), pageCount, trunks) && pageCount < U32
      && (forall p :: p in pages ==> p <= pageCount && pages[p].Length == usable)
      && (forall p, q {:trigger pages[p], pages[q]} :: p in pages && q in pages && p != q ==> pages[p] != pages[q])
    }

    ghost function Free(): seq<nat>
      reads this`trunks
    {
      Flat(trunks)
    }

    // Pages that are neither free nor page 1 are as they were.
    ghost predicate UsedKept(before: Pages, free: seq<nat>)
      reads this`pages, set p | p in pages :: pages[p]
    {
      forall p :: p in before && p != 1 && p !in free ==> p in pages && pages[p][..] == before[p]
    }

    // Which leaf is nearest to the page asked for (btree.c:3715-3730).
    method Nearest(trunk: array<Byte>, k: nat, nearby: nat) returns (closest: nat)
      requires k > 0 && 8 + 4 * k <= trunk.Length
      ensures closest < k && (nearby == 0 ==> closest == 0)
      ensures nearby > 0 ==> forall i {:trigger Get4(trunk[..], 8 + 4 * i)} :: 0 <= i < k ==>
        Dist(Get4(trunk[..], 8 + 4 * closest), nearby) <= Dist(Get4(trunk[..], 8 + 4 * i), nearby)
    {
      hide Get4;
      closest := 0;
      if nearby > 0 {
        var dist := Dist(Get4(trunk[..], 8), nearby);
        var i := 1;
        while i < k
          invariant 1 <= i <= k && closest < i && dist == Dist(Get4(trunk[..], 8 + 4 * closest), nearby)
          invariant forall j {:trigger Get4(trunk[..], 8 + 4 * j)} :: 0 <= j < i ==>
            dist <= Dist(Get4(trunk[..], 8 + 4 * j), nearby)
        {
          var d2 := Dist(Get4(trunk[..], 8 + 4 * i), nearby);
          if d2 < dist {
            closest, dist := i, d2;
          }
          i := i + 1;
        }
      }
    }

    lemma Heads()
      requires Valid()
      ensures 1 in pages && pages[1].Length == usable && 500 <= usable <= 65536
      ensures Get4(pages[1][..], 32) == Head(trunks) && Get4(pages[1][..], 36) == |Free()| < U32
      ensures Free() == [] <==> trunks == []
      ensures trunks != [] ==> var t := trunks[0];
        t.pgno in pages && t.pgno > 1 && t.pgno < U32 && TrunkPage(usable, pages[t.pgno][..], t, Head(trunks[1..])) &&
          t.pgno in Free()
      ensures forall p :: p in Free() ==> 1 < p <= pageCount && p in pages && p < U32
    {
      if trunks != [] {
        ChainRest(usable, Contents(), trunks);
      }
    }

    // btree.c:3578-3789, not searching for one page in particular.
    method AllocatePage(nearby: nat) returns (rc: Code, pgno: nat)
      requires Valid()
      modifies this`pages, this`pageCount, this`trunks, set p | p in pages :: pages[p]
      ensures Valid() && rc != Corrupt && UsedKept(old(Contents()), old(Free()))
      ensures old(Free()) != [] ==>
        rc == Ok && OneLess(old(trunks), trunks, pgno) && pages == old(pages) && pageCount == old(pageCount)
      ensures old(trunks) != [] ==> Picked(old(trunks)[0], nearby, pgno)
      ensures old(Free()) == [] && rc == Ok ==> Free() == [] && Appended(old(pages), old(pageCount), pgno)
      ensures rc == Full ==> old(Free()) == [] && pages == old(pages) && old(pageCount) + 3 > U32
    {
      hide Get4, Splice, Chain, TrunkPage, Leaves, Flat, Listed, OneLess, Picked, IsMapPage, Once;
      Heads();
      NothingFree(trunks);
      var page1 := pages[1];
      var n := Get4(page1[..], 36);
      if n > 0 {
        pgno := FromList(nearby, n);
        return Ok, pgno;
      }
      rc, pgno := GrowFile();
    }

    // The end of allocatePage (btree.c:3761-3785): a new page at the end of the file, after a new
    // pointer-map page if one is due there.
    method GrowFile() returns (rc: Code, pgno: nat)
      requires Valid() && trunks == []
      modifies this`pages, this`pageCount
      ensures Valid() && rc != Corrupt
      ensures rc == Ok ==> Appended(old(pages), old(pageCount), pgno)
      ensures rc == Full ==> pages == old(pages) && old(pageCount) + 3 > U32
    {
      hide Listed, IsMapPage;
      var next := pageCount + 1;
      if autoVacuum && IsMapPage(usable, next) {
        next := next + 1;
      }
      if next >= U32 {
        return Full, 0;
      }
      if next > pageCount + 1 {
        AddPage();
      }
      AddPage();
      return Ok, next;
    }

    // One or two pages have been added, the last of them page q.
    ghost predicate Appended(before: map<nat, array<Byte>>, count: nat, q: nat)
      reads this`pages, this`pageCount
    {
      && q == pageCount == (if autoVacuum && IsMapPage(usable, count + 1) then count + 2 else count + 1)
      && pages.Keys == before.Keys + (if q == count + 2 then {count + 1, q} else {q})
      && forall p :: p in before ==> pages[p] == before[p]
    }

    // The file grows by one page.
    method AddPage()
      requires Valid() && trunks == [] && pageCount + 1 < U32
      modifies this`pages, this`pageCount
      ensures Valid() && pageCount == old(pageCount) + 1
      ensures pages.Keys == old(pages).Keys + {pageCount} && forall p :: p in old(pages) ==> pages[p] == old(pages)[p]
    {
      hide Get4, Chain, Flat, Once, Listed;
      Heads();
      ghost var before := Contents();
      var page := new Byte[usable];
      pageCount := pageCount + 1;
      pages := pages[pageCount := page];
      ListedGrown(usable, before, Contents(), pageCount - 1, pageCount);
    }

    // A page of the list (btree.c:3617-3759). Both ways start by writing the new count.
    method FromList(nearby: nat, n: nat) returns (pgno: nat)
      requires Valid() && trunks != [] && n == |Free()|
      modifies this`trunks, set p | p in pages :: pages[p]
      ensures Valid() && UsedKept(old(Contents()), old(Free())) && OneLess(old(trunks), trunks, pgno)
      ensures Picked(old(trunks)[0], nearby, pgno)
    {
      hide Get4, Chain, Flat, Once, OneLess, Listed;
      Heads();
      var iTrunk := Get4(pages[1][..], 32);
      var k := Get4(pages[iTrunk][..], 4);
      if k == 0 {
        TakeHead(iTrunk, n);
        pgno := iTrunk;
      } else {
        pgno := LeafOf(iTrunk, k, nearby, n);
      }
    }

    // The first trunk has no leaves and leaves the list.
    method TakeHead(iTrunk: nat, n: nat)
      requires Valid() && trunks != [] && n == |Free()| && iTrunk == trunks[0].pgno && trunks[0].leaves == []
      modifies this`trunks, pages[1]
      ensures Valid() && UsedKept(old(Contents()), old(Free())) && OneLess(old(trunks), trunks, iTrunk)
    {
      hide Get4, Splice, Chain, Flat, Once, OneLess, Listed;
      Heads();
      ghost var all, trunks0 := Contents(), trunks;
      var page1, trunk := pages[1], pages[iTrunk];
      HeaderWritten(page1[..], n - 1, trunk[0..4]);
      Put4(page1, 36, n - 1);
      Get4Copy(page1[..], 32, trunk[..], 0);
      Write(page1, 32, trunk[0..4]);
      trunks := trunks[1..];
      TakeTrunk(usable, all, Contents(), pageCount, trunks0);
    }

    // Leaf number closest leaves the trunk page.
    method PullLeaf(trunk: array<Byte>, k: nat, closest: nat, ghost t: Trunk, ghost next: nat)
      requires 500 <= usable <= 65536 && TrunkPage(usable, trunk[..], t, next) && k == |t.leaves| && closest < k
      modifies trunk
      ensures TrunkPage(usable, trunk[..], Trunk(t.pgno, WithoutLeaf(t.leaves, closest)), next)
    {
      hide Get4, Splice, WithoutLeaf, Leaves;
      LeafTaken(usable, trunk[..], t, next, closest);
      if closest < k - 1 {
        Write(trunk, 8 + closest * 4, trunk[4 + k * 4..8 + k * 4]);
      }
      Put4(trunk, 4, k - 1);
    }

    // The leaf of the first trunk nearest to the page asked for.
    method LeafOf(iTrunk: nat, k: nat, nearby: nat, n: nat) returns (pgno: nat)
      requires Valid() && trunks != [] && n == |Free()| && iTrunk == trunks[0].pgno && k == |trunks[0].leaves| > 0
      modifies this`trunks, set p | p in pages :: pages[p]
      ensures Valid() && UsedKept(old(Contents()), old(Free())) && OneLess(old(trunks), trunks, pgno)
      ensures Picked(old(trunks)[0], nearby, pgno)
    {
      hide Get4, Splice, Chain, Flat, Once, OneLess, Listed, Picked, TrunkPage, WithoutLeaf;
      Heads();
      TrunkSize(usable, pages[trunks[0].pgno][..], trunks[0], Head(trunks[1..]));
      ghost var all, trunks0, t, rest := Contents(), trunks, trunks[0], trunks[1..];
      var page1, trunk := pages[1], pages[iTrunk];
      HeaderWritten(page1[..], n - 1, trunk[0..4]);
      Put4(page1, 36, n - 1);
      var closest := Nearest(trunk, k, nearby);
      NearestLeaf(usable, trunk[..], t, Head(rest), nearby, closest);
      pgno := Get4(trunk[..], 8 + closest * 4);
      PullLeaf(trunk, k, closest, t, Head(rest));
      trunks := [Trunk(t.pgno, WithoutLeaf(t.leaves, closest))] + rest;
      TakeLeaf(usable, all, Contents(), pageCount, trunks0, closest);
    }

    // btree.c:3796-3859.
    method FreePage(p: nat)
      requires Valid() && p > 1 && p in pages && p !in Free() && |Free()| + 1 < U32
      modifies this`trunks, this`ptrmap, set q | q in pages :: pages[q]
      ensures Valid() && OneMore(old(trunks), trunks, p) && UsedKept(old(Contents()), old(Free()) + [p])
      ensures ptrmap == if autoVacuum then old(ptrmap)[p := MapEntry(Kind.FreePage, 0)] else old(ptrmap)
    {
      hide Get4, Splice, Chain, TrunkPage, Leaves, Flat, Listed, OneMore, Once;
      Heads();
      NothingFree(trunks);
      var n := Get4(pages[1][..], 36);
      if autoVacuum {
        ptrmap := ptrmap[p := MapEntry(Kind.FreePage, 0)];
      }
      if n == 0 {
        NewTrunk(p, n, 0);
      } else {
        var iTrunk := Get4(pages[1][..], 32);
        TrunkCount(usable, pages[iTrunk][..], trunks[0], Head(trunks[1..]));
        var k := Get4(pages[iTrunk][..], 4);
        if k >= usable / 4 - 8 {
          NewTrunk(p, n, iTrunk);
        } else {
          NewLeaf(p, n, iTrunk, k);
        }
      }
    }

    // The page becomes the first trunk, followed by the one that was.
    method NewTrunk(p: nat, n: nat, next: nat)
      requires Valid() && p > 1 && p in pages && p !in Free() && n == |Free()| && n + 1 < U32 && next == Head(trunks)
      modifies this`trunks, pages[1], pages[p]
      ensures Valid() && OneMore(old(trunks), trunks, p) && UsedKept(old(Contents()), old(Free()) + [p])
    {
      hide Get4, Splice, Chain, Flat, Listed, Once, OneMore, Leaves, TrunkPage;
      Heads();
      PageSizes();
      ghost var all, trunks0 := Contents(), trunks;
      HeaderWritten(pages[1][..], n + 1, Big4(p));
      TrunkStarted(usable, pages[p][..], p, next);
      Put4(pages[1], 36, n + 1);
      Put4(pages[p], 0, next);
      Put4(pages[p], 4, 0);
      Put4(pages[1], 32, p);
      trunks := [Trunk(p, [])] + trunks;
      AddTrunk(usable, all, Contents(), pageCount, trunks0, p);
    }

    // The page becomes a leaf of the first trunk.
    method NewLeaf(p: nat, n: nat, iTrunk: nat, k: nat)
      requires Valid() && p > 1 && p in pages && p !in Free() && n == |Free()| && n + 1 < U32
      requires trunks != [] && iTrunk == trunks[0].pgno && k == |trunks[0].leaves| && k < usable / 4 - 8
      modifies this`trunks, set q | q in pages :: pages[q]
      ensures Valid() && OneMore(old(trunks), trunks, p) && UsedKept(old(Contents()), old(Free()) + [p])
    {
      hide Get4, Splice, Chain, Leaves, Flat, Listed, TrunkPage, Once, OneMore;
      Heads();
      PageSizes();
      ghost var all, trunks0, t, rest := Contents(), trunks, trunks[0], trunks[1..];
      var trunk := pages[iTrunk];
      HeaderWritten(pages[1][..], n + 1, Big4(p));
      Put4(pages[1], 36, n + 1);
      LeafAdded(usable, trunk[..], t, Head(rest), p);
      Put4(trunk, 4, k + 1);
      Put4(trunk, 8 + k * 4, p);
      trunks := [Trunk(t.pgno, t.leaves + [p])] + rest;
      AddLeaf(usable, all, Contents(), pageCount, trunks0, p);
    }

    lemma PageSizes()
      requires Valid()
      ensures forall p :: p in pages ==> p <= pageCount < U32 && pages[p].Length == usable && |Contents()[p]| == usable
    {
    }
  }

  // The page taken from the list when its first trunk is t.
  ghost predicate Picked(t: Trunk, nearby: nat, p: nat) {
    if t.leaves == [] then p == t.pgno
    else
      && p in t.leaves
      && (nearby == 0 ==> p == t.leaves[0])
      && (nearby > 0 ==> forall q :: q in t.leaves ==> Dist(p, nearby) <= Dist(q, nearby))
  }

  lemma NearestLeaf(u: nat, page: seq<Byte>, t: Trunk, next: nat, nearby: nat, closest: nat)
    requires TrunkPage(u, page, t, next) && closest < |t.leaves| && (nearby == 0 ==> closest == 0)
    requires nearby > 0 ==> forall i {:trigger Get4(page, 8 + 4 * i)} :: 0 <= i < |t.leaves| ==>
      Dist(Get4(page, 8 + 4 * closest), nearby) <= Dist(Get4(page, 8 + 4 * i), nearby)
    ensures Picked(t, nearby, t.leaves[closest]) && Get4(page, 8 + 4 * closest) == t.leaves[closest]
  {
    hide Get4;
    forall q | q in t.leaves && nearby > 0 ensures Dist(t.leaves[closest], nearby) <= Dist(q, nearby) {
      var i :| 0 <= i < |t.leaves| && t.leaves[i] == q;
      assert Get4(page, 8 + 4 * i) == q;
    }
  }
}
