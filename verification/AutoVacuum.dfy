// Auto-vacuum (src/db_sqlite/btree.c:2133-2430): pages beyond the new end of the file move to free
// pages before it, and the references to them and their pointer-map entries follow.
module AutoVacuum {

  import opened PointerMap

  // child is meant on interior pages only; ovfl is 0 if the cell has no overflow page.
  datatype CellRef = CellRef(child: nat, ovfl: nat)

  datatype Page = Tree(leaf: bool, cells: seq<CellRef>, right: nat) | Overflow(next: nat)

  // The places on a page that hold page numbers.
  datatype Slot = OvflOf(i: nat) | ChildOf(i: nat) | RightChild | NextPage

  predicate HasSlot(p: Page, s: Slot) {
    match s
    case OvflOf(i) => p.Tree? && i < |p.cells| && p.cells[i].ovfl != 0
    case ChildOf(i) => p.Tree? && !p.leaf && i < |p.cells|
    case RightChild => p.Tree? && !p.leaf
    case NextPage => p.Overflow? && p.next != 0
  }

  function Target(p: Page, s: Slot): nat
    requires HasSlot(p, s)
  {
    match s
    case OvflOf(i) => p.cells[i].ovfl
    case ChildOf(i) => p.cells[i].child
    case RightChild => p.right
    case NextPage => p.next
  }

  function KindOf(s: Slot): Kind {
    match s
    case OvflOf(_) => Overflow1
    case ChildOf(_) => BtreePage
    case RightChild => BtreePage
    case NextPage => Overflow2
  }

  // No two places on a page name the same page.
  ghost predicate SingleRefs(p: Page) {
    forall s, t {:trigger HasSlot(p, s), HasSlot(p, t)} ::
      HasSlot(p, s) && HasSlot(p, t) && Target(p, s) == Target(p, t) ==> s == t
  }

  type Pages = map<nat, Page>

  // The page named at slot s of page p exists, is of the kind the slot says, is no root, and the
  // pointer map knows p as its parent.
  ghost predicate RefOK(pages: Pages, ptrmap: PtrMap, roots: set<nat>, p: nat, s: Slot) {
    p in pages && (HasSlot(pages[p], s) ==>
      var t := Target(pages[p], s);
      && t in pages && t != p && t !in roots && t in ptrmap && ptrmap[t] == MapEntry(KindOf(s), p)
      && (pages[t].Tree? <==> KindOf(s) == BtreePage))
  }

  ghost predicate Names(p: Page, t: nat) {
    exists s :: HasSlot(p, s) && Target(p, s) == t
  }

  // Page t is named where the pointer map says; a root is named nowhere.
  ghost predicate EntryOK(pages: Pages, ptrmap: PtrMap, roots: set<nat>, t: nat) {
    && t in pages
    && (t in roots ==> pages[t].Tree? && (t == 1 || (t in ptrmap && ptrmap[t] == MapEntry(RootPage, 0))))
    && (t !in roots ==> t in ptrmap && ptrmap[t].parent in pages && Names(pages[ptrmap[t].parent], t))
  }

  // The pointer map is the reference graph.
  ghost predicate Consistent(pages: Pages, ptrmap: PtrMap, roots: set<nat>) {
    && (forall p, s {:trigger RefOK(pages, ptrmap, roots, p, s)} :: p in pages ==> RefOK(pages, ptrmap, roots, p, s))
    && (forall p {:trigger EntryOK(pages, ptrmap, roots, p)} :: p in pages ==> EntryOK(pages, ptrmap, roots, p))
    && (forall p {:trigger SingleRefs(pages[p])} :: p in pages ==> SingleRefs(pages[p]))
    && roots <= pages.Keys && 0 !in pages
  }

  function Rename(x: nat, from: nat, to: nat): nat {
    if x == from then to else x
  }

  // The page with every reference to from turned into one to `to`.
  function Renamed(p: Page, from: nat, to: nat): Page {
    match p
    case Tree(leaf, cells, right) =>
      Tree(leaf, seq(|cells|, i requires 0 <= i < |cells| =>
        CellRef(if leaf then cells[i].child else Rename(cells[i].child, from, to), Rename(cells[i].ovfl, from, to))),
        if leaf then right else Rename(right, from, to))
    case Overflow(next) => Overflow(Rename(next, from, to))
  }

  // Page from has become page `to`; whoever named it names it by its new number.
  function MovedPages(pages: Pages, from: nat, to: nat): Pages
    requires from in pages
  {
    map p | p in pages.Keys - {from} + {to} :: Renamed(pages[if p == to then from else p], from, to)
  }

  lemma MovedKeys(pages: Pages, from: nat, to: nat)
    requires from in pages
    ensures MovedPages(pages, from, to).Keys == pages.Keys - {from} + {to}
  {
  }

  lemma RenamedSlots(p: Page, from: nat, to: nat, s: Slot)
    requires from != 0 && to != 0
    ensures HasSlot(Renamed(p, from, to), s) <==> HasSlot(p, s)
    ensures HasSlot(p, s) ==> Target(Renamed(p, from, to), s) == Rename(Target(p, s), from, to)
  {
  }

  // The map entries after a move: the moved page's children name its new number as their parent,
  // and the page itself has its entry under that number.
  ghost predicate MovedEntries(pages: Pages, ptrmap: PtrMap, ptrmap': PtrMap, from: nat, to: nat) {
    && from in pages && from in ptrmap && to in ptrmap' && ptrmap'[to] == ptrmap[from]
    && (forall s {:trigger HasSlot(pages[from], s)} :: HasSlot(pages[from], s) && Target(pages[from], s) != to ==>
          Target(pages[from], s) in ptrmap' && ptrmap'[Target(pages[from], s)] == MapEntry(KindOf(s), to))
    && (forall t :: t in ptrmap && t != to && !Names(pages[from], t) ==> t in ptrmap' && ptrmap'[t] == ptrmap[t])
  }

  lemma MovedRef(pages: Pages, ptrmap: PtrMap, ptrmap': PtrMap, roots: set<nat>, from: nat, to: nat, p: nat, s: Slot)
    requires Consistent(pages, ptrmap, roots) && from in pages && from !in roots && to !in pages && to != 0
    requires MovedEntries(pages, ptrmap, ptrmap', from, to) && p in MovedPages(pages, from, to)
    ensures RefOK(MovedPages(pages, from, to), ptrmap', roots, p, s)
  {
    var q := if p == to then from else p;
    RenamedSlots(pages[q], from, to, s);
    assert RefOK(pages, ptrmap, roots, q, s);
    if HasSlot(pages[q], s) {
      var t := Target(pages[q], s);
      if t != from && q != from {
        forall s' | HasSlot(pages[from], s')
          ensures Target(pages[from], s') != t { assert RefOK(pages, ptrmap, roots, from, s'); }
      }
    }
  }

  lemma MovedEntry(pages: Pages, ptrmap: PtrMap, ptrmap': PtrMap, roots: set<nat>, from: nat, to: nat, p: nat)
    requires Consistent(pages, ptrmap, roots) && from in pages && from !in roots && to !in pages && to != 0
    requires MovedEntries(pages, ptrmap, ptrmap', from, to) && p in MovedPages(pages, from, to)
    ensures EntryOK(MovedPages(pages, from, to), ptrmap', roots, p)
  {
    var pages' := MovedPages(pages, from, to);
    var q := if p == to then from else p;
    assert EntryOK(pages, ptrmap, roots, q);
    if q in roots {
      forall s | HasSlot(pages[from], s)
        ensures Target(pages[from], s) != q { assert RefOK(pages, ptrmap, roots, from, s); }
    } else {
      var u := ptrmap[q].parent;
      var s :| HasSlot(pages[u], s) && Target(pages[u], s) == q;
      assert RefOK(pages, ptrmap, roots, u, s);
      RenamedSlots(pages[u], from, to, s);
      if q != from && u != from {
        forall s' | HasSlot(pages[from], s')
          ensures Target(pages[from], s') != q { assert RefOK(pages, ptrmap, roots, from, s'); }
      }
      var u' := if u == from then to else u;
      assert HasSlot(pages'[u'], s) && Target(pages'[u'], s) == p;
    }
  }

  lemma MovedSingle(pages: Pages, ptrmap: PtrMap, roots: set<nat>, from: nat, to: nat, p: nat)
    requires Consistent(pages, ptrmap, roots) && from in pages && to !in pages && to != 0 &&
      p in MovedPages(pages, from, to)
    ensures SingleRefs(MovedPages(pages, from, to)[p])
  {
    var q := if p == to then from else p;
    var pg, pg' := pages[q], MovedPages(pages, from, to)[p];
    forall s, t | HasSlot(pg', s) && HasSlot(pg', t) && Target(pg', s) == Target(pg', t) ensures s == t {
      RenamedSlots(pg, from, to, s);
      RenamedSlots(pg, from, to, t);
      assert RefOK(pages, ptrmap, roots, q, s) && RefOK(pages, ptrmap, roots, q, t);
      assert SingleRefs(pages[q]);
    }
  }

  lemma MoveKeepsConsistent(pages: Pages, ptrmap: PtrMap, ptrmap': PtrMap, roots: set<nat>, from: nat, to: nat)
    requires Consistent(pages, ptrmap, roots) && from in pages && from !in roots && to !in pages && to != 0
    requires MovedEntries(pages, ptrmap, ptrmap', from, to)
    ensures Consistent(MovedPages(pages, from, to), ptrmap', roots)
  {
    var pages' := MovedPages(pages, from, to);
    forall p, s {:trigger RefOK(pages', ptrmap', roots, p, s)} | p in pages'
      ensures RefOK(pages', ptrmap', roots, p, s) {
      MovedRef(pages, ptrmap, ptrmap', roots, from, to, p, s);
    }
    forall p {:trigger EntryOK(pages', ptrmap', roots, p)} | p in pages' ensures EntryOK(pages', ptrmap', roots, p) {
      MovedEntry(pages, ptrmap, ptrmap', roots, from, to, p);
    }
    forall p {:trigger SingleRefs(pages'[p])} | p in pages' ensures SingleRefs(pages'[p]) {
      MovedSingle(pages, ptrmap, roots, from, to, p);
    }
  }

  lemma NotNamed(p: Page, from: nat, to: nat)
    requires from != 0 && !Names(p, from)
    ensures Renamed(p, from, to) == p
  {
    if p.Tree? {
      forall i | 0 <= i < |p.cells|
        ensures Rename(p.cells[i].ovfl, from, to) == p.cells[i].ovfl &&
        (!p.leaf ==> Rename(p.cells[i].child, from, to) == p.cells[i].child) {
        assert HasSlot(p, OvflOf(i)) ==> Target(p, OvflOf(i)) != from;
        assert HasSlot(p, ChildOf(i)) ==> Target(p, ChildOf(i)) != from;
      }
      assert HasSlot(p, RightChild) ==> Target(p, RightChild) != from;
    } else {
      assert HasSlot(p, NextPage) ==> Target(p, NextPage) != from;
    }
  }

  // A page with one reference changed is the page renamed, if that reference was the only one.
  function SetSlot(p: Page, s: Slot, to: nat): Page
    requires HasSlot(p, s)
  {
    match s
    case OvflOf(i) => p.(cells := p.cells[i := p.cells[i].(ovfl := to)])
    case ChildOf(i) => p.(cells := p.cells[i := p.cells[i].(child := to)])
    case RightChild => p.(right := to)
    case NextPage => Overflow(to)
  }

  lemma OnlySlot(p: Page, s: Slot, from: nat, to: nat)
    requires SingleRefs(p) && HasSlot(p, s) && Target(p, s) == from != 0
    ensures SetSlot(p, s, to) == Renamed(p, from, to)
  {
    if p.Tree? {
      forall i | 0 <= i < |p.cells|
        ensures SetSlot(p, s, to).cells[i] == Renamed(p, from, to).cells[i]
      {
        assert HasSlot(p, OvflOf(i)) && Target(p, OvflOf(i)) == from ==> s == OvflOf(i);
        assert HasSlot(p, ChildOf(i)) && Target(p, ChildOf(i)) == from ==> s == ChildOf(i);
      }
      assert HasSlot(p, RightChild) && Target(p, RightChild) == from ==> s == RightChild;
    }
  }

  datatype Code = Ok | Corrupt

  class Database {
    const usable: nat
    var pages: Pages
    var ptrmap: PtrMap
    var freeList: seq<nat>
    var pageCount: nat
    ghost var roots: set<nat>

    method PtrmapPut(key: nat, kind: Kind, parent: nat)
      modifies this`ptrmap
      ensures ptrmap == old(ptrmap)[key := MapEntry(kind, parent)]
    {
      ptrmap := ptrmap[key := MapEntry(kind, parent)];
    }

    // Entries for all pages that page pgno names (btree.c:2133-2167).
    method SetChildPtrmaps(pgno: nat)
      requires pgno in pages && pages[pgno].Tree? && SingleRefs(pages[pgno])
      modifies this`ptrmap
      ensures ptrmap.Keys >= old(ptrmap).Keys
      ensures forall s {:trigger HasSlot(pages[pgno], s)} :: HasSlot(pages[pgno], s) ==>
        Target(pages[pgno], s) in ptrmap && ptrmap[Target(pages[pgno], s)] == MapEntry(KindOf(s), pgno)
      ensures forall t :: t in old(ptrmap) && !Names(pages[pgno], t) ==> ptrmap[t] == old(ptrmap)[t]
    {
      var p := pages[pgno];
      var i := 0;
      while i < |p.cells|
        invariant i <= |p.cells| && ptrmap.Keys >= old(ptrmap).Keys
        invariant forall s {:trigger HasSlot(p, s)} :: HasSlot(p, s) && Before(s, i) ==>
          Target(p, s) in ptrmap && ptrmap[Target(p, s)] == MapEntry(KindOf(s), pgno)
        invariant forall t :: t in old(ptrmap) && !Names(p, t) ==> ptrmap[t] == old(ptrmap)[t]
      {
        if p.cells[i].ovfl != 0 {
          assert HasSlot(p, OvflOf(i)) && Target(p, OvflOf(i)) == p.cells[i].ovfl;
          PtrmapPut(p.cells[i].ovfl, Overflow1, pgno);
        }
        if !p.leaf {
          assert HasSlot(p, ChildOf(i)) && Target(p, ChildOf(i)) == p.cells[i].child;
          PtrmapPut(p.cells[i].child, BtreePage, pgno);
        }
        i := i + 1;
      }
      if !p.leaf {
        assert HasSlot(p, RightChild) && Target(p, RightChild) == p.right;
        PtrmapPut(p.right, BtreePage, pgno);
      }
    }

    // The reference to page from on page pgno becomes one to page `to` (btree.c:2184-2229).
    method ModifyPagePointer(pgno: nat, from: nat, to: nat, kind: Kind) returns (rc: Code)
      requires pgno in pages && from != 0 && SingleRefs(pages[pgno])
      requires match kind
        case Overflow2 => pages[pgno].Overflow?
        case Overflow1 => pages[pgno].Tree?
        case BtreePage => pages[pgno].Tree? && !pages[pgno].leaf
        case _ => false
      modifies this`pages
      ensures rc == Ok ==> pages == old(pages)[pgno := Renamed(old(pages)[pgno], from, to)]
      ensures rc == Corrupt ==> pages == old(pages)
      ensures rc == Ok <==>
        exists s :: HasSlot(old(pages)[pgno], s) && KindOf(s) == kind && Target(old(pages)[pgno], s) == from
    {
      var p := pages[pgno];
      if kind == Overflow2 {
        if p.next != from {
          return Corrupt;
        }
        OnlySlot(p, NextPage, from, to);
        assert HasSlot(p, NextPage) && KindOf(NextPage) == kind;
        pages := pages[pgno := Overflow(to)];
      } else {
        var i := 0;
        while i < |p.cells|
          invariant i <= |p.cells| && pages == old(pages)
          invariant forall s {:trigger HasSlot(p, s)} :: HasSlot(p, s) && Before(s, i) && KindOf(s) == kind ==>
            Target(p, s) != from
        {
          if kind == Overflow1 {
            if p.cells[i].ovfl != 0 && p.cells[i].ovfl == from {
              assert HasSlot(p, OvflOf(i)) && KindOf(OvflOf(i)) == kind;
              OnlySlot(p, OvflOf(i), from, to);
              pages := pages[pgno := p.(cells := p.cells[i := p.cells[i].(ovfl := to)])];
              return Ok;
            }
          } else {
            if p.cells[i].child == from {
              assert HasSlot(p, ChildOf(i)) && KindOf(ChildOf(i)) == kind;
              OnlySlot(p, ChildOf(i), from, to);
              pages := pages[pgno := p.(cells := p.cells[i := p.cells[i].(child := to)])];
              return Ok;
            }
          }
          i := i + 1;
        }
        if kind != BtreePage || p.right != from {
          return Corrupt;
        }
        assert HasSlot(p, RightChild) && KindOf(RightChild) == kind;
        OnlySlot(p, RightChild, from, to);
        pages := pages[pgno := p.(right := to)];
      }
      rc := Ok;
    }

    // Page iDbPage becomes page iFree (btree.c:2236-2304).
    method RelocatePage(iDbPage: nat, eType: Kind, iPtrPage: nat, iFree: nat) returns (rc: Code)
      requires Consistent(pages, ptrmap, roots) && iDbPage in pages && iDbPage !in roots
      requires iDbPage in ptrmap && ptrmap[iDbPage] == MapEntry(eType, iPtrPage)
      requires iFree !in pages && iFree != 0
      modifies this`pages, this`ptrmap
      ensures rc == Ok && pages == MovedPages(old(pages), iDbPage, iFree) && Consistent(pages, ptrmap, roots)
      ensures ptrmap.Keys >= old(ptrmap).Keys
      ensures forall t :: t in old(ptrmap) && t !in old(pages) && t != iFree ==> ptrmap[t] == old(ptrmap)[t]
      ensures forall t :: t in old(ptrmap) && t in old(pages) && t != iFree ==> ptrmap[t].kind == old(ptrmap)[t].kind
    {
      hide Consistent;
      ghost var pages0, map0 := pages, ptrmap;
      Parent(pages, ptrmap, roots, iDbPage);
      var s: Slot :| HasSlot(pages[iPtrPage], s) && Target(pages[iPtrPage], s) == iDbPage;
      ParentSlot(pages, ptrmap, roots, iDbPage, iPtrPage, s);
      pages := (pages - {iDbPage})[iFree := pages[iDbPage]];
      if eType == BtreePage || eType == RootPage {
        SetChildPtrmaps(iFree);
      } else {
        var nextOvfl := pages[iFree].next;
        if nextOvfl != 0 {
          assert HasSlot(pages[iFree], NextPage) && Target(pages[iFree], NextPage) == nextOvfl;
          PtrmapPut(nextOvfl, Overflow2, iFree);
        }
      }
      ghost var map1 := ptrmap;
      rc := Ok;
      if eType != RootPage {
        rc := ModifyPagePointer(iPtrPage, iDbPage, iFree, eType);
        if rc == Ok {
          PtrmapPut(iFree, eType, iPtrPage);
        }
      }
      PagesMoved(pages0, map0, roots, iDbPage, iPtrPage, iFree);
      OldKinds(pages0, map0, map1, roots, iDbPage, iFree);
      MoveKeepsConsistent(pages0, map0, ptrmap, roots, iDbPage, iFree);
    }

    // Any page of the free list.
    method AllocatePage() returns (p: nat, ghost k: nat)
      requires freeList != []
      modifies this`freeList
      ensures k < |old(freeList)| && p == old(freeList)[k] && freeList == old(freeList)[..k] + old(freeList)[k + 1..]
    {
      p, k := freeList[|freeList| - 1], |freeList| - 1;
      freeList := freeList[..|freeList| - 1];
    }

    // Every page but the pointer-map pages is in use or free, and the pointer map knows which.
    ghost predicate Valid()
      reads this
    {
      && Consistent(pages, ptrmap, roots) && PerPage(usable) > 0 && pageCount >= 2 && 1 in pages
      && (forall p :: p in pages ==> p <= pageCount && !IsMapPage(usable, p))
      && Distinct(freeList) &&
        (forall f :: f in FreeSet(freeList) ==> f <= pageCount && !IsMapPage(usable, f) && f !in pages && f != 0)
      && (forall p :: 1 <= p <= pageCount && !IsMapPage(usable, p) ==> p in pages || p in FreeSet(freeList))
      && (forall p :: 2 <= p <= pageCount && !IsMapPage(usable, p) ==>
        p in ptrmap && (p in pages <==> ptrmap[p].kind != FreePage))
    }

    // Pages fin + 1 .. i - 1 are no longer in use; as many free pages lie below as used ones above.
    ghost predicate Vacuuming(i: nat, fin: nat)
      reads this
    {
      && Consistent(pages, ptrmap, roots) && 1 <= fin < i
      && Places(pages, freeList, usable, pageCount, i, fin) && Kinds(pages, ptrmap, usable, pageCount, i)
      && |UsedAbove(pages, fin)| == |FreeBelow(FreeSet(freeList), fin)|
    }

    // Pull pages off the free list until one lies before the new end of the file.
    method FindFree(fin: nat) returns (iFree: nat)
      requires Distinct(freeList) && FreeBelow(FreeSet(freeList), fin) != {}
      modifies this`freeList
      ensures iFree <= fin && iFree in FreeSet(old(freeList)) && Distinct(freeList) &&
        FreeSet(freeList) <= FreeSet(old(freeList)) - {iFree}
      ensures FreeBelow(FreeSet(freeList), fin) == FreeBelow(FreeSet(old(freeList)), fin) - {iFree}
    {
      hide FreeSet, Distinct;
      ghost var list, k := freeList, 0;
      SomeFree(freeList, fin);
      iFree, k := AllocatePage();
      Taken(list, freeList, k);
      StillBelow(FreeSet(list), FreeSet(list), FreeSet(freeList), fin, iFree);
      while iFree > fin
        invariant Distinct(freeList) && iFree in FreeSet(old(freeList)) &&
          FreeSet(freeList) <= FreeSet(old(freeList)) - {iFree}
        invariant FreeBelow(FreeSet(freeList), fin) == FreeBelow(FreeSet(old(freeList)), fin) - {iFree}
        invariant iFree > fin ==> FreeBelow(FreeSet(freeList), fin) == FreeBelow(FreeSet(old(freeList)), fin)
        decreases |freeList|
      {
        SomeFree(freeList, fin);
        list := freeList;
        iFree, k := AllocatePage();
        Taken(list, freeList, k);
        StillBelow(FreeSet(old(freeList)), FreeSet(list), FreeSet(freeList), fin, iFree);
      }
    }

    // Move page i before the new end.
    method MoveOut(i: nat, fin: nat, eType: Kind, iPtrPage: nat) returns (iFree: nat, rc: Code)
      requires Vacuuming(i, fin) && i in pages && i !in roots && i in ptrmap && ptrmap[i] == MapEntry(eType, iPtrPage)
      modifies this`pages, this`ptrmap, this`freeList
      ensures rc == Ok && Vacuuming(i + 1, fin) && 0 < iFree <= fin && iFree !in old(pages) &&
        pages == MovedPages(old(pages), i, iFree)
    {
      hide Consistent, FreeSet, Distinct, IsMapPage, Renamed, MovedPages, Places, Kinds;
      ghost var pages0, list0, map0 := pages, freeList, ptrmap;
      PlacesOf(pages, freeList, usable, pageCount, i, fin);
      assert i in UsedAbove(pages, fin);
      iFree := FindFree(fin);
      assert iFree in FreeBelow(FreeSet(list0), fin);
      rc := RelocatePage(i, eType, iPtrPage, iFree);
      OneDown(pages0, pages, list0, freeList, fin, i, iFree);
      MovedKeys(pages0, i, iFree);
      StillPlaced(pages0, pages, list0, freeList, usable, pageCount, i, fin, iFree);
      StillKinds(pages0, pages, map0, ptrmap, usable, pageCount, i, iFree);
    }

    // Page i as the pointer map describes it.
    lemma Examine(i: nat, fin: nat)
      requires Vacuuming(i, fin) && i <= pageCount && !IsMapPage(usable, i)
      ensures i in ptrmap && (i in pages <==> ptrmap[i].kind != FreePage) &&
        (i in pages ==> (i in roots <==> ptrmap[i].kind == RootPage))
    {
      hide Consistent;
      KindOfRoot(pages, ptrmap, roots, i);
    }

    lemma Skip(i: nat, fin: nat)
      requires Vacuuming(i, fin) && i !in pages
      ensures Vacuuming(i + 1, fin)
    {
      hide Consistent;
    }

    // Shrink the file by the number of free pages (btree.c:2313-2430). where: the new numbers of all pages.
    method AutoVacuumCommit() returns (rc: Code, nTrunc: nat, ghost where: map<nat, nat>)
      requires Valid()
      modifies this`pages, this`ptrmap, this`freeList
      ensures old(freeList) == [] && rc == Ok ==> nTrunc == 0 && pages == old(pages) && ptrmap == old(ptrmap)
      ensures old(freeList) != [] && rc == Ok ==>
        && nTrunc == FinalSize(usable, |old(freeList)|, pageCount) && nTrunc < pageCount && !IsMapPage(usable, nTrunc)
        && freeList == [] && Consistent(pages, ptrmap, roots) && (forall p :: p in pages ==> p <= nTrunc)
        && Moved(old(pages), pages, where) && (forall p :: p in old(pages) && p <= nTrunc ==> where[p] == p)
      ensures rc == Corrupt <==>
        IsMapPage(usable, pageCount) ||
          (old(freeList) != [] && exists r :: r in roots && r > FinalSize(usable, |old(freeList)|, pageCount))
    {
      hide Consistent, Moved, Vacuuming, IsMapPage, FinalSize, MovedPages;
      where := map p | p in pages :: p;
      if IsMapPage(usable, pageCount) {
        return Corrupt, 0, where;
      }
      if freeList == [] {
        return Ok, 0, where;
      }
      RootsInUse(pages, ptrmap, roots);
      Unmoved(pages);
      StartVacuum();
      var fin := FinalSize(usable, |freeList|, pageCount);
      var i := fin + 1;
      while i <= pageCount
        invariant fin < i <= pageCount + 1 && Vacuuming(i, fin)
        invariant Moved(old(pages), pages, where) &&
          (forall p :: p in old(pages) && p <= fin ==> p in where && where[p] == p)
        invariant forall r :: r in roots && fin < r ==> i <= r
      {
        var eType, iPtrPage := FreePage, 0;
        if !IsMapPage(usable, i) {
          Examine(i, fin);
          eType, iPtrPage := ptrmap[i].kind, ptrmap[i].parent;
        }
        if eType == RootPage {
          return Corrupt, 0, where;
        }
        if eType != FreePage {
          ghost var pages0, where0 := pages, where;
          var iFree;
          iFree, rc := MoveOut(i, fin, eType, iPtrPage);
          MovedOnce(old(pages), old(ptrmap), roots, pages0, where, i, iFree);
          where := Onward(where, i, iFree);
        } else {
          NoMapPage(i, fin);
          Skip(i, fin);
        }
        i := i + 1;
      }
      Vacuumed(i, fin);
      freeList := [];
      rc, nTrunc := Ok, fin;
    }

    lemma NoMapPage(i: nat, fin: nat)
      requires Vacuuming(i, fin)
      ensures i in pages ==> !IsMapPage(usable, i)
      ensures forall r :: r in roots ==> r in pages
    {
    }

    lemma StartVacuum()
      requires Valid() && freeList != [] && !IsMapPage(usable, pageCount)
      ensures var fin := FinalSize(usable, |freeList|, pageCount);
        1 <= fin < pageCount && !IsMapPage(usable, fin) && Vacuuming(fin + 1, fin)
    {
      hide Consistent, FreeSet, IsMapPage, FinalSize;
      SizesMatch(usable, pages, freeList, pageCount);
    }

    lemma Vacuumed(i: nat, fin: nat)
      requires Vacuuming(i, fin) && i > pageCount
      ensures Consistent(pages, ptrmap, roots) && forall p :: p in pages ==> p <= fin
    {
      hide Consistent;
    }
  }

  lemma Parent(pages: Pages, ptrmap: PtrMap, roots: set<nat>, t: nat)
    requires Consistent(pages, ptrmap, roots) && t in pages && t !in roots
    ensures t in ptrmap && ptrmap[t].parent in pages && Names(pages[ptrmap[t].parent], t) && t != 0 &&
      SingleRefs(pages[t])
  {
    assert EntryOK(pages, ptrmap, roots, t);
  }

  // What the place that names t says about t.
  lemma ParentSlot(pages: Pages, ptrmap: PtrMap, roots: set<nat>, t: nat, p: nat, s: Slot)
    requires Consistent(pages, ptrmap, roots) && p in pages && HasSlot(pages[p], s) && Target(pages[p], s) == t
    ensures t in pages && t in ptrmap && ptrmap[t] == MapEntry(KindOf(s), p) && p != t && SingleRefs(pages[p])
    ensures pages[t].Tree? <==> KindOf(s) == BtreePage
    ensures match KindOf(s)
      case Overflow2 => pages[p].Overflow?
      case Overflow1 => pages[p].Tree?
      case BtreePage => pages[p].Tree? && !pages[p].leaf
      case _ => false
  {
    assert RefOK(pages, ptrmap, roots, p, s);
  }

  lemma PagesMoved(pages: Pages, ptrmap: PtrMap, roots: set<nat>, from: nat, parent: nat, to: nat)
    requires Consistent(pages, ptrmap, roots) && from in pages && parent in pages && parent != from && to !in pages &&
      to != 0 && from != 0
    requires from in ptrmap && ptrmap[from].parent == parent
    ensures (pages - {from})[to := pages[from]][parent := Renamed(pages[parent], from, to)] ==
      MovedPages(pages, from, to)
  {
    forall p | p in pages && p != parent ensures Renamed(pages[p], from, to) == pages[p] {
      if Names(pages[p], from) {
        var s :| HasSlot(pages[p], s) && Target(pages[p], s) == from;
        ParentSlot(pages, ptrmap, roots, from, p, s);
      }
      NotNamed(pages[p], from, to);
    }
  }

  // Map entries of other pages keep their kind: the moved page's children are still what they were.
  lemma OldKinds(pages: Pages, ptrmap: PtrMap, ptrmap': PtrMap, roots: set<nat>, from: nat, to: nat)
    requires Consistent(pages, ptrmap, roots) && from in pages && to !in pages && ptrmap'.Keys >= ptrmap.Keys
    requires forall s {:trigger HasSlot(pages[from], s)} :: HasSlot(pages[from], s) ==>
      Target(pages[from], s) in ptrmap' && ptrmap'[Target(pages[from], s)] == MapEntry(KindOf(s), to)
    requires forall t :: t in ptrmap && !Names(pages[from], t) ==> ptrmap'[t] == ptrmap[t]
    ensures forall t :: t in ptrmap && t !in pages ==> ptrmap'[t] == ptrmap[t]
    ensures forall t :: t in ptrmap && t in pages ==> ptrmap'[t].kind == ptrmap[t].kind
    ensures !Names(pages[from], from)
  {
    forall t | Names(pages[from], t)
      ensures t in pages && t != from && t in ptrmap && ptrmap'[t].kind == ptrmap[t].kind {
      var s :| HasSlot(pages[from], s) && Target(pages[from], s) == t;
      ParentSlot(pages, ptrmap, roots, t, from, s);
    }
  }

  // Slots of the first n cells.
  predicate Before(s: Slot, n: nat) {
    match s
    case OvflOf(i) => i < n
    case ChildOf(i) => i < n
    case _ => false
  }

  // ----- Counting used and free pages.

  ghost predicate Distinct(list: seq<nat>) {
    forall i, j {:trigger list[i], list[j]} :: 0 <= i < j < |list| ==> list[i] != list[j]
  }

  ghost function UsedAbove(pages: Pages, fin: nat): set<nat> {
    set p | p in pages && p > fin
  }

  ghost function FreeSet(list: seq<nat>): set<nat> {
    set f | f in list
  }

  ghost function FreeBelow(free: set<nat>, fin: nat): set<nat> {
    set f | f in free && f <= fin
  }

  lemma SomeFree(list: seq<nat>, fin: nat)
    requires FreeBelow(FreeSet(list), fin) != {}
    ensures list != []
  {
    assert list == [] ==> FreeSet(list) == {};
  }

  lemma Taken(list: seq<nat>, list': seq<nat>, k: nat)
    requires Distinct(list) && k < |list| && list' == list[..k] + list[k + 1..]
    ensures Distinct(list') && list[k] in FreeSet(list) && FreeSet(list') == FreeSet(list) - {list[k]} &&
      |list'| < |list|
  {
    forall i | 0 <= i < |list'| ensures list'[i] == list[if i < k then i else i + 1] && list'[i] != list[k] {}
    forall f | f in list && f != list[k] ensures f in list' {
      var i :| 0 <= i < |list| && list[i] == f;
      assert list'[if i < k then i else i - 1] == f;
    }
  }

  lemma StillBelow(all: set<nat>, free: set<nat>, free': set<nat>, fin: nat, taken: nat)
    requires FreeBelow(free, fin) == FreeBelow(all, fin) && free' == free - {taken}
    ensures FreeBelow(free', fin) == FreeBelow(all, fin) - {taken}
    ensures taken > fin ==> FreeBelow(free', fin) == FreeBelow(all, fin)
  {
    assert FreeBelow(free', fin) == FreeBelow(free, fin) - {taken};
  }

  // No page in use lies between fin and i, and the free pages are pages of the file that are not in use.
  ghost predicate Places(pages: Pages, list: seq<nat>, usable: nat, pageCount: nat, i: nat, fin: nat) {
    && (forall p :: p in pages ==> p <= pageCount && !IsMapPage(usable, p) && (p <= fin || i <= p))
    && Distinct(list) &&
      (forall f :: f in FreeSet(list) ==> f <= pageCount && !IsMapPage(usable, f) && f !in pages && f != 0)
  }

  // From page i on the pointer map knows which pages are free.
  ghost predicate Kinds(pages: Pages, ptrmap: PtrMap, usable: nat, pageCount: nat, i: nat) {
    forall p :: i <= p <= pageCount && !IsMapPage(usable, p) ==>
      p in ptrmap && (p in pages <==> ptrmap[p].kind != FreePage)
  }

  lemma PlacesOf(pages: Pages, list: seq<nat>, usable: nat, pageCount: nat, i: nat, fin: nat)
    requires Places(pages, list, usable, pageCount, i, fin)
    ensures Distinct(list) && forall f :: f in FreeSet(list) ==> f !in pages && f != 0
  {
  }

  lemma StillPlaced(pages: Pages, pages': Pages, list: seq<nat>, list': seq<nat>, usable: nat, pageCount: nat, i: nat,
      fin: nat, iFree: nat)
    requires Places(pages, list, usable, pageCount, i, fin) && pages'.Keys == pages.Keys - {i} + {iFree}
    requires iFree <= fin && iFree in FreeSet(list) && Distinct(list') && FreeSet(list') <= FreeSet(list) - {iFree}
    ensures Places(pages', list', usable, pageCount, i + 1, fin)
  {
    hide FreeSet, Distinct, IsMapPage;
  }

  lemma StillKinds(pages: Pages, pages': Pages, ptrmap: PtrMap, ptrmap': PtrMap, usable: nat, pageCount: nat, i: nat,
      iFree: nat)
    requires Kinds(pages, ptrmap, usable, pageCount, i) && pages'.Keys == pages.Keys - {i} + {iFree} && iFree < i
    requires ptrmap'.Keys >= ptrmap.Keys
    requires forall t :: t in ptrmap && t !in pages && t != iFree ==> ptrmap'[t] == ptrmap[t]
    requires forall t :: t in ptrmap && t in pages && t != iFree ==> ptrmap'[t].kind == ptrmap[t].kind
    ensures Kinds(pages', ptrmap', usable, pageCount, i + 1)
  {
    hide IsMapPage;
  }

  lemma OneDown(pages: Pages, pages': Pages, list: seq<nat>, list': seq<nat>, fin: nat, i: nat, iFree: nat)
    requires i in pages && fin < i && 0 < iFree <= fin && pages' == MovedPages(pages, i, iFree)
    requires iFree in FreeBelow(FreeSet(list), fin) &&
      FreeBelow(FreeSet(list'), fin) == FreeBelow(FreeSet(list), fin) - {iFree} &&
      |UsedAbove(pages, fin)| == |FreeBelow(FreeSet(list), fin)|
    ensures |UsedAbove(pages', fin)| == |FreeBelow(FreeSet(list'), fin)|
  {
    assert UsedAbove(pages', fin) == UsedAbove(pages, fin) - {i};
  }

  lemma {:induction false} DistinctSize(list: seq<nat>)
    requires Distinct(list)
    ensures |FreeSet(list)| == |list|
    decreases |list|
  {
    if list != [] {
      var n := |list| - 1;
      DistinctSize(list[..n]);
      assert list == list[..n] + [list[n]];
      assert FreeSet(list) == FreeSet(list[..n]) + {list[n]};
      assert list[n] !in FreeSet(list[..n]);
    } else {
      assert FreeSet(list) == {};
    }
  }

  // The pages lo + 1 .. hi that are no pointer-map pages.
  ghost function DataPages(usable: nat, lo: nat, hi: nat): (r: set<nat>)
    requires lo <= hi
    ensures |r| == hi - lo - (MapPages(usable, hi) - MapPages(usable, lo))
    ensures forall p :: p in r <==> lo < p <= hi && !IsMapPage(usable, p)
    decreases hi - lo
  {
    if lo == hi then {} else DataPages(usable, lo, hi - 1) + if IsMapPage(usable, hi) then {} else {hi}
  }

  // As many free pages lie before the new end as used ones after it.
  lemma SizesMatch(usable: nat, pages: Pages, list: seq<nat>, pageCount: nat)
    requires PerPage(usable) > 0 && pageCount >= 2 && 1 in pages && !IsMapPage(usable, pageCount) && list != [] &&
      Distinct(list)
    requires forall p :: p in pages ==> p <= pageCount && !IsMapPage(usable, p)
    requires forall f :: f in FreeSet(list) ==> f <= pageCount && !IsMapPage(usable, f) && f !in pages && f != 0
    requires forall p :: 1 <= p <= pageCount && !IsMapPage(usable, p) ==> p in pages || p in FreeSet(list)
    ensures var fin := FinalSize(usable, |list|, pageCount);
      1 <= fin < pageCount && !IsMapPage(usable, fin) && |UsedAbove(pages, fin)| == |FreeBelow(FreeSet(list), fin)|
  {
    hide IsMapPage, FinalSize, MapPages, Distinct, FreeSet;
    var free := FreeSet(list);
    DistinctSize(list);
    FirstPage(usable);
    assert 1 !in free;
    assert free <= DataPages(usable, 1, pageCount);
    SmallerSet(free, DataPages(usable, 1, pageCount));
    FinalSizeExact(usable, |list|, pageCount);
    var fin := FinalSize(usable, |list|, pageCount);
    var above := free - FreeBelow(free, fin);
    assert free == FreeBelow(free, fin) + above;
    assert DataPages(usable, fin, pageCount) == UsedAbove(pages, fin) + above by {
      forall p ensures p in DataPages(usable, fin, pageCount) <==> p in UsedAbove(pages, fin) + above {
        assert p in above <==> p in free && p > fin;
      }
    }
    assert UsedAbove(pages, fin) !! above;
  }

  lemma SmallerSet(a: set<nat>, b: set<nat>)
    requires a <= b
    ensures |a| <= |b|
  {
    assert b == a + (b - a);
  }

  lemma RootsInUse(pages: Pages, ptrmap: PtrMap, roots: set<nat>)
    requires Consistent(pages, ptrmap, roots)
    ensures roots <= pages.Keys && 0 !in pages
  {
  }

  lemma KindOfRoot(pages: Pages, ptrmap: PtrMap, roots: set<nat>, i: nat)
    requires Consistent(pages, ptrmap, roots) && i > 1
    ensures i in pages ==> i in ptrmap && (i in roots <==> ptrmap[i].kind == RootPage)
  {
    if i in pages {
      assert EntryOK(pages, ptrmap, roots, i);
      if i !in roots {
        var p := ptrmap[i].parent;
        var s :| HasSlot(pages[p], s) && Target(pages[p], s) == i;
        ParentSlot(pages, ptrmap, roots, i, p, s);
      }
    }
  }

  // ----- The file as a whole: the same pages under other numbers.

  function Via(where: map<nat, nat>, x: nat): nat {
    if x in where then where[x] else x
  }

  function RenamedBy(p: Page, where: map<nat, nat>): Page {
    match p
    case Tree(leaf, cells, right) =>
      Tree(leaf, seq(|cells|, i requires 0 <= i < |cells| =>
        CellRef(if leaf then cells[i].child else Via(where, cells[i].child), Via(where, cells[i].ovfl))),
        if leaf then right else Via(where, right))
    case Overflow(next) => Overflow(Via(where, next))
  }

  function Onward(where: map<nat, nat>, i: nat, iFree: nat): (r: map<nat, nat>)
    ensures r.Keys == where.Keys && forall p :: p in where ==> r[p] == Rename(where[p], i, iFree)
  {
    map p | p in where :: Rename(where[p], i, iFree)
  }

  // Every page has a new number of its own, and its references have followed.
  ghost predicate Moved(pages: Pages, pages': Pages, where: map<nat, nat>) {
    && where.Keys == pages.Keys && 0 !in where
    && (forall p {:trigger where[p]} :: p in pages ==>
      where[p] != 0 && where[p] in pages' && pages'[where[p]] == RenamedBy(pages[p], where))
    && (forall p, q {:trigger where[p], where[q]} :: p in pages && q in pages && p != q ==> where[p] != where[q])
    && (forall q :: q in pages' ==> exists p :: p in where && where[p] == q)
  }

  lemma Unmoved(pages: Pages)
    requires 0 !in pages
    ensures Moved(pages, pages, map p | p in pages :: p)
  {
    var where := map p | p in pages :: p;
    forall p | p in pages ensures RenamedBy(pages[p], where) == pages[p] {}
    forall q | q in pages ensures exists p :: p in where && where[p] == q { assert where[q] == q; }
  }

  lemma RenamedTwice(pages: Pages, ptrmap: PtrMap, roots: set<nat>, where: map<nat, nat>, where': map<nat, nat>,
      p: nat, i: nat, iFree: nat)
    requires Consistent(pages, ptrmap, roots) && p in pages && where.Keys == pages.Keys == where'.Keys && i != 0
    requires forall q :: q in where ==> where'[q] == Rename(where[q], i, iFree)
    ensures Renamed(RenamedBy(pages[p], where), i, iFree) == RenamedBy(pages[p], where')
  {
    var pg := pages[p];
    if pg.Tree? {
      forall k | 0 <= k < |pg.cells|
        ensures Rename(Via(where, pg.cells[k].ovfl), i, iFree) == Via(where', pg.cells[k].ovfl)
        ensures !pg.leaf ==> Rename(Via(where, pg.cells[k].child), i, iFree) == Via(where', pg.cells[k].child)
      {
        assert RefOK(pages, ptrmap, roots, p, OvflOf(k)) && RefOK(pages, ptrmap, roots, p, ChildOf(k));
        assert HasSlot(pg, OvflOf(k)) ==> Target(pg, OvflOf(k)) in pages;
        assert HasSlot(pg, ChildOf(k)) ==> Target(pg, ChildOf(k)) in pages;
      }
      assert RefOK(pages, ptrmap, roots, p, RightChild);
      assert HasSlot(pg, RightChild) ==> Target(pg, RightChild) in pages;
    } else {
      assert RefOK(pages, ptrmap, roots, p, NextPage);
      assert HasSlot(pg, NextPage) ==> Target(pg, NextPage) in pages;
    }
  }

  lemma MovedOnce(pages: Pages, ptrmap: PtrMap, roots: set<nat>, pages1: Pages, where: map<nat, nat>, i: nat,
      iFree: nat)
    requires Consistent(pages, ptrmap, roots) && Moved(pages, pages1, where) && i in pages1 && iFree !in pages1 &&
      i != 0 && iFree != 0
    ensures Moved(pages, MovedPages(pages1, i, iFree), Onward(where, i, iFree))
    ensures forall p :: p in pages ==> p in where && Onward(where, i, iFree)[p] == Rename(where[p], i, iFree)
  {
    hide Consistent, Renamed, RenamedBy, MovedPages;
    var where' := Onward(where, i, iFree);
    var pages2 := MovedPages(pages1, i, iFree);
    forall p {:trigger where'[p]} | p in pages
      ensures where'[p] in pages2 && pages2[where'[p]] == RenamedBy(pages[p], where') {
      StepMoved(pages, ptrmap, roots, pages1, where, p, i, iFree);
    }
    forall q | q in pages2 ensures exists p :: p in where' && where'[p] == q {
      SomeSource(pages, pages1, where, q, i, iFree);
    }
  }

  lemma StepMoved(pages: Pages, ptrmap: PtrMap, roots: set<nat>, pages1: Pages, where: map<nat, nat>, p: nat, i: nat,
      iFree: nat)
    requires Consistent(pages, ptrmap, roots) && Moved(pages, pages1, where) && i in pages1 && iFree !in pages1 &&
      i != 0 && iFree != 0
    requires p in pages
    ensures Rename(where[p], i, iFree) in MovedPages(pages1, i, iFree)
    ensures MovedPages(pages1, i, iFree)[Rename(where[p], i, iFree)] == RenamedBy(pages[p], Onward(where, i, iFree))
  {
    hide Consistent, Renamed, RenamedBy;
    assert where[p] in pages1;
    RenamedTwice(pages, ptrmap, roots, where, Onward(where, i, iFree), p, i, iFree);
  }

  lemma SomeSource(pages: Pages, pages1: Pages, where: map<nat, nat>, q: nat, i: nat, iFree: nat)
    requires Moved(pages, pages1, where) && i in pages1 && iFree !in pages1 && q in MovedPages(pages1, i, iFree)
    ensures exists p :: p in Onward(where, i, iFree) && Onward(where, i, iFree)[p] == q
  {
    hide Renamed, RenamedBy;
    var q1 := if q == iFree then i else q;
    var p :| p in where && where[p] == q1;
    assert Onward(where, i, iFree)[p] == q;
  }
}
