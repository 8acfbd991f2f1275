// Where pointer-map entries lie (src/db_sqlite/btree.c:758-760) and how many pages auto-vacuum
// cuts off the end of the file (src/db_sqlite/btree.c:2346-2348).
module PointerMap {

  datatype Kind = RootPage | FreePage | Overflow1 | Overflow2 | BtreePage

  datatype MapEntry = MapEntry(kind: Kind, parent: nat)

  type PtrMap = map<nat, MapEntry>

  // Entries on one pointer-map page; such a page and the pages it describes form a group.
  function PerPage(usable: nat): nat { usable / 5 }

  function MapPage(usable: nat, pgno: nat): nat
    requires pgno >= 2
  {
    (pgno - 2) / (PerPage(usable) + 1) * (PerPage(usable) + 1) + 2
  }

  function MapOffset(usable: nat, pgno: nat): int
    requires pgno >= 2
  {
    ((pgno - 2) % (PerPage(usable) + 1) - 1) * 5
  }

  predicate IsMapPage(usable: nat, pgno: nat) {
    pgno >= 2 && MapPage(usable, pgno) == pgno
  }

  // Group and place in the group.
  lemma Place(usable: nat, pgno: nat)
    requires pgno >= 2
    ensures var n := PerPage(usable) + 1;
      && MapPage(usable, pgno) <= pgno < MapPage(usable, pgno) + n
      && (pgno - 2) % n == pgno - MapPage(usable, pgno) &&
        pgno == (pgno - 2) / n * n + 2 + (pgno - MapPage(usable, pgno))
      && (IsMapPage(usable, pgno) <==> (pgno - 2) % n == 0)
  {
    var n := PerPage(usable) + 1;
    assert pgno - 2 == (pgno - 2) / n * n + (pgno - 2) % n;
  }

  // The entry lies within the map page, and the map page is one.
  lemma SlotInside(usable: nat, pgno: nat)
    requires pgno >= 2 && !IsMapPage(usable, pgno)
    ensures 0 <= MapOffset(usable, pgno) && MapOffset(usable, pgno) + 5 <= usable
    ensures IsMapPage(usable, MapPage(usable, pgno))
  {
    Place(usable, pgno);
    var n, q := PerPage(usable) + 1, (pgno - 2) / (PerPage(usable) + 1);
    assert (q * n) % n == 0 && q * n / n == q by { MulMod(q, n); }
  }

  lemma MulMod(q: nat, n: nat)
    requires n > 0
    ensures (q * n) % n == 0 && q * n / n == q
  {
    DivUnique(q * n, n, q, 0);
  }

  // Different pages have different entries, and entries do not overlap.
  lemma SlotsApart(usable: nat, p: nat, q: nat)
    requires p >= 2 && q >= 2 && p != q && !IsMapPage(usable, p) && !IsMapPage(usable, q)
    ensures MapPage(usable, p) != MapPage(usable, q)
         || MapOffset(usable, p) + 5 <= MapOffset(usable, q) || MapOffset(usable, q) + 5 <= MapOffset(usable, p)
  {
    Place(usable, p);
    Place(usable, q);
  }

  // ----- Counting.

  // Pointer-map pages among pages 1..n.
  function MapPages(usable: nat, n: nat): nat {
    if n == 0 then 0 else MapPages(usable, n - 1) + if IsMapPage(usable, n) then 1 else 0
  }

  lemma {:induction false} MapPagesCount(usable: nat, n: nat)
    requires n >= 2
    ensures MapPages(usable, n) == (n - 2) / (PerPage(usable) + 1) + 1
    decreases n
  {
    var k := PerPage(usable) + 1;
    Place(usable, n);
    if n == 2 {
      assert MapPages(usable, 1) == 0;
    } else {
      MapPagesCount(usable, n - 1);
      DivNext(n - 3, k);
    }
  }

  lemma DivNext(a: nat, k: nat)
    requires k > 0
    ensures (a + 1) / k == a / k + if (a + 1) % k == 0 then 1 else 0
  {
    assert a == a / k * k + a % k;
    DivUnique(a + 1, k, if a % k == k - 1 then a / k + 1 else a / k, if a % k == k - 1 then 0 else a % k + 1);
  }

  lemma DivUnique(a: nat, k: nat, q: nat, r: nat)
    requires k > 0 && a == q * k + r && r < k
    ensures a / k == q && a % k == r
  {
    assert a == a / k * k + a % k;
    assert (q - a / k) * k == a % k - r;
    MulLarge(q - a / k, k);
  }

  lemma MulLarge(x: int, k: nat)
    requires k > 0
    ensures x >= 1 ==> x * k >= k
    ensures x <= -1 ==> x * k <= 0 - k
  {
  }

  // ----- The size of the file after auto-vacuum.

  function MapPagesFreed(usable: nat, nFree: nat, origSize: nat): int
    requires origSize >= 2 && PerPage(usable) > 0
  {
    (nFree - origSize + MapPage(usable, origSize) + PerPage(usable)) / PerPage(usable)
  }

  function FinalSize(usable: nat, nFree: nat, origSize: nat): int
    requires origSize >= 2 && PerPage(usable) > 0
  {
    origSize - nFree - MapPagesFreed(usable, nFree, origSize)
  }

  // Exactly nFree of the pages cut off are no pointer-map pages, and the last page kept is none
  // either. At most all pages but the first can be free.
  lemma FinalSizeExact(usable: nat, nFree: nat, origSize: nat)
    requires origSize >= 2 && PerPage(usable) > 0 && !IsMapPage(usable, origSize) && nFree > 0
    requires nFree <= origSize - 1 - MapPages(usable, origSize)
    ensures var fin := FinalSize(usable, nFree, origSize);
      && 1 <= fin < origSize && !IsMapPage(usable, fin)
      && origSize - fin - (MapPages(usable, origSize) - MapPages(usable, fin)) == nFree
  {
    hide MapPage, IsMapPage, MapPages;
    var j, fin := PerPage(usable), FinalSize(usable, nFree, origSize);
    var freed := MapPagesFreed(usable, nFree, origSize);
    var g, r := (origSize - 2) / (j + 1), origSize - MapPage(usable, origSize);
    Place(usable, origSize);
    MapPagesCount(usable, origSize);
    FinalPlace(j, g, r, nFree, freed, fin);
    if fin >= 2 {
      MapPagesCount(usable, fin);
      Place(usable, fin);
    } else {
      FirstPage(usable);
    }
  }

  lemma FirstPage(usable: nat)
    ensures !IsMapPage(usable, 1) && MapPages(usable, 1) == 0
  {
  }

  // fin lies `freed` groups below the group g of the last page, whose place in its group is r.
  lemma FinalPlace(j: nat, g: nat, r: nat, nFree: nat, freed: int, fin: int)
    requires j > 0 && 1 <= r <= j && 0 < nFree <= g * (j + 1) + r - g
    requires freed == (nFree - r + j) / j && fin == g * (j + 1) + 2 + r - nFree - freed
    ensures freed >= 0 && fin >= 1
    ensures if fin >= 2 then (fin - 2) / (j + 1) == g - freed && (fin - 2) % (j + 1) > 0 else freed == g + 1
  {
    var t := (nFree - r + j) % j;
    assert nFree - r + j == freed * j + t;
    FinalGroup(j, g, r, nFree, freed, fin, t);
    if fin >= 2 {
      DivUnique(fin - 2, j + 1, g - freed, j - t);
    }
  }

  lemma FinalGroup(j: nat, g: nat, r: nat, nFree: nat, freed: int, fin: int, t: nat)
    requires j > 0 && 1 <= r <= j && 0 < nFree <= g * (j + 1) + r - g && t < j
    requires nFree - r + j == freed * j + t && fin == g * (j + 1) + 2 + r - nFree - freed
    ensures freed >= 0 && fin >= 1 && (if fin >= 2 then freed <= g else freed == g + 1)
    ensures fin - 2 == (g - freed) * (j + 1) + (j - t)
  {
    var gj, fj := g * j, freed * j;
    assert g * (j + 1) == gj + g;
    assert (g - freed) * (j + 1) == gj + g - fj - freed;
    MulLarge(g - freed, j + 1);
    assert (g + 1 - freed) * j == gj + j - fj;
    MulLarge(g + 1 - freed, j);
    MulLarge(freed, j);
  }
}
