// Space on a b-tree page (src/db_sqlite/btree.c:1125-1300, 4077-4193): header, cell pointer
// array, gap, and a content area tiled by cells, freeblocks and fragments of at most 3 bytes.
module PageSpace {

  import opened Bytes
  import opened Spans

  function Get2(d: seq<Byte>, i: int): (v: nat)
    requires 0 <= i && i + 1 < |d|
    ensures v < 0x1_0000
  {
    256 * (d[i] as int) + d[i + 1]
  }

  function Put2(d: seq<Byte>, i: int, v: int): (r: seq<Byte>)
    requires 0 <= i && i + 1 < |d| && 0 <= v < 0x1_0000
    ensures |r| == |d| && Get2(r, i) == v
    ensures forall j :: 0 <= j < |d| && j != i && j != i + 1 ==> r[j] == d[j]
  {
    d[i := v / 256][i + 1 := v % 256]
  }

  // Where things lie on a page. size: the number of bytes of the cell that starts a byte string
  // (cellSizePtr, src/db_sqlite/btree.c:989-993).
  datatype Geometry = Geometry(hdr: nat, cellOffset: nat, usable: nat, size: seq<Byte> -> nat)

  predicate Fits(g: Geometry) {
    (g.cellOffset == g.hdr + 8 || g.cellOffset == g.hdr + 12) && g.cellOffset + 4 <= g.usable <= 32768
  }

  // A cell has at least 4 bytes, and its size depends on its own bytes only.
  ghost predicate SelfContained(size: seq<Byte> -> nat) {
    && (forall s :: size(s) >= 4)
    && (forall s, t {:trigger size(s), size(t)} :: size(s) <= |s| && size(s) <= |t| && s[..size(s)] == t[..size(s)] ==>
      size(t) == size(s))
  }

  // ----- The freeblock list.

  function StartOf(blocks: seq<Span>, i: nat): nat {
    if i < |blocks| then blocks[i].start else 0
  }

  // The address that holds the offset of block i.
  function Addr(g: Geometry, blocks: seq<Span>, i: nat): nat
    requires i <= |blocks|
  {
    if i == 0 then g.hdr + 1 else blocks[i - 1].start
  }

  ghost predicate Link(g: Geometry, d: seq<Byte>, blocks: seq<Span>, i: nat) {
    i <= |blocks| && Addr(g, blocks, i) + 1 < |d| && Get2(d, Addr(g, blocks, i)) == StartOf(blocks, i)
  }

  ghost predicate Block(d: seq<Byte>, b: Span) {
    b.start + 3 < |d| && Get2(d, b.start + 2) == b.size
  }

  ghost predicate Chain(g: Geometry, d: seq<Byte>, blocks: seq<Span>) {
    && (forall i {:trigger Link(g, d, blocks, i)} :: 0 <= i <= |blocks| ==> Link(g, d, blocks, i))
    && (forall i :: 0 <= i < |blocks| ==> Block(d, blocks[i]))
  }

  // In ascending order, with room for a cell between the first n and their successors.
  ghost predicate Ordered(blocks: seq<Span>, n: nat) {
    forall i, j {:trigger blocks[i], blocks[j]} :: 0 <= i < j < |blocks| ==>
      blocks[i].End() + (if i < n then 4 else 0) <= blocks[j].start
  }

  ghost predicate Cross(xs: seq<Span>, ys: seq<Span>) {
    forall i, j {:trigger xs[i], ys[j]} :: 0 <= i < |xs| && 0 <= j < |ys| ==> Apart(xs[i], ys[j])
  }

  lemma ApartConcat(xs: seq<Span>, ys: seq<Span>, n: nat)
    requires AllApart(xs) && Cross(xs, ys) && Ordered(ys, n)
    ensures AllApart(xs + ys)
  {
  }

  // ----- The content area.

  function Top(g: Geometry, d: seq<Byte>): nat
    requires g.hdr + 6 < |d|
  {
    Get2(d, g.hdr + 5)
  }

  function PtrEnd(g: Geometry, nCell: nat): nat {
    g.cellOffset + 2 * nCell
  }

  // used: spans holding content; n: how many blocks are known to be 4 bytes from the next.
  ghost predicate Placed(used: seq<Span>, blocks: seq<Span>, lo: int, hi: int, n: nat) {
    && AllInside(used, lo, hi) && AllInside(blocks, lo, hi)
    && (forall i :: 0 <= i < |used| ==> used[i].size >= 4)
    && (forall i :: 0 <= i < |blocks| ==> blocks[i].size >= 4)
    && AllApart(used) && Cross(used, blocks) && Ordered(blocks, n)
  }

  ghost predicate Tiled(g: Geometry, d: seq<Byte>, used: seq<Span>, blocks: seq<Span>, n: nat) {
    && Fits(g) && |d| >= g.usable && g.cellOffset <= Top(g, d) <= g.usable
    && Placed(used, blocks, Top(g, d), g.usable, n) && Chain(g, d, blocks)
    && Total(used) + Total(blocks) + d[g.hdr + 7] == g.usable - Top(g, d)
  }

  // The gap starts after the pointer array.
  ghost predicate Spaced(g: Geometry, d: seq<Byte>, nCell: nat, used: seq<Span>, blocks: seq<Span>) {
    Tiled(g, d, used, blocks, |blocks|) && Get2(d, g.hdr + 3) == nCell && PtrEnd(g, nCell) <= Top(g, d)
  }

  ghost function FreeBytes(g: Geometry, d: seq<Byte>, nCell: nat, blocks: seq<Span>): int
    requires g.hdr + 7 < |d|
  {
    Top(g, d) - PtrEnd(g, nCell) + Total(blocks) + d[g.hdr + 7]
  }

  // Every byte outside header and pointer array is used or free.
  lemma FreeAndUsed(g: Geometry, d: seq<Byte>, nCell: nat, used: seq<Span>, blocks: seq<Span>)
    requires Spaced(g, d, nCell, used, blocks)
    ensures PtrEnd(g, nCell) + Total(used) + FreeBytes(g, d, nCell, blocks) == g.usable
  {
  }

  // The checker's reading (src/db_sqlite/btree.c:6213-6258): no byte has two uses, and the bytes
  // of the content area without a use are as many as the fragment counter says.
  lemma FragmentsCounted(g: Geometry, d: seq<Byte>, used: seq<Span>, blocks: seq<Span>, n: nat)
    requires Tiled(g, d, used, blocks, n)
    ensures AllApart(used + blocks) && |Range(Top(g, d), g.usable) - BytesOf(used + blocks)| == d[g.hdr + 7]
  {
    TotalConcat(used, blocks);
    ApartConcat(used, blocks, n);
    InsideConcat(used, blocks, Top(g, d), g.usable);
    Uncovered(used + blocks, Top(g, d), g.usable);
  }

  lemma InsideConcat(a: seq<Span>, b: seq<Span>, lo: int, hi: int)
    requires AllInside(a, lo, hi) && AllInside(b, lo, hi)
    ensures AllInside(a + b, lo, hi)
  {
  }

  // Another span apart from everything fits among the fragments.
  lemma GapCounted(g: Geometry, d: seq<Byte>, used: seq<Span>, blocks: seq<Span>, n: nat, gap: Span)
    requires Tiled(g, d, used, blocks, n)
    requires Inside(gap, Top(g, d), g.usable) && ApartFrom(used, gap) && ApartFrom(blocks, gap)
    ensures gap.size <= d[g.hdr + 7]
  {
    var xs := used + blocks;
    TotalConcat(used, blocks);
    ApartConcat(used, blocks, n);
    InsideConcat(used, blocks, Top(g, d), g.usable);
    TotalPush(xs, gap);
    assert ApartFrom(xs, gap);
    Uncovered(xs + [gap], Top(g, d), g.usable);
  }

  // ----- Spans come and go.

  lemma PlacedTake(used: seq<Span>, blocks: seq<Span>, lo: int, hi: int, n: nat, i: nat, a: Span)
    requires Placed(used, blocks, lo, hi, n) && i < |blocks| && n == |blocks|
    requires Inside(a, blocks[i].start, blocks[i].End()) && a.size >= 4
    ensures Placed(used + [a], Without(blocks, i), lo, hi, n - 1)
  {
    var bs, us := Without(blocks, i), used + [a];
    forall j | 0 <= j < |bs| ensures bs[j] == blocks[if j < i then j else j + 1] {}
  }

  lemma PlacedShrink(used: seq<Span>, blocks: seq<Span>, lo: int, hi: int, n: nat, i: nat, size: nat)
    requires Placed(used, blocks, lo, hi, n) && i < |blocks| && 4 <= size && size + 4 <= blocks[i].size
    ensures var b := blocks[i];
      Placed(used + [Span(b.start + size, b.size - size)], blocks[i := Span(b.start, size)], lo, hi, n)
  {
  }

  lemma PlacedBelow(used: seq<Span>, blocks: seq<Span>, lo: int, hi: int, n: nat, nByte: nat)
    requires Placed(used, blocks, lo, hi, n) && 4 <= nByte <= lo <= hi
    ensures Placed(used + [Span(lo - nByte, nByte)], blocks, lo - nByte, hi, n)
  {
  }

  // The places where offsets of freeblocks are kept do not overlap.
  ghost predicate Headers(g: Geometry, blocks: seq<Span>) {
    && (forall i :: 0 <= i < |blocks| ==> g.hdr + 8 <= blocks[i].start)
    && (forall i, j {:trigger blocks[i], blocks[j]} :: 0 <= i < j < |blocks| ==> blocks[i].start + 4 <= blocks[j].start)
  }

  lemma ChainFrame(g: Geometry, d: seq<Byte>, d': seq<Byte>, blocks: seq<Span>)
    requires Chain(g, d, blocks) && Headers(g, blocks) && |d'| == |d| > g.hdr + 2
    requires d'[g.hdr + 1] == d[g.hdr + 1] && d'[g.hdr + 2] == d[g.hdr + 2]
    requires forall i, k {:trigger blocks[i], d'[k]} ::
      0 <= i < |blocks| && blocks[i].start <= k < blocks[i].start + 4 && k < |d| ==> d'[k] == d[k]
    ensures Chain(g, d', blocks)
  {
    forall i | 0 <= i <= |blocks| ensures Link(g, d', blocks, i) { assert Link(g, d, blocks, i); }
  }

  lemma HeadersPlaced(g: Geometry, used: seq<Span>, blocks: seq<Span>, lo: int, hi: int, n: nat, i: nat)
    requires Placed(used, blocks, lo, hi, n) && g.hdr + 8 <= lo <= hi && i <= |blocks|
    ensures Headers(g, blocks)
    ensures i < |blocks| ==> blocks[i].size >= 4 && Inside(blocks[i], lo, hi)
    ensures StartOf(blocks, i) <= hi && StartOf(blocks, i + 1) <= hi && Addr(g, blocks, i) < hi - 1 &&
      (i == 0 || Addr(g, blocks, i) >= lo)
  {
  }

  ghost predicate LinkedOut(g: Geometry, d: seq<Byte>, d': seq<Byte>, blocks: seq<Span>, i: nat) {
    && i < |blocks| && |d'| == |d| && Addr(g, blocks, i) + 1 < |d'| &&
      Get2(d', Addr(g, blocks, i)) == StartOf(blocks, i + 1)
    && forall k :: 0 <= k < |d| && k != Addr(g, blocks, i) && k != Addr(g, blocks, i) + 1 && k != g.hdr + 7 ==>
      d'[k] == d[k]
  }

  lemma WithoutAt(xs: seq<Span>, k: nat, j: nat)
    requires k < |xs| && j < |xs| - 1
    ensures Without(xs, k)[j] == xs[if j < k then j else j + 1]
  {
  }

  lemma LinkedOutAt(g: Geometry, d: seq<Byte>, d': seq<Byte>, blocks: seq<Span>, i: nat, f: Byte)
    requires i < |blocks| && Addr(g, blocks, i) + 1 < |d| && StartOf(blocks, i + 1) < 0x1_0000 && g.hdr + 7 < |d|
    requires Addr(g, blocks, i) == g.hdr + 1 || Addr(g, blocks, i) >= g.hdr + 8
    requires d' == Put2(d, Addr(g, blocks, i), StartOf(blocks, i + 1))[g.hdr + 7 := f]
    ensures LinkedOut(g, d, d', blocks, i)
  {
  }

  lemma LinkWithout(g: Geometry, d: seq<Byte>, d': seq<Byte>, blocks: seq<Span>, i: nat, j: nat)
    requires LinkedOut(g, d, d', blocks, i) && Headers(g, blocks) && j <= |blocks| - 1
    requires Link(g, d, blocks, if j <= i then j else j + 1)
    ensures Link(g, d', Without(blocks, i), j)
  {
    hide Without;
    if j > 0 { WithoutAt(blocks, i, j - 1); }
    if j < |blocks| - 1 { WithoutAt(blocks, i, j); }
  }

  lemma BlockWithout(g: Geometry, d: seq<Byte>, d': seq<Byte>, blocks: seq<Span>, i: nat, j: nat)
    requires LinkedOut(g, d, d', blocks, i) && Headers(g, blocks) && j < |blocks| - 1
    requires Block(d, blocks[if j < i then j else j + 1])
    ensures Block(d', Without(blocks, i)[j])
  {
    hide Without;
    WithoutAt(blocks, i, j);
  }

  lemma ChainWithout(g: Geometry, d: seq<Byte>, d': seq<Byte>, blocks: seq<Span>, i: nat)
    requires Chain(g, d, blocks) && Headers(g, blocks) && i < |blocks| && LinkedOut(g, d, d', blocks, i)
    ensures Chain(g, d', Without(blocks, i))
  {
    hide Headers, LinkedOut, Link, Block, Without;
    var bs := Without(blocks, i);
    forall j | 0 <= j <= |bs| ensures Link(g, d', bs, j) {
      assert Link(g, d, blocks, if j <= i then j else j + 1);
      LinkWithout(g, d, d', blocks, i, j);
    }
    forall j | 0 <= j < |bs| ensures Block(d', bs[j]) {
      assert Block(d, blocks[if j < i then j else j + 1]);
      BlockWithout(g, d, d', blocks, i, j);
    }
  }

  lemma ChainResized(g: Geometry, d: seq<Byte>, blocks: seq<Span>, i: nat, size: nat)
    requires Chain(g, d, blocks) && Headers(g, blocks) && i < |blocks| && blocks[i].start + 3 < |d| && size < 0x1_0000
    ensures Chain(g, Put2(d, blocks[i].start + 2, size), blocks[i := Span(blocks[i].start, size)])
  {
    var d', bs := Put2(d, blocks[i].start + 2, size), blocks[i := Span(blocks[i].start, size)];
    assert Link(g, d, blocks, 0);
    forall j | 0 <= j <= |bs| ensures Link(g, d', bs, j) {
      assert Link(g, d, blocks, j);
    }
  }

  // ----- Allocation: three ways to find room.

  // A freeblock that fits, with at most 3 bytes left over as a fragment.
  lemma TookWhole(g: Geometry, d: seq<Byte>, d': seq<Byte>, nCell: nat, used: seq<Span>, blocks: seq<Span>, i: nat,
      nByte: nat)
    requires Spaced(g, d, nCell, used, blocks) && i < |blocks| && Addr(g, blocks, i) + 1 < |d|
    requires 4 <= nByte <= blocks[i].size < nByte + 4 && d[g.hdr + 7] < 60 && StartOf(blocks, i + 1) < 0x1_0000
    requires d' == Put2(d, Addr(g, blocks, i),
      StartOf(blocks, i + 1))[g.hdr + 7 := d[g.hdr + 7] + blocks[i].size - nByte]
    ensures Spaced(g, d', nCell, used + [Span(blocks[i].start, nByte)], Without(blocks, i))
    ensures FreeBytes(g, d', nCell, Without(blocks, i)) == FreeBytes(g, d, nCell, blocks) - nByte
  {
    hide Placed, Chain, Headers;
    var b := blocks[i];
    HeadersPlaced(g, used, blocks, Top(g, d), g.usable, |blocks|, i);
    TotalWithout(blocks, i);
    TotalPush(used, Span(b.start, nByte));
    PlacedTake(used, blocks, Top(g, d), g.usable, |blocks|, i, Span(b.start, nByte));
    LinkedOutAt(g, d, d', blocks, i, d'[g.hdr + 7]);
    ChainWithout(g, d, d', blocks, i);
  }

  // The end of a freeblock that is larger.
  lemma TookTail(g: Geometry, d: seq<Byte>, d': seq<Byte>, nCell: nat, used: seq<Span>, blocks: seq<Span>, i: nat,
      nByte: nat)
    requires Spaced(g, d, nCell, used, blocks) && i < |blocks| && blocks[i].start + 3 < |d|
    requires 4 <= nByte && nByte + 4 <= blocks[i].size < 0x1_0000
    requires d' == Put2(d, blocks[i].start + 2, blocks[i].size - nByte)
    ensures var b := blocks[i];
      var bs := blocks[i := Span(b.start, b.size - nByte)];
      && Spaced(g, d', nCell, used + [Span(b.start + b.size - nByte, nByte)], bs)
      && FreeBytes(g, d', nCell, bs) == FreeBytes(g, d, nCell, blocks) - nByte
  {
    hide Placed, Chain, Headers;
    var b := blocks[i];
    HeadersPlaced(g, used, blocks, Top(g, d), g.usable, |blocks|, i);
    TotalUpdate(blocks, i, Span(b.start, b.size - nByte));
    TotalPush(used, Span(b.start + b.size - nByte, nByte));
    PlacedShrink(used, blocks, Top(g, d), g.usable, |blocks|, i, b.size - nByte);
    ChainResized(g, d, blocks, i, b.size - nByte);
  }

  // The end of the gap.
  lemma TookGap(g: Geometry, d: seq<Byte>, d': seq<Byte>, nCell: nat, used: seq<Span>, blocks: seq<Span>, nByte: nat)
    requires Spaced(g, d, nCell, used, blocks) && 4 <= nByte && PtrEnd(g, nCell) + nByte <= Top(g, d)
    requires d' == Put2(d, g.hdr + 5, Top(g, d) - nByte)
    ensures Spaced(g, d', nCell, used + [Span(Top(g, d) - nByte, nByte)], blocks)
    ensures FreeBytes(g, d', nCell, blocks) == FreeBytes(g, d, nCell, blocks) - nByte
  {
    hide Placed, Chain, Headers;
    TotalPush(used, Span(Top(g, d) - nByte, nByte));
    HeadersPlaced(g, used, blocks, Top(g, d), g.usable, |blocks|, 0);
    PlacedBelow(used, blocks, Top(g, d), g.usable, |blocks|, nByte);
    AboveHeader(g, blocks, d');
    ChainFrame(g, d, d', blocks);
  }

  // ----- Freeing: insert a block, merge with neighbours closer than 4 bytes, lower the gap's end.

  lemma WithAt(blocks: seq<Span>, i: nat, a: Span, j: nat)
    requires i <= |blocks| && j <= |blocks|
    ensures With(blocks, i, a)[j] == if j < i then blocks[j] else if j == i then a else blocks[j - 1]
  {
  }

  // Where element j of With(blocks, i, a) comes from.
  function Old(i: nat, j: nat): nat
    requires j != i
  {
    if j < i then j else j - 1
  }

  lemma FreedApart(used: seq<Span>, blocks: seq<Span>, k: nat, i: nat, x: nat, y: nat)
    requires AllApart(used) && Cross(used, blocks) && k < |used| && i <= |blocks| && x < |used| - 1 && y <= |blocks|
    ensures Apart(Without(used, k)[x], With(blocks, i, used[k])[y])
  {
    hide Without, With, Apart;
    WithoutAt(used, k, x);
    WithAt(blocks, i, used[k], y);
    if y == i {
      ApartBoth(used, if x < k then x else x + 1, k);
    } else {
      assert Apart(used[if x < k then x else x + 1], blocks[Old(i, y)]);
    }
  }

  lemma ApartBoth(xs: seq<Span>, i: nat, j: nat)
    requires AllApart(xs) && i < |xs| && j < |xs| && i != j
    ensures Apart(xs[i], xs[j])
  {
    assert if i < j then Apart(xs[i], xs[j]) else Apart(xs[j], xs[i]);
  }

  lemma FreedOrdered(blocks: seq<Span>, n: nat, i: nat, a: Span, x: nat, y: nat)
    requires Ordered(blocks, n) && i <= |blocks| && x < y <= |blocks|
    requires forall j :: 0 <= j < |blocks| ==>
      blocks[j].size >= 4 && Apart(a, blocks[j]) && (blocks[j].start < a.start <==> j < i)
    ensures With(blocks, i, a)[x].End() <= With(blocks, i, a)[y].start
  {
    hide With;
    WithAt(blocks, i, a, x);
    WithAt(blocks, i, a, y);
    if x == i {
      assert Apart(a, blocks[Old(i, y)]);
    } else if y == i {
      assert Apart(a, blocks[Old(i, x)]);
    } else {
      assert blocks[Old(i, x)].End() <= blocks[Old(i, y)].start;
    }
  }

  lemma PlacedFreed(used: seq<Span>, blocks: seq<Span>, lo: int, hi: int, n: nat, k: nat, i: nat)
    requires Placed(used, blocks, lo, hi, n) && k < |used| && i <= |blocks|
    requires forall j :: 0 <= j < |blocks| ==> (blocks[j].start < used[k].start <==> j < i)
    ensures Placed(Without(used, k), With(blocks, i, used[k]), lo, hi, 0)
  {
    hide Without, With, Apart, Inside;
    var us, bs := Without(used, k), With(blocks, i, used[k]);
    PlacedWithout(used, lo, hi, k);
    PlacedWith(blocks, lo, hi, i, used[k]);
    forall x, y {:trigger us[x], bs[y]} | 0 <= x < |us| && 0 <= y < |bs| ensures Apart(us[x], bs[y]) {
      FreedApart(used, blocks, k, i, x, y);
    }
    assert forall j :: 0 <= j < |blocks| ==> Apart(used[k], blocks[j]);
    forall x, y {:trigger bs[x], bs[y]} | 0 <= x < y < |bs| ensures bs[x].End() <= bs[y].start {
      FreedOrdered(blocks, n, i, used[k], x, y);
    }
  }

  lemma PlacedWithout(used: seq<Span>, lo: int, hi: int, k: nat)
    requires AllInside(used, lo, hi) && AllApart(used) && (forall i :: 0 <= i < |used| ==> used[i].size >= 4) &&
      k < |used|
    ensures var us := Without(used, k); AllInside(us, lo, hi) && AllApart(us) && forall i :: 0 <= i < |us| ==>
      us[i].size >= 4
  {
    hide Without, Apart, Inside;
    var us := Without(used, k);
    forall j | 0 <= j < |us| ensures Inside(us[j], lo, hi) && us[j].size >= 4 { WithoutAt(used, k, j); }
    forall x, y {:trigger us[x], us[y]} | 0 <= x < y < |us| ensures Apart(us[x], us[y]) {
      WithoutAt(used, k, x);
      WithoutAt(used, k, y);
      ApartBoth(used, if x < k then x else x + 1, if y < k then y else y + 1);
    }
  }

  lemma PlacedWith(blocks: seq<Span>, lo: int, hi: int, i: nat, a: Span)
    requires AllInside(blocks, lo, hi) && (forall j :: 0 <= j < |blocks| ==> blocks[j].size >= 4)
    requires Inside(a, lo, hi) && a.size >= 4 && i <= |blocks|
    ensures var bs := With(blocks, i, a); AllInside(bs, lo, hi) && forall j :: 0 <= j < |bs| ==> bs[j].size >= 4
  {
    hide With, Inside;
    var bs := With(blocks, i, a);
    forall j | 0 <= j < |bs| ensures Inside(bs[j], lo, hi) && bs[j].size >= 4 {
      WithAt(blocks, i, a, j);
      assert j != i ==> Inside(blocks[Old(i, j)], lo, hi);
    }
  }

  function Fused(blocks: seq<Span>, j: nat, m: Span): (r: seq<Span>)
    requires j + 1 < |blocks|
    ensures |r| == |blocks| - 1
  {
    Without(blocks, j + 1)[j := m]
  }

  lemma FusedAt(blocks: seq<Span>, j: nat, m: Span, i: nat)
    requires j + 1 < |blocks| && i < |blocks| - 1
    ensures Fused(blocks, j, m)[i] == if i < j then blocks[i] else if i == j then m else blocks[i + 1]
  {
  }

  lemma {:induction false} TotalFused(blocks: seq<Span>, j: nat, m: Span)
    requires j + 1 < |blocks|
    ensures Total(Fused(blocks, j, m)) == Total(blocks) - blocks[j].size - blocks[j + 1].size + m.size
  {
    TotalWithout(blocks, j + 1);
    TotalUpdate(Without(blocks, j + 1), j, m);
  }

  lemma PlacedMerged(used: seq<Span>, blocks: seq<Span>, lo: int, hi: int, j: nat)
    requires Placed(used, blocks, lo, hi, j) && j + 1 < |blocks| && blocks[j].End() + 3 >= blocks[j + 1].start
    ensures var m := Span(blocks[j].start, blocks[j + 1].End() - blocks[j].start);
      && blocks[j].End() <= blocks[j + 1].start && Placed(used, Fused(blocks, j, m), lo, hi, j)
    ensures var gap := Span(blocks[j].End(), blocks[j + 1].start - blocks[j].End());
      Inside(gap, lo, hi) && ApartFrom(used, gap) && ApartFrom(blocks, gap)
  {
    var m := Span(blocks[j].start, blocks[j + 1].End() - blocks[j].start);
    var bs := Fused(blocks, j, m);
    forall i | 0 <= i < |bs|
      ensures bs[i] == if i < j then blocks[i] else if i == j then m else blocks[i + 1] { FusedAt(blocks, j, m, i); }
    forall i | 0 <= i < |used| ensures Apart(used[i], m) {
      assert Apart(used[i], blocks[j]) && Apart(used[i], blocks[j + 1]);
    }
  }

  lemma PlacedRaised(used: seq<Span>, blocks: seq<Span>, lo: int, hi: int, n: nat)
    requires Placed(used, blocks, lo, hi, n) && n == |blocks| > 0 && blocks[0].start == lo
    ensures Placed(used, Without(blocks, 0), blocks[0].End(), hi, n - 1)
  {
    var bs := Without(blocks, 0);
    forall i | 0 <= i < |bs| ensures bs[i] == blocks[i + 1] {}
  }

  // The new block, linked in where the search stopped.
  ghost predicate LinkedIn(g: Geometry, d: seq<Byte>, d': seq<Byte>, blocks: seq<Span>, i: nat, a: Span) {
    && i <= |blocks| && |d'| == |d| && a.start + 3 < |d| && Addr(g, blocks, i) + 1 < |d|
    && Get2(d', Addr(g, blocks, i)) == a.start && Get2(d', a.start) == StartOf(blocks, i) &&
      Get2(d', a.start + 2) == a.size
    && forall k ::
      0 <= k < |d| && k != Addr(g, blocks, i) && k != Addr(g, blocks, i) + 1 && !(a.start <= k < a.start + 4) ==>
      d'[k] == d[k]
  }

  lemma LinkWith(g: Geometry, d: seq<Byte>, d': seq<Byte>, blocks: seq<Span>, i: nat, a: Span, j: nat)
    requires LinkedIn(g, d, d', blocks, i, a) && Headers(g, With(blocks, i, a)) && j <= |blocks| + 1
    requires Link(g, d, blocks, if j <= i then j else j - 1)
    ensures Link(g, d', With(blocks, i, a), j)
  {
    if i > 0 { WithAt(blocks, i, a, i - 1); }
    if j > 0 { WithAt(blocks, i, a, j - 1); }
    if j <= |blocks| { WithAt(blocks, i, a, j); }
    WithAt(blocks, i, a, i);
  }

  lemma BlockWith(g: Geometry, d: seq<Byte>, d': seq<Byte>, blocks: seq<Span>, i: nat, a: Span, j: nat)
    requires LinkedIn(g, d, d', blocks, i, a) && Headers(g, With(blocks, i, a)) && j <= |blocks|
    requires j != i ==> Block(d, blocks[if j < i then j else j - 1])
    ensures Block(d', With(blocks, i, a)[j])
  {
    if i > 0 { WithAt(blocks, i, a, i - 1); }
    WithAt(blocks, i, a, j);
    WithAt(blocks, i, a, i);
  }

  lemma ChainWith(g: Geometry, d: seq<Byte>, d': seq<Byte>, blocks: seq<Span>, i: nat, a: Span)
    requires Chain(g, d, blocks) && i <= |blocks| && Headers(g, With(blocks, i, a)) && LinkedIn(g, d, d', blocks, i, a)
    ensures Chain(g, d', With(blocks, i, a))
  {
    hide Headers, LinkedIn, Link, Block, With;
    var bs := With(blocks, i, a);
    forall j | 0 <= j <= |bs| ensures Link(g, d', bs, j) {
      assert Link(g, d, blocks, if j <= i then j else j - 1);
      LinkWith(g, d, d', blocks, i, a, j);
    }
    forall j | 0 <= j < |bs| ensures Block(d', bs[j]) {
      assert j != i ==> Block(d, blocks[if j < i then j else j - 1]);
      BlockWith(g, d, d', blocks, i, a, j);
    }
  }

  lemma Freed(g: Geometry, d: seq<Byte>, d': seq<Byte>, nCell: nat, used: seq<Span>, blocks: seq<Span>, k: nat, i: nat)
    requires Spaced(g, d, nCell, used, blocks) && k < |used| && i <= |blocks|
    requires forall j :: 0 <= j < |blocks| ==> (blocks[j].start < used[k].start <==> j < i)
    requires LinkedIn(g, d, d', blocks, i, used[k])
    ensures Tiled(g, d', Without(used, k), With(blocks, i, used[k]), 0)
    ensures Top(g, d') == Top(g, d) && Get2(d', g.hdr + 3) == nCell
    ensures FreeBytes(g, d', nCell, With(blocks, i, used[k])) == FreeBytes(g, d, nCell, blocks) + used[k].size
  {
    hide Placed, Chain, Headers, With, Without;
    var a := used[k];
    HeadersPlaced(g, used, blocks, Top(g, d), g.usable, |blocks|, i);
    PlacedFreed(used, blocks, Top(g, d), g.usable, |blocks|, k, i);
    WithAt(blocks, i, a, i);
    HeadersPlaced(g, Without(used, k), With(blocks, i, a), Top(g, d), g.usable, 0, i);
    TotalWithout(used, k);
    TotalWith(blocks, i, a);
    ChainWith(g, d, d', blocks, i, a);
  }

  ghost predicate Joined(g: Geometry, d: seq<Byte>, d': seq<Byte>, blocks: seq<Span>, j: nat, m: Span) {
    && j + 1 < |blocks| && |d'| == |d| && m.start == blocks[j].start && m.start + 3 < |d|
    && Get2(d', m.start) == StartOf(blocks, j + 2) && Get2(d', m.start + 2) == m.size
    && forall k :: 0 <= k < |d| && k != g.hdr + 7 && !(m.start <= k < m.start + 4) ==> d'[k] == d[k]
  }

  lemma LinkFused(g: Geometry, d: seq<Byte>, d': seq<Byte>, blocks: seq<Span>, j: nat, m: Span, i: nat)
    requires Joined(g, d, d', blocks, j, m) && Headers(g, blocks) && i <= |blocks| - 1
    requires Link(g, d, blocks, if i <= j then i else i + 1)
    ensures Link(g, d', Fused(blocks, j, m), i)
  {
    hide Fused;
    if i > 0 { FusedAt(blocks, j, m, i - 1); }
    if i < |blocks| - 1 { FusedAt(blocks, j, m, i); }
  }

  lemma BlockFused(g: Geometry, d: seq<Byte>, d': seq<Byte>, blocks: seq<Span>, j: nat, m: Span, i: nat)
    requires Joined(g, d, d', blocks, j, m) && Headers(g, blocks) && i < |blocks| - 1
    requires i != j ==> Block(d, blocks[if i < j then i else i + 1])
    ensures Block(d', Fused(blocks, j, m)[i])
  {
    hide Fused;
    FusedAt(blocks, j, m, i);
  }

  lemma ChainFused(g: Geometry, d: seq<Byte>, d': seq<Byte>, blocks: seq<Span>, j: nat, m: Span)
    requires Chain(g, d, blocks) && Headers(g, blocks) && j + 1 < |blocks| && Joined(g, d, d', blocks, j, m)
    ensures Chain(g, d', Fused(blocks, j, m))
  {
    hide Headers, Joined, Link, Block, Fused;
    var bs := Fused(blocks, j, m);
    forall i | 0 <= i <= |bs| ensures Link(g, d', bs, i) {
      assert Link(g, d, blocks, if i <= j then i else i + 1);
      LinkFused(g, d, d', blocks, j, m, i);
    }
    forall i | 0 <= i < |bs| ensures Block(d', bs[i]) {
      assert i != j ==> Block(d, blocks[if i < j then i else i + 1]);
      BlockFused(g, d, d', blocks, j, m, i);
    }
  }

  // The gap between the two was counted as fragments, so the counter does not go below zero.
  lemma MergeCounted(g: Geometry, d: seq<Byte>, used: seq<Span>, blocks: seq<Span>, j: nat)
    requires Tiled(g, d, used, blocks, j) && j + 1 < |blocks| && blocks[j].End() + 3 >= blocks[j + 1].start
    ensures 0 <= blocks[j + 1].start - blocks[j].End() <= d[g.hdr + 7]
    ensures blocks[j].start + 4 <= blocks[j + 1].start && blocks[j + 1].End() <= g.usable &&
      StartOf(blocks, j + 2) <= g.usable
  {
    hide Chain;
    PlacedMerged(used, blocks, Top(g, d), g.usable, j);
    GapCounted(g, d, used, blocks, j, Span(blocks[j].End(), blocks[j + 1].start - blocks[j].End()));
  }

  lemma Merged(g: Geometry, d: seq<Byte>, d': seq<Byte>, nCell: nat, used: seq<Span>, blocks: seq<Span>, j: nat,
      m: Span)
    requires Tiled(g, d, used, blocks, j) && j + 1 < |blocks| && blocks[j].End() + 3 >= blocks[j + 1].start
    requires blocks[j].start < blocks[j + 1].End() && m == Span(blocks[j].start, blocks[j + 1].End() - blocks[j].start)
    requires Joined(g, d, d', blocks, j, m) && d'[g.hdr + 7] == d[g.hdr + 7] - (blocks[j + 1].start - blocks[j].End())
    ensures Tiled(g, d', used, Fused(blocks, j, m), j) && Top(g, d') == Top(g, d) &&
      Get2(d', g.hdr + 3) == Get2(d, g.hdr + 3)
    ensures FreeBytes(g, d', nCell, Fused(blocks, j, m)) == FreeBytes(g, d, nCell, blocks)
  {
    hide Placed, Chain, Headers, Fused, Total;
    HeadersPlaced(g, used, blocks, Top(g, d), g.usable, j, j);
    PlacedMerged(used, blocks, Top(g, d), g.usable, j);
    TotalFused(blocks, j, m);
    ChainFused(g, d, d', blocks, j, m);
  }

  lemma FarEnough(g: Geometry, d: seq<Byte>, used: seq<Span>, blocks: seq<Span>, j: nat)
    requires Tiled(g, d, used, blocks, j) && j < |blocks|
    requires j + 1 < |blocks| ==> blocks[j].End() + 3 < blocks[j + 1].start
    ensures Tiled(g, d, used, blocks, j + 1)
  {
    hide Chain;
  }

  // A block at the start of the content area joins the gap.
  lemma Raised(g: Geometry, d: seq<Byte>, d1: seq<Byte>, d': seq<Byte>, nCell: nat, used: seq<Span>, blocks: seq<Span>)
    requires Spaced(g, d, nCell, used, blocks) && blocks != [] && blocks[0].start == Top(g, d)
    requires blocks[0].End() < 0x1_0000 && StartOf(blocks, 1) < 0x1_0000
    requires d1 == Put2(d, g.hdr + 1, StartOf(blocks, 1)) && d' == Put2(d1, g.hdr + 5, blocks[0].End())
    ensures Spaced(g, d', nCell, used, Without(blocks, 0))
    ensures FreeBytes(g, d', nCell, Without(blocks, 0)) == FreeBytes(g, d, nCell, blocks)
  {
    hide Placed, Chain, Headers, Put2, Get2, Without;
    HeadersPlaced(g, used, blocks, Top(g, d), g.usable, |blocks|, 0);
    PlacedRaised(used, blocks, Top(g, d), g.usable, |blocks|);
    TotalWithout(blocks, 0);
    RaisedChain(g, d, d1, d', used, blocks);
    SameGet2(d, d1, g.hdr + 3);
    SameGet2(d1, d', g.hdr + 3);
  }

  lemma RaisedChain(g: Geometry, d: seq<Byte>, d1: seq<Byte>, d': seq<Byte>, used: seq<Span>, blocks: seq<Span>)
    requires Tiled(g, d, used, blocks, |blocks|) && blocks != [] && blocks[0].start == Top(g, d)
    requires blocks[0].End() < 0x1_0000 && StartOf(blocks, 1) < 0x1_0000
    requires d1 == Put2(d, g.hdr + 1, StartOf(blocks, 1)) && d' == Put2(d1, g.hdr + 5, blocks[0].End())
    ensures Chain(g, d', Without(blocks, 0))
  {
    hide Placed, Chain, Headers, Put2, Get2, Without;
    var bs := Without(blocks, 0);
    HeadersPlaced(g, used, blocks, Top(g, d), g.usable, |blocks|, 0);
    PlacedRaised(used, blocks, Top(g, d), g.usable, |blocks|);
    LinkedOutAt(g, d, d1, blocks, 0, d1[g.hdr + 7]);
    ChainWithout(g, d, d1, blocks, 0);
    HeadersPlaced(g, used, bs, blocks[0].End(), g.usable, |blocks| - 1, 0);
    AboveHeader(g, bs, d');
    ChainFrame(g, d1, d', bs);
  }

  lemma SameGet2(d: seq<Byte>, d': seq<Byte>, i: int)
    requires 0 <= i && i + 1 < |d| == |d'| && d'[i] == d[i] && d'[i + 1] == d[i + 1]
    ensures Get2(d', i) == Get2(d, i)
  {
  }

  lemma AboveHeader(g: Geometry, blocks: seq<Span>, d: seq<Byte>)
    requires Headers(g, blocks)
    ensures forall i, k {:trigger blocks[i], d[k]} ::
      0 <= i < |blocks| && blocks[i].start <= k < blocks[i].start + 4 ==> k >= g.hdr + 8
  {
  }

  // ----- What a change leaves alone.

  // The pointer array and the bytes of the given spans are as before.
  ghost predicate Spares(g: Geometry, d: seq<Byte>, d': seq<Byte>, used: seq<Span>, nCell: nat) {
    && |d'| == |d| && PtrEnd(g, nCell) <= |d|
    && (forall k :: g.cellOffset <= k < PtrEnd(g, nCell) ==> d'[k] == d[k])
    && (forall i, k {:trigger used[i], d'[k]} :: 0 <= i < |used| && used[i].start <= k < used[i].End() && k < |d| ==>
      d'[k] == d[k])
  }

  // A write to the header or to the start of a freeblock.
  lemma SparesBlock(g: Geometry, d: seq<Byte>, d': seq<Byte>, nCell: nat, used: seq<Span>, blocks: seq<Span>,
      n: nat, i: nat)
    requires Tiled(g, d, used, blocks, n) && PtrEnd(g, nCell) <= Top(g, d) && |d'| == |d|
    requires forall k ::
      0 <= k < |d| && !(g.hdr < k < g.hdr + 8) && !(i < |blocks| && blocks[i].start <= k < blocks[i].start + 4) ==>
      d'[k] == d[k]
    ensures Spares(g, d, d', used, nCell)
  {
    forall j, k {:trigger used[j], d'[k]} | 0 <= j < |used| && used[j].start <= k < used[j].End() && k < |d|
      ensures d'[k] == d[k] {
      assert i < |blocks| ==> Apart(used[j], blocks[i]);
    }
  }

  lemma SparesTrans(g: Geometry, d: seq<Byte>, d1: seq<Byte>, d2: seq<Byte>, used: seq<Span>, nCell: nat)
    requires Spares(g, d, d1, used, nCell) && Spares(g, d1, d2, used, nCell)
    ensures Spares(g, d, d2, used, nCell)
  {
  }

  // The pointer array names the cells, and each cell's size is what its bytes say.
  ghost predicate Pointers(g: Geometry, d: seq<Byte>, cells: seq<Span>) {
    && g.usable <= |d| && PtrEnd(g, |cells|) <= |d|
    && forall i {:trigger cells[i]} :: 0 <= i < |cells| ==>
      && Get2(d, g.cellOffset + 2 * i) == cells[i].start && cells[i].End() <= g.usable
      && g.size(d[cells[i].start..g.usable]) == cells[i].size
  }

  function Content(d: seq<Byte>, c: Span): (r: seq<Byte>)
    ensures c.End() <= |d| ==> |r| == c.size
  {
    if c.End() <= |d| then d[c.start..c.End()] else []
  }

  function Contents(d: seq<Byte>, cells: seq<Span>): (r: seq<seq<Byte>>)
    ensures |r| == |cells| && forall i :: 0 <= i < |r| ==> r[i] == Content(d, cells[i])
  {
    seq(|cells|, i requires 0 <= i < |cells| => Content(d, cells[i]))
  }

  // The size of a cell depends on its own bytes only, wherever it lies.
  lemma SizeKept(g: Geometry, d: seq<Byte>, d': seq<Byte>, c: Span, c': Span)
    requires SelfContained(g.size) && c.End() <= g.usable <= |d| && c'.End() <= g.usable <= |d'|
    requires Content(d, c) == Content(d', c') && c.size == c'.size && g.size(d[c.start..g.usable]) == c.size
    ensures g.size(d'[c'.start..g.usable]) == c.size
  {
    var s, t := d[c.start..g.usable], d'[c'.start..g.usable];
    assert s[..c.size] == Content(d, c) && t[..c.size] == Content(d', c');
  }

  lemma PointersKept(g: Geometry, d: seq<Byte>, d': seq<Byte>, cells: seq<Span>)
    requires SelfContained(g.size) && Pointers(g, d, cells) && Spares(g, d, d', cells, |cells|)
    ensures Pointers(g, d', cells) && Contents(d', cells) == Contents(d, cells)
  {
    forall i {:trigger cells[i]} | 0 <= i < |cells|
      ensures Get2(d', g.cellOffset + 2 * i) == Get2(d, g.cellOffset + 2 * i) &&
        Content(d', cells[i]) == Content(d, cells[i])
      ensures g.size(d'[cells[i].start..g.usable]) == cells[i].size
    {
      assert cells[i].End() <= g.usable;
      SizeKept(g, d, d', cells[i], cells[i]);
    }
  }

  // ----- Defragmenting: cells are copied, in pointer order, from the end of the page downwards.

  lemma {:induction false} TotalPrefix(xs: seq<Span>, i: nat)
    requires i <= |xs|
    ensures Total(xs[..i]) <= Total(xs)
    ensures i < |xs| ==> Total(xs[..i + 1]) == Total(xs[..i]) + xs[i].size
  {
    assert xs == xs[..i] + xs[i..];
    TotalConcat(xs[..i], xs[i..]);
    if i < |xs| {
      assert xs[..i + 1] == xs[..i] + [xs[i]];
      TotalPush(xs[..i], xs[i]);
    }
  }

  // Cell j is at its new place / still where it was.
  ghost predicate MovedTo(g: Geometry, d0: seq<Byte>, d: seq<Byte>, cells: seq<Span>, moved: seq<Span>, brk: int,
      j: nat) {
    && j < |moved| && j < |cells| && PtrEnd(g, |cells|) <= |d|
    && moved[j].size == cells[j].size && brk <= moved[j].start && moved[j].End() <= g.usable
    && Get2(d, g.cellOffset + 2 * j) == moved[j].start && Content(d, moved[j]) == Content(d0, cells[j])
  }

  ghost predicate Waiting(g: Geometry, d: seq<Byte>, cells: seq<Span>, j: nat) {
    j < |cells| && PtrEnd(g, |cells|) <= |d| && Get2(d, g.cellOffset + 2 * j) == cells[j].start
  }

  // d: the page now; d0: the page before; the first |moved| cells are at their new places.
  ghost predicate Moving(g: Geometry, d0: seq<Byte>, d: seq<Byte>, cells: seq<Span>, moved: seq<Span>, brk: int) {
    && |d| == |d0| >= g.usable && |moved| <= |cells| && PtrEnd(g, |cells|) <= brk <= g.usable &&
      brk == g.usable - Total(moved)
    && (forall k :: 0 <= k < g.cellOffset ==> d[k] == d0[k])
    && (forall j {:trigger MovedTo(g, d0, d, cells, moved, brk, j)} :: 0 <= j < |moved| ==>
      MovedTo(g, d0, d, cells, moved, brk, j))
    && (forall j {:trigger Waiting(g, d, cells, j)} :: |moved| <= j < |cells| ==> Waiting(g, d, cells, j))
    && (forall i, j {:trigger moved[i], moved[j]} :: 0 <= i < j < |moved| ==> moved[j].End() <= moved[i].start)
  }

  // Content c placed at brk', and pointer i pointing there.
  ghost predicate Copied(g: Geometry, d: seq<Byte>, d': seq<Byte>, c: seq<Byte>, brk': nat, i: nat) {
    && |d'| == |d| && brk' + |c| <= |d| && g.cellOffset + 2 * i + 2 <= brk' && Get2(d', g.cellOffset + 2 * i) == brk'
    && d'[brk'..brk' + |c|] == c
    && (forall k ::
      0 <= k < |d| && k != g.cellOffset + 2 * i && k != g.cellOffset + 2 * i + 1 && !(brk' <= k < brk' + |c|) ==>
      d'[k] == d[k])
  }

  lemma CopyAndPut(g: Geometry, d: seq<Byte>, d1: seq<Byte>, d2: seq<Byte>, c: seq<Byte>, brk': nat, i: nat)
    requires brk' + |c| <= |d| && d1 == d[..brk'] + c + d[brk' + |c|..]
    requires g.cellOffset + 2 * i + 2 <= brk' < 0x1_0000 && g.cellOffset + 2 * i + 1 < |d1| &&
      d2 == Put2(d1, g.cellOffset + 2 * i, brk')
    ensures Copied(g, d, d2, c, brk', i)
  {
    assert d1[brk'..brk' + |c|] == c;
    assert d2[brk'..brk' + |c|] == d1[brk'..brk' + |c|];
  }

  lemma MovedStays(g: Geometry, d0: seq<Byte>, d: seq<Byte>, d': seq<Byte>, cells: seq<Span>, moved: seq<Span>,
      brk: int, brk': nat, m: seq<Span>, j: nat)
    requires MovedTo(g, d0, d, cells, moved, brk, j) && |moved| < |cells| && |d| >= g.usable
    requires brk' + cells[|moved|].size == brk && cells[|moved|].End() <= |d0| && PtrEnd(g, |cells|) <= brk'
    requires Copied(g, d, d', Content(d0, cells[|moved|]), brk', |moved|) && j < |m| && m[j] == moved[j]
    ensures MovedTo(g, d0, d', cells, m, brk', j)
  {
    assert Content(d', m[j]) == Content(d, moved[j]);
  }

  lemma StillWaiting(g: Geometry, d: seq<Byte>, d': seq<Byte>, cells: seq<Span>, c: seq<Byte>, brk': nat,
      i: nat, j: nat)
    requires Waiting(g, d, cells, j) && i < j && Copied(g, d, d', c, brk', i) && PtrEnd(g, |cells|) <= brk'
    ensures Waiting(g, d', cells, j)
  {
  }

  lemma {:induction false} MoveOne(g: Geometry, d0: seq<Byte>, d: seq<Byte>, d': seq<Byte>, cells: seq<Span>,
      moved: seq<Span>, brk: int, brk': nat)
    requires Moving(g, d0, d, cells, moved, brk) && |moved| < |cells| && cells[|moved|].End() <= |d0|
    requires brk' + cells[|moved|].size == brk && PtrEnd(g, |cells|) <= brk'
    requires Copied(g, d, d', Content(d0, cells[|moved|]), brk', |moved|)
    ensures Moving(g, d0, d', cells, moved + [Span(brk', cells[|moved|].size)], brk')
  {
    hide MovedTo, Waiting, Content, Copied;
    var i := |moved|;
    HeaderKept(g, d, d', Content(d0, cells[i]), brk', i);
    var m := moved + [Span(brk', cells[i].size)];
    TotalPush(moved, Span(brk', cells[i].size));
    forall j | 0 <= j < |m| ensures MovedTo(g, d0, d', cells, m, brk', j) {
      if j < i {
        assert MovedTo(g, d0, d, cells, moved, brk, j);
        MovedStays(g, d0, d, d', cells, moved, brk, brk', m, j);
      } else {
        JustMoved(g, d0, d, d', cells, m, brk', i);
      }
    }
    forall j | |m| <= j < |cells| ensures Waiting(g, d', cells, j) {
      assert Waiting(g, d, cells, j);
      StillWaiting(g, d, d', cells, Content(d0, cells[i]), brk', i, j);
    }
    forall x, y {:trigger m[x], m[y]} | 0 <= x < y < |m| ensures m[y].End() <= m[x].start {
      assert MovedTo(g, d0, d, cells, moved, brk, x);
      MovedAbove(g, d0, d, cells, moved, brk, x);
    }
  }

  lemma HeaderKept(g: Geometry, d: seq<Byte>, d': seq<Byte>, c: seq<Byte>, brk': nat, i: nat)
    requires Copied(g, d, d', c, brk', i)
    ensures |d'| == |d| && forall k :: 0 <= k < g.cellOffset && k < |d| ==> d'[k] == d[k]
  {
  }

  lemma MovedAbove(g: Geometry, d0: seq<Byte>, d: seq<Byte>, cells: seq<Span>, moved: seq<Span>, brk: int, j: nat)
    requires MovedTo(g, d0, d, cells, moved, brk, j)
    ensures j < |moved| && brk <= moved[j].start
  {
  }

  lemma JustMoved(g: Geometry, d0: seq<Byte>, d: seq<Byte>, d': seq<Byte>, cells: seq<Span>, m: seq<Span>,
      brk': nat, i: nat)
    requires i < |cells| && i < |m| && m[i] == Span(brk', cells[i].size) && cells[i].End() <= |d0| &&
      brk' + cells[i].size <= g.usable <= |d|
    requires Copied(g, d, d', Content(d0, cells[i]), brk', i) && PtrEnd(g, |cells|) <= brk'
    ensures MovedTo(g, d0, d', cells, m, brk', i)
  {
  }

  // Header counters and gap excepted, nothing has changed.
  ghost predicate OnlyFree(g: Geometry, d: seq<Byte>, d': seq<Byte>, nCell: nat, brk: int) {
    && |d'| == |d|
    && forall k ::
      0 <= k < |d| && !(g.hdr < k <= g.hdr + 2) && !(g.hdr + 4 < k < g.hdr + 8) && !(PtrEnd(g, nCell) <= k < brk) ==>
      d'[k] == d[k]
  }

  lemma ContentSame(d: seq<Byte>, d': seq<Byte>, c: Span)
    requires |d'| == |d| && forall k :: c.start <= k < c.End() && k < |d| ==> d'[k] == d[k]
    ensures Content(d', c) == Content(d, c)
  {
  }

  // Cell c of page d0 lies at m on page d'.
  ghost predicate Lies(g: Geometry, d0: seq<Byte>, d': seq<Byte>, c: Span, m: Span, brk: int, j: nat) {
    && g.cellOffset + 2 * j + 1 < |d'| && brk <= m.start && m.End() <= g.usable <= |d'| && m.size == c.size >= 4
    && Get2(d', g.cellOffset + 2 * j) == m.start && Content(d', m) == Content(d0, c) &&
      g.size(d'[m.start..g.usable]) == m.size
  }

  lemma InPlace(g: Geometry, d0: seq<Byte>, d: seq<Byte>, d': seq<Byte>, nCell: nat, cells: seq<Span>,
      moved: seq<Span>, brk: int, j: nat)
    requires SelfContained(g.size) && Pointers(g, d0, cells) && nCell == |cells| == |moved| && j < nCell && Fits(g) &&
      cells[j].size >= 4
    requires MovedTo(g, d0, d, cells, moved, brk, j) && OnlyFree(g, d, d', nCell, brk) && PtrEnd(g, nCell) <= brk &&
      |d| == |d0|
    ensures Lies(g, d0, d', cells[j], moved[j], brk, j)
  {
    hide SelfContained, Content;
    assert cells[j].End() <= g.usable;
    ContentSame(d, d', moved[j]);
    SameGet2(d, d', g.cellOffset + 2 * j);
    SizeKept(g, d0, d', cells[j], moved[j]);
  }

  lemma LyingPlaced(g: Geometry, d0: seq<Byte>, d': seq<Byte>, cells: seq<Span>, moved: seq<Span>, brk: int)
    requires |moved| == |cells| && forall j {:trigger moved[j]} :: 0 <= j < |moved| ==>
      Lies(g, d0, d', cells[j], moved[j], brk, j)
    requires forall i, j {:trigger moved[i], moved[j]} :: 0 <= i < j < |moved| ==> moved[j].End() <= moved[i].start
    ensures Placed(moved, [], brk, g.usable, 0) && Total(moved) == Total(cells)
  {
    SameTotal(cells, moved);
  }

  lemma LyingPointers(g: Geometry, d0: seq<Byte>, d': seq<Byte>, cells: seq<Span>, moved: seq<Span>, brk: int)
    requires |moved| == |cells| && forall j {:trigger moved[j]} :: 0 <= j < |moved| ==>
      Lies(g, d0, d', cells[j], moved[j], brk, j)
    requires g.usable <= |d'| && PtrEnd(g, |cells|) <= |d'|
    ensures Pointers(g, d', moved) && Contents(d', moved) == Contents(d0, cells)
  {
    hide Content;
  }

  // With all cells moved and header and gap rewritten, the page has no freeblocks and no fragments.
  lemma Defragmented(g: Geometry, d0: seq<Byte>, d: seq<Byte>, d': seq<Byte>, nCell: nat, cells: seq<Span>,
      blocks: seq<Span>, moved: seq<Span>, brk: int)
    requires Spaced(g, d0, nCell, cells, blocks) && Pointers(g, d0, cells) && SelfContained(g.size) && nCell == |cells|
    requires Moving(g, d0, d, cells, moved, brk) && |moved| == |cells| && OnlyFree(g, d, d', nCell, brk)
    requires Get2(d', g.hdr + 1) == 0 && Get2(d', g.hdr + 5) == brk && d'[g.hdr + 7] == 0
    ensures Spaced(g, d', nCell, moved, []) && Pointers(g, d', moved) && Contents(d', moved) == Contents(d0, cells)
    ensures FreeBytes(g, d', nCell, []) == FreeBytes(g, d0, nCell, blocks) && d'[g.hdr] == d0[g.hdr]
  {
    hide Content, SelfContained, Placed, Pointers, Lies;
    forall j {:trigger moved[j]} | 0 <= j < |moved| ensures Lies(g, d0, d', cells[j], moved[j], brk, j) {
      assert MovedTo(g, d0, d, cells, moved, brk, j);
      CellInside(g, d0, nCell, cells, blocks, j);
      InPlace(g, d0, d, d', nCell, cells, moved, brk, j);
    }
    LyingPlaced(g, d0, d', cells, moved, brk);
    LyingPointers(g, d0, d', cells, moved, brk);
    assert Link(g, d', [], 0);
    assert Get2(d', g.hdr + 3) == Get2(d0, g.hdr + 3);
  }

  lemma {:induction false} SameTotal(xs: seq<Span>, ys: seq<Span>)
    requires |xs| == |ys| && forall i :: 0 <= i < |ys| ==> ys[i].size == xs[i].size
    ensures Total(xs) == Total(ys)
    decreases |xs|
  {
    if xs != [] {
      SameTotal(xs[..|xs| - 1], ys[..|ys| - 1]);
    }
  }

  // A cell that found no room: it belongs before cell idx.
  datatype OvflCell = OvflCell(cell: seq<Byte>, idx: nat)

  function InsertAt<T>(xs: seq<T>, i: nat, x: T): (r: seq<T>)
    requires i <= |xs|
    ensures |r| == |xs| + 1
  {
    xs[..i] + [x] + xs[i..]
  }

  lemma InsertedAt<T>(xs: seq<T>, i: nat, x: T, k: nat)
    requires i <= |xs| && k <= |xs|
    ensures InsertAt(xs, i, x)[k] == if k < i then xs[k] else if k == i then x else xs[k - 1]
  {
  }

  // Each overflow cell belongs somewhere among the n cells and the overflow cells before it.
  ghost predicate InOrder(ovfl: seq<OvflCell>, n: nat) {
    forall j :: 0 <= j < |ovfl| ==> ovfl[j].idx <= n + j
  }

  // All cells of the page in order, the overflow cells put where they belong.
  ghost function WithOverflow(cs: seq<seq<Byte>>, ovfl: seq<OvflCell>): (r: seq<seq<Byte>>)
    requires InOrder(ovfl, |cs|)
    ensures |r| == |cs| + |ovfl|
    decreases |ovfl|
  {
    if ovfl == [] then cs else
      var n := |ovfl| - 1;
      InsertAt(WithOverflow(cs, ovfl[..n]), ovfl[n].idx, ovfl[n].cell)
  }

  // Following the list from the header over chain leads to offset pc.
  ghost predicate Scanned(g: Geometry, d: seq<Byte>, chain: seq<Span>, pc: nat) {
    && (forall i :: 0 <= i < |chain| ==> 0 < chain[i].start <= g.usable - 4 && Block(d, chain[i]))
    && (forall i {:trigger Step(g, d, chain, pc, i)} :: 0 <= i <= |chain| ==> Step(g, d, chain, pc, i))
    && (forall i, j {:trigger chain[i], chain[j]} :: 0 <= i < j < |chain| ==> chain[i].End() + 4 <= chain[j].start)
    && (forall i :: 0 <= i < |chain| && pc > 0 ==> chain[i].End() + 4 <= pc)
  }

  ghost predicate Step(g: Geometry, d: seq<Byte>, chain: seq<Span>, pc: nat, i: nat) {
    i <= |chain| && Addr(g, chain, i) + 1 < |d| &&
      Get2(d, Addr(g, chain, i)) == if i < |chain| then chain[i].start else pc
  }

  ghost predicate PrefixOf(chain: seq<Span>, pc: nat, blocks: seq<Span>) {
    |chain| <= |blocks| && chain == blocks[..|chain|] && pc == StartOf(blocks, |chain|)
  }

  lemma ScanStart(g: Geometry, d: seq<Byte>, nCell: nat, used: seq<Span>, blocks: seq<Span>)
    requires Spaced(g, d, nCell, used, blocks)
    ensures PrefixOf([], Get2(d, g.hdr + 1), blocks)
  {
    assert Link(g, d, blocks, 0);
  }

  lemma ScanNext(g: Geometry, d: seq<Byte>, nCell: nat, used: seq<Span>, blocks: seq<Span>, chain: seq<Span>, pc: nat)
    requires Spaced(g, d, nCell, used, blocks) && PrefixOf(chain, pc, blocks) && pc > 0
    ensures pc <= g.usable - 4 && PrefixOf(chain + [Span(pc, Get2(d, pc + 2))], Get2(d, pc), blocks)
    ensures Get2(d, pc) > 0 ==> Get2(d, pc) > pc + Get2(d, pc + 2) + 3
  {
    AtBlock(g, d, used, blocks, |blocks|, |chain|);
    assert blocks[|chain|].size >= 4;
    if |chain| + 1 < |blocks| { AtBlock(g, d, used, blocks, |blocks|, |chain| + 1); }
  }

  lemma ScanOne(g: Geometry, d: seq<Byte>, chain: seq<Span>, pc: nat, size: nat, next: nat)
    requires Scanned(g, d, chain, pc) && 0 < pc <= g.usable - 4 && g.usable <= |d| && Get2(d, pc) == next &&
      Get2(d, pc + 2) == size
    requires next > 0 ==> next > pc + size + 3
    ensures Scanned(g, d, chain + [Span(pc, size)], next)
  {
    var c := chain + [Span(pc, size)];
    forall i | 0 <= i <= |c| ensures Step(g, d, c, next, i) {
      if i <= |chain| { assert Step(g, d, chain, pc, i); }
    }
  }

  lemma ScanEnd(g: Geometry, d: seq<Byte>, nCell: nat, used: seq<Span>, blocks: seq<Span>, chain: seq<Span>)
    requires Spaced(g, d, nCell, used, blocks) && PrefixOf(chain, 0, blocks)
    ensures chain == blocks && 0 <= FreeBytes(g, d, nCell, blocks) < g.usable
  {
    FreeAndUsed(g, d, nCell, used, blocks);
    HeadersPlaced(g, used, blocks, Top(g, d), g.usable, |blocks|, 0);
  }

  // A new cell i, its content from nSkip on being that of pCell, among the old ones.
  ghost predicate GotCell(cs: seq<seq<Byte>>, cs': seq<seq<Byte>>, i: nat, pCell: seq<Byte>, sz: nat, nSkip: nat) {
    && i <= |cs| && |cs'| == |cs| + 1 && nSkip <= sz <= |pCell|
    && (forall k :: 0 <= k < |cs'| && k != i ==> cs'[k] == cs[if k < i then k else k - 1])
    && |cs'[i]| == sz && cs'[i][nSkip..] == pCell[nSkip..sz]
  }

  // A page in memory (struct MemPage).
  class Page {
    const g: Geometry
    const data: array<Byte>
    var nFree: int
    var nCell: nat
    var aOvfl: seq<OvflCell>
    ghost var cells: seq<Span>
    ghost var blocks: seq<Span>

    // Content area, counters and pointer array agree; spans: what is in use.
    ghost predicate Holds(used: seq<Span>)
      reads this, data
    {
      SelfContained(g.size) && Spaced(g, data[..], nCell, used, blocks) && Pointers(g, data[..], cells) &&
        nCell == |cells|
    }

    ghost predicate Valid()
      reads this, data
    {
      Holds(cells) && InOrder(aOvfl, nCell) && nFree == if aOvfl == [] then FreeBytes(g, data[..], nCell, blocks) else 0
    }

    ghost function AllCells(): (r: seq<seq<Byte>>)
      requires Valid()
      reads this, data
      ensures |r| == nCell + |aOvfl|
    {
      WithOverflow(Contents(data[..], cells), aOvfl)
    }

    method Get2byte(i: int) returns (v: nat)
      requires 0 <= i && i + 1 < data.Length
      ensures v == Get2(data[..], i)
    {
      v := 256 * (data[i] as int) + data[i + 1];
    }

    method Put2byte(i: int, v: int)
      requires 0 <= i && i + 1 < data.Length && 0 <= v < 0x1_0000
      modifies data
      ensures data[..] == Put2(old(data[..]), i, v)
    {
      data[i], data[i + 1] := v / 256, v % 256;
    }

    // The first freeblock with room for nByte bytes, or none.
    method FirstFit(nByte: nat) returns (ghost i: nat, addr: nat, pc: nat, size: nat)
      requires Spaced(g, data[..], nCell, cells, blocks)
      ensures i <= |blocks| && addr == Addr(g, blocks, i) && pc == StartOf(blocks, i)
      ensures forall j :: 0 <= j < i ==> blocks[j].size < nByte
      ensures i < |blocks| ==> size == blocks[i].size >= nByte
    {
      hide Placed;
      ghost var d := data[..];
      HeadersPlaced(g, cells, blocks, Top(g, d), g.usable, |blocks|, 0);
      i, addr, size := 0, g.hdr + 1, 0;
      assert Link(g, d, blocks, 0);
      pc := Get2byte(addr);
      while pc > 0
        invariant i <= |blocks| && addr == Addr(g, blocks, i) && pc == StartOf(blocks, i)
        invariant forall j :: 0 <= j < i ==> blocks[j].size < nByte
        decreases |blocks| - i
      {
        assert Block(d, blocks[i]);
        size := Get2byte(pc + 2);
        if size >= nByte {
          return;
        }
        addr := pc;
        i := i + 1;
        assert Link(g, d, blocks, i);
        pc := Get2byte(addr);
      }
    }

    method CopyIn(at: nat, src: array<Byte>, start: nat, n: nat)
      requires src != data && at + n <= data.Length && start + n <= src.Length
      modifies data
      ensures data[..] == old(data[..])[..at] + src[start..start + n] + old(data[..])[at + n..]
    {
      var i := 0;
      while i < n
        invariant i <= n
        invariant forall k :: 0 <= k < data.Length ==>
          data[k] == if at <= k < at + i then src[start + k - at] else old(data[k])
      {
        data[at + i] := src[start + i];
        i := i + 1;
      }
    }

    // A copy of the content area.
    method SaveContent(top: nat) returns (temp: array<Byte>)
      requires top <= g.usable <= data.Length
      ensures fresh(temp) && temp.Length == data.Length && forall j :: top <= j < g.usable ==> temp[j] == data[j]
    {
      temp := new Byte[data.Length];
      var k := top;
      while k < g.usable
        invariant top <= k <= g.usable && forall j :: top <= j < k ==> temp[j] == data[j]
        modifies temp
      {
        temp[k] := data[k];
        k := k + 1;
      }
    }

    // Pointer and size of the next cell to move; its content is in the copy.
    method NextCell(temp: array<Byte>, ghost d0: seq<Byte>, ghost moved: seq<Span>, ghost brk: int, i: nat)
        returns (pc: nat, size: nat)
      requires Spaced(g, d0, nCell, cells, blocks) && Pointers(g, d0, cells) && nCell == |cells| && i < nCell &&
        |moved| == i
      requires Moving(g, d0, data[..], cells, moved, brk) && temp.Length == data.Length
      requires forall j :: Top(g, d0) <= j < g.usable ==> temp[j] == d0[j]
      ensures cells[i] == Span(pc, size) && cells[i].End() <= |d0| == data.Length &&
        temp[pc..pc + size] == Content(d0, cells[i])
      ensures PtrEnd(g, nCell) + Total(cells) <= g.usable && PtrEnd(g, nCell) <= brk <= g.usable
    {
      hide Placed, Chain, SelfContained, Content, Moving, Pointers, Get2, Put2;
      StillThere(g, d0, data[..], nCell, cells, blocks, moved, brk, i);
      pc := Get2byte(g.cellOffset + 2 * i);
      assert temp[pc..g.usable] == d0[pc..g.usable];
      size := g.size(temp[pc..g.usable]);
      SavedContent(g, d0, temp[..], pc, size, cells[i]);
    }

    method MoveCells(temp: array<Byte>, ghost d0: seq<Byte>) returns (brk: nat, ghost moved: seq<Span>)
      requires temp != data && d0 == data[..] && Holds(cells) && temp.Length == data.Length
      requires forall j :: Top(g, d0) <= j < g.usable ==> temp[j] == d0[j]
      modifies data
      ensures |moved| == |cells| && Moving(g, d0, data[..], cells, moved, brk)
    {
      hide Placed, Chain, SelfContained, Content, Moving, Pointers, Copied, Get2, Put2;
      brk, moved := g.usable, [];
      CellsFit(g, d0, nCell, cells, blocks);
      var i := 0;
      while i < nCell
        invariant i <= nCell && |moved| == i && Moving(g, d0, data[..], cells, moved, brk)
        invariant brk == g.usable - Total(cells[..i])
      {
        var pc, size := NextCell(temp, d0, moved, brk, i);
        TotalPrefix(cells, i);
        TotalPrefix(cells, i + 1);
        ghost var d, brk0 := data[..], brk;
        brk := brk - size;
        CopyIn(brk, temp, pc, size);
        ghost var d1 := data[..];
        Put2byte(g.cellOffset + 2 * i, brk);
        MoveNext(g, d0, d, d1, data[..], cells, moved, brk0, brk);
        moved := moved + [Span(brk, size)];
        i := i + 1;
      }
      assert cells[..i] == cells;
    }

    // Reset the header and clear the gap.
    method ClearFree(brk: nat)
      requires Fits(g) && PtrEnd(g, nCell) <= brk <= g.usable <= data.Length
      modifies data
      ensures OnlyFree(g, old(data[..]), data[..], nCell, brk)
      ensures Get2(data[..], g.hdr + 1) == 0 && Get2(data[..], g.hdr + 5) == brk && data[g.hdr + 7] == 0
    {
      Put2byte(g.hdr + 5, brk);
      data[g.hdr + 1] := 0;
      data[g.hdr + 2] := 0;
      data[g.hdr + 7] := 0;
      ghost var d := data[..];
      var k := PtrEnd(g, nCell);
      while k < brk
        invariant PtrEnd(g, nCell) <= k <= brk
        invariant forall j :: 0 <= j < data.Length && !(PtrEnd(g, nCell) <= j < brk) ==> data[j] == d[j]
      {
        data[k] := 0;
        k := k + 1;
      }
    }

    // Move all cells to the end of the page, closing every hole (btree.c:1125-1172).
    method DefragmentPage()
      requires Holds(cells) && aOvfl == []
      modifies data, this`cells, this`blocks
      ensures Holds(cells) && |cells| == |old(cells)| && blocks == [] && data[g.hdr + 7] == 0 &&
        data[g.hdr] == old(data[g.hdr])
      ensures Contents(data[..], cells) == old(Contents(data[..], cells))
      ensures FreeBytes(g, data[..], nCell, blocks) == old(FreeBytes(g, data[..], nCell, blocks))
    {
      hide Placed, Chain, SelfContained, Content, Moving, OnlyFree, Pointers, Contents;
      ghost var d0 := data[..];
      var brk := Get2byte(g.hdr + 5);
      var temp := SaveContent(brk);
      ghost var moved;
      brk, moved := MoveCells(temp, d0);
      ghost var d := data[..];
      MovingRoom(g, d0, d, cells, moved, brk);
      ClearFree(brk);
      Defragmented(g, d0, d, data[..], nCell, cells, blocks, moved, brk);
      cells, blocks := moved, [];
    }

    // Find nByte contiguous bytes, defragmenting if need be; 0 if the page has not that many (btree.c:1186-1238).
    method AllocateSpace(nByte: nat) returns (addr: nat)
      requires Valid()
      modifies data, this`nFree, this`cells, this`blocks
      ensures var n := if nByte < 4 then 4 else nByte;
        && (addr == 0 <==> old(nFree) < n || aOvfl != [])
        && (addr == 0 ==>
          Valid() && data[..] == old(data[..]) && nFree == old(nFree) && cells == old(cells) && blocks == old(blocks))
        && (addr != 0 ==>
          Holds(cells + [Span(addr, n)]) && nFree == old(nFree) - n == FreeBytes(g, data[..], nCell, blocks))
      ensures |cells| == |old(cells)| && Contents(data[..], cells) == old(Contents(data[..], cells))
      ensures var n := if nByte < 4 then 4 else nByte;
        addr != 0 && old(nFree) >= n + 2 && PtrEnd(g, nCell) + 2 + n <= old(Top(g, data[..])) ==>
          PtrEnd(g, nCell) + 2 <= Top(g, data[..])
    {
      hide Placed, Chain, SelfContained, Contents, Pointers, Spares, FreeBytes;
      var n := if nByte < 4 then 4 else nByte;
      if nFree < n || aOvfl != [] {
        return 0;
      }
      nFree := nFree - n;
      var nFrag := data[g.hdr + 7];
      if nFrag < 60 {
        addr := FromFreeblock(n);
        if addr != 0 {
          return;
        }
      }
      addr := FromGap(n, nFrag);
    }

    // Take the space from the first freeblock that is large enough.
    method FromFreeblock(n: nat) returns (addr: nat)
      requires Holds(cells) && n >= 4 && data[g.hdr + 7] < 60
      modifies data, this`blocks
      ensures addr == 0 ==> data[..] == old(data[..]) && blocks == old(blocks)
      ensures addr != 0 ==>
        Holds(cells + [Span(addr, n)]) && Contents(data[..], cells) == old(Contents(data[..], cells))
      ensures addr != 0 ==> FreeBytes(g, data[..], nCell, blocks) == old(FreeBytes(g, data[..], nCell, blocks)) - n
      ensures Top(g, data[..]) == old(Top(g, data[..]))
    {
      hide Placed, Chain, SelfContained, Contents, Pointers, Spares, FreeBytes, Content;
      ghost var i;
      var at, pc, size;
      i, at, pc, size := FirstFit(n);
      if pc == 0 {
        return 0;
      }
      if size < n + 4 {
        TakeWhole(i, at, pc, size, n);
        addr := pc;
      } else {
        TakeTail(i, pc, size, n);
        addr := pc + size - n;
      }
    }

    method TakeWhole(ghost i: nat, at: nat, pc: nat, size: nat, n: nat)
      requires Holds(cells) && i < |blocks| && at == Addr(g, blocks, i) && Span(pc, size) == blocks[i]
      requires 4 <= n <= size < n + 4 && data[g.hdr + 7] < 60
      modifies data, this`blocks
      ensures Holds(cells + [Span(pc, n)]) && Contents(data[..], cells) == old(Contents(data[..], cells))
      ensures FreeBytes(g, data[..], nCell, blocks) == old(FreeBytes(g, data[..], nCell, blocks)) - n
      ensures Top(g, data[..]) == old(Top(g, data[..]))
    {
      hide Placed, Chain, SelfContained, Contents, Pointers, Spares, FreeBytes, Content, Get2, Put2, Without;
      ghost var d := data[..];
      HeadersPlaced(g, cells, blocks, Top(g, d), g.usable, |blocks|, i);
      NextKept(g, d, blocks, i);
      data[at], data[at + 1] := data[pc], data[pc + 1];
      data[g.hdr + 7] := data[g.hdr + 7] + size - n;
      SameBytes(d, data[..], at, pc, g.hdr + 7, StartOf(blocks, i + 1), d[g.hdr + 7] + size - n);
      WholeTaken(g, d, data[..], nCell, cells, blocks, i, n);
      blocks := Without(blocks, i);
      PointersKept(g, d, data[..], cells);
    }

    method TakeTail(ghost i: nat, pc: nat, size: nat, n: nat)
      requires Holds(cells) && i < |blocks| && Span(pc, size) == blocks[i] && 4 <= n && n + 4 <= size
      modifies data, this`blocks
      ensures Holds(cells + [Span(pc + size - n, n)]) && Contents(data[..], cells) == old(Contents(data[..], cells))
      ensures FreeBytes(g, data[..], nCell, blocks) == old(FreeBytes(g, data[..], nCell, blocks)) - n
      ensures Top(g, data[..]) == old(Top(g, data[..]))
    {
      hide Placed, Chain, SelfContained, Contents, Pointers, Spares, FreeBytes, Content, Get2, Put2;
      ghost var d := data[..];
      HeadersPlaced(g, cells, blocks, Top(g, d), g.usable, |blocks|, i);
      Put2byte(pc + 2, size - n);
      TookTail(g, d, data[..], nCell, cells, blocks, i, n);
      SameGet2(d, data[..], g.hdr + 5);
      SparesBlock(g, d, data[..], nCell, cells, blocks, |blocks|, i);
      blocks := blocks[i := Span(pc, size - n)];
      PointersKept(g, d, data[..], cells);
    }

    // Take the space from the end of the gap.
    method FromGap(n: nat, nFrag: Byte) returns (addr: nat)
      requires Holds(cells) && aOvfl == [] && 4 <= n <= FreeBytes(g, data[..], nCell, blocks)
      modifies data, this`cells, this`blocks
      ensures addr != 0 && Holds(cells + [Span(addr, n)]) && |cells| == |old(cells)|
      ensures Contents(data[..], cells) == old(Contents(data[..], cells))
      ensures FreeBytes(g, data[..], nCell, blocks) == old(FreeBytes(g, data[..], nCell, blocks)) - n
      ensures old(FreeBytes(g, data[..], nCell, blocks) >= n + 2 && PtrEnd(g, nCell) + 2 + n <= Top(g, data[..])) ==>
        PtrEnd(g, nCell) + 2 <= Top(g, data[..])
    {
      hide Placed, Chain, SelfContained, Contents, Pointers, Spares, Content, Get2, Put2;
      var top := Get2byte(g.hdr + 5);
      if nFrag >= 60 || PtrEnd(g, nCell) > top - n {
        DefragmentPage();
        top := Get2byte(g.hdr + 5);
      }
      ghost var d := data[..];
      addr := top - n;
      Put2byte(g.hdr + 5, addr);
      TookGap(g, d, data[..], nCell, cells, blocks, n);
      SparesBlock(g, d, data[..], nCell, cells, blocks, |blocks|, |blocks|);
      PointersKept(g, d, data[..], cells);
    }

    // Where the freed span belongs in the freeblock list.
    method FindPlace(start: nat, ghost used: seq<Span>, ghost n: nat) returns (ghost i: nat, addr: nat, pbegin: nat)
      requires Tiled(g, data[..], used, blocks, n)
      ensures i <= |blocks| && addr == Addr(g, blocks, i) && pbegin == StartOf(blocks, i)
      ensures forall j :: 0 <= j < |blocks| ==> (blocks[j].start < start <==> j < i)
    {
      ghost var d := data[..];
      HeadersPlaced(g, used, blocks, Top(g, d), g.usable, n, 0);
      i, addr := 0, g.hdr + 1;
      assert Link(g, d, blocks, 0);
      pbegin := Get2byte(addr);
      while 0 < pbegin < start
        invariant i <= |blocks| && addr == Addr(g, blocks, i) && pbegin == StartOf(blocks, i)
        invariant forall j :: 0 <= j < i ==> blocks[j].start < start
        decreases |blocks| - i
      {
        assert Block(d, blocks[i]);
        addr := pbegin;
        i := i + 1;
        assert Link(g, d, blocks, i);
        pbegin := Get2byte(addr);
      }
    }

    // Merge every freeblock with the next as long as they are less than 4 bytes apart.
    method Coalesce(ghost used: seq<Span>)
      requires Tiled(g, data[..], used, blocks, 0) && PtrEnd(g, nCell) <= Top(g, data[..])
      modifies data, this`blocks
      ensures Tiled(g, data[..], used, blocks, |blocks|) && Spares(g, old(data[..]), data[..], used, nCell)
      ensures Top(g, data[..]) == old(Top(g, data[..])) &&
        Get2(data[..], g.hdr + 3) == old(Get2(data[..], g.hdr + 3)) && data[g.hdr] == old(data[g.hdr])
      ensures FreeBytes(g, data[..], nCell, blocks) == old(FreeBytes(g, data[..], nCell, blocks))
    {
      hide Placed, Chain, Headers, Link, FreeBytes, Get2, Put2;
      ghost var d0 := data[..];
      ghost var j := 0;
      var addr := g.hdr + 1;
      var pbegin := HeadOfList(used, 0);
      while pbegin > 0
        invariant j <= |blocks| && Tiled(g, data[..], used, blocks, j) && addr == Addr(g, blocks, j) &&
          pbegin == StartOf(blocks, j)
        invariant Spares(g, d0, data[..], used, nCell) && data[g.hdr] == d0[g.hdr]
        invariant Top(g, data[..]) == Top(g, d0) && Get2(data[..], g.hdr + 3) == Get2(d0, g.hdr + 3)
        invariant FreeBytes(g, data[..], nCell, blocks) == FreeBytes(g, d0, nCell, old(blocks))
        decreases |blocks| - j
      {
        ghost var d := data[..];
        AtBlock(g, d, used, blocks, j, j);
        var pnext := Get2byte(pbegin);
        var psize := Get2byte(pbegin + 2);
        if pbegin + psize + 3 >= pnext && pnext > 0 {
          AtBlock(g, d, used, blocks, j, j + 1);
          JoinBlocks(used, j, pbegin, psize, pnext);
          SparesTrans(g, d0, d, data[..], used, nCell);
          pbegin := pbegin;
        } else {
          if j + 1 < |blocks| { AtBlock(g, d, used, blocks, j, j + 1); }
          FarEnough(g, d, used, blocks, j);
          addr := pbegin;
          j := j + 1;
          pbegin := pnext;
        }
      }
      assert j == |blocks| by { HeadersPlaced(g, used, blocks, Top(g, data[..]), g.usable, j, j); }
    }

    method HeadOfList(ghost used: seq<Span>, ghost n: nat) returns (v: nat)
      requires Tiled(g, data[..], used, blocks, n)
      ensures v == StartOf(blocks, 0) == Get2(data[..], g.hdr + 1)
    {
      assert Link(g, data[..], blocks, 0);
      v := Get2byte(g.hdr + 1);
    }

    // Blocks j and j + 1 become one; the gap between them is no longer a fragment.
    method JoinBlocks(ghost used: seq<Span>, ghost j: nat, pbegin: nat, psize: nat, pnext: nat)
      requires Tiled(g, data[..], used, blocks, j) && PtrEnd(g, nCell) <= Top(g, data[..]) && j + 1 < |blocks|
      requires Span(pbegin, psize) == blocks[j] && pnext == blocks[j + 1].start && pbegin + psize + 3 >= pnext
      modifies data, this`blocks
      ensures |blocks| == |old(blocks)| - 1 && blocks[j].start == pbegin && Tiled(g, data[..], used, blocks, j) &&
        Spares(g, old(data[..]), data[..], used, nCell)
      ensures j == 0 || blocks[j - 1] == old(blocks)[j - 1]
      ensures Top(g, data[..]) == old(Top(g, data[..])) &&
        Get2(data[..], g.hdr + 3) == old(Get2(data[..], g.hdr + 3)) && data[g.hdr] == old(data[g.hdr])
      ensures FreeBytes(g, data[..], nCell, blocks) == old(FreeBytes(g, data[..], nCell, blocks))
    {
      hide Placed, Chain, Headers, Link, FreeBytes, Fused, Get2, Put2, Spares;
      ghost var d := data[..];
      HeadersPlaced(g, used, blocks, Top(g, d), g.usable, j, j);
      AtBlock(g, d, used, blocks, j, j + 1);
      MergeCounted(g, d, used, blocks, j);
      ghost var m := Span(pbegin, blocks[j + 1].End() - pbegin);
      WriteJoined(pbegin, pnext, pnext - (pbegin + psize), j, m);
      Merged(g, d, data[..], nCell, used, blocks, j, m);
      SparesBlock(g, d, data[..], nCell, used, blocks, j, j);
      FusedAt(blocks, j, m, j);
      if j > 0 { FusedAt(blocks, j, m, j - 1); }
      blocks := Fused(blocks, j, m);
    }

    method WriteJoined(pbegin: nat, pnext: nat, frag: nat, ghost j: nat, ghost m: Span)
      requires j + 1 < |blocks| && pbegin == blocks[j].start && g.hdr + 7 < pbegin && pbegin + 4 <= pnext &&
        pnext + 3 < data.Length
      requires frag <= data[g.hdr + 7] && m == Span(pbegin, pnext + Get2(data[..], pnext + 2) - pbegin) &&
        m.size < 0x1_0000
      requires Get2(data[..], pnext) == StartOf(blocks, j + 2)
      modifies data
      ensures Joined(g, old(data[..]), data[..], blocks, j, m) && data[g.hdr + 7] == old(data[g.hdr + 7]) - frag
      ensures forall k :: 0 <= k < data.Length && !(g.hdr < k < g.hdr + 8) && !(m.start <= k < m.start + 4) ==>
        data[k] == old(data[k])
    {
      ghost var d := data[..];
      data[g.hdr + 7] := data[g.hdr + 7] - frag;
      ghost var d1 := data[..];
      var next := Get2byte(pnext);
      Put2byte(pbegin, next);
      var nsize := Get2byte(pnext + 2);
      Put2byte(pbegin + 2, pnext + nsize - pbegin);
      JoinedBytes(g, d, d1, data[..], blocks, j, m, frag);
    }

    // The gap takes over a freeblock at the start of the content area.
    method RaiseTop(ghost used: seq<Span>)
      requires Spaced(g, data[..], nCell, used, blocks)
      modifies data, this`blocks
      ensures Spaced(g, data[..], nCell, used, blocks) && Spares(g, old(data[..]), data[..], used, nCell) &&
        data[g.hdr] == old(data[g.hdr])
      ensures FreeBytes(g, data[..], nCell, blocks) == old(FreeBytes(g, data[..], nCell, blocks))
    {
      hide Placed, Chain, Headers, Link, FreeBytes, Spares, Without;
      ghost var d := data[..];
      var pbegin := HeadOfList(used, |blocks|);
      if data[g.hdr + 1] == data[g.hdr + 5] && data[g.hdr + 2] == data[g.hdr + 6] {
        assert pbegin == Top(g, d);
        AtBlock(g, d, used, blocks, |blocks|, 0);
        DropFirst(used, pbegin);
      } else {
        SparesBlock(g, d, data[..], nCell, used, blocks, |blocks|, |blocks|);
      }
    }

    method DropFirst(ghost used: seq<Span>, pbegin: nat)
      requires Spaced(g, data[..], nCell, used, blocks) && blocks != [] && pbegin == blocks[0].start == Top(g, data[..])
      modifies data, this`blocks
      ensures Spaced(g, data[..], nCell, used, blocks) && Spares(g, old(data[..]), data[..], used, nCell) &&
        data[g.hdr] == old(data[g.hdr])
      ensures FreeBytes(g, data[..], nCell, blocks) == old(FreeBytes(g, data[..], nCell, blocks))
    {
      hide Placed, Chain, Headers, Link, FreeBytes, Spares, Without, Get2, Put2;
      ghost var d := data[..];
      AtBlock(g, d, used, blocks, |blocks|, 0);
      var next := Get2byte(pbegin);
      Put2byte(g.hdr + 1, next);
      ghost var d1 := data[..];
      SameGet2(d, d1, g.hdr + 5);
      SameGet2(d, d1, pbegin + 2);
      var top := Get2byte(g.hdr + 5);
      var size := Get2byte(pbegin + 2);
      Put2byte(g.hdr + 5, top + size);
      Raised(g, d, d1, data[..], nCell, used, blocks);
      SparesBlock(g, d, data[..], nCell, used, blocks, |blocks|, |blocks|);
      blocks := Without(blocks, 0);
    }

    // Link the span in as freeblock i.
    method LinkIn(start: nat, size: nat, addr: nat, pbegin: nat, ghost k: nat, ghost i: nat)
      requires Spaced(g, data[..], nCell, cells, blocks) && k < |cells| && cells[k] == Span(start, size) &&
        i <= |blocks|
      requires addr == Addr(g, blocks, i) && pbegin == StartOf(blocks, i)
      requires forall j :: 0 <= j < |blocks| ==> (blocks[j].start < start <==> j < i)
      modifies data, this`blocks
      ensures Tiled(g, data[..], Without(cells, k), blocks, 0) &&
        Spares(g, old(data[..]), data[..], Without(cells, k), nCell)
      ensures Top(g, data[..]) == old(Top(g, data[..])) && Get2(data[..], g.hdr + 3) == nCell &&
        data[g.hdr] == old(data[g.hdr])
      ensures FreeBytes(g, data[..], nCell, blocks) == old(FreeBytes(g, data[..], nCell, blocks)) + size
    {
      hide Placed, Chain, Headers, Link, FreeBytes, With, Without;
      ghost var d := data[..];
      HeadersPlaced(g, cells, blocks, Top(g, d), g.usable, |blocks|, i);
      CellInside(g, d, nCell, cells, blocks, k);
      AddrBelow(g, cells, blocks, Top(g, d), g.usable, |blocks|, k, i);
      Put2byte(addr, start);
      Put2byte(start, pbegin);
      Put2byte(start + 2, size);
      LinkedBytes(g, d, data[..], cells, blocks, i, cells[k]);
      Freed(g, d, data[..], nCell, cells, blocks, k, i);
      SparesFreed(g, d, data[..], nCell, cells, blocks, k, i);
      blocks := With(blocks, i, cells[k]);
    }

    // Give the bytes of cell k back (btree.c:1248-1300).
    method FreeSpace(start: nat, size: nat, ghost k: nat)
      requires Valid() && aOvfl == [] && k < |cells| && cells[k] == Span(start, if size < 4 then 4 else size)
      modifies data, this`nFree, this`blocks
      ensures Spaced(g, data[..], nCell, Without(cells, k), blocks) &&
        Spares(g, old(data[..]), data[..], Without(cells, k), nCell)
      ensures nFree == old(nFree) + cells[k].size == FreeBytes(g, data[..], nCell, blocks) &&
        data[g.hdr] == old(data[g.hdr])
    {
      hide Placed, Chain, Headers, Link, FreeBytes, With, Without, SelfContained, Pointers, Spares;
      var n := if size < 4 then 4 else size;
      ghost var d, us := data[..], Without(cells, k);
      ghost var i;
      var addr, pbegin;
      i, addr, pbegin := FindPlace(start, cells, |blocks|);
      LinkIn(start, n, addr, pbegin, k, i);
      ghost var d1 := data[..];
      nFree := nFree + n;
      Coalesce(us);
      ghost var d2 := data[..];
      SparesTrans(g, d, d1, d2, us, nCell);
      RaiseTop(us);
      SparesTrans(g, d, d2, data[..], us, nCell);
    }

    // Read the counts of a page from its bytes and check its freeblock list (btree.c:1340-1412). A list
    // that ascends with room between the blocks is accepted; of a well-formed page it is the true one.
    method InitPage(hasParent: bool) returns (ok: bool, ghost chain: seq<Span>)
      requires Fits(g) && g.usable <= data.Length
      modifies this`nFree, this`nCell, this`aOvfl
      ensures ok ==> Scanned(g, data[..], chain, 0) && FreeBytes(g, data[..], nCell, chain) < g.usable
      ensures ok ==>
        aOvfl == [] && nCell == Get2(data[..], g.hdr + 3) && nFree == FreeBytes(g, data[..], nCell, chain) % 0x1_0000
      ensures forall used, blocks ::
        Spaced(g, data[..], nCell, used, blocks) && nCell <= (data.Length - 8) / 3 && (nCell > 0 || !hasParent) ==>
        ok && chain == blocks && nFree == FreeBytes(g, data[..], nCell, blocks)
    {
      hide Placed, Chain, Block, Ordered, Scanned, Spaced, FreeBytes;
      aOvfl, chain := [], [];
      var top := Get2byte(g.hdr + 5);
      nCell := Get2byte(g.hdr + 3);
      if nCell > (data.Length - 8) / 3 {
        return false, chain;
      }
      if nCell == 0 && hasParent {
        return false, chain;
      }
      var free;
      ok, free, chain := ScanFreeblocks(top);
      if ok {
        nFree := free % 0x1_0000;
        ok := free < g.usable;
      }
    }

    method ScanFreeblocks(top: nat) returns (ok: bool, free: int, ghost chain: seq<Span>)
      requires Fits(g) && g.usable <= data.Length && top == Top(g, data[..])
      ensures ok ==> Scanned(g, data[..], chain, 0) && free == FreeBytes(g, data[..], nCell, chain)
      ensures forall used, blocks :: Spaced(g, data[..], nCell, used, blocks) ==>
        ok && chain == blocks && 0 <= free < g.usable
    {
      hide Placed, Chain, Block, Ordered, Spaced, PrefixOf, Get2;
      ghost var d := data[..];
      chain := [];
      var pc := Get2byte(g.hdr + 1);
      free := data[g.hdr + 7] + top - PtrEnd(g, nCell);
      forall used, blocks | Spaced(g, d, nCell, used, blocks) ensures PrefixOf(chain, pc, blocks) {
        ScanStart(g, d, nCell, used, blocks);
      }
      while pc > 0
        invariant 0 <= pc && Scanned(g, d, chain, pc) && free == FreeBytes(g, d, nCell, chain)
        invariant forall used, blocks :: Spaced(g, d, nCell, used, blocks) ==> PrefixOf(chain, pc, blocks)
        decreases if pc > 0 then g.usable - pc + 1 else 0
      {
        forall used, blocks | Spaced(g, d, nCell, used, blocks)
          ensures pc <= g.usable - 4 && PrefixOf(chain + [Span(pc, Get2(d, pc + 2))], Get2(d, pc), blocks)
          ensures Get2(d, pc) > 0 ==> Get2(d, pc) > pc + Get2(d, pc + 2) + 3
        {
          ScanNext(g, d, nCell, used, blocks, chain, pc);
        }
        if pc > g.usable - 4 {
          return false, free, chain;
        }
        var next := Get2byte(pc);
        var size := Get2byte(pc + 2);
        if next > 0 && next <= pc + size + 3 {
          return false, free, chain;
        }
        ScanOne(g, d, chain, pc, size, next);
        TotalPush(chain, Span(pc, size));
        chain := chain + [Span(pc, size)];
        free := free + size;
        pc := next;
      }
      forall used, blocks | Spaced(g, d, nCell, used, blocks) ensures chain == blocks && 0 <= free < g.usable {
        ScanEnd(g, d, nCell, used, blocks, chain);
      }
      ok := true;
    }

    // An empty page: everything after the header is free (btree.c:1418-1442).
    method ZeroPage(flags: Byte)
      requires Fits(g) && SelfContained(g.size) && g.usable <= data.Length
      modifies this, data
      ensures Valid() && nCell == 0 && aOvfl == [] && AllCells() == [] && nFree == g.usable - g.cellOffset &&
        data[g.hdr] == flags
    {
      hide SelfContained;
      var k := g.hdr;
      while k < g.usable
        invariant g.hdr <= k <= g.usable && forall j :: g.hdr <= j < k ==> data[j] == 0
        modifies data
      {
        data[k] := 0;
        k := k + 1;
      }
      data[g.hdr] := flags;
      Put2byte(g.hdr + 5, g.usable);
      nFree, nCell, aOvfl := g.usable - g.cellOffset, 0, [];
      cells, blocks := [], [];
      assert Link(g, data[..], blocks, 0);
    }

    // Cell iCell of the page (btree.c:873-878).
    method FindCell(iCell: nat) returns (pc: nat)
      requires Valid() && iCell < nCell
      ensures pc == cells[iCell].start && cells[iCell].End() <= data.Length
    {
      assert cells[iCell].End() <= g.usable;
      pc := Get2byte(g.cellOffset + 2 * iCell);
    }

    // The cell number iCell when overflow cells are counted: the search runs from the overflow cell
    // added last to the first.
    method FindOverflowCell(iCell: nat) returns (cell: seq<Byte>)
      requires Valid() && iCell < nCell + |aOvfl|
      ensures cell == AllCells()[iCell]
    {
      hide Placed, Chain, SelfContained, FreeBytes, Content, Get2;
      ghost var cs := Contents(data[..], cells);
      var k, i := iCell, |aOvfl|;
      assert aOvfl[..i] == aOvfl;
      while i > 0
        invariant 0 <= i <= |aOvfl| && 0 <= k < nCell + i && InOrder(aOvfl[..i], nCell)
        invariant WithOverflow(cs, aOvfl[..i])[k] == AllCells()[iCell]
      {
        assert aOvfl[..i][..i - 1] == aOvfl[..i - 1];
        InsertedAt(WithOverflow(cs, aOvfl[..i - 1]), aOvfl[i - 1].idx, aOvfl[i - 1].cell, k);
        i := i - 1;
        if aOvfl[i].idx <= k {
          if aOvfl[i].idx == k {
            return aOvfl[i].cell;
          }
          k := k - 1;
        }
      }
      assert aOvfl[..0] == [] && k < nCell;
      NoOverflow(cs);
      var pc := FindCell(k);
      SizeRead(g, data[..], cells, k);
      assert data[pc..g.usable] == data[..][pc..g.usable];
      cell := data[pc..pc + g.size(data[pc..g.usable])];
    }

    // Pointers idx + 1 .. nCell move down one place.
    method ShiftDown(idx: nat)
      requires idx < nCell && PtrEnd(g, nCell) <= data.Length
      modifies data
      ensures forall j :: idx <= j < nCell - 1 ==>
        Get2(data[..], g.cellOffset + 2 * j) == old(Get2(data[..], g.cellOffset + 2 * j + 2))
      ensures forall k :: 0 <= k < data.Length && !(g.cellOffset + 2 * idx <= k < PtrEnd(g, nCell)) ==>
        data[k] == old(data[k])
    {
      var i := idx + 1;
      var ptr := g.cellOffset + 2 * idx;
      while i < nCell
        invariant idx < i <= nCell && ptr == g.cellOffset + 2 * i - 2
        invariant forall k :: g.cellOffset + 2 * idx <= k < ptr ==> data[k] == old(data[k + 2])
        invariant forall k :: 0 <= k < data.Length && !(g.cellOffset + 2 * idx <= k < ptr) ==> data[k] == old(data[k])
      {
        data[ptr] := data[ptr + 2];
        data[ptr + 1] := data[ptr + 3];
        i, ptr := i + 1, ptr + 2;
      }
    }

    // Pointers i .. nCell - 1 move up one place.
    method ShiftUp(i: nat)
      requires i <= nCell && PtrEnd(g, nCell) + 2 <= data.Length
      modifies data
      ensures PointersMovedUp(g, old(data[..]), data[..], nCell, i)
    {
      hide PointersMovedUp, Get2;
      var j, ins := PtrEnd(g, nCell), g.cellOffset + 2 * i;
      ghost var left := nCell - i;
      while j > ins
        invariant left >= 0 && j == ins + 2 * left && j <= PtrEnd(g, nCell)
        invariant forall k :: j + 2 <= k < PtrEnd(g, nCell) + 2 ==> data[k] == old(data[k - 2])
        invariant forall k :: 0 <= k < data.Length && !(j + 2 <= k < PtrEnd(g, nCell) + 2) ==> data[k] == old(data[k])
      {
        data[j] := data[j - 2];
        data[j + 1] := data[j - 1];
        j, left := j - 2, left - 1;
      }
      MovedUp(g, old(data[..]), data[..], nCell, i);
    }

    method WriteContent(at: nat, pCell: seq<Byte>, nSkip: nat, sz: nat)
      requires nSkip <= sz <= |pCell| && at + sz <= data.Length
      modifies data
      ensures forall k :: 0 <= k < data.Length ==>
        data[k] == if at + nSkip <= k < at + sz then pCell[k - at] else old(data[k])
    {
      var k := nSkip;
      while k < sz
        invariant nSkip <= k <= sz
        invariant forall j :: 0 <= j < data.Length ==>
          data[j] == if at + nSkip <= j < at + k then pCell[j - at] else old(data[j])
      {
        data[at + k] := pCell[k];
        k := k + 1;
      }
    }

    // Put the cell on the page as cell i, or on the overflow list if there is no room (btree.c:4118-4193).
    // The caller fills in the first nSkip bytes, which do not affect the size.
    method InsertCell(i: nat, pCell: seq<Byte>, sz: nat, nSkip: nat)
      requires Valid() && i <= nCell + |aOvfl| && |aOvfl| < 5 && 4 <= sz <= |pCell| && nSkip <= sz
      requires forall t {:trigger g.size(t)} :: sz <= |t| && t[nSkip..sz] == pCell[nSkip..sz] ==> g.size(t) == sz
      modifies data, this
      ensures Valid()
      ensures GotCell(old(AllCells()), AllCells(), i, pCell, sz, nSkip)
      ensures if old(aOvfl != [] || sz + 2 > nFree) then data[..] == old(data[..]) && |aOvfl| == |old(aOvfl)| + 1
              else aOvfl == [] && nFree == old(nFree) - sz - 2
    {
      hide Placed, Chain, SelfContained, Contents, Content, Spares, FreeBytes, With, Get2, Put2, Pointers, GotCell,
        WithOverflow;
      if aOvfl != [] || sz + 2 > nFree {
        Overflowed(Contents(data[..], cells), aOvfl, pCell, i, sz, nSkip);
        aOvfl := aOvfl + [OvflCell(pCell[..sz], i)];
        nFree := 0;
        return;
      }
      var top := Get2byte(g.hdr + 5);
      var end := PtrEnd(g, nCell) + 2;
      if end > top - sz {
        DefragmentPage();
        RoomAfterDefragment(g, data[..], nCell, cells);
      }
      NoOverflow(Contents(data[..], cells));
      PlaceCell(i, pCell, sz, nSkip);
      NoOverflow(Contents(data[..], cells));
    }

    // A new pointer number i, and the new count.
    method WritePointer(i: nat, idx: nat) returns (ghost d3: seq<Byte>, ghost d4: seq<Byte>)
      requires i <= nCell && PtrEnd(g, nCell) + 2 <= data.Length && g.hdr + 4 < data.Length && idx < 0x1_0000 &&
        nCell + 1 < 0x1_0000
      modifies data
      ensures |d3| == |d4| == data.Length && PointersMovedUp(g, old(data[..]), d3, nCell, i)
      ensures d4 == Put2(d3, g.cellOffset + 2 * i, idx) && data[..] == Put2(d4, g.hdr + 3, nCell + 1)
    {
      hide Get2, Put2, PointersMovedUp;
      ShiftUp(i);
      d3 := data[..];
      Put2byte(g.cellOffset + 2 * i, idx);
      d4 := data[..];
      Put2byte(g.hdr + 3, nCell + 1);
    }

    // Allocate, copy the content, and insert a pointer to it.
    method PlaceCell(i: nat, pCell: seq<Byte>, sz: nat, nSkip: nat)
      requires Valid() && i <= nCell && aOvfl == [] && 4 <= sz <= |pCell| && nSkip <= sz && sz + 2 <= nFree &&
        PtrEnd(g, nCell) + 2 + sz <= Top(g, data[..])
      requires forall t {:trigger g.size(t)} :: sz <= |t| && t[nSkip..sz] == pCell[nSkip..sz] ==> g.size(t) == sz
      modifies data, this`nFree, this`nCell, this`cells, this`blocks
      ensures Valid() && nCell == old(nCell) + 1 && nFree == old(nFree) - sz - 2
      ensures GotCell(old(Contents(data[..], cells)), Contents(data[..], cells), i, pCell, sz, nSkip)
    {
      hide Placed, Chain, SelfContained, Contents, Content, Spares, FreeBytes, With, Get2, Put2, Pointers,
        PointersMovedUp, GotCell;
      var idx := AllocateSpace(sz);
      ghost var d1, a := data[..], Span(idx, sz);
      LastInside(g, d1, nCell, cells, blocks, a);
      WriteContent(idx, pCell, nSkip, sz);
      ghost var d2 := data[..];
      FilledTop(g, d1, d2, nCell, cells, blocks, a);
      ghost var d3, d4 := WritePointer(i, idx);
      NewCell(g, d1, d2, d3, d4, data[..], cells, blocks, a, i, pCell, nSkip);
      nCell := nCell + 1;
      nFree := nFree - 2;
      cells := With(cells, i, a);
    }

    method ErasePointer(idx: nat) returns (ghost d2: seq<Byte>)
      requires idx < nCell < 0x1_0000 && PtrEnd(g, nCell) <= data.Length && g.hdr + 4 < data.Length
      modifies data
      ensures |d2| == data.Length && data[..] == Put2(d2, g.hdr + 3, nCell - 1)
      ensures forall j :: idx <= j < nCell - 1 ==>
        Get2(d2, g.cellOffset + 2 * j) == old(Get2(data[..], g.cellOffset + 2 * j + 2))
      ensures forall k :: 0 <= k < data.Length && !(g.cellOffset + 2 * idx <= k < PtrEnd(g, nCell)) ==>
        d2[k] == old(data[k])
    {
      hide Get2, Put2;
      ShiftDown(idx);
      d2 := data[..];
      Put2byte(g.hdr + 3, nCell - 1);
    }

    // Remove cell idx from the page (btree.c:4077-4099).
    method DropCell(idx: nat, sz: nat)
      requires Valid() && aOvfl == [] && idx < nCell && sz == cells[idx].size
      modifies data, this`nFree, this`nCell, this`cells, this`blocks
      ensures Valid() && nCell == old(nCell) - 1 && nFree == old(nFree) + sz + 2 && data[g.hdr] == old(data[g.hdr])
      ensures Contents(data[..], cells) ==
        old(Contents(data[..], cells))[..idx] + old(Contents(data[..], cells))[idx + 1..]
    {
      hide Placed, Chain, SelfContained, Contents, Content, Spares, FreeBytes, Without, Get2, Put2;
      ghost var d, us := data[..], Without(cells, idx);
      CellInside(g, d, nCell, cells, blocks, idx);
      assert cells[idx].size == sz;
      var pc := Get2byte(g.cellOffset + 2 * idx);
      FreeSpace(pc, sz, idx);
      ghost var d1 := data[..];
      ghost var d2 := ErasePointer(idx);
      Dropped(g, d, d1, d2, data[..], cells, blocks, idx);
      nCell := nCell - 1;
      nFree := nFree + 2;
      cells := us;
    }
  }

  lemma RoomAfterDefragment(g: Geometry, d: seq<Byte>, nCell: nat, cells: seq<Span>)
    requires Spaced(g, d, nCell, cells, []) && d[g.hdr + 7] == 0
    ensures Top(g, d) - PtrEnd(g, nCell) == FreeBytes(g, d, nCell, [])
  {
  }

  // Only the pointer array and the cell count differ.
  ghost predicate Recounted(g: Geometry, d: seq<Byte>, d': seq<Byte>, top: int) {
    |d'| == |d| && forall k :: 0 <= k < |d| && k != g.hdr + 3 && k != g.hdr + 4 && !(g.cellOffset <= k < top) ==>
      d'[k] == d[k]
  }

  lemma CountKept(g: Geometry, d: seq<Byte>, d1: seq<Byte>, d': seq<Byte>, nCell: nat, used: seq<Span>,
      blocks: seq<Span>, n: nat)
    requires Spaced(g, d, nCell, used, blocks) && Recounted(g, d, d1, Top(g, d)) && n < 0x1_0000 &&
      d' == Put2(d1, g.hdr + 3, n)
    ensures Recounted(g, d, d', Top(g, d)) && Get2(d', g.hdr + 3) == n
  {
  }

  lemma SpacedRecount(g: Geometry, d: seq<Byte>, d': seq<Byte>, n: nat, n': nat, used: seq<Span>, blocks: seq<Span>)
    requires Spaced(g, d, n, used, blocks) && Recounted(g, d, d', Top(g, d)) && Get2(d', g.hdr + 3) == n' &&
      PtrEnd(g, n') <= Top(g, d)
    ensures Spaced(g, d', n', used, blocks) &&
      FreeBytes(g, d', n', blocks) == FreeBytes(g, d, n, blocks) + 2 * n - 2 * n'
    ensures d'[g.hdr] == d[g.hdr]
  {
    hide Placed, Chain, Headers, Get2;
    SameGet2(d, d', g.hdr + 5);
    HeadersPlaced(g, used, blocks, Top(g, d), g.usable, |blocks|, 0);
    BlocksAbove(g, used, blocks, Top(g, d), g.usable, |blocks|, d, d');
    ChainFrame(g, d, d', blocks);
  }

  lemma BlocksAbove(g: Geometry, used: seq<Span>, blocks: seq<Span>, lo: int, hi: int, n: nat, d: seq<Byte>,
      d': seq<Byte>)
    requires Placed(used, blocks, lo, hi, n) && Recounted(g, d, d', lo) && g.hdr + 8 <= g.cellOffset <= lo
    ensures forall i, k {:trigger blocks[i], d'[k]} ::
      0 <= i < |blocks| && blocks[i].start <= k < blocks[i].start + 4 && k < |d| ==> d'[k] == d[k]
  {
  }

  lemma ShiftedOne(g: Geometry, d: seq<Byte>, d1: seq<Byte>, d2: seq<Byte>, d': seq<Byte>, cells: seq<Span>,
      blocks: seq<Span>, idx: nat, j: nat)
    requires SelfContained(g.size) && idx < |cells| && Pointers(g, d, cells) &&
      Spares(g, d, d1, Without(cells, idx), |cells|)
    requires Spaced(g, d1, |cells|, Without(cells, idx), blocks) && Recounted(g, d1, d', Top(g, d1)) && |d2| == |d1| &&
      |cells| < 0x1_0000
    requires d' == Put2(d2, g.hdr + 3, |cells| - 1)
    requires forall j :: idx <= j < |cells| - 1 ==> Get2(d2, g.cellOffset + 2 * j) == Get2(d1, g.cellOffset + 2 * j + 2)
    requires forall k :: 0 <= k < |d1| && !(g.cellOffset + 2 * idx <= k < PtrEnd(g, |cells|)) ==> d2[k] == d1[k]
    requires j < |cells| - 1
    ensures var us := Without(cells, idx);
      && us[j] == cells[if j < idx then j else j + 1] && us[j].End() <= g.usable <= |d'| &&
        Get2(d', g.cellOffset + 2 * j) == us[j].start
      && Content(d', us[j]) == Content(d, us[j]) && g.size(d'[us[j].start..g.usable]) == us[j].size
  {
    hide SelfContained, Content, Spares, Placed, Chain, Get2, Put2, Without;
    var us := Without(cells, idx);
    var u := if j < idx then j else j + 1;
    WithoutAt(cells, idx, j);
    SparesPointer(g, d, d1, us, |cells|, u);
    SameGet2(d2, d', g.cellOffset + 2 * j);
    if j < idx { SameGet2(d1, d2, g.cellOffset + 2 * j); }
    assert cells[u].End() <= g.usable && Get2(d, g.cellOffset + 2 * u) == cells[u].start;
    SparesContent(g, d, d1, d', us, blocks, |cells|, j);
    SizeKept(g, d, d', us[j], us[j]);
  }

  lemma PointersShifted(g: Geometry, d: seq<Byte>, d1: seq<Byte>, d2: seq<Byte>, d': seq<Byte>, cells: seq<Span>,
      blocks: seq<Span>, idx: nat)
    requires SelfContained(g.size) && idx < |cells| && Pointers(g, d, cells) &&
      Spares(g, d, d1, Without(cells, idx), |cells|)
    requires Spaced(g, d1, |cells|, Without(cells, idx), blocks) && Recounted(g, d1, d', Top(g, d1)) && |d2| == |d1| &&
      |cells| < 0x1_0000
    requires d' == Put2(d2, g.hdr + 3, |cells| - 1)
    requires forall j :: idx <= j < |cells| - 1 ==> Get2(d2, g.cellOffset + 2 * j) == Get2(d1, g.cellOffset + 2 * j + 2)
    requires forall k :: 0 <= k < |d1| && !(g.cellOffset + 2 * idx <= k < PtrEnd(g, |cells|)) ==> d2[k] == d1[k]
    ensures Pointers(g, d', Without(cells, idx))
    ensures Contents(d', Without(cells, idx)) == Contents(d, cells)[..idx] + Contents(d, cells)[idx + 1..]
  {
    hide SelfContained, Content, Spares, Placed, Chain, Get2, Put2, Without;
    var us := Without(cells, idx);
    forall j {:trigger us[j]} | 0 <= j < |us|
      ensures us[j] == cells[if j < idx then j else j + 1] && us[j].End() <= g.usable &&
        Get2(d', g.cellOffset + 2 * j) == us[j].start
      ensures Content(d', us[j]) == Content(d, us[j]) && g.size(d'[us[j].start..g.usable]) == us[j].size
    {
      ShiftedOne(g, d, d1, d2, d', cells, blocks, idx, j);
    }
    var c, c' := Contents(d, cells), Contents(d', us);
    assert c' == c[..idx] + c[idx + 1..];
  }

  // Shifting the pointers after a cell was freed leaves the page with the other cells.
  lemma Dropped(g: Geometry, d: seq<Byte>, d1: seq<Byte>, d2: seq<Byte>, d': seq<Byte>, cells: seq<Span>,
      blocks: seq<Span>, idx: nat)
    requires SelfContained(g.size) && idx < |cells| && Pointers(g, d, cells) &&
      Spares(g, d, d1, Without(cells, idx), |cells|)
    requires Spaced(g, d1, |cells|, Without(cells, idx), blocks) && |d2| == |d1| && |cells| < 0x1_0000
    requires d' == Put2(d2, g.hdr + 3, |cells| - 1)
    requires forall j :: idx <= j < |cells| - 1 ==> Get2(d2, g.cellOffset + 2 * j) == Get2(d1, g.cellOffset + 2 * j + 2)
    requires forall k :: 0 <= k < |d1| && !(g.cellOffset + 2 * idx <= k < PtrEnd(g, |cells|)) ==> d2[k] == d1[k]
    ensures Pointers(g, d', Without(cells, idx)) && Spaced(g, d', |cells| - 1, Without(cells, idx), blocks) &&
      d'[g.hdr] == d1[g.hdr]
    ensures FreeBytes(g, d', |cells| - 1, blocks) == FreeBytes(g, d1, |cells|, blocks) + 2
    ensures Contents(d', Without(cells, idx)) == Contents(d, cells)[..idx] + Contents(d, cells)[idx + 1..]
  {
    hide SelfContained, Contents, Pointers, Spares, Placed, Chain, Get2, Put2, Without, FreeBytes;
    CountKept(g, d1, d2, d', |cells|, Without(cells, idx), blocks, |cells| - 1);
    SpacedRecount(g, d1, d', |cells|, |cells| - 1, Without(cells, idx), blocks);
    PointersShifted(g, d, d1, d2, d', cells, blocks, idx);
  }

  lemma SparesPointer(g: Geometry, d: seq<Byte>, d': seq<Byte>, used: seq<Span>, nCell: nat, u: nat)
    requires Spares(g, d, d', used, nCell) && u < nCell
    ensures PtrEnd(g, nCell) <= |d| == |d'| && Get2(d', g.cellOffset + 2 * u) == Get2(d, g.cellOffset + 2 * u)
  {
  }

  // A used span keeps its bytes through a change that spares it and one below the content area.
  lemma SparesContent(g: Geometry, d: seq<Byte>, d1: seq<Byte>, d': seq<Byte>, used: seq<Span>, blocks: seq<Span>,
      nCell: nat, j: nat)
    requires Spares(g, d, d1, used, nCell) && Spaced(g, d1, nCell, used, blocks) && Recounted(g, d1, d', Top(g, d1)) &&
      j < |used|
    ensures |d'| == |d| && used[j].End() <= g.usable && Content(d', used[j]) == Content(d, used[j])
  {
    hide Chain;
    CellInside(g, d1, nCell, used, blocks, j);
    ContentSame(d, d1, used[j]);
    ContentSame(d1, d', used[j]);
  }

  // Filling a span in use changes nothing else.
  lemma Filled(g: Geometry, d: seq<Byte>, d': seq<Byte>, nCell: nat, cells: seq<Span>, blocks: seq<Span>, a: Span)
    requires Spaced(g, d, nCell, cells + [a], blocks)
    requires |d'| == |d| && forall k :: 0 <= k < |d| && !(a.start <= k < a.End()) ==> d'[k] == d[k]
    ensures Spaced(g, d', nCell, cells + [a], blocks) &&
      FreeBytes(g, d', nCell, blocks) == FreeBytes(g, d, nCell, blocks)
    ensures Spares(g, d, d', cells, nCell) && d'[g.hdr] == d[g.hdr] && Top(g, d') == Top(g, d) &&
      PtrEnd(g, nCell) <= a.start
  {
    hide Chain;
    var us := cells + [a];
    assert us[|cells|] == a && Inside(a, Top(g, d), g.usable);
    HeadersPlaced(g, us, blocks, Top(g, d), g.usable, |blocks|, 0);
    forall i, k {:trigger blocks[i], d'[k]} | 0 <= i < |blocks| && blocks[i].start <= k < blocks[i].start + 4 && k < |d|
      ensures d'[k] == d[k] {
      assert Apart(us[|cells|], blocks[i]);
    }
    ChainFrame(g, d, d', blocks);
    forall i, k {:trigger cells[i], d'[k]} | 0 <= i < |cells| && cells[i].start <= k < cells[i].End() && k < |d|
      ensures d'[k] == d[k] {
      assert us[i] == cells[i] && Apart(us[i], us[|cells|]);
    }
  }

  lemma MovedApart(us: seq<Span>, cells: seq<Span>, i: nat, a: Span, x: nat, y: nat)
    requires us == cells + [a] && AllApart(us) && i <= |cells| && x < y <= |cells|
    ensures Apart(With(cells, i, a)[x], With(cells, i, a)[y])
  {
    hide With, Apart;
    MovedAt(us, cells, i, a, x);
    MovedAt(us, cells, i, a, y);
    ApartBoth(us, Source(cells, i, x), Source(cells, i, y));
  }

  lemma MovedAt(us: seq<Span>, cells: seq<Span>, i: nat, a: Span, j: nat)
    requires us == cells + [a] && i <= |cells| && j <= |cells|
    ensures With(cells, i, a)[j] == us[Source(cells, i, j)]
  {
    hide With;
    WithAt(cells, i, a, j);
  }

  lemma PlacedMoved(cells: seq<Span>, blocks: seq<Span>, lo: int, hi: int, n: nat, i: nat, a: Span)
    requires Placed(cells + [a], blocks, lo, hi, n) && i <= |cells|
    ensures Placed(With(cells, i, a), blocks, lo, hi, n) && Total(With(cells, i, a)) == Total(cells + [a])
  {
    hide With, Apart, Inside, Source, Ordered, Total;
    var us, ws := cells + [a], With(cells, i, a);
    TotalPush(cells, a);
    TotalWith(cells, i, a);
    forall j | 0 <= j < |ws| ensures Inside(ws[j], lo, hi) && ws[j].size >= 4 {
      MovedAt(us, cells, i, a, j);
      assert Inside(us[Source(cells, i, j)], lo, hi);
    }
    forall x, y {:trigger ws[x], ws[y]} | 0 <= x < y < |ws| ensures Apart(ws[x], ws[y]) {
      MovedApart(us, cells, i, a, x, y);
    }
    forall x, y {:trigger ws[x], blocks[y]} | 0 <= x < |ws| && 0 <= y < |blocks| ensures Apart(ws[x], blocks[y]) {
      MovedAt(us, cells, i, a, x);
      assert Apart(us[Source(cells, i, x)], blocks[y]);
    }
  }

  // Where element j of With(cells, i, a) is in cells + [a].
  function Source(cells: seq<Span>, i: nat, j: nat): (u: nat)
    requires i <= |cells| && j <= |cells|
    ensures u <= |cells|
  {
    if j < i then j else if j == i then |cells| else j - 1
  }

  // From pointer i on every pointer is one place further on.
  ghost predicate PointersMovedUp(g: Geometry, d: seq<Byte>, d': seq<Byte>, nCell: nat, i: nat) {
    && |d'| == |d| && PtrEnd(g, nCell) + 2 <= |d|
    && (forall j :: i <= j < nCell ==> Get2(d', g.cellOffset + 2 * j + 2) == Get2(d, g.cellOffset + 2 * j))
    && forall k :: 0 <= k < |d| && !(g.cellOffset + 2 * i + 2 <= k < PtrEnd(g, nCell) + 2) ==> d'[k] == d[k]
  }

  lemma MovedUp(g: Geometry, d: seq<Byte>, d': seq<Byte>, nCell: nat, i: nat)
    requires |d'| == |d| && PtrEnd(g, nCell) + 2 <= |d|
    requires forall k :: g.cellOffset + 2 * i + 2 <= k < PtrEnd(g, nCell) + 2 ==> d'[k] == d[k - 2]
    requires forall k :: 0 <= k < |d| && !(g.cellOffset + 2 * i + 2 <= k < PtrEnd(g, nCell) + 2) ==> d'[k] == d[k]
    ensures PointersMovedUp(g, d, d', nCell, i)
  {
  }

  lemma InsertedCount(g: Geometry, d1: seq<Byte>, d2: seq<Byte>, d3: seq<Byte>, d4: seq<Byte>, d': seq<Byte>,
      cells: seq<Span>, blocks: seq<Span>, a: Span, i: nat)
    requires SelfContained(g.size) && i <= |cells| && |cells| + 1 < 0x1_0000 && Pointers(g, d1, cells) &&
      Spares(g, d1, d2, cells, |cells|)
    requires Spaced(g, d2, |cells|, cells + [a], blocks) && PtrEnd(g, |cells|) + 2 <= Top(g, d2) && a.start < 0x1_0000
    requires PointersMovedUp(g, d2, d3, |cells|, i)
    requires d4 == Put2(d3, g.cellOffset + 2 * i, a.start) && d' == Put2(d4, g.hdr + 3, |cells| + 1)
    ensures Recounted(g, d2, d', Top(g, d2)) && Get2(d', g.hdr + 3) == |cells| + 1
  {
    hide Placed, Chain, SelfContained, Pointers, Spares;
  }

  lemma InsertedPointer(g: Geometry, d1: seq<Byte>, d2: seq<Byte>, d3: seq<Byte>, d4: seq<Byte>, d': seq<Byte>,
      cells: seq<Span>, blocks: seq<Span>, a: Span, i: nat, j: nat)
    requires SelfContained(g.size) && i <= |cells| && |cells| + 1 < 0x1_0000 && Pointers(g, d1, cells) &&
      Spares(g, d1, d2, cells, |cells|)
    requires Spaced(g, d2, |cells|, cells + [a], blocks) && PtrEnd(g, |cells|) + 2 <= Top(g, d2) && a.start < 0x1_0000
    requires PointersMovedUp(g, d2, d3, |cells|, i)
    requires d4 == Put2(d3, g.cellOffset + 2 * i, a.start) && d' == Put2(d4, g.hdr + 3, |cells| + 1)
    requires j <= |cells|
    ensures PtrEnd(g, |cells| + 1) <= |d'| && Get2(d', g.cellOffset + 2 * j) == With(cells, i, a)[j].start
  {
    hide Placed, Chain, SelfContained, Spares, With, Get2, Put2;
    WithAt(cells, i, a, j);
    SameGet2(d4, d', g.cellOffset + 2 * j);
    if j != i {
      var u := if j < i then j else j - 1;
      SparesPointer(g, d1, d2, cells, |cells|, u);
      assert cells[u].start == Get2(d1, g.cellOffset + 2 * u);
      SameGet2(d3, d4, g.cellOffset + 2 * j);
      if j < i { SameGet2(d2, d3, g.cellOffset + 2 * j); }
      else { assert g.cellOffset + 2 * u + 2 == g.cellOffset + 2 * j; }
    }
  }

  lemma InsertedCell(g: Geometry, d1: seq<Byte>, d2: seq<Byte>, d3: seq<Byte>, d4: seq<Byte>, d': seq<Byte>,
      cells: seq<Span>, blocks: seq<Span>, a: Span, i: nat, j: nat)
    requires SelfContained(g.size) && i <= |cells| && |cells| + 1 < 0x1_0000 && Pointers(g, d1, cells) &&
      Spares(g, d1, d2, cells, |cells|)
    requires Spaced(g, d2, |cells|, cells + [a], blocks) && PtrEnd(g, |cells|) + 2 <= Top(g, d2) && a.start < 0x1_0000
    requires PointersMovedUp(g, d2, d3, |cells|, i)
    requires d4 == Put2(d3, g.cellOffset + 2 * i, a.start) && d' == Put2(d4, g.hdr + 3, |cells| + 1)
    requires j <= |cells| && j != i
    ensures var c := With(cells, i, a)[j];
      && c == cells[if j < i then j else j - 1] && c.End() <= g.usable <= |d'| && Content(d', c) == Content(d1, c)
      && g.size(d'[c.start..g.usable]) == c.size
  {
    hide Placed, Chain, SelfContained, Spares, With, Content;
    var u := if j < i then j else j - 1;
    WithAt(cells, i, a, j);
    InsertedCount(g, d1, d2, d3, d4, d', cells, blocks, a, i);
    assert cells[u].End() <= g.usable;
    assert (cells + [a])[u] == cells[u];
    CellInside(g, d2, |cells|, cells + [a], blocks, u);
    SparedContent(g, d1, d2, cells, |cells|, u);
    ContentSame(d2, d', cells[u]);
    SizeKept(g, d1, d', cells[u], cells[u]);
  }

  lemma SparedContent(g: Geometry, d: seq<Byte>, d': seq<Byte>, used: seq<Span>, nCell: nat, j: nat)
    requires Spares(g, d, d', used, nCell) && j < |used|
    ensures Content(d', used[j]) == Content(d, used[j])
  {
    ContentSame(d, d', used[j]);
  }

  lemma FilledContent(d: seq<Byte>, d': seq<Byte>, a: Span, usable: nat, pCell: seq<Byte>, nSkip: nat)
    requires a.End() <= usable <= |d| == |d'| && a.size <= |pCell| && nSkip <= a.size
    requires forall k :: a.start <= k < a.End() ==> d'[k] == d[k]
    requires forall k :: a.start + nSkip <= k < a.End() ==> d[k] == pCell[k - a.start]
    ensures Content(d', a)[nSkip..] == pCell[nSkip..a.size] &&
      d'[a.start..usable][nSkip..a.size] == pCell[nSkip..a.size]
  {
    SliceOfSlice(d', a.start, usable, nSkip, a.size);
    SliceOfSlice(d', a.start, a.End(), nSkip, a.size);
    assert Content(d', a)[nSkip..] == d'[a.start..a.End()][nSkip..a.size];
    SameSlice(d', a.start + nSkip, pCell, nSkip, a.size - nSkip);
  }

  lemma SliceOfSlice(s: seq<Byte>, lo: nat, hi: nat, a: nat, b: nat)
    requires lo <= hi <= |s| && a <= b <= hi - lo
    ensures s[lo..hi][a..b] == s[lo + a..lo + b]
  {
    var x, y := s[lo..hi][a..b], s[lo + a..lo + b];
    assert |x| == |y| == b - a;
    forall k | 0 <= k < |y| ensures x[k] == y[k] {
      assert x[k] == s[lo..hi][a + k] == s[lo + (a + k)];
    }
  }

  lemma SameSlice(s: seq<Byte>, i: nat, t: seq<Byte>, j: nat, n: nat)
    requires i + n <= |s| && j + n <= |t| && forall k :: i <= k < i + n ==> s[k] == t[k - i + j]
    ensures s[i..i + n] == t[j..j + n]
  {
  }

  lemma LastInside(g: Geometry, d: seq<Byte>, nCell: nat, cells: seq<Span>, blocks: seq<Span>, a: Span)
    requires Spaced(g, d, nCell, cells + [a], blocks)
    ensures Inside(a, Top(g, d), g.usable) && a.size >= 4 && g.usable <= |d| && g.usable < 0x1_0000
  {
    assert (cells + [a])[|cells|] == a;
    CellInside(g, d, nCell, cells + [a], blocks, |cells|);
  }

  lemma InsertedContent(g: Geometry, d1: seq<Byte>, d2: seq<Byte>, d3: seq<Byte>, d4: seq<Byte>, d': seq<Byte>,
      cells: seq<Span>, blocks: seq<Span>, a: Span, i: nat, pCell: seq<Byte>, nSkip: nat)
    requires SelfContained(g.size) && i <= |cells| && |cells| + 1 < 0x1_0000 && Pointers(g, d1, cells) &&
      Spares(g, d1, d2, cells, |cells|)
    requires Spaced(g, d2, |cells|, cells + [a], blocks) && PtrEnd(g, |cells|) + 2 <= Top(g, d2) && a.start < 0x1_0000
    requires PointersMovedUp(g, d2, d3, |cells|, i)
    requires d4 == Put2(d3, g.cellOffset + 2 * i, a.start) && d' == Put2(d4, g.hdr + 3, |cells| + 1)
    requires a.size <= |pCell| && nSkip <= a.size && a.End() <= |d2| && forall k :: a.start + nSkip <= k < a.End() ==>
      d2[k] == pCell[k - a.start]
    requires forall t {:trigger g.size(t)} :: a.size <= |t| && t[nSkip..a.size] == pCell[nSkip..a.size] ==>
      g.size(t) == a.size
    ensures a.End() <= g.usable <= |d'| && Content(d', a)[nSkip..] == pCell[nSkip..a.size] &&
      g.size(d'[a.start..g.usable]) == a.size
  {
    hide Placed, Chain, SelfContained, Spares, Pointers, Content, Get2, Put2, PointersMovedUp;
    InsertedCount(g, d1, d2, d3, d4, d', cells, blocks, a, i);
    LastInside(g, d2, |cells|, cells, blocks, a);
    FilledContent(d2, d', a, g.usable, pCell, nSkip);
  }

  lemma InsertedSpaced(g: Geometry, d1: seq<Byte>, d2: seq<Byte>, d3: seq<Byte>, d4: seq<Byte>, d': seq<Byte>,
      cells: seq<Span>, blocks: seq<Span>, a: Span, i: nat)
    requires SelfContained(g.size) && i <= |cells| && |cells| + 1 < 0x1_0000 && Pointers(g, d1, cells) &&
      Spares(g, d1, d2, cells, |cells|)
    requires Spaced(g, d2, |cells|, cells + [a], blocks) && PtrEnd(g, |cells|) + 2 <= Top(g, d2) && a.start < 0x1_0000
    requires PointersMovedUp(g, d2, d3, |cells|, i)
    requires d4 == Put2(d3, g.cellOffset + 2 * i, a.start) && d' == Put2(d4, g.hdr + 3, |cells| + 1)
    ensures Spaced(g, d', |cells| + 1, With(cells, i, a), blocks) &&
      FreeBytes(g, d', |cells| + 1, blocks) == FreeBytes(g, d2, |cells|, blocks) - 2
  {
    hide Placed, Chain, SelfContained, Spares, With, Content, Get2, Put2, Pointers, PointersMovedUp, Recounted;
    InsertedCount(g, d1, d2, d3, d4, d', cells, blocks, a, i);
    PlacedMoved(cells, blocks, Top(g, d2), g.usable, |blocks|, i, a);
    SpacedRecount(g, d2, d', |cells|, |cells| + 1, With(cells, i, a), blocks);
  }

  // The new pointer array: the new cell is cell i, the others keep their bytes and their order.
  lemma Inserted(g: Geometry, d1: seq<Byte>, d2: seq<Byte>, d3: seq<Byte>, d4: seq<Byte>, d': seq<Byte>,
      cells: seq<Span>, blocks: seq<Span>, a: Span, i: nat, pCell: seq<Byte>, nSkip: nat)
    requires SelfContained(g.size) && i <= |cells| && |cells| + 1 < 0x1_0000 && Pointers(g, d1, cells) &&
      Spares(g, d1, d2, cells, |cells|)
    requires Spaced(g, d2, |cells|, cells + [a], blocks) && PtrEnd(g, |cells|) + 2 <= Top(g, d2) && a.start < 0x1_0000
    requires PointersMovedUp(g, d2, d3, |cells|, i)
    requires d4 == Put2(d3, g.cellOffset + 2 * i, a.start) && d' == Put2(d4, g.hdr + 3, |cells| + 1)
    requires a.size <= |pCell| && nSkip <= a.size && a.End() <= |d2| && forall k :: a.start + nSkip <= k < a.End() ==>
      d2[k] == pCell[k - a.start]
    requires forall t {:trigger g.size(t)} :: a.size <= |t| && t[nSkip..a.size] == pCell[nSkip..a.size] ==>
      g.size(t) == a.size
    ensures Pointers(g, d', With(cells, i, a)) &&
      GotCell(Contents(d1, cells), Contents(d', With(cells, i, a)), i, pCell, a.size, nSkip)
  {
    hide Placed, Chain, SelfContained, Spares, With, Content, Get2, Put2, Spaced, PointersMovedUp;
    InsertedContent(g, d1, d2, d3, d4, d', cells, blocks, a, i, pCell, nSkip);
    WithAt(cells, i, a, i);
    var ws := With(cells, i, a);
    forall j {:trigger ws[j]} | 0 <= j < |ws|
      ensures PtrEnd(g, |ws|) <= |d'| && g.usable <= |d'| && ws[j].End() <= g.usable
      ensures Get2(d', g.cellOffset + 2 * j) == ws[j].start && g.size(d'[ws[j].start..g.usable]) == ws[j].size
      ensures j != i ==> Content(d', ws[j]) == Content(d1, cells[if j < i then j else j - 1])
    {
      InsertedPointer(g, d1, d2, d3, d4, d', cells, blocks, a, i, j);
      if j != i { InsertedCell(g, d1, d2, d3, d4, d', cells, blocks, a, i, j); }
    }
  }

  lemma FilledTop(g: Geometry, d: seq<Byte>, d': seq<Byte>, nCell: nat, cells: seq<Span>, blocks: seq<Span>, a: Span)
    requires Spaced(g, d, nCell, cells + [a], blocks)
    requires |d'| == |d| && forall k :: 0 <= k < |d| && !(a.start <= k < a.End()) ==> d'[k] == d[k]
    ensures Top(g, d') == Top(g, d) && PtrEnd(g, nCell) <= a.start && Top(g, d) <= a.start
  {
    hide Placed, Chain;
    Filled(g, d, d', nCell, cells, blocks, a);
    LastInside(g, d, nCell, cells, blocks, a);
  }

  // Allocated, filled and pointed to: the page has one cell more.
  lemma NewCell(g: Geometry, d1: seq<Byte>, d2: seq<Byte>, d3: seq<Byte>, d4: seq<Byte>, d': seq<Byte>,
      cells: seq<Span>, blocks: seq<Span>, a: Span, i: nat, pCell: seq<Byte>, nSkip: nat)
    requires SelfContained(g.size) && i <= |cells| && |cells| + 1 < 0x1_0000 && Pointers(g, d1, cells) &&
      a.start < 0x1_0000
    requires Spaced(g, d1, |cells|, cells + [a], blocks) && PtrEnd(g, |cells|) + 2 <= Top(g, d1) && a.End() <= |d1|
    requires |d2| == |d1| && forall k :: 0 <= k < |d1| && !(a.start <= k < a.End()) ==> d2[k] == d1[k]
    requires PointersMovedUp(g, d2, d3, |cells|, i)
    requires d4 == Put2(d3, g.cellOffset + 2 * i, a.start) && d' == Put2(d4, g.hdr + 3, |cells| + 1)
    requires a.size <= |pCell| && nSkip <= a.size && forall k :: a.start + nSkip <= k < a.End() ==>
      d2[k] == pCell[k - a.start]
    requires forall t {:trigger g.size(t)} :: a.size <= |t| && t[nSkip..a.size] == pCell[nSkip..a.size] ==>
      g.size(t) == a.size
    ensures Spaced(g, d', |cells| + 1, With(cells, i, a), blocks) &&
      FreeBytes(g, d', |cells| + 1, blocks) == FreeBytes(g, d1, |cells|, blocks) - 2
    ensures Pointers(g, d', With(cells, i, a)) &&
      GotCell(Contents(d1, cells), Contents(d', With(cells, i, a)), i, pCell, a.size, nSkip)
  {
    hide Placed, Chain, SelfContained, Contents, Content, Spares, FreeBytes, With, Get2, Put2, Pointers,
      PointersMovedUp, GotCell;
    Filled(g, d1, d2, |cells|, cells, blocks, a);
    InsertedSpaced(g, d1, d2, d3, d4, d', cells, blocks, a, i);
    Inserted(g, d1, d2, d3, d4, d', cells, blocks, a, i, pCell, nSkip);
  }

  lemma {:induction false} Overflowed(cs: seq<seq<Byte>>, ovfl: seq<OvflCell>, pCell: seq<Byte>, i: nat, sz: nat,
      nSkip: nat)
    requires InOrder(ovfl, |cs|) && i <= |cs| + |ovfl| && nSkip <= sz <= |pCell|
    ensures var o := OvflCell(pCell[..sz], i);
      InOrder(ovfl + [o], |cs|) && GotCell(WithOverflow(cs, ovfl), WithOverflow(cs, ovfl + [o]), i, pCell, sz, nSkip)
  {
    hide GotCell, InsertAt;
    var o := OvflCell(pCell[..sz], i);
    assert (ovfl + [o])[..|ovfl|] == ovfl;
    InsertGotCell(WithOverflow(cs, ovfl), i, pCell, sz, nSkip);
  }

  lemma InsertGotCell(xs: seq<seq<Byte>>, i: nat, pCell: seq<Byte>, sz: nat, nSkip: nat)
    requires i <= |xs| && nSkip <= sz <= |pCell|
    ensures GotCell(xs, InsertAt(xs, i, pCell[..sz]), i, pCell, sz, nSkip)
  {
    var ys := InsertAt(xs, i, pCell[..sz]);
    forall k | 0 <= k < |ys| ensures ys[k] == if k < i then xs[k] else if k == i then pCell[..sz] else xs[k - 1] {
      InsertedAt(xs, i, pCell[..sz], k);
    }
    assert pCell[..sz][nSkip..] == pCell[nSkip..sz];
  }

  lemma SizeRead(g: Geometry, d: seq<Byte>, cells: seq<Span>, k: nat)
    requires Pointers(g, d, cells) && k < |cells|
    ensures cells[k].End() <= g.usable <= |d| && g.size(d[cells[k].start..g.usable]) == cells[k].size
    ensures Contents(d, cells)[k] == d[cells[k].start..cells[k].End()]
  {
    assert cells[k].End() <= g.usable;
  }

  lemma NoOverflow(cs: seq<seq<Byte>>)
    ensures InOrder([], |cs|) && WithOverflow(cs, []) == cs
  {
  }

  lemma AddrBelow(g: Geometry, used: seq<Span>, blocks: seq<Span>, lo: int, hi: int, n: nat, k: nat, i: nat)
    requires Placed(used, blocks, lo, hi, n) && k < |used| && i <= |blocks| && g.hdr + 8 <= lo
    requires forall j :: 0 <= j < |blocks| ==> (blocks[j].start < used[k].start <==> j < i)
    ensures Addr(g, blocks, i) + 4 <= used[k].start
  {
    assert i > 0 ==> Apart(used[k], blocks[i - 1]);
  }

  lemma LinkedBytes(g: Geometry, d: seq<Byte>, d': seq<Byte>, used: seq<Span>, blocks: seq<Span>, i: nat, a: Span)
    requires i <= |blocks| && a.start + 3 < |d| && a.start < 0x1_0000 && a.size < 0x1_0000 &&
      StartOf(blocks, i) < 0x1_0000
    requires Addr(g, blocks, i) + 4 <= a.start
    requires d' == Put2(Put2(Put2(d, Addr(g, blocks, i), a.start), a.start, StartOf(blocks, i)), a.start + 2, a.size)
    ensures LinkedIn(g, d, d', blocks, i, a)
  {
  }

  lemma SparesFreed(g: Geometry, d: seq<Byte>, d': seq<Byte>, nCell: nat, used: seq<Span>, blocks: seq<Span>,
      k: nat, i: nat)
    requires Spaced(g, d, nCell, used, blocks) && k < |used| && i <= |blocks| && LinkedIn(g, d, d', blocks, i, used[k])
    ensures Spares(g, d, d', Without(used, k), nCell) && d'[g.hdr] == d[g.hdr]
  {
    hide Chain;
    var us := Without(used, k);
    assert Inside(used[k], Top(g, d), g.usable) && used[k].size >= 4;
    assert i > 0 ==> Inside(blocks[i - 1], Top(g, d), g.usable) && blocks[i - 1].size >= 4;
    forall j, b {:trigger us[j], d'[b]} | 0 <= j < |us| && us[j].start <= b < us[j].End() && b < |d|
      ensures d'[b] == d[b] {
      var u := if j < k then j else j + 1;
      WithoutAt(used, k, j);
      assert if u < k then Apart(used[u], used[k]) else Apart(used[k], used[u]);
      assert i > 0 ==> Apart(used[u], blocks[i - 1]);
    }
  }

  // What the bytes of block k say.
  lemma AtBlock(g: Geometry, d: seq<Byte>, used: seq<Span>, blocks: seq<Span>, n: nat, k: nat)
    requires Tiled(g, d, used, blocks, n) && (k < |blocks| || StartOf(blocks, k) > 0)
    ensures k < |blocks| && blocks[k].start + 3 < |d| && blocks[k].start > g.hdr + 7 && blocks[k].End() <= g.usable
    ensures Get2(d, blocks[k].start) == StartOf(blocks, k + 1) && Get2(d, blocks[k].start + 2) == blocks[k].size
  {
    assert Block(d, blocks[k]);
    assert Link(g, d, blocks, k + 1);
    assert Inside(blocks[k], Top(g, d), g.usable);
  }

  lemma JoinedBytes(g: Geometry, d: seq<Byte>, d1: seq<Byte>, d': seq<Byte>, blocks: seq<Span>, j: nat, m: Span,
      frag: nat)
    requires j + 1 < |blocks| && g.hdr + 7 < m.start == blocks[j].start && m.start + 3 < |d| && frag <= d[g.hdr + 7]
    requires m.size < 0x1_0000 && StartOf(blocks, j + 2) < 0x1_0000 && d1 == d[g.hdr + 7 := d[g.hdr + 7] - frag]
    requires d' == Put2(Put2(d1, m.start, StartOf(blocks, j + 2)), m.start + 2, m.size)
    ensures Joined(g, d, d', blocks, j, m) && d'[g.hdr + 7] == d[g.hdr + 7] - frag
    ensures forall k :: 0 <= k < |d| && !(g.hdr < k < g.hdr + 8) && !(m.start <= k < m.start + 4) ==> d'[k] == d[k]
  {
  }

  lemma WholeTaken(g: Geometry, d: seq<Byte>, d': seq<Byte>, nCell: nat, used: seq<Span>, blocks: seq<Span>, i: nat,
      nByte: nat)
    requires Spaced(g, d, nCell, used, blocks) && i < |blocks| && Addr(g, blocks, i) + 1 < |d| &&
      (i == 0 || Addr(g, blocks, i) >= Top(g, d))
    requires 4 <= nByte <= blocks[i].size < nByte + 4 && d[g.hdr + 7] < 60 && StartOf(blocks, i + 1) < 0x1_0000
    requires d' == Put2(d, Addr(g, blocks, i),
      StartOf(blocks, i + 1))[g.hdr + 7 := d[g.hdr + 7] + blocks[i].size - nByte]
    ensures Spaced(g, d', nCell, used + [Span(blocks[i].start, nByte)], Without(blocks, i)) && Top(g, d') == Top(g, d)
    ensures FreeBytes(g, d', nCell, Without(blocks, i)) == FreeBytes(g, d, nCell, blocks) - nByte &&
      Spares(g, d, d', used, nCell)
  {
    hide Placed, Chain, Get2, Without, FreeBytes;
    TookWhole(g, d, d', nCell, used, blocks, i, nByte);
    SameGet2(d, d', g.hdr + 5);
    SparesBlock(g, d, d', nCell, used, blocks, |blocks|, if i == 0 then |blocks| else i - 1);
  }

  // The first two bytes of a freeblock are the offset of the next one.
  lemma NextKept(g: Geometry, d: seq<Byte>, blocks: seq<Span>, i: nat)
    requires Chain(g, d, blocks) && i < |blocks|
    ensures blocks[i].start + 3 < |d| && Get2(d, blocks[i].start) == StartOf(blocks, i + 1)
  {
    assert Link(g, d, blocks, i + 1);
    assert Block(d, blocks[i]);
  }

  lemma SameBytes(d: seq<Byte>, d': seq<Byte>, at: nat, pc: nat, c: nat, v: nat, f: int)
    requires at + 1 < |d| && pc + 1 < |d| && c < |d| && 0 <= f < 256 && v < 0x1_0000 && Get2(d, pc) == v
    requires d' == d[at := d[pc]][at + 1 := d[pc + 1]][c := f]
    ensures d' == Put2(d, at, v)[c := f]
  {
  }

  lemma MoveNext(g: Geometry, d0: seq<Byte>, d: seq<Byte>, d1: seq<Byte>, d': seq<Byte>, cells: seq<Span>,
      moved: seq<Span>, brk: int, brk': nat)
    requires Moving(g, d0, d, cells, moved, brk) && |moved| < |cells| && cells[|moved|].End() <= |d0| && brk < 0x1_0000
    requires brk' + cells[|moved|].size == brk && PtrEnd(g, |cells|) <= brk' && brk <= |d|
    requires d1 == d[..brk'] + Content(d0, cells[|moved|]) + d[brk..] &&
      d' == Put2(d1, g.cellOffset + 2 * |moved|, brk')
    ensures Moving(g, d0, d', cells, moved + [Span(brk', cells[|moved|].size)], brk')
  {
    hide Moving, Content, Put2, Copied;
    assert |Content(d0, cells[|moved|])| == cells[|moved|].size;
    CopyAndPut(g, d, d1, d', Content(d0, cells[|moved|]), brk', |moved|);
    MoveOne(g, d0, d, d', cells, moved, brk, brk');
  }

  lemma MovingRoom(g: Geometry, d0: seq<Byte>, d: seq<Byte>, cells: seq<Span>, moved: seq<Span>, brk: int)
    requires Moving(g, d0, d, cells, moved, brk)
    ensures PtrEnd(g, |cells|) <= brk <= g.usable
  {
  }

  lemma SavedContent(g: Geometry, d0: seq<Byte>, temp: seq<Byte>, pc: nat, size: nat, c: Span)
    requires c == Span(pc, size) && c.End() <= g.usable <= |d0| == |temp| && temp[pc..g.usable] == d0[pc..g.usable]
    ensures temp[pc..pc + size] == Content(d0, c) && |Content(d0, c)| == size
  {
    SliceOfSlice(temp, pc, g.usable, 0, size);
    SliceOfSlice(d0, pc, g.usable, 0, size);
  }

  // The next cell to move.
  lemma StillThere(g: Geometry, d0: seq<Byte>, d: seq<Byte>, nCell: nat, cells: seq<Span>, blocks: seq<Span>,
      moved: seq<Span>, brk: int, i: nat)
    requires Spaced(g, d0, nCell, cells, blocks) && Pointers(g, d0, cells) && nCell == |cells| && i < |cells| &&
      |moved| == i
    requires Moving(g, d0, d, cells, moved, brk)
    ensures Inside(cells[i], Top(g, d0), g.usable) && cells[i].size >= 4 &&
      g.size(d0[cells[i].start..g.usable]) == cells[i].size
    ensures |d| == |d0| && PtrEnd(g, nCell) <= brk <= g.usable && Get2(d, g.cellOffset + 2 * i) == cells[i].start
    ensures PtrEnd(g, nCell) + Total(cells) <= g.usable
  {
    hide Placed, Chain, MovedTo, Content;
    CellInside(g, d0, nCell, cells, blocks, i);
    CellsFit(g, d0, nCell, cells, blocks);
    assert Waiting(g, d, cells, i);
  }

  lemma CellsFit(g: Geometry, d: seq<Byte>, nCell: nat, cells: seq<Span>, blocks: seq<Span>)
    requires Spaced(g, d, nCell, cells, blocks) && nCell == |cells| && Pointers(g, d, cells)
    ensures PtrEnd(g, nCell) + Total(cells) <= g.usable
    ensures Moving(g, d, d, cells, [], g.usable)
  {
  }

  lemma CellInside(g: Geometry, d: seq<Byte>, nCell: nat, cells: seq<Span>, blocks: seq<Span>, i: nat)
    requires Spaced(g, d, nCell, cells, blocks) && i < |cells|
    ensures Inside(cells[i], Top(g, d), g.usable) && cells[i].size >= 4
  {
  }
}
