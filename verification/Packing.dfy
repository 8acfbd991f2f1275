// How balance_nonroot distributes cells over sibling pages (src/db_sqlite/btree.c:4664-4709): a
// greedy pass from the left, then a pass from the right that evens out neighbouring pages.
module Packing {

  // Bytes that cells lo..hi take on a page, with their pointers.
  function Load(sz: seq<nat>, lo: nat, hi: nat): (r: nat)
    requires lo <= hi <= |sz|
    ensures lo < hi ==> r > 0
    decreases hi - lo
  {
    if lo == hi then 0 else Load(sz, lo, hi - 1) + sz[hi - 1] + 2
  }

  lemma {:induction false} LoadSplit(sz: seq<nat>, lo: nat, mid: nat, hi: nat)
    requires lo <= mid <= hi <= |sz|
    ensures Load(sz, lo, hi) == Load(sz, lo, mid) + Load(sz, mid, hi)
    decreases hi - mid
  {
    if mid < hi {
      LoadSplit(sz, lo, mid, hi - 1);
    }
  }

  lemma LoadFirst(sz: seq<nat>, lo: nat, hi: nat)
    requires lo < hi <= |sz|
    ensures Load(sz, lo, hi) == sz[lo] + 2 + Load(sz, lo + 1, hi)
  {
    LoadSplit(sz, lo, lo + 1, hi);
    assert Load(sz, lo, lo + 1) == sz[lo] + 2;
  }

  // The cell after page i divides it from page i + 1, except in leaf-data trees, where it starts page i + 1.
  function Start(cnt: seq<nat>, i: nat, leafData: bool): nat
    requires i <= |cnt|
  {
    if i == 0 then 0 else if leafData then cnt[i - 1] else cnt[i - 1] + 1
  }

  // Page i holds cells Start(i) .. cnt[i].
  ghost predicate PageOK(sz: seq<nat>, cnt: seq<nat>, i: nat, leafData: bool, usableSpace: nat) {
    && i < |cnt| && Start(cnt, i, leafData) < cnt[i] <= |sz|
    && Load(sz, Start(cnt, i, leafData), cnt[i]) <= usableSpace
  }

  ghost predicate Packed(sz: seq<nat>, cnt: seq<nat>, leafData: bool, usableSpace: nat) {
    && cnt != [] && cnt[|cnt| - 1] == |sz|
    && forall i {:trigger PageOK(sz, cnt, i, leafData, usableSpace)} :: 0 <= i < |cnt| ==>
      PageOK(sz, cnt, i, leafData, usableSpace)
  }

  // What the packing relies on: in leaf-data trees a page holds any single cell, in the others any two.
  ghost predicate CellsFit(sz: seq<nat>, leafData: bool, usableSpace: nat) {
    forall j :: 0 <= j < |sz| ==> (if leafData then sz[j] + 2 else 2 * (sz[j] + 2)) <= usableSpace
  }

  // szNew counts 2 bytes too many on every page but the last.
  ghost predicate Counted(sz: seq<nat>, cnt: seq<nat>, szNew: seq<nat>, i: nat, leafData: bool) {
    && i < |cnt| == |szNew| && Start(cnt, i, leafData) <= cnt[i] <= |sz|
    && szNew[i] == Load(sz, Start(cnt, i, leafData), cnt[i]) + if i < |cnt| - 1 then 2 else 0
  }

  // The greedy pass: every page but the last is so full that the next cell does not fit; only the
  // last one can be empty, and only where cells between pages are dividers.
  ghost predicate Greedy(sz: seq<nat>, cnt: seq<nat>, szNew: seq<nat>, leafData: bool, usableSpace: nat) {
    && cnt != [] && cnt[|cnt| - 1] == |sz| && |szNew| == |cnt|
    && (forall i {:trigger Counted(sz, cnt, szNew, i, leafData)} :: 0 <= i < |cnt| ==>
      Counted(sz, cnt, szNew, i, leafData))
    && (forall i {:trigger Full(sz, cnt, i, leafData, usableSpace)} :: 0 <= i < |cnt| - 1 ==>
      Full(sz, cnt, i, leafData, usableSpace))
    && szNew[|cnt| - 1] <= usableSpace && (szNew[|cnt| - 1] == 0 ==> !leafData && |cnt| > 1)
  }

  ghost predicate Full(sz: seq<nat>, cnt: seq<nat>, i: nat, leafData: bool, usableSpace: nat) {
    && i < |cnt| && Start(cnt, i, leafData) < cnt[i] < |sz|
    && Load(sz, Start(cnt, i, leafData), cnt[i]) <= usableSpace
    && usableSpace < Load(sz, Start(cnt, i, leafData), cnt[i]) + sz[cnt[i]] + 2
  }

  // Page j was closed because cell cnt[j] did not fit.
  ghost predicate Closed(sz: seq<nat>, cnt: seq<nat>, szNew: seq<nat>, j: nat, leafData: bool, usableSpace: nat) {
    Full(sz, cnt, j, leafData, usableSpace) && j < |szNew| && szNew[j] == Load(sz, Start(cnt, j, leafData), cnt[j]) + 2
  }

  lemma ClosedStays(sz: seq<nat>, cnt: seq<nat>, szNew: seq<nat>, cnt': seq<nat>, szNew': seq<nat>, j: nat,
      leafData: bool, usableSpace: nat)
    requires Closed(sz, cnt, szNew, j, leafData, usableSpace) && cnt <= cnt' && szNew <= szNew'
    ensures Closed(sz, cnt', szNew', j, leafData, usableSpace)
  {
    assert Start(cnt', j, leafData) == Start(cnt, j, leafData);
  }

  method PackGreedily(sz: seq<nat>, leafData: bool, usableSpace: nat) returns (cnt: seq<nat>, szNew: seq<nat>)
    requires sz != [] && CellsFit(sz, leafData, usableSpace)
    ensures Greedy(sz, cnt, szNew, leafData, usableSpace)
  {
    hide Closed, Full;
    cnt, szNew := [], [];
    var subtotal, i: int := 0, 0;
    while i < |sz|
      invariant 0 <= i <= |sz| && |szNew| == |cnt| && Start(cnt, |cnt|, leafData) <= i
      invariant subtotal == Load(sz, Start(cnt, |cnt|, leafData), i) && subtotal <= usableSpace
      invariant forall j {:trigger Closed(sz, cnt, szNew, j, leafData, usableSpace)} :: 0 <= j < |cnt| ==>
        Closed(sz, cnt, szNew, j, leafData, usableSpace)
      invariant subtotal == 0 ==> i == 0 || !leafData || i < |sz|
      invariant subtotal == 0 && i > 0 ==> cnt != []
      decreases |sz| - i, subtotal
    {
      subtotal := subtotal + sz[i] + 2;
      if subtotal > usableSpace {
        ghost var cnt0, szNew0 := cnt, szNew;
        szNew := szNew + [subtotal - sz[i]];
        cnt := cnt + [i];
        forall j | 0 <= j < |cnt| ensures Closed(sz, cnt, szNew, j, leafData, usableSpace) {
          if j < |cnt0| {
            assert Closed(sz, cnt0, szNew0, j, leafData, usableSpace);
            ClosedStays(sz, cnt0, szNew0, cnt, szNew, j, leafData, usableSpace);
          } else {
            JustClosed(sz, cnt0, szNew0, i, subtotal, leafData, usableSpace);
          }
        }
        if leafData {
          i := i - 1;
        }
        subtotal := 0;
      }
      i := i + 1;
    }
    ghost var cnt0, szNew0 := cnt, szNew;
    szNew := szNew + [subtotal];
    cnt := cnt + [|sz|];
    forall j | 0 <= j < |cnt0| ensures Closed(sz, cnt, szNew, j, leafData, usableSpace) {
      assert Closed(sz, cnt0, szNew0, j, leafData, usableSpace);
      ClosedStays(sz, cnt0, szNew0, cnt, szNew, j, leafData, usableSpace);
    }
    GreedyDone(sz, cnt, szNew, leafData, usableSpace);
  }

  lemma JustClosed(sz: seq<nat>, cnt: seq<nat>, szNew: seq<nat>, i: nat, subtotal: nat, leafData: bool,
      usableSpace: nat)
    requires |szNew| == |cnt| && Start(cnt, |cnt|, leafData) <= i < |sz| && sz[i] + 2 <= usableSpace < subtotal
    requires subtotal == Load(sz, Start(cnt, |cnt|, leafData), i) + sz[i] + 2 && subtotal - sz[i] - 2 <= usableSpace
    ensures Closed(sz, cnt + [i], szNew + [subtotal - sz[i]], |cnt|, leafData, usableSpace)
  {
    assert Start(cnt + [i], |cnt|, leafData) == Start(cnt, |cnt|, leafData);
  }

  lemma GreedyDone(sz: seq<nat>, cnt: seq<nat>, szNew: seq<nat>, leafData: bool, usableSpace: nat)
    requires cnt != [] && cnt[|cnt| - 1] == |sz| && |szNew| == |cnt| && Start(cnt, |cnt| - 1, leafData) <= |sz|
    requires forall j :: 0 <= j < |cnt| - 1 ==> Closed(sz, cnt, szNew, j, leafData, usableSpace)
    requires szNew[|cnt| - 1] == Load(sz, Start(cnt, |cnt| - 1, leafData), |sz|) <= usableSpace
    requires szNew[|cnt| - 1] == 0 ==> !leafData && |cnt| > 1
    ensures Greedy(sz, cnt, szNew, leafData, usableSpace)
  {
    forall j | 0 <= j < |cnt| ensures Counted(sz, cnt, szNew, j, leafData) {
      if j < |cnt| - 1 { assert Closed(sz, cnt, szNew, j, leafData, usableSpace); }
    }
    forall j | 0 <= j < |cnt| - 1 ensures Full(sz, cnt, j, leafData, usableSpace) {
      assert Closed(sz, cnt, szNew, j, leafData, usableSpace);
    }
  }

  // ----- The pass from the right.

  // Pages after i are final; page i is counted, fits and is not empty, unless it is the last one
  // and still as the greedy pass left it; pages before i are as the greedy pass left them.
  ghost predicate Halfway(sz: seq<nat>, cnt: seq<nat>, szNew: seq<nat>, i: nat, leafData: bool, usableSpace: nat) {
    && i < |cnt| == |szNew| && cnt[|cnt| - 1] == |sz|
    && (forall j {:trigger PageOK(sz, cnt, j, leafData, usableSpace)} :: i < j < |cnt| ==>
      PageOK(sz, cnt, j, leafData, usableSpace))
    && (forall j {:trigger Full(sz, cnt, j, leafData, usableSpace)} :: 0 <= j < i ==>
      Full(sz, cnt, j, leafData, usableSpace))
    && (forall j {:trigger Counted(sz, cnt, szNew, j, leafData)} :: 0 <= j <= i ==>
      Counted(sz, cnt, szNew, j, leafData))
    && (PageOK(sz, cnt, i, leafData, usableSpace) || (i == |cnt| - 1 && szNew[i] == 0 && !leafData && i > 0))
  }

  lemma GreedyHalfway(sz: seq<nat>, cnt: seq<nat>, szNew: seq<nat>, leafData: bool, usableSpace: nat)
    requires Greedy(sz, cnt, szNew, leafData, usableSpace)
    ensures cnt != [] && Halfway(sz, cnt, szNew, |cnt| - 1, leafData, usableSpace)
  {
    assert Counted(sz, cnt, szNew, |cnt| - 1, leafData);
  }

  // The boundary before page i: r is the last cell of page i - 1, d the cell that page i would gain.
  method EvenPair(sz: seq<nat>, cnt0: seq<nat>, szNew0: seq<nat>, i: nat, leafData: bool, usableSpace: nat)
      returns (cnt: seq<nat>, szNew: seq<nat>)
    requires Halfway(sz, cnt0, szNew0, i, leafData, usableSpace) && i > 0 && CellsFit(sz, leafData, usableSpace)
    ensures Halfway(sz, cnt, szNew, i - 1, leafData, usableSpace) && |cnt| == |cnt0|
  {
    hide Halfway, Load, CellsFit;
    PairBefore(sz, cnt0, szNew0, i, leafData, usableSpace);
    ghost var lo := Start(cnt0, i - 1, leafData);
    cnt := cnt0;
    var szRight: int, szLeft: int := szNew0[i], szNew0[i - 1];
    var r: int := cnt[i - 1] - 1;
    var d: int := if leafData then r else r + 1;
    while szRight == 0 || szRight + sz[d] + 2 <= szLeft - (sz[r] + 2)
      invariant |cnt| == |cnt0| && cnt == cnt0[i - 1 := cnt[i - 1]] && 0 < cnt[i - 1] <= cnt0[i - 1]
      invariant r == cnt[i - 1] - 1 && d == (if leafData then r else r + 1)
      invariant lo < cnt[i - 1] && szLeft == Load(sz, lo, cnt[i - 1]) + 2
      invariant Start(cnt, i, leafData) <= cnt[i] &&
        szRight == Load(sz, Start(cnt, i, leafData), cnt[i]) + if i < |cnt| - 1 then 2 else 0
      invariant Load(sz, lo, cnt[i - 1]) <= usableSpace && Load(sz, Start(cnt, i, leafData), cnt[i]) <= usableSpace
      invariant szRight == 0 ==> cnt == cnt0
      invariant szRight > 0 ==> Start(cnt, i, leafData) < cnt[i]
      decreases r
    {
      MoveLast(sz, lo, cnt[i - 1], cnt[i], leafData, usableSpace, szLeft, szRight, i < |cnt| - 1);
      szRight := szRight + sz[d] + 2;
      szLeft := szLeft - (sz[r] + 2);
      cnt := cnt[i - 1 := cnt[i - 1] - 1];
      r := cnt[i - 1] - 1;
      d := if leafData then r else r + 1;
    }
    szNew := szNew0[i := szRight][i - 1 := szLeft];
    PairAfter(sz, cnt0, szNew0, cnt, szNew, i, leafData, usableSpace);
  }

  // Moving the last cell of the left page: both pages keep their counts, the left one keeps a cell,
  // and the right one still fits.
  lemma MoveLast(sz: seq<nat>, lo: nat, b: nat, hi: nat, leafData: bool, usableSpace: nat, szLeft: int, szRight: int,
      more: bool)
    requires CellsFit(sz, leafData, usableSpace) && lo < b < |sz| && hi <= |sz| && szLeft == Load(sz, lo, b) + 2 &&
      Load(sz, lo, b) <= usableSpace
    requires var start := if leafData then b else b + 1;
      start <= hi && szRight == Load(sz, start, hi) + if more then 2 else 0
    requires var d := if leafData then b - 1 else b;
      if szRight == 0 then !leafData && Load(sz, lo, b) + sz[b] + 2 > usableSpace
      else szRight + sz[d] + 2 <= szLeft - (sz[b - 1] + 2)
    ensures var d := if leafData then b - 1 else b;
      && d < hi && lo < b - 1 && szLeft - (sz[b - 1] + 2) == Load(sz, lo, b - 1) + 2 &&
        Load(sz, lo, b - 1) <= usableSpace
      && szRight + sz[d] + 2 == Load(sz, d, hi) + (if more then 2 else 0) && Load(sz, d, hi) <= usableSpace
  {
    var d := if leafData then b - 1 else b;
    LoadFirst(sz, d, hi);
    assert Load(sz, lo, b) == Load(sz, lo, b - 1) + sz[b - 1] + 2;
    assert Load(sz, lo, lo) == 0;
  }

  lemma PairBefore(sz: seq<nat>, cnt: seq<nat>, szNew: seq<nat>, i: nat, leafData: bool, usableSpace: nat)
    requires Halfway(sz, cnt, szNew, i, leafData, usableSpace) && i > 0
    ensures i < |cnt| == |szNew| && Full(sz, cnt, i - 1, leafData, usableSpace) &&
      Counted(sz, cnt, szNew, i - 1, leafData) && Counted(sz, cnt, szNew, i, leafData)
    ensures PageOK(sz, cnt, i, leafData, usableSpace) || (i == |cnt| - 1 && szNew[i] == 0 && !leafData)
  {
  }

  lemma PairAfter(sz: seq<nat>, cnt0: seq<nat>, szNew0: seq<nat>, cnt: seq<nat>, szNew: seq<nat>, i: nat,
      leafData: bool, usableSpace: nat)
    requires Halfway(sz, cnt0, szNew0, i, leafData, usableSpace) && i > 0 && |cnt| == |cnt0| == |szNew|
    requires cnt == cnt0[i - 1 := cnt[i - 1]] && PageOK(sz, cnt, i, leafData, usableSpace) &&
      PageOK(sz, cnt, i - 1, leafData, usableSpace)
    requires szNew == szNew0[i := szNew[i]][i - 1 := szNew[i - 1]] && Counted(sz, cnt, szNew, i - 1, leafData)
    ensures Halfway(sz, cnt, szNew, i - 1, leafData, usableSpace)
  {
    forall j | i - 1 < j < |cnt| ensures PageOK(sz, cnt, j, leafData, usableSpace) {
      if j > i { assert PageOK(sz, cnt0, j, leafData, usableSpace); }
    }
    forall j | 0 <= j < i - 1 ensures Full(sz, cnt, j, leafData, usableSpace) && Counted(sz, cnt, szNew, j, leafData) {
      assert Full(sz, cnt0, j, leafData, usableSpace) && Counted(sz, cnt0, szNew0, j, leafData);
    }
  }

  // Both passes: the split points ascend strictly and end at the last cell, and every page holds at
  // least one cell and no more than fits.
  method Pack(sz: seq<nat>, leafData: bool, usableSpace: nat) returns (cnt: seq<nat>)
    requires sz != [] && CellsFit(sz, leafData, usableSpace)
    ensures Packed(sz, cnt, leafData, usableSpace)
    ensures forall i, j :: 0 <= i < j < |cnt| ==> cnt[i] < cnt[j]
  {
    hide Greedy, Halfway;
    var szNew;
    cnt, szNew := PackGreedily(sz, leafData, usableSpace);
    GreedyHalfway(sz, cnt, szNew, leafData, usableSpace);
    var i := |cnt| - 1;
    while i > 0
      invariant 0 <= i < |cnt| && Halfway(sz, cnt, szNew, i, leafData, usableSpace)
    {
      cnt, szNew := EvenPair(sz, cnt, szNew, i, leafData, usableSpace);
      i := i - 1;
    }
    HalfwayDone(sz, cnt, szNew, leafData, usableSpace);
    Ascending(sz, cnt, leafData, usableSpace);
  }

  lemma HalfwayDone(sz: seq<nat>, cnt: seq<nat>, szNew: seq<nat>, leafData: bool, usableSpace: nat)
    requires Halfway(sz, cnt, szNew, 0, leafData, usableSpace)
    ensures Packed(sz, cnt, leafData, usableSpace)
  {
  }

  lemma Ascending(sz: seq<nat>, cnt: seq<nat>, leafData: bool, usableSpace: nat)
    requires Packed(sz, cnt, leafData, usableSpace)
    ensures forall i, j :: 0 <= i < j < |cnt| ==> cnt[i] < cnt[j]
  {
    forall i, j | 0 <= i < j < |cnt| ensures cnt[i] < cnt[j] { AscendingPair(sz, cnt, leafData, usableSpace, i, j); }
  }

  lemma {:induction false} AscendingPair(sz: seq<nat>, cnt: seq<nat>, leafData: bool, usableSpace: nat, i: nat, j: nat)
    requires Packed(sz, cnt, leafData, usableSpace) && i < j < |cnt|
    ensures cnt[i] < cnt[j]
    decreases j - i
  {
    assert PageOK(sz, cnt, j, leafData, usableSpace);
    if i < j - 1 {
      AscendingPair(sz, cnt, leafData, usableSpace, i, j - 1);
    }
  }

  // In an index tree the bound is sharp: two cells that do not fit on one page cannot be packed at all,
  // since one of them would have to divide a page from an empty one.
  lemma TwoCellsMustFit(size: nat, usableSpace: nat, cnt: seq<nat>)
    requires 2 * (size + 2) > usableSpace
    ensures !CellsFit([size, size], false, usableSpace) && !Packed([size, size], cnt, false, usableSpace)
  {
    var sz := [size, size];
    assert sz[0] == size && Load(sz, 0, 1) == size + 2 && Load(sz, 0, 2) == 2 * (size + 2);
    assert Packed(sz, cnt, false, usableSpace) ==>
      PageOK(sz, cnt, 0, false, usableSpace) && PageOK(sz, cnt, |cnt| - 1, false, usableSpace);
    assert Packed(sz, cnt, false, usableSpace) && |cnt| > 1 ==> PageOK(sz, cnt, 1, false, usableSpace);
  }

  // The sizes the code's own comment takes for granted (four cells to a page) are more than enough.
  lemma FourCellsToAPage(sz: seq<nat>, leafData: bool, usableSpace: nat)
    requires forall j :: 0 <= j < |sz| ==> 3 * (sz[j] + 2) <= usableSpace
    ensures CellsFit(sz, leafData, usableSpace)
  {
  }
}
