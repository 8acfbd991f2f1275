// Ranges of bytes on a page.
module Spans {

  datatype Span = Span(start: nat, size: nat) {
    function End(): nat { start + size }
  }

  predicate Apart(a: Span, b: Span) {
    a.End() <= b.start || b.End() <= a.start
  }

  predicate Inside(a: Span, lo: int, hi: int) {
    lo <= a.start && a.End() <= hi
  }

  ghost predicate AllApart(xs: seq<Span>) {
    forall i, j {:trigger xs[i], xs[j]} :: 0 <= i < j < |xs| ==> Apart(xs[i], xs[j])
  }

  ghost predicate AllInside(xs: seq<Span>, lo: int, hi: int) {
    forall i :: 0 <= i < |xs| ==> Inside(xs[i], lo, hi)
  }

  ghost predicate ApartFrom(xs: seq<Span>, a: Span) {
    forall i :: 0 <= i < |xs| ==> Apart(xs[i], a)
  }

  function Total(xs: seq<Span>): nat {
    if xs == [] then 0 else Total(xs[..|xs| - 1]) + xs[|xs| - 1].size
  }

  lemma {:induction false} TotalPush(xs: seq<Span>, a: Span)
    ensures Total(xs + [a]) == Total(xs) + a.size
  {
    assert (xs + [a])[..|xs|] == xs;
  }

  lemma {:induction false} TotalConcat(xs: seq<Span>, ys: seq<Span>)
    ensures Total(xs + ys) == Total(xs) + Total(ys)
    decreases |ys|
  {
    if ys == [] {
      assert xs + ys == xs;
    } else {
      var n := |ys| - 1;
      TotalConcat(xs, ys[..n]);
      assert (xs + ys)[..|xs + ys| - 1] == xs + ys[..n];
    }
  }

  function Without(xs: seq<Span>, k: nat): (r: seq<Span>)
    requires k < |xs|
    ensures |r| == |xs| - 1
  {
    xs[..k] + xs[k + 1..]
  }

  function With(xs: seq<Span>, k: nat, a: Span): (r: seq<Span>)
    requires k <= |xs|
    ensures |r| == |xs| + 1
  {
    xs[..k] + [a] + xs[k..]
  }

  lemma {:induction false} TotalWithout(xs: seq<Span>, k: nat)
    requires k < |xs|
    ensures Total(Without(xs, k)) == Total(xs) - xs[k].size
  {
    assert xs == xs[..k] + [xs[k]] + xs[k + 1..];
    TotalConcat(xs[..k] + [xs[k]], xs[k + 1..]);
    TotalPush(xs[..k], xs[k]);
    TotalConcat(xs[..k], xs[k + 1..]);
  }

  lemma {:induction false} TotalWith(xs: seq<Span>, k: nat, a: Span)
    requires k <= |xs|
    ensures Total(With(xs, k, a)) == Total(xs) + a.size
  {
    assert Without(With(xs, k, a), k) == xs;
    TotalWithout(With(xs, k, a), k);
  }

  lemma {:induction false} TotalUpdate(xs: seq<Span>, k: nat, a: Span)
    requires k < |xs|
    ensures Total(xs[k := a]) == Total(xs) - xs[k].size + a.size
  {
    assert Without(xs[k := a], k) == Without(xs, k);
    TotalWithout(xs, k);
    TotalWithout(xs[k := a], k);
  }

  // ----- Counting bytes.

  predicate Covered(xs: seq<Span>, b: int) {
    exists i :: 0 <= i < |xs| && xs[i].start <= b < xs[i].End()
  }

  ghost function Range(lo: int, hi: int): (r: set<int>)
    requires lo <= hi
    ensures |r| == hi - lo && forall b :: b in r <==> lo <= b < hi
    decreases hi - lo
  {
    if lo == hi then {} else Range(lo, hi - 1) + {hi - 1}
  }

  // Disjoint spans cover as many bytes as their sizes add up to.
  ghost function BytesOf(xs: seq<Span>): (r: set<int>)
    requires AllApart(xs)
    ensures |r| == Total(xs) && forall b :: b in r <==> Covered(xs, b)
    decreases |xs|
  {
    if xs == [] then {} else
      var n := |xs| - 1;
      CoveredLast(xs);
      BytesOf(xs[..n]) + Range(xs[n].start, xs[n].End())
  }

  lemma {:induction false} CoveredLast(xs: seq<Span>)
    requires xs != []
    ensures var ys, a := xs[..|xs| - 1], xs[|xs| - 1];
      && (forall b :: Covered(xs, b) <==> Covered(ys, b) || a.start <= b < a.End())
      && (AllApart(xs) ==> forall b :: Covered(ys, b) ==> !(a.start <= b < a.End()))
  {
    var n := |xs| - 1;
    var ys := xs[..n];
    forall b | Covered(xs, b) ensures Covered(ys, b) || xs[n].start <= b < xs[n].End() {
      var i :| 0 <= i < |xs| && xs[i].start <= b < xs[i].End();
      if i < n { assert ys[i] == xs[i]; }
    }
    forall b | Covered(ys, b) ensures Covered(xs, b) && (AllApart(xs) ==> !(xs[n].start <= b < xs[n].End())) {
      var i :| 0 <= i < |ys| && ys[i].start <= b < ys[i].End();
      assert xs[i] == ys[i];
    }
  }

  lemma {:induction false} BytesInside(xs: seq<Span>, lo: int, hi: int)
    requires AllApart(xs) && AllInside(xs, lo, hi) && lo <= hi
    ensures BytesOf(xs) <= Range(lo, hi)
  {
    forall b | b in BytesOf(xs) ensures b in Range(lo, hi) {
      var i :| 0 <= i < |xs| && xs[i].start <= b < xs[i].End();
      assert Inside(xs[i], lo, hi);
    }
  }

  // Disjoint spans do not add up to more than the room they lie in; the rest is uncovered.
  lemma {:induction false} Uncovered(xs: seq<Span>, lo: int, hi: int)
    requires AllApart(xs) && AllInside(xs, lo, hi) && lo <= hi
    ensures Total(xs) <= hi - lo && |Range(lo, hi) - BytesOf(xs)| == hi - lo - Total(xs)
  {
    BytesInside(xs, lo, hi);
    assert Range(lo, hi) == BytesOf(xs) + (Range(lo, hi) - BytesOf(xs));
  }
}
