// Cells, and payload that spills onto overflow pages (src/db_sqlite/btree.c:907-967, 2882-2961,
// 3864-3888, 3902-3999).
module Payload {

  import opened Bytes
  import opened PointerMap
  import opened Varint

  const I31 := 0x8000_0000
  const I63 := 0x8000_0000_0000_0000

  // What a page's flags and the database header say about its cells.
  datatype Format = Format(usable: nat, leaf: bool, intKey: bool, hasData: bool, minLocal: nat, maxLocal: nat)

  predicate Sound(f: Format) {
    500 <= f.usable <= 65536 && f.minLocal <= f.maxLocal && f.maxLocal + 35 <= f.usable
  }

  datatype CellInfo = CellInfo(nKey: int, nData: nat, nHeader: nat, nLocal: nat, iOverflow: nat, nSize: nat)

  function Signed(u: nat): int { if u < I63 then u else u - U64 }

  function Unsigned(k: int): (u: nat)
    requires -I63 <= k < I63
    ensures u < U64 && Signed(u) == k
  {
    if k >= 0 then k else k + U64
  }

  function Tail(s: seq<Byte>, n: nat): seq<Byte> {
    if n <= |s| then s[n..] else []
  }

  // Payload bytes of the cell.
  function PayloadSize(f: Format, nKey: int, nData: nat): nat {
    (nData + if f.intKey then 0 else nKey) % U32
  }

  // Payload bytes kept on the page (btree.c:930-966).
  function Local(f: Format, n: nat): nat
    requires Sound(f)
  {
    if n <= f.maxLocal then n
    else
      var surplus := f.minLocal + (n - f.minLocal) % (f.usable - 4);
      if surplus <= f.maxLocal then surplus else f.minLocal
  }

  function Finished(f: Format, nKey: int, nData: nat, nHeader: nat): CellInfo
    requires Sound(f)
  {
    var n := PayloadSize(f, nKey, nData);
    if n <= f.maxLocal then CellInfo(nKey, nData, nHeader, n, 0, if n + nHeader < 4 then 4 else n + nHeader)
    else CellInfo(nKey, nData, nHeader, Local(f, n), Local(f, n) + nHeader, Local(f, n) + nHeader + 4)
  }

  function DataSize(f: Format, s: seq<Byte>): nat {
    if f.hasData then Value(Tail(s, if f.leaf then 0 else 4)) % U32 else 0
  }

  // Where the key's number starts.
  function KeyAt(f: Format, s: seq<Byte>): nat {
    var n := if f.leaf then 0 else 4;
    if f.hasData then n + Length(Tail(s, n)) else n
  }

  // What the bytes of a cell say.
  function Parsed(f: Format, s: seq<Byte>): CellInfo
    requires Sound(f)
  {
    var n := KeyAt(f, s);
    Finished(f, Signed(Value(Tail(s, n))), DataSize(f, s), n + Length(Tail(s, n)))
  }

  // A cell's data size takes less than nine bytes.
  predicate Readable(f: Format, s: seq<Byte>) {
    KeyAt(f, s) + Length(Tail(s, KeyAt(f, s))) <= |s| && (f.hasData ==> Length(Tail(s, if f.leaf then 0 else 4)) < 9)
  }

  // btree.c:907-967.
  method ParseCellPtr(f: Format, d: array<Byte>, pc: nat) returns (info: CellInfo)
    requires Sound(f) && pc <= d.Length && Readable(f, d[pc..])
    ensures info == Parsed(f, d[pc..])
  {
    hide Length, Value, Finished, PayloadSize;
    ghost var s := d[pc..];
    var n := if f.leaf then 0 else 4;
    var nData, k := 0, 0;
    ValueBelow(Tail(s, KeyAt(f, s)));
    if f.hasData {
      assert d[pc + n..] == Tail(s, n);
      k, nData := GetVarint32(d, pc + n);
      n := n + k;
    }
    assert d[pc + n..] == Tail(s, n);
    var key;
    k, key := GetVarint(d, pc + n);
    n := n + k;
    var nKey: int := if key < I63 then key else key - U64;
    info := ParseSizes(f, nKey, nData, n);
  }

  method ParseSizes(f: Format, nKey: int, nData: nat, n: nat) returns (info: CellInfo)
    requires Sound(f)
    ensures info == Finished(f, nKey, nData, n)
  {
    var nPayload := nData % U32;
    if !f.intKey {
      nPayload := (nData + nKey) % U32;
    }
    if nPayload <= f.maxLocal {
      var nSize := nPayload + n;
      if nSize < 4 {
        nSize := 4;
      }
      info := CellInfo(nKey, nData, n, nPayload, 0, nSize);
    } else {
      var surplus := f.minLocal + (nPayload - f.minLocal) % (f.usable - 4);
      var nLocal := if surplus <= f.maxLocal then surplus else f.minLocal;
      info := CellInfo(nKey, nData, n, nLocal, nLocal + n, nLocal + n + 4);
    }
  }

  // ----- How much spills.

  // Overflow pages for m bytes, and the bytes they leave unused.
  function PagesFor(f: Format, m: nat): nat
    requires Sound(f)
  {
    (m + f.usable - 5) / (f.usable - 4)
  }

  function Unused(f: Format, m: nat): int
    requires Sound(f)
  {
    PagesFor(f, m) * (f.usable - 4) - m
  }

  // Of all splits that keep the local part within its limits, the one chosen wastes least space on
  // overflow pages and takes fewest of them.
  lemma LeastWaste(f: Format, n: nat, local: nat)
    requires Sound(f) && n > f.maxLocal && f.minLocal <= local <= f.maxLocal
    ensures f.minLocal <= Local(f, n) <= f.maxLocal
    ensures Unused(f, n - Local(f, n)) <= Unused(f, n - local) && PagesFor(f, n - Local(f, n)) <= PagesFor(f, n - local)
  {
    hide PagesFor, Unused;
    var u := f.usable - 4;
    var q, r := (n - f.minLocal) / u, (n - f.minLocal) % u;
    assert n - f.minLocal == q * u + r;
    var e := local - f.minLocal;
    if f.minLocal + r <= f.maxLocal {
      PagesExactly(f, n - Local(f, n), q, 0);
      if e <= r {
        PagesExactly(f, n - local, q, r - e);
      } else {
        PagesExactly(f, n - local, q - 1, u + r - e);
      }
    } else {
      PagesExactly(f, n - Local(f, n), q, r);
      PagesExactly(f, n - local, q, r - e);
    }
  }

  lemma PagesExactly(f: Format, m: nat, q: int, r: nat)
    requires Sound(f) && m == q * (f.usable - 4) + r && r <= f.usable - 4
    ensures PagesFor(f, m) == (if r > 0 then q + 1 else q) && Unused(f, m) == if r > 0 then f.usable - 4 - r else 0
  {
    var u := f.usable - 4;
    var p := if r > 0 then q + 1 else q;
    assert m + u - 1 == p * u + (if r > 0 then r - 1 else u - 1);
    DivIs(m + u - 1, u, p, if r > 0 then r - 1 else u - 1);
  }

  lemma DivIs(a: nat, u: nat, p: int, t: nat)
    requires u > 0 && a == p * u + t && t < u
    ensures a / u == p
  {
    assert a == a / u * u + a % u;
    var x := p - a / u;
    assert x * u == a % u - t;
    Multiple(x, u);
  }

  lemma Multiple(x: int, u: nat)
    ensures x >= 1 ==> x * u >= u
    ensures x <= -1 ==> x * u <= 0 - u
  {
  }

  // A cell starting with these numbers reads as them.
  lemma HeaderReads(f: Format, s: seq<Byte>, nKey: int, nData: nat)
    requires Sound(f) && -I63 <= nKey < I63 && nData < I31 && (!f.hasData ==> nData == 0)
    requires var n := if f.leaf then 0 else 4; var m := if f.hasData then n + |Encode(nData)| else n;
      n <= m <= |s| && (f.hasData ==> s[n..m] == Encode(nData)) && m + |Encode(Unsigned(nKey))| <= |s|
      && s[m..m + |Encode(Unsigned(nKey))|] == Encode(Unsigned(nKey))
    ensures var i := Parsed(f, s); i.nKey == nKey && i.nData == nData && Readable(f, s) && 0 < i.nHeader <= 18
    ensures Parsed(f, s).nHeader ==
      (if f.leaf then 0 else 4) + (if f.hasData then |Encode(nData)| else 0) + |Encode(Unsigned(nKey))|
  {
    hide Encode, Length, Value, Finished;
    var n := if f.leaf then 0 else 4;
    var m := if f.hasData then n + |Encode(nData)| else n;
    if f.hasData {
      ShortNumber(nData);
      assert Tail(s, n)[..|Encode(nData)|] == s[n..m];
      RoundTrip(nData, Tail(s, n));
    }
    assert Tail(s, m)[..|Encode(Unsigned(nKey))|] == s[m..m + |Encode(Unsigned(nKey))|];
    RoundTrip(Unsigned(nKey), Tail(s, m));
    assert KeyAt(f, s) == m && DataSize(f, s) == nData;
    assert Signed(Value(Tail(s, m))) == nKey;
    FinishedParts(f, nKey, nData, m + Length(Tail(s, m)));
  }

  lemma FinishedParts(f: Format, nKey: int, nData: nat, nHeader: nat)
    requires Sound(f)
    ensures var i := Finished(f, nKey, nData, nHeader); i.nKey == nKey && i.nData == nData && i.nHeader == nHeader
  {
  }

  lemma ShortNumber(v: nat)
    requires v < I31
    ensures |Encode(v)| <= 5
  {
    assert Pow128(2) == 0x4000;
    assert Pow128(4) == 0x1000_0000;
    FewGroups(v, 5);
  }

  // ----- A cell's size is its own affair.

  function CellSize(f: Format, s: seq<Byte>): (n: nat)
    requires Sound(f)
    ensures n >= 4
  {
    Parsed(f, s).nSize
  }

  lemma TailAt(s: seq<Byte>, n: nat, k: nat)
    ensures At(Tail(s, n), k) == At(s, n + k)
  {
  }

  lemma SameTail(s: seq<Byte>, t: seq<Byte>, n: nat, m: nat)
    requires n + Length(Tail(s, n)) <= m <= |s| && m <= |t| && s[..m] == t[..m]
    ensures Length(Tail(t, n)) == Length(Tail(s, n)) && Value(Tail(t, n)) == Value(Tail(s, n))
  {
    hide Length, Value, Tail;
    forall k | 0 <= k < Length(Tail(s, n)) ensures At(Tail(s, n), k) == At(Tail(t, n), k) {
      TailAt(s, n, k);
      TailAt(t, n, k);
      assert s[..m][n + k] == t[..m][n + k];
    }
    SameNumber(Tail(s, n), Tail(t, n));
  }

  // What follows a cell's header does not change how it reads.
  lemma HeaderDecides(f: Format, s: seq<Byte>, t: seq<Byte>)
    requires Sound(f) && var m := Parsed(f, s).nHeader; m <= |s| && m <= |t| && s[..m] == t[..m]
    ensures Parsed(f, t) == Parsed(f, s)
  {
    hide Length, Value, Tail;
    var m := Parsed(f, s).nHeader;
    if f.hasData {
      SameTail(s, t, if f.leaf then 0 else 4, m);
    }
    SameTail(s, t, KeyAt(f, s), m);
  }

  lemma StillReadable(f: Format, s: seq<Byte>, t: seq<Byte>)
    requires Sound(f) && Readable(f, s) && var m := Parsed(f, s).nHeader; m <= |s| && m <= |t| && s[..m] == t[..m]
    ensures Readable(f, t)
  {
    hide Length, Value, Tail;
    var m := Parsed(f, s).nHeader;
    if f.hasData {
      SameTail(s, t, if f.leaf then 0 else 4, m);
    }
    SameTail(s, t, KeyAt(f, s), m);
  }

  lemma CellStandsAlone(f: Format, s: seq<Byte>, t: seq<Byte>)
    requires Sound(f) && var m := CellSize(f, s); m <= |s| && m <= |t| && s[..m] == t[..m]
    ensures Parsed(f, t) == Parsed(f, s)
  {
    hide Length, Value, Tail;
    var h, m := Parsed(f, s).nHeader, CellSize(f, s);
    assert s[..h] == s[..m][..h] && t[..h] == t[..m][..h];
    HeaderDecides(f, s, t);
  }

  // ----- Overflow chains. u: usable bytes of a page; the first four hold the number of the next.

  type Pages = map<nat, seq<Byte>>

  // Up to n bytes from page p on.
  function Stream(u: nat, pages: Pages, p: nat, n: nat): (r: seq<Byte>)
    requires u > 4
    ensures |r| <= n
    decreases n
  {
    if n == 0 || p !in pages || |pages[p]| != u then []
    else if n <= u - 4 then pages[p][4..4 + n]
    else pages[p][4..] + Stream(u, pages, Get4(pages[p], 0), n - (u - 4))
  }

  // The payload of a cell.
  function Stored(f: Format, s: seq<Byte>, pages: Pages): seq<Byte>
    requires Sound(f) && CellSize(f, s) <= |s|
  {
    var i := Parsed(f, s);
    s[i.nHeader..i.nHeader + i.nLocal] +
      if i.iOverflow == 0 then []
      else Stream(f.usable, pages, Get4(s, i.iOverflow), PayloadSize(f, i.nKey, i.nData) - i.nLocal)
  }

  // list: the pages of the chain from p on.
  predicate Linked(u: nat, pages: Pages, p: nat, list: seq<nat>)
    decreases |list|
  {
    if list == [] then p == 0
    else p == list[0] && p != 0 && p in pages && |pages[p]| == u && Linked(u, pages, Get4(pages[p], 0), list[1..])
  }

  predicate Distinct(list: seq<nat>) {
    forall i, j {:trigger list[i], list[j]} :: 0 <= i < j < |list| ==> list[i] != list[j]
  }

  lemma FirstLink(u: nat, pages: Pages, p: nat, list: seq<nat>)
    requires Linked(u, pages, p, list)
    ensures list != [] <==> p != 0
    ensures list != [] ==>
      p == list[0] && p in pages && |pages[p]| == u && Linked(u, pages, Get4(pages[p], 0), list[1..])
  {
  }

  // Bytes on the last of the pages if all before it are full.
  function OnLast(u: nat, list: seq<nat>, n: int): int {
    if |list| <= 1 then n else OnLast(u, list[1..], n - (u - 4))
  }

  lemma {:induction false} Framed(u: nat, pages: Pages, pages': Pages, p: nat, list: seq<nat>, n: nat)
    requires u > 4 && Linked(u, pages, p, list) && 0 !in pages && 0 !in pages'
    requires forall q :: q in list ==> q in pages && q in pages' && pages'[q] == pages[q]
    ensures Linked(u, pages', p, list) && Stream(u, pages', p, n) == Stream(u, pages, p, n)
    decreases |list|
  {
    if list != [] {
      assert p in list && forall q :: q in list[1..] ==> q in list;
      Framed(u, pages, pages', Get4(pages[p], 0), list[1..], if n > u - 4 then n - (u - 4) else 0);
    }
  }

  // The pages of the list exist before and after, and all but the last are the same.
  ghost predicate OnLastPage(u: nat, pages: Pages, pages': Pages, list: seq<nat>) {
    && (forall q :: q in list ==> q in pages && q in pages' && |pages[q]| == u)
    && (forall q :: q in list && q != list[|list| - 1] ==> pages'[q] == pages[q])
  }

  // Only the last page of the chain has changed, by x at position k.
  ghost predicate LastWritten(u: nat, pages: Pages, pages': Pages, chain: seq<nat>, k: int, x: seq<Byte>) {
    && chain != [] && OnLastPage(u, pages, pages', chain) && 0 <= k <= u - |x|
    && pages'[chain[|chain| - 1]] == Splice(pages[chain[|chain| - 1]], k, x)
  }

  // Bytes x follow the n stored so far, on the last page.
  lemma {:induction false} Appended(u: nat, pages: Pages, pages': Pages, p: nat, list: seq<nat>, n: nat, x: seq<Byte>)
    requires u > 4 && Linked(u, pages, p, list) && list != [] && Distinct(list) && 0 !in pages && 0 !in pages'
    requires |Stream(u, pages, p, n)| == n && var k := OnLast(u, list, n); 0 <= k && k + |x| <= u - 4
    requires LastWritten(u, pages, pages', list, 4 + OnLast(u, list, n), x)
    ensures Linked(u, pages', p, list) && Stream(u, pages', p, n + |x|) == Stream(u, pages, p, n) + x
    ensures OnLast(u, list, n + |x|) == OnLast(u, list, n) + |x|
    decreases |list|
  {
    hide Stream, Linked, Splice, Get4, LastWritten, Distinct;
    FirstLink(u, pages, p, list);
    if |list| == 1 {
      assert list == [p];
      AppendedHere(u, pages, pages', p, n, x);
    } else {
      RestWritten(u, pages, pages', list, 4 + OnLast(u, list, n), x);
      LongEnough(u, list[1..], n - (u - 4));
      StreamStep(u, pages, p, n);
      StreamStep(u, pages', p, n + |x|);
      Appended(u, pages, pages', Get4(pages[p], 0), list[1..], n - (u - 4), x);
      LinkJoin(u, pages', p, list);
    }
  }

  lemma AppendedHere(u: nat, pages: Pages, pages': Pages, p: nat, n: nat, x: seq<Byte>)
    requires u > 4 && Linked(u, pages, p, [p]) && 0 !in pages' && n + |x| <= u - 4
    requires LastWritten(u, pages, pages', [p], 4 + n, x)
    ensures Linked(u, pages', p, [p]) && Stream(u, pages', p, n + |x|) == Stream(u, pages, p, n) + x
  {
    SpliceAt(pages[p], 4 + n, x);
    assert p in [p] && [p][1..] == [];
    assert Get4(pages'[p], 0) == Get4(pages[p], 0);
    assert pages'[p][4..4 + n + |x|] == pages[p][4..4 + n] + x;
  }

  // What holds of a chain holds of the pages after the first, which is unchanged.
  lemma RestWritten(u: nat, pages: Pages, pages': Pages, list: seq<nat>, k: int, x: seq<Byte>)
    requires LastWritten(u, pages, pages', list, k, x) && Distinct(list) && |list| > 1
    ensures LastWritten(u, pages, pages', list[1..], k, x) && Distinct(list[1..])
    ensures list[0] in pages && list[0] in pages' && pages'[list[0]] == pages[list[0]] && |pages[list[0]]| == u
  {
    assert list[0] in list && list[1..][|list| - 2] == list[|list| - 1];
  }

  lemma LinkJoin(u: nat, pages: Pages, p: nat, list: seq<nat>)
    requires list != [] && p == list[0] && p != 0 && p in pages && |pages[p]| == u &&
      Linked(u, pages, Get4(pages[p], 0), list[1..])
    ensures Linked(u, pages, p, list)
  {
  }

  lemma {:induction false} LongEnough(u: nat, list: seq<nat>, n: int)
    requires u > 4 && OnLast(u, list, n) >= 0
    ensures n >= 0
    decreases |list|
  {
    if |list| > 1 {
      LongEnough(u, list[1..], n - (u - 4));
    }
  }

  // The full last page now names page q, which names none.
  lemma {:induction false} Extended(u: nat, pages: Pages, pages': Pages, p: nat, list: seq<nat>, n: nat, q: nat)
    requires u > 4 && Linked(u, pages, p, list) && list != [] && Distinct(list) && 0 !in pages && 0 !in pages'
    requires q !in list && q in pages' && |pages'[q]| == u && Get4(pages'[q], 0) == 0 && q < U32
    requires |Stream(u, pages, p, n)| == n && OnLast(u, list, n) == u - 4
    requires LastWritten(u, pages, pages', list, 0, Big4(q))
    ensures Linked(u, pages', p, list + [q]) && Stream(u, pages', p, n) == Stream(u, pages, p, n)
    ensures OnLast(u, list + [q], n) == 0
    decreases |list|
  {
    SpliceAt(pages[list[|list| - 1]], 0, Big4(q));
    Big4Gets(pages[list[|list| - 1]], 0, q);
    assert (list + [q])[1..] == list[1..] + [q];
    if |list| == 1 {
      assert Linked(u, pages', q, [q]) by { assert [q][1..] == []; }
      assert pages'[p][4..4 + n] == pages[p][4..4 + n];
    } else {
      var list1 := list[1..];
      RestWritten(u, pages, pages', list, 0, Big4(q));
      LongEnough(u, list1, n - (u - 4));
      Extended(u, pages, pages', Get4(pages[p], 0), list1, n - (u - 4), q);
    }
  }

  // A shorter read gives a prefix.
  lemma {:induction false} ShorterRead(u: nat, pages: Pages, p: nat, n: nat, m: nat)
    requires u > 4 && m <= n
    ensures Stream(u, pages, p, m) ==
      if m <= |Stream(u, pages, p, n)| then Stream(u, pages, p, n)[..m] else Stream(u, pages, p, n)
    decreases n
  {
    if m > u - 4 && p in pages && |pages[p]| == u {
      ShorterRead(u, pages, Get4(pages[p], 0), n - (u - 4), m - (u - 4));
    } else if m > 0 && p in pages && |pages[p]| == u && n > u - 4 {
      assert pages[p][4..][..m] == pages[p][4..4 + m];
    } else if m > 0 && p in pages && |pages[p]| == u {
      assert pages[p][4..4 + n][..m] == pages[p][4..4 + m];
    }
  }

  // All pages are needed: the chain has as many as the bytes take.
  lemma {:induction false} ChainLength(f: Format, list: seq<nat>, n: nat)
    requires Sound(f) && list != [] && 0 < OnLast(f.usable, list, n) <= f.usable - 4
    ensures |list| == PagesFor(f, n)
    decreases |list|
  {
    if |list| == 1 {
      PagesExactly(f, n, 0, n);
    } else {
      LongEnough(f.usable, list[1..], n - (f.usable - 4));
      ChainLength(f, list[1..], n - (f.usable - 4));
      OnePageMore(f, n - (f.usable - 4));
    }
  }

  lemma OnePageMore(f: Format, n: nat)
    requires Sound(f)
    ensures PagesFor(f, n + (f.usable - 4)) == PagesFor(f, n) + 1
  {
    var u := f.usable - 4;
    var a := n + u - 1;
    DivIs(a + u, u, a / u + 1, a % u);
  }

  // ----- Reading.

  // What is left to copy: amt bytes after the next offset ones of the chain from page p on.
  function Rest(u: nat, pages: Pages, p: nat, offset: nat, amt: nat): seq<Byte>
    requires u > 4
  {
    var s := Stream(u, pages, p, offset + amt);
    if |s| <= offset then [] else s[offset..]
  }

  lemma StreamStep(u: nat, pages: Pages, p: nat, n: nat)
    requires u > 4 && p in pages && |pages[p]| == u
    ensures n <= u - 4 ==> Stream(u, pages, p, n) == pages[p][4..4 + n]
    ensures n >= u - 4 ==> Stream(u, pages, p, n) == pages[p][4..] + Stream(u, pages, Get4(pages[p], 0), n - (u - 4))
  {
  }

  lemma DropOf(a: seq<Byte>, b: seq<Byte>, k: nat)
    requires k <= |a| + |b|
    ensures (a + b)[k..] == if k <= |a| then a[k..] + b else b[k - |a|..]
  {
  }

  lemma RestStep(u: nat, pages: Pages, p: nat, offset: nat, amt: nat)
    requires u > 4 && p in pages && |pages[p]| == u && amt > 0
    ensures offset < u - 4 && offset + amt > u - 4 ==>
      Rest(u, pages, p, offset, amt) ==
        pages[p][4 + offset..u] + Rest(u, pages, Get4(pages[p], 0), 0, offset + amt - (u - 4))
    ensures offset + amt <= u - 4 ==> Rest(u, pages, p, offset, amt) == pages[p][4 + offset..4 + offset + amt]
    ensures offset >= u - 4 ==>
      Rest(u, pages, p, offset, amt) == Rest(u, pages, Get4(pages[p], 0), offset - (u - 4), amt)
  {
    hide Stream, Get4;
    StreamStep(u, pages, p, offset + amt);
    if offset + amt <= u - 4 {
      SubOfSub(pages[p], 4, offset + amt, offset, amt);
    } else {
      var body, next := pages[p][4..], Stream(u, pages, Get4(pages[p], 0), offset + amt - (u - 4));
      if offset < |body| + |next| {
        DropOf(body, next, offset);
      }
      if offset < u - 4 {
        assert body[offset..] == pages[p][4 + offset..u];
      }
    }
  }

  // The bytes from `from` on, amt of them if there are as many.
  function Slice(s: seq<Byte>, from: nat, amt: nat): seq<Byte> {
    if from + amt <= |s| then s[from..from + amt] else if from <= |s| then s[from..] else []
  }

  // Where amt bytes from `from` on lie.
  lemma Pieces(local: seq<Byte>, u: nat, pages: Pages, p: nat, n: nat, from: nat, amt: nat)
    requires u > 4 && from + amt <= |local| + n && amt > 0
    ensures from + amt <= |local| ==> local[from..from + amt] == Slice(local + Stream(u, pages, p, n), from, amt)
    ensures from < |local| < from + amt ==>
      local[from..] + Rest(u, pages, p, 0, from + amt - |local|) == Slice(local + Stream(u, pages, p, n), from, amt)
    ensures from >= |local| ==>
      Rest(u, pages, p, from - |local|, amt) == Slice(local + Stream(u, pages, p, n), from, amt)
  {
    hide Stream;
    var s := Stream(u, pages, p, n);
    if from + amt > |local| {
      ShorterRead(u, pages, p, n, from + amt - |local|);
      SliceOfSum(local, s, from, amt);
    }
  }

  lemma SliceOfSum(a: seq<Byte>, b: seq<Byte>, from: nat, amt: nat)
    requires from + amt > |a|
    ensures var m := from + amt - |a|; var t := if m <= |b| then b[..m] else b;
      Slice(a + b, from, amt) == if from < |a| then a[from..] + t else if |t| <= from - |a| then [] else t[from - |a|..]
  {
    var m := from + amt - |a|;
    var t := if m <= |b| then b[..m] else b;
    if from < |a| {
      assert Slice(a + b, from, amt) == a[from..] + t;
    }
  }

  lemma SubOfSub(t: seq<Byte>, at: nat, n: nat, off: nat, a: nat)
    requires at + n <= |t| && off + a <= n
    ensures t[at..][..n][off..off + a] == t[at + off..at + off + a]
  {
    var x, y := t[at..][..n][off..off + a], t[at + off..at + off + a];
    forall i | 0 <= i < a ensures x[i] == y[i] {}
  }

  lemma Get4Tail(s: seq<Byte>, h: nat, n: nat)
    requires h <= |s|
    ensures Get4(s[h..], n) == Get4(s, h + n)
  {
  }

  lemma AllThere(s: seq<Byte>, from: nat, amt: nat)
    requires amt > 0
    ensures |Slice(s, from, amt)| == amt <==> from + amt <= |s|
    ensures |Slice(s, from, amt)| == amt ==> Slice(s, from, amt) == s[from..from + amt]
  {
  }

  lemma ParsedSizes(f: Format, s: seq<Byte>)
    requires Sound(f)
    ensures var i := Parsed(f, s); var n := PayloadSize(f, i.nKey, i.nData);
      && i.nLocal <= n
      && (n <= f.maxLocal ==>
        i.iOverflow == 0 && i.nLocal == n && i.nSize == (if n + i.nHeader < 4 then 4 else n + i.nHeader))
      && (n > f.maxLocal ==>
        i.iOverflow == i.nHeader + i.nLocal > 0 && i.nSize == i.iOverflow + 4 && f.minLocal <= i.nLocal <= f.maxLocal)
  {
    hide Length, Value, Local, KeyAt, DataSize;
    var i := Parsed(f, s);
    if PayloadSize(f, i.nKey, i.nData) > f.maxLocal {
      LeastWaste(f, PayloadSize(f, i.nKey, i.nData), f.minLocal);
    }
  }

  lemma NoRest(u: nat, pages: Pages, p: nat, offset: nat, amt: nat)
    requires u > 4 && 0 !in pages
    ensures p == 0 || amt == 0 ==> Rest(u, pages, p, offset, amt) == []
    ensures |Rest(u, pages, p, offset, amt)| <= amt
  {
  }

  function OnPage(f: Format, s: seq<Byte>): seq<Byte>
    requires Sound(f) && Parsed(f, s).nHeader + Parsed(f, s).nLocal <= |s|
  {
    s[Parsed(f, s).nHeader..Parsed(f, s).nHeader + Parsed(f, s).nLocal]
  }

  lemma StoredParts(f: Format, s: seq<Byte>, pages: Pages)
    requires Sound(f) && CellSize(f, s) <= |s|
    ensures var i := Parsed(f, s); var n := PayloadSize(f, i.nKey, i.nData);
      && i.nHeader + i.nLocal <= |s| && i.nLocal <= n
      && Stored(f, s, pages) == OnPage(f, s) + Stream(f.usable, pages, Get4(s, i.iOverflow), n - i.nLocal)
      && (i.iOverflow > 0 ==> i.iOverflow == i.nHeader + i.nLocal) && (i.iOverflow == 0 ==> n == i.nLocal)
  {
    hide Parsed;
    ParsedSizes(f, s);
  }

  // ----- Writing.

  // The first `done` bytes of payload are in place, on the page and on the pages of the chain;
  // `space` bytes are left where the next ones go.
  ghost predicate Filled(u: nat, i: CellInfo, c: seq<Byte>, pages: Pages, chain: seq<nat>, payload: seq<Byte>,
      done: nat, space: int) {
    && u > 4 && i.nHeader + i.nLocal + (if i.iOverflow > 0 then 4 else 0) <= |c| && done <= |payload| && space >= 0 &&
      0 !in pages
    && (chain == [] ==> done + space == i.nLocal && c[i.nHeader..i.nHeader + done] == payload[..done])
    && (chain != [] ==>
      && i.nLocal <= done && c[i.nHeader..i.nHeader + i.nLocal] == payload[..i.nLocal]
      && i.iOverflow == i.nHeader + i.nLocal && i.iOverflow > 0 && Get4(c, i.iOverflow) == chain[0]
      && Distinct(chain) && Linked(u, pages, chain[0], chain)
      && Stream(u, pages, chain[0], done - i.nLocal) == payload[i.nLocal..done]
      && OnLast(u, chain, done - i.nLocal) + space == u - 4 && space <= u - 4)
  }


  // Bytes x are copied to where the next ones go.
  lemma FilledMore(u: nat, i: CellInfo, c: seq<Byte>, c': seq<Byte>, pages: Pages, pages': Pages, chain: seq<nat>,
      payload: seq<Byte>, done: nat, space: int, x: seq<Byte>)
    requires Filled(u, i, c, pages, chain, payload, done, space) && |x| <= space && 0 !in pages'
    requires done + |x| <= |payload| && x == payload[done..done + |x|]
    requires chain == [] ==> c' == Splice(c, i.nHeader + done, x)
    requires chain != [] ==> c' == c && LastWritten(u, pages, pages', chain, u - space, x)
    ensures Filled(u, i, c', pages', chain, payload, done + |x|, space - |x|)
  {
    hide Linked, Stream;
    if chain == [] {
      SpliceAt(c, i.nHeader + done, x);
      assert c'[i.nHeader..i.nHeader + done] == c[i.nHeader..i.nHeader + done];
      assert c'[i.nHeader..i.nHeader + done + |x|] == payload[..done] + x;
    } else {
      Appended(u, pages, pages', chain[0], chain, done - i.nLocal, x);
      assert payload[i.nLocal..done + |x|] == payload[i.nLocal..done] + x;
    }
  }

  lemma FilledBounds(u: nat, i: CellInfo, c: seq<Byte>, pages: Pages, chain: seq<nat>, payload: seq<Byte>, done: nat,
      space: int)
    requires Filled(u, i, c, pages, chain, payload, done, space)
    ensures i.nHeader + i.nLocal + (if i.iOverflow > 0 then 4 else 0) <= |c| && space >= 0 && 0 !in pages
    ensures chain == [] ==> done + space == i.nLocal
    ensures chain != [] ==> space <= u - 4 && i.iOverflow == i.nHeader + i.nLocal && i.iOverflow > 0 && Distinct(chain)
  {
  }

  // The page is full, or the last page of the chain; page q joins the chain.
  lemma FilledPage(u: nat, i: CellInfo, c: seq<Byte>, c': seq<Byte>, pages: Pages, pages': Pages, chain: seq<nat>,
      payload: seq<Byte>, done: nat, q: nat)
    requires Filled(u, i, c, pages, chain, payload, done, 0) && 0 !in pages' && i.iOverflow == i.nHeader + i.nLocal > 0
    requires q !in chain && q != 0 && q in pages' && |pages'[q]| == u && Get4(pages'[q], 0) == 0 && q < U32
    requires chain == [] ==> c' == Splice(c, i.iOverflow, Big4(q))
    requires chain != [] ==> c' == c && LastWritten(u, pages, pages', chain, 0, Big4(q))
    ensures Filled(u, i, c', pages', chain + [q], payload, done, u - 4)
  {
    if chain == [] {
      SpliceAt(c, i.iOverflow, Big4(q));
      Big4Gets(c, i.iOverflow, q);
      assert [q][1..] == [];
      assert c'[i.nHeader..i.nHeader + done] == c[i.nHeader..i.nHeader + done];
      assert chain + [q] == [q];
    } else {
      Extended(u, pages, pages', chain[0], chain, done - i.nLocal, q);
    }
  }

  // All is in place.
  lemma FilledUp(f: Format, c: seq<Byte>, pages: Pages, chain: seq<nat>, payload: seq<Byte>, space: int)
    requires Sound(f) && CellSize(f, c) <= |c| &&
      Filled(f.usable, Parsed(f, c), c, pages, chain, payload, |payload|, space)
    requires |payload| == PayloadSize(f, Parsed(f, c).nKey, Parsed(f, c).nData) &&
      (chain != [] ==> space < f.usable - 4)
    requires chain == [] ==> Parsed(f, c).iOverflow == 0
    ensures Stored(f, c, pages) == payload
    ensures Parsed(f, c).iOverflow == 0 ==> chain == []
    ensures Parsed(f, c).iOverflow > 0 ==>
      Linked(f.usable, pages, Get4(c, Parsed(f, c).iOverflow), chain) && Distinct(chain) &&
        |chain| == PagesFor(f, |payload| - Parsed(f, c).nLocal)
  {
    hide Linked, Stream, Parsed;
    StoredParts(f, c, pages);
    var i := Parsed(f, c);
    if chain == [] {
      assert payload[..|payload|] == payload;
    } else {
      ChainLength(f, chain, |payload| - i.nLocal);
      assert payload == payload[..i.nLocal] + payload[i.nLocal..];
    }
  }

  // The bytes a cell for this key and data holds.
  function PayloadOf(f: Format, key: seq<Byte>, data: seq<Byte>): seq<Byte> {
    (if f.intKey then [] else key) + if f.hasData then data else []
  }

  lemma PayloadParts(f: Format, key: seq<Byte>, data: seq<Byte>)
    ensures var data1 := if f.hasData then data else []; var payload := PayloadOf(f, key, data);
      && Ahead(payload, 0, if f.intKey then data1 else key, if f.intKey then [] else data1)
      && |payload| == (if f.intKey then |data1| else |key| + |data1|)
  {
  }

  // chain: the overflow pages of cell c, no more than n bytes of payload take.
  ghost predicate Chained(f: Format, i: CellInfo, c: seq<Byte>, pages: Pages, chain: seq<nat>, n: nat)
    requires Sound(f)
  {
    && (i.iOverflow == 0 ==> chain == [])
    && (i.iOverflow > 0 ==> Linked(f.usable, pages, Get4(c, i.iOverflow), chain) && Distinct(chain))
    && (i.iOverflow > 0 ==> i.nLocal <= n && |chain| == PagesFor(f, n - i.nLocal))
  }

  lemma StartFill(f: Format, i: CellInfo, c: seq<Byte>, pages: Pages, payload: seq<Byte>, key: seq<Byte>,
      data: seq<Byte>, nKey: int)
    requires Sound(f) && i == Parsed(f, c) && |c| == f.usable - 8 && 0 !in pages && i.nHeader <= 18
    requires i.nKey == nKey && i.nData == (if f.hasData then |data| else 0) && (!f.intKey ==> nKey == |key|) &&
      |key| + |data| < I31
    requires payload == PayloadOf(f, key, data)
    ensures |payload| == PayloadSize(f, i.nKey, i.nData) && i.nSize <= |c| && i.nLocal <= |payload|
    ensures Filled(f.usable, i, c, pages, [], payload, 0, i.nLocal)
    ensures i.iOverflow == 0 ==> i.nLocal == |payload|
    ensures i.iOverflow > 0 ==> i.iOverflow == i.nHeader + i.nLocal && i.nLocal < |payload|
  {
    hide Parsed, PayloadSize;
    ParsedSizes(f, c);
    SizeOfPayload(f, i, key, data, nKey);
  }

  lemma SizeOfPayload(f: Format, i: CellInfo, key: seq<Byte>, data: seq<Byte>, nKey: int)
    requires i.nKey == nKey && i.nData == (if f.hasData then |data| else 0) && (!f.intKey ==> nKey == |key|) &&
      |key| + |data| < I31
    ensures |PayloadOf(f, key, data)| == PayloadSize(f, i.nKey, i.nData)
  {
  }

  // What has not been copied yet.
  ghost predicate Ahead(payload: seq<Byte>, done: nat, src: seq<Byte>, rest: seq<Byte>) {
    done <= |payload| && payload[done..] == src + rest
  }

  lemma NextSource(payload: seq<Byte>, done: nat, src: seq<Byte>, rest: seq<Byte>, n: nat)
    requires Ahead(payload, done, src, rest) && n <= |src|
    ensures done + n <= |payload| && payload[done..done + n] == src[..n] && Ahead(payload, done + n, src[n..], rest)
    ensures n == |src| ==> Ahead(payload, done + n, rest, []) && (rest == [] ==> done + n == |payload|)
  {
    assert payload[done..done + n] == payload[done..][..n];
    assert payload[done + n..] == payload[done..][n..];
  }

  datatype Before = Before(pages: map<nat, array<Byte>>, free: set<nat>, all: Pages)

  datatype Code = Ok | Error | Corrupt | Full

  class Store {
    const usable: nat
    var pages: map<nat, array<Byte>>
    var pageCount: nat
    var free: set<nat>
    var autoVacuum: bool
    var ptrmap: PtrMap

    ghost predicate Valid()
      reads this
    {
      && 500 <= usable <= 65536 && 0 !in pages && free <= pages.Keys && pageCount < U32
      && (forall p :: p in pages ==> p <= pageCount && pages[p].Length == usable)
      && (forall p, q {:trigger pages[p], pages[q]} :: p in pages && q in pages && p != q ==> pages[p] != pages[q])
    }

    ghost predicate NotAPage(d: array<Byte>)
      reads this
    {
      forall p :: p in pages ==> pages[p] != d
    }

    ghost function Contents(): (r: Pages)
      reads this`pages, set p | p in pages :: pages[p]
    {
      map p | p in pages :: pages[p][..]
    }

    lemma PageBytes(p: nat)
      requires p in Contents()
      ensures p in pages && pages[p][..] == Contents()[p]
    {
    }

    lemma FreeArePages()
      requires Valid()
      ensures free <= pages.Keys
    {
    }

    lemma NoPageZero()
      requires Valid()
      ensures 0 !in Contents()
    {
    }

    // The part of btree.c:2882-2961 that follows the overflow chain.
    method ReadChain(first: nat, skip: nat, amt: nat, buf: array<Byte>, at: nat, ghost chain: seq<nat>)
        returns (left: nat)
      requires Valid() && Linked(usable, Contents(), first, chain) && at + amt <= buf.Length && NotAPage(buf)
      modifies buf
      ensures var rest := Rest(usable, Contents(), first, skip, amt);
        (left == 0 <==> |rest| == amt) && (left == 0 ==> buf[at..at + amt] == rest)
      ensures forall k :: 0 <= k < at || at + amt <= k < buf.Length ==> buf[k] == old(buf[k])
    {
      hide Stream, Rest, Splice, Get4, Linked, Contents;
      NoPageZero();
      var nextPage, offset, done := first, skip, 0;
      ghost var all, rest, chain1 := Contents(), Rest(usable, Contents(), first, skip, amt), chain;
      left := amt;
      NoRest(usable, all, nextPage, offset, left);
      while left > 0 && nextPage != 0
        invariant Contents() == all && Linked(usable, all, nextPage, chain1) && left + done == amt && done >= 0 &&
          offset >= 0
        invariant |Rest(usable, all, nextPage, offset, left)| <= left
        invariant rest == buf[at..at + done] + Rest(usable, all, nextPage, offset, left)
        invariant forall k :: 0 <= k < at || at + amt <= k < buf.Length ==> buf[k] == old(buf[k])
        decreases |chain1|
      {
        FirstLink(usable, all, nextPage, chain1);
        PageBytes(nextPage);
        var page := pages[nextPage];
        RestStep(usable, all, nextPage, offset, left);
        chain1 := chain1[1..];
        nextPage := Get4(page[..], 0);
        if offset < usable - 4 {
          var a := if left + offset > usable - 4 then usable - 4 - offset else left;
          WriteOn(buf, at, done, page[4 + offset..4 + offset + a]);
          offset, left, done := 0, left - a, done + a;
        } else {
          offset := offset - (usable - 4);
        }
        NoRest(usable, all, nextPage, offset, left);
      }
      NoRest(usable, all, nextPage, offset, left);
      FirstLink(usable, all, nextPage, chain1);
    }

    // The copying part of btree.c:2882-2961: nLocal bytes of payload lie at d[at..], n more on the chain.
    method CopyPayload(d: array<Byte>, at: nat, nLocal: nat, ghost n: nat, from: nat, amt: nat, buf: array<Byte>,
        ghost chain: seq<nat>)
      returns (left: nat)
      requires Valid() && at + nLocal <= d.Length && from + amt <= nLocal + n && amt <= buf.Length && buf != d &&
        NotAPage(buf)
      requires from + amt > nLocal && amt > 0 ==> Linked(usable, Contents(), Get4(d[at..], nLocal), chain)
      modifies buf
      ensures var whole := Slice(d[at..][..nLocal] + Stream(usable, Contents(), Get4(d[at..], nLocal), n), from, amt);
        amt > 0 ==> (left == 0 <==> |whole| == amt) && (left == 0 ==> buf[..amt] == whole)
      ensures amt == 0 ==> left == 0
      ensures forall k :: amt <= k < buf.Length ==> buf[k] == old(buf[k])
    {
      hide Linked, Rest, Contents, Get4, Slice, Stream, Splice;
      ghost var local, all := d[at..][..nLocal], Contents();
      var off, done := from, 0;
      left := amt;
      if amt > 0 {
        Pieces(local, usable, all, Get4(d[at..], nLocal), n, from, amt);
        AllThere(local + Stream(usable, all, Get4(d[at..], nLocal), n), from, amt);
      }
      if off < nLocal {
        var a := if amt + off > nLocal then nLocal - off else amt;
        SubOfSub(d[..], at, nLocal, off, a);
        Write(buf, 0, d[at + off..at + off + a]);
        assert buf[..a] == local[off..off + a];
        if a == amt {
          return 0;
        }
        off, done, left := 0, a, amt - a;
      } else {
        off := off - nLocal;
      }
      ghost var before := buf[..done];
      if left > 0 {
        assert Contents() == all;
        var nextPage := Get4(d[at..], nLocal);
        left := ReadChain(nextPage, off, left, buf, done, chain);
        assert left == 0 ==> buf[..amt] == before + buf[done..amt];
      }
    }

    // btree.c:2882-2961. chain: the overflow pages of the cell at d[pc..].
    method GetPayload(f: Format, d: array<Byte>, pc: nat, offset: nat, amt: nat, skipKey: bool, buf: array<Byte>,
        ghost chain: seq<nat>)
      returns (rc: Code)
      requires Valid() && Sound(f) && f.usable == usable && pc <= d.Length && Readable(f, d[pc..])
      requires CellSize(f, d[pc..]) <= d.Length - pc && amt <= buf.Length && buf != d && NotAPage(buf)
      requires var i := Parsed(f, d[pc..]); i.iOverflow > 0 ==>
        Linked(usable, Contents(), Get4(d[pc..], i.iOverflow), chain)
      modifies buf
      ensures var i := Parsed(f, d[pc..]); var from := offset + if skipKey && !f.intKey then i.nKey % U32 else 0;
        && (rc == Error <==> from + amt > PayloadSize(f, i.nKey, i.nData))
        && (rc == Ok <==>
          from + amt <= PayloadSize(f, i.nKey, i.nData) && (amt == 0 || from + amt <= |Stored(f, d[pc..], Contents())|))
        && (rc == Ok && amt > 0 ==> buf[..amt] == Stored(f, d[pc..], Contents())[from..from + amt])
        && (rc == Ok || rc == Error || rc == Corrupt)
      ensures forall k :: amt <= k < buf.Length ==> buf[k] == old(buf[k])
    {
      hide Parsed, Length, Value, Linked, KeyAt, DataSize, Contents, Get4, Stored, Slice, Stream, PayloadSize;
      var info := ParseCellPtr(f, d, pc);
      ghost var s, all := d[pc..], Contents();
      StoredParts(f, s, all);
      var n := PayloadSize(f, info.nKey, info.nData);
      var from := offset + if skipKey && !f.intKey then info.nKey % U32 else 0;
      if from + amt > n {
        return Error;
      }
      var at := pc + info.nHeader;
      assert d[at..] == s[info.nHeader..] && d[at..][..info.nLocal] == OnPage(f, s);
      Get4Tail(s, info.nHeader, info.nLocal);
      var left := CopyPayload(d, at, info.nLocal, n - info.nLocal, from, amt, buf, chain);
      if amt > 0 {
        AllThere(Stored(f, s, all), from, amt);
      }
      rc := if left > 0 then Corrupt else Ok;
    }

    // A page that is not in use, from the free list or past the end of the file.
    method AllocatePage() returns (rc: Code, q: nat)
      requires Valid()
      modifies this`pages, this`free, this`pageCount
      ensures Valid() && (rc == Ok || rc == Full)
      ensures rc == Full ==> pages == old(pages) && free == old(free)
      ensures rc == Ok ==> Got(old(pages), old(free), q) && 0 < q < U32 && (q !in old(pages) ==> fresh(pages[q]))
    {
      if free != {} {
        q :| q in free;
        free := free - {q};
        return Ok, q;
      }
      if pageCount + 1 == U32 {
        return Full, 0;
      }
      pageCount := pageCount + 1;
      var page := new Byte[usable];
      pages := pages[pageCount := page];
      rc, q := Ok, pageCount;
    }

    // Page q has been taken into use.
    ghost predicate Got(pages0: map<nat, array<Byte>>, free0: set<nat>, q: nat)
      reads this
    {
      && q in pages && q !in free && free == free0 - {q} && (q in free0 || q !in pages0)
      && pages == pages0[q := pages[q]] && (q in pages0 ==> pages[q] == pages0[q])
    }

    // The pages of the chain have been taken into use; those in use before are as they were.
    ghost predicate Kept(before: Before, chain: seq<nat>)
      reads this, set p | p in pages :: pages[p]
    {
      && (forall p :: p in free <==> p in before.free && p !in chain)
      && (forall p :: p in before.pages ==> p in pages && pages[p] == before.pages[p])
      && (forall p :: p in pages ==> p in before.pages || p in chain)
      && (forall p :: p in chain ==> p in pages && (p in before.free || p !in before.pages))
      && (forall p :: p in before.pages && p !in before.free ==> p in before.all && pages[p][..] == before.all[p])
    }

    // Header of a new cell (the first part of btree.c:3902-3999).
    method FillHeader(f: Format, cell: array<Byte>, nKey: int, nData: nat) returns (info: CellInfo)
      requires Sound(f) && cell.Length == f.usable - 8 && -I63 <= nKey < I63 && nData < I31 &&
        (!f.hasData ==> nData == 0)
      modifies cell
      ensures info == Parsed(f, cell[..]) && info.nKey == nKey && info.nData == nData && 0 < info.nHeader <= 18 &&
        Readable(f, cell[..])
    {
      hide Encode, Parsed, Splice, KeyAt, Length, Value;
      var nHeader, n := if f.leaf then 0 else 4, 0;
      ShortNumber(nData);
      ghost var c0 := nHeader;
      if f.hasData {
        n := PutVarint(cell, nHeader, nData);
        nHeader := nHeader + n;
      }
      ghost var c1 := nHeader;
      n := PutVarint(cell, nHeader, Unsigned(nKey));
      nHeader := nHeader + n;
      assert f.hasData ==> cell[c0..c1] == Encode(nData);
      assert cell[c1..nHeader] == Encode(Unsigned(nKey)) && cell[0..] == cell[..];
      HeaderReads(f, cell[..], nKey, nData);
      info := ParseCellPtr(f, cell, 0);
    }

    // One more page for the chain: its number goes to prior[at..] (the first half of the loop in
    // btree.c:3902-3999).
    method NextPage(prior: array<Byte>, at: nat, last: nat) returns (rc: Code, q: nat)
      requires Valid() && at + 4 <= prior.Length && forall p :: p in free ==> pages[p] != prior
      modifies this`pages, this`free, this`pageCount, this`ptrmap, prior, set p | p in free :: pages[p]
      ensures Valid() && (rc == Ok || rc == Full)
      ensures rc == Ok ==> Got(old(pages), old(free), q) && 0 < q < U32 && (q !in old(pages) ==> fresh(pages[q]))
      ensures rc == Ok ==> prior[..] == Splice(old(prior[..]), at, Big4(q)) && Get4(pages[q][..], 0) == 0
      ensures rc == Ok ==> prior[..at] == old(prior[..at])
      ensures rc == Full ==> pages == old(pages) && free == old(free) && ptrmap == old(ptrmap)
      ensures forall p :: p in old(pages) && old(pages)[p] != prior && (rc == Ok ==> p != q) ==>
        p in pages && pages[p][..] == old(pages[p][..])
      ensures ptrmap ==
        if rc == Ok && autoVacuum && last != 0 then old(ptrmap)[q := MapEntry(Overflow2, last)] else old(ptrmap)
    {
      hide Get4, Splice;
      rc, q := AllocatePage();
      if autoVacuum && last != 0 && rc == Ok {
        ptrmap := ptrmap[q := MapEntry(Overflow2, last)];
      }
      if rc != Ok {
        return;
      }
      SpliceAt(prior[..], at, Big4(q));
      Put4(prior, at, q);
      Put4(pages[q], 0, 0);
    }

    // btree.c:3902-3999. The cell for a key and its data is built in `cell`, and what does not fit
    // goes to new overflow pages.
    method FillInCell(f: Format, cell: array<Byte>, key: seq<Byte>, nKey: int, data: seq<Byte>)
      returns (rc: Code, nSize: nat, ghost chain: seq<nat>)
      requires Valid() && Sound(f) && f.usable == usable && NotAPage(cell) && cell.Length == usable - 8
      requires -I63 <= nKey < I63 && (!f.intKey ==> nKey == |key|) && |key| + |data| < I31
      modifies this`pages, this`free, this`pageCount, this`ptrmap, cell, set p | p in free :: pages[p]
      ensures Valid() && (rc == Ok || rc == Full)
      ensures rc == Ok ==> Readable(f, cell[..])
      ensures rc == Ok ==> var i := Parsed(f, cell[..]);
        && i.nKey == nKey && i.nData == (if f.hasData then |data| else 0) && nSize == i.nSize <= cell.Length
        && Stored(f, cell[..], Contents()) == PayloadOf(f, key, data)
        && Chained(f, i, cell[..], Contents(), chain, |PayloadOf(f, key, data)|)
      ensures Kept(Before(old(pages), old(free), old(Contents())), chain)
      ensures rc == Ok && autoVacuum ==> MapChain(chain)
    {
      hide Parsed, PayloadSize, Contents, Stored, Get4, Linked, Stream, Writing, MapChain, Valid, Kept, Readable,
        Chained, PayloadOf, Distinct, Ahead;
      var data1 := if f.hasData then data else [];
      ghost var payload := PayloadOf(f, key, data);
      var info := FillHeader(f, cell, nKey, |data1|);
      nSize := info.nSize;
      var src := if f.intKey then data1 else key;
      var more := if f.intKey then [] else data1;
      PayloadParts(f, key, data);
      var nPayload := |src| + |more|;
      var spaceLeft: nat, at: nat := info.nLocal, info.nHeader;
      var dst, prior, priorAt, q := cell, cell, info.iOverflow, 0;
      ghost var done, rest, c0, before := 0, more, cell[..], Before(pages, free, Contents());
      chain := [];
      rc := Ok;
      FreeArePages();
      ghost var spare := set p | p in free :: pages[p];
      StartWriting(f, info, cell, payload, key, data, nKey);
      while nPayload > 0
        invariant Writing(info, cell, c0, chain, payload, done, spaceLeft, dst, at, prior, priorAt, q) && rc == Ok
        invariant Kept(before, chain) && forall p :: p in free ==> p in pages && pages[p] in spare
        invariant dst == prior && if chain == [] then dst == cell else fresh(dst) || dst in spare
        invariant nPayload + done == |payload| && nPayload >= 0
        invariant nPayload > 0 ==> Ahead(payload, done, src, rest) && (rest == [] || rest == more)
        invariant chain != [] ==> spaceLeft < usable - 4 || (nPayload > 0 && spaceLeft == usable - 4)
        invariant autoVacuum ==> MapChain(chain)
        decreases nPayload, |src| == 0
      {
        rc, chain, dst, at, prior, priorAt, q, spaceLeft :=
          MakeRoom(before, info, cell, c0, chain, payload, done, dst, at, prior, priorAt, q, spaceLeft);
        if rc != Ok {
          return;
        }
        var n := if nPayload > spaceLeft then spaceLeft else nPayload;
        n := if n > |src| then |src| else n;
        NextSource(payload, done, src, rest, n);
        CopySome(before, info, cell, c0, chain, payload, done, spaceLeft, dst, at, prior, priorAt, q, src[..n]);
        nPayload, at, src, spaceLeft := nPayload - n, at + n, src[n..], spaceLeft - n;
        done := done + n;
        if |src| == 0 {
          src, rest := more, [];
        }
      }
      WrittenAll(f, info, cell, c0, chain, payload, spaceLeft, dst, at, prior, priorAt, q);
    }

    lemma StartWriting(f: Format, i: CellInfo, cell: array<Byte>, payload: seq<Byte>, key: seq<Byte>, data: seq<Byte>,
        nKey: int)
      requires Valid() && NotAPage(cell) && Sound(f) && i == Parsed(f, cell[..]) && cell.Length == f.usable - 8 &&
        f.usable == usable && i.nHeader <= 18
      requires i.nKey == nKey && i.nData == (if f.hasData then |data| else 0) && (!f.intKey ==> nKey == |key|) &&
        |key| + |data| < I31
      requires payload == PayloadOf(f, key, data)
      ensures Writing(i, cell, cell[..], [], payload, 0, i.nLocal, cell, i.nHeader, cell, i.iOverflow, 0)
      ensures |payload| == PayloadSize(f, i.nKey, i.nData) && i.nSize <= cell.Length && i.nLocal <= |payload|
      ensures i.iOverflow == 0 ==> i.nLocal == |payload|
      ensures i.iOverflow > 0 ==> i.iOverflow == i.nHeader + i.nLocal && i.nLocal < |payload|
      ensures Kept(Before(pages, free, Contents()), []) && MapChain([])
    {
      hide Parsed, PayloadSize, Filled;
      StartFill(f, i, cell[..], Contents(), payload, key, data, nKey);
    }

    // The copy is under way: `done` bytes of payload are in place and the next ones go to dst[at..];
    // the number of the next overflow page, if it comes to that, goes to prior[priorAt..].
    ghost predicate Writing(i: CellInfo, cell: array<Byte>, c0: seq<Byte>, chain: seq<nat>, payload: seq<Byte>,
        done: nat, space: int, dst: array<Byte>, at: nat, prior: array<Byte>, priorAt: nat, q: nat)
      reads this, cell, set p | p in pages :: pages[p]
    {
      && Valid() && NotAPage(cell) && i.nHeader <= cell.Length && i.nHeader <= |c0| &&
        cell[..i.nHeader] == c0[..i.nHeader]
      && Filled(usable, i, cell[..], Contents(), chain, payload, done, space)
      && (chain == [] ==> dst == prior == cell && at == i.nHeader + done && priorAt == i.iOverflow && q == 0)
      && (chain != [] ==>
        q == chain[|chain| - 1] && q in pages && dst == prior == pages[q] && at == usable - space && priorAt == 0)
      && (forall p :: p in chain ==> p in pages && p !in free)
    }

    ghost predicate MapChain(chain: seq<nat>)
      reads this
    {
      forall k {:trigger chain[k]} :: 1 <= k < |chain| ==>
        chain[k] in ptrmap && ptrmap[chain[k]] == MapEntry(Overflow2, chain[k - 1])
    }

    lemma InUse(before: Before, chain: seq<nat>)
      requires Kept(before, chain) && Valid()
      ensures forall p :: p in chain ==> p in pages && p !in free
    {
    }

    method NextKept(ghost before: Before, ghost chain: seq<nat>, prior: array<Byte>, at: nat, last: nat)
        returns (rc: Code, q: nat)
      requires Valid() && at + 4 <= prior.Length && (forall p :: p in pages && p !in chain ==> pages[p] != prior)
      requires Kept(before, chain) && (autoVacuum ==> MapChain(chain)) && (chain == [] <==> last == 0) &&
        (chain != [] ==> last == chain[|chain| - 1])
      modifies this`pages, this`free, this`pageCount, this`ptrmap, prior, set p | p in free :: pages[p]
      ensures Valid() && (rc == Ok || rc == Full)
      ensures rc == Ok ==>
        Got(old(pages), old(free), q) && q !in chain && 0 < q < U32 && (q !in old(pages) ==> fresh(pages[q]))
      ensures rc == Ok ==>
        prior[..] == Splice(old(prior[..]), at, Big4(q)) && Get4(pages[q][..], 0) == 0 &&
        prior[..at] == old(prior[..at])
      ensures rc == Ok ==> Kept(before, chain + [q]) && (autoVacuum ==> MapChain(chain + [q]))
      ensures rc == Full ==> pages == old(pages) && free == old(free) && ptrmap == old(ptrmap) && Kept(before, chain)
      ensures forall p :: p in old(pages) && old(pages)[p] != prior && (rc == Ok ==> p != q) ==>
        p in pages && pages[p][..] == old(pages[p][..])
    {
      hide Splice, Get4, Valid;
      InUse(before, chain);
      FreeArePages();
      rc, q := NextPage(prior, at, last);
    }

    // The cell's own place is full, and page q is the first of the chain.
    twostate lemma SpilledFirst(cell: array<Byte>, new i: CellInfo, new c0: seq<Byte>, new payload: seq<Byte>,
        new done: nat, new q: nat)
      requires old(Writing(i, cell, c0, [], payload, done, 0, cell, i.nHeader + done, cell, i.iOverflow, 0))
      requires Valid() && Got(old(pages), old(free), q) && q != 0 && q < U32 && NotAPage(cell) &&
        Get4(pages[q][..], 0) == 0
      requires i.iOverflow == i.nHeader + i.nLocal > 0 && i.iOverflow + 4 <= cell.Length &&
        cell[..] == Splice(old(cell[..]), i.iOverflow, Big4(q))
      requires cell[..i.iOverflow] == old(cell[..i.iOverflow])
      ensures Writing(i, cell, c0, [q], payload, done, usable - 4, pages[q], 4, pages[q], 0, q)
    {
      hide Filled, Splice, Get4, Distinct, OnLast, Linked, Stream, LastWritten;
      var none: seq<nat> := [];
      assert none + [q] == [q] && cell[..i.nHeader] == cell[..i.iOverflow][..i.nHeader];
      FilledPage(usable, i, old(cell[..]), cell[..], old(Contents()), Contents(), [], payload, done, q);
    }

    // The last page of the chain is full, and page q follows it.
    twostate lemma SpilledNext(cell: array<Byte>, new i: CellInfo, new c0: seq<Byte>, new chain: seq<nat>,
        new payload: seq<Byte>, new done: nat, new last: nat, new q: nat)
      requires chain != [] && last in old(pages)
      requires old(Writing(i, cell, c0, chain, payload, done, 0, pages[last], usable, pages[last], 0, last))
      requires Valid() && Got(old(pages), old(free), q) && q !in chain && q != 0 && q < U32 && NotAPage(cell) &&
        Get4(pages[q][..], 0) == 0
      requires cell[..] == old(cell[..]) && pages[last][..] == Splice(old(pages[last][..]), 0, Big4(q))
      requires forall p :: p in old(pages) && p != last && p != q ==> p in pages && pages[p][..] == old(pages[p][..])
      ensures Writing(i, cell, c0, chain + [q], payload, done, usable - 4, pages[q], 4, pages[q], 0, q)
    {
      hide Filled, Splice, Get4, Distinct, OnLast, Linked, Stream;
      FilledBounds(usable, i, cell[..], old(Contents()), chain, payload, done, 0);
      FilledPage(usable, i, old(cell[..]), cell[..], old(Contents()), Contents(), chain, payload, done, q);
    }

    // The place for payload is full; the chain gets another page.
    method SpillOver(ghost before: Before, i: CellInfo, cell: array<Byte>, ghost c0: seq<Byte>, ghost chain: seq<nat>,
        ghost payload: seq<Byte>, ghost done: nat,
        dst: array<Byte>, at: nat, prior: array<Byte>, priorAt: nat, last: nat) returns (rc: Code, q: nat)
      requires Writing(i, cell, c0, chain, payload, done, 0, dst, at, prior, priorAt, last)
      requires done < |payload| &&
        if i.iOverflow == 0 then i.nLocal == |payload| else i.iOverflow == i.nHeader + i.nLocal
      requires Kept(before, chain) && (autoVacuum ==> MapChain(chain))
      modifies this`pages, this`free, this`pageCount, this`ptrmap, prior, set p | p in free :: pages[p]
      ensures Valid() && (rc == Ok || rc == Full)
      ensures rc == Ok ==> Got(old(pages), old(free), q) && q !in chain && (q !in old(pages) ==> fresh(pages[q]))
      ensures rc == Ok ==> Writing(i, cell, c0, chain + [q], payload, done, usable - 4, pages[q], 4, pages[q], 0, q)
      ensures rc == Ok ==> Kept(before, chain + [q]) && (autoVacuum ==> MapChain(chain + [q]))
      ensures rc == Full ==> free == old(free) && pages == old(pages) && ptrmap == old(ptrmap)
      ensures rc == Full ==> Kept(before, chain)
    {
      hide Filled, Splice, Get4, MapChain, Kept, Distinct, OnLast, Linked, Stream, LastWritten;
      FilledBounds(usable, i, cell[..], Contents(), chain, payload, done, 0);
      InUse(before, chain);
      rc, q := NextKept(before, chain, prior, priorAt, last);
      if rc == Ok {
        if chain == [] {
          SpilledFirst(cell, i, c0, payload, done, q);
          assert chain + [q] == [q];
        } else {
          SpilledNext(cell, i, c0, chain, payload, done, last, q);
        }
      }
    }

    // If there is no space left, the next overflow page gives some (the first half of the loop in
    // btree.c:3902-3999).
    method MakeRoom(ghost before: Before, i: CellInfo, cell: array<Byte>, ghost c0: seq<Byte>, ghost chain: seq<nat>,
        ghost payload: seq<Byte>, ghost done: nat,
        dst: array<Byte>, at: nat, prior: array<Byte>, priorAt: nat, last: nat, spaceLeft: nat)
      returns (rc: Code, ghost chain': seq<nat>, dst': array<Byte>, at': nat, prior': array<Byte>, priorAt': nat,
          q: nat, spaceLeft': nat)
      requires Writing(i, cell, c0, chain, payload, done, spaceLeft, dst, at, prior, priorAt, last)
      requires done < |payload| &&
        if i.iOverflow == 0 then i.nLocal == |payload| else i.iOverflow == i.nHeader + i.nLocal
      requires Kept(before, chain) && (autoVacuum ==> MapChain(chain))
      modifies this`pages, this`free, this`pageCount, this`ptrmap, prior, set p | p in free :: pages[p]
      ensures Valid() && (rc == Ok || rc == Full) && Kept(before, chain') && (rc == Full ==> chain' == chain)
      ensures rc == Ok ==>
        Writing(i, cell, c0, chain', payload, done, spaceLeft', dst', at', prior', priorAt', q) && spaceLeft' > 0
      ensures rc == Ok ==>
        spaceLeft' == (if spaceLeft == 0 then usable - 4 else spaceLeft) && (autoVacuum ==> MapChain(chain'))
      ensures rc == Ok && spaceLeft > 0 ==> chain' == chain && dst' == dst && prior' == prior
      ensures rc == Ok && spaceLeft == 0 ==>
        chain' != [] && prior' == dst' && (fresh(dst') || dst' in old(set p | p in free :: pages[p]))
      ensures forall p :: p in free ==> p in old(free) && p in pages && p in old(pages) && pages[p] == old(pages)[p]
    {
      hide Filled, Splice, Get4, MapChain, Kept, Distinct, Writing, Valid;
      rc, chain', dst', at', prior', priorAt', q, spaceLeft' := Ok, chain, dst, at, prior, priorAt, last, spaceLeft;
      WritingValid(i, cell, c0, chain, payload, done, spaceLeft, dst, at, prior, priorAt, last);
      FreeArePages();
      if spaceLeft == 0 {
        rc, q := SpillOver(before, i, cell, c0, chain, payload, done, dst, at, prior, priorAt, last);
        if rc == Ok {
          chain' := chain + [q];
          prior', priorAt', dst', at', spaceLeft' := pages[q], 0, pages[q], 4, usable - 4;
          WritingValid(i, cell, c0, chain', payload, done, spaceLeft', dst', at', prior', priorAt', q);
        }
      }
    }

    lemma WritingValid(i: CellInfo, cell: array<Byte>, c0: seq<Byte>, chain: seq<nat>, payload: seq<Byte>, done: nat,
        space: int,
        dst: array<Byte>, at: nat, prior: array<Byte>, priorAt: nat, q: nat)
      requires Writing(i, cell, c0, chain, payload, done, space, dst, at, prior, priorAt, q)
      ensures Valid() && usable > 4
    {
    }

    method CopySome(ghost before: Before, i: CellInfo, cell: array<Byte>, ghost c0: seq<Byte>, ghost chain: seq<nat>,
        ghost payload: seq<Byte>, ghost done: nat,
        ghost space: int, dst: array<Byte>, at: nat, prior: array<Byte>, priorAt: nat, q: nat, x: seq<Byte>)
      requires Writing(i, cell, c0, chain, payload, done, space, dst, at, prior, priorAt, q)
      requires Kept(before, chain) && |x| <= space && done + |x| <= |payload| && x == payload[done..done + |x|]
      modifies dst
      ensures Writing(i, cell, c0, chain, payload, done + |x|, space - |x|, dst, at + |x|, prior, priorAt, q)
      ensures Kept(before, chain)
    {
      hide Filled, Splice;
      ghost var c1, all := cell[..], Contents();
      FilledBounds(usable, i, c1, all, chain, payload, done, space);
      Write(dst, at, x);
      FilledMore(usable, i, c1, cell[..], all, Contents(), chain, payload, done, space, x);
    }

    lemma WrittenAll(f: Format, i: CellInfo, cell: array<Byte>, c0: seq<Byte>, chain: seq<nat>, payload: seq<Byte>,
        space: int,
        dst: array<Byte>, at: nat, prior: array<Byte>, priorAt: nat, q: nat)
      requires Writing(i, cell, c0, chain, payload, |payload|, space, dst, at, prior, priorAt, q)
      requires Sound(f) && f.usable == usable && i == Parsed(f, c0) && i.nSize <= cell.Length &&
        (chain != [] ==> space < usable - 4)
      requires Readable(f, c0)
      requires |payload| == PayloadSize(f, i.nKey, i.nData) && (i.iOverflow > 0 ==> i.nLocal < |payload|)
      ensures Parsed(f, cell[..]) == i && Readable(f, cell[..]) && Valid()
      ensures Stored(f, cell[..], Contents()) == payload && Chained(f, i, cell[..], Contents(), chain, |payload|)
    {
      hide Filled, Splice, Parsed, PayloadSize, Stored, Readable;
      HeaderDecides(f, c0, cell[..]);
      StillReadable(f, c0, cell[..]);
      FilledBounds(usable, i, cell[..], Contents(), chain, payload, |payload|, space);
      FilledUp(f, cell[..], Contents(), chain, payload, space);
    }

    method FreePage(p: nat)
      requires p in pages
      modifies this`free
      ensures free == old(free) + {p}
    {
      free := free + {p};
    }

    // btree.c:3864-3888. The cell's overflow pages, and no others, are free again.
    method ClearCell(f: Format, d: array<Byte>, pc: nat, ghost chain: seq<nat>) returns (rc: Code)
      requires Valid() && Sound(f) && f.usable == usable && pc <= d.Length && Readable(f, d[pc..])
      requires var i := Parsed(f, d[pc..]); i.iOverflow > 0 ==>
        Linked(usable, Contents(), Get4(d[pc..], i.iOverflow), chain)
      modifies this`free
      ensures rc == Ok && Valid()
      ensures free == old(free) + if Parsed(f, d[pc..]).iOverflow > 0 then set p | p in chain else {}
    {
      hide Parsed, Readable, Linked, Contents, Get4;
      var info := ParseCellPtr(f, d, pc);
      if info.iOverflow == 0 {
        return Ok;
      }
      var q: nat := Get4(d[pc..], info.iOverflow);
      ghost var rest, seen := chain, {};
      while q != 0
        invariant Linked(usable, Contents(), q, rest) && Valid()
        invariant (set p | p in chain) == seen + (set p | p in rest) && free == old(free) + seen
        decreases |rest|
      {
        FirstLink(usable, Contents(), q, rest);
        PageBytes(q);
        if q > pageCount {
          return Corrupt;
        }
        assert rest == [q] + rest[1..];
        assert (set p | p in rest) == {q} + (set p | p in rest[1..]);
        rest, seen := rest[1..], seen + {q};
        var p := q;
        q := Get4(pages[q][..], 0);
        FreePage(p);
      }
      FirstLink(usable, Contents(), q, rest);
      rc := Ok;
    }

    // Reading back any part of what a new cell was filled with (btree.c:2882-2961, 3902-3999): the slice
    // of key and data, however they are spread over the page and its overflow pages.
    method FillAndGet(f: Format, cell: array<Byte>, key: seq<Byte>, nKey: int, data: seq<Byte>, offset: nat, amt: nat,
        skipKey: bool)
      returns (rc: Code, out: array<Byte>, nSize: nat, ghost chain: seq<nat>)
      requires Valid() && Sound(f) && f.usable == usable && NotAPage(cell) && cell.Length == usable - 8
      requires -I63 <= nKey < I63 && (!f.intKey ==> nKey == |key|) && |key| + |data| < I31
      modifies this`pages, this`free, this`pageCount, this`ptrmap, cell, set p | p in free :: pages[p]
      ensures Valid() && rc != Corrupt && fresh(out) && out.Length == amt
      ensures var from := offset + if skipKey && !f.intKey then |key| else 0; var payload := PayloadOf(f, key, data);
        && (rc == Ok ==> from + amt <= |payload| && out[..] == payload[from..from + amt])
        && (rc == Error ==> from + amt > |payload|)
    {
      hide Parsed, Readable, Linked, Contents, Get4, Stored, MapChain, Kept, Valid, Finished, PayloadOf, PayloadSize,
        NotAPage;
      rc, nSize, chain := FillInCell(f, cell, key, nKey, data);
      out := new Byte[amt];
      if rc == Full {
        return;
      }
      ghost var i, payload := Parsed(f, cell[..]), PayloadOf(f, key, data);
      SizeOfPayload(f, i, key, data, nKey);
      assert cell[0..] == cell[..];
      FreshBuffer(out);
      rc := GetPayload(f, cell, 0, offset, amt, skipKey, out, chain);
      ghost var from := offset + if skipKey && !f.intKey then |key| else 0;
      if rc == Ok && amt == 0 {
        assert out[..] == [] == payload[from..from];
      }
    }

    lemma FreshBuffer(out: array<Byte>)
      requires forall p :: p in pages ==> pages[p] != out
      ensures NotAPage(out)
    {
    }

    // A new cell that is cleared again: the pages in use, and their bytes, are what they were.
    method FillAndClear(f: Format, cell: array<Byte>, key: seq<Byte>, nKey: int, data: seq<Byte>) returns (rc: Code)
      requires Valid() && Sound(f) && f.usable == usable && NotAPage(cell) && cell.Length == usable - 8
      requires -I63 <= nKey < I63 && (!f.intKey ==> nKey == |key|) && |key| + |data| < I31
      modifies this`pages, this`free, this`pageCount, this`ptrmap, cell, set p | p in free :: pages[p]
      ensures Valid() && (rc == Ok || rc == Full)
      ensures rc == Ok ==> pages.Keys - free == old(pages.Keys - free)
      ensures forall p :: p in old(pages) && p !in old(free) ==> p in pages && pages[p][..] == old(pages[p][..])
    {
      hide Parsed, Readable, Linked, Get4, Stored, MapChain, Stream;
      var nSize;
      ghost var chain;
      rc, nSize, chain := FillInCell(f, cell, key, nKey, data);
      if rc == Ok {
        assert cell[0..] == cell[..];
        rc := ClearCell(f, cell, 0, chain);
      }
    }
  }
}

// Cells of every page format suit the space allocator.
module CellSizes {

  import opened Bytes
  import opened Payload
  import opened Varint
  import PageSpace

  function SizeOf(f: Format): seq<Byte> -> nat
    requires Sound(f)
  {
    (s: seq<Byte>) => if Sound(f) then CellSize(f, s) else 4
  }

  lemma SizesSuit(f: Format)
    requires Sound(f)
    ensures PageSpace.SelfContained(SizeOf(f))
  {
    hide Parsed;
    forall s, t: seq<Byte> {:trigger SizeOf(f)(s), SizeOf(f)(t)} | CellSize(f, s) <= |s| && CellSize(f, s) <= |t| &&
      s[..CellSize(f, s)] == t[..CellSize(f, s)]
      ensures CellSize(f, t) == CellSize(f, s)
    {
      CellStandsAlone(f, s, t);
    }
  }

  // The child pointer that starts an interior cell does not count: a divider can be inserted before its
  // first four bytes are filled in (src/db_sqlite/btree.c:4118-4193, 4850-4861).
  lemma ChildNotCounted(f: Format, pCell: seq<Byte>)
    requires Sound(f) && !f.leaf && CellSize(f, pCell) <= |pCell|
    ensures var sz := CellSize(f, pCell); var size := SizeOf(f);
      forall t {:trigger size(t)} :: sz <= |t| && t[4..sz] == pCell[4..sz] ==> size(t) == sz
  {
    var sz, size := CellSize(f, pCell), SizeOf(f);
    forall t {:trigger size(t)} | sz <= |t| && t[4..sz] == pCell[4..sz] ensures size(t) == sz {
      ChildIgnored(f, pCell, t);
    }
  }

  lemma ChildIgnored(f: Format, s: seq<Byte>, t: seq<Byte>)
    requires Sound(f) && !f.leaf && CellSize(f, s) <= |s|
    requires CellSize(f, s) <= |t| && t[4..CellSize(f, s)] == s[4..CellSize(f, s)]
    ensures Parsed(f, t) == Parsed(f, s)
  {
    hide Length, Value, Finished;
    var m, u := CellSize(f, s), s[..4] + t[4..];
    assert u[4..] == t[4..];
    assert t[4..m] == t[4..][..m - 4] && u[..m] == s[..4] + t[4..][..m - 4];
    assert s[..m] == s[..4] + s[4..m];
    CellStandsAlone(f, s, u);
    SameFrom(u, t, 4, 4);
    SameFrom(u, t, 4, KeyAt(f, t));
  }

  lemma SameFrom(s: seq<Byte>, t: seq<Byte>, m: nat, n: nat)
    requires m <= |t| == |s| && s[m..] == t[m..] && m <= n
    ensures Tail(s, n) == Tail(t, n)
  {
    if n <= |t| {
      assert s[n..] == s[m..][n - m..] && t[n..] == t[m..][n - m..];
    }
  }
}
