// The hash table of src/db_sqlite/hash.c: all elements on one doubly linked list, on which the
// elements of a bucket follow one another.
module HashTable {

  import opened Bytes
  import opened HashKeys

  // ----- Buckets as runs of positions. buckets[i]: the bucket of the i-th element of the list.

  ghost predicate Run(buckets: seq<nat>, start: seq<nat>, counts: seq<nat>, b: nat) {
    && b < |start| == |counts| && start[b] + counts[b] <= |buckets|
    && forall i {:trigger buckets[i]} :: 0 <= i < |buckets| ==>
      (buckets[i] == b <==> start[b] <= i < start[b] + counts[b])
  }

  ghost predicate Runs(buckets: seq<nat>, start: seq<nat>, counts: seq<nat>) {
    && |start| == |counts| && (forall i :: 0 <= i < |buckets| ==> buckets[i] < |counts|)
    && forall b {:trigger Run(buckets, start, counts, b)} :: 0 <= b < |counts| ==> Run(buckets, start, counts, b)
  }

  // Where a new element of bucket b goes: before the bucket's first, or to the head of the list.
  function Place(start: seq<nat>, counts: seq<nat>, b: nat): nat
    requires b < |start| == |counts|
  {
    if counts[b] > 0 then start[b] else 0
  }

  function Shifted(start: seq<nat>, counts: seq<nat>, b: nat): (r: seq<nat>)
    requires b < |start| == |counts|
    ensures |r| == |start|
  {
    var pos := Place(start, counts, b);
    seq(|start|, c requires 0 <= c < |start| =>
      if c == b then pos else if start[c] >= pos then start[c] + 1 else start[c])
  }

  lemma RunsInsert(buckets: seq<nat>, start: seq<nat>, counts: seq<nat>, b: nat)
    requires Runs(buckets, start, counts) && b < |counts|
    ensures var pos := Place(start, counts, b);
      pos <= |buckets| &&
        Runs(buckets[..pos] + [b] + buckets[pos..], Shifted(start, counts, b), counts[b := counts[b] + 1])
  {
    assert Run(buckets, start, counts, b);
    var pos := Place(start, counts, b);
    var buckets', start', counts' := buckets[..pos] + [b] + buckets[pos..], Shifted(start, counts, b),
      counts[b := counts[b] + 1];
    forall c {:trigger Run(buckets', start', counts', c)} | 0 <= c < |counts'|
      ensures Run(buckets', start', counts', c) {
      assert Run(buckets, start, counts, c);
      assert pos < |buckets| ==> buckets'[pos + 1] == buckets[pos];
      forall i | 0 <= i < |buckets'| ensures buckets'[i] == c <==> start'[c] <= i < start'[c] + counts'[c] {
        assert i < pos ==> buckets'[i] == buckets[i];
        assert i > pos ==> buckets'[i] == buckets[i - 1];
        assert start[c] < pos && pos < |buckets| && c != b && counts[b] > 0 ==> buckets[pos] == b;
      }
    }
  }

  function Closed(start: seq<nat>, j: nat): (r: seq<nat>)
    ensures |r| == |start|
  {
    seq(|start|, c requires 0 <= c < |start| => if start[c] > j then start[c] - 1 else start[c])
  }

  lemma RunsRemove(buckets: seq<nat>, start: seq<nat>, counts: seq<nat>, j: nat)
    requires Runs(buckets, start, counts) && j < |buckets|
    ensures var b := buckets[j];
      b < |counts| && counts[b] > 0 &&
      Runs(buckets[..j] + buckets[j + 1..], Closed(start, j), counts[b := counts[b] - 1])
  {
    var b := buckets[j];
    assert Run(buckets, start, counts, b);
    var buckets', start', counts' := buckets[..j] + buckets[j + 1..], Closed(start, j), counts[b := counts[b] - 1];
    forall c {:trigger Run(buckets', start', counts', c)} | 0 <= c < |counts'|
      ensures Run(buckets', start', counts', c) {
      assert Run(buckets, start, counts, c);
      forall i | 0 <= i < |buckets'| ensures buckets'[i] == c <==> start'[c] <= i < start'[c] + counts'[c] {
        assert buckets'[i] == buckets[if i < j then i else i + 1];
      }
    }
  }

  lemma EmptyRuns(start: seq<nat>, counts: seq<nat>)
    requires |start| == |counts| && forall b :: 0 <= b < |start| ==> start[b] == 0 && counts[b] == 0
    ensures Runs([], start, counts)
  {
    forall b {:trigger Run([], start, counts, b)} | 0 <= b < |start| ensures Run([], start, counts, b) {}
  }

  // ----- The table.

  class HashElem {
    var next: HashElem?
    var prev: HashElem?
    var data: nat
    const key: Key

    constructor (key: Key)
      ensures this.key == key
    {
      this.key := key;
      next, prev, data := null, null, 0;
    }
  }

  ghost function Next(elems: seq<HashElem>, i: nat): HashElem? {
    if i + 1 < |elems| then elems[i + 1] else null
  }

  lemma NextIs(elems: seq<HashElem>, i: nat)
    ensures Next(elems, i) == if i + 1 < |elems| then elems[i + 1] else null
  {
  }

  datatype Bucket = Bucket(count: nat, chain: HashElem?)

  function Number(h: bv32): nat {
    h as nat
  }

  // The bits that a and b have in common, as the operator & gives them.
  function BitAnd(a: nat, b: nat): (r: nat)
    ensures r <= b
  {
    if a == 0 || b == 0 then 0 else 2 * BitAnd(a / 2, b / 2) + if a % 2 == 1 && b % 2 == 1 then 1 else 0
  }

  // The low bits of a hash pick the bucket.
  function Slot(h: nat, size: nat): (r: nat)
    requires size > 0
    ensures r < size
  {
    BitAnd(h, size - 1)
  }

  // The mask is a remainder because the size is a power of two; only then can every bucket be reached.
  lemma {:induction false} MaskIsRemainder(h: nat, size: nat)
    requires PowerOf2(size) && size > 0
    ensures Slot(h, size) == h % size
    decreases size
  {
    if size > 1 {
      var half := size / 2;
      MaskIsRemainder(h / 2, half);
      assert (size - 1) / 2 == half - 1 && (size - 1) % 2 == 1;
      assert Slot(h, size) == 2 * Slot(h / 2, half) + h % 2;
      Doubled(h, half);
    }
  }

  lemma Doubled(h: nat, half: nat)
    requires half > 0
    ensures 2 * (h / 2 % half) + h % 2 == h % (2 * half)
  {
    var q, r := h / 2 / half, h / 2 % half;
    assert h / 2 == q * half + r;
    assert h == 2 * (q * half + r) + h % 2 == q * (2 * half) + (2 * r + h % 2);
    Quotient(h, 2 * half, q, 2 * r + h % 2);
  }

  lemma Quotient(a: nat, k: nat, q: nat, r: nat)
    requires a == q * k + r && r < k
    ensures a % k == r
  {
    var d := a / k - q;
    assert a % k == r - d * k by { assert a == a / k * k + a % k; assert (q + d) * k == q * k + d * k; }
    assert d >= 1 ==> d * k >= k;
    assert d <= -1 ==> d * k <= 0 - k;
  }

  lemma EveryBucket(b: nat, size: nat)
    requires PowerOf2(size) && b < size
    ensures Slot(b, size) == b
  {
    hide Slot, BitAnd, PowerOf2;
    MaskIsRemainder(b, size);
    Quotient(b, size, 0, b);
  }

  function BucketOf(kind: KeyClass, k: Key, size: nat): (b: nat)
    requires size > 0
    ensures b < size
  {
    Slot(Number(HashOf(kind, k)), size)
  }

  function Buckets(kind: KeyClass, elems: seq<HashElem>, size: nat): (r: seq<nat>)
    requires size > 0
    ensures |r| == |elems|
  {
    seq(|elems|, i requires 0 <= i < |elems| => BucketOf(kind, elems[i].key, size))
  }

  predicate PowerOf2(n: nat) {
    n == 1 || (n > 1 && n % 2 == 0 && PowerOf2(n / 2))
  }

  function Counts(ht: seq<Bucket>): (r: seq<nat>)
    ensures |r| == |ht|
  {
    seq(|ht|, b requires 0 <= b < |ht| => ht[b].count)
  }

  // ----- The elements of a table, with their data, as a map.

  // Keys are plain and differ, and no element holds NULL.
  ghost predicate Plainly(kind: KeyClass, s: map<HashElem, nat>) {
    && (forall e :: e in s ==> Plain(kind, e.key) && s[e] != 0)
    && (forall d, e :: d in s && e in s && d != e ==> Canon(kind, d.key) != Canon(kind, e.key))
  }

  ghost function MapOf(kind: KeyClass, s: map<HashElem, nat>): map<seq<Byte>, nat>
    requires Plainly(kind, s)
  {
    map e | e in s :: Canon(kind, e.key) := s[e]
  }

  ghost predicate Lists(kind: KeyClass, s: map<HashElem, nat>, m: map<seq<Byte>, nat>) {
    && (forall e :: e in s ==> Canon(kind, e.key) in m && m[Canon(kind, e.key)] == s[e])
    && (forall x :: x in m ==> exists e :: e in s && Canon(kind, e.key) == x)
  }

  lemma ListsMap(kind: KeyClass, s: map<HashElem, nat>)
    requires Plainly(kind, s)
    ensures Lists(kind, s, MapOf(kind, s))
  {
    hide Plain, Canon;
  }

  lemma ListsOne(kind: KeyClass, s: map<HashElem, nat>, m: map<seq<Byte>, nat>)
    requires Plainly(kind, s) && Lists(kind, s, m)
    ensures MapOf(kind, s) == m
  {
    hide Plain, Canon;
    forall x | x in m ensures x in MapOf(kind, s) {
      var e :| e in s && Canon(kind, e.key) == x;
    }
  }

  lemma OneMore(kind: KeyClass, s: map<HashElem, nat>, e: HashElem, data: nat)
    requires Plainly(kind, s) && e !in s && Plain(kind, e.key) && data != 0 && Canon(kind, e.key) !in MapOf(kind, s)
    ensures Plainly(kind, s[e := data]) && MapOf(kind, s[e := data]) == MapOf(kind, s)[Canon(kind, e.key) := data]
  {
    hide Plain, Canon, MapOf;
    ListsMap(kind, s);
    var m, c := MapOf(kind, s), Canon(kind, e.key);
    var s' := s[e := data];
    forall x {:trigger x in m} | x in m[c := data] ensures exists d :: d in s' && Canon(kind, d.key) == x {
      assert x == c ==> e in s';
    }
    ListsOne(kind, s[e := data], m[c := data]);
  }

  lemma Overwritten(kind: KeyClass, s: map<HashElem, nat>, e: HashElem, data: nat)
    requires Plainly(kind, s) && e in s && data != 0
    ensures Plainly(kind, s[e := data]) && MapOf(kind, s[e := data]) == MapOf(kind, s)[Canon(kind, e.key) := data]
  {
    hide Plain, Canon, MapOf;
    ListsMap(kind, s);
    var m, c := MapOf(kind, s), Canon(kind, e.key);
    assert m[c := data].Keys == m.Keys && s[e := data].Keys == s.Keys;
    ListsOne(kind, s[e := data], m[c := data]);
  }

  lemma OneLess(kind: KeyClass, s: map<HashElem, nat>, e: HashElem)
    requires Plainly(kind, s) && e in s
    ensures Plainly(kind, s - {e}) && MapOf(kind, s - {e}) == MapOf(kind, s) - {Canon(kind, e.key)}
  {
    hide Plain, Canon, MapOf;
    ListsMap(kind, s);
    var m, c := MapOf(kind, s), Canon(kind, e.key);
    forall x | x in m && x != c ensures exists d :: d in s - {e} && Canon(kind, d.key) == x {
      var d :| d in s && Canon(kind, d.key) == x;
      assert d in s - {e};
    }
    ListsOne(kind, s - {e}, m - {c});
  }

  class Hash {
    const keyClass: KeyClass
    const copyKey: bool
    var count: nat
    var first: HashElem?
    var htsize: nat
    var ht: array?<Bucket>
    ghost var elems: seq<HashElem>
    ghost var start: seq<nat>

    constructor (keyClass: KeyClass, copyKey: bool)
      ensures this.keyClass == keyClass && this.copyKey == copyKey && Valid() && elems == []
    {
      this.keyClass, this.copyKey := keyClass, copyKey;
      count, first, htsize, ht, elems, start := 0, null, 0, null, [], [];
    }

    ghost function Element(i: int): HashElem?
      reads this`elems
    {
      if 0 <= i < |elems| then elems[i] else null
    }

    ghost predicate Node(i: nat)
      requires i < |elems|
      reads this`elems, elems`next, elems`prev
    {
      elems[i].next == Element(i + 1) && elems[i].prev == Element(i - 1)
    }

    ghost predicate Linked()
      reads this`elems, this`first, elems`next, elems`prev
    {
      && first == Element(0)
      && (forall i {:trigger Node(i)} :: 0 <= i < |elems| ==> Node(i))
      && (forall i, j {:trigger elems[i], elems[j]} :: 0 <= i < j < |elems| ==> elems[i] != elems[j])
    }

    // Each bucket is a run of the list, recorded by its first element and its length.
    ghost predicate Bucketed()
      reads this`elems, this`start, this`htsize, this`ht, ht
    {
      && ht != null && ht.Length == htsize && PowerOf2(htsize) && htsize > 0
      && Runs(Buckets(keyClass, elems, htsize), start, Counts(ht[..]))
      && forall b {:trigger ht[b]} :: 0 <= b < htsize ==>
        ht[b].chain == if ht[b].count > 0 then Element(start[b]) else null
    }

    ghost predicate Valid()
      reads this, elems, ht
    {
      && Linked() && count == |elems| && (ht == null <==> htsize == 0) && (ht == null ==> elems == []) &&
        (ht != null ==> Bucketed())
    }

    ghost predicate Shape()
      reads this`elems, this`first, this`start, this`htsize, this`ht, elems`next, elems`prev, ht
    {
      Linked() && Bucketed()
    }

    // The links of insertElement (hash.c:197-209): before pHead, or at the head of the list.
    method Link(pHead: HashElem?, pNew: HashElem, ghost pos: nat)
      requires Linked() && pNew !in elems && pos <= |elems|
      requires if pHead == null then pos == 0 else Element(pos) == pHead
      modifies this`first, this`elems, elems`next, elems`prev, pNew`next, pNew`prev
      ensures Linked() && elems == old(elems)[..pos] + [pNew] + old(elems)[pos..]
    {
      assert pos < |elems| ==> Node(pos);
      assert pos > 0 ==> Node(pos - 1);
      if pHead != null {
        pNew.next := pHead;
        pNew.prev := pHead.prev;
        if pHead.prev != null {
          pHead.prev.next := pNew;
        } else {
          first := pNew;
        }
        pHead.prev := pNew;
      } else {
        pNew.next := first;
        if first != null {
          first.prev := pNew;
        }
        pNew.prev := null;
        first := pNew;
      }
      elems := elems[..pos] + [pNew] + elems[pos..];
      forall i {:trigger Node(i)} | 0 <= i < |elems| ensures Node(i) {
        assert i < pos ==> old(Node(i));
        assert i > pos ==> old(Node(i - 1));
      }
    }

    // hash.c:191-212. The new element joins its bucket.
    method InsertElement(h: nat, pNew: HashElem)
      requires Shape() && h == BucketOf(keyClass, pNew.key, htsize) && pNew !in elems
      modifies this`first, this`elems, this`start, ht, elems`next, elems`prev, pNew`next, pNew`prev
      ensures Shape() && Joined(old(elems), pNew)
    {
      hide Runs, Slot, Number, HashOf, PowerOf2;
      Joining(h, pNew.key);
      ghost var pos, elems0, start0 := Place(start, Counts(ht[..]), h), elems, start;
      Link(ht[h].chain, pNew, pos);
      ghost var counts := Counts(ht[..]);
      ht[h] := Bucket(ht[h].count + 1, pNew);
      start := Shifted(start, counts, h);
      assert Counts(ht[..]) == counts[h := counts[h] + 1];
      forall b {:trigger ht[b]} | 0 <= b < htsize
        ensures ht[b].chain == if ht[b].count > 0 then Element(start[b]) else null {
        assert b != h ==> ht[b] == old(ht[b]) && (ht[b].count > 0 ==> start0[b] < |elems0|);
        assert b != h && ht[b].count > 0 ==>
          elems[if start0[b] >= pos then start0[b] + 1 else start0[b]] == elems0[start0[b]];
      }
      assert Buckets(keyClass, elems, htsize) ==
        Buckets(keyClass, elems0, htsize)[..pos] + [h] + Buckets(keyClass, elems0, htsize)[pos..];
    }

    ghost predicate Joined(elems0: seq<HashElem>, e: HashElem)
      reads this`elems
    {
      exists pos :: 0 <= pos <= |elems0| && elems == elems0[..pos] + [e] + elems0[pos..]
    }

    lemma Joining(h: nat, k: Key)
      requires Shape() && h == BucketOf(keyClass, k, htsize)
      ensures |start| == htsize
      ensures var counts := Counts(ht[..]); var pos := Place(start, counts, h);
        var buckets := Buckets(keyClass, elems, htsize);
        && pos <= |elems| &&
          Runs(buckets[..pos] + [h] + buckets[pos..], Shifted(start, counts, h), counts[h := counts[h] + 1])
        && (if ht[h].chain == null then pos == 0 else Element(pos) == ht[h].chain)
        && (forall b :: 0 <= b < htsize && ht[b].count > 0 ==> start[b] < |elems|)
    {
      hide Slot, Number, HashOf, PowerOf2;
      RunsInsert(Buckets(keyClass, elems, htsize), start, Counts(ht[..]), h);
      forall b | 0 <= b < htsize && ht[b].count > 0 ensures start[b] < |elems| {
        assert Run(Buckets(keyClass, elems, htsize), start, Counts(ht[..]), b);
        assert Counts(ht[..])[b] == ht[b].count;
      }
    }

    // The body of the loop in rehash (hash.c:231-235).
    method Reinsert(elem: HashElem) returns (nextElem: HashElem?)
      requires Shape() && elem !in elems
      modifies this`first, this`elems, this`start, ht, elems`next, elems`prev, elem`next, elem`prev
      ensures Shape() && nextElem == old(elem.next) && |elems| == |old(elems)| + 1
      ensures forall x :: x in elems <==> x == elem || x in old(elems)
    {
      hide Runs, Slot, Number, HashOf, PowerOf2, Linked, Node;
      var h := Hashed(keyClass, elem.key);
      nextElem := elem.next;
      InsertElement(Slot(Number(h), htsize), elem);
      JoinedSet(old(elems), elems, elem);
    }

    // hash.c:219-236. The same elements in newSize buckets.
    method Rehash(newSize: nat)
      requires Linked() && PowerOf2(newSize) && newSize > 0
      modifies this`first, this`elems, this`start, this`ht, this`htsize, elems`next, elems`prev
      ensures Shape() && htsize == newSize && fresh(ht)
      ensures |elems| == |old(elems)| && forall e :: e in elems <==> e in old(elems)
    {
      hide Runs, Slot, Number, HashOf, PowerOf2, Shape, Linked, Node, Bucketed, Next;
      ghost var elems0, k := elems, 0;
      Links();
      ht := new Bucket[newSize](_ => Bucket(0, null));
      htsize := newSize;
      var elem := first;
      first, elems, start := null, [], seq(newSize, _ => 0);
      EmptyTable();
      while elem != null
        invariant k <= |elems0| == |old(elems)| && ht != null && fresh(ht) && htsize == newSize &&
          elem == (if k < |elems0| then elems0[k] else null)
        invariant Shape() && |elems| == k
        invariant (forall i :: 0 <= i < k ==> elems0[i] in elems) && (forall e :: e in elems ==> e in elems0)
        invariant forall i {:trigger elems0[i]} :: k <= i < |elems0| ==>
          elems0[i] !in elems && elems0[i].next == Next(elems0, i)
        decreases |elems0| - k
      {
        NextIs(elems0, k);
        assert elem == elems0[k] && elem in old(elems);
        assert forall i :: 0 <= i < |elems| ==> elems[i] in old(elems);
        var nextElem := Reinsert(elem);
        elem, k := nextElem, k + 1;
      }
    }

    lemma Links()
      requires Linked()
      ensures first == Element(0)
      ensures forall i {:trigger elems[i]} :: 0 <= i < |elems| ==> elems[i].next == Next(elems, i)
      ensures forall i, j {:trigger elems[i], elems[j]} :: 0 <= i < j < |elems| ==> elems[i] != elems[j]
    {
      forall i {:trigger elems[i]} | 0 <= i < |elems| ensures elems[i].next == Next(elems, i) {
        assert Node(i);
      }
    }

    lemma EmptyTable()
      requires first == null && elems == [] && ht != null && ht.Length == htsize == |start| && PowerOf2(htsize) &&
        htsize > 0
      requires forall b :: 0 <= b < htsize ==> ht[b] == Bucket(0, null) && start[b] == 0
      ensures Shape()
    {
      hide Runs;
      EmptyRuns(start, Counts(ht[..]));
      assert Buckets(keyClass, elems, htsize) == [];
    }

    lemma JoinedSet(elems0: seq<HashElem>, elems1: seq<HashElem>, e: HashElem)
      requires exists pos :: 0 <= pos <= |elems0| && elems1 == elems0[..pos] + [e] + elems0[pos..]
      ensures |elems1| == |elems0| + 1 && forall x :: x in elems1 <==> x == e || x in elems0
    {
      var pos :| 0 <= pos <= |elems0| && elems1 == elems0[..pos] + [e] + elems0[pos..];
      forall x | x in elems0 ensures x in elems1 {
        assert x in elems0[..pos] + elems0[pos..];
      }
    }

    // hash.c:242-265. The first element of bucket h that compares as equal.
    method FindElementGivenHash(key: Key, h: nat) returns (elem: HashElem?)
      requires Valid() && (htsize > 0 ==> h == BucketOf(keyClass, key, htsize))
      ensures elem == null ==> forall e :: e in elems ==> !Matches(e, key)
      ensures elem != null ==> elem in elems && Matches(elem, key)
    {
      hide Runs, Slot, Number, HashOf, Equal;
      elem := null;
      if ht != null {
        InBucket(h);
        elem := ht[h].chain;
        var count := ht[h].count;
        while count > 0 && elem != null
          invariant 0 <= count <= ht[h].count
          invariant count > 0 ==> elem == Element(start[h] + ht[h].count - count) && elem != null
          invariant forall i :: start[h] <= i < start[h] + ht[h].count - count ==> !Equal(keyClass, elems[i].key, key)
          decreases count
        {
          assert Node(start[h] + ht[h].count - count);
          var r := Compare(keyClass, elem.key, key);
          if r == 0 {
            return;
          }
          count := count - 1;
          elem := elem.next;
        }
        elem := null;
      }
    }

    ghost predicate Matches(e: HashElem, key: Key)
      reads this`htsize
    {
      htsize > 0 && BucketOf(keyClass, e.key, htsize) == BucketOf(keyClass, key, htsize) && Equal(keyClass, e.key, key)
    }

    lemma InBucket(h: nat)
      requires Shape() && h < htsize
      ensures |start| == htsize && start[h] + ht[h].count <= |elems|
      ensures forall i {:trigger elems[i]} :: 0 <= i < |elems| ==>
        (BucketOf(keyClass, elems[i].key, htsize) == h <==> start[h] <= i < start[h] + ht[h].count)
    {
      hide Slot, Number, HashOf;
      assert Run(Buckets(keyClass, elems, htsize), start, Counts(ht[..]), h);
      forall i {:trigger elems[i]} | 0 <= i < |elems|
        ensures BucketOf(keyClass, elems[i].key, htsize) == Buckets(keyClass, elems, htsize)[i] {}
    }

    // The links of removeElementGivenHash (hash.c:276-283).
    method Unlink(elem: HashElem, ghost j: nat)
      requires Linked() && j < |elems| && elems[j] == elem
      modifies this`first, this`elems, elems`next, elems`prev
      ensures Linked() && elems == old(elems)[..j] + old(elems)[j + 1..] && elem.next == old(elem.next)
    {
      assert Node(j) && (j > 0 ==> Node(j - 1)) && (j + 1 < |elems| ==> Node(j + 1));
      if elem.prev != null {
        elem.prev.next := elem.next;
      } else {
        first := elem.next;
      }
      if elem.next != null {
        elem.next.prev := elem.prev;
      }
      ghost var elems0 := elems;
      elems := elems[..j] + elems[j + 1..];
      forall i {:trigger Node(i)} | 0 <= i < |elems| ensures Node(i) {
        var k := if i < j then i else i + 1;
        assert elems[i] == elems0[k] && old(Node(k));
        assert k + 1 != j && j > 0 ==> elems0[k] != elems0[j - 1];
        assert k != j + 1 && j + 1 < |elems0| ==> elems0[k] != elems0[j + 1];
      }
      forall i, k {:trigger elems[i], elems[k]} | 0 <= i < k < |elems| ensures elems[i] != elems[k] {
        assert elems[i] == elems0[if i < j then i else i + 1] && elems[k] == elems0[if k < j then k else k + 1];
      }
    }

    lemma Parting(h: nat, j: nat)
      requires Shape() && j < |elems| && h == BucketOf(keyClass, elems[j].key, htsize)
      ensures |start| == htsize && ht[h].count > 0
      ensures var counts, buckets := Counts(ht[..]), Buckets(keyClass, elems, htsize);
        Runs(buckets[..j] + buckets[j + 1..], Closed(start, j), counts[h := counts[h] - 1])
      ensures start[h] <= j < start[h] + ht[h].count <= |elems|
      ensures forall b :: 0 <= b < htsize && b != h && ht[b].count > 0 ==> start[b] < |elems| && start[b] != j
    {
      hide Slot, Number, HashOf, PowerOf2, BucketOf, Closed, Linked;
      RunsRemove(Buckets(keyClass, elems, htsize), start, Counts(ht[..]), j);
      InBucket(h);
      assert BucketOf(keyClass, elems[j].key, htsize) == h;
      forall b | 0 <= b < htsize && b != h && ht[b].count > 0 ensures start[b] < |elems| && start[b] != j {
        InBucket(b);
        assert start[b] < |elems| && BucketOf(keyClass, elems[start[b]].key, htsize) == b;
      }
    }

    // hash.c:284-291.
    method ShortenBucket(elem: HashElem, h: nat)
      requires ht != null && h < ht.Length && ht[h].count > 0
      modifies ht
      ensures ht[..] == old(ht[..])[h := Bucket(old(ht[h].count) - 1,
        if old(ht[h].count) == 1 then null else if old(ht[h].chain) == elem then elem.next else old(ht[h].chain))]
    {
      if ht[h].chain == elem {
        ht[h] := Bucket(ht[h].count, elem.next);
      }
      ht[h] := Bucket(ht[h].count - 1, ht[h].chain);
      if ht[h].count <= 0 {
        ht[h] := Bucket(ht[h].count, null);
      }
    }

    // hash.c:276-296, up to the point where an empty table is cleared.
    method RemoveFromBucket(elem: HashElem, h: nat, ghost j: nat)
      requires Shape() && j < |elems| && elems[j] == elem && h == BucketOf(keyClass, elem.key, htsize)
      modifies this`first, this`elems, this`start, ht, elems`next, elems`prev
      ensures Shape() && elems == old(elems)[..j] + old(elems)[j + 1..]
    {
      hide Runs, Slot, Number, HashOf, PowerOf2, Node, Linked, Next, BucketOf;
      Parting(h, j);
      Links();
      NextIs(elems, j);
      ghost var elems0, start0, counts := elems, start, Counts(ht[..]);
      Unlink(elem, j);
      ShortenBucket(elem, h);
      start := Closed(start, j);
      assert Counts(ht[..]) == counts[h := counts[h] - 1];
      forall b {:trigger ht[b]} | 0 <= b < htsize
        ensures ht[b].chain == if ht[b].count > 0 then Element(start[b]) else null {
        assert b != h ==> ht[b] == old(ht[b]);
        assert b != h && ht[b].count > 0 ==>
          elems[if start0[b] > j then start0[b] - 1 else start0[b]] == elems0[start0[b]];
      }
      assert Buckets(keyClass, elems, htsize) ==
        Buckets(keyClass, elems0, htsize)[..j] + Buckets(keyClass, elems0, htsize)[j + 1..];
    }

    // hash.c:50-68. freed: the elements given back, all of them.
    method HashClear() returns (ghost freed: seq<HashElem>)
      requires Linked()
      modifies this`first, this`ht, this`htsize, this`count, this`elems, this`start
      ensures Valid() && elems == [] && freed == old(elems)
    {
      var elem := first;
      first, ht, htsize := null, null, 0;
      freed := [];
      while elem != null
        invariant |freed| <= |elems| && freed == elems[..|freed|] && elem == Element(|freed|) && elems == old(elems)
        invariant forall i {:trigger Node(i)} :: 0 <= i < |elems| ==> Node(i)
        decreases |elems| - |freed|
      {
        assert Node(|freed|);
        var nextElem := elem.next;
        freed := freed + [elem];
        elem := nextElem;
      }
      count, elems, start := 0, [], [];
    }

    // hash.c:270-302.
    method RemoveElementGivenHash(elem: HashElem, h: nat)
      requires Valid() && elem in elems && h == BucketOf(keyClass, elem.key, htsize)
      modifies this`first, this`ht, this`htsize, this`count, this`elems, this`start, ht, elems`next, elems`prev
      ensures Valid() && forall e :: e in elems <==> e in old(elems) && e != elem
    {
      hide Runs, Slot, Number, HashOf, PowerOf2, Node;
      ghost var elems0 := elems;
      ghost var j :| 0 <= j < |elems| && elems[j] == elem;
      RemoveFromBucket(elem, h, j);
      PartedSet(elems0, j);
      count := count - 1;
      if count <= 0 {
        ghost var freed := HashClear();
      }
    }

    lemma PartedSet(elems0: seq<HashElem>, j: nat)
      requires j < |elems0| && forall i, k {:trigger elems0[i], elems0[k]} :: 0 <= i < k < |elems0| ==>
        elems0[i] != elems0[k]
      ensures var elems1 := elems0[..j] + elems0[j + 1..]; forall e :: e in elems1 <==> e in elems0 && e != elems0[j]
    {
      var elems1 := elems0[..j] + elems0[j + 1..];
      forall e | e in elems1 ensures e in elems0 && e != elems0[j] {
        var i :| 0 <= i < |elems1| && elems1[i] == e;
        assert e == elems0[if i < j then i else i + 1];
      }
      forall e | e in elems0 && e != elems0[j] ensures e in elems1 {
        var i :| 0 <= i < |elems0| && elems0[i] == e;
        assert elems1[if i < j then i else i - 1] == e;
      }
    }

    // ----- The table as a map.

    ghost function Snapshot(): map<HashElem, nat>
      reads this`elems, elems`data
    {
      map e | e in elems :: e.data
    }

    ghost predicate Refined()
      reads this`elems, elems`data
    {
      Plainly(keyClass, Snapshot())
    }

    ghost function Contents(): map<seq<Byte>, nat>
      requires Refined()
      reads this`elems, elems`data
    {
      MapOf(keyClass, Snapshot())
    }

    lemma MatchIsCanon(e: HashElem, key: Key)
      requires htsize > 0 && Plain(keyClass, e.key)
      ensures Matches(e, key) <==> Plain(keyClass, key) && Canon(keyClass, e.key) == Canon(keyClass, key)
    {
      hide Slot, Number, HashOf, Equal, Plain, Canon;
      EqualIsCanon(keyClass, e.key, key);
      if Plain(keyClass, key) && Canon(keyClass, e.key) == Canon(keyClass, key) {
        HashFromCanon(keyClass, e.key, key);
      }
    }

    ghost predicate LookedUp(elem: HashElem?, key: Key)
      requires Refined()
      reads this`elems, elems`data, elem
    {
      var c := Canon(keyClass, key);
      if elem == null then c !in Contents()
      else c == Canon(keyClass, elem.key) && c in Contents() && Contents()[c] == elem.data && elem in elems
    }

    lemma Looked(elem: HashElem?, key: Key)
      requires Valid() && Refined() && Plain(keyClass, key)
      requires elem == null ==> forall e :: e in elems ==> !Matches(e, key)
      requires elem != null ==> elem in elems && Matches(elem, key)
      ensures LookedUp(elem, key)
    {
      hide Slot, Number, HashOf, Equal, Plain, Canon, Matches, Bucketed, Linked;
      forall e | e in elems ensures Matches(e, key) <==> Canon(keyClass, e.key) == Canon(keyClass, key) {
        MatchIsCanon(e, key);
      }
    }

    // hash.c:308-320.
    method HashFind(key: Key) returns (data: nat)
      requires Valid()
      ensures data != 0 ==> exists e :: e in elems && Matches(e, key) && e.data == data
      ensures data == 0 && (forall e :: e in elems ==> e.data != 0) ==> forall e :: e in elems ==> !Matches(e, key)
      ensures Refined() && Plain(keyClass, key) ==>
        data == if Canon(keyClass, key) in Contents() then Contents()[Canon(keyClass, key)] else 0
    {
      hide Runs, Slot, Number, HashOf, Equal, Plain, Canon, Refined, Linked;
      if ht == null {
        assert Refined() ==> Contents() == map[] by { if Refined() { NoElements(); } }
        return 0;
      }
      var h := Hashed(keyClass, key);
      var elem := FindElementGivenHash(key, Slot(Number(h), htsize));
      assert Refined() && Plain(keyClass, key) ==>
        LookedUp(elem, key) by { if Refined() && Plain(keyClass, key) { Looked(elem, key); } }
      data := if elem != null then elem.data else 0;
    }

    lemma NoElements()
      requires elems == [] && Refined()
      ensures Contents() == map[]
    {
    }

    // What HashInsert makes of the map: NULL removes, and a copy of no bytes cannot be made.
    ghost function Updated(m: map<seq<Byte>, nat>, key: Key, data: nat): map<seq<Byte>, nat> {
      var c := Canon(keyClass, key);
      if data == 0 then m - {c}
      else if c !in m && copyKey && key.nKey <= 0 then m
      else m[c := data]
    }

    ghost function Returned(m: map<seq<Byte>, nat>, key: Key, data: nat): nat {
      var c := Canon(keyClass, key);
      if c in m then m[c] else if data != 0 && copyKey && key.nKey <= 0 then data else 0
    }

    // Make room for one more element, growing the bucket array if need be (hash.c:375-385).
    method Grow()
      requires Linked() && (ht == null <==> htsize == 0) && (ht == null ==> elems == []) &&
        (ht != null ==> Bucketed()) && count == |elems| + 1
      modifies this`first, this`elems, this`start, this`ht, this`htsize, elems`next, elems`prev
      ensures Shape() && |elems| == |old(elems)| && (ht == old(ht) || fresh(ht))
      ensures forall e :: e in elems <==> e in old(elems)
    {
      hide Runs, Linked, Bucketed;
      if htsize == 0 {
        assert PowerOf2(8);
        Rehash(8);
      }
      SomeBuckets();
      if count > htsize {
        Rehash(htsize * 2);
      }
    }

    lemma SomeBuckets()
      requires Shape()
      ensures ht != null && htsize > 0 && PowerOf2(htsize) && PowerOf2(htsize * 2)
    {
    }

    method PutInBucket(h: nat, pNew: HashElem)
      requires Shape() && h == BucketOf(keyClass, pNew.key, htsize) && pNew !in elems
      modifies this`first, this`elems, this`start, ht, elems`next, elems`prev, pNew`next, pNew`prev
      ensures Shape() && |elems| == |old(elems)| + 1 && forall e :: e in elems <==> e == pNew || e in old(elems)
    {
      hide Shape, Slot, Number, HashOf;
      ghost var elems0 := elems;
      InsertElement(h, pNew);
      JoinedSet(elems0, elems, pNew);
    }

    // The end of HashInsert (hash.c:361-391): a new element for the key.
    method AddElement(key: Key, data: nat, hraw: bv32) returns (ghost newElem: HashElem)
      requires Valid() && hraw == HashOf(keyClass, key)
      modifies this`first, this`elems, this`start, this`ht, this`htsize, this`count, ht, elems`next, elems`prev
      ensures Valid() && fresh(newElem) && newElem.key == key && Snapshot() == old(Snapshot())[newElem := data]
      ensures forall e :: e in elems <==> e == newElem || e in old(elems)
    {
      hide Runs, Slot, Number, HashOf, Linked, Bucketed, PowerOf2, Next, Node, Counts, Buckets;
      var newE := new HashElem(key);
      count := count + 1;
      Grow();
      SomeBuckets();
      var h := Slot(Number(hraw), htsize);
      assert h == BucketOf(keyClass, newE.key, htsize);
      assert forall i :: 0 <= i < |elems| ==> elems[i] in old(elems);
      PutInBucket(h, newE);
      newE.data := data;
      newElem := newE;
      ShapeHolds();
    }

    lemma ShapeHolds()
      requires Shape() && count == |elems|
      ensures Valid()
    {
    }

    ghost predicate Effect(s: map<HashElem, nat>, key: Key, data: nat, result: nat)
      reads this`elems, elems`data
    {
      Plainly(keyClass, s) && Plain(keyClass, key) ==>
        Refined() && result == Returned(MapOf(keyClass, s), key, data) &&
          Contents() == Updated(MapOf(keyClass, s), key, data)
    }

    // An element with the key is there: it is removed or gets the new data (hash.c:351-359).
    method Replace(elem: HashElem, key: Key, h: nat, data: nat) returns (result: nat)
      requires Valid() && elem in elems && h == BucketOf(keyClass, elem.key, htsize)
      requires Refined() && Plain(keyClass, key) ==> LookedUp(elem, key)
      modifies this`first, this`ht, this`htsize, this`count, this`elems, this`start, ht, elems
      ensures Valid() && Effect(old(Snapshot()), key, data, result) && forall e :: e in elems ==> e in old(elems)
    {
      hide Runs, Slot, Number, HashOf, Plain, Canon, Linked, Bucketed, PowerOf2, Plainly, MapOf;
      ghost var s := Snapshot();
      result := elem.data;
      if data == 0 {
        RemoveElementGivenHash(elem, h);
        assert Snapshot() == s - {elem};
        if old(Refined()) { OneLess(keyClass, s, elem); }
      } else {
        elem.data := data;
        assert Snapshot() == s[elem := data];
        if old(Refined()) { Overwritten(keyClass, s, elem, data); }
      }
    }

    // hash.c:337-392.
    method HashInsert(key: Key, data: nat) returns (result: nat)
      requires Valid()
      modifies this, ht, elems
      ensures Valid() && Effect(old(Snapshot()), key, data, result)
      ensures forall e :: e in elems ==> e in old(elems) || fresh(e)
    {
      hide Runs, Slot, Number, HashOf, Equal, Plain, Canon, Linked, Bucketed, PowerOf2, Plainly, MapOf;
      ghost var s := Snapshot();
      var hraw := Hashed(keyClass, key);
      var h := if htsize > 0 then Slot(Number(hraw), htsize) else 0;
      var elem := FindElementGivenHash(key, h);
      assert Refined() && Plain(keyClass, key) ==>
        LookedUp(elem, key) by { if Refined() && Plain(keyClass, key) { Looked(elem, key); } }
      if elem != null {
        result := Replace(elem, key, h, data);
        return;
      }
      if data == 0 {
        return 0;
      }
      var pKey := key;
      if copyKey {
        if key.nKey <= 0 {
          return data;
        }
        CopiedKey(keyClass, key);
        pKey := Key(Prefix(key.mem, key.nKey), key.nKey);
      }
      ghost var newElem := AddElement(pKey, data, hraw);
      if Plainly(keyClass, s) && Plain(keyClass, key) { OneMore(keyClass, s, newElem, data); }
      result := 0;
    }

    // The count is the number of keys.
    lemma CountsKeys()
      requires Valid() && Refined()
      ensures count == |Contents()|
    {
      hide Plain, Canon, Bucketed, Next, MapOf, Node;
      Links();
      KeysCounted(keyClass, elems, Snapshot());
    }
  }

  lemma KeysCounted(kind: KeyClass, elems: seq<HashElem>, s: map<HashElem, nat>)
    requires Plainly(kind, s) && (forall e :: e in s <==> e in elems)
    requires forall i, j {:trigger elems[i], elems[j]} :: 0 <= i < j < |elems| ==> elems[i] != elems[j]
    ensures |MapOf(kind, s)| == |elems|
  {
    hide Plain, Canon, MapOf;
    ListsMap(kind, s);
    var m, keys := MapOf(kind, s), seq(|elems|, i requires 0 <= i < |elems| => Canon(kind, elems[i].key));
    forall i, j | 0 <= i < j < |keys| ensures keys[i] != keys[j] {
      assert elems[i] in s && elems[j] in s;
    }
    AllDifferent(keys);
    forall c | c in m ensures c in keys {
      var e :| e in s && Canon(kind, e.key) == c;
      var i :| 0 <= i < |elems| && elems[i] == e;
      assert keys[i] == c;
    }
    forall c | c in keys ensures c in m {
      var i :| 0 <= i < |keys| && keys[i] == c;
      assert elems[i] in s;
    }
    assert m.Keys == set c | c in keys;
  }

  lemma {:induction false} AllDifferent<T>(s: seq<T>)
    requires forall i, j :: 0 <= i < j < |s| ==> s[i] != s[j]
    ensures |set x | x in s| == |s|
  {
    if s == [] {
      assert (set x | x in s) == {};
    } else {
      var t := s[..|s| - 1];
      AllDifferent(t);
      assert s == t + [s[|s| - 1]];
      assert (set x | x in s) == (set x | x in t) + {s[|s| - 1]};
    }
  }
}
