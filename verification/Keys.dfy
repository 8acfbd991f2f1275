// Key comparison of the red-black database (src/db_sqlite/btree_rb.c:182-190) and the
// abstract contents of one table: a sorted sequence of entries read as a map.
module Keys {

  newtype Byte = x: int | 0 <= x < 256

  type Key = seq<Byte>
  type Data = seq<Byte>
  type Entry = (Key, Data)

  // memcmp of the first n bytes: the difference at the first position where they differ.
  function MemCmp(a: Key, b: Key, n: nat): (r: int)
    requires n <= |a| && n <= |b|
    decreases n
  {
    if n == 0 then 0
    else if a[0] != b[0] then a[0] as int - b[0] as int
    else MemCmp(a[1..], b[1..], n - 1)
  }

  function KeyCompare(a: Key, b: Key): int
  {
    var mcmp := MemCmp(a, b, if |a| <= |b| then |a| else |b|);
    if mcmp == 0 then
      if |a| == |b| then 0 else if |a| < |b| then -1 else 1
    else
      if mcmp > 0 then 1 else -1
  }

  ghost predicate Less(a: Key, b: Key) {
    KeyCompare(a, b) == -1
  }

  // Byte-wise lexicographic order: a is a proper prefix of b, or smaller at the first difference.
  ghost predicate Lexicographic(a: Key, b: Key) {
    a < b || exists i :: 0 <= i < |a| && i < |b| && a[..i] == b[..i] && a[i] < b[i]
  }

  lemma {:induction false} MemCmpZero(a: Key, b: Key, n: nat)
    requires n <= |a| && n <= |b|
    ensures MemCmp(a, b, n) == 0 <==> a[..n] == b[..n]
    ensures MemCmp(b, a, n) == -MemCmp(a, b, n)
    decreases n
  {
    if n > 0 {
      MemCmpZero(a[1..], b[1..], n - 1);
      assert a[..n] == [a[0]] + a[1..][..n - 1];
      assert b[..n] == [b[0]] + b[1..][..n - 1];
    }
  }

  lemma {:induction false} MemCmpSign(a: Key, b: Key, n: nat)
    requires n <= |a| && n <= |b|
    ensures MemCmp(a, b, n) < 0 <==> exists i :: 0 <= i < n && a[..i] == b[..i] && a[i] < b[i]
    decreases n
  {
    if n > 0 {
      MemCmpSign(a[1..], b[1..], n - 1);
      if a[0] == b[0] {
        forall i | 0 <= i < n - 1
          ensures a[1..][..i] == b[1..][..i] <==> a[..i + 1] == b[..i + 1]
        {
          assert a[..i + 1] == [a[0]] + a[1..][..i];
          assert b[..i + 1] == [b[0]] + b[1..][..i];
          assert a[1..][..i] == a[..i + 1][1..] && b[1..][..i] == b[..i + 1][1..];
        }
        if i :| 0 <= i < n - 1 && a[1..][..i] == b[1..][..i] && a[1..][i] < b[1..][i] {
          assert a[..i + 1] == b[..i + 1] && a[i + 1] < b[i + 1];
        }
        if i :| 0 <= i < n && a[..i] == b[..i] && a[i] < b[i] {
          assert i > 0 && a[1..][..i - 1] == b[1..][..i - 1] && a[1..][i - 1] < b[1..][i - 1];
        }
      } else if a[0] < b[0] {
        assert a[..0] == b[..0];
      }
    }
  }

  lemma KeyCompareOrder(a: Key, b: Key)
    ensures KeyCompare(a, b) == 0 <==> a == b
    ensures Less(a, b) <==> Lexicographic(a, b)
    ensures KeyCompare(a, b) == -KeyCompare(b, a)
  {
    var n := if |a| <= |b| then |a| else |b|;
    MemCmpZero(a, b, n);
    MemCmpSign(a, b, n);
    assert a[..|a|] == a && b[..|b|] == b;
  }

  lemma {:induction false} LessTransitive(a: Key, b: Key, c: Key)
    requires Less(a, b) && Less(b, c)
    ensures Less(a, c)
  {
    KeyCompareOrder(a, b);
    KeyCompareOrder(b, c);
    KeyCompareOrder(a, c);
    if !(a < b) && !(b < c) {
      var i :| 0 <= i < |a| && i < |b| && a[..i] == b[..i] && a[i] < b[i];
      var j :| 0 <= j < |b| && j < |c| && b[..j] == c[..j] && b[j] < c[j];
      var k := if i <= j then i else j;
      assert a[..k] == a[..i][..k] && b[..k] == b[..i][..k] && b[..k] == b[..j][..k] && c[..k] == c[..j][..k];
      assert i < j ==> b[..j][i] == c[..j][i];
      assert j < i ==> a[..i][j] == b[..i][j];
    } else if a < b && !(b < c) {
      var j :| 0 <= j < |b| && j < |c| && b[..j] == c[..j] && b[j] < c[j];
      if j < |a| {
        assert a[..j] == b[..j];
      } else {
        assert a == b[..j][..|a|] == c[..j][..|a|] == c[..|a|];
      }
    } else if b < c && !(a < b) {
      var i :| 0 <= i < |a| && i < |b| && a[..i] == b[..i] && a[i] < b[i];
      assert c[..i] == b[..i];
    }
  }

  // Entries in strictly ascending key order.
  ghost predicate Sorted(e: seq<Entry>) {
    forall i, j :: 0 <= i < j < |e| ==> Less(e[i].0, e[j].0)
  }

  ghost function MapOf(e: seq<Entry>): map<Key, Data> {
    if |e| == 0 then map[] else MapOf(e[..|e| - 1])[e[|e| - 1].0 := e[|e| - 1].1]
  }

  lemma {:induction false} MapOfEntries(e: seq<Entry>)
    requires Sorted(e)
    ensures forall i :: 0 <= i < |e| ==> e[i].0 in MapOf(e) && MapOf(e)[e[i].0] == e[i].1
    ensures forall k :: k in MapOf(e) ==> exists i :: 0 <= i < |e| && e[i].0 == k
  {
    if |e| > 0 {
      var d := e[..|e| - 1];
      MapOfEntries(d);
      forall i | 0 <= i < |e|
        ensures e[i].0 in MapOf(e) && MapOf(e)[e[i].0] == e[i].1
      {
        if i < |d| {
          assert d[i] == e[i];
          KeyCompareOrder(e[i].0, e[|d|].0);
        }
      }
      forall k | k in MapOf(e)
        ensures exists i :: 0 <= i < |e| && e[i].0 == k
      {
        if k != e[|d|].0 {
          var i :| 0 <= i < |d| && d[i].0 == k;
          assert e[i].0 == k;
        }
      }
    }
  }

  // Two sorted sequences with the same bindings are the same map.
  lemma MapOfExtensional(e: seq<Entry>, m: map<Key, Data>)
    requires Sorted(e)
    requires forall i :: 0 <= i < |e| ==> e[i].0 in m && m[e[i].0] == e[i].1
    requires forall k :: k in m ==> exists i :: 0 <= i < |e| && e[i].0 == k
    ensures MapOf(e) == m
  {
    MapOfEntries(e);
    forall k ensures k in MapOf(e) <==> k in m {
      if k in MapOf(e) { var i :| 0 <= i < |e| && e[i].0 == k; }
      if k in m { var i :| 0 <= i < |e| && e[i].0 == k; }
    }
    forall k | k in m ensures MapOf(e)[k] == m[k] {
      var i :| 0 <= i < |e| && e[i].0 == k;
    }
  }

  // The slot of a key: everything before it is smaller, everything from it on is larger.
  ghost predicate Slot(e: seq<Entry>, key: Key, k: int) {
    && 0 <= k <= |e|
    && (forall i :: 0 <= i < k ==> Less(e[i].0, key))
    && (forall i :: k <= i < |e| ==> Less(key, e[i].0))
  }

  ghost function InsertAt(e: seq<Entry>, k: int, x: Entry): seq<Entry>
    requires 0 <= k <= |e|
  {
    e[..k] + [x] + e[k..]
  }

  ghost function RemoveAt(e: seq<Entry>, k: int): (r: seq<Entry>)
    requires 0 <= k < |e|
    ensures |r| == |e| - 1
  {
    e[..k] + e[k + 1..]
  }

  lemma SlotAbsent(e: seq<Entry>, key: Key, k: int)
    requires Sorted(e) && Slot(e, key, k)
    ensures key !in MapOf(e)
  {
    MapOfEntries(e);
    if key in MapOf(e) {
      var i :| 0 <= i < |e| && e[i].0 == key;
      KeyCompareOrder(key, key);
    }
  }

  lemma DistinctKeys(e: seq<Entry>, i: int, j: int)
    requires Sorted(e) && 0 <= i < |e| && 0 <= j < |e| && i != j
    ensures e[i].0 != e[j].0
  {
    KeyCompareOrder(e[i].0, e[j].0);
    KeyCompareOrder(e[j].0, e[i].0);
  }

  lemma RemoveAtIndex(e: seq<Entry>, k: int, i: int)
    requires 0 <= k < |e| && 0 <= i < |e| - 1
    ensures RemoveAt(e, k)[i] == if i < k then e[i] else e[i + 1]
  {
  }

  lemma RemoveKeepsSorted(e: seq<Entry>, k: int)
    requires Sorted(e) && 0 <= k < |e|
    ensures Sorted(RemoveAt(e, k))
  {
    var f := RemoveAt(e, k);
    forall i, j | 0 <= i < j < |f| ensures Less(f[i].0, f[j].0) {
      RemoveAtIndex(e, k, i);
      RemoveAtIndex(e, k, j);
    }
  }

  lemma RemoveSorted(e: seq<Entry>, k: int)
    requires Sorted(e) && 0 <= k < |e|
    ensures Sorted(RemoveAt(e, k))
    ensures e[k].0 in MapOf(e) && MapOf(e)[e[k].0] == e[k].1
    ensures MapOf(RemoveAt(e, k)) == MapOf(e) - {e[k].0}
  {
    hide Sorted, MapOf, RemoveAt;
    RemoveKeepsSorted(e, k);
    MapOfEntries(e);
    var f, m := RemoveAt(e, k), MapOf(e) - {e[k].0};
    forall i | 0 <= i < |f| ensures f[i].0 in m && m[f[i].0] == f[i].1 {
      RemoveAtIndex(e, k, i);
      DistinctKeys(e, k, if i < k then i else i + 1);
    }
    forall y | y in m ensures exists i :: 0 <= i < |f| && f[i].0 == y { OtherKeyStays(e, k, y); }
    MapOfExtensional(f, m);
  }

  lemma OtherKeyStays(e: seq<Entry>, k: int, y: Key)
    requires 0 <= k < |e| && y != e[k].0
    requires exists i :: 0 <= i < |e| && e[i].0 == y
    ensures exists i :: 0 <= i < |RemoveAt(e, k)| && RemoveAt(e, k)[i].0 == y
  {
    var i :| 0 <= i < |e| && e[i].0 == y;
    RemoveAtIndex(e, k, if i < k then i else i - 1);
    assert RemoveAt(e, k)[if i < k then i else i - 1].0 == y;
  }

  lemma InsertKeepsSorted(e: seq<Entry>, k: int, x: Entry)
    requires Sorted(e) && Slot(e, x.0, k)
    ensures Sorted(InsertAt(e, k, x))
    ensures RemoveAt(InsertAt(e, k, x), k) == e
  {
  }

  lemma InsertSorted(e: seq<Entry>, k: int, x: Entry)
    requires Sorted(e) && Slot(e, x.0, k)
    ensures Sorted(InsertAt(e, k, x))
    ensures x.0 !in MapOf(e)
    ensures MapOf(InsertAt(e, k, x)) == MapOf(e)[x.0 := x.1]
    ensures MapOf(InsertAt(e, k, x)) - {x.0} == MapOf(e)
  {
    InsertKeepsSorted(e, k, x);
    SlotAbsent(e, x.0, k);
    RemoveSorted(InsertAt(e, k, x), k);
  }

  lemma ReplaceSorted(e: seq<Entry>, k: int, d: Data)
    requires Sorted(e) && 0 <= k < |e|
    ensures Sorted(e[k := (e[k].0, d)])
    ensures MapOf(e[k := (e[k].0, d)]) == MapOf(e)[e[k].0 := d]
    ensures e[k].0 in MapOf(e) && MapOf(e)[e[k].0] == e[k].1
  {
    var f := e[k := (e[k].0, d)];
    MapOfEntries(e);
    var m := MapOf(e)[e[k].0 := d];
    forall i | 0 <= i < |f| ensures f[i].0 in m && m[f[i].0] == f[i].1 {
      if i < k { KeyCompareOrder(e[i].0, e[k].0); }
      if i > k { KeyCompareOrder(e[k].0, e[i].0); }
    }
    forall y | y in m ensures exists i :: 0 <= i < |f| && f[i].0 == y {
      var i :| 0 <= i < |e| && e[i].0 == y;
      assert f[i].0 == y;
    }
    MapOfExtensional(f, m);
  }
}
