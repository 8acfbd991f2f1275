// Bytes and big-endian numbers (src/db_sqlite/btree.c:385-399).
module Bytes {

  type Byte = x: int | 0 <= x < 256

  // Memory as far as it is known; what lies beyond reads as zero.
  function At(s: seq<Byte>, i: nat): Byte {
    if i < |s| then s[i] else 0
  }

  // Upper case to lower case, in ASCII (src/db_sqlite/util.c:827-843).
  function Lower(b: Byte): Byte {
    if 65 <= b <= 90 then b + 32 else b
  }

  function Get4(s: seq<Byte>, i: nat): (v: nat)
    ensures v < 0x1_0000_0000
  {
    0x100_0000 * At(s, i) + 0x1_0000 * At(s, i + 1) + 0x100 * At(s, i + 2) + At(s, i + 3)
  }

  function Big4(v: nat): (r: seq<Byte>)
    requires v < 0x1_0000_0000
    ensures |r| == 4
  {
    [v / 0x100_0000, v / 0x1_0000 % 0x100, v / 0x100 % 0x100, v % 0x100]
  }

  // s with t at position i.
  function Splice(s: seq<Byte>, i: nat, t: seq<Byte>): (r: seq<Byte>)
    requires i + |t| <= |s|
    ensures |r| == |s|
  {
    s[..i] + t + s[i + |t|..]
  }

  lemma SpliceAt(s: seq<Byte>, i: nat, t: seq<Byte>)
    requires i + |t| <= |s|
    ensures forall j :: 0 <= j < |s| ==> Splice(s, i, t)[j] == if i <= j < i + |t| then t[j - i] else s[j]
  {
  }

  lemma Big4Gets(s: seq<Byte>, i: nat, v: nat)
    requires v < 0x1_0000_0000 && i + 4 <= |s|
    ensures Get4(Splice(s, i, Big4(v)), i) == v
  {
    hide Splice, Get4;
    var t := Splice(s, i, Big4(v));
    SpliceAt(s, i, Big4(v));
    Digits(t, i, v);
  }

  lemma Digits(t: seq<Byte>, i: nat, v: nat)
    requires v < 0x1_0000_0000 && i + 4 <= |t| && forall k :: 0 <= k < 4 ==> t[i + k] == Big4(v)[k]
    ensures Get4(t, i) == v
  {
    assert t[i] == Big4(v)[0] && t[i + 1] == Big4(v)[1] && t[i + 2] == Big4(v)[2] && t[i + 3] == Big4(v)[3];
  }

  method Write(d: array<Byte>, at: nat, t: seq<Byte>)
    requires at + |t| <= d.Length
    modifies d
    ensures d[..] == Splice(old(d[..]), at, t) && d[at..at + |t|] == t
    ensures forall j :: 0 <= j < d.Length && !(at <= j < at + |t|) ==> d[j] == old(d[j])
  {
    SpliceAt(d[..], at, t);
    var i := 0;
    while i < |t|
      invariant i <= |t|
      invariant forall j :: 0 <= j < d.Length ==> d[j] == if at <= j < at + i then t[j - at] else old(d[j])
    {
      d[at + i] := t[i];
      i := i + 1;
    }
  }

  // The 4-byte number v at d[at..].
  method Put4(d: array<Byte>, at: nat, v: nat)
    requires at + 4 <= d.Length && v < 0x1_0000_0000
    modifies d
    ensures d[..] == Splice(old(d[..]), at, Big4(v)) && Get4(d[..], at) == v
  {
    Big4Gets(d[..], at, v);
    Write(d, at, Big4(v));
  }

  // t after the done bytes already at d[at..].
  method WriteOn(d: array<Byte>, at: nat, done: nat, t: seq<Byte>)
    requires at + done + |t| <= d.Length
    modifies d
    ensures d[at..at + done + |t|] == old(d[at..at + done]) + t
    ensures forall j :: 0 <= j < d.Length && !(at + done <= j < at + done + |t|) ==> d[j] == old(d[j])
  {
    hide Splice;
    Write(d, at + done, t);
    assert d[at..at + done] == old(d[at..at + done]);
    assert d[at..at + done + |t|] == d[at..at + done] + d[at + done..at + done + |t|];
  }
}
