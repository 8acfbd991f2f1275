// Variable-length integers (src/db_sqlite/util.c:1142-1232): 1 to 9 bytes of 7 bits, the most
// significant first, the ninth of 8 bits.
module Varint {

  import opened Bytes

  const U64 := 0x1_0000_0000_0000_0000
  const U32 := 0x1_0000_0000

  function Pow128(n: nat): nat {
    if n == 0 then 1 else 128 * Pow128(n - 1)
  }

  // The low n groups of v, each marked as followed by another.
  function Flagged(v: nat, n: nat): (r: seq<Byte>)
    ensures |r| == n && forall i :: 0 <= i < n ==> r[i] >= 128
  {
    if n == 0 then [] else Flagged(v / 128, n - 1) + [v % 128 + 128]
  }

  // Groups v takes.
  function Groups(v: nat): (n: nat)
    ensures n >= 1 && v < Pow128(n) && (n == 1 || v >= Pow128(n - 1))
  {
    if v < 128 then 1 else 1 + Groups(v / 128)
  }

  // The bytes of v.
  function Encode(v: nat): (r: seq<Byte>)
    requires v < U64
    ensures 1 <= |r| <= 9
  {
    if v >= 0x100_0000_0000_0000 then Flagged(v / 256, 8) + [v % 256]
    else
      Pow8();
      FewGroups(v, 8);
      Flagged(v / 128, Groups(v) - 1) + [v % 128]
  }

  lemma {:induction false} FewGroups(v: nat, n: nat)
    requires v < Pow128(n) && n > 0
    ensures Groups(v) <= n
  {
    if v >= 128 {
      FewGroups(v / 128, n - 1);
    }
  }

  // Index of the last byte of the number at the start of s: the first byte without a flag, at most
  // the ninth.
  function LastByte(s: seq<Byte>, n: nat): (r: nat)
    requires n <= 8
    ensures n <= r <= 8 && (forall j :: n <= j < r ==> At(s, j) >= 128) && (r < 8 ==> At(s, r) < 128)
    decreases 8 - n
  {
    if n == 8 || At(s, n) < 128 then n else LastByte(s, n + 1)
  }

  // The number that the first n groups make.
  function Joined(s: seq<Byte>, n: nat): nat {
    if n == 0 then 0 else Joined(s, n - 1) * 128 + At(s, n - 1) % 128
  }

  function Length(s: seq<Byte>): (n: nat)
    ensures 1 <= n <= 9
  {
    LastByte(s, 0) + 1
  }

  function Value(s: seq<Byte>): nat {
    var n := LastByte(s, 0);
    if n == 8 then Joined(s, 8) * 256 + At(s, 8) else Joined(s, n + 1)
  }

  lemma {:induction false} JoinedBelow(s: seq<Byte>, n: nat)
    ensures Joined(s, n) < Pow128(n)
  {
    if n > 0 {
      JoinedBelow(s, n - 1);
    }
  }

  lemma {:induction false} PowUp(m: nat, n: nat)
    requires m <= n
    ensures Pow128(m) <= Pow128(n)
    decreases n
  {
    if m < n {
      PowUp(m, n - 1);
    }
  }

  lemma Pow8()
    ensures Pow128(8) == 0x100_0000_0000_0000
  {
    assert Pow128(2) == 0x4000;
    assert Pow128(4) == 0x1000_0000;
    assert Pow128(6) == 0x400_0000_0000;
  }

  lemma ValueBelow(s: seq<Byte>)
    ensures Value(s) < U64
  {
    hide Pow128, Joined;
    var n := LastByte(s, 0);
    JoinedBelow(s, if n == 8 then 8 else n + 1);
    PowUp(if n == 8 then 8 else n + 1, 8);
    Pow8();
  }

  // Where s and t agree, so do their numbers.
  lemma {:induction false} JoinedSame(s: seq<Byte>, t: seq<Byte>, n: nat)
    requires forall k :: 0 <= k < n ==> At(s, k) == At(t, k)
    ensures Joined(s, n) == Joined(t, n)
  {
    if n > 0 {
      JoinedSame(s, t, n - 1);
    }
  }

  lemma SameNumber(s: seq<Byte>, t: seq<Byte>)
    requires forall k :: 0 <= k < Length(s) ==> At(s, k) == At(t, k)
    ensures Length(t) == Length(s) && Value(t) == Value(s)
  {
    hide Joined, LastByte, At;
    var m, n := LastByte(s, 0), LastByte(t, 0);
    assert n < m ==> At(s, n) == At(t, n);
    assert At(s, m) == At(t, m);
    JoinedSame(s, t, if n == 8 then 8 else n + 1);
  }

  lemma {:induction false} FlaggedJoined(v: nat, n: nat, s: seq<Byte>)
    requires v < Pow128(n) && n <= |s| && s[..n] == Flagged(v, n)
    ensures Joined(s, n) == v
  {
    if n > 0 {
      var f := Flagged(v / 128, n - 1);
      assert Flagged(v, n) == f + [v % 128 + 128];
      assert s[..n - 1] == s[..n][..n - 1] == f;
      FlaggedJoined(v / 128, n - 1, s);
      assert At(s, n - 1) == s[..n][n - 1] == v % 128 + 128;
    }
  }

  lemma DecodeEncode(v: nat)
    requires v < U64
    ensures Length(Encode(v)) == |Encode(v)| && Value(Encode(v)) == v
  {
    hide Flagged, Joined, Groups, Pow128, LastByte;
    var e := Encode(v);
    var n := |e| - 1;
    Pow8();
    if v >= 0x100_0000_0000_0000 {
      assert e[..8] == Flagged(v / 256, 8);
      FlaggedJoined(v / 256, 8, e);
    } else {
      FewGroups(v, 8);
      GroupsAbove(v);
      assert e[..n] == Flagged(v / 128, n);
      FlaggedJoined(v / 128, n, e);
      assert At(e, n) == v % 128;
      JoinedStep(e, n);
    }
    assert forall j :: 0 <= j < n ==> At(e, j) >= 128;
  }

  lemma GroupsAbove(v: nat)
    ensures v / 128 < Pow128(Groups(v) - 1)
  {
    assert Pow128(Groups(v)) == 128 * Pow128(Groups(v) - 1);
  }

  lemma JoinedStep(s: seq<Byte>, n: nat)
    ensures Joined(s, n + 1) == Joined(s, n) * 128 + At(s, n) % 128
  {
  }

  // Reading back what was written, whatever follows.
  lemma RoundTrip(v: nat, s: seq<Byte>)
    requires v < U64 && |Encode(v)| <= |s| && s[..|Encode(v)|] == Encode(v)
    ensures Length(s) == |Encode(v)| && Value(s) == v
  {
    hide Encode, Length, Value;
    DecodeEncode(v);
    forall k | 0 <= k < Length(Encode(v)) ensures At(Encode(v), k) == At(s, k) {
      assert s[..|Encode(v)|][k] == s[k];
    }
    SameNumber(Encode(v), s);
  }

  // util.c:1142-1165. v is written at d[at..].
  method PutVarint(d: array<Byte>, at: nat, v: nat) returns (n: nat)
    requires v < U64 && at + |Encode(v)| <= d.Length
    modifies d
    ensures n == |Encode(v)| && d[..] == Splice(old(d[..]), at, Encode(v)) && d[at..at + n] == Encode(v)
    ensures forall j :: 0 <= j < d.Length && !(at <= j < at + n) ==> d[j] == old(d[j])
  {
    hide Flagged, Groups, Splice, Encode;
    SpliceAt(d[..], at, Encode(v));
    EncodeParts(v);
    if v >= 0x100_0000_0000_0000 {
      PutNine(d, at, v);
      n := 9;
    } else {
      n := PutFew(d, at, v);
    }
  }

  // Nine bytes, the last of 8 bits (util.c:1144-1152).
  method PutNine(d: array<Byte>, at: nat, v: nat)
    requires 0x100_0000_0000_0000 <= v < U64 && at + |Encode(v)| <= d.Length
    modifies d
    ensures |Encode(v)| == 9
    ensures forall j :: 0 <= j < d.Length ==> d[j] == if at <= j < at + 9 then Encode(v)[j - at] else old(d[j])
  {
    hide Flagged, Groups, Splice, Encode;
    ghost var e := Encode(v);
    EncodeParts(v);
    d[at + 8] := v % 256;
    var x: nat := v / 256;
    var i := 7;
    while i >= 0
      invariant -1 <= i <= 7 && |e| == 9 && Flagged(x, i + 1) == e[..i + 1]
      invariant forall j :: 0 <= j < d.Length ==> d[j] == if at + i < j < at + 9 then e[j - at] else old(d[j])
    {
      FlaggedStep(x, i + 1, e[..i + 1]);
      assert e[..i + 1][..i] == e[..i];
      d[at + i] := x % 128 + 128;
      x := x / 128;
      i := i - 1;
    }
  }

  // Up to eight bytes: the groups come out last first (util.c:1153-1164).
  method PutFew(d: array<Byte>, at: nat, v: nat) returns (n: nat)
    requires v < 0x100_0000_0000_0000 && at + |Encode(v)| <= d.Length
    modifies d
    ensures n == |Encode(v)|
    ensures forall j :: 0 <= j < d.Length ==> d[j] == if at <= j < at + n then Encode(v)[j - at] else old(d[j])
  {
    hide Flagged, Groups, Splice, Encode;
    ghost var e := Encode(v);
    EncodeParts(v);
    var buf := new Byte[10];
    var x: nat := v / 128;
    buf[0], n := v % 128, 1;
    while x != 0
      modifies buf
      invariant 1 <= n <= |e| <= 9 && (x != 0 <==> n < |e|) && (x != 0 ==> Groups(x) == |e| - n)
      invariant forall k :: 0 <= k < n ==> buf[k] == e[|e| - 1 - k]
      invariant Flagged(x, |e| - n) == e[..|e| - n]
      decreases |e| - n
    {
      FlaggedStep(x, |e| - n, e[..|e| - n]);
      assert e[..|e| - n][..|e| - n - 1] == e[..|e| - n - 1];
      GroupsStep(x);
      buf[n] := x % 128 + 128;
      n, x := n + 1, x / 128;
    }
    WriteBackwards(d, at, buf, n, e);
  }

  // The last loop of util.c:1142-1165.
  method WriteBackwards(d: array<Byte>, at: nat, buf: array<Byte>, n: nat, ghost e: seq<Byte>)
    requires n == |e| <= buf.Length && d != buf && at + n <= d.Length && forall k :: 0 <= k < n ==>
      buf[k] == e[|e| - 1 - k]
    modifies d
    ensures forall k :: 0 <= k < d.Length ==> d[k] == if at <= k < at + n then e[k - at] else old(d[k])
  {
    var i, j := 0, n - 1;
    while j >= 0
      invariant -1 <= j < n && i + j == n - 1
      invariant forall k :: 0 <= k < d.Length ==> d[k] == if at <= k < at + i then e[k - at] else old(d[k])
    {
      assert buf[j] == e[i];
      d[at + i] := buf[j];
      i, j := i + 1, j - 1;
    }
  }

  lemma EncodeParts(v: nat)
    requires v < U64
    ensures var e := Encode(v); v >= 0x100_0000_0000_0000 ==>
      |e| == 9 && e[..8] == Flagged(v / 256, 8) && e[8] == v % 256
    ensures var e := Encode(v); v < 0x100_0000_0000_0000 ==>
      && |e| == Groups(v) && e[..|e| - 1] == Flagged(v / 128, |e| - 1) && e[|e| - 1] == v % 128
      && (v / 128 != 0 <==> |e| > 1) && (v / 128 != 0 ==> Groups(v / 128) == |e| - 1)
  {
    if v < 0x100_0000_0000_0000 {
      Pow8();
      FewGroups(v, 8);
    }
  }

  lemma FlaggedStep(x: nat, n: nat, f: seq<Byte>)
    requires n > 0 && f == Flagged(x, n)
    ensures f[n - 1] == x % 128 + 128 && f[..n - 1] == Flagged(x / 128, n - 1)
  {
  }

  lemma GroupsStep(x: nat)
    ensures x / 128 != 0 <==> Groups(x) > 1
    ensures x / 128 != 0 ==> Groups(x / 128) == Groups(x) - 1
  {
  }

  lemma FirstGroups(s: seq<Byte>)
    ensures Joined(s, 1) == At(s, 0) % 128 && Joined(s, 2) == Joined(s, 1) * 128 + At(s, 1) % 128
    ensures Joined(s, 3) == Joined(s, 2) * 128 + At(s, 2) % 128 && Joined(s, 4) == Joined(s, 3) * 128 + At(s, 3) % 128
    ensures LastByte(s, 0) == if At(s, 0) < 128 then 0 else if At(s, 1) < 128 then 1 else LastByte(s, 2)
    ensures LastByte(s, 2) == if At(s, 2) < 128 then 2 else if At(s, 3) < 128 then 3 else LastByte(s, 4)
  {
    assert LastByte(s, 0) == if At(s, 0) < 128 then 0 else LastByte(s, 1);
    assert LastByte(s, 2) == if At(s, 2) < 128 then 2 else LastByte(s, 3);
  }

  // util.c:1171-1207.
  method GetVarint(d: array<Byte>, p: nat) returns (n: nat, v: nat)
    requires p <= d.Length && p + Length(d[p..]) <= d.Length
    ensures n == Length(d[p..]) && v == Value(d[p..])
  {
    hide Joined, LastByte, At;
    ghost var s := d[p..];
    FirstGroups(s);
    if Length(s) < 9 { ValueShort(s); ValueBelow(s); }
    assert At(s, 0) == d[p] && (p + 1 < d.Length ==> At(s, 1) == d[p + 1]) &&
      (p + 2 < d.Length ==> At(s, 2) == d[p + 2])
      && (p + 3 < d.Length ==> At(s, 3) == d[p + 3]) by { InTail(s); }
    if d[p] < 128 {
      return 1, d[p];
    }
    var x: int := d[p] % 128;
    if d[p + 1] < 128 {
      return 2, x * 128 + d[p + 1];
    }
    x := x * 128 + d[p + 1] % 128;
    if d[p + 2] < 128 {
      return 3, x * 128 + d[p + 2];
    }
    x := x * 128 + d[p + 2] % 128;
    if d[p + 3] < 128 {
      return 4, x * 128 + d[p + 3];
    }
    x := x * 128 + d[p + 3] % 128;
    n, v := LongValue(d, p, x);
  }

  // The loop of util.c:1196-1204: groups from the fifth on, and the whole ninth byte.
  method LongValue(d: array<Byte>, p: nat, first: nat) returns (n: nat, v: nat)
    requires p <= d.Length && p + Length(d[p..]) <= d.Length
    requires LastByte(d[p..], 0) == LastByte(d[p..], 4) && first == Joined(d[p..], 4)
    ensures n == Length(d[p..]) && v == Value(d[p..])
  {
    hide Joined, LastByte, At;
    ghost var s := d[p..];
    n := 4;
    var x := first;
    var c: int := 128;
    while c >= 128
      invariant 4 <= n <= 9 && (c >= 128 <==> LastByte(s, 0) >= n) &&
        (c >= 128 ==> n <= 8 && LastByte(s, 0) == LastByte(s, n))
      invariant c >= 128 ==> x == Joined(s, n)
      invariant c < 128 ==> n == LastByte(s, 0) + 1 && x == Value(s)
      decreases 9 - n
    {
      LastStep(s, n);
      AtTail(s, n);
      c := d[p + n];
      n := n + 1;
      if n == 9 {
        x := x * 256 + c;
        break;
      }
      JoinedStep(s, n - 1);
      x := x * 128 + c % 128;
    }
    v := x;
  }

  // util.c:1213-1233. The value modulo 2^32; of a ninth byte only the low seven bits are read.
  method GetVarint32(d: array<Byte>, p: nat) returns (n: nat, v: nat)
    requires p <= d.Length && p + Length(d[p..]) <= d.Length
    ensures n == Length(d[p..]) && v < U32 && (n < 9 ==> v == Value(d[p..]) % U32)
    ensures n == 9 ==> v == Joined(d[p..], 9) % U32
  {
    hide Joined, LastByte, At;
    ghost var s := d[p..];
    FirstGroups(s);
    if Length(s) < 9 { ValueShort(s); ValueBelow(s); }
    assert At(s, 0) == d[p] && (p + 1 < d.Length ==> At(s, 1) == d[p + 1]) &&
      (p + 2 < d.Length ==> At(s, 2) == d[p + 2])
      && (p + 3 < d.Length ==> At(s, 3) == d[p + 3]) by { InTail(s); }
    if d[p] < 128 {
      return 1, d[p];
    }
    var x: int := d[p] % 128;
    if d[p + 1] < 128 {
      return 2, x * 128 + d[p + 1];
    }
    x := x * 128 + d[p + 1] % 128;
    n, v := MoreGroups(d, p, x);
  }

  // The loop of util.c:1224-1230: groups from the third on.
  method MoreGroups(d: array<Byte>, p: nat, first: nat) returns (n: nat, v: nat)
    requires p <= d.Length && p + Length(d[p..]) <= d.Length
    requires LastByte(d[p..], 0) == LastByte(d[p..], 2) && first == Joined(d[p..], 2)
    ensures n == Length(d[p..]) && v == Joined(d[p..], n) % U32
  {
    hide Joined, LastByte, At;
    ghost var s := d[p..];
    JoinedBelow2(s);
    n := 2;
    var x := first;
    var c: int := 128;
    while c >= 128 && n < 9
      invariant 2 <= n <= 9 && x == Joined(s, n) % U32
      invariant if c >= 128 && n < 9 then LastByte(s, 0) == LastByte(s, n) else n == LastByte(s, 0) + 1
      decreases 9 - n
    {
      LastStep(s, n);
      AtTail(s, n);
      c := d[p + n];
      n := n + 1;
      JoinedStep(s, n - 1);
      ModStep(Joined(s, n - 1), c % 128);
      x := (x * 128 + c % 128) % U32;
    }
    v := x;
  }

  lemma JoinedBelow2(s: seq<Byte>)
    ensures Joined(s, 2) < 0x4000
  {
    JoinedBelow(s, 2);
    assert Pow128(2) == 0x4000;
  }

  lemma ValueShort(s: seq<Byte>)
    requires Length(s) < 9
    ensures Value(s) == Joined(s, Length(s))
  {
  }

  lemma LastStep(s: seq<Byte>, n: nat)
    requires n <= 8
    ensures LastByte(s, n) == if n == 8 || At(s, n) < 128 then n else LastByte(s, n + 1)
  {
  }

  lemma AtTail(s: seq<Byte>, n: nat)
    requires n < |s|
    ensures At(s, n) == s[n]
  {
  }

  lemma InTail(s: seq<Byte>)
    ensures forall n :: 0 <= n < |s| ==> At(s, n) == s[n]
  {
  }

  lemma ModStep(a: nat, b: nat)
    ensures (a % U32 * 128 + b) % U32 == (a * 128 + b) % U32
  {
    assert a * 128 + b == a % U32 * 128 + b + (a / U32 * 128) * U32;
  }
}
