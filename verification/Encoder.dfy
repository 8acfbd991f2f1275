// Binary data as a string without quotes and zeros (src/db_sqlite/encode.c:123-187).
module Encoder {

  import opened Bytes

  const QUOTE: Byte := 39

  // Offsets the first byte of an encoding may hold.
  predicate Legal(e: int) { 1 <= e < 256 && e != QUOTE }

  function Minus(b: Byte, e: Byte): Byte { (b - e) % 256 }

  predicate NeedsEscape(x: Byte) { x == 0 || x == 1 || x == QUOTE }

  function Piece(b: Byte, e: Byte): seq<Byte> {
    var x := Minus(b, e);
    if NeedsEscape(x) then [1, x + 1] else [x]
  }

  function Body(s: seq<Byte>, e: Byte): seq<Byte> {
    if s == [] then [] else Body(s[..|s| - 1], e) + Piece(s[|s| - 1], e)
  }

  // The string without its terminator.
  function Encoded(s: seq<Byte>, e: Byte): seq<Byte> { [e] + Body(s, e) }

  // Bytes that offset e makes escape.
  function Escapes(s: seq<Byte>, e: Byte): nat {
    if s == [] then 0 else Escapes(s[..|s| - 1], e) + if NeedsEscape(Minus(s[|s| - 1], e)) then 1 else 0
  }

  lemma {:induction false} BodyLength(s: seq<Byte>, e: Byte)
    ensures |Body(s, e)| == |s| + Escapes(s, e)
  {
    if s != [] {
      BodyLength(s[..|s| - 1], e);
    }
  }

  // Neither quote nor zero occurs.
  lemma {:induction false} NothingForbidden(s: seq<Byte>, e: Byte)
    requires Legal(e)
    ensures 0 !in Encoded(s, e) && QUOTE !in Encoded(s, e)
  {
    if s != [] {
      NothingForbidden(s[..|s| - 1], e);
      var b, p := Body(s[..|s| - 1], e), Piece(s[|s| - 1], e);
      assert forall x :: x in b ==> x in Encoded(s[..|s| - 1], e);
      assert 0 !in p && QUOTE !in p;
    }
  }

  function Plus(c: Byte, e: Byte): Byte { (c as int + e) % 256 }

  function Less(c: Byte): Byte { (c as int - 1) % 256 }

  // ----- Decoding. k: how much of the string has been read.

  predicate Ends(t: seq<Byte>, k: nat)
    decreases |t| - k
  {
    k < |t| && (t[k] == 0 || (if t[k] == 1 then k + 1 < |t| && Ends(t, k + 2) else Ends(t, k + 1)))
  }

  function Decoded(t: seq<Byte>, k: nat, e: Byte): seq<Byte>
    requires Ends(t, k)
    decreases |t| - k
  {
    if t[k] == 0 then []
    else if t[k] == 1 then [Plus(Less(t[k + 1]), e)] + Decoded(t, k + 2, e)
    else [Plus(t[k], e)] + Decoded(t, k + 1, e)
  }

  lemma DecodePiece(t: seq<Byte>, k: nat, b: Byte, e: Byte)
    requires var p := Piece(b, e); k + |p| <= |t| && t[k..k + |p|] == p && Ends(t, k + |p|)
    ensures Ends(t, k) && Decoded(t, k, e) == [b] + Decoded(t, k + |Piece(b, e)|, e)
  {
    hide Ends, Decoded, Minus, Piece, Plus, Less;
    var p, x := Piece(b, e), Minus(b, e);
    Pieces(b, e);
    PlusMinus(b, e);
    assert t[k] == p[0] && (|p| == 2 ==> t[k + 1] == p[1]);
    EndsBack(t, k);
    DecodeStep(t, k, e);
  }

  lemma PlusMinus(b: Byte, e: Byte)
    ensures Plus(Minus(b, e), e) == b && (Minus(b, e) < 255 ==> Less(Minus(b, e) + 1) == Minus(b, e))
  {
  }

  lemma EndsBack(t: seq<Byte>, k: nat)
    requires k < |t| && t[k] != 0 && if t[k] == 1 then Ends(t, k + 2) else Ends(t, k + 1)
    ensures Ends(t, k)
  {
  }

  // The body of s at position `at` decodes to s.
  lemma {:induction false} DecodeBody(t: seq<Byte>, at: nat, s: seq<Byte>, e: Byte)
    requires var b := Body(s, e); at + |b| <= |t| && t[at..at + |b|] == b && Ends(t, at + |b|)
    ensures Ends(t, at) && Decoded(t, at, e) == s + Decoded(t, at + |Body(s, e)|, e)
    decreases |s|
  {
    hide Ends, Decoded, Piece;
    if s != [] {
      var s0, b := s[..|s| - 1], s[|s| - 1];
      var body, body0, p := Body(s, e), Body(s0, e), Piece(b, e);
      assert body == body0 + p;
      var k := at + |body0|;
      assert t[at..k] == t[at..at + |body|][..|body0|] == body0;
      assert t[k..k + |p|] == t[at..at + |body|][|body0|..] == p;
      DecodePiece(t, k, b, e);
      DecodeBody(t, at, s0, e);
      assert s == s0 + [b];
    }
  }

  // Decoding gives back the bytes, whatever follows the terminator.
  lemma RoundTrip(s: seq<Byte>, e: Byte, rest: seq<Byte>)
    ensures var t := Encoded(s, e) + [0] + rest; Ends(t, 1) && Decoded(t, 1, e) == s
  {
    var t := Encoded(s, e) + [0] + rest;
    assert t[1..1 + |Body(s, e)|] == Body(s, e);
    assert t[1 + |Body(s, e)|] == 0;
    DecodeBody(t, 1, s, e);
  }

  // ----- A good offset exists.

  // Escapes are the bytes equal to one of three values.
  lemma {:induction false} EscapesCount(s: seq<Byte>, e: Byte)
    ensures Escapes(s, e) == multiset(s)[e] + multiset(s)[(e + 1) % 256] + multiset(s)[(e + QUOTE) % 256]
  {
    if s != [] {
      var s0, b := s[..|s| - 1], s[|s| - 1];
      EscapesCount(s0, e);
      assert s == s0 + [b];
      assert Minus(b, e) == 0 <==> b == e;
      assert Minus(b, e) == 1 <==> b == (e + 1) % 256;
      assert Minus(b, e) == QUOTE <==> b == (e + QUOTE) % 256;
    }
  }

  // Legal offsets below hi that make byte b escape, and how many escapes they make in s together.
  function Hits(b: Byte, hi: nat): nat
    requires hi <= 256
  {
    if hi <= 1 then 0 else Hits(b, hi - 1) + if Legal(hi - 1) && NeedsEscape(Minus(b, hi - 1)) then 1 else 0
  }

  function AllEscapes(s: seq<Byte>, hi: nat): nat
    requires hi <= 256
  {
    if hi <= 1 then 0 else AllEscapes(s, hi - 1) + if Legal(hi - 1) then Escapes(s, hi - 1) else 0
  }

  function LegalBelow(hi: nat): nat {
    if hi <= 1 then 0 else LegalBelow(hi - 1) + if Legal(hi - 1) then 1 else 0
  }

  lemma {:induction false} LegalCount(hi: nat)
    requires 1 <= hi <= 256
    ensures LegalBelow(hi) == if hi <= QUOTE then hi - 1 else hi - 2
  {
    if hi > 1 {
      LegalCount(hi - 1);
    }
  }

  lemma {:induction false} ThreeHits(b: Byte, hi: nat)
    requires 1 <= hi <= 256
    ensures Hits(b, hi) <= (if b < hi then 1 else 0) + (if Minus(b, 1) < hi then 1 else 0) +
      if Minus(b, QUOTE) < hi then 1 else 0
  {
    if hi > 1 {
      ThreeHits(b, hi - 1);
      var e := hi - 1;
      MinusBack(b, e, 0);
      MinusBack(b, e, 1);
      MinusBack(b, e, QUOTE);
    }
  }

  lemma MinusBack(b: Byte, e: Byte, x: Byte)
    ensures Minus(b, e) == x <==> e == Minus(b, x)
  {
  }

  lemma {:induction false} OneByteMore(s: seq<Byte>, b: Byte, hi: nat)
    requires hi <= 256
    ensures AllEscapes(s + [b], hi) == AllEscapes(s, hi) + Hits(b, hi)
  {
    if hi > 1 {
      OneByteMore(s, b, hi - 1);
      assert (s + [b])[..|s|] == s;
    }
  }

  lemma {:induction false} NoEscapes(hi: nat)
    requires hi <= 256
    ensures AllEscapes([], hi) == 0
  {
    if hi > 1 {
      NoEscapes(hi - 1);
    }
  }

  // Each byte escapes under three offsets at most.
  lemma {:induction false} ThreeEach(s: seq<Byte>)
    ensures AllEscapes(s, 256) <= 3 * |s|
  {
    if s == [] {
      NoEscapes(256);
    } else {
      ThreeEach(s[..|s| - 1]);
      assert s == s[..|s| - 1] + [s[|s| - 1]];
      OneByteMore(s[..|s| - 1], s[|s| - 1], 256);
      ThreeHits(s[|s| - 1], 256);
    }
  }

  lemma {:induction false} AtLeast(s: seq<Byte>, m: nat, hi: nat)
    requires hi <= 256 && forall e: int :: Legal(e) && e < hi ==> m <= Escapes(s, e)
    ensures m * LegalBelow(hi) <= AllEscapes(s, hi)
  {
    hide Escapes;
    if hi > 1 {
      AtLeast(s, m, hi - 1);
      OnceMore(m, LegalBelow(hi - 1));
      assert Legal(hi - 1) ==> m <= Escapes(s, hi - 1);
    } else {
      OnceMore(m, 0);
    }
  }

  lemma OnceMore(m: nat, k: nat)
    ensures m * (k + 1) == m * k + m && m * 0 == 0
  {
  }

  // Pigeonhole: of 254 offsets one makes 3 in 254 bytes escape at most.
  lemma BestOffset(s: seq<Byte>, m: nat)
    requires forall e: int :: Legal(e) ==> m <= Escapes(s, e)
    ensures 254 * m <= 3 * |s|
  {
    hide Escapes, AllEscapes, LegalBelow;
    AtLeast(s, m, 256);
    ThreeEach(s);
    LegalCount(256);
    assert LegalBelow(256) == 254 && m * 254 == 254 * m;
  }

  // ----- The routines.

  // The offset that makes fewest bytes escape.
  ghost predicate Best(s: seq<Byte>, e: Byte) {
    Legal(e) && forall f: int :: Legal(f) ==> Escapes(s, e) <= Escapes(s, f)
  }

  // How often each value occurs (encode.c:134-135).
  method CountBytes(input: array<Byte>, n: nat) returns (cnt: array<nat>)
    requires n <= input.Length
    ensures fresh(cnt) && cnt.Length == 256 && forall v: nat :: v < 256 ==> cnt[v] == multiset(input[..n])[v]
  {
    ghost var s := input[..n];
    cnt := new nat[256](_ => 0);
    var i := n - 1;
    while i >= 0
      modifies cnt
      invariant -1 <= i < n && cnt.Length == 256
      invariant forall v: nat :: v < 256 ==> cnt[v] == multiset(s[i + 1..])[v]
    {
      assert s[i..] == [s[i]] + s[i + 1..];
      cnt[input[i]] := cnt[input[i]] + 1;
      i := i - 1;
    }
    assert s[0..] == s;
  }

  // The best offset (encode.c:136-146). It is always found.
  method FindOffset(cnt: array<nat>, n: nat, ghost s: seq<Byte>) returns (e: Byte, m: nat)
    requires n == |s| > 0 && cnt.Length == 256 && forall v: nat :: v < 256 ==> cnt[v] == multiset(s)[v]
    ensures Best(s, e) && m == Escapes(s, e)
  {
    hide Escapes;
    m, e := n, 0;
    var i := 1;
    while i < 256
      invariant 1 <= i <= 256 && m <= n && (m == n || (Legal(e) && m == Escapes(s, e)))
      invariant forall f: int :: Legal(f) && f < i ==> m <= Escapes(s, f)
    {
      if i != QUOTE {
        EscapesCount(s, i);
        var sum := cnt[i] + cnt[(i + 1) % 256] + cnt[(i + QUOTE) % 256];
        if sum < m {
          m, e := sum, i;
          if m == 0 {
            break;
          }
        }
      }
      i := i + 1;
    }
    BestOffset(s, m);
  }

  // encode.c:123-163. out: null if only the length is asked for.
  method EncodeBinary(input: array<Byte>, n: int, out: array?<Byte>) returns (r: nat)
    requires n <= input.Length && input != out
    requires out != null ==> out.Length >= 2 + (if n > 0 then 257 * n / 254 else 0)
    modifies if out == null then {} else {out}
    ensures r + 1 <= 2 + if n > 0 then 257 * n / 254 else 0
    ensures n <= 0 ==> r == 1 && (out != null ==> out[..2] == ['x' as int, 0])
    ensures n > 0 ==>
      exists e: Byte ::
        Best(input[..n], e) && r == |Encoded(input[..n], e)| &&
        (out != null ==> out[..r + 1] == Encoded(input[..n], e) + [0])
  {
    hide Best, Escapes, Body, Encoded;
    if n <= 0 {
      if out != null {
        out[0], out[1] := 'x' as int, 0;
      }
      return 1;
    }
    var cnt := CountBytes(input, n);
    ghost var s := input[..n];
    var e, m := FindOffset(cnt, n, s);
    EncodedSize(s, e, m);
    if out == null {
      return n + m + 1;
    }
    r := CopyBody(input, n, e, out);
  }

  lemma EncodedSize(s: seq<Byte>, e: Byte, m: nat)
    requires Best(s, e) && m == Escapes(s, e)
    ensures |Encoded(s, e)| == |s| + m + 1 && |Encoded(s, e)| + 1 <= 2 + 257 * |s| / 254
  {
    hide Escapes, Body;
    BestOffset(s, m);
    BodyLength(s, e);
    Size(|s|, m);
  }

  // The copying loop and the terminator (encode.c:150-160).
  method CopyBody(input: array<Byte>, n: nat, e: Byte, out: array<Byte>) returns (j: nat)
    requires n <= input.Length && input != out && out.Length > |Encoded(input[..n], e)|
    modifies out
    ensures j == |Encoded(input[..n], e)| && out[..j + 1] == Encoded(input[..n], e) + [0]
  {
    hide Body, Piece, NeedsEscape;
    ghost var s := input[..n];
    out[0] := e;
    var i := 0;
    j := 1;
    BodyStart(s, e);
    while i < n
      invariant 0 <= i <= n && 1 <= j == 1 + |Body(s[..i], e)| <= |Encoded(s, e)| && out[..j] == [e] + Body(s[..i], e)
    {
      var x: int := Minus(input[i], e);
      MorePieces(s, i, e);
      Pieces(s[i], e);
      ghost var before := out[..j];
      if x == 0 || x == 1 || x == QUOTE {
        out[j] := 1;
        j := j + 1;
        x := x + 1;
      }
      out[j] := x;
      j := j + 1;
      assert out[..j] == before + Piece(s[i], e);
      i := i + 1;
    }
    assert s[..n] == s;
    out[j] := 0;
  }

  lemma BodyStart(s: seq<Byte>, e: Byte)
    ensures Body(s[..0], e) == []
  {
  }

  lemma Pieces(b: Byte, e: Byte)
    ensures var x := Minus(b, e); Piece(b, e) == if x == 0 || x == 1 || x == QUOTE then [1, x + 1] else [x]
  {
  }

  lemma Size(n: nat, m: nat)
    requires 254 * m <= 3 * n
    ensures n + m <= 257 * n / 254
  {
  }

  // The body only grows.
  lemma {:induction false} MorePieces(s: seq<Byte>, i: nat, e: Byte)
    requires i < |s|
    ensures Body(s[..i + 1], e) == Body(s[..i], e) + Piece(s[i], e)
    ensures |Body(s[..i + 1], e)| <= |Body(s, e)| && |Encoded(s, e)| == 1 + |Body(s, e)|
    decreases |s|
  {
    assert s[..i + 1][..i] == s[..i];
    if i + 1 < |s| {
      var t := s[..|s| - 1];
      MorePieces(t, i, e);
      assert t[..i + 1] == s[..i + 1] && t[..i] == s[..i];
    } else {
      assert s[..i + 1] == s;
    }
  }

  // encode.c:175-187. The buffers may be the same.
  method DecodeBinary(input: array<Byte>, out: array<Byte>) returns (i: nat)
    requires input.Length > 0 && Ends(input[..], 1) && |Decoded(input[..], 1, input[0])| <= out.Length
    modifies out
    ensures i == |old(Decoded(input[..], 1, input[0]))| && out[..i] == old(Decoded(input[..], 1, input[0]))
  {
    hide Ends, Decoded, Plus, Less;
    ghost var t := input[..];
    ghost var whole := Decoded(t, 1, input[0]);
    var k, e := 1, input[0];
    i := 0;
    DecodeStep(t, k, e);
    var c := input[k];
    k := k + 1;
    while c != 0
      invariant 0 <= i <= k - 2 && 2 <= k <= |t| && Ends(t, k - 1) && c == t[k - 1]
      invariant forall j :: k <= j < |t| ==> input[j] == t[j]
      invariant i <= out.Length && out[..i] + Decoded(t, k - 1, e) == whole
      decreases |t| - k
    {
      DecodeStep(t, k - 1, e);
      ghost var before := out[..i];
      if c == 1 {
        c := Less(input[k]);
        k := k + 1;
      }
      out[i] := Plus(c, e);
      i := i + 1;
      assert out[..i] == before + [Plus(c, e)];
      DecodeStep(t, k, e);
      c := input[k];
      k := k + 1;
    }
    DecodeStep(t, k - 1, e);
  }

  lemma DecodeStep(t: seq<Byte>, k: nat, e: Byte)
    requires Ends(t, k)
    ensures k < |t| && (t[k] == 0 ==> Decoded(t, k, e) == [])
    ensures t[k] == 1 ==>
      k + 2 < |t| && Ends(t, k + 2) && Decoded(t, k, e) == [Plus(Less(t[k + 1]), e)] + Decoded(t, k + 2, e)
    ensures t[k] != 0 && t[k] != 1 ==>
      k + 1 < |t| && Ends(t, k + 1) && Decoded(t, k, e) == [Plus(t[k], e)] + Decoded(t, k + 1, e)
  {
  }
}
