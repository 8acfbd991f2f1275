// Hashing and comparing the keys of a hash table (src/db_sqlite/hash.c:100-129, util.c:827-863).
module HashKeys {

  import opened Bytes

  datatype KeyClass = StringKey | BinaryKey

  // The bytes from pKey on, and nKey. What lies beyond the known bytes reads as zero.
  datatype Key = Key(mem: seq<Byte>, nKey: int)

  // ----- What the loops compute.

  // Bytes before the first zero.
  function StrLen(mem: seq<Byte>): (n: nat)
    ensures n <= |mem| && At(mem, n) == 0 && forall i :: 0 <= i < n ==> At(mem, i) != 0
  {
    if mem == [] || mem[0] == 0 then 0
    else
      var n := StrLen(mem[1..]);
      assert forall i :: 0 < i <= n + 1 ==> At(mem, i) == At(mem[1..], i - 1);
      n + 1
  }

  // A byte as the hash takes it in: folded to lower case, or sign-extended.
  function Taken(kind: KeyClass, b: Byte): bv32 {
    if kind.StringKey? then Lower(b) as bv32
    else if b < 128 then b as bv32 else (b as bv32) | 0xffff_ff00
  }

  function Mixed(h: bv32, c: bv32): bv32 {
    (h << 3) ^ h ^ c
  }

  function Folded(kind: KeyClass, mem: seq<Byte>, n: nat): bv32 {
    if n == 0 then 0 else Mixed(Folded(kind, mem, n - 1), Taken(kind, At(mem, n - 1)))
  }

  // Bytes the hash reads.
  function HashedBytes(kind: KeyClass, k: Key): nat {
    if k.nKey > 0 then k.nKey else if kind.StringKey? then StrLen(k.mem) else 0
  }

  function Masked(h: bv32): bv32 {
    h & 0x7fff_ffff
  }

  function HashOf(kind: KeyClass, k: Key): bv32 {
    Masked(Folded(kind, k.mem, HashedBytes(kind, k)))
  }

  // The n bytes compare as equal: the comparison of strings stops where both end.
  function SameText(a: seq<Byte>, b: seq<Byte>, i: nat, n: nat): bool
    decreases n - i
  {
    i >= n || (Lower(At(a, i)) == Lower(At(b, i)) && (At(a, i) == 0 || SameText(a, b, i + 1, n)))
  }

  function Equal(kind: KeyClass, k: Key, l: Key): bool {
    && k.nKey == l.nKey
    && match kind
       case StringKey => SameText(k.mem, l.mem, 0, if k.nKey > 0 then k.nKey else 0)
       case BinaryKey => forall i :: 0 <= i < k.nKey ==> At(k.mem, i) == At(l.mem, i)
  }

  lemma FoldStep(kind: KeyClass, mem: seq<Byte>, n: nat)
    ensures Folded(kind, mem, n + 1) == Mixed(Folded(kind, mem, n), Taken(kind, At(mem, n))) &&
      Folded(kind, mem, 0) == 0
  {
    hide Mixed, Taken;
  }

  // ----- The loops.

  // hash.c:100-109.
  method StrHash(k: Key) returns (h: bv32)
    ensures h == HashOf(StringKey, k)
  {
    hide Mixed, Taken, Folded, Masked;
    var nKey: int, hash: bv32, z: nat := k.nKey, 0, 0;
    FoldStep(StringKey, k.mem, 0);
    if nKey <= 0 {
      nKey := StrLen(k.mem);
    }
    while nKey > 0
      invariant nKey + z == HashedBytes(StringKey, k) && nKey >= 0 && z >= 0 && hash == Folded(StringKey, k.mem, z)
    {
      FoldStep(StringKey, k.mem, z);
      hash := Mixed(hash, Taken(StringKey, At(k.mem, z)));
      z := z + 1;
      nKey := nKey - 1;
    }
    h := Masked(hash);
  }

  // hash.c:118-125.
  method BinHash(k: Key) returns (h: bv32)
    ensures h == HashOf(BinaryKey, k)
  {
    hide Mixed, Taken, Folded, Masked;
    var nKey, hash: bv32, z: nat := k.nKey, 0, 0;
    FoldStep(BinaryKey, k.mem, 0);
    while nKey > 0
      invariant z >= 0 && (k.nKey > 0 ==> nKey + z == k.nKey && nKey >= 0) && (k.nKey <= 0 ==> z == 0 && nKey == k.nKey)
      invariant hash == Folded(BinaryKey, k.mem, z)
    {
      FoldStep(BinaryKey, k.mem, z);
      hash := Mixed(hash, Taken(BinaryKey, At(k.mem, z)));
      z := z + 1;
      nKey := nKey - 1;
    }
    h := Masked(hash);
  }

  // util.c:857-863.
  method StrNICmp(a: seq<Byte>, b: seq<Byte>, n: int) returns (r: int)
    ensures r == 0 <==> SameText(a, b, 0, if n > 0 then n else 0)
  {
    var m, i := n, 0;
    while true
      invariant i >= 0 && m + i == n && (n > 0 ==> i <= n) && (n <= 0 ==> i == 0)
      invariant SameText(a, b, 0, if n > 0 then n else 0) <==> SameText(a, b, i, if n > 0 then n else 0)
      decreases m
    {
      m := m - 1;
      if !(m + 1 > 0 && At(a, i) != 0 && Lower(At(a, i)) == Lower(At(b, i))) {
        break;
      }
      i := i + 1;
    }
    r := if m < 0 then 0 else Lower(At(a, i)) - Lower(At(b, i));
  }

  // hash.c:110-129. memcmp finds the first difference.
  method Compare(kind: KeyClass, k: Key, l: Key) returns (r: int)
    ensures r == 0 <==> Equal(kind, k, l)
  {
    if k.nKey != l.nKey {
      return 1;
    }
    if kind.StringKey? {
      r := StrNICmp(k.mem, l.mem, k.nKey);
      return;
    }
    var i := 0;
    while i < k.nKey
      invariant 0 <= i && forall j :: 0 <= j < i ==> At(k.mem, j) == At(l.mem, j)
    {
      if At(k.mem, i) != At(l.mem, i) {
        return At(k.mem, i) - At(l.mem, i);
      }
      i := i + 1;
    }
    r := 0;
  }

  method Hashed(kind: KeyClass, k: Key) returns (h: bv32)
    ensures h == HashOf(kind, k)
  {
    if kind.StringKey? {
      h := StrHash(k);
    } else {
      h := BinHash(k);
    }
  }

  // ----- When equal keys hash alike.

  // A string key gives its length, and no byte but its last is zero.
  predicate Plain(kind: KeyClass, k: Key) {
    match kind
    case StringKey => k.nKey > 0 && forall i :: 0 <= i < k.nKey - 1 ==> At(k.mem, i) != 0
    case BinaryKey => k.nKey >= 0
  }

  // What equal plain keys have in common.
  function Canon(kind: KeyClass, k: Key): (r: seq<Byte>)
    ensures |r| == if k.nKey > 0 then k.nKey else 0
  {
    seq(if k.nKey > 0 then k.nKey else 0, i requires i >= 0 =>
      if kind.StringKey? then Lower(At(k.mem, i)) else At(k.mem, i))
  }

  lemma {:induction false} TextByByte(a: seq<Byte>, b: seq<Byte>, i: nat, n: nat)
    requires i <= n && forall j :: i <= j < n - 1 ==> At(a, j) != 0
    ensures SameText(a, b, i, n) <==> forall j :: i <= j < n ==> Lower(At(a, j)) == Lower(At(b, j))
    decreases n - i
  {
    if i < n {
      TextByByte(a, b, i + 1, n);
    }
  }

  lemma EqualIsCanon(kind: KeyClass, k: Key, l: Key)
    requires Plain(kind, k)
    ensures Equal(kind, k, l) <==> Plain(kind, l) && Canon(kind, k) == Canon(kind, l)
  {
    hide SameText;
    if k.nKey == l.nKey {
      if kind.StringKey? {
        TextByByte(k.mem, l.mem, 0, k.nKey);
      }
      forall i | 0 <= i < k.nKey && Canon(kind, k) == Canon(kind, l)
        ensures if kind.StringKey? then Lower(At(k.mem, i)) == Lower(At(l.mem, i)) else At(k.mem, i) == At(l.mem, i)
      {
        assert Canon(kind, k)[i] == Canon(kind, l)[i];
      }
    } else {
      assert |Canon(kind, k)| != |Canon(kind, l)| || !Plain(kind, l);
    }
  }

  lemma {:induction false} FoldedFromCanon(kind: KeyClass, k: Key, l: Key, n: nat)
    requires Canon(kind, k) == Canon(kind, l) && n <= |Canon(kind, k)|
    ensures Folded(kind, k.mem, n) == Folded(kind, l.mem, n)
  {
    hide Mixed, Folded, Taken, Canon, At;
    FoldStep(kind, k.mem, 0);
    FoldStep(kind, l.mem, 0);
    if n > 0 {
      FoldedFromCanon(kind, k, l, n - 1);
      TakenFromCanon(kind, k, l, n - 1);
      FoldStep(kind, k.mem, n - 1);
      FoldStep(kind, l.mem, n - 1);
    }
  }

  lemma TakenFromCanon(kind: KeyClass, k: Key, l: Key, i: nat)
    requires Canon(kind, k) == Canon(kind, l) && i < |Canon(kind, k)|
    ensures Taken(kind, At(k.mem, i)) == Taken(kind, At(l.mem, i))
  {
    assert Canon(kind, k)[i] == Canon(kind, l)[i];
  }

  lemma HashFromCanon(kind: KeyClass, k: Key, l: Key)
    requires Plain(kind, k) && Plain(kind, l) && Canon(kind, k) == Canon(kind, l)
    ensures HashOf(kind, k) == HashOf(kind, l)
  {
    hide Folded, Masked, StrLen;
    FoldedFromCanon(kind, k, l, |Canon(kind, k)|);
  }

  lemma {:induction false} EndsEarly(a: seq<Byte>, b: seq<Byte>, i: nat, j: nat, n: nat)
    requires i <= j < n && At(a, j) == 0 && forall k :: i <= k <= j ==> At(b, k) == At(a, k)
    ensures SameText(a, b, i, n)
    decreases j - i
  {
    if At(a, i) != 0 {
      EndsEarly(a, b, i + 1, j, n);
    }
  }

  lemma LastByteTells(h: bv32)
    ensures Masked(Mixed(h, Taken(StringKey, 1))) != Masked(Mixed(h, Taken(StringKey, 2)))
  {
    assert Taken(StringKey, 1) == 1 && Taken(StringKey, 2) == 2;
  }

  lemma {:induction false} FoldedPrefix(a: seq<Byte>, b: seq<Byte>, n: nat)
    requires forall i :: 0 <= i < n ==> At(a, i) == At(b, i)
    ensures Folded(StringKey, a, n) == Folded(StringKey, b, n)
  {
    hide Mixed, Taken;
    if n > 0 {
      FoldedPrefix(a, b, n - 1);
    }
  }

  // The first n bytes with another one last.
  function WithLast(mem: seq<Byte>, n: nat, last: Byte): (r: seq<Byte>)
    requires n > 0
    ensures |r| == n && forall i :: 0 <= i < n ==> At(r, i) == if i == n - 1 then last else At(mem, i)
  {
    seq(n, i requires i >= 0 => if i == n - 1 then last else At(mem, i))
  }

  // Two keys with different hashes that both compare as equal to a key that is not plain.
  lemma Impostors(k: Key) returns (l: Key, m: Key)
    requires !Plain(StringKey, k)
    ensures Equal(StringKey, k, l) && Equal(StringKey, k, m) && HashOf(StringKey, l) != HashOf(StringKey, m)
  {
    hide Mixed, Masked, Folded, Taken, SameText;
    if k.nKey <= 0 {
      l, m := Key([1], k.nKey), Key([2], k.nKey);
      FoldStep(StringKey, [1], 0);
      FoldStep(StringKey, [2], 0);
      LastByteTells(0);
      TextByByte(k.mem, l.mem, 0, 0);
      TextByByte(k.mem, m.mem, 0, 0);
      assert StrLen([1]) == 1 && StrLen([2]) == 1;
    } else {
      var n := k.nKey;
      var j :| 0 <= j < n - 1 && At(k.mem, j) == 0;
      l, m := Key(WithLast(k.mem, n, 1), n), Key(WithLast(k.mem, n, 2), n);
      EndsEarly(k.mem, l.mem, 0, j, n);
      EndsEarly(k.mem, m.mem, 0, j, n);
      FoldedPrefix(l.mem, m.mem, n - 1);
      FoldStep(StringKey, l.mem, n - 1);
      FoldStep(StringKey, m.mem, n - 1);
      LastByteTells(Folded(StringKey, l.mem, n - 1));
    }
  }

  // A string key can be found under every key equal to it exactly if it is plain.
  lemma PlainExactly(k: Key)
    ensures Plain(StringKey, k) <==> forall l :: Equal(StringKey, k, l) ==> HashOf(StringKey, l) == HashOf(StringKey, k)
  {
    hide SameText, Folded, Masked, HashOf, Plain, Canon, Equal;
    if Plain(StringKey, k) {
      forall l | Equal(StringKey, k, l) ensures HashOf(StringKey, l) == HashOf(StringKey, k) {
        EqualIsCanon(StringKey, k, l);
        HashFromCanon(StringKey, k, l);
      }
    } else {
      var l, m := Impostors(k);
    }
  }

  // A copy of the first n bytes.
  function Prefix(mem: seq<Byte>, n: nat): (r: seq<Byte>)
    ensures |r| == n && forall i :: 0 <= i < n ==> At(r, i) == At(mem, i)
  {
    seq(n, i requires i >= 0 => At(mem, i))
  }

  // A copy of a key is as good as the key.
  lemma CopiedKey(kind: KeyClass, k: Key)
    requires k.nKey > 0
    ensures var l := Key(Prefix(k.mem, k.nKey), k.nKey);
      && HashOf(kind, l) == HashOf(kind, k) && Canon(kind, l) == Canon(kind, k) && (Plain(kind, l) <==> Plain(kind, k))
  {
    hide Folded, Masked;
    var l := Key(Prefix(k.mem, k.nKey), k.nKey);
    assert Canon(kind, l) == Canon(kind, k);
    FoldedFromCanon(kind, l, k, k.nKey);
  }
}
