// LIKE and GLOB patterns (src/db_sqlite/func.c:305-461) on UTF-8 strings.
module Pattern {

  import opened Bytes

  // matchSet is 0 for LIKE.
  datatype CompareInfo = CompareInfo(matchAll: Byte, matchOne: Byte, matchSet: Byte, noCase: bool)

  const GLOB := CompareInfo(42, 63, 91, false)
  const LIKE := CompareInfo(37, 95, 0, true)
  const LIKE_CASE := CompareInfo(37, 95, 0, false)

  predicate Known(info: CompareInfo) { info == GLOB || info == LIKE || info == LIKE_CASE }

  // A zero byte ends a string.
  predicate Text(s: seq<Byte>) {
    forall i :: 0 <= i < |s| ==> s[i] > 0
  }

  // Bytes of a character after its first.
  predicate Cont(b: Byte) { 128 <= b < 192 }

  // An ASCII character is a byte of its own.
  predicate WellFormed(p: seq<Byte>) {
    forall i {:trigger p[i]} :: 0 <= i < |p| && p[i] < 128 ==> !Cont(At(p, i + 1))
  }

  // The next character (sqliteNextChar).
  function Next(s: seq<Byte>, j: nat): (r: nat)
    ensures j < r && !Cont(At(s, r)) && (forall k :: j < k < r ==> Cont(At(s, k))) && (j < |s| ==> r <= |s|)
    decreases |s| - j
  {
    if Cont(At(s, j + 1)) then Next(s, j + 1) else j + 1
  }

  // The character at j (src/db_sqlite/utf.c:70-127).
  function CharVal(s: seq<Byte>, j: nat): int {
    var c, c1, c2, c3 := At(s, j), At(s, j + 1), At(s, j + 2), At(s, j + 3);
    if c < 128 then c
    else if c < 192 || c >= 248 then 0xFFFD
    else if c < 224 then c * 64 + c1 - 12416
    else if c < 240 then (c * 64 + c1) * 64 + c2 - 925824
    else ((c * 64 + c1) * 64 + c2) * 64 + c3 - 63447168
  }

  predicate Same(info: CompareInfo, a: Byte, b: Byte) {
    if info.noCase then Lower(a) == Lower(b) else a == b
  }

  // ----- Sets of characters: [abc], [a-z], [^abc], and a closing bracket first stands for itself.

  datatype Item = Single(c: int) | Range(lo: int, hi: int)

  predicate InItem(c: int, item: Item) {
    match item
    case Single(x) => c == x
    case Range(lo, hi) => lo <= c <= hi
  }

  predicate InItems(c: int, items: seq<Item>) {
    exists i :: 0 <= i < |items| && InItem(c, items[i])
  }

  const DASH: Byte := 45
  const CLOSE: Byte := 93
  const CARET: Byte := 94

  // A dash makes a range if it stands between two characters of the set.
  predicate IsRange(p: seq<Byte>, i: nat, prior: int) {
    CharVal(p, i) == DASH && At(p, i + 1) != CLOSE && At(p, i + 1) != 0 && prior > 0
  }

  predicate SetOver(p: seq<Byte>, i: nat) {
    i >= |p| || CharVal(p, i) == 0 || CharVal(p, i) == CLOSE
  }

  // Items from position i up to the closing bracket. prior: the character a range would start with.
  function Items(p: seq<Byte>, i: nat, prior: int): seq<Item>
    decreases |p| - i
  {
    if SetOver(p, i) then []
    else if IsRange(p, i, prior) then [Range(prior, CharVal(p, i + 1))] + Items(p, Next(p, i + 1), 0)
    else [Single(CharVal(p, i))] + Items(p, Next(p, i), CharVal(p, i))
  }

  // Position of the closing bracket, or of the end of the pattern.
  function SetEnd(p: seq<Byte>, i: nat, prior: int): (r: nat)
    ensures r >= i
    decreases |p| - i
  {
    if SetOver(p, i) then i
    else if IsRange(p, i, prior) then SetEnd(p, Next(p, i + 1), 0)
    else SetEnd(p, Next(p, i), CharVal(p, i))
  }

  // The set whose opening bracket is at i.
  function Inverted(p: seq<Byte>, i: nat): bool { At(p, i + 1) == CARET }

  function First(p: seq<Byte>, i: nat): nat { if Inverted(p, i) then i + 2 else i + 1 }

  function Listed(p: seq<Byte>, i: nat): seq<Item> {
    var f := First(p, i);
    if At(p, f) == CLOSE then [Single(CLOSE)] + Items(p, f + 1, 0) else Items(p, f, 0)
  }

  function Bracket(p: seq<Byte>, i: nat): (r: nat)
    ensures r > i
  {
    var f := First(p, i);
    if At(p, f) == CLOSE then SetEnd(p, f + 1, 0) else SetEnd(p, f, 0)
  }

  // A set without closing bracket matches nothing.
  predicate InSet(p: seq<Byte>, i: nat, c: int) {
    CharVal(p, Bracket(p, i)) == CLOSE && c != 0 && (InItems(c, Listed(p, i)) != Inverted(p, i))
  }

  // ----- What it means to match: the pattern from i on and the string from j on. esc: the escape
  // character, or 0.

  predicate Escape(esc: int, p: seq<Byte>, i: nat) { esc != 0 && CharVal(p, i) == esc }

  ghost predicate Matches(info: CompareInfo, esc: int, p: seq<Byte>, i: nat, s: seq<Byte>, j: nat)
    decreases |p| - i, 0
  {
    if i >= |p| then j == |s|
    else if p[i] == info.matchAll then Somewhere(info, esc, p, i + 1, s, j)
    else if p[i] == info.matchOne then j < |s| && Matches(info, esc, p, i + 1, s, Next(s, j))
    else if p[i] == info.matchSet then
      j < |s| && InSet(p, i, CharVal(s, j)) && Matches(info, esc, p, Bracket(p, i) + 1, s, Next(s, j))
    else if Escape(esc, p, i) then
      if Next(p, i) >= |p| then j == |s|
      else j < |s| && Same(info, p[Next(p, i)], s[j]) && Matches(info, esc, p, Next(p, i) + 1, s, j + 1)
    else j < |s| && Same(info, p[i], s[j]) && Matches(info, esc, p, i + 1, s, j + 1)
  }

  // k is j, or a character starts there after j, or the string ends.
  predicate Later(s: seq<Byte>, j: nat, k: nat) {
    j <= k <= |s| && (k == j || !Cont(At(s, k)))
  }

  // The rest of the pattern matches at j or later.
  ghost predicate Somewhere(info: CompareInfo, esc: int, p: seq<Byte>, i: nat, s: seq<Byte>, j: nat)
    decreases |p| - i, 1
  {
    exists k: nat :: Later(s, j, k) && Matches(info, esc, p, i, s, k)
  }

  // ----- Sets.

  // The items of a set (func.c:429-442): does one of them hold character c, and where do they end?
  method ReadItems(p: seq<Byte>, z0: nat, c: int) returns (seen: bool, z: nat)
    ensures seen == InItems(c, Items(p, z0, 0)) && z == SetEnd(p, z0, 0)
  {
    hide InItems, Items, SetEnd, CharVal;
    seen, z := false, z0;
    var prior := 0;
    ghost var items: seq<Item> := [];
    NoItem(c);
    Beyond(p, z);
    var c2 := CharVal(p, z);
    while c2 != 0 && c2 != CLOSE
      invariant z0 <= z && c2 == CharVal(p, z) && seen == InItems(c, items) && (z >= |p| ==> c2 == 0)
      invariant Items(p, z0, 0) == items + Items(p, z, prior) && SetEnd(p, z0, 0) == SetEnd(p, z, prior)
      decreases |p| - z
    {
      ghost var before := items;
      ItemStep(p, z, prior);
      if c2 == DASH && At(p, z + 1) != CLOSE && At(p, z + 1) != 0 && prior > 0 {
        z := z + 1;
        c2 := CharVal(p, z);
        items := items + [Range(prior, c2)];
        if c >= prior && c <= c2 {
          seen := true;
        }
        prior := 0;
      } else if c == c2 {
        items := items + [Single(c2)];
        seen := true;
        prior := c2;
      } else {
        items := items + [Single(c2)];
        prior := c2;
      }
      OneItemMore(c, before, items);
      z := Next(p, z);
      Beyond(p, z);
      c2 := CharVal(p, z);
    }
    assert items + [] == items;
    ItemsEnd(p, z, prior);
  }

  // One set (func.c:416-445).
  method MatchSet(p: seq<Byte>, i: nat, c: int) returns (found: bool, end: nat)
    requires i < |p|
    ensures found == InSet(p, i, c) && (found ==> end == Bracket(p, i) < |p|)
  {
    hide InItems, Items, SetEnd, CharVal;
    if c == 0 {
      return false, i;
    }
    var seen, invert, z := false, false, i + 1;
    var c2 := At(p, z);
    if c2 == CARET {
      invert := true;
      z := z + 1;
      c2 := At(p, z);
    }
    var first := c2 == CLOSE;
    if first {
      if c == CLOSE {
        seen := true;
      }
      z := z + 1;
    }
    OneOrMore(c, Items(p, z, 0));
    var more;
    more, z := ReadItems(p, z, c);
    seen := seen || more;
    Beyond(p, z);
    found := CharVal(p, z) != 0 && seen != invert;
    end := z;
    SetEnds(p, if first then First(p, i) + 1 else First(p, i), 0);
  }

  lemma OneOrMore(c: int, items: seq<Item>)
    ensures InItems(c, [Single(CLOSE)] + items) <==> c == CLOSE || InItems(c, items)
  {
    var all := [Single(CLOSE)] + items;
    assert all[0] == Single(CLOSE);
    if InItems(c, items) {
      var i :| 0 <= i < |items| && InItem(c, items[i]);
      assert all[i + 1] == items[i];
    }
  }

  lemma Beyond(p: seq<Byte>, z: nat)
    ensures z >= |p| ==> CharVal(p, z) == 0
  {
  }

  lemma {:induction false} SetEnds(p: seq<Byte>, i: nat, prior: int)
    ensures CharVal(p, SetEnd(p, i, prior)) == 0 || CharVal(p, SetEnd(p, i, prior)) == CLOSE
    decreases |p| - i
  {
    Beyond(p, i);
    if !SetOver(p, i) {
      if IsRange(p, i, prior) {
        SetEnds(p, Next(p, i + 1), 0);
      } else {
        SetEnds(p, Next(p, i), CharVal(p, i));
      }
    }
  }

  lemma NoItem(c: int)
    ensures !InItems(c, [])
  {
  }

  lemma ItemStep(p: seq<Byte>, z: nat, prior: int)
    requires z < |p| && CharVal(p, z) != 0 && CharVal(p, z) != CLOSE
    ensures IsRange(p, z, prior) ==>
      Items(p, z, prior) == [Range(prior, CharVal(p, z + 1))] + Items(p, Next(p, z + 1), 0) &&
        SetEnd(p, z, prior) == SetEnd(p, Next(p, z + 1), 0)
    ensures !IsRange(p, z, prior) ==>
      Items(p, z, prior) == [Single(CharVal(p, z))] + Items(p, Next(p, z), CharVal(p, z)) &&
        SetEnd(p, z, prior) == SetEnd(p, Next(p, z), CharVal(p, z))
  {
  }

  lemma ItemsEnd(p: seq<Byte>, z: nat, prior: int)
    requires CharVal(p, z) == 0 || CharVal(p, z) == CLOSE
    ensures Items(p, z, prior) == [] && SetEnd(p, z, prior) == z
  {
  }

  lemma OneItemMore(c: int, items: seq<Item>, items': seq<Item>)
    requires |items'| == |items| + 1 && items'[..|items|] == items
    ensures InItems(c, items') <==> InItems(c, items) || InItem(c, items'[|items|])
  {
    assert forall i :: 0 <= i < |items| ==> items'[i] == items[i];
  }

  // ----- Runs of wildcards.

  lemma AtPlace(info: CompareInfo, esc: int, p: seq<Byte>, i: nat, s: seq<Byte>, j: nat)
    requires Somewhere(info, esc, p, i, s, j)
    ensures exists k: nat :: Later(s, j, k) && Matches(info, esc, p, i, s, k)
  {
    assert Somewhere(info, esc, p, i, s, j);
  }

  // Another wildcard for any sequence changes nothing.
  lemma AllAgain(info: CompareInfo, esc: int, p: seq<Byte>, i: nat, s: seq<Byte>, j: nat)
    requires i < |p| && p[i] == info.matchAll
    ensures Somewhere(info, esc, p, i, s, j) <==> Somewhere(info, esc, p, i + 1, s, j)
  {
    if Somewhere(info, esc, p, i, s, j) {
      AtPlace(info, esc, p, i, s, j);
      var k: nat :| Later(s, j, k) && Matches(info, esc, p, i, s, k);
      assert Somewhere(info, esc, p, i + 1, s, k);
      AtPlace(info, esc, p, i + 1, s, k);
      var l: nat :| Later(s, k, l) && Matches(info, esc, p, i + 1, s, l);
      assert Later(s, j, l);
    }
    if Somewhere(info, esc, p, i + 1, s, j) {
      AtPlace(info, esc, p, i + 1, s, j);
      assert Later(s, j, j) && Matches(info, esc, p, i, s, j);
    }
  }

  // The character before place l, no earlier than j.
  lemma {:induction false} CharBefore(s: seq<Byte>, j: nat, l: nat) returns (k: nat)
    requires j < l <= |s| && !Cont(At(s, l)) && Next(s, j) <= l
    ensures Later(s, j, k) && k < |s| && Next(s, k) == l
    decreases l - j
  {
    k := j;
    if Next(s, j) < l {
      k := CharBefore(s, Next(s, j), l);
    }
  }

  // One for a single character takes that character first.
  lemma OneAfterAll(info: CompareInfo, esc: int, p: seq<Byte>, i: nat, s: seq<Byte>, j: nat)
    requires i < |p| && p[i] == info.matchOne != info.matchAll && j <= |s|
    ensures Somewhere(info, esc, p, i, s, j) <==> j < |s| && Somewhere(info, esc, p, i + 1, s, Next(s, j))
  {
    if Somewhere(info, esc, p, i, s, j) {
      AtPlace(info, esc, p, i, s, j);
      var k: nat :| Later(s, j, k) && Matches(info, esc, p, i, s, k);
      assert Matches(info, esc, p, i + 1, s, Next(s, k));
      assert Later(s, Next(s, j), Next(s, k));
    }
    if j < |s| && Somewhere(info, esc, p, i + 1, s, Next(s, j)) {
      AtPlace(info, esc, p, i + 1, s, Next(s, j));
      var l: nat :| Later(s, Next(s, j), l) && Matches(info, esc, p, i + 1, s, l);
      var k := CharBefore(s, j, l);
      assert Matches(info, esc, p, i, s, k);
    }
  }

  // Going on by a character from a place where the rest does not match.
  lemma NotHere(info: CompareInfo, esc: int, p: seq<Byte>, i: nat, s: seq<Byte>, j: nat)
    requires !Matches(info, esc, p, i, s, j) && j < |s|
    ensures Somewhere(info, esc, p, i, s, j) <==> Somewhere(info, esc, p, i, s, Next(s, j))
  {
    if Somewhere(info, esc, p, i, s, j) {
      AtPlace(info, esc, p, i, s, j);
      var k: nat :| Later(s, j, k) && Matches(info, esc, p, i, s, k);
      assert Later(s, Next(s, j), k);
    }
    if Somewhere(info, esc, p, i, s, Next(s, j)) {
      AtPlace(info, esc, p, i, s, Next(s, j));
      var k: nat :| Later(s, Next(s, j), k) && Matches(info, esc, p, i, s, k);
      assert Later(s, j, k);
    }
  }

  // The first byte the string must have where the rest matches: that of the literal, escaped or not.
  function Literal(esc: int, p: seq<Byte>, i: nat): Byte {
    if Escape(esc, p, i) then At(p, Next(p, i)) else At(p, i)
  }

  // Going on by a byte from a place that does not start with the literal.
  lemma Skipped(info: CompareInfo, esc: int, p: seq<Byte>, i: nat, s: seq<Byte>, j: nat)
    requires i < |p| && p[i] != info.matchAll && p[i] != info.matchOne && p[i] != info.matchSet && j < |s|
    requires Literal(esc, p, i) != 0 && !Cont(Literal(esc, p, i)) && !Same(info, Literal(esc, p, i), s[j])
    ensures Somewhere(info, esc, p, i, s, j) <==> Somewhere(info, esc, p, i, s, j + 1)
  {
    hide CharVal;
    MatchStep(info, esc, p, i, s, j);
    NoZero(p, i, esc);
    if Somewhere(info, esc, p, i, s, j) {
      AtPlace(info, esc, p, i, s, j);
      var k: nat :| Later(s, j, k) && Matches(info, esc, p, i, s, k);
      assert Later(s, j + 1, k);
    }
    if Somewhere(info, esc, p, i, s, j + 1) {
      AtPlace(info, esc, p, i, s, j + 1);
      var k: nat :| Later(s, j + 1, k) && Matches(info, esc, p, i, s, k);
      MatchStep(info, esc, p, i, s, k);
      assert Same(info, Literal(esc, p, i), s[k]);
      assert Later(s, j, k);
    }
  }

  lemma NoZero(p: seq<Byte>, i: nat, esc: int)
    requires Literal(esc, p, i) != 0
    ensures Escape(esc, p, i) ==> Next(p, i) < |p|
  {
  }

  lemma OnlyHere(info: CompareInfo, esc: int, p: seq<Byte>, i: nat, s: seq<Byte>, j: nat)
    ensures j <= |s| && Matches(info, esc, p, i, s, j) ==> Somewhere(info, esc, p, i, s, j)
    ensures j == |s| ==> (Somewhere(info, esc, p, i, s, j) <==> Matches(info, esc, p, i, s, j))
  {
    if Somewhere(info, esc, p, i, s, j) {
      AtPlace(info, esc, p, i, s, j);
    }
    assert j <= |s| ==> Later(s, j, j);
  }

  // ----- The routine.

  // What is left to match: after an escape character the next character stands for itself.
  ghost predicate Left(info: CompareInfo, esc: int, p: seq<Byte>, i: nat, s: seq<Byte>, j: nat, escaped: bool) {
    if !escaped then Matches(info, esc, p, i, s, j)
    else if i >= |p| then j == |s|
    else j < |s| && Same(info, p[i], s[j]) && Matches(info, esc, p, i + 1, s, j + 1)
  }

  // func.c:360-461. 1 if the pattern from i0 on matches the string from j0 on.
  method PatternCompare(p: seq<Byte>, i0: nat, s: seq<Byte>, j0: nat, info: CompareInfo, esc: int) returns (r: int)
    requires Text(p) && WellFormed(p) && Text(s) && Known(info) && (info.matchSet != 0 ==> esc == 0) && i0 <= |p| &&
      j0 <= |s|
    ensures r == if Matches(info, esc, p, i0, s, j0) then 1 else 0
    decreases |p| - i0, 2
  {
    hide Matches, Somewhere, InSet, Bracket, Text, WellFormed, CharVal;
    var i: nat, j: nat, prevEscape := i0, j0, false;
    while At(p, i) != 0
      invariant i0 <= i <= |p| && j <= |s| &&
        (Matches(info, esc, p, i0, s, j0) <==> Left(info, esc, p, i, s, j, prevEscape))
      invariant prevEscape ==> esc != 0
      decreases |p| - i
    {
      var c := At(p, i);
      InText(p, i);
      InText(s, j);
      MatchStep(info, esc, p, i, s, j);
      if !prevEscape && c == info.matchAll {
        r := AfterAll(p, i, s, j, info, esc);
        return;
      } else if !prevEscape && c == info.matchOne {
        if At(s, j) == 0 {
          return 0;
        }
        j := Next(s, j);
        i := i + 1;
      } else if c == info.matchSet {
        Beyond(s, j);
        var found, end := MatchSet(p, i, CharVal(s, j));
        if !found || j >= |s| {
          return 0;
        }
        j := Next(s, j);
        i := end + 1;
      } else if esc != 0 && !prevEscape && CharVal(p, i) == esc {
        prevEscape := true;
        i := Next(p, i);
      } else {
        if !Same(info, c, At(s, j)) {
          return 0;
        }
        i := i + 1;
        j := j + 1;
        prevEscape := false;
      }
    }
    InText(p, i);
    InText(s, j);
    MatchEnd(info, esc, p, i, s, j);
    r := if At(s, j) == 0 then 1 else 0;
  }

  // A wildcard for any sequence at i (func.c:377-411): the wildcards after it, and then the rest.
  method AfterAll(p: seq<Byte>, i0: nat, s: seq<Byte>, j0: nat, info: CompareInfo, esc: int) returns (r: int)
    requires Text(p) && WellFormed(p) && Text(s) && Known(info) && (info.matchSet != 0 ==> esc == 0) && i0 < |p| &&
      j0 <= |s|
    requires p[i0] == info.matchAll
    ensures r == if Somewhere(info, esc, p, i0 + 1, s, j0) then 1 else 0
    decreases |p| - i0, 1
  {
    hide Matches, Somewhere, InSet, Bracket, Text, WellFormed, CharVal;
    var i: nat, j: nat := i0, j0;
    var c := At(p, i + 1);
    while c == info.matchAll || c == info.matchOne
      invariant i0 <= i < |p| && j <= |s| && c == At(p, i + 1) && (p[i] == info.matchAll || p[i] == info.matchOne)
      invariant Somewhere(info, esc, p, i0 + 1, s, j0) <==> Somewhere(info, esc, p, i + 1, s, j)
      decreases |p| - i
    {
      if c == info.matchOne {
        OneAfterAll(info, esc, p, i + 1, s, j);
        InText(s, j);
        if At(s, j) == 0 {
          return 0;
        }
        j := Next(s, j);
      } else {
        AllAgain(info, esc, p, i + 1, s, j);
      }
      i := i + 1;
      c := At(p, i + 1);
    }
    if c != 0 && esc != 0 && CharVal(p, i + 1) == esc {
      c := At(p, Next(p, i + 1));
    }
    if c == 0 {
      TrailingEscape(info, esc, p, i + 1, s, j);
      return 1;
    }
    NotInside(p, i);
    r := SearchOn(p, i, s, j, info, esc, c);
  }

  // The rest of the pattern, which starts with a set or literal c, is tried at every place where it can
  // match (func.c:391-411).
  method SearchOn(p: seq<Byte>, i: nat, s: seq<Byte>, j0: nat, info: CompareInfo, esc: int, c: Byte) returns (r: int)
    requires Text(p) && WellFormed(p) && Text(s) && Known(info) && (info.matchSet != 0 ==> esc == 0) && i + 1 < |p| &&
      j0 <= |s|
    requires p[i + 1] != info.matchAll && p[i + 1] != info.matchOne && c == Literal(esc, p, i + 1) != 0 && !Cont(c)
    ensures r == if Somewhere(info, esc, p, i + 1, s, j0) then 1 else 0
    decreases |p| - i, 0
  {
    hide Matches, Somewhere, InSet, Bracket, Text, WellFormed, CharVal;
    var j: nat := j0;
    NoZero(p, i + 1, esc);
    InText(p, i + 1);
    if c == info.matchSet {
      while true
        invariant j <= |s| && (Somewhere(info, esc, p, i + 1, s, j0) <==> Somewhere(info, esc, p, i + 1, s, j))
        decreases |s| - j
      {
        InText(s, j);
        OnlyHere(info, esc, p, i + 1, s, j);
        MatchStep(info, esc, p, i + 1, s, j);
        if At(s, j) == 0 {
          break;
        }
        var r1 := PatternCompare(p, i + 1, s, j, info, esc);
        if r1 != 0 {
          break;
        }
        NotHere(info, esc, p, i + 1, s, j);
        j := Next(s, j);
      }
      r := if At(s, j) != 0 then 1 else 0;
      return;
    }
    while At(s, j) != 0
      invariant j <= |s| && (Somewhere(info, esc, p, i + 1, s, j0) <==> Somewhere(info, esc, p, i + 1, s, j))
      decreases |s| - j
    {
      while At(s, j) != 0 && !Same(info, c, At(s, j))
        invariant j <= |s| && (Somewhere(info, esc, p, i + 1, s, j0) <==> Somewhere(info, esc, p, i + 1, s, j))
        decreases |s| - j
      {
        InText(s, j);
        Skipped(info, esc, p, i + 1, s, j);
        j := j + 1;
      }
      InText(s, j);
      OnlyHere(info, esc, p, i + 1, s, j);
      MatchStep(info, esc, p, i + 1, s, j);
      if At(s, j) == 0 {
        return 0;
      }
      r := PatternCompare(p, i + 1, s, j, info, esc);
      if r != 0 {
        return 1;
      }
      NotHere(info, esc, p, i + 1, s, j);
      j := Next(s, j);
    }
    InText(s, j);
    OnlyHere(info, esc, p, i + 1, s, j);
    MatchStep(info, esc, p, i + 1, s, j);
    return 0;
  }

  lemma InText(s: seq<Byte>, j: nat)
    requires Text(s)
    ensures At(s, j) == 0 <==> j >= |s|
  {
  }

  lemma NotInside(p: seq<Byte>, i: nat)
    requires WellFormed(p) && i < |p| && p[i] < 128
    ensures !Cont(At(p, i + 1))
  {
  }

  // What a literal or a set at i asks of the string at j.
  lemma MatchStep(info: CompareInfo, esc: int, p: seq<Byte>, i: nat, s: seq<Byte>, j: nat)
    requires i < |p|
    ensures p[i] == info.matchAll ==> (Matches(info, esc, p, i, s, j) <==> Somewhere(info, esc, p, i + 1, s, j))
    ensures p[i] != info.matchAll && p[i] == info.matchOne ==>
      (Matches(info, esc, p, i, s, j) <==> j < |s| && Matches(info, esc, p, i + 1, s, Next(s, j)))
    ensures p[i] != info.matchAll && p[i] != info.matchOne && p[i] == info.matchSet ==>
      (Matches(info, esc, p, i, s, j) <==>
        j < |s| && InSet(p, i, CharVal(s, j)) && Matches(info, esc, p, Bracket(p, i) + 1, s, Next(s, j)))
    ensures p[i] != info.matchAll && p[i] != info.matchOne && p[i] != info.matchSet && Escape(esc, p, i) ==>
      (Matches(info, esc, p, i, s, j) <==> Left(info, esc, p, Next(p, i), s, j, true))
    ensures p[i] != info.matchAll && p[i] != info.matchOne && p[i] != info.matchSet && !Escape(esc, p, i) ==>
      (Matches(info, esc, p, i, s, j) <==> j < |s| && Same(info, p[i], s[j]) && Matches(info, esc, p, i + 1, s, j + 1))
  {
    hide CharVal, InSet, Bracket;
  }

  lemma MatchEnd(info: CompareInfo, esc: int, p: seq<Byte>, i: nat, s: seq<Byte>, j: nat)
    requires i >= |p|
    ensures Matches(info, esc, p, i, s, j) <==> j == |s|
  {
  }

  // Nothing but perhaps an escape character follows: the rest of the string matches.
  lemma TrailingEscape(info: CompareInfo, esc: int, p: seq<Byte>, i: nat, s: seq<Byte>, j: nat)
    requires Text(p) && j <= |s| && (At(p, i) == 0 || (Escape(esc, p, i) && At(p, Next(p, i)) == 0))
    requires i < |p| ==> p[i] != info.matchAll && p[i] != info.matchOne
    requires info.matchSet != 0 ==> esc == 0
    ensures Somewhere(info, esc, p, i, s, j)
  {
    InText(p, i);
    InText(p, Next(p, i));
    assert Matches(info, esc, p, i, s, |s|);
    assert Later(s, j, |s|);
  }

  // ----- A pattern of plain characters and a final wildcard asks for a prefix.

  predicate PlainText(info: CompareInfo, p: seq<Byte>) {
    forall i :: 0 <= i < |p| ==> p[i] != info.matchAll && p[i] != info.matchOne && p[i] != info.matchSet
  }

  lemma {:induction false} PrefixPattern(info: CompareInfo, lit: seq<Byte>, s: seq<Byte>, i: nat)
    requires PlainText(info, lit) && i <= |lit| && i <= |s|
    ensures Matches(info, 0, lit + [info.matchAll], i, s, i) <==> |lit| <= |s| && forall k :: i <= k < |lit| ==>
      Same(info, lit[k], s[k])
    decreases |lit| - i
  {
    hide CharVal;
    var p := lit + [info.matchAll];
    MatchStep(info, 0, p, i, s, i);
    if i < |lit| {
      if i < |s| {
        PrefixPattern(info, lit, s, i + 1);
      }
    } else {
      AnyRest(info, p, s, i);
    }
  }

  lemma AnyRest(info: CompareInfo, p: seq<Byte>, s: seq<Byte>, j: nat)
    requires j <= |s|
    ensures Somewhere(info, 0, p, |p|, s, j)
  {
    assert Matches(info, 0, p, |p|, s, |s|) && Later(s, j, |s|);
  }
}
