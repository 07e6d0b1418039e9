/** The handful of Go `strings` and `unicode` routines the header flags and
    the result evaluation rely on, on `seq<char>` (and, for substring search,
    on any sequence): TrimSpace, Count of one character, Split and FieldsFunc
    on one separator character, and Index/Contains. */
module Strings {

  /** Go's `unicode.IsSpace`: the Latin-1 spaces and the Unicode White_Space
      property. */
  predicate IsSpace(c: char) {
    var n := c as int;
    || (0x09 <= n <= 0x0D)
    || n == 0x20
    || n == 0x85
    || n == 0xA0
    || n == 0x1680
    || (0x2000 <= n <= 0x200A)
    || n == 0x2028
    || n == 0x2029
    || n == 0x202F
    || n == 0x205F
    || n == 0x3000
  }

  predicate AllSpace(s: string) {
    forall i :: 0 <= i < |s| ==> IsSpace(s[i])
  }

  /** Go's `strings.TrimSpace`: drops leading and trailing white space.
      What is left is empty exactly when the input was all white space, and
      otherwise starts and ends with a non-space character. */
  function TrimSpace(s: string): (r: string)
    ensures |r| <= |s|
    ensures r == [] <==> AllSpace(s)
    ensures r != [] ==> !IsSpace(r[0]) && !IsSpace(r[|r| - 1])
    decreases |s|
  {
    if s == [] then s
    else if IsSpace(s[0]) then
      var r := TrimSpace(s[1..]);
      assert AllSpace(s) <==> AllSpace(s[1..]) by {
        assert forall i :: 1 <= i < |s| ==> s[i] == s[1..][i - 1];
      }
      r
    else if IsSpace(s[|s| - 1]) then
      var r := TrimSpace(s[..|s| - 1]);
      assert !AllSpace(s[..|s| - 1]) by {
        assert s[..|s| - 1][0] == s[0];
      }
      r
    else s
  }

  /** `s` with a white-space-only prefix of length `k` and a
      white-space-only suffix removed leaves `r`. */
  ghost predicate StripsTo(s: string, r: string, k: nat) {
    && k + |r| <= |s|
    && r == s[k..k + |r|]
    && AllSpace(s[..k])
    && AllSpace(s[k + |r|..])
  }

  /** Trimming removes only white space, and only from the two ends. */
  lemma {:induction false} TrimSpaceStrips(s: string)
    ensures exists k :: StripsTo(s, TrimSpace(s), k)
    decreases |s|
  {
    var r := TrimSpace(s);
    if s == [] {
      assert StripsTo(s, r, 0);
    } else if IsSpace(s[0]) {
      TrimSpaceStrips(s[1..]);
      var k: nat :| StripsTo(s[1..], r, k);
      StripsToFront(s, r, k);
    } else if IsSpace(s[|s| - 1]) {
      TrimSpaceStrips(s[..|s| - 1]);
      var k: nat :| StripsTo(s[..|s| - 1], r, k);
      StripsToBack(s, r, k);
    } else {
      assert StripsTo(s, r, 0);
    }
  }

  lemma StripsToFront(s: string, r: string, k: nat)
    requires s != [] && IsSpace(s[0]) && StripsTo(s[1..], r, k)
    ensures StripsTo(s, r, k + 1)
  {
    assert s[..k + 1] == [s[0]] + s[1..][..k];
    assert s[k + 1 + |r|..] == s[1..][k + |r|..];
    assert s[k + 1..k + 1 + |r|] == s[1..][k..k + |r|];
  }

  lemma StripsToBack(s: string, r: string, k: nat)
    requires s != [] && IsSpace(s[|s| - 1]) && StripsTo(s[..|s| - 1], r, k)
    ensures StripsTo(s, r, k)
  {
    var t := s[..|s| - 1];
    assert s[..k] == t[..k];
    assert s[k..k + |r|] == t[k..k + |r|];
    assert s[k + |r|..] == t[k + |r|..] + [s[|s| - 1]];
  }

  /** Trimming is idempotent. */
  lemma TrimSpaceIdempotent(s: string)
    ensures TrimSpace(TrimSpace(s)) == TrimSpace(s)
  {
    var r := TrimSpace(s);
    if r != [] {
      assert !IsSpace(r[0]) && !IsSpace(r[|r| - 1]);
    }
  }

  /** A string that starts (or ends) with a non-space character keeps at
      least that character when trimmed. */
  lemma TrimSpaceNonEmpty(s: string)
    requires s != []
    requires !IsSpace(s[0]) || !IsSpace(s[|s| - 1])
    ensures TrimSpace(s) != []
  {
  }

  /** The position of the first `c` in `s`, or `|s|` when there is none. */
  function FirstIndex(s: string, c: char): (i: nat)
    ensures i <= |s|
    ensures c !in s[..i]
    ensures i < |s| ==> s[i] == c
    ensures i == |s| <==> c !in s
  {
    if s == [] || s[0] == c then 0 else 1 + FirstIndex(s[1..], c)
  }

  /** Go's `strings.Count(s, string(c))`: the number of occurrences of the
      one-character separator `c`, found left to right. */
  function Count(s: string, c: char): (n: nat)
    ensures n == 0 <==> c !in s
    decreases |s|
  {
    var i := FirstIndex(s, c);
    if i == |s| then 0 else 1 + Count(s[i + 1..], c)
  }

  /** `Count` counts: it is the number of occurrences of `c` in `s`. */
  lemma {:induction false} CountIsOccurrences(s: string, c: char)
    ensures Count(s, c) == multiset(s)[c]
    decreases |s|
  {
    var i := FirstIndex(s, c);
    if i < |s| {
      var rest := s[i + 1..];
      assert s == s[..i] + [c] + rest;
      assert multiset(s[..i])[c] == 0;
      CountIsOccurrences(rest, c);
    } else {
      assert multiset(s)[c] == 0;
    }
  }

  /** A separator after separator-free text is the first one counted. */
  lemma CountAfter(a: string, c: char, rest: string)
    requires c !in a
    ensures FirstIndex(a + [c] + rest, c) == |a|
    ensures Count(a + [c] + rest, c) == 1 + Count(rest, c)
  {
    var s := a + [c] + rest;
    assert s[..|a|] == a;
    assert s[|a|] == c;
    assert s[|a| + 1..] == rest;
  }

  /** A string that starts and ends with non-space characters is left as
      it is by trimming. */
  lemma TrimSpaceKeeps(s: string)
    requires s != [] && !IsSpace(s[0]) && !IsSpace(s[|s| - 1])
    ensures TrimSpace(s) == s
  {
  }

  /** Go's `strings.Split(s, string(c))`: the pieces between the
      occurrences of `c`, one more piece than there are separators. */
  function Split(s: string, c: char): (parts: seq<string>)
    ensures |parts| == Count(s, c) + 1
    ensures forall i :: 0 <= i < |parts| ==> c !in parts[i]
    ensures parts[0] == s[..FirstIndex(s, c)]
    decreases |s|
  {
    var i := FirstIndex(s, c);
    if i == |s| then
      assert s[..i] == s;
      [s]
    else
      [s[..i]] + Split(s[i + 1..], c)
  }

  /** The pieces glued back together with `c` between neighbours, the
      inverse of `Split`. */
  function Join(parts: seq<string>, c: char): string
    requires parts != []
  {
    if |parts| == 1 then parts[0] else parts[0] + [c] + Join(parts[1..], c)
  }

  /** One step of `Split`: the text before the first separator, then the
      pieces of the rest. */
  lemma SplitStep(s: string, c: char)
    requires FirstIndex(s, c) < |s|
    ensures Split(s, c) == [s[..FirstIndex(s, c)]] + Split(s[FirstIndex(s, c) + 1..], c)
  {
  }

  /** One step of `Join`: the first piece, the separator, then the rest
      joined. */
  lemma JoinCons(p: string, tail: seq<string>, c: char)
    requires tail != []
    ensures Join([p] + tail, c) == p + [c] + Join(tail, c)
  {
    assert ([p] + tail)[1..] == tail;
  }

  lemma {:induction false} JoinSplit(s: string, c: char)
    ensures Join(Split(s, c), c) == s
    decreases |s|
  {
    var i := FirstIndex(s, c);
    if i == |s| {
      assert Split(s, c) == [s];
    } else {
      var head, rest := s[..i], s[i + 1..];
      SplitStep(s, c);
      JoinCons(head, Split(rest, c), c);
      JoinSplit(rest, c);
      assert s == head + [c] + rest;
    }
  }

  lemma {:induction false} SplitJoin(parts: seq<string>, c: char)
    requires parts != []
    requires forall i :: 0 <= i < |parts| ==> c !in parts[i]
    ensures Split(Join(parts, c), c) == parts
    decreases |parts|
  {
    var s := Join(parts, c);
    var p := parts[0];
    if |parts| == 1 {
      assert FirstIndex(s, c) == |s|;
    } else {
      var rest := Join(parts[1..], c);
      assert s == p + [c] + rest;
      assert s[|p|] == c;
      assert s[..|p|] == p;
      assert FirstIndex(s, c) == |p|;
      assert s[|p| + 1..] == rest;
      SplitJoin(parts[1..], c);
      assert parts == [p] + parts[1..];
    }
  }

  /** A string with exactly one separator splits into the text before it
      and the text after it. */
  lemma SplitSingle(s: string, c: char)
    requires Count(s, c) == 1
    ensures FirstIndex(s, c) < |s|
    ensures Split(s, c) == [s[..FirstIndex(s, c)], s[FirstIndex(s, c) + 1..]]
  {
    var i := FirstIndex(s, c);
    var rest := s[i + 1..];
    assert Split(s, c) == [s[..i]] + Split(rest, c);
    assert |Split(rest, c)| == 1;
    assert FirstIndex(rest, c) == |rest|;
  }

  /** Go's `strings.FieldsFunc(s, func(r rune) bool { return r == c })`:
      the maximal non-empty runs of characters other than `c`. */
  function Fields(s: string, c: char): (fields: seq<string>)
    ensures forall i :: 0 <= i < |fields| ==> fields[i] != [] && c !in fields[i]
    decreases |s|
  {
    if s == [] then []
    else if s[0] == c then Fields(s[1..], c)
    else
      var i := FirstIndex(s, c);
      [s[..i]] + (if i == |s| then [] else Fields(s[i + 1..], c))
  }

  /** The non-empty members of `parts`, in order. */
  function NonEmpty(parts: seq<string>): seq<string> {
    if parts == [] then []
    else (if parts[0] == [] then [] else [parts[0]]) + NonEmpty(parts[1..])
  }

  /** FieldsFunc on one separator is Split with the empty pieces dropped. */
  lemma {:induction false} FieldsAreNonEmptyPieces(s: string, c: char)
    ensures Fields(s, c) == NonEmpty(Split(s, c))
    decreases |s|
  {
    var i := FirstIndex(s, c);
    var parts := Split(s, c);
    if s == [] {
      assert parts == [[]];
    } else if s[0] == c {
      assert i == 0;
      FieldsAreNonEmptyPieces(s[1..], c);
      assert parts == [[]] + Split(s[1..], c);
      assert parts[1..] == Split(s[1..], c);
    } else if i == |s| {
      assert parts == [s];
    } else {
      FieldsAreNonEmptyPieces(s[i + 1..], c);
      assert parts[1..] == Split(s[i + 1..], c);
      assert parts[0] != [];
    }
  }

  /** `sub` occurs in `s` starting at position `i`. */
  predicate OccursAt<T(==)>(s: seq<T>, sub: seq<T>, i: int) {
    0 <= i && i + |sub| <= |s| && s[i..i + |sub|] == sub
  }

  /** The first occurrence of `sub` at or after `from`, or -1. */
  function IndexFrom<T(==)>(s: seq<T>, sub: seq<T>, from: nat): (r: int)
    ensures r == -1 || (from <= r && OccursAt(s, sub, r))
    ensures r == -1 ==> forall i :: from <= i ==> !OccursAt(s, sub, i)
    ensures r != -1 ==> forall i :: from <= i < r ==> !OccursAt(s, sub, i)
    decreases |s| - from
  {
    if from + |sub| > |s| then -1
    else if s[from..from + |sub|] == sub then from
    else IndexFrom(s, sub, from + 1)
  }

  /** Go's `strings.Index`: the first occurrence of `sub` in `s`, or -1. */
  function Index<T(==)>(s: seq<T>, sub: seq<T>): (r: int)
    ensures r == -1 <==> forall i :: !OccursAt(s, sub, i)
    ensures r != -1 ==> OccursAt(s, sub, r) && forall i :: 0 <= i < r ==> !OccursAt(s, sub, i)
  {
    IndexFrom(s, sub, 0)
  }

  /** Go's `strings.Contains`: case-sensitive substring containment. */
  predicate Contains<T(==)>(s: seq<T>, sub: seq<T>)
    ensures Contains(s, sub) <==> exists i :: OccursAt(s, sub, i)
  {
    Index(s, sub) >= 0
  }
}
