/** The byte-string operations of Python's `bytes` that the statistics pass relies on:
    `split`, `split(sep, 1)`, `rsplit(sep, 1)`, `strip()` and the `in` substring test. */
module Bytes {
  import opened Wrappers

  newtype byte = x: int | 0 <= x < 256

  const NEWLINE: byte := 10
  const SPACE: byte := 32
  const COMMA: byte := 44

  /** The bytes `bytes.strip()` removes when called without an argument:
      space, tab, line feed, vertical tab, form feed and carriage return. */
  predicate IsWhitespace(b: byte) {
    b == SPACE || 9 <= b <= 13
  }

  // ---------------------------------------------------------------------------
  // s.split(sep)

  /** `s.split(sep)` for a one-byte separator: the pieces between successive
      occurrences of `sep`, so that the empty string gives one empty piece. */
  function Split(s: seq<byte>, sep: byte): (parts: seq<seq<byte>>)
    ensures |parts| >= 1
    ensures forall i | 0 <= i < |parts| :: sep !in parts[i]
  {
    if s == [] then [[]]
    else
      var rest := Split(s[1..], sep);
      if s[0] == sep then [[]] + rest
      else [[s[0]] + rest[0]] + rest[1..]
  }

  /** There is one more piece than there are separators. */
  lemma {:induction false} SplitCount(s: seq<byte>, sep: byte)
    ensures |Split(s, sep)| == multiset(s)[sep] + 1
  {
    if s != [] {
      SplitCount(s[1..], sep);
      assert s == [s[0]] + s[1..];
    }
  }

  /** `sep.join(parts)`, the inverse of `Split`. */
  function Join(parts: seq<seq<byte>>, sep: byte): seq<byte>
    requires |parts| >= 1
  {
    if |parts| == 1 then parts[0] else parts[0] + [sep] + Join(parts[1..], sep)
  }

  /** Splitting after a first piece free of the separator yields that piece first. */
  lemma {:induction false} SplitAfter(p: seq<byte>, sep: byte, rest: seq<byte>)
    requires sep !in p
    ensures Split(p + [sep] + rest, sep) == [p] + Split(rest, sep)
  {
    if p != [] {
      SplitAfter(p[1..], sep, rest);
      assert (p + [sep] + rest)[1..] == p[1..] + [sep] + rest;
      assert [p[0]] + p[1..] == p;
    }
  }

  /** Bytes free of the separator split into themselves alone. */
  lemma {:induction false} SplitFree(p: seq<byte>, sep: byte)
    requires sep !in p
    ensures Split(p, sep) == [p]
  {
    if p != [] {
      SplitFree(p[1..], sep);
      assert [p[0]] + p[1..] == p;
    }
  }

  /** Joining the pieces of a split gives back the original bytes. */
  lemma {:induction false} JoinSplit(s: seq<byte>, sep: byte)
    ensures Join(Split(s, sep), sep) == s
  {
    if s != [] {
      JoinSplit(s[1..], sep);
      var rest := Split(s[1..], sep);
      if s[0] != sep {
        assert s == [s[0]] + s[1..];
        if |rest| > 1 {
          assert ([[s[0]] + rest[0]] + rest[1..])[1..] == rest[1..];
        }
      }
    }
  }

  /** Splitting a join of separator-free pieces gives back the pieces. */
  lemma {:induction false} SplitJoin(parts: seq<seq<byte>>, sep: byte)
    requires |parts| >= 1
    requires forall i | 0 <= i < |parts| :: sep !in parts[i]
    ensures Split(Join(parts, sep), sep) == parts
  {
    if |parts| == 1 {
      SplitFree(parts[0], sep);
    } else {
      SplitJoin(parts[1..], sep);
      SplitAfter(parts[0], sep, Join(parts[1..], sep));
      assert Join(parts, sep) == parts[0] + [sep] + Join(parts[1..], sep);
      assert parts == [parts[0]] + parts[1..];
    }
  }

  /** A byte other than the separator occurs in a join only where it occurs in a piece. */
  lemma {:induction false} JoinFree(parts: seq<seq<byte>>, sep: byte, b: byte)
    requires |parts| >= 1 && b != sep
    requires forall i | 0 <= i < |parts| :: b !in parts[i]
    ensures b !in Join(parts, sep)
  {
    if |parts| > 1 {
      JoinFree(parts[1..], sep, b);
    }
  }

  // ---------------------------------------------------------------------------
  // s.split(sep, 1) and s.rsplit(sep, 1)

  /** `s.split(sep, 1)` unpacked into two names: `None` when `sep` does not occur
      (the unpacking raises), otherwise the bytes before and after its first occurrence. */
  function SplitOnce(s: seq<byte>, sep: byte): (r: Option<(seq<byte>, seq<byte>)>)
    ensures r.None? <==> sep !in s
    ensures r.Some? ==> s == r.value.0 + [sep] + r.value.1 && sep !in r.value.0
  {
    if s == [] then None
    else if s[0] == sep then Some(([], s[1..]))
    else match SplitOnce(s[1..], sep)
      case None => None
      case Some((before, after)) =>
        assert s == [s[0]] + s[1..];
        Some(([s[0]] + before, after))
  }

  /** `s.rsplit(sep, 1)` unpacked into two names: `None` when `sep` does not occur
      (the unpacking raises), otherwise the bytes before and after its last occurrence. */
  function RSplitOnce(s: seq<byte>, sep: byte): (r: Option<(seq<byte>, seq<byte>)>)
    ensures r.None? <==> sep !in s
    ensures r.Some? ==> s == r.value.0 + [sep] + r.value.1 && sep !in r.value.1
  {
    if s == [] then None
    else if s[|s| - 1] == sep then Some((s[..|s| - 1], []))
    else match RSplitOnce(s[..|s| - 1], sep)
      case None => None
      case Some((before, after)) =>
        assert s == s[..|s| - 1] + [s[|s| - 1]];
        Some((before, after + [s[|s| - 1]]))
  }

  /** A separator free suffix determines where the last separator is, so the
      two pieces of `RSplitOnce` are the only ones with that shape. */
  lemma RSplitOnceUnique(s: seq<byte>, sep: byte, before: seq<byte>, after: seq<byte>)
    requires s == before + [sep] + after && sep !in after
    ensures RSplitOnce(s, sep) == Some((before, after))
  {
    var r := RSplitOnce(s, sep);
    assert s[|before|] == sep;
    var b, a := r.value.0, r.value.1;
    assert s[|b|] == sep;
    assert forall k | |before| < k < |s| :: s[k] != sep by {
      forall k | |before| < k < |s| ensures s[k] != sep { assert s[k] == after[k - |before| - 1]; }
    }
    assert forall k | |b| < k < |s| :: s[k] != sep by {
      forall k | |b| < k < |s| ensures s[k] != sep { assert s[k] == a[k - |b| - 1]; }
    }
    assert s[..|before|] == before && s[..|b|] == b;
    assert s[|before| + 1..] == after && s[|b| + 1..] == a;
  }

  /** The first piece of `split(sep, 1)` is the first piece of `split(sep)`, and the
      remaining pieces of the full split are the split of the rest. */
  lemma SplitOnceSplit(s: seq<byte>, sep: byte)
    requires sep in s
    ensures Split(s, sep) == [SplitOnce(s, sep).value.0] + Split(SplitOnce(s, sep).value.1, sep)
  {
    var (before, after) := SplitOnce(s, sep).value;
    SplitAfter(before, sep, after);
  }

  // ---------------------------------------------------------------------------
  // s.strip()

  /** Where `s.lstrip()` starts: the index of the first byte that is not whitespace,
      or `|s|` when there is none. */
  function StripStart(s: seq<byte>): (i: nat)
    ensures i <= |s| && (forall k | 0 <= k < i :: IsWhitespace(s[k]))
    ensures i == |s| || !IsWhitespace(s[i])
  {
    if s != [] && IsWhitespace(s[0]) then
      var i := 1 + StripStart(s[1..]);
      assert forall k | 1 <= k < i :: s[k] == s[1..][k - 1];
      i
    else 0
  }

  /** Where `s.rstrip()` ends, searching down to `lo`: one past the last byte at or
      after `lo` that is not whitespace, or `lo` when there is none. */
  function StripEnd(s: seq<byte>, lo: nat): (j: nat)
    requires lo <= |s|
    ensures lo <= j <= |s| && (forall k | j <= k < |s| :: IsWhitespace(s[k]))
    ensures j == lo || !IsWhitespace(s[j - 1])
  {
    if lo < |s| && IsWhitespace(s[|s| - 1]) then
      var j := StripEnd(s[..|s| - 1], lo);
      assert forall k | j <= k < |s| - 1 :: s[k] == s[..|s| - 1][k];
      j
    else |s|
  }

  /** `s[i..j]` is what stripping `s` leaves: everything outside it is whitespace,
      and it is empty or neither starts nor ends with whitespace. */
  ghost predicate StripBounds(s: seq<byte>, i: int, j: int) {
    && 0 <= i <= j <= |s|
    && (forall k | 0 <= k < i :: IsWhitespace(s[k]))
    && (forall k | j <= k < |s| :: IsWhitespace(s[k]))
    && (i == j || (!IsWhitespace(s[i]) && !IsWhitespace(s[j - 1])))
  }

  /** `s.strip()`: drops leading and trailing whitespace. */
  function Strip(s: seq<byte>): (r: seq<byte>)
    ensures exists i, j :: StripBounds(s, i, j) && r == s[i..j]
  {
    var i := StripStart(s);
    var j := StripEnd(s, i);
    assert StripBounds(s, i, j);
    s[i..j]
  }

  /** Stripping bytes that already neither start nor end with whitespace,
      followed by whitespace only, gives back those bytes. */
  lemma StripPadded(name: seq<byte>, pad: seq<byte>)
    requires name != [] && !IsWhitespace(name[0]) && !IsWhitespace(name[|name| - 1])
    requires forall k | 0 <= k < |pad| :: IsWhitespace(pad[k])
    ensures Strip(name + pad) == name
  {
    var s := name + pad;
    assert StripStart(s) == 0;
    forall k | |name| <= k < |s| ensures IsWhitespace(s[k]) {
      assert s[k] == pad[k - |name|];
    }
    var j := StripEnd(s, 0);
    assert s[|name| - 1] == name[|name| - 1];
    assert j == |name|;
    assert s[..|name|] == name;
  }

  // ---------------------------------------------------------------------------
  // pattern in s

  /** `pattern` occurs in `s` starting at index `i`. */
  predicate OccursAt(s: seq<byte>, pattern: seq<byte>, i: int) {
    0 <= i <= |s| - |pattern| && s[i..i + |pattern|] == pattern
  }

  /** `pattern in s` for byte strings. */
  predicate Contains(s: seq<byte>, pattern: seq<byte>) {
    exists i | 0 <= i <= |s| - |pattern| :: OccursAt(s, pattern, i)
  }
}
