/** The few string operations of Qt's QString/QByteArray that the graph
    builder relies on, each with the meaning it has in Qt. */
module Strings {

  /** White space as QByteArray::trimmed understands it: space, tab, line
      feed, vertical tab, form feed and carriage return. */
  predicate IsSpace(c: char) {
    c == ' ' || c == '\t' || c == '\n' || c == '\r' || c as int == 0x0B || c as int == 0x0C
  }

  /** Number of white-space characters that open `s`. */
  function LeadingSpaces(s: string): (n: nat)
    ensures n <= |s|
    ensures forall k :: 0 <= k < n ==> IsSpace(s[k])
    ensures n < |s| ==> !IsSpace(s[n])
  {
    if |s| == 0 || !IsSpace(s[0]) then 0 else 1 + LeadingSpaces(s[1..])
  }

  /** Number of white-space characters that close `s`. */
  function TrailingSpaces(s: string): (n: nat)
    ensures n <= |s|
    ensures forall k :: |s| - n <= k < |s| ==> IsSpace(s[k])
    ensures n < |s| ==> !IsSpace(s[|s| - n - 1])
  {
    if |s| == 0 || !IsSpace(s[|s| - 1]) then 0 else 1 + TrailingSpaces(s[..|s| - 1])
  }

  /** `r` is the slice of `s` starting at `a`, and only white space lies
      around it. */
  predicate SpaceFramed(s: string, r: string, a: int) {
    0 <= a <= |s| - |r| && s[a..a + |r|] == r
    && (forall k :: 0 <= k < a ==> IsSpace(s[k]))
    && (forall k :: a + |r| <= k < |s| ==> IsSpace(s[k]))
  }

  /** `trimmed()`: `s` without its leading and trailing white space. */
  function Trim(s: string): (r: string)
    ensures r == [] || (!IsSpace(r[0]) && !IsSpace(r[|r| - 1]))
    ensures exists a :: SpaceFramed(s, r, a)
  {
    var a := LeadingSpaces(s);
    var t := s[a..];
    var r := t[..|t| - TrailingSpaces(t)];
    assert SpaceFramed(s, r, a);
    r
  }

  /** A string with no white space at either end is its own trimmed form. */
  lemma TrimUntrimmed(s: string)
    requires s == [] || (!IsSpace(s[0]) && !IsSpace(s[|s| - 1]))
    ensures Trim(s) == s
  {
    assert LeadingSpaces(s) == 0;
    assert TrailingSpaces(s) == 0;
  }

  /** `indexOf(c)`: the first position of `c`, or -1. */
  function IndexOf(s: string, c: char): (r: int)
    ensures r == -1 <==> c !in s
    ensures r != -1 ==> 0 <= r < |s| && s[r] == c && c !in s[..r]
  {
    if |s| == 0 then -1
    else if s[0] == c then 0
    else
      var k := IndexOf(s[1..], c);
      if k == -1 then -1
      else
        assert s[..k + 1] == [s[0]] + s[1..][..k];
        k + 1
  }

  /** `lastIndexOf` for a set of single characters (a one-character
      regular expression such as `\.|/`, or a single QChar): the last
      position holding one of `cs`, or -1. */
  function LastIndexOfAny(s: string, cs: set<char>): (r: int)
    ensures r == -1 <==> forall k :: 0 <= k < |s| ==> s[k] !in cs
    ensures r != -1 ==> 0 <= r < |s| && s[r] in cs && forall k :: r < k < |s| ==> s[k] !in cs
  {
    if |s| == 0 then -1
    else if s[|s| - 1] in cs then |s| - 1
    else LastIndexOfAny(s[..|s| - 1], cs)
  }

  /** `lastIndexOf(c)`: the last position of `c`, or -1. */
  function LastIndexOf(s: string, c: char): (r: int)
    ensures r == -1 <==> c !in s
    ensures r != -1 ==> 0 <= r < |s| && s[r] == c && c !in s[r + 1..]
  {
    var r := LastIndexOfAny(s, {c});
    assert r == -1 ==> forall k :: 0 <= k < |s| ==> s[k] != c;
    r
  }

  /** `endsWith(t)`; every string ends with the empty string. */
  predicate EndsWith(s: string, t: string) {
    |t| <= |s| && s[|s| - |t|..] == t
  }

  /** `startsWith(t)`. */
  predicate StartsWith(s: string, t: string) {
    |t| <= |s| && s[..|t|] == t
  }

  /** `pat` occurs in `s` at position `i`. */
  predicate OccursAt(s: string, pat: string, i: nat) {
    i + |pat| <= |s| && s[i..i + |pat|] == pat
  }

  /** `replace(pat, "")`: every occurrence of `pat` found by a left-to-right
      scan is deleted; the scan resumes after the deleted text, so removing
      "ab" from "aabb" leaves "ab". */
  function RemoveAll(s: string, pat: string): (r: string)
    requires pat != []
    ensures |r| <= |s|
    decreases |s|
  {
    if |s| < |pat| then s
    else if s[..|pat|] == pat then RemoveAll(s[|pat|..], pat)
    else [s[0]] + RemoveAll(s[1..], pat)
  }

  /** Where `pat` does not occur, nothing is removed. */
  lemma {:induction false} RemoveAllAbsent(s: string, pat: string)
    requires pat != []
    requires forall i :: 0 <= i < |s| ==> !OccursAt(s, pat, i)
    ensures RemoveAll(s, pat) == s
    decreases |s|
  {
    if |s| >= |pat| {
      assert !OccursAt(s, pat, 0);
      forall i | 0 <= i < |s[1..]|
        ensures !OccursAt(s[1..], pat, i)
      {
        assert !OccursAt(s, pat, i + 1);
        if i + |pat| <= |s[1..]| {
          assert s[1..][i..i + |pat|] == s[i + 1..i + 1 + |pat|];
        }
      }
      RemoveAllAbsent(s[1..], pat);
    }
  }

  /** Dropping the first character of `x` keeps `pat` out of the
      positions inside what is left of `x`. */
  lemma NoOccurrenceShift(x: string, pat: string, rest: string)
    requires x != []
    requires forall i :: 0 <= i < |x| ==> !OccursAt(x + rest, pat, i)
    ensures forall i :: 0 <= i < |x| - 1 ==> !OccursAt(x[1..] + rest, pat, i)
  {
    var s := x + rest;
    assert s[1..] == x[1..] + rest;
    forall i | 0 <= i < |x| - 1
      ensures !OccursAt(x[1..] + rest, pat, i)
    {
      assert !OccursAt(s, pat, i + 1);
      if i + |pat| <= |s| - 1 {
        assert s[1..][i..i + |pat|] == s[i + 1..i + 1 + |pat|];
      }
    }
  }

  /** A string that does not open with `pat` keeps its first character. */
  lemma RemoveAllKeepsFirst(s: string, pat: string)
    requires pat != [] && s != [] && !OccursAt(s, pat, 0)
    ensures RemoveAll(s, pat) == [s[0]] + RemoveAll(s[1..], pat)
  {
  }

  /** A string that opens with `pat` loses it. */
  lemma RemoveAllDropsFirst(pat: string, y: string)
    requires pat != []
    ensures RemoveAll(pat + y, pat) == RemoveAll(y, pat)
  {
    assert (pat + y)[..|pat|] == pat;
    assert (pat + y)[|pat|..] == y;
  }

  /** Where the first occurrence of `pat` starts right after `x`, that
      occurrence is deleted, `x` is kept, and the scan resumes after it:
      with `RemoveAllAbsent` this pins down the left-to-right deletion of
      every occurrence. */
  lemma {:induction false} RemoveAllAt(x: string, pat: string, y: string)
    requires pat != []
    requires forall i :: 0 <= i < |x| ==> !OccursAt(x + (pat + y), pat, i)
    ensures RemoveAll(x + (pat + y), pat) == x + RemoveAll(y, pat)
    decreases |x|
  {
    var rest := pat + y;
    if x == [] {
      assert x + rest == rest;
      RemoveAllDropsFirst(pat, y);
    } else {
      var s := x + rest;
      RemoveAllKeepsFirst(s, pat);
      assert s[1..] == x[1..] + rest;
      NoOccurrenceShift(x, pat, rest);
      RemoveAllAt(x[1..], pat, y);
      assert x == [x[0]] + x[1..];
    }
  }

  /** When `pat` occurs in `s + pat` only at its very end, removing every
      occurrence gives back `s`: a lone trailing extension is stripped. */
  lemma RemoveAllTrailing(s: string, pat: string)
    requires pat != []
    requires forall i :: 0 <= i < |s| ==> !OccursAt(s + pat, pat, i)
    ensures RemoveAll(s + pat, pat) == s
  {
    assert s + (pat + []) == s + pat;
    RemoveAllAt(s, pat, []);
  }
}
