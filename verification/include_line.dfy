/** The include-statement matcher: a search for the regular expression
    `# *include *["<](.*)[">]` in a line, returning its captured group.
    The search is unanchored and takes the leftmost start that matches; the
    spaces are literal spaces only; the payload may open with either `"` or
    `<` and close with either `"` or `>`; and the greedy `.*`, which does not
    cross a line feed, runs to the last closing delimiter. */
module IncludeLine {
  import opened Wrappers
  import opened Strings

  predicate IsOpener(c: char) {
    c == '"' || c == '<'
  }

  predicate IsCloser(c: char) {
    c == '"' || c == '>'
  }

  const Keyword: string := "include"

  /** ` *` from position `i`: the first position at or after `i` that does
      not hold a space. */
  function SkipBlanks(s: string, i: nat): (j: nat)
    requires i <= |s|
    ensures i <= j <= |s|
    ensures forall k :: i <= k < j ==> s[k] == ' '
    ensures j < |s| ==> s[j] != ' '
    decreases |s| - i
  {
    if i < |s| && s[i] == ' ' then SkipBlanks(s, i + 1) else i
  }

  /** `p` sits in `s` between an opening delimiter at `k` and a closing
      delimiter right after it. */
  predicate Delimited(s: string, k: int, p: string) {
    0 <= k && k + |p| + 1 < |s| && IsOpener(s[k]) && s[k + 1..k + 1 + |p|] == p && IsCloser(s[k + 1 + |p|])
  }

  /** The text of `s` from `i` up to (not including) the first line feed. */
  function UpToLineFeed(s: string, i: nat): (r: string)
    requires i <= |s|
    ensures '\n' !in r
    ensures i + |r| <= |s| && s[i..i + |r|] == r
    ensures i + |r| < |s| ==> s[i + |r|] == '\n'
  {
    var rest := s[i..];
    var nl := IndexOf(rest, '\n');
    if nl == -1 then rest else rest[..nl]
  }

  /** The keyword stands at position `j`. */
  predicate KeywordAt(s: string, j: nat) {
    j + |Keyword| <= |s| && s[j..j + |Keyword|] == Keyword
  }

  /** No closing delimiter anywhere in `t`. */
  predicate NoCloser(t: string) {
    forall m :: 0 <= m < |t| ==> !IsCloser(t[m])
  }

  /** `(.*)[">]` on the rest of a line: the text up to its last closing
      delimiter, which the greedy `.*` reaches. There is no capture exactly
      when the line holds no closer. */
  function CaptureIn(line: string): (r: Option<string>)
    ensures r.None? <==> NoCloser(line)
    ensures r.Some? ==> && |r.value| < |line| && line[..|r.value|] == r.value
                        && IsCloser(line[|r.value|]) && NoCloser(line[|r.value| + 1..])
  {
    var e := LastIndexOfAny(line, {'"', '>'});
    LastCloserSplit(line);
    if e == -1 then None else Some(line[..e])
  }

  /** The capture after an opening delimiter at `k`, which cannot run past
      the end of the line: the payload sits between that delimiter and a
      closing one. */
  function CaptureAt(s: string, k: nat): (r: Option<string>)
    requires k < |s| && IsOpener(s[k])
    ensures r == CaptureIn(UpToLineFeed(s, k + 1))
    ensures r.Some? ==> '\n' !in r.value && Delimited(s, k, r.value)
  {
    var line := UpToLineFeed(s, k + 1);
    var r := CaptureIn(line);
    if r.None? then r
    else
      var p := r.value;
      assert s[k + 1..k + 1 + |p|] == p;
      assert s[k + 1 + |p|] == line[|p|];
      r
  }

  /** The last closer splits a line: none at all when the search fails,
      none after the one it finds. */
  lemma LastCloserSplit(line: string)
    ensures LastIndexOfAny(line, {'"', '>'}) == -1 <==> NoCloser(line)
    ensures LastIndexOfAny(line, {'"', '>'}) != -1 ==>
              var e := LastIndexOfAny(line, {'"', '>'});
              IsCloser(line[e]) && NoCloser(line[e + 1..])
  {
    var e := LastIndexOfAny(line, {'"', '>'});
    if e != -1 {
      var t := line[e + 1..];
      forall m | 0 <= m < |t| ensures !IsCloser(t[m]) {
        assert t[m] == line[e + 1 + m];
      }
    }
  }

  /** The capture when the pattern is tried at position `i`. */
  function MatchAt(s: string, i: nat): (r: Option<string>)
    requires i < |s|
    ensures r.Some? ==> s[i] == '#' && '\n' !in r.value && exists k :: i < k && Delimited(s, k, r.value)
  {
    if s[i] != '#' then None
    else
      var j := SkipBlanks(s, i + 1);
      if !KeywordAt(s, j) then None
      else
        var k := SkipBlanks(s, j + |Keyword|);
        if k == |s| || !IsOpener(s[k]) then None
        else CaptureAt(s, k)
  }

  /** A match at `i` needs the `#` and, after blanks, the keyword; past
      them, and past the blanks after the keyword, the pattern matches
      exactly when an opening delimiter stands there and the capture after
      it succeeds, and the capture is the match. */
  lemma MatchAtShape(s: string, i: nat)
    requires i < |s|
    ensures MatchAt(s, i).Some? ==> s[i] == '#' && KeywordAt(s, SkipBlanks(s, i + 1))
    ensures s[i] == '#' && KeywordAt(s, SkipBlanks(s, i + 1)) ==>
              var k := SkipBlanks(s, SkipBlanks(s, i + 1) + |Keyword|);
              MatchAt(s, i) == if k < |s| && IsOpener(s[k]) then CaptureAt(s, k) else None
  {
  }

  /** `m` is the leftmost position from `i` on where the pattern matches. */
  predicate FirstMatchAt(s: string, i: nat, m: nat) {
    i <= m < |s| && MatchAt(s, m).Some? && forall m' :: i <= m' < m ==> MatchAt(s, m').None?
  }

  /** The pattern matches at no position from `i` on. */
  predicate NoMatchFrom(s: string, i: nat) {
    forall m :: i <= m < |s| ==> MatchAt(s, m).None?
  }

  /** The pattern tried at every position from `i` on; the first that
      matches wins (see `SearchFromLeftmost` and `SearchFromNone`). */
  function SearchFrom(s: string, i: nat): Option<string>
    requires i <= |s|
    decreases |s| - i
  {
    if i == |s| then None
    else if MatchAt(s, i).Some? then MatchAt(s, i)
    else SearchFrom(s, i + 1)
  }

  /** The search reports the match at the leftmost position that has one. */
  lemma {:induction false} SearchFromLeftmost(s: string, i: nat)
    requires i <= |s|
    ensures SearchFrom(s, i).Some? ==> exists m :: FirstMatchAt(s, i, m) && MatchAt(s, m) == SearchFrom(s, i)
    decreases |s| - i
  {
    if i < |s| {
      if MatchAt(s, i).Some? {
        assert FirstMatchAt(s, i, i);
      } else {
        SearchFromLeftmost(s, i + 1);
        if SearchFrom(s, i + 1).Some? {
          var m :| FirstMatchAt(s, i + 1, m) && MatchAt(s, m) == SearchFrom(s, i + 1);
          assert FirstMatchAt(s, i, m);
        }
      }
    }
  }

  /** The search finds nothing exactly when the pattern matches nowhere
      from `i` on. */
  lemma {:induction false} SearchFromNone(s: string, i: nat)
    requires i <= |s|
    ensures SearchFrom(s, i).None? <==> NoMatchFrom(s, i)
    decreases |s| - i
  {
    if i < |s| && MatchAt(s, i).None? {
      SearchFromNone(s, i + 1);
      assert NoMatchFrom(s, i + 1) ==> NoMatchFrom(s, i);
    }
  }

  /** `includeStatement.match(line)`, giving the first captured group. */
  function IncludePayload(line: string): (r: Option<string>)
    ensures r.Some? ==> '#' in line && '\n' !in r.value && exists k :: Delimited(line, k, r.value)
    ensures r.Some? ==> exists m :: FirstMatchAt(line, 0, m) && MatchAt(line, m) == r
    ensures r.None? <==> NoMatchFrom(line, 0)
  {
    SearchFromLeftmost(line, 0);
    SearchFromNone(line, 0);
    SearchFrom(line, 0)
  }

  /** Text that may follow the closing delimiter on the same line: no
      further closer, no line feed. */
  predicate PlainTail(t: string) {
    '\n' !in t && NoCloser(t)
  }

  /** `s` is laid out as an include statement: a `#`, spaces, the keyword
      at `j`, spaces, an opening delimiter at `k`, then the payload, a
      closing delimiter and a plain tail (a comment, say). */
  predicate IncludeLayout(s: string, j: nat, k: nat, payload: string, close: char, tail: string) {
    && 1 <= j && j + |Keyword| <= k < |s|
    && s[0] == '#' && (forall m :: 1 <= m < j ==> s[m] == ' ')
    && s[j..j + |Keyword|] == Keyword
    && (forall m :: j + |Keyword| <= m < k ==> s[m] == ' ')
    && IsOpener(s[k]) && IsCloser(close) && '\n' !in payload && PlainTail(tail)
    && s[k + 1..] == payload + [close] + tail
  }

  /** On such a line the blanks are skipped up to the keyword and then up
      to the opening delimiter. */
  lemma LayoutBlanks(s: string, j: nat, k: nat, payload: string, close: char, tail: string)
    requires IncludeLayout(s, j, k, payload, close, tail)
    ensures SkipBlanks(s, 1) == j
    ensures SkipBlanks(s, j + |Keyword|) == k
  {
    assert s[j] == s[j..j + |Keyword|][0] == 'i';
    SkipBlanksSpan(s, 1, j);
    SkipBlanksSpan(s, j + |Keyword|, k);
  }

  /** On such a line the rest after the opening delimiter is the payload,
      the closing delimiter and the tail. */
  lemma LayoutCapture(s: string, j: nat, k: nat, payload: string, close: char, tail: string)
    requires IncludeLayout(s, j, k, payload, close, tail)
    ensures UpToLineFeed(s, k + 1) == payload + [close] + tail
  {
    var rest := payload + [close] + tail;
    assert s[k + 1..] == rest;
    assert '\n' !in rest by {
      assert forall m :: 0 <= m < |rest| ==> rest[m] in payload || rest[m] == close || rest[m] in tail;
    }
  }

  /** A closing delimiter followed by a plain tail is the last closer,
      whatever the text before it holds. */
  lemma LastCloser(payload: string, close: char, tail: string)
    requires IsCloser(close) && PlainTail(tail)
    ensures LastIndexOfAny(payload + [close] + tail, {'"', '>'}) == |payload|
  {
    var head := payload + [close];
    var w := head + tail;
    assert |head| == |payload| + 1 && w[|payload|] == head[|payload|] == close;
    assert w[|head|..] == tail;
    LastCloserAt(w, |payload|);
  }

  /** A closer with no closer after it is the one the search finds. */
  lemma LastCloserAt(w: string, e: nat)
    requires e < |w| && IsCloser(w[e]) && NoCloser(w[e + 1..])
    ensures LastIndexOfAny(w, {'"', '>'}) == e
  {
    forall m | e < m < |w| ensures !IsCloser(w[m]) {
      assert w[m] == w[e + 1..][m - e - 1];
    }
  }

  /** The pattern matches at 0 once each of its parts is found in turn:
      the `#`, the blanks up to the keyword, the blanks up to an opening
      delimiter, and a capture after it. */
  lemma MatchAtParts(s: string, j: nat, k: nat, p: string)
    requires 0 < |s| && s[0] == '#' && SkipBlanks(s, 1) == j && KeywordAt(s, j)
    requires SkipBlanks(s, j + |Keyword|) == k && k < |s| && IsOpener(s[k]) && CaptureAt(s, k) == Some(p)
    ensures MatchAt(s, 0) == Some(p)
  {
  }

  /** The pattern matches at 0 on a line laid out as an include statement. */
  lemma MatchAtLaidOut(s: string, j: nat, k: nat, payload: string, close: char, tail: string)
    requires IncludeLayout(s, j, k, payload, close, tail)
    ensures MatchAt(s, 0) == Some(payload)
  {
    LayoutBlanks(s, j, k, payload, close, tail);
    CaptureLaidOut(s, j, k, payload, close, tail);
    assert KeywordAt(s, j);
    MatchAtParts(s, j, k, payload);
  }

  /** Conversely, on a line without a line feed, a match at 0 lays the line
      out as an include statement around the captured payload; with
      `MatchAtLaidOut`, the layouts are exactly the lines that match at 0. */
  lemma MatchAtLayout(s: string, payload: string)
    requires 0 < |s| && '\n' !in s && MatchAt(s, 0) == Some(payload)
    ensures exists j, k, close, tail :: IncludeLayout(s, j, k, payload, close, tail)
  {
    MatchAtFound(s, payload);
    var j, k :| MatchParts(s, j, k, payload);
    LayoutFromCapture(s, j, k, payload);
  }

  /** The parts of the pattern found in turn on a line without a line
      feed: the `#` and blanks up to the keyword at `j`, blanks up to the
      opening delimiter at `k`, and the capture on the rest of the line. */
  predicate MatchParts(s: string, j: nat, k: nat, payload: string) {
    && 0 < |s| && s[0] == '#' && 1 <= j && KeywordAt(s, j) && (forall m :: 1 <= m < j ==> s[m] == ' ')
    && j + |Keyword| <= k < |s| && (forall m :: j + |Keyword| <= m < k ==> s[m] == ' ') && IsOpener(s[k])
    && '\n' !in s[k + 1..] && CaptureIn(s[k + 1..]) == Some(payload)
  }

  /** A match at 0 on a line without a line feed has found each part of
      the pattern. */
  lemma MatchAtFound(s: string, payload: string)
    requires 0 < |s| && '\n' !in s && MatchAt(s, 0) == Some(payload)
    ensures exists j, k :: MatchParts(s, j, k, payload)
  {
    MatchAtOpener(s, payload);
    var j := SkipBlanks(s, 1);
    var k := SkipBlanks(s, j + |Keyword|);
    CaptureToEnd(s, k, payload);
    assert MatchParts(s, j, k, payload);
  }

  /** A match at 0 passes the `#`, the keyword and an opening delimiter,
      and its capture is the one after that delimiter. */
  lemma MatchAtOpener(s: string, payload: string)
    requires 0 < |s| && MatchAt(s, 0) == Some(payload)
    ensures s[0] == '#' && KeywordAt(s, SkipBlanks(s, 1))
    ensures var k := SkipBlanks(s, SkipBlanks(s, 1) + |Keyword|);
            k < |s| && IsOpener(s[k]) && CaptureAt(s, k) == Some(payload)
  {
    MatchAtShape(s, 0);
  }

  /** On a line without a line feed the capture after an opening delimiter
      is taken on the whole rest of the line. */
  lemma CaptureToEnd(s: string, k: nat, payload: string)
    requires k < |s| && IsOpener(s[k]) && '\n' !in s && CaptureAt(s, k) == Some(payload)
    ensures '\n' !in s[k + 1..] && CaptureIn(s[k + 1..]) == Some(payload)
  {
    WholeLine(s, k + 1);
  }

  /** The parts of a match make up an include layout. */
  lemma LayoutFromCapture(s: string, j: nat, k: nat, payload: string)
    requires MatchParts(s, j, k, payload)
    ensures exists close, tail :: IncludeLayout(s, j, k, payload, close, tail)
  {
    var line := s[k + 1..];
    CaptureSplit(line, payload);
    var close := line[|payload|];
    var tail := line[|payload| + 1..];
    assert '\n' !in payload by {
      assert forall m :: 0 <= m < |payload| ==> payload[m] == line[m];
    }
    assert IncludeLayout(s, j, k, payload, close, tail);
  }

  /** Without a line feed, the line runs to the end of the text. */
  lemma WholeLine(s: string, i: nat)
    requires i <= |s| && '\n' !in s
    ensures UpToLineFeed(s, i) == s[i..] && '\n' !in s[i..]
  {
  }

  /** A capture splits its line into the payload, the last closer and a
      tail free of closers. */
  lemma CaptureSplit(line: string, payload: string)
    requires CaptureIn(line) == Some(payload)
    ensures |payload| < |line| && IsCloser(line[|payload|]) && NoCloser(line[|payload| + 1..])
    ensures line == payload + [line[|payload|]] + line[|payload| + 1..]
    ensures '\n' !in line ==> '\n' !in line[|payload| + 1..]
  {
    assert line == line[..|payload|] + [line[|payload|]] + line[|payload| + 1..];
  }

  /** On such a line the capture after the opening delimiter is the
      payload. */
  lemma CaptureLaidOut(s: string, j: nat, k: nat, payload: string, close: char, tail: string)
    requires IncludeLayout(s, j, k, payload, close, tail)
    ensures CaptureAt(s, k) == Some(payload)
  {
    LayoutCapture(s, j, k, payload, close, tail);
    LastCloser(payload, close, tail);
    assert (payload + [close] + tail)[..|payload|] == payload;
  }

  /** Matching gives back the payload of any line laid out as above: for
      either delimiter on either side, any payload without a line feed
      (delimiters inside it included, since the capture is greedy) and any
      plain tail after the closing delimiter. */
  lemma IncludeRoundTrip(s: string, j: nat, k: nat, payload: string, close: char, tail: string)
    requires IncludeLayout(s, j, k, payload, close, tail)
    ensures IncludePayload(s) == Some(payload)
  {
    MatchAtLaidOut(s, j, k, payload, close, tail);
  }

  /** An include statement as it is usually written: `#include`, one
      space, and the payload between its delimiters. */
  function Statement(open: char, payload: string, close: char): string {
    "#" + Keyword + " " + [open] + payload + [close]
  }

  /** Such a statement, with a plain tail after it, has the layout above,
      with the keyword at 1 and the opening delimiter at 9. */
  lemma StatementLayout(open: char, payload: string, close: char, tail: string)
    requires IsOpener(open) && IsCloser(close) && '\n' !in payload && PlainTail(tail)
    ensures IncludeLayout(Statement(open, payload, close) + tail, 1, 9, payload, close, tail)
  {
    var s := Statement(open, payload, close) + tail;
    assert s[1..8] == Keyword;
    assert s[8] == ' ' && s[9] == open;
    assert s[10..] == payload + [close] + tail;
  }

  /** Matching a written statement gives back its payload. */
  lemma StatementRoundTrip(open: char, payload: string, close: char)
    requires IsOpener(open) && IsCloser(close) && '\n' !in payload
    ensures IncludePayload(Statement(open, payload, close)) == Some(payload)
  {
    StatementLayout(open, payload, close, []);
    assert Statement(open, payload, close) + [] == Statement(open, payload, close);
    IncludeRoundTrip(Statement(open, payload, close), 1, 9, payload, close, []);
  }

  /** So does a written statement followed by a comment or other plain
      text. */
  lemma CommentedStatementRoundTrip(open: char, payload: string, close: char, tail: string)
    requires IsOpener(open) && IsCloser(close) && '\n' !in payload && PlainTail(tail)
    ensures IncludePayload(Statement(open, payload, close) + tail) == Some(payload)
  {
    StatementLayout(open, payload, close, tail);
    IncludeRoundTrip(Statement(open, payload, close) + tail, 1, 9, payload, close, tail);
  }

  /** `SkipBlanks` stops exactly at the first non-space. */
  lemma {:induction false} SkipBlanksSpan(s: string, i: nat, j: nat)
    requires i <= j < |s| && s[j] != ' '
    requires forall m :: i <= m < j ==> s[m] == ' '
    ensures SkipBlanks(s, i) == j
    decreases j - i
  {
    if i < j {
      SkipBlanksSpan(s, i + 1, j);
    }
  }
}
