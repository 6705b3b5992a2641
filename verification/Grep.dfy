/** The line search of grep: a 1024-byte window over the file, whose last, unfinished
    line is carried over to the front of the next window. */
module Grep {
  import opened Bytes
  import opened UserFile

  const BUFSIZE := 1024

  // ----- what is meant: the lines of a file, and those that contain a pattern

  function Lines(s: seq<byte>): seq<seq<byte>>
    decreases |s|
  {
    var p := FirstIndex(s, LINE_FEED);
    if s == [] then [] else if p == |s| then [s] else [s[..p]] + Lines(s[p + 1..])
  }

  predicate MatchAt(line: seq<byte>, pattern: seq<byte>, at: int) {
    0 <= at && at + |pattern| <= |line| && line[at..at + |pattern|] == pattern
  }

  predicate Contains(line: seq<byte>, pattern: seq<byte>) {
    pattern != [] && exists at :: 0 <= at < |line| && MatchAt(line, pattern, at)
  }

  function Hits(lines: seq<seq<byte>>, pattern: seq<byte>): seq<seq<byte>> {
    if lines == [] then []
    else Hit(lines[0], pattern) + Hits(lines[1..], pattern)
  }

  function Hit(line: seq<byte>, pattern: seq<byte>): seq<seq<byte>> {
    if Contains(line, pattern) then [line] else []
  }

  /** The lines, each with its newline, one after the other. */
  function Terminated(lines: seq<seq<byte>>): seq<byte> {
    if lines == [] then [] else lines[0] + ([LINE_FEED] + Terminated(lines[1..]))
  }

  lemma TerminatedCons(line: seq<byte>, lines: seq<seq<byte>>)
    ensures Terminated([line] + lines) == line + ([LINE_FEED] + Terminated(lines))
  {
    assert ([line] + lines)[1..] == lines;
  }

  lemma LastStays(line: seq<byte>, rest: seq<byte>)
    ensures var s := line + ([LINE_FEED] + rest);
      && s[|s| - 1] == (if rest == [] then LINE_FEED else rest[|rest| - 1])
      && s + [LINE_FEED] == line + ([LINE_FEED] + (rest + [LINE_FEED]))
  {
  }

  /** The lines of a file hold no newline, and with their newlines they are the file, but for
      one behind a last line that has none. */
  lemma {:induction false} LinesAreTheFile(s: seq<byte>)
    ensures forall k :: 0 <= k < |Lines(s)| ==> LINE_FEED !in Lines(s)[k]
    ensures Terminated(Lines(s)) == if s == [] || s[|s| - 1] == LINE_FEED then s else s + [LINE_FEED]
    decreases |s|
  {
    hide Terminated, FirstIndex;
    var p := FirstIndex(s, LINE_FEED);
    if s == [] {
      NoLines();
    } else if p == |s| {
      NoLines();
      TerminatedCons(s, []);
      assert [s] + [] == [s];
    } else {
      var line, rest := s[..p], s[p + 1..];
      LinesAreTheFile(rest);
      TerminatedCons(line, Lines(rest));
      LastStays(line, rest);
      assert s == line + ([LINE_FEED] + rest);
    }
  }

  lemma NoLines()
    ensures Terminated([]) == []
  {
  }

  ghost predicate StandsIn(line: seq<byte>, pattern: seq<byte>) { exists a, b :: line == a + (pattern + b) }

  /** A line is a hit exactly when the pattern is not empty and stands somewhere in it. */
  lemma ContainsIff(line: seq<byte>, pattern: seq<byte>)
    ensures Contains(line, pattern) <==> pattern != [] && StandsIn(line, pattern)
  {
    if Contains(line, pattern) {
      var at :| 0 <= at < |line| && MatchAt(line, pattern, at);
      assert line == line[..at] + (pattern + line[at + |pattern|..]);
    }
    if pattern != [] && StandsIn(line, pattern) {
      var a, b :| line == a + (pattern + b);
      assert line[|a|..|a| + |pattern|] == pattern;
      assert MatchAt(line, pattern, |a|);
    }
  }

  /** Some of the items, at ascending places. */
  ghost predicate Selects(at: seq<nat>, items: seq<seq<byte>>, some: seq<seq<byte>>) {
    && |at| == |some| && (forall k :: 0 <= k < |at| ==> at[k] < |items| && some[k] == items[at[k]])
    && (forall i, j :: 0 <= i < j < |at| ==> at[i] < at[j])
  }

  lemma SelectsCons(rest: seq<nat>, moved: seq<nat>, items: seq<seq<byte>>, some: seq<seq<byte>>)
    requires items != [] && Selects(rest, items[1..], some)
    requires |moved| == |rest| && forall k :: 0 <= k < |rest| ==> moved[k] == rest[k] + 1
    ensures Selects(moved, items, some) && Selects([0] + moved, items, [items[0]] + some)
  {
    var all, found := [0] + moved, [items[0]] + some;
    forall k | 0 <= k < |all| ensures all[k] < |items| && found[k] == items[all[k]] {
      assert k > 0 ==> all[k] == rest[k - 1] + 1 && items[1..][rest[k - 1]] == items[rest[k - 1] + 1];
    }
    assert forall k :: 0 <= k < |moved| ==> items[1..][rest[k]] == items[moved[k]];
  }

  /** The hits are the lines that contain the pattern, in their order and once each. */
  lemma {:induction false} HitsAreInOrder(lines: seq<seq<byte>>, pattern: seq<byte>) returns (at: seq<nat>)
    ensures Selects(at, lines, Hits(lines, pattern))
    ensures forall i :: 0 <= i < |lines| ==> (i in at <==> Contains(lines[i], pattern))
  {
    hide Contains, Selects;
    at := [];
    if lines == [] {
      SelectsNothing(lines);
    } else {
      var rest := HitsAreInOrder(lines[1..], pattern);
      var moved := seq(|rest|, k requires 0 <= k < |rest| => rest[k] + 1);
      SelectsCons(rest, moved, lines, Hits(lines[1..], pattern));
      at := if Contains(lines[0], pattern) then [0] + moved else moved;
      MovedIn(rest, moved, Contains(lines[0], pattern), at);
      assert forall i :: 0 < i < |lines| ==> lines[i] == lines[1..][i - 1];
      assert [] + Hits(lines[1..], pattern) == Hits(lines[1..], pattern);
    }
  }

  lemma SelectsNothing(items: seq<seq<byte>>)
    ensures Selects([], items, [])
  {
  }

  lemma MovedIn(rest: seq<nat>, moved: seq<nat>, hit: bool, at: seq<nat>)
    requires |moved| == |rest| && forall k :: 0 <= k < |rest| ==> moved[k] == rest[k] + 1
    requires at == if hit then [0] + moved else moved
    ensures forall i: nat :: i in at <==> if i == 0 then hit else i - 1 in rest
  {
    forall i: nat | 0 < i && i - 1 in rest ensures i in moved {
      var k :| 0 <= k < |rest| && rest[k] == i - 1;
      assert moved[k] == i;
    }
  }

  /** The first byte of a pattern is a plain char, compared as a signed number with an
      unsigned byte, so that from 0x80 on it equals none. */
  predicate Findable(pattern: seq<byte>) { pattern != [] && pattern[0] < 128 }

  /** What grep prints of some lines. */
  function Printed(lines: seq<seq<byte>>, pattern: seq<byte>): seq<seq<byte>> {
    if Findable(pattern) then Hits(lines, pattern) else []
  }

  /** The pattern that the search amounts to; the empty one stands in no line. */
  function Effective(pattern: seq<byte>): seq<byte> { if Findable(pattern) then pattern else [] }

  lemma {:induction false} PrintedIsHits(lines: seq<seq<byte>>, pattern: seq<byte>)
    ensures Printed(lines, pattern) == Hits(lines, Effective(pattern))
  {
    if !Findable(pattern) && lines != [] {
      PrintedIsHits(lines[1..], pattern);
    }
  }

  // ----- what the window makes of a file

  /** The file from a line start on, where a line of 1024 bytes or more is cut after
      every 1024 bytes. */
  function Pieces(s: seq<byte>): seq<seq<byte>>
    decreases |s|
  {
    var w := Min(BUFSIZE, |s|);
    var p := FirstIndex(s[..w], LINE_FEED);
    if s == [] then [] else if p < w then [s[..p]] + Pieces(s[p + 1..]) else [s[..w]] + Pieces(s[w..])
  }

  /** The same from the start of a window.  While the byte behind the buffer is a
      stale newline, a full window that ends inside a line ends that line. */
  function WindowPieces(s: seq<byte>, stale: bool): seq<seq<byte>>
    decreases |s|
  {
    if stale && |s| >= BUFSIZE then
      Pieces(s[..BUFSIZE]) + WindowPieces(s[BUFSIZE..], s[BUFSIZE - 1] == LINE_FEED)
    else Pieces(s)
  }

  lemma {:induction false} HitsConcat(a: seq<seq<byte>>, b: seq<seq<byte>>, pattern: seq<byte>)
    ensures Hits(a + b, pattern) == Hits(a, pattern) + Hits(b, pattern)
  {
    if a == [] {
      assert a + b == b;
    } else {
      HitsConcat(a[1..], b, pattern);
      assert (a + b)[0] == a[0] && (a + b)[1..] == a[1..] + b;
      Regroup(Hit(a[0], pattern), Hits(a[1..], pattern), Hits(b, pattern));
    }
  }

  // ----- the C library routines it uses

  /** Copies the string at src down to dst; the two may overlap. */
  method StrCpy(data: array<byte>, dst: nat, src: nat, ghost end: nat)
    requires dst <= src <= end < data.Length && data[end] == NUL
    modifies data
    ensures forall k :: 0 <= k < data.Length && (k < dst || k > dst + end - src) ==> data[k] == old(data[k])
    ensures (forall k :: src <= k < end ==> old(data[k]) != NUL) ==>
      forall k :: src <= k <= end ==> data[k - src + dst] == old(data[k])
  {
    var i := 0;
    while data[src + i] != NUL
      invariant src + i <= end
      invariant forall k :: src + i <= k <= end ==> data[k] == old(data[k])
      invariant forall k :: 0 <= k < data.Length && (k < dst || k > dst + end - src) ==> data[k] == old(data[k])
      invariant forall k {:trigger old(data[k])} :: src <= k < src + i ==> data[k - src + dst] == old(data[k])
      decreases end - i
    {
      data[dst + i] := data[src + i];
      i := i + 1;
    }
    data[dst + i] := NUL;
  }

  /** Does the pattern stand at data[at..]?  A NUL behind bounds the comparison. */
  method StrNCmp(data: array<byte>, at: nat, pattern: seq<byte>, ghost end: nat) returns (same: bool)
    requires at <= end < data.Length && data[end] == NUL && NulFree(pattern)
    ensures same <==> MatchAt(data[..end], pattern, at)
  {
    if 0 == |pattern| {
      return true;
    }
    var i := 0;
    while data[at + i] == pattern[i]
      invariant 0 <= i < |pattern| && at + i <= end
      invariant forall k :: 0 <= k < i ==> data[at + k] == pattern[k]
      decreases |pattern| - i
    {
      if i + 1 == |pattern| {
        assert data[..end][at..at + |pattern|] == pattern;
        return true;
      }
      i := i + 1;
    }
    if at + |pattern| <= end {
      assert data[..end][at..at + |pattern|][i] != pattern[i];
    }
    return false;
  }

  method FindLineEnd(data: array<byte>, lineStart: nat, last: nat) returns (lineEnd: nat)
    requires lineStart <= last < data.Length
    ensures lineStart <= lineEnd <= last && lineEnd == lineStart + FirstIndex(data[lineStart..last], LINE_FEED)
    ensures lineEnd < last ==> data[lineEnd] == LINE_FEED
  {
    lineEnd := lineStart;
    ghost var rest := data[lineStart..last];
    while lineEnd < last && data[lineEnd] != LINE_FEED
      invariant lineStart <= lineEnd <= lineStart + FirstIndex(rest, LINE_FEED)
    {
      assert data[lineEnd] == rest[lineEnd - lineStart];
      lineEnd := lineEnd + 1;
    }
    assert lineEnd < last ==> rest[lineEnd - lineStart] == LINE_FEED;
  }

  /** The search of one line, which a NUL ends. */
  method SearchLine(data: array<byte>, lineStart: nat, lineEnd: nat, pattern: seq<byte>) returns (hit: bool)
    requires lineStart <= lineEnd < data.Length && data[lineEnd] == NUL && NulFree(pattern)
    ensures NulFree(data[lineStart..lineEnd]) ==> (hit <==> Contains(data[lineStart..lineEnd], Effective(pattern)))
  {
    ghost var line := data[lineStart..lineEnd];
    hit := false;
    var check := lineStart;
    while check < lineEnd
      invariant lineStart <= check <= lineEnd && !hit
      invariant Findable(pattern) ==> forall at :: 0 <= at < check - lineStart ==> !MatchAt(line, pattern, at)
    {
      var first := if pattern == [] then NUL else pattern[0];
      if Signed(first) == data[check] {
        assert line[check - lineStart] == data[check];
        var same := StrNCmp(data, check, pattern, lineEnd);
        SameMatch(data[..], lineStart, lineEnd, pattern, check);
        if same {
          return true;
        }
      } else {
        FirstByte(line, pattern, check - lineStart);
      }
      check := check + 1;
    }
  }

  lemma SameMatch(data: seq<byte>, lineStart: nat, lineEnd: nat, pattern: seq<byte>, check: nat)
    requires lineStart <= check <= lineEnd <= |data|
    ensures MatchAt(data[..lineEnd], pattern, check) <==> MatchAt(data[lineStart..lineEnd], pattern, check - lineStart)
  {
    if check + |pattern| <= lineEnd {
      assert data[..lineEnd][check..check + |pattern|]
          == data[lineStart..lineEnd][check - lineStart..check - lineStart + |pattern|];
    }
  }

  lemma FirstByte(line: seq<byte>, pattern: seq<byte>, at: int)
    requires 0 <= at < |line|
    ensures pattern != [] && MatchAt(line, pattern, at) ==> line[at] == pattern[0]
  {
    if pattern != [] && MatchAt(line, pattern, at) {
      assert line[at..at + |pattern|][0] == line[at];
    }
  }

  // ----- one window

  /** The pieces still to come when n bytes of the window are left, of the r that are
      left of the file; in a full window before a stale newline the window ends a line. */
  function Todo(r: seq<byte>, n: nat, stale: bool): seq<seq<byte>>
    requires n <= |r|
  {
    if stale then Pieces(r[..n]) + WindowPieces(r[n..], n == 0 || r[n - 1] == LINE_FEED) else Pieces(r)
  }

  lemma PiecesStep(s: seq<byte>, p: nat)
    requires p < |s| && p < BUFSIZE && s[p] == LINE_FEED && forall k :: 0 <= k < p ==> s[k] != LINE_FEED
    ensures Pieces(s) == [s[..p]] + Pieces(s[p + 1..])
  {
    var w := Min(BUFSIZE, |s|);
    assert s[..w][p] == LINE_FEED && forall k :: 0 <= k < p ==> s[..w][k] != LINE_FEED;
    assert FirstIndex(s[..w], LINE_FEED) == p;
  }

  lemma TodoLine(r: seq<byte>, n: nat, stale: bool, p: nat)
    requires n <= |r| && n <= BUFSIZE && p == FirstIndex(r[..n], LINE_FEED) < n
    ensures Todo(r, n, stale) == [r[..p]] + Todo(r[p + 1..], n - p - 1, stale)
  {
    assert r[p] == r[..n][p] == LINE_FEED && forall k :: 0 <= k < p ==> r[k] == r[..n][k] != LINE_FEED;
    if stale {
      PiecesStep(r[..n], p);
      TodoSlices(r, n, p);
      Regroup([r[..p]], Pieces(r[p + 1..][..n - p - 1]), WindowPieces(r[n..], r[n - 1] == LINE_FEED));
    } else {
      PiecesStep(r, p);
    }
  }

  lemma TodoSlices(r: seq<byte>, n: nat, p: nat)
    requires p < n <= |r|
    ensures r[..n][..p] == r[..p] && r[..n][p + 1..] == r[p + 1..][..n - p - 1] && r[p + 1..][n - p - 1..] == r[n..]
  {
  }

  /** The rest of the window is a piece of its own. */
  lemma TodoEnd(r: seq<byte>, n: nat, stale: bool, flag: bool, pattern: seq<byte>)
    requires n <= |r| && n <= BUFSIZE && FirstIndex(r[..n], LINE_FEED) == n
    requires n == |r| || (n > 0 && !flag && (stale || n == BUFSIZE))
    ensures Hits(Todo(r, n, stale), pattern) == Hits([r[..n]], pattern) + Hits(WindowPieces(r[n..], flag), pattern)
  {
    assert !Contains([], pattern);
    if n > 0 {
      assert r[..n][..n] == r[..n] && r[..n][n..] == [];
      assert Pieces(r[..n]) == [r[..n]] + Pieces([]);
      assert [r[..n]] + [] == [r[..n]];
      assert n == |r| ==> r[..n] == r;
      assert r[..n][n - 1] == r[n - 1] != LINE_FEED;
      HitsConcat([r[..n]], WindowPieces(r[n..], flag), pattern);
      if !stale && n < |r| {
        assert Pieces(r) == [r[..n]] + Pieces(r[n..]);
      }
    }
  }

  /** Between windows: nothing of the window is left. */
  lemma TodoNothing(r: seq<byte>, stale: bool, flag: bool)
    requires stale ==> flag
    requires !stale && flag ==> |r| < BUFSIZE
    ensures Todo(r, 0, stale) == WindowPieces(r, flag)
  {
    assert r[..0] == [] && r[0..] == r;
  }

  /** Ends the line with a NUL and searches it. */
  method EndLine(data: array<byte>, lineStart: nat, lineEnd: nat, pattern: seq<byte>) returns (out: seq<seq<byte>>)
    requires lineStart <= lineEnd < data.Length && NulFree(pattern)
    modifies data
    ensures data[..] == old(data[..])[lineEnd := NUL]
    ensures NulFree(old(data[lineStart..lineEnd])) ==> out == Hits([old(data[lineStart..lineEnd])], Effective(pattern))
  {
    ghost var line := data[lineStart..lineEnd];
    data[lineEnd] := NUL;
    assert data[lineStart..lineEnd] == line;
    var hit := SearchLine(data, lineStart, lineEnd, pattern);
    ghost var rest := data[lineStart..];
    assert rest[lineEnd - lineStart] == NUL && rest[..lineEnd - lineStart] == line;
    assert NulFree(line) ==> forall k :: 0 <= k < |line| ==> rest[k] == line[k] != NUL;
    out := if hit then [data[lineStart..][..FirstIndex(data[lineStart..], NUL)]] else [];
  }

  /** Moves the unfinished line to the front of the buffer. */
  method CarryOver(data: array<byte>, lineStart: nat, lineEnd: nat)
    requires 0 < lineStart <= lineEnd < data.Length == BUFSIZE + 1
    modifies data
    ensures NulFree(old(data[lineStart..lineEnd])) ==> data[..lineEnd - lineStart] == old(data[lineStart..lineEnd])
    ensures data[BUFSIZE] == if lineEnd == BUFSIZE then NUL else old(data[BUFSIZE])
  {
    ghost var line := data[lineStart..lineEnd];
    data[lineEnd] := NUL;
    ghost var was := data[..];
    assert forall k :: lineStart <= k < lineEnd ==> was[k] == line[k - lineStart];
    StrCpy(data, 0, lineStart, lineEnd);
    if NulFree(line) {
      forall k | 0 <= k < lineEnd - lineStart ensures data[k] == line[k] {
        assert was[k + lineStart] == line[k];
      }
    }
  }

  /** What has been printed, with what is still to come, is everything. */
  ghost predicate Accounted(out: seq<seq<byte>>, rest: seq<seq<byte>>, all: seq<seq<byte>>, pattern: seq<byte>) {
    out + Hits(rest, pattern) == all
  }

  /** A line that ends inside the window. */
  lemma LineDone(r: seq<byte>, n: nat, stale: bool, p: nat, pattern: seq<byte>,
                 out: seq<seq<byte>>, all: seq<seq<byte>>, line: seq<byte>, rest: seq<byte>)
    requires n <= |r| && n <= BUFSIZE && p == FirstIndex(r[..n], LINE_FEED) < n
    requires line == r[..p] && rest == r[p + 1..]
    requires out + Hits(Todo(r, n, stale), pattern) == all
    ensures (out + Hits([line], pattern)) + Hits(Todo(rest, n - p - 1, stale), pattern) == all
  {
    TodoLine(r, n, stale, p);
    HitsConcat([line], Todo(rest, n - p - 1, stale), pattern);
    Regroup(out, Hits([line], pattern), Hits(Todo(rest, n - p - 1, stale), pattern));
  }

  /** The last line of the window, when it is not carried over. */
  lemma EndDone(r: seq<byte>, n: nat, stale: bool, flag: bool, pattern: seq<byte>,
                out: seq<seq<byte>>, all: seq<seq<byte>>)
    requires n <= |r| && n <= BUFSIZE && FirstIndex(r[..n], LINE_FEED) == n
    requires n == |r| || (n > 0 && !flag && (stale || n == BUFSIZE))
    requires Accounted(out, Todo(r, n, stale), all, pattern)
    ensures Accounted(out + Hits([r[..n]], pattern), WindowPieces(r[n..], flag), all, pattern)
  {
    TodoEnd(r, n, stale, flag, pattern);
    Regroup(out, Hits([r[..n]], pattern), Hits(WindowPieces(r[n..], flag), pattern));
  }

  /** The first `full` bytes are the front of what is left of a NUL-free file; at the
      end of the file that is one unfinished line, or nothing. */
  ghost predicate IsWindow(data: seq<byte>, full: nat, atEnd: bool, rem: seq<byte>)
    requires full <= |data|
  {
    && NulFree(rem) && full == Min(BUFSIZE, |rem|) && data[..full] == rem[..full]
    && (atEnd ==> FirstIndex(rem, LINE_FEED) == |rem| < BUFSIZE)
  }

  /** The state of the line loop: the window from lineStart on is untouched, and what
      is printed is accounted for. */
  ghost predicate LineLoop(data: seq<byte>, rem: seq<byte>, lineStart: nat, full: nat, stale: bool,
                           out: seq<seq<byte>>, all: seq<seq<byte>>, pattern: seq<byte>)
    requires lineStart <= full <= BUFSIZE && |data| == BUFSIZE + 1
  {
    && full == Min(BUFSIZE, |rem|) && data[lineStart..full] == rem[lineStart..full]
    && Accounted(out, Todo(rem[lineStart..], full - lineStart, stale), all, pattern)
  }

  /** The outcome of a window: the carried bytes and the rest of the file are what is
      still to be searched. */
  ghost predicate WindowDone(data: seq<byte>, rem: seq<byte>, last: nat, full: nat,
                             out: seq<seq<byte>>, all: seq<seq<byte>>, pattern: seq<byte>)
    requires last <= BUFSIZE && |data| == BUFSIZE + 1 && full <= |rem|
  {
    && NulFree(data[..last]) && FirstIndex(data[..last], LINE_FEED) == last
    && Accounted(out, WindowPieces(data[..last] + rem[full..], data[BUFSIZE] == LINE_FEED), all, pattern)
  }

  /** The unfinished line is carried over. */
  lemma Carried(data: seq<byte>, data': seq<byte>, rem: seq<byte>, lineStart: nat, full: nat,
                out: seq<seq<byte>>, all: seq<seq<byte>>, pattern: seq<byte>)
    requires lineStart <= full <= BUFSIZE && |data| == |data'| == BUFSIZE + 1 && 0 < lineStart
    requires LineLoop(data, rem, lineStart, full, false, out, all, pattern)
    requires data'[..full - lineStart] == data[lineStart..full] && NulFree(rem)
    requires FirstIndex(data[lineStart..full], LINE_FEED) == full - lineStart
    requires full == BUFSIZE ==> data'[BUFSIZE] != LINE_FEED
    ensures WindowDone(data', rem, full - lineStart, full, out, all, pattern)
  {
    assert data'[..full - lineStart] + rem[full..] == rem[lineStart..];
  }

  /** A line that ends inside the window has been searched. */
  lemma SearchedInside(data: seq<byte>, data': seq<byte>, rem: seq<byte>, lineStart: nat, lineEnd: nat, full: nat,
                       stale: bool, out: seq<seq<byte>>, all: seq<seq<byte>>, pattern: seq<byte>)
    requires lineStart <= lineEnd < full <= BUFSIZE && |data| == BUFSIZE + 1 && data' == data[lineEnd := NUL]
    requires LineLoop(data, rem, lineStart, full, stale, out, all, pattern)
    requires lineEnd == lineStart + FirstIndex(data[lineStart..full], LINE_FEED)
    ensures LineLoop(data', rem, lineEnd + 1, full, stale, out + Hits([rem[lineStart..lineEnd]], pattern), all, pattern)
  {
    InsideDone(rem, lineStart, lineEnd, full, stale, out, all, pattern);
    SuffixKept(data, data', rem, lineStart, lineEnd, full);
  }

  lemma InsideDone(rem: seq<byte>, lineStart: nat, lineEnd: nat, full: nat,
                   stale: bool, out: seq<seq<byte>>, all: seq<seq<byte>>, pattern: seq<byte>)
    requires lineStart <= lineEnd < full <= BUFSIZE && full <= |rem|
    requires lineEnd == lineStart + FirstIndex(rem[lineStart..full], LINE_FEED)
    requires Accounted(out, Todo(rem[lineStart..], full - lineStart, stale), all, pattern)
    ensures Accounted(out + Hits([rem[lineStart..lineEnd]], pattern),
                      Todo(rem[lineEnd + 1..], full - (lineEnd + 1), stale), all, pattern)
  {
    hide Todo, Hits, FirstIndex;
    InsideSlices(rem, lineStart, lineEnd, full);
    LineDone(rem[lineStart..], full - lineStart, stale, lineEnd - lineStart, pattern, out, all,
             rem[lineStart..lineEnd], rem[lineEnd + 1..]);
  }

  lemma InsideSlices(rem: seq<byte>, lineStart: nat, lineEnd: nat, full: nat)
    requires lineStart <= lineEnd < full <= |rem|
    ensures rem[lineStart..][..full - lineStart] == rem[lineStart..full]
    ensures rem[lineStart..][..lineEnd - lineStart] == rem[lineStart..lineEnd]
    ensures rem[lineStart..][lineEnd - lineStart + 1..] == rem[lineEnd + 1..]
  {
  }

  lemma SuffixKept(data: seq<byte>, data': seq<byte>, rem: seq<byte>, lineStart: nat, lineEnd: nat, full: nat)
    requires lineStart <= lineEnd < full <= |data| && full <= |rem| && data' == data[lineEnd := NUL]
    requires data[lineStart..full] == rem[lineStart..full]
    ensures data'[lineEnd + 1..full] == rem[lineEnd + 1..full]
  {
    assert forall k :: lineStart <= k < full ==> data[k] == data[lineStart..full][k - lineStart];
    assert forall k :: lineStart <= k < full ==> rem[k] == rem[lineStart..full][k - lineStart];
  }

  /** No bytes of the window are left. */
  lemma WindowUsedUp(data: seq<byte>, rem: seq<byte>, full: nat, stale: bool,
                     out: seq<seq<byte>>, all: seq<seq<byte>>, pattern: seq<byte>)
    requires full <= BUFSIZE && |data| == BUFSIZE + 1 && LineLoop(data, rem, full, full, stale, out, all, pattern)
    requires stale <==> data[BUFSIZE] == LINE_FEED && full == BUFSIZE
    ensures WindowDone(data, rem, 0, full, out, all, pattern)
  {
    TodoNothing(rem[full..], stale, data[BUFSIZE] == LINE_FEED);
    assert data[..0] + rem[full..] == rem[full..];
  }

  /** The last line of the window has been searched. */
  lemma SearchedLast(data: seq<byte>, data': seq<byte>, rem: seq<byte>, lineStart: nat, full: nat,
                     stale: bool, out: seq<seq<byte>>, all: seq<seq<byte>>, pattern: seq<byte>)
    requires lineStart <= full <= BUFSIZE && |data| == BUFSIZE + 1 && data' == data[full := NUL]
    requires LineLoop(data, rem, lineStart, full, stale, out, all, pattern)
    requires FirstIndex(data[lineStart..full], LINE_FEED) == full - lineStart
    requires full == |rem| || (lineStart < full && (stale || lineStart == 0))
    ensures WindowDone(data', rem, 0, full, out + Hits([rem[lineStart..full]], pattern), all, pattern)
  {
    LastDone(rem, lineStart, full, stale, data'[BUFSIZE] == LINE_FEED, out, all, pattern);
    assert data'[..0] + rem[full..] == rem[full..];
  }

  lemma LastDone(rem: seq<byte>, lineStart: nat, full: nat, stale: bool, flag: bool,
                 out: seq<seq<byte>>, all: seq<seq<byte>>, pattern: seq<byte>)
    requires lineStart <= full <= BUFSIZE && full == Min(BUFSIZE, |rem|)
    requires FirstIndex(rem[lineStart..full], LINE_FEED) == full - lineStart
    requires full == |rem| || (lineStart < full && !flag && (stale || lineStart == 0))
    requires Accounted(out, Todo(rem[lineStart..], full - lineStart, stale), all, pattern)
    ensures Accounted(out + Hits([rem[lineStart..full]], pattern), WindowPieces(rem[full..], flag), all, pattern)
  {
    var r, n := rem[lineStart..], full - lineStart;
    assert r[..n] == rem[lineStart..full] && r[n..] == rem[full..];
    EndDone(r, n, stale, flag, pattern, out, all);
  }

  lemma SubSlice(a: seq<byte>, b: seq<byte>, i: nat, j: nat, k: nat)
    requires i <= j <= k <= |a| && k <= |b| && a[i..k] == b[i..k]
    ensures a[i..j] == b[i..j]
  {
    assert a[i..j] == a[i..k][..j - i];
  }

  lemma FirstLine(data: seq<byte>, full: nat, atEnd: bool, rem: seq<byte>, pattern: seq<byte>)
    requires full <= BUFSIZE && |data| == BUFSIZE + 1 && IsWindow(data, full, atEnd, rem)
    ensures LineLoop(data, rem, 0, full, data[BUFSIZE] == LINE_FEED && full == BUFSIZE, [],
                     Hits(WindowPieces(rem, data[BUFSIZE] == LINE_FEED), pattern), pattern)
  {
    assert rem[0..] == rem;
  }

  /** A line has been searched and cut off at lineEnd: what that leaves, by value. */
  lemma Searched(data: seq<byte>, data': seq<byte>, rem: seq<byte>, lineStart: nat, lineEnd: nat, full: nat,
                 stale: bool, out: seq<seq<byte>>, all: seq<seq<byte>>, pattern: seq<byte>)
    requires lineStart <= lineEnd <= full <= BUFSIZE && |data| == BUFSIZE + 1 && data' == data[lineEnd := NUL]
    requires lineEnd == lineStart + FirstIndex(data[lineStart..full], LINE_FEED)
    requires stale <==> data[BUFSIZE] == LINE_FEED && full == BUFSIZE
    requires LineLoop(data, rem, lineStart, full, stale, out, all, pattern)
    requires lineEnd == full ==> full == |rem| || (lineStart < full && (stale || lineStart == 0))
    ensures LineSearched(data', rem, lineEnd, full, stale, out + Hits([rem[lineStart..lineEnd]], pattern), all, pattern)
  {
    if lineEnd < full {
      SearchedInside(data, data', rem, lineStart, lineEnd, full, stale, out, all, pattern);
      if lineEnd + 1 == full {
        WindowUsedUp(data', rem, full, stale, out + Hits([rem[lineStart..lineEnd]], pattern), all, pattern);
      }
    } else {
      SearchedLast(data, data', rem, lineStart, full, stale, out, all, pattern);
    }
  }

  /** What a searched line leaves: the next line of the window, or the next window. */
  ghost predicate LineSearched(data: seq<byte>, rem: seq<byte>, lineEnd: nat, full: nat, stale: bool,
                               out: seq<seq<byte>>, all: seq<seq<byte>>, pattern: seq<byte>)
    requires full <= BUFSIZE && |data| == BUFSIZE + 1
  {
    if lineEnd + 1 < full then LineLoop(data, rem, lineEnd + 1, full, stale, out, all, pattern)
    else full <= |rem| && WindowDone(data, rem, 0, full, out, all, pattern)
  }

  lemma LineText(data: seq<byte>, rem: seq<byte>, lineStart: nat, lineEnd: nat, full: nat,
                 stale: bool, out: seq<seq<byte>>, all: seq<seq<byte>>, pattern: seq<byte>)
    requires lineStart <= lineEnd <= full <= BUFSIZE && |data| == BUFSIZE + 1 && NulFree(rem)
    requires LineLoop(data, rem, lineStart, full, stale, out, all, pattern)
    ensures lineEnd <= |rem| && data[lineStart..lineEnd] == rem[lineStart..lineEnd]
    ensures NulFree(data[lineStart..lineEnd])
  {
    SubSlice(data, rem, lineStart, lineEnd, full);
    assert forall k :: 0 <= k < lineEnd - lineStart ==> rem[lineStart..lineEnd][k] == rem[lineStart + k];
  }

  /** Searches one line of the window. */
  method SearchStep(data: array<byte>, lineStart: nat, lineEnd: nat, full: nat, pattern: seq<byte>,
                    ghost good: bool, ghost stale: bool, ghost rem: seq<byte>,
                    ghost before: seq<seq<byte>>, ghost all: seq<seq<byte>>)
    returns (piece: seq<seq<byte>>)
    requires lineStart <= lineEnd <= full <= BUFSIZE && data.Length == BUFSIZE + 1 && NulFree(pattern)
    requires lineEnd == lineStart + FirstIndex(data[lineStart..full], LINE_FEED)
    requires stale <==> data[BUFSIZE] == LINE_FEED && full == BUFSIZE
    requires good ==> NulFree(rem) && LineLoop(data[..], rem, lineStart, full, stale, before, all, Effective(pattern))
    requires good && lineEnd == full ==> full == |rem| || (lineStart < full && (stale || lineStart == 0))
    modifies data
    ensures lineEnd < full ==> data[BUFSIZE] == old(data[BUFSIZE])
    ensures good ==> LineSearched(data[..], rem, lineEnd, full, stale, before + piece, all, Effective(pattern))
  {
    ghost var was := data[..];
    assert was[lineStart..full] == data[lineStart..full] && was[lineStart..lineEnd] == data[lineStart..lineEnd];
    piece := EndLine(data, lineStart, lineEnd, pattern);
    if good {
      LineText(was, rem, lineStart, lineEnd, full, stale, before, all, Effective(pattern));
      Searched(was, data[..], rem, lineStart, lineEnd, full, stale, before, all, Effective(pattern));
    }
  }

  /** Carries the unfinished line over. */
  method CarryStep(data: array<byte>, lineStart: nat, full: nat, pattern: seq<byte>,
                   ghost good: bool, ghost rem: seq<byte>, ghost out: seq<seq<byte>>, ghost all: seq<seq<byte>>)
    requires 0 < lineStart <= full <= BUFSIZE && data.Length == BUFSIZE + 1
    requires good ==> NulFree(rem) && LineLoop(data[..], rem, lineStart, full, false, out, all, Effective(pattern))
    requires FirstIndex(data[lineStart..full], LINE_FEED) == full - lineStart
    modifies data
    ensures good ==> WindowDone(data[..], rem, full - lineStart, full, out, all, Effective(pattern))
  {
    ghost var was := data[..];
    assert was[lineStart..full] == data[lineStart..full];
    CarryOver(data, lineStart, full);
    if good {
      assert was[lineStart..full] == rem[lineStart..full];
      assert data[..][..full - lineStart] == data[..full - lineStart];
      Carried(was, data[..], rem, lineStart, full, out, all, Effective(pattern));
    }
  }

  /** One round of the line loop; `stop` is its break. */
  method LineRound(data: array<byte>, lineStart: nat, full: nat, atEnd: bool, pattern: seq<byte>,
                   ghost good: bool, ghost stale: bool, ghost rem: seq<byte>,
                   ghost before: seq<seq<byte>>, ghost all: seq<seq<byte>>)
    returns (piece: seq<seq<byte>>, next: nat, last: nat, stop: bool)
    requires lineStart <= full <= BUFSIZE && (lineStart < full || lineStart == 0)
    requires data.Length == BUFSIZE + 1 && NulFree(pattern)
    requires stale <==> data[BUFSIZE] == LINE_FEED && full == BUFSIZE
    requires good ==> NulFree(rem) && LineLoop(data[..], rem, lineStart, full, stale, before, all, Effective(pattern))
    requires good ==> (atEnd ==> full == |rem|)
    modifies data
    ensures last < BUFSIZE && (atEnd ==> last == 0)
    ensures !stop ==> lineStart < next < full && data[BUFSIZE] == old(data[BUFSIZE])
    ensures good && !stop ==> LineLoop(data[..], rem, next, full, stale, before + piece, all, Effective(pattern))
    ensures good && stop ==> WindowDone(data[..], rem, last, full, before + piece, all, Effective(pattern))
  {
    hide WindowDone, Effective;
    var lineEnd := FindLineEnd(data, lineStart, full);
    if data[lineEnd] != LINE_FEED && !atEnd && lineStart != 0 {
      assert lineEnd == full && !stale;
      CarryStep(data, lineStart, full, pattern, good, rem, before, all);
      assert before + [] == before;
      return [], lineStart, full - lineStart, true;
    }
    piece := SearchStep(data, lineStart, lineEnd, full, pattern, good, stale, rem, before, all);
    return piece, lineEnd + 1, 0, lineEnd + 1 >= full;
  }

  /** One round of the outer loop after its read: the lines of the window, up to the
      unfinished one, which is moved to the front unless nothing follows. */
  method ScanWindow(data: array<byte>, full: nat, atEnd: bool, pattern: seq<byte>, ghost rem: seq<byte>)
    returns (out: seq<seq<byte>>, last: nat)
    requires data.Length == BUFSIZE + 1 && full <= BUFSIZE && NulFree(pattern)
    modifies data
    ensures last < BUFSIZE && (atEnd ==> last == 0)
    ensures IsWindow(old(data[..]), full, atEnd, rem) ==>
      WindowDone(data[..], rem, last, full, out,
                 Hits(WindowPieces(rem, old(data[BUFSIZE]) == LINE_FEED), Effective(pattern)), Effective(pattern))
  {
    ghost var good := IsWindow(data[..], full, atEnd, rem);
    ghost var stale := data[BUFSIZE] == LINE_FEED && full == BUFSIZE;
    ghost var all := Hits(WindowPieces(rem, data[BUFSIZE] == LINE_FEED), Effective(pattern));
    if good {
      FirstLine(data[..], full, atEnd, rem, Effective(pattern));
    }
    out := [];
    var lineStart := 0;
    while true
      invariant 0 <= lineStart <= full && (lineStart < full || lineStart == 0)
      invariant data[BUFSIZE] == old(data[BUFSIZE])
      invariant good ==> LineLoop(data[..], rem, lineStart, full, stale, out, all, Effective(pattern))
      decreases full - lineStart
    {
      var piece, next, stop;
      piece, next, last, stop := LineRound(data, lineStart, full, atEnd, pattern, good, stale, rem, out, all);
      out := out + piece;
      if stop {
        break;
      }
      lineStart := next;
    }
  }

  /** After the read the buffer holds the front of what is left. */
  lemma Refilled(carry: seq<byte>, left: seq<byte>, data: seq<byte>, cnt: nat, window: seq<byte>)
    requires |carry| < BUFSIZE && |data| == BUFSIZE + 1 && cnt == Min(BUFSIZE - |carry|, |left|)
    requires data[..|carry| + cnt] == window == carry + left[..cnt]
    requires NulFree(carry) && NulFree(left) && FirstIndex(carry, LINE_FEED) == |carry|
    ensures IsWindow(data, |carry| + cnt, cnt == 0, carry + left)
  {
    if cnt == 0 {
      assert carry + left == carry;
    }
  }

  /** Two windows' outputs add up. */
  lemma Resumed(data: seq<byte>, stale: bool, rem: seq<byte>, last: nat, full: nat, left: seq<byte>, cnt: nat,
                left': seq<byte>, out: seq<seq<byte>>, piece: seq<seq<byte>>, all: seq<seq<byte>>, pattern: seq<byte>)
    requires |data| == BUFSIZE + 1 && last <= BUFSIZE && full <= |rem| && cnt <= |left|
    requires rem[full..] == left' == left[cnt..]
    requires WindowDone(data, rem, last, full, piece, Hits(WindowPieces(rem, stale), pattern), pattern)
    requires out + Hits(WindowPieces(rem, stale), pattern) == all
    ensures WindowDone(data, left', last, 0, out + piece, all, pattern)
  {
    assert left'[0..] == left';
    Regroup(out, piece, Hits(WindowPieces(data[..last] + left', data[BUFSIZE] == LINE_FEED), pattern));
  }

  /** One round of the outer loop: a read and the window it fills. */
  method NextWindow(f: Stream, data: array<byte>, carried: nat, pattern: seq<byte>,
                    ghost good: bool, ghost out: seq<seq<byte>>, ghost all: seq<seq<byte>>)
    returns (piece: seq<seq<byte>>, last: nat, atEnd: bool)
    requires data.Length == BUFSIZE + 1 && f.Valid() && carried < BUFSIZE && NulFree(pattern)
    requires good ==> NulFree(f.content)
    requires good ==> WindowDone(data[..], f.content[f.pos..], carried, 0, out, all, Effective(pattern))
    modifies f, data
    ensures f.Valid() && last < BUFSIZE && atEnd == (old(f.pos) == |f.content|)
    ensures if atEnd then last == 0 && f.pos == old(f.pos) else f.pos > old(f.pos)
    ensures good ==> WindowDone(data[..], f.content[f.pos..], last, 0, out + piece, all, Effective(pattern))
  {
    hide Todo, Hits, FirstIndex, Effective;
    ghost var left, carry := f.content[f.pos..], data[..carried];
    var cnt := f.Read(data, carried, BUFSIZE - carried);
    ghost var rem, stale := carry + left, data[BUFSIZE] == LINE_FEED;
    assert data[..carried] == carry && data[carried..carried + cnt] == left[..cnt];
    assert data[..carried + cnt] == data[..carried] + data[carried..carried + cnt];
    if good {
      assert left[0..] == left;
      Refilled(carry, left, data[..], cnt, data[..carried + cnt]);
    }
    atEnd := cnt == 0;
    piece, last := ScanWindow(data, carried + cnt, atEnd, pattern, rem);
    if good {
      assert rem[carried + cnt..] == left[cnt..] == f.content[f.pos..];
      Resumed(data[..], stale, rem, last, carried + cnt, left, cnt, f.content[f.pos..], out, piece, all,
              Effective(pattern));
    }
  }

  /** The search of one file: what is printed are the pieces that contain the pattern,
      in order, once each, and none at all for a pattern that starts with a byte from
      0x80 on. */
  method DoOneFile(pattern: seq<byte>, f: Stream, data: array<byte>) returns (out: seq<seq<byte>>)
    requires data.Length == BUFSIZE + 1 && f.Valid() && f.pos == 0 && NulFree(pattern)
    modifies f, data
    ensures NulFree(f.content) ==>
      out == Printed(WindowPieces(f.content, old(data[BUFSIZE]) == LINE_FEED), pattern)
  {
    ghost var good, pieces := NulFree(f.content), WindowPieces(f.content, data[BUFSIZE] == LINE_FEED);
    ghost var all := Hits(pieces, Effective(pattern));
    PrintedIsHits(pieces, pattern);
    out := [];
    var last := 0;
    assert data[..0] + f.content[0..] == f.content;
    while true
      invariant f.Valid() && 0 <= last < BUFSIZE
      invariant good ==> WindowDone(data[..], f.content[f.pos..], last, 0, out, all, Effective(pattern))
      decreases |f.content| - f.pos
    {
      var piece, atEnd;
      piece, last, atEnd := NextWindow(f, data, last, pattern, good, out, all);
      out := out + piece;
      if atEnd {
        break;
      }
    }
    assert data[..][..0] + f.content[f.pos..][0..] == [];
  }
}
