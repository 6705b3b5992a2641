/** Command lines in the emulated system calls: execute cuts the command into argument
    strings in place, getargs joins the arguments again. */
module Args {
  import opened Bytes

  const MAX_COMMAND := 1023
  const BUFFER := 1026
  const PREFIX: seq<byte> := [46, 47]

  // ----- what is meant: words

  predicate IsStop(c: byte) { c == SPACE || c == LINE_FEED }

  /** Where the word at the front of s stops. */
  function Stop(s: seq<byte>): (p: nat)
    ensures p <= |s| && (forall k :: 0 <= k < p ==> !IsStop(s[k])) && (p < |s| ==> IsStop(s[p]))
  {
    if s == [] || IsStop(s[0]) then 0
    else
      var rest := Stop(s[1..]);
      assert forall k :: 1 <= k < rest + 1 ==> s[k] == s[1..][k - 1];
      1 + rest
  }

  /** The number of spaces at the front of s. */
  function Blanks(s: seq<byte>): (p: nat)
    ensures p <= |s| && (forall k :: 0 <= k < p ==> s[k] == SPACE) && (p < |s| ==> s[p] != SPACE)
  {
    if s == [] || s[0] != SPACE then 0
    else
      var rest := Blanks(s[1..]);
      assert forall k :: 1 <= k < rest + 1 ==> s[k] == s[1..][k - 1];
      1 + rest
  }

  /** The words of s.  A newline right behind a word only separates; any other newline
      ends the command. */
  function Words(s: seq<byte>): seq<seq<byte>>
    decreases |s|, 1
  {
    FromWord(s[Blanks(s)..])
  }

  function FromWord(t: seq<byte>): seq<seq<byte>>
    decreases |t|, 0
  {
    if t == [] || t[0] == LINE_FEED then [] else [t[..Stop(t)]] + BehindWord(t)
  }

  function BehindWord(t: seq<byte>): seq<seq<byte>>
    requires t != [] && t[0] != LINE_FEED
    decreases |t|, 0, 0
  {
    if Stop(t) == |t| then [] else Words(t[Stop(t) + 1..])
  }

  /** The arguments of a command: the name of the program, under the current directory,
      and the words behind it. */
  function ArgsOf(command: seq<byte>): seq<seq<byte>> {
    var p := Stop(command);
    [PREFIX + command[..p]] + if p == |command| then [] else Words(command[p + 1..])
  }

  /** An argument as a word: not empty, and nothing in it that separates. */
  predicate IsWord(w: seq<byte>) { w != [] && Stop(w) == |w| }

  function Join(args: seq<seq<byte>>): seq<byte> {
    if args == [] then [] else if |args| == 1 then args[0] else args[0] + ([SPACE] + Join(args[1..]))
  }

  /** Arguments are joined by one space. */
  lemma {:induction false} JoinOfBoth(a: seq<seq<byte>>, b: seq<seq<byte>>)
    requires a != [] && b != []
    ensures Join(a + b) == Join(a) + ([' ' as int] + Join(b)) && Join([a[0]]) == a[0]
  {
    var all := a + b;
    if |a| == 1 {
      assert all[1..] == b;
    } else {
      JoinOfBoth(a[1..], b);
      assert all[1..] == a[1..] + b;
      assert Join(a) == a[0] + ([SPACE] + Join(a[1..]));
      assert Join(all) == a[0] + ([SPACE] + (Join(a[1..]) + ([SPACE] + Join(b))));
    }
  }

  lemma StopOf(w: seq<byte>, t: seq<byte>)
    requires IsWord(w) && |w| <= |t| && t[..|w|] == w && (|t| > |w| ==> IsStop(t[|w|]))
    ensures Stop(t) == |w| && Blanks(t) == 0 && t[0] != LINE_FEED
  {
    assert forall k :: 0 <= k < |w| ==> t[k] == w[k] && !IsStop(w[k]);
  }

  lemma WordAlone(w: seq<byte>)
    requires IsWord(w)
    ensures Words(w) == [w]
  {
    StopOf(w, w);
    assert w[0..] == w && w[..|w|] == w;
    assert FromWord(w) == [w] + BehindWord(w);
  }

  lemma WordFirst(w: seq<byte>, rest: seq<byte>)
    requires IsWord(w)
    ensures Words(w + ([SPACE] + rest)) == [w] + Words(rest)
  {
    var t := w + ([SPACE] + rest);
    StopOf(w, t);
    assert t[0..] == t && t[..|w|] == w && t[|w| + 1..] == rest;
    assert FromWord(t) == [w] + BehindWord(t);
  }

  /** Splitting what was joined gives the arguments back. */
  lemma {:induction false} SplitOfJoin(args: seq<seq<byte>>)
    requires forall k :: 0 <= k < |args| ==> IsWord(args[k])
    ensures Words(Join(args)) == args
  {
    if |args| == 1 {
      WordAlone(args[0]);
      assert args == [args[0]];
    } else if |args| > 1 {
      SplitOfJoin(args[1..]);
      WordFirst(args[0], Join(args[1..]));
      assert args == [args[0]] + args[1..];
    }
  }

  lemma {:induction false} WordsAreWords(s: seq<byte>)
    ensures forall k :: 0 <= k < |Words(s)| ==> IsWord(Words(s)[k])
    decreases |s|
  {
    var t := s[Blanks(s)..];
    if t != [] && t[0] != LINE_FEED {
      var p := Stop(t);
      PrefixIsWord(t, p);
      var more := BehindWord(t);
      if p < |t| {
        WordsAreWords(t[p + 1..]);
        assert more == Words(t[p + 1..]);
      }
      var words := Words(s);
      assert words == FromWord(t) == [t[..p]] + more;
      forall k | 0 <= k < |words| ensures IsWord(words[k]) {
        assert words[k] == if k == 0 then t[..p] else more[k - 1];
      }
    }
  }

  lemma PrefixIsWord(t: seq<byte>, p: nat)
    requires t != [] && t[0] != SPACE && t[0] != LINE_FEED && p == Stop(t)
    ensures IsWord(t[..p])
  {
    var w := t[..p];
    assert p > 0;
    assert forall k :: 0 <= k < p ==> w[k] == t[k] && !IsStop(w[k]);
  }

  /** Whatever the command, the words that execute passes survive getargs and another
      split. */
  lemma WordsSurvive(s: seq<byte>)
    ensures Words(Join(Words(s))) == Words(s)
  {
    WordsAreWords(s);
    SplitOfJoin(Words(s));
  }

  // ----- the words are the maximal runs

  ghost predicate Spaces(g: seq<byte>) { forall k :: 0 <= k < |g| ==> g[k] == SPACE }

  /** Gap, word, gap, word, and so on to the last gap. */
  function Interleave(gaps: seq<seq<byte>>, words: seq<seq<byte>>): seq<byte>
    requires |gaps| == |words| + 1
  {
    if words == [] then gaps[0] else gaps[0] + (words[0] + Interleave(gaps[1..], words[1..]))
  }

  /** s is these words with gaps of spaces around them: the words are its maximal runs. */
  ghost predicate Runs(s: seq<byte>, words: seq<seq<byte>>, gaps: seq<seq<byte>>) {
    |gaps| == |words| + 1 && s == Interleave(gaps, words) &&
    (forall i :: 0 <= i < |words| ==> IsWord(words[i])) &&
    (forall i :: 0 <= i < |gaps| ==> Spaces(gaps[i])) &&
    (forall i :: 0 < i < |words| ==> gaps[i] != [])
  }

  lemma FrontWord(s: seq<byte>) returns (gap: seq<byte>, w: seq<byte>, r: seq<byte>, more: bool)
    requires LINE_FEED !in s && Blanks(s) < |s|
    ensures Spaces(gap) && IsWord(w) && |r| < |s| && LINE_FEED !in r
    ensures if more then s == gap + (w + ([SPACE] + r)) && Words(s) == [w] + Words(r)
            else s == gap + w && Words(s) == [w]
  {
    var b := Blanks(s);
    var t := s[b..];
    assert s == s[..b] + t;
    assert forall c :: c in t ==> c in s;
    gap := s[..b];
    w, r, more := CutWord(t);
    assert Words(s) == FromWord(t);
  }

  lemma CutWord(t: seq<byte>) returns (w: seq<byte>, r: seq<byte>, more: bool)
    requires LINE_FEED !in t && t != [] && t[0] != SPACE
    ensures IsWord(w) && |r| < |t| && LINE_FEED !in r
    ensures if more then t == w + ([SPACE] + r) && FromWord(t) == [w] + Words(r)
            else t == w && FromWord(t) == [w]
  {
    var p := Stop(t);
    assert t[0] in t;
    PrefixIsWord(t, p);
    w, more, r := t[..p], p < |t|, [];
    if more {
      assert t[p] in t;
      r := t[p + 1..];
      assert t == w + ([SPACE] + r);
    }
  }

  lemma LeadingSpace(gaps: seq<seq<byte>>, words: seq<seq<byte>>)
    requires |gaps| == |words| + 1
    ensures Interleave([[SPACE] + gaps[0]] + gaps[1..], words) == [SPACE] + Interleave(gaps, words)
  {
    var g := [[SPACE] + gaps[0]] + gaps[1..];
    assert g[1..] == gaps[1..];
  }

  /** Without a newline the words of s are the maximal runs of other bytes. */
  lemma {:induction false} WordsAreRuns(s: seq<byte>) returns (gaps: seq<seq<byte>>)
    requires LINE_FEED !in s
    ensures Runs(s, Words(s), gaps)
    decreases |s|
  {
    if Blanks(s) == |s| {
      gaps := [s];
    } else {
      var gap, w, r, more := FrontWord(s);
      if more {
        var g := WordsAreRuns(r);
        gaps := [gap] + ([[SPACE] + g[0]] + g[1..]);
        RunsCons(s, gap, w, r, Words(r), g, gaps);
      } else {
        gaps := [gap, []];
        LastRun(s, gap, w);
      }
    }
  }

  lemma LastRun(s: seq<byte>, gap: seq<byte>, w: seq<byte>)
    requires s == gap + w && Spaces(gap) && IsWord(w)
    ensures Runs(s, [w], [gap, []])
  {
    var none: seq<seq<byte>> := [];
    assert [gap, []][1..] == [[]] && [w][1..] == none;
    assert Interleave([[]], none) == [];
  }

  lemma RunsCons(s: seq<byte>, gap: seq<byte>, w: seq<byte>, r: seq<byte>, words: seq<seq<byte>>,
                 g: seq<seq<byte>>, gaps: seq<seq<byte>>)
    requires s == gap + (w + ([SPACE] + r)) && Spaces(gap) && IsWord(w) && Runs(r, words, g)
    requires gaps == [gap] + ([[SPACE] + g[0]] + g[1..])
    ensures Runs(s, [w] + words, gaps)
  {
    LeadingSpace(g, words);
    assert gaps[1..] == [[SPACE] + g[0]] + g[1..] && ([w] + words)[1..] == words;
    assert forall i :: 1 < i < |gaps| ==> gaps[i] == g[i - 1];
  }

  lemma {:induction false} WordsBehindSpaces(g: seq<byte>, t: seq<byte>)
    requires Spaces(g)
    ensures Words(g + t) == Words(t)
  {
    if g == [] {
      assert g + t == t;
    } else {
      var u := g[1..] + t;
      assert g + t == [SPACE] + u;
      WordsBehindSpace(u);
      WordsBehindSpaces(g[1..], t);
    }
  }

  lemma WordsBehindSpace(t: seq<byte>)
    ensures Words([SPACE] + t) == Words(t)
  {
    var s := [SPACE] + t;
    assert s[1..] == t;
    assert s[Blanks(s)..] == t[Blanks(t)..];
  }

  lemma WordsBehindWord(w: seq<byte>, rest: seq<byte>)
    requires IsWord(w) && (rest != [] ==> rest[0] == SPACE)
    ensures Words(w + rest) == [w] + Words(rest)
  {
    if rest == [] {
      WordAlone(w);
      assert w + rest == w;
    } else {
      var r := rest[1..];
      assert rest == [SPACE] + r;
      WordsBehindSpace(r);
      WordFirst(w, r);
    }
  }

  lemma RunsTail(s: seq<byte>, words: seq<seq<byte>>, gaps: seq<seq<byte>>) returns (rest: seq<byte>)
    requires Runs(s, words, gaps) && words != []
    ensures Runs(rest, words[1..], gaps[1..]) && s == gaps[0] + (words[0] + rest)
    ensures rest != [] ==> rest[0] == SPACE
  {
    rest := Interleave(gaps[1..], words[1..]);
    assert gaps[1..][0] == gaps[1];
  }

  /** And no other words have that property. */
  lemma {:induction false} RunsAreWords(s: seq<byte>, words: seq<seq<byte>>, gaps: seq<seq<byte>>)
    requires Runs(s, words, gaps)
    ensures Words(s) == words
    decreases |words|
  {
    if words == [] {
      WordsBehindSpaces(s, []);
      assert s + [] == s;
    } else {
      var rest := RunsTail(s, words, gaps);
      RunsAreWords(rest, words[1..], gaps[1..]);
      WordsBehindSpaces(gaps[0], words[0] + rest);
      WordsBehindWord(words[0], rest);
      assert words == [words[0]] + words[1..];
    }
  }

  lemma LineFirst(w: seq<byte>, rest: seq<byte>)
    requires IsWord(w)
    ensures Words(w + ([LINE_FEED] + rest)) == [w] + Words(rest)
  {
    var t := w + ([LINE_FEED] + rest);
    StopOf(w, t);
    assert t[0..] == t && t[..|w|] == w && t[|w| + 1..] == rest;
    assert FromWord(t) == [w] + BehindWord(t);
  }

  lemma NewlineAlone(g: seq<byte>, rest: seq<byte>)
    requires Spaces(g)
    ensures Words(g + ([LINE_FEED] + rest)) == []
  {
    WordsBehindSpaces(g, [LINE_FEED] + rest);
    var t := [LINE_FEED] + rest;
    assert Blanks(t) == 0 && t[0..] == t;
  }

  lemma AllBlanks(a: seq<byte>)
    requires Blanks(a) == |a|
    ensures Spaces(a) && Words(a) == [] && (a != [] ==> a[|a| - 1] == SPACE)
  {
    assert a[Blanks(a)..] == [];
  }

  lemma Reassociate(gap: seq<byte>, w: seq<byte>, r: seq<byte>, line: seq<byte>)
    ensures (gap + (w + r)) + line == gap + (w + (r + line))
  {
  }

  lemma LastOfTail(gap: seq<byte>, w: seq<byte>, r: seq<byte>)
    ensures var a := gap + (w + ([SPACE] + r)); a[|a| - 1] == if r == [] then SPACE else r[|r| - 1]
    ensures Words([]) == []
  {
    AllBlanks([]);
  }

  lemma LastOfWord(gap: seq<byte>, w: seq<byte>)
    requires IsWord(w)
    ensures var a := gap + w; a != [] && a[|a| - 1] == w[|w| - 1] != SPACE
  {
  }

  /** A newline right behind a word separates it from the words behind; any other newline
      ends the command. */
  lemma {:induction false} NewlineSeparatesIff(a: seq<byte>, rest: seq<byte>)
    requires LINE_FEED !in a
    ensures Words(a + ([LINE_FEED] + rest))
            == Words(a) + if a != [] && a[|a| - 1] != SPACE then Words(rest) else []
    decreases |a|
  {
    hide Words, Blanks, Spaces, IsWord;
    var line := [LINE_FEED] + rest;
    if Blanks(a) == |a| {
      AllBlanks(a);
      NewlineAlone(a, rest);
    } else {
      var gap, w, r, more := FrontWord(a);
      if more {
        Reassociate(gap, w, [SPACE] + r, line);
        Regroup([SPACE], r, line);
        WordsBehindSpaces(gap, w + ([SPACE] + (r + line)));
        WordFirst(w, r + line);
        NewlineSeparatesIff(r, rest);
        LastOfTail(gap, w, r);
      } else {
        Regroup(gap, w, line);
        WordsBehindSpaces(gap, w + line);
        LineFirst(w, rest);
        LastOfWord(gap, w);
      }
    }
  }

  /** The arguments of a command are its name, with "./" put before it, and the words behind
      the space or newline that ends the name. */
  lemma ArgsAreNameAndWords(command: seq<byte>) returns (name: seq<byte>, rest: seq<byte>)
    ensures command == name + rest && SPACE !in name && LINE_FEED !in name
    ensures rest != [] ==> rest[0] == SPACE || rest[0] == LINE_FEED
    ensures ArgsOf(command) == [['.' as int, '/' as int] + name] + if rest == [] then [] else Words(rest[1..])
  {
    hide Words;
    var p := Stop(command);
    name, rest := command[..p], command[p..];
    assert rest != [] ==> command[p + 1..] == rest[1..];
  }

  /** In a command without a newline these words are the maximal runs of what stands behind
      the name. */
  lemma ArgsAreRuns(command: seq<byte>) returns (name: seq<byte>, rest: seq<byte>, gaps: seq<seq<byte>>)
    requires LINE_FEED !in command
    ensures command == name + rest && SPACE !in name && (rest != [] ==> rest[0] == SPACE)
    ensures |ArgsOf(command)| >= 1 && ArgsOf(command)[0] == ['.' as int, '/' as int] + name
    ensures Runs(rest, ArgsOf(command)[1..], gaps)
  {
    hide Words, Runs, ArgsOf, Blanks, Spaces;
    name, rest := ArgsAreNameAndWords(command);
    NotInBack(name, rest, LINE_FEED);
    gaps := WordsAreRuns(rest);
    if rest == [] {
      AllBlanks(rest);
    } else {
      assert rest == [SPACE] + rest[1..];
      WordsBehindSpace(rest[1..]);
    }
    assert ArgsOf(command)[1..] == Words(rest);
  }

  lemma NotInBack(a: seq<byte>, b: seq<byte>, c: byte)
    requires c !in a + b
    ensures c !in b
  {
    assert forall x :: x in b ==> x in a + b;
  }

  lemma {:induction false} FewWords(s: seq<byte>)
    ensures 2 * |Words(s)| <= |s| + 1
    decreases |s|
  {
    var t := s[Blanks(s)..];
    if t != [] && t[0] != LINE_FEED {
      var p := Stop(t);
      PrefixIsWord(t, p);
      assert Words(s) == [t[..p]] + BehindWord(t);
      if p < |t| {
        FewWords(t[p + 1..]);
      }
    }
  }

  // ----- the splitter

  /** A string stands at buf[p..]. */
  ghost predicate Holds(buf: seq<byte>, p: int, w: seq<byte>) {
    0 <= p && p + |w| < |buf| && buf[p..p + |w|] == w && NulFree(w) && buf[p + |w|] == NUL
  }

  /** The arguments found so far stand before scan. */
  ghost predicate Held(buf: seq<byte>, args: seq<nat>, words: seq<seq<byte>>, scan: nat) {
    |args| == |words| &&
    forall k :: 0 <= k < |args| ==> Holds(buf, args[k], words[k]) && args[k] + |words[k]| <= scan
  }

  lemma HeldBehind(buf: seq<byte>, buf': seq<byte>, args: seq<nat>, words: seq<seq<byte>>, scan: nat, at: nat)
    requires Held(buf, args, words, scan) && scan <= at < |buf| && buf' == buf[at := NUL]
    ensures Held(buf', args, words, at)
  {
    forall k | 0 <= k < |args| ensures Holds(buf', args[k], words[k]) {
      assert buf'[args[k]..args[k] + |words[k]|] == buf[args[k]..args[k] + |words[k]|];
    }
  }

  lemma HeldKept(buf: seq<byte>, buf': seq<byte>, args: seq<nat>, words: seq<seq<byte>>, scan: nat, at: nat)
    requires Held(buf, args, words, scan) && scan <= at < |buf| == |buf'| && buf[at] != NUL
    requires forall k :: 0 <= k < at ==> buf'[k] == buf[k]
    ensures Held(buf', args, words, at)
  {
    forall k | 0 <= k < |args| ensures Holds(buf', args[k], words[k]) {
      var p, w := args[k], words[k];
      assert Holds(buf, p, w) && p + |w| != at;
      assert buf'[p..p + |w|] == buf[p..p + |w|];
    }
  }

  lemma HeldSnoc(buf: seq<byte>, args: seq<nat>, words: seq<seq<byte>>, scan: nat, p: nat, w: seq<byte>)
    requires Held(buf, args, words, scan) && scan <= p && Holds(buf, p, w)
    ensures Held(buf, args + [p], words + [w], p + |w|)
  {
  }

  /** A string without its front ends at end. */
  ghost predicate Tail(buf: seq<byte>, from: nat, end: nat) {
    from <= end < |buf| && buf[end] == NUL && forall k :: from <= k < end ==> buf[k] != NUL
  }

  method ScanWord(buf: array<byte>, scan: nat, ghost end: nat) returns (stop: nat)
    requires Tail(buf[..], scan, end)
    ensures stop == scan + Stop(buf[scan..end]) && (buf[stop] == NUL <==> stop == end)
  {
    ghost var p := Stop(buf[scan..end]);
    assert forall k :: scan <= k < end ==> buf[k] == buf[scan..end][k - scan];
    stop := scan;
    while NUL != buf[stop] && SPACE != buf[stop] && LINE_FEED != buf[stop]
      invariant scan <= stop <= scan + p
      decreases end - stop
    {
      stop := stop + 1;
    }
  }

  method SkipBlanks(buf: array<byte>, scan: nat, ghost end: nat) returns (at: nat)
    requires scan <= end < buf.Length && buf[end] == NUL
    ensures at == scan + Blanks(buf[scan..end])
  {
    ghost var p := Blanks(buf[scan..end]);
    assert forall k :: scan <= k < end ==> buf[k] == buf[scan..end][k - scan];
    at := scan;
    while SPACE == buf[at]
      invariant scan <= at <= scan + p
      decreases end - at
    {
      at := at + 1;
    }
  }

  lemma BehindCut(t: seq<byte>, rest: seq<byte>)
    requires t != [] && t[0] != SPACE && t[0] != LINE_FEED
    requires rest == if Stop(t) == |t| then [] else t[Stop(t) + 1..]
    ensures FromWord(t) == [t[..Stop(t)]] + Words(rest) && 0 < Stop(t)
  {
    assert BehindWord(t) == Words(rest);
  }

  lemma HoldsWord(buf: seq<byte>, at: nat, t: seq<byte>, p: nat)
    requires p <= |t| && at + p < |buf| && buf[at + p] == NUL && forall k :: 0 <= k < p ==> buf[at + k] == t[k] != NUL
    ensures Holds(buf, at, t[..p])
  {
    assert buf[at..at + p] == t[..p];
  }

  /** Ends the argument at buf[at..] with a NUL and goes behind it. */
  method TakeWord(buf: array<byte>, at: nat, ghost end: nat) returns (scan: nat, ghost w: seq<byte>)
    requires Tail(buf[..], at, end) && buf[at] != NUL && buf[at] != SPACE && buf[at] != LINE_FEED
    modifies buf
    ensures at < scan && Tail(buf[..], scan, end)
    ensures at + |w| <= scan && Holds(buf[..], at, w)
    ensures FromWord(old(buf[at..end])) == [w] + Words(buf[scan..end])
    ensures forall k :: 0 <= k < at ==> buf[k] == old(buf[k])
  {
    ghost var was := buf[..];
    scan := ScanWord(buf, at, end);
    ghost var stop := scan;
    if NUL != buf[scan] {
      buf[scan] := NUL;
      scan := scan + 1;
    }
    w := TakenWord(was, buf[..], at, stop, scan, end);
  }

  /** What the cut leaves, by value. */
  lemma TakenWord(buf: seq<byte>, buf': seq<byte>, at: nat, stop: nat, scan: nat, end: nat) returns (w: seq<byte>)
    requires Tail(buf, at, end) && buf[at] != NUL && buf[at] != SPACE && buf[at] != LINE_FEED
    requires stop == at + Stop(buf[at..end]) && scan == (if stop == end then stop else stop + 1)
    requires buf' == buf[stop := NUL]
    ensures at < scan && at + |w| <= scan <= end && Holds(buf', at, w)
    ensures FromWord(buf[at..end]) == [w] + Words(buf'[scan..end])
  {
    var t := buf[at..end];
    var p := Stop(t);
    assert forall k :: 0 <= k < |t| ==> t[k] == buf[at + k];
    assert t[0] == buf[at];
    w := t[..p];
    HoldsWord(buf', at, t, p);
    assert buf'[scan..end] == if p == |t| then [] else t[p + 1..];
    BehindCut(t, buf'[scan..end]);
  }

  /** The loop over the arguments, from behind the name to the end of the command. */
  method SplitWords(buf: array<byte>, start: nat, ghost end: nat) returns (args: seq<nat>)
    requires Tail(buf[..], start, end)
    modifies buf
    ensures Held(buf[..], args, Words(old(buf[start..end])), end)
    ensures forall k :: 0 <= k < start ==> buf[k] == old(buf[k])
  {
    hide Words, FirstIndex;
    var scan := start;
    ghost var words: seq<seq<byte>> := [];
    args := [];
    while true
      invariant start <= scan && Tail(buf[..], scan, end)
      invariant Held(buf[..], args, words, scan)
      invariant words + Words(buf[scan..end]) == Words(old(buf[start..end]))
      invariant forall k :: 0 <= k < start ==> buf[k] == old(buf[k])
      decreases end - scan
    {
      ghost var rest := buf[scan..end];
      var at := SkipBlanks(buf, scan, end);
      AfterBlanks(buf[..], scan, at, end);
      if NUL == buf[at] || LINE_FEED == buf[at] {
        HeldBehind(buf[..], buf[..][at := NUL], args, words, scan, at);
        buf[at] := NUL;
        break;
      }
      ghost var before, from, w := buf[..], scan, [];
      scan, w := TakeWord(buf, at, end);
      HeldKept(before, buf[..], args, words, from, at);
      HeldSnoc(buf[..], args, words, at, at, w);
      Regroup(words, [w], Words(buf[scan..end]));
      args, words := args + [at], words + [w];
    }
  }

  lemma AfterBlanks(buf: seq<byte>, scan: nat, at: nat, end: nat)
    requires Tail(buf, scan, end) && at == scan + Blanks(buf[scan..end])
    ensures Tail(buf, at, end) && buf[at] != SPACE && Words(buf[scan..end]) == FromWord(buf[at..end])
    ensures buf[at] == NUL || buf[at] == LINE_FEED ==> FromWord(buf[at..end]) == []
  {
    var rest := buf[scan..end];
    assert buf[at..end] == rest[at - scan..];
    assert at < end ==> buf[at] == rest[at - scan] == buf[at..end][0];
  }

  /** Cuts a command, with the current directory put before it, into its arguments: each
      is a string in the buffer.  Only a command of more than 1023 bytes is refused. */
  method Split(command: seq<byte>) returns (ok: bool, buf: array<byte>, args: seq<nat>)
    requires NulFree(command)
    ensures ok <==> |command| <= 1023
    ensures ok ==> |args| == |ArgsOf(command)| <= 513
    ensures ok ==> forall k :: 0 <= k < |args| ==> Holds(buf[..], args[k], ArgsOf(command)[k])
  {
    hide Words, Stop, Held;
    buf, args := new byte[BUFFER], [];
    ok := |command| <= MAX_COMMAND;
    if !ok {
      return;
    }
    var end := 2 + |command|;
    CopyIn(command, buf);
    ghost var p, name := Stop(command), PREFIX + command[..Stop(command)];
    var scan := ScanWord(buf, 2, end);
    NameHeld(buf[..], buf[..][scan := NUL], command, end);
    args := [0];
    if NUL != buf[scan] {
      buf[scan] := NUL;
      scan := scan + 1;
      assert buf[scan..end] == command[p + 1..];
      ghost var before := buf[..];
      var more := SplitWords(buf, scan, end);
      assert Holds(buf[..], 0, name) by { assert buf[..|name|] == before[..|name|]; }
      HeldFront(buf[..], more, Words(command[p + 1..]), end, name);
      args := args + more;
      FewWords(command[p + 1..]);
    } else {
      assert buf[..] == buf[..][scan := NUL];
    }
  }

  lemma NameHeld(buf: seq<byte>, buf': seq<byte>, command: seq<byte>, end: nat)
    requires NulFree(command) && end == 2 + |command| < |buf|
    requires buf[..end] == PREFIX + command && buf' == buf[2 + Stop(command) := NUL]
    ensures Holds(buf', 0, PREFIX + command[..Stop(command)])
  {
    var name := PREFIX + command[..Stop(command)];
    assert forall k :: 0 <= k < |name| ==> buf[k] == buf[..end][k] == name[k];
    assert buf'[0..|name|] == name;
  }

  lemma HeldFront(buf: seq<byte>, args: seq<nat>, words: seq<seq<byte>>, end: nat, name: seq<byte>)
    requires Held(buf, args, words, end) && Holds(buf, 0, name)
    ensures |args| == |words|
    ensures forall k :: 0 <= k < |[0] + args| ==> Holds(buf, ([0] + args)[k], ([name] + words)[k])
  {
  }

  /** "./" and the command, as a string. */
  method CopyIn(command: seq<byte>, buf: array<byte>)
    requires |command| + 3 <= buf.Length
    modifies buf
    requires NulFree(command)
    ensures buf[..|command| + 2] == PREFIX + command && buf[|command| + 2] == NUL
    ensures Tail(buf[..], 2, |command| + 2) && buf[2..|command| + 2] == command
  {
    buf[0], buf[1] := PREFIX[0], PREFIX[1];
    var i := 0;
    while i < |command|
      invariant 0 <= i <= |command| && buf[..i + 2] == PREFIX + command[..i]
    {
      buf[i + 2] := command[i];
      i := i + 1;
    }
    buf[i + 2] := NUL;
    assert buf[2..i + 2] == buf[..i + 2][2..];
    assert forall k :: 2 <= k < i + 2 ==> buf[k] == command[k - 2];
  }

  // ----- the joiner

  /** Joining the first i arguments gives exactly n bytes. */
  ghost predicate Exactly(args: seq<seq<byte>>, i: int, n: int) { 0 < i <= |args| && |Join(args[..i])| == n }

  /** The same, one argument at a time: copying some argument ends exactly at n, so that
      its NUL goes one byte behind the buffer. */
  predicate Overruns(args: seq<seq<byte>>, n: int) {
    args != [] && (|args[0]| == n || (|args[0]| < n && Overruns(args[1..], n - |args[0]| - 1)))
  }

  lemma {:induction false} OverrunsIff(args: seq<seq<byte>>, n: int)
    ensures Overruns(args, n) <==> exists i :: Exactly(args, i, n)
  {
    if args != [] {
      var n' := n - |args[0]| - 1;
      OverrunsIff(args[1..], n');
      assert args[..1] == [args[0]];
      assert Exactly(args, 1, n) <==> |args[0]| == n;
      forall i | 1 <= i < |args| ensures Exactly(args[1..], i, n') <==> Exactly(args, i + 1, n) {
        JoinPrefix(args, i + 1);
      }
      if i :| Exactly(args, i, n) && i != 1 {
        assert Exactly(args[1..], i - 1, n');
      }
      if i :| Exactly(args[1..], i, n') {
        assert Exactly(args, i + 1, n);
      }
    }
  }

  lemma JoinPrefix(args: seq<seq<byte>>, i: nat)
    requires 2 <= i <= |args|
    ensures |Join(args[..i])| == |args[0]| + 1 + |Join(args[1..][..i - 1])|
  {
    assert args[..i][1..] == args[1..][..i - 1];
  }

  /** One argument of the loop: done is written, left bytes remain. */
  lemma JoinStep(args: seq<seq<byte>>, idx: nat, done: seq<byte>, left: int)
    requires idx < |args| && done + Join(args[idx..]) == Join(args)
    ensures |Join(args)| >= |done| + |args[idx]|
    ensures idx + 1 == |args| ==> done + args[idx] == Join(args)
    ensures idx + 1 < |args| ==> done + args[idx] + [SPACE] + Join(args[idx + 1..]) == Join(args)
    ensures Overruns(args[idx..], left) <==>
      |args[idx]| == left || (|args[idx]| < left && Overruns(args[idx + 1..], left - |args[idx]| - 1))
  {
    var rest := args[idx..];
    assert rest[0] == args[idx] && rest[1..] == args[idx + 1..];
    if idx + 1 < |args| {
      assert done + (args[idx] + ([SPACE] + Join(rest[1..]))) == done + args[idx] + [SPACE] + Join(rest[1..]);
    }
  }

  /** Copies a string with its NUL to mem[buf..], behind what stands at mem[at..buf]. */
  method StrCpy(mem: array<byte>, ghost at: nat, buf: nat, s: seq<byte>)
    requires at <= buf && buf + |s| < mem.Length
    modifies mem
    ensures mem[at..buf + |s|] == old(mem[at..buf]) + s && mem[buf + |s|] == NUL
    ensures forall k :: 0 <= k < mem.Length && (k < at || k > buf + |s|) ==> mem[k] == old(mem[k])
  {
    var i := 0;
    while i < |s|
      invariant 0 <= i <= |s| && mem[at..buf + i] == old(mem[at..buf]) + s[..i]
      invariant forall k :: 0 <= k < mem.Length && (k < at || k >= buf + i) ==> mem[k] == old(mem[k])
    {
      mem[buf + i] := s[i];
      i := i + 1;
    }
    mem[buf + i] := NUL;
  }

  method PutSpace(mem: array<byte>, ghost at: nat, buf: nat)
    requires at <= buf < mem.Length
    modifies mem
    ensures mem[at..buf + 1] == old(mem[at..buf]) + [SPACE]
    ensures forall k :: 0 <= k < mem.Length && k != buf ==> mem[k] == old(mem[k])
  {
    mem[buf] := SPACE;
  }

  /** Where the loop stands: done is written, idx arguments are used up, left bytes remain. */
  ghost predicate Joining(args: seq<seq<byte>>, idx: int, done: seq<byte>, left: int, nbytes: int) {
    0 <= idx <= |args| && (idx < |args| || args == []) && left == nbytes - |done| && (done != [] ==> left >= 0) &&
    done + Join(args[idx..]) == Join(args) && (Overruns(args[idx..], left) <==> Overruns(args, nbytes))
  }

  lemma JoinNext(args: seq<seq<byte>>, idx: int, done: seq<byte>, left: int, nbytes: int)
    requires Joining(args, idx, done, left, nbytes) && idx < |args|
    ensures |args[idx]| > left ==> |Join(args)| >= nbytes && !Overruns(args, nbytes)
    ensures |args[idx]| == left ==> |Join(args)| >= nbytes && Overruns(args, nbytes)
    ensures |args[idx]| < left && idx + 1 < |args| ==>
      Joining(args, idx + 1, done + args[idx] + [SPACE], left - |args[idx]| - 1, nbytes)
    ensures idx + 1 == |args| ==> done + args[idx] == Join(args) && (Overruns(args, nbytes) <==> |args[idx]| == left)
  {
    JoinStep(args, idx, done, left);
  }

  /** One round of the loop: an argument, and a space when another one follows. */
  method JoinOne(args: seq<seq<byte>>, idx: nat, mem: array<byte>, ghost at: nat, buf: nat, left: int,
                 ghost nbytes: int)
    returns (room: bool, buf': nat, left': int)
    requires at + Max(nbytes, 0) < mem.Length && idx < |args| && at <= buf < mem.Length
    requires Joining(args, idx, mem[at..buf], left, nbytes)
    modifies mem
    ensures if room then buf <= buf' < mem.Length && 0 <= left' == nbytes - (buf' - at) else |Join(args)| >= nbytes
    ensures room && idx + 1 < |args| ==> Joining(args, idx + 1, mem[at..buf'], left', nbytes)
    ensures room && idx + 1 < |args| ==> mem[buf'] == old(mem[buf'])
    ensures room && idx + 1 == |args| ==> mem[at..buf'] == Join(args) && mem[buf'] == NUL
    ensures room && idx + 1 == |args| ==> (Overruns(args, nbytes) <==> left' == 0)
    ensures !room && nbytes >= 0 ==> mem[at + nbytes] == if Overruns(args, nbytes) then NUL else old(mem[at + nbytes])
    ensures forall k :: 0 <= k < mem.Length && (k < at || k > at + nbytes || (room && k > buf')) ==>
              mem[k] == old(mem[k])
  {
    var len := |args[idx]|;
    JoinNext(args, idx, mem[at..buf], left, nbytes);
    if len > left {
      return false, buf, left;
    }
    StrCpy(mem, at, buf, args[idx]);
    room, buf', left' := true, buf + len, left - len;
    if idx + 1 < |args| {
      if left' < 1 {
        return false, buf', left';
      }
      PutSpace(mem, at, buf');
      buf', left' := buf' + 1, left' - 1;
    }
  }

  /** The loop: all arguments joined up to buf, with left bytes remaining, or no room. */
  method JoinAll(args: seq<seq<byte>>, mem: array<byte>, at: nat, nbytes: int)
    returns (ok: bool, buf: nat, left: int)
    requires at + Max(nbytes, 0) < mem.Length
    modifies mem
    ensures if ok then at <= buf < mem.Length && mem[at..buf] == Join(args) && left == nbytes - (buf - at)
            else |Join(args)| >= nbytes
    ensures ok && args != [] ==> left >= 0 && mem[buf] == NUL
    ensures ok ==> (Overruns(args, nbytes) <==> args != [] && left == 0)
    ensures !ok && nbytes >= 0 ==> mem[at + nbytes] == if Overruns(args, nbytes) then NUL else old(mem[at + nbytes])
    ensures forall k :: 0 <= k < mem.Length && (k < at || k > at + nbytes || (ok && k > buf)) ==> mem[k] == old(mem[k])
    ensures ok && args == [] ==> mem[..] == old(mem[..])
  {
    var idx := 0;
    buf, left, ok := at, nbytes, true;
    assert args[0..] == args;
    while idx < |args|
      invariant 0 <= idx <= |args| && at <= buf < mem.Length && left == nbytes - (buf - at) && (idx > 0 ==> left >= 0)
      invariant idx < |args| ==> Joining(args, idx, mem[at..buf], left, nbytes)
      invariant idx < |args| ==> mem[buf] == old(mem[buf])
      invariant idx == |args| ==> mem[at..buf] == Join(args)
      invariant idx == |args| > 0 ==> mem[buf] == NUL && (Overruns(args, nbytes) <==> left == 0)
      invariant forall k :: 0 <= k < mem.Length && (k < at || k > at + nbytes || k > buf) ==> mem[k] == old(mem[k])
      invariant idx == 0 ==> mem[..] == old(mem[..])
    {
      ok, buf, left := JoinOne(args, idx, mem, at, buf, left, nbytes);
      if !ok {
        return;
      }
      idx := idx + 1;
    }
  }

  /** Joins the arguments into the nbytes at mem[at..].  It succeeds exactly when the
      joined string and its NUL fit; the byte behind the buffer is overwritten exactly
      when some of the arguments, joined, fill the buffer to the last byte. */
  method GetArgs(args: seq<seq<byte>>, mem: array<byte>, at: nat, nbytes: int) returns (ret: int)
    requires at + Max(nbytes, 0) < mem.Length
    modifies mem
    ensures ret == if |Join(args)| < nbytes then 0 else -1
    ensures ret == 0 ==> mem[at..at + |Join(args)|] == Join(args) && mem[at + |Join(args)|] == NUL
    ensures forall k :: 0 <= k < mem.Length && (k < at || k > at + nbytes) ==> mem[k] == old(mem[k])
    ensures nbytes >= 0 ==> mem[at + nbytes] == if Overruns(args, nbytes) then NUL else old(mem[at + nbytes])
  {
    var ok, buf, left := JoinAll(args, mem, at, nbytes);
    if !ok || left < 1 {
      return -1;
    }
    mem[buf] := NUL;
    assert mem[at..buf] == Join(args);
    return 0;
  }
}
