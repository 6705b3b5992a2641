/** When grep's pieces are the lines of the file. */
module GrepExact {
  import opened Bytes
  import opened Grep

  function NonEmpty(lines: seq<seq<byte>>): seq<seq<byte>> {
    if lines == [] then [] else IfNonEmpty(lines[0]) + NonEmpty(lines[1..])
  }

  function IfNonEmpty(line: seq<byte>): seq<seq<byte>> { if line == [] then [] else [line] }

  lemma {:induction false} NonEmptyConcat(a: seq<seq<byte>>, b: seq<seq<byte>>)
    ensures NonEmpty(a + b) == NonEmpty(a) + NonEmpty(b)
  {
    if a == [] {
      assert a + b == b;
    } else {
      NonEmptyConcat(a[1..], b);
      assert (a + b)[0] == a[0] && (a + b)[1..] == a[1..] + b;
      Regroup(IfNonEmpty(a[0]), NonEmpty(a[1..]), NonEmpty(b));
    }
  }

  /** An empty line contains no pattern, so only the others matter. */
  lemma {:induction false} HitsOfNonEmpty(lines: seq<seq<byte>>, pattern: seq<byte>)
    ensures Hits(NonEmpty(lines), pattern) == Hits(lines, pattern)
  {
    if lines != [] {
      HitsOfNonEmpty(lines[1..], pattern);
      HitsConcat(IfNonEmpty(lines[0]), NonEmpty(lines[1..]), pattern);
      assert !Contains([], pattern);
      assert Hits([lines[0]], pattern) == Hit(lines[0], pattern) + [];
    }
  }

  /** No line is longer than the window. */
  ghost predicate ShortLines(s: seq<byte>) {
    forall k :: 0 <= k < |Lines(s)| ==> |Lines(s)[k]| <= 1024
  }

  /** The end of the first full window that does not end in a newline, counted in
      windows from the start; the end of the file when there is none. */
  function StaleCut(s: seq<byte>): (p: nat)
    ensures p <= |s|
    decreases |s|
  {
    if |s| < 1024 then |s|
    else if s[1023] == LINE_FEED then 1024 + StaleCut(s[1024..])
    else 1024
  }

  /** No line exceeds 1024 bytes, and a stale newline behind the buffer, if there is
      one, takes effect at the end of a line. */
  ghost predicate Faithful(s: seq<byte>, stale: bool) {
    ShortLines(s) && (stale ==> StaleCut(s) == |s| || s[StaleCut(s)] == LINE_FEED)
  }

  /** Where two lists of lines first differ: one has a line, the other a proper,
      non-empty beginning of it. */
  datatype Split = Split(common: seq<seq<byte>>, whole: seq<byte>, part: seq<byte>,
                         rest: seq<seq<byte>>, rest': seq<seq<byte>>)

  ghost predicate SplitsAt(x: seq<seq<byte>>, y: seq<seq<byte>>, d: Split) {
    x == d.common + [d.whole] + d.rest && y == d.common + [d.part] + d.rest' && d.part != [] && d.part < d.whole
  }

  lemma SplitBehind(front: seq<seq<byte>>, x: seq<seq<byte>>, y: seq<seq<byte>>, d: Split)
    requires SplitsAt(x, y, d)
    ensures SplitsAt(front + x, front + y, d.(common := front + d.common))
  {
  }

  /** A pattern tells such lists apart: the first byte of the line that is cut. */
  lemma SplitShows(x: seq<seq<byte>>, y: seq<seq<byte>>, d: Split)
    requires SplitsAt(x, y, d)
    ensures Hits(x, [d.whole[0]]) != Hits(y, [d.whole[0]])
  {
    var p := [d.whole[0]];
    assert MatchAt(d.whole, p, 0) && MatchAt(d.part, p, 0);
    assert Contains(d.whole, p) && Contains(d.part, p);
    HitsConcat(d.common + [d.whole], d.rest, p);
    HitsConcat(d.common, [d.whole], p);
    HitsConcat(d.common + [d.part], d.rest', p);
    HitsConcat(d.common, [d.part], p);
    assert Hits([d.whole], p) == [d.whole] && Hits([d.part], p) == [d.part];
    var k := |Hits(d.common, p)|;
    assert Hits(x, p)[k] == d.whole && Hits(y, p)[k] == d.part;
  }

  // ----- the lines of a file that is cut in two

  lemma LinesStep(s: seq<byte>, p: nat)
    requires p < |s| && s[p] == LINE_FEED && forall k :: 0 <= k < p ==> s[k] != LINE_FEED
    ensures Lines(s) == [s[..p]] + Lines(s[p + 1..])
  {
    assert FirstIndex(s, LINE_FEED) == p;
  }

  lemma LinesWhole(s: seq<byte>)
    requires s != [] && forall k :: 0 <= k < |s| ==> s[k] != LINE_FEED
    ensures Lines(s) == [s]
  {
    assert FirstIndex(s, LINE_FEED) == |s|;
  }

  lemma FirstLine(a: seq<byte>, b: seq<byte>, p: nat)
    requires p == FirstIndex(a, LINE_FEED) < |a|
    ensures Lines(a) == [a[..p]] + Lines(a[p + 1..])
    ensures Lines(a + b) == [a[..p]] + Lines(a[p + 1..] + b)
  {
    LinesStep(a, p);
    LinesStep(a + b, p);
    assert (a + b)[..p] == a[..p] && (a + b)[p + 1..] == a[p + 1..] + b;
  }

  lemma {:induction false} LinesJoin(a: seq<byte>, b: seq<byte>)
    requires a != [] && a[|a| - 1] == LINE_FEED
    ensures Lines(a + b) == Lines(a) + Lines(b)
    decreases |a|
  {
    var p := FirstIndex(a, LINE_FEED);
    FirstLine(a, b, p);
    var rest := a[p + 1..];
    assert Lines(rest + b) == Lines(rest) + Lines(b) by {
      if rest == [] {
        assert rest + b == b;
      } else {
        LinesJoin(rest, b);
      }
    }
    Regroup([a[..p]], Lines(rest), Lines(b));
  }

  lemma {:induction false} LinesTerminated(a: seq<byte>)
    requires a != [] && a[|a| - 1] != LINE_FEED
    ensures Lines(a + [LINE_FEED]) == Lines(a)
    decreases |a|
  {
    var p := FirstIndex(a, LINE_FEED);
    if p == |a| {
      OneLineTerminated(a, a + [LINE_FEED]);
    } else {
      FirstLine(a, [LINE_FEED], p);
      LinesTerminated(a[p + 1..]);
    }
  }

  lemma OneLineTerminated(a: seq<byte>, b: seq<byte>)
    requires a != [] && (forall k :: 0 <= k < |a| ==> a[k] != LINE_FEED) && b == a + [LINE_FEED]
    ensures Lines(b) == Lines(a)
  {
    LinesWhole(a);
    LinesStep(b, |a|);
    assert b[..|a|] == a && b[|a| + 1..] == [];
  }

  /** A cut inside a line: the line starts the same way before and after. */
  lemma {:induction false} LinesCut(a: seq<byte>, b: seq<byte>) returns (d: Split)
    requires a != [] && a[|a| - 1] != LINE_FEED && b != [] && b[0] != LINE_FEED
    ensures SplitsAt(Lines(a + b), Lines(a), d) && d.rest' == []
    decreases |a|
  {
    var p := FirstIndex(a, LINE_FEED);
    if p == |a| {
      d := OneLineCut(a, b);
    } else {
      FirstLine(a, b, p);
      var d' := LinesCut(a[p + 1..], b);
      SplitBehind([a[..p]], Lines(a[p + 1..] + b), Lines(a[p + 1..]), d');
      d := d'.(common := [a[..p]] + d'.common);
    }
  }

  lemma OneLineCut(a: seq<byte>, b: seq<byte>) returns (d: Split)
    requires a != [] && (forall k :: 0 <= k < |a| ==> a[k] != LINE_FEED) && b != [] && b[0] != LINE_FEED
    ensures SplitsAt(Lines(a + b), Lines(a), d) && d.rest' == []
  {
    LinesWhole(a);
    var c := a + b;
    var q := FirstIndex(c, LINE_FEED);
    assert c[|a|] == b[0] && forall k :: 0 <= k < |a| ==> c[k] == a[k];
    assert |a| < q && c[..|a|] == a;
    if q < |c| {
      LinesStep(c, q);
      d := Split([], c[..q], a, Lines(c[q + 1..]), []);
    } else {
      assert c[..q] == c;
      LinesWhole(c);
      d := Split([], c, a, [], []);
    }
  }

  // ----- pieces against lines

  lemma ShortStep(s: seq<byte>, line: seq<byte>, rest: seq<byte>)
    requires Lines(s) == [line] + Lines(rest)
    ensures ShortLines(s) <==> |line| <= BUFSIZE && ShortLines(rest)
  {
    if ShortLines(s) {
      assert |Lines(s)[0]| <= BUFSIZE;
      forall k | 0 <= k < |Lines(rest)| ensures |Lines(rest)[k]| <= BUFSIZE {
        assert Lines(s)[k + 1] == Lines(rest)[k];
      }
    }
  }

  lemma {:induction false} ShortJoin(a: seq<byte>, s: seq<byte>, rest: seq<byte>)
    requires Lines(s) == Lines(a) + Lines(rest) && |a| <= BUFSIZE
    ensures ShortLines(s) <==> ShortLines(rest)
  {
    LinesWithin(a);
    if ShortLines(s) {
      forall k | 0 <= k < |Lines(rest)| ensures |Lines(rest)[k]| <= BUFSIZE {
        assert Lines(s)[|Lines(a)| + k] == Lines(rest)[k];
      }
    }
  }

  lemma {:induction false} LinesWithin(s: seq<byte>)
    ensures forall k :: 0 <= k < |Lines(s)| ==> |Lines(s)[k]| <= |s|
    decreases |s|
  {
    var p := FirstIndex(s, LINE_FEED);
    if s != [] && p < |s| {
      LinesWithin(s[p + 1..]);
    }
  }

  /** The same first piece on both sides. */
  lemma SameFirst(s: seq<byte>, line: seq<byte>, rest: seq<byte>)
    requires Lines(s) == [line] + Lines(rest) && NonEmpty(Pieces(s)) == IfNonEmpty(line) + NonEmpty(Pieces(rest))
    requires |line| <= BUFSIZE
    ensures NonEmpty(Lines(s)) == IfNonEmpty(line) + NonEmpty(Lines(rest))
    ensures ShortLines(s) <==> ShortLines(rest)
  {
    ShortStep(s, line, rest);
  }

  lemma LineFront(s: seq<byte>, p: nat)
    requires p < |s| && p < BUFSIZE && s[p] == LINE_FEED && forall k :: 0 <= k < p ==> s[k] != LINE_FEED
    ensures Lines(s) == [s[..p]] + Lines(s[p + 1..])
    ensures NonEmpty(Pieces(s)) == IfNonEmpty(s[..p]) + NonEmpty(Pieces(s[p + 1..]))
  {
    PiecesStep(s, p);
    LinesStep(s, p);
  }

  lemma FullFront(s: seq<byte>)
    requires s != [] && var w := Min(BUFSIZE, |s|); forall k :: 0 <= k < w ==> s[k] != LINE_FEED
    ensures var w := Min(BUFSIZE, |s|); NonEmpty(Pieces(s)) == IfNonEmpty(s[..w]) + NonEmpty(Pieces(s[w..]))
  {
    var w := Min(BUFSIZE, |s|);
    assert forall k :: 0 <= k < w ==> s[..w][k] == s[k];
    assert FirstIndex(s[..w], LINE_FEED) == w;
  }

  /** The newline of a line of exactly 1024 bytes makes an empty piece. */
  lemma EmptyFront(r: seq<byte>, rest: seq<byte>)
    requires r != [] && r[0] == LINE_FEED && rest == r[1..]
    ensures NonEmpty(Pieces(r)) == NonEmpty(Pieces(rest))
  {
    PiecesStep(r, 0);
  }

  lemma ExactFront(s: seq<byte>)
    requires |s| > BUFSIZE && s[BUFSIZE] == LINE_FEED && forall k :: 0 <= k < BUFSIZE ==> s[k] != LINE_FEED
    ensures NonEmpty(Pieces(s)) == IfNonEmpty(s[..BUFSIZE]) + NonEmpty(Pieces(s[BUFSIZE + 1..]))
  {
    var r, rest := s[BUFSIZE..], s[BUFSIZE + 1..];
    assert NonEmpty(Pieces(s)) == IfNonEmpty(s[..BUFSIZE]) + NonEmpty(Pieces(r)) by { FullFront(s); }
    assert rest == r[1..];
    EmptyFront(r, rest);
  }

  /** The front of a file up to a newline or a full window. */
  ghost predicate Front(s: seq<byte>, line: seq<byte>, rest: seq<byte>, cut: bool) {
    |rest| < |s| && |line| <= BUFSIZE &&
    NonEmpty(Pieces(s)) == IfNonEmpty(line) + NonEmpty(Pieces(rest)) &&
    if cut then s == line + rest && |line| == BUFSIZE && LINE_FEED !in line && rest != [] && rest[0] != LINE_FEED
    else Lines(s) == [line] + Lines(rest)
  }

  lemma FullPiece(s: seq<byte>) returns (line: seq<byte>, rest: seq<byte>, cut: bool)
    requires s != [] && var w := Min(BUFSIZE, |s|); forall k :: 0 <= k < w ==> s[k] != LINE_FEED
    ensures Front(s, line, rest, cut)
  {
    var w := Min(BUFSIZE, |s|);
    if w < |s| && s[w] == LINE_FEED {
      line, rest, cut := s[..w], s[w + 1..], false;
      LinesStep(s, w);
      ExactFront(s);
    } else {
      line, rest, cut := s[..w], s[w..], w < |s|;
      FullFront(s);
      if !cut {
        assert s[..w] == s;
        LinesWhole(s);
      }
    }
  }

  lemma FrontOfPieces(s: seq<byte>) returns (line: seq<byte>, rest: seq<byte>, cut: bool)
    requires s != []
    ensures Front(s, line, rest, cut)
  {
    var w := Min(BUFSIZE, |s|);
    var p := FirstIndex(s[..w], LINE_FEED);
    assert forall k :: 0 <= k < w ==> s[k] == s[..w][k];
    if p < w {
      line, rest, cut := s[..p], s[p + 1..], false;
      LineFront(s, p);
    } else {
      line, rest, cut := FullPiece(s);
    }
  }

  /** Without a stale newline the pieces are the lines, up to empty ones, exactly when
      no line is longer than 1024 bytes; otherwise some line is cut. */
  lemma {:induction false} PiecesOrSplit(s: seq<byte>) returns (d: Split)
    ensures ShortLines(s) ==> NonEmpty(Pieces(s)) == NonEmpty(Lines(s))
    ensures !ShortLines(s) ==> SplitsAt(NonEmpty(Lines(s)), NonEmpty(Pieces(s)), d)
    decreases |s|
  {
    d := Split([], [], [], [], []);
    if s != [] {
      var line, rest, cut := FrontOfPieces(s);
      if cut {
        d := CutFirst(s, line, rest);
      } else {
        SameFirst(s, line, rest);
        d := PiecesOrSplit(rest);
        if !ShortLines(rest) {
          SplitBehind(IfNonEmpty(line), NonEmpty(Lines(rest)), NonEmpty(Pieces(rest)), d);
          d := d.(common := IfNonEmpty(line) + d.common);
        }
      }
    }
  }

  lemma CutFirst(s: seq<byte>, line: seq<byte>, rest: seq<byte>) returns (d: Split)
    requires s == line + rest && |line| == BUFSIZE && LINE_FEED !in line && rest != [] && rest[0] != LINE_FEED
    requires NonEmpty(Pieces(s)) == IfNonEmpty(line) + NonEmpty(Pieces(rest))
    ensures !ShortLines(s) && SplitsAt(NonEmpty(Lines(s)), NonEmpty(Pieces(s)), d)
  {
    var e := OneLineCut(line, rest);
    LinesWhole(line);
    assert e.common == [] && e.part == line && Lines(s) == [e.whole] + e.rest;
    assert |Lines(s)[0]| > BUFSIZE;
    assert NonEmpty(Lines(s)) == [e.whole] + NonEmpty(e.rest);
    d := Split([], e.whole, line, NonEmpty(e.rest), NonEmpty(Pieces(rest)));
  }

  lemma PiecesOfWindow(w: seq<byte>)
    requires |w| == BUFSIZE
    ensures NonEmpty(Pieces(w)) == NonEmpty(Lines(w))
  {
    LinesWithin(w);
    var _ := PiecesOrSplit(w);
  }

  /** A full window whose end is the end of a line, or of the file. */
  lemma AlignedWindow(s: seq<byte>, rest: seq<byte>, flag: bool)
    requires |s| >= BUFSIZE && Lines(s) == Lines(s[..BUFSIZE]) + Lines(rest)
    requires NonEmpty(WindowPieces(s[BUFSIZE..], s[BUFSIZE - 1] == LINE_FEED)) == NonEmpty(WindowPieces(rest, flag))
    ensures NonEmpty(Lines(s)) == NonEmpty(Lines(s[..BUFSIZE])) + NonEmpty(Lines(rest))
    ensures NonEmpty(WindowPieces(s, true)) == NonEmpty(Lines(s[..BUFSIZE])) + NonEmpty(WindowPieces(rest, flag))
    ensures ShortLines(s) <==> ShortLines(rest)
  {
    var w := s[..BUFSIZE];
    PiecesOfWindow(w);
    NonEmptyConcat(Lines(w), Lines(rest));
    NonEmptyConcat(Pieces(w), WindowPieces(s[BUFSIZE..], s[BUFSIZE - 1] == LINE_FEED));
    ShortJoin(w, s, rest);
  }

  /** A full window that ends inside a line, before a stale newline. */
  lemma StaleSplit(s: seq<byte>) returns (d: Split)
    requires |s| > BUFSIZE && s[BUFSIZE - 1] != LINE_FEED && s[BUFSIZE] != LINE_FEED
    ensures SplitsAt(NonEmpty(Lines(s)), NonEmpty(WindowPieces(s, true)), d)
  {
    var w, r := s[..BUFSIZE], s[BUFSIZE..];
    assert s == w + r;
    var e := LinesCut(w, r);
    PiecesOfWindow(w);
    NonEmptyConcat(Pieces(w), WindowPieces(r, false));
    SplitNonEmpty(Lines(s), Lines(w), e);
    d := Split(NonEmpty(e.common), e.whole, e.part, NonEmpty(e.rest), NonEmpty(WindowPieces(r, false)));
    assert NonEmpty(Lines(w)) == NonEmpty(e.common) + [e.part];
  }

  lemma SplitNonEmpty(x: seq<seq<byte>>, y: seq<seq<byte>>, e: Split)
    requires SplitsAt(x, y, e) && e.rest' == []
    ensures NonEmpty(x) == NonEmpty(e.common) + [e.whole] + NonEmpty(e.rest)
    ensures NonEmpty(y) == NonEmpty(e.common) + [e.part]
  {
    NonEmptyConcat(e.common + [e.whole], e.rest);
    NonEmptyConcat(e.common, [e.whole]);
    assert y == e.common + [e.part];
    NonEmptyConcat(e.common, [e.part]);
    assert NonEmpty([e.whole]) == [e.whole] && NonEmpty([e.part]) == [e.part];
  }

  /** The pieces are the lines, up to empty ones, exactly for a faithful file. */
  lemma {:induction false} WindowOrSplit(s: seq<byte>, stale: bool) returns (d: Split)
    ensures Faithful(s, stale) ==> NonEmpty(WindowPieces(s, stale)) == NonEmpty(Lines(s))
    ensures !Faithful(s, stale) ==> SplitsAt(NonEmpty(Lines(s)), NonEmpty(WindowPieces(s, stale)), d)
    decreases |s|
  {
    if !stale || |s| < BUFSIZE {
      d := PiecesOrSplit(s);
    } else if s[BUFSIZE - 1] == LINE_FEED {
      d := BehindWindow(s, s[BUFSIZE..], true);
    } else if |s| == BUFSIZE || s[BUFSIZE] == LINE_FEED {
      d := BehindWindow(s, if |s| == BUFSIZE then [] else s[BUFSIZE + 1..], false);
    } else {
      d := StaleSplit(s);
    }
  }

  lemma BehindWindow(s: seq<byte>, rest: seq<byte>, flag: bool) returns (d: Split)
    requires |s| >= BUFSIZE && |rest| < |s| && flag == (s[BUFSIZE - 1] == LINE_FEED)
    requires rest == if flag then s[BUFSIZE..] else if |s| == BUFSIZE then [] else s[BUFSIZE + 1..]
    requires !flag && |s| > BUFSIZE ==> s[BUFSIZE] == LINE_FEED
    ensures Faithful(s, true) ==> NonEmpty(WindowPieces(s, true)) == NonEmpty(Lines(s))
    ensures !Faithful(s, true) ==> SplitsAt(NonEmpty(Lines(s)), NonEmpty(WindowPieces(s, true)), d)
    decreases |s|, 0
  {
    WindowLines(s, rest, flag);
    WindowRest(s, rest, flag);
    AlignedWindow(s, rest, flag);
    var front := NonEmpty(Lines(s[..BUFSIZE]));
    d := WindowOrSplit(rest, flag);
    assert Faithful(s, true) <==> Faithful(rest, flag);
    if !Faithful(rest, flag) {
      SplitBehind(front, NonEmpty(Lines(rest)), NonEmpty(WindowPieces(rest, flag)), d);
      d := d.(common := front + d.common);
    }
  }

  lemma WindowLines(s: seq<byte>, rest: seq<byte>, flag: bool)
    requires |s| >= BUFSIZE && flag == (s[BUFSIZE - 1] == LINE_FEED)
    requires rest == if flag then s[BUFSIZE..] else if |s| == BUFSIZE then [] else s[BUFSIZE + 1..]
    requires !flag && |s| > BUFSIZE ==> s[BUFSIZE] == LINE_FEED
    ensures Lines(s) == Lines(s[..BUFSIZE]) + Lines(rest)
  {
    var w := s[..BUFSIZE];
    if flag {
      assert s == w + rest;
      LinesJoin(w, rest);
    } else if |s| == BUFSIZE {
      assert s == w;
    } else {
      assert s == (w + [LINE_FEED]) + rest;
      LinesJoin(w + [LINE_FEED], rest);
      LinesTerminated(w);
    }
  }

  lemma WindowRest(s: seq<byte>, rest: seq<byte>, flag: bool)
    requires |s| >= BUFSIZE && flag == (s[BUFSIZE - 1] == LINE_FEED)
    requires rest == if flag then s[BUFSIZE..] else if |s| == BUFSIZE then [] else s[BUFSIZE + 1..]
    requires !flag && |s| > BUFSIZE ==> s[BUFSIZE] == LINE_FEED
    ensures NonEmpty(WindowPieces(s[BUFSIZE..], flag)) == NonEmpty(WindowPieces(rest, flag))
  {
    if !flag && |s| > BUFSIZE {
      var r := s[BUFSIZE..];
      PiecesStep(r, 0);
      assert r[..0] == [] && r[1..] == rest;
    }
  }

  lemma {:induction false} LinesNulFree(s: seq<byte>)
    requires NulFree(s)
    ensures forall k :: 0 <= k < |NonEmpty(Lines(s))| ==> NulFree(NonEmpty(Lines(s))[k])
    decreases |s|
  {
    var p := FirstIndex(s, LINE_FEED);
    if s != [] {
      if p < |s| {
        LinesNulFree(s[p + 1..]);
        assert NulFree(s[..p]);
      } else {
        assert NonEmpty([s]) == [s];
      }
    }
  }

  // ----- what is printed

  /** Every byte of the file is positive as a plain char. */
  ghost predicate Ascii(s: seq<byte>) { forall k :: 0 <= k < |s| ==> s[k] < 128 }

  /** Grep prints the lines that contain the pattern. */
  ghost predicate Exact(s: seq<byte>, stale: bool, pattern: seq<byte>) {
    Printed(WindowPieces(s, stale), pattern) == Hits(Lines(s), pattern)
  }

  /** For a faithful file it does so for every pattern that starts with a byte below 0x80. */
  lemma FindablePatternsExact(s: seq<byte>, stale: bool, pattern: seq<byte>)
    requires NulFree(s) && Faithful(s, stale) && Findable(pattern)
    ensures Exact(s, stale, pattern)
  {
    var _ := WindowOrSplit(s, stale);
    HitsOfNonEmpty(WindowPieces(s, stale), pattern);
    HitsOfNonEmpty(Lines(s), pattern);
  }

  ghost predicate OnNoLine(lines: seq<seq<byte>>, pattern: seq<byte>) {
    forall k :: 0 <= k < |lines| ==> !Contains(lines[k], pattern)
  }

  lemma {:induction false} NoHits(lines: seq<seq<byte>>, pattern: seq<byte>)
    ensures Hits(lines, pattern) == [] <==> OnNoLine(lines, pattern)
  {
    if lines != [] {
      NoHits(lines[1..], pattern);
      assert forall k :: 1 <= k < |lines| ==> lines[k] == lines[1..][k - 1];
      assert OnNoLine(lines, pattern) <==> !Contains(lines[0], pattern) && OnNoLine(lines[1..], pattern);
    }
  }

  /** For any other pattern it does so exactly when no line contains the pattern, whatever
      the lengths of the lines: it prints nothing. */
  lemma OtherPatternsExactIff(s: seq<byte>, stale: bool, pattern: seq<byte>)
    requires !Findable(pattern)
    ensures Printed(WindowPieces(s, stale), pattern) == []
    ensures Exact(s, stale, pattern) <==> OnNoLine(Lines(s), pattern)
  {
    NoHits(Lines(s), pattern);
    assert Printed(WindowPieces(s, stale), pattern) == [];
  }

  /** The file with the one byte 0xE9 and the pattern of that byte: the line contains the
      pattern and is not printed. */
  lemma SignedByteMissed(stale: bool)
    ensures var s: seq<byte> := [0xE9];
            NulFree(s) && Faithful(s, false) && Hits(Lines(s), s) == [s] && Printed(WindowPieces(s, stale), s) == []
  {
    var s: seq<byte> := [0xE9];
    LinesWhole(s);
    assert MatchAt(s, s, 0);
  }

  /** Each byte of the file but a newline lies on one of its lines. */
  lemma {:induction false} ByteOnLine(s: seq<byte>, k: nat) returns (i: nat)
    requires k < |s| && s[k] != LINE_FEED
    ensures i < |Lines(s)| && s[k] in Lines(s)[i]
    decreases |s|
  {
    var p := FirstIndex(s, LINE_FEED);
    if p == |s| {
      LinesWhole(s);
      i := 0;
    } else {
      LinesStep(s, p);
      if k < p {
        i := 0;
        assert s[..p][k] == s[k];
      } else {
        var j := ByteOnLine(s[p + 1..], k - p - 1);
        i := j + 1;
      }
    }
  }

  /** A byte from 0x80 on is a pattern that is missed. */
  lemma HighByteMissed(s: seq<byte>, stale: bool, k: nat)
    requires k < |s| && s[k] >= 128
    ensures !Exact(s, stale, [s[k]])
  {
    var i := ByteOnLine(s, k);
    var line := Lines(s)[i];
    var at :| 0 <= at < |line| && line[at] == s[k];
    assert line[at..at + 1] == [s[k]];
    assert MatchAt(line, [s[k]], at);
    OtherPatternsExactIff(s, stale, [s[k]]);
  }

  /** In a file of bytes below 0x80 no line contains a pattern that starts higher. */
  lemma AsciiHasNoHighByte(s: seq<byte>, stale: bool, pattern: seq<byte>)
    requires Ascii(s) && !Findable(pattern)
    ensures Exact(s, stale, pattern)
  {
    AsciiLines(s);
    forall k | 0 <= k < |Lines(s)| ensures !Contains(Lines(s)[k], pattern) {
      var line := Lines(s)[k];
      forall at | 0 <= at < |line| && pattern != [] ensures !MatchAt(line, pattern, at) {
        FirstByte(line, pattern, at);
      }
    }
    OtherPatternsExactIff(s, stale, pattern);
  }

  lemma {:induction false} AsciiLines(s: seq<byte>)
    requires Ascii(s)
    ensures forall k :: 0 <= k < |Lines(s)| ==> Ascii(Lines(s)[k])
    decreases |s|
  {
    var p := FirstIndex(s, LINE_FEED);
    if s != [] && p < |s| {
      AsciiLines(s[p + 1..]);
    }
  }

  /** An unfaithful file of such bytes: the first byte of the line that is cut shows it. */
  lemma UnfaithfulShows(s: seq<byte>, stale: bool) returns (pattern: seq<byte>)
    requires NulFree(s) && Ascii(s) && !Faithful(s, stale)
    ensures NulFree(pattern) && !Exact(s, stale, pattern)
  {
    var d := WindowOrSplit(s, stale);
    var pieces, lines := WindowPieces(s, stale), Lines(s);
    LinesNulFree(s);
    NonEmptyAscii(s);
    assert NonEmpty(lines)[|d.common|] == d.whole;
    SplitShows(NonEmpty(lines), NonEmpty(pieces), d);
    pattern := [d.whole[0]];
    HitsOfNonEmpty(pieces, pattern);
    HitsOfNonEmpty(lines, pattern);
  }

  lemma NonEmptyAscii(s: seq<byte>)
    requires Ascii(s)
    ensures forall k :: 0 <= k < |NonEmpty(Lines(s))| ==> Ascii(NonEmpty(Lines(s))[k])
  {
    AsciiLines(s);
    KeepsAscii(Lines(s));
  }

  lemma {:induction false} KeepsAscii(lines: seq<seq<byte>>)
    requires forall k :: 0 <= k < |lines| ==> Ascii(lines[k])
    ensures forall k :: 0 <= k < |NonEmpty(lines)| ==> Ascii(NonEmpty(lines)[k])
  {
    if lines != [] {
      KeepsAscii(lines[1..]);
    }
  }

  /** For a NUL-free file, grep prints exactly the lines that contain the pattern, for
      every pattern, if and only if all bytes are below 0x80, no line exceeds 1024 bytes
      and a stale newline behind the buffer takes effect at the end of a line. */
  lemma GrepPrintsMatchingLinesIff(s: seq<byte>, stale: bool)
    requires NulFree(s)
    ensures (forall pattern | NulFree(pattern) :: Exact(s, stale, pattern)) <==> Faithful(s, stale) && Ascii(s)
  {
    if !Ascii(s) {
      var k :| 0 <= k < |s| && s[k] >= 128;
      HighByteMissed(s, stale, k);
      assert NulFree([s[k]]);
    } else if !Faithful(s, stale) {
      var pattern := UnfaithfulShows(s, stale);
    } else {
      forall pattern ensures Exact(s, stale, pattern) {
        if Findable(pattern) {
          FindablePatternsExact(s, stale, pattern);
        } else {
          AsciiHasNoHighByte(s, stale, pattern);
        }
      }
    }
  }
}
