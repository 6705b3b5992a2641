/** The 128-byte keyboard line buffer with its index, and the list of typed
    characters it stands for. */
module LineEdit {
  import opened Bytes

  const KEY_BUF_SIZE := 128

  datatype Line = Line(buf: seq<byte>, idx: int)

  ghost predicate Ok(l: Line) {
    |l.buf| == KEY_BUF_SIZE && 0 <= l.idx <= KEY_BUF_SIZE
  }

  /** Nonzero characters, then zeros; a full buffer ends in a newline. */
  ghost predicate WellFormed(l: Line) {
    && Ok(l)
    && (forall k :: 0 <= k < l.idx ==> l.buf[k] != NUL)
    && (forall k :: l.idx <= k < KEY_BUF_SIZE ==> l.buf[k] == NUL)
    && (l.idx == KEY_BUF_SIZE ==> l.buf[KEY_BUF_SIZE - 1] == LINE_FEED)
  }

  function Text(l: Line): seq<byte>
    requires Ok(l)
  {
    l.buf[..l.idx]
  }

  /** The last place is kept for a newline. */
  predicate CanInsert(l: Line, c: byte) {
    l.idx < KEY_BUF_SIZE - 1 || (l.idx == KEY_BUF_SIZE - 1 && c == LINE_FEED)
  }

  function Insert(l: Line, c: byte): (r: Line)
    requires Ok(l)
    ensures Ok(r)
  {
    if CanInsert(l, c) then Line(l.buf[l.idx := c], l.idx + 1) else l
  }

  function Delete(l: Line): (r: Line)
    requires Ok(l)
    ensures Ok(r)
  {
    if l.idx == 0 then l else Line(l.buf[l.idx - 1 := NUL], l.idx - 1)
  }

  function Empty(): (r: Line)
    ensures WellFormed(r) && Text(r) == []
  {
    Line(Zeros(KEY_BUF_SIZE), 0)
  }

  /** A newline stands before the first NUL, so a reader may take the line. */
  predicate Ready(l: Line) {
    FirstIndex(l.buf, LINE_FEED) < FirstIndex(l.buf, NUL)
  }

  /** What a reader asking for n bytes is given. */
  function Taken(l: Line, n: nat): seq<byte>
    requires Ready(l)
  {
    l.buf[..Min(FirstIndex(l.buf, LINE_FEED), n) + 1]
  }

  /** The line of a hidden terminal after its process has halted: the characters
      are wiped, the index is not. */
  function WipedWhileHidden(l: Line): Line {
    Line(Zeros(KEY_BUF_SIZE), l.idx)
  }

  // ----- the buffer is a bounded list of characters

  datatype Edit = Type(c: byte) | Erase

  function Apply(l: Line, e: Edit): (r: Line)
    requires Ok(l)
    ensures Ok(r)
  {
    match e
    case Type(c) => Insert(l, c)
    case Erase => Delete(l)
  }

  function ApplyAll(l: Line, es: seq<Edit>): (r: Line)
    requires Ok(l)
    ensures Ok(r)
    decreases |es|
  {
    if es == [] then l else ApplyAll(Apply(l, es[0]), es[1..])
  }

  function EditText(t: seq<byte>, e: Edit): seq<byte> {
    match e
    case Type(c) => if |t| < 127 || (|t| == 127 && c == LINE_FEED) then t + [c] else t
    case Erase => if t == [] then t else t[..|t| - 1]
  }

  function EditAll(t: seq<byte>, es: seq<Edit>): seq<byte>
    decreases |es|
  {
    if es == [] then t else EditAll(EditText(t, es[0]), es[1..])
  }

  ghost predicate NoNul(es: seq<Edit>) {
    forall k :: 0 <= k < |es| && es[k].Type? ==> es[k].c != NUL
  }

  lemma {:induction false} EditsRefineList(l: Line, es: seq<Edit>)
    requires WellFormed(l) && NoNul(es)
    ensures WellFormed(ApplyAll(l, es))
    ensures Text(ApplyAll(l, es)) == EditAll(Text(l), es)
    decreases |es|
  {
    if es != [] {
      assert Text(Apply(l, es[0])) == EditText(Text(l), es[0]);
      EditsRefineList(Apply(l, es[0]), es[1..]);
    }
  }

  lemma {:induction false} EditAllConcat(t: seq<byte>, a: seq<Edit>, b: seq<Edit>)
    ensures EditAll(t, a + b) == EditAll(EditAll(t, a), b)
    decreases |a|
  {
    if a == [] {
      assert a + b == b;
    } else {
      assert (a + b)[1..] == a[1..] + b;
      EditAllConcat(EditText(t, a[0]), a[1..], b);
    }
  }

  /** A well-formed line is ready exactly when a newline is on it. */
  lemma ReadyIff(l: Line)
    requires WellFormed(l)
    ensures Ready(l) <==> LINE_FEED in Text(l)
  {
    assert forall k :: 0 <= k < l.idx ==> l.buf[k] == Text(l)[k];
    if LINE_FEED in Text(l) {
      TakenIsTypedLine(l, 0);
    }
  }

  /** As long as no newline has been typed there are at most 127 characters, and
      the newline fits. */
  lemma NewlineAlwaysFits(l: Line)
    requires WellFormed(l) && LINE_FEED !in Text(l)
    ensures |Text(l)| <= KEY_BUF_SIZE - 1 && CanInsert(l, LINE_FEED)
    ensures Ready(Insert(l, LINE_FEED))
    ensures Taken(Insert(l, LINE_FEED), KEY_BUF_SIZE) == Text(l) + [LINE_FEED]
  {
    assert forall k :: 0 <= k < l.idx ==> l.buf[k] == Text(l)[k] && l.buf[k] != LINE_FEED;
    var l' := Insert(l, LINE_FEED);
    assert l'.buf[l.idx] == LINE_FEED && forall k :: 0 <= k < l.idx ==> l'.buf[k] == l.buf[k];
    assert FirstIndex(l'.buf, LINE_FEED) == l.idx < FirstIndex(l'.buf, NUL);
  }

  /** A reader is given the typed text through its first newline exactly when its
      buffer size reaches that newline; it is given no more bytes than it asked
      for exactly when the newline lies before that size. */
  lemma TakenIsTypedLine(l: Line, n: nat)
    requires WellFormed(l) && LINE_FEED in Text(l)
    ensures Ready(l)
    ensures var p := FirstIndex(Text(l), LINE_FEED);
      && (Taken(l, n) == Text(l)[..p + 1] <==> p <= n)
      && (|Taken(l, n)| <= n <==> p < n)
      && LINE_FEED !in Text(l)[..p]
  {
    var p, q := FirstIndex(Text(l), LINE_FEED), FirstIndex(l.buf, LINE_FEED);
    var k :| 0 <= k < l.idx && Text(l)[k] == LINE_FEED;
    assert l.buf[k] == LINE_FEED;
    assert q <= k && p <= k;
    assert l.buf[p] == Text(l)[p] && l.buf[q] == Text(l)[q];
    assert p == q;
    assert l.buf[..p + 1] == Text(l)[..p + 1];
  }

  /** Wiping a hidden terminal's line leaves a usable line exactly when that line
      was already empty. */
  lemma WipeKeepsLineIff(l: Line)
    requires WellFormed(l)
    ensures WellFormed(WipedWhileHidden(l)) <==> l.idx == 0
  {
    if l.idx > 0 {
      assert WipedWhileHidden(l).buf[0] == NUL;
    }
  }

  /** The text of a wiped line stands behind NULs: zeros at the front and from idx on. */
  ghost predicate Stuck(l: Line) {
    && Ok(l) && l.idx > 0 && l.buf[0] == NUL
    && forall k :: l.idx <= k < KEY_BUF_SIZE ==> l.buf[k] == NUL
  }

  /** Every shorter part of the edits leaves something to erase. */
  ghost predicate NeverEmptied(l: Line, es: seq<Edit>)
    requires Ok(l)
    decreases |es|
  {
    es == [] || (l.idx > 0 && NeverEmptied(Apply(l, es[0]), es[1..]))
  }

  /** ... and otherwise, whatever is typed and erased, no reader gets a line before the
      wiped characters have been erased one by one; the line is then empty and usable. */
  lemma {:induction false} StuckUntilErased(l: Line, es: seq<Edit>)
    requires Stuck(l) && NeverEmptied(l, es)
    ensures var r := ApplyAll(l, es); if r.idx == 0 then r == Empty() else Stuck(r) && !Ready(r)
    decreases |es|
  {
    if es != [] {
      var next := Apply(l, es[0]);
      if next.idx == 0 {
        assert next.buf == Zeros(KEY_BUF_SIZE);
      } else {
        StuckUntilErased(next, es[1..]);
      }
    }
  }

  /** A wipe of a well-formed line that is not empty leads into that state. */
  lemma WipeSticksIff(l: Line)
    requires WellFormed(l)
    ensures Stuck(WipedWhileHidden(l)) <==> l.idx > 0
    ensures WipedWhileHidden(l) == Empty() <==> l.idx == 0
  {
  }

  function Erases(n: nat): seq<Edit> { seq(n, _ => Erase) }

  /** The way out: one backspace for each wiped character, and the next line is read. */
  lemma {:induction false} ErasingRecovers(l: Line)
    requires Ok(l) && l.buf == Zeros(KEY_BUF_SIZE)
    ensures ApplyAll(l, Erases(l.idx)) == Empty() && Ready(Apply(Empty(), Type(LINE_FEED)))
    decreases l.idx
  {
    if l.idx > 0 {
      var next := Apply(l, Erase);
      assert next.buf == Zeros(KEY_BUF_SIZE);
      assert Erases(l.idx)[1..] == Erases(next.idx);
      ErasingRecovers(next);
    }
    assert Apply(Empty(), Type(LINE_FEED)).buf[0] == LINE_FEED;
  }
}
