/** How fish merges two text frames: add_frames reads both files a byte at a time and
    adds a blinking character wherever either frame has one. */
module Frames {
  import opened Bytes
  import opened UserFile

  const COLUMNS := 80
  const OFFSET := 40
  const LENGTH := 15

  /** The arguments of one RTC_ADD. */
  datatype Request = Request(location: nat, on: byte, off: byte, onLength: nat, offLength: nat)

  // ----- what is meant: two texts, side by side

  /** The rows of a text; a newline at its end starts an empty last row. */
  function Rows(s: seq<byte>): (rows: seq<seq<byte>>)
    ensures rows != []
    decreases |s|
  {
    var p := FirstIndex(s, LINE_FEED);
    if p == |s| then [s] else [s[..p]] + Rows(s[p + 1..])
  }

  /** The rows with a newline between each two. */
  function Joined(rows: seq<seq<byte>>): seq<byte> {
    if rows == [] then [] else if |rows| == 1 then rows[0] else rows[0] + ([LINE_FEED] + Joined(rows[1..]))
  }

  /** The rows of a text hold no newline, and joined by newlines they are the text. */
  lemma {:induction false} RowsJoin(s: seq<byte>)
    ensures Joined(Rows(s)) == s && forall k :: 0 <= k < |Rows(s)| ==> LINE_FEED !in Rows(s)[k]
    decreases |s|
  {
    var p := FirstIndex(s, LINE_FEED);
    if p < |s| {
      RowsJoin(s[p + 1..]);
      assert Rows(s)[1..] == Rows(s[p + 1..]);
      assert s == s[..p] + ([LINE_FEED] + s[p + 1..]);
    }
  }

  /** The character at a position, with every row and every text padded with spaces. */
  function CharAt(rows: seq<seq<byte>>, r: nat, c: nat): byte {
    if r < |rows| then Padded(rows[r], c) else SPACE
  }

  function Padded(row: seq<byte>, c: nat): byte { if c < |row| then row[c] else SPACE }

  datatype Cell = Cell(row: nat, col: nat, on: byte, off: byte)

  ghost predicate Before(a: Cell, b: Cell) { a.row < b.row || (a.row == b.row && a.col < b.col) }

  /** Exactly the positions where either text shows something, each with both
      characters, in row-major order and once each. */
  ghost predicate Merges(cells: seq<Cell>, a: seq<seq<byte>>, b: seq<seq<byte>>) {
    (forall r: nat, c: nat ::
       (CharAt(a, r, c) != SPACE || CharAt(b, r, c) != SPACE)
       <==> Cell(r, c, CharAt(a, r, c), CharAt(b, r, c)) in cells) &&
    (forall k :: 0 <= k < |cells| ==>
       cells[k].on == CharAt(a, cells[k].row, cells[k].col) && cells[k].off == CharAt(b, cells[k].row, cells[k].col)) &&
    (forall i, j :: 0 <= i < j < |cells| ==> Before(cells[i], cells[j]))
  }

  /** The structure passed for a cell; its location field has 16 bits. */
  function AsRequest(cell: Cell): Request {
    Request((cell.row * COLUMNS + cell.col + OFFSET) % 0x10000, cell.on, cell.off, LENGTH, LENGTH)
  }

  function Requests(cells: seq<Cell>): seq<Request> {
    seq(|cells|, k requires 0 <= k < |cells| => AsRequest(cells[k]))
  }

  // ----- the order in which the loops visit the positions

  function CellAt(a: seq<byte>, b: seq<byte>, r: nat, c: nat): seq<Cell> {
    if Padded(a, c) != SPACE || Padded(b, c) != SPACE then [Cell(r, c, Padded(a, c), Padded(b, c))] else []
  }

  function RowFrom(a: seq<byte>, b: seq<byte>, r: nat, c: nat): seq<Cell>
    decreases Max(|a|, |b|) - c
  {
    if c >= |a| && c >= |b| then [] else CellAt(a, b, r, c) + RowFrom(a, b, r, c + 1)
  }

  function Head(rows: seq<seq<byte>>): seq<byte> { if rows == [] then [] else rows[0] }

  function Tail(rows: seq<seq<byte>>): seq<seq<byte>> { if rows == [] then [] else rows[1..] }

  function CellsFrom(a: seq<seq<byte>>, b: seq<seq<byte>>, r: nat): seq<Cell>
    decreases |a| + |b|
  {
    if a == [] && b == [] then [] else RowFrom(Head(a), Head(b), r, 0) + CellsFrom(Tail(a), Tail(b), r + 1)
  }

  lemma {:induction false} RowFromExact(a: seq<byte>, b: seq<byte>, r: nat, c: nat)
    ensures forall k :: 0 <= k < |RowFrom(a, b, r, c)| ==>
      var cell := RowFrom(a, b, r, c)[k];
      cell.row == r && cell.col >= c && cell.on == Padded(a, cell.col) && cell.off == Padded(b, cell.col) &&
      (cell.on != SPACE || cell.off != SPACE)
    ensures forall x: nat :: x >= c && (Padded(a, x) != SPACE || Padded(b, x) != SPACE) ==>
      Cell(r, x, Padded(a, x), Padded(b, x)) in RowFrom(a, b, r, c)
    ensures forall i, j :: 0 <= i < j < |RowFrom(a, b, r, c)| ==> Before(RowFrom(a, b, r, c)[i], RowFrom(a, b, r, c)[j])
    decreases Max(|a|, |b|) - c
  {
    if c < |a| || c < |b| {
      RowFromExact(a, b, r, c + 1);
    }
  }

  /** The same for the rows from r on, of texts whose first rows are a[0] and b[0]. */
  ghost predicate Exact(cells: seq<Cell>, a: seq<seq<byte>>, b: seq<seq<byte>>, r: nat) {
    (forall k :: 0 <= k < |cells| ==> cells[k].row >= r && Genuine(cells[k], a, b, r)) &&
    (forall x: nat, c: nat :: CharAt(a, x, c) != SPACE || CharAt(b, x, c) != SPACE ==>
       Cell(r + x, c, CharAt(a, x, c), CharAt(b, x, c)) in cells) &&
    (forall i, j :: 0 <= i < j < |cells| ==> Before(cells[i], cells[j]))
  }

  ghost predicate Genuine(cell: Cell, a: seq<seq<byte>>, b: seq<seq<byte>>, r: nat)
    requires cell.row >= r
  {
    cell.on == CharAt(a, cell.row - r, cell.col) && cell.off == CharAt(b, cell.row - r, cell.col) &&
    (cell.on != SPACE || cell.off != SPACE)
  }

  lemma ExactStep(front: seq<Cell>, rest: seq<Cell>, a: seq<seq<byte>>, b: seq<seq<byte>>, r: nat)
    requires front == RowFrom(Head(a), Head(b), r, 0) && Exact(rest, Tail(a), Tail(b), r + 1)
    ensures Exact(front + rest, a, b, r)
  {
    RowFromExact(Head(a), Head(b), r, 0);
    var cells := front + rest;
    forall k | 0 <= k < |cells| ensures cells[k].row >= r && Genuine(cells[k], a, b, r) {
      if k >= |front| {
        assert cells[k] == rest[k - |front|];
      }
    }
    forall x: nat, c: nat | CharAt(a, x, c) != SPACE || CharAt(b, x, c) != SPACE
      ensures Cell(r + x, c, CharAt(a, x, c), CharAt(b, x, c)) in cells
    {
      if x == 0 {
        assert CharAt(a, 0, c) == Padded(Head(a), c) && CharAt(b, 0, c) == Padded(Head(b), c);
      } else {
        assert CharAt(a, x, c) == CharAt(Tail(a), x - 1, c) && CharAt(b, x, c) == CharAt(Tail(b), x - 1, c);
        assert Cell(r + 1 + (x - 1), c, CharAt(Tail(a), x - 1, c), CharAt(Tail(b), x - 1, c)) in rest;
      }
    }
  }

  lemma {:induction false} CellsFromExact(a: seq<seq<byte>>, b: seq<seq<byte>>, r: nat)
    ensures Exact(CellsFrom(a, b, r), a, b, r)
    decreases |a| + |b|
  {
    if a != [] || b != [] {
      CellsFromExact(Tail(a), Tail(b), r + 1);
      ExactStep(RowFrom(Head(a), Head(b), r, 0), CellsFrom(Tail(a), Tail(b), r + 1), a, b, r);
    }
  }

  /** The loops visit exactly the positions where either frame shows something. */
  lemma CellsMerge(a: seq<seq<byte>>, b: seq<seq<byte>>)
    ensures Merges(CellsFrom(a, b, 0), a, b)
  {
    CellsFromExact(a, b, 0);
    var cells := CellsFrom(a, b, 0);
    forall r: nat, c: nat | Cell(r, c, CharAt(a, r, c), CharAt(b, r, c)) in cells
      ensures CharAt(a, r, c) != SPACE || CharAt(b, r, c) != SPACE
    {
      var k :| 0 <= k < |cells| && cells[k] == Cell(r, c, CharAt(a, r, c), CharAt(b, r, c));
      assert Genuine(cells[k], a, b, 0);
    }
    forall r: nat, c: nat | CharAt(a, r, c) != SPACE || CharAt(b, r, c) != SPACE
      ensures Cell(r, c, CharAt(a, r, c), CharAt(b, r, c)) in cells
    {
      assert Cell(0 + r, c, CharAt(a, r, c), CharAt(b, r, c)) in cells;
    }
  }

  // ----- the loops

  /** Where the reading of one file stands: c is the last character read, row the row
      being read up to column col, tail what follows it. */
  ghost predicate Reading(rest: seq<byte>, c: byte, eof: bool, row: seq<byte>, tail: seq<byte>, col: nat) {
    if c != LINE_FEED then !eof && col <= |row| && rest == row[col..] + tail
    else col >= |row| && eof == (tail == []) && rest == Behind(tail)
  }

  /** A row holds no newline, and only a newline or the end of file ends it. */
  ghost predicate RowEnd(row: seq<byte>, tail: seq<byte>) {
    LINE_FEED !in row && (tail != [] ==> tail[0] == LINE_FEED)
  }

  function Behind(tail: seq<byte>): seq<byte> { if tail == [] then [] else tail[1..] }

  lemma ReadNext(rest: seq<byte>, row: seq<byte>, tail: seq<byte>, col: nat)
    requires col <= |row| && rest == row[col..] + tail && RowEnd(row, tail)
    ensures rest == [] ==> col == |row| && tail == []
    ensures rest != [] && rest[0] == LINE_FEED ==> col == |row| && rest == tail
    ensures rest != [] && rest[0] != LINE_FEED ==>
      col < |row| && row[col] == rest[0] && rest[1..] == row[col + 1..] + tail
  {
    if col < |row| {
      assert rest[0] == row[col] && row[col] in row;
      assert row[col..] == [row[col]] + row[col + 1..];
    }
  }

  /** The part of the inner loop that serves one file. */
  method Fetch(f: Stream, c: byte, eof: bool, ghost row: seq<byte>, ghost tail: seq<byte>, ghost col: nat)
    returns (c': byte, eof': bool)
    requires f.Valid() && Reading(f.content[f.pos..], c, eof, row, tail, col) && RowEnd(row, tail)
    modifies f
    ensures f.Valid() && Reading(f.content[f.pos..], c', eof', row, tail, col + 1)
    ensures c' == if col < |row| then row[col] else LINE_FEED
  {
    c', eof' := c, eof;
    if c != LINE_FEED {
      ghost var rest := f.content[f.pos..];
      ReadNext(rest, row, tail, col);
      var cnt;
      cnt, c' := f.ReadByte(c);
      if cnt == 0 {
        c', eof' := LINE_FEED, true;
      } else {
        assert rest[1..] == f.content[f.pos..];
      }
    }
  }

  /** What the inner loop asks for at one column; a finished row counts as spaces. */
  method AddCell(d0: byte, d1: byte, row: nat, col: nat, ghost x: seq<byte>, ghost y: seq<byte>)
    returns (issued: seq<Request>)
    requires d0 == (if col < |x| then x[col] else LINE_FEED) && d1 == (if col < |y| then y[col] else LINE_FEED)
    requires LINE_FEED !in x && LINE_FEED !in y
    ensures issued == Requests(CellAt(x, y, row, col))
  {
    issued := [];
    if (d0 != SPACE && d0 != LINE_FEED) || (d1 != SPACE && d1 != LINE_FEED) {
      var on := if d0 == LINE_FEED then SPACE else d0;
      var off := if d1 == LINE_FEED then SPACE else d1;
      issued := [Request((row * COLUMNS + col + OFFSET) % 0x10000, on, off, LENGTH, LENGTH)];
    }
  }

  lemma RowStep(issued: seq<Request>, more: seq<Request>, x: seq<byte>, y: seq<byte>, row: nat, col: nat)
    requires issued + Requests(RowFrom(x, y, row, col)) == Requests(RowFrom(x, y, row, 0))
    requires more == Requests(CellAt(x, y, row, col)) && (col < |x| || col < |y|)
    ensures issued + more + Requests(RowFrom(x, y, row, col + 1)) == Requests(RowFrom(x, y, row, 0))
  {
    RequestsConcat(CellAt(x, y, row, col), RowFrom(x, y, row, col + 1));
    assert issued + more + Requests(RowFrom(x, y, row, col + 1))
        == issued + (more + Requests(RowFrom(x, y, row, col + 1)));
  }

  /** One row of both files: the inner loop, down to both line ends. */
  method AddRow(f0: Stream, f1: Stream, c0: byte, c1: byte, eof0: bool, eof1: bool, row: nat,
                ghost x: seq<byte>, ghost y: seq<byte>, ghost tail0: seq<byte>, ghost tail1: seq<byte>)
    returns (issued: seq<Request>, eof0': bool, eof1': bool)
    requires f0 != f1 && f0.Valid() && f1.Valid() && RowEnd(x, tail0) && RowEnd(y, tail1)
    requires Reading(f0.content[f0.pos..], c0, eof0, x, tail0, 0)
    requires Reading(f1.content[f1.pos..], c1, eof1, y, tail1, 0)
    modifies f0, f1
    ensures f0.Valid() && f0.content[f0.pos..] == Behind(tail0) && eof0' == (tail0 == [])
    ensures f1.Valid() && f1.content[f1.pos..] == Behind(tail1) && eof1' == (tail1 == [])
    ensures issued == Requests(RowFrom(x, y, row, 0))
  {
    hide CellAt;
    var col, d0, d1 := 0, c0, c1;
    issued, eof0', eof1' := [], eof0, eof1;
    while true
      invariant f0.Valid() && Reading(f0.content[f0.pos..], d0, eof0', x, tail0, col)
      invariant f1.Valid() && Reading(f1.content[f1.pos..], d1, eof1', y, tail1, col)
      invariant issued + Requests(RowFrom(x, y, row, col)) == Requests(RowFrom(x, y, row, 0))
      decreases Max(|x|, |y|) - col
    {
      d0, eof0' := Fetch(f0, d0, eof0', x, tail0, col);
      d1, eof1' := Fetch(f1, d1, eof1', y, tail1, col);
      if d0 == LINE_FEED && d1 == LINE_FEED {
        break;
      }
      var more := AddCell(d0, d1, row, col, x, y);
      RowStep(issued, more, x, y, row, col);
      issued := issued + more;
      col := col + 1;
    }
  }

  lemma RequestsConcat(x: seq<Cell>, y: seq<Cell>)
    ensures Requests(x + y) == Requests(x) + Requests(y)
  {
  }

  /** The rows of a file that are still to be read. */
  ghost function Left(rest: seq<byte>, eof: bool): seq<seq<byte>> {
    if eof then [] else Rows(rest)
  }

  function FirstRow(rest: seq<byte>, eof: bool): seq<byte> {
    if eof then [] else rest[..FirstIndex(rest, LINE_FEED)]
  }

  function FirstTail(rest: seq<byte>, eof: bool): seq<byte> {
    if eof then [] else rest[FirstIndex(rest, LINE_FEED)..]
  }

  /** A row begins: its first row and what follows. */
  lemma RowBegins(rest: seq<byte>, eof: bool, c: byte)
    requires c == (if eof then LINE_FEED else '0' as int) && (eof ==> rest == [])
    ensures RowEnd(FirstRow(rest, eof), FirstTail(rest, eof))
    ensures Reading(rest, c, eof, FirstRow(rest, eof), FirstTail(rest, eof), 0)
    ensures Head(Left(rest, eof)) == FirstRow(rest, eof)
    ensures Tail(Left(rest, eof)) == Left(Behind(FirstTail(rest, eof)), FirstTail(rest, eof) == [])
  {
    if !eof {
      var p := FirstIndex(rest, LINE_FEED);
      assert rest == rest[..p] + rest[p..];
      assert p == |rest| ==> rest[..p] == rest;
      assert p < |rest| ==> rest[p..][1..] == rest[p + 1..];
    }
  }

  lemma CellsStep(issued: seq<Request>, more: seq<Request>, a: seq<seq<byte>>, b: seq<seq<byte>>, row: nat,
                  all: seq<Request>)
    requires issued + Requests(CellsFrom(a, b, row)) == all && (a != [] || b != [])
    requires more == Requests(RowFrom(Head(a), Head(b), row, 0))
    ensures issued + more + Requests(CellsFrom(Tail(a), Tail(b), row + 1)) == all
  {
    var rest := CellsFrom(Tail(a), Tail(b), row + 1);
    RequestsConcat(RowFrom(Head(a), Head(b), row, 0), rest);
    assert issued + more + Requests(rest) == issued + (more + Requests(rest));
  }

  /** Reads two files to their ends and asks for exactly the merged cells, in order. */
  method AddFrames(f0: Stream, f1: Stream) returns (issued: seq<Request>, ghost cells: seq<Cell>)
    requires f0 != f1 && f0.Valid() && f1.Valid() && f0.pos == 0 && f1.pos == 0
    modifies f0, f1
    ensures issued == Requests(cells) && Merges(cells, Rows(f0.content), Rows(f1.content))
  {
    assert f0.content[0..] == f0.content && f1.content[0..] == f1.content;
    ghost var a, b := Rows(f0.content), Rows(f1.content);
    cells := CellsFrom(a, b, 0);
    CellsMerge(a, b);
    var row, eof0, eof1, c0, c1 := 0, false, false, '0' as int, '0' as int;
    issued := [];
    while !eof0 || !eof1
      invariant f0.Valid() && a == Left(f0.content[f0.pos..], eof0) && (eof0 ==> f0.content[f0.pos..] == [])
      invariant f1.Valid() && b == Left(f1.content[f1.pos..], eof1) && (eof1 ==> f1.content[f1.pos..] == [])
      invariant c0 == (if eof0 then LINE_FEED else '0' as int) && c1 == (if eof1 then LINE_FEED else '0' as int)
      invariant issued + Requests(CellsFrom(a, b, row)) == Requests(cells)
      decreases |a| + |b|
    {
      var more;
      more, eof0, eof1 := NextRow(f0, f1, c0, c1, eof0, eof1, row);
      CellsStep(issued, more, a, b, row, Requests(cells));
      issued := issued + more;
      c0 := if eof0 then LINE_FEED else '0' as int;
      c1 := if eof1 then LINE_FEED else '0' as int;
      a, b, row := Tail(a), Tail(b), row + 1;
    }
  }

  method NextRow(f0: Stream, f1: Stream, c0: byte, c1: byte, eof0: bool, eof1: bool, row: nat)
    returns (issued: seq<Request>, eof0': bool, eof1': bool)
    requires f0 != f1 && f0.Valid() && f1.Valid()
    requires c0 == (if eof0 then LINE_FEED else '0' as int) && (eof0 ==> f0.content[f0.pos..] == [])
    requires c1 == (if eof1 then LINE_FEED else '0' as int) && (eof1 ==> f1.content[f1.pos..] == [])
    modifies f0, f1
    ensures f0.Valid() && Left(f0.content[f0.pos..], eof0') == Tail(old(Left(f0.content[f0.pos..], eof0)))
    ensures f1.Valid() && Left(f1.content[f1.pos..], eof1') == Tail(old(Left(f1.content[f1.pos..], eof1)))
    ensures (eof0' ==> f0.content[f0.pos..] == []) && (eof1' ==> f1.content[f1.pos..] == [])
    ensures issued == Requests(RowFrom(Head(old(Left(f0.content[f0.pos..], eof0))),
                                       Head(old(Left(f1.content[f1.pos..], eof1))), row, 0))
  {
    ghost var rest0, rest1 := f0.content[f0.pos..], f1.content[f1.pos..];
    RowBegins(rest0, eof0, c0);
    RowBegins(rest1, eof1, c1);
    issued, eof0', eof1' := AddRow(f0, f1, c0, c1, eof0, eof1, row, FirstRow(rest0, eof0), FirstRow(rest1, eof1),
      FirstTail(rest0, eof0), FirstTail(rest1, eof1));
  }
}
