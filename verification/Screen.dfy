/** One text-mode screen: a 4 KB video page holding 25 rows of 80 (character,
    attribute) cells, and a cursor.  The functions say what one character does to
    a screen; Layout says what a whole text looks like on one. */
module Screen {
  import opened Bytes

  const NUM_COLS := 80
  const NUM_ROWS := 25
  const CELLS := 2000
  const ATTRIB: byte := 7
  const PAGE_SIZE := 4096

  datatype Screen = Screen(page: seq<byte>, x: int, y: int)

  ghost predicate Ok(s: Screen) {
    |s.page| == PAGE_SIZE && 0 <= s.x < NUM_COLS && 0 <= s.y < NUM_ROWS
  }

  predicate BreaksLine(c: byte) {
    c == LINE_FEED || c == CARRIAGE_RETURN
  }

  /** Writes c with the standard attribute in a cell, counted from the top left. */
  function PutCell(page: seq<byte>, cell: int, c: byte): (r: seq<byte>)
    requires |page| == PAGE_SIZE && 0 <= cell < PAGE_SIZE / 2
    ensures |r| == PAGE_SIZE
  {
    page[2 * cell := c][2 * cell + 1 := ATTRIB]
  }

  /** The page moved up by one row, with a blank last row. */
  function Shift(page: seq<byte>): (r: seq<byte>)
    requires |page| == PAGE_SIZE
    ensures |r| == PAGE_SIZE
  {
    seq(PAGE_SIZE, i requires 0 <= i < PAGE_SIZE =>
      if i < 3840 then page[i + 160]
      else if i < 4000 then (if i % 2 == 0 then SPACE else ATTRIB)
      else page[i])
  }

  /** The page with its 2000 visible cells blank; the bytes behind them stay. */
  function Blank(page: seq<byte>): (r: seq<byte>)
    requires |page| == PAGE_SIZE
    ensures |r| == PAGE_SIZE
  {
    seq(PAGE_SIZE, i requires 0 <= i < PAGE_SIZE =>
      if i < 4000 then (if i % 2 == 0 then SPACE else ATTRIB) else page[i])
  }

  function Clear(s: Screen): (r: Screen)
    requires |s.page| == PAGE_SIZE
    ensures Ok(r)
  {
    Screen(Blank(s.page), 0, 0)
  }

  function NextRow(s: Screen): (r: Screen)
    requires Ok(s)
    ensures Ok(r) && r.x == 0
  {
    if s.y == NUM_ROWS - 1 then Screen(Shift(s.page), 0, s.y) else Screen(s.page, 0, s.y + 1)
  }

  function PutChar(s: Screen, c: byte): (r: Screen)
    requires Ok(s)
    ensures Ok(r)
  {
    if BreaksLine(c) then NextRow(s)
    else
      var written := s.(page := PutCell(s.page, NUM_COLS * s.y + s.x, c));
      if s.x == NUM_COLS - 1 then NextRow(written) else written.(x := s.x + 1)
  }

  function Print(s: Screen, text: seq<byte>): (r: Screen)
    requires Ok(s)
    ensures Ok(r)
  {
    if text == [] then s else PutChar(Print(s, text[..|text| - 1]), text[|text| - 1])
  }

  /** Steps the cursor back and blanks the cell it lands on. */
  function RemoveChar(s: Screen): (r: Screen)
    requires Ok(s)
    ensures Ok(r)
  {
    if s.x == 0 && s.y == 0 then s
    else
      var x' := if s.x == 0 then NUM_COLS - 1 else s.x - 1;
      var y' := if s.x == 0 then s.y - 1 else s.y;
      Screen(PutCell(s.page, NUM_COLS * y' + x', SPACE), x', y')
  }

  /** Blanks the cursor cell and the one after it (the undrawn '_' glyph). */
  function EraseCursor(s: Screen): (r: Screen)
    requires Ok(s)
    ensures Ok(r)
  {
    s.(page := PutCell(PutCell(s.page, NUM_COLS * s.y + s.x, SPACE), NUM_COLS * s.y + s.x + 1, SPACE))
  }

  function DrawCursor(s: Screen, on: bool): (r: Screen)
    requires Ok(s)
    ensures Ok(r)
  {
    s.(page := PutCell(s.page, NUM_COLS * s.y + s.x, if on then '_' as int else SPACE))
  }

  function CharAt(page: seq<byte>, row: int, col: int): byte
    requires |page| == PAGE_SIZE && 0 <= row < NUM_ROWS && 0 <= col < NUM_COLS
  {
    page[2 * (NUM_COLS * row + col)]
  }

  function AttribAt(page: seq<byte>, row: int, col: int): byte
    requires |page| == PAGE_SIZE && 0 <= row < NUM_ROWS && 0 <= col < NUM_COLS
  {
    page[2 * (NUM_COLS * row + col) + 1]
  }
}

/** What a text looks like when it is set in rows of 80, and the proof that
    printing it character by character shows its last 25 rows. */
module Layout {
  import opened Bytes
  import opened Screen

  /** A line of n characters fills n/80 rows and starts one more, possibly empty. */
  function Fold(line: seq<byte>): (rows: seq<seq<byte>>)
    ensures rows != []
  {
    if |line| < NUM_COLS then [line] else [line[..NUM_COLS]] + Fold(line[NUM_COLS..])
  }

  function LineEnd(text: seq<byte>): (p: nat)
    ensures p <= |text|
    ensures forall k :: 0 <= k < p ==> !BreaksLine(text[k])
    ensures p < |text| ==> BreaksLine(text[p])
  {
    if text == [] || BreaksLine(text[0]) then 0
    else
      var p := LineEnd(text[1..]);
      assert forall k :: 1 <= k < p + 1 ==> text[k] == text[1..][k - 1];
      p + 1
  }

  /** The rows of a text: its lines, each folded at 80 columns. */
  function Rows(text: seq<byte>): (rows: seq<seq<byte>>)
    ensures rows != []
    decreases |text|
  {
    var p := LineEnd(text);
    if p == |text| then Fold(text) else Fold(text[..p]) + Rows(text[p + 1..])
  }

  function Last<T>(s: seq<T>): T
    requires s != []
  {
    s[|s| - 1]
  }

  /** The rows after one more ordinary character. */
  function Extend(rows: seq<seq<byte>>, c: byte): seq<seq<byte>>
    requires rows != []
  {
    var row := Last(rows) + [c];
    rows[..|rows| - 1] + if |row| == NUM_COLS then [row, []] else [row]
  }

  /** Character col of row k, where the text has one, and a blank elsewhere. */
  function RowChar(rows: seq<seq<byte>>, k: int, col: int): byte
    requires 0 <= k && 0 <= col
  {
    if k < |rows| && col < |rows[k]| then rows[k][col] else SPACE
  }

  function Top(rows: seq<seq<byte>>): int { Max(0, |rows| - NUM_ROWS) }

  ghost predicate ShowsGrid(page: seq<byte>, rows: seq<seq<byte>>)
    requires |page| == PAGE_SIZE
  {
    forall r, c :: 0 <= r < NUM_ROWS && 0 <= c < NUM_COLS ==>
      CharAt(page, r, c) == RowChar(rows, Top(rows) + r, c) && AttribAt(page, r, c) == ATTRIB
  }

  /** The screen shows the last 25 of the rows, padded with blanks, and its cursor
      stands behind the last character. */
  ghost predicate Shows(s: Screen, rows: seq<seq<byte>>)
    requires Ok(s) && rows != []
  {
    s.y == |rows| - 1 - Top(rows) && s.x == |Last(rows)| && ShowsGrid(s.page, rows)
  }

  /** Byte by byte: 25 rows of 80 cells, a character and the attribute 7 in each. */
  ghost predicate OnPage(page: seq<byte>, rows: seq<seq<byte>>) {
    |page| == 4096 && forall r, c :: 0 <= r < 25 && 0 <= c < 80 ==>
      page[160 * r + 2 * c] == RowChar(rows, Max(0, |rows| - 25) + r, c) && page[160 * r + 2 * c + 1] == 7
  }

  lemma ShowsGridIff(page: seq<byte>, rows: seq<seq<byte>>)
    requires |page| == PAGE_SIZE
    ensures ShowsGrid(page, rows) <==> OnPage(page, rows)
  {
    if ShowsGrid(page, rows) {
      forall r, c | 0 <= r < 25 && 0 <= c < 80
        ensures page[160 * r + 2 * c] == RowChar(rows, Max(0, |rows| - 25) + r, c) && page[160 * r + 2 * c + 1] == 7
      {
        assert CharAt(page, r, c) == RowChar(rows, Top(rows) + r, c) && AttribAt(page, r, c) == ATTRIB;
      }
    }
    if OnPage(page, rows) {
      forall r, c | 0 <= r < NUM_ROWS && 0 <= c < NUM_COLS
        ensures CharAt(page, r, c) == RowChar(rows, Top(rows) + r, c) && AttribAt(page, r, c) == ATTRIB
      {
        assert page[160 * r + 2 * c] == RowChar(rows, Max(0, |rows| - 25) + r, c) && page[160 * r + 2 * c + 1] == 7;
      }
    }
  }

  /** Drawing the cursor glyph writes an underscore, undrawing it a space, in the cursor's
      cell and nowhere else. */
  lemma GlyphCell(s: Screen, on: bool)
    requires Ok(s)
    ensures var at := 160 * s.y + 2 * s.x;
            DrawCursor(s, on) == s.(page := s.page[at := if on then '_' as int else ' ' as int][at + 1 := 7])
  {
  }

  /** Undrawing it behind typed text blanks the cursor's cell and the one behind it. */
  lemma ErasedCells(s: Screen)
    requires Ok(s)
    ensures var at := 160 * s.y + 2 * s.x;
            EraseCursor(s) == s.(page := s.page[at := 32][at + 1 := 7][at + 2 := 32][at + 3 := 7])
  {
  }

  lemma {:induction false} FoldEndsShort(line: seq<byte>)
    ensures |Last(Fold(line))| < NUM_COLS
    decreases |line|
  {
    if |line| >= NUM_COLS {
      FoldEndsShort(line[NUM_COLS..]);
    }
  }

  lemma {:induction false} FoldSnoc(line: seq<byte>, c: byte)
    ensures Fold(line + [c]) == Extend(Fold(line), c)
    decreases |line|
  {
    if |line| >= NUM_COLS {
      FoldSnoc(line[NUM_COLS..], c);
      assert (line + [c])[..NUM_COLS] == line[..NUM_COLS];
      assert (line + [c])[NUM_COLS..] == line[NUM_COLS..] + [c];
    } else if |line| == NUM_COLS - 1 {
      assert (line + [c])[..NUM_COLS] == line + [c];
      assert (line + [c])[NUM_COLS..] == [];
    }
  }

  lemma {:induction false} RowsEndShort(text: seq<byte>)
    ensures |Last(Rows(text))| < NUM_COLS
    decreases |text|
  {
    var p := LineEnd(text);
    if p == |text| {
      FoldEndsShort(text);
    } else {
      RowsEndShort(text[p + 1..]);
    }
  }

  lemma LineEndUnique(text: seq<byte>, p: nat)
    requires p <= |text|
    requires forall k :: 0 <= k < p ==> !BreaksLine(text[k])
    requires p < |text| ==> BreaksLine(text[p])
    ensures LineEnd(text) == p
  {
  }

  lemma ExtendTail(front: seq<seq<byte>>, tail: seq<seq<byte>>, c: byte)
    requires tail != []
    ensures front + (tail + [[]]) == front + tail + [[]]
    ensures Extend(front + tail, c) == front + Extend(tail, c)
  {
    assert Last(front + tail) == Last(tail);
    assert (front + tail)[..|front + tail| - 1] == front + tail[..|tail| - 1];
  }

  /** One more character at the end of a text starts a row or extends the last one. */
  lemma {:induction false} RowsSnoc(text: seq<byte>, c: byte)
    ensures Rows(text + [c]) == if BreaksLine(c) then Rows(text) + [[]] else Extend(Rows(text), c)
    decreases |text|
  {
    hide LineEnd, Extend;
    var p := LineEnd(text);
    var longer := text + [c];
    if p < |text| {
      LineEndUnique(longer, p);
      assert longer[..p] == text[..p];
      assert longer[p + 1..] == text[p + 1..] + [c];
      RowsSnoc(text[p + 1..], c);
      ExtendTail(Fold(text[..p]), Rows(text[p + 1..]), c);
    } else if BreaksLine(c) {
      LineEndUnique(longer, p);
      assert longer[..p] == text;
      assert longer[p + 1..] == [];
      LineEndUnique([], 0);
    } else {
      LineEndUnique(longer, p + 1);
      FoldSnoc(text, c);
    }
  }

  lemma PutCellAt(page: seq<byte>, y: int, x: int, c: byte, i: int, j: int)
    requires |page| == PAGE_SIZE && 0 <= y < NUM_ROWS && 0 <= x < NUM_COLS
    requires 0 <= i < NUM_ROWS && 0 <= j < NUM_COLS
    ensures var p' := PutCell(page, NUM_COLS * y + x, c);
      if i == y && j == x then CharAt(p', i, j) == c && AttribAt(p', i, j) == ATTRIB
      else CharAt(p', i, j) == CharAt(page, i, j) && AttribAt(p', i, j) == AttribAt(page, i, j)
  {
  }

  lemma ShiftAt(page: seq<byte>, i: int, j: int)
    requires |page| == PAGE_SIZE && 0 <= i < NUM_ROWS && 0 <= j < NUM_COLS
    ensures var p' := Shift(page);
      if i < NUM_ROWS - 1
      then CharAt(p', i, j) == CharAt(page, i + 1, j) && AttribAt(p', i, j) == AttribAt(page, i + 1, j)
      else CharAt(p', i, j) == SPACE && AttribAt(p', i, j) == ATTRIB
  {
  }

  lemma WriteShows(page: seq<byte>, rows: seq<seq<byte>>, c: byte)
    requires |page| == PAGE_SIZE && rows != [] && ShowsGrid(page, rows) && |Last(rows)| < NUM_COLS
    ensures ShowsGrid(PutCell(page, NUM_COLS * (|rows| - 1 - Top(rows)) + |Last(rows)|, c),
                      rows[..|rows| - 1] + [Last(rows) + [c]])
  {
    var y, x := |rows| - 1 - Top(rows), |Last(rows)|;
    var rows' := rows[..|rows| - 1] + [Last(rows) + [c]];
    var page' := PutCell(page, NUM_COLS * y + x, c);
    forall i, j | 0 <= i < NUM_ROWS && 0 <= j < NUM_COLS
      ensures CharAt(page', i, j) == RowChar(rows', Top(rows') + i, j) && AttribAt(page', i, j) == ATTRIB
    {
      PutCellAt(page, y, x, c, i, j);
      assert CharAt(page, i, j) == RowChar(rows, Top(rows) + i, j);
    }
  }

  lemma NextRowShows(s: Screen, rows: seq<seq<byte>>)
    requires Ok(s) && rows != [] && ShowsGrid(s.page, rows) && s.y == |rows| - 1 - Top(rows)
    ensures Shows(NextRow(s), rows + [[]])
  {
    var rows' := rows + [[]];
    var page' := NextRow(s).page;
    forall i, j | 0 <= i < NUM_ROWS && 0 <= j < NUM_COLS
      ensures CharAt(page', i, j) == RowChar(rows', Top(rows') + i, j) && AttribAt(page', i, j) == ATTRIB
    {
      ShiftAt(s.page, i, j);
      if s.y < NUM_ROWS - 1 {
        assert CharAt(s.page, i, j) == RowChar(rows, Top(rows) + i, j);
      } else if i < NUM_ROWS - 1 {
        assert CharAt(s.page, i + 1, j) == RowChar(rows, Top(rows) + i + 1, j);
      }
    }
  }

  lemma PutCharShows(s: Screen, rows: seq<seq<byte>>, c: byte)
    requires Ok(s) && rows != [] && Shows(s, rows)
    ensures Shows(PutChar(s, c), if BreaksLine(c) then rows + [[]] else Extend(rows, c))
  {
    hide ShowsGrid, PutCell, NextRow;
    if BreaksLine(c) {
      NextRowShows(s, rows);
    } else {
      WriteShows(s.page, rows, c);
      var rows' := rows[..|rows| - 1] + [Last(rows) + [c]];
      if s.x == NUM_COLS - 1 {
        NextRowShows(s.(page := PutCell(s.page, NUM_COLS * s.y + s.x, c)), rows');
        assert rows' + [[]] == Extend(rows, c);
      } else {
        assert rows' == Extend(rows, c);
      }
    }
  }

  /** From a cleared screen, printing any text shows the last 25 rows of the text. */
  lemma {:induction false} PrintShowsText(s: Screen, text: seq<byte>)
    requires |s.page| == PAGE_SIZE
    ensures Shows(Print(Clear(s), text), Rows(text)) && OnPage(Print(Clear(s), text).page, Rows(text))
    decreases |text|
  {
    hide OnPage;
    ShowsGridIff(Print(Clear(s), text).page, Rows(text));
    if text == [] {
      assert Rows(text) == [[]];
    } else {
      var most, c := text[..|text| - 1], text[|text| - 1];
      PrintShowsText(s, most);
      assert most + [c] == text;
      RowsSnoc(most, c);
      PutCharShows(Print(Clear(s), most), Rows(most), c);
    }
  }
}
