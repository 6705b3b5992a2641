/** What is seen on one console of the multiplexer, over whole runs: program output and
    echoed typing, set as one text, and what a backspace takes back. */
module Typing {
  import opened Bytes
  import opened Consoles
  import Screen
  import Layout
  import LineEdit

  ghost predicate ShowsText(s: Screen.Screen, text: seq<byte>) {
    Screen.Ok(s) && Layout.Shows(s, Layout.Rows(text))
  }

  lemma PutShows(s: Screen.Screen, text: seq<byte>, c: byte)
    requires ShowsText(s, text)
    ensures ShowsText(Screen.PutChar(s, c), text + [c])
  {
    Layout.RowsSnoc(text, c);
    Layout.PutCharShows(s, Layout.Rows(text), c);
  }

  lemma {:induction false} PrintShows(s: Screen.Screen, text: seq<byte>, more: seq<byte>)
    requires ShowsText(s, text)
    ensures ShowsText(Screen.Print(s, more), text + more)
    decreases |more|
  {
    if more == [] {
      assert text + more == text;
    } else {
      var most, c := more[..|more| - 1], more[|more| - 1];
      PrintShows(s, text, most);
      PutShows(Screen.Print(s, most), text + most, c);
      assert text + more == text + most + [c];
    }
  }

  /** Behind the text the screen is blank, so undrawing the cursor glyph changes nothing. */
  lemma EraseShows(s: Screen.Screen, text: seq<byte>)
    requires ShowsText(s, text)
    ensures ShowsText(Screen.EraseCursor(s), text)
  {
    var rows, top := Layout.Rows(text), Layout.Top(Layout.Rows(text));
    var page, page' := s.page, Screen.EraseCursor(s).page;
    forall r, c | 0 <= r < Screen.NUM_ROWS && 0 <= c < Screen.NUM_COLS
      ensures Screen.CharAt(page', r, c) == Layout.RowChar(rows, top + r, c)
      ensures Screen.AttribAt(page', r, c) == Screen.ATTRIB
    {
      assert Screen.CharAt(page, r, c) == Layout.RowChar(rows, top + r, c);
      assert Screen.AttribAt(page, r, c) == Screen.ATTRIB;
      if r == s.y && (c == s.x || c == s.x + 1) {
        assert Layout.RowChar(rows, top + r, c) == SPACE;
      } else if r == s.y + 1 && c == 0 {
        assert Layout.RowChar(rows, top + r, c) == SPACE;
      }
    }
  }

  // ----- backspace on a text

  /** The last character of the text is on the screen and no row was lost behind it. */
  predicate CanTakeBack(text: seq<byte>) {
    text != [] && !Screen.BreaksLine(text[|text| - 1]) &&
    !(Layout.Last(Layout.Rows(text)) == [] && |Layout.Rows(text)| > Screen.NUM_ROWS)
  }

  /** Rows with the same characters but for one place. */
  ghost predicate SameBut(rows: seq<seq<byte>>, rows': seq<seq<byte>>, y: int, x: int) {
    forall r, c :: 0 <= r && 0 <= c && (r != y || c != x) ==>
      Layout.RowChar(rows, r, c) == Layout.RowChar(rows', r, c)
  }

  lemma ExtendAddsOne(rows: seq<seq<byte>>, c: byte)
    requires rows != []
    ensures SameBut(rows, Layout.Extend(rows, c), |rows| - 1, |Layout.Last(rows)|)
    ensures Layout.RowChar(rows, |rows| - 1, |Layout.Last(rows)|) == SPACE
  {
    var rows' := Layout.Extend(rows, c);
    assert rows'[|rows| - 1] == Layout.Last(rows) + [c];
    assert |rows'| > |rows| ==> rows'[|rows|] == [];
    assert forall k :: 0 <= k < |rows| - 1 ==> rows'[k] == rows[k];
  }

  lemma RemovedCell(page: seq<byte>, x: int, y: int, rows: seq<seq<byte>>, rows': seq<seq<byte>>)
    requires |page| == Screen.PAGE_SIZE && 0 <= x < Screen.NUM_COLS && 0 <= y < Screen.NUM_ROWS
    requires Layout.ShowsGrid(page, rows') && Layout.Top(rows) == Layout.Top(rows')
    requires Layout.RowChar(rows, Layout.Top(rows) + y, x) == SPACE
    requires SameBut(rows, rows', Layout.Top(rows) + y, x)
    ensures Layout.ShowsGrid(Screen.PutCell(page, Screen.NUM_COLS * y + x, SPACE), rows)
  {
    var page' := Screen.PutCell(page, Screen.NUM_COLS * y + x, SPACE);
    forall i, j | 0 <= i < Screen.NUM_ROWS && 0 <= j < Screen.NUM_COLS
      ensures Screen.CharAt(page', i, j) == Layout.RowChar(rows, Layout.Top(rows) + i, j)
      ensures Screen.AttribAt(page', i, j) == Screen.ATTRIB
    {
      Layout.PutCellAt(page, y, x, SPACE, i, j);
      assert Screen.CharAt(page, i, j) == Layout.RowChar(rows', Layout.Top(rows') + i, j);
      assert i != y || j != x ==>
        Layout.RowChar(rows, Layout.Top(rows) + i, j) == Layout.RowChar(rows', Layout.Top(rows) + i, j);
    }
  }

  lemma TakeBackRow(s: Screen.Screen, rows: seq<seq<byte>>, c: byte)
    requires Screen.Ok(s) && rows != [] && |Layout.Last(rows)| < Screen.NUM_COLS
    requires var rows' := Layout.Extend(rows, c);
             Layout.Shows(s, rows') && !(Layout.Last(rows') == [] && |rows'| > Screen.NUM_ROWS)
    ensures Layout.Shows(Screen.RemoveChar(s), rows)
  {
    var rows' := Layout.Extend(rows, c);
    var x, y := |Layout.Last(rows)|, |rows| - 1 - Layout.Top(rows);
    assert Layout.Top(rows) == Layout.Top(rows');
    ExtendAddsOne(rows, c);
    RemovedCell(s.page, x, y, rows, rows');
    assert Screen.RemoveChar(s) == Screen.Screen(Screen.PutCell(s.page, Screen.NUM_COLS * y + x, SPACE), x, y);
  }

  /** Removing a character from a screen that shows a text leaves the text without it. */
  lemma TakeBackShows(s: Screen.Screen, text: seq<byte>)
    requires ShowsText(s, text) && CanTakeBack(text)
    ensures ShowsText(Screen.RemoveChar(s), text[..|text| - 1])
  {
    var u, c := text[..|text| - 1], text[|text| - 1];
    assert text == u + [c];
    Layout.RowsSnoc(u, c);
    Layout.RowsEndShort(u);
    TakeBackRow(s, Layout.Rows(u), c);
  }

  // ----- a whole run of one console

  /** A backspace that has a character to erase. */
  predicate Erases(con: Con, k: KeyState) { !k.ctrl && k.ascii == NUL && k.backspace && con.line.idx > 0 }

  /** After which actions a screen with this text shows a text again: all but drawing the
      cursor glyph, and a backspace when the text does not end in an ordinary character
      that is still on the screen. */
  predicate Follows(con: Con, a: Action, text: seq<byte>) {
    match a
    case PressOne(k) => Erases(con, k) ==> CanTakeBack(text)
    case Glyph(on) => !on
    case _ => true
  }

  predicate Clears(k: KeyState) { k.ctrl && (k.ascii == 'l' as int || k.ascii == 'L' as int) }

  /** The text after an action: output and accepted keys are added, with Ctrl also keys
      that the line refuses; a tab adds the blanks that fit, a backspace takes the last
      character, Ctrl-L starts again. */
  function TextAfter(con: Con, a: Action, text: seq<byte>): seq<byte>
    requires Follows(con, a, text)
  {
    match a
    case Print(more) => text + more
    case PressOne(k) =>
      if Clears(k) then []
      else if k.ascii != NUL then
        if k.ctrl || LineEdit.CanInsert(con.line, k.ascii) then text + [k.ascii] else text
      else if k.ctrl then text
      else if k.backspace then if con.line.idx > 0 then text[..|text| - 1] else text
      else if k.tab then text + Blanks(BlanksTaken(con.line, TAB_SPACE))
      else text
    case _ => text
  }

  /** The text that a sequence of actions adds up to; None once one of them does not follow. */
  function TextOf(con: Con, actions: seq<Action>): Option<seq<byte>>
    requires ConOk(con)
    decreases |actions|
  {
    if actions == [] then Some([])
    else
      var most, a := actions[..|actions| - 1], actions[|actions| - 1];
      var text, mid := TextOf(con, most), ActAll(con, most);
      if text.Some? && Follows(mid, a, text.value) then Some(TextAfter(mid, a, text.value)) else None
  }

  lemma ActShows(con: Con, a: Action, text: seq<byte>)
    requires ConOk(con) && ShowsText(con.screen, text) && Follows(con, a, text)
    ensures ShowsText(Act(con, a).screen, TextAfter(con, a, text))
  {
    match a
    case Print(more) => PrintShows(con.screen, text, more);
    case PressOne(k) => KeyShows(con, k, text);
    case Glyph(_) => UndrawShows(con.screen, text);
    case _ =>
  }

  lemma UndrawShows(s: Screen.Screen, text: seq<byte>)
    requires ShowsText(s, text)
    ensures ShowsText(Screen.DrawCursor(s, false), text)
  {
    var rows := Layout.Rows(text);
    assert Layout.RowChar(rows, Layout.Top(rows) + s.y, s.x) == SPACE;
    RemovedCell(s.page, s.x, s.y, rows, rows);
  }

  lemma KeyShows(con: Con, k: KeyState, text: seq<byte>)
    requires ConOk(con) && ShowsText(con.screen, text) && Follows(con, PressOne(k), text)
    ensures ShowsText(Press(con, k).screen, TextAfter(con, PressOne(k), text))
  {
    if Clears(k) {
      Layout.PrintShowsText(con.screen, []);
    } else if k.ascii != NUL {
      CharShows(con, k, text);
    } else if !k.ctrl && k.backspace && con.line.idx > 0 {
      TakeBackShows(con.screen, text);
      EraseShows(Screen.RemoveChar(con.screen), text[..|text| - 1]);
    } else if !k.ctrl && k.tab {
      BlanksTyped(con, TAB_SPACE);
      PrintShows(con.screen, text, Blanks(BlanksTaken(con.line, TAB_SPACE)));
    }
  }

  lemma CharShows(con: Con, k: KeyState, text: seq<byte>)
    requires ConOk(con) && ShowsText(con.screen, text) && k.ascii != NUL && !Clears(k)
    ensures ShowsText(Press(con, k).screen,
                      if k.ctrl || LineEdit.CanInsert(con.line, k.ascii) then text + [k.ascii] else text)
  {
    PutShows(con.screen, text, k.ascii);
    EraseShows(con.screen, text);
    PutShows(Screen.EraseCursor(con.screen), text, k.ascii);
  }

  /** The screen shows the text of all output and typing, in the order they came. */
  lemma {:induction false} ActionsShow(con: Con, actions: seq<Action>)
    requires ConOk(con) && ShowsText(con.screen, []) && TextOf(con, actions).Some?
    ensures ShowsText(ActAll(con, actions).screen, TextOf(con, actions).value)
    decreases |actions|
  {
    if actions != [] {
      var most := actions[..|actions| - 1];
      ActionsShow(con, most);
      ActShows(ActAll(con, most), actions[|actions| - 1], TextOf(con, most).value);
    }
  }

  /** Whatever happens on the other terminals, and however often the display is switched,
      a console that started clear shows the last 25 rows of its own output and typing. */
  lemma RunShowsOwnText(m: Mux, events: seq<Event>, t: int)
    requires MuxOk(m) && 0 <= t < NUM_TERMS && ShowsText(m.cons[t].screen, [])
    ensures var text := TextOf(m.cons[t], Shares(Focus(m.ta, m.ts), events, t));
            text.Some? ==> ShowsText(Run(m, events).cons[t].screen, text.value)
  {
    var share := Shares(Focus(m.ta, m.ts), events, t);
    ConsolesAreIndependent(m, events, t);
    if TextOf(m.cons[t], share).Some? {
      ActionsShow(m.cons[t], share);
    }
  }

  // ----- keys that the line refuses

  /** A line break at the bottom left of a page that scrolling does not change. */
  predicate Unmoved(s: Screen.Screen, c: byte)
    requires Screen.Ok(s)
  {
    Screen.BreaksLine(c) && s.x == 0 && s.y == Screen.NUM_ROWS - 1 && Screen.Shift(s.page) == s.page
  }

  /** A key that does not get onto the line does not show either, if and only if it was
      accepted or pressed without Ctrl, apart from a scroll that nobody can see. */
  lemma ShownIffAcceptedIff(con: Con, k: KeyState)
    requires ConOk(con) && k.ascii != NUL && !Clears(k)
    ensures (LineEdit.CanInsert(con.line, k.ascii) || Press(con, k) == con)
            <==> LineEdit.CanInsert(con.line, k.ascii) || !k.ctrl || Unmoved(con.screen, k.ascii)
  {
    if k.ctrl && !LineEdit.CanInsert(con.line, k.ascii) {
      assert Press(con, k) == Echo(con, k.ascii);
      PutCharMoves(con.screen, k.ascii);
    }
  }

  lemma PutCharMoves(s: Screen.Screen, c: byte)
    requires Screen.Ok(s)
    ensures Screen.PutChar(s, c) == s <==> Unmoved(s, c)
  {
  }

  /** The failing input: with 127 characters on the line, Ctrl with an ordinary key changes
      the screen and not the line. */
  lemma CtrlEchoOnFullLine(con: Con, c: byte)
    requires ConOk(con) && con.line.idx == LineEdit.KEY_BUF_SIZE - 1 && c != NUL && !Screen.BreaksLine(c)
    requires c != 'l' as int && c != 'L' as int
    ensures var r := Press(con, KeyState(true, c, false, false, false, 0));
            r.line == con.line && r.screen != con.screen
  {
    PutCharMoves(con.screen, c);
  }

  // ----- backspace

  function Plainly(c: byte): KeyState { KeyState(false, c, false, false, false, 0) }

  const BACKSPACE := KeyState(false, NUL, true, false, false, 0)

  lemma TakenBackShows(s: Screen.Screen, text: seq<byte>, c: byte)
    requires ShowsText(s, text)
    ensures var cell := Screen.NUM_COLS * s.y + s.x;
            ShowsText(s.(page := Screen.PutCell(Screen.PutCell(s.page, cell, c), cell, SPACE)), text)
  {
    var rows, top := Layout.Rows(text), Layout.Top(Layout.Rows(text));
    var cell := Screen.NUM_COLS * s.y + s.x;
    var page' := Screen.PutCell(Screen.PutCell(s.page, cell, c), cell, SPACE);
    forall i, j | 0 <= i < Screen.NUM_ROWS && 0 <= j < Screen.NUM_COLS
      ensures Screen.CharAt(page', i, j) == Layout.RowChar(rows, top + i, j)
      ensures Screen.AttribAt(page', i, j) == Screen.ATTRIB
    {
      Layout.PutCellAt(s.page, s.y, s.x, c, i, j);
      Layout.PutCellAt(Screen.PutCell(s.page, cell, c), s.y, s.x, SPACE, i, j);
      assert Screen.CharAt(s.page, i, j) == Layout.RowChar(rows, top + i, j);
    }
  }

  /** Putting a character and removing it again, without a scroll in between. */
  lemma RemoveUndoesPut(s: Screen.Screen, c: byte)
    requires Screen.Ok(s) && !Screen.BreaksLine(c)
    ensures var back := Screen.RemoveChar(Screen.PutChar(s, c));
            var cell := Screen.NUM_COLS * s.y + s.x;
            if s.x == Screen.NUM_COLS - 1 && s.y == Screen.NUM_ROWS - 1 then back.y == s.y - 1
            else back == s.(page := Screen.PutCell(Screen.PutCell(s.page, cell, c), cell, SPACE))
  {
  }

  /** A backspace takes back an ordinary character: always on the line, and on the screen
      if and only if typing it had not scrolled the top row away. */
  lemma BackspaceUndoesIff(con: Con, text: seq<byte>, c: byte)
    requires ConOk(con) && ShowsText(con.screen, text) && LineEdit.WellFormed(con.line)
    requires c != NUL && !Screen.BreaksLine(c) && LineEdit.CanInsert(con.line, c)
    ensures var back := Press(Press(con, Plainly(c)), BACKSPACE);
            back.line == con.line &&
            (ShowsText(back.screen, text)
             <==> !(con.screen.x == Screen.NUM_COLS - 1 && con.screen.y == Screen.NUM_ROWS - 1))
  {
    var s, typed := con.screen, Press(con, Plainly(c));
    var removed := Screen.RemoveChar(typed.screen);
    RemoveUndoesPut(s, c);
    assert Press(typed, BACKSPACE).screen == Screen.EraseCursor(removed);
    if s.x == Screen.NUM_COLS - 1 && s.y == Screen.NUM_ROWS - 1 {
      assert Screen.EraseCursor(removed).y == s.y - 1;
    } else {
      TakenBackShows(s, text, c);
      EraseShows(removed, text);
    }
  }
}
