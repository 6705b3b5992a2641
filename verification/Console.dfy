/** The terminal multiplexer as the kernel keeps it: one live page, three backing
    pages, one live keyboard buffer, and a movable pointer to the page that the
    running terminal writes.  Every operation is proved against three independent
    consoles (module Consoles). */
module Console {
  import opened Bytes
  import opened Screen
  import opened Video
  import opened Paging
  import LineEdit
  import Consoles

  /** The cursor and the saved line of terminals[t]. */
  datatype Term = Term(x: int, y: int, buf: seq<byte>, idx: int)

  datatype ReadStatus = Blocked | Returned(count: int)

  class Console {
    const vram: array<byte>          // pages 0xB8 (shown), 0xB9, 0xBA, 0xBB
    const keyboardBuf: array<byte>
    const terms: array<Term>
    const ptUser: array<Pte>         // the user video page table
    var keyIdx: int
    var ts: int                      // the shown terminal
    var ta: int                      // the running terminal
    var videoMem: int                // where putc writes

    static function BackingPage(t: int): int { (t + 1) * PAGE_SIZE }

    /** The page that holds terminal t's screen. */
    function PageFor(t: int): int
      reads this
    {
      if t == ts then 0 else BackingPage(t)
    }

    ghost predicate Shape()
    {
      && vram.Length == NUM_PAGES * PAGE_SIZE && keyboardBuf.Length == LineEdit.KEY_BUF_SIZE && vram != keyboardBuf
      && terms.Length == NUM_TERMS && ptUser.Length == NUM_ENTRIES
    }

    ghost predicate Valid()
      reads this, vram, keyboardBuf, terms, ptUser
    {
      && Shape()
      && 0 <= ts < NUM_TERMS && 0 <= ta < NUM_TERMS && 0 <= keyIdx <= LineEdit.KEY_BUF_SIZE
      && (forall t :: 0 <= t < NUM_TERMS ==> TermOk(terms[t]))
      && Mapped()
    }

    static ghost predicate TermOk(t: Term) {
      0 <= t.x < NUM_COLS && 0 <= t.y < NUM_ROWS &&
      |t.buf| == LineEdit.KEY_BUF_SIZE && 0 <= t.idx <= LineEdit.KEY_BUF_SIZE
    }

    /** The pointer and the user mapping follow the running terminal's page. */
    ghost predicate Mapped()
      requires Shape()
      reads this, ptUser
    {
      && videoMem == PageFor(ta)
      && ptUser[..] == UserTable(VideoFrame())
    }

    function VideoFrame(): int
      reads this
    {
      VID_MEM_INDEX + PageFor(ta) / PAGE_SIZE
    }

    /** The console that terminal t's user has in front of them, or will have. */
    function View(t: int): (c: Consoles.Con)
      requires Shape() && 0 <= t < NUM_TERMS
      reads this, vram, keyboardBuf, terms
    {
      var line := if t == ts then LineEdit.Line(keyboardBuf[..], keyIdx)
                  else LineEdit.Line(terms[t].buf, terms[t].idx);
      Consoles.Con(Screen(PageOf(vram, PageFor(t)), terms[t].x, terms[t].y), line)
    }

    function Abstract(): (m: Consoles.Mux)
      requires Valid()
      reads this, vram, keyboardBuf, terms, ptUser
      ensures Consoles.MuxOk(m)
    {
      Consoles.Mux([View(0), View(1), View(2)], ta, ts)
    }

    /** Boot state: terminal 0 shown and running, its cursor behind a prompt, all lines
        empty, and on the pages whatever video memory holds. */
    constructor (vram: array<byte>, ptUser: array<Pte>)
      requires vram.Length == NUM_PAGES * PAGE_SIZE && ptUser.Length == NUM_ENTRIES
      requires ptUser[..] == UserTable(VID_MEM_INDEX)
      ensures Valid() && this.vram == vram && this.ptUser == ptUser && fresh(keyboardBuf) && fresh(terms)
      ensures Abstract().ta == 0 && Abstract().ts == 0 && Consoles.LinesWellFormed(Abstract())
      ensures forall t :: 0 <= t < NUM_TERMS ==>
        Abstract().cons[t] == Consoles.Con(Screen(PageOf(vram, if t == 0 then 0 else BackingPage(t)),
                                                  if t == 0 then 7 else 0, if t == 0 then 1 else 0), LineEdit.Empty())
    {
      this.vram, this.ptUser := vram, ptUser;
      keyboardBuf := new byte[LineEdit.KEY_BUF_SIZE](_ => NUL);
      var empty := Term(0, 0, Zeros(LineEdit.KEY_BUF_SIZE), 0);
      terms := new Term[] [empty.(x := 7, y := 1), empty, empty];
      keyIdx, ts, ta, videoMem := 0, 0, 0, 0;
    }

    twostate lemma OtherPages(t: int)
      requires Shape() && ts == old(ts) && 0 <= t < NUM_TERMS && OnlyPage(vram, PageFor(t))
      ensures forall k :: 0 <= k < NUM_TERMS && k != t ==> PageOf(vram, PageFor(k)) == old(PageOf(vram, PageFor(k)))
    {
    }

    /** When only terminal t's page, cursor and line were touched, the other two
        consoles are as they were. */
    twostate lemma Touched(t: int)
      requires old(Valid()) && Valid() && 0 <= t < NUM_TERMS && ts == old(ts) && ta == old(ta)
      requires OnlyPage(vram, PageFor(t))
      requires forall k :: 0 <= k < NUM_TERMS && k != t ==> terms[k] == old(terms[k])
      requires t != ts ==> keyboardBuf[..] == old(keyboardBuf[..]) && keyIdx == old(keyIdx)
      ensures Abstract() == Consoles.OnConsole(old(Abstract()), t, View(t))
    {
      hide PageOf, OnlyPage;
      OtherPages(t);
      assert forall k :: 0 <= k < NUM_TERMS && k != t ==> View(k) == old(View(k));
    }

    // ----- screen output

    /** putc and put_key differ only in the terminal and the page: here t and vm. */
    method PutOn(t: int, vm: int, c: byte)
      requires Valid() && 0 <= t < NUM_TERMS && vm == PageFor(t)
      modifies vram, terms
      ensures Valid()
      ensures Abstract() == Consoles.OnConsole(old(Abstract()), t, Consoles.Echo(old(Abstract().cons[t]), c))
    {
      var x, y := PutCharAt(vram, vm, terms[t].x, terms[t].y, c);
      terms[t] := terms[t].(x := x, y := y);
      Touched(t);
    }

    method PutC(c: byte)
      requires Valid()
      modifies vram, terms
      ensures Valid()
      ensures Abstract() == Consoles.OnConsole(old(Abstract()), ta, Consoles.Echo(old(Abstract().cons[ta]), c))
    {
      PutOn(ta, videoMem, c);
    }

    method PutKey(c: byte)
      requires Valid()
      modifies vram, terms
      ensures Valid()
      ensures Abstract() == Consoles.OnConsole(old(Abstract()), ts, Consoles.Echo(old(Abstract().cons[ts]), c))
    {
      PutOn(ts, 0, c);
    }

    method ClearScreen()
      requires Valid()
      modifies vram, terms
      ensures Valid()
      ensures Abstract() == Consoles.OnConsole(old(Abstract()), ts,
        old(Abstract().cons[ts]).(screen := Clear(old(Abstract().cons[ts].screen))))
    {
      ClearPage(vram, 0);
      terms[ts] := terms[ts].(x := 0);
      terms[ts] := terms[ts].(y := 0);
      Touched(ts);
    }

    method RemC()
      requires Valid()
      modifies vram, terms
      ensures Valid()
      ensures Abstract() == Consoles.OnConsole(old(Abstract()), ts,
        old(Abstract().cons[ts]).(screen := RemoveChar(old(Abstract().cons[ts].screen))))
    {
      hide PageOf, PutCell, UserTable;
      if terms[ts].y != 0 || terms[ts].x != 0 {
        StepBack();
        Poke(vram, 0, NUM_COLS * terms[ts].y + terms[ts].x, SPACE);
      }
      Touched(ts);
    }

    /** Moves the shown terminal's cursor to the cell before it. */
    method StepBack()
      requires Valid() && (terms[ts].y != 0 || terms[ts].x != 0)
      modifies terms
      ensures Valid()
      ensures forall k :: 0 <= k < NUM_TERMS && k != ts ==> terms[k] == old(terms[k])
      ensures var was := old(terms[ts]);
        terms[ts] == was.(x := if was.x == 0 then NUM_COLS - 1 else was.x - 1,
                          y := if was.x == 0 then was.y - 1 else was.y)
    {
      if terms[ts].x == 0 {
        terms[ts] := terms[ts].(y := terms[ts].y - 1);
        terms[ts] := terms[ts].(x := NUM_COLS - 1);
      } else {
        terms[ts] := terms[ts].(x := terms[ts].x - 1);
      }
    }

    method CheckCursor()
      requires Valid()
      modifies vram
      ensures Valid()
      ensures Abstract() == Consoles.OnConsole(old(Abstract()), ts,
        old(Abstract().cons[ts]).(screen := EraseCursor(old(Abstract().cons[ts].screen))))
    {
      hide PutCell, UserTable;
      ghost var page := PageOf(vram, 0);
      ghost var cell := NUM_COLS * terms[ts].y + terms[ts].x;
      var i := terms[ts].x;
      while i < terms[ts].x + 2
        invariant terms[ts].x <= i <= terms[ts].x + 2
        invariant OnlyPage(vram, 0)
        invariant PageOf(vram, 0) == if i == terms[ts].x then page
                                     else if i == terms[ts].x + 1 then PutCell(page, cell, SPACE)
                                     else PutCell(PutCell(page, cell, SPACE), cell + 1, SPACE)
      {
        Poke(vram, 0, NUM_COLS * terms[ts].y + i, SPACE);
        i := i + 1;
      }
      Touched(ts);
    }

    /** put_cursor and rem_cursor. */
    method DrawGlyph(on: bool)
      requires Valid()
      modifies vram
      ensures Valid()
      ensures Abstract() == Consoles.OnConsole(old(Abstract()), ts,
        old(Abstract().cons[ts]).(screen := DrawCursor(old(Abstract().cons[ts].screen), on)))
    {
      hide PageOf, PutCell, OnlyPage, UserTable;
      Poke(vram, 0, NUM_COLS * terms[ts].y + terms[ts].x, if on then '_' as int else SPACE);
      Touched(ts);
    }

    // ----- the live line

    method WriteChar(c: byte) returns (ok: bool)
      requires Valid()
      modifies this`keyIdx, keyboardBuf
      ensures Valid()
      ensures ok <==> LineEdit.CanInsert(old(Abstract().cons[ts].line), c)
      ensures Abstract() == Consoles.OnConsole(old(Abstract()), ts, Consoles.Type(old(Abstract().cons[ts]), c))
    {
      if keyIdx == LineEdit.KEY_BUF_SIZE - 1 && c != LINE_FEED {
        Touched(ts);
        return false;
      }
      if keyIdx >= LineEdit.KEY_BUF_SIZE {
        Touched(ts);
        return false;
      }
      keyboardBuf[keyIdx] := c;
      keyIdx := keyIdx + 1;
      Touched(ts);
      return true;
    }

    method DeleteChar() returns (ok: bool)
      requires Valid()
      modifies this`keyIdx, keyboardBuf
      ensures Valid()
      ensures ok <==> old(keyIdx) > 0
      ensures Abstract() == Consoles.OnConsole(old(Abstract()), ts,
        old(Abstract().cons[ts]).(line := LineEdit.Delete(old(Abstract().cons[ts].line))))
    {
      if keyIdx <= 0 {
        Touched(ts);
        return false;
      }
      keyIdx := keyIdx - 1;
      keyboardBuf[keyIdx] := NUL;
      Touched(ts);
      return true;
    }

    method ClearKeyboardBuf()
      requires Valid()
      modifies this`keyIdx, keyboardBuf
      ensures Valid()
      ensures Abstract() == Consoles.OnConsole(old(Abstract()), ts,
        old(Abstract().cons[ts]).(line := LineEdit.Empty()))
    {
      var i := 0;
      while i < LineEdit.KEY_BUF_SIZE
        invariant 0 <= i <= LineEdit.KEY_BUF_SIZE
        invariant forall k :: 0 <= k < i ==> keyboardBuf[k] == NUL
      {
        keyboardBuf[i] := NUL;
        i := i + 1;
      }
      keyIdx := 0;
      assert keyboardBuf[..] == Zeros(LineEdit.KEY_BUF_SIZE);
      Touched(ts);
    }

    // ----- keyboard interrupts

    method CtrlHelper(c: byte)
      requires Valid()
      modifies this`keyIdx, vram, keyboardBuf, terms
      ensures Valid()
      ensures Abstract() == Consoles.OnConsole(old(Abstract()), ts,
        Consoles.Press(old(Abstract().cons[ts]), Consoles.KeyState(true, c, false, false, false, 0)))
    {
      hide View, Consoles.Echo, Consoles.Type;
      if c == 'l' as int || c == 'L' as int {
        ClearScreen();
        ClearKeyboardBuf();
      } else if c != NUL {
        var _ := WriteChar(c);
        PutKey(c);
      }
    }

    method TypeTab()
      requires Valid()
      modifies this`keyIdx, vram, keyboardBuf, terms
      ensures Valid()
      ensures Abstract() == Consoles.OnConsole(old(Abstract()), ts,
        Consoles.TypeBlanks(old(Abstract().cons[ts]), Consoles.TAB_SPACE))
    {
      hide View, Consoles.Echo;
      ghost var goal := Consoles.TypeBlanks(Abstract().cons[ts], Consoles.TAB_SPACE);
      var i := 0;
      while i < Consoles.TAB_SPACE
        invariant 0 <= i <= Consoles.TAB_SPACE && Valid()
        invariant Abstract() == Consoles.OnConsole(old(Abstract()), ts, Abstract().cons[ts])
        invariant Consoles.TypeBlanks(Abstract().cons[ts], Consoles.TAB_SPACE - i) == goal
      {
        var ok := WriteChar(SPACE);
        if !ok {
          break;
        }
        PutKey(SPACE);
        i := i + 1;
      }
    }

    method TypeKey(c: byte)
      requires Valid() && c != NUL
      modifies this`keyIdx, vram, keyboardBuf, terms
      ensures Valid()
      ensures Abstract() == Consoles.OnConsole(old(Abstract()), ts,
        Consoles.Press(old(Abstract().cons[ts]), Consoles.KeyState(false, c, false, false, false, 0)))
    {
      hide View, Consoles.Echo;
      var ok := WriteChar(c);
      if ok {
        if c == LINE_FEED {
          CheckCursor();
        }
        PutKey(c);
      }
    }

    method TypeBackspace()
      requires Valid()
      modifies this`keyIdx, vram, keyboardBuf, terms
      ensures Valid()
      ensures Abstract() == Consoles.OnConsole(old(Abstract()), ts,
        Consoles.Press(old(Abstract().cons[ts]), Consoles.KeyState(false, NUL, true, false, false, 0)))
    {
      var ok := DeleteChar();
      if ok {
        RemC();
        CheckCursor();
      }
    }

    /** keyboard_handler, from the flags and the character that get_key leaves. */
    method KeyboardHandler(k: Consoles.KeyState)
      requires Valid()
      modifies this, vram, keyboardBuf, terms, ptUser
      ensures Valid()
      ensures Abstract() == Consoles.PressKey(old(Abstract()), k)
      ensures Consoles.SwitchKey(k) ==> Abstract() == old(Abstract()).(ts := k.function_ - 1)
      ensures !Consoles.SwitchKey(k) ==> ts == old(ts)
    {
      if k.ctrl {
        CtrlHelper(k.ascii);
      } else if k.ascii != NUL {
        TypeKey(k.ascii);
      } else if k.backspace {
        TypeBackspace();
      } else if k.tab {
        TypeTab();
      } else if k.alt && 1 <= k.function_ <= 3 {
        var _ := TerminalSwitch(k.function_);
      }
    }

    // ----- which terminal is shown, and which one runs

    method SaveLine(t: int)
      requires Shape() && 0 <= t < NUM_TERMS && |terms[t].buf| == LineEdit.KEY_BUF_SIZE
      modifies terms
      ensures terms[t] == old(terms[t]).(buf := keyboardBuf[..], idx := keyIdx)
      ensures forall k :: 0 <= k < NUM_TERMS && k != t ==> terms[k] == old(terms[k])
    {
      var i := 0;
      while i < LineEdit.KEY_BUF_SIZE
        invariant 0 <= i <= LineEdit.KEY_BUF_SIZE
        invariant terms[t] == old(terms[t]).(buf := keyboardBuf[..i] + old(terms[t]).buf[i..])
        invariant forall k :: 0 <= k < NUM_TERMS && k != t ==> terms[k] == old(terms[k])
      {
        OverwriteNext(keyboardBuf[..i], old(terms[t]).buf, keyboardBuf[i]);
        terms[t] := terms[t].(buf := terms[t].buf[i := keyboardBuf[i]]);
        assert keyboardBuf[..i + 1] == keyboardBuf[..i] + [keyboardBuf[i]];
        i := i + 1;
      }
      terms[t] := terms[t].(idx := keyIdx);
    }

    method LoadLine(t: int)
      requires Shape() && 0 <= t < NUM_TERMS && |terms[t].buf| == LineEdit.KEY_BUF_SIZE
      modifies this`keyIdx, keyboardBuf
      ensures keyboardBuf[..] == terms[t].buf && keyIdx == terms[t].idx
    {
      var i := 0;
      while i < LineEdit.KEY_BUF_SIZE
        invariant 0 <= i <= LineEdit.KEY_BUF_SIZE
        invariant keyboardBuf[..i] == terms[t].buf[..i]
      {
        keyboardBuf[i] := terms[t].buf[i];
        i := i + 1;
      }
      keyIdx := terms[t].idx;
    }

    method SwapPages(prevVidAddr: int, vidAddr: int)
      requires Shape() && PAGE_SIZE <= prevVidAddr <= 3 * PAGE_SIZE && PAGE_SIZE <= vidAddr <= 3 * PAGE_SIZE
      requires prevVidAddr + PAGE_SIZE <= vidAddr || vidAddr + PAGE_SIZE <= prevVidAddr
      modifies vram
      ensures PageOf(vram, 0) == old(PageOf(vram, vidAddr))
      ensures PageOf(vram, prevVidAddr) == old(PageOf(vram, 0))
      ensures forall i :: PAGE_SIZE <= i < vram.Length && (i < prevVidAddr || prevVidAddr + PAGE_SIZE <= i) ==>
        vram[i] == old(vram[i])
    {
      MemCpy(vram, prevVidAddr, 0, PAGE_SIZE);
      assert PageOf(vram, vidAddr) == old(PageOf(vram, vidAddr));
      ghost var saved := PageOf(vram, prevVidAddr);
      MemCpy(vram, 0, vidAddr, PAGE_SIZE);
      assert PageOf(vram, prevVidAddr) == saved;
    }

    /** Points putc and the user's video page at the running terminal's page. */
    method MapVideo()
      requires Shape() && 0 <= ta < NUM_TERMS
      requires exists frame :: ptUser[..] == UserTable(frame)
      modifies this`videoMem, ptUser
      ensures Mapped()
    {
      if ts == ta {
        videoMem := 0;
        ptUser[VID_MEM_INDEX] := ptUser[VID_MEM_INDEX].(addr := VID_MEM_INDEX);
      } else {
        videoMem := BackingPage(ta);
        ptUser[VID_MEM_INDEX] := ptUser[VID_MEM_INDEX].(addr := VID_MEM_INDEX + ta + 1);
      }
    }

    /** Saves the live page and line under the terminal shown so far and brings up
        those of the new one; no console changes. */
    method TerminalSwitch(function_: int) returns (r: int)
      requires Valid() && 1 <= function_ <= 3
      modifies this`ts, this`keyIdx, this`videoMem, vram, keyboardBuf, terms, ptUser
      ensures Valid()
      ensures Abstract() == old(Abstract()).(ts := function_ - 1)
      ensures r == if old(ts) == function_ - 1 then -1 else 0
    {
      hide View;
      var prevTs := ts;
      var prevVidAddr := BackingPage(prevTs);
      ts := function_ - 1;
      var vidAddr := BackingPage(ts);
      if prevTs == ts {
        return -1;
      }
      Exchange(prevTs, prevVidAddr, vidAddr);
      MapVideo();
      Switched();
      return 0;
    }

    /** The line and page copies of a switch away from prevTs. */
    method Exchange(prevTs: int, prevVidAddr: int, vidAddr: int)
      requires Shape() && 0 <= prevTs < NUM_TERMS && 0 <= ts < NUM_TERMS && prevTs != ts
      requires prevVidAddr == BackingPage(prevTs) && vidAddr == BackingPage(ts)
      requires |terms[prevTs].buf| == LineEdit.KEY_BUF_SIZE && |terms[ts].buf| == LineEdit.KEY_BUF_SIZE
      modifies this`keyIdx, vram, keyboardBuf, terms
      ensures PageOf(vram, 0) == old(PageOf(vram, vidAddr)) && PageOf(vram, prevVidAddr) == old(PageOf(vram, 0))
      ensures forall i :: PAGE_SIZE <= i < vram.Length && (i < prevVidAddr || prevVidAddr + PAGE_SIZE <= i) ==>
        vram[i] == old(vram[i])
      ensures keyboardBuf[..] == old(terms[ts]).buf && keyIdx == old(terms[ts]).idx
      ensures terms[prevTs] == old(terms[prevTs]).(buf := old(keyboardBuf[..]), idx := old(keyIdx))
      ensures forall k :: 0 <= k < NUM_TERMS && k != prevTs ==> terms[k] == old(terms[k])
    {
      SaveLine(prevTs);
      LoadLine(ts);
      SwapPages(prevVidAddr, vidAddr);
    }

    /** What the two page copies and the two line copies amount to. */
    twostate lemma Switched()
      requires old(Valid()) && Valid() && ts != old(ts) && ta == old(ta)
      requires PageOf(vram, 0) == old(vram[..])[BackingPage(ts)..BackingPage(ts) + PAGE_SIZE]
      requires PageOf(vram, BackingPage(old(ts))) == old(PageOf(vram, 0))
      requires forall k :: 0 <= k < NUM_TERMS && k != old(ts) ==>
        PageOf(vram, BackingPage(k)) == old(PageOf(vram, BackingPage(k)))
      requires keyboardBuf[..] == old(terms[..])[ts].buf && keyIdx == old(terms[..])[ts].idx
      requires terms[old(ts)] == old(terms[ts]).(buf := old(keyboardBuf[..]), idx := old(keyIdx))
      requires forall k :: 0 <= k < NUM_TERMS && k != old(ts) ==> terms[k] == old(terms[k])
      ensures Abstract() == old(Abstract()).(ts := ts)
    {
    }

    /** The console part of a timer tick. */
    method NextTerminal()
      requires Valid()
      modifies this`ta, this`videoMem, ptUser
      ensures Valid()
      ensures Abstract() == Consoles.Step(old(Abstract()), Consoles.Tick)
    {
      ta := (ta + 1) % NUM_TERMS;
      MapVideo();
    }

    // ----- the terminal driver

    method TerminalWrite(buf: array?<byte>, nbytes: int) returns (r: int)
      requires Valid() && (buf != null ==> nbytes <= buf.Length && buf != vram)
      modifies vram, terms
      ensures Valid()
      ensures r == if buf == null || nbytes < 0 then -1 else nbytes
      ensures Abstract() == if buf == null || nbytes < 0 then old(Abstract())
                            else Consoles.Write(old(Abstract()), buf[..nbytes])
    {
      if buf == null || nbytes < 0 {
        return -1;
      }
      var idx := 0;
      while idx < nbytes
        invariant 0 <= idx <= nbytes && Valid()
        invariant Abstract() == Consoles.Write(old(Abstract()), buf[..idx])
      {
        PutC(buf[idx]);
        assert buf[..idx + 1][..idx] == buf[..idx];
        idx := idx + 1;
      }
      return idx;
    }

    /** The scan of terminal_read: is there a newline before the first NUL? */
    method FindNewline() returns (done: bool, i: int)
      requires Shape()
      ensures done == LineEdit.Ready(LineEdit.Line(keyboardBuf[..], keyIdx))
      ensures done ==> i == FirstIndex(keyboardBuf[..], LINE_FEED) < LineEdit.KEY_BUF_SIZE
    {
      done := false;
      i := 0;
      while i < LineEdit.KEY_BUF_SIZE && keyboardBuf[i] != NUL
        invariant 0 <= i <= LineEdit.KEY_BUF_SIZE && !done
        invariant forall k :: 0 <= k < i ==> keyboardBuf[..][k] != NUL && keyboardBuf[..][k] != LINE_FEED
      {
        if keyboardBuf[i] == LINE_FEED {
          done := true;
          break;
        }
        i := i + 1;
      }
      assert i < LineEdit.KEY_BUF_SIZE ==> keyboardBuf[..][i] == keyboardBuf[i];
    }

    /** The copy of terminal_read, once a newline is known to stand at index i. */
    method CopyLine(buf: array<byte>, nbytes: nat, ghost i: int) returns (idx: int)
      requires Shape() && buf != keyboardBuf && Min(nbytes, LineEdit.KEY_BUF_SIZE - 1) < buf.Length
      requires LineEdit.Ready(LineEdit.Line(keyboardBuf[..], keyIdx))
      requires i == FirstIndex(keyboardBuf[..], LINE_FEED) < LineEdit.KEY_BUF_SIZE
      modifies buf
      ensures 0 <= idx <= buf.Length
      ensures buf[..idx] == LineEdit.Taken(LineEdit.Line(keyboardBuf[..], keyIdx), nbytes)
    {
      idx := 0;
      assert keyboardBuf[i] == keyboardBuf[..][i] == LINE_FEED;
      while keyboardBuf[idx] != LINE_FEED && idx < nbytes
        invariant 0 <= idx <= Min(i, nbytes)
        invariant buf[..idx] == keyboardBuf[..idx]
        decreases i - idx
      {
        buf[idx] := keyboardBuf[idx];
        idx := idx + 1;
      }
      assert keyboardBuf[idx] == keyboardBuf[..][idx];
      buf[idx] := keyboardBuf[idx];
      idx := idx + 1;
      assert buf[..idx] == keyboardBuf[..][..idx];
    }

    /** One pass of the polling loop of terminal_read and, once it finds a line, the
        copy that follows it.  The caller's buffer needs one byte more than it asks
        for. */
    method TerminalRead(buf: array?<byte>, nbytes: int) returns (r: ReadStatus)
      requires Valid()
      requires buf != null ==> Min(nbytes, LineEdit.KEY_BUF_SIZE - 1) < buf.Length && buf != vram && buf != keyboardBuf
      modifies this`keyIdx, keyboardBuf, buf
      ensures Valid()
      ensures buf == null || nbytes < 0 ==> r == Returned(-1) && Abstract() == old(Abstract())
      ensures buf != null && nbytes >= 0 ==> Abstract() == Consoles.Read(old(Abstract()))
      ensures buf != null && nbytes >= 0 ==>
        if ts == ta && LineEdit.Ready(old(Abstract().cons[ta].line))
        then r.Returned? && 0 <= r.count <= buf.Length
             && buf[..r.count] == LineEdit.Taken(old(Abstract().cons[ta].line), nbytes)
        else r == Blocked
    {
      if buf == null || nbytes < 0 {
        return Returned(-1);
      }
      var doneTyping, i := FindNewline();
      if ts != ta {
        doneTyping := false;
      }
      if !doneTyping {
        return Blocked;
      }
      var idx := CopyLine(buf, nbytes, i);
      assert Abstract() == old(Abstract());
      ClearKeyboardBuf();
      return Returned(idx);
    }

    method WipeSaved()
      requires Valid()
      modifies terms
      ensures terms[ta] == old(terms[ta]).(buf := Zeros(LineEdit.KEY_BUF_SIZE))
      ensures forall k :: 0 <= k < NUM_TERMS && k != ta ==> terms[k] == old(terms[k])
    {
      var i := 0;
      while i < LineEdit.KEY_BUF_SIZE
        invariant 0 <= i <= LineEdit.KEY_BUF_SIZE
        invariant terms[ta] == old(terms[ta]).(buf := Zeros(i) + old(terms[ta]).buf[i..])
        invariant forall k :: 0 <= k < NUM_TERMS && k != ta ==> terms[k] == old(terms[k])
      {
        OverwriteNext(Zeros(i), old(terms[ta]).buf, NUL);
        terms[ta] := terms[ta].(buf := terms[ta].buf[i := NUL]);
        assert Zeros(i + 1) == Zeros(i) + [NUL];
        i := i + 1;
      }
    }

    /** The console part of a halt: the saved line is wiped, the live one emptied. */
    method WipeLine()
      requires Valid()
      modifies this`keyIdx, keyboardBuf, terms
      ensures Valid()
      ensures Abstract() == Consoles.Step(old(Abstract()), Consoles.HaltWipe)
    {
      WipeSaved();
      Touched(ta);
      if ts == ta {
        ClearKeyboardBuf();
      }
    }

    /** Any interleaving of ticks, output, keys, switches, reads and halts leaves the
        shared pages and buffers standing for three independent consoles. */
    method RunEvents(events: seq<Consoles.Event>)
      requires Valid()
      modifies this, vram, keyboardBuf, terms, ptUser
      ensures Valid()
      ensures Abstract() == Consoles.Run(old(Abstract()), events)
    {
      hide View, Consoles.Step;
      var i := 0;
      while i < |events|
        invariant 0 <= i <= |events| && Valid()
        invariant Abstract() == Consoles.Run(old(Abstract()), events[..i])
      {
        HandleEvent(events[i]);
        assert events[..i + 1][..i] == events[..i];
        i := i + 1;
      }
      assert events[..|events|] == events;
    }

    method HandleEvent(e: Consoles.Event)
      requires Valid()
      modifies this, vram, keyboardBuf, terms, ptUser
      ensures Valid()
      ensures Abstract() == Consoles.Step(old(Abstract()), e)
    {
      hide View, Consoles.OnConsole;
      match e
      case Tick => NextTerminal();
      case Output(text) =>
        var buf := new byte[|text|](i requires 0 <= i < |text| => text[i]);
        var _ := TerminalWrite(buf, |text|);
        assert buf[..|text|] == text;
      case Key(k) => KeyboardHandler(k);
      case ReadLine(nbytes) =>
        var buf := new byte[nbytes + 1](_ => NUL);
        var _ := TerminalRead(buf, nbytes);
      case Cursor(on) => DrawGlyph(on);
      case HaltWipe => WipeLine();
    }
  }
}
