/** Three independent consoles: the behaviour the terminal multiplexer is meant to
    have, with no shared page and no shared keyboard buffer. */
module Consoles {
  import opened Bytes
  import Screen
  import LineEdit

  const TAB_SPACE := 4

  datatype Con = Con(screen: Screen.Screen, line: LineEdit.Line)

  ghost predicate ConOk(c: Con) {
    Screen.Ok(c.screen) && LineEdit.Ok(c.line)
  }

  /** The keyboard's flags and decoded character at an interrupt. */
  datatype KeyState = KeyState(ctrl: bool, ascii: byte, backspace: bool, tab: bool, alt: bool, function_: int)

  function Echo(con: Con, c: byte): (r: Con)
    requires ConOk(con)
    ensures ConOk(r)
  {
    con.(screen := Screen.PutChar(con.screen, c))
  }

  function Type(con: Con, c: byte): (r: Con)
    requires ConOk(con)
    ensures ConOk(r)
  {
    con.(line := LineEdit.Insert(con.line, c))
  }

  /** Up to n blanks, until the line is full. */
  function TypeBlanks(con: Con, n: nat): (r: Con)
    requires ConOk(con)
    ensures ConOk(r)
    decreases n
  {
    if n == 0 || !LineEdit.CanInsert(con.line, SPACE) then con
    else TypeBlanks(Echo(Type(con, SPACE), SPACE), n - 1)
  }

  function Clear(con: Con): (r: Con)
    requires ConOk(con)
    ensures ConOk(r)
  {
    Con(Screen.Clear(con.screen), LineEdit.Empty())
  }

  /** A key on the console that has the keyboard. */
  function Press(con: Con, k: KeyState): (r: Con)
    requires ConOk(con)
    ensures ConOk(r)
  {
    if k.ctrl then
      if k.ascii == 'l' as int || k.ascii == 'L' as int then Clear(con)
      else if k.ascii == NUL then con
      else Echo(Type(con, k.ascii), k.ascii)
    else if k.ascii != NUL then
      if !LineEdit.CanInsert(con.line, k.ascii) then con
      else if k.ascii == LINE_FEED then
        var typed := Type(con, k.ascii);
        Echo(typed.(screen := Screen.EraseCursor(typed.screen)), k.ascii)
      else Echo(Type(con, k.ascii), k.ascii)
    else if k.backspace then
      if con.line.idx == 0 then con
      else Con(Screen.EraseCursor(Screen.RemoveChar(con.screen)), LineEdit.Delete(con.line))
    else if k.tab then TypeBlanks(con, TAB_SPACE)
    else con
  }

  /** Alt with a function key asks for terminal 0, 1 or 2. */
  function Wanted(k: KeyState): Option<int> {
    if !k.ctrl && k.ascii == NUL && !k.backspace && !k.tab && k.alt && 1 <= k.function_ <= 3
    then Some(k.function_ - 1) else None
  }

  /** Alt with F1, F2 or F3, and nothing else that the handler looks at before. */
  predicate SwitchKey(k: KeyState) {
    !k.ctrl && k.ascii == 0 && !k.backspace && !k.tab && k.alt && 1 <= k.function_ <= 3
  }

  /** Taking the line empties it. */
  function TakeLine(con: Con): (r: Con)
    requires ConOk(con)
    ensures ConOk(r)
  {
    if LineEdit.Ready(con.line) then con.(line := LineEdit.Empty()) else con
  }

  /** What a halting process does to its terminal's line. */
  function Wipe(con: Con, shown: bool): (r: Con)
    requires ConOk(con)
    ensures ConOk(r)
  {
    con.(line := if shown then LineEdit.Empty() else LineEdit.WipedWhileHidden(con.line))
  }

  // ----- three consoles, the terminal that runs and the terminal that is shown

  datatype Mux = Mux(cons: seq<Con>, ta: int, ts: int)

  ghost predicate MuxOk(m: Mux) {
    && |m.cons| == NUM_TERMS && 0 <= m.ta < NUM_TERMS && 0 <= m.ts < NUM_TERMS
    && forall t :: 0 <= t < NUM_TERMS ==> ConOk(m.cons[t])
  }

  datatype Event =
    | Tick                       // the timer hands the processor to the next terminal
    | Output(text: seq<byte>)    // the running process writes to its terminal
    | Key(key: KeyState)         // the keyboard interrupts
    | ReadLine(nbytes: nat)      // the running process asks for a line
    | Cursor(on: bool)           // the cursor glyph is drawn or undrawn
    | HaltWipe                   // the running process halts

  function OnConsole(m: Mux, t: int, con: Con): (r: Mux)
    requires MuxOk(m) && 0 <= t < NUM_TERMS && ConOk(con)
    ensures MuxOk(r)
  {
    m.(cons := m.cons[t := con])
  }

  function PressKey(m: Mux, k: KeyState): (r: Mux)
    requires MuxOk(m)
    ensures MuxOk(r)
  {
    match Wanted(k)
    case Some(t) => m.(ts := t)
    case None => OnConsole(m, m.ts, Press(m.cons[m.ts], k))
  }

  function Write(m: Mux, text: seq<byte>): (r: Mux)
    requires MuxOk(m)
    ensures MuxOk(r)
  {
    var con := m.cons[m.ta];
    OnConsole(m, m.ta, con.(screen := Screen.Print(con.screen, text)))
  }

  function Read(m: Mux): (r: Mux)
    requires MuxOk(m)
    ensures MuxOk(r)
  {
    if m.ts == m.ta then OnConsole(m, m.ta, TakeLine(m.cons[m.ta])) else m
  }

  function Step(m: Mux, e: Event): (r: Mux)
    requires MuxOk(m)
    ensures MuxOk(r)
  {
    match e
    case Tick => m.(ta := (m.ta + 1) % NUM_TERMS)
    case Output(text) => Write(m, text)
    case Key(k) => PressKey(m, k)
    case ReadLine(_) => Read(m)
    case Cursor(on) =>
      var con := m.cons[m.ts];
      OnConsole(m, m.ts, con.(screen := Screen.DrawCursor(con.screen, on)))
    case HaltWipe => OnConsole(m, m.ta, Wipe(m.cons[m.ta], m.ts == m.ta))
  }

  function Run(m: Mux, events: seq<Event>): (r: Mux)
    requires MuxOk(m)
    ensures MuxOk(r)
    decreases |events|
  {
    if events == [] then m else Step(Run(m, events[..|events| - 1]), events[|events| - 1])
  }

  // ----- what one console sees of a run

  datatype Action =
    | Print(text: seq<byte>)
    | PressOne(key: KeyState)
    | Take
    | Glyph(on: bool)
    | WipeLine(shown: bool)

  function Act(con: Con, a: Action): (r: Con)
    requires ConOk(con)
    ensures ConOk(r)
  {
    match a
    case Print(text) => con.(screen := Screen.Print(con.screen, text))
    case PressOne(k) => Press(con, k)
    case Take => TakeLine(con)
    case Glyph(on) => con.(screen := Screen.DrawCursor(con.screen, on))
    case WipeLine(shown) => Wipe(con, shown)
  }

  function ActAll(con: Con, actions: seq<Action>): (r: Con)
    requires ConOk(con)
    ensures ConOk(r)
    decreases |actions|
  {
    if actions == [] then con else Act(ActAll(con, actions[..|actions| - 1]), actions[|actions| - 1])
  }

  // ----- where an event takes place

  /** Alt with F1, F2 or F3 shows terminal 0, 1 or 2 and does nothing else; no other event
      changes which terminal is shown. */
  lemma StepShows(m: Mux, e: Event)
    requires MuxOk(m)
    ensures if e.Key? && SwitchKey(e.key) then Step(m, e) == m.(ts := e.key.function_ - 1) else Step(m, e).ts == m.ts
  {
  }

  predicate Switches(e: Event) { e.Key? && SwitchKey(e.key) }

  /** Over any run the shown terminal is the one that the last such key, event i, named; or
      the first one when there was none, and i is -1. */
  lemma {:induction false} ShownTerminal(m: Mux, events: seq<Event>, i: int)
    requires MuxOk(m) && -1 <= i < |events| && (i >= 0 ==> Switches(events[i]))
    requires forall j :: i < j < |events| ==> !Switches(events[j])
    ensures Run(m, events).ts == if i == -1 then m.ts else events[i].key.function_ - 1
    decreases |events|
  {
    hide Step;
    if events != [] {
      var most, e := events[..|events| - 1], events[|events| - 1];
      StepShows(Run(m, most), e);
      if i < |most| {
        ShownTerminal(m, most, i);
      }
    }
  }

  /** Output appears on the running terminal's console, a key acts on the shown one's, and
      only a running terminal that is shown is given its line, which that empties; a halt
      touches the running terminal's line alone. */
  lemma StepActsOn(m: Mux, e: Event)
    requires MuxOk(m)
    ensures e.Output? ==>
      Step(m, e) == m.(cons := m.cons[m.ta := m.cons[m.ta].(screen := Screen.Print(m.cons[m.ta].screen, e.text))])
    ensures e.Key? ==> Step(m, e).ta == m.ta
    ensures e.Key? ==> forall t :: 0 <= t < NUM_TERMS && t != m.ts ==> Step(m, e).cons[t] == m.cons[t]
    ensures e.ReadLine? ==>
      Step(m, e) == if m.ta == m.ts && LineEdit.Ready(m.cons[m.ta].line)
                    then m.(cons := m.cons[m.ta := m.cons[m.ta].(line := LineEdit.Empty())]) else m
    ensures e.HaltWipe? ==>
      Step(m, e) == m.(cons := m.cons[m.ta := m.cons[m.ta].(line := Step(m, e).cons[m.ta].line)])
    ensures e.Tick? ==> Step(m, e).cons == m.cons && Step(m, e).ta == (m.ta + 1) % 3
  {
    assert m.cons[m.ta := m.cons[m.ta]] == m.cons;
  }

  /** Which terminals run and are shown; no console content decides this. */
  datatype Focus = Focus(ta: int, ts: int)

  function NextFocus(f: Focus, e: Event): Focus {
    match e
    case Tick => f.(ta := (f.ta + 1) % NUM_TERMS)
    case Key(k) => if Wanted(k).Some? then f.(ts := Wanted(k).value) else f
    case _ => f
  }

  function FocusAfter(f: Focus, events: seq<Event>): Focus
    decreases |events|
  {
    if events == [] then f else NextFocus(FocusAfter(f, events[..|events| - 1]), events[|events| - 1])
  }

  /** The part of an event that concerns terminal t. */
  function Share(f: Focus, e: Event, t: int): seq<Action> {
    match e
    case Tick => []
    case Output(text) => if t == f.ta then [Print(text)] else []
    case Key(k) => if t == f.ts && Wanted(k).None? then [PressOne(k)] else []
    case ReadLine(_) => if t == f.ta && t == f.ts then [Take] else []
    case Cursor(on) => if t == f.ts then [Glyph(on)] else []
    case HaltWipe => if t == f.ta then [WipeLine(t == f.ts)] else []
  }

  function Shares(f: Focus, events: seq<Event>, t: int): seq<Action>
    decreases |events|
  {
    if events == [] then []
    else
      var most := events[..|events| - 1];
      Shares(f, most, t) + Share(FocusAfter(f, most), events[|events| - 1], t)
  }

  lemma StepShares(m: Mux, e: Event, t: int)
    requires MuxOk(m) && 0 <= t < NUM_TERMS
    ensures var f := Focus(m.ta, m.ts);
      && NextFocus(f, e) == Focus(Step(m, e).ta, Step(m, e).ts) && |Share(f, e, t)| <= 1
      && Step(m, e).cons[t] == if Share(f, e, t) == [] then m.cons[t] else Act(m.cons[t], Share(f, e, t)[0])
  {
  }

  lemma ActAllMore(con: Con, before: seq<Action>, share: seq<Action>)
    requires ConOk(con) && |share| <= 1
    ensures ActAll(con, before + share)
            == if share == [] then ActAll(con, before) else Act(ActAll(con, before), share[0])
  {
    if share == [] {
      assert before + share == before;
    } else {
      assert (before + share)[..|before + share| - 1] == before;
    }
  }

  /** Each console ends a run exactly as if it had been alone with its own share of
      the events; switches and ticks leave no trace on any console. */
  lemma {:induction false} ConsolesAreIndependent(m: Mux, events: seq<Event>, t: int)
    requires MuxOk(m) && 0 <= t < NUM_TERMS
    ensures var f := Focus(m.ta, m.ts);
      && Run(m, events).cons[t] == ActAll(m.cons[t], Shares(f, events, t))
      && FocusAfter(f, events) == Focus(Run(m, events).ta, Run(m, events).ts)
    decreases |events|
  {
    hide Step, Act, Share, OnConsole;
    if events != [] {
      var most, e := events[..|events| - 1], events[|events| - 1];
      var f := Focus(m.ta, m.ts);
      ConsolesAreIndependent(m, most, t);
      StepShares(Run(m, most), e, t);
      ActAllMore(m.cons[t], Shares(f, most, t), Share(FocusAfter(f, most), e, t));
    }
  }

  ghost predicate LinesWellFormed(m: Mux)
    requires MuxOk(m)
  {
    forall t :: 0 <= t < NUM_TERMS ==> LineEdit.WellFormed(m.cons[t].line)
  }

  lemma {:induction false} BlanksKeepLine(con: Con, n: nat)
    requires ConOk(con) && LineEdit.WellFormed(con.line)
    ensures LineEdit.WellFormed(TypeBlanks(con, n).line)
    decreases n
  {
    if n > 0 && LineEdit.CanInsert(con.line, SPACE) {
      BlanksKeepLine(Echo(Type(con, SPACE), SPACE), n - 1);
    }
  }

  function Blanks(n: nat): seq<byte> { seq(n, _ => SPACE) }

  /** The blanks that a line still takes, up to n. */
  function BlanksTaken(l: LineEdit.Line, n: nat): nat { Min(n, Max(0, LineEdit.KEY_BUF_SIZE - 1 - l.idx)) }

  lemma {:induction false} PrintFront(s: Screen.Screen, c: byte, text: seq<byte>)
    requires Screen.Ok(s)
    ensures Screen.Print(s, [c] + text) == Screen.Print(Screen.PutChar(s, c), text)
    decreases |text|
  {
    var all := [c] + text;
    if text == [] {
      assert all[..|all| - 1] == [];
      assert Screen.Print(s, []) == s;
    } else {
      assert all[..|all| - 1] == [c] + text[..|text| - 1];
      PrintFront(s, c, text[..|text| - 1]);
    }
  }

  /** A tab types and echoes exactly the blanks that fit. */
  lemma {:induction false} BlanksTyped(con: Con, n: nat)
    requires ConOk(con)
    ensures var r, k := TypeBlanks(con, n), BlanksTaken(con.line, n);
      && r.screen == Screen.Print(con.screen, Blanks(k))
      && r.line.idx == con.line.idx + k
      && LineEdit.Text(r.line) == LineEdit.Text(con.line) + Blanks(k)
    decreases n
  {
    hide Screen.PutChar;
    if n > 0 && LineEdit.CanInsert(con.line, SPACE) {
      var k, typed := BlanksTaken(con.line, n), Type(con, SPACE);
      BlanksTyped(Echo(typed, SPACE), n - 1);
      assert Blanks(k) == [SPACE] + Blanks(k - 1);
      PrintFront(con.screen, SPACE, Blanks(k - 1));
      assert LineEdit.Text(typed.line) == LineEdit.Text(con.line) + [SPACE];
    }
  }

  /** A process halts while its terminal is hidden and holds a half-typed line. */
  predicate HalfTypedHalt(m: Mux, e: Event)
    requires MuxOk(m)
  {
    e.HaltWipe? && m.ta != m.ts && m.cons[m.ta].line.idx > 0
  }

  lemma ActKeepsLineIff(con: Con, a: Action)
    requires ConOk(con) && LineEdit.WellFormed(con.line)
    ensures LineEdit.WellFormed(Act(con, a).line) <==> !(a.WipeLine? && !a.shown && con.line.idx > 0)
  {
    hide Screen.Print, Screen.PutChar;
    BlanksKeepLine(con, TAB_SPACE);
    LineEdit.WipeKeepsLineIff(con.line);
  }

  lemma StepKeepsLineIff(m: Mux, e: Event, t: int)
    requires MuxOk(m) && 0 <= t < NUM_TERMS && LineEdit.WellFormed(m.cons[t].line)
    ensures LineEdit.WellFormed(Step(m, e).cons[t].line) <==> !(HalfTypedHalt(m, e) && t == m.ta)
  {
    StepShares(m, e, t);
    var share := Share(Focus(m.ta, m.ts), e, t);
    if share != [] {
      ActKeepsLineIff(m.cons[t], share[0]);
    }
  }

  /** One step keeps the three lines well formed exactly when it is not such a halt. */
  lemma StepKeepsLinesIff(m: Mux, e: Event)
    requires MuxOk(m) && LinesWellFormed(m)
    ensures LinesWellFormed(Step(m, e)) <==> !HalfTypedHalt(m, e)
  {
    forall t | 0 <= t < NUM_TERMS
      ensures LineEdit.WellFormed(Step(m, e).cons[t].line) <==> !(HalfTypedHalt(m, e) && t == m.ta)
    {
      StepKeepsLineIff(m, e, t);
    }
    assert LinesWellFormed(Step(m, e)) ==> LineEdit.WellFormed(Step(m, e).cons[m.ta].line);
  }

  /** So over a whole run without such a halt the lines are always well formed. */
  lemma {:induction false} LinesStayWellFormed(m: Mux, events: seq<Event>)
    requires MuxOk(m) && LinesWellFormed(m)
    requires forall k :: 0 <= k < |events| ==> !HalfTypedHalt(Run(m, events[..k]), events[k])
    ensures LinesWellFormed(Run(m, events))
    decreases |events|
  {
    if events != [] {
      var most := events[..|events| - 1];
      forall k | 0 <= k < |most| ensures !HalfTypedHalt(Run(m, most[..k]), most[k]) {
        assert most[..k] == events[..k] && !HalfTypedHalt(Run(m, events[..k]), events[k]);
      }
      LinesStayWellFormed(m, most);
      StepKeepsLinesIff(Run(m, most), events[|events| - 1]);
    }
  }

  // ----- what stands on a line

  /** The edits that an action makes on its console's line. */
  function EditsOf(a: Action): (es: seq<LineEdit.Edit>)
    ensures LineEdit.NoNul(es)
  {
    if !a.PressOne? then []
    else
      var k := a.key;
      if k.ascii != NUL then [LineEdit.Type(k.ascii)]
      else if k.ctrl then []
      else if k.backspace then [LineEdit.Erase]
      else if k.tab then seq(4, _ => LineEdit.Type(SPACE))
      else []
  }

  /** Ctrl-L, a halt in view, or a read of a line that holds a newline. */
  predicate Empties(con: Con, a: Action)
    requires ConOk(con)
  {
    match a
    case PressOne(k) => k.ctrl && (k.ascii == 'l' as int || k.ascii == 'L' as int)
    case WipeLine(shown) => shown
    case Take => LINE_FEED in LineEdit.Text(con.line)
    case _ => false
  }

  /** All the edits since the line was last emptied. */
  function EditsSince(con: Con, actions: seq<Action>): (es: seq<LineEdit.Edit>)
    requires ConOk(con)
    ensures LineEdit.NoNul(es)
    decreases |actions|
  {
    if actions == [] then []
    else
      var most, a := actions[..|actions| - 1], actions[|actions| - 1];
      if Empties(ActAll(con, most), a) then [] else EditsSince(con, most) + EditsOf(a)
  }

  /** None of the actions is the halt on a hidden terminal with a half-typed line. */
  ghost predicate NoneStrands(con: Con, actions: seq<Action>)
    requires ConOk(con)
    decreases |actions|
  {
    actions != [] ==>
      var most, a := actions[..|actions| - 1], actions[|actions| - 1];
      NoneStrands(con, most) && !(a.WipeLine? && !a.shown && ActAll(con, most).line.idx > 0)
  }

  lemma {:induction false} BlanksAreEdits(con: Con, n: nat)
    requires ConOk(con)
    ensures TypeBlanks(con, n).line == LineEdit.ApplyAll(con.line, seq(n, _ => LineEdit.Type(SPACE)))
    decreases n
  {
    var es := seq(n, _ => LineEdit.Type(SPACE));
    if n > 0 {
      assert es[1..] == seq(n - 1, _ => LineEdit.Type(SPACE));
      if LineEdit.CanInsert(con.line, SPACE) {
        BlanksAreEdits(Echo(Type(con, SPACE), SPACE), n - 1);
      } else {
        BlanksAreEdits(con, n - 1);
      }
    }
  }

  lemma ActEdits(con: Con, a: Action)
    requires ConOk(con) && LineEdit.WellFormed(con.line) && !(a.WipeLine? && !a.shown && con.line.idx > 0)
    ensures Act(con, a).line
            == if Empties(con, a) then LineEdit.Empty() else LineEdit.ApplyAll(con.line, EditsOf(a))
  {
    hide Screen.PutChar, Screen.Print, Screen.EraseCursor, Screen.RemoveChar, Screen.Clear, Screen.DrawCursor;
    hide TypeBlanks;
    BlanksAreEdits(con, TAB_SPACE);
    LineEdit.ReadyIff(con.line);
    if a.WipeLine? && !a.shown {
      assert con.line.buf == Zeros(LineEdit.KEY_BUF_SIZE);
    }
  }

  /** Over any actions without such a halt: on a line that was empty at first stands the
      push and pop list of the console's own keys, tab blanks and backspaces since the
      line was last emptied. */
  lemma {:induction false} LineIsOwnEdits(con: Con, actions: seq<Action>)
    requires ConOk(con) && con.line == LineEdit.Empty() && NoneStrands(con, actions)
    ensures LineEdit.WellFormed(ActAll(con, actions).line)
    ensures LineEdit.Text(ActAll(con, actions).line) == LineEdit.EditAll([], EditsSince(con, actions))
    decreases |actions|
  {
    if actions != [] {
      var most, a := actions[..|actions| - 1], actions[|actions| - 1];
      var mid := ActAll(con, most);
      LineIsOwnEdits(con, most);
      ActEdits(mid, a);
      LineEdit.EditsRefineList(mid.line, EditsOf(a));
      LineEdit.EditAllConcat([], EditsSince(con, most), EditsOf(a));
    }
  }

  /** The same in a run of all three consoles. */
  lemma RunLineIsOwnEdits(m: Mux, events: seq<Event>, t: int)
    requires MuxOk(m) && 0 <= t < NUM_TERMS && m.cons[t].line == LineEdit.Empty()
    requires NoneStrands(m.cons[t], Shares(Focus(m.ta, m.ts), events, t))
    ensures var own := EditsSince(m.cons[t], Shares(Focus(m.ta, m.ts), events, t));
            LineEdit.Text(Run(m, events).cons[t].line) == LineEdit.EditAll([], own)
  {
    ConsolesAreIndependent(m, events, t);
    LineIsOwnEdits(m.cons[t], Shares(Focus(m.ta, m.ts), events, t));
  }

  /** A read gives the front of the line and empties it.  Nothing typed is lost if and only
      if the only newline is the last character and at most n characters stand before it. */
  lemma ReadLosesNothingIff(con: Con, n: nat)
    requires ConOk(con) && LineEdit.WellFormed(con.line) && LINE_FEED in LineEdit.Text(con.line)
    ensures LineEdit.Ready(con.line) && TakeLine(con).line == LineEdit.Empty()
    ensures var text, given := LineEdit.Text(con.line), LineEdit.Taken(con.line, n);
      && given <= text
      && (given == text <==>
            text[|text| - 1] == LINE_FEED && LINE_FEED !in text[..|text| - 1] && |text| - 1 <= n)
  {
    LineEdit.TakenIsTypedLine(con.line, n);
    var text := LineEdit.Text(con.line);
    var p := FirstIndex(text, LINE_FEED);
    assert text[p] == LINE_FEED;
    assert p < |text| - 1 ==> text[..|text| - 1][p] == LINE_FEED;
  }

  // ----- a line that was wiped while hidden

  /** Ctrl-L, a backspace on the last character that is left, or a halt in view. */
  predicate Frees(con: Con, a: Action) {
    match a
    case PressOne(k) =>
      (k.ctrl && (k.ascii == 'l' as int || k.ascii == 'L' as int)) ||
      (!k.ctrl && k.ascii == NUL && k.backspace && con.line.idx == 1)
    case WipeLine(shown) => shown
    case _ => false
  }

  lemma {:induction false} BlanksKeepStuck(con: Con, n: nat)
    requires ConOk(con) && LineEdit.Stuck(con.line)
    ensures LineEdit.Stuck(TypeBlanks(con, n).line)
    decreases n
  {
    if n > 0 && LineEdit.CanInsert(con.line, SPACE) {
      BlanksKeepStuck(Echo(Type(con, SPACE), SPACE), n - 1);
    }
  }

  /** One action frees a stuck line, by emptying it, or leaves it stuck and not ready. */
  lemma StuckOrFreed(con: Con, a: Action)
    requires ConOk(con) && LineEdit.Stuck(con.line)
    ensures var l := Act(con, a).line;
            if Frees(con, a) then l == LineEdit.Empty() else LineEdit.Stuck(l) && !LineEdit.Ready(l)
  {
    BlanksKeepStuck(con, TAB_SPACE);
    if Frees(con, a) && a.PressOne? && !a.key.ctrl {
      assert LineEdit.Delete(con.line).buf == Zeros(LineEdit.KEY_BUF_SIZE);
    }
  }

  /** Of a sequence of actions none frees the line. */
  ghost predicate NoneFrees(con: Con, actions: seq<Action>)
    requires ConOk(con)
    decreases |actions|
  {
    actions != [] ==>
      var most := actions[..|actions| - 1];
      NoneFrees(con, most) && !Frees(ActAll(con, most), actions[|actions| - 1])
  }

  /** A stuck line stays without a reader exactly until one of these frees it, whatever
      else is typed, erased, printed or read. */
  lemma {:induction false} StuckUntilFreed(con: Con, actions: seq<Action>)
    requires ConOk(con) && LineEdit.Stuck(con.line) && NoneFrees(con, actions)
    ensures LineEdit.Stuck(ActAll(con, actions).line) && !LineEdit.Ready(ActAll(con, actions).line)
    ensures forall a :: Frees(ActAll(con, actions), a) ==> ActAll(con, actions + [a]).line == LineEdit.Empty()
    decreases |actions|
  {
    if actions != [] {
      var most := actions[..|actions| - 1];
      StuckUntilFreed(con, most);
      StuckOrFreed(ActAll(con, most), actions[|actions| - 1]);
    }
    forall a | Frees(ActAll(con, actions), a) ensures ActAll(con, actions + [a]).line == LineEdit.Empty() {
      assert (actions + [a])[..|actions + [a]| - 1] == actions;
      StuckOrFreed(ActAll(con, actions), a);
    }
  }
}
