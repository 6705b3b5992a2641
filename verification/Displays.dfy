/** What the three consoles see of a run of the kernel: its ticks, keys, output, line
    reads and halts, and nothing else of what the processes do. */
module Displays {
  import opened Bytes
  import opened Processes
  import KernelRuns
  import Consoles
  import LineEdit
  import Screen
  import Typing
  import FS = FileSystem

  /** The console event in a kernel event, if any. */
  function Seen(os: OS, e: Event): (seen: seq<Consoles.Event>)
    requires OsOk(os)
    ensures |seen| <= 1
  {
    match e
    case TickEvent(_) => [Consoles.Tick]
    case KeyEvent(k) => [Consoles.Key(k)]
    case HaltEvent(_) => if IsBaseShell(os) then [] else [Consoles.HaltWipe]
    case ReadEvent(k, n) => if UsedAs(os, k, StdinOps) && n >= 0 then [Consoles.ReadLine(n)] else []
    case WriteEvent(k, buf, n) =>
      if UsedAs(os, k, StdoutOps) && 0 <= n <= |buf| then [Consoles.Output(buf[..n])] else []
    case _ => []
  }

  predicate UsedAs(os: OS, k: int, ops: FileOps)
    requires OsOk(os)
  {
    0 <= k < NUM_MAX_FILES && os.procs[Cur(os)].fds[k].flags != 0 && os.procs[Cur(os)].fds[k].ops == ops
  }

  function Apply(m: Consoles.Mux, seen: seq<Consoles.Event>): (r: Consoles.Mux)
    requires Consoles.MuxOk(m) && |seen| <= 1
  {
    if seen == [] then m else Consoles.Step(m, seen[0])
  }

  lemma ReadSeen(os: OS, image: seq<byte>, k: int, n: int)
    requires OsOk(os) && FS.ImageOk(image)
    ensures Read(os, image, k, n).mux == Apply(os.mux, Seen(os, ReadEvent(k, n)))
  {
    if 0 <= k < NUM_MAX_FILES && os.procs[Cur(os)].fds[k].flags != 0 {
      var fd := os.procs[Cur(os)].fds[k];
      assert ReadThrough(os, image, k, fd, n).mux == DriverStep(os, image, fd, n).mux;
    }
  }

  lemma WriteSeen(os: OS, k: int, buf: seq<byte>, n: int)
    requires OsOk(os)
    ensures Write(os, k, buf, n).mux == Apply(os.mux, Seen(os, WriteEvent(k, buf, n)))
  {
  }

  lemma HaltSeen(os: OS, ctx: Ctx)
    requires OsOk(os)
    ensures Halt(os, ctx).mux == Apply(os.mux, Seen(os, HaltEvent(ctx)))
  {
  }

  lemma OpenSeen(os: OS, image: seq<byte>, name: seq<byte>)
    requires OsOk(os) && FS.ImageOk(image)
    ensures Open(os, image, name).mux == os.mux
  {
  }

  lemma StepSeen(os: OS, image: seq<byte>, e: Event)
    requires OsOk(os) && FS.ImageOk(image) && EventOk(e)
    ensures Step(os, image, e).mux == Apply(os.mux, Seen(os, e))
  {
    match e
    case ReadEvent(k, n) => ReadSeen(os, image, k, n);
    case WriteEvent(k, buf, n) => WriteSeen(os, k, buf, n);
    case HaltEvent(ctx) => HaltSeen(os, ctx);
    case OpenEvent(name) => OpenSeen(os, image, name);
    case _ =>
  }

  /** The console events of a whole run. */
  function SeenOf(os: OS, image: seq<byte>, events: seq<Event>): seq<Consoles.Event>
    requires OsOk(os) && FS.ImageOk(image) && KernelRuns.EventsOk(events)
    decreases |events|
  {
    if events == [] then []
    else
      var most := events[..|events| - 1];
      SeenOf(os, image, most) + Seen(KernelRuns.Run(os, image, most), events[|events| - 1])
  }

  lemma RunOneMore(m: Consoles.Mux, before: seq<Consoles.Event>, seen: seq<Consoles.Event>)
    requires Consoles.MuxOk(m) && |seen| <= 1
    ensures Consoles.Run(m, before + seen) == Apply(Consoles.Run(m, before), seen)
  {
    if seen == [] {
      assert before + seen == before;
    } else {
      assert (before + seen)[..|before + seen| - 1] == before;
    }
  }

  /** The terminals of a kernel run make the run of the consoles on these events. */
  lemma {:induction false} KernelRunOnConsoles(os: OS, image: seq<byte>, events: seq<Event>)
    requires OsOk(os) && FS.ImageOk(image) && KernelRuns.EventsOk(events)
    ensures KernelRuns.Run(os, image, events).mux == Consoles.Run(os.mux, SeenOf(os, image, events))
    decreases |events|
  {
    if events != [] {
      var most, e := events[..|events| - 1], events[|events| - 1];
      KernelRunOnConsoles(os, image, most);
      StepSeen(KernelRuns.Run(os, image, most), image, e);
      RunOneMore(os.mux, SeenOf(os, image, most), Seen(KernelRuns.Run(os, image, most), e));
    }
  }

  predicate Switches(e: Event) { e.KeyEvent? && Consoles.SwitchKey(e.key) }

  /** A key that the shown terminal's line accepts goes onto that line and onto that screen,
      whichever terminal runs, and changes nothing else. */
  lemma KeyIsTyped(os: OS, image: seq<byte>, c: byte)
    requires OsOk(os) && FS.ImageOk(image) && c != 0 && c != 10 && os.mux.cons[os.mux.ts].line.idx < 127
    ensures var m := os.mux;
      var con, idx := m.cons[m.ts], m.cons[m.ts].line.idx;
      var typed := Consoles.Con(Screen.PutChar(con.screen, c), LineEdit.Line(con.line.buf[idx := c], idx + 1));
      Step(os, image, KeyEvent(Consoles.KeyState(false, c, false, false, false, 0)))
      == os.(mux := m.(cons := m.cons[m.ts := typed]))
  {
  }

  lemma StepShown(os: OS, image: seq<byte>, e: Event)
    requires OsOk(os) && FS.ImageOk(image) && EventOk(e)
    ensures Step(os, image, e).mux.ts
            == if Switches(e) then e.key.function_ - 1 else os.mux.ts
  {
    hide Step, Consoles.Step;
    StepSeen(os, image, e);
    if Seen(os, e) != [] {
      Consoles.StepShows(os.mux, Seen(os, e)[0]);
    }
  }

  /** In every run of the kernel the shown terminal is the one that the last Alt with F1, F2
      or F3, event i, named; or the first one when there was none, and i is -1. */
  lemma {:induction false} KernelShownTerminal(os: OS, image: seq<byte>, events: seq<Event>, i: int)
    requires OsOk(os) && FS.ImageOk(image) && KernelRuns.EventsOk(events)
    requires -1 <= i < |events| && (i >= 0 ==> Switches(events[i]))
    requires forall j :: i < j < |events| ==> !Switches(events[j])
    ensures KernelRuns.Run(os, image, events).mux.ts == if i == -1 then os.mux.ts else events[i].key.function_ - 1
    decreases |events|
  {
    hide Step;
    if events != [] {
      var most, e := events[..|events| - 1], events[|events| - 1];
      StepShown(KernelRuns.Run(os, image, most), image, e);
      if i < |most| {
        KernelShownTerminal(os, image, most, i);
      }
    }
  }

  /** So in every run of the kernel each console is as if it had been alone with its own
      share of them. */
  lemma KernelConsolesIndependent(os: OS, image: seq<byte>, events: seq<Event>, t: int)
    requires OsOk(os) && FS.ImageOk(image) && KernelRuns.EventsOk(events) && 0 <= t < NUM_TERMS
    ensures var share := Consoles.Shares(Consoles.Focus(os.mux.ta, os.mux.ts), SeenOf(os, image, events), t);
            KernelRuns.Run(os, image, events).mux.cons[t] == Consoles.ActAll(os.mux.cons[t], share)
  {
    KernelRunOnConsoles(os, image, events);
    Consoles.ConsolesAreIndependent(os.mux, SeenOf(os, image, events), t);
  }

  /** And one that started clear shows the last 25 rows of its own output and typing. */
  lemma KernelConsoleShowsOwnText(os: OS, image: seq<byte>, events: seq<Event>, t: int)
    requires OsOk(os) && FS.ImageOk(image) && KernelRuns.EventsOk(events) && 0 <= t < NUM_TERMS
    requires Typing.ShowsText(os.mux.cons[t].screen, [])
    ensures var share := Consoles.Shares(Consoles.Focus(os.mux.ta, os.mux.ts), SeenOf(os, image, events), t);
            var text := Typing.TextOf(os.mux.cons[t], share);
            text.Some? ==> Typing.ShowsText(KernelRuns.Run(os, image, events).mux.cons[t].screen, text.value)
  {
    KernelRunOnConsoles(os, image, events);
    Typing.RunShowsOwnText(os.mux, SeenOf(os, image, events), t);
  }
}
