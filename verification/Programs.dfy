/** What a program can count on: the terminal on its first two descriptors, files and clocks
    on the ones it opens, and a new shell when a base shell halts. */
module Programs {
  import opened Bytes
  import opened Processes
  import opened KernelRuns
  import opened FileRuns
  import FS = FileSystem
  import Consoles
  import LineEdit
  import ProcTable
  import Screen

  // ----- descriptors 0 and 1

  /** A write of n bytes through descriptor 1 returns n, prints them on the running terminal's
      screen and changes nothing else. */
  ghost predicate Prints(os: OS, buf: seq<byte>, n: int)
    requires OsOk(os) && 0 <= n <= |buf|
  {
    var m := os.mux;
    !SetsClock(os, 1) && WriteResult(os, 1, buf, n) == Wrote(n) &&
    Write(os, 1, buf, n) ==
      os.(mux := m.(cons := m.cons[m.ta := m.cons[m.ta].(screen := Screen.Print(m.cons[m.ta].screen, buf[..n]))]))
  }

  /** A read through descriptor 0 takes the line of the running terminal, when that is shown
      and holds a newline, and empties it; else it waits and changes no console. */
  ghost predicate ReadsLine(os: OS, image: seq<byte>, n: int)
    requires OsOk(os) && FS.ImageOk(image) && n >= 0
  {
    var m := os.mux;
    var line := m.cons[m.ta].line;
    if m.ts == m.ta && LineEdit.Ready(line)
    then ReadResult(os, image, 0, n) == Got(|LineEdit.Taken(line, n)|, LineEdit.Taken(line, n)) &&
         Read(os, image, 0, n).mux == m.(cons := m.cons[m.ta := m.cons[m.ta].(line := LineEdit.Empty())])
    else ReadResult(os, image, 0, n) == Waits && Read(os, image, 0, n) == os
  }

  /** Every call through the descriptor fails and changes nothing. */
  ghost predicate Unused(os: OS, image: seq<byte>, k: int)
    requires OsOk(os) && FS.ImageOk(image)
  {
    !CanClose(os, k) && Close(os, k) == os && !SetsClock(os, k) &&
    (forall n :: ReadResult(os, image, k, n) == Got(-1, []) && Read(os, image, k, n) == os) &&
    (forall buf, n :: WriteResult(os, k, buf, n) == Wrote(-1) && Write(os, k, buf, n) == os)
  }

  ghost predicate OnTerminal(p: Proc) {
    |p.fds| == NUM_MAX_FILES && p.fds[0].flags != 0 && p.fds[0].ops == StdinOps
    && p.fds[1].flags != 0 && p.fds[1].ops == StdoutOps
  }

  lemma PrintsOn(os: OS, buf: seq<byte>, n: int)
    requires OsOk(os) && OnTerminal(os.procs[Cur(os)]) && 0 <= n <= |buf|
    ensures Prints(os, buf, n)
  {
  }

  lemma ReadsLineOn(os: OS, image: seq<byte>, n: int)
    requires OsOk(os) && FS.ImageOk(image) && OnTerminal(os.procs[Cur(os)]) && n >= 0
    ensures ReadsLine(os, image, n)
  {
    var m, fd := os.mux, os.procs[Cur(os)].fds[0];
    assert m.cons[m.ta := m.cons[m.ta]] == m.cons;
  }

  lemma UnusedWhenFree(os: OS, image: seq<byte>, k: int)
    requires OsOk(os) && FS.ImageOk(image) && 2 <= k < 8 && os.procs[Cur(os)].fds[k].flags == 0
    ensures Unused(os, image, k)
  {
  }

  lemma ReadKeepsTerminal(os: OS, image: seq<byte>, k: int, n: int)
    requires OsOk(os) && FS.ImageOk(image) && OnTerminal(os.procs[Cur(os)])
    ensures OnTerminal(Read(os, image, k, n).procs[Cur(os)])
  {
    if 0 <= k < NUM_MAX_FILES {
      var fd := os.procs[Cur(os)].fds[k];
      assert DriverStep(os, image, fd, n).procs == os.procs;
      assert Cur(DriverStep(os, image, fd, n)) == Cur(os);
    }
  }

  lemma OpenKeepsTerminal(os: OS, image: seq<byte>, name: seq<byte>)
    requires OsOk(os) && FS.ImageOk(image) && OnTerminal(os.procs[Cur(os)])
    ensures OnTerminal(Open(os, image, name).procs[Cur(os)])
  {
    hide FS.ImageOk, FS.Entry, FS.Lookup;
  }

  lemma CloseKeepsTerminal(os: OS, k: int)
    requires OsOk(os) && OnTerminal(os.procs[Cur(os)])
    ensures OnTerminal(Close(os, k).procs[Cur(os)])
  {
  }

  lemma RunningKeepsTerminal(os: OS, image: seq<byte>, e: Event)
    requires OsOk(os) && FS.ImageOk(image) && EventOk(e) && !e.HaltEvent? && OnTerminal(os.procs[Cur(os)])
    ensures OnTerminal(Step(os, image, e).procs[Cur(os)])
  {
    hide Read, Open, Write, Close, Start;
    match e
    case ReadEvent(k, n) => ReadKeepsTerminal(os, image, k, n);
    case OpenEvent(name) => OpenKeepsTerminal(os, image, name);
    case CloseEvent(k) => CloseKeepsTerminal(os, k);
    case WriteEvent(k, buf, n) => WriteKeepsProcs(os, k, buf, n);
    case ExecuteEvent(command, ctx) => StartKeepsResume(os, Parse(command).args, ctx);
    case _ =>
  }

  lemma HaltPops(os: OS, ctx: Ctx)
    requires OsOk(os) && !IsBaseShell(os)
    ensures |Halt(os, ctx).stacks[os.mux.ta]| == |os.stacks[os.mux.ta]| - 1
  {
  }

  lemma StepKeepsTerminal(os: OS, image: seq<byte>, e: Event, t: int, d: nat)
    requires OsOk(os) && FS.ImageOk(image) && EventOk(e) && 0 <= t < NUM_TERMS && d > 0
    requires |os.stacks[t]| > d && OnTerminal(os.procs[os.stacks[t][d]])
    ensures var r := Step(os, image, e); |r.stacks[t]| > d ==> OnTerminal(r.procs[os.stacks[t][d]])
  {
    hide Step, OnTerminal;
    StepFrame(os, image, e);
    BelowTop(os, t, d);
    if os.stacks[t][d] == Cur(os) {
      if e.HaltEvent? {
        HaltPops(os, e.ctx);
        HaltStep(os, image, e.ctx);
      } else {
        RunningKeepsTerminal(os, image, e);
      }
    }
  }

  lemma HaltStep(os: OS, image: seq<byte>, ctx: Ctx)
    requires OsOk(os) && FS.ImageOk(image)
    ensures Step(os, image, HaltEvent(ctx)) == Halt(os, ctx)
  {
  }

  /** While the stack stays higher than d, its process d keeps its first two descriptors. */
  lemma {:induction false} TerminalKept(os: OS, image: seq<byte>, events: seq<Event>, t: int, d: nat)
    requires OsOk(os) && FS.ImageOk(image) && EventsOk(events) && 0 <= t < NUM_TERMS && d > 0
    requires StaysAbove(os, image, events, t, d) && |os.stacks[t]| > d && OnTerminal(os.procs[os.stacks[t][d]])
    ensures |Run(os, image, events).stacks[t]| > d && Run(os, image, events).stacks[t][d] == os.stacks[t][d]
    ensures OnTerminal(Run(os, image, events).procs[os.stacks[t][d]])
    decreases |events|
  {
    hide Step, OnTerminal;
    if events != [] {
      var most, e := events[..|events| - 1], events[|events| - 1];
      TerminalKept(os, image, most, t, d);
      ResumeStep(Run(os, image, most), image, e, t, d);
      StepKeepsTerminal(Run(os, image, most), image, e, t, d);
    }
  }

  /** A command names a program that can be started now. */
  ghost predicate Starts(os: OS, image: seq<byte>, command: seq<byte>)
    requires OsOk(os) && FS.ImageOk(image) && NulFree(command)
  {
    Executable(image, Parse(command).name) && FirstFree(os.stacks, 0).Some?
  }

  lemma StartedShape(os: OS, args: seq<byte>, ctx: Ctx)
    requires OsOk(os) && NulFree(args) && FirstFree(os.stacks, 0).Some?
    ensures var started, t, child := Start(os, args, ctx), os.mux.ta, FirstFree(os.stacks, 0).value;
      && started.stacks[t] == os.stacks[t] + [child] && Cur(started) == child && OnTerminal(started.procs[child])
      && (forall k :: 2 <= k < 8 ==> started.procs[child].fds[k].flags == 0)
      && 0x80_0000 - (child + 1) * 0x2000 <= started.procs[child].saved.esp < 0x80_0000 - child * 0x2000
  {
  }

  /** The program started on top of os lives, and runs, at the end of the run. */
  ghost predicate ChildRuns(os: OS, started: OS, image: seq<byte>, events: seq<Event>)
    requires OsOk(os) && OsOk(started) && FS.ImageOk(image) && EventsOk(events)
  {
    var t, d := os.mux.ta, |os.stacks[os.mux.ta]|;
    StaysAbove(started, image, events, t, d) && |started.stacks[t]| > d &&
    Cur(Run(started, image, events)) == started.stacks[t][d]
  }

  /** As long as it lives, whatever it and all other processes do, a program prints on its
      own terminal through descriptor 1 and reads that terminal's line through 0. */
  lemma ProgramHasItsTerminal(os: OS, image: seq<byte>, command: seq<byte>, ctx: Ctx, events: seq<Event>,
                              buf: seq<byte>, n: int)
    requires OsOk(os) && FS.ImageOk(image) && NulFree(command) && EventsOk(events) && 0 <= n <= |buf|
    requires Starts(os, image, command)
    ensures var started := Step(os, image, ExecuteEvent(command, ctx));
      ChildRuns(os, started, image, events) ==>
      var now := Run(started, image, events);
      now.mux.ta == os.mux.ta && Prints(now, buf, n) && ReadsLine(now, image, n)
  {
    hide Step, Run, StaysAbove, OnTerminal, Prints, ReadsLine, Executable, FirstFree, Start;
    var started, t, d := Execute(os, image, command, ctx), os.mux.ta, |os.stacks[os.mux.ta]|;
    ExecuteStep(os, image, command, ctx);
    StartedShape(os, Parse(command).args, ctx);
    if ChildRuns(os, started, image, events) {
      TerminalKept(started, image, events, t, d);
      var now := Run(started, image, events);
      BelowTop(now, t, d);
      PrintsOn(now, buf, n);
      ReadsLineOn(now, image, n);
    }
  }

  lemma ExecuteStep(os: OS, image: seq<byte>, command: seq<byte>, ctx: Ctx)
    requires OsOk(os) && FS.ImageOk(image) && NulFree(command)
    ensures Step(os, image, ExecuteEvent(command, ctx)) == Execute(os, image, command, ctx)
  {
  }

  /** A program starts with nothing on the other descriptors, and with its own kernel stack. */
  lemma ProgramStartsClean(os: OS, image: seq<byte>, command: seq<byte>, ctx: Ctx, k: int)
    requires OsOk(os) && FS.ImageOk(image) && NulFree(command) && Starts(os, image, command) && 2 <= k < 8
    ensures var started := Step(os, image, ExecuteEvent(command, ctx));
      && Cur(started) == FirstFree(os.stacks, 0).value && Unused(started, image, k)
      && 0x80_0000 - (Cur(started) + 1) * 0x2000 <= started.procs[Cur(started)].saved.esp
         < 0x80_0000 - Cur(started) * 0x2000
  {
    hide Start, Unused, Executable, FirstFree;
    StartedShape(os, Parse(command).args, ctx);
    UnusedWhenFree(Start(os, Parse(command).args, ctx), image, k);
  }

  // ----- a base shell halts

  /** A base shell that halts is replaced: a new one runs in its pid on its terminal, with no
      arguments, no open files and its own kernel stack, and resumes at the given place.
      Stacks, all other processes, consoles, clock rates and the directory cursor stay. */
  lemma BaseShellIsReplaced(os: OS, image: seq<byte>, ctx: Ctx, k: int, buf: seq<byte>, n: int)
    requires OsOk(os) && FS.ImageOk(image) && IsBaseShell(os) && 2 <= k < 8 && 0 <= n <= |buf|
    ensures var r, p := Step(os, image, HaltEvent(ctx)), Cur(os);
      && r.stacks == os.stacks && r.mux == os.mux && r.rtc == os.rtc && r.dirIndex == os.dirIndex
      && Cur(r) == p && Live(r.stacks, p) && (forall q :: 0 <= q < 6 && q != p ==> r.procs[q] == os.procs[q])
      && r.procs[p].args == [] && r.procs[p].resume == ctx
      && 0x80_0000 - (p + 1) * 0x2000 <= r.procs[p].saved.esp < 0x80_0000 - p * 0x2000
      && Unused(r, image, k) && Prints(r, buf, n) && ReadsLine(r, image, n)
  {
    hide Unused, Prints, ReadsLine;
    var r := Halt(os, ctx);
    BelowTop(os, os.mux.ta, |os.stacks[os.mux.ta]| - 1);
    UnusedWhenFree(r, image, k);
    PrintsOn(r, buf, n);
    ReadsLineOn(r, image, n);
  }

  // ----- which files are programs

  /** The name is that of a file of at least four bytes that start 7F 45 4C 46 on the disk. */
  ghost predicate IsProgram(image: seq<byte>, name: seq<byte>)
    requires FS.ImageOk(image)
  {
    var i := FS.Lookup(image, name);
    i.Some? && 64 * i.value + 128 <= |image| &&
    var n := FS.U32(image, 64 * i.value + 100);
    n < FS.U32(image, 4) && (n + 2) * 4096 <= |image| && FS.U32(image, (n + 1) * 4096) >= 4 &&
    FS.OnDisk(image, n, 0, 0x7F) && FS.OnDisk(image, n, 1, 'E' as int) &&
    FS.OnDisk(image, n, 2, 'L' as int) && FS.OnDisk(image, n, 3, 'F' as int)
  }

  lemma MagicOnDisk(image: seq<byte>, n: nat)
    requires FS.ImageOk(image) && n < FS.NumInodes(image) && FS.FileLength(image, n) >= 4
    ensures FS.Contents(image, n)[..4] == ELF <==>
      FS.OnDisk(image, n, 0, 0x7F) && FS.OnDisk(image, n, 1, 'E' as int) &&
      FS.OnDisk(image, n, 2, 'L' as int) && FS.OnDisk(image, n, 3, 'F' as int)
  {
    hide FS.ImageOk, FS.Contents, FS.FileLength, FS.NumInodes;
    var file := FS.Contents(image, n);
    FS.ContentsOnDisk(image, n, 0);
    FS.ContentsOnDisk(image, n, 1);
    FS.ContentsOnDisk(image, n, 2);
    FS.ContentsOnDisk(image, n, 3);
    assert file[..4] == [file[0], file[1], file[2], file[3]];
  }

  lemma ExecutableIff(image: seq<byte>, name: seq<byte>)
    requires FS.ImageOk(image)
    ensures Executable(image, name) <==> IsProgram(image, name)
  {
    hide FS.Lookup, FS.OnDisk, FS.Contents;
    var i := FS.Lookup(image, name);
    if i.Some? {
      FS.EntryOnDisk(image, i.value);
      var n := FS.Entry(image, i.value).inode;
      if n < FS.NumInodes(image) && FS.FileLength(image, n) >= 4 {
        MagicOnDisk(image, n);
      }
    }
  }

  /** Execute starts a process if and only if the command names a program and a pid is free;
      it then runs on top of its parent, with the command's arguments, and returns to the
      given place.  Otherwise nothing changes. */
  lemma ExecuteStartsIff(os: OS, image: seq<byte>, command: seq<byte>, ctx: Ctx)
    requires OsOk(os) && FS.ImageOk(image) && NulFree(command)
    ensures var r, t := Step(os, image, ExecuteEvent(command, ctx)), os.mux.ta;
      if IsProgram(image, Parse(command).name) && exists p :: 0 <= p < 6 && !Live(os.stacks, p)
      then r.stacks[t] == os.stacks[t] + [Cur(r)] && !Live(os.stacks, Cur(r)) && r.mux == os.mux && r.rtc == os.rtc
           && (forall q :: 0 <= q < Cur(r) ==> Live(os.stacks, q))
           && r.procs[Cur(r)].args == Parse(command).args && r.procs[Cur(r)].resume == ctx
      else r == os
  {
    hide IsProgram, Executable;
    ExecutableIff(image, Parse(command).name);
  }

  // ----- files and clocks

  /** An open takes the least unused descriptor from 2 on; it fails if and only if there is
      no such file or no such descriptor. */
  lemma OpenTakesLeast(os: OS, image: seq<byte>, name: seq<byte>)
    requires OsOk(os) && FS.ImageOk(image)
    ensures var fds, k := os.procs[Cur(os)].fds, OpenResult(os, image, name);
      if FS.Lookup(image, name).Some? && exists j :: 2 <= j < 8 && fds[j].flags == 0
      then 2 <= k < 8 && fds[k].flags == 0 && forall j :: 2 <= j < k ==> fds[j].flags != 0
      else k == -1 && Step(os, image, OpenEvent(name)) == os
  {
  }

  lemma AttachedFd(os: OS, image: seq<byte>, name: seq<byte>)
    requires OsOk(os) && FS.ImageOk(image) && OpenResult(os, image, name) >= 0
    ensures FS.Lookup(image, name).Some? && 0 <= OpenResult(os, image, name) < 8
    ensures var d, k := FS.Entry(image, FS.Lookup(image, name).value), OpenResult(os, image, name);
      var r := Open(os, image, name);
      && r.stacks == os.stacks && r.mux == os.mux && r.dirIndex == os.dirIndex
      && (d.fileType == 0 ==> r.procs[Cur(os)].fds[k] == Fd(RtcOps, d.inode, 0, 1))
      && (d.fileType == 1 ==> r.procs[Cur(os)].fds[k] == Fd(DirOps, d.inode, 0, 1))
      && (d.fileType == 2 ==> r.procs[Cur(os)].fds[k] == Fd(RegularOps, d.inode, 0, 1))
      && r.rtc == (if d.fileType == 0 then os.rtc[Cur(os) := 2] else os.rtc)
  {
  }

  /** Opened, and read in whatever pieces while all processes go on, a regular file is
      delivered from its first byte, as long as the sizes asked for and no longer than itself. */
  lemma OpenedFileIsRead(os: OS, image: seq<byte>, name: seq<byte>, events: seq<Event>)
    requires OsOk(os) && FS.ImageOk(image) && EventsOk(events) && OpenResult(os, image, name) >= 0
    ensures FS.Lookup(image, name).Some?
    ensures var i, p, k := FS.Lookup(image, name).value, Cur(os), OpenResult(os, image, name);
      var now, n := Step(os, image, OpenEvent(name)), FS.Entry(image, i).inode;
      FS.Entry(image, i).fileType == 2 && n < FS.NumInodes(image) && KeepsAll(now, image, events, p, k) ==>
        && Asked(now, image, events, p, k) >= 0
        && Log(now, image, events, p, k)
           == FS.Contents(image, n)[..Min(|FS.Contents(image, n)|, Asked(now, image, events, p, k))]
  {
    hide FS.Contents, FS.Lookup, FS.FileLength, FS.NumInodes, FS.Entry, KeepsAll, Log, Asked, Open, OpenResult, Run;
    AttachedFd(os, image, name);
    var p, k := Cur(os), OpenResult(os, image, name);
    var now, d := Open(os, image, name), FS.Entry(image, FS.Lookup(image, name).value);
    OpenTakesLeast(os, image, name);
    OpenStep(os, image, name);
    if d.fileType == 2 && d.inode < FS.NumInodes(image) && KeepsAll(now, image, events, p, k) {
      BelowTop(now, os.mux.ta, |os.stacks[os.mux.ta]| - 1);
      ReadsAreTheFile(now, image, events, p, k);
    }
  }

  lemma OpenStep(os: OS, image: seq<byte>, name: seq<byte>)
    requires OsOk(os) && FS.ImageOk(image)
    ensures Step(os, image, OpenEvent(name)) == Open(os, image, name)
    ensures Cur(Open(os, image, name)) == Cur(os) && 0 <= Cur(os) < MAX_PID
  {
  }

  /** A clock: opening it sets the process's rate to 2 Hz, a read returns 0, a write sets the
      rate to its first word, returning 0, if and only if that is 2 to 1024, and else -1. */
  lemma ClockCalls(os: OS, image: seq<byte>, name: seq<byte>, buf: seq<byte>, n: int)
    requires OsOk(os) && FS.ImageOk(image) && OpenResult(os, image, name) >= 0 && |buf| >= 4
    ensures FS.Lookup(image, name).Some?
    ensures var k, now := OpenResult(os, image, name), Step(os, image, OpenEvent(name));
      FS.Entry(image, FS.Lookup(image, name).value).fileType == 0 ==>
      var rate := FS.U32(buf, 0);
      && now.rtc == os.rtc[Cur(os) := 2] && ReadResult(now, image, k, n) == Got(0, [])
      && Read(now, image, k, n).rtc == now.rtc
      && WriteResult(now, k, buf, n) == Wrote(if 2 <= rate <= 1024 then 0 else -1)
      && Write(now, k, buf, n) == if 2 <= rate <= 1024 then now.(rtc := now.rtc[Cur(os) := rate]) else now
  {
    hide FS.Lookup, FS.Entry, OpenResult, Open, FS.U32;
    AttachedFd(os, image, name);
    OpenStep(os, image, name);
    if FS.Entry(image, FS.Lookup(image, name).value).fileType == 0 {
      ClockRead(Open(os, image, name), image, OpenResult(os, image, name), n);
    }
  }

  lemma ClockRead(os: OS, image: seq<byte>, k: int, n: int)
    requires OsOk(os) && FS.ImageOk(image) && 0 <= k < 8
    requires os.procs[Cur(os)].fds[k].flags != 0 && os.procs[Cur(os)].fds[k].ops == RtcOps
    ensures ReadResult(os, image, k, n) == Got(0, []) && Read(os, image, k, n).rtc == os.rtc
  {
  }

  /** What a close does to the running process's descriptors, its clock and the cursor. */
  lemma ClosedFd(os: OS, k: int)
    requires OsOk(os) && 2 <= k < 8 && os.procs[Cur(os)].fds[k].flags != 0
    ensures var fd, r := os.procs[Cur(os)].fds[k], Close(os, k);
      && CanClose(os, k) && r.stacks == os.stacks && r.mux == os.mux
      && (forall q :: 0 <= q < 6 && q != Cur(os) ==> r.procs[q] == os.procs[q])
      && r.procs[Cur(os)].fds == os.procs[Cur(os)].fds[k := UNUSED]
      && r.rtc == (if fd.ops == RtcOps then os.rtc[Cur(os) := 1024] else os.rtc)
      && r.dirIndex == (if fd.ops == DirOps then 0 else os.dirIndex)
  {
  }

  lemma AttachedOthers(os: OS, image: seq<byte>, name: seq<byte>)
    requires OsOk(os) && FS.ImageOk(image) && OpenResult(os, image, name) >= 0
    ensures var k, r := OpenResult(os, image, name), Open(os, image, name);
      && 0 <= k < 8
      && (forall q :: 0 <= q < 6 && q != Cur(os) ==> r.procs[q] == os.procs[q])
      && (forall j :: 0 <= j < 8 && j != k ==> r.procs[Cur(os)].fds[j] == os.procs[Cur(os)].fds[j])
  {
    hide FS.ImageOk, FS.Entry, FS.Lookup;
  }

  lemma SameFirstUnused(fds: seq<Fd>, fds': seq<Fd>, k: int)
    requires |fds| == |fds'| == NUM_MAX_FILES && k == FirstUnused(fds, MIN_FD_INDEX) < NUM_MAX_FILES
    requires fds'[k].flags == 0 && forall j :: 0 <= j < 8 && j != k ==> fds'[j] == fds[j]
    ensures FirstUnused(fds', MIN_FD_INDEX) == k
  {
    var k' := FirstUnused(fds', MIN_FD_INDEX);
    assert MIN_FD_INDEX <= k' <= NUM_MAX_FILES;
  }

  /** A close of what was opened frees the descriptor for the next open, sets a clock back to
      1024 Hz and the directory cursor to the front, and a second close fails. */
  lemma CloseUndoesOpen(os: OS, image: seq<byte>, name: seq<byte>)
    requires OsOk(os) && FS.ImageOk(image) && OpenResult(os, image, name) >= 0
    ensures FS.Lookup(image, name).Some?
    ensures var k, d := OpenResult(os, image, name), FS.Entry(image, FS.Lookup(image, name).value);
      var now := Step(os, image, OpenEvent(name));
      var closed := Step(now, image, CloseEvent(k));
      d.fileType <= 2 ==>
      && CanClose(now, k) && Unused(closed, image, k) && OpenResult(closed, image, name) == k
      && closed.stacks == os.stacks && closed.mux == os.mux
      && (forall q :: 0 <= q < 6 && q != Cur(os) ==> closed.procs[q] == os.procs[q])
      && (forall j :: 0 <= j < 8 && j != k ==> closed.procs[Cur(os)].fds[j] == os.procs[Cur(os)].fds[j])
      && closed.rtc == (if d.fileType == 0 then os.rtc[Cur(os) := 1024] else os.rtc)
      && closed.dirIndex == (if d.fileType == 1 then 0 else os.dirIndex)
  {
    hide Unused, FS.Lookup, FS.Entry, Open, Close, FirstUnused, CanClose, FS.ImageOk;
    var k, now := OpenResult(os, image, name), Open(os, image, name);
    AttachedFd(os, image, name);
    AttachedOthers(os, image, name);
    OpenStep(os, image, name);
    if FS.Entry(image, FS.Lookup(image, name).value).fileType <= 2 {
      var closed := Close(now, k);
      ClosedFd(now, k);
      UnusedWhenFree(closed, image, k);
      SameFirstUnused(os.procs[Cur(os)].fds, closed.procs[Cur(os)].fds, k);
    }
  }

  // ----- what a halt closes

  ghost predicate Holds(fds: seq<Fd>, ops: FileOps)
    requires |fds| == NUM_MAX_FILES
  {
    exists k :: 2 <= k < 8 && fds[k].flags != 0 && fds[k].ops == ops
  }

  lemma HoldsIsOpen(fds: seq<Fd>, ops: FileOps)
    requires |fds| == NUM_MAX_FILES
    ensures Holds(fds, ops) <==> HasOpen(fds, ops)
  {
    assert forall k :: 2 <= k < 8 ==> (IsOpenAs(fds, k, ops) <==> fds[k].flags != 0 && fds[k].ops == ops);
    if HasOpen(fds, ops) {
      var k :| MIN_FD_INDEX <= k < NUM_MAX_FILES && IsOpenAs(fds, k, ops);
      assert fds[k].flags != 0 && fds[k].ops == ops;
    }
  }

  /** A program that halts leaves no descriptor open; its clock goes back to 1024 Hz if it
      held one, and the directory cursor to the front if it held a directory.  Its terminal's
      line is emptied when that is shown, and else overwritten with zeros. */
  lemma HaltCloses(os: OS, image: seq<byte>, ctx: Ctx)
    requires OsOk(os) && FS.ImageOk(image) && !IsBaseShell(os)
    ensures var r, p := Step(os, image, HaltEvent(ctx)), Cur(os);
      && (forall k :: 0 <= k < 8 ==> r.procs[p].fds[k].flags == 0)
      && r.rtc == (if Holds(os.procs[p].fds, RtcOps) then os.rtc[p := 1024] else os.rtc)
      && r.dirIndex == (if Holds(os.procs[p].fds, DirOps) then 0 else os.dirIndex)
      && var m := os.mux;
         var idx := if m.ts == m.ta then 0 else m.cons[m.ta].line.idx;
         r.mux == m.(cons := m.cons[m.ta := m.cons[m.ta].(line := LineEdit.Line(Zeros(128), idx))])
  {
    hide HasOpen, Holds;
    HoldsIsOpen(os.procs[Cur(os)].fds, RtcOps);
    HoldsIsOpen(os.procs[Cur(os)].fds, DirOps);
  }

  // ----- no program is left a clock

  /** Every pid but the base shells' either is live and holds a clock, or its rate is 1024 Hz;
      a live one has its terminal. */
  ghost predicate Tidy(os: OS)
    requires OsOk(os)
  {
    forall p :: 3 <= p < 6 ==> TidyPid(os, p)
  }

  ghost predicate TidyPid(os: OS, p: int)
    requires OsOk(os) && 0 <= p < 6
  {
    && (Live(os.stacks, p) ==> OnTerminal(os.procs[p]))
    && (os.rtc[p] == 1024 || (Live(os.stacks, p) && Holds(os.procs[p].fds, RtcOps)))
  }

  lemma BaseShellPid(os: OS)
    requires OsOk(os) && IsBaseShell(os)
    ensures 0 <= Cur(os) < 3
  {
    assert os.stacks[os.mux.ta][0] == os.mux.ta;
  }

  lemma HaltTidy(os: OS, image: seq<byte>, ctx: Ctx, p: int)
    requires OsOk(os) && FS.ImageOk(image) && 3 <= p < 6 && TidyPid(os, p)
    ensures TidyPid(Step(os, image, HaltEvent(ctx)), p)
  {
    hide Holds, OnTerminal;
    if IsBaseShell(os) {
      BaseShellPid(os);
    } else {
      HaltCloses(os, image, ctx);
      HaltFrees(os, ctx);
    }
  }

  lemma StartTidy(os: OS, args: seq<byte>, ctx: Ctx, p: int)
    requires OsOk(os) && NulFree(args) && 3 <= p < 6 && TidyPid(os, p)
    ensures TidyPid(Start(os, args, ctx), p)
  {
    hide Holds;
    var free := FirstFree(os.stacks, 0);
    if free.Some? {
      StartedShape(os, args, ctx);
      PushedLive(os.stacks, os.mux.ta, free.value, p);
    }
  }

  lemma PushedLive(stacks: seq<seq<int>>, t: int, c: int, p: int)
    requires |stacks| == NUM_TERMS && 0 <= t < NUM_TERMS
    ensures Live(stacks[t := stacks[t] + [c]], p) <==> Live(stacks, p) || p == c
  {
    assert p in stacks[t] + [c] <==> p in stacks[t] || p == c;
  }

  lemma HoldsRest(fds: seq<Fd>, fds': seq<Fd>, k: int)
    requires |fds| == |fds'| == NUM_MAX_FILES && 0 <= k < 8 && (fds[k].flags == 0 || fds[k].ops != RtcOps)
    requires forall j :: 0 <= j < 8 && j != k ==> fds'[j] == fds[j]
    ensures Holds(fds, RtcOps) ==> Holds(fds', RtcOps)
  {
    if Holds(fds, RtcOps) {
      var j :| 2 <= j < 8 && fds[j].flags != 0 && fds[j].ops == RtcOps;
      assert fds'[j].ops == RtcOps;
    }
  }

  lemma OpenTidy(os: OS, image: seq<byte>, name: seq<byte>, p: int)
    requires OsOk(os) && FS.ImageOk(image) && 3 <= p < 6 && TidyPid(os, p)
    ensures TidyPid(Open(os, image, name), p)
  {
    hide Open, OpenResult, Holds, OnTerminal, FS.Lookup, FS.Entry;
    OpenFrame(os, image, name);
    OpenTakesLeast(os, image, name);
    var k := OpenResult(os, image, name);
    OpenStep(os, image, name);
    if k >= 0 && p == Cur(os) {
      BelowTop(os, os.mux.ta, |os.stacks[os.mux.ta]| - 1);
      OpenKeepsTerminal(os, image, name);
      AttachedFd(os, image, name);
      AttachedOthers(os, image, name);
      HoldsRest(os.procs[p].fds, Open(os, image, name).procs[p].fds, k);
      if FS.Entry(image, FS.Lookup(image, name).value).fileType == 0 {
        HoldsAt(Open(os, image, name).procs[p].fds, k);
      }
    }
  }

  lemma HoldsAt(fds: seq<Fd>, k: int)
    requires |fds| == NUM_MAX_FILES && 2 <= k < 8 && fds[k].flags != 0 && fds[k].ops == RtcOps
    ensures Holds(fds, RtcOps)
  {
  }

  lemma CloseTidy(os: OS, k: int, p: int)
    requires OsOk(os) && 3 <= p < 6 && TidyPid(os, p)
    ensures TidyPid(Close(os, k), p)
  {
    hide Close, Holds, OnTerminal;
    CloseFrame(os, k);
    if p == Cur(os) {
      CloseKeepsTerminal(os, k);
      if 2 <= k < 8 && os.procs[p].fds[k].flags != 0 {
        ClosedFd(os, k);
        if os.procs[p].fds[k].ops != RtcOps {
          HoldsRest(os.procs[p].fds, Close(os, k).procs[p].fds, k);
        }
      } else {
        CloseNothing(os, k);
      }
    }
  }

  lemma CloseNothing(os: OS, k: int)
    requires OsOk(os) && !(2 <= k < 8 && os.procs[Cur(os)].fds[k].flags != 0)
    ensures Close(os, k) == os
  {
  }

  lemma AdvanceKeepsOps(os: OS, k: int, result: ReadOutcome)
    requires OsOk(os) && 0 <= k < 8
    ensures var r := Advance(os, k, os.procs[Cur(os)].fds[k], result);
      r.rtc == os.rtc && forall j :: 0 <= j < 8 ==>
        r.procs[Cur(os)].fds[j].ops == os.procs[Cur(os)].fds[j].ops
        && r.procs[Cur(os)].fds[j].flags == os.procs[Cur(os)].fds[j].flags
  {
  }

  lemma ReadKeepsOps(os: OS, image: seq<byte>, k: int, n: int)
    requires OsOk(os) && FS.ImageOk(image)
    ensures var r := Read(os, image, k, n);
      r.rtc == os.rtc && forall j :: 0 <= j < 8 ==>
        r.procs[Cur(os)].fds[j].ops == os.procs[Cur(os)].fds[j].ops
        && r.procs[Cur(os)].fds[j].flags == os.procs[Cur(os)].fds[j].flags
  {
    hide Advance, DriverRead, FS.ImageOk;
    if 0 <= k < NUM_MAX_FILES {
      var fd := os.procs[Cur(os)].fds[k];
      var os' := DriverStep(os, image, fd, n);
      assert os'.procs == os.procs && Cur(os') == Cur(os) && os'.rtc == os.rtc;
      AdvanceKeepsOps(os', k, DriverRead(os, image, fd, n));
    }
  }

  lemma ReadTidy(os: OS, image: seq<byte>, k: int, n: int, p: int)
    requires OsOk(os) && FS.ImageOk(image) && 3 <= p < 6 && TidyPid(os, p)
    ensures TidyPid(Read(os, image, k, n), p)
  {
    hide Read;
    ReadFrame(os, image, k, n);
    ReadKeepsOps(os, image, k, n);
    var r := Read(os, image, k, n);
    if p == Cur(os) && Holds(os.procs[p].fds, RtcOps) {
      var j :| 2 <= j < 8 && os.procs[p].fds[j].flags != 0 && os.procs[p].fds[j].ops == RtcOps;
      HoldsAt(r.procs[p].fds, j);
    }
  }

  lemma WriteRate(os: OS, k: int, buf: seq<byte>, n: int)
    requires OsOk(os)
    ensures Write(os, k, buf, n).stacks == os.stacks
    ensures forall p :: 0 <= p < 6 && p != Cur(os) ==> Write(os, k, buf, n).rtc[p] == os.rtc[p]
    ensures Write(os, k, buf, n).rtc == os.rtc || SetsClock(os, k)
  {
  }

  lemma WriteTidy(os: OS, k: int, buf: seq<byte>, n: int, p: int)
    requires OsOk(os) && 3 <= p < 6 && TidyPid(os, p)
    ensures TidyPid(Write(os, k, buf, n), p)
  {
    hide Write, Holds;
    WriteKeepsProcs(os, k, buf, n);
    WriteRate(os, k, buf, n);
    if p == Cur(os) {
      BelowTop(os, os.mux.ta, |os.stacks[os.mux.ta]| - 1);
      if SetsClock(os, k) {
        HoldsAt(os.procs[p].fds, k);
      }
    }
  }

  lemma StepTidy(os: OS, image: seq<byte>, e: Event, p: int)
    requires OsOk(os) && FS.ImageOk(image) && EventOk(e) && 3 <= p < 6 && TidyPid(os, p)
    ensures TidyPid(Step(os, image, e), p)
  {
    hide Read, Open, Write, Close, Start, Halt, Holds;
    match e
    case ReadEvent(k, n) => ReadTidy(os, image, k, n, p);
    case ExecuteEvent(command, ctx) => StartTidy(os, Parse(command).args, ctx, p);
    case OpenEvent(name) => OpenTidy(os, image, name, p);
    case CloseEvent(k) => CloseTidy(os, k, p);
    case HaltEvent(ctx) => HaltTidy(os, image, ctx, p);
    case WriteEvent(k, buf, n) => WriteTidy(os, k, buf, n, p);
    case _ =>
  }

  /** The start state is tidy. */
  lemma StartIsTidy(os: OS)
    requires OsOk(os) && os.stacks == [[0], [1], [2]] && os.rtc == [1024, 1024, 1024, 1024, 1024, 1024]
    ensures Tidy(os)
  {
    assert forall p :: 3 <= p < 6 ==> !Live(os.stacks, p);
  }

  /** Every run keeps that. */
  lemma {:induction false} StaysTidy(os: OS, image: seq<byte>, events: seq<Event>)
    requires OsOk(os) && FS.ImageOk(image) && EventsOk(events) && Tidy(os)
    ensures Tidy(Run(os, image, events))
    decreases |events|
  {
    hide Step, TidyPid;
    if events != [] {
      var most, e := events[..|events| - 1], events[|events| - 1];
      StaysTidy(os, image, most);
      forall p | 3 <= p < 6 ensures TidyPid(Step(Run(os, image, most), image, e), p) {
        StepTidy(Run(os, image, most), image, e, p);
      }
    }
  }

  /** So every program, whenever it is started, gets a clock of 1024 Hz, whichever programs
      had its pid before. */
  lemma ProgramStartsAtFullRate(os: OS, image: seq<byte>, events: seq<Event>, command: seq<byte>, ctx: Ctx)
    requires OsOk(os) && FS.ImageOk(image) && EventsOk(events) && Tidy(os) && NulFree(command)
    ensures var now := Run(os, image, events);
      Starts(now, image, command) ==>
      var started := Step(now, image, ExecuteEvent(command, ctx));
      Cur(started) >= 3 && started.rtc[Cur(started)] == 1024
  {
    hide Run, Start, Executable, Holds;
    StaysTidy(os, image, events);
    var now := Run(os, image, events);
    if Starts(now, image, command) {
      StartedShape(now, Parse(command).args, ctx);
      StartShape(now, Parse(command).args, ctx);
      ProcTable.BasesLive(now.stacks);
      assert TidyPid(now, FirstFree(now.stacks, 0).value);
      ExecuteStep(now, image, command, ctx);
    }
  }

  /** A base shell is not so lucky: a clock that it opened keeps its rate when it halts,
      although the new shell holds no clock. */
  lemma BaseShellKeepsRate(os: OS, image: seq<byte>, name: seq<byte>, ctx: Ctx, k: int)
    requires OsOk(os) && FS.ImageOk(image) && IsBaseShell(os) && OpenResult(os, image, name) >= 0 && 2 <= k < 8
    requires FS.Entry(image, FS.Lookup(image, name).value).fileType == 0
    ensures var r := Step(Step(os, image, OpenEvent(name)), image, HaltEvent(ctx));
      r.rtc[Cur(os)] == 2 && Cur(r) == Cur(os) && Unused(r, image, k)
  {
    hide Open, OpenResult, Halt, Unused, FS.Lookup, FS.Entry;
    AttachedFd(os, image, name);
    OpenStep(os, image, name);
    BaseShellIsReplaced(Open(os, image, name), image, ctx, k, [], 0);
  }
}
