/** Whole runs of the kernel: what stays untouched while other processes work. */
module KernelRuns {
  import opened Bytes
  import opened Processes
  import FS = FileSystem

  ghost predicate EventsOk(events: seq<Event>) {
    forall k :: 0 <= k < |events| ==> EventOk(events[k])
  }

  function Run(os: OS, image: seq<byte>, events: seq<Event>): (r: OS)
    requires OsOk(os) && FS.ImageOk(image) && EventsOk(events)
    ensures OsOk(r)
    decreases |events|
  {
    if events == [] then os else Step(Run(os, image, events[..|events| - 1]), image, events[|events| - 1])
  }

  // ----- one step

  /** Only the running terminal's stack differs, at its top, and only the process
      that runs, with its clock, or a pid that no stack holds. */
  ghost predicate Frame(os: OS, r: OS)
    requires OsOk(os) && OsOk(r)
  {
    && (forall u :: 0 <= u < NUM_TERMS && u != os.mux.ta ==> r.stacks[u] == os.stacks[u])
    && TopChange(os, r.stacks[os.mux.ta])
    && (forall p :: 0 <= p < MAX_PID && p != Cur(os) && Live(os.stacks, p) ==> r.procs[p] == os.procs[p])
    && (forall p :: 0 <= p < MAX_PID && p != Cur(os) ==> r.rtc[p] == os.rtc[p])
  }

  ghost predicate TopChange(os: OS, stack: seq<int>)
    requires OsOk(os)
  {
    var was := os.stacks[os.mux.ta];
    stack == was || stack == was[..|was| - 1] ||
    (|stack| == |was| + 1 && stack[..|was|] == was && !Live(os.stacks, Top(stack)))
  }

  lemma StartFrame(os: OS, args: seq<byte>, ctx: Ctx)
    requires OsOk(os) && NulFree(args)
    ensures Frame(os, Start(os, args, ctx))
  {
    var was, r := os.stacks[os.mux.ta], Start(os, args, ctx);
    if FirstFree(os.stacks, 0).Some? {
      assert (was + [FirstFree(os.stacks, 0).value])[..|was|] == was;
    }
  }

  lemma HaltFrame(os: OS, ctx: Ctx)
    requires OsOk(os)
    ensures Frame(os, Halt(os, ctx))
  {
  }

  /** Only descriptors and saved registers of the running process differ. */
  ghost predicate CallFrame(os: OS, r: OS)
    requires OsOk(os) && OsOk(r)
  {
    r.stacks == os.stacks &&
    forall p :: 0 <= p < MAX_PID && p != Cur(os) ==> r.procs[p] == os.procs[p] && r.rtc[p] == os.rtc[p]
  }

  lemma ReadFrame(os: OS, image: seq<byte>, k: int, n: int)
    requires OsOk(os) && FS.ImageOk(image)
    ensures CallFrame(os, Read(os, image, k, n))
  {
    if 0 <= k < NUM_MAX_FILES {
      var fd := os.procs[Cur(os)].fds[k];
      var os' := DriverStep(os, image, fd, n);
      assert os'.stacks == os.stacks && os'.procs == os.procs;
      assert os'.mux.ta == os.mux.ta;
    }
  }

  lemma OpenFrame(os: OS, image: seq<byte>, name: seq<byte>)
    requires OsOk(os) && FS.ImageOk(image)
    ensures CallFrame(os, Open(os, image, name))
  {
    hide FS.ImageOk, FS.Entry, FS.Lookup, FirstUnused;
  }

  lemma WriteFrame(os: OS, k: int, buf: seq<byte>, n: int)
    requires OsOk(os)
    ensures CallFrame(os, Write(os, k, buf, n))
  {
  }

  lemma TickFrame(os: OS, ctx: Ctx)
    requires OsOk(os)
    ensures CallFrame(os, Tick(os, ctx))
  {
  }

  lemma CloseFrame(os: OS, k: int)
    requires OsOk(os)
    ensures CallFrame(os, Close(os, k))
  {
  }

  lemma StepFrame(os: OS, image: seq<byte>, e: Event)
    requires OsOk(os) && FS.ImageOk(image) && EventOk(e)
    ensures Frame(os, Step(os, image, e))
  {
    hide Read, Open, Write, Close, Start, Halt, StacksOk, ProcsOk, RtcOk;
    match e
    case ExecuteEvent(command, ctx) => StartFrame(os, Parse(command).args, ctx);
    case HaltEvent(ctx) => HaltFrame(os, ctx);
    case ReadEvent(k, n) => ReadFrame(os, image, k, n);
    case OpenEvent(name) => OpenFrame(os, image, name);
    case WriteEvent(k, buf, n) => WriteFrame(os, k, buf, n);
    case TickEvent(ctx) => TickFrame(os, ctx);
    case CloseEvent(k) => CloseFrame(os, k);
    case KeyEvent(key) =>
  }

  // ----- a process that waits for its child

  /** Up to every point of the run, terminal t's stack is higher than d. */
  ghost predicate StaysAbove(os: OS, image: seq<byte>, events: seq<Event>, t: int, d: int)
    requires OsOk(os) && FS.ImageOk(image) && EventsOk(events) && 0 <= t < NUM_TERMS
    decreases |events|
  {
    && |Run(os, image, events).stacks[t]| > d
    && (events != [] ==> StaysAbove(os, image, events[..|events| - 1], t, d))
  }

  /** The pids below a stack's top are live and do not run. */
  lemma BelowTop(os: OS, t: int, i: int)
    requires OsOk(os) && 0 <= t < NUM_TERMS && 0 <= i < |os.stacks[t]|
    ensures Live(os.stacks, os.stacks[t][i])
    ensures os.stacks[t][i] == Cur(os) <==> t == os.mux.ta && i == |os.stacks[t]| - 1
  {
    assert os.stacks[t][i] in os.stacks[t];
    assert Cur(os) == os.stacks[os.mux.ta][|os.stacks[os.mux.ta]| - 1];
  }

  /** While the stack stays higher than d, its lowest d processes keep their places,
      descriptors, file positions, arguments, saved registers and clock rates, whatever
      all terminals do. */
  lemma {:induction false} WaitingProcessesUntouched(os: OS, image: seq<byte>, events: seq<Event>, t: int, d: nat)
    requires OsOk(os) && FS.ImageOk(image) && EventsOk(events) && 0 <= t < NUM_TERMS
    requires StaysAbove(os, image, events, t, d)
    ensures |os.stacks[t]| > d && |Run(os, image, events).stacks[t]| > d
    ensures Run(os, image, events).stacks[t][..d] == os.stacks[t][..d]
    ensures forall i :: 0 <= i < d ==> Run(os, image, events).procs[os.stacks[t][i]] == os.procs[os.stacks[t][i]]
    ensures forall i :: 0 <= i < d ==> Run(os, image, events).rtc[os.stacks[t][i]] == os.rtc[os.stacks[t][i]]
    decreases |events|
  {
    hide Step;
    if events != [] {
      var most, e := events[..|events| - 1], events[|events| - 1];
      WaitingProcessesUntouched(os, image, most, t, d);
      var mid := Run(os, image, most);
      StepFrame(mid, image, e);
      forall i | 0 <= i < d
        ensures Step(mid, image, e).procs[os.stacks[t][i]] == os.procs[os.stacks[t][i]]
        ensures Step(mid, image, e).rtc[os.stacks[t][i]] == os.rtc[os.stacks[t][i]]
      {
        assert mid.stacks[t][..d][i] == os.stacks[t][..d][i];
        BelowTop(mid, t, i);
      }
      assert Step(mid, image, e).stacks[t][..d] == mid.stacks[t][..d];
    }
  }

  /** A child keeps the place its parent resumes at, and its own arguments, for as long
      as it lives. */
  lemma {:induction false} ResumeKept(os: OS, image: seq<byte>, events: seq<Event>, t: int, d: nat)
    requires OsOk(os) && FS.ImageOk(image) && EventsOk(events) && 0 <= t < NUM_TERMS && d > 0
    requires StaysAbove(os, image, events, t, d)
    ensures |os.stacks[t]| > d && |Run(os, image, events).stacks[t]| > d
    ensures Run(os, image, events).stacks[t][d] == os.stacks[t][d]
    ensures Run(os, image, events).procs[os.stacks[t][d]].resume == os.procs[os.stacks[t][d]].resume
    ensures Run(os, image, events).procs[os.stacks[t][d]].args == os.procs[os.stacks[t][d]].args
    decreases |events|
  {
    hide Step;
    if events != [] {
      var most, e := events[..|events| - 1], events[|events| - 1];
      ResumeKept(os, image, most, t, d);
      ResumeStep(Run(os, image, most), image, e, t, d);
    }
  }

  lemma ResumeStep(os: OS, image: seq<byte>, e: Event, t: int, d: nat)
    requires OsOk(os) && FS.ImageOk(image) && EventOk(e) && 0 <= t < NUM_TERMS && d > 0
    requires |os.stacks[t]| > d
    ensures |Step(os, image, e).stacks[t]| > d ==>
      && Step(os, image, e).stacks[t][d] == os.stacks[t][d]
      && Step(os, image, e).procs[os.stacks[t][d]].resume == os.procs[os.stacks[t][d]].resume
      && Step(os, image, e).procs[os.stacks[t][d]].args == os.procs[os.stacks[t][d]].args
  {
    hide Step;
    StepFrame(os, image, e);
    BelowTop(os, t, d);
    if os.stacks[t][d] == Cur(os) {
      ResumeOfRunning(os, image, e);
    }
  }

  lemma ReadKeepsResume(os: OS, image: seq<byte>, k: int, n: int)
    requires OsOk(os) && FS.ImageOk(image)
    ensures Read(os, image, k, n).procs[Cur(os)].resume == os.procs[Cur(os)].resume
    ensures Read(os, image, k, n).procs[Cur(os)].args == os.procs[Cur(os)].args
    ensures Read(os, image, k, n).mux.ta == os.mux.ta
  {
    if 0 <= k < NUM_MAX_FILES {
      var os' := DriverStep(os, image, os.procs[Cur(os)].fds[k], n);
      assert os'.procs == os.procs && Cur(os') == Cur(os) && os'.mux.ta == os.mux.ta;
    }
  }

  lemma StartKeepsResume(os: OS, args: seq<byte>, ctx: Ctx)
    requires OsOk(os) && NulFree(args)
    ensures Start(os, args, ctx).procs[Cur(os)] == os.procs[Cur(os)]
  {
    BelowTop(os, os.mux.ta, |os.stacks[os.mux.ta]| - 1);
  }

  lemma OpenKeepsResume(os: OS, image: seq<byte>, name: seq<byte>)
    requires OsOk(os) && FS.ImageOk(image)
    ensures Open(os, image, name).procs[Cur(os)].resume == os.procs[Cur(os)].resume
    ensures Open(os, image, name).procs[Cur(os)].args == os.procs[Cur(os)].args
  {
    hide FS.ImageOk, FS.Entry, FS.Lookup, FirstUnused;
  }

  lemma CloseKeepsResume(os: OS, k: int)
    requires OsOk(os)
    ensures Close(os, k).procs[Cur(os)].resume == os.procs[Cur(os)].resume
    ensures Close(os, k).procs[Cur(os)].args == os.procs[Cur(os)].args
  {
  }

  lemma LeaveKeepsResume(os: OS, ctx: Ctx)
    requires OsOk(os) && !IsBaseShell(os)
    ensures Halt(os, ctx).procs[Cur(os)].resume == os.procs[Cur(os)].resume
    ensures Halt(os, ctx).procs[Cur(os)].args == os.procs[Cur(os)].args
  {
  }

  lemma WriteKeepsProcs(os: OS, k: int, buf: seq<byte>, n: int)
    requires OsOk(os)
    ensures Write(os, k, buf, n).procs == os.procs
  {
  }

  /** The running process's own calls leave its resume place and its arguments alone,
      unless it is a base shell that halts. */
  lemma ResumeOfRunning(os: OS, image: seq<byte>, e: Event)
    requires OsOk(os) && FS.ImageOk(image) && EventOk(e)
    requires !(e.HaltEvent? && IsBaseShell(os))
    ensures Step(os, image, e).procs[Cur(os)].resume == os.procs[Cur(os)].resume
    ensures Step(os, image, e).procs[Cur(os)].args == os.procs[Cur(os)].args
  {
    hide Read, Open, Write, Close, Start, Halt;
    match e
    case ReadEvent(k, n) => ReadKeepsResume(os, image, k, n);
    case ExecuteEvent(command, ctx) => StartKeepsResume(os, Parse(command).args, ctx);
    case OpenEvent(name) => OpenKeepsResume(os, image, name);
    case CloseEvent(k) => CloseKeepsResume(os, k);
    case HaltEvent(ctx) => LeaveKeepsResume(os, ctx);
    case WriteEvent(k, buf, n) => WriteKeepsProcs(os, k, buf, n);
    case _ =>
  }

  lemma StartShape(os: OS, args: seq<byte>, ctx: Ctx)
    requires OsOk(os) && NulFree(args) && FirstFree(os.stacks, 0).Some?
    ensures var started, t, child := Start(os, args, ctx), os.mux.ta, FirstFree(os.stacks, 0).value;
      && started.stacks[t] == os.stacks[t] + [child] && started.procs[child].resume == ctx
      && started.procs[child].args == args
      && started.procs[Cur(os)] == os.procs[Cur(os)] && started.rtc == os.rtc
  {
    StartKeepsResume(os, args, ctx);
  }

  /** Leading spaces, a name, one space or newline, arguments: the command takes them apart
      again, whatever the arguments contain.  Behind a name of 128 bytes any one byte is
      skipped. */
  lemma ParseSplits(blanks: seq<byte>, name: seq<byte>, separator: byte, args: seq<byte>)
    requires forall k :: 0 <= k < |blanks| ==> blanks[k] == 32
    requires 0 < |name| <= 128 && forall k :: 0 <= k < |name| ==> name[k] != 32 && name[k] != 10
    requires separator == 32 || separator == 10 || |name| == 128
    ensures Parse(blanks + (name + ([separator] + args))) == Command(name, args)
    ensures Parse(blanks + name) == Command(name, [])
  {
    ParseBehind(blanks, name, [separator] + args);
    ParseBehind(blanks, name, []);
    assert ([separator] + args)[1..] == args && name + [] == name;
  }

  lemma ParseBehind(blanks: seq<byte>, name: seq<byte>, rest: seq<byte>)
    requires forall k :: 0 <= k < |blanks| ==> blanks[k] == 32
    requires 0 < |name| <= 128 && forall k :: 0 <= k < |name| ==> name[k] != 32 && name[k] != 10
    requires rest != [] ==> rest[0] == 32 || rest[0] == 10 || |name| == 128
    ensures Parse(blanks + (name + rest)) == Command(name, if rest == [] then [] else rest[1..])
  {
    var tail := name + rest;
    var s := blanks + tail;
    assert LeadingSpaces(s) == |blanks| by {
      assert s[|blanks|] == name[0] && name[0] != 32;
      assert forall k :: 0 <= k < |blanks| ==> s[k] == blanks[k];
    }
    assert s[|blanks|..] == tail;
    assert Min(NameEnd(tail), 128) == |name| by {
      assert rest != [] ==> tail[|name|] == rest[0];
      assert forall k :: 0 <= k < |name| ==> tail[k] == name[k];
    }
    assert tail[..|name|] == name && (rest != [] ==> tail[|name| + 1..] == rest[1..]);
  }

  /** A program keeps the arguments of the command that started it for as long as it
      lives, whatever it and all other processes do. */
  lemma ProgramKeepsItsArguments(os: OS, image: seq<byte>, command: seq<byte>, ctx: Ctx, events: seq<Event>)
    requires OsOk(os) && FS.ImageOk(image) && NulFree(command) && EventsOk(events)
    requires Executable(image, Parse(command).name) && FirstFree(os.stacks, 0).Some?
    ensures var started, child := Execute(os, image, command, ctx), FirstFree(os.stacks, 0).value;
      StaysAbove(started, image, events, os.mux.ta, |os.stacks[os.mux.ta]|) ==>
      && Live(Run(started, image, events).stacks, child)
      && Run(started, image, events).procs[child].args == Parse(command).args
  {
    var started, t, d := Execute(os, image, command, ctx), os.mux.ta, |os.stacks[os.mux.ta]|;
    StartShape(os, Parse(command).args, ctx);
    if StaysAbove(started, image, events, t, d) {
      ResumeKept(started, image, events, t, d);
      BelowTop(Run(started, image, events), t, d);
    }
  }

  /** A run on which the program started on top of os lives, up to a point where it runs
      and has no child of its own. */
  ghost predicate UpToHalt(os: OS, started: OS, image: seq<byte>, events: seq<Event>)
    requires OsOk(os) && OsOk(started) && FS.ImageOk(image) && EventsOk(events)
  {
    var t, d := os.mux.ta, |os.stacks[os.mux.ta]|;
    && StaysAbove(started, image, events, t, d)
    && Run(started, image, events).mux.ta == t && |Run(started, image, events).stacks[t]| == d + 1
  }

  /** Execute and halt bracket.  Process P starts a program; however all terminals go
      on, when that program halts P is back on top of its terminal's stack exactly as
      it was, it resumes where it called, and only the program's pid has been freed. */
  lemma ExecuteHaltBracket(os: OS, image: seq<byte>, command: seq<byte>, ctx: Ctx, events: seq<Event>, ctx': Ctx)
    requires OsOk(os) && FS.ImageOk(image) && NulFree(command) && EventsOk(events)
    requires Executable(image, Parse(command).name) && FirstFree(os.stacks, 0).Some?
    ensures var started, t := Execute(os, image, command, ctx), os.mux.ta;
      UpToHalt(os, started, image, events) ==>
      var running := Run(started, image, events);
      var back := Halt(running, ctx');
      && Cur(running) == FirstFree(os.stacks, 0).value && !IsBaseShell(running)
      && running.procs[Cur(running)].resume == ctx
      && back.stacks[t] == os.stacks[t] && Cur(back) == Cur(os) && back.procs[Cur(os)] == os.procs[Cur(os)]
      && back.rtc[Cur(os)] == os.rtc[Cur(os)]
      && forall p :: 0 <= p < MAX_PID ==> (Live(back.stacks, p) <==> Live(running.stacks, p) && p != Cur(running))
  {
    hide Step, Halt, Run, StaysAbove, Start, Executable, Parse, FirstFree;
    var started, t, d := Execute(os, image, command, ctx), os.mux.ta, |os.stacks[os.mux.ta]|;
    if UpToHalt(os, started, image, events) {
      StartShape(os, Parse(command).args, ctx);
      WaitingProcessesUntouched(started, image, events, t, d);
      ResumeKept(started, image, events, t, d);
      assert started.stacks[t][d - 1] == Cur(os);
      HaltReturns(os, Run(started, image, events), ctx', FirstFree(os.stacks, 0).value);
    }
  }

  /** A halt on top of a stack that is otherwise the old one. */
  lemma HaltReturns(os: OS, running: OS, ctx': Ctx, child: int)
    requires OsOk(os) && OsOk(running) && running.mux.ta == os.mux.ta
    requires var t, d := os.mux.ta, |os.stacks[os.mux.ta]|;
      |running.stacks[t]| == d + 1 && running.stacks[t][..d] == os.stacks[t] && running.stacks[t][d] == child
    requires running.procs[Cur(os)] == os.procs[Cur(os)] && running.rtc[Cur(os)] == os.rtc[Cur(os)]
    ensures Cur(running) == child && !IsBaseShell(running)
    ensures var back, t := Halt(running, ctx'), os.mux.ta;
      && back.stacks[t] == os.stacks[t] && Cur(back) == Cur(os) && back.procs[Cur(os)] == os.procs[Cur(os)]
      && back.rtc[Cur(os)] == os.rtc[Cur(os)]
      && forall p :: 0 <= p < MAX_PID ==> (Live(back.stacks, p) <==> Live(running.stacks, p) && p != Cur(running))
  {
    HaltFrees(running, ctx');
    var d := |os.stacks[os.mux.ta]|;
    assert running.stacks[os.mux.ta][d - 1] == running.stacks[os.mux.ta][..d][d - 1] == Cur(os);
    BelowTop(running, os.mux.ta, d - 1);
  }

  lemma HaltFrees(os: OS, ctx: Ctx)
    requires OsOk(os) && !IsBaseShell(os)
    ensures var back := Halt(os, ctx);
      && (forall p :: 0 <= p < MAX_PID ==> (Live(back.stacks, p) <==> Live(os.stacks, p) && p != Cur(os)))
      && (forall p :: 0 <= p < MAX_PID && p != Cur(os) ==> back.procs[p] == os.procs[p] && back.rtc[p] == os.rtc[p])
      && back.mux.ta == os.mux.ta && back.stacks[os.mux.ta] == os.stacks[os.mux.ta][..|os.stacks[os.mux.ta]| - 1]
  {
    var back, t := Halt(os, ctx), os.mux.ta;
    assert os.stacks[t] == back.stacks[t] + [Cur(os)];
    forall u, i | 0 <= u < NUM_TERMS && 0 <= i < |back.stacks[u]| ensures back.stacks[u][i] != Cur(os) {
      assert back.stacks[u][i] == os.stacks[u][i];
      BelowTop(os, u, i);
    }
    forall p | 0 <= p < MAX_PID ensures Live(back.stacks, p) <==> Live(os.stacks, p) && p != Cur(os) {
      assert p in os.stacks[t] <==> p in back.stacks[t] || p == Cur(os);
    }
  }

  // ----- terminals that do not run

  function Ticks(events: seq<Event>): nat {
    if events == [] then 0
    else Ticks(events[..|events| - 1]) + if events[|events| - 1].TickEvent? then 1 else 0
  }

  lemma WriteTa(os: OS, k: int, buf: seq<byte>, n: int)
    requires OsOk(os)
    ensures Write(os, k, buf, n).mux.ta == os.mux.ta
  {
  }

  lemma HaltTa(os: OS, ctx: Ctx)
    requires OsOk(os)
    ensures Halt(os, ctx).mux.ta == os.mux.ta
  {
  }

  lemma CallsTa(os: OS, image: seq<byte>, name: seq<byte>, k: int, args: seq<byte>, ctx: Ctx)
    requires OsOk(os) && FS.ImageOk(image) && NulFree(args)
    ensures Open(os, image, name).mux.ta == os.mux.ta
    ensures Close(os, k).mux.ta == os.mux.ta
    ensures Start(os, args, ctx).mux.ta == os.mux.ta
  {
  }

  lemma StepTa(os: OS, image: seq<byte>, e: Event)
    requires OsOk(os) && FS.ImageOk(image) && EventOk(e)
    ensures Step(os, image, e).mux.ta == if e.TickEvent? then (os.mux.ta + 1) % NUM_TERMS else os.mux.ta
  {
    hide Read, Open, Write, Close, Start, Halt, StacksOk, ProcsOk;
    match e
    case ReadEvent(k, n) => ReadKeepsResume(os, image, k, n);
    case WriteEvent(k, buf, n) => WriteTa(os, k, buf, n);
    case HaltEvent(ctx) => HaltTa(os, ctx);
    case OpenEvent(name) => CallsTa(os, image, name, 0, [], Ctx(0, 0));
    case CloseEvent(k) => CallsTa(os, image, [], k, [], Ctx(0, 0));
    case ExecuteEvent(command, ctx) => CallsTa(os, image, [], 0, Parse(command).args, ctx);
    case _ =>
  }

  /** The terminal that runs after n ticks. */
  function Turn(ta: int, n: nat): (r: int)
    ensures 0 <= ta < NUM_TERMS ==> r == (ta + n) % NUM_TERMS
  {
    if n == 0 then ta else (Turn(ta, n - 1) + 1) % NUM_TERMS
  }

  /** In any three ticks each terminal has its turn once. */
  lemma ThreeTurns(ta: int, t: int)
    requires 0 <= ta < NUM_TERMS && 0 <= t < NUM_TERMS
    ensures Turn(ta, 3) == ta
    ensures (if Turn(ta, 1) == t then 1 else 0) + (if Turn(ta, 2) == t then 1 else 0)
            + (if Turn(ta, 3) == t then 1 else 0)
            == 1
  {
  }

  lemma TurnStep(ta: int, n: nat, mid: OS, image: seq<byte>, e: Event)
    requires OsOk(mid) && FS.ImageOk(image) && EventOk(e) && mid.mux.ta == Turn(ta, n)
    ensures e.TickEvent? ==> Step(mid, image, e).mux.ta == Turn(ta, n + 1)
    ensures !e.TickEvent? ==> Step(mid, image, e).mux.ta == Turn(ta, n)
  {
    hide Step;
    StepTa(mid, image, e);
  }

  /** Round robin: ticks alone decide which terminal runs. */
  lemma {:induction false} RoundRobin(os: OS, image: seq<byte>, events: seq<Event>)
    requires OsOk(os) && FS.ImageOk(image) && EventsOk(events)
    ensures Run(os, image, events).mux.ta == Turn(os.mux.ta, Ticks(events)) == (os.mux.ta + Ticks(events)) % 3
    decreases |events|
  {
    hide Step, StacksOk, ProcsOk, RtcOk;
    if events != [] {
      var most := events[..|events| - 1];
      RoundRobin(os, image, most);
      TurnStep(os.mux.ta, Ticks(most), Run(os, image, most), image, events[|events| - 1]);
    }
  }

  /** For fewer than three ticks after it was left, nothing on a terminal changes:
      not its stack, nor any of its processes. */
  lemma {:induction false} IdleTerminalUntouched(os: OS, image: seq<byte>, events: seq<Event>, t: int)
    requires OsOk(os) && FS.ImageOk(image) && EventsOk(events)
    requires 0 <= t < NUM_TERMS && os.mux.ta == (t + 1) % NUM_TERMS
    requires events != [] ==> Ticks(events[..|events| - 1]) < 2
    ensures Untouched(os, Run(os, image, events), t)
    decreases |events|
  {
    hide Step;
    if events != [] {
      var most := events[..|events| - 1];
      assert most != [] ==> Ticks(most[..|most| - 1]) <= Ticks(most);
      IdleTerminalUntouched(os, image, most, t);
      RoundRobin(os, image, most);
      NotYet(os.mux.ta, t, Ticks(most));
      StepElsewhere(Run(os, image, most), image, events[|events| - 1], t);
    }
  }

  lemma NotYet(ta: int, t: int, n: nat)
    requires 0 <= t < NUM_TERMS && ta == (t + 1) % NUM_TERMS && n < 2
    ensures Turn(ta, n) != t
  {
  }

  /** Terminal t's stack and its processes are the same in both states. */
  ghost predicate Untouched(os: OS, r: OS, t: int)
    requires OsOk(os) && OsOk(r) && 0 <= t < NUM_TERMS
  {
    r.stacks[t] == os.stacks[t]
    && forall i :: 0 <= i < |os.stacks[t]| ==> r.procs[os.stacks[t][i]] == os.procs[os.stacks[t][i]]
  }

  lemma StepElsewhere(os: OS, image: seq<byte>, e: Event, t: int)
    requires OsOk(os) && FS.ImageOk(image) && EventOk(e) && 0 <= t < NUM_TERMS && t != os.mux.ta
    ensures Untouched(os, Step(os, image, e), t)
  {
    hide Step;
    StepFrame(os, image, e);
    forall i | 0 <= i < |os.stacks[t]| ensures Step(os, image, e).procs[os.stacks[t][i]] == os.procs[os.stacks[t][i]] {
      BelowTop(os, t, i);
    }
  }

  /** A run and a tick behind it. */
  lemma TickBehind(os: OS, image: seq<byte>, events: seq<Event>, regs: Ctx)
    requires OsOk(os) && FS.ImageOk(image) && EventsOk(events)
    ensures var longer := events + [TickEvent(regs)];
      && EventsOk(longer) && Ticks(longer) == Ticks(events) + 1 && longer[..|longer| - 1] == events
      && Run(os, image, longer) == Tick(Run(os, image, events), regs)
  {
    hide Tick, Read, Open, Write, Close, Execute, Halt;
    var longer := events + [TickEvent(regs)];
    assert longer[..|longer| - 1] == events;
  }

  /** The state right after a tick. */
  lemma SwitchedOut(os: OS, regs: Ctx)
    requires OsOk(os)
    ensures var left, t := Tick(os, regs), os.mux.ta;
      && left.mux.ta == (t + 1) % NUM_TERMS && left.stacks == os.stacks
      && left.procs[Cur(os)].saved == regs && 0 <= Cur(os) < MAX_PID
  {
  }

  /** A tick saves the running process's registers; whatever happens until two more
      ticks have passed and the third gives its terminal the processor again, the
      same process is active there and is switched in with exactly those registers. */
  lemma SwitchInRestoresContext(os: OS, image: seq<byte>, regs: Ctx, events: seq<Event>, regs': Ctx)
    requires OsOk(os) && FS.ImageOk(image) && EventsOk(events) && Ticks(events) == 1
    ensures var away := Run(Tick(os, regs), image, events);
      && EventsOk(events + [TickEvent(regs')])
      && Cur(Tick(away, regs')) == Cur(os)
      && Tick(away, regs').procs[Cur(os)].saved == regs
  {
    hide Tick, Step, Run;
    var left, t := Tick(os, regs), os.mux.ta;
    var longer := events + [TickEvent(regs')];
    SwitchedOut(os, regs);
    TickBehind(left, image, events, regs');
    IdleTerminalUntouched(left, image, longer, t);
    RoundRobin(left, image, longer);
    var i := |os.stacks[t]| - 1;
    assert left.stacks[t][i] == Cur(os);
  }
}
