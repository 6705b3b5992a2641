/** What the kernel's processes are meant to be: on each of the three terminals a
    stack of processes, the bottom one a shell that never leaves, the top one the
    terminal's active process.  The running process is the active process of the
    running terminal.  System calls and ticks are functions on this state. */
module Processes {
  import opened Bytes
  import FS = FileSystem
  import LineEdit
  import Consoles

  const MAX_PID := 6
  const NUM_MAX_FILES := 8
  const MIN_FD_INDEX := 2
  const FILE_STR_LEN := 128
  const CMD_LINE_LEN := 128
  const FUNNY_NUMBER := 69
  const MIN_VIR_FREQ := 2
  const MAX_VIR_FREQ := 1024

  datatype FileOps = StdinOps | StdoutOps | RtcOps | DirOps | RegularOps | NullOps | NoOps

  datatype Fd = Fd(ops: FileOps, inode: int, pos: int, flags: int)

  const STDIN := Fd(StdinOps, 0, 0, 1)
  const STDOUT := Fd(StdoutOps, 0, 0, 1)
  const UNUSED := Fd(NullOps, TWO_32 - 1, TWO_32 - 1, 0)
  const CLEARED := Fd(NoOps, 0, 0, 0)

  /** A saved stack and frame pointer, nothing more. */
  datatype Ctx = Ctx(esp: int, ebp: int)

  /** A process: its descriptors and arguments, where its parent resumes when it
      halts, and where it resumes itself when its terminal is next scheduled. */
  datatype Proc = Proc(fds: seq<Fd>, args: seq<byte>, resume: Ctx, saved: Ctx)

  /** The whole kernel state; rtc holds each pid's virtual clock frequency and
      dirIndex the one directory cursor. */
  datatype OS = OS(stacks: seq<seq<int>>, procs: seq<Proc>, mux: Consoles.Mux, rtc: seq<int>, dirIndex: int)

  ghost predicate FdOk(fd: Fd) {
    0 <= fd.inode < TWO_32 && 0 <= fd.pos < TWO_32
  }

  ghost predicate ProcOk(p: Proc) {
    |p.fds| == NUM_MAX_FILES && (forall k :: 0 <= k < NUM_MAX_FILES ==> FdOk(p.fds[k])) && NulFree(p.args)
  }

  /** Three disjoint stacks of pids, each standing on the base shell of its terminal. */
  ghost predicate StacksOk(stacks: seq<seq<int>>) {
    && |stacks| == NUM_TERMS
    && (forall t :: 0 <= t < NUM_TERMS ==> stacks[t] != [] && stacks[t][0] == t)
    && (forall t, i :: 0 <= t < NUM_TERMS && 0 <= i < |stacks[t]| ==> 0 <= stacks[t][i] < MAX_PID)
    && (forall t, i, u, j {:trigger stacks[t][i], stacks[u][j]} ::
          0 <= t < NUM_TERMS && 0 <= i < |stacks[t]| && 0 <= u < NUM_TERMS && 0 <= j < |stacks[u]| ==>
          stacks[t][i] == stacks[u][j] ==> t == u && i == j)
  }

  ghost predicate ProcsOk(procs: seq<Proc>) {
    |procs| == MAX_PID && forall p :: 0 <= p < MAX_PID ==> ProcOk(procs[p])
  }

  /** Every virtual clock runs at 2 to 1024 Hz. */
  ghost predicate RtcOk(rtc: seq<int>) {
    |rtc| == MAX_PID && forall p :: 0 <= p < MAX_PID ==> MIN_VIR_FREQ <= rtc[p] <= MAX_VIR_FREQ
  }

  ghost predicate OsOk(os: OS) {
    StacksOk(os.stacks) && ProcsOk(os.procs) && Consoles.MuxOk(os.mux) && RtcOk(os.rtc) && 0 <= os.dirIndex
  }

  function Top(stack: seq<int>): int
    requires stack != []
  {
    stack[|stack| - 1]
  }

  /** The running process. */
  function Cur(os: OS): int
    requires OsOk(os)
  {
    Top(os.stacks[os.mux.ta])
  }

  predicate Live(stacks: seq<seq<int>>, p: int)
    requires |stacks| == NUM_TERMS
  {
    p in stacks[0] || p in stacks[1] || p in stacks[2]
  }

  /** The least pid, from p on, that no stack holds. */
  function FirstFree(stacks: seq<seq<int>>, p: nat): (r: Option<int>)
    requires p <= MAX_PID && |stacks| == NUM_TERMS
    ensures r.Some? ==> p <= r.value < MAX_PID && !Live(stacks, r.value)
    ensures forall q :: p <= q < (if r.Some? then r.value else MAX_PID) ==> Live(stacks, q)
    decreases MAX_PID - p
  {
    if p == MAX_PID then None else if !Live(stacks, p) then Some(p) else FirstFree(stacks, p + 1)
  }

  lemma PushDistinct(stacks: seq<seq<int>>, r: seq<seq<int>>, t: int, p: int, a: int, i: int, b: int, j: int)
    requires StacksOk(stacks) && 0 <= t < NUM_TERMS && !Live(stacks, p) && r == stacks[t := stacks[t] + [p]]
    requires 0 <= a < NUM_TERMS && 0 <= i < |r[a]| && 0 <= b < NUM_TERMS && 0 <= j < |r[b]| && r[a][i] == r[b][j]
    ensures a == b && i == j
  {
    NotOn(stacks, p, a);
    NotOn(stacks, p, b);
    assert i < |stacks[a]| ==> r[a][i] == stacks[a][i];
    assert j < |stacks[b]| ==> r[b][j] == stacks[b][j];
    if i < |stacks[a]| && j < |stacks[b]| {
      assert stacks[a][i] == stacks[b][j];
    }
  }

  lemma NotOn(stacks: seq<seq<int>>, p: int, t: int)
    requires |stacks| == NUM_TERMS && 0 <= t < NUM_TERMS && !Live(stacks, p)
    ensures forall i :: 0 <= i < |stacks[t]| ==> stacks[t][i] != p
  {
    assert p !in stacks[t];
  }

  lemma PushOk(stacks: seq<seq<int>>, t: int, p: int)
    requires StacksOk(stacks) && 0 <= t < NUM_TERMS && 0 <= p < MAX_PID && !Live(stacks, p)
    ensures StacksOk(stacks[t := stacks[t] + [p]])
  {
    var r := stacks[t := stacks[t] + [p]];
    forall a, i, b, j | 0 <= a < NUM_TERMS && 0 <= i < |r[a]| && 0 <= b < NUM_TERMS && 0 <= j < |r[b]|
                        && r[a][i] == r[b][j]
      ensures a == b && i == j
    {
      PushDistinct(stacks, r, t, p, a, i, b, j);
    }
  }

  lemma PopOk(stacks: seq<seq<int>>, t: int)
    requires StacksOk(stacks) && 0 <= t < NUM_TERMS && |stacks[t]| > 1
    ensures StacksOk(stacks[t := stacks[t][..|stacks[t]| - 1]])
  {
    var r := stacks[t := stacks[t][..|stacks[t]| - 1]];
    assert forall a, i :: 0 <= a < NUM_TERMS && 0 <= i < |r[a]| ==> r[a][i] == stacks[a][i];
  }

  // ----- commands

  datatype Command = Command(name: seq<byte>, args: seq<byte>)

  function LeadingSpaces(s: seq<byte>): (k: nat)
    ensures k <= |s|
    ensures forall j :: 0 <= j < k ==> s[j] == SPACE
    ensures k < |s| ==> s[k] != SPACE
  {
    if s != [] && s[0] == SPACE then
      var rest := LeadingSpaces(s[1..]);
      assert forall j :: 1 <= j < rest + 1 ==> s[j] == s[1..][j - 1];
      1 + rest
    else 0
  }

  predicate Separates(c: byte) { c == SPACE || c == LINE_FEED }

  function NameEnd(s: seq<byte>): (k: nat)
    ensures k <= |s|
    ensures forall j :: 0 <= j < k ==> !Separates(s[j])
    ensures k < |s| ==> Separates(s[k])
  {
    if s == [] || Separates(s[0]) then 0
    else
      var rest := NameEnd(s[1..]);
      assert forall j :: 1 <= j < rest + 1 ==> s[j] == s[1..][j - 1];
      1 + rest
  }

  /** The first word, at most 128 bytes of it, and what stands behind the one byte
      that follows it. */
  function Parse(s: seq<byte>): (c: Command)
    ensures |c.name| <= FILE_STR_LEN
    ensures NulFree(s) ==> NulFree(c.name) && NulFree(c.args)
  {
    var rest := s[LeadingSpaces(s)..];
    var n := Min(NameEnd(rest), FILE_STR_LEN);
    Command(rest[..n], if n < |rest| then rest[n + 1..] else [])
  }

  const ELF: seq<byte> := [0x7F, 0x45, 0x4C, 0x46]
  const SHELL: seq<byte> := ['s' as int, 'h' as int, 'e' as int, 'l' as int, 'l' as int]

  /** The file names a program: it has an inode and starts with the ELF magic. */
  predicate Executable(image: seq<byte>, name: seq<byte>)
    requires FS.ImageOk(image)
  {
    var i := FS.Lookup(image, name);
    && i.Some?
    && var n := FS.Entry(image, i.value).inode;
       n < FS.NumInodes(image) && FS.FileLength(image, n) >= 4 && FS.Contents(image, n)[..4] == ELF
  }

  // ----- processes come and go

  function KernelStack(p: int): int { 0x800000 - p * 0x2000 - 4 }

  function Fresh(p: int, args: seq<byte>, ctx: Ctx): (r: Proc)
    requires NulFree(args)
    ensures ProcOk(r)
  {
    Proc([STDIN, STDOUT, UNUSED, UNUSED, UNUSED, UNUSED, UNUSED, UNUSED], args, ctx,
         Ctx(KernelStack(p), KernelStack(p)))
  }

  /** A new process on top of the running one, on the least free pid; nothing when
      the process table is full. */
  function Start(os: OS, args: seq<byte>, ctx: Ctx): (r: OS)
    requires OsOk(os) && NulFree(args)
    ensures OsOk(r)
  {
    var p := FirstFree(os.stacks, 0);
    if p.None? then os
    else
      PushOk(os.stacks, os.mux.ta, p.value);
      os.(stacks := os.stacks[os.mux.ta := os.stacks[os.mux.ta] + [p.value]],
          procs := os.procs[p.value := Fresh(p.value, args, ctx)])
  }

  /** Starts the command's program; a command that names no program changes nothing. */
  function Execute(os: OS, image: seq<byte>, command: seq<byte>, ctx: Ctx): (r: OS)
    requires OsOk(os) && FS.ImageOk(image) && NulFree(command)
    ensures OsOk(r)
  {
    if Executable(image, Parse(command).name) then Start(os, Parse(command).args, ctx) else os
  }

  function CloseAll(fds: seq<Fd>): (r: seq<Fd>)
    requires |fds| == NUM_MAX_FILES
    ensures |r| == NUM_MAX_FILES
  {
    seq(NUM_MAX_FILES, k requires 0 <= k < NUM_MAX_FILES =>
      if k < MIN_FD_INDEX then CLEARED else if fds[k].flags != 0 then UNUSED else fds[k])
  }

  predicate IsOpen(fds: seq<Fd>, k: int)
    requires |fds| == NUM_MAX_FILES
  {
    MIN_FD_INDEX <= k < NUM_MAX_FILES && fds[k].flags != 0
  }

  predicate IsOpenAs(fds: seq<Fd>, k: int, ops: FileOps)
    requires |fds| == NUM_MAX_FILES
  {
    IsOpen(fds, k) && fds[k].ops == ops
  }

  predicate HasOpen(fds: seq<Fd>, ops: FileOps)
    requires |fds| == NUM_MAX_FILES
  {
    exists k :: MIN_FD_INDEX <= k < NUM_MAX_FILES && IsOpenAs(fds, k, ops)
  }

  predicate IsBaseShell(os: OS)
    requires OsOk(os)
  {
    |os.stacks[os.mux.ta]| == 1
  }

  /** The running process leaves its stack: its files are closed and its terminal's
      line is wiped. */
  function Leave(os: OS): (r: OS)
    requires OsOk(os) && !IsBaseShell(os)
    ensures OsOk(r)
  {
    hide CloseAll, HasOpen;
    var p, t := Cur(os), os.mux.ta;
    var fds := os.procs[p].fds;
    PopOk(os.stacks, t);
    os.(stacks := os.stacks[t := os.stacks[t][..|os.stacks[t]| - 1]],
        procs := os.procs[p := os.procs[p].(fds := CloseAll(fds))],
        mux := Consoles.Step(os.mux, Consoles.HaltWipe),
        rtc := if HasOpen(fds, RtcOps) then os.rtc[p := MAX_VIR_FREQ] else os.rtc,
        dirIndex := if HasOpen(fds, DirOps) then 0 else os.dirIndex)
  }

  /** The running process halts; a base shell is replaced by a new one in its place. */
  function Halt(os: OS, ctx: Ctx): (r: OS)
    requires OsOk(os)
    ensures OsOk(r)
  {
    if IsBaseShell(os) then os.(procs := os.procs[Cur(os) := Fresh(Cur(os), [], ctx)]) else Leave(os)
  }

  /** A timer tick: the running process's context is saved and the next terminal runs. */
  function Tick(os: OS, ctx: Ctx): (r: OS)
    requires OsOk(os)
    ensures OsOk(r)
  {
    var p := Cur(os);
    os.(procs := os.procs[p := os.procs[p].(saved := ctx)], mux := Consoles.Step(os.mux, Consoles.Tick))
  }

  // ----- descriptors of the running process

  function SetFd(os: OS, k: int, fd: Fd): (r: OS)
    requires OsOk(os) && 0 <= k < NUM_MAX_FILES && FdOk(fd)
    ensures OsOk(r)
  {
    var p := Cur(os);
    os.(procs := os.procs[p := os.procs[p].(fds := os.procs[p].fds[k := fd])])
  }

  /** The first unused descriptor, from k on; 8 when there is none. */
  function FirstUnused(fds: seq<Fd>, k: nat): (r: nat)
    requires |fds| == NUM_MAX_FILES && k <= NUM_MAX_FILES
    ensures k <= r <= NUM_MAX_FILES
    ensures r < NUM_MAX_FILES ==> fds[r].flags == 0
    ensures forall j :: k <= j < r ==> fds[j].flags != 0
    decreases NUM_MAX_FILES - k
  {
    if k == NUM_MAX_FILES || fds[k].flags == 0 then k else FirstUnused(fds, k + 1)
  }

  function OpenResult(os: OS, image: seq<byte>, name: seq<byte>): int
    requires OsOk(os) && FS.ImageOk(image)
  {
    var k := FirstUnused(os.procs[Cur(os)].fds, MIN_FD_INDEX);
    if FS.Lookup(image, name).None? || k == NUM_MAX_FILES then -1 else k
  }

  /** Puts a file on descriptor k: clock, directory or regular, by its type.  A file
      of any other type leaves the descriptor unused. */
  function Attach(os: OS, k: int, fileType: nat, inode: int): (r: OS)
    requires OsOk(os) && 0 <= k < NUM_MAX_FILES && 0 <= inode < TWO_32
    ensures OsOk(r)
  {
    if fileType == 0 then SetFd(os, k, Fd(RtcOps, inode, 0, 1)).(rtc := os.rtc[Cur(os) := MIN_VIR_FREQ])
    else if fileType == 1 then SetFd(os, k, Fd(DirOps, inode, 0, 1))
    else if fileType == 2 then SetFd(os, k, Fd(RegularOps, inode, 0, 1))
    else os
  }

  function Open(os: OS, image: seq<byte>, name: seq<byte>): (r: OS)
    requires OsOk(os) && FS.ImageOk(image)
    ensures OsOk(r)
  {
    var k := OpenResult(os, image, name);
    if k < 0 then os
    else
      var d := FS.Entry(image, FS.Lookup(image, name).value);
      Attach(os, k, d.fileType, d.inode)
  }

  predicate CanClose(os: OS, k: int)
    requires OsOk(os)
  {
    IsOpen(os.procs[Cur(os)].fds, k)
  }

  function Close(os: OS, k: int): (r: OS)
    requires OsOk(os)
    ensures OsOk(r)
  {
    if !CanClose(os, k) then os
    else
      var ops := os.procs[Cur(os)].fds[k].ops;
      SetFd(os, k, UNUSED).(rtc := if ops == RtcOps then os.rtc[Cur(os) := MAX_VIR_FREQ] else os.rtc,
                            dirIndex := if ops == DirOps then 0 else os.dirIndex)
  }

  /** What a read yields: the count it returns and the bytes it delivers, or that it
      has to wait, or that the descriptor number 8 went past the table. */
  datatype ReadOutcome = Got(count: int, bytes: seq<byte>) | Waits | OffTable

  function RegularRead(image: seq<byte>, fd: Fd, n: int): (r: ReadOutcome)
    requires FS.ImageOk(image) && FdOk(fd)
    ensures r.Got? && (r.count == -1 || r.count == |r.bytes|)
  {
    if n < 0 || fd.inode >= FS.NumInodes(image) || fd.pos > FS.FileLength(image, fd.inode) then Got(-1, [])
    else
      var count := Min(n, FS.FileLength(image, fd.inode) - fd.pos);
      Got(count, FS.Contents(image, fd.inode)[fd.pos..fd.pos + count])
  }

  function DirRead(image: seq<byte>, index: nat): ReadOutcome
    requires FS.ImageOk(image)
  {
    if index >= FS.NumDirEntries(image) then Got(0, [])
    else Got(|FS.Name(image, index)|, FS.Name(image, index))
  }

  function LineRead(m: Consoles.Mux, n: int): ReadOutcome
    requires Consoles.MuxOk(m)
  {
    var line := m.cons[m.ta].line;
    if n < 0 then Got(-1, [])
    else if m.ts == m.ta && LineEdit.Ready(line) then Got(|LineEdit.Taken(line, n)|, LineEdit.Taken(line, n))
    else Waits
  }

  /** What the driver behind a descriptor yields ... */
  function DriverRead(os: OS, image: seq<byte>, fd: Fd, n: int): ReadOutcome
    requires OsOk(os) && FS.ImageOk(image) && FdOk(fd)
  {
    match fd.ops
    case StdinOps => LineRead(os.mux, n)
    case RegularOps => RegularRead(image, fd, n)
    case DirOps => DirRead(image, os.dirIndex)
    case RtcOps => Got(0, [])
    case _ => Got(-1, [])
  }

  /** ... and what it changes. */
  function DriverStep(os: OS, image: seq<byte>, fd: Fd, n: int): (r: OS)
    requires OsOk(os) && FS.ImageOk(image)
    ensures OsOk(r)
  {
    match fd.ops
    case StdinOps => if n >= 0 then os.(mux := Consoles.Read(os.mux)) else os
    case DirOps => if os.dirIndex < FS.NumDirEntries(image) then os.(dirIndex := os.dirIndex + 1) else os
    case _ => os
  }

  function ReadResult(os: OS, image: seq<byte>, k: int, n: int): ReadOutcome
    requires OsOk(os) && FS.ImageOk(image)
  {
    if k < 0 || k > NUM_MAX_FILES then Got(-1, [])
    else if k == NUM_MAX_FILES then OffTable
    else if os.procs[Cur(os)].fds[k].flags == 0 then Got(-1, [])
    else DriverRead(os, image, os.procs[Cur(os)].fds[k], n)
  }

  /** A read moves the position by what it returns, also by -1. */
  function Advance(os: OS, k: int, fd: Fd, result: ReadOutcome): (r: OS)
    requires OsOk(os) && 0 <= k < NUM_MAX_FILES && FdOk(fd)
    ensures OsOk(r)
  {
    if result.Got? then SetFd(os, k, fd.(pos := (fd.pos + result.count) % TWO_32)) else os
  }

  function ReadThrough(os: OS, image: seq<byte>, k: int, fd: Fd, n: int): (r: OS)
    requires OsOk(os) && FS.ImageOk(image) && 0 <= k < NUM_MAX_FILES && FdOk(fd)
    ensures OsOk(r)
  {
    Advance(DriverStep(os, image, fd, n), k, fd, DriverRead(os, image, fd, n))
  }

  function Read(os: OS, image: seq<byte>, k: int, n: int): (r: OS)
    requires OsOk(os) && FS.ImageOk(image)
    ensures OsOk(r)
  {
    if k < 0 || k >= NUM_MAX_FILES || os.procs[Cur(os)].fds[k].flags == 0 then os
    else ReadThrough(os, image, k, os.procs[Cur(os)].fds[k], n)
  }

  /** A write to the terminal prints; a write to the clock sets its frequency from
      the first four bytes of the buffer, whatever the size asked for. */
  function DriverWrite(os: OS, fd: Fd, buf: seq<byte>, n: int): (r: OS)
    requires OsOk(os)
    ensures OsOk(r)
  {
    match fd.ops
    case StdoutOps => if 0 <= n <= |buf| then os.(mux := Consoles.Write(os.mux, buf[..n])) else os
    case RtcOps =>
      if 4 <= |buf| && MIN_VIR_FREQ <= FS.U32(buf, 0) <= MAX_VIR_FREQ
      then os.(rtc := os.rtc[Cur(os) := FS.U32(buf, 0)]) else os
    case _ => os
  }

  /** What a write returns, or that the descriptor number 8 went past the table. */
  datatype WriteOutcome = Wrote(count: int) | PastTable

  /** A write to this descriptor sets the clock, which takes four bytes. */
  predicate SetsClock(os: OS, k: int)
    requires OsOk(os)
  {
    0 <= k < NUM_MAX_FILES && os.procs[Cur(os)].fds[k].flags != 0 && os.procs[Cur(os)].fds[k].ops == RtcOps
  }

  function DriverWrote(fd: Fd, buf: seq<byte>, n: int): int
    requires fd.ops == RtcOps ==> 4 <= |buf|
  {
    match fd.ops
    case StdoutOps => if n < 0 then -1 else n
    case RtcOps => if MIN_VIR_FREQ <= FS.U32(buf, 0) <= MAX_VIR_FREQ then 0 else -1
    case _ => -1
  }

  function WriteResult(os: OS, k: int, buf: seq<byte>, n: int): WriteOutcome
    requires OsOk(os) && (SetsClock(os, k) ==> 4 <= |buf|)
  {
    if k < 0 || k > NUM_MAX_FILES then Wrote(-1)
    else if k == NUM_MAX_FILES then PastTable
    else if os.procs[Cur(os)].fds[k].flags == 0 then Wrote(-1)
    else Wrote(DriverWrote(os.procs[Cur(os)].fds[k], buf, n))
  }

  function Write(os: OS, k: int, buf: seq<byte>, n: int): (r: OS)
    requires OsOk(os)
    ensures OsOk(r)
  {
    if k < 0 || k >= NUM_MAX_FILES || os.procs[Cur(os)].fds[k].flags == 0 then os
    else DriverWrite(os, os.procs[Cur(os)].fds[k], buf, n)
  }

  // ----- runs

  datatype Event =
    | TickEvent(ctx: Ctx)
    | ExecuteEvent(command: seq<byte>, ctx: Ctx)
    | HaltEvent(ctx: Ctx)
    | OpenEvent(name: seq<byte>)
    | CloseEvent(fd: int)
    | ReadEvent(fd: int, nbytes: int)
    | WriteEvent(fd: int, buf: seq<byte>, nbytes: int)
    | KeyEvent(key: Consoles.KeyState)

  ghost predicate EventOk(e: Event) {
    e.ExecuteEvent? ==> NulFree(e.command)
  }

  function Step(os: OS, image: seq<byte>, e: Event): (r: OS)
    requires OsOk(os) && FS.ImageOk(image) && EventOk(e)
    ensures OsOk(r)
  {
    match e
    case TickEvent(ctx) => Tick(os, ctx)
    case ExecuteEvent(command, ctx) => Execute(os, image, command, ctx)
    case HaltEvent(ctx) => Halt(os, ctx)
    case OpenEvent(name) => Open(os, image, name)
    case CloseEvent(fd) => Close(os, fd)
    case ReadEvent(fd, n) => Read(os, image, fd, n)
    case WriteEvent(fd, buf, n) => Write(os, fd, buf, n)
    case KeyEvent(k) => os.(mux := Consoles.PressKey(os.mux, k))
  }
}
