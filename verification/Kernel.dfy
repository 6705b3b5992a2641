/** System calls and the timer interrupt: the process table, the page directory, the
    stack pointer of the TSS and the console, changed together.
    Each operation is proved against module Processes. */
module Kernel {
  import opened Bytes
  import opened Processes
  import FS = FileSystem
  import LineEdit
  import Paging
  import Consoles
  import Console
  import ProcTable

  method SkipSpaces(s: seq<byte>) returns (f: nat)
    ensures f == LeadingSpaces(s)
  {
    f := 0;
    while f < |s| && s[f] == SPACE
      invariant f <= LeadingSpaces(s)
    {
      f := f + 1;
    }
  }

  method TakeName(s: seq<byte>, from: nat) returns (name: seq<byte>)
    requires from <= |s| && NulFree(s)
    ensures name == s[from..][..Min(NameEnd(s[from..]), FILE_STR_LEN)]
  {
    name := [];
    var f := from;
    ghost var rest := s[from..];
    while |name| < FILE_STR_LEN && f < |s|
      invariant f == from + |name| <= |s| && |name| <= Min(NameEnd(rest), FILE_STR_LEN)
      invariant name == rest[..|name|]
    {
      assert s[f] == rest[|name|];
      if s[f] == SPACE || s[f] == LINE_FEED || s[f] == NUL {
        break;
      }
      name := name + [s[f]];
      f := f + 1;
    }
  }

  method TakeArgs(s: seq<byte>, from: nat) returns (args: seq<byte>)
    ensures from <= |s| && |s| - from <= CMD_LINE_LEN ==> args == s[from..]
    ensures from > |s| ==> args == []
  {
    args := [];
    var f := from;
    while |args| < CMD_LINE_LEN && f < |s|
      invariant f == from + |args| && |args| <= CMD_LINE_LEN
      invariant from <= |s| ==> f <= |s| && args == s[from..f]
      invariant from > |s| ==> args == []
    {
      args := args + [s[f]];
      f := f + 1;
    }
  }

  /** The program name and the arguments of a command line.  An argument string of
      128 bytes or more would not fit the buffer with its NUL. */
  method ParseCommand(s: seq<byte>) returns (c: Command)
    requires NulFree(s) && |Parse(s).args| < CMD_LINE_LEN
    ensures c == Parse(s)
  {
    var f := SkipSpaces(s);
    var name := TakeName(s, f);
    var args := TakeArgs(s, f + |name| + 1);
    c := Command(name, args);
    assert |name| < |s[f..]| ==> s[f..][|name| + 1..] == s[f + |name| + 1..];
  }

  const EXCEPTION_HALT := 256

  /** The room a read of n bytes needs: for the terminal one byte more than n, but no
      more than a line; for a directory always a whole name with its NUL. */
  predicate Room(ops: FileOps, n: int, length: nat) {
    match ops
    case StdinOps => Min(n, LineEdit.KEY_BUF_SIZE - 1) < length
    case RegularOps => n <= length
    case DirOps => FS.MAX_STR_LENGTH < length
    case _ => true
  }

  /** The pointers that sys_vidmap accepts: 8 MB from the program page on. */
  predicate VidmapAccepts(p: int) {
    Paging.PROGRAM_VIR_ADDR <= p < Paging.PROGRAM_VIR_ADDR + 2 * Paging.PAGE_4MB
  }

  datatype ExecResult = Refused(code: int) | Entered(pid: int)

  datatype HaltResult = Respawned | Resumed(at: Ctx, status: int)

  class Kernel {
    const image: seq<byte>           // the disk image the file system reads
    const tables: Paging.PageTables
    const con: Console.Console
    const table: ProcTable.ProcTable
    var esp0: int                    // tss.esp0

    /** The disk has a well-formed file system with a shell on it. */
    ghost predicate DiskOk() {
      FS.ImageOk(image) && Executable(image, SHELL)
    }

    ghost predicate Shape() {
      tables.Shape() && con.ptUser == tables.ptUser && table.Shape()
    }

    ghost predicate Parts()
      reads con, con.vram, con.keyboardBuf, con.terms, con.ptUser
      reads table, table.pidArray, table.pcbs, table.activePid, table.processRtc
    {
      Shape() && con.Valid() && table.Valid()
    }

    ghost function View(): (os: OS)
      requires Parts()
      reads con, con.vram, con.keyboardBuf, con.terms, con.ptUser
      reads table, table.pidArray, table.pcbs, table.activePid, table.processRtc
      ensures OsOk(os)
    {
      OS(table.stacks, table.Procs(), con.Abstract(), table.processRtc[..], table.dirIndex)
    }

    /** Everything the processor runs on follows the running process: its pid, its
        kernel stack, the frames of its image, its terminal's video page. */
    ghost predicate Running()
      requires Parts()
      reads this, tables.pd, tables.pt
      reads con, con.vram, con.keyboardBuf, con.terms, con.ptUser
      reads table, table.pidArray, table.pcbs, table.activePid, table.processRtc
    {
      table.curPid == Cur(View()) && esp0 == KernelStack(table.curPid) && tables.Maps(table.curPid)
    }

    ghost predicate Valid()
      reads this, tables.pd, tables.pt
      reads con, con.vram, con.keyboardBuf, con.terms, con.ptUser
      reads table, table.pidArray, table.pcbs, table.activePid, table.processRtc
    {
      Parts() && Running()
    }

    /** The state right after the fourth timer tick: three base shells, terminal 0
        shown and running. */
    constructor (image: seq<byte>, vram: array<byte>, ptFrame: int, ptUserFrame: int, s0: Proc, s1: Proc, s2: Proc)
      requires vram.Length == 0x4000 && ptFrame != ptUserFrame && ProcOk(s0) && ProcOk(s1) && ProcOk(s2)
      ensures Valid() && con.vram == vram && this.image == image
      ensures View().stacks == [[0], [1], [2]] && View().procs[..NUM_TERMS] == [s0, s1, s2]
      ensures View().mux.ta == 0 && View().mux.ts == 0 && Consoles.LinesWellFormed(View().mux)
      ensures View().rtc == [1024, 1024, 1024, 1024, 1024, 1024] && View().dirIndex == 0
    {
      this.image := image;
      var tables' := new Paging.PageTables(ptFrame, ptUserFrame);
      tables'.MapImage(0);
      tables := tables';
      con := new Console.Console(vram, tables'.ptUser);
      table := new ProcTable.ProcTable(s0, s1, s2);
      esp0 := KernelStack(0);
      new;
      assert tables.Maps(0);
      assert table.curPid == 0 && table.stacks == [[0], [1], [2]];
    }

    /** pit_handler, from the registers of the interrupted process; the result is the
        context it switches to. */
    method PitHandler(regs: Ctx) returns (next: Ctx)
      requires Valid()
      modifies this`esp0, table`curPid, table`prevPid, table.pcbs, tables.pd, con`ta, con`videoMem, con.ptUser
      ensures Valid()
      ensures View() == Tick(old(View()), regs)
      ensures table.curPid == Cur(View()) && esp0 == 0x80_0000 - Cur(View()) * 0x2000 - 4
      ensures next == View().procs[Cur(View())].saved
    {
      hide Console.Console.View, Console.Console.Valid;
      SaveRegs(regs);
      con.NextTerminal();
      next := Dispatch(table.curPid);
    }

    method SaveRegs(regs: Ctx)
      requires Valid()
      modifies table.pcbs
      ensures Valid()
      ensures var was := old(View());
        View() == was.(procs := was.procs[Cur(was) := was.procs[Cur(was)].(saved := regs)])
    {
      hide Console.Console.View, Console.Console.Valid;
      table.SaveCtx(table.activePid[con.ta], regs);
    }

    /** Makes the running terminal's active process current. */
    method Dispatch(ghost was: int) returns (next: Ctx)
      requires Parts() && tables.Maps(was)
      modifies this`esp0, table`curPid, table`prevPid, tables.pd
      ensures Valid() && View() == old(View())
      ensures next == View().procs[Cur(View())].saved
    {
      hide Console.Console.View;
      var pid := table.activePid[con.ta];
      table.curPid := pid;
      table.prevPid := table.pcbs[pid].parentPid;
      SwitchTo(pid, was);
      next := table.pcbs[pid].saved;
      assert next == table.Procs()[pid].saved;
    }

    /** The page and the stack of the process that is to run. */
    method SwitchTo(pid: int, ghost was: int)
      requires Parts() && tables.Maps(was) && table.curPid == pid == Cur(View())
      modifies this`esp0, tables.pd
      ensures Valid() && View() == old(View())
    {
      hide Console.Console.View;
      tables.MapImage(pid);
      esp0 := KernelStack(pid);
    }

    /** Is there a program of this name? */
    method CheckProgram(fname: seq<byte>) returns (ok: bool)
      requires FS.ImageOk(image) && NUL in fname
      ensures ok <==> Executable(image, FS.CString(fname))
    {
      hide FS.OnDisk, FS.InodeOk, FS.Contents, FS.Lookup;
      var d := FS.ReadDentryByName(image, fname);
      if d.None? {
        return false;
      }
      var elf := new byte[4];
      var n := FS.ReadData(image, d.value.inode, 0, elf, 4);
      if n != 4 {
        return false;
      }
      ok := elf[0] == 0x7F && elf[1] == 0x45 && elf[2] == 0x4C && elf[3] == 0x46;
      assert elf[..4] == [elf[0], elf[1], elf[2], elf[3]];
    }

    /** sys_execute.  The command's program starts in the running process's place,
        and `regs` is kept for the caller's return. */
    method Execute(command: seq<byte>, regs: Ctx) returns (r: ExecResult)
      requires Valid() && DiskOk() && NulFree(command) && |Parse(command).args| < CMD_LINE_LEN
      modifies this`esp0, table, table.pidArray, table.pcbs, table.activePid, tables.pd
      ensures Valid()
      ensures View() == Processes.Execute(old(View()), image, command, regs)
      ensures table.curPid == Cur(View()) && esp0 == 0x80_0000 - Cur(View()) * 0x2000 - 4
      ensures r == if !Executable(image, Parse(command).name) then Refused(-1)
                   else match FirstFree(old(View()).stacks, 0)
                     case Some(p) => Entered(p)
                     case None => Refused(69)
    {
      hide ProcTable.Chained, RtcOk, Consoles.MuxOk, Console.Console.View, Console.Console.Valid;
      hide Processes.Start, Executable, FirstFree;
      var c := ParseCommand(command);
      var ok := CheckProgram(c.name + [NUL]);
      assert FS.CString(c.name + [NUL]) == c.name;
      if !ok {
        return Refused(-1);
      }
      r := Start(c.args, regs);
    }

    /** The second half of sys_execute, from the search for a pid. */
    method Start(args: seq<byte>, regs: Ctx) returns (r: ExecResult)
      requires Valid() && NulFree(args)
      modifies this`esp0, table, table.pidArray, table.pcbs, table.activePid, tables.pd
      ensures Valid()
      ensures View() == Processes.Start(old(View()), args, regs)
      ensures r == match FirstFree(old(View()).stacks, 0)
                   case Some(p) => Entered(p)
                   case None => Refused(FUNNY_NUMBER)
    {
      hide Processes.Start, FirstFree, Top;
      var p := NewProcess(args, regs);
      if p.None? {
        return Refused(FUNNY_NUMBER);
      }
      SwitchTo(p.value, old(table.curPid));
      return Entered(p.value);
    }

    method NewProcess(args: seq<byte>, regs: Ctx) returns (p: Option<int>)
      requires Valid() && NulFree(args)
      modifies table, table.pidArray, table.pcbs, table.activePid
      ensures Parts() && View() == Processes.Start(old(View()), args, regs)
      ensures table.curPid == Cur(View())
      ensures p == FirstFree(old(View()).stacks, 0)
      ensures p.None? ==> table.curPid == old(table.curPid)
      ensures p.Some? ==> table.curPid == p.value
    {
      hide FirstFree, Fresh, ProcTable.Chained, ProcTable.ProcTable.Procs, RtcOk, Consoles.MuxOk;
      p := table.Spawn(con.ta, args, regs);
      assert con.Valid() && con.Abstract() == old(con.Abstract()) && table.Valid();
    }

    /** halt_helper. */
    method Halt(status: int, regs: Ctx) returns (r: HaltResult)
      requires Valid() && DiskOk()
      modifies this`esp0, table, table.pidArray, table.pcbs, table.activePid, table.processRtc, tables.pd
      modifies con`keyIdx, con.keyboardBuf, con.terms
      ensures Valid()
      ensures View() == Processes.Halt(old(View()), regs)
      ensures table.curPid == Cur(View()) && esp0 == 0x80_0000 - Cur(View()) * 0x2000 - 4
      ensures r == if IsBaseShell(old(View())) then Respawned
                   else Resumed(old(View()).procs[Cur(old(View()))].resume, status)
    {
      hide ProcTable.Chained, RtcOk, Console.Console.View, Console.Console.Valid, Processes.Leave, Fresh;
      var parent := table.ParentOf(con.ta);
      if parent == -1 {
        ReplaceShell(regs);
        SwitchTo(table.curPid, table.curPid);
        return Respawned;
      }
      var resume := ReturnTo(parent);
      return Resumed(resume, status);
    }

    /** The running process leaves and its parent takes over; the result is where the
        parent left off. */
    method ReturnTo(parent: int) returns (resume: Ctx)
      requires Valid() && !IsBaseShell(View()) && parent == Top(ProcTable.Popped(table.stacks, con.ta)[con.ta])
      modifies this`esp0, table, table.pidArray, table.pcbs, table.activePid, table.processRtc, tables.pd
      modifies con`keyIdx, con.keyboardBuf, con.terms
      ensures Valid()
      ensures View() == Processes.Leave(old(View()))
      ensures resume == old(View()).procs[Cur(old(View()))].resume
    {
      hide Console.Console.View, Console.Console.Valid;
      resume := table.pcbs[table.curPid].resume;
      assert resume == table.Procs()[table.curPid].resume;
      Leave();
      SwitchTo(parent, old(table.curPid));
    }

    method ReplaceShell(regs: Ctx)
      requires Valid() && IsBaseShell(View())
      modifies table, table.pidArray, table.pcbs, table.activePid
      ensures Parts() && View() == Processes.Halt(old(View()), regs)
      ensures table.curPid == old(table.curPid) == Cur(View())
    {
      hide Console.Console.View, Console.Console.Valid;
      assert table.stacks[con.ta] == [table.curPid];
      table.Respawn(con.ta, regs);
      assert con.Valid() && con.Abstract() == old(con.Abstract()) && table.Valid();
    }

    method Leave()
      requires Valid() && !IsBaseShell(View())
      modifies table, table.pidArray, table.pcbs, table.activePid, table.processRtc
      modifies con`keyIdx, con.keyboardBuf, con.terms
      ensures Parts() && View() == Processes.Leave(old(View()))
      ensures table.curPid == Cur(View())
    {
      hide Console.Console.View, Console.Console.Valid;
      LeaveTable();
      con.WipeLine();
    }

    method LeaveTable()
      requires Valid() && !IsBaseShell(View())
      modifies table, table.pidArray, table.pcbs, table.activePid, table.processRtc
      ensures Parts() && View() == Processes.Leave(old(View())).(mux := old(View()).mux)
      ensures table.curPid == Cur(View())
    {
      hide Console.Console.View, Console.Console.Valid;
      table.Exit(con.ta);
      assert con.Valid() && con.Abstract() == old(con.Abstract()) && table.Valid();
    }

    /** sys_halt: the parent is told the low byte of the status. */
    method SysHalt(status: byte, regs: Ctx) returns (r: HaltResult)
      requires Valid() && DiskOk()
      modifies this`esp0, table, table.pidArray, table.pcbs, table.activePid, table.processRtc, tables.pd
      modifies con`keyIdx, con.keyboardBuf, con.terms
      ensures Valid() && View() == Processes.Halt(old(View()), regs)
      ensures table.curPid == Cur(View()) && esp0 == 0x80_0000 - Cur(View()) * 0x2000 - 4
      ensures r.Resumed? <==> !IsBaseShell(old(View()))
      ensures r.Resumed? ==> r.status == status && 0 <= r.status < 256
      ensures r.Resumed? ==> r.at == old(View()).procs[Cur(old(View()))].resume
    {
      r := Halt(status, regs);
    }

    /** The end of handle_exception: a status that no program can give. */
    method Fault(regs: Ctx) returns (r: HaltResult)
      requires Valid() && DiskOk()
      modifies this`esp0, table, table.pidArray, table.pcbs, table.activePid, table.processRtc, tables.pd
      modifies con`keyIdx, con.keyboardBuf, con.terms
      ensures Valid() && View() == Processes.Halt(old(View()), regs)
      ensures table.curPid == Cur(View()) && esp0 == 0x80_0000 - Cur(View()) * 0x2000 - 4
      ensures r.Resumed? <==> !IsBaseShell(old(View()))
      ensures r.Resumed? ==> r.status == 256 && r.at == old(View()).procs[Cur(old(View()))].resume
    {
      r := Halt(EXCEPTION_HALT, regs);
    }

    /** sys_getargs: the arguments of the running process, when it has any and they and
        their NUL fit in nbytes. */
    method SysGetArgs(buf: array<byte>, nbytes: int) returns (r: int)
      requires Valid() && nbytes <= buf.Length && buf != con.vram && buf != con.keyboardBuf
      modifies buf
      ensures Valid() && View() == old(View())
      ensures var args := View().procs[Cur(View())].args;
              r == (if args != [] && |args| < nbytes then 0 else -1) &&
              (r == 0 ==> buf[..|args|] == args && buf[|args|] == NUL && buf[|args| + 1..] == old(buf[|args| + 1..])) &&
              (r == -1 ==> buf[..] == old(buf[..]))
    {
      hide ProcTable.Chained, RtcOk, Console.Console.View, Console.Console.Valid;
      var args := table.pcbs[table.curPid].args;
      assert args == table.Procs()[table.curPid].args;
      var len := |args|;
      if len == 0 || len > nbytes - 1 {
        return -1;
      }
      var i := 0;
      while i < len
        invariant 0 <= i <= len && buf[..i] == args[..i]
        invariant forall k :: i <= k < buf.Length ==> buf[k] == old(buf[k])
      {
        buf[i] := args[i];
        i := i + 1;
      }
      buf[i] := NUL;
      return 0;
    }

    /** sys_vidmap: the address of the user video page, for a pointer in the 8 MB from
        the program page on. */
    method SysVidmap(screenStart: int) returns (r: Option<int>)
      requires Valid() && 0 <= screenStart < 0x1_0000_0000
      ensures r.Some? <==> VidmapAccepts(screenStart)
      ensures r.Some? ==> forall va :: r.value <= va < r.value + Paging.PAGE_4KB <==> Paging.InUserVideo(va)
      ensures r == if 0x800_0000 <= screenStart < 0x880_0000 then Some(0x84B_8000) else None
    {
      if !con.ptUser[Paging.VID_MEM_INDEX].p || screenStart == 0 {
        return None;
      }
      if screenStart < Paging.PROGRAM_VIR_ADDR || screenStart >= Paging.PROGRAM_VIR_ADDR + 2 * Paging.PAGE_4MB {
        return None;
      }
      return Some((Paging.PROGRAM_IMG_IDX + 1) * Paging.PAGE_4MB + Paging.VID_MEM_INDEX * Paging.PAGE_4KB);
    }

    // ----- descriptors

    method SysOpen(fname: seq<byte>) returns (r: int)
      requires Valid() && FS.ImageOk(image) && NUL in fname
      modifies table.pcbs, table.processRtc
      ensures Valid()
      ensures r == OpenResult(old(View()), image, FS.CString(fname))
      ensures View() == Open(old(View()), image, FS.CString(fname))
    {
      hide ProcTable.Chained, RtcOk, Console.Console.View, Console.Console.Valid, ProcTable.ProcTable.Procs;
      hide Attach, FS.Lookup, FirstUnused;
      var d := FS.ReadDentryByName(image, fname);
      if d.None? {
        return -1;
      }
      r := table.FindUnused();
      if r >= NUM_MAX_FILES {
        return -1;
      }
      AttachFile(r, d.value.fileType, d.value.inode);
    }

    method AttachFile(k: int, fileType: nat, inode: int)
      requires Valid() && 0 <= k < NUM_MAX_FILES && 0 <= inode < TWO_32
      modifies table.pcbs, table.processRtc
      ensures Valid()
      ensures View() == Attach(old(View()), k, fileType, inode)
    {
      if fileType == 0 {
        Install(k, Fd(RtcOps, inode, 0, 1));
        SetRate(MIN_VIR_FREQ);
      } else if fileType == 1 {
        Install(k, Fd(DirOps, inode, 0, 1));
      } else if fileType == 2 {
        Install(k, Fd(RegularOps, inode, 0, 1));
      }
    }

    method SetRate(f: int)
      requires Valid() && MIN_VIR_FREQ <= f <= MAX_VIR_FREQ
      modifies table.processRtc
      ensures Valid()
      ensures View() == old(View()).(rtc := old(View()).rtc[Cur(old(View())) := f])
    {
      hide Console.Console.View, Console.Console.Valid;
      table.SetRate(f);
    }

    method Install(k: int, fd: Fd)
      requires Valid() && 0 <= k < NUM_MAX_FILES && FdOk(fd)
      modifies table.pcbs
      ensures Valid()
      ensures View() == SetFd(old(View()), k, fd)
    {
      hide Console.Console.View, Console.Console.Valid;
      table.SetFd(table.curPid, k, fd);
    }

    method SysClose(k: int) returns (r: int)
      requires Valid()
      modifies table`dirIndex, table.pcbs, table.processRtc
      ensures Valid()
      ensures r == if CanClose(old(View()), k) then 0 else -1
      ensures View() == Close(old(View()), k)
    {
      hide ProcTable.Chained, RtcOk, Console.Console.View, Console.Console.Valid, ProcTable.ProcTable.Procs;
      r := table.Close(k);
    }

    /** sys_read.  Descriptor number 8 passes the bound check; what lies behind the
        table is not part of this model. */
    method SysRead(k: int, buf: array<byte>, n: int) returns (r: ReadOutcome)
      requires Valid() && FS.ImageOk(image) && buf != con.vram && buf != con.keyboardBuf
      requires 0 <= k < NUM_MAX_FILES ==> Room(View().procs[Cur(View())].fds[k].ops, n, buf.Length)
      modifies table`dirIndex, table.pcbs, con`keyIdx, con.keyboardBuf, buf
      ensures Valid()
      ensures r == ReadResult(old(View()), image, k, n)
      ensures r.Got? && r.count > 0 ==> r.count <= buf.Length && buf[..r.count] == r.bytes
      ensures View() == Read(old(View()), image, k, n)
    {
      hide Console.Console.View, Console.Console.Valid;
      if k < 0 || k > NUM_MAX_FILES {
        return Got(-1, []);
      }
      if k == NUM_MAX_FILES {
        return OffTable;
      }
      var fd := table.GetFd(k);
      if fd.flags == 0 {
        return Got(-1, []);
      }
      r := ReadThrough(k, fd, buf, n);
    }

    method ReadThrough(k: int, fd: Fd, buf: array<byte>, n: int) returns (r: ReadOutcome)
      requires Valid() && FS.ImageOk(image) && buf != con.vram && buf != con.keyboardBuf
      requires Room(fd.ops, n, buf.Length) && 0 <= k < NUM_MAX_FILES && FdOk(fd)
      modifies table`dirIndex, table.pcbs, con`keyIdx, con.keyboardBuf, buf
      ensures Valid()
      ensures r == DriverRead(old(View()), image, fd, n)
      ensures r.Got? && r.count > 0 ==> r.count <= buf.Length && buf[..r.count] == r.bytes
      ensures View() == Processes.ReadThrough(old(View()), image, k, fd, n)
    {
      hide Console.Console.View, Console.Console.Valid;
      r := CallDriver(fd, buf, n);
      Advance(k, fd, r);
    }

    /** Updates the file position. */
    method Advance(k: int, fd: Fd, r: ReadOutcome)
      requires Valid() && 0 <= k < NUM_MAX_FILES && FdOk(fd)
      modifies table.pcbs
      ensures Valid()
      ensures View() == Processes.Advance(old(View()), k, fd, r)
    {
      hide Console.Console.View, Console.Console.Valid;
      if r.Got? {
        Install(k, fd.(pos := (fd.pos + r.count) % TWO_32));
      }
    }

    /** The read operation of the descriptor's file operations table. */
    method CallDriver(fd: Fd, buf: array<byte>, n: int) returns (r: ReadOutcome)
      requires Valid() && FS.ImageOk(image) && buf != con.vram && buf != con.keyboardBuf
      requires Room(fd.ops, n, buf.Length) && FdOk(fd)
      modifies table`dirIndex, con`keyIdx, con.keyboardBuf, buf
      ensures Valid()
      ensures r == DriverRead(old(View()), image, fd, n)
      ensures r.Got? && r.count > 0 ==> r.count <= buf.Length && buf[..r.count] == r.bytes
      ensures View() == DriverStep(old(View()), image, fd, n)
    {
      hide ProcTable.Chained, RtcOk, Console.Console.View, Console.Console.Valid;
      match fd.ops {
        case StdinOps => r := ReadLine(buf, n);
        case RegularOps => r := ReadFile(fd, buf, n);
        case DirOps => r := ReadName(buf);
        case RtcOps => r := Got(0, []);
        case _ => r := Got(-1, []);
      }
    }

    method ReadLine(buf: array<byte>, n: int) returns (r: ReadOutcome)
      requires Valid() && buf != con.vram && buf != con.keyboardBuf && Min(n, LineEdit.KEY_BUF_SIZE - 1) < buf.Length
      modifies con`keyIdx, con.keyboardBuf, buf
      ensures Valid()
      ensures r == LineRead(old(View()).mux, n)
      ensures r.Got? && r.count > 0 ==> r.count <= buf.Length && buf[..r.count] == r.bytes
      ensures View() == if n < 0 then old(View()) else old(View()).(mux := Consoles.Read(old(View()).mux))
    {
      hide Console.Console.View, Console.Console.Valid;
      var s := con.TerminalRead(buf, n);
      if s == Console.Blocked {
        return Waits;
      }
      return Got(s.count, if s.count > 0 then buf[..s.count] else []);
    }

    method ReadFile(fd: Fd, buf: array<byte>, n: int) returns (r: ReadOutcome)
      requires FS.ImageOk(image) && FdOk(fd) && n <= buf.Length
      modifies buf
      ensures r == RegularRead(image, fd, n)
      ensures r.Got? && r.count > 0 ==> r.count <= buf.Length && buf[..r.count] == r.bytes
    {
      hide FS.OnDisk, FS.InodeOk, FS.Contents;
      if n < 0 {
        return Got(-1, []);
      }
      var count := FS.ReadData(image, fd.inode, fd.pos, buf, n);
      return Got(count, if count > 0 then buf[..count] else []);
    }

    method ReadName(buf: array<byte>) returns (r: ReadOutcome)
      requires Valid() && FS.ImageOk(image) && FS.MAX_STR_LENGTH < buf.Length
      requires buf != con.vram && buf != con.keyboardBuf
      modifies table`dirIndex, buf
      ensures Valid()
      ensures r == DirRead(image, old(View()).dirIndex)
      ensures r.Got? && r.count > 0 ==> r.count <= buf.Length && buf[..r.count] == r.bytes
      ensures View() == old(View()).(dirIndex := if old(View()).dirIndex < FS.NumDirEntries(image)
                                                 then old(View()).dirIndex + 1 else old(View()).dirIndex)
    {
      hide ProcTable.Chained, RtcOk, Console.Console.View, Console.Console.Valid;
      var count, next := FS.DirRead(image, table.dirIndex, buf);
      table.dirIndex := next;
      return Got(count, buf[..count]);
    }

    /** sys_write, with the same bound check as sys_read. */
    method SysWrite(k: int, buf: array<byte>, n: int) returns (r: WriteOutcome)
      requires Valid() && buf != con.vram && n <= buf.Length && (SetsClock(View(), k) ==> 4 <= buf.Length)
      modifies table.processRtc, con.vram, con.terms
      ensures Valid()
      ensures r == WriteResult(old(View()), k, buf[..], n)
      ensures View() == Write(old(View()), k, buf[..], n)
    {
      hide Console.Console.View, Console.Console.Valid;
      if k < 0 || k > NUM_MAX_FILES {
        return Wrote(-1);
      }
      if k == NUM_MAX_FILES {
        return PastTable;
      }
      var fd := table.GetFd(k);
      if fd.flags == 0 {
        return Wrote(-1);
      }
      var count := CallWrite(fd, buf, n);
      return Wrote(count);
    }

    /** The write operation of the descriptor's file operations table. */
    method CallWrite(fd: Fd, buf: array<byte>, n: int) returns (count: int)
      requires Valid() && buf != con.vram && n <= buf.Length && (fd.ops == RtcOps ==> 4 <= buf.Length)
      modifies table.processRtc, con.vram, con.terms
      ensures Valid()
      ensures count == DriverWrote(fd, buf[..], n)
      ensures View() == DriverWrite(old(View()), fd, buf[..], n)
    {
      match fd.ops {
        case StdoutOps => count := Print(buf, n);
        case RtcOps => count := RtcWrite(buf);
        case _ => count := -1;
      }
    }

    method Print(buf: array<byte>, n: int) returns (r: int)
      requires Valid() && buf != con.vram && n <= buf.Length
      modifies con.vram, con.terms
      ensures Valid() && r == if n < 0 then -1 else n
      ensures View() == if n < 0 then old(View())
                        else old(View()).(mux := Consoles.Write(old(View()).mux, buf[..][..n]))
    {
      r := con.TerminalWrite(buf, n);
      assert n >= 0 ==> buf[..][..n] == buf[..n];
    }

    method RtcWrite(buf: array<byte>) returns (r: int)
      requires Valid() && 4 <= buf.Length
      modifies table.processRtc
      ensures Valid() && r == if MIN_VIR_FREQ <= FS.U32(buf[..], 0) <= MAX_VIR_FREQ then 0 else -1
      ensures var f := FS.U32(buf[..], 0);
        View() == if MIN_VIR_FREQ <= f <= MAX_VIR_FREQ
                  then old(View()).(rtc := old(View()).rtc[Cur(old(View())) := f]) else old(View())
    {
      var f := FS.U32(buf[..], 0);
      if f < MIN_VIR_FREQ || f > MAX_VIR_FREQ {
        return -1;
      }
      SetRate(f);
      r := 0;
    }

    method Key(key: Consoles.KeyState)
      requires Valid()
      modifies con, con.vram, con.keyboardBuf, con.terms, con.ptUser
      ensures Valid()
      ensures View() == old(View()).(mux := Consoles.PressKey(old(View()).mux, key))
      ensures Consoles.SwitchKey(key) ==> View().mux == old(View()).mux.(ts := key.function_ - 1)
      ensures !Consoles.SwitchKey(key) ==> View().mux.ts == old(View()).mux.ts
    {
      hide Console.Console.View;
      con.KeyboardHandler(key);
    }
  }
}
