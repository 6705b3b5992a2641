/** What holds of the kernel in every state that any run of events can reach. */
module Machine {
  import opened Bytes
  import opened Processes
  import KernelRuns
  import FS = FileSystem
  import Paging
  import ProcTable
  import Kernel

  // ----- parent links

  /** The pids met by following parent links from p, at most n of them, outermost
      ancestor first. */
  function Walk(parents: seq<int>, p: int, n: nat): seq<int>
    decreases n
  {
    if n == 0 || p < 0 || p >= |parents| then [] else Walk(parents, parents[p], n - 1) + [p]
  }

  lemma {:induction false} WalkIsStack(stack: seq<int>, parents: seq<int>, n: nat)
    requires stack != [] && ProcTable.IsChain(stack, parents) && n >= |stack|
    requires forall i :: 0 <= i < |stack| ==> stack[i] >= 0
    ensures Walk(parents, Top(stack), n) == stack
    decreases n
  {
    var below := stack[..|stack| - 1];
    if below != [] {
      WalkIsStack(below, parents, n - 1);
      assert Top(below) == stack[|stack| - 2];
    }
  }

  /** The chain of parent links from terminal t's active pid. */
  function ChainOf(tab: ProcTable.ProcTable, t: int, n: nat): seq<int>
    requires tab.Shape() && 0 <= t < NUM_TERMS
    reads tab.activePid, tab.pcbs
  {
    Walk(ProcTable.Parents(tab.pcbs[..]), tab.activePid[t], n)
  }

  lemma ChainIsStack(tab: ProcTable.ProcTable, t: int, n: nat)
    requires tab.Valid() && 0 <= t < NUM_TERMS && n >= |tab.stacks[t]|
    ensures ChainOf(tab, t, n) == tab.stacks[t]
  {
    var stack := tab.stacks[t];
    assert forall i :: 0 <= i < |stack| ==> 0 <= tab.stacks[t][i];
    WalkIsStack(stack, ProcTable.Parents(tab.pcbs[..]), n);
  }

  /** From the three active pids the parent links lead, without a cycle, to the three
      base shells 0, 1 and 2; the chains are disjoint, and together they are exactly
      the pids marked live. */
  lemma ParentChainsAreLivePids(tab: ProcTable.ProcTable, n: nat)
    requires tab.Valid() && n >= |tab.stacks[0]| && n >= |tab.stacks[1]| && n >= |tab.stacks[2]|
    ensures forall t :: 0 <= t < NUM_TERMS ==> ChainOf(tab, t, n) != [] && ChainOf(tab, t, n)[0] == t
    ensures forall t, i, u, j :: 0 <= t < NUM_TERMS && 0 <= u < NUM_TERMS
              && 0 <= i < |ChainOf(tab, t, n)| && 0 <= j < |ChainOf(tab, u, n)| && (t != u || i != j)
              ==> ChainOf(tab, t, n)[i] != ChainOf(tab, u, n)[j]
    ensures forall p :: 0 <= p < MAX_PID ==>
              (tab.pidArray[p] == 1 <==> p in ChainOf(tab, 0, n) || p in ChainOf(tab, 1, n) || p in ChainOf(tab, 2, n))
  {
    ChainIsStack(tab, 0, n);
    ChainIsStack(tab, 1, n);
    ChainIsStack(tab, 2, n);
    assert forall t :: 0 <= t < NUM_TERMS ==> ChainOf(tab, t, n) == tab.stacks[t];
    assert forall p :: 0 <= p < MAX_PID ==> tab.pidArray[p] == tab.pidArray[..][p];
  }

  // ----- memory

  /** In every valid state user code reaches exactly the program page, which is the
      running process's own 4 MB, and the video page, which is the shown screen when
      the running terminal is shown and that terminal's backing page otherwise. */
  lemma UserMemory(k: Kernel.Kernel, va: int)
    requires k.Valid() && 0 <= va < 0x1_0000_0000
    ensures Paging.TablesOk(k.tables.View())
    ensures var a, m := Paging.Translate(k.tables.View(), va), k.View().mux;
      var screen := Paging.VID_MEM_INDEX + if m.ts == m.ta then 0 else m.ta + 1;
      && (a.Some? && a.value.user <==> Paging.InImage(va) || Paging.InUserVideo(va))
      && (Paging.InImage(va) ==>
            a.value.phys == (Cur(k.View()) + 2) * Paging.PAGE_4MB + (va - Paging.PROGRAM_VIR_ADDR))
      && (Paging.InUserVideo(va) ==> a.value.phys == screen * Paging.PAGE_4KB + (va - Paging.USER_VIDEO))
  {
    Paging.UserReach(k.tables.View(), k.table.curPid, k.con.VideoFrame(), va);
  }

  /** The whole map of memory in every valid state. */
  lemma MemoryMap(k: Kernel.Kernel, va: int)
    requires k.Valid() && 0 <= va < 0x1_0000_0000
    ensures Paging.TablesOk(k.tables.View())
    ensures var m := k.View().mux;
      var screen := 0xB8 + if m.ts == m.ta then 0 else m.ta + 1;
      Paging.Translate(k.tables.View(), va) ==
        if 0x800_0000 <= va < 0x840_0000
        then Some(Paging.Access((Cur(k.View()) + 2) * 0x40_0000 + va - 0x800_0000, true, true))
        else if 0x84B_8000 <= va < 0x84B_9000 then Some(Paging.Access(screen * 0x1000 + va - 0x84B_8000, true, true))
        else if 0x40_0000 <= va < 0x80_0000 || 0xB_8000 <= va < 0xB_C000 then Some(Paging.Access(va, false, true))
        else None
  {
    Paging.WholeMap(k.tables.View(), k.table.curPid, k.con.VideoFrame(), va);
  }

  // ----- kernel stacks

  /** The 8 KB at the end of the kernel's 4 MB that belong to a pid. */
  predicate InStack(p: int, a: int) { 0x80_0000 - (p + 1) * 0x2000 <= a < 0x80_0000 - p * 0x2000 }

  lemma LiveIsPid(stacks: seq<seq<int>>, p: int)
    requires StacksOk(stacks) && Live(stacks, p)
    ensures 0 <= p < 6
  {
    var t :| 0 <= t < NUM_TERMS && p in stacks[t];
    var i :| 0 <= i < |stacks[t]| && stacks[t][i] == p;
  }

  /** In every valid state no two live processes share a byte of kernel stack, every stack is
      mapped for the kernel alone, and the next entry into the kernel starts at the top of
      the running process's own stack. */
  lemma KernelStacksApart(k: Kernel.Kernel, p: int, q: int, a: int)
    requires k.Valid() && Live(k.View().stacks, p) && Live(k.View().stacks, q)
    ensures InStack(p, a) && InStack(q, a) ==> p == q
    ensures InStack(p, a) ==>
      && 0x40_0000 <= a < 0x80_0000 && Paging.TablesOk(k.tables.View())
      && Paging.Translate(k.tables.View(), a) == Some(Paging.Access(a, false, true))
    ensures k.esp0 == 0x80_0000 - Cur(k.View()) * 0x2000 - 4 && InStack(Cur(k.View()), k.esp0)
  {
    hide Paging.Translate, Paging.TablesOk;
    LiveIsPid(k.View().stacks, p);
    LiveIsPid(k.View().stacks, q);
    if InStack(p, a) {
      MemoryMap(k, a);
    }
  }

  /** A store of four bytes from va on by the kernel's caller is mapped for user code. */
  ghost predicate UserCanStore(k: Kernel.Kernel, va: int)
    requires k.Valid() && 0 <= va && va + 3 < 0x1_0000_0000
    reads k, k.tables.pd, k.tables.pt
    reads k.con, k.con.vram, k.con.keyboardBuf, k.con.terms, k.con.ptUser
    reads k.table, k.table.pidArray, k.table.pcbs, k.table.activePid, k.table.processRtc
  {
    Paging.TablesOk(k.tables.View()) &&
    forall i :: va <= i < va + 4 ==>
      Paging.Translate(k.tables.View(), i).Some? && Paging.Translate(k.tables.View(), i).value.user
  }

  /** sys_vidmap stores an address through a pointer that it accepts.  The pointer leads to
      user memory if and only if it lies in the program page or in the mapped video page
      behind it, and so does the whole store if and only if its last byte does too. */
  lemma VidmapPointerMappedIff(k: Kernel.Kernel, p: int)
    requires k.Valid() && Kernel.VidmapAccepts(p)
    ensures Paging.TablesOk(k.tables.View())
    ensures var a := Paging.Translate(k.tables.View(), p);
            a.Some? && a.value.user <==> Paging.InImage(p) || Paging.InUserVideo(p)
    ensures UserCanStore(k, p) <==>
            (Paging.InImage(p) && Paging.InImage(p + 3)) || (Paging.InUserVideo(p) && Paging.InUserVideo(p + 3))
  {
    hide Paging.Translate, Paging.TablesOk, Kernel.Kernel.View, Kernel.Kernel.Valid, Cur;
    UserMemory(k, p);
    UserMemory(k, p + 1);
    UserMemory(k, p + 2);
    UserMemory(k, p + 3);
  }

  /** The first address behind the program page is accepted and not mapped. */
  lemma VidmapAcceptsUnmapped(k: Kernel.Kernel)
    requires k.Valid()
    ensures Kernel.VidmapAccepts(0x840_0000) && Paging.TablesOk(k.tables.View())
    ensures Paging.Translate(k.tables.View(), 0x840_0000).None? && !UserCanStore(k, 0x840_0000)
  {
    UserMemory(k, 0x840_0000);
    VidmapPointerMappedIff(k, 0x840_0000);
  }

  // ----- runs of the kernel itself

  /** What a caller has to see to: arguments that fit their buffer, and a buffer as large
      as the write.  The buffer is the memory from its address on, four bytes at least. */
  ghost predicate Fits(e: Event) {
    && EventOk(e)
    && (e.ExecuteEvent? ==> |Parse(e.command).args| < CMD_LINE_LEN)
    && (e.OpenEvent? ==> NulFree(e.name))
    && (e.WriteEvent? ==> 4 <= |e.buf| && e.nbytes <= |e.buf|)
  }

  method HandleOpen(k: Kernel.Kernel, name: seq<byte>)
    requires k.Valid() && FS.ImageOk(k.image) && NulFree(name)
    modifies k.table.pcbs, k.table.processRtc
    ensures k.Valid() && k.View() == Open(old(k.View()), k.image, name)
  {
    assert (name + [NUL])[|name|] == NUL;
    assert FS.CString(name + [NUL]) == name;
    var _ := k.SysOpen(name + [NUL]);
  }

  method HandleRead(k: Kernel.Kernel, fd: int, n: int)
    requires k.Valid() && FS.ImageOk(k.image)
    modifies k.table`dirIndex, k.table.pcbs, k.con`keyIdx, k.con.keyboardBuf
    ensures k.Valid() && k.View() == Read(old(k.View()), k.image, fd, n)
  {
    var buf := new byte[Max(n, FS.MAX_STR_LENGTH) + 1](_ => NUL);
    var _ := k.SysRead(fd, buf, n);
  }

  method HandleWrite(k: Kernel.Kernel, fd: int, data: seq<byte>, n: int)
    requires k.Valid() && 4 <= |data| && n <= |data|
    modifies k.table.processRtc, k.con.vram, k.con.terms
    ensures k.Valid() && k.View() == Write(old(k.View()), fd, data, n)
  {
    var buf := new byte[|data|](i requires 0 <= i < |data| => data[i]);
    assert buf[..] == data;
    var _ := k.SysWrite(fd, buf, n);
  }

  method HandleEvent(k: Kernel.Kernel, e: Event)
    requires k.Valid() && k.DiskOk() && Fits(e)
    modifies k, k.table, k.table.pidArray, k.table.pcbs, k.table.activePid, k.table.processRtc, k.tables.pd
    modifies k.con, k.con.vram, k.con.keyboardBuf, k.con.terms, k.con.ptUser
    ensures k.Valid() && k.View() == Step(old(k.View()), k.image, e)
  {
    hide Tick, Execute, Halt, Open, Close, Read, Write, Consoles.PressKey, Kernel.Kernel.View, Kernel.Kernel.Valid;
    match e
    case TickEvent(ctx) => var _ := k.PitHandler(ctx);
    case ExecuteEvent(command, ctx) => var _ := k.Execute(command, ctx);
    case HaltEvent(ctx) => var _ := k.Halt(0, ctx);
    case OpenEvent(name) => HandleOpen(k, name);
    case CloseEvent(fd) => var _ := k.SysClose(fd);
    case ReadEvent(fd, n) => HandleRead(k, fd, n);
    case WriteEvent(fd, data, n) => HandleWrite(k, fd, data, n);
    case KeyEvent(key) => k.Key(key);
  }

  lemma OneMore(os: OS, image: seq<byte>, events: seq<Event>, i: nat)
    requires OsOk(os) && FS.ImageOk(image) && i < |events|
    requires KernelRuns.EventsOk(events[..i]) && EventOk(events[i])
    ensures KernelRuns.EventsOk(events[..i + 1])
    ensures KernelRuns.Run(os, image, events[..i + 1]) == Step(KernelRuns.Run(os, image, events[..i]), image, events[i])
  {
    assert events[..i + 1][..i] == events[..i];
  }

  /** Any run of the kernel is a run of the process stacks. */
  method RunEvents(k: Kernel.Kernel, events: seq<Event>)
    requires k.Valid() && k.DiskOk() && forall i :: 0 <= i < |events| ==> Fits(events[i])
    modifies k, k.table, k.table.pidArray, k.table.pcbs, k.table.activePid, k.table.processRtc, k.tables.pd
    modifies k.con, k.con.vram, k.con.keyboardBuf, k.con.terms, k.con.ptUser
    ensures k.Valid() && KernelRuns.EventsOk(events)
    ensures k.View() == KernelRuns.Run(old(k.View()), k.image, events)
  {
    hide Step, Kernel.Kernel.View, FS.ImageOk, Executable;
    ghost var os := k.View();
    var i := 0;
    while i < |events|
      invariant 0 <= i <= |events| && k.Valid() && KernelRuns.EventsOk(events[..i])
      invariant k.View() == KernelRuns.Run(os, k.image, events[..i])
    {
      OneMore(os, k.image, events, i);
      HandleEvent(k, events[i]);
      i := i + 1;
    }
    assert events[..|events|] == events;
  }
}
