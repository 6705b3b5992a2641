/** The process table as the kernel keeps it: the pid array, the process control
    blocks with their parent links, the active pid of each terminal, and what the
    clock and directory drivers keep beside it.  Proved against the stacks of
    module Processes. */
module ProcTable {
  import opened Bytes
  import opened Processes

  datatype Pcb = Pcb(fds: seq<Fd>, parentPid: int, resume: Ctx, saved: Ctx, args: seq<byte>)

  const EMPTY_PCB := Pcb(seq(NUM_MAX_FILES, _ => CLEARED), 0, Ctx(0, 0), Ctx(0, 0), [])

  function ProcOf(p: Pcb): Proc { Proc(p.fds, p.args, p.resume, p.saved) }

  function ProcsOf(pcbs: seq<Pcb>): (r: seq<Proc>)
    ensures |r| == |pcbs|
  {
    seq(|pcbs|, p requires 0 <= p < |pcbs| => ProcOf(pcbs[p]))
  }

  /** The first zero at or behind i. */
  function FirstZero(pids: seq<int>, i: nat): (r: nat)
    requires i <= |pids|
    ensures i <= r <= |pids|
    ensures forall j :: i <= j < r ==> pids[j] != 0
    ensures r < |pids| ==> pids[r] == 0
    decreases |pids| - i
  {
    if i == |pids| || pids[i] == 0 then i else FirstZero(pids, i + 1)
  }

  lemma {:induction false} FreeIsFirstZero(stacks: seq<seq<int>>, pids: seq<int>, i: nat)
    requires |pids| == MAX_PID && i <= MAX_PID && |stacks| == NUM_TERMS
    requires LiveAgrees(stacks, pids)
    ensures FirstFree(stacks, i) == if FirstZero(pids, i) == MAX_PID then None else Some(FirstZero(pids, i))
    decreases MAX_PID - i
  {
    if i < MAX_PID && pids[i] != 0 {
      FreeIsFirstZero(stacks, pids, i + 1);
    }
  }

  function Parents(pcbs: seq<Pcb>): (r: seq<int>)
    ensures |r| == |pcbs|
  {
    seq(|pcbs|, p requires 0 <= p < |pcbs| => pcbs[p].parentPid)
  }

  ghost predicate LiveAgrees(stacks: seq<seq<int>>, pids: seq<int>)
    requires |stacks| == NUM_TERMS && |pids| == MAX_PID
  {
    forall p :: 0 <= p < MAX_PID ==> pids[p] == if Live(stacks, p) then 1 else 0
  }

  /** parent_pid leads from the top of the stack down to its bottom, and from there
      nowhere. */
  ghost predicate IsChain(stack: seq<int>, parents: seq<int>) {
    stack == [] ||
    (&& 0 <= Top(stack) < |parents|
     && parents[Top(stack)] == (if |stack| == 1 then -1 else stack[|stack| - 2])
     && IsChain(stack[..|stack| - 1], parents))
  }

  lemma {:induction false} ChainIgnores(stack: seq<int>, parents: seq<int>, p: int, v: int)
    requires IsChain(stack, parents) && 0 <= p < |parents| && p !in stack
    ensures IsChain(stack, parents[p := v])
  {
    if stack != [] {
      ChainIgnores(stack[..|stack| - 1], parents, p, v);
    }
  }

  ghost predicate ParentsAgree(stacks: seq<seq<int>>, parents: seq<int>)
  {
    forall t :: 0 <= t < |stacks| ==> IsChain(stacks[t], parents)
  }

  ghost predicate ActiveAgrees(stacks: seq<seq<int>>, active: seq<int>)
    requires StacksOk(stacks) && |active| == NUM_TERMS
  {
    forall t :: 0 <= t < NUM_TERMS ==> active[t] == Top(stacks[t])
  }

  /** The live pids are those on the stacks; parent_pid leads from each active pid
      down its stack to the base shell, which has no parent. */
  ghost predicate Chained(stacks: seq<seq<int>>, pids: seq<int>, parents: seq<int>, active: seq<int>)
    requires StacksOk(stacks) && |pids| == |parents| == MAX_PID && |active| == NUM_TERMS
  {
    LiveAgrees(stacks, pids) && ParentsAgree(stacks, parents) && ActiveAgrees(stacks, active)
  }

  function Pushed(stacks: seq<seq<int>>, t: int, p: int): seq<seq<int>>
    requires 0 <= t < |stacks|
  {
    stacks[t := stacks[t] + [p]]
  }

  function Popped(stacks: seq<seq<int>>, t: int): seq<seq<int>>
    requires 0 <= t < |stacks| && stacks[t] != []
  {
    stacks[t := stacks[t][..|stacks[t]| - 1]]
  }

  lemma PushLive(stacks: seq<seq<int>>, t: int, p: int, pids: seq<int>)
    requires |stacks| == NUM_TERMS && |pids| == MAX_PID && LiveAgrees(stacks, pids)
    requires 0 <= t < NUM_TERMS && 0 <= p < MAX_PID
    ensures LiveAgrees(Pushed(stacks, t, p), pids[p := 1])
  {
    forall q | 0 <= q < MAX_PID ensures Live(Pushed(stacks, t, p), q) <==> Live(stacks, q) || q == p {
      assert q in stacks[t] + [p] <==> q in stacks[t] || q == p;
    }
  }

  lemma PushParents(stacks: seq<seq<int>>, t: int, p: int, parents: seq<int>)
    requires |stacks| == NUM_TERMS && |parents| == MAX_PID && ParentsAgree(stacks, parents)
    requires 0 <= t < NUM_TERMS && 0 <= p < MAX_PID && !Live(stacks, p) && stacks[t] != []
    ensures ParentsAgree(Pushed(stacks, t, p), parents[p := Top(stacks[t])])
  {
    var r := Pushed(stacks, t, p);
    forall u | 0 <= u < NUM_TERMS ensures IsChain(r[u], parents[p := Top(stacks[t])]) {
      ChainIgnores(stacks[u], parents, p, Top(stacks[t]));
      if u == t {
        assert r[u][..|r[u]| - 1] == stacks[u];
      }
    }
  }

  /** The top of a stack stands nowhere else. */
  lemma TopIsAlone(stacks: seq<seq<int>>, t: int, u: int)
    requires StacksOk(stacks) && 0 <= t < NUM_TERMS && 0 <= u < NUM_TERMS
    ensures Top(stacks[t]) !in Popped(stacks, t)[u]
  {
    var n := |stacks[t]| - 1;
    forall j | 0 <= j < |Popped(stacks, t)[u]| ensures Popped(stacks, t)[u][j] != Top(stacks[t]) {
      assert Popped(stacks, t)[u][j] == stacks[u][j] && Top(stacks[t]) == stacks[t][n];
    }
  }

  lemma PopLive(stacks: seq<seq<int>>, t: int, pids: seq<int>)
    requires StacksOk(stacks) && |pids| == MAX_PID && LiveAgrees(stacks, pids) && 0 <= t < NUM_TERMS
    ensures LiveAgrees(Popped(stacks, t), pids[Top(stacks[t]) := 0])
  {
    TopIsAlone(stacks, t, 0);
    TopIsAlone(stacks, t, 1);
    TopIsAlone(stacks, t, 2);
    RemovedLive(stacks, t, pids);
  }

  lemma RemovedLive(stacks: seq<seq<int>>, t: int, pids: seq<int>)
    requires |stacks| == NUM_TERMS && |pids| == MAX_PID && LiveAgrees(stacks, pids)
    requires 0 <= t < NUM_TERMS && stacks[t] != [] && 0 <= Top(stacks[t]) < MAX_PID
    requires !Live(Popped(stacks, t), Top(stacks[t]))
    ensures LiveAgrees(Popped(stacks, t), pids[Top(stacks[t]) := 0])
  {
    var p, r := Top(stacks[t]), Popped(stacks, t);
    assert stacks[t] == r[t] + [p];
    forall q | 0 <= q < MAX_PID && q != p ensures Live(r, q) <==> Live(stacks, q) {
      assert q in stacks[t] <==> q in r[t];
    }
  }

  lemma PopParents(stacks: seq<seq<int>>, t: int, parents: seq<int>)
    requires |stacks| == NUM_TERMS && ParentsAgree(stacks, parents)
    requires 0 <= t < NUM_TERMS && |stacks[t]| > 1
    ensures ParentsAgree(Popped(stacks, t), parents)
    ensures 0 <= Top(stacks[t]) < |parents| && parents[Top(stacks[t])] == Top(Popped(stacks, t)[t])
  {
  }

  function WithClosed(fds: seq<Fd>, k: int): (r: seq<Fd>)
    requires |fds| == NUM_MAX_FILES
    ensures |r| == NUM_MAX_FILES
  {
    if IsOpen(fds, k) then fds[k := UNUSED] else fds
  }

  predicate OpenBelow(fds: seq<Fd>, ops: FileOps, n: int)
    requires |fds| == NUM_MAX_FILES
  {
    exists k :: MIN_FD_INDEX <= k < n && IsOpenAs(fds, k, ops)
  }

  function PartlyClosed(fds: seq<Fd>, i: nat): (r: seq<Fd>)
    requires |fds| == NUM_MAX_FILES && i <= NUM_MAX_FILES
    ensures |r| == NUM_MAX_FILES
  {
    CloseAll(fds)[..i] + fds[i..]
  }

  lemma NextClosed(fds: seq<Fd>, i: nat)
    requires |fds| == NUM_MAX_FILES && MIN_FD_INDEX <= i < NUM_MAX_FILES
    ensures WithClosed(PartlyClosed(fds, i), i) == PartlyClosed(fds, i + 1)
    ensures forall ops :: IsOpenAs(PartlyClosed(fds, i), i, ops) <==> IsOpenAs(fds, i, ops)
    ensures forall ops :: OpenBelow(fds, ops, i + 1) <==> OpenBelow(fds, ops, i) || IsOpenAs(fds, i, ops)
  {
  }

  lemma BasesLive(stacks: seq<seq<int>>)
    requires StacksOk(stacks)
    ensures Live(stacks, 0) && Live(stacks, 1) && Live(stacks, 2)
  {
    assert stacks[0][0] == 0 && stacks[1][0] == 1 && stacks[2][0] == 2;
  }

  lemma BootStacksOk()
    ensures StacksOk([[0], [1], [2]])
  {
  }

  lemma BootLive(pids: seq<int>)
    requires pids == [1, 1, 1, 0, 0, 0]
    ensures LiveAgrees([[0], [1], [2]], pids)
  {
  }

  lemma BootParents(parents: seq<int>)
    requires |parents| == MAX_PID && parents[0] == parents[1] == parents[2] == -1
    ensures ParentsAgree([[0], [1], [2]], parents)
  {
    assert IsChain([], parents);
    assert [0][..0] == [] && [1][..0] == [] && [2][..0] == [];
  }

  lemma BootChained(stacks: seq<seq<int>>, pids: seq<int>, parents: seq<int>, active: seq<int>)
    requires stacks == [[0], [1], [2]] && pids == [1, 1, 1, 0, 0, 0] && active == [0, 1, 2]
    requires |parents| == MAX_PID && parents[0] == parents[1] == parents[2] == -1
    ensures StacksOk(stacks) && Chained(stacks, pids, parents, active)
  {
    BootStacksOk();
    BootLive(pids);
    BootParents(parents);
  }

  function BaseShell(s: Proc): Pcb { Pcb(s.fds, -1, s.resume, s.saved, s.args) }

  lemma BootProcs(s0: Proc, s1: Proc, s2: Proc)
    requires ProcOk(s0) && ProcOk(s1) && ProcOk(s2)
    ensures var procs := ProcsOf([BaseShell(s0), BaseShell(s1), BaseShell(s2), EMPTY_PCB, EMPTY_PCB, EMPTY_PCB]);
      ProcsOk(procs) && procs[..NUM_TERMS] == [s0, s1, s2]
  {
  }

  class ProcTable {
    const pidArray: array<int>
    const pcbs: array<Pcb>
    const activePid: array<int>      // terminals[t].active_pid
    const processRtc: array<int>
    var curPid: int
    var prevPid: int
    var dirIndex: int                // the directory cursor
    ghost var stacks: seq<seq<int>>

    ghost predicate Shape()
    {
      && pidArray.Length == MAX_PID && pcbs.Length == MAX_PID && activePid.Length == NUM_TERMS
      && processRtc.Length == MAX_PID
      && pidArray != activePid && pidArray != processRtc && activePid != processRtc
    }

    function Procs(): (r: seq<Proc>)
      reads pcbs
      ensures |r| == pcbs.Length
    {
      ProcsOf(pcbs[..])
    }

    ghost predicate Valid()
      reads this, pidArray, pcbs, activePid, processRtc
    {
      && Shape() && StacksOk(stacks)
      && Chained(stacks, pidArray[..], Parents(pcbs[..]), activePid[..])
      && ProcsOk(Procs()) && RtcOk(processRtc[..]) && 0 <= dirIndex
    }

    /** The state right after the fourth timer tick: three base shells. */
    constructor (s0: Proc, s1: Proc, s2: Proc)
      requires ProcOk(s0) && ProcOk(s1) && ProcOk(s2)
      ensures Valid() && fresh(pidArray) && fresh(pcbs) && fresh(activePid) && fresh(processRtc)
      ensures stacks == [[0], [1], [2]] && Procs()[..NUM_TERMS] == [s0, s1, s2] && curPid == 0 && dirIndex == 0
      ensures processRtc[..] == [1024, 1024, 1024, 1024, 1024, 1024]
    {
      pidArray := new int[] [1, 1, 1, 0, 0, 0];
      pcbs := new Pcb[] [BaseShell(s0), BaseShell(s1), BaseShell(s2), EMPTY_PCB, EMPTY_PCB, EMPTY_PCB];
      activePid := new int[] [0, 1, 2];
      processRtc := new int[] [MAX_VIR_FREQ, MAX_VIR_FREQ, MAX_VIR_FREQ, MAX_VIR_FREQ, MAX_VIR_FREQ, MAX_VIR_FREQ];
      curPid, prevPid, dirIndex := 0, -1, 0;
      stacks := [[0], [1], [2]];
      new;
      assert pcbs[..] == [BaseShell(s0), BaseShell(s1), BaseShell(s2), EMPTY_PCB, EMPTY_PCB, EMPTY_PCB];
      BootProcs(s0, s1, s2);
      BootChained(stacks, pidArray[..], Parents(pcbs[..]), activePid[..]);
    }

    /** Nothing but the contents of one process changed. */
    twostate lemma OneProc(pid: int)
      requires old(Valid()) && Shape() && 0 <= pid < MAX_PID && ProcOk(Procs()[pid])
      requires stacks == old(stacks) && pidArray[..] == old(pidArray[..]) && activePid[..] == old(activePid[..])
      requires processRtc[..] == old(processRtc[..]) && dirIndex == old(dirIndex)
      requires pcbs[pid].parentPid == old(pcbs[pid].parentPid)
      requires forall q :: 0 <= q < MAX_PID && q != pid ==> pcbs[q] == old(pcbs[q])
      ensures Valid() && Procs() == old(Procs())[pid := Procs()[pid]]
    {
      assert Procs() == old(Procs())[pid := Procs()[pid]];
      assert Parents(pcbs[..]) == old(Parents(pcbs[..]));
    }

    /** Keeps what a tick saves of the interrupted process. */
    method SaveCtx(pid: int, regs: Ctx)
      requires Valid() && 0 <= pid < MAX_PID
      modifies pcbs
      ensures Valid()
      ensures Procs() == old(Procs())[pid := old(Procs())[pid].(saved := regs)]
    {
      assert ProcOk(Procs()[pid]);
      pcbs[pid] := pcbs[pid].(saved := regs);
      OneProc(pid);
    }

    method SetFd(pid: int, k: int, fd: Fd)
      requires Valid() && 0 <= pid < MAX_PID && 0 <= k < NUM_MAX_FILES && FdOk(fd)
      modifies pcbs
      ensures Valid()
      ensures Procs() == old(Procs())[pid := old(Procs())[pid].(fds := old(Procs())[pid].fds[k := fd])]
    {
      assert ProcOk(Procs()[pid]);
      pcbs[pid] := pcbs[pid].(fds := pcbs[pid].fds[k := fd]);
      OneProc(pid);
    }

    /** The search of sys_execute for an open pid. */
    method TakePid() returns (i: nat)
      requires Shape()
      modifies this`curPid, this`prevPid, pidArray
      ensures i == FirstZero(old(pidArray[..]), 0)
      ensures i < MAX_PID ==> curPid == i && pidArray[..] == old(pidArray[..])[i := 1]
      ensures i == MAX_PID ==> curPid == old(curPid) && pidArray[..] == old(pidArray[..])
      ensures prevPid == if curPid <= 2 then -1 else old(curPid)
    {
      prevPid := curPid;
      i := 0;
      while i < MAX_PID
        invariant 0 <= i <= MAX_PID && curPid == prevPid == old(curPid) && pidArray[..] == old(pidArray[..])
        invariant FirstZero(pidArray[..], 0) == FirstZero(pidArray[..], i)
      {
        if pidArray[i] == 0 {
          curPid := i;
          pidArray[i] := 1;
          break;
        }
        i := i + 1;
      }
      if curPid <= 2 {
        prevPid := -1;
      }
    }

    /** The part of sys_execute that fills the new process's control block. */
    method InitPcb(pid: int, parent: int, args: seq<byte>, regs: Ctx)
      requires Shape() && 0 <= pid < MAX_PID && |pcbs[pid].fds| == NUM_MAX_FILES && NulFree(args)
      modifies pcbs
      ensures ProcOf(pcbs[pid]) == Fresh(pid, args, regs) && pcbs[pid].parentPid == parent
      ensures forall q :: 0 <= q < MAX_PID && q != pid ==> pcbs[q] == old(pcbs[q])
    {
      var i := 0;
      while i < NUM_MAX_FILES
        invariant 0 <= i <= NUM_MAX_FILES && |pcbs[pid].fds| == NUM_MAX_FILES
        invariant forall k :: 0 <= k < i ==> pcbs[pid].fds[k] == Fresh(pid, args, regs).fds[k]
        invariant forall q :: 0 <= q < MAX_PID && q != pid ==> pcbs[q] == old(pcbs[q])
      {
        var fd := if i == 0 then STDIN else if i == 1 then STDOUT else UNUSED;
        pcbs[pid] := pcbs[pid].(fds := pcbs[pid].fds[i := fd]);
        i := i + 1;
      }
      pcbs[pid] := pcbs[pid].(parentPid := parent);
      pcbs[pid] := pcbs[pid].(args := args);
      pcbs[pid] := pcbs[pid].(resume := regs);
      pcbs[pid] := pcbs[pid].(saved := Ctx(KernelStack(pid), KernelStack(pid)));
    }

    twostate lemma Spawned(t: int, new i: int)
      requires old(Valid()) && Shape() && 0 <= t < NUM_TERMS && 0 <= i < MAX_PID && !Live(old(stacks), i)
      requires stacks == Pushed(old(stacks), t, i) && pidArray[..] == old(pidArray[..])[i := 1]
      requires activePid[..] == old(activePid[..])[t := i]
      requires processRtc[..] == old(processRtc[..]) && dirIndex == old(dirIndex)
      requires ProcOk(Procs()[i]) && pcbs[i].parentPid == Top(old(stacks)[t])
      requires forall q :: 0 <= q < MAX_PID && q != i ==> pcbs[q] == old(pcbs[q])
      ensures Valid() && Procs() == old(Procs())[i := Procs()[i]]
    {
      PushOk(old(stacks), t, i);
      PushLive(old(stacks), t, i, old(pidArray[..]));
      PushParents(old(stacks), t, i, old(Parents(pcbs[..])));
      assert Parents(pcbs[..]) == old(Parents(pcbs[..]))[i := Top(old(stacks)[t])];
      assert Procs() == old(Procs())[i := Procs()[i]];
    }

    /** Puts a new process on top of terminal t's stack, if a pid is free. */
    method Spawn(t: int, args: seq<byte>, regs: Ctx) returns (r: Option<int>)
      requires Valid() && 0 <= t < NUM_TERMS && curPid == Top(stacks[t]) && NulFree(args)
      modifies this`curPid, this`prevPid, this`stacks, pidArray, pcbs, activePid
      ensures Valid()
      ensures r == FirstFree(old(stacks), 0)
      ensures r.None? ==> stacks == old(stacks) && Procs() == old(Procs()) && curPid == old(curPid)
      ensures r.Some? ==> stacks == Pushed(old(stacks), t, r.value) && curPid == r.value
      ensures r.Some? ==> Procs() == old(Procs())[r.value := Fresh(r.value, args, regs)]
    {
      hide FirstFree, FirstZero, Fresh, Live, ParentsAgree;
      FreeIsFirstZero(stacks, pidArray[..], 0);
      BasesLive(stacks);
      assert forall q :: 0 <= q < MAX_PID ==> ProcOk(Procs()[q]) && Procs()[q] == ProcOf(pcbs[q]);
      var i := TakePid();
      if i == MAX_PID {
        return None;
      }
      InitPcb(i, prevPid, args, regs);
      activePid[t] := i;
      stacks := Pushed(stacks, t, i);
      Spawned(t, i);
      return Some(i);
    }

    /** A halting base shell gives its pid up and takes it again. */
    method Respawn(t: int, regs: Ctx)
      requires Valid() && 0 <= t < NUM_TERMS && stacks[t] == [curPid]
      modifies this`curPid, this`prevPid, pidArray, pcbs, activePid
      ensures Valid()
      ensures stacks == old(stacks) && curPid == old(curPid)
      ensures Procs() == old(Procs())[curPid := Fresh(curPid, [], regs)]
    {
      assert stacks[t][0] == t == curPid && ProcOk(Procs()[t]);
      pidArray[curPid] := 0;
      curPid := -1;
      prevPid := -1;
      var i := TakePid();
      assert i == t;
      InitPcb(i, prevPid, [], regs);
      activePid[t] := i;
      OneProc(i);
    }

    /** The parent of the active process of terminal t; a base shell has none. */
    method ParentOf(t: int) returns (parent: int)
      requires Valid() && 0 <= t < NUM_TERMS && curPid == Top(stacks[t])
      ensures |stacks[t]| == 1 ==> parent == -1 && stacks[t] == [curPid]
      ensures |stacks[t]| > 1 ==> parent == Top(Popped(stacks, t)[t]) && parent >= 0
    {
      assert IsChain(stacks[t], Parents(pcbs[..]));
      parent := pcbs[curPid].parentPid;
    }

    twostate lemma Exited(t: int)
      requires old(Valid()) && Shape() && 0 <= t < NUM_TERMS && |old(stacks)[t]| > 1
      requires stacks == Popped(old(stacks), t) && pidArray[..] == old(pidArray[..])[Top(old(stacks)[t]) := 0]
      requires activePid[..] == old(activePid[..])[t := Top(stacks[t])]
      requires RtcOk(processRtc[..]) && 0 <= dirIndex
      requires var p := Top(old(stacks)[t]); ProcOk(Procs()[p]) && pcbs[p].parentPid == old(pcbs[..])[p].parentPid
      requires forall q :: 0 <= q < MAX_PID && q != Top(old(stacks)[t]) ==> pcbs[q] == old(pcbs[q])
      ensures Valid() && Procs() == old(Procs())[Top(old(stacks)[t]) := Procs()[Top(old(stacks)[t])]]
    {
      PopOk(old(stacks), t);
      PopLive(old(stacks), t, old(pidArray[..]));
      PopParents(old(stacks), t, old(Parents(pcbs[..])));
      assert Parents(pcbs[..]) == old(Parents(pcbs[..]));
      assert Procs() == old(Procs())[Top(old(stacks)[t]) := Procs()[Top(old(stacks)[t])]];
    }

    /** The running process of terminal t leaves: its descriptors are closed and its
        parent becomes the active process. */
    method Exit(t: int)
      requires Valid() && 0 <= t < NUM_TERMS && |stacks[t]| > 1 && curPid == Top(stacks[t])
      modifies this`curPid, this`prevPid, this`stacks, this`dirIndex, pidArray, pcbs, activePid, processRtc
      ensures Valid()
      ensures stacks == Popped(old(stacks), t) && curPid == Top(stacks[t])
      ensures var fds := old(Procs())[old(curPid)].fds;
        && Procs() == old(Procs())[old(curPid) := old(Procs())[old(curPid)].(fds := CloseAll(fds))]
        && processRtc[..] == (if HasOpen(fds, RtcOps) then old(processRtc[..])[old(curPid) := MAX_VIR_FREQ]
                              else old(processRtc[..]))
        && dirIndex == if HasOpen(fds, DirOps) then 0 else old(dirIndex)
    {
      ghost var parents := Parents(pcbs[..]);
      assert ProcOk(Procs()[curPid]);
      PopParents(stacks, t, parents);
      var parent := ReleasePid();
      CloseDescriptors();
      curPid := parent;
      activePid[t] := curPid;
      stacks := Popped(stacks, t);
      Exited(t);
    }

    method ReleasePid() returns (parent: int)
      requires Shape() && 0 <= curPid < MAX_PID && 0 <= pcbs[curPid].parentPid < MAX_PID
      modifies this`prevPid, pidArray
      ensures pidArray[..] == old(pidArray[..])[curPid := 0] && parent == pcbs[curPid].parentPid
    {
      pidArray[curPid] := 0;
      parent := pcbs[curPid].parentPid;
      prevPid := pcbs[parent].parentPid;
    }

    method CloseDescriptors()
      requires Shape() && 0 <= curPid < MAX_PID && |pcbs[curPid].fds| == NUM_MAX_FILES
      modifies this`dirIndex, pcbs, processRtc
      ensures pcbs[curPid] == old(pcbs[curPid]).(fds := CloseAll(old(pcbs[curPid]).fds))
      ensures forall q :: 0 <= q < MAX_PID && q != curPid ==> pcbs[q] == old(pcbs[q])
      ensures processRtc[..] == if HasOpen(old(pcbs[curPid]).fds, RtcOps)
                                then old(processRtc[..])[curPid := MAX_VIR_FREQ] else old(processRtc[..])
      ensures dirIndex == if HasOpen(old(pcbs[curPid]).fds, DirOps) then 0 else old(dirIndex)
    {
      ghost var fds := pcbs[curPid].fds;
      pcbs[curPid] := pcbs[curPid].(fds := pcbs[curPid].fds[0 := CLEARED]);
      pcbs[curPid] := pcbs[curPid].(fds := pcbs[curPid].fds[1 := CLEARED]);
      var i := MIN_FD_INDEX;
      while i < NUM_MAX_FILES
        invariant MIN_FD_INDEX <= i <= NUM_MAX_FILES
        invariant pcbs[curPid] == old(pcbs[curPid]).(fds := PartlyClosed(fds, i))
        invariant forall q :: 0 <= q < MAX_PID && q != curPid ==> pcbs[q] == old(pcbs[q])
        invariant processRtc[..] == if OpenBelow(fds, RtcOps, i)
                                    then old(processRtc[..])[curPid := MAX_VIR_FREQ] else old(processRtc[..])
        invariant dirIndex == if OpenBelow(fds, DirOps, i) then 0 else old(dirIndex)
      {
        NextClosed(fds, i);
        var _ := CloseFd(i);
        i := i + 1;
      }
    }

    /** sys_close on the running process. */
    method CloseFd(k: int) returns (r: int)
      requires Shape() && 0 <= curPid < MAX_PID && |pcbs[curPid].fds| == NUM_MAX_FILES
      modifies this`dirIndex, pcbs, processRtc
      ensures r == if IsOpen(old(pcbs[curPid]).fds, k) then 0 else -1
      ensures pcbs[curPid] == old(pcbs[curPid]).(fds := WithClosed(old(pcbs[curPid]).fds, k))
      ensures forall q :: 0 <= q < MAX_PID && q != curPid ==> pcbs[q] == old(pcbs[q])
      ensures processRtc[..] == if IsOpenAs(old(pcbs[curPid]).fds, k, RtcOps)
                                then old(processRtc[..])[curPid := MAX_VIR_FREQ] else old(processRtc[..])
      ensures dirIndex == if IsOpenAs(old(pcbs[curPid]).fds, k, DirOps) then 0 else old(dirIndex)
    {
      if k < MIN_FD_INDEX || k > NUM_MAX_FILES - 1 {
        return -1;
      }
      if pcbs[curPid].fds[k].flags == 0 {
        return -1;
      }
      match pcbs[curPid].fds[k].ops {
        case RtcOps => processRtc[curPid] := MAX_VIR_FREQ;
        case DirOps => dirIndex := 0;
        case _ =>
      }
      pcbs[curPid] := pcbs[curPid].(fds := pcbs[curPid].fds[k := UNUSED]);
      return 0;
    }

    method GetFd(k: int) returns (fd: Fd)
      requires Valid() && 0 <= curPid < MAX_PID && 0 <= k < NUM_MAX_FILES
      ensures fd == Procs()[curPid].fds[k] && FdOk(fd)
    {
      assert ProcOk(Procs()[curPid]) && Procs()[curPid] == ProcOf(pcbs[curPid]);
      fd := pcbs[curPid].fds[k];
    }

    /** The first unused descriptor of the running process, from 2 on. */
    method FindUnused() returns (k: nat)
      requires Valid() && 0 <= curPid < MAX_PID
      ensures k == FirstUnused(Procs()[curPid].fds, MIN_FD_INDEX)
    {
      ghost var fds := Procs()[curPid].fds;
      assert ProcOk(Procs()[curPid]) && Procs()[curPid] == ProcOf(pcbs[curPid]);
      k := MIN_FD_INDEX;
      while k < NUM_MAX_FILES && pcbs[curPid].fds[k].flags != 0
        invariant MIN_FD_INDEX <= k <= NUM_MAX_FILES && FirstUnused(fds, MIN_FD_INDEX) == FirstUnused(fds, k)
      {
        k := k + 1;
      }
    }

    /** Sets the running process's virtual clock frequency. */
    method SetRate(f: int)
      requires Valid() && 0 <= curPid < MAX_PID && MIN_VIR_FREQ <= f <= MAX_VIR_FREQ
      modifies processRtc
      ensures Valid() && processRtc[..] == old(processRtc[..])[curPid := f]
    {
      processRtc[curPid] := f;
      assert activePid[..] == old(activePid[..]) && pidArray[..] == old(pidArray[..]);
    }

    method Close(k: int) returns (r: int)
      requires Valid() && 0 <= curPid < MAX_PID
      modifies this`dirIndex, pcbs, processRtc
      ensures Valid()
      ensures r == if IsOpen(old(Procs())[curPid].fds, k) then 0 else -1
      ensures Procs() == old(Procs())[curPid := old(Procs())[curPid].(fds := WithClosed(old(Procs())[curPid].fds, k))]
      ensures processRtc[..] == if IsOpenAs(old(Procs())[curPid].fds, k, RtcOps)
                                then old(processRtc[..])[curPid := MAX_VIR_FREQ] else old(processRtc[..])
      ensures dirIndex == if IsOpenAs(old(Procs())[curPid].fds, k, DirOps) then 0 else old(dirIndex)
    {
      ghost var procs, pid := Procs(), curPid;
      assert ProcOk(procs[pid]) && procs[pid] == ProcOf(pcbs[pid]);
      r := CloseFd(k);
      assert Procs() == procs[pid := procs[pid].(fds := WithClosed(procs[pid].fds, k))];
      assert Parents(pcbs[..]) == old(Parents(pcbs[..]));
      assert activePid[..] == old(activePid[..]) && pidArray[..] == old(pidArray[..]);
    }
  }
}
