/** Reading a file through a descriptor, while every other process goes on: the
    pieces read are the file, in order and without gaps. */
module FileRuns {
  import opened Bytes
  import opened Processes
  import opened KernelRuns
  import FS = FileSystem

  /** The descriptor is a regular file of the disk, at a position inside the file. */
  ghost predicate AtFile(image: seq<byte>, fd: Fd)
    requires FS.ImageOk(image)
  {
    && fd.ops == RegularOps && fd.flags != 0 && 0 <= fd.inode < FS.NumInodes(image)
    && 0 <= fd.pos <= FS.FileLength(image, fd.inode)
  }

  predicate IsRead(os: OS, e: Event, p: int, k: int)
    requires OsOk(os)
  {
    e.ReadEvent? && Cur(os) == p && e.fd == k
  }

  /** Process p neither closes the descriptor nor halts, and asks for no negative size. */
  predicate Keeps(os: OS, e: Event, p: int, k: int)
    requires OsOk(os)
  {
    Cur(os) == p ==> !e.HaltEvent? && !(e.CloseEvent? && e.fd == k) && !(e.ReadEvent? && e.fd == k && e.nbytes < 0)
  }

  ghost predicate KeepsAll(os: OS, image: seq<byte>, events: seq<Event>, p: int, k: int)
    requires OsOk(os) && FS.ImageOk(image) && EventsOk(events)
    decreases |events|
  {
    events != [] ==>
      var most := events[..|events| - 1];
      KeepsAll(os, image, most, p, k) && Keeps(Run(os, image, most), events[|events| - 1], p, k)
  }

  /** Everything p has read through k in the run, and how much it asked for. */
  function Log(os: OS, image: seq<byte>, events: seq<Event>, p: int, k: int): seq<byte>
    requires OsOk(os) && FS.ImageOk(image) && EventsOk(events)
    decreases |events|
  {
    if events == [] then []
    else
      var most, e := events[..|events| - 1], events[|events| - 1];
      var before := Log(os, image, most, p, k);
      var mid := Run(os, image, most);
      if IsRead(mid, e, p, k) && ReadResult(mid, image, k, e.nbytes).Got?
      then before + ReadResult(mid, image, k, e.nbytes).bytes else before
  }

  function Asked(os: OS, image: seq<byte>, events: seq<Event>, p: int, k: int): int
    requires OsOk(os) && FS.ImageOk(image) && EventsOk(events)
    decreases |events|
  {
    if events == [] then 0
    else
      var most, e := events[..|events| - 1], events[|events| - 1];
      Asked(os, image, most, p, k) + if IsRead(Run(os, image, most), e, p, k) then e.nbytes else 0
  }

  // ----- one step

  lemma FreeUntouched(fds: seq<Fd>, k: int)
    requires |fds| == NUM_MAX_FILES && MIN_FD_INDEX <= k < NUM_MAX_FILES && fds[k].flags != 0
    ensures FirstUnused(fds, MIN_FD_INDEX) != k
  {
  }

  lemma OpenKeepsFd(os: OS, image: seq<byte>, name: seq<byte>, k: int)
    requires OsOk(os) && FS.ImageOk(image) && MIN_FD_INDEX <= k < NUM_MAX_FILES
    requires os.procs[Cur(os)].fds[k].flags != 0
    ensures Open(os, image, name).procs[Cur(os)].fds[k] == os.procs[Cur(os)].fds[k]
  {
    FreeUntouched(os.procs[Cur(os)].fds, k);
  }

  lemma ReadKeepsFd(os: OS, image: seq<byte>, j: int, size: int, k: int)
    requires OsOk(os) && FS.ImageOk(image) && 0 <= k < NUM_MAX_FILES && j != k
    ensures Read(os, image, j, size).procs[Cur(os)].fds[k] == os.procs[Cur(os)].fds[k]
  {
    if 0 <= j < NUM_MAX_FILES {
      var os' := DriverStep(os, image, os.procs[Cur(os)].fds[j], size);
      assert os'.procs == os.procs && Cur(os') == Cur(os);
    }
  }

  /** The running process's other calls do not touch an open descriptor. */
  lemma OwnStep(os: OS, image: seq<byte>, e: Event, k: int)
    requires OsOk(os) && FS.ImageOk(image) && EventOk(e) && MIN_FD_INDEX <= k < NUM_MAX_FILES
    requires os.procs[Cur(os)].fds[k].flags != 0 && Keeps(os, e, Cur(os), k) && !IsRead(os, e, Cur(os), k)
    ensures Step(os, image, e).procs[Cur(os)].fds[k] == os.procs[Cur(os)].fds[k]
  {
    match e
    case ReadEvent(j, size) => ReadKeepsFd(os, image, j, size, k);
    case OpenEvent(name) => OpenKeepsFd(os, image, name, k);
    case WriteEvent(j, buf, size) => WriteKeepsProcs(os, j, buf, size);
    case ExecuteEvent(command, ctx) => StartKeepsResume(os, Parse(command).args, ctx);
    case CloseEvent(j) => assert Close(os, j).procs[Cur(os)].fds[k] == os.procs[Cur(os)].fds[k];
    case _ =>
  }

  /** A process that does not halt stays live. */
  lemma StaysLive(os: OS, image: seq<byte>, e: Event, p: int)
    requires OsOk(os) && FS.ImageOk(image) && EventOk(e) && Live(os.stacks, p) && 0 <= p < MAX_PID
    requires Cur(os) == p ==> !e.HaltEvent?
    ensures Live(Step(os, image, e).stacks, p)
  {
    match e
    case HaltEvent(ctx) =>
      if !IsBaseShell(os) {
        HaltFrees(os, ctx);
      }
    case ExecuteEvent(command, ctx) => StartKeepsLive(os, Parse(command).args, ctx, p);
    case ReadEvent(j, size) => ReadFrame(os, image, j, size);
    case OpenEvent(name) => OpenFrame(os, image, name);
    case WriteEvent(j, buf, size) => WriteFrame(os, j, buf, size);
    case _ =>
  }

  lemma StartKeepsLive(os: OS, args: seq<byte>, ctx: Ctx, p: int)
    requires OsOk(os) && NulFree(args) && Live(os.stacks, p)
    ensures Live(Start(os, args, ctx).stacks, p)
  {
    var t, free := os.mux.ta, FirstFree(os.stacks, 0);
    if free.Some? && p in os.stacks[t] {
      assert p in os.stacks[t] + [free.value];
    }
  }

  /** No event but p's own reads through k moves the descriptor. */
  lemma OtherStep(os: OS, image: seq<byte>, e: Event, p: int, k: int)
    requires OsOk(os) && FS.ImageOk(image) && EventOk(e) && 0 <= p < MAX_PID && MIN_FD_INDEX <= k < NUM_MAX_FILES
    requires Live(os.stacks, p) && os.procs[p].fds[k].flags != 0 && Keeps(os, e, p, k) && !IsRead(os, e, p, k)
    ensures Live(Step(os, image, e).stacks, p) && Step(os, image, e).procs[p].fds[k] == os.procs[p].fds[k]
  {
    StaysLive(os, image, e, p);
    if p == Cur(os) {
      OwnStep(os, image, e, k);
    } else {
      StepFrame(os, image, e);
    }
  }

  /** Where a read of the given size leaves the position. */
  function NextPos(image: seq<byte>, fd: Fd, size: int): int
    requires FS.ImageOk(image) && 0 <= fd.inode < FS.NumInodes(image)
  {
    Min(FS.FileLength(image, fd.inode), fd.pos + size)
  }

  lemma LengthFits(image: seq<byte>, n: nat)
    requires FS.ImageOk(image) && n < FS.NumInodes(image)
    ensures FS.FileLength(image, n) < TWO_32
  {
    assert FS.InodeOk(image, n);
  }

  lemma RegularStep(image: seq<byte>, fd: Fd, size: int)
    requires FS.ImageOk(image) && AtFile(image, fd) && FdOk(fd) && size >= 0
    ensures var pos := NextPos(image, fd, size);
      RegularRead(image, fd, size) == Got(pos - fd.pos, FS.Contents(image, fd.inode)[fd.pos..pos])
  {
    var length := FS.FileLength(image, fd.inode);
    assert fd.pos + Min(size, length - fd.pos) == NextPos(image, fd, size);
  }

  /** A read of a regular file goes to its driver and only moves the position. */
  lemma ViaDriver(os: OS, image: seq<byte>, k: int, size: int)
    requires OsOk(os) && FS.ImageOk(image) && MIN_FD_INDEX <= k < NUM_MAX_FILES
    requires os.procs[Cur(os)].fds[k].flags != 0 && os.procs[Cur(os)].fds[k].ops == RegularOps
    ensures var fd := os.procs[Cur(os)].fds[k];
      && ReadResult(os, image, k, size) == RegularRead(image, fd, size)
      && Read(os, image, k, size) == Advance(os, k, fd, RegularRead(image, fd, size))
  {
    var fd := os.procs[Cur(os)].fds[k];
    assert DriverStep(os, image, fd, size) == os && DriverRead(os, image, fd, size) == RegularRead(image, fd, size);
  }

  lemma AdvanceFd(os: OS, k: int, fd: Fd, result: ReadOutcome, pos: int)
    requires OsOk(os) && 0 <= k < NUM_MAX_FILES && FdOk(fd) && result.Got?
    requires (fd.pos + result.count) % TWO_32 == pos
    ensures Advance(os, k, fd, result).procs[Cur(os)].fds[k] == fd.(pos := pos)
  {
  }

  lemma CountStep(image: seq<byte>, fd: Fd, size: int)
    requires FS.ImageOk(image) && AtFile(image, fd) && FdOk(fd) && size >= 0
    ensures fd.pos + RegularRead(image, fd, size).count == NextPos(image, fd, size)
  {
  }

  lemma PosFits(image: seq<byte>, fd: Fd, size: int)
    requires FS.ImageOk(image) && AtFile(image, fd) && size >= 0
    ensures 0 <= NextPos(image, fd, size) < TWO_32
  {
    LengthFits(image, fd.inode);
  }

  lemma SmallMod(x: int)
    requires 0 <= x < TWO_32
    ensures x % TWO_32 == x
  {
  }

  /** One read of a held file: its driver's bytes, and the position behind them. */
  lemma ReadStep(os: OS, image: seq<byte>, k: int, size: int)
    requires OsOk(os) && FS.ImageOk(image) && MIN_FD_INDEX <= k < NUM_MAX_FILES && size >= 0
    requires AtFile(image, os.procs[Cur(os)].fds[k])
    ensures var fd := os.procs[Cur(os)].fds[k];
      && ReadResult(os, image, k, size) == RegularRead(image, fd, size)
      && Read(os, image, k, size).procs[Cur(os)].fds[k] == fd.(pos := NextPos(image, fd, size))
  {
    var fd := os.procs[Cur(os)].fds[k];
    ViaDriver(os, image, k, size);
    CountStep(image, fd, size);
    PosFits(image, fd, size);
    SmallMod(NextPos(image, fd, size));
    AdvanceFd(os, k, fd, RegularRead(image, fd, size), NextPos(image, fd, size));
  }

  // ----- whole runs

  /** From descriptor `was`, `asked` bytes have been asked for and `log` been read. */
  ghost predicate Progress(image: seq<byte>, was: Fd, fd: Fd, asked: int, log: seq<byte>)
    requires FS.ImageOk(image) && AtFile(image, was)
  {
    && asked >= 0 && fd == was.(pos := NextPos(image, was, asked))
    && log == FS.Contents(image, was.inode)[was.pos..fd.pos]
  }

  lemma Slices(file: seq<byte>, from: int, a: int, b: int)
    requires 0 <= from <= a <= b <= |file|
    ensures file[from..a] + file[a..b] == file[from..b]
  {
  }

  lemma ReadProgress(os: OS, image: seq<byte>, k: int, size: int, was: Fd, asked: int, log: seq<byte>)
    requires OsOk(os) && FS.ImageOk(image) && MIN_FD_INDEX <= k < NUM_MAX_FILES && size >= 0
    requires AtFile(image, was) && Progress(image, was, os.procs[Cur(os)].fds[k], asked, log)
    ensures ReadResult(os, image, k, size).Got?
    ensures Progress(image, was, Read(os, image, k, size).procs[Cur(os)].fds[k], asked + size,
                     log + ReadResult(os, image, k, size).bytes)
  {
    var fd := os.procs[Cur(os)].fds[k];
    ReadStep(os, image, k, size);
    RegularStep(image, fd, size);
    Slices(FS.Contents(image, was.inode), was.pos, fd.pos, NextPos(image, fd, size));
  }

  lemma EventProgress(os: OS, image: seq<byte>, e: Event, p: int, k: int, was: Fd, asked: int, log: seq<byte>)
    requires OsOk(os) && FS.ImageOk(image) && EventOk(e) && 0 <= p < MAX_PID && MIN_FD_INDEX <= k < NUM_MAX_FILES
    requires AtFile(image, was) && Live(os.stacks, p) && Progress(image, was, os.procs[p].fds[k], asked, log)
    requires Keeps(os, e, p, k)
    ensures Live(Step(os, image, e).stacks, p)
    ensures IsRead(os, e, p, k) ==> ReadResult(os, image, k, e.nbytes).Got?
    ensures Progress(image, was, Step(os, image, e).procs[p].fds[k],
                     asked + (if IsRead(os, e, p, k) then e.nbytes else 0),
                     if IsRead(os, e, p, k) then log + ReadResult(os, image, k, e.nbytes).bytes else log)
  {
    hide Read, ReadResult, Live, Processes.Open, Processes.Close, Processes.Execute, Halt, Tick, Write;
    StaysLive(os, image, e, p);
    if IsRead(os, e, p, k) {
      ReadProgress(os, image, k, e.nbytes, was, asked, log);
    } else {
      OtherStep(os, image, e, p, k);
    }
  }

  /** However all processes interleave, what p has read through k is the file from
      where it started, as long as the sizes it asked for, and no longer than the
      file; the descriptor stands behind it. */
  lemma {:induction false} ReadsAreTheFile(os: OS, image: seq<byte>, events: seq<Event>, p: int, k: int)
    requires OsOk(os) && FS.ImageOk(image) && EventsOk(events) && 0 <= p < MAX_PID && MIN_FD_INDEX <= k < NUM_MAX_FILES
    requires Live(os.stacks, p) && AtFile(image, os.procs[p].fds[k])
    ensures KeepsAll(os, image, events, p, k) ==>
      && Live(Run(os, image, events).stacks, p)
      && Progress(image, os.procs[p].fds[k], Run(os, image, events).procs[p].fds[k],
                  Asked(os, image, events, p, k), Log(os, image, events, p, k))
    decreases |events|
  {
    if events != [] && KeepsAll(os, image, events, p, k) {
      var most := events[..|events| - 1];
      ReadsAreTheFile(os, image, most, p, k);
      EventProgress(Run(os, image, most), image, events[|events| - 1], p, k, os.procs[p].fds[k],
                    Asked(os, image, most, p, k), Log(os, image, most, p, k));
    }
  }

  /** The position moves by exactly the bytes delivered, so that nothing is read twice
      or skipped, if and only if the size asked for is not negative: a read that fails
      with -1 moves the position too. */
  lemma PositionTracksIff(os: OS, image: seq<byte>, k: int, size: int)
    requires OsOk(os) && FS.ImageOk(image) && MIN_FD_INDEX <= k < NUM_MAX_FILES
    requires AtFile(image, os.procs[Cur(os)].fds[k])
    ensures ReadResult(os, image, k, size).Got?
    ensures var fd, fd' := os.procs[Cur(os)].fds[k], Read(os, image, k, size).procs[Cur(os)].fds[k];
      fd'.pos == fd.pos + |ReadResult(os, image, k, size).bytes| <==> size >= 0
  {
    var fd := os.procs[Cur(os)].fds[k];
    if size >= 0 {
      ReadStep(os, image, k, size);
      RegularStep(image, fd, size);
    } else {
      ViaDriver(os, image, k, size);
      AdvanceFd(os, k, fd, Got(-1, []), (fd.pos - 1) % TWO_32);
    }
  }
}
