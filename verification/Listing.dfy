/** Listing the directory through its cursor, and reading a file from front to back as
    cat does. */
module Listing {
  import opened Bytes
  import opened Processes
  import opened KernelRuns
  import FS = FileSystem
  import Consoles
  import LineEdit
  import Screen

  // ----- names

  function Names(image: seq<byte>): (names: seq<seq<byte>>)
    requires FS.ImageOk(image)
    ensures |names| == FS.NumDirEntries(image)
  {
    seq(FS.NumDirEntries(image), i requires 0 <= i < FS.NumDirEntries(image) => FS.Name(image, i))
  }

  ghost predicate AllNamed(names: seq<seq<byte>>) { forall i :: 0 <= i < |names| ==> names[i] != [] }

  ghost predicate Unique(names: seq<seq<byte>>) {
    forall i, j :: 0 <= i < j < |names| ==> names[i] != names[j]
  }

  ghost predicate FindsItself(image: seq<byte>, i: nat)
    requires FS.ImageOk(image) && i < FS.NumDirEntries(image)
  {
    FS.Lookup(image, FS.Name(image, i)) == Some(i)
  }

  /** Looking up a listed name finds the entry it was listed for, for every entry, if
      and only if the names are not empty and all different. */
  lemma NamesFindThemselvesIff(image: seq<byte>)
    requires FS.ImageOk(image)
    ensures (forall i :: 0 <= i < FS.NumDirEntries(image) ==> FindsItself(image, i))
            <==> AllNamed(Names(image)) && Unique(Names(image))
  {
    var n, names := FS.NumDirEntries(image), Names(image);
    if AllNamed(names) && Unique(names) {
      forall i | 0 <= i < n ensures FindsItself(image, i) {
        assert names[i] != [];
        var found := FS.LookupFrom(image, names[i], 0);
        assert found.Some? ==> names[found.value] == names[i];
      }
    }
    if forall i :: 0 <= i < n ==> FindsItself(image, i) {
      forall i | 0 <= i < n ensures names[i] != [] {
        assert FindsItself(image, i);
      }
      forall i, j | 0 <= i < j < n ensures names[i] != names[j] {
        assert FindsItself(image, i) && FindsItself(image, j);
      }
    }
  }

  // ----- the cursor

  /** The names before the first empty one. */
  function Listed(names: seq<seq<byte>>): (r: seq<seq<byte>>) {
    if names == [] || names[0] == [] then [] else [names[0]] + Listed(names[1..])
  }

  lemma {:induction false} ListedAllIff(names: seq<seq<byte>>)
    ensures Listed(names) == names <==> AllNamed(names)
  {
    if names != [] {
      ListedAllIff(names[1..]);
      assert names == [names[0]] + names[1..];
      assert AllNamed(names) <==> names[0] != [] && AllNamed(names[1..]) by {
        assert forall i :: 0 < i < |names| ==> names[i] == names[1..][i - 1];
      }
    }
  }

  lemma ListedStep(names: seq<seq<byte>>, i: nat, listed: seq<seq<byte>>)
    requires i < |names| && listed + Listed(names[i..]) == Listed(names)
    ensures names[i] == [] ==> listed == Listed(names)
    ensures names[i] != [] ==> listed + [names[i]] + Listed(names[i + 1..]) == Listed(names)
  {
    assert names[i..][0] == names[i] && names[i..][1..] == names[i + 1..];
  }

  /** Reads names from a fresh cursor until a read returns 0, as ls does. */
  method List(image: seq<byte>) returns (listed: seq<seq<byte>>)
    requires FS.ImageOk(image)
    ensures listed == Listed(Names(image))
  {
    var buf := new byte[33];
    var index: nat, cnt: nat := 0, 1;
    listed := [];
    ghost var names := Names(image);
    assert names[0..] == names;
    while cnt != 0
      invariant index <= |names|
      invariant cnt != 0 ==> listed + Listed(names[index..]) == Listed(names)
      invariant cnt == 0 ==> listed == Listed(names)
      decreases |names| - index, cnt
    {
      if index < |names| {
        ListedStep(names, index, listed);
      }
      ghost var i := index;
      cnt, index := FS.DirRead(image, index, buf);
      assert i < |names| ==> buf[..cnt] == names[i];
      if cnt != 0 {
        listed := listed + [buf[..cnt]];
      }
    }
  }

  // ----- the one cursor of the system

  /** Does this event read a name through a directory descriptor? */
  predicate ReadsDir(os: OS, e: Event)
    requires OsOk(os)
  {
    e.ReadEvent? && 0 <= e.fd < NUM_MAX_FILES && os.procs[Cur(os)].fds[e.fd].flags != 0 &&
    os.procs[Cur(os)].fds[e.fd].ops == DirOps
  }

  /** Does it close one, directly or because its process halts? */
  predicate ClosesDir(os: OS, e: Event)
    requires OsOk(os)
  {
    var fds := os.procs[Cur(os)].fds;
    (e.CloseEvent? && IsOpenAs(fds, e.fd, DirOps)) || (e.HaltEvent? && !IsBaseShell(os) && HasOpen(fds, DirOps))
  }

  /** The name that an event delivers, if any. */
  function Delivered(os: OS, image: seq<byte>, e: Event): seq<seq<byte>>
    requires OsOk(os) && FS.ImageOk(image)
  {
    if ReadsDir(os, e) && ReadResult(os, image, e.fd, e.nbytes).Got?
       && ReadResult(os, image, e.fd, e.nbytes).bytes != []
    then [ReadResult(os, image, e.fd, e.nbytes).bytes] else []
  }

  function DirLog(os: OS, image: seq<byte>, events: seq<Event>): seq<seq<byte>>
    requires OsOk(os) && FS.ImageOk(image) && EventsOk(events)
    decreases |events|
  {
    if events == [] then []
    else
      var most := events[..|events| - 1];
      DirLog(os, image, most) + Delivered(Run(os, image, most), image, events[|events| - 1])
  }

  /** No event of the run closes a directory. */
  ghost predicate NoneCloses(os: OS, image: seq<byte>, events: seq<Event>)
    requires OsOk(os) && FS.ImageOk(image) && EventsOk(events)
    decreases |events|
  {
    events != [] ==>
      var most := events[..|events| - 1];
      NoneCloses(os, image, most) && !ClosesDir(Run(os, image, most), events[|events| - 1])
  }

  lemma ReadCursor(os: OS, image: seq<byte>, k: int, n: int)
    requires OsOk(os) && FS.ImageOk(image)
    ensures Read(os, image, k, n).dirIndex
            == if ReadsDir(os, ReadEvent(k, n)) && os.dirIndex < FS.NumDirEntries(image)
               then os.dirIndex + 1 else os.dirIndex
  {
    if 0 <= k < NUM_MAX_FILES && os.procs[Cur(os)].fds[k].flags != 0 {
      var fd := os.procs[Cur(os)].fds[k];
      assert ReadThrough(os, image, k, fd, n).dirIndex == DriverStep(os, image, fd, n).dirIndex;
    }
  }

  lemma StartCursor(os: OS, args: seq<byte>, ctx: Ctx)
    requires OsOk(os) && NulFree(args)
    ensures Start(os, args, ctx).dirIndex == os.dirIndex
  {
  }

  lemma OpenCursor(os: OS, image: seq<byte>, name: seq<byte>)
    requires OsOk(os) && FS.ImageOk(image)
    ensures Open(os, image, name).dirIndex == os.dirIndex
  {
  }

  lemma CloseCursor(os: OS, k: int)
    requires OsOk(os)
    ensures Close(os, k).dirIndex == if ClosesDir(os, CloseEvent(k)) then 0 else os.dirIndex
  {
  }

  lemma WriteCursor(os: OS, k: int, buf: seq<byte>, n: int)
    requires OsOk(os)
    ensures Write(os, k, buf, n).dirIndex == os.dirIndex
  {
  }

  lemma HaltCursor(os: OS, ctx: Ctx)
    requires OsOk(os)
    ensures Halt(os, ctx).dirIndex == if ClosesDir(os, HaltEvent(ctx)) then 0 else os.dirIndex
  {
  }

  /** Only a directory read moves the cursor, and only a close sends it back: opening a
      directory does not. */
  lemma CursorStep(os: OS, image: seq<byte>, e: Event)
    requires OsOk(os) && FS.ImageOk(image) && EventOk(e)
    ensures Step(os, image, e).dirIndex
            == if ClosesDir(os, e) then 0
               else if ReadsDir(os, e) && os.dirIndex < FS.NumDirEntries(image) then os.dirIndex + 1 else os.dirIndex
  {
    match e
    case ReadEvent(k, n) => ReadCursor(os, image, k, n);
    case ExecuteEvent(command, ctx) => StartCursor(os, Parse(command).args, ctx);
    case OpenEvent(name) => OpenCursor(os, image, name);
    case CloseEvent(k) => CloseCursor(os, k);
    case HaltEvent(ctx) => HaltCursor(os, ctx);
    case WriteEvent(k, buf, n) => WriteCursor(os, k, buf, n);
    case _ =>
  }

  lemma DeliveredName(os: OS, image: seq<byte>, e: Event)
    requires OsOk(os) && FS.ImageOk(image) && AllNamed(Names(image))
    ensures Delivered(os, image, e)
            == if ReadsDir(os, e) && os.dirIndex < FS.NumDirEntries(image) then [Names(image)[os.dirIndex]] else []
  {
    if ReadsDir(os, e) {
      assert ReadResult(os, image, e.fd, e.nbytes) == DirRead(image, os.dirIndex);
      assert os.dirIndex < FS.NumDirEntries(image) ==> Names(image)[os.dirIndex] != [];
    }
  }

  /** The names given so far are the entries from `from` to the cursor. */
  ghost predicate GivenTo(names: seq<seq<byte>>, from: int, log: seq<seq<byte>>, index: int) {
    0 <= from <= index <= |names| && log == names[from..index]
  }

  lemma GivenStep(os: OS, image: seq<byte>, e: Event, from: int, log: seq<seq<byte>>)
    requires OsOk(os) && FS.ImageOk(image) && EventOk(e) && !ClosesDir(os, e) && AllNamed(Names(image))
    requires GivenTo(Names(image), from, log, os.dirIndex)
    ensures GivenTo(Names(image), from, log + Delivered(os, image, e), Step(os, image, e).dirIndex)
  {
    CursorStep(os, image, e);
    DeliveredName(os, image, e);
    GivenMore(Names(image), from, log, os.dirIndex, ReadsDir(os, e), Delivered(os, image, e),
              Step(os, image, e).dirIndex);
  }

  lemma GivenMore(names: seq<seq<byte>>, from: int, log: seq<seq<byte>>, i: int, read: bool, more: seq<seq<byte>>,
                  i': int)
    requires GivenTo(names, from, log, i)
    requires more == if read && i < |names| then [names[i]] else []
    requires i' == if read && i < |names| then i + 1 else i
    ensures GivenTo(names, from, log + more, i')
  {
    if i < |names| {
      assert names[from..i + 1] == names[from..i] + [names[i]];
    }
  }

  /** However the processes interleave, and however many of them have the directory
      open, while none closes it the names they are given are together the entries
      from where the cursor stood, in order and once each; at the end of the directory
      every further read gives nothing. */
  lemma {:induction false} OneCursorForAll(os: OS, image: seq<byte>, events: seq<Event>)
    requires OsOk(os) && FS.ImageOk(image) && EventsOk(events)
    requires AllNamed(Names(image)) && os.dirIndex <= FS.NumDirEntries(image)
    ensures NoneCloses(os, image, events) ==>
      GivenTo(Names(image), os.dirIndex, DirLog(os, image, events), Run(os, image, events).dirIndex)
    decreases |events|
  {
    if events != [] && NoneCloses(os, image, events) {
      var most := events[..|events| - 1];
      OneCursorForAll(os, image, most);
      GivenStep(Run(os, image, most), image, events[|events| - 1], os.dirIndex, DirLog(os, image, most));
    }
  }

  // ----- what one process gets

  /** The names delivered to process p. */
  function NamesGiven(os: OS, image: seq<byte>, events: seq<Event>, p: int): seq<seq<byte>>
    requires OsOk(os) && FS.ImageOk(image) && EventsOk(events)
    decreases |events|
  {
    if events == [] then []
    else
      var most := events[..|events| - 1];
      var mid := Run(os, image, most);
      NamesGiven(os, image, most, p) + if Cur(mid) == p then Delivered(mid, image, events[|events| - 1]) else []
  }

  /** Every name of the run is delivered to p. */
  ghost predicate OnlyReader(os: OS, image: seq<byte>, events: seq<Event>, p: int)
    requires OsOk(os) && FS.ImageOk(image) && EventsOk(events)
    decreases |events|
  {
    events != [] ==>
      var most := events[..|events| - 1];
      var mid := Run(os, image, most);
      OnlyReader(os, image, most, p) && (Delivered(mid, image, events[|events| - 1]) != [] ==> Cur(mid) == p)
  }

  lemma {:induction false} OwnShare(os: OS, image: seq<byte>, events: seq<Event>, p: int)
    requires OsOk(os) && FS.ImageOk(image) && EventsOk(events)
    ensures |NamesGiven(os, image, events, p)| <= |DirLog(os, image, events)|
    ensures OnlyReader(os, image, events, p)
            <==> |NamesGiven(os, image, events, p)| == |DirLog(os, image, events)|
    ensures OnlyReader(os, image, events, p) ==> NamesGiven(os, image, events, p) == DirLog(os, image, events)
    decreases |events|
  {
    if events != [] {
      var most := events[..|events| - 1];
      OwnShare(os, image, most, p);
      OwnStep(NamesGiven(os, image, most, p), DirLog(os, image, most),
              Delivered(Run(os, image, most), image, events[|events| - 1]), Cur(Run(os, image, most)) == p);
    }
  }

  lemma OwnStep(own: seq<seq<byte>>, log: seq<seq<byte>>, more: seq<seq<byte>>, mine: bool)
    requires |own| <= |log| && (|own| == |log| ==> own == log)
    ensures |own + if mine then more else []| <= |log + more|
    ensures |own + if mine then more else []| == |log + more| <==> |own| == |log| && (more != [] ==> mine)
    ensures |own| == |log| && (more != [] ==> mine) ==> (own + if mine then more else []) == log + more
  {
  }

  /** Over a run in which nobody closes the directory and the cursor reaches the end, a
      process has been given every entry, in order, if and only if the cursor stood at the
      front when the run began and nobody else was given a name. */
  lemma WholeDirectoryIff(os: OS, image: seq<byte>, events: seq<Event>, p: int)
    requires OsOk(os) && FS.ImageOk(image) && EventsOk(events)
    requires AllNamed(Names(image)) && os.dirIndex <= FS.NumDirEntries(image)
    ensures NoneCloses(os, image, events) && Run(os, image, events).dirIndex == FS.NumDirEntries(image) ==>
      (NamesGiven(os, image, events, p) == Names(image)
       <==> os.dirIndex == 0 && OnlyReader(os, image, events, p))
  {
    OneCursorForAll(os, image, events);
    OwnShare(os, image, events, p);
    if NoneCloses(os, image, events) && Run(os, image, events).dirIndex == FS.NumDirEntries(image) {
      var names, from := Names(image), os.dirIndex;
      assert DirLog(os, image, events) == names[from..|names|];
      assert from == 0 ==> names[from..|names|] == names;
    }
  }

  // ----- any run

  /** At each read that gives p a name, the cursor is the number of names p has been given. */
  ghost predicate InStep(os: OS, image: seq<byte>, events: seq<Event>, p: int)
    requires OsOk(os) && FS.ImageOk(image) && EventsOk(events)
    decreases |events|
  {
    events != [] ==>
      var most := events[..|events| - 1];
      var mid := Run(os, image, most);
      InStep(os, image, most, p) &&
      (Cur(mid) == p && Delivered(mid, image, events[|events| - 1]) != [] ==>
         mid.dirIndex == |NamesGiven(os, image, most, p)|)
  }

  /** Over any run, whoever reads, closes or halts: what a process has been given is the
      front of the directory, in order, if and only if at each of its reads the cursor
      was the number of names it had; it is the whole directory if and only if it has
      besides been given as many names as there are. */
  lemma {:induction false} ListsInOrderIff(os: OS, image: seq<byte>, events: seq<Event>, p: int)
    requires OsOk(os) && FS.ImageOk(image) && EventsOk(events)
    requires AllNamed(Names(image)) && Unique(Names(image))
    ensures NamesGiven(os, image, events, p) <= Names(image) <==> InStep(os, image, events, p)
    ensures NamesGiven(os, image, events, p) == Names(image)
            <==> InStep(os, image, events, p) && |NamesGiven(os, image, events, p)| == |Names(image)|
    decreases |events|
  {
    hide Delivered, Cur, FS.ImageOk;
    if events != [] {
      var most, e := events[..|events| - 1], events[|events| - 1];
      var mid := Run(os, image, most);
      ListsInOrderIff(os, image, most, p);
      DeliveredName(mid, image, e);
      PrefixMore(Names(image), NamesGiven(os, image, most, p), mid.dirIndex,
                 if Cur(mid) == p then Delivered(mid, image, e) else []);
    }
  }

  lemma PrefixMore(names: seq<seq<byte>>, given: seq<seq<byte>>, index: int, more: seq<seq<byte>>)
    requires Unique(names) && (more == [] || (0 <= index < |names| && more == [names[index]]))
    ensures given + more <= names <==> given <= names && (more != [] ==> index == |given|)
  {
    if given + more <= names && more != [] {
      assert (given + more)[|given|] == more[0] == names[|given|];
    }
  }

  /** From event i on until event j nobody reads a name. */
  ghost predicate NoneReads(os: OS, image: seq<byte>, all: seq<Event>, i: nat, j: nat)
    requires OsOk(os) && FS.ImageOk(image) && EventsOk(all) && i <= j <= |all|
    decreases j
  {
    i < j ==> NoneReads(os, image, all, i, j - 1) && !ReadsDir(Run(os, image, all[..j - 1]), all[j - 1])
  }

  lemma {:induction false} StaysRewound(os: OS, image: seq<byte>, all: seq<Event>, i: nat, j: nat)
    requires OsOk(os) && FS.ImageOk(image) && EventsOk(all) && i < j <= |all|
    requires ClosesDir(Run(os, image, all[..i]), all[i]) && NoneReads(os, image, all, i + 1, j)
    ensures Run(os, image, all[..j]).dirIndex == 0
    decreases j
  {
    hide Step, ClosesDir, ReadsDir, FS.ImageOk, StacksOk, ProcsOk;
    assert all[..j][..j - 1] == all[..j - 1];
    CursorStep(Run(os, image, all[..j - 1]), image, all[j - 1]);
    if i + 1 < j {
      StaysRewound(os, image, all, i, j - 1);
    }
  }

  /** When a process closes a directory, or halts with one open, the next name that
      anyone is given is the first one again; one who had been given a name before has a
      listing that is not the front of the directory. */
  lemma RewoundReaderRepeats(os: OS, image: seq<byte>, all: seq<Event>, i: nat, p: int)
    requires OsOk(os) && FS.ImageOk(image) && EventsOk(all) && i < |all| - 1
    requires AllNamed(Names(image)) && Unique(Names(image)) && Names(image) != []
    requires ClosesDir(Run(os, image, all[..i]), all[i]) && NoneReads(os, image, all, i + 1, |all| - 1)
    requires var last := Run(os, image, all[..|all| - 1]); Cur(last) == p && ReadsDir(last, all[|all| - 1])
    ensures NamesGiven(os, image, all, p) == NamesGiven(os, image, all[..|all| - 1], p) + [Names(image)[0]]
    ensures NamesGiven(os, image, all[..|all| - 1], p) != [] ==> !(NamesGiven(os, image, all, p) <= Names(image))
  {
    hide ClosesDir, ReadsDir, Delivered, Step, Cur;
    var last := Run(os, image, all[..|all| - 1]);
    StaysRewound(os, image, all, i, |all| - 1);
    DeliveredName(last, image, all[|all| - 1]);
    PrefixMore(Names(image), NamesGiven(os, image, all[..|all| - 1], p), 0, [Names(image)[0]]);
  }

  // ----- two readers

  ghost predicate HasDirectory(os: OS, p: int, k: int)
    requires OsOk(os) && 0 <= p < MAX_PID
  {
    MIN_FD_INDEX <= k < NUM_MAX_FILES && os.procs[p].fds[k].flags != 0 && os.procs[p].fds[k].ops == DirOps
  }

  /** The running process reads a name, the next terminal gets its turn, and the process
      there reads a name. */
  function TakeTurns(k: int, j: int, regs: Ctx): seq<Event> {
    [ReadEvent(k, 32), TickEvent(regs), ReadEvent(j, 32)]
  }

  /** The process that runs after the next tick. */
  function NextUp(os: OS): (p: int)
    requires OsOk(os)
    ensures 0 <= p < MAX_PID && p != Cur(os)
  {
    var t := (os.mux.ta + 1) % NUM_TERMS;
    assert os.stacks[t][|os.stacks[t]| - 1] != os.stacks[os.mux.ta][|os.stacks[os.mux.ta]| - 1];
    Top(os.stacks[t])
  }

  lemma DirReadStep(os: OS, image: seq<byte>, k: int)
    requires OsOk(os) && FS.ImageOk(image) && HasDirectory(os, Cur(os), k) && AllNamed(Names(image))
    requires os.dirIndex < FS.NumDirEntries(image)
    ensures var r := Read(os, image, k, 32);
      && r.dirIndex == os.dirIndex + 1 && r.stacks == os.stacks && r.mux.ta == os.mux.ta
      && (forall p :: 0 <= p < MAX_PID && p != Cur(os) ==> r.procs[p] == os.procs[p])
      && Delivered(os, image, ReadEvent(k, 32)) == [Names(image)[os.dirIndex]]
      && !ClosesDir(os, ReadEvent(k, 32))
  {
    ReadCursor(os, image, k, 32);
    ReadFrame(os, image, k, 32);
    ReadKeepsResume(os, image, k, 32);
    DeliveredName(os, image, ReadEvent(k, 32));
  }

  /** What the first i events have come to: the state, what p and q have been given, and
      whether nobody has closed the directory. */
  ghost predicate Reached(os: OS, image: seq<byte>, all: seq<Event>, i: nat, now: OS, p: int, q: int,
                          toP: seq<seq<byte>>, toQ: seq<seq<byte>>, calm: bool)
    requires OsOk(os) && FS.ImageOk(image) && EventsOk(all) && i <= |all|
  {
    && Run(os, image, all[..i]) == now && (calm <==> NoneCloses(os, image, all[..i]))
    && NamesGiven(os, image, all[..i], p) == toP && NamesGiven(os, image, all[..i], q) == toQ
  }

  lemma NothingReached(os: OS, image: seq<byte>, all: seq<Event>, p: int, q: int)
    requires OsOk(os) && FS.ImageOk(image) && EventsOk(all)
    ensures Reached(os, image, all, 0, os, p, q, [], [], true)
  {
  }

  lemma ReachedMore(os: OS, image: seq<byte>, all: seq<Event>, i: nat, now: OS, next: OS, p: int, q: int,
                    toP: seq<seq<byte>>, toQ: seq<seq<byte>>, calm: bool, more: seq<seq<byte>>)
    requires OsOk(os) && FS.ImageOk(image) && EventsOk(all) && i < |all| && OsOk(now)
    requires Reached(os, image, all, i, now, p, q, toP, toQ, calm)
    requires next == Step(now, image, all[i]) && more == Delivered(now, image, all[i])
    ensures Reached(os, image, all, i + 1, next, p, q, if Cur(now) == p && more != [] then toP + more else toP,
                    if Cur(now) == q && more != [] then toQ + more else toQ, calm && !ClosesDir(now, all[i]))
  {
    hide Step, Delivered, ClosesDir, Cur;
    assert all[..i + 1][..i] == all[..i];
  }

  lemma TickDelivers(os: OS, image: seq<byte>, regs: Ctx)
    requires OsOk(os) && FS.ImageOk(image)
    ensures Delivered(os, image, TickEvent(regs)) == [] && !ClosesDir(os, TickEvent(regs))
    ensures var r := Tick(os, regs);
      && r.dirIndex == os.dirIndex && r.stacks == os.stacks && r.mux.ta == (os.mux.ta + 1) % NUM_TERMS
      && forall p :: 0 <= p < MAX_PID ==> r.procs[p].fds == os.procs[p].fds
  {
  }

  /** The two reads and the tick between them. */
  lemma TurnSteps(os: OS, image: seq<byte>, k: int, j: int, regs: Ctx) returns (s1: OS, s2: OS, s3: OS)
    requires OsOk(os) && FS.ImageOk(image) && HasDirectory(os, Cur(os), k) && HasDirectory(os, NextUp(os), j)
    requires AllNamed(Names(image)) && FS.NumDirEntries(image) == 2 && os.dirIndex == 0
    ensures OsOk(s1) && OsOk(s2) && OsOk(s3)
    ensures s1 == Read(os, image, k, 32) && s2 == Tick(s1, regs) && s3 == Read(s2, image, j, 32) && s3.dirIndex == 2
    ensures !ClosesDir(os, ReadEvent(k, 32)) && !ClosesDir(s1, TickEvent(regs)) && !ClosesDir(s2, ReadEvent(j, 32))
    ensures Cur(s1) == Cur(os) && Cur(s2) == NextUp(os) && Delivered(s1, image, TickEvent(regs)) == []
    ensures Delivered(os, image, ReadEvent(k, 32)) == [Names(image)[0]]
    ensures Delivered(s2, image, ReadEvent(j, 32)) == [Names(image)[1]]
  {
    hide Read, Tick, Delivered, ClosesDir;
    DirReadStep(os, image, k);
    s1 := Read(os, image, k, 32);
    TickDelivers(s1, image, regs);
    s2 := Tick(s1, regs);
    DirReadStep(s2, image, j);
    s3 := Read(s2, image, j, 32);
  }

  /** Two processes that have a directory of two entries open each get one of them, and
      neither is given the whole directory although both read to its end. */
  lemma TwoReadersShare(os: OS, image: seq<byte>, k: int, j: int, regs: Ctx)
    requires OsOk(os) && FS.ImageOk(image) && HasDirectory(os, Cur(os), k) && HasDirectory(os, NextUp(os), j)
    requires AllNamed(Names(image)) && FS.NumDirEntries(image) == 2 && os.dirIndex == 0
    ensures var es, names := TakeTurns(k, j, regs), Names(image);
      && NoneCloses(os, image, es) && Run(os, image, es).dirIndex == 2
      && NamesGiven(os, image, es, Cur(os)) == [names[0]] != names
      && NamesGiven(os, image, es, NextUp(os)) == [names[1]] != names
  {
    hide Read, Tick, Delivered, ClosesDir, Run, NamesGiven, NoneCloses, HasDirectory, Cur, NextUp;
    var es, p, q, a, b := TakeTurns(k, j, regs), Cur(os), NextUp(os), Names(image)[0], Names(image)[1];
    var s1, s2, s3 := TurnSteps(os, image, k, j, regs);
    NothingReached(os, image, es, p, q);
    ReachedMore(os, image, es, 0, os, s1, p, q, [], [], true, [a]);
    ReachedMore(os, image, es, 1, s1, s2, p, q, [a], [], true, []);
    ReachedMore(os, image, es, 2, s2, s3, p, q, [a], [], true, [b]);
    assert es[..3] == es;
  }

  // ----- two runs from the start

  const DOT: seq<byte> := ['.' as int]

  /** A disk that the kernel can start from: the entries "." (a directory) and "shell"
      (a regular file, inode 0), and the shell's one block with the ELF magic. */
  function StartDisk(): (image: seq<byte>)
    ensures |image| == 3 * FS.BLOCK_SIZE
  {
    seq(3 * FS.BLOCK_SIZE, i =>
      if i == 0 then 2 else if i == 4 then 1 else if i == 8 then 1
      else if i == 64 then '.' as int else if i == 96 then 1
      else if 128 <= i < 133 then SHELL[i - 128] else if i == 160 then 2
      else if i == FS.BLOCK_SIZE then 4
      else if 2 * FS.BLOCK_SIZE <= i < 2 * FS.BLOCK_SIZE + 4 then ELF[i - 2 * FS.BLOCK_SIZE] else 0)
  }

  lemma SmallWord(image: seq<byte>, at: nat)
    requires at + 4 <= |image| && image[at + 1] == image[at + 2] == image[at + 3] == 0
    ensures FS.U32(image, at) == image[at]
  {
    assert FS.LittleEndian(image, at + 4, 0) == 0;
    assert FS.LittleEndian(image, at + 3, 1) == 0;
    assert FS.LittleEndian(image, at + 2, 2) == 0;
    assert FS.LittleEndian(image, at + 1, 3) == 0;
  }

  lemma StartDiskOk()
    ensures FS.ImageOk(StartDisk()) && FS.NumDirEntries(StartDisk()) == 2
    ensures FS.NumInodes(StartDisk()) == 1 && FS.FileLength(StartDisk(), 0) == 4
  {
    hide FS.LittleEndian, FS.U32;
    var image := StartDisk();
    SmallWord(image, 0);
    SmallWord(image, 4);
    SmallWord(image, 8);
    SmallWord(image, FS.BLOCK_SIZE);
    SmallWord(image, FS.BLOCK_SIZE + 4);
    assert FS.InodeAt(0) == FS.BLOCK_SIZE;
    assert FS.BlocksOf(4) == 1;
  }

  lemma NameIs(image: seq<byte>, i: nat, name: seq<byte>)
    requires FS.ImageOk(image) && i < FS.NumDirEntries(image) && |name| < FS.MAX_STR_LENGTH && NulFree(name)
    requires image[FS.EntryAt(i)..FS.EntryAt(i) + |name|] == name && image[FS.EntryAt(i) + |name|] == NUL
    ensures FS.Name(image, i) == name
  {
    var field := FS.NameField(image, i);
    assert field[..|name|] == name;
    assert field[|name|] == NUL;
    assert FirstIndex(field, NUL) == |name| by {
      assert forall k :: 0 <= k < |name| ==> field[k] == field[..|name|][k];
    }
  }

  lemma StartDiskNames()
    ensures FS.ImageOk(StartDisk()) && Names(StartDisk()) == [DOT, SHELL]
    ensures AllNamed(Names(StartDisk())) && Unique(Names(StartDisk()))
    ensures FS.Lookup(StartDisk(), DOT) == Some(0) && FS.Lookup(StartDisk(), SHELL) == Some(1)
  {
    hide FS.ImageOk, FS.LittleEndian, FS.U32, FS.Lookup, FS.Name;
    var image := StartDisk();
    StartDiskOk();
    assert image[64..65] == DOT && image[128..133] == SHELL;
    NameIs(image, 0, DOT);
    NameIs(image, 1, SHELL);
    assert Names(image) == [DOT, SHELL] && DOT[0] != SHELL[0];
    NamesFindThemselvesIff(image);
    assert FindsItself(image, 0) && FindsItself(image, 1);
  }

  lemma StartDiskEntries()
    ensures FS.ImageOk(StartDisk()) && FS.NumDirEntries(StartDisk()) == 2
    ensures FS.Entry(StartDisk(), 0).fileType == 1 && FS.Entry(StartDisk(), 0).inode == 0
    ensures FS.Entry(StartDisk(), 1).fileType == 2 && FS.Entry(StartDisk(), 1).inode == 0
  {
    hide FS.ImageOk, FS.LittleEndian, FS.U32;
    var image := StartDisk();
    StartDiskOk();
    SmallWord(image, FS.EntryAt(0) + 32);
    SmallWord(image, FS.EntryAt(0) + 36);
    SmallWord(image, FS.EntryAt(1) + 32);
    SmallWord(image, FS.EntryAt(1) + 36);
  }

  lemma ShellBlock(k: nat)
    requires k < 4
    ensures FS.ImageOk(StartDisk()) && FS.NumInodes(StartDisk()) == 1 && FS.FileLength(StartDisk(), 0) == 4
    ensures FS.DataAt(StartDisk(), 0, k) == 2 * FS.BLOCK_SIZE
  {
    hide FS.ImageOk, FS.FileLength, FS.NumInodes, FS.NumDirEntries, FS.U32;
    StartDiskOk();
    SmallWord(StartDisk(), FS.BLOCK_SIZE + 4);
    assert k / FS.BLOCK_SIZE == 0;
  }

  lemma ShellByte(k: nat)
    requires k < 4
    ensures FS.ImageOk(StartDisk()) && FS.NumInodes(StartDisk()) == 1 && FS.FileLength(StartDisk(), 0) == 4
    ensures FS.Contents(StartDisk(), 0)[k] == ELF[k]
  {
    hide FS.ImageOk, FS.FileBlocks, FS.Contents, FS.FileLength, FS.NumInodes, FS.NumDirEntries, FS.DataAt;
    StartDiskOk();
    FS.ContentsAt(StartDisk(), 0, k);
    ShellBlock(k);
  }

  /** So the kernel starts on it. */
  lemma StartDiskHasShell()
    ensures FS.ImageOk(StartDisk()) && Executable(StartDisk(), SHELL)
  {
    hide FS.ImageOk, FS.Lookup, FS.FileLength, FS.NumInodes, FS.NumDirEntries, FS.NumDataBlocks;
    hide FS.Contents, FS.Name, FS.NameField, StartDisk;
    StartDiskNames();
    StartDiskEntries();
    StartDiskOk();
    var image := StartDisk();
    forall k | 0 <= k < 4 ensures FS.Contents(image, 0)[k] == ELF[k] {
      ShellByte(k);
    }
    assert FS.Contents(image, 0)[..4] == ELF;
  }

  /** The three base shells as the kernel starts them, all pages clear. */
  function Boot(): OS {
    var con := Consoles.Con(Screen.Screen(Zeros(Screen.PAGE_SIZE), 0, 0), LineEdit.Empty());
    OS([[0], [1], [2]], seq(MAX_PID, p => Fresh(p, [], Ctx(0, 0))), Consoles.Mux([con, con, con], 0, 0),
       seq(MAX_PID, _ => MAX_VIR_FREQ), 0)
  }

  ghost predicate IsDirectory(image: seq<byte>, name: seq<byte>)
    requires FS.ImageOk(image)
  {
    var i := FS.Lookup(image, name);
    i.Some? && FS.Entry(image, i.value).fileType == 1 && FS.Entry(image, i.value).inode < TWO_32
  }

  /** Three base shells, terminal t's running; those marked have a directory as descriptor
      2, the others have that descriptor unused. */
  ghost predicate Shells(os: OS, t: int, dirs: seq<bool>, index: int): (ok: bool)
    ensures ok ==> OsOk(os) && |dirs| == NUM_TERMS
  {
    && OsOk(os) && os.stacks == [[0], [1], [2]] && os.mux.ta == t && os.dirIndex == index && |dirs| == NUM_TERMS
    && forall p :: 0 <= p < NUM_TERMS ==> if dirs[p] then HasDirectory(os, p, 2) else os.procs[p].fds[2].flags == 0
  }

  lemma BootShells()
    ensures Shells(Boot(), 0, [false, false, false], 0)
  {
  }

  lemma ShellOpens(os: OS, image: seq<byte>, t: int, dirs: seq<bool>, index: int) returns (r: OS)
    requires Shells(os, t, dirs, index) && !dirs[t] && FS.ImageOk(image)
    requires IsDirectory(image, DOT)
    ensures OsOk(r) && r == Step(os, image, OpenEvent(DOT)) && Shells(r, t, dirs[t := true], index)
    ensures Cur(os) == t && Delivered(os, image, OpenEvent(DOT)) == [] && !ClosesDir(os, OpenEvent(DOT))
  {
    hide FS.ImageOk, FS.Lookup, FS.Entry, FS.NumDirEntries;
    r := Open(os, image, DOT);
  }

  lemma ShellReads(os: OS, image: seq<byte>, t: int, dirs: seq<bool>, index: int) returns (r: OS)
    requires Shells(os, t, dirs, index) && dirs[t] && FS.ImageOk(image)
    requires AllNamed(Names(image)) && index < FS.NumDirEntries(image)
    ensures OsOk(r) && r == Step(os, image, ReadEvent(2, 32)) && Shells(r, t, dirs, index + 1)
    ensures Cur(os) == t && Delivered(os, image, ReadEvent(2, 32)) == [Names(image)[index]]
    ensures !ClosesDir(os, ReadEvent(2, 32))
  {
    hide FS.ImageOk, Names, FS.NumDirEntries, Delivered, ClosesDir, Read;
    r := Read(os, image, 2, 32);
    DirReadStep(os, image, 2);
    ReadsKeepDirectory(os, image, 2, 32);
  }

  lemma ReadsKeepDirectory(os: OS, image: seq<byte>, k: int, n: int)
    requires OsOk(os) && FS.ImageOk(image) && HasDirectory(os, Cur(os), k)
    ensures HasDirectory(Read(os, image, k, n), Cur(os), k)
  {
    var fd := os.procs[Cur(os)].fds[k];
    assert DriverStep(os, image, fd, n).procs == os.procs;
  }

  lemma ShellCloses(os: OS, image: seq<byte>, t: int, dirs: seq<bool>, index: int) returns (r: OS)
    requires Shells(os, t, dirs, index) && dirs[t] && FS.ImageOk(image)
    ensures OsOk(r) && r == Step(os, image, CloseEvent(2)) && Shells(r, t, dirs[t := false], 0)
    ensures Cur(os) == t && Delivered(os, image, CloseEvent(2)) == [] && ClosesDir(os, CloseEvent(2))
  {
    hide FS.ImageOk;
    r := Close(os, 2);
  }

  lemma ShellTicks(os: OS, image: seq<byte>, t: int, dirs: seq<bool>, index: int, regs: Ctx) returns (r: OS)
    requires Shells(os, t, dirs, index) && FS.ImageOk(image)
    ensures OsOk(r) && r == Step(os, image, TickEvent(regs)) && Shells(r, (t + 1) % NUM_TERMS, dirs, index)
    ensures Cur(os) == t && Delivered(os, image, TickEvent(regs)) == [] && !ClosesDir(os, TickEvent(regs))
  {
    hide FS.ImageOk, Delivered, ClosesDir, Tick;
    TickDelivers(os, image, regs);
    r := Tick(os, regs);
  }

  /** The shells of terminals 0 and 1 open the directory, and then read in turn. */
  function BothList(regs: Ctx): (es: seq<Event>)
    ensures |es| == 8 && EventsOk(es)
  {
    [OpenEvent(DOT), TickEvent(regs), OpenEvent(DOT), TickEvent(regs), TickEvent(regs)] + TakeTurns(2, 2, regs)
  }

  lemma OpenBoth(os: OS, image: seq<byte>, es: seq<Event>, regs: Ctx) returns (r: OS)
    requires FS.ImageOk(image) && IsDirectory(image, DOT) && Shells(os, 0, [false, false, false], 0)
    requires EventsOk(es) && |es| >= 5 && es[0] == es[2] == OpenEvent(DOT) && es[1] == es[3] == es[4] == TickEvent(regs)
    ensures Shells(r, 0, [true, true, false], 0) && Reached(os, image, es, 5, r, 0, 1, [], [], true)
  {
    hide FS.ImageOk, Step, Delivered, ClosesDir, Reached, Shells, Cur, IsDirectory;
    assert [false, false, false][0 := true] == [true, false, false];
    assert [true, false, false][1 := true] == [true, true, false];
    NothingReached(os, image, es, 0, 1);
    var s1 := ShellOpens(os, image, 0, [false, false, false], 0);
    ReachedMore(os, image, es, 0, os, s1, 0, 1, [], [], true, []);
    var s2 := ShellTicks(s1, image, 0, [true, false, false], 0, regs);
    ReachedMore(os, image, es, 1, s1, s2, 0, 1, [], [], true, []);
    var s3 := ShellOpens(s2, image, 1, [true, false, false], 0);
    ReachedMore(os, image, es, 2, s2, s3, 0, 1, [], [], true, []);
    var s4 := ShellTicks(s3, image, 1, [true, true, false], 0, regs);
    ReachedMore(os, image, es, 3, s3, s4, 0, 1, [], [], true, []);
    r := ShellTicks(s4, image, 2, [true, true, false], 0, regs);
    ReachedMore(os, image, es, 4, s4, r, 0, 1, [], [], true, []);
  }

  /** Three base shells on a disk with two entries, "." among them: the shells of terminals
      0 and 1 open the directory and then read in turn. */
  lemma BothReached(os: OS, image: seq<byte>, es: seq<Event>, regs: Ctx) returns (r: OS)
    requires FS.ImageOk(image) && IsDirectory(image, DOT) && Shells(os, 0, [false, false, false], 0)
    requires AllNamed(Names(image)) && FS.NumDirEntries(image) == 2
    requires EventsOk(es) && es == BothList(regs)
    ensures Shells(r, 1, [true, true, false], 2)
    ensures Reached(os, image, es, 8, r, 0, 1, [Names(image)[0]], [Names(image)[1]], true)
  {
    hide FS.ImageOk, Step, Delivered, ClosesDir, Reached, Shells, Cur, IsDirectory, FS.NumDirEntries;
    var a, b := Names(image)[0], Names(image)[1];
    assert [] + [a] == [a] && [] + [b] == [b];
    var s0 := OpenBoth(os, image, es, regs);
    var s1 := ShellReads(s0, image, 0, [true, true, false], 0);
    ReachedMore(os, image, es, 5, s0, s1, 0, 1, [], [], true, [a]);
    var s2 := ShellTicks(s1, image, 0, [true, true, false], 1, regs);
    ReachedMore(os, image, es, 6, s1, s2, 0, 1, [a], [], true, []);
    r := ShellReads(s2, image, 1, [true, true, false], 1);
    ReachedMore(os, image, es, 7, s2, r, 0, 1, [a], [], true, [b]);
  }

  /** A run that fails: from the start on a disk with "." and "shell", two shells list the
      directory, and each is given one of the two names. */
  lemma SharedCursorFails(regs: Ctx)
    ensures var image, es := StartDisk(), BothList(regs);
      && FS.ImageOk(image) && Executable(image, SHELL) && OsOk(Boot()) && EventsOk(es) && Names(image) == [DOT, SHELL]
      && NoneCloses(Boot(), image, es) && Run(Boot(), image, es).dirIndex == 2
      && NamesGiven(Boot(), image, es, 0) == [DOT] && NamesGiven(Boot(), image, es, 1) == [SHELL]
  {
    hide StartDisk, FS.ImageOk, Run, NamesGiven, NoneCloses, Executable, Boot, Names, FS.Lookup, FS.Entry, BothList;
    StartDiskHasShell();
    StartDiskNames();
    StartDiskEntries();
    BootShells();
    var es := BothList(regs);
    var r := BothReached(Boot(), StartDisk(), es, regs);
    assert es[..8] == es;
  }

  /** The shell of terminal 0 lists while that of terminal 1 opens and closes the directory. */
  function ListAndClose(regs: Ctx): (es: seq<Event>)
    ensures |es| == 11 && EventsOk(es)
  {
    [OpenEvent(DOT), TickEvent(regs), OpenEvent(DOT), TickEvent(regs), TickEvent(regs), ReadEvent(2, 32),
     TickEvent(regs), CloseEvent(2), TickEvent(regs), TickEvent(regs), ReadEvent(2, 32)]
  }

  lemma ReadThenClose(os: OS, image: seq<byte>, es: seq<Event>, regs: Ctx) returns (r: OS)
    requires FS.ImageOk(image) && IsDirectory(image, DOT) && Shells(os, 0, [false, false, false], 0)
    requires AllNamed(Names(image)) && FS.NumDirEntries(image) == 2
    requires EventsOk(es) && |es| >= 8 && es[0] == es[2] == OpenEvent(DOT) && es[1] == es[3] == es[4] == TickEvent(regs)
    requires es[5] == ReadEvent(2, 32) && es[6] == TickEvent(regs) && es[7] == CloseEvent(2)
    ensures Shells(r, 1, [true, false, false], 0)
    ensures Reached(os, image, es, 8, r, 0, 1, [Names(image)[0]], [], false)
  {
    hide FS.ImageOk, Step, Delivered, ClosesDir, Reached, Shells, Cur, IsDirectory, FS.NumDirEntries;
    var a := Names(image)[0];
    assert [] + [a] == [a] && [true, true, false][1 := false] == [true, false, false];
    var s0 := OpenBoth(os, image, es, regs);
    var s1 := ShellReads(s0, image, 0, [true, true, false], 0);
    ReachedMore(os, image, es, 5, s0, s1, 0, 1, [], [], true, [a]);
    var s2 := ShellTicks(s1, image, 0, [true, true, false], 1, regs);
    ReachedMore(os, image, es, 6, s1, s2, 0, 1, [a], [], true, []);
    r := ShellCloses(s2, image, 1, [true, true, false], 1);
    ReachedMore(os, image, es, 7, s2, r, 0, 1, [a], [], true, []);
  }

  lemma CloseReached(os: OS, image: seq<byte>, es: seq<Event>, regs: Ctx) returns (r: OS)
    requires FS.ImageOk(image) && IsDirectory(image, DOT) && Shells(os, 0, [false, false, false], 0)
    requires AllNamed(Names(image)) && FS.NumDirEntries(image) == 2
    requires EventsOk(es) && es == ListAndClose(regs)
    ensures OsOk(r) && Reached(os, image, es, 11, r, 0, 1, [Names(image)[0], Names(image)[0]], [], false)
  {
    hide FS.ImageOk, Step, Delivered, ClosesDir, Reached, Shells, Cur, IsDirectory, FS.NumDirEntries;
    var a := Names(image)[0];
    assert [a] + [a] == [a, a];
    var s0 := ReadThenClose(os, image, es, regs);
    var s1 := ShellTicks(s0, image, 1, [true, false, false], 0, regs);
    ReachedMore(os, image, es, 8, s0, s1, 0, 1, [a], [], false, []);
    var s2 := ShellTicks(s1, image, 2, [true, false, false], 0, regs);
    ReachedMore(os, image, es, 9, s1, s2, 0, 1, [a], [], false, []);
    r := ShellReads(s2, image, 0, [true, false, false], 0);
    ReachedMore(os, image, es, 10, s2, r, 0, 1, [a], [], false, [a]);
  }

  /** The other way to fail: from the same start, a close by one shell makes the other read
      the first name twice. */
  lemma CloseRepeats(regs: Ctx)
    ensures var image, es := StartDisk(), ListAndClose(regs);
      && FS.ImageOk(image) && Executable(image, SHELL) && OsOk(Boot()) && EventsOk(es) && Names(image) == [DOT, SHELL]
      && NamesGiven(Boot(), image, es, 0) == [DOT, DOT]
  {
    hide StartDisk, FS.ImageOk, Run, NamesGiven, NoneCloses, Executable, Boot, Names, FS.Lookup, FS.Entry, ListAndClose;
    StartDiskHasShell();
    StartDiskNames();
    StartDiskEntries();
    BootShells();
    var es := ListAndClose(regs);
    var r := CloseReached(Boot(), StartDisk(), es, regs);
    assert es[..11] == es;
  }

  // ----- reading a whole file

  /** Reads 1024 bytes at a time until a read returns 0, as cat does. */
  method Cat(image: seq<byte>, inode: nat) returns (out: seq<byte>)
    requires FS.ImageOk(image) && inode < FS.NumInodes(image)
    ensures out == FS.Contents(image, inode)
  {
    var buf := new byte[1024];
    var pos: nat, cnt: int := 0, 1;
    out := [];
    ghost var file := FS.Contents(image, inode);
    while cnt != 0
      invariant pos <= |file| && out == file[..pos] && cnt >= 0 && (cnt == 0 ==> pos == |file|)
      decreases |file| - pos, cnt
    {
      cnt := FS.ReadData(image, inode, pos, buf, 1024);
      Behind(file, pos, cnt);
      out := out + buf[..cnt];
      pos := pos + cnt;
    }
  }

  lemma Behind(file: seq<byte>, pos: nat, cnt: nat)
    requires pos + cnt <= |file|
    ensures file[..pos] + file[pos..pos + cnt] == file[..pos + cnt]
  {
  }
}
