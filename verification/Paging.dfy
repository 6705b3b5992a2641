/** The page directory and the two page tables, how they are set up, and where the
    processor's two-level walk (Intel 64 and IA-32 SDM volume 3A, section 4.3,
    32-bit paging) takes a virtual address.

    The entry bits that are 0 in every entry (write-through, cache, accessed,
    dirty, PAT, available) are not represented. */
module Paging {
  import opened Bytes

  const NUM_ENTRIES := 1024
  const VID_MEM_INDEX := 0xB8
  const PROGRAM_IMG_IDX := 32
  const PAGE_4KB := 0x1000
  const PAGE_4MB := 0x400000
  const PROGRAM_VIR_ADDR := 0x8000000

  datatype Pde = Pde(p: bool, rw: bool, us: bool, ps: bool, g: bool, addr: int)
  datatype Pte = Pte(p: bool, rw: bool, us: bool, g: bool, addr: int)

  const ZERO_PDE := Pde(false, false, false, false, false, 0)
  const ZERO_PTE := Pte(false, false, false, false, 0)

  /** The contents of the three tables, and the page frames the two page tables
      themselves lie in. */
  datatype Tables = Tables(pd: seq<Pde>, pt: seq<Pte>, ptUser: seq<Pte>, ptFrame: int, ptUserFrame: int)

  ghost predicate TablesOk(t: Tables) {
    |t.pd| == NUM_ENTRIES && |t.pt| == NUM_ENTRIES && |t.ptUser| == NUM_ENTRIES && t.ptFrame != t.ptUserFrame
  }

  datatype Access = Access(phys: int, user: bool, write: bool)

  function WalkTable(pde: Pde, table: seq<Pte>, va: int): Option<Access>
    requires |table| == NUM_ENTRIES
  {
    var pte := table[va / PAGE_4KB % NUM_ENTRIES];
    if !pte.p then None
    else Some(Access(pte.addr * PAGE_4KB + va % PAGE_4KB, pde.us && pte.us, pde.rw && pte.rw))
  }

  /** The two-level walk; None is a page fault (or a page table in a frame that no
      table of the kernel occupies). */
  function Translate(t: Tables, va: int): Option<Access>
    requires TablesOk(t) && 0 <= va < 0x1_0000_0000
  {
    var pde := t.pd[va / PAGE_4MB];
    if !pde.p then None
    else if pde.ps then Some(Access(pde.addr / 1024 * PAGE_4MB + va % PAGE_4MB, pde.us, pde.rw))
    else if pde.addr == t.ptFrame then WalkTable(pde, t.pt, va)
    else if pde.addr == t.ptUserFrame then WalkTable(pde, t.ptUser, va)
    else None
  }

  // ----- the tables of a kernel that runs the image at `image` and lets the user
  // ----- see the video frame `video` (both page frame numbers)

  function PdeFor(i: int, image: int, ptFrame: int, ptUserFrame: int): Pde {
    if i == 0 then Pde(true, true, false, false, false, ptFrame)
    else if i == 1 then Pde(true, true, false, true, true, 1024)
    else if i == PROGRAM_IMG_IDX then Pde(true, true, true, true, false, image)
    else if i == PROGRAM_IMG_IDX + 1 then Pde(true, true, true, false, false, ptUserFrame)
    else Pde(false, true, false, true, false, i * 1024)
  }

  function PteFor(i: int): Pte {
    if i < VID_MEM_INDEX then Pte(false, true, false, false, i)
    else if i <= VID_MEM_INDEX + 3 then Pte(true, true, false, false, i)
    else ZERO_PTE
  }

  function UserPteFor(i: int, video: int): Pte {
    if i == VID_MEM_INDEX then Pte(true, true, true, false, video) else ZERO_PTE
  }

  function UserTable(video: int): (t: seq<Pte>)
    ensures |t| == NUM_ENTRIES
  {
    seq(NUM_ENTRIES, i => UserPteFor(i, video))
  }

  function Directory(image: int, ptFrame: int, ptUserFrame: int): (d: seq<Pde>)
    ensures |d| == NUM_ENTRIES
  {
    seq(NUM_ENTRIES, i => PdeFor(i, image, ptFrame, ptUserFrame))
  }

  function KernelTable(): (t: seq<Pte>)
    ensures |t| == NUM_ENTRIES
  {
    seq(NUM_ENTRIES, i => PteFor(i))
  }

  function ImageFrame(pid: int): int { (pid + 2) * 1024 }

  function TablesFor(pid: int, video: int, ptFrame: int, ptUserFrame: int): (t: Tables)
    requires ptFrame != ptUserFrame
    ensures TablesOk(t)
  {
    Tables(Directory(ImageFrame(pid), ptFrame, ptUserFrame), KernelTable(), UserTable(video), ptFrame, ptUserFrame)
  }

  class PageTables {
    const pd: array<Pde>
    const pt: array<Pte>
    const ptUser: array<Pte>
    const ptFrame: int
    const ptUserFrame: int

    ghost predicate Shape()
    {
      && pd.Length == NUM_ENTRIES && pt.Length == NUM_ENTRIES && ptUser.Length == NUM_ENTRIES
      && pt != ptUser && ptFrame != ptUserFrame
    }

    function View(): (t: Tables)
      requires Shape()
      reads pd, pt, ptUser
      ensures TablesOk(t)
    {
      Tables(pd[..], pt[..], ptUser[..], ptFrame, ptUserFrame)
    }

    /** The program page is mapped to the frames of process pid. */
    ghost predicate Maps(pid: int)
      requires Shape()
      reads pd, pt
    {
      pd[..] == Directory(ImageFrame(pid), ptFrame, ptUserFrame) && pt[..] == KernelTable()
    }

    /** paging_init, on tables that start out zero. */
    constructor (ptFrame: int, ptUserFrame: int)
      requires ptFrame != ptUserFrame
      ensures Shape() && fresh(pd) && fresh(pt) && fresh(ptUser)
      ensures pd[..] == Directory(PROGRAM_IMG_IDX * 1024, ptFrame, ptUserFrame) && pt[..] == KernelTable()
      ensures ptUser[..] == UserTable(VID_MEM_INDEX)
      ensures this.ptFrame == ptFrame && this.ptUserFrame == ptUserFrame
    {
      this.ptFrame, this.ptUserFrame := ptFrame, ptUserFrame;
      pd := new Pde[NUM_ENTRIES](_ => ZERO_PDE);
      pt := new Pte[NUM_ENTRIES](_ => ZERO_PTE);
      ptUser := new Pte[NUM_ENTRIES](_ => ZERO_PTE);
      new;
      InitDirectory();
      InitTables();
    }

    /** The directory part of paging_init. */
    method InitDirectory()
      requires Shape()
      modifies pd
      ensures forall k :: 0 <= k < NUM_ENTRIES ==> pd[k] == PdeFor(k, PROGRAM_IMG_IDX * 1024, ptFrame, ptUserFrame)
    {
      pd[0] := Pde(true, true, false, false, false, ptFrame);
      pd[1] := Pde(true, true, false, true, true, 1024);
      var i := 2;
      while i < NUM_ENTRIES
        invariant 2 <= i <= NUM_ENTRIES
        invariant forall k :: 0 <= k < 2 ==> pd[k] == PdeFor(k, 0, ptFrame, ptUserFrame)
        invariant forall k :: 2 <= k < i ==> pd[k] == Pde(false, true, false, true, false, k * 1024)
      {
        pd[i] := Pde(false, true, false, true, false, i * 1024);
        i := i + 1;
      }
      pd[PROGRAM_IMG_IDX] := pd[PROGRAM_IMG_IDX].(p := true, ps := true, us := true);
      pd[PROGRAM_IMG_IDX + 1] := Pde(true, true, true, false, false, ptUserFrame);
    }

    /** The part of paging_init that fills the two page tables; its loop stops at
        the video entry. */
    method InitTables()
      requires Shape()
      requires forall k :: 0 <= k < NUM_ENTRIES ==> pt[k] == ZERO_PTE && ptUser[k] == ZERO_PTE
      modifies pt, ptUser
      ensures forall k :: 0 <= k < NUM_ENTRIES ==> pt[k] == PteFor(k) && ptUser[k] == UserPteFor(k, VID_MEM_INDEX)
    {
      pt[VID_MEM_INDEX] := Pte(true, true, false, false, VID_MEM_INDEX);
      pt[VID_MEM_INDEX + 1] := Pte(true, true, false, false, VID_MEM_INDEX + 1);
      pt[VID_MEM_INDEX + 2] := Pte(true, true, false, false, VID_MEM_INDEX + 2);
      pt[VID_MEM_INDEX + 3] := Pte(true, true, false, false, VID_MEM_INDEX + 3);
      ptUser[VID_MEM_INDEX] := Pte(true, true, true, false, VID_MEM_INDEX);
      var i := 0;
      while i < NUM_ENTRIES && i != VID_MEM_INDEX
        invariant 0 <= i <= VID_MEM_INDEX
        invariant forall k :: 0 <= k < NUM_ENTRIES ==> k < i || VID_MEM_INDEX <= k ==> pt[k] == PteFor(k)
        invariant forall k :: 0 <= k < NUM_ENTRIES ==> ptUser[k] == UserPteFor(k, VID_MEM_INDEX)
        decreases VID_MEM_INDEX - i
      {
        pt[i] := Pte(false, true, false, false, i);
        i := i + 1;
      }
    }

    /** Maps the 4 MB program page to the frames of a process image. */
    method MapImage(pid: int)
      requires Shape() && pt[..] == KernelTable()
      requires exists image :: pd[..] == Directory(image, ptFrame, ptUserFrame)
      modifies pd
      ensures Maps(pid)
    {
      ghost var image :| pd[..] == Directory(image, ptFrame, ptUserFrame);
      pd[PROGRAM_IMG_IDX] := pd[PROGRAM_IMG_IDX].(p := true);
      pd[PROGRAM_IMG_IDX] := pd[PROGRAM_IMG_IDX].(addr := ImageFrame(pid));
    }
  }

  // ----- what user code can reach

  const USER_VIDEO := PROGRAM_VIR_ADDR + PAGE_4MB + VID_MEM_INDEX * PAGE_4KB

  predicate InImage(va: int) { PROGRAM_VIR_ADDR <= va < PROGRAM_VIR_ADDR + PAGE_4MB }

  predicate InUserVideo(va: int) { USER_VIDEO <= va < USER_VIDEO + PAGE_4KB }

  /** User code reaches exactly the program page and the video page: the first maps
      onto the process's own 4 MB, the second onto the given video frame. */
  lemma UserReach(t: Tables, pid: int, video: int, va: int)
    requires t.ptFrame != t.ptUserFrame && 0 <= va < 0x1_0000_0000
    requires t == TablesFor(pid, video, t.ptFrame, t.ptUserFrame)
    ensures var a := Translate(t, va);
      && (a.Some? && a.value.user <==> InImage(va) || InUserVideo(va))
      && (InImage(va) ==> a.value.phys == (pid + 2) * PAGE_4MB + (va - PROGRAM_VIR_ADDR))
      && (InUserVideo(va) ==> a.value.phys == video * PAGE_4KB + (va - USER_VIDEO))
  {
    var d := va / PAGE_4MB;
    assert t.pd[d] == PdeFor(d, ImageFrame(pid), t.ptFrame, t.ptUserFrame);
    if d == 0 {
      assert t.pt[va / PAGE_4KB % NUM_ENTRIES] == PteFor(va / PAGE_4KB % NUM_ENTRIES);
    } else if d == PROGRAM_IMG_IDX + 1 {
      var k := va / PAGE_4KB % NUM_ENTRIES;
      assert t.ptUser[k] == UserPteFor(k, video);
    }
  }

  /** The whole map: the process's image and the video page for user code, the kernel's own
      4 MB and the four video pages in place for the kernel alone, and nothing else. */
  lemma WholeMap(t: Tables, pid: int, video: int, va: int)
    requires t.ptFrame != t.ptUserFrame && 0 <= va < 0x1_0000_0000
    requires t == TablesFor(pid, video, t.ptFrame, t.ptUserFrame)
    ensures Translate(t, va) ==
      if 0x800_0000 <= va < 0x840_0000 then Some(Access((pid + 2) * 0x40_0000 + va - 0x800_0000, true, true))
      else if 0x84B_8000 <= va < 0x84B_9000 then Some(Access(video * 0x1000 + va - 0x84B_8000, true, true))
      else if 0x40_0000 <= va < 0x80_0000 || 0xB_8000 <= va < 0xB_C000 then Some(Access(va, false, true))
      else None
  {
    var d := va / PAGE_4MB;
    assert t.pd[d] == PdeFor(d, ImageFrame(pid), t.ptFrame, t.ptUserFrame);
    var k := va / PAGE_4KB % NUM_ENTRIES;
    if d == 0 {
      assert t.pt[k] == PteFor(k);
    } else if d == PROGRAM_IMG_IDX + 1 {
      assert t.ptUser[k] == UserPteFor(k, video);
    }
  }

  /** Two processes never share a byte outside the video pages, and neither can
      reach the first 8 MB, where the kernel, its page tables and its stacks lie,
      except for the video page it is shown. */
  lemma ImagesAreDisjoint(t: Tables, t': Tables, pid: int, pid': int, video: int, video': int, va: int, va': int)
    requires TablesOk(t) && t == TablesFor(pid, video, t.ptFrame, t.ptUserFrame)
    requires TablesOk(t') && t' == TablesFor(pid', video', t'.ptFrame, t'.ptUserFrame)
    requires 0 <= pid && 0 <= pid' && pid != pid' && 0 <= va < 0x1_0000_0000 && 0 <= va' < 0x1_0000_0000
    requires VID_MEM_INDEX <= video <= VID_MEM_INDEX + 3 && VID_MEM_INDEX <= video' <= VID_MEM_INDEX + 3
    requires Translate(t, va).Some? && Translate(t, va).value.user
    requires Translate(t', va').Some? && Translate(t', va').value.user
    ensures var a, a' := Translate(t, va).value.phys, Translate(t', va').value.phys;
      && (a == a' ==> InUserVideo(va) && InUserVideo(va') && video == video')
      && (a < 2 * PAGE_4MB ==> InUserVideo(va) && a / PAGE_4KB == video)
  {
    UserReach(t, pid, video, va);
    UserReach(t', pid', video', va');
  }
}
