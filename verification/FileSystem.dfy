/** The read-only file system: a boot block with a directory, inodes that list data
    blocks, and the data blocks, all inside one disk image of bytes. */
module FileSystem {
  import opened Bytes

  const BLOCK_SIZE := 4096
  const MAX_STR_LENGTH := 32
  const MAX_DIR_ENTRIES := 63
  const MAX_FILE_BLOCKS := 1023

  // ----- where things lie in the image

  /** The little-endian value of n bytes. */
  function LittleEndian(image: seq<byte>, at: nat, n: nat): (v: nat)
    requires at + n <= |image|
    decreases n
  {
    if n == 0 then 0 else image[at] as int + 0x100 * LittleEndian(image, at + 1, n - 1)
  }

  function U32(image: seq<byte>, at: nat): (v: nat)
    requires at + 4 <= |image|
  {
    LittleEndian(image, at, 4)
  }

  /** Four bytes, the lowest first. */
  lemma U32Bytes(image: seq<byte>, at: nat)
    requires at + 4 <= |image|
    ensures U32(image, at) == image[at] as int + 0x100 * image[at + 1] as int
                              + 0x1_0000 * image[at + 2] as int + 0x100_0000 * image[at + 3] as int
  {
    assert LittleEndian(image, at + 4, 0) == 0;
    assert LittleEndian(image, at + 3, 1) == image[at + 3] as int;
    assert LittleEndian(image, at + 2, 2) == image[at + 2] as int + 0x100 * image[at + 3] as int;
    assert LittleEndian(image, at + 1, 3)
        == image[at + 1] as int + 0x100 * image[at + 2] as int + 0x1_0000 * image[at + 3] as int;
  }

  function NumDirEntries(image: seq<byte>): nat requires |image| >= BLOCK_SIZE { U32(image, 0) }
  function NumInodes(image: seq<byte>): nat requires |image| >= BLOCK_SIZE { U32(image, 4) }
  function NumDataBlocks(image: seq<byte>): nat requires |image| >= BLOCK_SIZE { U32(image, 8) }

  function EntryAt(i: int): int { 64 + 64 * i }
  function InodeAt(n: int): int { (n + 1) * BLOCK_SIZE }

  function BlockAt(image: seq<byte>, b: int): int
    requires |image| >= BLOCK_SIZE
  {
    (1 + NumInodes(image) + b) * BLOCK_SIZE
  }

  function FileLength(image: seq<byte>, n: nat): nat
    requires |image| >= BLOCK_SIZE && InodeAt(n) + BLOCK_SIZE <= |image|
  {
    U32(image, InodeAt(n))
  }

  function BlockNumber(image: seq<byte>, n: nat, k: nat): nat
    requires |image| >= BLOCK_SIZE && InodeAt(n) + BLOCK_SIZE <= |image| && k < MAX_FILE_BLOCKS
  {
    U32(image, InodeAt(n) + 4 + 4 * k)
  }

  function BlocksOf(length: nat): nat { (length + BLOCK_SIZE - 1) / BLOCK_SIZE }

  ghost predicate InodeOk(image: seq<byte>, n: nat)
    requires |image| >= BLOCK_SIZE && InodeAt(n) + BLOCK_SIZE <= |image|
  {
    && FileLength(image, n) <= MAX_FILE_BLOCKS * BLOCK_SIZE
    && forall k :: 0 <= k < BlocksOf(FileLength(image, n)) ==> BlockNumber(image, n, k) < NumDataBlocks(image)
  }

  /** An image as the file-system tool writes it. */
  ghost predicate ImageOk(image: seq<byte>) {
    && BLOCK_SIZE <= |image| < 0x1_0000_0000
    && (1 + NumInodes(image) + NumDataBlocks(image)) * BLOCK_SIZE <= |image|
    && NumDirEntries(image) <= MAX_DIR_ENTRIES
    && (forall i :: 0 <= i < NumDirEntries(image) ==> image[EntryAt(i) + 63] == NUL)
    && (forall n :: 0 <= n < NumInodes(image) ==> InodeAt(n) + BLOCK_SIZE <= |image| && InodeOk(image, n))
  }

  // ----- the contents of a file

  function Block(image: seq<byte>, b: nat): (r: seq<byte>)
    requires ImageOk(image) && b < NumDataBlocks(image)
    ensures |r| == BLOCK_SIZE
  {
    image[BlockAt(image, b)..BlockAt(image, b) + BLOCK_SIZE]
  }

  /** The blocks of file n in file order. */
  function FileBlocks(image: seq<byte>, n: nat): (r: seq<seq<byte>>)
    requires ImageOk(image) && n < NumInodes(image)
    ensures forall k :: 0 <= k < |r| ==> |r[k]| == BLOCK_SIZE
  {
    seq(BlocksOf(FileLength(image, n)), k requires 0 <= k < BlocksOf(FileLength(image, n)) =>
      Block(image, BlockNumber(image, n, k)))
  }

  lemma {:induction false} ConcatLength(blocks: seq<seq<byte>>)
    requires forall k :: 0 <= k < |blocks| ==> |blocks[k]| == BLOCK_SIZE
    ensures |Concat(blocks)| == BLOCK_SIZE * |blocks|
  {
    if blocks != [] {
      ConcatLength(blocks[1..]);
    }
  }

  lemma {:induction false} ConcatAt(blocks: seq<seq<byte>>, k: nat, j: nat)
    requires forall k :: 0 <= k < |blocks| ==> |blocks[k]| == BLOCK_SIZE
    requires k < |blocks| && j < BLOCK_SIZE
    ensures BLOCK_SIZE * k + j < |Concat(blocks)| && Concat(blocks)[BLOCK_SIZE * k + j] == blocks[k][j]
  {
    ConcatLength(blocks);
    if k > 0 {
      ConcatAt(blocks[1..], k - 1, j);
    }
  }

  /** The flat file: its blocks one after the other, cut at its length. */
  function Contents(image: seq<byte>, n: nat): (r: seq<byte>)
    requires ImageOk(image) && n < NumInodes(image)
    ensures |r| == FileLength(image, n)
  {
    ConcatLength(FileBlocks(image, n));
    Concat(FileBlocks(image, n))[..FileLength(image, n)]
  }

  /** Where the block that holds byte i of file n starts. */
  function DataAt(image: seq<byte>, n: nat, i: nat): (a: nat)
    requires ImageOk(image) && n < NumInodes(image) && i < FileLength(image, n)
  {
    BlockAt(image, BlockNumber(image, n, i / BLOCK_SIZE))
  }

  lemma BlockInImage(image: seq<byte>, n: nat, k: nat)
    requires ImageOk(image) && n < NumInodes(image) && k < BlocksOf(FileLength(image, n))
    ensures k < MAX_FILE_BLOCKS && BlockNumber(image, n, k) < NumDataBlocks(image)
    ensures BlockAt(image, BlockNumber(image, n, k)) + BLOCK_SIZE <= |image|
  {
    assert InodeOk(image, n);
  }

  lemma BlockAtIs(image: seq<byte>, n: nat, i: nat)
    requires ImageOk(image) && n < NumInodes(image) && i < FileLength(image, n)
    ensures DataAt(image, n, i) + BLOCK_SIZE <= |image|
    ensures FileBlocks(image, n)[i / BLOCK_SIZE][i % BLOCK_SIZE] == image[DataAt(image, n, i) + i % BLOCK_SIZE]
  {
    BlockInImage(image, n, i / BLOCK_SIZE);
    assert FileBlocks(image, n)[i / BLOCK_SIZE] == Block(image, BlockNumber(image, n, i / BLOCK_SIZE));
  }

  /** Byte i of file n, found through the block table. */
  function ByteAt(image: seq<byte>, n: nat, i: nat): byte
    requires ImageOk(image) && n < NumInodes(image) && i < FileLength(image, n)
  {
    BlockAtIs(image, n, i);
    image[DataAt(image, n, i) + i % BLOCK_SIZE]
  }

  lemma ContentsAt(image: seq<byte>, n: nat, i: nat)
    requires ImageOk(image) && n < NumInodes(image) && i < FileLength(image, n)
    ensures Contents(image, n)[i] == ByteAt(image, n, i)
  {
    hide InodeOk, BlockNumber, BlockAt;
    var blocks, k, j := FileBlocks(image, n), i / BLOCK_SIZE, i % BLOCK_SIZE;
    assert i == BLOCK_SIZE * k + j && k < |blocks|;
    ConcatAt(blocks, k, j);
    BlockAtIs(image, n, i);
  }

  /** The byte of the disk that is byte i of file n: the inode's word for every 4096 bytes
      names a data block, and the data blocks lie behind the boot block and the inodes. */
  ghost predicate OnDisk(image: seq<byte>, n: nat, i: nat, c: byte) {
    |image| >= 8 && (n + 1) * 4096 + 4 + 4 * (i / 4096) + 4 <= |image| &&
    var block := U32(image, (n + 1) * 4096 + 4 + 4 * (i / 4096));
    var at := (1 + U32(image, 4) + block) * 4096 + i % 4096;
    at < |image| && c == image[at]
  }

  lemma ByteOnDisk(image: seq<byte>, n: nat, i: nat)
    requires ImageOk(image) && n < NumInodes(image) && i < FileLength(image, n)
    ensures OnDisk(image, n, i, ByteAt(image, n, i))
  {
    BlockInImage(image, n, i / BLOCK_SIZE);
  }

  /** The flat file, byte by byte on the disk. */
  lemma ContentsOnDisk(image: seq<byte>, n: nat, i: nat)
    requires ImageOk(image) && n < NumInodes(image) && i < FileLength(image, n)
    ensures |Contents(image, n)| == U32(image, (n + 1) * 4096)
    ensures OnDisk(image, n, i, Contents(image, n)[i])
  {
    ContentsAt(image, n, i);
    ByteOnDisk(image, n, i);
  }

  lemma SameBlock(image: seq<byte>, n: nat, i: nat)
    requires ImageOk(image) && n < NumInodes(image) && 0 < i < FileLength(image, n) && i % BLOCK_SIZE != 0
    ensures DataAt(image, n, i) == DataAt(image, n, i - 1)
  {
    assert i / BLOCK_SIZE == (i - 1) / BLOCK_SIZE;
  }

  /** Looks byte i up in the inode's block table.  At the very end of a file of 1023
      blocks the index is one behind the table, and the address is not used. */
  method FindBlock(image: seq<byte>, inode: nat, i: nat) returns (addr: int)
    requires ImageOk(image) && inode < NumInodes(image) && i <= FileLength(image, inode)
    ensures i < FileLength(image, inode) ==> addr == DataAt(image, inode, i)
  {
    assert FileLength(image, inode) > 0 ==> BlockNumber(image, inode, 0) < NumDataBlocks(image);
    var blockIndex := U32(image, InodeAt(inode) + 4 + 4 * (i / BLOCK_SIZE));
    addr := (1 + NumInodes(image) + blockIndex) * BLOCK_SIZE;
  }

  /** One round of the copying loop: byte `at`, with the address of the block that
      held the byte before it (or, in the first round, that holds this one). */
  method NextByte(image: seq<byte>, inode: nat, at: nat, first: bool, addr: int) returns (c: byte, addr': int)
    requires ImageOk(image) && inode < NumInodes(image) && at < FileLength(image, inode)
    requires first ==> addr == DataAt(image, inode, at)
    requires !first ==> at > 0 && addr == DataAt(image, inode, at - 1)
    ensures c == ByteAt(image, inode, at) && addr' == DataAt(image, inode, at)
  {
    hide InodeOk, DataAt;
    addr' := addr;
    if at % BLOCK_SIZE == 0 {
      addr' := FindBlock(image, inode, at);
    } else if !first {
      SameBlock(image, inode, at);
    }
    BlockAtIs(image, inode, at);
    c := image[addr' + at % BLOCK_SIZE];
  }

  method CopyData(image: seq<byte>, inode: nat, offset: nat, buf: array<byte>, length: nat) returns (i: nat)
    requires ImageOk(image) && inode < NumInodes(image) && offset <= FileLength(image, inode)
    requires Min(length, FileLength(image, inode) - offset) <= buf.Length
    modifies buf
    ensures i == Min(length, FileLength(image, inode) - offset)
    ensures forall k :: 0 <= k < i ==> buf[k] == ByteAt(image, inode, offset + k)
    ensures forall k :: i <= k < buf.Length ==> buf[k] == old(buf[k])
  {
    hide InodeOk, DataAt, ByteAt;
    var fileLength := U32(image, InodeAt(inode));
    var blockAddr := FindBlock(image, inode, offset);
    i := 0;
    while i < length && i + offset < fileLength
      invariant 0 <= i <= Min(length, fileLength - offset)
      invariant i == 0 && offset < fileLength ==> blockAddr == DataAt(image, inode, offset)
      invariant i > 0 ==> blockAddr == DataAt(image, inode, i + offset - 1)
      invariant forall k :: 0 <= k < i ==> buf[k] == ByteAt(image, inode, offset + k)
      invariant forall k :: i <= k < buf.Length ==> buf[k] == old(buf[k])
    {
      var c;
      c, blockAddr := NextByte(image, inode, i + offset, i == 0, blockAddr);
      buf[i] := c;
      i := i + 1;
    }
  }

  /** Copies bytes of a file, following its block list.  The result is -1 for an
      inode or an offset out of range. */
  method ReadData(image: seq<byte>, inode: nat, offset: nat, buf: array<byte>, length: nat) returns (r: int)
    requires ImageOk(image)
    requires inode < NumInodes(image) && offset <= FileLength(image, inode)
             ==> Min(length, FileLength(image, inode) - offset) <= buf.Length
    modifies buf
    ensures inode >= NumInodes(image) || offset > FileLength(image, inode) ==> r == -1 && buf[..] == old(buf[..])
    ensures inode < NumInodes(image) && offset <= FileLength(image, inode) ==>
      && r == Min(length, FileLength(image, inode) - offset)
      && buf[..r] == Contents(image, inode)[offset..offset + r]
      && buf[r..] == old(buf[r..])
    ensures r >= 0 ==>
      && |image| >= 8 && inode < U32(image, 4) && (inode + 2) * 4096 <= |image|
      && offset + r == Min(offset + length, U32(image, (inode + 1) * 4096))
    ensures forall j :: 0 <= j < r ==> OnDisk(image, inode, offset + j, buf[j])
  {
    hide InodeOk, ByteAt, Contents, OnDisk;
    if inode >= NumInodes(image) {
      return -1;
    }
    var fileLength := U32(image, InodeAt(inode));
    if offset > fileLength {
      return -1;
    }
    r := CopyData(image, inode, offset, buf, length);
    forall k | 0 <= k < r ensures buf[k] == Contents(image, inode)[offset + k] {
      ContentsAt(image, inode, offset + k);
    }
    forall k | 0 <= k < r ensures OnDisk(image, inode, offset + k, buf[k]) {
      ByteOnDisk(image, inode, offset + k);
    }
  }

  // ----- names

  datatype Dentry = Dentry(name: seq<byte>, fileType: nat, inode: nat)

  function NameField(image: seq<byte>, i: nat): (r: seq<byte>)
    requires ImageOk(image) && i < NumDirEntries(image)
    ensures |r| == MAX_STR_LENGTH
  {
    image[EntryAt(i)..EntryAt(i) + MAX_STR_LENGTH]
  }

  function Entry(image: seq<byte>, i: nat): Dentry
    requires ImageOk(image) && i < NumDirEntries(image)
  {
    Dentry(NameField(image, i), U32(image, EntryAt(i) + 32), U32(image, EntryAt(i) + 36))
  }

  /** A C string: the bytes before the first NUL. */
  function CString(s: seq<byte>): (r: seq<byte>)
    ensures NulFree(r)
  {
    s[..FirstIndex(s, NUL)]
  }

  /** An entry's name: up to a NUL, or all 32 bytes. */
  function Name(image: seq<byte>, i: nat): (r: seq<byte>)
    requires ImageOk(image) && i < NumDirEntries(image)
    ensures NulFree(r) && |r| <= MAX_STR_LENGTH
  {
    CString(NameField(image, i))
  }

  /** The directory on the disk: its size in the first word, entries of 64 bytes behind
      the first 64, each a name of up to 32 bytes, a type and an inode. */
  lemma EntryOnDisk(image: seq<byte>, i: nat)
    requires ImageOk(image) && i < NumDirEntries(image)
    ensures i < U32(image, 0) && 64 * i + 128 <= |image|
    ensures var d := Entry(image, i);
      && d.name == image[64 * i + 64..64 * i + 96]
      && d.fileType == U32(image, 64 * i + 96) && d.inode == U32(image, 64 * i + 100)
      && Name(image, i) <= d.name && (|Name(image, i)| < 32 ==> d.name[|Name(image, i)|] == 0)
      && forall k :: 0 <= k < |Name(image, i)| ==> Name(image, i)[k] != 0
  {
  }

  /** The first entry, from i on, that carries the name. */
  function LookupFrom(image: seq<byte>, name: seq<byte>, i: nat): (r: Option<nat>)
    requires ImageOk(image) && i <= NumDirEntries(image)
    ensures r.Some? ==> i <= r.value < NumDirEntries(image) && Name(image, r.value) == name
    ensures forall k :: i <= k < (if r.Some? then r.value else NumDirEntries(image)) ==> Name(image, k) != name
    decreases NumDirEntries(image) - i
  {
    if i == NumDirEntries(image) then None
    else if Name(image, i) == name then Some(i)
    else LookupFrom(image, name, i + 1)
  }

  function Lookup(image: seq<byte>, name: seq<byte>): (r: Option<nat>)
    requires ImageOk(image)
    ensures r.Some? ==> r.value < NumDirEntries(image) && Name(image, r.value) == name
  {
    if 1 <= |name| <= MAX_STR_LENGTH then LookupFrom(image, name, 0) else None
  }

  method StrLen(s: seq<byte>, at: nat) returns (len: nat)
    requires at <= |s| && NUL in s[at..]
    ensures len == FirstIndex(s[at..], NUL) < |s| - at
  {
    len := 0;
    ghost var p := FirstIndex(s[at..], NUL);
    ghost var k :| 0 <= k < |s[at..]| && s[at..][k] == NUL;
    assert p <= k;
    while s[at + len] != NUL
      invariant len <= p
      decreases p - len
    {
      assert s[at + len] == s[at..][len];
      len := len + 1;
    }
    assert s[at + len] == s[at..][len];
  }

  /** Index k is the first at which s1 differs from s2, counted from `at`. */
  ghost predicate DiffersFirst(s1: seq<byte>, s2: seq<byte>, at: nat, k: int) {
    0 <= k < |s1| && at + k < |s2| && s1[k] != s2[at + k] &&
    forall j :: 0 <= j < k ==> at + j < |s2| && s1[j] == s2[at + j]
  }

  /** strncmp of the string s1 with the bytes of s2 from `at`: zero exactly when they
      agree up to n or up to a common NUL, and otherwise the difference, as plain chars,
      of the first bytes that differ. */
  method StrNCmp(s1: seq<byte>, s2: seq<byte>, at: nat, n: nat) returns (r: int)
    requires NUL in s1 && at + n <= |s2|
    ensures r == 0 <==> forall k :: 0 <= k < Min(n, FirstIndex(s1, NUL) + 1) ==> s1[k] == s2[at + k]
    ensures r != 0 ==> exists k :: 0 <= k < n && DiffersFirst(s1, s2, at, k) && r == Signed(s1[k]) - Signed(s2[at + k])
  {
    hide FirstIndex;
    ghost var z :| 0 <= z < |s1| && s1[z] == NUL;
    assert FirstIndex(s1, NUL) <= z;
    var i := 0;
    while i < n
      invariant 0 <= i <= Min(n, FirstIndex(s1, NUL) + 1)
      invariant i > FirstIndex(s1, NUL) ==> i >= n
      invariant forall k :: 0 <= k < i ==> s1[k] == s2[at + k]
    {
      if s1[i] != s2[at + i] || s1[i] == NUL {
        assert s1[i] != s2[at + i] ==> DiffersFirst(s1, s2, at, i);
        return Signed(s1[i]) - Signed(s2[at + i]);
      }
      i := i + 1;
    }
    return 0;
  }

  /** Comparing up to the longer of the two lengths compares for equality: neither a
      prefix nor an extension matches, and a name may fill all 32 bytes. */
  lemma LongerLengthDecides(image: seq<byte>, i: nat, fname: seq<byte>, n: nat)
    requires ImageOk(image) && i < NumDirEntries(image) && NUL in fname
    requires |CString(fname)| <= MAX_STR_LENGTH && n == Max(|CString(fname)|, |Name(image, i)|)
    ensures (forall k :: 0 <= k < Min(n, FirstIndex(fname, NUL) + 1) ==> fname[k] == image[EntryAt(i) + k])
            <==> CString(fname) == Name(image, i)
  {
    var a, b, field := CString(fname), Name(image, i), NameField(image, i);
    assert forall k :: 0 <= k < MAX_STR_LENGTH ==> field[k] == image[EntryAt(i) + k];
    assert |a| == FirstIndex(fname, NUL) < |fname| && fname[|a|] == NUL;
    assert |b| < MAX_STR_LENGTH ==> field[|b|] == NUL;
    assert forall k :: 0 <= k < |a| ==> a[k] == fname[k];
    assert forall k :: 0 <= k < |b| ==> b[k] == image[EntryAt(i) + k];
    assert |a| < |b| ==> fname[|a|] != b[|a|];
    assert |b| < |a| ==> a[|b|] != field[|b|];
    assert a == b ==> forall k :: 0 <= k < |a| ==> a[k] == b[k];
  }

  /** strlen over a name field runs into the bytes behind it when all 32 are used;
      cut at 32 it is the length of the name. */
  lemma FieldLength(image: seq<byte>, i: nat)
    requires ImageOk(image) && i < NumDirEntries(image)
    ensures NUL in image[EntryAt(i)..]
    ensures Min(MAX_STR_LENGTH, FirstIndex(image[EntryAt(i)..], NUL)) == |Name(image, i)|
  {
    var tail, field := image[EntryAt(i)..], NameField(image, i);
    assert tail[63] == NUL;
    assert forall k :: 0 <= k < MAX_STR_LENGTH ==> tail[k] == field[k];
  }

  method ReadDentryByIndex(image: seq<byte>, index: nat) returns (d: Option<Dentry>)
    requires ImageOk(image)
    ensures d == if index < NumDirEntries(image) then Some(Entry(image, index)) else None
  {
    if index >= NumDirEntries(image) {
      return None;
    }
    return Some(Dentry(image[EntryAt(index)..EntryAt(index) + MAX_STR_LENGTH],
                       U32(image, EntryAt(index) + 32), U32(image, EntryAt(index) + 36)));
  }

  /** The comparison in the search loop. */
  method NameMatches(image: seq<byte>, fname: seq<byte>, len: nat, i: nat) returns (same: bool)
    requires ImageOk(image) && i < NumDirEntries(image) && NUL in fname
    requires len == |CString(fname)| <= MAX_STR_LENGTH
    ensures same <==> Name(image, i) == CString(fname)
  {
    FieldLength(image, i);
    var searchLen := StrLen(image, EntryAt(i));
    if MAX_STR_LENGTH < searchLen {
      searchLen := MAX_STR_LENGTH;
    }
    var n := if len < searchLen then searchLen else len;
    var cmp := StrNCmp(fname, image, EntryAt(i), n);
    LongerLengthDecides(image, i, fname, n);
    same := cmp == 0;
  }

  /** Finds the first entry whose name is exactly the given one. */
  method ReadDentryByName(image: seq<byte>, fname: seq<byte>) returns (d: Option<Dentry>)
    requires ImageOk(image) && NUL in fname
    ensures var found := Lookup(image, CString(fname));
      d == if found.Some? then Some(Entry(image, found.value)) else None
  {
    assert fname[0..] == fname;
    var len := StrLen(fname, 0);
    if len > MAX_STR_LENGTH || len <= 0 {
      return None;
    }
    var i := 0;
    while i < NumDirEntries(image)
      invariant 0 <= i <= NumDirEntries(image)
      invariant Lookup(image, CString(fname)) == LookupFrom(image, CString(fname), i)
    {
      var same := NameMatches(image, fname, len, i);
      if same {
        d := ReadDentryByIndex(image, i);
        return d;
      }
      i := i + 1;
    }
    return None;
  }

  /** dir_read: the next entry's name, its 32 bytes and a NUL, and the cursor behind
      it; 0 when there is none. */
  method DirRead(image: seq<byte>, index: nat, buf: array<byte>) returns (count: nat, next: nat)
    requires ImageOk(image) && MAX_STR_LENGTH < buf.Length
    modifies buf
    ensures index >= NumDirEntries(image) ==> count == 0 && next == index
    ensures index < NumDirEntries(image) ==>
      next == index + 1 && count == |Name(image, index)| && buf[..count] == Name(image, index)
    ensures count <= MAX_STR_LENGTH
  {
    hide InodeOk, FirstIndex, NumInodes, NumDataBlocks;
    var d := ReadDentryByIndex(image, index);
    if d.None? {
      return 0, index;
    }
    var i := 0;
    while i < MAX_STR_LENGTH
      invariant 0 <= i <= MAX_STR_LENGTH && buf[..i] == d.value.name[..i]
    {
      buf[i] := d.value.name[i];
      i := i + 1;
    }
    buf[MAX_STR_LENGTH] := NUL;
    ghost var copied := buf[..];
    assert buf[..MAX_STR_LENGTH] == d.value.name;
    assert copied[0..] == copied && copied[MAX_STR_LENGTH] == NUL;
    count := StrLen(buf[..], 0);
    next := index + 1;
  }
}
