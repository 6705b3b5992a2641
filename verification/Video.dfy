/** The video memory of the four pages 0xB8000..0xBBFFF as one array, and the
    routines of the C library that write it in place.  Addresses are offsets from
    0xB8000. */
module Video {
  import opened Bytes
  import opened Screen

  const NUM_PAGES := 4

  function PageOf(mem: array<byte>, vm: int): (p: seq<byte>)
    requires 0 <= vm && vm + PAGE_SIZE <= mem.Length
    reads mem
    ensures |p| == PAGE_SIZE
  {
    mem[vm..vm + PAGE_SIZE]
  }

  twostate predicate OnlyPage(mem: array<byte>, vm: int)
    reads mem
  {
    forall i :: 0 <= i < mem.Length && (i < vm || vm + PAGE_SIZE <= i) ==> mem[i] == old(mem[i])
  }

  /** The first `done` bytes have been copied; all else is as it was. */
  ghost predicate Copied(mem: array<byte>, dest: int, src: int, done: int, was: seq<byte>)
    requires mem.Length == |was| && 0 <= done && 0 <= src && src + done <= |was|
    reads mem
  {
    forall a {:trigger mem[a]} :: 0 <= a < mem.Length ==>
      mem[a] == if dest <= a < dest + done then was[a - dest + src] else was[a]
  }

  /** Copies n bytes upwards: single bytes until the destination is aligned, then
      four at a time, then the rest.  The areas must not overlap. */
  method MemCpy(mem: array<byte>, dest: int, src: int, n: nat)
    requires 0 <= dest && dest + n <= mem.Length && 0 <= src && src + n <= mem.Length
    requires dest + n <= src || src + n <= dest
    modifies mem
    ensures mem[dest..dest + n] == old(mem[src..src + n])
    ensures forall i :: 0 <= i < mem.Length && (i < dest || dest + n <= i) ==> mem[i] == old(mem[i])
  {
    ghost var was := mem[..];
    var done, ecx := 0, n;
    while ecx != 0 && (dest + done) % 4 != 0
      invariant 0 <= ecx && done + ecx == n
      invariant Copied(mem, dest, src, done, was)
      decreases ecx
    {
      CopyByte(mem, dest, src, done, was);
      done, ecx := done + 1, ecx - 1;
    }
    var edx := ecx % 4;
    ecx := ecx / 4;
    while ecx != 0
      invariant 0 <= ecx && 0 <= edx && 0 <= done && done + 4 * ecx + edx == n
      invariant Copied(mem, dest, src, done, was)
      decreases ecx
    {
      CopyDword(mem, dest, src, done, was);
      done, ecx := done + 4, ecx - 1;
    }
    while edx != 0
      invariant 0 <= edx && 0 <= done && done + edx == n
      invariant Copied(mem, dest, src, done, was)
      decreases edx
    {
      CopyByte(mem, dest, src, done, was);
      done, edx := done + 1, edx - 1;
    }
  }

  /** One movb: the byte behind the first `done`. */
  method CopyByte(mem: array<byte>, dest: int, src: int, done: nat, ghost was: seq<byte>)
    requires 0 <= dest && dest + done < mem.Length == |was| && 0 <= src && src + done < mem.Length
    requires dest + done < src || src + done < dest
    requires Copied(mem, dest, src, done, was)
    modifies mem
    ensures Copied(mem, dest, src, done + 1, was)
  {
    mem[dest + done] := mem[src + done];
  }

  /** One movsl: the four bytes behind the first `done`. */
  method CopyDword(mem: array<byte>, dest: int, src: int, done: nat, ghost was: seq<byte>)
    requires 0 <= dest && dest + done + 4 <= mem.Length == |was| && 0 <= src && src + done + 4 <= mem.Length
    requires dest + done + 4 <= src || src + done + 4 <= dest
    requires Copied(mem, dest, src, done, was)
    modifies mem
    ensures Copied(mem, dest, src, done + 4, was)
  {
    var b0, b1, b2, b3 := mem[src + done], mem[src + done + 1], mem[src + done + 2], mem[src + done + 3];
    assert b0 == was[src + done] && b1 == was[src + done + 1] && b2 == was[src + done + 2] && b3 == was[src + done + 3];
    mem[dest + done] := b0;
    mem[dest + done + 1] := b1;
    mem[dest + done + 2] := b2;
    mem[dest + done + 3] := b3;
  }

  /** The first `cells` cells have been moved up by a row; all else is as it was. */
  ghost predicate Moved(mem: array<byte>, vm: int, cells: int, was: seq<byte>)
    requires 0 <= vm && vm + PAGE_SIZE <= mem.Length == |was| && 0 <= cells <= 1920
    reads mem
  {
    forall a {:trigger mem[a]} :: 0 <= a < mem.Length ==>
      mem[a] == if vm <= a < vm + 2 * cells then was[a + 160] else was[a]
  }

  /** The cells from..to are blank; all else is as it was. */
  ghost predicate Blanked(mem: array<byte>, from: int, to: int, was: seq<byte>)
    requires 0 <= from <= to && mem.Length == |was|
    reads mem
  {
    forall a {:trigger mem[a]} :: 0 <= a < mem.Length ==>
      mem[a] == if from <= a < to then (if (a - from) % 2 == 0 then SPACE else ATTRIB) else was[a]
  }

  /** The inner loop: row j moves to row j - 1. */
  method MoveRow(mem: array<byte>, vm: int, j: int, ghost was: seq<byte>)
    requires 0 <= vm && vm + PAGE_SIZE <= mem.Length == |was| && 1 <= j < NUM_ROWS
    requires Moved(mem, vm, NUM_COLS * (j - 1), was)
    modifies mem
    ensures Moved(mem, vm, NUM_COLS * j, was)
  {
    var i := 0;
    while i < NUM_COLS
      invariant 0 <= i <= NUM_COLS
      invariant Moved(mem, vm, NUM_COLS * (j - 1) + i, was)
    {
      mem[vm + 2 * (NUM_COLS * (j - 1) + i)] := mem[vm + 2 * (NUM_COLS * j + i)];
      mem[vm + 2 * (NUM_COLS * (j - 1) + i) + 1] := mem[vm + 2 * (NUM_COLS * j + i) + 1];
      i := i + 1;
    }
  }

  method BlankLastRow(mem: array<byte>, vm: int)
    requires 0 <= vm && vm + PAGE_SIZE <= mem.Length
    modifies mem
    ensures Blanked(mem, vm + 3840, vm + 4000, old(mem[..]))
  {
    ghost var was := mem[..];
    var i := 0;
    while i < NUM_COLS
      invariant 0 <= i <= NUM_COLS
      invariant Blanked(mem, vm + 3840, vm + 3840 + 2 * i, was)
    {
      mem[vm + 2 * (NUM_COLS * (NUM_ROWS - 1) + i)] := SPACE;
      mem[vm + 2 * (NUM_COLS * (NUM_ROWS - 1) + i) + 1] := ATTRIB;
      i := i + 1;
    }
  }

  method ShiftScreen(mem: array<byte>, vm: int)
    requires 0 <= vm && vm + PAGE_SIZE <= mem.Length
    modifies mem
    ensures PageOf(mem, vm) == Shift(old(PageOf(mem, vm)))
    ensures OnlyPage(mem, vm)
  {
    ghost var was := mem[..];
    var j := 1;
    while j < NUM_ROWS
      invariant 1 <= j <= NUM_ROWS
      invariant Moved(mem, vm, NUM_COLS * (j - 1), was)
    {
      MoveRow(mem, vm, j, was);
      j := j + 1;
    }
    ghost var moved := mem[..];
    assert forall a {:trigger moved[a]} :: 0 <= a < |moved| ==>
      moved[a] == if vm <= a < vm + 3840 then was[a + 160] else was[a];
    BlankLastRow(mem, vm);
  }

  /** Blanks every visible cell of the page. */
  method ClearPage(mem: array<byte>, vm: int)
    requires 0 <= vm && vm + PAGE_SIZE <= mem.Length
    modifies mem
    ensures PageOf(mem, vm) == Blank(old(PageOf(mem, vm)))
    ensures OnlyPage(mem, vm)
  {
    var i := 0;
    while i < NUM_ROWS * NUM_COLS
      invariant 0 <= i <= NUM_ROWS * NUM_COLS
      invariant Blanked(mem, vm, vm + 2 * i, old(mem[..]))
    {
      mem[vm + 2 * i] := SPACE;
      mem[vm + 2 * i + 1] := ATTRIB;
      i := i + 1;
    }
  }

  method Poke(mem: array<byte>, vm: int, cell: int, c: byte)
    requires 0 <= vm && vm + PAGE_SIZE <= mem.Length && 0 <= cell < PAGE_SIZE / 2
    modifies mem
    ensures PageOf(mem, vm) == PutCell(old(PageOf(mem, vm)), cell, c)
    ensures OnlyPage(mem, vm)
  {
    mem[vm + 2 * cell] := c;
    mem[vm + 2 * cell + 1] := ATTRIB;
  }

  /** The body that putc and put_key share: one character on the page at vm, with
      the cursor (x, y). */
  method PutCharAt(mem: array<byte>, vm: int, x: int, y: int, c: byte) returns (x': int, y': int)
    requires 0 <= vm && vm + PAGE_SIZE <= mem.Length
    requires 0 <= x < NUM_COLS && 0 <= y < NUM_ROWS
    modifies mem
    ensures Screen(PageOf(mem, vm), x', y') == PutChar(Screen(old(PageOf(mem, vm)), x, y), c)
    ensures OnlyPage(mem, vm)
  {
    x', y' := x, y;
    if c == LINE_FEED || c == CARRIAGE_RETURN {
      y' := y' + 1;
      x' := 0;
    } else {
      Poke(mem, vm, NUM_COLS * y' + x', c);
      x' := x' + 1;
      if y' == NUM_ROWS - 1 && x' >= NUM_COLS {
        ShiftScreen(mem, vm);
        x' := 0;
      }
      y' := (y' + x' / NUM_COLS) % NUM_ROWS;
      x' := x' % NUM_COLS;
    }
    if y' >= NUM_ROWS {
      ShiftScreen(mem, vm);
      y' := NUM_ROWS - 1;
    }
  }
}
