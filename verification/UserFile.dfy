/** A file as a user program sees it through the read system call. */
module UserFile {
  import opened Bytes

  /** An open file. */
  class Stream {
    const content: seq<byte>
    var pos: nat

    ghost predicate Valid()
      reads this
    {
      pos <= |content|
    }

    constructor (content: seq<byte>)
      ensures Valid() && this.content == content && pos == 0
    {
      this.content, pos := content, 0;
    }

    /** Reads up to n bytes to data[at..]. */
    method Read(data: array<byte>, at: nat, n: nat) returns (cnt: nat)
      requires Valid() && at + n <= data.Length
      modifies this, data
      ensures Valid() && cnt == Min(n, |content| - old(pos)) && pos == old(pos) + cnt
      ensures data[at..at + cnt] == content[old(pos)..pos]
      ensures forall k :: 0 <= k < data.Length && (k < at || at + cnt <= k) ==> data[k] == old(data[k])
    {
      cnt := Min(n, |content| - pos);
      forall k | 0 <= k < cnt {
        data[at + k] := content[pos + k];
      }
      pos := pos + cnt;
    }

    /** Reads one byte into a variable, which keeps its value c at the end of file. */
    method ReadByte(c: byte) returns (cnt: nat, c': byte)
      requires Valid()
      modifies this
      ensures Valid() && cnt == Min(1, |content| - old(pos)) && pos == old(pos) + cnt
      ensures c' == if cnt == 0 then c else content[old(pos)]
    {
      cnt, c' := 0, c;
      if pos < |content| {
        cnt, c', pos := 1, content[pos], pos + 1;
      }
    }
  }
}
