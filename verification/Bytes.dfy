/** Bytes, the constants that several components share, and the few facts about byte
    strings that they need. */
module Bytes {
  type byte = x: int | 0 <= x < 256

  const NUL: byte := 0
  const LINE_FEED: byte := 10
  const CARRIAGE_RETURN: byte := 13
  const SPACE: byte := 32

  const NUM_TERMS := 3
  const TWO_32 := 0x1_0000_0000

  datatype Option<+T> = None | Some(value: T)

  function Min(a: int, b: int): int { if a < b then a else b }

  function Max(a: int, b: int): int { if a < b then b else a }

  function Zeros(n: nat): (z: seq<byte>)
  {
    seq(n, _ => NUL)
  }

  ghost predicate NulFree(s: seq<byte>) {
    forall k :: 0 <= k < |s| ==> s[k] != NUL
  }

  /** The index of the first occurrence of c, or the length when there is none. */
  function FirstIndex(s: seq<byte>, c: byte): (p: nat)
    ensures p <= |s|
    ensures forall k :: 0 <= k < p ==> s[k] != c
    ensures p < |s| ==> s[p] == c
  {
    if s == [] then 0
    else if s[0] == c then 0
    else
      var rest := FirstIndex(s[1..], c);
      assert forall k :: 1 <= k < rest + 1 ==> s[k] == s[1..][k - 1];
      1 + rest
  }

  /** A byte as C's plain char, which is signed on the target. */
  function Signed(b: byte): int { if b < 128 then b else b - 256 }

  lemma Regroup<T>(a: seq<T>, b: seq<T>, c: seq<T>)
    ensures (a + b) + c == a + (b + c)
  {
  }

  /** One more place overwritten from the front. */
  lemma OverwriteNext<T>(front: seq<T>, was: seq<T>, x: T)
    requires |front| < |was|
    ensures (front + was[|front|..])[|front| := x] == front + [x] + was[|front| + 1..]
  {
  }

  /** All the pieces, one after the other. */
  function Concat(pieces: seq<seq<byte>>): seq<byte> {
    if pieces == [] then [] else pieces[0] + Concat(pieces[1..])
  }
}
