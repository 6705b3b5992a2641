/** Numbers as text: itoa, which writes the digits backwards and turns them around in
    place, and the padded form that printf builds from it. */
module Itoa {
  import opened Arithmetic
  import opened Bytes
  import FS = FileSystem

  const ZERO: byte := 48
  const NINE: byte := 57
  const LETTER_A: byte := 65
  const LETTER_Z: byte := 90
  const MINUS: byte := 45

  type Radix = x: int | 2 <= x <= 36 witness 2

  // ----- what is meant: numerals

  function Digit(d: int): (c: byte)
    requires 0 <= d < 36
    ensures DigitValue(c) == d && c != NUL
  {
    if d < 10 then ZERO + d else LETTER_A + d - 10
  }

  function DigitValue(c: byte): int { if c <= NINE then c - ZERO else c - LETTER_A + 10 }

  /** The digits are the characters 0 to 9 and A to Z. */
  lemma DigitCharacters(d: int)
    requires 0 <= d < 36
    ensures Digit(d) == "0123456789ABCDEFGHIJKLMNOPQRSTUVWXYZ"[d] as int
    ensures DigitValue("0123456789ABCDEFGHIJKLMNOPQRSTUVWXYZ"[d] as int) == d
  {
    assert "0123456789ABCDEFGHIJKLMNOPQRSTUVWXYZ"[d] as int == if d < 10 then '0' as int + d else 'A' as int + d - 10;
  }

  predicate IsDigit(c: byte, radix: Radix) {
    (ZERO <= c <= NINE || LETTER_A <= c <= LETTER_Z) && DigitValue(c) < radix
  }

  /** The number that a string of digits denotes, the highest place first. */
  function Value(s: seq<byte>, radix: Radix): int {
    if s == [] then 0 else Value(s[..|s| - 1], radix) * radix + DigitValue(s[|s| - 1])
  }

  ghost predicate Digits(s: seq<byte>, radix: Radix) { forall k :: 0 <= k < |s| ==> IsDigit(s[k], radix) }

  /** The numeral of a value: digits that denote it, without a leading zero. */
  ghost predicate IsNumeral(s: seq<byte>, value: int, radix: Radix) {
    s != [] && Digits(s, radix) && Value(s, radix) == value && (s[0] == ZERO ==> |s| == 1)
  }

  lemma DigitInjective(x: byte, y: byte, radix: Radix)
    requires IsDigit(x, radix) && IsDigit(y, radix) && DigitValue(x) == DigitValue(y)
    ensures x == y
  {
  }

  lemma {:induction false} ValuePositive(s: seq<byte>, radix: Radix)
    requires Digits(s, radix)
    ensures Value(s, radix) >= 0
    ensures s != [] && s[0] != ZERO ==> Value(s, radix) > 0
  {
    if s != [] {
      var init, d := s[..|s| - 1], DigitValue(s[|s| - 1]);
      ValuePositive(init, radix);
      Times(Value(init, radix), radix);
      if |s| == 1 && d == 0 {
        DigitInjective(s[0], ZERO, radix);
      }
    }
  }

  lemma LastDigit(s: seq<byte>, radix: Radix)
    requires Digits(s, radix) && s != []
    ensures Value(s, radix) % radix == DigitValue(s[|s| - 1])
    ensures Value(s, radix) / radix == Value(s[..|s| - 1], radix)
  {
    Remainder(Value(s[..|s| - 1], radix), radix, DigitValue(s[|s| - 1]), Value(s, radix));
  }

  /** A value has one numeral. */
  lemma {:induction false} NumeralUnique(s: seq<byte>, t: seq<byte>, value: int, radix: Radix)
    requires IsNumeral(s, value, radix) && IsNumeral(t, value, radix)
    ensures s == t
    decreases |s|
  {
    LastDigit(s, radix);
    LastDigit(t, radix);
    DigitInjective(s[|s| - 1], t[|t| - 1], radix);
    var s', t' := s[..|s| - 1], t[..|t| - 1];
    ValuePositive(s', radix);
    ValuePositive(t', radix);
    assert s == s' + [s[|s| - 1]] && t == t' + [t[|t| - 1]];
    if s' != [] && t' != [] {
      NumeralUnique(s', t', value / radix, radix);
    } else {
      assert Value([], radix) == 0;
    }
  }

  // ----- the digits in the order itoa produces them

  /** What a string of digits, the lowest place first, and a quotient behind it denote. */
  function Low(s: seq<byte>, v: int, radix: Radix): int {
    if s == [] then v else DigitValue(s[0]) + radix * Low(s[1..], v, radix)
  }

  lemma {:induction false} LowSnoc(s: seq<byte>, c: byte, q: int, radix: Radix)
    ensures Low(s + [c], q, radix) == Low(s, DigitValue(c) + radix * q, radix)
  {
    if s == [] {
      assert [c][1..] == [];
    } else {
      LowSnoc(s[1..], c, q, radix);
      assert (s + [c])[1..] == s[1..] + [c];
    }
  }

  function Reversed(s: seq<byte>): (r: seq<byte>) { seq(|s|, k requires 0 <= k < |s| => s[|s| - 1 - k]) }

  lemma {:induction false} ReversedDenotes(s: seq<byte>, radix: Radix)
    ensures Value(Reversed(s), radix) == Low(s, 0, radix)
  {
    if s != [] {
      ReversedDenotes(s[1..], radix);
      var r := Reversed(s);
      assert r[..|r| - 1] == Reversed(s[1..]) && r[|r| - 1] == s[0];
    }
  }

  function Power(b: nat, k: nat): nat { if k == 0 then 1 else b * Power(b, k - 1) }

  lemma MulAssociative(a: int, b: int, c: int)
    ensures a * (b * c) == (a * b) * c
  {
  }

  lemma {:induction false} PowerSum(b: nat, j: nat, k: nat)
    ensures Power(b, j + k) == Power(b, j) * Power(b, k)
  {
    if j > 0 {
      PowerSum(b, j - 1, k);
      var x, y := Power(b, j - 1), Power(b, k);
      MulAssociative(b, x, y);
    }
  }

  /** Places count from the right: a numeral in front of another is worth its value times
      the radix for each place of that other one. */
  lemma {:induction false} ValueOfPlaces(s: seq<byte>, t: seq<byte>, radix: Radix)
    ensures Value(s + t, radix) == Value(s, radix) * Power(radix, |t|) + Value(t, radix)
    ensures forall c: byte :: Value([c], radix) == DigitValue(c)
    decreases |t|
  {
    assert forall c: byte :: [c][..0] == [];
    if t == [] {
      assert s + t == s;
    } else {
      var init, d := t[..|t| - 1], DigitValue(t[|t| - 1]);
      assert (s + t)[..|s + t| - 1] == s + init;
      ValueOfPlaces(s, init, radix);
      PlaceStep(Value(s, radix), Power(radix, |init|), Value(init, radix), d, radix);
    }
  }

  lemma PlaceStep(a: int, p: int, b: int, d: int, radix: int)
    ensures (a * p + b) * radix + d == a * (radix * p) + (b * radix + d)
  {
    MulAssociative(a, p, radix);
    assert p * radix == radix * p;
    assert (a * p + b) * radix == (a * p) * radix + b * radix;
  }

  lemma Powers()
    ensures Power(2, 32) == TWO_32 && Power(16, 8) == TWO_32
  {
    assert Power(2, 8) == 0x100 && Power(16, 4) == 0x10000;
    PowerSum(2, 8, 8);
    PowerSum(2, 16, 16);
    PowerSum(16, 4, 4);
  }

  lemma {:induction false} PowerGrows(a: nat, b: nat, k: nat)
    requires a <= b
    ensures Power(a, k) <= Power(b, k)
  {
    if k > 0 {
      PowerGrows(a, b, k - 1);
      Monotone(b, a, Power(a, k - 1));
      Monotone(Power(b, k - 1), Power(a, k - 1), b);
    }
  }

  /** Every 32-bit value fits in 32 digits, whatever the radix. */
  lemma WordFits(value: nat, radix: Radix)
    requires value < TWO_32
    ensures value < Power(radix, 32)
  {
    Powers();
    PowerGrows(2, radix, 32);
  }

  lemma Divided(v: nat, q: nat, d: nat, radix: Radix, p: nat)
    requires v == q * radix + d && v < radix * p
    ensures q < p
  {
    Monotone(q, p, radix);
  }

  function Zeroes(n: nat): seq<byte> { seq(n, _ => ZERO) }

  lemma {:induction false} Padded(n: nat, s: seq<byte>, radix: Radix)
    requires Digits(s, radix)
    ensures Digits(Zeroes(n) + s, radix) && Value(Zeroes(n) + s, radix) == Value(s, radix)
    decreases n + |s|
  {
    var t := Zeroes(n) + s;
    if s != [] {
      Padded(n, s[..|s| - 1], radix);
      assert t[..|t| - 1] == Zeroes(n) + s[..|s| - 1];
    } else if n > 0 {
      Padded(n - 1, s, radix);
      assert t[..|t| - 1] == Zeroes(n - 1) + s;
    }
  }

  // ----- the routines

  /** A string stands at s[at..], with its NUL at end. */
  ghost predicate StringAt(s: seq<byte>, at: nat, end: nat) {
    at <= end < |s| && s[end] == NUL && forall k :: at <= k < end ==> s[k] != NUL
  }

  lemma StringLength(s: seq<byte>, at: nat, end: nat)
    requires StringAt(s, at, end)
    ensures NUL in s[at..] && FirstIndex(s[at..], NUL) == end - at
  {
    assert s[at..][end - at] == NUL;
    assert forall k :: 0 <= k < end - at ==> s[at..][k] == s[at + k];
  }

  /** The swaps, from both ends of s[at..at + len] to the middle. */
  method SwapEnds(s: array<byte>, at: nat, len: nat)
    requires at + len <= s.Length
    modifies s
    ensures forall k {:trigger s[k]} :: at <= k < at + len ==> s[k] == old(s[at + at + len - 1 - k])
    ensures forall k :: 0 <= k < s.Length && (k < at || k >= at + len) ==> s[k] == old(s[k])
  {
    var i: int, j: int := 0, len as int - 1;
    while i < j
      invariant 0 <= i && j < len && i + j + 1 == len && -1 <= j
      invariant forall k {:trigger s[k]} :: at <= k < at + len ==>
        s[k] == if at + i <= k <= at + j then old(s[k]) else old(s[at + at + len - 1 - k])
      invariant forall k :: 0 <= k < s.Length && (k < at || k >= at + len) ==> s[k] == old(s[k])
    {
      var c := s[at + j];
      s[at + j] := s[at + i];
      s[at + i] := c;
      i, j := i + 1, j - 1;
    }
  }

  /** Reverses the string at s[at..] in place. */
  method StrRev(s: array<byte>, at: nat, ghost end: nat)
    requires StringAt(s[..], at, end)
    modifies s
    ensures s[at..end] == Reversed(old(s[at..end]))
    ensures forall k :: 0 <= k < s.Length && (k < at || k >= end) ==> s[k] == old(s[k])
  {
    StringLength(s[..], at, end);
    var len := FS.StrLen(s[..], at);
    ghost var was := s[at..end];
    SwapEnds(s, at, len);
    forall k | 0 <= k < len ensures s[at..end][k] == Reversed(was)[k] {
      assert s[at..end][k] == s[at + k] && Reversed(was)[k] == was[len - 1 - k];
    }
  }

  /** One digit of the loop: d is the lowest one that is left, q what is left behind it. */
  lemma DigitStep(s: seq<byte>, v: nat, q: nat, d: nat, value: int, radix: Radix)
    requires d < radix && v == q * radix + d && Low(s, v, radix) == value
    ensures Low(s + [Digit(d)], q, radix) == value
  {
    LowSnoc(s, Digit(d), q, radix);
    assert DigitValue(Digit(d)) + radix * q == v;
  }

  lemma DigitLeft(v: nat, q: nat, d: nat, radix: Radix)
    requires d < radix && v > 0 && v == q * radix + d
    ensures q < v && IsDigit(Digit(d), radix) && (q == 0 ==> Digit(d) != ZERO)
  {
    Monotone(radix, 2, q);
  }

  lemma RoomStep(v: nat, q: nat, d: nat, radix: Radix, k: nat)
    requires v == q * radix + d && 0 < v < Power(radix, k)
    ensures k > 0 && q < Power(radix, k - 1)
  {
    Divided(v, q, d, radix, Power(radix, k - 1));
  }

  lemma DivMod(v: nat, radix: Radix)
    ensures v == (v / radix) * radix + v % radix
  {
  }

  /** The digits s are written, v is still to be written, into at most k places. */
  ghost predicate Progress(s: seq<byte>, v: nat, value: int, radix: Radix, k: nat) {
    Digits(s, radix) && Low(s, v, radix) == value && |s| <= k && v < Power(radix, k - |s|) &&
    (v == 0 ==> s != [] && s[|s| - 1] != ZERO)
  }

  lemma ProgressStep(s: seq<byte>, v: nat, q: nat, d: nat, value: int, radix: Radix, k: nat)
    requires v > 0 && v == q * radix + d && d < radix && |s| < k && q < Power(radix, k - |s| - 1)
    requires Digits(s, radix) && Low(s, v, radix) == value
    ensures q < v && Progress(s + [Digit(d)], q, value, radix, k)
  {
    DigitLeft(v, q, d, radix);
    DigitStep(s, v, q, d, value, radix);
  }

  method NextDigit(v: nat, radix: Radix, ghost s: seq<byte>, ghost value: int, ghost k: nat) returns (c: byte, q: nat)
    requires v > 0 && Progress(s, v, value, radix, k)
    ensures |s| < k && q < v && Progress(s + [c], q, value, radix, k)
  {
    var d;
    q, d := v / radix, v % radix;
    c := Digit(d);
    DivMod(v, radix);
    RoomStep(v, q, d, radix, k - |s|);
    ProgressStep(s, v, q, d, value, radix, k);
  }

  /** Writes the digits of value from the lowest up; p is behind the last one. */
  method PutDigits(value: nat, buf: array<byte>, at: nat, radix: Radix, ghost k: nat) returns (p: nat)
    requires 0 < value < Power(radix, k) && at + k <= buf.Length
    modifies buf
    ensures at < p <= at + k && Digits(buf[at..p], radix) && Low(buf[at..p], 0, radix) == value && buf[p - 1] != ZERO
    ensures forall i :: 0 <= i < buf.Length && (i < at || i >= p) ==> buf[i] == old(buf[i])
  {
    var v: nat := value;
    p := at;
    while v > 0
      invariant at <= p <= at + k && Progress(buf[at..p], v, value, radix, k)
      invariant forall i :: 0 <= i < buf.Length && (i < at || i >= p) ==> buf[i] == old(buf[i])
      decreases v
    {
      ghost var before := buf[at..p];
      var c, q := NextDigit(v, radix, before, value, k);
      buf[p] := c;
      assert buf[at..p + 1] == before + [c];
      p, v := p + 1, q;
    }
  }

  lemma ReversedNumeral(s: seq<byte>, value: int, radix: Radix)
    requires s != [] && Digits(s, radix) && Low(s, 0, radix) == value && s[|s| - 1] != ZERO
    ensures IsNumeral(Reversed(s), value, radix)
  {
    ReversedDenotes(s, radix);
  }

  /** Writes the numeral of value, terminated, at buf[at..]; the caller's buffer has room
      for k digits and the NUL. */
  method Itoa(value: nat, buf: array<byte>, at: nat, radix: Radix, ghost k: nat) returns (ghost n: nat)
    requires 1 <= k && value < Power(radix, k) && at + k < buf.Length
    modifies buf
    ensures n <= k && IsNumeral(buf[at..at + n], value, radix) && buf[at + n] == NUL
    ensures forall i :: 0 <= i < buf.Length && (i < at || i > at + n) ==> buf[i] == old(buf[i])
  {
    if value == 0 {
      buf[at], buf[at + 1] := ZERO, NUL;
      assert buf[at..at + 1] == [ZERO] && Value([], radix) == 0 && [ZERO][..0] == [];
      return 1;
    }
    var p := PutDigits(value, buf, at, radix, k);
    ghost var low := buf[at..p];
    assert forall i :: at <= i < p ==> buf[i] == low[i - at];
    buf[p] := NUL;
    assert buf[at..p] == low;
    ReversedNumeral(low, value, radix);
    StrRev(buf, at, p);
    n := p - at;
  }

  /** The characters that puts sends to the console. */
  method PutString(s: array<byte>, at: nat, ghost end: nat) returns (shown: seq<byte>)
    requires StringAt(s[..], at, end)
    ensures shown == s[at..end]
  {
    var i := at;
    shown := [];
    while s[i] != NUL
      invariant at <= i <= end && shown == s[at..i]
      decreases end - i
    {
      shown := shown + [s[i]];
      i := i + 1;
    }
  }

  method FillZeroes(buf: array<byte>, from: nat, to: nat)
    requires from <= to <= buf.Length
    modifies buf
    ensures buf[from..to] == Zeroes(to - from)
    ensures forall k :: 0 <= k < buf.Length && (k < from || k >= to) ==> buf[k] == old(buf[k])
  {
    var i := from;
    while i < to
      invariant from <= i <= to && forall k :: from <= k < i ==> buf[k] == ZERO
      invariant forall k :: 0 <= k < buf.Length && (k < from || k >= i) ==> buf[k] == old(buf[k])
    {
      buf[i] := ZERO;
      i := i + 1;
    }
  }

  lemma DigitsNulFree(s: seq<byte>, radix: Radix)
    requires Digits(s, radix)
    ensures NulFree(s)
  {
  }

  /** The alternate hexadecimal form of printf: the numeral stands at index 8, and the
      zeros that make it eight digits are written before it. */
  method PutHex(value: nat) returns (shown: seq<byte>)
    requires value < TWO_32
    ensures |shown| == 8 && Digits(shown, 16) && Value(shown, 16) == value
  {
    hide Value, Digits, FirstIndex, Power;
    var buf := new byte[64];
    Powers();
    ghost var n := Itoa(value, buf, 8, 16, 8);
    ghost var numeral := buf[8..8 + n];
    DigitsNulFree(numeral, 16);
    assert forall k :: 8 <= k < 8 + n ==> buf[k] == numeral[k - 8];
    StringLength(buf[..], 8, 8 + n);
    var start := FS.StrLen(buf[..], 8);
    FillZeroes(buf, start, 8);
    shown := ShowPadded(buf, start, numeral);
    Padded(8 - n, numeral, 16);
  }

  method ShowPadded(buf: array<byte>, start: nat, ghost numeral: seq<byte>) returns (shown: seq<byte>)
    requires start == |numeral| <= 8 && buf.Length == 64 && NulFree(numeral)
    requires buf[start..8] == Zeroes(8 - start) && buf[8 + start] == NUL
    requires forall k :: 8 <= k < 8 + start ==> buf[k] == numeral[k - 8]
    ensures shown == Zeroes(8 - start) + numeral
  {
    ghost var n := |numeral|;
    assert forall k :: start <= k < 8 ==> buf[k] == buf[start..8][k - start];
    shown := PutString(buf, start, 8 + n);
    assert buf[8..8 + n] == numeral;
    assert buf[start..8 + n] == buf[start..8] + buf[8..8 + n];
  }

  /** The signed decimal form of printf. */
  method PutSigned(value: int) returns (shown: seq<byte>)
    requires -0x8000_0000 <= value < 0x8000_0000
    ensures if value < 0 then shown != [] && shown[0] == '-' as int && IsNumeral(shown[1..], -value, 10)
            else IsNumeral(shown, value, 10)
  {
    var buf := new byte[36];
    var sign, magnitude := 0, value;
    if value < 0 {
      buf[0] := MINUS;
      sign, magnitude := 1, -value;
    }
    WordFits(magnitude, 10);
    ghost var n := Itoa(magnitude, buf, sign, 10, 32);
    ghost var numeral := buf[sign..sign + n];
    DigitsNulFree(numeral, 10);
    assert forall k :: sign <= k < sign + n ==> buf[k] == numeral[k - sign];
    shown := PutString(buf, 0, sign + n);
    assert value < 0 ==> shown[1..] == numeral;
  }
}
