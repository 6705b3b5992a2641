/** The blinking characters of fish: nodes taken from a fixed pool and linked into a
    list, and the tick that makes them blink. */
module Blink {
  import opened Arithmetic
  import opened Bytes

  type word = x: int | 0 <= x < 0x10000

  const CELLS := 80 * 25
  const NULL := -1

  /** One blinking character; lit is bit 0 of the status field. */
  datatype Blinker = Blinker(location: word, on: byte, off: byte, onLength: word, offLength: word,
                             countdown: word, lit: bool)

  datatype Slot = Slot(node: Blinker, next: int)

  const ZEROED := Slot(Blinker(0, 0, 0, 0, 0, 0, false), NULL)

  // ----- the list in the pool

  function At(chain: seq<int>, i: nat): int { if i < |chain| then chain[i] else NULL }

  /** Following next from head visits the slots of chain, each once, and ends. */
  ghost predicate IsList(slots: seq<Slot>, head: int, chain: seq<int>) {
    |slots| == CELLS && head == At(chain, 0) &&
    (forall i :: 0 <= i < |chain| ==> 0 <= chain[i] < CELLS) &&
    (forall i, j :: 0 <= i < j < |chain| ==> chain[i] != chain[j]) &&
    (forall i {:trigger slots[chain[i]]} :: 0 <= i < |chain| ==> slots[chain[i]].next == At(chain, i + 1))
  }

  /** A slot is in the list exactly when its location is not 0, which is how the
      allocator tells, and every location is on the screen. */
  ghost predicate Marked(slots: seq<Slot>, chain: seq<int>) {
    forall k :: 0 <= k < |slots| ==> (k in chain <==> slots[k].node.location != 0) && slots[k].node.location < CELLS
  }

  ghost predicate Sound(slots: seq<Slot>, head: int, chain: seq<int>) {
    IsList(slots, head, chain) && Marked(slots, chain)
  }

  /** The blinkers, front first. */
  function Nodes(slots: seq<Slot>, chain: seq<int>): (nodes: seq<Blinker>)
    requires forall i :: 0 <= i < |chain| ==> 0 <= chain[i] < |slots|
    ensures |nodes| == |chain|
  {
    seq(|chain|, i requires 0 <= i < |chain| => slots[chain[i]].node)
  }

  predicate Free(slots: seq<Slot>, k: int) { 0 <= k < |slots| && slots[k].node.location == 0 }

  /** The first slot that the allocator takes for free. */
  ghost predicate FirstFree(slots: seq<Slot>, k: int) {
    Free(slots, k) && forall j :: 0 <= j < k ==> !Free(slots, j)
  }

  /** A blinker starts lit, with its whole on time ahead. */
  function Started(user: Blinker): Blinker { user.(countdown := user.onLength, lit := true) }

  function Inserted(slots: seq<Slot>, head: int, k: int, user: Blinker): seq<Slot>
    requires 0 <= k < |slots|
  {
    slots[k := Slot(Started(user), head)]
  }

  lemma InsertFront(slots: seq<Slot>, head: int, chain: seq<int>, k: int, user: Blinker)
    requires Sound(slots, head, chain) && Free(slots, k) && user.location < CELLS
    ensures IsList(Inserted(slots, head, k, user), k, [k] + chain)
  {
    var c, s := [k] + chain, Inserted(slots, head, k, user);
    assert k !in chain;
    assert forall i :: 0 < i < |c| ==> c[i] == chain[i - 1];
    assert forall i :: 0 <= i <= |chain| ==> At(c, i + 1) == At(chain, i);
    forall i | 0 <= i < |c| ensures s[c[i]].next == At(c, i + 1) {
      if i > 0 {
        assert slots[chain[i - 1]].next == At(chain, i);
        assert c[i] != k;
      }
    }
  }

  lemma InsertNodes(slots: seq<Slot>, head: int, chain: seq<int>, k: int, user: Blinker)
    requires Sound(slots, head, chain) && Free(slots, k)
    ensures forall i :: 0 <= i < |[k] + chain| ==> 0 <= ([k] + chain)[i] < CELLS
    ensures Nodes(Inserted(slots, head, k, user), [k] + chain) == [Started(user)] + Nodes(slots, chain)
  {
    assert k !in chain;
  }

  lemma InsertMarks(slots: seq<Slot>, head: int, chain: seq<int>, k: int, user: Blinker)
    requires Marked(slots, chain) && Free(slots, k) && 0 != user.location < CELLS
    ensures Marked(Inserted(slots, head, k, user), [k] + chain)
  {
    forall j | 0 <= j < |slots|
      ensures j in [k] + chain <==> Inserted(slots, head, k, user)[j].node.location != 0
    {
    }
  }

  /** No walk ends at a slot that is its own successor. */
  lemma NoListThrough(slots: seq<Slot>, k: int, chain: seq<int>)
    requires 0 <= k < |slots| && slots[k].next == k
    ensures !IsList(slots, k, chain)
  {
    assert At(chain, 1) == if |chain| > 1 then chain[1] else NULL;
  }

  /** Inserting keeps the list sound if and only if the location is not 0: a node at
      location 0 is linked but looks free. */
  lemma InsertKeepsIff(slots: seq<Slot>, head: int, chain: seq<int>, k: int, user: Blinker)
    requires Sound(slots, head, chain) && Free(slots, k) && user.location < CELLS
    ensures (exists c :: Sound(Inserted(slots, head, k, user), k, c)) <==> user.location != 0
  {
    var s := Inserted(slots, head, k, user);
    InsertFront(slots, head, chain, k, user);
    if user.location != 0 {
      InsertMarks(slots, head, chain, k, user);
      assert Sound(s, k, [k] + chain);
    } else {
      forall c | IsList(s, k, c) ensures !Marked(s, c) {
        assert c[0] == k && k in c;
      }
    }
  }

  /** What then happens: the next insertion takes the same slot and links it to itself,
      so that walking the list never ends. */
  lemma LocationZeroMakesCycle(slots: seq<Slot>, head: int, k: int, zero: Blinker, k': int, user: Blinker)
    requires FirstFree(slots, k) && zero.location == 0
    requires var s := Inserted(slots, head, k, zero); FirstFree(s, k')
    ensures k' == k && forall c :: !IsList(Inserted(Inserted(slots, head, k, zero), k, k', user), k', c)
  {
    var s := Inserted(slots, head, k, zero);
    assert Free(s, k) && forall j :: 0 <= j < k ==> Free(s, j) == Free(slots, j);
    forall c ensures !IsList(Inserted(s, k, k', user), k', c) {
      NoListThrough(Inserted(s, k, k', user), k', c);
    }
  }

  // ----- slots are conserved

  function FreeCount(slots: seq<Slot>): nat {
    if slots == [] then 0 else (if slots[0].node.location == 0 then 1 else 0) + FreeCount(slots[1..])
  }

  lemma {:induction false} CountSlots(slots: seq<Slot>, used: set<int>, from: nat)
    requires forall k :: k in used <==> from <= k < from + |slots| && slots[k - from].node.location != 0
    ensures |used| + FreeCount(slots) == |slots|
    decreases |slots|
  {
    if slots == [] {
      assert used == {};
    } else {
      var rest := used - {from};
      forall k ensures k in rest <==> from + 1 <= k < from + |slots| && slots[1..][k - (from + 1)].node.location != 0 {
        assert from + 1 <= k < from + |slots| ==> slots[1..][k - (from + 1)] == slots[k - from];
      }
      CountSlots(slots[1..], rest, from + 1);
      assert from in used <==> slots[0].node.location != 0;
      assert from !in used ==> rest == used;
    }
  }

  lemma {:induction false} DistinctSet(chain: seq<int>)
    requires forall i, j :: 0 <= i < j < |chain| ==> chain[i] != chain[j]
    ensures |set k | k in chain| == |chain|
  {
    if chain != [] {
      DistinctSet(chain[1..]);
      assert (set k | k in chain) == {chain[0]} + (set k | k in chain[1..]);
    }
  }

  /** Every slot is a node of the list or free, never both and never lost. */
  lemma SlotsConserved(slots: seq<Slot>, head: int, chain: seq<int>)
    requires Sound(slots, head, chain)
    ensures |Nodes(slots, chain)| + FreeCount(slots) == CELLS
    ensures |Nodes(slots, chain)| < CELLS <==> exists k :: Free(slots, k)
  {
    DistinctSet(chain);
    CountSlots(slots, set k | k in chain, 0);
    FreeCountZero(slots);
  }

  lemma {:induction false} FreeCountZero(slots: seq<Slot>)
    ensures FreeCount(slots) > 0 <==> exists k :: Free(slots, k)
  {
    if slots != [] {
      FreeCountZero(slots[1..]);
      if k :| Free(slots[1..], k) {
        assert Free(slots, k + 1);
      }
      forall k | Free(slots, k) ensures k == 0 || Free(slots[1..], k - 1) {
      }
      assert slots[0].node.location == 0 <==> Free(slots, 0);
    }
  }

  // ----- finding and removing

  function FirstAt(nodes: seq<Blinker>, location: word): (i: nat)
    ensures i <= |nodes| && forall j :: 0 <= j < i ==> nodes[j].location != location
    ensures i < |nodes| ==> nodes[i].location == location
  {
    if nodes == [] || nodes[0].location == location then 0
    else
      var rest := FirstAt(nodes[1..], location);
      assert forall j :: 1 <= j < rest + 1 ==> nodes[j] == nodes[1..][j - 1];
      1 + rest
  }

  lemma FirstAtIs(nodes: seq<Blinker>, location: word, i: nat)
    requires i <= |nodes| && forall j :: 0 <= j < i ==> nodes[j].location != location
    requires i < |nodes| ==> nodes[i].location == location
    ensures FirstAt(nodes, location) == i
  {
    var k := FirstAt(nodes, location);
    assert k < |nodes| ==> nodes[k].location == location;
  }

  /** One step along the list. */
  lemma Walk(slots: seq<Slot>, head: int, chain: seq<int>, i: nat)
    requires IsList(slots, head, chain) && i < |chain|
    ensures 0 <= At(chain, i) < CELLS && slots[At(chain, i)].next == At(chain, i + 1)
    ensures Nodes(slots, chain)[i] == slots[At(chain, i)].node
    ensures At(chain, i + 1) == NULL <==> i + 1 == |chain|
    ensures forall j :: 0 <= j < |chain| && chain[j] == chain[i] ==> j == i
  {
    assert slots[chain[i]].next == At(chain, i + 1);
  }

  function Without(s: seq<int>, i: nat): seq<int>
    requires i < |s|
  {
    s[..i] + s[i + 1..]
  }

  /** The slots after unlinking the i-th node and clearing it. */
  function Unlinked(slots: seq<Slot>, chain: seq<int>, i: nat): seq<Slot>
    requires i < |chain| && forall j :: 0 <= j < |chain| ==> 0 <= chain[j] < |slots|
  {
    var s := if i == 0 then slots else slots[chain[i - 1] := slots[chain[i - 1]].(next := slots[chain[i]].next)];
    s[chain[i] := ZEROED]
  }

  function HeadAfter(slots: seq<Slot>, head: int, chain: seq<int>, i: nat): int
    requires i < |chain| && forall j :: 0 <= j < |chain| ==> 0 <= chain[j] < |slots|
  {
    if i == 0 then slots[chain[0]].next else head
  }

  lemma WithoutAt(chain: seq<int>, i: nat, j: nat)
    requires i < |chain| && j < |chain| - 1
    ensures Without(chain, i)[j] == chain[if j < i then j else j + 1]
    ensures At(Without(chain, i), j + 1) == At(chain, if j + 1 < i then j + 1 else j + 2)
  {
  }

  lemma UnlinkStep(slots: seq<Slot>, head: int, chain: seq<int>, i: nat, j: nat)
    requires IsList(slots, head, chain) && i < |chain| && j < |chain| - 1
    ensures var c := Without(chain, i); Unlinked(slots, chain, i)[c[j]].next == At(c, j + 1)
  {
    WithoutAt(chain, i, j);
    var k := if j < i then j else j + 1;
    assert slots[chain[k]].next == At(chain, k + 1);
    assert slots[chain[i]].next == At(chain, i + 1);
    assert chain[k] != chain[i];
    if i > 0 && k != i - 1 {
      assert chain[k] != chain[i - 1];
    }
  }

  lemma WithoutDistinct(chain: seq<int>, i: nat)
    requires i < |chain| && forall i, j :: 0 <= i < j < |chain| ==> chain[i] != chain[j]
    ensures var c := Without(chain, i); forall i, j :: 0 <= i < j < |c| ==> c[i] != c[j]
  {
  }

  lemma UnlinkList(slots: seq<Slot>, head: int, chain: seq<int>, i: nat)
    requires IsList(slots, head, chain) && i < |chain|
    ensures IsList(Unlinked(slots, chain, i), HeadAfter(slots, head, chain, i), Without(chain, i))
  {
    var s, c := Unlinked(slots, chain, i), Without(chain, i);
    WithoutDistinct(chain, i);
    forall j | 0 <= j < |c| ensures s[c[j]].next == At(c, j + 1) {
      UnlinkStep(slots, head, chain, i, j);
    }
    assert slots[chain[0]].next == At(chain, 1);
  }

  lemma UnlinkNodes(slots: seq<Slot>, head: int, chain: seq<int>, i: nat)
    requires IsList(slots, head, chain) && i < |chain|
    requires forall j :: 0 <= j < |Without(chain, i)| ==> 0 <= Without(chain, i)[j] < |slots|
    ensures Nodes(Unlinked(slots, chain, i), Without(chain, i))
            == Nodes(slots, chain)[..i] + Nodes(slots, chain)[i + 1..]
  {
    var s, c := Unlinked(slots, chain, i), Without(chain, i);
    forall j | 0 <= j < |c| ensures s[c[j]].node == slots[c[j]].node {
      var k := if j < i then j else j + 1;
      assert c[j] == chain[k];
    }
  }

  lemma UnlinkMarks(slots: seq<Slot>, head: int, chain: seq<int>, i: nat)
    requires Sound(slots, head, chain) && i < |chain|
    ensures Marked(Unlinked(slots, chain, i), Without(chain, i))
  {
    var s, c := Unlinked(slots, chain, i), Without(chain, i);
    forall k | 0 <= k < CELLS ensures (k in c <==> s[k].node.location != 0) && s[k].node.location < CELLS {
      assert s[k].node == if k == chain[i] then ZEROED.node else slots[k].node;
      WithoutMember(chain, i, k);
    }
  }

  lemma WithoutMember(chain: seq<int>, i: nat, k: int)
    requires i < |chain| && forall i, j :: 0 <= i < j < |chain| ==> chain[i] != chain[j]
    ensures k in Without(chain, i) <==> k in chain && k != chain[i]
  {
    if k in chain && k != chain[i] {
      var j :| 0 <= j < |chain| && chain[j] == k;
      assert Without(chain, i)[if j < i then j else j - 1] == k;
    }
  }

  // ----- ticks

  function Down(countdown: word): word { (countdown - 1) % 0x10000 }

  /** The countdown reached zero or less as a signed 16-bit number. */
  predicate Due(b: Blinker) { !(0 < Down(b.countdown) < 0x8000) }

  /** One tick of one blinker: it counts down, and when due it changes over. */
  function Tick(b: Blinker): Blinker {
    if Due(b) then b.(countdown := if b.lit then b.offLength else b.onLength, lit := !b.lit)
    else b.(countdown := Down(b.countdown))
  }

  function TickAll(nodes: seq<Blinker>): (r: seq<Blinker>) {
    seq(|nodes|, i requires 0 <= i < |nodes| => Tick(nodes[i]))
  }

  /** The character that belongs at a blinker's place. */
  function Face(b: Blinker): byte { if b.lit then b.on else b.off }

  /** The even bytes of the page hold the characters. */
  function Poked(screen: seq<byte>, location: word, ch: byte): seq<byte>
    requires 2 * location < |screen|
  {
    screen[2 * location := ch]
  }

  const PAGE := 4096

  ghost predicate OnScreen(nodes: seq<Blinker>) { forall i :: 0 <= i < |nodes| ==> nodes[i].location < CELLS }

  /** What one tick writes to the screen: the new face of every node that changes over. */
  ghost function Drawn(screen: seq<byte>, nodes: seq<Blinker>): (r: seq<byte>)
    requires |screen| == PAGE && OnScreen(nodes)
    ensures |r| == PAGE
    decreases |nodes|
  {
    if nodes == [] then screen
    else Drawn(if Due(nodes[0]) then Poked(screen, nodes[0].location, Face(Tick(nodes[0]))) else screen, nodes[1..])
  }

  /** Replacing a node in place, at the same location. */
  lemma UpdateNode(slots: seq<Slot>, head: int, chain: seq<int>, i: nat, node: Blinker)
    requires Sound(slots, head, chain) && i < |chain| && node.location == slots[chain[i]].node.location
    ensures var s := slots[chain[i] := slots[chain[i]].(node := node)];
            Sound(s, head, chain) && Nodes(s, chain) == Nodes(slots, chain)[i := node]
  {
  }

  /** What a sync copies: all of the rhythm, nothing of the looks. */
  function Synced(from: Blinker, to: Blinker): Blinker {
    to.(onLength := from.onLength, offLength := from.offLength, countdown := from.countdown, lit := from.lit)
  }

  // ----- runs of ticks

  function After(b: Blinker, n: nat): Blinker { if n == 0 then b else Tick(After(b, n - 1)) }

  function AllAfter(nodes: seq<Blinker>, n: nat): (r: seq<Blinker>)
    ensures |r| == |nodes|
  {
    if n == 0 then nodes else TickAll(AllAfter(nodes, n - 1))
  }

  lemma {:induction false} NodeAfter(nodes: seq<Blinker>, n: nat, i: nat)
    requires i < |nodes|
    ensures AllAfter(nodes, n)[i] == After(nodes[i], n)
  {
    if n > 0 {
      NodeAfter(nodes, n - 1, i);
    }
  }

  /** How many ticks a length lasts: the 16-bit countdown is tested as a signed number,
      so 0 and the lengths above 32768 last one tick. */
  function Lasting(length: word): nat { if 1 <= length <= 0x8000 then length else 1 }

  /** A blinker is lit after n ticks exactly when n falls in the on part of its period,
      for every pair of 16-bit lengths. */
  lemma {:induction false} LitByPhase(user: Blinker, n: nat)
    ensures var on, off := Lasting(user.onLength), Lasting(user.offLength);
            var b, phase := After(Started(user), n), n % (on + off);
            (b.lit <==> phase < on) &&
            Lasting(b.countdown) == (if phase < on then on else on + off) - phase &&
            b == Started(user).(countdown := b.countdown, lit := b.lit)
  {
    var on, off := Lasting(user.onLength), Lasting(user.offLength);
    if n > 0 {
      LitByPhase(user, n - 1);
      NextRemainder(n - 1, on + off);
      OneTick(After(Started(user), n - 1));
    } else {
      Remainder(0, on + off, 0, 0);
    }
  }

  lemma OneTick(b: Blinker)
    ensures Due(b) <==> Lasting(b.countdown) == 1
    ensures !Due(b) ==> Lasting(Tick(b).countdown) == Lasting(b.countdown) - 1
  {
  }

  /** Two synced blinkers stay in step, tick for tick. */
  lemma {:induction false} SyncedStayInStep(nodes: seq<Blinker>, i: nat, j: nat, n: nat)
    requires i < |nodes| && j < |nodes|
    ensures var r := AllAfter(nodes[j := Synced(nodes[i], nodes[j])], n);
            r[j].lit == r[i].lit && r[j].countdown == r[i].countdown
  {
    var s := nodes[j := Synced(nodes[i], nodes[j])];
    NodeAfter(s, n, i);
    NodeAfter(s, n, j);
    InStep(s[i], s[j], n);
  }

  lemma {:induction false} InStep(a: Blinker, b: Blinker, n: nat)
    requires b == Synced(a, b)
    ensures After(b, n) == Synced(After(a, n), b)
  {
    if n > 0 {
      InStep(a, b, n - 1);
    }
  }

  // ----- what the screen shows

  ghost predicate Distinct(nodes: seq<Blinker>) {
    forall i, j :: 0 <= i < j < |nodes| ==> nodes[i].location != nodes[j].location
  }

  /** Every blinker's place shows its face. */
  ghost predicate Shows(nodes: seq<Blinker>, screen: seq<byte>) {
    |screen| == PAGE && OnScreen(nodes) &&
    forall i :: 0 <= i < |nodes| ==> screen[2 * nodes[i].location] == Face(nodes[i])
  }

  lemma {:induction false} DrawnAt(screen: seq<byte>, nodes: seq<Blinker>, a: nat)
    requires |screen| == PAGE && OnScreen(nodes) && Distinct(nodes) && a < PAGE
    ensures (forall i :: 0 <= i < |nodes| ==> 2 * nodes[i].location != a) ==> Drawn(screen, nodes)[a] == screen[a]
    ensures forall i :: 0 <= i < |nodes| && 2 * nodes[i].location == a ==>
      Drawn(screen, nodes)[a] == if Due(nodes[i]) then Face(Tick(nodes[i])) else screen[a]
    decreases |nodes|
  {
    if nodes != [] {
      var s := if Due(nodes[0]) then Poked(screen, nodes[0].location, Face(Tick(nodes[0]))) else screen;
      DrawnAt(s, nodes[1..], a);
      assert Drawn(screen, nodes) == Drawn(s, nodes[1..]);
      forall i | 0 <= i < |nodes| && 2 * nodes[i].location == a
        ensures Drawn(screen, nodes)[a] == if Due(nodes[i]) then Face(Tick(nodes[i])) else screen[a]
      {
        if i > 0 {
          assert nodes[1..][i - 1] == nodes[i];
        }
      }
    }
  }

  lemma TickShows(nodes: seq<Blinker>, screen: seq<byte>)
    requires Shows(nodes, screen) && Distinct(nodes)
    ensures Shows(TickAll(nodes), Drawn(screen, nodes)) && Distinct(TickAll(nodes))
  {
    forall i | 0 <= i < |nodes|
      ensures Drawn(screen, nodes)[2 * nodes[i].location] == Face(Tick(nodes[i]))
    {
      DrawnAt(screen, nodes, 2 * nodes[i].location);
    }
  }

  ghost function ScreenAfter(screen: seq<byte>, nodes: seq<Blinker>, n: nat): (r: seq<byte>)
    requires |screen| == PAGE && OnScreen(nodes)
    ensures |r| == PAGE && OnScreen(AllAfter(nodes, n))
  {
    if n == 0 then screen else Drawn(ScreenAfter(screen, nodes, n - 1), AllAfter(nodes, n - 1))
  }

  lemma {:induction false} RunShows(nodes: seq<Blinker>, screen: seq<byte>, n: nat)
    requires Shows(nodes, screen) && Distinct(nodes)
    ensures Shows(AllAfter(nodes, n), ScreenAfter(screen, nodes, n)) && Distinct(AllAfter(nodes, n))
  {
    if n > 0 {
      RunShows(nodes, screen, n - 1);
      TickShows(AllAfter(nodes, n - 1), ScreenAfter(screen, nodes, n - 1));
    }
  }

  /** What is seen: after n ticks the place of a new blinker shows its on character in
      the on part of its period and its off character in the rest. */
  lemma SeenByPhase(nodes: seq<Blinker>, screen: seq<byte>, i: nat, user: Blinker, n: nat)
    requires Shows(nodes, screen) && Distinct(nodes) && i < |nodes| && nodes[i] == Started(user)
    ensures var on, off := Lasting(user.onLength), Lasting(user.offLength);
            ScreenAfter(screen, nodes, n)[2 * user.location]
            == if n % (on + off) < on then user.on else user.off
  {
    RunShows(nodes, screen, n);
    NodeAfter(nodes, n, i);
    LitByPhase(user, n);
  }

  /** A sync always draws the off character, so afterwards the screen is right if and
      only if the source was dark or the target looks the same lit and dark. */
  lemma SyncShowsIff(nodes: seq<Blinker>, screen: seq<byte>, i: nat, j: nat)
    requires Shows(nodes, screen) && Distinct(nodes) && i < |nodes| && j < |nodes|
    ensures Shows(nodes[j := Synced(nodes[i], nodes[j])], Poked(screen, nodes[j].location, nodes[j].off))
            <==> !nodes[i].lit || nodes[j].on == nodes[j].off
  {
    var s := nodes[j := Synced(nodes[i], nodes[j])];
    var p := Poked(screen, nodes[j].location, nodes[j].off);
    assert p[2 * s[j].location] == nodes[j].off && Face(s[j]) == if nodes[i].lit then nodes[j].on else nodes[j].off;
    forall k | 0 <= k < |s| && k != j ensures p[2 * s[k].location] == Face(s[k]) {
      assert s[k] == nodes[k] && nodes[k].location != nodes[j].location;
    }
  }

  // ----- any sequence of calls

  datatype Call = AddCall(user: Blinker) | RemoveCall(location: word) | SyncCall(from: word, to: word) | TickCall

  function Step(nodes: seq<Blinker>, call: Call): seq<Blinker> {
    match call
    case AddCall(user) =>
      if user.location < CELLS && |nodes| < CELLS then [Started(user)] + nodes else nodes
    case RemoveCall(location) =>
      var i := FirstAt(nodes, location);
      if i < |nodes| then nodes[..i] + nodes[i + 1..] else nodes
    case SyncCall(from, to) =>
      var i, j := FirstAt(nodes, from), FirstAt(nodes, to);
      if i < |nodes| && j < |nodes| then nodes[j := Synced(nodes[i], nodes[j])] else nodes
    case TickCall => TickAll(nodes)
  }

  function Run(nodes: seq<Blinker>, calls: seq<Call>): seq<Blinker>
    decreases |calls|
  {
    if calls == [] then nodes else Run(Step(nodes, calls[0]), calls[1..])
  }

  /** The call does not link a node at location 0 into the list: by InsertKeepsIff
      exactly these calls keep it sound. */
  predicate Harmless(nodes: seq<Blinker>, call: Call) {
    call.AddCall? && call.user.location == 0 ==> |nodes| >= CELLS
  }

  predicate AllHarmless(nodes: seq<Blinker>, calls: seq<Call>)
    decreases |calls|
  {
    calls != [] ==> Harmless(nodes, calls[0]) && AllHarmless(Step(nodes, calls[0]), calls[1..])
  }

  // ----- the class

  class BlinkList {
    const pool: array<Slot>
    const screen: array<byte>
    var head: int
    ghost var chain: seq<int>

    ghost predicate Valid()
      reads this, pool
    {
      screen.Length == PAGE && Sound(pool[..], head, chain)
    }

    ghost function Contents(): seq<Blinker>
      requires Valid()
      reads this, pool
    {
      Nodes(pool[..], chain)
    }

    /** The state of fish after it has cleared the pool. */
    constructor (screen: array<byte>)
      requires screen.Length == PAGE
      ensures Valid() && Contents() == [] && this.screen == screen && fresh(pool)
    {
      pool := new Slot[CELLS](_ => ZEROED);
      this.screen := screen;
      head, chain := NULL, [];
    }

    method Malloc() returns (k: int)
      requires pool.Length == CELLS
      ensures k == NULL <==> !exists j :: Free(pool[..], j)
      ensures k != NULL ==> FirstFree(pool[..], k)
    {
      for i := 0 to CELLS
        invariant forall j :: 0 <= j < i ==> !Free(pool[..], j)
      {
        if pool[i].node.location == 0 {
          assert Free(pool[..], i);
          return i;
        }
      }
      return NULL;
    }

    /** Fails exactly for a location off the screen or a full pool; otherwise the new
        node is the front of the list, and the list stays sound unless the location is 0. */
    method Add(user: Blinker) returns (ret: int)
      requires Valid()
      modifies this, pool, screen
      ensures ret == if user.location < 2000 && |old(Contents())| < 2000 then 0 else -1
      ensures ret == -1 ==> Valid() && Contents() == old(Contents()) && screen[..] == old(screen[..])
      ensures ret == 0 ==> FirstFree(old(pool[..]), head) && pool[..] == Inserted(old(pool[..]), old(head), head, user)
      ensures ret == 0 ==> screen[..] == Poked(old(screen[..]), user.location, user.on)
      ensures ret == 0 ==> IsList(pool[..], head, chain) && Nodes(pool[..], chain) == [Started(user)] + old(Contents())
      ensures ret == 0 && user.location != 0 ==> Valid()
    {
      SlotsConserved(pool[..], head, chain);
      if user.location >= CELLS {
        return -1;
      }
      var slot := Malloc();
      if slot == NULL {
        return -1;
      }
      Link(slot, user);
      return 0;
    }

    method Link(slot: int, user: Blinker)
      requires Valid() && Free(pool[..], slot) && user.location < CELLS
      modifies this, pool, screen
      ensures head == slot && pool[..] == Inserted(old(pool[..]), old(head), slot, user)
      ensures screen[..] == Poked(old(screen[..]), user.location, user.on)
      ensures IsList(pool[..], head, chain) && Nodes(pool[..], chain) == [Started(user)] + old(Contents())
      ensures user.location != 0 ==> Valid()
    {
      InsertFront(pool[..], head, chain, slot, user);
      InsertNodes(pool[..], head, chain, slot, user);
      if user.location != 0 {
        InsertMarks(pool[..], head, chain, slot, user);
      }
      pool[slot] := Slot(Started(user), head);
      head, chain := slot, [slot] + chain;
      screen[2 * user.location] := user.on;
    }

    /** The first node at a location: its slot, or NULL. */
    method FindHelper(location: word) returns (slot: int)
      requires Valid()
      ensures slot == At(chain, FirstAt(Contents(), location))
    {
      slot := head;
      ghost var i, nodes := 0, Contents();
      while slot != NULL
        invariant 0 <= i <= |chain| && slot == At(chain, i) && (slot == NULL <==> i == |chain|)
        invariant forall j :: 0 <= j < i ==> nodes[j].location != location
        decreases |chain| - i
      {
        Walk(pool[..], head, chain, i);
        if pool[slot].node.location == location {
          FirstAtIs(nodes, location, i);
          return;
        }
        slot, i := pool[slot].next, i + 1;
      }
      FirstAtIs(nodes, location, i);
    }

    method Find(location: word) returns (found: Option<Blinker>)
      requires Valid()
      ensures var i := FirstAt(Contents(), location);
              found == if i < |Contents()| then Some(Contents()[i]) else None
    {
      var slot := FindHelper(location);
      found := if slot == NULL then None else Some(pool[slot].node);
    }

    /** The slot whose next field leads to the n-th node; NULL for the head pointer. */
    method FindPrev(slot: int, ghost n: nat) returns (prev: int)
      requires Valid() && n < |chain| && slot == chain[n]
      ensures prev == if n == 0 then NULL else chain[n - 1]
    {
      var at := head;
      prev := NULL;
      ghost var i := 0;
      while at != slot
        invariant 0 <= i <= n && at == At(chain, i) && prev == (if i == 0 then NULL else chain[i - 1])
        decreases n - i
      {
        Walk(pool[..], head, chain, i);
        prev, at := at, pool[at].next;
        i := i + 1;
      }
      Walk(pool[..], head, chain, i);
    }

    /** Takes the first node at the location out of the list and frees its slot. */
    method Remove(location: word) returns (ret: int)
      requires Valid()
      modifies this, pool
      ensures Valid()
      ensures var was := old(Contents()); var i := FirstAt(was, location);
              if i < |was| then ret == 0 && Contents() == was[..i] + was[i + 1..]
              else ret == -1 && Contents() == was
    {
      hide FirstAt;
      var slot := FindHelper(location);
      if slot == NULL {
        return -1;
      }
      ghost var n := FirstAt(Contents(), location);
      var prev := FindPrev(slot, n);
      Unlink(slot, prev, n);
      return 0;
    }

    method Unlink(slot: int, prev: int, ghost n: nat)
      requires Valid() && n < |chain| && slot == chain[n] && prev == if n == 0 then NULL else chain[n - 1]
      modifies this, pool
      ensures Valid() && Contents() == old(Contents()[..n] + Contents()[n + 1..])
    {
      UnlinkList(pool[..], head, chain, n);
      UnlinkNodes(pool[..], head, chain, n);
      UnlinkMarks(pool[..], head, chain, n);
      ghost var was := pool[..];
      if prev == NULL {
        head := pool[slot].next;
      } else {
        pool[prev] := pool[prev].(next := pool[slot].next);
      }
      pool[slot] := ZEROED;
      assert pool[..] == Unlinked(was, chain, n);
      chain := Without(chain, n);
    }

    /** Gives the node at the low 16 bits of arg the rhythm of the node at the high ones,
        and draws its off character. */
    method Sync(arg: nat) returns (ret: int)
      requires Valid() && arg < 0x1_0000_0000
      modifies pool, screen
      ensures Valid()
      ensures var was := old(Contents());
              var i, j := FirstAt(was, arg / 0x10000), FirstAt(was, arg % 0x10000);
              if i < |was| && j < |was| then
                ret == 0 && Contents() == was[j := Synced(was[i], was[j])] &&
                screen[..] == Poked(old(screen[..]), was[j].location, was[j].off)
              else ret == -1 && Contents() == was && screen[..] == old(screen[..])
    {
      var source := FindHelper(arg / 0x10000);
      if source == NULL {
        return -1;
      }
      var target := FindHelper(arg % 0x10000);
      if target == NULL {
        return -1;
      }
      ghost var j := FirstAt(Contents(), arg % 0x10000);
      var from, to := pool[source].node, pool[target].node;
      SetNode(target, j, to.(onLength := from.onLength, offLength := from.offLength,
                             countdown := from.countdown, lit := from.lit));
      screen[2 * to.location] := to.off;
      return 0;
    }

    method SetNode(slot: int, ghost i: nat, node: Blinker)
      requires Valid() && i < |chain| && slot == chain[i] && node.location == pool[slot].node.location
      modifies pool
      ensures Valid() && Contents() == old(Contents())[i := node]
      ensures pool[..] == old(pool[..])[slot := Slot(node, old(pool[slot].next))]
    {
      UpdateNode(pool[..], head, chain, i, node);
      pool[slot] := pool[slot].(node := node);
    }

    /** A node that is due changes over: it is redrawn and starts its next countdown. */
    method ChangeOver(b: Blinker) returns (b': Blinker)
      requires screen.Length == PAGE && b.location < CELLS
      modifies screen
      ensures b' == b.(countdown := if b.lit then b.offLength else b.onLength, lit := !b.lit)
      ensures screen[..] == Poked(old(screen[..]), b.location, Face(b'))
    {
      var countdown;
      if b.lit {
        screen[2 * b.location] := b.off;
        countdown := b.offLength;
      } else {
        screen[2 * b.location] := b.on;
        countdown := b.onLength;
      }
      b' := b.(countdown := countdown, lit := !b.lit);
    }

    method TickNode(b: Blinker) returns (b': Blinker)
      requires screen.Length == PAGE && b.location < CELLS
      modifies screen
      ensures b' == Tick(b)
      ensures screen[..] == if Due(b) then Poked(old(screen[..]), b.location, Face(b')) else old(screen[..])
    {
      var countdown := (b.countdown - 1) % 0x10000;
      if 0 < countdown < 0x8000 {
        b' := b.(countdown := countdown);
      } else {
        b' := ChangeOver(b);
      }
    }

    method TickSlot(slot: int, ghost i: nat)
      requires Valid() && i < |chain| && slot == chain[i]
      modifies pool, screen
      ensures Valid() && pool[slot].next == old(pool[slot].next)
      ensures Contents() == old(Contents())[i := Tick(old(Contents())[i])]
      ensures var b := old(Contents())[i];
              screen[..] == if Due(b) then Poked(old(screen[..]), b.location, Face(Tick(b))) else old(screen[..])
    {
      assert Contents()[i] == pool[slot].node;
      var b := TickNode(pool[slot].node);
      SetNode(slot, i, b);
    }

    /** One interrupt of the real-time clock: every node ticks once, front to back. */
    method Tasklet()
      requires Valid()
      modifies pool, screen
      ensures Valid() && Contents() == TickAll(old(Contents()))
      ensures screen[..] == Drawn(old(screen[..]), old(Contents()))
    {
      var slot := head;
      ghost var i, was := 0, Contents();
      while slot != NULL
        invariant Valid() && 0 <= i <= |chain| && slot == At(chain, i) && (slot == NULL <==> i == |chain|)
        invariant |was| == |chain| && Contents() == TickAll(was[..i]) + was[i..]
        invariant OnScreen(was) && Drawn(screen[..], was[i..]) == Drawn(old(screen[..]), was)
        decreases |chain| - i
      {
        Walk(pool[..], head, chain, i);
        TickSlot(slot, i);
        TickedOne(was, i);
        slot, i := pool[slot].next, i + 1;
      }
      assert was[..i] == was && was[i..] == [];
    }

    method Handle(call: Call)
      requires Valid() && Harmless(Contents(), call)
      modifies this, pool, screen
      ensures Valid() && Contents() == Step(old(Contents()), call)
    {
      hide FirstAt, TickAll, Started, Synced;
      match call {
        case AddCall(user) =>
          var ret := Add(user);
          assert ret == -1 || user.location != 0;
        case RemoveCall(location) =>
          var _ := Remove(location);
        case SyncCall(from, to) =>
          Remainder(from, 0x10000, to, from * 0x10000 + to);
          var _ := Sync(from * 0x10000 + to);
        case TickCall =>
          Tasklet();
      }
    }

    /** Over every sequence of calls in which no node at location 0 finds a free slot, the
        pool holds one acyclic list, of at most 2000 nodes, that refines the list operations. */
    method HandleAll(calls: seq<Call>)
      requires Valid() && AllHarmless(Contents(), calls)
      modifies this, pool, screen
      ensures Valid() && Contents() == Run(old(Contents()), calls) && |Contents()| <= CELLS
    {
      var i := 0;
      assert calls[0..] == calls;
      while i < |calls|
        invariant 0 <= i <= |calls| && Valid()
        invariant AllHarmless(Contents(), calls[i..])
        invariant Run(Contents(), calls[i..]) == Run(old(Contents()), calls)
      {
        assert calls[i..][0] == calls[i] && calls[i..][1..] == calls[i + 1..];
        Handle(calls[i]);
        i := i + 1;
      }
      SlotsConserved(pool[..], head, chain);
    }
  }

  lemma TickedOne(was: seq<Blinker>, i: nat)
    requires i < |was|
    ensures (TickAll(was[..i]) + was[i..])[i := Tick(was[i])] == TickAll(was[..i + 1]) + was[i + 1..]
    ensures (TickAll(was[..i]) + was[i..])[i] == was[i] && was[i..][0] == was[i] && was[i..][1..] == was[i + 1..]
  {
  }
}
