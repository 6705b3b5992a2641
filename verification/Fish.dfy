/** What fish shows: the two frames that its first loop reads become blinking characters,
    and the ticks of its second loop switch the screen between them. */
module Fish {
  import opened Arithmetic
  import opened Bytes
  import opened UserFile
  import opened Frames
  import opened Blink

  // ----- where the characters go

  /** Either frame shows something here. */
  predicate Shown(a: seq<seq<byte>>, b: seq<seq<byte>>, r: nat, c: nat) {
    CharAt(a, r, c) != SPACE || CharAt(b, r, c) != SPACE
  }

  function Place(r: nat, c: nat): word { (r * COLUMNS + c + OFFSET) % 0x10000 }

  /** Every character shown has a place of its own on the screen, and none has place 0. */
  ghost predicate Placed(a: seq<seq<byte>>, b: seq<seq<byte>>) {
    (forall r: nat, c: nat :: Shown(a, b, r, c) ==> 0 < Place(r, c) < CELLS) &&
    (forall r: nat, c: nat, r': nat, c': nat :: Shown(a, b, r, c) && Shown(a, b, r', c') && (r != r' || c != c') ==>
       Place(r, c) != Place(r', c'))
  }

  ghost predicate Separate(issued: seq<Request>) {
    (forall k :: 0 <= k < |issued| ==> 0 < issued[k].location < CELLS) &&
    (forall i, j :: 0 <= i < j < |issued| ==> issued[i].location != issued[j].location)
  }

  lemma CellIsShown(cells: seq<Cell>, a: seq<seq<byte>>, b: seq<seq<byte>>, k: nat)
    requires Merges(cells, a, b) && k < |cells|
    ensures var cell := cells[k];
      && Shown(a, b, cell.row, cell.col) && AsRequest(cell).location == Place(cell.row, cell.col)
      && cell == Cell(cell.row, cell.col, CharAt(a, cell.row, cell.col), CharAt(b, cell.row, cell.col))
  {
    var cell := cells[k];
    assert cell == Cell(cell.row, cell.col, CharAt(a, cell.row, cell.col), CharAt(b, cell.row, cell.col));
    assert cell in cells;
  }

  lemma ShownHasCell(cells: seq<Cell>, a: seq<seq<byte>>, b: seq<seq<byte>>, r: nat, c: nat) returns (k: nat)
    requires Merges(cells, a, b) && Shown(a, b, r, c)
    ensures k < |cells| && cells[k] == Cell(r, c, CharAt(a, r, c), CharAt(b, r, c))
    ensures Requests(cells)[k].location == Place(r, c)
  {
    k :| 0 <= k < |cells| && cells[k] == Cell(r, c, CharAt(a, r, c), CharAt(b, r, c));
  }

  /** The locations asked for are on the screen, not 0 and all different if and only if
      the characters shown have such places. */
  lemma SeparateIff(cells: seq<Cell>, a: seq<seq<byte>>, b: seq<seq<byte>>)
    requires Merges(cells, a, b)
    ensures Separate(Requests(cells)) <==> Placed(a, b)
  {
    if Placed(a, b) {
      forall k | 0 <= k < |cells| ensures 0 < Requests(cells)[k].location < CELLS {
        CellIsShown(cells, a, b, k);
      }
      forall i, j | 0 <= i < j < |cells| ensures Requests(cells)[i].location != Requests(cells)[j].location {
        CellIsShown(cells, a, b, i);
        CellIsShown(cells, a, b, j);
        assert Before(cells[i], cells[j]);
      }
    }
    if Separate(Requests(cells)) {
      SeparateIsPlaced(cells, a, b);
    }
  }

  lemma SeparateIsPlaced(cells: seq<Cell>, a: seq<seq<byte>>, b: seq<seq<byte>>)
    requires Merges(cells, a, b) && Separate(Requests(cells))
    ensures Placed(a, b)
  {
    forall r: nat, c: nat | Shown(a, b, r, c) ensures 0 < Place(r, c) < CELLS {
      var k := ShownHasCell(cells, a, b, r, c);
    }
    forall r: nat, c: nat, r': nat, c': nat | Shown(a, b, r, c) && Shown(a, b, r', c') && (r != r' || c != c')
      ensures Place(r, c) != Place(r', c')
    {
      var k := ShownHasCell(cells, a, b, r, c);
      var k' := ShownHasCell(cells, a, b, r', c');
      assert k != k';
    }
  }

  /** Frames of at most 80 columns whose last place is on the screen are placed. */
  lemma NarrowIsPlaced(a: seq<seq<byte>>, b: seq<seq<byte>>)
    requires forall r: nat, c: nat :: Shown(a, b, r, c) ==> c < COLUMNS && r * COLUMNS + c + OFFSET < CELLS
    ensures Placed(a, b)
  {
    forall r: nat, c: nat | Shown(a, b, r, c) ensures Place(r, c) == r * COLUMNS + c + OFFSET {
      Remainder(0, 0x10000, r * COLUMNS + c + OFFSET, r * COLUMNS + c + OFFSET);
    }
    forall r: nat, c: nat, r': nat, c': nat | Shown(a, b, r, c) && Shown(a, b, r', c') && (r != r' || c != c')
      ensures r * COLUMNS + c != r' * COLUMNS + c'
    {
      Remainder(r, COLUMNS, c, r * COLUMNS + c);
      Remainder(r', COLUMNS, c', r' * COLUMNS + c');
    }
  }

  /** In a wider row a character falls on the place of one in the next row. */
  lemma WideRowCollides(a: seq<seq<byte>>, b: seq<seq<byte>>, r: nat, c: nat)
    requires Shown(a, b, r, c + COLUMNS) && Shown(a, b, r + 1, c)
    ensures !Placed(a, b)
  {
    assert Place(r, c + COLUMNS) == Place(r + 1, c);
  }

  // ----- adding them all

  function UserOf(r: Request): Blinker
    requires r.location < 0x10000 && r.onLength < 0x10000 && r.offLength < 0x10000
  {
    Blinker(r.location, r.on, r.off, r.onLength, r.offLength, 0, false)
  }

  function Users(issued: seq<Request>): (users: seq<Blinker>)
    requires forall k :: 0 <= k < |issued| ==>
      issued[k].location < 0x10000 && issued[k].onLength < 0x10000 && issued[k].offLength < 0x10000
    ensures |users| == |issued|
  {
    seq(|issued|, k requires 0 <= k < |issued| => UserOf(issued[k]))
  }

  /** The list after adding them in order: the last one is in front. */
  function Added(users: seq<Blinker>): (nodes: seq<Blinker>)
    ensures |nodes| == |users|
  {
    seq(|users|, i requires 0 <= i < |users| => Started(users[|users| - 1 - i]))
  }

  ghost predicate OwnPlaces(users: seq<Blinker>) {
    (forall k :: 0 <= k < |users| ==> 0 < users[k].location < CELLS) && Distinct(users)
  }

  /** The numbers from 1 to n. */
  function UpTo(n: nat): (r: set<int>)
    ensures |r| == n && forall x :: x in r <==> 0 < x <= n
  {
    if n == 0 then {} else UpTo(n - 1) + {n}
  }

  lemma SubsetSize(a: set<int>, b: set<int>)
    requires a <= b
    ensures |a| <= |b|
  {
    assert b == a + (b - a) && a * (b - a) == {};
  }

  /** So many have room in the pool. */
  lemma OwnPlacesFit(users: seq<Blinker>)
    requires OwnPlaces(users)
    ensures |users| < CELLS
  {
    var places := seq(|users|, k requires 0 <= k < |users| => users[k].location as int);
    DistinctSet(places);
    SubsetSize((set p | p in places), UpTo(CELLS - 1));
  }

  /** The screen while they are being added: every one added shows its on character. */
  ghost predicate FirstShown(was: seq<byte>, now: seq<byte>, users: seq<Blinker>, n: nat) {
    |was| == |now| == PAGE && n <= |users| &&
    (forall k :: 0 <= k < n ==> users[k].location < CELLS && now[2 * users[k].location] == users[k].on) &&
    (forall x :: 0 <= x < PAGE && (forall k :: 0 <= k < n ==> 2 * users[k].location != x) ==> now[x] == was[x])
  }

  lemma FirstShownStep(was: seq<byte>, now: seq<byte>, users: seq<Blinker>, n: nat)
    requires FirstShown(was, now, users, n) && n < |users| && OwnPlaces(users)
    ensures FirstShown(was, Poked(now, users[n].location, users[n].on), users, n + 1)
  {
  }

  lemma AddedMore(users: seq<Blinker>, n: nat)
    requires n < |users|
    ensures Added(users[..n + 1]) == [Started(users[n])] + Added(users[..n])
  {
  }

  /** The ioctl calls, one for each request. */
  method AddAll(list: BlinkList, issued: seq<Request>)
    requires list.Valid() && list.Contents() == [] && Separate(issued)
    requires forall k :: 0 <= k < |issued| ==> issued[k].onLength < 0x10000 && issued[k].offLength < 0x10000
    modifies list, list.pool, list.screen
    ensures list.Valid() && list.Contents() == Added(Users(issued))
    ensures FirstShown(old(list.screen[..]), list.screen[..], Users(issued), |issued|)
  {
    ghost var users, was := Users(issued), list.screen[..];
    OwnPlacesFit(users);
    var i := 0;
    while i < |issued|
      invariant 0 <= i <= |issued| && list.Valid()
      invariant list.Contents() == Added(users[..i])
      invariant FirstShown(was, list.screen[..], users, i)
    {
      AddedMore(users, i);
      FirstShownStep(was, list.screen[..], users, i);
      var _ := list.Add(UserOf(issued[i]));
      i := i + 1;
    }
    assert users[..i] == users;
  }

  // ----- the ticks

  lemma AddedShows(was: seq<byte>, now: seq<byte>, users: seq<Blinker>)
    requires OwnPlaces(users) && FirstShown(was, now, users, |users|)
    ensures Shows(Added(users), now) && Distinct(Added(users))
  {
    var nodes, m := Added(users), |users| - 1;
    forall i | 0 <= i < |nodes| ensures nodes[i].location < CELLS && now[2 * nodes[i].location] == Face(nodes[i]) {
      assert nodes[i] == Started(users[m - i]);
    }
    forall i, j | 0 <= i < j < |nodes| ensures nodes[i].location != nodes[j].location {
      assert nodes[i] == Started(users[m - i]) && nodes[j] == Started(users[m - j]);
    }
  }

  lemma {:induction false} AfterKeepsPlace(b: Blinker, n: nat)
    ensures After(b, n).location == b.location
  {
    if n > 0 {
      AfterKeepsPlace(b, n - 1);
    }
  }

  /** Ticks draw nowhere else. */
  lemma {:induction false} OthersKept(nodes: seq<Blinker>, screen: seq<byte>, n: nat, x: nat)
    requires Shows(nodes, screen) && Distinct(nodes) && x < PAGE
    requires forall i :: 0 <= i < |nodes| ==> 2 * nodes[i].location != x
    ensures ScreenAfter(screen, nodes, n)[x] == screen[x]
  {
    hide Drawn, Face, OnScreen, Tick;
    if n > 0 {
      OthersKept(nodes, screen, n - 1, x);
      RunShows(nodes, screen, n - 1);
      var mid := AllAfter(nodes, n - 1);
      forall i | 0 <= i < |mid| ensures 2 * mid[i].location != x {
        NodeAfter(nodes, n - 1, i);
        AfterKeepsPlace(nodes[i], n - 1);
      }
      DrawnAt(ScreenAfter(screen, nodes, n - 1), mid, x);
    }
  }

  method TickAway(list: BlinkList, n: nat)
    requires list.Valid() && OnScreen(list.Contents())
    modifies list.pool, list.screen
    ensures list.Valid() && list.Contents() == AllAfter(old(list.Contents()), n)
    ensures list.screen[..] == ScreenAfter(old(list.screen[..]), old(list.Contents()), n)
  {
    ghost var nodes, screen := list.Contents(), list.screen[..];
    for i := 0 to n
      invariant list.Valid() && list.Contents() == AllAfter(nodes, i)
      invariant list.screen[..] == ScreenAfter(screen, nodes, i)
    {
      list.Tasklet();
    }
  }

  /** The frame that is on after n ticks. */
  function FrameAt(a: seq<seq<byte>>, b: seq<seq<byte>>, n: nat): seq<seq<byte>> {
    if n % 30 < 15 then a else b
  }

  /** The screen shows one frame, wherever either of them shows something, and else what
      it showed before. */
  ghost predicate ShowsFrame(was: seq<byte>, now: seq<byte>, a: seq<seq<byte>>, b: seq<seq<byte>>,
                             frame: seq<seq<byte>>) {
    |was| == |now| == PAGE && Placed(a, b) &&
    (forall r: nat, c: nat :: Shown(a, b, r, c) ==>
       Place(r, c) == (80 * r + c + 40) % 0x1_0000 && now[2 * Place(r, c)] == CharAt(frame, r, c)) &&
    (forall x :: 0 <= x < PAGE && (forall r: nat, c: nat :: Shown(a, b, r, c) ==> 2 * Place(r, c) != x) ==>
       now[x] == was[x])
  }

  lemma CellPhase(was: seq<byte>, screen: seq<byte>, cells: seq<Cell>, a: seq<seq<byte>>, b: seq<seq<byte>>, n: nat,
                  r: nat, c: nat)
    requires Merges(cells, a, b) && OwnPlaces(Users(Requests(cells))) && Shown(a, b, r, c) && Place(r, c) < CELLS
    requires FirstShown(was, screen, Users(Requests(cells)), |cells|)
    ensures Shows(Added(Users(Requests(cells))), screen)
    ensures ScreenAfter(screen, Added(Users(Requests(cells))), n)[2 * Place(r, c)] == CharAt(FrameAt(a, b, n), r, c)
  {
    hide ScreenAfter, Distinct;
    var users := Users(Requests(cells));
    AddedShows(was, screen, users);
    var k := ShownHasCell(cells, a, b, r, c);
    SeenByPhase(Added(users), screen, |users| - 1 - k, users[k], n);
  }

  lemma OtherBytes(was: seq<byte>, screen: seq<byte>, cells: seq<Cell>, a: seq<seq<byte>>, b: seq<seq<byte>>, n: nat,
                   x: nat)
    requires Merges(cells, a, b) && OwnPlaces(Users(Requests(cells))) && x < PAGE
    requires FirstShown(was, screen, Users(Requests(cells)), |cells|)
    requires forall r: nat, c: nat :: Shown(a, b, r, c) ==> 2 * Place(r, c) != x
    ensures Shows(Added(Users(Requests(cells))), screen)
    ensures ScreenAfter(screen, Added(Users(Requests(cells))), n)[x] == was[x]
  {
    hide ScreenAfter, Shows, Distinct, Merges, Shown, Place;
    var users := Users(Requests(cells));
    AddedShows(was, screen, users);
    forall k | 0 <= k < |users| ensures 2 * users[k].location != x {
      CellIsShown(cells, a, b, k);
    }
    forall i | 0 <= i < |users| ensures 2 * Added(users)[i].location != x {
      assert Added(users)[i] == Started(users[|users| - 1 - i]);
    }
    OthersKept(Added(users), screen, n, x);
  }

  lemma FramesAlternate(was: seq<byte>, screen: seq<byte>, cells: seq<Cell>, a: seq<seq<byte>>, b: seq<seq<byte>>,
                        n: nat)
    requires Merges(cells, a, b) && Placed(a, b) && OwnPlaces(Users(Requests(cells)))
    requires FirstShown(was, screen, Users(Requests(cells)), |cells|)
    ensures Shows(Added(Users(Requests(cells))), screen)
    ensures ShowsFrame(was, ScreenAfter(screen, Added(Users(Requests(cells))), n), a, b, FrameAt(a, b, n))
  {
    hide ScreenAfter, Merges, Shown, CharAt, OwnPlaces, Added;
    var users := Users(Requests(cells));
    AddedShows(was, screen, users);
    var now := ScreenAfter(screen, Added(users), n);
    forall r: nat, c: nat | Shown(a, b, r, c) ensures now[2 * Place(r, c)] == CharAt(FrameAt(a, b, n), r, c) {
      CellPhase(was, screen, cells, a, b, n, r, c);
    }
    forall x | 0 <= x < PAGE && (forall r: nat, c: nat :: Shown(a, b, r, c) ==> 2 * Place(r, c) != x)
      ensures now[x] == was[x]
    {
      OtherBytes(was, screen, cells, a, b, n, x);
    }
  }

  /** From an empty list: reads both files, adds what they show and ticks n times.  If the
      frames are placed, the screen then shows the first frame in the first 15 of every 30
      ticks and the second in the rest. */
  method Play(f0: Stream, f1: Stream, list: BlinkList, n: nat)
    requires f0 != f1 && f0.Valid() && f1.Valid() && f0.pos == 0 && f1.pos == 0
    requires list.Valid() && list.Contents() == [] && Placed(Rows(f0.content), Rows(f1.content))
    modifies f0, f1, list, list.pool, list.screen
    ensures list.Valid()
    ensures var a, b := Rows(f0.content), Rows(f1.content);
            ShowsFrame(old(list.screen[..]), list.screen[..], a, b, FrameAt(a, b, n))
  {
    ghost var a, b, was := Rows(f0.content), Rows(f1.content), list.screen[..];
    var issued;
    ghost var cells;
    issued, cells := AddFrames(f0, f1);
    SeparateIff(cells, a, b);
    AddAll(list, issued);
    FramesAlternate(was, list.screen[..], cells, a, b, n);
    TickAway(list, n);
  }
}
