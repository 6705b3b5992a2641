/** The virtual clock: one hardware clock of 1024 Hz, divided per terminal by the
    frequency of the process that runs there. */
module Rtc {
  import opened Arithmetic
  import opened Bytes
  import P = Processes

  /** Per terminal: the ticks counted, and whether a read is blocked. */
  datatype Clocks = Clocks(counts: seq<nat>, waits: seq<bool>)

  /** A tick sees the active process of every terminal and the frequency of every
      process; Wait(t) is the start of a read on terminal t. */
  datatype Event = Tick(active: seq<int>, freqs: seq<int>) | Wait(t: int)

  ghost predicate ClocksOk(c: Clocks) { |c.counts| == NUM_TERMS && |c.waits| == NUM_TERMS }

  ghost predicate EventOk(e: Event) {
    match e
    case Tick(active, freqs) =>
      |active| == NUM_TERMS && P.RtcOk(freqs) && forall t :: 0 <= t < NUM_TERMS ==> 0 <= active[t] < P.MAX_PID
    case Wait(t) => 0 <= t < NUM_TERMS
  }

  /** The number of ticks between two wake-ups. */
  function Period(freq: int): (p: nat)
    requires P.MIN_VIR_FREQ <= freq <= P.MAX_VIR_FREQ
    ensures p > 0
  {
    P.MAX_VIR_FREQ / freq
  }

  /** The frequency at which a tick serves terminal t. */
  function FreqAt(e: Event, t: int): int
    requires EventOk(e) && e.Tick? && 0 <= t < NUM_TERMS
  {
    e.freqs[e.active[t]]
  }

  function Step(c: Clocks, e: Event): (r: Clocks)
    requires ClocksOk(c) && EventOk(e)
    ensures ClocksOk(r)
  {
    match e
    case Tick(_, _) =>
      Clocks(seq(NUM_TERMS, t requires 0 <= t < NUM_TERMS => c.counts[t] + 1),
             seq(NUM_TERMS, t requires 0 <= t < NUM_TERMS =>
                   c.waits[t] && !Wakes(c.counts[t], FreqAt(e, t))))
    case Wait(t) => c.(waits := c.waits[t := true])
  }

  function Run(c: Clocks, es: seq<Event>): (r: Clocks)
    requires ClocksOk(c) && forall k :: 0 <= k < |es| ==> EventOk(es[k])
    ensures ClocksOk(r)
  {
    if es == [] then c else Step(Run(c, es[..|es| - 1]), es[|es| - 1])
  }

  function Ticks(es: seq<Event>): (n: nat)
    ensures n <= |es|
  {
    if es == [] then 0 else Ticks(es[..|es| - 1]) + if es[|es| - 1].Tick? then 1 else 0
  }

  /** Whatever else happens, terminal t runs at frequency freq and starts no read. */
  ghost predicate Steady(es: seq<Event>, t: int, freq: int) {
    0 <= t < NUM_TERMS && forall k :: 0 <= k < |es| ==>
      EventOk(es[k]) && if es[k].Tick? then FreqAt(es[k], t) == freq else es[k].t != t
  }

  // ----- wake points

  /** How many of the next n counts after c are multiples of p. */
  function WakePoints(c: nat, n: nat, p: nat): nat
    requires p > 0
  {
    if n == 0 then 0 else WakePoints(c, n - 1, p) + if (c + n) % p == 0 then 1 else 0
  }

  lemma {:induction false} WakePointsCount(c: nat, n: nat, p: nat)
    requires p > 0
    ensures WakePoints(c, n, p) == (c + n) / p - c / p
  {
    if n > 0 {
      WakePointsCount(c, n - 1, p);
      NextRemainder(c + n - 1, p);
      assert c + n - 1 + 1 == c + n;
    }
  }

  /** Any n ticks hold n / p wake points, rounded down or up, wherever they start. */
  lemma WakePointsRounded(c: nat, n: nat, p: nat)
    requires p > 0
    ensures n / p <= WakePoints(c, n, p) <= n / p + if n % p == 0 then 0 else 1
  {
    WakePointsCount(c, n, p);
    SumOfQuotients(c, n, p);
  }

  lemma SumOfQuotients(c: nat, n: nat, p: nat)
    requires p > 0
    ensures (c + n) / p == c / p + n / p + if c % p + n % p >= p then 1 else 0
  {
    var a, b := c / p, n / p;
    assert c == a * p + c % p && n == b * p + n % p;
    assert a * p + b * p == (a + b) * p;
    if c % p + n % p >= p {
      assert (a + b + 1) * p == (a + b) * p + p;
      Remainder(a + b + 1, p, c % p + n % p - p, c + n);
    } else {
      Remainder(a + b, p, c % p + n % p, c + n);
    }
  }

  ghost predicate Divides(a: int, b: int) { exists k :: a * k == b }

  /** Every window of n ticks holds exactly freq wake points. */
  ghost predicate MetExactly(freq: int, p: nat, n: nat)
    requires p > 0
  {
    forall c: nat :: WakePoints(c, n, p) == freq
  }

  lemma EvenWindows(freq: int, p: nat, n: nat)
    requires 0 < freq <= n && p == n / freq && p > 0 && Divides(freq, n)
    ensures MetExactly(freq, p, n)
  {
    var k :| freq * k == n;
    Remainder(k, freq, 0, n);
    Remainder(freq, p, 0, n);
    forall c: nat ensures WakePoints(c, n, p) == freq {
      WakePointsCount(c, n, p);
      SumOfQuotients(c, n, p);
    }
  }

  lemma Windows(freq: int, p: nat, n: nat)
    requires freq > 0 && p > 0 && MetExactly(freq, p, n)
    ensures freq * p == n
  {
    assert WakePoints(0, n, p) == WakePoints(p - 1, n, p) == freq;
    WakePointsCount(0, n, p);
    WakePointsCount(p - 1, n, p);
    SumOfQuotients(p - 1, n, p);
    Remainder(0, p, p - 1, p - 1);
    Remainder(0, p, 0, 0);
  }

  /** A frequency is met exactly, in every window of one second, if and only if it
      divides 1024. */
  lemma ExactFrequencyIff(freq: int)
    requires P.MIN_VIR_FREQ <= freq <= P.MAX_VIR_FREQ
    ensures MetExactly(freq, 1024 / freq, 1024) <==> Divides(freq, 1024)
  {
    ExactIff(freq, Period(freq), P.MAX_VIR_FREQ);
  }

  lemma ExactIff(freq: int, p: nat, n: nat)
    requires 0 < freq <= n && p == n / freq && p > 0
    ensures MetExactly(freq, p, n) <==> Divides(freq, n)
  {
    if Divides(freq, n) {
      EvenWindows(freq, p, n);
    }
    if MetExactly(freq, p, n) {
      Windows(freq, p, n);
    }
  }

  // ----- a blocked read

  /** Under any interleaving, terminal t counts every tick and its wait ends with the
      first wake point. */
  lemma {:induction false} WaitEndsAtWakePoint(c: Clocks, es: seq<Event>, t: int, freq: int)
    requires ClocksOk(c) && P.MIN_VIR_FREQ <= freq <= P.MAX_VIR_FREQ && Steady(es, t, freq)
    ensures var r, n := Run(c, es), Ticks(es);
            r.counts[t] == c.counts[t] + n &&
            (r.waits[t] <==> c.waits[t] && WakePoints(c.counts[t], n, Period(freq)) == 0)
  {
    if es != [] {
      var init, last := es[..|es| - 1], es[|es| - 1];
      assert last == es[|es| - 1];
      WaitEndsAtWakePoint(c, init, t, freq);
    }
  }

  /** A read that blocks is woken after at most one period: it still waits after n ticks
      exactly while n is short of the next multiple of the period. */
  lemma ReadWakesWithinPeriod(c: Clocks, es: seq<Event>, t: int, freq: int)
    requires ClocksOk(c) && P.MIN_VIR_FREQ <= freq <= P.MAX_VIR_FREQ && Steady(es, t, freq)
    ensures var p := 1024 / freq;
            Run(Step(c, Wait(t)), es).waits[t] <==> Ticks(es) < p - c.counts[t] % p
  {
    var s, n, p := Step(c, Wait(t)), Ticks(es), Period(freq);
    WaitEndsAtWakePoint(s, es, t, freq);
    WakePointsCount(c.counts[t], n, p);
    SumOfQuotients(c.counts[t], n, p);
    if n < p {
      Remainder(0, p, n, n);
    } else {
      assert n / p >= 1;
    }
  }

  // ----- the driver

  datatype Cursor = Keep | Put | Remove

  class Driver {
    const counts: array<nat>
    const waits: array<bool>
    var count: nat

    ghost predicate Valid()
      reads this
    {
      counts.Length == NUM_TERMS && waits.Length == NUM_TERMS
    }

    ghost function State(): Clocks
      reads this, counts, waits
    {
      Clocks(counts[..], waits[..])
    }

    constructor ()
      ensures Valid() && State() == Clocks([0, 0, 0], [false, false, false]) && count == 1
      ensures fresh(counts) && fresh(waits)
    {
      counts := new nat[] [0, 0, 0];
      waits := new bool[] [false, false, false];
      count := 1;
    }

    /** One hardware tick: every terminal counts it, its blocked read may end, and the
        cursor comes and goes once a second. */
    method Handler(active: array<int>, processRtc: array<int>) returns (cursor: Cursor)
      requires Valid() && EventOk(Tick(active[..], processRtc[..]))
      modifies this, counts, waits
      ensures Valid() && State() == Step(old(State()), Tick(old(active[..]), old(processRtc[..])))
      ensures count == old(count) + 1
      ensures cursor.Put? <==> count % 1024 == 0
      ensures cursor.Remove? <==> count % 1024 == 512
    {
      count := count + 1;
      for i := 0 to NUM_TERMS
        invariant count == old(count) + 1
        invariant forall t :: 0 <= t < NUM_TERMS ==>
          counts[t] == if t < i then old(counts[t]) + 1 else old(counts[t])
        invariant forall t :: 0 <= t < NUM_TERMS ==>
          waits[t] == (old(waits[t]) && (t < i ==> !Wakes(old(counts[t]), old(processRtc[active[t]]))))
      {
        var freq := processRtc[active[i]];
        counts[i] := counts[i] + 1;
        if counts[i] % (P.MAX_VIR_FREQ / freq) == 0 {
          waits[i] := false;
        }
      }
      cursor := Keep;
      if count % P.MAX_VIR_FREQ == 0 {
        cursor := Put;
      }
      if count % (P.MAX_VIR_FREQ / 2) == 0 && count % P.MAX_VIR_FREQ != 0 {
        cursor := Remove;
      }
    }

    /** A read on terminal t while nothing else happens but ticks: it blocks for the
        rest of the current period, at least one tick and at most a whole period. */
    method Read(t: int, active: array<int>, processRtc: array<int>) returns (ghost ticks: nat, r: int)
      requires Valid() && active != processRtc && EventOk(Tick(active[..], processRtc[..])) && 0 <= t < NUM_TERMS
      modifies this, counts, waits
      ensures Valid() && r == 0 && !waits[t]
      ensures var p := 1024 / processRtc[active[t]];
              ticks == p - old(counts[t]) % p && counts[t] == old(counts[t]) + ticks && 1 <= ticks <= p
    {
      waits[t] := true;
      ticks, r := 0, 0;
      ghost var p := Period(processRtc[active[t]]);
      ghost var c := counts[t];
      while waits[t]
        invariant Valid() && EventOk(Tick(active[..], processRtc[..])) && p == Period(processRtc[active[t]])
        invariant counts[t] == c + ticks && ticks <= p - c % p && (waits[t] <==> ticks < p - c % p)
        decreases p - ticks
      {
        ReadStep(c, ticks, p);
        var _ := Handler(active, processRtc);
        ticks := ticks + 1;
      }
    }
  }

  /** Does the tick after count c wake a read at this frequency? */
  predicate Wakes(c: nat, freq: int)
    requires P.MIN_VIR_FREQ <= freq <= P.MAX_VIR_FREQ
  {
    (c + 1) % Period(freq) == 0
  }

  lemma ReadStep(c: nat, ticks: nat, p: nat)
    requires p > 0 && ticks < p - c % p
    ensures (c + ticks + 1) % p == 0 <==> ticks + 1 == p - c % p
  {
    assert c == (c / p) * p + c % p;
    if ticks + 1 == p - c % p {
      assert (c / p + 1) * p == (c / p) * p + p;
      Remainder(c / p + 1, p, 0, c + ticks + 1);
    } else {
      Remainder(c / p, p, c % p + ticks + 1, c + ticks + 1);
    }
  }
}
