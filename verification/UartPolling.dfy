/**
 Polling does not matter: whatever the moments at which the receiver looks at its queue and at its clock,
 closing pending frames with faux stop bits in between, it decodes the same as a receiver that sees every edge in
 order, except for the two things that `Timely` names: an edge overtaken by a faux stop bit, and a gap that no
 poll has closed and that the eight bits the receiver measures gaps with take for another.
 Time is unbounded here; the receiver only has its low 32 bits.
 */
module UartPolling {
  import opened CInt
  import opened UartFrame
  import opened UartReceive
  import RingIndex

  /** An edge to a logical level, or a poll that looks at its clock, at a cycle. Of the edges that have come
      since the last poll, the last `late` came after the poll had looked at the queue. */
  datatype Event = Edge(cycle: nat, level: bool) | Poll(cycle: nat, late: nat)

  function EdgeStamp(c: Config, e: Event): int
    requires e.Edge?
  {
    Stamp(e.cycle, e.level != c.invert)
  }

  function EdgeStamps(c: Config, events: seq<Event>): seq<int> {
    if events == [] then []
    else (if events[0].Edge? then [EdgeStamp(c, events[0])] else []) + EdgeStamps(c, events[1..])
  }

  /** The events happen in time order, none before `floor`. */
  predicate InOrder(floor: nat, events: seq<Event>)
    decreases |events|
  {
    events == [] || (floor <= events[0].cycle && InOrder(events[0].cycle, events[1..]))
  }

  function Low32(stamps: seq<int>): (r: seq<int>)
    ensures |r| == |stamps|
  {
    if stamps == [] then [] else [U32(stamps[0])] + Low32(stamps[1..])
  }

  /** How many of the queued edges a poll sees when it looks at the queue. */
  function Seen(queued: nat, late: nat): (n: nat)
    ensures n <= queued
  {
    if late <= queued then queued - late else 0
  }

  /** The receiver through a run: the interrupt routine queues edges, as far as there is room, a poll decodes the
      queue. */
  function DeviceRun(c: Config, capacity: nat, s: RxState, queue: seq<int>, events: seq<Event>): (r: (RxState, seq<int>))
    requires StateValid(c, s)
    ensures StateValid(c, r.0)
    decreases |events|
  {
    if events == [] then (s, queue)
    else match events[0]
      case Edge(_, _) =>
        var stamp := U32(EdgeStamp(c, events[0]));
        DeviceRun(c, capacity, s, if |queue| < capacity then queue + [stamp] else queue, events[1..])
      case Poll(now, late) =>
        var seen := Seen(|queue|, late);
        DeviceRun(c, capacity, PollStep(c, s, queue[..seen], queue[seen..], U32(now)), [], events[1..])
  }

  /** Between two polls there come no more edges than the queue has room for. */
  predicate Roomy(capacity: nat, queued: nat, events: seq<Event>)
    decreases |events|
  {
    events == [] ||
    match events[0]
    case Edge(_, _) => queued < capacity && Roomy(capacity, queued + 1, events[1..])
    case Poll(_, _) => Roomy(capacity, 0, events[1..])
  }

  /** The reference: every edge decoded in order, on unbounded time. */
  function Track(c: Config, s: RxState, stamps: seq<int>): (s': RxState)
    requires StateValid(c, s)
    ensures StateValid(c, s')
    decreases |stamps|
  {
    if stamps == [] then s else Track(c, TrackEdge(c, s, stamps[0]), stamps[1..])
  }

  function TrackEdge(c: Config, s: RxState, stamp: int): (s': RxState)
    requires StateValid(c, s)
    ensures StateValid(c, s')
  {
    RxState(stamp, RunStep(c.n, s.rx, Level(c, s.last), NearestBits(stamp - s.last, c.bitCycles)))
  }

  /** The number of bit times in a span, rounded to the nearest. */
  function NearestBits(cycles: int, bitCycles: nat): nat
    requires bitCycles > 0
  {
    if cycles < 0 then 0 else cycles / bitCycles + (if cycles % bitCycles > bitCycles / 2 then 1 else 0)
  }

  /** Up to 255 bit times and a half, eight bits are enough for that. */
  lemma EightBitsEnough(cycles: int, bitCycles: nat)
    requires bitCycles > 0 && 0 <= cycles <= 255 * bitCycles + bitCycles / 2
    ensures RoundedBits(cycles, bitCycles) == NearestBits(cycles, bitCycles)
  {
    QuotientFits(cycles / bitCycles, cycles % bitCycles, bitCycles);
  }

  lemma QuotientFits(q: nat, r: nat, m: nat)
    requires r < m && q * m + r <= 255 * m + m / 2
    ensures q <= 255 && (q == 255 ==> r <= m / 2)
  {
    if q > 255 {
      RingIndex.AtLeast(q - 255, m);
      RingIndex.Distribute(q, 255, m);
    }
  }

  /** Runs of `k` and of `m` bits of one level, decoded at once, come to the same. */
  predicate SameRun(n: nat, r: Rx, level: bool, k: nat, m: nat)
    requires RxValid(n, r)
  {
    if r.curBit < n then Min(k, n - r.curBit) == Min(m, n - r.curBit)
    else
      || level
      || Min(k, n + 2) == Min(m, n + 2)
      || (r.curByte == 0 && Min(k, n + 2) in {0, n + 2} && Min(m, n + 2) in {0, n + 2})
  }

  /** The receiver, with 32 bits of the clock and eight of the gap, decodes the gap before the stamp right. */
  predicate SpanOk(c: Config, s: RxState, stamp: int)
    requires StateValid(c, s)
  {
    SameRun(c.n, s.rx, Level(c, s.last),
            RoundedBits(S32(stamp - s.last), c.bitCycles), NearestBits(stamp - s.last, c.bitCycles))
  }

  /** So it does with gaps of up to 255 bit times and a half, and with those that it ignores: idle with no frame
      pending. */
  predicate ShortSpan(c: Config, s: RxState, stamp: int)
    requires StateValid(c, s)
  {
    || (s.rx.curBit == c.n && Level(c, s.last))
    || 0 <= stamp - s.last <= 255 * c.bitCycles + c.bitCycles / 2
  }

  lemma ShortSpanOk(c: Config, s: RxState, stamp: int)
    requires StateValid(c, s) && ShortSpan(c, s, stamp)
    ensures SpanOk(c, s, stamp)
  {
    hide RoundedBits, NearestBits, S32;
    if !(s.rx.curBit == c.n && Level(c, s.last)) {
      SmallDifference(stamp - s.last);
      EightBitsEnough(stamp - s.last, c.bitCycles);
    }
  }

  /** The gaps before the stamps are fine, that before the first also if its frame is closed. */
  predicate SpansOk(c: Config, s: RxState, closed: bool, stamps: seq<int>)
    requires StateValid(c, s)
    decreases |stamps|
  {
    stamps == []
    || ((closed || SpanOk(c, s, stamps[0])) && SpansOk(c, TrackEdge(c, s, stamps[0]), false, stamps[1..]))
  }

  lemma LowDifference(a: int, b: int)
    ensures S32(U32(a) - U32(b)) == S32(a - b)
  {
  }

  lemma LowParity(a: int)
    ensures U32(a) % 2 == a % 2
  {
  }

  lemma SmallDifference(x: int)
    requires -TWO_31 <= x < TWO_31
    ensures S32(x) == x
  {
  }

  /** How many bits of a run count while a frame is pending. */
  lemma PendingRun(n: nat, r: Rx, level: bool, k: nat)
    requires RxValid(n, r) && r.curBit < n
    ensures RunStep(n, r, level, k) == RunStep(n, r, level, Min(k, n - r.curBit))
    ensures RunStep(n, r, level, k).curBit == r.curBit + Min(k, n - r.curBit)
  {
    hide RunStep;
    if k < n - r.curBit {
      StillReceiving(n, r, level, k);
    } else {
      BeyondFrame(n, r, level, k);
      ClosedIsIdle(n, r, level);
    }
  }

  /** And how many low bits do from idle. */
  lemma LowIdleRun(n: nat, r: Rx, k: nat)
    requires RxValid(n, r) && r.curBit == n
    ensures var m, r' := Min(k, n + 2), RunStep(n, r, false, k);
      && r' == RunStep(n, r, false, m)
      && (if m == 0 then r' == r else if m == n + 2 then r' == Rx(n, 0, r.out) else r'.curBit == m - 2)
  {
    hide BitSteps;
    var m := Min(k, n + 2);
    if m == 0 {
      RunNone(n, r, false);
    } else if m == n + 2 {
      LowFrame(n, r);
    } else {
      LowRun(n, r, m);
    }
  }

  lemma SameRunIs(n: nat, r: Rx, level: bool, k: nat, m: nat)
    requires RxValid(n, r)
    ensures RunStep(n, r, level, k) == RunStep(n, r, level, m) <==> SameRun(n, r, level, k, m)
  {
    hide RunStep;
    if r.curBit < n {
      PendingRun(n, r, level, k);
      PendingRun(n, r, level, m);
    } else if level {
      RunIdleHigh(n, r, k);
      RunIdleHigh(n, r, m);
    } else {
      LowIdleRun(n, r, k);
      LowIdleRun(n, r, m);
    }
  }

  /** MAIN (gaps): the receiver, level with the reference before an edge, is so after it exactly when it decodes the
      gap right: when the gap that it measures, modulo 32 bits of the clock and 8 of the gap, counts as many bits
      in the pending frame as the gap there was. */
  lemma EdgeAgreesExactly(c: Config, s: RxState, t: RxState, stamp: int)
    requires StateValid(c, s) && StateValid(c, t) && s == RxState(U32(t.last), t.rx)
    ensures OnEdge(c, s, U32(stamp)) == RxState(U32(stamp), TrackEdge(c, t, stamp).rx) <==> SpanOk(c, t, stamp)
  {
    hide RunStep, RoundedBits, NearestBits, SameRun;
    LowDifference(stamp, t.last);
    LowParity(t.last);
    SameRunIs(c.n, t.rx, Level(c, t.last), RoundedBits(S32(stamp - t.last), c.bitCycles),
              NearestBits(stamp - t.last, c.bitCycles));
  }

  /** A gap of 256 bit times behind a byte of ones that no poll has closed: the receiver does not move, and the byte
      is lost with the next start bit. One of 300 is decoded right. */
  lemma LongGapLosesByte()
    ensures
      var c, s := Config(8, false, 100), RxState(1, Rx(-1, 0, []));
      && OnEdge(c, s, 25600).rx == s.rx && TrackEdge(c, s, 25600).rx.out == [0xFF]
      && !SpanOk(c, s, 25600) && SpanOk(c, s, 30000) && !ShortSpan(c, s, 30000)
  {
    hide RunStep, SameRun, TrackEdge, OnEdge;
    var c, s := Config(8, false, 100), RxState(1, Rx(-1, 0, []));
    LongGapBits();
    assert OnEdge(c, s, 25600).rx == RunStep(8, s.rx, true, 0) by { GapDecoded(25600, 0); }
    RunNone(8, s.rx, true);
    assert TrackEdge(c, s, 25600).rx == RunStep(8, s.rx, true, 256) by { GapTracked(); }
    BeyondFrame(8, s.rx, true, 256);
    OnesDelivered();
    assert U32(1) == 1 && U32(25600) == 25600;
    EdgeAgreesExactly(c, s, s, 25600);
    assert SpanOk(c, s, 30000) by { LongGapRight(); }
  }

  lemma LongGapBits()
    ensures RoundedBits(25599, 100) == 0 && NearestBits(25599, 100) == 256
    ensures RoundedBits(29999, 100) == 44 && NearestBits(29999, 100) == 300
  {
  }

  lemma GapDecoded(stamp: nat, k: nat)
    requires stamp < TWO_31 && stamp > 0 && RoundedBits(stamp - 1, 100) == k
    ensures OnEdge(Config(8, false, 100), RxState(1, Rx(-1, 0, [])), stamp).rx == RunStep(8, Rx(-1, 0, []), true, k)
  {
    hide RunStep, RoundedBits;
    SmallDifference(stamp - 1);
  }

  lemma GapTracked()
    ensures TrackEdge(Config(8, false, 100), RxState(1, Rx(-1, 0, [])), 25600).rx == RunStep(8, Rx(-1, 0, []), true, 256)
  {
    hide RunStep;
    LongGapBits();
  }

  lemma LongGapRight()
    ensures SpanOk(Config(8, false, 100), RxState(1, Rx(-1, 0, [])), 30000)
  {
    LongGapBits();
    SmallDifference(29999);
  }

  lemma OnesDelivered()
    ensures RunStep(8, Rx(-1, 0, []), true, 9).out == [0xFF]
  {
    hide BitSteps, Shift;
    DataRun(8, Rx(-1, 0, []), true, 8);
    BitStepsRep(8, Rx(-1, 0, []), true, 8, 1);
    assert Rep(true, 1) == [true];
    BitStepsOne(8, Rx(7, Shift(0, 8, true), []), true);
    ShiftEight();
    assert (0xFF as bv8) >> (0 as nat) == 0xFF;
  }

  lemma ShiftEight()
    ensures Shift(0, 8, true) == 0xFF
  {
  }

  lemma EdgeAgrees(c: Config, s: RxState, t: RxState, stamp: int)
    requires StateValid(c, s) && StateValid(c, t) && s == RxState(U32(t.last), t.rx) && SpanOk(c, t, stamp)
    ensures OnEdge(c, s, U32(stamp)) == RxState(U32(stamp), TrackEdge(c, t, stamp).rx)
  {
    hide OnEdge, TrackEdge, SpanOk;
    EdgeAgreesExactly(c, s, t, stamp);
  }

  /** The true cycle at which the pending frame ends. */
  function FrameEnd(c: Config, t: RxState): int {
    t.last + (c.n - t.rx.curBit) * c.bitCycles
  }

  /** The state after a faux stop bit at the frame's end. */
  function Closed(c: Config, t: RxState): (s: RxState)
    requires StateValid(c, t) && t.rx.curBit < c.n
    ensures StateValid(c, s)
  {
    RxState(U32(Stamp(FrameEnd(c, t), !c.invert)), RunStep(c.n, t.rx, Level(c, t.last), c.n - t.rx.curBit))
  }

  /** The receiver follows the reference: it is level with it, or has closed the frame that the
      reference still has pending, and then no later edge falls before the frame's end. */
  predicate Follows(c: Config, s: RxState, t: RxState, closed: bool, floor: nat)
    requires StateValid(c, t)
  {
    if closed then t.rx.curBit < c.n && s == Closed(c, t) && FrameEnd(c, t) < floor
    else s == RxState(U32(t.last), t.rx)
  }

  /** A poll whose clock says `now` closes the pending frame, if it saw no edge. */
  predicate Closes(c: Config, t: RxState, now: int)
    requires StateValid(c, t)
  {
    t.rx.curBit < c.n && S32(now - FrameEnd(c, t)) > 0
  }

  /** Is the pending frame closed when a poll turns to the edges? */
  predicate ClosedBy(c: Config, t: RxState, closed: bool, queued: nat, late: nat, now: int)
    requires StateValid(c, t)
  {
    closed || (Seen(queued, late) == 0 && Closes(c, t, now))
  }

  /** The run asks nothing of the receiver that it cannot do: it decodes every gap right whose frame no poll has
      closed; and no poll closes a frame ahead of an edge that comes before the frame's end. */
  predicate Timely(c: Config, t: RxState, closed: bool, queue: seq<int>, events: seq<Event>)
    requires StateValid(c, t)
    decreases |events|
  {
    events == [] ||
    match events[0]
    case Edge(_, _) => Timely(c, t, closed, queue + [EdgeStamp(c, events[0])], events[1..])
    case Poll(now, late) =>
      var closed' := ClosedBy(c, t, closed, |queue|, late, now);
      && SpansOk(c, t, closed', queue)
      && (queue != [] && closed' && !closed ==>
            NearestBits(queue[0] - t.last, c.bitCycles) >= c.n - t.rx.curBit)
      && Timely(c, Track(c, t, queue), queue == [] && closed', [], events[1..])
  }

  /** A run of exactly the bits left in the frame, when rounding allows. */
  lemma RoundsToWhole(k: nat, bitCycles: nat, d: int)
    requires bitCycles >= 3
    requires k * bitCycles + d >= 0 && bitCycles / 2 - bitCycles < d <= bitCycles / 2
    ensures NearestBits(k * bitCycles + d, bitCycles) == k
  {
    if d >= 0 {
      RingIndex.DivModUnique(k * bitCycles + d, bitCycles, k, d);
    } else {
      assert k * bitCycles + d == (k - 1) * bitCycles + (bitCycles + d) by { RingIndex.Distribute(k, 1, bitCycles); }
      RingIndex.DivModUnique(k * bitCycles + d, bitCycles, k - 1, bitCycles + d);
    }
  }

  /** A span of at least `k` bit times rounds to at least `k` bits. */
  lemma RoundsUpFrom(k: nat, bitCycles: nat, cycles: int)
    requires bitCycles >= 3 && k * bitCycles <= cycles
    ensures NearestBits(cycles, bitCycles) >= k
  {
    assert 0 <= k * bitCycles;
    var q, r := cycles / bitCycles, cycles % bitCycles;
    assert cycles == q * bitCycles + r;
    if q < k {
      RingIndex.AtLeast(k - q, bitCycles);
      RingIndex.Distribute(k, q, bitCycles);
    }
  }

  /** The faux edge is the bits left in the frame away, give or take the level bit of its stamp. */
  lemma FauxSpan(c: Config, s: RxState, t: RxState)
    requires StateValid(c, t) && t.rx.curBit < c.n && s == RxState(U32(t.last), t.rx)
    ensures Stamp(ExpectedCycle(c, s), !c.invert) == U32(Stamp(FrameEnd(c, t), !c.invert))
    ensures RoundedBits(S32(U32(Stamp(FrameEnd(c, t), !c.invert)) - s.last), c.bitCycles) == c.n - t.rx.curBit
  {
    hide RoundedBits, NearestBits, S32, U32;
    var k, e := c.n - t.rx.curBit, FrameEnd(c, t);
    var f := Stamp(e, !c.invert);
    LowFrameEnd(c, s, t);
    LowStamp(e, !c.invert);
    LowDifference(f, t.last);
    FrameSpan(k, c.bitCycles);
    assert f - t.last == k * c.bitCycles + (f - e);
    SmallDifference(f - t.last);
    RoundsToWhole(k, c.bitCycles, f - e);
    EightBitsEnough(k * c.bitCycles + (f - e), c.bitCycles);
  }

  /** The faux stop bit closes the frame: it decodes exactly the bits left in it. */
  lemma FauxCloses(c: Config, s: RxState, t: RxState)
    requires StateValid(c, t) && t.rx.curBit < c.n && s == RxState(U32(t.last), t.rx)
    ensures Faux(c, s) == Closed(c, t)
    ensures Closed(c, t).rx.curBit == c.n && Level(c, Closed(c, t).last)
  {
    hide RoundedBits, RunStep, S32, ExpectedCycle, FrameEnd;
    FauxSpan(c, s, t);
    LowParity(t.last);
    LowParity(Stamp(FrameEnd(c, t), !c.invert));
    ClosedIsIdle(c.n, t.rx, Level(c, t.last));
  }

  lemma FrameSpan(k: nat, bitCycles: nat)
    requires 1 <= k <= 9
    ensures bitCycles <= k * bitCycles <= 9 * bitCycles
  {
  }

  lemma LowFrameEnd(c: Config, s: RxState, t: RxState)
    requires StateValid(c, t) && s == RxState(U32(t.last), t.rx)
    ensures ExpectedCycle(c, s) == U32(FrameEnd(c, t))
  {
    hide U32;
    LowSum(t.last, (c.n - t.rx.curBit) * c.bitCycles);
  }

  lemma LowSum(a: int, b: int)
    ensures U32(U32(a) + b) == U32(a + b)
  {
  }

  lemma LowStamp(x: int, lineLevel: bool)
    ensures Stamp(U32(x), lineLevel) == U32(Stamp(x, lineLevel))
  {
  }

  lemma ClosedIsIdle(n: nat, r: Rx, level: bool)
    requires RxValid(n, r) && r.curBit < n
    ensures RunStep(n, r, level, n - r.curBit).curBit == n
  {
    hide BitSteps, Shift;
    var d := n - 1 - r.curBit;
    DataRun(n, r, level, d);
    BitStepsRep(n, r, level, d, 1);
    assert Rep(level, 1) == [level];
    BitStepsOne(n, BitSteps(n, r, Rep(level, d)), level);
  }

  /** Decoding more bits of a run than the frame has left changes nothing. */
  lemma BeyondFrame(n: nat, r: Rx, level: bool, k: nat)
    requires RxValid(n, r) && r.curBit < n && k >= n - r.curBit
    ensures RunStep(n, r, level, k) == RunStep(n, r, level, n - r.curBit)
  {
    hide BitSteps;
    if level {
      var left := n - r.curBit;
      ClosedIsIdle(n, r, true);
      BitStepsRep(n, r, true, left, k - left);
      IdleStays(n, BitSteps(n, r, Rep(true, left)), k - left);
    }
  }

  /** An edge behind the end of a frame already closed brings the receiver level with the reference. */
  lemma ClosedCatchesUp(c: Config, s: RxState, t: RxState, stamp: int)
    requires StateValid(c, s) && StateValid(c, t) && t.rx.curBit < c.n && s == Closed(c, t)
    requires NearestBits(stamp - t.last, c.bitCycles) >= c.n - t.rx.curBit
    ensures OnEdge(c, s, U32(stamp)) == RxState(U32(stamp), TrackEdge(c, t, stamp).rx)
  {
    hide RunStep, RoundedBits, NearestBits;
    FauxCloses(c, RxState(U32(t.last), t.rx), t);
    RunIdleHigh(c.n, s.rx, RoundedBits(S32(U32(stamp) - s.last), c.bitCycles));
    BeyondFrame(c.n, t.rx, Level(c, t.last), NearestBits(stamp - t.last, c.bitCycles));
  }

  lemma {:induction false} FeedCatchesUp(c: Config, s: RxState, t: RxState, closed: bool, stamps: seq<int>)
    requires StateValid(c, s) && StateValid(c, t) && SpansOk(c, t, closed, stamps) && stamps != []
    requires if closed then
        t.rx.curBit < c.n && s == Closed(c, t) && NearestBits(stamps[0] - t.last, c.bitCycles) >= c.n - t.rx.curBit
      else s == RxState(U32(t.last), t.rx)
    ensures var t' := Track(c, t, stamps); Feed(c, s, Low32(stamps)) == RxState(U32(t'.last), t'.rx)
    decreases |stamps|
  {
    hide OnEdge, RunStep, RoundedBits, NearestBits, Closed, FrameEnd, SpanOk;
    if closed { ClosedCatchesUp(c, s, t, stamps[0]); } else { EdgeAgrees(c, s, t, stamps[0]); }
    var s1, t1 := OnEdge(c, s, U32(stamps[0])), TrackEdge(c, t, stamps[0]);
    assert Low32(stamps)[1..] == Low32(stamps[1..]);
    if |stamps| == 1 {
      assert stamps[1..] == [] && Low32(stamps[1..]) == [];
    } else {
      FeedCatchesUp(c, s1, t1, false, stamps[1..]);
    }
  }

  /** What a poll makes of its clock: the frame is closed when its turn has come, and not before its end. */
  lemma ClockFollows(c: Config, s: RxState, t: RxState, closed: bool, polled: nat, seen: nat, now: nat)
    requires StateValid(c, s) && StateValid(c, t) && Follows(c, s, t, closed, polled)
    requires polled <= now && t.last <= polled + 1
    ensures
      var s' := if seen == 0 && FauxDue(c, s, U32(now)) then Faux(c, s) else s;
      Follows(c, s', t, closed || (seen == 0 && Closes(c, t, now)), now)
  {
    hide OnEdge, RunStep, Stamp;
    if closed {
      FauxCloses(c, RxState(U32(t.last), t.rx), t);
    } else if t.rx.curBit < c.n {
      FauxCloses(c, s, t);
      LowFrameEnd(c, s, t);
      LowDifference(now, FrameEnd(c, t));
      FrameSpan(c.n - t.rx.curBit, c.bitCycles);
      if now <= FrameEnd(c, t) { SmallDifference(now - FrameEnd(c, t)); }
    }
  }

  lemma {:induction false} TrackConcat(c: Config, t: RxState, a: seq<int>, b: seq<int>)
    requires StateValid(c, t)
    ensures Track(c, t, a + b) == Track(c, Track(c, t, a), b)
    ensures SpansOk(c, t, false, a + b) <==> SpansOk(c, t, false, a) && SpansOk(c, Track(c, t, a), false, b)
    decreases |a|
  {
    hide TrackEdge, SpanOk;
    if a == [] {
      assert a + b == b;
    } else {
      assert (a + b)[1..] == a[1..] + b;
      TrackConcat(c, TrackEdge(c, t, a[0]), a[1..], b);
    }
  }

  lemma {:induction false} TrackLast(c: Config, t: RxState, stamps: seq<int>)
    requires StateValid(c, t) && stamps != []
    ensures Track(c, t, stamps).last == stamps[|stamps| - 1]
    decreases |stamps|
  {
    if |stamps| == 1 {
      assert stamps[1..] == [];
    } else {
      TrackLast(c, TrackEdge(c, t, stamps[0]), stamps[1..]);
    }
  }

  lemma {:induction false} Low32Snoc(stamps: seq<int>, stamp: int)
    ensures Low32(stamps + [stamp]) == Low32(stamps) + [U32(stamp)]
  {
    if stamps == [] {
      assert [stamp][1..] == [];
    } else {
      assert (stamps + [stamp])[1..] == stamps[1..] + [stamp];
      Low32Snoc(stamps[1..], stamp);
    }
  }

  /** The stamps lie between two cycles, up to the level bit. */
  predicate Within(stamps: seq<int>, from: nat, to: nat) {
    forall i | 0 <= i < |stamps| :: from - 1 <= stamps[i] <= to + 1
  }

  /** What a poll does, whatever part of the queue it has seen. */
  lemma PollIs(c: Config, s: RxState, queue: seq<int>, late: nat, now: nat)
    requires StateValid(c, s)
    ensures
      var seen, low := Seen(|queue|, late), Low32(queue);
      PollStep(c, s, low[..seen], low[seen..], U32(now)) ==
        Feed(c, if seen == 0 && FauxDue(c, s, U32(now)) then Faux(c, s) else s, low)
  {
    hide Feed, Faux, FauxDue;
    var seen, low := Seen(|queue|, late), Low32(queue);
    assert low[..seen] + low[seen..] == low;
  }

  /** A poll, whatever is queued and whatever part of it came late, follows the reference through it. */
  lemma PollFollows(
      c: Config, s: RxState, t: RxState, closed: bool, polled: nat, queue: seq<int>, late: nat, now: nat)
    requires StateValid(c, s) && StateValid(c, t) && Follows(c, s, t, closed, polled)
    requires polled <= now && t.last <= polled + 1 && Within(queue, polled, now)
    requires SpansOk(c, t, ClosedBy(c, t, closed, |queue|, late, now), queue)
    requires queue != [] && ClosedBy(c, t, closed, |queue|, late, now) && !closed ==>
      NearestBits(queue[0] - t.last, c.bitCycles) >= c.n - t.rx.curBit
    ensures
      var seen, low := Seen(|queue|, late), Low32(queue);
      Follows(c, PollStep(c, s, low[..seen], low[seen..], U32(now)), Track(c, t, queue),
              queue == [] && ClosedBy(c, t, closed, |queue|, late, now), now)
    ensures Track(c, t, queue).last <= now + 1
  {
    hide Feed, Faux, FauxDue, Closes, SpansOk, NearestBits, PollStep, Follows, Track, Within, Low32;
    var seen, low := Seen(|queue|, late), Low32(queue);
    PollIs(c, s, queue, late, now);
    ClockFollows(c, s, t, closed, polled, seen, now);
    var s' := if seen == 0 && FauxDue(c, s, U32(now)) then Faux(c, s) else s;
    if queue == [] {
      NothingQueued(c, s', t);
    } else {
      if closed { ClosedSpan(c, s, t, polled, queue, now); }
      QueueFollows(c, s', t, ClosedBy(c, t, closed, |queue|, late, now), polled, queue, now);
    }
  }

  lemma NothingQueued(c: Config, s: RxState, t: RxState)
    requires StateValid(c, s) && StateValid(c, t)
    ensures Feed(c, s, Low32([])) == s && Track(c, t, []) == t
  {
  }

  lemma ClosedSpan(c: Config, s: RxState, t: RxState, polled: nat, queue: seq<int>, now: nat)
    requires StateValid(c, s) && StateValid(c, t) && Follows(c, s, t, true, polled)
    requires queue != [] && Within(queue, polled, now)
    ensures NearestBits(queue[0] - t.last, c.bitCycles) >= c.n - t.rx.curBit
  {
    hide NearestBits, Closed;
    RoundsUpFrom(c.n - t.rx.curBit, c.bitCycles, queue[0] - t.last);
  }

  lemma QueueFollows(c: Config, s: RxState, t: RxState, closed: bool, polled: nat, queue: seq<int>, now: nat)
    requires StateValid(c, s) && StateValid(c, t) && Follows(c, s, t, closed, now)
    requires queue != [] && Within(queue, polled, now) && SpansOk(c, t, closed, queue)
    requires closed ==> NearestBits(queue[0] - t.last, c.bitCycles) >= c.n - t.rx.curBit
    ensures Follows(c, Feed(c, s, Low32(queue)), Track(c, t, queue), false, now) && Track(c, t, queue).last <= now + 1
  {
    hide Feed, Closed, FrameEnd, SpansOk, NearestBits, Track, Low32;
    FeedCatchesUp(c, s, t, closed, queue);
    TrackLast(c, t, queue);
  }

  /** Is a frame closed that the reference still has pending, after all events? */
  predicate ClosedAfter(c: Config, t: RxState, closed: bool, queue: seq<int>, events: seq<Event>)
    requires StateValid(c, t)
    decreases |events|
  {
    if events == [] then closed
    else match events[0]
      case Edge(_, _) => ClosedAfter(c, t, closed, queue + [EdgeStamp(c, events[0])], events[1..])
      case Poll(now, late) =>
        ClosedAfter(c, Track(c, t, queue), queue == [] && ClosedBy(c, t, closed, |queue|, late, now), [], events[1..])
  }

  /** MAIN (polling): after any timely run that ends with a poll and never fills the queue, the receiver follows the
      reference through every edge, whenever the polls happened, and whichever edges came between their two looks. */
  lemma {:induction false} RunFollows(
      c: Config, capacity: nat, s: RxState, t: RxState, closed: bool, polled: nat, floor: nat, queue: seq<int>,
      events: seq<Event>)
    requires StateValid(c, s) && StateValid(c, t) && Follows(c, s, t, closed, polled)
    requires polled <= floor && t.last <= polled + 1 && Within(queue, polled, floor)
    requires InOrder(floor, events) && events != [] && events[|events| - 1].Poll?
    requires Timely(c, t, closed, queue, events) && Roomy(capacity, |queue|, events)
    ensures
      var (s', queue') := DeviceRun(c, capacity, s, Low32(queue), events);
      var t', end := Track(c, t, queue + EdgeStamps(c, events)), events[|events| - 1].cycle;
      && queue' == []
      && Follows(c, s', t', ClosedAfter(c, t, closed, queue, events), end)
      && t'.last <= end + 1
    decreases |events|
  {
    hide Follows, PollStep, SpansOk, Track, Level, Stamp, ClosedBy, NearestBits;
    var e, rest, edges := events[0], events[1..], EdgeStamps(c, events[1..]);
    match e
    case Edge(cycle, level) =>
      var stamp := EdgeStamp(c, e);
      StampNear(cycle, level != c.invert);
      Low32Snoc(queue, stamp);
      assert queue + EdgeStamps(c, events) == (queue + [stamp]) + edges;
      RunFollows(c, capacity, s, t, closed, polled, cycle, queue + [stamp], rest);
    case Poll(now, late) =>
      var seen, low := Seen(|queue|, late), Low32(queue);
      var s', t' := PollStep(c, s, low[..seen], low[seen..], U32(now)), Track(c, t, queue);
      assert EdgeStamps(c, events) == edges;
      TrackConcat(c, t, queue, edges);
      PollFollows(c, s, t, closed, polled, queue, late, now);
      var closed' := queue == [] && ClosedBy(c, t, closed, |queue|, late, now);
      if rest == [] {
        assert edges == [] && queue + edges == queue;
      } else {
        assert [] + edges == edges && Low32([]) == [];
        RunFollows(c, capacity, s', t', closed', now, now, [], rest);
      }
  }

  /** Polls whose two looks fall together, as far as edges are concerned. */
  predicate Prompt(events: seq<Event>) {
    forall e <- events :: e.Poll? ==> e.late == 0
  }

  /** With such polls and gaps that eight bits can measure, every run is timely. */
  lemma {:induction false} PromptIsTimely(c: Config, t: RxState, closed: bool, queue: seq<int>, events: seq<Event>)
    requires StateValid(c, t) && Prompt(events) && SpansOk(c, t, false, queue + EdgeStamps(c, events))
    ensures Timely(c, t, closed, queue, events)
    decreases |events|
  {
    hide Track, TrackEdge, SpanOk, Closes, Stamp, NearestBits;
    if events != [] {
      var edges := EdgeStamps(c, events[1..]);
      assert forall e <- events[1..] :: e in events;
      match events[0]
      case Edge(_, _) =>
        var stamp := EdgeStamp(c, events[0]);
        assert queue + EdgeStamps(c, events) == (queue + [stamp]) + edges;
        PromptIsTimely(c, t, closed, queue + [stamp], events[1..]);
      case Poll(now, late) =>
        assert events[0] in events;
        assert EdgeStamps(c, events) == edges && [] + edges == edges;
        TrackConcat(c, t, queue, edges);
        PromptIsTimely(c, Track(c, t, queue), queue == [] && ClosedBy(c, t, closed, |queue|, late, now), [], events[1..]);
      }
  }

  lemma StampNear(cycle: nat, lineLevel: bool)
    ensures cycle - 1 <= Stamp(cycle, lineLevel) <= cycle + 1
  {
  }

  /** An edge that arrives between a poll's look at the queue and its look at the clock is decoded right
      exactly when, if a faux stop bit is due, the edge is not before the frame's end (in rounded bits), and if
      none is, its gap is decoded right. */
  lemma FauxRace(c: Config, s: RxState, t: RxState, stamp: int, now: nat)
    requires StateValid(c, t) && s == RxState(U32(t.last), t.rx)
    requires t.rx.curBit < c.n
    ensures PollStep(c, s, [], [U32(stamp)], now).rx == TrackEdge(c, t, stamp).rx <==>
      if FauxDue(c, s, now) then NearestBits(stamp - t.last, c.bitCycles) >= c.n - t.rx.curBit
      else SpanOk(c, t, stamp)
  {
    hide RunStep, RoundedBits, NearestBits, Faux, FauxDue, ExpectedCycle, Feed, Closed, U32, Level, SpanOk;
    var low, k := U32(stamp), NearestBits(stamp - t.last, c.bitCycles);
    assert [] + [low] == [low];
    FeedOne(c, s, low);
    FeedOne(c, Faux(c, s), low);
    EdgeAgreesExactly(c, s, t, stamp);
    if FauxDue(c, s, now) {
      FauxCloses(c, s, t);
      ClosedIs(c, t);
      IdleIgnores(c, Closed(c, t), low);
      if k >= c.n - t.rx.curBit {
        BeyondFrame(c.n, t.rx, Level(c, t.last), k);
      } else {
        StillReceiving(c.n, t.rx, Level(c, t.last), k);
      }
    }
  }

  lemma FeedOne(c: Config, s: RxState, stamp: int)
    requires StateValid(c, s)
    ensures Feed(c, s, [stamp]) == OnEdge(c, s, stamp)
  {
    assert [stamp][1..] == [];
  }

  lemma ClosedIs(c: Config, t: RxState)
    requires StateValid(c, t) && t.rx.curBit < c.n
    ensures Closed(c, t).rx == RunStep(c.n, t.rx, Level(c, t.last), c.n - t.rx.curBit)
  {
  }

  lemma IdleIgnores(c: Config, s: RxState, stamp: int)
    requires StateValid(c, s) && s.rx.curBit == c.n && Level(c, s.last)
    ensures OnEdge(c, s, stamp).rx == s.rx
  {
    RunIdleHigh(c.n, s.rx, RoundedBits(S32(stamp - s.last), c.bitCycles));
  }

  lemma StillReceiving(n: nat, r: Rx, level: bool, k: nat)
    requires RxValid(n, r) && r.curBit < n && k < n - r.curBit
    ensures RunStep(n, r, level, k).curBit == r.curBit + k
  {
    DataRun(n, r, level, k);
  }

  /** Such an edge exists: half way through a byte, a falling edge one bit time after the last one, seen
      by the clock only five bit times later, makes the poll deliver a byte where none has been sent yet. */
  lemma FauxRaceHappens()
    ensures
      var c := Config(8, false, 100);
      var s := RxState(1, Rx(3, 0, []));
      && PollStep(c, s, [], [100], 700).rx.out == [0xF0]
      && TrackEdge(c, s, 100).rx.out == Feed(c, s, [100]).rx.out == []
  {
    hide RunStep, PollStep, Feed, TrackEdge;
    RaceDelivers();
    RaceReference();
  }

  lemma RaceDelivers()
    ensures PollStep(Config(8, false, 100), RxState(1, Rx(3, 0, [])), [], [100], 700).rx.out == [0xF0]
  {
    var c, s := Config(8, false, 100), RxState(1, Rx(3, 0, []));
    hide RunStep, PollStep, Feed, OnEdge, Closed, Faux;
    RaceDue();
    FauxCloses(c, s, s);
    ClosedIs(c, s);
    RaceCloses();
    FeedOne(c, Faux(c, s), 100);
    IdleIgnores(c, Closed(c, s), 100);
    RacePoll();
  }

  lemma RaceDue()
    ensures FauxDue(Config(8, false, 100), RxState(1, Rx(3, 0, [])), 700) && U32(1) == 1
  {
  }

  lemma RaceReference()
    ensures var c, s := Config(8, false, 100), RxState(1, Rx(3, 0, []));
      TrackEdge(c, s, 100).rx.out == Feed(c, s, [100]).rx.out == []
  {
    var c, s := Config(8, false, 100), RxState(1, Rx(3, 0, []));
    hide RunStep, Feed, TrackEdge, OnEdge, SpanOk;
    assert U32(1) == 1 && U32(100) == 100;
    ShortSpanOk(c, s, 100);
    EdgeAgrees(c, s, s, 100);
    FeedOne(c, s, 100);
    RaceStays();
    RaceTrack();
  }

  lemma RacePoll()
    ensures var c, s := Config(8, false, 100), RxState(1, Rx(3, 0, []));
      FauxDue(c, s, 700) ==> PollStep(c, s, [], [100], 700) == Feed(c, Faux(c, s), [100])
  {
    hide Feed, Faux, FauxDue;
    assert [] + [100] == [100];
  }

  lemma RaceTrack()
    ensures TrackEdge(Config(8, false, 100), RxState(1, Rx(3, 0, [])), 100).rx == RunStep(8, Rx(3, 0, []), true, 1)
  {
    hide RunStep;
    assert NearestBits(99, 100) == 1;
  }

  lemma RaceCloses()
    ensures RunStep(8, Rx(3, 0, []), true, 5) == Rx(8, 0, [0xF0])
  {
    hide BitSteps, Shift;
    DataRun(8, Rx(3, 0, []), true, 4);
    BitStepsRep(8, Rx(3, 0, []), true, 4, 1);
    assert Rep(true, 1) == [true];
    var r := Rx(7, Shift(0, 4, true), []);
    BitStepsOne(8, r, true);
    assert Shift(0, 4, true) == 0xF0 by { ShiftFour(); }
    assert (0xF0 as bv8) >> (0 as nat) == 0xF0;
  }

  lemma ShiftFour()
    ensures Shift(0, 4, true) == 0xF0
  {
  }

  lemma RaceStays()
    ensures RunStep(8, Rx(3, 0, []), true, 1).out == []
  {
    hide BitSteps, Shift;
    DataRun(8, Rx(3, 0, []), true, 1);
  }
}
