/**
 The round trip: the edges of any stream of frames, each run measured within half a bit time and polled
 at any moments, decode to the bytes of the stream.
 */
module UartRoundTrip {
  import opened CInt
  import opened UartFrame
  import opened UartReceive
  import opened UartTransmit
  import opened UartPolling

  /** A span measured within half a bit time of `bits` bit times. */
  predicate HalfBit(cycles: int, bits: nat, bitCycles: nat) {
    bitCycles / 2 - bitCycles < cycles - bits * bitCycles <= bitCycles / 2
  }

  /** The stamps of the edges that start each of the runs; every run but the last is measured within half
      a bit time. */
  predicate Measured(c: Config, runs: seq<Run>, stamps: seq<int>) {
    && |stamps| == |runs|
    && (forall j | 0 <= j < |runs| :: Level(c, stamps[j]) == runs[j].level)
    && (forall j | 0 <= j < |runs| - 1 ::
          HalfBit(stamps[j + 1] - stamps[j], runs[j].bits, c.bitCycles))
  }

  /** Every run but the last fits the receiver's eight bits. */
  predicate FitsEightBits(runs: seq<Run>) {
    forall j | 0 <= j < |runs| - 1 :: runs[j].bits <= 255
  }

  lemma MeasuredRounds(cycles: int, bits: nat, bitCycles: nat)
    requires HalfBit(cycles, bits, bitCycles) && 0 < bits && bitCycles >= 3
    ensures NearestBits(cycles, bitCycles) == bits
    ensures bits <= 255 ==> 0 <= cycles <= 255 * bitCycles + bitCycles / 2
  {
    BitsBound(bits, bitCycles);
    RoundsToWhole(bits, bitCycles, cycles - bits * bitCycles);
  }

  lemma BitsBound(bits: nat, bitCycles: nat)
    requires 0 < bits
    ensures bitCycles <= bits * bitCycles && (bits <= 255 ==> bits * bitCycles <= 255 * bitCycles)
  {
  }

  lemma FlattenSnoc(runs: seq<Run>)
    requires runs != []
    ensures Flatten(runs) == Flatten(runs[..|runs| - 1]) + Rep(runs[|runs| - 1].level, runs[|runs| - 1].bits)
  {
  }

  /** A low run in a stream without low stop bits ends before its stop bit. */
  lemma {:induction false} LowRunFits(n: nat, r: Rx, k: nat)
    requires RxValid(n, r) && NoLowStop(n, r, Rep(false, k))
    ensures k <= LowLeft(n, r)
    decreases k
  {
    if k > 0 {
      assert Rep(false, k)[1..] == Rep(false, k - 1);
      LowRunFits(n, BitStep(n, r, false), k - 1);
    }
  }

  /** The reference receiver, on the edges up to run `j`, has decoded the bits of the runs before. */
  lemma {:induction false} TrackDecodes(c: Config, s: RxState, runs: seq<Run>, stamps: seq<int>, j: nat)
    requires StateValid(c, s) && s.rx.curBit == c.n && Level(c, s.last)
    requires Alternating(runs) && Measured(c, runs, stamps) && 1 <= j <= |runs|
    requires NoLowStop(c.n, s.rx, Flatten(runs))
    ensures
      var t := Track(c, s, stamps[..j]);
      && (FitsEightBits(runs) ==> SpansOk(c, s, false, stamps[..j]))
      && t == RxState(stamps[j - 1], BitSteps(c.n, s.rx, Flatten(runs[..j - 1])))
      && NoLowStop(c.n, t.rx, FlatRest(runs, j - 1))
    decreases j
  {
    hide BitSteps, NoLowStop, RunStep, NearestBits, Flatten, HalfBit, SpanOk;
    if j == 1 {
      assert stamps[..1] == [stamps[0]] && [stamps[0]][1..] == [];
      ShortSpanOk(c, s, stamps[0]);
      RunIdleHigh(c.n, s.rx, NearestBits(stamps[0] - s.last, c.bitCycles));
      assert runs[..0] == [];
      FlatRestAll(runs);
      FlattenNil();
      BitStepsNil(c.n, s.rx);
    } else {
      var i := j - 2;
      TrackDecodes(c, s, runs, stamps, j - 1);
      var t := Track(c, s, stamps[..j - 1]);
      assert stamps[..j] == stamps[..j - 1] + [stamps[j - 1]];
      TrackConcat(c, s, stamps[..j - 1], [stamps[j - 1]]);
      assert [stamps[j - 1]][1..] == [];
      MeasuredRounds(stamps[j - 1] - t.last, runs[i].bits, c.bitCycles);
      if FitsEightBits(runs) { ShortSpanOk(c, t, stamps[j - 1]); }
      var bits := Rep(runs[i].level, runs[i].bits);
      FlatRestCons(runs, i);
      NoLowStopConcat(c.n, t.rx, bits, FlatRest(runs, i + 1));
      if !runs[i].level { LowRunFits(c.n, t.rx, runs[i].bits); }
      RunRefinesBits(c.n, t.rx, runs[i].level, runs[i].bits);
      FlattenSnoc(runs[..j - 1]);
      assert runs[..j - 1][..j - 2] == runs[..j - 2];
      BitStepsConcat(c.n, s.rx, Flatten(runs[..j - 2]), bits);
    }
  }

  /** The bits of the runs from `i` on. */
  function FlatRest(runs: seq<Run>, i: nat): seq<bool>
    requires i <= |runs|
    decreases |runs| - i
  {
    if i == |runs| then [] else Rep(runs[i].level, runs[i].bits) + FlatRest(runs, i + 1)
  }

  lemma FlatRestCons(runs: seq<Run>, i: nat)
    requires i < |runs|
    ensures FlatRest(runs, i) == Rep(runs[i].level, runs[i].bits) + FlatRest(runs, i + 1)
  {
  }

  lemma FlattenNil()
    ensures Flatten([]) == []
  {
  }

  lemma {:induction false} FlatSplit(runs: seq<Run>, i: nat)
    requires i <= |runs|
    ensures Flatten(runs[..i]) + FlatRest(runs, i) == Flatten(runs)
    decreases |runs| - i
  {
    if i == |runs| {
      assert runs[..i] == runs;
    } else {
      FlatSplit(runs, i + 1);
      FlattenSnoc(runs[..i + 1]);
      assert runs[..i + 1][..i] == runs[..i];
      FlatRestCons(runs, i);
    }
  }

  lemma FlatRestAll(runs: seq<Run>)
    ensures FlatRest(runs, 0) == Flatten(runs)
  {
    FlatSplit(runs, 0);
    assert runs[..0] == [];
    FlattenNil();
  }

  /** If decoding a high run leaves the receiver idle, closing its frame early leaves it the same. */
  lemma HighRunCloses(n: nat, r: Rx, k: nat)
    requires RxValid(n, r) && r.curBit < n && BitSteps(n, r, Rep(true, k)).curBit == n
    ensures BitSteps(n, r, Rep(true, k)) == RunStep(n, r, true, n - r.curBit)
  {
    hide BitSteps;
    if k < n - r.curBit {
      StillReceiving(n, r, true, k);
    } else {
      BeyondFrame(n, r, true, k);
    }
  }

  /** The bit times from a start bit's end to the end of its frame. */
  function FrameCycles(c: Config): nat {
    (c.n + 1) * c.bitCycles
  }

  /** A run of edges and polls in time order whose edges are those of the given runs, as measured, which
      ends with a poll; one more poll comes at `now`. */
  predicate Schedule(c: Config, cycle: nat, runs: seq<Run>, events: seq<Event>, now: nat) {
    && runs != []
    && Measured(c, runs, EdgeStamps(c, events))
    && InOrder(cycle, events)
    && events != []
    && events[|events| - 1].Poll?
    && events[|events| - 1].cycle <= now
  }

  /** The receiver before the first edge: idle, in unbounded time. */
  function Started(c: Config, cycle: nat): (t: RxState)
    requires ConfigValid(c)
    ensures StateValid(c, t)
  {
    RxState(Stamp(cycle, !c.invert), Rx(c.n, 0, []))
  }

  /** The last frame is complete, or a poll before `now` has closed it, or the one at `now` does. */
  predicate LastFrameClosed(c: Config, t: RxState, events: seq<Event>, now: nat)
    requires StateValid(c, t)
  {
    var t' := Track(c, t, EdgeStamps(c, events));
    t'.rx.curBit == c.n || ClosedAfter(c, t, false, [], events) || Closes(c, t', now)
  }

  /** So is it when that poll comes behind the last frame's end, and within half a wrap of the cycle counter. */
  predicate FinalSpan(c: Config, lastStamp: int, now: nat) {
    FrameCycles(c) < now - lastStamp < TWO_31
  }

  lemma FinalSpanCloses(c: Config, t: RxState, now: nat)
    requires StateValid(c, t) && t.rx.curBit < c.n && FinalSpan(c, t.last, now)
    ensures Closes(c, t, now)
  {
    MulMono(c.n - t.rx.curBit, c.n + 1, c.bitCycles);
    FrameSpan(c.n - t.rx.curBit, c.bitCycles);
    SmallDifference(now - FrameEnd(c, t));
  }

  /** MAIN: for 5 to 8 data bits, either polarity, any bytes and any idle gaps: when the edges of the
      stream's waveform are measured within half a bit time, then whatever the moments of the polls, and whichever
      edges come between the two looks of a poll, the receiver delivers exactly the bytes, masked to the data
      bits, the last one by the faux stop bit, exactly when some poll closes the last frame; unless the queue
      overflows, or some poll closes a frame ahead of an edge that comes before the frame's end, or a gap behind a
      frame left unclosed is one that the receiver mistakes. */
  lemma {:induction false} RoundTrip(
      c: Config, capacity: nat, cycle: nat, bytes: seq<bv8>, gaps: seq<nat>, events: seq<Event>, now: nat)
    requires ConfigValid(c) && bytes != [] && |gaps| == |bytes|
    requires Schedule(c, cycle, Runs(Stream(bytes, gaps, c.n)), events, now)
    requires Roomy(capacity, 0, events) && Timely(c, Started(c, cycle), false, [], events)
    ensures
      var s0 := RxState(U32(Stamp(cycle, !c.invert)), Rx(c.n, 0, []));
      DeviceRun(c, capacity, s0, [], events + [Poll(now, 0)]).0.rx.out == Masked(bytes, c.n)
      <==> LastFrameClosed(c, Started(c, cycle), events, now)
  {
    hide BitSteps, Stream, Runs, Masked, Track, DeviceRun, EdgeStamps, Measured, SpansOk, Follows, InOrder,
      PollStep, U32, Stamp, Finishes, Level, Timely, ClosedAfter, Closes, Roomy;
    var n, stamps, last := c.n, EdgeStamps(c, events), events[|events| - 1].cycle;
    var idle := Rx(n, 0, []);
    var t0 := Started(c, cycle);
    var s0 := RxState(U32(t0.last), idle);
    LevelAt(c, t0, s0, cycle);
    TrackEnds(c, t0, bytes, gaps, stamps);
    FollowsFromStart(c, capacity, s0, t0, cycle, events);
    DeviceRunSnoc(c, capacity, s0, [], events, now);
    var s', t' := DeviceRun(c, capacity, s0, [], events).0, Track(c, t0, stamps);
    StreamDelivers(n, idle, bytes, gaps);
    assert [] + Masked(bytes, n) == Masked(bytes, n);
    FinalPoll(c, s', t', ClosedAfter(c, t0, false, [], events), last, now, BitSteps(n, idle, Stream(bytes, gaps, n)));
  }

  /** So whenever no edge comes between the two looks of a poll, every run but the last is at most 255 bit times, and
      the last poll comes behind the last frame's end, within half a wrap of the cycle counter. */
  lemma PromptRoundTrip(
      c: Config, capacity: nat, cycle: nat, bytes: seq<bv8>, gaps: seq<nat>, events: seq<Event>, now: nat)
    requires ConfigValid(c) && bytes != [] && |gaps| == |bytes|
    requires Schedule(c, cycle, Runs(Stream(bytes, gaps, c.n)), events, now) && Roomy(capacity, 0, events)
    requires Prompt(events) && FitsEightBits(Runs(Stream(bytes, gaps, c.n)))
    requires FinalSpan(c, EdgeStamps(c, events)[|Runs(Stream(bytes, gaps, c.n))| - 1], now)
    ensures
      var s0 := RxState(U32(Stamp(cycle, !c.invert)), Rx(c.n, 0, []));
      DeviceRun(c, capacity, s0, [], events + [Poll(now, 0)]).0.rx.out == Masked(bytes, c.n)
  {
    hide Stream, Runs, Masked, DeviceRun, Schedule, Timely, Prompt, FitsEightBits, Roomy, LastFrameClosed, FinalSpan;
    PromptStarts(c, cycle, bytes, gaps, events, now);
    RoundTrip(c, capacity, cycle, bytes, gaps, events, now);
  }

  lemma PromptStarts(c: Config, cycle: nat, bytes: seq<bv8>, gaps: seq<nat>, events: seq<Event>, now: nat)
    requires ConfigValid(c) && bytes != [] && |gaps| == |bytes|
    requires Schedule(c, cycle, Runs(Stream(bytes, gaps, c.n)), events, now)
    requires Prompt(events) && FitsEightBits(Runs(Stream(bytes, gaps, c.n)))
    requires FinalSpan(c, EdgeStamps(c, events)[|Runs(Stream(bytes, gaps, c.n))| - 1], now)
    ensures Timely(c, Started(c, cycle), false, [], events) && LastFrameClosed(c, Started(c, cycle), events, now)
  {
    hide BitSteps, Stream, Runs, Track, EdgeStamps, Measured, SpansOk, InOrder, Follows, U32, FinalSpan, Finishes,
      Level, Timely, Prompt, FitsEightBits, ClosedAfter, Closes;
    var t0, stamps := Started(c, cycle), EdgeStamps(c, events);
    LevelAt(c, t0, RxState(U32(t0.last), t0.rx), cycle);
    TrackEnds(c, t0, bytes, gaps, stamps);
    assert [] + stamps == stamps;
    PromptIsTimely(c, t0, false, [], events);
    var t' := Track(c, t0, stamps);
    if t'.rx.curBit < c.n { FinalSpanCloses(c, t', now); }
  }

  lemma FollowsFromStart(c: Config, capacity: nat, s0: RxState, t0: RxState, cycle: nat, events: seq<Event>)
    requires StateValid(c, s0) && StateValid(c, t0) && Follows(c, s0, t0, false, cycle) && t0.last <= cycle + 1
    requires InOrder(cycle, events) && events != [] && events[|events| - 1].Poll?
    requires Timely(c, t0, false, [], events) && Roomy(capacity, 0, events)
    ensures
      var (s', queue') := DeviceRun(c, capacity, s0, [], events);
      var t' := Track(c, t0, EdgeStamps(c, events));
      && queue' == []
      && Follows(c, s', t', ClosedAfter(c, t0, false, [], events), events[|events| - 1].cycle)
      && t'.last <= events[|events| - 1].cycle + 1
  {
    hide Follows, Timely, Track, DeviceRun, InOrder, EdgeStamps, ClosedAfter, Roomy;
    assert [] + EdgeStamps(c, events) == EdgeStamps(c, events) && Low32([]) == [];
    RunFollows(c, capacity, s0, t0, false, cycle, cycle, [], events);
  }

  /** Once the pending frame is closed, if one is, the receiver holds `r`. */
  ghost predicate Finishes(n: nat, t: Rx, r: Rx)
    requires RxValid(n, t)
  {
    r == if t.curBit < n then RunStep(n, t, true, n - t.curBit) else t
  }

  /** The reference receiver, after the last edge, has decoded all but the last run, which is high and
      closes the last frame. */
  lemma TrackEnds(c: Config, s: RxState, bytes: seq<bv8>, gaps: seq<nat>, stamps: seq<int>)
    requires StateValid(c, s) && s.rx.curBit == c.n && Level(c, s.last)
    requires bytes != [] && |gaps| == |bytes| && Runs(Stream(bytes, gaps, c.n)) != []
    requires Measured(c, Runs(Stream(bytes, gaps, c.n)), stamps)
    ensures
      var t := Track(c, s, stamps);
      && (FitsEightBits(Runs(Stream(bytes, gaps, c.n))) ==> SpansOk(c, s, false, stamps))
      && stamps != []
      && t.last == stamps[|Runs(Stream(bytes, gaps, c.n))| - 1] && Level(c, t.last)
      && Finishes(c.n, t.rx, BitSteps(c.n, s.rx, Stream(bytes, gaps, c.n)))
  {
    hide BitSteps, Stream, Runs, Flatten, RunStep, NoLowStop, Track, Measured, Alternating, SpansOk, Finishes,
      FlatRest, FitsEightBits;
    var bits := Stream(bytes, gaps, c.n);
    StreamHasNoLowStop(c.n, s.rx, bytes, gaps);
    RunsSpell(bits);
    MeasuredLength(c, Runs(bits), stamps);
    TrackDecodes(c, s, Runs(bits), stamps, |stamps|);
    assert stamps[..|stamps|] == stamps;
    LastHigh(bytes, gaps, c.n);
    LastRunFinishes(c.n, s.rx, bytes, gaps);
  }

  lemma {:induction false} LastRunFinishes(n: nat, r: Rx, bytes: seq<bv8>, gaps: seq<nat>)
    requires RxValid(n, r) && r.curBit == n && bytes != [] && |gaps| == |bytes|
    ensures
      var runs := Runs(Stream(bytes, gaps, n));
      && runs != []
      && Finishes(n, BitSteps(n, r, Flatten(runs[..|runs| - 1])), BitSteps(n, r, Stream(bytes, gaps, n)))
  {
    hide BitSteps, Stream, Runs, Flatten, RunStep, Masked;
    var bits := Stream(bytes, gaps, n);
    var runs := Runs(bits);
    StreamDelivers(n, r, bytes, gaps);
    RunsSpell(bits);
    LastHigh(bytes, gaps, n);
    FlattenSnoc(runs);
    var front, k := Flatten(runs[..|runs| - 1]), runs[|runs| - 1].bits;
    BitStepsConcat(n, r, front, Rep(true, k));
    var t := BitSteps(n, r, front);
    if t.curBit < n {
      HighRunCloses(n, t, k);
    } else {
      IdleStays(n, t, k);
    }
  }

  /** The last poll delivers the last frame exactly when it closes it, or it is closed or complete already. */
  lemma FinalPoll(c: Config, s: RxState, t: RxState, closed: bool, floor: nat, now: nat, r: Rx)
    requires StateValid(c, s) && StateValid(c, t) && Follows(c, s, t, closed, floor) && Level(c, t.last)
    requires floor <= now && t.last <= floor + 1 && Finishes(c.n, t.rx, r)
    ensures PollStep(c, s, [], [], U32(now)).rx.out == r.out <==> t.rx.curBit == c.n || closed || Closes(c, t, now)
  {
    hide PollStep, RunStep, Level, U32, Closes;
    var none: seq<int> := Low32([]);
    assert none[..0] == none[0..] == [];
    PollFollows(c, s, t, closed, floor, [], 0, now);
    assert Track(c, t, []) == t;
    if t.rx.curBit < c.n {
      HighRunDelivers(c.n, t.rx);
    } else {
      NeverCloses(c, t, now);
    }
  }

  lemma NeverCloses(c: Config, t: RxState, now: int)
    requires StateValid(c, t)
    ensures Closes(c, t, now) ==> t.rx.curBit < c.n
  {
  }

  /** Closing a pending frame with a high run delivers a byte. */
  lemma HighRunDelivers(n: nat, r: Rx)
    requires RxValid(n, r) && r.curBit < n
    ensures |RunStep(n, r, true, n - r.curBit).out| == |r.out| + 1
  {
    hide BitSteps, Shift;
    var d := n - 1 - r.curBit;
    DataRun(n, r, true, d);
    BitStepsRep(n, r, true, d, 1);
    assert Rep(true, 1) == [true];
    BitStepsOne(n, BitSteps(n, r, Rep(true, d)), true);
  }

  lemma MeasuredLength(c: Config, runs: seq<Run>, stamps: seq<int>)
    requires Measured(c, runs, stamps) && runs != []
    ensures |runs| == |stamps| && Level(c, stamps[|stamps| - 1]) == runs[|runs| - 1].level
  {
  }

  lemma LevelAt(c: Config, t0: RxState, s0: RxState, cycle: nat)
    requires ConfigValid(c) && RxValid(c.n, t0.rx)
    requires t0.last == Stamp(cycle, !c.invert) && s0 == RxState(U32(t0.last), t0.rx)
    ensures Level(c, t0.last) && Follows(c, s0, t0, false, cycle) && t0.last <= cycle + 1
  {
    hide Closed, FrameEnd, U32;
  }

  lemma {:induction false} DeviceRunSnoc(
      c: Config, capacity: nat, s: RxState, queue: seq<int>, events: seq<Event>, now: nat)
    requires StateValid(c, s) && DeviceRun(c, capacity, s, queue, events).1 == []
    ensures
      var s' := DeviceRun(c, capacity, s, queue, events).0;
      DeviceRun(c, capacity, s, queue, events + [Poll(now, 0)]) == (PollStep(c, s', [], [], U32(now)), [])
    decreases |events|
  {
    hide PollStep, EdgeStamp;
    var last := Poll(now, 0);
    if events == [] {
      assert [] + [last] == [last] && [last][1..] == [];
      assert queue[..0] == [] && queue[0..] == [];
    } else {
      assert (events + [last])[1..] == events[1..] + [last];
      match events[0]
      case Edge(_, _) =>
        var stamp := U32(EdgeStamp(c, events[0]));
        DeviceRunSnoc(c, capacity, s, if |queue| < capacity then queue + [stamp] else queue, events[1..], now);
      case Poll(cycle, late) =>
        var seen := Seen(|queue|, late);
        DeviceRunSnoc(c, capacity, PollStep(c, s, queue[..seen], queue[seen..], U32(cycle)), [], events[1..], now);
    }
  }

  lemma {:induction false} LastHigh(bytes: seq<bv8>, gaps: seq<nat>, n: nat)
    requires n <= 8 && |bytes| == |gaps| && bytes != []
    ensures var bits := Stream(bytes, gaps, n);
      bits != [] && bits[|bits| - 1] && Runs(bits)[|Runs(bits)| - 1].level
    decreases |bytes|
  {
    hide Runs;
    FrameEnds(bytes[0], n);
    if |bytes| > 1 {
      LastHigh(bytes[1..], gaps[1..], n);
    }
  }

  lemma MulMono(a: nat, b: nat, m: nat)
    requires a <= b
    ensures 0 <= a * m <= b * m
  {
  }

  /** The cycle at which run `j` starts when the transmitter keeps its deadlines exactly. */
  function EdgeCycle(start: nat, runs: seq<Run>, bitCycles: nat, j: nat): nat
    requires j <= |runs|
  {
    if j == 0 then start else EdgeCycle(start, runs, bitCycles, j - 1) + runs[j - 1].bits * bitCycles
  }

  function ExactStamps(c: Config, start: nat, runs: seq<Run>): (stamps: seq<int>)
    ensures |stamps| == |runs|
  {
    seq(|runs|, j requires 0 <= j < |runs| =>
      Stamp(EdgeCycle(start, runs, c.bitCycles, j), runs[j].level != c.invert))
  }

  /** The receiver's tolerance covers the transmitter: the edges of the waveform that `write` produces,
      stamped at their deadlines, are measured well enough for `RoundTrip`. */
  lemma WrittenIsMeasured(c: Config, start: nat, bytes: seq<bv8>)
    requires ConfigValid(c) && c.bitCycles >= 5
    ensures
      var runs := Runs(Stream(bytes, seq(|bytes|, _ => 0), c.n));
      && Measured(c, runs, ExactStamps(c, start, runs))
      && Waveform(Frames(bytes, c.n), c.invert, c.bitCycles) ==
         [Segment(!c.invert, 1)] + Scaled(runs, c.invert, c.bitCycles)
  {
    hide Runs, Stream, Frames, Alternating, Waveform, TotalCycles;
    WaveformOfFrames(bytes, c.n, c.invert, c.bitCycles);
    WaveformIs(Frames(bytes, c.n), c.invert, c.bitCycles);
    ExactIsMeasured(c, start, Runs(Frames(bytes, c.n)));
  }

  lemma WaveformIs(bits: seq<bool>, invert: bool, bitCycles: nat)
    ensures Waveform(bits, invert, bitCycles) == [Segment(!invert, 1)] + Scaled(Runs(bits), invert, bitCycles)
  {
  }

  lemma ExactIsMeasured(c: Config, start: nat, runs: seq<Run>)
    requires ConfigValid(c) && c.bitCycles >= 5 && Short(runs, c.n + 1)
    ensures Measured(c, runs, ExactStamps(c, start, runs))
  {
    hide HalfBit, EdgeCycle, ExactStamps;
    forall j | 0 <= j < |runs|
      ensures Level(c, ExactStamps(c, start, runs)[j]) == runs[j].level
    {
      ExactLevel(c, start, runs, j);
    }
    forall j | 0 <= j < |runs| - 1
      ensures HalfBit(ExactStamps(c, start, runs)[j + 1] - ExactStamps(c, start, runs)[j],
                      runs[j].bits, c.bitCycles)
    {
      ExactSpan(c, start, runs, j);
    }
  }

  lemma ExactLevel(c: Config, start: nat, runs: seq<Run>, j: nat)
    requires j < |runs|
    ensures Level(c, ExactStamps(c, start, runs)[j]) == runs[j].level
  {
    hide Stamp, EdgeCycle;
    StampLevel(EdgeCycle(start, runs, c.bitCycles, j), runs[j].level != c.invert);
  }

  lemma ExactSpan(c: Config, start: nat, runs: seq<Run>, j: nat)
    requires c.bitCycles >= 5 && j + 1 < |runs|
    ensures HalfBit(ExactStamps(c, start, runs)[j + 1] - ExactStamps(c, start, runs)[j],
                    runs[j].bits, c.bitCycles)
  {
    hide HalfBit, EdgeCycle, Stamp;
    EdgeCycleNext(start, runs, c.bitCycles, j);
    ExactRun(EdgeCycle(start, runs, c.bitCycles, j), runs[j].bits, c.bitCycles,
             runs[j].level != c.invert, runs[j + 1].level != c.invert);
  }

  lemma EdgeCycleNext(start: nat, runs: seq<Run>, bitCycles: nat, j: nat)
    requires j < |runs|
    ensures EdgeCycle(start, runs, bitCycles, j + 1) ==
      EdgeCycle(start, runs, bitCycles, j) + runs[j].bits * bitCycles
  {
  }

  lemma ExactRun(a: nat, bits: nat, bitCycles: nat, p: bool, q: bool)
    requires bitCycles >= 5
    ensures HalfBit(Stamp(a + bits * bitCycles, q) - Stamp(a, p), bits, bitCycles)
  {
    hide Stamp;
    StampError(a, a + bits * bitCycles, p, q);
  }

  lemma StampLevel(a: nat, lineLevel: bool)
    ensures (Stamp(a, lineLevel) % 2 == 1) == lineLevel
  {
  }

  lemma StampError(a: nat, b: nat, p: bool, q: bool)
    ensures -2 <= (Stamp(b, q) - Stamp(a, p)) - (b - a) <= 2
  {
  }
}
