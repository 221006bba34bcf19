/**
 The run-length receiver: the interrupt routine stamps level changes, and each stamp is turned into a
 number of bit times of the level that just ended. One call decodes a whole run of bits at once.
 */
module UartReceive {
  import opened CInt
  import opened UartFrame

  datatype Config = Config(n: nat, invert: bool, bitCycles: nat)

  predicate ConfigValid(c: Config) {
    5 <= c.n <= 8 && 3 <= c.bitCycles < TWO_31 / 0x200
  }

  /** The receiver's decoder: the stamp of the last edge, whose lowest bit is the line level, and the UART state. */
  datatype RxState = RxState(last: int, rx: Rx)

  predicate StateValid(c: Config, s: RxState) {
    ConfigValid(c) && RxValid(c.n, s.rx)
  }

  /** The logical level since a stamp. */
  predicate Level(c: Config, stamp: int) {
    (stamp % 2 == 1) != c.invert
  }

  /** `(cycle | 1) ^ !level`: the stamp of an edge to a line level. */
  function Stamp(cycle: int, lineLevel: bool): int {
    cycle - cycle % 2 + (if lineLevel then 1 else 0)
  }

  /** The number of bit times in a span, rounded to the nearest and truncated to eight bits. */
  function RoundedBits(cycles: int, bitCycles: nat): nat
    requires bitCycles > 0
  {
    var bits := U8(CDiv(cycles, bitCycles));
    if CMod(cycles, bitCycles) > bitCycles / 2 then U8(bits + 1) else bits
  }

  /** Low bits until the end of the stop bit. */
  function LowLeft(n: nat, r: Rx): nat
    requires RxValid(n, r)
  {
    if r.curBit == n then n + 2 else n - r.curBit
  }

  /** What one call decodes of a run of `k` bits: all of it if high, and if low no further than the stop bit. */
  function RunStep(n: nat, r: Rx, level: bool, k: nat): (r': Rx)
    requires RxValid(n, r)
    ensures RxValid(n, r')
  {
    BitSteps(n, r, Rep(level, if level then k else Min(k, LowLeft(n, r))))
  }

  /** The effect of one stamp. */
  function OnEdge(c: Config, s: RxState, isrCycle: int): (s': RxState)
    requires StateValid(c, s)
    ensures StateValid(c, s')
  {
    RxState(isrCycle, RunStep(c.n, s.rx, Level(c, s.last), RoundedBits(S32(isrCycle - s.last), c.bitCycles)))
  }

  lemma RepSplit(level: bool, a: nat, b: nat)
    ensures Rep(level, a + b) == Rep(level, a) + Rep(level, b)
  {
  }

  lemma BitStepsRep(n: nat, r: Rx, level: bool, a: nat, b: nat)
    requires RxValid(n, r)
    ensures BitSteps(n, r, Rep(level, a + b)) == BitSteps(n, BitSteps(n, r, Rep(level, a)), Rep(level, b))
  {
    RepSplit(level, a, b);
    BitStepsConcat(n, r, Rep(level, a), Rep(level, b));
  }

  lemma ShiftMore(b: bv8, k: nat, level: bool)
    requires k < 8
    ensures Shift(Shift(b, k, level), 1, level) == Shift(b, k + 1, level)
  {
    if
    case k == 0 =>
    case k == 1 =>
    case k == 2 =>
    case k == 3 =>
    case k == 4 =>
    case k == 5 =>
    case k == 6 =>
    case k == 7 =>
  }

  lemma ShiftNone(b: bv8, level: bool)
    ensures Shift(b, 0, level) == b
  {
    assert 0xFF << (8 as nat) == 0 as bv8;
  }

  /** Shifting `d` data bits at once is shifting them one by one. */
  lemma {:induction false} DataRun(n: nat, r: Rx, level: bool, d: nat)
    requires RxValid(n, r) && r.curBit < n && r.curBit + d <= n - 1
    ensures BitSteps(n, r, Rep(level, d)) == r.(curBit := r.curBit + d, curByte := Shift(r.curByte, d, level))
  {
    hide Shift, BitSteps;
    if d == 0 {
      BitStepsNil(n, r);
      ShiftNone(r.curByte, level);
      assert Rep(level, 0) == [];
    } else {
      DataRun(n, r, level, d - 1);
      BitStepsRep(n, r, level, d - 1, 1);
      assert Rep(level, 1) == [level];
      BitStepsOne(n, BitSteps(n, r, Rep(level, d - 1)), level);
      ShiftMore(r.curByte, d - 1, level);
    }
  }

  /** The four cases of the decoding loop. */
  lemma RunIdleHigh(n: nat, r: Rx, k: nat)
    requires RxValid(n, r) && r.curBit == n
    ensures RunStep(n, r, true, k) == r
  {
    IdleStays(n, r, k);
  }

  lemma RunStart(n: nat, r: Rx, k: nat)
    requires RxValid(n, r) && r.curBit == n && k > 0
    ensures RunStep(n, r, false, k) == RunStep(n, r.(curBit := -1), false, k - 1)
  {
    hide BitSteps;
    var m := Min(k - 1, n + 1);
    BitStepsRep(n, r, false, 1, m);
    assert Rep(false, 1) == [false];
    BitStepsOne(n, r, false);
  }

  lemma RunData(n: nat, r: Rx, level: bool, k: nat, d: nat)
    requires RxValid(n, r) && r.curBit < n - 1 && 0 < d <= k && d <= n - r.curBit - 1
    ensures RunStep(n, r, level, k) ==
      RunStep(n, r.(curBit := r.curBit + d, curByte := Shift(r.curByte, d, level)), level, k - d)
  {
    hide BitSteps, Shift;
    DataRun(n, r, level, d);
    BitStepsRep(n, r, level, d, (if level then k else Min(k, n - r.curBit)) - d);
  }

  lemma RunStop(n: nat, r: Rx, level: bool, k: nat)
    requires RxValid(n, r) && r.curBit == n - 1 && k > 0
    ensures RunStep(n, r, level, k) == BitStep(n, r, level)
  {
    hide BitSteps;
    assert Rep(level, 1) == [level];
    BitStepsOne(n, r, level);
    if level {
      BitStepsRep(n, r, true, 1, k - 1);
      IdleStays(n, BitStep(n, r, true), k - 1);
    }
  }

  lemma RunNone(n: nat, r: Rx, level: bool)
    requires RxValid(n, r)
    ensures RunStep(n, r, level, 0) == r
  {
    assert Rep(level, 0) == [];
    BitStepsNil(n, r);
  }

  /** The low bits `x` of a fresh idle receiver end in idle exactly after whole frame lengths. */
  lemma {:induction false} LowFrames(n: nat, r: Rx, x: nat)
    requires RxValid(n, r) && r.curBit == n && r.curByte == 0
    ensures BitSteps(n, r, Rep(false, x)) == r <==> x % (n + 2) == 0
    decreases x
  {
    hide BitSteps, BitStep;
    if x == 0 {
      assert Rep(false, 0) == [];
      BitStepsNil(n, r);
    } else if x <= n + 1 {
      LowRun(n, r, x);
    } else {
      LowFrame(n, r);
      BitStepsRep(n, r, false, n + 2, x - (n + 2));
      LowFrames(n, r, x - (n + 2));
      FrameLengthsLess(n, x);
    }
  }

  lemma FrameLengthsLess(n: nat, x: nat)
    requires 5 <= n <= 8 && x >= n + 2
    ensures x % (n + 2) == (x - (n + 2)) % (n + 2)
  {
    if
    case n == 5 =>
    case n == 6 =>
    case n == 7 =>
    case n == 8 =>
  }

  lemma LowRun(n: nat, r: Rx, x: nat)
    requires RxValid(n, r) && r.curBit == n && 0 < x <= n + 1
    ensures BitSteps(n, r, Rep(false, x)).curBit == x - 2
    ensures BitSteps(n, r, Rep(false, x)).out == r.out
  {
    hide BitSteps, Shift;
    BitStepsRep(n, r, false, 1, x - 1);
    assert Rep(false, 1) == [false];
    BitStepsOne(n, r, false);
    DataRun(n, r.(curBit := -1), false, x - 1);
  }

  /** A whole frame length of low bits ends in a low stop bit: nothing is delivered. */
  lemma LowFrame(n: nat, r: Rx)
    requires RxValid(n, r) && r.curBit == n
    ensures BitSteps(n, r, Rep(false, n + 2)) == Rx(n, 0, r.out)
  {
    hide BitSteps, Shift;
    LowRun(n, r, n + 1);
    BitStepsRep(n, r, false, n + 1, 1);
    assert Rep(false, 1) == [false];
    BitStepsOne(n, BitSteps(n, r, Rep(false, n + 1)), false);
  }

  lemma LowToStop(n: nat, r: Rx)
    requires RxValid(n, r)
    ensures BitSteps(n, r, Rep(false, LowLeft(n, r))) == Rx(n, 0, r.out)
  {
    hide BitSteps, Shift;
    if r.curBit == n {
      LowFrame(n, r);
    } else {
      var d := n - 1 - r.curBit;
      DataRun(n, r, false, d);
      BitStepsRep(n, r, false, d, 1);
      assert Rep(false, 1) == [false];
      BitStepsOne(n, BitSteps(n, r, Rep(false, d)), false);
    }
  }

  /** MAIN (refinement): decoding a run at once agrees with the bit-at-a-time receiver exactly when the
      run is high, or ends by the stop bit, or overruns it by whole frame lengths. */
  lemma {:induction false} RunRefinesBits(n: nat, r: Rx, level: bool, k: nat)
    requires RxValid(n, r)
    ensures RunStep(n, r, level, k) == BitSteps(n, r, Rep(level, k)) <==>
      level || k <= LowLeft(n, r) || (k - LowLeft(n, r)) % (n + 2) == 0
  {
    hide BitSteps;
    if !level && k > LowLeft(n, r) {
      var left := LowLeft(n, r);
      LowToStop(n, r);
      BitStepsRep(n, r, false, left, k - left);
      LowFrames(n, Rx(n, 0, r.out), k - left);
    }
  }

  /** A low run of eleven bits from idle: decoded at once it ends idle, bit by bit behind a second start bit. */
  lemma LongBreakDiffers()
    ensures var idle := Rx(8, 0, []); RunStep(8, idle, false, 11) != BitSteps(8, idle, Rep(false, 11))
  {
    RunRefinesBits(8, Rx(8, 0, []), false, 11);
  }

  /** Decoding the queued stamps, oldest first. */
  function Feed(c: Config, s: RxState, stamps: seq<int>): (s': RxState)
    requires StateValid(c, s)
    ensures StateValid(c, s')
    decreases |stamps|
  {
    if stamps == [] then s else Feed(c, OnEdge(c, s, stamps[0]), stamps[1..])
  }

  /** The end of the frame being received, if the level never changes again. */
  function ExpectedCycle(c: Config, s: RxState): nat
    requires StateValid(c, s)
  {
    U32(s.last + (c.n - s.rx.curBit) * c.bitCycles)
  }

  /** May the pending frame be closed with a faux stop bit? */
  predicate FauxDue(c: Config, s: RxState, now: nat)
    requires StateValid(c, s)
  {
    s.rx.curBit < c.n && S32(now - ExpectedCycle(c, s)) > 0
  }

  function Faux(c: Config, s: RxState): (s': RxState)
    requires StateValid(c, s)
    ensures StateValid(c, s')
  {
    OnEdge(c, s, Stamp(ExpectedCycle(c, s), !c.invert))
  }

  /** One poll: the queue is sampled first, then the clock; `arrived` are the stamps that the interrupt
      routine adds in between. */
  function PollStep(c: Config, s: RxState, queue: seq<int>, arrived: seq<int>, now: nat): (s': RxState)
    requires StateValid(c, s)
    ensures StateValid(c, s')
  {
    Feed(c, if queue == [] && FauxDue(c, s, now) then Faux(c, s) else s, queue + arrived)
  }

  /** The stamps that find room behind a queue. */
  function Taken(queued: nat, arrived: seq<int>, capacity: nat): seq<int>
    requires queued <= capacity
  {
    arrived[..Min(|arrived|, capacity - queued)]
  }

  /** `rxBits` and the fields it works on. `out` is every byte handed to the receive buffer. */
  class Receiver {
    const config: Config
    const isrCapacity: nat
    var isrLastCycle: nat
    var rxCurBit: int
    var rxCurByte: bv8
    var out: seq<bv8>
    var isrBuffer: seq<nat>
    var isrOverflow: bool
    var overflow: bool

    ghost predicate Valid()
      reads this
    {
      StateValid(config, State()) && |isrBuffer| <= isrCapacity
    }

    ghost function State(): RxState
      reads this
    {
      RxState(isrLastCycle, Rx(rxCurBit, rxCurByte, out))
    }

    /** `enableRx`: idle at the current cycle. */
    constructor (config: Config, isrCapacity: nat, cycle: nat)
      requires ConfigValid(config)
      ensures Valid() && this.config == config && this.isrCapacity == isrCapacity
      ensures isrBuffer == [] && !isrOverflow && !overflow
      ensures State() == RxState(Stamp(cycle, !config.invert), Rx(config.n, 0, []))
    {
      this.config, this.isrCapacity, isrOverflow, overflow := config, isrCapacity, false, false;
      isrLastCycle := Stamp(cycle, !config.invert);
      rxCurBit, rxCurByte, out, isrBuffer := config.n, 0, [], [];
    }

    /** `rxBits(isrCycle)`: the loop decodes exactly one `RunStep`. */
    method RxBits(isrCycle: nat)
      requires Valid()
      modifies this`isrLastCycle, this`rxCurBit, this`rxCurByte, this`out
      ensures Valid() && State() == OnEdge(config, old(State()), isrCycle)
    {
      hide BitSteps, Shift, RunStep, RoundedBits;
      var n, bitCycles := config.n, config.bitCycles;
      var level := Level(config, isrLastCycle);
      var cycles := S32(isrCycle - isrLastCycle);
      isrLastCycle := isrCycle;
      var bits := RoundedBits(cycles, bitCycles);
      ghost var r0, bits0 := Rx(rxCurBit, rxCurByte, out), bits;
      while bits > 0
        invariant RxValid(n, Rx(rxCurBit, rxCurByte, out)) && isrLastCycle == isrCycle
        invariant RunStep(n, Rx(rxCurBit, rxCurByte, out), level, bits) == RunStep(n, r0, level, bits0)
        decreases bits
      {
        ghost var r := Rx(rxCurBit, rxCurByte, out);
        if rxCurBit >= n {
          if level {
            RunIdleHigh(n, r, bits);
            break;
          }
          RunStart(n, r, bits);
          rxCurBit := -1;
          bits := bits - 1;
        } else if rxCurBit < n - 1 {
          var dataBits := Min(bits, n - rxCurBit - 1);
          RunData(n, r, level, bits, dataBits);
          rxCurBit := rxCurBit + dataBits;
          bits := bits - dataBits;
          rxCurByte := Shift(rxCurByte, dataBits, level);
        } else {
          RunStop(n, r, level, bits);
          if level { out := out + [rxCurByte >> (8 - n)]; }
          rxCurBit := rxCurBit + 1;
          rxCurByte := 0;
          break;
        }
      }
      RunNone(n, Rx(rxCurBit, rxCurByte, out), level);
    }

    /** `rxBitISR`: stamps the new level, unless the queue is full, which it notes. */
    method RxBitISR(curCycle: nat, level: bool)
      requires curCycle < TWO_32 && Valid()
      modifies this`isrBuffer, this`isrOverflow
      ensures Valid()
      ensures if old(|isrBuffer| < isrCapacity) then
          isrBuffer == old(isrBuffer) + [Stamp(curCycle, level)] && isrOverflow == old(isrOverflow)
        else isrBuffer == old(isrBuffer) && isrOverflow
    {
      Push(Stamp(curCycle, level));
    }

    method Push(stamp: nat)
      requires Valid()
      modifies this`isrBuffer, this`isrOverflow
      ensures Valid()
      ensures if old(|isrBuffer| < isrCapacity) then
          isrBuffer == old(isrBuffer) + [stamp] && isrOverflow == old(isrOverflow)
        else isrBuffer == old(isrBuffer) && isrOverflow
    {
      if |isrBuffer| < isrCapacity {
        isrBuffer := isrBuffer + [stamp];
      } else {
        isrOverflow := true;
      }
    }

    /** The interrupt routine at work while a poll is between its two looks. */
    method Arrive(arrived: seq<nat>)
      requires Valid()
      modifies this`isrBuffer, this`isrOverflow
      ensures Valid() && isrBuffer == old(isrBuffer) + Taken(|old(isrBuffer)|, arrived, isrCapacity)
      ensures isrOverflow == (old(isrOverflow) || |isrBuffer| < |old(isrBuffer)| + |arrived|)
    {
      for i := 0 to |arrived|
        invariant Valid() && isrBuffer == old(isrBuffer) + Taken(|old(isrBuffer)|, arrived[..i], isrCapacity)
        invariant isrOverflow == (old(isrOverflow) || |isrBuffer| < |old(isrBuffer)| + i)
      {
        Push(arrived[i]);
      }
      assert arrived[..|arrived|] == arrived;
    }

    /** `rxBits()`: takes note of an overflow, closes an overdue frame if it saw no edge, and decodes the queue. */
    method Poll(arrived: seq<nat>, now: nat)
      requires Valid()
      modifies this
      ensures Valid() && isrBuffer == []
      ensures State() ==
        PollStep(config, old(State()), old(isrBuffer), Taken(|old(isrBuffer)|, arrived, isrCapacity), now)
      ensures overflow == (old(overflow) || old(isrOverflow))
      ensures isrOverflow == (isrCapacity < |old(isrBuffer)| + |arrived|)
    {
      hide OnEdge;
      var isrAvail := |isrBuffer|;
      if isrOverflow {
        overflow, isrOverflow := true, false;
      }
      Arrive(arrived);
      if isrAvail == 0 && -1 <= rxCurBit < config.n {
        var expectedCycle := U32(isrLastCycle + (config.n - rxCurBit) * config.bitCycles);
        if S32(now - expectedCycle) > 0 {
          RxBits(Stamp(expectedCycle, !config.invert));
        }
      }
      DecodeQueue();
    }

    method DecodeQueue()
      requires Valid()
      modifies this`isrLastCycle, this`rxCurBit, this`rxCurByte, this`out, this`isrBuffer
      ensures Valid() && isrBuffer == [] && State() == Feed(config, old(State()), old(isrBuffer))
    {
      hide OnEdge;
      ghost var s0, stamps := State(), isrBuffer;
      while isrBuffer != []
        invariant Valid() && Feed(config, State(), isrBuffer) == Feed(config, s0, stamps)
        decreases |isrBuffer|
      {
        RxBits(isrBuffer[0]);
        isrBuffer := isrBuffer[1..];
      }
    }

    /** `overflow()`: tells, once, whether edges were lost. */
    method TakeOverflow() returns (res: bool)
      modifies this`overflow
      ensures res == old(overflow) && !overflow
    {
      res := overflow;
      overflow := false;
    }
  }
}
