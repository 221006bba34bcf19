/**
 The transmitter: merges the bits of its frames into (high, low) periods. The periods are proved to spell
 the frames, run by run.
 */
module UartTransmit {
  import opened CInt
  import opened UartFrame
  import opened UartReceive

  /** One call of `writePeriod`: high for `duty` cycles, then low for `off`; zero leaves a level out. */
  datatype Period = Period(duty: nat, off: nat, withStopBit: bool)

  /** A line level held for some cycles. */
  datatype Segment = Segment(level: bool, cycles: nat)

  /** A logical level held for some bit times. */
  datatype Run = Run(level: bool, bits: nat)

  function PeriodSegments(duty: nat, off: nat): seq<Segment> {
    (if duty > 0 then [Segment(true, duty)] else []) + (if off > 0 then [Segment(false, off)] else [])
  }

  function Segments(periods: seq<Period>): seq<Segment> {
    if periods == [] then []
    else
      var last := |periods| - 1;
      Segments(periods[..last]) + PeriodSegments(periods[last].duty, periods[last].off)
  }

  function AddBit(runs: seq<Run>, level: bool): (r: seq<Run>)
    ensures r != [] && r[|r| - 1].level == level
  {
    if runs != [] && runs[|runs| - 1].level == level then
      runs[..|runs| - 1] + [Run(level, runs[|runs| - 1].bits + 1)]
    else runs + [Run(level, 1)]
  }

  /** The run lengths of a bit sequence. */
  function Runs(bits: seq<bool>): (r: seq<Run>)
    ensures bits != [] ==> r != [] && r[|r| - 1].level == bits[|bits| - 1]
  {
    if bits == [] then [] else AddBit(Runs(bits[..|bits| - 1]), bits[|bits| - 1])
  }

  function Flatten(runs: seq<Run>): seq<bool> {
    if runs == [] then []
    else Flatten(runs[..|runs| - 1]) + Rep(runs[|runs| - 1].level, runs[|runs| - 1].bits)
  }

  predicate Alternating(runs: seq<Run>) {
    && (forall i | 0 <= i < |runs| :: runs[i].bits > 0)
    && (forall i | 0 < i < |runs| :: runs[i].level != runs[i - 1].level)
  }

  lemma RunsSnoc(bits: seq<bool>, level: bool)
    ensures Runs(bits + [level]) == AddBit(Runs(bits), level)
  {
    assert (bits + [level])[..|bits|] == bits;
  }

  /** Run lengths lose nothing, and the levels alternate: they are the edges of the signal. */
  lemma {:induction false} RunsSpell(bits: seq<bool>)
    ensures Flatten(Runs(bits)) == bits && Alternating(Runs(bits))
    decreases |bits|
  {
    if bits != [] {
      hide Flatten, AddBit, Alternating, Runs;
      var front, level := bits[..|bits| - 1], bits[|bits| - 1];
      assert front + [level] == bits;
      RunsSpell(front);
      RunsSnoc(front, level);
      AddBitSpells(Runs(front), level);
    }
  }

  lemma {:induction false} AddBitSpells(runs: seq<Run>, level: bool)
    requires Alternating(runs)
    ensures Flatten(AddBit(runs, level)) == Flatten(runs) + [level]
    ensures Alternating(AddBit(runs, level))
  {
    var r := AddBit(runs, level);
    if runs != [] && runs[|runs| - 1].level == level {
      var front, k := runs[..|runs| - 1], runs[|runs| - 1].bits;
      assert r[..|r| - 1] == front;
      assert Rep(level, k + 1) == Rep(level, k) + [level];
      assert Flatten(r) == Flatten(front) + (Rep(level, k) + [level]);
      assert Flatten(runs) == Flatten(front) + Rep(level, k);
    } else {
      assert r[..|r| - 1] == runs;
      assert Rep(level, 1) == [level];
    }
  }

  /** Runs of bit times as segments of cycles on the line. */
  function Scaled(runs: seq<Run>, invert: bool, bitCycles: nat): (s: seq<Segment>)
    ensures |s| == |runs|
  {
    seq(|runs|, i requires 0 <= i < |runs| =>
      Segment(runs[i].level != invert, runs[i].bits * bitCycles))
  }

  function AddCycles(segs: seq<Segment>, level: bool, cycles: nat): seq<Segment> {
    if segs != [] && segs[|segs| - 1].level == level then
      segs[..|segs| - 1] + [Segment(level, segs[|segs| - 1].cycles + cycles)]
    else segs + [Segment(level, cycles)]
  }

  lemma ScaledAddBit(runs: seq<Run>, level: bool, invert: bool, bitCycles: nat)
    ensures Scaled(AddBit(runs, level), invert, bitCycles) ==
      AddCycles(Scaled(runs, invert, bitCycles), level != invert, bitCycles)
  {
    if runs != [] && runs[|runs| - 1].level == level {
      var k := runs[|runs| - 1].bits;
      assert (k + 1) * bitCycles == k * bitCycles + bitCycles;
    } else {
      assert 1 * bitCycles == bitCycles;
    }
  }

  /** The 32-bit word that `write` builds: start bit lowest, already at line levels. */
  function Word(b: bv8, n: nat, invert: bool): bv32
    requires 5 <= n <= 8
  {
    var dataMask := (1 as bv32 << n) - 1;
    var stop := (if invert then 0 else 1) << n;
    var data := (if invert then !(b as bv32) else b as bv32) & dataMask;
    ((stop | data) << 1) | (if invert then 1 else 0)
  }

  function WordBit(w: bv32, i: nat): bool
    requires i < 32
  {
    (w >> i) & 1 == 1
  }

  lemma {:induction false} DataBitAt(b: bv8, from: nat, n: nat, i: nat)
    requires from <= i < n <= 8
    ensures DataBits(b, from, n)[i - from] == Bit(b, i)
    decreases i - from
  {
    if i > from { DataBitAt(b, from + 1, n, i); }
  }

  lemma FrameAt(b: bv8, n: nat, i: nat)
    requires n <= 8 && i < n + 2
    ensures Frame(b, n)[i] == if i == 0 then false else if i <= n then Bit(b, i - 1) else true
  {
    if 1 <= i <= n { DataBitAt(b, 0, n, i - 1); }
  }

  /** Each bit of the word is the line level of that bit of the frame. */
  lemma WordIsFrame(b: bv8, n: nat, invert: bool, i: nat)
    requires 5 <= n <= 8 && i < n + 2
    ensures WordBit(Word(b, n, invert), i) == (Frame(b, n)[i] != invert)
  {
    FrameAt(b, n, i);
    WordBitAt(b, n, invert, i);
  }

  lemma WordBitAt(b: bv8, n: nat, invert: bool, i: nat)
    requires 5 <= n <= 8 && i < n + 2
    ensures WordBit(Word(b, n, invert), i) ==
      ((if i == 0 then false else if i <= n then Bit(b, i - 1) else true) != invert)
  {
    assert n == 5 || n == 6 || n == 7 || n == 8;
    if
    case i == 0 =>
    case i == 1 =>
    case i == 2 =>
    case i == 3 =>
    case i == 4 =>
    case i == 5 =>
    case i == 6 =>
    case i == 7 =>
    case i == 8 =>
    case i == 9 =>
  }

  /** The frames of `bytes`, back to back. */
  function Frames(bytes: seq<bv8>, n: nat): seq<bool>
    requires n <= 8
  {
    if bytes == [] then []
    else Frames(bytes[..|bytes| - 1], n) + Frame(bytes[|bytes| - 1], n)
  }

  /** The whole waveform: one cycle of the idle level, then the runs of the bits. */
  function Waveform(bits: seq<bool>, invert: bool, bitCycles: nat): seq<Segment> {
    [Segment(!invert, 1)] + Scaled(Runs(bits), invert, bitCycles)
  }

  /** The waveform of the bits so far, and what `write` holds of it in its last, unfinished period. */
  ghost predicate Written(
      bits: seq<bool>, invert: bool, bitCycles: nat, periods: seq<Period>, duty: nat, off: nat, b: bool)
  {
    && bitCycles > 0
    && Segments(periods) + PeriodSegments(duty, off) == Waveform(bits, invert, bitCycles)
    && (if b then duty > 0 && off == 0 else off > 0)
    && b == (if bits == [] then !invert else bits[|bits| - 1] != invert)
  }

  /** One more bit extends the last segment or starts the next; only the first bit after idle must differ. */
  lemma WaveformAddBit(bits: seq<bool>, level: bool, invert: bool, bitCycles: nat)
    requires bits == [] ==> !level
    ensures Waveform(bits + [level], invert, bitCycles) ==
      AddCycles(Waveform(bits, invert, bitCycles), level != invert, bitCycles)
  {
    hide Scaled, AddBit;
    RunsSnoc(bits, level);
    ScaledAddBit(Runs(bits), level, invert, bitCycles);
    if bits == [] {
      assert Scaled([], invert, bitCycles) == [];
    } else {
      hide Runs;
      LastScaled(Runs(bits), invert, bitCycles);
      AddCyclesAfter([Segment(!invert, 1)], Scaled(Runs(bits), invert, bitCycles), level != invert, bitCycles);
    }
  }

  lemma LastScaled(runs: seq<Run>, invert: bool, bitCycles: nat)
    ensures runs != [] ==> Scaled(runs, invert, bitCycles) != []
  {
  }

  lemma AddCyclesAfter(a: seq<Segment>, b: seq<Segment>, level: bool, cycles: nat)
    requires b != []
    ensures AddCycles(a + b, level, cycles) == a + AddCycles(b, level, cycles)
  {
  }

  /** A bit of the level held so far lengthens the current period. */
  lemma SameLevel(bits: seq<bool>, invert: bool, bitCycles: nat, periods: seq<Period>, duty: nat, off: nat,
                  b: bool, level: bool)
    requires Written(bits, invert, bitCycles, periods, duty, off, b)
    requires b == (level != invert) && (bits == [] ==> !level)
    ensures Written(bits + [level], invert, bitCycles, periods,
                    if b then duty + bitCycles else duty, if b then off else off + bitCycles, b)
  {
    hide Waveform, Segments;
    WaveformAddBit(bits, level, invert, bitCycles);
  }

  /** A falling edge starts the low part of the current period. */
  lemma FallingEdge(bits: seq<bool>, invert: bool, bitCycles: nat, periods: seq<Period>, duty: nat, off: nat,
                    level: bool)
    requires Written(bits, invert, bitCycles, periods, duty, off, true)
    requires level == invert && (bits == [] ==> !level)
    ensures Written(bits + [level], invert, bitCycles, periods, duty, off + bitCycles, false)
  {
    hide Waveform, Segments;
    WaveformAddBit(bits, level, invert, bitCycles);
  }

  /** A rising edge finishes the current period. */
  lemma RisingEdge(bits: seq<bool>, invert: bool, bitCycles: nat, periods: seq<Period>, p: Period, level: bool)
    requires Written(bits, invert, bitCycles, periods, p.duty, p.off, false)
    requires level != invert && (bits == [] ==> !level)
    ensures Written(bits + [level], invert, bitCycles, periods + [p], bitCycles, 0, true)
  {
    hide Waveform, Segments;
    WaveformAddBit(bits, level, invert, bitCycles);
    SegmentsSnoc(periods, p);
  }

  /** `write`: `periods` are the calls it makes of `writePeriod`. */
  method Write(buffer: seq<bv8>, n: nat, invert: bool, bitCycles: nat) returns (periods: seq<Period>)
    requires 5 <= n <= 8 && bitCycles > 0
    ensures Segments(periods) == Waveform(Frames(buffer, n), invert, bitCycles)
  {
    hide Frames, Waveform, Segments, Word, WordBit, Frame, PeriodSegments, Written;
    var b := !invert;
    var dutyCycle, offCycle := if b then 1 else 0, if invert then 1 else 0;
    periods := [];
    ghost var bits := [];
    NothingWritten(invert, bitCycles);
    FramesEmpty(n);
    for cnt := 0 to |buffer|
      invariant bits == Frames(buffer[..cnt], n)
      invariant Written(bits, invert, bitCycles, periods, dutyCycle, offCycle, b)
      invariant bits != [] ==> bits[|bits| - 1]
    {
      var withStopBit := true;
      var word := Word(buffer[cnt], n, invert);
      ghost var frame := Frame(buffer[cnt], n);
      FrameEnds(buffer[cnt], n);
      for i := 0 to n + 2
        invariant bits == Frames(buffer[..cnt], n) + frame[..i]
        invariant i == 0 ==> (bits != [] ==> bits[|bits| - 1])
        invariant Written(bits, invert, bitCycles, periods, dutyCycle, offCycle, b)
      {
        var pb := b;
        b := WordBit(word, i);
        WordIsFrame(buffer[cnt], n, invert, i);
        if !pb && b {
          var period := Period(dutyCycle, offCycle, withStopBit);
          RisingEdge(bits, invert, bitCycles, periods, period, frame[i]);
          periods := periods + [period];
          withStopBit := false;
          dutyCycle, offCycle := 0, 0;
        } else if pb == b {
          SameLevel(bits, invert, bitCycles, periods, dutyCycle, offCycle, b, frame[i]);
        } else {
          FallingEdge(bits, invert, bitCycles, periods, dutyCycle, offCycle, frame[i]);
        }
        if b {
          dutyCycle := dutyCycle + bitCycles;
        } else {
          offCycle := offCycle + bitCycles;
        }
        bits := bits + [frame[i]];
        assert frame[..i + 1] == frame[..i] + [frame[i]];
      }
      FramesSnoc(buffer[..cnt + 1], n);
      assert buffer[..cnt + 1][..cnt] == buffer[..cnt] && frame[..n + 2] == frame;
    }
    assert buffer[..|buffer|] == buffer;
    AllWritten(bits, invert, bitCycles, periods, Period(dutyCycle, offCycle, true), b);
    periods := periods + [Period(dutyCycle, offCycle, true)];
  }

  lemma NothingWritten(invert: bool, bitCycles: nat)
    requires bitCycles > 0
    ensures Written([], invert, bitCycles, [], if invert then 0 else 1, if invert then 1 else 0, !invert)
  {
  }

  lemma AllWritten(bits: seq<bool>, invert: bool, bitCycles: nat, periods: seq<Period>, p: Period, b: bool)
    requires Written(bits, invert, bitCycles, periods, p.duty, p.off, b)
    ensures Segments(periods + [p]) == Waveform(bits, invert, bitCycles)
  {
    SegmentsSnoc(periods, p);
  }

  lemma FramesEmpty(n: nat)
    requires n <= 8
    ensures Frames([], n) == []
  {
  }

  lemma FramesSnoc(bytes: seq<bv8>, n: nat)
    requires n <= 8 && bytes != []
    ensures Frames(bytes, n) == Frames(bytes[..|bytes| - 1], n) + Frame(bytes[|bytes| - 1], n)
  {
  }

  lemma FrameEnds(b: bv8, n: nat)
    requires n <= 8
    ensures |Frame(b, n)| == n + 2 && !Frame(b, n)[0] && Frame(b, n)[n + 1]
  {
  }

  lemma SegmentsSnoc(periods: seq<Period>, p: Period)
    ensures Segments(periods + [p]) == Segments(periods) + PeriodSegments(p.duty, p.off)
  {
    assert (periods + [p])[..|periods|] == periods;
  }

  function TotalCycles(segs: seq<Segment>): nat {
    if segs == [] then 0 else TotalCycles(segs[..|segs| - 1]) + segs[|segs| - 1].cycles
  }

  lemma AddCyclesTotal(segs: seq<Segment>, level: bool, cycles: nat)
    ensures TotalCycles(AddCycles(segs, level, cycles)) == TotalCycles(segs) + cycles
  {
    var r := AddCycles(segs, level, cycles);
    if segs != [] && segs[|segs| - 1].level == level {
      assert r[..|r| - 1] == segs[..|segs| - 1];
    } else {
      assert r[..|r| - 1] == segs;
    }
  }

  lemma IdleCycle(invert: bool, bitCycles: nat)
    ensures TotalCycles(Waveform([], invert, bitCycles)) == 1
  {
    hide Runs, TotalCycles;
    assert Runs([]) == [] by { RunsNil(); }
    OneSegment(Segment(!invert, 1));
    assert Waveform([], invert, bitCycles) == [Segment(!invert, 1)];
  }

  lemma RunsNil()
    ensures Runs([]) == []
  {
  }

  lemma OneSegment(seg: Segment)
    ensures TotalCycles([seg]) == seg.cycles
  {
    assert [seg][..0] == [];
  }

  /** The waveform of a bit sequence that starts low lasts one cycle and the bit time of each bit. */
  lemma {:induction false} WaveformTotal(bits: seq<bool>, invert: bool, bitCycles: nat)
    requires bits != [] ==> !bits[0]
    ensures TotalCycles(Waveform(bits, invert, bitCycles)) == 1 + |bits| * bitCycles
    decreases |bits|
  {
    hide Waveform, TotalCycles, AddCycles;
    if bits == [] {
      IdleCycle(invert, bitCycles);
    } else {
      var front, level := bits[..|bits| - 1], bits[|bits| - 1];
      WaveformTotal(front, invert, bitCycles);
      assert bits == front + [level];
      WaveformAddBit(front, level, invert, bitCycles);
      AddCyclesTotal(Waveform(front, invert, bitCycles), level != invert, bitCycles);
      assert |bits| * bitCycles == |front| * bitCycles + bitCycles;
    }
  }

  lemma {:induction false} FramesShape(bytes: seq<bv8>, n: nat)
    requires n <= 8
    ensures |Frames(bytes, n)| == |bytes| * (n + 2)
    ensures bytes != [] ==> !Frames(bytes, n)[0] && Frames(bytes, n)[|Frames(bytes, n)| - 1]
    decreases |bytes|
  {
    hide Frame;
    if bytes != [] {
      FramesShape(bytes[..|bytes| - 1], n);
      FrameEnds(bytes[|bytes| - 1], n);
      assert |bytes| * (n + 2) == (|bytes| - 1) * (n + 2) + (n + 2);
    }
  }

  lemma {:induction false} FramesAreStream(bytes: seq<bv8>, n: nat)
    requires n <= 8
    ensures Frames(bytes, n) == Stream(bytes, seq(|bytes|, _ => 0), n)
    decreases |bytes|
  {
    if bytes != [] {
      hide Frame, Stream;
      var front, last := bytes[..|bytes| - 1], bytes[|bytes| - 1];
      FramesAreStream(front, n);
      StreamSnoc(front, seq(|front|, _ => 0), last, 0, n);
      assert bytes == front + [last];
      assert seq(|bytes|, _ => 0) == seq(|front|, _ => 0) + [0];
      assert Rep(true, 0) == [];
    }
  }

  /** No run is longer than a frame less one bit: neither the 32-bit cycle counts of `write` nor the
      eight-bit run lengths of the receiver overflow on frames sent back to back. */
  predicate Short(runs: seq<Run>, m: nat) {
    forall i | 0 <= i < |runs| :: runs[i].bits <= m
  }

  lemma {:induction false} FramesShort(bytes: seq<bv8>, n: nat)
    requires n <= 8
    ensures Short(Runs(Frames(bytes, n)), n + 1)
    decreases |bytes|
  {
    if bytes != [] {
      var front, frame := Frames(bytes[..|bytes| - 1], n), Frame(bytes[|bytes| - 1], n);
      FramesShort(bytes[..|bytes| - 1], n);
      FramesShape(bytes[..|bytes| - 1], n);
      FrameEnds(bytes[|bytes| - 1], n);
      FrameShort(front, frame, n, n + 2);
      assert frame[..n + 2] == frame;
    }
  }

  /** After `i` bits of a frame: its last run began at or after its start bit. */
  predicate FrameTail(runs: seq<Run>, n: nat, i: nat) {
    && Short(runs, n + 1)
    && runs != []
    && var last := runs[|runs| - 1]; last.bits <= (if last.level then i - 1 else i)
  }

  lemma TailStarts(runs: seq<Run>, n: nat)
    requires Short(runs, n + 1) && (runs != [] ==> runs[|runs| - 1].level)
    ensures FrameTail(AddBit(runs, false), n, 1)
  {
  }

  lemma TailGrows(runs: seq<Run>, n: nat, i: nat, level: bool)
    requires FrameTail(runs, n, i) && 1 <= i < n + 2 && (i == n + 1 ==> level)
    ensures FrameTail(AddBit(runs, level), n, i + 1)
  {
  }

  lemma {:induction false} FrameShort(front: seq<bool>, frame: seq<bool>, n: nat, i: nat)
    requires |frame| == n + 2 && !frame[0] && frame[n + 1] && 1 <= i <= n + 2
    requires Short(Runs(front), n + 1) && (front != [] ==> front[|front| - 1])
    ensures FrameTail(Runs(front + frame[..i]), n, i)
    decreases i
  {
    hide Runs, FrameTail, AddBit, Short;
    var level := frame[i - 1];
    assert front + frame[..i] == (front + frame[..i - 1]) + [level];
    RunsSnoc(front + frame[..i - 1], level);
    if i == 1 {
      assert front + frame[..0] == front;
      RunsNil();
      TailStarts(Runs(front), n);
    } else {
      FrameShort(front, frame, n, i - 1);
      TailGrows(Runs(front + frame[..i - 1]), n, i - 1, level);
    }
  }

  lemma {:induction false} StreamSnoc(bytes: seq<bv8>, gaps: seq<nat>, b: bv8, gap: nat, n: nat)
    requires n <= 8 && |bytes| == |gaps|
    ensures Stream(bytes + [b], gaps + [gap], n) == Stream(bytes, gaps, n) + Frame(b, n) + Rep(true, gap)
    decreases |bytes|
  {
    if bytes == [] {
      assert [b][1..] == [] && [gap][1..] == [];
    } else {
      assert (bytes + [b])[1..] == bytes[1..] + [b] && (gaps + [gap])[1..] == gaps[1..] + [gap];
      StreamSnoc(bytes[1..], gaps[1..], b, gap, n);
    }
  }

  /** MAIN (transmit): what `write` puts on the line lasts exactly one cycle and `n + 2` bit times a byte. */
  lemma WaveformOfFrames(bytes: seq<bv8>, n: nat, invert: bool, bitCycles: nat)
    requires n <= 8
    ensures TotalCycles(Waveform(Frames(bytes, n), invert, bitCycles)) == 1 + |bytes| * (n + 2) * bitCycles
    ensures Flatten(Runs(Frames(bytes, n))) == Frames(bytes, n)
    ensures Alternating(Runs(Frames(bytes, n))) && Short(Runs(Frames(bytes, n)), n + 1)
    ensures Frames(bytes, n) == Stream(bytes, seq(|bytes|, _ => 0), n)
  {
    FramesShape(bytes, n);
    FramesAreStream(bytes, n);
    WaveformTotal(Frames(bytes, n), invert, bitCycles);
    RunsSpell(Frames(bytes, n));
    FramesShort(bytes, n);
  }
}
