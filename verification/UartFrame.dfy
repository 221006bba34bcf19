/**
 Frames on the serial line, and a plain UART receiver that looks at one bit at a time: the reference
 against which the transmitter and the run-length receiver are proved. Levels here are logical: true is
 the idle level, whatever the polarity of the wire.
 */
module UartFrame {
  import opened CInt

  /** The low `n` bits set. */
  function Mask(n: nat): bv8
    requires n <= 8
  {
    ((1 as bv16 << n) - 1) as bv8
  }

  function Bit(b: bv8, i: nat): bool
    requires i < 8
  {
    (b >> i) & 1 == 1
  }

  function DataBits(b: bv8, from: nat, n: nat): (bits: seq<bool>)
    requires from <= n <= 8
    ensures |bits| == n - from
    decreases n - from
  {
    if from == n then [] else [Bit(b, from)] + DataBits(b, from + 1, n)
  }

  /** Start bit, data bits from the lowest, stop bit. */
  function Frame(b: bv8, n: nat): seq<bool>
    requires n <= 8
  {
    [false] + DataBits(b, 0, n) + [true]
  }

  function Rep(level: bool, k: nat): (bits: seq<bool>)
    ensures |bits| == k && forall i | 0 <= i < k :: bits[i] == level
  {
    seq(k, _ => level)
  }

  /** The frames of `bytes`, byte `i` followed by `gaps[i]` idle bits. */
  function Stream(bytes: seq<bv8>, gaps: seq<nat>, n: nat): seq<bool>
    requires n <= 8 && |bytes| == |gaps|
  {
    if bytes == [] then []
    else Frame(bytes[0], n) + Rep(true, gaps[0]) + Stream(bytes[1..], gaps[1..], n)
  }

  function Masked(bytes: seq<bv8>, n: nat): seq<bv8>
    requires n <= 8
  {
    seq(|bytes|, i requires 0 <= i < |bytes| => bytes[i] & Mask(n))
  }

  /** Receiver state: -1 after a start bit, then the number of data bits less one, `n` when idle; the
      shift register, filled from the top; the bytes received. */
  datatype Rx = Rx(curBit: int, curByte: bv8, out: seq<bv8>)

  predicate RxValid(n: nat, r: Rx) {
    5 <= n <= 8 && -1 <= r.curBit <= n
  }

  /** `k` bits of one level enter the shift register. */
  function Shift(b: bv8, k: nat, level: bool): bv8
    requires k <= 8
  {
    (b >> k) | (if level then 0xFF << (8 - k) else 0)
  }

  /** The receiver of one bit: waits for a low start bit, shifts data bits in, and at the stop bit
      delivers the byte if the bit is high and discards it otherwise. */
  function BitStep(n: nat, r: Rx, level: bool): (r': Rx)
    requires RxValid(n, r)
    ensures RxValid(n, r')
  {
    if r.curBit == n then
      if level then r else r.(curBit := -1)
    else if r.curBit < n - 1 then
      r.(curBit := r.curBit + 1, curByte := Shift(r.curByte, 1, level))
    else
      Rx(n, 0, if level then r.out + [r.curByte >> (8 - n)] else r.out)
  }

  function BitSteps(n: nat, r: Rx, bits: seq<bool>): (r': Rx)
    requires RxValid(n, r)
    ensures RxValid(n, r')
    decreases |bits|
  {
    if bits == [] then r else BitSteps(n, BitStep(n, r, bits[0]), bits[1..])
  }

  lemma BitStepsNil(n: nat, r: Rx)
    requires RxValid(n, r)
    ensures BitSteps(n, r, []) == r
  {
  }

  lemma {:induction false} BitStepsConcat(n: nat, r: Rx, a: seq<bool>, b: seq<bool>)
    requires RxValid(n, r)
    ensures BitSteps(n, r, a + b) == BitSteps(n, BitSteps(n, r, a), b)
    decreases |a|
  {
    if a == [] {
      assert a + b == b;
    } else {
      assert (a + b)[1..] == a[1..] + b;
      BitStepsConcat(n, BitStep(n, r, a[0]), a[1..], b);
    }
  }

  lemma {:induction false} IdleStays(n: nat, r: Rx, k: nat)
    requires RxValid(n, r) && r.curBit == n
    ensures BitSteps(n, r, Rep(true, k)) == r
  {
    if k > 0 {
      assert Rep(true, k)[1..] == Rep(true, k - 1);
      IdleStays(n, r, k - 1);
    }
  }

  /** The top `i` bits of the register are the low `i` bits of the byte. */
  predicate Entered(acc: bv8, b: bv8, i: nat)
    requires i <= 8
  {
    acc >> (8 - i) == b & Mask(i)
  }

  /** One more data bit in the register is one more bit of the byte. */
  lemma DataBitEnters(acc: bv8, b: bv8, i: nat)
    requires i < 8 && Entered(acc, b, i)
    ensures Entered(Shift(acc, 1, Bit(b, i)), b, i + 1)
  {
    if
    case i == 0 =>
    case i == 1 =>
    case i == 2 =>
    case i == 3 =>
    case i == 4 =>
    case i == 5 =>
    case i == 6 =>
    case i == 7 =>
  }

  lemma {:induction false} DataBitsEnter(n: nat, r: Rx, b: bv8)
    requires RxValid(n, r) && r.curBit < n
    requires Entered(r.curByte, b, r.curBit + 1)
    ensures
      var r' := BitSteps(n, r, DataBits(b, r.curBit + 1, n));
      r'.curBit == n - 1 && r'.out == r.out && Entered(r'.curByte, b, n)
    decreases n - r.curBit
  {
    hide Entered, Shift, Bit;
    var i := r.curBit + 1;
    if i < n {
      DataBitEnters(r.curByte, b, i);
      DataBitsEnter(n, BitStep(n, r, Bit(b, i)), b);
    }
  }

  lemma NoBitsYet(acc: bv8, b: bv8)
    ensures Entered(acc, b, 0)
  {
  }

  lemma BitStepsOne(n: nat, r: Rx, level: bool)
    requires RxValid(n, r)
    ensures BitSteps(n, r, [level]) == BitStep(n, r, level)
  {
    assert [level][1..] == [];
  }

  /** The stop bit of a frame delivers the byte that has entered. */
  lemma StopDelivers(n: nat, r: Rx, b: bv8)
    requires RxValid(n, r) && r.curBit == n - 1 && Entered(r.curByte, b, n)
    ensures BitStep(n, r, true) == Rx(n, 0, r.out + [b & Mask(n)])
  {
  }

  /** A whole frame delivers its byte, whatever an earlier reception left in the register. */
  lemma FrameDelivers(n: nat, r: Rx, b: bv8)
    requires RxValid(n, r) && r.curBit == n
    ensures BitSteps(n, r, Frame(b, n)) == Rx(n, 0, r.out + [b & Mask(n)])
  {
    hide BitSteps, DataBits, Entered, Shift, Mask;
    var r0 := BitStep(n, r, false);
    NoBitsYet(r0.curByte, b);
    DataBitsEnter(n, r0, b);
    var data := DataBits(b, 0, n);
    var r1 := BitSteps(n, r0, data);
    BitStepsOne(n, r, false);
    BitStepsConcat(n, r, [false], data);
    BitStepsConcat(n, r, [false] + data, [true]);
    BitStepsOne(n, r1, true);
    StopDelivers(n, r1, b);
  }

  lemma MaskedCons(bytes: seq<bv8>, n: nat)
    requires n <= 8 && bytes != []
    ensures Masked(bytes, n) == [bytes[0] & Mask(n)] + Masked(bytes[1..], n)
  {
  }

  /** A frame and the idle line behind it deliver one masked byte. */
  lemma PieceDelivers(n: nat, r: Rx, b: bv8, gap: nat)
    requires RxValid(n, r) && r.curBit == n
    ensures BitSteps(n, r, Frame(b, n) + Rep(true, gap)) == Rx(n, 0, r.out + [b & Mask(n)])
  {
    hide BitSteps, Frame, Mask, Rep;
    FrameDelivers(n, r, b);
    IdleStays(n, Rx(n, 0, r.out + [b & Mask(n)]), gap);
    BitStepsConcat(n, r, Frame(b, n), Rep(true, gap));
  }

  /** MAIN (framing): the bit-at-a-time receiver recovers every byte of a stream, masked to the data
      bits, with any idle gaps between frames. */
  lemma {:induction false} StreamDelivers(n: nat, r: Rx, bytes: seq<bv8>, gaps: seq<nat>)
    requires RxValid(n, r) && r.curBit == n && |bytes| == |gaps|
    ensures
      var r' := BitSteps(n, r, Stream(bytes, gaps, n));
      r'.curBit == n && r'.out == r.out + Masked(bytes, n)
    decreases |bytes|
  {
    hide BitSteps, Frame, Mask, Masked, Stream, Rep;
    if bytes == [] {
      StreamNil(gaps, n);
      BitStepsNil(n, r);
    } else {
      var m, piece := bytes[0] & Mask(n), Frame(bytes[0], n) + Rep(true, gaps[0]);
      MaskedCons(bytes, n);
      StreamCons(bytes, gaps, n);
      PieceDelivers(n, r, bytes[0], gaps[0]);
      BitStepsConcat(n, r, piece, Stream(bytes[1..], gaps[1..], n));
      StreamDelivers(n, Rx(n, 0, r.out + [m]), bytes[1..], gaps[1..]);
      assert (r.out + [m]) + Masked(bytes[1..], n) == r.out + ([m] + Masked(bytes[1..], n));
    }
  }

  lemma StreamNil(gaps: seq<nat>, n: nat)
    requires n <= 8 && gaps == []
    ensures Stream([], gaps, n) == [] && Masked([], n) == []
  {
  }

  lemma StreamCons(bytes: seq<bv8>, gaps: seq<nat>, n: nat)
    requires n <= 8 && |bytes| == |gaps| && bytes != []
    ensures Stream(bytes, gaps, n) == Frame(bytes[0], n) + Rep(true, gaps[0]) + Stream(bytes[1..], gaps[1..], n)
  {
  }

  /** No stop bit of the stream is low where the receiver looks for one. */
  ghost predicate NoLowStop(n: nat, r: Rx, bits: seq<bool>)
    requires RxValid(n, r)
    decreases |bits|
  {
    bits == [] ||
    ((r.curBit == n - 1 ==> bits[0]) && NoLowStop(n, BitStep(n, r, bits[0]), bits[1..]))
  }

  lemma {:induction false} NoLowStopConcat(n: nat, r: Rx, a: seq<bool>, b: seq<bool>)
    requires RxValid(n, r)
    ensures NoLowStop(n, r, a + b) <==> NoLowStop(n, r, a) && NoLowStop(n, BitSteps(n, r, a), b)
    decreases |a|
  {
    if a == [] {
      assert a + b == b;
    } else {
      assert (a + b)[1..] == a[1..] + b;
      NoLowStopConcat(n, BitStep(n, r, a[0]), a[1..], b);
    }
  }

  lemma {:induction false} DataHasNoStop(n: nat, r: Rx, bits: seq<bool>)
    requires RxValid(n, r) && r.curBit < n && r.curBit + |bits| <= n - 1
    ensures NoLowStop(n, r, bits) && BitSteps(n, r, bits).curBit == r.curBit + |bits|
    decreases |bits|
  {
    if bits != [] {
      DataHasNoStop(n, BitStep(n, r, bits[0]), bits[1..]);
    }
  }

  lemma {:induction false} IdleHasNoStop(n: nat, r: Rx, k: nat)
    requires RxValid(n, r) && r.curBit == n
    ensures NoLowStop(n, r, Rep(true, k))
  {
    if k > 0 {
      assert Rep(true, k)[1..] == Rep(true, k - 1);
      IdleHasNoStop(n, r, k - 1);
    }
  }

  lemma FrameHasNoLowStop(n: nat, r: Rx, b: bv8)
    requires RxValid(n, r) && r.curBit == n
    ensures NoLowStop(n, r, Frame(b, n))
  {
    var r0 := BitStep(n, r, false);
    var data := DataBits(b, 0, n);
    DataHasNoStop(n, r0, data);
    assert BitSteps(n, r, [false]) == r0 by { assert BitSteps(n, r0, []) == r0; }
    assert NoLowStop(n, r, [false]) by { assert NoLowStop(n, r0, []); }
    NoLowStopConcat(n, r, [false], data);
    BitStepsConcat(n, r, [false], data);
    NoLowStopConcat(n, r, [false] + data, [true]);
    var r1 := BitSteps(n, r0, data);
    assert NoLowStop(n, r1, [true]) by { assert NoLowStop(n, BitStep(n, r1, true), []); }
  }

  lemma {:induction false} StreamHasNoLowStop(n: nat, r: Rx, bytes: seq<bv8>, gaps: seq<nat>)
    requires RxValid(n, r) && r.curBit == n && |bytes| == |gaps|
    ensures NoLowStop(n, r, Stream(bytes, gaps, n))
    decreases |bytes|
  {
    if bytes != [] {
      var frame, gap, rest := Frame(bytes[0], n), Rep(true, gaps[0]), Stream(bytes[1..], gaps[1..], n);
      FrameHasNoLowStop(n, r, bytes[0]);
      FrameDelivers(n, r, bytes[0]);
      var r1 := BitSteps(n, r, frame);
      IdleHasNoStop(n, r1, gaps[0]);
      IdleStays(n, r1, gaps[0]);
      NoLowStopConcat(n, r, frame, gap);
      BitStepsConcat(n, r, frame, gap);
      NoLowStopConcat(n, r, frame + gap, rest);
      StreamHasNoLowStop(n, r1, bytes[1..], gaps[1..]);
    }
  }
}
