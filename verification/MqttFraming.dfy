/**
 The resumable packet reader: reads a packet in pieces as the network delivers them, keeping in the
 receive buffer what has arrived, so that a later call takes up where this one ran out of bytes.
 */
module MqttFraming {
  import opened CInt
  import opened MqttCodec
  import opened Wrappers

  datatype Rc =
    | Success | NothingToRead | SslNothingToRead | ReadTimeout | ReadError | BadLength | ReadFailure | BufferTooShort

  /** The size of a receive buffer: header and length field fit. */
  type Size = n: nat | 5 <= n witness 5

  /** How the network answers one read: the most bytes it delivers, and whether falling short is an error. */
  datatype Delivery = Delivery(count: nat, broken: bool)

  /** The reader: bytes of the current packet in the buffer, bytes still to come, the network's answers to
      the reads ahead, and how many bytes were delivered without being counted. */
  datatype Reader = Reader(buffered: seq<byte>, incoming: seq<byte>, answers: seq<Delivery>, lost: nat)

  datatype Fill = Fill(reader: Reader, rc: Rc)

  datatype Field = Field(reader: Reader, rc: Rc, offset: nat, remLen: nat)

  function Answer(answers: seq<Delivery>): Delivery {
    if answers == [] then Delivery(0, false) else answers[0]
  }

  function Answered(answers: seq<Delivery>): seq<Delivery> {
    if answers == [] then [] else answers[1..]
  }

  /** How many of `want` bytes the next read delivers. */
  function Delivered(r: Reader, want: nat): (n: nat)
    ensures n <= want && n <= |r.incoming|
  {
    Min(Min(Answer(r.answers).count, want), |r.incoming|)
  }

  function ReadRc(r: Reader, want: nat): Rc {
    var n := Delivered(r, want);
    if n == want then Success
    else if Answer(r.answers).broken then ReadError
    else if n == 0 then SslNothingToRead
    else ReadTimeout
  }

  /** `_readWrapper`: make the buffer hold `upTo` bytes. A network that reports no count for a short read
      (`honest` is false) loses the bytes of that read: they are delivered but not counted. */
  function FillTo(r: Reader, upTo: nat, honest: bool): (f: Fill)
    ensures f.rc == Success ==> |f.reader.buffered| >= upTo
  {
    if |r.buffered| >= upTo then Fill(r, Success)
    else
      var want := upTo - |r.buffered|;
      var n := Delivered(r, want);
      var counted := if honest || n == want then n else 0;
      Fill(Reader(r.buffered + r.incoming[..counted], r.incoming[n..], Answered(r.answers), r.lost + n - counted),
           ReadRc(r, want))
  }

  function Digit(value: nat, b: byte, multiplier: nat): nat {
    value + (b as int) % 128 * multiplier
  }

  /** The length field's bytes from position `len` on: value so far, weight of the next digit. */
  function ReadLength(r: Reader, len: nat, value: nat, multiplier: nat, honest: bool): (f: Field)
    requires 1 <= len <= 5
    ensures f.rc == Success ==> f.offset <= |f.reader.buffered|
    decreases 5 - len
  {
    if len > 4 then Field(r, BadLength, 0, 0)
    else
      var fill := FillTo(r, len + 1, honest);
      if fill.rc != Success then Field(fill.reader, fill.rc, 0, 0)
      else
        var b := fill.reader.buffered[len];
        var value' := Digit(value, b, multiplier);
        if b >= 128 then ReadLength(fill.reader, len + 1, value', multiplier * 128, honest)
        else Field(fill.reader, Success, len + 1, value')
  }

  datatype Outcome = Packet(bytes: seq<byte>) | NoPacket(rc: Rc)

  datatype Call = Call(reader: Reader, out: Outcome)

  /** Bytes written over the front of the buffer. */
  function Overwritten(buffered: seq<byte>, data: seq<byte>): (s: seq<byte>)
    ensures |s| == |buffered|
  {
    if |data| >= |buffered| then data[..|buffered|] else data + buffered[|data|..]
  }

  /** One read of the loop that drops a packet. */
  function Dropping(r: Reader, want: nat): Reader {
    var n := Delivered(r, want);
    Reader(Overwritten(r.buffered, r.incoming[..n]), r.incoming[n..], Answered(r.answers), r.lost)
  }

  /** The loop that drops a packet too long for the buffer, `total` of its `remLen` bytes having been read: every
      read goes to the front of the buffer, the first one for a whole buffer. */
  function Drain(r: Reader, remLen: nat, total: nat, want: nat, size: Size): Call
    requires 0 < want
    decreases remLen - total
  {
    var next := Dropping(r, want);
    var rc := ReadRc(r, want);
    var total' := if rc == Success then total + want else total;
    if rc == Success && total' < remLen then Drain(next, remLen, total', Min(remLen - total', size), size)
    else if total' == remLen then Call(next.(buffered := []), NoPacket(BufferTooShort))
    else Call(next, NoPacket(rc))
  }

  /** `_read_packet`, for a buffer of `size` bytes. */
  function ReadPacket(r: Reader, size: Size, honest: bool): Call {
    var header := FillTo(r, 1, honest);
    if header.rc != Success then
      Call(header.reader, NoPacket(if header.rc == SslNothingToRead then NothingToRead else header.rc))
    else
      var field := ReadLength(header.reader, 1, 0, 1, honest);
      if field.rc != Success then Call(field.reader, NoPacket(field.rc))
      else if field.remLen + field.offset >= size then Drain(field.reader, field.remLen, 0, size, size)
      else
        var total := field.offset + field.remLen;
        var body := if field.remLen > 0 then FillTo(field.reader, total, honest) else Fill(field.reader, Success);
        if body.rc != Success then Call(body.reader, NoPacket(ReadFailure))
        else Call(body.reader.(buffered := []), Packet(body.reader.buffered[..total]))
  }

  /** A run of `n` calls: the packets they return, in order. */
  function Calls(r: Reader, n: nat, size: Size, honest: bool): (Reader, seq<seq<byte>>)
    decreases n
  {
    if n == 0 then (r, [])
    else
      var call := ReadPacket(r, size, honest);
      var (last, later) := Calls(call.reader, n - 1, size, honest);
      (last, if call.out.Packet? then [call.out.bytes] + later else later)
  }

  function Concat(packets: seq<seq<byte>>): seq<byte> {
    if packets == [] then [] else packets[0] + Concat(packets[1..])
  }

  /** A packet: header byte, length field of up to four bytes, and as many bytes as it says. */
  predicate WellFormed(p: seq<byte>) {
    p != [] && match DecodeLength(p[1..], 4)
      case None => false
      case Some((remLen, used)) => |p| == 1 + used + remLen
  }

  predicate Fitting(packets: seq<seq<byte>>, size: Size) {
    forall p <- packets :: WellFormed(p) && |p| < size
  }

  /** The buffer holds the first `|r.buffered|` bytes of `p`, perhaps all; the rest of it is next to come. */
  predicate Within(r: Reader, p: seq<byte>, rest: seq<byte>) {
    |r.buffered| <= |p| && r.buffered + r.incoming == p + rest
  }

  lemma WithinPrefix(r: Reader, p: seq<byte>, rest: seq<byte>)
    requires Within(r, p, rest)
    ensures r.buffered == p[..|r.buffered|]
    ensures |r.buffered| >= |p| ==> r.buffered == p && r.incoming == rest
  {
    var n := |r.buffered|;
    assert (r.buffered + r.incoming)[..n] == r.buffered && (p + rest)[..n] == p[..n];
    assert (r.buffered + r.incoming)[n..] == r.incoming;
    if n == |p| { assert (p + rest)[n..] == rest; }
  }

  /** What filling to a point within the packet keeps, unless it loses bytes. */
  lemma FillStays(r: Reader, p: seq<byte>, rest: seq<byte>, upTo: nat, honest: bool)
    requires Within(r, p, rest) && upTo <= |p|
    ensures
      var fill := FillTo(r, upTo, honest);
      && r.lost <= fill.reader.lost
      && (honest || fill.rc == Success ==> fill.reader.lost == r.lost)
      && (fill.reader.lost == r.lost ==>
          && Within(fill.reader, p, rest)
          && |r.buffered| <= |fill.reader.buffered| <= Max(|r.buffered|, upTo)
          && (fill.rc == Success <==> |fill.reader.buffered| >= upTo))
      && fill.rc !in {BadLength, BufferTooShort, ReadFailure}
  {
    if |r.buffered| < upTo {
      var n := Delivered(r, upTo - |r.buffered|);
      assert r.incoming[..n] + r.incoming[n..] == r.incoming;
      assert (r.buffered + r.incoming[..n]) + r.incoming[n..] == r.buffered + r.incoming;
    }
  }

  lemma ContinuedSome(value: nat, multiplier: nat, len: nat, s: seq<byte>, max: nat)
    requires Continued(value, multiplier, len, DecodeLength(s, max)).Some?
    ensures s != [] && max > 0
  {
  }

  lemma DigitMore(value: nat, b: byte, multiplier: nat)
    ensures Digit(value, b, multiplier) == if b >= 128 then value + (b - 128) * multiplier else value + b * multiplier
  {
    assert b >= 128 ==> (b as int) % 128 == b - 128;
    assert b < 128 ==> (b as int) % 128 == b;
  }

  /** Reading the length field within a packet decodes the packet's own field, or runs out of bytes on the
      way and stays within the packet. */
  lemma {:induction false} LengthStays(
      r: Reader, p: seq<byte>, rest: seq<byte>, len: nat, value: nat, multiplier: nat, honest: bool,
      remLen: nat, end: nat)
    requires Within(r, p, rest) && 1 <= len <= 5 && len <= |p| && end <= |p|
    requires Continued(value, multiplier, len, DecodeLength(p[len..], 5 - len)) == Some((remLen, end))
    ensures
      var field := ReadLength(r, len, value, multiplier, honest);
      && r.lost <= field.reader.lost
      && (honest || field.rc == Success ==> field.reader.lost == r.lost)
      && (field.reader.lost == r.lost ==>
          && Within(field.reader, p, rest)
          && |r.buffered| <= |field.reader.buffered| <= Max(|r.buffered|, end)
          && (field.rc == Success <==> |field.reader.buffered| >= end))
      && (field.rc == Success ==> field.offset == end && field.remLen == remLen)
      && field.rc !in {BadLength, BufferTooShort, ReadFailure}
    decreases 5 - len
  {
    hide Within, FillTo, DecodeLength, Continued, Digit;
    ContinuedSome(value, multiplier, len, p[len..], 5 - len);
    FillStays(r, p, rest, len + 1, honest);
    var next := FillTo(r, len + 1, honest).reader;
    ContinuedBeyond(value, multiplier, len, p[len..], 5 - len);
    if FillTo(r, len + 1, honest).rc == Success {
      WithinPrefix(next, p, rest);
      var b := next.buffered[len];
      assert b == p[len] == p[len..][0];
      assert p[len..][1..] == p[len + 1..];
      DigitMore(value, b, multiplier);
      if b >= 128 {
        ContinuedMore(value, multiplier, len, p[len..], 5 - len);
        LengthStays(next, p, rest, len + 1, Digit(value, b, multiplier), multiplier * 128, honest, remLen, end);
      } else {
        ContinuedEnds(value, multiplier, len, p[len..], 5 - len);
      }
    }
  }

  lemma ContinuedBeyond(value: nat, multiplier: nat, len: nat, s: seq<byte>, max: nat)
    ensures var c := Continued(value, multiplier, len, DecodeLength(s, max)); c.Some? ==> c.value.1 >= len + 1
  {
  }

  lemma WellFormedField(p: seq<byte>)
    requires WellFormed(p)
    ensures DecodeLength(p[1..], 4).Some?
    ensures var (remLen, used) := DecodeLength(p[1..], 4).value;
      |p| == 1 + used + remLen && Continued(0, 1, 1, DecodeLength(p[1..], 4)) == Some((remLen, 1 + used))
  {
  }

  /** One call in the middle of a packet that fits the buffer: it returns exactly that packet and starts
      afresh behind it, or, if no byte was lost, no packet and is still within it. */
  lemma CallFrames(r: Reader, p: seq<byte>, rest: seq<byte>, size: Size, honest: bool)
    requires WellFormed(p) && |p| < size && Within(r, p, rest) && |r.buffered| < |p|
    ensures
      var call := ReadPacket(r, size, honest);
      && r.lost <= call.reader.lost
      && (honest ==> call.reader.lost == r.lost)
      && (call.reader.lost == r.lost ==>
          match call.out
          case Packet(bytes) => bytes == p && call.reader.buffered == [] && call.reader.incoming == rest
          case NoPacket(rc) =>
            rc !in {BufferTooShort, BadLength} && Within(call.reader, p, rest)
            && |r.buffered| <= |call.reader.buffered| < |p|)
  {
    hide Within, FillTo, DecodeLength, Continued, ReadLength, WellFormed;
    WellFormedField(p);
    var (remLen, used) := DecodeLength(p[1..], 4).value;
    FillStays(r, p, rest, 1, honest);
    var header := FillTo(r, 1, honest);
    if header.rc == Success {
      LengthStays(header.reader, p, rest, 1, 0, 1, honest, remLen, 1 + used);
      var field := ReadLength(header.reader, 1, 0, 1, honest);
      if field.rc == Success {
        FillStays(field.reader, p, rest, |p|, honest);
        if remLen == 0 { WithinPrefix(field.reader, p, rest); }
        var body := FillTo(field.reader, |p|, honest);
        if body.rc == Success { WithinPrefix(body.reader, p, rest); }
      }
    }
  }

  /** The stream position between calls: inside the first of `packets`, or before anything. */
  predicate AtPacket(r: Reader, packets: seq<seq<byte>>) {
    r.buffered + r.incoming == Concat(packets)
    && if packets == [] then r.buffered == [] else |r.buffered| < |packets[0]|
  }

  lemma AtPacketWithin(r: Reader, packets: seq<seq<byte>>)
    ensures packets != [] ==> (AtPacket(r, packets) <==>
      Within(r, packets[0], Concat(packets[1..])) && |r.buffered| < |packets[0]|)
    ensures packets == [] ==> (AtPacket(r, packets) <==> r.buffered == [] && r.incoming == [])
  {
  }

  lemma AtNextPacket(r: Reader, packets: seq<seq<byte>>)
    requires packets != [] && r.buffered == [] && r.incoming == Concat(packets[1..])
    requires forall p <- packets :: p != []
    ensures AtPacket(r, packets[1..])
  {
    if |packets| > 1 { assert packets[1] in packets; }
  }

  /** With nothing left to read, a call returns no packet. */
  lemma NothingComes(r: Reader, size: Size, honest: bool)
    requires r.buffered == [] && r.incoming == []
    ensures
      var call := ReadPacket(r, size, honest);
      call.out.NoPacket? && call.reader.buffered == [] && call.reader.incoming == [] && call.reader.lost == r.lost
  {
  }

  /** A call between packets whose first read brings nothing says so, or that the line is broken, and changes nothing. */
  lemma IdleLine(r: Reader, size: Size, honest: bool)
    requires r.buffered == [] && (r.incoming == [] || Answer(r.answers).count == 0)
    ensures ReadPacket(r, size, honest) ==
      Call(r.(answers := Answered(r.answers)), NoPacket(if Answer(r.answers).broken then ReadError else NothingToRead))
  {
    assert Delivered(r, 1) == 0 && r.incoming[0..] == r.incoming && [] + r.incoming[..0] == [];
    assert r.buffered + r.incoming[..0] == r.buffered;
  }

  /** One call, seen from the list of packets still to come. */
  lemma CallAdvances(r: Reader, size: Size, honest: bool, packets: seq<seq<byte>>)
    requires AtPacket(r, packets) && Fitting(packets, size)
    ensures
      var call := ReadPacket(r, size, honest);
      && r.lost <= call.reader.lost
      && (honest ==> call.reader.lost == r.lost)
      && (call.reader.lost == r.lost ==>
          match call.out
          case Packet(bytes) => packets != [] && bytes == packets[0] && AtPacket(call.reader, packets[1..])
          case NoPacket(_) => AtPacket(call.reader, packets))
  {
    hide ReadPacket, AtPacket, Within, WellFormed, Concat;
    AtPacketWithin(r, packets);
    var call := ReadPacket(r, size, honest);
    AtPacketWithin(call.reader, packets);
    if packets == [] {
      NothingComes(r, size, honest);
    } else {
      assert packets[0] in packets;
      CallFrames(r, packets[0], Concat(packets[1..]), size, honest);
      forall p | p in packets ensures p != [] { WellFormedField(p); }
      if call.out.Packet? && call.reader.lost == r.lost { AtNextPacket(call.reader, packets); }
    }
  }

  lemma CallsMore(r: Reader, n: nat, size: Size, honest: bool)
    requires n > 0
    ensures
      var call := ReadPacket(r, size, honest);
      var (last, later) := Calls(call.reader, n - 1, size, honest);
      Calls(r, n, size, honest) == (last, if call.out.Packet? then [call.out.bytes] + later else later)
  {
  }

  lemma {:induction false} CallsFrame(r: Reader, n: nat, size: Size, honest: bool, packets: seq<seq<byte>>)
    requires AtPacket(r, packets) && Fitting(packets, size)
    ensures
      var (last, got) := Calls(r, n, size, honest);
      && r.lost <= last.lost
      && (honest ==> last.lost == r.lost)
      && (last.lost == r.lost ==>
          |got| <= |packets| && got == packets[..|got|] && AtPacket(last, packets[|got|..]))
    decreases n
  {
    hide ReadPacket, AtPacket, Calls, WellFormed;
    if n == 0 {
      CallsNone(r, size, honest);
      assert packets[0..] == packets;
    } else {
      CallsMore(r, n, size, honest);
      CallAdvances(r, size, honest, packets);
      var call := ReadPacket(r, size, honest);
      if call.reader.lost == r.lost {
        if call.out.Packet? {
          CallsFrame(call.reader, n - 1, size, honest, packets[1..]);
          var (last, later) := Calls(call.reader, n - 1, size, honest);
          if last.lost == r.lost { assert packets[1..][|later|..] == packets[|later| + 1..]; }
        } else {
          CallsFrame(call.reader, n - 1, size, honest, packets);
        }
      } else {
        LossStays(call.reader, n - 1, size, honest);
      }
    }
  }

  lemma CallsNone(r: Reader, size: Size, honest: bool)
    ensures Calls(r, 0, size, honest) == (r, [])
  {
  }

  function Bytes(r: Reader): nat {
    |r.buffered| + |r.incoming| + r.lost
  }

  lemma {:induction false} LengthBytes(r: Reader, len: nat, value: nat, multiplier: nat, honest: bool)
    requires 1 <= len <= 5
    ensures var f := ReadLength(r, len, value, multiplier, honest).reader; Bytes(f) == Bytes(r) && r.lost <= f.lost
    decreases 5 - len
  {
    hide Digit;
    if len <= 4 {
      var fill := FillTo(r, len + 1, honest);
      if fill.rc == Success && fill.reader.buffered[len] >= 128 {
        LengthBytes(fill.reader, len + 1, Digit(value, fill.reader.buffered[len], multiplier), multiplier * 128, honest);
      }
    }
  }

  lemma {:induction false} DrainBytes(r: Reader, remLen: nat, total: nat, want: nat, size: Size)
    requires 0 < want
    ensures var call := Drain(r, remLen, total, want, size);
      call.out.NoPacket? && call.reader.lost == r.lost && Bytes(call.reader) <= Bytes(r)
    decreases remLen - total
  {
    if ReadRc(r, want) == Success && total + want < remLen {
      DrainBytes(Dropping(r, want), remLen, total + want, Min(remLen - (total + want), size), size);
    }
  }

  /** No call invents bytes: those it returns come out of its buffer. */
  lemma CallBytes(r: Reader, size: Size, honest: bool)
    ensures
      var call := ReadPacket(r, size, honest);
      && r.lost <= call.reader.lost
      && Bytes(call.reader) + (if call.out.Packet? then |call.out.bytes| else 0) <= Bytes(r)
  {
    hide ReadLength, Drain;
    var header := FillTo(r, 1, honest);
    LengthBytes(header.reader, 1, 0, 1, honest);
    var field := ReadLength(header.reader, 1, 0, 1, honest);
    DrainBytes(field.reader, field.remLen, 0, size, size);
  }

  lemma {:induction false} LossStays(r: Reader, n: nat, size: Size, honest: bool)
    ensures
      var (last, got) := Calls(r, n, size, honest);
      r.lost <= last.lost && Bytes(last) + |Concat(got)| <= Bytes(r)
    decreases n
  {
    hide ReadPacket, Bytes;
    if n > 0 {
      CallBytes(r, size, honest);
      LossStays(ReadPacket(r, size, honest).reader, n - 1, size, honest);
    }
  }

  /** The bytes returned, those in the buffer and those still to come make up the stream. */
  predicate Accounted(r: Reader, got: seq<seq<byte>>, stream: seq<byte>) {
    Concat(got) + r.buffered + r.incoming == stream
  }

  /** The read that filling to `upTo` makes is cut short: some of what it wants comes, and not all. */
  predicate Cut(r: Reader, upTo: nat) {
    |r.buffered| < upTo && 0 < Delivered(r, upTo - |r.buffered|) < upTo - |r.buffered|
  }

  predicate LengthCut(r: Reader, len: nat, value: nat, multiplier: nat)
    requires 1 <= len <= 5
    decreases 5 - len
  {
    len <= 4 &&
    var fill := FillTo(r, len + 1, true);
    || Cut(r, len + 1)
    || (fill.rc == Success && fill.reader.buffered[len] >= 128
        && LengthCut(fill.reader, len + 1, Digit(value, fill.reader.buffered[len], multiplier), multiplier * 128))
  }

  predicate CallCut(r: Reader, size: Size) {
    var header := FillTo(r, 1, true);
    || Cut(r, 1)
    || (header.rc == Success &&
        var field := ReadLength(header.reader, 1, 0, 1, true);
        || LengthCut(header.reader, 1, 0, 1)
        || (field.rc == Success && 0 < field.remLen && field.remLen + field.offset < size
            && Cut(field.reader, field.offset + field.remLen)))
  }

  /** On the way through `n` calls, with a network that counts what it delivers, some read is cut short. */
  predicate CutShort(r: Reader, n: nat, size: Size)
    decreases n
  {
    n > 0 && (CallCut(r, size) || CutShort(ReadPacket(r, size, true).reader, n - 1, size))
  }

  lemma FillCut(r: Reader, upTo: nat)
    ensures !Cut(r, upTo) ==> FillTo(r, upTo, false) == FillTo(r, upTo, true)
    ensures Cut(r, upTo) ==> FillTo(r, upTo, false).rc != Success && FillTo(r, upTo, false).reader.lost > r.lost
    ensures FillTo(r, upTo, true).reader.lost == r.lost
  {
  }

  lemma {:induction false} LengthCutIs(r: Reader, len: nat, value: nat, multiplier: nat)
    requires 1 <= len <= 5
    ensures var f, h := ReadLength(r, len, value, multiplier, false), ReadLength(r, len, value, multiplier, true);
      && h.reader.lost == r.lost
      && (if LengthCut(r, len, value, multiplier) then f.rc != Success && f.reader.lost > r.lost else f == h)
    decreases 5 - len
  {
    hide FillTo, Cut, Digit;
    if len <= 4 {
      FillCut(r, len + 1);
      var fill := FillTo(r, len + 1, true);
      if fill.rc == Success && fill.reader.buffered[len] >= 128 {
        LengthCutIs(fill.reader, len + 1, Digit(value, fill.reader.buffered[len], multiplier), multiplier * 128);
      }
    }
  }

  /** A network that does not count short reads is as good as one that does, up to the first read cut short;
      there it loses a byte. */
  lemma CallCutIs(r: Reader, size: Size)
    ensures var f, h := ReadPacket(r, size, false), ReadPacket(r, size, true);
      && h.reader.lost == r.lost
      && (if CallCut(r, size) then f.reader.lost > r.lost else f == h)
  {
    hide FillTo, Cut, ReadLength, LengthCut, Drain;
    FillCut(r, 1);
    var header := FillTo(r, 1, true).reader;
    LengthCutIs(header, 1, 0, 1);
    var field := ReadLength(header, 1, 0, 1, true);
    FillCut(field.reader, field.offset + field.remLen);
    DrainBytes(field.reader, field.remLen, 0, size, size);
  }

  lemma {:induction false} CutShortIs(r: Reader, n: nat, size: Size)
    ensures var f, h := Calls(r, n, size, false), Calls(r, n, size, true);
      && h.0.lost == r.lost
      && (if CutShort(r, n, size) then f.0.lost > r.lost else f == h)
    decreases n
  {
    hide ReadPacket, CallCut;
    if n > 0 {
      CallCutIs(r, size);
      CutShortIs(ReadPacket(r, size, true).reader, n - 1, size);
      LossStays(ReadPacket(r, size, false).reader, n - 1, size, false);
    }
  }

  /** The calls so far have returned the first packets of the stream, in order and whole, and the reader holds
      the first bytes of the next. */
  predicate Framed(last: Reader, got: seq<seq<byte>>, packets: seq<seq<byte>>) {
    |got| <= |packets| && got == packets[..|got|] && AtPacket(last, packets[|got|..])
  }

  /** MAIN (framing): on a stream of packets that fit, however reads are cut short, any number of calls
      return the first packets of the stream, in order and whole, with the buffer holding the first bytes
      of the next, exactly when the network counts what it delivers, or no read on the way is cut short; and
      exactly then every byte of the stream is accounted for, and none was delivered uncounted. */
  lemma Framing(answers: seq<Delivery>, n: nat, size: Size, honest: bool, packets: seq<seq<byte>>)
    requires Fitting(packets, size)
    ensures
      var r := Reader([], Concat(packets), answers, 0);
      var (last, got) := Calls(r, n, size, honest);
      && (Framed(last, got, packets) <==> honest || !CutShort(r, n, size))
      && (Accounted(last, got, Concat(packets)) <==> Framed(last, got, packets))
      && (last.lost == 0 <==> Framed(last, got, packets))
  {
    hide Calls, WellFormed, CutShort;
    var r := Reader([], Concat(packets), answers, 0);
    StartsAtPacket(r, size, packets);
    CallsFrame(r, n, size, honest, packets);
    LossStays(r, n, size, honest);
    CutShortIs(r, n, size);
    var (last, got) := Calls(r, n, size, honest);
    if |got| <= |packets| { ConcatSplit(packets, |got|); }
    if last.lost == 0 { FramedAccounted(last, got, packets); }
  }

  lemma StartsAtPacket(r: Reader, size: Size, packets: seq<seq<byte>>)
    requires Fitting(packets, size) && r.buffered == [] && r.incoming == Concat(packets)
    ensures AtPacket(r, packets)
  {
    hide WellFormed;
    if packets != [] {
      assert packets[0] in packets;
      WellFormedField(packets[0]);
    }
  }

  lemma FramedAccounted(last: Reader, got: seq<seq<byte>>, packets: seq<seq<byte>>)
    requires Framed(last, got, packets)
    ensures Accounted(last, got, Concat(packets))
  {
    ConcatSplit(packets, |got|);
  }

  /** Answers that are never in between: nothing, or all that any read of the client may want. */
  predicate WholeOrNothing(answers: seq<Delivery>, size: Size) {
    forall a <- answers :: a.count == 0 || a.count >= size
  }

  /** So a network that does not count short reads frames correctly as long as each answer is nothing or all. */
  lemma WholeReadsFrame(answers: seq<Delivery>, n: nat, size: Size, packets: seq<seq<byte>>)
    requires Fitting(packets, size) && WholeOrNothing(answers, size)
    ensures
      var r := Reader([], Concat(packets), answers, 0);
      var (last, got) := Calls(r, n, size, false);
      Framed(last, got, packets) && Calls(r, n, size, false) == Calls(r, n, size, true)
  {
    hide Calls, WellFormed, CutShort, Framed, WholeOrNothing;
    var r := Reader([], Concat(packets), answers, 0);
    StartsAtPacket(r, size, packets);
    WholeIsNotCut(r, n, size, packets);
    CutShortIs(r, n, size);
    Framing(answers, n, size, false, packets);
  }

  lemma {:induction false} WholeIsNotCut(r: Reader, n: nat, size: Size, packets: seq<seq<byte>>)
    requires AtPacket(r, packets) && Fitting(packets, size) && WholeOrNothing(r.answers, size)
    ensures !CutShort(r, n, size)
    decreases n
  {
    hide ReadPacket, AtPacket, CallCut, WellFormed, WholeOrNothing;
    if n > 0 {
      CallAdvances(r, size, true, packets);
      WholeCall(r, size, packets);
      var call := ReadPacket(r, size, true);
      WholeIsNotCut(call.reader, n - 1, size, if call.out.Packet? then packets[1..] else packets);
    }
  }

  lemma WholeFill(r: Reader, p: seq<byte>, rest: seq<byte>, upTo: nat, size: Size)
    requires Within(r, p, rest) && upTo <= |p| < size && WholeOrNothing(r.answers, size)
    ensures !Cut(r, upTo) && WholeOrNothing(FillTo(r, upTo, true).reader.answers, size)
  {
    assert |r.buffered + r.incoming| == |p + rest|;
    if r.answers != [] { assert r.answers[0] in r.answers; }
  }

  lemma {:induction false} WholeLength(
      r: Reader, p: seq<byte>, rest: seq<byte>, len: nat, value: nat, multiplier: nat, remLen: nat, end: nat,
      size: Size)
    requires Within(r, p, rest) && 1 <= len <= 5 && len <= |p| && end <= |p| < size
    requires Continued(value, multiplier, len, DecodeLength(p[len..], 5 - len)) == Some((remLen, end))
    requires WholeOrNothing(r.answers, size)
    ensures !LengthCut(r, len, value, multiplier)
    ensures WholeOrNothing(ReadLength(r, len, value, multiplier, true).reader.answers, size)
    decreases 5 - len
  {
    hide Within, FillTo, DecodeLength, Continued, Digit, Cut, WholeOrNothing;
    ContinuedSome(value, multiplier, len, p[len..], 5 - len);
    ContinuedBeyond(value, multiplier, len, p[len..], 5 - len);
    WholeFill(r, p, rest, len + 1, size);
    FillStays(r, p, rest, len + 1, true);
    var fill := FillTo(r, len + 1, true);
    if fill.rc == Success {
      WithinPrefix(fill.reader, p, rest);
      var b := fill.reader.buffered[len];
      assert b == p[len] == p[len..][0];
      assert p[len..][1..] == p[len + 1..];
      DigitMore(value, b, multiplier);
      if b >= 128 {
        ContinuedMore(value, multiplier, len, p[len..], 5 - len);
        WholeLength(fill.reader, p, rest, len + 1, Digit(value, b, multiplier), multiplier * 128, remLen, end, size);
      }
    }
  }

  lemma WholeCall(r: Reader, size: Size, packets: seq<seq<byte>>)
    requires AtPacket(r, packets) && Fitting(packets, size) && WholeOrNothing(r.answers, size)
    ensures !CallCut(r, size) && WholeOrNothing(ReadPacket(r, size, true).reader.answers, size)
  {
    hide AtPacket, Within, DecodeLength, Continued, ReadLength, LengthCut, WellFormed, Concat, WholeOrNothing;
    AtPacketWithin(r, packets);
    if packets == [] {
      WholeAnswered(r, size);
    } else {
      hide FillTo, Cut;
      var p, rest := packets[0], Concat(packets[1..]);
      assert p in packets;
      WellFormedField(p);
      var (remLen, used) := DecodeLength(p[1..], 4).value;
      WholeFill(r, p, rest, 1, size);
      FillStays(r, p, rest, 1, true);
      var header := FillTo(r, 1, true);
      if header.rc == Success {
        WholeLength(header.reader, p, rest, 1, 0, 1, remLen, 1 + used, size);
        LengthStays(header.reader, p, rest, 1, 0, 1, true, remLen, 1 + used);
        var field := ReadLength(header.reader, 1, 0, 1, true);
        if field.rc == Success { WholeFill(field.reader, p, rest, |p|, size); }
      }
    }
  }

  lemma WholeAnswered(r: Reader, size: Size)
    requires WholeOrNothing(r.answers, size)
    ensures WholeOrNothing(Answered(r.answers), size)
  {
  }

  lemma {:induction false} ConcatSplit(packets: seq<seq<byte>>, k: nat)
    requires k <= |packets|
    ensures Concat(packets) == Concat(packets[..k]) + Concat(packets[k..])
    decreases k
  {
    if k == 0 {
      assert packets[0..] == packets;
    } else {
      ConcatSplit(packets[1..], k - 1);
      assert packets[..k][1..] == packets[1..][..k - 1] && packets[1..][k - 1..] == packets[k..];
      assert packets[..k][0] == packets[0];
    }
  }

  const WHOLE := Delivery(9, false)

  const SHORT := Delivery(1, false)

  /** The reader after a read for the body that ran short. */
  function Resuming(honest: bool): Reader {
    if honest then Reader([48, 2, 192], [0, 208, 0], [WHOLE], 0) else Reader([48, 2], [0, 208, 0], [WHOLE], 1)
  }

  lemma ShortFill1(honest: bool)
    ensures FillTo(Reader([], [48, 2, 192, 0, 208, 0], [WHOLE, WHOLE, SHORT, WHOLE], 0), 1, honest)
      == Fill(Reader([48], [2, 192, 0, 208, 0], [WHOLE, SHORT, WHOLE], 0), Success)
  {
  }

  lemma ShortFill2(honest: bool)
    ensures FillTo(Reader([48], [2, 192, 0, 208, 0], [WHOLE, SHORT, WHOLE], 0), 2, honest)
      == Fill(Reader([48, 2], [192, 0, 208, 0], [SHORT, WHOLE], 0), Success)
  {
    assert [48] + [2] == [48, 2];
  }

  lemma ShortFill4(honest: bool)
    ensures FillTo(Reader([48, 2], [192, 0, 208, 0], [SHORT, WHOLE], 0), 4, honest)
      == Fill(Resuming(honest), ReadTimeout)
  {
    assert [48, 2] + [192] == [48, 2, 192];
  }

  lemma ShortCall(honest: bool)
    ensures ReadPacket(Reader([], [48, 2, 192, 0, 208, 0], [WHOLE, WHOLE, SHORT, WHOLE], 0), 128, honest)
      == Call(Resuming(honest), NoPacket(ReadFailure))
  {
    hide FillTo, Resuming;
    ShortFill1(honest);
    ShortFill2(honest);
    ShortFill4(honest);
  }

  lemma ResumedCall(honest: bool)
    ensures ReadPacket(Resuming(honest), 128, honest).out
      == Packet(if honest then [48, 2, 192, 0] else [48, 2, 0, 208])
  {
    var r := Resuming(honest);
    assert FillTo(r, 1, honest) == Fill(r, Success) == FillTo(r, 2, honest);
    assert ReadLength(r, 1, 0, 1, honest) == Field(r, Success, 2, 2);
    assert FillTo(r, 4, honest).reader.buffered == if honest then [48, 2, 192, 0] else [48, 2, 0, 208];
  }

  /** The mbedTLS wrapper counts only whole reads. One short read, and a later call returns a packet that
      was never sent, where a network that counts what it delivered returns the one that was. */
  lemma UncountedReadDesyncs()
    ensures
      var packets: seq<seq<byte>> := [[48, 2, 192, 0], [208, 0]];
      var r := Reader([], Concat(packets), [WHOLE, WHOLE, SHORT, WHOLE], 0);
      && Fitting(packets, 128)
      && Calls(r, 2, 128, false).1 == [[48, 2, 0, 208]]
      && Calls(r, 2, 128, true).1 == [[48, 2, 192, 0]]
  {
    hide ReadPacket, Resuming;
    var packets: seq<seq<byte>> := [[48, 2, 192, 0], [208, 0]];
    assert packets[1..] == [[208, 0]];
    assert Concat(packets) == [48, 2, 192, 0, 208, 0];
    ShortCall(false);
    ShortCall(true);
    ResumedCall(false);
    ResumedCall(true);
  }

  /** Every answer ahead delivers all a read may want, and there are at least `k` of them. */
  predicate Plenty(answers: seq<Delivery>, k: nat, size: Size) {
    |answers| >= k && forall a <- answers :: a.count >= size
  }

  lemma FillArrives(r: Reader, p: seq<byte>, rest: seq<byte>, upTo: nat, k: nat, size: Size)
    requires Within(r, p, rest) && upTo <= |p| < size && k > 0 && Plenty(r.answers, k, size)
    ensures
      var fill := FillTo(r, upTo, true);
      fill.rc == Success && Within(fill.reader, p, rest) && Plenty(fill.reader.answers, k - 1, size)
  {
    FillStays(r, p, rest, upTo, true);
    assert |r.buffered + r.incoming| == |p + rest|;
    if |r.buffered| < upTo { assert r.answers[0] in r.answers; }
  }

  lemma {:induction false} LengthArrives(
      r: Reader, p: seq<byte>, rest: seq<byte>, len: nat, value: nat, multiplier: nat, remLen: nat, end: nat,
      k: nat, size: Size)
    requires Within(r, p, rest) && 1 <= len <= 5 && len <= |p| && end <= |p| < size
    requires Continued(value, multiplier, len, DecodeLength(p[len..], 5 - len)) == Some((remLen, end))
    requires k >= 5 - len && Plenty(r.answers, k, size)
    ensures
      var field := ReadLength(r, len, value, multiplier, true);
      field.rc == Success && Plenty(field.reader.answers, k - (5 - len), size)
    decreases 5 - len
  {
    hide Within, FillTo, DecodeLength, Continued, Digit;
    ContinuedSome(value, multiplier, len, p[len..], 5 - len);
    ContinuedBeyond(value, multiplier, len, p[len..], 5 - len);
    FillArrives(r, p, rest, len + 1, k, size);
    var next := FillTo(r, len + 1, true).reader;
    WithinPrefix(next, p, rest);
    var b := next.buffered[len];
    assert b == p[len] == p[len..][0];
    assert p[len..][1..] == p[len + 1..];
    DigitMore(value, b, multiplier);
    if b >= 128 {
      ContinuedMore(value, multiplier, len, p[len..], 5 - len);
      LengthArrives(next, p, rest, len + 1, Digit(value, b, multiplier), multiplier * 128, remLen, end, k - 1, size);
    }
  }

  /** A packet takes at most six reads that are not cut short. */
  lemma CallArrives(r: Reader, packets: seq<seq<byte>>, k: nat, size: Size)
    requires packets != [] && AtPacket(r, packets) && Fitting(packets, size) && k >= 6 && Plenty(r.answers, k, size)
    ensures
      var call := ReadPacket(r, size, true);
      call.out.Packet? && Plenty(call.reader.answers, k - 6, size)
  {
    hide AtPacket, Within, FillTo, DecodeLength, Continued, ReadLength, WellFormed, Concat;
    var p, rest := packets[0], Concat(packets[1..]);
    assert p in packets;
    AtPacketWithin(r, packets);
    WellFormedField(p);
    var (remLen, used) := DecodeLength(p[1..], 4).value;
    FillArrives(r, p, rest, 1, k, size);
    var header := FillTo(r, 1, true).reader;
    LengthStays(header, p, rest, 1, 0, 1, true, remLen, 1 + used);
    LengthArrives(header, p, rest, 1, 0, 1, remLen, 1 + used, k - 1, size);
    FillArrives(ReadLength(header, 1, 0, 1, true).reader, p, rest, |p|, k - 5, size);
  }

  /** MAIN (framing, progress): when reads are not cut short, every call returns a packet until the stream
      has none left. */
  lemma {:induction false} EveryPacketArrives(r: Reader, n: nat, size: Size, packets: seq<seq<byte>>)
    requires AtPacket(r, packets) && Fitting(packets, size) && n <= |packets| && Plenty(r.answers, 6 * n, size)
    ensures Calls(r, n, size, true).1 == packets[..n]
    decreases n
  {
    hide ReadPacket, AtPacket, Calls, WellFormed, Plenty;
    if n == 0 {
      CallsNone(r, size, true);
    } else {
      CallsMore(r, n, size, true);
      CallArrives(r, packets, 6 * n, size);
      CallAdvances(r, size, true, packets);
      EveryPacketArrives(ReadPacket(r, size, true).reader, n - 1, size, packets[1..]);
      assert packets[..n] == [packets[0]] + packets[1..][..n - 1];
    }
  }

  /** What `connect` does to the buffer, also when it is refused in the state the client is in. */
  function Flushed(r: Reader): Reader {
    r.(buffered := [])
  }

  /** So a refused connect keeps the place in the stream exactly when no part of a packet was buffered. */
  lemma FlushKeepsPlace(r: Reader, packets: seq<seq<byte>>)
    requires AtPacket(r, packets)
    ensures AtPacket(Flushed(r), packets) <==> r.buffered == []
  {
    assert |r.buffered + r.incoming| == |r.buffered| + |r.incoming|;
    assert Flushed(r).buffered + r.incoming == r.incoming;
  }

  /** Refused between two calls that read a PUBLISH, it makes the second return a PINGREQ that was never sent. */
  lemma FlushDesyncs()
    ensures
      var packets: seq<seq<byte>> := [[48, 2, 192, 0], [208, 0]];
      var r := Reader([48, 2], [192, 0, 208, 0], [WHOLE, WHOLE], 0);
      AtPacket(r, packets) && ReadPacket(Flushed(r), 128, true).out == Packet([192, 0])
  {
    hide FillTo, ReadPacket;
    var packets: seq<seq<byte>> := [[48, 2, 192, 0], [208, 0]];
    var r := Reader([48, 2], [192, 0, 208, 0], [WHOLE, WHOLE], 0);
    assert packets[1..] == [[208, 0]];
    assert Concat(packets) == [48, 2, 192, 0, 208, 0] == r.buffered + r.incoming;
    FlushedCall();
  }

  lemma FlushedFills()
    ensures FillTo(Reader([], [192, 0, 208, 0], [WHOLE, WHOLE], 0), 1, true) ==
      Fill(Reader([192], [0, 208, 0], [WHOLE], 0), Success)
    ensures FillTo(Reader([192], [0, 208, 0], [WHOLE], 0), 2, true) == Fill(Reader([192, 0], [208, 0], [], 0), Success)
  {
    assert [192] + [0] == [192, 0];
  }

  lemma FlushedCall()
    ensures ReadPacket(Reader([], [192, 0, 208, 0], [WHOLE, WHOLE], 0), 128, true).out == Packet([192, 0])
  {
    hide FillTo, Drain;
    FlushedFills();
    var two := Reader([192, 0], [208, 0], [], 0);
    assert ReadLength(Reader([192], [0, 208, 0], [WHOLE], 0), 1, 0, 1, true) == Field(two, Success, 2, 0);
  }

  lemma PlentyFirst(answers: seq<Delivery>, k: nat, size: Size)
    requires k > 0 && Plenty(answers, k, size)
    ensures answers != [] && answers[0].count >= size && Plenty(Answered(answers), k - 1, size)
  {
    assert answers[0] in answers;
  }

  lemma DropWhole(r: Reader, want: nat, k: nat, size: Size)
    requires 0 < want <= size && want <= |r.incoming| && k > 0 && Plenty(r.answers, k, size)
    ensures ReadRc(r, want) == Success
    ensures var next := Dropping(r, want);
      next.incoming == r.incoming[want..] && Plenty(next.answers, k - 1, size) && next.lost == r.lost
  {
    hide Plenty;
    PlentyFirst(r.answers, k, size);
  }

  /** Answers that deliver all a read may want. */
  lemma {:induction false} DrainEnds(r: Reader, remLen: nat, total: nat, size: Size, k: nat)
    requires total < remLen && remLen - total <= |r.incoming| && Plenty(r.answers, k, size) && k >= remLen - total
    ensures var call := Drain(r, remLen, total, Min(remLen - total, size), size);
      call == Call(Reader([], r.incoming[remLen - total..], call.reader.answers, r.lost), NoPacket(BufferTooShort))
    decreases remLen - total
  {
    hide Plenty, Dropping, ReadRc;
    var want := Min(remLen - total, size);
    DropWhole(r, want, k, size);
    if total + want < remLen {
      DrainEnds(Dropping(r, want), remLen, total + want, size, k - 1);
      assert r.incoming[want..][remLen - total - want..] == r.incoming[remLen - total..];
    }
  }

  /** A packet too long for the buffer, on reads that are not cut short: it is dropped, and the next call starts
      with the next packet, exactly when what follows its length field alone fills the buffer. Otherwise the
      first read takes along what the buffer has room for behind it, from the packets that follow; the call
      reports a success that has no packet, and what is left in the buffer is not the start of one. */
  lemma OversizeIsDropped(r: Reader, packets: seq<seq<byte>>, size: Size, k: nat)
    requires packets != [] && AtPacket(r, packets) && WellFormed(packets[0]) && |packets[0]| >= size
    requires |r.buffered| <= 1 + DecodeLength(packets[0][1..], 4).value.1
    requires Plenty(r.answers, k, size) && k >= 5 + |packets[0]| && |r.incoming| >= |packets[0]| + size
    ensures
      var p, rest := packets[0], Concat(packets[1..]);
      var (remLen, used) := DecodeLength(p[1..], 4).value;
      var call := ReadPacket(r, size, true);
      if remLen >= size then
        call.out == NoPacket(BufferTooShort) && call.reader.buffered == [] && call.reader.incoming == rest
      else
        && call.out == NoPacket(Success) && |call.reader.buffered| == 1 + used
        && call.reader.incoming == rest[size - remLen..]
  {
    hide AtPacket, Within, FillTo, DecodeLength, Continued, ReadLength, WellFormed, Concat, Drain, Plenty;
    var p, rest := packets[0], Concat(packets[1..]);
    AtPacketWithin(r, packets);
    WellFormedField(p);
    var (remLen, used) := DecodeLength(p[1..], 4).value;
    LongFill(r, p, rest, 1, k, size);
    var header := FillTo(r, 1, true).reader;
    LengthStays(header, p, rest, 1, 0, 1, true, remLen, 1 + used);
    LongLength(header, p, rest, 1, 0, 1, remLen, 1 + used, k - 1, size);
    var field := ReadLength(header, 1, 0, 1, true);
    LongField(field.reader, p, rest, 1 + used);
    LongField(r, p, rest, |r.buffered|);
    if remLen >= size {
      DrainEnds(field.reader, remLen, 0, size, k - 5);
      assert field.reader.incoming[remLen..] == rest;
    } else {
      DrainOver(field.reader, remLen, size, k - 5);
      assert field.reader.incoming[size..] == rest[size - remLen..];
    }
  }

  lemma DropOnce(r: Reader, want: nat)
    requires 0 < want
    ensures var next, n := Dropping(r, want), Delivered(r, want);
      && |next.buffered| == |r.buffered| && (n == 0 ==> next.buffered == r.buffered)
      && next.incoming == r.incoming[n..] && next.lost == r.lost
      && (ReadRc(r, want) == Success <==> n == want) && ReadRc(r, want) != BufferTooShort
  {
  }

  /** What the loop that drops a packet leaves, however its reads go: all of the packet is gone, and the buffer is
      empty; or the buffer is as full as before, and the bytes read over it are gone. */
  lemma {:induction false} DrainOutcome(r: Reader, remLen: nat, total: nat, want: nat, size: Size)
    requires 0 < want && (total > 0 ==> total < remLen && want <= remLen - total)
    ensures
      var call := Drain(r, remLen, total, want, size);
      var gone := |r.incoming| - |call.reader.incoming|;
      && call.out.NoPacket? && gone >= 0 && call.reader.incoming == r.incoming[gone..]
      && (if call.out == NoPacket(BufferTooShort) then
            call.reader.buffered == [] && (total < remLen ==> gone == remLen - total)
          else
            && |call.reader.buffered| == |r.buffered|
            && (gone == 0 ==> call.reader.buffered == r.buffered && total < remLen))
    decreases remLen - total
  {
    hide Dropping, ReadRc, Delivered;
    DropOnce(r, want);
    if ReadRc(r, want) == Success && total + want < remLen {
      var next, more := Dropping(r, want), Min(remLen - (total + want), size);
      DrainOutcome(next, remLen, total + want, more, size);
      var gone := |next.incoming| - |Drain(next, remLen, total + want, more, size).reader.incoming|;
      assert next.incoming[gone..] == r.incoming[want + gone..];
    }
  }

  /** Of a call on a packet too long for the buffer, the part behind its header. */
  lemma OversizeDrain(r: Reader, packets: seq<seq<byte>>, remLen: nat, used: nat, size: Size)
    requires packets != [] && |packets[0]| == 1 + used + remLen && Within(r, packets[0], Concat(packets[1..]))
    requires |r.buffered| == 1 + used
    ensures
      var p, rest := packets[0], Concat(packets[1..]);
      var call := Drain(r, remLen, 0, size, size);
      && call.out.NoPacket?
      && (call.out == NoPacket(BufferTooShort) ==>
            call.reader.buffered == [] && (remLen > 0 ==> call.reader.incoming == rest))
      && (call.out != NoPacket(BufferTooShort) ==>
            || AtPacket(call.reader, packets)
            || (|call.reader.buffered| == 1 + used && |call.reader.incoming| < remLen + |rest|))
  {
    hide Drain, Within, Concat, AtPacket;
    var p, rest := packets[0], Concat(packets[1..]);
    LongField(r, p, rest, 1 + used);
    DrainOutcome(r, remLen, 0, size, size);
    var call := Drain(r, remLen, 0, size, size);
    if |call.reader.incoming| == |r.incoming| && call.out != NoPacket(BufferTooShort) {
      assert call.reader.incoming == r.incoming[0..] == r.incoming;
      WithinIs(r, call.reader, p, rest);
      AtPacketWithin(call.reader, packets);
    }
  }

  lemma WithinIs(r: Reader, s: Reader, p: seq<byte>, rest: seq<byte>)
    requires s.buffered == r.buffered && s.incoming == r.incoming
    ensures Within(r, p, rest) == Within(s, p, rest)
  {
  }

  /** One call on a packet too long for the buffer, however its reads go: it never returns a packet. It drops all of
      it; or it keeps its place, in the header; or bytes of the packet are gone, and perhaps of later ones, while
      its header still fills the buffer. */
  lemma OversizeOutcome(r: Reader, packets: seq<seq<byte>>, size: Size)
    requires packets != [] && AtPacket(r, packets) && WellFormed(packets[0]) && |packets[0]| >= size
    requires |r.buffered| <= 1 + DecodeLength(packets[0][1..], 4).value.1
    ensures
      var p, rest := packets[0], Concat(packets[1..]);
      var (remLen, used) := DecodeLength(p[1..], 4).value;
      var call := ReadPacket(r, size, true);
      && call.out.NoPacket?
      && (call.out == NoPacket(BufferTooShort) ==>
            call.reader.buffered == [] && (remLen > 0 ==> call.reader.incoming == rest))
      && (call.out != NoPacket(BufferTooShort) ==>
            || AtPacket(call.reader, packets)
            || (|call.reader.buffered| == 1 + used && |call.reader.incoming| < remLen + |rest|))
  {
    hide AtPacket, Within, FillTo, DecodeLength, Continued, ReadLength, WellFormed, Concat, Drain;
    var p, rest := packets[0], Concat(packets[1..]);
    AtPacketWithin(r, packets);
    WellFormedField(p);
    var (remLen, used) := DecodeLength(p[1..], 4).value;
    FillStays(r, p, rest, 1, true);
    var header := FillTo(r, 1, true);
    if header.rc != Success {
      AtPacketWithin(header.reader, packets);
    } else {
      LengthStays(header.reader, p, rest, 1, 0, 1, true, remLen, 1 + used);
      var field := ReadLength(header.reader, 1, 0, 1, true);
      if field.rc != Success {
        AtPacketWithin(field.reader, packets);
      } else {
        OversizeDrain(field.reader, packets, remLen, used, size);
      }
    }
  }

  /** A PUBLISH of five bytes and a buffer of five: the call takes a PINGREQ behind it along, and says success. */
  lemma OverreadHappens()
    ensures
      var packets: seq<seq<byte>> := [[48, 3, 1, 2, 3], [208, 0], [208, 0], [208, 0]];
      var call := ReadPacket(Reader([], Concat(packets), seq(10, _ => WHOLE), 0), 5, true);
      call.out == NoPacket(Success) && call.reader.incoming == [208, 0, 208, 0] && |call.reader.buffered| == 2
  {
    hide ReadPacket;
    var packets: seq<seq<byte>> := [[48, 3, 1, 2, 3], [208, 0], [208, 0], [208, 0]];
    var r := Reader([], Concat(packets), seq(10, _ => WHOLE), 0);
    assert packets[1..] == [[208, 0], [208, 0], [208, 0]];
    assert packets[1..][1..] == [[208, 0], [208, 0]] && packets[1..][1..][1..] == [[208, 0]];
    assert Concat([[208, 0]]) == [208, 0];
    assert Concat(packets[1..][1..]) == [208, 0, 208, 0];
    assert Concat(packets[1..]) == [208, 0, 208, 0, 208, 0];
    OversizeIsDropped(r, packets, 5, 10);
  }

  lemma DrainOver(r: Reader, remLen: nat, size: Size, k: nat)
    requires remLen < size <= |r.incoming| && Plenty(r.answers, k, size) && k > 0
    ensures var call := Drain(r, remLen, 0, size, size);
      call.out == NoPacket(Success) && |call.reader.buffered| == |r.buffered| && call.reader.incoming == r.incoming[size..]
  {
    assert r.answers[0] in r.answers;
  }

  lemma LongField(r: Reader, p: seq<byte>, rest: seq<byte>, end: nat)
    requires Within(r, p, rest) && |r.buffered| == end
    ensures |r.incoming| == |p| - end + |rest| && r.incoming[|p| - end..] == rest
  {
    assert (p + rest)[end..] == r.incoming;
    assert (p + rest)[|p|..] == rest;
    assert (p + rest)[end..][|p| - end..] == rest;
  }

  lemma LongFill(r: Reader, p: seq<byte>, rest: seq<byte>, upTo: nat, k: nat, size: Size)
    requires Within(r, p, rest) && upTo <= |p| && upTo <= 5 && k > 0 && Plenty(r.answers, k, size)
    ensures
      var fill := FillTo(r, upTo, true);
      && fill.rc == Success && Within(fill.reader, p, rest) && Plenty(fill.reader.answers, k - 1, size)
      && |fill.reader.buffered| == Max(|r.buffered|, upTo)
  {
    FillStays(r, p, rest, upTo, true);
    assert |r.buffered + r.incoming| == |p + rest|;
    if |r.buffered| < upTo { assert r.answers[0] in r.answers; }
  }

  lemma {:induction false} LongLength(
      r: Reader, p: seq<byte>, rest: seq<byte>, len: nat, value: nat, multiplier: nat, remLen: nat, end: nat,
      k: nat, size: Size)
    requires Within(r, p, rest) && 1 <= len <= 5 && len <= |p| && end <= |p| && |r.buffered| <= end
    requires Continued(value, multiplier, len, DecodeLength(p[len..], 5 - len)) == Some((remLen, end))
    requires k >= 5 - len && Plenty(r.answers, k, size)
    ensures
      var field := ReadLength(r, len, value, multiplier, true);
      field.rc == Success && Plenty(field.reader.answers, k - (5 - len), size) && |field.reader.buffered| == end
    decreases 5 - len
  {
    hide Within, FillTo, DecodeLength, Continued, Digit;
    ContinuedSome(value, multiplier, len, p[len..], 5 - len);
    ContinuedBeyond(value, multiplier, len, p[len..], 5 - len);
    LongFill(r, p, rest, len + 1, k, size);
    var next := FillTo(r, len + 1, true).reader;
    WithinPrefix(next, p, rest);
    var b := next.buffered[len];
    assert b == p[len] == p[len..][0];
    assert p[len..][1..] == p[len + 1..];
    DigitMore(value, b, multiplier);
    if b >= 128 {
      ContinuedMore(value, multiplier, len, p[len..], 5 - len);
      LongLength(next, p, rest, len + 1, Digit(value, b, multiplier), multiplier * 128, remLen, end, k - 1, size);
    } else {
      ContinuedEnds(value, multiplier, len, p[len..], 5 - len);
    }
  }

  lemma FillEnough(r: Reader, upTo: nat, honest: bool)
    ensures |r.buffered| >= upTo ==> FillTo(r, upTo, honest) == Fill(r, Success)
  {
  }

  /** The client's receive buffer and the network behind it. */
  class PacketReader {
    const readBuf: array<byte>
    var readBufIndex: nat
    var incoming: seq<byte>
    var answers: seq<Delivery>
    var lost: nat
    const honest: bool

    ghost predicate Valid()
      reads this
    {
      readBufIndex <= readBuf.Length && readBuf.Length >= 5
    }

    ghost function State(): Reader
      requires Valid()
      reads this, readBuf
    {
      Reader(readBuf[..readBufIndex], incoming, answers, lost)
    }

    constructor (size: Size, stream: seq<byte>, answers: seq<Delivery>, honest: bool)
      ensures Valid() && fresh(readBuf) && readBuf.Length == size && this.honest == honest
      ensures State() == Reader([], stream, answers, 0)
    {
      readBuf := new byte[size];
      readBufIndex, incoming, this.answers, lost, this.honest := 0, stream, answers, 0, honest;
    }

    /** The network's `read`: it delivers a prefix of the `want` bytes into the buffer from `at`, and counts
        them, or not. */
    method NetworkRead(at: nat, want: nat) returns (rc: Rc, byteRead: nat)
      requires Valid() && at == readBufIndex && at + want <= readBuf.Length && want > 0
      modifies this`incoming, this`answers, this`lost, readBuf
      ensures byteRead <= want && readBuf[..at] == old(readBuf[..at])
      ensures Fill(Reader(readBuf[..at + byteRead], incoming, answers, lost), rc)
        == FillTo(old(State()), at + want, honest)
    {
      ghost var was := State();
      assert was.buffered == readBuf[..at];
      var n := Delivered(Reader([], incoming, answers, lost), want);
      rc := ReadRc(Reader([], incoming, answers, lost), want);
      byteRead := if honest || n == want then n else 0;
      Deposit(at, n);
      assert readBuf[..at + byteRead] == was.buffered + was.incoming[..byteRead];
      incoming, answers, lost := incoming[n..], Answered(answers), lost + n - byteRead;
    }

    method Deposit(at: nat, n: nat)
      requires at + n <= readBuf.Length && n <= |incoming|
      modifies readBuf
      ensures readBuf[..at] == old(readBuf[..at]) && readBuf[at..at + n] == incoming[..n]
      ensures readBuf[at + n..] == old(readBuf[at + n..])
    {
      var i := 0;
      while i < n
        invariant i <= n
        invariant readBuf[..at] == old(readBuf[..at]) && readBuf[at..at + i] == incoming[..i]
        invariant readBuf[at + i..] == old(readBuf[at + i..])
      {
        readBuf[at + i] := incoming[i];
        i := i + 1;
      }
    }

    /** `_readWrapper`, for the bytes up to `upTo` of the packet. */
    method ReadWrapper(upTo: nat) returns (rc: Rc)
      requires Valid() && upTo <= readBuf.Length
      modifies this, readBuf
      ensures Valid() && Fill(State(), rc) == FillTo(old(State()), upTo, honest)
    {
      hide FillTo;
      FillEnough(State(), upTo, honest);
      if upTo > readBufIndex {
        var byteRead;
        rc, byteRead := NetworkRead(readBufIndex, upTo - readBufIndex);
        readBufIndex := readBufIndex + byteRead;
      } else {
        rc := Success;
      }
    }

    /** `_decode_packet_remaining_len`. */
    method DecodePacketLength() returns (rc: Rc, offset: nat, remLen: nat)
      requires Valid()
      modifies this, readBuf
      ensures Valid() && Field(State(), rc, offset, remLen) == ReadLength(old(State()), 1, 0, 1, honest)
    {
      hide FillTo, Digit;
      var multiplier: nat, len: nat, value: nat := 1, 0, 0;
      while true
        invariant Valid() && len <= 4
        invariant ReadLength(old(State()), 1, 0, 1, honest) == ReadLength(State(), len + 1, value, multiplier, honest)
        decreases 4 - len
      {
        len := len + 1;
        if len > 4 { return BadLength, 0, 0; }
        rc := ReadWrapper(len + 1);
        if rc != Success { return rc, 0, 0; }
        var b := readBuf[len];
        value := Digit(value, b, multiplier);
        if b < 128 { return rc, len + 1, value; }
        multiplier := multiplier * 128;
      }
    }

    /** One read of the loop that drops a packet, to the front of the buffer. */
    method DropRead(want: nat) returns (rc: Rc)
      requires Valid() && want <= readBuf.Length
      modifies this`incoming, this`answers, readBuf
      ensures Valid() && State() == Dropping(old(State()), want) && rc == ReadRc(old(State()), want)
    {
      ghost var was := State();
      var n := Delivered(Reader([], incoming, answers, lost), want);
      rc := ReadRc(Reader([], incoming, answers, lost), want);
      Deposit(0, n);
      DepositOverwrites(n, was.buffered);
      incoming, answers := incoming[n..], Answered(answers);
    }

    lemma DepositOverwrites(n: nat, buffered: seq<byte>)
      requires Valid() && n <= readBuf.Length && n <= |incoming| && readBuf[0..n] == incoming[..n]
      requires |buffered| == readBufIndex && (n < readBufIndex ==> readBuf[n..readBufIndex] == buffered[n..])
      ensures readBuf[..readBufIndex] == Overwritten(buffered, incoming[..n])
    {
      if n < readBufIndex {
        assert readBuf[..readBufIndex] == readBuf[0..n] + readBuf[n..readBufIndex];
      } else {
        assert readBuf[..readBufIndex] == readBuf[0..n][..readBufIndex];
      }
    }

    /** The loop of `_read_packet` that drops a packet too long for the buffer. */
    method DropPacket(remLen: nat) returns (out: Outcome)
      requires Valid()
      modifies this, readBuf
      ensures Valid() && Call(State(), out) == Drain(old(State()), remLen, 0, readBuf.Length, readBuf.Length)
    {
      hide Dropping, ReadRc;
      var total: nat, want: nat := 0, readBuf.Length;
      while true
        invariant Valid() && 0 < want <= readBuf.Length && (total == 0 || total < remLen)
        invariant Drain(State(), remLen, total, want, readBuf.Length)
          == Drain(old(State()), remLen, 0, readBuf.Length, readBuf.Length)
        decreases if total < remLen then remLen - total else 0
      {
        var rc := DropRead(want);
        if rc == Success { total := total + want; }
        if rc != Success || total >= remLen {
          if total != remLen { return NoPacket(rc); }
          readBufIndex := 0;
          assert readBuf[..0] == [];
          return NoPacket(BufferTooShort);
        }
        want := Min(remLen - total, readBuf.Length);
      }
    }

    /** `_read_packet`. */
    method Read() returns (out: Outcome)
      requires Valid()
      modifies this, readBuf
      ensures Valid() && Call(State(), out) == ReadPacket(old(State()), readBuf.Length, honest)
    {
      hide FillTo, ReadLength;
      var rc := ReadWrapper(1);
      if rc == SslNothingToRead { return NoPacket(NothingToRead); }
      if rc != Success { return NoPacket(rc); }
      var offset, remLen;
      rc, offset, remLen := DecodePacketLength();
      if rc != Success { return NoPacket(rc); }
      if remLen + offset >= readBuf.Length {
        out := DropPacket(remLen);
        return;
      }
      if remLen > 0 {
        rc := ReadWrapper(offset + remLen);
        if rc != Success { return NoPacket(ReadFailure); }
      }
      out := Packet(readBuf[..offset + remLen]);
      assert readBuf[..readBufIndex][..offset + remLen] == out.bytes;
      readBufIndex := 0;
      assert readBuf[..0] == [];
    }
  }
}
