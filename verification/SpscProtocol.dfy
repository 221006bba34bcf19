/**
 The ring buffer as a concurrent protocol: one producer (`push`, `push_n`) and one consumer (`pop`,
 `pop_n`, `for_each`), each index load, slot access and index store being one step, in any
 interleaving. A load of the other side's index may be stale: it yields any value at least as recent
 as the last one the same side loaded.
 */
module SpscProtocol {
  import opened CInt
  import opened RingIndex

  /** Where the producer is. Locals keep the names they have in the code. */
  datatype Producer<T> =
    | ProducerIdle
    | PushLoadOut(val: T, inPos: nat)                       // inPos loaded
    | PushWrite(val: T, inPos: nat, next: nat)              // found room
    | PushStore(val: T, next: nat)                          // slot written
    | PushNLoadOut(items: seq<T>, inPos: nat)
    | PushNCopy(items: seq<T>, inPos: nat, first: nat, second: nat, done: nat)

  /** Where the consumer is. `target` is the ghost counter behind the `inPos` that `for_each` loaded. */
  datatype Consumer<T> =
    | ConsumerIdle
    | PopLoadIn(outPos: nat)                                // outPos loaded
    | PopRead(outPos: nat)                                  // found an item
    | PopStore(outPos: nat)                                 // item moved out of its slot
    | PopNLoadIn(size: nat)                                 // inside available()
    | PopNLoadOut(size: nat, inPos: nat)                    // inside available(), inPos loaded
    | PopNCopy(outPos: nat, size: nat, done: nat)
    | EachLoadIn(outPos: nat)
    | EachRead(outPos: nat, inPos: nat, target: nat)        // loop head
    | EachStore(outPos: nat, inPos: nat, target: nat)       // callback has the item

  /** Shared memory, the two program counters, and the history: items accepted (their index store
      done), items consumed (moved to the caller), items released (their index store done), and the
      most recent counters each side has seen of the other. */
  datatype State<T> = State(
    buf: seq<T>, inPos: nat, outPos: nat,
    producer: Producer<T>, consumer: Consumer<T>,
    accepted: seq<T>, consumed: seq<T>, released: nat, seenReleased: nat, seenAccepted: nat)

  /** One step of either side; `seen` is the counter that a load of the other side's index observes. */
  datatype Action<T> =
    | CallPush(val: T)
    | CallPushN(items: seq<T>)
    | ProducerStep(seen: nat)
    | CallPop
    | CallPopN(size: nat)
    | CallForEach
    | ConsumerStep(seen: nat)

  function Init<T>(buf: seq<T>): (s: State<T>)
    ensures s.buf == buf && (0 < |buf| <= TWO_31 ==> Valid(s))
  {
    State(buf, 0, 0, ProducerIdle, ConsumerIdle, [], [], 0, 0, 0)
  }

  predicate Enabled<T>(s: State<T>, a: Action<T>) {
    match a
    case CallPush(_) => s.producer.ProducerIdle?
    case CallPushN(_) => s.producer.ProducerIdle?
    case ProducerStep(seen) => !s.producer.ProducerIdle? && s.seenReleased <= seen <= s.released
    case CallPop => s.consumer.ConsumerIdle?
    case CallPopN(_) => s.consumer.ConsumerIdle?
    case CallForEach => s.consumer.ConsumerIdle?
    case ConsumerStep(seen) => !s.consumer.ConsumerIdle? && s.seenAccepted <= seen <= |s.accepted|
  }

  /** The slot that the producer writes in its next step, if that step is a slot write. */
  function WriteSlot<T>(s: State<T>): (slot: int) {
    match s.producer
    case PushWrite(_, inPos, _) => inPos
    case PushNCopy(_, inPos, first, second, done) =>
      if done < first + second then PushSlot(inPos, first, done) else -1
    case _ => -1
  }

  /** The slot that the consumer reads in its next step, if that step is a slot read. */
  function ReadSlot<T>(s: State<T>): (slot: int) {
    match s.consumer
    case PopRead(outPos) => outPos
    case PopNCopy(outPos, size, done) =>
      if done < size && outPos < |s.buf| then PopSlot(outPos, size, |s.buf|, done) else -1
    case EachRead(outPos, inPos, _) => if outPos != inPos then outPos else -1
    case _ => -1
  }

  ghost function ProducerNext<T>(s: State<T>, seen: nat): State<T>
    requires |s.buf| > 0 && Valid(s) && !s.producer.ProducerIdle? && s.seenReleased <= seen <= s.released
  {
    var n := |s.buf|;
    match s.producer
    case PushLoadOut(val, inPos) =>
      var next := (inPos + 1) % n;
      var s' := s.(seenReleased := seen);
      if next == Slot(seen, n) then s'.(producer := ProducerIdle)
      else s'.(producer := PushWrite(val, inPos, next))
    case PushWrite(val, inPos, next) =>
      s.(buf := s.buf[inPos := val], producer := PushStore(val, next))
    case PushStore(val, next) =>
      s.(inPos := next, accepted := s.accepted + [val], producer := ProducerIdle)
    case PushNLoadOut(items, inPos) =>
      var first := PushFirst(inPos, Slot(seen, n), n, |items|);
      var second := PushSecond(inPos, Slot(seen, n), n, |items|);
      var s' := s.(seenReleased := seen);
      if first == 0 then s'.(producer := ProducerIdle)
      else s'.(producer := PushNCopy(items, inPos, first, second, 0))
    case PushNCopy(items, inPos, first, second, done) =>
      if done < first + second then
        s.(buf := s.buf[PushSlot(inPos, first, done) := items[done]],
           producer := PushNCopy(items, inPos, first, second, done + 1))
      else
        s.(inPos := PushNext(inPos, first, second, n), accepted := s.accepted + items[..first + second],
           producer := ProducerIdle)
  }

  ghost function ConsumerNext<T>(s: State<T>, seen: nat): State<T>
    requires |s.buf| > 0 && Valid(s) && !s.consumer.ConsumerIdle? && s.seenAccepted <= seen <= |s.accepted|
  {
    var n := |s.buf|;
    match s.consumer
    case PopLoadIn(outPos) =>
      var s' := s.(seenAccepted := seen);
      if Slot(seen, n) == outPos then s'.(consumer := ConsumerIdle) else s'.(consumer := PopRead(outPos))
    case PopRead(outPos) =>
      s.(consumed := s.consumed + [s.buf[outPos]], consumer := PopStore(outPos))
    case PopStore(outPos) =>
      s.(outPos := (outPos + 1) % n, released := s.released + 1, consumer := ConsumerIdle)
    case PopNLoadIn(size) =>
      s.(seenAccepted := seen, consumer := PopNLoadOut(size, Slot(seen, n)))
    case PopNLoadOut(size, inPos) =>
      var size' := Min(size, Available(inPos, s.outPos, n));
      if size' == 0 then s.(consumer := ConsumerIdle)
      else s.(consumer := PopNCopy(s.outPos, size', 0))
    case PopNCopy(outPos, size, done) =>
      if done < size then
        s.(consumed := s.consumed + [s.buf[PopSlot(outPos, size, n, done)]],
           consumer := PopNCopy(outPos, size, done + 1))
      else
        s.(outPos := (outPos + size) % n, released := s.released + size, consumer := ConsumerIdle)
    case EachLoadIn(outPos) =>
      s.(seenAccepted := seen, consumer := EachRead(outPos, Slot(seen, n), seen))
    case EachRead(outPos, inPos, target) =>
      if outPos == inPos then s.(consumer := ConsumerIdle)
      else s.(consumed := s.consumed + [s.buf[outPos]], consumer := EachStore(outPos, inPos, target))
    case EachStore(outPos, inPos, target) =>
      var outPos' := (outPos + 1) % n;
      s.(outPos := outPos', released := s.released + 1, consumer := EachRead(outPos', inPos, target))
  }

  ghost function Step<T>(s: State<T>, a: Action<T>): State<T>
    requires |s.buf| > 0 && Valid(s) && Enabled(s, a)
  {
    match a
    case CallPush(val) => s.(producer := PushLoadOut(val, s.inPos))
    case CallPushN(items) => s.(producer := PushNLoadOut(items, s.inPos))
    case ProducerStep(seen) => ProducerNext(s, seen)
    case CallPop => s.(consumer := PopLoadIn(s.outPos))
    case CallPopN(size) => s.(consumer := PopNLoadIn(size))
    case CallForEach => s.(consumer := EachLoadIn(s.outPos))
    case ConsumerStep(seen) => ConsumerNext(s, seen)
  }

  /** Items moved out of their slots whose release is still pending. */
  function Taken<T>(c: Consumer<T>): nat {
    match c
    case PopStore(_) => 1
    case EachStore(_, _, _) => 1
    case PopNCopy(_, _, done) => done
    case _ => 0
  }

  ghost predicate ProducerValid<T>(s: State<T>)
    requires |s.buf| > 0
  {
    var n, pushed := |s.buf|, |s.accepted|;
    match s.producer
    case ProducerIdle => true
    case PushLoadOut(_, inPos) => inPos == s.inPos
    case PushWrite(_, inPos, next) =>
      inPos == s.inPos && next == Slot(pushed + 1, n) && pushed + 1 < s.seenReleased + n
    case PushStore(val, next) =>
      next == Slot(pushed + 1, n) && pushed + 1 < s.seenReleased + n && s.buf[Slot(pushed, n)] == val
    case PushNLoadOut(_, inPos) => inPos == s.inPos
    case PushNCopy(items, inPos, first, second, done) =>
      && inPos == s.inPos
      && done <= first + second <= |items|
      && pushed + first + second < s.seenReleased + n
      && PushNext(inPos, first, second, n) == Slot(pushed + first + second, n)
      && (forall j: nat | j < first + second :: PushSlot(inPos, first, j) == Slot(pushed + j, n))
      && (forall j: nat | j < done :: s.buf[Slot(pushed + j, n)] == items[j])
  }

  ghost predicate ConsumerValid<T>(s: State<T>)
    requires |s.buf| > 0
  {
    var n := |s.buf|;
    match s.consumer
    case ConsumerIdle => true
    case PopLoadIn(outPos) => outPos == s.outPos
    case PopRead(outPos) => outPos == s.outPos && s.released < s.seenAccepted
    case PopStore(outPos) => outPos == s.outPos && s.released < s.seenAccepted
    case PopNLoadIn(_) => true
    case PopNLoadOut(_, inPos) => inPos == Slot(s.seenAccepted, n)
    case PopNCopy(outPos, size, done) =>
      outPos == s.outPos && done <= size && s.released + size <= s.seenAccepted
    case EachLoadIn(outPos) => outPos == s.outPos
    case EachRead(outPos, inPos, target) =>
      outPos == s.outPos && inPos == Slot(target, n) && s.released <= target <= s.seenAccepted
    case EachStore(outPos, inPos, target) =>
      outPos == s.outPos && inPos == Slot(target, n) && s.released < target <= s.seenAccepted
  }

  /** The protocol invariant. */
  ghost predicate Valid<T>(s: State<T>)
    requires |s.buf| > 0
  {
    var n := |s.buf|;
    && Counters(|s.accepted|, s.released, n)
    && s.inPos == Slot(|s.accepted|, n)
    && s.outPos == Slot(s.released, n)
    && s.seenReleased <= s.released <= s.seenAccepted <= |s.accepted| < s.seenReleased + n
    && s.released + Taken(s.consumer) <= |s.accepted|
    && (forall i: nat | s.released <= i < |s.accepted| :: s.buf[Slot(i, n)] == s.accepted[i])
    && s.consumed == s.accepted[..s.released + Taken(s.consumer)]
    && ProducerValid(s)
    && ConsumerValid(s)
  }

  lemma ProducerKeepsValid<T>(s: State<T>, seen: nat)
    requires |s.buf| > 0 && Valid(s) && !s.producer.ProducerIdle? && s.seenReleased <= seen <= s.released
    ensures var s' := ProducerNext(s, seen); |s'.buf| == |s.buf| && Valid(s')
  {
    hide ProducerNext, Valid;
    match s.producer
    case PushLoadOut(_, _) => LoadOutKeepsValid(s, seen);
    case PushWrite(_, _, _) => WriteKeepsValid(s, seen);
    case PushStore(_, _) => StoreKeepsValid(s, seen);
    case PushNLoadOut(_, _) => BlocksKeepValid(s, seen);
    case PushNCopy(_, _, first, second, done) =>
      if done < first + second { CopyKeepsValid(s, seen); } else { AcceptKeepsValid(s, seen); }
  }

  lemma LoadOutKeepsValid<T>(s: State<T>, seen: nat)
    requires |s.buf| > 0 && Valid(s) && s.seenReleased <= seen <= s.released
    requires s.producer.PushLoadOut?
    ensures var s' := ProducerNext(s, seen); |s'.buf| == |s.buf| && Valid(s')
  {
    hide Slot, PushFirst, PushSecond, PushSlot, PushNext, Available, PopSlot;
    SlotAdd(|s.accepted|, 1, |s.buf|);
    if |s.accepted| + 1 == seen + |s.buf| { SlotAdd(seen, |s.buf|, |s.buf|); }
  }

  lemma WriteKeepsValid<T>(s: State<T>, seen: nat)
    requires |s.buf| > 0 && Valid(s) && s.seenReleased <= seen <= s.released
    requires s.producer.PushWrite?
    ensures var s' := ProducerNext(s, seen); |s'.buf| == |s.buf| && Valid(s')
  {
    hide Slot, PushFirst, PushSecond, PushSlot, PushNext, Available, PopSlot;
    WriteKeepsUnread(s, |s.accepted|);
  }

  lemma StoreKeepsValid<T>(s: State<T>, seen: nat)
    requires |s.buf| > 0 && Valid(s) && s.seenReleased <= seen <= s.released
    requires s.producer.PushStore?
    ensures var s' := ProducerNext(s, seen); |s'.buf| == |s.buf| && Valid(s')
  {
    hide Slot, PushFirst, PushSecond, PushSlot, PushNext, Available, PopSlot;
    AcceptKeepsConsumed(s, [s.producer.val]);
  }

  lemma BlocksKeepValid<T>(s: State<T>, seen: nat)
    requires |s.buf| > 0 && Valid(s) && s.seenReleased <= seen <= s.released
    requires s.producer.PushNLoadOut?
    ensures var s' := ProducerNext(s, seen); |s'.buf| == |s.buf| && Valid(s')
  {
    hide Slot, PushFirst, PushSecond, PushSlot, PushNext, Available, PopSlot;
    PushBlocks(|s.accepted|, seen, |s.buf|, |s.producer.items|);
  }

  lemma CopyKeepsValid<T>(s: State<T>, seen: nat)
    requires |s.buf| > 0 && Valid(s) && s.seenReleased <= seen <= s.released
    requires s.producer.PushNCopy? && s.producer.done < s.producer.first + s.producer.second
    ensures var s' := ProducerNext(s, seen); |s'.buf| == |s.buf| && Valid(s')
  {
    hide Slot, PushFirst, PushSecond, PushSlot, PushNext, Available, PopSlot;
    var PushNCopy(items, inPos, first, second, done) := s.producer;
    var n, pushed := |s.buf|, |s.accepted|;
    assert PushSlot(inPos, first, done) == Slot(pushed + done, n);
    WriteKeepsUnread(s, pushed + done);
    var s' := ProducerNext(s, seen);
    forall j: nat | j < done + 1
      ensures s'.buf[Slot(pushed + j, n)] == items[j]
    {
      if j < done { SameSlot(pushed + done, pushed + j, n); }
    }
  }

  lemma AcceptKeepsConsumed<T>(s: State<T>, items: seq<T>)
    requires |s.buf| > 0 && Valid(s)
    ensures (s.accepted + items)[..s.released + Taken(s.consumer)] == s.consumed
  {
  }

  lemma AcceptKeepsValid<T>(s: State<T>, seen: nat)
    requires |s.buf| > 0 && Valid(s) && s.seenReleased <= seen <= s.released
    requires s.producer.PushNCopy? && s.producer.done >= s.producer.first + s.producer.second
    ensures var s' := ProducerNext(s, seen); |s'.buf| == |s.buf| && Valid(s')
  {
    hide Slot, PushFirst, PushSecond, PushSlot, PushNext, Available, PopSlot, ConsumerValid, ProducerValid;
    var PushNCopy(items, inPos, first, second, done) := s.producer;
    var s' := ProducerNext(s, seen);
    CopiedAll(s);
    AcceptKeepsConsumed(s, items[..first + second]);
    AcceptKeepsItems(s, first + second);
    ConsumerStays(s, s');
    IdleProducer(s');
  }

  /** A bulk push at its end: the items fit, and the index is that of the counter behind them. */
  lemma CopiedAll<T>(s: State<T>)
    requires |s.buf| > 0 && Valid(s) && s.producer.PushNCopy?
    requires s.producer.done >= s.producer.first + s.producer.second
    ensures var PushNCopy(items, inPos, first, second, done) := s.producer;
      && done == first + second <= |items| && |s.accepted| + first + second < s.seenReleased + |s.buf|
      && PushNext(inPos, first, second, |s.buf|) == Slot(|s.accepted| + first + second, |s.buf|)
  {
    hide Slot, PushSlot, PushNext, ConsumerValid;
  }

  lemma IdleProducer<T>(s: State<T>)
    requires |s.buf| > 0 && s.producer.ProducerIdle?
    ensures ProducerValid(s)
  {
  }

  /** The items that a bulk push has copied are in their slots, as those before them. */
  lemma AcceptKeepsItems<T>(s: State<T>, k: nat)
    requires |s.buf| > 0 && Valid(s) && s.producer.PushNCopy? && k <= s.producer.done && k <= |s.producer.items|
    ensures forall i: nat | s.released <= i < |s.accepted| + k ::
      s.buf[Slot(i, |s.buf|)] == (s.accepted + s.producer.items[..k])[i]
  {
    hide Slot, PushFirst, PushSecond, PushSlot, PushNext, Available, PopSlot, ConsumerValid;
    forall i: nat | s.released <= i < |s.accepted| + k
      ensures s.buf[Slot(i, |s.buf|)] == (s.accepted + s.producer.items[..k])[i]
    {
      if i >= |s.accepted| { CopiedItem(s, i - |s.accepted|); }
    }
  }

  /** What the consumer relies on is none of what the producer changes. */
  lemma ConsumerStays<T>(s: State<T>, s': State<T>)
    requires |s.buf| > 0 && |s'.buf| == |s.buf| && ConsumerValid(s)
    requires s'.consumer == s.consumer && s'.outPos == s.outPos
    requires s'.released == s.released && s'.seenAccepted == s.seenAccepted
    ensures ConsumerValid(s')
  {
    hide Slot;
  }

  /** An item that a bulk push has copied is in its slot. */
  lemma CopiedItem<T>(s: State<T>, j: nat)
    requires |s.buf| > 0 && Valid(s) && s.producer.PushNCopy? && j < s.producer.done && j < |s.producer.items|
    ensures s.buf[Slot(|s.accepted| + j, |s.buf|)] == s.producer.items[j]
  {
    hide Slot, PushFirst, PushSecond, PushSlot, PushNext, Available, PopSlot;
  }

  /** A slot at or past the accepted counter, and within a lap of the released one, is not unread. */
  lemma WriteKeepsUnread<T>(s: State<T>, c: nat)
    requires |s.buf| > 0 && Valid(s) && |s.accepted| <= c < s.released + |s.buf|
    ensures forall i: nat | s.released <= i < |s.accepted| :: Slot(i, |s.buf|) != Slot(c, |s.buf|)
  {
    hide Slot;
    forall i: nat | s.released <= i < |s.accepted|
      ensures Slot(i, |s.buf|) != Slot(c, |s.buf|)
    {
      SameSlot(c, i, |s.buf|);
    }
  }

  lemma ConsumerKeepsValid<T>(s: State<T>, seen: nat)
    requires |s.buf| > 0 && Valid(s) && !s.consumer.ConsumerIdle? && s.seenAccepted <= seen <= |s.accepted|
    ensures var s' := ConsumerNext(s, seen); |s'.buf| == |s.buf| && Valid(s')
  {
    hide ConsumerNext, Valid;
    match s.consumer
    case PopLoadIn(_) => PopKeepsValid(s, seen);
    case PopRead(_) => PopKeepsValid(s, seen);
    case PopStore(_) => PopStoreKeepsValid(s, seen);
    case PopNLoadIn(_) => LoadInKeepsValid(s, seen);
    case PopNLoadOut(_, _) => AvailableKeepsValid(s, seen);
    case PopNCopy(_, size, done) =>
      if done < size { PopNCopyKeepsValid(s, seen); } else { PopNStoreKeepsValid(s, seen); }
    case EachLoadIn(_) => LoadInKeepsValid(s, seen);
    case EachRead(_, _, _) => EachReadKeepsValid(s, seen);
    case EachStore(_, _, _) => EachStoreKeepsValid(s, seen);
  }

  lemma PopKeepsValid<T>(s: State<T>, seen: nat)
    requires |s.buf| > 0 && Valid(s) && s.seenAccepted <= seen <= |s.accepted|
    requires s.consumer.PopLoadIn? || s.consumer.PopRead?
    ensures var s' := ConsumerNext(s, seen); |s'.buf| == |s.buf| && Valid(s')
  {
    hide Slot, PushFirst, PushSecond, PushSlot, PushNext, Available, PopSlot;
    if s.consumer.PopLoadIn? { SameSlot(seen, s.released, |s.buf|); } else { TakeOne(s); }
  }

  lemma LoadInKeepsValid<T>(s: State<T>, seen: nat)
    requires |s.buf| > 0 && Valid(s) && s.seenAccepted <= seen <= |s.accepted|
    requires s.consumer.PopNLoadIn? || s.consumer.EachLoadIn?
    ensures var s' := ConsumerNext(s, seen); |s'.buf| == |s.buf| && Valid(s')
  {
    hide Slot, PushFirst, PushSecond, PushSlot, PushNext, Available, PopSlot;
  }

  lemma PopStoreKeepsValid<T>(s: State<T>, seen: nat)
    requires |s.buf| > 0 && Valid(s) && s.seenAccepted <= seen <= |s.accepted|
    requires s.consumer.PopStore?
    ensures var s' := ConsumerNext(s, seen); |s'.buf| == |s.buf| && Valid(s')
  {
    hide Slot, PushFirst, PushSecond, PushSlot, PushNext, Available, PopSlot;
    SlotAdd(s.released, 1, |s.buf|);
  }

  lemma AvailableKeepsValid<T>(s: State<T>, seen: nat)
    requires |s.buf| > 0 && Valid(s) && s.seenAccepted <= seen <= |s.accepted|
    requires s.consumer.PopNLoadOut?
    ensures var s' := ConsumerNext(s, seen); |s'.buf| == |s.buf| && Valid(s')
  {
    hide Slot, PushFirst, PushSecond, PushSlot, PushNext, Available, PopSlot;
    AvailableIsDistance(s.seenAccepted, s.released, |s.buf|);
  }

  lemma EachReadKeepsValid<T>(s: State<T>, seen: nat)
    requires |s.buf| > 0 && Valid(s) && s.seenAccepted <= seen <= |s.accepted|
    requires s.consumer.EachRead?
    ensures var s' := ConsumerNext(s, seen); |s'.buf| == |s.buf| && Valid(s')
  {
    hide Slot, PushFirst, PushSecond, PushSlot, PushNext, Available, PopSlot;
    SameSlot(s.consumer.target, s.released, |s.buf|);
    if s.consumer.outPos != s.consumer.inPos { TakeOne(s); }
  }

  lemma EachStoreKeepsValid<T>(s: State<T>, seen: nat)
    requires |s.buf| > 0 && Valid(s) && s.seenAccepted <= seen <= |s.accepted|
    requires s.consumer.EachStore?
    ensures var s' := ConsumerNext(s, seen); |s'.buf| == |s.buf| && Valid(s')
  {
    hide Slot, PushFirst, PushSecond, PushSlot, PushNext, Available, PopSlot;
    SlotAdd(s.released, 1, |s.buf|);
  }

  lemma PopNCopyKeepsValid<T>(s: State<T>, seen: nat)
    requires |s.buf| > 0 && Valid(s) && s.seenAccepted <= seen <= |s.accepted|
    requires s.consumer.PopNCopy? && s.consumer.done < s.consumer.size
    ensures var s' := ConsumerNext(s, seen); |s'.buf| == |s.buf| && Valid(s')
  {
    hide Slot, PushFirst, PushSecond, PushSlot, PushNext, Available, PopSlot;
    PopSlots(s.released, |s.buf|, s.consumer.size, s.consumer.done);
    TakeOne(s);
  }

  lemma PopNStoreKeepsValid<T>(s: State<T>, seen: nat)
    requires |s.buf| > 0 && Valid(s) && s.seenAccepted <= seen <= |s.accepted|
    requires s.consumer.PopNCopy? && s.consumer.done >= s.consumer.size
    ensures var s' := ConsumerNext(s, seen); |s'.buf| == |s.buf| && Valid(s')
  {
    hide Slot, PushFirst, PushSecond, PushSlot, PushNext, Available, PopSlot;
    SlotAdd(s.released, s.consumer.size, |s.buf|);
  }

  lemma TakeOne<T>(s: State<T>)
    requires |s.buf| > 0 && Valid(s) && s.released + Taken(s.consumer) < |s.accepted|
    ensures var next := s.released + Taken(s.consumer);
      s.consumed + [s.buf[Slot(next, |s.buf|)]] == s.accepted[..next + 1]
  {
    hide Slot;
  }

  lemma StepKeepsValid<T>(s: State<T>, a: Action<T>)
    requires |s.buf| > 0 && Valid(s) && Enabled(s, a)
    ensures |Step(s, a).buf| == |s.buf| && Valid(Step(s, a))
  {
    if a.ProducerStep? {
      hide Valid, ProducerNext, ConsumerNext;
      ProducerKeepsValid(s, a.seen);
    } else if a.ConsumerStep? {
      hide Valid, ProducerNext, ConsumerNext;
      ConsumerKeepsValid(s, a.seen);
    } else if a.CallPush? || a.CallPushN? {
      hide Valid, ProducerNext, ConsumerNext;
      ProducerCallKeepsValid(s, a);
    } else {
      hide Valid, ProducerNext, ConsumerNext;
      ConsumerCallKeepsValid(s, a);
    }
  }

  lemma ProducerCallKeepsValid<T>(s: State<T>, a: Action<T>)
    requires |s.buf| > 0 && Valid(s) && Enabled(s, a) && (a.CallPush? || a.CallPushN?)
    ensures |Step(s, a).buf| == |s.buf| && Valid(Step(s, a))
  {
    hide Slot, PushFirst, PushSecond, PushSlot, PushNext, ConsumerValid, ProducerNext, ConsumerNext;
    ConsumerStays(s, Step(s, a));
  }

  lemma ConsumerCallKeepsValid<T>(s: State<T>, a: Action<T>)
    requires |s.buf| > 0 && Valid(s) && Enabled(s, a) && (a.CallPop? || a.CallPopN? || a.CallForEach?)
    ensures |Step(s, a).buf| == |s.buf| && Valid(Step(s, a))
  {
    hide Slot, PushFirst, PushSecond, PushSlot, PushNext, ProducerValid, ProducerNext, ConsumerNext;
    ProducerStays(s, Step(s, a));
  }

  /** What the producer relies on is none of what a consumer's call changes. */
  lemma ProducerStays<T>(s: State<T>, s': State<T>)
    requires |s.buf| > 0 && s'.buf == s.buf && ProducerValid(s)
    requires s'.producer == s.producer && s'.inPos == s.inPos
    requires s'.accepted == s.accepted && s'.seenReleased == s.seenReleased
    ensures ProducerValid(s')
  {
    hide Slot, PushSlot, PushNext;
  }

  ghost predicate IsRun<T>(s: State<T>, acts: seq<Action<T>>)
    requires |s.buf| > 0 && Valid(s)
    decreases |acts|
  {
    acts == [] ||
    (Enabled(s, acts[0]) && (StepKeepsValid(s, acts[0]); IsRun(Step(s, acts[0]), acts[1..])))
  }

  ghost function Run<T>(s: State<T>, acts: seq<Action<T>>): State<T>
    requires |s.buf| > 0 && Valid(s) && IsRun(s, acts)
    decreases |acts|
  {
    if acts == [] then s else (StepKeepsValid(s, acts[0]); Run(Step(s, acts[0]), acts[1..]))
  }

  lemma {:induction false} RunKeepsValid<T>(s: State<T>, acts: seq<Action<T>>)
    requires |s.buf| > 0 && Valid(s) && IsRun(s, acts)
    ensures |Run(s, acts).buf| == |s.buf| && Valid(Run(s, acts))
    decreases |acts|
  {
    hide Slot;
    if acts != [] {
      StepKeepsValid(s, acts[0]);
      RunKeepsValid(Step(s, acts[0]), acts[1..]);
    }
  }

  /** MAIN: after every run, what was consumed is a prefix of what was accepted; the next slot written
      holds no item still to be read and is not the slot being read; and no more than the capacity is
      outstanding. */
  lemma Safety<T>(buf: seq<T>, acts: seq<Action<T>>)
    requires 0 < |buf| <= TWO_31 && IsRun(Init(buf), acts)
    ensures
      var s := Run(Init(buf), acts);
      && s.consumed <= s.accepted
      && |s.accepted| - |s.consumed| <= |buf| - 1
      && |s.buf| == |buf|
      && (forall i: nat | |s.consumed| <= i < |s.accepted| :: s.buf[Slot(i, |s.buf|)] == s.accepted[i])
      && (WriteSlot(s) >= 0 ==>
            && WriteSlot(s) != ReadSlot(s)
            && forall i: nat | |s.consumed| <= i < |s.accepted| :: WriteSlot(s) != Slot(i, |s.buf|))
  {
    hide Slot, Valid, Run, WriteSlot, ReadSlot;
    RunKeepsValid(Init(buf), acts);
    var s := Run(Init(buf), acts);
    UnreadIntact(s);
    if WriteSlot(s) >= 0 { WritesFree(s); }
  }

  lemma UnreadIntact<T>(s: State<T>)
    requires |s.buf| > 0 && Valid(s)
    ensures s.consumed <= s.accepted && |s.consumed| == s.released + Taken(s.consumer)
    ensures |s.accepted| - |s.consumed| <= |s.buf| - 1
    ensures forall i: nat | |s.consumed| <= i < |s.accepted| :: s.buf[Slot(i, |s.buf|)] == s.accepted[i]
  {
    hide Slot, ProducerValid, ConsumerValid;
  }

  /** The slot written next is neither that of an item still to be read nor the one being read. */
  lemma WritesFree<T>(s: State<T>)
    requires |s.buf| > 0 && Valid(s) && WriteSlot(s) >= 0
    ensures WriteSlot(s) != ReadSlot(s)
    ensures forall i: nat | s.released <= i < |s.accepted| :: WriteSlot(s) != Slot(i, |s.buf|)
  {
    hide Slot, Valid, ReadSlot, WriteSlot;
    var c := WriteCounter(s);
    WriteKeepsUnread(s, c);
    if ReadSlot(s) >= 0 { ReadsUnread(s); }
  }

  lemma WriteCounter<T>(s: State<T>) returns (c: nat)
    requires |s.buf| > 0 && Valid(s) && WriteSlot(s) >= 0
    ensures WriteSlot(s) == Slot(c, |s.buf|) && |s.accepted| <= c < s.released + |s.buf|
  {
    hide Slot, PushSlot, PushNext, ConsumerValid;
    c := |s.accepted| + if s.producer.PushNCopy? then s.producer.done else 0;
  }

  lemma ReadsUnread<T>(s: State<T>)
    requires |s.buf| > 0 && Valid(s) && ReadSlot(s) >= 0
    ensures var i := s.released + Taken(s.consumer);
      i < |s.accepted| && ReadSlot(s) == Slot(i, |s.buf|)
  {
    hide Slot;
    match s.consumer
    case PopNCopy(outPos, size, done) => PopSlots(s.released, |s.buf|, size, done);
    case EachRead(outPos, inPos, target) => SameSlot(target, s.released, |s.buf|);
    case _ =>
  }

  /** How much each call takes, in counters: a push is refused exactly when the reader it saw leaves no
      room, a pop exactly when the writer it saw is level; the bulk calls take the smaller of the
      request and what they saw. */
  lemma Outcomes<T>(s: State<T>, seen: nat)
    requires |s.buf| > 0 && Valid(s)
    ensures Enabled(s, ProducerStep(seen)) && s.producer.PushLoadOut? ==>
      (ProducerNext(s, seen).producer.ProducerIdle? <==> |s.accepted| - seen == |s.buf| - 1)
    ensures Enabled(s, ProducerStep(seen)) && s.producer.PushNLoadOut? ==>
      var p := ProducerNext(s, seen).producer;
      var k := Min(|s.producer.items|, |s.buf| - 1 - (|s.accepted| - seen));
      if k == 0 then p.ProducerIdle? else p.PushNCopy? && p.first + p.second == k
    ensures Enabled(s, ConsumerStep(seen)) && s.consumer.PopLoadIn? ==>
      (ConsumerNext(s, seen).consumer.ConsumerIdle? <==> seen == s.released)
    ensures Enabled(s, ConsumerStep(seen)) && s.consumer.PopNLoadOut? ==>
      var c := ConsumerNext(s, seen).consumer;
      var k := Min(s.consumer.size, s.seenAccepted - s.released);
      if k == 0 then c.ConsumerIdle? else c == PopNCopy(s.outPos, k, 0)
  {
    hide Slot, PushFirst, PushSecond, PushSlot, PushNext, Available, PopSlot;
    var n, pushed := |s.buf|, |s.accepted|;
    if Enabled(s, ProducerStep(seen)) {
      if s.producer.PushLoadOut? {
        if pushed + 1 == seen + n { SlotAdd(seen, n, n); } else { SameSlot(pushed + 1, seen, n); }
        SlotAdd(pushed, 1, n);
      } else if s.producer.PushNLoadOut? {
        PushBlocks(pushed, seen, n, |s.producer.items|);
      }
    }
    if Enabled(s, ConsumerStep(seen)) {
      SameSlot(seen, s.released, n);
      AvailableIsDistance(s.seenAccepted, s.released, n);
    }
  }

  /** The run ends with the consumer's call: its last step is the first after which the consumer is idle. */
  ghost predicate ConsumerEnds<T>(s: State<T>, acts: seq<Action<T>>)
    requires |s.buf| > 0 && Valid(s) && IsRun(s, acts)
    decreases |acts|
  {
    if acts == [] then s.consumer.ConsumerIdle?
    else
      && !s.consumer.ConsumerIdle?
      && (StepKeepsValid(s, acts[0]); ConsumerEnds(Step(s, acts[0]), acts[1..]))
  }

  ghost predicate ProducerEnds<T>(s: State<T>, acts: seq<Action<T>>)
    requires |s.buf| > 0 && Valid(s) && IsRun(s, acts)
    decreases |acts|
  {
    if acts == [] then s.producer.ProducerIdle?
    else
      && !s.producer.ProducerIdle?
      && (StepKeepsValid(s, acts[0]); ProducerEnds(Step(s, acts[0]), acts[1..]))
  }

  /** The run is one whole call of the consumer, with whatever the producer does in the meantime. */
  ghost predicate ConsumerCall<T>(s: State<T>, acts: seq<Action<T>>)
    requires |s.buf| > 0 && Valid(s)
  {
    && IsRun(s, acts) && acts != []
    && (acts[0].CallPop? || acts[0].CallPopN? || acts[0].CallForEach?)
    && (StepKeepsValid(s, acts[0]); ConsumerEnds(Step(s, acts[0]), acts[1..]))
  }

  ghost predicate ProducerCall<T>(s: State<T>, acts: seq<Action<T>>)
    requires |s.buf| > 0 && Valid(s)
  {
    && IsRun(s, acts) && acts != []
    && (acts[0].CallPush? || acts[0].CallPushN?)
    && (StepKeepsValid(s, acts[0]); ProducerEnds(Step(s, acts[0]), acts[1..]))
  }

  /** The counter that the consumer's first step observes: every call's load of the index of the other side. */
  ghost function ConsumerSees<T>(acts: seq<Action<T>>): nat {
    if acts == [] then 0 else if acts[0].ConsumerStep? then acts[0].seen else ConsumerSees(acts[1..])
  }

  ghost function ProducerSees<T>(acts: seq<Action<T>>): nat {
    if acts == [] then 0 else if acts[0].ProducerStep? then acts[0].seen else ProducerSees(acts[1..])
  }

  /** What will be released once the current call ends, if its first load is still to come and observes `seen`. */
  ghost function WillRelease<T>(s: State<T>, seen: int): int {
    match s.consumer
    case ConsumerIdle => s.released
    case PopLoadIn(_) => if seen == s.released then seen else s.released + 1
    case PopRead(_) => s.released + 1
    case PopStore(_) => s.released + 1
    case PopNLoadIn(size) => if s.released + size <= seen then s.released + size else seen
    case PopNLoadOut(size, _) => if s.released + size <= s.seenAccepted then s.released + size else s.seenAccepted
    case PopNCopy(_, size, _) => s.released + size
    case EachLoadIn(_) => seen
    case EachRead(_, _, target) => target
    case EachStore(_, _, target) => target
  }

  /** The first `k` items, or all of them when there are fewer. */
  function Front<T>(items: seq<T>, k: int): (r: seq<T>)
    ensures 0 <= k ==> r == items[..Min(|items|, k)]
  {
    if 0 <= k < |items| then items[..k] else items
  }

  /** What will be accepted once the current call ends, in the same way. */
  ghost function WillAccept<T>(s: State<T>, seen: int): seq<T> {
    match s.producer
    case ProducerIdle => s.accepted
    case PushLoadOut(val, _) => if |s.accepted| - seen == |s.buf| - 1 then s.accepted else s.accepted + [val]
    case PushWrite(val, _, _) => s.accepted + [val]
    case PushStore(val, _) => s.accepted + [val]
    case PushNLoadOut(items, _) => s.accepted + Front(items, |s.buf| - 1 - (|s.accepted| - seen))
    case PushNCopy(items, _, first, second, _) => s.accepted + Front(items, first + second)
  }

  lemma ConsumerStepAims<T>(s: State<T>, seen: nat, later: int)
    requires |s.buf| > 0 && Valid(s) && Enabled(s, ConsumerStep(seen))
    ensures WillRelease(ConsumerNext(s, seen), later) == WillRelease(s, seen)
  {
    hide Slot, PushFirst, PushSecond, PushSlot, PushNext, Available, PopSlot, ProducerValid;
    match s.consumer
    case PopLoadIn(_) => SameSlot(seen, s.released, |s.buf|);
    case PopNLoadOut(_, _) => AvailableIsDistance(s.seenAccepted, s.released, |s.buf|);
    case EachRead(_, _, target) => SameSlot(target, s.released, |s.buf|);
    case _ =>
  }

  lemma ProducerStepAims<T>(s: State<T>, seen: nat, later: int)
    requires |s.buf| > 0 && Valid(s) && Enabled(s, ProducerStep(seen))
    ensures WillAccept(ProducerNext(s, seen), later) == WillAccept(s, seen)
  {
    if s.producer.PushLoadOut? || s.producer.PushNLoadOut? {
      hide ProducerNext, WillAccept, Valid;
      ProducerLoadAims(s, seen, later);
    } else if s.producer.PushNCopy? {
      hide Slot, PushSlot, PushNext, Valid;
      CopyFits(s);
      if s.producer.done >= s.producer.first + s.producer.second { CopiedAll(s); }
    } else {
      hide Slot, PushSlot, PushNext, Valid;
    }
  }

  /** A bulk push copies no more than it was given. */
  lemma CopyFits<T>(s: State<T>)
    requires |s.buf| > 0 && Valid(s) && s.producer.PushNCopy?
    ensures s.producer.first + s.producer.second <= |s.producer.items|
  {
    hide Slot, PushSlot, PushNext, ConsumerValid;
  }

  lemma ProducerLoadAims<T>(s: State<T>, seen: nat, later: int)
    requires |s.buf| > 0 && Valid(s) && Enabled(s, ProducerStep(seen))
    requires s.producer.PushLoadOut? || s.producer.PushNLoadOut?
    ensures WillAccept(ProducerNext(s, seen), later) == WillAccept(s, seen)
  {
    hide Slot, PushFirst, PushSecond, PushSlot, PushNext, Available, PopSlot, ProducerValid, ConsumerValid;
    Outcomes(s, seen);
    if s.producer.PushNLoadOut? && ProducerNext(s, seen).producer.ProducerIdle? {
      assert s.accepted + s.producer.items[..0] == s.accepted;
    }
  }

  /** A consumer's step changes nothing that a producer's call goes by, and the other way round. */
  lemma ConsumerLeavesProducer<T>(s: State<T>, seen: nat)
    requires |s.buf| > 0 && Valid(s) && Enabled(s, ConsumerStep(seen))
    ensures var d := ConsumerNext(s, seen);
      && d.producer == s.producer && d.accepted == s.accepted && d.buf == s.buf && d.seenReleased == s.seenReleased
      && d.released >= s.released && d.seenAccepted >= s.seenAccepted
  {
    hide Slot, PushFirst, PushSecond, PushSlot, PushNext, PopSlot, Available, Valid, ConsumerValid, ProducerValid;
  }

  lemma ProducerLeavesConsumer<T>(s: State<T>, seen: nat)
    requires |s.buf| > 0 && Valid(s) && Enabled(s, ProducerStep(seen))
    ensures var d := ProducerNext(s, seen);
      && d.consumer == s.consumer && d.released == s.released && d.seenAccepted == s.seenAccepted
      && |d.accepted| >= |s.accepted| && d.seenReleased >= s.seenReleased
  {
    hide Slot, PushFirst, PushSecond, PushSlot, PushNext, PopSlot, Available, Valid, ConsumerValid, ProducerValid;
  }

  /** A step leaves what the consumer's call aims at, whichever side takes it. */
  lemma ConsumerAims<T>(s: State<T>, a: Action<T>, later: int)
    requires |s.buf| > 0 && Valid(s) && Enabled(s, a) && !s.consumer.ConsumerIdle?
    ensures WillRelease(Step(s, a), later) == WillRelease(s, if a.ConsumerStep? then a.seen else later)
    ensures |Step(s, a).accepted| >= |s.accepted| && Step(s, a).seenAccepted >= s.seenAccepted
    ensures if a.ConsumerStep? then s.seenAccepted <= a.seen <= |s.accepted| else !Step(s, a).consumer.ConsumerIdle?
  {
    hide Valid, ConsumerNext, ProducerNext;
    if a.ConsumerStep? {
      hide WillRelease;
      ConsumerStepAims(s, a.seen, later);
      ConsumerLeavesProducer(s, a.seen);
    } else if a.ProducerStep? {
      ProducerLeavesConsumer(s, a.seen);
    }
  }

  lemma ProducerAims<T>(s: State<T>, a: Action<T>, later: int)
    requires |s.buf| > 0 && Valid(s) && Enabled(s, a) && !s.producer.ProducerIdle?
    ensures WillAccept(Step(s, a), later) == WillAccept(s, if a.ProducerStep? then a.seen else later)
    ensures Step(s, a).released >= s.released && Step(s, a).seenReleased >= s.seenReleased
    ensures if a.ProducerStep? then s.seenReleased <= a.seen <= s.released else !Step(s, a).producer.ProducerIdle?
  {
    hide Valid, ConsumerNext, ProducerNext, Front;
    if a.ProducerStep? {
      hide WillAccept;
      ProducerStepAims(s, a.seen, later);
      ProducerLeavesConsumer(s, a.seen);
    } else if a.ConsumerStep? {
      ConsumerLeavesProducer(s, a.seen);
    }
  }

  lemma IdleReleases<T>(s: State<T>, seen: int)
    requires s.consumer.ConsumerIdle?
    ensures WillRelease(s, seen) == s.released
  {
  }

  lemma IdleAccepts<T>(s: State<T>, seen: int)
    requires s.producer.ProducerIdle?
    ensures WillAccept(s, seen) == s.accepted
  {
  }

  lemma {:induction false} ConsumerReaches<T>(s: State<T>, acts: seq<Action<T>>)
    requires |s.buf| > 0 && Valid(s) && IsRun(s, acts) && ConsumerEnds(s, acts)
    ensures Run(s, acts).released == WillRelease(s, ConsumerSees(acts))
    ensures Run(s, acts).consumer.ConsumerIdle?
    ensures acts != [] ==> s.seenAccepted <= ConsumerSees(acts) <= |Run(s, acts).accepted|
    ensures |s.accepted| <= |Run(s, acts).accepted|
    decreases |acts|
  {
    hide Valid, Step, WillRelease, Enabled;
    if acts == [] {
      IdleReleases(s, ConsumerSees(acts));
    } else {
      StepKeepsValid(s, acts[0]);
      ConsumerReaches(Step(s, acts[0]), acts[1..]);
      ConsumerAims(s, acts[0], ConsumerSees(acts[1..]));
    }
  }

  lemma {:induction false} ProducerReaches<T>(s: State<T>, acts: seq<Action<T>>)
    requires |s.buf| > 0 && Valid(s) && IsRun(s, acts) && ProducerEnds(s, acts)
    ensures Run(s, acts).accepted == WillAccept(s, ProducerSees(acts))
    ensures Run(s, acts).producer.ProducerIdle?
    ensures acts != [] ==> s.seenReleased <= ProducerSees(acts) <= Run(s, acts).released
    ensures s.released <= Run(s, acts).released
    decreases |acts|
  {
    hide Valid, Step, WillAccept, Enabled;
    if acts == [] {
      IdleAccepts(s, ProducerSees(acts));
    } else {
      StepKeepsValid(s, acts[0]);
      ProducerReaches(Step(s, acts[0]), acts[1..]);
      ProducerAims(s, acts[0], ProducerSees(acts[1..]));
    }
  }

  /** Between calls all that was consumed is released. */
  lemma ConsumedAtRest<T>(s: State<T>)
    requires |s.buf| > 0 && Valid(s) && s.consumer.ConsumerIdle?
    ensures s.consumed <= s.accepted && |s.consumed| == s.released <= s.seenAccepted
  {
    hide Slot, ProducerValid;
  }

  lemma RoomSeen<T>(s: State<T>)
    requires |s.buf| > 0 && Valid(s)
    ensures |s.accepted| < s.seenReleased + |s.buf|
  {
    hide Slot, ProducerValid, ConsumerValid;
  }

  /** MAIN: what a consumer's call takes, whatever the producer does meanwhile. With `seen` the counter
      that its one load of the write index observes: `for_each` hands over every item up to `seen`,
      `pop` one unless it is level with `seen`, `pop_n` the smaller of the request and what it saw. All
      that the call took is released, and the items are those accepted, in their order. */
  lemma ConsumerTakes<T>(s: State<T>, acts: seq<Action<T>>)
    requires |s.buf| > 0 && Valid(s) && ConsumerCall(s, acts)
    ensures
      var d, seen := Run(s, acts), ConsumerSees(acts);
      && s.released == |s.consumed| <= seen <= |d.accepted|
      && d.consumed <= d.accepted && d.released == |d.consumed|
      && match acts[0]
         case CallForEach => d.released == seen
         case CallPop => d.released == s.released + if seen == s.released then 0 else 1
         case CallPopN(size) => d.released == s.released + Min(size, seen - s.released)
         case _ => true
  {
    hide Valid, ConsumerNext, ProducerNext;
    StepKeepsValid(s, acts[0]);
    ConsumerReaches(Step(s, acts[0]), acts[1..]);
    RunKeepsValid(Step(s, acts[0]), acts[1..]);
    ConsumedAtRest(s);
    ConsumedAtRest(Run(s, acts));
  }

  /** MAIN: what a producer's call adds, whatever the consumer does meanwhile. With `seen` the counter that
      its one load of the read index observes: `push` adds its item unless the buffer looked full, `push_n`
      as many of its items as it saw room for. */
  lemma ProducerAdds<T>(s: State<T>, acts: seq<Action<T>>)
    requires |s.buf| > 0 && Valid(s) && ProducerCall(s, acts)
    ensures
      var d, seen := Run(s, acts), ProducerSees(acts);
      var room := |s.buf| - 1 - (|s.accepted| - seen);
      && s.seenReleased <= seen <= d.released && 0 <= room
      && match acts[0]
         case CallPush(val) => d.accepted == s.accepted + if room == 0 then [] else [val]
         case CallPushN(items) => d.accepted == s.accepted + items[..Min(|items|, room)]
         case _ => true
  {
    hide Valid, ConsumerNext, ProducerNext;
    StepKeepsValid(s, acts[0]);
    RoomSeen(s);
    ProducerReaches(Step(s, acts[0]), acts[1..]);
  }

  // ---- No call waits

  /** In the whole run the consumer is inside one call. */
  ghost predicate ConsumerBusy<T>(s: State<T>, acts: seq<Action<T>>)
    requires |s.buf| > 0 && Valid(s) && IsRun(s, acts)
    decreases |acts|
  {
    && !s.consumer.ConsumerIdle?
    && (acts == [] || (StepKeepsValid(s, acts[0]); ConsumerBusy(Step(s, acts[0]), acts[1..])))
  }

  ghost predicate ProducerBusy<T>(s: State<T>, acts: seq<Action<T>>)
    requires |s.buf| > 0 && Valid(s) && IsRun(s, acts)
    decreases |acts|
  {
    && !s.producer.ProducerIdle?
    && (acts == [] || (StepKeepsValid(s, acts[0]); ProducerBusy(Step(s, acts[0]), acts[1..])))
  }

  function ConsumerSteps<T>(acts: seq<Action<T>>): nat {
    if acts == [] then 0 else (if acts[0].ConsumerStep? then 1 else 0) + ConsumerSteps(acts[1..])
  }

  function ProducerSteps<T>(acts: seq<Action<T>>): nat {
    if acts == [] then 0 else (if acts[0].ProducerStep? then 1 else 0) + ProducerSteps(acts[1..])
  }

  /** How many steps of its own the call has at most ahead, if its load is still to come and observes `seen`. */
  function ConsumerLeft<T>(s: State<T>, seen: int): int {
    match s.consumer
    case ConsumerIdle => 0
    case PopLoadIn(_) => 3
    case PopRead(_) => 2
    case PopStore(_) => 1
    case PopNLoadIn(size) => size + 3
    case PopNLoadOut(size, _) => size + 2
    case PopNCopy(_, size, done) => size - done + 1
    case EachLoadIn(_) => 2 * (seen - s.released) + 2
    case EachRead(_, _, target) => 2 * (target - s.released) + 1
    case EachStore(_, _, target) => 2 * (target - s.released)
  }

  function ProducerLeft<T>(s: State<T>): int {
    match s.producer
    case ProducerIdle => 0
    case PushLoadOut(_, _) => 3
    case PushWrite(_, _, _) => 2
    case PushStore(_, _) => 1
    case PushNLoadOut(items, _) => |items| + 2
    case PushNCopy(_, _, first, second, done) => first + second - done + 1
  }

  lemma ConsumerStepCounts<T>(s: State<T>, seen: nat, later: int)
    requires |s.buf| > 0 && Valid(s) && Enabled(s, ConsumerStep(seen))
    ensures ConsumerLeft(ConsumerNext(s, seen), later) < ConsumerLeft(s, seen)
  {
    hide Slot, PushFirst, PushSecond, PushSlot, PushNext, Available, PopSlot, ProducerValid;
  }

  lemma ConsumerHasSteps<T>(s: State<T>, seen: int)
    requires |s.buf| > 0 && Valid(s) && !s.consumer.ConsumerIdle? && s.seenAccepted <= seen
    ensures ConsumerLeft(s, seen) > 0
  {
    hide Slot, ProducerValid;
  }

  lemma ProducerStepCounts<T>(s: State<T>, seen: nat)
    requires |s.buf| > 0 && Valid(s) && Enabled(s, ProducerStep(seen))
    ensures ProducerLeft(ProducerNext(s, seen)) < ProducerLeft(s)
  {
    if s.producer.PushNLoadOut? {
      hide Slot, PushFirst, PushSecond, PushSlot, PushNext, Valid, ProducerValid, ConsumerValid;
      Outcomes(s, seen);
    } else {
      hide Slot, PushSlot, PushNext, ConsumerValid;
    }
  }

  lemma ProducerHasSteps<T>(s: State<T>)
    requires |s.buf| > 0 && Valid(s) && !s.producer.ProducerIdle?
    ensures ProducerLeft(s) > 0
  {
    hide Slot, PushSlot, PushNext, ConsumerValid;
  }

  /** What the other side does leaves the steps ahead as they are. */
  lemma ConsumerCounts<T>(s: State<T>, a: Action<T>, later: int)
    requires |s.buf| > 0 && Valid(s) && Enabled(s, a) && !s.consumer.ConsumerIdle?
    ensures if a.ConsumerStep? then
              ConsumerLeft(Step(s, a), later) < ConsumerLeft(s, a.seen) && s.seenAccepted <= a.seen
            else ConsumerLeft(Step(s, a), later) == ConsumerLeft(s, later)
    ensures Step(s, a).seenAccepted >= s.seenAccepted
  {
    hide Valid, ConsumerNext, ProducerNext;
    if a.ConsumerStep? {
      hide ConsumerLeft;
      ConsumerStepCounts(s, a.seen, later);
      ConsumerLeavesProducer(s, a.seen);
    } else if a.ProducerStep? {
      ProducerLeavesConsumer(s, a.seen);
    }
  }

  lemma ProducerCounts<T>(s: State<T>, a: Action<T>)
    requires |s.buf| > 0 && Valid(s) && Enabled(s, a) && !s.producer.ProducerIdle?
    ensures if a.ProducerStep? then ProducerLeft(Step(s, a)) < ProducerLeft(s)
            else ProducerLeft(Step(s, a)) == ProducerLeft(s)
  {
    hide Valid, ConsumerNext, ProducerNext;
    if a.ProducerStep? {
      hide ProducerLeft;
      ProducerStepCounts(s, a.seen);
    } else if a.ConsumerStep? {
      ConsumerLeavesProducer(s, a.seen);
    }
  }

  lemma {:induction false} ConsumerRunsOut<T>(s: State<T>, acts: seq<Action<T>>, seen: int)
    requires |s.buf| > 0 && Valid(s) && IsRun(s, acts) && ConsumerBusy(s, acts)
    requires if ConsumerSteps(acts) > 0 then seen == ConsumerSees(acts) else seen >= s.seenAccepted
    ensures ConsumerSteps(acts) < ConsumerLeft(s, seen)
    decreases |acts|
  {
    hide Valid, Step, ConsumerLeft, Enabled;
    if acts == [] {
      ConsumerHasSteps(s, seen);
    } else {
      StepKeepsValid(s, acts[0]);
      var d := Step(s, acts[0]);
      if acts[0].ConsumerStep? {
        var later: int := if ConsumerSteps(acts[1..]) > 0 then ConsumerSees(acts[1..]) else d.seenAccepted;
        ConsumerCounts(s, acts[0], later);
        ConsumerRunsOut(d, acts[1..], later);
      } else if ConsumerSteps(acts) > 0 {
        ConsumerCounts(s, acts[0], seen);
        ConsumerRunsOut(d, acts[1..], seen);
      } else {
        ConsumerHasSteps(s, seen);
      }
    }
  }

  lemma {:induction false} ProducerRunsOut<T>(s: State<T>, acts: seq<Action<T>>)
    requires |s.buf| > 0 && Valid(s) && IsRun(s, acts) && ProducerBusy(s, acts)
    ensures ProducerSteps(acts) < ProducerLeft(s)
    decreases |acts|
  {
    hide Valid, Step, ProducerLeft, Enabled;
    if acts == [] {
      ProducerHasSteps(s);
    } else {
      StepKeepsValid(s, acts[0]);
      ProducerCounts(s, acts[0]);
      ProducerRunsOut(Step(s, acts[0]), acts[1..]);
    }
  }

  /** The run begins with a call of the consumer and is inside it to its end. */
  ghost predicate InConsumerCall<T>(s: State<T>, acts: seq<Action<T>>)
    requires |s.buf| > 0 && Valid(s) && IsRun(s, acts)
  {
    && acts != [] && (acts[0].CallPop? || acts[0].CallPopN? || acts[0].CallForEach?)
    && (StepKeepsValid(s, acts[0]); ConsumerBusy(Step(s, acts[0]), acts[1..]))
  }

  ghost predicate InProducerCall<T>(s: State<T>, acts: seq<Action<T>>)
    requires |s.buf| > 0 && Valid(s) && IsRun(s, acts)
  {
    && acts != [] && (acts[0].CallPush? || acts[0].CallPushN?)
    && (StepKeepsValid(s, acts[0]); ProducerBusy(Step(s, acts[0]), acts[1..]))
  }

  /** MAIN: the queue is wait-free. Whatever the other side does, a side inside a call can always take its next step,
      with a load of any counter from the last one it saw up to the present one; and it leaves the call within a
      number of steps of its own: three for `push` and `pop`, two or three more than it was asked for in bulk, and for
      `for_each` two for each item up to the counter that its load observes, and two. */
  lemma WaitFree<T>(s: State<T>, acts: seq<Action<T>>)
    requires |s.buf| > 0 && Valid(s) && IsRun(s, acts)
    ensures var d := Run(s, acts); !d.consumer.ConsumerIdle? ==>
      forall seen: nat :: d.seenAccepted <= seen <= |d.accepted| ==> Enabled(d, ConsumerStep(seen))
    ensures var d := Run(s, acts); !d.producer.ProducerIdle? ==>
      forall seen: nat :: d.seenReleased <= seen <= d.released ==> Enabled(d, ProducerStep(seen))
    ensures InProducerCall(s, acts) ==>
      ProducerSteps(acts) < match acts[0] case CallPushN(items) => |items| + 2 case _ => 3
    ensures InConsumerCall(s, acts) ==>
      match acts[0]
      case CallPopN(size) => ConsumerSteps(acts) < size + 3
      case CallForEach => ConsumerSteps(acts) > 0 ==> ConsumerSteps(acts) < 2 * (ConsumerSees(acts) - s.released) + 2
      case _ => ConsumerSteps(acts) < 3
  {
    hide Valid, ConsumerNext, ProducerNext;
    if InConsumerCall(s, acts) {
      StepKeepsValid(s, acts[0]);
      var begun := Step(s, acts[0]);
      ConsumerRunsOut(begun, acts[1..], if ConsumerSteps(acts[1..]) > 0 then ConsumerSees(acts[1..]) else begun.seenAccepted);
    }
    if InProducerCall(s, acts) {
      StepKeepsValid(s, acts[0]);
      ProducerRunsOut(Step(s, acts[0]), acts[1..]);
    }
  }
}
