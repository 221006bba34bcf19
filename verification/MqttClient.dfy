/**
 The MQTT client's state machine. A call of the interface is a value that carries what the call meets:
 what the network answers, whether timers have run out, and, for every message delivered and every
 disconnect handler run, the calls the application makes from inside that callback, to any depth.
 */
module MqttClient {
  import opened CInt
  import RingIndex
  import opened Wrappers

  datatype ClientState =
    | Invalid | Initialized | Connecting | Idle | YieldInProgress | PublishInProgress | SubscribeInProgress
    | UnsubscribeInProgress | ResubscribeInProgress | WaitForCbReturn | Disconnecting | DisconnectedError
    | DisconnectedManually | PendingReconnect

  datatype Rc =
    | Success | NetworkDisconnected | AttemptingReconnect | Reconnected | ManuallyDisconnected | ReconnectTimedOut
    | PhysicalLayerDown | AlreadyConnected | NotIdle | UnexpectedState | RequestTimeout | SslError | Failure

  datatype AckKind = Connack | Puback | Suback | Unsuback | Qos2Ack

  /** What one read of the network brings: a message runs the handlers it matches, one after the other, and
      `ack` is how answering it went; `Unusable` is every read that does not yield a packet to act on. */
  datatype Incoming =
    | Nothing
    | Ack(kind: AckKind)
    | PingResponse
    | Message(callbacks: Calls, ack: Rc)
    | Unusable(rc: Rc)

  /** The reads made while waiting for an answer, until the timer runs out. */
  datatype Reads = Expired | Read(incoming: Incoming, more: Reads)

  /** One attempt to connect: opening the transport, sending CONNECT, waiting for CONNACK and its verdict, and
      whether the transport can be destroyed after a failure. */
  datatype Attempt = Attempt(transport: Rc, send: Rc, arrivals: Reads, connack: Rc, destroyed: bool)

  /** Subscribing again to each topic that has a handler: serializing and sending, waiting, the answer. */
  datatype Topics = NoTopics | Topic(send: Rc, arrivals: Reads, suback: Rc, others: Topics)

  datatype Retry = Retry(attempt: Attempt, topics: Topics)

  /** A disconnect of the client's own: whether the transport closes, and the disconnect handler's calls. */
  datatype Drop = Drop(closed: bool, handler: Calls)

  datatype Ping = NotDue | Due(send: Rc)

  /** What one turn of the yield loop meets. */
  datatype Beat = Beat(
    delayOver: bool, physical: bool, retry: Retry, incoming: Incoming, ping: Ping, room: bool, drop: Drop)

  datatype Beats = Last(beat: Beat) | Then(beat: Beat, more: Beats)

  datatype Operation = Publish | Subscribe | Unsubscribe

  datatype Call =
    | Request(op: Operation, send: Rc, waits: bool, arrivals: Reads, answer: Rc)
    | Connect(attempt: Attempt)
    | Disconnect(closed: bool)
    | Yield(beats: Beats)
    | AttemptReconnect(retry: Retry)
    | Resubscribe(topics: Topics)
    | SetAutoReconnect(enabled: bool)

  datatype Calls = NoCalls | Next(call: Call, rest: Calls)

  /** What is observed of a run: disconnects; answers no network should give (a transport that cannot be
      destroyed, or whose read itself reports a disconnect or a reconnect under way); whether a PINGREQ is
      unanswered on the present connection, and whether another was ever sent while one was; whether yield
      has entered pending-reconnect, and the attempts failed since it last did. */
  datatype Log = Log(
    disconnects: nat, faults: nat, unanswered: bool, doublePing: bool, armed: bool, failures: nat)

  datatype Client = Client(
    state: ClientState, pingOutstanding: bool, autoReconnect: bool, interval: nat, drops: nat, log: Log)

  const MIN_RECONNECT_WAIT := 1000
  const MAX_RECONNECT_WAIT := 128000

  predicate IsConnected(s: ClientState) {
    s in {Idle, YieldInProgress, PublishInProgress, SubscribeInProgress, UnsubscribeInProgress,
          ResubscribeInProgress, WaitForCbReturn}
  }

  predicate CanConnect(s: ClientState) {
    s in {Initialized, DisconnectedError, DisconnectedManually, PendingReconnect}
  }

  predicate Later(c: Client, d: Client) {
    c.log.disconnects <= d.log.disconnects && c.log.faults <= d.log.faults
  }

  /** States that only a call under way, or a callback, leaves behind for itself to restore. */
  predicate Underway(s: ClientState) {
    s in {PublishInProgress, SubscribeInProgress, UnsubscribeInProgress, ResubscribeInProgress, WaitForCbReturn}
  }

  /** Later, and not in a state that some other call has to restore. */
  predicate After(c: Client, d: Client) {
    Later(c, d) && (d.state == c.state || !Underway(d.state))
  }

  /** Compare and set. */
  function SetState(c: Client, expected: ClientState, next: ClientState): (r: (Client, Rc))
    ensures Later(c, r.0)
  {
    if c.state == expected then (c.(state := next), Success) else (c, UnexpectedState)
  }

  function Disconnected(c: Client, next: ClientState): Client {
    c.(state := next, log := c.log.(disconnects := c.log.disconnects + 1))
  }

  function Faulted(c: Client, fault: bool): Client {
    if fault then c.(log := c.log.(faults := c.log.faults + 1)) else c
  }

  function Run(c: Client, calls: Calls): (d: Client)
    ensures After(c, d)
    decreases calls
  {
    match calls
    case NoCalls => c
    case Next(call, rest) => Run(Exec(c, call).0, rest)
  }

  function Exec(c: Client, call: Call): (r: (Client, Rc))
    ensures After(c, r.0)
    decreases call
  {
    match call
    case Request(op, send, waits, arrivals, answer) => DoRequest(c, op, send, waits, arrivals, answer)
    case Connect(attempt) => DoConnect(c, attempt)
    case Disconnect(closed) => DoDisconnect(c, closed)
    case Yield(beats) => DoYield(c, beats)
    case AttemptReconnect(retry) => DoAttemptReconnect(c, retry)
    case Resubscribe(topics) => DoResubscribe(c, topics)
    case SetAutoReconnect(enabled) => (c.(autoReconnect := enabled), Success)
  }

  /** `cycle_read`: a message's callbacks run in a state of their own, from which the state they were
      delivered in is restored, unless they have left it. */
  function CycleRead(c: Client, incoming: Incoming): (r: (Client, Rc))
    ensures After(c, r.0)
    decreases incoming
  {
    match incoming
    case Nothing => (c, Success)
    case Ack(_) => (c, Success)
    case PingResponse => (c.(pingOutstanding := false, log := c.log.(unanswered := false)), Success)
    case Unusable(rc) => (c, rc)
    case Message(callbacks, ack) =>
      var after := Run(c.(state := WaitForCbReturn), callbacks);
      var (restored, rc) := SetState(after, WaitForCbReturn, c.state);
      (restored, if rc == Success then ack else rc)
  }

  /** `wait_for_read`. */
  function WaitForRead(c: Client, kind: AckKind, arrivals: Reads): (r: (Client, Rc))
    ensures After(c, r.0)
    decreases arrivals, 0
  {
    match arrivals
    case Expired => (c, RequestTimeout)
    case Read(incoming, more) =>
      var (next, rc) := CycleRead(c, incoming);
      if rc == Success && incoming != Ack(kind) then WaitForRead(next, kind, more) else (next, rc)
  }

  function InProgress(op: Operation): ClientState {
    match op
    case Publish => PublishInProgress
    case Subscribe => SubscribeInProgress
    case Unsubscribe => UnsubscribeInProgress
  }

  function AwaitedAck(op: Operation): AckKind {
    match op
    case Publish => Puback
    case Subscribe => Suback
    case Unsubscribe => Unsuback
  }

  /** Send, and for all but a QoS 0 publish wait for the answer and check it. */
  function Exchange(c: Client, kind: AckKind, send: Rc, waits: bool, arrivals: Reads, answer: Rc): (r: (Client, Rc))
    ensures After(c, r.0)
    decreases arrivals, 1
  {
    if send != Success then (c, send)
    else if !waits then (c, Success)
    else
      var (next, rc) := WaitForRead(c, kind, arrivals);
      (next, if rc == Success then answer else rc)
  }

  /** `publish`, `subscribe` and `unsubscribe`. */
  function DoRequest(c: Client, op: Operation, send: Rc, waits: bool, arrivals: Reads, answer: Rc): (r: (Client, Rc))
    ensures After(c, r.0)
    decreases arrivals, 2
  {
    if !IsConnected(c.state) then (c, NetworkDisconnected)
    else if c.state != Idle && c.state != WaitForCbReturn then (c, NotIdle)
    else
      var (done, opRc) := Exchange(c.(state := InProgress(op)), AwaitedAck(op), send, waits, arrivals, answer);
      var (back, rc) := SetState(done, InProgress(op), c.state);
      (back, if opRc == Success then rc else opRc)
  }

  lemma RequestSteps(c: Client, op: Operation, send: Rc, waits: bool, arrivals: Reads, answer: Rc)
    ensures DoRequest(c, op, send, waits, arrivals, answer) ==
      if !IsConnected(c.state) then (c, NetworkDisconnected)
      else if c.state != Idle && c.state != WaitForCbReturn then (c, NotIdle)
      else
        var done := Exchange(c.(state := InProgress(op)), AwaitedAck(op), send, waits, arrivals, answer);
        var back := SetState(done.0, InProgress(op), c.state);
        (back.0, if done.1 == Success then back.1 else done.1)
  {
    hide Exchange, InProgress, AwaitedAck, IsConnected;
  }

  function ConnectExchange(c: Client, a: Attempt): (r: (Client, Rc))
    ensures After(c, r.0)
    decreases a, 0
  {
    if a.transport != Success then (c, a.transport)
    else
      var linked := c.(log := c.log.(unanswered := false));
      var (next, rc) := Exchange(linked, Connack, a.send, true, a.arrivals, a.connack);
      (if rc == Success then next.(pingOutstanding := false) else next, rc)
  }

  /** `connect`. */
  function DoConnect(c: Client, a: Attempt): (r: (Client, Rc))
    ensures After(c, r.0)
    decreases a, 1
  {
    if !CanConnect(c.state) then (c, AlreadyConnected)
    else
      var (tried, rc) := ConnectExchange(c.(state := Connecting), a);
      if rc == Success then (SetState(tried, Connecting, Idle).0, Success)
      else if !a.destroyed then (Faulted(tried, true), NetworkDisconnected)
      else (SetState(tried, Connecting, DisconnectedError).0, rc)
  }

  /** `disconnect`. */
  function DoDisconnect(c: Client, closed: bool): (r: (Client, Rc))
    ensures After(c, r.0)
  {
    if !IsConnected(c.state) then (c, NetworkDisconnected)
    else if closed then (Disconnected(c, DisconnectedManually), Success)
    else (c, Failure)
  }

  /** `_handle_disconnect`. */
  function HandleDisconnect(c: Client, drop: Drop): (r: (Client, Rc))
    ensures After(c, r.0)
    decreases drop, 0
  {
    var (gone, rc) := DoDisconnect(c, drop.closed);
    var forced := if rc == Success then gone else gone.(state := DisconnectedError);
    (Disconnected(Run(forced, drop.handler), DisconnectedError), NetworkDisconnected)
  }

  function ResubscribeAll(c: Client, topics: Topics): (r: (Client, Rc))
    ensures After(c, r.0)
    decreases topics, 0
  {
    match topics
    case NoTopics => (c, Success)
    case Topic(send, arrivals, suback, others) =>
      var (next, rc) := Exchange(c, Suback, send, true, arrivals, suback);
      if rc == Success then ResubscribeAll(next, others) else (next, rc)
  }

  /** `resubscribe`. */
  function DoResubscribe(c: Client, topics: Topics): (r: (Client, Rc))
    ensures After(c, r.0)
    decreases topics, 1
  {
    if !IsConnected(c.state) then (c, NetworkDisconnected)
    else if c.state != Idle then (c, NotIdle)
    else
      var (done, opRc) := ResubscribeAll(c.(state := ResubscribeInProgress), topics);
      var (back, rc) := SetState(done, ResubscribeInProgress, Idle);
      (back, if opRc == Success then rc else opRc)
  }

  /** `attempt_reconnect`. */
  function DoAttemptReconnect(c: Client, retry: Retry): (r: (Client, Rc))
    ensures After(c, r.0)
    decreases retry
  {
    if IsConnected(c.state) then (c, AlreadyConnected)
    else
      var tried := DoConnect(c, retry.attempt).0;
      if tried.state != Idle then (SetState(tried, DisconnectedError, PendingReconnect).0, AttemptingReconnect)
      else
        var (done, rc) := DoResubscribe(tried, retry.topics);
        (done, if rc == Success then Reconnected else rc)
  }

  /** `_keep_alive`. */
  function KeepAlive(c: Client, ping: Ping, room: bool, drop: Drop): (r: (Client, Rc))
    ensures After(c, r.0)
    decreases drop, 1
  {
    if ping == NotDue then (c, Success)
    else if c.pingOutstanding then HandleDisconnect(c, drop)
    else if !room then (c, Failure)
    else if ping.send != Success then HandleDisconnect(c, drop)
    else
      var log := c.log.(unanswered := true, doublePing := c.log.doublePing || c.log.unanswered);
      (c.(pingOutstanding := true, log := log), Success)
  }

  function BackedOff(c: Client): Client {
    var failures := if c.log.armed then c.log.failures + 1 else c.log.failures;
    c.(interval := U32(c.interval * 2), log := c.log.(failures := failures))
  }

  /** `_handle_reconnect`. */
  function HandleReconnect(c: Client, beat: Beat): (r: (Client, Rc))
    ensures After(c, r.0)
    decreases beat, 0
  {
    if !beat.delayOver then (c, AttemptingReconnect)
    else
      var (tried, rc) := if beat.physical then DoAttemptReconnect(c, beat.retry) else (c, PhysicalLayerDown);
      if rc == Reconnected then
        var (yielding, setRc) := SetState(tried, Idle, YieldInProgress);
        (yielding, if setRc == Success then Reconnected else setRc)
      else
        var waiting := BackedOff(tried);
        (waiting, if MAX_RECONNECT_WAIT < waiting.interval then ReconnectTimedOut else rc)
  }

  datatype Turn = Turn(client: Client, rc: Rc, over: bool)

  /** One turn of `_internal_yield`'s loop: the client after it, the result so far, whether the loop is left. */
  function YieldTurn(c: Client, beat: Beat): (t: Turn)
    ensures After(c, t.client)
    decreases beat, 1
  {
    if c.state == PendingReconnect then
      if MAX_RECONNECT_WAIT < c.interval then Turn(c, ReconnectTimedOut, true)
      else
        var (next, rc) := HandleReconnect(c, beat);
        Turn(next, rc, false)
    else ReadTurn(c, beat)
  }

  function ReadTurn(c: Client, beat: Beat): (t: Turn)
    ensures After(c, t.client)
    decreases beat, 0
  {
    var (read, readRc) := CycleRead(c, beat.incoming);
    var (kept, rc) :=
      if readRc == Success then KeepAlive(read, beat.ping, beat.room, beat.drop)
      else if readRc == SslError then HandleDisconnect(read, beat.drop)
      else (Faulted(read, readRc in {NetworkDisconnected, AttemptingReconnect}), readRc);
    if rc == NetworkDisconnected then Dropped(kept.(drops := kept.drops + 1))
    else Turn(kept, rc, rc != Success)
  }

  function Dropped(c: Client): (t: Turn)
    ensures After(c, t.client)
  {
    if !c.autoReconnect then Turn(c, NetworkDisconnected, true)
    else
      var (pending, rc) := SetState(c, DisconnectedError, PendingReconnect);
      if rc != Success then Turn(pending, rc, true)
      else
        var log := pending.log.(armed := true, failures := 0);
        Turn(pending.(interval := MIN_RECONNECT_WAIT, log := log), AttemptingReconnect, false)
  }

  /** `_internal_yield`. */
  function InternalYield(c: Client, beats: Beats): (r: (Client, Rc))
    ensures After(c, r.0)
    decreases beats, 0
  {
    var turn := YieldTurn(c, beats.beat);
    if turn.over || beats.Last? then (turn.client, turn.rc) else InternalYield(turn.client, beats.more)
  }

  /** `yield`. */
  function DoYield(c: Client, beats: Beats): (r: (Client, Rc))
    ensures After(c, r.0)
    decreases beats, 1
  {
    if c.state == DisconnectedManually then (c, ManuallyDisconnected)
    else if c.state != PendingReconnect && !IsConnected(c.state) then (c, NetworkDisconnected)
    else if c.state != PendingReconnect && c.state != Idle then (c, NotIdle)
    else
      var entered := if c.state == Idle then c.(state := YieldInProgress) else c;
      var (done, yieldRc) := InternalYield(entered, beats);
      if yieldRc in {NetworkDisconnected, AttemptingReconnect} then (done, yieldRc)
      else
        var (back, rc) := SetState(done, YieldInProgress, Idle);
        (back, if yieldRc == Success then rc else yieldRc)
  }

  // ---- How deep yields nest in the callbacks of a script

  function CallsHeight(calls: Calls): nat {
    match calls
    case NoCalls => 0
    case Next(call, rest) => Max(CallHeight(call), CallsHeight(rest))
  }

  function CallHeight(call: Call): nat {
    match call
    case Request(_, _, _, arrivals, _) => ReadsHeight(arrivals)
    case Connect(attempt) => ReadsHeight(attempt.arrivals)
    case Disconnect(_) => 0
    case Yield(beats) => 1 + BeatsHeight(beats)
    case AttemptReconnect(retry) => RetryHeight(retry)
    case Resubscribe(topics) => TopicsHeight(topics)
    case SetAutoReconnect(_) => 0
  }

  function IncomingHeight(incoming: Incoming): nat {
    if incoming.Message? then CallsHeight(incoming.callbacks) else 0
  }

  function ReadsHeight(arrivals: Reads): nat {
    match arrivals
    case Expired => 0
    case Read(incoming, more) => Max(IncomingHeight(incoming), ReadsHeight(more))
  }

  function TopicsHeight(topics: Topics): nat {
    match topics
    case NoTopics => 0
    case Topic(_, arrivals, _, others) => Max(ReadsHeight(arrivals), TopicsHeight(others))
  }

  function RetryHeight(retry: Retry): nat {
    Max(ReadsHeight(retry.attempt.arrivals), TopicsHeight(retry.topics))
  }

  function BeatHeight(beat: Beat): nat {
    Max(RetryHeight(beat.retry), Max(IncomingHeight(beat.incoming), CallsHeight(beat.drop.handler)))
  }

  function BeatsHeight(beats: Beats): nat {
    match beats
    case Last(beat) => BeatHeight(beat)
    case Then(beat, more) => Max(BeatHeight(beat), BeatsHeight(more))
  }

  // ---- What every call keeps

  /** States in which no call is under way. */
  predicate Resting(s: ClientState) {
    s in {Invalid, Initialized, Idle, DisconnectedError, DisconnectedManually, PendingReconnect}
  }

  function Pow2(k: nat): nat {
    if k == 0 then 1 else 2 * Pow2(k - 1)
  }

  /** No second PINGREQ on a connection, and the back-off interval is the least one doubled once per failure. */
  predicate Sound(c: Client) {
    && !c.log.doublePing
    && (c.log.unanswered ==> c.pingOutstanding)
    && (if c.log.armed then c.interval == U32(1000 * Pow2(c.log.failures)) else c.log.failures == 0)
  }

  /** From `c` to `d` without faults and with yields nesting at most `h` deep: nothing unsound, and the
      failures stay within what that nesting allows as long as the interval fits its 32 bits. */
  predicate Steady(c: Client, d: Client, h: nat) {
    && Sound(d)
    && (h <= 15 && c.log.failures <= 22 ==> d.log.failures <= Max(c.log.failures, 7 + h))
  }

  /** Nothing has disconnected and no new PINGREQ is unanswered. */
  predicate SameLink(c: Client, d: Client) {
    d.log.disconnects == c.log.disconnects && (d.log.unanswered ==> c.log.unanswered)
  }

  /** What a call entered at rest or from a callback leaves behind. */
  predicate CallKeeps(c: Client, d: Client, h: nat) {
    d.log.faults == c.log.faults ==>
      && Steady(c, d, h)
      && (Resting(c.state) ==> Resting(d.state))
      && (c.state == WaitForCbReturn ==>
          if d.log.disconnects == c.log.disconnects then d.state == WaitForCbReturn && SameLink(c, d)
          else Resting(d.state))
  }

  /** What work inside a call leaves behind: the state it found, or after a disconnect a resting one and an
      error. */
  predicate WorkKeeps(c: Client, d: Client, rc: Rc, h: nat) {
    d.log.faults == c.log.faults ==>
      && Steady(c, d, h)
      && if d.log.disconnects == c.log.disconnects then d.state == c.state && SameLink(c, d)
         else Resting(d.state) && rc == UnexpectedState
  }

  predicate Callable(c: Client) {
    Sound(c) && (Resting(c.state) || c.state == WaitForCbReturn)
  }

  lemma {:induction false} RunKeeps(c: Client, calls: Calls)
    requires Callable(c)
    ensures CallKeeps(c, Run(c, calls), CallsHeight(calls))
    decreases calls
  {
    hide Sound, Exec;
    match calls
    case NoCalls =>
    case Next(call, rest) =>
      ExecKeeps(c, call);
      var next := Exec(c, call).0;
      if next.log.faults == c.log.faults { RunKeeps(next, rest); }
  }

  lemma {:induction false} ExecKeeps(c: Client, call: Call)
    requires Callable(c)
    ensures CallKeeps(c, Exec(c, call).0, CallHeight(call))
    decreases call
  {
    hide DoRequest, DoConnect, DoDisconnect, DoYield, DoAttemptReconnect, DoResubscribe;
    match call
    case Request(op, send, waits, arrivals, answer) => RequestKeeps(c, op, send, waits, arrivals, answer);
    case Connect(attempt) => ConnectKeeps(c, attempt);
    case Disconnect(closed) => DisconnectKeeps(c, closed);
    case Yield(beats) => YieldKeeps(c, beats);
    case AttemptReconnect(retry) => AttemptReconnectKeeps(c, retry);
    case Resubscribe(topics) => ResubscribeKeeps(c, topics);
    case SetAutoReconnect(enabled) =>
  }

  lemma {:induction false} CycleReadKeeps(c: Client, incoming: Incoming)
    requires Sound(c) && c.state != WaitForCbReturn
    ensures var (d, rc) := CycleRead(c, incoming); WorkKeeps(c, d, rc, IncomingHeight(incoming))
    decreases incoming
  {
    hide Run;
    if incoming.Message? {
      RunKeeps(c.(state := WaitForCbReturn), incoming.callbacks);
    }
  }

  lemma {:induction false} WaitKeeps(c: Client, kind: AckKind, arrivals: Reads)
    requires Sound(c) && c.state != WaitForCbReturn
    ensures var (d, rc) := WaitForRead(c, kind, arrivals); WorkKeeps(c, d, rc, ReadsHeight(arrivals))
    decreases arrivals, 0
  {
    hide Sound, CycleRead;
    match arrivals
    case Expired =>
    case Read(incoming, more) =>
      CycleReadKeeps(c, incoming);
      var (next, rc) := CycleRead(c, incoming);
      if rc == Success && next.log.faults == c.log.faults { WaitKeeps(next, kind, more); }
  }

  lemma {:induction false} ExchangeKeeps(
      c: Client, kind: AckKind, send: Rc, waits: bool, arrivals: Reads, answer: Rc)
    requires Sound(c) && c.state != WaitForCbReturn
    ensures var (d, rc) := Exchange(c, kind, send, waits, arrivals, answer);
      WorkKeeps(c, d, rc, ReadsHeight(arrivals))
    decreases arrivals, 1
  {
    hide Sound, WaitForRead, ReadsHeight;
    if send == Success && waits { WaitKeeps(c, kind, arrivals); }
  }

  /** Work done in a state of its own, from which the state before is restored. */
  lemma BackKeeps(c: Client, during: ClientState, done: Client, rc: Rc, h: nat)
    requires Callable(c) && c.state in {Idle, WaitForCbReturn} && !Resting(during) && during != WaitForCbReturn
    requires WorkKeeps(c.(state := during), done, rc, h)
    ensures var back := SetState(done, during, c.state).0;
      CallKeeps(c, back, h) && RequestReturns(c, back)
  {
    hide Sound;
    SoundState(done, c.state);
  }

  lemma {:induction false} RequestKeeps(
      c: Client, op: Operation, send: Rc, waits: bool, arrivals: Reads, answer: Rc)
    requires Callable(c)
    ensures CallKeeps(c, DoRequest(c, op, send, waits, arrivals, answer).0, ReadsHeight(arrivals))
    ensures RequestReturns(c, DoRequest(c, op, send, waits, arrivals, answer).0)
    decreases arrivals, 2
  {
    hide Exchange, ReadsHeight, Sound, WorkKeeps, Steady;
    if c.state == Idle || c.state == WaitForCbReturn {
      var during := InProgress(op);
      SoundState(c, during);
      ExchangeKeeps(c.(state := during), AwaitedAck(op), send, waits, arrivals, answer);
      var (done, rc) := Exchange(c.(state := during), AwaitedAck(op), send, waits, arrivals, answer);
      BackKeeps(c, during, done, rc, ReadsHeight(arrivals));
    } else {
      SteadyStill(c, ReadsHeight(arrivals));
    }
  }

  lemma SteadyStill(c: Client, h: nat)
    requires Sound(c)
    ensures Steady(c, c, h)
  {
  }

  /** The call comes back in the state it was entered in, unless a call nested in it disconnected. */
  predicate RequestReturns(c: Client, d: Client) {
    d.log.faults == c.log.faults && d.log.disconnects == c.log.disconnects ==> d.state == c.state
  }

  lemma {:induction false} ConnectKeeps(c: Client, a: Attempt)
    requires Callable(c)
    ensures CallKeeps(c, DoConnect(c, a).0, ReadsHeight(a.arrivals))
    decreases a, 1
  {
    hide Exchange, ReadsHeight;
    if CanConnect(c.state) && a.transport == Success {
      var linked := c.(state := Connecting, log := c.log.(unanswered := false));
      ExchangeKeeps(linked, Connack, a.send, true, a.arrivals, a.connack);
    }
  }

  lemma DisconnectKeeps(c: Client, closed: bool)
    requires Callable(c)
    ensures CallKeeps(c, DoDisconnect(c, closed).0, 0)
  {
  }

  lemma {:induction false} HandleDisconnectKeeps(c: Client, drop: Drop)
    requires Sound(c)
    ensures var (d, rc) := HandleDisconnect(c, drop);
      && rc == NetworkDisconnected && d.state == DisconnectedError
      && (d.log.faults == c.log.faults ==> Steady(c, d, CallsHeight(drop.handler)))
    decreases drop, 0
  {
    hide Run;
    var (gone, rc) := DoDisconnect(c, drop.closed);
    RunKeeps(if rc == Success then gone else gone.(state := DisconnectedError), drop.handler);
  }

  lemma {:induction false} ResubscribeAllKeeps(c: Client, topics: Topics)
    requires Sound(c) && c.state != WaitForCbReturn
    ensures var (d, rc) := ResubscribeAll(c, topics); WorkKeeps(c, d, rc, TopicsHeight(topics))
    decreases topics, 0
  {
    hide Sound, Exchange;
    match topics
    case NoTopics =>
    case Topic(send, arrivals, suback, others) =>
      ExchangeKeeps(c, Suback, send, true, arrivals, suback);
      var (next, rc) := Exchange(c, Suback, send, true, arrivals, suback);
      if rc == Success && next.log.faults == c.log.faults { ResubscribeAllKeeps(next, others); }
  }

  lemma {:induction false} ResubscribeKeeps(c: Client, topics: Topics)
    requires Callable(c)
    ensures CallKeeps(c, DoResubscribe(c, topics).0, TopicsHeight(topics))
    decreases topics, 1
  {
    hide ResubscribeAll, TopicsHeight;
    if c.state == Idle {
      var (done, rc) := ResubscribeAll(c.(state := ResubscribeInProgress), topics);
      ResubscribeAllKeeps(c.(state := ResubscribeInProgress), topics);
      BackKeeps(c, ResubscribeInProgress, done, rc, TopicsHeight(topics));
    }
  }

  lemma {:induction false} AttemptReconnectKeeps(c: Client, retry: Retry)
    requires Callable(c)
    ensures CallKeeps(c, DoAttemptReconnect(c, retry).0, RetryHeight(retry))
    decreases retry
  {
    hide DoConnect, DoResubscribe, ReadsHeight, TopicsHeight;
    if !IsConnected(c.state) {
      ConnectKeeps(c, retry.attempt);
      var tried := DoConnect(c, retry.attempt).0;
      if tried.state == Idle && tried.log.faults == c.log.faults { ResubscribeKeeps(tried, retry.topics); }
    }
  }

  lemma {:induction false} KeepAliveKeeps(c: Client, ping: Ping, room: bool, drop: Drop)
    requires Sound(c)
    ensures var (d, rc) := KeepAlive(c, ping, room, drop);
      d.log.faults == c.log.faults ==>
        && Steady(c, d, CallsHeight(drop.handler))
        && d.state == (if rc == NetworkDisconnected then DisconnectedError else c.state)
        && rc != AttemptingReconnect
    decreases drop, 1
  {
    hide HandleDisconnect;
    HandleDisconnectKeeps(c, drop);
  }

  lemma {:induction false} Pow2Grows(i: nat, j: nat)
    requires i <= j
    ensures Pow2(i) <= Pow2(j)
    decreases j
  {
    if i < j { Pow2Grows(i, j - 1); }
  }

  /** An interval within the maximum is the least one doubled at most seven times, as long as it fits its
      32 bits. */
  lemma SmallInterval(c: Client)
    requires Sound(c) && c.log.failures <= 22 && c.interval <= MAX_RECONNECT_WAIT
    ensures c.log.failures <= 7
  {
    Pow2Grows(c.log.failures, 22);
    assert Pow2(22) == 4194304 by { assert Pow2(11) == 2048; assert Pow2(22) == 2048 * Pow2(11); }
    assert Pow2(8) == 256;
    if c.log.failures >= 8 { Pow2Grows(8, c.log.failures); }
  }

  lemma DoublingKeeps(c: Client)
    requires Sound(c)
    ensures Sound(BackedOff(c))
  {
    DoubleModulo(1000 * Pow2(c.log.failures));
    assert Pow2(c.log.failures + 1) == 2 * Pow2(c.log.failures);
  }

  lemma DoubleModulo(n: nat)
    ensures U32(U32(n) * 2) == U32(2 * n)
  {
    var q, r := n / TWO_32, n % TWO_32;
    var carry := if 2 * r < TWO_32 then 0 else 1;
    RingIndex.DivModUnique(2 * r, TWO_32, carry, 2 * r - carry * TWO_32);
    RingIndex.DivModUnique(2 * n, TWO_32, 2 * q + carry, 2 * r - carry * TWO_32);
  }

  lemma {:induction false} HandleReconnectKeeps(c: Client, beat: Beat)
    requires Sound(c) && c.state == PendingReconnect && c.interval <= MAX_RECONNECT_WAIT
    ensures var (d, rc) := HandleReconnect(c, beat);
      d.log.faults == c.log.faults ==>
        && Sound(d)
        && (RetryHeight(beat.retry) <= 14 && c.log.failures <= 22 ==> d.log.failures <= 8 + RetryHeight(beat.retry))
        && (d.state == YieldInProgress || Resting(d.state))
        && (rc in {NetworkDisconnected, AttemptingReconnect} ==> Resting(d.state))
    decreases beat, 0
  {
    hide DoAttemptReconnect, RetryHeight, BackedOff, Sound;
    AttemptReconnectKeeps(c, beat.retry);
    var tried := if beat.physical then DoAttemptReconnect(c, beat.retry).0 else c;
    BackedOffIs(tried);
    if c.log.failures <= 22 { SmallInterval(c); }
    if tried.log.faults == c.log.faults { DoublingKeeps(tried); }
    SoundState(tried, YieldInProgress);
  }

  lemma BackedOffIs(c: Client)
    ensures BackedOff(c).state == c.state && BackedOff(c).log.faults == c.log.faults
    ensures BackedOff(c).log.failures <= c.log.failures + 1
  {
  }

  lemma SoundState(c: Client, state: ClientState)
    ensures Sound(c.(state := state)) == Sound(c)
  {
  }

  /** What a turn of the yield loop leaves behind. */
  predicate TurnKeeps(c: Client, d: Client, rc: Rc, h: nat) {
    d.log.faults == c.log.faults ==>
      && Steady(c, d, h)
      && (d.state == YieldInProgress || Resting(d.state))
      && (rc in {NetworkDisconnected, AttemptingReconnect} ==> Resting(d.state))
  }

  lemma {:induction false} YieldTurnKeeps(c: Client, beat: Beat)
    requires Sound(c) && (c.state == YieldInProgress || Resting(c.state))
    ensures var t := YieldTurn(c, beat); TurnKeeps(c, t.client, t.rc, 1 + BeatHeight(beat))
    decreases beat, 1
  {
    hide HandleReconnect, ReadTurn, RetryHeight, IncomingHeight, Sound;
    if c.state == PendingReconnect {
      if c.interval <= MAX_RECONNECT_WAIT { HandleReconnectKeeps(c, beat); }
    } else {
      ReadTurnKeeps(c, beat);
    }
  }

  lemma {:induction false} ReadTurnKeeps(c: Client, beat: Beat)
    requires Sound(c) && (c.state == YieldInProgress || Resting(c.state))
    ensures var t := ReadTurn(c, beat); TurnKeeps(c, t.client, t.rc, 1 + BeatHeight(beat))
    decreases beat, 0
  {
    hide CycleRead, KeepAlive, HandleDisconnect, RetryHeight, IncomingHeight, Sound, Dropped, Steady, TurnKeeps;
    var h := 1 + BeatHeight(beat);
    CycleReadKeeps(c, beat.incoming);
    var (read, readRc) := CycleRead(c, beat.incoming);
    if read.log.faults == c.log.faults {
      SteadyMore(c, read, IncomingHeight(beat.incoming), h);
      KeepAliveKeeps(read, beat.ping, beat.room, beat.drop);
      HandleDisconnectKeeps(read, beat.drop);
      if readRc == Success {
        var (kept, rc) := KeepAlive(read, beat.ping, beat.room, beat.drop);
        if kept.log.faults == read.log.faults { SteadyThen(c, read, kept, CallsHeight(beat.drop.handler), h); }
        TurnDone(c, kept, rc, h);
      } else if readRc == SslError {
        var (kept, rc) := HandleDisconnect(read, beat.drop);
        if kept.log.faults == read.log.faults { SteadyThen(c, read, kept, CallsHeight(beat.drop.handler), h); }
        TurnDone(c, kept, rc, h);
      } else {
        TurnDone(c, Faulted(read, readRc in {NetworkDisconnected, AttemptingReconnect}), readRc, h);
      }
    }
    if read.log.faults > c.log.faults { LaterFaults(c, ReadTurn(c, beat).client); }
  }

  lemma LaterFaults(c: Client, d: Client)
    requires d.log.faults > c.log.faults
    ensures forall rc, h :: TurnKeeps(c, d, rc, h)
  {
  }

  lemma SteadyMore(c: Client, d: Client, h: nat, k: nat)
    requires Steady(c, d, h) && h <= k
    ensures Steady(c, d, k) && Sound(d)
  {
    hide Sound;
  }

  lemma SteadyThen(c: Client, d: Client, e: Client, h: nat, k: nat)
    requires Steady(c, d, k) && Steady(d, e, h) && h <= k
    ensures Steady(c, e, k)
  {
    hide Sound;
  }

  /** The end of a turn that has read: a disconnect may begin a reconnect. */
  lemma TurnDone(c: Client, kept: Client, rc: Rc, h: nat)
    requires c.log.faults <= kept.log.faults
    requires kept.log.faults == c.log.faults ==>
      && Steady(c, kept, h) && rc != AttemptingReconnect
      && if rc == NetworkDisconnected then kept.state == DisconnectedError
         else kept.state == YieldInProgress || Resting(kept.state)
    ensures var t := if rc == NetworkDisconnected then Dropped(kept.(drops := kept.drops + 1)) else Turn(kept, rc, rc != Success);
      TurnKeeps(c, t.client, t.rc, h)
  {
    hide Sound, Dropped;
    if kept.log.faults == c.log.faults && rc == NetworkDisconnected {
      SoundDrops(kept);
      DroppedSound(kept.(drops := kept.drops + 1));
    }
  }

  lemma SoundDrops(c: Client)
    ensures Sound(c.(drops := c.drops + 1)) == Sound(c)
  {
  }

  lemma DroppedSound(c: Client)
    requires Sound(c) && c.state == DisconnectedError
    ensures var t := Dropped(c);
      Sound(t.client) && t.client.log.failures <= c.log.failures && t.client.log.faults == c.log.faults
      && t.client.state in {DisconnectedError, PendingReconnect}
  {
  }

  lemma {:induction false} InternalYieldKeeps(c: Client, beats: Beats)
    requires Sound(c) && (c.state == YieldInProgress || Resting(c.state))
    ensures var (d, rc) := InternalYield(c, beats); TurnKeeps(c, d, rc, 1 + BeatsHeight(beats))
    decreases beats, 0
  {
    hide YieldTurn, BeatHeight, Sound;
    YieldTurnKeeps(c, beats.beat);
    var t := YieldTurn(c, beats.beat);
    if beats.Then? && !t.over && t.client.log.faults == c.log.faults { InternalYieldKeeps(t.client, beats.more); }
  }

  lemma {:induction false} YieldKeeps(c: Client, beats: Beats)
    requires Callable(c)
    ensures CallKeeps(c, DoYield(c, beats).0, 1 + BeatsHeight(beats))
    decreases beats, 1
  {
    hide InternalYield, BeatsHeight;
    if c.state == Idle || c.state == PendingReconnect {
      InternalYieldKeeps(if c.state == Idle then c.(state := YieldInProgress) else c, beats);
    }
  }

  // ---- Scripts without faults

  /** A read of the network's own that a yield takes for a disconnect, or for a reconnect under way. */
  predicate Reports(incoming: Incoming) {
    match incoming
    case Unusable(rc) => rc in {NetworkDisconnected, AttemptingReconnect}
    case Message(_, ack) => ack in {NetworkDisconnected, AttemptingReconnect}
    case _ => false
  }

  /** Every transport can be destroyed, and no read of a yield reports a disconnect or a reconnect under way;
      so too in all calls that callbacks make. */
  predicate Blameless(calls: Calls) {
    calls.Next? ==> BlamelessCall(calls.call) && Blameless(calls.rest)
  }

  predicate BlamelessCall(call: Call) {
    match call
    case Request(_, _, _, arrivals, _) => BlamelessReads(arrivals)
    case Connect(attempt) => BlamelessAttempt(attempt)
    case Disconnect(_) => true
    case Yield(beats) => BlamelessBeats(beats)
    case AttemptReconnect(retry) => BlamelessRetry(retry)
    case Resubscribe(topics) => BlamelessTopics(topics)
    case SetAutoReconnect(_) => true
  }

  predicate BlamelessIncoming(incoming: Incoming) {
    incoming.Message? ==> Blameless(incoming.callbacks)
  }

  predicate BlamelessReads(arrivals: Reads) {
    arrivals.Read? ==> BlamelessIncoming(arrivals.incoming) && BlamelessReads(arrivals.more)
  }

  predicate BlamelessTopics(topics: Topics) {
    topics.Topic? ==> BlamelessReads(topics.arrivals) && BlamelessTopics(topics.others)
  }

  predicate BlamelessAttempt(a: Attempt) {
    a.destroyed && BlamelessReads(a.arrivals)
  }

  predicate BlamelessRetry(retry: Retry) {
    BlamelessAttempt(retry.attempt) && BlamelessTopics(retry.topics)
  }

  /** Nothing is at fault inside a turn's callbacks and attempts; its own read may be. */
  predicate BlamelessInside(beat: Beat) {
    BlamelessRetry(beat.retry) && BlamelessIncoming(beat.incoming) && Blameless(beat.drop.handler)
  }

  predicate BlamelessBeats(beats: Beats) {
    && BlamelessInside(beats.beat)
    && !Reports(beats.beat.incoming)
    && (beats.Then? ==> BlamelessBeats(beats.more))
  }

  predicate SameFaults(c: Client, d: Client) {
    d.log.faults == c.log.faults
  }

  lemma {:induction false} BlamelessRun(c: Client, calls: Calls)
    requires Blameless(calls)
    ensures SameFaults(c, Run(c, calls))
    decreases calls
  {
    hide Exec, BlamelessCall;
    if calls.Next? {
      BlamelessExec(c, calls.call);
      BlamelessRun(Exec(c, calls.call).0, calls.rest);
    }
  }

  lemma {:induction false} BlamelessExec(c: Client, call: Call)
    requires BlamelessCall(call)
    ensures SameFaults(c, Exec(c, call).0)
    decreases call
  {
    hide Exchange, ConnectExchange, InternalYield, ResubscribeAll, DoConnect, DoAttemptReconnect, DoResubscribe,
      BlamelessReads, BlamelessTopics, BlamelessBeats, BlamelessAttempt, BlamelessRetry;
    match call
    case Request(op, send, waits, arrivals, answer) =>
      BlamelessExchange(c.(state := InProgress(op)), AwaitedAck(op), send, waits, arrivals, answer);
    case Connect(attempt) => BlamelessConnect(c, attempt);
    case Disconnect(_) =>
    case Yield(beats) => BlamelessYield(if c.state == Idle then c.(state := YieldInProgress) else c, beats);
    case AttemptReconnect(retry) => BlamelessReconnect(c, retry);
    case Resubscribe(topics) => BlamelessResubscribe(c, topics);
    case SetAutoReconnect(_) =>
  }

  lemma {:induction false} BlamelessRead(c: Client, incoming: Incoming)
    requires BlamelessIncoming(incoming)
    ensures SameFaults(c, CycleRead(c, incoming).0)
    decreases incoming
  {
    hide Run, Blameless;
    if incoming.Message? { BlamelessRun(c.(state := WaitForCbReturn), incoming.callbacks); }
  }

  lemma {:induction false} BlamelessWait(c: Client, kind: AckKind, arrivals: Reads)
    requires BlamelessReads(arrivals)
    ensures SameFaults(c, WaitForRead(c, kind, arrivals).0)
    decreases arrivals, 0
  {
    hide CycleRead, BlamelessIncoming;
    if arrivals.Read? {
      BlamelessRead(c, arrivals.incoming);
      BlamelessWait(CycleRead(c, arrivals.incoming).0, kind, arrivals.more);
    }
  }

  lemma {:induction false} BlamelessExchange(
      c: Client, kind: AckKind, send: Rc, waits: bool, arrivals: Reads, answer: Rc)
    requires BlamelessReads(arrivals)
    ensures SameFaults(c, Exchange(c, kind, send, waits, arrivals, answer).0)
    decreases arrivals, 1
  {
    hide WaitForRead, BlamelessReads;
    BlamelessWait(c, kind, arrivals);
  }

  lemma {:induction false} BlamelessConnect(c: Client, a: Attempt)
    requires BlamelessAttempt(a)
    ensures SameFaults(c, DoConnect(c, a).0)
    decreases a
  {
    hide Exchange, BlamelessReads;
    BlamelessExchange(c.(state := Connecting, log := c.log.(unanswered := false)), Connack, a.send, true, a.arrivals, a.connack);
  }

  lemma {:induction false} BlamelessTopicsAll(c: Client, topics: Topics)
    requires BlamelessTopics(topics)
    ensures SameFaults(c, ResubscribeAll(c, topics).0)
    decreases topics, 0
  {
    hide Exchange, BlamelessReads;
    if topics.Topic? {
      BlamelessExchange(c, Suback, topics.send, true, topics.arrivals, topics.suback);
      BlamelessTopicsAll(Exchange(c, Suback, topics.send, true, topics.arrivals, topics.suback).0, topics.others);
    }
  }

  lemma {:induction false} BlamelessResubscribe(c: Client, topics: Topics)
    requires BlamelessTopics(topics)
    ensures SameFaults(c, DoResubscribe(c, topics).0)
    decreases topics, 1
  {
    hide ResubscribeAll, BlamelessTopics;
    BlamelessTopicsAll(c.(state := ResubscribeInProgress), topics);
  }

  lemma {:induction false} BlamelessReconnect(c: Client, retry: Retry)
    requires BlamelessRetry(retry)
    ensures SameFaults(c, DoAttemptReconnect(c, retry).0)
    decreases retry
  {
    hide DoConnect, DoResubscribe, BlamelessAttempt, BlamelessTopics;
    BlamelessConnect(c, retry.attempt);
    BlamelessResubscribe(DoConnect(c, retry.attempt).0, retry.topics);
  }

  /** A turn is at fault exactly when it reads and what it reads reports. */
  lemma {:induction false} BlamelessTurn(c: Client, beat: Beat)
    requires BlamelessInside(beat)
    ensures c.state == PendingReconnect ==> SameFaults(c, YieldTurn(c, beat).client)
    ensures c.state != PendingReconnect ==>
      (SameFaults(c, YieldTurn(c, beat).client) <==>
        CycleRead(c, beat.incoming).1 !in {NetworkDisconnected, AttemptingReconnect})
    decreases beat, 1
  {
    hide Run, CycleRead, DoAttemptReconnect, KeepAlive, HandleDisconnect, Blameless, BlamelessIncoming,
      BlamelessRetry, BackedOff;
    if c.state == PendingReconnect {
      BlamelessReconnect(c, beat.retry);
      BackedOffIs(c);
      BackedOffIs(DoAttemptReconnect(c, beat.retry).0);
    } else {
      BlamelessRead(c, beat.incoming);
      BlamelessKeepAlive(CycleRead(c, beat.incoming).0, beat);
    }
  }

  lemma {:induction false} BlamelessKeepAlive(c: Client, beat: Beat)
    requires Blameless(beat.drop.handler)
    ensures SameFaults(c, KeepAlive(c, beat.ping, beat.room, beat.drop).0)
    ensures SameFaults(c, HandleDisconnect(c, beat.drop).0)
    decreases beat, 0
  {
    hide HandleDisconnect, Blameless;
    BlamelessDisconnect(c, beat.drop);
  }

  lemma {:induction false} BlamelessDisconnect(c: Client, drop: Drop)
    requires Blameless(drop.handler)
    ensures SameFaults(c, HandleDisconnect(c, drop).0)
    decreases drop
  {
    hide Run, Blameless;
    var (gone, rc) := DoDisconnect(c, drop.closed);
    BlamelessRun(if rc == Success then gone else gone.(state := DisconnectedError), drop.handler);
  }

  lemma {:induction false} BlamelessYield(c: Client, beats: Beats)
    requires BlamelessBeats(beats)
    ensures SameFaults(c, InternalYield(c, beats).0)
    decreases beats
  {
    hide YieldTurn, BlamelessInside, Run;
    BlamelessTurn(c, beats.beat);
    if beats.Then? { BlamelessYield(YieldTurn(c, beats.beat).client, beats.more); }
  }

  // ---- What holds over every run

  /** A client as `init` leaves it; the back-off interval is not set there. */
  function Fresh(interval: nat, autoReconnect: bool): Client {
    Client(Initialized, false, autoReconnect, interval, 0, Log(0, 0, false, false, false, 0))
  }

  /** MAIN (state discipline): whatever calls are made on a fresh client, and whatever calls their callbacks
      make, to any depth, if no network answer can be at fault, or none was: the client is at rest after them; no
      PINGREQ has been sent while another was unanswered on the same connection; and once yield has entered
      pending-reconnect the interval is 1000 doubled once per failed attempt, at most eight of them if no
      callback yields, and at most one more per level of yields nested in callbacks. */
  lemma EveryRun(interval: nat, autoReconnect: bool, calls: Calls)
    ensures var d := Run(Fresh(interval, autoReconnect), calls);
      Blameless(calls) || d.log.faults == 0 ==>
        && Resting(d.state)
        && !d.log.doublePing
        && (d.log.armed && CallsHeight(calls) <= 15 ==>
            d.log.failures <= 7 + CallsHeight(calls) && d.interval == 1000 * Pow2(d.log.failures))
  {
    hide Run, Blameless;
    var c := Fresh(interval, autoReconnect);
    if Blameless(calls) { BlamelessRun(c, calls); }
    RunKeeps(c, calls);
    var d := Run(c, calls);
    if d.log.faults == 0 && CallsHeight(calls) <= 15 { FitsItsWidth(d.log.failures); }
  }

  lemma FitsItsWidth(k: nat)
    requires k <= 22
    ensures U32(1000 * Pow2(k)) == 1000 * Pow2(k)
  {
    Pow2Grows(k, 22);
    assert Pow2(11) == 2048;
    assert Pow2(22) == 2048 * Pow2(11);
  }

  /** MAIN (requests): entered at rest or from a callback, publish, subscribe and unsubscribe return in
      exactly the state they were entered in, unless a call nested in them disconnected; then they return
      at rest. */
  lemma RequestReturnsToEntry(c: Client, op: Operation, send: Rc, waits: bool, arrivals: Reads, answer: Rc)
    requires Callable(c)
    ensures var d := Exec(c, Request(op, send, waits, arrivals, answer)).0;
      BlamelessReads(arrivals) || d.log.faults == c.log.faults ==>
        if d.log.disconnects == c.log.disconnects then d.state == c.state else Resting(d.state)
  {
    hide DoRequest, ReadsHeight, BlamelessReads, Sound, Steady, Exec;
    ExecIsRequest(c, op, send, waits, arrivals, answer);
    RequestKeeps(c, op, send, waits, arrivals, answer);
    if BlamelessReads(arrivals) { BlamelessExec(c, Request(op, send, waits, arrivals, answer)); }
  }

  lemma ExecIsRequest(c: Client, op: Operation, send: Rc, waits: bool, arrivals: Reads, answer: Rc)
    ensures Exec(c, Request(op, send, waits, arrivals, answer)) == DoRequest(c, op, send, waits, arrivals, answer)
  {
    hide DoRequest;
  }

  /** MAIN (callbacks): calls made from a callback leave it waiting to return exactly when none of them
      disconnected. */
  lemma CallbackReturns(c: Client, calls: Calls)
    requires Sound(c) && c.state == WaitForCbReturn
    ensures var d := Run(c, calls); Blameless(calls) || d.log.faults == c.log.faults ==>
      (d.state == WaitForCbReturn <==> d.log.disconnects == c.log.disconnects)
  {
    hide Run, CallsHeight, Blameless;
    RunKeeps(c, calls);
    if Blameless(calls) { BlamelessRun(c, calls); }
  }

  // ---- When calls succeed, in terms of the script alone

  /** Made from a callback, the calls leave the client waiting for that callback to return. */
  predicate Stays(calls: Calls)
    decreases calls
  {
    calls.Next? ==> StaysCall(calls.call) && Stays(calls.rest)
  }

  /** Only a disconnect leaves: one that closes the transport, or one made by a callback of a message that
      comes while a request waits. */
  predicate StaysCall(call: Call)
    decreases call
  {
    match call
    case Request(Publish, send, waits, arrivals, _) => send == Success && waits ==> StaysWaiting(Puback, arrivals)
    case Request(Subscribe, send, waits, arrivals, _) => send == Success && waits ==> StaysWaiting(Suback, arrivals)
    case Request(Unsubscribe, send, waits, arrivals, _) =>
      send == Success && waits ==> StaysWaiting(Unsuback, arrivals)
    case Disconnect(closed) => !closed
    case _ => true
  }

  /** No callback of what is read before the wait ends disconnects. */
  predicate StaysWaiting(kind: AckKind, arrivals: Reads)
    decreases arrivals
  {
    match arrivals
    case Expired => true
    case Read(incoming, more) =>
      && (incoming.Message? ==> Stays(incoming.callbacks))
      && (incoming != Ack(kind) && ReadsOn(incoming) ==> StaysWaiting(kind, more))
  }

  /** The read is no failure: nothing came, or a packet that was dealt with, its callbacks not disconnecting. */
  predicate ReadsOn(incoming: Incoming)
    decreases incoming
  {
    match incoming
    case Message(callbacks, ack) => Stays(callbacks) && ack == Success
    case Unusable(rc) => rc == Success
    case _ => true
  }

  /** The packet waited for comes before the timer runs out, and no read before it fails. */
  predicate Arrives(kind: AckKind, arrivals: Reads)
    decreases arrivals
  {
    match arrivals
    case Expired => false
    case Read(incoming, more) => incoming == Ack(kind) || (ReadsOn(incoming) && Arrives(kind, more))
  }

  lemma {:induction false} RunStays(c: Client, calls: Calls)
    requires c.state == WaitForCbReturn
    ensures Run(c, calls).state == WaitForCbReturn <==> Stays(calls)
    decreases calls
  {
    hide Exec, StaysCall;
    if calls.Next? {
      ExecStays(c, calls.call);
      if StaysCall(calls.call) { RunStays(Exec(c, calls.call).0, calls.rest); }
    }
  }

  lemma {:induction false} ExecStays(c: Client, call: Call)
    requires c.state == WaitForCbReturn
    ensures Exec(c, call).0.state == WaitForCbReturn <==> StaysCall(call)
    decreases call
  {
    match call
    case Request(op, send, waits, arrivals, answer) =>
      hide Exchange, DoRequest, StaysWaiting, Arrives;
      var sent := c.(state := InProgress(op));
      RequestSteps(c, op, send, waits, arrivals, answer);
      ExchangeSucceeds(sent, AwaitedAck(op), send, waits, arrivals, answer);
    case _ =>
      hide InternalYield, ResubscribeAll, DoConnect;
  }

  lemma {:induction false} ReadSucceeds(c: Client, incoming: Incoming)
    requires c.state != WaitForCbReturn
    ensures var (d, rc) := CycleRead(c, incoming);
      && (rc == Success <==> ReadsOn(incoming))
      && (rc == Success ==> d.state == c.state)
      && (Underway(c.state) ==> (d.state == c.state <==> (incoming.Message? ==> Stays(incoming.callbacks))))
    decreases incoming
  {
    hide Run, Stays;
    if incoming.Message? { RunStays(c.(state := WaitForCbReturn), incoming.callbacks); }
  }

  lemma {:induction false} WaitSucceeds(c: Client, kind: AckKind, arrivals: Reads)
    requires c.state != WaitForCbReturn
    ensures var (d, rc) := WaitForRead(c, kind, arrivals);
      && (rc == Success <==> Arrives(kind, arrivals))
      && (rc == Success ==> d.state == c.state)
      && (Underway(c.state) ==> (d.state == c.state <==> StaysWaiting(kind, arrivals)))
    decreases arrivals, 0
  {
    hide CycleRead, Stays;
    if arrivals.Read? {
      ReadSucceeds(c, arrivals.incoming);
      var (next, rc) := CycleRead(c, arrivals.incoming);
      if rc == Success { WaitSucceeds(next, kind, arrivals.more); }
    }
  }

  lemma {:induction false} ExchangeSucceeds(
      c: Client, kind: AckKind, send: Rc, waits: bool, arrivals: Reads, answer: Rc)
    requires c.state != WaitForCbReturn
    ensures var (d, rc) := Exchange(c, kind, send, waits, arrivals, answer);
      && (rc == Success <==> send == Success && (waits ==> Arrives(kind, arrivals) && answer == Success))
      && (rc == Success ==> d.state == c.state)
      && (send != Success ==> rc == send)
      && (send == Success && waits && Arrives(kind, arrivals) ==> rc == answer)
      && (Underway(c.state) ==>
            (d.state == c.state <==> (send == Success && waits ==> StaysWaiting(kind, arrivals))))
    decreases arrivals, 1
  {
    hide WaitForRead, Arrives, StaysWaiting;
    WaitSucceeds(c, kind, arrivals);
  }

  /** What a connect needs of the script: the transport opens, CONNECT is sent, CONNACK comes and accepts. */
  predicate Connects(a: Attempt) {
    a.transport == Success && a.send == Success && Arrives(Connack, a.arrivals) && a.connack == Success
  }

  /** MAIN (connect): it succeeds exactly when it may be tried, the transport opens, CONNECT is sent and a CONNACK
      arrives that accepts; then the client is idle with no ping outstanding. A CONNACK that refuses is the
      result of the call, if the transport can be destroyed. */
  lemma ConnectSucceeds(c: Client, a: Attempt)
    ensures var (d, rc) := DoConnect(c, a);
      && (rc == Success <==> CanConnect(c.state) && Connects(a))
      && (rc == Success ==> d.state == Idle && !d.pingOutstanding)
      && (CanConnect(c.state) && a.destroyed && Connects(a.(connack := Success)) ==> rc == a.connack)
      && (CanConnect(c.state) && !Connects(a) && !a.destroyed ==> rc == NetworkDisconnected)
  {
    hide Exchange, Arrives;
    var linked := c.(state := Connecting, log := c.log.(unanswered := false));
    ExchangeSucceeds(linked, Connack, a.send, true, a.arrivals, a.connack);
  }

  /** What a request needs of the script: the packet is sent and, unless it is a publish of QoS 0, its own
      acknowledgement comes and accepts. */
  predicate Answered(op: Operation, send: Rc, waits: bool, arrivals: Reads, answer: Rc) {
    && send == Success
    && (waits ==>
          && answer == Success
          && match op
             case Publish => Arrives(Puback, arrivals)
             case Subscribe => Arrives(Suback, arrivals)
             case Unsubscribe => Arrives(Unsuback, arrivals))
  }

  /** MAIN (requests): publish, subscribe and unsubscribe succeed exactly when the client is idle or in a callback,
      the packet is sent and PUBACK, SUBACK or UNSUBACK arrives and accepts; the client is then where it was. */
  lemma RequestSucceeds(c: Client, op: Operation, send: Rc, waits: bool, arrivals: Reads, answer: Rc)
    ensures var (d, rc) := DoRequest(c, op, send, waits, arrivals, answer);
      && (rc == Success <==> c.state in {Idle, WaitForCbReturn} && Answered(op, send, waits, arrivals, answer))
      && (rc == Success ==> d.state == c.state)
  {
    hide Exchange, Arrives, DoRequest;
    RequestSteps(c, op, send, waits, arrivals, answer);
    ExchangeSucceeds(c.(state := InProgress(op)), AwaitedAck(op), send, waits, arrivals, answer);
  }

  /** Each topic is sent again and acknowledged. */
  predicate TopicsAnswered(topics: Topics) {
    topics.Topic? ==>
      && topics.send == Success && Arrives(Suback, topics.arrivals) && topics.suback == Success
      && TopicsAnswered(topics.others)
  }

  lemma {:induction false} ResubscribeAllSucceeds(c: Client, topics: Topics)
    requires c.state != WaitForCbReturn
    ensures var (d, rc) := ResubscribeAll(c, topics);
      && (rc == Success <==> TopicsAnswered(topics))
      && (rc == Success ==> d.state == c.state)
    decreases topics
  {
    hide Exchange, Arrives;
    if topics.Topic? {
      ExchangeSucceeds(c, Suback, topics.send, true, topics.arrivals, topics.suback);
      var (next, rc) := Exchange(c, Suback, topics.send, true, topics.arrivals, topics.suback);
      if rc == Success { ResubscribeAllSucceeds(next, topics.others); }
    }
  }

  lemma ResubscribeSucceeds(c: Client, topics: Topics)
    ensures var (d, rc) := DoResubscribe(c, topics);
      && (rc == Success <==> c.state == Idle && TopicsAnswered(topics))
      && (rc == Success ==> d.state == Idle)
  {
    hide ResubscribeAll, TopicsAnswered;
    ResubscribeAllSucceeds(c.(state := ResubscribeInProgress), topics);
  }

  /** MAIN (reconnect): an attempt whose connect succeeds reports the reconnect, and leaves the client idle, when every
      topic is acknowledged; else its result is the failure of the first topic that is not. */
  lemma ReconnectSucceeds(c: Client, retry: Retry)
    ensures var (d, rc) := DoAttemptReconnect(c, retry);
      CanConnect(c.state) && Connects(retry.attempt) ==>
        if TopicsAnswered(retry.topics) then rc == Reconnected && d.state == Idle
        else rc == DoResubscribe(DoConnect(c, retry.attempt).0, retry.topics).1 != Success
  {
    hide DoConnect, DoResubscribe, Connects, TopicsAnswered;
    ConnectSucceeds(c, retry.attempt);
    ResubscribeSucceeds(DoConnect(c, retry.attempt).0, retry.topics);
  }

  /** Each read of the yield is no failure. */
  predicate AllReadOn(beats: Beats) {
    ReadsOn(beats.beat.incoming) && (beats.Then? ==> AllReadOn(beats.more))
  }

  /** No ping falls due, and no read is taken for a disconnect. */
  predicate Calm(beats: Beats) {
    && beats.beat.ping == NotDue
    && !Reports(beats.beat.incoming)
    && (match beats.beat.incoming case Unusable(rc) => rc != SslError case Message(_, ack) => ack != SslError case _ => true)
    && (beats.Then? ==> Calm(beats.more))
  }

  lemma {:induction false} InternalYieldSucceeds(c: Client, beats: Beats)
    requires c.state == YieldInProgress && Calm(beats)
    ensures var (d, rc) := InternalYield(c, beats);
      (rc == Success <==> AllReadOn(beats)) && (rc == Success ==> d.state == YieldInProgress)
      && (rc != Success ==> rc !in {NetworkDisconnected, AttemptingReconnect})
    decreases beats
  {
    hide YieldTurn, ReadsOn, Reports;
    CalmTurn(c, beats.beat);
    var t := YieldTurn(c, beats.beat);
    if beats.Then? && !t.over { InternalYieldSucceeds(t.client, beats.more); }
  }

  lemma CalmTurn(c: Client, beat: Beat)
    requires c.state == YieldInProgress && Calm(Last(beat))
    ensures var t := YieldTurn(c, beat);
      && (t.rc == Success <==> ReadsOn(beat.incoming)) && t.over == (t.rc != Success)
      && (t.rc == Success ==> t.client.state == YieldInProgress)
      && (t.rc != Success ==> t.rc !in {NetworkDisconnected, AttemptingReconnect})
  {
    hide Run, Stays, HandleReconnect, HandleDisconnect, Dropped;
    ReadSucceeds(c, beat.incoming);
    var (read, rc) := CycleRead(c, beat.incoming);
    assert rc !in {NetworkDisconnected, AttemptingReconnect, SslError};
    assert KeepAlive(read, beat.ping, beat.room, beat.drop) == (read, Success);
    assert ReadTurn(c, beat) == Turn(read, rc, rc != Success);
  }

  /** MAIN (yield): while no ping falls due and nothing is taken for a disconnect, it succeeds exactly when every read
      does, and leaves the client idle. */
  lemma YieldSucceeds(c: Client, beats: Beats)
    requires c.state == Idle && Calm(beats)
    ensures var (d, rc) := DoYield(c, beats);
      (rc == Success <==> AllReadOn(beats)) && (rc == Success ==> d.state == Idle)
  {
    hide InternalYield, Calm, AllReadOn;
    InternalYieldSucceeds(c.(state := YieldInProgress), beats);
  }

  /** MAIN (yield): of a client waiting to reconnect, whose last wait was not too long. A turn before the delay is over
      leaves all as it is; one whose connect succeeds, and whose topics are all acknowledged, reports the reconnect and
      leaves the client idle; one whose transport does not open but can be destroyed leaves it waiting, twice as
      long, until that is too long. */
  lemma YieldReconnects(c: Client, beat: Beat)
    requires c.state == PendingReconnect && c.interval <= 128000
    ensures var (d, rc) := DoYield(c, Last(beat)); var Attempt(transport, _, _, _, destroyed) := beat.retry.attempt;
      && (!beat.delayOver ==> (d, rc) == (c, AttemptingReconnect))
      && (beat.delayOver && beat.physical && Connects(beat.retry.attempt) && TopicsAnswered(beat.retry.topics) ==>
            rc == Reconnected && d.state == Idle)
      && (beat.delayOver && beat.physical && transport != Success && destroyed ==>
            && d.state == PendingReconnect && d.interval == 2 * c.interval
            && (rc == if 2 * c.interval > 128000 then ReconnectTimedOut else AttemptingReconnect))
  {
    hide DoAttemptReconnect, ReadTurn, Connects, TopicsAnswered, BackedOff;
    ReconnectSucceeds(c, beat.retry);
    if beat.retry.attempt.transport != Success && beat.retry.attempt.destroyed {
      FailedAttempt(c, beat.retry);
      BackedOffDoubles(c);
    }
    assert InternalYield(c, Last(beat)) == HandleReconnect(c, beat);
  }

  lemma FailedAttempt(c: Client, retry: Retry)
    requires c.state == PendingReconnect && retry.attempt.transport != Success && retry.attempt.destroyed
    ensures DoAttemptReconnect(c, retry) == (c, AttemptingReconnect)
  {
    hide Exchange, DoResubscribe;
    assert ConnectExchange(c.(state := Connecting), retry.attempt) == (c.(state := Connecting), retry.attempt.transport);
    assert DoConnect(c, retry.attempt).0 == c.(state := DisconnectedError);
  }

  lemma BackedOffDoubles(c: Client)
    requires c.interval <= 128000
    ensures BackedOff(c).interval == 2 * c.interval && BackedOff(c).state == c.state
  {
  }

  /** MAIN (keep-alive): of two pings that fall due in a row while the client yields, the second disconnects exactly
      when no PINGRESP was read in between. */
  lemma UnansweredPingDisconnects(c: Client, first: Beat, second: Beat)
    requires c.state == YieldInProgress && !c.pingOutstanding
    requires first.incoming == Nothing && second.incoming in {Nothing, PingResponse}
    requires first.ping == Due(Success) && first.room && second.ping == Due(Success) && second.room
    ensures var (d, rc) := InternalYield(c, Then(first, Last(second)));
      && (d.log.disconnects == c.log.disconnects <==> second.incoming == PingResponse)
      && (second.incoming == PingResponse ==> rc == Success && d.state == YieldInProgress && d.pingOutstanding)
      && (second.incoming == Nothing ==>
            rc in {NetworkDisconnected, AttemptingReconnect} && d.state in {DisconnectedError, PendingReconnect})
      && (second.incoming == Nothing && second.drop.handler.NoCalls? ==>
            if c.autoReconnect then rc == AttemptingReconnect && d.state == PendingReconnect && d.interval == 1000
            else rc == NetworkDisconnected && d.state == DisconnectedError)
  {
    hide YieldTurn;
    PingTurn(c, first);
    var sent := YieldTurn(c, first).client;
    assert InternalYield(sent, Last(second)).0 == YieldTurn(sent, second).client;
    if second.incoming == PingResponse { PingTurn(sent, second); } else { LostTurn(sent, second); }
  }

  /** A ping falls due and none is outstanding once the turn has read. */
  lemma PingTurn(c: Client, beat: Beat)
    requires c.state == YieldInProgress && beat.ping == Due(Success) && beat.room
    requires beat.incoming == PingResponse || (beat.incoming == Nothing && !c.pingOutstanding)
    ensures var t := YieldTurn(c, beat);
      && t.client.state == YieldInProgress && t.client.pingOutstanding && !t.over && t.rc == Success
      && t.client.log.disconnects == c.log.disconnects && t.client.autoReconnect == c.autoReconnect
  {
    hide HandleDisconnect, HandleReconnect, Run;
    var read := if beat.incoming == PingResponse then c.(pingOutstanding := false, log := c.log.(unanswered := false)) else c;
    assert CycleRead(c, beat.incoming) == (read, Success);
    var sent := KeepAlive(read, beat.ping, beat.room, beat.drop);
    assert ReadTurn(c, beat) == Turn(sent.0, Success, false);
  }

  lemma LostTurn(c: Client, beat: Beat)
    requires c.state == YieldInProgress && beat.ping.Due? && beat.incoming == Nothing && c.pingOutstanding
    ensures var t := YieldTurn(c, beat);
      && t.client.state in {DisconnectedError, PendingReconnect} && t.client.log.disconnects > c.log.disconnects
      && t.rc in {NetworkDisconnected, AttemptingReconnect}
      && (beat.drop.handler.NoCalls? ==>
            if c.autoReconnect then
              t.rc == AttemptingReconnect && t.client.state == PendingReconnect && t.client.interval == 1000
            else t.rc == NetworkDisconnected && t.client.state == DisconnectedError)
  {
    hide HandleDisconnect, HandleReconnect, Run;
    LostPing(c, beat.drop);
    assert CycleRead(c, beat.incoming) == (c, Success);
    var gone := HandleDisconnect(c, beat.drop).0;
    assert KeepAlive(c, beat.ping, beat.room, beat.drop) == HandleDisconnect(c, beat.drop);
    assert ReadTurn(c, beat) == Dropped(gone.(drops := gone.drops + 1));
  }

  lemma LostPing(c: Client, drop: Drop)
    ensures var (d, rc) := HandleDisconnect(c, drop);
      && rc == NetworkDisconnected && d.state == DisconnectedError && d.log.disconnects > c.log.disconnects
      && (drop.handler.NoCalls? ==> d.autoReconnect == c.autoReconnect)
  {
    hide Exec;
    var (gone, rc) := DoDisconnect(c, drop.closed);
    var forced := if rc == Success then gone else gone.(state := DisconnectedError);
    assert drop.handler.NoCalls? ==> Run(forced, drop.handler) == forced;
  }

  // ---- Calls that are refused

  /** The result of a call that the client's state does not allow, if it is one. */
  function Refusal(s: ClientState, call: Call): Option<Rc> {
    var up := s in {Idle, YieldInProgress, PublishInProgress, SubscribeInProgress, UnsubscribeInProgress,
                    ResubscribeInProgress, WaitForCbReturn};
    match call
    case Request(_, _, _, _, _) =>
      if !up then Some(NetworkDisconnected) else if s != Idle && s != WaitForCbReturn then Some(NotIdle) else None
    case Connect(_) =>
      if s in {Initialized, DisconnectedError, DisconnectedManually, PendingReconnect} then None
      else Some(AlreadyConnected)
    case Disconnect(_) => if up then None else Some(NetworkDisconnected)
    case Yield(_) =>
      if s == DisconnectedManually then Some(ManuallyDisconnected)
      else if s == PendingReconnect || s == Idle then None
      else if up then Some(NotIdle) else Some(NetworkDisconnected)
    case AttemptReconnect(_) => if up then Some(AlreadyConnected) else None
    case Resubscribe(_) => if !up then Some(NetworkDisconnected) else if s != Idle then Some(NotIdle) else None
    case SetAutoReconnect(_) => None
  }

  /** MAIN (client): a call that the state does not allow says why and changes nothing. */
  lemma RefusedChangesNothing(c: Client, call: Call)
    ensures var r := Refusal(c.state, call); r.Some? ==> Exec(c, call) == (c, r.value)
  {
    hide Exchange, ConnectExchange, InternalYield, ResubscribeAll;
    match call
    case AttemptReconnect(retry) =>
      hide DoConnect, DoResubscribe;
      assert Exec(c, call) == DoAttemptReconnect(c, retry);
    case _ =>
  }

  /** A disconnect that is allowed succeeds exactly when the transport closes, and is then one more. */
  lemma DisconnectTells(c: Client, closed: bool)
    requires Refusal(c.state, Disconnect(closed)) == None
    ensures var (d, rc) := DoDisconnect(c, closed);
      if closed then
        rc == Success && d.state == DisconnectedManually && d.log.disconnects == c.log.disconnects + 1
      else (d, rc) == (c, Failure)
  {
  }

  /** A ping sent while another is unanswered is one too many, and seen as such. */
  lemma SecondPingIsSeen(c: Client, drop: Drop)
    requires !c.pingOutstanding
    ensures var d := KeepAlive(c, Due(Success), true, drop).0;
      d.log.unanswered && (d.log.doublePing <==> c.log.doublePing || c.log.unanswered)
    ensures forall send :: KeepAlive(c, Due(send), false, drop) == (c, Failure)
  {
  }

  // ---- Faults, and what they do

  /** No call leads out of `Connecting`. */
  lemma {:induction false} ConnectingIsATrap(c: Client, calls: Calls)
    requires c.state == Connecting
    ensures Run(c, calls).state == Connecting
    decreases calls
  {
    if calls.Next? {
      TrappedCall(c, calls.call);
      ConnectingIsATrap(Exec(c, calls.call).0, calls.rest);
    }
  }

  lemma TrappedCall(c: Client, call: Call)
    requires c.state == Connecting
    ensures Exec(c, call).0.state == Connecting
  {
    hide InternalYield, Exchange, ResubscribeAll, ConnectExchange;
    if call.AttemptReconnect? {
      assert DoConnect(c, call.retry.attempt).0 == c;
      assert DoAttemptReconnect(c, call.retry).0.state == Connecting;
    }
  }

  /** MAIN (faults): `connect`, with no fault in the calls nested in it, leaves the client at rest exactly when it
      succeeds, or its transport can be destroyed, or a nested call has disconnected; else it is connecting
      for good. Where the transport does not even open, that is exactly when it can be destroyed. */
  lemma ConnectRests(c: Client, a: Attempt, calls: Calls)
    requires Sound(c) && CanConnect(c.state) && BlamelessReads(a.arrivals)
    ensures
      var (tried, rc) := ConnectExchange(c.(state := Connecting), a);
      var rests := rc == Success || a.destroyed || tried.log.disconnects != c.log.disconnects;
      && (Resting(DoConnect(c, a).0.state) <==> rests)
      && (a.transport != Success ==> (rests <==> a.destroyed))
      && (!rests ==> Run(c, Next(Connect(a), calls)).state == Connecting)
  {
    hide Exchange, BlamelessReads, ReadsHeight, Run;
    var linked := c.(state := Connecting, log := c.log.(unanswered := false));
    if a.transport == Success {
      ExchangeKeeps(linked, Connack, a.send, true, a.arrivals, a.connack);
      BlamelessExchange(linked, Connack, a.send, true, a.arrivals, a.connack);
    }
    var d := DoConnect(c, a).0;
    assert Exec(c, Connect(a)).0 == d;
    assert Run(c, Next(Connect(a), calls)) == Run(d, calls) by { RunFirst(c, Connect(a), calls); }
    if d.state == Connecting { ConnectingIsATrap(d, calls); }
  }

  lemma RunFirst(c: Client, call: Call, calls: Calls)
    ensures Run(c, Next(call, calls)) == Run(Exec(c, call).0, calls)
  {
  }

  /** A transport that can neither be opened nor destroyed leaves the client connecting for good. */
  lemma DestroyFailureTraps(c: Client, a: Attempt, calls: Calls)
    requires CanConnect(c.state) && a.transport != Success && !a.destroyed
    ensures Run(c, Next(Connect(a), calls)).state == Connecting
  {
    hide Exchange;
    assert ConnectExchange(c.(state := Connecting), a) == (c.(state := Connecting), a.transport);
    assert DoConnect(c, a).0.state == Connecting;
    ConnectingIsATrap(Exec(c, Connect(a)).0, calls);
  }

  predicate NoDisconnect(calls: Calls) {
    calls.NoCalls? || (!calls.call.Disconnect? && NoDisconnect(calls.rest))
  }

  lemma {:induction false} YieldingIsATrap(c: Client, calls: Calls)
    requires c.state == YieldInProgress && NoDisconnect(calls)
    ensures Run(c, calls).state == YieldInProgress
    decreases calls
  {
    hide InternalYield, Exchange, ResubscribeAll, ConnectExchange, DoConnect;
    if calls.Next? {
      YieldingCall(c, calls.call);
      YieldingIsATrap(Exec(c, calls.call).0, calls.rest);
    }
  }

  lemma YieldingCall(c: Client, call: Call)
    requires c.state == YieldInProgress && !call.Disconnect?
    ensures Exec(c, call).0.state == YieldInProgress
  {
    hide InternalYield, Exchange, ResubscribeAll, ConnectExchange;
  }

  /** A turn of a yield whose read reports, in a way that the yield takes for its own result and leaves its
      state behind. */
  predicate StickingTurn(c: Client, beat: Beat) {
    c.state == YieldInProgress
    && var (read, rc) := CycleRead(c, beat.incoming);
       rc == AttemptingReconnect || (rc == NetworkDisconnected && !read.autoReconnect)
  }

  /** Some turn of the yield sticks. */
  predicate Sticks(c: Client, beats: Beats)
    decreases beats
  {
    var t := YieldTurn(c, beats.beat);
    StickingTurn(c, beats.beat) || (!t.over && beats.Then? && Sticks(t.client, beats.more))
  }

  predicate BlamelessInsides(beats: Beats) {
    BlamelessInside(beats.beat) && (beats.Then? ==> BlamelessInsides(beats.more))
  }

  /** What a turn leaves that may itself read what it should not. */
  lemma TurnRests(c: Client, beat: Beat)
    requires Sound(c) && (c.state == YieldInProgress || Resting(c.state)) && BlamelessInside(beat)
    ensures var t := YieldTurn(c, beat);
      && Sound(t.client)
      && (t.client.state == YieldInProgress || Resting(t.client.state))
      && (if StickingTurn(c, beat) then
            t.over && t.client.state == YieldInProgress && t.rc in {NetworkDisconnected, AttemptingReconnect}
          else t.rc in {NetworkDisconnected, AttemptingReconnect} ==> Resting(t.client.state))
  {
    hide CycleRead, HandleReconnect, KeepAlive, HandleDisconnect, BlamelessInside, BlamelessIncoming, BeatHeight,
      IncomingHeight, Sound;
    BlamelessTurn(c, beat);
    YieldTurnKeeps(c, beat);
    var (read, rc) := CycleRead(c, beat.incoming);
    if c.state != PendingReconnect && rc in {NetworkDisconnected, AttemptingReconnect} {
      ReportingRead(c, beat.incoming);
      ReadSound(c, beat);
      SoundFault(read);
    }
  }

  lemma ReportingRead(c: Client, incoming: Incoming)
    requires CycleRead(c, incoming).1 in {NetworkDisconnected, AttemptingReconnect}
    ensures CycleRead(c, incoming).0.state == c.state
  {
    hide Run;
  }

  lemma ReadSound(c: Client, beat: Beat)
    requires Sound(c) && c.state != WaitForCbReturn && BlamelessInside(beat)
    ensures Sound(CycleRead(c, beat.incoming).0)
  {
    hide CycleRead, BlamelessRetry, Blameless, IncomingHeight, BlamelessIncoming;
    BlamelessRead(c, beat.incoming);
    CycleReadKeeps(c, beat.incoming);
  }

  lemma SoundFault(c: Client)
    requires Sound(c)
    ensures var t := Dropped(Faulted(c, true).(drops := c.drops + 1)); Sound(Faulted(c, true)) && Sound(t.client)
  {
  }

  lemma {:induction false} InternalYieldRests(c: Client, beats: Beats)
    requires Sound(c) && (c.state == YieldInProgress || Resting(c.state)) && BlamelessInsides(beats)
    ensures var (d, rc) := InternalYield(c, beats);
      && (d.state == YieldInProgress || Resting(d.state))
      && (if Sticks(c, beats) then d.state == YieldInProgress && rc in {NetworkDisconnected, AttemptingReconnect}
          else rc in {NetworkDisconnected, AttemptingReconnect} ==> Resting(d.state))
    decreases beats
  {
    hide YieldTurn, BlamelessInside, StickingTurn, Sound;
    TurnRests(c, beats.beat);
    var t := YieldTurn(c, beats.beat);
    if beats.Then? && !t.over { InternalYieldRests(t.client, beats.more); }
  }

  /** MAIN (faults): a yield, with no fault in the calls nested in it, leaves the client at rest exactly when none
      of its own reads reports a reconnect under way, nor a disconnect while it does not reconnect on its own; else
      it is yielding for good, unless the application disconnects. */
  lemma YieldRests(c: Client, beats: Beats, calls: Calls)
    requires Sound(c) && c.state in {Idle, PendingReconnect} && BlamelessInsides(beats)
    ensures
      var rests := !Sticks(if c.state == Idle then c.(state := YieldInProgress) else c, beats);
      && (Resting(DoYield(c, beats).0.state) <==> rests)
      && (!rests && NoDisconnect(calls) ==> Run(c, Next(Yield(beats), calls)).state == YieldInProgress)
  {
    hide InternalYield, BlamelessInsides, Sticks, Sound, Run, NoDisconnect;
    var entered := if c.state == Idle then c.(state := YieldInProgress) else c;
    SoundState(c, YieldInProgress);
    InternalYieldRests(entered, beats);
    var d := DoYield(c, beats).0;
    assert Exec(c, Yield(beats)).0 == d;
    RunFirst(c, Yield(beats), calls);
    if d.state == YieldInProgress && NoDisconnect(calls) { YieldingIsATrap(d, calls); }
  }

  /** Of a yield whose first read reports: it leaves the client at rest, and idle, exactly when that read reports
      a disconnect and the client reconnects on its own. */
  lemma FirstReadReports(c: Client, beats: Beats, rc: Rc)
    requires Sound(c) && c.state == Idle && beats.beat.incoming == Unusable(rc)
    requires rc in {NetworkDisconnected, AttemptingReconnect}
    ensures var d := DoYield(c, beats).0;
      && (Resting(d.state) <==> rc == NetworkDisconnected && c.autoReconnect)
      && (Resting(d.state) ==> d.state == Idle)
  {
    hide KeepAlive, HandleDisconnect;
    var entered := c.(state := YieldInProgress);
    assert CycleRead(entered, beats.beat.incoming) == (entered, rc);
    assert YieldTurn(entered, beats.beat) == ReadTurn(entered, beats.beat);
    assert ReadTurn(entered, beats.beat).over;
  }

  // ---- Back-off, attempt by attempt

  const NO_ATTEMPT := Attempt(Failure, Success, Expired, Success, true)
  const NO_RETRY := Retry(NO_ATTEMPT, NoTopics)
  const NO_DROP := Drop(true, NoCalls)

  /** A turn whose delay is over and whose network is down. */
  const DOWN := Beat(true, false, NO_RETRY, Nothing, NotDue, true, NO_DROP)

  function Downs(n: nat): Beats
    requires n > 0
  {
    if n == 1 then Last(DOWN) else Then(DOWN, Downs(n - 1))
  }

  lemma DownTurn(c: Client)
    requires c.state == PendingReconnect && c.log.armed && c.log.failures <= 7 && c.interval == 1000 * Pow2(c.log.failures)
    ensures var t := YieldTurn(c, DOWN); var failures := c.log.failures + 1;
      && t.client == c.(interval := 1000 * Pow2(failures), log := c.log.(failures := failures))
      && !t.over && (t.rc == if failures == 8 then ReconnectTimedOut else PhysicalLayerDown)
  {
    hide DoAttemptReconnect, ReadTurn, BackedOff, Pow2, U32;
    DownBacksOff(c);
    assert HandleReconnect(c, DOWN).0 == BackedOff(c);
  }

  lemma DownBacksOff(c: Client)
    requires c.log.armed && c.log.failures <= 7 && c.interval == 1000 * Pow2(c.log.failures)
    ensures var failures := c.log.failures + 1;
      && BackedOff(c) == c.(interval := 1000 * Pow2(failures), log := c.log.(failures := failures))
      && c.interval <= MAX_RECONNECT_WAIT
      && (MAX_RECONNECT_WAIT < 1000 * Pow2(failures) <==> failures == 8)
  {
    Pow2Grows(c.log.failures, 7);
    assert Pow2(7) == 128 && Pow2(8) == 256;
    FitsItsWidth(c.log.failures + 1);
    assert Pow2(c.log.failures + 1) == 2 * Pow2(c.log.failures);
    if c.log.failures < 7 { Pow2Grows(c.log.failures + 1, 7); }
  }

  /** The `n`-th failed attempt leaves the interval at 1000 doubled `n` times; the eighth gives up. */
  lemma {:induction false} EighthFailureGivesUp(c: Client, n: nat)
    requires c.state == PendingReconnect && c.log.armed && c.interval == 1000 * Pow2(c.log.failures)
    requires n > 0 && c.log.failures + n <= 8
    ensures var (d, rc) := InternalYield(c, Downs(n)); var failures := c.log.failures + n;
      && d == c.(interval := 1000 * Pow2(failures), log := c.log.(failures := failures))
      && (rc == if failures == 8 then ReconnectTimedOut else PhysicalLayerDown)
    decreases n
  {
    hide YieldTurn;
    DownTurn(c);
    if n > 1 { EighthFailureGivesUp(YieldTurn(c, DOWN).client, n - 1); }
  }

  /** Once it has given up, no yield makes an attempt. */
  lemma GivenUpStays(c: Client, beats: Beats)
    requires c.state == PendingReconnect && MAX_RECONNECT_WAIT < c.interval
    ensures DoYield(c, beats) == (c, ReconnectTimedOut)
  {
    hide HandleReconnect, ReadTurn;
    assert YieldTurn(c, beats.beat) == Turn(c, ReconnectTimedOut, true);
    assert InternalYield(c, beats) == (c, ReconnectTimedOut);
  }

  /** Calls of a callback that disconnects, tries in vain to reconnect, and yields `h` deep. */
  function NestedCalls(h: nat): Calls
    requires h > 0
    decreases h, 1
  {
    Next(Disconnect(true), Next(AttemptReconnect(NO_RETRY), Next(Yield(Nested(h)), NoCalls)))
  }

  /** A message arrives while an attempt waits for CONNACK. */
  function Interrupted(callbacks: Calls): Retry {
    Retry(Attempt(Success, Success, Read(Message(callbacks, Success), Expired), Success, true), NoTopics)
  }

  /** A yield nested `h` deep: each level but the innermost makes an attempt that meets a message, whose callback
      yields one level less deep. */
  function Nested(h: nat): Beats
    requires h > 0
    decreases h, 0
  {
    if h == 1 then Last(DOWN) else Last(DOWN.(physical := true, retry := Interrupted(NestedCalls(h - 1))))
  }

  /** Pending its eighth attempt. */
  predicate EighthPending(c: Client) {
    c.state == PendingReconnect && c.log.armed && c.interval == 128000 && c.log.failures == 7
  }

  /** Still pending after `n` attempts, with no fault since `c`. */
  predicate PendingAfter(c: Client, d: Client, n: nat) {
    && d.state == PendingReconnect && d.log.armed && d.log.failures == n && d.log.faults == c.log.faults
    && d.interval == U32(1000 * Pow2(n))
  }

  lemma {:induction false} NestedCallbacks(c: Client, h: nat)
    requires h > 0 && c.state == WaitForCbReturn && EighthPending(c.(state := PendingReconnect))
    ensures PendingAfter(c, Run(c, NestedCalls(h)), 7 + h)
    decreases h, 1
  {
    hide Exec, Pow2, U32;
    var last := Next(Yield(Nested(h)), NoCalls);
    var gone := Disconnected(c, DisconnectedManually);
    assert Exec(c, Disconnect(true)).0 == gone by { DisconnectsAt(c); }
    var retried := gone.(state := PendingReconnect);
    FailedRetry(gone);
    NestedYield(retried, h);
    var yielded := Exec(retried, Yield(Nested(h))).0;
    assert Run(yielded, NoCalls) == yielded;
    assert Run(retried, last) == yielded;
    assert Run(gone, Next(AttemptReconnect(NO_RETRY), last)) == yielded;
  }

  lemma DisconnectsAt(c: Client)
    requires c.state == WaitForCbReturn
    ensures Exec(c, Disconnect(true)).0 == Disconnected(c, DisconnectedManually)
  {
  }

  lemma FailedRetry(c: Client)
    requires c.state == DisconnectedManually
    ensures Exec(c, AttemptReconnect(NO_RETRY)).0 == c.(state := PendingReconnect)
  {
    hide Exchange, ResubscribeAll;
    assert ConnectExchange(c.(state := Connecting), NO_ATTEMPT) == (c.(state := Connecting), Failure);
    assert DoConnect(c, NO_ATTEMPT).0 == c.(state := DisconnectedError);
    assert DoAttemptReconnect(c, NO_RETRY).0 == c.(state := PendingReconnect);
  }

  lemma DownYield(c: Client)
    requires c.state == PendingReconnect && c.log.armed && c.log.failures <= 7 && c.interval == 1000 * Pow2(c.log.failures)
    ensures var failures := c.log.failures + 1;
      Exec(c, Yield(Last(DOWN))).0 == c.(interval := 1000 * Pow2(failures), log := c.log.(failures := failures))
  {
    hide YieldTurn, Pow2;
    DownTurn(c);
    assert InternalYield(c, Last(DOWN)).0 == YieldTurn(c, DOWN).client;
    assert DoYield(c, Last(DOWN)).0 == YieldTurn(c, DOWN).client;
  }

  /** A yield nested `h` deep makes `h` attempts that fail. */
  lemma {:induction false} NestedYield(c: Client, h: nat)
    requires h > 0 && EighthPending(c)
    ensures PendingAfter(c, Exec(c, Yield(Nested(h))).0, 7 + h)
    decreases h, 0
  {
    assert Pow2(7) == 128 && Pow2(8) == 256;
    if h == 1 {
      DownYield(c);
    } else {
      NestedTurn(c, h);
      hide YieldTurn, Pow2, U32;
      var t := YieldTurn(c, Nested(h).beat);
      assert InternalYield(c, Nested(h)).0 == t.client;
      assert DoYield(c, Nested(h)).0 == t.client;
    }
  }

  lemma {:induction false} NestedRetry(c: Client, h: nat)
    requires h > 0 && EighthPending(c)
    ensures var (d, rc) := DoAttemptReconnect(c, Interrupted(NestedCalls(h)));
      PendingAfter(c, d, 7 + h) && rc == AttemptingReconnect
    decreases h, 2
  {
    hide Run, NestedCalls, Pow2, U32;
    var linked := c.(state := Connecting, log := c.log.(unanswered := false));
    var calls := NestedCalls(h);
    var retry := Interrupted(calls);
    NestedCallbacks(linked.(state := WaitForCbReturn), h);
    var d := Run(linked.(state := WaitForCbReturn), calls);
    var message := Message(calls, Success);
    assert CycleRead(linked, message) == (d, UnexpectedState);
    assert WaitForRead(linked, Connack, Read(message, Expired)) == (d, UnexpectedState);
    assert Exchange(linked, Connack, Success, true, Read(message, Expired), Success) == (d, UnexpectedState);
    assert ConnectExchange(c.(state := Connecting), retry.attempt) == (d, UnexpectedState);
    assert DoConnect(c, retry.attempt).0 == d;
  }

  lemma {:induction false} NestedTurn(c: Client, h: nat)
    requires h > 1 && EighthPending(c)
    ensures PendingAfter(c, YieldTurn(c, Nested(h).beat).client, 7 + h)
    decreases h - 1, 3
  {
    hide DoAttemptReconnect, ReadTurn, Pow2, U32, NestedCalls;
    NestedRetry(c, h - 1);
    var d := DoAttemptReconnect(c, Interrupted(NestedCalls(h - 1))).0;
    assert HandleReconnect(c, Nested(h).beat).0 == BackedOff(d);
    DoubleModulo(1000 * Pow2(6 + h));
    assert Pow2(7 + h) == 2 * Pow2(6 + h) by { Pow2Next(6 + h); }
  }

  lemma Pow2Next(k: nat)
    ensures Pow2(k + 1) == 2 * Pow2(k)
  {
  }

  lemma {:induction false} NestedHeight(h: nat)
    requires h > 0
    ensures CallHeight(Yield(Nested(h))) == h
    decreases h
  {
    assert BeatHeight(DOWN) == 0;
    if h > 1 {
      NestedHeight(h - 1);
      var last := Next(Yield(Nested(h - 1)), NoCalls);
      assert CallsHeight(last) == h - 1;
      assert CallsHeight(Next(AttemptReconnect(NO_RETRY), last)) == h - 1;
      assert CallsHeight(NestedCalls(h - 1)) == h - 1;
      assert ReadsHeight(Interrupted(NestedCalls(h - 1)).attempt.arrivals) == h - 1;
      assert BeatHeight(Nested(h).beat) == h - 1;
    }
  }

  const CONNECTS := Attempt(Success, Success, Read(Ack(Connack), Expired), Success, true)

  /** A turn on which the network fails. */
  const BREAKS := DOWN.(incoming := Unusable(SslError))

  lemma ConnectsAtOnce(c: Client)
    requires c.state == Initialized && !c.log.unanswered
    ensures Exec(c, Connect(CONNECTS)).0 == c.(state := Idle, pingOutstanding := false)
  {
    var linked := c.(state := Connecting);
    assert WaitForRead(linked, Connack, CONNECTS.arrivals) == (linked, Success);
    assert Exchange(linked, Connack, Success, true, CONNECTS.arrivals, Success) == (linked, Success);
    assert linked.(log := linked.log.(unanswered := false)) == linked;
    assert ConnectExchange(linked, CONNECTS) == (linked.(pingOutstanding := false), Success);
    assert DoConnect(c, CONNECTS).0 == c.(state := Idle, pingOutstanding := false);
  }

  lemma BreakTurn(c: Client)
    requires c.state == YieldInProgress && c.autoReconnect
    ensures var d := YieldTurn(c, BREAKS).client;
      d.state == PendingReconnect && d.log.armed && d.log.failures == 0 && d.interval == 1000
      && d.log.faults == c.log.faults && !YieldTurn(c, BREAKS).over
  {
    hide KeepAlive;
    assert HandleDisconnect(c, NO_DROP).0.state == DisconnectedError;
    assert CycleRead(c, BREAKS.incoming) == (c, SslError);
    assert YieldTurn(c, BREAKS) == ReadTurn(c, BREAKS);
  }

  lemma BreakYield(c: Client)
    requires c.state == Idle && c.autoReconnect
    ensures var d := Exec(c, Yield(Then(BREAKS, Downs(7)))).0;
      d.state == PendingReconnect && d.log.armed && d.log.failures == 7 && d.interval == 128000
      && d.log.faults == c.log.faults
  {
    hide YieldTurn, Downs;
    var entered := c.(state := YieldInProgress);
    BreakTurn(entered);
    var pending := YieldTurn(entered, BREAKS).client;
    EighthFailureGivesUp(pending, 7);
    assert Pow2(7) == 128;
    assert InternalYield(entered, Then(BREAKS, Downs(7))) == InternalYield(pending, Downs(7));
    assert DoYield(c, Then(BREAKS, Downs(7))).0 == InternalYield(pending, Downs(7)).0;
  }

  lemma {:induction false} DownsHeight(n: nat)
    requires n > 0
    ensures BeatsHeight(Downs(n)) == 0
    decreases n
  {
    assert BeatHeight(DOWN) == 0;
    if n > 1 { DownsHeight(n - 1); }
  }

  /** MAIN (back-off): eight is not a bound, and that of `EveryRun` is attained: for every depth there is a run of a
      fresh client, without faults and with yields nesting just that deep, that fails 7 + h times. */
  lemma EightIsNotABound(interval: nat, h: nat)
    requires h > 0
    ensures
      var calls := Next(Connect(CONNECTS), Next(Yield(Then(BREAKS, Downs(7))), Next(Yield(Nested(h)), NoCalls)));
      var d := Run(Fresh(interval, true), calls);
      && CallsHeight(calls) == h && d.log.faults == 0
      && d.log.failures == 7 + h && d.interval == U32(1000 * Pow2(7 + h))
      && (h <= 15 ==> d.interval == 1000 * Pow2(7 + h))
  {
    hide Exec, Downs, Pow2, U32, Nested, CallHeight;
    var c := Fresh(interval, true);
    ConnectsAtOnce(c);
    var idle := Exec(c, Connect(CONNECTS)).0;
    BreakYield(idle);
    var yield1 := Yield(Then(BREAKS, Downs(7)));
    var pending := Exec(idle, yield1).0;
    NestedYield(pending, h);
    var yield2 := Yield(Nested(h));
    var d := Exec(pending, yield2).0;
    assert Run(d, NoCalls) == d;
    assert Run(pending, Next(yield2, NoCalls)) == d;
    assert Run(idle, Next(yield1, Next(yield2, NoCalls))) == d;
    if h <= 15 { FitsItsWidth(7 + h); }
    ScriptHeight(h);
  }

  lemma ScriptHeight(h: nat)
    requires h > 0
    ensures CallsHeight(Next(Connect(CONNECTS), Next(Yield(Then(BREAKS, Downs(7))), Next(Yield(Nested(h)), NoCalls)))) == h
  {
    hide Downs, Nested;
    NestedHeight(h);
    DownsHeight(7);
    assert BeatHeight(BREAKS) == 0;
    assert BeatsHeight(Then(BREAKS, Downs(7))) == 0;
    assert CallHeight(Yield(Then(BREAKS, Downs(7)))) == 1;
    assert CallHeight(Connect(CONNECTS)) == 0;
    var last := Next(Yield(Nested(h)), NoCalls);
    assert CallsHeight(last) == h;
    assert CallsHeight(Next(Yield(Then(BREAKS, Downs(7))), last)) == h;
  }
}
