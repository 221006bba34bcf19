/**
 The client as the program keeps it: one record whose state, ping flag and back-off interval the calls
 update in place. Every method does to the record what the function of the same work does to a value.
 */
module MqttSession {
  import opened CInt
  import M = MqttClient
  import opened MqttClient

  lemma CallsStay(c: Client, calls: Calls)
    ensures var d := M.Run(c, calls);
      M.Callable(c) && M.Blameless(calls) ==>
        M.Callable(d) && M.CallKeeps(c, d, M.CallsHeight(calls)) && d.log.faults == c.log.faults
  {
    hide M.Run, M.Blameless, M.CallsHeight;
    if M.Callable(c) && M.Blameless(calls) {
      M.RunKeeps(c, calls);
      M.BlamelessRun(c, calls);
    }
  }

  class Session {
    var clientState: ClientState
    var isPingOutstanding: bool
    var isAutoReconnectEnabled: bool
    var currentReconnectWaitInterval: nat
    var counterNetworkDisconnected: nat
    ghost var log: Log

    ghost function View(): Client
      reads this
    {
      Client(clientState, isPingOutstanding, isAutoReconnectEnabled, currentReconnectWaitInterval,
             counterNetworkDisconnected, log)
    }

    /** `init`, which leaves the interval as it finds it. */
    constructor (interval: nat, autoReconnect: bool)
      ensures View() == Fresh(interval, autoReconnect)
    {
      clientState, isPingOutstanding, isAutoReconnectEnabled := Initialized, false, autoReconnect;
      currentReconnectWaitInterval, counterNetworkDisconnected := interval, 0;
      log := Log(0, 0, false, false, false, 0);
    }

    method SetClientState(expected: ClientState, next: ClientState) returns (rc: Rc)
      modifies this
      ensures (View(), rc) == M.SetState(old(View()), expected, next)
    {
      if expected == clientState {
        clientState := next;
        rc := Success;
      } else {
        rc := UnexpectedState;
      }
    }

    /** A client that may be called: at rest, or from a callback, with its timers and flags in order. */
    ghost predicate Valid()
      reads this
    {
      M.Callable(View())
    }

    /** The application's calls, in order. They leave a client that may be called, as far as it was one and no
        network answer can be at fault, and have disconnected it if it is not where they found it. */
    method RunCalls(calls: Calls)
      modifies this
      ensures View() == M.Run(old(View()), calls)
      ensures old(Valid()) && M.Blameless(calls) ==>
        Valid() && M.CallKeeps(old(View()), View(), M.CallsHeight(calls)) && log.faults == old(log.faults)
      decreases calls
    {
      hide M.Exec, M.Callable, M.CallKeeps, M.Blameless, M.CallsHeight;
      CallsStay(View(), calls);
      var todo := calls;
      while todo.Next?
        invariant todo == calls || todo < calls
        invariant M.Run(View(), todo) == M.Run(old(View()), calls)
        decreases todo
      {
        var _ := ExecCall(todo.call);
        todo := todo.rest;
      }
    }

    method ExecCall(call: Call) returns (rc: Rc)
      modifies this
      ensures (View(), rc) == M.Exec(old(View()), call)
      decreases call
    {
      hide M.DoRequest, M.DoConnect, M.DoDisconnect, M.DoYield, M.DoAttemptReconnect, M.DoResubscribe;
      match call
      case Request(op, send, waits, arrivals, answer) => rc := MqttRequest(op, send, waits, arrivals, answer);
      case Connect(attempt) => rc := MqttConnect(attempt);
      case Disconnect(closed) => rc := MqttDisconnect(closed);
      case Yield(beats) => rc := MqttYield(beats);
      case AttemptReconnect(retry) => rc := MqttAttemptReconnect(retry);
      case Resubscribe(topics) => rc := MqttResubscribe(topics);
      case SetAutoReconnect(enabled) => isAutoReconnectEnabled, rc := enabled, Success;
    }

    method ReadCycle(incoming: Incoming) returns (rc: Rc)
      modifies this
      ensures (View(), rc) == M.CycleRead(old(View()), incoming)
      decreases incoming
    {
      hide M.Run;
      match incoming
      case Nothing => rc := Success;
      case Ack(_) => rc := Success;
      case PingResponse =>
        isPingOutstanding, log := false, log.(unanswered := false);
        rc := Success;
      case Unusable(failure) => rc := failure;
      case Message(callbacks, ack) =>
        var saved := clientState;
        rc := SetClientState(saved, WaitForCbReturn);
        RunCalls(callbacks);
        rc := SetClientState(WaitForCbReturn, saved);
        if rc == Success { rc := ack; }
    }

    method AwaitAck(kind: AckKind, arrivals: Reads) returns (rc: Rc)
      modifies this
      ensures (View(), rc) == M.WaitForRead(old(View()), kind, arrivals)
      decreases arrivals, 0
    {
      hide M.CycleRead;
      var todo := arrivals;
      while true
        invariant todo == arrivals || todo < arrivals
        invariant M.WaitForRead(View(), kind, todo) == M.WaitForRead(old(View()), kind, arrivals)
        decreases todo
      {
        if todo.Expired? { return RequestTimeout; }
        rc := ReadCycle(todo.incoming);
        if rc != Success || todo.incoming == Ack(kind) { return; }
        todo := todo.more;
      }
    }

    method SendAndAwait(kind: AckKind, send: Rc, waits: bool, arrivals: Reads, answer: Rc) returns (rc: Rc)
      modifies this
      ensures (View(), rc) == M.Exchange(old(View()), kind, send, waits, arrivals, answer)
      decreases arrivals, 1
    {
      hide M.WaitForRead;
      if send != Success { return send; }
      if waits {
        rc := AwaitAck(kind, arrivals);
        if rc != Success { return; }
        return answer;
      }
      rc := Success;
    }

    method MqttRequest(op: Operation, send: Rc, waits: bool, arrivals: Reads, answer: Rc) returns (opRc: Rc)
      modifies this
      ensures (View(), opRc) == M.DoRequest(old(View()), op, send, waits, arrivals, answer)
      decreases arrivals, 2
    {
      hide M.Exchange, M.InProgress, M.AwaitedAck, M.IsConnected, M.After, M.Later, M.DoRequest;
      RequestSteps(View(), op, send, waits, arrivals, answer);
      var entry := clientState;
      if !IsConnected(entry) {
        opRc := NetworkDisconnected;
      } else if entry != Idle && entry != WaitForCbReturn {
        opRc := NotIdle;
      } else {
        var during := InProgress(op);
        var rc := SetClientState(entry, during);
        assert View() == old(View()).(state := during);
        opRc := SendAndAwait(AwaitedAck(op), send, waits, arrivals, answer);
        rc := SetClientState(during, entry);
        if opRc == Success { opRc := rc; }
      }
    }

    method InternalConnect(a: Attempt) returns (rc: Rc)
      modifies this
      ensures (View(), rc) == M.ConnectExchange(old(View()), a)
      decreases a, 0
    {
      hide M.Exchange;
      if a.transport != Success { return a.transport; }
      log := log.(unanswered := false);
      rc := SendAndAwait(Connack, a.send, true, a.arrivals, a.connack);
      if rc == Success { isPingOutstanding := false; }
    }

    method MqttConnect(a: Attempt) returns (rc: Rc)
      modifies this
      ensures (View(), rc) == M.DoConnect(old(View()), a)
      ensures rc == Success <==> CanConnect(old(clientState)) && M.Connects(a)
      ensures rc == Success ==> clientState == Idle && !isPingOutstanding
      decreases a, 1
    {
      hide M.ConnectExchange, M.Connects;
      ConnectSucceeds(View(), a);
      if !CanConnect(clientState) { return AlreadyConnected; }
      var _ := SetClientState(clientState, Connecting);
      rc := InternalConnect(a);
      if rc != Success {
        if !a.destroyed {
          log := log.(faults := log.faults + 1);
          return NetworkDisconnected;
        }
        var _ := SetClientState(Connecting, DisconnectedError);
      } else {
        var _ := SetClientState(Connecting, Idle);
      }
    }

    method MqttDisconnect(closed: bool) returns (rc: Rc)
      modifies this
      ensures (View(), rc) == M.DoDisconnect(old(View()), closed)
    {
      var entry := clientState;
      if !IsConnected(entry) { return NetworkDisconnected; }
      rc := SetClientState(entry, Disconnecting);
      if !closed {
        clientState := entry;
        return Failure;
      }
      clientState := DisconnectedManually;
      log := log.(disconnects := log.disconnects + 1);
    }

    method HandleDisconnect(drop: Drop) returns (rc: Rc)
      modifies this
      ensures (View(), rc) == M.HandleDisconnect(old(View()), drop)
      decreases drop, 0
    {
      hide M.Run;
      rc := MqttDisconnect(drop.closed);
      if rc != Success { clientState := DisconnectedError; }
      RunCalls(drop.handler);
      clientState := DisconnectedError;
      log := log.(disconnects := log.disconnects + 1);
      rc := NetworkDisconnected;
    }

    method ResubscribeEach(topics: Topics) returns (rc: Rc)
      modifies this
      ensures (View(), rc) == M.ResubscribeAll(old(View()), topics)
      decreases topics, 0
    {
      hide M.Exchange;
      var todo := topics;
      while todo.Topic?
        invariant todo == topics || todo < topics
        invariant M.ResubscribeAll(View(), todo) == M.ResubscribeAll(old(View()), topics)
        decreases todo
      {
        rc := SendAndAwait(Suback, todo.send, true, todo.arrivals, todo.suback);
        if rc != Success { return; }
        todo := todo.others;
      }
      rc := Success;
    }

    method MqttResubscribe(topics: Topics) returns (opRc: Rc)
      modifies this
      ensures (View(), opRc) == M.DoResubscribe(old(View()), topics)
      ensures opRc == Success <==> old(clientState) == Idle && M.TopicsAnswered(topics)
      decreases topics, 1
    {
      hide M.ResubscribeAll, M.TopicsAnswered;
      ResubscribeSucceeds(View(), topics);
      if !IsConnected(clientState) { return NetworkDisconnected; }
      if clientState != Idle { return NotIdle; }
      var rc := SetClientState(Idle, ResubscribeInProgress);
      opRc := ResubscribeEach(topics);
      rc := SetClientState(ResubscribeInProgress, Idle);
      if opRc == Success && rc != Success { opRc := rc; }
    }

    method MqttAttemptReconnect(retry: Retry) returns (rc: Rc)
      modifies this
      ensures (View(), rc) == M.DoAttemptReconnect(old(View()), retry)
      decreases retry
    {
      hide M.DoConnect, M.DoResubscribe;
      if IsConnected(clientState) { return AlreadyConnected; }
      rc := MqttConnect(retry.attempt);
      if clientState != Idle {
        var _ := SetClientState(DisconnectedError, PendingReconnect);
        return AttemptingReconnect;
      }
      rc := MqttResubscribe(retry.topics);
      if rc == Success { rc := Reconnected; }
    }

    method SendPing(ping: Ping, room: bool, drop: Drop) returns (rc: Rc)
      modifies this
      ensures (View(), rc) == M.KeepAlive(old(View()), ping, room, drop)
      decreases drop, 1
    {
      hide M.HandleDisconnect;
      if ping == NotDue { return Success; }
      if isPingOutstanding {
        rc := HandleDisconnect(drop);
        return;
      }
      if !room { return Failure; }
      if ping.send != Success {
        rc := HandleDisconnect(drop);
        return;
      }
      isPingOutstanding := true;
      log := log.(unanswered := true, doublePing := log.doublePing || log.unanswered);
      rc := Success;
    }

    method TryReconnect(beat: Beat) returns (rc: Rc)
      modifies this
      ensures (View(), rc) == M.HandleReconnect(old(View()), beat)
      decreases beat, 0
    {
      hide M.DoAttemptReconnect;
      if !beat.delayOver { return AttemptingReconnect; }
      rc := PhysicalLayerDown;
      if beat.physical {
        rc := MqttAttemptReconnect(beat.retry);
        if rc == Reconnected {
          rc := SetClientState(Idle, YieldInProgress);
          if rc == Success { rc := Reconnected; }
          return;
        }
      }
      currentReconnectWaitInterval := U32(currentReconnectWaitInterval * 2);
      log := log.(failures := if log.armed then log.failures + 1 else log.failures);
      if MAX_RECONNECT_WAIT < currentReconnectWaitInterval { return ReconnectTimedOut; }
    }

    /** The part of a turn that follows a disconnect: a client that reconnects on its own begins to wait. */
    method BeginReconnect() returns (rc: Rc, over: bool)
      modifies this
      ensures Turn(View(), rc, over) == M.Dropped(old(View()).(drops := old(View()).drops + 1))
    {
      counterNetworkDisconnected := counterNetworkDisconnected + 1;
      if !isAutoReconnectEnabled { return NetworkDisconnected, true; }
      rc := SetClientState(DisconnectedError, PendingReconnect);
      if rc != Success { return rc, true; }
      currentReconnectWaitInterval := MIN_RECONNECT_WAIT;
      log := log.(armed := true, failures := 0);
      return AttemptingReconnect, false;
    }

    method InternalYield(beats: Beats) returns (yieldRc: Rc)
      modifies this
      ensures (View(), yieldRc) == M.InternalYield(old(View()), beats)
      decreases beats, 0
    {
      hide M.YieldTurn;
      var todo := beats;
      while true
        invariant todo == beats || todo < beats
        invariant M.InternalYield(View(), todo) == M.InternalYield(old(View()), beats)
        decreases todo
      {
        var over;
        yieldRc, over := OneTurn(todo.beat);
        if over || todo.Last? { return; }
        todo := todo.more;
      }
    }

    /** The body of the yield loop. */
    method OneTurn(beat: Beat) returns (yieldRc: Rc, over: bool)
      modifies this
      ensures Turn(View(), yieldRc, over) == M.YieldTurn(old(View()), beat)
      decreases beat, 1
    {
      hide M.HandleReconnect, M.CycleRead, M.KeepAlive, M.HandleDisconnect, M.Dropped;
      if clientState == PendingReconnect {
        if MAX_RECONNECT_WAIT < currentReconnectWaitInterval { return ReconnectTimedOut, true; }
        yieldRc := TryReconnect(beat);
        return yieldRc, false;
      }
      yieldRc := ReadCycle(beat.incoming);
      if yieldRc == Success {
        yieldRc := SendPing(beat.ping, beat.room, beat.drop);
      } else if yieldRc == SslError {
        yieldRc := HandleDisconnect(beat.drop);
      } else if yieldRc in {NetworkDisconnected, AttemptingReconnect} {
        log := log.(faults := log.faults + 1);
      }
      if yieldRc == NetworkDisconnected {
        yieldRc, over := BeginReconnect();
      } else {
        over := yieldRc != Success;
      }
    }

    method MqttYield(beats: Beats) returns (yieldRc: Rc)
      modifies this
      ensures (View(), yieldRc) == M.DoYield(old(View()), beats)
      decreases beats, 1
    {
      hide M.InternalYield;
      if clientState == DisconnectedManually { return ManuallyDisconnected; }
      var rc;
      if clientState != PendingReconnect {
        if !IsConnected(clientState) { return NetworkDisconnected; }
        if clientState != Idle { return NotIdle; }
        rc := SetClientState(Idle, YieldInProgress);
      }
      yieldRc := InternalYield(beats);
      if yieldRc != NetworkDisconnected && yieldRc != AttemptingReconnect {
        rc := SetClientState(YieldInProgress, Idle);
        if yieldRc == Success && rc != Success { yieldRc := rc; }
      }
    }
  }
}
