/** The WebSocket client object: its sections under the mutex, tied to the lifecycle and chunk-reassembly models. */
module WebSocketClient {
  import opened Bytes
  import opened Wrappers
  import opened ClientLifecycle
  import ClientChunks

  /** How the first section of Disconnect ends: nothing to do, refused, or a client to stop and destroy. */
  datatype DisconnectStart = NoClient | Refused(error: WebError) | Underway(client: nat, wasConnected: bool)

  function PeerReason(payload: Option<seq<byte>>): CloseReason {
    CloseReason(if payload.Some? && |payload.value| >= 2 then Read16(payload.value, 0) else NORMAL,
                if payload.Some? && |payload.value| > 2 then payload.value[2..] else [])
  }

  /** A peer's close frame: the code and the text that it put into it, and 1000 without text if it has no code. */
  lemma PeerReasonReads(code: uint16, text: seq<byte>)
    ensures PeerReason(Some(Bytes16(code) + text)) == CloseReason(code, text)
    ensures forall short: seq<byte> :: |short| < 2 ==> PeerReason(Some(short)) == CloseReason(1000, [])
    ensures PeerReason(None) == CloseReason(1000, [])
  {
    assert (Bytes16(code) + text)[2..] == text;
  }

  class ESP32WebSocketClientPlatform {
    var client: Option<nat>
    var connection: Option<bool>
    var connected: bool
    var disconnecting: bool
    var disconnectNotified: bool
    var eventTask: Option<nat>
    var requestedClose: CloseReason
    var peerClose: CloseReason
    var incomingFrame: seq<byte>
    var incomingOpcode: byte
    /** What the sections decided to tell the sink, and the messages dispatched to it. */
    var decisions: seq<Decision>
    var dispatched: seq<ClientChunks.Message>
    /** The run so far: this object, the native handles and the Disconnect call under way. */
    ghost var world: World

    function Snapshot(): Shared
      reads this
    {
      Shared(client, connection, connected, disconnecting, disconnectNotified, eventTask, requestedClose, peerClose)
    }

    function Reception(): ClientChunks.Reception
      reads this`incomingFrame, this`incomingOpcode, this`dispatched
    {
      ClientChunks.Reception(ClientChunks.Incoming(incomingFrame, incomingOpcode), dispatched)
    }

    ghost predicate Valid()
      reads this
    {
      Tied() && ClientChunks.Bounded(Reception())
    }

    ghost predicate Tied()
      reads this
    {
      && world.shared == Snapshot() && world.decisions == decisions
      && HandlesOwned(world) && DecisionsPaired(world)
    }

    constructor ()
      ensures Valid() && world == INITIAL && Reception() == ClientChunks.Reception(ClientChunks.NO_FRAME, [])
    {
      client, connection, connected, disconnecting, disconnectNotified := None, None, false, false, true;
      eventTask, requestedClose, peerClose := None, DEFAULT_REASON, DEFAULT_REASON;
      incomingFrame, incomingOpcode, decisions, dispatched := [], 0, [], [];
      world := INITIAL;
    }

    /** `rejection` is what checking the configuration finds; `native` is the handle native init returns, the next
        unused one; the last two are how registering the event handler and starting fail, if they do. */
    method Connect(rejection: Option<WebError>, native: Option<nat>, registered: Option<WebError>,
                   started: Option<WebError>)
        returns (result: WebResult)
      requires Valid() && (native.Some? ==> native.value == world.nextHandle)
      modifies this
      ensures Valid()
      ensures world == Do(old(world), ClientLifecycle.Connect(OutcomeOf(rejection, native, registered, started)))
      ensures result == if old(client.Some? || disconnecting) then Failure(InvalidState)
                        else if rejection.Some? then Failure(rejection.value)
                        else if native.None? then Failure(PlatformFailure)
                        else if registered.Some? then Failure(registered.value)
                        else if started.Some? then Failure(started.value) else Success
      ensures dispatched == old(dispatched) && (result == Success ==> Reception().incoming == ClientChunks.NO_FRAME)
    {
      hide HandlesOwned, DecisionsPaired, ClientChunks.Bounded, Do;
      ghost var step := ClientLifecycle.Connect(OutcomeOf(rejection, native, registered, started));
      StepKeepsInvariant(world, step);
      ConnectChanges(world, step.outcome);
      world := Do(world, step);
      if client.Some? || disconnecting { return Failure(InvalidState); }
      if rejection.Some? { return Failure(rejection.value); }
      if native.None? { return Failure(PlatformFailure); }
      if registered.Some? { return Failure(registered.value); }
      result := Launch(native.value, started);
    }

    /** The end of Connect: the fields are set before the native client starts, and taken back if it does not. */
    method Launch(handle: nat, started: Option<WebError>) returns (result: WebResult)
      modifies this`client, this`connection, this`connected, this`disconnectNotified, this`eventTask,
               this`incomingFrame, this`incomingOpcode, this`requestedClose, this`peerClose
      ensures result == if started.Some? then Failure(started.value) else Success
      ensures Snapshot() == old(if started.Some? then StartFailed(Snapshot()) else Started(Snapshot(), handle))
      ensures Reception() == old(Reception()).(incoming := ClientChunks.NO_FRAME)
      ensures ClientChunks.Bounded(old(Reception())) ==> ClientChunks.Bounded(Reception())
    {
      client, connection, connected, disconnectNotified, eventTask := Some(handle), Some(false), false, true, None;
      incomingFrame, incomingOpcode := [], 0;
      requestedClose, peerClose := DEFAULT_REASON, DEFAULT_REASON;
      if started.Some? {
        client, connection := None, None;
        return Failure(started.value);
      }
      return Success;
    }

    /** The first section of Disconnect, on thread `task`. */
    method BeginDisconnect(task: nat, reason: CloseReason) returns (start: DisconnectStart)
      requires Valid()
      modifies this`disconnecting, this`requestedClose, this`world
      ensures Valid() && world == Do(old(world), DisconnectBegins(task, reason))
      ensures start == if client.None? then NoClient
                       else if !old(MayDisconnect(Snapshot(), task)) then Refused(InvalidState)
                       else Underway(client.value, connected)
    {
      if client.None? { return NoClient; }
      if disconnecting { return Refused(InvalidState); }
      if eventTask.Some? && eventTask.value == task { return Refused(InvalidState); }
      StepKeepsInvariant(world, DisconnectBegins(task, reason));
      hide HandlesOwned, DecisionsPaired, ClientChunks.Bounded;
      world := Do(world, DisconnectBegins(task, reason));
      disconnecting := true;
      requestedClose := reason;
      return Underway(client.value, connected);
    }

    /** Native stop and destroy, outside the mutex. */
    ghost method StopNatively()
      requires Valid()
      modifies this`world
      ensures Valid() && world == Do(old(world), NativeStops(0))
    {
      StepKeepsInvariant(world, NativeStops(0));
      hide HandlesOwned, DecisionsPaired, ClientChunks.Bounded;
      world := Do(world, NativeStops(0));
    }

    ghost method DestroyNatively()
      requires Valid()
      modifies this`world
      ensures Valid() && world == Do(old(world), NativeDestroys(0))
    {
      StepKeepsInvariant(world, NativeDestroys(0));
      hide HandlesOwned, DecisionsPaired, ClientChunks.Bounded;
      world := Do(world, NativeDestroys(0));
    }

    /** The last section of the Disconnect under way, with what its first section saw; the result is whether it tells
        the sink. */
    method FinishDisconnect(handle: nat, wasConnected: bool, reason: CloseReason) returns (notify: bool)
      requires Valid() && world.flights == [Flight(handle, wasConnected, reason, Finishing)]
      modifies this`client, this`connected, this`connection, this`eventTask, this`incomingFrame, this`incomingOpcode,
               this`disconnecting, this`disconnectNotified, this`decisions, this`world
      ensures Valid() && world == Do(old(world), DisconnectFinishes(0))
      ensures client.None? && !disconnecting && !connected && Reception().incoming == ClientChunks.NO_FRAME
      ensures decisions == old(decisions) + if notify then [Disconnected(reason)] else []
      ensures notify <==> wasConnected && !old(disconnectNotified)
    {
      hide HandlesOwned, DecisionsPaired, ClientChunks.Bounded, Do;
      StepKeepsInvariant(world, DisconnectFinishes(0));
      FinishChanges(world);
      UnderwayIsClient(world);
      ClientChunks.ClearedStaysBounded(Reception());
      world := Do(world, DisconnectFinishes(0));
      Release(handle);
      notify := false;
      if wasConnected && !disconnectNotified {
        disconnectNotified := true;
        decisions := decisions + [Disconnected(CloseReason(reason.code, requestedClose.text))];
        notify := true;
      }
    }

    /** Forgets the client and the frame it was receiving. */
    method Release(handle: nat)
      modifies this`client, this`connected, this`connection, this`eventTask, this`incomingFrame, this`incomingOpcode,
               this`disconnecting
      ensures Snapshot() == Finished(old(Snapshot()), handle, false)
      ensures Reception() == old(Reception()).(incoming := ClientChunks.NO_FRAME)
      ensures ClientChunks.Bounded(old(Reception())) ==> ClientChunks.Bounded(Reception())
    {
      if client == Some(handle) { client := None; }
      connected := false;
      if connection.Some? { connection := Some(false); }
      eventTask := None;
      incomingFrame, incomingOpcode := [], 0;
      disconnecting := false;
    }

    /** A whole Disconnect that no native event interrupts; the last two parameters are how native stop and destroy
        fail, if they do. */
    method Disconnect(task: nat, reason: CloseReason, stopped: Option<WebError>, destroyed: Option<WebError>)
        returns (result: WebResult)
      requires Valid()
      modifies this`client, this`connected, this`connection, this`eventTask, this`incomingFrame, this`incomingOpcode,
               this`disconnecting, this`disconnectNotified, this`requestedClose, this`decisions, this`world
      ensures Valid()
      ensures !old(MayDisconnect(Snapshot(), task)) ==>
                world == old(world) && result == if old(client).None? then Success else Failure(InvalidState)
      ensures old(MayDisconnect(Snapshot(), task)) ==>
                && client.None? && !disconnecting && !connected && Reception().incoming == ClientChunks.NO_FRAME
                && decisions == old(decisions) + (if old(connected) then [Disconnected(reason)] else [])
                && world == Do(Do(Do(Do(old(world), DisconnectBegins(task, reason)), NativeStops(0)),
                                  NativeDestroys(0)),
                               DisconnectFinishes(0))
                && result == if destroyed.Some? then Failure(destroyed.value)
                             else if stopped.Some? && old(connected) then Failure(stopped.value) else Success
    {
      hide HandlesOwned, ClientChunks.Bounded, Do;
      ghost var before := world;
      var start := BeginDisconnect(task, reason);
      if start.NoClient? {
        RefusedStays(before, task, reason);
        return Success;
      }
      if start.Refused? {
        RefusedStays(before, task, reason);
        return Failure(start.error);
      }
      UninterruptedFlight(before, task, reason);
      ConnectedIsUntold(before);
      hide DecisionsPaired;
      StopNatively();
      DestroyNatively();
      var notify := FinishDisconnect(start.client, start.wasConnected, reason);
      if destroyed.Some? { return Failure(destroyed.value); }
      if stopped.Some? && start.wasConnected { return Failure(stopped.value); }
      return Success;
    }

    /** The last section of Reset. */
    method DropConnection()
      requires Valid()
      modifies this`connection, this`world
      ensures Valid() && world == Do(old(world), ResetEnds) && connection.None?
    {
      StepKeepsInvariant(world, ResetEnds);
      hide HandlesOwned, DecisionsPaired, ClientChunks.Bounded;
      world := Do(world, ResetEnds);
      if connection.Some? { connection := Some(false); }
      connection := None;
    }

    method RememberEventTask(task: nat)
      requires Valid()
      modifies this`eventTask, this`world
      ensures Valid() && world == Do(old(world), EventStarts(task))
      ensures eventTask == if old(eventTask).Some? then old(eventTask) else Some(task)
    {
      StepKeepsInvariant(world, EventStarts(task));
      hide HandlesOwned, DecisionsPaired, ClientChunks.Bounded;
      world := Do(world, EventStarts(task));
      if eventTask.None? { eventTask := Some(task); }
    }

    method HandleConnected()
      requires Valid()
      modifies this`connected, this`disconnectNotified, this`connection, this`peerClose, this`decisions, this`world
      ensures Valid() && world == Do(old(world), HandlesConnected)
      ensures client.Some? && old(connection).Some? ==>
                connected && connection == Some(true) && decisions == old(decisions) + [Connected]
      ensures client.None? || old(connection).None? ==> unchanged(`connected, `connection, `decisions)
    {
      StepKeepsInvariant(world, HandlesConnected);
      hide HandlesOwned, DecisionsPaired, ClientChunks.Bounded;
      world := Do(world, HandlesConnected);
      if client.None? || connection.None? { return; }
      connected, disconnectNotified, connection := true, false, Some(true);
      peerClose := DEFAULT_REASON;
      decisions := decisions + [Connected];
    }

    method HandleDisconnected(clean: bool)
      requires Valid()
      modifies this`connected, this`disconnectNotified, this`connection, this`decisions, this`world
      ensures Valid() && world == Do(old(world), HandlesDisconnected(clean))
    {
      StepKeepsInvariant(world, HandlesDisconnected(clean));
      hide HandlesOwned, DecisionsPaired, ClientChunks.Bounded;
      world := Do(world, HandlesDisconnected(clean));
      connected := false;
      if connection.Some? { connection := Some(false); }
      if disconnectNotified { return; }
      disconnectNotified := true;
      var reason := CloseReason(ABNORMAL, CONNECTION_LOST);
      if clean {
        if peerClose.text != [] || peerClose.code != NORMAL {
          reason := peerClose;
        } else {
          reason := requestedClose;
        }
      }
      decisions := decisions + [Disconnected(reason)];
    }

    method RememberPeerClose(payload: Option<seq<byte>>)
      requires Tied()
      modifies this`peerClose, this`world
      ensures Tied() && world == Do(old(world), PeerCloses(PeerReason(payload)))
    {
      StepKeepsInvariant(world, PeerCloses(PeerReason(payload)));
      hide HandlesOwned, DecisionsPaired, ClientChunks.Bounded;
      world := Do(world, PeerCloses(PeerReason(payload)));
      var code: uint16, text: seq<byte> := NORMAL, [];
      if payload.Some? && |payload.value| >= 2 { code := Read16(payload.value, 0); }
      if payload.Some? && |payload.value| > 2 { text := payload.value[2..]; }
      peerClose := CloseReason(code, text);
    }

    method DispatchPayload(message: ClientChunks.Message)
      modifies this`dispatched
      ensures dispatched == old(dispatched) + if connected && connection.Some? then [message] else []
    {
      if !connected || connection.None? { return; }
      dispatched := dispatched + [message];
    }

    /** The section of HandleData under the mutex: fills in one chunk, and takes the frame out when it is complete. */
    method FillIncoming(event: ClientChunks.NativeEvent) returns (completed: Option<ClientChunks.Message>)
      requires !ClientChunks.IsDropped(event) && !ClientChunks.IsWhole(event)
      modifies this`incomingFrame, this`incomingOpcode
      ensures Reception().incoming == ClientChunks.Next(old(Reception()).incoming, event)
      ensures completed == ClientChunks.Completes(old(Reception()).incoming, event)
    {
      if event.offset == 0 {
        incomingFrame, incomingOpcode := ClientChunks.Zeros(event.payloadLength), event.opcode;
      }
      if |incomingFrame| != event.payloadLength || incomingOpcode != event.opcode ||
         (event.dataLength != 0 && event.data.None?) {
        incomingFrame, incomingOpcode := [], 0;
        return None;
      }
      if event.dataLength != 0 {
        incomingFrame := Overwrite(incomingFrame, event.offset, event.data.value);
      }
      if event.offset + event.dataLength != event.payloadLength { return None; }
      completed := Some(ClientChunks.Message(incomingOpcode, Some(incomingFrame)));
      incomingFrame, incomingOpcode := [], 0;
    }

    /** A DATA event: ignored, dispatched whole, or filled in at its offset. */
    method HandleData(event: ClientChunks.NativeEvent)
      requires Valid()
      modifies this`incomingFrame, this`incomingOpcode, this`dispatched, this`peerClose, this`world
      ensures Valid()
      ensures Reception() == ClientChunks.Handle(old(Reception()),
                                                 ClientChunks.Arrival(event, connected && connection.Some?))
      ensures var m := ClientChunks.Completes(old(Reception().incoming), event);
              world == if m.Some? && m.value.opcode == ClientChunks.CLOSE
                       then Do(old(world), PeerCloses(PeerReason(m.value.payload))) else old(world)
    {
      hide HandlesOwned, DecisionsPaired, ClientChunks.Bounded, Do;
      ghost var arrival := ClientChunks.Arrival(event, connected && connection.Some?);
      ghost var after := ClientChunks.Handle(Reception(), arrival);
      ClientChunks.HandleKeepsBounded(Reception(), arrival);
      if event.payloadLength < 0 || event.offset < 0 || event.dataLength < 0 { return; }
      var payloadLength, offset, dataLength := event.payloadLength, event.offset, event.dataLength;
      if payloadLength > ClientChunks.MAXIMUM_MESSAGE || offset > payloadLength || dataLength > payloadLength - offset {
        return;
      }
      var opcode := event.opcode;
      if opcode == ClientChunks.PING || opcode == ClientChunks.PONG { return; }
      if opcode == ClientChunks.CONTINUATION { return; }
      if offset == 0 && dataLength == payloadLength {
        Conclude(ClientChunks.Message(opcode, if dataLength == 0 then Some([]) else event.data));
        assert Reception() == after;
        return;
      }
      var completed := FillIncoming(event);
      if completed.None? {
        assert Reception() == after;
        return;
      }
      Conclude(completed.value);
    }

    /** What a complete frame does: a close is remembered, text and binary are dispatched, the rest is ignored. */
    method Conclude(message: ClientChunks.Message)
      requires Tied()
      modifies this`dispatched, this`peerClose, this`world
      ensures Tied() && world == if message.opcode == ClientChunks.CLOSE
                       then Do(old(world), PeerCloses(PeerReason(message.payload))) else old(world)
      ensures dispatched == old(dispatched) +
                if ClientChunks.IsData(message.opcode) && connected && connection.Some? then [message] else []
    {
      if message.opcode == ClientChunks.CLOSE {
        RememberPeerClose(message.payload);
      } else if message.opcode == ClientChunks.TEXT || message.opcode == ClientChunks.BINARY {
        DispatchPayload(message);
      }
    }

    /** The connection object, by its open flag, that callers may send on: when there is one, it is open. */
    method Connection() returns (found: Option<bool>)
      requires Valid()
      ensures found == if connected && connection.Some? then Some(true) else None
    {
      return if connected && connection.Some? then connection else None;
    }
  }

  function OutcomeOf(rejection: Option<WebError>, native: Option<nat>, registered: Option<WebError>,
                     started: Option<WebError>)
      : ConnectOutcome {
    if rejection.Some? then Rejected
    else if native.None? then InitFails
    else if registered.Some? then RegisterFails
    else if started.Some? then StartFails
    else Starts
  }
}
