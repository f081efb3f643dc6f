/** Connection tracking by one endpoint binding, and its Connected/Disconnected notifications. */
module WebSocketEndpoint {
  import opened Bytes
  import opened Wrappers

  /** Native socket descriptors are 32-bit signed; the connection id is the same bits read unsigned. */
  type Socket = n: int | -0x8000_0000 <= n < 0x8000_0000

  function Id(socket: Socket): uint32 { socket % 0x1_0000_0000 }

  datatype Notification = Connected(id: uint32) | Disconnected(id: uint32)

  datatype Registry = Registry(connections: seq<uint32>, notifications: seq<Notification>)

  /** HTTPD calls: a request on a socket, which is the upgrade (GET) or a frame, with what HTTPD says about the socket;
      or the close of a session. `bound` is whether the binding is active at that moment. */
  datatype Event =
    | Request(socket: Socket, bound: bool, upgrade: bool, isWebSocket: bool, hasMemory: bool)
    | SessionClosed(socket: Socket)

  // ---- One call ----

  function Ensured(r: Registry, id: uint32, hasMemory: bool): Registry {
    if id in r.connections || !hasMemory then r
    else Registry(r.connections + [id], r.notifications + [Connected(id)])
  }

  function Without(connections: seq<uint32>, id: uint32): seq<uint32> {
    if connections == [] then []
    else if connections[0] == id then connections[1..]
    else [connections[0]] + Without(connections[1..], id)
  }

  function Step(r: Registry, e: Event): Registry {
    match e
    case Request(socket, bound, upgrade, isWebSocket, hasMemory) =>
      if !bound || socket < 0 || (!upgrade && !isWebSocket) then r else Ensured(r, Id(socket), hasMemory)
    case SessionClosed(socket) =>
      if Id(socket) !in r.connections then r
      else Registry(Without(r.connections, Id(socket)), r.notifications + [Disconnected(Id(socket))])
  }

  /** The state a running HTTP server holds for one endpoint, with a sink attached. */
  class BindingState {
    var active: bool
    var path: string
    var connections: seq<uint32>
    var notifications: seq<Notification>

    constructor ()
      ensures !active && path == "" && connections == [] && notifications == []
    {
      active, path, connections, notifications := false, "", [], [];
    }

    function Snapshot(): Registry
      reads this`connections, this`notifications
    {
      Registry(connections, notifications)
    }

    method Prepare(newPath: string) returns (result: WebResult)
      modifies this`path
      ensures result == if newPath == "" || newPath[0] != '/' then Failure(InvalidConfiguration)
                        else if active then Failure(AlreadyRunning) else Success
      ensures path == if result == Success then newPath else old(path)
    {
      if newPath == "" || newPath[0] != '/' { return Failure(InvalidConfiguration); }
      if active { return Failure(AlreadyRunning); }
      path := newPath;
      return Success;
    }

    method FindConnection(id: uint32) returns (at: nat)
      ensures at <= |connections| && id !in connections[..at]
      ensures at < |connections| ==> connections[at] == id
    {
      at := 0;
      while at < |connections|
        invariant at <= |connections| && id !in connections[..at]
      {
        if connections[at] == id { return; }
        at := at + 1;
      }
    }

    method EnsureConnection(socket: Socket, hasMemory: bool) returns (found: bool)
      modifies this`connections, this`notifications
      ensures Snapshot() == Ensured(old(Snapshot()), Id(socket), hasMemory)
      ensures found <==> Id(socket) in connections
    {
      var at := FindConnection(Id(socket));
      if at < |connections| { return true; }
      if !hasMemory { return false; }
      connections := connections + [Id(socket)];
      notifications := notifications + [Connected(Id(socket))];
      return true;
    }

    /** Connection handling of a request; the result is whether a tracked connection serves it. */
    method HandleWebSocketRequest(socket: Socket, upgrade: bool, isWebSocket: bool, hasMemory: bool)
      returns (served: bool)
      modifies this`connections, this`notifications
      ensures Snapshot() == Step(old(Snapshot()), Request(socket, active, upgrade, isWebSocket, hasMemory))
      ensures served <==> active && 0 <= socket && Id(socket) in connections
    {
      if !active { return false; }
      if socket < 0 { return false; }
      if upgrade {
        served := EnsureConnection(socket, hasMemory);
        return;
      }
      var at := FindConnection(Id(socket));
      if at < |connections| { return true; }
      if isWebSocket {
        served := EnsureConnection(socket, hasMemory);
        return;
      }
      return false;
    }

    method OnHttpSessionClosed(socket: Socket)
      modifies this`connections, this`notifications
      ensures Snapshot() == Step(old(Snapshot()), SessionClosed(socket))
      ensures notifications == old(notifications) +
                               if Id(socket) in old(connections) then [Disconnected(Id(socket))] else []
    {
      var at := FindConnection(Id(socket));
      if at == |connections| { return; }
      WithoutIsErase(connections, at);
      connections := connections[..at] + connections[at + 1..];
      notifications := notifications + [Disconnected(Id(socket))];
    }
  }

  lemma {:induction false} WithoutIsErase(connections: seq<uint32>, at: nat)
    requires at < |connections| && connections[at] !in connections[..at]
    ensures Without(connections, connections[at]) == connections[..at] + connections[at + 1..]
  {
    if at == 0 {
    } else {
      assert connections[..at][0] == connections[0];
      assert connections[1..][..at - 1] == connections[..at][1..];
      WithoutIsErase(connections[1..], at - 1);
    }
  }

  // ---- Any run ----

  function Run(events: seq<Event>): Registry
    decreases |events|
  {
    if events == [] then Registry([], []) else Step(Run(events[..|events| - 1]), events[|events| - 1])
  }

  predicate PairwiseDistinct(connections: seq<uint32>) {
    forall i, j :: 0 <= i < j < |connections| ==> connections[i] != connections[j]
  }

  /** Replays the notifications about one id: whether it is connected at the end, or nothing if they do not alternate
      starting with Connected. */
  function Replay(notifications: seq<Notification>, id: uint32): Option<bool>
    decreases |notifications|
  {
    if notifications == [] then Some(false)
    else
      var before := Replay(notifications[..|notifications| - 1], id);
      var last := notifications[|notifications| - 1];
      if last.id != id then before
      else if before == Some(last.Connected?) then None
      else if before == None then None
      else Some(last.Connected?)
  }

  ghost predicate Matched(r: Registry) {
    PairwiseDistinct(r.connections) && forall id: uint32 :: Replay(r.notifications, id) == Some(id in r.connections)
  }

  lemma {:induction false} WithoutOne(connections: seq<uint32>, id: uint32)
    requires PairwiseDistinct(connections)
    ensures PairwiseDistinct(Without(connections, id))
    ensures forall x: uint32 :: x in Without(connections, id) <==> x in connections && x != id
    decreases |connections|
  {
    if connections != [] {
      var rest := connections[1..];
      assert connections == [connections[0]] + rest;
      DistinctCons(connections[0], rest);
      if connections[0] != id {
        WithoutOne(rest, id);
        DistinctCons(connections[0], Without(rest, id));
      }
    }
  }

  lemma DistinctCons(first: uint32, rest: seq<uint32>)
    ensures PairwiseDistinct([first] + rest) <==> first !in rest && PairwiseDistinct(rest)
  {
    var all := [first] + rest;
    if PairwiseDistinct(all) {
      forall j | 0 <= j < |rest| ensures rest[j] != first { assert all[0] != all[j + 1]; }
      forall i, j | 0 <= i < j < |rest| ensures rest[i] != rest[j] { assert all[i + 1] != all[j + 1]; }
    }
  }

  lemma ReplayOneMore(notifications: seq<Notification>, last: Notification)
    ensures forall id: uint32 :: Replay(notifications + [last], id) ==
              if last.id != id then Replay(notifications, id)
              else if Replay(notifications, id) in {None, Some(last.Connected?)} then None
              else Some(last.Connected?)
  {
    assert (notifications + [last])[..|notifications|] == notifications;
  }

  /** Over every sequence of HTTPD calls, allocation failures included: tracked ids are pairwise distinct, the
      notifications about each socket alternate starting with Connected, and the tracked ids are exactly those whose
      last Connected has not been followed by a Disconnected. */
  lemma {:induction false} NotificationsMatchConnections(events: seq<Event>)
    ensures Matched(Run(events))
    decreases |events|
  {
    if events != [] {
      var before, last := Run(events[..|events| - 1]), events[|events| - 1];
      NotificationsMatchConnections(events[..|events| - 1]);
      StepKeepsMatched(before, last);
    }
  }

  lemma StepKeepsMatched(r: Registry, e: Event)
    requires Matched(r)
    ensures Matched(Step(r, e))
  {
    if Step(r, e) != r {
      match e
      case Request(socket, _, _, _, _) =>
        ReplayOneMore(r.notifications, Connected(Id(socket)));
      case SessionClosed(socket) =>
        WithoutOne(r.connections, Id(socket));
        ReplayOneMore(r.notifications, Disconnected(Id(socket)));
    }
  }

  // ---- Which sessions are tracked ----

  /** Sockets and ids correspond one to one. */
  lemma IdInjective(a: Socket, b: Socket)
    ensures Id(a) == Id(b) <==> a == b
  {
  }

  /** A request on the socket that the active binding takes and has memory for. */
  predicate Admits(e: Event, socket: Socket) {
    && e.Request? && e.socket == socket && 0 <= socket
    && e.bound && (e.upgrade || e.isWebSocket) && e.hasMemory
  }

  /** Some request on the socket was admitted since its session was last closed. */
  ghost predicate AdmittedSinceClose(events: seq<Event>, socket: Socket) {
    exists i :: 0 <= i < |events| && Admits(events[i], socket) &&
                forall j :: i < j < |events| ==> events[j] != SessionClosed(socket)
  }

  lemma AdmittedNext(events: seq<Event>, last: Event, socket: Socket)
    ensures AdmittedSinceClose(events + [last], socket) <==>
            Admits(last, socket) || (AdmittedSinceClose(events, socket) && last != SessionClosed(socket))
  {
    var all := events + [last];
    if Admits(last, socket) { assert Admits(all[|events|], socket); }
    if AdmittedSinceClose(events, socket) && last != SessionClosed(socket) {
      var i :| 0 <= i < |events| && Admits(events[i], socket) &&
               forall j :: i < j < |events| ==> events[j] != SessionClosed(socket);
      assert Admits(all[i], socket);
    }
    if AdmittedSinceClose(all, socket) && !Admits(last, socket) {
      var i :| 0 <= i < |all| && Admits(all[i], socket) &&
               forall j :: i < j < |all| ==> all[j] != SessionClosed(socket);
      assert Admits(events[i], socket) && all[|events|] == last;
      forall j | i < j < |events| ensures events[j] != SessionClosed(socket) { assert all[j] == events[j]; }
    }
  }

  /** Over every sequence of calls, a session is tracked exactly when some request on it was admitted since its last
      close. */
  lemma {:induction false} TrackedIffAdmitted(events: seq<Event>, socket: Socket)
    ensures Id(socket) in Run(events).connections <==> AdmittedSinceClose(events, socket)
    decreases |events|
  {
    if events != [] {
      hide Step, AdmittedSinceClose, Admits;
      var front, last := events[..|events| - 1], events[|events| - 1];
      TrackedIffAdmitted(front, socket);
      NotificationsMatchConnections(front);
      assert events == front + [last];
      AdmittedNext(front, last, socket);
      StepTracks(Run(front), last, socket);
    } else {
      assert Run(events).connections == [];
    }
  }

  lemma StepTracks(r: Registry, e: Event, socket: Socket)
    requires PairwiseDistinct(r.connections)
    ensures Id(socket) in Step(r, e).connections <==>
            Admits(e, socket) || (Id(socket) in r.connections && e != SessionClosed(socket))
  {
    IdInjective(e.socket, socket);
    if e.SessionClosed? { WithoutOne(r.connections, Id(e.socket)); }
  }

  /** What one more call tells: the close of a tracked session exactly one Disconnected, an admitted request on an
      untracked session exactly one Connected, and any other call nothing. */
  lemma OneMoreCallTells(events: seq<Event>, e: Event)
    ensures Run(events + [e]).notifications == Run(events).notifications +
            if e.SessionClosed? then (if AdmittedSinceClose(events, e.socket) then [Disconnected(Id(e.socket))] else [])
            else if Admits(e, e.socket) && !AdmittedSinceClose(events, e.socket) then [Connected(Id(e.socket))]
            else []
  {
    hide AdmittedSinceClose;
    TrackedIffAdmitted(events, e.socket);
    assert (events + [e])[..|events|] == events;
  }
}
