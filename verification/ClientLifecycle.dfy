/** The WebSocket client's lifecycle: Connect and Disconnect on an application thread against the native event task.
    Every section under the client's mutex is one step; native stop and destroy are steps of their own. */
module ClientLifecycle {
  import opened Bytes
  import opened Wrappers

  const NORMAL: uint16 := 1000
  const ABNORMAL: uint16 := 1006

  datatype CloseReason = CloseReason(code: uint16, text: seq<byte>)

  const DEFAULT_REASON := CloseReason(NORMAL, [])

  /** The text "connection lost". */
  const CONNECTION_LOST: seq<byte> :=
    [0x63, 0x6F, 0x6E, 0x6E, 0x65, 0x63, 0x74, 0x69, 0x6F, 0x6E, 0x20, 0x6C, 0x6F, 0x73, 0x74]

  /** What a section decides to tell the sink. */
  datatype Decision = Connected | Disconnected(reason: CloseReason)

  /** The fields under the mutex. `connection` is the connection object, if any, by its open flag; `notified` is
      whether the present link's end has been told. */
  datatype Shared = Shared(client: Option<nat>, connection: Option<bool>, connected: bool, disconnecting: bool,
                           notified: bool, eventTask: Option<nat>, requested: CloseReason, peer: CloseReason)

  const FRESH := Shared(None, None, false, false, true, None, DEFAULT_REASON, DEFAULT_REASON)

  // ---- The sections under the mutex ----

  function Closed(connection: Option<bool>): Option<bool> {
    if connection.Some? then Some(false) else None
  }

  predicate MayConnect(s: Shared) { s.client.None? && !s.disconnecting }

  function Started(s: Shared, handle: nat): Shared {
    Shared(Some(handle), Some(false), false, s.disconnecting, true, None, DEFAULT_REASON, DEFAULT_REASON)
  }

  /** Connect's fields are reset before the native start; its failure takes the client back. */
  function StartFailed(s: Shared): Shared {
    Shared(None, None, false, s.disconnecting, true, None, DEFAULT_REASON, DEFAULT_REASON)
  }

  predicate MayDisconnect(s: Shared, task: nat) {
    s.client.Some? && !s.disconnecting && s.eventTask != Some(task)
  }

  function Finished(s: Shared, client: nat, wasConnected: bool): Shared {
    s.(client := if s.client == Some(client) then None else s.client, connected := false,
       connection := Closed(s.connection), eventTask := None, disconnecting := false,
       notified := s.notified || wasConnected)
  }

  /** Disconnect itself tells the sink when it saw the link connected and nobody has told its end. */
  function FinishDecides(s: Shared, wasConnected: bool, reason: CloseReason): seq<Decision> {
    if wasConnected && !s.notified then [Disconnected(CloseReason(reason.code, s.requested.text))] else []
  }

  predicate AcceptsConnected(s: Shared) { s.client.Some? && s.connection.Some? }

  function AfterConnected(s: Shared): Shared {
    if AcceptsConnected(s)
    then s.(connected := true, notified := false, connection := Some(true), peer := DEFAULT_REASON)
    else s
  }

  function AfterDisconnected(s: Shared): Shared {
    s.(connected := false, connection := Closed(s.connection), notified := true)
  }

  function EndReason(s: Shared, clean: bool): CloseReason {
    if !clean then CloseReason(ABNORMAL, CONNECTION_LOST)
    else if s.peer != DEFAULT_REASON then s.peer
    else s.requested
  }

  // ---- The two threads together ----

  datatype Stage = Stopping | Destroying | Finishing

  /** A Disconnect call between its two sections. */
  datatype Flight = Flight(client: nat, wasConnected: bool, reason: CloseReason, stage: Stage)

  /** `live` holds the native handles initialised and not yet passed to destroy; `epochStart` is how many decisions
      preceded the last native start. */
  datatype World = World(shared: Shared, flights: seq<Flight>, decisions: seq<Decision>, epochStart: nat,
                         live: set<nat>, destroyed: seq<nat>, nextHandle: nat)

  const INITIAL := World(FRESH, [], [], 0, {}, [], 0)

  datatype ConnectOutcome = Rejected | InitFails | RegisterFails | StartFails | Starts

  datatype Step =
    | Connect(outcome: ConnectOutcome)
    | DisconnectBegins(task: nat, reason: CloseReason)
    | NativeStops(at: nat)
    | NativeDestroys(at: nat)
    | DisconnectFinishes(at: nat)
    | EventStarts(task: nat)
    | HandlesConnected
    | HandlesDisconnected(clean: bool)
    | PeerCloses(reason: CloseReason)
    | ResetEnds

  function Do(w: World, step: Step): World {
    match step
    case Connect(outcome) => if MayConnect(w.shared) then Connecting(w, outcome) else w
    case DisconnectBegins(task, reason) =>
      if MayDisconnect(w.shared, task) then
        w.(shared := w.shared.(disconnecting := true, requested := reason),
           flights := w.flights + [Flight(w.shared.client.value, w.shared.connected, reason, Stopping)])
      else w
    case NativeStops(at) =>
      if at < |w.flights| && w.flights[at].stage == Stopping then Staged(w, at, Destroying) else w
    case NativeDestroys(at) =>
      if at < |w.flights| && w.flights[at].stage == Destroying then
        Staged(w, at, Finishing).(live := w.live - {w.flights[at].client},
                                  destroyed := w.destroyed + [w.flights[at].client])
      else w
    case DisconnectFinishes(at) =>
      if at < |w.flights| && w.flights[at].stage == Finishing then Finishes(w, at) else w
    case EventStarts(task) =>
      if w.shared.eventTask.None? then w.(shared := w.shared.(eventTask := Some(task))) else w
    case HandlesConnected =>
      w.(shared := AfterConnected(w.shared),
         decisions := w.decisions + if AcceptsConnected(w.shared) then [Connected] else [])
    case HandlesDisconnected(clean) =>
      w.(shared := AfterDisconnected(w.shared),
         decisions := w.decisions + if w.shared.notified then [] else [Disconnected(EndReason(w.shared, clean))])
    case PeerCloses(reason) => w.(shared := w.shared.(peer := reason))
    case ResetEnds => w.(shared := w.shared.(connection := None))
  }

  function Staged(w: World, at: nat, stage: Stage): World
    requires at < |w.flights|
  {
    w.(flights := w.flights[at := w.flights[at].(stage := stage)])
  }

  function Connecting(w: World, outcome: ConnectOutcome): World {
    match outcome
    case Rejected => w
    case InitFails => w
    case RegisterFails => w.(destroyed := w.destroyed + [w.nextHandle], nextHandle := w.nextHandle + 1)
    case StartFails =>
      w.(shared := StartFailed(w.shared), epochStart := |w.decisions|,
         destroyed := w.destroyed + [w.nextHandle], nextHandle := w.nextHandle + 1)
    case Starts =>
      w.(shared := Started(w.shared, w.nextHandle), epochStart := |w.decisions|,
         live := w.live + {w.nextHandle}, nextHandle := w.nextHandle + 1)
  }

  function Finishes(w: World, at: nat): World
    requires at < |w.flights|
  {
    var f := w.flights[at];
    w.(shared := Finished(w.shared, f.client, f.wasConnected), flights := w.flights[..at] + w.flights[at + 1..],
       decisions := w.decisions + FinishDecides(w.shared, f.wasConnected, f.reason))
  }

  function Run(w: World, steps: seq<Step>): World
    decreases |steps|
  {
    if steps == [] then w else Do(Run(w, steps[..|steps| - 1]), steps[|steps| - 1])
  }

  // ---- What every step keeps ----

  /** Handles: at most one Disconnect is under way; the one live handle is the client's until destroy takes it; every
      handle ever initialised is either that one or was destroyed exactly once. */
  ghost predicate HandlesOwned(w: World) {
    && |w.flights| <= 1 && (w.flights != [] <==> w.shared.disconnecting)
    && (w.flights != [] ==> w.shared.client == Some(w.flights[0].client))
    && w.live == (if w.shared.client.Some? && !(w.flights != [] && w.flights[0].stage == Finishing)
                  then {w.shared.client.value} else {})
    && (w.shared.client.Some? ==> w.shared.client.value < w.nextHandle)
    && (forall h :: h in w.destroyed <==> 0 <= h < w.nextHandle && h !in w.live)
    && Distinct(w.destroyed)
  }

  ghost predicate Distinct(handles: seq<nat>) {
    forall i, j :: 0 <= i < j < |handles| ==> handles[i] != handles[j]
  }

  lemma DistinctNext(handles: seq<nat>, next: nat)
    requires Distinct(handles) && next !in handles
    ensures Distinct(handles + [next])
  {
  }

  /** Decisions: each Disconnected comes right after a Connected of the same start, and `notified` says whether the
      last decision since the start is a Connected still unmatched. */
  ghost predicate DecisionsPaired(w: World) {
    && w.epochStart <= |w.decisions|
    && (!w.shared.notified <==> w.epochStart < |w.decisions| && w.decisions[|w.decisions| - 1] == Connected)
    && (w.shared.connected ==> !w.shared.notified)
    && (w.shared.connection.Some? ==> w.shared.connection.value == w.shared.connected)
    && (forall f :: f in w.flights && f.wasConnected ==> w.epochStart < |w.decisions|)
    && (forall f :: f in w.flights ==> f.reason == w.shared.requested)
    && Paired(w.decisions)
  }

  ghost predicate Paired(decisions: seq<Decision>) {
    forall i :: 0 <= i < |decisions| && decisions[i].Disconnected? ==> 0 < i && decisions[i - 1] == Connected
  }

  lemma PairedLonger(decisions: seq<Decision>, more: seq<Decision>)
    requires Paired(decisions) && |more| <= 1
    requires more == [] || more[0] == Connected || (decisions != [] && decisions[|decisions| - 1] == Connected)
    ensures Paired(decisions + more)
  {
  }

  lemma StepKeepsHandles(w: World, step: Step)
    requires HandlesOwned(w)
    ensures HandlesOwned(Do(w, step))
  {
    match step
    case Connect(outcome) => ConnectKeepsHandles(w, outcome);
    case NativeDestroys(at) => DestroyKeepsHandles(w, at);
    case DisconnectFinishes(at) =>
    case _ =>
  }

  lemma ConnectKeepsHandles(w: World, outcome: ConnectOutcome)
    requires HandlesOwned(w)
    ensures HandlesOwned(Do(w, Connect(outcome)))
  {
    hide Distinct;
    DistinctNext(w.destroyed, w.nextHandle);
  }

  lemma DestroyKeepsHandles(w: World, at: nat)
    requires HandlesOwned(w)
    ensures HandlesOwned(Do(w, NativeDestroys(at)))
  {
    hide Distinct;
    if at < |w.flights| && w.flights[at].stage == Destroying { DistinctNext(w.destroyed, w.flights[at].client); }
  }

  lemma StepKeepsDecisions(w: World, step: Step)
    requires HandlesOwned(w) && DecisionsPaired(w)
    ensures DecisionsPaired(Do(w, step))
  {
    hide Paired;
    var after := Do(w, step);
    assert w.decisions <= after.decisions;
    PairedLonger(w.decisions, after.decisions[|w.decisions|..]);
    assert w.decisions + after.decisions[|w.decisions|..] == after.decisions;
  }

  lemma StepKeepsInvariant(w: World, step: Step)
    requires HandlesOwned(w) && DecisionsPaired(w)
    ensures HandlesOwned(Do(w, step)) && DecisionsPaired(Do(w, step))
  {
    hide HandlesOwned, DecisionsPaired;
    StepKeepsHandles(w, step);
    StepKeepsDecisions(w, step);
  }

  lemma ConnectChanges(w: World, outcome: ConnectOutcome)
    ensures var after := Do(w, Connect(outcome));
            && after.decisions == w.decisions
            && after.shared == if !MayConnect(w.shared) then w.shared
                               else if outcome == Starts then Started(w.shared, w.nextHandle)
                               else if outcome == StartFails then StartFailed(w.shared) else w.shared
  {
  }

  lemma FinishChanges(w: World)
    requires |w.flights| == 1 && w.flights[0].stage == Finishing
    ensures var after, f := Do(w, DisconnectFinishes(0)), w.flights[0];
            && after.shared == Finished(w.shared, f.client, f.wasConnected)
            && after.decisions == w.decisions + FinishDecides(w.shared, f.wasConnected, f.reason)
  {
  }

  /** A call that nothing interrupts reaches its last section with what its first section saw. */
  lemma UninterruptedFlight(w: World, task: nat, reason: CloseReason)
    requires HandlesOwned(w) && MayDisconnect(w.shared, task)
    ensures var begun := Do(w, DisconnectBegins(task, reason));
            var after := Do(Do(begun, NativeStops(0)), NativeDestroys(0));
            && begun.flights == [Flight(w.shared.client.value, w.shared.connected, reason, Stopping)]
            && after.flights == [Flight(w.shared.client.value, w.shared.connected, reason, Finishing)]
            && after.shared == begun.shared && after.decisions == w.decisions
  {
    var begun := Do(w, DisconnectBegins(task, reason));
    var stopped := Do(begun, NativeStops(0));
    assert stopped.flights == [Flight(w.shared.client.value, w.shared.connected, reason, Destroying)];
    assert Do(stopped, NativeDestroys(0)).flights ==
           [Flight(w.shared.client.value, w.shared.connected, reason, Finishing)];
  }

  lemma RefusedStays(w: World, task: nat, reason: CloseReason)
    ensures !MayDisconnect(w.shared, task) ==> Do(w, DisconnectBegins(task, reason)) == w
  {
  }

  lemma ConnectedIsUntold(w: World)
    requires DecisionsPaired(w)
    ensures w.shared.connected ==> !w.shared.notified
  {
  }

  /** The call under way stops and destroys the present client, for its own reason. */
  lemma UnderwayIsClient(w: World)
    requires HandlesOwned(w) && DecisionsPaired(w) && w.flights != []
    ensures w.shared.client == Some(w.flights[0].client) && w.shared.requested == w.flights[0].reason
  {
  }

  /** In every interleaving of the application thread with the event task: at most one native client is live, each is
      destroyed at most once, and no two Disconnected decisions occur without a Connected between them. */
  lemma {:induction false} RunKeepsInvariant(steps: seq<Step>)
    ensures var w := Run(INITIAL, steps); HandlesOwned(w) && DecisionsPaired(w)
    decreases |steps|
  {
    if steps != [] {
      var before := steps[..|steps| - 1];
      RunKeepsInvariant(before);
      StepKeepsHandles(Run(INITIAL, before), steps[|steps| - 1]);
      StepKeepsDecisions(Run(INITIAL, before), steps[|steps| - 1]);
    }
  }

  // ---- How a Disconnect ends ----

  ghost predicate Reachable(w: World) {
    exists steps :: w == Run(INITIAL, steps)
  }

  /** The last Connected of this start has been answered by a Disconnected, or there was none. */
  ghost predicate Matched(w: World) {
    |w.decisions| <= w.epochStart || w.decisions[|w.decisions| - 1].Disconnected?
  }

  /** A Disconnect that finishes leaves no client, no live handle and no other call under way, and leaves every
      Connected matched exactly when it had seen the link connected or somebody else had already told its end. */
  lemma FinishMatchesIff(w: World, at: nat)
    requires Reachable(w) && at < |w.flights| && w.flights[at].stage == Finishing
    ensures var after := Do(w, DisconnectFinishes(at));
            && after.shared.client.None? && !after.shared.disconnecting && !after.shared.connected
            && after.shared.eventTask.None? && after.live == {} && after.flights == []
            && w.flights[at].client in after.destroyed
            && (Matched(after) <==> w.flights[at].wasConnected || w.shared.notified)
  {
    var steps :| w == Run(INITIAL, steps);
    RunKeepsInvariant(steps);
  }

  /** A Disconnect that saw the link connected ends with a Disconnected as the last decision of that start; when the
      call tells it itself, it carries the reason given to that call. */
  lemma ConnectedDisconnectIsMatched(w: World, at: nat)
    requires Reachable(w) && at < |w.flights| && w.flights[at].stage == Finishing && w.flights[at].wasConnected
    ensures var after := Do(w, DisconnectFinishes(at));
            && w.epochStart < |after.decisions| && after.decisions[|after.decisions| - 1].Disconnected?
            && after.decisions == w.decisions + if w.shared.notified then [] else [Disconnected(w.flights[at].reason)]
  {
    var steps :| w == Run(INITIAL, steps);
    RunKeepsInvariant(steps);
  }

  /** A link that comes up after Disconnect looked, and whose end nobody tells before the call finishes, is still
      unmatched when it has finished. */
  lemma LateConnectedOutlivesDisconnect(reason: CloseReason)
    ensures var w := Run(INITIAL, [Connect(Starts), DisconnectBegins(1, reason), HandlesConnected, NativeStops(0),
                                   NativeDestroys(0), DisconnectFinishes(0)]);
            w.decisions == [Connected] && w.shared.client.None? && !w.shared.notified && !Matched(w)
  {
    hide Do;
    var s1, s2, s3 := Connect(Starts), DisconnectBegins(1, reason), HandlesConnected;
    var s4, s5, s6 := NativeStops(0), NativeDestroys(0), DisconnectFinishes(0);
    assert [] + [s1, s2, s3] == [s1, s2, s3];
    RunThree(INITIAL, [], s1, s2, s3);
    RunThree(INITIAL, [s1, s2, s3], s4, s5, s6);
    assert [s1, s2, s3] + [s4, s5, s6] == [s1, s2, s3, s4, s5, s6];
    LateConnected(reason);
    DisconnectWithoutLink(Do(Do(Do(INITIAL, s1), s2), s3), reason);
  }

  lemma LateConnected(reason: CloseReason)
    ensures var w := Do(Do(Do(INITIAL, Connect(Starts)), DisconnectBegins(1, reason)), HandlesConnected);
            w.decisions == [Connected] && w.flights == [Flight(0, false, reason, Stopping)] && w.epochStart == 0 &&
            w.shared.client == Some(0) && !w.shared.notified
  {
  }

  /** A Disconnect that saw no link runs to its end without telling the sink anything. */
  lemma DisconnectWithoutLink(w: World, reason: CloseReason)
    requires w.shared.client.Some? && w.flights == [Flight(w.shared.client.value, false, reason, Stopping)]
    ensures var after := Do(Do(Do(w, NativeStops(0)), NativeDestroys(0)), DisconnectFinishes(0));
            && after.decisions == w.decisions && after.epochStart == w.epochStart
            && after.shared.client.None? && after.shared.notified == w.shared.notified
  {
    var gone := Do(Do(w, NativeStops(0)), NativeDestroys(0));
    assert gone.flights == [Flight(w.shared.client.value, false, reason, Finishing)];
  }

  lemma RunThree(w: World, steps: seq<Step>, a: Step, b: Step, c: Step)
    ensures Run(w, steps + [a, b, c]) == Do(Do(Do(Run(w, steps), a), b), c)
  {
    hide Do;
    assert (steps + [a, b, c])[..|steps| + 2] == steps + [a, b];
    assert (steps + [a, b])[..|steps| + 1] == steps + [a];
    assert (steps + [a])[..|steps|] == steps;
    assert Run(w, steps + [a]) == Do(Run(w, steps), a);
    assert Run(w, steps + [a, b]) == Do(Run(w, steps + [a]), b);
  }

  /** The end of a link, whenever it is handled, matches its Connected: before a Disconnect under way finishes, or
      after. */
  lemma DisconnectedMatches(w: World, clean: bool)
    requires Reachable(w)
    ensures var after := Do(w, HandlesDisconnected(clean));
            && Matched(after)
            && (Matched(w) ==> after.decisions == w.decisions)
            && (!Matched(w) ==> |after.decisions| == |w.decisions| + 1 && w.decisions <= after.decisions &&
                                after.decisions[|w.decisions|].Disconnected?)
  {
    var steps :| w == Run(INITIAL, steps);
    RunKeepsInvariant(steps);
    MatchedIsNotified(w);
  }

  // ---- Which calls are refused ----

  /** The thread of the first event since the object got its client, if any arrived. */
  function EventThread(steps: seq<Step>): Option<nat>
    decreases |steps|
  {
    if steps == [] || GetsClient(steps) then None
    else
      var before, last := EventThread(steps[..|steps| - 1]), steps[|steps| - 1];
      if before.None? && last.EventStarts? then Some(last.task) else before
  }

  lemma {:induction false} EventThreadKept(steps: seq<Step>)
    ensures Run(INITIAL, steps).shared.client.Some? ==> Run(INITIAL, steps).shared.eventTask == EventThread(steps)
    decreases |steps|
  {
    if steps != [] {
      hide HandlesOwned;
      var front, last := steps[..|steps| - 1], steps[|steps| - 1];
      EventThreadKept(front);
      RunKeepsInvariant(front);
      StepKeepsThread(Run(INITIAL, front), last);
    }
  }

  lemma StepKeepsThread(w: World, step: Step)
    requires HandlesOwned(w)
    ensures var after := Do(w, step);
            after.shared.client.Some? ==>
              after.shared.eventTask == if w.shared.client.None? then None
                                        else if w.shared.eventTask.None? && step.EventStarts? then Some(step.task)
                                        else w.shared.eventTask
  {
  }

  /** A Disconnect gets under way exactly when there is a client, no other call is under way, and it is not called on
      the thread of the client's own events, which its native stop would wait for. */
  lemma DisconnectBeginsIff(steps: seq<Step>, task: nat, reason: CloseReason)
    ensures var w := Run(INITIAL, steps);
            var after := Do(w, DisconnectBegins(task, reason));
            && (after.flights != w.flights <==>
                w.shared.client.Some? && w.flights == [] && EventThread(steps) != Some(task))
            && (after.flights != w.flights ==>
                  after.flights == [Flight(w.shared.client.value, w.shared.connected, reason, Stopping)])
            && (after.flights == w.flights ==> after == w)
  {
    RunKeepsInvariant(steps);
    EventThreadKept(steps);
  }

  /** A Connect starts a client exactly when there is none, and native init, registration and start succeed; a client
      that was initialised but not started is destroyed. */
  lemma ConnectStartsIff(steps: seq<Step>, outcome: ConnectOutcome)
    ensures var w := Run(INITIAL, steps);
            var after := Do(w, Connect(outcome));
            if w.shared.client.None? && outcome == Starts then
              && after.shared.client == Some(w.nextHandle) && after.live == {w.nextHandle}
              && !after.shared.connected && after.flights == []
            else
              && after.shared.client == w.shared.client && after.live == w.live
              && after.destroyed == w.destroyed + if w.shared.client.None? && outcome in {RegisterFails, StartFails}
                                                  then [w.nextHandle] else []
  {
    RunKeepsInvariant(steps);
  }

  // ---- Which reason the end of a link is told with ----

  /** The last step of the run tells a Connected. */
  predicate TellsConnected(steps: seq<Step>)
    requires steps != []
  {
    Run(INITIAL, steps).decisions == Run(INITIAL, steps[..|steps| - 1]).decisions + [Connected]
  }

  /** What the peer gave as its reason since the last Connected, if anything: the last one. */
  function PeerSaid(steps: seq<Step>): Option<CloseReason>
    decreases |steps|
  {
    if steps == [] || TellsConnected(steps) then None
    else if steps[|steps| - 1].PeerCloses? then Some(steps[|steps| - 1].reason)
    else PeerSaid(steps[..|steps| - 1])
  }

  /** The last step of the run gives the object a client. */
  predicate GetsClient(steps: seq<Step>)
    requires steps != []
  {
    Run(INITIAL, steps).shared.client.Some? && Run(INITIAL, steps[..|steps| - 1]).shared.client.None?
  }

  /** The last step of the run is a Disconnect that is not refused: it is under way afterwards. */
  predicate BeginsDisconnect(steps: seq<Step>)
    requires steps != []
  {
    steps[|steps| - 1].DisconnectBegins? &&
    |Run(INITIAL, steps).flights| > |Run(INITIAL, steps[..|steps| - 1]).flights|
  }

  /** What the application gave as its reason since the last start, if anything: the last one. */
  function ApplicationSaid(steps: seq<Step>): Option<CloseReason>
    decreases |steps|
  {
    if steps == [] || GetsClient(steps) then None
    else if BeginsDisconnect(steps) then Some(steps[|steps| - 1].reason)
    else ApplicationSaid(steps[..|steps| - 1])
  }

  function OrElse(said: Option<CloseReason>, other: CloseReason): CloseReason {
    if said.Some? then said.value else other
  }

  /** While a link is up or its end untold, the fields hold what peer and application said. */
  ghost predicate ReasonsKept(w: World, peer: Option<CloseReason>, application: Option<CloseReason>) {
    && (!w.shared.notified ==> w.shared.peer == OrElse(peer, DEFAULT_REASON))
    && (!w.shared.notified || w.shared.client.Some? ==> w.shared.requested == OrElse(application, DEFAULT_REASON))
  }

  lemma {:induction false} RunKeepsReasons(steps: seq<Step>)
    ensures ReasonsKept(Run(INITIAL, steps), PeerSaid(steps), ApplicationSaid(steps))
    decreases |steps|
  {
    if steps != [] {
      var front, last := steps[..|steps| - 1], steps[|steps| - 1];
      RunKeepsReasons(front);
      RunKeepsInvariant(front);
      StepKeepsReasons(Run(INITIAL, front), last, PeerSaid(front), ApplicationSaid(front));
    }
  }

  lemma StepKeepsReasons(w: World, step: Step, peer: Option<CloseReason>, application: Option<CloseReason>)
    requires HandlesOwned(w) && DecisionsPaired(w) && ReasonsKept(w, peer, application)
    ensures var after := Do(w, step);
            ReasonsKept(after,
                        if after.decisions == w.decisions + [Connected] then None
                        else if step.PeerCloses? then Some(step.reason) else peer,
                        if after.shared.client.Some? && w.shared.client.None? then None
                        else if step.DisconnectBegins? && |after.flights| > |w.flights| then Some(step.reason)
                        else application)
  {
  }

  /** The end of a link that is still to be told: a lost link is told with 1006 and "connection lost", a clean end with
      what the peer said last since the Connected if that was not 1000 without text, and otherwise with what the
      application said last since the start, or 1000 without text. */
  lemma EndIsToldWithReason(steps: seq<Step>, clean: bool)
    requires !Matched(Run(INITIAL, steps))
    ensures var w := Run(INITIAL, steps);
            var (peer, application) := (PeerSaid(steps), ApplicationSaid(steps));
            Run(INITIAL, steps + [HandlesDisconnected(clean)]).decisions == w.decisions + [Disconnected(
              if !clean then
                CloseReason(1006, [0x63, 0x6F, 0x6E, 0x6E, 0x65, 0x63, 0x74, 0x69, 0x6F, 0x6E, 0x20,
                                   0x6C, 0x6F, 0x73, 0x74])
              else if peer.Some? && peer.value != CloseReason(1000, []) then peer.value
              else if application.Some? then application.value
              else CloseReason(1000, []))]
  {
    RunKeepsInvariant(steps);
    RunKeepsReasons(steps);
    MatchedIsNotified(Run(INITIAL, steps));
    assert (steps + [HandlesDisconnected(clean)])[..|steps|] == steps;
  }

  lemma MatchedIsNotified(w: World)
    requires DecisionsPaired(w)
    ensures Matched(w) <==> w.shared.notified
  {
  }

  /** A Connected left unmatched by a Disconnect is matched exactly when, before a Connect tries to start the next
      client, the native side still reports the link's end. */
  lemma {:induction false} UnmatchedUntilDisconnected(w: World, steps: seq<Step>)
    requires HandlesOwned(w) && DecisionsPaired(w) && w.shared.client.None? && !Matched(w)
    requires forall k :: 0 <= k < |steps| ==> !StartsEpoch(steps[k])
    ensures var after := Run(w, steps);
            && HandlesOwned(after) && DecisionsPaired(after) && after.shared.client.None?
            && (Matched(after) <==> exists k :: 0 <= k < |steps| && steps[k].HandlesDisconnected?)
    decreases |steps|
  {
    if steps != [] {
      hide Do, HandlesOwned, DecisionsPaired, Matched;
      var before, last := steps[..|steps| - 1], steps[|steps| - 1];
      UnmatchedUntilDisconnected(w, before);
      assert steps == before + [last] && !StartsEpoch(last);
      StepKeepsInvariant(Run(w, before), last);
      MatchedIsNotified(Run(w, before));
      MatchedIsNotified(Run(w, steps));
      IdleStep(Run(w, before), last);
    }
  }

  predicate StartsEpoch(step: Step) { step == Connect(Starts) || step == Connect(StartFails) }

  lemma IdleStep(w: World, step: Step)
    requires HandlesOwned(w) && w.shared.client.None? && !StartsEpoch(step)
    ensures var after := Do(w, step);
            && after.shared.client.None?
            && after.shared.notified == (w.shared.notified || step.HandlesDisconnected?)
  {
  }

  predicate Starting(step: Step) { step == Connect(Starts) }

  /** Once a Disconnect has finished, nothing is told to the sink as connected until the next Connect starts a client:
      at most the end of an unmatched link can still be told. */
  lemma {:induction false} NothingConnectsWithoutConnect(w: World, steps: seq<Step>)
    requires HandlesOwned(w) && DecisionsPaired(w) && w.shared.client.None?
    requires forall k :: 0 <= k < |steps| ==> !Starting(steps[k])
    ensures var after := Run(w, steps);
            && HandlesOwned(after) && DecisionsPaired(after)
            && after.shared.client.None? && after.live == {} && w.decisions <= after.decisions
            && forall i :: |w.decisions| <= i < |after.decisions| ==> after.decisions[i].Disconnected?
    decreases |steps|
  {
    hide Do, DecisionsPaired;
    if steps == [] {
      assert HandlesOwned(w);
    } else {
      var before, last := steps[..|steps| - 1], steps[|steps| - 1];
      NothingConnectsWithoutConnect(w, before);
      hide HandlesOwned;
      assert !Starting(last);
      StepKeepsInvariant(Run(w, before), last);
      QuietStep(Run(w, before), last);
    }
  }

  lemma QuietStep(w: World, step: Step)
    requires HandlesOwned(w) && w.shared.client.None? && !Starting(step)
    ensures var after := Do(w, step);
            && after.shared.client.None? && after.live == {}
            && (after.decisions == w.decisions ||
                (|after.decisions| == |w.decisions| + 1 && w.decisions <= after.decisions &&
                 after.decisions[|w.decisions|].Disconnected?))
  {
  }
}
