/** What the calls of the WiFi runtime come to: which of them begin an attempt, who has the last word over a run, and
    what the state shows. */
module WiFiCalls {
  import opened Bytes
  import opened Modular
  import opened Wrappers
  import opened WiFiBackoff
  import opened WiFiStations
  import opened WiFiRuntime

  // ---- Configurations ----

  lemma ModeRoles(mode: Mode)
    ensures UsesClient(mode) <==> mode in {Client, AccessPointClient, APUntilClient}
    ensures CanHostAP(mode) <==> mode in {AccessPoint, AccessPointClient, APUntilClient}
    ensures PersistentAP(mode) <==> CanHostAP(mode) && mode != APUntilClient
    ensures IsOff(mode) <==> !UsesClient(mode) && !CanHostAP(mode)
  {
  }

  /** A WPA passphrase has 8 to 63 characters; an open network has none. */
  predicate IsPassphrase(text: string) { |text| == 0 || 7 < |text| < 64 }

  lemma ValidIff(c: WiFiConfiguration)
    ensures Validate(c) <==>
            && (forall name :: name in [c.hostname, c.accessPoint.ssid, c.client.ssid] ==> |name| <= 32)
            && IsPassphrase(c.accessPoint.password) && IsPassphrase(c.client.password)
            && (forall p :: p in c.networks ==> |p.ssid| <= 32 && IsPassphrase(p.password))
            && c.accessPoint.channel in {1, 2, 3, 4, 5, 6, 7, 8, 9, 10, 11, 12, 13, 14}
            && c.accessPoint.maximumClients > 0
            && c.reconnect.multiplier >= 1.0 && c.reconnect.maximumDelay >= c.reconnect.initialDelay
  {
    forall p | p in c.networks ensures ValidateProfile(p) <==> |p.ssid| <= 32 && IsPassphrase(p.password) {}
  }

  // ---- Attempts ----

  /** The network's name is used and its address could be set. */
  predicate AcceptedConnect(r: Runtime, step: Step) {
    && UsesClient(r.config.mode) && r.config.clientEnabled
    && match step
       case ConnectClient(_, _) => r.config.client.ssid != ""
       case ConnectProfile(p, _, _) => p.enabled && p.ssid != "" && |p.ssid| <= 32 && IsPassphrase(p.password)
       case _ => false
  }

  /** Applying this configuration gets as far as the client, and the client is to connect by itself. */
  predicate ApplyConnects(c: WiFiConfiguration, modeSet: bool, addressSet: bool, apSet: bool) {
    && Validate(c) && modeSet && addressSet && UsesClient(c.mode)
    && c.clientEnabled && c.client.ssid != "" && !(c.automaticSelection && c.networks != [])
    && (c.mode == AccessPointClient ==> c.accessPoint.enabled && c.accessPoint.ssid != "" && apSet)
  }

  /** Exactly these calls begin an attempt; it carries the call's time and, unless a poll begins it, starts the count of
      attempts over. */
  lemma AttemptsBeginIff(r: Runtime, step: Step)
    ensures var after := Do(r, step);
            match step
            case Apply(c, modeSet, addressSet, apSet, now, view) =>
              if ApplyConnects(c, modeSet, addressSet, apSet)
              then after.begun == r.begun + 1 && after.attemptStarted == now && after.attempts == 0 &&
                   after.state.client.state == (if view.connected then Connected else Connecting)
              else after.begun == r.begun && after.attemptStarted == r.attemptStarted
            case ConnectClient(addressSet, now) =>
              if AcceptedConnect(r, step) && addressSet
              then after.begun == r.begun + 1 && after.attemptStarted == now && after.attempts == 0 &&
                   after.state.client.state == Connecting && after.state.client.reconnectAttempt == 0
              else after.begun == r.begun && after.attemptStarted == r.attemptStarted
            case ConnectProfile(profile, addressSet, now) =>
              if AcceptedConnect(r, step) && addressSet
              then after.begun == r.begun + 1 && after.attemptStarted == now && after.attempts == 0 &&
                   after.state.client.state == Connecting && after.state.client.reconnectAttempt == 0
              else after.begun == r.begun && after.attemptStarted == r.attemptStarted
            case Poll(status, now, later, view, _, _, _, _) =>
              if PollBegins(r, status, now)
              then after.begun == r.begun + 1 && after.attemptStarted == later && after.attempts == r.attempts
              else after.begun == r.begun && after.attemptStarted == r.attemptStarted
            case _ => after.begun == r.begun && after.attemptStarted == r.attemptStarted
  {
    match step
    case Apply(c, modeSet, addressSet, apSet, now, view) =>
      ApplyBeginsIff(r, c, modeSet, addressSet, apSet, now, view);
    case ConnectProfile(p, addressSet, _) =>
      assert ValidateProfile(p) <==> |p.ssid| <= 32 && IsPassphrase(p.password);
    case Poll(status, now, later, view, _, _, _, _) =>
      PollBeginsIff(r, status, now, later);
      hide PollReconnect, PollBegins, RefreshState;
      RefreshTouchesStateOnly(PollReconnect(r, status, now, later), view);
    case _ =>
  }

  /** A scheduled attempt is due, with the link down and the client to be kept connected. */
  predicate PollBegins(r: Runtime, status: Status, now: uint32) {
    && UsesClient(r.config.mode) && r.config.clientEnabled && !r.manual && ActiveSsid(r) != ""
    && status != LinkUp && r.state.client.state == Reconnecting && r.deadline != 0 && TimeReached(now, r.deadline)
  }

  lemma PollBeginsIff(r: Runtime, status: Status, now: uint32, later: uint32)
    ensures var after := PollReconnect(r, status, now, later);
            if PollBegins(r, status, now)
            then after.begun == r.begun + 1 && after.attemptStarted == later && after.attempts == r.attempts
            else after.begun == r.begun && after.attemptStarted == r.attemptStarted
  {
    hide Delay, TimeReached;
  }

  lemma ApplyBeginsIff(r: Runtime, c: WiFiConfiguration, modeSet: bool, addressSet: bool, apSet: bool, now: uint32,
                       view: View)
    ensures var after := DoApply(r, c, modeSet, addressSet, apSet, now, view);
            if ApplyConnects(c, modeSet, addressSet, apSet)
            then after.begun == r.begun + 1 && after.attemptStarted == now && after.attempts == 0 &&
                 after.state.client.state == (if view.connected then Connected else Connecting)
            else after.begun == r.begun && after.attemptStarted == r.attemptStarted
  {
    hide Validate, RefreshState;
    if Validate(c) {
      var next := Applied(r, c);
      RefreshTouchesStateOnly(next, view);
      RefreshTouchesStateOnly(BeginClient(next, false, now), view);
      RefreshShowsView(BeginClient(next, false, now), view);
    }
  }

  /** A first attempt begun at time `start` and polled without a link less than 2^32 milliseconds later: it runs on
      exactly when the native side has not given up and the timeout is not reached. Otherwise the next attempt is
      scheduled as after a lost link: not at all if reconnecting is disabled, and with the limit reached it fails. */
  lemma FirstAttemptEnds(r: Runtime, start: nat, time: nat, status: Status, later: uint32)
    requires Connectable(r) && r.state.client.state == Connecting && status != LinkUp
    requires r.attemptStarted == Clock(start) && start <= time < start + WRAP
    ensures var p, after := r.config.reconnect, PollReconnect(r, status, Clock(time), later);
            if status == OtherStatus && time - start < p.connectionTimeout then after == r
            else if !p.enabled then after.state.client.state == Disconnected && after.attempts == r.attempts
            else if p.maximumAttempts != 0 && r.attempts >= p.maximumAttempts then
              after.state.client.state == Failed && after.attempts == r.attempts
            else && after.state.client.state == Reconnecting && after.attempts == (r.attempts + 1) % WRAP
                 && after.deadline == Deadline(later, Delay(p, after.attempts))
  {
    ResidueDifference(start, time, WRAP);
    hide Delay, Deadline;
  }

  /** A poll whose first look finds the link up ends all reconnecting: nothing is counted and nothing scheduled. */
  lemma LinkUpEndsReconnecting(r: Runtime, now: uint32, later: uint32)
    requires Connectable(r)
    ensures PollReconnect(r, LinkUp, now, later) == r.(attempts := 0, deadline := 0)
    ensures forall t: uint32, s: uint32, status: Status ::
              PollReconnect(r, LinkUp, now, later).state.client.state == Reconnecting ==>
                PollReconnect(PollReconnect(r, LinkUp, now, later), status, t, s).begun == r.begun
  {
  }

  // ---- Who has the last word ----

  /** The application takes the client off the network, or puts it under the runtime's control again. */
  predicate TakesOff(r: Runtime, step: Step) { step.Disable? || (step.DisconnectClient? && UsesClient(r.config.mode)) }

  predicate GivesBack(r: Runtime, step: Step) {
    || (step.Apply? && Validate(step.configuration))
    || ((step.ConnectClient? || step.ConnectProfile?) && AcceptedConnect(r, step) && step.addressSet)
  }

  /** Whether the last of these calls took the client off. */
  function TakenOff(r: Runtime, steps: seq<Step>): bool
    decreases |steps|
  {
    if steps == [] then r.manual
    else
      var front, last := steps[..|steps| - 1], steps[|steps| - 1];
      if TakesOff(Run(r, front), last) then true
      else if GivesBack(Run(r, front), last) then false
      else TakenOff(r, front)
  }

  lemma {:induction false} ManualIffTakenOff(r: Runtime, steps: seq<Step>)
    ensures Run(r, steps).manual == TakenOff(r, steps)
    decreases |steps|
  {
    if steps != [] {
      hide Do, TakesOff, GivesBack;
      var front, last := steps[..|steps| - 1], steps[|steps| - 1];
      ManualIffTakenOff(r, front);
      ManualNext(Run(r, front), last);
    }
  }

  lemma ManualNext(r: Runtime, step: Step)
    ensures Do(r, step).manual == if TakesOff(r, step) then true else if GivesBack(r, step) then false else r.manual
  {
    hide Validate, RefreshState, PollReconnect;
    match step
    case Apply(c, _, _, _, now, view) =>
      if Validate(c) {
        RefreshTouchesStateOnly(Applied(r, c), view);
        RefreshTouchesStateOnly(BeginClient(Applied(r, c), false, now), view);
      }
    case ConnectProfile(p, _, _) =>
      assert ValidateProfile(p) <==> |p.ssid| <= 32 && IsPassphrase(p.password);
    case Poll(status, now, later, view, _, _, _, _) =>
      PollLeavesChoices(r, status, now, later);
      RefreshTouchesStateOnly(PollReconnect(r, status, now, later), view);
    case _ =>
  }

  lemma PollLeavesChoices(r: Runtime, status: Status, now: uint32, later: uint32)
    ensures var after := PollReconnect(r, status, now, later);
            && after.manual == r.manual && after.profile == r.profile && after.scanning == r.scanning
            && after.config == r.config && after.state.scan == r.state.scan && after.known == r.known
  {
    hide Delay, TimeReached;
  }

  /** The configuration in force: the last valid one that was applied, switched off since by a successful Disable. */
  function InForce(r: Runtime, steps: seq<Step>): Retained
    decreases |steps|
  {
    if steps == [] then r.config
    else
      var before := InForce(r, steps[..|steps| - 1]);
      match steps[|steps| - 1]
      case Apply(c, _, _, _, _, _) =>
        if Validate(c) then Retained(c.mode, c.clientEnabled, c.client, c.accessPoint, c.reconnect) else before
      case Disable(modeSet) => if modeSet then before.(mode := Off) else before
      case _ => before
  }

  /** The name of the network to connect to: the last one that Apply, ConnectClient or ConnectProfile chose, whether or
      not its address could then be set. */
  function Chosen(r: Runtime, steps: seq<Step>): string
    decreases |steps|
  {
    if steps == [] then ActiveSsid(r)
    else
      var front, last := steps[..|steps| - 1], steps[|steps| - 1];
      if last.Apply? && Validate(last.configuration) then last.configuration.client.ssid
      else if !AcceptedConnect(Run(r, front), last) then Chosen(r, front)
      else if last.ConnectProfile? then last.profile.ssid
      else InForce(r, front).client.ssid
  }

  lemma {:induction false} RunKeepsChoices(r: Runtime, steps: seq<Step>)
    ensures Run(r, steps).config == InForce(r, steps) && ActiveSsid(Run(r, steps)) == Chosen(r, steps)
    decreases |steps|
  {
    if steps != [] {
      hide Do, AcceptedConnect, ActiveSsid, Validate;
      var front, last := steps[..|steps| - 1], steps[|steps| - 1];
      RunKeepsChoices(r, front);
      ChoicesNext(Run(r, front), last);
    }
  }

  lemma ChoicesNext(r: Runtime, step: Step)
    ensures var after := Do(r, step);
            && after.config == (match step
                                case Apply(c, _, _, _, _, _) =>
                                  if Validate(c)
                                  then Retained(c.mode, c.clientEnabled, c.client, c.accessPoint, c.reconnect)
                                  else r.config
                                case Disable(modeSet) => if modeSet then r.config.(mode := Off) else r.config
                                case _ => r.config)
            && ActiveSsid(after) == if step.Apply? && Validate(step.configuration) then step.configuration.client.ssid
                                    else if !AcceptedConnect(r, step) then ActiveSsid(r)
                                    else if step.ConnectProfile? then step.profile.ssid
                                    else r.config.client.ssid
  {
    hide Validate, RefreshState, PollReconnect;
    match step
    case Apply(c, _, _, _, now, view) =>
      if Validate(c) {
        RefreshTouchesStateOnly(Applied(r, c), view);
        RefreshTouchesStateOnly(BeginClient(Applied(r, c), false, now), view);
      }
    case ConnectProfile(p, _, _) =>
      assert ValidateProfile(p) <==> |p.ssid| <= 32 && IsPassphrase(p.password);
    case Poll(status, now, later, view, _, _, _, _) =>
      PollLeavesChoices(r, status, now, later);
      RefreshTouchesStateOnly(PollReconnect(r, status, now, later), view);
    case _ =>
  }

  // ---- Scans ----

  /** Whether a native scan that was started is still awaited: no poll has seen its end, and neither Apply nor Disable
      gave it up. */
  function Awaited(r: Runtime, steps: seq<Step>): bool
    decreases |steps|
  {
    if steps == [] then r.scanning
    else
      var front, last := steps[..|steps| - 1], steps[|steps| - 1];
      match last
      case StartScan(started) => Awaited(r, front) || (started && !IsOff(Run(r, front).config.mode))
      case Poll(_, _, _, _, scanCount, _, _, _) => Awaited(r, front) && scanCount.None?
      case Apply(c, _, _, _, _, _) => Awaited(r, front) && !Validate(c)
      case Disable(_) => false
      case _ => Awaited(r, front)
  }

  lemma {:induction false} ScanningIffAwaited(r: Runtime, steps: seq<Step>)
    ensures Run(r, steps).scanning == Awaited(r, steps)
    decreases |steps|
  {
    if steps != [] {
      hide Do, Validate;
      var front, last := steps[..|steps| - 1], steps[|steps| - 1];
      ScanningIffAwaited(r, front);
      ScanNext(Run(r, front), last);
    }
  }

  lemma ScanNext(r: Runtime, step: Step)
    ensures Do(r, step).scanning ==
            match step
            case StartScan(started) => r.scanning || (started && !IsOff(r.config.mode))
            case Poll(_, _, _, _, scanCount, _, _, _) => r.scanning && scanCount.None?
            case Apply(c, _, _, _, _, _) => r.scanning && !Validate(c)
            case Disable(_) => false
            case _ => r.scanning
  {
    hide Validate, RefreshState, PollReconnect;
    match step
    case Apply(c, _, _, _, now, view) =>
      if Validate(c) {
        RefreshTouchesStateOnly(Applied(r, c), view);
        RefreshTouchesStateOnly(BeginClient(Applied(r, c), false, now), view);
      }
    case Poll(status, now, later, view, _, _, _, _) =>
      PollLeavesChoices(r, status, now, later);
      RefreshTouchesStateOnly(PollReconnect(r, status, now, later), view);
    case _ =>
  }

  /** A poll ends a running scan exactly when the native scan has ended: a count of networks completes it, an error
      fails it; nothing else in a poll touches the scan. */
  lemma PollEndsScan(r: Runtime, step: Step)
    requires step.Poll?
    ensures var after := Do(r, step);
            if r.scanning && step.scanCount.Some? then
              !after.scanning && after.state.scan == if step.scanCount.value >= 0 then Complete else ScanFailed
            else after.scanning == r.scanning && after.state.scan == r.state.scan
  {
    hide RefreshedClient, RefreshedAccessPoint, Delay, TimeReached, Deadline;
    var look := PollReconnect(r, step.status, step.now, step.later);
    assert look.scanning == r.scanning && look.state.scan == r.state.scan;
  }

  // ---- What the state shows ----

  /** After a refresh the state shows what the native side reports: a link as connected with its network name, signal,
      channel and address; without one the chosen name, no signal, and the state set before unless the application took
      the client off; the count of attempts; the access point exactly when it has an address and the mode hosts one. */
  lemma RefreshShowsView(r: Runtime, v: View)
    ensures var client := RefreshState(r, v).state.client;
            if !UsesClient(r.config.mode) then
              client.state == Inactive && client.ssid == "" && client.rssi == 0 && client.channel == 0
            else
              && client.network.address == v.network.address && client.reconnectAttempt == r.attempts
              && if v.connected then
                   client.state == Connected && client.ssid == v.ssid && client.rssi == v.rssi &&
                   client.channel == v.channel
                 else
                   client.state == (if r.manual then Disconnected else r.state.client.state) &&
                   client.ssid == ActiveSsid(r) && client.rssi == 0 && client.channel == 0
    ensures var ap, settings := RefreshState(r, v).state.accessPoint, r.config.accessPoint;
            && (ap.state == Active <==> CanHostAP(r.config.mode) && v.apAddress != 0)
            && (ap.state != Active ==> ap.state == Down && ap.connectedStations == 0 && ap.ssid == "")
            && (ap.state == Active ==> ap.network.address == v.apAddress && ap.connectedStations == v.stationCount &&
                                       ap.ssid == settings.ssid && ap.channel == settings.channel)
    ensures RefreshState(r, v).state.mode == r.config.mode && RefreshState(r, v).state.scan == r.state.scan
  {
  }

  /** A refresh raises the revision by one if it shows anything new, and a second one with the same view is quiet. */
  lemma RefreshSettles(r: Runtime, v: View)
    ensures var once := RefreshState(r, v);
            && once.state.revision == r.state.revision + (if once.state == r.state then 0 else 1)
            && RefreshState(once, v) == once
  {
  }

  /** Applying a valid configuration starts over whether or not it gets through, and once the mode could be set a mode
      without radio leaves nothing of the state before. */
  lemma ApplyStartsOver(r: Runtime, step: Step)
    requires step.Apply? && Validate(step.configuration)
    ensures var after, c := Do(r, step), step.configuration;
            && after.attempts == 0 && after.deadline == 0 && after.profile.None? && !after.manual && !after.scanning
            && (step.modeSet && c.mode in {Off, Mode.Disabled} ==>
                  after.known == [] && after.state.mode == c.mode && after.state.client.state == Inactive &&
                  after.state.accessPoint.state == Down && after.state.scan == Idle)
            && (ApplyConnects(c, step.modeSet, step.addressSet, step.apSet) ==>
                  after.state.mode == c.mode && after.known == r.known)
  {
    hide Validate, RefreshState;
    var next := Applied(r, step.configuration);
    RefreshTouchesStateOnly(next, step.view);
    RefreshTouchesStateOnly(BeginClient(next, false, step.now), step.view);
    RefreshShowsView(next, step.view);
    RefreshShowsView(BeginClient(next, false, step.now), step.view);
  }

  // ---- The known stations ----

  /** The calls that forget the known stations: stopping the access point, switching the radio off, and a poll with a
      sink that finds no access point. A poll that reads a list knows the listed ones; any other call keeps them. */
  lemma StationsKnown(r: Runtime, step: Step)
    ensures var hosts := r.config.mode in {AccessPoint, AccessPointClient, APUntilClient};
            Do(r, step).known ==
            match step
            case Apply(c, modeSet, _, _, _, _) =>
              if Validate(c) && modeSet && c.mode in {Off, Mode.Disabled} then [] else r.known
            case Disable(modeSet) => if modeSet then [] else r.known
            case StopAccessPoint(apStopped, modeSet) =>
              if hosts && apStopped && (r.config.mode == APUntilClient ==> modeSet) then [] else r.known
            case Poll(_, _, _, _, _, withEvents, apAddress, list) =>
              if !withEvents then r.known
              else if !hosts || apAddress == 0 then []
              else if list.Some? then list.value else r.known
            case _ => r.known
  {
    hide Validate, RefreshState, PollReconnect;
    match step
    case Apply(c, _, _, _, now, view) =>
      if Validate(c) {
        RefreshTouchesStateOnly(Applied(r, c), view);
        RefreshTouchesStateOnly(BeginClient(Applied(r, c), false, now), view);
      }
    case Poll(status, now, later, view, _, _, _, _) =>
      PollLeavesChoices(r, status, now, later);
      RefreshTouchesStateOnly(PollReconnect(r, status, now, later), view);
    case _ =>
  }
}
