/** The polled WiFi runtime: its entry points and polls as steps of one machine, with the revision counter that lets a
    caller tell whether the state changed, and the reconnect attempts. */
module WiFiRuntime {
  import opened Bytes
  import opened Wrappers
  import opened WiFiBackoff
  import opened WiFiStations

  // ---- Configuration ----

  datatype Mode = Disabled | Off | Client | AccessPoint | AccessPointClient | APUntilClient

  predicate PersistentAP(mode: Mode) { mode == AccessPoint || mode == AccessPointClient }
  predicate CanHostAP(mode: Mode) { PersistentAP(mode) || mode == APUntilClient }
  predicate UsesClient(mode: Mode) { mode == Client || mode == AccessPointClient || mode == APUntilClient }
  predicate IsOff(mode: Mode) { mode == Off || mode == Disabled }

  datatype Network = Network(address: uint32, gateway: uint32, subnetMask: uint32, primaryDns: uint32,
                             secondaryDns: uint32)

  const NO_NETWORK := Network(0, 0, 0, 0, 0)

  datatype Profile = Profile(enabled: bool, ssid: string, password: string)

  datatype AccessPointSettings = AccessPointSettings(enabled: bool, ssid: string, password: string, channel: byte,
                                                     maximumClients: byte, network: Network)

  datatype WiFiConfiguration = WiFiConfiguration(mode: Mode, hostname: string, clientEnabled: bool, client: Profile,
                                                 networks: seq<Profile>, automaticSelection: bool,
                                                 accessPoint: AccessPointSettings, reconnect: Policy)

  predicate ValidateCredential(password: string) { password == "" || 8 <= |password| <= 63 }

  predicate ValidateProfile(p: Profile) { |p.ssid| <= 32 && ValidateCredential(p.password) }

  predicate Validate(c: WiFiConfiguration) {
    && |c.hostname| <= 32 && |c.accessPoint.ssid| <= 32 && ValidateCredential(c.accessPoint.password)
    && ValidateProfile(c.client) && (forall i :: 0 <= i < |c.networks| ==> ValidateProfile(c.networks[i]))
    && 1 <= c.accessPoint.channel <= 14 && c.accessPoint.maximumClients != 0
    && ValidPolicy(c.reconnect)
  }

  /** What the platform keeps of a configuration. */
  datatype Retained = Retained(mode: Mode, clientEnabled: bool, client: Profile, accessPoint: AccessPointSettings,
                               reconnect: SoundPolicy)

  function Retain(c: WiFiConfiguration): Retained
    requires Validate(c)
  {
    Retained(c.mode, c.clientEnabled, c.client, c.accessPoint, c.reconnect)
  }

  predicate SelectsAutomatically(c: WiFiConfiguration) {
    UsesClient(c.mode) && c.clientEnabled && c.automaticSelection && c.networks != []
  }

  // ---- State ----

  /** `Inactive` is the state of a default-constructed client record. */
  datatype LinkState = Inactive | Connecting | Connected | Reconnecting | Disconnecting | Disconnected | Failed

  datatype AccessPointState = Down | Starting | Active | ApDisabled | ApFailed

  datatype ScanState = Idle | Scanning | Complete | ScanFailed

  datatype ClientInfo = ClientInfo(state: LinkState, ssid: string, rssi: int, channel: byte, network: Network,
                                   reconnectAttempt: uint32)

  datatype AccessPointInfo = AccessPointInfo(state: AccessPointState, ssid: string, channel: byte, network: Network,
                                             connectedStations: uint16)

  const NO_CLIENT := ClientInfo(Inactive, "", 0, 0, NO_NETWORK, 0)
  const NO_ACCESS_POINT := AccessPointInfo(Down, "", 0, NO_NETWORK, 0)

  datatype RuntimeState = RuntimeState(mode: Mode, client: ClientInfo, accessPoint: AccessPointInfo, scan: ScanState,
                                       revision: nat)

  /** The state after a reset to a mode without radio. */
  function OffState(mode: Mode): RuntimeState { RuntimeState(mode, NO_CLIENT, NO_ACCESS_POINT, Idle, 1) }

  /** The platform's fields, and `begun`, the number of connection attempts handed to the native side. */
  datatype Runtime = Runtime(config: Retained, state: RuntimeState, profile: Option<Profile>, manual: bool,
                             scanning: bool, attemptStarted: uint32, deadline: uint32, attempts: uint32,
                             known: seq<Mac>, begun: nat)

  function ActiveSsid(r: Runtime): string { if r.profile.Some? then r.profile.value.ssid else r.config.client.ssid }

  function WithLink(s: RuntimeState, link: LinkState): RuntimeState {
    s.(client := s.client.(state := link), revision := s.revision + 1)
  }

  function WithAccessPoint(s: RuntimeState, ap: AccessPointState): RuntimeState {
    s.(accessPoint := s.accessPoint.(state := ap), revision := s.revision + 1)
  }

  function WithScan(s: RuntimeState, scan: ScanState): RuntimeState {
    s.(scan := scan, revision := s.revision + 1)
  }

  // ---- Connecting ----

  function BeginClient(r: Runtime, reconnect: bool, now: uint32): Runtime {
    if ActiveSsid(r) == "" then r.(state := WithLink(r.state, Failed))
    else
      var s := WithLink(r.state, if reconnect then Reconnecting else Connecting);
      r.(state := s.(client := s.client.(reconnectAttempt := r.attempts)), attemptStarted := now, begun := r.begun + 1)
  }

  function ScheduleReconnect(r: Runtime, now: uint32): Runtime {
    if r.manual || !r.config.reconnect.enabled then r.(state := WithLink(r.state, Disconnected))
    else if r.config.reconnect.maximumAttempts != 0 && r.attempts >= r.config.reconnect.maximumAttempts then
      r.(state := WithLink(r.state, Failed))
    else
      var attempts := (r.attempts + 1) % WRAP;
      var s := WithLink(r.state, Reconnecting);
      r.(attempts := attempts, deadline := Deadline(now, Delay(r.config.reconnect, attempts)),
         state := s.(client := s.client.(reconnectAttempt := attempts)))
  }

  datatype Status = LinkUp | ConnectFailed | NoSsidAvailable | OtherStatus

  predicate Connectable(r: Runtime) {
    UsesClient(r.config.mode) && r.config.clientEnabled && !r.manual && ActiveSsid(r) != ""
  }

  /** `now` is read for the comparison, `later` by what the comparison sets off. */
  function PollReconnect(r: Runtime, status: Status, now: uint32, later: uint32): Runtime {
    if !Connectable(r) then r
    else if status == LinkUp then r.(attempts := 0, deadline := 0)
    else
      match r.state.client.state
      case Connected => ScheduleReconnect(r, now)
      case Connecting =>
        if status == ConnectFailed || status == NoSsidAvailable ||
           (now - r.attemptStarted) % WRAP >= r.config.reconnect.connectionTimeout then ScheduleReconnect(r, later)
        else r
      case Reconnecting =>
        if r.deadline != 0 && TimeReached(now, r.deadline) then BeginClient(r.(deadline := 0), true, later) else r
      case _ => r
  }

  // ---- Refreshing ----

  /** What the native side reports to one refresh. */
  datatype View = View(connected: bool, ssid: string, rssi: int, channel: byte, network: Network, apAddress: uint32,
                       stationCount: uint16)

  function RefreshedClient(r: Runtime, v: View): ClientInfo {
    if UsesClient(r.config.mode) then
      ClientInfo(if v.connected then Connected else if r.manual then Disconnected else r.state.client.state,
                 if v.connected then v.ssid else ActiveSsid(r), if v.connected then v.rssi else 0,
                 if v.connected then v.channel else 0, v.network, r.attempts)
    else NO_CLIENT
  }

  function RefreshedAccessPoint(r: Runtime, v: View): AccessPointInfo {
    if CanHostAP(r.config.mode) && v.apAddress != 0 then
      var ap := r.config.accessPoint;
      AccessPointInfo(Active, ap.ssid, ap.channel, ap.network.(address := v.apAddress), v.stationCount)
    else NO_ACCESS_POINT
  }

  /** Of the networks only the addresses count. */
  predicate StateChanged(a: RuntimeState, b: RuntimeState) {
    || a.mode != b.mode || a.client.state != b.client.state || a.client.ssid != b.client.ssid
    || a.client.rssi != b.client.rssi || a.client.channel != b.client.channel
    || a.client.network.address != b.client.network.address || a.client.reconnectAttempt != b.client.reconnectAttempt
    || a.accessPoint.state != b.accessPoint.state || a.accessPoint.ssid != b.accessPoint.ssid
    || a.accessPoint.channel != b.accessPoint.channel
    || a.accessPoint.connectedStations != b.accessPoint.connectedStations
    || a.accessPoint.network.address != b.accessPoint.network.address || a.scan != b.scan
  }

  function RefreshState(r: Runtime, v: View): Runtime {
    var next := RuntimeState(r.config.mode, RefreshedClient(r, v), RefreshedAccessPoint(r, v), r.state.scan,
                             r.state.revision + 1);
    if StateChanged(next, r.state) then r.(state := next) else r
  }

  /** `count` is the native scan's progress; None while it runs. */
  function PollScan(r: Runtime, count: Option<int>): Runtime {
    if !r.scanning || count.None? then r
    else r.(scanning := false, state := WithScan(r.state, if count.value < 0 then ScanFailed else Complete))
  }

  /** The known stations after a poll with an event sink; `list` is None when the native list cannot be read. */
  function PollStations(r: Runtime, apAddress: uint32, list: Option<seq<Mac>>): seq<Mac> {
    if !CanHostAP(r.config.mode) || apAddress == 0 then []
    else if list.None? then r.known else list.value
  }

  // ---- Every call as one step ----

  datatype Step =
    | Apply(configuration: WiFiConfiguration, modeSet: bool, addressSet: bool, apSet: bool, now: uint32, view: View)
    | Disable(modeSet: bool)
    | ConnectClient(addressSet: bool, now: uint32)
    | ConnectProfile(profile: Profile, addressSet: bool, now: uint32)
    | DisconnectClient
    | StartAccessPoint(modeSet: bool, apSet: bool)
    | StopAccessPoint(apStopped: bool, modeSet: bool)
    | StartScan(started: bool)
    | Poll(status: Status, now: uint32, later: uint32, view: View, scanCount: Option<int>, withEvents: bool,
           apAddress: uint32, list: Option<seq<Mac>>)

  function Applied(r: Runtime, c: WiFiConfiguration): Runtime
    requires Validate(c)
  {
    r.(config := Retain(c), manual := false, attempts := 0, deadline := 0, profile := None, scanning := false)
  }

  predicate ApSettingsUsable(r: Runtime) { r.config.accessPoint.enabled && r.config.accessPoint.ssid != "" }

  function DoApply(r: Runtime, c: WiFiConfiguration, modeSet: bool, addressSet: bool, apSet: bool, now: uint32,
                   view: View)
      : Runtime {
    if !Validate(c) then r
    else
      var next := Applied(r, c);
      if !modeSet then next
      else if IsOff(c.mode) then next.(state := OffState(c.mode), known := [])
      else if UsesClient(c.mode) && !SelectsAutomatically(c) && !addressSet then next
      else if PersistentAP(c.mode) && !(ApSettingsUsable(next) && apSet) then next
      else
        var begun := if UsesClient(c.mode) && c.clientEnabled && !SelectsAutomatically(c) && c.client.ssid != ""
                     then BeginClient(next, false, now) else next;
        RefreshState(begun, view)
  }

  function DoConnect(r: Runtime, profile: Option<Profile>, addressSet: bool, now: uint32): Runtime {
    var next := r.(profile := profile);
    if !addressSet then next else BeginClient(next.(manual := false, attempts := 0), false, now)
  }

  function Do(r: Runtime, step: Step): Runtime {
    match step
    case Apply(c, modeSet, addressSet, apSet, now, view) => DoApply(r, c, modeSet, addressSet, apSet, now, view)
    case Disable(modeSet) =>
      if modeSet then
        r.(manual := true, scanning := false, config := r.config.(mode := Off), state := OffState(Off), known := [])
      else r.(manual := true, scanning := false)
    case ConnectClient(addressSet, now) =>
      if !UsesClient(r.config.mode) || !r.config.clientEnabled || r.config.client.ssid == "" then r
      else DoConnect(r, None, addressSet, now)
    case ConnectProfile(profile, addressSet, now) =>
      if !UsesClient(r.config.mode) || !r.config.clientEnabled || !profile.enabled || profile.ssid == "" ||
         !ValidateProfile(profile) then r
      else DoConnect(r, Some(profile), addressSet, now)
    case DisconnectClient =>
      if !UsesClient(r.config.mode) then r
      else r.(manual := true, state := WithLink(WithLink(r.state, Disconnecting), Disconnected))
    case StartAccessPoint(modeSet, apSet) =>
      if !CanHostAP(r.config.mode) || !ApSettingsUsable(r) || (r.config.mode == APUntilClient && !modeSet) then r
      else r.(state := WithAccessPoint(WithAccessPoint(r.state, Starting), if apSet then Active else ApFailed))
    case StopAccessPoint(apStopped, modeSet) =>
      if !CanHostAP(r.config.mode) || !apStopped || (r.config.mode == APUntilClient && !modeSet) then r
      else
        var s := WithAccessPoint(r.state, ApDisabled);
        r.(state := s.(accessPoint := s.accessPoint.(network := NO_NETWORK)), known := [])
    case StartScan(started) =>
      if IsOff(r.config.mode) || r.scanning then r
      else r.(scanning := started, state := WithScan(r.state, if started then Scanning else ScanFailed))
    case Poll(status, now, later, view, scanCount, withEvents, apAddress, list) =>
      var polled := PollScan(RefreshState(PollReconnect(r, status, now, later), view), scanCount);
      if withEvents then polled.(known := PollStations(polled, apAddress, list)) else polled
  }

  function Run(r: Runtime, steps: seq<Step>): Runtime
    decreases |steps|
  {
    if steps == [] then r else Do(Run(r, steps[..|steps| - 1]), steps[|steps| - 1])
  }

  // ---- The revision ----

  predicate Resets(step: Step) {
    match step
    case Apply(c, modeSet, _, _, _, _) => Validate(c) && modeSet && IsOff(c.mode)
    case Disable(modeSet) => modeSet
    case _ => false
  }

  /** A state seen before, or one with a higher revision. */
  predicate Advances(before: RuntimeState, after: RuntimeState) {
    after == before || after.revision > before.revision
  }

  lemma StepAdvances(r: Runtime, step: Step)
    requires !Resets(step)
    ensures Advances(r.state, Do(r, step).state)
  {
    match step
    case Poll(status, now, later, view, scanCount, _, _, _) =>
      PollAdvances(r, status, now, later, view, scanCount);
    case Apply(c, modeSet, addressSet, apSet, now, view) =>
      ApplyAdvances(r, c, modeSet, addressSet, apSet, now, view);
    case _ =>
  }

  lemma RefreshAdvances(r: Runtime, v: View)
    ensures Advances(r.state, RefreshState(r, v).state)
  {
  }

  lemma PollAdvances(r: Runtime, status: Status, now: uint32, later: uint32, view: View, count: Option<int>)
    ensures Advances(r.state, PollScan(RefreshState(PollReconnect(r, status, now, later), view), count).state)
  {
    hide RefreshState, Delay;
    RefreshAdvances(PollReconnect(r, status, now, later), view);
  }

  lemma ApplyAdvances(r: Runtime, c: WiFiConfiguration, modeSet: bool, addressSet: bool, apSet: bool, now: uint32,
                      view: View)
    requires !(Validate(c) && modeSet && IsOff(c.mode))
    ensures Advances(r.state, DoApply(r, c, modeSet, addressSet, apSet, now, view).state)
  {
    hide RefreshState, Validate;
    if Validate(c) {
      RefreshAdvances(BeginClient(Applied(r, c), false, now), view);
      RefreshAdvances(Applied(r, c), view);
    }
  }

  /** The states seen before the first step and after each step. */
  function States(r: Runtime, steps: seq<Step>): (states: seq<RuntimeState>)
    ensures |states| == |steps| + 1 && states[|steps|] == Run(r, steps).state
    decreases |steps|
  {
    if steps == [] then [r.state] else States(r, steps[..|steps| - 1]) + [Run(r, steps).state]
  }

  ghost predicate Faithful(states: seq<RuntimeState>) {
    forall i, j :: 0 <= i <= j < |states| ==>
      && states[i].revision <= states[j].revision
      && (states[i].revision == states[j].revision ==> states[i] == states[j])
  }

  lemma FaithfulNext(states: seq<RuntimeState>, next: RuntimeState)
    requires Faithful(states) && states != [] && Advances(states[|states| - 1], next)
    ensures Faithful(states + [next])
  {
    forall i | 0 <= i < |states|
      ensures states[i].revision <= next.revision && (states[i].revision == next.revision ==> states[i] == next)
    {
      assert states[i].revision <= states[|states| - 1].revision;
    }
  }

  /** Over any run without a reset the revision never decreases, and two states with the same revision are equal. */
  lemma {:induction false} RevisionIdentifiesState(r: Runtime, steps: seq<Step>)
    requires forall k :: 0 <= k < |steps| ==> !Resets(steps[k])
    ensures Faithful(States(r, steps))
    decreases |steps|
  {
    hide Do, Resets;
    if steps != [] {
      var front, last := steps[..|steps| - 1], steps[|steps| - 1];
      RevisionIdentifiesState(r, front);
      StepAdvances(Run(r, front), last);
      FaithfulNext(States(r, front), Run(r, steps).state);
    }
  }

  /** A reset restarts the revision at 1, so it keeps the revision faithful exactly when nothing was counted yet or the
      state was already the reset one. */
  lemma ResetAdvancesIff(r: Runtime, step: Step)
    requires Resets(step)
    ensures var after := Do(r, step).state;
            && after.revision == 1
            && (Advances(r.state, after) <==> r.state.revision == 0 || r.state == after)
  {
  }

  /** Any run, resets included, has faithful revisions exactly when each step advances the state; by StepAdvances only a
      reset may fail to. */
  lemma {:induction false} RunFaithfulIff(r: Runtime, steps: seq<Step>)
    ensures Faithful(States(r, steps)) <==>
            forall k :: 0 <= k < |steps| ==> Advances(States(r, steps)[k], States(r, steps)[k + 1])
    decreases |steps|
  {
    hide Do, Faithful;
    var states := States(r, steps);
    if steps == [] {
      SingleFaithful(r.state);
    } else {
      var front := steps[..|steps| - 1];
      var before := States(r, front);
      RunFaithfulIff(r, front);
      assert states == before + [Run(r, steps).state] && states[..|before|] == before;
      assert forall k :: 0 <= k < |before| ==> states[k] == before[k];
      FaithfulNextIff(before, Run(r, steps).state);
    }
  }

  lemma SingleFaithful(state: RuntimeState)
    ensures Faithful([state])
  {
  }

  lemma FaithfulNextIff(states: seq<RuntimeState>, next: RuntimeState)
    requires states != []
    ensures Faithful(states + [next]) <==> Faithful(states) && Advances(states[|states| - 1], next)
  {
    var all := states + [next];
    if Faithful(states) && Advances(states[|states| - 1], next) { FaithfulNext(states, next); }
    if Faithful(all) {
      forall i, j | 0 <= i <= j < |states|
        ensures states[i].revision <= states[j].revision
        ensures states[i].revision == states[j].revision ==> states[i] == states[j]
      {
        assert all[i] == states[i] && all[j] == states[j];
      }
      assert all[|states| - 1] == states[|states| - 1] && all[|states|] == next;
    }
  }

  /** So a run is faithful exactly when each reset in it meets revision 0 or the very state it resets to. */
  lemma FaithfulUnlessReset(r: Runtime, steps: seq<Step>)
    ensures Faithful(States(r, steps)) <==>
            forall k :: 0 <= k < |steps| && Resets(steps[k]) ==>
              States(r, steps)[k].revision == 0 || States(r, steps)[k] == States(r, steps)[k + 1]
  {
    hide Do, Resets, Faithful, Advances;
    RunFaithfulIff(r, steps);
    forall k | 0 <= k < |steps|
      ensures Advances(States(r, steps)[k], States(r, steps)[k + 1]) <==>
              (Resets(steps[k]) ==> States(r, steps)[k].revision == 0 || States(r, steps)[k] == States(r, steps)[k + 1])
    {
      StateAfter(r, steps, k);
      StateAfter(r, steps, k + 1);
      RunNext(r, steps, k);
      if Resets(steps[k]) {
        ResetAdvancesIff(Run(r, steps[..k]), steps[k]);
      } else {
        StepAdvances(Run(r, steps[..k]), steps[k]);
      }
    }
  }

  lemma {:induction false} StateAfter(r: Runtime, steps: seq<Step>, k: nat)
    requires k <= |steps|
    ensures States(r, steps)[k] == Run(r, steps[..k]).state
    decreases |steps|
  {
    hide Do;
    if k == |steps| {
      assert steps[..k] == steps;
    } else {
      StateAfter(r, steps[..|steps| - 1], k);
      assert steps[..|steps| - 1][..k] == steps[..k];
    }
  }

  lemma RunNext(r: Runtime, steps: seq<Step>, k: nat)
    requires k < |steps|
    ensures Run(r, steps[..k + 1]) == Do(Run(r, steps[..k]), steps[k])
  {
    assert steps[..k + 1][..k] == steps[..k];
  }

  // ---- Reconnecting ----

  /** Attempts never pass a nonzero limit. */
  predicate WithinLimit(r: Runtime) {
    r.config.reconnect.maximumAttempts == 0 || r.attempts <= r.config.reconnect.maximumAttempts
  }

  lemma StepKeepsLimit(r: Runtime, step: Step)
    requires WithinLimit(r)
    ensures WithinLimit(Do(r, step))
  {
    hide RefreshState, Validate, PollReconnect;
    match step
    case Poll(status, now, later, view, _, _, _, _) =>
      PollKeepsLimit(r, status, now, later);
      RefreshTouchesStateOnly(PollReconnect(r, status, now, later), view);
    case Apply(c, modeSet, addressSet, apSet, now, view) =>
      if Validate(c) {
        RefreshTouchesStateOnly(Applied(r, c), view);
        RefreshTouchesStateOnly(BeginClient(Applied(r, c), false, now), view);
      }
    case _ =>
  }

  lemma RefreshTouchesStateOnly(r: Runtime, v: View)
    ensures RefreshState(r, v) == r.(state := RefreshState(r, v).state)
  {
    hide RefreshedClient, RefreshedAccessPoint, StateChanged;
  }

  lemma PollKeepsLimit(r: Runtime, status: Status, now: uint32, later: uint32)
    requires WithinLimit(r)
    ensures WithinLimit(PollReconnect(r, status, now, later))
  {
    hide Delay;
  }

  lemma {:induction false} AttemptsWithinLimit(r: Runtime, steps: seq<Step>)
    requires WithinLimit(r)
    ensures WithinLimit(Run(r, steps))
    decreases |steps|
  {
    hide Do, WithinLimit;
    if steps != [] {
      AttemptsWithinLimit(r, steps[..|steps| - 1]);
      StepKeepsLimit(Run(r, steps[..|steps| - 1]), steps[|steps| - 1]);
    }
  }

  /** A lost link schedules the next attempt: counted, its delay the policy's for that count, within its bounds. */
  lemma LostLinkSchedules(r: Runtime, status: Status, now: uint32, later: uint32)
    requires Connectable(r) && status != LinkUp && r.state.client.state == Connected && r.config.reconnect.enabled
    requires WithinLimit(r)
    ensures var p, after := r.config.reconnect, PollReconnect(r, status, now, later);
            if p.maximumAttempts != 0 && r.attempts == p.maximumAttempts
            then after.state.client.state == Failed && after.deadline == r.deadline && after.attempts == r.attempts
            else && after.state.client.state == Reconnecting && after.attempts == (r.attempts + 1) % WRAP
                 && exists delay: uint32 ::
                      && p.initialDelay <= delay <= p.maximumDelay && delay == Delay(p, after.attempts)
                      && after.deadline == Deadline(now, delay)
  {
    var p := r.config.reconnect;
    var attempts := (r.attempts + 1) % WRAP;
    DelaysGrowWithinBounds(p, attempts, attempts);
    assert p.initialDelay <= Delay(p, attempts) <= p.maximumDelay;
  }

  /** An attempt scheduled at time `start` begins at the first poll from its due time on, and no earlier, provided the
      delay is at most 2^31 milliseconds and the wrapped deadline is not 0. */
  lemma AttemptBeginsWhenDue(r: Runtime, start: nat, delay: uint32, time: nat, status: Status, later: uint32)
    requires Connectable(r) && r.state.client.state == Reconnecting && r.deadline == Deadline(Clock(start), delay)
    requires delay <= HALF && start <= time < start + delay + HALF && status != LinkUp
    ensures var after := PollReconnect(r, status, Clock(time), later);
            && (after.begun == r.begun + 1 <==> start + delay <= time && r.deadline != 0)
            && (after.begun != r.begun + 1 ==> after == r)
            && (after.begun == r.begun + 1 ==> after.deadline == 0 && after.state.client.state == Reconnecting)
  {
    DeadlineKeptIff(start, delay);
  }

  // ---- What runs count ----

  /** One attempt at most is counted, and none while the link is up or a first attempt runs. */
  predicate CountsOnce(r: Runtime) {
    && r.attempts <= 1 && (ActiveSsid(r) == "" ==> r.attempts == 0)
    && (Connectable(r) && r.state.client.state in {Connected, Connecting} ==> r.attempts == 0)
  }

  /** A poll whose refresh sees no link that its first look did not. */
  predicate SeesOneLink(step: Step) { step.Poll? && step.view.connected ==> step.status == LinkUp }

  lemma PollCountsOnce(r: Runtime, status: Status, now: uint32, later: uint32, view: View)
    requires CountsOnce(r) && (view.connected ==> status == LinkUp)
    ensures CountsOnce(RefreshState(PollReconnect(r, status, now, later), view))
  {
    hide Delay, TimeReached, StateChanged, RefreshedAccessPoint;
  }

  lemma RefreshCountsOnce(r: Runtime, view: View)
    requires CountsOnce(r) && r.attempts == 0
    ensures CountsOnce(RefreshState(r, view))
  {
    hide StateChanged, RefreshedAccessPoint, RefreshedClient;
  }

  lemma StepCountsOnce(r: Runtime, step: Step)
    requires CountsOnce(r) && SeesOneLink(step)
    ensures CountsOnce(Do(r, step))
  {
    hide RefreshState, PollReconnect, Validate;
    match step
    case Poll(status, now, later, view, scanCount, _, _, _) =>
      PollCountsOnce(r, status, now, later, view);
    case Apply(c, modeSet, addressSet, apSet, now, view) =>
      if Validate(c) {
        var next := Applied(r, c);
        RefreshCountsOnce(next, view);
        RefreshCountsOnce(BeginClient(next, false, now), view);
      }
    case _ =>
  }

  lemma {:induction false} RunCountsOnce(r: Runtime, steps: seq<Step>)
    requires CountsOnce(r) && forall k :: 0 <= k < |steps| ==> SeesOneLink(steps[k])
    ensures CountsOnce(Run(r, steps))
    decreases |steps|
  {
    hide Do, CountsOnce, SeesOneLink;
    if steps != [] {
      RunCountsOnce(r, steps[..|steps| - 1]);
      StepCountsOnce(Run(r, steps[..|steps| - 1]), steps[|steps| - 1]);
    }
  }

  /** What a poll does to the schedule: nothing, clearing it, or setting it by a delay for its count of attempts. */
  lemma PollSchedules(r: Runtime, status: Status, now: uint32, later: uint32)
    requires CountsOnce(r)
    ensures var after, p := PollReconnect(r, status, now, later), r.config.reconnect;
            && (after.deadline in {r.deadline, 0, Deadline(now, p.initialDelay), Deadline(later, p.initialDelay)})
            && (after.state.client.state == Failed ==> r.state.client.state == Failed)
  {
    DelaysGrowWithinBounds(r.config.reconnect, 1, 1);
    hide Delay, TimeReached;
  }

  /** Reconnecting tries once and does not back off: in every run whose polls see one link, from a state that counts at
      most one attempt, every deadline a poll sets is the initial delay away and no poll fails the client, whatever the
      multiplier and the attempt limit. */
  lemma NoBackoffInRuns(r: Runtime, steps: seq<Step>, k: nat)
    requires CountsOnce(r) && (forall i :: 0 <= i < |steps| ==> SeesOneLink(steps[i]))
    requires k < |steps| && steps[k].Poll?
    ensures var before, step := Run(r, steps[..k]), steps[k];
            var after, initial := PollReconnect(before, step.status, step.now, step.later),
                                  before.config.reconnect.initialDelay;
            && after.attempts <= 1
            && after.deadline in {before.deadline, 0, Deadline(step.now, initial), Deadline(step.later, initial)}
            && (after.state.client.state == Failed ==> before.state.client.state == Failed)
  {
    hide Do, PollReconnect, Deadline;
    RunCountsOnce(r, steps[..k]);
    var step := steps[k];
    assert SeesOneLink(step);
    PollSchedules(Run(r, steps[..k]), step.status, step.now, step.later);
    LookCountsOnce(Run(r, steps[..k]), step.status, step.now, step.later);
  }

  lemma LookCountsOnce(r: Runtime, status: Status, now: uint32, later: uint32)
    requires CountsOnce(r)
    ensures PollReconnect(r, status, now, later).attempts <= 1
  {
    hide Delay, TimeReached;
  }

  /** A poll whose look misses a link that its refresh sees. */
  predicate Flickers(step: Step) { step.Poll? && step.status != LinkUp && step.view.connected }

  type Flicker = step: Step | Flickers(step)
    witness Poll(OtherStatus, 0, 0, View(true, "", 0, 0, NO_NETWORK, 0, 0), None, false, 0, None)

  /** Connected as far as the state says, with room for so many more attempts. */
  predicate MayCount(r: Runtime, more: nat) {
    && Connectable(r) && r.state.client.state == Connected && r.config.reconnect.enabled && r.attempts + more < WRAP
    && (r.config.reconnect.maximumAttempts != 0 ==> r.attempts + more <= r.config.reconnect.maximumAttempts)
  }

  lemma FlickerCounts(r: Runtime, step: Flicker)
    requires MayCount(r, 1)
    ensures var after := Do(r, step);
            && after.config == r.config && after.attempts == r.attempts + 1
            && after.deadline == Deadline(step.now, Delay(r.config.reconnect, r.attempts + 1))
            && Connectable(after) && after.state.client.state == Connected
  {
    hide Delay, TimeReached, Deadline, RefreshedAccessPoint;
    var look := PollReconnect(r, step.status, step.now, step.later);
    assert (r.attempts + 1) % WRAP == r.attempts + 1;
    assert look.attempts == r.attempts + 1 && look.state.client.state == Reconnecting;
  }

  /** Only polls that miss the link make the backoff count: each such poll counts one attempt and sets the deadline by
      the delay for that count, up to the limit. */
  lemma {:induction false} FlickersBackOff(r: Runtime, steps: seq<Flicker>)
    requires MayCount(r, |steps|)
    ensures var after := Run(r, steps);
            && after.config == r.config && after.attempts == r.attempts + |steps|
            && Connectable(after) && after.state.client.state == Connected
            && (steps != [] ==>
                  after.deadline == Deadline(steps[|steps| - 1].now, Delay(r.config.reconnect, after.attempts)))
    decreases |steps|
  {
    if steps != [] {
      hide Do, Delay, Deadline, Connectable;
      var front, last := steps[..|steps| - 1], steps[|steps| - 1];
      FlickersBackOff(r, front);
      FlickerCounts(Run(r, front), last);
    }
  }

  /** The multiplier matters there: after so many misses in a row the deadline is the maximum delay away. */
  lemma FlickersSaturate(r: Runtime, steps: seq<Flicker>)
    requires MayCount(r, |steps|) && steps != [] && Saturated(r.config.reconnect, r.attempts + |steps|)
    ensures Run(r, steps).deadline == Deadline(steps[|steps| - 1].now, r.config.reconnect.maximumDelay)
  {
    hide Run, Deadline, Saturated, Delay, Connectable;
    FlickersBackOff(r, steps);
    BackoffSaturates(r.config.reconnect, r.attempts + |steps|);
  }

  predicate Reconnects(step: Step) { step.Apply? || step.ConnectClient? || step.ConnectProfile? }

  /** After DisconnectClient (or Disable) nothing begins an attempt until ConnectClient or Apply. */
  lemma {:induction false} ManualDisconnectHolds(r: Runtime, steps: seq<Step>)
    requires r.manual
    requires forall k :: 0 <= k < |steps| ==> !Reconnects(steps[k])
    ensures var after := Run(r, steps); after.manual && after.begun == r.begun
    decreases |steps|
  {
    hide Do;
    if steps != [] {
      ManualDisconnectHolds(r, steps[..|steps| - 1]);
      QuietStep(Run(r, steps[..|steps| - 1]), steps[|steps| - 1]);
    }
  }

  lemma QuietStep(r: Runtime, step: Step)
    requires r.manual && !Reconnects(step)
    ensures Do(r, step).manual && Do(r, step).begun == r.begun
  {
    hide RefreshedClient, RefreshedAccessPoint, StateChanged, Delay;
  }

  /** A poll whose native side reports no link. */
  predicate WithoutLink(step: Step) { step.Poll? && step.status != LinkUp && !step.view.connected }

  /** Waiting to reconnect with no deadline: after a reconnect attempt has begun, or when a deadline wrapped to 0. No
      poll begins another attempt or leaves this state until the link comes up by itself. */
  predicate Waiting(r: Runtime) {
    r.state.client.state == Reconnecting && r.deadline == 0 && !r.manual && UsesClient(r.config.mode)
  }

  lemma {:induction false} WaitingLastsUntilLink(r: Runtime, steps: seq<Step>)
    requires Waiting(r)
    requires forall k :: 0 <= k < |steps| ==> WithoutLink(steps[k])
    ensures var after := Run(r, steps); Waiting(after) && after.begun == r.begun && after.attempts == r.attempts
    decreases |steps|
  {
    hide Do, Waiting;
    if steps != [] {
      WaitingLastsUntilLink(r, steps[..|steps| - 1]);
      assert WithoutLink(steps[|steps| - 1]);
      WaitingStep(Run(r, steps[..|steps| - 1]), steps[|steps| - 1]);
    }
  }

  lemma WaitingStep(r: Runtime, step: Step)
    requires Waiting(r) && WithoutLink(step)
    ensures var after := Do(r, step); Waiting(after) && after.begun == r.begun && after.attempts == r.attempts
  {
    hide RefreshedAccessPoint, Delay;
  }

  // ---- Station events of runs ----

  /** The station events of one step. */
  function StationEvents(r: Runtime, step: Step): seq<StationEvent> {
    if step.Poll? && step.withEvents && CanHostAP(r.config.mode) && step.apAddress != 0 && step.list.Some?
    then EventsOf(r.known, step.list.value) else []
  }

  function AllStationEvents(r: Runtime, steps: seq<Step>): seq<StationEvent>
    decreases |steps|
  {
    if steps == [] then []
    else
      var front := steps[..|steps| - 1];
      AllStationEvents(r, front) + StationEvents(Run(r, front), steps[|steps| - 1])
  }

  /** A call while the access point stays up: nothing that may take it down, and polls with a sink see its address and
      lists without duplicates. Polls without a sink may see anything. */
  predicate KeepsAccessPoint(step: Step) {
    && !step.Apply? && !step.Disable? && !step.StopAccessPoint?
    && (step.Poll? && step.withEvents ==> step.apAddress != 0 && (step.list.Some? ==> Distinct(step.list.value)))
  }

  type CalmStep = step: Step | KeepsAccessPoint(step) witness DisconnectClient

  /** The native lists that the polls with a sink read. */
  function ListsOf(steps: seq<CalmStep>): seq<Option<StationList>>
    decreases |steps|
  {
    if steps == [] then []
    else
      var last := steps[|steps| - 1];
      ListsOf(steps[..|steps| - 1]) +
      if last.Poll? && last.withEvents then [if last.list.Some? then Some(last.list.value) else None] else []
  }

  lemma PollReconnectKeeps(r: Runtime, status: Status, now: uint32, later: uint32)
    ensures PollReconnect(r, status, now, later).config == r.config &&
            PollReconnect(r, status, now, later).known == r.known
  {
    hide Delay, TimeReached;
  }

  lemma CalmStepStations(r: Runtime, step: CalmStep)
    requires CanHostAP(r.config.mode)
    ensures var after := Do(r, step);
            && after.config == r.config
            && after.known == if step.Poll? && step.withEvents && step.list.Some? then step.list.value else r.known
    ensures StationEvents(r, step) == if step.Poll? && step.withEvents && step.list.Some?
                                      then EventsOf(r.known, step.list.value) else []
  {
    hide RefreshState, PollReconnect, EventsOf;
    if step.Poll? {
      var polled := PollReconnect(r, step.status, step.now, step.later);
      PollReconnectKeeps(r, step.status, step.now, step.later);
      RefreshTouchesStateOnly(polled, step.view);
    }
  }

  lemma {:induction false} CalmRunStations(r: Runtime, steps: seq<CalmStep>)
    requires CanHostAP(r.config.mode)
    ensures Run(r, steps).config == r.config && Run(r, steps).known == KnownAfter(r.known, ListsOf(steps))
    ensures AllStationEvents(r, steps) == AllEvents(r.known, ListsOf(steps))
    decreases |steps|
  {
    if steps != [] {
      hide Do, EventsOf, StationEvents, CanHostAP, KeepsAccessPoint, ListsOf, AllEvents, KnownAfter;
      var front, last := steps[..|steps| - 1], steps[|steps| - 1];
      assert steps == front + [last];
      CalmRunStations(r, front);
      CalmStepStations(Run(r, front), last);
      ListsNext(r.known, front, last);
    }
  }

  /** One more step: its list, if it reads one. */
  lemma ListsNext(known: seq<Mac>, front: seq<CalmStep>, last: CalmStep)
    ensures var before, lists := ListsOf(front), ListsOf(front + [last]);
            && KnownAfter(known, lists) == (if last.Poll? && last.withEvents && last.list.Some? then last.list.value
                                            else KnownAfter(known, before))
            && AllEvents(known, lists) == AllEvents(known, before) +
                 if last.Poll? && last.withEvents && last.list.Some?
                 then EventsOf(KnownAfter(known, before), last.list.value) else []
  {
    hide EventsOf;
    var before, lists := ListsOf(front), ListsOf(front + [last]);
    assert (front + [last])[..|front|] == front;
    if last.Poll? && last.withEvents {
      assert lists[..|before|] == before;
    } else {
      assert lists == before;
    }
  }

  /** Over any run of calls while the access point stays up, applying the station events to the stations known at first
      gives the stations known at last, each station's events alternating. */
  lemma RunEventsReplay(r: Runtime, steps: seq<CalmStep>)
    requires CanHostAP(r.config.mode) && Distinct(r.known)
    ensures Replay(SetOf(r.known), AllStationEvents(r, steps)) == Some(SetOf(Run(r, steps).known))
  {
    hide Run, AllStationEvents;
    CalmRunStations(r, steps);
    RunReplays(r.known, ListsOf(steps));
  }

  // ---- Station events when the access point goes down ----

  /** The step reads a native list and derives events from it. */
  predicate ReadsStations(r: Runtime, step: Step) {
    step.Poll? && step.withEvents && CanHostAP(r.config.mode) && step.apAddress != 0 && step.list.Some?
  }

  type ListStep = step: Step | step.Poll? && step.list.Some? ==> Distinct(step.list.value) witness DisconnectClient

  /** A step that reads no list derives no event; it keeps the known stations or, when the access point is down or goes
      down, forgets them. */
  lemma StepStations(r: Runtime, step: Step)
    ensures StationEvents(r, step) == if ReadsStations(r, step) then EventsOf(r.known, step.list.value) else []
    ensures var known := Do(r, step).known;
            if ReadsStations(r, step) then known == step.list.value else known == r.known || known == []
  {
    hide RefreshState, PollReconnect, EventsOf, Validate;
    match step
    case Poll(status, now, later, view, _, _, _, _) =>
      PollReconnectKeeps(r, status, now, later);
      RefreshTouchesStateOnly(PollReconnect(r, status, now, later), view);
    case Apply(c, _, _, _, now, view) =>
      if Validate(c) {
        RefreshTouchesStateOnly(Applied(r, c), view);
        RefreshTouchesStateOnly(BeginClient(Applied(r, c), false, now), view);
      }
    case _ =>
  }

  /** The stations forgotten without a Disconnected event. */
  function Stale(r: Runtime, steps: seq<Step>): set<Mac>
    decreases |steps|
  {
    if steps == [] then {}
    else
      var front := steps[..|steps| - 1];
      var before := Run(r, front);
      Stale(r, front) +
      if ReadsStations(before, steps[|steps| - 1]) then {} else SetOf(before.known) - SetOf(Run(r, steps).known)
  }

  /** No list that is read holds a station forgotten before. */
  ghost predicate NoneReturns(r: Runtime, steps: seq<Step>)
    decreases |steps|
  {
    steps == [] ||
    var front, last := steps[..|steps| - 1], steps[|steps| - 1];
    && NoneReturns(r, front)
    && (ReadsStations(Run(r, front), last) ==> SetOf(last.list.value) !! Stale(r, front))
  }

  /** Over any run of calls, the access point going down included, each station's events alternate exactly when no
      station that was forgotten when it went down is ever listed again; the forgotten ones then stay connected for a
      listener. */
  lemma {:induction false} RunAlternatesIff(r: Runtime, steps: seq<ListStep>)
    requires Distinct(r.known)
    ensures Follows(Replay(SetOf(r.known), AllStationEvents(r, steps)), NoneReturns(r, steps), Run(r, steps).known,
                    Stale(r, steps))
    decreases |steps|
  {
    hide Follows, Do, StationEvents, ReadsStations, Replay;
    if steps == [] {
      FollowsAtFirst(r.known);
    } else {
      var front, last := steps[..|steps| - 1], steps[|steps| - 1];
      RunAlternatesIff(r, front);
      FollowsNext(Run(r, front), last, SetOf(r.known), AllStationEvents(r, front), NoneReturns(r, front),
                  Stale(r, front));
    }
  }

  /** What a listener made of the events so far: the known stations and, apart from them, the forgotten ones if the
      events alternate, and nothing if they do not. */
  ghost predicate Follows(heard: Option<set<Mac>>, alternates: bool, known: seq<Mac>, stale: set<Mac>) {
    && Distinct(known) && (alternates ==> SetOf(known) !! stale)
    && heard == if alternates then Some(SetOf(known) + stale) else None
  }

  lemma FollowsAtFirst(known: seq<Mac>)
    requires Distinct(known)
    ensures Follows(Replay(SetOf(known), []), true, known, {})
  {
    assert SetOf(known) + {} == SetOf(known);
  }

  lemma FollowsNext(r: Runtime, step: ListStep, start: set<Mac>, events: seq<StationEvent>, alternates: bool,
                    stale: set<Mac>)
    requires Follows(Replay(start, events), alternates, r.known, stale)
    ensures var taken, known := ReadsStations(r, step), Do(r, step).known;
            Follows(Replay(start, events + StationEvents(r, step)),
                    alternates && (taken ==> SetOf(step.list.value) !! stale), known,
                    stale + if taken then {} else SetOf(r.known) - SetOf(known))
  {
    hide Do, EventsOf, StationEvents;
    StepStations(r, step);
    ReplayJoin(start, events, StationEvents(r, step));
    if ReadsStations(r, step) {
      hide Replay;
      assert stale + {} == stale;
      ReadReplays(r, step, stale);
    } else {
      ForgetsReplay(SetOf(r.known), SetOf(Do(r, step).known), stale);
    }
  }

  lemma ReadReplays(r: Runtime, step: ListStep, stale: set<Mac>)
    requires ReadsStations(r, step) && Distinct(r.known)
    ensures Distinct(step.list.value)
    ensures SetOf(r.known) !! stale ==>
              Replay(SetOf(r.known) + stale, EventsOf(r.known, step.list.value)) ==
              if SetOf(step.list.value) !! stale then Some(SetOf(step.list.value) + stale) else None
  {
    if SetOf(r.known) !! stale { DistinctListReplays(stale, r.known, step.list.value); }
  }

  lemma ForgetsReplay(before: set<Mac>, after: set<Mac>, stale: set<Mac>)
    requires after == before || after == {}
    ensures forall now :: Replay(now, []) == Some(now)
    ensures before + stale == after + (stale + (before - after))
    ensures before !! stale ==> after !! stale + (before - after)
  {
  }

  /** The limit and the revision, in one step. */
  lemma StepKeepsPromises(r: Runtime, step: Step)
    requires WithinLimit(r)
    ensures WithinLimit(Do(r, step))
    ensures Resets(step) || Advances(r.state, Do(r, step).state)
  {
    hide Do, Resets, WithinLimit, Advances;
    StepKeepsLimit(r, step);
    if !Resets(step) { StepAdvances(r, step); }
  }
}
