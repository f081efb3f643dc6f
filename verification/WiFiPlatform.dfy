/** The WiFi platform object, each of its calls tied to the runtime machine. */
module WiFiPlatform {
  import opened Bytes
  import opened Wrappers
  import opened WiFiBackoff
  import opened WiFiStations
  import R = WiFiRuntime

  datatype WiFiStatus = Success | InvalidConfiguration | PlatformError | NotSupported | Busy

  class WiFiPlatform {
    var configuration: R.Retained
    var state: R.RuntimeState
    var activeProfile: Option<R.Profile>
    var manualDisconnect: bool
    var scanRunning: bool
    var attemptStarted: uint32
    var nextReconnect: uint32
    var reconnectAttempts: uint32
    var knownStations: seq<Mac>
    /** How many connection attempts the native side was handed. */
    var begun: nat

    function Snapshot(): R.Runtime
      reads this
    {
      R.Runtime(configuration, state, activeProfile, manualDisconnect, scanRunning, attemptStarted, nextReconnect,
                reconnectAttempts, knownStations, begun)
    }

    /** Attempts stay within the configured limit. */
    ghost predicate Valid()
      reads this
    {
      R.WithinLimit(Snapshot())
    }

    /** The default configuration and state come from the WiFi library. */
    constructor (configuration: R.Retained, state: R.RuntimeState)
      ensures Valid() && Snapshot() == R.Runtime(configuration, state, None, false, false, 0, 0, 0, [], 0)
      ensures R.CountsOnce(Snapshot())
    {
      this.configuration, this.state, activeProfile := configuration, state, None;
      manualDisconnect, scanRunning := false, false;
      attemptStarted, nextReconnect, reconnectAttempts, knownStations, begun := 0, 0, 0, [], 0;
    }

    // ---- Connecting ----

    method SetLink(link: R.LinkState)
      modifies this`state
      ensures state == R.WithLink(old(state), link)
    {
      state := state.(client := state.client.(state := link));
      state := state.(revision := state.revision + 1);
    }

    method BeginClient(reconnect: bool, now: uint32)
      modifies this`state, this`attemptStarted, this`begun
      ensures Snapshot() == R.BeginClient(old(Snapshot()), reconnect, now)
      ensures if R.ActiveSsid(Snapshot()) == "" then state.client.state == R.Failed && begun == old(begun)
              else && state.client.state == (if reconnect then R.Reconnecting else R.Connecting)
                   && begun == old(begun) + 1 && attemptStarted == now
                   && state.client.reconnectAttempt == reconnectAttempts
    {
      var ssid := if activeProfile.Some? then activeProfile.value.ssid else configuration.client.ssid;
      if ssid == "" {
        SetLink(R.Failed);
        return;
      }
      state := state.(client := state.client.(state := if reconnect then R.Reconnecting else R.Connecting));
      state := state.(client := state.client.(reconnectAttempt := reconnectAttempts));
      attemptStarted := now;
      state := state.(revision := state.revision + 1);
      begun := begun + 1;
    }

    static method BoundedDelay(policy: SoundPolicy, attempts: uint32) returns (bounded: uint32)
      ensures bounded == Delay(policy, attempts) && policy.initialDelay <= bounded <= policy.maximumDelay
    {
      var delay := policy.initialDelay as real;
      if attempts > 1 {
        delay := delay * Power(policy.multiplier, attempts - 1);
      }
      DelaysGrowWithinBounds(policy, attempts, attempts);
      bounded := Minimum(delay, policy.maximumDelay as real).Floor;
    }

    method ScheduleReconnect(now: uint32)
      modifies this`state, this`reconnectAttempts, this`nextReconnect
      ensures Snapshot() == R.ScheduleReconnect(old(Snapshot()), now)
      ensures manualDisconnect || !configuration.reconnect.enabled ==> state.client.state == R.Disconnected
      ensures state.client.state == R.Reconnecting ==> state.client.reconnectAttempt == reconnectAttempts
    {
      hide Delay;
      var policy := configuration.reconnect;
      if manualDisconnect || !policy.enabled {
        SetLink(R.Disconnected);
        return;
      }
      if policy.maximumAttempts != 0 && reconnectAttempts >= policy.maximumAttempts {
        SetLink(R.Failed);
        return;
      }
      reconnectAttempts := (reconnectAttempts + 1) % WRAP;
      var bounded := BoundedDelay(policy, reconnectAttempts);
      nextReconnect := (now + bounded) % WRAP;
      state := state.(client := state.client.(state := R.Reconnecting, reconnectAttempt := reconnectAttempts));
      state := state.(revision := state.revision + 1);
    }

    method PollReconnect(status: R.Status, now: uint32, later: uint32)
      modifies this`state, this`reconnectAttempts, this`nextReconnect, this`attemptStarted, this`begun
      ensures Snapshot() == R.PollReconnect(old(Snapshot()), status, now, later)
    {
      hide R.BeginClient, R.ScheduleReconnect;
      if !R.UsesClient(configuration.mode) || !configuration.clientEnabled || manualDisconnect ||
         R.ActiveSsid(Snapshot()) == "" {
        return;
      }
      if status == R.LinkUp {
        reconnectAttempts, nextReconnect := 0, 0;
        return;
      }
      if state.client.state == R.Connected {
        ScheduleReconnect(now);
        return;
      }
      if state.client.state == R.Connecting {
        var elapsed := (now - attemptStarted) % WRAP;
        if status == R.ConnectFailed || status == R.NoSsidAvailable ||
            elapsed >= configuration.reconnect.connectionTimeout {
          ScheduleReconnect(later);
        }
        return;
      }
      if state.client.state == R.Reconnecting && nextReconnect != 0 && TimeReached(now, nextReconnect) {
        nextReconnect := 0;
        BeginClient(true, later);
      }
    }

    // ---- Polling ----

    method RefreshState(v: R.View)
      modifies this`state
      ensures Snapshot() == R.RefreshState(old(Snapshot()), v)
    {
      var next := state;
      next := next.(mode := configuration.mode);
      if R.UsesClient(configuration.mode) {
        var client := next.client;
        if v.connected {
          client := client.(state := R.Connected);
        } else if manualDisconnect {
          client := client.(state := R.Disconnected);
        }
        client := client.(ssid := if v.connected then v.ssid else R.ActiveSsid(Snapshot()));
        client := client.(rssi := if v.connected then v.rssi else 0, channel := if v.connected then v.channel else 0);
        next := next.(client := client.(network := v.network, reconnectAttempt := reconnectAttempts));
      } else {
        next := next.(client := R.NO_CLIENT);
      }
      if R.CanHostAP(configuration.mode) {
        if v.apAddress == 0 {
          next := next.(accessPoint := R.NO_ACCESS_POINT);
        } else {
          var ap := configuration.accessPoint;
          next := next.(accessPoint := R.AccessPointInfo(R.Active, ap.ssid, ap.channel,
                                                         ap.network.(address := v.apAddress),
                                                         v.stationCount));
        }
      } else {
        next := next.(accessPoint := R.NO_ACCESS_POINT);
      }
      if R.StateChanged(next, state) {
        state := next.(revision := state.revision + 1);
      }
    }

    method PollScan(count: Option<int>)
      modifies this`state, this`scanRunning
      ensures Snapshot() == R.PollScan(old(Snapshot()), count)
    {
      if !scanRunning { return; }
      if count.None? { return; }
      scanRunning := false;
      state := state.(scan := if count.value < 0 then R.ScanFailed else R.Complete);
      state := state.(revision := state.revision + 1);
    }

    /** The station events of a poll: none when the access point is down or the native list cannot be read. */
    method BuildStationEvents(apAddress: uint32, list: Option<seq<Mac>>) returns (events: seq<StationEvent>)
      modifies this`knownStations
      ensures knownStations == R.PollStations(old(Snapshot()), apAddress, list)
      ensures events == if R.CanHostAP(configuration.mode) && apAddress != 0 && list.Some?
                        then EventsOf(old(knownStations), list.value) else []
    {
      events := [];
      if !R.CanHostAP(configuration.mode) || apAddress == 0 {
        knownStations := [];
        return;
      }
      if list.None? { return; }
      var current := list.value;
      var stations := [];
      for i := 0 to |current|
        modifies {}
        invariant stations == current[..i] && events == Joins(knownStations, current[..i])
      {
        var mac := current[i];
        assert current[..i + 1][..i] == current[..i];
        stations := stations + [mac];
        if mac !in knownStations {
          events := events + [StationConnected(mac)];
        }
      }
      assert stations == current;
      for i := 0 to |knownStations|
        modifies {}
        invariant events == Joins(knownStations, current) + Leaves(knownStations[..i], current)
      {
        var known := knownStations[i];
        assert knownStations[..i + 1][..i] == knownStations[..i];
        if known !in stations {
          events := events + [StationDisconnected(known)];
        }
      }
      assert knownStations[..|knownStations|] == knownStations;
      knownStations := stations;
    }

    /** One poll; `withEvents` is whether the caller passes an event list. */
    method Poll(status: R.Status, now: uint32, later: uint32, view: R.View, scanCount: Option<int>, withEvents: bool,
                apAddress: uint32, list: Option<seq<Mac>>)
        returns (result: R.RuntimeState, events: seq<StationEvent>)
      requires Valid()
      modifies this`state, this`reconnectAttempts, this`nextReconnect, this`attemptStarted, this`begun,
               this`scanRunning, this`knownStations
      ensures Snapshot() == R.Do(old(Snapshot()),
                                 R.Poll(status, now, later, view, scanCount, withEvents, apAddress, list))
      ensures Valid() && R.Advances(old(state), state)
      ensures result == state
      ensures events == R.StationEvents(old(Snapshot()),
                                        R.Poll(status, now, later, view, scanCount, withEvents, apAddress, list))
    {
      hide R.PollReconnect, R.RefreshState, R.PollScan, R.PollStations, EventsOf, R.WithinLimit, R.Advances;
      R.StepKeepsPromises(Snapshot(), R.Poll(status, now, later, view, scanCount, withEvents, apAddress, list));
      PollReconnect(status, now, later);
      RefreshState(view);
      PollScan(scanCount);
      events := [];
      if withEvents {
        events := BuildStationEvents(apAddress, list);
      }
      result := state;
    }

    // ---- Entry points; the Boolean parameters are what the native calls answer ----

    method Apply(c: R.WiFiConfiguration, modeSet: bool, addressSet: bool, apSet: bool, now: uint32, view: R.View)
        returns (status: WiFiStatus)
      requires Valid()
      modifies this
      ensures Snapshot() == R.Do(old(Snapshot()), R.Apply(c, modeSet, addressSet, apSet, now, view))
      ensures Valid() && (R.Resets(R.Apply(c, modeSet, addressSet, apSet, now, view)) || R.Advances(old(state), state))
      ensures status == if !R.Validate(c) then WiFiStatus.InvalidConfiguration
                        else if !modeSet then PlatformError
                        else if R.IsOff(c.mode) then WiFiStatus.Success
                        else if R.UsesClient(c.mode) && !R.SelectsAutomatically(c) && !addressSet then PlatformError
                        else if R.PersistentAP(c.mode) && !(R.ApSettingsUsable(Snapshot()) && apSet) then PlatformError
                        else WiFiStatus.Success
    {
      hide R.Validate, R.RefreshState, R.BeginClient, R.WithinLimit, R.Advances;
      R.StepKeepsPromises(Snapshot(), R.Apply(c, modeSet, addressSet, apSet, now, view));
      if !R.Validate(c) { return WiFiStatus.InvalidConfiguration; }
      configuration := R.Retain(c);
      manualDisconnect, reconnectAttempts, nextReconnect := false, 0, 0;
      activeProfile, scanRunning := None, false;
      if !modeSet { return PlatformError; }
      if c.mode == R.Off || c.mode == R.Disabled {
        state := R.OffState(c.mode);
        knownStations := [];
        return WiFiStatus.Success;
      }
      var automaticProfiles := R.UsesClient(c.mode) && c.clientEnabled && c.automaticSelection && c.networks != [];
      if R.UsesClient(c.mode) && !automaticProfiles && !addressSet { return PlatformError; }
      if R.PersistentAP(c.mode) {
        var configured := ConfigureAccessPoint(apSet);
        if !configured { return PlatformError; }
      }
      if R.UsesClient(c.mode) && c.clientEnabled && !automaticProfiles && c.client.ssid != "" {
        BeginClient(false, now);
      }
      RefreshState(view);
      return WiFiStatus.Success;
    }

    method ConfigureAccessPoint(apSet: bool) returns (configured: bool)
      ensures configured <==> R.ApSettingsUsable(Snapshot()) && apSet
    {
      if !configuration.accessPoint.enabled || configuration.accessPoint.ssid == "" { return false; }
      return apSet;
    }

    method Disable(modeSet: bool) returns (status: WiFiStatus)
      requires Valid()
      modifies this
      ensures Snapshot() == R.Do(old(Snapshot()), R.Disable(modeSet))
      ensures Valid() && (R.Resets(R.Disable(modeSet)) || R.Advances(old(state), state))
      ensures status == if modeSet then WiFiStatus.Success else PlatformError
      ensures manualDisconnect && !scanRunning
      ensures modeSet ==> configuration.mode == state.mode == R.Off && knownStations == []
    {
      hide R.WithinLimit, R.Advances;
      R.StepKeepsPromises(Snapshot(), R.Disable(modeSet));
      manualDisconnect := true;
      scanRunning := false;
      if !modeSet { return PlatformError; }
      configuration := configuration.(mode := R.Off);
      state := R.OffState(R.Off);
      knownStations := [];
      return WiFiStatus.Success;
    }

    method ConnectClient(addressSet: bool, now: uint32) returns (status: WiFiStatus)
      requires Valid()
      modifies this
      ensures Snapshot() == R.Do(old(Snapshot()), R.ConnectClient(addressSet, now))
      ensures Valid() && R.Advances(old(state), state)
      ensures status == if !R.UsesClient(configuration.mode) || !configuration.clientEnabled ||
                           configuration.client.ssid == ""
                        then WiFiStatus.InvalidConfiguration
                        else if !addressSet then PlatformError else WiFiStatus.Success
      ensures status == WiFiStatus.Success ==>
              !manualDisconnect && state.client.state == R.Connecting && begun == old(begun) + 1
    {
      hide R.WithinLimit, R.Advances;
      R.StepKeepsPromises(Snapshot(), R.ConnectClient(addressSet, now));
      if !R.UsesClient(configuration.mode) || !configuration.clientEnabled || configuration.client.ssid == "" {
        return WiFiStatus.InvalidConfiguration;
      }
      activeProfile := None;
      if !addressSet { return PlatformError; }
      manualDisconnect, reconnectAttempts := false, 0;
      BeginClient(false, now);
      return WiFiStatus.Success;
    }

    method ConnectProfile(profile: R.Profile, addressSet: bool, now: uint32) returns (status: WiFiStatus)
      requires Valid()
      modifies this
      ensures Snapshot() == R.Do(old(Snapshot()), R.ConnectProfile(profile, addressSet, now))
      ensures Valid() && R.Advances(old(state), state)
      ensures status == if !R.UsesClient(configuration.mode) || !configuration.clientEnabled || !profile.enabled ||
                           profile.ssid == "" || !R.ValidateProfile(profile)
                        then WiFiStatus.InvalidConfiguration
                        else if !addressSet then PlatformError else WiFiStatus.Success
      ensures status == WiFiStatus.Success ==>
              !manualDisconnect && state.client.state == R.Connecting && begun == old(begun) + 1
    {
      hide R.WithinLimit, R.Advances;
      R.StepKeepsPromises(Snapshot(), R.ConnectProfile(profile, addressSet, now));
      if !R.UsesClient(configuration.mode) || !configuration.clientEnabled || !profile.enabled || profile.ssid == "" {
        return WiFiStatus.InvalidConfiguration;
      }
      if !R.ValidateProfile(profile) { return WiFiStatus.InvalidConfiguration; }
      activeProfile := Some(profile);
      if !addressSet { return PlatformError; }
      manualDisconnect, reconnectAttempts := false, 0;
      BeginClient(false, now);
      return WiFiStatus.Success;
    }

    method DisconnectClient(disconnected: bool) returns (status: WiFiStatus)
      requires Valid()
      modifies this`manualDisconnect, this`state
      ensures Snapshot() == R.Do(old(Snapshot()), R.DisconnectClient)
      ensures Valid() && R.Advances(old(state), state)
      ensures status == if !R.UsesClient(configuration.mode) then NotSupported
                        else if disconnected then WiFiStatus.Success else PlatformError
      ensures status != NotSupported ==> manualDisconnect && state.client.state == R.Disconnected
    {
      hide R.WithinLimit, R.Advances;
      R.StepKeepsPromises(Snapshot(), R.DisconnectClient);
      if !R.UsesClient(configuration.mode) { return NotSupported; }
      manualDisconnect := true;
      SetLink(R.Disconnecting);
      SetLink(R.Disconnected);
      return if disconnected then WiFiStatus.Success else PlatformError;
    }

    method SetAccessPoint(ap: R.AccessPointState)
      modifies this`state
      ensures state == R.WithAccessPoint(old(state), ap)
    {
      state := state.(accessPoint := state.accessPoint.(state := ap));
      state := state.(revision := state.revision + 1);
    }

    method StartAccessPoint(modeSet: bool, apSet: bool) returns (status: WiFiStatus)
      requires Valid()
      modifies this`state
      ensures Snapshot() == R.Do(old(Snapshot()), R.StartAccessPoint(modeSet, apSet))
      ensures Valid() && R.Advances(old(state), state)
      ensures status == if !R.CanHostAP(configuration.mode) || !R.ApSettingsUsable(Snapshot()) then NotSupported
                        else if (configuration.mode == R.APUntilClient && !modeSet) || !apSet then PlatformError
                        else WiFiStatus.Success
      ensures status == WiFiStatus.Success ==> state.accessPoint.state == R.Active
      ensures status == PlatformError ==> state == old(state) || state.accessPoint.state == R.ApFailed
    {
      hide R.WithinLimit, R.Advances;
      R.StepKeepsPromises(Snapshot(), R.StartAccessPoint(modeSet, apSet));
      if !R.CanHostAP(configuration.mode) || !configuration.accessPoint.enabled ||
          configuration.accessPoint.ssid == "" {
        return NotSupported;
      }
      if configuration.mode == R.APUntilClient && !modeSet { return PlatformError; }
      SetAccessPoint(R.Starting);
      var configured := ConfigureAccessPoint(apSet);
      if !configured {
        SetAccessPoint(R.ApFailed);
        return PlatformError;
      }
      SetAccessPoint(R.Active);
      return WiFiStatus.Success;
    }

    method StopAccessPoint(apStopped: bool, modeSet: bool) returns (status: WiFiStatus)
      requires Valid()
      modifies this`state, this`knownStations
      ensures Snapshot() == R.Do(old(Snapshot()), R.StopAccessPoint(apStopped, modeSet))
      ensures Valid() && R.Advances(old(state), state)
      ensures status == if !R.CanHostAP(configuration.mode) then NotSupported
                        else if !apStopped || (configuration.mode == R.APUntilClient && !modeSet) then PlatformError
                        else WiFiStatus.Success
      ensures status == WiFiStatus.Success ==>
                && state.accessPoint.state == R.ApDisabled && state.accessPoint.network == R.NO_NETWORK
                && knownStations == []
    {
      hide R.WithinLimit, R.Advances;
      R.StepKeepsPromises(Snapshot(), R.StopAccessPoint(apStopped, modeSet));
      if !R.CanHostAP(configuration.mode) { return NotSupported; }
      if !apStopped { return PlatformError; }
      if configuration.mode == R.APUntilClient && !modeSet { return PlatformError; }
      state := state.(accessPoint := state.accessPoint.(state := R.ApDisabled, network := R.NO_NETWORK));
      knownStations := [];
      state := state.(revision := state.revision + 1);
      return WiFiStatus.Success;
    }

    method StartScan(started: bool) returns (status: WiFiStatus)
      requires Valid()
      modifies this`scanRunning, this`state
      ensures Snapshot() == R.Do(old(Snapshot()), R.StartScan(started))
      ensures Valid() && R.Advances(old(state), state)
      ensures status == if R.IsOff(configuration.mode) then NotSupported else if old(scanRunning) then Busy
                        else if started then WiFiStatus.Success else PlatformError
      ensures status == WiFiStatus.Success ==> scanRunning && state.scan == R.Scanning
      ensures status == PlatformError ==> !scanRunning && state.scan == R.ScanFailed
    {
      hide R.WithinLimit, R.Advances;
      R.StepKeepsPromises(Snapshot(), R.StartScan(started));
      if configuration.mode == R.Off || configuration.mode == R.Disabled { return NotSupported; }
      if scanRunning { return Busy; }
      scanRunning := started;
      state := state.(scan := if started then R.Scanning else R.ScanFailed);
      state := state.(revision := state.revision + 1);
      return if started then WiFiStatus.Success else PlatformError;
    }
  }
}
