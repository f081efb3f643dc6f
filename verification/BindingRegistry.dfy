/** WebSocket bindings shared by several endpoints and one HTTP server, each API call atomic. */
module BindingRegistry {
  import opened Wrappers
  import opened WebSocketEndpoint

  /** What `strcmp` compares: the characters up to the first NUL. */
  function CString(text: string): string {
    if text == "" || text[0] == '\0' then "" else [text[0]] + CString(text[1..])
  }

  /** It is the text up to its first NUL. */
  lemma {:induction false} CStringEndsAtNul(text: string)
    ensures CString(text) <= text && '\0' !in CString(text)
    ensures |CString(text)| < |text| ==> text[|CString(text)|] == '\0'
  {
    if text != "" && text[0] != '\0' {
      CStringEndsAtNul(text[1..]);
      assert text == [text[0]] + text[1..];
    }
  }

  /** Paths without NUL are compared as they are. */
  lemma PathsComparedWhole(a: string, b: string)
    requires '\0' !in a && '\0' !in b
    ensures CString(a) == CString(b) <==> a == b
  {
    CStringEndsAtNul(a);
    CStringEndsAtNul(b);
  }

  lemma SlashIsFirst(path: string)
    requires path != "" && path[0] == '/'
    ensures CString(path) != "" && CString(path)[0] == '/'
  {
  }

  predicate PairwiseDifferent(list: seq<BindingState>) {
    forall i, j :: 0 <= i < j < |list| ==> list[i] != list[j]
  }

  /** The list after erase-remove: active bindings other than `except`. */
  function Kept(list: seq<BindingState>, except: BindingState?): (r: seq<BindingState>)
    reads list
  {
    if list == [] then []
    else (if list[0] != except && list[0].active then [list[0]] else []) + Kept(list[1..], except)
  }

  lemma {:induction false} KeptElements(list: seq<BindingState>, except: BindingState?)
    ensures forall b :: b in Kept(list, except) <==> b in list && b != except && b.active
    ensures PairwiseDifferent(list) ==> PairwiseDifferent(Kept(list, except))
    decreases |list|
  {
    if list != [] {
      KeptElements(list[1..], except);
      assert list == [list[0]] + list[1..];
    }
  }

  lemma {:induction false} KeptSnoc(list: seq<BindingState>, last: BindingState, except: BindingState?)
    ensures Kept(list + [last], except) == Kept(list, except) + if last != except && last.active then [last] else []
    decreases |list|
  {
    if list == [] {
      assert (list + [last])[1..] == [];
    } else {
      assert (list + [last])[1..] == list[1..] + [last];
      KeptSnoc(list[1..], last, except);
    }
  }

  /** The first active binding from `start` on that serves the path; the number of bindings if there is none. */
  function FirstServing(list: seq<BindingState>, path: string, start: nat): (i: nat)
    requires start <= |list|
    reads list
    ensures start <= i <= |list|
    ensures forall k :: start <= k < i ==> !(list[k].active && CString(list[k].path) == path)
    ensures i < |list| ==> list[i].active && CString(list[i].path) == path
    decreases |list| - start
  {
    if start == |list| || (list[start].active && CString(list[start].path) == path) then start
    else FirstServing(list, path, start + 1)
  }

  class ESP32HttpServerPlatform {
    var running: bool
    var dispatcherPresent: bool
    var webSocketBindings: seq<BindingState>
    /** Handler contexts registered with the native server. */
    var registered: seq<BindingState>
    /** The binding each endpoint uses now, and the bindings endpoints have given up. */
    ghost var owner: map<BindingState, ESP32WebSocketEndpointPlatform>
    ghost var retired: set<BindingState>

    ghost predicate Valid()
      reads this, webSocketBindings, owner.Keys, retired
    {
      && PairwiseDifferent(webSocketBindings)
      // Active listed bindings serve pairwise distinct paths.
      && (forall b, c :: b in webSocketBindings && c in webSocketBindings && b != c && b.active && c.active ==>
            CString(b.path) != CString(c.path))
      // A binding in use is listed exactly while it is active; every other listed binding is retired.
      && (forall b :: b in owner ==> (b.active <==> b in webSocketBindings))
      && (forall b :: b in webSocketBindings ==> b in owner || b in retired)
      // Retired bindings are inactive and no endpoint uses them again.
      && (forall b :: b in retired ==> !b.active && b !in owner)
      // While the server runs its native handlers are exactly the listed bindings; otherwise it has none.
      && registered == (if running then webSocketBindings else [])
    }

    constructor ()
      ensures Valid() && !running && webSocketBindings == [] && owner == map[] && retired == {}
    {
      running, dispatcherPresent, webSocketBindings, registered := false, false, [], [];
      owner, retired := map[], {};
    }

    /** Whether an active listed binding other than `binding` already serves its path. */
    ghost predicate PathTaken(binding: BindingState)
      reads this, webSocketBindings, binding
    {
      exists b :: b in webSocketBindings && b.active && b != binding && CString(b.path) == CString(binding.path)
    }

    /** The first active listed binding that serves the path decides: none, and the binding is added; the binding
        itself, and nothing is to be done; another one, and it is refused. */
    method AddWebSocketBinding(binding: BindingState) returns (result: WebResult)
      modifies this`webSocketBindings
      ensures var first := FirstServing(old(webSocketBindings), CString(binding.path), 0);
              result == if !binding.active || CString(binding.path) == "" || CString(binding.path)[0] != '/'
                        then Failure(InvalidConfiguration)
                        else if running then Failure(InvalidState)
                        else if first < |old(webSocketBindings)| && old(webSocketBindings)[first] != binding
                        then Failure(InvalidConfiguration) else Success
      ensures webSocketBindings == old(webSocketBindings) +
                if result == Success && binding !in old(webSocketBindings) then [binding] else []
    {
      if !binding.active || CString(binding.path) == "" || CString(binding.path)[0] != '/' {
        return Failure(InvalidConfiguration);
      }
      if running { return Failure(InvalidState); }
      for i := 0 to |webSocketBindings|
        invariant webSocketBindings == old(webSocketBindings)
        invariant FirstServing(webSocketBindings, CString(binding.path), 0) ==
                  FirstServing(webSocketBindings, CString(binding.path), i)
      {
        var existing := webSocketBindings[i];
        if existing.active {
          if existing == binding { return Success; }
          if CString(existing.path) == CString(binding.path) { return Failure(InvalidConfiguration); }
        }
      }
      webSocketBindings := webSocketBindings + [binding];
      return Success;
    }

    method EraseInactive(except: BindingState?)
      modifies this`webSocketBindings
      ensures webSocketBindings == Kept(old(webSocketBindings), except)
    {
      var list := webSocketBindings;
      var kept := [];
      for i := 0 to |list|
        modifies {}
        invariant kept == Kept(list[..i], except)
      {
        assert list[..i + 1] == list[..i] + [list[i]];
        KeptSnoc(list[..i], list[i], except);
        if list[i] != except && list[i].active { kept := kept + [list[i]]; }
      }
      assert list[..|list|] == list;
      webSocketBindings := kept;
    }

    method ReleaseWebSocketBinding(binding: BindingState)
      modifies this`webSocketBindings
      ensures webSocketBindings == if running then old(webSocketBindings) else Kept(old(webSocketBindings), binding)
    {
      if running { return; }
      EraseInactive(binding);
    }

    /** `started` and `accepted` describe the native server: whether it started and how many handlers it accepted. */
    method Start(started: bool, accepted: nat, supportedMethods: nat) returns (result: WebResult)
      requires Valid()
      modifies this`running, this`webSocketBindings, this`registered
      ensures Valid()
      ensures result == if old(running) then Failure(AlreadyRunning)
                        else if !dispatcherPresent then Failure(InvalidState)
                        else if started && |Kept(old(webSocketBindings), null)| + supportedMethods <= accepted
                        then Success else Failure(PlatformFailure)
      ensures result != Success ==> registered == old(registered)
      ensures webSocketBindings == if result.Failure? && result.error in {AlreadyRunning, InvalidState}
                                   then old(webSocketBindings) else Kept(old(webSocketBindings), null)
      ensures result == Success ==> running && webSocketBindings == registered == Kept(old(webSocketBindings), null)
      ensures result != Success ==> running == old(running)
    {
      hide CString, Kept;
      if running { return Failure(AlreadyRunning); }
      if !dispatcherPresent { return Failure(InvalidState); }
      ghost var before := webSocketBindings;
      EraseInactive(null);
      KeptElements(before, null);
      if !started { return Failure(PlatformFailure); }
      var bindings := webSocketBindings;
      var handlers := [];
      for i := 0 to |bindings|
        modifies {}
        invariant handlers == bindings[..i]
      {
        // A refused handler stops the native server, which forgets the handlers it had accepted.
        if i >= accepted { return Failure(PlatformFailure); }
        handlers := handlers + [bindings[i]];
      }
      if |bindings| + supportedMethods > accepted { return Failure(PlatformFailure); }
      registered := handlers;
      running := true;
      return Success;
    }

    method Stop()
      requires Valid()
      modifies this`running, this`webSocketBindings, this`registered
      ensures Valid() && !running && registered == []
      ensures webSocketBindings == if old(running) then Kept(old(webSocketBindings), null) else old(webSocketBindings)
    {
      if !running { return; }
      running := false;
      registered := [];
      ghost var before := webSocketBindings;
      EraseInactive(null);
      KeptElements(before, null);
    }
  }

  class ESP32WebSocketEndpointPlatform {
    const http: ESP32HttpServerPlatform
    var state: BindingState

    /** The endpoint's binding is its own. */
    ghost predicate Valid()
      reads this, http
    {
      state in http.owner && http.owner[state] == this
    }

    constructor (http: ESP32HttpServerPlatform)
      requires http.Valid()
      modifies http`owner
      ensures this.http == http && http.Valid() && Valid() && fresh(state) && !state.active
      ensures http.owner == old(http.owner)[state := this]
    {
      this.http := http;
      var binding := new BindingState();
      state := binding;
      new;
      http.owner := http.owner[binding := this];
    }

    method Bind(path: string) returns (result: WebResult)
      requires http.Valid() && Valid()
      modifies state`path, state`active, http`webSocketBindings
      ensures http.Valid() && Valid()
      ensures result == if old(state.active) then Failure(AlreadyRunning)
                        else if path == "" || path[0] != '/' then Failure(InvalidConfiguration)
                        else if http.running then Failure(InvalidState)
                        else if exists b :: (b in old(http.webSocketBindings) && old(b.active) &&
                                             CString(old(b.path)) == CString(path))
                        then Failure(InvalidConfiguration) else Success
      ensures state.active <==> old(state.active) || result == Success
      ensures http.webSocketBindings == old(http.webSocketBindings) + if result == Success then [state] else []
      ensures result == Success ==> state.path == path
    {
      hide CString, Kept;
      if state.active { return Failure(AlreadyRunning); }
      result := state.Prepare(path);
      if result != Success { return; }
      SlashIsFirst(path);
      result := Register();
    }

    /** Activates the prepared binding and lists it with the server, or leaves it inactive. */
    method Register() returns (result: WebResult)
      requires http.Valid() && Valid() && !state.active && CString(state.path) != "" && CString(state.path)[0] == '/'
      modifies state`active, http`webSocketBindings
      ensures http.Valid()
      ensures result == if http.running then Failure(InvalidState)
                        else if old(http.PathTaken(state)) then Failure(InvalidConfiguration) else Success
      ensures state.active <==> result == Success
      ensures http.webSocketBindings == old(http.webSocketBindings) + if result == Success then [state] else []
    {
      hide CString, Kept;
      state.active := true;
      result := http.AddWebSocketBinding(state);
      if result != Success { state.active := false; }
    }

    method Unbind()
      requires http.Valid() && Valid()
      modifies this`state, state`active, http`webSocketBindings, http`retired, http`owner
      ensures http.Valid() && Valid() && !state.active && !old(state).active
      ensures old(state.active) ==> fresh(state) && http.retired == old(http.retired) + {old(state)}
      ensures !old(state.active) ==> state == old(state) && http.retired == old(http.retired)
      ensures http.owner == (old(http.owner) - {old(state)})[state := this]
      ensures http.webSocketBindings ==
              if http.running then old(http.webSocketBindings) else Kept(old(http.webSocketBindings), old(state))
    {
      hide CString, Kept, FirstServing, PairwiseDifferent;
      if !state.active {
        ReleaseInactive();
        assert http.owner == (http.owner - {state})[state := this];
        return;
      }
      Retire();
      var replacement := new BindingState();
      http.owner := http.owner[replacement := this];
      state := replacement;
    }

    /** Takes a binding that is not in use off the server's list. */
    method ReleaseInactive()
      requires http.Valid() && Valid() && !state.active
      modifies http`webSocketBindings
      ensures http.Valid()
      ensures http.webSocketBindings ==
              if http.running then old(http.webSocketBindings) else Kept(old(http.webSocketBindings), state)
    {
      hide CString, Kept, FirstServing;
      ghost var list := http.webSocketBindings;
      http.ReleaseWebSocketBinding(state);
      KeptElements(list, state);
    }

    /** Deactivates the endpoint's binding and gives it up for good. */
    method Retire()
      requires http.Valid() && Valid()
      modifies state`active, http`webSocketBindings, http`retired, http`owner
      ensures http.Valid() && !state.active
      ensures http.retired == old(http.retired) + {state} && http.owner == old(http.owner) - {state}
      ensures http.webSocketBindings ==
              if http.running then old(http.webSocketBindings) else Kept(old(http.webSocketBindings), state)
    {
      hide CString, Kept;
      ghost var list := http.webSocketBindings;
      state.active := false;
      http.ReleaseWebSocketBinding(state);
      KeptElements(list, state);
      http.retired := http.retired + {state};
      http.owner := http.owner - {state};
    }
  }
}
