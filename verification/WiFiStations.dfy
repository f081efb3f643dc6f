/** Stations of the access point: the Connected and Disconnected events that polls derive from native station lists. */
module WiFiStations {
  import opened Wrappers

  /** A 48-bit MAC address. */
  type Mac = m: int | 0 <= m < 0x1_0000_0000_0000

  datatype StationEvent = StationConnected(station: Mac) | StationDisconnected(station: Mac)

  // ---- The events of one poll ----

  /** A Connected event for each listed station not known before, in list order. */
  function Joins(known: seq<Mac>, current: seq<Mac>): seq<StationEvent>
    decreases |current|
  {
    if current == [] then []
    else
      var last := current[|current| - 1];
      Joins(known, current[..|current| - 1]) + if last in known then [] else [StationConnected(last)]
  }

  /** A Disconnected event for each known station no longer listed, in the order they became known. */
  function Leaves(known: seq<Mac>, current: seq<Mac>): seq<StationEvent>
    decreases |known|
  {
    if known == [] then []
    else
      var last := known[|known| - 1];
      Leaves(known[..|known| - 1], current) + if last in current then [] else [StationDisconnected(last)]
  }

  function EventsOf(known: seq<Mac>, current: seq<Mac>): seq<StationEvent> {
    Joins(known, current) + Leaves(known, current)
  }

  // ---- What a listener makes of them ----

  /** The set of stations after the events; None as soon as an event does not alternate: a Connected of a station that
      is connected, or a Disconnected of one that is not. */
  function Replay(stations: set<Mac>, events: seq<StationEvent>): Option<set<Mac>>
    decreases |events|
  {
    if events == [] then Some(stations)
    else
      match Replay(stations, events[..|events| - 1])
      case None => None
      case Some(now) =>
        match events[|events| - 1]
        case StationConnected(m) => if m in now then None else Some(now + {m})
        case StationDisconnected(m) => if m in now then Some(now - {m}) else None
  }

  function SetOf(stations: seq<Mac>): set<Mac> { set m | m in stations }

  predicate Distinct(stations: seq<Mac>) {
    forall i, j :: 0 <= i < j < |stations| ==> stations[i] != stations[j]
  }

  lemma {:induction false} ReplayJoin(stations: set<Mac>, a: seq<StationEvent>, b: seq<StationEvent>)
    ensures Replay(stations, a + b) == (match Replay(stations, a) case None => None case Some(now) => Replay(now, b))
    decreases |b|
  {
    if b == [] {
      assert a + b == a;
    } else {
      ReplayJoin(stations, a, b[..|b| - 1]);
      assert (a + b)[..|a + b| - 1] == a + b[..|b| - 1];
    }
  }

  /** No station outside `known` is listed twice. */
  ghost predicate JoinOnce(known: seq<Mac>, current: seq<Mac>) {
    forall i, j :: 0 <= i < j < |current| && current[i] == current[j] ==> current[j] in known
  }

  /** No listed station that is not known is still connected for the listener. */
  ghost predicate JoinsFresh(heard: set<Mac>, known: seq<Mac>, current: seq<Mac>) {
    forall m :: m in current && m !in known ==> m !in heard
  }

  lemma {:induction false} ReplayJoins(heard: set<Mac>, known: seq<Mac>, current: seq<Mac>)
    requires SetOf(known) <= heard
    ensures Replay(heard, Joins(known, current)) ==
            if JoinOnce(known, current) && JoinsFresh(heard, known, current) then Some(heard + SetOf(current)) else None
    decreases |current|
  {
    if current == [] {
      assert heard + SetOf(current) == heard;
    } else {
      var front, last := current[..|current| - 1], current[|current| - 1];
      ReplayJoins(heard, known, front);
      JoinOnceNext(known, front, last);
      assert current == front + [last];
      var before := heard + SetOf(front);
      assert heard + SetOf(current) == before + {last};
      if last in known {
        assert last in heard;
        assert Joins(known, current) == Joins(known, front) && before + {last} == before;
      } else {
        ReplayNext(heard, Joins(known, front), StationConnected(last));
        assert last in before <==> last in heard || last in front;
        assert JoinsFresh(heard, known, current) <==> JoinsFresh(heard, known, front) && last !in heard;
      }
    }
  }

  lemma ReplayNext(stations: set<Mac>, events: seq<StationEvent>, next: StationEvent)
    ensures Replay(stations, events + [next]) ==
            match Replay(stations, events)
            case None => None
            case Some(now) => if next.StationConnected? == (next.station in now) then None
                              else Some(if next.StationConnected? then now + {next.station} else now - {next.station})
  {
    assert (events + [next])[..|events|] == events;
  }

  lemma JoinOnceNext(known: seq<Mac>, front: seq<Mac>, last: Mac)
    ensures JoinOnce(known, front + [last]) <==> JoinOnce(known, front) && (last in front ==> last in known)
  {
    var current := front + [last];
    if JoinOnce(known, current) {
      assert forall i :: 0 <= i < |front| ==> front[i] == current[i];
      if last in front {
        var i :| 0 <= i < |front| && front[i] == last;
        assert current[i] == current[|front|];
      }
    }
  }

  lemma {:induction false} ReplayLeaves(others: set<Mac>, known: seq<Mac>, current: seq<Mac>)
    requires SetOf(known) <= others
    ensures Replay(others, Leaves(known, current)) ==
            if JoinOnce(current, known) then Some(others - (SetOf(known) - SetOf(current))) else None
    decreases |known|
  {
    if known == [] {
      assert others - (SetOf(known) - SetOf(current)) == others;
    } else {
      var front, last := known[..|known| - 1], known[|known| - 1];
      ReplayLeaves(others, front, current);
      JoinOnceNext(current, front, last);
      assert known == front + [last];
      assert last in others && forall m :: m in front ==> m in known;
      var before := others - (SetOf(front) - SetOf(current));
      if last in current {
        assert Leaves(known, current) == Leaves(front, current);
        assert others - (SetOf(known) - SetOf(current)) == before;
      } else {
        ReplayNext(others, Leaves(front, current), StationDisconnected(last));
        assert last in before <==> last !in front;
        assert others - (SetOf(known) - SetOf(current)) == before - {last};
      }
    }
  }

  /** For a listener to whom more stations than the known ones may be connected, the events of one poll alternate
      exactly when no joining station is listed twice or still connected to it, and no leaving station was known
      twice. */
  lemma PollReplaysFrom(heard: set<Mac>, known: seq<Mac>, current: seq<Mac>)
    requires SetOf(known) <= heard
    ensures Replay(heard, EventsOf(known, current)) ==
            if JoinOnce(known, current) && JoinsFresh(heard, known, current) && JoinOnce(current, known)
            then Some(heard + SetOf(current) - (SetOf(known) - SetOf(current))) else None
  {
    ReplayJoins(heard, known, current);
    ReplayJoin(heard, Joins(known, current), Leaves(known, current));
    ReplayLeaves(heard + SetOf(current), known, current);
  }

  /** The events of one poll turn the known stations into the listed ones, each station's events alternating, exactly
      when no joining station is listed twice and no leaving station was known twice. */
  lemma PollReplaysIff(known: seq<Mac>, current: seq<Mac>)
    ensures Replay(SetOf(known), EventsOf(known, current)) ==
            if JoinOnce(known, current) && JoinOnce(current, known) then Some(SetOf(current)) else None
  {
    PollReplaysFrom(SetOf(known), known, current);
    assert SetOf(known) + SetOf(current) - (SetOf(known) - SetOf(current)) == SetOf(current);
  }

  lemma DistinctListReplays(stale: set<Mac>, known: seq<Mac>, current: seq<Mac>)
    requires Distinct(known) && Distinct(current) && SetOf(known) !! stale
    ensures Replay(SetOf(known) + stale, EventsOf(known, current)) ==
            if SetOf(current) !! stale then Some(SetOf(current) + stale) else None
  {
    var heard := SetOf(known) + stale;
    PollReplaysFrom(heard, known, current);
    assert JoinOnce(known, current) && JoinOnce(current, known);
    assert JoinsFresh(heard, known, current) <==> SetOf(current) !! stale by {
      if JoinsFresh(heard, known, current) {
        forall m | m in current ensures m !in stale {}
      }
    }
    if SetOf(current) !! stale {
      assert heard + SetOf(current) - (SetOf(known) - SetOf(current)) == SetOf(current) + stale;
    }
  }

  // ---- Runs of polls while the access point is up ----

  /** What the native side answers to one poll: a list of stations without duplicates, or an error. */
  type StationList = s: seq<Mac> | Distinct(s)

  function KnownAfter(known: seq<Mac>, polls: seq<Option<StationList>>): seq<Mac>
    decreases |polls|
  {
    if polls == [] then known
    else
      var last := polls[|polls| - 1];
      if last.Some? then last.value else KnownAfter(known, polls[..|polls| - 1])
  }

  function AllEvents(known: seq<Mac>, polls: seq<Option<StationList>>): seq<StationEvent>
    decreases |polls|
  {
    if polls == [] then []
    else
      var front, last := polls[..|polls| - 1], polls[|polls| - 1];
      AllEvents(known, front) + if last.Some? then EventsOf(KnownAfter(known, front), last.value) else []
  }

  /** Replaying the events of any run of polls on the initially known stations gives the stations of the last list that
      was read, each station's events alternating. */
  lemma {:induction false} RunReplays(known: StationList, polls: seq<Option<StationList>>)
    ensures Distinct(KnownAfter(known, polls))
    ensures Replay(SetOf(known), AllEvents(known, polls)) == Some(SetOf(KnownAfter(known, polls)))
    decreases |polls|
  {
    if polls != [] {
      var front, last := polls[..|polls| - 1], polls[|polls| - 1];
      RunReplays(known, front);
      if last.Some? {
        var before := KnownAfter(known, front);
        PollReplaysIff(before, last.value);
        assert JoinOnce(before, last.value) && JoinOnce(last.value, before);
        ReplayJoin(SetOf(known), AllEvents(known, front), EventsOf(before, last.value));
      } else {
        assert AllEvents(known, polls) == AllEvents(known, front);
      }
    }
  }
}
