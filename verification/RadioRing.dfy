/** The receive ring between the Wi-Fi callback (single producer) and DrainInbound (single consumer), under every
    interleaving of their atomic index accesses and slot accesses within one started period. */
module RadioRing {
  import opened Bytes
  import opened Modular
  import opened RadioFrame

  datatype Packet = Packet(source: Mac, destination: Mac, rssi: int, timestamp: uint64, payload: seq<byte>)

  /** A received packet as the callback queues it: its payload fits a slot. */
  predicate Fits(p: Packet) { |p.payload| <= MAXIMUM_PAYLOAD_BYTES }

  datatype Slot = Slot(source: Mac, destination: Mac, length: nat, rssi: int, timestamp: uint64, payload: seq<byte>)

  predicate SlotShape(s: Slot) { s.length <= MAXIMUM_PAYLOAD_BYTES == |s.payload| }

  /** The index after `i`, with the source's conversion back to an 8-bit index. */
  function NextIndex(i: nat, depth: nat): nat
    requires 0 < depth
  {
    (i + 1) % depth % 0x100
  }

  const FIELDS := 6

  /** One store into a slot. The payload copy leaves the bytes behind the new payload as they were. */
  function StoreField(s: Slot, p: Packet, field: nat): (r: Slot)
    requires SlotShape(s) && Fits(p) && field < FIELDS
    ensures SlotShape(r)
  {
    match field
    case 0 => s.(source := p.source)
    case 1 => s.(destination := p.destination)
    case 2 => s.(length := |p.payload|)
    case 3 => s.(rssi := p.rssi)
    case 4 => s.(timestamp := p.timestamp)
    case _ => s.(payload := p.payload + s.payload[|p.payload|..])
  }

  /** The first `fields` fields of `s` hold packet `p`. */
  ghost predicate Filled(s: Slot, p: Packet, fields: nat) {
    && SlotShape(s) && Fits(p)
    && (0 < fields ==> s.source == p.source)
    && (1 < fields ==> s.destination == p.destination)
    && (2 < fields ==> s.length == |p.payload|)
    && (3 < fields ==> s.rssi == p.rssi)
    && (4 < fields ==> s.timestamp == p.timestamp)
    && (5 < fields ==> s.payload[..|p.payload|] == p.payload)
  }

  /** What a view of slot `s` shows. */
  function View(s: Slot): Packet
    requires SlotShape(s)
  {
    Packet(s.source, s.destination, s.rssi, s.timestamp, s.payload[..s.length])
  }

  /** The slot of the `i`-th packet ever accepted. */
  function SlotOf(i: nat, depth: nat): nat
    requires 0 < depth
  {
    i % depth
  }

  function Following(i: nat, depth: nat): nat { if i + 1 == depth then 0 else i + 1 }

  function QueuedCount(write: nat, read: nat, depth: nat): nat
    requires write < depth && read < depth
  {
    if read <= write then write - read else write + depth - read
  }

  /** The `count` packets queued from slot `read` on, oldest first. */
  function PacketsFrom(slots: seq<Slot>, read: nat, count: nat): (r: seq<Packet>)
    requires QueueMemory(slots) && read < |slots|
    ensures |r| == count
    decreases count
  {
    if count == 0 then []
    else [View(slots[read])] + PacketsFrom(slots, Following(read, |slots|), count - 1)
  }

  function Pending(slots: seq<Slot>, write: nat, read: nat): (r: seq<Packet>)
    requires QueueMemory(slots) && write < |slots| && read < |slots|
  {
    PacketsFrom(slots, read, QueuedCount(write, read, |slots|))
  }

  predicate QueueMemory(slots: seq<Slot>) {
    2 <= |slots| <= 255 && forall i :: 0 <= i < |slots| ==> SlotShape(slots[i])
  }

  // ---- The two threads and the memory they share ----

  datatype Callback =
    | CallbackIdle
    | LoadedWrite(packet: Packet, write: nat)
    | Filling(packet: Packet, write: nat, field: nat)
    | Published

  /** A drain first checks the ring, then copies the slot's scalar fields into a view that points at the slot's
      payload, then hands the view to the receiver, and only then releases the slot. */
  datatype Drain =
    | DrainIdle
    | LoadedRead(read: nat)
    | NonEmpty(read: nat)
    | Viewing(read: nat, header: Packet, length: nat)
    | HandedOver(read: nat)

  /** `accepted`, `taken` and `handed` record history: the packets published by the callback, those the drain finished
      viewing, and those given to a receiver. `released` counts stores to the read index. `workRaised` is whether the
      work signal was raised after the last time a drain began. */
  datatype World = World(
    slots: seq<Slot>, write: nat, read: nat, callback: Callback, drain: Drain,
    accepted: seq<Packet>, taken: seq<Packet>, handed: seq<Packet>, released: nat, workRaised: bool)

  /** Which thread moves. `packet` is the frame being received if the callback is idle; `signalled` is whether a work
      signal is set when the callback is about to raise it, and `attached` whether a receiver is set when the drain is
      about to hand over its view. */
  datatype Event = CallbackMoves(packet: Packet, signalled: bool) | DrainMoves(attached: bool)

  predicate WellFormed(w: World) {
    && 2 <= |w.slots| <= 255
    && w.write < |w.slots| && w.read < |w.slots|
    && (forall i :: 0 <= i < |w.slots| ==> SlotShape(w.slots[i]))
    && (w.callback.LoadedWrite? ==> w.callback.write < |w.slots| && Fits(w.callback.packet))
    && (w.callback.Filling? ==> w.callback.write < |w.slots| && Fits(w.callback.packet) && w.callback.field <= FIELDS)
    && (!w.drain.DrainIdle? ==> w.drain.read < |w.slots|)
    && (w.drain.Viewing? ==> w.drain.length <= MAXIMUM_PAYLOAD_BYTES)
  }

  predicate Admissible(e: Event) { e.CallbackMoves? ==> Fits(e.packet) }

  /** One atomic step of the receive callback. */
  function CallbackStep(w: World, packet: Packet, signalled: bool): (r: World)
    requires WellFormed(w) && Fits(packet)
    ensures WellFormed(r) && |r.slots| == |w.slots|
  {
    match w.callback
    case CallbackIdle => w.(callback := LoadedWrite(packet, w.write))
    case LoadedWrite(p, write) =>
      if NextIndex(write, |w.slots|) == w.read then w.(callback := CallbackIdle)
      else w.(callback := Filling(p, write, 0))
    case Filling(p, write, field) =>
      if field < FIELDS then
        w.(slots := w.slots[write := StoreField(w.slots[write], p, field)], callback := Filling(p, write, field + 1))
      else
        w.(write := NextIndex(write, |w.slots|), accepted := w.accepted + [p], callback := Published)
    case Published => w.(callback := CallbackIdle, workRaised := w.workRaised || signalled)
  }

  /** One atomic step of DrainInbound. */
  function DrainStep(w: World, attached: bool): (r: World)
    requires WellFormed(w)
    ensures WellFormed(r) && |r.slots| == |w.slots|
  {
    match w.drain
    case DrainIdle => w.(drain := LoadedRead(w.read), workRaised := false)
    case LoadedRead(read) =>
      if read == w.write then w.(drain := DrainIdle) else w.(drain := NonEmpty(read))
    case NonEmpty(read) =>
      w.(drain := Viewing(read, View(w.slots[read]).(payload := []), w.slots[read].length))
    case Viewing(read, header, length) =>
      var view := header.(payload := w.slots[read].payload[..length]);
      w.(taken := w.taken + [view], handed := if attached then w.handed + [view] else w.handed,
         drain := HandedOver(read))
    case HandedOver(read) =>
      // The loop goes round: the next iteration's index load follows the store at once.
      w.(read := NextIndex(read, |w.slots|), released := w.released + 1,
         drain := LoadedRead(NextIndex(read, |w.slots|)))
  }

  function Next(w: World, e: Event): (r: World)
    requires WellFormed(w) && Admissible(e)
    ensures WellFormed(r) && |r.slots| == |w.slots|
  {
    match e
    case CallbackMoves(packet, signalled) => CallbackStep(w, packet, signalled)
    case DrainMoves(attached) => DrainStep(w, attached)
  }

  predicate AllAdmissible(events: seq<Event>) { forall i :: 0 <= i < |events| ==> Admissible(events[i]) }

  function Run(w: World, events: seq<Event>): (r: World)
    requires WellFormed(w) && AllAdmissible(events)
    ensures WellFormed(r) && |r.slots| == |w.slots|
    decreases |events|
  {
    if events == [] then w else Next(Run(w, events[..|events| - 1]), events[|events| - 1])
  }

  /** The state after Start: both indices zero, no thread inside, any stale slot contents. */
  function Started(slots: seq<Slot>): World {
    World(slots, 0, 0, CallbackIdle, DrainIdle, [], [], [], 0, false)
  }

  // ---- The invariant ----

  lemma NextIsFollowing(i: nat, depth: nat)
    requires 2 <= depth <= 255 && i < depth
    ensures NextIndex(i, depth) == Following(i, depth) < depth
  {
    DivisionUnique(i + 1, depth, if i + 1 == depth then 1 else 0, Following(i, depth));
  }

  lemma SuccessorIndex(a: nat, depth: nat)
    requires 2 <= depth <= 255
    ensures NextIndex(SlotOf(a, depth), depth) == Following(SlotOf(a, depth), depth) == SlotOf(a + 1, depth)
    ensures SlotOf(a + depth, depth) == SlotOf(a, depth)
  {
    NextIsFollowing(SlotOf(a, depth), depth);
    Successor(a, depth);
    AddModulus(a, depth);
  }

  ghost predicate Invariant(w: World) {
    && WellFormed(w)
    && w.released <= |w.accepted| <= w.released + |w.slots| - 1
    && w.write == SlotOf(|w.accepted|, |w.slots|)
    && w.read == SlotOf(w.released, |w.slots|)
    && (forall i :: w.released <= i < |w.accepted| ==> Filled(w.slots[SlotOf(i, |w.slots|)], w.accepted[i], FIELDS))
    && CallbackInvariant(w)
    && DrainInvariant(w)
  }

  ghost predicate CallbackInvariant(w: World)
    requires WellFormed(w)
  {
    match w.callback
    case LoadedWrite(p, write) => write == w.write
    case Filling(p, write, field) =>
      write == w.write && |w.accepted| <= w.released + |w.slots| - 2 && Filled(w.slots[write], p, field)
    case _ => true
  }

  ghost predicate DrainInvariant(w: World)
    requires WellFormed(w)
  {
    && |w.taken| == w.released + (if w.drain.HandedOver? then 1 else 0)
    && w.taken <= w.accepted
    && (!w.drain.DrainIdle? ==> w.drain.read == w.read)
    && (w.drain.NonEmpty? || w.drain.Viewing? || w.drain.HandedOver? ==> w.released < |w.accepted|)
    && (w.drain.Viewing? ==> w.drain.length == |w.accepted[w.released].payload|
                             && w.drain.header == w.accepted[w.released].(payload := []))
  }

  /** Unread packets are never forgotten: a drain is under way, the signal is up, or the callback is about to raise
      it. */
  ghost predicate WakeUpInvariant(w: World) {
    w.released < |w.accepted| ==> !w.drain.DrainIdle? || w.callback.Published? || w.workRaised
  }

  lemma CallbackKeepsInvariant(w: World, packet: Packet, signalled: bool)
    requires Invariant(w) && Fits(packet)
    ensures Invariant(CallbackStep(w, packet, signalled))
  {
    match w.callback
    case LoadedWrite(p, write) =>
      RoomIsSeen(w);
    case Filling(p, write, field) =>
      if field < FIELDS { StoreKeepsInvariant(w, signalled); } else { PublishKeepsInvariant(w, signalled); }
    case _ =>
  }

  /** The callback's comparison with the read index finds the ring full exactly when depth - 1 packets are queued. */
  lemma RoomIsSeen(w: World)
    requires WellFormed(w) && w.released <= |w.accepted| <= w.released + |w.slots| - 1
    requires w.write == SlotOf(|w.accepted|, |w.slots|) && w.read == SlotOf(w.released, |w.slots|)
    ensures NextIndex(w.write, |w.slots|) == w.read <==> |w.accepted| == w.released + |w.slots| - 1
    ensures w.write == w.read <==> |w.accepted| == w.released
  {
    SuccessorIndex(|w.accepted|, |w.slots|);
    SuccessorIndex(w.released, |w.slots|);
    if NextIndex(w.write, |w.slots|) == w.read { SameResidue(w.released, |w.accepted| + 1, |w.slots|); }
    if w.write == w.read { SameResidue(w.released, |w.accepted|, |w.slots|); }
  }

  /** The slot being filled is none of the queued ones. */
  lemma FilledSlotIsFree(w: World)
    requires Invariant(w) && w.callback.Filling?
    ensures forall i :: w.released <= i < |w.accepted| ==> SlotOf(i, |w.slots|) != w.callback.write
  {
    forall i | w.released <= i < |w.accepted| ensures SlotOf(i, |w.slots|) != w.callback.write {
      if SlotOf(i, |w.slots|) == w.callback.write { SameResidue(i, |w.accepted|, |w.slots|); }
    }
  }

  lemma StoreKeepsInvariant(w: World, signalled: bool)
    requires Invariant(w) && w.callback.Filling? && w.callback.field < FIELDS
    ensures Invariant(CallbackStep(w, w.callback.packet, signalled))
  {
    FilledSlotIsFree(w);
  }

  lemma PublishKeepsInvariant(w: World, signalled: bool)
    requires Invariant(w) && w.callback.Filling? && w.callback.field == FIELDS
    ensures Invariant(CallbackStep(w, w.callback.packet, signalled))
  {
    SuccessorIndex(|w.accepted|, |w.slots|);
  }

  lemma DrainKeepsInvariant(w: World, attached: bool)
    requires Invariant(w)
    ensures Invariant(DrainStep(w, attached))
  {
    match w.drain
    case DrainIdle =>
    case LoadedRead(read) =>
      RoomIsSeen(w);
    case HandedOver(read) =>
      SuccessorIndex(w.released, |w.slots|);
    case _ =>
      ViewingKeepsInvariant(w, attached);
  }

  lemma ViewingKeepsInvariant(w: World, attached: bool)
    requires Invariant(w) && (w.drain.NonEmpty? || w.drain.Viewing?)
    ensures Invariant(DrainStep(w, attached))
  {
    var p := w.accepted[w.released];
    assert Filled(w.slots[SlotOf(w.released, |w.slots|)], p, FIELDS);
    assert View(w.slots[w.read]) == p;
    if w.drain.Viewing? {
      assert w.accepted[..w.released] + [p] == w.accepted[..w.released + 1];
    }
  }

  lemma NextKeepsInvariant(w: World, e: Event)
    requires Invariant(w) && Admissible(e)
    ensures Invariant(Next(w, e))
  {
    hide Invariant;
    match e
    case CallbackMoves(packet, signalled) => CallbackKeepsInvariant(w, packet, signalled);
    case DrainMoves(attached) => DrainKeepsInvariant(w, attached);
  }

  lemma {:induction false} InvariantLasts(w: World, events: seq<Event>)
    requires Invariant(w) && AllAdmissible(events)
    ensures Invariant(Run(w, events))
    decreases |events|
  {
    if events != [] {
      hide Invariant, Next;
      InvariantLasts(w, events[..|events| - 1]);
      NextKeepsInvariant(Run(w, events[..|events| - 1]), events[|events| - 1]);
    }
  }

  lemma RunKeepsInvariant(slots: seq<Slot>, events: seq<Event>)
    requires QueueMemory(slots) && AllAdmissible(events)
    ensures Invariant(Run(Started(slots), events))
  {
    InvariantLasts(Started(slots), events);
  }

  lemma {:induction false} PacketsAreTail(slots: seq<Slot>, accepted: seq<Packet>, from: nat)
    requires QueueMemory(slots) && from <= |accepted|
    requires forall i :: from <= i < |accepted| ==> View(slots[SlotOf(i, |slots|)]) == accepted[i]
    ensures PacketsFrom(slots, SlotOf(from, |slots|), |accepted| - from) == accepted[from..]
    decreases |accepted| - from
  {
    if from < |accepted| {
      SuccessorIndex(from, |slots|);
      PacketsAreTail(slots, accepted, from + 1);
      assert accepted[from..] == [accepted[from]] + accepted[from + 1..];
    }
  }

  lemma CountIsDistance(a: nat, b: nat, depth: nat)
    requires 2 <= depth && a <= b < a + depth
    ensures QueuedCount(SlotOf(b, depth), SlotOf(a, depth), depth) == b - a
  {
    ResidueDifference(a, b, depth);
    var d := SlotOf(b, depth) - SlotOf(a, depth);
    DivisionUnique(d, depth, if 0 <= d then 0 else -1, if 0 <= d then d else d + depth);
  }

  lemma QueuedIsUnreleased(w: World)
    requires Invariant(w)
    ensures Pending(w.slots, w.write, w.read) == w.accepted[w.released..]
  {
    forall i | w.released <= i < |w.accepted| ensures View(w.slots[SlotOf(i, |w.slots|)]) == w.accepted[i] {
      assert Filled(w.slots[SlotOf(i, |w.slots|)], w.accepted[i], FIELDS);
    }
    PacketsAreTail(w.slots, w.accepted, w.released);
    CountIsDistance(w.released, |w.accepted|, |w.slots|);
  }

  // ---- The promises ----

  /** First in, first out, nothing lost or repeated: the packets viewed are a prefix of the packets accepted, the rest
      are still queued in order, and at most depth - 1 of them are. With a receiver attached throughout, the packets
      handed over are the packets viewed. */
  lemma InOrderWithoutLoss(slots: seq<Slot>, events: seq<Event>)
    requires QueueMemory(slots) && AllAdmissible(events)
    ensures var w := Run(Started(slots), events);
            && w.taken <= w.accepted
            && w.released <= |w.accepted| <= w.released + |slots| - 1
            && w.released <= |w.taken| <= w.released + 1
            && |w.slots| == |slots|
            && Pending(w.slots, w.write, w.read) == w.accepted[w.released..]
    ensures AlwaysAttached(events) ==> Run(Started(slots), events).handed == Run(Started(slots), events).taken
  {
    RunKeepsInvariant(slots, events);
    if AlwaysAttached(events) { HandedIsTaken(Started(slots), events); }
    var w := Run(Started(slots), events);
    QueuedIsUnreleased(w);
  }

  predicate AlwaysAttached(events: seq<Event>) {
    forall i :: 0 <= i < |events| ==> events[i] != DrainMoves(false)
  }

  lemma {:induction false} HandedIsTaken(w: World, events: seq<Event>)
    requires WellFormed(w) && AllAdmissible(events) && AlwaysAttached(events) && w.handed == w.taken
    ensures Run(w, events).handed == Run(w, events).taken
    decreases |events|
  {
    if events != [] {
      HandedIsTaken(w, events[..|events| - 1]);
      HandedStaysTaken(Run(w, events[..|events| - 1]), events[|events| - 1]);
    }
  }

  lemma HandedStaysTaken(w: World, e: Event)
    requires WellFormed(w) && Admissible(e) && e != DrainMoves(false) && w.handed == w.taken
    ensures Next(w, e).handed == Next(w, e).taken
  {
  }

  /** While the receiver holds a view, no step of either thread changes the viewed slot; what the receiver reads is the
      accepted packet itself. */
  lemma ViewIsStable(slots: seq<Slot>, events: seq<Event>, e: Event)
    requires QueueMemory(slots) && AllAdmissible(events) && Admissible(e)
    ensures var w := Run(Started(slots), events);
            w.drain.NonEmpty? || w.drain.Viewing? || w.drain.HandedOver? ==>
              && w.released < |w.accepted|
              && View(w.slots[w.drain.read]) == w.accepted[w.released]
              && Next(w, e).slots[w.drain.read] == w.slots[w.drain.read]
              && (w.callback.Filling? ==> w.callback.write != w.drain.read)
  {
    RunKeepsInvariant(slots, events);
    var w := Run(Started(slots), events);
    if w.drain.NonEmpty? || w.drain.Viewing? || w.drain.HandedOver? {
      assert Filled(w.slots[SlotOf(w.released, |w.slots|)], w.accepted[w.released], FIELDS);
      if w.callback.Filling? && w.callback.write == w.drain.read {
        SameResidue(w.released, |w.accepted|, |w.slots|);
      }
    }
  }

  predicate AlwaysSignalled(events: seq<Event>) {
    forall i :: 0 <= i < |events| ==> events[i].CallbackMoves? ==> events[i].signalled
  }

  lemma {:induction false} WaitingWorkIsSignalled(slots: seq<Slot>, events: seq<Event>)
    requires QueueMemory(slots) && AllAdmissible(events) && AlwaysSignalled(events)
    ensures WakeUpInvariant(Run(Started(slots), events))
    decreases |events|
  {
    hide Invariant, Next;
    if events != [] {
      var before, last := events[..|events| - 1], events[|events| - 1];
      WaitingWorkIsSignalled(slots, before);
      RunKeepsInvariant(slots, before);
      StepKeepsSignal(Run(Started(slots), before), last);
    }
  }

  lemma StepKeepsSignal(w: World, e: Event)
    requires Invariant(w) && WakeUpInvariant(w) && Admissible(e) && (e.CallbackMoves? ==> e.signalled)
    ensures WakeUpInvariant(Next(w, e))
  {
    if w.drain.LoadedRead? { RoomIsSeen(w); }
  }

  /** A frame is refused exactly when depth - 1 packets are queued, a drain ends exactly when none is, and with a work
      signal set throughout, packets waiting with both threads idle have raised it since the last drain began. */
  lemma RefusedOnlyWhenFull(slots: seq<Slot>, events: seq<Event>, packet: Packet, signalled: bool, attached: bool)
    requires QueueMemory(slots) && AllAdmissible(events) && Fits(packet)
    ensures var w := Run(Started(slots), events);
            && (w.callback.LoadedWrite? ==>
                  (Next(w, CallbackMoves(packet, signalled)).callback.CallbackIdle? <==>
                   |w.accepted| - w.released == |w.slots| - 1))
            && (w.drain.LoadedRead? ==>
                  (Next(w, DrainMoves(attached)).drain.DrainIdle? <==> |w.accepted| == w.released))
            && (AlwaysSignalled(events) && w.callback.CallbackIdle? && w.drain.DrainIdle? &&
                w.released < |w.accepted| ==>
                  w.workRaised)
  {
    RunKeepsInvariant(slots, events);
    if AlwaysSignalled(events) { WaitingWorkIsSignalled(slots, events); }
    var w := Run(Started(slots), events);
    RoomIsSeen(w);
  }

  // ---- Every frame and every queued packet gets through ----

  /** How often the callback moves. */
  function CallbackMovesIn(events: seq<Event>): nat
    decreases |events|
  {
    if events == [] then 0
    else CallbackMovesIn(events[..|events| - 1]) + if events[|events| - 1].CallbackMoves? then 1 else 0
  }

  function DrainMovesIn(events: seq<Event>): nat
    decreases |events|
  {
    if events == [] then 0
    else DrainMovesIn(events[..|events| - 1]) + if events[|events| - 1].DrainMoves? then 1 else 0
  }

  /** A callback that has found room stores the fields one move at a time and then publishes the packet, whatever the
      drain does in between. */
  lemma {:induction false} FillingPublishes(w: World, events: seq<Event>)
    requires WellFormed(w) && AllAdmissible(events) && w.callback.Filling?
    requires w.callback.field + CallbackMovesIn(events) <= FIELDS + 1
    ensures var after, field := Run(w, events), w.callback.field + CallbackMovesIn(events);
            if field <= FIELDS
            then after.callback == Filling(w.callback.packet, w.callback.write, field) && after.accepted == w.accepted
            else after.callback == Published && after.accepted == w.accepted + [w.callback.packet]
    decreases |events|
  {
    if events != [] {
      hide StoreField, WellFormed;
      var front := events[..|events| - 1];
      assert AllAdmissible(front);
      FillingPublishes(w, front);
    }
  }

  /** Before it looks for room, the callback waits with its frame, whatever the drain does. */
  lemma {:induction false} LoadedWaits(w: World, drains: seq<Event>)
    requires WellFormed(w) && AllAdmissible(drains) && w.callback.LoadedWrite? && CallbackMovesIn(drains) == 0
    ensures Run(w, drains).callback == w.callback && Run(w, drains).accepted == w.accepted
    decreases |drains|
  {
    if drains != [] {
      hide WellFormed;
      var front := drains[..|drains| - 1];
      assert AllAdmissible(front);
      LoadedWaits(w, front);
    }
  }

  /** In every reachable world, a frame that the idle callback receives is refused exactly when depth - 1 packets are
      queued at the move that looks for room; otherwise the callback's following moves, with any drain moves in between,
      accept exactly this packet, and the callback is idle again one move later. */
  lemma FrameAcceptedUnlessFull(slots: seq<Slot>, events: seq<Event>, frame: Event, waiting: seq<Event>, look: Event,
                                filling: seq<Event>, last: Event)
    requires QueueMemory(slots) && AllAdmissible(events) && AllAdmissible(waiting) && AllAdmissible(filling)
    requires frame.CallbackMoves? && look.CallbackMoves? && last.CallbackMoves?
    requires Admissible(frame) && Admissible(look) && Admissible(last)
    requires CallbackMovesIn(waiting) == 0 && CallbackMovesIn(filling) == FIELDS + 1
    requires Run(Started(slots), events).callback.CallbackIdle?
    ensures var idle := Run(Started(slots), events);
            var w := Run(Next(idle, frame), waiting);
            var looked := Next(w, look);
            var after := Run(looked, filling);
            && w.accepted == looked.accepted == idle.accepted
            && (looked.callback.CallbackIdle? <==> |w.accepted| - w.released == |slots| - 1)
            && (!looked.callback.CallbackIdle? ==> after.accepted == idle.accepted + [frame.packet] &&
                                                   Next(after, last).callback.CallbackIdle? &&
                                                   Next(after, last).accepted == after.accepted)
  {
    RunKeepsInvariant(slots, events);
    var idle := Run(Started(slots), events);
    var loaded := Next(idle, frame);
    NextKeepsInvariant(idle, frame);
    InvariantLasts(loaded, waiting);
    LoadedWaits(loaded, waiting);
    var w := Run(loaded, waiting);
    RoomIsSeen(w);
    var looked := Next(w, look);
    hide Invariant;
    if !looked.callback.CallbackIdle? { FillingPublishes(looked, filling); }
  }

  /** A drain that has found a packet copies it, finishes its view and releases it in three moves, whatever the callback
      does in between. */
  lemma {:induction false} FoundIsTaken(w: World, events: seq<Event>)
    requires Invariant(w) && AllAdmissible(events) && w.drain.NonEmpty? && DrainMovesIn(events) <= 3
    ensures var after, moves := Run(w, events), DrainMovesIn(events);
            && Invariant(after) && w.accepted <= after.accepted
            && after.released == w.released + (if moves == 3 then 1 else 0)
            && after.drain.NonEmpty? == (moves == 0) && after.drain.Viewing? == (moves == 1)
            && after.drain.HandedOver? == (moves == 2) && after.drain.LoadedRead? == (moves == 3)
    decreases |events|
  {
    if events != [] {
      hide Invariant, Next;
      var front := events[..|events| - 1];
      FoundIsTaken(w, front);
      FoundMoves(Run(w, front), events[|events| - 1]);
    }
  }

  lemma FoundMoves(w: World, e: Event)
    requires Invariant(w) && Admissible(e)
    ensures Invariant(Next(w, e)) && w.accepted <= Next(w, e).accepted
    ensures var after, moves := Next(w, e), e.DrainMoves?;
            && after.released == w.released + (if moves && w.drain.HandedOver? then 1 else 0)
            && (!moves ==> after.drain == w.drain)
            && (moves ==> after.drain.Viewing? == w.drain.NonEmpty? && after.drain.HandedOver? == w.drain.Viewing? &&
                          (w.drain.HandedOver? ==> after.drain.LoadedRead?))
  {
    NextKeepsInvariant(w, e);
    hide Invariant;
  }

  /** In every reachable world, a drain that looks for a packet ends exactly when none is queued; otherwise its
      following moves, with any callback moves in between, take exactly the oldest queued packet, and one more move
      releases it and looks again. */
  lemma DrainTakesOldest(slots: seq<Slot>, events: seq<Event>, look: Event, taking: seq<Event>, last: Event)
    requires QueueMemory(slots) && AllAdmissible(events) && AllAdmissible(taking)
    requires look.DrainMoves? && last.DrainMoves? && DrainMovesIn(taking) == 2
    requires Run(Started(slots), events).drain.LoadedRead?
    ensures var w := Run(Started(slots), events);
            var looked := Next(w, look);
            var after := Run(looked, taking);
            && (looked.drain.DrainIdle? <==> w.released == |w.accepted|)
            && (!looked.drain.DrainIdle? ==> w.released < |w.accepted| &&
                                             after.taken == w.taken + [w.accepted[w.released]] &&
                                             Next(after, last).released == w.released + 1 &&
                                             Next(after, last).drain.LoadedRead?)
  {
    RunKeepsInvariant(slots, events);
    var w := Run(Started(slots), events);
    hide Invariant, Next, Run, DrainMovesIn, Started;
    DrainLooks(w, look);
    TakenIsPrefix(w);
    var looked := Next(w, look);
    if !looked.drain.DrainIdle? {
      FoundIsTaken(looked, taking);
      var after := Run(looked, taking);
      TakenIsPrefix(after);
      FoundMoves(after, last);
      PrefixNext(w.accepted, after.accepted, w.released);
    }
  }

  lemma DrainLooks(w: World, look: Event)
    requires Invariant(w) && look.DrainMoves? && w.drain.LoadedRead?
    ensures var looked := Next(w, look);
            && Invariant(looked) && looked.accepted == w.accepted && looked.released == w.released
            && (looked.drain.DrainIdle? <==> w.released == |w.accepted|)
            && (!looked.drain.DrainIdle? ==> looked.drain.NonEmpty?)
  {
    RoomIsSeen(w);
    NextKeepsInvariant(w, look);
  }

  lemma PrefixNext(less: seq<Packet>, more: seq<Packet>, count: nat)
    requires less <= more && count < |less|
    ensures more[..count + 1] == less[..count] + [less[count]]
  {
  }

  lemma TakenIsPrefix(w: World)
    requires Invariant(w)
    ensures var count := w.released + if w.drain.HandedOver? then 1 else 0;
            count <= |w.accepted| && w.taken == w.accepted[..count]
  {
  }

  /** A drain that is not under way starts with its next move. The signal is up from the move by which a callback raises
      it to the start of the next drain. */
  lemma DrainStarts(w: World, e: Event)
    requires WellFormed(w) && Admissible(e)
    ensures e.DrainMoves? && w.drain.DrainIdle? ==> Next(w, e).drain == LoadedRead(w.read)
    ensures Next(w, e).workRaised ==
            if e.DrainMoves? then w.workRaised && !w.drain.DrainIdle?
            else w.workRaised || (w.callback.Published? && e.signalled)
  {
  }
}
