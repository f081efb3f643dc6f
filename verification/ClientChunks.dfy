/** Reassembly of received frames by the WebSocket client, from the chunks its native library reports by offset. */
module ClientChunks {
  import opened Bytes
  import opened Sequences
  import opened Wrappers

  const MAXIMUM_MESSAGE := 65536

  const CONTINUATION: byte := 0x0
  const TEXT: byte := 0x1
  const BINARY: byte := 0x2
  const CLOSE: byte := 0x8
  const PING: byte := 0x9
  const PONG: byte := 0xA

  /** A native DATA event: `data` is None for a null pointer. */
  datatype DataEvent = DataEvent(opcode: byte, payloadLength: int, offset: int, dataLength: int,
                                 data: Option<seq<byte>>)

  /** The native library's own promise: a pointer that is not null has the announced number of bytes. */
  type NativeEvent = e: DataEvent | e.data.Some? ==> |e.data.value| == e.dataLength
    witness DataEvent(TEXT, 0, 0, 0, None)

  /** A completed frame; its payload is None for a null pointer with a positive length. */
  datatype Message = Message(opcode: byte, payload: Option<seq<byte>>)

  /** The frame being filled; opcode 0 when there is none. */
  datatype Incoming = Incoming(frame: seq<byte>, opcode: byte)

  const NO_FRAME := Incoming([], 0)

  // ---- One event ----

  predicate InRange(e: DataEvent) {
    && 0 <= e.payloadLength <= MAXIMUM_MESSAGE && 0 <= e.offset <= e.payloadLength
    && 0 <= e.dataLength <= e.payloadLength - e.offset
  }

  predicate IsDropped(e: DataEvent) {
    !InRange(e) || e.opcode == PING || e.opcode == PONG || e.opcode == CONTINUATION
  }

  predicate IsWhole(e: DataEvent) { e.offset == 0 && e.dataLength == e.payloadLength }

  predicate IsData(opcode: byte) { opcode == TEXT || opcode == BINARY }

  function Zeros(count: nat): seq<byte> { seq(count, i => 0) }

  function Begun(a: Incoming, e: DataEvent): Incoming
    requires InRange(e)
  {
    if e.offset == 0 then Incoming(Zeros(e.payloadLength), e.opcode) else a
  }

  predicate Mismatched(a: Incoming, e: DataEvent) {
    |a.frame| != e.payloadLength || a.opcode != e.opcode || (e.dataLength != 0 && e.data.None?)
  }

  function Filled(a: Incoming, e: NativeEvent): seq<byte>
    requires InRange(e) && !Mismatched(a, e)
  {
    if e.dataLength == 0 then a.frame else Overwrite(a.frame, e.offset, e.data.value)
  }

  /** The frame being filled after an event. */
  function Next(a: Incoming, e: NativeEvent): Incoming {
    if IsDropped(e) || IsWhole(e) then a
    else
      var begun := Begun(a, e);
      if Mismatched(begun, e) || e.offset + e.dataLength == e.payloadLength then NO_FRAME
      else begun.(frame := Filled(begun, e))
  }

  /** The frame an event completes, if any. */
  function Completes(a: Incoming, e: NativeEvent): Option<Message> {
    if IsDropped(e) then None
    else if IsWhole(e) then Some(Message(e.opcode, if e.dataLength == 0 then Some([]) else e.data))
    else
      var begun := Begun(a, e);
      if Mismatched(begun, e) || e.offset + e.dataLength != e.payloadLength then None
      else Some(Message(e.opcode, Some(Filled(begun, e))))
  }

  /** A frame completes with the length and opcode that its first chunk declared, and nothing but a first chunk sets
      them. */
  lemma CompletesAsBegun(a: Incoming, e: NativeEvent)
    ensures Completes(a, e).Some? ==>
              var m := Completes(a, e).value;
              m.opcode == e.opcode && (m.payload.Some? ==> |m.payload.value| == e.payloadLength <= MAXIMUM_MESSAGE)
    ensures Completes(a, e).Some? && !IsWhole(e) ==>
              e.offset != 0 && a.opcode == e.opcode && |a.frame| == e.payloadLength && Next(a, e) == NO_FRAME
    ensures Next(a, e) == NO_FRAME || (Next(a, e).opcode == a.opcode && |Next(a, e).frame| == |a.frame|) ||
            (e.offset == 0 && Next(a, e).opcode == e.opcode && |Next(a, e).frame| == e.payloadLength)
  {
  }

  // ---- Runs ----

  /** An event, and whether the link is up when the frame it completes is dispatched. */
  datatype Arrival = Arrival(event: NativeEvent, connected: bool)

  datatype Reception = Reception(incoming: Incoming, dispatched: seq<Message>)

  function Dispatched(a: Incoming, arrival: Arrival): seq<Message> {
    match Completes(a, arrival.event)
    case None => []
    case Some(m) => if IsData(m.opcode) && arrival.connected then [m] else []
  }

  function Handle(r: Reception, arrival: Arrival): Reception {
    Reception(Next(r.incoming, arrival.event), r.dispatched + Dispatched(r.incoming, arrival))
  }

  function HandleAll(r: Reception, arrivals: seq<Arrival>): Reception
    decreases |arrivals|
  {
    if arrivals == [] then r else Handle(HandleAll(r, arrivals[..|arrivals| - 1]), arrivals[|arrivals| - 1])
  }

  predicate Bounded(r: Reception) {
    && |r.incoming.frame| <= MAXIMUM_MESSAGE
    && (r.incoming.frame == [] <==> r.incoming.opcode == 0)
    && forall i :: 0 <= i < |r.dispatched| ==>
         && IsData(r.dispatched[i].opcode)
         && (r.dispatched[i].payload.Some? ==> |r.dispatched[i].payload.value| <= MAXIMUM_MESSAGE)
  }

  lemma HandleKeepsBounded(r: Reception, arrival: Arrival)
    requires Bounded(r)
    ensures Bounded(Handle(r, arrival))
  {
    CompletesAsBegun(r.incoming, arrival.event);
  }

  lemma ClearedStaysBounded(r: Reception)
    requires Bounded(r)
    ensures Bounded(r.(incoming := NO_FRAME))
  {
  }

  /** Whatever events arrive, the frame being filled and every dispatched message stay within the maximum. */
  lemma {:induction false} AlwaysBounded(r: Reception, arrivals: seq<Arrival>)
    requires Bounded(r)
    ensures Bounded(HandleAll(r, arrivals))
    decreases |arrivals|
  {
    if arrivals != [] {
      AlwaysBounded(r, arrivals[..|arrivals| - 1]);
      HandleKeepsBounded(HandleAll(r, arrivals[..|arrivals| - 1]), arrivals[|arrivals| - 1]);
    }
  }

  lemma {:induction false} HandleJoin(r: Reception, a: seq<Arrival>, b: seq<Arrival>)
    ensures HandleAll(r, a + b) == HandleAll(HandleAll(r, a), b)
    decreases |b|
  {
    hide Handle;
    if b == [] {
      assert a + b == a;
    } else {
      HandleJoin(r, a, b[..|b| - 1]);
      assert (a + b)[..|a + b| - 1] == a + b[..|b| - 1];
    }
  }

  // ---- Frames and the ways to cut them ----

  datatype Cut = Cut(opcode: byte, chunks: seq<seq<byte>>)

  function Original(cut: Cut): Message { Message(cut.opcode, Some(Flatten(cut.chunks))) }

  /** A text or binary frame of at most the maximum, cut into nonempty chunks; the empty frame is one empty chunk. */
  ghost predicate IsSendable(cut: Cut) {
    && IsData(cut.opcode) && |Flatten(cut.chunks)| <= MAXIMUM_MESSAGE && cut.chunks != []
    && (|cut.chunks| == 1 || [] !in cut.chunks)
  }

  type Sendable = c: Cut | IsSendable(c) ghost witness Cut(TEXT, [[]])

  function ChunkEvent(opcode: byte, total: nat, offset: nat, chunk: seq<byte>): NativeEvent {
    DataEvent(opcode, total, offset, |chunk|, Some(chunk))
  }

  /** The events of the chunks, in order, on a link that stays up. */
  function ChunkArrivals(opcode: byte, total: nat, chunks: seq<seq<byte>>): seq<Arrival>
    decreases |chunks|
  {
    if chunks == [] then []
    else
      var front, last := chunks[..|chunks| - 1], chunks[|chunks| - 1];
      ChunkArrivals(opcode, total, front) + [Arrival(ChunkEvent(opcode, total, |Flatten(front)|, last), true)]
  }

  function ArrivalsOf(cut: Cut): seq<Arrival> { ChunkArrivals(cut.opcode, |Flatten(cut.chunks)|, cut.chunks) }

  function AllArrivals(cuts: seq<Cut>): seq<Arrival>
    decreases |cuts|
  {
    if cuts == [] then [] else AllArrivals(cuts[..|cuts| - 1]) + ArrivalsOf(cuts[|cuts| - 1])
  }

  function Originals(cuts: seq<Cut>): seq<Message> {
    seq(|cuts|, i requires 0 <= i < |cuts| => Original(cuts[i]))
  }

  /** Part of a frame: what has arrived is in place, the rest is zero. */
  function Partial(opcode: byte, total: nat, done: seq<byte>): Incoming
    requires |done| <= total
  {
    Incoming(done + Zeros(total - |done|), opcode)
  }

  lemma FirstChunk(a: Incoming, opcode: byte, total: nat, chunk: seq<byte>)
    requires IsData(opcode) && 0 < |chunk| < total <= MAXIMUM_MESSAGE
    ensures var e := ChunkEvent(opcode, total, 0, chunk);
            Next(a, e) == Partial(opcode, total, chunk) && Completes(a, e) == None
  {
    var e := ChunkEvent(opcode, total, 0, chunk);
    assert Overwrite(Zeros(total), 0, chunk) == chunk + Zeros(total - |chunk|);
  }

  lemma LaterChunk(opcode: byte, total: nat, done: seq<byte>, chunk: seq<byte>)
    requires IsData(opcode) && chunk != [] && done != [] && |done| + |chunk| <= total <= MAXIMUM_MESSAGE
    ensures var a, e := Partial(opcode, total, done), ChunkEvent(opcode, total, |done|, chunk);
            if |done| + |chunk| == total
            then Next(a, e) == NO_FRAME && Completes(a, e) == Some(Message(opcode, Some(done + chunk)))
            else Next(a, e) == Partial(opcode, total, done + chunk) && Completes(a, e) == None
  {
    var a := Partial(opcode, total, done);
    var filled := Overwrite(a.frame, |done|, chunk);
    assert filled == done + chunk + Zeros(total - |done| - |chunk|);
    if |done| + |chunk| == total { assert filled == done + chunk; }
  }

  lemma {:induction false} ChunksArrive(r: Reception, opcode: byte, total: nat, chunks: seq<seq<byte>>)
    requires IsData(opcode) && total <= MAXIMUM_MESSAGE && chunks != [] && [] !in chunks
    requires |Flatten(chunks)| <= total && (|Flatten(chunks)| == total ==> |chunks| > 1)
    ensures HandleAll(r, ChunkArrivals(opcode, total, chunks)) ==
            if |Flatten(chunks)| == total
            then Reception(NO_FRAME, r.dispatched + [Message(opcode, Some(Flatten(chunks)))])
            else r.(incoming := Partial(opcode, total, Flatten(chunks)))
    decreases |chunks|
  {
    hide Next, Completes, Partial, IsDropped, IsWhole, HandleAll, ChunkArrivals;
    var front, last := chunks[..|chunks| - 1], chunks[|chunks| - 1];
    assert chunks == front + [last];
    ChunkArrivalsNext(r, opcode, total, front, last);
    FlattenSnoc(front, last);
    if front == [] {
      FirstChunk(r.incoming, opcode, total, last);
      assert Flatten(chunks) == last;
    } else {
      assert front[0] != [] && Flatten(front) != [];
      ChunksArrive(r, opcode, total, front);
      LaterChunk(opcode, total, Flatten(front), last);
    }
  }

  lemma ChunkArrivalsNext(r: Reception, opcode: byte, total: nat, front: seq<seq<byte>>, last: seq<byte>)
    ensures var arrival := Arrival(ChunkEvent(opcode, total, |Flatten(front)|, last), true);
            HandleAll(r, ChunkArrivals(opcode, total, front + [last])) ==
            Handle(HandleAll(r, ChunkArrivals(opcode, total, front)), arrival)
    ensures HandleAll(r, ChunkArrivals(opcode, total, [])) == r
  {
    hide Handle, Flatten;
    var arrivals := ChunkArrivals(opcode, total, front + [last]);
    assert (front + [last])[..|front|] == front;
    assert arrivals[..|arrivals| - 1] == ChunkArrivals(opcode, total, front);
  }

  /** The chunks of one frame dispatch it once, with its opcode and bytes, whatever was being filled before. */
  lemma CutArrives(r: Reception, cut: Sendable)
    ensures HandleAll(r, ArrivalsOf(cut)) ==
            Reception(if |cut.chunks| == 1 then r.incoming else NO_FRAME, r.dispatched + [Original(cut)])
  {
    if |cut.chunks| == 1 {
      var chunk := cut.chunks[0];
      assert cut.chunks[..0] == [] && cut.chunks[1..] == [];
      assert Flatten(cut.chunks) == chunk && Flatten(cut.chunks[..0]) == [];
      var arrival := Arrival(ChunkEvent(cut.opcode, |chunk|, 0, chunk), true);
      assert ChunkArrivals(cut.opcode, |chunk|, cut.chunks) == [] + [arrival] by {
        assert ChunkArrivals(cut.opcode, |chunk|, cut.chunks[..0]) == [];
      }
      assert HandleAll(r, [arrival][..0]) == r;
      assert HandleAll(r, [arrival]) == Handle(r, arrival);
    } else {
      ChunksArrive(r, cut.opcode, |Flatten(cut.chunks)|, cut.chunks);
    }
  }

  lemma {:induction false} CutsArrive(r: Reception, cuts: seq<Sendable>)
    ensures HandleAll(r, AllArrivals(cuts)).dispatched == r.dispatched + Originals(cuts)
    decreases |cuts|
  {
    hide IsSendable, ArrivalsOf, Original, HandleAll, Handle, Originals, AllArrivals;
    if cuts == [] {
      NothingArrives(r);
    } else {
      var front, last := cuts[..|cuts| - 1], cuts[|cuts| - 1];
      CutsArrive(r, front);
      CutsNext(front, last);
      assert cuts == front + [last];
      OneMoreArrives(r, AllArrivals(front), last);
    }
  }

  lemma NothingArrives(r: Reception)
    ensures HandleAll(r, AllArrivals([])) == r && Originals([]) == []
  {
  }

  lemma OneMoreArrives(r: Reception, arrivals: seq<Arrival>, last: Sendable)
    ensures HandleAll(r, arrivals + ArrivalsOf(last)).dispatched == HandleAll(r, arrivals).dispatched + [Original(last)]
  {
    hide IsSendable, ArrivalsOf, Original, HandleAll, Handle;
    HandleJoin(r, arrivals, ArrivalsOf(last));
    CutArrives(HandleAll(r, arrivals), last);
  }

  lemma CutsNext(front: seq<Cut>, last: Cut)
    ensures AllArrivals(front + [last]) == AllArrivals(front) + ArrivalsOf(last)
    ensures Originals(front + [last]) == Originals(front) + [Original(last)]
  {
    hide Original, ArrivalsOf;
    assert (front + [last])[..|front|] == front;
  }

  // ---- Events in between ----

  /** Pings, pongs, continuations, events out of range, and whole frames that are neither text nor binary. */
  predicate IsAside(e: DataEvent) { IsDropped(e) || (IsWhole(e) && !IsData(e.opcode)) }

  /** Among them every ping, pong and continuation, and every event that does not lie in a message of at most 65536
      bytes. */
  lemma AsideOpcodes(e: DataEvent)
    ensures e.opcode in {0x0, 0x9, 0xA} ==> IsAside(e)
    ensures e.payloadLength < 0 || e.payloadLength > 65536 || e.offset < 0 || e.dataLength < 0 ==> IsAside(e)
    ensures e.offset + e.dataLength > e.payloadLength ==> IsAside(e)
  {
  }

  function WithoutAsides(arrivals: seq<Arrival>): seq<Arrival>
    decreases |arrivals|
  {
    if arrivals == [] then []
    else
      var last := arrivals[|arrivals| - 1];
      WithoutAsides(arrivals[..|arrivals| - 1]) + if IsAside(last.event) then [] else [last]
  }

  /** Such events, wherever they fall, change neither the frame being filled nor what is dispatched. */
  lemma {:induction false} AsidesAreTransparent(r: Reception, arrivals: seq<Arrival>)
    ensures HandleAll(r, arrivals) == HandleAll(r, WithoutAsides(arrivals))
    decreases |arrivals|
  {
    if arrivals != [] {
      var front, last := arrivals[..|arrivals| - 1], arrivals[|arrivals| - 1];
      AsidesAreTransparent(r, front);
      if IsAside(last.event) {
        assert WithoutAsides(arrivals) == WithoutAsides(front);
      } else {
        assert WithoutAsides(arrivals)[..|WithoutAsides(front)|] == WithoutAsides(front);
      }
    }
  }

  /** Chunk reassembly: every split of text and binary frames into in-order chunks, with any such events in between,
      dispatches exactly the original frames, once each and in order. */
  lemma ChunkingIsTransparent(r: Reception, cuts: seq<Sendable>, arrivals: seq<Arrival>)
    requires WithoutAsides(arrivals) == AllArrivals(cuts)
    ensures HandleAll(r, arrivals).dispatched == r.dispatched + Originals(cuts)
  {
    AsidesAreTransparent(r, arrivals);
    CutsArrive(r, cuts);
  }

  lemma LastDiffers(front: seq<Message>, x: Message, y: Message)
    ensures front + [x] == front + [y] <==> x == y
  {
    assert (front + [x])[|front|] == x && (front + [y])[|front|] == y;
  }
}
