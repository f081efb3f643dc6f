/** What the WebSocket client dispatches from arbitrary chunk events, and from frames some of whose chunks are lost. */
module ClientChunkLoss {
  import opened Bytes
  import opened Sequences
  import opened Wrappers
  import opened ClientChunks

  // ---- Arbitrary events ----

  /** A chunk that is taken up: a first chunk, or one that declares the opcode and length of the frame `before`. */
  predicate Belongs(before: seq<NativeEvent>, e: NativeEvent) {
    && (e.dataLength == 0 || e.data.Some?)
    && (e.offset == 0 || (before != [] && before[0].opcode == e.opcode && before[0].payloadLength == e.payloadLength))
  }

  /** Chunk events of one frame: the first at offset 0, the others behind it, all with its opcode and length. */
  predicate OfOneFrame(events: seq<NativeEvent>) {
    forall i :: 0 <= i < |events| ==>
      && !IsDropped(events[i]) && !IsWhole(events[i]) && (events[i].offset == 0 <==> i == 0)
      && events[i].opcode == events[0].opcode && events[i].payloadLength == events[0].payloadLength
  }

  /** The chunk events that make up the frame being filled after a run: those since the last one at offset 0, none if a
      chunk in between completed that frame or did not belong to it. */
  function Since(arrivals: seq<Arrival>): (events: seq<NativeEvent>)
    ensures OfOneFrame(events)
    decreases |arrivals|
  {
    if arrivals == [] then []
    else
      var before, e := Since(arrivals[..|arrivals| - 1]), arrivals[|arrivals| - 1].event;
      if IsDropped(e) || IsWhole(e) then before
      else if !Belongs(before, e) || e.offset + e.dataLength == e.payloadLength then []
      else if e.offset == 0 then [e] else before + [e]
  }

  /** The byte that the last event covering offset `k` put there; zero if none covers it. */
  function Shown(events: seq<NativeEvent>, k: int): byte
    decreases |events|
  {
    if events == [] then 0
    else
      var e := events[|events| - 1];
      if Covers(e, k) then e.data.value[k - e.offset] else Shown(events[..|events| - 1], k)
  }

  predicate Covers(e: NativeEvent, k: int) { e.data.Some? && e.offset <= k < e.offset + |e.data.value| }

  /** Zeros overlaid by the events, later ones on top. */
  function Overlay(total: nat, events: seq<NativeEvent>): seq<byte> {
    seq(total, k requires 0 <= k < total => Shown(events, k))
  }

  function FrameOf(events: seq<NativeEvent>): Incoming
    requires OfOneFrame(events)
  {
    if events == [] then NO_FRAME else Incoming(Overlay(events[0].payloadLength, events), events[0].opcode)
  }

  /** The message an arrival dispatches after a run: a whole frame's payload, or the overlay its chunk completes. */
  function Dispatch(front: seq<Arrival>, last: Arrival): seq<Message> {
    var e := last.event;
    if IsDropped(e) || !IsData(e.opcode) || !last.connected then []
    else if IsWhole(e) then [Message(e.opcode, if e.dataLength == 0 then Some([]) else e.data)]
    else if Belongs(Since(front), e) && e.offset + e.dataLength == e.payloadLength then
      [Message(e.opcode, Some(Overlay(e.payloadLength, Since(front) + [e])))]
    else []
  }

  function Dispatches(arrivals: seq<Arrival>): seq<Message>
    decreases |arrivals|
  {
    if arrivals == [] then []
    else
      var front := arrivals[..|arrivals| - 1];
      Dispatches(front) + Dispatch(front, arrivals[|arrivals| - 1])
  }

  lemma OverlayNext(a: Incoming, before: seq<NativeEvent>, e: NativeEvent)
    requires !IsDropped(e) && !IsWhole(e) && OfOneFrame(before) && a == FrameOf(before) && Belongs(before, e)
    ensures !Mismatched(Begun(a, e), e)
    ensures Filled(Begun(a, e), e) == Overlay(e.payloadLength, if e.offset == 0 then [e] else before + [e])
  {
    var begun, events := Begun(a, e), if e.offset == 0 then [e] else before + [e];
    var filled := Filled(begun, e);
    assert events[..|events| - 1] == if e.offset == 0 then [] else before;
    assert forall k :: 0 <= k < e.payloadLength ==> filled[k] == Shown(events, k);
  }

  lemma Strays(a: Incoming, before: seq<NativeEvent>, e: NativeEvent)
    requires !IsDropped(e) && !IsWhole(e) && OfOneFrame(before) && a == FrameOf(before) && !Belongs(before, e)
    ensures Next(a, e) == NO_FRAME && Completes(a, e) == None
  {
  }

  lemma OneArrival(a: Incoming, front: seq<Arrival>, last: Arrival)
    requires a == FrameOf(Since(front))
    ensures Next(a, last.event) == FrameOf(Since(front + [last]))
    ensures Dispatched(a, last) == Dispatch(front, last)
  {
    hide Overlay, Filled, OfOneFrame;
    var before, e := Since(front), last.event;
    assert (front + [last])[..|front|] == front;
    if !IsDropped(e) && !IsWhole(e) {
      if Belongs(before, e) { OverlayNext(a, before, e); } else { Strays(a, before, e); }
    }
  }

  /** Whatever events arrive: the frame being filled is zeros overlaid by the chunk events since the last one at
      offset 0, and every dispatched message is a whole frame's payload or such an overlay. */
  lemma {:induction false} DispatchesOverlays(dispatched: seq<Message>, arrivals: seq<Arrival>)
    ensures HandleAll(Reception(NO_FRAME, dispatched), arrivals) ==
            Reception(FrameOf(Since(arrivals)), dispatched + Dispatches(arrivals))
    decreases |arrivals|
  {
    if arrivals != [] {
      hide Since, FrameOf, Dispatch, Next, Dispatched;
      var front, last := arrivals[..|arrivals| - 1], arrivals[|arrivals| - 1];
      DispatchesOverlays(dispatched, front);
      assert arrivals == front + [last];
      OneArrival(FrameOf(Since(front)), front, last);
    }
  }

  /** The chunk events of a run, in order. */
  function Chunks(arrivals: seq<Arrival>): seq<NativeEvent>
    decreases |arrivals|
  {
    if arrivals == [] then []
    else
      var e := arrivals[|arrivals| - 1].event;
      Chunks(arrivals[..|arrivals| - 1]) + if IsDropped(e) || IsWhole(e) then [] else [e]
  }

  /** The events that make up a frame are all chunk events from the last one at offset 0 on. */
  lemma {:induction false} SinceIsTail(arrivals: seq<Arrival>) returns (from: nat)
    requires Since(arrivals) != []
    ensures from < |arrivals| && Since(arrivals) == Chunks(arrivals[from..]) &&
            arrivals[from].event == Since(arrivals)[0]
    decreases |arrivals|
  {
    var front, last := arrivals[..|arrivals| - 1], arrivals[|arrivals| - 1];
    var e := last.event;
    if !IsDropped(e) && !IsWhole(e) && e.offset == 0 {
      from := |front|;
      assert arrivals[from..] == [last] && [last][..0] == [];
      assert Chunks([last]) == Chunks([]) + [e];
    } else {
      from := SinceIsTail(front);
      assert arrivals[from..][..|arrivals[from..]| - 1] == front[from..];
    }
  }

  /** A chunk of this frame: its declared opcode and length, and the frame's own bytes at its offset. */
  predicate ChunkOf(e: NativeEvent, opcode: byte, payload: seq<byte>) {
    && !IsDropped(e) && e.opcode == opcode && e.payloadLength == |payload|
    && e.data == Some(payload[e.offset..e.offset + e.dataLength])
  }

  lemma {:induction false} ShownOfFrame(events: seq<NativeEvent>, opcode: byte, payload: seq<byte>, k: nat)
    requires k < |payload| && forall e :: e in events ==> ChunkOf(e, opcode, payload)
    ensures Shown(events, k) == if exists e :: e in events && Covers(e, k) then payload[k] else 0
    decreases |events|
  {
    if events != [] {
      var front, last := events[..|events| - 1], events[|events| - 1];
      assert events == front + [last];
      ShownOfFrame(front, opcode, payload, k);
      assert ChunkOf(last, opcode, payload);
    }
  }

  /** Chunks of one frame, in any order, with any losses and repetitions, show that frame exactly when every byte that
      none of them covers is zero. */
  lemma OverlayIntactIff(events: seq<NativeEvent>, opcode: byte, payload: seq<byte>)
    requires forall e :: e in events ==> ChunkOf(e, opcode, payload)
    ensures Overlay(|payload|, events) == payload <==>
            forall k :: 0 <= k < |payload| && (forall e :: e in events ==> !Covers(e, k)) ==> payload[k] == 0
  {
    var overlay := Overlay(|payload|, events);
    forall k | 0 <= k < |payload|
      ensures overlay[k] == if exists e :: e in events && Covers(e, k) then payload[k] else 0
    {
      ShownOfFrame(events, opcode, payload, k);
    }
    if overlay == payload {
      forall k | 0 <= k < |payload| && (forall e :: e in events ==> !Covers(e, k)) ensures payload[k] == 0 {
        assert overlay[k] == 0;
      }
    }
  }

  // ---- Frames some of whose chunks are lost ----

  /** A frame sent in chunks, and which of them arrive. */
  datatype Lossy = Lossy(cut: Cut, kept: seq<bool>)

  ghost predicate IsTransmission(t: Lossy) { IsSendable(t.cut) && |t.kept| == |t.cut.chunks| }

  type Transmission = t: Lossy | IsTransmission(t) ghost witness Lossy(Cut(TEXT, [[]]), [true])

  /** The events of the chunks that arrive, in order. */
  function KeptArrivals(opcode: byte, total: nat, chunks: seq<seq<byte>>, kept: seq<bool>): seq<Arrival>
    requires |kept| == |chunks|
    decreases |chunks|
  {
    if chunks == [] then []
    else
      var n := |chunks| - 1;
      KeptArrivals(opcode, total, chunks[..n], kept[..n]) +
      if kept[n] then [Arrival(ChunkEvent(opcode, total, |Flatten(chunks[..n])|, chunks[n]), true)] else []
  }

  /** `base` overlaid by the chunks that arrive. */
  function Blend(base: seq<byte>, chunks: seq<seq<byte>>, kept: seq<bool>): (blended: seq<byte>)
    requires |kept| == |chunks| && |Flatten(chunks)| <= |base|
    ensures |blended| == |base|
    decreases |chunks|
  {
    if chunks == [] then base
    else
      var n := |chunks| - 1;
      FlattenFront(chunks);
      var before := Blend(base, chunks[..n], kept[..n]);
      if kept[n] then Overwrite(before, |Flatten(chunks[..n])|, chunks[n]) else before
  }

  lemma FlattenFront(chunks: seq<seq<byte>>)
    requires chunks != []
    ensures Flatten(chunks) == Flatten(chunks[..|chunks| - 1]) + chunks[|chunks| - 1]
  {
    var n := |chunks| - 1;
    assert chunks == chunks[..n] + [chunks[n]];
    FlattenSnoc(chunks[..n], chunks[n]);
  }

  /** Whether the chunk with byte `k` of the frame arrives. */
  predicate ByteArrives(chunks: seq<seq<byte>>, kept: seq<bool>, k: int)
    requires |kept| == |chunks|
    decreases |chunks|
  {
    chunks != [] &&
    var n := |chunks| - 1;
    if k >= |Flatten(chunks[..n])| then kept[n] && k < |Flatten(chunks)| else ByteArrives(chunks[..n], kept[..n], k)
  }

  lemma {:induction false} BlendAt(base: seq<byte>, chunks: seq<seq<byte>>, kept: seq<bool>, k: nat)
    requires |kept| == |chunks| && |Flatten(chunks)| <= |base| && k < |base|
    ensures ByteArrives(chunks, kept, k) ==> k < |Flatten(chunks)|
    ensures Blend(base, chunks, kept)[k] == if ByteArrives(chunks, kept, k) then Flatten(chunks)[k] else base[k]
    decreases |chunks|
  {
    if chunks != [] {
      var n := |chunks| - 1;
      FlattenFront(chunks);
      BlendAt(base, chunks[..n], kept[..n], k);
    }
  }

  /** In the bytes that are lost, `base` happens to hold what was sent. */
  ghost predicate Fills(base: seq<byte>, chunks: seq<seq<byte>>, kept: seq<bool>)
    requires |kept| == |chunks| && |base| == |Flatten(chunks)|
  {
    forall k :: 0 <= k < |base| && !ByteArrives(chunks, kept, k) ==> base[k] == Flatten(chunks)[k]
  }

  lemma BlendIntactIff(base: seq<byte>, chunks: seq<seq<byte>>, kept: seq<bool>)
    requires |kept| == |chunks| && |base| == |Flatten(chunks)|
    ensures Blend(base, chunks, kept) == Flatten(chunks) <==> Fills(base, chunks, kept)
  {
    var blended, payload := Blend(base, chunks, kept), Flatten(chunks);
    forall k | 0 <= k < |base| ensures blended[k] == if ByteArrives(chunks, kept, k) then payload[k] else base[k] {
      BlendAt(base, chunks, kept, k);
    }
    if blended == payload {
      forall k | 0 <= k < |base| && !ByteArrives(chunks, kept, k) ensures base[k] == payload[k] {
        assert blended[k] == payload[k];
      }
    }
  }

  /** The frame that the arriving chunks are filled into: a fresh one if the first chunk arrives, otherwise whatever the
      receiver was filling. */
  function Base(incoming: Incoming, opcode: byte, total: nat, kept: seq<bool>): Incoming
    requires kept != []
  {
    if kept[0] then Incoming(Zeros(total), opcode) else incoming
  }

  predicate Matches(a: Incoming, opcode: byte, total: nat) { |a.frame| == total && a.opcode == opcode }

  /** What the arriving ones of these leading chunks of a frame do. */
  function Transmitted(r: Reception, opcode: byte, total: nat, chunks: seq<seq<byte>>, kept: seq<bool>): Reception
    requires |kept| == |chunks| && |Flatten(chunks)| <= total
  {
    if true !in kept then r
    else
      var base := Base(r.incoming, opcode, total, kept);
      if !Matches(base, opcode, total) then r.(incoming := NO_FRAME)
      else
        var blended := Blend(base.frame, chunks, kept);
        if |Flatten(chunks)| == total && kept[|kept| - 1] then
          Reception(NO_FRAME, r.dispatched + [Message(opcode, Some(blended))])
        else r.(incoming := Incoming(blended, opcode))
  }

  lemma ChunkArrives(a: Incoming, opcode: byte, total: nat, offset: nat, chunk: seq<byte>)
    requires IsData(opcode) && chunk != [] && offset + |chunk| <= total <= MAXIMUM_MESSAGE && |chunk| < total
    ensures var e := ChunkEvent(opcode, total, offset, chunk);
            var begun := if offset == 0 then Incoming(Zeros(total), opcode) else a;
            if !Matches(begun, opcode, total) then Next(a, e) == NO_FRAME && Completes(a, e) == None
            else
              var filled := Overwrite(begun.frame, offset, chunk);
              if offset + |chunk| == total
              then Next(a, e) == NO_FRAME && Completes(a, e) == Some(Message(opcode, Some(filled)))
              else Next(a, e) == Incoming(filled, opcode) && Completes(a, e) == None
  {
  }

  lemma {:induction false} NothingBlended(base: seq<byte>, chunks: seq<seq<byte>>, kept: seq<bool>)
    requires |kept| == |chunks| && |Flatten(chunks)| <= |base| && true !in kept
    ensures Blend(base, chunks, kept) == base
    decreases |chunks|
  {
    if chunks != [] {
      var n := |chunks| - 1;
      FlattenFront(chunks);
      assert forall k :: k in kept[..n] ==> k in kept;
      NothingBlended(base, chunks[..n], kept[..n]);
    }
  }

  lemma LostNext(r: Reception, opcode: byte, total: nat, front: seq<seq<byte>>, kept: seq<bool>, last: seq<byte>)
    requires |kept| == |front| && last != [] && |Flatten(front + [last])| <= total
    ensures |Flatten(front)| < total
    ensures Transmitted(r, opcode, total, front + [last], kept + [false]) == Transmitted(r, opcode, total, front, kept)
  {
    hide Matches, Flatten;
    FlattenSnoc(front, last);
    assert (front + [last])[..|front|] == front && (kept + [false])[..|front|] == kept;
    assert true in kept + [false] <==> true in kept;
  }

  lemma KeptNext(r: Reception, opcode: byte, total: nat, front: seq<seq<byte>>, kept: seq<bool>, last: seq<byte>)
    requires IsData(opcode) && total <= MAXIMUM_MESSAGE && |kept| == |front| && last != [] && [] !in front
    requires |Flatten(front + [last])| <= total && |last| < total
    ensures |Flatten(front)| < total
    ensures Transmitted(r, opcode, total, front + [last], kept + [true]) ==
            Handle(Transmitted(r, opcode, total, front, kept),
                   Arrival(ChunkEvent(opcode, total, |Flatten(front)|, last), true))
  {
    hide Next, Completes, Flatten, Overwrite;
    FlattenSnoc(front, last);
    var chunks, all := front + [last], kept + [true];
    assert chunks[..|front|] == front && all[..|front|] == kept && all[|front|] && true in all;
    var before := Transmitted(r, opcode, total, front, kept);
    ChunkArrives(before.incoming, opcode, total, |Flatten(front)|, last);
    if front == [] {
      EmptyFlatten();
      assert Blend(Zeros(total), front, kept) == Zeros(total);
      assert Base(r.incoming, opcode, total, all) == Incoming(Zeros(total), opcode);
    } else {
      StartNotEmpty(front);
      var base := Base(r.incoming, opcode, total, kept);
      assert Base(r.incoming, opcode, total, all) == base;
      if true !in kept {
        if Matches(base, opcode, total) { NothingBlended(base.frame, front, kept); }
      }
    }
  }

  lemma EmptyFlatten()
    ensures Flatten<byte>([]) == []
  {
  }

  lemma StartNotEmpty(chunks: seq<seq<byte>>)
    requires chunks != [] && [] !in chunks
    ensures Flatten(chunks) != []
  {
    assert chunks[0] != [];
  }

  /** Any loss among the leading chunks of a frame. */
  lemma {:induction false} LossyChunksArrive(r: Reception, opcode: byte, total: nat, chunks: seq<seq<byte>>,
                                             kept: seq<bool>)
    requires IsData(opcode) && total <= MAXIMUM_MESSAGE && |kept| == |chunks| && [] !in chunks
    requires |Flatten(chunks)| <= total && forall c :: c in chunks ==> |c| < total
    ensures HandleAll(r, KeptArrivals(opcode, total, chunks, kept)) == Transmitted(r, opcode, total, chunks, kept)
    decreases |chunks|
  {
    hide Transmitted, Handle, Flatten, ChunkEvent;
    if chunks == [] {
      NothingTransmitted(r, opcode, total);
    } else {
      var n := |chunks| - 1;
      var front, last := chunks[..n], chunks[n];
      assert chunks == front + [last] && kept == kept[..n] + [kept[n]];
      FlattenFront(chunks);
      LossyChunksArrive(r, opcode, total, front, kept[..n]);
      if kept[n] {
        KeptNext(r, opcode, total, front, kept[..n], last);
        var earlier := KeptArrivals(opcode, total, front, kept[..n]);
        assert KeptArrivals(opcode, total, chunks, kept)[..|earlier|] == earlier;
      } else {
        LostNext(r, opcode, total, front, kept[..n], last);
        assert KeptArrivals(opcode, total, chunks, kept) == KeptArrivals(opcode, total, front, kept[..n]);
      }
    }
  }

  lemma NothingTransmitted(r: Reception, opcode: byte, total: nat)
    ensures Flatten<byte>([]) == [] && Transmitted(r, opcode, total, [], []) == r
  {
  }

  lemma {:induction false} PiecesShorter(chunks: seq<seq<byte>>, i: nat)
    requires i < |chunks| && |chunks| > 1 && [] !in chunks
    ensures |chunks[i]| < |Flatten(chunks)|
    decreases |chunks|
  {
    FlattenFront(chunks);
    var front := chunks[..|chunks| - 1];
    assert front != [] && forall c :: c in front ==> c in chunks;
    StartNotEmpty(front);
    if i == |front| {
      assert chunks[i] in chunks;
    } else if |front| == 1 {
      EmptyFlatten();
      FlattenFront(front);
      assert front[..0] == [] && chunks[|front|] in chunks;
    } else {
      PiecesShorter(front, i);
    }
  }

  /** What the arriving chunks of one frame do, whatever was being filled before. */
  function After(r: Reception, t: Transmission): Reception {
    var chunks := t.cut.chunks;
    if |chunks| == 1 then r.(dispatched := r.dispatched + if t.kept[0] then [Original(t.cut)] else [])
    else Transmitted(r, t.cut.opcode, |Flatten(chunks)|, chunks, t.kept)
  }

  function Arriving(t: Transmission): seq<Arrival> {
    KeptArrivals(t.cut.opcode, |Flatten(t.cut.chunks)|, t.cut.chunks, t.kept)
  }

  /** Every loss pattern: nothing arrives and nothing changes; or the chunks do not match what is being filled, which is
      given up; or they are filled in, and dispatched with what is there when the last chunk arrives. */
  lemma TransmissionArrives(r: Reception, t: Transmission)
    ensures HandleAll(r, Arriving(t)) == After(r, t)
  {
    var chunks := t.cut.chunks;
    if |chunks| == 1 {
      assert chunks[..0] == [] && t.kept[..0] == [];
      assert KeptArrivals(t.cut.opcode, |Flatten(chunks)|, chunks[..0], t.kept[..0]) == [];
      if t.kept[0] {
        CutArrives(r, t.cut);
        assert ArrivalsOf(t.cut) == Arriving(t) by {
          assert ChunkArrivals(t.cut.opcode, |Flatten(chunks)|, chunks[..0]) == [];
        }
      }
    } else {
      forall c | c in chunks ensures |c| < |Flatten(chunks)| {
        var i :| 0 <= i < |chunks| && chunks[i] == c;
        PiecesShorter(chunks, i);
      }
      LossyChunksArrive(r, t.cut.opcode, |Flatten(chunks)|, chunks, t.kept);
    }
  }

  /** The last chunk arrives, and what the others are filled into holds the lost bytes already: zeros if the first chunk
      arrives, otherwise an earlier frame's bytes. */
  ghost predicate Survives(incoming: Incoming, t: Transmission) {
    var chunks, total := t.cut.chunks, |Flatten(t.cut.chunks)|;
    && t.kept[|t.kept| - 1]
    && (|chunks| == 1 ||
        var base := Base(incoming, t.cut.opcode, total, t.kept);
        Matches(base, t.cut.opcode, total) && Fills(base.frame, chunks, t.kept))
  }

  /** A frame is dispatched intact exactly under that condition, which a receiver's state and the losses decide. */
  lemma IntactIff(r: Reception, t: Transmission)
    ensures HandleAll(r, Arriving(t)).dispatched == r.dispatched + [Original(t.cut)] <==> Survives(r.incoming, t)
  {
    hide HandleAll, Arriving, Fills, Blend;
    TransmissionArrives(r, t);
    var chunks, total := t.cut.chunks, |Flatten(t.cut.chunks)|;
    if |chunks| > 1 {
      var base := Base(r.incoming, t.cut.opcode, total, t.kept);
      if Matches(base, t.cut.opcode, total) {
        BlendIntactIff(base.frame, chunks, t.kept);
        LastDiffers(r.dispatched, Message(t.cut.opcode, Some(Blend(base.frame, chunks, t.kept))), Original(t.cut));
      }
    }
  }

  // ---- Runs with losses ----

  function AllArriving(ts: seq<Transmission>): seq<Arrival>
    decreases |ts|
  {
    if ts == [] then [] else AllArriving(ts[..|ts| - 1]) + Arriving(ts[|ts| - 1])
  }

  function Sent(ts: seq<Transmission>): seq<Message>
    decreases |ts|
  {
    if ts == [] then [] else Sent(ts[..|ts| - 1]) + [Original(ts[|ts| - 1].cut)]
  }

  /** Every frame survives in the state that the frames before it leave. */
  ghost predicate AllSurvive(r: Reception, ts: seq<Transmission>)
    decreases |ts|
  {
    ts == [] ||
    var front := ts[..|ts| - 1];
    AllSurvive(r, front) && Survives(HandleAll(r, AllArriving(front)).incoming, ts[|ts| - 1])
  }

  lemma AtMostOne(r: Reception, t: Transmission)
    ensures var after := HandleAll(r, Arriving(t)).dispatched;
            after == r.dispatched || (|after| == |r.dispatched| + 1 && r.dispatched <= after)
  {
    hide HandleAll, Arriving, Blend;
    TransmissionArrives(r, t);
  }

  /** Whatever chunks are lost, first ones included, a run arrives intact exactly when every frame survives. */
  lemma {:induction false} AnyRunIntactIff(r: Reception, ts: seq<Transmission>)
    ensures |HandleAll(r, AllArriving(ts)).dispatched| <= |r.dispatched| + |ts| && |Sent(ts)| == |ts|
    ensures HandleAll(r, AllArriving(ts)).dispatched == r.dispatched + Sent(ts) <==> AllSurvive(r, ts)
    decreases |ts|
  {
    if ts != [] {
      hide HandleAll, Arriving, Survives, Original;
      var front, last := ts[..|ts| - 1], ts[|ts| - 1];
      AnyRunIntactIff(r, front);
      HandleJoin(r, AllArriving(front), Arriving(last));
      hide AllArriving, Sent, AllSurvive;
      OneMoreTransmission(HandleAll(r, AllArriving(front)), last, r.dispatched, Sent(front));
    }
  }

  lemma OneMoreTransmission(before: Reception, t: Transmission, start: seq<Message>, sent: seq<Message>)
    requires |before.dispatched| <= |start| + |sent|
    ensures var after := HandleAll(before, Arriving(t)).dispatched;
            && |after| <= |start| + |sent| + 1
            && (after == start + (sent + [Original(t.cut)]) <==>
                before.dispatched == start + sent && Survives(before.incoming, t))
  {
    hide HandleAll, Arriving, Survives, Original;
    AtMostOne(before, t);
    IntactIff(before, t);
    OneMoreIntact(before.dispatched, HandleAll(before, Arriving(t)).dispatched, start + sent, Original(t.cut));
    assert start + (sent + [Original(t.cut)]) == start + sent + [Original(t.cut)];
  }

  lemma OneMoreIntact(before: seq<Message>, after: seq<Message>, sent: seq<Message>, last: Message)
    requires |before| <= |sent| && (after == before || (|after| == |before| + 1 && before <= after))
    ensures after == sent + [last] <==> before == sent && after == before + [last]
  {
    if after == sent + [last] {
      assert |after| == |before| + 1 && after[..|before|] == before && after[..|sent|] == sent;
    }
  }

  /** The message a frame yields when its first chunk is not lost: lost bytes zeroed, none without the last chunk. */
  function Yield(t: Transmission): seq<Message> {
    if t.kept[|t.kept| - 1] then
      [Message(t.cut.opcode, Some(Blend(Zeros(|Flatten(t.cut.chunks)|), t.cut.chunks, t.kept)))]
    else []
  }

  function Yields(ts: seq<Transmission>): seq<Message>
    decreases |ts|
  {
    if ts == [] then [] else Yields(ts[..|ts| - 1]) + Yield(ts[|ts| - 1])
  }

  /** The first chunk of a frame of several chunks arrives. */
  type Opened = t: Transmission | |t.kept| == 1 || t.kept[0] ghost witness Lossy(Cut(TEXT, [[]]), [true])

  lemma OpenedYields(r: Reception, t: Opened)
    ensures HandleAll(r, Arriving(t)).dispatched == r.dispatched + Yield(t)
  {
    hide HandleAll, Arriving;
    TransmissionArrives(r, t);
    var chunks := t.cut.chunks;
    if |chunks| == 1 && t.kept[0] {
      BlendIntactIff(Zeros(|Flatten(chunks)|), chunks, t.kept);
      assert chunks[..0] == [];
      EmptyFlatten();
    }
  }

  /** Over any run of frames, with any chunks lost except first ones and any asides in between, the client dispatches
      exactly the frames whose last chunk arrives, in order, with the lost bytes zeroed. */
  lemma LossyRun(r: Reception, ts: seq<Opened>, arrivals: seq<Arrival>)
    requires WithoutAsides(arrivals) == AllArriving(ts)
    ensures HandleAll(r, arrivals).dispatched == r.dispatched + Yields(ts)
  {
    AsidesAreTransparent(r, arrivals);
    OpenedRun(r, ts);
  }

  lemma {:induction false} OpenedRun(r: Reception, ts: seq<Opened>)
    ensures HandleAll(r, AllArriving(ts)).dispatched == r.dispatched + Yields(ts)
    decreases |ts|
  {
    if ts != [] {
      hide HandleAll, Arriving, Yield;
      var front, last := ts[..|ts| - 1], ts[|ts| - 1];
      OpenedRun(r, front);
      HandleJoin(r, AllArriving(front), Arriving(last));
      OpenedYields(HandleAll(r, AllArriving(front)), last);
    }
  }

  lemma YieldIntactIff(t: Transmission)
    ensures |Yield(t)| <= 1
    ensures Yield(t) == [Original(t.cut)] <==>
            t.kept[|t.kept| - 1] && Fills(Zeros(|Flatten(t.cut.chunks)|), t.cut.chunks, t.kept)
  {
    hide Fills, Blend;
    BlendIntactIff(Zeros(|Flatten(t.cut.chunks)|), t.cut.chunks, t.kept);
  }

  /** Every last chunk arrives and every lost byte is zero. */
  ghost predicate Harmless(ts: seq<Transmission>) {
    forall i :: 0 <= i < |ts| ==>
      ts[i].kept[|ts[i].kept| - 1] && Fills(Zeros(|Flatten(ts[i].cut.chunks)|), ts[i].cut.chunks, ts[i].kept)
  }

  lemma HarmlessNext(front: seq<Transmission>, last: Transmission)
    ensures Harmless(front + [last]) <==>
            Harmless(front) && last.kept[|last.kept| - 1] &&
                Fills(Zeros(|Flatten(last.cut.chunks)|), last.cut.chunks, last.kept)
  {
    hide Fills, Flatten;
    var ts := front + [last];
    assert forall i :: 0 <= i < |front| ==> ts[i] == front[i];
    assert ts[|front|] == last;
  }

  lemma {:induction false} YieldsIntactIff(ts: seq<Transmission>)
    ensures |Yields(ts)| <= |ts| == |Sent(ts)|
    ensures Yields(ts) == Sent(ts) <==> Harmless(ts)
    decreases |ts|
  {
    if ts != [] {
      hide Yield, Fills, Original, Harmless, Flatten;
      var front, last := ts[..|ts| - 1], ts[|ts| - 1];
      assert ts == front + [last];
      YieldsIntactIff(front);
      YieldIntactIff(last);
      HarmlessNext(front, last);
      OneMoreIntact(Yields(front), Yields(ts), Sent(front), Original(last.cut));
      SameTail(Yields(front), Yield(last), [Original(last.cut)]);
    }
  }

  /** So a run that loses no first chunk arrives intact exactly when it loses no last chunk and only zero bytes. */
  lemma RunIntactIff(r: Reception, ts: seq<Opened>, arrivals: seq<Arrival>)
    requires WithoutAsides(arrivals) == AllArriving(ts)
    ensures HandleAll(r, arrivals).dispatched == r.dispatched + Sent(ts) <==> Harmless(ts)
  {
    hide HandleAll, Harmless, Yields, Sent;
    LossyRun(r, ts, arrivals);
    YieldsIntactIff(ts);
    SameTail(r.dispatched, Yields(ts), Sent(ts));
  }

  lemma SameTail(front: seq<Message>, x: seq<Message>, y: seq<Message>)
    ensures front + x == front + y <==> x == y
  {
    assert (front + x)[|front|..] == x && (front + y)[|front|..] == y;
  }

  /** First chunks matter: without one frame's last chunk and the first of the next frame of the same opcode and length,
      a message is dispatched that is the front of one and the end of the other. */
  lemma LostFirstChunkMixesFrames(r: Reception, opcode: byte, a: seq<byte>, a': seq<byte>, b: seq<byte>, b': seq<byte>)
    requires IsData(opcode) && a != [] && a' != [] && |a| == |b| && |a'| == |b'| && |a + a'| <= MAXIMUM_MESSAGE
    ensures var total := |a + a'|;
            var r' := HandleAll(r, [Arrival(ChunkEvent(opcode, total, 0, a), true),
                                    Arrival(ChunkEvent(opcode, total, |a|, b'), true)]);
            r'.dispatched == r.dispatched + [Message(opcode, Some(a + b'))]
    ensures a + b' == a + a' <==> a' == b'
    ensures a + b' == b + b' <==> a == b
  {
    hide Next, Completes, Partial, Original, Zeros;
    var total := |a + a'|;
    var first := Arrival(ChunkEvent(opcode, total, 0, a), true);
    var second := Arrival(ChunkEvent(opcode, total, |a|, b'), true);
    FirstChunk(r.incoming, opcode, total, a);
    LaterChunk(opcode, total, a, b');
    TwoArrive(r, first, second);
    HalvesTell(a, a', b, b');
  }

  lemma TwoArrive(r: Reception, first: Arrival, second: Arrival)
    ensures HandleAll(r, [first, second]) == Handle(Handle(r, first), second)
  {
    hide Handle;
    assert [first, second][..1] == [first] && [first][..0] == [];
    assert HandleAll(r, [first]) == Handle(r, first);
  }

  lemma HalvesTell(a: seq<byte>, a': seq<byte>, b: seq<byte>, b': seq<byte>)
    requires |a| == |b| && |a'| == |b'|
    ensures a + b' == a + a' <==> a' == b'
    ensures a + b' == b + b' <==> a == b
  {
    assert (a + b')[|a|..] == b' && (a + a')[|a|..] == a' && (a + b')[..|a|] == a && (b + b')[..|a|] == b;
  }
}
