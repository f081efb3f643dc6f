/** Messages that arrive at the WebSocket client in fragments: a text or binary frame, then continuation frames
    (section 5.4 of RFC 6455). */
module ClientFragments {
  import opened Bytes
  import opened ClientChunks
  import opened Sequences
  import opened Wrappers

  /** A message as it was sent: its first frame and its continuation frames, each cut into chunks on arrival. */
  datatype Fragmented = Fragmented(first: Cut, rest: seq<Cut>)

  /** The first frame may be any text or binary frame within the maximum, the others anything. */
  ghost predicate IsSent(m: Fragmented) {
    IsSendable(m.first) && forall i :: 0 <= i < |m.rest| ==> m.rest[i].opcode == CONTINUATION
  }

  type Sent = m: Fragmented | IsSent(m) ghost witness Fragmented(Cut(TEXT, [[]]), [])

  /** The bytes that frames carry, one after the other. */
  function Payload(frames: seq<Cut>): seq<byte>
    decreases |frames|
  {
    if frames == [] then [] else Payload(frames[..|frames| - 1]) + Flatten(frames[|frames| - 1].chunks)
  }

  /** The message that was sent. */
  function Intended(m: Fragmented): Message { Message(m.first.opcode, Some(Flatten(m.first.chunks) + Payload(m.rest))) }

  function AllIntended(messages: seq<Fragmented>): seq<Message> {
    seq(|messages|, i requires 0 <= i < |messages| => Intended(messages[i]))
  }

  function FirstFrames(messages: seq<Fragmented>): seq<Message> {
    seq(|messages|, i requires 0 <= i < |messages| => Original(messages[i].first))
  }

  function MessageArrivals(m: Fragmented): seq<Arrival> { ArrivalsOf(m.first) + AllArrivals(m.rest) }

  function AllMessageArrivals(messages: seq<Fragmented>): seq<Arrival>
    decreases |messages|
  {
    if messages == [] then []
    else AllMessageArrivals(messages[..|messages| - 1]) + MessageArrivals(messages[|messages| - 1])
  }

  lemma {:induction false} ContinuationArrives(r: Reception, total: nat, chunks: seq<seq<byte>>)
    ensures HandleAll(r, ChunkArrivals(CONTINUATION, total, chunks)) == r
    decreases |chunks|
  {
    hide ChunkArrivals, HandleAll, Flatten;
    if chunks == [] {
      ChunkArrivalsNext(r, CONTINUATION, total, [], []);
    } else {
      var front, last := chunks[..|chunks| - 1], chunks[|chunks| - 1];
      assert chunks == front + [last];
      ContinuationArrives(r, total, front);
      ChunkArrivalsNext(r, CONTINUATION, total, front, last);
    }
  }

  lemma {:induction false} ContinuationsArrive(r: Reception, rest: seq<Cut>)
    requires forall i :: 0 <= i < |rest| ==> rest[i].opcode == CONTINUATION
    ensures HandleAll(r, AllArrivals(rest)) == r
    decreases |rest|
  {
    if rest == [] {
      NothingArrives(r);
    } else {
      hide AllArrivals, HandleAll, ChunkArrivals, Flatten;
      var front, last := rest[..|rest| - 1], rest[|rest| - 1];
      assert rest == front + [last];
      ContinuationsArrive(r, front);
      CutsNext(front, last);
      HandleJoin(r, AllArrivals(front), ArrivalsOf(last));
      ContinuationArrives(r, |Flatten(last.chunks)|, last.chunks);
    }
  }

  lemma MessageArrives(r: Reception, m: Sent)
    ensures HandleAll(r, MessageArrivals(m)).dispatched == r.dispatched + [Original(m.first)]
  {
    hide AllArrivals, HandleAll, ArrivalsOf, Original, IsSendable;
    HandleJoin(r, ArrivalsOf(m.first), AllArrivals(m.rest));
    CutArrives(r, m.first);
    ContinuationsArrive(HandleAll(r, ArrivalsOf(m.first)), m.rest);
  }

  lemma OneMoreMessage(r: Reception, arrivals: seq<Arrival>, m: Sent)
    ensures HandleAll(r, arrivals + MessageArrivals(m)).dispatched ==
            HandleAll(r, arrivals).dispatched + [Original(m.first)]
  {
    hide HandleAll, MessageArrivals, Original, IsSent;
    HandleJoin(r, arrivals, MessageArrivals(m));
    MessageArrives(HandleAll(r, arrivals), m);
  }

  lemma MessagesNext(front: seq<Fragmented>, last: Fragmented)
    ensures AllMessageArrivals(front + [last]) == AllMessageArrivals(front) + MessageArrivals(last)
    ensures FirstFrames(front + [last]) == FirstFrames(front) + [Original(last.first)]
  {
    hide Original, MessageArrivals;
    assert (front + [last])[..|front|] == front;
  }

  lemma NoMessages(r: Reception)
    ensures HandleAll(r, AllMessageArrivals([])) == r && FirstFrames([]) == []
  {
  }

  lemma {:induction false} MessagesArrive(r: Reception, messages: seq<Sent>)
    ensures HandleAll(r, AllMessageArrivals(messages)).dispatched == r.dispatched + FirstFrames(messages)
    decreases |messages|
  {
    hide HandleAll, AllMessageArrivals, FirstFrames, MessageArrivals, Original, IsSent;
    if messages == [] {
      NoMessages(r);
    } else {
      var front, last := messages[..|messages| - 1], messages[|messages| - 1];
      MessagesArrive(r, front);
      MessagesNext(front, last);
      assert messages == front + [last];
      OneMoreMessage(r, AllMessageArrivals(front), last);
    }
  }

  /** Whatever pings and other events without effect fall in between, each message is dispatched once, in order, as its
      first fragment alone. So the messages arrive as they were sent exactly when every other fragment is empty. */
  lemma {:induction false} FragmentsIntactIff(r: Reception, messages: seq<Sent>, arrivals: seq<Arrival>)
    requires WithoutAsides(arrivals) == WithoutAsides(AllMessageArrivals(messages))
    ensures HandleAll(r, arrivals).dispatched == r.dispatched + FirstFrames(messages)
    ensures HandleAll(r, arrivals).dispatched == r.dispatched + AllIntended(messages) <==>
            forall i :: 0 <= i < |messages| ==> Payload(messages[i].rest) == []
  {
    AsidesAreTransparent(r, arrivals);
    AsidesAreTransparent(r, AllMessageArrivals(messages));
    MessagesArrive(r, messages);
    SameBehind(r.dispatched, FirstFrames(messages), AllIntended(messages));
    SameMessagesIff(messages);
  }

  lemma SameMessagesIff(messages: seq<Fragmented>)
    ensures FirstFrames(messages) == AllIntended(messages) <==>
            forall i :: 0 <= i < |messages| ==> Payload(messages[i].rest) == []
  {
    hide Payload, Flatten;
    forall i | 0 <= i < |messages|
      ensures FirstFrames(messages)[i] == AllIntended(messages)[i] <==> Payload(messages[i].rest) == []
    {
      var (shown, hidden) := (Flatten(messages[i].first.chunks), Payload(messages[i].rest));
      assert |shown + hidden| == |shown| + |hidden|;
      if hidden == [] { assert shown + hidden == shown; }
    }
  }

  lemma SameBehind(front: seq<Message>, a: seq<Message>, b: seq<Message>)
    ensures front + a == front + b <==> a == b
  {
    if front + a == front + b { assert a == (front + a)[|front|..] == (front + b)[|front|..] == b; }
  }
}
