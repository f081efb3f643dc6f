/** Reassembly of fragmented WebSocket messages by the endpoint (section 5.4 of RFC 6455). */
module WebSocketFragments {
  import opened Bytes
  import opened Sequences

  const MAXIMUM_MESSAGE := 65536
  const TOO_LARGE: uint16 := 1009
  const PROTOCOL_ERROR: uint16 := 1002
  const NORMAL: uint16 := 1000

  datatype FrameType = Continuation | Text | Binary | CloseFrame | Ping | Pong | Reserved

  datatype Frame = Frame(frameType: FrameType, final: bool, payload: seq<byte>)

  predicate IsData(t: FrameType) { t == Text || t == Binary }
  predicate IsControl(t: FrameType) { t == Ping || t == Pong || t == CloseFrame }

  type MessageType = t: FrameType | IsData(t) witness Text

  datatype Message = Message(messageType: MessageType, payload: seq<byte>)

  datatype Assembly = Assembly(fragmenting: bool, fragmentType: MessageType, buffer: seq<byte>)

  datatype Accumulated = Buffered | Completed(message: Message) | TooLarge | OutOfSequence

  /** What one non-control frame does to the message being assembled. */
  function Accumulate(a: Assembly, frame: Frame): (Assembly, Accumulated) {
    if IsData(frame.frameType) then
      if a.fragmenting then (a, OutOfSequence)
      else if frame.final then (a, Completed(Message(frame.frameType, frame.payload)))
      else if |frame.payload| > MAXIMUM_MESSAGE then (a, TooLarge)
      else (Assembly(true, frame.frameType, frame.payload), Buffered)
    else if frame.frameType != Continuation || !a.fragmenting then (a, OutOfSequence)
    else if |a.buffer| + |frame.payload| > MAXIMUM_MESSAGE then (a.(fragmenting := false, buffer := []), TooLarge)
    else if frame.final then
      (a.(fragmenting := false, buffer := []), Completed(Message(a.fragmentType, a.buffer + frame.payload)))
    else (a.(buffer := a.buffer + frame.payload), Buffered)
  }

  /** The part of a connection that messages depend on; `errors` are the close codes of refused frames. */
  datatype Core = Core(assembly: Assembly, delivered: seq<Message>, errors: seq<uint16>)

  datatype Link = Link(core: Core, open: bool, closeCode: uint16, closeReason: seq<byte>, pongs: seq<seq<byte>>)

  function CoreReceive(core: Core, frame: Frame): Core {
    if |frame.payload| > MAXIMUM_MESSAGE then core.(errors := core.errors + [TOO_LARGE])
    else if IsControl(frame.frameType) then core
    else
      var (assembly, outcome) := Accumulate(core.assembly, frame);
      match outcome
      case Buffered => core.(assembly := assembly)
      case Completed(message) => core.(assembly := assembly, delivered := core.delivered + [message])
      case TooLarge => core.(assembly := assembly, errors := core.errors + [TOO_LARGE])
      case OutOfSequence => core.(assembly := assembly, errors := core.errors + [PROTOCOL_ERROR])
  }

  /** One received frame. An error closes the connection unless it is already closed; a ping is answered with its own
      payload; a peer close is remembered. */
  function Receive(link: Link, frame: Frame): Link {
    var core := CoreReceive(link.core, frame);
    if core.errors != link.core.errors then
      if link.open then link.(core := core, open := false, closeCode := core.errors[|core.errors| - 1],
                              closeReason := Reason(|frame.payload| > MAXIMUM_MESSAGE))
      else link.(core := core)
    else
      match frame.frameType
      case Ping => link.(pongs := link.pongs + [frame.payload])
      case CloseFrame =>
        link.(open := false,
              closeCode := if |frame.payload| >= 2 then Read16(frame.payload, 0) else NORMAL,
              closeReason := if |frame.payload| > 2 then frame.payload[2..] else [])
      case _ => link.(core := core)
  }

  /** The reason texts "message too large" and "invalid websocket message". */
  function Reason(oversized: bool): seq<byte> {
    if oversized then [0x6D, 0x65, 0x73, 0x73, 0x61, 0x67, 0x65, 0x20, 0x74, 0x6F, 0x6F, 0x20, 0x6C, 0x61, 0x72,
                       0x67, 0x65]
    else [0x69, 0x6E, 0x76, 0x61, 0x6C, 0x69, 0x64, 0x20, 0x77, 0x65, 0x62, 0x73, 0x6F, 0x63, 0x6B, 0x65, 0x74, 0x20,
          0x6D, 0x65, 0x73, 0x73, 0x61, 0x67, 0x65]
  }

  // ---- The connection object ----

  class ESP32WebSocketConnection {
    var open: bool
    var closeCode: uint16
    var closeReason: seq<byte>
    var fragmenting: bool
    var fragmentType: MessageType
    var fragmentBuffer: seq<byte>
    /** What the sink received, which errors were reported and which pongs were sent. */
    var delivered: seq<Message>
    var errors: seq<uint16>
    var pongs: seq<seq<byte>>

    constructor ()
      ensures Snapshot() == Link(Core(Assembly(false, Binary, []), [], []), true, 1006, [], [])
    {
      open, closeCode, closeReason := true, 1006, [];
      fragmenting, fragmentType, fragmentBuffer := false, Binary, [];
      delivered, errors, pongs := [], [], [];
    }

    function Snapshot(): Link
      reads this
    {
      Link(Core(Assembly(fragmenting, fragmentType, fragmentBuffer), delivered, errors), open, closeCode,
           closeReason, pongs)
    }

    method AccumulateFragment(frameType: FrameType, final: bool, payload: seq<byte>) returns (outcome: Accumulated)
      modifies this`fragmenting, this`fragmentType, this`fragmentBuffer
      ensures (Snapshot().core.assembly, outcome) ==
              Accumulate(old(Snapshot().core.assembly), Frame(frameType, final, payload))
    {
      var size := |payload|;
      if frameType == Text || frameType == Binary {
        if fragmenting { return OutOfSequence; }
        if final { return Completed(Message(frameType, payload)); }
        if size > MAXIMUM_MESSAGE { return TooLarge; }
        fragmenting := true;
        fragmentType := frameType;
        fragmentBuffer := payload;
        return Buffered;
      }
      if frameType != Continuation || !fragmenting { return OutOfSequence; }
      if |fragmentBuffer| + size > MAXIMUM_MESSAGE {
        fragmenting := false;
        fragmentBuffer := [];
        return TooLarge;
      }
      assert fragmentBuffer + [] == fragmentBuffer;
      if size != 0 { fragmentBuffer := fragmentBuffer + payload; }
      if final {
        var message := Message(fragmentType, fragmentBuffer);
        fragmentBuffer := [];
        fragmenting := false;
        return Completed(message);
      }
      return Buffered;
    }

    method RememberPeerClose(payload: seq<byte>)
      modifies this`open, this`closeCode, this`closeReason
      ensures !open
      ensures closeCode == if |payload| >= 2 then Read16(payload, 0) else NORMAL
      ensures closeReason == if |payload| > 2 then payload[2..] else []
    {
      open := false;
      closeCode := if |payload| >= 2 then Read16(payload, 0) else NORMAL;
      closeReason := [];
      if |payload| > 2 { closeReason := payload[2..]; }
    }

    /** The state change of a local close; the first close wins. */
    method Close(code: uint16, reason: seq<byte>)
      modifies this`open, this`closeCode, this`closeReason
      ensures !open
      ensures closeCode == (if old(open) then code else old(closeCode))
      ensures closeReason == (if old(open) then reason else old(closeReason))
    {
      if !open { return; }
      open := false;
      closeCode := code;
      closeReason := reason;
    }

    /** The frame-handling part of HandleWebSocketRequest, with a sink attached. */
    method HandleFrame(frame: Frame)
      modifies this
      ensures Snapshot() == Receive(old(Snapshot()), frame)
    {
      hide Reason;
      if |frame.payload| > MAXIMUM_MESSAGE {
        errors := errors + [TOO_LARGE];
        Close(TOO_LARGE, Reason(true));
        return;
      }
      if frame.frameType == Ping {
        pongs := pongs + [frame.payload];
        return;
      }
      if frame.frameType == Pong { return; }
      if frame.frameType == CloseFrame {
        RememberPeerClose(frame.payload);
        return;
      }
      var outcome := AccumulateFragment(frame.frameType, frame.final, frame.payload);
      match outcome
      case TooLarge =>
        errors := errors + [TOO_LARGE];
        Close(TOO_LARGE, Reason(false));
      case OutOfSequence =>
        errors := errors + [PROTOCOL_ERROR];
        Close(PROTOCOL_ERROR, Reason(false));
      case Buffered =>
      case Completed(message) =>
        delivered := delivered + [message];
    }
  }

  // ---- Any sequence of frames ----

  function ReceiveAll(link: Link, frames: seq<Frame>): Link
    decreases |frames|
  {
    if frames == [] then link
    else Receive(ReceiveAll(link, frames[..|frames| - 1]), frames[|frames| - 1])
  }

  function CoreAll(core: Core, frames: seq<Frame>): Core
    decreases |frames|
  {
    if frames == [] then core
    else CoreReceive(CoreAll(core, frames[..|frames| - 1]), frames[|frames| - 1])
  }

  lemma {:induction false} CoreOfAll(link: Link, frames: seq<Frame>)
    ensures ReceiveAll(link, frames).core == CoreAll(link.core, frames)
    decreases |frames|
  {
    if frames != [] { CoreOfAll(link, frames[..|frames| - 1]); }
  }

  /** Which frames are refused, and with which code: 1009 (section 7.4.1 of RFC 6455) if the frame, or the message it
      continues, passes the maximum; 1002 if a message is started inside another, continued outside one, or the opcode
      is a reserved one. A continuation that makes its message too large gives that message up; no other refused frame
      changes anything but the errors. */
  lemma RefusalCodes(core: Core, frame: Frame)
    ensures var open, size := core.assembly.fragmenting, |frame.payload|;
            var tooLarge := size > 65536 ||
                            (frame.frameType == Continuation && open && |core.assembly.buffer| + size > 65536);
            var misplaced := (frame.frameType in {Text, Binary} && open) ||
                             (frame.frameType == Continuation && !open) || frame.frameType == Reserved;
            CoreReceive(core, frame).errors ==
            core.errors + if tooLarge then [1009] else if misplaced then [1002] else []
    ensures var after := CoreReceive(core, frame);
            after.errors != core.errors ==>
              && after.delivered == core.delivered
              && if |frame.payload| <= 65536 && frame.frameType == Continuation && core.assembly.fragmenting
                 then Idle(after.assembly) else after.assembly == core.assembly
  {
    assert core.errors + [] == core.errors;
  }

  lemma ReasonTexts()
    ensures Reason(true) == Ascii("message too large") && Reason(false) == Ascii("invalid websocket message")
  {
  }

  /** A refusal closes an open connection with its code; a connection closed before keeps its code and reason. */
  lemma RefusalCloses(link: Link, frame: Frame)
    requires CoreReceive(link.core, frame).errors != link.core.errors
    ensures var after, code := Receive(link, frame), CoreReceive(link.core, frame).errors[|link.core.errors|];
            && !after.open && after.pongs == link.pongs
            && after.closeCode == (if link.open then code else link.closeCode)
            && after.closeReason == if !link.open then link.closeReason
                                    else if |frame.payload| > 65536 then Ascii("message too large")
                                    else Ascii("invalid websocket message")
  {
    ReasonTexts();
    hide Reason, Accumulate;
    RefusalCodes(link.core, frame);
  }

  /** A peer's close frame is remembered with the code and reason that the peer put into it. */
  lemma PeerCloseRemembered(link: Link, final: bool, code: uint16, reason: seq<byte>)
    requires |reason| <= MAXIMUM_MESSAGE - 2
    ensures var after := Receive(link, Frame(CloseFrame, final, Bytes16(code) + reason));
            !after.open && after.closeCode == code && after.closeReason == reason && after.core == link.core
  {
    var payload := Bytes16(code) + reason;
    assert payload[2..] == reason;
  }

  predicate Idle(a: Assembly) { !a.fragmenting && a.buffer == [] }

  predicate Bounded(core: Core) {
    && |core.assembly.buffer| <= MAXIMUM_MESSAGE
    && (!core.assembly.fragmenting ==> core.assembly.buffer == [])
    && forall i :: 0 <= i < |core.delivered| ==> |core.delivered[i].payload| <= MAXIMUM_MESSAGE
  }

  /** Whatever frames arrive, the buffer and every delivered message stay within the maximum, and the buffer is empty
      whenever no message is open. */
  lemma {:induction false} AlwaysBounded(core: Core, frames: seq<Frame>)
    requires Bounded(core)
    ensures Bounded(CoreAll(core, frames))
    decreases |frames|
  {
    if frames != [] { AlwaysBounded(core, frames[..|frames| - 1]); }
  }

  // ---- Messages and the ways to fragment them ----

  /** One way to cut a message: its bytes are the chunks, joined. */
  datatype Cut = Cut(messageType: MessageType, chunks: seq<seq<byte>>)

  function Whole(cut: Cut): Message { Message(cut.messageType, Flatten(cut.chunks)) }

  /** The frames of the chunks, none of them final: the first carries the type, the others continue it. */
  function OpenFrames(cut: Cut): seq<Frame>
    decreases |cut.chunks|
  {
    if cut.chunks == [] then []
    else
      var last := |cut.chunks| - 1;
      OpenFrames(cut.(chunks := cut.chunks[..last])) +
      [Frame(if last == 0 then cut.messageType else Continuation, false, cut.chunks[last])]
  }

  /** The frames of the complete message: the same, but the last frame is final. */
  function FramesOf(cut: Cut): seq<Frame>
    requires cut.chunks != []
  {
    var last := |cut.chunks| - 1;
    OpenFrames(cut.(chunks := cut.chunks[..last])) +
    [Frame(if last == 0 then cut.messageType else Continuation, true, cut.chunks[last])]
  }

  predicate Sendable(cuts: seq<Cut>) {
    forall i :: 0 <= i < |cuts| ==> cuts[i].chunks != [] && |Whole(cuts[i]).payload| <= MAXIMUM_MESSAGE
  }

  function AllFrames(cuts: seq<Cut>): seq<Frame>
    requires forall i :: 0 <= i < |cuts| ==> cuts[i].chunks != []
    decreases |cuts|
  {
    if cuts == [] then [] else AllFrames(cuts[..|cuts| - 1]) + FramesOf(cuts[|cuts| - 1])
  }

  function Messages(cuts: seq<Cut>): seq<Message> {
    seq(|cuts|, i requires 0 <= i < |cuts| => Whole(cuts[i]))
  }

  function WithoutControl(frames: seq<Frame>): seq<Frame>
    decreases |frames|
  {
    if frames == [] then []
    else
      var last := frames[|frames| - 1];
      WithoutControl(frames[..|frames| - 1]) + if IsControl(last.frameType) then [] else [last]
  }

  function PingPayloads(frames: seq<Frame>): seq<seq<byte>>
    decreases |frames|
  {
    if frames == [] then []
    else
      var last := frames[|frames| - 1];
      PingPayloads(frames[..|frames| - 1]) + if last.frameType == Ping then [last.payload] else []
  }

  predicate ControlFits(frames: seq<Frame>) {
    forall i :: 0 <= i < |frames| && IsControl(frames[i].frameType) ==> |frames[i].payload| <= MAXIMUM_MESSAGE
  }

  /** Control frames, wherever they are interleaved, do not touch messages. */
  lemma {:induction false} ControlIsTransparent(core: Core, frames: seq<Frame>)
    requires ControlFits(frames)
    ensures CoreAll(core, frames) == CoreAll(core, WithoutControl(frames))
    decreases |frames|
  {
    if frames != [] {
      var front, last := frames[..|frames| - 1], frames[|frames| - 1];
      ControlIsTransparent(core, front);
      if IsControl(last.frameType) {
        assert WithoutControl(frames) == WithoutControl(front);
      } else {
        assert WithoutControl(frames)[..|WithoutControl(front)|] == WithoutControl(front);
      }
    }
  }

  lemma {:induction false} CoreJoin(core: Core, a: seq<Frame>, b: seq<Frame>)
    ensures CoreAll(core, a + b) == CoreAll(CoreAll(core, a), b)
    decreases |b|
  {
    if b == [] {
      assert a + b == a;
    } else {
      CoreJoin(core, a, b[..|b| - 1]);
      assert (a + b)[..|a + b| - 1] == a + b[..|b| - 1];
    }
  }

  lemma CoreSnoc(core: Core, frames: seq<Frame>, last: Frame)
    ensures CoreAll(core, frames + [last]) == CoreReceive(CoreAll(core, frames), last)
  {
    assert (frames + [last])[..|frames|] == frames;
  }

  /** The frame that carries one more chunk of a message. */
  function NextFrame(cut: Cut, chunk: seq<byte>, final: bool): Frame {
    Frame(if cut.chunks == [] then cut.messageType else Continuation, final, chunk)
  }

  function Longer(cut: Cut, chunk: seq<byte>): Cut { cut.(chunks := cut.chunks + [chunk]) }

  lemma LongerFrames(cut: Cut, chunk: seq<byte>)
    ensures OpenFrames(Longer(cut, chunk)) == OpenFrames(cut) + [NextFrame(cut, chunk, false)]
    ensures FramesOf(Longer(cut, chunk)) == OpenFrames(cut) + [NextFrame(cut, chunk, true)]
    ensures Flatten(Longer(cut, chunk).chunks) == Flatten(cut.chunks) + chunk
  {
    assert Longer(cut, chunk).chunks[..|cut.chunks|] == cut.chunks;
    FlattenSnoc(cut.chunks, chunk);
  }

  /** Where the assembly stands after the unfinished frames of `cut`. */
  ghost predicate Holding(a: Assembly, cut: Cut) {
    if cut.chunks == [] then Idle(a) else a == Assembly(true, cut.messageType, Flatten(cut.chunks))
  }

  /** One more chunk of a message: an unfinished frame extends the buffer, a final frame delivers the message. */
  lemma ChunkReceived(core: Core, cut: Cut, chunk: seq<byte>, final: bool)
    requires Holding(core.assembly, cut) && |Flatten(cut.chunks)| + |chunk| <= MAXIMUM_MESSAGE
    ensures var after := CoreReceive(core, NextFrame(cut, chunk, final));
            && after.errors == core.errors
            && if final then after.delivered == core.delivered + [Whole(Longer(cut, chunk))] && Idle(after.assembly)
               else after.delivered == core.delivered && Holding(after.assembly, Longer(cut, chunk))
  {
    LongerFrames(cut, chunk);
    if cut.chunks == [] { assert Flatten(cut.chunks) + chunk == chunk; }
  }

  /** Unfinished frames of a message leave it open with the bytes received so far. */
  lemma {:induction false} OpenFramesBuffer(core: Core, cut: Cut)
    requires Idle(core.assembly) && |Flatten(cut.chunks)| <= MAXIMUM_MESSAGE
    ensures var after := CoreAll(core, OpenFrames(cut));
            Holding(after.assembly, cut) && after.delivered == core.delivered && after.errors == core.errors
    decreases |cut.chunks|
  {
    hide CoreAll, CoreReceive, FramesOf;
    if cut.chunks == [] {
      assert CoreAll(core, OpenFrames(cut)) == core by { CoreOfNothing(core); }
    } else {
      var front, chunk := cut.(chunks := cut.chunks[..|cut.chunks| - 1]), cut.chunks[|cut.chunks| - 1];
      assert cut == Longer(front, chunk);
      LongerFrames(front, chunk);
      OpenFramesBuffer(core, front);
      CoreSnoc(core, OpenFrames(front), NextFrame(front, chunk, false));
      ChunkReceived(CoreAll(core, OpenFrames(front)), front, chunk, false);
    }
  }

  lemma CoreOfNothing(core: Core)
    ensures CoreAll(core, []) == core
  {
  }

  /** The frames of one message, however cut, deliver exactly that message. */
  lemma FramesDeliver(core: Core, cut: Cut)
    requires Idle(core.assembly) && cut.chunks != [] && |Whole(cut).payload| <= MAXIMUM_MESSAGE
    ensures CoreAll(core, FramesOf(cut)).delivered == core.delivered + [Whole(cut)]
    ensures CoreAll(core, FramesOf(cut)).errors == core.errors
    ensures Idle(CoreAll(core, FramesOf(cut)).assembly)
  {
    hide CoreAll, CoreReceive, OpenFrames;
    var front, chunk := cut.(chunks := cut.chunks[..|cut.chunks| - 1]), cut.chunks[|cut.chunks| - 1];
    assert cut == Longer(front, chunk);
    LongerFrames(front, chunk);
    OpenFramesBuffer(core, front);
    CoreSnoc(core, OpenFrames(front), NextFrame(front, chunk, true));
    ChunkReceived(CoreAll(core, OpenFrames(front)), front, chunk, true);
  }

  lemma {:induction false} AllFramesDeliver(core: Core, cuts: seq<Cut>)
    requires Idle(core.assembly) && Sendable(cuts)
    ensures CoreAll(core, AllFrames(cuts)).delivered == core.delivered + Messages(cuts)
    ensures CoreAll(core, AllFrames(cuts)).errors == core.errors
    ensures Idle(CoreAll(core, AllFrames(cuts)).assembly)
    decreases |cuts|
  {
    if cuts != [] {
      var front, last := cuts[..|cuts| - 1], cuts[|cuts| - 1];
      assert cuts == front + [last];
      CutsSnoc(front, last);
      AllFramesDeliver(core, front);
      hide CoreAll, AllFrames, FramesOf, Messages, Whole, Idle;
      CoreJoin(core, AllFrames(front), FramesOf(last));
      FramesDeliver(CoreAll(core, AllFrames(front)), last);
    }
  }

  /** Fragmentation transparency: however the messages are cut into frames and wherever control frames are interleaved,
      the sink receives exactly the messages, whole and in order, with no error. */
  lemma FragmentationIsTransparent(link: Link, frames: seq<Frame>, cuts: seq<Cut>)
    requires Idle(link.core.assembly) && ControlFits(frames) && Sendable(cuts)
    requires WithoutControl(frames) == AllFrames(cuts)
    ensures var after := ReceiveAll(link, frames).core;
            after.delivered == link.core.delivered + Messages(cuts) && after.errors == link.core.errors &&
                Idle(after.assembly)
  {
    CoreOfAll(link, frames);
    ControlIsTransparent(link.core, frames);
    AllFramesDeliver(link.core, cuts);
  }

  /** In particular a message cut in any way is delivered just as its single unfragmented frame would be. */
  lemma SameAsUnfragmented(link: Link, frames: seq<Frame>, cut: Cut)
    requires Idle(link.core.assembly) && ControlFits(frames) && cut.chunks != []
    requires |Whole(cut).payload| <= MAXIMUM_MESSAGE && WithoutControl(frames) == FramesOf(cut)
    ensures ReceiveAll(link, frames).core.delivered ==
            ReceiveAll(link, [Frame(cut.messageType, true, Flatten(cut.chunks))]).core.delivered
  {
    assert AllFrames([cut]) == FramesOf(cut) by { assert [cut][..0] == []; }
    FragmentationIsTransparent(link, frames, [cut]);
    var single := [Frame(cut.messageType, true, Flatten(cut.chunks))];
    CoreOfAll(link, single);
    assert single[..0] == [] && CoreAll(link.core, single[..0]) == link.core;
  }

  /** Every ping is answered with its payload, in order. */
  lemma {:induction false} PingsAnswered(link: Link, frames: seq<Frame>)
    requires ControlFits(frames)
    ensures ReceiveAll(link, frames).pongs == link.pongs + PingPayloads(frames)
    decreases |frames|
  {
    if frames != [] { PingsAnswered(link, frames[..|frames| - 1]); }
  }

  // ---- The converse ----

  /** `data` frames account for everything delivered since `start` and for the message still open. */
  ghost predicate Explains(start: Core, after: Core, data: seq<Frame>, cuts: seq<Cut>, open: Cut) {
    && Sendable(cuts)
    && data == AllFrames(cuts) + OpenFrames(open)
    && after.delivered == start.delivered + Messages(cuts)
    && Holding(after.assembly, open)
  }

  lemma ExplainsOneMore(start: Core, now: Core, data: seq<Frame>, cuts: seq<Cut>, open: Cut, frame: Frame)
    returns (cuts': seq<Cut>, open': Cut)
    requires Explains(start, now, data, cuts, open) && !IsControl(frame.frameType)
    requires CoreReceive(now, frame).errors == now.errors
    ensures Explains(start, CoreReceive(now, frame), data + [frame], cuts', open')
  {
    hide AllFrames, OpenFrames, FramesOf, Messages;
    AcceptedFollows(now, open, frame);
    var base := if open.chunks == [] then Cut(frame.frameType, []) else open;
    assert OpenFrames(base) == OpenFrames(open) by { NothingOpen(base); NothingOpen(open); }
    var longer := Longer(base, frame.payload);
    LongerFrames(base, frame.payload);
    ChunkReceived(now, base, frame.payload, frame.final);
    if frame.final {
      cuts', open' := cuts + [longer], Cut(Text, []);
      CutsSnoc(cuts, longer);
      NothingOpen(open');
      assert AllFrames(cuts) + OpenFrames(open) + [frame] == AllFrames(cuts) + (OpenFrames(base) + [frame]);
      assert AllFrames(cuts') + [] == AllFrames(cuts');
    } else {
      cuts', open' := cuts, longer;
      assert AllFrames(cuts) + OpenFrames(open) + [frame] == AllFrames(cuts) + (OpenFrames(base) + [frame]);
    }
  }

  lemma NothingOpen(cut: Cut)
    ensures cut.chunks == [] ==> OpenFrames(cut) == []
  {
  }

  lemma CutsSnoc(cuts: seq<Cut>, last: Cut)
    requires Sendable(cuts) && last.chunks != []
    ensures AllFrames(cuts + [last]) == AllFrames(cuts) + FramesOf(last)
    ensures Messages(cuts + [last]) == Messages(cuts) + [Whole(last)]
  {
    assert (cuts + [last])[..|cuts|] == cuts;
  }

  /** A frame accepted without error is the one that may come next, and its message still fits. */
  lemma AcceptedFollows(now: Core, open: Cut, frame: Frame)
    requires Holding(now.assembly, open) && !IsControl(frame.frameType) && CoreReceive(now, frame).errors == now.errors
    ensures if open.chunks == [] then IsData(frame.frameType) && |frame.payload| <= MAXIMUM_MESSAGE
            else frame.frameType == Continuation && |Flatten(open.chunks)| + |frame.payload| <= MAXIMUM_MESSAGE
  {
  }

  lemma {:induction false} ErrorsExtend(core: Core, frames: seq<Frame>)
    ensures core.errors <= CoreAll(core, frames).errors
    decreases |frames|
  {
    if frames != [] { ErrorsExtend(core, frames[..|frames| - 1]); }
  }

  /** Frames that cause no error are exactly the frames of the delivered messages, in order, followed by the frames of
      the one message still open: nothing delivered was not sent, and nothing sent is missing. */
  lemma {:induction false} DeliveredWasSent(core: Core, frames: seq<Frame>) returns (cuts: seq<Cut>, open: Cut)
    requires Idle(core.assembly) && CoreAll(core, frames).errors == core.errors
    ensures Sendable(cuts)
    ensures WithoutControl(frames) == AllFrames(cuts) + OpenFrames(open)
    ensures CoreAll(core, frames).delivered == core.delivered + Messages(cuts)
    ensures Holding(CoreAll(core, frames).assembly, open)
    decreases |frames|
  {
    if frames == [] {
      cuts, open := [], Cut(Text, []);
    } else {
      var front, last := frames[..|frames| - 1], frames[|frames| - 1];
      ErrorsExtend(core, front);
      cuts, open := DeliveredWasSent(core, front);
      if !IsControl(last.frameType) {
        cuts, open := ExplainsOneMore(core, CoreAll(core, front), WithoutControl(front), cuts, open, last);
      }
    }
  }
}
