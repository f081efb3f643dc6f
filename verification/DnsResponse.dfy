/** The DNS response buffer: built call by call, read back as a message (sections 4.1.1, 4.1.3, 4.1.4 and 4.2.1 of
    RFC 1035, section 2 of RFC 3596). */
module DnsResponse {
  import opened Bytes
  import opened Wrappers
  import opened Sequences
  import opened DnsName

  const MAXIMUM_PACKET := 512
  const HEADER_BYTES := 12
  const TYPE_A: uint16 := 1
  const TYPE_AAAA: uint16 := 28
  const CLASS_INTERNET: uint16 := 1
  const OWNER_POINTER: seq<byte> := [0xC0, 0x0C]

  type AddressBytes = b: seq<byte> | |b| == 16 witness seq(16, _ => 0)

  datatype DnsAddress = IPv4(bytes: AddressBytes) | IPv6(bytes: AddressBytes) {
    /** The bytes that go on the wire. */
    function Data(): seq<byte> { if IPv4? then bytes[..4] else bytes }
    function RecordType(): uint16 { if IPv4? then TYPE_A else TYPE_AAAA }
  }

  datatype Response = Response(buffer: seq<byte>, answerCount: uint16, valid: bool, completed: bool)

  /** How the network stack treats the finished datagram. */
  datatype Delivery = Sent | NoBuffer | Refused(memory: bool)

  datatype Call =
    | SetResponseCode(code: byte)
    | AddAddressAnswer(address: DnsAddress, ttl: uint32, hasMemory: bool)
    | Complete(delivery: Delivery)
    | Abort

  // ---- Bytes of the message ----

  /** QR and AA set, opcode and RD taken from the query, the other flags clear, and the response code. */
  function Flags(queryFlags: uint16, code: nat): uint16
    requires code < 0x10
  {
    0x8000 + 0x0400 + queryFlags / 0x0800 % 0x10 * 0x0800 + queryFlags / 0x0100 % 2 * 0x0100 + code
  }

  function Header(request: seq<byte>, code: nat, count: uint16): (r: seq<byte>)
    requires HEADER_BYTES <= |request| && code < 0x10
    ensures |r| == HEADER_BYTES
  {
    var flags := Bytes16(Flags(Read16(request, 2), code));
    [request[0], request[1], flags[0], flags[1], 0, 1, Bytes16(count)[0], Bytes16(count)[1], 0, 0, 0, 0]
  }

  datatype Answer = Answer(address: DnsAddress, ttl: uint32)

  /** Owner pointer, TYPE, CLASS, TTL and RDLENGTH of an answer. */
  function AnswerHead(a: Answer): (r: seq<byte>)
    ensures |r| == 12
  {
    OWNER_POINTER + Bytes16(a.address.RecordType()) + Bytes16(CLASS_INTERNET) + Bytes32(a.ttl) +
        Bytes16(|a.address.Data()|)
  }

  function AnswerBytes(a: Answer): (r: seq<byte>)
    ensures |r| == 12 + |a.address.Data()|
  {
    AnswerHead(a) + a.address.Data()
  }

  function Encodings(answers: seq<Answer>): seq<seq<byte>> {
    seq(|answers|, i requires 0 <= i < |answers| => AnswerBytes(answers[i]))
  }

  function AnswersBytes(answers: seq<Answer>): seq<byte> { Flatten(Encodings(answers)) }

  /** The response to `request` that carries a response code and answers. */
  function Message(request: seq<byte>, questionEnd: nat, code: nat, answers: seq<Answer>): seq<byte>
    requires HEADER_BYTES <= questionEnd <= |request| && code < 0x10 && |answers| < 0x1_0000
  {
    Header(request, code, |answers|) + (request[HEADER_BYTES..questionEnd] + AnswersBytes(answers))
  }

  // ---- The calls, one at a time ----

  function Initial(request: seq<byte>, questionEnd: nat): Response
    requires HEADER_BYTES <= questionEnd <= |request|
  {
    Response(Header(request, 0, 0) + request[HEADER_BYTES..questionEnd], 0, true, false)
  }

  predicate WellFormed(r: Response) { r.valid ==> HEADER_BYTES <= |r.buffer| }

  function Step(r: Response, call: Call): (s: (Response, WebResult))
    requires WellFormed(r)
    ensures WellFormed(s.0)
  {
    match call
    case SetResponseCode(code) =>
      if !r.valid || r.completed then (r, Failure(InvalidState))
      else
        var flags := Read16(r.buffer, 2) as int / 0x10 * 0x10 + code as int % 0x10;
        (r.(buffer := Overwrite(r.buffer, 2, Bytes16(flags))), Success)
    case AddAddressAnswer(address, ttl, hasMemory) =>
      if !r.valid || r.completed then (r, Failure(InvalidState))
      else if |r.buffer| + |AnswerBytes(Answer(address, ttl))| > MAXIMUM_PACKET || !hasMemory then
        (r, Failure(ResourceExhausted))
      else
        var count := (r.answerCount + 1) % 0x1_0000;
        (r.(buffer := Overwrite(r.buffer + AnswerBytes(Answer(address, ttl)), 6, Bytes16(count)), answerCount := count),
         Success)
    case Complete(delivery) =>
      if r.completed then (r, Success)
      else if !r.valid then (r, Failure(InvalidState))
      else (match delivery
            case Sent => (r.(completed := true), Success)
            case NoBuffer => (r, Failure(ResourceExhausted))
            case Refused(memory) => (r, Failure(if memory then ResourceExhausted else ConnectionFailure)))
    case Abort => (r.(completed := true), Success)
  }

  // ---- The object ----

  class ESP32DnsResponsePlatform {
    var buffer: seq<byte>
    var answerCount: uint16
    var valid: bool
    var completed: bool
    /** Datagrams handed to the network stack. */
    var datagrams: seq<seq<byte>>

    function Snapshot(): Response
      reads this
    {
      Response(buffer, answerCount, valid, completed)
    }

    constructor (pcbPresent: bool, request: seq<byte>, questionEnd: nat, hasMemory: bool)
      requires HEADER_BYTES <= questionEnd
      ensures WellFormed(Snapshot()) && datagrams == []
      ensures valid <==> pcbPresent && questionEnd <= |request| && questionEnd <= MAXIMUM_PACKET && hasMemory
      ensures valid ==> Snapshot() == Initial(request, questionEnd)
    {
      answerCount, completed, datagrams := 0, false, [];
      if !pcbPresent || |request| < HEADER_BYTES || questionEnd > |request| || questionEnd > MAXIMUM_PACKET ||
          !hasMemory {
        valid, buffer := false, [];
      } else {
        var bytes := request[..questionEnd];
        var queryFlags := Read16(request, 2);
        bytes := Overwrite(bytes, 2, Bytes16(Flags(queryFlags, 0)));
        bytes := Overwrite(bytes, 4, Bytes16(1));
        bytes := Overwrite(bytes, 6, Bytes16(0));
        bytes := Overwrite(bytes, 8, Bytes16(0));
        bytes := Overwrite(bytes, 10, Bytes16(0));
        valid, buffer := true, bytes;
        assert bytes == Initial(request, questionEnd).buffer by {
          forall i | 0 <= i < questionEnd ensures bytes[i] == Initial(request, questionEnd).buffer[i] {}
        }
      }
    }

    method SetResponseCode(code: byte) returns (result: WebResult)
      requires WellFormed(Snapshot())
      modifies this`buffer
      ensures (Snapshot(), result) == Step(old(Snapshot()), Call.SetResponseCode(code))
    {
      if !valid || completed { return Failure(InvalidState); }
      var flags: int := Read16(buffer, 2);
      flags := flags / 0x10 * 0x10 + code as int % 0x10;
      buffer := Overwrite(buffer, 2, Bytes16(flags));
      return Success;
    }

    method AddAddressAnswer(address: DnsAddress, ttl: uint32, hasMemory: bool) returns (result: WebResult)
      requires WellFormed(Snapshot())
      modifies this`buffer, this`answerCount
      ensures (Snapshot(), result) == Step(old(Snapshot()), Call.AddAddressAnswer(address, ttl, hasMemory))
    {
      if !valid || completed { return Failure(InvalidState); }
      var addressLength := if address.IPv4? then 4 else 16;
      var required := 12 + addressLength;
      if |buffer| + required > MAXIMUM_PACKET { return Failure(ResourceExhausted); }
      if !hasMemory { return Failure(ResourceExhausted); }
      var output := WriteAnswer(address, ttl, addressLength);
      buffer := buffer + output;
      answerCount := (answerCount + 1) % 0x1_0000;
      buffer := Overwrite(buffer, 6, Bytes16(answerCount));
      return Success;
    }

    method Complete(delivery: Delivery) returns (result: WebResult)
      requires WellFormed(Snapshot())
      modifies this`completed, this`datagrams
      ensures (Snapshot(), result) == Step(old(Snapshot()), Call.Complete(delivery))
      ensures datagrams == old(datagrams) + if old(!completed && valid) && delivery == Sent then [buffer] else []
    {
      if !valid || completed {
        return if completed then Success else Failure(InvalidState);
      }
      match delivery
      case NoBuffer => return Failure(ResourceExhausted);
      case Refused(memory) => return Failure(if memory then ResourceExhausted else ConnectionFailure);
      case Sent =>
        datagrams := datagrams + [buffer];
        completed := true;
        return Success;
    }

    method Abort()
      requires WellFormed(Snapshot())
      modifies this`completed
      ensures Snapshot() == Step(old(Snapshot()), Call.Abort).0
    {
      completed := true;
    }
  }

  /** Fills the bytes that the buffer grows by. */
  method WriteAnswer(address: DnsAddress, ttl: uint32, addressLength: nat) returns (output: seq<byte>)
    requires addressLength == |address.Data()|
    ensures output == AnswerBytes(Answer(address, ttl))
  {
    output := seq(12 + addressLength, _ => 0);
    var cursor := 0;
    output := Overwrite(output, cursor, OWNER_POINTER);
    cursor := cursor + 2;
    output := Overwrite(output, cursor, Bytes16(address.RecordType()));
    cursor := cursor + 2;
    output := Overwrite(output, cursor, Bytes16(CLASS_INTERNET));
    cursor := cursor + 2;
    assert output[..cursor] == OWNER_POINTER + Bytes16(address.RecordType()) + Bytes16(CLASS_INTERNET);
    output := Overwrite(output, cursor, Bytes32(ttl));
    cursor := cursor + 4;
    output := Overwrite(output, cursor, Bytes16(addressLength));
    cursor := cursor + 2;
    assert output[..cursor] == AnswerHead(Answer(address, ttl));
    output := Overwrite(output, cursor, address.bytes[..addressLength]);
  }

  // ---- Any sequence of calls ----

  function After(request: seq<byte>, questionEnd: nat, calls: seq<Call>): (r: Response)
    requires HEADER_BYTES <= questionEnd <= |request|
    ensures WellFormed(r)
    decreases |calls|
  {
    if calls == [] then Initial(request, questionEnd)
    else Step(After(request, questionEnd, calls[..|calls| - 1]), calls[|calls| - 1]).0
  }

  /** Whether the last call of the sequence succeeds. */
  predicate LastSucceeds(request: seq<byte>, questionEnd: nat, calls: seq<Call>)
    requires HEADER_BYTES <= questionEnd <= |request| && calls != []
  {
    Step(After(request, questionEnd, calls[..|calls| - 1]), calls[|calls| - 1]).1 == Success
  }

  /** The answers that were successfully added, in order. */
  function Added(request: seq<byte>, questionEnd: nat, calls: seq<Call>): seq<Answer>
    requires HEADER_BYTES <= questionEnd <= |request|
    decreases |calls|
  {
    if calls == [] then []
    else
      var earlier := Added(request, questionEnd, calls[..|calls| - 1]);
      var call := calls[|calls| - 1];
      if call.AddAddressAnswer? && LastSucceeds(request, questionEnd, calls)
      then earlier + [Answer(call.address, call.ttl)]
      else earlier
  }

  /** The code of the last successful SetResponseCode, zero if there was none. */
  function LastCode(request: seq<byte>, questionEnd: nat, calls: seq<Call>): (code: nat)
    requires HEADER_BYTES <= questionEnd <= |request|
    ensures code < 0x10
    decreases |calls|
  {
    if calls == [] then 0
    else
      var call := calls[|calls| - 1];
      if call.SetResponseCode? && LastSucceeds(request, questionEnd, calls) then call.code % 0x10
      else LastCode(request, questionEnd, calls[..|calls| - 1])
  }

  /** Whether the response was sent or aborted. */
  predicate IsFinished(calls: seq<Call>) {
    exists i :: 0 <= i < |calls| && calls[i] in {Call.Complete(Sent), Call.Abort}
  }

  lemma FinishedNext(calls: seq<Call>, last: Call)
    ensures IsFinished(calls + [last]) <==> IsFinished(calls) || last in {Call.Complete(Sent), Call.Abort}
  {
    var all := calls + [last];
    assert all[|calls|] == last;
    if i :| 0 <= i < |calls| && calls[i] in {Call.Complete(Sent), Call.Abort} { assert all[i] == calls[i]; }
    if i :| 0 <= i < |all| && all[i] in {Call.Complete(Sent), Call.Abort} {
      assert i < |calls| ==> calls[i] == all[i];
    }
  }

  lemma {:induction false} CompletedIffFinished(request: seq<byte>, questionEnd: nat, calls: seq<Call>)
    requires HEADER_BYTES <= questionEnd <= |request|
    ensures var r := After(request, questionEnd, calls); r.valid && (r.completed <==> IsFinished(calls))
    decreases |calls|
  {
    if calls != [] {
      hide IsFinished, AnswerBytes;
      var front, last := calls[..|calls| - 1], calls[|calls| - 1];
      CompletedIffFinished(request, questionEnd, front);
      FinishedNext(front, last);
      assert calls == front + [last];
    }
  }

  /** Which call succeeds after any others: until the response was sent or aborted, a response code always, and an
      address when its 16 or 28 bytes still fit and memory is there; sending when the stack takes it; afterwards only
      Complete and Abort, which change nothing. And how the others fail. */
  lemma WhenCallsSucceed(request: seq<byte>, questionEnd: nat, calls: seq<Call>, call: Call)
    requires HEADER_BYTES <= questionEnd <= |request|
    ensures var r, finished := After(request, questionEnd, calls), IsFinished(calls);
            LastSucceeds(request, questionEnd, calls + [call]) <==>
            match call
            case SetResponseCode(_) => !finished
            case AddAddressAnswer(address, _, hasMemory) =>
              !finished && |r.buffer| + (if address.IPv4? then 16 else 28) <= 512 && hasMemory
            case Complete(delivery) => finished || delivery == Sent
            case Abort => true
    ensures !LastSucceeds(request, questionEnd, calls + [call]) ==>
              Step(After(request, questionEnd, calls), call) ==
              (After(request, questionEnd, calls),
               Failure(if IsFinished(calls) then InvalidState
                       else if call == Call.Complete(Refused(false)) then ConnectionFailure else ResourceExhausted))
    ensures IsFinished(calls) ==> After(request, questionEnd, calls + [call]) == After(request, questionEnd, calls)
  {
    hide IsFinished;
    CompletedIffFinished(request, questionEnd, calls);
    assert (calls + [call])[..|calls|] == calls;
  }

  lemma OverwriteFront(front: seq<byte>, behind: seq<byte>, at: nat, patch: seq<byte>)
    requires at + |patch| <= |front|
    ensures Overwrite(front + behind, at, patch) == Overwrite(front, at, patch) + behind
  {
  }

  lemma CodeField(query: uint16, code: nat, newCode: byte)
    requires code < 0x10
    ensures Flags(query, code) as int / 0x10 * 0x10 + newCode as int % 0x10 == Flags(query, newCode % 0x10)
  {
  }

  lemma CodeReplaced(request: seq<byte>, questionEnd: nat, code: nat, answers: seq<Answer>, newCode: byte)
    requires HEADER_BYTES <= questionEnd <= |request| && code < 0x10 && |answers| < 0x1_0000
    ensures var buffer := Message(request, questionEnd, code, answers);
            Overwrite(buffer, 2, Bytes16(Read16(buffer, 2) as int / 0x10 * 0x10 + newCode as int % 0x10))
            == Message(request, questionEnd, newCode % 0x10, answers)
  {
    var header := Header(request, code, |answers|);
    var flags := Flags(Read16(request, 2), code);
    assert Read16(Message(request, questionEnd, code, answers), 2) == flags;
    CodeField(Read16(request, 2), code, newCode);
    var patched := Flags(Read16(request, 2), newCode % 0x10);
    OverwriteFront(header, request[HEADER_BYTES..questionEnd] + AnswersBytes(answers), 2, Bytes16(patched));
    assert Overwrite(header, 2, Bytes16(patched)) == Header(request, newCode % 0x10, |answers|);
  }

  lemma AppendEncoding(answers: seq<Answer>, a: Answer)
    ensures AnswersBytes(answers + [a]) == AnswersBytes(answers) + AnswerBytes(a)
  {
    assert Encodings(answers + [a]) == Encodings(answers) + [AnswerBytes(a)];
    FlattenSnoc(Encodings(answers), AnswerBytes(a));
  }

  lemma AnswerAppended(request: seq<byte>, questionEnd: nat, code: nat, answers: seq<Answer>, a: Answer)
    requires HEADER_BYTES <= questionEnd <= |request| && code < 0x10 && |answers| + 1 < 0x1_0000
    ensures Overwrite(Message(request, questionEnd, code, answers) + AnswerBytes(a), 6, Bytes16(|answers| + 1))
            == Message(request, questionEnd, code, answers + [a])
  {
    hide Header, AnswersBytes, AnswerBytes, Overwrite, Bytes16;
    var header, question := Header(request, code, |answers|), request[HEADER_BYTES..questionEnd];
    AppendEncoding(answers, a);
    var body := question + AnswersBytes(answers + [a]);
    assert Message(request, questionEnd, code, answers) + AnswerBytes(a) == header + body;
    OverwriteFront(header, body, 6, Bytes16(|answers| + 1));
    HeaderCounted(request, code, |answers|, |answers| + 1);
  }

  lemma HeaderCounted(request: seq<byte>, code: nat, count: uint16, next: uint16)
    requires HEADER_BYTES <= |request| && code < 0x10
    ensures Overwrite(Header(request, code, count), 6, Bytes16(next)) == Header(request, code, next)
  {
    hide Flags;
  }

  lemma {:induction false} AnswersLength(answers: seq<Answer>)
    ensures 16 * |answers| <= |AnswersBytes(answers)|
    decreases |answers|
  {
    if answers != [] {
      AnswersSplit(answers);
      AnswersLength(answers[1..]);
    }
  }

  lemma MessageLength(request: seq<byte>, questionEnd: nat, code: nat, answers: seq<Answer>)
    requires HEADER_BYTES <= questionEnd <= |request| && code < 0x10 && |answers| < 0x1_0000
    ensures questionEnd + 16 * |answers| <= |Message(request, questionEnd, code, answers)|
  {
    AnswersLength(answers);
  }

  /** Whatever is called, the buffer is the message with the query's ID, opcode and RD, the last response code, the
      question unchanged and exactly the successfully added answers, and it never exceeds 512 bytes. */
  lemma {:induction false} BuildsMessage(request: seq<byte>, questionEnd: nat, calls: seq<Call>)
    requires HEADER_BYTES <= questionEnd <= |request| && questionEnd <= MAXIMUM_PACKET
    ensures var r := After(request, questionEnd, calls);
            var answers := Added(request, questionEnd, calls);
            && |answers| < 0x1_0000 && r.valid && r.answerCount == |answers|
            && r.buffer == Message(request, questionEnd, LastCode(request, questionEnd, calls), answers)
            && |r.buffer| <= MAXIMUM_PACKET
    decreases |calls|
  {
    if calls == [] {
      assert request[HEADER_BYTES..questionEnd] + AnswersBytes([]) == request[HEADER_BYTES..questionEnd];
    } else {
      var earlier, call := calls[..|calls| - 1], calls[|calls| - 1];
      BuildsMessage(request, questionEnd, earlier);
      StepBuildsMessage(request, questionEnd, LastCode(request, questionEnd, earlier),
                        Added(request, questionEnd, earlier),
                        After(request, questionEnd, earlier), call);
    }
  }

  lemma StepBuildsMessage(request: seq<byte>, questionEnd: nat, code: nat, answers: seq<Answer>, r: Response,
                          call: Call)
    requires HEADER_BYTES <= questionEnd <= |request| && code < 0x10 && |answers| < 0x1_0000
    requires r.valid && r.answerCount == |answers| && |r.buffer| <= MAXIMUM_PACKET
    requires r.buffer == Message(request, questionEnd, code, answers)
    ensures var (s, result) := Step(r, call);
            var newCode := if call.SetResponseCode? && result == Success then call.code % 0x10 else code;
            var newAnswers := if call.AddAddressAnswer? && result == Success
                              then answers + [Answer(call.address, call.ttl)]
                              else answers;
            && |newAnswers| < 0x1_0000 && s.valid && s.answerCount == |newAnswers| && |s.buffer| <= MAXIMUM_PACKET
            && s.buffer == Message(request, questionEnd, newCode, newAnswers)
  {
    hide Message, AnswerBytes, AnswersBytes;
    match call
    case SetResponseCode(newCode) =>
      CodeReplaced(request, questionEnd, code, answers, newCode);
    case AddAddressAnswer(address, ttl, hasMemory) =>
      var a := Answer(address, ttl);
      MessageLength(request, questionEnd, code, answers);
      if |r.buffer| + |AnswerBytes(a)| <= MAXIMUM_PACKET && hasMemory && !r.completed {
        AnswerAppended(request, questionEnd, code, answers, a);
        assert Step(r, call).1 == Success;
      }
    case _ =>
  }

  // ---- Reading the message back ----

  /** A resource record as section 4.1.3 lays it out; `owner` is the offset of its owner name. */
  datatype Record = Record(owner: nat, recordType: uint16, recordClass: uint16, ttl: uint32, data: seq<byte>)

  function RecordAt(message: seq<byte>, at: nat): Option<(Record, nat)> {
    var fields := EncodedEnd(message, at);
    if fields + 10 > |message| then None
    else
      var length := Read16(message, fields + 8);
      if fields + 10 + length > |message| then None
      else Some((Record(at, Read16(message, fields), Read16(message, fields + 2), Read32(message, fields + 4),
                        message[fields + 10..fields + 10 + length]), fields + 10 + length))
  }

  /** `count` consecutive records from offset `at`, provided they end exactly with the message. */
  function RecordsAt(message: seq<byte>, at: nat, count: nat): Option<seq<Record>>
    decreases count
  {
    if count == 0 then (if at == |message| then Some([]) else None)
    else
      match RecordAt(message, at)
      case None => None
      case Some((record, next)) =>
        match RecordsAt(message, next, count - 1)
        case None => None
        case Some(rest) => Some([record] + rest)
  }

  /** What a reader finds for answers stored from offset `at` on. */
  function Expected(answers: seq<Answer>, at: nat): seq<Record>
    decreases |answers|
  {
    if answers == [] then []
    else
      var a := answers[0];
      [Record(at, a.address.RecordType(), CLASS_INTERNET, a.ttl, a.address.Data())] +
      Expected(answers[1..], at + |AnswerBytes(a)|)
  }

  lemma Read16Held(message: seq<byte>, at: nat, bytes: seq<byte>, k: nat)
    requires Holds(message, at, bytes) && k + 2 <= |bytes|
    ensures Read16(message, at + k) == Read16(bytes, k) == Read16(bytes[k..k + 2], 0)
  {
    var here := message[at..at + |bytes|];
    assert message[at + k] == here[k] && message[at + k + 1] == here[k + 1];
  }

  lemma AnswerReadsBack(message: seq<byte>, at: nat, a: Answer)
    requires Holds(message, at, AnswerBytes(a))
    ensures RecordAt(message, at) ==
            Some((Record(at, a.address.RecordType(), CLASS_INTERNET, a.ttl, a.address.Data()), at + |AnswerBytes(a)|))
  {
    HoldsSplit(message, at, AnswerHead(a), a.address.Data());
    var head := AnswerHead(a);
    Read16Held(message, at, head, 0);
    assert head[0] == 0xC0;
    assert message[at] == message[at..at + 12][0];
    assert EncodedEnd(message, at) == at + 2;
    Read16Held(message, at, head, 2);
    assert head[2..4] == Bytes16(a.address.RecordType());
    Read16Held(message, at, head, 4);
    assert head[4..6] == Bytes16(CLASS_INTERNET);
    Read16Held(message, at, head, 6);
    assert head[6..8] == Bytes16(a.ttl / 0x1_0000);
    Read16Held(message, at, head, 8);
    assert head[8..10] == Bytes16(a.ttl % 0x1_0000);
    Read16Held(message, at, head, 10);
    assert head[10..12] == Bytes16(|a.address.Data()|);
  }

  lemma AnswersSplit(answers: seq<Answer>)
    requires answers != []
    ensures AnswersBytes(answers) == AnswerBytes(answers[0]) + AnswersBytes(answers[1..])
  {
    assert Encodings(answers)[1..] == Encodings(answers[1..]);
  }

  lemma {:induction false} AnswersReadBack(message: seq<byte>, at: nat, answers: seq<Answer>)
    requires Holds(message, at, AnswersBytes(answers)) && at + |AnswersBytes(answers)| == |message|
    ensures RecordsAt(message, at, |answers|) == Some(Expected(answers, at))
    decreases |answers|
  {
    hide AnswerBytes, RecordAt;
    if answers != [] {
      AnswersSplit(answers);
      HoldsSplit(message, at, AnswerBytes(answers[0]), AnswersBytes(answers[1..]));
      AnswerReadsBack(message, at, answers[0]);
      AnswersReadBack(message, at + |AnswerBytes(answers[0])|, answers[1..]);
    }
  }

  /** Builder and parser undo each other: after any calls, reading ANCOUNT records from the end of the question yields
      exactly the addresses and TTLs that were added, in order, and nothing is left over. */
  lemma BuiltMessageReadsBack(request: seq<byte>, questionEnd: nat, calls: seq<Call>)
    requires HEADER_BYTES <= questionEnd <= |request| && questionEnd <= MAXIMUM_PACKET
    ensures var message := After(request, questionEnd, calls).buffer;
            var answers := Added(request, questionEnd, calls);
            && HEADER_BYTES <= |message|
            && Read16(message, 6) == |answers|
            && Holds(message, questionEnd, AnswersBytes(answers))
            && RecordsAt(message, questionEnd, Read16(message, 6)) == Some(Expected(answers, questionEnd))
  {
    hide Message, RecordsAt, Expected, Read16, AnswersBytes;
    BuildsMessage(request, questionEnd, calls);
    MessageReadsBack(request, questionEnd, LastCode(request, questionEnd, calls), Added(request, questionEnd, calls));
  }

  lemma MessageReadsBack(request: seq<byte>, questionEnd: nat, code: nat, answers: seq<Answer>)
    requires HEADER_BYTES <= questionEnd <= |request| && code < 0x10 && |answers| < 0x1_0000
    ensures var message := Message(request, questionEnd, code, answers);
            && HEADER_BYTES <= |message|
            && Read16(message, 6) == |answers|
            && Holds(message, questionEnd, AnswersBytes(answers))
            && RecordsAt(message, questionEnd, |answers|) == Some(Expected(answers, questionEnd))
  {
    hide RecordsAt, Expected, AnswersBytes;
    var message := Message(request, questionEnd, code, answers);
    var header := Header(request, code, |answers|);
    assert message[6] == header[6] && message[7] == header[7];
    assert message[questionEnd..questionEnd + |AnswersBytes(answers)|] == AnswersBytes(answers);
    AnswersReadBack(message, questionEnd, answers);
  }

  /** A host address as types A and AAAA carry it (section 3.4.1 of RFC 1035, section 2.2 of RFC 3596). */
  datatype Host = HostV4(bytes: seq<byte>) | HostV6(bytes: seq<byte>)

  /** The host address in a record: type 1 with 4 bytes or type 28 with 16, both of class 1. */
  function HostIn(r: Record): Option<Host> {
    if r.recordClass != 1 then None
    else if r.recordType == 1 && |r.data| == 4 then Some(HostV4(r.data))
    else if r.recordType == 28 && |r.data| == 16 then Some(HostV6(r.data))
    else None
  }

  lemma {:induction false} ExpectedRecord(answers: seq<Answer>, at: nat, i: nat)
    requires i < |answers|
    ensures |Expected(answers, at)| == |answers|
    ensures var r, a := Expected(answers, at)[i], answers[i];
            && r.ttl == a.ttl
            && HostIn(r) == Some(match a.address case IPv4(b) => HostV4(b[..4]) case IPv6(b) => HostV6(b))
    decreases |answers|
  {
    hide AnswerBytes;
    if |answers| > 1 { ExpectedRecord(answers[1..], at + |AnswerBytes(answers[0])|, if i == 0 then 0 else i - 1); }
  }

  /** Each record read back is the host address that was added, with its TTL. */
  lemma RecordsAreHosts(request: seq<byte>, questionEnd: nat, calls: seq<Call>, i: nat)
    requires HEADER_BYTES <= questionEnd <= |request| && questionEnd <= MAXIMUM_PACKET
    requires i < |Added(request, questionEnd, calls)|
    ensures var message := After(request, questionEnd, calls).buffer;
            && HEADER_BYTES <= |message|
            && var (records, added) := (RecordsAt(message, questionEnd, Read16(message, 6)),
                                        Added(request, questionEnd, calls));
            && records.Some? && |records.value| == |added| && records.value[i].ttl == added[i].ttl
            && HostIn(records.value[i]) ==
               Some(match added[i].address case IPv4(b) => HostV4(b[..4]) case IPv6(b) => HostV6(b))
  {
    hide After, Added, RecordsAt, Expected, Read16, AnswersBytes, HostIn;
    BuiltMessageReadsBack(request, questionEnd, calls);
    ExpectedRecord(Added(request, questionEnd, calls), questionEnd, i);
  }

  /** A response header against the query's: same ID, opcode and RD; QR and AA set, TC, RA and the reserved bits clear;
      the response code; one question, no authority and no additional records. */
  ghost predicate AnswersQuery(message: seq<byte>, request: seq<byte>, code: nat)
    requires HEADER_BYTES <= |message| && HEADER_BYTES <= |request|
  {
    var query, flags := Read16(request, 2), Read16(message, 2);
    && Read16(message, 0) == Read16(request, 0)
    && flags / 0x8000 == 1
    && flags / 0x0800 % 0x10 == query / 0x0800 % 0x10
    && flags / 0x0100 % 2 == query / 0x0100 % 2
    && flags % 0x10 == code
    && flags / 0x0400 % 2 == 1 && flags / 0x0200 % 2 == 0
    && flags / 0x10 % 0x10 == 0
    && Read16(message, 4) == 1 && Read16(message, 8) == 0 && Read16(message, 10) == 0
  }

  lemma HeaderAnswersQuery(request: seq<byte>, questionEnd: nat, calls: seq<Call>)
    requires HEADER_BYTES <= questionEnd <= |request| && questionEnd <= MAXIMUM_PACKET
    ensures var message := After(request, questionEnd, calls).buffer;
            && questionEnd <= |message|
            && AnswersQuery(message, request, LastCode(request, questionEnd, calls))
            && message[HEADER_BYTES..questionEnd] == request[HEADER_BYTES..questionEnd]
  {
    BuildsMessage(request, questionEnd, calls);
    MessageAnswersQuery(request, questionEnd, LastCode(request, questionEnd, calls),
                        Added(request, questionEnd, calls));
  }

  lemma MessageAnswersQuery(request: seq<byte>, questionEnd: nat, code: nat, answers: seq<Answer>)
    requires HEADER_BYTES <= questionEnd <= |request| && code < 0x10 && |answers| < 0x1_0000
    ensures var message := Message(request, questionEnd, code, answers);
            && AnswersQuery(message, request, code)
            && message[HEADER_BYTES..questionEnd] == request[HEADER_BYTES..questionEnd]
  {
    hide AnswersBytes;
    var message, header := Message(request, questionEnd, code, answers), Header(request, code, |answers|);
    assert message[0] == header[0] && message[1] == header[1] && message[2] == header[2] && message[3] == header[3];
    assert message[4] == header[4] && message[5] == header[5];
    assert forall i :: 8 <= i < 12 ==> message[i] == header[i];
    var question := request[HEADER_BYTES..questionEnd];
    assert message == header + question + AnswersBytes(answers);
    assert message[|header|..|header| + |question|] == question;
    FlagFields(Read16(request, 2), code);
    MiddleFlags(Read16(request, 2), code);
  }

  lemma FlagFields(query: uint16, code: nat)
    requires code < 0x10
    ensures var flags := Flags(query, code);
            && flags / 0x8000 == 1
            && flags / 0x0800 % 0x10 == query / 0x0800 % 0x10
            && flags / 0x0100 % 2 == query / 0x0100 % 2
            && flags % 0x10 == code
            && flags / 0x10 % 0x10 == 0
  {
    var opcode, recursion := query / 0x0800 % 0x10, query / 0x0100 % 2;
    var flags: int := Flags(query, code);
    assert flags == 0x8400 + opcode * 0x0800 + recursion * 0x0100 + code;
    assert flags / 0x0100 == 0x84 + opcode * 8 + recursion;
  }

  /** AA is set and TC clear. */
  lemma MiddleFlags(query: uint16, code: nat)
    requires code < 0x10
    ensures Flags(query, code) / 0x0400 % 2 == 1 && Flags(query, code) / 0x0200 % 2 == 0
  {
    var opcode, recursion := query / 0x0800 % 0x10, query / 0x0100 % 2;
    var flags: int := Flags(query, code);
    assert flags == 0x8400 + opcode * 0x0800 + recursion * 0x0100 + code;
    assert flags / 0x0400 == 0x21 + opcode * 2 && flags / 0x0200 == 0x42 + opcode * 4;
  }

  // ---- Owner names ----

  /** A response always repeats the query's ID, its question count and its question. */
  predicate Repeats(questionEnd: nat, i: nat) { i in {0, 1, 4, 5} || HEADER_BYTES <= i < questionEnd }

  ghost function Unchanged(questionEnd: nat): set<nat> {
    set i: nat | i < questionEnd && Repeats(questionEnd, i)
  }

  lemma QueryRepeated(request: seq<byte>, questionEnd: nat, calls: seq<Call>)
    requires HEADER_BYTES <= questionEnd <= |request| && questionEnd <= MAXIMUM_PACKET && Read16(request, 4) == 1
    ensures Agree(request, After(request, questionEnd, calls).buffer, Unchanged(questionEnd))
  {
    hide After, Agree, Message;
    BuildsMessage(request, questionEnd, calls);
    MessageRepeats(request, questionEnd, LastCode(request, questionEnd, calls), Added(request, questionEnd, calls));
  }

  lemma MessageRepeats(request: seq<byte>, questionEnd: nat, code: nat, answers: seq<Answer>)
    requires HEADER_BYTES <= questionEnd <= |request| && Read16(request, 4) == 1 && code < 0x10 && |answers| < 0x1_0000
    ensures Agree(request, Message(request, questionEnd, code, answers), Unchanged(questionEnd))
  {
    hide AnswersBytes, Flags;
    var message, header := Message(request, questionEnd, code, answers), Header(request, code, |answers|);
    var question := request[HEADER_BYTES..questionEnd];
    forall i | i in Unchanged(questionEnd) ensures i < |message| && message[i] == request[i] {
      if i < HEADER_BYTES { assert message[i] == header[i]; } else { assert message[i] == question[i - HEADER_BYTES]; }
    }
  }

  /** If the query name reads only bytes that the response repeats, the 0xC00C owner of an answer at `at` decodes to
      what the query name decodes to with one jump less; so it repeats the query name exactly when that name used at
      most 7 jumps. */
  lemma OwnerRepeatsQueryName(request: seq<byte>, questionEnd: nat, calls: seq<Call>, at: nat)
    requires HEADER_BYTES <= questionEnd <= |request| && questionEnd <= MAXIMUM_PACKET && Read16(request, 4) == 1
    requires NameWithin(request, HEADER_BYTES, MAXIMUM_JUMPS, Unchanged(questionEnd))
    requires TextAt(request, HEADER_BYTES).Some?
    requires Holds(After(request, questionEnd, calls).buffer, at, OWNER_POINTER)
    ensures TextAt(After(request, questionEnd, calls).buffer, at) == TextAt(request, HEADER_BYTES) <==>
            NameAt(request, HEADER_BYTES, MAXIMUM_JUMPS - 1).Some?
  {
    hide After, Agree, Unchanged, NameWithin;
    var message := After(request, questionEnd, calls).buffer;
    QueryRepeated(request, questionEnd, calls);
    PointerIsTarget(message, at, HEADER_BYTES);
    NameSurvives(request, message, HEADER_BYTES, MAXIMUM_JUMPS, MAXIMUM_JUMPS - 1, Unchanged(questionEnd));
    assert NameAt(message, at, MAXIMUM_JUMPS) == NameAt(request, HEADER_BYTES, MAXIMUM_JUMPS - 1);
    if NameAt(request, HEADER_BYTES, MAXIMUM_JUMPS - 1).Some? {
      BudgetMonotone(request, HEADER_BYTES, MAXIMUM_JUMPS - 1, MAXIMUM_JUMPS);
    }
  }

  /** Every answer read back from the response starts with the owner pointer. */
  lemma {:induction false} OwnersArePointers(message: seq<byte>, at: nat, answers: seq<Answer>, i: nat)
    requires Holds(message, at, AnswersBytes(answers)) && i < |Expected(answers, at)|
    ensures Holds(message, Expected(answers, at)[i].owner, OWNER_POINTER)
    decreases |answers|
  {
    AnswersSplit(answers);
    HoldsSplit(message, at, AnswerBytes(answers[0]), AnswersBytes(answers[1..]));
    if i == 0 {
      HoldsSplit(message, at, AnswerHead(answers[0]), answers[0].address.Data());
      assert AnswerHead(answers[0]) == OWNER_POINTER + AnswerHead(answers[0])[2..];
      HoldsSplit(message, at, OWNER_POINTER, AnswerHead(answers[0])[2..]);
    } else {
      OwnersArePointers(message, at + |AnswerBytes(answers[0])|, answers[1..], i - 1);
    }
  }

  /** Answer owner names: for an accepted query whose name reads only bytes that a response repeats, each answer of the
      finished response repeats the query name if and only if the name used at most 7 of the 8 allowed jumps. */
  lemma AnswersOwnQueryName(request: seq<byte>, questionEnd: nat, calls: seq<Call>, i: nat)
    requires HEADER_BYTES <= questionEnd <= |request| && questionEnd <= MAXIMUM_PACKET && Read16(request, 4) == 1
    requires NameWithin(request, HEADER_BYTES, MAXIMUM_JUMPS, Unchanged(questionEnd))
    requires TextAt(request, HEADER_BYTES).Some?
    requires i < |Expected(Added(request, questionEnd, calls), questionEnd)|
    ensures var message := After(request, questionEnd, calls).buffer;
            && HEADER_BYTES <= |message|
            && var records := RecordsAt(message, questionEnd, Read16(message, 6));
            records.Some? && i < |records.value| &&
            (TextAt(message, records.value[i].owner) == TextAt(request, HEADER_BYTES) <==>
             NameAt(request, HEADER_BYTES, MAXIMUM_JUMPS - 1).Some?)
  {
    hide After, Added, RecordsAt, Expected, Read16, AnswersBytes, NameAt, TextAt, NameWithin, Unchanged;
    BuiltMessageReadsBack(request, questionEnd, calls);
    var message, answers := After(request, questionEnd, calls).buffer, Added(request, questionEnd, calls);
    OwnersArePointers(message, questionEnd, answers, i);
    OwnerRepeatsQueryName(request, questionEnd, calls, Expected(answers, questionEnd)[i].owner);
  }

  // ---- Queries whose answers have another owner ----

  const ANY_ANSWER := Answer(IPv4(seq(16, _ => 0)), 60)
  const ONE_ANSWER := [Call.AddAddressAnswer(ANY_ANSWER.address, ANY_ANSWER.ttl, true)]

  lemma OneAnswerResponse(request: seq<byte>, questionEnd: nat)
    requires HEADER_BYTES <= questionEnd <= |request| && questionEnd <= MAXIMUM_PACKET - 16
    ensures After(request, questionEnd, ONE_ANSWER).buffer == Message(request, questionEnd, 0, [ANY_ANSWER])
  {
    hide Message;
    var calls := ONE_ANSWER;
    assert calls[..0] == [] && After(request, questionEnd, calls[..0]) == Initial(request, questionEnd);
    assert Added(request, questionEnd, calls[..0]) == [] && LastCode(request, questionEnd, calls[..0]) == 0;
    BuildsMessage(request, questionEnd, calls);
    assert |ANY_ANSWER.address.Data()| == 4;
    assert LastSucceeds(request, questionEnd, calls);
    assert Added(request, questionEnd, calls) == [ANY_ANSWER];
    assert LastCode(request, questionEnd, calls) == 0;
  }

  /** The response with one answer: the overwritten counts, the question and the owner pointer behind it. */
  lemma OneAnswerBytes(request: seq<byte>, questionEnd: nat)
    requires HEADER_BYTES + 2 <= questionEnd <= |request| && questionEnd <= MAXIMUM_PACKET - 16
    ensures var message := After(request, questionEnd, ONE_ANSWER).buffer;
            && |message| == questionEnd + 16 && message[6] == 0
            && message[HEADER_BYTES] == request[HEADER_BYTES] && message[HEADER_BYTES + 1] == request[HEADER_BYTES + 1]
            && Holds(message, questionEnd, OWNER_POINTER)
  {
    hide After;
    OneAnswerResponse(request, questionEnd);
    AnswersSplit([ANY_ANSWER]);
    var header, question := Header(request, 0, 1), request[HEADER_BYTES..questionEnd];
    var message := After(request, questionEnd, ONE_ANSWER).buffer;
    assert message == header + question + AnswerBytes(ANY_ANSWER);
    assert message[6] == header[6] && message[HEADER_BYTES] == question[0] && message[HEADER_BYTES + 1] == question[1];
    assert message[questionEnd] == OWNER_POINTER[0] && message[questionEnd + 1] == OWNER_POINTER[1];
    assert message[questionEnd..questionEnd + 2] == OWNER_POINTER;
  }

  // The query for "a" whose name points into its own header, at the high byte of ANCOUNT.
  const HEADER_POINTER_QUERY: seq<byte> := [0, 0, 0, 0, 0, 1, 1, 0x61, 0, 0, 0, 0, 0xC0, 0x06, 0, 1, 0, 1]

  lemma HeaderPointerQueryName()
    ensures TextAt(HEADER_POINTER_QUERY, HEADER_BYTES) == Some([0x61])
    ensures EncodedEnd(HEADER_POINTER_QUERY, HEADER_BYTES) + 4 == |HEADER_POINTER_QUERY|
  {
    var request := HEADER_POINTER_QUERY;
    var a: Label := [0x61];
    assert NameAt(request, 8, 7) == Some([]);
    assert request[6] == 1 && request[6 + 1..6 + 1 + request[6]] == a && [a] + [] == [a];
    assert NameAt(request, 6, 7) == Some([a]);
    assert NameAt(request, 12, 8) == Some([a]);
  }

  /** A query name may point at header bytes that the response overwrites. This query asks for "a"; its answer is owned
      by the root. */
  lemma HeaderPointerChangesOwner()
    ensures TextAt(HEADER_POINTER_QUERY, HEADER_BYTES) == Some([0x61])
    ensures EncodedEnd(HEADER_POINTER_QUERY, HEADER_BYTES) + 4 == |HEADER_POINTER_QUERY| == 18
    ensures TextAt(After(HEADER_POINTER_QUERY, 18, ONE_ANSWER).buffer, 18) == Some([])
  {
    hide After, TextAt, EncodedEnd;
    HeaderPointerQueryName();
    OneAnswerBytes(HEADER_POINTER_QUERY, 18);
    var message := After(HEADER_POINTER_QUERY, 18, ONE_ANSWER).buffer;
    PointerIsTarget(message, 18, 12);
    PointersToRoot(message);
  }

  lemma PointersToRoot(message: seq<byte>)
    requires 20 <= |message| && message[18] >= 0xC0 && Target(message, 18) == 12
    requires message[12] == 0xC0 && message[13] == 0x06 && message[6] == 0
    ensures TextAt(message, 18) == Some([])
  {
    assert NameAt(message, 6, 6) == Some([]);
    assert NameAt(message, 12, 7) == Some([]);
    assert NameAt(message, 18, 8) == Some([]);
  }

  // The query for "a" whose name points behind the question, at bytes that no response keeps.
  const TAIL_POINTER_QUERY: seq<byte> := [0, 0, 0, 0, 0, 1, 0, 0, 0, 0, 0, 0, 0xC0, 0x12, 0, 1, 0, 1, 1, 0x61, 0]

  lemma TailPointerQueryName()
    ensures TextAt(TAIL_POINTER_QUERY, HEADER_BYTES) == Some([0x61])
    ensures EncodedEnd(TAIL_POINTER_QUERY, HEADER_BYTES) + 4 == 18
  {
    var request := TAIL_POINTER_QUERY;
    var a: Label := [0x61];
    assert NameAt(request, 20, 7) == Some([]);
    assert request[18] == 1 && request[18 + 1..18 + 1 + request[18]] == a && [a] + [] == [a];
    assert NameAt(request, 18, 7) == Some([a]);
    assert NameAt(request, 12, 8) == Some([a]);
  }

  /** Nor does a response keep what follows the question. This query asks for "a"; the owner of its answer is a cycle of
      two pointers and does not decode. */
  lemma TailPointerLosesOwner()
    ensures TextAt(TAIL_POINTER_QUERY, HEADER_BYTES) == Some([0x61])
    ensures EncodedEnd(TAIL_POINTER_QUERY, HEADER_BYTES) + 4 == 18
    ensures TextAt(After(TAIL_POINTER_QUERY, 18, ONE_ANSWER).buffer, 18) == None
  {
    hide After, EncodedEnd, NameAt;
    TailPointerQueryName();
    OneAnswerBytes(TAIL_POINTER_QUERY, 18);
    var message := After(TAIL_POINTER_QUERY, 18, ONE_ANSWER).buffer;
    PointerIsTarget(message, 18, 12);
    PointersCycle(message, MAXIMUM_JUMPS);
  }

  lemma {:induction false} PointersCycle(message: seq<byte>, jumps: nat)
    requires 20 <= |message| && message[18] >= 0xC0 && Target(message, 18) == 12
    requires message[12] == 0xC0 && message[13] == 0x12
    ensures NameAt(message, 18, jumps) == None && NameAt(message, 12, jumps) == None
  {
    assert Target(message, 12) == 18;
    if jumps > 0 { PointersCycle(message, jumps - 1); }
  }

  // A query whose name, one label of fifteen bytes that are themselves pointers, takes all eight jumps.
  const EIGHT_JUMP_QUERY: seq<byte> :=
    [0, 0, 0, 0, 0, 1, 0, 0, 0, 0, 0, 0,
     15, 0xC0, 15, 0xC0, 17, 0xC0, 19, 0xC0, 21, 0xC0, 23, 0xC0, 25, 0xC0, 27, 0, 0xC0, 13, 0, 1, 0, 1]

  /** Pointers at the odd offsets from 13 to 25, each to the next, and a root byte at 27. */
  predicate Ladder(packet: seq<byte>) {
    && |packet| == 34 && packet[27] == 0
    && forall p :: 13 <= p < 27 && p % 2 == 1 ==> packet[p] == 0xC0 && packet[p + 1] == p + 2
  }

  lemma PointerStep(packet: seq<byte>, at: nat, jumps: nat, kept: set<nat>)
    requires at + 1 < |packet| && packet[at] >= 0xC0 && at in kept && at + 1 in kept
    ensures NameAt(packet, at, jumps) == if jumps == 0 then None else NameAt(packet, Target(packet, at), jumps - 1)
    ensures NameWithin(packet, at, jumps, kept) <==>
            jumps > 0 && NameWithin(packet, Target(packet, at), jumps - 1, kept)
  {
  }

  lemma InQuestion(i: nat)
    requires HEADER_BYTES <= i < 34
    ensures i in Unchanged(34)
  {
    assert Repeats(34, i);
  }

  lemma LadderStep(packet: seq<byte>, at: nat)
    requires Ladder(packet) && 13 <= at < 27 && at % 2 == 1
    ensures at + 1 < |packet| && packet[at] >= 0xC0 && Target(packet, at) == at + 2
  {
  }

  lemma RootWithin(packet: seq<byte>, at: nat, jumps: nat)
    requires at < |packet| && packet[at] == 0 && at in Unchanged(34)
    ensures NameAt(packet, at, jumps) == Some([]) && NameWithin(packet, at, jumps, Unchanged(34))
  {
  }

  lemma {:induction false} PointerChain(packet: seq<byte>, at: nat, jumps: nat)
    requires Ladder(packet) && 13 <= at <= 27 && at % 2 == 1
    ensures NameAt(packet, at, jumps) == (if 2 * jumps >= 27 - at then Some([]) else None)
    ensures NameWithin(packet, at, jumps, Unchanged(34)) <==> 2 * jumps >= 27 - at
    decreases 27 - at
  {
    InQuestion(at);
    if at == 27 {
      RootWithin(packet, at, jumps);
    } else {
      InQuestion(at + 1);
      LadderStep(packet, at);
      hide NameAt, NameWithin, Unchanged, Ladder, Repeats;
      PointerStep(packet, at, jumps, Unchanged(34));
      if jumps > 0 { PointerChain(packet, at + 2, jumps - 1); }
    }
  }

  lemma EightJumpQueryName()
    ensures TextAt(EIGHT_JUMP_QUERY, HEADER_BYTES).Some? && EncodedEnd(EIGHT_JUMP_QUERY, HEADER_BYTES) + 4 == 34
    ensures NameWithin(EIGHT_JUMP_QUERY, HEADER_BYTES, MAXIMUM_JUMPS, Unchanged(34))
    ensures NameAt(EIGHT_JUMP_QUERY, HEADER_BYTES, MAXIMUM_JUMPS - 1) == None
  {
    hide NameAt, TextAt, EncodedEnd, NameWithin, Unchanged;
    EightJumpQueryBytes();
    LabelThenLadder(EIGHT_JUMP_QUERY);
  }

  lemma EightJumpQueryBytes()
    ensures var q := EIGHT_JUMP_QUERY; Ladder(q) && q[12] == 15 && q[28] == 0xC0 && Target(q, 28) == 13
  {
  }

  lemma LabelThenLadder(packet: seq<byte>)
    requires Ladder(packet) && packet[12] == 15 && packet[28] == 0xC0 && Target(packet, 28) == 13
    ensures NameAt(packet, 12, 8) == Some([packet[13..28]]) && NameAt(packet, 12, 7) == None
    ensures TextAt(packet, 12).Some? && EncodedEnd(packet, 12) == 30
    ensures NameWithin(packet, 12, 8, Unchanged(34))
  {
    assert |packet| == 34;
    hide Ladder;
    PointerChain(packet, 13, 7);
    PointerChain(packet, 13, 6);
    forall i: nat | 12 <= i < 34 ensures i in Unchanged(34) { InQuestion(i); }
    hide Unchanged;
    PointerStep(packet, 28, 8, Unchanged(34));
    PointerStep(packet, 28, 7, Unchanged(34));
    assert EncodedEnd(packet, 28) == 30;
    LabelStep(packet, 12, 28, 8, []);
    hide NameAt, EncodedEnd;
    var part: Label := packet[13..28];
    assert Dotted([part]) == part && [part] + [] == [part];
  }

  lemma LabelStep(packet: seq<byte>, at: nat, next: nat, jumps: nat, rest: seq<Label>)
    requires at < next < |packet| && 0 < packet[at] < 0x40 && next == at + 1 + packet[at] && jumps > 0
    requires NameAt(packet, next, jumps) == Some(rest) && NameAt(packet, next, jumps - 1) == None
    ensures NameAt(packet, at, jumps) == Some([packet[at + 1..next]] + rest) && NameAt(packet, at, jumps - 1) == None
    ensures EncodedEnd(packet, at) == EncodedEnd(packet, next)
  {
  }

  /** The jump condition is needed as well: this accepted query takes all eight jumps, and its answer does not repeat
      it. */
  lemma EightJumpsLoseOwner()
    ensures TextAt(EIGHT_JUMP_QUERY, HEADER_BYTES).Some? && EncodedEnd(EIGHT_JUMP_QUERY, HEADER_BYTES) + 4 == 34
    ensures TextAt(After(EIGHT_JUMP_QUERY, 34, ONE_ANSWER).buffer, 34) != TextAt(EIGHT_JUMP_QUERY, HEADER_BYTES)
  {
    hide After, EncodedEnd, NameAt, TextAt, NameWithin, Unchanged;
    EightJumpQueryName();
    OneAnswerBytes(EIGHT_JUMP_QUERY, 34);
    OwnerRepeatsQueryName(EIGHT_JUMP_QUERY, 34, ONE_ANSWER, 34);
  }
}
