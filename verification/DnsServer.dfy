/** Acceptance of DNS queries by the server. */
module DnsServer {
  import opened Bytes
  import opened Wrappers
  import opened DnsName
  import opened DnsResponse

  /** What a datagram asks, if it is a well-formed query for one name. */
  datatype Question = Question(name: seq<byte>, recordType: uint16, recordClass: uint16, end: nat)

  function QuestionOf(bytes: seq<byte>): Option<Question>
    requires HEADER_BYTES <= |bytes|
  {
    var name, nameEnd := TextAt(bytes, HEADER_BYTES), EncodedEnd(bytes, HEADER_BYTES);
    if Read16(bytes, 2) >= 0x8000 || Read16(bytes, 4) != 1 || name == None || nameEnd + 4 > |bytes| then None
    else Some(Question(name.value, Read16(bytes, nameEnd), Read16(bytes, nameEnd + 2), nameEnd + 4))
  }

  /** The twelve-byte reply to a malformed query: its ID, QR, AA and FORMERR, and no records. */
  function FormatError(bytes: seq<byte>): seq<byte>
    requires 2 <= |bytes|
  {
    bytes[..2] + Bytes16(0x8000 + 0x0400 + 1) + [0, 0, 0, 0, 0, 0, 0, 0]
  }

  /** Read back: the query's ID, QR and AA set, opcode 0, TC, RD, RA and the reserved bits clear, RCODE 1, and no
      records (section 4.1.1 of RFC 1035). */
  lemma FormatErrorReads(bytes: seq<byte>)
    requires 2 <= |bytes|
    ensures var reply := FormatError(bytes);
            && |reply| == HEADER_BYTES && Read16(reply, 0) == Read16(bytes, 0)
            && Read16(reply, 2) / 0x8000 == 1 && Read16(reply, 2) / 0x0800 % 0x10 == 0
            && Read16(reply, 2) / 0x0400 % 2 == 1 && Read16(reply, 2) / 0x10 % 0x40 == 0
            && Read16(reply, 2) % 0x10 == 1
            && Read16(reply, 4) == Read16(reply, 6) == Read16(reply, 8) == Read16(reply, 10) == 0
  {
    var reply, flags := FormatError(bytes), Bytes16(0x8401);
    assert reply[2] == flags[0] && reply[3] == flags[1];
  }

  datatype Outcome = Dropped | Rejected(reply: seq<byte>) | Dispatched(question: Question)

  class ESP32DnsServerPlatform {
    var listening: bool
    var dispatcherPresent: bool

    /** `copied` says whether the datagram could be copied out of the stack's buffer; `hasMemory` whether the response
        buffer could be allocated. */
    method ReceivePacket(pcbPresent: bool, bytes: seq<byte>, copied: bool, hasMemory: bool)
      returns (outcome: Outcome, response: ESP32DnsResponsePlatform?)
      ensures !pcbPresent || !listening || !dispatcherPresent || !copied || |bytes| < HEADER_BYTES ||
              |bytes| > MAXIMUM_PACKET
              ==> outcome == Dropped && response == null
      ensures pcbPresent && listening && dispatcherPresent && copied && HEADER_BYTES <= |bytes| <= MAXIMUM_PACKET ==>
                match QuestionOf(bytes)
                case None => outcome == Rejected(FormatError(bytes)) && response == null
                case Some(question) =>
                  if !hasMemory then outcome == Dropped && response == null
                  else outcome == Dispatched(question) && response != null && fresh(response) &&
                       response.Snapshot() == Initial(bytes, question.end)
    {
      outcome, response := Dropped, null;
      if !pcbPresent || !listening { return; }
      if !dispatcherPresent { return; }
      var size := |bytes|;
      if size < HEADER_BYTES || size > MAXIMUM_PACKET { return; }
      if !copied { return; }

      var flags := Read16(bytes, 2);
      var questionCount := Read16(bytes, 4);
      if flags >= 0x8000 || questionCount != 1 {
        return Rejected(FormatError(bytes)), null;
      }
      var name := new byte[MAXIMUM_TEXT + 1](_ => 0);
      var ok, nameLength, encodedNameEnd := DecodeDnsName(bytes, HEADER_BYTES, name);
      if !ok || encodedNameEnd + 4 > |bytes| {
        return Rejected(FormatError(bytes)), null;
      }
      var questionEnd := encodedNameEnd + 4;
      var question := Question(name[..nameLength], Read16(bytes, encodedNameEnd), Read16(bytes, encodedNameEnd + 2),
                               questionEnd);
      var built := new ESP32DnsResponsePlatform(pcbPresent, bytes, questionEnd, hasMemory);
      if !built.valid { return; }
      return Dispatched(question), built;
    }
  }

  /** An accepted question lies inside the datagram behind its header, so the response can be built from it. */
  lemma AcceptedQuestionFits(bytes: seq<byte>)
    requires HEADER_BYTES <= |bytes| && QuestionOf(bytes).Some?
    ensures HEADER_BYTES + 5 <= QuestionOf(bytes).value.end <= |bytes|
    ensures |QuestionOf(bytes).value.name| <= MAXIMUM_TEXT
  {
    var at := EncodedEnd(bytes, HEADER_BYTES);
    assert HEADER_BYTES < |bytes| by { assert NameAt(bytes, HEADER_BYTES, MAXIMUM_JUMPS).Some?; }
    assert at > HEADER_BYTES;
  }

  /** Exactly these datagrams are accepted: QR clear, one question, a name whose chain of places reaches a root byte
      over at most 8 pointers and whose text has at most 253 bytes, and type and class behind it. */
  lemma AcceptedIff(bytes: seq<byte>)
    requires HEADER_BYTES <= |bytes|
    ensures QuestionOf(bytes).Some? <==>
            && bytes[2] < 0x80 && bytes[4] == 0 && bytes[5] == 1
            && (exists path :: Chain(bytes, 12, path) && Jumps(bytes, path) <= 8)
            && (var name := NameAt(bytes, 12, 8); name.Some? ==> |Dotted(name.value)| <= 253)
            && EncodedEnd(bytes, 12) + 4 <= |bytes|
  {
    hide NameAt, EncodedEnd, Chain, Jumps, Dotted;
    DecodesIffChain(bytes, 12, 8);
  }

  /** A query with one uncompressed name of at most 253 text bytes is accepted with just that name, type and class; what
      the dispatcher gets splits at its dots into the labels exactly when no label has a dot in it. */
  lemma UncompressedQueryAccepted(bytes: seq<byte>, labels: seq<Label>, recordType: uint16, recordClass: uint16,
                                  behind: seq<byte>)
    requires HEADER_BYTES <= |bytes| &&
             bytes[HEADER_BYTES..] == Encoded(labels) + [0] + Bytes16(recordType) + Bytes16(recordClass) + behind
    requires Read16(bytes, 2) < 0x8000 && Read16(bytes, 4) == 1 && |Dotted(labels)| <= MAXIMUM_TEXT
    ensures QuestionOf(bytes) ==
            Some(Question(Dotted(labels), recordType, recordClass, HEADER_BYTES + |Encoded(labels)| + 5))
    ensures NameAt(bytes, HEADER_BYTES, 0).Some?
    ensures labels != [] ==> (Split(QuestionOf(bytes).value.name) == labels <==> DotFree(labels))
  {
    hide NameAt, Encoded, EncodedEnd, Dotted, Split, DotFree;
    if labels != [] { DottedSplitsIff(labels); }
    var name := Encoded(labels) + [0];
    var rest := bytes[HEADER_BYTES..];
    var at := HEADER_BYTES + |name|;
    assert bytes[HEADER_BYTES..at] == rest[..|name|] == name;
    UncompressedRoundTrip(bytes, HEADER_BYTES, labels, MAXIMUM_JUMPS);
    UncompressedRoundTrip(bytes, HEADER_BYTES, labels, 0);
    assert bytes[at] == rest[|name|] == Bytes16(recordType)[0] &&
           bytes[at + 1] == rest[|name| + 1] == Bytes16(recordType)[1];
    assert bytes[at + 2] == rest[|name| + 2] == Bytes16(recordClass)[0];
    assert bytes[at + 3] == rest[|name| + 3] == Bytes16(recordClass)[1];
  }

  /** Every answer to such a query is owned by that name. */
  lemma UncompressedQueryAnswered(bytes: seq<byte>, labels: seq<Label>, recordType: uint16, recordClass: uint16,
                                  behind: seq<byte>, calls: seq<Call>, i: nat)
    requires HEADER_BYTES <= |bytes| <= MAXIMUM_PACKET
    requires bytes[HEADER_BYTES..] == Encoded(labels) + [0] + Bytes16(recordType) + Bytes16(recordClass) + behind
    requires Read16(bytes, 2) < 0x8000 && Read16(bytes, 4) == 1 && |Dotted(labels)| <= MAXIMUM_TEXT
    requires var end := HEADER_BYTES + |Encoded(labels)| + 5;
             end <= |bytes| && i < |Expected(Added(bytes, end, calls), end)|
    ensures var end := HEADER_BYTES + |Encoded(labels)| + 5;
            var message := After(bytes, end, calls).buffer;
            && HEADER_BYTES <= |message|
            && var records := RecordsAt(message, end, Read16(message, 6));
            records.Some? && i < |records.value| && TextAt(message, records.value[i].owner) == Some(Dotted(labels))
  {
    hide NameAt, Encoded, EncodedEnd, Dotted, NameWithin, Unchanged, After, Added, Expected, RecordsAt, QuestionOf,
        Read16;
    var end, name := HEADER_BYTES + |Encoded(labels)| + 5, Encoded(labels) + [0];
    UncompressedQueryAccepted(bytes, labels, recordType, recordClass, behind);
    assert bytes[HEADER_BYTES..][..|name|] == name;
    assert bytes[HEADER_BYTES..HEADER_BYTES + |name|] == name;
    QuestionUnchanged(end);
    EncodedWithin(bytes, HEADER_BYTES, labels, MAXIMUM_JUMPS, Unchanged(end));
    UncompressedRoundTrip(bytes, HEADER_BYTES, labels, MAXIMUM_JUMPS);
    UncompressedRoundTrip(bytes, HEADER_BYTES, labels, MAXIMUM_JUMPS - 1);
    AnswersOwnQueryName(bytes, end, calls, i);
  }

  lemma QuestionUnchanged(end: nat)
    ensures forall i :: HEADER_BYTES <= i < end ==> i in Unchanged(end)
  {
    forall i | HEADER_BYTES <= i < end ensures i in Unchanged(end) { assert Repeats(end, i); }
  }

  /** The three queries whose answers have another owner are accepted ones. */
  lemma OtherOwnersAreAccepted()
    ensures QuestionOf(HEADER_POINTER_QUERY).Some? && QuestionOf(HEADER_POINTER_QUERY).value.end == 18
    ensures QuestionOf(TAIL_POINTER_QUERY).Some? && QuestionOf(TAIL_POINTER_QUERY).value.end == 18
    ensures QuestionOf(EIGHT_JUMP_QUERY).Some? && QuestionOf(EIGHT_JUMP_QUERY).value.end == 34
  {
    hide TextAt, EncodedEnd, NameWithin, NameAt;
    HeaderPointerQueryName();
    TailPointerQueryName();
    EightJumpQueryName();
  }
}
