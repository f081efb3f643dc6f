/** The HTTP response object: header block, body and declared length kept in agreement across partial sends
    (sections 5 and 6.3 of RFC 9112). */
module HttpResponse {
  import opened Bytes
  import opened Wrappers
  import opened HeaderText
  import opened HttpReader
  import opened HttpStatusText

  const CONNECTION := "Connection"
  const CONTENT_TYPE := "Content-Type"

  predicate IsFraming(name: string) {
    SameName(name, CONTENT_LENGTH) || SameName(name, TRANSFER_ENCODING) || SameName(name, CONNECTION)
  }

  /** The three names that SetHeader refuses, in any casing. */
  lemma FramingInAnyCase(name: string)
    ensures IsFraming(name) <==>
            || SameButCase(name, "Content-Length") || SameButCase(name, "Transfer-Encoding")
            || SameButCase(name, "Connection")
    ensures SameName(name, CONTENT_TYPE) <==> SameButCase(name, "Content-Type")
  {
    hide Lower, SameButCase;
    LowerIsSameButCase(name, CONTENT_LENGTH);
    LowerIsSameButCase(name, TRANSFER_ENCODING);
    LowerIsSameButCase(name, CONNECTION);
    LowerIsSameButCase(name, CONTENT_TYPE);
  }

  // ---- The header block ----

  /** The fields of a response with a declared length, in order. */
  function FieldsOf(length: nat, contentType: string, headers: seq<Field>, keepAlive: bool): seq<Field> {
    [Field(CONTENT_LENGTH, Decimal(length))] +
    (if contentType == "" then [] else [Field(CONTENT_TYPE, contentType)]) +
    headers +
    (if keepAlive then [] else [Field(CONNECTION, "close")])
  }

  /** Names set by the application: nonempty, none of them reserved for framing or for the content type, and pairwise
      different whatever their case. */
  ghost predicate HeadersDistinct(headers: seq<Field>) {
    && (forall i :: 0 <= i < |headers| ==>
          headers[i].name != "" && !IsFraming(headers[i].name) && !SameName(headers[i].name, CONTENT_TYPE))
    && forall i, j :: 0 <= i < j < |headers| ==> !SameName(headers[i].name, headers[j].name)
  }

  /** The first header from `start` on with this name, ignoring case; the number of headers if there is none. */
  function FirstNamed(headers: seq<Field>, name: string, start: nat): (i: nat)
    requires start <= |headers|
    ensures start <= i <= |headers| && (forall k :: start <= k < i ==> !SameName(headers[k].name, name))
    ensures i < |headers| ==> SameName(headers[i].name, name)
    decreases |headers| - start
  {
    if start == |headers| || SameName(headers[start].name, name) then start else FirstNamed(headers, name, start + 1)
  }

  /** Setting a header: a header of that name keeps its place and spelling and gets the value, a new one goes last. */
  function WithHeader(headers: seq<Field>, name: string, value: string): seq<Field> {
    var i := FirstNamed(headers, name, 0);
    if i < |headers| then headers[i := Field(headers[i].name, value)] else headers + [Field(name, value)]
  }

  lemma WithHeaderKeepsDistinct(headers: seq<Field>, name: string, value: string)
    requires HeadersDistinct(headers) && name != "" && !IsFraming(name) && !SameName(name, CONTENT_TYPE)
    ensures HeadersDistinct(WithHeader(headers, name, value))
  {
    hide Lower, IsFraming;
  }

  /** Some field has this name, ignoring case, and this value. */
  ghost predicate Carries(fields: seq<Field>, name: string, value: string) {
    exists i :: 0 <= i < |fields| && SameName(fields[i].name, name) && fields[i].value == value
  }

  /** After setting a header its name has the new value and no other, and every other name keeps its value; headers keep
      their place and spelling, and a new one goes last. */
  lemma WithHeaderCarries(headers: seq<Field>, name: string, value: string, other: string, held: string)
    requires HeadersDistinct(headers)
    ensures Carries(WithHeader(headers, name, value), other, held) <==>
            if SameName(other, name) then held == value else Carries(headers, other, held)
    ensures var after := WithHeader(headers, name, value);
            && |headers| <= |after| <= |headers| + 1
            && (forall i :: 0 <= i < |headers| ==> after[i].name == headers[i].name)
            && (|after| > |headers| ==> after[|headers|].name == name)
  {
    hide Lower, IsFraming;
    var after, at := WithHeader(headers, name, value), FirstNamed(headers, name, 0);
    assert SameName(after[at].name, name) && after[at].value == value;
    assert forall i :: 0 <= i < |headers| && i != at ==> after[i] == headers[i] && !SameName(headers[i].name, name);
    if !SameName(other, name) && Carries(headers, other, held) {
      var i :| 0 <= i < |headers| && SameName(headers[i].name, other) && headers[i].value == held;
      assert i != at && after[i] == headers[i];
    }
  }

  ghost predicate NamesDistinct(fields: seq<Field>) {
    forall i, j :: 0 <= i < j < |fields| ==> !SameName(fields[i].name, fields[j].name)
  }

  lemma FixedNamesDiffer()
    ensures !SameName(CONTENT_LENGTH, CONTENT_TYPE) && !SameName(CONTENT_LENGTH, CONNECTION)
    ensures !SameName(CONTENT_TYPE, CONNECTION)
    ensures !SameName(CONTENT_LENGTH, TRANSFER_ENCODING) && !SameName(CONTENT_TYPE, TRANSFER_ENCODING)
    ensures !SameName(CONNECTION, TRANSFER_ENCODING)
  {
    assert |Lower(CONTENT_LENGTH)| == 14 && |Lower(CONTENT_TYPE)| == 12 && |Lower(CONNECTION)| == 10;
    assert |Lower(TRANSFER_ENCODING)| == 17;
  }

  /** Fields that frame a body of this length: the first is Content-Length with that value, none is Transfer-Encoding,
      and their names all differ ignoring case. */
  ghost predicate Frames(fields: seq<Field>, length: nat) {
    && fields != [] && fields[0].name == CONTENT_LENGTH && ValueOf(fields[0].value) == Some(length)
    && NamesDistinct(fields)
    && forall f :: f in fields ==> !SameName(f.name, TRANSFER_ENCODING)
  }

  /** Framing fields have one Content-Length, and no transfer coding competes with it. */
  lemma FramesOneLength(fields: seq<Field>, length: nat)
    requires Frames(fields, length)
    ensures Lengths(fields) == [fields[0].value]
    ensures !exists f :: f in fields && SameName(f.name, TRANSFER_ENCODING)
  {
    LengthsOfDistinct(fields, |fields|);
    assert fields[..|fields|] == fields;
  }

  lemma {:induction false} LengthsOfDistinct(fields: seq<Field>, count: nat)
    requires fields != [] && fields[0].name == CONTENT_LENGTH && NamesDistinct(fields) && 0 < count <= |fields|
    ensures Lengths(fields[..count]) == [fields[0].value]
  {
    var front := fields[..count - 1];
    assert fields[..count][..count - 1] == front && fields[..count][count - 1] == fields[count - 1];
    if count == 1 {
      assert Lengths(front) == [];
    } else {
      LengthsOfDistinct(fields, count - 1);
      assert !SameName(fields[0].name, fields[count - 1].name);
    }
  }

  /** Known-length framing: the fields a client reads, values trimmed, frame a body of the declared length; of the bytes
      behind the block it takes nothing for a bodiless response and otherwise that many, or waits for them. */
  lemma BlockFramesBody(verb: Method, status: HttpStatus, length: nat, contentType: string, headers: seq<Field>,
                        keepAlive: bool, rest: string, strict: bool)
    requires HeadersDistinct(headers)
    ensures var sent := FieldsOf(length, contentType, headers, keepAlive);
            var (fields, text) := (AllTrimmed(sent), StatusText(status));
            && Frames(fields, length)
            && (TextReads(contentType, headers, strict) ==>
                  ReadResponse(verb, HeaderBlock(text, sent) + rest, strict) ==
                  if IsBodiless(verb, Code(status)) then Some(Response(text, fields, "", rest))
                  else if length <= |rest| then Some(Response(text, fields, rest[..length], rest[length..]))
                  else None)
  {
    hide HeaderBlock, ReadBlock, NamesDistinct, HeadersDistinct, ValueOf, SameName, FieldReads, FieldsOf, TextReads;
    hide StatusReads, StatusText, StatusCode, Code, IsBodiless, Lengths, AllTrimmed;
    var sent := FieldsOf(length, contentType, headers, keepAlive);
    var fields := AllTrimmed(sent);
    FieldsRead(length, contentType, headers, keepAlive, strict);
    FieldsFrame(length, contentType, headers, keepAlive);
    FramesOneLength(fields, length);
    StatusTextReads(status, strict);
    StatusCodeReads(status);
    BlockReadsIff(StatusText(status), sent, rest, strict);
  }

  /** The other way round: a client that reads status and fields as sent could read the text. */
  lemma ReadTextIsReadable(verb: Method, status: string, length: nat, contentType: string, headers: seq<Field>,
                           keepAlive: bool, rest: string, strict: bool, body: string, behind: string)
    requires var sent := FieldsOf(length, contentType, headers, keepAlive);
             ReadResponse(verb, HeaderBlock(status, sent) + rest, strict) ==
             Some(Response(status, AllTrimmed(sent), body, behind))
    ensures TextReads(contentType, headers, strict)
  {
    hide HeaderBlock, ReadBlock, ValueOf, SameName, FieldReads, FieldsOf, TextReads, StatusReads, AllTrimmed;
    var sent := FieldsOf(length, contentType, headers, keepAlive);
    FieldsRead(length, contentType, headers, keepAlive, strict);
    BlockReadsIff(status, sent, rest, strict);
    var block := ReadBlock(HeaderBlock(status, sent) + rest, strict);
    assert block == Some(Block(status, AllTrimmed(sent), block.value.rest));
  }

  /** What the application sets can be read, up to blanks at the ends of values. */
  ghost predicate TextReads(contentType: string, headers: seq<Field>, strict: bool) {
    ValueReads(contentType, strict) && forall f :: f in headers ==> FieldReads(f, strict)
  }

  lemma FieldsRead(length: nat, contentType: string, headers: seq<Field>, keepAlive: bool, strict: bool)
    ensures var fields := FieldsOf(length, contentType, headers, keepAlive);
            (forall f :: f in fields ==> FieldReads(f, strict)) <==> TextReads(contentType, headers, strict)
  {
    FixedFieldsRead(length, contentType, strict);
    hide Decimal, FieldReads, ValueReads;
    var fields := FieldsOf(length, contentType, headers, keepAlive);
    if contentType != "" { assert fields[1] == Field(CONTENT_TYPE, contentType) && fields[1] in fields; }
    assert forall f :: f in headers ==> f in fields;
  }

  lemma FixedFieldsRead(length: nat, contentType: string, strict: bool)
    ensures FieldReads(Field(CONTENT_LENGTH, Decimal(length)), strict)
    ensures FieldReads(Field(CONNECTION, "close"), strict) && ValueReads("", strict)
    ensures FieldReads(Field(CONTENT_TYPE, contentType), strict) <==> ValueReads(contentType, strict)
  {
    DecimalValueReads(length, strict);
    FixedNamesRead(strict);
    hide Decimal, NameReads;
  }

  lemma DecimalValueReads(length: nat, strict: bool)
    ensures ValueReads(Decimal(length), strict) && IsTrimmed(Decimal(length))
  {
    DigitsOnly(length);
    hide Decimal;
    var text := Decimal(length);
    forall i | 0 <= i < |text| ensures IsDigit(text[i]) { assert text[i] in text; }
  }

  /** Trimming values changes neither names nor the length. */
  lemma FieldsFrame(length: nat, contentType: string, headers: seq<Field>, keepAlive: bool)
    requires HeadersDistinct(headers)
    ensures Frames(AllTrimmed(FieldsOf(length, contentType, headers, keepAlive)), length)
  {
    hide HeadersDistinct, Trim, ValueOf, SameName, Decimal;
    var sent := FieldsOf(length, contentType, headers, keepAlive);
    var fields := AllTrimmed(sent);
    NamesDiffer(length, contentType, headers, keepAlive);
    DecimalValueReads(length, false);
    DecimalReadsBack(length);
    TrimmedStays(Decimal(length));
    assert sent[0] == Field(CONTENT_LENGTH, Decimal(length)) && fields[0] == Trimmed(sent[0]);
    forall f | f in fields ensures !SameName(f.name, TRANSFER_ENCODING) {
      var i :| 0 <= i < |fields| && fields[i] == f;
      assert fields[i] == Trimmed(sent[i]) && sent[i] in sent;
    }
  }

  /** What a client reads under each name: the declared length, the content type if there is one, that the connection
      closes unless it is kept alive, and otherwise the headers that were set, values trimmed. */
  lemma FieldsCarry(length: nat, contentType: string, headers: seq<Field>, keepAlive: bool, name: string, value: string)
    requires HeadersDistinct(headers)
    ensures Carries(AllTrimmed(FieldsOf(length, contentType, headers, keepAlive)), name, value) <==>
            if SameName(name, "Content-Length") then value == Decimal(length)
            else if SameName(name, "Content-Type") then contentType != "" && value == Trim(contentType)
            else if SameName(name, "Connection") then !keepAlive && value == "close"
            else Carries(AllTrimmed(headers), name, value)
  {
    DecimalValueReads(length, false);
    TrimmedStays(Decimal(length));
    TrimmedStays("close");
    FixedNamesDiffer();
    NotInHeaders(headers, name, value);
    hide Lower, Decimal, Trim, IsTrimmed, AllTrimmed, Carries;
    var first := [Field(CONTENT_LENGTH, Decimal(length))];
    var second := if contentType == "" then [] else [Field(CONTENT_TYPE, contentType)];
    var last := if keepAlive then [] else [Field(CONNECTION, "close")];
    CarriesJoin(first, second, name, value);
    CarriesJoin(first + second, headers, name, value);
    CarriesJoin(first + second + headers, last, name, value);
    AtMostOneCarries(first, name, value);
    AtMostOneCarries(second, name, value);
    AtMostOneCarries(last, name, value);
  }

  lemma NotInHeaders(headers: seq<Field>, name: string, value: string)
    requires HeadersDistinct(headers)
    ensures IsFraming(name) || SameName(name, CONTENT_TYPE) ==> !Carries(AllTrimmed(headers), name, value)
  {
    hide Lower, Trim;
  }

  lemma CarriesJoin(a: seq<Field>, b: seq<Field>, name: string, value: string)
    ensures Carries(AllTrimmed(a + b), name, value) <==>
            Carries(AllTrimmed(a), name, value) || Carries(AllTrimmed(b), name, value)
  {
    hide SameName, Trimmed, AllTrimmed;
    var (left, right, all) := (AllTrimmed(a), AllTrimmed(b), AllTrimmed(a + b));
    assert all == left + right;
    if i :| 0 <= i < |b| && SameName(right[i].name, name) && right[i].value == value {
      assert all[|a| + i] == right[i];
    }
    if i :| 0 <= i < |a| && SameName(left[i].name, name) && left[i].value == value {
      assert all[i] == left[i];
    }
  }

  lemma AtMostOneCarries(fields: seq<Field>, name: string, value: string)
    requires |fields| <= 1
    ensures Carries(AllTrimmed(fields), name, value) <==>
            fields != [] && SameName(fields[0].name, name) && Trim(fields[0].value) == value
  {
    hide SameName, Trim;
    if fields != [] { assert AllTrimmed(fields)[0] == Trimmed(fields[0]); }
  }

  lemma FixedNamesRead(strict: bool)
    ensures NameReads(CONTENT_LENGTH, strict) && NameReads(CONTENT_TYPE, strict) && NameReads(CONNECTION, strict)
  {
    hide IsToken, NameReads;
    FixedNamesAreTokens();
    TokenReads(CONTENT_LENGTH, strict);
    TokenReads(CONTENT_TYPE, strict);
    TokenReads(CONNECTION, strict);
  }

  lemma FixedNamesAreTokens()
    ensures IsToken(CONTENT_LENGTH) && IsToken(CONTENT_TYPE) && IsToken(CONNECTION)
  {
    assert "!#$%&'*+-.^_`|~"[8] == '-';
  }

  /** SetHeader takes a value with CR LF in it under any name it takes at all; the line then is the lines of two fields,
      of which the second may have any name, Content-Length included. */
  lemma LineBreakAddsField(name: string, value: string, second: Field)
    requires name != "" && !IsFraming(name) && !SameName(name, CONTENT_TYPE)
    ensures var f := Field(name, value + CRLF + second.name + SEPARATOR + second.value);
            && WithHeader([], name, f.value) == [f] && HeadersDistinct([f])
            && !FieldReads(f, false) && Line(f) == Line(Field(name, value)) + Line(second)
  {
    hide IsFraming, SameName, Free, WithHeader, HeadersDistinct;
    OnlyHeader(name, value + CRLF + second.name + SEPARATOR + second.value);
    LineBreakMakesTwoLines(name, value, second);
  }

  /** SetHeader takes every name with a colon in it, and a client reads what stands before the first colon as the name,
      Content-Length included; a strict client does so too where that is a token and the rest is clean. */
  lemma ColonNameReadsAsAnother(name: string, tail: string, value: string, strict: bool)
    requires ':' !in name && name != "" && IsTrimmed(name)
    requires strict ==> IsToken(name) && IsClean(tail + SEPARATOR + value)
    ensures var f := Field(name + ":" + tail, value);
            && WithHeader([], f.name, value) == [f] && HeadersDistinct([f]) && !FieldReads(f, strict)
            && FieldLine(f.name + SEPARATOR + value, strict) == Some(Field(name, Trim(tail + SEPARATOR + value)))
  {
    hide IsFraming, SameName, FieldLine, Trim, Free, IsToken, IsClean, IsTrimmed, WithHeader, HeadersDistinct;
    var long := name + ":" + tail;
    assert long[|name|] == ':';
    ColonNameIsFree(long, |name|);
    OnlyHeader(long, value);
    ColonEndsName(name, tail, value, strict);
  }

  lemma OnlyHeader(name: string, value: string)
    requires name != "" && !IsFraming(name) && !SameName(name, CONTENT_TYPE)
    ensures WithHeader([], name, value) == [Field(name, value)] && HeadersDistinct([Field(name, value)])
  {
    hide IsFraming, SameName;
  }

  lemma ColonNameIsFree(name: string, at: nat)
    requires at < |name| && name[at] == ':'
    ensures !IsFraming(name) && !SameName(name, CONTENT_TYPE)
  {
    NoColon(name, at, CONTENT_LENGTH);
    NoColon(name, at, TRANSFER_ENCODING);
    NoColon(name, at, CONNECTION);
    NoColon(name, at, CONTENT_TYPE);
  }

  lemma NoColon(name: string, at: nat, other: string)
    requires at < |name| && name[at] == ':' && ':' !in other
    ensures !SameName(name, other)
  {
    assert |Lower(name)| == |name| && |Lower(other)| == |other|;
    assert Lower(name)[at] == ':';
    if |name| == |other| { assert Lower(other)[at] != ':'; }
  }

  lemma NamesDiffer(length: nat, contentType: string, headers: seq<Field>, keepAlive: bool)
    requires HeadersDistinct(headers)
    ensures NamesDistinct(FieldsOf(length, contentType, headers, keepAlive))
    ensures forall f :: f in FieldsOf(length, contentType, headers, keepAlive) ==> !SameName(f.name, TRANSFER_ENCODING)
  {
    FixedNamesDiffer();
    hide Lower, Decimal;
    var first := [Field(CONTENT_LENGTH, Decimal(length))];
    var second := if contentType == "" then [] else [Field(CONTENT_TYPE, contentType)];
    var last := if keepAlive then [] else [Field(CONNECTION, "close")];
    JoinDistinct(first, second);
    JoinDistinct(first + second, headers);
    JoinDistinct(first + second + headers, last);
  }

  lemma JoinDistinct(left: seq<Field>, right: seq<Field>)
    requires NamesDistinct(left) && NamesDistinct(right)
    requires forall f, g :: f in left && g in right ==> !SameName(f.name, g.name)
    ensures NamesDistinct(left + right)
  {
    hide SameName;
  }

  // ---- Building the block line by line ----

  ghost predicate LinesSoFar(text: string, status: string, fields: seq<Field>) {
    text == VERSION + status + CRLF + Printed(fields)
  }

  lemma FirstLine(text: string, status: string, f: Field)
    requires text == VERSION + status + (CRLF + f.name + SEPARATOR) + f.value + CRLF
    ensures LinesSoFar(text, status, [f])
  {
    assert [f][..0] == [];
    assert Printed([f]) == Line(f);
  }

  lemma AppendLine(before: string, after: string, status: string, fields: seq<Field>, f: Field)
    requires LinesSoFar(before, status, fields) && after == before + Line(f)
    ensures LinesSoFar(after, status, fields + [f])
  {
    hide Line;
    assert (fields + [f])[..|fields|] == fields;
  }

  lemma LastLine(text: string, status: string, fields: seq<Field>)
    requires LinesSoFar(text, status, fields)
    ensures text + CRLF == HeaderBlock(status, fields)
  {
    hide Printed;
  }

  lemma AssembleFields(length: nat, contentType: string, headers: seq<Field>, keepAlive: bool, fields: seq<Field>)
    requires fields == ([Field(CONTENT_LENGTH, Decimal(length))] +
                        if contentType == "" then [] else [Field(CONTENT_TYPE, contentType)]) + headers +
                       if keepAlive then [] else [Field(CONNECTION, "close")]
    ensures fields == FieldsOf(length, contentType, headers, keepAlive)
  {
  }

  // ---- The response object ----

  const WRAP := 0x1_0000_0000

  /** `std::size_t` has 32 bits here: no buffer is longer, and sums wrap. */
  type Buffer = s: string | |s| < WRAP

  function SizeSum(a: uint32, b: int): uint32 { (a + b) % WRAP }

  function Counted(bytes: nat): uint32 { bytes % WRAP }

  lemma SizeSumCounts(bytes: nat, more: nat)
    ensures SizeSum(Counted(bytes), more) == Counted(bytes + more)
  {
  }

  class ESP32HttpResponsePlatform {
    const verb: Method
    const keepAlive: bool
    var begun: bool
    var completed: bool
    var knownLengthFraming: bool
    var status: HttpStatus
    var expectedLength: Option<uint32>
    var bytesWritten: uint32
    var contentType: string
    var headers: seq<Field>
    /** What went out through raw sends, and what through chunked sends. */
    var wire: string
    var chunks: seq<string>
    /** The concatenated successful writes, and whether no send has failed and the response was not aborted. */
    ghost var body: string
    ghost var clean: bool
    /** How many native sends have failed. */
    ghost var failedSends: nat

    ghost predicate Valid()
      reads this
    {
      && HeadersDistinct(headers)
      && (begun ==> knownLengthFraming == expectedLength.Some?)
      && (!begun ==> bytesWritten == 0 && body == "" && !(clean && completed) && (clean ==> wire == ""))
      && bytesWritten == Counted(|body|)
      && (begun && expectedLength.Some? ==> bytesWritten <= expectedLength.value)
      && (begun && clean && expectedLength.Some? ==> wire == Expected())
      && (clean && completed && expectedLength.Some? ==> bytesWritten == expectedLength.value)
    }

    /** The raw bytes a clean response has sent so far. */
    ghost function Expected(): string
      requires expectedLength.Some?
      reads this
    {
      HeaderBlock(StatusText(status), FieldsOf(expectedLength.value, contentType, headers, keepAlive)) +
      if verb == Head then "" else body
    }

    constructor (verb: Method, keepAlive: bool)
      ensures Valid() && clean && !begun && !completed && wire == "" && chunks == [] && headers == [] &&
              contentType == ""
      ensures failedSends == 0 && this.verb == verb && this.keepAlive == keepAlive && status == Ok
    {
      this.verb, this.keepAlive := verb, keepAlive;
      begun, completed, knownLengthFraming, status := false, false, false, Ok;
      expectedLength, bytesWritten, contentType, headers := None, 0, "", [];
      wire, chunks, body, clean, failedSends := "", [], "", true, 0;
    }

    method SetStatus(newStatus: HttpStatus) returns (result: WebResult)
      requires Valid()
      modifies this`status
      ensures Valid()
      ensures if begun then result == Failure(InvalidState) && status == old(status)
              else result == Success && status == newStatus
    {
      if begun { return Failure(InvalidState); }
      status := newStatus;
      return Success;
    }

    method SetHeader(name: string, value: string) returns (result: WebResult)
      requires Valid()
      modifies this`contentType, this`headers
      ensures Valid()
      ensures result == if begun || name == "" then Failure(InvalidState)
                        else if IsFraming(name) then Failure(InvalidConfiguration) else Success
      ensures result == Success ==>
                && !SameButCase(name, "Content-Length") && !SameButCase(name, "Transfer-Encoding")
                && !SameButCase(name, "Connection")
      ensures contentType == if result == Success && SameName(name, CONTENT_TYPE) then value else old(contentType)
      ensures result != Success || SameName(name, CONTENT_TYPE) ==> headers == old(headers)
      ensures result == Success && !SameName(name, CONTENT_TYPE) ==> headers == WithHeader(old(headers), name, value)
    {
      hide SameButCase;
      if begun || name == "" { return Failure(InvalidState); }
      FramingInAnyCase(name);
      var framing := IsFramingHeader(name);
      if framing { return Failure(InvalidConfiguration); }
      var isContentType := HeaderNameEquals(name, CONTENT_TYPE);
      if isContentType {
        contentType := value;
        return Success;
      }
      WithHeaderKeepsDistinct(headers, name, value);
      for i := 0 to |headers|
        invariant headers == old(headers) && contentType == old(contentType)
        invariant FirstNamed(headers, name, 0) == FirstNamed(headers, name, i)
      {
        var same := HeaderNameEquals(headers[i].name, name);
        if same {
          headers := headers[i := Field(headers[i].name, value)];
          return Success;
        }
      }
      headers := headers + [Field(name, value)];
      return Success;
    }

    method IsFramingHeader(name: string) returns (framing: bool)
      ensures framing <==> IsFraming(name)
    {
      var isLength := HeaderNameEquals(name, CONTENT_LENGTH);
      var isEncoding := HeaderNameEquals(name, TRANSFER_ENCODING);
      var isConnection := HeaderNameEquals(name, CONNECTION);
      return isLength || isEncoding || isConnection;
    }

    /** The native send: takes any nonempty prefix of the data, or fails. */
    method HttpdSend(data: string) returns (sent: int)
      modifies this`wire, this`failedSends
      ensures sent <= |data|
      ensures wire == old(wire) + if sent > 0 then data[..sent] else ""
      ensures failedSends == old(failedSends) + if sent > 0 then 0 else 1
    {
      sent := *;
      if sent > |data| { sent := |data|; }
      if sent > 0 { wire := wire + data[..sent]; } else { failedSends := failedSends + 1; }
    }

    /** Sends everything, whatever pattern of partial sends the network takes, or stops at the first failure. */
    method SendRaw(data: string) returns (result: WebResult)
      modifies this`wire, this`failedSends
      ensures result == if failedSends == old(failedSends) then Success else Failure(ConnectionFailure)
      ensures old(failedSends) <= failedSends <= old(failedSends) + 1
      ensures old(wire) <= wire <= old(wire) + data
      ensures result == Success ==> wire == old(wire) + data
    {
      var rest := data;
      while rest != ""
        invariant wire + rest == old(wire) + data && old(wire) <= wire && failedSends == old(failedSends)
        decreases |rest|
      {
        var sent := HttpdSend(rest);
        if sent <= 0 {
          assert wire <= old(wire) + data;
          return Failure(ConnectionFailure);
        }
        rest := rest[sent..];
      }
      return Success;
    }

    method SendKnownLengthHeaders(contentLength: nat) returns (result: WebResult)
      modifies this`wire, this`failedSends
      ensures result == if failedSends == old(failedSends) then Success else Failure(ConnectionFailure)
      ensures result == Success ==>
                wire == old(wire) + HeaderBlock(StatusText(status),
                                                FieldsOf(contentLength, contentType, headers, keepAlive))
    {
      var text := BuildHeaderText(contentLength);
      result := SendRaw(text);
    }

    method BuildHeaderText(contentLength: nat) returns (text: string)
      ensures text == HeaderBlock(StatusText(status), FieldsOf(contentLength, contentType, headers, keepAlive))
    {
      hide LinesSoFar, FieldsOf, HeaderBlock, Decimal, StatusText;
      text := VERSION;
      text := text + StatusText(status);
      text := text + CRLF + CONTENT_LENGTH + SEPARATOR;
      text := text + Decimal(contentLength);
      text := text + CRLF;
      ghost var fields := [Field(CONTENT_LENGTH, Decimal(contentLength))];
      FirstLine(text, StatusText(status), fields[0]);
      if contentType != "" {
        ghost var before := text;
        text := text + CONTENT_TYPE + SEPARATOR;
        text := text + contentType;
        text := text + CRLF;
        AppendLine(before, text, StatusText(status), fields, Field(CONTENT_TYPE, contentType));
        fields := fields + [Field(CONTENT_TYPE, contentType)];
      }
      ghost var front := fields;
      for i := 0 to |headers|
        modifies {}
        invariant fields == front + headers[..i] && LinesSoFar(text, StatusText(status), fields)
      {
        var header := headers[i];
        ghost var before := text;
        text := text + header.name;
        text := text + SEPARATOR;
        text := text + header.value;
        text := text + CRLF;
        AppendLine(before, text, StatusText(status), fields, header);
        fields := fields + [header];
      }
      assert fields == front + headers;
      if !keepAlive {
        ghost var before := text;
        text := text + "Connection: close\r\n";
        assert "Connection: close\r\n" == CONNECTION + SEPARATOR + "close" + CRLF;
        AppendLine(before, text, StatusText(status), fields, Field(CONNECTION, "close"));
        fields := fields + [Field(CONNECTION, "close")];
      }
      LastLine(text, StatusText(status), fields);
      AssembleFields(contentLength, contentType, headers, keepAlive, fields);
      text := text + CRLF;
    }

    /** `nativeAccepts` is whether the native server takes the chunked response's status and headers. */
    method Begin(contentLength: Option<uint32>, nativeAccepts: bool) returns (result: WebResult)
      requires Valid()
      modifies this`begun, this`expectedLength, this`knownLengthFraming, this`wire, this`clean, this`failedSends
      ensures Valid()
      ensures old(begun) ==> result == Failure(InvalidState) && unchanged(this)
      ensures begun <==> old(begun) || result == Success
      ensures !old(begun) ==> expectedLength == contentLength && knownLengthFraming == contentLength.Some?
      ensures !old(begun) && contentLength.None? ==>
                wire == old(wire) && result == if nativeAccepts then Success else Failure(PlatformFailure)
      ensures !old(begun) && contentLength.Some? ==>
                result == if failedSends == old(failedSends) then Success else Failure(ConnectionFailure)
      ensures result == Success ==> clean == old(clean)
    {
      hide HeadersDistinct, HeaderBlock, FieldsOf, StatusText;
      if begun { return Failure(InvalidState); }
      expectedLength := contentLength;
      knownLengthFraming := contentLength.Some?;
      if knownLengthFraming {
        result := SendKnownLengthHeaders(contentLength.value);
        if result != Success {
          clean := false;
          return;
        }
        begun := true;
        assert body == "";
        return Success;
      }
      if !nativeAccepts {
        clean := false;
        return Failure(PlatformFailure);
      }
      begun := true;
      return Success;
    }

    /** `nativeAccepts` is whether the native server takes a chunk. */
    method Write(data: Buffer, nativeAccepts: bool) returns (result: WebResult)
      requires Valid()
      modifies this`bytesWritten, this`wire, this`chunks, this`body, this`clean, this`failedSends
      ensures Valid()
      ensures !begun || completed || data == "" ==> result == Failure(InvalidState) && unchanged(this)
      ensures begun && !completed && data != "" && expectedLength.Some? &&
              SizeSum(old(bytesWritten), |data|) > expectedLength.value ==>
                result == Failure(ProtocolError) && unchanged(this)
      ensures begun && !completed && data != "" &&
              (expectedLength.Some? ==> SizeSum(old(bytesWritten), |data|) <= expectedLength.value) ==>
                result == if (if verb == Head then true
                              else if knownLengthFraming then failedSends == old(failedSends) else nativeAccepts)
                          then Success else Failure(ConnectionFailure)
      ensures body == old(body) + if result == Success then data else ""
      ensures result == Success ==> clean == old(clean)
      ensures chunks == old(chunks) + if result == Success && verb != Head && !knownLengthFraming then [data] else []
    {
      hide HeadersDistinct, HeaderBlock, FieldsOf, SizeSum, Counted, StatusText;
      SizeSumCounts(|body|, |data|);
      if !begun || completed || data == "" { return Failure(InvalidState); }
      if expectedLength.Some? && SizeSum(bytesWritten, |data|) > expectedLength.value { return Failure(ProtocolError); }
      if verb == Head {
        bytesWritten := SizeSum(bytesWritten, |data|);
        body := body + data;
        return Success;
      }
      if knownLengthFraming {
        result := SendRaw(data);
      } else {
        if nativeAccepts { chunks := chunks + [data]; }
        result := if nativeAccepts then Success else Failure(ConnectionFailure);
      }
      if result != Success {
        clean := false;
        return;
      }
      bytesWritten := SizeSum(bytesWritten, |data|);
      body := body + data;
      assert knownLengthFraming && clean ==> wire == old(wire) + data;
      return Success;
    }

    method Complete(nativeAccepts: bool) returns (result: WebResult)
      requires Valid()
      modifies this`completed, this`chunks, this`clean
      ensures Valid()
      ensures old(completed) ==> result == Success && unchanged(this)
      ensures !old(completed) && !begun ==> result == Failure(InvalidState) && unchanged(this)
      ensures !old(completed) && result == Success ==>
                completed && begun && (expectedLength.Some? ==> bytesWritten == expectedLength.value)
      ensures !old(completed) && begun && expectedLength.Some? ==>
                result == if bytesWritten == expectedLength.value then Success else Failure(ProtocolError)
      ensures !old(completed) && begun && expectedLength.None? ==>
                result == if nativeAccepts then Success else Failure(ConnectionFailure)
      ensures result == Success ==> clean == old(clean)
      ensures chunks == old(chunks) + if !old(completed) && result == Success && !knownLengthFraming then [""] else []
      ensures result != Success ==> completed == old(completed)
    {
      if !begun || completed {
        return if completed then Success else Failure(InvalidState);
      }
      if expectedLength.Some? && bytesWritten != expectedLength.value { return Failure(ProtocolError); }
      if !knownLengthFraming {
        if !nativeAccepts {
          clean := false;
          return Failure(ConnectionFailure);
        }
        chunks := chunks + [""];
      }
      completed := true;
      return Success;
    }

    method Abort()
      requires Valid()
      modifies this`completed, this`clean
      ensures Valid() && completed && !clean
    {
      completed := true;
      clean := false;
    }
  }

  /** Whether the body rule gives a client the writes and nothing else: always for HEAD, which sends none; without any
      for a bodiless response; and below 2^32 bytes otherwise, where the declared length is their number. */
  ghost predicate BodyReads(r: ESP32HttpResponsePlatform)
    reads r
  {
    r.verb == Head || if IsBodiless(r.verb, Code(r.status)) then r.body == "" else |r.body| < WRAP
  }

  /** What a client, strict or not, reads from a completed response with a declared length and no failed send: the
      status, the fields with their values trimmed, which frame the declared length, and as body exactly the writes (for
      HEAD none), leaving whatever follows for the next response. It reads this exactly when the text can be read and
      the body rule gives the writes. */
  lemma CompletedResponseReadsBack(r: ESP32HttpResponsePlatform, behind: string, strict: bool)
    requires r.Valid() && r.clean && r.completed && r.expectedLength.Some?
    ensures var fields := AllTrimmed(FieldsOf(r.expectedLength.value, r.contentType, r.headers, r.keepAlive));
            && Frames(fields, r.expectedLength.value)
            && (ReadResponse(r.verb, r.wire + behind, strict) ==
                Some(Response(StatusText(r.status), fields, if r.verb == Head then "" else r.body, behind)) <==>
                TextReads(r.contentType, r.headers, strict) && BodyReads(r))
  {
    hide ReadResponse, HeaderBlock, FieldsOf, Frames, HeadersDistinct, TextReads, StatusText, Code, AllTrimmed;
    var sent := if r.verb == Head then "" else r.body;
    var length := r.expectedLength.value;
    var fields := FieldsOf(length, r.contentType, r.headers, r.keepAlive);
    assert r.wire + behind == HeaderBlock(StatusText(r.status), fields) + (sent + behind);
    BlockFramesBody(r.verb, r.status, length, r.contentType, r.headers, r.keepAlive, sent + behind, strict);
    if ReadResponse(r.verb, r.wire + behind, strict) ==
       Some(Response(StatusText(r.status), AllTrimmed(fields), sent, behind)) {
      ReadTextIsReadable(r.verb, StatusText(r.status), length, r.contentType, r.headers, r.keepAlive, sent + behind,
                         strict, sent, behind);
    }
    SplitsAt(sent, behind, length);
  }

  lemma SplitsAt(sent: string, behind: string, length: nat)
    ensures |sent + behind| == |sent| + |behind|
    ensures length == |sent| ==> (sent + behind)[..length] == sent && (sent + behind)[length..] == behind
    ensures sent == "" ==> sent + behind == behind
  {
  }

  /** Values come back identical exactly when none has a blank at either end. */
  lemma {:induction false} IdenticalIffTrimmed(fields: seq<Field>)
    ensures AllTrimmed(fields) == fields <==> forall f :: f in fields ==> IsTrimmed(f.value)
  {
    forall i | 0 <= i < |fields| ensures AllTrimmed(fields)[i] == fields[i] <==> IsTrimmed(fields[i].value) {
      TrimmedIff(fields[i].value);
    }
    if AllTrimmed(fields) == fields {
      forall f | f in fields ensures IsTrimmed(f.value) {
        var i :| 0 <= i < |fields| && fields[i] == f;
      }
    }
  }

  lemma TrimmedIff(value: string)
    ensures Trim(value) == value <==> IsTrimmed(value)
  {
    var from, to := TrimSlice(value);
    if IsTrimmed(value) { TrimmedStays(value); }
  }

  /** The object takes a body for every status: whatever was written to a response with one of the bodiless statuses is
      left on the connection, where the next response should start. */
  lemma BodilessStatusLeavesBody(r: ESP32HttpResponsePlatform, behind: string, strict: bool)
    requires r.Valid() && r.clean && r.completed && r.expectedLength.Some? && r.verb == OtherMethod
    requires r.status in {Continue, SwitchingProtocols, NoContent, NotModified}
    requires TextReads(r.contentType, r.headers, strict)
    ensures var fields := AllTrimmed(FieldsOf(r.expectedLength.value, r.contentType, r.headers, r.keepAlive));
            ReadResponse(r.verb, r.wire + behind, strict) ==
            Some(Response(StatusText(r.status), fields, "", r.body + behind))
  {
    hide ReadResponse, HeaderBlock, FieldsOf, Frames, HeadersDistinct, TextReads, StatusText, AllTrimmed;
    BodilessStatuses(r.status);
    var length := r.expectedLength.value;
    var fields := FieldsOf(length, r.contentType, r.headers, r.keepAlive);
    assert r.wire + behind == HeaderBlock(StatusText(r.status), fields) + (r.body + behind);
    BlockFramesBody(r.verb, r.status, length, r.contentType, r.headers, r.keepAlive, r.body + behind, strict);
  }

  /** Such a response: unless a send fails, every call below succeeds. */
  method RespondNoContentWithBody() returns (r: ESP32HttpResponsePlatform, result: WebResult)
    ensures fresh(r) && r.Valid() && r.verb == OtherMethod && (result == Success <==> r.failedSends == 0)
    ensures result == Success ==>
              r.clean && r.completed && r.status == NoContent && r.expectedLength == Some(5) && r.body == "hello"
  {
    hide HeadersDistinct, HeaderBlock, FieldsOf, StatusText;
    r := new ESP32HttpResponsePlatform(OtherMethod, true);
    result := r.SetStatus(NoContent);
    result := r.Begin(Some(5), true);
    if result != Success { return; }
    result := r.Write("hello", true);
    if result != Success { return; }
    result := r.Complete(true);
  }

  /** A write is taken exactly when the wrapped sum is within the declared length; it then passes that length only where
      the sum itself reaches 2^32. */
  lemma WrappedCountPassesLength(counted: uint32, size: uint32, length: uint32)
    requires counted <= length
    ensures SizeSum(counted, size) <= length && counted + size > length <==> WRAP <= counted + size <= length + WRAP
  {
  }
}
