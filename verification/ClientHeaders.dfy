/** The extra handshake headers of the WebSocket client. */
module ClientHeaders {
  import opened Wrappers
  import opened HeaderText

  const MAXIMUM_HANDSHAKE_HEADER_COUNT := 64

  const RESERVED: seq<string> :=
    ["Host", "Connection", "Upgrade", "Sec-WebSocket-Key", "Sec-WebSocket-Version", "Sec-WebSocket-Protocol"]

  predicate IsReserved(name: string) {
    exists r :: r in RESERVED && Lower(name) == Lower(r)
  }

  predicate IsSafe(f: Field) {
    && f.name != "" && !IsReserved(f.name)
    && (forall i :: 0 <= i < |f.name| ==> ' ' < f.name[i] < '\U{7F}' && f.name[i] != ':')
    && '\r' !in f.value && '\n' !in f.value
  }

  /** The six reserved names, in any casing. */
  lemma ReservedInAnyCase(name: string)
    ensures IsReserved(name) <==>
            || SameButCase(name, "Host") || SameButCase(name, "Connection") || SameButCase(name, "Upgrade")
            || SameButCase(name, "Sec-WebSocket-Key") || SameButCase(name, "Sec-WebSocket-Version")
            || SameButCase(name, "Sec-WebSocket-Protocol")
  {
    hide Lower, SameButCase;
    forall k | 0 <= k < |RESERVED| ensures Lower(name) == Lower(RESERVED[k]) <==> SameButCase(name, RESERVED[k]) {
      LowerIsSameButCase(name, RESERVED[k]);
    }
    assert RESERVED == [RESERVED[0], RESERVED[1], RESERVED[2], RESERVED[3], RESERVED[4], RESERVED[5]];
  }

  /** No list with a reserved name in any casing is accepted. */
  lemma ReservedNamesRefused(headers: seq<Option<Field>>, i: nat)
    requires i < |headers| && headers[i].Some? && IsReserved(headers[i].value.name)
    ensures !Acceptable(headers)
  {
    if None !in headers {
      assert Values(headers)[i] == headers[i].value && headers[i].value in Values(headers);
    }
  }

  method IsReservedHandshakeHeader(name: string) returns (reserved: bool)
    ensures reserved <==> IsReserved(name)
  {
    hide SameButCase;
    for i := 0 to |RESERVED|
      invariant forall k :: 0 <= k < i ==> Lower(name) != Lower(RESERVED[k])
    {
      var equal := HeaderNameEquals(name, RESERVED[i]);
      if equal { return true; }
    }
    return false;
  }

  method HeaderIsSafe(header: Field) returns (safe: bool)
    ensures safe <==> IsSafe(header)
    ensures safe <==>
            && header.name != "" && !IsReserved(header.name)
            && (forall i :: 0 <= i < |header.name| ==> 0x21 <= header.name[i] as int <= 0x7E && header.name[i] != ':')
            && (forall i :: 0 <= i < |header.value| ==> header.value[i] as int !in {0x0D, 0x0A})
  {
    var reserved := IsReservedHandshakeHeader(header.name);
    if header.name == "" || reserved { return false; }
    for i := 0 to |header.name|
      invariant forall k :: 0 <= k < i ==> ' ' < header.name[k] < '\U{7F}' && header.name[k] != ':'
    {
      var character := header.name[i];
      if character <= ' ' || character >= '\U{7F}' || character == ':' { return false; }
    }
    return '\r' !in header.value && '\n' !in header.value;
  }

  /** The headers an enumeration yields, if it yields each of them. */
  function Values(headers: seq<Option<Field>>): seq<Field>
    requires None !in headers
  {
    seq(|headers|, i requires 0 <= i < |headers| => headers[i].value)
  }

  ghost predicate Acceptable(headers: seq<Option<Field>>) {
    None !in headers && forall f :: f in Values(headers) ==> IsSafe(f)
  }

  /** All headers are safe and their lines fit the budget. */
  ghost predicate Fits(headers: seq<Option<Field>>, maximumBytes: nat) {
    Acceptable(headers) && |Printed(Values(headers))| <= maximumBytes
  }

  /** Header `i` is the first that is missing or unsafe, and the lines before it fit the budget. */
  ghost predicate StopsAt(headers: seq<Option<Field>>, i: nat, maximumBytes: nat) {
    i < |headers| && Fits(headers[..i], maximumBytes) && (headers[i] == None || !IsSafe(headers[i].value))
  }

  /** The lines before header `i` fit the budget; `i` is safe too, and its line is the first that passes the budget. */
  ghost predicate OverflowsAt(headers: seq<Option<Field>>, i: nat, maximumBytes: nat) {
    && i < |headers| && Fits(headers[..i], maximumBytes)
    && Acceptable(headers[..i + 1]) && !Fits(headers[..i + 1], maximumBytes)
  }

  /** `headers` is what the configuration's enumerator returns per index; `maximumBytes` its byte budget. */
  method BuildNativeHeaders(headers: seq<Option<Field>>, maximumBytes: nat) returns (result: WebResult, text: string)
    ensures result == Success <==> |headers| <= MAXIMUM_HANDSHAKE_HEADER_COUNT && Fits(headers, maximumBytes)
    ensures result == Success ==> text == Printed(Values(headers))
    ensures result in {Success, Failure(InvalidConfiguration), Failure(ResourceExhausted)}
    ensures result == Failure(InvalidConfiguration) ==> exists i :: StopsAt(headers, i, maximumBytes)
    ensures result == Failure(ResourceExhausted) ==>
              |headers| > MAXIMUM_HANDSHAKE_HEADER_COUNT || exists i :: OverflowsAt(headers, i, maximumBytes)
  {
    hide Built, StopsAt, OverflowsAt, Fits, IsSafe;
    text := "";
    if |headers| > MAXIMUM_HANDSHAKE_HEADER_COUNT { return Failure(ResourceExhausted), text; }
    BuiltStarts(headers, maximumBytes);
    for i := 0 to |headers|
      invariant Built(headers, i, text, maximumBytes) && |text| <= maximumBytes
    {
      if headers[i] == None {
        BuiltStops(headers, i, text, maximumBytes);
        return Failure(InvalidConfiguration), text;
      }
      var header := headers[i].value;
      var safe := HeaderIsSafe(header);
      if !safe {
        BuiltStops(headers, i, text, maximumBytes);
        return Failure(InvalidConfiguration), text;
      }
      BuiltNext(headers, i, text, maximumBytes);
      var lineBytes := |header.name| + |header.value| + 4;
      if lineBytes > maximumBytes || |text| > maximumBytes - lineBytes { return Failure(ResourceExhausted), text; }
      ghost var before := text;
      text := text + header.name;
      text := text + SEPARATOR;
      text := text + header.value;
      text := text + CRLF;
      assert text == before + Line(header);
    }
    BuiltEnds(headers, text, maximumBytes);
    return Success, text;
  }

  /** The text so far is the printed form of the first `count` headers, which are safe and fit the budget. */
  ghost predicate Built(headers: seq<Option<Field>>, count: nat, text: string, maximumBytes: nat) {
    count <= |headers| && Fits(headers[..count], maximumBytes) && text == Printed(Values(headers[..count]))
  }

  lemma BuiltStarts(headers: seq<Option<Field>>, maximumBytes: nat)
    ensures Built(headers, 0, "", maximumBytes)
  {
  }

  lemma BuiltEnds(headers: seq<Option<Field>>, text: string, maximumBytes: nat)
    requires Built(headers, |headers|, text, maximumBytes)
    ensures Fits(headers, maximumBytes) && text == Printed(Values(headers))
  {
    assert headers[..|headers|] == headers;
  }

  lemma BuiltStops(headers: seq<Option<Field>>, count: nat, text: string, maximumBytes: nat)
    requires count < |headers| && Built(headers, count, text, maximumBytes)
    requires headers[count] == None || !IsSafe(headers[count].value)
    ensures StopsAt(headers, count, maximumBytes) && !Fits(headers, maximumBytes)
  {
    hide IsSafe, Printed;
    if None !in headers {
      assert headers[count].Some?;
      assert Values(headers)[count] == headers[count].value;
    }
  }

  /** A safe header adds its line if that still fits; otherwise neither these headers nor all of them fit. */
  lemma BuiltNext(headers: seq<Option<Field>>, count: nat, text: string, maximumBytes: nat)
    requires count < |headers| && Built(headers, count, text, maximumBytes)
    requires headers[count].Some? && IsSafe(headers[count].value)
    ensures var next := text + Line(headers[count].value);
            if |next| <= maximumBytes then Built(headers, count + 1, next, maximumBytes)
            else OverflowsAt(headers, count, maximumBytes) && !Fits(headers, maximumBytes)
  {
    hide IsSafe, Line;
    var front, more, header := headers[..count], headers[..count + 1], headers[count].value;
    assert more == front + [headers[count]];
    assert Values(more) == Values(front) + [header] && Values(more)[..count] == Values(front);
    assert Printed(Values(more)) == text + Line(header);
    if None !in headers {
      assert Values(more) == Values(headers)[..count + 1];
      PrintedLonger(Values(headers), count + 1);
    }
  }

  /** Whenever printing succeeds, the block keeps to the budget, holds no reserved name, and reading it line by line
      returns exactly the supplied headers. */
  lemma AcceptedBlockReadsBack(headers: seq<Option<Field>>)
    requires Acceptable(headers)
    ensures Read(Printed(Values(headers))) == Some(Values(headers))
    ensures forall f :: f in Values(headers) ==> !IsReserved(f.name)
  {
    var fields := Values(headers);
    forall f | f in fields ensures Readable(f) { assert IsSafe(f); }
    PrintedReadsBack(fields, "");
    assert Printed(fields) + "" == Printed(fields) && fields + [] == fields;
  }

  /** Distinct acceptable header lists never print alike. */
  lemma DistinctListsPrintApart(a: seq<Option<Field>>, b: seq<Option<Field>>)
    requires Acceptable(a) && Acceptable(b) && a != b
    ensures Printed(Values(a)) != Printed(Values(b))
  {
    AcceptedBlockReadsBack(a);
    AcceptedBlockReadsBack(b);
    assert |Values(a)| == |a| && |Values(b)| == |b|;
    if Values(a) == Values(b) {
      forall i | 0 <= i < |a| ensures a[i] == b[i] {
        assert Values(a)[i] == Values(b)[i];
      }
    }
  }
}
