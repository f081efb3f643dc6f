/** How a client reads an HTTP response: status line, field lines and body (sections 4, 5 and 6.3 of RFC 9112). */
module HttpReader {
  import opened Wrappers
  import opened HeaderText

  const VERSION := "HTTP/1.1 "

  const CONTENT_LENGTH := "Content-Length"
  const TRANSFER_ENCODING := "Transfer-Encoding"

  /** Request methods, as far as the body of the response depends on them. */
  datatype Method = Head | Connect | OtherMethod

  /** A response, and what stays on the connection behind it. */
  datatype Response = Response(status: string, fields: seq<Field>, body: string, behind: string)

  /** Fields read, and the text behind them. */
  datatype Parsed = Parsed(fields: seq<Field>, rest: string)

  /** The header block read, and the text behind it. */
  datatype Block = Block(status: string, fields: seq<Field>, rest: string)

  predicate SameName(a: string, b: string) { Lower(a) == Lower(b) }

  // ---- The reader ----

  /** Optional whitespace of section 5.6.3 of RFC 9110. */
  predicate IsBlank(c: char) { c == ' ' || c == '\t' }

  function TrimLeft(text: string): string {
    if text != "" && IsBlank(text[0]) then TrimLeft(text[1..]) else text
  }

  function TrimRight(text: string): string {
    if text != "" && IsBlank(text[|text| - 1]) then TrimRight(text[..|text| - 1]) else text
  }

  function Trim(text: string): string { TrimRight(TrimLeft(text)) }

  function FirstColon(line: string): (i: nat)
    ensures i <= |line| && ':' !in line[..i] && (i < |line| ==> line[i] == ':')
  {
    if line == "" || line[0] == ':' then 0 else FirstColon(line[1..]) + 1
  }

  /** The characters of a token, section 5.6.2 of RFC 9110. */
  predicate IsTokenCharacter(c: char) {
    'a' <= c <= 'z' || 'A' <= c <= 'Z' || '0' <= c <= '9' || c in "!#$%&'*+-.^_`|~"
  }

  predicate IsToken(name: string) { name != "" && forall i :: 0 <= i < |name| ==> IsTokenCharacter(name[i]) }

  /** Free of the characters that section 5.5 of RFC 9110 calls invalid and dangerous in a value. */
  predicate IsClean(text: string) { '\r' !in text && '\n' !in text && '\0' !in text }

  /** A field line: the name ends at the first colon; blanks before the colon and around the value are dropped. Lines
      without a name and folded lines, which start with a blank, are refused; a strict client also refuses names that
      are not tokens as they stand and values that are not clean. */
  function FieldLine(line: string, strict: bool): Option<Field> {
    var colon := FirstColon(line);
    if colon == |line| || colon == 0 || IsBlank(line[0]) then None
    else
      var f := Field(TrimRight(line[..colon]), Trim(line[colon + 1..]));
      if strict && !(IsToken(line[..colon]) && IsClean(f.value)) then None else Some(f)
  }

  function Before(fields: seq<Field>, parsed: Option<Parsed>): Option<Parsed> {
    match parsed
    case None => None
    case Some(p) => Some(Parsed(fields + p.fields, p.rest))
  }

  /** Field lines, each ended by the first CR LF, up to and including the empty line. */
  function ReadFields(text: string, strict: bool): Option<Parsed>
    decreases |text|
  {
    var end := IndexOf(text, CRLF);
    if end == |text| then None
    else if end == 0 then Some(Parsed([], text[2..]))
    else
      match FieldLine(text[..end], strict)
      case None => None
      case Some(field) => Before([field], ReadFields(text[end + 2..], strict))
  }

  function ReadBlock(wire: string, strict: bool): Option<Block> {
    var end := IndexOf(wire, CRLF);
    if end == |wire| || end < |VERSION| || wire[..|VERSION|] != VERSION then None
    else if strict && !IsClean(wire[|VERSION|..end]) then None
    else
      match ReadFields(wire[end + 2..], strict)
      case None => None
      case Some(parsed) => Some(Block(wire[|VERSION|..end], parsed.fields, parsed.rest))
  }

  predicate IsDigit(c: char) { '0' <= c <= '9' }

  /** A decimal number; none for the empty text. */
  function ValueOf(text: string): Option<nat>
    decreases |text|
  {
    if text == "" || !IsDigit(text[|text| - 1]) then None
    else
      var digit := (text[|text| - 1] - '0') as nat;
      if |text| == 1 then Some(digit)
      else
        match ValueOf(text[..|text| - 1])
        case None => None
        case Some(front) => Some(front * 10 + digit)
  }

  /** The three digits that a status line starts with. */
  function StatusCode(status: string): Option<nat> {
    if |status| < 3 || (|status| > 3 && status[3] != ' ') then None else ValueOf(status[..3])
  }

  /** Responses without a body whatever their fields say: to HEAD, 1xx, 204, 304, and 2xx to CONNECT. */
  predicate IsBodiless(verb: Method, code: nat) {
    || verb == Head || 100 <= code < 200 || code == 204 || code == 304
    || (verb == Connect && 200 <= code < 300)
  }

  /** The values of the Content-Length fields, in order. */
  function Lengths(fields: seq<Field>): seq<string>
    decreases |fields|
  {
    if fields == [] then []
    else
      var last := fields[|fields| - 1];
      Lengths(fields[..|fields| - 1]) + if SameName(last.name, CONTENT_LENGTH) then [last.value] else []
  }

  /** The body: none if the response is bodiless, otherwise as many bytes as the one Content-Length says, and without
      that field everything until the connection closes. Other Content-Lengths and bodies cut short are errors; transfer
      codings are not read here. */
  function ReadBody(verb: Method, block: Block): Option<Response> {
    var (lengths, rest) := (Lengths(block.fields), block.rest);
    match StatusCode(block.status)
    case None => None
    case Some(code) =>
      if IsBodiless(verb, code) then Some(Response(block.status, block.fields, "", rest))
      else if exists f :: f in block.fields && SameName(f.name, TRANSFER_ENCODING) then None
      else if lengths == [] then Some(Response(block.status, block.fields, rest, ""))
      else if |lengths| > 1 then None
      else
        match ValueOf(lengths[0])
        case None => None
        case Some(n) => if n > |rest| then None else Some(Response(block.status, block.fields, rest[..n], rest[n..]))
  }

  function ReadResponse(verb: Method, wire: string, strict: bool): Option<Response> {
    match ReadBlock(wire, strict)
    case None => None
    case Some(block) => ReadBody(verb, block)
  }

  // ---- What reads back ----

  predicate IsTrimmed(value: string) {
    value != "" ==> !IsBlank(value[0]) && !IsBlank(value[|value| - 1])
  }

  /** A value that is read up to the blanks at its ends: one line; clean for a strict client. */
  predicate ValueReads(value: string, strict: bool) {
    Free(value, CRLF) && (strict ==> IsClean(value))
  }

  /** A name that reads back: one line, no colon, no blanks at either end; a token for a strict client. */
  predicate NameReads(name: string, strict: bool) {
    name != "" && IsTrimmed(name) && Free(name, CRLF) && ':' !in name && (strict ==> IsToken(name))
  }

  predicate FieldReads(f: Field, strict: bool) { NameReads(f.name, strict) && ValueReads(f.value, strict) }

  predicate StatusReads(status: string, strict: bool) { Free(status, CRLF) && (strict ==> IsClean(status)) }

  lemma {:induction false} TrimLeftSlice(text: string) returns (from: nat)
    ensures from <= |text| && TrimLeft(text) == text[from..]
    ensures TrimLeft(text) != "" ==> !IsBlank(TrimLeft(text)[0])
  {
    if text != "" && IsBlank(text[0]) {
      from := TrimLeftSlice(text[1..]);
      from := from + 1;
    } else {
      from := 0;
    }
  }

  lemma {:induction false} TrimRightSlice(text: string) returns (to: nat)
    ensures to <= |text| && TrimRight(text) == text[..to]
    ensures TrimRight(text) != "" ==> !IsBlank(TrimRight(text)[|TrimRight(text)| - 1])
    decreases |text|
  {
    if text != "" && IsBlank(text[|text| - 1]) {
      to := TrimRightSlice(text[..|text| - 1]);
    } else {
      to := |text|;
      assert text[..to] == text;
    }
  }

  /** Trimming cuts a slice out of the text, without blanks at its ends. */
  lemma TrimSlice(text: string) returns (from: nat, to: nat)
    ensures from <= to <= |text| && Trim(text) == text[from..to] && IsTrimmed(Trim(text))
  {
    from := TrimLeftSlice(text);
    var length := TrimRightSlice(TrimLeft(text));
    to := from + length;
    assert text[from..][..length] == text[from..to];
  }

  lemma TokenReads(name: string, strict: bool)
    requires IsToken(name)
    ensures NameReads(name, strict)
  {
    forall i | 0 <= i < |name| ensures name[i] != '\r' && name[i] != ':' && !IsBlank(name[i]) {
      assert IsTokenCharacter(name[i]);
    }
  }

  /** The blank printed before a value does not matter. */
  lemma PrintedValueTrims(value: string)
    ensures Trim(" " + value) == Trim(value)
  {
    assert (" " + value)[1..] == value;
  }

  lemma TrimmedStays(value: string)
    requires IsTrimmed(value)
    ensures TrimLeft(value) == value && TrimRight(value) == value && Trim(value) == value
  {
  }

  /** What a client makes of a field. */
  function Trimmed(f: Field): Field { Field(f.name, Trim(f.value)) }

  function AllTrimmed(fields: seq<Field>): (trimmed: seq<Field>)
    ensures |trimmed| == |fields| && forall i :: 0 <= i < |fields| ==> trimmed[i] == Trimmed(fields[i])
    decreases |fields|
  {
    if fields == [] then []
    else AllTrimmed(fields[..|fields| - 1]) + [Trimmed(fields[|fields| - 1])]
  }

  /** Only blanks are cut off, so a value is one line, or clean, exactly when its trimmed form is. */
  lemma {:induction false} TrimKeeps(value: string, strict: bool)
    ensures ValueReads(Trim(value), strict) <==> ValueReads(value, strict)
    decreases |value|
  {
    if value == "" || IsTrimmed(value) {
      TrimmedStays(value);
    } else if IsBlank(value[0]) {
      assert Trim(value) == Trim(value[1..]);
      TrimKeeps(value[1..], strict);
      CutFirst(value, strict);
    } else {
      var front := value[..|value| - 1];
      assert TrimLeft(value) == value && TrimLeft(front) == front;
      TrimKeeps(front, strict);
      CutLast(value, strict);
    }
  }

  lemma CutFirst(value: string, strict: bool)
    requires value != "" && IsBlank(value[0])
    ensures ValueReads(value, strict) <==> ValueReads(value[1..], strict)
  {
    var rest := value[1..];
    assert value == [value[0]] + rest;
    if rest != "" { FreeJoin([value[0]], rest, CRLF); }
  }

  lemma CutLast(value: string, strict: bool)
    requires value != "" && IsBlank(value[|value| - 1])
    ensures ValueReads(value, strict) <==> ValueReads(value[..|value| - 1], strict)
  {
    var front, last := value[..|value| - 1], value[|value| - 1];
    assert value == front + [last];
    if front != "" { FreeJoin(front, [last], CRLF); }
  }

  lemma SliceFree(text: string, from: nat, to: nat)
    requires from <= to <= |text| && Free(text, CRLF)
    ensures Free(text[from..to], CRLF)
  {
    var slice := text[from..to];
    forall i | 0 <= i < |slice| - 1 ensures slice[i] != '\r' || slice[i + 1] != '\n' {
      assert slice[i] == text[from + i] && slice[i + 1] == text[from + i + 1];
    }
  }

  lemma ColonBehind(name: string, rest: string)
    requires ':' !in name
    ensures FirstColon(name + ":" + rest) == |name|
  {
    var line := name + ":" + rest;
    var i := FirstColon(line);
    assert line[|name|] == ':' && forall k :: 0 <= k < |name| ==> line[k] == name[k];
    assert forall k :: 0 <= k < i ==> line[..i][k] == line[k];
  }

  /** A field that can be read is read with its value trimmed. */
  lemma FieldLineReads(f: Field, strict: bool)
    requires FieldReads(f, strict)
    ensures FieldLine(f.name + SEPARATOR + f.value, strict) == Some(Trimmed(f))
  {
    hide Free, IsToken, Trim;
    var line := f.name + SEPARATOR + f.value;
    assert line == f.name + ":" + (" " + f.value);
    ColonBehind(f.name, " " + f.value);
    assert line[..|f.name|] == f.name && line[|f.name| + 1..] == " " + f.value && line[0] == f.name[0];
    PrintedValueTrims(f.value);
    TrimmedStays(f.name);
    TrimKeeps(f.value, strict);
  }

  lemma PrintedLineReads(f: Field, rest: string, strict: bool)
    requires FieldReads(f, strict)
    ensures ReadFields(Line(f) + rest, strict) == Before([Trimmed(f)], ReadFields(rest, strict))
  {
    hide FieldLine, Trimmed;
    var line := f.name + SEPARATOR + f.value;
    var text := Line(f) + rest;
    assert text == line + CRLF + rest;
    LineFree(f);
    IndexBehind(line, CRLF, rest);
    assert text[..|line|] == line && text[|line| + 2..] == rest;
    FieldLineReads(f, strict);
  }

  /** Printed fields are read as they are, with their values trimmed. */
  lemma {:induction false} PrintedFieldsRead(fields: seq<Field>, rest: string, strict: bool)
    requires forall f :: f in fields ==> FieldReads(f, strict)
    ensures ReadFields(Printed(fields) + rest, strict) == Before(AllTrimmed(fields), ReadFields(rest, strict))
    decreases |fields|
  {
    hide ReadFields, Line, FieldReads, Trimmed;
    var read := ReadFields(rest, strict);
    if fields == [] {
      assert Printed(fields) + rest == rest;
      if read.Some? { assert fields + read.value.fields == read.value.fields; }
    } else {
      var front, last := fields[..|fields| - 1], fields[|fields| - 1];
      assert Printed(fields) + rest == Printed(front) + (Line(last) + rest);
      PrintedFieldsRead(front, Line(last) + rest, strict);
      PrintedLineReads(last, rest, strict);
      if read.Some? {
        var more := read.value.fields;
        assert AllTrimmed(fields) + more == AllTrimmed(front) + ([Trimmed(last)] + more);
      }
    }
  }

  /** Whatever a field line is read as can be read, and its value has no blanks at its ends. */
  lemma FieldLineYieldsReadable(line: string, strict: bool)
    requires Free(line, CRLF)
    ensures FieldLine(line, strict).Some? ==>
              FieldReads(FieldLine(line, strict).value, strict) && IsTrimmed(FieldLine(line, strict).value.value)
  {
    hide Free, IsClean, Trim;
    var colon := FirstColon(line);
    if 0 < colon < |line| && !IsBlank(line[0]) {
      var name, value := line[..colon], line[colon + 1..];
      var to := TrimRightSlice(name);
      if to == 0 { OnlyBlanks(name); }
      assert name[..to] == line[0..to] && forall k :: 0 <= k < to ==> line[0..to][k] == name[k];
      SliceFree(line, 0, to);
      if strict && IsToken(name) { TokenStays(name); }
      SliceFree(line, colon + 1, |line|);
      assert line[colon + 1..|line|] == value;
      var from, end := TrimSlice(value);
      SliceFree(value, from, end);
    }
  }

  lemma {:induction false} OnlyBlanks(name: string)
    requires TrimRight(name) == "" && name != ""
    ensures IsBlank(name[0])
    decreases |name|
  {
    if |name| > 1 { OnlyBlanks(name[..|name| - 1]); }
  }

  lemma TokenStays(name: string)
    requires IsToken(name)
    ensures TrimRight(name) == name
  {
    assert IsTokenCharacter(name[|name| - 1]);
  }

  lemma {:induction false} ReadFieldsYieldsReadable(text: string, strict: bool)
    ensures ReadFields(text, strict).Some? ==>
              forall f :: f in ReadFields(text, strict).value.fields ==> FieldReads(f, strict) && IsTrimmed(f.value)
    decreases |text|
  {
    hide FieldLine, FieldReads, Free, IsTrimmed;
    var end := IndexOf(text, CRLF);
    if 0 < end < |text| {
      BeforeIndex(text, CRLF);
      FieldLineYieldsReadable(text[..end], strict);
      ReadFieldsYieldsReadable(text[end + 2..], strict);
    }
  }

  // ---- Whole responses ----

  function HeaderBlock(status: string, fields: seq<Field>): string {
    VERSION + status + CRLF + Printed(fields) + CRLF
  }

  lemma BlankLineEnds(body: string, strict: bool)
    ensures ReadFields(CRLF + body, strict) == Some(Parsed([], body))
  {
    var text := CRLF + body;
    assert IndexOf(text, CRLF) == 0 && text[2..] == body;
  }

  lemma VersionFree(status: string)
    requires Free(status, CRLF)
    ensures Free(VERSION + status, CRLF)
  {
    if status != "" { FreeJoin(VERSION, status, CRLF); }
    assert VERSION + "" == VERSION;
  }

  lemma ReadableBlockReads(status: string, fields: seq<Field>, rest: string, strict: bool)
    requires StatusReads(status, strict) && forall f :: f in fields ==> FieldReads(f, strict)
    ensures ReadBlock(HeaderBlock(status, fields) + rest, strict) == Some(Block(status, AllTrimmed(fields), rest))
  {
    hide Printed, ReadFields, FieldReads, Free, IsClean, AllTrimmed;
    var line, text := VERSION + status, Printed(fields) + (CRLF + rest);
    var wire := HeaderBlock(status, fields) + rest;
    assert wire == line + CRLF + text;
    VersionFree(status);
    IndexBehind(line, CRLF, text);
    assert wire[..|VERSION|] == VERSION && wire[|VERSION|..|line|] == status && wire[|line| + 2..] == text;
    PrintedFieldsRead(fields, CRLF + rest, strict);
    BlankLineEnds(rest, strict);
    assert AllTrimmed(fields) + [] == AllTrimmed(fields);
  }

  /** A client, strict or not, reads the header block as it was sent, values trimmed, exactly when its status and every
      field can be read. */
  lemma BlockReadsIff(status: string, fields: seq<Field>, rest: string, strict: bool)
    ensures (exists behind :: ReadBlock(HeaderBlock(status, fields) + rest, strict) ==
                              Some(Block(status, AllTrimmed(fields), behind))) <==>
            StatusReads(status, strict) && forall f :: f in fields ==> FieldReads(f, strict)
    ensures StatusReads(status, strict) && (forall f :: f in fields ==> FieldReads(f, strict)) ==>
              ReadBlock(HeaderBlock(status, fields) + rest, strict) == Some(Block(status, AllTrimmed(fields), rest))
  {
    hide FieldReads, Free, IsClean, HeaderBlock, ReadFields, AllTrimmed;
    if StatusReads(status, strict) && forall f :: f in fields ==> FieldReads(f, strict) {
      ReadableBlockReads(status, fields, rest, strict);
    }
    var wire := HeaderBlock(status, fields) + rest;
    if behind :| ReadBlock(wire, strict) == Some(Block(status, AllTrimmed(fields), behind)) {
      var end := IndexOf(wire, CRLF);
      ReadFieldsYieldsReadable(wire[end + 2..], strict);
      BeforeIndex(wire, CRLF);
      SliceFree(wire[..end], |VERSION|, end);
      assert wire[..end][|VERSION|..end] == status;
      forall f | f in fields ensures FieldReads(f, strict) {
        var i :| 0 <= i < |fields| && fields[i] == f;
        assert Trimmed(f) == AllTrimmed(fields)[i];
        UntrimmedReads(f, strict);
      }
    }
  }

  lemma UntrimmedReads(f: Field, strict: bool)
    ensures FieldReads(Trimmed(f), strict) <==> FieldReads(f, strict)
  {
    hide NameReads, ValueReads, Trim;
    TrimKeeps(f.value, strict);
  }

  // ---- Fields that read as something else ----

  /** A line break in a value: the line is the lines of two fields, the second of any name. */
  lemma LineBreakMakesTwoLines(name: string, value: string, second: Field)
    ensures var f := Field(name, value + CRLF + second.name + SEPARATOR + second.value);
            Line(f) == Line(Field(name, value)) + Line(second) && !Free(f.value, CRLF)
  {
    var long := value + CRLF + second.name + SEPARATOR + second.value;
    assert long[|value|] == '\r' && long[|value| + 1] == '\n';
  }

  /** A colon in a name: what stands before the first one is the name that a client reads. */
  lemma ColonEndsName(name: string, tail: string, value: string, strict: bool)
    requires ':' !in name && name != "" && IsTrimmed(name)
    requires strict ==> IsToken(name) && IsClean(tail + SEPARATOR + value)
    ensures FieldLine((name + ":" + tail) + SEPARATOR + value, strict) ==
            Some(Field(name, Trim(tail + SEPARATOR + value)))
  {
    var rest := tail + SEPARATOR + value;
    var line := (name + ":" + tail) + SEPARATOR + value;
    assert line == name + ":" + rest;
    ColonBehind(name, rest);
    assert line[..|name|] == name && line[|name| + 1..] == rest && line[0] == name[0];
    TrimmedStays(name);
    var from, to := TrimSlice(rest);
  }
}
