/** The statuses an HTTP response can be given, and their texts. */
module HttpStatusText {
  import opened Wrappers
  import opened HeaderText
  import opened HttpReader

  /** `OtherStatus` stands for any value outside the enumeration. */
  datatype HttpStatus =
    | Continue | SwitchingProtocols | Ok | Created | Accepted | NoContent | MovedPermanently | Found | NotModified
    | BadRequest | Unauthorized | Forbidden | NotFound | MethodNotAllowed | RequestTimeout | Conflict | LengthRequired
    | PayloadTooLarge | UnsupportedMediaType | TooManyRequests | InternalServerError | NotImplemented | BadGateway
    | ServiceUnavailable | GatewayTimeout | OtherStatus

  /** The status codes of section 15 of RFC 9110 and RFC 6585. */
  function Code(s: HttpStatus): (code: nat)
    ensures 100 <= code < 600
  {
    match s
    case Continue => 100
    case SwitchingProtocols => 101
    case Ok => 200
    case Created => 201
    case Accepted => 202
    case NoContent => 204
    case MovedPermanently => 301
    case Found => 302
    case NotModified => 304
    case BadRequest => 400
    case Unauthorized => 401
    case Forbidden => 403
    case NotFound => 404
    case MethodNotAllowed => 405
    case RequestTimeout => 408
    case Conflict => 409
    case LengthRequired => 411
    case PayloadTooLarge => 413
    case UnsupportedMediaType => 415
    case TooManyRequests => 429
    case InternalServerError => 500
    case NotImplemented => 501
    case BadGateway => 502
    case ServiceUnavailable => 503
    case GatewayTimeout => 504
    case OtherStatus => 500
  }

  function StatusText(s: HttpStatus): string {
    match s
    case Continue => "100 Continue"
    case SwitchingProtocols => "101 Switching Protocols"
    case Ok => "200 OK"
    case Created => "201 Created"
    case Accepted => "202 Accepted"
    case NoContent => "204 No Content"
    case MovedPermanently => "301 Moved Permanently"
    case Found => "302 Found"
    case NotModified => "304 Not Modified"
    case BadRequest => "400 Bad Request"
    case Unauthorized => "401 Unauthorized"
    case Forbidden => "403 Forbidden"
    case NotFound => "404 Not Found"
    case MethodNotAllowed => "405 Method Not Allowed"
    case RequestTimeout => "408 Request Timeout"
    case Conflict => "409 Conflict"
    case LengthRequired => "411 Length Required"
    case PayloadTooLarge => "413 Payload Too Large"
    case UnsupportedMediaType => "415 Unsupported Media Type"
    case TooManyRequests => "429 Too Many Requests"
    case InternalServerError => "500 Internal Server Error"
    case NotImplemented => "501 Not Implemented"
    case BadGateway => "502 Bad Gateway"
    case ServiceUnavailable => "503 Service Unavailable"
    case GatewayTimeout => "504 Gateway Timeout"
    case OtherStatus => "500 Internal Server Error"
  }

  // ---- Decimal numbers ----

  function Digit(n: nat): char
    requires n < 10
  {
    '0' + n as char
  }

  function Decimal(n: nat): (text: string)
    ensures text != ""
  {
    if n < 10 then [Digit(n)] else Decimal(n / 10) + [Digit(n % 10)]
  }

  lemma {:induction false} DecimalReadsBack(n: nat)
    ensures ValueOf(Decimal(n)) == Some(n)
  {
    if n >= 10 {
      DecimalReadsBack(n / 10);
      assert Decimal(n)[..|Decimal(n)| - 1] == Decimal(n / 10);
    }
  }

  lemma {:induction false} DigitsOnly(n: nat)
    ensures forall c :: c in Decimal(n) ==> IsDigit(c)
  {
    if n >= 10 { DigitsOnly(n / 10); }
  }

  // ---- Status lines ----

  /** The text starts with the three digits of the code and a blank. */
  predicate ShowsCode(s: HttpStatus) {
    var (text, code) := (StatusText(s), Code(s));
    |text| > 4 && text[3] == ' ' && IsDigit(text[0]) && IsDigit(text[1]) && IsDigit(text[2]) &&
    code == (text[0] as int - 48) * 100 + (text[1] as int - 48) * 10 + (text[2] as int - 48)
  }

  lemma ShowsCodeBelow300(s: HttpStatus)
    requires Code(s) < 300
    ensures ShowsCode(s)
  {
  }

  lemma ShowsCodeBelow404(s: HttpStatus)
    requires 300 <= Code(s) < 404
    ensures ShowsCode(s)
  {
  }

  lemma ShowsCodeBelow413(s: HttpStatus)
    requires 404 <= Code(s) < 413
    ensures ShowsCode(s)
  {
  }

  lemma ShowsCodeBelow429(s: HttpStatus)
    requires 413 <= Code(s) < 429
    ensures ShowsCode(s)
  {
  }

  lemma ShowsCodeBelow501(s: HttpStatus)
    requires 429 <= Code(s) < 501
    ensures ShowsCode(s)
  {
  }

  lemma ShowsCodeBelow600(s: HttpStatus)
    requires 501 <= Code(s) < 600
    ensures ShowsCode(s)
  {
  }

  lemma TextShowsCode(s: HttpStatus)
    ensures ShowsCode(s)
  {
    hide Code, ShowsCode;
    if Code(s) < 300 { ShowsCodeBelow300(s); }
    else if Code(s) < 404 { ShowsCodeBelow404(s); }
    else if Code(s) < 413 { ShowsCodeBelow413(s); }
    else if Code(s) < 429 { ShowsCodeBelow429(s); }
    else if Code(s) < 501 { ShowsCodeBelow501(s); }
    else { ShowsCodeBelow600(s); }
  }

  /** Visible characters and spaces alone. */
  predicate IsPlain(text: string) { forall i :: 0 <= i < |text| ==> ' ' <= text[i] }

  lemma PlainBelow300(s: HttpStatus)
    requires Code(s) < 300
    ensures IsPlain(StatusText(s))
  {
  }

  lemma PlainBelow404(s: HttpStatus)
    requires 300 <= Code(s) < 404
    ensures IsPlain(StatusText(s))
  {
  }

  lemma PlainBelow413(s: HttpStatus)
    requires 404 <= Code(s) < 413
    ensures IsPlain(StatusText(s))
  {
  }

  lemma PlainBelow429(s: HttpStatus)
    requires 413 <= Code(s) < 429
    ensures IsPlain(StatusText(s))
  {
  }

  lemma PlainBelow501(s: HttpStatus)
    requires 429 <= Code(s) < 501
    ensures IsPlain(StatusText(s))
  {
  }

  lemma PlainBelow600(s: HttpStatus)
    requires 501 <= Code(s) < 600
    ensures IsPlain(StatusText(s))
  {
  }

  lemma TextIsPlain(s: HttpStatus)
    ensures IsPlain(StatusText(s))
  {
    hide Code, StatusText;
    if Code(s) < 300 { PlainBelow300(s); }
    else if Code(s) < 404 { PlainBelow404(s); }
    else if Code(s) < 413 { PlainBelow413(s); }
    else if Code(s) < 429 { PlainBelow429(s); }
    else if Code(s) < 501 { PlainBelow501(s); }
    else { PlainBelow600(s); }
  }

  lemma DigitsRead(text: string)
    requires |text| == 3 && IsDigit(text[0]) && IsDigit(text[1]) && IsDigit(text[2])
    ensures ValueOf(text) ==
            Some((text[0] as int - 48) * 100 + (text[1] as int - 48) * 10 + (text[2] as int - 48))
  {
    assert text[..2][..1] == [text[0]];
    assert ValueOf([text[0]]) == Some(text[0] as int - 48);
  }

  /** A client reads the code that was set. */
  lemma StatusCodeReads(s: HttpStatus)
    ensures StatusCode(StatusText(s)) == Some(Code(s))
  {
    TextShowsCode(s);
    hide Code, StatusText, ValueOf;
    DigitsRead(StatusText(s)[..3]);
  }

  lemma StatusTextReads(s: HttpStatus, strict: bool)
    ensures StatusReads(StatusText(s), strict)
  {
    TextIsPlain(s);
    hide Code, StatusText;
    var text := StatusText(s);
    forall c | c in text ensures ' ' <= c {
      var i :| 0 <= i < |text| && text[i] == c;
    }
  }

  /** The statuses whose responses have no body. */
  lemma BodilessStatuses(s: HttpStatus)
    ensures IsBodiless(OtherMethod, Code(s)) <==> s in {Continue, SwitchingProtocols, NoContent, NotModified}
    ensures IsBodiless(Connect, Code(s)) <==>
            s in {Continue, SwitchingProtocols, NoContent, NotModified, Ok, Created, Accepted}
  {
  }
}
