/** Responses on the wire: what the server's response writer sends and the client reads. */
module HttpResponse {
  import opened Text
  import opened Wire
  import opened HeaderRoundTrip
  import opened Bodies
  import HttpRequest

  const MAX_HEADER := 65536
  const MAX_RESPONSE_BODY := 8388608

  function StatusText(code: int): string {
    match code
    case 100 => "Continue"
    case 101 => "Switching Protocols"
    case 200 => "OK"
    case 201 => "Created"
    case 202 => "Accepted"
    case 204 => "No Content"
    case 206 => "Partial Content"
    case 301 => "Moved Permanently"
    case 302 => "Found"
    case 303 => "See Other"
    case 304 => "Not Modified"
    case 307 => "Temporary Redirect"
    case 308 => "Permanent Redirect"
    case 400 => "Bad Request"
    case 401 => "Unauthorized"
    case 403 => "Forbidden"
    case 404 => "Not Found"
    case 405 => "Method Not Allowed"
    case 408 => "Request Timeout"
    case 409 => "Conflict"
    case 411 => "Length Required"
    case 413 => "Request Entity Too Large"
    case 414 => "Request URI Too Long"
    case 415 => "Unsupported Media Type"
    case 422 => "Unprocessable Entity"
    case 429 => "Too Many Requests"
    case 431 => "Request Header Fields Too Large"
    case 500 => "Internal Server Error"
    case 501 => "Not Implemented"
    case 502 => "Bad Gateway"
    case 503 => "Service Unavailable"
    case 504 => "Gateway Timeout"
    case 505 => "HTTP Version Not Supported"
    case _ => ""
  }

  /** The reason phrase that is sent. */
  function Reason(code: int): string {
    if StatusText(code) == "" then "Status" else StatusText(code)
  }

  predicate BodyAllowed(status: int) {
    !(100 <= status < 200) && status != 204 && status != 304
  }

  // ----- the server side -----

  /** Fields that `finish` writes itself. */
  const OWN_FIELDS := ["Content-Length", "Transfer-Encoding", "Connection"]

  function StatusLine(status: nat): string {
    "HTTP/1.1 " + Decimal(status) + " " + Reason(status)
  }

  ghost function HeaderBlock(status: nat, h: Header, body: string): string {
    HeaderText(h, OWN_FIELDS)
    + (if BodyAllowed(status) then FieldText("Content-Length", Decimal(|body|)) else "")
    + FieldText("Connection", "close")
  }

  /** The bytes of a response; `head` says that the request's method was HEAD. */
  ghost function ResponseBytes(status: nat, h: Header, head: bool, body: string): string {
    StatusLine(status) + "\r\n" + HeaderBlock(status, h, body) + "\r\n"
    + (if BodyAllowed(status) && !head then body else "")
  }

  datatype WriteProblem = NoBodyAllowed | BodyTooLarge

  class ResponseWriter {
    var header: Header
    var status: nat
    var wroteHeader: bool
    const head: bool
    var body: string

    constructor (head: bool)
      ensures Valid() && header == map[] && !wroteHeader && this.head == head && body == ""
    {
      header, status, wroteHeader, this.head, body := map[], 0, false, head, "";
    }

    /** A status is set once, and a body is only there when the status allows one. */
    ghost predicate Valid()
      reads this
    {
      && (wroteHeader ==> 100 <= status <= 999)
      && (body != "" ==> wroteHeader && BodyAllowed(status))
      && |body| <= MAX_RESPONSE_BODY
    }

    method WriteHeader(code: nat)
      requires Valid() && (wroteHeader || 100 <= code <= 999)
      modifies this
      ensures Valid() && wroteHeader && header == old(header) && body == old(body)
      ensures status == if old(wroteHeader) then old(status) else code
    {
      if wroteHeader {
        return;
      }
      wroteHeader, status := true, code;
    }

    method Write(data: string) returns (r: Result<nat, WriteProblem>)
      requires Valid()
      modifies this
      ensures Valid() && wroteHeader && header == old(header)
      ensures status == if old(wroteHeader) then old(status) else 200
      ensures r == (if !BodyAllowed(status) then Err(NoBodyAllowed)
                    else if |old(body)| + |data| > 8388608 then Err(BodyTooLarge)
                    else Ok(|data|))
      ensures body == if r.Ok? then old(body) + data else old(body)
    {
      if !wroteHeader {
        WriteHeader(200);
      }
      if !BodyAllowed(status) {
        return Err(NoBodyAllowed);
      }
      if |body| + |data| > MAX_RESPONSE_BODY {
        return Err(BodyTooLarge);
      }
      body := body + data;
      r := Ok(|data|);
    }

    method Finish() returns (out: string)
      requires Valid()
      modifies this
      ensures Valid() && wroteHeader && header == old(header) && body == old(body)
      ensures status == if old(wroteHeader) then old(status) else 200
      ensures out == ResponseBytes(status, header, head, body)
    {
      hide HeaderText, Decimal, StatusText;
      if !wroteHeader {
        WriteHeader(200);
      }
      var fields := Wire.WriteHeader(header, OWN_FIELDS);
      var block := fields;
      if BodyAllowed(status) {
        block := block + FieldText("Content-Length", Decimal(|body|));
      } else {
        assert block + "" == block;
      }
      block := block + FieldText("Connection", "close");
      out := StatusLine(status) + "\r\n" + block + "\r\n";
      if BodyAllowed(status) && !head {
        out := out + body;
      } else {
        assert out + "" == out;
      }
    }
  }

  // ----- the client side -----

  datatype BodyKind = NoBody | ChunkedBody | Sized(length: nat) | UntilClose

  datatype Response = Response(code: nat, status: string, header: Header, body: BodyKind)

  /** Version, code and reason of a status line. */
  function StatusLineParts(line: string): Result<(nat, string), WireError> {
    var (version, rest, found) := Cut(line, ' ');
    if !found then Err(Malformed("http: malformed status line"))
    else if HttpRequest.ParseVersion(version).None? then Err(Malformed("http: unsupported response version"))
    else
      var (code, reason, _) := Cut(rest, ' ');
      if |code| != 3 || !AllDigits(code) || DecimalValue(code) < 100 then
        Err(Malformed("http: malformed status code"))
      else Ok((DecimalValue(code), code + " " + reason))
  }

  /** How the body is framed (section 6.3 of RFC 9112). */
  function BodyOf(verb: string, code: nat, h: Header): Result<BodyKind, WireError> {
    if verb == "HEAD" || 100 <= code < 200 || code == 204 || code == 304 then Ok(NoBody)
    else if EqualFold(TrimSpace(Get(h, "Transfer-Encoding")), "chunked") then Ok(ChunkedBody)
    else
      match HttpRequest.ContentLength(h)
      case Err(e) => Err(e)
      case Ok(n) => Ok(if n >= 0 then Sized(n) else UntilClose)
  }

  /** The response at the start of `input` and what follows its header. */
  function Received(input: string, end: End, verb: string): (r: Result<(Response, string), WireError>)
    ensures r.Ok? ==> |r.value.1| < |input|
  {
    match Line(input, end, HttpRequest.MAX_LINE)
    case Err(e) => Err(NoEof(e))
    case Ok((line, rest)) =>
      match StatusLineParts(line)
      case Err(e) => Err(e)
      case Ok((code, status)) =>
        FieldsShorter(rest, end, MAX_HEADER, map[]);
        match Fields(rest, end, MAX_HEADER, map[])
        case Err(e) => Err(NoEof(e))
        case Ok((header, body)) =>
          match BodyOf(verb, code, header)
          case Err(e) => Err(e)
          case Ok(kind) => Ok((Response(code, status, header, kind), body))
  }

  lemma {:induction false} FieldsShorter(input: string, end: End, left: nat, h: Header)
    ensures Fields(input, end, left, h).Ok? ==> |Fields(input, end, left, h).value.1| <= |input|
    decreases |input|
  {
    hide Line, Field;
    match Line(input, end, left) {
      case Err(_) =>
      case Ok((line, rest)) =>
        if line != "" && |line| + 2 <= left && Field(line).Ok? {
          FieldsShorter(rest, end, left - |line| - 2, Add(h, Field(line).value.0, Field(line).value.1));
        }
    }
  }

  /** `readResponse`. */
  method ReadResponse(br: BufReader, verb: string) returns (r: Result<Response, WireError>)
    requires br.size > 0
    modifies br
    ensures match Received(old(br.unread), br.end, verb)
            case Ok((response, rest)) => r == Ok(response) && br.unread == rest
            case Err(e) => r == Err(e)
  {
    hide Fields, Line, StatusLineParts, BodyOf;
    var line := ReadLine(br, HttpRequest.MAX_LINE);
    if line.Err? {
      return Err(NoEof(line.error));
    }
    var parts := StatusLineParts(line.value);
    if parts.Err? {
      return Err(parts.error);
    }
    var (code, status) := parts.value;
    var header := ReadHeader(br, MAX_HEADER);
    if header.Err? {
      return Err(NoEof(header.error));
    }
    var kind := BodyOf(verb, code, header.value);
    if kind.Err? {
      return Err(kind.error);
    }
    r := Ok(Response(code, status, header.value, kind.value));
  }

  /** The first response that is not an interim one. */
  function Final(input: string, end: End, verb: string): Result<(Response, string), WireError>
    decreases |input|
  {
    match Received(input, end, verb)
    case Err(e) => Err(e)
    case Ok((response, rest)) =>
      if 100 <= response.code < 200 then Final(rest, end, verb) else Ok((response, rest))
  }

  /** The reading half of `roundTrip`. */
  method ReadFinalResponse(br: BufReader, verb: string) returns (r: Result<Response, WireError>)
    requires br.size > 0
    modifies br
    ensures match Final(old(br.unread), br.end, verb)
            case Ok((response, rest)) => r == Ok(response) && br.unread == rest
            case Err(e) => r == Err(e)
  {
    hide Received;
    ghost var input := br.unread;
    while true
      invariant Final(input, br.end, verb) == Final(br.unread, br.end, verb)
      decreases |br.unread|
    {
      var response := ReadResponse(br, verb);
      if response.Err? {
        return response;
      }
      if 100 <= response.value.code < 200 {
        continue;
      }
      return response;
    }
  }

  // ----- the round trip -----

  lemma DecimalOfStatus(status: nat)
    requires 100 <= status <= 999
    ensures |Decimal(status)| == 3 && DecimalValue(Decimal(status)) == status
    ensures ' ' !in Decimal(status) && Inline(Decimal(status))
  {
    DecimalRoundTrip(status);
    assert Decimal(status) == Decimal(status / 10) + [Digit(status % 10)];
    assert Decimal(status / 10) == Decimal(status / 100) + [Digit(status / 10 % 10)];
    assert Decimal(status / 100) == [Digit(status / 100)];
    var s := Decimal(status);
    assert forall i :: 0 <= i < |s| ==> IsDigit(s[i]);
  }

  predicate ShortText(s: string) {
    Inline(s) && |s| <= 40
  }

  lemma Phrases0(code: int)
    requires 0 <= code < 206
    ensures ShortText(StatusText(code))
  {
  }

  lemma Phrases206(code: int)
    requires 206 <= code < 307
    ensures ShortText(StatusText(code))
  {
  }

  lemma Phrases307(code: int)
    requires 307 <= code < 404
    ensures ShortText(StatusText(code))
  {
  }

  lemma Phrases404(code: int)
    requires 404 <= code < 411
    ensures ShortText(StatusText(code))
  {
  }

  lemma Phrases411(code: int)
    requires 411 <= code < 415
    ensures ShortText(StatusText(code))
  {
  }

  lemma Phrases415(code: int)
    requires 415 <= code < 431
    ensures ShortText(StatusText(code))
  {
  }

  lemma Phrases431(code: int)
    requires 431 <= code < 501
    ensures ShortText(StatusText(code))
  {
  }

  lemma Phrases501(code: int)
    requires 501 <= code < 503
    ensures ShortText(StatusText(code))
  {
  }

  lemma Phrases503(code: int)
    requires 503 <= code < 505
    ensures ShortText(StatusText(code))
  {
  }

  lemma Phrases505(code: int)
    requires 505 <= code < 1000
    ensures ShortText(StatusText(code))
  {
  }

  lemma ReasonIsInline(code: nat)
    requires code < 1000
    ensures ShortText(Reason(code))
  {
    hide StatusText;
    if code < 206 {
      Phrases0(code);
    } else if code < 307 {
      Phrases206(code);
    } else if code < 404 {
      Phrases307(code);
    } else if code < 411 {
      Phrases404(code);
    } else if code < 415 {
      Phrases411(code);
    } else if code < 431 {
      Phrases415(code);
    } else if code < 501 {
      Phrases431(code);
    } else if code < 503 {
      Phrases501(code);
    } else if code < 505 {
      Phrases503(code);
    } else {
      Phrases505(code);
    }
    assert Inline("Status");
  }

  lemma StatusLineIsRead(status: nat)
    requires 100 <= status <= 999
    ensures StatusLineParts(StatusLine(status)) == Ok((status, Decimal(status) + " " + Reason(status)))
    ensures Inline(StatusLine(status)) && |StatusLine(status)| <= HttpRequest.MAX_LINE
  {
    hide Decimal, DecimalValue, Reason;
    var version, code, reason := "HTTP/1.1", Decimal(status), Reason(status);
    DecimalOfStatus(status);
    ReasonIsInline(status);
    assert ' ' !in version && Inline(version);
    assert "HTTP/1.1 " == version + [' '];
    assert StatusLine(status) == version + [' '] + (code + " " + reason);
    CutAt(version, ' ', code + " " + reason);
    assert code + " " + reason == code + [' '] + reason;
    CutAt(code, ' ', reason);
  }

  /** Three digits that denote at least 100. */
  predicate IsCode(code: string) {
    |code| == 3 && AllDigits(code) && DecimalValue(code) >= 100
  }

  /** Every status line, by case: one of two versions, a space, and a code, with or without a reason behind
      another space. */
  lemma StatusLineExactly(version: string, code: string, rest: string, reason: string)
    requires ' ' !in version && ' ' !in code && ((rest == code && reason == "") || rest == code + " " + reason)
    ensures StatusLineParts(version).Err?
    ensures var r := StatusLineParts(version + " " + rest);
            if version !in {"HTTP/1.0", "HTTP/1.1"} then r == Err(Malformed("http: unsupported response version"))
            else if !IsCode(code) then r == Err(Malformed("http: malformed status code"))
            else r == Ok((DecimalValue(code), code + " " + reason))
  {
    hide AllDigits, DecimalValue;
    CutNone(version, ' ');
    assert version + " " + rest == version + [' '] + rest;
    CutAt(version, ' ', rest);
    CodeIsCut(code, rest, reason);
  }

  lemma CodeIsCut(code: string, rest: string, reason: string)
    requires ' ' !in code && ((rest == code && reason == "") || rest == code + " " + reason)
    ensures Cut(rest, ' ').0 == code && Cut(rest, ' ').1 == reason
  {
    if rest == code && reason == "" {
      CutNone(code, ' ');
    } else {
      assert rest == code + [' '] + reason;
      CutAt(code, ' ', reason);
    }
  }

  /** The header the client sees. */
  ghost function SeenHeader(status: nat, h: Header, body: string): Header {
    var seen := Delivered(h, OWN_FIELDS);
    var framed := if BodyAllowed(status) then seen["Content-Length" := [Decimal(|body|)]] else seen;
    framed["Connection" := ["close"]]
  }

  lemma OwnFieldsAreSkipped(h: Header)
    ensures forall k :: k in OWN_FIELDS ==> k !in Delivered(h, OWN_FIELDS)
  {
    forall i | 0 <= i < |OWN_FIELDS|
      ensures OWN_FIELDS[i] !in Delivered(h, OWN_FIELDS)
    {
      SkippedIsNotDelivered(h, OWN_FIELDS, i);
    }
  }

  lemma BlockIsRead(status: nat, h: Header, body: string)
    requires Sendable(h, OWN_FIELDS)
    ensures Reads(HeaderBlock(status, h, body), map[], SeenHeader(status, h, body))
  {
    hide Reads, HeaderText, Decimal, CanonicalKey, IsToken, FieldText, Delivered, Sendable, CleanValue, BodyAllowed;
    HttpRequest.CanonicalNames();
    OwnFieldsAreSkipped(h);
    ReadsHeader(h, OWN_FIELDS, map[]);
    var text, seen := HeaderText(h, OWN_FIELDS), Delivered(h, OWN_FIELDS);
    assert map[] + seen == seen;
    assert "Connection" in OWN_FIELDS && "Content-Length" in OWN_FIELDS;
    if BodyAllowed(status) {
      HttpRequest.DecimalIsClean(|body|);
      HttpRequest.ReadsOneMore(text, seen, "Content-Length", Decimal(|body|));
      text := text + FieldText("Content-Length", Decimal(|body|));
      seen := seen["Content-Length" := [Decimal(|body|)]];
    } else {
      assert text + "" == text;
    }
    HttpRequest.CloseIsClean();
    HttpRequest.ReadsOneMore(text, seen, "Connection", "close");
  }

  /** Both sides agree on when there is a body, and on its length. */
  lemma FramingAgrees(status: nat, verb: string, h: Header, body: string)
    requires 200 <= status <= 999 && |body| <= MAX_RESPONSE_BODY
    ensures BodyOf(verb, status, SeenHeader(status, h, body))
         == Ok(if BodyAllowed(status) && verb != "HEAD" then Sized(|body|) else NoBody)
  {
    hide Decimal, DecimalValue;
    HttpRequest.CanonicalNames();
    OwnFieldsAreSkipped(h);
    var seen := SeenHeader(status, h, body);
    assert "Transfer-Encoding" in OWN_FIELDS;
    assert Get(seen, "Transfer-Encoding") == "";
    NotChunked();
    if BodyAllowed(status) {
      HttpRequest.BodyLengthDigits(|body|);
      assert Values(seen, "Content-Length") == [Decimal(|body|)];
    }
  }

  lemma NotChunked()
    ensures !EqualFold(TrimSpace(""), "chunked")
  {
    assert TrimSpace("") == "";
    assert FoldText("chunked") != "";
  }

  lemma ResponseParts(first: string, block: string, sent: string, suffix: string)
    ensures first + "\r\n" + block + "\r\n" + sent + suffix == first + "\r\n" + (block + "\r\n" + (sent + suffix))
  {
  }

  /** The client recovers a response that the server wrote, whatever follows it: status, every header
      field the handler may set, and exactly the body sent, or none where none is allowed. */
  lemma ResponseRoundTrip(status: nat, h: Header, verb: string, body: string, suffix: string, end: End)
    requires 200 <= status <= 999 && Sendable(h, OWN_FIELDS)
    requires |HeaderBlock(status, h, body)| <= MAX_HEADER && |body| <= MAX_RESPONSE_BODY
    ensures var sent := if BodyAllowed(status) && verb != "HEAD" then body else "";
            Final(ResponseBytes(status, h, verb == "HEAD", body) + suffix, end, verb)
            == Ok((Response(status, Decimal(status) + " " + Reason(status), SeenHeader(status, h, body),
                            if BodyAllowed(status) && verb != "HEAD" then Sized(|body|) else NoBody),
                   sent + suffix))
  {
    hide Reads, Fields, Line, StatusLineParts, BodyOf, HeaderBlock, StatusLine, BodyAllowed, SeenHeader, Decimal, Reason;
    hide Sendable;
    var sent := if BodyAllowed(status) && verb != "HEAD" then body else "";
    var first, block := StatusLine(status), HeaderBlock(status, h, body);
    StatusLineIsRead(status);
    ResponseParts(first, block, sent, suffix);
    LineOf(first, block + "\r\n" + (sent + suffix), end, HttpRequest.MAX_LINE);
    BlockIsRead(status, h, body);
    ReadsBlock(block, SeenHeader(status, h, body), sent + suffix, end, MAX_HEADER);
    FramingAgrees(status, verb, h, body);
  }

  /** What the client makes of a written response depends only on its header block. */
  lemma FinalOfWritten(status: nat, h: Header, verb: string, body: string, suffix: string, end: End)
    requires 200 <= status <= 999
    requires var sent := if BodyAllowed(status) && verb != "HEAD" then body else "";
             Fields(HeaderBlock(status, h, body) + "\r\n" + (sent + suffix), end, MAX_HEADER, map[]).Err?
    ensures Final(ResponseBytes(status, h, verb == "HEAD", body) + suffix, end, verb).Err?
  {
    hide Fields, Line, StatusLineParts, BodyOf, HeaderBlock, StatusLine, BodyAllowed, Decimal, Reason;
    var sent := if BodyAllowed(status) && verb != "HEAD" then body else "";
    var first, block := StatusLine(status), HeaderBlock(status, h, body);
    StatusLineIsRead(status);
    ResponseParts(first, block, sent, suffix);
    LineOf(first, block + "\r\n" + (sent + suffix), end, HttpRequest.MAX_LINE);
  }

  lemma BlockIsRefused(status: nat, h: Header, body: string)
    requires !Sendable(h, OWN_FIELDS)
    ensures Refuses(HeaderBlock(status, h, body), map[])
  {
    hide Refuses, HeaderText, Sendable, FieldText, Decimal, BodyAllowed;
    var text := HeaderText(h, OWN_FIELDS);
    var length := if BodyAllowed(status) then FieldText("Content-Length", Decimal(|body|)) else "";
    RefusesHeader(h, OWN_FIELDS, map[]);
    RefusesFirst(text, length, map[]);
    RefusesFirst(text + length, FieldText("Connection", "close"), map[]);
  }

  /** The client accepts a written response exactly if the values of its header are valid as they are
      written and the header block keeps within the limit. */
  lemma AcceptedExactly(status: nat, h: Header, verb: string, body: string, suffix: string, end: End)
    requires 200 <= status <= 999 && |body| <= MAX_RESPONSE_BODY
    ensures Final(ResponseBytes(status, h, verb == "HEAD", body) + suffix, end, verb).Ok?
       <==> Sendable(h, OWN_FIELDS) && |HeaderBlock(status, h, body)| <= 65536
  {
    hide Final, ResponseBytes, Reads, Refuses, Fields, HeaderBlock, BodyAllowed, SeenHeader, Decimal, Reason, Sendable;
    var sent := if BodyAllowed(status) && verb != "HEAD" then body else "";
    var block := HeaderBlock(status, h, body);
    if !Sendable(h, OWN_FIELDS) {
      BlockIsRefused(status, h, body);
      RefusesBlock(block, sent + suffix, end, MAX_HEADER);
      FinalOfWritten(status, h, verb, body, suffix, end);
    } else if |block| <= MAX_HEADER {
      ResponseRoundTrip(status, h, verb, body, suffix, end);
    } else {
      BlockIsRead(status, h, body);
      ReadsBlock(block, SeenHeader(status, h, body), sent + suffix, end, MAX_HEADER);
      FinalOfWritten(status, h, verb, body, suffix, end);
    }
  }
}
