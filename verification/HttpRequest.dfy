/** Requests on the wire: what the client writes and the server reads (sections 3, 5 and 6 of
    RFC 9112). */
module HttpRequest {
  import opened Text
  import opened Wire
  import opened HeaderRoundTrip

  const MAX_LINE := 8192
  const MAX_BODY := 10485760
  const MAX_UNKNOWN_LENGTH_BODY := 1048576

  datatype Request = Request(verb: string, target: string, header: Header, host: string, length: nat)

  // ----- the server side -----

  function ParseVersion(version: string): Option<nat> {
    if version == "HTTP/1.0" then Some(0)
    else if version == "HTTP/1.1" then Some(1)
    else None
  }

  predicate ValidTarget(target: string) {
    HasPrefix(target, "/") && forall i :: 0 <= i < |target| ==> target[i] > ' ' && target[i] as int != 0x7F
  }

  /** The request line: method, target and minor version. `uri` stands for `url.ParseRequestURI`. */
  function RequestLine(line: string, uri: string -> bool): Result<(string, string, nat), WireError> {
    var parts := Split(line, ' ');
    if |parts| != 3 then Err(Refused(BAD_REQUEST, "malformed request line"))
    else if !IsToken(parts[0]) then Err(Refused(BAD_REQUEST, "invalid method"))
    else if ParseVersion(parts[2]).None? then Err(Refused(505, "unsupported HTTP version"))
    else if !HasPrefix(parts[1], "/") then Err(Refused(BAD_REQUEST, "unsupported request target"))
    else if !ValidTarget(parts[1]) || !uri(parts[1]) then Err(Refused(BAD_REQUEST, "invalid request target"))
    else Ok((parts[0], parts[1], ParseVersion(parts[2]).value))
  }

  /** `parseContentLength`: -1 when there is none. */
  function ContentLength(h: Header): Result<int, WireError> {
    var values := Values(h, "Content-Length");
    if values == [] then
      var none: int := -1;
      Ok(none)
    else if |values| > 1 then Err(Refused(BAD_REQUEST, "multiple Content-Length headers"))
    else if values[0] == "" || |values[0]| > 18 || !AllDigits(values[0]) then
      Err(Refused(BAD_REQUEST, "invalid Content-Length"))
    else
      var n: int := DecimalValue(values[0]);
      Ok(n)
  }

  /** The checks on the header: the host and the length of the body. */
  function Framing(h: Header, minor: nat): Result<(string, nat), WireError> {
    if Values(h, "Transfer-Encoding") != [] then Err(Refused(501, "Transfer-Encoding is not supported"))
    else
      var hosts := Values(h, "Host");
      if |hosts| > 1 then Err(Refused(BAD_REQUEST, "multiple Host headers"))
      else
        var host := if hosts == [] then "" else hosts[0];
        if host != "" && !ValidHost(host) then Err(Refused(BAD_REQUEST, "invalid Host header"))
        else if minor == 1 && host == "" then Err(Refused(BAD_REQUEST, "missing Host header"))
        else
          match BodyLength(h)
          case Err(e) => Err(e)
          case Ok(n) => Ok((host, n))
  }

  function BodyLength(h: Header): Result<nat, WireError> {
    match ContentLength(h)
    case Err(e) => Err(e)
    case Ok(n) =>
      if n > MAX_BODY then Err(Refused(413, "request body too large"))
      else Ok(if n < 0 then 0 else n)
  }

  function FirstLineError(e: WireError): WireError {
    if e.Refused? && e.status == HEADER_FIELDS_TOO_LARGE then Refused(414, "request line too long") else e
  }

  /** The request at the start of `input` and what follows its header. */
  function Received(input: string, end: End, maxHeader: nat, uri: string -> bool): Result<(Request, string), WireError> {
    match Line(input, end, MAX_LINE)
    case Err(e) => Err(FirstLineError(e))
    case Ok((line, rest)) =>
      match RequestLine(line, uri)
      case Err(e) => Err(e)
      case Ok((verb, target, minor)) =>
        match Fields(rest, end, maxHeader, map[])
        case Err(e) => Err(e)
        case Ok((header, body)) =>
          match Framing(header, minor)
          case Err(e) => Err(e)
          case Ok((host, length)) => Ok((Request(verb, target, Del(header, "Host"), host, length), body))
  }

  /** `readRequest`. */
  method ReadRequest(br: BufReader, maxHeader: nat, uri: string -> bool) returns (r: Result<Request, WireError>)
    requires br.size > 0
    modifies br
    ensures match Received(old(br.unread), br.end, maxHeader, uri)
            case Ok((request, rest)) => r == Ok(request) && br.unread == rest
            case Err(e) => r == Err(e)
  {
    hide Fields, Line, RequestLine, Framing;
    var line := ReadLine(br, MAX_LINE);
    if line.Err? {
      return Err(FirstLineError(line.error));
    }
    var first := RequestLine(line.value, uri);
    if first.Err? {
      return Err(first.error);
    }
    var (verb, target, minor) := first.value;
    var header := ReadHeader(br, maxHeader);
    if header.Err? {
      return Err(header.error);
    }
    var framing := Framing(header.value, minor);
    if framing.Err? {
      return Err(framing.error);
    }
    var (host, length) := framing.value;
    r := Ok(Request(verb, target, Del(header.value, "Host"), host, length));
  }

  // ----- the client side -----

  /** `outgoingBody`: the bytes that are sent and their number, given the declared length and what the
      body yields. */
  function OutgoingBody(hasBody: bool, declared: int, available: string): (r: Result<(string, nat), WireError>)
    ensures r.Ok? ==> r.value.0 <= available && |r.value.0| == r.value.1
    ensures r.Ok? && hasBody && declared > 0 ==> r.value.1 == declared
    ensures r.Ok? && hasBody && declared < 0 ==> r.value.0 == available
    ensures r.Err? ==> hasBody && |available| != declared
    ensures r.Ok? <==> !hasBody || (0 <= declared <= |available|) || (declared < 0 && |available| <= 1048576)
    ensures r.Ok? && (!hasBody || declared == 0) ==> r.value == ("", 0)
  {
    if !hasBody || declared == 0 then Ok(("", 0))
    else if declared > 0 then
      if |available| < declared then Err(UnexpectedEof) else Ok((available[..declared], declared))
    else if |available| > MAX_UNKNOWN_LENGTH_BODY then Err(Malformed("http: request body too large"))
    else Ok((available, |available|))
  }

  /** Fields that `roundTrip` writes itself. */
  const OWN_FIELDS := ["Host", "Content-Length", "Transfer-Encoding", "Connection"]

  predicate SendsLength(verb: string, body: string) {
    body != "" || verb == "POST" || verb == "PUT"
  }

  ghost function HeaderBlock(verb: string, host: string, h: Header, body: string): string {
    FieldText("Host", host) + HeaderText(h, OWN_FIELDS)
    + (if SendsLength(verb, body) then FieldText("Content-Length", Decimal(|body|)) else "")
    + FieldText("Connection", "close")
  }

  function FirstLine(verb: string, target: string): string {
    verb + " " + target + " HTTP/1.1"
  }

  /** The bytes of a request. */
  ghost function RequestBytes(verb: string, target: string, host: string, h: Header, body: string): string {
    FirstLine(verb, target) + "\r\n" + HeaderBlock(verb, host, h, body) + "\r\n" + body
  }

  /** The writing half of `roundTrip`. */
  method WriteRequest(verb: string, target: string, host: string, h: Header, body: string) returns (out: string)
    ensures out == RequestBytes(verb, target, host, h, body)
  {
    hide HeaderText, Decimal;
    var fields := WriteHeader(h, OWN_FIELDS);
    var block := FieldText("Host", host) + fields;
    if SendsLength(verb, body) {
      block := block + FieldText("Content-Length", Decimal(|body|));
    }
    block := block + FieldText("Connection", "close");
    out := FirstLine(verb, target) + "\r\n" + block + "\r\n" + body;
  }

  // ----- the round trip -----

  lemma FirstLineParts(verb: string, target: string, version: string)
    requires ' ' !in verb && ' ' !in target && ' ' !in version
    ensures Split(verb + " " + target + " " + version, ' ') == [verb, target, version]
  {
    assert verb + " " + target + " " + version == verb + [' '] + (target + [' '] + version);
    SplitAt(verb, ' ', target + [' '] + version);
    SplitAt(target, ' ', version);
    SplitNone(version, ' ');
  }

  lemma FirstLineIsRead(verb: string, target: string, uri: string -> bool)
    requires IsToken(verb) && ValidTarget(target) && uri(target)
    ensures RequestLine(FirstLine(verb, target), uri) == Ok((verb, target, 1))
    ensures Inline(FirstLine(verb, target))
  {
    hide IsToken, Split;
    var version := "HTTP/1.1";
    assert ' ' !in version && Inline(version);
    VerbAndTargetAreInline(verb, target);
    FirstLineParts(verb, target, version);
    assert " HTTP/1.1" == " " + version;
    assert FirstLine(verb, target) == verb + " " + target + " " + version;
  }

  lemma VerbAndTargetAreInline(verb: string, target: string)
    requires IsToken(verb) && ValidTarget(target)
    ensures Inline(verb) && ' ' !in verb && Inline(target) && ' ' !in target
  {
    TokensAreInline(verb);
  }

  /** The header the server sees: what was sent, with the client's own fields. */
  ghost function SeenHeader(verb: string, h: Header, body: string): Header {
    var seen := Delivered(h, OWN_FIELDS);
    var framed := if SendsLength(verb, body) then seen["Content-Length" := [Decimal(|body|)]] else seen;
    framed["Connection" := ["close"]]
  }

  /** A length is announced for every body, and for POST and PUT also without one. */
  lemma LengthIsSent(verb: string, h: Header, body: string)
    ensures "Content-Length" in SeenHeader(verb, h, body) <==> body != "" || verb in {"POST", "PUT"}
  {
    hide Delivered, Decimal;
    OwnFieldsAreSkipped(h);
    assert "Content-Length" in OWN_FIELDS;
  }

  lemma OwnFieldsAreSkipped(h: Header)
    ensures forall k :: k in OWN_FIELDS ==> k !in Delivered(h, OWN_FIELDS)
  {
    forall i | 0 <= i < |OWN_FIELDS|
      ensures OWN_FIELDS[i] !in Delivered(h, OWN_FIELDS)
    {
      SkippedIsNotDelivered(h, OWN_FIELDS, i);
    }
  }

  lemma HostIsSkipped(name: string)
    requires IsWritten(name, OWN_FIELDS)
    ensures CanonicalKey(name) != "Host"
  {
    CanonicalFolds(name);
    assert OWN_FIELDS[0] == "Host";
  }

  lemma CanonicalNames()
    ensures CanonicalKey("Host") == "Host" && IsToken("Host")
    ensures CanonicalKey("Content-Length") == "Content-Length" && IsToken("Content-Length")
    ensures CanonicalKey("Transfer-Encoding") == "Transfer-Encoding"
    ensures CanonicalKey("Connection") == "Connection" && IsToken("Connection")
  {
    IsCanonical("Host");
    IsCanonical("Content-Length");
    IsCanonical("Transfer-Encoding");
    IsCanonical("Connection");
  }

  lemma IsCanonical(s: string)
    requires s in {"Host", "Content-Length", "Transfer-Encoding", "Connection"}
    ensures CanonicalKey(s) == s && IsToken(s)
  {
    assert AllTokenBytes(s);
    assert forall i :: 0 <= i < |s| ==> CaseAt(s, i) == s[i];
  }

  lemma ReadsOwnField(name: string, value: string, h: Header)
    requires IsToken(name) && CanonicalKey(name) == name && CleanValue(value) && name !in h
    ensures Reads(FieldText(name, value), h, h[name := [value]])
  {
    ReadsField(name, value, h);
    if value != "" {
      assert TrimBlanks(value) == value;
    }
    assert [] + [value] == [value];
  }

  lemma DecimalIsClean(n: nat)
    ensures CleanValue(Decimal(n))
  {
    var s := Decimal(n);
    assert forall i :: 0 <= i < |s| ==> IsDigit(s[i]);
  }

  lemma ReadsOneMore(text: string, h: Header, name: string, value: string)
    requires Reads(text, map[], h)
    requires IsToken(name) && CanonicalKey(name) == name && CleanValue(value) && name !in h
    ensures Reads(text + FieldText(name, value), map[], h[name := [value]])
  {
    hide Reads;
    ReadsOwnField(name, value, h);
    ReadsInTurn(text, FieldText(name, value), map[], h, h[name := [value]]);
  }

  /** The host and the caller's fields. */
  lemma CallerFieldsAreRead(host: string, h: Header)
    requires ValidHost(host) && Sendable(h, OWN_FIELDS)
    ensures Reads(FieldText("Host", host) + HeaderText(h, OWN_FIELDS), map[],
                  Delivered(h, OWN_FIELDS)["Host" := [host]])
  {
    hide Reads, HeaderText, Sendable, Delivered, IsWritten, CanonicalKey, IsToken, CleanValue, FieldText, Skipped;
    CanonicalNames();
    HostsAreClean(host);
    OwnFieldsAreSkipped(h);
    forall k | k in h && IsWritten(k, OWN_FIELDS)
      ensures CanonicalKey(k) != "Host"
    {
      HostIsSkipped(k);
    }
    var start: Header := map["Host" := [host]];
    ReadsOwnField("Host", host, map[]);
    ReadsHeader(h, OWN_FIELDS, start);
    ReadsInTurn(FieldText("Host", host), HeaderText(h, OWN_FIELDS), map[], start, start + Delivered(h, OWN_FIELDS));
    assert "Host" in OWN_FIELDS;
    assert start + Delivered(h, OWN_FIELDS) == Delivered(h, OWN_FIELDS)["Host" := [host]];
  }

  lemma BlockIsRead(verb: string, host: string, h: Header, body: string)
    requires ValidHost(host) && Sendable(h, OWN_FIELDS)
    ensures Reads(HeaderBlock(verb, host, h, body), map[], SeenHeader(verb, h, body)["Host" := [host]])
  {
    hide Reads, HeaderText, Decimal, CanonicalKey, IsToken, FieldText, Delivered, Sendable, CleanValue;
    CanonicalNames();
    OwnFieldsAreSkipped(h);
    CallerFieldsAreRead(host, h);
    var text := FieldText("Host", host) + HeaderText(h, OWN_FIELDS);
    var seen := Delivered(h, OWN_FIELDS)["Host" := [host]];
    assert "Connection" in OWN_FIELDS && "Content-Length" in OWN_FIELDS;
    if SendsLength(verb, body) {
      DecimalIsClean(|body|);
      ReadsOneMore(text, seen, "Content-Length", Decimal(|body|));
      text := text + FieldText("Content-Length", Decimal(|body|));
      seen := seen["Content-Length" := [Decimal(|body|)]];
    } else {
      assert text + "" == text;
    }
    CloseIsClean();
    ReadsOneMore(text, seen, "Connection", "close");
    assert seen["Connection" := ["close"]] == SeenHeader(verb, h, body)["Host" := [host]];
  }

  lemma CloseIsClean()
    ensures CleanValue("close")
  {
  }

  lemma FramingIsRead(verb: string, host: string, h: Header, body: string)
    requires ValidHost(host) && |body| <= MAX_BODY
    ensures Framing(SeenHeader(verb, h, body)["Host" := [host]], 1) == Ok((host, |body|))
  {
    hide Decimal, DecimalValue;
    CanonicalNames();
    OwnFieldsAreSkipped(h);
    var seen := SeenHeader(verb, h, body)["Host" := [host]];
    assert Values(seen, "Host") == [host];
    assert Values(seen, "Transfer-Encoding") == [];
    if SendsLength(verb, body) {
      assert Values(seen, "Content-Length") == [Decimal(|body|)];
      BodyLengthDigits(|body|);
    } else {
      assert Values(seen, "Content-Length") == [];
    }
  }

  lemma BodyLengthDigits(n: nat)
    requires n <= MAX_BODY
    ensures |Decimal(n)| <= 18 && DecimalValue(Decimal(n)) == n
  {
    assert Pow10(8) == 100_000_000 by {
      assert Pow10(2) == 100;
      assert Pow10(4) == 100 * Pow10(2);
      assert Pow10(6) == 100 * Pow10(4);
      assert Pow10(8) == 100 * Pow10(6);
    }
    DecimalLength(n, 8);
    DecimalRoundTrip(n);
  }

  /** The server recovers a request that the client wrote, whatever follows it: method, target, host,
      every header field the client may set, and a body of exactly the bytes sent. */
  lemma RequestRoundTrip(verb: string, target: string, host: string, h: Header, body: string, suffix: string,
                         end: End, maxHeader: nat, uri: string -> bool)
    requires IsToken(verb) && ValidTarget(target) && uri(target) && ValidHost(host)
    requires Sendable(h, OWN_FIELDS)
    requires |FirstLine(verb, target)| <= MAX_LINE && |HeaderBlock(verb, host, h, body)| <= maxHeader
    requires |body| <= MAX_BODY
    ensures Received(RequestBytes(verb, target, host, h, body) + suffix, end, maxHeader, uri)
         == Ok((Request(verb, target, SeenHeader(verb, h, body), host, |body|), body + suffix))
  {
    hide Reads, Fields, Line, RequestLine, Framing, HeaderBlock;
    var first, block := FirstLine(verb, target), HeaderBlock(verb, host, h, body);
    var input := RequestBytes(verb, target, host, h, body) + suffix;
    var after := block + "\r\n" + (body + suffix);
    FirstLineIsRead(verb, target, uri);
    assert input == first + "\r\n" + after;
    LineOf(first, after, end, MAX_LINE);
    BlockIsRead(verb, host, h, body);
    var seen := SeenHeader(verb, h, body);
    ReadsBlock(block, seen["Host" := [host]], body + suffix, end, maxHeader);
    FramingIsRead(verb, host, h, body);
    CanonicalNames();
    OwnFieldsAreSkipped(h);
    assert Del(seen["Host" := [host]], "Host") == seen;
  }

  lemma RequestParts(first: string, block: string, body: string, suffix: string)
    ensures first + "\r\n" + block + "\r\n" + body + suffix == first + "\r\n" + (block + "\r\n" + (body + suffix))
  {
  }

  lemma BlockIsRefused(verb: string, host: string, h: Header, body: string)
    requires ValidHost(host) && !Sendable(h, OWN_FIELDS)
    ensures Refuses(HeaderBlock(verb, host, h, body), map[])
  {
    hide Refuses, Reads, HeaderText, Sendable, FieldText, Decimal, SendsLength, ValidHost, CleanValue, CanonicalKey, IsToken;
    var text, start: Header := HeaderText(h, OWN_FIELDS), map["Host" := [host]];
    var length := if SendsLength(verb, body) then FieldText("Content-Length", Decimal(|body|)) else "";
    CanonicalNames();
    HostsAreClean(host);
    ReadsOwnField("Host", host, map[]);
    RefusesHeader(h, OWN_FIELDS, start);
    RefusesNext(FieldText("Host", host), text, map[], start);
    RefusesFirst(FieldText("Host", host) + text, length, map[]);
    RefusesFirst(FieldText("Host", host) + text + length, FieldText("Connection", "close"), map[]);
  }

  /** An announced length above the limit is refused. */
  lemma LongBodyIsRefused(verb: string, host: string, h: Header, body: string)
    requires ValidHost(host) && |body| > MAX_BODY
    ensures Framing(SeenHeader(verb, h, body)["Host" := [host]], 1).Err?
  {
    hide Decimal, DecimalValue, AllDigits;
    CanonicalNames();
    OwnFieldsAreSkipped(h);
    DecimalRoundTrip(|body|);
    var seen := SeenHeader(verb, h, body)["Host" := [host]];
    assert Values(seen, "Content-Length") == [Decimal(|body|)];
  }

  /** Of a request with a valid method, target and host, the server accepts exactly those whose values
      are valid as they are written and whose request line, header block and body keep within the limits. */
  lemma AcceptedExactly(verb: string, target: string, host: string, h: Header, body: string, suffix: string,
                        end: End, maxHeader: nat, uri: string -> bool)
    requires IsToken(verb) && ValidTarget(target) && uri(target) && ValidHost(host)
    ensures Received(RequestBytes(verb, target, host, h, body) + suffix, end, maxHeader, uri).Ok?
       <==> Sendable(h, OWN_FIELDS) && |FirstLine(verb, target)| <= 8192
            && |HeaderBlock(verb, host, h, body)| <= maxHeader && |body| <= 10485760
  {
    hide Reads, Refuses, Fields, Line, RequestLine, Framing, HeaderBlock, SeenHeader, FirstLine, Sendable;
    var first, block := FirstLine(verb, target), HeaderBlock(verb, host, h, body);
    var after := block + "\r\n" + (body + suffix);
    FirstLineIsRead(verb, target, uri);
    RequestParts(first, block, body, suffix);
    if |first| > MAX_LINE {
      LongLine(first, after, end, MAX_LINE);
    } else {
      LineOf(first, after, end, MAX_LINE);
      if !Sendable(h, OWN_FIELDS) {
        BlockIsRefused(verb, host, h, body);
        RefusesBlock(block, body + suffix, end, maxHeader);
      } else {
        BlockIsRead(verb, host, h, body);
        ReadsBlock(block, SeenHeader(verb, h, body)["Host" := [host]], body + suffix, end, maxHeader);
        if |body| > MAX_BODY {
          LongBodyIsRefused(verb, host, h, body);
        } else {
          FramingIsRead(verb, host, h, body);
        }
      }
    }
  }

  // ----- requests of any client -----

  /** How often `c` occurs. */
  function Count(s: string, c: char): nat {
    if s == "" then 0 else (if s[0] == c then 1 else 0) + Count(s[1..], c)
  }

  lemma {:induction false} CountNone(s: string, c: char)
    requires c !in s
    ensures Count(s, c) == 0
  {
    if s != "" {
      assert c !in s[1..];
      CountNone(s[1..], c);
    }
  }

  lemma {:induction false} CountAfter(before: string, c: char, after: string)
    requires c !in before
    ensures Count(before + [c] + after, c) == 1 + Count(after, c)
  {
    var s := before + [c] + after;
    if before == "" {
      assert s == [c] + after;
    } else {
      assert c !in before[1..];
      CountAfter(before[1..], c, after);
      assert s[1..] == before[1..] + [c] + after;
    }
  }

  lemma {:induction false} SplitCount(s: string, c: char)
    ensures |Split(s, c)| == 1 + Count(s, c)
    decreases |s|
  {
    var i := IndexOf(s, c);
    if i < |s| {
      SplitCount(s[i + 1..], c);
      assert s == s[..i] + [c] + s[i + 1..];
      CountAfter(s[..i], c, s[i + 1..]);
    } else {
      CountNone(s, c);
    }
  }

  /** A path of visible bytes. */
  predicate IsVisiblePath(target: string) {
    target != "" && target[0] == '/' && forall i :: 0 <= i < |target| ==> target[i] as int >= 0x21 && target[i] as int != 0x7F
  }

  /** A request line is accepted exactly if it is a token, a visible path that parses, and one of two
      versions, with one space between them; a wrong version of an otherwise well-formed line has its
      own status. */
  lemma RequestLineExactly(verb: string, target: string, version: string, line: string, uri: string -> bool)
    requires ' ' !in verb && ' ' !in target && ' ' !in version
    ensures line == verb + " " + target + " " + version ==>
              && (RequestLine(line, uri).Ok? <==>
                    IsToken(verb) && version in {"HTTP/1.0", "HTTP/1.1"} && IsVisiblePath(target) && uri(target))
              && (RequestLine(line, uri).Ok? ==>
                    RequestLine(line, uri).value == (verb, target, if version == "HTTP/1.1" then 1 else 0))
              && (RequestLine(line, uri).Err? ==>
                    RequestLine(line, uri).error.Refused?
                    && RequestLine(line, uri).error.status == if IsToken(verb) && version !in {"HTTP/1.0", "HTTP/1.1"} then 505 else 400)
    ensures Count(line, ' ') != 2 ==> RequestLine(line, uri).Err? && RequestLine(line, uri).error.Refused?
                                      && RequestLine(line, uri).error.status == 400
  {
    hide IsToken, Split;
    SplitCount(line, ' ');
    FirstLineParts(verb, target, version);
  }

  function FieldsOf(h: Header, name: string): seq<string> {
    if name in h then h[name] else []
  }

  /** The fields that decide about a request are accepted exactly if there is no transfer coding, at most
      one host, which is valid and only in HTTP/1.0 may be missing, and at most one length, of at most
      eighteen digits and at most 10 MiB. */
  lemma FramingExactly(h: Header, minor: nat)
    ensures var codings, hosts, lengths :=
              FieldsOf(h, "Transfer-Encoding"), FieldsOf(h, "Host"), FieldsOf(h, "Content-Length");
            var host := if hosts == [] then "" else hosts[0];
            && (codings != [] ==> Framing(h, minor) == Err(Refused(501, "Transfer-Encoding is not supported")))
            && (codings == [] && (|hosts| > 1 || (host != "" && !ValidHost(host)) || (host == "" && minor == 1)) ==>
                  Framing(h, minor).Err? && Framing(h, minor).error.Refused? && Framing(h, minor).error.status == 400)
            && (codings == [] && |hosts| <= 1 && (if host == "" then minor != 1 else ValidHost(host)) ==>
                  if lengths == [] then Framing(h, minor) == Ok((host, 0))
                  else if |lengths| > 1 || !(1 <= |lengths[0]| <= 18) || !AllDigits(lengths[0]) then
                    Framing(h, minor).Err? && Framing(h, minor).error.Refused? && Framing(h, minor).error.status == 400
                  else if DecimalValue(lengths[0]) > 10485760 then
                    Framing(h, minor) == Err(Refused(413, "request body too large"))
                  else Framing(h, minor) == Ok((host, DecimalValue(lengths[0]))))
  {
    hide CanonicalKey, ValidHost, AllDigits, DecimalValue;
    CanonicalNames();
  }

  /** A request of any client whose fields are written in order: what the server makes of it depends on its
      line and on the fields that arrive, and a request that it accepts loses only its Host field. */
  lemma AnyRequestIsRead(verb: string, target: string, version: string, h: Header, rest: string, end: End,
                         maxHeader: nat, uri: string -> bool)
    requires Inline(verb) && Inline(target) && Inline(version) && |verb + " " + target + " " + version| <= MAX_LINE
    requires Sendable(h, []) && |HeaderText(h, [])| <= maxHeader
    ensures var line, seen := verb + " " + target + " " + version, Delivered(h, []);
            var input := line + "\r\n" + (HeaderText(h, []) + "\r\n") + rest;
            if RequestLine(line, uri).Err? then
              Received(input, end, maxHeader, uri) == Err(RequestLine(line, uri).error)
            else
              var (v, u, minor) := RequestLine(line, uri).value;
              if Framing(seen, minor).Err? then Received(input, end, maxHeader, uri) == Err(Framing(seen, minor).error)
              else
                var (host, length) := Framing(seen, minor).value;
                Received(input, end, maxHeader, uri) == Ok((Request(v, u, seen - {"Host"}, host, length), rest))
  {
    hide Reads, Fields, Line, RequestLine, Framing, HeaderText, Delivered, Sendable, CanonicalKey, IsWritten, Inline;
    var line, text, seen := verb + " " + target + " " + version, HeaderText(h, []), Delivered(h, []);
    ThreeInline(verb, target, version);
    assert line + "\r\n" + (text + "\r\n") + rest == line + "\r\n" + (text + "\r\n" + rest);
    LineOf(line, text + "\r\n" + rest, end, MAX_LINE);
    CanonicalNames();
    ReadsHeader(h, [], map[]);
    assert map[] + seen == seen;
    ReadsBlock(text, seen, rest, end, maxHeader);
  }

  lemma ThreeInline(verb: string, target: string, version: string)
    requires Inline(verb) && Inline(target) && Inline(version)
    ensures Inline(verb + " " + target + " " + version)
  {
  }

  /** A request line of more than 8 KiB has a status of its own, and fields beyond the limit of the server are
      refused. */
  lemma TooLongIsRefused(line: string, h: Header, rest: string, end: End, maxHeader: nat, uri: string -> bool)
    requires Inline(line)
    ensures |line| > 8192 ==>
              Received(line + "\r\n" + rest, end, maxHeader, uri) == Err(Refused(414, "request line too long"))
    ensures |line| <= 8192 && RequestLine(line, uri).Ok? && Sendable(h, []) && |HeaderText(h, [])| > maxHeader ==>
              Received(line + "\r\n" + (HeaderText(h, []) + "\r\n" + rest), end, maxHeader, uri).Err?
  {
    hide Reads, Fields, RequestLine, Framing, HeaderText, Delivered, Sendable, CanonicalKey, IsWritten, Line;
    var text := HeaderText(h, []);
    if |line| > 8192 {
      LongLineStatus(line, rest, end);
    } else if RequestLine(line, uri).Ok? && Sendable(h, []) && |text| > maxHeader {
      LineOf(line, text + "\r\n" + rest, end, MAX_LINE);
      ReadsHeader(h, [], map[]);
      assert map[] + Delivered(h, []) == Delivered(h, []);
      ReadsBlock(text, Delivered(h, []), rest, end, maxHeader);
    }
  }

  lemma LongLineStatus(line: string, rest: string, end: End)
    requires Inline(line) && |line| > 8192
    ensures Line(line + "\r\n" + rest, end, MAX_LINE) == Err(Refused(HEADER_FIELDS_TOO_LARGE, "line too long"))
  {
    var input := line + "\r\n" + rest;
    assert input == (line + ['\r']) + ['\n'] + rest;
    IndexOfAt(line + ['\r'], '\n', rest);
  }
}
