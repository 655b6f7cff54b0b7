/** Responses of any server (section 6.3 of RFC 9112): how the client finds the end of the body, and what
    its readers return. */
module ResponseFraming {
  import opened Text
  import opened Utf8
  import opened Wire
  import opened HeaderRoundTrip
  import opened Bodies
  import opened HttpResponse
  import C = Chunked
  import K = ChunkedRoundTrip
  import Q = HttpRequest

  // ----- status line and fields -----

  /** What precedes a body: a status line in either version, and header fields as any sender that sorts
      them would write them. */
  datatype Head = Head(version: string, status: nat, reason: string, h: Header)

  function Status(head: Head): string {
    Decimal(head.status) + " " + head.reason
  }

  ghost predicate IsHead(head: Head) {
    && head.version in {"HTTP/1.0", "HTTP/1.1"} && 100 <= head.status <= 999
    && Inline(head.reason) && |head.version + " " + Status(head)| <= Q.MAX_LINE
    && Sendable(head.h, []) && |HeaderText(head.h, [])| <= MAX_HEADER
  }

  ghost function HeadText(head: Head): string {
    head.version + " " + Status(head) + "\r\n" + (HeaderText(head.h, []) + "\r\n")
  }

  /** The fields as they arrive. */
  ghost function Arrives(head: Head): Header {
    Delivered(head.h, [])
  }

  lemma StatusIsRead(head: Head)
    requires IsHead(head)
    ensures var line := head.version + " " + Status(head);
            StatusLineParts(line) == Ok((head.status, Status(head))) && Inline(line) && |line| <= Q.MAX_LINE
  {
    hide Decimal, DecimalValue, Sendable, HeaderText;
    var code := Decimal(head.status);
    DecimalOfStatus(head.status);
    assert ' ' !in head.version && Inline(head.version) && |head.version| == 8 && Q.ParseVersion(head.version).Some?;
    assert head.version + " " + Status(head) == head.version + [' '] + Status(head);
    CutAt(head.version, ' ', Status(head));
    assert Status(head) == code + [' '] + head.reason;
    CutAt(code, ' ', head.reason);
  }

  /** The client reads the head, and the framing of its body. */
  lemma HeadIsRead(head: Head, rest: string, end: End, verb: string)
    requires IsHead(head)
    ensures Received(HeadText(head) + rest, end, verb)
         == match BodyOf(verb, head.status, Arrives(head))
            case Err(e) => Err(e)
            case Ok(kind) => Ok((Response(head.status, Status(head), Arrives(head), kind), rest))
  {
    hide Reads, Fields, Line, StatusLineParts, BodyOf, HeaderText, Delivered, Sendable, Decimal, CanonicalKey, IsWritten;
    var line, text := head.version + " " + Status(head), HeaderText(head.h, []);
    StatusIsRead(head);
    HeadThen(line, text, rest);
    LineOf(line, text + "\r\n" + rest, end, Q.MAX_LINE);
    ReadsHeader(head.h, [], map[]);
    NothingBefore(Arrives(head));
    ReadsBlock(text, Arrives(head), rest, end, MAX_HEADER);
  }

  lemma HeadThen(line: string, text: string, rest: string)
    ensures line + "\r\n" + (text + "\r\n") + rest == line + "\r\n" + (text + "\r\n" + rest)
  {
  }

  lemma NothingBefore(h: Header)
    ensures map[] + h == h
  {
  }

  // ----- interim responses -----

  ghost function HeadsText(heads: seq<Head>): string {
    if heads == [] then "" else HeadText(heads[0]) + HeadsText(heads[1..])
  }

  ghost predicate AreInterim(heads: seq<Head>) {
    forall i :: 0 <= i < |heads| ==> IsHead(heads[i]) && heads[i].status <= 199
  }

  /** Any number of interim responses is skipped. */
  lemma {:induction false} InterimIsSkipped(heads: seq<Head>, input: string, end: End, verb: string)
    requires AreInterim(heads)
    ensures Final(HeadsText(heads) + input, end, verb) == Final(input, end, verb)
  {
    hide HeadText, Received, IsHead, Arrives, Status;
    if heads == [] {
      assert "" + input == input;
    } else {
      var rest := HeadsText(heads[1..]) + input;
      assert HeadsText(heads) + input == HeadText(heads[0]) + rest;
      assert IsHead(heads[0]) && heads[0].status <= 199;
      StatusInRange(heads[0]);
      HeadIsRead(heads[0], rest, end, verb);
      InterimIsSkipped(heads[1..], input, end, verb);
    }
  }

  lemma StatusInRange(head: Head)
    requires IsHead(head)
    ensures 100 <= head.status <= 999
  {
  }

  /** After the interim responses comes the head that decides. */
  lemma FinalHead(heads: seq<Head>, head: Head, rest: string, end: End, verb: string)
    requires AreInterim(heads) && IsHead(head) && head.status >= 200
    ensures Final(HeadsText(heads) + (HeadText(head) + rest), end, verb)
         == match BodyOf(verb, head.status, Arrives(head))
            case Err(e) => Err(e)
            case Ok(kind) => Ok((Response(head.status, Status(head), Arrives(head), kind), rest))
  {
    hide HeadText, Received, IsHead, Arrives, Status, HeadsText;
    InterimIsSkipped(heads, HeadText(head) + rest, end, verb);
    HeadIsRead(head, rest, end, verb);
  }

  // ----- which framing -----

  /** The first Transfer-Encoding is "chunked", in any letter case and with white space around it. */
  ghost predicate SaysChunked(h: Header) {
    exists a, w, b :: "Transfer-Encoding" in h && h["Transfer-Encoding"] != [] && SpellsChunked(h["Transfer-Encoding"][0], a, w, b)
  }

  ghost predicate SpellsChunked(value: string, a: string, w: string, b: string) {
    value == a + w + b && IsSpaces(a) && IsAscii(w) && LowerAscii(w) == "chunked" && IsSpaces(b)
  }

  lemma ChunkedWord(w: string)
    requires IsAscii(w) && LowerAscii(w) == "chunked"
    ensures EqualFold(w, "chunked") && IsTrimmed(w)
  {
    hide IsTrimmed, FoldText;
    FoldAscii(w);
    FoldAscii("chunked");
    assert LowerAscii("chunked") == "chunked";
    assert LowerChar(w[0]) == 'c' && LowerChar(w[6]) == 'd';
    VisibleIsTrimmed(w);
  }

  /** A text that begins and ends with visible ASCII is trimmed. */
  lemma VisibleIsTrimmed(w: string)
    requires w != "" && '!' <= w[0] <= '~' && '!' <= w[|w| - 1] <= '~'
    ensures IsTrimmed(w)
  {
    hide Encode;
    VisibleEnds(w);
    forall c
      ensures !StartsWithSpace(w, c) && !EndsWithSpace(w, c)
    {
      if StartsWithSpace(w, c) {
        SpaceStarts(w, c);
      }
      if EndsWithSpace(w, c) {
        SpaceEnds(w, c);
      }
    }
  }

  lemma VisibleEnds(w: string)
    requires w != "" && '!' <= w[0] <= '~' && '!' <= w[|w| - 1] <= '~'
    ensures SpaceAtStart(w) == 0 && SpaceAtEnd(w) == 0
  {
  }

  lemma ChunkedFraming(verb: string, status: nat, h: Header)
    requires verb != "HEAD" && status >= 200 && status != 204 && status != 304 && SaysChunked(h)
    ensures BodyOf(verb, status, h) == Ok(ChunkedBody)
  {
    hide TrimSpace, IsSpaces, EqualFold, CanonicalKey, Q.ContentLength;
    var a, w, b :| "Transfer-Encoding" in h && h["Transfer-Encoding"] != [] && SpellsChunked(h["Transfer-Encoding"][0], a, w, b);
    Q.CanonicalNames();
    ChunkedWord(w);
    TrimAround(a, w, b);
  }

  /** A response without a coding is framed by its length, or by the end of the connection. */
  lemma PlainFraming(verb: string, status: nat, h: Header, n: nat)
    requires verb != "HEAD" && status >= 200 && status != 204 && status != 304
    requires "Transfer-Encoding" in h ==> h["Transfer-Encoding"] == []
    ensures "Content-Length" in h && h["Content-Length"] == [Decimal(n)] && n < Pow10(18) ==> BodyOf(verb, status, h) == Ok(Sized(n))
    ensures "Content-Length" !in h ==> BodyOf(verb, status, h) == Ok(UntilClose)
    ensures "Content-Length" in h && |h["Content-Length"]| > 1 ==> BodyOf(verb, status, h).Err?
    ensures "Content-Length" in h && |h["Content-Length"]| == 1 && (h["Content-Length"][0] == "" || !AllDigits(h["Content-Length"][0])) ==>
              BodyOf(verb, status, h).Err?
  {
    hide Decimal, DecimalValue, CanonicalKey, AllDigits, Pow10;
    Q.CanonicalNames();
    NotChunked();
    DecimalRoundTrip(n);
    if n < Pow10(18) {
      DecimalLength(n, 18);
    }
  }

  /** Answers to HEAD and the statuses that allow no body have none, whatever their fields say. */
  lemma NoFraming(verb: string, status: nat, h: Header)
    requires verb == "HEAD" || status <= 199 || status == 204 || status == 304
    requires status >= 100
    ensures BodyOf(verb, status, h) == Ok(NoBody)
  {
  }

  // ----- the body -----

  /** What reading the body returns, the error after it (`Eof` when it is the clean end), and what
      follows a clean end. */
  datatype Content = Content(body: string, final: WireError, rest: string)

  /** Reading a body to its end, with the reader its framing calls for. */
  method ReadBody(br: BufReader, kind: BodyKind) returns (body: string, final: WireError)
    requires br.size > 0
    modifies br
    ensures kind.NoBody? ==> body == "" && final == Eof && br.unread == old(br.unread)
    ensures kind.ChunkedBody? ==>
              var all := C.Decode(0, false, old(br.unread), br.end);
              body == all.body && final == all.final && (final == Eof ==> br.unread == all.rest)
    ensures kind.Sized? && (|old(br.unread)| > kind.length || (|old(br.unread)| == kind.length && br.end == Closed)) ==>
              body == old(br.unread[..kind.length]) && final == Eof && br.unread == old(br.unread[kind.length..])
    ensures kind.Sized? && |old(br.unread)| < kind.length ==> final != Eof
    ensures kind.UntilClose? ==> body == old(br.unread) && final == EndError(br.end)
  {
    hide C.Decode;
    match kind {
      case NoBody =>
        body, final := "", Eof;
      case ChunkedBody =>
        var reader := new C.ChunkedReader(br);
        body, final := reader.ReadAll();
      case Sized(length) =>
        var reader := new BodyReader(br, length);
        var all := reader.ReadAll();
        body, final := if all.Ok? then all.value else "", if all.Ok? then Eof else all.error;
      case UntilClose =>
        body, final := ReadToEnd(br);
    }
  }

  /** Reading the connection until it ends. */
  method ReadToEnd(br: BufReader) returns (data: string, final: WireError)
    modifies br
    ensures data == old(br.unread) && br.unread == "" && final == EndError(br.end)
  {
    ghost var input := br.unread;
    data := "";
    var failed: Option<End> := None;
    while failed.None?
      invariant input == data + br.unread
      invariant failed.Some? ==> failed.value == br.end && br.unread == ""
      decreases |br.unread|, failed.None?
    {
      var max: int := *;
      if max < 1 {
        max := 1;
      }
      var chunk;
      chunk, failed := br.Read(max);
      data := data + chunk;
    }
    final := EndError(failed.value);
  }

  /** A final response and its body through one buffered reader. */
  method ReceiveResponse(input: string, end: End, size: nat, verb: string)
    returns (response: Result<Response, WireError>, body: string, final: WireError, left: string)
    requires size > 0
    ensures match Final(input, end, verb)
            case Err(e) => response == Err(e)
            case Ok((r, rest)) =>
              && response == Ok(r)
              && (r.body.NoBody? ==> body == "" && final == Eof && left == rest)
              && (r.body.ChunkedBody? ==>
                    var all := C.Decode(0, false, rest, end);
                    body == all.body && final == all.final && (final == Eof ==> left == all.rest))
              && (r.body.Sized? && (|rest| > r.body.length || (|rest| == r.body.length && end == Closed)) ==>
                    body == rest[..r.body.length] && final == Eof && left == rest[r.body.length..])
              && (r.body.Sized? && |rest| < r.body.length ==> final != Eof)
              && (r.body.UntilClose? ==> body == rest && final == EndError(end))
  {
    hide Final, C.Decode;
    var br := new BufReader(input, end, size);
    response := ReadFinalResponse(br, verb);
    body, final := "", Eof;
    if response.Ok? {
      body, final := ReadBody(br, response.value.body);
    }
    left := br.unread;
  }

  /** What a server sends: interim responses, a head, and the bytes of the body with what follows. */
  ghost predicate IsSent(input: string, heads: seq<Head>, head: Head, rest: string) {
    && AreInterim(heads) && IsHead(head) && head.status >= 200
    && input == HeadsText(heads) + (HeadText(head) + rest)
  }

  /** A chunked response, in any chunks, after any interim responses: the client returns the body, a
      clean end, and leaves what follows. */
  method ReceiveChunked(input: string, end: End, size: nat, verb: string, ghost heads: seq<Head>, ghost head: Head,
                        ghost chunks: seq<K.Chunk>, ghost last: K.Last, ghost suffix: string)
    returns (response: Result<Response, WireError>, body: string, final: WireError, left: string)
    requires size > 0 && IsSent(input, heads, head, K.Encode(chunks, last) + suffix)
    requires verb != "HEAD" && head.status != 204 && head.status != 304 && SaysChunked(Arrives(head))
    requires K.ValidChunks(chunks) && K.ValidLast(last)
    ensures response == Ok(Response(head.status, Status(head), Arrives(head), ChunkedBody))
    ensures body == K.Body(chunks) && final == Eof && left == suffix
  {
    hide IsHead, HeadText, HeadsText, Arrives, Status, Final, C.Decode, SaysChunked, K.ValidChunks, K.ValidLast, K.Encode,
      BodyOf, AreInterim;
    FinalHead(heads, head, K.Encode(chunks, last) + suffix, end, verb);
    ChunkedFraming(verb, head.status, Arrives(head));
    K.DecodesEncoding(chunks, last, suffix, end);
    response, body, final, left := ReceiveResponse(input, end, size, verb);
  }

  /** A response without a coding: with a length exactly so many bytes, without one the rest of the
      stream, up to the end of the connection. */
  method ReceivePlain(input: string, end: End, size: nat, verb: string, ghost heads: seq<Head>, ghost head: Head,
                      ghost content: string, ghost suffix: string)
    returns (response: Result<Response, WireError>, body: string, final: WireError, left: string)
    requires size > 0 && IsSent(input, heads, head, content + suffix)
    requires verb != "HEAD" && head.status != 204 && head.status != 304 && "Transfer-Encoding" !in Arrives(head)
    ensures "Content-Length" in Arrives(head) && Arrives(head)["Content-Length"] == [Decimal(|content|)]
            && |content| < Pow10(18) && (suffix != "" || end == Closed) ==>
              response == Ok(Response(head.status, Status(head), Arrives(head), Sized(|content|)))
              && body == content && final == Eof && left == suffix
    ensures "Content-Length" !in Arrives(head) ==>
              response == Ok(Response(head.status, Status(head), Arrives(head), UntilClose))
              && body == content + suffix && final == (if end == Closed then Eof else Broken)
  {
    hide IsHead, HeadText, HeadsText, Arrives, Status, Final, C.Decode, BodyOf, AreInterim, Decimal, Pow10;
    FinalHead(heads, head, content + suffix, end, verb);
    PlainFraming(verb, head.status, Arrives(head), |content|);
    ContentThenRest(content, suffix);
    response, body, final, left := ReceiveResponse(input, end, size, verb);
  }

  lemma ContentThenRest(content: string, suffix: string)
    ensures (content + suffix)[..|content|] == content && (content + suffix)[|content|..] == suffix
  {
  }

  /** An answer to HEAD, and one whose status allows no body: nothing is read behind its fields. */
  method ReceiveNothing(input: string, end: End, size: nat, verb: string, ghost heads: seq<Head>, ghost head: Head,
                        ghost suffix: string)
    returns (response: Result<Response, WireError>, body: string, final: WireError, left: string)
    requires size > 0 && IsSent(input, heads, head, suffix)
    requires verb == "HEAD" || head.status == 204 || head.status == 304
    ensures response == Ok(Response(head.status, Status(head), Arrives(head), NoBody))
    ensures body == "" && final == Eof && left == suffix
  {
    hide IsHead, HeadText, HeadsText, Arrives, Status, Final, C.Decode, BodyOf, AreInterim;
    FinalHead(heads, head, suffix, end, verb);
    NoFraming(verb, head.status, Arrives(head));
    response, body, final, left := ReceiveResponse(input, end, size, verb);
  }
}
