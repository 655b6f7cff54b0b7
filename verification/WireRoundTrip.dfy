/** Both ends of the wire together: what one side writes, the other reads back through its buffered
    reader and body readers, for buffers of any sizes, and leaves the bytes that follow untouched. */
module WireRoundTrip {
  import opened Text
  import opened Wire
  import opened HeaderRoundTrip
  import opened Bodies
  import C = Chunked
  import K = ChunkedRoundTrip
  import Q = HttpRequest
  import P = HttpResponse

  /** The stream does not break off right behind the message. */
  predicate GoesOn(suffix: string, end: End) {
    suffix != "" || end == Closed
  }

  /** A request and its body, from the client's writer to the server's readers. */
  method SendRequest(verb: string, target: string, host: string, h: Header, body: string, suffix: string,
                     end: End, size: nat, maxHeader: nat, uri: string -> bool)
    returns (request: Result<Q.Request, WireError>, received: Result<string, WireError>, left: string)
    requires size > 0 && GoesOn(suffix, end)
    requires IsToken(verb) && Q.ValidTarget(target) && uri(target) && ValidHost(host) && Sendable(h, Q.OWN_FIELDS)
    requires |Q.FirstLine(verb, target)| <= Q.MAX_LINE && |Q.HeaderBlock(verb, host, h, body)| <= maxHeader
    requires |body| <= Q.MAX_BODY
    ensures request == Ok(Q.Request(verb, target, Q.SeenHeader(verb, h, body), host, |body|))
    ensures received == Ok(body) && left == suffix
  {
    hide Q.Received, Q.RequestBytes, Q.SeenHeader, Q.HeaderBlock, Q.FirstLine, Sendable;
    var bytes := Q.WriteRequest(verb, target, host, h, body);
    Q.RequestRoundTrip(verb, target, host, h, body, suffix, end, maxHeader, uri);
    var br := new BufReader(bytes + suffix, end, size);
    request := Q.ReadRequest(br, maxHeader, uri);
    BodyThenRest(body, suffix);
    var reader := new BodyReader(br, |body|);
    received := reader.ReadAll();
    left := br.unread;
  }

  /** A response and its body, from the handler's calls to the client's readers. */
  method SendResponse(status: nat, h: Header, verb: string, body: string, suffix: string, end: End, size: nat)
    returns (response: Result<P.Response, WireError>, received: Result<string, WireError>, left: string)
    requires size > 0 && GoesOn(suffix, end)
    requires 200 <= status <= 999 && Sendable(h, P.OWN_FIELDS) && |body| <= P.MAX_RESPONSE_BODY
    requires |P.HeaderBlock(status, h, body)| <= P.MAX_HEADER && |P.HeaderBlock(status, h, "")| <= P.MAX_HEADER
    ensures response.Ok? && response.value.code == status
    ensures var sent := if P.BodyAllowed(status) then body else "";
            response.value.header == P.SeenHeader(status, h, sent)
    ensures received == Ok(if P.BodyAllowed(status) && verb != "HEAD" then body else "") && left == suffix
  {
    hide P.Final, P.ResponseBytes, P.SeenHeader, P.HeaderBlock, P.Reason, Sendable;
    var w := new P.ResponseWriter(verb == "HEAD");
    w.header := h;
    w.WriteHeader(status);
    var _ := w.Write(body);
    var sent := if P.BodyAllowed(status) then body else "";
    assert w.body == sent by {
      assert "" + body == body;
    }
    var bytes := w.Finish();
    P.ResponseRoundTrip(status, h, verb, sent, suffix, end);
    var br := new BufReader(bytes + suffix, end, size);
    response := P.ReadFinalResponse(br, verb);
    received := Ok("");
    if response.value.body.Sized? {
      BodyThenRest(sent, suffix);
      var reader := new BodyReader(br, response.value.body.length);
      received := reader.ReadAll();
    }
    left := br.unread;
  }

  /** A body in chunks: read whole, with a clean end, and no byte more. */
  method SendChunks(chunks: seq<K.Chunk>, last: K.Last, suffix: string, end: End, size: nat)
    returns (body: string, final: WireError, left: string)
    requires size > 0 && K.ValidChunks(chunks) && K.ValidLast(last)
    ensures body == K.Body(chunks) && final == Eof && left == suffix
  {
    hide C.Decode, K.ValidChunks, K.ValidLast, K.Encode;
    K.DecodesEncoding(chunks, last, suffix, end);
    var br := new BufReader(K.Encode(chunks, last) + suffix, end, size);
    var reader := new C.ChunkedReader(br);
    body, final := reader.ReadAll();
    left := br.unread;
  }

  /** Cut off anywhere, the same bytes never read as a complete body. */
  method SendCutChunks(chunks: seq<K.Chunk>, last: K.Last, cut: nat, end: End, size: nat)
    returns (body: string, final: WireError)
    requires size > 0 && K.ValidChunks(chunks) && K.ValidLast(last) && cut < |K.Encode(chunks, last)|
    ensures final != Eof
  {
    hide C.Decode, K.ValidChunks, K.ValidLast, K.Encode;
    K.TruncationIsNoticed(chunks, last, cut, end);
    var br := new BufReader(K.Encode(chunks, last)[..cut], end, size);
    var reader := new C.ChunkedReader(br);
    body, final := reader.ReadAll();
  }

  lemma BodyThenRest(body: string, suffix: string)
    ensures (body + suffix)[..|body|] == body && (body + suffix)[|body|..] == suffix
  {
  }
}
