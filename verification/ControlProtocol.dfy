/** Control requests and their validation. */
module ControlProtocol {
  import opened Text
  import opened Utf8
  import M = AlertMessage

  const PROTOCOL_VERSION := 2
  const MAX_REQUEST_BYTES := 16384
  const MAX_AUTH_NODE_BYTES := 128
  const MAX_SOURCE_NODE_BYTES := 255
  const MAX_SOURCE_HOST_BYTES := 255

  datatype Audit = Audit(authNode: string, authRole: string, sourceIp: string, sourceNode: string, sourceHost: string)

  datatype Config = Config(version: int)

  datatype Request = Request(version: int, operation: string, target: string, message: string,
                             settings: Option<Config>, audit: Option<Audit>)

  const NO_REQUEST := Request(0, "", "", "", None, None)

  datatype ProtocolError = RequestTooLarge | InvalidRequest | UnsupportedVersion | UnknownOperation

  /** What the JSON decoder makes of some bytes: the fields it filled in, and whether it found exactly
      one value of the right form. */
  datatype Decoded = Decoded(request: Request, whole: bool)

  /** The JSON decoder, and whether an address equals its own canonical form. Nothing is assumed of
      either. */
  datatype Codec = Codec(json: string -> Decoded, canonical: string -> bool)

  predicate IsMutation(operation: string) {
    operation in {"create", "write", "convert", "delete", "settings_replace"}
  }

  // ----- validation -----

  predicate IsAuditText(value: string, max: nat, required: bool, t: M.Tables) {
    if value == "" then !required
    else
      && |value| <= max
      && TrimSpace(value) == value
      && forall i :: 0 <= i < |RangeRunes(value)| ==> !M.IsControl(RangeRunes(value)[i]) && !t.format(RangeRunes(value)[i])
  }

  predicate IsValidAudit(a: Audit, codec: Codec, t: M.Tables) {
    && IsAuditText(a.authNode, MAX_AUTH_NODE_BYTES, true, t)
    && a.authRole == "admin"
    && codec.canonical(a.sourceIp)
    && IsAuditText(a.sourceNode, MAX_SOURCE_NODE_BYTES, false, t)
    && IsAuditText(a.sourceHost, MAX_SOURCE_HOST_BYTES, false, t)
    && (a.sourceHost != "" ==> a.sourceNode != "")
  }

  predicate HasValidAudit(r: Request, codec: Codec, t: M.Tables) {
    r.audit.Some? && IsValidAudit(r.audit.value, codec, t)
  }

  function ValidateRequest(r: Request, codec: Codec, t: M.Tables): Option<ProtocolError> {
    if r.version != PROTOCOL_VERSION then Some(UnsupportedVersion)
    else
      match r.operation
      case "list" =>
        if r.target != "" || r.message != "" || r.settings.Some? || r.audit.Some? then Some(InvalidRequest) else None
      case "read" =>
        if r.target == "" then Some(InvalidRequest)
        else if r.message != "" || r.settings.Some? || r.audit.Some? then Some(InvalidRequest)
        else None
      case "delete" =>
        if r.target == "" then Some(InvalidRequest)
        else if r.message != "" || r.settings.Some? then Some(InvalidRequest)
        else ValidateRequestAudit(r, codec, t)
      case "settings_read" =>
        if r.target != "" || r.message != "" || r.settings.Some? || r.audit.Some? then Some(InvalidRequest) else None
      case "settings_replace" =>
        if r.target != "" || r.message != "" then Some(InvalidRequest)
        else if r.settings.None? then Some(InvalidRequest)
        else ValidateRequestAudit(r, codec, t)
      case _ =>
        if r.operation in {"create", "write", "convert"} then
          if r.target == "" then Some(InvalidRequest)
          else if r.message == "" then Some(InvalidRequest)
          else if r.settings.Some? then Some(InvalidRequest)
          else ValidateRequestAudit(r, codec, t)
        else Some(UnknownOperation)
  }

  function ValidateRequestAudit(r: Request, codec: Codec, t: M.Tables): Option<ProtocolError> {
    if HasValidAudit(r, codec, t) then None else Some(InvalidRequest)
  }

  // ----- what is accepted, field by field -----

  /** At most `max` bytes, no white space at either end, and no control or format character. */
  ghost predicate IsPlainText(value: string, max: nat, t: M.Tables) {
    && |value| <= max && IsTrimmed(value)
    && forall i :: 0 <= i < |RangeRunes(value)| ==>
         var c := RangeRunes(value)[i];
         !(c <= 0x1F || 0x7F <= c <= 0x9F) && !t.format(c)
  }

  /** The audit names an administrator, the node that vouches for the role, and where the request came
      from; a host only together with its node. */
  ghost predicate NamesAdmin(a: Audit, codec: Codec, t: M.Tables) {
    && a.authRole == "admin" && a.authNode != "" && codec.canonical(a.sourceIp)
    && IsPlainText(a.authNode, 128, t) && IsPlainText(a.sourceNode, 255, t) && IsPlainText(a.sourceHost, 255, t)
    && !(a.sourceHost != "" && a.sourceNode == "")
  }

  lemma AuditTextIsPlain(value: string, max: nat, required: bool, t: M.Tables)
    ensures IsAuditText(value, max, required, t) <==> IsPlainText(value, max, t) && !(required && value == "")
  {
    hide TrimSpace, Encode, IsWhiteSpace;
    TrimmedExactly(value);
    if value == "" {
      EmptyIsTrimmed();
    }
  }

  lemma EmptyIsTrimmed()
    ensures IsTrimmed("")
  {
    forall c | IsWhiteSpace(c)
      ensures |Encode(c)| > 0
    {
    }
  }

  /** The checks of an audit accept exactly these. */
  lemma ValidAuditNamesAdmin(a: Audit, codec: Codec, t: M.Tables)
    ensures IsValidAudit(a, codec, t) <==> NamesAdmin(a, codec, t)
  {
    hide IsAuditText, IsPlainText;
    AuditTextIsPlain(a.authNode, 128, true, t);
    AuditTextIsPlain(a.sourceNode, 255, false, t);
    AuditTextIsPlain(a.sourceHost, 255, false, t);
  }

  /** Exactly these fields are there. */
  predicate Carries(r: Request, target: bool, message: bool, settings: bool, audit: bool) {
    && (r.target != "" <==> target) && (r.message != "" <==> message)
    && (r.settings.Some? <==> settings) && (r.audit.Some? <==> audit)
  }

  /** Each operation with the fields it needs, and no others. */
  predicate HasItsFields(r: Request) {
    || (r.operation == "list" && Carries(r, false, false, false, false))
    || (r.operation == "read" && Carries(r, true, false, false, false))
    || (r.operation == "create" && Carries(r, true, true, false, true))
    || (r.operation == "write" && Carries(r, true, true, false, true))
    || (r.operation == "convert" && Carries(r, true, true, false, true))
    || (r.operation == "delete" && Carries(r, true, false, false, true))
    || (r.operation == "settings_read" && Carries(r, false, false, false, false))
    || (r.operation == "settings_replace" && Carries(r, false, false, true, true))
  }

  /** A request is accepted exactly if it is of version 2 and carries the fields of its operation, and
      an audit only one that names an administrator. Otherwise the version, the operation and the
      fields, in this order, decide the error. */
  lemma AcceptedExactly(r: Request, codec: Codec, t: M.Tables)
    ensures ValidateRequest(r, codec, t).None? <==>
              r.version == 2 && HasItsFields(r) && (r.audit.Some? ==> NamesAdmin(r.audit.value, codec, t))
    ensures ValidateRequest(r, codec, t) == Some(UnsupportedVersion) <==> r.version != 2
    ensures ValidateRequest(r, codec, t) == Some(UnknownOperation) <==>
              r.version == 2 && r.operation !in {"list", "read", "create", "write", "convert", "delete",
                                                 "settings_read", "settings_replace"}
    ensures ValidateRequest(r, codec, t) != Some(RequestTooLarge)
  {
    hide NamesAdmin, IsValidAudit;
    if r.audit.Some? {
      ValidAuditNamesAdmin(r.audit.value, codec, t);
    }
  }

  /** An accepted request to mutate names an administrator, and nothing else that is accepted carries an
      audit. */
  lemma ValidatedRequest(r: Request, codec: Codec, t: M.Tables)
    requires ValidateRequest(r, codec, t).None?
    ensures HasItsFields(r)
    ensures IsMutation(r.operation) <==> r.audit.Some?
    ensures r.audit.Some? ==> HasValidAudit(r, codec, t) && NamesAdmin(r.audit.value, codec, t)
    ensures r.message != "" <==> r.operation in {"create", "write", "convert"}
    ensures r.settings.Some? <==> r.operation == "settings_replace"
    ensures r.target != "" <==> r.operation in {"read", "create", "write", "convert", "delete"}
  {
    hide NamesAdmin, IsValidAudit;
    AcceptedExactly(r, codec, t);
    if r.audit.Some? {
      ValidAuditNamesAdmin(r.audit.value, codec, t);
    }
  }

  // ----- reading a request -----

  /** What a client sends before it stops, and whether the reading fails then rather than ends. */
  datatype Input = Input(data: string, fails: bool)

  predicate FitsLimit(data: string) {
    |data| <= MAX_REQUEST_BYTES
  }

  /** The bytes before the first newline if there are at most 16 KiB of them. Without a newline so
      early the request is too large, unless the client stopped at that size or the reading failed one
      byte after it. */
  function RequestLine(input: Input): (r: Result<string, ProtocolError>)
    ensures r.Err? ==> r.error in {RequestTooLarge, InvalidRequest}
  {
    var end := IndexOf(input.data, '\n');
    if FitsLimit(input.data[..end]) then
      if end < |input.data| then Ok(input.data[..end]) else Err(InvalidRequest)
    else if |input.data| == MAX_REQUEST_BYTES + 1 && input.fails then Err(InvalidRequest)
    else Err(RequestTooLarge)
  }

  /** `readRequest`, with its limited reader. */
  method ReadRequest(input: Input) returns (r: Result<string, ProtocolError>)
    ensures r == RequestLine(input)
  {
    var limited := if |input.data| <= MAX_REQUEST_BYTES + 2 then input.data else input.data[..MAX_REQUEST_BYTES + 2];
    var end := IndexOf(limited, '\n');
    FirstIn(input.data, |limited|, '\n');
    assert limited == input.data[..|limited|];
    var found := end < |limited|;
    var line := if found then limited[..end + 1] else limited;
    if |line| > MAX_REQUEST_BYTES + 1 {
      return Err(RequestTooLarge);
    }
    if !found {
      var ended := |input.data| >= MAX_REQUEST_BYTES + 2 || !input.fails;
      if ended {
        if |line| > MAX_REQUEST_BYTES {
          return Err(RequestTooLarge);
        }
        return Err(InvalidRequest);
      }
      return Err(InvalidRequest);
    }
    line := line[..|line| - 1];
    assert line == input.data[..end];
    if |line| > MAX_REQUEST_BYTES {
      return Err(RequestTooLarge);
    }
    r := Ok(line);
  }

  /** Where the first `c` of a prefix is. */
  lemma FirstIn(s: string, n: nat, c: char)
    requires n <= |s|
    ensures IndexOf(s[..n], c) == if IndexOf(s, c) < n then IndexOf(s, c) else n
  {
    var i, j := IndexOf(s, c), IndexOf(s[..n], c);
    if j < n {
      assert s[j] == c;
    }
    if i < n {
      assert s[..n][i] == c;
    }
  }

  /** `DecodeRequest`; what was decoded is there even when it is refused. */
  function DecodeRequest(data: string, codec: Codec, t: M.Tables): (Request, Option<ProtocolError>) {
    if !FitsLimit(data) then (NO_REQUEST, Some(RequestTooLarge))
    else
      var d := codec.json(data);
      (d.request, if !d.whole then Some(InvalidRequest) else ValidateRequest(d.request, codec, t))
  }

  /** What arrives on a connection: nothing usable, a request that is refused before dispatch (with
      what was decoded of it), or a validated request. */
  datatype Arrival =
    | Unread(error: ProtocolError)
    | Refused(partial: Request, error: ProtocolError)
    | Accepted(request: Request)

  function ArrivalOf(input: Input, codec: Codec, t: M.Tables): Arrival {
    match RequestLine(input)
    case Err(e) => Unread(e)
    case Ok(data) =>
      var (request, problem) := DecodeRequest(data, codec, t);
      if problem.Some? then Refused(request, problem.value) else Accepted(request)
  }

  /** An accepted request passed the validation, a refused one met the error it is refused for. */
  lemma ArrivalIsChecked(input: Input, codec: Codec, t: M.Tables)
    ensures match ArrivalOf(input, codec, t)
            case Accepted(r) => ValidateRequest(r, codec, t).None?
            case Refused(r, e) => e != RequestTooLarge && (e == InvalidRequest || ValidateRequest(r, codec, t) == Some(e))
            case Unread(e) => e in {RequestTooLarge, InvalidRequest}
  {
    hide ValidateRequest;
    ValidationErrors(codec.json(input.data[..IndexOf(input.data, '\n')]).request, codec, t);
  }

  lemma ValidationErrors(r: Request, codec: Codec, t: M.Tables)
    ensures ValidateRequest(r, codec, t) != Some(RequestTooLarge)
  {
    hide IsValidAudit;
  }

  /** The first line of at most 16 KiB ends at `n`. */
  predicate EndsLine(data: string, n: nat) {
    n <= 16384 && n < |data| && data[n] == '\n' && '\n' !in data[..n]
  }

  lemma LineIsRead(input: Input, n: nat)
    ensures EndsLine(input.data, n) ==> RequestLine(input) == Ok(input.data[..n])
    ensures RequestLine(input).Ok? ==> EndsLine(input.data, IndexOf(input.data, '\n'))
  {
    if EndsLine(input.data, n) {
      forall k | 0 <= k < n
        ensures input.data[k] != '\n'
      {
        assert input.data[k] in input.data[..n];
      }
    }
  }

  /** What arrives, by the bytes received: a request is accepted exactly if the first line is of at most
      16 KiB, is one JSON value of the right form, and has the version, fields and audit it needs; it
      is refused with what was decoded if the line is there and the rest is not so; and without such a
      line nothing is decoded. */
  lemma ArrivesExactly(input: Input, n: nat, codec: Codec, t: M.Tables)
    ensures ArrivalOf(input, codec, t).Unread? <==> forall i: nat :: !EndsLine(input.data, i)
    ensures EndsLine(input.data, n) ==>
              var Decoded(r, whole) := codec.json(input.data[..n]);
              if whole && r.version == 2 && HasItsFields(r) && (r.audit.Some? ==> NamesAdmin(r.audit.value, codec, t))
              then ArrivalOf(input, codec, t) == Accepted(r)
              else if whole && r.version != 2 then ArrivalOf(input, codec, t) == Refused(r, UnsupportedVersion)
              else ArrivalOf(input, codec, t).Refused? && ArrivalOf(input, codec, t).partial == r
  {
    hide ValidateRequest, HasItsFields, NamesAdmin, RequestLine;
    LineIsRead(input, n);
    if EndsLine(input.data, n) {
      AcceptedExactly(codec.json(input.data[..n]).request, codec, t);
    }
    if ArrivalOf(input, codec, t).Unread? {
      forall i: nat
        ensures !EndsLine(input.data, i)
      {
        LineIsRead(input, i);
      }
    }
  }
}
