/** Lines and header fields of HTTP/1.1 messages, read from and written to byte streams. */
module Wire {
  import opened Text
  import opened Order

  // ----- errors and streams -----

  datatype WireError =
    | Eof                                       // a clean end of the stream
    | UnexpectedEof                             // the end in the middle of something
    | Broken                                    // any other failure of the stream
    | Malformed(message: string)                // found by the client
    | Refused(status: nat, message: string)     // found by the line and header parser

  const BAD_REQUEST := 400
  const HEADER_FIELDS_TOO_LARGE := 431

  /** How a stream ends once its bytes are used up. */
  datatype End = Closed | Failed

  function EndError(end: End): WireError {
    match end
    case Closed => Eof
    case Failed => Broken
  }

  datatype SliceStatus = Found | BufferFull | Ended

  /** `bufio.Reader` over a connection: the bytes the peer will have sent in all, how they end, and
      the size of the buffer. */
  class BufReader {
    const end: End
    const size: nat
    var unread: string

    constructor (input: string, end: End, size: nat)
      requires size > 0
      ensures unread == input && this.end == end && this.size == size
    {
      this.end, this.size, unread := end, size, input;
    }

    /** `ReadSlice('\n')`. */
    method ReadSlice() returns (chunk: string, status: SliceStatus)
      requires size > 0
      modifies this
      ensures old(unread) == chunk + unread
      ensures status.Found? ==> chunk != "" && chunk[|chunk| - 1] == '\n' && '\n' !in chunk[..|chunk| - 1]
      ensures !status.Found? ==> '\n' !in chunk
      ensures status.BufferFull? ==> chunk != ""
      ensures status.Ended? ==> unread == ""
    {
      var i := IndexOf(unread, '\n');
      if i < |unread| && i < size {
        chunk, status := unread[..i + 1], Found;
        unread := unread[i + 1..];
        assert chunk[..i] == old(unread)[..i];
      } else if |unread| >= size {
        chunk, status := unread[..size], BufferFull;
        unread := unread[size..];
      } else {
        chunk, status := unread, Ended;
        unread := "";
      }
    }

    /** `Read` into a buffer of `max` bytes: some bytes, or the end. An end may come along with the
        last bytes. */
    method Read(max: nat) returns (data: string, failure: Option<End>)
      modifies this
      ensures old(unread) == data + unread && |data| <= max
      ensures failure.Some? ==> failure.value == end && unread == ""
      ensures max > 0 && data == "" ==> failure.Some?
    {
      var n: int := *;
      if n < 1 {
        n := 1;
      }
      if n > max {
        n := max;
      }
      if n > |unread| {
        n := |unread|;
      }
      data, unread := unread[..n], unread[n..];
      failure := None;
      var now: bool := *;
      if unread == "" && (now || data == "") && max > 0 {
        failure := Some(end);
      }
    }
  }

  // ----- lines -----

  /** The bytes of `input` up to its first line feed, and what follows. */
  function RawLine(input: string, end: End, limit: nat): (r: Result<(string, string), WireError>)
    ensures r.Ok? ==> 1 <= |r.value.0| <= limit + 2 && r.value.0 + r.value.1 == input
  {
    var i := IndexOf(input, '\n');
    if i == |input| then
      if |input| > limit + 2 then Err(Refused(HEADER_FIELDS_TOO_LARGE, "line too long"))
      else if end == Closed && |input| > 0 then Err(UnexpectedEof)
      else Err(EndError(end))
    else if i + 1 > limit + 2 then Err(Refused(HEADER_FIELDS_TOO_LARGE, "line too long"))
    else Ok((input[..i + 1], input[i + 1..]))
  }

  /** A raw line without its CRLF. */
  function StripLine(raw: string): (r: Result<string, WireError>)
    ensures r.Ok? ==> |r.value| + 2 == |raw|
  {
    if |raw| < 2 || raw[|raw| - 2] != '\r' then Err(Refused(BAD_REQUEST, "line not terminated by CRLF"))
    else if (0 as char) in raw[..|raw| - 2] then Err(Refused(BAD_REQUEST, "NUL byte in line"))
    else Ok(raw[..|raw| - 2])
  }

  /** The first line of `input` without its CRLF, and what follows it. */
  function Line(input: string, end: End, limit: nat): (r: Result<(string, string), WireError>)
    ensures r.Ok? ==> |r.value.1| + 2 <= |input| && |r.value.0| <= limit
  {
    match RawLine(input, end, limit)
    case Err(e) => Err(e)
    case Ok((raw, rest)) =>
      match StripLine(raw)
      case Err(e) => Err(e)
      case Ok(line) => Ok((line, rest))
  }

  lemma LineEnd(before: string, input: string)
    requires '\n' !in before
    ensures IndexOf(before + input, '\n') == |before| + IndexOf(input, '\n')
  {
    var i := IndexOf(input, '\n');
    if i < |input| {
      var s := before + input;
      assert s == (before + input[..i]) + ['\n'] + input[i + 1..];
      IndexOfAt(before + input[..i], '\n', input[i + 1..]);
    } else {
      assert forall k :: 0 <= k < |before + input| ==> (before + input)[k] != '\n';
    }
  }

  /** A line feed that ends `line + chunk` and stands nowhere else in it is the first one. */
  lemma LineFound(line: string, chunk: string, rest: string)
    requires '\n' !in line && chunk != "" && chunk[|chunk| - 1] == '\n' && '\n' !in chunk[..|chunk| - 1]
    ensures IndexOf(line + chunk + rest, '\n') == |line + chunk| - 1
  {
    var body := line + chunk[..|chunk| - 1];
    assert line + chunk + rest == body + ['\n'] + rest;
    IndexOfAt(body, '\n', rest);
  }

  /** The verdict on a collected line that ends in the first line feed. */
  function FinishRaw(line: string, ghost rest: string, ghost end: End, limit: nat): (r: Result<string, WireError>)
    requires line != "" && IndexOf(line + rest, '\n') == |line| - 1
    ensures match RawLine(line + rest, end, limit)
            case Ok((raw, after)) => r == Ok(raw) && after == rest
            case Err(e) => r == Err(e)
  {
    assert (line + rest)[..|line|] == line && (line + rest)[|line|..] == rest;
    if |line| > limit + 2 then Err(Refused(HEADER_FIELDS_TOO_LARGE, "line too long")) else Ok(line)
  }

  /** The loop of `readLine`: collect slices until one ends in a line feed. */
  method ReadRawLine(br: BufReader, limit: nat) returns (r: Result<string, WireError>)
    requires br.size > 0
    modifies br
    ensures match RawLine(old(br.unread), br.end, limit)
            case Ok((raw, rest)) => r == Ok(raw) && br.unread == rest
            case Err(e) => r == Err(e)
    ensures |br.unread| <= |old(br.unread)|
  {
    ghost var input := br.unread;
    var line := "";
    while true
      invariant input == line + br.unread
      invariant '\n' !in line && |line| <= limit + 2
      decreases |br.unread|
    {
      ghost var before := line;
      var chunk, status := br.ReadSlice();
      assert input == (line + chunk) + br.unread;
      line := line + chunk;
      if status.Found? {
        LineFound(before, chunk, br.unread);
        return FinishRaw(line, br.unread, br.end, limit);
      }
      LineEnd(line, br.unread);
      if |line| > limit + 2 {
        return Err(Refused(HEADER_FIELDS_TOO_LARGE, "line too long"));
      }
      if status.Ended? {
        assert input == line;
        return Err(if br.end == Closed && |line| > 0 then UnexpectedEof else EndError(br.end));
      }
    }
  }

  /** `readLine`, however the buffer splits the line. */
  method ReadLine(br: BufReader, limit: nat) returns (r: Result<string, WireError>)
    requires br.size > 0
    modifies br
    ensures match Line(old(br.unread), br.end, limit)
            case Ok((line, rest)) => r == Ok(line) && br.unread == rest
            case Err(e) => r == Err(e)
    ensures |br.unread| <= |old(br.unread)|
    ensures r.Ok? ==> |br.unread| < |old(br.unread)|
  {
    var raw := ReadRawLine(br, limit);
    r := match raw
         case Err(e) => Err(e)
         case Ok(line) => StripLine(line);
  }

  /** Text that can stand in a line: no line feed and no NUL. */
  predicate Inline(s: string) {
    '\n' !in s && (0 as char) !in s
  }

  lemma LineOf(line: string, rest: string, end: End, limit: nat)
    requires Inline(line) && |line| <= limit
    ensures Line(line + "\r\n" + rest, end, limit) == Ok((line, rest))
  {
    var input := line + "\r\n" + rest;
    assert input == (line + ['\r']) + ['\n'] + rest;
    IndexOfAt(line + ['\r'], '\n', rest);
    assert input[..|line|] == line && input[|line| + 2..] == rest;
  }

  /** Every line, by case: too long, not ended by CRLF, with a NUL in it, or there. */
  lemma LineByCase(text: string, rest: string, end: End, limit: nat)
    requires '\n' !in text
    ensures var r := Line(text + "\n" + rest, end, limit);
            if |text| > limit + 1 then r.Err? && r.error.Refused? && r.error.status == 431
            else if text == "" || text[|text| - 1] != '\r' || (0 as char) in text then
              r.Err? && r.error.Refused? && r.error.status == 400
            else r == Ok((text[..|text| - 1], rest))
    ensures var r := Line(text, end, limit);
            if |text| > limit + 2 then r.Err? && r.error.Refused? && r.error.status == 431
            else r == Err(if end == Failed then Broken else if text == "" then Eof else UnexpectedEof)
  {
    var input := text + "\n" + rest;
    assert input == text + ['\n'] + rest;
    IndexOfAt(text, '\n', rest);
    assert input[..|text| + 1] == text + "\n" && input[|text| + 1..] == rest;
    if text != "" && text[|text| - 1] == '\r' {
      assert text == text[..|text| - 1] + ['\r'];
      assert (text + "\n")[..|text| - 1] == text[..|text| - 1];
    }
  }

  // ----- characters -----

  predicate IsTokenByte(c: char) {
    || '0' <= c <= '9' || 'a' <= c <= 'z' || 'A' <= c <= 'Z'
    || c == '!' || '#' <= c <= '\'' || c == '*' || c == '+' || c == '-' || c == '.'
    || '^' <= c <= '`' || c == '|' || c == '~'
  }

  lemma TokenBytes(c: char)
    ensures IsTokenByte(c) <==> 'A' <= c <= 'Z' || 'a' <= c <= 'z' || '0' <= c <= '9' || c in "!#$%&'*+-.^_`|~"
  {
  }

  predicate IsToken(s: string) {
    s != "" && forall i :: 0 <= i < |s| ==> IsTokenByte(s[i])
  }

  predicate IsFieldByte(c: char) {
    (c as int >= 0x20 || c == '\t') && c as int != 0x7F
  }

  predicate ValidFieldValue(s: string) {
    forall i :: 0 <= i < |s| ==> IsFieldByte(s[i])
  }

  predicate IsHostByte(c: char) {
    || '0' <= c <= '9' || 'a' <= c <= 'z' || 'A' <= c <= 'Z'
    || c == '-' || c == '.' || c == '_' || c == '~' || c == '%' || c == ':' || c == '[' || c == ']'
  }

  lemma HostBytes(c: char)
    ensures IsHostByte(c) <==> 'A' <= c <= 'Z' || 'a' <= c <= 'z' || '0' <= c <= '9' || c in "-._~%:[]"
  {
  }

  /** A tab, and everything from the space on but DEL. */
  lemma FieldBytes(c: char)
    ensures IsFieldByte(c) <==> c == '\t' || ' ' <= c <= '~' || c as int >= 0x80
  {
  }

  predicate ValidHost(s: string) {
    s != "" && forall i :: 0 <= i < |s| ==> IsHostByte(s[i])
  }

  /** A valid value that reading does not trim. */
  predicate CleanValue(s: string) {
    ValidFieldValue(s) && (s == "" || (!IsBlank(s[0]) && !IsBlank(s[|s| - 1])))
  }

  lemma TokensAreInline(s: string)
    requires IsToken(s)
    ensures Inline(s) && ':' !in s && ' ' !in s && !IsBlank(s[0])
  {
  }

  lemma HostsAreClean(s: string)
    requires ValidHost(s)
    ensures CleanValue(s)
  {
  }

  lemma ValuesAreInline(s: string)
    requires ValidFieldValue(s)
    ensures Inline(s) && '\r' !in s
  {
  }

  // ----- header fields -----

  type Header = map<string, seq<string>>

  predicate AllTokenBytes(s: string) {
    forall i :: 0 <= i < |s| ==> IsTokenByte(s[i])
  }

  function CaseAt(s: string, i: nat): char
    requires i < |s|
  {
    if i == 0 || s[i - 1] == '-' then UpperChar(s[i]) else LowerChar(s[i])
  }

  /** `textproto.CanonicalMIMEHeaderKey`. */
  function CanonicalKey(s: string): (t: string)
    ensures |t| == |s|
  {
    if AllTokenBytes(s) then seq(|s|, i requires 0 <= i < |s| => CaseAt(s, i)) else s
  }

  lemma CanonicalKeyIdempotent(s: string)
    ensures CanonicalKey(CanonicalKey(s)) == CanonicalKey(s)
    ensures IsToken(s) ==> IsToken(CanonicalKey(s))
  {
    if AllTokenBytes(s) {
      var t := CanonicalKey(s);
      forall i | 0 <= i < |t|
        ensures IsTokenByte(t[i]) && (t[i] == '-' <==> s[i] == '-')
      {
        CaseOfTokenByte(s[i]);
      }
      SameDashes(s, t);
    }
  }

  lemma SameDashes(s: string, t: string)
    requires AllTokenBytes(s) && AllTokenBytes(t) && t == CanonicalKey(s)
    requires forall i :: 0 <= i < |t| ==> (t[i] == '-' <==> s[i] == '-')
    ensures CanonicalKey(t) == t
  {
    hide IsTokenByte;
    var u := CanonicalKey(t);
    forall i | 0 <= i < |t|
      ensures u[i] == t[i]
    {
      assert t[i] == CaseAt(s, i) && u[i] == CaseAt(t, i);
    }
  }

  lemma CaseOfTokenByte(c: char)
    requires IsTokenByte(c)
    ensures IsTokenByte(UpperChar(c)) && IsTokenByte(LowerChar(c))
    ensures (c == '-' <==> UpperChar(c) == '-') && (c == '-' <==> LowerChar(c) == '-')
  {
  }

  function Values(h: Header, key: string): seq<string> {
    var k := CanonicalKey(key);
    if k in h then h[k] else []
  }

  function Add(h: Header, key: string, value: string): Header {
    h[CanonicalKey(key) := Values(h, key) + [value]]
  }

  function Del(h: Header, key: string): Header {
    h - {CanonicalKey(key)}
  }

  function Get(h: Header, key: string): string {
    var vs := Values(h, key);
    if vs == [] then "" else vs[0]
  }

  // ----- reading fields -----

  /** One header line: its name and trimmed value. */
  function Field(line: string): Result<(string, string), WireError>
    requires line != ""
  {
    if IsBlank(line[0]) then Err(Refused(BAD_REQUEST, "obsolete header line folding"))
    else
      var (name, value, found) := Cut(line, ':');
      if !found || !IsToken(name) then Err(Refused(BAD_REQUEST, "malformed header line"))
      else
        var trimmed := TrimBlanks(value);
        if !ValidFieldValue(trimmed) then Err(Refused(BAD_REQUEST, "invalid header value"))
        else Ok((name, trimmed))
  }

  /** A header line is accepted exactly if it is a token, a colon and a valid value, blanks around the value
      aside; everything else is refused as a bad request. */
  lemma FieldExactly(line: string, name: string, a: string, value: string, b: string)
    requires line != ""
    ensures ':' !in name && AllBlank(a) && AllBlank(b) && line == name + ":" + (a + value + b)
            && (value != "" ==> value[0] !in {' ', '\t'} && value[|value| - 1] !in {' ', '\t'}) ==>
              (Field(line).Ok? <==> IsToken(name) && ValidFieldValue(value))
              && (Field(line).Ok? ==> Field(line).value == (name, value))
    ensures ':' !in line ==> Field(line).Err?
    ensures Field(line).Err? ==> Field(line).error.Refused? && Field(line).error.status == 400
  {
    hide IsToken, ValidFieldValue, TrimBlanks;
    if ':' !in line {
      CutNone(line, ':');
    }
    if ':' !in name && line == name + ":" + (a + value + b) {
      assert line == name + [':'] + (a + value + b);
      CutAt(name, ':', a + value + b);
      if AllBlank(a) && AllBlank(b) && (value != "" ==> value[0] !in {' ', '\t'} && value[|value| - 1] !in {' ', '\t'}) {
        TrimBlanksAround(a, value, b);
      }
      if IsToken(name) {
        TokensAreInline(name);
        TokenNotEmpty(name);
        assert line[0] == name[0];
      }
    }
  }

  lemma TokenNotEmpty(s: string)
    requires IsToken(s)
    ensures s != ""
  {
  }

  /** The fields up to the blank line added to `h`, and what follows; `left` bounds their size. */
  function Fields(input: string, end: End, left: nat, h: Header): Result<(Header, string), WireError>
    decreases |input|
  {
    match Line(input, end, left)
    case Err(e) => Err(e)
    case Ok((line, rest)) =>
      if line == "" then Ok((h, rest))
      else if left < |line| + 2 then Err(Refused(HEADER_FIELDS_TOO_LARGE, "headers too large"))
      else
        match Field(line)
        case Err(e) => Err(e)
        case Ok((name, value)) => Fields(rest, end, left - |line| - 2, Add(h, name, value))
  }

  /** `readHeader`. */
  method ReadHeader(br: BufReader, total: nat) returns (r: Result<Header, WireError>)
    requires br.size > 0
    modifies br
    ensures match Fields(old(br.unread), br.end, total, map[])
            case Ok((header, rest)) => r == Ok(header) && br.unread == rest
            case Err(e) => r == Err(e)
  {
    ghost var input := br.unread;
    var header: Header := map[];
    var remaining: int := total;
    while true
      invariant 0 <= remaining
      invariant Fields(input, br.end, total, map[]) == Fields(br.unread, br.end, remaining, header)
      decreases |br.unread|
    {
      var next := ReadLine(br, remaining);
      if next.Err? {
        return Err(next.error);
      }
      var line := next.value;
      if line == "" {
        return Ok(header);
      }
      remaining := remaining - (|line| + 2);
      if remaining < 0 {
        return Err(Refused(HEADER_FIELDS_TOO_LARGE, "headers too large"));
      }
      var field := Field(line);
      if field.Err? {
        return Err(field.error);
      }
      header := Add(header, field.value.0, field.value.1);
    }
  }

  // ----- writing fields -----

  /** One form for all strings that are equal under Unicode case folding to the same ASCII string:
      besides the other letter case, U+212A stands for `k` and U+017F for `s`. */
  function FoldText(s: string): string
    decreases |s|
  {
    if s == "" then ""
    else if |s| >= 3 && s[0] as int == 0xE2 && s[1] as int == 0x84 && s[2] as int == 0xAA then "k" + FoldText(s[3..])
    else if |s| >= 2 && s[0] as int == 0xC5 && s[1] as int == 0xBF then "s" + FoldText(s[2..])
    else [LowerChar(s[0])] + FoldText(s[1..])
  }

  lemma {:induction false} FoldAscii(s: string)
    requires IsAscii(s)
    ensures FoldText(s) == LowerAscii(s)
  {
    if s == "" {
      assert LowerAscii("") == "";
    } else {
      assert s[0] < (0x80 as char);
      FoldAscii(s[1..]);
      assert LowerAscii(s) == [LowerChar(s[0])] + LowerAscii(s[1..]);
    }
  }

  /** `strings.EqualFold` with an ASCII string. */
  predicate EqualFold(a: string, b: string) {
    FoldText(a) == FoldText(b)
  }

  /** A name and its canonical form differ in letter case only. */
  lemma CanonicalFolds(name: string)
    requires IsToken(name)
    ensures EqualFold(name, CanonicalKey(name))
  {
    hide FoldText;
    var t := CanonicalKey(name);
    assert AllTokenBytes(name);
    forall i | 0 <= i < |name|
      ensures name[i] < (0x80 as char) && t[i] < (0x80 as char) && LowerChar(t[i]) == LowerChar(name[i])
    {
      assert IsTokenByte(name[i]);
      CaseOfTokenByte(name[i]);
      assert t[i] == CaseAt(name, i);
    }
    FoldAscii(name);
    FoldAscii(t);
    assert LowerAscii(name) == LowerAscii(t);
  }

  /** The Kelvin sign folds to `k`, the long s to `s`. */
  lemma WideLettersFold(rest: string)
    ensures EqualFold([0xE2 as char, 0x84 as char, 0xAA as char] + rest, "k" + rest)
    ensures EqualFold([0xC5 as char, 0xBF as char] + rest, "s" + rest)
  {
    var kelvin, long := [0xE2 as char, 0x84 as char, 0xAA as char] + rest, [0xC5 as char, 0xBF as char] + rest;
    assert kelvin[3..] == rest && long[2..] == rest;
    assert ("k" + rest)[1..] == rest && ("s" + rest)[1..] == rest;
  }

  /** A token is skipped exactly if it equals one of the names, letter case aside. */
  lemma SkippedExactly(name: string, skip: seq<string>)
    requires IsToken(name) && forall i :: 0 <= i < |skip| ==> IsAscii(skip[i])
    ensures Skipped(name, skip) <==> exists i :: 0 <= i < |skip| && LowerAscii(name) == LowerAscii(skip[i])
  {
    hide FoldText;
    TokenIsAscii(name);
    FoldAscii(name);
    forall i | 0 <= i < |skip|
      ensures EqualFold(name, skip[i]) <==> LowerAscii(name) == LowerAscii(skip[i])
    {
      FoldAscii(skip[i]);
    }
  }

  lemma TokenIsAscii(s: string)
    requires IsToken(s)
    ensures IsAscii(s)
  {
    assert forall i :: 0 <= i < |s| ==> IsTokenByte(s[i]);
  }

  predicate Skipped(name: string, skip: seq<string>) {
    exists i :: 0 <= i < |skip| && EqualFold(name, skip[i])
  }

  /** Line breaks and NUL become spaces. */
  function Flatten(value: string): (t: string)
    ensures |t| == |value|
    ensures Inline(t)
  {
    seq(|value|, i requires 0 <= i < |value| =>
      if value[i] == '\r' || value[i] == '\n' || value[i] == (0 as char) then ' ' else value[i])
  }

  lemma FlattenAt(value: string, i: nat)
    requires i < |value|
    ensures Flatten(value)[i] == if value[i] in "\r\n\0" then ' ' else value[i]
  {
  }

  function FieldText(name: string, value: string): string {
    name + ": " + value + "\r\n"
  }

  function ValuesText(name: string, values: seq<string>): string {
    if values == [] then "" else FieldText(name, Flatten(values[0])) + ValuesText(name, values[1..])
  }

  /** The fields of one name, unless it is skipped. */
  function NameText(name: string, h: Header, skip: seq<string>): string
    requires name in h
  {
    if !IsToken(name) || Skipped(name, skip) then "" else ValuesText(name, h[name])
  }

  /** The fields of `h` under the given names, in that order. */
  function NamesText(names: seq<string>, h: Header, skip: seq<string>): string
    requires forall n :: n in names ==> n in h
  {
    if names == [] then "" else NameText(names[0], h, skip) + NamesText(names[1..], h, skip)
  }

  lemma {:induction false} SomeListing(keys: set<string>) returns (s: seq<string>)
    ensures Distinct(s) && Elements(s) == keys
  {
    if keys == {} {
      s := [];
    } else {
      var k :| k in keys;
      var rest := SomeListing(keys - {k});
      assert k !in Elements(rest);
      s := rest + [k];
      assert forall x :: x in s <==> x in Elements(rest) || x == k;
    }
  }

  lemma SortedKeysExist(keys: set<string>)
    ensures exists s :: IsSortedListing(s, keys)
  {
    var listing := SomeListing(keys);
    SortOfDistinct(listing);
    assert IsSortedListing(Sort(listing), keys);
  }

  ghost predicate IsSortedListing(s: seq<string>, keys: set<string>) {
    StrictlyAscending(s) && Elements(s) == keys
  }

  /** The keys in byte order. */
  ghost function SortedKeys(keys: set<string>): (s: seq<string>)
    ensures IsSortedListing(s, keys)
  {
    SortedKeysExist(keys);
    var s :| IsSortedListing(s, keys);
    s
  }

  /** `writeHeader`: the fields in the order of their names. */
  ghost function HeaderText(h: Header, skip: seq<string>): string {
    var names := SortedKeys(h.Keys);
    assert forall n :: n in names ==> n in Elements(names);
    NamesText(names, h, skip)
  }

  lemma {:induction false} NamesTextNext(names: seq<string>, i: nat, h: Header, skip: seq<string>)
    requires i < |names| && forall n :: n in names ==> n in h
    ensures NamesText(names[..i + 1], h, skip) == NamesText(names[..i], h, skip) + NameText(names[i], h, skip)
  {
    hide NameText;
    if i == 0 {
      assert names[..1][1..] == [];
    } else {
      NamesTextNext(names[1..], i - 1, h, skip);
      assert names[..i + 1][1..] == names[1..][..i] && names[..i][1..] == names[1..][..i - 1];
    }
  }

  lemma {:induction false} ValuesTextNext(name: string, values: seq<string>, i: nat)
    requires i < |values|
    ensures ValuesText(name, values[..i + 1])
         == ValuesText(name, values[..i]) + FieldText(name, Flatten(values[i]))
  {
    if i == 0 {
      assert values[..1][1..] == [];
    } else {
      ValuesTextNext(name, values[1..], i - 1);
      assert values[..i + 1][1..] == values[1..][..i] && values[..i][1..] == values[1..][..i - 1];
    }
  }

  method WriteValues(name: string, values: seq<string>) returns (out: string)
    ensures out == ValuesText(name, values)
  {
    out := "";
    for j := 0 to |values|
      invariant out == ValuesText(name, values[..j])
    {
      ValuesTextNext(name, values, j);
      out := out + FieldText(name, Flatten(values[j]));
    }
    assert values[..|values|] == values;
  }

  method WriteNames(names: seq<string>, h: Header, skip: seq<string>) returns (out: string)
    requires forall n :: n in names ==> n in h
    ensures out == NamesText(names, h, skip)
  {
    out := "";
    for i := 0 to |names|
      invariant out == NamesText(names[..i], h, skip)
    {
      NamesTextNext(names, i, h, skip);
      var name := names[i];
      if !IsToken(name) {
        continue;
      }
      if Skipped(name, skip) {
        continue;
      }
      var text := WriteValues(name, h[name]);
      out := out + text;
    }
    assert names[..|names|] == names;
  }

  method WriteHeader(h: Header, skip: seq<string>) returns (out: string)
    ensures out == HeaderText(h, skip)
  {
    var names := InAnyOrder(h.Keys);
    SortOfDistinct(names);
    names := Sort(names);
    AscendingUnique(names, SortedKeys(h.Keys));
    assert forall n :: n in names ==> n in Elements(names);
    out := WriteNames(names, h, skip);
  }
}
