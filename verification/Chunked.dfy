/** The chunked transfer coding (section 7.1 of RFC 9112). */
module Chunked {
  import opened Text
  import opened Wire
  import opened Bodies

  const MAX_CHUNK_LINE := 128
  const MAX_TRAILER := 8192

  // ----- chunk sizes -----

  predicate IsHexDigit(c: char) {
    '0' <= c <= '9' || 'a' <= c <= 'f' || 'A' <= c <= 'F'
  }

  function HexDigitValue(c: char): (d: nat)
    requires IsHexDigit(c)
    ensures d < 16
  {
    if c <= '9' then c as int - '0' as int
    else if c <= 'F' then c as int - 'A' as int + 10
    else c as int - 'a' as int + 10
  }

  predicate AllHex(s: string) {
    forall i :: 0 <= i < |s| ==> IsHexDigit(s[i])
  }

  function HexValue(s: string): nat
    requires AllHex(s)
  {
    if s == "" then 0 else 16 * HexValue(s[..|s| - 1]) + HexDigitValue(s[|s| - 1])
  }

  /** The size a chunk line declares; fifteen hexadecimal digits always fit. */
  function ChunkSize(line: string): Option<nat> {
    var text := TrimSpace(Cut(line, ';').0);
    if text == "" || |text| > 15 || !AllHex(text) then None else Some(HexValue(text))
  }

  // ----- decoding -----

  /** A chunk header, or the last chunk with its trailer: the size, and what follows. */
  function NextChunk(input: string, end: End): (r: Result<(nat, string), WireError>)
    ensures r.Ok? ==> |r.value.1| < |input|
    ensures r.Err? ==> r.error != Eof
  {
    match Line(input, end, MAX_CHUNK_LINE)
    case Err(e) => Err(NoEof(e))
    case Ok((line, rest)) =>
      match ChunkSize(line)
      case None => Err(Malformed("http: invalid chunk size"))
      case Some(0) =>
        FieldsShrink(rest, end, MAX_TRAILER, map[]);
        (match Fields(rest, end, MAX_TRAILER, map[])
         case Err(e) => Err(NoEof(e))
         case Ok((_, after)) => Ok((0, after)))
      case Some(n) => Ok((n, rest))
  }

  /** The CRLF after the data of a chunk. */
  function AfterData(input: string, end: End): (r: Result<string, WireError>)
    ensures r.Ok? ==> |r.value| < |input|
    ensures r.Err? ==> r.error != Eof
  {
    match Line(input, end, 0)
    case Err(e) => Err(NoEof(e))
    case Ok((line, rest)) =>
      if line != "" then Err(Malformed("http: malformed chunk terminator")) else Ok(rest)
  }

  /** The decoded bytes still to come, the error after them (`Eof` when it is the clean end), and
      what follows a clean end. */
  datatype Outcome = Outcome(body: string, final: WireError, rest: string)

  function Before(data: string, o: Outcome): Outcome {
    Outcome(data + o.body, o.final, o.rest)
  }

  function Decode(left: nat, done: bool, input: string, end: End): Outcome
    decreases |input|, if left == 0 then 1 else 0
  {
    if left > 0 then
      if |input| < left then Outcome(input, NoEof(EndError(end)), "")
      else
        match AfterData(input[left..], end)
        case Err(e) => Outcome(input[..left], e, "")
        case Ok(rest) => Before(input[..left], Decode(0, false, rest, end))
    else if done then Outcome("", Eof, input)
    else
      match NextChunk(input, end)
      case Err(e) => Outcome("", e, "")
      case Ok((n, rest)) => if n == 0 then Outcome("", Eof, rest) else Decode(n, false, rest, end)
  }

  /** What is to come once the end of a chunk was looked for. */
  function Onward(after: Result<string, WireError>, end: End): Outcome {
    match after
    case Err(e) => Outcome("", e, "")
    case Ok(rest) => Decode(0, false, rest, end)
  }

  class ChunkedReader {
    const br: BufReader
    var left: nat
    var done: bool
    var err: Option<WireError>

    constructor (br: BufReader)
      ensures this.br == br && left == 0 && !done && err == None
    {
      this.br := br;
      left, done, err := 0, false, None;
    }

    ghost predicate Valid()
      reads this
    {
      br.size > 0 && (done ==> left == 0) && (err == Some(Eof) ==> done)
    }

    /** What is still to come. */
    ghost function Remaining(): Outcome
      reads this, br
    {
      if err == Some(Eof) then Outcome("", Eof, br.unread)
      else if err.Some? then Outcome("", err.value, "")
      else Decode(left, done, br.unread, br.end)
    }

    method ExpectCrlf() returns (failure: Option<WireError>)
      requires br.size > 0
      modifies br
      ensures match AfterData(old(br.unread), br.end)
              case Err(e) => failure == Some(e)
              case Ok(rest) => failure == None && br.unread == rest
    {
      var line := ReadLine(br, 0);
      match line {
        case Err(e) => failure := Some(NoEof(e));
        case Ok(text) =>
          failure := if text != "" then Some(Malformed("http: malformed chunk terminator")) else None;
      }
    }

    method NextChunkHeader() returns (failure: Option<WireError>)
      requires Valid() && left == 0 && !done
      modifies this, br
      ensures Valid() && err == old(err)
      ensures match NextChunk(old(br.unread), br.end)
              case Err(e) => failure == Some(e) && left == 0 && !done
              case Ok((n, rest)) => failure == None && left == n && br.unread == rest && done == (n == 0)
    {
      hide Line, Fields, ChunkSize;
      var line := ReadLine(br, MAX_CHUNK_LINE);
      if line.Err? {
        return Some(NoEof(line.error));
      }
      var size := ChunkSize(line.value);
      if size.None? {
        return Some(Malformed("http: invalid chunk size"));
      }
      if size.value > 0 {
        left := size.value;
        return None;
      }
      var trailer := ReadHeader(br, MAX_TRAILER);
      if trailer.Err? {
        return Some(NoEof(trailer.error));
      }
      done := true;
      failure := None;
    }

    /** Whatever the buffer and the short reads below, the next decoded bytes are taken off what is
        still to come; an error comes at its end and stays. */
    method Read(max: nat) returns (data: string, failure: Option<WireError>)
      requires Valid()
      modifies this, br
      ensures Valid() && |data| <= max
      ensures old(Remaining()) == Before(data, Remaining())
      ensures failure.Some? ==> failure.value == Remaining().final && Remaining().body == "" && err == failure
      ensures old(err).Some? ==> data == "" && failure == old(err)
      ensures failure.None? && max > 0 ==> data != ""
    {
      hide Line, Fields, ChunkSize, AfterData, NextChunk;
      if err.Some? {
        return "", err;
      }
      if left == 0 {
        // one header suffices: it either ends the body or starts a chunk that is not empty
        if !done {
          var next := NextChunkHeader();
          if next.Some? {
            err := next;
            return "", err;
          }
        }
        if done {
          err := Some(Eof);
          return "", err;
        }
      }
      data, failure := ReadData(max);
    }

    method ReadData(max: nat) returns (data: string, failure: Option<WireError>)
      requires Valid() && left > 0 && err.None?
      modifies this, br
      ensures Valid() && |data| <= max
      ensures old(Remaining()) == Before(data, Remaining())
      ensures failure.Some? ==> failure.value == Remaining().final && Remaining().body == "" && err == failure
      ensures failure.None? && max > 0 ==> data != ""
    {
      hide Decode, AfterData;
      ghost var input, length := br.unread, left;
      var size := max;
      if size > left {
        size := left;
      }
      var failed;
      data, failed := br.Read(size);
      assert input[..|data|] == data && input[|data|..] == br.unread;
      left := left - |data|;
      if left > 0 {
        DecodeWithin(length, |data|, input, br.end);
      } else {
        DecodeAll(length, input, br.end);
      }
      if failed.Some? {
        err := Some(NoEof(EndError(failed.value)));
        if left == 0 {
          EndAfterData(br.end);
        } else {
          DecodeEnded(left, br.end);
        }
        return data, err;
      }
      if left == 0 {
        var terminator := ExpectCrlf();
        if terminator.Some? {
          err := terminator;
          return data, err;
        }
      }
      failure := None;
    }

    /** Reading to the end through buffers of any sizes yields what the input decodes to. */
    method ReadAll() returns (body: string, final: WireError)
      requires Valid()
      modifies this, br
      ensures body == old(Remaining()).body && final == old(Remaining()).final
      ensures final == Eof ==> br.unread == old(Remaining()).rest
    {
      hide Decode;
      ghost var all := Remaining();
      body := "";
      while true
        invariant Valid() && all == Before(body, Remaining())
        decreases |Remaining().body|, err.None?
      {
        var max: int := *;
        if max < 1 {
          max := 1;
        }
        var data, failure := Read(max);
        body := body + data;
        if failure.Some? {
          return body, failure.value;
        }
      }
    }
  }

  /** All data of a chunk comes off the front, and a CRLF must follow. */
  lemma DecodeAll(left: nat, input: string, end: End)
    requires 0 < left <= |input|
    ensures Decode(left, false, input, end) == Before(input[..left], Onward(AfterData(input[left..], end), end))
  {
    hide AfterData;
    assert input[..left] + "" == input[..left];
  }

  lemma DecodeEnded(left: nat, end: End)
    requires left > 0
    ensures Decode(left, false, "", end) == Outcome("", NoEof(EndError(end)), "")
  {
  }

  lemma DecodeShort(left: nat, input: string, end: End)
    requires |input| < left
    ensures Decode(left, false, input, end) == Outcome(input, NoEof(EndError(end)), "")
  {
  }

  /** A part of the data of a chunk comes off the front. */
  lemma DecodeWithin(left: nat, k: nat, input: string, end: End)
    requires k < left && k <= |input|
    ensures Decode(left, false, input, end) == Before(input[..k], Decode(left - k, false, input[k..], end))
  {
    hide Decode, AfterData, Onward;
    if |input| < left {
      DecodeShort(left, input, end);
      DecodeShort(left - k, input[k..], end);
      assert input == input[..k] + input[k..];
    } else {
      DecodeAll(left, input, end);
      DecodeAll(left - k, input[k..], end);
      assert input[k..][left - k..] == input[left..];
      assert input[..left] == input[..k] + input[k..][..left - k];
      BeforeTwice(input[..k], input[k..][..left - k], Onward(AfterData(input[left..], end), end));
    }
  }

  lemma BeforeTwice(a: string, b: string, o: Outcome)
    ensures Before(a, Before(b, o)) == Before(a + b, o)
  {
    assert a + (b + o.body) == a + b + o.body;
  }

  lemma EndAfterData(end: End)
    ensures AfterData("", end) == Err(NoEof(EndError(end)))
  {
  }

  lemma {:induction false} FieldsShrink(input: string, end: End, left: nat, h: Header)
    ensures Fields(input, end, left, h).Ok? ==> |Fields(input, end, left, h).value.1| < |input|
    decreases |input|
  {
    hide Line, Field;
    match Line(input, end, left) {
      case Err(_) =>
      case Ok((line, rest)) =>
        if line != "" && |line| + 2 <= left && Field(line).Ok? {
          FieldsShrink(rest, end, left - |line| - 2, Add(h, Field(line).value.0, Field(line).value.1));
        }
    }
  }
}
