/** Readers of message bodies: of a known length, limited, and chunked (sections 6 and 7.1 of
    RFC 9112). */
module Bodies {
  import opened Text
  import opened Wire

  function NoEof(e: WireError): WireError {
    if e == Eof then UnexpectedEof else e
  }

  // ----- a body of known length -----

  class BodyReader {
    const br: BufReader
    var left: int

    constructor (br: BufReader, length: nat)
      ensures this.br == br && left == length
    {
      this.br, left := br, length;
    }

    /** The next bytes, never past the body; `Eof` is the clean end. */
    method Read(max: nat) returns (data: string, failure: Option<WireError>)
      modifies this, br
      ensures old(br.unread) == data + br.unread && |data| <= max
      ensures left == old(left) - |data|
      ensures old(left) <= 0 ==> data == "" && failure == Some(Eof)
      ensures old(left) > 0 ==> left >= 0
      ensures failure.None? ==> left > 0 && (max > 0 ==> data != "")
      ensures failure.Some? ==>
                || (failure.value == Eof && left <= 0)
                || (failure.value == UnexpectedEof && left > 0 && br.unread == "" && br.end == Closed)
                || (failure.value == Broken && br.unread == "" && br.end == Failed)
    {
      if left <= 0 {
        return "", Some(Eof);
      }
      var size: nat := max;
      if size > left {
        size := left;
      }
      var failed;
      data, failed := br.Read(size);
      left := left - |data|;
      failure := if failed.Some? then Some(EndError(failed.value)) else None;
      if failure == Some(Eof) && left > 0 {
        failure := Some(UnexpectedEof);
      }
      if failure.None? && left == 0 {
        failure := Some(Eof);
      }
    }

    /** Reading to the end through buffers of any sizes yields exactly `left` bytes when the stream
        goes on, and an error when it ends early. A stream that fails right after the last byte may
        give either. */
    method ReadAll() returns (r: Result<string, WireError>)
      requires left >= 0
      modifies this, br
      ensures |old(br.unread)| > old(left) || (|old(br.unread)| == old(left) && br.end == Closed) ==>
                r == Ok(old(br.unread[..left])) && br.unread == old(br.unread[left..])
      ensures |old(br.unread)| < old(left) ==> r == Err(if br.end == Closed then UnexpectedEof else Broken)
      ensures r.Ok? ==> |old(br.unread)| >= old(left) && r.value == old(br.unread[..left])
    {
      ghost var input, length := br.unread, left;
      var data := "";
      while true
        invariant input == data + br.unread
        invariant left == length - |data| && left >= 0
        decreases left
      {
        var max: int := *;
        if max < 1 {
          max := 1;
        }
        var chunk, failure := Read(max);
        data := data + chunk;
        assert input == data + br.unread;
        if failure.Some? {
          assert input[..|data|] == data && input[|data|..] == br.unread;
          return if failure.value == Eof then Ok(data) else Err(failure.value);
        }
      }
    }
  }

  // ----- a limited body -----

  datatype LimitEnd = TooLarge(limit: nat) | Source(end: End)

  datatype Rest = Rest(body: string, final: LimitEnd)

  class MaxBytesReader {
    const reader: BufReader
    const limit: nat
    var left: nat
    var err: Option<LimitEnd>

    constructor (reader: BufReader, limit: int)
      ensures this.reader == reader && this.limit == (if limit < 0 then 0 else limit)
      ensures left == this.limit && err == None
    {
      this.reader := reader;
      this.limit := if limit < 0 then 0 else limit;
      left, err := if limit < 0 then 0 else limit, None;
    }

    /** What is still to come: at most `left` bytes, and the error that follows them. */
    ghost function Remaining(): Rest
      reads this, reader
    {
      if err.Some? then Rest("", err.value)
      else if |reader.unread| > left then Rest(reader.unread[..left], TooLarge(limit))
      else Rest(reader.unread, Source(reader.end))
    }

    /** Whatever the buffer and the source's short reads, the next bytes are taken off what is still
        to come; an error comes at its end and stays. */
    method Read(max: nat) returns (data: string, failure: Option<LimitEnd>)
      modifies this, reader
      ensures old(Remaining()).body == data + Remaining().body && |data| <= max
      ensures Remaining().final == old(Remaining()).final
      ensures failure.Some? ==> failure.value == Remaining().final && Remaining().body == ""
      ensures failure.Some? ==> err == failure
      ensures old(err).Some? ==> data == "" && failure == old(err)
      ensures failure.None? && max > 0 ==> data != ""
    {
      if err.Some? {
        return "", err;
      }
      if max == 0 {
        return "", None;
      }
      var size := max;
      if size - 1 > left {
        size := left + 1;
      }
      ghost var input := reader.unread;
      var failed;
      data, failed := reader.Read(size);
      assert input[..|data|] == data;
      if |data| <= left {
        left := left - |data|;
        err := if failed.Some? then Some(Source(failed.value)) else None;
        return data, err;
      }
      data := data[..left];
      left := 0;
      err := Some(TooLarge(limit));
      failure := err;
    }

    /** Reading to the error through buffers of any sizes yields exactly the first `limit` bytes of the
        source, and the size error exactly when the source holds more. */
    method ReadAll() returns (data: string, final: LimitEnd)
      requires err.None? && left == limit
      modifies this, reader
      ensures data == old(if |reader.unread| > limit then reader.unread[..limit] else reader.unread)
      ensures final == TooLarge(limit) <==> |old(reader.unread)| > limit
      ensures final != TooLarge(limit) ==> final == Source(reader.end)
      ensures err == Some(final)
    {
      ghost var all := Remaining();
      data := "";
      while true
        invariant all.body == data + Remaining().body && Remaining().final == all.final
        decreases |Remaining().body|, err.None?
      {
        var max: int := *;
        if max < 1 {
          max := 1;
        }
        var chunk, failure := Read(max);
        data := data + chunk;
        if failure.Some? {
          return data, failure.value;
        }
      }
    }
  }
}
