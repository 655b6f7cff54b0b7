/** Every chunking of a body decodes to the body, and no truncation passes for its end. */
module ChunkedRoundTrip {
  import opened Text
  import opened Utf8
  import opened Wire
  import opened Bodies
  import opened Chunked

  /** One chunk: its size in hexadecimal, its extensions, its data. */
  datatype Chunk = Chunk(size: string, ext: string, data: string)

  /** The last chunk: zeros, its extensions, and the trailer lines. */
  datatype Last = Last(size: string, ext: string, trailer: seq<string>)

  /** The digit `d` in base 16. */
  function SmallHexDigit(d: nat): char
    requires d < 16
  {
    if d < 10 then ('0' as int + d) as char else ('a' as int + d - 10) as char
  }

  /** `t` is `n` in base 16, with any number of leading zeros. */
  predicate Spells(t: string, n: nat) {
    if t == "" then n == 0 else t[|t| - 1] == SmallHexDigit(n % 16) && Spells(t[..|t| - 1], n / 16)
  }

  /** `s` is `n` in base 16, its letters in any case, in at most fifteen digits. */
  predicate SizeText(s: string, n: nat) {
    1 <= |s| <= 15 && Spells(LowerAscii(s), n)
  }

  /** What may follow the size: extensions from the first `;` on, with white space before it
      (section 7.1.1 of RFC 9112). */
  predicate Extension(e: string) {
    Inline(e) && Blank(e[..IndexOf(e, ';')])
  }

  predicate Blank(s: string) {
    forall i :: 0 <= i < |s| ==> IsBlank(s[i])
  }

  predicate ChunkLine(size: string, ext: string, n: nat) {
    SizeText(size, n) && Extension(ext) && |size| + |ext| <= 128
  }

  predicate ValidChunk(c: Chunk) {
    c.data != "" && ChunkLine(c.size, c.ext, |c.data|)
  }

  predicate TrailerLine(line: string) {
    line != "" && Inline(line) && Field(line).Ok?
  }

  predicate ValidLast(l: Last) {
    && ChunkLine(l.size, l.ext, 0)
    && (forall i :: 0 <= i < |l.trailer| ==> TrailerLine(l.trailer[i]))
    && |TrailerText(l.trailer)| <= 8192
  }

  function TrailerText(lines: seq<string>): string {
    if lines == [] then "" else lines[0] + "\r\n" + TrailerText(lines[1..])
  }

  function ChunkText(c: Chunk): string {
    c.size + c.ext + "\r\n" + (c.data + "\r\n")
  }

  function LastText(l: Last): string {
    l.size + l.ext + "\r\n" + (TrailerText(l.trailer) + "\r\n")
  }

  function Encode(chunks: seq<Chunk>, last: Last): string {
    if chunks == [] then LastText(last) else ChunkText(chunks[0]) + Encode(chunks[1..], last)
  }

  function Body(chunks: seq<Chunk>): string {
    if chunks == [] then "" else chunks[0].data + Body(chunks[1..])
  }

  ghost predicate ValidChunks(chunks: seq<Chunk>) {
    forall i :: 0 <= i < |chunks| ==> ValidChunk(chunks[i])
  }

  // ----- one line -----

  lemma {:induction false} SpelledValue(s: string, n: nat)
    requires Spells(LowerAscii(s), n)
    ensures AllHex(s) && HexValue(s) == n
  {
    if s != "" {
      var front := s[..|s| - 1];
      assert LowerAscii(s)[..|s| - 1] == LowerAscii(front);
      SpelledValue(front, n / 16);
      assert LowerChar(s[|s| - 1]) == SmallHexDigit(n % 16);
      assert forall i :: 0 <= i < |front| ==> IsHexDigit(front[i]);
    }
  }

  lemma {:induction false} ValueIsSpelled(s: string)
    requires AllHex(s)
    ensures Spells(LowerAscii(s), HexValue(s))
  {
    if s != "" {
      var front := s[..|s| - 1];
      assert LowerAscii(s)[..|s| - 1] == LowerAscii(front);
      assert IsHexDigit(s[|s| - 1]);
      assert forall i :: 0 <= i < |front| ==> IsHexDigit(front[i]);
      ValueIsSpelled(front);
      assert HexValue(s) / 16 == HexValue(front) && HexValue(s) % 16 == HexDigitValue(s[|s| - 1]);
    }
  }

  /** A chunk line is read as a size exactly if its text before the first semicolon, white space aside, spells
      that size in at most fifteen digits. */
  lemma ChunkSizeExactly(a: string, text: string, b: string, ext: string, n: nat)
    requires IsSpaces(a) && IsTrimmed(text) && IsSpaces(b) && ';' !in a + text + b
    requires ext == "" || ext[0] == ';'
    ensures ChunkSize(a + text + b + ext) == Some(n) <==> SizeText(text, n)
  {
    hide TrimSpace, IsSpaces, IsTrimmed;
    var before := a + text + b;
    if ext == "" {
      assert before + ext == before;
      CutNone(before, ';');
    } else {
      assert before + ext == before + [';'] + ext[1..];
      CutAt(before, ';', ext[1..]);
    }
    TrimAround(a, text, b);
    if SizeText(text, n) {
      SpelledValue(text, n);
    }
    if AllHex(text) {
      ValueIsSpelled(text);
    }
  }

  lemma HexIsTrimmed(s: string, blanks: string)
    requires AllHex(s) && s != "" && Blank(blanks)
    ensures TrimSpace(s + blanks) == s
  {
    assert IsHexDigit(s[0]) && s[0] == (s + blanks)[0];
    assert |s| >= 2 ==> IsHexDigit(s[1]);
    assert SpaceAtStart(s + blanks) == 0;
    RightIsTrimmed(s, blanks);
  }

  lemma {:induction false} RightIsTrimmed(s: string, blanks: string)
    requires AllHex(s) && s != "" && Blank(blanks)
    ensures TrimRight(s + blanks) == s
    decreases |blanks|
  {
    hide AllHex, SpaceAtEnd;
    if blanks == "" {
      assert s + blanks == s;
      HexAtEnd(s);
    } else {
      var less := blanks[..|blanks| - 1];
      BlankAtEnd(s + blanks);
      assert (s + blanks)[..|s + blanks| - 1] == s + less;
      RightIsTrimmed(s, less);
    }
  }

  lemma HexAtEnd(s: string)
    requires AllHex(s) && s != ""
    ensures SpaceAtEnd(s) == 0
  {
    assert IsHexDigit(s[|s| - 1]);
    assert |s| >= 2 ==> IsHexDigit(s[|s| - 2]);
    assert |s| >= 3 ==> IsHexDigit(s[|s| - 3]);
  }

  lemma BlankAtEnd(s: string)
    requires s != "" && IsBlank(s[|s| - 1])
    ensures SpaceAtEnd(s) == 1
  {
  }

  lemma ChunkLineIsRead(size: string, ext: string, n: nat)
    requires ChunkLine(size, ext, n)
    ensures ChunkSize(size + ext) == Some(n) && Inline(size + ext)
  {
    hide TrimSpace;
    SpelledValue(size, n);
    var i := IndexOf(ext, ';');
    assert forall k :: 0 <= k < |size| ==> IsHexDigit(size[k]);
    if i == |ext| {
      assert ext[..i] == ext;
      CutNone(size + ext, ';');
    } else {
      assert size + ext == (size + ext[..i]) + [';'] + ext[i + 1..];
      CutAt(size + ext[..i], ';', ext[i + 1..]);
    }
    HexIsTrimmed(size, ext[..i]);
  }

  // ----- decoding what was encoded -----

  lemma EmptyLine(rest: string, end: End)
    ensures AfterData("\r\n" + rest, end) == Ok(rest)
  {
    LineOf("", rest, end, 0);
    assert "" + "\r\n" + rest == "\r\n" + rest;
  }

  lemma DecodesChunk(c: Chunk, input: string, end: End)
    requires ValidChunk(c)
    ensures Decode(0, false, ChunkText(c) + input, end) == Before(c.data, Decode(0, false, input, end))
  {
    hide Line, AfterData, ChunkSize;
    var line, rest := c.size + c.ext, c.data + "\r\n" + input;
    ChunkLineIsRead(c.size, c.ext, |c.data|);
    assert ChunkText(c) + input == line + "\r\n" + rest;
    LineOf(line, rest, end, MAX_CHUNK_LINE);
    assert NextChunk(ChunkText(c) + input, end) == Ok((|c.data|, rest));
    assert rest[..|c.data|] == c.data && rest[|c.data|..] == "\r\n" + input;
    EmptyLine(input, end);
  }

  lemma {:induction false} TrailerIsRead(lines: seq<string>, rest: string, end: End, left: nat, h: Header)
    requires forall i :: 0 <= i < |lines| ==> TrailerLine(lines[i])
    requires |TrailerText(lines)| <= left
    ensures Fields(TrailerText(lines) + "\r\n" + rest, end, left, h).Ok?
    ensures Fields(TrailerText(lines) + "\r\n" + rest, end, left, h).value.1 == rest
    decreases |lines|
  {
    hide Line, Field, Add;
    if lines == [] {
      assert TrailerText(lines) + "\r\n" + rest == "" + "\r\n" + rest;
      LineOf("", rest, end, left);
    } else {
      var line, more := lines[0], TrailerText(lines[1..]) + "\r\n" + rest;
      assert TrailerLine(line);
      assert TrailerText(lines) + "\r\n" + rest == line + "\r\n" + more;
      LineOf(line, more, end, left);
      var (name, value) := Field(line).value;
      TrailerIsRead(lines[1..], rest, end, left - |line| - 2, Add(h, name, value));
    }
  }

  lemma DecodesLast(l: Last, suffix: string, end: End)
    requires ValidLast(l)
    ensures Decode(0, false, LastText(l) + suffix, end) == Outcome("", Eof, suffix)
  {
    hide Line, Fields, ChunkSize, TrailerText;
    var line, rest := l.size + l.ext, TrailerText(l.trailer) + "\r\n" + suffix;
    ChunkLineIsRead(l.size, l.ext, 0);
    assert LastText(l) + suffix == line + "\r\n" + rest;
    LineOf(line, rest, end, MAX_CHUNK_LINE);
    TrailerIsRead(l.trailer, suffix, end, MAX_TRAILER, map[]);
  }

  /** Any split into chunks, with any extensions and trailer, decodes to the body, ends cleanly, and
      consumes exactly the encoding. */
  lemma {:induction false} DecodesEncoding(chunks: seq<Chunk>, last: Last, suffix: string, end: End)
    requires ValidChunks(chunks) && ValidLast(last)
    ensures Decode(0, false, Encode(chunks, last) + suffix, end) == Outcome(Body(chunks), Eof, suffix)
  {
    hide Decode, ChunkText, ValidChunk, ValidLast;
    if chunks == [] {
      DecodesLast(last, suffix, end);
    } else {
      var more := Encode(chunks[1..], last) + suffix;
      assert Encode(chunks, last) + suffix == ChunkText(chunks[0]) + more;
      DecodesChunk(chunks[0], more, end);
      DecodesEncoding(chunks[1..], last, suffix, end);
    }
  }

  // ----- a clean end does not depend on what follows -----

  lemma IndexStable(p: string, x: string, c: char)
    requires IndexOf(p, c) < |p|
    ensures IndexOf(p + x, c) == IndexOf(p, c)
  {
    var i := IndexOf(p, c);
    assert p + x == p[..i] + [c] + (p[i + 1..] + x);
    IndexOfAt(p[..i], c, p[i + 1..] + x);
  }

  lemma LineStable(p: string, x: string, end: End, end': End, limit: nat)
    requires Line(p, end, limit).Ok?
    ensures Line(p + x, end', limit) == Ok((Line(p, end, limit).value.0, Line(p, end, limit).value.1 + x))
  {
    var i := IndexOf(p, '\n');
    IndexStable(p, x, '\n');
    assert (p + x)[..i + 1] == p[..i + 1] && (p + x)[i + 1..] == p[i + 1..] + x;
  }

  lemma {:induction false} FieldsStable(p: string, x: string, end: End, end': End, left: nat, h: Header)
    requires Fields(p, end, left, h).Ok?
    ensures Fields(p + x, end', left, h) == Ok((Fields(p, end, left, h).value.0, Fields(p, end, left, h).value.1 + x))
    decreases |p|
  {
    hide Line, Field, Add;
    var (line, rest) := Line(p, end, left).value;
    LineStable(p, x, end, end', left);
    if line != "" {
      var (name, value) := Field(line).value;
      FieldsStable(rest, x, end, end', left - |line| - 2, Add(h, name, value));
    }
  }

  lemma NextChunkStable(p: string, x: string, end: End, end': End)
    requires NextChunk(p, end).Ok?
    ensures NextChunk(p + x, end') == Ok((NextChunk(p, end).value.0, NextChunk(p, end).value.1 + x))
  {
    hide Line, Fields, ChunkSize;
    var (line, rest) := Line(p, end, MAX_CHUNK_LINE).value;
    LineStable(p, x, end, end', MAX_CHUNK_LINE);
    if ChunkSize(line) == Some(0) {
      FieldsStable(rest, x, end, end', MAX_TRAILER, map[]);
    }
  }

  lemma {:induction false} DecodeStable(left: nat, done: bool, p: string, x: string, end: End, end': End)
    requires Decode(left, done, p, end).final == Eof
    ensures Decode(left, done, p + x, end')
         == Outcome(Decode(left, done, p, end).body, Eof, Decode(left, done, p, end).rest + x)
    decreases |p|, if left == 0 then 1 else 0
  {
    hide Line, NextChunk;
    if left > 0 {
      var rest := AfterData(p[left..], end).value;
      LineStable(p[left..], x, end, end', 0);
      assert (p + x)[..left] == p[..left] && (p + x)[left..] == p[left..] + x;
      DecodeStable(0, false, rest, x, end, end');
    } else if !done {
      NextChunkStable(p, x, end, end');
      var (n, rest) := NextChunk(p, end).value;
      if n > 0 {
        DecodeStable(n, false, rest, x, end, end');
      }
    }
  }

  /** No strict prefix of an encoding ends cleanly. */
  lemma TruncationIsNoticed(chunks: seq<Chunk>, last: Last, cut: nat, end: End)
    requires ValidChunks(chunks) && ValidLast(last) && cut < |Encode(chunks, last)|
    ensures Decode(0, false, Encode(chunks, last)[..cut], end).final != Eof
  {
    hide Decode, Encode, ValidLast;
    var all := Encode(chunks, last);
    var p, x := all[..cut], all[cut..];
    assert p + x == all && all + "" == all;
    DecodesEncoding(chunks, last, "", end);
    if Decode(0, false, p, end).final == Eof {
      DecodeStable(0, false, p, x, end, end);
    }
  }
}
