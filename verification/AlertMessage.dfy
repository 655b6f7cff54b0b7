/** Operator messages and their HTML form, which the store recognises by printing it again. */
module AlertMessage {
  import opened Text
  import opened Utf8

  const MAX_BYTES := 4096

  datatype Problem = Empty | TooLarge | InvalidUtf8 | ControlCharacter | FormatCharacter

  /** The Unicode categories Cf and So, and what `html.UnescapeString` makes of an ampersand that
      starts none of the five references `html.EscapeString` writes: its output and the number of
      bytes it consumes. Nothing is assumed of any of the three. */
  datatype Tables = Tables(
    format: Rune -> bool,
    symbol: Rune -> bool,
    reference: string -> (string, nat))

  // ----- acceptance -----

  function Normalize(s: string): string {
    ReplaceAll(ReplaceAll(s, "\r\n", "\n"), "\r", "\n")
  }

  /** Category Cc. */
  predicate IsControl(c: Rune) {
    c < 0x20 || 0x7F <= c < 0xA0
  }

  predicate IsEmojiSequenceModifier(c: Rune) {
    c == 0xFE0E || c == 0xFE0F || 0x1F3FB <= c <= 0x1F3FF
  }

  /** The joiner at `index` stands between two symbols, modifiers of the left one aside. */
  ghost predicate JoinsSymbols(cs: seq<Rune>, index: nat, t: Tables) {
    exists l: nat :: JoinsFrom(cs, l, index, t)
  }

  predicate JoinsFrom(cs: seq<Rune>, l: nat, index: nat, t: Tables) {
    && l < index && index + 1 < |cs|
    && !IsEmojiSequenceModifier(cs[l])
    && (forall k :: l < k < index ==> IsEmojiSequenceModifier(cs[k]))
    && t.symbol(cs[l]) && t.symbol(cs[index + 1])
  }

  method ValidEmojiJoiner(cs: seq<Rune>, index: nat, t: Tables) returns (ok: bool)
    requires index < |cs|
    ensures ok <==> JoinsSymbols(cs, index, t)
  {
    var left: int := index - 1;
    while left >= 0 && IsEmojiSequenceModifier(cs[left])
      invariant -1 <= left < index
      invariant forall k :: left < k < index ==> IsEmojiSequenceModifier(cs[k])
    {
      left := left - 1;
    }
    var right := index + 1;
    if left < 0 || right >= |cs| {
      return false;
    }
    ok := t.symbol(cs[left]) && t.symbol(cs[right]);
    assert ok ==> JoinsFrom(cs, left, index, t);
    assert forall l: nat :: JoinsFrom(cs, l, index, t) ==> l == left;
  }

  /** What is wrong with the rune at `i`, if anything. */
  ghost function RuneProblem(cs: seq<Rune>, i: nat, t: Tables): Option<Problem>
    requires i < |cs|
  {
    var c := cs[i];
    if c == 10 || c == 9 then None
    else if IsControl(c) then Some(ControlCharacter)
    else if t.format(c) && !(c == 0x200D && JoinsSymbols(cs, i, t)) then Some(FormatCharacter)
    else None
  }

  ghost function FirstProblem(cs: seq<Rune>, i: nat, t: Tables): Option<Problem>
    requires i <= |cs|
    decreases |cs| - i
  {
    if i == |cs| then None
    else if RuneProblem(cs, i, t).Some? then RuneProblem(cs, i, t)
    else FirstProblem(cs, i + 1, t)
  }

  ghost function Parse(value: string, t: Tables): Result<string, Problem> {
    if |value| > MAX_BYTES then Err(TooLarge)
    else if Runes(value).None? then Err(InvalidUtf8)
    else
      var normal := Normalize(value);
      if TrimSpace(normal) == "" then Err(Empty)
      else
        NormalizeKeepsRunes(value);
        match FirstProblem(Runes(normal).value, 0, t)
        case Some(problem) => Err(problem)
        case None => Ok(normal)
  }

  method ParseMessage(value: string, t: Tables) returns (r: Result<string, Problem>)
    ensures r == Parse(value, t)
  {
    if |value| > MAX_BYTES {
      return Err(TooLarge);
    }
    if Runes(value).None? {
      return Err(InvalidUtf8);
    }
    var normal := Normalize(value);
    if TrimSpace(normal) == "" {
      return Err(Empty);
    }
    NormalizeKeepsRunes(value);
    var cs := Runes(normal).value;
    for index := 0 to |cs|
      invariant FirstProblem(cs, 0, t) == FirstProblem(cs, index, t)
    {
      var c := cs[index];
      if c == 10 || c == 9 {
        continue;
      }
      if IsControl(c) {
        return Err(ControlCharacter);
      }
      if t.format(c) {
        if c == 0x200D {
          var ok := ValidEmojiJoiner(cs, index, t);
          if ok {
            continue;
          }
        }
        return Err(FormatCharacter);
      }
    }
    r := Ok(normal);
  }

  // ----- rendering -----

  function EscapeChar(c: char): string {
    match c
    case '&' => "&amp;"
    case '\'' => "&#39;"
    case '<' => "&lt;"
    case '>' => "&gt;"
    case '"' => "&#34;"
    case _ => [c]
  }

  /** `html.EscapeString`. */
  function Escape(s: string): string {
    if s == "" then "" else EscapeChar(s[0]) + Escape(s[1..])
  }

  /** The character of an escape at the start of `s`, and its length. */
  function KnownReference(s: string): (r: Option<(char, nat)>)
    ensures r.Some? ==> 1 <= r.value.1 <= |s|
  {
    if "&amp;" <= s then Some(('&', 5))
    else if "&#39;" <= s then Some(('\'', 5))
    else if "&lt;" <= s then Some(('<', 4))
    else if "&gt;" <= s then Some(('>', 4))
    else if "&#34;" <= s then Some(('"', 5))
    else None
  }

  /** `html.UnescapeString`. */
  function Unescape(s: string, t: Tables): string
    decreases |s|
  {
    if s == "" then ""
    else if s[0] != '&' then [s[0]] + Unescape(s[1..], t)
    else
      match KnownReference(s)
      case Some((c, n)) => [c] + Unescape(s[n..], t)
      case None =>
        var (out, consumed) := t.reference(s);
        out + Unescape(s[if 1 <= consumed <= |s| then consumed else 1..], t)
  }

  /** `Message.EscapedHTML`. */
  function Render(message: string): string {
    ReplaceAll(Escape(message), "\n", "<br>\n")
  }

  /** `ParseManagedHTML`: the message whose rendering is exactly `value`. */
  ghost function ParseManaged(value: string, t: Tables): Option<string> {
    var decoded := Unescape(ReplaceAll(value, "<br>\n", "\n"), t);
    match Parse(decoded, t)
    case Err(_) => None
    case Ok(message) => if Render(message) == value then Some(message) else None
  }

  method ParseManagedHtml(value: string, t: Tables) returns (r: Option<string>)
    ensures r == ParseManaged(value, t)
  {
    var decoded := Unescape(ReplaceAll(value, "<br>\n", "\n"), t);
    var parsed := ParseMessage(decoded, t);
    match parsed {
      case Err(_) => r := None;
      case Ok(message) =>
        r := if Render(message) == value then Some(message) else None;
    }
  }

  /** `m` is the value of some message that `Parse` returned. */
  ghost predicate IsMessage(m: string, t: Tables) {
    exists value :: Parse(value, t) == Ok(m)
  }

  // ----- Normalize -----

  lemma {:induction false} RunesOfConcat(a: string, b: string)
    requires Runes(a).Some?
    ensures Runes(a + b).Some? <==> Runes(b).Some?
    ensures Runes(b).Some? ==> Runes(a + b).value == Runes(a).value + Runes(b).value
    decreases |a|
  {
    if a == "" {
      assert a + b == b;
    } else {
      var (r, n) := FirstRune(a).value;
      FirstRuneExtends(a, b);
      assert (a + b)[n..] == a[n..] + b;
      RunesOfConcat(a[n..], b);
      if Runes(b).Some? {
        assert [r] + (Runes(a[n..]).value + Runes(b).value) == Runes(a).value + Runes(b).value;
      }
    }
  }

  /** An ASCII character never lies inside a longer rune. */
  lemma {:induction false} RunesAroundAscii(a: string, c: char, b: string)
    requires c < (0x80 as char) && Runes(a + [c] + b).Some?
    ensures Runes(a).Some? && Runes(b).Some?
    decreases |a|
  {
    var s := a + [c] + b;
    if a == "" {
      assert s[1..] == b;
    } else {
      var (r, n) := FirstRune(s).value;
      assert s[|a|] == c;
      assert n <= |a|;
      assert FirstRune(a) == FirstRune(s);
      assert s[n..] == a[n..] + [c] + b;
      RunesAroundAscii(a[n..], c, b);
    }
  }

  /** Replacing an ASCII line end by an ASCII line end keeps a string valid UTF-8. */
  lemma {:induction false} ReplaceKeepsRunes(s: string, find: string, put: string)
    requires Runes(s).Some?
    requires find in {"\r\n", "\r"} && put == "\n"
    ensures Runes(ReplaceAll(s, find, put)).Some?
    decreases |s|
  {
    if |s| < |find| {
    } else if find <= s {
      assert s == "" + [s[0]] + s[1..];
      RunesAroundAscii("", s[0], s[1..]);
      if find == "\r\n" {
        assert s[1..] == "" + [s[1]] + s[2..];
        RunesAroundAscii("", s[1], s[2..]);
      }
      ReplaceKeepsRunes(s[|find|..], find, put);
      RunesOfConcat(put, ReplaceAll(s[|find|..], find, put));
    } else {
      var (r, n) := FirstRune(s).value;
      RuneIsCopied(s, find, put, n);
      ReplaceKeepsRunes(s[n..], find, put);
      FirstRuneAlone(s);
      RunesOfConcat(s[..n], ReplaceAll(s[n..], find, put));
    }
  }

  lemma FirstRuneAlone(s: string)
    requires FirstRune(s).Some?
    ensures Runes(s[..FirstRune(s).value.1]).Some?
  {
    var (r, n) := FirstRune(s).value;
    assert FirstRune(s[..n]) == FirstRune(s);
    assert s[..n][n..] == "";
    assert Runes(s[..n][n..]) == Some([]);
  }

  /** Nothing matches at the start of `s`: its first character is copied. */
  lemma CopyHead(s: string, find: string, put: string)
    requires find != "" && s != "" && !(find <= s)
    ensures ReplaceAll(s, find, put) == [s[0]] + ReplaceAll(s[1..], find, put)
  {
    if |s| < |find| {
      assert s == [s[0]] + s[1..];
    }
  }

  /** No byte of a rune starts a match. */
  lemma {:induction false} RuneIsCopied(s: string, find: string, put: string, n: nat)
    requires find != ""
    requires 1 <= n <= |s| && !(find <= s)
    requires forall i :: 1 <= i < n ==> s[i] != find[0]
    ensures ReplaceAll(s, find, put) == s[..n] + ReplaceAll(s[n..], find, put)
  {
    CopyHead(s, find, put);
    hide ReplaceAll;
    assert s[..1] == [s[0]];
    if n > 1 {
      assert s[1..][0] == s[1];
      RuneIsCopied(s[1..], find, put, n - 1);
      assert s[1..][n - 1..] == s[n..];
      assert s[..n] == [s[0]] + s[1..][..n - 1];
    }
  }

  lemma NormalizeKeepsRunes(s: string)
    requires Runes(s).Some?
    ensures Runes(Normalize(s)).Some?
  {
    ReplaceKeepsRunes(s, "\r\n", "\n");
    ReplaceKeepsRunes(ReplaceAll(s, "\r\n", "\n"), "\r", "\n");
  }

  lemma {:induction false} ReplaceShrinks(s: string, find: string, put: string)
    requires find != "" && |put| <= |find|
    ensures |ReplaceAll(s, find, put)| <= |s|
    decreases |s|
  {
    if |s| < |find| {
    } else if find <= s {
      ReplaceShrinks(s[|find|..], find, put);
    } else {
      ReplaceShrinks(s[1..], find, put);
    }
  }

  lemma {:induction false} NoReturnsLeft(s: string)
    ensures '\r' !in ReplaceAll(s, "\r", "\n")
  {
    if s != "" {
      NoReturnsLeft(s[1..]);
    }
  }

  lemma {:induction false} NothingToReplace(s: string, find: string, put: string)
    requires find != "" && find[0] !in s
    ensures ReplaceAll(s, find, put) == s
    decreases |s|
  {
    if |s| >= |find| {
      NothingToReplace(s[1..], find, put);
    }
  }

  lemma NormalizeIdempotent(s: string)
    ensures Normalize(Normalize(s)) == Normalize(s)
    ensures '\r' !in Normalize(s)
    ensures |Normalize(s)| <= |s|
  {
    var step := ReplaceAll(s, "\r\n", "\n");
    NoReturnsLeft(step);
    ReplaceShrinks(s, "\r\n", "\n");
    ReplaceShrinks(step, "\r", "\n");
    NothingToReplace(Normalize(s), "\r\n", "\n");
    NothingToReplace(Normalize(s), "\r", "\n");
  }

  // ----- what Parse accepts -----

  lemma {:induction false} FirstProblemNone(cs: seq<Rune>, i: nat, t: Tables)
    requires i <= |cs|
    ensures FirstProblem(cs, i, t).None? <==> forall k :: i <= k < |cs| ==> RuneProblem(cs, k, t).None?
    decreases |cs| - i
  {
    if i < |cs| {
      FirstProblemNone(cs, i + 1, t);
    }
  }

  /** `Parse` accepts exactly the non-blank valid strings of at most 4096 bytes whose every rune is
      a line end, a tab, or neither a control character nor a format character (an emoji joiner
      between symbols excepted), and it returns them with every line end written `\n`. */
  lemma ParseAccepts(value: string, t: Tables)
    ensures Parse(value, t).Ok? <==>
      && |value| <= MAX_BYTES && Runes(value).Some? && Runes(Normalize(value)).Some?
      && TrimSpace(Normalize(value)) != ""
      && var cs := Runes(Normalize(value)).value;
         forall i :: 0 <= i < |cs| ==> RuneProblem(cs, i, t).None?
    ensures Parse(value, t).Ok? ==> Parse(value, t).value == Normalize(value)
  {
    if Runes(value).Some? {
      NormalizeKeepsRunes(value);
      FirstProblemNone(Runes(Normalize(value)).value, 0, t);
    }
  }

  /** The normal form from the front: every `\r\n` and every other `\r` becomes one `\n`, and nothing
      else changes. */
  lemma NormalizeNext(s: string)
    ensures Normalize("") == ""
    ensures "\r\n" <= s ==> Normalize(s) == "\n" + Normalize(s[2..])
    ensures s != "" && s[0] == '\r' && !("\r\n" <= s) ==> Normalize(s) == "\n" + Normalize(s[1..])
    ensures s != "" && s[0] != '\r' ==> Normalize(s) == [s[0]] + Normalize(s[1..])
  {
    if "\r\n" <= s {
      ReplaceHead('\n', ReplaceAll(s[2..], "\r\n", "\n"));
    } else if s != "" {
      CopyHead(s, "\r\n", "\n");
      ReplaceHead(s[0], ReplaceAll(s[1..], "\r\n", "\n"));
    }
  }

  lemma ReplaceHead(c: char, rest: string)
    ensures ReplaceAll([c] + rest, "\r", "\n") == [if c == '\r' then '\n' else c] + ReplaceAll(rest, "\r", "\n")
  {
    assert ([c] + rest)[1..] == rest;
  }

  /** The joiner at `i` follows a symbol, variation selectors and skin tones aside, and a symbol
      follows it. */
  ghost predicate IsBetweenSymbols(cs: seq<Rune>, i: nat, t: Tables) {
    exists l: nat ::
      && l < i && i + 1 < |cs| && t.symbol(cs[l]) && t.symbol(cs[i + 1])
      && cs[l] !in {0xFE0E, 0xFE0F, 0x1F3FB, 0x1F3FC, 0x1F3FD, 0x1F3FE, 0x1F3FF}
      && forall k :: l < k < i ==> cs[k] in {0xFE0E, 0xFE0F, 0x1F3FB, 0x1F3FC, 0x1F3FD, 0x1F3FE, 0x1F3FF}
  }

  /** A tab, a line feed, or from the space to U+007E or from U+00A0 on no format character but a
      joiner between symbols. */
  ghost predicate IsTextRune(cs: seq<Rune>, i: nat, t: Tables)
    requires i < |cs|
  {
    var c := cs[i];
    || c == 9 || c == 10
    || ((0x20 <= c <= 0x7E || 0xA0 <= c) && (t.format(c) ==> c == 0x200D && IsBetweenSymbols(cs, i, t)))
  }

  lemma ModifiersListed(c: Rune)
    ensures IsEmojiSequenceModifier(c) <==> c in {0xFE0E, 0xFE0F, 0x1F3FB, 0x1F3FC, 0x1F3FD, 0x1F3FE, 0x1F3FF}
  {
  }

  lemma JoinsBetween(cs: seq<Rune>, i: nat, t: Tables)
    ensures IsBetweenSymbols(cs, i, t) <==> JoinsSymbols(cs, i, t)
  {
    forall k | 0 <= k < |cs|
      ensures IsEmojiSequenceModifier(cs[k]) <==> cs[k] in {0xFE0E, 0xFE0F, 0x1F3FB, 0x1F3FC, 0x1F3FD, 0x1F3FE, 0x1F3FF}
    {
      ModifiersListed(cs[k]);
    }
    hide IsEmojiSequenceModifier;
    if IsBetweenSymbols(cs, i, t) {
      var l: nat :| l < i && i + 1 < |cs| && t.symbol(cs[l]) && t.symbol(cs[i + 1])
        && cs[l] !in {0xFE0E, 0xFE0F, 0x1F3FB, 0x1F3FC, 0x1F3FD, 0x1F3FE, 0x1F3FF}
        && forall k :: l < k < i ==> cs[k] in {0xFE0E, 0xFE0F, 0x1F3FB, 0x1F3FC, 0x1F3FD, 0x1F3FE, 0x1F3FF};
      assert JoinsFrom(cs, l, i, t);
    }
  }

  lemma TextRuneHasNoProblem(cs: seq<Rune>, i: nat, t: Tables)
    requires i < |cs|
    ensures RuneProblem(cs, i, t)
         == if IsTextRune(cs, i, t) then None
            else Some(if cs[i] < 0x20 || 0x7F <= cs[i] <= 0x9F then ControlCharacter else FormatCharacter)
  {
    hide IsBetweenSymbols, JoinsSymbols;
    JoinsBetween(cs, i, t);
  }

  lemma {:induction false} FirstProblemAt(cs: seq<Rune>, i: nat, k: nat, t: Tables)
    requires i <= k < |cs| && RuneProblem(cs, k, t).Some?
    requires forall j :: i <= j < k ==> RuneProblem(cs, j, t).None?
    ensures FirstProblem(cs, i, t) == RuneProblem(cs, k, t)
    decreases k - i
  {
    if i < k {
      FirstProblemAt(cs, i + 1, k, t);
    }
  }

  /** The outcome by length and encoding: at most 4096 bytes, the UTF-8 encoding of some runes, and a
      normal form that is not blank, in this order. */
  lemma ParseRefuses(value: string, t: Tables)
    ensures Parse(value, t) == Err(TooLarge) <==> |value| > 4096
    ensures Parse(value, t) == Err(InvalidUtf8) <==>
              |value| <= 4096 && forall cs :: !(AreScalars(cs) && value == EncodeAll(cs))
    ensures Parse(value, t) == Err(Empty) <==>
              |value| <= 4096 && (exists cs :: AreScalars(cs) && value == EncodeAll(cs)) && IsSpaces(Normalize(value))
  {
    hide Encode, EncodeAll, Normalize, RuneProblem, IsSpaces, Runes;
    forall cs
      ensures Runes(value) == Some(cs) <==> AreScalars(cs) && value == EncodeAll(cs)
    {
      RunesAreEncoded(value, cs);
    }
    BlankIsSpaces(Normalize(value));
    if Runes(value).Some? {
      NormalizeKeepsRunes(value);
      FirstProblemIsOne(Runes(Normalize(value)).value, 0, t);
    }
  }

  lemma {:induction false} FirstProblemIsOne(cs: seq<Rune>, i: nat, t: Tables)
    requires i <= |cs|
    ensures FirstProblem(cs, i, t) in {None, Some(ControlCharacter), Some(FormatCharacter)}
    decreases |cs| - i
  {
    if i < |cs| {
      FirstProblemIsOne(cs, i + 1, t);
    }
  }

  /** The outcome by runes: a valid text that is not blank is a message exactly if its normal form has
      only text runes, and then that form is the message; otherwise the first rune that is no text
      names the problem. */
  lemma ParseByRunes(value: string, cs: seq<Rune>, normal: seq<Rune>, k: nat, t: Tables)
    requires |value| <= 4096 && AreScalars(cs) && value == EncodeAll(cs) && !IsSpaces(Normalize(value))
    requires AreScalars(normal) && Normalize(value) == EncodeAll(normal)
    ensures (forall i :: 0 <= i < |normal| ==> IsTextRune(normal, i, t)) <==> Parse(value, t) == Ok(Normalize(value))
    ensures k < |normal| && !IsTextRune(normal, k, t) && (forall i :: 0 <= i < k ==> IsTextRune(normal, i, t)) ==>
              Parse(value, t)
              == Err(if normal[k] < 0x20 || 0x7F <= normal[k] <= 0x9F then ControlCharacter else FormatCharacter)
  {
    hide Encode, EncodeAll, Normalize, RuneProblem, IsTextRune, IsSpaces, Runes;
    RunesAreEncoded(value, cs);
    BlankIsSpaces(Normalize(value));
    NormalizeKeepsRunes(value);
    RunesAreEncoded(Normalize(value), normal);
    forall i | 0 <= i < |normal|
      ensures RuneProblem(normal, i, t)
           == if IsTextRune(normal, i, t) then None
              else Some(if normal[i] < 0x20 || 0x7F <= normal[i] <= 0x9F then ControlCharacter else FormatCharacter)
    {
      TextRuneHasNoProblem(normal, i, t);
    }
    FirstProblemNone(normal, 0, t);
    if k < |normal| && !IsTextRune(normal, k, t) && (forall i :: 0 <= i < k ==> IsTextRune(normal, i, t)) {
      FirstProblemAt(normal, 0, k, t);
    }
  }

  /** A message parses to itself. */
  lemma ParseIdempotent(m: string, t: Tables)
    requires IsMessage(m, t)
    ensures Parse(m, t) == Ok(m)
    ensures '\r' !in m && |m| <= MAX_BYTES && m != ""
  {
    var value :| Parse(value, t) == Ok(m);
    NormalizeKeepsRunes(value);
    NormalizeIdempotent(value);
  }

  // ----- the rendering can be read back -----

  lemma {:induction false} EscapeHasNoTag(s: string)
    ensures '<' !in Escape(s)
  {
    if s != "" {
      EscapeHasNoTag(s[1..]);
    }
  }

  lemma {:induction false} BreaksRoundTrip(s: string)
    requires '<' !in s
    ensures ReplaceAll(ReplaceAll(s, "\n", "<br>\n"), "<br>\n", "\n") == s
  {
    if s != "" {
      var rest := ReplaceAll(s[1..], "\n", "<br>\n");
      BreaksRoundTrip(s[1..]);
      if s[0] == '\n' {
        assert ReplaceAll(s, "\n", "<br>\n") == "<br>\n" + rest;
        assert ("<br>\n" + rest)[5..] == rest;
      } else {
        assert ReplaceAll(s, "\n", "<br>\n") == [s[0]] + rest;
        assert ([s[0]] + rest)[1..] == rest;
        ShortCopy([s[0]] + rest);
      }
    }
  }

  lemma ShortCopy(s: string)
    requires s != "" && s[0] != '<'
    ensures ReplaceAll(s, "<br>\n", "\n") == [s[0]] + ReplaceAll(s[1..], "<br>\n", "\n")
  {
    if |s| < 5 {
      assert s == [s[0]] + s[1..];
    }
  }

  lemma EscapesAreKnown(c: char, rest: string)
    requires EscapeChar(c)[0] == '&'
    ensures KnownReference(EscapeChar(c) + rest) == Some((c, |EscapeChar(c)|))
  {
    var head := EscapeChar(c);
    var s := head + rest;
    assert s[..|head|] == head;
    assert s[1] == head[1] && s[2] == head[2] && s[3] == head[3];
  }

  lemma HeadUnescapes(c: char, rest: string, t: Tables)
    ensures Unescape(EscapeChar(c) + rest, t) == [c] + Unescape(rest, t)
  {
    var head := EscapeChar(c);
    var s := head + rest;
    assert s[|head|..] == rest && s[0] == head[0];
    if head[0] == '&' {
      EscapesAreKnown(c, rest);
    } else {
      assert head == [c];
    }
  }

  lemma {:induction false} UnescapeEscape(s: string, t: Tables)
    ensures Unescape(Escape(s), t) == s
  {
    if s != "" {
      UnescapeEscape(s[1..], t);
      var head, rest := EscapeChar(s[0]), Escape(s[1..]);
      assert Escape(s) == head + rest;
      assert (head + rest)[..|head|] == head && (head + rest)[|head|..] == rest;
      assert s == [s[0]] + s[1..];
      HeadUnescapes(s[0], rest, t);
    }
  }

  /** `ParseManagedHTML` accepts a string exactly when it is the rendering of a message, and returns
      that message, whatever the entity tables hold. */
  lemma ParseManagedInvertsRender(value: string, m: string, t: Tables)
    ensures ParseManaged(value, t) == Some(m) <==> IsMessage(m, t) && value == Render(m)
  {
    if IsMessage(m, t) && value == Render(m) {
      EscapeHasNoTag(m);
      BreaksRoundTrip(Escape(m));
      UnescapeEscape(m, t);
      ParseIdempotent(m, t);
    }
  }

  lemma RenderInjective(m: string, n: string, t: Tables)
    requires IsMessage(m, t) && IsMessage(n, t) && Render(m) == Render(n)
    ensures m == n
  {
    ParseManagedInvertsRender(Render(m), m, t);
    ParseManagedInvertsRender(Render(n), n, t);
  }

  // ----- size -----

  function RenderChar(c: char): string {
    if c == '\n' then "<br>\n"
    else if c == '<' then "&lt;"
    else if c == '>' then "&gt;"
    else if c == '&' then "&amp;"
    else if c == '"' then "&#34;"
    else if c == '\'' then "&#39;"
    else [c]
  }

  /** A rendering character by character. */
  lemma {:induction false} RenderByChar(m: string)
    requires m != ""
    ensures Render(m) == RenderChar(m[0]) + Render(m[1..])
  {
    var head, rest := EscapeChar(m[0]), Escape(m[1..]);
    ReplaceInParts(head, rest, "\n", "<br>\n");
    assert m[0] != '\n' ==> ReplaceAll(head, "\n", "<br>\n") == head by {
      if m[0] != '\n' {
        NothingToReplace(head, "\n", "<br>\n");
      }
    }
    if m[0] == '\n' {
      assert head == "\n";
      assert head[1..] == "";
      assert ReplaceAll("", "\n", "<br>\n") == "";
    }
  }

  lemma {:induction false} ReplaceInParts(a: string, b: string, find: string, put: string)
    requires |find| == 1
    ensures ReplaceAll(a + b, find, put) == ReplaceAll(a, find, put) + ReplaceAll(b, find, put)
  {
    if a == "" {
      assert a + b == b;
    } else {
      ReplaceInParts(a[1..], b, find, put);
      assert (a + b)[1..] == a[1..] + b && (a + b)[0] == a[0];
      assert (find <= a + b) == (find <= a);
    }
  }

  lemma {:induction false} RenderLength(m: string)
    ensures |m| <= |Render(m)| <= 5 * |m|
  {
    if m != "" {
      RenderByChar(m);
      RenderLength(m[1..]);
    }
  }
}
