/** Results, and Go strings: a `string` here is a sequence of bytes, one `char` per byte. */
module Text {

  datatype Option<+T> = None | Some(value: T)

  datatype Result<+T, +E> = Ok(value: T) | Err(error: E)

  // ----- searching and cutting -----

  predicate HasPrefix(s: string, prefix: string) {
    prefix <= s
  }

  predicate HasSuffix(s: string, suffix: string) {
    |suffix| <= |s| && s[|s| - |suffix|..] == suffix
  }

  /** The position of the first `c` in `s`, or `|s|` when there is none. */
  function IndexOf(s: string, c: char): (i: nat)
    ensures i <= |s|
    ensures i < |s| ==> s[i] == c
    ensures forall k :: 0 <= k < i ==> s[k] != c
  {
    if s == "" then 0
    else if s[0] == c then 0
    else 1 + IndexOf(s[1..], c)
  }

  lemma IndexOfAt(before: string, c: char, after: string)
    requires c !in before
    ensures IndexOf(before + [c] + after, c) == |before|
  {
    var s := before + [c] + after;
    assert s[|before|] == c;
    forall k | 0 <= k < |before|
      ensures s[k] != c
    {
      assert s[k] == before[k];
    }
  }

  /** `strings.Cut` on a one-byte separator: the parts around its first occurrence. */
  function Cut(s: string, c: char): (string, string, bool) {
    var i := IndexOf(s, c);
    if i < |s| then (s[..i], s[i + 1..], true) else (s, "", false)
  }

  lemma CutAt(before: string, c: char, after: string)
    requires c !in before
    ensures Cut(before + [c] + after, c) == (before, after, true)
  {
    IndexOfAt(before, c, after);
    var s := before + [c] + after;
    assert s[..|before|] == before && s[|before| + 1..] == after;
  }

  lemma CutNone(s: string, c: char)
    requires c !in s
    ensures Cut(s, c) == (s, "", false)
  {
  }

  /** `strings.Split` on a one-byte separator; never empty. */
  function Split(s: string, c: char): (parts: seq<string>)
    ensures |parts| >= 1
    decreases |s|
  {
    var i := IndexOf(s, c);
    if i < |s| then [s[..i]] + Split(s[i + 1..], c) else [s]
  }

  lemma SplitAt(before: string, c: char, after: string)
    requires c !in before
    ensures Split(before + [c] + after, c) == [before] + Split(after, c)
  {
    IndexOfAt(before, c, after);
    var s := before + [c] + after;
    assert s[..|before|] == before && s[|before| + 1..] == after;
  }

  lemma SplitNone(s: string, c: char)
    requires c !in s
    ensures Split(s, c) == [s]
  {
  }

  /** `strings.ReplaceAll`: non-overlapping occurrences, left to right. */
  function ReplaceAll(s: string, find: string, put: string): string
    requires find != ""
    decreases |s|
  {
    if |s| < |find| then s
    else if find <= s then put + ReplaceAll(s[|find|..], find, put)
    else [s[0]] + ReplaceAll(s[1..], find, put)
  }

  lemma SliceNext(s: string, a: nat, b: nat)
    requires a <= b <= |s|
    ensures s[..a] + s[a..b] == s[..b]
  {
  }

  // ----- white space -----

  predicate IsAsciiSpace(c: char) {
    c == ' ' || 9 <= c as int <= 13
  }

  /** The length of the white-space rune that starts `s` in UTF-8, 0 when it starts with none. */
  function SpaceAtStart(s: string): (n: nat)
    ensures n <= |s|
  {
    if |s| >= 1 && IsAsciiSpace(s[0]) then 1
    else if |s| >= 2 && WideSpace2(s[..2]) then 2
    else if |s| >= 3 && WideSpace3(s[..3]) then 3
    else 0
  }

  function SpaceAtEnd(s: string): (n: nat)
    ensures n <= |s|
  {
    if |s| >= 1 && IsAsciiSpace(s[|s| - 1]) then 1
    else if |s| >= 2 && WideSpace2(s[|s| - 2..]) then 2
    else if |s| >= 3 && WideSpace3(s[|s| - 3..]) then 3
    else 0
  }

  /** U+0085 and U+00A0. */
  predicate WideSpace2(s: string)
    requires |s| == 2
  {
    s[0] as int == 0xC2 && s[1] as int in {0x85, 0xA0}
  }

  /** U+1680, U+2000 to U+200A, U+2028, U+2029, U+202F, U+205F and U+3000. */
  predicate WideSpace3(s: string)
    requires |s| == 3
  {
    var a, b, c := s[0] as int, s[1] as int, s[2] as int;
    || (a == 0xE1 && b == 0x9A && c == 0x80)
    || (a == 0xE2 && b == 0x80 && (0x80 <= c <= 0x8A || c in {0xA8, 0xA9, 0xAF}))
    || (a == 0xE2 && b == 0x81 && c == 0x9F)
    || (a == 0xE3 && b == 0x80 && c == 0x80)
  }

  function TrimLeft(s: string): (t: string)
    ensures |t| <= |s|
    decreases |s|
  {
    var n := SpaceAtStart(s);
    if n == 0 then s else TrimLeft(s[n..])
  }

  function TrimRight(s: string): (t: string)
    ensures |t| <= |s|
    decreases |s|
  {
    var n := SpaceAtEnd(s);
    if n == 0 then s else TrimRight(s[..|s| - n])
  }

  /** `strings.TrimSpace`. */
  function TrimSpace(s: string): (t: string)
    ensures |t| <= |s|
  {
    TrimRight(TrimLeft(s))
  }

  /** Where the first white-space rune of `s` starts, or `|s|`. */
  function WordEnd(s: string): (n: nat)
    ensures n <= |s|
    ensures s != "" && SpaceAtStart(s) == 0 ==> n >= 1
  {
    if s == "" || SpaceAtStart(s) > 0 then 0 else 1 + WordEnd(s[1..])
  }

  lemma {:induction false} TrimmedStart(s: string)
    ensures SpaceAtStart(TrimLeft(s)) == 0
    decreases |s|
  {
    if SpaceAtStart(s) > 0 {
      TrimmedStart(s[SpaceAtStart(s)..]);
    }
  }

  /** `strings.Fields`. */
  function Words(s: string): seq<string>
    decreases |s|
  {
    var t := TrimLeft(s);
    if t == "" then []
    else
      TrimmedStart(s);
      [t[..WordEnd(t)]] + Words(t[WordEnd(t)..])
  }

  predicate IsBlank(c: char) {
    c == ' ' || c == '\t'
  }

  /** `strings.Trim(s, " \t")`. */
  function TrimBlanks(s: string): string
    decreases |s|
  {
    if s == "" then s
    else if IsBlank(s[0]) then TrimBlanks(s[1..])
    else if IsBlank(s[|s| - 1]) then TrimBlanks(s[..|s| - 1])
    else s
  }

  predicate AllBlank(s: string) {
    forall i :: 0 <= i < |s| ==> s[i] == ' ' || s[i] == '\t'
  }

  /** Blanks around a text that has none at its ends are exactly what trimming takes. */
  lemma {:induction false} TrimBlanksAround(a: string, t: string, b: string)
    requires AllBlank(a) && AllBlank(b)
    requires t != "" ==> t[0] !in {' ', '\t'} && t[|t| - 1] !in {' ', '\t'}
    ensures TrimBlanks(a + t + b) == t
    decreases |a| + |b|
  {
    var s := a + t + b;
    if a != "" {
      assert s[0] == a[0] && s[1..] == a[1..] + t + b;
      TrimBlanksAround(a[1..], t, b);
    } else if t == "" {
      if b != "" {
        assert s[0] == b[0] && s[1..] == "" + t + b[1..];
        TrimBlanksAround("", t, b[1..]);
      }
    } else if b != "" {
      var less := b[..|b| - 1];
      assert s[0] == t[0] && s[|s| - 1] == b[|b| - 1] && s[..|s| - 1] == "" + t + less;
      TrimBlanksAround("", t, less);
    } else {
      assert s == t;
    }
  }

  // ----- letter case -----

  function LowerChar(c: char): char {
    if 'A' <= c <= 'Z' then (c as int + 32) as char else c
  }

  function UpperChar(c: char): char {
    if 'a' <= c <= 'z' then (c as int - 32) as char else c
  }

  /** Lower case of an ASCII string. */
  function LowerAscii(s: string): (t: string)
    ensures |t| == |s|
    ensures forall i :: 0 <= i < |s| ==> t[i] == LowerChar(s[i])
  {
    seq(|s|, i requires 0 <= i < |s| => LowerChar(s[i]))
  }

  /** The letters keep their order under both mappings, and nothing else changes. */
  lemma LetterCase(i: nat)
    requires i < 26
    ensures LowerChar(('A' as int + i) as char) == LowerChar(('a' as int + i) as char) == ('a' as int + i) as char
    ensures UpperChar(('a' as int + i) as char) == UpperChar(('A' as int + i) as char) == ('A' as int + i) as char
    ensures forall c: char :: !('A' <= c <= 'Z') && !('a' <= c <= 'z') ==> LowerChar(c) == UpperChar(c) == c
  {
  }

  predicate IsAscii(s: string) {
    forall i :: 0 <= i < |s| ==> s[i] < (0x80 as char)
  }

  // ----- decimal numbers -----

  predicate IsDigit(c: char) {
    '0' <= c <= '9'
  }

  predicate AllDigits(s: string) {
    forall i :: 0 <= i < |s| ==> IsDigit(s[i])
  }

  function Digit(d: nat): (c: char)
    requires d < 10
    ensures IsDigit(c)
    ensures c as int - '0' as int == d
  {
    ('0' as int + d) as char
  }

  /** `%d` of a natural number. */
  function Decimal(n: nat): (s: string)
    ensures |s| >= 1
    ensures AllDigits(s)
  {
    if n < 10 then [Digit(n)] else Decimal(n / 10) + [Digit(n % 10)]
  }

  /** The number a string of digits denotes. */
  function DecimalValue(s: string): nat
    requires AllDigits(s)
  {
    if s == "" then 0
    else 10 * DecimalValue(s[..|s| - 1]) + (s[|s| - 1] as int - '0' as int)
  }

  lemma {:induction false} DecimalRoundTrip(n: nat)
    ensures DecimalValue(Decimal(n)) == n
  {
    var s := Decimal(n);
    if n < 10 {
      assert s[..|s| - 1] == "";
    } else {
      DecimalRoundTrip(n / 10);
      assert s[..|s| - 1] == Decimal(n / 10);
    }
  }

  function Pow10(k: nat): (p: nat)
    ensures p >= 1
  {
    if k == 0 then 1 else 10 * Pow10(k - 1)
  }

  lemma {:induction false} DecimalLength(n: nat, k: nat)
    requires 1 <= k && n < Pow10(k)
    ensures |Decimal(n)| <= k
  {
    if n >= 10 {
      assert k > 1 by {
        assert Pow10(1) == 10 * Pow10(0) == 10;
      }
      DecimalLength(n / 10, k - 1);
    }
  }
}
