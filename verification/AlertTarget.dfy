/** Alert targets: lower-case names that become `<name>.txt` in the alert directory. */
module AlertTarget {
  import opened Text

  const MAX_LENGTH := 63

  predicate IsLetterOrDigit(c: char) {
    'a' <= c <= 'z' || '0' <= c <= '9'
  }

  predicate IsTarget(t: string) {
    && t != ""
    && IsLetterOrDigit(t[0])
    && forall i :: 1 <= i < |t| ==> IsLetterOrDigit(t[i]) || t[i] == '-' || t[i] == '_'
  }

  /** `strings.ToLower`; `wide` stands for the Unicode tables, used when some byte is not ASCII. */
  function ToLower(s: string, wide: string -> string): string {
    if IsAscii(s) then LowerAscii(s) else wide(s)
  }

  function Parse(value: string, wide: string -> string): (r: Option<string>)
    ensures r.Some? ==> IsTarget(r.value)
  {
    if value == "" || |value| > MAX_LENGTH then None
    else
      var lower := ToLower(value, wide);
      if IsTarget(lower) then Some(lower) else None
  }

  function Filename(t: string): string {
    if t == "" then "" else t + ".txt"
  }

  const SMALL_LETTERS := "abcdefghijklmnopqrstuvwxyz"

  /** A character of a target. */
  predicate IsNameByte(c: char) {
    c in SMALL_LETTERS || c in "0123456789" || c in "-_"
  }

  lemma SmallLetters(c: char)
    ensures c in SMALL_LETTERS <==> 'a' <= c <= 'z'
  {
    if 'a' <= c <= 'z' {
      assert SMALL_LETTERS[c as int - 'a' as int] == c;
    }
  }

  lemma NameBytes(c: char)
    ensures IsNameByte(c) <==> IsLetterOrDigit(c) || c in "-_"
  {
    SmallLetters(c);
    if '0' <= c <= '9' {
      assert "0123456789"[c as int - '0' as int] == c;
    }
  }

  /** A name is accepted exactly if it has 1 to 63 bytes and its lower case consists of small letters,
      digits, `-` and `_`, not beginning with one of the last two; the target is that lower case. */
  lemma ParseExactly(value: string, t: string, wide: string -> string)
    ensures Parse(value, wide) == Some(t) <==>
              && 1 <= |value| <= 63 && t == ToLower(value, wide) && t != "" && t[0] !in "-_"
              && forall i :: 0 <= i < |t| ==> IsNameByte(t[i])
  {
    hide IsNameByte, IsLetterOrDigit;
    forall i | 0 <= i < |t|
      ensures IsNameByte(t[i]) <==> IsLetterOrDigit(t[i]) || t[i] in "-_"
    {
      NameBytes(t[i]);
    }
    if t != "" {
      DashIsNoLetter(t[0]);
    }
  }

  lemma DashIsNoLetter(c: char)
    ensures c in "-_" ==> !IsLetterOrDigit(c)
  {
  }

  /** A target is its own lower case. */
  lemma TargetIsLower(t: string, wide: string -> string)
    requires IsTarget(t)
    ensures ToLower(t, wide) == t
  {
    assert IsAscii(t);
    assert LowerAscii(t) == t;
  }

  /** A target of at most 63 bytes parses to itself, whatever the Unicode tables say. */
  lemma TargetParsesToItself(t: string, wide: string -> string)
    requires IsTarget(t) && |t| <= MAX_LENGTH
    ensures Parse(t, wide) == Some(t)
  {
    TargetIsLower(t, wide);
  }

  /** What was parsed parses to itself exactly if it is not too long, which only letters whose lower
      case takes more bytes could make it. */
  lemma ParseAgain(value: string, t: string, wide: string -> string)
    requires Parse(value, wide) == Some(t)
    ensures Parse(t, wide) == (if |t| <= MAX_LENGTH then Some(t) else None)
    ensures |ToLower(value, wide)| <= |value| ==> Parse(t, wide) == Some(t)
  {
    TargetIsLower(t, wide);
  }

  /** Names of acceptable length with one lower case are the same target. */
  lemma ParseIgnoresCase(value: string, other: string, wide: string -> string)
    requires 1 <= |value| <= MAX_LENGTH && 1 <= |other| <= MAX_LENGTH
    requires ToLower(value, wide) == ToLower(other, wide)
    ensures Parse(value, wide) == Parse(other, wide)
  {
  }
}
