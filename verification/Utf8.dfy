/** Decoding of UTF-8 (section 3 of RFC 3629), and white space in it. */
module Utf8 {
  import opened Text

  type Rune = nat

  // ----- decoding -----

  predicate Continues(s: string, i: nat) {
    i < |s| && 0x80 <= s[i] as int <= 0xBF
  }

  function Tail(s: string, i: nat): nat
    requires Continues(s, i)
  {
    s[i] as int - 0x80
  }

  /** The first rune of `s` and its width, if `s` starts with a well-formed sequence. */
  function FirstRune(s: string): (r: Option<(Rune, nat)>)
    ensures r.Some? ==> 1 <= r.value.1 <= |s|
  {
    if s == "" then None
    else
      var b := s[0] as int;
      if b < 0x80 then Some((b, 1))
      else if 0xC2 <= b <= 0xDF && Continues(s, 1) then
        Some(((b - 0xC0) * 64 + Tail(s, 1), 2))
      else if 0xE0 <= b <= 0xEF && Continues(s, 1) && Continues(s, 2)
              && (b == 0xE0 ==> s[1] as int >= 0xA0) && (b == 0xED ==> s[1] as int <= 0x9F) then
        Some(((b - 0xE0) * 4096 + Tail(s, 1) * 64 + Tail(s, 2), 3))
      else if 0xF0 <= b <= 0xF4 && Continues(s, 1) && Continues(s, 2) && Continues(s, 3)
              && (b == 0xF0 ==> s[1] as int >= 0x90) && (b == 0xF4 ==> s[1] as int <= 0x8F) then
        Some(((b - 0xF0) * 262144 + Tail(s, 1) * 4096 + Tail(s, 2) * 64 + Tail(s, 3), 4))
      else None
  }

  /** `utf8.ValidString` and `[]rune(s)` in one: the runes of a valid string. */
  function Runes(s: string): Option<seq<Rune>>
    decreases |s|
  {
    if s == "" then Some([])
    else
      match FirstRune(s)
      case None => None
      case Some((r, n)) =>
        match Runes(s[n..])
        case None => None
        case Some(rest) => Some([r] + rest)
  }

  /** The runes Go ranges over; a byte that starts no rune yields U+FFFD. */
  function RangeRunes(s: string): seq<Rune>
    decreases |s|
  {
    if s == "" then []
    else
      match FirstRune(s)
      case None => [0xFFFD] + RangeRunes(s[1..])
      case Some((c, n)) => [c] + RangeRunes(s[n..])
  }

  // ----- encoding -----

  /** Every code point but the surrogates. */
  predicate IsScalar(c: Rune) {
    c <= 0x10FFFF && !(0xD800 <= c <= 0xDFFF)
  }

  predicate AreScalars(cs: seq<Rune>) {
    forall i :: 0 <= i < |cs| ==> IsScalar(cs[i])
  }

  function Encode(c: Rune): (s: string)
    requires IsScalar(c)
    ensures 1 <= |s| <= 4
  {
    if c < 0x80 then [c as char]
    else if c < 0x800 then [(0xC0 + c / 64) as char, (0x80 + c % 64) as char]
    else if c < 0x10000 then [(0xE0 + c / 4096) as char, (0x80 + c / 64 % 64) as char, (0x80 + c % 64) as char]
    else [(0xF0 + c / 262144) as char, (0x80 + c / 4096 % 64) as char, (0x80 + c / 64 % 64) as char, (0x80 + c % 64) as char]
  }

  function EncodeAll(cs: seq<Rune>): string
    requires AreScalars(cs)
  {
    if cs == [] then "" else Encode(cs[0]) + EncodeAll(cs[1..])
  }

  lemma DecodesOne(c: Rune)
    requires IsScalar(c)
    ensures FirstRune(Encode(c)) == Some((c, |Encode(c)|))
  {
    if c >= 0x10000 {
      DecodesFour(c);
    } else if c >= 0x800 {
      DecodesThree(c);
    }
  }

  lemma DecodesThree(c: Rune)
    requires IsScalar(c) && 0x800 <= c < 0x10000
    ensures FirstRune(Encode(c)) == Some((c, 3))
  {
    var a, b, d := c / 4096, c / 64 % 64, c % 64;
    FromDigits64(c);
    assert c / 262144 == 0 && c / 4096 % 64 == a;
    assert Encode(c) == [(0xE0 + a) as char, (0x80 + b) as char, (0x80 + d) as char];
    assert a == 0 ==> b >= 32;
    assert a == 13 ==> b < 32;
  }

  lemma DecodesFour(c: Rune)
    requires IsScalar(c) && 0x10000 <= c
    ensures FirstRune(Encode(c)) == Some((c, 4))
  {
    var a, b, d, e := c / 262144, c / 4096 % 64, c / 64 % 64, c % 64;
    FromDigits64(c);
    assert Encode(c) == [(0xF0 + a) as char, (0x80 + b) as char, (0x80 + d) as char, (0x80 + e) as char];
    assert a == 0 ==> b >= 16;
    assert a == 4 ==> b < 16;
  }

  lemma FromDigits64(n: nat)
    ensures n == n / 262144 * 262144 + n / 4096 % 64 * 4096 + n / 64 % 64 * 64 + n % 64
  {
    assert n == n / 64 * 64 + n % 64;
    assert n / 64 == n / 4096 * 64 + n / 64 % 64;
    assert n / 4096 == n / 262144 * 64 + n / 4096 % 64;
  }

  lemma FirstRuneExtends(a: string, b: string)
    requires FirstRune(a).Some?
    ensures FirstRune(a + b) == FirstRune(a)
  {
    assert forall i :: 0 <= i < |a| ==> (a + b)[i] == a[i];
  }

  /** A rune is read from the front exactly if its encoding is there. */
  lemma FirstRuneIsEncoded(s: string, c: Rune)
    ensures (exists n :: FirstRune(s) == Some((c, n))) <==> IsScalar(c) && HasPrefix(s, Encode(c))
    ensures IsScalar(c) && HasPrefix(s, Encode(c)) ==> FirstRune(s) == Some((c, |Encode(c)|))
  {
    hide Encode;
    if IsScalar(c) && HasPrefix(s, Encode(c)) {
      DecodesOne(c);
      FirstRuneExtends(Encode(c), s[|Encode(c)|..]);
      assert s == Encode(c) + s[|Encode(c)|..];
    } else if exists n :: FirstRune(s) == Some((c, n)) {
      FirstRuneEncodes(s);
    }
  }

  lemma Digits64(a: nat, b: nat, c: nat, d: nat)
    requires b < 64 && c < 64 && d < 64
    ensures var n := a * 262144 + b * 4096 + c * 64 + d;
            n / 262144 == a && n / 4096 % 64 == b && n / 64 % 64 == c && n % 64 == d
  {
    var n := a * 262144 + b * 4096 + c * 64 + d;
    assert n / 64 == a * 4096 + b * 64 + c;
    assert n / 4096 == a * 64 + b;
  }

  lemma FirstRuneEncodes(s: string)
    requires FirstRune(s).Some?
    ensures IsScalar(FirstRune(s).value.0) && s[..FirstRune(s).value.1] == Encode(FirstRune(s).value.0)
  {
    var (c, n) := FirstRune(s).value;
    if n == 1 {
      assert s[..1] == [s[0]];
    } else if n == 2 {
      EncodesTwo(s);
    } else if n == 3 {
      EncodesThree(s);
    } else {
      EncodesFour(s);
    }
  }

  lemma EncodesTwo(s: string)
    requires FirstRune(s).Some? && FirstRune(s).value.1 == 2
    ensures IsScalar(FirstRune(s).value.0) && s[..2] == Encode(FirstRune(s).value.0)
  {
    var c := FirstRune(s).value.0;
    Digits64(0, 0, s[0] as int - 0xC0, Tail(s, 1));
    assert s[..2] == [s[0], s[1]];
  }

  lemma EncodesThree(s: string)
    requires FirstRune(s).Some? && FirstRune(s).value.1 == 3
    ensures IsScalar(FirstRune(s).value.0) && s[..3] == Encode(FirstRune(s).value.0)
  {
    var c := FirstRune(s).value.0;
    Digits64(0, s[0] as int - 0xE0, Tail(s, 1), Tail(s, 2));
    assert s[..3] == [s[0], s[1], s[2]];
    assert c >= 0x800;
    assert c / 4096 == s[0] as int - 0xE0;
  }

  lemma EncodesFour(s: string)
    requires FirstRune(s).Some? && FirstRune(s).value.1 == 4
    ensures IsScalar(FirstRune(s).value.0) && s[..4] == Encode(FirstRune(s).value.0)
  {
    var c := FirstRune(s).value.0;
    Digits64(s[0] as int - 0xF0, Tail(s, 1), Tail(s, 2), Tail(s, 3));
    assert s[..4] == [s[0], s[1], s[2], s[3]];
    assert c >= 0x10000;
  }

  /** A string is decoded as some runes exactly if it is their encoding; so exactly the encodings are
      valid. */
  lemma {:induction false} RunesAreEncoded(s: string, cs: seq<Rune>)
    ensures Runes(s) == Some(cs) <==> AreScalars(cs) && s == EncodeAll(cs)
    decreases |cs|
  {
    hide Encode, FirstRune;
    if cs != [] && AreScalars(cs) && s == EncodeAll(cs) {
      var rest := EncodeAll(cs[1..]);
      FirstRuneIsEncoded(s, cs[0]);
      assert s[|Encode(cs[0])|..] == rest;
      assert cs == [cs[0]] + cs[1..];
      RunesAreEncoded(rest, cs[1..]);
    }
    if cs != [] && Runes(s) == Some(cs) {
      var (c, n) := FirstRune(s).value;
      FirstRuneEncodes(s);
      RunesAreEncoded(s[n..], cs[1..]);
      assert c == cs[0] && Runes(s[n..]).value == cs[1..];
      assert s == s[..n] + s[n..];
    }
  }

  /** Ranging over a string: encoded runes come one by one, and so do the bytes that start none. */
  lemma RangeNext(s: string, c: Rune, rest: string)
    ensures IsScalar(c) ==> RangeRunes(Encode(c) + rest) == [c] + RangeRunes(rest)
    ensures s != "" && (forall d :: IsScalar(d) ==> !HasPrefix(s, Encode(d))) ==> RangeRunes(s) == [0xFFFD] + RangeRunes(s[1..])
  {
    hide Encode, FirstRune;
    if IsScalar(c) {
      FirstRuneIsEncoded(Encode(c) + rest, c);
      assert (Encode(c) + rest)[|Encode(c)|..] == rest;
    }
    if FirstRune(s).Some? {
      FirstRuneEncodes(s);
      assert HasPrefix(s, Encode(FirstRune(s).value.0));
    }
  }

  // ----- white space -----

  /** The code points with the property White_Space. */
  predicate IsWhiteSpace(c: Rune) {
    9 <= c <= 13 || 0x2000 <= c <= 0x200A || c in {0x20, 0x85, 0xA0, 0x1680, 0x2028, 0x2029, 0x202F, 0x205F, 0x3000}
  }

  ghost predicate StartsWithSpace(s: string, c: Rune) {
    IsWhiteSpace(c) && HasPrefix(s, Encode(c))
  }

  ghost predicate EndsWithSpace(s: string, c: Rune) {
    IsWhiteSpace(c) && HasSuffix(s, Encode(c))
  }

  /** No white space at either end. */
  ghost predicate IsTrimmed(s: string) {
    forall c :: !StartsWithSpace(s, c) && !EndsWithSpace(s, c)
  }

  /** Nothing but white space. */
  ghost predicate IsSpaces(s: string) {
    exists cs :: AreScalars(cs) && s == EncodeAll(cs) && forall i :: 0 <= i < |cs| ==> IsWhiteSpace(cs[i])
  }

  lemma SpaceIsEncoded(c: Rune)
    requires IsWhiteSpace(c)
    ensures c < 0x80 ==> Encode(c) == [c as char] && IsAsciiSpace(c as char)
    ensures 0x80 <= c < 0x800 ==> |Encode(c)| == 2 && WideSpace2(Encode(c))
    ensures 0x800 <= c ==> |Encode(c)| == 3 && WideSpace3(Encode(c))
  {
  }

  lemma SpaceIsDecoded(s: string)
    requires SpaceAtStart(s) > 0
    ensures FirstRune(s).Some? && IsWhiteSpace(FirstRune(s).value.0) && FirstRune(s).value.1 == SpaceAtStart(s)
  {
  }

  lemma SpaceStarts(s: string, c: Rune)
    requires StartsWithSpace(s, c)
    ensures SpaceAtStart(s) == |Encode(c)|
  {
    SpaceIsEncoded(c);
  }

  lemma FirstSpace(s: string) returns (c: Rune)
    requires SpaceAtStart(s) > 0
    ensures StartsWithSpace(s, c) && |Encode(c)| == SpaceAtStart(s)
  {
    hide Encode, SpaceAtStart, FirstRune;
    SpaceIsDecoded(s);
    FirstRuneEncodes(s);
    c := FirstRune(s).value.0;
  }

  lemma SpaceEnds(s: string, c: Rune)
    requires EndsWithSpace(s, c)
    ensures SpaceAtEnd(s) == |Encode(c)|
  {
    hide Encode, HasSuffix, SpaceAtEnd;
    SpaceIsEncoded(c);
    LastBytes(s, Encode(c));
  }

  lemma FinalSpace(s: string) returns (d: Rune)
    requires SpaceAtEnd(s) > 0
    ensures EndsWithSpace(s, d) && |Encode(d)| == SpaceAtEnd(s)
  {
    hide Encode, FirstRune, SpaceAtEnd, SpaceAtStart;
    var last := s[|s| - SpaceAtEnd(s)..];
    LastSpace(s);
    SpaceIsDecoded(last);
    FirstRuneEncodes(last);
    assert last[..|last|] == last;
    d := FirstRune(last).value.0;
  }

  lemma LastBytes(s: string, space: string)
    requires HasSuffix(s, space)
    requires (|space| == 1 && IsAsciiSpace(space[0])) || (|space| == 2 && WideSpace2(space)) || (|space| == 3 && WideSpace3(space))
    ensures SpaceAtEnd(s) == |space|
  {
  }

  lemma LastSpace(s: string)
    requires SpaceAtEnd(s) > 0
    ensures SpaceAtStart(s[|s| - SpaceAtEnd(s)..]) == SpaceAtEnd(s)
  {
    var last := s[|s| - SpaceAtEnd(s)..];
    assert last[..|last|] == last;
  }

  lemma SpacesGrow(a: string, c: Rune, b: string)
    requires IsSpaces(a) && IsSpaces(b) && IsWhiteSpace(c)
    ensures IsSpaces(Encode(c) + a) && IsSpaces(b + Encode(c))
  {
    hide Encode;
    var cs :| AreScalars(cs) && a == EncodeAll(cs) && forall i :: 0 <= i < |cs| ==> IsWhiteSpace(cs[i]);
    var ds :| AreScalars(ds) && b == EncodeAll(ds) && forall i :: 0 <= i < |ds| ==> IsWhiteSpace(ds[i]);
    assert ([c] + cs)[1..] == cs;
    assert Encode(c) + a == EncodeAll([c] + cs);
    EncodeAppend(ds, c);
    assert b + Encode(c) == EncodeAll(ds + [c]);
  }

  lemma {:induction false} EncodeAppend(cs: seq<Rune>, c: Rune)
    requires AreScalars(cs) && IsScalar(c)
    ensures EncodeAll(cs + [c]) == EncodeAll(cs) + Encode(c)
  {
    hide Encode;
    if cs == [] {
      assert [c][1..] == [] && [] + [c] == [c];
    } else {
      assert (cs + [c])[1..] == cs[1..] + [c];
      EncodeAppend(cs[1..], c);
    }
  }

  lemma NoSpaces()
    ensures IsSpaces("")
  {
    assert EncodeAll([]) == "";
  }

  lemma {:induction false} TrimLeftTrims(s: string) returns (a: string)
    ensures IsSpaces(a) && s == a + TrimLeft(s)
    ensures forall c :: !StartsWithSpace(TrimLeft(s), c)
    decreases |s|
  {
    hide Encode, SpaceAtStart, IsSpaces;
    NoSpaces();
    if SpaceAtStart(s) > 0 {
      var c := FirstSpace(s);
      var rest := s[SpaceAtStart(s)..];
      a := TrimLeftTrims(rest);
      SpacesGrow(a, c, "");
      assert s == Encode(c) + rest;
      a := Encode(c) + a;
    } else {
      a := "";
      forall c
        ensures !StartsWithSpace(s, c)
      {
        if StartsWithSpace(s, c) {
          SpaceStarts(s, c);
        }
      }
    }
  }

  lemma {:induction false} TrimRightTrims(s: string) returns (b: string)
    ensures IsSpaces(b) && s == TrimRight(s) + b
    ensures forall c :: !EndsWithSpace(TrimRight(s), c)
    decreases |s|
  {
    hide Encode, SpaceAtEnd, IsSpaces;
    NoSpaces();
    b := "";
    if SpaceAtEnd(s) > 0 {
      var c := FinalSpace(s);
      var rest := s[..|s| - |Encode(c)|];
      b := TrimRightTrims(rest);
      SpacesGrow("", c, b);
      b := b + Encode(c);
      assert s == rest + Encode(c);
    } else {
      forall c
        ensures !EndsWithSpace(s, c)
      {
        if EndsWithSpace(s, c) {
          SpaceEnds(s, c);
        }
      }
    }
  }

  /** Trimming takes exactly the white space at both ends. */
  lemma TrimSpaceTrims(s: string) returns (a: string, b: string)
    ensures IsSpaces(a) && IsSpaces(b) && s == a + TrimSpace(s) + b && IsTrimmed(TrimSpace(s))
  {
    hide Encode, IsWhiteSpace, TrimLeft, TrimRight, IsSpaces;
    a := TrimLeftTrims(s);
    b := TrimRightTrims(TrimLeft(s));
    var t := TrimSpace(s);
    forall c
      ensures !StartsWithSpace(t, c)
    {
      assert StartsWithSpace(t, c) ==> StartsWithSpace(TrimLeft(s), c);
    }
  }

  lemma {:induction false} SpacesGo(cs: seq<Rune>)
    requires AreScalars(cs) && forall i :: 0 <= i < |cs| ==> IsWhiteSpace(cs[i])
    ensures TrimLeft(EncodeAll(cs)) == ""
  {
    hide Encode, SpaceAtStart;
    if cs != [] {
      var s, rest := EncodeAll(cs), EncodeAll(cs[1..]);
      assert StartsWithSpace(s, cs[0]);
      SpaceStarts(s, cs[0]);
      assert s[|Encode(cs[0])|..] == rest;
      SpacesGo(cs[1..]);
    } else {
      assert SpaceAtStart("") == 0;
    }
  }

  /** Nothing is left exactly of white space. */
  lemma BlankIsSpaces(s: string)
    ensures TrimSpace(s) == "" <==> IsSpaces(s)
  {
    hide IsSpaces, TrimLeft, TrimRight;
    if IsSpaces(s) {
      SpacesVanish(s);
    }
    if TrimSpace(s) == "" {
      var a, b := TrimSpaceTrims(s);
      assert s == a + b;
      SpacesJoin(a, b);
    }
  }

  lemma SpacesVanish(s: string)
    requires IsSpaces(s)
    ensures TrimSpace(s) == ""
  {
    hide Encode, TrimLeft;
    var cs :| AreScalars(cs) && s == EncodeAll(cs) && forall i :: 0 <= i < |cs| ==> IsWhiteSpace(cs[i]);
    SpacesGo(cs);
    assert TrimRight("") == "";
  }

  lemma SpacesJoin(a: string, b: string)
    requires IsSpaces(a) && IsSpaces(b)
    ensures IsSpaces(a + b)
  {
    hide Encode;
    var cs :| AreScalars(cs) && a == EncodeAll(cs) && forall i :: 0 <= i < |cs| ==> IsWhiteSpace(cs[i]);
    var ds :| AreScalars(ds) && b == EncodeAll(ds) && forall i :: 0 <= i < |ds| ==> IsWhiteSpace(ds[i]);
    EncodeBoth(cs, ds);
    assert a + b == EncodeAll(cs + ds);
  }

  lemma {:induction false} EncodeBoth(cs: seq<Rune>, ds: seq<Rune>)
    requires AreScalars(cs) && AreScalars(ds)
    ensures EncodeAll(cs + ds) == EncodeAll(cs) + EncodeAll(ds)
  {
    hide Encode;
    if cs == [] {
      assert cs + ds == ds;
    } else {
      assert (cs + ds)[1..] == cs[1..] + ds;
      EncodeBoth(cs[1..], ds);
      assert Encode(cs[0]) + (EncodeAll(cs[1..]) + EncodeAll(ds)) == EncodeAll(cs) + EncodeAll(ds);
    }
  }

  /** So a text is left alone exactly if it has none there. */
  lemma TrimmedExactly(s: string)
    ensures TrimSpace(s) == s <==> IsTrimmed(s)
  {
    hide Encode, IsWhiteSpace, SpaceAtStart, SpaceAtEnd;
    if IsTrimmed(s) {
      if SpaceAtStart(s) > 0 {
        var c := FirstSpace(s);
      }
      if SpaceAtEnd(s) > 0 {
        var c := FinalSpace(s);
      }
    }
    if TrimSpace(s) == s {
      var a, b := TrimSpaceTrims(s);
    }
  }

  // ----- white space around and between -----

  /** What follows does not complete a rune that was begun before it. */
  predicate StartsAfresh(rest: string) {
    rest == "" || !(0x80 <= rest[0] as int <= 0xBF)
  }

  lemma SpacesStartAfresh(c: Rune, rest: string)
    requires StartsWithSpace(rest, c)
    ensures StartsAfresh(rest)
  {
    SpaceIsEncoded(c);
  }

  lemma NoSpaceAcross(t: string, rest: string)
    requires t != "" && SpaceAtStart(t) == 0 && StartsAfresh(rest)
    ensures SpaceAtStart(t + rest) == 0
  {
  }

  lemma NoSpaceAtStart(t: string)
    requires forall c :: !StartsWithSpace(t, c)
    ensures SpaceAtStart(t) == 0
  {
    if SpaceAtStart(t) > 0 {
      var c := FirstSpace(t);
    }
  }

  lemma NoSpaceAtEnd(t: string)
    requires forall c :: !EndsWithSpace(t, c)
    ensures SpaceAtEnd(t) == 0
  {
    if SpaceAtEnd(t) > 0 {
      var c := FinalSpace(t);
    }
  }

  lemma {:induction false} TrimLeftSpaces(cs: seq<Rune>, s: string)
    requires AreScalars(cs) && forall i :: 0 <= i < |cs| ==> IsWhiteSpace(cs[i])
    ensures TrimLeft(EncodeAll(cs) + s) == TrimLeft(s)
    ensures StartsAfresh(EncodeAll(cs))
  {
    hide Encode, SpaceAtStart;
    if cs == [] {
      assert "" + s == s;
    } else {
      var more := EncodeAll(cs[1..]) + s;
      assert EncodeAll(cs) + s == Encode(cs[0]) + more;
      assert StartsWithSpace(EncodeAll(cs), cs[0]);
      SpacesStartAfresh(cs[0], EncodeAll(cs));
      assert StartsWithSpace(Encode(cs[0]) + more, cs[0]);
      SpaceStarts(Encode(cs[0]) + more, cs[0]);
      assert (Encode(cs[0]) + more)[|Encode(cs[0])|..] == more;
      TrimLeftSpaces(cs[1..], s);
    }
  }

  lemma {:induction false} TrimRightSpaces(s: string, cs: seq<Rune>)
    requires AreScalars(cs) && forall i :: 0 <= i < |cs| ==> IsWhiteSpace(cs[i])
    ensures TrimRight(s + EncodeAll(cs)) == TrimRight(s)
    decreases |cs|
  {
    hide Encode, SpaceAtEnd;
    if cs == [] {
      assert s + "" == s;
    } else {
      var front, c := cs[..|cs| - 1], cs[|cs| - 1];
      assert cs == front + [c];
      EncodeAppend(front, c);
      var less := s + EncodeAll(front);
      assert s + EncodeAll(cs) == less + Encode(c);
      assert EndsWithSpace(less + Encode(c), c);
      SpaceEnds(less + Encode(c), c);
      assert (less + Encode(c))[..|less|] == less;
      TrimRightSpaces(s, front);
    }
  }

  /** White space around a trimmed text is what trimming takes. */
  lemma TrimAround(a: string, t: string, b: string)
    requires IsSpaces(a) && IsSpaces(b) && IsTrimmed(t)
    ensures TrimSpace(a + t + b) == t
  {
    hide Encode, IsWhiteSpace, SpaceAtStart, SpaceAtEnd, TrimLeft, TrimRight;
    var cs :| AreScalars(cs) && a == EncodeAll(cs) && forall i :: 0 <= i < |cs| ==> IsWhiteSpace(cs[i]);
    var ds :| AreScalars(ds) && b == EncodeAll(ds) && forall i :: 0 <= i < |ds| ==> IsWhiteSpace(ds[i]);
    TrimLeftSpaces(cs, t + b);
    assert a + t + b == a + (t + b);
    if t == "" {
      assert t + b == b;
      SpacesVanish(b);
      SpacesVanish(b);
      TrimSpaceOf(a, b);
    } else {
      TrimLeftSpaces(ds, "");
      LeftAlone(t, b);
      TrimRightSpaces(t, ds);
      RightAlone(t);
    }
  }

  lemma TrimSpaceOf(a: string, b: string)
    requires TrimLeft(a + b) == TrimLeft(b)
    ensures TrimSpace(a + b) == TrimSpace(b)
  {
  }

  lemma LeftAlone(t: string, b: string)
    requires t != "" && IsTrimmed(t) && StartsAfresh(b)
    ensures TrimLeft(t + b) == t + b
  {
    NoSpaceAtStart(t);
    NoSpaceAcross(t, b);
  }

  lemma RightAlone(t: string)
    requires IsTrimmed(t)
    ensures TrimRight(t) == t
  {
    NoSpaceAtEnd(t);
  }

  /** Something without white space in it. */
  ghost predicate IsWord(w: string) {
    w != "" && forall i, c :: 0 <= i < |w| ==> !StartsWithSpace(w[i..], c)
  }

  /** The end of a word. */
  ghost predicate EndsWord(rest: string) {
    rest == "" || exists c :: StartsWithSpace(rest, c)
  }

  lemma {:induction false} WordEnds(w: string, rest: string)
    requires forall i, c :: 0 <= i < |w| ==> !StartsWithSpace(w[i..], c)
    requires EndsWord(rest)
    ensures WordEnd(w + rest) == |w|
  {
    hide Encode, IsWhiteSpace, SpaceAtStart;
    if w == "" {
      assert w + rest == rest;
      if rest != "" {
        var c :| StartsWithSpace(rest, c);
        SpaceStarts(rest, c);
      }
    } else {
      assert w[0..] == w;
      NoSpaceAtStart(w);
      if rest != "" {
        var c :| StartsWithSpace(rest, c);
        SpacesStartAfresh(c, rest);
      }
      NoSpaceAcross(w, rest);
      forall i, c | 0 <= i < |w[1..]|
        ensures !StartsWithSpace(w[1..][i..], c)
      {
        assert w[1..][i..] == w[i + 1..];
      }
      assert (w + rest)[1..] == w[1..] + rest;
      WordEnds(w[1..], rest);
    }
  }

  lemma WordInFront(w: string, rest: string)
    requires IsWord(w) && EndsWord(rest)
    ensures SpaceAtStart(w + rest) == 0 && WordEnd(w + rest) == |w|
  {
    hide Encode, IsWhiteSpace, SpaceAtStart, WordEnd;
    assert w[0..] == w;
    NoSpaceAtStart(w);
    if rest != "" {
      var c :| StartsWithSpace(rest, c);
      SpacesStartAfresh(c, rest);
    }
    NoSpaceAcross(w, rest);
    WordEnds(w, rest);
  }

  lemma SpacesInFront(a: string, s: string)
    requires IsSpaces(a)
    ensures TrimLeft(a + s) == TrimLeft(s)
  {
    hide Encode, TrimLeft;
    var cs :| AreScalars(cs) && a == EncodeAll(cs) && forall i :: 0 <= i < |cs| ==> IsWhiteSpace(cs[i]);
    TrimLeftSpaces(cs, s);
  }

  /** Fields come one by one: white space, a word, and what follows it. */
  lemma WordsNext(a: string, w: string, rest: string)
    requires IsSpaces(a) && IsWord(w) && EndsWord(rest)
    ensures Words(a + w + rest) == [w] + Words(rest)
  {
    hide IsSpaces, EndsWord, SpaceAtStart, WordEnd, Words;
    var t := w + rest;
    SpacesInFront(a, t);
    WordInFront(w, rest);
    assert TrimLeft(t) == t;
    assert a + w + rest == a + t;
    assert w != "";
    WordsUnfold(a + t, t);
    assert t[..|w|] == w && t[|w|..] == rest;
  }

  lemma WordsUnfold(s: string, t: string)
    requires TrimLeft(s) == t && t != "" && SpaceAtStart(t) == 0
    ensures Words(s) == [t[..WordEnd(t)]] + Words(t[WordEnd(t)..])
  {
  }

  lemma WordsOfSpaces(a: string)
    requires IsSpaces(a)
    ensures Words(a) == []
  {
    hide Encode;
    var cs :| AreScalars(cs) && a == EncodeAll(cs) && forall i :: 0 <= i < |cs| ==> IsWhiteSpace(cs[i]);
    SpacesGo(cs);
  }
}
