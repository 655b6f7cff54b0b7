/** Reading back what `WriteHeader` writes (section 5 of RFC 9112). */
module HeaderRoundTrip {
  import opened Text
  import opened Order
  import opened Wire

  /** The fields that are written have values the reader accepts; line breaks and NUL count as the
      spaces that are written for them. Names need not be canonical, nor even tokens. */
  ghost predicate Sendable(h: Header, skip: seq<string>) {
    forall k :: k in h && IsWritten(k, skip) ==> ValidValues(h[k])
  }

  predicate IsWritten(name: string, skip: seq<string>) {
    IsToken(name) && !Skipped(name, skip)
  }

  ghost predicate ValidValues(values: seq<string>) {
    forall i :: 0 <= i < |values| ==> ValidFieldValue(Flatten(values[i]))
  }

  /** What arrives of the values of a field. */
  function Arrived(values: seq<string>): (t: seq<string>)
    ensures |t| == |values|
  {
    seq(|values|, i requires 0 <= i < |values| => TrimBlanks(Flatten(values[i])))
  }

  function AddAll(h: Header, name: string, values: seq<string>): Header
    decreases |values|
  {
    if values == [] then h else AddAll(Add(h, name, values[0]), name, values[1..])
  }

  /** What the other side receives: the values of all written names, in the order of the names, under
      their canonical keys. */
  ghost function Delivered(h: Header, skip: seq<string>): Header {
    var names := SortedKeys(h.Keys);
    assert forall n :: n in names ==> n in Elements(names);
    DeliveredTo(map[], names, h, skip)
  }

  function DeliveredTo(read: Header, names: seq<string>, h: Header, skip: seq<string>): Header
    requires forall n :: n in names ==> n in h
    decreases |names|
  {
    if names == [] then read else DeliveredTo(WithName(names[0], h, skip, read), names[1..], h, skip)
  }

  /** The header after the fields of `name` were read into `read`. */
  function WithName(name: string, h: Header, skip: seq<string>, read: Header): Header
    requires name in h
  {
    if IsWritten(name, skip) then AddAll(read, name, Arrived(h[name])) else read
  }

  lemma {:induction false} TrimKeepsValid(value: string)
    requires ValidFieldValue(value)
    ensures ValidFieldValue(TrimBlanks(value))
    decreases |value|
  {
    if value != "" {
      if IsBlank(value[0]) {
        TrimKeepsValid(value[1..]);
      } else if IsBlank(value[|value| - 1]) {
        TrimKeepsValid(value[..|value| - 1]);
      }
    }
  }

  lemma {:induction false} TrimKeepsInvalid(value: string)
    requires !ValidFieldValue(value)
    ensures !ValidFieldValue(TrimBlanks(value))
    decreases |value|
  {
    if value != "" {
      if IsBlank(value[0]) {
        assert value == [value[0]] + value[1..];
        TrimKeepsInvalid(value[1..]);
      } else if IsBlank(value[|value| - 1]) {
        assert value == value[..|value| - 1] + [value[|value| - 1]];
        TrimKeepsInvalid(value[..|value| - 1]);
      }
    }
  }

  /** A written line with an invalid value is refused. */
  lemma BadFieldOf(name: string, value: string)
    requires IsToken(name) && !ValidFieldValue(value)
    ensures name + ": " + value != "" && Field(name + ": " + value).Err?
  {
    var line := name + ": " + value;
    TokensAreInline(name);
    assert line == name + [':'] + (" " + value);
    CutAt(name, ':', " " + value);
    assert (" " + value)[1..] == value;
    TrimKeepsInvalid(value);
  }

  lemma FieldOf(name: string, value: string)
    requires IsToken(name) && ValidFieldValue(value)
    ensures name + ": " + value != "" && Field(name + ": " + value) == Ok((name, TrimBlanks(value)))
  {
    var line := name + ": " + value;
    TokensAreInline(name);
    assert line == name + [':'] + (" " + value);
    CutAt(name, ':', " " + value);
    assert (" " + value)[1..] == value;
    TrimKeepsValid(value);
    assert line[0] == name[0];
  }

  lemma FieldsUnfold(input: string, end: End, left: nat, h: Header, line: string, rest: string, name: string, value: string)
    requires Line(input, end, left) == Ok((line, rest)) && line != "" && |line| + 2 <= left
    requires Field(line) == Ok((name, value))
    ensures Fields(input, end, left, h) == Fields(rest, end, left - |line| - 2, Add(h, name, value))
  {
    hide Line, Field, Add;
  }

  lemma WrittenLine(name: string, value: string, rest: string)
    requires IsToken(name) && Inline(value)
    ensures var line := name + ": " + value;
            Inline(line) && line != "" && |FieldText(name, value)| == |line| + 2
            && FieldText(name, value) + rest == line + "\r\n" + rest
  {
    TokensAreInline(name);
  }

  /** One written field is read back, and costs its own length. */
  lemma OneField(name: string, value: string, rest: string, end: End, left: nat, h: Header)
    requires IsToken(name) && ValidFieldValue(value) && Inline(value)
    requires |FieldText(name, value)| <= left
    ensures Fields(FieldText(name, value) + rest, end, left, h)
         == Fields(rest, end, left - |FieldText(name, value)|, Add(h, name, TrimBlanks(value)))
  {
    hide Fields, Line, Field, Add, TrimBlanks, FieldText;
    var line := name + ": " + value;
    WrittenLine(name, value, rest);
    LineOf(line, rest, end, left);
    FieldOf(name, value);
    FieldsUnfold(FieldText(name, value) + rest, end, left, h, line, rest, name, TrimBlanks(value));
  }

  /** A written field that is too long for what is left, or invalid, ends the reading. */
  lemma NoField(name: string, value: string, rest: string, end: End, left: nat, h: Header)
    requires IsToken(name) && Inline(value)
    requires |FieldText(name, value)| > left || !ValidFieldValue(value)
    ensures Fields(FieldText(name, value) + rest, end, left, h).Err?
  {
    hide Line, Field, Add, FieldText, ValidFieldValue;
    var line := name + ": " + value;
    WrittenLine(name, value, rest);
    if |line| <= left {
      LineOf(line, rest, end, left);
      if !ValidFieldValue(value) {
        BadFieldOf(name, value);
      }
    } else {
      LongLine(line, rest, end, left);
    }
  }

  lemma LongLine(line: string, rest: string, end: End, limit: nat)
    requires Inline(line) && |line| > limit
    ensures Line(line + "\r\n" + rest, end, limit).Err?
  {
    var input := line + "\r\n" + rest;
    assert input == (line + ['\r']) + ['\n'] + rest;
    IndexOfAt(line + ['\r'], '\n', rest);
  }

  lemma BlankLine(rest: string, end: End, left: nat, h: Header)
    ensures Fields("\r\n" + rest, end, left, h) == Ok((h, rest))
  {
    LineOf("", rest, end, left);
    assert "" + "\r\n" + rest == "\r\n" + rest;
  }

  /** Reading `text` costs its length and turns `h` into `h'`, whatever follows; with less left the
      reading ends. */
  ghost predicate Reads(text: string, h: Header, h': Header) {
    forall rest, end, left: nat ::
      if |text| <= left then Fields(text + rest, end, left, h) == Fields(rest, end, left - |text|, h')
      else Fields(text + rest, end, left, h).Err?
  }

  /** Reading `text` never succeeds, whatever follows. */
  ghost predicate Refuses(text: string, h: Header) {
    forall rest, end, left: nat :: Fields(text + rest, end, left, h).Err?
  }

  lemma ReadsAt(text: string, h: Header, h': Header, rest: string, end: End, left: nat)
    requires Reads(text, h, h')
    ensures if |text| <= left then Fields(text + rest, end, left, h) == Fields(rest, end, left - |text|, h')
            else Fields(text + rest, end, left, h).Err?
  {
  }

  lemma RefusesAt(text: string, h: Header, rest: string, end: End, left: nat)
    requires Refuses(text, h)
    ensures Fields(text + rest, end, left, h).Err?
  {
  }

  lemma ReadsNothing(h: Header)
    ensures Reads("", h, h)
  {
    hide Fields;
    forall rest, end, left: nat
      ensures Fields("" + rest, end, left, h) == Fields(rest, end, left, h)
    {
      assert "" + rest == rest;
    }
  }

  lemma ReadsField(name: string, value: string, h: Header)
    requires IsToken(name) && ValidFieldValue(value) && Inline(value)
    ensures Reads(FieldText(name, value), h, Add(h, name, TrimBlanks(value)))
  {
    hide Fields, FieldText, Add, TrimBlanks;
    forall rest, end, left: nat
      ensures if |FieldText(name, value)| <= left
              then Fields(FieldText(name, value) + rest, end, left, h)
                == Fields(rest, end, left - |FieldText(name, value)|, Add(h, name, TrimBlanks(value)))
              else Fields(FieldText(name, value) + rest, end, left, h).Err?
    {
      if |FieldText(name, value)| <= left {
        OneField(name, value, rest, end, left, h);
      } else {
        NoField(name, value, rest, end, left, h);
      }
    }
  }

  lemma RefusesField(name: string, value: string, h: Header)
    requires IsToken(name) && Inline(value) && !ValidFieldValue(value)
    ensures Refuses(FieldText(name, value), h)
  {
    hide Fields, FieldText;
    forall rest, end, left: nat
      ensures Fields(FieldText(name, value) + rest, end, left, h).Err?
    {
      NoField(name, value, rest, end, left, h);
    }
  }

  lemma ReadsInTurn(a: string, b: string, h: Header, h': Header, h'': Header)
    requires Reads(a, h, h') && Reads(b, h', h'')
    ensures Reads(a + b, h, h'')
  {
    hide Fields, Reads;
    forall rest, end, left: nat
      ensures if |a + b| <= left then Fields(a + b + rest, end, left, h) == Fields(rest, end, left - |a + b|, h'')
              else Fields(a + b + rest, end, left, h).Err?
    {
      assert a + b + rest == a + (b + rest);
      ReadsAt(a, h, h', b + rest, end, left);
      if |a| <= left {
        ReadsAt(b, h', h'', rest, end, left - |a|);
      }
    }
    ReadsIntro(a + b, h, h'');
  }

  lemma ReadsIntro(text: string, h: Header, h': Header)
    requires forall rest, end, left: nat ::
               if |text| <= left then Fields(text + rest, end, left, h) == Fields(rest, end, left - |text|, h')
               else Fields(text + rest, end, left, h).Err?
    ensures Reads(text, h, h')
  {
    hide Fields;
  }

  /** What follows a refused text does not matter, nor does what is read before it. */
  lemma RefusesFirst(a: string, b: string, h: Header)
    requires Refuses(a, h)
    ensures Refuses(a + b, h)
  {
    hide Fields;
    forall rest, end, left: nat
      ensures Fields(a + b + rest, end, left, h).Err?
    {
      assert a + b + rest == a + (b + rest);
      RefusesAt(a, h, b + rest, end, left);
    }
  }

  lemma RefusesNext(a: string, b: string, h: Header, h': Header)
    requires Reads(a, h, h') && Refuses(b, h')
    ensures Refuses(a + b, h)
  {
    hide Fields;
    forall rest, end, left: nat
      ensures Fields(a + b + rest, end, left, h).Err?
    {
      assert a + b + rest == a + (b + rest);
      ReadsAt(a, h, h', b + rest, end, left);
      if |a| <= left {
        RefusesAt(b, h', rest, end, left - |a|);
      }
    }
  }

  lemma {:induction false} AddAllAppends(h: Header, name: string, values: seq<string>)
    ensures AddAll(h, name, values)
         == if values == [] then h else h[CanonicalKey(name) := Values(h, name) + values]
    decreases |values|
  {
    hide CanonicalKey;
    if values != [] {
      var k, h' := CanonicalKey(name), Add(h, name, values[0]);
      AddAllAppends(h', name, values[1..]);
      assert Values(h', name) == Values(h, name) + [values[0]];
      assert values == [values[0]] + values[1..];
      if values[1..] == [] {
        assert values == [values[0]];
      }
      assert Values(h', name) + values[1..] == Values(h, name) + values;
      assert h'[k := Values(h, name) + values] == h[k := Values(h, name) + values];
    }
  }

  lemma {:induction false} ReadsValues(name: string, values: seq<string>, h: Header)
    requires IsToken(name) && ValidValues(values)
    ensures Reads(ValuesText(name, values), h, AddAll(h, name, Arrived(values)))
    decreases |values|
  {
    hide Reads, Flatten, TrimBlanks, Add, FieldText;
    if values == [] {
      ReadsNothing(h);
    } else {
      var value := Flatten(values[0]);
      var h' := Add(h, name, TrimBlanks(value));
      ReadsField(name, value, h);
      ReadsValues(name, values[1..], h');
      assert Arrived(values)[1..] == Arrived(values[1..]);
      ReadsInTurn(FieldText(name, value), ValuesText(name, values[1..]), h, h', AddAll(h, name, Arrived(values)));
    }
  }

  lemma {:induction false} RefusesValues(name: string, values: seq<string>, h: Header)
    requires IsToken(name) && !ValidValues(values)
    ensures Refuses(ValuesText(name, values), h)
    decreases |values|
  {
    hide Reads, Refuses, Flatten, TrimBlanks, Add, FieldText, ValidFieldValue;
    if values != [] {
      var value := Flatten(values[0]);
      if ValidFieldValue(value) {
        var h' := Add(h, name, TrimBlanks(value));
        assert !ValidValues(values[1..]);
        ReadsField(name, value, h);
        RefusesValues(name, values[1..], h');
        RefusesNext(FieldText(name, value), ValuesText(name, values[1..]), h, h');
      } else {
        RefusesField(name, value, h);
        RefusesFirst(FieldText(name, value), ValuesText(name, values[1..]), h);
      }
    }
  }

  lemma ReadsName(name: string, h: Header, skip: seq<string>, read: Header)
    requires name in h && (IsWritten(name, skip) ==> ValidValues(h[name]))
    ensures Reads(NameText(name, h, skip), read, WithName(name, h, skip, read))
  {
    hide Reads, ValuesText, AddAll, IsToken, Skipped;
    if IsWritten(name, skip) {
      ReadsValues(name, h[name], read);
    } else {
      ReadsNothing(read);
    }
  }

  lemma {:induction false} ReadsNames(names: seq<string>, h: Header, skip: seq<string>, read: Header)
    requires Sendable(h, skip) && forall n :: n in names ==> n in h
    ensures Reads(NamesText(names, h, skip), read, DeliveredTo(read, names, h, skip))
  {
    hide Reads, NameText, WithName;
    if names == [] {
      ReadsNothing(read);
    } else {
      var read' := WithName(names[0], h, skip, read);
      ReadsName(names[0], h, skip, read);
      ReadsNames(names[1..], h, skip, read');
      ReadsInTurn(NameText(names[0], h, skip), NamesText(names[1..], h, skip),
                  read, read', DeliveredTo(read, names, h, skip));
    }
  }

  /** A written value that the reader does not accept spoils the whole text. */
  lemma {:induction false} RefusesNames(names: seq<string>, h: Header, skip: seq<string>, read: Header)
    requires forall n :: n in names ==> n in h
    requires exists n :: n in names && IsWritten(n, skip) && !ValidValues(h[n])
    ensures Refuses(NamesText(names, h, skip), read)
  {
    hide Reads, Refuses, WithName, IsToken, Skipped, ValidValues, ValuesText;
    var name, text, more := names[0], NameText(names[0], h, skip), NamesText(names[1..], h, skip);
    if IsWritten(name, skip) && !ValidValues(h[name]) {
      RefusesValues(name, h[name], read);
      RefusesFirst(text, more, read);
    } else {
      var read' := WithName(name, h, skip, read);
      ReadsName(name, h, skip, read);
      assert names == [name] + names[1..];
      RefusesNames(names[1..], h, skip, read');
      RefusesNext(text, more, read, read');
    }
  }

  /** A header that is not sendable is refused. */
  lemma RefusesHeader(h: Header, skip: seq<string>, read: Header)
    requires !Sendable(h, skip)
    ensures Refuses(HeaderText(h, skip), read)
  {
    hide Refuses, NamesText, IsWritten, ValidValues;
    var names := SortedKeys(h.Keys);
    assert forall n :: n in names <==> n in Elements(names);
    var k :| k in h && IsWritten(k, skip) && !ValidValues(h[k]);
    assert k in Elements(names);
    RefusesNames(names, h, skip, read);
  }

  // ----- what is delivered -----

  /** Every key that arrives is the canonical form of a name that was written. */
  lemma {:induction false} DeliveredKeys(read: Header, names: seq<string>, h: Header, skip: seq<string>, k: string)
    requires forall n :: n in names ==> n in h
    requires k in DeliveredTo(read, names, h, skip)
    ensures k in read || exists n :: n in names && IsWritten(n, skip) && CanonicalKey(n) == k
    decreases |names|
  {
    hide IsWritten, CanonicalKey;
    if names != [] {
      var read' := WithName(names[0], h, skip, read);
      if IsWritten(names[0], skip) {
        AddAllAppends(read, names[0], Arrived(h[names[0]]));
      }
      DeliveredKeys(read', names[1..], h, skip, k);
      assert names[0] in names;
    }
  }

  /** No key that arrives stands for a skipped name. */
  lemma SkippedIsNotDelivered(h: Header, skip: seq<string>, i: nat)
    requires i < |skip|
    ensures skip[i] !in Delivered(h, skip)
  {
    hide DeliveredTo, CanonicalKey, FoldText;
    if skip[i] in Delivered(h, skip) {
      var names := SortedKeys(h.Keys);
      assert forall n :: n in names ==> n in Elements(names);
      DeliveredKeys(map[], names, h, skip, skip[i]);
      var n :| n in names && IsWritten(n, skip) && CanonicalKey(n) == skip[i];
      CanonicalFolds(n);
    }
  }

  lemma NameBeside(start: Header, read: Header, name: string, h: Header, skip: seq<string>)
    requires name in h && (IsWritten(name, skip) ==> CanonicalKey(name) !in start)
    ensures WithName(name, h, skip, start + read) == start + WithName(name, h, skip, read)
  {
    hide IsWritten, CanonicalKey, Arrived, AddAll;
    if IsWritten(name, skip) {
      AddAllAppends(read, name, Arrived(h[name]));
      AddAllAppends(start + read, name, Arrived(h[name]));
    }
  }

  /** What was read before under other keys stays beside what is delivered. */
  lemma {:induction false} DeliveredBeside(start: Header, read: Header, names: seq<string>, h: Header, skip: seq<string>)
    requires forall n :: n in names ==> n in h
    requires forall n :: n in names && IsWritten(n, skip) ==> CanonicalKey(n) !in start
    ensures DeliveredTo(start + read, names, h, skip) == start + DeliveredTo(read, names, h, skip)
    decreases |names|
  {
    hide IsWritten, CanonicalKey, Arrived, WithName;
    if names != [] {
      var name := names[0];
      var read' := WithName(name, h, skip, read);
      NameBeside(start, read, name, h, skip);
      DeliveredBeside(start, read', names[1..], h, skip);
    }
  }

  /** Written fields are read back exactly, and consume exactly their own bytes. */
  lemma ReadsHeader(h: Header, skip: seq<string>, read: Header)
    requires Sendable(h, skip)
    requires forall k :: k in h && IsWritten(k, skip) ==> CanonicalKey(k) !in read
    ensures Reads(HeaderText(h, skip), read, read + Delivered(h, skip))
  {
    hide Reads, NamesText, CanonicalKey, IsWritten;
    var names := SortedKeys(h.Keys);
    assert forall n :: n in names <==> n in Elements(names);
    ReadsNames(names, h, skip, read);
    DeliveredBeside(read, map[], names, h, skip);
    assert read + map[] == read;
  }

  /** Canonical names arrive as they are, with their values. */
  lemma {:induction false} CanonicalNamesArrive(read: Header, names: seq<string>, h: Header, skip: seq<string>)
    requires |Elements(names)| == |names|
    requires forall n :: n in names ==> n in h && IsWritten(n, skip) && CanonicalKey(n) == n && n !in read && h[n] != []
    ensures DeliveredTo(read, names, h, skip) == read + map k | k in names :: Arrived(h[k])
    decreases |names|
  {
    hide IsWritten, CanonicalKey, Arrived, WithName;
    if names == [] {
      assert read + map[] == read;
    } else {
      var name := names[0];
      HeadIsFresh(names);
      NewNameArrives(name, h, skip, read);
      CanonicalNamesArrive(read[name := Arrived(h[name])], names[1..], h, skip);
      ArrivedNext(names, h, read);
    }
  }

  lemma NewNameArrives(name: string, h: Header, skip: seq<string>, read: Header)
    requires name in h && IsWritten(name, skip) && CanonicalKey(name) == name && name !in read && h[name] != []
    ensures WithName(name, h, skip, read) == read[name := Arrived(h[name])]
  {
    hide IsWritten, CanonicalKey, AddAll;
    AddAllAppends(read, name, Arrived(h[name]));
    assert [] + Arrived(h[name]) == Arrived(h[name]);
  }

  lemma ArrivedNext(names: seq<string>, h: Header, read: Header)
    requires names != [] && names[0] !in names[1..] && forall n :: n in names ==> n in h
    ensures read[names[0] := Arrived(h[names[0]])] + (map k | k in names[1..] :: Arrived(h[k]))
         == read + map k | k in names :: Arrived(h[k])
  {
    hide Arrived;
    assert forall k :: k in names <==> k == names[0] || k in names[1..];
  }

  /** A header with canonical names and trimmed valid values arrives unchanged. */
  lemma CleanHeaderIsDelivered(h: Header, skip: seq<string>)
    requires forall k :: k in h ==> IsWritten(k, skip) && CanonicalKey(k) == k && h[k] != []
    requires forall k :: k in h ==> forall i :: 0 <= i < |h[k]| ==> CleanValue(h[k][i])
    ensures Delivered(h, skip) == h
  {
    hide IsWritten, CanonicalKey, StrictlyAscending, DeliveredTo, TrimBlanks, Flatten;
    var names := SortedKeys(h.Keys);
    assert forall n :: n in names <==> n in Elements(names);
    SortedCount(names);
    CanonicalNamesArrive(map[], names, h, skip);
    forall k | k in h
      ensures Arrived(h[k]) == h[k]
    {
      forall i | 0 <= i < |h[k]|
        ensures TrimBlanks(Flatten(h[k][i])) == h[k][i]
      {
        CleanValueArrives(h[k][i]);
      }
    }
    assert map[] + (map k | k in names :: Arrived(h[k])) == h;
  }

  lemma CleanValueArrives(value: string)
    requires CleanValue(value)
    ensures TrimBlanks(Flatten(value)) == value
  {
    assert Flatten(value) == value;
  }

  lemma HeadIsFresh(names: seq<string>)
    requires names != [] && |Elements(names)| == |names|
    ensures names[0] !in names[1..] && |Elements(names[1..])| == |names[1..]|
  {
    FewerElements(names);
    DistinctCount(names[1..]);
  }

  lemma SortedCount(names: seq<string>)
    requires StrictlyAscending(names)
    ensures |Elements(names)| == |names|
  {
    forall i, j | 0 <= i < j < |names|
      ensures names[i] != names[j]
    {
      LessAsymmetric(names[i], names[j]);
    }
    DistinctCount(names);
  }

  /** A header block that ends in a blank line is read as a whole if it fits, and not at all otherwise. */
  lemma ReadsBlock(text: string, h: Header, rest: string, end: End, left: nat)
    requires Reads(text, map[], h)
    ensures if |text| <= left then Fields(text + "\r\n" + rest, end, left, map[]) == Ok((h, rest))
            else Fields(text + "\r\n" + rest, end, left, map[]).Err?
  {
    hide Fields;
    assert text + "\r\n" + rest == text + ("\r\n" + rest);
    ReadsAt(text, map[], h, "\r\n" + rest, end, left);
    if |text| <= left {
      BlankLine(rest, end, left - |text|, h);
    }
  }

  lemma RefusesBlock(text: string, rest: string, end: End, left: nat)
    requires Refuses(text, map[])
    ensures Fields(text + "\r\n" + rest, end, left, map[]).Err?
  {
    hide Fields;
    assert text + "\r\n" + rest == text + ("\r\n" + rest);
    RefusesAt(text, map[], "\r\n" + rest, end, left);
  }
}
