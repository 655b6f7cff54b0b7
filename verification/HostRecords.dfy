/** The sections of mesh host records. */
module HostRecords {
  import opened Text
  import opened Utf8

  type Bits = n: nat | n < 0x1_0000_0000

  type PrefixLength = n: nat | n <= 32

  /** An address after `Unmap`: IPv4, or anything else. */
  datatype Addr = V4(bits: Bits) | Other

  /** A route destination: an IPv4 prefix, or anything else. */
  datatype Prefix = Prefix(base: Bits, length: PrefixLength) | OtherPrefix

  /** `netip.ParseAddr` followed by `Unmap`, `netip.ParsePrefix`, and the Unicode parts of
      `strings.ToLower` and `strings.EqualFold`. Nothing is assumed of them. */
  datatype Net = Net(
    addr: string -> Option<Addr>,
    prefix: string -> Option<Prefix>,
    lower: string -> string,
    fold: (string, string) -> bool)

  datatype Entry = Entry(address: Bits, name: string)

  datatype Section = Section(originator: Bits, entries: seq<Entry>)

  /** The sections so far, and whether entries go to the last one. */
  datatype Progress = Progress(sections: seq<Section>, open: bool) {
    predicate Valid() {
      open ==> sections != []
    }
  }

  predicate IsHeader(line: string) {
    HasPrefix(line, "##") && HasSuffix(line, "##")
  }

  function TrimHashes(line: string): string {
    var s := if HasPrefix(line, "##") then line[2..] else line;
    if HasSuffix(s, "##") then s[..|s| - 2] else s
  }

  function ParseV4(text: string, net: Net): Option<Bits> {
    match net.addr(text)
    case Some(V4(bits)) => Some(bits)
    case _ => None
  }

  function ParseSectionHeader(line: string, net: Net): Option<Bits> {
    ParseV4(TrimSpace(TrimHashes(line)), net)
  }

  function ParseEntry(line: string, net: Net): Option<Entry> {
    var fields := Words(line);
    if |fields| < 2 then None
    else
      match ParseV4(fields[0], net)
      case None => None
      case Some(a) => Some(Entry(a, fields[1]))
  }

  function AddEntry(sections: seq<Section>, e: Entry): seq<Section>
    requires sections != []
  {
    var last := |sections| - 1;
    sections[last := sections[last].(entries := sections[last].entries + [e])]
  }

  /** What one line does. */
  function Line(p: Progress, raw: string, net: Net): (q: Progress)
    requires p.Valid()
    ensures q.Valid()
  {
    var line := TrimSpace(raw);
    if line == "" then p
    else if IsHeader(line) then
      match ParseSectionHeader(line, net)
      case None => p.(open := false)
      case Some(o) => Progress(p.sections + [Section(o, [])], true)
    else if !p.open then p
    else
      match ParseEntry(line, net)
      case None => p
      case Some(e) => p.(sections := AddEntry(p.sections, e))
  }

  function Lines(p: Progress, lines: seq<string>, net: Net): (q: Progress)
    requires p.Valid()
    ensures q.Valid()
  {
    if lines == [] then p else Line(Lines(p, lines[..|lines| - 1], net), lines[|lines| - 1], net)
  }

  /** The sections of all records; each record starts outside of any section. */
  function Parse(records: seq<string>, net: Net): seq<Section> {
    if records == [] then []
    else
      var before := Parse(records[..|records| - 1], net);
      Lines(Progress(before, false), Split(records[|records| - 1], '\n'), net).sections
  }

  method ParseRecords(records: seq<string>, net: Net) returns (sections: seq<Section>)
    ensures sections == Parse(records, net)
  {
    sections := [];
    for i := 0 to |records|
      invariant sections == Parse(records[..i], net)
    {
      assert records[..i + 1][..i] == records[..i];
      var lines := Split(records[i], '\n');
      var start := Progress(sections, false);
      var open := false;
      for j := 0 to |lines|
        invariant Progress(sections, open) == Lines(start, lines[..j], net)
        invariant open ==> sections != []
      {
        assert lines[..j + 1][..j] == lines[..j];
        var line := TrimSpace(lines[j]);
        if line == "" {
          continue;
        }
        if IsHeader(line) {
          var originator := ParseSectionHeader(line, net);
          if originator.None? {
            open := false;
            continue;
          }
          sections := sections + [Section(originator.value, [])];
          open := true;
          continue;
        }
        if !open {
          continue;
        }
        var entry := ParseEntry(line, net);
        if entry.None? {
          continue;
        }
        sections := AddEntry(sections, entry.value);
      }
      assert lines[..|lines|] == lines;
    }
    assert records[..|records|] == records;
  }

  // ----- what is on a line -----

  /** The IPv4 address that a text stands for. */
  function AddressOf(text: string, net: Net): Option<Bits> {
    if net.addr(text).Some? && net.addr(text).value.V4? then Some(net.addr(text).value.bits) else None
  }

  /** An entry: an address, white space, a name, and anything after it. */
  lemma EntryOnLine(a: string, address: string, b: string, name: string, rest: string, net: Net)
    requires IsSpaces(a) && IsWord(address) && IsSpaces(b) && b != "" && IsWord(name) && EndsWord(rest)
    ensures ParseEntry(a + address + b + name + rest, net)
         == if AddressOf(address, net).None? then None else Some(Entry(AddressOf(address, net).value, name))
  {
    hide IsSpaces, IsWord, EndsWord, Words;
    var tail := b + name + rest;
    SpacesEndWord(b, name + rest);
    assert tail == b + (name + rest);
    WordsNext(a, address, tail);
    WordsNext(b, name, rest);
    assert a + address + b + name + rest == a + address + tail;
  }

  lemma SpacesEndWord(b: string, more: string)
    requires IsSpaces(b) && b != ""
    ensures EndsWord(b + more)
  {
    hide Encode;
    var cs :| AreScalars(cs) && b == EncodeAll(cs) && forall i :: 0 <= i < |cs| ==> IsWhiteSpace(cs[i]);
    assert StartsWithSpace(b + more, cs[0]);
  }

  /** A line with a single word, or with none, is no entry. */
  lemma NoEntryOnLine(a: string, word: string, b: string, net: Net)
    requires IsSpaces(a) && IsSpaces(b) && (word == "" || IsWord(word))
    ensures ParseEntry(a + word + b, net).None?
  {
    hide IsSpaces, IsWord, EndsWord, Words;
    WordsOfSpaces(b);
    if word == "" {
      assert a + word + b == a + b;
      SpacesJoin(a, b);
      WordsOfSpaces(a + b);
    } else {
      if b == "" {
        NothingEndsWord();
      } else {
        SpacesEndWord(b, "");
        assert b + "" == b;
      }
      WordsNext(a, word, b);
    }
  }

  lemma NothingEndsWord()
    ensures EndsWord("")
  {
  }

  /** A header: an address between two pairs of hashes, with or without white space around it. */
  lemma HeaderOnLine(a: string, text: string, b: string, net: Net)
    requires IsSpaces(a) && IsTrimmed(text) && IsSpaces(b)
    ensures var line := "##" + (a + text + b) + "##";
            IsHeader(line) && ParseSectionHeader(line, net) == AddressOf(text, net)
  {
    hide IsSpaces, IsTrimmed, TrimSpace;
    var inner := a + text + b;
    var line := "##" + inner + "##";
    assert line[..2] == "##" && line[2..] == inner + "##";
    assert (inner + "##")[..|inner|] == inner && (inner + "##")[|inner|..] == "##";
    assert line[|line| - 2..] == "##";
    TrimAround(a, text, b);
  }

  /** What a line does, by what is on it: white space aside, nothing when it is blank; a header begins a
      section, or none if it has no address; any other line is for the section that is open, if one is. */
  lemma LineDoes(p: Progress, a: string, line: string, b: string, net: Net)
    requires p.Valid() && IsSpaces(a) && IsTrimmed(line) && IsSpaces(b)
    ensures Line(p, a + line + b, net)
         == if line == "" then p
            else if HasPrefix(line, "##") && HasSuffix(line, "##") then
              (if ParseSectionHeader(line, net).None? then Progress(p.sections, false)
               else Progress(p.sections + [Section(ParseSectionHeader(line, net).value, [])], true))
            else if p.open && ParseEntry(line, net).Some? then
              Progress(AddEntry(p.sections, ParseEntry(line, net).value), true)
            else p
  {
    hide TrimSpace, IsSpaces, IsTrimmed, ParseSectionHeader, ParseEntry;
    TrimAround(a, line, b);
  }

  // ----- records are independent -----

  lemma LineAfter(before: seq<Section>, p: Progress, raw: string, net: Net)
    requires p.Valid()
    ensures Line(Progress(before + p.sections, p.open), raw, net)
         == Progress(before + Line(p, raw, net).sections, Line(p, raw, net).open)
  {
    hide TrimSpace, IsHeader, ParseSectionHeader, ParseEntry;
    var line := TrimSpace(raw);
    if line != "" && IsHeader(line) && ParseSectionHeader(line, net).Some? {
      var s := [Section(ParseSectionHeader(line, net).value, [])];
      assert before + p.sections + s == before + (p.sections + s);
    }
  }

  lemma {:induction false} LinesAfter(before: seq<Section>, p: Progress, lines: seq<string>, net: Net)
    requires p.Valid()
    ensures Lines(Progress(before + p.sections, p.open), lines, net)
         == Progress(before + Lines(p, lines, net).sections, Lines(p, lines, net).open)
  {
    hide Line;
    if lines != [] {
      LinesAfter(before, p, lines[..|lines| - 1], net);
      LineAfter(before, Lines(p, lines[..|lines| - 1], net), lines[|lines| - 1], net);
    }
  }

  /** The sections of one record. */
  function ParseRecord(record: string, net: Net): seq<Section> {
    Lines(Progress([], false), Split(record, '\n'), net).sections
  }

  /** The sections of the records are those of each record, in order. */
  lemma {:induction false} ParseAppends(records: seq<string>, record: string, net: Net)
    ensures Parse(records + [record], net) == Parse(records, net) + ParseRecord(record, net)
  {
    hide Lines, Split;
    var before := Parse(records, net);
    assert (records + [record])[..|records|] == records;
    LinesAfter(before, Progress([], false), Split(record, '\n'), net);
    assert before + [] == before;
  }

  lemma {:induction false} ParseConcat(a: seq<string>, b: seq<string>, net: Net)
    ensures Parse(a + b, net) == Parse(a, net) + Parse(b, net)
  {
    hide Parse;
    if b == [] {
      assert a + b == a && Parse(b, net) == [] by {
        ParseNothing(net);
      }
      assert Parse(a, net) + [] == Parse(a, net);
    } else {
      var front, last := b[..|b| - 1], b[|b| - 1];
      ParseConcat(a, front, net);
      ParseAppends(a + front, last, net);
      ParseAppends(front, last, net);
      assert a + b == a + front + [last] && b == front + [last];
    }
  }

  lemma ParseNothing(net: Net)
    ensures Parse([], net) == []
  {
  }

  // ----- entries belong to the nearest header -----

  function EntriesOf(lines: seq<string>, net: Net): seq<Entry> {
    if lines == [] then []
    else
      var line := TrimSpace(lines[|lines| - 1]);
      EntriesOf(lines[..|lines| - 1], net)
      + (if line == "" || ParseEntry(line, net).None? then [] else [ParseEntry(line, net).value])
  }

  ghost predicate NoHeader(lines: seq<string>) {
    forall i :: 0 <= i < |lines| ==> !IsHeader(TrimSpace(lines[i]))
  }

  lemma {:induction false} LinesConcat(p: Progress, a: seq<string>, b: seq<string>, net: Net)
    requires p.Valid()
    ensures Lines(p, a + b, net) == Lines(Lines(p, a, net), b, net)
  {
    hide Line;
    if b == [] {
      assert a + b == a;
    } else {
      LinesConcat(p, a, b[..|b| - 1], net);
      assert (a + b)[..|a + b| - 1] == a + b[..|b| - 1];
    }
  }

  lemma AddToLast(front: seq<Section>, last: Section, e: Entry)
    ensures AddEntry(front + [last], e) == front + [last.(entries := last.entries + [e])]
  {
  }

  lemma {:induction false} EntriesGoToLast(p: Progress, lines: seq<string>, net: Net)
    requires p.Valid() && NoHeader(lines)
    ensures Lines(p, lines, net) ==
            if p.open
            then p.(sections := p.sections[..|p.sections| - 1]
                    + [Section(p.sections[|p.sections| - 1].originator,
                               p.sections[|p.sections| - 1].entries + EntriesOf(lines, net))])
            else p
  {
    hide TrimSpace, IsHeader, ParseEntry;
    if lines == [] {
      if p.open {
        var last := p.sections[|p.sections| - 1];
        assert last.entries + [] == last.entries;
        assert p.sections == p.sections[..|p.sections| - 1] + [last];
      }
    } else {
      var before, line := lines[..|lines| - 1], TrimSpace(lines[|lines| - 1]);
      EntriesGoToLast(p, before, net);
      assert !IsHeader(TrimSpace(lines[|lines| - 1]));
      if p.open {
        var front, last := p.sections[..|p.sections| - 1], p.sections[|p.sections| - 1];
        var entries := EntriesOf(before, net);
        if line != "" && ParseEntry(line, net).Some? {
          var e := ParseEntry(line, net).value;
          AddToLast(front, Section(last.originator, last.entries + entries), e);
          assert last.entries + entries + [e] == last.entries + (entries + [e]);
        } else {
          assert entries + [] == entries;
        }
      }
    }
  }

  /** Every entry goes to the nearest header before it in its record, and only if that header is
      valid: lines from the last header on make up one section, or none. */
  lemma LastSection(before: seq<string>, header: string, lines: seq<string>, net: Net)
    requires IsHeader(TrimSpace(header)) && TrimSpace(header) != "" && NoHeader(lines)
    ensures var start := Progress([], false);
            var earlier := Lines(start, before, net).sections;
            Lines(start, before + [header] + lines, net).sections ==
            match ParseSectionHeader(TrimSpace(header), net)
            case None => earlier
            case Some(o) => earlier + [Section(o, EntriesOf(lines, net))]
  {
    hide TrimSpace, IsHeader, ParseSectionHeader, ParseEntry, Lines;
    var start := Progress([], false);
    var p := Lines(start, before, net);
    LinesConcat(start, before + [header], lines, net);
    LinesConcat(start, before, [header], net);
    OneLine(p, header, net);
    var q := Line(p, header, net);
    EntriesGoToLast(q, lines, net);
    if q.open {
      assert q.sections[..|q.sections| - 1] == p.sections;
      assert [] + EntriesOf(lines, net) == EntriesOf(lines, net);
    }
  }

  lemma OneLine(p: Progress, line: string, net: Net)
    requires p.Valid()
    ensures Lines(p, [line], net) == Line(p, line, net)
  {
    hide Line;
    assert [line][..0] == [];
    assert Lines(p, [line][..0], net) == p;
  }

  /** Lines before any header are dropped. */
  lemma NoHeaderNoSection(lines: seq<string>, net: Net)
    requires NoHeader(lines)
    ensures Lines(Progress([], false), lines, net).sections == []
  {
    EntriesGoToLast(Progress([], false), lines, net);
  }
}
