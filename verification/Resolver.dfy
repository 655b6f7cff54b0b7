/** Attribution of a source address to a mesh node and host. */
module Resolver {
  import opened Text
  import opened Utf8
  import opened Order
  import opened HostRecords
  import T = AlertTarget

  datatype Attribution = Attribution(node: string, host: string)

  const NOBODY := Attribution("", "")

  datatype ResolveError = InvalidSource | Ambiguous

  datatype HostSection = HostSection(originator: Bits, node: string, entries: seq<Entry>)

  /** The answer drawn from the candidates in the order they were met. */
  datatype Verdict<T> = Nobody | One(value: T) | Many

  // ----- sections with their node -----

  /** `name` can own a section. */
  predicate CanOwn(name: string, net: Net) {
    T.Parse(name, net.lower).Some? && T.Parse(name, net.lower).value != "all"
  }

  /** The name of the first entry at the originator's address that can own the section. */
  function NodeOf(originator: Bits, entries: seq<Entry>, net: Net): string {
    if entries == [] then ""
    else
      var before := NodeOf(originator, entries[..|entries| - 1], net);
      var e := entries[|entries| - 1];
      if before == "" && e.address == originator && CanOwn(e.name, net) then e.name else before
  }

  function HostSectionOf(s: Section, net: Net): HostSection {
    HostSection(s.originator, NodeOf(s.originator, s.entries, net), s.entries)
  }

  function HostSections(sections: seq<Section>, net: Net): (r: seq<HostSection>)
    ensures |r| == |sections|
  {
    seq(|sections|, i requires 0 <= i < |sections| => HostSectionOf(sections[i], net))
  }

  /** `parseHostRecords`. */
  method ParseHostRecords(records: seq<string>, net: Net) returns (sections: seq<HostSection>)
    ensures sections == HostSections(Parse(records, net), net)
  {
    hide Parse, T.Parse;
    var parsed := ParseRecords(records, net);
    sections := [];
    for i := 0 to |parsed|
      invariant |sections| == i
      invariant forall k :: 0 <= k < i ==> sections[k] == HostSectionOf(parsed[k], net)
    {
      var s := parsed[i];
      var node, entries := "", [];
      for j := 0 to |s.entries|
        invariant entries == s.entries[..j]
        invariant node == NodeOf(s.originator, s.entries[..j], net)
      {
        var entry := s.entries[j];
        assert s.entries[..j + 1][..j] == s.entries[..j];
        entries := entries + [entry];
        if node == "" && entry.address == s.originator {
          var target := T.Parse(entry.name, net.lower);
          if target.None? || target.value == "all" {
            continue;
          }
          node := entry.name;
        }
      }
      assert s.entries[..|s.entries|] == s.entries;
      sections := sections + [HostSection(s.originator, node, entries)];
    }
  }

  // ----- names -----

  function Fold(a: string, b: string, net: Net): bool {
    if IsAscii(a) && IsAscii(b) then LowerAscii(a) == LowerAscii(b) else net.fold(a, b)
  }

  /** ASCII names are compared letter case aside. */
  lemma FoldIgnoresCase(a: string, b: string, net: Net)
    requires IsAscii(a) && IsAscii(b)
    ensures Fold(a, b, net) <==> |a| == |b| && forall i :: 0 <= i < |a| ==> LowerChar(a[i]) == LowerChar(b[i])
  {
    if |a| == |b| && forall i :: 0 <= i < |a| ==> LowerChar(a[i]) == LowerChar(b[i]) {
      assert LowerAscii(a) == LowerAscii(b);
    }
  }

  predicate IsLanName(name: string, node: string, net: Net) {
    Fold(name, "lan." + node + ".local.mesh", net)
  }

  predicate IsInfrastructureName(name: string, net: Net) {
    var lower := T.ToLower(name, net.lower);
    && (HasPrefix(lower, "lan.") || HasPrefix(lower, "dtdlink.") || HasPrefix(lower, "mid.") || HasPrefix(lower, "xlink."))
    && HasSuffix(lower, ".local.mesh")
  }

  // ----- exact hosts -----

  function Candidate(s: HostSection, e: Entry, net: Net): Attribution {
    Attribution(s.node,
                if e.address != s.originator && !IsInfrastructureName(e.name, net) then e.name else "")
  }

  function Meet<T(==)>(v: Verdict<T>, x: T): Verdict<T> {
    match v
    case Nobody => One(x)
    case One(y) => if x == y then v else Many
    case Many => Many
  }

  /** The candidates of one section for an exact match. */
  function ExactIn(v: Verdict<Attribution>, source: Bits, s: HostSection, entries: seq<Entry>, net: Net): Verdict<Attribution> {
    if entries == [] then v
    else
      var before := ExactIn(v, source, s, entries[..|entries| - 1], net);
      var e := entries[|entries| - 1];
      if e.address == source then Meet(before, Candidate(s, e, net)) else before
  }

  function Exact(source: Bits, sections: seq<HostSection>, net: Net): Verdict<Attribution> {
    if sections == [] then Nobody
    else
      var s := sections[|sections| - 1];
      ExactIn(Exact(source, sections[..|sections| - 1], net), source, s, s.entries, net)
  }

  lemma {:induction false} ManyStays(source: Bits, s: HostSection, entries: seq<Entry>, net: Net)
    ensures ExactIn(Many, source, s, entries, net) == Many
  {
    if entries != [] {
      ManyStays(source, s, entries[..|entries| - 1], net);
    }
  }

  lemma {:induction false} ManyStaysIn(v: Verdict<Attribution>, source: Bits, s: HostSection, entries: seq<Entry>, j: nat, net: Net)
    requires j <= |entries| && ExactIn(v, source, s, entries[..j], net) == Many
    ensures ExactIn(v, source, s, entries, net) == Many
    decreases |entries| - j
  {
    if j < |entries| {
      assert entries[..j + 1][..j] == entries[..j];
      ManyStaysIn(v, source, s, entries, j + 1, net);
    } else {
      assert entries[..j] == entries;
    }
  }

  lemma {:induction false} ManyStaysAfter(source: Bits, sections: seq<HostSection>, i: nat, net: Net)
    requires i <= |sections| && Exact(source, sections[..i], net) == Many
    ensures Exact(source, sections, net) == Many
    decreases |sections| - i
  {
    if i < |sections| {
      assert sections[..i + 1][..i] == sections[..i];
      ManyStays(source, sections[i], sections[i].entries, net);
      ManyStaysAfter(source, sections, i + 1, net);
    } else {
      assert sections[..i] == sections;
    }
  }

  /** `exactHostAttribution`, with its early exit. */
  method ExactHostAttribution(source: Bits, sections: seq<HostSection>, net: Net)
    returns (result: Attribution, found: bool, ambiguous: bool)
    ensures match Exact(source, sections, net)
            case Nobody => !found && !ambiguous
            case One(a) => found && !ambiguous && result == a
            case Many => !found && ambiguous
  {
    hide IsInfrastructureName;
    result, found, ambiguous := NOBODY, false, false;
    for i := 0 to |sections|
      invariant Exact(source, sections[..i], net) == if found then One(result) else Nobody
    {
      var s := sections[i];
      ghost var v := Exact(source, sections[..i], net);
      assert sections[..i + 1][..i] == sections[..i];
      for j := 0 to |s.entries|
        invariant ExactIn(v, source, s, s.entries[..j], net) == if found then One(result) else Nobody
      {
        var entry := s.entries[j];
        assert s.entries[..j + 1][..j] == s.entries[..j];
        if entry.address != source {
          continue;
        }
        var candidate := Attribution(s.node, "");
        if entry.address != s.originator && !IsInfrastructureName(entry.name, net) {
          candidate := candidate.(host := entry.name);
        }
        if found && candidate != result {
          ManyStaysIn(v, source, s, s.entries, j + 1, net);
          ManyStaysAfter(source, sections, i + 1, net);
          return NOBODY, false, true;
        }
        result := candidate;
        found := true;
      }
      assert s.entries[..|s.entries|] == s.entries;
    }
    assert sections[..|sections|] == sections;
  }

  // ----- owners of a route -----

  function Size(length: nat): (n: nat)
    requires length <= 32
    ensures n >= 1
  {
    Pow2(32 - length)
  }

  function Pow2(k: nat): (n: nat)
    ensures n >= 1
  {
    if k == 0 then 1 else 2 * Pow2(k - 1)
  }

  /** `Prefix.Contains`: the leading bits agree. */
  predicate Contains(p: Prefix, a: Bits)
  {
    p.Prefix? && p.base / Size(p.length) == a / Size(p.length)
  }

  /** `Prefix.Masked`: the bits after the prefix are cleared. */
  function Masked(p: Prefix): (q: Prefix)
  {
    match p
    case OtherPrefix => p
    case Prefix(base, length) =>
      ModAtMost(base, Size(length));
      Prefix(base - base % Size(length), length)
  }

  lemma ModAtMost(a: nat, n: nat)
    requires n >= 1
    ensures 0 <= a % n <= a
  {
    DivMod(a, n);
    MulMono(0, a / n, n);
  }

  lemma MulMono(a: nat, b: nat, n: nat)
    requires a <= b
    ensures a * n <= b * n
  {
    assert b * n == a * n + (b - a) * n;
  }

  predicate Owns(s: HostSection, e: Entry, route: Prefix, net: Net)
  {
    Contains(route, e.address) && IsLanName(e.name, s.node, net)
  }

  function OwnersIn(v: Verdict<string>, route: Prefix, s: HostSection, entries: seq<Entry>, net: Net): Verdict<string>
  {
    if entries == [] then v
    else
      var before := OwnersIn(v, route, s, entries[..|entries| - 1], net);
      if Owns(s, entries[|entries| - 1], route, net) then Meet(before, s.node) else before
  }

  function Owners(route: Prefix, sections: seq<HostSection>, net: Net): Verdict<string>
  {
    if sections == [] then Nobody
    else
      var s := sections[|sections| - 1];
      var before := Owners(route, sections[..|sections| - 1], net);
      if s.node == "" then before else OwnersIn(before, route, s, s.entries, net)
  }

  lemma {:induction false} ManyOwnersIn(v: Verdict<string>, route: Prefix, s: HostSection, entries: seq<Entry>, j: nat, net: Net)
    requires j <= |entries| && OwnersIn(v, route, s, entries[..j], net) == Many
    ensures OwnersIn(v, route, s, entries, net) == Many
    decreases |entries| - j
  {
    if j < |entries| {
      assert entries[..j + 1][..j] == entries[..j];
      ManyOwnersIn(v, route, s, entries, j + 1, net);
    } else {
      assert entries[..j] == entries;
    }
  }

  lemma {:induction false} ManyOwnersAfter(route: Prefix, sections: seq<HostSection>, i: nat, net: Net)
    requires i <= |sections| && Owners(route, sections[..i], net) == Many
    ensures Owners(route, sections, net) == Many
    decreases |sections| - i
  {
    if i < |sections| {
      assert sections[..i + 1][..i] == sections[..i];
      var s := sections[i];
      assert OwnersIn(Many, route, s, s.entries[..0], net) == Many;
      ManyOwnersIn(Many, route, s, s.entries, 0, net);
      ManyOwnersAfter(route, sections, i + 1, net);
    } else {
      assert sections[..i] == sections;
    }
  }

  function Attributed(v: Verdict<string>): Result<Attribution, ResolveError> {
    match v
    case Nobody => Ok(NOBODY)
    case One(node) => Ok(Attribution(node, ""))
    case Many => Err(Ambiguous)
  }

  /** `routeAttribution`, with its early exit. */
  method RouteAttribution(route: Prefix, sections: seq<HostSection>, net: Net)
    returns (r: Result<Attribution, ResolveError>)
    ensures r == Attributed(Owners(route, sections, net))
  {
    hide Contains, IsLanName;
    var node := "";
    for i := 0 to |sections|
      invariant Owners(route, sections[..i], net) == if node == "" then Nobody else One(node)
    {
      var s := sections[i];
      assert sections[..i + 1][..i] == sections[..i];
      if s.node == "" {
        continue;
      }
      ghost var v := Owners(route, sections[..i], net);
      for j := 0 to |s.entries|
        invariant OwnersIn(v, route, s, s.entries[..j], net) == if node == "" then Nobody else One(node)
      {
        var entry := s.entries[j];
        assert s.entries[..j + 1][..j] == s.entries[..j];
        if !Contains(route, entry.address) {
          continue;
        }
        if !IsLanName(entry.name, s.node, net) {
          continue;
        }
        if node != "" && node != s.node {
          ManyOwnersIn(v, route, s, s.entries, j + 1, net);
          ManyOwnersAfter(route, sections, i + 1, net);
          return Err(Ambiguous);
        }
        node := s.node;
      }
      assert s.entries[..|s.entries|] == s.entries;
    }
    assert sections[..|sections|] == sections;
    r := Ok(Attribution(node, ""));
  }

  // ----- the longest route -----

  const MAX_LINE := 65536

  /** The lines a `bufio.Scanner` yields: it stops at the first that does not fit its buffer. */
  function ScanLines(lines: seq<string>): seq<string> {
    if lines == [] || |lines[0]| >= MAX_LINE then [] else [lines[0]] + ScanLines(lines[1..])
  }

  /** Lines are scanned up to the first of at least 64 KiB. */
  lemma {:induction false} ScanStops(front: seq<string>, long: string, rest: seq<string>)
    requires forall i :: 0 <= i < |front| ==> |front[i]| < 65536
    ensures ScanLines(front) == front
    ensures |long| >= 65536 ==> ScanLines(front + [long] + rest) == front
  {
    var all := front + [long] + rest;
    if front != [] {
      ScanStops(front[1..], long, rest);
      assert all[0] == front[0] && all[1..] == front[1..] + [long] + rest;
    } else {
      assert all[0] == long;
    }
  }

  /** The destination of a route line. */
  function Destination(line: string, net: Net): (r: Option<Prefix>)
  {
    var fields := Words(line);
    if fields == [] || fields[0] == "default" then None
    else
      match net.prefix(fields[0])
      case Some(p) => Some(Masked(p))
      case None =>
        match net.addr(fields[0])
        case Some(V4(bits)) => Some(Prefix(bits, 32))
        case Some(Other) => Some(OtherPrefix)
        case None => None
  }

  /** The destination of a line, if it contains the source. */
  function Matching(source: Bits, line: string, net: Net): (r: Option<Prefix>)
    ensures r.Some? ==> r.value.Prefix?
  {
    match Destination(line, net)
    case None => None
    case Some(p) => if Contains(p, source) then Some(p) else None
  }

  /** `best` is a longest destination among the lines that contains the source, or there is none. */
  ghost predicate IsLongest(source: Bits, lines: set<string>, net: Net, best: Option<Prefix>) {
    match best
    case None => forall l :: l in lines ==> Matching(source, l, net).None?
    case Some(p) =>
      && p.Prefix?
      && (exists l :: l in lines && Matching(source, l, net) == Some(p))
      && (forall l :: l in lines && Matching(source, l, net).Some? ==> Matching(source, l, net).value.length <= p.length)
  }

  /** `longestRoute`. */
  method LongestRoute(source: Bits, output: string, net: Net) returns (best: Option<Prefix>)
    ensures IsLongest(source, Elements(ScanLines(Split(output, '\n'))), net, best)
    ensures best.Some? ==> best.value.Prefix?
  {
    hide Matching;
    var lines := ScanLines(Split(output, '\n'));
    best := None;
    for i := 0 to |lines|
      invariant IsLongest(source, Elements(lines[..i]), net, best)
      invariant best.Some? ==> best.value.Prefix?
    {
      assert lines[..i + 1] == lines[..i] + [lines[i]];
      assert Elements(lines[..i + 1]) == Elements(lines[..i]) + {lines[i]};
      var prefix := Matching(source, lines[i], net);
      if prefix.None? {
        continue;
      }
      if best.None? || prefix.value.length > best.value.length {
        best := prefix;
      }
    }
    assert lines[..|lines|] == lines;
  }

  // ----- a masked prefix is determined by its length and one address in it -----

  lemma MaskedBase(p: Prefix, a: Bits)
    requires p.Prefix? && Contains(p, a)
    ensures Masked(p).base == a - a % Size(p.length)
  {
    hide Size;
    DivMod(p.base, Size(p.length));
    DivMod(a, Size(p.length));
  }

  lemma DivMod(a: nat, n: nat)
    requires n >= 1
    ensures a == (a / n) * n + a % n
  {
  }

  lemma MultipleDiv(q: nat, n: nat)
    requires n >= 1
    ensures q * n / n == q
  {
    assert q * n == q * n + 0;
    DivUnique(q * n, n, q, 0);
  }

  lemma DivUnique(a: nat, n: nat, q: nat, r: nat)
    requires n >= 1 && a == q * n + r && r < n
    ensures a / n == q
  {
    DivMod(a, n);
    var q' := a / n;
    if q' < q {
      MulMono(q' + 1, q, n);
    } else if q < q' {
      MulMono(q + 1, q', n);
    }
  }

  /** Masking does not change what a prefix contains. */
  lemma MaskedSameMembers(p: Prefix, a: Bits)
    requires p.Prefix?
    ensures Contains(Masked(p), a) <==> Contains(p, a)
  {
    hide Size;
    var n := Size(p.length);
    var q := p.base / n;
    DivMod(p.base, n);
    MultipleDiv(q, n);
    assert Masked(p).base == q * n;
  }

  lemma DestinationIsMasked(source: Bits, line: string, net: Net)
    requires Matching(source, line, net).Some?
    ensures var p := Matching(source, line, net).value; p.base == source - source % Size(p.length)
  {
    var fields := Words(line);
    match net.prefix(fields[0])
    case Some(p) =>
      MaskedSameMembers(p, source);
      MaskedBase(p, source);
    case None =>
      var p := Matching(source, line, net).value;
      assert Size(32) == 1;
      assert p.base == source;
  }

  /** Two destinations of equal length that contain the source are equal, so the longest one does not
      depend on the order of the lines or on duplicates. */
  lemma LongestIsUnique(source: Bits, lines: set<string>, net: Net, p: Option<Prefix>, q: Option<Prefix>)
    requires IsLongest(source, lines, net, p) && IsLongest(source, lines, net, q)
    ensures p == q
  {
    hide Matching, Size;
    if p.Some? {
      var l :| l in lines && Matching(source, l, net) == p;
      assert q.Some?;
      var m :| m in lines && Matching(source, m, net) == q;
      DestinationIsMasked(source, l, net);
      DestinationIsMasked(source, m, net);
    }
  }

  // ----- the whole resolution -----

  /** `Resolve`. A source that is no IPv4 address matches no entry and owns no LAN name. */
  method Resolve(source: string, routes: string, records: seq<string>, net: Net)
    returns (r: Result<Attribution, ResolveError>)
    ensures IsResolution(source, routes, records, net, r)
  {
    var address := net.addr(source);
    if address.None? {
      return Err(InvalidSource);
    }
    if address.value.Other? {
      return Ok(NOBODY);
    }
    var bits := address.value.bits;
    var sections := ParseHostRecords(records, net);
    var exact, found, ambiguous := ExactHostAttribution(bits, sections, net);
    if ambiguous {
      return Err(Ambiguous);
    }
    if found {
      return Ok(exact);
    }
    var route := LongestRoute(bits, routes, net);
    if route.None? {
      return Ok(NOBODY);
    }
    r := RouteAttribution(route.value, sections, net);
  }

  ghost predicate IsResolution(source: string, routes: string, records: seq<string>, net: Net,
                               r: Result<Attribution, ResolveError>) {
    match net.addr(source)
    case None => r == Err(InvalidSource)
    case Some(Other) => r == Ok(NOBODY)
    case Some(V4(bits)) =>
      var sections := HostSections(Parse(records, net), net);
      match Exact(bits, sections, net)
      case One(a) => r == Ok(a)
      case Many => r == Err(Ambiguous)
      case Nobody =>
        exists route: Option<Prefix> ::
          && IsLongest(bits, Elements(ScanLines(Split(routes, '\n'))), net, route)
          && r == if route.None? then Ok(NOBODY) else Attributed(Owners(route.value, sections, net))
  }

  // ----- verdicts are about sets -----

  /** The verdict on a set of candidates: it is unanimous, empty, or neither. */
  ghost function Summary<T(!new)>(s: set<T>): Verdict<T> {
    if s == {} then Nobody
    else
      var x :| x in s;
      if s == {x} then One(x) else Many
  }

  lemma SummaryOf<T(!new)>(s: set<T>, x: T)
    ensures Summary(s) == One(x) <==> s == {x}
  {
  }

  lemma MeetSummary<T(!new)>(s: set<T>, x: T)
    ensures Meet(Summary(s), x) == Summary(s + {x})
  {
    if s == {} {
      assert s + {x} == {x};
      SummaryOf(s + {x}, x);
    } else {
      var y :| y in s;
      SummaryOf(s, y);
      SummaryOf(s + {x}, y);
      if s == {y} {
        assert x == y ==> s + {x} == s;
        assert x != y ==> x in s + {x};
      } else {
        SummaryIsMany(s, y);
        var z :| z in s && z != y;
        SummaryIsMany(s + {x}, y);
      }
    }
  }

  lemma SummaryIsMany<T(!new)>(s: set<T>, y: T)
    requires y in s && s != {y}
    ensures Summary(s) == Many
  {
    forall x
      ensures s != {x}
    {
      assert x != y ==> y !in {x};
    }
  }

  /** The candidates for an exact match. */
  ghost function ExactSet(source: Bits, sections: set<HostSection>, net: Net): set<Attribution> {
    set s, e | s in sections && e in s.entries && e.address == source :: Candidate(s, e, net)
  }

  /** The nodes that own a LAN name inside the route. */
  ghost function OwnerSet(route: Prefix, sections: set<HostSection>, net: Net): set<string> {
    set s, e | s in sections && e in s.entries && s.node != "" && Owns(s, e, route, net) :: s.node
  }

  ghost function ExactOf(source: Bits, s: HostSection, entries: seq<Entry>, net: Net): set<Attribution> {
    set e | e in entries && e.address == source :: Candidate(s, e, net)
  }

  ghost function OwnersOf(route: Prefix, s: HostSection, entries: seq<Entry>, net: Net): set<string> {
    set e | e in entries && Owns(s, e, route, net) :: s.node
  }

  lemma {:induction false} ExactInIsSummary(before: set<Attribution>, source: Bits, s: HostSection, entries: seq<Entry>, net: Net)
    ensures ExactIn(Summary(before), source, s, entries, net) == Summary(before + ExactOf(source, s, entries, net))
  {
    hide Summary, Candidate;
    if entries == [] {
      assert before + ExactOf(source, s, entries, net) == before;
    } else {
      var front, e := entries[..|entries| - 1], entries[|entries| - 1];
      ExactInIsSummary(before, source, s, front, net);
      assert entries == front + [e];
      var all := before + ExactOf(source, s, front, net);
      if e.address == source {
        MeetSummary(all, Candidate(s, e, net));
        assert all + {Candidate(s, e, net)} == before + ExactOf(source, s, entries, net);
      } else {
        assert all == before + ExactOf(source, s, entries, net);
      }
    }
  }

  lemma {:induction false} OwnersInIsSummary(before: set<string>, route: Prefix, s: HostSection, entries: seq<Entry>, net: Net)
    ensures OwnersIn(Summary(before), route, s, entries, net) == Summary(before + OwnersOf(route, s, entries, net))
  {
    hide Summary, Owns;
    if entries == [] {
      assert before + OwnersOf(route, s, entries, net) == before;
    } else {
      var front, e := entries[..|entries| - 1], entries[|entries| - 1];
      OwnersInIsSummary(before, route, s, front, net);
      assert entries == front + [e];
      var all := before + OwnersOf(route, s, front, net);
      if Owns(s, e, route, net) {
        MeetSummary(all, s.node);
        assert all + {s.node} == before + OwnersOf(route, s, entries, net);
      } else {
        assert all == before + OwnersOf(route, s, entries, net);
      }
    }
  }

  /** The early-exit loop finds the verdict on the set of all candidates. */
  lemma {:induction false} ExactIsSummary(source: Bits, sections: seq<HostSection>, net: Net)
    ensures Exact(source, sections, net) == Summary(ExactSet(source, Elements(sections), net))
  {
    hide Summary, Candidate, ExactIn;
    if sections == [] {
      assert ExactSet(source, Elements(sections), net) == {};
      EmptySummary<Attribution>();
    } else {
      var front, s := sections[..|sections| - 1], sections[|sections| - 1];
      ExactIsSummary(source, front, net);
      ExactInIsSummary(ExactSet(source, Elements(front), net), source, s, s.entries, net);
      assert sections == front + [s];
      NextElements(front, s);
      assert ExactSet(source, Elements(sections), net)
          == ExactSet(source, Elements(front), net) + ExactOf(source, s, s.entries, net);
    }
  }

  lemma EmptySummary<T(!new)>()
    ensures Summary<T>({}) == Nobody
  {
  }

  lemma {:induction false} OwnersIsSummary(route: Prefix, sections: seq<HostSection>, net: Net)
    ensures Owners(route, sections, net) == Summary(OwnerSet(route, Elements(sections), net))
  {
    hide Summary, Owns, OwnersIn;
    if sections == [] {
      assert OwnerSet(route, Elements(sections), net) == {};
      EmptySummary<string>();
    } else {
      var front, s := sections[..|sections| - 1], sections[|sections| - 1];
      OwnersIsSummary(route, front, net);
      assert sections == front + [s];
      NextElements(front, s);
      var before := OwnerSet(route, Elements(front), net);
      if s.node == "" {
        assert OwnerSet(route, Elements(sections), net) == before;
      } else {
        OwnersInIsSummary(before, route, s, s.entries, net);
        assert OwnerSet(route, Elements(sections), net) == before + OwnersOf(route, s, s.entries, net);
      }
    }
  }

  // ----- the order of records and routes does not matter -----

  lemma {:induction false} SectionsOfRecords(records: seq<string>, net: Net)
    ensures Elements(Parse(records, net)) == set r, s | r in records && s in ParseRecord(r, net) :: s
  {
    hide Parse, ParseRecord;
    if records == [] {
      ParseNothing(net);
    } else {
      var front, last := records[..|records| - 1], records[|records| - 1];
      SectionsOfRecords(front, net);
      assert records == front + [last];
      ParseAppends(front, last, net);
      var before, own := Parse(front, net), ParseRecord(last, net);
      assert forall s :: s in before + own <==> s in Elements(before) || s in own;
    }
  }

  lemma SameSections(records: seq<string>, records': seq<string>, net: Net)
    requires Elements(records) == Elements(records')
    ensures Elements(HostSections(Parse(records, net), net)) == Elements(HostSections(Parse(records', net), net))
  {
    hide Parse, ParseRecord, HostSectionOf;
    SectionsOfRecords(records, net);
    SectionsOfRecords(records', net);
    assert forall r :: r in records <==> r in Elements(records);
    assert forall r :: r in records' <==> r in Elements(records');
    MappedElements(Parse(records, net), net);
    MappedElements(Parse(records', net), net);
  }

  lemma MappedElements(sections: seq<Section>, net: Net)
    ensures Elements(HostSections(sections, net)) == set s | s in Elements(sections) :: HostSectionOf(s, net)
  {
    hide HostSectionOf;
    var mapped := HostSections(sections, net);
    forall i | 0 <= i < |sections|
      ensures sections[i] in Elements(sections) && HostSectionOf(sections[i], net) in Elements(mapped)
    {
      assert mapped[i] in mapped;
    }
  }

  ghost predicate ShortLines(lines: seq<string>) {
    forall i :: 0 <= i < |lines| ==> |lines[i]| < MAX_LINE
  }

  lemma {:induction false} ShortLinesScanned(lines: seq<string>)
    requires ShortLines(lines)
    ensures ScanLines(lines) == lines
  {
    if lines != [] {
      ShortLinesScanned(lines[1..]);
    }
  }

  /** The answer is determined, and depends only on which route lines and which host records there are:
      not on their order and not on repetitions. */
  lemma ResolutionIsUnordered(source: string, routes: string, routes': string, records: seq<string>,
                              records': seq<string>, net: Net,
                              r: Result<Attribution, ResolveError>, r': Result<Attribution, ResolveError>)
    requires IsResolution(source, routes, records, net, r) && IsResolution(source, routes', records', net, r')
    requires Elements(records) == Elements(records')
    requires ShortLines(Split(routes, '\n')) && ShortLines(Split(routes', '\n'))
    requires Elements(Split(routes, '\n')) == Elements(Split(routes', '\n'))
    ensures r == r'
  {
    hide Exact, Owners, Parse, IsLongest, Split, ScanLines, HostSections;
    ShortLinesScanned(Split(routes, '\n'));
    ShortLinesScanned(Split(routes', '\n'));
    match net.addr(source)
    case None =>
    case Some(Other) =>
    case Some(V4(bits)) =>
      var sections, sections' := HostSections(Parse(records, net), net), HostSections(Parse(records', net), net);
      SameSections(records, records', net);
      ExactIsSummary(bits, sections, net);
      ExactIsSummary(bits, sections', net);
      if Exact(bits, sections, net).Nobody? {
        var lines := Elements(Split(routes, '\n'));
        var p: Option<Prefix> :| IsLongest(bits, lines, net, p)
          && r == if p.None? then Ok(NOBODY) else Attributed(Owners(p.value, sections, net));
        var q: Option<Prefix> :| IsLongest(bits, lines, net, q)
          && r' == if q.None? then Ok(NOBODY) else Attributed(Owners(q.value, sections', net));
        LongestIsUnique(bits, lines, net, p, q);
        if p.Some? {
          OwnersIsSummary(p.value, sections, net);
          OwnersIsSummary(p.value, sections', net);
        }
      }
  }

  /** Ambiguity is reported exactly when two exact candidates differ or, with no exact match, two
      nodes own a LAN name inside the longest route. */
  lemma AmbiguousExactly(source: string, bits: Bits, routes: string, records: seq<string>, net: Net,
                         r: Result<Attribution, ResolveError>)
    requires IsResolution(source, routes, records, net, r) && net.addr(source) == Some(V4(bits))
    ensures var sections := Elements(HostSections(Parse(records, net), net));
            var exact := ExactSet(bits, sections, net);
            r == Err(Ambiguous) <==>
              || HasTwo(exact)
              || (exact == {} && exists route ::
                   && IsLongest(bits, Elements(ScanLines(Split(routes, '\n'))), net, Some(route))
                   && HasTwo(OwnerSet(route, sections, net)))
  {
    hide Exact, Owners, Parse, IsLongest, Split, ScanLines, HostSections, ExactSet, OwnerSet, Summary;
    var sections := HostSections(Parse(records, net), net);
    var all := Elements(sections);
    var exact := ExactSet(bits, all, net);
    ExactIsSummary(bits, sections, net);
    SummaryCases(exact);
    if exact == {} {
      var lines := Elements(ScanLines(Split(routes, '\n')));
      var p: Option<Prefix> :| IsLongest(bits, lines, net, p)
        && r == if p.None? then Ok(NOBODY) else Attributed(Owners(p.value, sections, net));
      forall q | IsLongest(bits, lines, net, Some(q))
        ensures p == Some(q)
      {
        LongestIsUnique(bits, lines, net, p, Some(q));
      }
      if p.Some? {
        OwnersIsSummary(p.value, sections, net);
        SummaryCases(OwnerSet(p.value, all, net));
      }
    }
  }

  ghost predicate HasTwo<T(!new)>(s: set<T>) {
    exists a, b :: a in s && b in s && a != b
  }

  lemma SummaryCases<T(!new)>(s: set<T>)
    ensures Summary(s) == Nobody <==> s == {}
    ensures Summary(s) == Many <==> HasTwo(s)
  {
    if s != {} {
      var x :| x in s;
      if s == {x} {
        SummaryOf(s, x);
      } else {
        SummaryIsMany(s, x);
        var y :| y in s && y != x;
      }
    }
  }

  // ----- the destination on a route line -----

  /** The first word of a line is its destination: none for the default route, the addresses of a
      prefix, or a single address. */
  lemma DestinationOnLine(a: string, word: string, rest: string, x: Bits, net: Net)
    requires IsSpaces(a) && IsWord(word) && EndsWord(rest)
    ensures var to, prefix := Destination(a + word + rest, net), net.prefix(word);
            if word == "default" then to.None?
            else if prefix.Some? then
              to.Some? && (prefix.value.Prefix? ==>
                             && to.value.Prefix? && to.value.length == prefix.value.length
                             && (Contains(to.value, x) <==> Contains(prefix.value, x)))
            else if AddressOf(word, net).Some? then
              to.Some? && (Contains(to.value, x) <==> x == AddressOf(word, net).value)
            else to.Some? ==> !Contains(to.value, x)
  {
    hide IsSpaces, IsWord, EndsWord, Words, Masked, Size;
    WordsNext(a, word, rest);
    if net.prefix(word).Some? && net.prefix(word).value.Prefix? {
      MaskedSameMembers(net.prefix(word).value, x);
      MaskedLength(net.prefix(word).value);
    }
    OneAddress();
  }

  lemma MaskedLength(p: Prefix)
    requires p.Prefix?
    ensures Masked(p).Prefix? && Masked(p).length == p.length
  {
  }

  lemma OneAddress()
    ensures Size(32) == 1
  {
  }

  // ----- the answer in terms of entries and routes -----

  /** Bit `i` of an address, counted from the left. */
  function Bit(a: Bits, i: nat): nat
    requires i < 32
  {
    a / Pow2(31 - i) % 2
  }

  lemma DivTwice(x: nat, n: nat)
    requires n >= 1
    ensures x / (2 * n) == x / n / 2
  {
    DivMod(x, n);
    var q := x / n;
    assert q == 2 * (q / 2) + q % 2;
    var r := q % 2 * n + x % n;
    MulMono(q % 2, 1, n);
    assert x == q / 2 * (2 * n) + r by {
      assert q * n == 2 * (q / 2) * n + q % 2 * n;
    }
    DivUnique(x, 2 * n, q / 2, r);
  }

  lemma {:induction false} LeadingBits(x: Bits, y: Bits, length: nat)
    requires length <= 32
    ensures x / Pow2(32 - length) == y / Pow2(32 - length) <==> forall i :: 0 <= i < length ==> Bit(x, i) == Bit(y, i)
  {
    if length == 0 {
      AllBits(x);
      AllBits(y);
    } else {
      LeadingBits(x, y, length - 1);
      var n := Pow2(32 - length);
      assert Pow2(32 - (length - 1)) == 2 * n;
      DivTwice(x, n);
      DivTwice(y, n);
      assert Bit(x, length - 1) == x / n % 2 && Bit(y, length - 1) == y / n % 2;
    }
  }

  lemma AllBits(x: Bits)
    ensures x / Pow2(32) == 0
  {
    assert Pow2(4) == 16;
    assert Pow2(8) == 16 * Pow2(4);
    assert Pow2(12) == 16 * Pow2(8);
    assert Pow2(16) == 16 * Pow2(12);
    assert Pow2(20) == 16 * Pow2(16);
    assert Pow2(24) == 16 * Pow2(20);
    assert Pow2(28) == 16 * Pow2(24);
    assert Pow2(32) == 16 * Pow2(28);
  }

  /** A prefix contains exactly the addresses with its leading bits (section 3.1 of RFC 4632). */
  lemma ContainsLeadingBits(p: Prefix, a: Bits)
    requires p.Prefix?
    ensures Contains(p, a) <==> forall i :: 0 <= i < p.length ==> Bit(p.base, i) == Bit(a, i)
  {
    LeadingBits(p.base, a, p.length);
  }

  /** The node of a section is the name of the first entry at the originator that is a target other
      than `all`, or empty if there is none. */
  lemma {:induction false} NodeIsFirst(originator: Bits, entries: seq<Entry>, i: nat, net: Net)
    requires i <= |entries|
    requires forall j :: 0 <= j < i ==> entries[j].address != originator || T.Parse(entries[j].name, net.lower) in {None, Some("all")}
    ensures i == |entries| ==> NodeOf(originator, entries, net) == ""
    ensures i < |entries| && entries[i].address == originator
            && T.Parse(entries[i].name, net.lower) !in {None, Some("all")} ==>
              NodeOf(originator, entries, net) == entries[i].name
    decreases |entries|
  {
    hide T.Parse;
    if entries != [] {
      var front := entries[..|entries| - 1];
      if i < |entries| {
        NodeIsFirst(originator, front, i, net);
        if i < |front| {
          NodeNotEmpty(entries[i].name, net);
        }
      } else {
        NodeIsFirst(originator, front, i - 1, net);
      }
    }
  }

  lemma NodeNotEmpty(name: string, net: Net)
    ensures T.Parse(name, net.lower).Some? ==> name != ""
  {
  }

  /** A name of the mesh's own interfaces. */
  ghost predicate NamesInterface(name: string, net: Net) {
    var lower := T.ToLower(name, net.lower);
    && ((exists rest :: lower == "lan." + rest) || (exists rest :: lower == "dtdlink." + rest)
        || (exists rest :: lower == "mid." + rest) || (exists rest :: lower == "xlink." + rest))
    && (exists front :: lower == front + ".local.mesh")
  }

  lemma InterfaceNames(name: string, net: Net)
    ensures IsInfrastructureName(name, net) <==> NamesInterface(name, net)
  {
    hide T.ToLower;
    var lower := T.ToLower(name, net.lower);
    PrefixAndRest(lower, "lan.");
    PrefixAndRest(lower, "dtdlink.");
    PrefixAndRest(lower, "mid.");
    PrefixAndRest(lower, "xlink.");
    FrontAndSuffix(lower, ".local.mesh");
  }

  lemma PrefixAndRest(s: string, prefix: string)
    ensures HasPrefix(s, prefix) <==> exists rest :: s == prefix + rest
  {
    if HasPrefix(s, prefix) {
      assert s == prefix + s[|prefix|..];
    }
  }

  lemma FrontAndSuffix(s: string, suffix: string)
    ensures HasSuffix(s, suffix) <==> exists front :: s == front + suffix
  {
    if HasSuffix(s, suffix) {
      assert s == s[..|s| - |suffix|] + suffix;
    }
  }

  ghost predicate IsEntryOf(sections: set<HostSection>, s: HostSection, e: Entry) {
    s in sections && e in s.entries
  }

  /** The host that an entry names: none at the originator itself or under a name of an interface. */
  ghost function HostNamed(s: HostSection, e: Entry, net: Net): string {
    if e.address == s.originator || NamesInterface(e.name, net) then "" else e.name
  }

  /** `node` has an entry for its LAN inside the route. */
  ghost predicate OwnsLan(sections: set<HostSection>, node: string, route: Prefix, net: Net) {
    node != "" && exists s, e :: IsEntryOf(sections, s, e) && s.node == node && Contains(route, e.address)
                                 && Fold(e.name, "lan." + node + ".local.mesh", net)
  }

  ghost predicate IsOnlyOwner(sections: set<HostSection>, node: string, route: Prefix, net: Net) {
    OwnsLan(sections, node, route, net) && forall other :: OwnsLan(sections, other, route, net) ==> other == node
  }

  lemma OwnersOwn(sections: set<HostSection>, node: string, route: Prefix, net: Net)
    ensures node in OwnerSet(route, sections, net) <==> OwnsLan(sections, node, route, net)
  {
    hide Contains, Fold;
    if OwnsLan(sections, node, route, net) {
      var s, e :| IsEntryOf(sections, s, e) && s.node == node && Contains(route, e.address)
        && Fold(e.name, "lan." + node + ".local.mesh", net);
      assert Owns(s, e, route, net);
    }
    if node in OwnerSet(route, sections, net) {
      var s, e :| s in sections && e in s.entries && s.node != "" && Owns(s, e, route, net) && s.node == node;
      assert IsEntryOf(sections, s, e);
    }
  }

  /** With entries at the source: the answer is the node of their section and the host they name, if
      they agree on it, and ambiguous if they do not. */
  lemma ExactAnswer(source: string, bits: Bits, routes: string, records: seq<string>, net: Net,
                    r: Result<Attribution, ResolveError>, s: HostSection, e: Entry)
    requires IsResolution(source, routes, records, net, r) && net.addr(source) == Some(V4(bits))
    requires IsEntryOf(Elements(HostSections(Parse(records, net), net)), s, e) && e.address == bits
    ensures if forall s', e' :: IsEntryOf(Elements(HostSections(Parse(records, net), net)), s', e') && e'.address == bits ==>
                 s'.node == s.node && HostNamed(s', e', net) == HostNamed(s, e, net)
            then r.Ok? && r.value.node == s.node && r.value.host == HostNamed(s, e, net)
            else r == Err(Ambiguous)
  {
    hide Exact, Owners, Parse, IsLongest, Split, ScanLines, HostSections, Summary, IsInfrastructureName, NamesInterface;
    var sections := HostSections(Parse(records, net), net);
    var all := Elements(sections);
    var exact := ExactSet(bits, all, net);
    ExactIsSummary(bits, sections, net);
    SummaryCases(exact);
    var a := Attribution(s.node, HostNamed(s, e, net));
    CandidateNames(s, e, net);
    assert a in exact;
    if forall s', e' :: IsEntryOf(all, s', e') && e'.address == bits ==>
         s'.node == s.node && HostNamed(s', e', net) == HostNamed(s, e, net) {
      forall x | x in exact
        ensures x == a
      {
        var s', e' :| s' in all && e' in s'.entries && e'.address == bits && Candidate(s', e', net) == x;
        CandidateNames(s', e', net);
        assert IsEntryOf(all, s', e');
      }
      assert exact == {a};
      SummaryOf(exact, a);
    } else {
      var s', e' :| IsEntryOf(all, s', e') && e'.address == bits
        && !(s'.node == s.node && HostNamed(s', e', net) == HostNamed(s, e, net));
      CandidateNames(s', e', net);
      assert Candidate(s', e', net) in exact;
    }
  }

  lemma CandidateNames(s: HostSection, e: Entry, net: Net)
    ensures Candidate(s, e, net) == Attribution(s.node, HostNamed(s, e, net))
  {
    InterfaceNames(e.name, net);
  }

  /** Without entries at the source: the answer is a node, and no host, exactly if it alone owns a LAN
      inside the longest route to the source; and nobody exactly if no route contains the source or
      nobody owns a LAN inside the longest. */
  lemma RouteAnswer(source: string, bits: Bits, routes: string, records: seq<string>, net: Net,
                    r: Result<Attribution, ResolveError>, node: string)
    requires IsResolution(source, routes, records, net, r) && net.addr(source) == Some(V4(bits)) && node != ""
    requires forall s, e :: IsEntryOf(Elements(HostSections(Parse(records, net), net)), s, e) ==> e.address != bits
    ensures var sections := Elements(HostSections(Parse(records, net), net));
            var lines := Elements(ScanLines(Split(routes, '\n')));
            && (r.Ok? && r.value.node == node <==>
                  exists p :: IsLongest(bits, lines, net, Some(p)) && IsOnlyOwner(sections, node, p, net))
            && (r.Ok? && r.value.node == "" <==>
                  forall p :: IsLongest(bits, lines, net, Some(p)) ==> forall n :: !OwnsLan(sections, n, p, net))
    ensures r.Ok? ==> r.value.host == ""
  {
    hide Exact, Owners, Parse, IsLongest, Split, ScanLines, HostSections, OwnerSet, Summary, OwnsLan;
    var sections := HostSections(Parse(records, net), net);
    var all, lines := Elements(sections), Elements(ScanLines(Split(routes, '\n')));
    ExactIsSummary(bits, sections, net);
    NoneAtSource(bits, all, net);
    EmptySummary<Attribution>();
    var route: Option<Prefix> :| IsLongest(bits, lines, net, route)
      && r == if route.None? then Ok(NOBODY) else Attributed(Owners(route.value, sections, net));
    forall q | IsLongest(bits, lines, net, Some(q))
      ensures route == Some(q)
    {
      LongestIsUnique(bits, lines, net, route, Some(q));
    }
    if route.Some? {
      OwnersIsSummary(route.value, sections, net);
      OwnerAnswer(all, route.value, net, node);
    }
  }

  lemma NoneAtSource(bits: Bits, all: set<HostSection>, net: Net)
    requires forall s, e :: IsEntryOf(all, s, e) ==> e.address != bits
    ensures ExactSet(bits, all, net) == {}
  {
    forall s, e | s in all && e in s.entries
      ensures e.address != bits
    {
      assert IsEntryOf(all, s, e);
    }
  }

  lemma OwnerAnswer(all: set<HostSection>, route: Prefix, net: Net, node: string)
    requires node != ""
    ensures var r := Attributed(Summary(OwnerSet(route, all, net)));
            && (r.Ok? && r.value.node == node <==> IsOnlyOwner(all, node, route, net))
            && (r.Ok? && r.value.node == "" <==> forall n :: !OwnsLan(all, n, route, net))
            && (r.Ok? ==> r.value.host == "")
  {
    hide OwnerSet, OwnsLan, Summary;
    var owners := OwnerSet(route, all, net);
    forall n
      ensures n in owners <==> OwnsLan(all, n, route, net)
    {
      OwnersOwn(all, n, route, net);
    }
    SummaryCases(owners);
    SummaryOf(owners, node);
    NoOwnerIsEmpty(all, route, net);
    if Summary(owners).One? {
      var n := Summary(owners).value;
      SummaryOf(owners, n);
      assert n in owners;
    }
    assert IsOnlyOwner(all, node, route, net) <==> owners == {node};
  }

  lemma NoOwnerIsEmpty(all: set<HostSection>, route: Prefix, net: Net)
    ensures "" !in OwnerSet(route, all, net)
  {
  }
}
