/** Routing by path. */
module Mux {
  import opened Text
  import opened Paths

  /** A literal when `wildcard` is empty. */
  datatype Segment = Segment(literal: string, wildcard: string)

  datatype Route = Route(pattern: string, segs: seq<Segment>, subtree: bool, handler: nat, score: nat)

  type Values = map<string, string>

  /** `url.PathUnescape`; nothing is assumed of it. */
  type Unescape = string -> Option<string>

  datatype Request = Request(path: string, escapedPath: string, rawQuery: string)

  datatype Reply = Served(handler: nat, values: Values) | Missing | Redirected(location: string)

  // ----- patterns -----

  /** `strings.Trim(s, "/")`. */
  function TrimSlashes(s: string): string
    decreases |s|
  {
    if s == "" then s
    else if s[0] == '/' then TrimSlashes(s[1..])
    else if s[|s| - 1] == '/' then TrimSlashes(s[..|s| - 1])
    else s
  }

  function SegmentOf(part: string): Segment {
    if HasPrefix(part, "{") && HasSuffix(part, "}") && |part| >= 2 then Segment("", part[1..|part| - 1])
    else Segment(part, "")
  }

  function Parts(pattern: string): seq<string> {
    if TrimSlashes(pattern) == "" then [] else Split(TrimSlashes(pattern), '/')
  }

  function Segments(parts: seq<string>): (segs: seq<Segment>)
    ensures |segs| == |parts|
  {
    seq(|parts|, i requires 0 <= i < |parts| => SegmentOf(parts[i]))
  }

  function Literals(segs: seq<Segment>): (n: nat)
    ensures n <= |segs|
  {
    if segs == [] then 0
    else Literals(segs[..|segs| - 1]) + if segs[|segs| - 1].wildcard == "" then 1 else 0
  }

  function Score(segs: seq<Segment>, subtree: bool): nat {
    |segs| + 10 * Literals(segs) + if subtree then 0 else 1000
  }

  function RouteOf(pattern: string, handler: nat): Route {
    var segs, subtree := Segments(Parts(pattern)), HasSuffix(pattern, "/");
    Route(pattern, segs, subtree, handler, Score(segs, subtree))
  }

  // ----- matching -----

  predicate FitsSegment(seg: Segment, part: string, unescape: Unescape) {
    match unescape(part)
    case None => false
    case Some(text) => if seg.wildcard == "" then seg.literal == text else text != ""
  }

  predicate FitsLength(rt: Route, parts: seq<string>) {
    if rt.subtree then |rt.segs| == 0 || |rt.segs| + 1 <= |parts| else |parts| == |rt.segs|
  }

  ghost predicate Fits(rt: Route, parts: seq<string>, unescape: Unescape) {
    FitsLength(rt, parts) && forall i :: 0 <= i < |rt.segs| && i < |parts| ==> FitsSegment(rt.segs[i], parts[i], unescape)
  }

  /** The values of the wildcards: each is the text of the last segment of that name. */
  ghost predicate AreValues(values: Values, segs: seq<Segment>, parts: seq<string>, unescape: Unescape) {
    && (forall i :: 0 <= i < |segs| && i < |parts| && segs[i].wildcard != "" ==> segs[i].wildcard in values)
    && forall name :: name in values ==> IsLastText(name, values[name], segs, parts, unescape)
  }

  ghost predicate IsLastText(name: string, text: string, segs: seq<Segment>, parts: seq<string>, unescape: Unescape) {
    exists i :: 0 <= i < |segs| && i < |parts| && name != "" && segs[i].wildcard == name && unescape(parts[i]) == Some(text)
                && forall j :: i < j < |segs| ==> segs[j].wildcard != name
  }

  /** `matches`. */
  method Matches(rt: Route, parts: seq<string>, unescape: Unescape) returns (values: Values, ok: bool)
    ensures ok <==> Fits(rt, parts, unescape)
    ensures ok ==> AreValues(values, rt.segs, parts, unescape)
  {
    values := map[];
    if rt.subtree {
      if |parts| < |rt.segs| + 1 && |rt.segs| > 0 {
        return values, false;
      }
    } else if |parts| != |rt.segs| {
      return values, false;
    }
    for i := 0 to |rt.segs|
      invariant forall k :: 0 <= k < i ==> FitsSegment(rt.segs[k], parts[k], unescape)
      invariant AreValues(values, rt.segs[..i], parts, unescape)
    {
      var seg := rt.segs[i];
      var part := unescape(parts[i]);
      assert !FitsSegment(seg, parts[i], unescape) ==> !Fits(rt, parts, unescape);
      if part.None? {
        return values, false;
      }
      if seg.wildcard == "" {
        if seg.literal != part.value {
          return values, false;
        }
        OneMoreLiteral(values, rt.segs, i, parts, unescape);
        continue;
      }
      if part.value == "" {
        return values, false;
      }
      OneMoreWildcard(values, rt.segs, i, parts, unescape);
      values := values[seg.wildcard := part.value];
    }
    assert rt.segs[..|rt.segs|] == rt.segs;
    ok := true;
  }

  lemma OneMoreLiteral(values: Values, segs: seq<Segment>, i: nat, parts: seq<string>, unescape: Unescape)
    requires i < |segs| && i < |parts| && segs[i].wildcard == ""
    requires AreValues(values, segs[..i], parts, unescape)
    ensures AreValues(values, segs[..i + 1], parts, unescape)
  {
    forall name | name in values
      ensures IsLastText(name, values[name], segs[..i + 1], parts, unescape)
    {
      assert IsLastText(name, values[name], segs[..i], parts, unescape);
      var k :| 0 <= k < |segs[..i]| && k < |parts| && name != "" && segs[..i][k].wildcard == name
        && unescape(parts[k]) == Some(values[name]) && forall j :: k < j < |segs[..i]| ==> segs[..i][j].wildcard != name;
      assert segs[..i + 1][k].wildcard == name;
      assert forall j :: k < j < i ==> segs[..i + 1][j] == segs[..i][j];
    }
  }

  lemma OneMoreWildcard(values: Values, segs: seq<Segment>, i: nat, parts: seq<string>, unescape: Unescape)
    requires i < |segs| && i < |parts| && segs[i].wildcard != "" && unescape(parts[i]).Some?
    requires AreValues(values, segs[..i], parts, unescape)
    ensures AreValues(values[segs[i].wildcard := unescape(parts[i]).value], segs[..i + 1], parts, unescape)
  {
    var after := values[segs[i].wildcard := unescape(parts[i]).value];
    forall name | name in after
      ensures IsLastText(name, after[name], segs[..i + 1], parts, unescape)
    {
      if name == segs[i].wildcard {
        assert segs[..i + 1][i].wildcard == name;
      } else {
        assert IsLastText(name, values[name], segs[..i], parts, unescape);
        var k :| 0 <= k < |segs[..i]| && k < |parts| && name != "" && segs[..i][k].wildcard == name
          && unescape(parts[k]) == Some(values[name]) && forall j :: k < j < |segs[..i]| ==> segs[..i][j].wildcard != name;
        assert segs[..i + 1][k].wildcard == name;
        assert forall j :: k < j < i ==> segs[..i + 1][j] == segs[..i][j];
      }
    }
    assert forall k :: 0 <= k < i ==> segs[..i + 1][k] == segs[..i][k];
  }

  function PathParts(escapedPath: string): seq<string> {
    Split(if HasPrefix(escapedPath, "/") then escapedPath[1..] else escapedPath, '/')
  }

  /** Route `k` fits, no fitting route scores higher, and none before it as high. */
  ghost predicate IsBest(routes: seq<Route>, k: nat, parts: seq<string>, unescape: Unescape) {
    && k < |routes| && Fits(routes[k], parts, unescape)
    && (forall j :: 0 <= j < |routes| && Fits(routes[j], parts, unescape) ==> routes[j].score <= routes[k].score)
    && (forall j :: 0 <= j < k && Fits(routes[j], parts, unescape) ==> routes[j].score < routes[k].score)
  }

  ghost predicate NoneFits(routes: seq<Route>, parts: seq<string>, unescape: Unescape) {
    forall j :: 0 <= j < |routes| ==> !Fits(routes[j], parts, unescape)
  }

  // ----- replies -----

  /** `escapeNonASCII`. */
  function Escape(s: string): string {
    if s == "" then "" else EscapeChar(s[0]) + Escape(s[1..])
  }

  function EscapeChar(c: char): string {
    if c as int >= 0x80 || c as int < 0x20 || c as int == 0x7F
    then "%" + [HexDigit(c as int / 16 % 16), HexDigit(c as int % 16)]
    else [c]
  }

  function HexDigit(d: nat): char
    requires d < 16
  {
    if d < 10 then ('0' as int + d) as char else ('A' as int + d - 10) as char
  }

  /** The location `Redirect` sends for a rooted target; `relative` stands for a target that parses
      as a URL without scheme and host. */
  function Location(target: string, relative: bool): string
  {
    if !relative then Escape(target)
    else
      var i := IndexOf(target, '?');
      var path, query := target[..i], target[i..];
      var cleaned := Clean(path);
      Escape((if HasSuffix(path, "/") && !HasSuffix(cleaned, "/") then cleaned + "/" else cleaned) + query)
  }

  /** The redirect to the root of a subtree applies: the best route is a subtree, the path does not
      end in a slash, and another route is registered for the path with one. */
  ghost predicate AsksForSlash(routes: seq<Route>, k: nat, path: string)
    requires k < |routes|
  {
    && (routes[k].pattern == "/" || routes[k].subtree)
    && !HasSuffix(path, "/")
    && exists i :: 0 <= i < |routes| && routes[i].pattern == path + "/" && routes[i].pattern != routes[k].pattern
  }

  function Query(r: Request): string {
    if r.rawQuery != "" then "?" + r.rawQuery else ""
  }

  ghost predicate IsReply(routes: seq<Route>, r: Request, unescape: Unescape, relative: string -> bool, reply: Reply) {
    var parts := PathParts(r.escapedPath);
    if CleanPath(r.path) != r.path then
      var target := CleanPath(r.path) + Query(r);
      reply == Redirected(Location(target, relative(target)))
    else if NoneFits(routes, parts, unescape) then
      reply == Missing
    else
      exists k: nat :: IsBest(routes, k, parts, unescape) && RepliesWith(routes, k, r, parts, unescape, relative, reply)
  }

  ghost predicate RepliesWith(routes: seq<Route>, k: nat, r: Request, parts: seq<string>, unescape: Unescape,
                              relative: string -> bool, reply: Reply)
    requires k < |routes|
  {
    if AsksForSlash(routes, k, r.path) then
      reply == Redirected(Location(r.path + "/", relative(r.path + "/")))
    else
      reply.Served? && reply.handler == routes[k].handler && AreValues(reply.values, routes[k].segs, parts, unescape)
  }

  class ServeMux {
    var routes: seq<Route>

    ghost predicate Valid()
      reads this
    {
      forall i :: 0 <= i < |routes| ==> routes[i] == RouteOf(routes[i].pattern, routes[i].handler)
    }

    constructor ()
      ensures Valid() && routes == []
    {
      routes := [];
    }

    /** `Handle`; false stands for the panic on a pattern without a leading slash or on no handler. */
    method Handle(pattern: string, handler: Option<nat>) returns (ok: bool)
      requires Valid()
      modifies this
      ensures Valid()
      ensures ok <==> HasPrefix(pattern, "/") && handler.Some?
      ensures routes == if ok then old(routes) + [RouteOf(pattern, handler.value)] else old(routes)
    {
      hide TrimSlashes, Split, SegmentOf;
      if !HasPrefix(pattern, "/") || handler.None? {
        return false;
      }
      var subtree := HasSuffix(pattern, "/");
      var trimmed := TrimSlashes(pattern);
      var segs := [];
      if trimmed != "" {
        var parts := Split(trimmed, '/');
        for i := 0 to |parts|
          invariant segs == Segments(parts[..i])
        {
          segs := segs + [SegmentOf(parts[i])];
        }
        assert parts[..|parts|] == parts;
      }
      var score := |segs|;
      for i := 0 to |segs|
        invariant score == |segs| + 10 * Literals(segs[..i])
      {
        assert segs[..i + 1][..i] == segs[..i];
        if segs[i].wildcard == "" {
          score := score + 10;
        }
      }
      assert segs[..|segs|] == segs;
      if !subtree {
        score := score + 1000;
      }
      routes := routes + [Route(pattern, segs, subtree, handler.value, score)];
      ok := true;
    }

    /** `match`. */
    method Match(escapedPath: string, unescape: Unescape) returns (best: Option<nat>, values: Values)
      ensures match best
              case None => NoneFits(routes, PathParts(escapedPath), unescape)
              case Some(k) => IsBest(routes, k, PathParts(escapedPath), unescape)
                              && AreValues(values, routes[k].segs, PathParts(escapedPath), unescape)
    {
      hide Fits, AreValues, PathParts;
      var parts := PathParts(escapedPath);
      best, values := None, map[];
      for i := 0 to |routes|
        invariant best.None? ==> NoneFits(routes[..i], parts, unescape)
        invariant best.Some? ==> IsBest(routes[..i], best.value, parts, unescape)
                                 && AreValues(values, routes[best.value].segs, parts, unescape)
      {
        var found, ok := Matches(routes[i], parts, unescape);
        if !ok {
          continue;
        }
        if best.None? || routes[i].score > routes[best.value].score {
          best, values := Some(i), found;
        }
      }
      assert routes[..|routes|] == routes;
    }

    /** `ServeHTTP`. */
    method ServeHttp(r: Request, unescape: Unescape, relative: string -> bool) returns (reply: Reply)
      ensures IsReply(routes, r, unescape, relative, reply)
    {
      hide AreValues, IsBest, NoneFits, Location, CleanPath, PathParts;
      var cleaned := CleanPath(r.path);
      if cleaned != r.path {
        var target := cleaned;
        if r.rawQuery != "" {
          target := target + "?" + r.rawQuery;
        }
        assert target == cleaned + Query(r);
        return Redirected(Location(target, relative(target)));
      }
      var best, values := Match(r.escapedPath, unescape);
      if best.None? {
        return Missing;
      }
      var k := best.value;
      SomeFits(routes, k, PathParts(r.escapedPath), unescape);
      if routes[k].pattern == "/" || routes[k].subtree {
        if !HasSuffix(r.path, "/") {
          for i := 0 to |routes|
            invariant forall j :: 0 <= j < i ==> routes[j].pattern != r.path + "/" || routes[j].pattern == routes[k].pattern
          {
            if routes[i].pattern == r.path + "/" && routes[i].pattern != routes[k].pattern {
              assert AsksForSlash(routes, k, r.path);
              return Redirected(Location(r.path + "/", relative(r.path + "/")));
            }
          }
        }
      }
      reply := Served(routes[k].handler, values);
    }
  }

  lemma SomeFits(routes: seq<Route>, k: nat, parts: seq<string>, unescape: Unescape)
    requires IsBest(routes, k, parts, unescape)
    ensures k < |routes| && !NoneFits(routes, parts, unescape)
  {
  }

  // ----- which route wins -----

  /** At most one route is the best. */
  lemma BestIsUnique(routes: seq<Route>, k: nat, l: nat, parts: seq<string>, unescape: Unescape)
    requires IsBest(routes, k, parts, unescape) && IsBest(routes, l, parts, unescape)
    ensures k == l
  {
    hide Fits;
  }

  /** The number of wildcard segments. */
  function Wildcards(segs: seq<Segment>): nat {
    |segs| - Literals(segs)
  }

  /** With up to 101 wildcards, an exact pattern beats every subtree pattern that fits the same path. */
  lemma ExactBeatsSubtree(pattern: string, handler: nat, subtree: string, handler': nat, parts: seq<string>, unescape: Unescape)
    requires var exact, wide := RouteOf(pattern, handler), RouteOf(subtree, handler');
             && !exact.subtree && wide.subtree
             && Fits(exact, parts, unescape) && Fits(wide, parts, unescape)
             && Wildcards(exact.segs) <= 101
    ensures RouteOf(pattern, handler).score > RouteOf(subtree, handler').score
  {
    hide Parts, HasSuffix;
    var exact, wide := RouteOf(pattern, handler), RouteOf(subtree, handler');
    assert Literals(wide.segs) <= |wide.segs|;
  }

  /** The exact pattern beats every subtree pattern on every path that both fit. */
  ghost predicate AlwaysBeatsSubtrees(pattern: string, handler: nat, unescape: Unescape) {
    forall subtree, handler', path ::
      HasPrefix(subtree, "/") && HasSuffix(subtree, "/")
      && Fits(RouteOf(pattern, handler), PathParts(path), unescape) && Fits(RouteOf(subtree, handler'), PathParts(path), unescape) ==>
        RouteOf(pattern, handler).score > RouteOf(subtree, handler').score
  }

  /** `escape` writes every text without a slash so that decoding gives it back, as `url.PathEscape` does. */
  ghost predicate Inverts(unescape: Unescape, escape: string -> string) {
    forall text :: unescape(escape(text)) == Some(text) && '/' !in escape(text)
  }

  /** An exact pattern, whatever its segments, always beats the subtree patterns exactly if it has at
      most 101 wildcards. */
  lemma ExactWinsExactly(pattern: string, handler: nat, unescape: Unescape, escape: string -> string)
    requires !HasSuffix(pattern, "/") && Inverts(unescape, escape)
    ensures AlwaysBeatsSubtrees(pattern, handler, unescape) <==> Wildcards(RouteOf(pattern, handler).segs) <= 101
  {
    hide Fits, RouteOf, PathParts, Inverts;
    assert !RouteOf(pattern, handler).subtree by {
      SubtreesEndInSlash(pattern, handler);
    }
    if Wildcards(RouteOf(pattern, handler).segs) <= 101 {
      forall subtree, handler', path |
        HasPrefix(subtree, "/") && HasSuffix(subtree, "/")
        && Fits(RouteOf(pattern, handler), PathParts(path), unescape) && Fits(RouteOf(subtree, handler'), PathParts(path), unescape)
        ensures RouteOf(pattern, handler).score > RouteOf(subtree, handler').score
      {
        SubtreesEndInSlash(subtree, handler');
        ExactBeatsSubtree(pattern, handler, subtree, handler', PathParts(path), unescape);
      }
    } else {
      var subtree, path := ExactLoses(pattern, handler, 0, unescape, escape);
    }
  }

  lemma SubtreesEndInSlash(pattern: string, handler: nat)
    ensures RouteOf(pattern, handler).subtree <==> HasSuffix(pattern, "/")
  {
  }

  /** The text that a segment is given: its literal or, for a wildcard, `a`. */
  function TextFor(seg: Segment): (text: string)
    ensures seg.wildcard != "" ==> text != ""
  {
    if seg.wildcard == "" then seg.literal else "a"
  }

  /** A part of a pattern that stands for exactly the text given to the segment of `part`. An empty
      literal is written `{}`. */
  function LiteralFor(part: string): string {
    if SegmentOf(part).wildcard != "" then "a" else if part == "" then "{}" else part
  }

  lemma LiteralForIsLiteral(part: string)
    requires '/' !in part
    ensures LiteralFor(part) != "" && '/' !in LiteralFor(part)
    ensures SegmentOf(LiteralFor(part)) == Segment(TextFor(SegmentOf(part)), "")
  {
    assert "{}"[1..1] == "" && "{}"[..1] == "{" && "{}"[1..] == "}";
  }

  /** From 102 wildcards on, every exact pattern loses to some subtree pattern: all but its last part
      as literals, with a text for each wildcard, on a path made of these texts. */
  lemma ExactLoses(pattern: string, handler: nat, handler': nat, unescape: Unescape, escape: string -> string)
    returns (subtree: string, path: string)
    requires !HasSuffix(pattern, "/") && Inverts(unescape, escape)
    requires Wildcards(RouteOf(pattern, handler).segs) > 101
    ensures HasPrefix(subtree, "/") && HasSuffix(subtree, "/")
    ensures Fits(RouteOf(pattern, handler), PathParts(path), unescape) && Fits(RouteOf(subtree, handler'), PathParts(path), unescape)
    ensures RouteOf(pattern, handler).score < RouteOf(subtree, handler').score
  {
    hide Split, TrimSlashes, Join, SegmentOf, TextFor, LiteralFor, PathParts;
    var parts := Parts(pattern);
    var n := |parts|;
    PartsHaveNoSlash(TrimSlashes(pattern));
    var names := seq(n - 1, i requires 0 <= i < n - 1 => LiteralFor(parts[i]));
    var texts := seq(n, i requires 0 <= i < n => escape(TextFor(SegmentOf(parts[i]))));
    forall i | 0 <= i < n - 1
      ensures names[i] != "" && '/' !in names[i] && SegmentOf(names[i]) == Segment(TextFor(SegmentOf(parts[i])), "")
    {
      LiteralForIsLiteral(parts[i]);
    }
    forall i | 0 <= i < n
      ensures unescape(texts[i]) == Some(TextFor(SegmentOf(parts[i]))) && '/' !in texts[i]
    {
    }
    subtree, path := Join(names) + "/", Join(texts);
    PatternOfParts(names, handler');
    SplitJoinTail(texts);
    CountLiterals(Segments(names));
    TextsFit(parts, texts, unescape);
    JoinEnds(names);
  }

  /** The texts fit the segments they were chosen for. */
  lemma TextsFit(parts: seq<string>, texts: seq<string>, unescape: Unescape)
    requires |texts| == |parts| && forall i :: 0 <= i < |parts| ==> unescape(texts[i]) == Some(TextFor(SegmentOf(parts[i])))
    ensures forall i :: 0 <= i < |parts| ==> FitsSegment(Segments(parts)[i], texts[i], unescape)
    ensures forall i :: 0 <= i < |parts| ==> FitsSegment(Segment(TextFor(SegmentOf(parts[i])), ""), texts[i], unescape)
  {
    hide SegmentOf;
  }

  /** So no subtree route is the best while an exact route with at most 101 wildcards fits. */
  lemma SubtreeIsNotBest(routes: seq<Route>, k: nat, l: nat, parts: seq<string>, unescape: Unescape)
    requires AreParsed(routes) && k < |routes| && !routes[k].subtree && Wildcards(routes[k].segs) <= 101
    requires Fits(routes[k], parts, unescape) && IsBest(routes, l, parts, unescape)
    ensures !routes[l].subtree
  {
    hide Fits, RouteOf, Wildcards;
    if routes[l].subtree {
      ExactBeatsSubtree(routes[k].pattern, routes[k].handler, routes[l].pattern, routes[l].handler, parts, unescape);
    }
  }

  /** Two exact patterns that fit the same path: the one with more literal segments wins. */
  lemma LiteralsDecide(pattern: string, handler: nat, pattern': string, handler': nat, parts: seq<string>, unescape: Unescape)
    requires var a, b := RouteOf(pattern, handler), RouteOf(pattern', handler');
             !a.subtree && !b.subtree && Fits(a, parts, unescape) && Fits(b, parts, unescape)
    ensures var a, b := RouteOf(pattern, handler), RouteOf(pattern', handler');
            a.score > b.score <==> Literals(a.segs) > Literals(b.segs)
  {
  }

  // ----- patterns made of parts -----

  /** The first and the last character of the joined parts, without the leading slash, are no slashes. */
  lemma TrimJoin(parts: seq<string>)
    requires SolidParts(parts) && parts != []
    ensures TrimSlashes(Join(parts)) == TrimSlashes(Join(parts) + "/") == Join(parts)[1..]
  {
    hide Join;
    JoinEnds(parts);
    var p := Join(parts);
    var t := p[1..];
    FirstOfJoin(parts);
    TrimNothing(t);
    assert (p + "/")[1..] == t + "/";
    assert (t + "/")[..|t|] == t;
    assert (t + "/")[0] == t[0];
  }

  lemma FirstOfJoin(parts: seq<string>)
    requires SolidParts(parts) && parts != []
    ensures Join(parts) == "/" + Join(parts)[1..] && |Join(parts)| >= 2 && Join(parts)[1] != '/'
  {
    assert parts[0] != "" && '/' !in parts[0];
    assert parts[0][0] in parts[0];
  }

  lemma TrimNothing(t: string)
    requires t != "" && t[0] != '/' && t[|t| - 1] != '/'
    ensures TrimSlashes(t) == t
  {
  }

  /** A pattern joined from parts has these parts as its segments; a final slash makes it a subtree. */
  lemma PatternOfParts(parts: seq<string>, handler: nat)
    requires SolidParts(parts) && parts != []
    ensures RouteOf(Join(parts), handler).segs == Segments(parts) && !RouteOf(Join(parts), handler).subtree
    ensures RouteOf(Join(parts) + "/", handler).segs == Segments(parts) && RouteOf(Join(parts) + "/", handler).subtree
  {
    hide Join, Split, TrimSlashes, Segments, Score;
    TrimJoin(parts);
    SplitJoinTail(parts);
    JoinEnds(parts);
  }

  /** A path joined from parts has them as its parts. */
  lemma SplitJoinTail(parts: seq<string>)
    requires SlashFree(parts) && parts != []
    ensures Split(Join(parts)[1..], '/') == parts == PathParts(Join(parts))
  {
    hide Split;
    SplitJoin(parts);
    var t := Join(parts)[1..];
    assert Join(parts) == "" + ['/'] + t;
    SplitAt("", '/', t);
    assert ([""] + parts)[1..] == parts;
    assert ([""] + Split(t, '/'))[1..] == Split(t, '/');
  }

  lemma {:induction false} CountLiterals(segs: seq<Segment>)
    ensures (forall i :: 0 <= i < |segs| ==> segs[i].wildcard == "") ==> Literals(segs) == |segs|
  {
    if segs != [] {
      CountLiterals(segs[..|segs| - 1]);
    }
  }

  // ----- which paths a pattern fits -----

  /** A part in braces is a wildcard for any text but the empty one; `{}` stands for the empty text; every
      other part stands for itself. */
  ghost predicate PartFits(part: string, text: string) {
    if part == "{}" then text == ""
    else if exists name :: part == "{" + name + "}" then text != ""
    else text == part
  }

  ghost predicate PieceFits(part: string, piece: string, unescape: Unescape) {
    unescape(piece).Some? && PartFits(part, unescape(piece).value)
  }

  lemma BracesAround(part: string)
    ensures HasPrefix(part, "{") && HasSuffix(part, "}") && |part| >= 2 <==> exists name :: part == "{" + name + "}"
  {
    if HasPrefix(part, "{") && HasSuffix(part, "}") && |part| >= 2 {
      assert part == "{" + part[1..|part| - 1] + "}";
    }
  }

  lemma SegmentFits(part: string, piece: string, unescape: Unescape)
    ensures FitsSegment(SegmentOf(part), piece, unescape) <==> PieceFits(part, piece, unescape)
  {
    BracesAround(part);
    assert "{}" == "{" + "" + "}";
    if |part| == 2 && HasPrefix(part, "{") && HasSuffix(part, "}") {
      assert part == "{}";
    }
  }

  /** A pattern of any parts fits exactly the paths with as many parts, each of which its own fits; with a slash
      at its end, the paths with more parts that begin so. */
  lemma PatternFits(parts: seq<string>, handler: nat, pieces: seq<string>, unescape: Unescape)
    requires SolidParts(parts) && parts != []
    ensures Fits(RouteOf(Join(parts), handler), pieces, unescape)
       <==> |pieces| == |parts| && forall i :: 0 <= i < |parts| ==> PieceFits(parts[i], pieces[i], unescape)
    ensures Fits(RouteOf(Join(parts) + "/", handler), pieces, unescape)
       <==> |pieces| > |parts| && forall i :: 0 <= i < |parts| ==> PieceFits(parts[i], pieces[i], unescape)
  {
    hide Join, Parts, Score, SegmentOf, PieceFits, FitsSegment;
    PatternOfParts(parts, handler);
    forall i | 0 <= i < |parts| && i < |pieces|
      ensures FitsSegment(Segments(parts)[i], pieces[i], unescape) <==> PieceFits(parts[i], pieces[i], unescape)
    {
      SegmentFits(parts[i], pieces[i], unescape);
    }
  }

  /** The pattern of a single slash fits every path. */
  lemma RootFits(handler: nat, pieces: seq<string>, unescape: Unescape)
    ensures Fits(RouteOf("/", handler), pieces, unescape)
  {
    assert TrimSlashes("/") == TrimSlashes("") == "";
    assert HasSuffix("/", "/");
  }

  lemma {:induction false} MoreLiterals(a: seq<Segment>, b: seq<Segment>)
    ensures Literals(a + b) >= Literals(a)
  {
    if b == [] {
      assert a + b == a;
    } else {
      MoreLiterals(a, b[..|b| - 1]);
      assert (a + b)[..|a + b| - 1] == a + b[..|b| - 1];
    }
  }

  /** Of two subtrees, one inside the other, the inner one wins, and both win over the root. */
  lemma InnerSubtreeWins(parts: seq<string>, more: seq<string>, handler: nat, handler': nat)
    requires SolidParts(parts) && SolidParts(more) && more != []
    ensures parts != [] ==>
              RouteOf(Join(parts + more) + "/", handler).score > RouteOf(Join(parts) + "/", handler').score
    ensures RouteOf(Join(more) + "/", handler).score > RouteOf("/", handler').score
  {
    hide Join, RouteOf, Segments, Literals, SolidParts;
    SolidBoth(parts, more);
    SubtreeScore(parts + more, handler);
    SubtreeScore(more, handler);
    if parts != [] {
      SubtreeScore(parts, handler');
      SegmentsBoth(parts, more);
      MoreLiterals(Segments(parts), Segments(more));
    }
    RootScore(handler');
  }

  lemma SolidBoth(a: seq<string>, b: seq<string>)
    requires SolidParts(a) && SolidParts(b)
    ensures SolidParts(a + b)
  {
  }

  lemma SegmentsBoth(a: seq<string>, b: seq<string>)
    ensures Segments(a + b) == Segments(a) + Segments(b)
  {
    hide SegmentOf;
  }

  lemma SubtreeScore(parts: seq<string>, handler: nat)
    requires SolidParts(parts) && parts != []
    ensures RouteOf(Join(parts) + "/", handler).score == |parts| + 10 * Literals(Segments(parts))
  {
    hide Join, Parts, SegmentOf, Literals;
    PatternOfParts(parts, handler);
  }

  lemma RootScore(handler: nat)
    ensures RouteOf("/", handler).score == 0
  {
    assert TrimSlashes("/") == TrimSlashes("") == "";
    assert HasSuffix("/", "/");
  }

  // ----- literal routes -----

  predicate IsLiteralPart(part: string) {
    IsPlainPart(part) && !(HasPrefix(part, "{") && HasSuffix(part, "}"))
  }

  /** An exact pattern without wildcards fits the paths whose parts decode to its own, and no others. */
  lemma LiteralRouteFits(names: seq<string>, handler: nat, parts: seq<string>, unescape: Unescape)
    requires names != [] && forall i :: 0 <= i < |names| ==> IsLiteralPart(names[i])
    ensures Fits(RouteOf(Join(names), handler), parts, unescape)
       <==> |parts| == |names| && forall i :: 0 <= i < |names| ==> unescape(parts[i]) == Some(names[i])
  {
    hide Join, Parts, Score;
    PatternOfParts(names, handler);
    forall i | 0 <= i < |names|
      ensures Segments(names)[i] == Segment(names[i], "")
    {
      assert IsLiteralPart(names[i]);
    }
  }

  // ----- redirects end -----

  lemma {:induction false} EscapeAppend(a: string, b: string)
    ensures Escape(a + b) == Escape(a) + Escape(b)
  {
    hide EscapeChar;
    if a == "" {
      assert a + b == b;
    } else {
      EscapeAppend(a[1..], b);
      assert (a + b)[0] == a[0] && (a + b)[1..] == a[1..] + b;
      Associative(EscapeChar(a[0]), Escape(a[1..]), Escape(b));
    }
  }

  lemma Associative(a: string, b: string, c: string)
    ensures a + (b + c) == a + b + c
  {
  }

  predicate IsPrintable(s: string) {
    forall i :: 0 <= i < |s| ==> ' ' <= s[i] <= '~'
  }

  lemma {:induction false} EscapePrintable(a: string)
    requires IsPrintable(a)
    ensures Escape(a) == a
  {
    if a != "" {
      assert ' ' <= a[0] <= '~';
      EscapePrintable(a[1..]);
    }
  }

  /** The number that a digit stands for in base 16. */
  function Nibble(c: char): int {
    if '0' <= c <= '9' then c as int - '0' as int else c as int - 'A' as int + 10
  }

  /** What a percent-encoded text stands for. */
  function Unescaped(s: string): string {
    if s == "" then ""
    else if s[0] == '%' && |s| >= 3 then [((16 * Nibble(s[1]) + Nibble(s[2])) % 256) as char] + Unescaped(s[3..])
    else [s[0]] + Unescaped(s[1..])
  }

  /** Escaping a text of bytes leaves only printable ASCII, and decoding gives the text back. */
  lemma {:induction false} EscapeIsUndone(s: string)
    requires '%' !in s && forall i :: 0 <= i < |s| ==> s[i] as int < 256
    ensures IsPrintable(Escape(s)) && Unescaped(Escape(s)) == s
  {
    if s != "" {
      EscapeIsUndone(s[1..]);
      var code, rest := EscapeChar(s[0]), Escape(s[1..]);
      CharIsUndone(s[0]);
      if |code| == 3 {
        assert (code + rest)[3..] == rest;
      } else {
        assert (code + rest)[1..] == rest;
      }
      assert s == [s[0]] + s[1..];
    }
  }

  lemma CharIsUndone(c: char)
    requires c != '%' && c as int < 256
    ensures var code := EscapeChar(c);
            && IsPrintable(code)
            && (code == [c] || (|code| == 3 && code[0] == '%' && 16 * Nibble(code[1]) + Nibble(code[2]) == c as int))
  {
    hide HexDigit, Nibble;
    HexDigitNibble(c as int / 16 % 16);
    HexDigitNibble(c as int % 16);
  }

  lemma HexDigitNibble(d: nat)
    requires d < 16
    ensures Nibble(HexDigit(d)) == d && ' ' <= HexDigit(d) <= '~'
  {
  }

  /** The path of a location: what precedes its query. */
  function PathOf(location: string): string {
    location[..IndexOf(location, '?')]
  }

  /** The location of a clean path keeps the path exactly if it is printable ASCII without `?`; its
      query follows, with everything but printable ASCII escaped. */
  lemma LocationKeepsPath(path: string, query: string, relative: bool)
    requires IsCanonical(path)
    requires query == "" || query[0] == '?'
    ensures PathOf(Location(path + query, relative)) == path <==> IsPlainPath(path)
    ensures IsPlainPath(path) ==> Location(path + query, relative) == path + Escape(query)
  {
    hide Escape, Clean, IsCanonical;
    if IsPlainPath(path) {
      PlainLocation(path, query, relative);
    } else if '?' in path {
      PathHasNoQuestionMark(Location(path + query, relative));
    } else {
      LocationEscapes(path, query, relative);
      EscapedQueryStarts(query);
      EscapeAddsNoQuestionMark(path);
      QueryStarts(Escape(path), Escape(query));
      assert (Escape(path) + Escape(query))[..|Escape(path)|] == Escape(path);
      EscapeChanges(path);
    }
  }

  lemma PathHasNoQuestionMark(location: string)
    ensures '?' !in PathOf(location)
  {
  }

  lemma {:induction false} EscapeAddsNoQuestionMark(s: string)
    requires '?' !in s
    ensures '?' !in Escape(s)
  {
    if s != "" {
      EscapeAddsNoQuestionMark(s[1..]);
      CharAddsNoQuestionMark(s[0]);
    }
  }

  lemma CharAddsNoQuestionMark(c: char)
    requires c != '?'
    ensures '?' !in EscapeChar(c)
  {
  }

  /** Escaping makes every string longer that it changes. */
  lemma {:induction false} EscapeChanges(s: string)
    requires '?' !in s
    ensures |Escape(s)| >= |s|
    ensures !IsPlainPath(s) ==> |Escape(s)| > |s|
  {
    if s != "" {
      EscapeChanges(s[1..]);
      if IsPlainChar(s[0]) && IsPlainPath(s[1..]) {
        assert s == [s[0]] + s[1..];
      }
    }
  }

  lemma PlainLocation(path: string, query: string, relative: bool)
    requires IsCanonical(path) && IsPlainPath(path)
    requires query == "" || query[0] == '?'
    ensures PathOf(Location(path + query, relative)) == path
    ensures Location(path + query, relative) == path + Escape(query)
  {
    hide Escape, Location, IsCanonical;
    NoQuestionMark(path);
    LocationEscapes(path, query, relative);
    EscapePrintable(path);
    EscapedQueryStarts(query);
    QueryStarts(path, Escape(query));
    assert (path + Escape(query))[..|path|] == path;
  }

  lemma NoQuestionMark(path: string)
    requires IsPlainPath(path)
    ensures '?' !in path
  {
  }

  lemma QueryStarts(path: string, query: string)
    requires '?' !in path && (query == "" || query[0] == '?')
    ensures IndexOf(path + query, '?') == |path|
  {
    if query == "" {
      assert path + query == path;
    } else {
      assert path + query == path + ['?'] + query[1..];
      IndexOfAt(path, '?', query[1..]);
    }
  }

  lemma EscapedQueryStarts(query: string)
    requires query == "" || query[0] == '?'
    ensures query == "" ==> Escape(query) == ""
    ensures query != "" ==> Escape(query) != "" && Escape(query)[0] == '?'
  {
  }

  lemma CleanedAgain(path: string)
    requires IsCanonical(path)
    ensures var cleaned := Clean(path);
            path == if HasSuffix(path, "/") && !HasSuffix(cleaned, "/") then cleaned + "/" else cleaned
  {
    if path == "/" {
      CleanRoot();
    } else {
      hide Join, Clean;
      var parts :| parts != [] && PlainParts(parts) && (path == Join(parts) || path == Join(parts) + "/");
      JoinEnds(parts);
      CleanJoin(parts);
      assert !HasSuffix(Join(parts), "/");
    }
  }

  /** Where a redirect of a plain path leads: to the cleaned path or, if the path was clean, to the
      path with a slash at its end. Either way the next path is canonical. */
  lemma RedirectLeads(routes: seq<Route>, r: Request, unescape: Unescape, relative: string -> bool, reply: Reply)
    requires IsReply(routes, r, unescape, relative, reply) && reply.Redirected? && IsPlainPath(r.path)
    ensures var next := PathOf(reply.location);
            && next != r.path && IsCanonical(next) && IsPlainPath(next)
            && if IsCanonical(r.path) then !HasSuffix(r.path, "/") && next == r.path + "/" else next == CleanPath(r.path)
  {
    hide CleanPath, Location, PathParts, NoneFits, Fits, AreValues, Escape, PathOf, IsCanonical, IsPlainPath, HasSuffix;
    UnchangedExactlyWhenCanonical(r.path);
    if IsCanonical(r.path) {
      PlainWithSlash(r.path);
      var k :| IsBest(routes, k, PathParts(r.escapedPath), unescape)
        && RepliesWith(routes, k, r, PathParts(r.escapedPath), unescape, relative, reply);
      WithSlash(r.path);
      LocationKeepsPath(r.path + "/", "", relative(r.path + "/"));
      assert r.path + "/" + "" == r.path + "/";
    } else {
      CleanPathIsCanonical(r.path);
      CleanPathIsPlain(r.path);
      LocationKeepsPath(CleanPath(r.path), Query(r), relative(CleanPath(r.path) + Query(r)));
    }
  }

  lemma PlainWithSlash(p: string)
    requires IsPlainPath(p)
    ensures IsPlainPath(p + "/")
  {
  }

  /** What an unclean path is redirected to, by the laws of cleaning alone: whichever function obeys
      them, its result, with the query behind it. */
  lemma RedirectsByTheLaws(routes: seq<Route>, r: Request, unescape: Unescape, relative: string -> bool, reply: Reply,
                           clean: string -> string)
    requires IsReply(routes, r, unescape, relative, reply) && CleansParts(clean) && clean(r.path) != r.path
    ensures reply.Redirected?
    ensures IsPlainPath(r.path) ==> reply.location == clean(r.path) + Escape(Query(r))
    ensures '?' !in clean(r.path) ==>
              reply.location == Escape(clean(r.path)) + Escape(Query(r))
  {
    hide CleanPath, Location, CleansParts, PathParts, NoneFits, Escape, IsCanonical;
    CleanPathIsDetermined(clean, r.path);
    CleanPathIsCanonical(r.path);
    if IsPlainPath(r.path) {
      CleanPathIsPlain(r.path);
      LocationKeepsPath(CleanPath(r.path), Query(r), relative(CleanPath(r.path) + Query(r)));
    }
    if '?' !in CleanPath(r.path) {
      LocationEscapes(CleanPath(r.path), Query(r), relative(CleanPath(r.path) + Query(r)));
    }
  }

  lemma LocationEscapes(path: string, query: string, relative: bool)
    requires IsCanonical(path) && '?' !in path && (query == "" || query[0] == '?')
    ensures Location(path + query, relative) == Escape(path) + Escape(query)
  {
    hide Escape, Clean, IsCanonical;
    QueryStarts(path, query);
    var target := path + query;
    assert target[..|path|] == path && target[|path|..] == query;
    CleanedAgain(path);
    EscapeAppend(path, query);
  }

  /** Following redirects from a plain path stops after at most two. */
  lemma AtMostTwoRedirects(routes: seq<Route>, r: Request, r': Request, r'': Request, unescape: Unescape,
                           relative: string -> bool, reply: Reply, reply': Reply, reply'': Reply)
    requires IsPlainPath(r.path)
    requires IsReply(routes, r, unescape, relative, reply) && reply.Redirected?
    requires r'.path == PathOf(reply.location)
    requires IsReply(routes, r', unescape, relative, reply') && reply'.Redirected?
    requires r''.path == PathOf(reply'.location)
    requires IsReply(routes, r'', unescape, relative, reply'')
    ensures !reply''.Redirected?
  {
    hide IsReply, CleanPath, PathOf, IsCanonical;
    RedirectLeads(routes, r, unescape, relative, reply);
    RedirectLeads(routes, r', unescape, relative, reply');
    assert HasSuffix(r'.path + "/", "/");
    if reply''.Redirected? {
      RedirectLeads(routes, r'', unescape, relative, reply'');
    }
  }

  // ----- the redirect to the root of a subtree -----

  ghost predicate AreParsed(routes: seq<Route>) {
    forall i :: 0 <= i < |routes| ==> routes[i] == RouteOf(routes[i].pattern, routes[i].handler)
  }

  ghost predicate IsRegistered(routes: seq<Route>, pattern: string) {
    exists i :: 0 <= i < |routes| && routes[i].pattern == pattern
  }

  ghost predicate BestIsOtherSubtree(routes: seq<Route>, pattern: string, parts: seq<string>, unescape: Unescape) {
    exists k: nat :: IsBest(routes, k, parts, unescape) && routes[k].subtree && routes[k].pattern != pattern
  }

  /** For every table of routes, and every clean path without a final slash for which the path with one
      is registered: the reply is the redirect to it exactly if the best route that fits the path is a
      subtree with another pattern; it is not found exactly if no route fits; and otherwise the best
      route answers. */
  lemma SubtreeRootRedirect(routes: seq<Route>, r: Request, unescape: Unescape, relative: string -> bool, reply: Reply)
    requires AreParsed(routes) && IsRegistered(routes, r.path + "/")
    requires IsCanonical(r.path) && !HasSuffix(r.path, "/")
    requires IsReply(routes, r, unescape, relative, reply)
    ensures var parts := PathParts(r.escapedPath);
            && (reply == Redirected(Location(r.path + "/", relative(r.path + "/")))
                <==> BestIsOtherSubtree(routes, r.path + "/", parts, unescape))
            && (reply == Missing <==> NoneFits(routes, parts, unescape))
            && (reply.Served? <==> !NoneFits(routes, parts, unescape) && !BestIsOtherSubtree(routes, r.path + "/", parts, unescape))
  {
    hide CleanPath, Location, PathParts, Fits, AreValues, IsCanonical, Score, Parts, Segments;
    CanonicalStays(r.path);
    var parts := PathParts(r.escapedPath);
    if !NoneFits(routes, parts, unescape) {
      var k: nat :| IsBest(routes, k, parts, unescape) && RepliesWith(routes, k, r, parts, unescape, relative, reply);
      assert routes[k] == RouteOf(routes[k].pattern, routes[k].handler);
      assert HasSuffix("/", "/");
      forall l: nat | IsBest(routes, l, parts, unescape)
        ensures l == k
      {
        BestIsUnique(routes, k, l, parts, unescape);
      }
    }
  }

  /** The root of the subtree itself never fits the path without the slash, so it takes another subtree
      that covers the path for the redirect to happen. */
  lemma RootDoesNotFit(names: seq<string>, handler: nat, unescape: Unescape)
    requires PlainParts(names) && names != []
    ensures !Fits(RouteOf(Join(names) + "/", handler), PathParts(Join(names)), unescape)
  {
    hide Join, Split, Parts, Score;
    PatternOfParts(names, handler);
    SplitJoinTail(names);
  }

  /** With the root of the subtree as the only route, the path without the slash is not found rather
      than redirected. */
  lemma SubtreeAloneIsMissing(names: seq<string>, handler: nat, r: Request, unescape: Unescape, relative: string -> bool, reply: Reply)
    requires PlainParts(names) && names != [] && r.path == Join(names) == r.escapedPath
    requires IsReply([RouteOf(Join(names) + "/", handler)], r, unescape, relative, reply)
    ensures reply == Missing
  {
    hide Join, CleanPath, PathParts, Fits, Parts, Score;
    CanonicalStays(r.path);
    RootDoesNotFit(names, handler, unescape);
  }
}
