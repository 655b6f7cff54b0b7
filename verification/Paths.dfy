/** Request paths without empty, `.` and `..` elements. */
module Paths {
  import opened Text

  predicate IsPlainPart(part: string) {
    part != "" && part != "." && part != ".." && '/' !in part
  }

  predicate PlainParts(parts: seq<string>) {
    forall i :: 0 <= i < |parts| ==> IsPlainPart(parts[i])
  }

  /** The parts left of a rooted path: `.` and empty parts go, `..` takes the part before it along. */
  function Settle(parts: seq<string>): seq<string> {
    if parts == [] then []
    else
      var before, last := Settle(parts[..|parts| - 1]), parts[|parts| - 1];
      if last == "" || last == "." then before
      else if last == ".." then (if before == [] then [] else before[..|before| - 1])
      else before + [last]
  }

  /** No part is empty or holds a slash. */
  predicate SolidParts(parts: seq<string>) {
    forall i :: 0 <= i < |parts| ==> parts[i] != "" && '/' !in parts[i]
  }

  predicate SlashFree(parts: seq<string>) {
    forall i :: 0 <= i < |parts| ==> '/' !in parts[i]
  }

  /** Every part with a slash before it. */
  function Join(parts: seq<string>): string {
    if parts == [] then "" else "/" + parts[0] + Join(parts[1..])
  }

  /** `path.Clean` of a rooted path. */
  function Clean(p: string): string {
    var parts := Settle(Split(p, '/'));
    if parts == [] then "/" else Join(parts)
  }

  /** `cleanPath`. */
  function CleanPath(p: string): (r: string) {
    if p == "" then "/"
    else
      var rooted := if p[0] != '/' then "/" + p else p;
      var cleaned := Clean(rooted);
      if rooted[|rooted| - 1] == '/' && cleaned != "/" then cleaned + "/" else cleaned
  }

  /** A path that is one slash, or plain parts with a slash before each and possibly one at the end. */
  ghost predicate IsCanonical(p: string) {
    || p == "/"
    || exists parts :: parts != [] && PlainParts(parts) && (p == Join(parts) || p == Join(parts) + "/")
  }

  // ----- splitting -----

  lemma {:induction false} PartsHaveNoSlash(s: string)
    ensures forall i :: 0 <= i < |Split(s, '/')| ==> '/' !in Split(s, '/')[i]
    decreases |s|
  {
    var i := IndexOf(s, '/');
    if i < |s| {
      PartsHaveNoSlash(s[i + 1..]);
    }
  }

  /** Joining and splitting: the parts come back after the empty one before the first slash. */
  lemma {:induction false} SplitJoin(parts: seq<string>)
    requires forall i :: 0 <= i < |parts| ==> '/' !in parts[i]
    ensures Split(Join(parts), '/') == [""] + parts
  {
    if parts == [] {
      SplitNone("", '/');
    } else {
      SplitJoin(parts[1..]);
      SplitAfterPart(parts[0], Join(parts[1..]), [""] + parts[1..]);
    }
  }

  /** `rest` is empty or starts with a slash. */
  lemma SplitAfterPart(part: string, rest: string, parts: seq<string>)
    requires '/' !in part && Split(rest, '/') == parts && |parts| >= 1 && parts[0] == ""
    requires rest == "" || rest[0] == '/'
    ensures Split("/" + part + rest, '/') == ["", part] + parts[1..]
  {
    hide Split;
    assert "/" + part + rest == "" + ['/'] + (part + rest);
    SplitAt("", '/', part + rest);
    if rest == "" {
      SplitNone(part, '/');
      SplitNone("", '/');
      assert part + rest == part;
    } else {
      assert part + rest == part + ['/'] + rest[1..];
      SplitAt(part, '/', rest[1..]);
      assert rest == "" + ['/'] + rest[1..];
      SplitAt("", '/', rest[1..]);
    }
  }

  lemma {:induction false} JoinAppend(parts: seq<string>, last: string)
    ensures Join(parts + [last]) == Join(parts) + "/" + last
  {
    if parts == [] {
      assert [last][1..] == [];
      assert [] + [last] == [last];
    } else {
      assert (parts + [last])[1..] == parts[1..] + [last];
      JoinAppend(parts[1..], last);
    }
  }

  // ----- settling -----

  lemma {:induction false} SettleIsPlain(parts: seq<string>)
    requires forall i :: 0 <= i < |parts| ==> '/' !in parts[i]
    ensures PlainParts(Settle(parts))
  {
    if parts != [] {
      SettleIsPlain(parts[..|parts| - 1]);
    }
  }

  lemma {:induction false} SettlePlain(parts: seq<string>)
    requires PlainParts(parts)
    ensures Settle([""] + parts) == parts
    ensures Settle([""] + parts + [""]) == parts
  {
    var all := [""] + parts;
    if parts == [] {
      assert all[..0] == [] && Settle([]) == [];
    } else {
      var front, last := parts[..|parts| - 1], parts[|parts| - 1];
      SettlePlain(front);
      assert all[..|all| - 1] == [""] + front;
      assert IsPlainPart(last);
    }
    assert (all + [""])[..|all|] == all;
  }

  lemma CleanJoin(parts: seq<string>)
    requires PlainParts(parts) && parts != []
    ensures Clean(Join(parts)) == Join(parts)
    ensures Clean(Join(parts) + "/") == Join(parts)
  {
    hide Settle, Split;
    SplitJoin(parts);
    SettlePlain(parts);
    SplitJoin(parts + [""]);
    JoinAppend(parts, "");
    assert Join(parts) + "/" == Join(parts + [""]);
    assert [""] + (parts + [""]) == [""] + parts + [""];
  }

  // ----- canonical paths -----

  lemma JoinEnds(parts: seq<string>)
    requires SolidParts(parts) && parts != []
    ensures var p := Join(parts); |p| >= 2 && p[0] == '/' && p[|p| - 1] != '/'
  {
    var front, last := parts[..|parts| - 1], parts[|parts| - 1];
    assert parts == front + [last];
    JoinAppend(front, last);
    assert last != "" && '/' !in last;
    assert last[|last| - 1] in last;
  }

  /** The result is canonical for every path whatsoever. */
  lemma CleanPathIsCanonical(p: string)
    ensures IsCanonical(CleanPath(p))
  {
    if p != "" {
      var rooted := if p[0] != '/' then "/" + p else p;
      PartsHaveNoSlash(rooted);
      SettleIsPlain(Split(rooted, '/'));
    }
  }

  lemma CanonicalStays(p: string)
    requires IsCanonical(p)
    ensures CleanPath(p) == p
  {
    hide Clean, Join;
    if p == "/" {
      CleanRoot();
    } else {
      var parts :| parts != [] && PlainParts(parts) && (p == Join(parts) || p == Join(parts) + "/");
      JoinEnds(parts);
      CleanJoin(parts);
    }
  }

  lemma CleanRoot()
    ensures Clean("/") == "/"
  {
    SplitAt("", '/', "");
    SplitNone("", '/');
    assert "" + ['/'] + "" == "/";
    assert [""] + [""] == ["", ""];
    assert Split("/", '/') == ["", ""];
    assert ["", ""][..1] == [""] && [""][..0] == [];
    assert Settle([""]) == Settle([]);
  }

  /** `cleanPath` leaves exactly the canonical paths alone. */
  lemma UnchangedExactlyWhenCanonical(p: string)
    ensures CleanPath(p) == p <==> IsCanonical(p)
  {
    CleanPathIsCanonical(p);
    if IsCanonical(p) {
      CanonicalStays(p);
    }
  }

  lemma CleanPathIdempotent(p: string)
    ensures CleanPath(CleanPath(p)) == CleanPath(p)
  {
    CleanPathIsCanonical(p);
    CanonicalStays(CleanPath(p));
  }

  // ----- what cleaning does, part by part -----

  /** A clean path stays; a first slash is added; an empty part before others and a `.` go; a `..`
      takes the part before it along, and goes alone at the root. A slash at the end stays. */
  ghost predicate CleansParts(f: string -> string) {
    && f("") == "/"
    && (forall p :: p != "" && p[0] != '/' ==> f(p) == f("/" + p))
    && (forall a :: PlainParts(a) ==> f(Join(a) + "/") == Join(a) + "/" && (a != [] ==> f(Join(a)) == Join(a)))
    && (forall a, b :: PlainParts(a) && SlashFree(b) && b != [] ==> f(Join(a) + "/" + Join(b)) == f(Join(a) + Join(b)))
    && (forall a, b :: PlainParts(a) && SlashFree(b) ==> f(Join(a) + "/." + Join(b)) == f(Join(a) + Join(b)))
    && (forall a, x, b :: PlainParts(a) && IsPlainPart(x) && SlashFree(b) ==>
          f(Join(a) + "/" + x + "/.." + Join(b)) == f(Join(a) + Join(b)))
    && (forall b :: SlashFree(b) ==> f("/.." + Join(b)) == f(Join(b)))
  }

  /** What the settled parts of a front mean for what follows. */
  lemma {:induction false} SettleAfter(u: seq<string>, v: seq<string>, b: seq<string>)
    requires Settle(u) == Settle(v)
    ensures Settle(u + b) == Settle(v + b)
  {
    if b == [] {
      assert u + b == u && v + b == v;
    } else {
      hide Settle;
      var front, last := b[..|b| - 1], b[|b| - 1];
      SettleAfter(u, v, front);
      AddLast(u, b);
      AddLast(v, b);
      SettleOne(u + front, last);
      SettleOne(v + front, last);
    }
  }

  lemma AddLast(u: seq<string>, b: seq<string>)
    requires b != []
    ensures u + b == u + b[..|b| - 1] + [b[|b| - 1]]
  {
  }

  lemma SettleOne(parts: seq<string>, last: string)
    ensures last == "" || last == "." ==> Settle(parts + [last]) == Settle(parts)
    ensures last == ".." ==> Settle(parts + [last]) == (if Settle(parts) == [] then [] else Settle(parts)[..|Settle(parts)| - 1])
    ensures last != "" && last != "." && last != ".." ==> Settle(parts + [last]) == Settle(parts) + [last]
  {
    assert (parts + [last])[..|parts|] == parts;
  }

  lemma {:induction false} JoinBoth(a: seq<string>, b: seq<string>)
    ensures Join(a + b) == Join(a) + Join(b)
  {
    if a == [] {
      assert a + b == b;
    } else {
      assert (a + b)[1..] == a[1..] + b;
      JoinBoth(a[1..], b);
    }
  }

  /** Two rooted paths whose parts settle alike, and which both or neither end in a slash, are cleaned alike. */
  lemma CleansAlike(u: seq<string>, v: seq<string>)
    requires SlashFree(u) && SlashFree(v) && u != []
    requires Settle([""] + u) == Settle([""] + v)
    requires v != [] ==> (u[|u| - 1] == "" <==> v[|v| - 1] == "")
    ensures CleanPath(Join(u)) == CleanPath(Join(v))
  {
    hide Settle, Split;
    EndsInSlash(u);
    SplitJoin(u);
    SplitJoin(v);
    if v == [] {
      SettlePlain(v);
      assert Join(v) == "";
    } else {
      EndsInSlash(v);
    }
  }

  lemma EndsInSlash(u: seq<string>)
    requires SlashFree(u) && u != []
    ensures Join(u) != "" && Join(u)[0] == '/'
    ensures Join(u)[|Join(u)| - 1] == '/' <==> u[|u| - 1] == ""
  {
    var front, last := u[..|u| - 1], u[|u| - 1];
    assert u == front + [last];
    JoinAppend(front, last);
    if last != "" {
      assert last[|last| - 1] in last;
    }
  }

  lemma SettleFront(a: seq<string>)
    requires PlainParts(a)
    ensures Settle([""] + a) == a
  {
    SettlePlain(a);
  }

  lemma AfterEmpty(u: seq<string>, v: seq<string>)
    ensures [""] + u + v == [""] + (u + v)
  {
  }

  /** Parts `more` after plain parts `a` that leave these parts as `left` can be left out. */
  lemma DropParts(a: seq<string>, more: seq<string>, left: seq<string>, b: seq<string>)
    requires PlainParts(a) && PlainParts(left) && SlashFree(more) && SlashFree(b) && more != []
    requires Settle([""] + a + more) == left
    requires b == [] ==> more[|more| - 1] != ""
    ensures CleanPath(Join(a) + Join(more) + Join(b)) == CleanPath(Join(left) + Join(b))
  {
    hide Settle, CleanPath, Join;
    var u := a + more;
    AfterEmpty(a, more);
    SettleFront(left);
    SettleAfter([""] + u, [""] + left, b);
    AfterEmpty(u, b);
    AfterEmpty(left, b);
    assert SlashFree(u);
    JoinBoth(a, more);
    JoinBoth(u, b);
    JoinBoth(left, b);
    SameEnds(u, left, b);
    CleansAlike(u + b, left + b);
  }

  /** With what follows, or with nothing after parts that are not empty, two paths end alike. */
  lemma SameEnds(u: seq<string>, left: seq<string>, b: seq<string>)
    requires u != [] && SlashFree(u) && SlashFree(b) && PlainParts(left)
    requires b == [] ==> u[|u| - 1] != ""
    ensures SlashFree(u + b) && SlashFree(left + b) && u + b != []
    ensures left + b == [] ==> left == []
    ensures left + b != [] ==> ((u + b)[|u + b| - 1] == "" <==> (left + b)[|left + b| - 1] == "")
  {
    if b == [] {
      assert u + b == u && left + b == left;
      assert left != [] ==> IsPlainPart(left[|left| - 1]);
    }
  }

  lemma JoinOne(x: string)
    ensures Join([x]) == "/" + x
  {
    assert [x][1..] == [];
  }

  lemma DropEmptyOrDot(a: seq<string>, x: string, b: seq<string>)
    requires PlainParts(a) && SlashFree(b) && (x == "." || (x == "" && b != []))
    ensures CleanPath(Join(a) + ("/" + x) + Join(b)) == CleanPath(Join(a) + Join(b))
  {
    hide Settle, CleanPath, Join;
    JoinOne(x);
    SettleFront(a);
    SettleOne([""] + a, x);
    DropParts(a, [x], a, b);
  }

  lemma DropWithParent(a: seq<string>, x: string, b: seq<string>)
    requires PlainParts(a) && IsPlainPart(x) && SlashFree(b)
    ensures CleanPath(Join(a) + "/" + x + "/.." + Join(b)) == CleanPath(Join(a) + Join(b))
  {
    hide Settle, CleanPath, Join;
    JoinOne(x);
    JoinOne("..");
    JoinBoth([x], [".."]);
    assert [x] + [".."] == [x, ".."];
    assert Join([x, ".."]) == "/" + x + "/..";
    SettleFront(a);
    SettleOne([""] + a, x);
    SettleOne([""] + a + [x], "..");
    assert (a + [x])[..|a|] == a;
    assert [""] + a + [x, ".."] == [""] + a + [x] + [".."];
    DropParts(a, [x, ".."], a, b);
    assert Join(a) + "/" + x + "/.." + Join(b) == Join(a) + ("/" + x + "/..") + Join(b);
  }

  lemma DropAtRoot(b: seq<string>)
    requires SlashFree(b)
    ensures CleanPath("/.." + Join(b)) == CleanPath(Join(b))
  {
    hide Settle, CleanPath, Join;
    JoinOne("..");
    assert "/" + ".." == "/..";
    assert Settle([""]) == [] by {
      SettleFront([]);
      assert [""] + [] == [""];
    }
    SettleOne([""], "..");
    assert [""] + [] + [".."] == [""] + [".."];
    LawsOnNothing();
    DropParts([], [".."], [], b);
    assert "" + "/.." + Join(b) == "/.." + Join(b) && "" + Join(b) == Join(b);
  }

  /** `cleanPath` obeys these laws. */
  lemma CleanPathCleansParts()
    ensures CleansParts(CleanPath)
  {
    hide CleanPath, Join, IsPlainPart;
    assert CleanPath("") == "/" by {
      Unrooted("");
    }
    forall p | p != "" && p[0] != '/'
      ensures CleanPath(p) == CleanPath("/" + p)
    {
      Unrooted(p);
    }
    forall a | PlainParts(a)
      ensures CleanPath(Join(a) + "/") == Join(a) + "/" && (a != [] ==> CleanPath(Join(a)) == Join(a))
    {
      PlainStays(a);
    }
    forall a, b | PlainParts(a) && SlashFree(b) && b != []
      ensures CleanPath(Join(a) + "/" + Join(b)) == CleanPath(Join(a) + Join(b))
    {
      DropEmptyOrDot(a, "", b);
      assert "/" + "" == "/";
    }
    forall a, b | PlainParts(a) && SlashFree(b)
      ensures CleanPath(Join(a) + "/." + Join(b)) == CleanPath(Join(a) + Join(b))
    {
      DropEmptyOrDot(a, ".", b);
      assert "/" + "." == "/.";
    }
    forall a, x, b | PlainParts(a) && IsPlainPart(x) && SlashFree(b)
      ensures CleanPath(Join(a) + "/" + x + "/.." + Join(b)) == CleanPath(Join(a) + Join(b))
    {
      DropWithParent(a, x, b);
    }
    forall b | SlashFree(b)
      ensures CleanPath("/.." + Join(b)) == CleanPath(Join(b))
    {
      DropAtRoot(b);
    }
  }

  lemma PlainStays(a: seq<string>)
    requires PlainParts(a)
    ensures CleanPath(Join(a) + "/") == Join(a) + "/" && (a != [] ==> CleanPath(Join(a)) == Join(a))
  {
    hide CleanPath;
    if a == [] {
      assert Join(a) + "/" == "/";
      CanonicalStays("/");
    } else {
      CanonicalStays(Join(a));
      CanonicalStays(Join(a) + "/");
    }
  }

  lemma Unrooted(p: string)
    ensures p == "" ==> CleanPath(p) == "/"
    ensures p != "" && p[0] != '/' ==> CleanPath(p) == CleanPath("/" + p)
  {
    hide Clean;
  }

  /** Every rooted path is joined from parts. */
  lemma {:induction false} SplitRooted(p: string) returns (parts: seq<string>)
    requires p != "" && p[0] == '/'
    ensures SlashFree(parts) && parts != [] && Join(parts) == p
    decreases |p|
  {
    var rest := p[1..];
    var i := IndexOf(rest, '/');
    if i < |rest| {
      var more := SplitRooted(rest[i..]);
      parts := [rest[..i]] + more;
      assert parts[1..] == more;
      assert p == "/" + rest[..i] + rest[i..];
    } else {
      parts := [rest];
      JoinOne(rest);
    }
  }

  /** The first part that is not plain, or the number of parts. */
  function PlainUpTo(parts: seq<string>): (i: nat)
    ensures i <= |parts| && PlainParts(parts[..i])
    ensures i < |parts| ==> !IsPlainPart(parts[i])
  {
    if parts == [] || !IsPlainPart(parts[0]) then 0
    else
      var i := 1 + PlainUpTo(parts[1..]);
      assert parts[..i] == [parts[0]] + parts[1..][..i - 1];
      i
  }

  /** The laws leave no choice: they fix the result on every joined path. */
  lemma {:induction false} OneJoined(f: string -> string, g: string -> string, parts: seq<string>)
    requires CleansParts(f) && CleansParts(g) && SlashFree(parts)
    ensures f(Join(parts)) == g(Join(parts))
    decreases |parts|
  {
    hide CleansParts, IsPlainPart;
    var i := PlainUpTo(parts);
    var a := parts[..i];
    if i == |parts| {
      assert a == parts;
      LawsOnPlain(f, a);
      LawsOnPlain(g, a);
    } else {
      var b := parts[i + 1..];
      JoinAround(parts, i);
      if parts[i] == "" && b == [] {
        LawsOnPlain(f, a);
        LawsOnPlain(g, a);
        assert Join(a) + ("/" + "") + Join([]) == Join(a) + "/";
      } else {
        var less := if parts[i] == ".." && a != [] then a[..i - 1] else a;
        OneJoined(f, g, less + b);
        JoinBoth(less, b);
        LawsDrop(f, a, parts[i], b);
        LawsDrop(g, a, parts[i], b);
      }
    }
  }

  lemma JoinAround(parts: seq<string>, i: nat)
    requires i < |parts|
    ensures Join(parts) == Join(parts[..i]) + ("/" + parts[i]) + Join(parts[i + 1..])
  {
    hide Join;
    var a, x, b := parts[..i], [parts[i]], parts[i + 1..];
    Around(parts, i);
    JoinBoth(a + x, b);
    JoinBoth(a, x);
    JoinOne(parts[i]);
  }

  lemma Around(parts: seq<string>, i: nat)
    requires i < |parts|
    ensures parts == parts[..i] + [parts[i]] + parts[i + 1..]
  {
  }

  lemma LawsOnPlain(f: string -> string, a: seq<string>)
    requires CleansParts(f) && PlainParts(a)
    ensures f(Join(a) + "/") == Join(a) + "/"
    ensures f(Join(a)) == if a == [] then "/" else Join(a)
  {
    assert a == [] ==> Join(a) == "";
    hide Join, IsPlainPart;
  }

  /** What a part that is not plain does, after plain parts. */
  lemma LawsDrop(f: string -> string, a: seq<string>, x: string, b: seq<string>)
    requires CleansParts(f) && PlainParts(a) && SlashFree(b) && !IsPlainPart(x) && '/' !in x && (x == "" ==> b != [])
    ensures f(Join(a) + ("/" + x) + Join(b)) == f(Join(if x == ".." && a != [] then a[..|a| - 1] else a) + Join(b))
  {
    hide Join;
    if x == "" {
      assert "/" + x == "/";
    } else if x == "." {
      assert "/" + x == "/.";
    } else if a == [] {
      assert Join(a) == "" by {
        LawsOnNothing();
      }
      assert "" + ("/" + x) + Join(b) == "/.." + Join(b) && "" + Join(b) == Join(b);
    } else {
      var front, last := a[..|a| - 1], a[|a| - 1];
      assert a == front + [last];
      JoinAppend(front, last);
      assert IsPlainPart(last);
      assert "/" + x == "/..";
    }
  }

  lemma LawsOnNothing()
    ensures Join([]) == ""
  {
  }

  /** So `cleanPath` is the only function that obeys them. */
  lemma CleanPathIsDetermined(f: string -> string, p: string)
    requires CleansParts(f)
    ensures f(p) == CleanPath(p)
  {
    hide CleanPath, Join;
    CleanPathCleansParts();
    if p != "" {
      var rooted := if p[0] != '/' then "/" + p else p;
      assert f(p) == f(rooted) && CleanPath(p) == CleanPath(rooted);
      var parts := SplitRooted(rooted);
      OneJoined(f, CleanPath, parts);
    }
  }

  /** The root of a subtree is canonical too. */
  lemma WithSlash(p: string)
    requires IsCanonical(p) && !HasSuffix(p, "/")
    ensures IsCanonical(p + "/")
  {
    assert p != "/" by {
      assert HasSuffix("/", "/");
    }
    var parts :| parts != [] && PlainParts(parts) && (p == Join(parts) || p == Join(parts) + "/");
    assert HasSuffix(Join(parts) + "/", "/");
    assert p + "/" == Join(parts) + "/";
  }

  // ----- characters -----

  /** Printable ASCII but `?`. */
  predicate IsPlainChar(c: char) {
    ' ' <= c <= '~' && c != '?'
  }

  predicate IsPlainPath(p: string) {
    forall i :: 0 <= i < |p| ==> IsPlainChar(p[i])
  }

  lemma {:induction false} PlainSplit(s: string)
    requires IsPlainPath(s)
    ensures forall i :: 0 <= i < |Split(s, '/')| ==> IsPlainPath(Split(s, '/')[i])
    decreases |s|
  {
    var i := IndexOf(s, '/');
    if i < |s| {
      PlainSplit(s[i + 1..]);
    }
  }

  lemma {:induction false} PlainSettle(parts: seq<string>)
    requires forall i :: 0 <= i < |parts| ==> IsPlainPath(parts[i])
    ensures forall i :: 0 <= i < |Settle(parts)| ==> IsPlainPath(Settle(parts)[i])
  {
    if parts != [] {
      PlainSettle(parts[..|parts| - 1]);
    }
  }

  lemma {:induction false} PlainJoin(parts: seq<string>)
    requires forall i :: 0 <= i < |parts| ==> IsPlainPath(parts[i])
    ensures IsPlainPath(Join(parts))
  {
    if parts != [] {
      PlainJoin(parts[1..]);
      assert IsPlainPath("/");
    }
  }

  /** Cleaning adds no character but slashes. */
  lemma CleanPathIsPlain(p: string)
    requires IsPlainPath(p)
    ensures IsPlainPath(CleanPath(p))
  {
    hide Split, Settle, Join;
    if p != "" {
      var rooted := if p[0] != '/' then "/" + p else p;
      PlainSplit(rooted);
      PlainSettle(Split(rooted, '/'));
      PlainJoin(Settle(Split(rooted, '/')));
    }
  }
}
