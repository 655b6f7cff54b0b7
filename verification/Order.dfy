/** The byte-wise order of strings (`strings.Compare`) and `sort.Strings`. */
module Order {

  predicate Less(a: string, b: string) {
    b != "" && (a == "" || a[0] < b[0] || (a[0] == b[0] && Less(a[1..], b[1..])))
  }

  lemma {:induction false} LessTotal(a: string, b: string)
    ensures Less(a, b) || a == b || Less(b, a)
  {
    if a != "" && b != "" && a[0] == b[0] {
      LessTotal(a[1..], b[1..]);
    }
  }

  lemma {:induction false} LessIrreflexive(a: string)
    ensures !Less(a, a)
  {
    if a != "" {
      LessIrreflexive(a[1..]);
    }
  }

  lemma {:induction false} LessTransitive(a: string, b: string, c: string)
    requires Less(a, b) && Less(b, c)
    ensures Less(a, c)
  {
    if a != "" && a[0] == b[0] == c[0] {
      LessTransitive(a[1..], b[1..], c[1..]);
    }
  }

  lemma LessAsymmetric(a: string, b: string)
    requires Less(a, b)
    ensures !Less(b, a) && a != b
  {
    LessIrreflexive(a);
    if Less(b, a) {
      LessTransitive(a, b, a);
    }
  }

  /** A decision at the first field settles the order, whatever follows. */
  lemma {:induction false} LessByPrefix(a: string, b: string, c: string, d: string)
    requires |a| == |b| && Less(a, b)
    ensures Less(a + c, b + d)
  {
    assert (a + c)[0] == a[0] && (b + d)[0] == b[0];
    if a[0] == b[0] {
      LessByPrefix(a[1..], b[1..], c, d);
      assert (a + c)[1..] == a[1..] + c && (b + d)[1..] == b[1..] + d;
    }
  }

  lemma {:induction false} LessAfterPrefix(p: string, a: string, b: string)
    requires Less(a, b)
    ensures Less(p + a, p + b)
  {
    hide Less;
    if p == "" {
      assert p + a == a && p + b == b;
    } else {
      LessAfterPrefix(p[1..], a, b);
      LessAfterChar(p[0], p[1..] + a, p[1..] + b);
      assert p + a == [p[0]] + (p[1..] + a) && p + b == [p[0]] + (p[1..] + b);
    }
  }

  lemma LessAfterChar(c: char, a: string, b: string)
    requires Less(a, b)
    ensures Less([c] + a, [c] + b)
  {
    assert ([c] + a)[1..] == a && ([c] + b)[1..] == b;
  }

  ghost predicate Ascending(s: seq<string>) {
    forall i, j :: 0 <= i < j < |s| ==> Less(s[i], s[j]) || s[i] == s[j]
  }

  ghost predicate StrictlyAscending(s: seq<string>) {
    forall i, j :: 0 <= i < j < |s| ==> Less(s[i], s[j])
  }

  ghost predicate Distinct<T>(s: seq<T>) {
    forall i, j :: 0 <= i < j < |s| ==> s[i] != s[j]
  }

  function Elements<T>(s: seq<T>): set<T> {
    set x | x in s
  }

  lemma {:induction false} DistinctCount<T>(s: seq<T>)
    requires Distinct(s)
    ensures |Elements(s)| == |s|
  {
    if s != [] {
      var front, last := s[..|s| - 1], s[|s| - 1];
      DistinctCount(front);
      assert Elements(s) == Elements(front) + {last};
      assert last !in front;
    }
  }

  lemma {:induction false} FewerElements<T>(s: seq<T>)
    ensures |Elements(s)| <= |s|
    ensures |Elements(s)| == |s| ==> Distinct(s)
  {
    if s != [] {
      var front, last := s[..|s| - 1], s[|s| - 1];
      FewerElements(front);
      assert Elements(s) == Elements(front) + {last};
      if last in front {
        assert Elements(s) == Elements(front);
      }
    }
  }

  lemma FreshAt<T>(s: seq<T>, i: nat)
    requires i < |s| && |Elements(s)| == |s|
    ensures s[i] !in s[..i]
  {
    FewerElements(s);
    assert forall k :: 0 <= k < i ==> s[k] == s[..i][k];
  }

  lemma NextElements<T>(s: seq<T>, x: T)
    ensures Elements(s + [x]) == Elements(s) + {x}
  {
  }

  /** Every element once, in no particular order. */
  method InAnyOrder<T(==)>(all: set<T>) returns (s: seq<T>)
    ensures Distinct(s) && Elements(s) == all
  {
    s := [];
    var rest := all;
    while rest != {}
      invariant rest <= all && Distinct(s) && Elements(s) == all - rest
    {
      var x :| x in rest;
      assert x !in Elements(s);
      NextElements(s, x);
      s := s + [x];
      rest := rest - {x};
    }
  }

  // ----- sorting by a comparison -----

  function InsertBy<X>(x: X, s: seq<X>, before: (X, X) -> bool): seq<X> {
    if s == [] then [x]
    else if before(s[0], x) then [s[0]] + InsertBy(x, s[1..], before)
    else [x] + s
  }

  /** `slices.SortFunc`. */
  function SortBy<X>(s: seq<X>, before: (X, X) -> bool): seq<X> {
    if s == [] then [] else InsertBy(s[0], SortBy(s[1..], before), before)
  }

  /** No element belongs before an earlier one. */
  ghost predicate InOrder<X>(s: seq<X>, before: (X, X) -> bool) {
    forall i, j :: 0 <= i < j < |s| ==> !before(s[j], s[i])
  }

  /** `before` compares by some key in a total order. */
  ghost predicate Compares<X(!new)>(before: (X, X) -> bool) {
    && (forall a, b :: before(a, b) ==> !before(b, a))
    && (forall a, b, c :: !before(b, a) && !before(c, b) ==> !before(c, a))
  }

  lemma {:induction false} InsertByKeeps<X(!new)>(x: X, s: seq<X>, before: (X, X) -> bool)
    requires Compares(before) && InOrder(s, before)
    ensures multiset(InsertBy(x, s, before)) == multiset(s) + multiset{x}
    ensures InOrder(InsertBy(x, s, before), before)
  {
    if s != [] && before(s[0], x) {
      InsertByKeeps(x, s[1..], before);
      var rest := InsertBy(x, s[1..], before);
      assert s == [s[0]] + s[1..];
      forall y | y in rest
        ensures !before(y, s[0])
      {
        assert y in multiset(rest);
        assert y == x || y in s[1..];
      }
      Prepend(s[0], rest, before);
    } else if s != [] {
      forall y | y in s
        ensures !before(y, x)
      {
        assert y == s[0] || !before(y, s[0]);
      }
      Prepend(x, s, before);
    }
  }

  lemma Prepend<X>(x: X, s: seq<X>, before: (X, X) -> bool)
    requires InOrder(s, before) && forall y :: y in s ==> !before(y, x)
    ensures InOrder([x] + s, before)
  {
  }

  lemma {:induction false} SortByKeeps<X(!new)>(s: seq<X>, before: (X, X) -> bool)
    requires Compares(before)
    ensures multiset(SortBy(s, before)) == multiset(s)
    ensures InOrder(SortBy(s, before), before)
  {
    if s != [] {
      SortByKeeps(s[1..], before);
      InsertByKeeps(s[0], SortBy(s[1..], before), before);
      assert s == [s[0]] + s[1..];
    }
  }

  /** Every two different elements can be compared. */
  ghost predicate Separates<X(!new)>(before: (X, X) -> bool, s: seq<X>) {
    forall a, b :: a in s && b in s && a != b ==> before(a, b) || before(b, a)
  }

  /** There is only one order of the same elements when any two different ones can be compared. */
  lemma {:induction false} OrderUnique<X(!new)>(s: seq<X>, t: seq<X>, before: (X, X) -> bool)
    requires Compares(before) && InOrder(s, before) && InOrder(t, before)
    requires multiset(s) == multiset(t) && Separates(before, s)
    ensures s == t
  {
    hide Compares;
    SamePopulation(s, t);
    if s != [] {
      SameHead(s, t, before);
      SameTail(s, t);
      assert Separates(before, s[1..]);
      OrderUnique(s[1..], t[1..], before);
      assert s == [s[0]] + s[1..] && t == [t[0]] + t[1..];
    }
  }

  lemma SameTail<X>(s: seq<X>, t: seq<X>)
    requires s != [] && t != [] && s[0] == t[0] && multiset(s) == multiset(t)
    ensures multiset(s[1..]) == multiset(t[1..])
  {
    assert s == [s[0]] + s[1..] && t == [t[0]] + t[1..];
    assert multiset(s[1..]) == multiset(s) - multiset{s[0]} == multiset(t[1..]);
  }

  lemma SameHead<X(!new)>(s: seq<X>, t: seq<X>, before: (X, X) -> bool)
    requires InOrder(s, before) && InOrder(t, before) && s != [] && t != []
    requires Elements(s) == Elements(t) && Separates(before, s)
    ensures s[0] == t[0]
  {
    assert s[0] in Elements(t) && t[0] in Elements(s);
    var i :| 0 <= i < |t| && t[i] == s[0];
    var j :| 0 <= j < |s| && s[j] == t[0];
    assert i > 0 ==> !before(s[0], t[0]);
    assert j > 0 ==> !before(t[0], s[0]);
  }

  lemma NotLessTransitive(a: string, b: string, c: string)
    requires !Less(b, a) && !Less(c, b)
    ensures !Less(c, a)
  {
    LessTotal(a, b);
    LessTotal(b, c);
    if Less(a, b) && Less(b, c) {
      LessTransitive(a, b, c);
    }
    if Less(c, a) {
      LessAsymmetric(c, a);
    }
  }

  lemma LessCompares()
    ensures Compares(Less)
  {
    forall a, b | Less(a, b)
      ensures !Less(b, a)
    {
      LessAsymmetric(a, b);
    }
    forall a, b, c | !Less(b, a) && !Less(c, b)
      ensures !Less(c, a)
    {
      NotLessTransitive(a, b, c);
    }
  }

  /** `sort.Strings`. */
  function Sort(s: seq<string>): seq<string> {
    SortBy(s, Less)
  }

  lemma SortIsAscending(s: seq<string>)
    ensures multiset(Sort(s)) == multiset(s)
    ensures Ascending(Sort(s))
  {
    hide Less, SortBy;
    LessCompares();
    SortByKeeps(s, Less);
    var t := Sort(s);
    forall i, j | 0 <= i < j < |t|
      ensures Less(t[i], t[j]) || t[i] == t[j]
    {
      assert !Less(t[j], t[i]);
      LessTotal(t[i], t[j]);
    }
  }

  lemma SamePopulation<T>(s: seq<T>, t: seq<T>)
    requires multiset(s) == multiset(t)
    ensures |s| == |t| && Elements(s) == Elements(t)
  {
    assert |multiset(s)| == |s| && |multiset(t)| == |t|;
    assert forall x :: x in s <==> x in multiset(s);
    assert forall x :: x in t <==> x in multiset(t);
  }

  lemma {:induction false} DistinctInMultiset<T>(s: seq<T>, x: T)
    requires Distinct(s)
    ensures multiset(s)[x] <= 1
  {
    if s != [] {
      assert s == [s[0]] + s[1..];
      DistinctInMultiset(s[1..], x);
      assert s[0] !in s[1..];
    }
  }

  lemma TwiceInMultiset<T>(t: seq<T>, i: nat, j: nat)
    requires i < j < |t| && t[i] == t[j]
    ensures multiset(t)[t[i]] >= 2
  {
    assert t == t[..j] + t[j..];
    assert t[..j][i] == t[i] && t[j..][0] == t[j];
  }

  lemma SortOfDistinct(s: seq<string>)
    requires Distinct(s)
    ensures StrictlyAscending(Sort(s)) && Distinct(Sort(s))
    ensures |Sort(s)| == |s| && Elements(Sort(s)) == Elements(s)
  {
    SortIsAscending(s);
    var t := Sort(s);
    SamePopulation(s, t);
    forall i, j | 0 <= i < j < |t|
      ensures t[i] != t[j]
    {
      DistinctInMultiset(s, t[i]);
      if t[i] == t[j] {
        TwiceInMultiset(t, i, j);
      }
    }
  }

  lemma SortKeepsElements(s: seq<string>)
    ensures |Sort(s)| == |s| && Elements(Sort(s)) == Elements(s)
  {
    SortIsAscending(s);
    SamePopulation(s, Sort(s));
  }

  lemma EmptyElements<T>(s: seq<T>)
    ensures Elements(s) == {} ==> s == []
  {
    if s != [] {
      assert s[0] in Elements(s);
    }
  }

  /** Two strictly ascending sequences with the same elements are the same sequence. */
  lemma {:induction false} AscendingUnique(s: seq<string>, t: seq<string>)
    requires StrictlyAscending(s) && StrictlyAscending(t)
    requires Elements(s) == Elements(t)
    ensures s == t
  {
    if s == [] {
      EmptyElements(t);
    } else {
      assert s[0] in Elements(t);
      assert t[0] in Elements(s);
      assert s[0] == t[0] by {
        if Less(s[0], t[0]) {
          LessAsymmetric(s[0], t[0]);
        }
      }
      forall x
        ensures x in s[1..] <==> x in t[1..]
      {
        HeadNotInTail(s);
        HeadNotInTail(t);
        assert x in s <==> x in Elements(s);
        assert x in t <==> x in Elements(t);
        assert s == [s[0]] + s[1..] && t == [t[0]] + t[1..];
      }
      AscendingUnique(s[1..], t[1..]);
      assert s == [s[0]] + s[1..] && t == [t[0]] + t[1..];
    }
  }

  lemma HeadNotInTail(s: seq<string>)
    requires s != [] && StrictlyAscending(s)
    ensures s[0] !in s[1..]
  {
    LessIrreflexive(s[0]);
  }
}
