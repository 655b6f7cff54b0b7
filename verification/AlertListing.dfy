/** Listing the alert directory. */
module AlertListing {
  import opened Text
  import opened Order
  import opened Disk
  import opened Backup
  import opened AlertStore
  import M = AlertMessage
  import T = AlertTarget

  datatype IssueKind = MalformedName | UnsafeEntry | InspectionFailed

  datatype Issue = Issue(name: string, kind: IssueKind)

  datatype Item = Item(target: string, entry: Entry)

  datatype Listing = Listing(entries: seq<Item>, issues: seq<Issue>)

  // ----- order -----

  predicate ItemBefore(a: Item, b: Item, wide: string -> string) {
    Less(T.ToLower(a.target, wide), T.ToLower(b.target, wide))
  }

  predicate IssueBefore(a: Issue, b: Issue, wide: string -> string) {
    var x, y := T.ToLower(a.name, wide), T.ToLower(b.name, wide);
    Less(x, y) || (x == y && Less(a.name, b.name))
  }

  lemma ItemsCompare(wide: string -> string)
    ensures Compares((a: Item, b: Item) => ItemBefore(a, b, wide))
  {
    var before := (a: Item, b: Item) => ItemBefore(a, b, wide);
    forall a, b | before(a, b)
      ensures !before(b, a)
    {
      LessAsymmetric(T.ToLower(a.target, wide), T.ToLower(b.target, wide));
    }
    forall a, b, c | !before(b, a) && !before(c, b)
      ensures !before(c, a)
    {
      NotLessTransitive(T.ToLower(a.target, wide), T.ToLower(b.target, wide), T.ToLower(c.target, wide));
    }
  }

  lemma IssuesCompare(wide: string -> string)
    ensures Compares((a: Issue, b: Issue) => IssueBefore(a, b, wide))
  {
    hide T.ToLower, Less;
    var before := (a: Issue, b: Issue) => IssueBefore(a, b, wide);
    forall a, b | before(a, b)
      ensures !before(b, a)
    {
      var x, y := T.ToLower(a.name, wide), T.ToLower(b.name, wide);
      LessIrreflexive(x);
      if Less(x, y) {
        LessAsymmetric(x, y);
      } else {
        LessAsymmetric(a.name, b.name);
      }
    }
    forall a, b, c | !before(b, a) && !before(c, b)
      ensures !before(c, a)
    {
      var x, y, z := T.ToLower(a.name, wide), T.ToLower(b.name, wide), T.ToLower(c.name, wide);
      NotLessTransitive(x, y, z);
      if x == z {
        LessTotal(x, y);
        NotLessTransitive(a.name, b.name, c.name);
      }
    }
  }

  /** Sorting issues with different names gives one result, whatever order they were found in. */
  lemma SortedIssuesUnordered(s: seq<Issue>, t: seq<Issue>, wide: string -> string)
    requires multiset(s) == multiset(t)
    requires forall a, b :: a in s && b in s && a.name == b.name ==> a == b
    ensures SortBy(s, (a: Issue, b: Issue) => IssueBefore(a, b, wide)) == SortBy(t, (a: Issue, b: Issue) => IssueBefore(a, b, wide))
  {
    hide T.ToLower, Less, SortBy;
    var before := (a: Issue, b: Issue) => IssueBefore(a, b, wide);
    IssuesCompare(wide);
    SortByKeeps(s, before);
    SortByKeeps(t, before);
    SamePopulation(s, SortBy(s, before));
    forall a, b | a in SortBy(s, before) && b in SortBy(s, before) && a != b
      ensures before(a, b) || before(b, a)
    {
      assert a in Elements(s) && b in Elements(s);
      LessTotal(T.ToLower(a.name, wide), T.ToLower(b.name, wide));
      LessTotal(a.name, b.name);
    }
    OrderUnique(SortBy(s, before), SortBy(t, before), before);
  }

  /** The same for entries with different targets. */
  lemma SortedItemsUnordered(s: seq<Item>, t: seq<Item>, wide: string -> string)
    requires multiset(s) == multiset(t)
    requires forall a :: a in s ==> T.IsTarget(a.target)
    requires forall a, b :: a in s && b in s && a.target == b.target ==> a == b
    ensures SortBy(s, (a: Item, b: Item) => ItemBefore(a, b, wide)) == SortBy(t, (a: Item, b: Item) => ItemBefore(a, b, wide))
  {
    hide T.ToLower, Less, SortBy, T.IsTarget;
    var before := (a: Item, b: Item) => ItemBefore(a, b, wide);
    ItemsCompare(wide);
    SortByKeeps(s, before);
    SortByKeeps(t, before);
    SamePopulation(s, SortBy(s, before));
    forall a, b | a in SortBy(s, before) && b in SortBy(s, before) && a != b
      ensures before(a, b) || before(b, a)
    {
      assert a in Elements(s) && b in Elements(s);
      T.TargetIsLower(a.target, wide);
      T.TargetIsLower(b.target, wide);
      LessTotal(a.target, b.target);
    }
    OrderUnique(SortBy(s, before), SortBy(t, before), before);
  }

  // ----- file names -----

  /** The target whose file has exactly this name. */
  function TargetOf(name: string, wide: string -> string): Option<string>
    requires IsFinished(name)
  {
    match T.Parse(name[..|name| - 4], wide)
    case None => None
    case Some(t) => if T.Filename(t) == name then Some(t) else None
  }

  /** A file is an alert exactly if it is named after a target of at most 63 bytes, whatever the
      Unicode tables say. */
  lemma CanonicalName(name: string, t: string, wide: string -> string)
    requires IsFinished(name)
    ensures TargetOf(name, wide) == Some(t) <==> T.IsTarget(t) && |t| <= T.MAX_LENGTH && name == t + ".txt"
  {
    assert name == name[..|name| - 4] + ".txt";
    if T.IsTarget(t) && |t| <= T.MAX_LENGTH && name == t + ".txt" {
      assert name[..|name| - 4] == t;
      T.TargetParsesToItself(t, wide);
    }
  }

  // ----- the listing -----

  /** What the listing says of one `.txt` file: a malformed name, the content of a regular file, an
      entry that is no regular file, or, with `faulty`, that looking at it failed. */
  ghost predicate Reported(name: string, d: Dir, listing: Listing, faulty: bool, t: M.Tables, wide: string -> string)
    requires name in d && IsFinished(name)
  {
    match TargetOf(name, wide)
    case None => Issue(name, MalformedName) in listing.issues
    case Some(target) =>
      || (faulty && Issue(name, InspectionFailed) in listing.issues)
      || (d[name].kind == Unsafe && Issue(name, UnsafeEntry) in listing.issues)
      || (d[name].kind == Regular && Item(target, Classify(d[name].data, t)) in listing.entries)
  }

  /** Every `.txt` file of the directory is reported; the numbers match, so each of them once. */
  ghost predicate IsListing(d: Dir, names: set<string>, listing: Listing, faulty: bool, t: M.Tables, wide: string -> string) {
    && (forall n :: n in names && n in d && IsFinished(n) ==> Reported(n, d, listing, faulty, t, wide))
    && |listing.entries| + |listing.issues| == |names|
  }

  ghost predicate IsSorted(listing: Listing, wide: string -> string) {
    && InOrder(listing.entries, (a: Item, b: Item) => ItemBefore(a, b, wide))
    && InOrder(listing.issues, (a: Issue, b: Issue) => IssueBefore(a, b, wide))
  }

  lemma OneMoreItem(d: Dir, names: set<string>, listing: Listing, faulty: bool, name: string, item: Item,
                    t: M.Tables, wide: string -> string)
    requires IsListing(d, names, listing, faulty, t, wide) && name !in names && name in d && IsFinished(name)
    requires TargetOf(name, wide) == Some(item.target)
    requires d[name].kind == Regular && item.entry == Classify(d[name].data, t)
    ensures IsListing(d, names + {name}, listing.(entries := listing.entries + [item]), faulty, t, wide)
  {
    hide TargetOf, Classify, IsFinished;
  }

  lemma OneMoreIssue(d: Dir, names: set<string>, listing: Listing, faulty: bool, name: string, kind: IssueKind,
                     t: M.Tables, wide: string -> string)
    requires IsListing(d, names, listing, faulty, t, wide) && name !in names && name in d && IsFinished(name)
    requires match kind
             case MalformedName => TargetOf(name, wide).None?
             case UnsafeEntry => TargetOf(name, wide).Some? && d[name].kind == Unsafe
             case InspectionFailed => TargetOf(name, wide).Some? && faulty
    ensures IsListing(d, names + {name}, listing.(issues := listing.issues + [Issue(name, kind)]), faulty, t, wide)
  {
    hide TargetOf, Classify, IsFinished;
    var after := listing.(issues := listing.issues + [Issue(name, kind)]);
    assert after.issues[|listing.issues|] == Issue(name, kind);
  }

  lemma SortedListing(d: Dir, names: set<string>, listing: Listing, faulty: bool, t: M.Tables, wide: string -> string)
    requires IsListing(d, names, listing, faulty, t, wide)
    ensures IsListing(d, names, Sorted(listing, wide), faulty, t, wide)
  {
    hide TargetOf, Classify, IsFinished, SortBy;
    ItemsCompare(wide);
    IssuesCompare(wide);
    SortByKeeps(listing.entries, (a: Item, b: Item) => ItemBefore(a, b, wide));
    SortByKeeps(listing.issues, (a: Issue, b: Issue) => IssueBefore(a, b, wide));
    SamePopulation(listing.entries, Sorted(listing, wide).entries);
    SamePopulation(listing.issues, Sorted(listing, wide).issues);
    assert forall i :: i in listing.entries <==> i in Elements(listing.entries);
    assert forall i :: i in listing.issues <==> i in Elements(listing.issues);
  }

  lemma FaultsAllow(d: Dir, names: set<string>, listing: Listing, faulty: bool, faulty': bool,
                    t: M.Tables, wide: string -> string)
    requires IsListing(d, names, listing, faulty, t, wide) && (faulty ==> faulty')
    ensures IsListing(d, names, listing, faulty', t, wide)
  {
    hide TargetOf, Classify, IsFinished;
  }

  lemma SortedIsSorted(listing: Listing, wide: string -> string)
    ensures IsSorted(Sorted(listing, wide), wide)
  {
    ItemsCompare(wide);
    IssuesCompare(wide);
    SortByKeeps(listing.entries, (a: Item, b: Item) => ItemBefore(a, b, wide));
    SortByKeeps(listing.issues, (a: Issue, b: Issue) => IssueBefore(a, b, wide));
  }

  function Sorted(listing: Listing, wide: string -> string): Listing {
    Listing(SortBy(listing.entries, (a: Item, b: Item) => ItemBefore(a, b, wide)),
            SortBy(listing.issues, (a: Issue, b: Issue) => IssueBefore(a, b, wide)))
  }

  /** What the order of a listing means: entries by the lower case of their targets, issues by the lower
      case of their names and, where that is the same, by the names. */
  lemma ListedInOrder(listing: Listing, i: nat, j: nat, wide: string -> string)
    requires IsSorted(listing, wide) && i < j
    ensures j < |listing.entries| ==>
              !Less(T.ToLower(listing.entries[j].target, wide), T.ToLower(listing.entries[i].target, wide))
    ensures j < |listing.issues| ==>
              var a, b := listing.issues[i].name, listing.issues[j].name;
              && !Less(T.ToLower(b, wide), T.ToLower(a, wide))
              && (T.ToLower(a, wide) == T.ToLower(b, wide) ==> !Less(b, a))
  {
    hide Less, T.ToLower;
  }

  /** One turn of the loop: report the file `name`. */
  method Examine(s: Store, name: string, before: Listing, ghost names: set<string>, ghost faulty: bool)
    returns (listing: Listing)
    requires s.disk.Valid() && IsFinished(name)
    modifies s.disk
    ensures s.disk.Looked()
    ensures && s.disk.edits == old(s.disk.edits)
            && IsListing(s.disk.tree.alerts, names, before, faulty, s.disk.tables, s.wide)
            && name !in names && name in s.disk.tree.alerts ==>
              IsListing(s.disk.tree.alerts, names + {name}, listing, faulty || s.disk.faults != old(s.disk.faults),
                        s.disk.tables, s.wide)
  {
    hide IsListing, TargetOf, Classify, IsFinished;
    var disk := s.disk;
    var target := TargetOf(name, s.wide);
    if target.None? {
      listing := before.(issues := before.issues + [Issue(name, MalformedName)]);
      if IsListing(disk.tree.alerts, names, before, faulty, disk.tables, s.wide) && name !in names && name in disk.tree.alerts {
        FaultsAllow(disk.tree.alerts, names, before, faulty, faulty || disk.faults != old(disk.faults), disk.tables, s.wide);
        OneMoreIssue(disk.tree.alerts, names, before, faulty || disk.faults != old(disk.faults), name, MalformedName,
                     disk.tables, s.wide);
      }
      return;
    }
    CanonicalName(name, target.value, s.wide);
    var entry, look := s.ReadEntry(target.value);
    if entry.Err? {
      var kind := if entry.error == UnsafeFile then UnsafeEntry else InspectionFailed;
      listing := before.(issues := before.issues + [Issue(name, kind)]);
      if disk.edits == old(disk.edits)
         && IsListing(disk.tree.alerts, names, before, faulty, disk.tables, s.wide) && name !in names && name in disk.tree.alerts {
        FaultsAllow(disk.tree.alerts, names, before, faulty, faulty || disk.faults != old(disk.faults), disk.tables, s.wide);
        OneMoreIssue(disk.tree.alerts, names, before, faulty || disk.faults != old(disk.faults), name, kind,
                     disk.tables, s.wide);
      }
      return;
    }
    listing := before.(entries := before.entries + [Item(target.value, entry.value)]);
    if disk.edits == old(disk.edits)
       && IsListing(disk.tree.alerts, names, before, faulty, disk.tables, s.wide) && name !in names && name in disk.tree.alerts {
      FaultsAllow(disk.tree.alerts, names, before, faulty, faulty || disk.faults != old(disk.faults), disk.tables, s.wide);
      OneMoreItem(disk.tree.alerts, names, before, faulty || disk.faults != old(disk.faults), name,
                  Item(target.value, entry.value), disk.tables, s.wide);
    }
  }

  /** `List`. */
  method List(s: Store) returns (r: Result<Listing, StoreError>)
    requires s.disk.Valid()
    modifies s.disk
    ensures s.disk.Looked()
    ensures !s.alertRootOpen ==> r == Err(Closed)
    ensures r.Ok? ==> IsSorted(r.value, s.wide)
    ensures r.Ok? && s.disk.edits == old(s.disk.edits) ==>
              IsListing(s.disk.tree.alerts, Finished(s.disk.tree.alerts), r.value, s.disk.faults != old(s.disk.faults),
                        s.disk.tables, s.wide)
    ensures r.Ok? || r.error in {Closed, Failed}
    ensures s.disk.Calm() && s.alertRootOpen ==> r.Ok?
  {
    hide IsListing, IsSorted, IsFinished, Finished, Leads, Publications, ReadBy, Distinct, Sorted;
    var disk := s.disk;
    if !s.alertRootOpen {
      return Err(Closed);
    }
    var reached := disk.Settle();
    if !reached {
      return Err(Failed);
    }
    var read := disk.ReadDir(Alerts);
    if read.Err? {
      return Err(Failed);
    }
    var names, listing := read.value, Listing([], []);
    assert disk.edits == old(disk.edits) ==> Elements(names) == disk.tree.alerts.Keys;
    var closed := disk.Settle();
    if !closed {
      return Err(Failed);
    }
    NothingListed(disk.tree.alerts, disk.faults != old(disk.faults), disk.tables, s.wide);
    assert names[..0] == [];
    for i := 0 to |names|
      invariant disk.Looked()
      invariant disk.edits == old(disk.edits) ==>
                  && Elements(names) == disk.tree.alerts.Keys
                  && IsListing(disk.tree.alerts, FinishedOf(names[..i]), listing, disk.faults != old(disk.faults), disk.tables, s.wide)
    {
      NextFinished(names, i);
      if !IsFinished(names[i]) {
        continue;
      }
      assert names[i] in Elements(names);
      listing := Examine(s, names[i], listing, FinishedOf(names[..i]), disk.faults != old(disk.faults));
    }
    if disk.edits == old(disk.edits) {
      AllFinished(names, disk.tree.alerts);
      SortedListing(disk.tree.alerts, Finished(disk.tree.alerts), listing, disk.faults != old(disk.faults), disk.tables, s.wide);
    }
    SortedIsSorted(listing, s.wide);
    r := Ok(Sorted(listing, s.wide));
  }

  ghost function FinishedOf(names: seq<string>): set<string> {
    set n | n in names && IsFinished(n)
  }

  lemma NextFinished(names: seq<string>, i: nat)
    requires i < |names| && Distinct(names)
    ensures names[i] !in FinishedOf(names[..i])
    ensures FinishedOf(names[..i + 1]) ==
            if IsFinished(names[i]) then FinishedOf(names[..i]) + {names[i]} else FinishedOf(names[..i])
  {
    assert names[..i + 1] == names[..i] + [names[i]];
  }

  lemma AllFinished(names: seq<string>, d: Dir)
    requires Elements(names) == d.Keys
    ensures FinishedOf(names[..|names|]) == Finished(d)
  {
    assert names[..|names|] == names;
    assert forall n :: n in names <==> n in Elements(names);
  }

  lemma NothingListed(d: Dir, faulty: bool, t: M.Tables, wide: string -> string)
    ensures IsListing(d, FinishedOf([]), Listing([], []), faulty, t, wide)
  {
  }
}
