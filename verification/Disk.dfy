/** The alert and backup directories as a machine of single file-system steps.
    Any step may fail; before each one an outside writer may rearrange the alert directory (the
    backup directory is private to the daemon). Every step that changes a directory is logged
    together with what justifies it, and so is every look at an alert: a name that was missing, a file
    that was opened, what its status said, each piece that was read of it. The log holds every intermediate state and what
    the daemon knew in it. */
module Disk {
  import opened Text
  import opened Order
  import M = AlertMessage

  const MAX_LEGACY_BYTES := 65536
  const MAX_BACKUP_FILES := 16

  /** Anything but a regular file, a symbolic link included, is `Unsafe`. */
  datatype Kind = Regular | Unsafe

  datatype Node = Node(kind: Kind, id: nat, data: string, mtime: int)

  type Dir = map<string, Node>

  datatype Place = Alerts | Backups

  datatype Tree = Tree(alerts: Dir, backups: Dir) {
    function At(place: Place): Dir {
      match place
      case Alerts => alerts
      case Backups => backups
    }

    function With(place: Place, d: Dir): Tree {
      match place
      case Alerts => this.(alerts := d)
      case Backups => this.(backups := d)
    }
  }

  datatype Failure = NotExist | Exist | Fault

  /** An open file: what it held when it was opened, the number of outside edits until then, and the
      position of its opening in the log. */
  datatype Handle = Handle(node: Node, since: nat, id: nat)

  // ----- names -----

  predicate IsTemporary(name: string) {
    HasPrefix(name, ".aamm-ng-") && HasSuffix(name, ".tmp")
  }

  predicate IsFinished(name: string) {
    HasSuffix(name, ".txt")
  }

  lemma FinishedNotTemporary(name: string)
    requires IsFinished(name)
    ensures !IsTemporary(name)
  {
    assert ".txt"[1] != ".tmp"[1] || ".txt"[2] != ".tmp"[2];
  }

  function Finished(d: Dir): set<string> {
    set n | n in d && IsFinished(n)
  }

  // ----- comparing directories -----

  ghost predicate Same(d: Dir, d': Dir, name: string) {
    (name in d <==> name in d') && (name in d ==> d[name] == d'[name])
  }

  ghost predicate SameButTemporary(d: Dir, d': Dir) {
    forall n :: !IsTemporary(n) ==> Same(d, d', n)
  }

  ghost predicate SameExcept(d: Dir, d': Dir, name: string) {
    forall n :: n != name && !IsTemporary(n) ==> Same(d, d', n)
  }

  // ----- what a file is -----

  ghost predicate IsRendering(n: Node, message: string, t: M.Tables) {
    n.kind == Regular && n.data == M.Render(message) && M.IsMessage(message, t)
  }

  ghost predicate IsManaged(n: Node, t: M.Tables) {
    n.kind == Regular && |n.data| <= MAX_LEGACY_BYTES && M.ParseManaged(n.data, t).Some?
  }

  ghost predicate IsLegacy(n: Node, t: M.Tables) {
    n.kind == Regular && |n.data| <= MAX_LEGACY_BYTES && M.ParseManaged(n.data, t).None?
  }

  ghost predicate Holds(d: Dir, copy: Copy) {
    && copy.backup in d && IsFinished(copy.backup)
    && d[copy.backup].kind == Regular && d[copy.backup].data == copy.bytes
    && |copy.bytes| <= MAX_LEGACY_BYTES
  }

  // ----- steps -----

  /** A published backup and the bytes copied into it. */
  datatype Copy = Copy(backup: string, bytes: string)

  /** The purpose of a step. A published file was created by the step `born`; what it replaces or
      removes was looked at last from the step `look` on. Both are positions in the log. */
  datatype Act =
    | Outside
    | Absent(name: string)
    | Seen(name: string)
    | Opened(name: string)
    | Status(file: nat, node: Node)
    | Chunk(file: nat, data: string)
    | Create(place: Place, name: string)
    | Scratch
    | Backup(name: string)
    | Expire(name: string, kept: string)
    | Link(name: string, message: string, temporary: string, born: nat)
    | Replace(name: string, message: string, temporary: string, born: nat, look: nat, copy: Option<Copy>)
    | Unlink(name: string, look: nat, saved: Copy)
  {
    /** The outside writer's edits and the store's looks: the store changes nothing. */
    predicate Looks() {
      Outside? || Absent? || Seen? || Opened? || Status? || Chunk?
    }

    /** Steps that leave every alert as it is, as far as the store is concerned. */
    predicate Prepares() {
      Looks() || Create? || Scratch? || Backup? || Expire?
    }

    predicate KeepsBackups() {
      !Backup? && !Expire?
    }
  }

  datatype Event = Event(before: Tree, after: Tree, edits: nat, act: Act)

  /** What a step of each kind may do to the directories. */
  ghost predicate Allowed(e: Event) {
    var a, a', b, b' := e.before.alerts, e.after.alerts, e.before.backups, e.after.backups;
    match e.act
    case Outside => b' == b
    case Absent(name) => e.after == e.before && name !in a
    case Seen(name) => e.after == e.before && name in a
    case Opened(name) => e.after == e.before && name in a
    case Status(_, _) => e.after == e.before
    case Chunk(_, _) => e.after == e.before
    case Create(_, _) => SameButTemporary(a, a') && SameButTemporary(b, b')
    case Scratch => SameButTemporary(a, a') && SameButTemporary(b, b')
    case Backup(name) =>
      a' == a && IsFinished(name) && SameExcept(b, b', name) && name in b' && b'[name].kind == Regular
    case Expire(name, kept) =>
      && a' == a && b' == b - {name}
      && name in Finished(b) && kept in Finished(b) && name != kept
      && |Finished(b)| > MAX_BACKUP_FILES
      && (forall n :: n in Finished(b) && n != kept && n != name ==> Less(name, n))
    case Link(name, _, _, _) =>
      b' == b && !IsTemporary(name) && SameExcept(a, a', name) && name !in a && name in a'
    case Replace(name, _, _, _, _, _) =>
      b' == b && !IsTemporary(name) && SameExcept(a, a', name) && name in a'
    case Unlink(name, _, _) =>
      b' == b && !IsTemporary(name) && SameExcept(a, a', name) && name !in a'
  }

  // ----- looks -----

  /** The pieces read of the file opened at `file`, joined. */
  ghost function ReadBy(log: seq<Event>, file: nat): string {
    if log == [] then ""
    else
      var act := log[|log| - 1].act;
      ReadBy(log[..|log| - 1], file) + (if act.Chunk? && act.file == file then act.data else "")
  }

  /** From `i` on the store only looked. */
  ghost predicate LooksFrom(log: seq<Event>, i: nat) {
    forall k :: i <= k < |log| ==> log[k].act.Looks()
  }

  /** The file `name` was opened at `file` and then read to its end as `bytes`. */
  ghost predicate ReadWhole(log: seq<Event>, file: nat, name: string, bytes: string) {
    && file < |log| && log[file].act == Opened(name)
    && exists end :: file < end <= |log| && EndsReading(log, file, end, bytes)
  }

  ghost predicate EndsReading(log: seq<Event>, file: nat, end: nat, bytes: string)
    requires 0 < end <= |log|
  {
    log[end - 1].act == Chunk(file, "") && ReadBy(log[..end], file) == bytes
  }

  /** The last thing the store did was to look at `name`: from `look` on it inspected the name, opened
      it, and read the whole file as `bytes`. */
  ghost predicate JustRead(log: seq<Event>, look: nat, name: string, bytes: string) {
    && LooksFrom(log, look) && look < |log| && log[look].act == Seen(name)
    && exists file :: look < file && ReadWhole(log, file, name, bytes)
  }

  /** The last thing the store did was to look at `name`: it was not there. */
  ghost predicate JustMissed(log: seq<Event>, look: nat, name: string) {
    LooksFrom(log, look) && look < |log| && log[look].act == Absent(name)
  }

  /** The last thing the store did was to look at `name`, and what it found may be replaced: the bytes
      in the backup or, without one, nothing or a managed alert. */
  ghost predicate LookedAt(log: seq<Event>, look: nat, name: string, copy: Option<Copy>, t: M.Tables) {
    match copy
    case Some(c) => JustRead(log, look, name, c.bytes)
    case None => JustMissed(log, look, name) || JustReadManaged(log, look, name, t)
  }

  ghost predicate JustReadManaged(log: seq<Event>, look: nat, name: string, t: M.Tables) {
    exists bytes :: JustRead(log, look, name, bytes) && |bytes| <= MAX_LEGACY_BYTES && M.ParseManaged(bytes, t).Some?
  }

  ghost predicate IsBorn(log: seq<Event>, born: nat, temporary: string) {
    born < |log| && log[born].act == Create(Alerts, temporary)
  }

  /** What the steps before it must have been: a published file was created as a temporary file of the
      store and holds the message unless the outside writer interfered since; a replacement or removal
      directly follows a look that found the bytes of a backup still there or, without one, nothing or
      a managed alert, and that finding holds unless the outside writer interfered since. */
  ghost predicate Follows(front: seq<Event>, e: Event, t: M.Tables) {
    var a, a', b := e.before.alerts, e.after.alerts, e.before.backups;
    match e.act
    case Status(file, _) => file < |front| && front[file].act.Opened?
    case Chunk(file, _) => file < |front| && front[file].act.Opened?
    case Link(name, message, temporary, born) =>
      IsBorn(front, born, temporary) && (front[born].edits == e.edits ==> name in a' && IsRendering(a'[name], message, t))
    case Replace(name, message, temporary, born, look, copy) =>
      && IsBorn(front, born, temporary) && (front[born].edits == e.edits ==> name in a' && IsRendering(a'[name], message, t))
      && (copy.Some? ==> Holds(b, copy.value) && M.ParseManaged(copy.value.bytes, t).None?)
      && LookedAt(front, look, name, copy, t)
      && look < |front| && (front[look].edits == e.edits ==> Replaceable(a, name, copy, t))
    case Unlink(name, look, copy) =>
      && Holds(b, copy)
      && LookedAt(front, look, name, Some(copy), t)
      && look < |front| && (front[look].edits == e.edits ==> HasBytes(a, name, copy.bytes))
    case _ => true
  }

  ghost predicate HasBytes(d: Dir, name: string, bytes: string) {
    name in d && d[name].kind == Regular && d[name].data == bytes
  }

  /** What a checked replacement replaces: the bytes in the backup or, without one, nothing or a
      managed alert. */
  ghost predicate Replaceable(d: Dir, name: string, copy: Option<Copy>, t: M.Tables) {
    match copy
    case Some(c) => HasBytes(d, name, c.bytes)
    case None => name !in d || IsManaged(d[name], t)
  }

  function EditsAfter(e: Event): nat {
    if e.act.Outside? then e.edits + 1 else e.edits
  }

  /** `log` leads from `origin` to `tree` in allowed steps, `edits` of them by the outside writer. */
  ghost predicate Leads(origin: Tree, log: seq<Event>, tree: Tree, edits: nat, t: M.Tables) {
    if log == [] then origin == tree && edits == 0
    else
      var e := log[|log| - 1];
      && e.after == tree && EditsAfter(e) == edits
      && Allowed(e) && Follows(log[..|log| - 1], e, t)
      && Leads(origin, log[..|log| - 1], e.before, e.edits, t)
  }

  /** No file is read before it is opened. */
  lemma {:induction false} NotReadYet(origin: Tree, log: seq<Event>, tree: Tree, edits: nat, t: M.Tables, file: nat)
    requires Leads(origin, log, tree, edits, t) && file >= |log|
    ensures ReadBy(log, file) == ""
  {
    hide Allowed;
    if log != [] {
      var e := log[|log| - 1];
      NotReadYet(origin, log[..|log| - 1], e.before, e.edits, t, file);
    }
  }

  /** The counts of outside edits only grow along the log. */
  lemma {:induction false} EditsGrow(origin: Tree, log: seq<Event>, tree: Tree, edits: nat, t: M.Tables, i: nat)
    requires Leads(origin, log, tree, edits, t) && i < |log|
    ensures log[i].edits <= edits
  {
    hide Allowed, Follows;
    if i < |log| - 1 {
      var e := log[|log| - 1];
      EditsGrow(origin, log[..|log| - 1], e.before, e.edits, t, i);
    }
  }

  lemma {:induction false} EditsFirst(origin: Tree, front: seq<Event>, tree0: Tree, edits0: nat,
                                      log: seq<Event>, tree: Tree, edits: nat, t: M.Tables)
    requires Leads(origin, front, tree0, edits0, t) && Leads(origin, log, tree, edits, t)
    requires front < log
    ensures edits0 <= log[|front|].edits
    decreases |log|
  {
    hide Allowed, Follows;
    var n := |log| - 1;
    var e := log[n];
    if |front| < n {
      EditsFirst(origin, front, tree0, edits0, log[..n], e.before, e.edits, t);
    } else {
      assert log[..n] == front;
    }
  }

  lemma {:induction false} EditsInOrder(origin: Tree, log: seq<Event>, tree: Tree, edits: nat, t: M.Tables, i: nat, j: nat)
    requires Leads(origin, log, tree, edits, t) && i <= j < |log|
    ensures log[i].edits <= log[j].edits
  {
    hide Allowed, Follows;
    var e := log[|log| - 1];
    if j < |log| - 1 {
      EditsInOrder(origin, log[..|log| - 1], e.before, e.edits, t, i, j);
    } else if i < j {
      EditsGrow(origin, log[..|log| - 1], e.before, e.edits, t, i);
    }
  }

  /** The last step of a log that grew. */
  ghost predicate WasLast(before: seq<Event>, log: seq<Event>, act: Act, edits: nat) {
    |before| < |log| && log[|log| - 1].act == act && log[|log| - 1].edits == edits
  }

  ghost function LastStep(log: seq<Event>): nat {
    if log == [] then 0 else |log| - 1
  }

  lemma ReadNext(log: seq<Event>, e: Event, file: nat)
    ensures ReadBy(log + [e], file) == ReadBy(log, file) + (if e.act.Chunk? && e.act.file == file then e.act.data else "")
  {
    assert (log + [e])[..|log|] == log;
  }

  /** More looks do not undo a look. */
  lemma LookStays(log: seq<Event>, log': seq<Event>, look: nat, name: string, copy: Option<Copy>, t: M.Tables)
    requires LookedAt(log, look, name, copy, t) && log <= log' && LooksFrom(log', |log|)
    ensures LookedAt(log', look, name, copy, t)
  {
    hide ReadBy;
    assert LooksFrom(log', look) by {
      assert forall k :: look <= k < |log| ==> log[k].act == log'[k].act;
    }
    forall bytes | JustRead(log, look, name, bytes)
      ensures JustRead(log', look, name, bytes)
    {
      var file :| look < file && ReadWhole(log, file, name, bytes);
      ReadStays(log, log', file, name, bytes);
    }
  }

  lemma ReadStays(log: seq<Event>, log': seq<Event>, file: nat, name: string, bytes: string)
    requires ReadWhole(log, file, name, bytes) && log <= log'
    ensures ReadWhole(log', file, name, bytes)
  {
    hide ReadBy;
    var end :| file < end <= |log| && EndsReading(log, file, end, bytes);
    assert log[..end] == log'[..end];
    assert EndsReading(log', file, end, bytes);
  }

  /** The steps that made, replaced or removed an alert, in order. */
  ghost function Publications(log: seq<Event>): seq<Act> {
    if log == [] then []
    else
      var e := log[|log| - 1];
      Publications(log[..|log| - 1]) + (if e.act.Prepares() then [] else [e.act])
  }

  /** From `i` on no backup was published or expired. */
  ghost predicate BackupsKept(log: seq<Event>, i: nat) {
    forall k :: i <= k < |log| ==> log[k].act.KeepsBackups()
  }

  class Disk {
    const tables: M.Tables
    ghost const origin: Tree
    var tree: Tree
    var edits: nat
    var steps: nat
    ghost var log: seq<Event>
    ghost var faults: nat    // calls that failed though the directories allowed them

    constructor (tree: Tree, tables: M.Tables)
      ensures Valid() && log == [] && origin == this.tree == tree && this.tables == tables && edits == 0
    {
      origin := tree;
      this.tree := tree;
      this.tables := tables;
      edits, steps := 0, 0;
      log, faults := [], 0;
    }

    ghost predicate Valid()
      reads this
    {
      steps == |log| && Leads(origin, log, tree, edits, tables)
    }

    /** Nobody else wrote, and no call failed that could have succeeded. */
    twostate predicate Calm()
      reads this
    {
      edits == old(edits) && faults == old(faults)
    }

    /** The store only looked: without outside edits nothing changed. */
    twostate predicate Looked()
      reads this
    {
      && Valid()
      && old(log) <= log && Publications(log) == Publications(old(log)) && LooksFrom(log, |old(log)|)
      && old(edits) <= edits && old(faults) <= faults
      && tree.backups == old(tree.backups)
      && (edits == old(edits) ==> tree == old(tree))
    }

    /** Besides outside edits, only backups changed. */
    twostate predicate Tended()
      reads this
    {
      && Valid()
      && old(log) <= log && Publications(log) == Publications(old(log))
      && old(edits) <= edits && old(faults) <= faults
      && (edits == old(edits) ==> tree.alerts == old(tree.alerts))
    }

    /** Besides outside edits, only the store's temporary files among the backups changed. */
    twostate predicate Drafted()
      reads this
    {
      Tended() && SameButTemporary(old(tree.backups), tree.backups)
    }

    /** Besides outside edits, only the store's temporary files among the alerts changed. */
    twostate predicate Scratched()
      reads this
    {
      && Valid()
      && old(log) <= log && Publications(log) == Publications(old(log)) && BackupsKept(log, |old(log)|)
      && old(edits) <= edits && old(faults) <= faults
      && tree.backups == old(tree.backups)
      && (edits == old(edits) ==> SameButTemporary(old(tree.alerts), tree.alerts))
    }

    /** Only temporary files of `place` changed. */
    twostate predicate Worked(place: Place)
      reads this
    {
      match place
      case Alerts => Scratched()
      case Backups => Drafted()
    }

    /** No piece of any file was read. */
    twostate predicate ReadNothing()
      reads this
    {
      forall file: nat :: ReadBy(log, file) == ReadBy(old(log), file)
    }

    ghost predicate IsHandle(h: Handle)
      reads this
    {
      h.id < |log| && log[h.id].act.Opened? && log[h.id].edits == h.since
    }

    /** The step `i`, taken since, found at least the outside edits of then and at most those of now. */
    twostate lemma Since(i: nat)
      requires old(Valid()) && Valid() && old(log) <= log && |old(log)| <= i < |log|
      ensures old(edits) <= log[i].edits <= edits
    {
      hide Leads;
      EditsFirst(origin, old(log), old(tree), old(edits), log, tree, edits, tables);
      EditsInOrder(origin, log, tree, edits, tables, |old(log)|, i);
      EditsGrow(origin, log, tree, edits, tables, i);
    }

    // ----- one step -----

    /** The outside writer may edit the alert directory in any way, once or not at all. */
    method Interfere()
      requires Valid()
      modifies this
      ensures Looked() && ReadNothing() && faults == old(faults)
    {
      var acts: bool := *;
      if acts {
        var alerts: Dir := *;
        ghost var before := tree;
        tree := tree.(alerts := alerts);
        log := log + [Event(before, tree, edits, Outside)];
        assert log[..|log| - 1] == old(log);
        edits, steps := edits + 1, steps + 1;
      }
    }

    method Step(after: Tree, ghost act: Act)
      requires Valid()
      requires !act.Outside? && Allowed(Event(tree, after, edits, act))
      requires Follows(log, Event(tree, after, edits, act), tables)
      modifies this
      ensures Valid() && tree == after && edits == old(edits) && faults == old(faults)
      ensures log == old(log) + [Event(old(tree), after, edits, act)]
      ensures Publications(log) == Publications(old(log)) + (if act.Prepares() then [] else [act])
      ensures !act.Chunk? ==> ReadNothing()
    {
      ghost var e := Event(tree, after, edits, act);
      forall file: nat
        ensures ReadBy(log + [e], file) == ReadBy(log, file) + (if act.Chunk? && act.file == file then act.data else "")
      {
        ReadNext(log, e, file);
      }
      log := log + [e];
      assert log[..|log| - 1] == old(log);
      tree, steps := after, steps + 1;
    }

    /** Whether a call that could succeed fails. */
    method Fails() returns (fault: bool)
      requires Valid()
      modifies this`faults
      ensures Valid() && faults == old(faults) + if fault then 1 else 0
    {
      fault := *;
      if fault {
        faults := faults + 1;
      }
    }

    // ----- looking -----

    /** Syncing, closing or changing permissions: may fail and shows in no directory. */
    method Settle() returns (ok: bool)
      requires Valid()
      modifies this
      ensures Looked() && ReadNothing()
      ensures ok <==> faults == old(faults)
    {
      Interfere();
      var fault := Fails();
      ok := !fault;
    }

    /** Up to `calls` such calls, until one fails. */
    method SettleAll(calls: nat) returns (ok: bool)
      requires Valid()
      modifies this
      ensures Looked() && ReadNothing()
      ensures ok <==> faults == old(faults)
    {
      hide ReadBy, Leads, Publications;
      ok := true;
      for i := 0 to calls
        invariant Looked() && ReadNothing() && ok && faults == old(faults)
      {
        ok := Settle();
        if !ok {
          return;
        }
      }
    }

    method Lstat(place: Place, name: string) returns (r: Result<Node, Failure>)
      requires Valid()
      modifies this
      ensures Looked() && ReadNothing()
      ensures r.Ok? ==> name in tree.At(place) && r.value == tree.At(place)[name]
      ensures r == Err(NotExist) ==> name !in tree.At(place)
      ensures faults == old(faults) ==> r.Ok? || r == Err(NotExist)
      ensures r == Err(NotExist) && place.Alerts? ==> WasLast(old(log), log, Absent(name), edits)
      ensures r.Ok? && place.Alerts? ==>
                WasLast(old(log), log, Seen(name), edits) && log[|log| - 1].before.alerts == tree.alerts
    {
      hide ReadBy, Leads, Publications;
      Interfere();
      var fault := Fails();
      if fault {
        return Err(Fault);
      }
      var found := name in tree.At(place);
      if place.Alerts? {
        Step(tree, if found then Seen(name) else Absent(name));
      }
      r := if found then Ok(tree.At(place)[name]) else Err(NotExist);
    }

    method Open(name: string) returns (r: Result<Handle, Failure>)
      requires Valid()
      modifies this
      ensures Looked() && ReadNothing()
      ensures r.Ok? ==> name in tree.alerts && r.value.since == edits
      ensures r.Ok? && tree.alerts[name].kind == Regular ==> r.value.node == tree.alerts[name]
      ensures r.Ok? ==>
                && IsHandle(r.value) && |old(log)| <= r.value.id
                && log[r.value.id].act == Opened(name) && ReadBy(log, r.value.id) == ""
      ensures r == Err(NotExist) ==> name !in tree.alerts && WasLast(old(log), log, Absent(name), edits)
      ensures faults == old(faults) ==> r.Ok? || r == Err(NotExist)
    {
      hide ReadBy, Leads, Publications;
      Interfere();
      var fault := Fails();
      if fault {
        return Err(Fault);
      }
      if name !in tree.alerts {
        Step(tree, Absent(name));
        return Err(NotExist);
      }
      var node := tree.alerts[name];
      if node.kind == Unsafe {
        node := *;  // whatever a link or a special file leads to
      }
      r := Ok(Handle(node, edits, steps));
      NotReadYet(origin, log, tree, edits, tables, steps);
      Step(tree, Opened(name));
    }

    /** After an outside edit an open file may have become anything. No operation writes to a file
        that it also holds open for reading. */
    method Stat(h: Handle) returns (r: Result<Node, Failure>)
      requires Valid() && IsHandle(h)
      modifies this
      ensures Looked() && ReadNothing()
      ensures r.Ok? ==> WasLast(old(log), log, Status(h.id, r.value), edits)
      ensures r.Ok? && edits == h.since ==> r.value == h.node
      ensures faults == old(faults) ==> r.Ok?
    {
      hide ReadBy, Leads, Publications;
      Interfere();
      var fault := Fails();
      if fault {
        return Err(Fault);
      }
      var node: Node := *;
      if edits == h.since {
        node := h.node;
      }
      Step(tree, Status(h.id, node));
      r := Ok(node);
    }

    /** At least one and at most `max` of the bytes from `offset` on; none at the end of the file. */
    method ReadChunk(h: Handle, offset: nat, max: nat) returns (r: Result<string, Failure>)
      requires Valid() && IsHandle(h) && max > 0
      modifies this
      ensures Looked()
      ensures r.Ok? ==> |r.value| <= max && |log| > 0 && log[|log| - 1].act == Chunk(h.id, r.value)
      ensures r.Ok? ==> ReadBy(log, h.id) == ReadBy(old(log), h.id) + r.value
      ensures r.Ok? && edits == h.since && offset <= |h.node.data| ==>
                && offset + |r.value| <= |h.node.data|
                && r.value == h.node.data[offset..offset + |r.value|]
                && (r.value == "" <==> offset == |h.node.data|)
      ensures faults == old(faults) ==> r.Ok?
    {
      hide ReadBy, Leads, Publications;
      Interfere();
      var fault := Fails();
      if fault {
        return Err(Fault);
      }
      var data: string := *;
      if edits == h.since {
        data := if offset <= |h.node.data| then h.node.data[offset..] else "";
      }
      var size: int := *;
      if size < 1 {
        size := 1;
      }
      if size > max {
        size := max;
      }
      if size > |data| {
        size := |data|;
      }
      r := Ok(data[..size]);
      ReadNext(log, Event(tree, tree, edits, Chunk(h.id, data[..size])), h.id);
      Step(tree, Chunk(h.id, data[..size]));
    }

    /** `ReadDir`: all names, in no particular order. */
    method ReadDir(place: Place) returns (r: Result<seq<string>, Failure>)
      requires Valid()
      modifies this
      ensures Looked() && ReadNothing()
      ensures r.Ok? ==> Distinct(r.value) && Elements(r.value) == tree.At(place).Keys
      ensures faults == old(faults) ==> r.Ok?
    {
      Interfere();
      var fault := Fails();
      if fault {
        return Err(Fault);
      }
      var names := InAnyOrder(tree.At(place).Keys);
      r := Ok(names);
    }

    // ----- temporary files -----

    /** `OpenFile` with `O_EXCL`; the identity of the new file on success. */
    method CreateExclusive(place: Place, name: string) returns (r: Result<nat, Failure>)
      requires Valid() && IsTemporary(name)
      modifies this
      ensures ReadNothing() && (r.Err? ==> Looked())
      ensures r.Ok? ==> Worked(place)
      ensures r.Ok? ==> |log| > |old(log)| && log[|log| - 1].act == Create(place, name) && log[|log| - 1].edits == edits
      ensures r.Ok? ==>
                && name in tree.At(place) && tree.At(place)[name].kind == Regular
                && tree.At(place)[name].id == r.value && tree.At(place)[name].data == ""
      ensures faults == old(faults) ==> r.Ok? || r == Err(Exist)
    {
      hide ReadBy, Leads, Publications, IsTemporary;
      Interfere();
      var fault := Fails();
      if fault {
        return Err(Fault);
      }
      if name in tree.At(place) {
        return Err(Exist);
      }
      var id: int := *;
      if id < 0 {
        id := 0;
      }
      var mtime: int := *;
      Step(tree.With(place, tree.At(place)[name := Node(Regular, id, "", mtime)]), Create(place, name));
      r := Ok(id);
    }

    /** Up to ten attempts at an exclusive creation under a random name. */
    method CreateTemporary(place: Place, prefix: string)
      returns (r: Result<(string, nat), Failure>, ghost born: nat)
      requires Valid()
      requires HasPrefix(prefix, ".aamm-ng-")
      modifies this
      ensures Worked(place) && ReadNothing()
      ensures r.Ok? ==>
                |old(log)| <= born < |log| && log[born].act == Create(place, r.value.0) && log[born].edits == edits
      ensures r.Ok? ==>
                var (name, id) := r.value;
                IsTemporary(name) && name in tree.At(place) && tree.At(place)[name].kind == Regular
                && tree.At(place)[name].id == id && tree.At(place)[name].data == ""
      ensures faults == old(faults) ==> r.Ok?
    {
      hide ReadBy, Leads, Publications, IsTemporary;
      for attempt := 0 to 10
        invariant Looked() && ReadNothing()
      {
        var token: string := *;
        var name := prefix + token + ".tmp";
        TemporaryName(prefix, token);
        var created := CreateExclusive(place, name);
        match created {
          case Ok(id) => return Ok((name, id)), |log| - 1;
          case Err(Exist) =>
          case Err(e) => return Err(e), 0;
        }
      }
      faults := faults + 1;  // ten names in turn were taken
      r, born := Err(Exist), 0;
    }

    /** Write `data` at the end of the temporary file `name`, if that is still the file created
        there; a failing write may leave a part of it. */
    method Append(place: Place, name: string, id: nat, data: string) returns (ok: bool)
      requires Valid() && IsTemporary(name)
      modifies this
      ensures Worked(place) && ReadNothing()
      ensures ok && (place.Backups? || edits == old(edits))
              && name in old(tree.At(place)) && old(tree.At(place)[name]).id == id ==>
                && name in tree.At(place)
                && tree.At(place)[name].kind == old(tree.At(place)[name]).kind
                && tree.At(place)[name].id == id
                && tree.At(place)[name].data == old(tree.At(place)[name]).data + data
      ensures ok <==> faults == old(faults)
    {
      hide ReadBy, Leads, Publications, IsTemporary;
      Interfere();
      var fault := Fails();
      ok := !fault;
      var written: int := *;
      if ok || written < 0 || written > |data| {
        written := |data|;
      }
      var d := tree.At(place);
      if name in d && d[name].id == id {
        var mtime: int := *;
        var node := d[name].(data := d[name].data + data[..written], mtime := mtime);
        assert data[..|data|] == data;
        Step(tree.With(place, d[name := node]), Scratch);
      }
    }

    /** The deferred removal of a temporary file; its result is ignored. */
    method Discard(place: Place, name: string) returns (ok: bool)
      requires Valid() && IsTemporary(name)
      modifies this
      ensures Worked(place)
      ensures ok <==> faults == old(faults)
    {
      hide ReadBy, Leads, Publications, IsTemporary;
      Interfere();
      var fault := Fails();
      ok := !fault;
      if ok && name in tree.At(place) {
        Step(tree.With(place, tree.At(place) - {name}), Scratch);
      }
    }

    // ----- backups -----

    /** Rename a complete temporary backup to its final name. */
    method PublishBackup(temporary: string, name: string) returns (ok: bool)
      requires Valid() && IsTemporary(temporary) && IsFinished(name)
      requires temporary in tree.backups && tree.backups[temporary].kind == Regular
      modifies this
      ensures Tended()
      ensures ok ==> tree.backups == old(tree.backups - {temporary})[name := old(tree.backups[temporary])]
      ensures !ok ==> tree.backups == old(tree.backups)
      ensures ok <==> faults == old(faults)
    {
      Interfere();
      var fault := Fails();
      ok := !fault;
      if ok {
        FinishedNotTemporary(name);
        var node := tree.backups[temporary];
        Step(tree.(backups := (tree.backups - {temporary})[name := node]), Backup(name));
      }
    }

    /** Remove one backup, the smallest name besides `kept`, while there are too many. */
    method Remove(name: string, ghost kept: string) returns (ok: bool)
      requires Valid()
      requires name in Finished(tree.backups) && kept in Finished(tree.backups) && name != kept
      requires |Finished(tree.backups)| > MAX_BACKUP_FILES
      requires forall n :: n in Finished(tree.backups) && n != kept && n != name ==> Less(name, n)
      modifies this
      ensures Tended()
      ensures tree.backups == if ok then old(tree.backups) - {name} else old(tree.backups)
      ensures ok <==> faults == old(faults)
    {
      Interfere();
      var fault := Fails();
      ok := !fault;
      if ok {
        Step(tree.(backups := tree.backups - {name}), Expire(name, kept));
      }
    }

    // ----- publishing -----

    /** `Link`: give the temporary file a second name, which must be free. */
    method LinkNew(temporary: string, name: string, ghost message: string, ghost born: nat)
      returns (r: Result<(), Failure>)
      requires Valid() && IsTemporary(temporary) && !IsTemporary(name)
      requires IsBorn(log, born, temporary)
      requires log[born].edits == edits ==>
                 temporary in tree.alerts && IsRendering(tree.alerts[temporary], message, tables)
      modifies this
      ensures Valid() && old(log) <= log && old(edits) <= edits && tree.backups == old(tree.backups)
      ensures BackupsKept(log, |old(log)|)
      ensures r.Ok? ==> Publications(log) == Publications(old(log)) + [Link(name, message, temporary, born)]
      ensures r.Ok? && edits == old(edits) ==>
                && name !in old(tree.alerts) && temporary in old(tree.alerts)
                && SameExcept(old(tree.alerts), tree.alerts, name)
                && name in tree.alerts && tree.alerts[name] == old(tree.alerts)[temporary]
      ensures r.Err? ==> Looked()
      ensures r == Err(Exist) ==> name in tree.alerts
      ensures old(faults) <= faults
      ensures Calm() && temporary in old(tree.alerts) ==> (r == if name in old(tree.alerts) then Err(Exist) else Ok(()))
    {
      hide ReadBy, Leads, Publications;
      EditsGrow(origin, log, tree, edits, tables, born);
      Interfere();
      var fault := Fails();
      if fault {
        return Err(Fault);
      }
      if name in tree.alerts {
        return Err(Exist);
      }
      if temporary !in tree.alerts {
        return Err(NotExist);
      }
      Step(tree.(alerts := tree.alerts[name := tree.alerts[temporary]]), Link(name, message, temporary, born));
      r := Ok(());
    }

    /** `Rename` of a temporary file over `name`, directly after a look at it. */
    method RenameOver(temporary: string, name: string, ghost message: string, ghost born: nat,
                      ghost look: nat, ghost copy: Option<Copy>)
      returns (ok: bool)
      requires Valid() && IsTemporary(temporary) && !IsTemporary(name)
      requires IsBorn(log, born, temporary)
      requires log[born].edits == edits ==>
                 temporary in tree.alerts && IsRendering(tree.alerts[temporary], message, tables)
      requires copy.Some? ==> Holds(tree.backups, copy.value) && M.ParseManaged(copy.value.bytes, tables).None?
      requires look < |log| && LookedAt(log, look, name, copy, tables)
      requires log[look].edits == edits ==> Replaceable(tree.alerts, name, copy, tables)
      modifies this
      ensures Valid() && old(log) <= log && old(edits) <= edits && tree.backups == old(tree.backups)
      ensures BackupsKept(log, |old(log)|)
      ensures ok ==> Publications(log) == Publications(old(log)) + [Replace(name, message, temporary, born, look, copy)]
      ensures ok && edits == old(edits) ==>
                && temporary in old(tree.alerts) && SameExcept(old(tree.alerts), tree.alerts, name)
                && name in tree.alerts && tree.alerts[name] == old(tree.alerts)[temporary]
      ensures !ok ==> Looked()
      ensures old(faults) <= faults
      ensures Calm() && temporary in old(tree.alerts) ==> ok
    {
      hide ReadBy, Leads, Publications, LookedAt;
      EditsGrow(origin, log, tree, edits, tables, born);
      EditsGrow(origin, log, tree, edits, tables, look);
      Interfere();
      LookStays(old(log), log, look, name, copy, tables);
      var fault := Fails();
      ok := !fault;
      if temporary !in tree.alerts {
        ok := false;
      }
      if ok {
        ghost var act := Replace(name, message, temporary, born, look, copy);
        var node := tree.alerts[temporary];
        Step(tree.(alerts := (tree.alerts - {temporary})[name := node]), act);
      }
    }

    /** `Remove` of an alert, directly after a look at it. */
    method UnlinkAlert(name: string, ghost look: nat, ghost copy: Copy) returns (ok: bool)
      requires Valid() && !IsTemporary(name)
      requires Holds(tree.backups, copy)
      requires look < |log| && LookedAt(log, look, name, Some(copy), tables)
      requires log[look].edits == edits ==> HasBytes(tree.alerts, name, copy.bytes)
      modifies this
      ensures Valid() && old(log) <= log && old(edits) <= edits && tree.backups == old(tree.backups)
      ensures BackupsKept(log, |old(log)|)
      ensures ok ==> Publications(log) == Publications(old(log)) + [Unlink(name, look, copy)]
      ensures ok && edits == old(edits) ==>
                name !in tree.alerts && SameExcept(old(tree.alerts), tree.alerts, name)
      ensures !ok ==> Looked()
      ensures old(faults) <= faults
      ensures Calm() && name in old(tree.alerts) ==> ok
    {
      hide ReadBy, Leads, Publications, LookedAt;
      EditsGrow(origin, log, tree, edits, tables, look);
      Interfere();
      LookStays(old(log), log, look, name, Some(copy), tables);
      var fault := Fails();
      ok := !fault;
      if name !in tree.alerts {
        ok := false;
      }
      if ok {
        ghost var act := Unlink(name, look, copy);
        Step(tree.(alerts := tree.alerts - {name}), act);
      }
    }
  }

  lemma TemporaryName(prefix: string, token: string)
    requires HasPrefix(prefix, ".aamm-ng-")
    ensures IsTemporary(prefix + token + ".tmp")
  {
    var name := prefix + token + ".tmp";
    assert name[|name| - 4..] == ".tmp";
    assert prefix == ".aamm-ng-" + prefix[9..];
  }
}
