/** Verified backups of alerts and their retention. */
module Backup {
  import opened Text
  import opened Order
  import opened Disk
  import M = AlertMessage
  import T = AlertTarget
  import R = Retention

  datatype StoreError =
    | InvalidTarget | InvalidMessage | Closed
    | NotFound | UnsafeFile | AlreadyExists
    | LegacyConflict | OversizedConflict | ManagedConflict | SourceChanged
    | Failed      // a file-system step failed before anything was published
    | Unsettled   // a file-system step failed after the alert was published

  function Take(s: string, n: nat): string {
    if |s| <= n then s else s[..n]
  }

  /** An in-memory writer that keeps the first `limit` bytes of everything written to it. */
  class BoundedCapture {
    const limit: nat
    var data: string
    ghost var written: string

    ghost predicate Valid()
      reads this
    {
      data == Take(written, limit)
    }

    constructor (limit: nat)
      ensures Valid() && this.limit == limit && written == ""
    {
      this.limit := limit;
      data, written := "", "";
    }

    method Write(value: string) returns (n: nat)
      requires Valid()
      modifies this
      ensures Valid() && written == old(written) + value && n == |value|
    {
      var remaining := limit - |data|;
      if remaining > 0 {
        if remaining > |value| {
          remaining := |value|;
        }
        data := data + value[..remaining];
      }
      written := written + value;
      n := |value|;
    }
  }

  /** What a verified copy of a source knows: the file it came from and the exact bytes. */
  datatype Snapshot = Snapshot(info: Node, content: string)

  ghost predicate IsOversized(d: Dir, name: string) {
    name in d && d[name].kind == Regular && |d[name].data| > MAX_LEGACY_BYTES
  }

  // ----- retention -----

  /** Every finished backup is a regular file. */
  ghost predicate CleanBackups(d: Dir) {
    forall n :: n in d && IsFinished(n) ==> d[n].kind == Regular
  }

  datatype PruneProblem = Io | UnsafeBackup | LimitUnsatisfiable

  /** The names of finished backups, all of them regular files. */
  method ListBackups(disk: Disk) returns (r: Result<seq<string>, PruneProblem>)
    requires disk.Valid()
    modifies disk
    ensures disk.Looked()
    ensures r.Ok? ==> Distinct(r.value) && Elements(r.value) == Finished(disk.tree.backups)
    ensures r.Err? ==> r.error in {Io, UnsafeBackup}
    ensures disk.faults == old(disk.faults) && CleanBackups(disk.tree.backups) ==> r.Ok?
  {
    hide Leads, Publications, IsFinished;
    var listed := disk.ReadDir(Backups);
    if listed.Err? {
      return Err(Io);
    }
    var entries, names := listed.value, [];
    for i := 0 to |entries|
      invariant disk.Looked()
      invariant Elements(entries) == disk.tree.backups.Keys
      invariant Distinct(names)
      invariant forall n :: n in names <==> n in entries[..i] && IsFinished(n)
    {
      var name := entries[i];
      assert entries[..i + 1] == entries[..i] + [name];
      if !IsFinished(name) {
        continue;
      }
      assert name in Elements(entries);
      var info := disk.Lstat(Backups, name);
      if info.Err? {
        return Err(Io);
      }
      if info.value.kind != Regular {
        return Err(UnsafeBackup);
      }
      assert name !in entries[..i];
      names := names + [name];
    }
    assert entries[..|entries|] == entries;
    assert forall n :: n in entries <==> n in Elements(entries);
    r := Ok(names);
  }

  /** The names removed once the loop has passed `i` names. */
  ghost function Passed(names: seq<string>, kept: string, i: nat): set<string>
    requires i <= |names|
  {
    Elements(names[..i]) - {kept}
  }

  lemma NonePassed(names: seq<string>, kept: string)
    ensures Passed(names, kept, 0) == {}
  {
  }

  lemma PassedNext(listed: seq<string>, names: seq<string>, kept: string, i: nat)
    requires i < |names| && |Elements(listed)| == |listed| && names == Sort(listed)
    ensures names[i] == kept ==> Passed(names, kept, i + 1) == Passed(names, kept, i)
    ensures names[i] != kept ==>
              Passed(names, kept, i + 1) == Passed(names, kept, i) + {names[i]} && names[i] !in Passed(names, kept, i)
  {
    SortKeepsElements(listed);
    FreshAt(names, i);
    assert names[..i + 1] == names[..i] + [names[i]];
  }

  /** A name not yet passed stands at `i` or later. */
  lemma StillAhead(names: seq<string>, kept: string, i: nat, n: string)
    requires i <= |names| && n in names && n != kept && n !in Passed(names, kept, i)
    ensures exists k :: i <= k < |names| && names[k] == n
  {
    assert forall k :: 0 <= k < i ==> names[k] == names[..i][k];
  }

  lemma PassedIsSmaller(names: seq<string>, kept: string, i: nat, x: string, y: string)
    requires i <= |names| && StrictlyAscending(names)
    requires y in Passed(names, kept, i)
    requires x in names && x != kept && x !in Passed(names, kept, i)
    ensures Less(y, x)
  {
    StillAhead(names, kept, i, x);
    var j :| 0 <= j < i && names[..i][j] == y;
  }

  lemma SetMinus<T>(all: set<T>, gone: set<T>)
    requires gone <= all
    ensures |all - gone| == |all| - |gone|
    ensures all - (all - gone) == gone
  {
    assert all == gone + (all - gone);
  }

  lemma FinishedMinus(d: Dir, gone: set<string>)
    ensures Finished(d - gone) == Finished(d) - gone
  {
  }

  lemma LeftOver(names: seq<string>, kept: string, i: nat, all: set<string>)
    requires i <= |names| && StrictlyAscending(names)
    requires all == Elements(names) && kept in all && R.LIMIT <= |all|
    requires |Passed(names, kept, i)| == |all| - R.LIMIT
    ensures R.IsRetained(all, kept, all - Passed(names, kept, i))
  {
    var gone := Passed(names, kept, i);
    SetMinus(all, gone);
    forall x, y | x in all - gone && x != kept && y in all - (all - gone)
      ensures Less(y, x)
    {
      PassedIsSmaller(names, kept, i, x, y);
    }
  }

  /** The next name may go: there are too many, and it is the smallest besides the protected one. */
  lemma RemovalIsAllowed(listed: seq<string>, names: seq<string>, kept: string, i: nat, left: set<string>)
    requires i < |names| && |Elements(listed)| == |listed| && names == Sort(listed)
    requires kept in names && names[i] != kept
    requires left == Elements(names) - Passed(names, kept, i)
    requires |Passed(names, kept, i)| < |names| - MAX_BACKUP_FILES
    ensures names[i] in left && kept in left
    ensures |left| > MAX_BACKUP_FILES
    ensures forall n :: n in left && n != kept && n != names[i] ==> Less(names[i], n)
  {
    PassedNext(listed, names, kept, i);
    SortKeepsElements(listed);
    SetMinus(Elements(names), Passed(names, kept, i));
    forall n | n in left && n != kept && n != names[i]
      ensures Less(names[i], n)
    {
      NextIsSmallest(listed, names, kept, i, n);
    }
  }

  lemma NextIsSmallest(listed: seq<string>, names: seq<string>, kept: string, i: nat, n: string)
    requires i < |names| && |Elements(listed)| == |listed| && names == Sort(listed)
    requires n in names && n != kept && n !in Passed(names, kept, i) && n != names[i]
    ensures Less(names[i], n)
  {
    FewerElements(listed);
    SortOfDistinct(listed);
    StillAhead(names, kept, i, n);
  }

  lemma AllPassed(listed: seq<string>, names: seq<string>, kept: string)
    requires |Elements(listed)| == |listed| && names == Sort(listed) && kept in listed
    ensures |Passed(names, kept, |names|)| == |names| - 1
  {
    SortKeepsElements(listed);
    assert names[..|names|] == names;
    assert kept in Elements(listed);
    assert Elements(names) == Passed(names, kept, |names|) + {kept};
  }

  /** Remove the smallest names until sixteen are left, never the protected one. */
  method PruneBackups(disk: Disk, protected: string) returns (r: Result<(), PruneProblem>)
    requires disk.Valid() && protected in Finished(disk.tree.backups)
    modifies disk
    ensures disk.Tended()
    // backups only disappear, the protected one does not
    ensures disk.tree.backups.Keys <= old(disk.tree.backups.Keys) && protected in disk.tree.backups
    ensures forall n :: n in disk.tree.backups ==> disk.tree.backups[n] == old(disk.tree.backups)[n]
    ensures r.Ok? ==> R.IsRetained(old(Finished(disk.tree.backups)), protected, Finished(disk.tree.backups))
    ensures r != Err(LimitUnsatisfiable)
    ensures disk.faults == old(disk.faults) && CleanBackups(old(disk.tree.backups)) ==> r.Ok?
  {
    var listed := ListBackups(disk);
    if listed.Err? {
      return Err(listed.error);
    }
    var names := listed.value;
    DistinctCount(names);
    if |names| <= MAX_BACKUP_FILES {
      return Ok(());
    }
    ghost var start := disk.tree.backups;
    assert protected in Elements(names);
    var removeCount, passed := RemoveExpired(disk, names, protected);
    if removeCount.Err? {
      return Err(removeCount.error);
    }
    if removeCount.value != 0 {
      return Err(LimitUnsatisfiable);
    }
    SortKeepsElements(names);
    PruneResult(start, disk.tree.backups, names, Sort(names), protected, passed);
    var synced := disk.Settle();
    r := if synced then Ok(()) else Err(Io);
  }

  /** Sort the names and remove from the front; the number of removals still missing at the end. */
  method RemoveExpired(disk: Disk, listed: seq<string>, protected: string)
    returns (r: Result<nat, PruneProblem>, ghost passed: nat)
    requires disk.Valid()
    requires |Elements(listed)| == |listed| && Elements(listed) == Finished(disk.tree.backups)
    requires protected in listed && |listed| > MAX_BACKUP_FILES
    modifies disk
    ensures disk.Tended()
    ensures passed <= |Sort(listed)|
    ensures disk.tree.backups == old(disk.tree.backups) - Passed(Sort(listed), protected, passed)
    ensures r.Ok? ==> r.value == 0 && |Passed(Sort(listed), protected, passed)| == |listed| - MAX_BACKUP_FILES
    ensures r.Err? ==> r.error == Io
    ensures disk.faults == old(disk.faults) ==> r.Ok?
  {
    hide Passed, Finished, Elements, Sort;
    ghost var start := disk.tree.backups;
    var names := Sort(listed);
    assert |names| == |listed| by {
      SortKeepsElements(listed);
    }
    var removeCount := |names| - MAX_BACKUP_FILES;
    passed := 0;
    var i := 0;
    NonePassed(names, protected);
    assert start - {} == start;
    while i < |names| && removeCount != 0
      invariant 0 <= i <= |names| && passed == i && 0 <= removeCount
      invariant disk.Tended()
      invariant disk.tree.backups == start - Passed(names, protected, i)
      invariant removeCount == |names| - MAX_BACKUP_FILES - |Passed(names, protected, i)|
    {
      var left := PassOne(disk, start, listed, names, protected, i, removeCount);
      if left.None? {
        return Err(Io), passed;
      }
      removeCount := left.value;
      i := i + 1;
      passed := i;
    }
    if i == |names| {
      AllPassed(listed, names, protected);
    }
    r := Ok(removeCount);
  }

  lemma PruneResult(start: Dir, now: Dir, listed: seq<string>, names: seq<string>, kept: string, i: nat)
    requires |Elements(listed)| == |listed| && names == Sort(listed) && Elements(listed) == Finished(start)
    requires i <= |names| && kept in listed && |listed| == |names| >= MAX_BACKUP_FILES
    requires now == start - Passed(names, kept, i)
    requires |Passed(names, kept, i)| == |names| - MAX_BACKUP_FILES
    ensures R.IsRetained(Finished(start), kept, Finished(now))
  {
    FewerElements(listed);
    SortOfDistinct(listed);
    FinishedMinus(start, Passed(names, kept, i));
    DistinctCount(names);
    assert kept in Elements(listed);
    LeftOver(names, kept, i, Finished(start));
  }

  /** Remove the name at `i` unless it is the protected one; how many removals are left to do. */
  method PassOne(disk: Disk, ghost start: Dir, ghost listed: seq<string>, names: seq<string>, protected: string, i: nat,
                 removeCount: nat)
    returns (left: Option<nat>)
    requires disk.Valid()
    requires |Elements(listed)| == |listed| && names == Sort(listed) && Elements(listed) == Finished(start)
    requires i < |names| && protected in listed
    requires disk.tree.backups == start - Passed(names, protected, i)
    requires 0 < removeCount == |names| - MAX_BACKUP_FILES - |Passed(names, protected, i)|
    modifies disk
    ensures disk.Tended()
    ensures left.None? ==> disk.tree.backups == start - Passed(names, protected, i)
    ensures left.Some? ==>
              && disk.tree.backups == start - Passed(names, protected, i + 1)
              && left.value == |names| - MAX_BACKUP_FILES - |Passed(names, protected, i + 1)|
    ensures left.Some? <==> disk.faults == old(disk.faults)
  {
    PassedNext(listed, names, protected, i);
    if names[i] == protected {
      return Some(removeCount);
    }
    SortKeepsElements(listed);
    assert protected in Elements(listed);
    FinishedMinus(start, Passed(names, protected, i));
    RemovalIsAllowed(listed, names, protected, i, Finished(disk.tree.backups));
    var removed := disk.Remove(names[i], protected);
    left := if removed then Some(removeCount - 1) else None;
  }

  // ----- backing up -----

  /** The read that ended just now found the end of the file. */
  lemma WholeNow(log: seq<Event>, file: nat, bytes: string)
    requires file < |log| && log[file].act.Opened? && log[|log| - 1].act == Chunk(file, "") && ReadBy(log, file) == bytes
    ensures ReadWhole(log, file, log[file].act.name, bytes)
  {
    hide ReadBy;
    assert log[..|log|] == log;
    assert EndsReading(log, file, |log|, bytes);
  }

  /** Copy at most `MAX_LEGACY_BYTES + 1` bytes of an open source, in chunks of any sizes, into a
      temporary backup and into memory. */
  method CopySource(disk: Disk, h: Handle, temporary: string, id: nat) returns (r: Result<string, Failure>)
    requires disk.Valid() && IsTemporary(temporary)
    requires disk.IsHandle(h) && ReadBy(disk.log, h.id) == ""
    requires IsFile(disk.tree.backups, temporary, id, "")
    modifies disk
    ensures disk.Drafted()
    ensures r.Ok? ==> IsFile(disk.tree.backups, temporary, id, r.value) && |r.value| <= MAX_LEGACY_BYTES + 1
    // the copy is what was read, whatever the outside writer does
    ensures r.Ok? && |r.value| <= MAX_LEGACY_BYTES ==>
              ReadWhole(disk.log, h.id, old(disk.log)[h.id].act.name, r.value)
    ensures r.Ok? && disk.edits == h.since == old(disk.edits) ==> r.value == Take(h.node.data, MAX_LEGACY_BYTES + 1)
    ensures disk.faults == old(disk.faults) ==> r.Ok?
  {
    hide ReadBy, Leads, Publications, ReadWhole;
    var capture := new BoundedCapture(MAX_LEGACY_BYTES + 1);
    var copied := 0;
    while copied < MAX_LEGACY_BYTES + 1
      invariant disk.Drafted() && fresh(capture) && capture.Valid() && capture.limit == MAX_LEGACY_BYTES + 1
      invariant copied == |capture.written| <= MAX_LEGACY_BYTES + 1
      invariant IsFile(disk.tree.backups, temporary, id, capture.written)
      invariant ReadBy(disk.log, h.id) == capture.written
      invariant disk.edits == h.since == old(disk.edits) ==> IsStart(capture.written, h.node.data)
      decreases MAX_LEGACY_BYTES + 1 - copied
    {
      var n := CopyChunk(disk, h, temporary, id, capture, copied, MAX_LEGACY_BYTES + 1 - copied);
      if n.Err? {
        return Err(Fault);
      }
      if n.value == 0 {
        WholeNow(disk.log, h.id, capture.written);
        break;
      }
      copied := copied + n.value;
    }
    r := Ok(capture.data);
  }

  ghost predicate IsStart(part: string, whole: string) {
    |part| <= |whole| && part == whole[..|part|]
  }

  /** One read and its writes to both copies; 0 at the end of the source. */
  method CopyChunk(disk: Disk, h: Handle, temporary: string, id: nat, capture: BoundedCapture,
                   offset: nat, max: nat)
    returns (r: Result<nat, Failure>)
    requires disk.Valid() && capture.Valid() && IsTemporary(temporary) && max > 0
    requires offset == |capture.written| && disk.IsHandle(h)
    requires IsFile(disk.tree.backups, temporary, id, capture.written)
    modifies disk, capture
    ensures disk.Drafted() && capture.Valid()
    ensures r.Ok? ==>
              && IsFile(disk.tree.backups, temporary, id, capture.written)
              && |capture.written| == |old(capture.written)| + r.value && r.value <= max
    ensures r.Ok? && ReadBy(old(disk.log), h.id) == old(capture.written) ==> ReadBy(disk.log, h.id) == capture.written
    ensures r == Ok(0) ==> |disk.log| > 0 && disk.log[|disk.log| - 1].act == Chunk(h.id, "")
    ensures r.Ok? && disk.edits == h.since == old(disk.edits) && IsStart(old(capture.written), h.node.data) ==>
              && IsStart(capture.written, h.node.data)
              && (r.value == 0 ==> capture.written == h.node.data)
    ensures disk.faults == old(disk.faults) ==> r.Ok?
  {
    hide ReadBy, Leads, Publications;
    var chunk := disk.ReadChunk(h, offset, max);
    if chunk.Err? {
      return Err(Fault);
    }
    if chunk.value == "" {
      assert capture.written + "" == capture.written;
      return Ok(0);
    }
    if disk.edits == h.since && IsStart(capture.written, h.node.data) {
      SliceNext(h.node.data, offset, offset + |chunk.value|);
    }
    var written := disk.Append(Backups, temporary, id, chunk.value);
    if !written {
      return Err(Fault);
    }
    var n := capture.Write(chunk.value);
    r := Ok(n);
  }

  ghost predicate IsFile(d: Dir, name: string, id: nat, data: string) {
    name in d && d[name] == Node(Regular, id, data, d[name].mtime)
  }

  ghost predicate IsBackupName(name: string, target: string) {
    exists now: R.Instant, token :: now.Valid() && name == R.BackupName(now, target, token)
  }

  lemma BackupNameIsFinished(now: R.Instant, target: string, token: string)
    ensures IsFinished(R.BackupName(now, target, token))
    ensures now.Valid() ==> IsBackupName(R.BackupName(now, target, token), target)
  {
    var name := R.BackupName(now, target, token);
    assert name[|name| - 4..] == ".txt";
  }

  /** The clock and the random token, which may be missing. */
  method ClockAndToken(disk: Disk) returns (now: R.Instant, token: Option<string>)
    requires disk.Valid()
    modifies disk`faults
    ensures now.Valid()
    ensures disk.Valid() && disk.faults == old(disk.faults) + if token.None? then 1 else 0
  {
    assert R.Instant(2000, 1, 1, 0, 0, 0, 0).Valid();
    now :| now.Valid();
    var random: string := *;
    var fault := disk.Fails();
    token := if fault then None else Some(random);
  }

  method NewBackupName(target: string, now: R.Instant, token: Option<string>) returns (name: Option<string>)
    requires now.Valid()
    ensures name.Some? <==> token.Some?
    ensures name.Some? ==>
              && name.value == R.BackupName(now, target, token.value)
              && IsBackupName(name.value, target) && IsFinished(name.value)
  {
    if token.None? {
      return None;
    }
    name := Some(R.BackupName(now, target, token.value));
    BackupNameIsFinished(now, target, token.value);
  }

  /** The file `name` was opened after `from` and not read yet. */
  ghost predicate IsUnread(disk: Disk, from: nat, h: Handle, name: string)
    reads disk
  {
    disk.IsHandle(h) && from <= h.id && disk.log[h.id].act == Opened(name) && ReadBy(disk.log, h.id) == ""
  }

  /** Open a source that is a regular file of at most 64 KiB. */
  method OpenSource(disk: Disk, target: string) returns (r: Result<(Handle, Node), StoreError>)
    requires disk.Valid() && T.IsTarget(target)
    modifies disk
    ensures disk.Looked()
    ensures r.Ok? ==> |r.value.1.data| <= MAX_LEGACY_BYTES && r.value.1.kind == Regular
    ensures r.Ok? && disk.edits == old(disk.edits) ==>
              var name := T.Filename(target);
              name in disk.tree.alerts && r.value.0.node == disk.tree.alerts[name] && r.value.0.since == disk.edits
              && r.value.1 == disk.tree.alerts[name]
    ensures r.Ok? ==> IsUnread(disk, |old(disk.log)|, r.value.0, T.Filename(target))
    ensures r == Err(OversizedConflict) && disk.edits == old(disk.edits) ==>
              IsOversized(disk.tree.alerts, T.Filename(target))
    ensures r == Err(NotFound) && disk.edits == old(disk.edits) ==>
              T.Filename(target) !in disk.tree.alerts
    ensures r == Err(UnsafeFile) && disk.edits == old(disk.edits) ==>
              T.Filename(target) in disk.tree.alerts && disk.tree.alerts[T.Filename(target)].kind == Unsafe
    ensures r.Ok? || r.error in {NotFound, UnsafeFile, OversizedConflict, Failed}
    ensures disk.Calm() ==> r != Err(Failed)
  {
    hide ReadBy, Leads, Publications;
    var name := T.Filename(target);
    var info := disk.Lstat(Alerts, name);
    if info.Err? {
      return Err(if info.error == NotExist then NotFound else Failed);
    }
    if info.value.kind != Regular {
      return Err(UnsafeFile);
    }
    var source := disk.Open(name);
    if source.Err? {
      return Err(if source.error == NotExist then NotFound else Failed);
    }
    var status := disk.Stat(source.value);
    if status.Err? {
      return Err(Failed);
    }
    if status.value.kind != Regular || status.value.id != info.value.id {
      return Err(UnsafeFile);
    }
    if |status.value.data| > MAX_LEGACY_BYTES {
      return Err(OversizedConflict);
    }
    r := Ok((source.value, status.value));
  }

  ghost predicate AgreesWith(snapshot: Snapshot, info: Node) {
    && snapshot.info.id == info.id && snapshot.info.mtime == info.mtime
    && |snapshot.info.data| == |snapshot.content| == |info.data|
  }

  /** Copy the source into a temporary backup and check that it did not change meanwhile. */
  method CopyVerified(disk: Disk, h: Handle, info: Node, temporary: string, id: nat, rejectManaged: bool)
    returns (r: Result<Snapshot, StoreError>)
    requires disk.Valid() && IsTemporary(temporary)
    requires disk.IsHandle(h) && ReadBy(disk.log, h.id) == ""
    requires IsFile(disk.tree.backups, temporary, id, "")
    modifies disk
    ensures disk.Drafted()
    ensures r.Ok? ==> IsFile(disk.tree.backups, temporary, id, r.value.content) && |r.value.content| <= MAX_LEGACY_BYTES
    // whatever the outside writer does: the snapshot is exactly what was read, from its first byte to
    // its last, and the file had the same identity, size and time before and after
    ensures r.Ok? ==> ReadWhole(disk.log, h.id, old(disk.log)[h.id].act.name, r.value.content)
    ensures r.Ok? ==> AgreesWith(r.value, info)
    ensures r.Ok? && rejectManaged ==> M.ParseManaged(r.value.content, disk.tables).None?
    ensures r.Ok? && disk.edits == old(disk.edits) == h.since && info == h.node ==>
              r.value == Snapshot(h.node, h.node.data)
    ensures r == Err(ManagedConflict) ==> rejectManaged
    ensures r == Err(ManagedConflict) && disk.edits == old(disk.edits) == h.since && info == h.node
            && h.node.kind == Regular && |h.node.data| <= MAX_LEGACY_BYTES ==>
              IsManaged(h.node, disk.tables)
    ensures (r == Err(SourceChanged) || r == Err(OversizedConflict))
            && |info.data| <= MAX_LEGACY_BYTES && info == h.node && old(disk.edits) == h.since ==>
              disk.edits > h.since
    ensures r.Ok? || r.error in {ManagedConflict, SourceChanged, OversizedConflict, Failed}
    ensures disk.faults == old(disk.faults) ==> r != Err(Failed)
  {
    hide ReadBy, Leads, Publications, ReadWhole;
    var content := CopySource(disk, h, temporary, id);
    if content.Err? {
      return Err(Failed);
    }
    ghost var copied := disk.log;
    if |content.value| > MAX_LEGACY_BYTES {
      return Err(OversizedConflict);
    }
    var after := disk.Stat(h);
    if after.Err? {
      return Err(Failed);
    }
    if info.id != after.value.id || |info.data| != |content.value|
       || |after.value.data| != |content.value| || info.mtime != after.value.mtime {
      return Err(SourceChanged);
    }
    if rejectManaged {
      var managed := M.ParseManagedHtml(content.value, disk.tables);
      if managed.Some? {
        return Err(ManagedConflict);
      }
    }
    var settled := disk.SettleAll(3);  // permissions, sync, close
    if !settled {
      return Err(Failed);
    }
    ReadStays(copied, disk.log, h.id, old(disk.log)[h.id].act.name, content.value);
    r := Ok(Snapshot(after.value, content.value));
  }

  /** `backupAlert`: a published, identical, retained copy of the alert, and what was read. */
  method BackupAlert(disk: Disk, target: string, rejectManaged: bool, now: R.Instant, token: Option<string>)
    returns (r: Result<(Snapshot, string), StoreError>, ghost file: nat)
    requires disk.Valid() && T.IsTarget(target) && now.Valid()
    modifies disk
    ensures disk.Tended()
    // the backup holds exactly the bytes read from the alert, for every way they were read and
    // whatever the outside writer does
    ensures r.Ok? ==>
              && |old(disk.log)| <= file && ReadWhole(disk.log, file, T.Filename(target), r.value.0.content)
              && Holds(disk.tree.backups, Copy(r.value.1, r.value.0.content))
              && IsBackupName(r.value.1, target) && token.Some? && r.value.1 == R.BackupName(now, target, token.value)
    ensures r.Ok? && rejectManaged ==> M.ParseManaged(r.value.0.content, disk.tables).None?
    // without an outside writer these are the bytes of the alert
    ensures r.Ok? && disk.edits == old(disk.edits) ==>
              && HasBytes(disk.tree.alerts, T.Filename(target), r.value.0.content)
              && r.value.0.info == disk.tree.alerts[T.Filename(target)]
    ensures r == Err(ManagedConflict) && disk.edits == old(disk.edits) ==>
              T.Filename(target) in disk.tree.alerts && IsManaged(disk.tree.alerts[T.Filename(target)], disk.tables)
    ensures r == Err(OversizedConflict) && disk.edits == old(disk.edits) ==>
              IsOversized(disk.tree.alerts, T.Filename(target))
    ensures r == Err(SourceChanged) ==> disk.edits > old(disk.edits)
    ensures r == Err(ManagedConflict) ==> rejectManaged
    ensures r.Ok? || r.error in {NotFound, UnsafeFile, OversizedConflict, ManagedConflict, SourceChanged, Failed}
    ensures r == Err(UnsafeFile) && disk.edits == old(disk.edits) ==>
              T.Filename(target) in disk.tree.alerts && disk.tree.alerts[T.Filename(target)].kind == Unsafe
    ensures r == Err(NotFound) && disk.edits == old(disk.edits) ==> T.Filename(target) !in disk.tree.alerts
    // without a failing call either, the alert alone decides
    ensures disk.Calm() && token.Some? && CleanBackups(old(disk.tree.backups)) ==> r != Err(Failed)
    // retention
    ensures r.Ok? ==> R.IsRetained(old(Finished(disk.tree.backups)) + {r.value.1}, r.value.1, Finished(disk.tree.backups))
    ensures r.Ok? ==> forall n :: n in Finished(disk.tree.backups) && n != r.value.1 ==>
                        Same(old(disk.tree.backups), disk.tree.backups, n)
  {
    hide ReadBy, Leads, Publications, ReadWhole;
    var drafted;
    drafted, file := DraftBackup(disk, target, rejectManaged);
    if drafted.Err? {
      return Err(drafted.error), file;
    }
    ghost var draftedLog := disk.log;
    var (snapshot, temporary) := drafted.value;
    DraftKeepsFinished(old(disk.tree.backups), disk.tree.backups);
    var name := PublishAndPrune(disk, target, temporary, now, token);
    if name.Err? {
      return Err(Failed), file;
    }
    ReadStays(draftedLog, disk.log, file, T.Filename(target), snapshot.content);
    r := Ok((snapshot, name.value));
  }

  lemma DraftKeepsFinished(d: Dir, d': Dir)
    requires SameButTemporary(d, d')
    ensures Finished(d) == Finished(d')
    ensures forall n :: n in Finished(d) ==> Same(d, d', n)
    ensures CleanBackups(d) ==> CleanBackups(d')
  {
    forall n | IsFinished(n)
      ensures Same(d, d', n)
    {
      FinishedNotTemporary(n);
    }
  }

  /** The part of `BackupAlert` before the backup gets its name: a complete and checked temporary
      file, or an error and no temporary file. */
  method DraftBackup(disk: Disk, target: string, rejectManaged: bool)
    returns (r: Result<(Snapshot, string), StoreError>, ghost file: nat)
    requires disk.Valid() && T.IsTarget(target)
    modifies disk
    ensures disk.Drafted()
    ensures r.Ok? ==>
              |old(disk.log)| <= file && ReadWhole(disk.log, file, T.Filename(target), r.value.0.content)
    ensures r.Ok? ==>
              && IsTemporary(r.value.1) && HasBytes(disk.tree.backups, r.value.1, r.value.0.content)
              && |r.value.0.content| <= MAX_LEGACY_BYTES
    ensures r.Ok? && rejectManaged ==> M.ParseManaged(r.value.0.content, disk.tables).None?
    ensures r.Ok? && disk.edits == old(disk.edits) ==>
              && HasBytes(disk.tree.alerts, T.Filename(target), r.value.0.content)
              && r.value.0.info == disk.tree.alerts[T.Filename(target)]
    ensures r == Err(ManagedConflict) && disk.edits == old(disk.edits) ==>
              T.Filename(target) in disk.tree.alerts && IsManaged(disk.tree.alerts[T.Filename(target)], disk.tables)
    ensures r == Err(OversizedConflict) && disk.edits == old(disk.edits) ==>
              IsOversized(disk.tree.alerts, T.Filename(target))
    ensures r == Err(SourceChanged) ==> disk.edits > old(disk.edits)
    ensures r == Err(ManagedConflict) ==> rejectManaged
    ensures r.Ok? || r.error in {NotFound, UnsafeFile, OversizedConflict, ManagedConflict, SourceChanged, Failed}
    ensures r == Err(UnsafeFile) && disk.edits == old(disk.edits) ==>
              T.Filename(target) in disk.tree.alerts && disk.tree.alerts[T.Filename(target)].kind == Unsafe
    ensures r == Err(NotFound) && disk.edits == old(disk.edits) ==> T.Filename(target) !in disk.tree.alerts
    ensures disk.Calm() ==> r != Err(Failed)
  {
    hide ReadBy, Leads, Publications, ReadWhole;
    file := 0;
    var source := OpenSource(disk, target);
    if source.Err? {
      return Err(source.error), file;
    }
    var (h, info) := source.value;
    file := h.id;
    var created, born := disk.CreateTemporary(Backups, ".aamm-ng-backup-");
    if created.Err? {
      return Err(Failed), file;
    }
    var (temporary, id) := created.value;
    var copied := CopyVerified(disk, h, info, temporary, id, rejectManaged);
    if copied.Err? {
      var _ := disk.Discard(Backups, temporary);
      return Err(copied.error), file;
    }
    r := Ok((copied.value, temporary));
  }

  /** Name the temporary backup, settle the directory, and prune. */
  method PublishAndPrune(disk: Disk, target: string, temporary: string, now: R.Instant, token: Option<string>)
    returns (r: Result<string, Failure>)
    requires disk.Valid() && IsTemporary(temporary) && now.Valid()
    requires temporary in disk.tree.backups && disk.tree.backups[temporary].kind == Regular
    modifies disk
    ensures disk.Tended()
    ensures r.Ok? ==> IsBackupName(r.value, target) && IsFinished(r.value)
    ensures r.Ok? ==> token.Some? && r.value == R.BackupName(now, target, token.value)
    ensures r.Ok? ==> r.value in disk.tree.backups && disk.tree.backups[r.value] == old(disk.tree.backups)[temporary]
    ensures r.Ok? ==> R.IsRetained(old(Finished(disk.tree.backups)) + {r.value}, r.value, Finished(disk.tree.backups))
    ensures r.Ok? ==> forall n :: n in Finished(disk.tree.backups) && n != r.value ==>
                        Same(old(disk.tree.backups), disk.tree.backups, n)
    ensures disk.faults == old(disk.faults) && token.Some? && CleanBackups(old(disk.tree.backups)) ==> r.Ok?
  {
    hide Leads, Publications, R.IsRetained, R.BackupName;
    var named := NewBackupName(target, now, token);
    if named.None? {
      var _ := disk.Discard(Backups, temporary);
      return Err(Fault);
    }
    var name := named.value;
    var published := disk.PublishBackup(temporary, name);
    if !published {
      var _ := disk.Discard(Backups, temporary);
      return Err(Fault);
    }
    FinishedNotTemporary(name);
    PublishedNames(old(disk.tree.backups), temporary, name);
    var synced := disk.Settle();
    if !synced {
      return Err(Fault);
    }
    assert Finished(disk.tree.backups) == old(Finished(disk.tree.backups)) + {name};
    var pruned := PruneBackups(disk, name);
    if pruned.Err? {
      return Err(Fault);
    }
    r := Ok(name);
  }

  lemma PublishedNames(d: Dir, temporary: string, name: string)
    requires temporary in d && IsTemporary(temporary) && IsFinished(name)
    ensures Finished((d - {temporary})[name := d[temporary]]) == Finished(d) + {name}
  {
    if IsFinished(temporary) {
      FinishedNotTemporary(temporary);
    }
  }
}
