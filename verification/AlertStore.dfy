/** `Store`: creating, replacing, converting and deleting alerts in multi-step transactions. */
module AlertStore {
  import opened Text
  import opened Disk
  import M = AlertMessage
  import T = AlertTarget
  import opened Backup
  import R = Retention

  datatype Entry =
    | ManagedEntry(message: string, size: nat)
    | LegacyEntry(html: string, size: nat)
    | OversizedEntry(size: nat)

  ghost function Classify(data: string, t: M.Tables): Entry {
    if |data| > MAX_LEGACY_BYTES then OversizedEntry(|data|)
    else
      match M.ParseManaged(data, t)
      case Some(m) => ManagedEntry(m, |data|)
      case None => LegacyEntry(data, |data|)
  }

  // ----- what the directories alone decide -----

  /** The outcome of reading the alert `name`. */
  ghost function EntryAt(d: Dir, name: string, t: M.Tables): Result<Entry, StoreError> {
    if name !in d then Err(NotFound)
    else if d[name].kind == Unsafe then Err(UnsafeFile)
    else Ok(Classify(d[name].data, t))
  }

  /** The outcome of replacing it: only nothing and managed alerts may be replaced. */
  ghost function WriteAt(d: Dir, name: string, t: M.Tables): Result<(), StoreError> {
    if name !in d then Ok(())
    else if d[name].kind == Unsafe then Err(UnsafeFile)
    else if IsOversized(d, name) then Err(OversizedConflict)
    else if IsLegacy(d[name], t) then Err(LegacyConflict)
    else Ok(())
  }

  /** Why it cannot be converted: only legacy alerts can. */
  ghost function ConvertProblem(d: Dir, name: string, t: M.Tables): Option<StoreError> {
    if name !in d then Some(NotFound)
    else if d[name].kind == Unsafe then Some(UnsafeFile)
    else if IsOversized(d, name) then Some(OversizedConflict)
    else if IsManaged(d[name], t) then Some(ManagedConflict)
    else None
  }

  /** Why it cannot be deleted: only files of at most 64 KiB can. */
  ghost function DeleteProblem(d: Dir, name: string): Option<StoreError> {
    if name !in d then Some(NotFound)
    else if d[name].kind == Unsafe then Some(UnsafeFile)
    else if IsOversized(d, name) then Some(OversizedConflict)
    else None
  }

  lemma NotConvertible(d: Dir, name: string, e: StoreError, t: M.Tables)
    requires || (e == NotFound && name !in d)
             || (e == UnsafeFile && name in d && d[name].kind == Unsafe)
             || (e == OversizedConflict && IsOversized(d, name))
             || (e == ManagedConflict && name in d && IsManaged(d[name], t))
    ensures ConvertProblem(d, name, t) == Some(e)
    ensures e != ManagedConflict ==> DeleteProblem(d, name) == Some(e)
  {
    hide M.ParseManaged;
  }

  lemma Convertible(d: Dir, name: string, bytes: string, t: M.Tables)
    requires HasBytes(d, name, bytes) && |bytes| <= MAX_LEGACY_BYTES
    ensures M.ParseManaged(bytes, t).None? ==> ConvertProblem(d, name, t).None?
    ensures DeleteProblem(d, name).None?
  {
    hide M.ParseManaged;
  }

  /** What `Read` finds of a message that the store wrote. */
  lemma WrittenIsManaged(n: Node, m: string, t: M.Tables)
    requires IsRendering(n, m, t)
    ensures Classify(n.data, t) == ManagedEntry(m, |M.Render(m)|)
    ensures IsManaged(n, t) && |n.data| <= 5 * M.MAX_BYTES < MAX_LEGACY_BYTES
  {
    M.ParseManagedInvertsRender(n.data, m, t);
    M.ParseIdempotent(m, t);
    M.RenderLength(m);
  }

  /** The publications after `acts` are exactly one replacement, after a look no older than `from`. */
  ghost predicate ReplacedBy(acts: seq<Act>, acts': seq<Act>, from: nat, name: string, message: string, copy: Option<Copy>) {
    && |acts'| == |acts| + 1 && acts'[..|acts|] == acts
    && var a := acts'[|acts|];
       a.Replace? && a.name == name && a.message == message && a.copy == copy && from <= a.born < a.look
  }

  ghost predicate LinkedBy(acts: seq<Act>, acts': seq<Act>, from: nat, name: string, message: string) {
    && |acts'| == |acts| + 1 && acts'[..|acts|] == acts
    && var a := acts'[|acts|]; a.Link? && a.name == name && a.message == message && from <= a.born
  }

  ghost predicate UnlinkedBy(acts: seq<Act>, acts': seq<Act>, from: nat, name: string, copy: Copy) {
    && |acts'| == |acts| + 1 && acts'[..|acts|] == acts
    && var a := acts'[|acts|]; a.Unlink? && a.name == name && a.saved == copy && from <= a.look
  }

  datatype Check = StillManaged | Unchanged(snapshot: Snapshot)

  lemma ManagedLook(log: seq<Event>, look: nat, file: nat, name: string, bytes: string, t: M.Tables)
    requires LooksFrom(log, look) && look < |log| && log[look].act == Seen(name)
    requires look < file && ReadWhole(log, file, name, bytes)
    ensures JustRead(log, look, name, bytes)
    ensures |bytes| <= MAX_LEGACY_BYTES && M.ParseManaged(bytes, t).Some? ==> JustReadManaged(log, look, name, t)
  {
    hide ReadWhole, M.ParseManaged;
  }

  /** The identity of a snapshot. */
  predicate SameFile(node: Node, snapshot: Snapshot) {
    node.kind == Regular && node.id == snapshot.info.id
  }

  /** A look at `name` that began at `look` found what the snapshot was taken of: the name, and the file
      opened then, with the identity of the snapshot; the whole file with its bytes; and after it was
      read, the file with its identity, size and time. */
  ghost predicate FoundSource(log: seq<Event>, look: nat, file: nat, first: nat, last: nat,
                              name: string, snapshot: Snapshot)
  {
    && look < file < first < last < |log|
    && log[look].act == Seen(name)
    && name in log[look].before.alerts && SameFile(log[look].before.alerts[name], snapshot)
    && log[first].act.Status? && log[first].act.file == file && SameFile(log[first].act.node, snapshot)
    && ReadWhole(log[..last], file, name, snapshot.content)
    && log[last].act.Status? && log[last].act.file == file && AgreesWith(snapshot, log[last].act.node)
  }

  /** The alert is what the snapshot was taken of. */
  ghost predicate IsSource(d: Dir, name: string, snapshot: Snapshot) {
    name in d && d[name].kind == Regular && d[name] == snapshot.info && d[name].data == snapshot.content
  }

  /** A passed check is a look that allows to replace what it found. */
  lemma LookIsThere(log: seq<Event>, look: nat, name: string, copy: Option<Copy>, t: M.Tables, check: Check)
    requires match check
             case StillManaged => copy.None? && LookedAt(log, look, name, None, t)
             case Unchanged(snapshot) =>
               copy.Some? && copy.value.bytes == snapshot.content && JustRead(log, look, name, snapshot.content)
    ensures look < |log| && LookedAt(log, look, name, copy, t)
  {
    hide ReadBy, EndsReading;
  }

  class Store {
    const disk: Disk
    const wide: string -> string
    var alertRootOpen: bool
    var backupRootOpen: bool

    constructor (disk: Disk, wide: string -> string)
      ensures this.disk == disk && this.wide == wide && alertRootOpen && backupRootOpen
    {
      this.disk := disk;
      this.wide := wide;
      alertRootOpen, backupRootOpen := true, true;
    }

    /** A message value is the zero value or came from `Parse`. */
    ghost predicate MessageOk(m: string) {
      m == "" || M.IsMessage(m, disk.tables)
    }

    ghost predicate TargetOk(t: string) {
      t == "" || T.IsTarget(t)
    }

    /** Closing a root may fail; it counts as closed all the same, and closing again does nothing. */
    method Close() returns (ok: bool)
      modifies this
      ensures !alertRootOpen && !backupRootOpen
      ensures !old(alertRootOpen) && !old(backupRootOpen) ==> ok
    {
      ok := true;
      if alertRootOpen {
        ok := *;
        alertRootOpen := false;
      }
      if backupRootOpen {
        var closed: bool := *;
        ok := ok && closed;
        backupRootOpen := false;
      }
    }

    // ----- reading -----

    method Read(target: string) returns (r: Result<Entry, StoreError>)
      requires disk.Valid() && TargetOk(target)
      modifies disk
      ensures disk.Looked()
      ensures r == Err(InvalidTarget) <==> target == ""
      ensures r == Err(Closed) <==> target != "" && !alertRootOpen
      ensures r.Ok? || r.error in {InvalidTarget, Closed, NotFound, UnsafeFile, Failed}
      ensures r.Ok? && disk.edits == old(disk.edits) ==>
                var name := T.Filename(target);
                name in disk.tree.alerts && disk.tree.alerts[name].kind == Regular
                && r.value == Classify(disk.tree.alerts[name].data, disk.tables)
      ensures r == Err(NotFound) && disk.edits == old(disk.edits) ==>
                T.Filename(target) !in disk.tree.alerts
      ensures r == Err(UnsafeFile) && disk.edits == old(disk.edits) ==>
                T.Filename(target) in disk.tree.alerts && disk.tree.alerts[T.Filename(target)].kind == Unsafe
      ensures disk.Calm() && target != "" && alertRootOpen ==>
                r == EntryAt(old(disk.tree.alerts), T.Filename(target), disk.tables)
    {
      if target == "" || T.Filename(target) == "" {
        return Err(InvalidTarget);
      }
      if !alertRootOpen {
        return Err(Closed);
      }
      ghost var look;
      r, look := ReadEntry(target);
    }

    method ReadEntry(target: string) returns (r: Result<Entry, StoreError>, ghost look: nat)
      requires disk.Valid() && T.IsTarget(target)
      modifies disk
      ensures disk.Looked()
      ensures r.Ok? && disk.edits == old(disk.edits) ==>
                var name := T.Filename(target);
                name in disk.tree.alerts && disk.tree.alerts[name].kind == Regular
                && r.value == Classify(disk.tree.alerts[name].data, disk.tables)
      ensures r == Err(NotFound) && disk.edits == old(disk.edits) ==>
                T.Filename(target) !in disk.tree.alerts
      ensures r == Err(UnsafeFile) && disk.edits == old(disk.edits) ==>
                T.Filename(target) in disk.tree.alerts && disk.tree.alerts[T.Filename(target)].kind == Unsafe
      ensures r.Ok? || r.error in {NotFound, UnsafeFile, Failed}
      ensures disk.Calm() ==> r == EntryAt(old(disk.tree.alerts), T.Filename(target), disk.tables)
      // what the answer rests on
      ensures r == Err(NotFound) ==>
                && |old(disk.log)| <= look < |disk.log| && JustMissed(disk.log, look, T.Filename(target))
                && (disk.log[look].edits == disk.edits ==> T.Filename(target) !in disk.tree.alerts)
      ensures r.Ok? && r.value.ManagedEntry? ==>
                && |old(disk.log)| <= look < |disk.log|
                && JustReadManaged(disk.log, look, T.Filename(target), disk.tables)
                && (disk.log[look].edits == disk.edits ==>
                      T.Filename(target) in disk.tree.alerts && IsManaged(disk.tree.alerts[T.Filename(target)], disk.tables))
    {
      hide Leads, Publications, ReadBy, ReadWhole, JustRead, JustReadManaged, T.IsTarget, T.Filename, M.ParseManaged;
      look := 0;
      var name := T.Filename(target);
      var info := disk.Lstat(Alerts, name);
      if info.Err? {
        return Err(if info.error == NotExist then NotFound else Failed), LastStep(disk.log);
      }
      look := LastStep(disk.log);
      if info.value.kind != Regular {
        return Err(UnsafeFile), look;
      }
      var file := disk.Open(name);
      if file.Err? {
        return Err(if file.error == NotExist then NotFound else Failed), LastStep(disk.log);
      }
      var h := file.value;
      var status := disk.Stat(h);
      if status.Err? {
        return Err(Failed), look;
      }
      if status.value.kind != Regular || status.value.id != info.value.id {
        return Err(UnsafeFile), look;
      }
      if |status.value.data| > MAX_LEGACY_BYTES {
        return Ok(OversizedEntry(|status.value.data|)), look;
      }
      r := ReadContent(h, look, name);
    }

    /** Read an open file of at most 64 KiB and classify it. */
    method ReadContent(h: Handle, ghost look: nat, ghost name: string) returns (r: Result<Entry, StoreError>)
      requires disk.Valid() && disk.IsHandle(h) && disk.log[h.id].act == Opened(name) && ReadBy(disk.log, h.id) == ""
      requires look < h.id && disk.log[look].act == Seen(name) && LooksFrom(disk.log, look)
      modifies disk
      ensures disk.Looked()
      ensures r.Ok? && disk.edits == h.since == old(disk.edits) && |h.node.data| <= MAX_LEGACY_BYTES ==>
                r.value == Classify(h.node.data, disk.tables)
      ensures r.Ok? && r.value.ManagedEntry? ==> JustReadManaged(disk.log, look, name, disk.tables)
      ensures r.Ok? || r.error == Failed
      ensures disk.faults == old(disk.faults) ==> r.Ok?
    {
      hide Leads, Publications, ReadBy, ReadWhole, JustRead, JustReadManaged, M.ParseManaged;
      var read := ReadAll(h);
      if read.Err? {
        return Err(Failed);
      }
      var data := read.value;
      if |data| > MAX_LEGACY_BYTES {
        var size := |data|;
        var current := disk.Stat(h);
        if current.Ok? && |current.value.data| > size {
          size := |current.value.data|;
        }
        return Ok(OversizedEntry(size));
      }
      ManagedLook(disk.log, look, h.id, name, data, disk.tables);
      var managed := M.ParseManagedHtml(data, disk.tables);
      r := Ok(match managed
              case Some(m) => ManagedEntry(m, |data|)
              case None => LegacyEntry(data, |data|));
    }

    /** `io.ReadAll(io.LimitReader(file, MaxLegacyBytes+1))`, in chunks of any sizes. */
    method ReadAll(h: Handle) returns (r: Result<string, Failure>)
      requires disk.Valid() && disk.IsHandle(h) && ReadBy(disk.log, h.id) == ""
      modifies disk
      ensures disk.Looked()
      ensures r.Ok? && |r.value| <= MAX_LEGACY_BYTES ==>
                ReadWhole(disk.log, h.id, old(disk.log)[h.id].act.name, r.value)
      ensures r.Ok? && disk.edits == h.since == old(disk.edits) ==> r.value == Take(h.node.data, MAX_LEGACY_BYTES + 1)
      ensures r.Ok? ==> |r.value| <= MAX_LEGACY_BYTES + 1
      ensures disk.faults == old(disk.faults) ==> r.Ok?
    {
      hide Leads, Publications, ReadBy, ReadWhole;
      var data := "";
      while |data| < MAX_LEGACY_BYTES + 1
        invariant disk.Looked() && disk.faults >= old(disk.faults) && |data| <= MAX_LEGACY_BYTES + 1
        invariant ReadBy(disk.log, h.id) == data
        invariant disk.edits == h.since == old(disk.edits) ==> |data| <= |h.node.data| && data == h.node.data[..|data|]
        decreases MAX_LEGACY_BYTES + 1 - |data|
      {
        var chunk := disk.ReadChunk(h, |data|, MAX_LEGACY_BYTES + 1 - |data|);
        if chunk.Err? {
          return Err(Fault);
        }
        if chunk.value == "" {
          assert data + "" == data;
          WholeNow(disk.log, h.id, data);
          return Ok(data);
        }
        data := data + chunk.value;
      }
      r := Ok(data);
    }

    /** Refuse to overwrite anything but a managed alert. */
    method EnsureManagedWritable(target: string) returns (r: Result<(), StoreError>, ghost look: nat)
      requires disk.Valid() && T.IsTarget(target)
      modifies disk
      ensures disk.Looked()
      ensures r.Ok? && disk.edits == old(disk.edits) ==>
                Replaceable(disk.tree.alerts, T.Filename(target), None, disk.tables)
      ensures r == Err(LegacyConflict) && disk.edits == old(disk.edits) ==>
                T.Filename(target) in disk.tree.alerts && IsLegacy(disk.tree.alerts[T.Filename(target)], disk.tables)
      ensures r == Err(OversizedConflict) && disk.edits == old(disk.edits) ==>
                IsOversized(disk.tree.alerts, T.Filename(target))
      ensures r == Err(UnsafeFile) && disk.edits == old(disk.edits) ==>
                T.Filename(target) in disk.tree.alerts && disk.tree.alerts[T.Filename(target)].kind == Unsafe
      ensures r.Ok? || r.error in {LegacyConflict, OversizedConflict, UnsafeFile, Failed}
      ensures disk.Calm() ==> r == WriteAt(old(disk.tree.alerts), T.Filename(target), disk.tables)
      ensures r.Ok? ==>
                && |old(disk.log)| <= look < |disk.log| && LookedAt(disk.log, look, T.Filename(target), None, disk.tables)
                && (disk.log[look].edits == disk.edits ==>
                      Replaceable(disk.tree.alerts, T.Filename(target), None, disk.tables))
    {
      hide Leads, Publications, JustMissed, JustReadManaged;
      var entry;
      entry, look := ReadEntry(target);
      match entry {
        case Err(NotFound) => r := Ok(());
        case Err(e) => r := Err(e);
        case Ok(ManagedEntry(_, _)) => r := Ok(());
        case Ok(LegacyEntry(_, _)) => r := Err(LegacyConflict);
        case Ok(OversizedEntry(_)) => r := Err(OversizedConflict);
      }
    }

    // ----- writing -----

    /** Write the rendered message to a fresh temporary file and settle it. On failure the temporary
        file is discarded. `born` is the step that created the file. */
    method WriteTemporary(message: string) returns (r: Result<string, Failure>, ghost born: nat)
      requires disk.Valid() && M.IsMessage(message, disk.tables)
      modifies disk
      ensures disk.Scratched()
      ensures r.Ok? ==>
                && IsTemporary(r.value) && |old(disk.log)| <= born && IsBorn(disk.log, born, r.value)
                && old(disk.edits) <= disk.log[born].edits <= disk.edits
      ensures r.Ok? && disk.log[born].edits == disk.edits ==>
                r.value in disk.tree.alerts && IsRendering(disk.tree.alerts[r.value], message, disk.tables)
      ensures disk.faults == old(disk.faults) ==> r.Ok?
    {
      hide Leads, Publications, ReadBy, M.IsMessage, M.Render;
      var created;
      created, born := disk.CreateTemporary(Alerts, ".aamm-ng-");
      if created.Err? {
        return Err(created.error), born;
      }
      var (temporary, id) := created.value;
      var ok := disk.Append(Alerts, temporary, id, M.Render(message));
      if ok {
        ok := disk.SettleAll(4);  // sync, permissions, sync, close
      }
      if !ok {
        var _ := disk.Discard(Alerts, temporary);
        return Err(Fault), born;
      }
      disk.Since(born);
      assert "" + M.Render(message) == M.Render(message);
      r := Ok(temporary);
    }

    method Create(target: string, message: string) returns (r: Result<(), StoreError>)
      requires disk.Valid() && TargetOk(target) && MessageOk(message)
      modifies disk
      ensures disk.Valid() && old(disk.log) <= disk.log && disk.tree.backups == old(disk.tree.backups)
      ensures old(disk.edits) <= disk.edits && BackupsKept(disk.log, |old(disk.log)|)
      // arguments
      ensures r == Err(InvalidTarget) <==> target == ""
      ensures r == Err(InvalidMessage) <==> target != "" && message == ""
      ensures target != "" && message != "" && !alertRootOpen ==> r == Err(Closed)
      // published exactly when it says so
      ensures r.Ok? || r == Err(Unsettled) ==>
                LinkedBy(old(Publications(disk.log)), Publications(disk.log), |old(disk.log)|, T.Filename(target), message)
      ensures r.Err? && r != Err(Unsettled) ==> Publications(disk.log) == old(Publications(disk.log))
      // without an outside writer
      ensures (r.Ok? || r == Err(Unsettled)) && disk.edits == old(disk.edits) ==>
                && T.Filename(target) !in old(disk.tree.alerts)
                && T.Filename(target) in disk.tree.alerts
                && IsRendering(disk.tree.alerts[T.Filename(target)], message, disk.tables)
                && SameExcept(old(disk.tree.alerts), disk.tree.alerts, T.Filename(target))
      ensures r.Err? && r != Err(Unsettled) && disk.edits == old(disk.edits) ==>
                SameButTemporary(old(disk.tree.alerts), disk.tree.alerts)
      ensures r == Err(AlreadyExists) && disk.edits == old(disk.edits) ==>
                T.Filename(target) in old(disk.tree.alerts)
      ensures r.Ok? || r.error in {InvalidTarget, InvalidMessage, Closed, AlreadyExists, Failed, Unsettled}
      // without a failing call either, the directory alone decides
      ensures old(disk.faults) <= disk.faults
      ensures disk.Calm() && target != "" && message != "" && alertRootOpen ==>
                r == if T.Filename(target) in old(disk.tree.alerts) then Err(AlreadyExists) else Ok(())
    {
      if target == "" || T.Filename(target) == "" {
        return Err(InvalidTarget);
      }
      if message == "" {
        return Err(InvalidMessage);
      }
      if !alertRootOpen {
        return Err(Closed);
      }
      hide Leads, Publications, IsRendering, IsTemporary, T.IsTarget;
      var name := T.Filename(target);
      FinishedNotTemporary(name);
      var temporary, born := WriteTemporary(message);
      if temporary.Err? {
        return Err(Failed);
      }
      r := PublishNew(temporary.value, name, message, born);
    }

    /** Link the temporary file to its free final name and drop the temporary name. */
    method PublishNew(temporary: string, name: string, ghost message: string, ghost born: nat)
      returns (r: Result<(), StoreError>)
      requires disk.Valid() && IsTemporary(temporary) && !IsTemporary(name) && IsBorn(disk.log, born, temporary)
      requires disk.log[born].edits == disk.edits ==>
                 temporary in disk.tree.alerts && IsRendering(disk.tree.alerts[temporary], message, disk.tables)
      modifies disk
      ensures disk.Valid() && old(disk.log) <= disk.log && disk.tree.backups == old(disk.tree.backups)
      ensures old(disk.edits) <= disk.edits && BackupsKept(disk.log, |old(disk.log)|)
      ensures r.Ok? || r == Err(Unsettled) ==>
                LinkedBy(old(Publications(disk.log)), Publications(disk.log), born, name, message)
      ensures r.Err? && r != Err(Unsettled) ==> Publications(disk.log) == old(Publications(disk.log))
      ensures (r.Ok? || r == Err(Unsettled)) && disk.edits == old(disk.edits) ==>
                && name !in old(disk.tree.alerts) && name in disk.tree.alerts
                && temporary in old(disk.tree.alerts)
                && disk.tree.alerts[name] == old(disk.tree.alerts)[temporary]
                && SameExcept(old(disk.tree.alerts), disk.tree.alerts, name)
      ensures r.Err? && r != Err(Unsettled) && disk.edits == old(disk.edits) ==>
                SameButTemporary(old(disk.tree.alerts), disk.tree.alerts)
      ensures r == Err(AlreadyExists) && disk.edits == old(disk.edits) ==> name in old(disk.tree.alerts)
      ensures r.Ok? || r.error in {AlreadyExists, Failed, Unsettled}
      ensures old(disk.faults) <= disk.faults
      ensures disk.Calm() && temporary in old(disk.tree.alerts) ==>
                r == if name in old(disk.tree.alerts) then Err(AlreadyExists) else Ok(())
    {
      hide Leads, Publications, IsRendering, IsTemporary;
      var linked := disk.LinkNew(temporary, name, message, born);
      if linked.Err? {
        var _ := disk.Discard(Alerts, temporary);
        return Err(if linked.error == Exist then AlreadyExists else Failed);
      }
      var removed := disk.Discard(Alerts, temporary);
      if !removed {
        var _ := disk.Discard(Alerts, temporary);
        return Err(Unsettled);
      }
      var synced := disk.Settle();
      r := if synced then Ok(()) else Err(Unsettled);
    }

    method Write(target: string, message: string) returns (r: Result<(), StoreError>)
      requires disk.Valid() && TargetOk(target) && MessageOk(message)
      modifies disk
      ensures disk.Valid() && old(disk.log) <= disk.log && disk.tree.backups == old(disk.tree.backups)
      ensures old(disk.edits) <= disk.edits && BackupsKept(disk.log, |old(disk.log)|)
      ensures r == Err(InvalidTarget) <==> target == ""
      ensures r == Err(InvalidMessage) <==> target != "" && message == ""
      ensures target != "" && message != "" && !alertRootOpen ==> r == Err(Closed)
      ensures r.Ok? || r == Err(Unsettled) ==>
                ReplacedBy(old(Publications(disk.log)), Publications(disk.log), |old(disk.log)|, T.Filename(target), message, None)
      ensures r.Err? && r != Err(Unsettled) ==> Publications(disk.log) == old(Publications(disk.log))
      ensures (r.Ok? || r == Err(Unsettled)) && disk.edits == old(disk.edits) ==>
                && Replaceable(old(disk.tree.alerts), T.Filename(target), None, disk.tables)
                && T.Filename(target) in disk.tree.alerts
                && IsRendering(disk.tree.alerts[T.Filename(target)], message, disk.tables)
                && SameExcept(old(disk.tree.alerts), disk.tree.alerts, T.Filename(target))
      ensures r.Err? && r != Err(Unsettled) && disk.edits == old(disk.edits) ==>
                SameButTemporary(old(disk.tree.alerts), disk.tree.alerts)
      ensures r == Err(LegacyConflict) && disk.edits == old(disk.edits) ==>
                T.Filename(target) in old(disk.tree.alerts)
                && IsLegacy(old(disk.tree.alerts)[T.Filename(target)], disk.tables)
      ensures r == Err(OversizedConflict) && disk.edits == old(disk.edits) ==>
                IsOversized(old(disk.tree.alerts), T.Filename(target))
      ensures old(disk.faults) <= disk.faults
      ensures disk.Calm() && target != "" && message != "" && alertRootOpen ==>
                r == WriteAt(old(disk.tree.alerts), T.Filename(target), disk.tables)
    {
      if target == "" || T.Filename(target) == "" {
        return Err(InvalidTarget);
      }
      if message == "" {
        return Err(InvalidMessage);
      }
      if !alertRootOpen {
        return Err(Closed);
      }
      FinishedNotTemporary(T.Filename(target));
      hide Leads, Publications, LookedAt;
      var writable, look := EnsureManagedWritable(target);
      if writable.Err? {
        return Err(writable.error);
      }
      r := WriteManagedChecked(target, message, StillManaged, None);
    }

    /** The recheck before a replacement. */
    method Recheck(target: string, check: Check) returns (r: Result<(), StoreError>, ghost look: nat)
      requires disk.Valid() && T.IsTarget(target)
      requires check.Unchanged? ==> |check.snapshot.content| <= MAX_LEGACY_BYTES
      modifies disk
      ensures disk.Looked()
      ensures check.Unchanged? && r.Err? ==> r.error == SourceChanged
      ensures check.StillManaged? && r.Err? ==> r.error in {LegacyConflict, OversizedConflict, UnsafeFile, Failed}
      ensures disk.Calm() ==>
                match check
                case StillManaged => r == WriteAt(old(disk.tree.alerts), T.Filename(target), disk.tables)
                case Unchanged(snapshot) => IsSource(old(disk.tree.alerts), T.Filename(target), snapshot) ==> r.Ok?
      ensures check.StillManaged? && r == Err(LegacyConflict) && disk.edits == old(disk.edits) ==>
                T.Filename(target) in disk.tree.alerts && IsLegacy(disk.tree.alerts[T.Filename(target)], disk.tables)
      ensures check.StillManaged? && r == Err(OversizedConflict) && disk.edits == old(disk.edits) ==>
                IsOversized(disk.tree.alerts, T.Filename(target))
      ensures r.Ok? ==>
                && |old(disk.log)| <= look < |disk.log|
                && match check
                   case StillManaged => LookedAt(disk.log, look, T.Filename(target), None, disk.tables)
                   case Unchanged(snapshot) => JustRead(disk.log, look, T.Filename(target), snapshot.content)
      ensures r.Ok? && disk.log[look].edits == disk.edits ==>
                match check
                case StillManaged => Replaceable(disk.tree.alerts, T.Filename(target), None, disk.tables)
                case Unchanged(snapshot) => HasBytes(disk.tree.alerts, T.Filename(target), snapshot.content)
    {
      hide Leads, Publications, LookedAt, JustRead;
      match check {
        case StillManaged => r, look := EnsureManagedWritable(target);
        case Unchanged(snapshot) =>
          var ok;
          ok, look := VerifySourceUnchanged(target, snapshot);
          r := if ok then Ok(()) else Err(SourceChanged);
      }
    }

    /** Render into a temporary file, recheck the target, and rename over it. `copy` names the backup
        of what the check expects to find. */
    method WriteManagedChecked(target: string, message: string, check: Check, ghost copy: Option<Copy>)
      returns (r: Result<(), StoreError>)
      requires disk.Valid() && T.IsTarget(target) && M.IsMessage(message, disk.tables)
      requires check.StillManaged? ==> copy.None?
      requires check.Unchanged? ==> |check.snapshot.content| <= MAX_LEGACY_BYTES
      requires check.Unchanged? ==>
                 && copy.Some? && copy.value.bytes == check.snapshot.content
                 && Holds(disk.tree.backups, copy.value) && M.ParseManaged(copy.value.bytes, disk.tables).None?
      modifies disk
      ensures disk.Valid() && old(disk.log) <= disk.log && disk.tree.backups == old(disk.tree.backups)
      ensures old(disk.edits) <= disk.edits && BackupsKept(disk.log, |old(disk.log)|)
      ensures r.Ok? || r == Err(Unsettled) ==>
                ReplacedBy(old(Publications(disk.log)), Publications(disk.log), |old(disk.log)|, T.Filename(target), message, copy)
      ensures r.Err? && r != Err(Unsettled) ==> Publications(disk.log) == old(Publications(disk.log))
      ensures (r.Ok? || r == Err(Unsettled)) && disk.edits == old(disk.edits) ==>
                && Replaceable(old(disk.tree.alerts), T.Filename(target), copy, disk.tables)
                && T.Filename(target) in disk.tree.alerts
                && IsRendering(disk.tree.alerts[T.Filename(target)], message, disk.tables)
                && SameExcept(old(disk.tree.alerts), disk.tree.alerts, T.Filename(target))
      ensures r.Err? && r != Err(Unsettled) && disk.edits == old(disk.edits) ==>
                SameButTemporary(old(disk.tree.alerts), disk.tree.alerts)
      ensures check.StillManaged? && r == Err(LegacyConflict) && disk.edits == old(disk.edits) ==>
                T.Filename(target) in old(disk.tree.alerts)
                && IsLegacy(old(disk.tree.alerts)[T.Filename(target)], disk.tables)
      ensures check.StillManaged? && r == Err(OversizedConflict) && disk.edits == old(disk.edits) ==>
                IsOversized(old(disk.tree.alerts), T.Filename(target))
      ensures check.Unchanged? && r.Err? ==> r.error in {SourceChanged, Failed, Unsettled}
      ensures check.StillManaged? && r.Err? ==>
                r.error in {LegacyConflict, OversizedConflict, UnsafeFile, Failed, Unsettled}
      ensures old(disk.faults) <= disk.faults
      ensures disk.Calm() ==>
                match check
                case StillManaged => r == WriteAt(old(disk.tree.alerts), T.Filename(target), disk.tables)
                case Unchanged(snapshot) => IsSource(old(disk.tree.alerts), T.Filename(target), snapshot) ==> r.Ok?
    {
      hide Leads, Publications, LookedAt, IsRendering, M.ParseManaged;
      FinishedNotTemporary(T.Filename(target));
      var temporary, born, look := PrepareChecked(target, message, check, copy);
      if temporary.Err? {
        return Err(temporary.error);
      }
      r := PublishOver(temporary.value, T.Filename(target), message, born, look, copy);
    }

    /** Rename the temporary file over its final name. */
    method PublishOver(temporary: string, name: string, ghost message: string, ghost born: nat,
                       ghost look: nat, ghost copy: Option<Copy>)
      returns (r: Result<(), StoreError>)
      requires disk.Valid() && IsTemporary(temporary) && !IsTemporary(name)
      requires IsBorn(disk.log, born, temporary) && born < look < |disk.log|
      requires disk.log[born].edits == disk.edits ==>
                 temporary in disk.tree.alerts && IsRendering(disk.tree.alerts[temporary], message, disk.tables)
      requires copy.Some? ==>
                 Holds(disk.tree.backups, copy.value) && M.ParseManaged(copy.value.bytes, disk.tables).None?
      requires LookedAt(disk.log, look, name, copy, disk.tables)
      requires disk.log[look].edits == disk.edits ==> Replaceable(disk.tree.alerts, name, copy, disk.tables)
      modifies disk
      ensures disk.Valid() && old(disk.log) <= disk.log && disk.tree.backups == old(disk.tree.backups)
      ensures old(disk.edits) <= disk.edits && BackupsKept(disk.log, |old(disk.log)|)
      ensures r.Ok? || r == Err(Unsettled) ==>
                ReplacedBy(old(Publications(disk.log)), Publications(disk.log), born, name, message, copy)
      ensures r.Err? && r != Err(Unsettled) ==> Publications(disk.log) == old(Publications(disk.log))
      ensures (r.Ok? || r == Err(Unsettled)) && disk.edits == old(disk.edits) ==>
                && name in disk.tree.alerts && temporary in old(disk.tree.alerts)
                && disk.tree.alerts[name] == old(disk.tree.alerts)[temporary]
                && SameExcept(old(disk.tree.alerts), disk.tree.alerts, name)
      ensures r.Err? && r != Err(Unsettled) && disk.edits == old(disk.edits) ==>
                SameButTemporary(old(disk.tree.alerts), disk.tree.alerts)
      ensures r.Ok? || r.error in {Failed, Unsettled}
      ensures old(disk.faults) <= disk.faults
      ensures disk.Calm() && temporary in old(disk.tree.alerts) ==> r == Ok(())
    {
      hide Leads, Publications, LookedAt, IsRendering, IsTemporary, M.ParseManaged;
      var renamed := disk.RenameOver(temporary, name, message, born, look, copy);
      if !renamed {
        var _ := disk.Discard(Alerts, temporary);
        return Err(Failed);
      }
      var synced := disk.Settle();
      r := if synced then Ok(()) else Err(Unsettled);
    }

    /** The part of `WriteManagedChecked` before the rename: a settled temporary file and a passed
        recheck, or an error and no temporary file. */
    method PrepareChecked(target: string, message: string, check: Check, ghost copy: Option<Copy>)
      returns (r: Result<string, StoreError>, ghost born: nat, ghost look: nat)
      requires disk.Valid() && T.IsTarget(target) && M.IsMessage(message, disk.tables)
      requires check.StillManaged? ==> copy.None?
      requires check.Unchanged? ==> copy.Some? && copy.value.bytes == check.snapshot.content
      requires check.Unchanged? ==> |check.snapshot.content| <= MAX_LEGACY_BYTES
      modifies disk
      ensures disk.Scratched()
      ensures r.Ok? ==>
                && IsTemporary(r.value) && |old(disk.log)| <= born < look < |disk.log|
                && IsBorn(disk.log, born, r.value)
                && LookedAt(disk.log, look, T.Filename(target), copy, disk.tables)
                && old(disk.edits) <= disk.log[born].edits <= disk.log[look].edits <= disk.edits
      ensures r.Ok? && disk.log[born].edits == disk.edits ==>
                r.value in disk.tree.alerts && IsRendering(disk.tree.alerts[r.value], message, disk.tables)
      ensures r.Ok? && disk.log[look].edits == disk.edits ==>
                Replaceable(disk.tree.alerts, T.Filename(target), copy, disk.tables)
      ensures check.StillManaged? && r == Err(LegacyConflict) && disk.edits == old(disk.edits) ==>
                T.Filename(target) in old(disk.tree.alerts)
                && IsLegacy(old(disk.tree.alerts)[T.Filename(target)], disk.tables)
      ensures check.StillManaged? && r == Err(OversizedConflict) && disk.edits == old(disk.edits) ==>
                IsOversized(old(disk.tree.alerts), T.Filename(target))
      ensures r.Err? ==> r.error != Unsettled
      ensures check.Unchanged? && r.Err? ==> r.error in {SourceChanged, Failed}
      ensures check.StillManaged? && r.Err? ==> r.error in {LegacyConflict, OversizedConflict, UnsafeFile, Failed}
      ensures disk.Calm() ==>
                match check
                case StillManaged => WriteAt(old(disk.tree.alerts), T.Filename(target), disk.tables) == if r.Ok? then Ok(()) else Err(r.error)
                case Unchanged(snapshot) => IsSource(old(disk.tree.alerts), T.Filename(target), snapshot) ==> r.Ok?
    {
      hide Leads, Publications, ReadBy, LookedAt, JustRead, IsRendering, IsManaged, IsLegacy, M.IsMessage, M.ParseManaged;
      FinishedNotTemporary(T.Filename(target));
      var temporary;
      temporary, born := WriteTemporary(message);
      look := 0;
      if temporary.Err? {
        return Err(Failed), born, look;
      }
      label written:
      var passed;
      passed, look := Recheck(target, check);
      if passed.Err? {
        var _ := disk.Discard(Alerts, temporary.value);
        return Err(passed.error), born, look;
      }
      LookIsThere(disk.log, look, T.Filename(target), copy, disk.tables, check);
      disk.Since@written(look);
      r := Ok(temporary.value);
    }

    /** The recheck before a conversion or a deletion: the same file, size, time and bytes. */
    method VerifySourceUnchanged(target: string, snapshot: Snapshot) returns (ok: bool, ghost look: nat)
      requires disk.Valid() && T.IsTarget(target) && |snapshot.content| <= MAX_LEGACY_BYTES
      modifies disk
      ensures disk.Looked()
      ensures ok ==> |old(disk.log)| <= look < |disk.log| && JustRead(disk.log, look, T.Filename(target), snapshot.content)
      ensures ok ==> exists file: nat, first: nat, last: nat ::
                       FoundSource(disk.log, look, file, first, last, T.Filename(target), snapshot)
      ensures ok && disk.log[look].edits == disk.edits ==>
                HasBytes(disk.tree.alerts, T.Filename(target), snapshot.content)
      ensures disk.Calm() && IsSource(old(disk.tree.alerts), T.Filename(target), snapshot) ==> ok
    {
      hide Leads, Publications, ReadBy, ReadWhole, JustRead, T.Filename, T.IsTarget, AgreesWith, SameFile;
      var h;
      ghost var first;
      h, look, first := OpenSnapshot(T.Filename(target), snapshot);
      if h.None? {
        return false, look;
      }
      ghost var last;
      ok, last := ReadsAs(h.value, snapshot);
      if ok {
        assert FoundSource(disk.log, look, h.value.id, first, last, T.Filename(target), snapshot);
        ManagedLook(disk.log, look, h.value.id, T.Filename(target), snapshot.content, disk.tables);
      }
    }

    /** Open the file of a snapshot: the name, and what is opened then, still have its identity. */
    method OpenSnapshot(name: string, snapshot: Snapshot) returns (h: Option<Handle>, ghost look: nat, ghost first: nat)
      requires disk.Valid()
      modifies disk
      ensures disk.Looked()
      ensures h.Some? ==>
                && |old(disk.log)| <= look < h.value.id < first < |disk.log|
                && disk.log[look].act == Seen(name)
                && name in disk.log[look].before.alerts && SameFile(disk.log[look].before.alerts[name], snapshot)
                && IsUnread(disk, |old(disk.log)|, h.value, name)
                && disk.log[first].act.Status? && disk.log[first].act.file == h.value.id
                && SameFile(disk.log[first].act.node, snapshot)
                && old(disk.edits) <= disk.log[look].edits <= h.value.since <= disk.edits
      ensures h.Some? && disk.log[look].edits == disk.edits ==>
                name in disk.tree.alerts && disk.tree.alerts[name].kind == Regular && h.value.node == disk.tree.alerts[name]
      ensures disk.Calm() && IsSource(old(disk.tree.alerts), name, snapshot) ==> h.Some?
    {
      hide Leads, Publications, ReadBy;
      look, first := 0, 0;
      var info := disk.Lstat(Alerts, name);
      if info.Err? || info.value.kind != Regular || info.value.id != snapshot.info.id {
        return None, look, first;
      }
      look := LastStep(disk.log);
      var source := disk.Open(name);
      if source.Err? {
        return None, look, first;
      }
      var status := disk.Stat(source.value);
      if status.Err? || status.value.kind != Regular || status.value.id != snapshot.info.id {
        var _ := disk.Settle();  // close
        return None, look, first;
      }
      first := LastStep(disk.log);
      h := Some(source.value);
    }

    /** The open file still has the size and time of the snapshot, and reads as its bytes. */
    method ReadsAs(h: Handle, snapshot: Snapshot) returns (ok: bool, ghost last: nat)
      requires disk.Valid() && disk.IsHandle(h) && ReadBy(disk.log, h.id) == ""
      requires |snapshot.content| <= MAX_LEGACY_BYTES
      modifies disk
      ensures disk.Looked()
      ensures ok ==> ReadWhole(disk.log, h.id, old(disk.log)[h.id].act.name, snapshot.content)
      ensures ok ==>
                && |old(disk.log)| <= last < |disk.log|
                && ReadWhole(disk.log[..last], h.id, old(disk.log)[h.id].act.name, snapshot.content)
                && disk.log[last].act.Status? && disk.log[last].act.file == h.id
                && AgreesWith(snapshot, disk.log[last].act.node)
      ensures ok && disk.edits == old(disk.edits) == h.since ==> h.node.data == snapshot.content
      ensures disk.Calm() && h.since == disk.edits && h.node == snapshot.info && h.node.data == snapshot.content ==> ok
    {
      hide Leads, Publications, ReadBy, ReadWhole;
      var current := ReadAll(h);
      ghost var read := disk.log;
      var after := disk.Stat(h);
      last := LastStep(disk.log);
      var closed := disk.Settle();
      if current.Err? || after.Err? || !closed {
        return false, last;
      }
      if after.value.id != snapshot.info.id
         || |current.value| != |snapshot.info.data|
         || |after.value.data| != |snapshot.info.data|
         || after.value.mtime != snapshot.info.mtime {
        return false, last;
      }
      ok := current.value == snapshot.content;
      if ok {
        ReadStays(read, disk.log, h.id, old(disk.log)[h.id].act.name, snapshot.content);
        assert read <= disk.log[..last];
        ReadStays(read, disk.log[..last], h.id, old(disk.log)[h.id].act.name, snapshot.content);
      }
    }

    // ----- converting and deleting -----

    /** Replace a legacy alert by a managed one after a verified backup. */
    method ConvertLegacy(target: string, message: string) returns (r: Result<string, StoreError>, ghost copy: Copy)
      requires disk.Valid() && TargetOk(target) && MessageOk(message)
      modifies disk
      ensures disk.Valid() && old(disk.log) <= disk.log && old(disk.edits) <= disk.edits
      // arguments
      ensures r == Err(InvalidTarget) <==> target == ""
      ensures r == Err(InvalidMessage) <==> target != "" && message == ""
      ensures target != "" && message != "" && !(alertRootOpen && backupRootOpen) ==> r == Err(Closed)
      // whatever the outside writer does: published only over a rechecked, still present backup
      ensures r.Ok? || r == Err(Unsettled) ==>
                && ReplacedBy(old(Publications(disk.log)), Publications(disk.log), |old(disk.log)|, T.Filename(target), message, Some(copy))
                && Holds(disk.tree.backups, copy) && IsBackupName(copy.backup, target)
                && M.ParseManaged(copy.bytes, disk.tables).None?
      ensures r.Ok? ==>
                && r.value == copy.backup
                && R.IsRetained(old(Finished(disk.tree.backups)) + {r.value}, r.value, Finished(disk.tree.backups))
      ensures r.Err? && r != Err(Unsettled) ==> Publications(disk.log) == old(Publications(disk.log))
      // without an outside writer
      ensures (r.Ok? || r == Err(Unsettled)) && disk.edits == old(disk.edits) ==>
                && HasBytes(old(disk.tree.alerts), T.Filename(target), copy.bytes)
                && T.Filename(target) in disk.tree.alerts
                && IsRendering(disk.tree.alerts[T.Filename(target)], message, disk.tables)
                && SameExcept(old(disk.tree.alerts), disk.tree.alerts, T.Filename(target))
      ensures r.Err? && r != Err(Unsettled) && disk.edits == old(disk.edits) ==>
                SameButTemporary(old(disk.tree.alerts), disk.tree.alerts)
      ensures r == Err(ManagedConflict) && disk.edits == old(disk.edits) ==>
                T.Filename(target) in old(disk.tree.alerts)
                && IsManaged(old(disk.tree.alerts)[T.Filename(target)], disk.tables)
      ensures r == Err(OversizedConflict) && disk.edits == old(disk.edits) ==>
                IsOversized(old(disk.tree.alerts), T.Filename(target))
      // without a failing call either, the directories alone decide
      ensures old(disk.faults) <= disk.faults
      ensures disk.Calm() && target != "" && message != "" && alertRootOpen && backupRootOpen
              && CleanBackups(old(disk.tree.backups)) ==>
                (if r.Ok? then None else Some(r.error)) == ConvertProblem(old(disk.tree.alerts), T.Filename(target), disk.tables)
    {
      copy := Copy("", "");
      if target == "" || T.Filename(target) == "" {
        return Err(InvalidTarget), copy;
      }
      if message == "" {
        return Err(InvalidMessage), copy;
      }
      if !alertRootOpen || !backupRootOpen {
        return Err(Closed), copy;
      }
      hide Leads, Publications, ReadWhole, R.IsRetained, Finished, IsBackupName, IsRendering, T.IsTarget, ConvertProblem,
        CleanBackups, IsManaged, IsOversized, WriteAt, T.Filename, M.ParseManaged;
      ghost var d := disk.tree.alerts;
      var now, token := ClockAndToken(disk);
      var backup, file := BackupAlert(disk, target, true, now, token);
      if backup.Err? {
        if disk.Calm() && CleanBackups(old(disk.tree.backups)) {
          NotConvertible(d, T.Filename(target), backup.error, disk.tables);
        }
        return Err(backup.error), copy;
      }
      var (snapshot, name) := backup.value;
      copy := Copy(name, snapshot.content);
      if disk.edits == old(disk.edits) {
        Convertible(d, T.Filename(target), snapshot.content, disk.tables);
      }
      var written := WriteManagedChecked(target, message, Unchanged(snapshot), Some(copy));
      r := if written.Ok? then Ok(name) else Err(written.error);
    }

    /** Remove an alert of at most 64 KiB after a verified backup. */
    method Delete(target: string) returns (r: Result<string, StoreError>, ghost copy: Copy)
      requires disk.Valid() && TargetOk(target)
      modifies disk
      ensures disk.Valid() && old(disk.log) <= disk.log && old(disk.edits) <= disk.edits
      ensures r == Err(InvalidTarget) <==> target == ""
      ensures r.Err? ==> r.error != InvalidMessage
      ensures target != "" && !(alertRootOpen && backupRootOpen) ==> r == Err(Closed)
      ensures r.Ok? || r == Err(Unsettled) ==>
                && UnlinkedBy(old(Publications(disk.log)), Publications(disk.log), |old(disk.log)|, T.Filename(target), copy)
                && Holds(disk.tree.backups, copy) && IsBackupName(copy.backup, target)
      ensures r.Ok? ==>
                && r.value == copy.backup
                && R.IsRetained(old(Finished(disk.tree.backups)) + {r.value}, r.value, Finished(disk.tree.backups))
      ensures r.Err? && r != Err(Unsettled) ==> Publications(disk.log) == old(Publications(disk.log))
      ensures (r.Ok? || r == Err(Unsettled)) && disk.edits == old(disk.edits) ==>
                && HasBytes(old(disk.tree.alerts), T.Filename(target), copy.bytes)
                && T.Filename(target) !in disk.tree.alerts
                && SameExcept(old(disk.tree.alerts), disk.tree.alerts, T.Filename(target))
      ensures r.Err? && r != Err(Unsettled) && disk.edits == old(disk.edits) ==>
                disk.tree.alerts == old(disk.tree.alerts)
      ensures r == Err(OversizedConflict) && disk.edits == old(disk.edits) ==>
                IsOversized(old(disk.tree.alerts), T.Filename(target))
      ensures r != Err(ManagedConflict)
      ensures old(disk.faults) <= disk.faults
      ensures disk.Calm() && target != "" && alertRootOpen && backupRootOpen && CleanBackups(old(disk.tree.backups)) ==>
                (if r.Ok? then None else Some(r.error)) == DeleteProblem(old(disk.tree.alerts), T.Filename(target))
    {
      hide Leads, Publications, Finished, R.IsRetained, T.IsTarget, IsBackupName, ReadWhole, JustRead, DeleteProblem,
        CleanBackups, IsManaged, IsOversized, M.ParseManaged, LookedAt;
      ghost var d := disk.tree.alerts;
      copy := Copy("", "");
      if target == "" || T.Filename(target) == "" {
        return Err(InvalidTarget), copy;
      }
      if !alertRootOpen || !backupRootOpen {
        return Err(Closed), copy;
      }
      hide T.Filename;
      var now, token := ClockAndToken(disk);
      var backup, file := BackupAlert(disk, target, false, now, token);
      if backup.Err? {
        if disk.Calm() && CleanBackups(old(disk.tree.backups)) {
          NotConvertible(d, T.Filename(target), backup.error, disk.tables);
        }
        return Err(backup.error), copy;
      }
      var (snapshot, name) := backup.value;
      copy := Copy(name, snapshot.content);
      if disk.edits == old(disk.edits) {
        Convertible(d, T.Filename(target), snapshot.content, disk.tables);
      }
      var removed := RemoveSource(target, snapshot, copy);
      r := if removed.Ok? then Ok(name) else Err(removed.error);
    }

    /** The part of `Delete` after the backup: recheck, remove, and settle the directory. */
    method RemoveSource(target: string, snapshot: Snapshot, ghost copy: Copy) returns (r: Result<(), StoreError>)
      requires disk.Valid() && T.IsTarget(target) && |snapshot.content| <= MAX_LEGACY_BYTES
      requires copy.bytes == snapshot.content && Holds(disk.tree.backups, copy)
      modifies disk
      ensures disk.Valid() && old(disk.log) <= disk.log && disk.tree.backups == old(disk.tree.backups)
      ensures old(disk.edits) <= disk.edits && old(disk.faults) <= disk.faults
      ensures r.Ok? || r == Err(Unsettled) ==>
                UnlinkedBy(old(Publications(disk.log)), Publications(disk.log), |old(disk.log)|, T.Filename(target), copy)
      ensures r.Err? && r != Err(Unsettled) ==> Publications(disk.log) == old(Publications(disk.log))
      ensures (r.Ok? || r == Err(Unsettled)) && disk.edits == old(disk.edits) ==>
                && HasBytes(old(disk.tree.alerts), T.Filename(target), copy.bytes)
                && T.Filename(target) !in disk.tree.alerts
                && SameExcept(old(disk.tree.alerts), disk.tree.alerts, T.Filename(target))
      ensures r.Err? && r != Err(Unsettled) && disk.edits == old(disk.edits) ==>
                disk.tree.alerts == old(disk.tree.alerts)
      ensures r.Ok? || r.error in {SourceChanged, Failed, Unsettled}
      ensures disk.Calm() && IsSource(old(disk.tree.alerts), T.Filename(target), snapshot) ==> r.Ok?
    {
      hide Leads, Publications, T.IsTarget, T.Filename, ReadWhole, JustRead, LookedAt;
      var same, look := VerifySourceUnchanged(target, snapshot);
      if !same {
        return Err(SourceChanged);
      }
      TargetNotTemporary(target);
      LookIsThere(disk.log, look, T.Filename(target), Some(copy), disk.tables, Unchanged(snapshot));
      disk.Since(look);
      var removed := disk.UnlinkAlert(T.Filename(target), look, copy);
      if !removed {
        return Err(Failed);
      }
      var synced := disk.Settle();
      r := if synced then Ok(()) else Err(Unsettled);
    }

    lemma TargetNotTemporary(target: string)
      requires T.IsTarget(target)
      ensures !IsTemporary(T.Filename(target))
    {
      FinishedNotTemporary(T.Filename(target));
    }
  }
}
