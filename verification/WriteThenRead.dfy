/** Reading an alert back after storing it. */
module WriteThenRead {
  import opened Text
  import opened Disk
  import opened Backup
  import opened AlertStore
  import R = Retention
  import M = AlertMessage
  import T = AlertTarget

  datatype Way = ByCreate | ByWrite | ByConvert

  ghost predicate CanStore(way: Way, d: Dir, name: string, t: M.Tables) {
    match way
    case ByCreate => name !in d
    case ByWrite => name in d ==> IsManaged(d[name], t)
    case ByConvert => name in d && IsLegacy(d[name], t)
  }

  lemma StoreDecides(d: Dir, name: string, t: M.Tables)
    ensures WriteAt(d, name, t).Ok? <==> CanStore(ByWrite, d, name, t)
    ensures ConvertProblem(d, name, t).None? <==> CanStore(ByConvert, d, name, t)
  {
    hide M.ParseManaged;
  }

  /** However a message was stored, with nobody else writing meanwhile it reads as a managed alert with
      exactly this message and size, never as a legacy or an oversized one: a reading that fails does
      so only because a step failed. */
  method StoreThenRead(s: Store, way: Way, target: string, message: string)
    returns (stored: bool, entry: Result<Entry, StoreError>)
    requires s.disk.Valid() && T.IsTarget(target) && M.IsMessage(message, s.disk.tables) && s.alertRootOpen
    modifies s.disk
    ensures s.disk.Valid()
    ensures stored && s.disk.edits == old(s.disk.edits) ==>
              entry == Ok(ManagedEntry(message, |M.Render(message)|)) || entry == Err(Failed)
    // without a failing call either, the directories decide whether it is stored, and then it is read
    ensures s.disk.Calm() && (way.ByConvert? ==> s.backupRootOpen && CleanBackups(old(s.disk.tree.backups))) ==>
              stored == CanStore(way, old(s.disk.tree.alerts), T.Filename(target), s.disk.tables)
              && (stored ==> entry == Ok(ManagedEntry(message, |M.Render(message)|)))
  {
    hide Leads, Publications, Finished, R.IsRetained, T.IsTarget, T.Filename, IsBackupName, Classify, M.IsMessage,
      IsRendering, Replaceable, SameExcept, SameButTemporary, HasBytes, Holds, WriteAt, ConvertProblem, CleanBackups;
    StoreDecides(s.disk.tree.alerts, T.Filename(target), s.disk.tables);
    TargetNotEmpty(target);
    MessageNotEmpty(message, s.disk.tables);
    match way {
      case ByCreate =>
        var r := s.Create(target, message);
        stored := r.Ok?;
      case ByWrite =>
        var r := s.Write(target, message);
        stored := r.Ok?;
      case ByConvert =>
        var r, copy := s.ConvertLegacy(target, message);
        stored := r.Ok?;
    }
    if !stored {
      return false, Err(Failed);
    }
    ghost var tree, edits := s.disk.tree, s.disk.edits;
    assert edits == old(s.disk.edits) ==>
        T.Filename(target) in tree.alerts && IsRendering(tree.alerts[T.Filename(target)], message, s.disk.tables);
    entry := s.Read(target);
    if s.disk.edits == old(s.disk.edits) {
      var node := tree.alerts[T.Filename(target)];
      WrittenIsManaged(node, message, s.disk.tables);
      RenderingIsRegular(node, message, s.disk.tables);
    }
  }

  lemma TargetNotEmpty(target: string)
    requires T.IsTarget(target)
    ensures target != ""
  {
  }

  lemma MessageNotEmpty(message: string, t: M.Tables)
    requires M.IsMessage(message, t)
    ensures message != ""
  {
    M.ParseIdempotent(message, t);
  }

  lemma RenderingIsRegular(n: Node, message: string, t: M.Tables)
    requires IsRendering(n, message, t)
    ensures n.kind == Regular
  {
  }
}
