/** Backups made one after the other while the clock goes forward. */
module BackupRuns {
  import opened Text
  import opened Order
  import opened Disk
  import opened Backup
  import R = Retention
  import T = AlertTarget

  /** One backup: of which alert, when, and with which random token. */
  datatype Call = Call(target: string, rejectManaged: bool, now: R.Instant, token: string)

  ghost predicate IsForward(calls: seq<Call>) {
    && (forall i :: 0 <= i < |calls| ==> T.IsTarget(calls[i].target) && calls[i].now.Valid())
    && (forall i, j :: 0 <= i < j < |calls| ==> calls[i].now.Before(calls[j].now))
  }

  function Names(calls: seq<Call>): (names: seq<string>)
    ensures |names| == |calls|
  {
    seq(|calls|, i requires 0 <= i < |calls| => R.BackupName(calls[i].now, calls[i].target, calls[i].token))
  }

  lemma NamesAscend(calls: seq<Call>)
    requires IsForward(calls)
    ensures StrictlyAscending(Names(calls))
  {
    hide Less, R.BackupName;
    forall i, j | 0 <= i < j < |calls|
      ensures Less(Names(calls)[i], Names(calls)[j])
    {
      R.BackupNamesSortByTime(calls[i].now, calls[j].now, calls[i].target, calls[j].target, calls[i].token, calls[j].token);
    }
  }

  lemma RunGrows(names: seq<string>, states: seq<set<string>>, name: string, state: set<string>)
    requires R.IsRun(names, states) && R.IsRetained(states[|names|] + {name}, name, state)
    ensures R.IsRun(names + [name], states + [state])
  {
    hide R.IsRetained;
    assert (names + [name])[..|names|] == names;
    assert (states + [state])[..|names| + 1] == states;
  }

  /** The alert of a call can be backed up. */
  ghost predicate IsSuitable(disk: Disk, call: Call)
    reads disk
  {
    var d, name := disk.tree.alerts, T.Filename(call.target);
    && name in d && d[name].kind == Regular && |d[name].data| <= MAX_LEGACY_BYTES
    && (call.rejectManaged ==> !IsManaged(d[name], disk.tables))
  }

  /** Starting without backups, n completed backups with increasing times leave exactly the last
      min(n, 16) of them, for any targets and tokens and whatever the outside writer does. */
  method BackUpInTurn(disk: Disk, calls: seq<Call>) returns (completed: bool)
    requires disk.Valid() && IsForward(calls)
    requires Finished(disk.tree.backups) == {}
    modifies disk
    ensures disk.Tended()
    ensures completed ==> Finished(disk.tree.backups) == Elements(R.Last(Names(calls)))
    // and nothing but an outside edit, a failing call or an unsuitable alert keeps them from completing
    ensures disk.Calm() && (forall i :: 0 <= i < |calls| ==> IsSuitable(disk, calls[i])) ==> completed
  {
    hide Leads, Publications, R.IsRetained, R.IsRun, R.Last, Finished, ReadWhole, IsBackupName, T.IsTarget, R.BackupName,
      HasBytes, IsManaged, T.Filename;
    ghost var states: seq<set<string>> := [{}];
    StartOfRun();
    NoBackupsAreClean(disk.tree.backups);
    for i := 0 to |calls|
      invariant disk.Tended() && CleanBackups(disk.tree.backups)
      invariant R.IsRun(Names(calls[..i]), states) && |states| == i + 1 && states[i] == Finished(disk.tree.backups)
    {
      var call := calls[i];
      ghost var before := disk.tree.backups;
      var r, file := BackupAlert(disk, call.target, call.rejectManaged, call.now, Some(call.token));
      if r.Err? {
        assert disk.Calm() ==> !IsSuitable(disk, call);
        return false;
      }
      OneMoreIsClean(before, disk.tree.backups, r.value.1, r.value.0.content);
      assert Names(calls[..i + 1]) == Names(calls[..i]) + [r.value.1];
      RunGrows(Names(calls[..i]), states, r.value.1, Finished(disk.tree.backups));
      states := states + [Finished(disk.tree.backups)];
    }
    assert calls[..|calls|] == calls;
    NamesAscend(calls);
    R.RunKeepsTheLast(Names(calls), states);
    completed := true;
  }

  lemma NoBackupsAreClean(d: Dir)
    requires Finished(d) == {}
    ensures CleanBackups(d)
  {
    assert forall n :: n in d && IsFinished(n) ==> n in Finished(d);
  }

  lemma OneMoreIsClean(d: Dir, d': Dir, name: string, bytes: string)
    requires CleanBackups(d) && Holds(d', Copy(name, bytes))
    requires forall n :: n in Finished(d') && n != name ==> Same(d, d', n)
    ensures CleanBackups(d')
  {
    forall n | n in d' && IsFinished(n)
      ensures d'[n].kind == Regular
    {
      assert n in Finished(d');
    }
  }

  lemma StartOfRun()
    ensures R.IsRun(Names([]), [{}])
  {
  }
}
