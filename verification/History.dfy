/** What holds over every run of the store, at every intermediate state, crashes included: a log is
    a run of any operations cut off at any step. */
module History {
  import opened Text
  import opened Disk
  import opened Backup
  import M = AlertMessage

  ghost function At(origin: Tree, log: seq<Event>, i: nat): Tree
    requires i <= |log|
  {
    if i == 0 then origin else log[i - 1].after
  }

  ghost function OutsideEdits(log: seq<Event>): nat {
    if log == [] then 0
    else OutsideEdits(log[..|log| - 1]) + (if log[|log| - 1].act.Outside? then 1 else 0)
  }

  /** A run without an outside writer. */
  ghost predicate Alone(log: seq<Event>) {
    forall i :: 0 <= i < |log| ==> !log[i].act.Outside?
  }

  // ----- single events of a run -----

  /** Every event of a run is allowed, starts where the run was, and is stamped with the number of
      outside edits before it. */
  lemma {:induction false} EventOf(origin: Tree, log: seq<Event>, tree: Tree, edits: nat, t: M.Tables, k: nat)
    requires Leads(origin, log, tree, edits, t) && k < |log|
    ensures Allowed(log[k]) && Follows(log[..k], log[k], t)
    ensures log[k].before == At(origin, log, k) && log[k].after == At(origin, log, k + 1)
    ensures log[k].edits == OutsideEdits(log[..k])
    decreases |log|
  {
    hide Allowed, Follows;
    var n := |log| - 1;
    var e := log[n];
    EditsOf(origin, log[..n], e.before, e.edits, t);
    if k < n {
      EventOf(origin, log[..n], e.before, e.edits, t, k);
      assert log[..n][..k] == log[..k];
    } else {
      EndOf(origin, log[..n], e.before, e.edits, t);
    }
  }

  lemma {:induction false} EditsOf(origin: Tree, log: seq<Event>, tree: Tree, edits: nat, t: M.Tables)
    requires Leads(origin, log, tree, edits, t)
    ensures edits == OutsideEdits(log)
  {
    if log != [] {
      var e := log[|log| - 1];
      EditsOf(origin, log[..|log| - 1], e.before, e.edits, t);
    }
  }

  lemma EndOf(origin: Tree, log: seq<Event>, tree: Tree, edits: nat, t: M.Tables)
    requires Leads(origin, log, tree, edits, t)
    ensures tree == At(origin, log, |log|)
  {
  }

  lemma {:induction false} AloneHasNoEdits(log: seq<Event>)
    requires Alone(log)
    ensures OutsideEdits(log) == 0
  {
    if log != [] {
      AloneHasNoEdits(log[..|log| - 1]);
    }
  }

  lemma {:induction false} EditsBetween(log: seq<Event>, c: nat, k: nat)
    requires c <= k <= |log|
    requires forall i :: c <= i < k ==> !log[i].act.Outside?
    ensures OutsideEdits(log[..k]) == OutsideEdits(log[..c])
  {
    if c < k {
      EditsBetween(log, c, k - 1);
      assert log[..k][..k - 1] == log[..k - 1];
    }
  }

  // ----- with an outside writer -----

  /** The look that a step `k` on `name` follows: from `look` on the store did nothing but look, and it
      inspected the name, opened the file, and read it to its end as `bytes`. */
  ghost predicate LookedLast(log: seq<Event>, look: nat, k: nat, name: string, bytes: string)
    requires k <= |log|
  {
    && look < k && log[look].act == Seen(name)
    && (forall i :: look <= i < k ==> log[i].act.Looks())
    && exists file :: look < file && ReadWhole(log[..k], file, name, bytes)
  }

  /** For every interleaving with outside edits: a conversion or a deletion takes place only while a
      backup is there, which it leaves, and only directly after a look that read the whole alert as the
      very bytes of that backup. So an outside edit before that look makes the operation abort, unless
      it left these bytes; and without an edit since the look began, the alert that was replaced or
      removed held exactly these bytes. */
  lemma LossOnlyAfterLook(origin: Tree, log: seq<Event>, tree: Tree, edits: nat, t: M.Tables, k: nat, look: nat, copy: Copy)
    requires Leads(origin, log, tree, edits, t) && k < |log|
    requires var a := log[k].act;
             (a.Replace? && a.copy == Some(copy) && a.look == look) || (a.Unlink? && a.saved == copy && a.look == look)
    ensures Holds(At(origin, log, k).backups, copy) && Holds(At(origin, log, k + 1).backups, copy)
    ensures LookedLast(log, look, k, log[k].act.name, copy.bytes)
    ensures (forall i :: look <= i < k ==> !log[i].act.Outside?) ==>
              HasBytes(At(origin, log, k).alerts, log[k].act.name, copy.bytes)
  {
    hide ReadWhole, Leads;
    EventOf(origin, log, tree, edits, t, k);
    var front := log[..k];
    assert JustRead(front, look, log[k].act.name, copy.bytes);
    assert forall i :: look <= i < k ==> front[i] == log[i];
    if forall i :: look <= i < k ==> !log[i].act.Outside? {
      EventOf(origin, log, tree, edits, t, look);
      EditsBetween(log, look, k);
    }
  }

  /** The same for replacements without a backup: they directly follow a look that found nothing, or one
      that read the whole alert as a managed one; and without an edit since, that is what they replaced. */
  lemma OverwritesOnlyManaged(origin: Tree, log: seq<Event>, tree: Tree, edits: nat, t: M.Tables, k: nat)
    requires Leads(origin, log, tree, edits, t) && k < |log| && log[k].act.Replace? && log[k].act.copy.None?
    ensures var look := log[k].act.look;
            && look < k && (forall i :: look <= i < k ==> log[i].act.Looks())
            && (log[look].act == Absent(log[k].act.name)
                || exists bytes :: LookedLast(log, look, k, log[k].act.name, bytes)
                                   && |bytes| <= MAX_LEGACY_BYTES && M.ParseManaged(bytes, t).Some?)
            && ((forall i :: look <= i < k ==> !log[i].act.Outside?) ==>
                  Replaceable(At(origin, log, k).alerts, log[k].act.name, None, t))
  {
    hide ReadWhole, Leads, M.ParseManaged;
    EventOf(origin, log, tree, edits, t, k);
    var front, look := log[..k], log[k].act.look;
    assert forall i :: look <= i < k ==> front[i] == log[i];
    if forall i :: look <= i < k ==> !log[i].act.Outside? {
      EventOf(origin, log, tree, edits, t, look);
      EditsBetween(log, look, k);
    }
  }

  /** A message published by a link or a rename is whole: its file was created by the store, and without
      an outside edit since then what is published is exactly the rendering. */
  lemma PublishesWholeMessages(origin: Tree, log: seq<Event>, tree: Tree, edits: nat, t: M.Tables, k: nat)
    requires Leads(origin, log, tree, edits, t) && k < |log| && (log[k].act.Link? || log[k].act.Replace?)
    ensures var (name, message, born) := (log[k].act.name, log[k].act.message, log[k].act.born);
            && born < k && log[born].act == Create(Alerts, log[k].act.temporary)
            && ((forall i :: born <= i < k ==> !log[i].act.Outside?) ==>
                  name in At(origin, log, k + 1).alerts && IsRendering(At(origin, log, k + 1).alerts[name], message, t))
  {
    hide ReadWhole, Leads, LookedAt, IsRendering;
    EventOf(origin, log, tree, edits, t, k);
    var born := log[k].act.born;
    if forall i :: born <= i < k ==> !log[i].act.Outside? {
      EventOf(origin, log, tree, edits, t, born);
      EditsBetween(log, born, k);
    }
  }

  /** Creations never overwrite: over any stretch of a run in which `name` is only created, and not
      edited from outside, an alert that exists stays what it is. */
  lemma {:induction false} CreationsNeverOverwrite(origin: Tree, log: seq<Event>, tree: Tree, edits: nat, t: M.Tables,
                                                   i: nat, j: nat, name: string)
    requires Leads(origin, log, tree, edits, t) && i <= j <= |log| && !IsTemporary(name)
    requires name in At(origin, log, i).alerts
    requires forall k :: i <= k < j ==>
               !log[k].act.Outside? && (log[k].act.Prepares() || log[k].act.name != name || log[k].act.Link?)
    ensures Same(At(origin, log, i).alerts, At(origin, log, j).alerts, name)
  {
    hide Follows, Leads;
    if i < j {
      CreationsNeverOverwrite(origin, log, tree, edits, t, i, j - 1, name);
      EventOf(origin, log, tree, edits, t, j - 1);
    }
  }

  /** Steps that publish nothing under a name leave what the outside writer put there. */
  lemma {:induction false} PreparingKeeps(origin: Tree, log: seq<Event>, tree: Tree, edits: nat, t: M.Tables,
                                          i: nat, j: nat, name: string)
    requires Leads(origin, log, tree, edits, t) && i <= j <= |log| && !IsTemporary(name)
    requires forall k :: i <= k < j ==>
               !log[k].act.Outside? && (log[k].act.Prepares() || log[k].act.name != name)
    ensures Same(At(origin, log, i).alerts, At(origin, log, j).alerts, name)
  {
    hide Leads, Follows;
    if i < j {
      PreparingKeeps(origin, log, tree, edits, t, i, j - 1, name);
      EventOf(origin, log, tree, edits, t, j - 1);
    }
  }

  // ----- without an outside writer -----

  ghost predicate Rendered(d: Dir, name: string, t: M.Tables) {
    name in d && exists m :: IsRendering(d[name], m, t)
  }

  /** How one step may change the alert `name`. */
  ghost predicate SafeFor(name: string, s: Tree, s': Tree, t: M.Tables) {
    || Same(s.alerts, s'.alerts, name)
    || ((name !in s.alerts || IsManaged(s.alerts[name], t)) && Rendered(s'.alerts, name, t))
    || (exists copy ::
          && Holds(s.backups, copy) && Holds(s'.backups, copy)
          && HasBytes(s.alerts, name, copy.bytes)
          && (name !in s'.alerts || Rendered(s'.alerts, name, t)))
  }

  lemma StepIsSafe(origin: Tree, log: seq<Event>, tree: Tree, edits: nat, t: M.Tables, k: nat, name: string)
    requires Leads(origin, log, tree, edits, t) && Alone(log) && k < |log| && !IsTemporary(name)
    ensures SafeFor(name, At(origin, log, k), At(origin, log, k + 1), t)
  {
    hide Leads, LookedAt;
    EventOf(origin, log, tree, edits, t, k);
    var e := log[k];
    match e.act
    case Replace(n, m, _, born, look, copy) =>
      if n == name {
        SameEdits(origin, log, tree, edits, t, born, k);
        SameEdits(origin, log, tree, edits, t, look, k);
        assert IsRendering(e.after.alerts[name], m, t);
        assert copy.Some? ==> Holds(e.after.backups, copy.value);
      }
    case Link(n, m, _, born) =>
      if n == name {
        SameEdits(origin, log, tree, edits, t, born, k);
        assert IsRendering(e.after.alerts[name], m, t);
      }
    case Unlink(n, look, copy) =>
      SameEdits(origin, log, tree, edits, t, look, k);
      assert Holds(e.after.backups, copy);
    case _ =>
  }

  lemma SameEdits(origin: Tree, log: seq<Event>, tree: Tree, edits: nat, t: M.Tables, i: nat, k: nat)
    requires Leads(origin, log, tree, edits, t) && Alone(log) && i < |log| && k < |log|
    ensures log[i].edits == log[k].edits
  {
    hide Leads;
    EventOf(origin, log, tree, edits, t, i);
    EventOf(origin, log, tree, edits, t, k);
    AloneHasNoEdits(log[..i]);
    AloneHasNoEdits(log[..k]);
  }

  /** An entry that is no regular file, or is larger than 64 KiB, never changes. */
  lemma {:induction false} UnreadableNeverChanges(origin: Tree, log: seq<Event>, tree: Tree, edits: nat, t: M.Tables,
                                                  i: nat, j: nat, name: string)
    requires Leads(origin, log, tree, edits, t) && Alone(log) && i <= j <= |log| && !IsTemporary(name)
    requires var d := At(origin, log, i).alerts;
             name in d && (d[name].kind == Unsafe || |d[name].data| > MAX_LEGACY_BYTES)
    ensures Same(At(origin, log, i).alerts, At(origin, log, j).alerts, name)
  {
    if i < j {
      UnreadableNeverChanges(origin, log, tree, edits, t, i, j - 1, name);
      StepIsSafe(origin, log, tree, edits, t, j - 1, name);
    }
  }

  /** At every intermediate state an alert is the whole of what it was at an earlier one, or exactly
      the rendering of a message, or absent. */
  lemma {:induction false} NoPartialAlert(origin: Tree, log: seq<Event>, tree: Tree, edits: nat, t: M.Tables,
                                          i: nat, j: nat, name: string)
    requires Leads(origin, log, tree, edits, t) && Alone(log) && i <= j <= |log| && !IsTemporary(name)
    ensures var d, d' := At(origin, log, i).alerts, At(origin, log, j).alerts;
            Same(d, d', name) || Rendered(d', name, t) || name !in d'
  {
    if i < j {
      NoPartialAlert(origin, log, tree, edits, t, i, j - 1, name);
      StepIsSafe(origin, log, tree, edits, t, j - 1, name);
    }
  }

  lemma LegacyStep(name: string, s: Tree, s': Tree, t: M.Tables) returns (copy: Copy)
    requires SafeFor(name, s, s', t) && !Same(s.alerts, s'.alerts, name)
    requires name in s.alerts && IsLegacy(s.alerts[name], t)
    ensures Holds(s.backups, copy) && Holds(s'.backups, copy) && HasBytes(s.alerts, name, copy.bytes)
  {
    copy :| Holds(s.backups, copy) && Holds(s'.backups, copy) && HasBytes(s.alerts, name, copy.bytes);
  }

  /** Legacy bytes leave the alert directory only in a step before and after which an identical
      backup is there. */
  lemma {:induction false} LegacyBytesAreKept(origin: Tree, log: seq<Event>, tree: Tree, edits: nat, t: M.Tables,
                                              i: nat, j: nat, name: string) returns (k: nat, copy: Copy)
    requires Leads(origin, log, tree, edits, t) && Alone(log) && i <= j <= |log| && !IsTemporary(name)
    requires var d := At(origin, log, i).alerts; name in d && IsLegacy(d[name], t)
    requires !Same(At(origin, log, i).alerts, At(origin, log, j).alerts, name)
    ensures i <= k < j
    ensures Same(At(origin, log, i).alerts, At(origin, log, k).alerts, name)
    ensures copy.bytes == At(origin, log, i).alerts[name].data
    ensures Holds(At(origin, log, k).backups, copy) && Holds(At(origin, log, k + 1).backups, copy)
    decreases j
  {
    hide Leads, Alone, SafeFor, IsLegacy, IsTemporary, Holds;
    if Same(At(origin, log, i).alerts, At(origin, log, j - 1).alerts, name) {
      k := j - 1;
      StepIsSafe(origin, log, tree, edits, t, k, name);
      copy := LegacyStep(name, At(origin, log, k), At(origin, log, j), t);
    } else {
      k, copy := LegacyBytesAreKept(origin, log, tree, edits, t, i, j - 1, name);
    }
  }

  /** Retention never empties the backups: a step that expires one leaves the newest of them, and
      removes the smallest name besides the backup just made. */
  lemma ExpiryKeepsSixteen(origin: Tree, log: seq<Event>, tree: Tree, edits: nat, t: M.Tables, k: nat)
    requires Leads(origin, log, tree, edits, t) && k < |log| && log[k].act.Expire?
    ensures |Finished(At(origin, log, k + 1).backups)| >= MAX_BACKUP_FILES
    ensures log[k].act.kept in At(origin, log, k + 1).backups
    ensures At(origin, log, k + 1).alerts == At(origin, log, k).alerts
  {
    hide Leads, Follows;
    EventOf(origin, log, tree, edits, t, k);
    var b, name := log[k].before.backups, log[k].act.name;
    FinishedMinus(b, {name});
    SetMinus(Finished(b), {name});
  }
}
