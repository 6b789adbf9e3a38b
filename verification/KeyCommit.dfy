/** Writing a key pair: staging, and the private-key-first commit with backups,
    when any file system operation may fail. */
module KeyCommit {
  import opened Text

  type Name = string

  /** The content of a key file. */
  datatype KeyFile = PrivateKey(seed: string) | PublicKey(bytes: string) | Other

  type Files = map<Name, KeyFile>

  datatype StatResult = Exists | NotExist | StatError

  function Lookup(files: Files, name: Name): Option<KeyFile>
  {
    if name in files then Some(files[name]) else None
  }

  /** The key directory. Operations whose errors the source ignores set
      `cleanupFailed` when they leave something undone. */
  class KeyDir {
    var files: Files
    ghost var cleanupFailed: bool
    /** Some operation failed, ignored or not. */
    ghost var faulted: bool
    /** Every content the directory has had. */
    ghost var trace: seq<Files>
    /** Where in the trace the last successful directory fsync was. */
    ghost var base: nat

    /** The trace ends in what the directory holds now. */
    ghost predicate Traced()
      reads this
    {
      base < |trace| && trace[|trace|-1] == files
    }

    /** The content the last successful directory fsync put on the disk. */
    ghost function Synced(): Files
      reads this
      requires Traced()
    {
      trace[base]
    }

    constructor (files: Files)
      ensures Traced() && this.files == files && !cleanupFailed && !faulted && trace == [files]
    {
      this.files, this.cleanupFailed, this.faulted, this.trace, this.base := files, false, false, [files], 0;
    }

    /** A call that changes no directory entry: mkdir, chmod, a read. */
    method Attempt() returns (ok: bool)
      modifies this`faulted
      ensures faulted == (old(faulted) || !ok)
    {
      ok := *;
      if !ok { faulted := true; }
    }

    method Stat(name: Name) returns (r: StatResult)
      modifies this`faulted
      ensures r == Exists ==> name in files
      ensures r == NotExist ==> name !in files
      ensures faulted == (old(faulted) || r == StatError)
    {
      var ok := Attempt();
      r := if !ok then StatError else if name in files then Exists else NotExist;
    }

    method CreateTemp(avoid: set<Name>) returns (tmp: Option<Name>)
      modifies this`files, this`cleanupFailed, this`faulted, this`trace
      ensures cleanupFailed == old(cleanupFailed) && trace == old(trace) + [files]
      ensures faulted == (old(faulted) || tmp.None?)
      ensures tmp.None? ==> files == old(files)
      ensures tmp.Some? ==> tmp.value !in old(files) && tmp.value !in avoid && files == old(files)[tmp.value := Other]
    {
      var ok := Attempt();
      tmp := None;
      if ok {
        var name := FreshName(files.Keys + avoid);
        files := files[name := Other];
        tmp := Some(name);
      }
      trace := trace + [files];
    }

    method Rename(from: Name, to: Name) returns (ok: bool)
      requires from in files
      modifies this`files, this`cleanupFailed, this`faulted, this`trace
      ensures cleanupFailed == old(cleanupFailed) && trace == old(trace) + [files]
      ensures faulted == (old(faulted) || !ok)
      ensures files == if ok then (old(files) - {from})[to := old(files)[from]] else old(files)
    {
      ok := Attempt();
      if ok { files := (files - {from})[to := files[from]]; }
      trace := trace + [files];
    }

    /** os.Remove with its error ignored; removing what is not there counts as
        done. */
    method TryRemove(name: Name) returns (ghost done: bool)
      modifies this`files, this`cleanupFailed, this`faulted, this`trace
      ensures trace == old(trace) + [files]
      ensures files == if done then old(files) - {name} else old(files)
      ensures cleanupFailed == (old(cleanupFailed) || !done)
      ensures name !in old(files) ==> done
      ensures faulted == (old(faulted) || !done)
    {
      var ok: bool := *;
      done := ok || name !in files;
      if ok || name !in files {
        files := files - {name};
      } else {
        cleanupFailed, faulted := true, true;
      }
      trace := trace + [files];
    }

    /** os.Rename with its error ignored. */
    method TryRename(from: Name, to: Name) returns (ghost done: bool)
      requires from in files
      modifies this`files, this`cleanupFailed, this`faulted, this`trace
      ensures trace == old(trace) + [files]
      ensures files == if done then (old(files) - {from})[to := old(files)[from]] else old(files)
      ensures cleanupFailed == (old(cleanupFailed) || !done) && faulted == (old(faulted) || !done)
    {
      var ok := Rename(from, to);
      done := ok;
      if !ok { cleanupFailed := true; }
    }

    method SyncDir() returns (ok: bool)
      requires Traced()
      modifies this`base, this`faulted
      ensures faulted == (old(faulted) || !ok)
      ensures base == if ok then |trace| - 1 else old(base)
    {
      ok := Attempt();
      if ok { base := |trace| - 1; }
    }

    /** Writing, chmod, fsync and close of a temp file, as one content change. */
    method Fill(name: Name, content: KeyFile) returns (ok: bool)
      requires name in files
      modifies this`files, this`cleanupFailed, this`faulted, this`trace
      ensures cleanupFailed == old(cleanupFailed) && trace == old(trace) + [files]
      ensures faulted == (old(faulted) || !ok)
      ensures files == old(files)[name := if ok then content else Other]
    {
      ok := Attempt();
      files := files[name := if ok then content else Other];
      trace := trace + [files];
    }
  }

  // ----- Backups -----

  /** Moves an existing target aside. None inside Ok means nothing to back up. */
  method BackupExisting(dir: KeyDir, path: Name, targets: set<Name>) returns (failed: bool, bak: Option<Name>)
    requires path in targets
    requires dir.Traced()
    modifies dir`files, dir`cleanupFailed, dir`faulted, dir`trace
    ensures old(dir.faulted) ==> dir.faulted
    ensures failed ==> dir.faulted
    ensures dir.Traced()
    ensures bak.Some? ==>
              && !failed && path in old(dir.files)
              && bak.value !in old(dir.files) && bak.value !in targets
              && dir.files == (old(dir.files) - {path})[bak.value := old(dir.files)[path]]
    ensures bak.None? && !failed ==> path !in dir.files && dir.files == old(dir.files)
    ensures bak.None? ==> dir.files == old(dir.files) || (dir.cleanupFailed && LeftOver(old(dir.files), dir.files, targets))
    ensures old(dir.cleanupFailed) ==> dir.cleanupFailed
    ensures old(dir.trace) <= dir.trace
    ensures forall k :: |old(dir.trace)| <= k < |dir.trace| ==> Kept(dir.trace[k], old(dir.files), path, bak)
  {
    var st := dir.Stat(path);
    if st == NotExist { return false, None; }
    if st == StatError { return true, None; }
    var tmp := dir.CreateTemp(targets);
    if tmp.None? { return true, None; }
    var _ := dir.TryRemove(tmp.value);
    var ok := dir.Rename(path, tmp.value);
    if !ok { return true, None; }
    assert dir.files == (old(dir.files) - {path})[tmp.value := old(dir.files)[path]];
    return false, tmp;
  }

  /** A placeholder that could not be removed again. */
  ghost predicate LeftOver(before: Files, after: Files, targets: set<Name>)
  {
    exists tmp: Name :: tmp !in before && tmp !in targets && after == before[tmp := Other]
  }

  /** Apart from the moved target, nothing that existed is touched; the target
      is under its own name or under the backup name. */
  ghost predicate Kept(s: Files, before: Files, path: Name, bak: Option<Name>)
  {
    && (forall n :: n in before && n != path ==> n in s && s[n] == before[n])
    && (path in before ==>
          || (path in s && s[path] == before[path])
          || (bak.Some? && bak.value in s && s[bak.value] == before[path]))
  }

  /** What restoring a backup leaves under its target. */
  function RestoredTo(now: Option<KeyFile>, backup: KeyFile, cleared: bool, restored: bool): Option<KeyFile>
  {
    if restored then Some(backup) else if cleared then None else now
  }

  function Restored(files: Files, bak: Name, path: Name, cleared: bool, restored: bool): Files
    requires bak in files
  {
    if restored then (files - {bak})[path := files[bak]] else if cleared then files - {path} else files
  }

  method RestoreBackup(dir: KeyDir, bak: Option<Name>, path: Name) returns (ghost cleared: bool, ghost restored: bool)
    requires bak.Some? ==> bak.value in dir.files && bak.value != path
    requires dir.Traced()
    modifies dir`files, dir`cleanupFailed, dir`faulted, dir`trace
    ensures old(dir.faulted) ==> dir.faulted
    ensures dir.Traced()
    ensures bak.None? ==> dir.files == old(dir.files) && dir.cleanupFailed == old(dir.cleanupFailed)
    ensures bak.Some? ==>
              && dir.files == Restored(old(dir.files), bak.value, path, cleared, restored)
              && dir.cleanupFailed == (old(dir.cleanupFailed) || !cleared || !restored)
    ensures old(dir.trace) <= dir.trace
    ensures forall k :: |old(dir.trace)| <= k < |dir.trace| ==>
              && bak.Some?
              && dir.trace[k] in {old(dir.files), old(dir.files) - {path},
                                  (old(dir.files) - {bak.value})[path := old(dir.files)[bak.value]]}
  {
    cleared, restored := false, false;
    if bak.None? { return; }
    cleared := dir.TryRemove(path);
    restored := dir.TryRename(bak.value, path);
    assert ((old(dir.files) - {path}) - {bak.value})[path := old(dir.files)[bak.value]] ==
           (old(dir.files) - {bak.value})[path := old(dir.files)[bak.value]];
  }

  method RemoveBackup(dir: KeyDir, bak: Option<Name>)
    requires dir.Traced()
    modifies dir`files, dir`cleanupFailed, dir`faulted, dir`trace
    ensures old(dir.faulted) ==> dir.faulted
    ensures dir.Traced()
    ensures bak.None? ==> dir.files == old(dir.files) && dir.cleanupFailed == old(dir.cleanupFailed)
    ensures bak.Some? ==> dir.files == old(dir.files) - {bak.value} || (dir.cleanupFailed && dir.files == old(dir.files))
    ensures old(dir.cleanupFailed) ==> dir.cleanupFailed
    ensures old(dir.trace) <= dir.trace
    ensures forall k :: |old(dir.trace)| <= k < |dir.trace| ==>
              bak.Some? && dir.trace[k] in {old(dir.files), old(dir.files) - {bak.value}}
  {
    if bak.None? { return; }
    var _ := dir.TryRemove(bak.value);
  }

  // ----- The commit -----

  /** How the commit ended; each failure names the step that failed. */
  datatype Outcome =
    | Committed
    | BackupPrivateFailed | BackupPublicFailed
    | CommitPrivateFailed | SyncPrivateFailed
    | CommitPublicFailed | SyncPublicFailed

  /** The names one commit works on. */
  datatype Names = Names(privTmp: Name, pubTmp: Name, privPath: Name, pubPath: Name)
  {
    predicate Distinct()
    {
      && privTmp != pubTmp && privTmp != privPath && privTmp != pubPath
      && pubTmp != privPath && pubTmp != pubPath && privPath != pubPath
    }

    function Targets(): set<Name> { {privPath, pubPath} }
  }

  ghost predicate Staged(files: Files, n: Names)
  {
    n.Distinct() && n.privTmp in files && n.pubTmp in files
  }

  /** The whole directory after each outcome, when every cleanup and restore
      step worked. */
  function Expected(r: Outcome, before: Files, n: Names): Files
    requires n.privTmp in before && n.pubTmp in before
  {
    match r
    case Committed | SyncPublicFailed =>
      (before - {n.privTmp, n.pubTmp})[n.privPath := before[n.privTmp]][n.pubPath := before[n.pubTmp]]
    case BackupPrivateFailed | BackupPublicFailed | CommitPrivateFailed => before
    case SyncPrivateFailed => before - {n.privTmp}
    case CommitPublicFailed => (before - {n.privTmp})[n.privPath := before[n.privTmp]]
  }

  /** Which of the operations whose errors are ignored worked: removing the
      renamed private key, the removal that restoring the private backup begins
      with, and the renames that restore the two backups. */
  datatype Ignored = Ignored(removed: bool, cleared: bool, privRestored: bool, pubRestored: bool)

  const NOTHING_IGNORED := Ignored(true, true, true, true)

  /** What each outcome leaves under the private key's name, whatever happened to
      the ignored operations. */
  function PrivateLeft(r: Outcome, before: Files, n: Names, g: Ignored): Option<KeyFile>
    requires n.privTmp in before
  {
    match r
    case BackupPrivateFailed => Lookup(before, n.privPath)
    case BackupPublicFailed | CommitPrivateFailed => if g.privRestored then Lookup(before, n.privPath) else None
    case SyncPrivateFailed =>
      if n.privPath in before
      then RestoredTo(if g.removed then None else Some(before[n.privTmp]), before[n.privPath], g.cleared, g.privRestored)
      else if g.removed then None else Some(before[n.privTmp])
    case _ => Some(before[n.privTmp])
  }

  /** The same for the public key's name. */
  function PublicLeft(r: Outcome, before: Files, n: Names, g: Ignored): Option<KeyFile>
    requires n.pubTmp in before
  {
    match r
    case BackupPrivateFailed | BackupPublicFailed => Lookup(before, n.pubPath)
    case CommitPrivateFailed | SyncPrivateFailed | CommitPublicFailed =>
      if g.pubRestored then Lookup(before, n.pubPath) else None
    case _ => Some(before[n.pubTmp])
  }

  ghost predicate TargetsLeft(r: Outcome, before: Files, n: Names, g: Ignored, after: Files)
    requires n.privTmp in before && n.pubTmp in before
  {
    Lookup(after, n.privPath) == PrivateLeft(r, before, n, g) && Lookup(after, n.pubPath) == PublicLeft(r, before, n, g)
  }

  /** `name` holds a complete private key: the old one under the target or a
      backup name, or the new one under the target. */
  ghost predicate HoldsPrivate(s: Files, before: Files, n: Names, name: Name)
    requires n.privPath in before && n.privTmp in before
  {
    && name in s
    && (|| (name == n.privPath && (s[name] == before[n.privPath] || s[name] == before[n.privTmp]))
        || (name !in before && s[name] == before[n.privPath]))
  }

  /** The target itself holds a complete private key. */
  ghost predicate Held(s: Files, before: Files, n: Names)
    requires n.privTmp in before
  {
    n.privPath in before ==> HoldsPrivate(s, before, n, n.privPath)
  }

  /** It does at every moment from `start` on. */
  ghost predicate HeldSince(trace: seq<Files>, start: nat, before: Files, n: Names)
    requires n.privTmp in before
  {
    forall k :: start <= k < |trace| ==> Held(trace[k], before, n)
  }

  /** A name's entry at every moment from `start` on. */
  ghost predicate Keeps(trace: seq<Files>, start: nat, name: Name, entry: Option<KeyFile>)
  {
    forall k :: start <= k < |trace| ==> Lookup(trace[k], name) == entry
  }

  /** If a private key was in place before, one is still on disk. */
  ghost predicate PrivateSurvives(s: Files, before: Files, n: Names)
    requires n.privTmp in before
  {
    n.privPath in before ==> exists name: Name :: HoldsPrivate(s, before, n, name)
  }

  lemma KeptSurvives(s: Files, before: Files, n: Names, bak: Option<Name>)
    requires n.privTmp in before && Kept(s, before, n.privPath, bak) && (bak.Some? ==> bak.value !in before)
    ensures PrivateSurvives(s, before, n)
  {
    if n.privPath in before {
      assert HoldsPrivate(s, before, n, n.privPath) || (bak.Some? && HoldsPrivate(s, before, n, bak.value));
    }
  }

  /** Where the old files are once both backups are made. */
  function Moved(before: Files, path: Name, bak: Option<Name>): Files
  {
    if bak.Some? && path in before then (before - {path})[bak.value := before[path]] else before
  }

  /** The old content of `path` back in its place. */
  function Undone(files: Files, before: Files, path: Name, bak: Option<Name>): Files
  {
    if bak.Some? && path in before then (files - {bak.value})[path := before[path]] else files
  }

  function Dropped(files: Files, bak: Option<Name>): Files
  {
    if bak.Some? then files - {bak.value} else files
  }

  /** The directory with the staged private key renamed into place. */
  function PrivateIn(moved: Files, before: Files, n: Names): Files
    requires n.privTmp in before
  {
    (moved - {n.privTmp})[n.privPath := before[n.privTmp]]
  }

  function PublicIn(files: Files, before: Files, n: Names): Files
    requires n.pubTmp in before
  {
    (files - {n.pubTmp})[n.pubPath := before[n.pubTmp]]
  }

  ghost predicate GoodBackup(before: Files, n: Names, path: Name, bak: Option<Name>)
  {
    (bak.Some? <==> path in before) && (bak.Some? ==> bak.value !in before && bak.value !in n.Targets())
  }

  /** Both targets are moved aside, under different fresh names. */
  ghost predicate BackedUp(files: Files, before: Files, n: Names, privBak: Option<Name>, pubBak: Option<Name>)
  {
    && GoodBackup(before, n, n.privPath, privBak) && GoodBackup(before, n, n.pubPath, pubBak)
    && (privBak.Some? && pubBak.Some? ==> privBak.value != pubBak.value)
    && files == Moved(Moved(before, n.privPath, privBak), n.pubPath, pubBak)
  }

  lemma UndoBackups(before: Files, n: Names, privBak: Option<Name>, pubBak: Option<Name>, moved: Files)
    requires Staged(before, n) && BackedUp(moved, before, n, privBak, pubBak)
    ensures Undone(Undone(moved, before, n.privPath, privBak), before, n.pubPath, pubBak) == before
    ensures Undone(Undone(PrivateIn(moved, before, n) - {n.privPath}, before, n.privPath, privBak), before, n.pubPath, pubBak)
            == before - {n.privTmp}
  {
  }

  lemma KeepNewPrivate(before: Files, n: Names, privBak: Option<Name>, pubBak: Option<Name>, moved: Files)
    requires Staged(before, n) && BackedUp(moved, before, n, privBak, pubBak)
    ensures Dropped(Undone(PrivateIn(moved, before, n), before, n.pubPath, pubBak), privBak)
            == Expected(CommitPublicFailed, before, n)
  {
  }

  lemma DropBackups(before: Files, n: Names, privBak: Option<Name>, pubBak: Option<Name>, moved: Files)
    requires Staged(before, n) && BackedUp(moved, before, n, privBak, pubBak)
    ensures var both := PublicIn(PrivateIn(moved, before, n), before, n);
            && Dropped(Dropped(both, privBak), pubBak) == Expected(Committed, before, n)
            && Dropped(Dropped(both, pubBak), privBak) == Expected(Committed, before, n)
  {
  }

  ghost predicate SurvivesSince(trace: seq<Files>, start: nat, before: Files, n: Names)
    requires n.privTmp in before
  {
    forall k :: start <= k < |trace| ==> PrivateSurvives(trace[k], before, n)
  }

  /** A private key is under the target, or the old one under its backup. */
  ghost predicate Rescued(s: Files, before: Files, n: Names, bak: Option<Name>)
    requires n.privTmp in before
  {
    n.privPath in before ==>
      || (n.privPath in s && (s[n.privPath] == before[n.privPath] || s[n.privPath] == before[n.privTmp]))
      || (bak.Some? && bak.value in s && s[bak.value] == before[n.privPath])
  }

  lemma RescuedSurvives(s: Files, before: Files, n: Names, bak: Option<Name>)
    requires n.privTmp in before && GoodBackup(before, n, n.privPath, bak) && Rescued(s, before, n, bak)
    ensures PrivateSurvives(s, before, n)
  {
    if n.privPath in before {
      assert HoldsPrivate(s, before, n, n.privPath) || (bak.Some? && HoldsPrivate(s, before, n, bak.value));
    }
  }

  /** The backups hold the old files, and no private key is lost. */
  ghost predicate BackupsHeld(s: Files, before: Files, n: Names, privBak: Option<Name>, pubBak: Option<Name>)
    requires n.privTmp in before
  {
    && GoodBackup(before, n, n.privPath, privBak) && GoodBackup(before, n, n.pubPath, pubBak)
    && (privBak.Some? && pubBak.Some? ==> privBak.value != pubBak.value)
    && (privBak.Some? ==> privBak.value in s && s[privBak.value] == before[n.privPath])
    && (pubBak.Some? ==> pubBak.value in s && s[pubBak.value] == before[n.pubPath])
    && PrivateSurvives(s, before, n)
  }

  lemma BackupsInPlace(before: Files, n: Names, privBak: Option<Name>, pubBak: Option<Name>, moved: Files)
    requires Staged(before, n) && BackedUp(moved, before, n, privBak, pubBak)
    ensures BackupsHeld(moved, before, n, privBak, pubBak)
    ensures BackupsHeld(PrivateIn(moved, before, n), before, n, privBak, pubBak)
    ensures BackupsHeld(PrivateIn(moved, before, n) - {n.privPath}, before, n, privBak, pubBak)
  {
    RescuedSurvives(moved, before, n, privBak);
    RescuedSurvives(PrivateIn(moved, before, n), before, n, privBak);
    RescuedSurvives(PrivateIn(moved, before, n) - {n.privPath}, before, n, privBak);
  }

  /** Step 1: both backups, or the old directory again. */
  method BackupTargets(dir: KeyDir, n: Names)
    returns (r: Option<Outcome>, privBak: Option<Name>, pubBak: Option<Name>, ghost g: Ignored)
    requires Staged(dir.files, n) && !dir.cleanupFailed
    requires dir.Traced()
    modifies dir`files, dir`cleanupFailed, dir`faulted, dir`trace
    ensures old(dir.faulted) ==> dir.faulted
    ensures r.Some? ==> dir.faulted
    ensures dir.Traced()
    ensures old(dir.trace) <= dir.trace && SurvivesSince(dir.trace, |old(dir.trace)|, old(dir.files), n)
    ensures r.None? ==> BackedUp(dir.files, old(dir.files), n, privBak, pubBak)
    ensures r.Some? ==> r.value in {BackupPrivateFailed, BackupPublicFailed}
    ensures r.Some? && !dir.cleanupFailed ==> dir.files == old(dir.files)
    ensures r.Some? ==> TargetsLeft(r.value, old(dir.files), n, g, dir.files)
    ensures n.privPath in old(dir.files) ==>
              (HeldSince(dir.trace, |old(dir.trace)|, old(dir.files), n) <==> r == Some(BackupPrivateFailed))
  {
    ghost var before := dir.files;
    g := NOTHING_IGNORED;
    var failed;
    failed, privBak := BackupExisting(dir, n.privPath, n.Targets());
    forall k | |old(dir.trace)| <= k < |dir.trace| ensures PrivateSurvives(dir.trace[k], before, n) {
      KeptSurvives(dir.trace[k], before, n, privBak);
    }
    if failed { return Some(BackupPrivateFailed), None, None, g; }
    ghost var start := |dir.trace|;
    assert n.privPath in before ==> !Held(dir.trace[start-1], before, n);
    failed, pubBak := BackupExisting(dir, n.pubPath, n.Targets());
    forall k | start <= k < |dir.trace| ensures PrivateSurvives(dir.trace[k], before, n) {
      RescuedSurvives(dir.trace[k], before, n, privBak);
    }
    if failed {
      ghost var cleared, restored := RestorePrivate(dir, privBak, before, n);
      return Some(BackupPublicFailed), None, None, g.(privRestored := privBak.None? || restored);
    }
    return None, privBak, pubBak, g;
  }

  /** Restoring the private backup loses nothing on the way. */
  method RestorePrivate(dir: KeyDir, privBak: Option<Name>, ghost before: Files, n: Names)
    returns (ghost cleared: bool, ghost restored: bool)
    requires n.privTmp in before && GoodBackup(before, n, n.privPath, privBak)
    requires privBak.Some? ==> privBak.value in dir.files && dir.files[privBak.value] == before[n.privPath]
    requires dir.Traced()
    modifies dir`files, dir`cleanupFailed, dir`faulted, dir`trace
    ensures old(dir.faulted) ==> dir.faulted
    ensures dir.Traced()
    ensures old(dir.trace) <= dir.trace && SurvivesSince(dir.trace, |old(dir.trace)|, before, n)
    ensures Rescued(dir.files, before, n, privBak)
    ensures old(dir.cleanupFailed) ==> dir.cleanupFailed
    ensures !dir.cleanupFailed ==>
              dir.files == Undone(old(dir.files), before, n.privPath, privBak)
    ensures || (privBak.Some? && dir.files == (old(dir.files) - {privBak.value})[n.privPath := before[n.privPath]])
            || dir.files in {old(dir.files), old(dir.files) - {n.privPath}}
    ensures Lookup(dir.files, n.privPath) ==
            if privBak.Some? then RestoredTo(Lookup(old(dir.files), n.privPath), before[n.privPath], cleared, restored)
            else Lookup(old(dir.files), n.privPath)
  {
    ghost var start := dir.files;
    cleared, restored := RestoreBackup(dir, privBak, n.privPath);
    forall s: Files | privBak.Some? && s in {start, start - {n.privPath}, (start - {privBak.value})[n.privPath := start[privBak.value]]}
      ensures PrivateSurvives(s, before, n)
    {
      RescuedSurvives(s, before, n, privBak);
    }
  }

  /** Restoring the public backup does not touch the private key. */
  method RestorePublic(dir: KeyDir, privBak: Option<Name>, pubBak: Option<Name>, ghost before: Files, n: Names)
    returns (ghost cleared: bool, ghost restored: bool)
    requires n.Distinct() && n.privTmp in before && Rescued(dir.files, before, n, privBak)
    requires GoodBackup(before, n, n.privPath, privBak) && GoodBackup(before, n, n.pubPath, pubBak)
    requires privBak.Some? && pubBak.Some? ==> privBak.value != pubBak.value
    requires pubBak.Some? ==> pubBak.value in dir.files && dir.files[pubBak.value] == before[n.pubPath]
    requires dir.Traced()
    modifies dir`files, dir`cleanupFailed, dir`faulted, dir`trace
    ensures old(dir.faulted) ==> dir.faulted
    ensures dir.Traced()
    ensures old(dir.trace) <= dir.trace && SurvivesSince(dir.trace, |old(dir.trace)|, before, n)
    ensures Lookup(dir.files, n.privPath) == Lookup(old(dir.files), n.privPath)
    ensures Keeps(dir.trace, |old(dir.trace)|, n.privPath, Lookup(old(dir.files), n.privPath))
    ensures privBak.Some? ==> Lookup(dir.files, privBak.value) == Lookup(old(dir.files), privBak.value)
    ensures old(dir.cleanupFailed) ==> dir.cleanupFailed
    ensures !dir.cleanupFailed ==>
              dir.files == Undone(old(dir.files), before, n.pubPath, pubBak)
    ensures Lookup(dir.files, n.pubPath) ==
            if pubBak.Some? then RestoredTo(Lookup(old(dir.files), n.pubPath), before[n.pubPath], cleared, restored)
            else Lookup(old(dir.files), n.pubPath)
  {
    ghost var start := dir.files;
    cleared, restored := RestoreBackup(dir, pubBak, n.pubPath);
    forall s: Files | pubBak.Some? && s in {start, start - {n.pubPath}, (start - {pubBak.value})[n.pubPath := start[pubBak.value]]}
      ensures PrivateSurvives(s, before, n)
    {
      RescuedSurvives(s, before, n, privBak);
    }
  }

  /** Both old files back in place, private key first. */
  method RestoreBoth(dir: KeyDir, privBak: Option<Name>, pubBak: Option<Name>, ghost before: Files, n: Names)
    returns (ghost g: Ignored)
    requires n.Distinct() && n.privTmp in before && BackupsHeld(dir.files, before, n, privBak, pubBak)
    requires n.pubPath !in dir.files
    requires dir.Traced()
    modifies dir`files, dir`cleanupFailed, dir`faulted, dir`trace
    ensures old(dir.faulted) ==> dir.faulted
    ensures dir.Traced()
    ensures old(dir.trace) <= dir.trace && SurvivesSince(dir.trace, |old(dir.trace)|, before, n)
    ensures old(dir.cleanupFailed) ==> dir.cleanupFailed
    ensures !dir.cleanupFailed ==>
              dir.files == Undone(Undone(old(dir.files), before, n.privPath, privBak), before, n.pubPath, pubBak)
    ensures Lookup(dir.files, n.privPath) ==
            if privBak.Some? then RestoredTo(Lookup(old(dir.files), n.privPath), before[n.privPath], g.cleared, g.privRestored)
            else Lookup(old(dir.files), n.privPath)
    ensures Lookup(dir.files, n.pubPath) == if g.pubRestored then Lookup(before, n.pubPath) else None
  {
    g := NOTHING_IGNORED;
    ghost var cleared, restored := RestorePrivate(dir, privBak, before, n);
    g := g.(cleared := cleared, privRestored := restored);
    cleared, restored := RestorePublic(dir, privBak, pubBak, before, n);
    g := g.(pubRestored := restored);
  }

  /** Step 2: the private key, or the old pair again. */
  method CommitPrivate(dir: KeyDir, n: Names, privBak: Option<Name>, pubBak: Option<Name>, ghost before: Files)
    returns (r: Option<Outcome>, ghost g: Ignored)
    requires Staged(before, n) && BackedUp(dir.files, before, n, privBak, pubBak)
    requires dir.Traced()
    modifies dir
    ensures old(dir.faulted) ==> dir.faulted
    ensures r.Some? ==> dir.faulted
    ensures dir.Traced()
    ensures old(dir.trace) <= dir.trace && SurvivesSince(dir.trace, |old(dir.trace)|, before, n)
    ensures old(dir.cleanupFailed) ==> dir.cleanupFailed
    ensures r.None? ==> dir.base == |dir.trace| - 1
    ensures r.Some? ==> dir.base == old(dir.base)
    ensures r.None? ==> dir.files == PrivateIn(old(dir.files), before, n)
    ensures r.Some? ==> r.value in {CommitPrivateFailed, SyncPrivateFailed}
    ensures r.Some? && !dir.cleanupFailed ==> dir.files == Expected(r.value, before, n)
    ensures r.Some? ==> TargetsLeft(r.value, before, n, g, dir.files)
  {
    BackupsInPlace(before, n, privBak, pubBak, dir.files);
    ghost var moved := dir.files;
    var ok := dir.Rename(n.privTmp, n.privPath);
    if !ok {
      g := PutBack(dir, n, privBak, pubBak, before);
      return Some(CommitPrivateFailed), g;
    }
    ok := dir.SyncDir();
    if !ok {
      g := WithdrawPrivate(dir, n, privBak, pubBak, before, moved);
      return Some(SyncPrivateFailed), g;
    }
    return None, NOTHING_IGNORED;
  }

  /** Puts the old pair back after the private rename failed. */
  method PutBack(dir: KeyDir, n: Names, privBak: Option<Name>, pubBak: Option<Name>, ghost before: Files)
    returns (ghost g: Ignored)
    requires Staged(before, n) && BackedUp(dir.files, before, n, privBak, pubBak)
    requires dir.Traced()
    modifies dir`files, dir`cleanupFailed, dir`faulted, dir`trace
    ensures old(dir.faulted) ==> dir.faulted
    ensures dir.Traced()
    ensures old(dir.trace) <= dir.trace && SurvivesSince(dir.trace, |old(dir.trace)|, before, n)
    ensures old(dir.cleanupFailed) ==> dir.cleanupFailed
    ensures !dir.cleanupFailed ==> dir.files == before
    ensures TargetsLeft(CommitPrivateFailed, before, n, g, dir.files)
  {
    UndoBackups(before, n, privBak, pubBak, dir.files);
    BackupsInPlace(before, n, privBak, pubBak, dir.files);
    g := RestoreBoth(dir, privBak, pubBak, before, n);
  }

  /** Takes the renamed private key away and puts the old pair back. */
  method WithdrawPrivate(dir: KeyDir, n: Names, privBak: Option<Name>, pubBak: Option<Name>, ghost before: Files, ghost moved: Files)
    returns (ghost g: Ignored)
    requires Staged(before, n) && BackedUp(moved, before, n, privBak, pubBak) && dir.files == PrivateIn(moved, before, n)
    requires dir.Traced()
    modifies dir`files, dir`cleanupFailed, dir`faulted, dir`trace
    ensures old(dir.faulted) ==> dir.faulted
    ensures dir.Traced()
    ensures old(dir.trace) <= dir.trace && SurvivesSince(dir.trace, |old(dir.trace)|, before, n)
    ensures old(dir.cleanupFailed) ==> dir.cleanupFailed
    ensures !dir.cleanupFailed ==> dir.files == before - {n.privTmp}
    ensures TargetsLeft(SyncPrivateFailed, before, n, g, dir.files)
  {
    UndoBackups(before, n, privBak, pubBak, moved);
    BackupsInPlace(before, n, privBak, pubBak, moved);
    ghost var removed := dir.TryRemove(n.privPath);
    g := RestoreBoth(dir, privBak, pubBak, before, n);
    g := g.(removed := removed);
  }

  /** Removing a backup leaves the committed private key alone. */
  method DropBackup(dir: KeyDir, bak: Option<Name>, ghost before: Files, n: Names)
    requires n.privTmp in before && Lookup(dir.files, n.privPath) == Some(before[n.privTmp])
    requires bak.Some? ==> bak.value !in n.Targets()
    requires dir.Traced()
    modifies dir`files, dir`cleanupFailed, dir`faulted, dir`trace
    ensures old(dir.faulted) ==> dir.faulted
    ensures dir.Traced()
    ensures old(dir.trace) <= dir.trace && SurvivesSince(dir.trace, |old(dir.trace)|, before, n)
    ensures Lookup(dir.files, n.privPath) == Lookup(old(dir.files), n.privPath)
    ensures Keeps(dir.trace, |old(dir.trace)|, n.privPath, Lookup(old(dir.files), n.privPath))
    ensures Lookup(dir.files, n.pubPath) == Lookup(old(dir.files), n.pubPath)
    ensures old(dir.cleanupFailed) ==> dir.cleanupFailed
    ensures !dir.cleanupFailed ==> dir.files == Dropped(old(dir.files), bak)
  {
    ghost var start := dir.files;
    RemoveBackup(dir, bak);
    forall s: Files | bak.Some? && (s == start || s == start - {bak.value}) ensures PrivateSurvives(s, before, n) {
      if n.privPath in before { assert HoldsPrivate(s, before, n, n.privPath); }
    }
  }

  method DropBoth(dir: KeyDir, first: Option<Name>, second: Option<Name>, ghost before: Files, n: Names)
    requires n.privTmp in before && Lookup(dir.files, n.privPath) == Some(before[n.privTmp])
    requires first.Some? ==> first.value !in n.Targets()
    requires second.Some? ==> second.value !in n.Targets()
    requires dir.Traced()
    modifies dir`files, dir`cleanupFailed, dir`faulted, dir`trace
    ensures old(dir.faulted) ==> dir.faulted
    ensures dir.Traced()
    ensures old(dir.trace) <= dir.trace && SurvivesSince(dir.trace, |old(dir.trace)|, before, n)
    ensures Lookup(dir.files, n.privPath) == Lookup(old(dir.files), n.privPath)
    ensures Keeps(dir.trace, |old(dir.trace)|, n.privPath, Lookup(old(dir.files), n.privPath))
    ensures Lookup(dir.files, n.pubPath) == Lookup(old(dir.files), n.pubPath)
    ensures old(dir.cleanupFailed) ==> dir.cleanupFailed
    ensures !dir.cleanupFailed ==> dir.files == Dropped(Dropped(old(dir.files), first), second)
  {
    DropBackup(dir, first, before, n);
    DropBackup(dir, second, before, n);
  }

  /** Step 3: the public key. The new private key is kept in every case. */
  method CommitPublic(dir: KeyDir, n: Names, privBak: Option<Name>, pubBak: Option<Name>, ghost before: Files, ghost moved: Files)
    returns (r: Outcome, ghost g: Ignored)
    requires Staged(before, n) && BackedUp(moved, before, n, privBak, pubBak)
    requires dir.files == PrivateIn(moved, before, n)
    requires dir.Traced()
    modifies dir
    ensures old(dir.faulted) ==> dir.faulted
    ensures r != Committed ==> dir.faulted
    ensures dir.Traced()
    ensures old(dir.trace) <= dir.trace && SurvivesSince(dir.trace, |old(dir.trace)|, before, n)
    ensures Keeps(dir.trace, |old(dir.trace)|, n.privPath, Some(before[n.privTmp]))
    ensures old(dir.base) <= dir.base
    ensures r == Committed ==> Lookup(dir.Synced(), n.pubPath) == Some(before[n.pubTmp])
    ensures r in {Committed, CommitPublicFailed, SyncPublicFailed}
    ensures TargetsLeft(r, before, n, g, dir.files)
    ensures !dir.cleanupFailed ==> dir.files == Expected(r, before, n)
  {
    BackupsInPlace(before, n, privBak, pubBak, moved);
    var ok := dir.Rename(n.pubTmp, n.pubPath);
    if !ok {
      g := KeepPrivateOnly(dir, n, privBak, pubBak, before, moved);
      return CommitPublicFailed, g;
    }
    DropBackups(before, n, privBak, pubBak, moved);
    if n.privPath in before { assert HoldsPrivate(dir.files, before, n, n.privPath); }
    g := NOTHING_IGNORED;
    r := FinishPublic(dir, n, privBak, pubBak, before);
  }

  /** The last directory fsync; the new pair stays either way. */
  method FinishPublic(dir: KeyDir, n: Names, privBak: Option<Name>, pubBak: Option<Name>, ghost before: Files)
    returns (r: Outcome)
    requires n.privTmp in before && Lookup(dir.files, n.privPath) == Some(before[n.privTmp])
    requires privBak.Some? ==> privBak.value !in n.Targets()
    requires pubBak.Some? ==> pubBak.value !in n.Targets()
    requires dir.Traced()
    modifies dir
    ensures old(dir.faulted) ==> dir.faulted
    ensures r != Committed ==> dir.faulted
    ensures dir.Traced()
    ensures old(dir.trace) <= dir.trace && SurvivesSince(dir.trace, |old(dir.trace)|, before, n)
    ensures Keeps(dir.trace, |old(dir.trace)|, n.privPath, Some(before[n.privTmp]))
    ensures r in {Committed, SyncPublicFailed}
    ensures old(dir.base) <= dir.base && (r == Committed ==> dir.Synced() == old(dir.files))
    ensures Lookup(dir.files, n.privPath) == Lookup(old(dir.files), n.privPath)
    ensures Lookup(dir.files, n.pubPath) == Lookup(old(dir.files), n.pubPath)
    ensures old(dir.cleanupFailed) ==> dir.cleanupFailed
    ensures !dir.cleanupFailed ==>
              dir.files == if r == Committed then Dropped(Dropped(old(dir.files), privBak), pubBak)
                           else Dropped(Dropped(old(dir.files), pubBak), privBak)
  {
    var ok := dir.SyncDir();
    if !ok {
      DropBoth(dir, pubBak, privBak, before, n);
      return SyncPublicFailed;
    }
    DropBoth(dir, privBak, pubBak, before, n);
    return Committed;
  }

  /** Puts only the old public key back; the new private key stays. */
  method KeepPrivateOnly(dir: KeyDir, n: Names, privBak: Option<Name>, pubBak: Option<Name>, ghost before: Files, ghost moved: Files)
    returns (ghost g: Ignored)
    requires Staged(before, n) && BackedUp(moved, before, n, privBak, pubBak) && dir.files == PrivateIn(moved, before, n)
    requires dir.Traced()
    modifies dir`files, dir`cleanupFailed, dir`faulted, dir`trace
    ensures old(dir.faulted) ==> dir.faulted
    ensures dir.Traced()
    ensures old(dir.trace) <= dir.trace && SurvivesSince(dir.trace, |old(dir.trace)|, before, n)
    ensures TargetsLeft(CommitPublicFailed, before, n, g, dir.files)
    ensures Keeps(dir.trace, |old(dir.trace)|, n.privPath, Some(before[n.privTmp]))
    ensures !dir.cleanupFailed ==> dir.files == Expected(CommitPublicFailed, before, n)
  {
    KeepNewPrivate(before, n, privBak, pubBak, moved);
    BackupsInPlace(before, n, privBak, pubBak, moved);
    ghost var cleared, restored := RestorePublic(dir, privBak, pubBak, before, n);
    g := NOTHING_IGNORED.(pubRestored := restored);
    DropBackup(dir, privBak, before, n);
  }

  /** Once the first directory fsync succeeded the new private key never leaves
      its name again; until then, moving the old one aside leaves a gap. */
  ghost predicate CommitTrace(trace: seq<Files>, base: nat, trace': seq<Files>, base': nat, before: Files, n: Names, r: Outcome)
    requires n.privTmp in before
  {
    && trace <= trace' && base <= base' < |trace'|
    && match r
       case BackupPrivateFailed => base' == base && HeldSince(trace', |trace|, before, n)
       case CommitPublicFailed | SyncPublicFailed | Committed => Keeps(trace', base', n.privPath, Some(before[n.privTmp]))
       case _ => base' == base && (n.privPath in before ==> !HeldSince(trace', base', before, n))
  }

  /** The private-key-first commit of a staged pair. */
  method CommitStagedKeyFiles(dir: KeyDir, n: Names) returns (r: Outcome, ghost g: Ignored)
    requires Staged(dir.files, n) && !dir.cleanupFailed
    requires dir.Traced()
    modifies dir
    ensures old(dir.faulted) ==> dir.faulted
    ensures r != Committed ==> dir.faulted
    ensures dir.Traced()
    // Whatever fails, and wherever it stops: a private key is never lost.
    ensures old(dir.trace) <= dir.trace
    ensures SurvivesSince(dir.trace, |old(dir.trace)|, old(dir.files), n)
    ensures PrivateSurvives(dir.files, old(dir.files), n)
    // When every cleanup and restore step works, the outcome fixes the whole directory.
    ensures !dir.cleanupFailed ==> dir.files == Expected(r, old(dir.files), n)
    // Whatever fails, the outcome and the fates of the ignored operations fix both targets.
    ensures TargetsLeft(r, old(dir.files), n, g, dir.files)
    // Success means that both were synced.
    ensures r == Committed ==>
              && Lookup(dir.Synced(), n.privPath) == Some(old(dir.files)[n.privTmp])
              && Lookup(dir.Synced(), n.pubPath) == Some(old(dir.files)[n.pubTmp])
    // Where the private key was since the last successful directory fsync.
    ensures CommitTrace(old(dir.trace), old(dir.base), dir.trace, dir.base, old(dir.files), n, r)
  {
    ghost var before := dir.files;
    if n.privPath in before { assert HoldsPrivate(before, before, n, n.privPath); }
    var failure, privBak, pubBak;
    failure, privBak, pubBak, g := BackupTargets(dir, n);
    if failure.Some? { return failure.value, g; }
    ghost var moved := dir.files;
    failure, g := CommitPrivate(dir, n, privBak, pubBak, before);
    if failure.Some? { return failure.value, g; }
    assert Keeps(dir.trace, dir.base, n.privPath, Some(before[n.privTmp]));
    r, g := CommitPublic(dir, n, privBak, pubBak, before, moved);
  }

  // ----- Coherence of the pair -----

  /** If both targets exist they are a matching key pair. */
  predicate Matching(priv: Option<KeyFile>, pub: Option<KeyFile>, derive: string -> string)
  {
    priv.Some? && pub.Some? ==> priv.value.PrivateKey? && pub.value == PublicKey(derive(priv.value.seed))
  }

  predicate Coherent(files: Files, n: Names, derive: string -> string)
  {
    Matching(Lookup(files, n.privPath), Lookup(files, n.pubPath), derive)
  }

  /** The staged files are a matching pair, as verifyStagedPair has checked. */
  predicate StagedPair(files: Files, n: Names, derive: string -> string)
    requires n.privTmp in files && n.pubTmp in files
  {
    files[n.privTmp].PrivateKey? && files[n.pubTmp] == PublicKey(derive(files[n.privTmp].seed))
  }

  /** The new private key stays although its directory fsync failed: neither
      removal worked, and no old private key was renamed over it. */
  predicate NotWithdrawn(hadPrivate: bool, g: Ignored)
  {
    !g.removed && !(hadPrivate && (g.cleared || g.privRestored))
  }

  /** The new private key stays, and a different old public key is put back. */
  predicate LeavesMismatch(r: Outcome, before: Files, n: Names, g: Ignored)
    requires n.pubTmp in before
  {
    && n.pubPath in before && before[n.pubPath] != before[n.pubTmp] && g.pubRestored
    && (r == CommitPublicFailed || (r == SyncPrivateFailed && NotWithdrawn(n.privPath in before, g)))
  }

  /** Both targets are as they were before the commit. */
  predicate OldPairBack(r: Outcome, g: Ignored)
  {
    || r == BackupPrivateFailed
    || (r == BackupPublicFailed && g.privRestored)
    || (r in {CommitPrivateFailed, SyncPrivateFailed} && g.privRestored && g.pubRestored)
  }

  /** Over all faults, those of the ignored operations included, and from any
      old directory, a mismatched pair is left exactly in the two situations of
      LeavesMismatch, or where an old mismatch is put back. */
  lemma MismatchExactly(r: Outcome, before: Files, n: Names, g: Ignored, after: Files, derive: string -> string)
    requires Staged(before, n) && StagedPair(before, n, derive) && TargetsLeft(r, before, n, g, after)
    ensures !Coherent(after, n, derive) <==>
            LeavesMismatch(r, before, n, g) || (!Coherent(before, n, derive) && OldPairBack(r, g))
  {
  }

  /** Such directories: an old pair of another key and a failing public rename;
      and an old public key alone, with a failing first directory fsync and a
      failing removal of the new private key. */
  lemma MismatchExample(derive: string -> string)
    requires derive("old") != derive("new")
    ensures var n := Names("t1", "t2", "k-private.key", "k-public.key");
            var staged: Files := map["t1" := PrivateKey("new"), "t2" := PublicKey(derive("new"))];
            var public := staged["k-public.key" := PublicKey(derive("old"))];
            var pair := public["k-private.key" := PrivateKey("old")];
            && Staged(pair, n) && StagedPair(pair, n, derive) && Coherent(pair, n, derive)
            && !Matching(PrivateLeft(CommitPublicFailed, pair, n, NOTHING_IGNORED),
                         PublicLeft(CommitPublicFailed, pair, n, NOTHING_IGNORED), derive)
            && Staged(public, n) && StagedPair(public, n, derive) && Coherent(public, n, derive)
            && !Matching(PrivateLeft(SyncPrivateFailed, public, n, NOTHING_IGNORED.(removed := false)),
                         PublicLeft(SyncPrivateFailed, public, n, NOTHING_IGNORED.(removed := false)), derive)
  {
    var n := Names("t1", "t2", "k-private.key", "k-public.key");
    assert n.privTmp[1] != n.pubTmp[1] && |n.privTmp| < |n.pubPath| < |n.privPath|;
  }

  // ----- WriteKeyFiles -----

  datatype KeyPair = KeyPair(keyID: string, seed: string, publicBytes: string)

  datatype WriteResult =
    | Written | MkdirFailed | Refused | StatFailed | StageFailed | PairMismatch
    | CommitFailed(step: Outcome) | ChmodFailed

  function PrivPath(kp: KeyPair): Name { kp.keyID + "-private.key" }

  function PubPath(kp: KeyPair): Name { kp.keyID + "-public.key" }

  /** The directory after each result, when every cleanup step worked: the old
      directory, or the new private key, or the new pair. */
  function Final(r: WriteResult, before: Files, kp: KeyPair): Files
  {
    var private := before[PrivPath(kp) := PrivateKey(kp.seed)];
    match r
    case Written | ChmodFailed => private[PubPath(kp) := PublicKey(kp.publicBytes)]
    case CommitFailed(SyncPublicFailed) => private[PubPath(kp) := PublicKey(kp.publicBytes)]
    case CommitFailed(CommitPublicFailed) => private
    case _ => before
  }

  predicate KeysMatch(files: Files, kp: KeyPair, derive: string -> string)
  {
    Matching(Lookup(files, PrivPath(kp)), Lookup(files, PubPath(kp)), derive)
  }

  /** Both targets are as they were before the write. */
  predicate OldKeysStay(r: WriteResult, g: Ignored)
  {
    || r in {MkdirFailed, Refused, StatFailed, StageFailed, PairMismatch}
    || (r.CommitFailed? && OldPairBack(r.step, g))
  }

  /** The commit's two situations, for a whole write. */
  predicate LeavesKeyMismatch(r: WriteResult, before: Files, kp: KeyPair, g: Ignored)
  {
    && r.CommitFailed?
    && PubPath(kp) in before && before[PubPath(kp)] != PublicKey(kp.publicBytes) && g.pubRestored
    && (r.step == CommitPublicFailed || (r.step == SyncPrivateFailed && NotWithdrawn(PrivPath(kp) in before, g)))
  }

  /** A complete private key is under the target, or the old one under a name
      that did not exist before. */
  ghost predicate KeySurvives(s: Files, before: Files, kp: KeyPair)
  {
    PrivPath(kp) in before ==> exists name: Name :: HoldsKey(s, before, kp, name)
  }

  ghost predicate HoldsKey(s: Files, before: Files, kp: KeyPair, name: Name)
    requires PrivPath(kp) in before
  {
    && name in s
    && (|| (name == PrivPath(kp) && (s[name] == before[name] || s[name] == PrivateKey(kp.seed)))
        || (name !in before && s[name] == before[PrivPath(kp)]))
  }

  ghost predicate KeySurvivesSince(trace: seq<Files>, start: nat, before: Files, kp: KeyPair)
  {
    forall k :: start <= k < |trace| ==> KeySurvives(trace[k], before, kp)
  }

  lemma TargetSurvives(s: Files, before: Files, kp: KeyPair)
    requires PrivPath(kp) in before ==> PrivPath(kp) in s && (s[PrivPath(kp)] == before[PrivPath(kp)] || s[PrivPath(kp)] == PrivateKey(kp.seed))
    ensures KeySurvives(s, before, kp)
  {
    if PrivPath(kp) in before { assert HoldsKey(s, before, kp, PrivPath(kp)); }
  }

  /** The staged files added to the old directory. */
  function WithStaged(before: Files, n: Names, kp: KeyPair): Files
  {
    before[n.privTmp := PrivateKey(kp.seed)][n.pubTmp := PublicKey(kp.publicBytes)]
  }

  lemma CommitSurvives(s: Files, before: Files, n: Names, kp: KeyPair)
    requires n.Distinct() && n.privPath == PrivPath(kp) && n.privTmp !in before && n.pubTmp !in before
    requires PrivateSurvives(s, WithStaged(before, n, kp), n)
    ensures KeySurvives(s, before, kp)
  {
    if PrivPath(kp) in before {
      var name: Name :| HoldsPrivate(s, WithStaged(before, n, kp), n, name);
      assert HoldsKey(s, before, kp, name);
    }
  }

  /** Stages one file fully, or leaves everything that existed as it was. */
  method StageKeyFile(dir: KeyDir, content: KeyFile, kp: KeyPair, ghost before: Files) returns (tmp: Option<Name>)
    requires forall m :: m in before ==> m in dir.files && dir.files[m] == before[m]
    requires dir.Traced()
    modifies dir`files, dir`cleanupFailed, dir`faulted, dir`trace
    ensures old(dir.faulted) ==> dir.faulted
    ensures tmp.None? ==> dir.faulted
    ensures dir.Traced()
    ensures old(dir.cleanupFailed) ==> dir.cleanupFailed
    ensures old(dir.trace) <= dir.trace && KeySurvivesSince(dir.trace, |old(dir.trace)|, before, kp)
    ensures forall m :: m in before ==> m in dir.files && dir.files[m] == before[m]
    ensures tmp.None? && !dir.cleanupFailed ==> dir.files == old(dir.files)
    ensures tmp.None? ==>
              && Lookup(dir.files, PrivPath(kp)) == Lookup(old(dir.files), PrivPath(kp))
              && Lookup(dir.files, PubPath(kp)) == Lookup(old(dir.files), PubPath(kp))
    ensures tmp.Some? ==>
              && tmp.value !in old(dir.files) && tmp.value !in {PrivPath(kp), PubPath(kp)}
              && dir.files == old(dir.files)[tmp.value := content] && dir.cleanupFailed == old(dir.cleanupFailed)
  {
    tmp := dir.CreateTemp({PrivPath(kp), PubPath(kp)});
    TargetSurvives(dir.files, before, kp);
    if tmp.None? { return; }
    var ok := dir.Fill(tmp.value, content);
    TargetSurvives(dir.files, before, kp);
    if !ok {
      assert dir.files - {tmp.value} == old(dir.files);
      var _ := dir.TryRemove(tmp.value);
      TargetSurvives(dir.files, before, kp);
      return None;
    }
  }

  /** Reloads the staged private key and compares its public part with the
      staged public key. Reading may fail. */
  method VerifyStagedPair(dir: KeyDir, n: Names, derive: string -> string) returns (ok: bool)
    requires n.privTmp in dir.files && n.pubTmp in dir.files
    modifies dir`faulted
    ensures old(dir.faulted) ==> dir.faulted
    ensures ok ==> StagedPair(dir.files, n, derive)
    ensures !ok ==> dir.faulted || !StagedPair(dir.files, n, derive)
  {
    var readable := dir.Attempt();
    ok := readable && dir.files[n.privTmp].PrivateKey? && dir.files[n.pubTmp] == PublicKey(derive(dir.files[n.privTmp].seed));
  }

  lemma RemovingTempKeeps(s: Files, before: Files, n: Names, tmp: Name)
    requires n.Distinct() && n.privTmp in before && tmp in before && tmp != n.privPath && PrivateSurvives(s, before, n)
    ensures PrivateSurvives(s - {tmp}, before, n)
  {
    if n.privPath in before {
      var name: Name :| HoldsPrivate(s, before, n, name);
      assert HoldsPrivate(s - {tmp}, before, n, name);
    }
  }

  /** The deferred removal of both temp files. */
  method RemoveStaged(dir: KeyDir, n: Names, kp: KeyPair, ghost before: Files)
    requires n.Distinct() && n.privPath == PrivPath(kp) && n.pubPath == PubPath(kp)
    requires n.privTmp !in before && n.pubTmp !in before
    requires PrivateSurvives(dir.files, WithStaged(before, n, kp), n)
    requires dir.Traced()
    modifies dir`files, dir`cleanupFailed, dir`faulted, dir`trace
    ensures old(dir.faulted) ==> dir.faulted
    ensures dir.Traced()
    ensures old(dir.cleanupFailed) ==> dir.cleanupFailed
    ensures old(dir.trace) <= dir.trace && KeySurvivesSince(dir.trace, |old(dir.trace)|, before, kp)
    ensures !dir.cleanupFailed ==> dir.files == old(dir.files) - {n.privTmp, n.pubTmp}
    ensures Lookup(dir.files, n.privPath) == Lookup(old(dir.files), n.privPath)
    ensures Lookup(dir.files, n.pubPath) == Lookup(old(dir.files), n.pubPath)
  {
    ghost var staged := WithStaged(before, n, kp);
    ghost var start := dir.files;
    RemovingTempKeeps(dir.files, staged, n, n.pubTmp);
    var _ := dir.TryRemove(n.pubTmp);
    CommitSurvives(dir.files, before, n, kp);
    RemovingTempKeeps(dir.files, staged, n, n.privTmp);
    var _ := dir.TryRemove(n.privTmp);
    CommitSurvives(dir.files, before, n, kp);
    assert start - {n.pubTmp} - {n.privTmp} == start - {n.privTmp, n.pubTmp};
  }

  /** Verify, commit and chmod a staged pair, then remove the temp files. */
  method FinishWrite(dir: KeyDir, n: Names, kp: KeyPair, derive: string -> string, ghost before: Files)
    returns (r: WriteResult, ghost g: Ignored)
    requires n.Distinct() && n.privPath == PrivPath(kp) && n.pubPath == PubPath(kp)
    requires n.privTmp !in before && n.pubTmp !in before && dir.files == WithStaged(before, n, kp) && !dir.cleanupFailed
    requires dir.Traced()
    modifies dir
    ensures old(dir.faulted) ==> dir.faulted
    ensures r != Written && kp.publicBytes == derive(kp.seed) ==> dir.faulted
    ensures dir.Traced()
    ensures old(dir.trace) <= dir.trace && KeySurvivesSince(dir.trace, |old(dir.trace)|, before, kp)
    ensures r in {PairMismatch, Written, ChmodFailed} || r.CommitFailed?
    ensures !dir.cleanupFailed ==> dir.files == Final(r, before, kp)
    ensures r in {Written, ChmodFailed, CommitFailed(SyncPublicFailed)} ==>
              && kp.publicBytes == derive(kp.seed)
              && Lookup(dir.files, PrivPath(kp)) == Some(PrivateKey(kp.seed))
              && Lookup(dir.files, PubPath(kp)) == Some(PublicKey(kp.publicBytes))
    ensures r in {Written, ChmodFailed} ==>
              && Lookup(dir.Synced(), PrivPath(kp)) == Some(PrivateKey(kp.seed))
              && Lookup(dir.Synced(), PubPath(kp)) == Some(PublicKey(kp.publicBytes))
    // A mismatched pair is left exactly where the commit leaves one or an old mismatch stays.
    ensures !KeysMatch(dir.files, kp, derive) <==>
            LeavesKeyMismatch(r, before, kp, g) || (!KeysMatch(before, kp, derive) && OldKeysStay(r, g))
    ensures r == PairMismatch || kp.publicBytes != derive(kp.seed) ==>
              && r == PairMismatch
              && Lookup(dir.files, PrivPath(kp)) == Lookup(before, PrivPath(kp))
              && Lookup(dir.files, PubPath(kp)) == Lookup(before, PubPath(kp))
  {
    ghost var staged := WithStaged(before, n, kp);
    var ok := VerifyStagedPair(dir, n, derive);
    if !ok {
      RestagedIsFinal(before, n, kp);
      if n.privPath in staged { assert HoldsPrivate(staged, staged, n, n.privPath); }
      RemoveStaged(dir, n, kp, before);
      return PairMismatch, NOTHING_IGNORED;
    }
    r, g := CommitAndChmod(dir, n, kp, derive, before);
  }

  /** The commit of a pair that matches, the chmod, and the removal of the temp
      files. */
  method CommitAndChmod(dir: KeyDir, n: Names, kp: KeyPair, derive: string -> string, ghost before: Files)
    returns (r: WriteResult, ghost g: Ignored)
    requires n.Distinct() && n.privPath == PrivPath(kp) && n.pubPath == PubPath(kp) && kp.publicBytes == derive(kp.seed)
    requires n.privTmp !in before && n.pubTmp !in before && dir.files == WithStaged(before, n, kp) && !dir.cleanupFailed
    requires dir.Traced()
    modifies dir
    ensures old(dir.faulted) ==> dir.faulted
    ensures r != Written ==> dir.faulted
    ensures dir.Traced()
    ensures old(dir.trace) <= dir.trace && KeySurvivesSince(dir.trace, |old(dir.trace)|, before, kp)
    ensures r in {Written, ChmodFailed} || (r.CommitFailed? && r.step != Committed)
    ensures !dir.cleanupFailed ==> dir.files == Final(r, before, kp)
    ensures r in {Written, ChmodFailed, CommitFailed(SyncPublicFailed)} ==>
              && Lookup(dir.files, PrivPath(kp)) == Some(PrivateKey(kp.seed))
              && Lookup(dir.files, PubPath(kp)) == Some(PublicKey(kp.publicBytes))
    ensures r in {Written, ChmodFailed} ==>
              && Lookup(dir.Synced(), PrivPath(kp)) == Some(PrivateKey(kp.seed))
              && Lookup(dir.Synced(), PubPath(kp)) == Some(PublicKey(kp.publicBytes))
    ensures !KeysMatch(dir.files, kp, derive) <==>
            LeavesKeyMismatch(r, before, kp, g) || (!KeysMatch(before, kp, derive) && OldKeysStay(r, g))
  {
    RestagedIsFinal(before, n, kp);
    var outcome;
    outcome, g := CommitStagedKeyFiles(dir, n);
    ghost var committed := dir.files;
    forall k | |old(dir.trace)| <= k < |dir.trace| ensures KeySurvives(dir.trace[k], before, kp) {
      CommitSurvives(dir.trace[k], before, n, kp);
    }
    var ok := true;
    if outcome == Committed { ok := dir.Attempt(); }
    RemoveStaged(dir, n, kp, before);
    r := if outcome != Committed then CommitFailed(outcome) else if ok then Written else ChmodFailed;
    MismatchAfterWrite(outcome, r, before, n, kp, g, committed, dir.files, derive);
  }

  /** The mismatch of a whole write, from that of its commit. */
  lemma MismatchAfterWrite(outcome: Outcome, r: WriteResult, before: Files, n: Names, kp: KeyPair, g: Ignored,
                           committed: Files, after: Files, derive: string -> string)
    requires n.Distinct() && n.privPath == PrivPath(kp) && n.pubPath == PubPath(kp) && kp.publicBytes == derive(kp.seed)
    requires n.privTmp !in before && n.pubTmp !in before
    requires TargetsLeft(outcome, WithStaged(before, n, kp), n, g, committed)
    requires Lookup(after, n.privPath) == Lookup(committed, n.privPath) && Lookup(after, n.pubPath) == Lookup(committed, n.pubPath)
    requires if outcome == Committed then r in {Written, ChmodFailed} else r == CommitFailed(outcome)
    ensures !KeysMatch(after, kp, derive) <==>
            LeavesKeyMismatch(r, before, kp, g) || (!KeysMatch(before, kp, derive) && OldKeysStay(r, g))
  {
    MismatchExactly(outcome, WithStaged(before, n, kp), n, g, committed, derive);
  }

  lemma RestagedIsFinal(before: Files, n: Names, kp: KeyPair)
    requires n.Distinct() && n.privPath == PrivPath(kp) && n.pubPath == PubPath(kp)
    requires n.privTmp !in before && n.pubTmp !in before
    ensures forall r: Outcome ::
              Expected(r, WithStaged(before, n, kp), n) - {n.privTmp, n.pubTmp} ==
              Final(if r == Committed then Written else CommitFailed(r), before, kp)
    ensures WithStaged(before, n, kp) - {n.privTmp, n.pubTmp} == before
  {
  }

  /** Writes a key pair. An existing private key survives every failure at
      every point; without `force` nothing existing is touched; success means
      the new matching pair. */
  method WriteKeyFiles(dir: KeyDir, kp: KeyPair, derive: string -> string, force: bool)
    returns (r: WriteResult, ghost g: Ignored)
    requires !dir.cleanupFailed
    requires dir.Traced()
    modifies dir
    // It succeeds unless an operation fails, the pair does not match, or a target is in the way without force.
    ensures old(dir.faulted) ==> dir.faulted
    ensures r != Written && r != Refused && kp.publicBytes == derive(kp.seed) ==> dir.faulted
    ensures r in {Refused, StatFailed} ==> !force
    ensures r == Refused ==> PrivPath(kp) in old(dir.files) || PubPath(kp) in old(dir.files)
    ensures dir.Traced()
    ensures old(dir.trace) <= dir.trace && KeySurvivesSince(dir.trace, |old(dir.trace)|, old(dir.files), kp)
    ensures !dir.cleanupFailed ==> dir.files == Final(r, old(dir.files), kp)
    ensures r in {Written, ChmodFailed, CommitFailed(SyncPublicFailed)} ==>
              && kp.publicBytes == derive(kp.seed)
              && Lookup(dir.files, PrivPath(kp)) == Some(PrivateKey(kp.seed))
              && Lookup(dir.files, PubPath(kp)) == Some(PublicKey(kp.publicBytes))
    ensures r in {Written, ChmodFailed} ==>
              && Lookup(dir.Synced(), PrivPath(kp)) == Some(PrivateKey(kp.seed))
              && Lookup(dir.Synced(), PubPath(kp)) == Some(PublicKey(kp.publicBytes))
    // A mismatched pair is left exactly where the commit leaves one or an old mismatch stays.
    ensures !KeysMatch(dir.files, kp, derive) <==>
            LeavesKeyMismatch(r, old(dir.files), kp, g) || (!KeysMatch(old(dir.files), kp, derive) && OldKeysStay(r, g))
    ensures !force && (PrivPath(kp) in old(dir.files) || PubPath(kp) in old(dir.files)) ==>
              r in {MkdirFailed, Refused, StatFailed} && dir.files == old(dir.files) && dir.trace == old(dir.trace)
    ensures r in {MkdirFailed, Refused, StatFailed} ==> dir.files == old(dir.files)
    ensures r in {StageFailed, PairMismatch} || kp.publicBytes != derive(kp.seed) ==>
              && Lookup(dir.files, PrivPath(kp)) == Lookup(old(dir.files), PrivPath(kp))
              && Lookup(dir.files, PubPath(kp)) == Lookup(old(dir.files), PubPath(kp))
  {
    ghost var before := dir.files;
    g := NOTHING_IGNORED;
    var made := dir.Attempt();
    if !made { return MkdirFailed, g; }
    if !force {
      var refusal := RefuseExisting(dir, kp);
      if refusal.Some? { return refusal.value, g; }
    }
    var n := StagePair(dir, kp);
    if n.None? { return StageFailed, g; }
    r, g := FinishWrite(dir, n.value, kp, derive, before);
  }

  /** Without force: neither target may exist. */
  method RefuseExisting(dir: KeyDir, kp: KeyPair) returns (r: Option<WriteResult>)
    modifies dir`faulted
    ensures r in {None, Some(Refused), Some(StatFailed)}
    ensures dir.faulted == (old(dir.faulted) || r == Some(StatFailed))
    ensures r == Some(Refused) ==> PrivPath(kp) in dir.files || PubPath(kp) in dir.files
    ensures r == None ==> PrivPath(kp) !in dir.files && PubPath(kp) !in dir.files
  {
    var st := dir.Stat(PrivPath(kp));
    if st != NotExist { return Some(if st == Exists then Refused else StatFailed); }
    st := dir.Stat(PubPath(kp));
    if st != NotExist { return Some(if st == Exists then Refused else StatFailed); }
    return None;
  }

  /** Stages both files next to everything that existed, or neither. */
  method StagePair(dir: KeyDir, kp: KeyPair) returns (n: Option<Names>)
    requires !dir.cleanupFailed && dir.Traced()
    modifies dir`files, dir`cleanupFailed, dir`faulted, dir`trace
    ensures old(dir.faulted) ==> dir.faulted
    ensures n.None? ==> dir.faulted
    ensures dir.Traced()
    ensures old(dir.trace) <= dir.trace && KeySurvivesSince(dir.trace, |old(dir.trace)|, old(dir.files), kp)
    ensures n.None? && !dir.cleanupFailed ==> dir.files == old(dir.files)
    ensures n.None? ==>
              && Lookup(dir.files, PrivPath(kp)) == Lookup(old(dir.files), PrivPath(kp))
              && Lookup(dir.files, PubPath(kp)) == Lookup(old(dir.files), PubPath(kp))
    ensures n.Some? ==>
              && n.value.Distinct() && n.value.privPath == PrivPath(kp) && n.value.pubPath == PubPath(kp)
              && n.value.privTmp !in old(dir.files) && n.value.pubTmp !in old(dir.files)
              && dir.files == WithStaged(old(dir.files), n.value, kp) && !dir.cleanupFailed
  {
    ghost var before := dir.files;
    var privTmp := StageKeyFile(dir, PrivateKey(kp.seed), kp, before);
    if privTmp.None? { return None; }
    var pubTmp := StageKeyFile(dir, PublicKey(kp.publicBytes), kp, before);
    if pubTmp.None? {
      assert before[privTmp.value := PrivateKey(kp.seed)] - {privTmp.value} == before;
      var _ := dir.TryRemove(privTmp.value);
      TargetSurvives(dir.files, before, kp);
      return None;
    }
    assert PrivPath(kp)[|kp.keyID|..] == "-private.key" && PubPath(kp)[|kp.keyID|..] == "-public.key";
    return Some(Names(privTmp.value, pubTmp.value, PrivPath(kp), PubPath(kp)));
  }
}
