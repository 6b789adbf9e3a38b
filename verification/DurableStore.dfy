/** The shared state-file transaction on POSIX: load, decide, and atomically
    replace (temp file, write, chmod, fsync, close, rename, directory fsync),
    where every step may fail, dirty data may reach the disk at any moment, and
    the machine may crash anywhere. */
module DurableStore {
  import opened Text
  import opened Model

  type Name = string

  /** File content: one complete record, or anything else (empty, half
      written, garbage). */
  datatype Blob<+T> = Torn | Whole(value: T)

  /** A file: what processes read, what is on the disk, and whether an fsync
      has made the two equal since the last write. */
  datatype Inode<+T> = Inode(seen: Blob<T>, disk: Blob<T>, synced: bool)

  /** Directory entries as processes see them and as the disk holds them. */
  datatype FS<+T> = FS(dir: map<Name, nat>, diskDir: map<Name, nat>, inodes: map<nat, Inode<T>>)

  datatype Decision<+T> = Save(value: T) | Keep | Refuse(code: Code)

  /** A store: how it decides from the loaded record, and the order in which
      its records advance. */
  datatype Policy<!T, !I> = Policy(path: Name, decide: (Option<T>, I) -> Decision<T>, le: (T, T) -> bool)

  ghost predicate Lawful<T(!new), I(!new)>(P: Policy<T, I>)
  {
    && (forall a :: P.le(a, a))
    && (forall a, b, c :: P.le(a, b) && P.le(b, c) ==> P.le(a, c))
    && (forall a, i :: P.decide(Some(a), i).Save? ==> P.le(a, P.decide(Some(a), i).value))
  }

  /** Where a call stands. `tmp` is its temp file. */
  datatype Pc<+T, +I> =
    | Idle
    | Creating(v: T, input: I)
    | Writing(v: T, input: I, tmp: Name)
    | Chmodding(v: T, input: I, tmp: Name)
    | Syncing(v: T, input: I, tmp: Name)
    | Closing(v: T, input: I, tmp: Name)
    | Renaming(v: T, input: I, tmp: Name)
    | SyncingDir(v: T, input: I, tmp: Name)
    | Cleaning(ack: Option<(T, I)>, tmp: Name)

  /** The whole state, with the records ever handed to a write and the saves
      ever acknowledged with a nil error. */
  datatype St<T, I> = St(fs: FS<T>, pc: Pc<T, I>, saved: set<T>, acked: seq<(T, I)>)

  // ----- File system operations -----

  function Content<T>(fs: FS<T>, name: Name): Option<Blob<T>>
  {
    if name in fs.dir && fs.dir[name] in fs.inodes then Some(fs.inodes[fs.dir[name]].seen) else None
  }

  /** What a reader finds under `name` after a crash at this instant. */
  function DurableContent<T>(fs: FS<T>, name: Name): Option<Blob<T>>
  {
    if name in fs.diskDir && fs.diskDir[name] in fs.inodes then Some(fs.inodes[fs.diskDir[name]].disk) else None
  }

  ghost predicate Create<T>(fs: FS<T>, fs': FS<T>, name: Name)
  {
    exists id: nat :: CreateAs(fs, fs', name, id)
  }

  ghost predicate CreateAs<T>(fs: FS<T>, fs': FS<T>, name: Name, id: nat)
  {
    && id !in fs.inodes && name !in fs.dir
    && fs' == fs.(dir := fs.dir[name := id], inodes := fs.inodes[id := Inode(Torn, Torn, false)])
  }

  /** A write leaves `content` to read; the disk keeps what it had until an
      fsync or a writeback. */
  ghost predicate Write<T>(fs: FS<T>, fs': FS<T>, name: Name, content: Blob<T>)
  {
    && name in fs.dir && fs.dir[name] in fs.inodes
    && var id := fs.dir[name];
       fs' == fs.(inodes := fs.inodes[id := fs.inodes[id].(seen := content, synced := false)])
  }

  ghost predicate Fsync<T>(fs: FS<T>, fs': FS<T>, name: Name)
  {
    && name in fs.dir && fs.dir[name] in fs.inodes
    && var id := fs.dir[name];
       fs' == fs.(inodes := fs.inodes[id := fs.inodes[id].(disk := fs.inodes[id].seen, synced := true)])
  }

  ghost predicate Rename<T>(fs: FS<T>, fs': FS<T>, from: Name, to: Name)
  {
    from in fs.dir && fs' == fs.(dir := (fs.dir - {from})[to := fs.dir[from]])
  }

  ghost predicate Remove<T>(fs: FS<T>, fs': FS<T>, name: Name)
  {
    fs' == fs.(dir := fs.dir - {name})
  }

  ghost predicate SyncDir<T>(fs: FS<T>, fs': FS<T>)
  {
    fs' == fs.(diskDir := fs.dir)
  }

  /** The kernel may write any one directory entry, or any unsynced data, whole
      or in part, at any moment. */
  ghost predicate Writeback<T(!new)>(fs: FS<T>, fs': FS<T>)
  {
    || (exists name: Name :: fs' == WrittenBackEntry(fs, name))
    || (exists id: nat, disk: Blob<T> :: WrittenBackData(fs, fs', id, disk))
  }

  function WrittenBackEntry<T>(fs: FS<T>, name: Name): FS<T>
  {
    if name in fs.dir then fs.(diskDir := fs.diskDir[name := fs.dir[name]])
    else fs.(diskDir := fs.diskDir - {name})
  }

  ghost predicate WrittenBackData<T>(fs: FS<T>, fs': FS<T>, id: nat, disk: Blob<T>)
  {
    && id in fs.inodes && !fs.inodes[id].synced && (disk == Torn || disk == fs.inodes[id].seen)
    && fs' == fs.(inodes := fs.inodes[id := fs.inodes[id].(disk := disk)])
  }

  /** After a crash processes see what the disk holds. */
  function Crashed<T>(fs: FS<T>): FS<T>
  {
    FS(fs.diskDir, fs.diskDir, map id | id in fs.inodes :: var b := fs.inodes[id].disk; Inode(b, b, true))
  }

  /** Nothing a process can observe has changed, though data may have reached
      the disk. */
  ghost predicate SameView<T>(a: FS<T>, b: FS<T>)
  {
    && a.dir == b.dir && a.inodes.Keys == b.inodes.Keys
    && forall id :: id in a.inodes ==> a.inodes[id].seen == b.inodes[id].seen && a.inodes[id].synced == b.inodes[id].synced
  }

  // ----- The steps of a call -----

  /** Under the lock: read the file and decide. Reading may fail, and content
      that is not a complete record is an integrity failure. */
  ghost predicate Begin<T, I(!new)>(P: Policy<T, I>, s: St<T, I>, s': St<T, I>)
  {
    && s.pc.Idle? && s'.fs == s.fs && s'.saved == s.saved && s'.acked == s.acked
    && (s'.pc.Idle? ||
        exists i: I :: Loaded(P, s.fs).Ok? && P.decide(Loaded(P, s.fs).value, i).Save?
                       && s'.pc == Creating(P.decide(Loaded(P, s.fs).value, i).value, i))
  }

  function Loaded<T, I>(P: Policy<T, I>, fs: FS<T>): Result<Option<T>>
  {
    match Content(fs, P.path)
    case None => Ok(None)
    case Some(Torn) => Err(StateIntegrityFailure)
    case Some(Whole(v)) => Ok(Some(v))
  }

  ghost predicate CallStep<T(!new), I>(P: Policy<T, I>, s: St<T, I>, s': St<T, I>)
  {
    && (s.pc.Cleaning? || s'.acked == s.acked)
    && (s.pc.Writing? || s'.saved == s.saved)
    && match s.pc
       case Idle => false
       case Creating(v, i) =>
         || (s'.pc == Idle && s'.fs == s.fs)
         || (s'.pc.Writing? && s'.pc == Writing(v, i, s'.pc.tmp) && s'.pc.tmp != P.path && Create(s.fs, s'.fs, s'.pc.tmp))
       case Writing(v, i, tmp) =>
         && s'.saved == s.saved + {v}
         && (|| (s'.pc == Chmodding(v, i, tmp) && Write(s.fs, s'.fs, tmp, Whole(v)))
             || (s'.pc == Cleaning(None, tmp) && Write(s.fs, s'.fs, tmp, Torn)))
       case Chmodding(v, i, tmp) =>
         s'.fs == s.fs && (s'.pc == Syncing(v, i, tmp) || s'.pc == Cleaning(None, tmp))
       case Syncing(v, i, tmp) =>
         || (s'.pc == Closing(v, i, tmp) && Fsync(s.fs, s'.fs, tmp))
         || (s'.pc == Cleaning(None, tmp) && s'.fs == s.fs)
       case Closing(v, i, tmp) =>
         s'.fs == s.fs && (s'.pc == Renaming(v, i, tmp) || s'.pc == Cleaning(None, tmp))
       case Renaming(v, i, tmp) =>
         || (s'.pc == SyncingDir(v, i, tmp) && Rename(s.fs, s'.fs, tmp, P.path))
         || (s'.pc == Cleaning(None, tmp) && s'.fs == s.fs)
       case SyncingDir(v, i, tmp) =>
         || (s'.pc == Cleaning(Some((v, i)), tmp) && SyncDir(s.fs, s'.fs))
         || (s'.pc == Cleaning(None, tmp) && s'.fs == s.fs)
       case Cleaning(ack, tmp) =>
         && s'.pc == Idle
         && (Remove(s.fs, s'.fs, tmp) || s'.fs == s.fs)
         && s'.acked == s.acked + (if ack.Some? then [ack.value] else [])
  }

  ghost predicate BackgroundStep<T(!new), I>(s: St<T, I>, s': St<T, I>)
  {
    s' == s.(fs := s'.fs) && Writeback(s.fs, s'.fs)
  }

  ghost predicate CrashStep<T, I>(s: St<T, I>, s': St<T, I>)
  {
    s' == s.(fs := Crashed(s.fs), pc := Idle)
  }

  ghost predicate Next<T(!new), I(!new)>(P: Policy<T, I>, s: St<T, I>, s': St<T, I>)
  {
    Begin(P, s, s') || CallStep(P, s, s') || BackgroundStep(s, s') || CrashStep(s, s')
  }

  // ----- The invariant -----

  ghost predicate Settled<T>(fs: FS<T>, id: nat)
  {
    && id in fs.inodes && fs.inodes[id].synced
    && fs.inodes[id].seen.Whole? && fs.inodes[id].disk == fs.inodes[id].seen
  }

  function Value<T>(fs: FS<T>, id: nat): T
    requires id in fs.inodes && fs.inodes[id].seen.Whole?
  {
    fs.inodes[id].seen.value
  }

  /** The state file is complete wherever it appears, and the visible record is
      at least the durable one. */
  ghost predicate PathInv<T, I>(P: Policy<T, I>, s: St<T, I>)
  {
    && (P.path in s.fs.dir ==> Settled(s.fs, s.fs.dir[P.path]) && Value(s.fs, s.fs.dir[P.path]) in s.saved)
    && (P.path in s.fs.diskDir ==>
          && Settled(s.fs, s.fs.diskDir[P.path]) && Value(s.fs, s.fs.diskDir[P.path]) in s.saved
          && P.path in s.fs.dir
          && P.le(Value(s.fs, s.fs.diskDir[P.path]), Value(s.fs, s.fs.dir[P.path])))
  }

  /** The temp file of a call is not the state file, under any view. */
  ghost predicate TempInv<T, I>(P: Policy<T, I>, s: St<T, I>, tmp: Name)
  {
    && tmp != P.path && tmp in s.fs.dir && s.fs.dir[tmp] in s.fs.inodes
    && (P.path in s.fs.dir ==> s.fs.dir[P.path] != s.fs.dir[tmp])
    && (P.path in s.fs.diskDir ==> s.fs.diskDir[P.path] != s.fs.dir[tmp])
  }

  ghost predicate AheadOf<T, I>(P: Policy<T, I>, s: St<T, I>, v: T)
    requires PathInv(P, s)
  {
    P.path in s.fs.dir ==> P.le(Value(s.fs, s.fs.dir[P.path]), v)
  }

  ghost predicate TempHolds<T>(fs: FS<T>, tmp: Name, v: T)
  {
    tmp in fs.dir && fs.dir[tmp] in fs.inodes && fs.inodes[fs.dir[tmp]].seen == Whole(v)
  }

  ghost predicate PcInv<T, I>(P: Policy<T, I>, s: St<T, I>)
    requires PathInv(P, s)
  {
    match s.pc
    case Idle => true
    case Creating(v, _) => AheadOf(P, s, v)
    case Writing(v, _, tmp) => AheadOf(P, s, v) && TempInv(P, s, tmp)
    case Chmodding(v, _, tmp) => AheadOf(P, s, v) && TempInv(P, s, tmp) && TempHolds(s.fs, tmp, v) && v in s.saved
    case Syncing(v, _, tmp) => AheadOf(P, s, v) && TempInv(P, s, tmp) && TempHolds(s.fs, tmp, v) && v in s.saved
    case Closing(v, _, tmp) =>
      && AheadOf(P, s, v) && TempInv(P, s, tmp) && TempHolds(s.fs, tmp, v) && v in s.saved && Settled(s.fs, s.fs.dir[tmp])
    case Renaming(v, _, tmp) =>
      && AheadOf(P, s, v) && TempInv(P, s, tmp) && TempHolds(s.fs, tmp, v) && v in s.saved && Settled(s.fs, s.fs.dir[tmp])
    case SyncingDir(v, _, tmp) =>
      tmp != P.path && P.path in s.fs.dir && Value(s.fs, s.fs.dir[P.path]) == v
    case Cleaning(ack, tmp) =>
      && tmp != P.path
      && (ack.Some? ==> && P.path in s.fs.diskDir && P.path in s.fs.dir && s.fs.dir[P.path] == s.fs.diskDir[P.path]
                        && Value(s.fs, s.fs.diskDir[P.path]) == ack.value.0)
  }

  /** Names only lead to existing files. */
  ghost predicate Linked<T>(fs: FS<T>)
  {
    && (forall n :: n in fs.dir ==> fs.dir[n] in fs.inodes)
    && (forall n :: n in fs.diskDir ==> fs.diskDir[n] in fs.inodes)
  }

  ghost predicate AckedInv<T, I>(P: Policy<T, I>, s: St<T, I>)
    requires PathInv(P, s)
  {
    forall a :: a in s.acked ==> Covered(P, s, a.0)
  }

  /** The durable record is at least `v`. */
  ghost predicate Covered<T, I>(P: Policy<T, I>, s: St<T, I>, v: T)
    requires PathInv(P, s)
  {
    P.path in s.fs.diskDir && P.le(v, Value(s.fs, s.fs.diskDir[P.path]))
  }

  ghost predicate Inv<T, I>(P: Policy<T, I>, s: St<T, I>)
  {
    Linked(s.fs) && PathInv(P, s) && PcInv(P, s) && AckedInv(P, s)
  }

  /** Any start with no call in flight and a state file that is absent or a
      complete saved record. */
  ghost predicate Init<T, I>(P: Policy<T, I>, s: St<T, I>)
  {
    && s.pc == Idle && s.acked == [] && s.fs.dir == s.fs.diskDir && Linked(s.fs)
    && (P.path in s.fs.dir ==> Settled(s.fs, s.fs.dir[P.path]) && Value(s.fs, s.fs.dir[P.path]) in s.saved)
  }

  /** Absent is below everything; a complete record only gives way to one that
      is at least it. */
  ghost predicate DurableAtMost<T>(le: (T, T) -> bool, a: Option<Blob<T>>, b: Option<Blob<T>>)
  {
    a.None? || (a.value.Whole? && b.Some? && b.value.Whole? && le(a.value.value, b.value.value))
  }

  lemma BeginKeeps<T(!new), I(!new)>(P: Policy<T, I>, s: St<T, I>, s': St<T, I>)
    requires Lawful(P) && Inv(P, s) && Begin(P, s, s')
    ensures Inv(P, s') && s'.fs == s.fs
  {
  }

  /** Steps on the temp file alone. */
  lemma PrepareKeeps<T(!new), I(!new)>(P: Policy<T, I>, s: St<T, I>, s': St<T, I>)
    requires Lawful(P) && Inv(P, s) && CallStep(P, s, s') && (s.pc.Creating? || s.pc.Chmodding? || s.pc.Syncing? || s.pc.Closing?)
    ensures Inv(P, s')
    ensures DurableAtMost(P.le, DurableContent(s.fs, P.path), DurableContent(s'.fs, P.path))
  {
  }

  /** Writing the temp file, fully or not. */
  lemma WriteKeeps<T(!new), I(!new)>(P: Policy<T, I>, s: St<T, I>, s': St<T, I>)
    requires Lawful(P) && Inv(P, s) && CallStep(P, s, s') && s.pc.Writing?
    ensures Inv(P, s')
    ensures DurableAtMost(P.le, DurableContent(s.fs, P.path), DurableContent(s'.fs, P.path))
  {
  }

  /** The rename and the directory fsync. */
  lemma CommitKeeps<T(!new), I(!new)>(P: Policy<T, I>, s: St<T, I>, s': St<T, I>)
    requires Lawful(P) && Inv(P, s) && CallStep(P, s, s') && (s.pc.Renaming? || s.pc.SyncingDir?)
    ensures Inv(P, s')
    ensures DurableAtMost(P.le, DurableContent(s.fs, P.path), DurableContent(s'.fs, P.path))
  {
  }

  /** The deferred removal, and the acknowledgement. */
  lemma CleanKeeps<T(!new), I(!new)>(P: Policy<T, I>, s: St<T, I>, s': St<T, I>)
    requires Lawful(P) && Inv(P, s) && CallStep(P, s, s') && s.pc.Cleaning?
    ensures Inv(P, s')
    ensures DurableAtMost(P.le, DurableContent(s.fs, P.path), DurableContent(s'.fs, P.path))
  {
  }

  lemma CallKeeps<T(!new), I(!new)>(P: Policy<T, I>, s: St<T, I>, s': St<T, I>)
    requires Lawful(P) && Inv(P, s) && CallStep(P, s, s')
    ensures Inv(P, s')
    ensures DurableAtMost(P.le, DurableContent(s.fs, P.path), DurableContent(s'.fs, P.path))
  {
    match s.pc
    case Renaming(_, _, _) => CommitKeeps(P, s, s');
    case SyncingDir(_, _, _) => CommitKeeps(P, s, s');
    case Cleaning(_, _) => CleanKeeps(P, s, s');
    case Writing(_, _, _) => WriteKeeps(P, s, s');
    case _ => PrepareKeeps(P, s, s');
  }

  lemma EntryWritebackKeeps<T(!new), I(!new)>(P: Policy<T, I>, s: St<T, I>, s': St<T, I>, name: Name)
    requires Lawful(P) && Inv(P, s) && s' == s.(fs := WrittenBackEntry(s.fs, name))
    ensures Inv(P, s')
    ensures DurableAtMost(P.le, DurableContent(s.fs, P.path), DurableContent(s'.fs, P.path))
  {
  }

  lemma DataWritebackKeeps<T(!new), I(!new)>(P: Policy<T, I>, s: St<T, I>, s': St<T, I>, id: nat, disk: Blob<T>)
    requires Lawful(P) && Inv(P, s) && s' == s.(fs := s'.fs) && WrittenBackData(s.fs, s'.fs, id, disk)
    ensures Inv(P, s')
    ensures DurableAtMost(P.le, DurableContent(s.fs, P.path), DurableContent(s'.fs, P.path))
  {
  }

  lemma BackgroundKeeps<T(!new), I(!new)>(P: Policy<T, I>, s: St<T, I>, s': St<T, I>)
    requires Lawful(P) && Inv(P, s) && BackgroundStep(s, s')
    ensures Inv(P, s')
    ensures DurableAtMost(P.le, DurableContent(s.fs, P.path), DurableContent(s'.fs, P.path))
  {
    if name: Name :| s'.fs == WrittenBackEntry(s.fs, name) {
      EntryWritebackKeeps(P, s, s', name);
    } else {
      var id: nat, disk: Blob<T> :| WrittenBackData(s.fs, s'.fs, id, disk);
      DataWritebackKeeps(P, s, s', id, disk);
    }
  }

  lemma CrashKeeps<T(!new), I(!new)>(P: Policy<T, I>, s: St<T, I>, s': St<T, I>)
    requires Lawful(P) && Inv(P, s) && CrashStep(s, s')
    ensures Inv(P, s')
    ensures DurableAtMost(P.le, DurableContent(s.fs, P.path), DurableContent(s'.fs, P.path))
  {
  }

  lemma NextKeeps<T(!new), I(!new)>(P: Policy<T, I>, s: St<T, I>, s': St<T, I>)
    requires Lawful(P) && Inv(P, s) && Next(P, s, s')
    ensures Inv(P, s')
    ensures DurableAtMost(P.le, DurableContent(s.fs, P.path), DurableContent(s'.fs, P.path))
    ensures s.saved <= s'.saved && s.acked <= s'.acked
  {
    if Begin(P, s, s') {
      BeginKeeps(P, s, s');
    } else if CallStep(P, s, s') {
      CallKeeps(P, s, s');
    } else if BackgroundStep(s, s') {
      BackgroundKeeps(P, s, s');
    } else {
      CrashKeeps(P, s, s');
    }
  }

  // ----- Whole runs -----

  ghost predicate IsRun<T(!new), I(!new)>(P: Policy<T, I>, run: seq<St<T, I>>)
  {
    run != [] && Init(P, run[0]) && forall k :: 0 <= k < |run| - 1 ==> Next(P, run[k], run[k+1])
  }

  lemma {:induction false} RunInv<T(!new), I(!new)>(P: Policy<T, I>, run: seq<St<T, I>>, k: nat)
    requires Lawful(P) && IsRun(P, run) && k < |run|
    ensures Inv(P, run[k])
  {
    if k > 0 {
      RunInv(P, run, k - 1);
      NextKeeps(P, run[k-1], run[k]);
    }
  }

  /** Between any two moments of any run the durable record only advances. */
  lemma {:induction false} DurableMonotone<T(!new), I(!new)>(P: Policy<T, I>, run: seq<St<T, I>>, j: nat, k: nat)
    requires Lawful(P) && IsRun(P, run) && j <= k < |run|
    ensures DurableAtMost(P.le, DurableContent(run[j].fs, P.path), DurableContent(run[k].fs, P.path))
    ensures run[j].saved <= run[k].saved && run[j].acked <= run[k].acked
    decreases k - j
  {
    RunInv(P, run, j);
    if j < k {
      NextKeeps(P, run[j], run[j+1]);
      DurableMonotone(P, run, j + 1, k);
    }
  }

  /** At every moment of every run, what a crash would leave is no file or one
      complete record that was saved by then. */
  lemma DurableIsComplete<T(!new), I(!new)>(P: Policy<T, I>, run: seq<St<T, I>>, k: nat)
    requires Lawful(P) && IsRun(P, run) && k < |run|
    ensures var d := DurableContent(run[k].fs, P.path);
            d.None? || (d.value.Whole? && d.value.value in run[k].saved)
  {
    RunInv(P, run, k);
  }

  /** Once a save was acknowledged, every later durable record is at least it. */
  lemma AcknowledgedIsDurable<T(!new), I(!new)>(P: Policy<T, I>, run: seq<St<T, I>>, j: nat, k: nat, v: T, i: I)
    requires Lawful(P) && IsRun(P, run) && j <= k < |run| && (v, i) in run[j].acked
    ensures var d := DurableContent(run[k].fs, P.path);
            d.Some? && d.value.Whole? && P.le(v, d.value.value)
  {
    RunInv(P, run, k);
    DurableMonotone(P, run, j, k);
    assert (v, i) in run[k].acked;
  }

  // ----- Every record in flight came from a decision -----

  ghost predicate Decided<T(!new), I>(P: Policy<T, I>, v: T, i: I)
  {
    exists prev :: P.decide(prev, i) == Save(v)
  }

  ghost predicate DecidedInv<T(!new), I>(P: Policy<T, I>, s: St<T, I>)
  {
    && (forall a :: a in s.acked ==> Decided(P, a.0, a.1))
    && match s.pc
       case Idle => true
       case Cleaning(ack, _) => ack.Some? ==> Decided(P, ack.value.0, ack.value.1)
       case _ => Decided(P, s.pc.v, s.pc.input)
  }

  /** Whatever was acknowledged for an input was decided for that input. */
  lemma {:induction false} AcknowledgedWasDecided<T(!new), I(!new)>(P: Policy<T, I>, run: seq<St<T, I>>, k: nat)
    requires IsRun(P, run) && k < |run|
    ensures DecidedInv(P, run[k])
  {
    if k > 0 {
      AcknowledgedWasDecided(P, run, k - 1);
      var s, s' := run[k-1], run[k];
      assert Next(P, s, s');
      if Begin(P, s, s') && s'.pc.Creating? {
        assert P.decide(Loaded(P, s.fs).value, s'.pc.input) == Save(s'.pc.v);
      }
    }
  }
}
