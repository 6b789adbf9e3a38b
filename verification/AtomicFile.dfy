/** The atomic replace, as the source runs it: a state file whose calls are
    runs of the machine in DurableStore, whatever fails. */
module AtomicFile {
  import opened Text
  import opened Model
  import opened DurableStore

  /** The step at which a write failed; the source's error message names it. */
  datatype WriteStep = CreateStep | WriteStep | ChmodStep | SyncStep | CloseStep | RenameStep | DirSyncStep

  /** What the operating system makes of one transaction: whether the file can be
      read, the temp file it offers, and which system calls work. */
  datatype Os = Os(readable: bool, name: Name, inode: nat, create: bool, write: bool, chmod: bool, sync: bool,
                   close: bool, rename: bool, dirSync: bool)

  /** The temp file really is new. */
  predicate Offers<T>(os: Os, fs: FS<T>, path: Name)
  {
    os.create && os.name !in fs.dir && os.name != path && os.inode !in fs.inodes
  }

  /** Where a write fails, if it does. */
  function FailingStep<T>(os: Os, fs: FS<T>, path: Name): Option<WriteStep>
  {
    if !Offers(os, fs, path) then Some(CreateStep)
    else if !os.write then Some(WriteStep)
    else if !os.chmod then Some(ChmodStep)
    else if !os.sync then Some(SyncStep)
    else if !os.close then Some(CloseStep)
    else if !os.rename then Some(RenameStep)
    else if !os.dirSync then Some(DirSyncStep)
    else None
  }

  class StateFile<T(!new), I(!new)> {
    const P: Policy<T, I>
    var fs: FS<T>
    ghost var pc: Pc<T, I>
    ghost var saved: set<T>
    ghost var acked: seq<(T, I)>
    /** Every state the file system and the call went through. */
    ghost var run: seq<St<T, I>>

    ghost predicate Valid()
      reads this
    {
      Lawful(P) && IsRun(P, run) && run[|run|-1] == St(fs, pc, saved, acked)
    }

    /** The record a reader sees. */
    function Visible(): Option<Blob<T>>
      reads this
    {
      Content(fs, P.path)
    }

    constructor (P: Policy<T, I>, fs: FS<T>, ghost saved: set<T>)
      requires Lawful(P) && Init(P, St(fs, Idle, saved, []))
      ensures Valid() && this.P == P && this.fs == fs && pc == Idle && acked == [] && this.saved == saved
      ensures run == [St(fs, Idle, saved, [])]
    {
      this.P, this.fs, this.pc, this.saved, this.acked := P, fs, Idle, saved, [];
      this.run := [St(fs, Idle, saved, [])];
    }

    ghost method Record()
      requires Lawful(P) && IsRun(P, run) && Next(P, run[|run|-1], St(fs, pc, saved, acked))
      modifies this`run
      ensures Valid() && old(run) <= run
    {
      run := run + [St(fs, pc, saved, acked)];
    }

    /** Records one step of the call. */
    ghost method RecordCall()
      requires Lawful(P) && IsRun(P, run) && CallStep(P, run[|run|-1], St(fs, pc, saved, acked))
      modifies this`run
      ensures Valid() && old(run) <= run
    {
      Record();
    }

    method WriteBackEntry(name: Name)
      requires Valid()
      modifies this
      ensures Valid() && old(run) <= run && SameView(old(fs), fs)
      ensures pc == old(pc) && saved == old(saved) && acked == old(acked)
    {
      fs := WrittenBackEntry(fs, name);
      assert Writeback(old(fs), fs);
      Record();
    }

    method WriteBackData(id: nat, whole: bool)
      requires Valid() && id in fs.inodes && !fs.inodes[id].synced
      modifies this
      ensures Valid() && old(run) <= run && SameView(old(fs), fs)
      ensures pc == old(pc) && saved == old(saved) && acked == old(acked)
    {
      var disk := if whole then fs.inodes[id].seen else Torn;
      fs := fs.(inodes := fs.inodes[id := fs.inodes[id].(disk := disk)]);
      assert WrittenBackData(old(fs), fs, id, disk);
      Record();
    }

    /** Any amount of dirty data may reach the disk between two system calls. */
    method Yield()
      requires Valid()
      modifies this
      ensures Valid() && old(run) <= run && SameView(old(fs), fs)
      ensures pc == old(pc) && saved == old(saved) && acked == old(acked)
    {
      var n: int := *;
      for i := 0 to if n < 0 then 0 else n
        invariant Valid() && old(run) <= run && SameView(old(fs), fs)
        invariant pc == old(pc) && saved == old(saved) && acked == old(acked)
      {
        var name: Name, id: nat, whole: bool := *, *, *;
        WriteBackEntry(name);
        if id in fs.inodes && !fs.inodes[id].synced { WriteBackData(id, whole); }
      }
    }

    lemma CleaningApart()
      requires Valid() && pc.Cleaning?
      ensures pc.tmp != P.path
    {
      RunInv(P, run, |run| - 1);
    }

    lemma StateFileLinked()
      requires Valid()
      ensures P.path in fs.dir ==> fs.dir[P.path] in fs.inodes
    {
      RunInv(P, run, |run| - 1);
    }

    /** The temp file is in place, and it is not the state file. */
    lemma TempInPlace()
      requires Valid() && (pc.Writing? || pc.Syncing? || pc.Renaming?)
      ensures pc.tmp != P.path && pc.tmp in fs.dir && fs.dir[pc.tmp] in fs.inodes
      ensures P.path in fs.dir ==> fs.dir[P.path] != fs.dir[pc.tmp]
      ensures !pc.Writing? ==> fs.inodes[fs.dir[pc.tmp]].seen == Whole(pc.v)
    {
      RunInv(P, run, |run| - 1);
    }

    method CreateTemp(os: Os) returns (ok: bool)
      requires Valid() && pc.Creating?
      modifies this
      ensures Valid() && old(run) <= run && acked == old(acked) && Visible() == old(Visible())
      ensures ok == Offers(os, old(fs), P.path)
      ensures pc == if ok then Writing(old(pc).v, old(pc).input, os.name) else Idle
    {
      Yield();
      ok := Offers(os, fs, P.path);
      if ok {
        StateFileLinked();
        ghost var before := fs;
        fs := fs.(dir := fs.dir[os.name := os.inode], inodes := fs.inodes[os.inode := Inode(Torn, Torn, false)]);
        pc := Writing(pc.v, pc.input, os.name);
        assert CreateAs(before, fs, os.name, os.inode);
        RecordCall();
      } else {
        pc := Idle;
        RecordCall();
      }
    }

    method WriteTemp(name: Name, v: T, os: Os) returns (ok: bool)
      requires Valid() && pc.Writing? && pc.tmp == name && pc.v == v
      modifies this
      ensures Valid() && old(run) <= run && acked == old(acked) && Visible() == old(Visible())
      ensures ok == os.write && pc == if ok then Chmodding(v, old(pc).input, name) else Cleaning(None, name)
    {
      Yield();
      TempInPlace();
      ok := os.write;
      var id := fs.dir[name];
      fs := fs.(inodes := fs.inodes[id := fs.inodes[id].(seen := if ok then Whole(v) else Torn, synced := false)]);
      saved := saved + {v};
      pc := if ok then Chmodding(v, pc.input, name) else Cleaning(None, name);
      RecordCall();
    }

    method ChmodTemp(name: Name, os: Os) returns (ok: bool)
      requires Valid() && pc.Chmodding? && pc.tmp == name
      modifies this
      ensures Valid() && old(run) <= run && acked == old(acked) && Visible() == old(Visible())
      ensures ok == os.chmod && pc == if ok then Syncing(old(pc).v, old(pc).input, name) else Cleaning(None, name)
    {
      Yield();
      ok := os.chmod;
      pc := if ok then Syncing(pc.v, pc.input, name) else Cleaning(None, name);
      RecordCall();
    }

    method SyncTemp(name: Name, os: Os) returns (ok: bool)
      requires Valid() && pc.Syncing? && pc.tmp == name
      modifies this
      ensures Valid() && old(run) <= run && acked == old(acked) && Visible() == old(Visible())
      ensures ok == os.sync && pc == if ok then Closing(old(pc).v, old(pc).input, name) else Cleaning(None, name)
    {
      Yield();
      TempInPlace();
      ok := os.sync;
      if ok {
        var id := fs.dir[name];
        fs := fs.(inodes := fs.inodes[id := fs.inodes[id].(disk := fs.inodes[id].seen, synced := true)]);
      }
      pc := if ok then Closing(pc.v, pc.input, name) else Cleaning(None, name);
      RecordCall();
    }

    method CloseTemp(name: Name, os: Os) returns (ok: bool)
      requires Valid() && pc.Closing? && pc.tmp == name
      modifies this
      ensures Valid() && old(run) <= run && acked == old(acked) && Visible() == old(Visible())
      ensures ok == os.close && pc == if ok then Renaming(old(pc).v, old(pc).input, name) else Cleaning(None, name)
    {
      Yield();
      ok := os.close;
      pc := if ok then Renaming(pc.v, pc.input, name) else Cleaning(None, name);
      RecordCall();
    }

    method RenameTemp(name: Name, os: Os) returns (ok: bool)
      requires Valid() && pc.Renaming? && pc.tmp == name
      modifies this
      ensures Valid() && old(run) <= run && acked == old(acked)
      ensures ok == os.rename && pc == if ok then SyncingDir(old(pc).v, old(pc).input, name) else Cleaning(None, name)
      ensures Visible() == if ok then Some(Whole(old(pc).v)) else old(Visible())
    {
      Yield();
      TempInPlace();
      ok := os.rename;
      if ok {
        fs := fs.(dir := (fs.dir - {name})[P.path := fs.dir[name]]);
      }
      pc := if ok then SyncingDir(pc.v, pc.input, name) else Cleaning(None, name);
      RecordCall();
    }

    method SyncStateDir(os: Os) returns (ok: bool)
      requires Valid() && pc.SyncingDir?
      modifies this
      ensures Valid() && old(run) <= run && acked == old(acked) && Visible() == old(Visible())
      ensures ok == os.dirSync && pc == Cleaning(if ok then Some((old(pc).v, old(pc).input)) else None, old(pc).tmp)
    {
      Yield();
      ok := os.dirSync;
      if ok {
        fs := fs.(diskDir := fs.dir);
      }
      pc := Cleaning(if ok then Some((pc.v, pc.input)) else None, pc.tmp);
      RecordCall();
    }

    /** The deferred removal; after the rename the name is already gone. */
    method RemoveTemp(name: Name)
      requires Valid() && pc.Cleaning? && pc.tmp == name
      modifies this
      ensures Valid() && old(run) <= run && Visible() == old(Visible()) && pc == Idle
      ensures acked == old(acked) + (if old(pc).ack.Some? then [old(pc).ack.value] else [])
    {
      Yield();
      CleaningApart();
      var ok: bool := *;
      if ok {
        fs := fs.(dir := fs.dir - {name});
      }
      if pc.ack.Some? { acked := acked + [pc.ack.value]; }
      pc := Idle;
      RecordCall();
    }

    /** Replaces the state file by `v`, unless a system call fails. On success the
        record is visible and, from this moment on, durable. On failure a reader
        sees the new record exactly when the failing step is the directory
        fsync, and the old one otherwise. */
    method AtomicWriteFile(v: T, os: Os) returns (failed: Option<WriteStep>)
      requires Valid() && pc.Creating? && pc.v == v
      modifies this
      ensures Valid() && old(run) <= run && pc == Idle
      ensures failed == FailingStep(os, old(fs), P.path)
      ensures failed.None? ==> Visible() == Some(Whole(v)) && acked == old(acked) + [(v, old(pc).input)]
      ensures failed.Some? ==> acked == old(acked)
      ensures failed.Some? ==> Visible() == if failed.value.DirSyncStep? then Some(Whole(v)) else old(Visible())
    {
      var ok := CreateTemp(os);
      if !ok { return Some(CreateStep); }
      failed := Replace(os.name, v, os);
      RemoveTemp(os.name);
    }

    /** From the first write to the directory fsync. */
    method Replace(name: Name, v: T, os: Os) returns (failed: Option<WriteStep>)
      requires Valid() && pc.Writing? && pc.tmp == name && pc.v == v
      modifies this
      ensures Valid() && old(run) <= run && acked == old(acked)
      ensures failed == if !os.write then Some(WriteStep) else if !os.chmod then Some(ChmodStep)
                        else if !os.sync then Some(SyncStep) else if !os.close then Some(CloseStep)
                        else if !os.rename then Some(RenameStep) else if !os.dirSync then Some(DirSyncStep) else None
      ensures pc == Cleaning(if failed.None? then Some((v, old(pc).input)) else None, name)
      ensures Visible() == if failed.None? || failed.value.DirSyncStep? then Some(Whole(v)) else old(Visible())
    {
      failed := Fill(name, v, os);
      if failed.Some? { return; }
      var ok := RenameTemp(name, os);
      if !ok { return Some(RenameStep); }
      ok := SyncStateDir(os);
      return if ok then None else Some(DirSyncStep);
    }

    /** The complete record in the temp file, safely on the disk. */
    method Fill(name: Name, v: T, os: Os) returns (failed: Option<WriteStep>)
      requires Valid() && pc.Writing? && pc.tmp == name && pc.v == v
      modifies this
      ensures Valid() && old(run) <= run && acked == old(acked) && Visible() == old(Visible())
      ensures failed == if !os.write then Some(WriteStep) else if !os.chmod then Some(ChmodStep)
                        else if !os.sync then Some(SyncStep) else if !os.close then Some(CloseStep) else None
      ensures pc == if failed.None? then Renaming(v, old(pc).input, name) else Cleaning(None, name)
    {
      var ok := WriteTemp(name, v, os);
      if !ok { return Some(WriteStep); }
      ok := ChmodTemp(name, os);
      if !ok { return Some(ChmodStep); }
      ok := SyncTemp(name, os);
      if !ok { return Some(SyncStep); }
      ok := CloseTemp(name, os);
      return if ok then None else Some(CloseStep);
    }

    /** Load, decide, save: one transaction, run under the store's lock. */
    method CheckAndSave(input: I, os: Os) returns (code: Code, failed: Option<WriteStep>)
      requires Valid() && pc == Idle
      modifies this
      ensures Valid() && old(run) <= run && pc == Idle
      ensures var loaded := if os.readable then Loaded(P, old(fs)) else Err(StateIntegrityFailure);
              if loaded.Err?
              then code == loaded.code && failed == None && Visible() == old(Visible()) && acked == old(acked)
              else
                match P.decide(loaded.value, input)
                case Refuse(c) => code == c && failed == None && Visible() == old(Visible()) && acked == old(acked)
                case Keep => code == OK && failed == None && Visible() == old(Visible()) && acked == old(acked)
                case Save(v) =>
                  && failed == FailingStep(os, old(fs), P.path)
                  && code == (if failed.None? then OK else StateIntegrityFailure)
                  && acked == (if failed.None? then old(acked) + [(v, input)] else old(acked))
                  && Visible() == if failed.None? || failed.value.DirSyncStep? then Some(Whole(v)) else old(Visible())
    {
      if !os.readable { return StateIntegrityFailure, None; }
      var loaded := Loaded(P, fs);
      if loaded.Err? { return loaded.code, None; }
      var decision := P.decide(loaded.value, input);
      match decision {
        case Refuse(c) => return c, None;
        case Keep => return OK, None;
        case Save(v) =>
          pc := Creating(v, input);
          assert Begin(P, run[|run|-1], St(fs, pc, saved, acked));
          Record();
          failed := AtomicWriteFile(v, os);
          return if failed.None? then OK else StateIntegrityFailure, failed;
      }
    }
  }
}
