/** The revocation state file under the atomic-replace machine: what survives
    failures and crashes, and what an acknowledgement without a write does not
    promise. */
module RevocationDurability {
  import opened Text
  import opened Model
  import opened RevocationState
  import opened DurableStore
  import opened Evidence

  /** The record of the state file. */
  datatype StateFileRecord = StateFileRecord(entries: Entries, tag: string)

  function DecideEntries(mac: Entries -> string, prev: Option<StateFileRecord>, next: Option<State>): Decision<StateFileRecord>
  {
    if next.None? then Refuse(RevocationStateIntegrityFailure)
    else if prev.Some? && prev.value.tag != mac(prev.value.entries) then Refuse(RevocationStateIntegrityFailure)
    else
      var entries := if prev.Some? then prev.value.entries else map[];
      match Classify(Lookup(entries, next.value.listID), next)
      case Reject(code) => Refuse(code)
      case Unchanged => Keep
      case Write =>
        var entries' := entries[next.value.listID := next.value];
        if Encodable(entries') then Save(StateFileRecord(entries', mac(entries'))) else Refuse(RevocationStateIntegrityFailure)
  }

  function EntriesIn(prev: Option<StateFileRecord>): Entries
  {
    if prev.Some? then prev.value.entries else map[]
  }

  /** On a missing or authentic record: a new list or a higher sequence is saved
      under a fresh tag, with nothing else changed, if it can be encoded; what
      stands is kept; and the rest is refused, with its reason. A damaged
      record refuses everything. */
  lemma DecisionExactly(mac: Entries -> string, prev: Option<StateFileRecord>, st: State)
    ensures var m, d := EntriesIn(prev), DecideEntries(mac, prev, Some(st));
            var m' := m[st.listID := st];
            if prev.Some? && prev.value.tag != mac(m) then d == Refuse(RevocationStateIntegrityFailure)
            else if st.listID !in m || m[st.listID].sequence < st.sequence
            then d == if Encodable(m') then Save(StateFileRecord(m', mac(m'))) else Refuse(RevocationStateIntegrityFailure)
            else if st.sequence < m[st.listID].sequence then d == Refuse(RevocationStale)
            else if st.payloadDigest != m[st.listID].payloadDigest then d == Refuse(RevocationRollback)
            else d == Keep
  {
  }

  function EntriesPolicy(path: Name, mac: Entries -> string): Policy<StateFileRecord, Option<State>>
  {
    Policy(path, (prev, next) => DecideEntries(mac, prev, next),
           (a: StateFileRecord, b: StateFileRecord) => Advances(a.entries, b.entries))
  }

  lemma EntriesPolicyLawful(path: Name, mac: Entries -> string)
    ensures Lawful(EntriesPolicy(path, mac))
  {
    var P := EntriesPolicy(path, mac);
    forall a, b, c | P.le(a, b) && P.le(b, c) ensures P.le(a, c) {
      forall id | id in a.entries
        ensures id in c.entries && (c.entries[id] == a.entries[id] || c.entries[id].sequence > a.entries[id].sequence)
      {
        assert id in b.entries;
      }
    }
  }

  type EntriesRun = seq<St<StateFileRecord, Option<State>>>

  /** Over every run with any failures and crashes, no list's durable mark is
      ever lowered or lost, and a state accepted with a write stays at or below
      the durable mark of its list. */
  lemma DurableMarksNeverRegress(path: Name, mac: Entries -> string, run: EntriesRun, j: nat, k: nat)
    requires IsRun(EntriesPolicy(path, mac), run) && j <= k < |run|
    ensures var a, b := DurableContent(run[j].fs, path), DurableContent(run[k].fs, path);
            a.Some? ==> a.value.Whole? && b.Some? && b.value.Whole? && Advances(a.value.value.entries, b.value.value.entries)
    ensures forall v: StateFileRecord, st: State :: (v, Some(st)) in run[j].acked ==>
              var b := DurableContent(run[k].fs, path);
              b.Some? && b.value.Whole? && st.listID in b.value.value.entries
              && b.value.value.entries[st.listID].sequence >= st.sequence
  {
    var P := EntriesPolicy(path, mac);
    EntriesPolicyLawful(path, mac);
    DurableIsComplete(P, run, j);
    DurableMonotone(P, run, j, k);
    forall v: StateFileRecord, st: State | (v, Some(st)) in run[j].acked
      ensures var b := DurableContent(run[k].fs, path);
              b.Some? && b.value.Whole? && st.listID in b.value.value.entries
              && b.value.value.entries[st.listID].sequence >= st.sequence
    {
      AcknowledgedIsDurable(P, run, j, k, v, Some(st));
      AcknowledgedWasDecided(P, run, j);
      var prev :| P.decide(prev, Some(st)) == Save(v);
      assert v.entries[st.listID] == st;
      assert st.listID in v.entries;
    }
  }

  /** Anti-replay through any failures and crashes: once a save of `a` was
      acknowledged, at every later moment only states of its list at it or
      beyond are not refused. */
  lemma AntiReplayAcrossCrashes(path: Name, mac: Entries -> string, run: EntriesRun, j: nat, k: nat,
                                v: StateFileRecord, a: State, b: State)
    requires IsRun(EntriesPolicy(path, mac), run) && j <= k < |run| && (v, Some(a)) in run[j].acked && a.listID == b.listID
    ensures Loaded(EntriesPolicy(path, mac), run[k].fs).Ok?
    ensures !DecideEntries(mac, Loaded(EntriesPolicy(path, mac), run[k].fs).value, Some(b)).Refuse? ==>
              a.sequence <= b.sequence && (a.sequence == b.sequence ==> a.payloadDigest == b.payloadDigest)
  {
    var P := EntriesPolicy(path, mac);
    EntriesPolicyLawful(path, mac);
    AcknowledgedIsDurable(P, run, j, k, v, Some(a));
    AcknowledgedWasDecided(P, run, j);
    var prev :| P.decide(prev, Some(a)) == Save(v);
    assert Stands(v.entries, a);
    RunInv(P, run, k);
    var durable, visible := DurableContent(run[k].fs, path).value.value, Content(run[k].fs, path).value.value;
    assert P.le(v, durable) && P.le(durable, visible);
    assert Reached(durable.entries, a) && Reached(visible.entries, a);
    if !DecideEntries(mac, Some(visible), Some(b)).Refuse? { DecisionPast(mac, visible, a, b); }
  }

  lemma DecisionPast(mac: Entries -> string, v: StateFileRecord, a: State, b: State)
    requires Reached(v.entries, a) && a.listID == b.listID && !DecideEntries(mac, Some(v), Some(b)).Refuse?
    ensures a.sequence <= b.sequence && (a.sequence == b.sequence ==> a.payloadDigest == b.payloadDigest)
  {
  }

  /** The record has the list at this state or beyond it. */
  function Reaching(st: State): StateFileRecord -> bool
  {
    (v: StateFileRecord) => Reached(v.entries, st)
  }

  /** A state accepted without a write is as safe as the records behind it. In
      every continuation of every history that looks like this one, with any
      failures and crashes, the disk keeps its list at it or beyond, exactly
      when a record that does was in the file at boot or had its save
      acknowledged since. */
  lemma KeepIsDurableExactly(path: Name, mac: Entries -> string, run: EntriesRun, st: State)
    requires SinceBoot(EntriesPolicy(path, mac), run) && run[|run|-1].pc == Idle
    ensures Evident(path, run, Reaching(st)) <==>
            forall later: EntriesRun :: IsRun(EntriesPolicy(path, mac), later) && BeginsLike(run, later) ==>
              Safe(later[|later|-1].fs, path, Reaching(st))
  {
    EntriesPolicyLawful(path, mac);
    SafeExactlyWhenEvident(EntriesPolicy(path, mac), run, Reaching(st));
  }

  // ----- An acknowledgement that a crash undoes -----

  /** The file system around one save: empty, temp file made, written, synced,
      renamed without a directory fsync. */
  function LossFS(v: StateFileRecord, path: Name, tmp: Name, stage: nat): FS<StateFileRecord>
  {
    if stage == 0 then FS(map[], map[], map[])
    else if stage == 1 then FS(map[tmp := 0], map[], map[0 := Inode(Torn, Torn, false)])
    else if stage == 2 then FS(map[tmp := 0], map[], map[0 := Inode(Whole(v), Torn, false)])
    else if stage == 3 then FS(map[tmp := 0], map[], map[0 := Inode(Whole(v), Whole(v), true)])
    else FS(map[path := 0], map[], map[0 := Inode(Whole(v), Whole(v), true)])
  }

  function FirstRecord(mac: Entries -> string, st: State): StateFileRecord
  {
    var entries: Entries := map[];
    StateFileRecord(entries[st.listID := st], mac(entries[st.listID := st]))
  }

  /** Save, failed directory fsync, cleanup, crash. */
  function LossRun(v: StateFileRecord, i: Option<State>, path: Name, tmp: Name): EntriesRun
  {
    [St(LossFS(v, path, tmp, 0), Idle, {}, []),
     St(LossFS(v, path, tmp, 0), Creating(v, i), {}, []),
     St(LossFS(v, path, tmp, 1), Writing(v, i, tmp), {}, []),
     St(LossFS(v, path, tmp, 2), Chmodding(v, i, tmp), {v}, []),
     St(LossFS(v, path, tmp, 2), Syncing(v, i, tmp), {v}, []),
     St(LossFS(v, path, tmp, 3), Closing(v, i, tmp), {v}, []),
     St(LossFS(v, path, tmp, 3), Renaming(v, i, tmp), {v}, []),
     St(LossFS(v, path, tmp, 4), SyncingDir(v, i, tmp), {v}, []),
     St(LossFS(v, path, tmp, 4), Cleaning(None, tmp), {v}, []),
     St(LossFS(v, path, tmp, 4), Idle, {v}, []),
     St(Crashed(LossFS(v, path, tmp, 4)), Idle, {v}, [])]
  }

  lemma LossFSSteps(v: StateFileRecord, path: Name, tmp: Name)
    requires tmp != path
    ensures Create(LossFS(v, path, tmp, 0), LossFS(v, path, tmp, 1), tmp)
    ensures DurableStore.Write(LossFS(v, path, tmp, 1), LossFS(v, path, tmp, 2), tmp, Whole(v))
    ensures Fsync(LossFS(v, path, tmp, 2), LossFS(v, path, tmp, 3), tmp)
    ensures Rename(LossFS(v, path, tmp, 3), LossFS(v, path, tmp, 4), tmp, path)
  {
    assert CreateAs(LossFS(v, path, tmp, 0), LossFS(v, path, tmp, 1), tmp, 0);
    assert map[path := 0] == (map[tmp := 0] - {tmp})[path := 0];
  }

  lemma LossRunIsRun(mac: Entries -> string, path: Name, tmp: Name, st: State)
    requires tmp != path && HasJSONForm(st.issuedAt)
    ensures IsRun(EntriesPolicy(path, mac), LossRun(FirstRecord(mac, st), Some(st), path, tmp))
  {
    var P, v := EntriesPolicy(path, mac), FirstRecord(mac, st);
    var run := LossRun(v, Some(st), path, tmp);
    LossFSSteps(v, path, tmp);
    assert P.decide(Loaded(P, run[0].fs).value, Some(st)) == Save(v);
    forall k | 0 <= k < |run| - 1 ensures Next(P, run[k], run[k+1]) {
      if k == 0 { assert Begin(P, run[0], run[1]); }
      else if k == 9 { assert CrashStep(run[9], run[10]); }
      else { assert CallStep(P, run[k], run[k+1]); }
    }
  }

  /** Otherwise it does not: after a save whose directory fsync failed, the
      same state is accepted again without a write (state 9 below), and a crash
      then loses it. */
  lemma KeepMayBeLost(mac: Entries -> string, path: Name, tmp: Name, st: State)
    requires tmp != path && HasJSONForm(st.issuedAt)
    ensures var P, run := EntriesPolicy(path, mac), LossRun(FirstRecord(mac, st), Some(st), path, tmp);
            && IsRun(P, run) && run[9].pc == Idle && CrashStep(run[9], run[10])
            && Loaded(P, run[9].fs).Ok? && P.decide(Loaded(P, run[9].fs).value, Some(st)) == Keep
            && DurableContent(run[10].fs, path) == None
  {
    LossRunIsRun(mac, path, tmp, st);
  }
}
