/** The anti-replay high-water state of revocation lists: its classification,
    the in-memory and the file store, and what every run of them keeps. */
module RevocationState {
  import opened Text
  import opened Model

  const MAX_REVOCATION_FILE_SIZE := 4 * 1024 * 1024

  datatype State = State(listID: string, sequence: nat, issuedAt: Instant, payloadDigest: string)

  type Entries = map<string, State>

  datatype Transition = Write | Unchanged | Reject(code: Code)

  /** Whether `next` may replace `prev`; None is a nil state. */
  function Classify(prev: Option<State>, next: Option<State>): Transition
  {
    if next.None? then Reject(RevocationStateIntegrityFailure)
    else if prev.None? then Write
    else if next.value.sequence < prev.value.sequence then Reject(RevocationStale)
    else if next.value.sequence == prev.value.sequence then
      if prev.value.payloadDigest != next.value.payloadDigest then Reject(RevocationRollback) else Unchanged
    else Write
  }

  function Lookup(m: Entries, listID: string): Option<State>
  {
    if listID in m then Some(m[listID]) else None
  }

  /** The whole transaction on a map of entries. */
  function Transact(m: Entries, next: Option<State>): (Entries, Code)
  {
    match Classify(if next.Some? then Lookup(m, next.value.listID) else None, next)
    case Write => (m[next.value.listID := next.value], OK)
    case Unchanged => (m, OK)
    case Reject(code) => (m, code)
  }

  /** Exactly a new list, a higher sequence, or the very same state is accepted;
      a new or higher one is put in its place and nothing else changes. A lower
      sequence is stale, and another content under the same one a rollback. */
  lemma AcceptedExactly(m: Entries, st: State)
    ensures var (after, code) := Transact(m, Some(st));
            var known := st.listID in m;
            && (code == OK <==> !known || m[st.listID].sequence < st.sequence
                                || (m[st.listID].sequence == st.sequence && m[st.listID].payloadDigest == st.payloadDigest))
            && (known && st.sequence < m[st.listID].sequence ==> code == RevocationStale)
            && (known && st.sequence == m[st.listID].sequence && st.payloadDigest != m[st.listID].payloadDigest ==>
                  code == RevocationRollback)
            && after == if !known || m[st.listID].sequence < st.sequence then m[st.listID := st] else m
  {
  }

  // ----- The in-memory store -----

  class MemStore {
    var m: Entries

    constructor ()
      ensures m == map[]
    {
      m := map[];
    }

    method LoadState(listID: string) returns (st: Option<State>)
      ensures st == Lookup(m, listID)
    {
      if listID in m { st := Some(m[listID]); } else { st := None; }
    }

    /** A plain put, which may lower a mark by design. */
    method SaveState(st: Option<State>) returns (code: Code)
      modifies this
      ensures st.None? ==> code == RevocationStateIntegrityFailure && m == old(m)
      ensures st.Some? ==> code == OK && m == old(m)[st.value.listID := st.value]
    {
      if st.None? { return RevocationStateIntegrityFailure; }
      m := m[st.value.listID := st.value];
      return OK;
    }

    method CheckAndSave(next: Option<State>) returns (code: Code)
      modifies this
      ensures (m, code) == Transact(old(m), next)
    {
      if next.None? { return RevocationStateIntegrityFailure; }
      var prev: Option<State> := None;
      if next.value.listID in m { prev := Some(m[next.value.listID]); }
      var transition := Classify(prev, next);
      if transition.Reject? { return transition.code; }
      if transition.Write? { m := m[next.value.listID := next.value]; }
      return OK;
    }
  }

  // ----- The file store -----

  /** What the state file holds. `Undecodable` covers anything the strict
      decoder rejects; a tag is None when it is not valid hex. */
  datatype FileContent = Missing | Undecodable | Stored(entries: Entries, tag: Option<string>)

  /** The MAC under the store's key, and the encoded size of a file. */
  datatype Keyed = Keyed(mac: Entries -> string, size: Entries -> nat)

  /** How the file system treats one write: done, not done, or visible to
      readers but reported as failed (the directory fsync failed). */
  datatype WriteFate = Done | NotDone | VisibleButFailed

  datatype Io = Io(readable: bool, write: WriteFate)

  const HEALTHY := Io(true, Done)

  function LoadFile(k: Keyed, file: FileContent, readable: bool): Result<Entries>
  {
    if !readable then Err(RevocationStateIntegrityFailure)
    else
      match file
      case Missing => Ok(map[])
      case Undecodable => Err(RevocationStateIntegrityFailure)
      case Stored(entries, tag) =>
        if k.size(entries) > MAX_REVOCATION_FILE_SIZE then Err(RevocationStateIntegrityFailure)
        else if tag != Some(k.mac(entries)) then Err(RevocationStateIntegrityFailure)
        else Ok(entries)
  }

  /** Marshalling a map fails when an issue time has no JSON form. */
  predicate Encodable(entries: Entries)
  {
    forall id :: id in entries ==> HasJSONForm(entries[id].issuedAt)
  }

  /** Rewriting the file with a fresh tag. The size is not checked here. */
  function WriteFile(k: Keyed, file: FileContent, entries: Entries, fate: WriteFate): (FileContent, Code)
  {
    var written := Stored(entries, Some(k.mac(entries)));
    if !Encodable(entries) then (file, RevocationStateIntegrityFailure)
    else
      match fate
      case Done => (written, OK)
      case NotDone => (file, RevocationStateIntegrityFailure)
      case VisibleButFailed => (written, RevocationStateIntegrityFailure)
  }

  function FileTransact(k: Keyed, file: FileContent, next: Option<State>, io: Io): (FileContent, Code)
  {
    if next.None? then (file, RevocationStateIntegrityFailure)
    else
      match LoadFile(k, file, io.readable)
      case Err(code) => (file, code)
      case Ok(entries) =>
        match Classify(Lookup(entries, next.value.listID), next)
        case Reject(code) => (file, code)
        case Unchanged => (file, OK)
        case Write => WriteFile(k, file, entries[next.value.listID := next.value], io.write)
  }

  class DiskFile {
    var content: FileContent

    constructor (content: FileContent)
      ensures this.content == content
    {
      this.content := content;
    }
  }

  class FileStore {
    const file: DiskFile
    const k: Keyed

    constructor (file: DiskFile, k: Keyed)
      ensures this.file == file && this.k == k
    {
      this.file, this.k := file, k;
    }

    method LoadState(listID: string, readable: bool) returns (r: Result<Option<State>>)
      ensures var l := LoadFile(k, file.content, readable);
              r == if l.Err? then Err(l.code) else Ok(Lookup(l.value, listID))
    {
      var loaded := LoadFile(k, file.content, readable);
      if loaded.Err? { return Err(loaded.code); }
      return Ok(if listID in loaded.value then Some(loaded.value[listID]) else None);
    }

    method WriteEntries(entries: Entries, fate: WriteFate) returns (code: Code)
      modifies file
      ensures (file.content, code) == WriteFile(k, old(file.content), entries, fate)
    {
      if !Encodable(entries) { return RevocationStateIntegrityFailure; }
      if fate != NotDone { file.content := Stored(entries, Some(k.mac(entries))); }
      return if fate == Done then OK else RevocationStateIntegrityFailure;
    }

    method CheckAndSave(next: Option<State>, io: Io) returns (code: Code)
      modifies file
      ensures (file.content, code) == FileTransact(k, old(file.content), next, io)
    {
      if next.None? { return RevocationStateIntegrityFailure; }
      var loaded := LoadFile(k, file.content, io.readable);
      if loaded.Err? { return loaded.code; }
      var entries := loaded.value;
      var prev: Option<State> := None;
      if next.value.listID in entries { prev := Some(entries[next.value.listID]); }
      var transition := Classify(prev, next);
      if transition.Reject? { return transition.code; }
      if transition.Unchanged? { return OK; }
      entries := entries[next.value.listID := next.value];
      code := WriteEntries(entries, io.write);
    }
  }

  /** A file is read exactly when the operating system lets it, and it is missing
      or within the size limit under the tag of its entries. */
  lemma ReadExactly(k: Keyed, file: FileContent, readable: bool)
    ensures LoadFile(k, file, readable) ==
            if readable && file.Missing? then Ok(map[])
            else if readable && file.Stored? && k.size(file.entries) <= 4 * 1024 * 1024 && file.tag == Some(k.mac(file.entries))
            then Ok(file.entries)
            else Err(RevocationStateIntegrityFailure)
  {
  }

  /** A healthy file accepts what AcceptedExactly says, and then holds it. */
  lemma FileAcceptsNewer(k: Keyed, file: FileContent, st: State, io: Io)
    requires LoadFile(k, file, io.readable).Ok? && io.write.Done? && HasJSONForm(st.issuedAt) && Encodable(Held(file))
    requires st.listID in Held(file) ==> Held(file)[st.listID].sequence < st.sequence
    ensures FileTransact(k, file, Some(st), io) ==
            (Stored(Held(file)[st.listID := st], Some(k.mac(Held(file)[st.listID := st]))), OK)
  {
    assert LoadFile(k, file, io.readable) == Ok(Held(file));
  }

  // ----- Runs -----

  type Calls = seq<Option<State>>

  function RunMem(m: Entries, calls: Calls): (r: (Entries, seq<Code>))
    ensures |r.1| == |calls|
    decreases |calls|
  {
    if calls == [] then (m, [])
    else
      var (m', code) := Transact(m, calls[0]);
      var (last, codes) := RunMem(m', calls[1..]);
      (last, [code] + codes)
  }

  type FileCalls = seq<(Option<State>, Io)>

  function RunFile(k: Keyed, file: FileContent, calls: FileCalls): (r: (FileContent, seq<Code>))
    ensures |r.1| == |calls|
    decreases |calls|
  {
    if calls == [] then (file, [])
    else
      var (file', code) := FileTransact(k, file, calls[0].0, calls[0].1);
      var (last, codes) := RunFile(k, file', calls[1..]);
      (last, [code] + codes)
  }

  function Healthy(calls: Calls): (r: FileCalls)
    ensures |r| == |calls|
  {
    if calls == [] then [] else [(calls[0], HEALTHY)] + Healthy(calls[1..])
  }

  /** The file holds exactly this map and can be read back. */
  predicate Represents(k: Keyed, file: FileContent, m: Entries)
  {
    LoadFile(k, file, true) == Ok(m)
  }

  /** Every map the run writes can be encoded, within the size that can be read
      back. */
  predicate Fits(k: Keyed, m: Entries, calls: Calls)
    decreases |calls|
  {
    calls != [] ==>
      var m' := Transact(m, calls[0]).0;
      (m' == m || (Encodable(m') && k.size(m') <= MAX_REVOCATION_FILE_SIZE)) && Fits(k, m', calls[1..])
  }

  /** The file store refines the in-memory store: without tampering or I/O
      failure, any sequence of calls gives the same codes and the same map,
      exactly when every map the run writes can be read back. */
  lemma {:induction false} FileRefinesMem(k: Keyed, file: FileContent, m: Entries, calls: Calls)
    requires Represents(k, file, m)
    ensures Fits(k, m, calls) <==>
            && RunFile(k, file, Healthy(calls)).1 == RunMem(m, calls).1
            && Represents(k, RunFile(k, file, Healthy(calls)).0, RunMem(m, calls).0)
    decreases |calls|
  {
    if calls != [] {
      var m' := Transact(m, calls[0]).0;
      var file' := FileTransact(k, file, calls[0], HEALTHY).0;
      assert Healthy(calls)[0] == (calls[0], HEALTHY) && Healthy(calls)[1..] == Healthy(calls[1..]);
      if m' == m || (Encodable(m') && k.size(m') <= MAX_REVOCATION_FILE_SIZE) {
        assert Represents(k, file', m');
        FileRefinesMem(k, file', m', calls[1..]);
        SameCodes(RunFile(k, file, Healthy(calls)).1, RunMem(m, calls).1);
      } else if Encodable(m') {
        DamagedFileIsKept(k, file', Healthy(calls[1..]));
      } else {
        assert RunFile(k, file, Healthy(calls)).1[0] != RunMem(m, calls).1[0];
      }
    }
  }

  lemma SameCodes(a: seq<Code>, b: seq<Code>)
    requires a != [] && b != [] && a[0] == b[0]
    ensures a == b <==> a[1..] == b[1..]
  {
    assert a == [a[0]] + a[1..] && b == [b[0]] + b[1..];
  }

  /** The size bound is exact. A write is not bounded by what a read accepts,
      so a file written with an encoding over the bound stops agreeing with
      the in-memory store: it refuses every later call. */
  lemma RefinementNeedsFit(k: Keyed, m: Entries)
    requires Encodable(m)
    ensures k.size(m) <= MAX_REVOCATION_FILE_SIZE <==>
            forall next: Option<State> :: (next.Some? ==> HasJSONForm(next.value.issuedAt)) ==>
              FileTransact(k, Stored(m, Some(k.mac(m))), next, HEALTHY).1 == Transact(m, next).1
  {
    var file := Stored(m, Some(k.mac(m)));
    if k.size(m) > MAX_REVOCATION_FILE_SIZE {
      var next := Some(State(FreshName(m.Keys), 1, ZERO_TIME, ""));
      assert Transact(m, next).1 == OK;
      assert FileTransact(k, file, next, HEALTHY).1 == RevocationStateIntegrityFailure;
    }
  }

  /** Some run of accepted calls stops fitting: one new list after the other. */
  lemma {:induction false} SomeRunStopsFitting(k: Keyed, m: Entries) returns (calls: Calls)
    requires forall x: Entries :: k.size(x) >= |x|
    ensures forall code :: code in RunMem(m, calls).1 ==> code == OK
    ensures !Fits(k, m, calls)
    decreases MAX_REVOCATION_FILE_SIZE - |m|
  {
    var st := State(FreshName(m.Keys), 1, ZERO_TIME, "");
    var m' := m[st.listID := st];
    assert m'.Keys == m.Keys + {st.listID};
    assert Transact(m, Some(st)) == (m', OK);
    var rest: Calls := [];
    if |m'| <= MAX_REVOCATION_FILE_SIZE { rest := SomeRunStopsFitting(k, m'); }
    calls := [Some(st)] + rest;
    assert calls[1..] == rest;
  }

  /** The file is not authentic: it does not decode, is too large, or its tag does
      not match its entries. */
  predicate Damaged(k: Keyed, file: FileContent)
  {
    || file.Undecodable?
    || (file.Stored? && (k.size(file.entries) > 4 * 1024 * 1024 || file.tag != Some(k.mac(file.entries))))
  }

  /** Such a file always yields the integrity error and stays as it is. */
  lemma {:induction false} DamagedFileIsKept(k: Keyed, file: FileContent, calls: FileCalls)
    requires Damaged(k, file)
    ensures RunFile(k, file, calls).0 == file
    ensures forall c :: c in RunFile(k, file, calls).1 ==> c == RevocationStateIntegrityFailure
  {
    if calls != [] { DamagedFileIsKept(k, file, calls[1..]); }
  }

  // ----- Anti-replay over every run, with any I/O failures -----

  /** The entries a file holds, authentic or not. */
  function Held(file: FileContent): Entries
  {
    if file.Stored? then file.entries else map[]
  }

  /** Marks only move forward: each list keeps its state or gets a strictly
      higher sequence. */
  predicate Advances(m: Entries, m': Entries)
  {
    forall id :: id in m ==> id in m' && (m'[id] == m[id] || m'[id].sequence > m[id].sequence)
  }

  /** The mark of the list stands at this sequence with this content. */
  predicate Stands(m: Entries, st: State)
  {
    st.listID in m && m[st.listID].sequence == st.sequence && m[st.listID].payloadDigest == st.payloadDigest
  }

  /** The list is at this state or beyond it. */
  predicate Reached(m: Entries, st: State)
  {
    Stands(m, st) || (st.listID in m && m[st.listID].sequence > st.sequence)
  }

  lemma FileStepAdvances(k: Keyed, file: FileContent, next: Option<State>, io: Io)
    ensures var (file', code) := FileTransact(k, file, next, io);
            && Advances(Held(file), Held(file'))
            && (code == OK ==> next.Some? && Stands(Held(file'), next.value))
            && (forall id :: next.None? || id != next.value.listID ==> Lookup(Held(file'), id) == Lookup(Held(file), id))
  {
  }

  lemma {:induction false} FileRunAdvances(k: Keyed, file: FileContent, calls: FileCalls)
    ensures Advances(Held(file), Held(RunFile(k, file, calls).0))
    decreases |calls|
  {
    if calls != [] {
      FileStepAdvances(k, file, calls[0].0, calls[0].1);
      FileRunAdvances(k, FileTransact(k, file, calls[0].0, calls[0].1).0, calls[1..]);
    }
  }

  /** What was accepted once stands at the end of the run, or was passed. */
  lemma {:induction false} AcceptedStays(k: Keyed, file: FileContent, calls: FileCalls, i: nat)
    requires i < |calls| && RunFile(k, file, calls).1[i] == OK
    ensures calls[i].0.Some?
    ensures Reached(Held(RunFile(k, file, calls).0), calls[i].0.value)
    decreases |calls|
  {
    var file' := FileTransact(k, file, calls[0].0, calls[0].1).0;
    FileStepAdvances(k, file, calls[0].0, calls[0].1);
    FileRunAdvances(k, file', calls[1..]);
    if i > 0 { AcceptedStays(k, file', calls[1..], i - 1); }
  }

  /** Whole-run anti-replay: of two accepted states of one list, the later has
      no lower sequence, and an equal sequence means equal content. */
  lemma {:induction false} AntiReplay(k: Keyed, file: FileContent, calls: FileCalls, i: nat, j: nat)
    requires i < j < |calls|
    requires RunFile(k, file, calls).1[i] == OK && RunFile(k, file, calls).1[j] == OK
    requires calls[i].0.Some? && calls[j].0.Some? && calls[i].0.value.listID == calls[j].0.value.listID
    ensures calls[i].0.value.sequence <= calls[j].0.value.sequence
    ensures calls[i].0.value.sequence == calls[j].0.value.sequence ==>
              calls[i].0.value.payloadDigest == calls[j].0.value.payloadDigest
    decreases |calls|
  {
    var file' := FileTransact(k, file, calls[0].0, calls[0].1).0;
    FileRunAdvances(k, file', calls[1..]);
    if i > 0 {
      AntiReplay(k, file', calls[1..], i - 1, j - 1);
    } else {
      FileStepAdvances(k, file, calls[0].0, calls[0].1);
      LaterAccepted(k, file', calls[1..], j - 1, calls[0].0.value);
    }
  }

  lemma {:induction false} LaterAccepted(k: Keyed, file: FileContent, calls: FileCalls, j: nat, st: State)
    requires j < |calls| && RunFile(k, file, calls).1[j] == OK
    requires calls[j].0.Some? && calls[j].0.value.listID == st.listID
    requires Reached(Held(file), st)
    ensures calls[j].0.value.sequence >= st.sequence
    ensures calls[j].0.value.sequence == st.sequence ==> calls[j].0.value.payloadDigest == st.payloadDigest
    decreases |calls|
  {
    var file' := FileTransact(k, file, calls[0].0, calls[0].1).0;
    FileStepAdvances(k, file, calls[0].0, calls[0].1);
    FileRunAdvances(k, file', calls[1..]);
    if j > 0 { LaterAccepted(k, file', calls[1..], j - 1, st); }
  }

  /** Accepting again what already stands writes nothing. */
  lemma ReacceptanceWritesNothing(k: Keyed, file: FileContent, st: State, io: Io)
    requires LoadFile(k, file, io.readable).Ok? && Stands(Held(file), st)
    ensures FileTransact(k, file, Some(st), io) == (file, OK)
  {
  }

  /** Looking an accepted list up afterwards finds it at its state, exactly when
      nothing was written or what was written can be read back. */
  lemma AcceptedIsLoaded(k: Keyed, file: FileContent, st: State, io: Io)
    requires FileTransact(k, file, Some(st), io).1 == OK
    ensures var file' := FileTransact(k, file, Some(st), io).0;
            LoadFile(k, file', true).Ok? && Stands(LoadFile(k, file', true).value, st) <==>
            file' == file || k.size(Held(file')) <= MAX_REVOCATION_FILE_SIZE
  {
    FileStepAdvances(k, file, Some(st), io);
  }

  /** Lists that no call names keep their entries. */
  lemma {:induction false} OtherListsUnchanged(k: Keyed, file: FileContent, calls: FileCalls, id: string)
    requires forall c :: c in calls && c.0.Some? ==> c.0.value.listID != id
    ensures Lookup(Held(RunFile(k, file, calls).0), id) == Lookup(Held(file), id)
    decreases |calls|
  {
    if calls != [] {
      assert calls[0] in calls;
      FileStepAdvances(k, file, calls[0].0, calls[0].1);
      OtherListsUnchanged(k, FileTransact(k, file, calls[0].0, calls[0].1).0, calls[1..], id);
    }
  }

  /** The state of a list came from a call that was accepted. */
  ghost predicate FromAccepted(calls: Calls, codes: seq<Code>, st: State)
    requires |codes| == |calls|
  {
    exists i :: 0 <= i < |calls| && calls[i] == Some(st) && codes[i] == OK
  }

  lemma LaterFromAccepted(calls: Calls, codes: seq<Code>, call: Option<State>, code: Code, st: State)
    requires |codes| == |calls| && FromAccepted(calls, codes, st)
    ensures FromAccepted([call] + calls, [code] + codes, st)
  {
    var i :| 0 <= i < |calls| && calls[i] == Some(st) && codes[i] == OK;
    assert ([call] + calls)[i+1] == Some(st) && ([code] + codes)[i+1] == OK;
  }

  /** The mark of each list ends at the initial state or at an accepted call. */
  lemma {:induction false} FinalMarkFrom(m: Entries, calls: Calls, id: string)
    requires id in RunMem(m, calls).0
    ensures var st := RunMem(m, calls).0[id];
            Lookup(m, id) == Some(st) || FromAccepted(calls, RunMem(m, calls).1, st)
    decreases |calls|
  {
    if calls != [] {
      var (m', code) := Transact(m, calls[0]);
      var st := RunMem(m, calls).0[id];
      assert calls == [calls[0]] + calls[1..];
      FinalMarkFrom(m', calls[1..], id);
      if Lookup(m', id) == Some(st) {
        assert Lookup(m, id) == Some(st) || (calls[0] == Some(st) && RunMem(m, calls).1[0] == OK);
      } else {
        LaterFromAccepted(calls[1..], RunMem(m', calls[1..]).1, calls[0], code, st);
      }
    }
  }

  lemma {:induction false} MemRunAdvances(m: Entries, calls: Calls)
    ensures Advances(m, RunMem(m, calls).0)
    decreases |calls|
  {
    if calls != [] { MemRunAdvances(Transact(m, calls[0]).0, calls[1..]); }
  }

  lemma {:induction false} MemAcceptedStays(m: Entries, calls: Calls, i: nat)
    requires i < |calls| && RunMem(m, calls).1[i] == OK
    ensures calls[i].Some? && Reached(RunMem(m, calls).0, calls[i].value)
    decreases |calls|
  {
    MemRunAdvances(Transact(m, calls[0]).0, calls[1..]);
    if i > 0 { MemAcceptedStays(Transact(m, calls[0]).0, calls[1..], i - 1); }
  }

  /** Each list's sequence ends as the maximum of its initial one and the
      accepted ones. */
  lemma FinalMarkIsMaximum(m: Entries, calls: Calls, id: string)
    ensures var (last, codes) := RunMem(m, calls);
            && (id in last ==> Lookup(m, id) == Some(last[id]) || FromAccepted(calls, codes, last[id]))
            && (id in m ==> id in last && last[id].sequence >= m[id].sequence)
            && (forall i :: 0 <= i < |calls| && codes[i] == OK && calls[i].Some? && calls[i].value.listID == id ==>
                  id in last && last[id].sequence >= calls[i].value.sequence)
  {
    var (last, codes) := RunMem(m, calls);
    MemRunAdvances(m, calls);
    if id in last { FinalMarkFrom(m, calls, id); }
    forall i | 0 <= i < |calls| && codes[i] == OK && calls[i].Some? && calls[i].value.listID == id
      ensures id in last && last[id].sequence >= calls[i].value.sequence
    {
      MemAcceptedStays(m, calls, i);
    }
  }

  /** In the file, the mark of each list ends at its initial state or at the
      state of a call that was accepted, or whose write became visible although
      it failed. */
  lemma {:induction false} FinalMarkOfFile(k: Keyed, file: FileContent, calls: FileCalls, id: string)
    requires id in Held(RunFile(k, file, calls).0)
    ensures var st := Held(RunFile(k, file, calls).0)[id];
            || Lookup(Held(file), id) == Some(st)
            || exists i :: 0 <= i < |calls| && Settles(calls[i], RunFile(k, file, calls).1[i], st)
    decreases |calls|
  {
    if calls != [] {
      var (file', code) := FileTransact(k, file, calls[0].0, calls[0].1);
      var codes, codes' := RunFile(k, file, calls).1, RunFile(k, file', calls[1..]).1;
      var st := Held(RunFile(k, file, calls).0)[id];
      assert codes == [code] + codes';
      FinalMarkOfFile(k, file', calls[1..], id);
      if Lookup(Held(file'), id) == Some(st) {
        assert Lookup(Held(file), id) == Some(st) || Settles(calls[0], codes[0], st);
      } else {
        var i :| 0 <= i < |calls[1..]| && Settles(calls[1..][i], codes'[i], st);
        assert Settles(calls[i+1], codes[i+1], st);
      }
    }
  }

  /** A call for `st` that may have put it into the file. */
  predicate Settles(call: (Option<State>, Io), code: Code, st: State)
  {
    call.0 == Some(st) && (code == OK || call.1.write.VisibleButFailed?)
  }

  // ----- The shared lock of a path, and the exclusive-writer registry -----

  class Mutex {
    constructor () {}
  }

  /** Package-level registry: one mutex per normalized path. `norm` is
      normalizeStatePath. */
  class PathLocks {
    const norm: string -> string
    var locks: map<string, Mutex>

    /** Different normalized paths never share a mutex. */
    ghost predicate Valid()
      reads this
    {
      forall a, b :: a in locks && b in locks && a != b ==> locks[a] != locks[b]
    }

    constructor (norm: string -> string)
      ensures Valid() && this.norm == norm && locks == map[]
    {
      this.norm, this.locks := norm, map[];
    }

    /** Two calls ever get the same mutex exactly when their paths normalize
        alike, because registered mutexes are never replaced. */
    method LockFor(path: string) returns (mu: Mutex)
      requires Valid()
      modifies this
      ensures Valid()
      ensures norm(path) in locks && locks[norm(path)] == mu
      ensures forall p :: p in old(locks) ==> p in locks && locks[p] == old(locks)[p]
      ensures forall p :: p in locks ==> p in old(locks) || p == norm(path)
      ensures forall p :: p in locks ==> (locks[p] == mu <==> p == norm(path))
    {
      var key := norm(path);
      if key in locks {
        mu := locks[key];
      } else {
        mu := new Mutex();
        locks := locks[key := mu];
      }
    }
  }

  /** One store as the registry sees it; "" means no reservation. */
  class Reservation {
    var exclusiveKey: string
    var closed: bool

    constructor (key: string)
      ensures exclusiveKey == key && !closed
    {
      exclusiveKey, closed := key, false;
    }
  }

  /** The paths that have an open exclusive writer in this process. */
  class ExclusiveRegistry {
    const norm: string -> string
    var exclusive: set<string>
    ghost var stores: set<Reservation>

    /** A key is registered exactly while one open store holds it. */
    ghost predicate Valid()
      reads this, stores
    {
      && (forall p :: norm(p) != "")
      && (forall s :: s in stores && !s.closed && s.exclusiveKey != "" ==> s.exclusiveKey in exclusive)
      && (forall key :: key in exclusive ==> exists s :: s in stores && !s.closed && s.exclusiveKey == key)
      && (forall s, t :: s in stores && t in stores && !s.closed && !t.closed && s.exclusiveKey == t.exclusiveKey != "" ==> s == t)
      && "" !in exclusive
    }

    constructor (norm: string -> string)
      requires forall p :: norm(p) != ""
      ensures Valid() && this.norm == norm && exclusive == {} && stores == {}
    {
      this.norm, this.exclusive, this.stores := norm, {}, {};
    }

    /** A store without the guardrail takes no reservation. */
    method NewPlain(path: string, key: string) returns (r: Result<Reservation>)
      requires Valid()
      modifies this
      ensures Valid() && exclusive == old(exclusive)
      ensures r.Err? <==> path == "" || key == ""
      ensures r.Err? ==> r.code == RevocationStateIntegrityFailure && stores == old(stores)
      ensures r.Ok? ==> fresh(r.value) && !r.value.closed && r.value.exclusiveKey == "" && stores == old(stores) + {r.value}
    {
      if path == "" || key == "" { return Err(RevocationStateIntegrityFailure); }
      var s := new Reservation("");
      stores := stores + {s};
      return Ok(s);
    }

    /** Fails exactly when the path or the key is empty, or an open exclusive
        store already holds the path. */
    method NewExclusive(path: string, key: string) returns (r: Result<Reservation>)
      requires Valid()
      modifies this
      ensures Valid()
      ensures r.Err? <==> path == "" || key == ""
                          || exists s :: s in old(stores) && !old(s.closed) && old(s.exclusiveKey) == norm(path)
      ensures r.Err? ==> r.code == RevocationStateIntegrityFailure && exclusive == old(exclusive) && stores == old(stores)
      ensures r.Ok? ==> && fresh(r.value) && r.value.exclusiveKey == norm(path) && !r.value.closed
                        && stores == old(stores) + {r.value} && exclusive == old(exclusive) + {norm(path)}
    {
      if path == "" || key == "" { return Err(RevocationStateIntegrityFailure); }
      if norm(path) in exclusive {
        return Err(RevocationStateIntegrityFailure);
      }
      var s := new Reservation(norm(path));
      exclusive := exclusive + {norm(path)};
      stores := stores + {s};
      assert forall t :: t in old(stores) ==> t != s;
      return Ok(s);
    }

    /** Releases the reservation of `s` once; closing again releases nothing,
        even if another store has since reserved the same path. */
    method Close(s: Reservation)
      requires Valid() && s in stores
      modifies this`exclusive, s`closed
      ensures Valid() && s.closed
      ensures exclusive == if old(s.closed) || s.exclusiveKey == "" then old(exclusive) else old(exclusive) - {s.exclusiveKey}
    {
      if s.closed { return; }
      s.closed := true;
      if s.exclusiveKey == "" { return; }
      exclusive := exclusive - {s.exclusiveKey};
    }
  }
}
