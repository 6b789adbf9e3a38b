/** Any number of threads, each using any store instance on one normalized
    path, interleaved step by step: the outcome is that of the calls run one by
    one in lock order. */
module Linearizability {
  import opened Text
  import opened Model
  import opened RevocationState

  type Tid = nat

  /** One call with the I/O fate it will meet. A nil state returns before the
      lock and is not a call here. */
  datatype Call = Call(next: State, io: Io)

  datatype Pc =
    | Idle
    | Waiting(call: Call)
    | Locked(call: Call)
    | HasRead(call: Call, loaded: Result<Entries>)
    | Writing(call: Call, entries: Entries)
    | Leaving(call: Call, code: Code)

  /** The shared file, the path's mutex, the threads, the calls in the order
      they took the lock, and the codes in the order they were returned. */
  datatype St = St(file: FileContent, holder: Option<Tid>, pcs: map<Tid, Pc>, log: seq<(Tid, Call)>, returned: seq<(Tid, Code)>)

  function PcOf(s: St, t: Tid): Pc
  {
    if t in s.pcs then s.pcs[t] else Idle
  }

  predicate InSection(pc: Pc)
  {
    pc.Locked? || pc.HasRead? || pc.Writing? || pc.Leaving?
  }

  function At(s: St, t: Tid, pc: Pc): St
  {
    s.(pcs := s.pcs[t := pc])
  }

  // ----- One step of one thread -----

  /** After the read: classify, and either finish or go on to write. */
  function Decide(call: Call, loaded: Result<Entries>): Pc
  {
    match loaded
    case Err(code) => Leaving(call, code)
    case Ok(entries) =>
      match Classify(Lookup(entries, call.next.listID), Some(call.next))
      case Reject(code) => Leaving(call, code)
      case Unchanged => Leaving(call, OK)
      case Write => Writing(call, entries[call.next.listID := call.next])
  }

  ghost predicate Step(k: Keyed, s: St, s': St, t: Tid)
  {
    match PcOf(s, t)
    case Idle => exists call :: s' == At(s, t, Waiting(call))
    case Waiting(call) =>
      s.holder.None? && s' == At(s, t, Locked(call)).(holder := Some(t), log := s.log + [(t, call)])
    case Locked(call) => s' == At(s, t, HasRead(call, LoadFile(k, s.file, call.io.readable)))
    case HasRead(call, loaded) => s' == At(s, t, Decide(call, loaded))
    case Writing(call, entries) =>
      var (file', code) := WriteFile(k, s.file, entries, call.io.write);
      s' == At(s, t, Leaving(call, code)).(file := file')
    case Leaving(call, code) =>
      s' == At(s, t, Idle).(holder := None, returned := s.returned + [(t, code)])
  }

  ghost predicate Init(s: St)
  {
    s.holder.None? && s.log == [] && s.returned == [] && forall t: Tid :: PcOf(s, t).Idle?
  }

  ghost predicate Next(k: Keyed, s: St, s': St)
  {
    exists t: Tid :: Step(k, s, s', t)
  }

  ghost predicate IsRun(k: Keyed, run: seq<St>)
  {
    run != [] && Init(run[0]) && forall n :: 0 <= n < |run| - 1 ==> Next(k, run[n], run[n+1])
  }

  // ----- The sequential run in lock order -----

  function Sequential(log: seq<(Tid, Call)>): (r: FileCalls)
    ensures |r| == |log|
  {
    if log == [] then [] else Sequential(log[..|log|-1]) + [(Some(log[|log|-1].1.next), log[|log|-1].1.io)]
  }

  lemma {:induction false} RunFileSnoc(k: Keyed, file: FileContent, calls: FileCalls, c: (Option<State>, Io))
    ensures var (mid, codes) := RunFile(k, file, calls);
            var (last, code) := FileTransact(k, mid, c.0, c.1);
            RunFile(k, file, calls + [c]) == (last, codes + [code])
    decreases |calls|
  {
    if calls == [] {
      assert calls + [c] == [c];
      var one := [c];
      assert one[0] == c && one[1..] == [];
      var code := FileTransact(k, file, c.0, c.1).1;
      assert RunFile(k, file, calls).1 + [code] == [code] + RunFile(k, FileTransact(k, file, c.0, c.1).0, []).1;
    } else {
      var file' := FileTransact(k, file, calls[0].0, calls[0].1).0;
      assert (calls + [c])[1..] == calls[1..] + [c] && (calls + [c])[0] == calls[0];
      RunFileSnoc(k, file', calls[1..], c);
      var first := FileTransact(k, file, calls[0].0, calls[0].1).1;
      var (mid, codes) := RunFile(k, file', calls[1..]);
      var code := FileTransact(k, mid, c.0, c.1).1;
      assert RunFile(k, file, calls + [c]).1 == [first] + (codes + [code]);
      assert [first] + (codes + [code]) == ([first] + codes) + [code];
    }
  }

  lemma LockOrderSnoc(k: Keyed, file: FileContent, log: seq<(Tid, Call)>, e: (Tid, Call))
    ensures var (mid, codes) := RunFile(k, file, Sequential(log));
            var (last, code) := FileTransact(k, mid, Some(e.1.next), e.1.io);
            RunFile(k, file, Sequential(log + [e])) == (last, codes + [code])
  {
    assert (log + [e])[..|log|] == log;
    RunFileSnoc(k, file, Sequential(log), (Some(e.1.next), e.1.io));
  }

  // ----- The invariant -----

  /** The codes returned so far are those of the sequential run, for the same
      threads. */
  ghost predicate Agrees(returned: seq<(Tid, Code)>, log: seq<(Tid, Call)>, codes: seq<Code>)
  {
    |returned| == |log| == |codes| && forall i :: 0 <= i < |log| ==> returned[i] == (log[i].0, codes[i])
  }

  /** What the holder of the lock has established so far, against the file
      `before` its call. */
  ghost predicate Progress(k: Keyed, before: FileContent, now: FileContent, pc: Pc)
  {
    match pc
    case Locked(_) => now == before
    case HasRead(call, loaded) => now == before && loaded == LoadFile(k, before, call.io.readable)
    case Writing(call, entries) =>
      now == before && FileTransact(k, before, Some(call.next), call.io) == WriteFile(k, before, entries, call.io.write)
    case Leaving(call, code) => (now, code) == FileTransact(k, before, Some(call.next), call.io)
    case _ => false
  }

  /** Exactly the holder of the lock is inside the section. */
  ghost predicate Exclusive(s: St)
  {
    forall t: Tid :: InSection(PcOf(s, t)) <==> s.holder == Some(t)
  }

  /** The sequential run of the calls in lock order. */
  function InOrder(k: Keyed, init: FileContent, log: seq<(Tid, Call)>): (FileContent, seq<Code>)
  {
    RunFile(k, init, Sequential(log))
  }

  ghost predicate Free(k: Keyed, init: FileContent, s: St)
  {
    var (file, codes) := InOrder(k, init, s.log);
    s.file == file && Agrees(s.returned, s.log, codes)
  }

  ghost predicate Held(k: Keyed, init: FileContent, s: St, t: Tid)
  {
    && s.log != []
    && var earlier := s.log[..|s.log|-1];
       var (file, codes) := InOrder(k, init, earlier);
       && Agrees(s.returned, earlier, codes)
       && InSection(PcOf(s, t)) && s.log[|s.log|-1] == (t, PcOf(s, t).call)
       && Progress(k, file, s.file, PcOf(s, t))
  }

  ghost predicate Inv(k: Keyed, init: FileContent, s: St)
  {
    Exclusive(s) && (if s.holder.None? then Free(k, init, s) else Held(k, init, s, s.holder.value))
  }

  lemma StepExclusive(k: Keyed, s: St, s': St, t: Tid)
    requires Exclusive(s) && Step(k, s, s', t)
    ensures Exclusive(s')
  {
    assert InSection(PcOf(s, t)) <==> s.holder == Some(t);
    forall u: Tid ensures InSection(PcOf(s', u)) <==> s'.holder == Some(u) {
      assert u != t ==> PcOf(s', u) == PcOf(s, u);
      assert InSection(PcOf(s, u)) <==> s.holder == Some(u);
    }
  }

  /** Taking the lock puts the call next in the sequential order. */
  lemma AcquireKeeps(k: Keyed, init: FileContent, s: St, s': St, t: Tid)
    requires s.holder.None? && Free(k, init, s) && PcOf(s, t).Waiting? && Step(k, s, s', t)
    ensures s'.holder == Some(t) && Held(k, init, s', t)
  {
    assert s'.log[..|s'.log|-1] == s.log;
  }

  /** Inside the section only the holder moves, and it computes its call. */
  lemma SectionKeeps(k: Keyed, init: FileContent, s: St, s': St, t: Tid)
    requires Held(k, init, s, t) && !PcOf(s, t).Leaving? && Step(k, s, s', t)
    ensures Held(k, init, s', t) && s'.holder == s.holder
  {
    var file := InOrder(k, init, s.log[..|s.log|-1]).0;
    assert Progress(k, file, s'.file, PcOf(s', t));
  }

  lemma ReleaseKeeps(k: Keyed, init: FileContent, s: St, s': St, t: Tid)
    requires Held(k, init, s, t) && PcOf(s, t).Leaving? && Step(k, s, s', t)
    ensures s'.holder.None? && Free(k, init, s')
  {
    var earlier := s.log[..|s.log|-1];
    assert s.log == earlier + [s.log[|s.log|-1]];
    LockOrderSnoc(k, init, earlier, s.log[|s.log|-1]);
  }

  lemma StepKeeps(k: Keyed, init: FileContent, s: St, s': St, t: Tid)
    requires Inv(k, init, s) && Step(k, s, s', t)
    ensures Inv(k, init, s')
  {
    StepExclusive(k, s, s', t);
    assert InSection(PcOf(s, t)) <==> s.holder == Some(t);
    if PcOf(s, t).Waiting? {
      AcquireKeeps(k, init, s, s', t);
    } else if PcOf(s, t).Leaving? {
      ReleaseKeeps(k, init, s, s', t);
    } else if InSection(PcOf(s, t)) {
      SectionKeeps(k, init, s, s', t);
    } else if s.holder.Some? {
      assert PcOf(s', s.holder.value) == PcOf(s, s.holder.value);
    }
  }

  lemma {:induction false} RunInv(k: Keyed, run: seq<St>, n: nat)
    requires IsRun(k, run) && n < |run|
    ensures Inv(k, run[0].file, run[n])
  {
    if n > 0 {
      RunInv(k, run, n - 1);
      assert Next(k, run[n-1], run[n-1+1]);
      var t: Tid :| Step(k, run[n-1], run[n-1+1], t);
      StepKeeps(k, run[0].file, run[n-1], run[n], t);
    }
  }

  /** Linearizability: in every interleaving, at every moment, no two threads are
      inside the section together and the codes returned so far are those of
      the calls run one by one in lock order; whenever the lock is free, so is
      the file. */
  lemma Linearizable(k: Keyed, run: seq<St>, n: nat)
    requires IsRun(k, run) && n < |run|
    ensures Exclusive(run[n])
    ensures |run[n].returned| <= |run[n].log| <= |run[n].returned| + 1
    ensures var done := run[n].log[..|run[n].returned|];
            Agrees(run[n].returned, done, InOrder(k, run[0].file, done).1)
    ensures run[n].holder.None? ==>
              var (file, codes) := InOrder(k, run[0].file, run[n].log);
              run[n].file == file && Agrees(run[n].returned, run[n].log, codes)
  {
    RunInv(k, run, n);
    assert run[n].holder.None? ==> run[n].log[..|run[n].returned|] == run[n].log;
  }

  /** The lock order and the returned codes are only ever extended. */
  lemma {:induction false} LogGrows(k: Keyed, run: seq<St>, m: nat, n: nat)
    requires IsRun(k, run) && m <= n < |run|
    ensures run[m].log <= run[n].log && run[m].returned <= run[n].returned
    decreases n - m
  {
    if m < n {
      assert Next(k, run[m], run[m+1]);
      LogGrows(k, run, m + 1, n);
    }
  }

  /** A step moves only the thread that takes it. */
  lemma MoverIs(k: Keyed, s: St, s': St, u: Tid, t: Tid)
    requires Step(k, s, s', u) && PcOf(s', t) != PcOf(s, t)
    ensures u == t
  {
  }

  /** The lock order respects real time: a call that returned by moment `m`
      comes before any call invoked from then on (at `p`, by thread `t`, which
      took the lock at `q`). */
  lemma RealTimeOrder(k: Keyed, run: seq<St>, i: nat, m: nat, p: nat, q: nat, t: Tid)
    requires IsRun(k, run) && m <= p < q < |run| - 1 && i < |run[m].returned|
    requires PcOf(run[p], t).Idle? && PcOf(run[p+1], t).Waiting?
    requires PcOf(run[q], t).Waiting? && PcOf(run[q+1], t).Locked?
    ensures var j := |run[q].log|;
            && i < j && |run[q+1].log| == j + 1
            && run[q+1].log[j] == (t, PcOf(run[q], t).call)
            && i < |run[m].log| && run[q+1].log[i] == run[m].log[i] && run[m].returned[i].0 == run[m].log[i].0
  {
    Linearizable(k, run, m);
    LogGrows(k, run, m, q);
    assert Next(k, run[q], run[q+1]);
    var u: Tid :| Step(k, run[q], run[q+1], u);
    MoverIs(k, run[q], run[q+1], u, t);
    assert run[m].returned[i] == (run[m].log[..|run[m].returned|][i].0, InOrder(k, run[0].file, run[m].log[..|run[m].returned|]).1[i]);
  }

  lemma {:induction false} SequentialAt(log: seq<(Tid, Call)>, i: nat)
    requires i < |log|
    ensures Sequential(log)[i] == (Some(log[i].1.next), log[i].1.io)
  {
    if i < |log| - 1 { SequentialAt(log[..|log|-1], i); }
  }

  /** The call at position `i` of the lock order was accepted. */
  predicate Accepted(s: St, i: nat)
  {
    i < |s.log| && i < |s.returned| && s.returned[i].1 == OK
  }

  /** Each accepted call, by any thread, stands in the file or was passed. */
  lemma AcceptedStands(k: Keyed, run: seq<St>, n: nat, i: nat)
    requires IsRun(k, run) && n < |run| && run[n].holder.None? && Accepted(run[n], i)
    ensures Reached(RevocationState.Held(run[n].file), run[n].log[i].1.next)
  {
    var s := run[n];
    Linearizable(k, run, n);
    SequentialAt(s.log, i);
    FileRunAdvances(k, run[0].file, Sequential(s.log));
    AcceptedStays(k, run[0].file, Sequential(s.log), i);
  }

  /** Of two accepted states of one list the one that took the lock later is
      not older, and an equal sequence means equal content. */
  lemma AcceptedInOrder(k: Keyed, run: seq<St>, n: nat, i: nat, j: nat)
    requires IsRun(k, run) && n < |run| && run[n].holder.None?
    requires i < j && Accepted(run[n], i) && Accepted(run[n], j)
    requires run[n].log[i].1.next.listID == run[n].log[j].1.next.listID
    ensures var a, b := run[n].log[i].1.next, run[n].log[j].1.next;
            a.sequence <= b.sequence && (a.sequence == b.sequence ==> a.payloadDigest == b.payloadDigest)
  {
    var s := run[n];
    Linearizable(k, run, n);
    SequentialAt(s.log, i);
    SequentialAt(s.log, j);
    FileRunAdvances(k, run[0].file, Sequential(s.log));
    AntiReplay(k, run[0].file, Sequential(s.log), i, j);
  }

  /** Where a list's final state came from: it was there at the start, or a call
      for it was accepted, or such a call failed after its write became
      visible. */
  lemma FinalStateFrom(k: Keyed, run: seq<St>, n: nat, id: string)
    requires IsRun(k, run) && n < |run| && run[n].holder.None? && id in RevocationState.Held(run[n].file)
    ensures var s, st := run[n], RevocationState.Held(run[n].file)[id];
            || Lookup(RevocationState.Held(run[0].file), id) == Some(st)
            || exists i: nat :: i < |s.log| && s.log[i].1.next == st && (Accepted(s, i) || s.log[i].1.io.write.VisibleButFailed?)
  {
    var s := run[n];
    var calls := Sequential(s.log);
    Linearizable(k, run, n);
    FileRunAdvances(k, run[0].file, calls);
    FinalMarkOfFile(k, run[0].file, calls, id);
    var st := RevocationState.Held(s.file)[id];
    if Lookup(RevocationState.Held(run[0].file), id) != Some(st) {
      var i :| 0 <= i < |calls| && Settles(calls[i], RunFile(k, run[0].file, calls).1[i], st);
      SequentialAt(s.log, i);
      assert s.log[i].1.next == st;
    }
  }

  /** No update is lost: whenever the lock is free, each list's sequence in the
      file is the maximum of its initial one and all accepted ones. It is
      attained by one of them unless a write failed after it became visible. */
  lemma NoUpdateLost(k: Keyed, run: seq<St>, n: nat, id: string)
    requires IsRun(k, run) && n < |run| && run[n].holder.None?
    ensures var s, first, last := run[n], RevocationState.Held(run[0].file), RevocationState.Held(run[n].file);
            && (id in first ==> id in last && last[id].sequence >= first[id].sequence)
            && (forall i: nat :: Accepted(s, i) && s.log[i].1.next.listID == id ==>
                  id in last && last[id].sequence >= s.log[i].1.next.sequence)
            && (id in last && (forall i: nat :: i < |s.log| ==> !s.log[i].1.io.write.VisibleButFailed?) ==>
                  || Lookup(first, id) == Some(last[id])
                  || exists i: nat :: Accepted(s, i) && s.log[i].1.next == last[id])
  {
    var s, last := run[n], RevocationState.Held(run[n].file);
    Linearizable(k, run, n);
    FileRunAdvances(k, run[0].file, Sequential(s.log));
    forall i: nat | Accepted(s, i) && s.log[i].1.next.listID == id
      ensures id in last && last[id].sequence >= s.log[i].1.next.sequence
    {
      AcceptedStands(k, run, n, i);
    }
    if id in last { FinalStateFrom(k, run, n, id); }
  }
}
