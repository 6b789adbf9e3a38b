/** What a caller can conclude about the disk from what it saw: exactly the
    records that were there at boot or whose save was acknowledged are safe. */
module Evidence {
  import opened Text
  import opened DurableStore

  /** No process can tell the two states apart; what is on the disk may differ. */
  ghost predicate LooksAlike<T, I>(a: St<T, I>, b: St<T, I>)
  {
    a.pc == b.pc && a.saved == b.saved && a.acked == b.acked && SameView(a.fs, b.fs)
  }

  /** `later` begins with a history that looks like `run`. */
  ghost predicate BeginsLike<T(!new), I(!new)>(run: seq<St<T, I>>, later: seq<St<T, I>>)
  {
    |run| <= |later| && forall k :: 0 <= k < |run| ==> LooksAlike(run[k], later[k])
  }

  ghost predicate StepWithoutCrash<T(!new), I(!new)>(P: Policy<T, I>, s: St<T, I>, s': St<T, I>)
  {
    Begin(P, s, s') || CallStep(P, s, s') || BackgroundStep(s, s')
  }

  /** A history since the machine last booted. */
  ghost predicate SinceBoot<T(!new), I(!new)>(P: Policy<T, I>, run: seq<St<T, I>>)
  {
    run != [] && Init(P, run[0]) && forall k :: 0 <= k < |run| - 1 ==> StepWithoutCrash(P, run[k], run[k+1])
  }

  /** A crash at any moment of any run starts such a history. */
  lemma CrashBoots<T(!new), I(!new)>(P: Policy<T, I>, run: seq<St<T, I>>, k: nat)
    requires Lawful(P) && IsRun(P, run) && k < |run|
    ensures SinceBoot(P, [St(Crashed(run[k].fs), Idle, run[k].saved, [])])
  {
    RunInv(P, run, k);
  }

  /** A complete and good record. */
  predicate Holds<T>(content: Option<Blob<T>>, good: T -> bool)
  {
    content.Some? && content.value.Whole? && good(content.value.value)
  }

  /** What a caller knows: a good record was in the file at boot, or the save of
      one was acknowledged since. */
  ghost predicate Evident<T, I>(path: Name, run: seq<St<T, I>>, good: T -> bool)
    requires run != []
  {
    || Holds(Content(run[0].fs, path), good)
    || (exists a :: a in run[|run|-1].acked && good(a.0))
  }

  /** A crash now would leave a good record. */
  ghost predicate Safe<T>(fs: FS<T>, path: Name, good: T -> bool)
  {
    Holds(DurableContent(fs, path), good)
  }

  /** A record that is at least a good one is good. */
  ghost predicate Upward<T(!new), I(!new)>(P: Policy<T, I>, good: T -> bool)
  {
    forall a, b :: P.le(a, b) && good(a) ==> good(b)
  }

  /** Evidence is never refuted, by any failure or crash. */
  lemma EvidentIsSafe<T(!new), I(!new)>(P: Policy<T, I>, run: seq<St<T, I>>, good: T -> bool, later: seq<St<T, I>>)
    requires Lawful(P) && Upward(P, good) && run != [] && Evident(P.path, run, good)
    requires IsRun(P, later) && BeginsLike(run, later)
    ensures Safe(later[|later|-1].fs, P.path, good)
  {
    assert LooksAlike(run[0], later[0]) && LooksAlike(run[|run|-1], later[|run|-1]);
    if Holds(Content(run[0].fs, P.path), good) {
      RunInv(P, later, 0);
      DurableMonotone(P, later, 0, |later| - 1);
      assert DurableContent(later[0].fs, P.path) == Content(run[0].fs, P.path);
    } else {
      var a :| a in run[|run|-1].acked && good(a.0);
      AcknowledgedIsDurable(P, later, |run| - 1, |later| - 1, a.0, a.1);
    }
  }

  // ----- The history that looks the same with the laziest possible disk -----

  function WithDisk<T, I>(s: St<T, I>, disk: map<Name, nat>): St<T, I>
  {
    s.(fs := s.fs.(diskDir := disk))
  }

  ghost predicate SyncsDir<T, I>(s: St<T, I>, s': St<T, I>)
  {
    s.pc.SyncingDir? && s'.pc.Cleaning? && s'.pc.ack.Some?
  }

  /** The lazy disk: its directory changes only when an fsync makes it. */
  ghost function LazyDisk<T, I>(s: St<T, I>, s': St<T, I>, disk: map<Name, nat>): map<Name, nat>
  {
    if SyncsDir(s, s') then s'.fs.dir else disk
  }

  lemma LazyStep<T(!new), I(!new)>(P: Policy<T, I>, s: St<T, I>, s': St<T, I>, disk: map<Name, nat>)
    requires StepWithoutCrash(P, s, s')
    ensures StepWithoutCrash(P, WithDisk(s, disk), WithDisk(s', LazyDisk(s, s', disk)))
  {
    if Begin(P, s, s') {
      LazyBegin(P, s, s', disk);
    } else if CallStep(P, s, s') {
      LazyCall(P, s, s', disk);
    } else {
      LazyBackground(s, s', disk);
    }
  }

  lemma LazyBegin<T(!new), I(!new)>(P: Policy<T, I>, s: St<T, I>, s': St<T, I>, disk: map<Name, nat>)
    requires Begin(P, s, s')
    ensures Begin(P, WithDisk(s, disk), WithDisk(s', disk))
  {
    assert Loaded(P, WithDisk(s, disk).fs) == Loaded(P, s.fs);
  }

  lemma LazyCall<T(!new), I(!new)>(P: Policy<T, I>, s: St<T, I>, s': St<T, I>, disk: map<Name, nat>)
    requires CallStep(P, s, s')
    ensures CallStep(P, WithDisk(s, disk), WithDisk(s', LazyDisk(s, s', disk)))
  {
    if s.pc.Creating? && s'.pc.Writing? {
      var id: nat :| CreateAs(s.fs, s'.fs, s'.pc.tmp, id);
      assert CreateAs(WithDisk(s, disk).fs, WithDisk(s', disk).fs, s'.pc.tmp, id);
    }
  }

  lemma LazyBackground<T(!new), I(!new)>(s: St<T, I>, s': St<T, I>, disk: map<Name, nat>)
    requires BackgroundStep(s, s')
    ensures BackgroundStep(WithDisk(s, disk), WithDisk(s', disk))
  {
    if id: nat, content: Blob<T> :| WrittenBackData(s.fs, s'.fs, id, content) {
      assert WrittenBackData(WithDisk(s, disk).fs, WithDisk(s', disk).fs, id, content);
    } else {
      var fs := WithDisk(s, disk).fs;
      var name := FreshName(fs.dir.Keys + disk.Keys);
      assert disk - {name} == disk;
      assert WithDisk(s', disk).fs == fs == WrittenBackEntry(fs, name);
    }
  }

  /** The record on the disk was there at boot, was acknowledged, or is about to
      be. */
  ghost predicate OnlyEvident<T, I>(P: Policy<T, I>, s: St<T, I>, first: Option<Blob<T>>)
  {
    var d := DurableContent(s.fs, P.path);
    || d.None? || d == first
    || (exists a :: a in s.acked && d == Some(Whole(a.0)))
    || (s.pc.Cleaning? && s.pc.ack.Some? && d == Some(Whole(s.pc.ack.value.0)))
  }

  lemma LazyKeeps<T(!new), I(!new)>(P: Policy<T, I>, s: St<T, I>, s': St<T, I>, first: Option<Blob<T>>)
    requires Lawful(P) && Inv(P, s) && StepWithoutCrash(P, s, s')
    requires s'.fs.diskDir == LazyDisk(s, s', s.fs.diskDir)
    requires OnlyEvident(P, s, first)
    ensures OnlyEvident(P, s', first)
  {
    if Begin(P, s, s') {
      BeginKeeps(P, s, s');
    } else if CallStep(P, s, s') {
      LazyCallKeeps(P, s, s', first);
    } else {
      assert DurableContent(s'.fs, P.path) == DurableContent(s.fs, P.path);
    }
  }

  lemma LazyCallKeeps<T(!new), I(!new)>(P: Policy<T, I>, s: St<T, I>, s': St<T, I>, first: Option<Blob<T>>)
    requires Lawful(P) && Inv(P, s) && CallStep(P, s, s')
    requires s'.fs.diskDir == LazyDisk(s, s', s.fs.diskDir)
    requires OnlyEvident(P, s, first)
    ensures OnlyEvident(P, s', first)
  {
    if SyncsDir(s, s') {
      assert DurableContent(s'.fs, P.path) == Some(Whole(s.pc.v));
    } else {
      assert DurableContent(s'.fs, P.path) == DurableContent(s.fs, P.path);
      if s.pc.Cleaning? && s.pc.ack.Some? { assert s.pc.ack.value in s'.acked; }
    }
  }

  ghost predicate IsLazy<T(!new), I(!new)>(P: Policy<T, I>, run: seq<St<T, I>>, lazy: seq<St<T, I>>)
    requires run != []
  {
    && IsRun(P, lazy) && |lazy| == |run| && BeginsLike(run, lazy)
    && lazy[|lazy|-1] == WithDisk(run[|run|-1], lazy[|lazy|-1].fs.diskDir)
    && OnlyEvident(P, lazy[|lazy|-1], Content(run[0].fs, P.path))
  }

  /** A history that looks the same, with the laziest disk. */
  lemma {:induction false} LazyHistory<T(!new), I(!new)>(P: Policy<T, I>, run: seq<St<T, I>>) returns (lazy: seq<St<T, I>>)
    requires Lawful(P) && SinceBoot(P, run)
    ensures IsLazy(P, run, lazy)
    decreases |run|
  {
    if |run| == 1 {
      lazy := run;
    } else {
      var init, s' := run[..|run|-1], run[|run|-1];
      SinceBootPrefix(P, run);
      lazy := LazyHistory(P, init);
      lazy := LazyExtend(P, init, lazy, s');
      assert init + [s'] == run;
    }
  }

  lemma SinceBootPrefix<T(!new), I(!new)>(P: Policy<T, I>, run: seq<St<T, I>>)
    requires SinceBoot(P, run) && |run| > 1
    ensures SinceBoot(P, run[..|run|-1]) && StepWithoutCrash(P, run[|run|-2], run[|run|-1])
  {
    assert StepWithoutCrash(P, run[|run|-2], run[|run|-2+1]);
  }

  lemma LazyExtend<T(!new), I(!new)>(P: Policy<T, I>, init: seq<St<T, I>>, lazy: seq<St<T, I>>, s': St<T, I>)
    returns (longer: seq<St<T, I>>)
    requires Lawful(P) && init != [] && IsLazy(P, init, lazy) && StepWithoutCrash(P, init[|init|-1], s')
    ensures IsLazy(P, init + [s'], longer)
  {
    var s, t := init[|init|-1], lazy[|lazy|-1];
    var t' := WithDisk(s', LazyDisk(s, s', t.fs.diskDir));
    LazyStep(P, s, s', t.fs.diskDir);
    RunInv(P, lazy, |lazy| - 1);
    LazyKeeps(P, t, t', Content(init[0].fs, P.path));
    longer := lazy + [t'];
    LongerRun(P, lazy, t');
    LongerLike(init + [s'], lazy, t');
  }

  lemma LongerRun<T(!new), I(!new)>(P: Policy<T, I>, run: seq<St<T, I>>, last: St<T, I>)
    requires IsRun(P, run) && Next(P, run[|run|-1], last)
    ensures IsRun(P, run + [last])
  {
  }

  lemma LongerLike<T(!new), I(!new)>(run: seq<St<T, I>>, init: seq<St<T, I>>, last: St<T, I>)
    requires |run| == |init| + 1 && BeginsLike(run[..|init|], init) && LooksAlike(run[|init|], last)
    ensures BeginsLike(run, init + [last])
  {
    forall k | 0 <= k < |run| ensures LooksAlike(run[k], (init + [last])[k]) {
      if k < |init| { assert run[..|init|][k] == run[k]; }
    }
  }

  /** Between calls, a good record is safe in every continuation of every history
      that looks like this one, with any failures and crashes, exactly when the
      caller has evidence for a good record. */
  lemma SafeExactlyWhenEvident<T(!new), I(!new)>(P: Policy<T, I>, run: seq<St<T, I>>, good: T -> bool)
    requires Lawful(P) && Upward(P, good) && SinceBoot(P, run) && run[|run|-1].pc == Idle
    ensures Evident(P.path, run, good) <==>
            forall later: seq<St<T, I>> :: IsRun(P, later) && BeginsLike(run, later) ==> Safe(later[|later|-1].fs, P.path, good)
  {
    if Evident(P.path, run, good) {
      forall later: seq<St<T, I>> | IsRun(P, later) && BeginsLike(run, later) ensures Safe(later[|later|-1].fs, P.path, good) {
        EvidentIsSafe(P, run, good, later);
      }
    } else {
      var lazy := LazyHistory(P, run);
      if Safe(lazy[|lazy|-1].fs, P.path, good) {
        assert Evident(P.path, run, good);
      }
    }
  }
}
