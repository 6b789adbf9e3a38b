/** Power loss during a key commit, when the disk may hold any mixture of the
    directory entries since the last directory fsync. */
module KeyCrash {
  import opened Text
  import opened KeyCommit

  /** A directory that a power loss may leave: each name as it was at some
      moment since the last directory fsync, independently of the others. */
  ghost predicate CrashDir(history: seq<Files>, s: Files)
  {
    forall name: Name :: FromMoment(history, s, name)
  }

  ghost predicate FromMoment(history: seq<Files>, s: Files, name: Name)
  {
    exists i :: 0 <= i < |history| && Lookup(s, name) == Lookup(history[i], name)
  }

  /** Whatever a power loss leaves, a complete private key is still there. */
  ghost predicate CrashSafe(history: seq<Files>, before: Files, n: Names)
    requires n.privTmp in before
  {
    forall s :: CrashDir(history, s) ==> PrivateSurvives(s, before, n)
  }

  /** The name held a private key at every moment. */
  ghost predicate HeldUnder(history: seq<Files>, before: Files, n: Names, name: Name)
    requires n.privPath in before && n.privTmp in before
  {
    forall i :: 0 <= i < |history| ==> HoldsPrivate(history[i], before, n, name)
  }

  /** A moment at which the name held no private key, if there is one. */
  ghost function BadMoment(history: seq<Files>, before: Files, n: Names, name: Name): (i: nat)
    requires n.privPath in before && n.privTmp in before && history != []
    ensures i < |history|
    ensures !HeldUnder(history, before, n, name) ==> !HoldsPrivate(history[i], before, n, name)
  {
    if HeldUnder(history, before, n, name) then 0
    else
      var i :| 0 <= i < |history| && !HoldsPrivate(history[i], before, n, name);
      i
  }

  /** The worst directory: each name at a moment when it held no private key. */
  ghost function WorstDir(history: seq<Files>, before: Files, n: Names): Files
    requires n.privPath in before && n.privTmp in before && history != []
  {
    map i, name | 0 <= i < |history| && name in history[i] && i == BadMoment(history, before, n, name) :: name := history[i][name]
  }

  lemma WorstDirIsCrashDir(history: seq<Files>, before: Files, n: Names)
    requires n.privPath in before && n.privTmp in before && history != []
    ensures CrashDir(history, WorstDir(history, before, n))
  {
    var s := WorstDir(history, before, n);
    forall name: Name ensures FromMoment(history, s, name) {
      var i := BadMoment(history, before, n, name);
      assert Lookup(s, name) == Lookup(history[i], name);
    }
  }

  /** A private key survives every power loss exactly when some one name held
      one at every moment since the last directory fsync. */
  lemma CrashSafeExactly(history: seq<Files>, before: Files, n: Names)
    requires n.privPath in before && n.privTmp in before && history != []
    ensures CrashSafe(history, before, n) <==> exists name: Name :: HeldUnder(history, before, n, name)
  {
    if name: Name :| HeldUnder(history, before, n, name) {
      forall s | CrashDir(history, s) ensures PrivateSurvives(s, before, n) {
        assert FromMoment(history, s, name);
        assert HoldsPrivate(s, before, n, name);
      }
    }
    if CrashSafe(history, before, n) {
      var s := WorstDir(history, before, n);
      WorstDirIsCrashDir(history, before, n);
      var name: Name :| HoldsPrivate(s, before, n, name);
      assert HoldsPrivate(history[BadMoment(history, before, n, name)], before, n, name);
      assert HeldUnder(history, before, n, name);
    }
  }

  /** Until the first fsync of a commit succeeds, only the target's own name can
      be that name, because `before`, with which the commit started, is among
      the directories since the last fsync. */
  lemma TargetDecides(history: seq<Files>, before: Files, n: Names, m: nat)
    requires n.privPath in before && n.privTmp in before && m < |history| && history[m] == before
    ensures CrashSafe(history, before, n) <==> HeldSince(history, 0, before, n)
  {
    CrashSafeExactly(history, before, n);
    if HeldSince(history, 0, before, n) {
      assert HeldUnder(history, before, n, n.privPath);
    }
    if name: Name :| HeldUnder(history, before, n, name) {
      assert HoldsPrivate(history[m], before, n, name);
      assert name == n.privPath;
      forall k | 0 <= k < |history| ensures Held(history[k], before, n) {
        assert HoldsPrivate(history[k], before, n, name);
      }
    }
  }

  /** How a commit ends decides whether a power loss from then on can lose the
      private key. After a successful first directory fsync it cannot. If the
      old key was moved aside without one, it can. If it was not moved, it is as
      before: the key is safe exactly when it was in its place at every moment
      since the last directory fsync. `trace` and `base` are as the commit
      starts. */
  lemma OutcomeDecidesCrash(trace: seq<Files>, base: nat, trace': seq<Files>, base': nat, before: Files, n: Names, r: Outcome)
    requires n.privPath in before && n.privTmp in before && base < |trace| && trace[|trace|-1] == before
    requires CommitTrace(trace, base, trace', base', before, n, r)
    ensures CrashSafe(trace'[base'..], before, n) <==>
            || r in {CommitPublicFailed, SyncPublicFailed, Committed}
            || (r == BackupPrivateFailed && HeldSince(trace, base, before, n))
  {
    var history := trace'[base'..];
    if r in {CommitPublicFailed, SyncPublicFailed, Committed} {
      forall i | 0 <= i < |history| ensures HoldsPrivate(history[i], before, n, n.privPath) {
        assert history[i] == trace'[base' + i];
        assert Lookup(trace'[base' + i], n.privPath) == Some(before[n.privTmp]);
      }
      assert HeldUnder(history, before, n, n.privPath);
      CrashSafeExactly(history, before, n);
    } else {
      assert history[|trace| - 1 - base] == trace'[|trace| - 1] == before;
      TargetDecides(history, before, n, |trace| - 1 - base);
      Shifted(trace', base', before, n);
      if r == BackupPrivateFailed { HeldAround(trace, trace', base, before, n); }
    }
  }

  lemma HeldAround(trace: seq<Files>, trace': seq<Files>, base: nat, before: Files, n: Names)
    requires trace <= trace' && n.privTmp in before && HeldSince(trace', |trace|, before, n)
    ensures HeldSince(trace', base, before, n) <==> HeldSince(trace, base, before, n)
  {
    if HeldSince(trace, base, before, n) {
      forall k | base <= k < |trace'| ensures Held(trace'[k], before, n) {
        if k < |trace| { assert trace'[k] == trace[k]; }
      }
    }
    if HeldSince(trace', base, before, n) {
      forall k | base <= k < |trace| ensures Held(trace[k], before, n) {
        assert trace'[k] == trace[k];
      }
    }
  }

  lemma Shifted(trace: seq<Files>, base: nat, before: Files, n: Names)
    requires base < |trace| && n.privTmp in before
    ensures HeldSince(trace[base..], 0, before, n) <==> HeldSince(trace, base, before, n)
  {
    if HeldSince(trace[base..], 0, before, n) {
      forall k | base <= k < |trace| ensures Held(trace[k], before, n) {
        assert trace[k] == trace[base..][k - base];
      }
    }
  }

  /** Such a power loss, right after the old key was moved aside: the removal of
      the old name had reached the disk, the backup name had not. */
  lemma PowerLossExample(oldKey: KeyFile, newKey: KeyFile)
    ensures var n := Names("t1", "t2", "k-private.key", "k-public.key");
            var before: Files := map["t1" := newKey, "k-private.key" := oldKey];
            var moved: Files := map["t1" := newKey, "bak" := oldKey];
            var lost: Files := map["t1" := newKey];
            && CrashDir([before, moved], lost) && !PrivateSurvives(lost, before, n)
  {
    var n := Names("t1", "t2", "k-private.key", "k-public.key");
    var before: Files := map["t1" := newKey, "k-private.key" := oldKey];
    var moved: Files := map["t1" := newKey, "bak" := oldKey];
    var lost: Files := map["t1" := newKey];
    var history := [before, moved];
    assert |"bak"| < |"k-private.key"| && "bak" != "k-private.key";
    forall name: Name ensures FromMoment(history, lost, name) {
      var i := if name == "k-private.key" then 1 else 0;
      assert Lookup(lost, name) == Lookup(history[i], name);
    }
    assert "k-private.key" !in lost;
    forall name: Name ensures !HoldsPrivate(lost, before, n, name) {
      assert name in lost ==> name == "t1" && name in before && name != n.privPath;
    }
  }
}
