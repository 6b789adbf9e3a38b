/** The anti-rollback mark: the latest trusted time ever accepted, kept in an
    authenticated state file. */
module Rollback {
  import opened Text
  import opened Model
  import opened DurableStore
  import opened AtomicFile
  import opened Evidence

  datatype RollbackState = RollbackState(lastTrusted: Instant, lastVerified: Instant)

  /** A record with its authentication tag. */
  datatype Signed = Signed(state: RollbackState, mac: string)

  /** Compares `now` with the stored mark. The mark only moves forward. */
  function CheckRollback(prev: Option<RollbackState>, now: Instant, skew: Duration): Result<RollbackState>
  {
    if prev.None? then Ok(RollbackState(now, now))
    else if now + skew < prev.value.lastTrusted then Err(ClockRollback)
    else Ok(RollbackState(if prev.value.lastTrusted > now then prev.value.lastTrusted else now, now))
  }

  /** Both times have a JSON form; otherwise marshalling the record fails. */
  predicate Encodable(st: RollbackState)
  {
    HasJSONForm(st.lastTrusted) && HasJSONForm(st.lastVerified)
  }

  /** Verify the tag, check for rollback, and tag the new record. */
  function Decide(mac: RollbackState -> string, skew: Duration, prev: Option<Signed>, now: Instant): Decision<Signed>
  {
    if prev.Some? && prev.value.mac != mac(prev.value.state) then Refuse(StateIntegrityFailure)
    else
      match CheckRollback(if prev.Some? then Some(prev.value.state) else None, now, skew)
      case Err(code) => Refuse(code)
      case Ok(next) => if Encodable(next) then Save(Signed(next, mac(next))) else Refuse(StateIntegrityFailure)
  }

  function MarkPolicy(path: Name, mac: RollbackState -> string, skew: Duration): Policy<Signed, Instant>
  {
    Policy(path, (prev, now) => Decide(mac, skew, prev, now),
           (a: Signed, b: Signed) => a.state.lastTrusted <= b.state.lastTrusted)
  }

  lemma MarkPolicyLawful(path: Name, mac: RollbackState -> string, skew: Duration)
    ensures Lawful(MarkPolicy(path, mac, skew))
  {
  }

  /** Exactly the tolerably late observations with a JSON form are accepted, and
      the new mark is the later of the old mark and the observation. */
  lemma DecideAdvances(mac: RollbackState -> string, skew: Duration, prev: Option<Signed>, now: Instant)
    ensures var d := Decide(mac, skew, prev, now);
            d.Save? <==>
              && (prev.Some? ==> prev.value.mac == mac(prev.value.state) && prev.value.state.lastTrusted <= now + skew)
              && HasJSONForm(now)
              && (prev.Some? && prev.value.state.lastTrusted > now ==> HasJSONForm(prev.value.state.lastTrusted))
    ensures var d := Decide(mac, skew, prev, now);
            d.Save? ==> && d.value.mac == mac(d.value.state) && d.value.state.lastVerified == now
                        && d.value.state.lastTrusted >= now
                        && (prev.Some? ==> d.value.state.lastTrusted >= prev.value.state.lastTrusted)
                        && (d.value.state.lastTrusted == now
                            || (prev.Some? && d.value.state.lastTrusted == prev.value.state.lastTrusted))
  {
  }

  /** The mark a crash at this moment would leave, if any. */
  function DurableMark(fs: FS<Signed>, path: Name): Option<Instant>
  {
    match DurableContent(fs, path)
    case Some(Whole(v)) => Some(v.state.lastTrusted)
    case _ => None
  }

  type MarkRun = seq<St<Signed, Instant>>

  /** Crash-safe high water, over every run with any step failing and a crash
      anywhere: the durable file is absent or one complete earlier-saved
      record, and the durable mark never decreases or disappears. */
  lemma MarkNeverDecreases(path: Name, mac: RollbackState -> string, skew: Duration, run: MarkRun, j: nat, k: nat)
    requires IsRun(MarkPolicy(path, mac, skew), run) && j <= k < |run|
    ensures DurableContent(run[k].fs, path).None?
            || (exists v :: v in run[k].saved && DurableContent(run[k].fs, path) == Some(Whole(v)))
    ensures var a, b := DurableMark(run[j].fs, path), DurableMark(run[k].fs, path);
            a.Some? ==> b.Some? && a.value <= b.value
  {
    var P := MarkPolicy(path, mac, skew);
    MarkPolicyLawful(path, mac, skew);
    DurableIsComplete(P, run, k);
    DurableMonotone(P, run, j, k);
  }

  /** Once a call returned nil for time `t`, every later durable mark is at
      least `t`, through any later failures and crashes. */
  lemma AcknowledgedMarkPersists(path: Name, mac: RollbackState -> string, skew: Duration, run: MarkRun,
                                 j: nat, k: nat, v: Signed, t: Instant)
    requires IsRun(MarkPolicy(path, mac, skew), run) && j <= k < |run| && (v, t) in run[j].acked
    ensures var b := DurableMark(run[k].fs, path); b.Some? && t <= b.value
  {
    var P := MarkPolicy(path, mac, skew);
    MarkPolicyLawful(path, mac, skew);
    AcknowledgedIsDurable(P, run, j, k, v, t);
    AcknowledgedWasDecided(P, run, j);
    assert Decided(P, v, t);
    var prev :| P.decide(prev, t) == Save(v);
    DecideAdvances(mac, skew, prev, t);
  }

  function MarkAtLeast(t: Instant): Signed -> bool
  {
    (v: Signed) => v.state.lastTrusted >= t
  }

  /** What a caller may rely on after its last call: in every continuation of
      every history that looks like this one the durable mark is at least `t`,
      exactly when the file showed such a mark at boot or the save of one was
      acknowledged since. */
  lemma MarkIsDurableExactly(path: Name, mac: RollbackState -> string, skew: Duration, run: MarkRun, t: Instant)
    requires SinceBoot(MarkPolicy(path, mac, skew), run) && run[|run|-1].pc == Idle
    ensures Evident(path, run, MarkAtLeast(t)) <==>
            forall later: MarkRun :: IsRun(MarkPolicy(path, mac, skew), later) && BeginsLike(run, later) ==>
              Safe(later[|later|-1].fs, path, MarkAtLeast(t))
  {
    MarkPolicyLawful(path, mac, skew);
    SafeExactlyWhenEvident(MarkPolicy(path, mac, skew), run, MarkAtLeast(t));
  }

  /** What the state file shows: whether it is intact, and its mark. */
  datatype MarkView = MarkView(intact: bool, mark: Option<Instant>)

  function MaxMark(mark: Option<Instant>, now: Instant): Option<Instant>
  {
    Some(if mark.Some? && mark.value > now then mark.value else now)
  }

  predicate Tolerable(v: MarkView, now: Instant, storeSkew: Duration)
  {
    v.intact && (v.mark.Some? ==> v.mark.value <= now + storeSkew)
  }

  /** The new record has a JSON form. */
  predicate Storable(v: MarkView, now: Instant)
  {
    HasJSONForm(now) && (v.mark.Some? && v.mark.value > now ==> HasJSONForm(v.mark.value))
  }

  /** One trusted-time observation, with any I/O failure: refused exactly when the
      time is too far behind, and unchanged; accepted exactly at a tolerable
      storable time when the file is intact and every system call works, and
      the mark is then the maximum; otherwise failed, with the old mark or the
      new one. */
  ghost predicate Observes(v: MarkView, v': MarkView, now: Instant, storeSkew: Duration, code: Code, works: bool)
  {
    || (code == OK && works && Tolerable(v, now, storeSkew) && Storable(v, now) && v' == MarkView(true, MaxMark(v.mark, now)))
    || (code == ClockRollback && v.intact && !Tolerable(v, now, storeSkew) && v' == v)
    || (code == StateIntegrityFailure && !(works && v.intact && Storable(v, now))
        && (v' == v || (Tolerable(v, now, storeSkew) && v' == MarkView(true, MaxMark(v.mark, now)))))
  }

  function ViewOf(mac: RollbackState -> string, content: Option<Blob<Signed>>): MarkView
  {
    match content
    case None => MarkView(true, None)
    case Some(Torn) => MarkView(false, None)
    case Some(Whole(v)) =>
      if v.mac == mac(v.state) then MarkView(true, Some(v.state.lastTrusted)) else MarkView(false, None)
  }

  /** The decision on a file, in terms of the mark it shows. */
  lemma DecisionOnView(path: Name, mac: RollbackState -> string, skew: Duration, fs: FS<Signed>, now: Instant)
    ensures var P, view := MarkPolicy(path, mac, skew), ViewOf(mac, Content(fs, path));
            match Loaded(P, fs)
            case Err(code) => code == StateIntegrityFailure && !view.intact
            case Ok(prev) =>
              match P.decide(prev, now)
              case Save(v) =>
                && Tolerable(view, now, skew) && Storable(view, now)
                && ViewOf(mac, Some(Whole(v))) == MarkView(true, MaxMark(view.mark, now))
              case Refuse(ClockRollback) => view.intact && !Tolerable(view, now, skew)
              case Refuse(code) =>
                code == StateIntegrityFailure && (view.intact ==> Tolerable(view, now, skew) && !Storable(view, now))
              case Keep => false
  {
  }

  /** The store: one state file under the lock of its path. */
  class RollbackStore {
    const path: Name
    const mac: RollbackState -> string
    const skew: Duration
    const file: StateFile<Signed, Instant>

    ghost predicate Valid()
      reads this, file
    {
      file.Valid() && file.pc == Idle && file.P == MarkPolicy(path, mac, skew)
    }

    /** What a later call will see. */
    function View(): MarkView
      reads this, file
    {
      ViewOf(mac, file.Visible())
    }

    constructor (path: Name, mac: RollbackState -> string, skew: Duration, file: StateFile<Signed, Instant>)
      requires file.Valid() && file.pc == Idle && file.P == MarkPolicy(path, mac, if skew < 0 then 0 else skew)
      ensures Valid() && this.path == path && this.mac == mac && this.file == file
      ensures this.skew == if skew < 0 then 0 else skew
    {
      this.path, this.mac, this.skew, this.file := path, mac, if skew < 0 then 0 else skew, file;
    }

    /** The file can be read and written. */
    predicate Works(os: Os)
      reads this, file
    {
      os.readable && FailingStep(os, file.fs, path).None?
    }

    /** Observes one trusted time. */
    method CheckAndSave(now: Instant, os: Os) returns (code: Code, failed: Option<WriteStep>)
      requires Valid()
      modifies file
      ensures Valid() && old(file.run) <= file.run
      ensures Observes(old(View()), View(), now, skew, code, old(Works(os)))
      // The exact code, in this order: damaged or unreadable, too far behind, not storable, a failing step.
      ensures code == if !os.readable || !old(View()).intact then StateIntegrityFailure
                      else if !Tolerable(old(View()), now, skew) then ClockRollback
                      else if !Storable(old(View()), now) || !old(Works(os)) then StateIntegrityFailure
                      else OK
      // Accepted: the save is acknowledged for this time.
      ensures code == OK ==> |file.acked| == |old(file.acked)| + 1 && file.acked[|file.acked|-1].1 == now
      ensures code != OK ==> file.acked == old(file.acked)
      // An error leaves the file as it was, unless the directory fsync failed: then the new record is visible.
      ensures failed.Some? ==> code == StateIntegrityFailure && failed == FailingStep(os, old(file.fs), path)
      ensures code != OK && failed != Some(DirSyncStep) ==> file.Visible() == old(file.Visible())
      ensures failed == Some(DirSyncStep) ==> View() == MarkView(true, MaxMark(old(View()).mark, now))
    {
      MarkPolicyLawful(path, mac, skew);
      DecisionOnView(path, mac, skew, file.fs, now);
      code, failed := file.CheckAndSave(now, os);
    }
  }
}
