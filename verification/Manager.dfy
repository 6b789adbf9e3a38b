/** The client facade: what a validation may do to the rollback mark and to the
    cached result, over whole runs. */
module Manager {
  import opened Text
  import opened Model
  import opened Validator
  import opened License
  import opened AtomicFile
  import opened Rollback

  /** License bytes, as their size and what strict parsing makes of them. */
  datatype LicenseData = LicenseData(size: nat, envelope: Option<Envelope>)

  /** What reading a license file from disk gives. */
  datatype LicenseFile = NotFound | Unreadable | TooLarge | Read(data: LicenseData)

  /** The code for a file that gave no license. */
  function FileRefusal(file: LicenseFile): Code
    requires !file.Read?
  {
    match file
    case NotFound => FileNotFound
    case Unreadable => Malformed
    case TooLarge => FileTooLarge
  }

  datatype Config = Config(pl: Platform, codec: Codec<Payload>, ring: Option<KeyRing>,
                           revocation: Option<set<string>>, skew: Duration, unscopedProduct: bool)

  function ParseEnvelope(data: LicenseData): Result<Envelope>
  {
    if data.size == 0 then Err(Malformed)
    else if data.size > MAX_LICENSE_FILE_SIZE then Err(FileTooLarge)
    else if data.envelope.None? then Err(Malformed)
    else
      var e := data.envelope.value;
      if e.algorithm == "" || e.keyID == "" || e.payload == "" || e.signature == "" then Err(Malformed) else Ok(e)
  }

  /** The authentic payload, before any policy. */
  function Authenticated(cfg: Config, data: LicenseData): Result<Payload>
  {
    if data.size > MAX_LICENSE_FILE_SIZE then Err(FileTooLarge)
    else
      var env := ParseEnvelope(data);
      if env.Err? then Err(env.code) else Verify(cfg.pl, cfg.codec, cfg.ring, Some(env.value))
  }

  /** The caller's context with the manager's defaults. */
  function Effective(cfg: Config, ctx: Context): Context
  {
    ctx.(revoked := if ctx.revoked.None? then cfg.revocation else ctx.revoked,
         clockSkew := if ctx.clockSkew <= 0 then cfg.skew else ctx.clockSkew)
  }

  /** Everything that must hold before state may move: scope, authenticity and
      policy. */
  function Verdict(cfg: Config, data: LicenseData, ctx: Context, now: Instant): Result<(Payload, ValidationResult)>
  {
    if ctx.productID == "" && !cfg.unscopedProduct then Err(ProductRequired)
    else
      var p := Authenticated(cfg, data);
      if p.Err? then Err(p.code)
      else
        var r := Validate(p.value, now, p.value.keyID, Effective(cfg, ctx));
        if r.Usable() then Ok((p.value, r)) else Err(r.code)
  }

  /** A cached success; ZERO_TIME means no time-based expiry. */
  datatype Cached = Cached(result: ValidationResult, expiresAt: Instant)

  function CacheEntry(r: ValidationResult): Cached
  {
    Cached(r, if r.graceUntil.Some? then r.graceUntil.value else if r.expiresAt.Some? then r.expiresAt.value else ZERO_TIME)
  }

  /** The cached result that a query at this clock reading may report. */
  function Fresh(cached: Option<Cached>, clock: Option<Instant>): Option<ValidationResult>
  {
    if cached.None? then None
    else if cached.value.expiresAt == ZERO_TIME then Some(cached.value.result)
    else if clock.None? || clock.value > cached.value.expiresAt then None
    else Some(cached.value.result)
  }

  // ----- One call, as a relation on the observable state -----

  /** The manager's observable state; no store means no mark is kept. */
  datatype View = View(store: Option<MarkView>, cached: Option<Cached>)

  /** What follows a clean decision: lifetime licenses never reach the store,
      and the cache holds the result exactly on success. */
  ghost predicate Concludes(p: Payload, r: ValidationResult, storeSkew: Duration, s: View, s': View, now: Instant, code: Code, works: bool)
  {
    if s.store.None? || p.licenseType == "lifetime"
    then code == OK && s' == s.(cached := Some(CacheEntry(r)))
    else
      && s'.store.Some?
      && Observes(s.store.value, s'.store.value, now, storeSkew, code, works)
      && s'.cached == if code == OK then Some(CacheEntry(r)) else None
  }

  /** Validate: nothing but a clean decision reaches the store or the cache. */
  ghost predicate ValidateStep(cfg: Config, storeSkew: Duration, s: View, s': View, data: LicenseData, ctx: Context,
                               clock: Option<Instant>, code: Code, works: bool)
  {
    if clock.None? then code == ClockRollback && s' == s.(cached := None)
    else
      var d := Verdict(cfg, data, ctx, clock.value);
      if d.Err? then code == d.code && s' == s.(cached := None)
      else Concludes(d.value.0, d.value.1, storeSkew, s, s', clock.value, code, works)
  }

  // ----- The manager -----

  class Manager {
    const cfg: Config
    const rollback: RollbackStore?
    var cached: Option<Cached>

    ghost predicate Valid()
      reads this, rollback, if rollback == null then {} else {rollback.file}
    {
      rollback != null ==> rollback.Valid()
    }

    function State(): View
      reads this, rollback, if rollback == null then {} else {rollback.file}
    {
      View(if rollback == null then None else Some(rollback.View()), cached)
    }

    function StoreSkew(): Duration
    {
      if rollback == null then 0 else rollback.skew
    }

    predicate StoreWorks(os: Os)
      reads this, rollback, if rollback == null then {} else {rollback.file}
    {
      rollback != null && rollback.Works(os)
    }

    constructor (cfg: Config, rollback: RollbackStore?)
      requires rollback != null ==> rollback.Valid()
      ensures Valid() && this.cfg == cfg && this.rollback == rollback && cached == None
    {
      this.cfg, this.rollback, this.cached := cfg, rollback, None;
    }

    method InvalidateCache()
      requires Valid()
      modifies this
      ensures Valid() && State() == old(State()).(cached := None)
    {
      cached := None;
    }

    method Validate(data: LicenseData, ctx: Context, clock: Option<Instant>, os: Os) returns (code: Code)
      requires Valid()
      modifies this, if rollback == null then {} else {rollback.file}
      ensures Valid()
      ensures ValidateStep(cfg, StoreSkew(), old(State()), State(), data, ctx, clock, code, old(StoreWorks(os)))
    {
      cached := None;
      if clock.None? { return ClockRollback; }
      var decision := Decide(data, ctx, clock.value);
      if decision.Err? { return decision.code; }
      code := Conclude(decision.value.0, decision.value.1, clock.value, os);
    }

    /** The rollback store, where one applies, and then the cache. */
    method Conclude(p: Payload, r: ValidationResult, now: Instant, os: Os) returns (code: Code)
      requires Valid() && cached == None
      modifies this, if rollback == null then {} else {rollback.file}
      ensures Valid()
      ensures Concludes(p, r, StoreSkew(), old(State()), State(), now, code, old(StoreWorks(os)))
    {
      if rollback != null && p.licenseType != "lifetime" {
        var failed;
        code, failed := rollback.CheckAndSave(now, os);
        if code != OK { return; }
      }
      cached := Some(CacheEntry(r));
      return OK;
    }

    /** Scope, size, parsing, signature and policy, in this order; nothing is
        written. */
    method Decide(data: LicenseData, ctx: Context, now: Instant) returns (r: Result<(Payload, ValidationResult)>)
      ensures r == Verdict(cfg, data, ctx, now)
    {
      if ctx.productID == "" && !cfg.unscopedProduct { return Err(ProductRequired); }
      if data.size > MAX_LICENSE_FILE_SIZE { return Err(FileTooLarge); }
      var env := ParseEnvelope(data);
      if env.Err? { return Err(env.code); }
      var payload := Verify(cfg.pl, cfg.codec, cfg.ring, Some(env.value));
      if payload.Err? { return Err(payload.code); }
      var result := Validator.Validate(payload.value, now, payload.value.keyID, Effective(cfg, ctx));
      if !result.Usable() { return Err(result.code); }
      return Ok((payload.value, result));
    }

    method LoadAndValidate(file: LicenseFile, ctx: Context, clock: Option<Instant>, os: Os) returns (code: Code)
      requires Valid()
      modifies this, if rollback == null then {} else {rollback.file}
      ensures Valid()
      ensures file.Read? ==> ValidateStep(cfg, StoreSkew(), old(State()), State(), file.data, ctx, clock, code, old(StoreWorks(os)))
      ensures !file.Read? ==> State() == old(State()).(cached := None) && code == FileRefusal(file)
    {
      match file {
        case NotFound => InvalidateCache(); return FileNotFound;
        case Unreadable => InvalidateCache(); return Malformed;
        case TooLarge => InvalidateCache(); return FileTooLarge;
        case Read(data) => code := Validate(data, ctx, clock, os);
      }
    }

    method CachedResult(clock: Option<Instant>) returns (r: Option<ValidationResult>)
      requires Valid()
      ensures r == Fresh(cached, clock)
    {
      if cached.None? { return None; }
      if cached.value.expiresAt != ZERO_TIME {
        if clock.None? { return None; }
        if clock.value > cached.value.expiresAt { return None; }
      }
      return Some(cached.value.result);
    }
  }

  // ----- Whole sequential runs -----

  datatype Call =
    | ValidateCall(data: LicenseData, ctx: Context, clock: Option<Instant>)
    | LoadCall(file: LicenseFile, ctx: Context, clock: Option<Instant>)
    | InvalidateCall

  /** A call with whether the store's file can be read and written, its code and
      the state it left. */
  datatype Event = Event(call: Call, works: bool, code: Code, after: View)

  ghost predicate CallStep(cfg: Config, storeSkew: Duration, s: View, e: Event)
  {
    match e.call
    case ValidateCall(data, ctx, clock) => ValidateStep(cfg, storeSkew, s, e.after, data, ctx, clock, e.code, e.works)
    case LoadCall(Read(data), ctx, clock) => ValidateStep(cfg, storeSkew, s, e.after, data, ctx, clock, e.code, e.works)
    case LoadCall(file, _, _) => e.code == FileRefusal(file) && e.after == s.(cached := None)
    case InvalidateCall => e.code == OK && e.after == s.(cached := None)
  }

  ghost predicate IsRun(cfg: Config, storeSkew: Duration, s: View, run: seq<Event>)
    decreases |run|
  {
    run != [] ==> CallStep(cfg, storeSkew, s, run[0]) && IsRun(cfg, storeSkew, run[0].after, run[1..])
  }

  function Last(s: View, run: seq<Event>): View
  {
    if run == [] then s else run[|run|-1].after
  }

  /** The decision behind a call, for the license it was given. */
  function VerdictOf(cfg: Config, call: Call): Option<(Payload, ValidationResult, Instant)>
  {
    var attempt := match call
      case ValidateCall(data, ctx, Some(now)) => Some((data, ctx, now))
      case LoadCall(Read(data), ctx, Some(now)) => Some((data, ctx, now))
      case _ => None;
    if attempt.None? then None
    else
      var d := Verdict(cfg, attempt.value.0, attempt.value.1, attempt.value.2);
      if d.Ok? then Some((d.value.0, d.value.1, attempt.value.2)) else None
  }

  /** The time a call put into the store, if it changed the store. */
  function SavedTime(cfg: Config, s: View, e: Event): Option<Instant>
  {
    if e.after.store != s.store && VerdictOf(cfg, e.call).Some? then Some(VerdictOf(cfg, e.call).value.2) else None
  }

  function SavedTimes(cfg: Config, s: View, run: seq<Event>): seq<Instant>
    decreases |run|
  {
    if run == [] then [] else Prepend(SavedTime(cfg, s, run[0]), SavedTimes(cfg, run[0].after, run[1..]))
  }

  function Prepend(t: Option<Instant>, rest: seq<Instant>): seq<Instant>
  {
    if t.Some? then [t.value] + rest else rest
  }

  /** The latest of a mark and some times. */
  function Latest(mark: Option<Instant>, times: seq<Instant>): Option<Instant>
    decreases |times|
  {
    if times == [] then mark else Latest(MaxMark(mark, times[0]), times[1..])
  }

  /** A refusal always carries an error code. */
  lemma RefusalsHaveCodes(cfg: Config, data: LicenseData, ctx: Context, now: Instant)
    ensures Verdict(cfg, data, ctx, now).Err? ==> Verdict(cfg, data, ctx, now).code != OK
  {
    var p := Authenticated(cfg, data);
    assert p.Err? ==> p.code != OK;
    if p.Ok? {
      var r := Validate(p.value, now, p.value.keyID, Effective(cfg, ctx));
      assert !r.Usable() ==> r.code != OK;
    }
  }

  // ----- What a decision means, in terms of the configuration and the caller -----

  /** The caller's revocation provider, or else the manager's. */
  function ProviderFor(cfg: Config, ctx: Context): Option<set<string>>
  {
    if ctx.revoked.Some? then ctx.revoked else cfg.revocation
  }

  /** The caller's skew if positive, else the manager's, else five minutes. */
  function SkewFor(cfg: Config, ctx: Context): Duration
  {
    if ctx.clockSkew > 0 then ctx.clockSkew else if cfg.skew > 0 then cfg.skew else 5 * 60 * 1_000_000_000
  }

  /** Scope, product, revocation, version and device, apart from the time. */
  ghost predicate Admissible(cfg: Config, ctx: Context, p: Payload)
  {
    && StaticallyValid(p, ctx.parses)
    && (if ctx.productID == "" then cfg.unscopedProduct else ctx.productID == p.productID)
    && (ctx.revoked.Some? ==> p.licenseID !in ctx.revoked.value)
    && (ctx.revoked.None? && cfg.revocation.Some? ==> p.licenseID !in cfg.revocation.value)
    && VersionMatches(p, ctx.productVersion) && DeviceMatches(p, ctx.deviceFingerprint)
  }

  /** The context the license is held against. */
  function ContextFor(cfg: Config, ctx: Context): Context
  {
    Context(ctx.productID, ctx.productVersion, ctx.deviceFingerprint, ProviderFor(cfg, ctx), SkewFor(cfg, ctx), ctx.parses)
  }

  lemma EffectiveIsContextFor(cfg: Config, ctx: Context, p: Payload, now: Instant)
    ensures Validate(p, now, p.keyID, Effective(cfg, ctx)) == Validate(p, now, p.keyID, ContextFor(cfg, ctx))
    ensures AllowedSkew(Effective(cfg, ctx).clockSkew) == SkewFor(cfg, ctx) == AllowedSkew(ContextFor(cfg, ctx).clockSkew)
  {
    var a, b := Effective(cfg, ctx), ContextFor(cfg, ctx);
    ResultExactly(p, now, p.keyID, a);
    ResultExactly(p, now, p.keyID, b);
    SameCode(ValidateStatic(p, ctx.parses), p, now, a, b);
  }

  /** Only the tolerated skew counts, not how it was asked for. */
  lemma SameCode(staticCode: Code, p: Payload, now: Instant, a: Context, b: Context)
    requires b == a.(clockSkew := b.clockSkew) && AllowedSkew(a.clockSkew) == AllowedSkew(b.clockSkew)
    ensures CodeFor(staticCode, p, now, a) == CodeFor(staticCode, p, now, b)
  {
  }

  /** What a clean decision means: canonical bytes of the payload, signed by a
      live key of the ring, an admissible license, and a time inside its
      interval. */
  lemma VerdictMeans(cfg: Config, data: LicenseData, ctx: Context, now: Instant)
    requires CodecLaws(cfg.pl, cfg.codec) && Verdict(cfg, data, ctx, now).Ok?
    ensures cfg.ring.Some? && data.envelope.Some? && 0 < data.size <= MAX_LICENSE_FILE_SIZE
    ensures var (p, r) := Verdict(cfg, data, ctx, now).value;
            && AuthenticUnder(cfg, data.envelope.value, p)
            && Admissible(cfg, ctx, p) && InInterval(p, ctx.productVersion, SkewFor(cfg, ctx), now)
            && r == ResultFor(OK, p, now, p.keyID, ContextFor(cfg, ctx))
  {
    var p := Verdict(cfg, data, ctx, now).value.0;
    assert Authenticated(cfg, data) == Ok(p);
    AuthenticatedMeans(cfg, data);
    EffectiveIsContextFor(cfg, ctx, p, now);
    ValidityIsOneInterval(p, now, p.keyID, ContextFor(cfg, ctx));
    ResultExactly(p, now, p.keyID, ContextFor(cfg, ctx));
  }

  ghost predicate AuthenticUnder(cfg: Config, env: Envelope, p: Payload)
  {
    && env.algorithm == "Ed25519"
    && cfg.ring.Some? && p.keyID in cfg.ring.value
    && cfg.ring.value[p.keyID].enabled && !cfg.ring.value[p.keyID].revoked && InWindow(cfg.ring.value[p.keyID], p.issuedAt)
    && CanonicalBytes(cfg.pl, cfg.codec, p).Some? && cfg.pl.unbase64(env.payload) == CanonicalBytes(cfg.pl, cfg.codec, p)
    && exists sig :: cfg.pl.unbase64(env.signature) == Some(sig)
         && cfg.pl.verify(cfg.ring.value[p.keyID].publicKey, LicenseSigningInput(CanonicalBytes(cfg.pl, cfg.codec, p).value), sig)
  }

  lemma AuthenticatedMeans(cfg: Config, data: LicenseData)
    requires CodecLaws(cfg.pl, cfg.codec) && Authenticated(cfg, data).Ok?
    ensures data.envelope.Some? && AuthenticUnder(cfg, data.envelope.value, Authenticated(cfg, data).value)
  {
    VerifiedIsCanonical(cfg.pl, cfg.codec, cfg.ring.value, data.envelope.value, Authenticated(cfg, data).value);
  }

  /** The license file an issuer's envelope is distributed as. */
  predicate CarriesLicense(cfg: Config, s: Signer, p: Payload, data: LicenseData, parses: string -> bool)
  {
    var sealed := SealPayload(cfg.pl, cfg.codec, s, p, parses);
    && sealed.Ok? && p.keyID == s.keyID && s.keyID != "" && data.envelope == Some(sealed.value)
    && sealed.value.payload != "" && sealed.value.signature != ""
    && 0 < data.size <= MAX_LICENSE_FILE_SIZE
  }

  lemma SealedAuthenticates(cfg: Config, s: Signer, p: Payload, data: LicenseData, parses: string -> bool)
    requires PlatformLaws(cfg.pl) && CodecLaws(cfg.pl, cfg.codec) && CarriesLicense(cfg, s, p, data, parses)
    requires cfg.ring.Some? && RingTrusts(cfg.pl, cfg.ring.value, s, p.issuedAt)
    ensures CanonicalBytes(cfg.pl, cfg.codec, p).Some?
    ensures Authenticated(cfg, data) ==
            if |CanonicalBytes(cfg.pl, cfg.codec, p).value| <= MAX_LICENSE_FILE_SIZE then Ok(p) else Err(FileTooLarge)
  {
    SealedVerifies(cfg.pl, cfg.codec, cfg.ring.value, s, p, parses);
    assert ParseEnvelope(data) == Ok(data.envelope.value);
  }

  /** From issuer to client: a license that a trusted key sealed gets a clean
      decision exactly when it is admissible, within the size limit, and the
      time lies in its interval; the decision is about the sealed payload. */
  lemma SealedIsAccepted(cfg: Config, s: Signer, p: Payload, data: LicenseData, ctx: Context, now: Instant)
    requires PlatformLaws(cfg.pl) && CodecLaws(cfg.pl, cfg.codec) && CarriesLicense(cfg, s, p, data, ctx.parses)
    requires cfg.ring.Some? && RingTrusts(cfg.pl, cfg.ring.value, s, p.issuedAt)
    ensures CanonicalBytes(cfg.pl, cfg.codec, p).Some?
    ensures Verdict(cfg, data, ctx, now).Ok? <==>
            && |CanonicalBytes(cfg.pl, cfg.codec, p).value| <= MAX_LICENSE_FILE_SIZE
            && Admissible(cfg, ctx, p) && InInterval(p, ctx.productVersion, SkewFor(cfg, ctx), now)
    ensures Verdict(cfg, data, ctx, now).Ok? ==> Verdict(cfg, data, ctx, now).value.0 == p
  {
    SealedAuthenticates(cfg, s, p, data, ctx.parses);
    EffectiveIsContextFor(cfg, ctx, p, now);
    ValidityIsOneInterval(p, now, p.keyID, ContextFor(cfg, ctx));
  }

  /** And the code of a refusal: no product asked for, too large, or the one
      the license gets against the caller's and the manager's context. */
  lemma SealedRefusal(cfg: Config, s: Signer, p: Payload, data: LicenseData, ctx: Context, now: Instant)
    requires PlatformLaws(cfg.pl) && CodecLaws(cfg.pl, cfg.codec) && CarriesLicense(cfg, s, p, data, ctx.parses)
    requires cfg.ring.Some? && RingTrusts(cfg.pl, cfg.ring.value, s, p.issuedAt)
    requires Verdict(cfg, data, ctx, now).Err?
    ensures CanonicalBytes(cfg.pl, cfg.codec, p).Some?
    ensures Verdict(cfg, data, ctx, now).code ==
            if ctx.productID == "" && !cfg.unscopedProduct then ProductRequired
            else if |CanonicalBytes(cfg.pl, cfg.codec, p).value| > MAX_LICENSE_FILE_SIZE then FileTooLarge
            else CodeFor(OK, p, now, ContextFor(cfg, ctx))
  {
    SealedAuthenticates(cfg, s, p, data, ctx.parses);
    EffectiveIsContextFor(cfg, ctx, p, now);
    ResultExactly(p, now, p.keyID, ContextFor(cfg, ctx));
  }

  /** No mark is kept for this license, or the store can take the time. */
  predicate StoreAllows(s: View, p: Payload, now: Instant, storeSkew: Duration, works: bool)
  {
    s.store.Some? && p.licenseType != "lifetime" ==>
      works && Tolerable(s.store.value, now, storeSkew) && Storable(s.store.value, now)
  }

  /** One call: the store changes only for an authentic, policy-accepted,
      non-lifetime license at a tolerable time, and then moves to the later of
      its mark and that time; the cache is full exactly when the call was a
      successful validation; and a clean decision that the store can take does
      succeed. */
  lemma CallInvariant(cfg: Config, storeSkew: Duration, s: View, e: Event)
    requires CallStep(cfg, storeSkew, s, e)
    ensures e.after.store != s.store ==>
              && VerdictOf(cfg, e.call).Some? && VerdictOf(cfg, e.call).value.0.licenseType != "lifetime"
              && s.store.Some? && Tolerable(s.store.value, VerdictOf(cfg, e.call).value.2, storeSkew)
              && e.after.store == Some(MarkView(true, MaxMark(s.store.value.mark, VerdictOf(cfg, e.call).value.2)))
    ensures e.after.cached.Some? <==> e.code == OK && !e.call.InvalidateCall?
    ensures e.after.cached.Some? ==>
              && VerdictOf(cfg, e.call).Some?
              && e.after.cached == Some(CacheEntry(VerdictOf(cfg, e.call).value.1))
    ensures e.code == OK && !e.call.InvalidateCall? && s.store.Some? && VerdictOf(cfg, e.call).value.0.licenseType != "lifetime" ==>
              && Tolerable(s.store.value, VerdictOf(cfg, e.call).value.2, storeSkew)
              && e.after.store == Some(MarkView(true, MaxMark(s.store.value.mark, VerdictOf(cfg, e.call).value.2)))
    ensures VerdictOf(cfg, e.call).Some? && StoreAllows(s, VerdictOf(cfg, e.call).value.0, VerdictOf(cfg, e.call).value.2, storeSkew, e.works) ==>
              e.code == OK
  {
    match e.call
    case ValidateCall(data, ctx, Some(now)) => RefusalsHaveCodes(cfg, data, ctx, now);
    case LoadCall(Read(data), ctx, Some(now)) => RefusalsHaveCodes(cfg, data, ctx, now);
    case _ =>
  }

  /** What a call does to the store, in terms of the time it saved. */
  lemma StoreEffect(cfg: Config, storeSkew: Duration, s: View, e: Event)
    requires CallStep(cfg, storeSkew, s, e) && s.store.Some?
    ensures e.after.store == match SavedTime(cfg, s, e)
              case None => s.store
              case Some(t) => Some(MarkView(true, MaxMark(s.store.value.mark, t)))
    ensures SavedTime(cfg, s, e).Some? ==> s.store.value.intact
  {
    CallInvariant(cfg, storeSkew, s, e);
  }

  lemma LastStep(s: View, run: seq<Event>)
    requires run != []
    ensures Last(s, run) == Last(run[0].after, run[1..])
  {
  }

  lemma LatestPrepend(mark: Option<Instant>, t: Option<Instant>, rest: seq<Instant>)
    ensures Latest(mark, Prepend(t, rest)) == Latest(if t.Some? then MaxMark(mark, t.value) else mark, rest)
  {
    if t.Some? { assert ([t.value] + rest)[1..] == rest; }
  }

  /** Over any run the mark is the maximum of the initial mark and the saved
      times, and a damaged store is never repaired or reset. */
  lemma {:induction false} RunInvariant(cfg: Config, storeSkew: Duration, s: View, run: seq<Event>)
    requires IsRun(cfg, storeSkew, s, run) && s.store.Some?
    ensures Last(s, run).store.Some?
    ensures s.store.value.intact ==>
              Last(s, run).store.value == MarkView(true, Latest(s.store.value.mark, SavedTimes(cfg, s, run)))
    ensures !s.store.value.intact ==> Last(s, run).store == s.store && SavedTimes(cfg, s, run) == []
    decreases |run|
  {
    if run != [] {
      StoreEffect(cfg, storeSkew, s, run[0]);
      RunInvariant(cfg, storeSkew, run[0].after, run[1..]);
      LastStep(s, run);
      LatestPrepend(s.store.value.mark, SavedTime(cfg, s, run[0]), SavedTimes(cfg, run[0].after, run[1..]));
    }
  }

  lemma {:induction false} LastEventSteps(cfg: Config, storeSkew: Duration, s: View, run: seq<Event>) returns (before: View)
    requires IsRun(cfg, storeSkew, s, run) && run != []
    ensures CallStep(cfg, storeSkew, before, run[|run|-1])
    decreases |run|
  {
    if |run| == 1 {
      before := s;
    } else {
      before := LastEventSteps(cfg, storeSkew, run[0].after, run[1..]);
      assert run[1..][|run[1..]|-1] == run[|run|-1];
    }
  }

  /** After any run the cache is full exactly when its last call was a
      successful validation, and then holds that call's result. */
  lemma CacheAfterRun(cfg: Config, storeSkew: Duration, s: View, run: seq<Event>)
    requires IsRun(cfg, storeSkew, s, run) && run != []
    ensures var e := run[|run|-1];
            && (Last(s, run).cached.Some? <==> e.code == OK && !e.call.InvalidateCall?)
            && (Last(s, run).cached.Some? ==>
                  VerdictOf(cfg, e.call).Some? && Last(s, run).cached == Some(CacheEntry(VerdictOf(cfg, e.call).value.1)))
  {
    var before := LastEventSteps(cfg, storeSkew, s, run);
    CallInvariant(cfg, storeSkew, before, run[|run|-1]);
  }

  /** What CachedResult reports after any run, at a time not before the last
      validation, is that validation's result, and the license's own time gates
      still pass. (The zero-time boundary is left out, as below.) */
  lemma ReportedIsStillUsable(cfg: Config, storeSkew: Duration, s: View, run: seq<Event>, t: Instant)
    requires IsRun(cfg, storeSkew, s, run) && run != [] && Fresh(Last(s, run).cached, Some(t)).Some?
    ensures var d := VerdictOf(cfg, run[|run|-1].call);
            && !run[|run|-1].call.InvalidateCall? && d.Some? && Fresh(Last(s, run).cached, Some(t)) == Some(d.value.1)
            && (d.value.2 <= t && (Last(s, run).cached.value.expiresAt == ZERO_TIME ==> d.value.0.expiresAt.None?) ==>
                  StillUsable(d.value.0, t, SkewFor(cfg, CtxOf(run[|run|-1].call))))
  {
    CacheAfterRun(cfg, storeSkew, s, run);
    var call := run[|run|-1].call;
    var (p, r, made) := VerdictOf(cfg, call).value;
    var ctx := Effective(cfg, CtxOf(call));
    assert r == Validate(p, made, p.keyID, ctx) && r.Usable();
    EffectiveIsContextFor(cfg, CtxOf(call), p, made);
    if made <= t && (CacheEntry(r).expiresAt == ZERO_TIME ==> p.expiresAt.None?) {
      CacheIsConservative(p, made, t, p.keyID, ctx);
    }
  }

  /** The caller's context of a validating call. */
  function CtxOf(call: Call): Context
    requires !call.InvalidateCall?
  {
    call.ctx
  }

  /** Inside the license's times, apart from the maintenance ceiling. */
  predicate StillUsable(p: Payload, t: Instant, skew: Duration)
  {
    Opens(p, skew) <= t && !Past(ExpiryCloses(p, skew), t)
  }

  /** The latest is one of the mark and the times, and none is later. */
  lemma {:induction false} LatestIsMaximum(mark: Option<Instant>, times: seq<Instant>)
    ensures mark.Some? ==> Latest(mark, times).Some? && Latest(mark, times).value >= mark.value
    ensures forall t :: t in times ==> Latest(mark, times).Some? && Latest(mark, times).value >= t
    ensures Latest(mark, times) == mark || (Latest(mark, times).Some? && Latest(mark, times).value in times)
    decreases |times|
  {
    if times != [] {
      LatestIsMaximum(MaxMark(mark, times[0]), times[1..]);
      assert times == [times[0]] + times[1..];
    }
  }

  /** The mark never moves back along a run. */
  lemma MarkOnlyAdvances(cfg: Config, storeSkew: Duration, s: View, run: seq<Event>)
    requires IsRun(cfg, storeSkew, s, run) && s.store.Some? && s.store.value.mark.Some?
    ensures Last(s, run).store.Some? && Last(s, run).store.value.mark.Some?
    ensures Last(s, run).store.value.mark.value >= s.store.value.mark.value
  {
    RunInvariant(cfg, storeSkew, s, run);
    LatestIsMaximum(s.store.value.mark, SavedTimes(cfg, s, run));
  }

  // ----- The cache claims no more than the license -----

  /** The boundary of a cached success: the end of the grace period, or else the
      expiry, without skew; the zero time for a license that never expires. */
  lemma CacheBoundary(p: Payload, made: Instant, keyID: string, ctx: Context)
    requires Validate(p, made, keyID, ctx).Usable()
    ensures CacheEntry(Validate(p, made, keyID, ctx)) ==
            Cached(Validate(p, made, keyID, ctx),
                   if p.expiresAt.None? then ZERO_TIME else p.expiresAt.value + p.gracePeriodDays * 24 * HOUR)
  {
    ResultExactly(p, made, keyID, ctx);
    ValidityIsOneInterval(p, made, keyID, ctx);
  }

  /** Whenever a cached entry is still reported at a time not before it was
      made, the license's own times say usable at that time, because the
      boundary carries no skew. A boundary that falls exactly on the zero time
      reads as "no boundary", so it is left out here. */
  lemma CacheIsConservative(p: Payload, made: Instant, t: Instant, keyID: string, ctx: Context)
    requires Validate(p, made, keyID, ctx).Usable() && made <= t
    requires Fresh(Some(CacheEntry(Validate(p, made, keyID, ctx))), Some(t)).Some?
    requires CacheEntry(Validate(p, made, keyID, ctx)).expiresAt == ZERO_TIME ==> p.expiresAt.None?
    ensures StillUsable(p, t, AllowedSkew(ctx.clockSkew))
  {
    ValidityIsOneInterval(p, made, keyID, ctx);
    CacheBoundary(p, made, keyID, ctx);
  }

  /** What is left out: an entry whose boundary is the zero time is reported at
      every later time, also after the license has expired; any other entry of
      an expiring license goes stale in time. */
  lemma ZeroBoundaryNeverStale(p: Payload, made: Instant, keyID: string, ctx: Context)
    requires Validate(p, made, keyID, ctx).Usable() && p.expiresAt.Some?
    ensures CacheEntry(Validate(p, made, keyID, ctx)).expiresAt == ZERO_TIME <==>
            forall t :: made <= t && Past(ExpiryCloses(p, AllowedSkew(ctx.clockSkew)), t) ==>
              Fresh(Some(CacheEntry(Validate(p, made, keyID, ctx))), Some(t)).Some?
  {
    var skew := AllowedSkew(ctx.clockSkew);
    var late := ExpiryCloses(p, skew).value + 1;
    ValidityIsOneInterval(p, made, keyID, ctx);
    CacheBoundary(p, made, keyID, ctx);
    assert made <= late && Past(ExpiryCloses(p, skew), late);
  }

  /** Such a payload: issued in year 0, to expire at the zero time, without
      grace, and validated shortly before. */
  lemma ZeroBoundaryExample(keyID: string) returns (p: Payload, made: Instant, ctx: Context)
    ensures HasJSONForm(p.issuedAt) && p.expiresAt == Some(ZERO_TIME) && HasJSONForm(made)
    ensures Validate(p, made, keyID, ctx).Usable() && CacheEntry(Validate(p, made, keyID, ctx)).expiresAt == ZERO_TIME
  {
    made := -HOUR;
    ctx := Context("", "", "", None, 0, id => true);
    p := Payload(LICENSE_SCHEMA_VERSION, "L", "", "P", "", "", "trial", "trial", -2 * HOUR, None, Some(ZERO_TIME), 0,
                 [], map[], DeviceBinding("none", []), VersionConstraint("", "", None, ""), map[], "K");
    ValidityIsOneInterval(p, made, keyID, ctx);
    CacheBoundary(p, made, keyID, ctx);
  }
}
