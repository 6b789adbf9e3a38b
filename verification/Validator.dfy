/** The time, version and device policy applied to an authentic payload. */
module Validator {
  import opened Text
  import opened Model
  import Version

  datatype Status = Valid | Grace | Invalid

  datatype ValidationResult = ValidationResult(
    status: Status, code: Code, licenseID: string, productID: string, licenseType: string,
    notBefore: Option<Instant>, expiresAt: Option<Instant>, graceUntil: Option<Instant>,
    checkedAt: Instant, keyID: string)
  {
    predicate Usable() { status.Valid? || status.Grace? }
  }

  /** The runtime facts. `revoked` is the revocation provider, if any, and
      `parses` is fingerprint.Parse's verdict on a device id. */
  datatype Context = Context(
    productID: string, productVersion: string, deviceFingerprint: string,
    revoked: Option<set<string>>, clockSkew: Duration, parses: string -> bool)

  function InvalidResult(code: Code, now: Instant): ValidationResult
  {
    ValidationResult(Invalid, code, "", "", "", None, None, None, now, "")
  }

  // ----- The gates, in the order the source runs them -----

  function Skew(ctx: Context): Duration
  {
    if ctx.clockSkew <= 0 then DEFAULT_CLOCK_SKEW else ctx.clockSkew
  }

  function IssuedAtGate(p: Payload, now: Instant, skew: Duration): Code
  {
    if p.issuedAt > now + skew then NotYetValid else OK
  }

  function RevocationGate(p: Payload, ctx: Context): Code
  {
    if ctx.revoked.Some? && p.licenseID in ctx.revoked.value then Revoked else OK
  }

  function ProductGate(p: Payload, ctx: Context): Code
  {
    if ctx.productID != "" && p.productID != ctx.productID then ProductMismatch else OK
  }

  function NotBeforeGate(p: Payload, now: Instant, skew: Duration): Code
  {
    if p.notBefore.Some? && now + skew < p.notBefore.value then NotYetValid else OK
  }

  /** 64-bit two's-complement wrap-around. */
  function Wrap64(x: int): int
  {
    var m := x % 0x1_0000_0000_0000_0000;
    if m < 0x8000_0000_0000_0000 then m else m - 0x1_0000_0000_0000_0000
  }

  /** time.Duration(days) * 24 * time.Hour, in 64-bit arithmetic. */
  function GraceDuration(days: int): Duration
  {
    Wrap64(Wrap64(days * 24) * HOUR)
  }

  /** The status and grace boundary, or Expired. */
  function EvaluateExpiry(p: Payload, now: Instant, skew: Duration): (Status, Option<Instant>, Code)
  {
    if p.licenseType == "lifetime" || p.expiresAt.None? then (Valid, None, OK)
    else
      var exp := p.expiresAt.value;
      var grace := exp + GraceDuration(p.gracePeriodDays);
      if now - skew > exp then
        if p.gracePeriodDays > 0 && now - skew <= grace then (Grace, Some(grace), OK)
        else (Valid, Some(grace), Expired)
      else (Valid, if p.gracePeriodDays > 0 then Some(grace) else None, OK)
  }

  /** Both parse and `v` does not exceed `bound`. */
  predicate VersionAtMost(v: string, bound: string)
  {
    var c := Version.CompareVersionsStrict(v, bound);
    c.Some? && c.value <= 0
  }

  predicate VersionAtLeast(v: string, bound: string)
  {
    var c := Version.CompareVersionsStrict(v, bound);
    c.Some? && c.value >= 0
  }

  function CheckVersionBounds(vc: VersionConstraint, version: string): Code
  {
    if vc.minVersion != "" && !VersionAtLeast(version, vc.minVersion) then VersionUnsupported
    else if vc.maxVersion != "" && !VersionAtMost(version, vc.maxVersion) then VersionUnsupported
    else OK
  }

  function CheckMaintenanceCeiling(vc: VersionConstraint, version: string, now: Instant, skew: Duration): Code
  {
    if vc.maintenanceUntil.None? || now - skew <= vc.maintenanceUntil.value then OK
    else if vc.coveredMaxVersion != "" then
      if VersionAtMost(version, vc.coveredMaxVersion) then OK else VersionUnsupported
    else if vc.minVersion != "" && !VersionAtMost(version, vc.minVersion) then VersionUnsupported
    else OK
  }

  predicate HasVersionConstraint(vc: VersionConstraint)
  {
    vc.minVersion != "" || vc.maxVersion != "" || vc.maintenanceUntil.Some? || vc.coveredMaxVersion != ""
  }

  function CheckVersion(p: Payload, version: string, now: Instant, skew: Duration): Code
  {
    var vc := p.versionConstraint;
    if !HasVersionConstraint(vc) then OK
    else if version == "" then VersionUnsupported
    else if CheckVersionBounds(vc, version) != OK then CheckVersionBounds(vc, version)
    else CheckMaintenanceCeiling(vc, version, now, skew)
  }

  function CheckDevice(p: Payload, fingerprint: string): Code
  {
    if p.deviceBinding.mode == "none" then OK
    else if p.deviceBinding.mode in {"single", "multi"} then
      if fingerprint != "" && fingerprint in p.deviceBinding.deviceIDs then OK else DeviceMismatch
    else InvalidEnum
  }

  /** The first gate that does not return OK. */
  function FirstFailure(gates: seq<Code>): Code
  {
    if gates == [] then OK
    else if gates[0] != OK then gates[0]
    else FirstFailure(gates[1..])
  }

  /** The verdict, given the outcome of the static checks. */
  function ApplyGates(staticCode: Code, p: Payload, now: Instant, keyID: string, ctx: Context): ValidationResult
  {
    var skew := Skew(ctx);
    var failure := FirstFailure([
      staticCode,
      IssuedAtGate(p, now, skew),
      RevocationGate(p, ctx),
      ProductGate(p, ctx),
      NotBeforeGate(p, now, skew),
      CheckVersion(p, ctx.productVersion, now, skew),
      CheckDevice(p, ctx.deviceFingerprint)]);
    if failure != OK then InvalidResult(failure, now)
    else
      var (status, graceUntil, code) := EvaluateExpiry(p, now, skew);
      if code != OK then InvalidResult(code, now)
      else ValidationResult(status, OK, p.licenseID, p.productID, p.licenseType,
                            p.notBefore, p.expiresAt, graceUntil, now, keyID)
  }

  function Validate(p: Payload, now: Instant, keyID: string, ctx: Context): ValidationResult
  {
    ApplyGates(ValidateStatic(p, ctx.parses), p, now, keyID, ctx)
  }

  // ----- What a license says, independently of the gates -----

  /** Five minutes, unless the caller asks for a positive skew. */
  function AllowedSkew(requested: Duration): Duration
  {
    if requested > 0 then requested else 5 * 60 * 1_000_000_000
  }

  predicate NotRevoked(p: Payload, revoked: Option<set<string>>)
  {
    revoked.Some? ==> p.licenseID !in revoked.value
  }

  predicate ProductMatches(p: Payload, productID: string)
  {
    productID == "" || productID == p.productID
  }

  /** Without any version constraint every version will do; otherwise one must be
      given, and lie within the bounds in the precedence of the standard. */
  ghost predicate VersionMatches(p: Payload, version: string)
  {
    var vc := p.versionConstraint;
    || (vc.minVersion == "" && vc.maxVersion == "" && vc.maintenanceUntil.None? && vc.coveredMaxVersion == "")
    || (&& version != ""
        && (vc.minVersion != "" ==> Version.NotBelow(version, vc.minVersion))
        && (vc.maxVersion != "" ==> Version.NotAbove(version, vc.maxVersion)))
  }

  predicate DeviceMatches(p: Payload, fingerprint: string)
  {
    p.deviceBinding.mode == "none" || (fingerprint != "" && fingerprint in p.deviceBinding.deviceIDs)
  }

  /** The running version is beyond what lapsed maintenance still covers. */
  ghost predicate AboveCeiling(vc: VersionConstraint, version: string)
  {
    var ceiling := if vc.coveredMaxVersion != "" then vc.coveredMaxVersion else vc.minVersion;
    ceiling != "" && !Version.NotAbove(version, ceiling)
  }

  function Later(a: Instant, b: Option<Instant>): Instant
  {
    if b.Some? && b.value > a then b.value else a
  }

  function Earlier(a: Option<Instant>, b: Option<Instant>): Option<Instant>
  {
    if a.None? then b else if b.None? || a.value <= b.value then a else b
  }

  /** The first usable trusted time. */
  function Opens(p: Payload, skew: Duration): Instant
  {
    Later(p.issuedAt, p.notBefore) - skew
  }

  function ExpiryCloses(p: Payload, skew: Duration): Option<Instant>
  {
    if p.expiresAt.Some? then Some(p.expiresAt.value + p.gracePeriodDays * 24 * HOUR + skew) else None
  }

  ghost function MaintenanceCloses(p: Payload, version: string, skew: Duration): Option<Instant>
  {
    var vc := p.versionConstraint;
    if vc.maintenanceUntil.Some? && AboveCeiling(vc, version) then Some(vc.maintenanceUntil.value + skew) else None
  }

  /** The last usable trusted time; None means the license never lapses. */
  ghost function Closes(p: Payload, version: string, skew: Duration): Option<Instant>
  {
    Earlier(ExpiryCloses(p, skew), MaintenanceCloses(p, version, skew))
  }

  predicate Past(closes: Option<Instant>, now: Instant)
  {
    closes.Some? && now > closes.value
  }

  ghost predicate InInterval(p: Payload, version: string, skew: Duration, now: Instant)
  {
    Opens(p, skew) <= now && !Past(Closes(p, version, skew), now)
  }

  /** The checks whose outcome does not depend on the time. */
  ghost predicate TimelessChecksPass(p: Payload, ctx: Context)
  {
    && StaticallyValid(p, ctx.parses) && NotRevoked(p, ctx.revoked) && ProductMatches(p, ctx.productID)
    && VersionMatches(p, ctx.productVersion) && DeviceMatches(p, ctx.deviceFingerprint)
  }

  // ----- What each gate decides -----

  /** Within the accepted range the 64-bit product is the exact one. */
  lemma GraceDoesNotOverflow(p: Payload, parses: string -> bool)
    requires StaticallyValid(p, parses)
    ensures GraceDuration(p.gracePeriodDays) == p.gracePeriodDays * 24 * HOUR >= 0
  {
    GraceIsExact(p.gracePeriodDays);
  }

  lemma GraceIsExact(days: int)
    requires 0 <= days <= 3650
    ensures GraceDuration(days) == days * 24 * HOUR >= 0
  {
  }

  lemma BoundsGate(vc: VersionConstraint, version: string)
    ensures CheckVersionBounds(vc, version) ==
            if (vc.minVersion != "" ==> Version.NotBelow(version, vc.minVersion))
               && (vc.maxVersion != "" ==> Version.NotAbove(version, vc.maxVersion)) then OK else VersionUnsupported
  {
    Version.StrictComparison(version, vc.minVersion);
    Version.StrictComparison(version, vc.maxVersion);
  }

  /** Maintenance refuses exactly versions above the ceiling, once it lapsed. */
  lemma CeilingGate(vc: VersionConstraint, version: string, now: Instant, skew: Duration)
    ensures CheckMaintenanceCeiling(vc, version, now, skew) ==
            if vc.maintenanceUntil.Some? && now > vc.maintenanceUntil.value + skew && AboveCeiling(vc, version)
            then VersionUnsupported else OK
  {
    Version.StrictComparison(version, vc.coveredMaxVersion);
    Version.StrictComparison(version, vc.minVersion);
  }

  lemma VersionGate(p: Payload, version: string, now: Instant, skew: Duration)
    ensures CheckVersion(p, version, now, skew) ==
            if VersionMatches(p, version) && !Past(MaintenanceCloses(p, version, skew), now) then OK else VersionUnsupported
  {
    var vc := p.versionConstraint;
    BoundsGate(vc, version);
    CeilingGate(vc, version, now, skew);
    if HasVersionConstraint(vc) && version != "" {
      var bounds, ceiling := CheckVersionBounds(vc, version), CheckMaintenanceCeiling(vc, version, now, skew);
      assert CheckVersion(p, version, now, skew) == if bounds != OK then bounds else ceiling;
    }
  }

  lemma ExpiryGate(p: Payload, now: Instant, skew: Duration)
    requires 0 <= p.gracePeriodDays <= 3650 && (p.licenseType == "lifetime" ==> p.expiresAt.None?)
    ensures var (status, graceUntil, code) := EvaluateExpiry(p, now, skew);
            && code == (if Past(ExpiryCloses(p, skew), now) then Expired else OK)
            && (code == OK ==>
                  && status == (if p.expiresAt.Some? && now > p.expiresAt.value + skew then Grace else Valid)
                  && graceUntil == GraceEnd(p))
  {
    GraceIsExact(p.gracePeriodDays);
  }

  /** The end of the grace period, for a license that has one. */
  function GraceEnd(p: Payload): Option<Instant>
  {
    if p.expiresAt.Some? && p.gracePeriodDays > 0 then Some(p.expiresAt.value + p.gracePeriodDays * 24 * HOUR) else None
  }

  // ----- The verdict -----

  /** The code a license gets: the static refusal, then by priority too early
      for the issue time, revoked, another product, too early for its start, an
      uncovered version, another device, expired. */
  ghost function CodeFor(staticCode: Code, p: Payload, now: Instant, ctx: Context): Code
  {
    CodeGiven(staticCode, p, now, ctx, VersionMatches(p, ctx.productVersion),
              MaintenanceCloses(p, ctx.productVersion, AllowedSkew(ctx.clockSkew)))
  }

  /** The same, given what the license says of the running version. */
  function CodeGiven(staticCode: Code, p: Payload, now: Instant, ctx: Context, versionMatches: bool, maintenance: Option<Instant>): Code
  {
    var skew := AllowedSkew(ctx.clockSkew);
    if staticCode != OK then staticCode
    else if now < p.issuedAt - skew then NotYetValid
    else if !NotRevoked(p, ctx.revoked) then Revoked
    else if !ProductMatches(p, ctx.productID) then ProductMismatch
    else if p.notBefore.Some? && now < p.notBefore.value - skew then NotYetValid
    else if !versionMatches || Past(maintenance, now) then VersionUnsupported
    else if !DeviceMatches(p, ctx.deviceFingerprint) then DeviceMismatch
    else if Past(ExpiryCloses(p, skew), now) then Expired
    else OK
  }

  lemma {:induction false} FirstFailureIsOK(gates: seq<Code>)
    ensures FirstFailure(gates) == OK <==> forall i :: 0 <= i < |gates| ==> gates[i] == OK
  {
    if gates != [] { FirstFailureIsOK(gates[1..]); }
  }

  lemma {:induction false} FirstFailureAt(gates: seq<Code>, k: nat)
    requires k < |gates| && gates[k] != OK && forall i :: 0 <= i < k ==> gates[i] == OK
    ensures FirstFailure(gates) == gates[k]
  {
    if k > 0 { FirstFailureAt(gates[1..], k - 1); }
  }

  lemma FirstOfSeven(g: seq<Code>)
    requires |g| == 7
    ensures FirstFailure(g) ==
            if g[0] != OK then g[0] else if g[1] != OK then g[1] else if g[2] != OK then g[2] else if g[3] != OK then g[3]
            else if g[4] != OK then g[4] else if g[5] != OK then g[5] else g[6]
  {
    FirstFailureIsOK(g);
    if k :| 0 <= k < 7 && g[k] != OK && forall i :: 0 <= i < k ==> g[i] == OK { FirstFailureAt(g, k); }
  }

  /** The gates in a row, given what the version gate says. */
  lemma GatesInOrder(staticCode: Code, p: Payload, now: Instant, ctx: Context, version: Code)
    requires staticCode == OK ==> p.deviceBinding.mode in {"none", "single", "multi"}
    ensures var skew := AllowedSkew(ctx.clockSkew);
            FirstFailure([staticCode, IssuedAtGate(p, now, skew), RevocationGate(p, ctx), ProductGate(p, ctx),
                          NotBeforeGate(p, now, skew), version, CheckDevice(p, ctx.deviceFingerprint)]) ==
            if staticCode != OK then staticCode
            else if now < p.issuedAt - skew then NotYetValid
            else if !NotRevoked(p, ctx.revoked) then Revoked
            else if !ProductMatches(p, ctx.productID) then ProductMismatch
            else if p.notBefore.Some? && now < p.notBefore.value - skew then NotYetValid
            else if version != OK then version
            else if !DeviceMatches(p, ctx.deviceFingerprint) then DeviceMismatch else OK
  {
    var skew := AllowedSkew(ctx.clockSkew);
    FirstOfSeven([staticCode, IssuedAtGate(p, now, skew), RevocationGate(p, ctx), ProductGate(p, ctx),
                  NotBeforeGate(p, now, skew), version, CheckDevice(p, ctx.deviceFingerprint)]);
  }

  /** The whole result, for payloads whose static verdict is trusted. */
  lemma ApplyGatesExactly(staticCode: Code, p: Payload, now: Instant, keyID: string, ctx: Context)
    requires staticCode == OK ==> StaticallyValid(p, ctx.parses)
    ensures ApplyGates(staticCode, p, now, keyID, ctx) == ResultFor(CodeFor(staticCode, p, now, ctx), p, now, keyID, ctx)
  {
    var skew := AllowedSkew(ctx.clockSkew);
    assert Skew(ctx) == skew;
    VersionGate(p, ctx.productVersion, now, skew);
    GatesInOrder(staticCode, p, now, ctx, CheckVersion(p, ctx.productVersion, now, skew));
    if staticCode == OK { ExpiryGate(p, now, skew); }
  }

  /** The result with this code: nothing of the license on a refusal. */
  function ResultFor(code: Code, p: Payload, now: Instant, keyID: string, ctx: Context): ValidationResult
  {
    if code != OK then ValidationResult(Invalid, code, "", "", "", None, None, None, now, "")
    else
      var grace := p.expiresAt.Some? && now > p.expiresAt.value + AllowedSkew(ctx.clockSkew);
      ValidationResult(if grace then Grace else Valid, OK, p.licenseID, p.productID, p.licenseType,
                       p.notBefore, p.expiresAt, GraceEnd(p), now, keyID)
  }

  /** The result is fixed by the license, the context and the time: the code by
      CodeFor, the status and the fields by ResultFor. */
  lemma ResultExactly(p: Payload, now: Instant, keyID: string, ctx: Context)
    ensures Validate(p, now, keyID, ctx) == ResultFor(CodeFor(ValidateStatic(p, ctx.parses), p, now, ctx), p, now, keyID, ctx)
  {
    StaticExactly(p, ctx.parses);
    ApplyGatesExactly(ValidateStatic(p, ctx.parses), p, now, keyID, ctx);
  }

  lemma GivenIsOK(staticCode: Code, p: Payload, now: Instant, ctx: Context, versionMatches: bool, maintenance: Option<Instant>)
    ensures var skew := AllowedSkew(ctx.clockSkew);
            CodeGiven(staticCode, p, now, ctx, versionMatches, maintenance) == OK <==>
            && staticCode == OK && NotRevoked(p, ctx.revoked) && ProductMatches(p, ctx.productID)
            && versionMatches && DeviceMatches(p, ctx.deviceFingerprint)
            && Opens(p, skew) <= now && !Past(Earlier(ExpiryCloses(p, skew), maintenance), now)
  {
  }

  lemma CodeIsOK(staticCode: Code, p: Payload, now: Instant, ctx: Context)
    requires staticCode == OK <==> StaticallyValid(p, ctx.parses)
    ensures CodeFor(staticCode, p, now, ctx) == OK <==>
            TimelessChecksPass(p, ctx) && InInterval(p, ctx.productVersion, AllowedSkew(ctx.clockSkew), now)
  {
    GivenIsOK(staticCode, p, now, ctx, VersionMatches(p, ctx.productVersion),
              MaintenanceCloses(p, ctx.productVersion, AllowedSkew(ctx.clockSkew)));
  }

  /** A license is usable exactly when the timeless checks pass and the trusted
      time lies between its opening and its closing time. */
  lemma ValidityIsOneInterval(p: Payload, now: Instant, keyID: string, ctx: Context)
    ensures Validate(p, now, keyID, ctx).Usable() <==>
            TimelessChecksPass(p, ctx) && InInterval(p, ctx.productVersion, AllowedSkew(ctx.clockSkew), now)
  {
    StaticExactly(p, ctx.parses);
    ResultExactly(p, now, keyID, ctx);
    CodeIsOK(ValidateStatic(p, ctx.parses), p, now, ctx);
  }

  /** Which refusal a license gets at each time, once the timeless checks pass:
      too early, beyond maintenance, expired, the first that applies. */
  lemma CodeByTime(p: Payload, now: Instant, keyID: string, ctx: Context)
    requires TimelessChecksPass(p, ctx)
    ensures var skew := AllowedSkew(ctx.clockSkew);
            Validate(p, now, keyID, ctx).code ==
            if now < Opens(p, skew) then NotYetValid
            else if Past(MaintenanceCloses(p, ctx.productVersion, skew), now) then VersionUnsupported
            else if Past(ExpiryCloses(p, skew), now) then Expired
            else OK
  {
    StaticExactly(p, ctx.parses);
    ResultExactly(p, now, keyID, ctx);
  }

  /** Inside the interval the status is Valid up to the expiry plus skew and
      Grace after it, so it never returns from Grace to Valid. */
  lemma StatusByTime(p: Payload, now: Instant, keyID: string, ctx: Context)
    requires Validate(p, now, keyID, ctx).Usable()
    ensures Validate(p, now, keyID, ctx).status ==
            if p.expiresAt.Some? && now > p.expiresAt.value + AllowedSkew(ctx.clockSkew) then Grace else Valid
  {
    ResultExactly(p, now, keyID, ctx);
  }

  /** With 64-bit products, a grace period of 200000 days would end before it
      began; the static cap is what rules this out. */
  lemma UncappedGraceOverflows()
    ensures GraceDuration(200_000) < 0
  {
  }
}
