/** The license payload, its stable codes and its static validation. */
module Model {
  import opened Text

  /** The stable machine-readable codes. */
  datatype Code =
    | OK | FileNotFound | FileTooLarge | Malformed | UnsupportedAlgorithm | UnsupportedSchema
    | KeyUnknown | KeyDisabled | KeyRevoked | SignatureInvalid | KeyIDMismatch
    | InvalidEnum | InvalidLimits | Revoked | NotYetValid | Expired | ClockRollback
    | DeviceMismatch | ProductMismatch | VersionUnsupported | StateIntegrityFailure
    | ProductRequired | NonCanonicalPayload
    | RevocationStale | RevocationFromFuture | RevocationExpired | RevocationRollback
    | RevocationStateIntegrityFailure

  datatype Result<+T> = Ok(value: T) | Err(code: Code)

  /** Nanoseconds since the zero time, 1 January of year 1 UTC. */
  type Instant = int
  const ZERO_TIME: Instant := 0

  /** time.Time has a JSON form in the years 0 to 9999. */
  predicate HasJSONForm(t: Instant)
  {
    -366 * 24 * HOUR <= t < 3_652_059 * 24 * HOUR
  }

  /** Nanoseconds; the source holds them in 64 bits. */
  type Duration = int
  const HOUR: Duration := 3600 * 1_000_000_000
  const DEFAULT_CLOCK_SKEW: Duration := 300 * 1_000_000_000

  const LICENSE_SCHEMA_VERSION := 2
  const MAX_LICENSE_FILE_SIZE := 64 * 1024
  const MAX_FEATURES := 256
  const MAX_LIMITS := 256
  const MAX_DEVICE_IDS := 256
  const MAX_METADATA_ENTRIES := 256
  const MAX_METADATA_KEY_LEN := 1024
  const MAX_METADATA_VAL_LEN := 1024
  const MAX_GRACE_DAYS := 3650
  const MAX_LIMIT_VALUE := 0x100_0000_0000

  datatype VersionConstraint = VersionConstraint(
    minVersion: string, maxVersion: string, maintenanceUntil: Option<Instant>, coveredMaxVersion: string)

  datatype DeviceBinding = DeviceBinding(mode: string, deviceIDs: seq<string>)

  datatype Payload = Payload(
    schemaVersion: int, licenseID: string, serialNumber: string, productID: string,
    customerID: string, customerName: string, edition: string, licenseType: string,
    issuedAt: Instant, notBefore: Option<Instant>, expiresAt: Option<Instant>, gracePeriodDays: int,
    features: seq<string>, limits: map<string, int>, deviceBinding: DeviceBinding,
    versionConstraint: VersionConstraint, metadata: map<string, string>, keyID: string)

  /** Go's len on a string: UTF-8 bytes. */
  function ByteLen(s: string): nat
  {
    if s == [] then 0
    else
      (if s[0] < '\U{80}' then 1 else if s[0] < '\U{800}' then 2 else if s[0] < '\U{10000}' then 3 else 4)
      + ByteLen(s[1..])
  }

  function ValidateIdentity(p: Payload): Code
  {
    if p.schemaVersion != LICENSE_SCHEMA_VERSION then UnsupportedSchema
    else if p.licenseID == "" || p.productID == "" || p.keyID == "" then Malformed
    else if p.issuedAt == ZERO_TIME then Malformed
    else OK
  }

  function ValidateEnums(p: Payload): Code
  {
    var n := |p.deviceBinding.deviceIDs|;
    if p.edition !in {"trial", "basic", "professional", "enterprise"} then InvalidEnum
    else if p.licenseType !in {"trial", "subscription", "lifetime"} then InvalidEnum
    else if p.deviceBinding.mode !in {"none", "single", "multi"} then InvalidEnum
    else if p.deviceBinding.mode == "none" && n != 0 then Malformed
    else if p.deviceBinding.mode == "single" && n != 1 then Malformed
    else if p.deviceBinding.mode == "multi" && n == 0 then Malformed
    else OK
  }

  function ValidateCaps(p: Payload): Code
  {
    if p.gracePeriodDays < 0 || p.gracePeriodDays > MAX_GRACE_DAYS then InvalidLimits
    else if |p.features| > MAX_FEATURES then InvalidLimits
    else if |p.limits| > MAX_LIMITS then InvalidLimits
    else if |p.deviceBinding.deviceIDs| > MAX_DEVICE_IDS then InvalidLimits
    else if |p.metadata| > MAX_METADATA_ENTRIES then InvalidLimits
    else if exists k :: k in p.metadata && (ByteLen(k) > MAX_METADATA_KEY_LEN || ByteLen(p.metadata[k]) > MAX_METADATA_VAL_LEN)
    then InvalidLimits
    else OK
  }

  /** `parses` is fingerprint.Parse's verdict on one device id. */
  function ValidateDeviceIDFormat(p: Payload, parses: string -> bool): Code
  {
    if p.deviceBinding.mode in {"single", "multi"} && exists id :: id in p.deviceBinding.deviceIDs && !parses(id)
    then Malformed else OK
  }

  function ValidateLimitsRange(p: Payload): Code
  {
    if exists k :: k in p.limits && (k == "" || p.limits[k] < 0 || p.limits[k] > MAX_LIMIT_VALUE)
    then InvalidLimits else OK
  }

  function ValidateTimeSemantics(p: Payload): Code
  {
    if p.notBefore.Some? && p.expiresAt.Some? && p.expiresAt.value < p.notBefore.value then Malformed
    else if p.licenseType in {"trial", "subscription"} && p.expiresAt.None? then Malformed
    else if p.licenseType == "lifetime" && p.expiresAt.Some? then Malformed
    else if p.expiresAt.Some? && p.expiresAt.value < p.issuedAt then Malformed
    else if p.notBefore.Some? && p.notBefore.value < p.issuedAt then Malformed
    else OK
  }

  /** The first failing static check decides the code. */
  function ValidateStatic(p: Payload, parses: string -> bool): Code
  {
    if ValidateIdentity(p) != OK then ValidateIdentity(p)
    else if ValidateEnums(p) != OK then ValidateEnums(p)
    else if ValidateCaps(p) != OK then ValidateCaps(p)
    else if ValidateDeviceIDFormat(p, parses) != OK then ValidateDeviceIDFormat(p, parses)
    else if ValidateLimitsRange(p) != OK then ValidateLimitsRange(p)
    else ValidateTimeSemantics(p)
  }

  // ----- What a statically valid payload is -----

  predicate Identified(p: Payload)
  {
    p.licenseID != "" && p.productID != "" && p.keyID != "" && p.issuedAt != ZERO_TIME
  }

  predicate KnownEnums(p: Payload)
  {
    && p.edition in {"trial", "basic", "professional", "enterprise"}
    && p.licenseType in {"trial", "subscription", "lifetime"}
    && p.deviceBinding.mode in {"none", "single", "multi"}
  }

  /** No device for an unbound license, one for "single", at least one for
      "multi", each a well-formed fingerprint. */
  predicate DevicesFit(p: Payload, parses: string -> bool)
  {
    var ids := p.deviceBinding.deviceIDs;
    && (p.deviceBinding.mode == "none" <==> ids == [])
    && (p.deviceBinding.mode == "single" ==> |ids| == 1)
    && forall i :: 0 <= i < |ids| ==> parses(ids[i])
  }

  predicate WithinCaps(p: Payload)
  {
    && 0 <= p.gracePeriodDays <= 3650
    && |p.features| <= 256 && |p.limits| <= 256 && |p.deviceBinding.deviceIDs| <= 256 && |p.metadata| <= 256
    && (forall k :: k in p.metadata ==> ByteLen(k) <= 1024 && ByteLen(p.metadata[k]) <= 1024)
    && (forall k :: k in p.limits ==> k != "" && 0 <= p.limits[k] <= 0x100_0000_0000)
  }

  /** Exactly the time-limited types expire, and issue, start and expiry come in
      this order. */
  predicate TimesFit(p: Payload)
  {
    && (p.licenseType == "lifetime" <==> p.expiresAt.None?)
    && (p.notBefore.Some? ==> p.issuedAt <= p.notBefore.value)
    && (p.expiresAt.Some? ==> p.issuedAt <= p.expiresAt.value)
    && (p.notBefore.Some? && p.expiresAt.Some? ==> p.notBefore.value <= p.expiresAt.value)
  }

  predicate StaticallyValid(p: Payload, parses: string -> bool)
  {
    p.schemaVersion == 2 && Identified(p) && KnownEnums(p) && DevicesFit(p, parses) && WithinCaps(p) && TimesFit(p)
  }

  /** The static checks accept exactly these payloads. */
  lemma StaticExactly(p: Payload, parses: string -> bool)
    ensures ValidateStatic(p, parses) == OK <==> StaticallyValid(p, parses)
  {
    assert forall i :: 0 <= i < |p.deviceBinding.deviceIDs| ==> p.deviceBinding.deviceIDs[i] in p.deviceBinding.deviceIDs;
  }

  /** How a refusal reads: an unknown schema first, then a missing identity, then
      an unknown enum value; a cap or a range is reported as limits. */
  lemma StaticRefusal(p: Payload, parses: string -> bool)
    ensures var code := ValidateStatic(p, parses);
            && code in {OK, UnsupportedSchema, Malformed, InvalidEnum, InvalidLimits}
            && (code == UnsupportedSchema <==> p.schemaVersion != 2)
            && (code == InvalidEnum <==> p.schemaVersion == 2 && Identified(p) && !KnownEnums(p))
            && (code == InvalidLimits ==> p.schemaVersion == 2 && Identified(p) && KnownEnums(p) && !WithinCaps(p))
            && (p.schemaVersion == 2 && Identified(p) && KnownEnums(p) && DevicesFit(p, parses) && !WithinCaps(p) ==> code == InvalidLimits)
            && (p.schemaVersion == 2 && !Identified(p) ==> code == Malformed)
            && (p.schemaVersion == 2 && Identified(p) && KnownEnums(p) && WithinCaps(p) && !(DevicesFit(p, parses) && TimesFit(p)) ==>
                  code == Malformed)
  {
    StaticExactly(p, parses);
  }
}
