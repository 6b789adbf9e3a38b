/** Signed revocation lists: building, verifying, freshness, anti-replay, and
    the contract between builder and loader. */
module Revocation {
  import opened Text
  import opened StrictJson
  import opened Canonical
  import opened Model
  import opened License
  import opened RevocationState

  const REVOCATION_SCHEMA_VERSION := 2
  const MAX_REVOKED_IDS := 100000

  datatype RevocationList = RevocationList(
    schemaVersion: int, listID: string, sequence: nat, issuedAt: Instant,
    expiresAt: Option<Instant>, keyID: string, revokedIDs: seq<string>)

  datatype RevocationPolicy = RevocationPolicy(
    clockSkew: Duration, maxAge: Duration, allowLegacyV1: bool, relaxFresh: bool)

  const STRICT_POLICY := RevocationPolicy(0, 0, false, false)

  /** A revocation file: its size, and the envelope if it parses strictly. */
  datatype RevocationFile = RevocationFile(size: nat, envelope: Option<Envelope>)

  // ----- Issuer side -----

  /** Distinct nonempty ids, in order of first occurrence. */
  function Deduped(ids: seq<string>): (r: seq<string>)
    ensures forall x :: x in r <==> x in ids && x != ""
    ensures Distinct(r)
  {
    if ids == [] then []
    else
      var front, last := Deduped(ids[..|ids|-1]), ids[|ids|-1];
      assert ids == ids[..|ids|-1] + [last];
      if last == "" || last in front then front else front + [last]
  }

  method DedupeNonEmpty(ids: seq<string>) returns (out: seq<string>)
    ensures out == Deduped(ids)
  {
    var seen: set<string> := {};
    out := [];
    for i := 0 to |ids|
      invariant out == Deduped(ids[..i])
      invariant forall x :: x in seen <==> x in out
    {
      assert ids[..i+1][..i] == ids[..i];
      if ids[i] == "" || ids[i] in seen { continue; }
      seen := seen + {ids[i]};
      out := out + [ids[i]];
    }
    assert ids[..|ids|] == ids;
  }

  datatype ListOptions = ListOptions(listID: string, sequence: nat, issuedAt: Instant, expiresAt: Instant, revokedIDs: seq<string>)

  function ListFor(s: Signer, o: ListOptions): RevocationList
  {
    RevocationList(REVOCATION_SCHEMA_VERSION, o.listID, o.sequence, o.issuedAt, Some(o.expiresAt), s.keyID, Deduped(o.revokedIDs))
  }

  /** Options a list can be built from. */
  predicate ValidOptions(o: ListOptions)
  {
    o.listID != "" && o.sequence != 0 && o.issuedAt != ZERO_TIME && o.expiresAt > o.issuedAt
  }

  method BuildRevocationListV2(pl: Platform, c: Codec<RevocationList>, s: Option<Signer>, o: ListOptions) returns (r: Option<Envelope>)
    ensures r.Some? <==> s.Some? && ValidOptions(o) && CanonicalBytes(pl, c, ListFor(s.value, o)).Some?
    ensures r.Some? ==>
              var canonical := CanonicalBytes(pl, c, ListFor(s.value, o)).value;
              r.value == Seal(pl, s.value.keyID, canonical, pl.sign(s.value.priv, RevocationSigningInput(canonical)))
  {
    if s.None? { return None; }
    if o.listID == "" { return None; }
    if o.sequence == 0 { return None; }
    if o.issuedAt == ZERO_TIME { return None; }
    if !(o.expiresAt > o.issuedAt) { return None; }
    var ids := DedupeNonEmpty(o.revokedIDs);
    var rl := RevocationList(REVOCATION_SCHEMA_VERSION, o.listID, o.sequence, o.issuedAt, Some(o.expiresAt), s.value.keyID, ids);
    var value := c.marshal(rl);
    if value.None? { return None; }
    var buf := new Buffer();
    EncodeCanonical(buf, value.value);
    assert buf.toks == CanonicalText(value.value);
    var canonical := Render(pl, buf.toks);
    return Some(Seal(pl, s.value.keyID, canonical, pl.sign(s.value.priv, RevocationSigningInput(canonical))));
  }

  // ----- Client side -----

  /** The membership set of a verified list; empty ids are dropped. */
  function Provider(rl: RevocationList): set<string>
  {
    set id | id in rl.revokedIDs && id != ""
  }

  method BuildProvider(rl: RevocationList) returns (members: set<string>)
    ensures members == Provider(rl)
  {
    members := {};
    for i := 0 to |rl.revokedIDs|
      invariant members == set id | id in rl.revokedIDs[..i] && id != ""
    {
      assert rl.revokedIDs[..i+1] == rl.revokedIDs[..i] + [rl.revokedIDs[i]];
      if rl.revokedIDs[i] != "" { members := members + {rl.revokedIDs[i]}; }
    }
    assert rl.revokedIDs[..|rl.revokedIDs|] == rl.revokedIDs;
  }

  /** Signature under the v2 domain or the bare legacy input, then a lenient
      decode, canonical equality and the checks common to both schemas. */
  function VerifySignature(pl: Platform, c: Codec<RevocationList>, publicKey: string, canonical: Bytes, sig: Bytes, keyID: string)
    : Result<(RevocationList, bool)>
  {
    var domained := pl.verify(publicKey, RevocationSigningInput(canonical), sig);
    if !domained && !pl.verify(publicKey, canonical, sig) then Err(SignatureInvalid)
    else
      var rl := c.unmarshal(pl.lex(canonical));
      if rl.None? then Err(Malformed)
      else
        var recanon := CanonicalBytes(pl, c, rl.value);
        if recanon.None? then Err(Malformed)
        else if recanon.value != canonical then Err(NonCanonicalPayload)
        else if rl.value.schemaVersion != REVOCATION_SCHEMA_VERSION && rl.value.schemaVersion != 1 then Err(UnsupportedSchema)
        else if rl.value.keyID != keyID then Err(KeyIDMismatch)
        else if |rl.value.revokedIDs| > MAX_REVOKED_IDS then Err(FileTooLarge)
        else Ok((rl.value, !domained))
  }

  function ValidateV2Static(rl: RevocationList): Code
  {
    if rl.schemaVersion != REVOCATION_SCHEMA_VERSION then Malformed
    else if rl.listID == "" then Malformed
    else if rl.sequence == 0 then Malformed
    else if rl.issuedAt == ZERO_TIME then Malformed
    else if rl.expiresAt.None? then Malformed
    else if rl.expiresAt.value <= rl.issuedAt then Malformed
    else OK
  }

  function PolicySkew(pol: RevocationPolicy): Duration
  {
    if pol.clockSkew > 0 then pol.clockSkew else DEFAULT_CLOCK_SKEW
  }

  function CheckFreshness(rl: RevocationList, now: Instant, pol: RevocationPolicy): Code
  {
    if rl.expiresAt.None? then Malformed
    else if rl.issuedAt > now + PolicySkew(pol) then RevocationFromFuture
    else if now > rl.expiresAt.value + PolicySkew(pol) then RevocationExpired
    else if pol.maxAge > 0 && rl.issuedAt < now - pol.maxAge then RevocationExpired
    else OK
  }

  /** The candidate state of a verified list. */
  function Candidate(pl: Platform, rl: RevocationList, canonical: Bytes): State
  {
    State(rl.listID, rl.sequence, rl.issuedAt, pl.sha256(canonical))
  }

  /** ParseRevocationEnvelope. */
  function ParseRevocationEnvelope(f: RevocationFile): Result<Envelope>
  {
    if f.size == 0 then Err(Malformed)
    else if f.size > MAX_REVOCATION_FILE_SIZE then Err(FileTooLarge)
    else if f.envelope.None? then Err(Malformed)
    else
      var env := f.envelope.value;
      if env.algorithm == "" || env.keyID == "" || env.payload == "" || env.signature == "" then Err(Malformed) else Ok(env)
  }

  /** The carried list and whether it is signed the legacy way; also the exact
      bytes it came as. */
  function Open(pl: Platform, c: Codec<RevocationList>, ring: KeyRing, env: Envelope, now: Instant)
    : Result<(RevocationList, bool, Bytes)>
  {
    if env.algorithm != ALGORITHM_ED25519 then Err(UnsupportedAlgorithm)
    else
      var entry := LookupKey(ring, env.keyID, now);
      var canonical, sig := pl.unbase64(env.payload), pl.unbase64(env.signature);
      if entry.Err? then Err(entry.code)
      else if canonical.None? then Err(Malformed)
      else if sig.None? then Err(Malformed)
      else if |sig.value| != SIGNATURE_SIZE then Err(SignatureInvalid)
      else
        var v := VerifySignature(pl, c, entry.value.publicKey, canonical.value, sig.value, env.keyID);
        if v.Err? then Err(v.code) else Ok((v.value.0, v.value.1, canonical.value))
  }

  /** The policy on an authentic list. */
  function Admit(rl: RevocationList, legacy: bool, now: Instant, pol: RevocationPolicy): Code
  {
    if rl.schemaVersion == 1 then if pol.allowLegacyV1 then OK else UnsupportedSchema
    else if legacy then SignatureInvalid
    else if ValidateV2Static(rl) != OK then ValidateV2Static(rl)
    else if pol.relaxFresh then OK
    else CheckFreshness(rl, now, pol)
  }

  /** Everything before the anti-replay step; the flag says whether the list
      goes through it (v2) or is an opted-in legacy list. */
  function Authenticate(pl: Platform, c: Codec<RevocationList>, ring: KeyRing, f: RevocationFile, now: Instant, pol: RevocationPolicy)
    : Result<(RevocationList, Bytes, bool)>
  {
    var env := ParseRevocationEnvelope(f);
    if env.Err? then Err(env.code)
    else
      var carried := Open(pl, c, ring, env.value, now);
      if carried.Err? then Err(carried.code)
      else
        var (rl, legacy, canonical) := carried.value;
        if Admit(rl, legacy, now, pol) != OK then Err(Admit(rl, legacy, now, pol))
        else Ok((rl, canonical, rl.schemaVersion != 1))
  }

  /** What the policy's state store holds, if it has one. */
  datatype StoreView = NoStore | InMemory(m: Entries) | OnDisk(k: Keyed, file: FileContent)

  function EntriesOf(v: StoreView): Entries
  {
    match v
    case NoStore => map[]
    case InMemory(m) => m
    case OnDisk(_, file) => Held(file)
  }

  /** The anti-replay transaction on either store; `io` is the fate of a file. */
  function Observe(v: StoreView, st: State, io: Io): (StoreView, Code)
  {
    match v
    case NoStore => (v, OK)
    case InMemory(m) =>
      var (m', code) := Transact(m, Some(st));
      (InMemory(m'), code)
    case OnDisk(k, file) =>
      var (file', code) := FileTransact(k, file, Some(st), io);
      (OnDisk(k, file'), code)
  }

  /** The outcome and the store afterwards: the anti-replay transaction comes
      last and only for an authentic, valid and fresh v2 list. */
  function Load(pl: Platform, c: Codec<RevocationList>, ring: KeyRing, f: RevocationFile, now: Instant,
                pol: RevocationPolicy, v: StoreView, io: Io): (Result<set<string>>, StoreView)
  {
    var a := Authenticate(pl, c, ring, f, now, pol);
    if a.Err? then (Err(a.code), v)
    else
      var (rl, canonical, v2) := a.value;
      if !v2 then (Ok(Provider(rl)), v)
      else
        var (v', code) := Observe(v, Candidate(pl, rl, canonical), io);
        (if code == OK then Ok(Provider(rl)) else Err(code), v')
  }

  /** The store a policy names. */
  datatype StateStore = Absent | Mem(mem: MemStore) | File(disk: FileStore)

  function Footprint(store: StateStore): set<object>
  {
    match store
    case Absent => {}
    case Mem(mem) => {mem}
    case File(disk) => {disk.file}
  }

  function ViewOf(store: StateStore): StoreView
    reads Footprint(store)
  {
    match store
    case Absent => NoStore
    case Mem(mem) => InMemory(mem.m)
    case File(disk) => OnDisk(disk.k, disk.file.content)
  }

  method CheckReplay(store: StateStore, st: State, io: Io) returns (code: Code)
    modifies Footprint(store)
    ensures (ViewOf(store), code) == Observe(old(ViewOf(store)), st, io)
  {
    match store {
      case Absent => return OK;
      case Mem(mem) => code := mem.CheckAndSave(Some(st));
      case File(disk) => code := disk.CheckAndSave(Some(st), io);
    }
  }

  method LoadRevocationListWithPolicy(pl: Platform, c: Codec<RevocationList>, ring: KeyRing, f: RevocationFile, now: Instant,
                                      pol: RevocationPolicy, store: StateStore, io: Io) returns (r: Result<set<string>>)
    modifies Footprint(store)
    ensures (r, ViewOf(store)) == Load(pl, c, ring, f, now, pol, old(ViewOf(store)), io)
  {
    var a := Authenticate(pl, c, ring, f, now, pol);
    if a.Err? { return Err(a.code); }
    var (rl, canonical, v2) := a.value;
    if v2 {
      var code := CheckReplay(store, Candidate(pl, rl, canonical), io);
      if code != OK { return Err(code); }
    }
    var members := BuildProvider(rl);
    return Ok(members);
  }

  // ----- The contract -----

  /** The file the builder's envelope is distributed as. */
  predicate CarriesList(pl: Platform, c: Codec<RevocationList>, s: Signer, o: ListOptions, f: RevocationFile)
  {
    && ValidOptions(o) && CanonicalBytes(pl, c, ListFor(s, o)).Some?
    && (var canonical := CanonicalBytes(pl, c, ListFor(s, o)).value;
        f.envelope == Some(Seal(pl, s.keyID, canonical, pl.sign(s.priv, RevocationSigningInput(canonical)))))
    && f.envelope.value.payload != "" && f.envelope.value.signature != "" && s.keyID != ""
    && 0 < f.size <= MAX_REVOCATION_FILE_SIZE
  }

  /** The builder's envelope opens to the list it was built from. */
  lemma BuiltListOpens(pl: Platform, c: Codec<RevocationList>, ring: KeyRing, s: Signer, rl: RevocationList, now: Instant)
    requires PlatformLaws(pl) && CodecLaws(pl, c) && CanonicalBytes(pl, c, rl).Some?
    requires rl.schemaVersion == REVOCATION_SCHEMA_VERSION && rl.keyID == s.keyID && RingTrusts(pl, ring, s, now)
    ensures var canonical := CanonicalBytes(pl, c, rl).value;
            Open(pl, c, ring, Seal(pl, s.keyID, canonical, pl.sign(s.priv, RevocationSigningInput(canonical))), now) ==
            if |rl.revokedIDs| > MAX_REVOKED_IDS then Err(FileTooLarge) else Ok((rl, false, canonical))
  {
    var canonical := CanonicalBytes(pl, c, rl).value;
    CanonicalBytesDecode(pl, c, rl, 0);
    var sig := pl.sign(s.priv, RevocationSigningInput(canonical));
    assert pl.unbase64(pl.base64(canonical)) == Some(canonical) && pl.unbase64(pl.base64(sig)) == Some(sig);
    assert pl.verify(pl.publicKey(s.priv), RevocationSigningInput(canonical), sig) && |sig| == SIGNATURE_SIZE;
    assert VerifySignature(pl, c, pl.publicKey(s.priv), canonical, sig, s.keyID) ==
           if |rl.revokedIDs| > MAX_REVOKED_IDS then Err(FileTooLarge) else Ok((rl, false));
  }

  /** A legacy list, signed over its bare bytes, is authenticated exactly when the
      policy opts in and it is within the entry cap; no freshness is asked. */
  lemma LegacyListIsAccepted(pl: Platform, c: Codec<RevocationList>, ring: KeyRing, s: Signer, rl: RevocationList,
                             f: RevocationFile, now: Instant, pol: RevocationPolicy, v: StoreView, io: Io)
    requires PlatformLaws(pl) && CodecLaws(pl, c) && CanonicalBytes(pl, c, rl).Some?
    requires rl.schemaVersion == 1 && rl.keyID == s.keyID != "" && RingTrusts(pl, ring, s, now)
    requires 0 < f.size <= MAX_REVOCATION_FILE_SIZE
    requires var canonical := CanonicalBytes(pl, c, rl).value;
             f.envelope == Some(Seal(pl, s.keyID, canonical, pl.sign(s.priv, canonical)))
    requires f.envelope.value.payload != "" && f.envelope.value.signature != ""
    ensures Load(pl, c, ring, f, now, pol, v, io) ==
            (if |rl.revokedIDs| > 100000 then Err(FileTooLarge)
             else if pol.allowLegacyV1 then Ok(Provider(rl)) else Err(UnsupportedSchema), v)
  {
    var canonical := CanonicalBytes(pl, c, rl).value;
    CanonicalBytesDecode(pl, c, rl, 0);
    var sig := pl.sign(s.priv, canonical);
    assert pl.unbase64(pl.base64(canonical)) == Some(canonical) && pl.unbase64(pl.base64(sig)) == Some(sig);
    assert pl.verify(pl.publicKey(s.priv), canonical, sig) && |sig| == SIGNATURE_SIZE;
    var opens := VerifySignature(pl, c, pl.publicKey(s.priv), canonical, sig, s.keyID);
    assert if |rl.revokedIDs| > 100000 then opens == Err(FileTooLarge) else opens.Ok? && opens.value.0 == rl;
    assert ParseRevocationEnvelope(f) == Ok(f.envelope.value);
  }

  /** The default policy admits a built list exactly while it is fresh. */
  lemma BuiltListIsAdmitted(s: Signer, o: ListOptions, now: Instant)
    requires ValidOptions(o)
    ensures Admit(ListFor(s, o), false, now, STRICT_POLICY) == OK <==>
            o.issuedAt - DEFAULT_CLOCK_SKEW <= now <= o.expiresAt + DEFAULT_CLOCK_SKEW
  {
  }

  /** Five minutes, unless the policy asks for a positive skew. */
  function AllowedBy(pol: RevocationPolicy): Duration
  {
    if pol.clockSkew > 0 then pol.clockSkew else 5 * 60 * 1_000_000_000
  }

  /** The last time a list counts as fresh: its expiry, or its age limit. */
  function LastFresh(rl: RevocationList, pol: RevocationPolicy): Instant
    requires rl.expiresAt.Some?
  {
    var closes := rl.expiresAt.value + AllowedBy(pol);
    if pol.maxAge > 0 && rl.issuedAt + pol.maxAge < closes then rl.issuedAt + pol.maxAge else closes
  }

  /** Under any policy a v2 list is admitted exactly when it is signed under
      the v2 domain, well-formed, and fresh on one interval of time unless
      freshness is waived. */
  lemma AdmissionIsOneInterval(rl: RevocationList, legacy: bool, now: Instant, pol: RevocationPolicy)
    requires rl.schemaVersion == REVOCATION_SCHEMA_VERSION
    ensures Admit(rl, legacy, now, pol) == OK <==>
            && !legacy && WellFormedV2(rl)
            && (pol.relaxFresh || rl.issuedAt - AllowedBy(pol) <= now <= LastFresh(rl, pol))
  {
  }

  /** How a refusal reads: a v2 list signed the legacy way, malformed, from the
      future, or expired; a legacy list is unsupported unless opted in. */
  lemma AdmissionRefusal(rl: RevocationList, legacy: bool, now: Instant, pol: RevocationPolicy)
    ensures rl.schemaVersion == 1 ==> Admit(rl, legacy, now, pol) == if pol.allowLegacyV1 then OK else UnsupportedSchema
    ensures rl.schemaVersion == 2 && legacy ==> Admit(rl, legacy, now, pol) == SignatureInvalid
    ensures rl.schemaVersion == 2 && !legacy && !WellFormedV2(rl) ==> Admit(rl, legacy, now, pol) == Malformed
    ensures rl.schemaVersion == 2 && !legacy && WellFormedV2(rl) ==>
              Admit(rl, legacy, now, pol) ==
              if pol.relaxFresh then OK
              else if now < rl.issuedAt - AllowedBy(pol) then RevocationFromFuture
              else if now > LastFresh(rl, pol) then RevocationExpired else OK
  {
  }

  predicate WellFormedV2(rl: RevocationList)
  {
    && rl.listID != "" && rl.sequence > 0 && rl.issuedAt != ZERO_TIME
    && rl.expiresAt.Some? && rl.issuedAt < rl.expiresAt.value
  }

  /** A built list is accepted by the default policy exactly while it is fresh
      and within the entry cap, and it revokes exactly the nonempty ids it was
      built from. */
  lemma BuiltListIsAccepted(pl: Platform, c: Codec<RevocationList>, ring: KeyRing, s: Signer, o: ListOptions, f: RevocationFile, now: Instant)
    requires PlatformLaws(pl) && CodecLaws(pl, c) && CarriesList(pl, c, s, o, f)
    requires RingTrusts(pl, ring, s, now)
    ensures var r := Load(pl, c, ring, f, now, STRICT_POLICY, NoStore, HEALTHY).0;
            && (r.Ok? <==> && |Deduped(o.revokedIDs)| <= MAX_REVOKED_IDS
                           && o.issuedAt - DEFAULT_CLOCK_SKEW <= now <= o.expiresAt + DEFAULT_CLOCK_SKEW)
            && (r.Ok? ==> forall x :: x in r.value <==> x in o.revokedIDs && x != "")
  {
    BuiltListOpens(pl, c, ring, s, ListFor(s, o), now);
    BuiltListIsAdmitted(s, o, now);
    assert ParseRevocationEnvelope(f) == Ok(f.envelope.value);
  }

  /** The signer's key is neither revoked nor disabled, and in its window. */
  predicate Live(ring: KeyRing, keyID: string, now: Instant)
  {
    keyID in ring && ring[keyID].enabled && !ring[keyID].revoked && InWindow(ring[keyID], now)
  }

  /** What opens is canonical, strict and signed by a live key: under the v2
      domain, or the bare legacy way. */
  lemma OpenedIsStrict(pl: Platform, c: Codec<RevocationList>, ring: KeyRing, env: Envelope, now: Instant)
    requires CodecLaws(pl, c) && Open(pl, c, ring, env, now).Ok?
    ensures var (rl, legacy, canonical) := Open(pl, c, ring, env, now).value;
            && pl.unbase64(env.payload) == Some(canonical) && pl.unbase64(env.signature).Some?
            && CanonicalBytes(pl, c, rl) == Some(canonical)
            && StrictDocument(pl.lex(canonical))
            && env.algorithm == "Ed25519" && env.keyID == rl.keyID && Live(ring, rl.keyID, now)
            && rl.schemaVersion in {1, 2} && |rl.revokedIDs| <= 100000
            && pl.verify(ring[rl.keyID].publicKey, if legacy then canonical else RevocationSigningInput(canonical),
                         pl.unbase64(env.signature).value)
  {
    var rl := Open(pl, c, ring, env, now).value.0;
    CanonicalIsStrict(c.marshal(rl).value);
  }

  /** How a refusal of an envelope reads: the algorithm, then the key (unknown,
      revoked, disabled or outside its window), then the encoding, then the
      signature under both inputs, and only then the list. */
  lemma OpenRefusals(pl: Platform, c: Codec<RevocationList>, ring: KeyRing, env: Envelope, now: Instant)
    ensures env.algorithm != "Ed25519" ==> Open(pl, c, ring, env, now) == Err(UnsupportedAlgorithm)
    ensures env.algorithm == "Ed25519" && !Live(ring, env.keyID, now) ==>
              Open(pl, c, ring, env, now) ==
              Err(if env.keyID !in ring then KeyUnknown else if ring[env.keyID].revoked then KeyRevoked else KeyDisabled)
    ensures env.algorithm == "Ed25519" && Live(ring, env.keyID, now)
            && (pl.unbase64(env.payload).None? || pl.unbase64(env.signature).None?) ==>
              Open(pl, c, ring, env, now) == Err(Malformed)
  {
  }

  lemma SignatureRefusals(pl: Platform, c: Codec<RevocationList>, publicKey: string, canonical: Bytes, sig: Bytes, keyID: string)
    ensures var rl := c.unmarshal(pl.lex(canonical));
            var v := VerifySignature(pl, c, publicKey, canonical, sig, keyID);
            var domained := pl.verify(publicKey, REVOCATION_SIGNING_DOMAIN + canonical, sig);
            if !domained && !pl.verify(publicKey, canonical, sig) then v == Err(SignatureInvalid)
            else if rl.None? || CanonicalBytes(pl, c, rl.value).None? then v == Err(Malformed)
            else if CanonicalBytes(pl, c, rl.value) != Some(canonical) then v == Err(NonCanonicalPayload)
            else if rl.value.schemaVersion !in {1, 2} then v == Err(UnsupportedSchema)
            else if rl.value.keyID != keyID then v == Err(KeyIDMismatch)
            else if |rl.value.revokedIDs| > 100000 then v == Err(FileTooLarge)
            else v == Ok((rl.value, !domained))
  {
  }

  /** The decode has no duplicate-key or trailing-data check, yet whatever is
      accepted is one strict document: re-encoding must reproduce it. It is
      signed by a live key, under the v2 domain unless it is an opted-in legacy
      list. */
  lemma AcceptedListIsStrict(pl: Platform, c: Codec<RevocationList>, ring: KeyRing, f: RevocationFile, now: Instant, pol: RevocationPolicy)
    requires CodecLaws(pl, c) && Authenticate(pl, c, ring, f, now, pol).Ok?
    ensures f.envelope.Some? && 0 < f.size <= MAX_REVOCATION_FILE_SIZE
    ensures f.envelope.value.algorithm == "Ed25519"
    ensures var (rl, canonical, v2) := Authenticate(pl, c, ring, f, now, pol).value;
            && rl.schemaVersion in {1, 2} && (v2 <==> rl.schemaVersion == 2) && |rl.revokedIDs| <= 100000
            && (v2 ==> WellFormedV2(rl) && (pol.relaxFresh || rl.issuedAt - AllowedBy(pol) <= now <= LastFresh(rl, pol)))
    ensures var (rl, canonical, v2) := Authenticate(pl, c, ring, f, now, pol).value;
            var sig := pl.unbase64(f.envelope.value.signature);
            && pl.unbase64(f.envelope.value.payload) == Some(canonical) && sig.Some?
            && CanonicalBytes(pl, c, rl) == Some(canonical)
            && StrictDocument(pl.lex(canonical))
            && Live(ring, rl.keyID, now)
            && (pl.verify(ring[rl.keyID].publicKey, RevocationSigningInput(canonical), sig.value)
                || (!v2 && pol.allowLegacyV1 && pl.verify(ring[rl.keyID].publicKey, canonical, sig.value)))
  {
    OpenedIsStrict(pl, c, ring, f.envelope.value, now);
    var (rl, legacy, _) := Open(pl, c, ring, f.envelope.value, now).value;
    AdmissionRefusal(rl, legacy, now, pol);
  }

  /** An accepted load revokes exactly the nonempty ids of the list it
      authenticated. */
  lemma LoadedRevokes(pl: Platform, c: Codec<RevocationList>, ring: KeyRing, f: RevocationFile, now: Instant,
                      pol: RevocationPolicy, v: StoreView, io: Io)
    requires Load(pl, c, ring, f, now, pol, v, io).0.Ok?
    ensures Authenticate(pl, c, ring, f, now, pol).Ok?
    ensures forall x :: x in Load(pl, c, ring, f, now, pol, v, io).0.value <==>
              x != "" && x in Authenticate(pl, c, ring, f, now, pol).value.0.revokedIDs
  {
  }

  // ----- Anti-replay over whole runs of loads -----

  /** The state a v2 list puts to the store once it is authenticated. */
  function Put(pl: Platform, c: Codec<RevocationList>, a: Attempt): Option<State>
  {
    var r := Authenticate(pl, c, a.ring, a.file, a.now, a.pol);
    if r.Ok? && r.value.2 then Some(Candidate(pl, r.value.0, r.value.1)) else None
  }

  /** The attempt carries this v2 list, as these bytes. */
  predicate Carries(pl: Platform, c: Codec<RevocationList>, a: Attempt, rl: RevocationList, canonical: Bytes)
  {
    Authenticate(pl, c, a.ring, a.file, a.now, a.pol) == Ok((rl, canonical, true))
  }

  /** One load, with everything that may differ from load to load. */
  datatype Attempt = Attempt(ring: KeyRing, file: RevocationFile, now: Instant, pol: RevocationPolicy, io: Io)

  function Try(pl: Platform, c: Codec<RevocationList>, v: StoreView, a: Attempt): (Result<set<string>>, StoreView)
  {
    Load(pl, c, a.ring, a.file, a.now, a.pol, v, a.io)
  }

  lemma ObserveMoves(v: StoreView, st: State, io: Io)
    ensures var (after, code) := Observe(v, st, io);
            && Advances(EntriesOf(v), EntriesOf(after))
            && (v.NoStore? <==> after.NoStore?)
            && (code == OK && !v.NoStore? ==> Stands(EntriesOf(after), st))
            && (code != OK && after != v ==> v.OnDisk? && io.write.VisibleButFailed?)
  {
    if v.OnDisk? { FileStepAdvances(v.k, v.file, Some(st), io); }
  }

  /** The store moves only forward, and only for an authenticated v2 list: on
      acceptance it then stands at it; on a refusal it moved only if a file
      write became visible although it failed. */
  lemma StoreMovesOnlyOnAcceptance(pl: Platform, c: Codec<RevocationList>, v: StoreView, a: Attempt)
    ensures var (r, after) := Try(pl, c, v, a);
            && Advances(EntriesOf(v), EntriesOf(after))
            && (v.NoStore? <==> after.NoStore?)
            && (Put(pl, c, a).None? ==> after == v)
            && (r.Ok? && Put(pl, c, a).Some? && !v.NoStore? ==> Stands(EntriesOf(after), Put(pl, c, a).value))
            && (r.Err? && after != v ==> v.OnDisk? && a.io.write.VisibleButFailed?)
  {
    if Put(pl, c, a).Some? { ObserveMoves(v, Put(pl, c, a).value, a.io); }
  }

  /** One load of a run: what it put to the store, its outcome, and the store
      afterwards. */
  datatype LoadStep = LoadStep(put: Option<State>, result: Result<set<string>>, after: StoreView)

  function RunLoads(pl: Platform, c: Codec<RevocationList>, v: StoreView, attempts: seq<Attempt>): (r: seq<LoadStep>)
    ensures |r| == |attempts|
    decreases |attempts|
  {
    if attempts == [] then []
    else
      var (result, after) := Try(pl, c, v, attempts[0]);
      [LoadStep(Put(pl, c, attempts[0]), result, after)] + RunLoads(pl, c, after, attempts[1..])
  }

  /** What StoreMovesOnlyOnAcceptance says of one step. */
  ghost predicate Moves(v: StoreView, e: LoadStep)
  {
    && Advances(EntriesOf(v), EntriesOf(e.after))
    && (v.NoStore? <==> e.after.NoStore?)
    && (e.result.Ok? && e.put.Some? && !v.NoStore? ==> Stands(EntriesOf(e.after), e.put.value))
  }

  ghost predicate Moving(v: StoreView, steps: seq<LoadStep>)
    decreases |steps|
  {
    steps != [] ==> Moves(v, steps[0]) && Moving(steps[0].after, steps[1..])
  }

  lemma {:induction false} LoadsMove(pl: Platform, c: Codec<RevocationList>, v: StoreView, attempts: seq<Attempt>)
    ensures Moving(v, RunLoads(pl, c, v, attempts))
    decreases |attempts|
  {
    if attempts != [] {
      StoreMovesOnlyOnAcceptance(pl, c, v, attempts[0]);
      LoadsMove(pl, c, Try(pl, c, v, attempts[0]).1, attempts[1..]);
      assert RunLoads(pl, c, v, attempts)[1..] == RunLoads(pl, c, Try(pl, c, v, attempts[0]).1, attempts[1..]);
    }
  }

  /** The load at `i` accepted a v2 list with this state. */
  predicate AcceptsAt(steps: seq<LoadStep>, i: nat, st: State)
  {
    i < |steps| && steps[i].result.Ok? && steps[i].put == Some(st)
  }

  /** Once the store has reached a state, only lists at it or beyond pass. */
  lemma {:induction false} LaterLoad(v: StoreView, steps: seq<LoadStep>, a: State, j: nat, b: State)
    requires !v.NoStore? && Moving(v, steps)
    requires Reached(EntriesOf(v), a) && AcceptsAt(steps, j, b) && a.listID == b.listID
    ensures a.sequence <= b.sequence && (a.sequence == b.sequence ==> a.payloadDigest == b.payloadDigest)
    decreases |steps|
  {
    if j > 0 { LaterLoad(steps[0].after, steps[1..], a, j - 1, b); }
  }

  lemma {:induction false} StepsNeverReplay(v: StoreView, steps: seq<LoadStep>, i: nat, a: State, j: nat, b: State)
    requires !v.NoStore? && Moving(v, steps)
    requires i < j && AcceptsAt(steps, i, a) && AcceptsAt(steps, j, b) && a.listID == b.listID
    ensures a.sequence <= b.sequence && (a.sequence == b.sequence ==> a.payloadDigest == b.payloadDigest)
    decreases |steps|
  {
    if i == 0 {
      LaterLoad(steps[0].after, steps[1..], a, j - 1, b);
    } else {
      StepsNeverReplay(steps[0].after, steps[1..], i - 1, a, j - 1, b);
    }
  }

  /** Anti-replay over any run of loads, against either store and with any file
      failures, changing clocks, rings and policies (the legacy opt-in
      included): of two accepted v2 lists of one id the later has no lower
      sequence, and an equal sequence means bytes of the same digest. */
  lemma LoadsNeverReplay(pl: Platform, c: Codec<RevocationList>, v: StoreView, attempts: seq<Attempt>, i: nat, j: nat,
                         a: RevocationList, aBytes: Bytes, b: RevocationList, bBytes: Bytes)
    requires !v.NoStore? && i < j < |attempts| && a.listID == b.listID
    requires Carries(pl, c, attempts[i], a, aBytes) && Carries(pl, c, attempts[j], b, bBytes)
    requires RunLoads(pl, c, v, attempts)[i].result.Ok? && RunLoads(pl, c, v, attempts)[j].result.Ok?
    ensures a.sequence <= b.sequence && (a.sequence == b.sequence ==> pl.sha256(aBytes) == pl.sha256(bBytes))
  {
    LoadsMove(pl, c, v, attempts);
    LoadsPut(pl, c, v, attempts, i);
    LoadsPut(pl, c, v, attempts, j);
    StepsNeverReplay(v, RunLoads(pl, c, v, attempts), i, Candidate(pl, a, aBytes), j, Candidate(pl, b, bBytes));
  }

  lemma {:induction false} LoadsPut(pl: Platform, c: Codec<RevocationList>, v: StoreView, attempts: seq<Attempt>, i: nat)
    requires i < |attempts|
    ensures RunLoads(pl, c, v, attempts)[i].put == Put(pl, c, attempts[i])
    decreases |attempts|
  {
    if i > 0 { LoadsPut(pl, c, Try(pl, c, v, attempts[0]).1, attempts[1..], i - 1); }
  }

  /** What a store that works answers to a v2 list, once it took the list `a` of
      the same id: an older list is stale, one of equal sequence with another
      digest is a rollback, and the same bytes again are accepted; none of
      these moves the store. */
  lemma ReplayIsRefused(pl: Platform, c: Codec<RevocationList>, v: StoreView, newer: Attempt, older: Attempt,
                        a: RevocationList, aBytes: Bytes, b: RevocationList, bBytes: Bytes)
    requires !v.NoStore? && Try(pl, c, v, newer).0.Ok? && Works(Try(pl, c, v, newer).1, older.io)
    requires Carries(pl, c, newer, a, aBytes) && Carries(pl, c, older, b, bBytes)
    requires a.listID == b.listID && b.sequence <= a.sequence
    ensures var v' := Try(pl, c, v, newer).1;
            var (r, after) := Try(pl, c, v', older);
            && after == v'
            && (r.Ok? <==> b.sequence == a.sequence && pl.sha256(aBytes) == pl.sha256(bBytes))
            && (r.Err? ==> r.code == if b.sequence < a.sequence then RevocationStale else RevocationRollback)
  {
    var v' := Try(pl, c, v, newer).1;
    StoreMovesOnlyOnAcceptance(pl, c, v, newer);
    ObserveReplay(v', Candidate(pl, a, aBytes), Candidate(pl, b, bBytes), older.io);
  }

  /** And to a list it has not seen, or a newer one: it is accepted and recorded,
      whenever the file can take it. */
  lemma NewerIsAccepted(pl: Platform, c: Codec<RevocationList>, v: StoreView, a: Attempt, rl: RevocationList, canonical: Bytes)
    requires Carries(pl, c, a, rl, canonical) && CanTake(v, rl, a.io)
    requires rl.listID in EntriesOf(v) ==> EntriesOf(v)[rl.listID].sequence < rl.sequence
    ensures var (r, after) := Try(pl, c, v, a);
            && r.Ok?
            && (!v.NoStore? ==>
                  EntriesOf(after) == EntriesOf(v)[rl.listID := State(rl.listID, rl.sequence, rl.issuedAt, pl.sha256(canonical))])
  {
    if v.OnDisk? { FileAcceptsNewer(v.k, v.file, Candidate(pl, rl, canonical), a.io); }
    if v.InMemory? { AcceptedExactly(v.m, Candidate(pl, rl, canonical)); }
  }

  /** The file can be read and written, and the new map encoded. */
  predicate CanTake(v: StoreView, rl: RevocationList, io: Io)
  {
    v.OnDisk? ==>
      && LoadFile(v.k, v.file, io.readable).Ok? && io.write.Done?
      && HasJSONForm(rl.issuedAt) && Encodable(Held(v.file))
  }

  /** A file store can be read. */
  predicate Works(v: StoreView, io: Io)
  {
    v.OnDisk? ==> LoadFile(v.k, v.file, io.readable).Ok?
  }

  lemma ObserveReplay(v: StoreView, a: State, b: State, io: Io)
    requires !v.NoStore? && Stands(EntriesOf(v), a) && Works(v, io) && a.listID == b.listID && b.sequence <= a.sequence
    ensures var code := if b.sequence < a.sequence then RevocationStale
                        else if a.payloadDigest == b.payloadDigest then OK else RevocationRollback;
            Observe(v, b, io) == (v, code)
  {
  }
}
