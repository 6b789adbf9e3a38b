/** Signing and verifying licenses: what the issuer signs, the client accepts,
    and no two kinds of signed message can ever coincide. */
module License {
  import opened Text
  import opened Json
  import opened StrictJson
  import opened Canonical
  import opened Model

  /** Bytes, one character each. */
  type Bytes = string

  const SIGNATURE_SIZE := 64
  const LICENSE_SIGNING_DOMAIN: Bytes := "grantseal/license/v2\0"
  const REVOCATION_SIGNING_DOMAIN: Bytes := "grantseal/revocation/v2\0"
  const ALGORITHM_ED25519 := "Ed25519"

  /** The library functions the protocols rely on: Ed25519, Base64URL, JSON
      lexing and SHA-256. */
  datatype Platform = Platform(
    publicKey: string -> string,
    sign: (string, Bytes) -> Bytes,
    verify: (string, Bytes, Bytes) -> bool,
    base64: Bytes -> string,
    unbase64: string -> Option<Bytes>,
    lexeme: Lex -> Bytes,
    lex: Bytes -> seq<Lex>,
    sha256: Bytes -> string)

  /** The bytes of a token sequence. */
  function Render(pl: Platform, toks: seq<Lex>): Bytes
  {
    if toks == [] then [] else pl.lexeme(toks[0]) + Render(pl, toks[1..])
  }

  /** What the library functions promise: signing verifies, and Base64URL
      decodes what it encoded. */
  ghost predicate PlatformLaws(pl: Platform)
  {
    && (forall key, m {:trigger pl.sign(key, m)} ::
          pl.verify(pl.publicKey(key), m, pl.sign(key, m)) && |pl.sign(key, m)| == SIGNATURE_SIZE)
    && (forall b :: pl.unbase64(pl.base64(b)) == Some(b))
    && pl.lexeme(LBrace) == "{"
  }

  /** encoding/json's mapping between a Go struct and JSON values. Marshalling
      fails for times that have no JSON form. */
  datatype Codec<!P> = Codec(marshal: P -> Option<Value>, unmarshal: seq<Lex> -> Option<P>)

  /** Structs marshal to objects, whose canonical text lexes back from its bytes
      and unmarshals to the struct. */
  ghost predicate CodecLaws<P(!new)>(pl: Platform, c: Codec<P>)
  {
    forall p {:trigger c.marshal(p)} :: c.marshal(p).Some? ==>
      var v := c.marshal(p).value;
      && v.Obj?
      && pl.lex(Render(pl, CanonicalText(v))) == CanonicalText(v)
      && c.unmarshal(CanonicalText(v)) == Some(p)
  }

  /** The two sets of laws can be met together, by a codec that marshals `p`. */
  lemma LawsAreConsistent<P(!new)>(p: P) returns (pl: Platform, c: Codec<P>)
    ensures PlatformLaws(pl) && CodecLaws(pl, c) && c.marshal(p).Some?
  {
    var v, zeros := Obj(map[]), seq(SIGNATURE_SIZE, _ => '0');
    pl := Platform(k => k, (k, m) => zeros, (k, m, sig) => true, b => b, b => Some(b),
                   lex => "{", bytes => CanonicalText(v), bytes => bytes);
    c := Codec(q => if q == p then Some(v) else None, toks => Some(p));
    forall key, m ensures pl.verify(pl.publicKey(key), m, pl.sign(key, m)) && |pl.sign(key, m)| == SIGNATURE_SIZE { }
  }

  /** The canonical bytes of a struct, if it marshals. */
  function CanonicalBytes<P>(pl: Platform, c: Codec<P>, p: P): Option<Bytes>
  {
    var v := c.marshal(p);
    if v.None? then None else Some(Render(pl, CanonicalText(v.value)))
  }

  /** decodeStrictJSON: nonempty, within `cap` (0 disables it), one value, no
      repeated key, known fields only. */
  function DecodeStrictJSON<P>(pl: Platform, c: Codec<P>, data: Bytes, cap: nat): Result<P>
  {
    if data == [] then Err(Malformed)
    else if cap > 0 && |data| > cap then Err(FileTooLarge)
    else if Checked(pl.lex(data)) != Some([]) then Err(Malformed)
    else
      var p := c.unmarshal(pl.lex(data));
      if p.None? then Err(Malformed) else Ok(p.value)
  }

  // ----- The key ring -----

  datatype KeyEntry = KeyEntry(publicKey: string, enabled: bool, revoked: bool,
                               notBefore: Option<Instant>, notAfter: Option<Instant>)

  type KeyRing = map<string, KeyEntry>

  /** The kill switches only, not the time window. */
  function LookupPublicKey(ring: KeyRing, keyID: string): Result<KeyEntry>
  {
    if keyID !in ring then Err(KeyUnknown)
    else if ring[keyID].revoked then Err(KeyRevoked)
    else if !ring[keyID].enabled then Err(KeyDisabled)
    else Ok(ring[keyID])
  }

  predicate InWindow(e: KeyEntry, t: Instant)
  {
    (e.notBefore.Some? ==> e.notBefore.value <= t) && (e.notAfter.Some? ==> t <= e.notAfter.value)
  }

  function CheckKeyPolicy(e: KeyEntry, issuedAt: Instant): Code
  {
    if e.revoked then KeyRevoked
    else if !e.enabled then KeyDisabled
    else if e.notBefore.Some? && issuedAt < e.notBefore.value then KeyDisabled
    else if e.notAfter.Some? && issuedAt > e.notAfter.value then KeyDisabled
    else OK
  }

  /** The window at `now`, as the revocation path wants it. */
  function LookupKey(ring: KeyRing, keyID: string, now: Instant): Result<KeyEntry>
  {
    var e := LookupPublicKey(ring, keyID);
    if e.Err? then e
    else if e.value.notBefore.Some? && now < e.value.notBefore.value then Err(KeyDisabled)
    else if e.value.notAfter.Some? && now > e.value.notAfter.value then Err(KeyDisabled)
    else e
  }

  // ----- Envelope and verification -----

  datatype Envelope = Envelope(algorithm: string, keyID: string, payload: string, signature: string)

  function LicenseSigningInput(canonical: Bytes): Bytes { LICENSE_SIGNING_DOMAIN + canonical }

  function RevocationSigningInput(canonical: Bytes): Bytes { REVOCATION_SIGNING_DOMAIN + canonical }

  function DecodeCanonical(pl: Platform, env: Envelope): Result<Bytes>
  {
    var b := pl.unbase64(env.payload);
    if b.None? || b.value == [] then Err(Malformed) else Ok(b.value)
  }

  /** Verifier.Verify, check by check. None is a nil ring or envelope. */
  function Verify(pl: Platform, c: Codec<Payload>, ring: Option<KeyRing>, env: Option<Envelope>): Result<Payload>
  {
    if ring.None? then Err(SignatureInvalid)
    else if env.None? then Err(Malformed)
    else if env.value.algorithm != ALGORITHM_ED25519 then Err(UnsupportedAlgorithm)
    else
      var entry := LookupPublicKey(ring.value, env.value.keyID);
      var canonical := DecodeCanonical(pl, env.value);
      var sig := pl.unbase64(env.value.signature);
      if entry.Err? then Err(entry.code)
      else if canonical.Err? then Err(canonical.code)
      else if sig.None? then Err(Malformed)
      else if |sig.value| != SIGNATURE_SIZE then Err(SignatureInvalid)
      else if !pl.verify(entry.value.publicKey, LicenseSigningInput(canonical.value), sig.value) then Err(SignatureInvalid)
      else
        var payload := DecodeStrictJSON(pl, c, canonical.value, MAX_LICENSE_FILE_SIZE);
        if payload.Err? then payload
        else if payload.value.keyID != env.value.keyID then Err(KeyIDMismatch)
        else if CheckKeyPolicy(entry.value, payload.value.issuedAt) != OK
        then Err(CheckKeyPolicy(entry.value, payload.value.issuedAt))
        else
          var recanon := CanonicalBytes(pl, c, payload.value);
          if recanon.None? then Err(Malformed)
          else if recanon.value != canonical.value then Err(NonCanonicalPayload)
          else payload
  }

  // ----- Signing -----

  datatype Signer = Signer(keyID: string, priv: string)

  /** NewEnvelope. */
  function Seal(pl: Platform, keyID: string, canonical: Bytes, sig: Bytes): Envelope
  {
    Envelope(ALGORITHM_ED25519, keyID, pl.base64(canonical), pl.base64(sig))
  }

  /** The fields SignPayload sets before it validates. */
  function Stamp(s: Signer, p: Payload): Payload
  {
    p.(keyID := s.keyID, schemaVersion := if p.schemaVersion == 0 then LICENSE_SCHEMA_VERSION else p.schemaVersion)
  }

  /** The envelope for an already stamped payload. */
  function SealPayload(pl: Platform, c: Codec<Payload>, s: Signer, p: Payload, parses: string -> bool): Result<Envelope>
  {
    if ValidateStatic(p, parses) != OK then Err(ValidateStatic(p, parses))
    else
      var canonical := CanonicalBytes(pl, c, p);
      if canonical.None? then Err(Malformed)
      else Ok(Seal(pl, s.keyID, canonical.value, pl.sign(s.priv, LicenseSigningInput(canonical.value))))
  }

  /** A payload the caller shares with the signer. */
  class PayloadRef {
    var p: Payload

    constructor (p: Payload)
      ensures this.p == p
    {
      this.p := p;
    }
  }

  /** Stamps the caller's payload in place, even when validation then fails. */
  method SignPayload(pl: Platform, c: Codec<Payload>, s: Option<Signer>, ref: PayloadRef, parses: string -> bool)
    returns (r: Result<Envelope>)
    modifies ref
    ensures s.None? ==> r == Err(Malformed) && ref.p == old(ref.p)
    ensures s.Some? ==> ref.p == Stamp(s.value, old(ref.p)) && r == SealPayload(pl, c, s.value, ref.p, parses)
  {
    if s.None? { return Err(Malformed); }
    ref.p := ref.p.(keyID := s.value.keyID);
    if ref.p.schemaVersion == 0 { ref.p := ref.p.(schemaVersion := LICENSE_SCHEMA_VERSION); }
    var invalid := ValidateStatic(ref.p, parses);
    if invalid != OK { return Err(invalid); }
    var value := c.marshal(ref.p);
    if value.None? { return Err(Malformed); }
    var buf := new Buffer();
    EncodeCanonical(buf, value.value);
    assert buf.toks == CanonicalText(value.value);
    var canonical := Render(pl, buf.toks);
    return Ok(Seal(pl, s.value.keyID, canonical, pl.sign(s.value.priv, LicenseSigningInput(canonical))));
  }

  // ----- The contract between issuer and client -----

  /** Canonical bytes of a struct read back strictly. */
  lemma CanonicalBytesDecode<P(!new)>(pl: Platform, c: Codec<P>, p: P, cap: nat)
    requires PlatformLaws(pl) && CodecLaws(pl, c) && CanonicalBytes(pl, c, p).Some?
    ensures var b := CanonicalBytes(pl, c, p).value;
            && b != [] && b[0] == '{'
            && pl.lex(b) == CanonicalText(c.marshal(p).value)
            && StrictDocument(pl.lex(b))
            && c.unmarshal(pl.lex(b)) == Some(p)
            && DecodeStrictJSON(pl, c, b, cap) == if cap > 0 && |b| > cap then Err(FileTooLarge) else Ok(p)
  {
    var v := c.marshal(p).value;
    var toks := CanonicalText(v);
    CanonicalIsStrict(v);
    StrictIsChecked(toks);
    ObjectStarts(v);
    assert Render(pl, toks) == "{" + Render(pl, toks[1..]);
  }

  lemma ObjectStarts(v: Value)
    requires v.Obj?
    ensures CanonicalText(v)[0] == LBrace
  {
    var t := ToTree(v);
    assert t.JObj?;
    match t.members
    case MNil =>
    case MCons(_, _, _) =>
  }

  /** The client's ring holds the signer's key, usable at issuance. */
  predicate RingTrusts(pl: Platform, ring: KeyRing, s: Signer, issuedAt: Instant)
  {
    && s.keyID in ring
    && ring[s.keyID].publicKey == pl.publicKey(s.priv)
    && ring[s.keyID].enabled && !ring[s.keyID].revoked
    && InWindow(ring[s.keyID], issuedAt)
  }

  /** Every payload the signer seals verifies under a ring that trusts its key,
      exactly up to the size the client decodes. */
  lemma SealedVerifies(pl: Platform, c: Codec<Payload>, ring: KeyRing, s: Signer, p: Payload, parses: string -> bool)
    requires PlatformLaws(pl) && CodecLaws(pl, c)
    requires p.keyID == s.keyID && SealPayload(pl, c, s, p, parses).Ok?
    requires RingTrusts(pl, ring, s, p.issuedAt)
    ensures CanonicalBytes(pl, c, p).Some?
    ensures Verify(pl, c, Some(ring), Some(SealPayload(pl, c, s, p, parses).value)) ==
            if |CanonicalBytes(pl, c, p).value| <= MAX_LICENSE_FILE_SIZE then Ok(p) else Err(FileTooLarge)
  {
    var canonical := CanonicalBytes(pl, c, p).value;
    var env := SealPayload(pl, c, s, p, parses).value;
    CanonicalBytesDecode(pl, c, p, MAX_LICENSE_FILE_SIZE);
    var sig := pl.sign(s.priv, LicenseSigningInput(canonical));
    assert pl.unbase64(env.payload) == Some(canonical) && pl.unbase64(env.signature) == Some(sig);
    assert pl.verify(pl.publicKey(s.priv), LicenseSigningInput(canonical), sig) && |sig| == SIGNATURE_SIZE;
  }

  /** Exactly the statically valid payloads with a JSON form are sealed. */
  lemma SealsExactly(pl: Platform, c: Codec<Payload>, s: Signer, p: Payload, parses: string -> bool)
    ensures SealPayload(pl, c, s, p, parses).Ok? <==> StaticallyValid(p, parses) && c.marshal(p).Some?
  {
    StaticExactly(p, parses);
  }

  /** What SignPayload seals of a caller's payload verifies, and comes back as
      that payload under the signer's key id and the current schema. */
  lemma SignedVerifies(pl: Platform, c: Codec<Payload>, ring: KeyRing, s: Signer, given: Payload, parses: string -> bool)
    requires PlatformLaws(pl) && CodecLaws(pl, c)
    requires SealPayload(pl, c, s, Stamp(s, given), parses).Ok? && RingTrusts(pl, ring, s, given.issuedAt)
    ensures var p, sealed := given.(keyID := s.keyID, schemaVersion := 2), SealPayload(pl, c, s, Stamp(s, given), parses).value;
            && CanonicalBytes(pl, c, p).Some?
            && Verify(pl, c, Some(ring), Some(sealed)) ==
               if |CanonicalBytes(pl, c, p).value| <= MAX_LICENSE_FILE_SIZE then Ok(p) else Err(FileTooLarge)
  {
    StaticExactly(Stamp(s, given), parses);
    SealedVerifies(pl, c, ring, s, Stamp(s, given), parses);
  }

  /** How a refusal for the key reads: unknown, revoked, disabled, in this order,
      before anything is decoded; then what cannot be decoded is malformed, and
      a signature that does not verify is a signature failure. */
  lemma VerifyRefusals(pl: Platform, c: Codec<Payload>, ring: KeyRing, env: Envelope)
    requires env.algorithm == "Ed25519"
    ensures env.keyID !in ring ==> Verify(pl, c, Some(ring), Some(env)) == Err(KeyUnknown)
    ensures env.keyID in ring && ring[env.keyID].revoked ==> Verify(pl, c, Some(ring), Some(env)) == Err(KeyRevoked)
    ensures env.keyID in ring && !ring[env.keyID].revoked && !ring[env.keyID].enabled ==>
              Verify(pl, c, Some(ring), Some(env)) == Err(KeyDisabled)
    ensures env.keyID in ring && !ring[env.keyID].revoked && ring[env.keyID].enabled
            && (pl.unbase64(env.payload).None? || pl.unbase64(env.payload).value == [] || pl.unbase64(env.signature).None?) ==>
              Verify(pl, c, Some(ring), Some(env)) == Err(Malformed)
    ensures env.keyID in ring && !ring[env.keyID].revoked && ring[env.keyID].enabled
            && pl.unbase64(env.payload).Some? && pl.unbase64(env.payload).value != [] && pl.unbase64(env.signature).Some?
            && (|pl.unbase64(env.signature).value| != 64
                || !pl.verify(ring[env.keyID].publicKey, LICENSE_SIGNING_DOMAIN + pl.unbase64(env.payload).value, pl.unbase64(env.signature).value)) ==>
              Verify(pl, c, Some(ring), Some(env)) == Err(SignatureInvalid)
  {
  }

  /** The envelope is signed over these bytes by a live key of the ring. */
  predicate Signs(pl: Platform, ring: KeyRing, env: Envelope, canonical: Bytes)
  {
    && env.algorithm == "Ed25519"
    && env.keyID in ring && ring[env.keyID].enabled && !ring[env.keyID].revoked
    && canonical != [] && pl.unbase64(env.payload) == Some(canonical)
    && pl.unbase64(env.signature).Some? && |pl.unbase64(env.signature).value| == 64
    && pl.verify(ring[env.keyID].publicKey, LICENSE_SIGNING_DOMAIN + canonical, pl.unbase64(env.signature).value)
  }

  /** What a signed envelope then gets, whoever made it: too large, not one strict
      document of a payload, another key id, outside the key's window, not
      canonical, or the payload. */
  lemma SignedEnvelope(pl: Platform, c: Codec<Payload>, ring: KeyRing, env: Envelope, canonical: Bytes)
    requires Signs(pl, ring, env, canonical)
    ensures var p := c.unmarshal(pl.lex(canonical));
            Verify(pl, c, Some(ring), Some(env)) ==
            if |canonical| > 64 * 1024 then Err(FileTooLarge)
            else if !StrictDocument(pl.lex(canonical)) || p.None? then Err(Malformed)
            else if p.value.keyID != env.keyID then Err(KeyIDMismatch)
            else if !InWindow(ring[env.keyID], p.value.issuedAt) then Err(KeyDisabled)
            else if CanonicalBytes(pl, c, p.value).None? then Err(Malformed)
            else if CanonicalBytes(pl, c, p.value) != Some(canonical) then Err(NonCanonicalPayload)
            else Ok(p.value)
  {
    StrictIsChecked(pl.lex(canonical));
  }

  /** Conversely, whatever verifies carries exactly the canonical bytes of the
      payload returned, as one strict document, validly signed by a live key of
      the ring that was in its window at issuance. */
  lemma VerifiedIsCanonical(pl: Platform, c: Codec<Payload>, ring: KeyRing, env: Envelope, p: Payload)
    requires CodecLaws(pl, c) && Verify(pl, c, Some(ring), Some(env)) == Ok(p)
    ensures pl.unbase64(env.payload) == CanonicalBytes(pl, c, p) && CanonicalBytes(pl, c, p).Some?
    ensures StrictDocument(pl.lex(CanonicalBytes(pl, c, p).value))
    ensures |CanonicalBytes(pl, c, p).value| <= MAX_LICENSE_FILE_SIZE
    ensures env.algorithm == "Ed25519"
    ensures p.keyID == env.keyID && p.keyID in ring && ring[p.keyID].enabled && !ring[p.keyID].revoked
    ensures InWindow(ring[p.keyID], p.issuedAt)
    ensures exists sig :: pl.unbase64(env.signature) == Some(sig) && |sig| == 64
              && pl.verify(ring[p.keyID].publicKey, LicenseSigningInput(CanonicalBytes(pl, c, p).value), sig)
  {
    StrictIsChecked(pl.lex(CanonicalBytes(pl, c, p).value));
    assert pl.unbase64(env.signature).Some?;
  }

  // ----- Domain separation -----

  /** No license input, v2 revocation input or bare v1 encoding of an object is
      ever the same signed message, and each input determines its bytes. */
  lemma DomainsNeverMeet(pl: Platform, a: Bytes, b: Bytes, v: Value)
    requires pl.lexeme(LBrace) == "{" && v.Obj?
    ensures LicenseSigningInput(a) != RevocationSigningInput(b)
    ensures LicenseSigningInput(a) != Render(pl, CanonicalText(v))
    ensures RevocationSigningInput(b) != Render(pl, CanonicalText(v))
    ensures LicenseSigningInput(a) == LicenseSigningInput(b) ==> a == b
    ensures RevocationSigningInput(a) == RevocationSigningInput(b) ==> a == b
  {
    assert LicenseSigningInput(a)[10] == 'l' && RevocationSigningInput(b)[10] == 'r';
    assert LicenseSigningInput(a)[0] == 'g' && RevocationSigningInput(b)[0] == 'g';
    ObjectStarts(v);
    assert Render(pl, CanonicalText(v))[0] == '{';
    assert LicenseSigningInput(a)[|LICENSE_SIGNING_DOMAIN|..] == a;
    assert LicenseSigningInput(b)[|LICENSE_SIGNING_DOMAIN|..] == b;
    assert RevocationSigningInput(a)[|REVOCATION_SIGNING_DOMAIN|..] == a;
    assert RevocationSigningInput(b)[|REVOCATION_SIGNING_DOMAIN|..] == b;
  }
}
