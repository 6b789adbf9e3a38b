# A verified model of grantseal's offline licensing core

grantseal signs license and revocation documents offline and checks them on a
client that keeps small state files against clock rollback and replay. This
project models the protocols behind the cryptographic calls and proves what
they keep. `dafny verify dfyconfig.toml` checks all of it.

| module | models |
|---|---|
| `Text` | string order, sorting, splitting, trimming, decimal numerals |
| `Json`, `StrictJson` | the JSON grammar over tokens, encoding/json's token reader, the duplicate-key walker |
| `Canonical` | the sorted-key printer and the "re-encode and compare" rule |
| `Version` | the SemVer parser and order |
| `Model`, `Validator` | static validation, the gates, the expiry policy |
| `DurableStore`, `AtomicFile` | the atomic replace on POSIX: every step may fail, dirty data may reach the disk at any moment, the machine may crash anywhere |
| `Evidence` | what a caller of such a store can conclude about the disk from what it saw |
| `Rollback` | the clock high-water mark over that machine |
| `RevocationState`, `RevocationDurability`, `Linearizability` | the anti-replay stores: transactions, refinement, crashes, threads, locks, the exclusive-writer registry |
| `KeyCommit`, `KeyCrash` | writing a key pair with backups under faults, and under power loss |
| `License`, `Revocation` | signing and verifying; what the issuer builds, the client accepts |
| `Manager` | whole runs of the client facade |
| `Fingerprint` | normalization, the canonical form, the primary component |

Time is an integer number of nanoseconds (0 is Go's zero time). Ed25519,
Base64URL and SHA-256 are functions in a `Platform` record with the laws of
`PlatformLaws`; the mapping between Go structs and JSON values is a `Codec`
with the laws of `CodecLaws` (`License.LawsAreConsistent` shows that both sets
of laws can be met); the MACs, Unicode lower-casing and path
normalization are function parameters. Objects that the source updates in place
(decoder, buffer, state files, stores, registries, key directory, shared
payload, manager) are classes whose methods are proved against pure functions
or relations; the theorems are then about those.

## What the proofs found

- `internal/issuer/keygen.go:207-212` says a mismatched pair is never left. The
  code makes one in exactly two situations (`MismatchExactly`, from any old
  directory and over all faults, those of the ignored removals and renames
  included; `MismatchExample` has a directory for each): the public rename fails
  and a different old public key is put back
  (`internal/issuer/keygen.go:247-251`, as `internal/issuer/keygen.go:81-84`
  wants); or the first directory fsync fails, the new private key can be neither
  removed nor replaced by the old one, and a different old public key is put
  back (`internal/issuer/keygen.go:235-241`). A mismatch that was there before,
  as in a retry after the first of these, stays exactly when both old files are
  put back.
- If the disk may hold any mixture of the directory entries since the last
  directory fsync, a commit that moves the old key aside and does not get
  through its first directory fsync leaves it exposed: a power loss can lose the
  key (`KeyCrash.OutcomeDecidesCrash`, `PowerLossExample`). After that fsync it
  cannot, and processes never see the key missing.
- Numeric prerelease identifiers of 2^64-1 and above compare equal, because the
  error of `strconv.ParseUint` is dropped (`pkg/license/version.go:250-251`).
  On every pair the order is the precedence of section 11 of Semantic
  Versioning 2.0.0 with those identifiers read as 2^64-1
  (`CompareIsStandardOnCapped`); `CompareIsStandardExactly` says for which
  pairs it is the precedence itself, and `SaturationExample` gives a pair for
  which it is not.
- The revocation state file is read only up to 4 MiB, but written without that
  bound, and a time outside the years 0 to 9999 cannot be written at all. The
  file store agrees with the in-memory store exactly while every map to be
  written can be encoded and read back (`FileRefinesMem`), which some run of
  accepted calls always ends (`SomeRunStopsFitting`); an oversized file refuses
  every call (`RefinementNeedsFit`, `DamagedFileIsKept`).
- An identical list is accepted without a write. If the earlier save had failed
  in its directory fsync, that acceptance is not yet durable (`KeepMayBeLost`).
  `KeepIsDurableExactly` says what a caller may rely on: exactly what the file
  held at boot and what was acknowledged after a write since.
- A save that fails leaves the old record visible, except when the directory
  fsync is the failing step: then the new record is visible
  (`AtomicWriteFile`, `Rollback.RollbackStore.CheckAndSave`).
- The verifier's decoder limit of 64 KiB applies to the signed payload. The
  signer has no such limit, so `SealedVerifies` is exact: accepted up to the
  limit, `FileTooLarge` above it.
- The manager's cache reads a boundary on the zero time as "no boundary"
  (`pkg/license/manager.go:313-330`). `CacheIsConservative` holds for all other
  boundaries, `ZeroBoundaryNeverStale` shows that it is exactly this case, and
  `ZeroBoundaryExample` is such a license.
- Fingerprint namespaces may contain NUL, which also ends the namespace in the
  canonical form. `CanonicalFormUnambiguous` holds when the namespaces, or the
  categories and values, have none; `NulCollides` gives colliding inputs
  otherwise.

## Model

| member | source | states |
|---|---|---|
| Json.ReadTokens | pkg/license/strictjson.go:79-141 | the reader of the section 4 grammar of RFC 8259 gives back any printed tree and exactly the text after it |
| Json.ReadIsTokens | pkg/license/strictjson.go:79-141 | whatever the reader accepts is the printed form of the tree it returns |
| Json.TokensInjective | pkg/license/strictjson.go:79-141 | the grammar is unambiguous and self-delimiting |
| StrictJson.Decoder.Token | pkg/license/strictjson.go:79-141 | the stateful token reader consumes separators and hands over one lexeme as the decoder's state table says |
| StrictJson.ScanExpected | pkg/license/strictjson.go:79-99 | what the decoder returns where a value is expected, in all four positions |
| StrictJson.ScanKey | pkg/license/strictjson.go:103-127 | what the decoder returns where a key is expected, and what is then left to check |
| StrictJson.WalkNoDupKeys | pkg/license/strictjson.go:79-99 | succeeds exactly when a value without repeated keys at any depth stands at the front, consumes exactly it, and terminates |
| StrictJson.WalkObject | pkg/license/strictjson.go:103-127 | the same for an object body: keys distinct at this level, values strict, closing brace consumed |
| StrictJson.WalkArray | pkg/license/strictjson.go:130-141 | the same for an array body |
| StrictJson.RejectDuplicateKeys | pkg/license/strictjson.go:65-75 | accepts exactly the texts that are one well-formed value in which no object repeats a key |
| StrictJson.StrictIsChecked | pkg/license/strictjson.go:65-75 | the walker's criterion is the existence of a duplicate-free tree whose text is the whole input |
| Canonical.CollectAndSortKeys | pkg/license/canonical.go:46-50 | whatever order the map iterates in, the keys come out as the one sorted list |
| Canonical.EncodeCanonical | pkg/license/canonical.go:43-81 | appends exactly the canonical text of the value, at every depth |
| Canonical.EncodeObject | pkg/license/canonical.go:45-65 | appends the object with its members in sorted key order |
| Canonical.EncodeArray | pkg/license/canonical.go:66-77 | appends the array with its items in order |
| Canonical.CanonicalRoundTrip | pkg/license/canonical.go:43-113 | decoding canonical text gives the value back, for every tree |
| Canonical.CanonicalInjective | pkg/license/canonical.go:43-113 | different values never have the same text, not even as prefixes |
| Canonical.CanonicalTextCharacterized | pkg/license/canonical.go:43-113 | a text is canonical exactly when it is the text of a tree with strictly increasing keys in every object |
| Canonical.CanonicalIsStrict | pkg/license/canonical.go:43-113 | canonical text always passes the strict walker |
| Canonical.AcceptanceIsStrict | pkg/license/revocation.go:433-447 | with any decoder however lenient, re-encode-and-compare accepts only strict single documents, and the text determines the payload |
| Canonical.AcceptanceIsUnique | pkg/license/verifier.go:96-102 | one accepted text per payload, even across decoders, and different texts for different payloads |
| Version.IsNumericID | pkg/license/version.go:123-133 | exactly the nonempty digit strings |
| Version.IsAlphanumericID | pkg/license/version.go:147-158 | exactly the nonempty strings over letters, digits and hyphen |
| Version.IsValidPrereleaseID | pkg/license/version.go:138-144 | exactly the prerelease identifiers of section 9 of Semantic Versioning 2.0.0 |
| Version.ParseNumericID | pkg/license/version.go:103-120 | accepts exactly canonical numerals below 2^64 and returns their value |
| Version.IsValidDotSeparated | pkg/license/version.go:163-176 | exactly the dot-separated lists of valid identifiers |
| Version.ParsePrerelease | pkg/license/version.go:85-99 | accepts exactly the bounded prerelease lists and returns their identifiers |
| Version.ParseVersion | pkg/license/version.go:36-81 | computes the specified parse |
| Version.ParseAcceptsGrammar | pkg/license/version.go:36-81 | after trimming, accepts exactly the texts of the grammar (optional v, core, prerelease, build) within the bounds, with the meaning of their parts |
| Version.PrintParse | pkg/license/version.go:36-81 | printing an accepted version and parsing it again gives the same value |
| Version.ComparePrerelease | pkg/license/version.go:215-242 | the loop computes the specified lexicographic comparison with the empty list on top |
| Version.ComparePreorder | pkg/license/version.go:200-270 | sign-antisymmetric, total and transitive on all versions |
| Version.IDAgreesIff | pkg/license/version.go:245-260 | one identifier pair is ordered as the standard orders it exactly when it does not saturate |
| Version.CompareIsStandard | pkg/license/version.go:200-270 | without a saturating first difference, the precedence of section 11, and 0 only for equal versions |
| Version.CompareIsStandardExactly | pkg/license/version.go:200-270 | the pairs on which the code computes that precedence, if and only if |
| Version.CompareIsStandardOnCapped | pkg/license/version.go:200-270 | on every pair, the precedence of section 11 with numeric identifiers read as at most 2^64-1 |
| Version.ClashDecidedByRest | pkg/license/version.go:245-260 | what happens otherwise: the standard looks at the saturating pair, the code at what follows it |
| Version.SmallNumbersDoNotClash | pkg/license/version.go:250-251 | identifiers below 2^64 never saturate against each other |
| Version.SaturationExample | pkg/license/version.go:250-251 | 2^64 and 2^64+1 compare equal |
| Version.StrictComparison | pkg/license/version.go:187-197 | comparing two texts says not above and not below exactly when both parse and the standard precedence says so |
| Text.StrLessIsLexicographic | pkg/license/canonical.go:50 | key order: the first difference decides, and a proper prefix comes first |
| Text.TrimSpaceExactly | pkg/license/version.go:36-41 | trimming removes exactly the white space around a text |
| Validator.ResultExactly | pkg/license/validator.go:31-86 | the whole result is fixed by the license, the context and the time: the code by the gates' priority, the status and the fields by the license |
| Validator.ValidityIsOneInterval | pkg/license/validator.go:31-86 | usable exactly when the timeless checks pass and the trusted time lies in one closed interval, given by issue, not-before, expiry, grace, maintenance and skew |
| Validator.StatusByTime | pkg/license/validator.go:145-166 | along that interval the status is valid up to the expiry plus skew, then grace, never back |
| Validator.CodeByTime | pkg/license/validator.go:31-86 | outside the interval, the refusal by time: too early, beyond maintenance, expired, the first that applies |
| Validator.GraceDoesNotOverflow | pkg/license/model.go:318-321 | under the static cap the 64-bit grace duration is the exact product |
| Validator.UncappedGraceOverflows | pkg/license/validator.go:145-166 | without the cap it would wrap to a negative duration |
| Validator.CeilingGate | pkg/license/validator.go:243-269 | maintenance refuses exactly versions above the ceiling in the standard precedence, once it lapsed |
| Validator.VersionGate | pkg/license/validator.go:204-237 | the version gate passes exactly without any constraint, or for a version within the bounds in the standard precedence and not past maintenance |
| Validator.ExpiryGate | pkg/license/validator.go:145-166 | expired exactly past expiry, grace and skew; otherwise the status and the end of grace |
| Model.StaticExactly | pkg/license/model.go:244-427 | the static checks accept exactly the identified payloads with known enums, fitting devices, sizes, ranges and times |
| Model.StaticRefusal | pkg/license/model.go:244-427 | which code each kind of static refusal gets, by priority |
| DurableStore.NextKeeps | pkg/license/rollback.go:257-314 | every step, failure, writeback and crash keeps the invariant, and the durable record only advances |
| DurableStore.RunInv | pkg/license/rollback.go:257-314 | the invariant holds at every moment of every run |
| DurableStore.DurableMonotone | pkg/license/rollback.go:257-314 | between any two moments of any run the durable record never regresses or disappears |
| DurableStore.DurableIsComplete | pkg/license/rollback.go:257-314 | what a crash would leave is no file or one complete record saved by then |
| DurableStore.AcknowledgedIsDurable | pkg/license/rollback.go:257-314 | after a nil return every later durable record is at least the saved one |
| DurableStore.AcknowledgedWasDecided | pkg/license/rollback.go:190-202 | every acknowledged record was decided for the input it is acknowledged for |
| Evidence.EvidentIsSafe | pkg/license/rollback.go:257-314 | a good record that was in the file at boot or acknowledged since is never lost, in any run that looks the same, through any failures and crashes |
| Evidence.SafeExactlyWhenEvident | pkg/license/rollback.go:257-314 | and exactly those: without such evidence there is a run that looks the same in which a crash loses it |
| Evidence.CrashBoots | pkg/license/rollback.go:257-314 | a crash at any moment of any run starts a history of the kind these two speak of |
| AtomicFile.StateFile.AtomicWriteFile | pkg/license/rollback.go:257-289 | is a run of the machine; the first failing system call is the failing step; success makes exactly the new record visible and acknowledged; a failure leaves the new record visible for the directory fsync and the old one for every other step |
| AtomicFile.StateFile.CreateTemp | pkg/license/rollback.go:258-264 | creating the temp file is a machine step that readers do not see |
| AtomicFile.StateFile.WriteTemp | pkg/license/rollback.go:265-268 | writing it, fully or torn, likewise |
| AtomicFile.StateFile.SyncTemp | pkg/license/rollback.go:273-276 | the file fsync, likewise |
| AtomicFile.StateFile.RenameTemp | pkg/license/rollback.go:280-282 | the rename makes exactly the new record visible, or changes nothing |
| AtomicFile.StateFile.SyncStateDir | pkg/license/rollback.go:295-314 | the directory fsync decides whether the save is acknowledged |
| AtomicFile.StateFile.RemoveTemp | pkg/license/rollback.go:264 | the deferred removal never touches the state file, and ends the call |
| AtomicFile.StateFile.CheckAndSave | pkg/license/rollback.go:190-202 | load, decide, save as one transaction; refusals leave the file as it was, failures as above |
| Rollback.DecideAdvances | pkg/license/rollback.go:144-178 | accepted exactly when authentic, not too far behind and encodable; the new mark is the later of mark and observation, verified at the observation |
| Rollback.MarkNeverDecreases | pkg/license/rollback.go:164-314 | over every run the durable mark never decreases and the durable file is absent or complete |
| Rollback.AcknowledgedMarkPersists | pkg/license/rollback.go:164-314 | once a call returned nil for t, every later durable mark is at least t |
| Rollback.MarkIsDurableExactly | pkg/license/rollback.go:164-314 | what a caller may rely on: the durable mark stays at least t exactly when the file showed such a mark at boot or a save of one was acknowledged since |
| Rollback.RollbackStore.CheckAndSave | pkg/license/rollback.go:190-202 | one observation with its exact code: damaged or unreadable, too far behind, not storable, a failing step, or accepted with the maximum as mark; an error leaves the file unchanged unless the directory fsync failed |
| RevocationState.AcceptedExactly | pkg/license/revocation.go:263-282 | exactly a new list, a higher sequence or the standing state is accepted; the first two replace the entry and nothing else; the rest is stale or a rollback |
| RevocationState.MemStore.CheckAndSave | pkg/license/revocation_state.go:55-74 | the in-memory transaction computes the classified transition on the map |
| RevocationState.FileStore.CheckAndSave | pkg/license/revocation_state.go:345-369 | the file transaction, with every read, encoding and write failure |
| RevocationState.FileAcceptsNewer | pkg/license/revocation_state.go:345-369 | a healthy file takes a new list or a higher sequence, and then holds exactly that under a fresh tag |
| RevocationState.ReadExactly | pkg/license/revocation_state.go:249-280 | a file is read exactly when readable, and missing or within the size limit under the tag of its entries |
| RevocationState.FileStore.WriteEntries | pkg/license/revocation_state.go:305-320 | rewrites the file with a fresh tag, or fails: in encoding, before it became visible, or after |
| RevocationState.AcceptedIsLoaded | pkg/license/revocation_state.go:288-301 | looking an accepted list up finds it at its state, exactly when nothing was written or what was written can be read back |
| RevocationState.FileRefinesMem | pkg/license/revocation_state.go:345-369 | any call sequence gives the in-memory store's codes and map, exactly when every map to be written can be encoded and read back |
| RevocationState.RefinementNeedsFit | pkg/license/revocation_state.go:249-280 | a file answers every next call like the in-memory store exactly when its size is within the read limit |
| RevocationState.SomeRunStopsFitting | pkg/license/revocation_state.go:305-320 | from any map some run of accepted calls outgrows what can be read back |
| RevocationState.DamagedFileIsKept | pkg/license/revocation_state.go:249-280 | a file that does not decode, is too large or has another tag always yields the integrity error and stays byte-identical |
| RevocationState.AntiReplay | pkg/license/revocation.go:263-282 | over any run with any I/O failures, accepted sequences of a list never go down and a sequence has one digest |
| RevocationState.AcceptedStays | pkg/license/revocation_state.go:345-369 | what was accepted once stands at the end of the run or was passed |
| RevocationState.FileRunAdvances | pkg/license/revocation_state.go:345-369 | no list's mark is lowered or lost by any run |
| RevocationState.ReacceptanceWritesNothing | pkg/license/revocation.go:263-282 | accepting again what stands leaves the file untouched |
| RevocationState.OtherListsUnchanged | pkg/license/revocation_state.go:345-369 | lists that no call names keep their entries |
| RevocationState.FinalMarkIsMaximum | pkg/license/revocation_state.go:55-74 | in memory each list ends at its initial or an accepted state, and none accepted is higher |
| RevocationState.FinalMarkOfFile | pkg/license/revocation_state.go:345-369 | in the file each list ends at its initial state, at an accepted one, or at one whose failed write became visible |
| RevocationState.PathLocks.LockFor | pkg/license/revocation_state.go:151-161 | equal mutexes exactly for paths that normalize alike; registered ones are never replaced |
| RevocationState.ExclusiveRegistry.NewExclusive | pkg/license/revocation_state.go:172-214 | fails exactly when the path or key is empty or an open exclusive store holds the path |
| RevocationState.ExclusiveRegistry.Close | pkg/license/revocation_state.go:221-235 | releases a reservation once, never another store's |
| RevocationDurability.DurableMarksNeverRegress | pkg/license/revocation_state.go:305-369 | over every run with crashes, no list's durable mark is lowered, and written acceptances stay covered |
| RevocationDurability.DecisionExactly | pkg/license/revocation_state.go:345-369 | on the crash machine: saved exactly for a new list or a higher sequence, kept when it stands, refused otherwise with its reason |
| RevocationDurability.AntiReplayAcrossCrashes | pkg/license/revocation_state.go:345-369 | once a save was acknowledged, through any failures and crashes only states of its list at it or beyond are not refused |
| RevocationDurability.KeepIsDurableExactly | pkg/license/revocation.go:273-279 | a state accepted without a write stays on the disk through everything that may follow exactly when a record reaching it was in the file at boot or had its save acknowledged since |
| RevocationDurability.KeepMayBeLost | pkg/license/revocation.go:273-279 | a run in which it is not, and a crash loses it |
| Linearizability.StepKeeps | pkg/license/revocation_state.go:345-369 | every step of every thread keeps mutual exclusion and agreement with the lock-order run |
| Linearizability.Linearizable | pkg/license/revocation_state.go:345-369 | in every interleaving and at every moment the codes returned are those of the calls run one by one in lock order, and so is the file whenever the lock is free |
| Linearizability.RealTimeOrder | pkg/license/revocation_state.go:345-369 | a call that returned before another was invoked comes before it in lock order |
| Linearizability.AcceptedStands | pkg/license/revocation_state.go:345-369 | every accepted call, by any thread, stands in the file or was passed |
| Linearizability.AcceptedInOrder | pkg/license/revocation_state.go:345-369 | accepted states of a list never go down in lock order, and a sequence has one digest |
| Linearizability.NoUpdateLost | pkg/license/revocation_state.go:345-369 | each list's sequence in the file is the maximum of its initial and all accepted ones, attained by one of them unless a failed write became visible |
| KeyCommit.BackupExisting | internal/issuer/keygen.go:276-296 | the target is under its own or the backup name at every moment; nothing else is touched |
| KeyCommit.RestoreBackup | internal/issuer/keygen.go:300-308 | the exact directory for each combination of working and failing steps |
| KeyCommit.RemoveBackup | internal/issuer/keygen.go:311-316 | removes the backup only |
| KeyCommit.BackupTargets | internal/issuer/keygen.go:218-227 | both targets aside under fresh names, or the old directory again |
| KeyCommit.CommitPrivate | internal/issuer/keygen.go:230-241 | the new private key in place and synced, or the old pair again |
| KeyCommit.CommitPublic | internal/issuer/keygen.go:247-268 | the new private key is kept in every case |
| KeyCommit.CommitStagedKeyFiles | internal/issuer/keygen.go:217-269 | for every choice of failing operations: a private key survives at every moment; the outcome and the fates of the ignored operations fix both targets; when those worked, the whole directory; success means both were synced |
| KeyCommit.MismatchExactly | internal/issuer/keygen.go:207-212 | from any old directory and over all faults, the ignored operations included: a mismatched pair is left exactly when a different old public key is put back and the new private key stays, by a failed public rename or by a failed first fsync whose withdrawal failed, or when an old mismatch is put back whole |
| KeyCommit.MismatchExample | internal/issuer/keygen.go:230-251 | a directory for each of the two |
| KeyCommit.StageKeyFile | internal/issuer/keygen.go:144-170 | one complete new file, or everything as it was |
| KeyCommit.VerifyStagedPair | internal/issuer/keygen.go:175-196 | passes only a matching staged pair |
| KeyCommit.WriteKeyFiles | internal/issuer/keygen.go:89-139 | an existing private key survives every failure; existing targets are refused exactly without force; it succeeds unless an operation fails or the pair does not match; success is the new matching pair, synced; a mismatch is left exactly where the commit leaves one or an old one stays |
| KeyCrash.CrashSafeExactly | internal/issuer/keygen.go:217-269 | with any mixture of directory entries since the last fsync on the disk, a private key survives power loss exactly when one name held one at every moment since |
| KeyCrash.TargetDecides | internal/issuer/keygen.go:217-269 | until the first fsync of a commit succeeds, exactly when the target itself always held one |
| KeyCrash.OutcomeDecidesCrash | internal/issuer/keygen.go:217-269 | from any start, how a commit ends decides whether a power loss can lose the key: after the first fsync it cannot, moved aside without it it can, not moved it is as safe as it was |
| KeyCrash.PowerLossExample | internal/issuer/keygen.go:276-296 | such a power loss, right after the old key was moved aside |
| License.SignPayload | internal/issuer/signer.go:33-53 | stamps the caller's payload in place, also when it then refuses, and seals exactly its canonical bytes |
| License.CanonicalBytesDecode | pkg/license/strictjson.go:36-60 | canonical bytes pass the strict decode and give the struct back, up to the size limit |
| License.SealsExactly | internal/issuer/signer.go:33-53 | exactly the statically valid payloads with a JSON form are sealed |
| License.SealedVerifies | pkg/license/verifier.go:37-105 | every payload the signer seals verifies under a ring that trusts its key at issuance, exactly up to the size limit |
| License.SignedVerifies | internal/issuer/signer.go:33-53 | what is sealed of a caller's payload comes back as that payload under the signer's key id and the current schema |
| License.VerifyRefusals | pkg/license/verifier.go:37-105 | unknown, revoked and disabled keys are refused in this order before anything is decoded; then what cannot be decoded is malformed, and a signature that does not verify is a signature failure |
| License.SignedEnvelope | pkg/license/verifier.go:37-105 | what every envelope signed by a live key gets, whoever made it: too large, malformed, another key id, outside the key's window, not canonical, or its payload |
| License.VerifiedIsCanonical | pkg/license/verifier.go:37-105 | whatever verifies is an Ed25519 envelope carrying the canonical bytes of the returned payload, strict, signed by a live key in its window |
| License.DomainsNeverMeet | pkg/license/model.go:82-107 | license, v2 revocation and bare v1 signing inputs are never equal, and each input determines its bytes |
| Revocation.DedupeNonEmpty | internal/issuer/revoke.go:102-116 | the distinct nonempty ids in order of first occurrence |
| Revocation.Deduped | internal/issuer/revoke.go:102-116 | exactly the nonempty given ids, none twice |
| Revocation.BuildRevocationListV2 | internal/issuer/revoke.go:61-100 | builds exactly for valid options, sealing the canonical list under the v2 domain |
| Revocation.BuildProvider | pkg/license/revocation.go:511-519 | the membership set is exactly the nonempty ids of the list |
| Revocation.LoadRevocationListWithPolicy | pkg/license/revocation.go:315-379 | the outcome and the new state of either store, over all checks in order and with any file failures |
| Revocation.BuiltListIsAccepted | pkg/license/revocation.go:315-379 | a built list is accepted by the default policy exactly while fresh and within the entry cap, and revokes exactly the given nonempty ids |
| Revocation.AdmissionIsOneInterval | pkg/license/revocation.go:395-484 | under any policy a v2 list is admitted exactly when domain-signed, well-formed and fresh on one interval given by issue, expiry, age limit and skew |
| Revocation.AdmissionRefusal | pkg/license/revocation.go:315-379 | which code each refusal gets, for v2 and legacy lists |
| Revocation.OpenRefusals | pkg/license/revocation.go:315-343 | refusals of an envelope by priority: algorithm, key, encoding |
| Revocation.SignatureRefusals | pkg/license/revocation.go:424-458 | refusals of a signed list by priority: signature under both inputs, decode, canonical equality, schema, key id, entry cap |
| Revocation.LegacyListIsAccepted | pkg/license/revocation.go:350-355 | a bare-signed v1 list is accepted exactly under the opt-in and within the entry cap, without touching the store |
| Revocation.AcceptedListIsStrict | pkg/license/revocation.go:424-458 | despite the lenient decode, every accepted list is a strict canonical document signed by a live key of the ring, under the v2 domain unless it is an opted-in legacy list |
| Revocation.StoreMovesOnlyOnAcceptance | pkg/license/revocation.go:492-503 | under any policy either store moves only forward and only for an authenticated v2 list, and stands at it once accepted |
| Revocation.LoadedRevokes | pkg/license/revocation.go:511-519 | an accepted load revokes exactly the nonempty ids of the list it authenticated |
| Revocation.LoadsNeverReplay | pkg/license/revocation.go:315-379 | over any run of loads, with changing rings, clocks and policies and any file failures, accepted v2 lists of one id never go down, and an equal sequence means bytes of one digest |
| Revocation.NewerIsAccepted | pkg/license/revocation.go:492-503 | a new list or a newer one is accepted and recorded with the digest of its bytes, whenever the file can take it |
| Revocation.ReplayIsRefused | pkg/license/revocation.go:492-503 | after an accepted list, while the store works, an older one is stale, other bytes under its sequence are a rollback, and the same bytes change nothing |
| Manager.Manager.Validate | pkg/license/manager.go:132-194 | one validation as a step on store and cache, with every failure |
| Manager.Manager.Conclude | pkg/license/manager.go:214-221 | lifetime licenses never reach the store, and a store failure leaves the cache empty |
| Manager.VerdictMeans | pkg/license/manager.go:132-194 | a clean decision means canonical bytes signed by a live key, the product asked for, not revoked by the caller's provider or else the manager's, and a time inside the interval under the caller's skew, the manager's or five minutes |
| Manager.SealedIsAccepted | pkg/license/manager.go:132-194 | from issuer to client: a license sealed by a trusted key gets a clean decision exactly under those conditions and the size limit |
| Manager.SealedRefusal | pkg/license/manager.go:132-194 | and the code of every refusal of such a license |
| Manager.Manager.LoadAndValidate | pkg/license/manager.go:225-248 | a file that gives no license empties the cache, moves nothing else, and has its own code |
| Manager.ReportedIsStillUsable | pkg/license/manager.go:313-330 | what the cache reports after any run is the last validation's result, and the license's own time gates still pass |
| Manager.Manager.InvalidateCache | pkg/license/manager.go:334-338 | empties the cache only |
| Manager.CallInvariant | pkg/license/manager.go:132-248 | the store changes only for an authentic, accepted, non-lifetime license at a tolerable time; the cache is full exactly on success; a clean decision that the store can take does succeed |
| Manager.RunInvariant | pkg/license/manager.go:132-248 | over any run the mark is the maximum of the initial mark and the saved times; a damaged store is never reset |
| Manager.LatestIsMaximum | pkg/license/rollback.go:164-178 | that value is one of them, and none is later |
| Manager.CacheAfterRun | pkg/license/manager.go:283-338 | after any run the cache is full exactly when its last call was a successful validation, and holds its result |
| Manager.MarkOnlyAdvances | pkg/license/manager.go:214-221 | no run moves the mark back |
| Manager.RefusalsHaveCodes | pkg/license/manager.go:132-194 | a refusal always carries an error code |
| Manager.CacheBoundary | pkg/license/manager.go:283-295 | the boundary is the end of grace, or else the expiry, without skew |
| Manager.CacheIsConservative | pkg/license/manager.go:283-330 | a result reported from the cache is still inside the license's own times |
| Manager.ZeroBoundaryNeverStale | pkg/license/manager.go:313-330 | an entry outlives its license's expiry exactly when its boundary is the zero time |
| Manager.ZeroBoundaryExample | pkg/license/manager.go:283-295 | a license whose boundary is the zero time |
| Fingerprint.NormalizeExactly | pkg/fingerprint/fingerprint.go:141-145 | any words with any white space around and between them become the lower-case words separated by single spaces |
| Fingerprint.NormalizedHasNoNewline | pkg/fingerprint/fingerprint.go:141-145 | the only white space in a normalized value is the plain space |
| Fingerprint.CollectUsable | pkg/fingerprint/fingerprint.go:161-173 | the usable normalized pairs and their distinct categories |
| Fingerprint.BuildCanonicalForm | pkg/fingerprint/fingerprint.go:156-198 | computes the specified sorted serialization |
| Fingerprint.OrderIndependent | pkg/fingerprint/fingerprint.go:156-198 | every permutation of the components gives the same result |
| Fingerprint.CanonicalFormUnambiguous | pkg/fingerprint/fingerprint.go:156-198 | with no NUL in the namespaces or none in the categories and values, equal outputs exactly for equal namespaces and equal multisets of (category, normalized value) |
| Fingerprint.NulCollides | pkg/fingerprint/fingerprint.go:186-197 | otherwise there are collisions, for any plain words |
| Fingerprint.IsPlaceholderValue | pkg/fingerprint/fingerprint.go:206-235 | exactly the listed junk values and the texts of zeros and hyphens |
| Fingerprint.PrimaryComponent | pkg/fingerprint/fingerprint.go:241-268 | the loop computes the specified selection |
| Fingerprint.PrimaryIsFirstBest | pkg/fingerprint/fingerprint.go:241-268 | the selection is the first component of the best rank that is not junk, and none exists only when all are |
| Fingerprint.InsertionEffect | pkg/fingerprint/fingerprint.go:241-268 | adding a component anywhere changes nothing or makes it the selection |
| Fingerprint.SecondaryDoesNotMatter | pkg/fingerprint/fingerprint.go:241-268 | junk or lower-ranked components may come and go without changing the selection |

## Left out

- Ed25519, HMAC, SHA-256 and Base64URL internals: parameters with the laws of `PlatformLaws`; nothing is said about forging or collisions.
- Byte-level JSON lexing, string escaping and RFC 3339 printing: texts are token sequences, and `CodecLaws` says that canonical text lexes and unmarshals back.
- The struct-to-JSON mapping (field names, omitempty, unknown fields): part of `Codec`; the decoder's rejection of unknown fields is a failing `unmarshal`.
- Byte length of strings: `Model.ByteLen` counts UTF-8 bytes where the source bounds them; version text counts characters, which are bytes wherever the grammar accepts.
- Manager.Manager.Validate: covers sequential runs; concurrent calls clear and fill the cache in separate critical sections, so no cache claim is made for them.
- Manager.CacheIsConservative: says nothing about the maintenance ceiling and revocation, which the cache's boundary does not include.
- Linearizability.Linearizable: its steps are the check-and-save calls; plain reads and plain puts are not among them.
- RevocationState.FileStore.CheckAndSave: treats the write as one step with three fates, given as an input; the steps and crashes are in `AtomicFile` and `RevocationDurability`.
- RevocationState.FileStore.WriteEntries: likewise.
- KeyCrash.OutcomeDecidesCrash: takes staged contents as durable, since each is synced before the commit; on a file system that orders directory writes, fewer power losses lose the key.
- `SaveRevocationState` as a call in anti-replay runs: a plain put that may lower a mark by design.
- Cross-process writers and symbolic links in paths: the source gives no guarantee there.
- Windows arms that ignore directory fsync errors, permission modes and umask.
- `DecodePrivateKey` and its whitespace trimming: the content of a key file is a private key, a public key or something else.
- `fingerprint.Parse`, the device-id format check (a parameter `parses`), collectors and request codes.
- The v1 list builder, result accessors, feature and limit queries, random ids and the command line.
