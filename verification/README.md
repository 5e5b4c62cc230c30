# Foldweave: verified model of pairing, relay, cases and encodings

A Dafny 4.11 model of the parts of Foldweave that are hard to get right, with machine-checked proofs
about them. `dafny verify dfyconfig.toml` checks the whole project.

## What is modelled

**The paired relay.** A gateway session object keeps one durable record per pairing: two signed-sequence
high-water marks, a nonce table, a bounded relay-correlation table, a relay counter and lifecycle
timestamps (`SessionRecord`, `DeviceSession`). Beside it, in memory, is a registry of calls that wait for
the companion (`PendingRelays`). The companion keeps its own counters in a locked file
(`PairingStateStore`). `RelayProtocol` runs the two sides together, one transaction, timer, frame, crash, restart or
reconnection at a time, over a network that loses, reorders and repeats; `SequenceDomains` and
`CombinedMark` follow the signed sequence numbers, including data and programs from before the mark was
split. `RelayTable`, `SessionReplay` and `SessionLifecycle` prove what the record guarantees over every run;
`SessionLaws` says of each transaction what it accepts and what it leaves, and `RelayProgress` that calls get
through.

**Pairing.** `DirectoryStorage` and `PairingDirectory` are the shared pairing directory: codes, missing-code
lockouts, a sliding-window limiter and an alarm that cleans up. `DirectoryRuns`, `AttemptLimiter`,
`CodeLockout`, `CodeGuesses`, `AlarmTransparency`, `AlarmVisibility` and `DirectoryWitnesses` prove what it
guarantees over runs, `DirectoryLaws` what one attempt is answered. `PairingProtocol` lets any number of registration,
approval, revocation and authorization handlers interleave call by call over the directory and any number
of session objects; `PairingTheorems` states what survives, `PairingProgress` that a pairing goes through.

**Cases.** `SnapshotDiff`, `SnapshotCompare` and `SnapshotComparison` are the comparison of two source
snapshots, with unambiguous-rename detection, proved to be an exact patch. `CaseRecord`, `CaseStore` and
`CaseWriter` are the migration case: its validator, its lock, its revisioned writes; `CaseLaws` says what makes a
case valid and a save accepted.

**Encodings.** `CanonicalJson` and `CanonicalJsonInjective` prove the canonical printing of JSON injective up
to the order of object keys, and `JsonReader` reads it back; `SignedPayload` and `SignedBytes` carry that
through UTF-8 to what a signature covers.
`Base64Url` and `ResponseCodec` are the base64url codec and the bounded reassembly of a response; `Csv` and
`PathMap` are the path maps.

**The supervisor.** `SupervisorSteps` and `CompanionSupervisor` are the owners of the companion task: one
advisory lock, generations, cancellation, retries. `SupervisorProgress` says who ends up running the companion.

Objects whose methods update fields in the original are classes here, and each method is proved equal to a
function on values (`View() == ...` or `storage == ...`); the theorems over runs are about those functions.

## Findings

Each is a property that might be expected and does not hold of the code. The exact condition is proved for all
inputs, and where it takes a run to fail it, a run is exhibited.

- `expired` is not absorbing: authorization compares the expiry with a clock reading the gateway took earlier. A
  record inactive at an instant is active at it later in its run exactly when such an authorization came in
  between and nothing revoked it (`SessionLifecycle.ExpiredRevivesIff`, `SessionLifecycle.InactiveUntilRevived`);
  every registration has a run where that happens (`SessionLifecycle.ExpiryIsNotAbsorbing`).
- A retry does not refresh its relay correlation: the thirty minutes count from the claim that inserted it, so
  content under the same identifier may change half an hour after that, or once 256 other identifiers were
  inserted, however often it was retried (`RelayTable.ContentMayChangeIff`, `RelayTable.ChangedAfterRetry`).
- Splitting the sequence mark is safe on a gateway that already splits. A companion that draws from two counters
  is accepted by a gateway that still combines them exactly while its domain has drawn at least as many numbers
  as the other (`CombinedMark.OldGatewayAcceptsIff`); one control call locks the companion's first number out,
  and upgrading the gateway then does not help (`CombinedMark.CompanionLockedOut`).
- The gateway checks a message's signature before its transaction and nothing orders two messages of one socket
  in between, so one may overtake the other. An answer passes the sequence test exactly when no later one of its
  socket was accepted before it (`SequenceDomains.CompanionInSequenceIff`); an overtaken one is refused as replayed
  (`SequenceDomains.OvertakenRefused`).
- Cleanup can be noticed. What shows is the deletion of expired code records alone
  (`AlarmTransparency.OnlyPairCleanupShows`); the limiter and codes whose record no alarm deleted see nothing. Over
  any run everyone who registers, approves or tries a code is answered as if no alarm had ever fired exactly when
  no registration meets a deleted record, no late approval comes from its session, and no try finds the failures
  counted and the failures deleted on different sides of the lockout (`AlarmVisibility.AlarmsUnnoticedIff`).
  Runs reach the first and the last (`DirectoryWitnesses`).
- The lockout of codes without a record counts in fixed windows that start with the first miss, so fifteen
  minutes can hold one whole window's answers and all but the first of the one before: seven, not four
  (`CodeGuesses.AtMostSevenMisses`), and seven are reached (`CodeGuesses.SevenAnswered`). Four is kept exactly when
  no attempt gets through to a window already opened and not yet spent with four recent answers behind it
  (`CodeGuesses.FourPerWindowIff`); the first answer of a window never exceeds it (`CodeGuesses.FirstAnswerFits`).
- Creating a case does not check its lifecycle, so the rule that handoff-ready is entered only from
  ready-to-stage holds exactly when the first record was not handoff-ready already
  (`CaseStore.HandoffOnlyFromReadyIff`); every such record, created, breaks it (`CaseStore.CreatedHandedOff`). A
  write can also land and still be reported as failed; the theorems count the records the file has held, not the
  successes reported (`CaseWriter.MigrationCaseWriter.Save`).
- A path-map field with a lone carriage return is not quoted by the writer and breaks the reader; one that
  also holds a comma, a quote or a line feed is quoted and survives. Fields longer than the reader's limit of
  131072 characters do not survive either. `PathMap.RoundTripIff` is the exact condition.
- A supervisor can report `disconnected` while its controller runs: starting again while no pairing is
  configured sets the state without stopping the task. That is the only step that does
  (`SupervisorSafety.ExactLostIff`, `SupervisorSafety.UnpairedRestartMisreports`).
- The gateway's base64url decoder refuses the empty text, the companion's accepts it; on every other text they
  agree, so they agree exactly on the texts that are not empty (`Base64UrlLaws.DecodersAgree`).

## Assumptions

Storage transactions are atomic and one step reads one instant. Where a theorem speaks of time, clock readings
do not go backwards. SHA-256 is injective, so a digest stands for what it was computed from; a signature is a
fact carried by its envelope. `flock` is exclusive. Detaching a controller and cancelling its task is one step,
the runtime lets cancellation through, and the caller that waits for it is not itself cancelled. JSON numbers
are integers small enough to print without an exponent. Scope lists are compared as sets.

The gateway with one combined mark and the client with one counter are not in the repository any more. They are
reconstructed in `CombinedMark` and `SequenceDomains` from the code that migrates their data and its comments
(gateway/src/device-session.ts:84-93 and 895-897, src/name_atlas/foldweave_companion_client.py:200-214).

## Model

| member | source | states |
|---|---|---|
| CanonicalJsonInjective.CanonicalInjective | gateway/src/canonical.ts:11-33 | two valid JSON values print the same canonical text if and only if they are the same value up to the order of object keys, at every depth |
| CanonicalJsonInjective.Decodable | gateway/src/canonical.ts:11-33 | the printed form is uniquely decodable: a value and what follows it can be read off the text |
| CanonicalJsonInjective.SamePrintsAlike | gateway/src/canonical.ts:24-31 | insertion order of object keys never shows in the text |
| CanonicalJsonInjective.QuoteDecodable | gateway/src/canonical.ts:12-14 | a printed string ends where it ends: escaping (section 7 of RFC 8259) is injective with any suffix |
| CanonicalJsonInjective.SortSorts | gateway/src/canonical.ts:25-27 | keys come out in code-unit order |
| JsonReader.CanonicalReadsBack | gateway/src/canonical.ts:11-33 | a JSON reader written apart from the printer (RFC 8259) reads every canonical text back as the value printed, the keys of every object at every depth strictly increasing by code units |
| JsonReader.LessIff | gateway/src/canonical.ts:25-27 | the order of keys is that of the first code unit that differs, a prefix coming first |
| JsonReader.EscapesOnlyWhatMust | gateway/src/canonical.ts:12-14 | a code unit is escaped exactly when it is a control, a quote, a backslash or a lone surrogate, in the short form where there is one, else in lower-case hexadecimal |
| JsonReader.PairsStay | gateway/src/canonical.ts:12-14 | a surrogate pair is printed as it is |
| SignedPayload.Utf8Injective | gateway/src/canonical.ts:35-37 | well-formed texts with equal UTF-8 bytes are equal |
| SignedPayload.CanonicalWellFormed | gateway/src/canonical.ts:11-33 | canonical text never holds a lone surrogate, so its UTF-8 loses nothing |
| SignedPayload.SignaturePayloadBindsEnvelope | gateway/src/device-crypto.ts:18-33 | two envelopes have the same signed bytes if and only if all their fields agree, bodies up to key order |
| SignedBytes.SignedBytesRead | gateway/src/device-crypto.ts:18-33 | from the signed bytes a UTF-8 decoder and a JSON reader, both written apart, get back the signature domain, a zero, and an object with exactly the envelope's eight fields under their names |
| SignedBytes.DecodesBack | gateway/src/canonical.ts:35-37 | UTF-8 (section 3 of RFC 3629) of well-formed text decodes to the text |
| DeviceSession.DeviceSession.Register | gateway/src/device-session.ts:446-492 | the first registration with valid times stores the fresh record; any other is refused and changes nothing |
| DeviceSession.DeviceSession.VerifyAndAdvance | gateway/src/device-session.ts:873-923 | the signed-envelope transaction: time window, activity, domain mark, nonce; commits or leaves storage untouched |
| DeviceSession.DeviceSession.PruneNonces | gateway/src/device-session.ts:903 | exactly the unexpired nonces stay, in order |
| DeviceSession.DeviceSession.ContainsNonce | gateway/src/device-session.ts:906 | true exactly when some retained nonce has the hash |
| DeviceSession.DeviceSession.ClaimRelay | gateway/src/device-session.ts:925-974 | the claim transaction: activity, grant binding, conflict, insertion or retry, relay counter |
| DeviceSession.DeviceSession.SearchRelay | gateway/src/device-session.ts:952-954 | the first correlation with the identifier, if any |
| DeviceSession.DeviceSession.Approve | gateway/src/device-session.ts:503-511 | approval stamps an active record and refuses any other |
| DeviceSession.DeviceSession.MarkAuthorized | gateway/src/device-session.ts:529-546 | authorization commits exactly when the record is unauthorized, approved, unrevoked and unexpired at the gateway's instant |
| DeviceSession.DeviceSession.MarkClientAccessObserved | gateway/src/device-session.ts:554-586 | the first observation time is kept and returned |
| DeviceSession.DeviceSession.Revoke | gateway/src/device-session.ts:597-604 | revocation stamps whatever record there is |
| SessionLaws.EnvelopeAcceptedIff | gateway/src/device-crypto.ts:56-97 | an envelope is accepted if and only if body digest and signature verify, it is read inside its window of at most 30 minutes with one minute of skew, the session is active where asked, its number is above its domain's mark and no unexpired nonce is its own; only a replay is answered with 409 |
| SessionLaws.EnvelopeRefusedBecause | gateway/src/device-crypto.ts:56-97 | which error a refused envelope gets, in the order the checks are made |
| SessionLaws.EnvelopeAdvances | gateway/src/device-session.ts:895-919 | acceptance moves the mark of its domain to its number, keeps the other, stamps the time last seen unless that is preserved, and changes nothing but marks, that time and nonces |
| SessionLaws.NoncesAfter | gateway/src/device-session.ts:903-920 | the nonces left are the newest 128 of the unexpired ones followed by the accepted one, kept 35 minutes |
| SessionLaws.ClaimAcceptedIff | gateway/src/device-session.ts:932-973 | a claim is accepted if and only if it carries the active record's own grant and no unexpired correlation holds its identifier with other content; a retry adds nothing, a new identifier one entry of thirty minutes |
| SessionLaws.ApprovalAcceptedIff | gateway/src/device-session.ts:503-511 | approval is accepted exactly by an active record and stamps it |
| SessionLaws.AuthorizationAcceptedIff | gateway/src/device-session.ts:529-545 | authorization is accepted exactly by the named, approved, unauthorized record active at the gateway's instant, and sets grant time, scopes and thirty days |
| SessionLaws.ObservationAcceptedIff | gateway/src/device-session.ts:554-586 | an observation is accepted exactly with the active record's own grant, and only the first is kept |
| SessionLaws.RegistrationStores | gateway/src/device-session.ts:455-487 | what a registration must satisfy and every field it stores |
| SessionLaws.StatusSays | gateway/src/device-session.ts:672-697 | each pairing state by the fields of the record: revocation first, then expiry, then the furthest step reached |
| SessionLaws.InternalStatusSays | gateway/src/device-session.ts:619-639 | each field of the internal status by the fields of the record |
| SessionLaws.CompanionAcceptsIff | src/name_atlas/foldweave_companion_client.py:255-296 | the companion's validator accepts exactly the statuses some record with positive times and no observation without authority could give |
| SessionLaws.GatewayAcceptsIff | gateway/src/gateway.ts:150-185 | the gateway's check accepts exactly a positive expiry with a consistent observation |
| SessionLifecycle.RunKeeps | gateway/src/device-session.ts:495-616 | over any run identity is constant, revocation absorbs, authority and first observation are frozen once set, marks and relay counter never fall |
| SessionLifecycle.AuthorizedOnce | gateway/src/device-session.ts:529-545 | at most one event of a run authorizes a record, and only an approved, unrevoked one |
| SessionLifecycle.RevokedForGood | gateway/src/device-session.ts:862-893 | after revocation no claim, approval, authorization, observation or activity-checked envelope is accepted |
| SessionLifecycle.ConsistentAlways | gateway/src/device-session.ts:426-616 | observed implies authorized implies locally approved in every reachable record |
| SessionLifecycle.StatusAcceptedIff | src/name_atlas/foldweave_companion_client.py:260-296 | both readers of a status reply refuse exactly the records that claim observation without authorization |
| SessionLifecycle.StatusAlwaysAccepted | gateway/src/device-session.ts:618-697 | every public status reply passes the companion's validator and every internal one the gateway's check, at every instant of every run |
| SessionLifecycle.ExpiredRevivesIff | gateway/src/device-session.ts:536-542 | one event makes an inactive record active exactly when it is an authorization of this approved, unauthorized, unrevoked session whose own clock reading precedes the expiry |
| SessionLifecycle.InactiveUntilRevived | gateway/src/device-session.ts:536-616 | over every run a record inactive at an instant is active at it later exactly when such an authorization came in between and the record was not revoked |
| SessionLifecycle.ExpiryIsNotAbsorbing | gateway/src/device-session.ts:536-542 | every registration has a run in which the record reads as expired and is then active at the same instant |
| SessionReplay.NoReplayInDomain | gateway/src/device-session.ts:895-915 | no sequence number is accepted twice in its domain in any run, even after its nonce is evicted |
| SessionReplay.VerifiesAtMost32Minutes | gateway/src/device-crypto.ts:56-67 | two successful verifications of one envelope are less than 32 minutes apart |
| SessionReplay.NonceOutlivesEnvelope | gateway/src/device-session.ts:903-920 | an accepted envelope that comes back, in either domain, is refused, unless 128 others were accepted since or its transaction ran over three minutes after its signature check |
| SessionReplay.NonceTableBounded | gateway/src/device-session.ts:919-920 | the nonce table never exceeds its cap |
| RelayTable.ClaimKeepsInvariant | gateway/src/device-session.ts:949-969 | the correlation table keeps unique identifiers and at most 256 entries |
| RelayTable.BoundedTable | gateway/src/device-session.ts:949-969 | an identifier inserted with one fingerprint and later accepted with another means thirty minutes passed or 256 distinct other identifiers were inserted |
| RelayTable.ConflictNeedsEviction | gateway/src/device-session.ts:952-969 | the same for any two accepted claims, retries included |
| RelayTable.ContentMayChangeIff | gateway/src/device-session.ts:949-969 | after the last insertion of an identifier, a claim with other content is admitted if and only if thirty minutes have passed since that insertion or 256 distinct other identifiers were inserted since, whatever was retried |
| RelayTable.ChangedAfterRetry | gateway/src/device-session.ts:962-969 | a run that retries as late as the half hour allows and changes content when it is over, for any two contents |
| RelayTable.RecordTable | gateway/src/device-session.ts:930-973 | through any run the record's table is the table of its accepted claims, each of which it admits |
| PendingRelays.SettledOnce | gateway/src/device-session.ts:96-171 | over every run a promise is unsettled, in the map with its timer armed, or settled exactly once with its timer gone; settlements are never taken back |
| PendingRelays.FireIsCancel | gateway/src/device-session.ts:124-133 | a firing timer finds its own entry, never a newer one under the same identifier |
| PendingRelays.ResolveSettlesOwnCall | gateway/src/device-session.ts:144-153 | a response settles the promise waiting under its identifier and no other |
| PendingRelays.OpensJoinsOrConflicts | gateway/src/device-session.ts:99-142 | a retry joins the waiting call, other content under its identifier conflicts, and otherwise one new call waits with its timer armed |
| PendingRelays.FinishedAllRejects | gateway/src/device-session.ts:165-169 | rejecting all empties the registry and rejects exactly the waiting promises, whatever the order |
| PendingRelays.PendingRelayRegistry.Begin | gateway/src/device-session.ts:99-142 | creates, joins or conflicts, and keeps the registry consistent |
| PendingRelays.PendingRelayRegistry.Resolve | gateway/src/device-session.ts:144-153 | settles and removes the entry, or reports none |
| PendingRelays.PendingRelayRegistry.Cancel | gateway/src/device-session.ts:155-163 | rejects and removes the entry, or does nothing |
| PendingRelays.PendingRelayRegistry.RejectAll | gateway/src/device-session.ts:165-169 | afterwards nothing waits, no timer is armed and exactly the waiting promises were rejected |
| PendingRelays.PendingRelayRegistry.Fire | gateway/src/device-session.ts:124-133 | the timeout callback, with the registry left consistent |
| RelayProtocol.DispatchedInOrder | src/name_atlas/foldweave_companion_client.py:1005-1036 | each relay sequence is dispatched locally at most once, in strictly increasing order across reconnections, crashes and restarts of either side, only if its frame was sent, and is the value of the record's counter when its claim was accepted |
| RelayProtocol.WaitingCallsDiffer | gateway/src/device-session.ts:830-838 | identical retries coalesce: two waiting calls never carry the same identifier |
| RelayProtocol.ResponseFitsItsCall | gateway/src/device-session.ts:383-399 | a response settles a promise at most once, always of its own identifier, and with the fingerprint of the frame it answers unless the correlation was lost to time or to 256 others, restarts of the object included |
| RelayProgress.AcceptedCallCompletes | gateway/src/device-session.ts:738-852 | in every reachable state with an idle companion, an accepted call whose identifier does not wait, left to itself, is dispatched once and its response settles its own promise |
| RelayProgress.CallCompletesAfterRestart | gateway/src/device-session.ts:738-852 | the same from any reachable state at all once the connection and the gateway object have started over |
| RelayProgress.FirstCallCompletes | src/name_atlas/foldweave_companion_client.py:1005-1036 | so is the first call of every session |
| RelayProgress.FrameSentIff | gateway/src/device-session.ts:830-848 | a resumed claim sends its frame exactly when the socket takes it and no call of its identifier waits |
| RelayProgress.CallWaitsIff | gateway/src/device-session.ts:830-852 | its promise waits exactly when the frame was sent, and is rejected as offline otherwise |
| RelayProgress.FrameTakenIff | src/name_atlas/foldweave_companion_client.py:1005-1017 | an idle companion takes up a frame exactly when its number is above both marks and the other checks pass |
| RelayProgress.ResponseSettlesIff | gateway/src/device-session.ts:383-399 | a response settles exactly when its frame was answered and a call of its identifier waits, and changes nothing otherwise |
| RelayProtocol.AlwaysInv | gateway/src/device-session.ts:738-852 | the joint invariant of gateway, registry and companion over every interleaving, restarts of the gateway object included |
| RelayProtocol.AlwaysTableInv | gateway/src/device-session.ts:949-969 | the record's table is the table of the accepted claims through the whole protocol |
| RelayProtocol.AlwaysCounterInv | gateway/src/device-session.ts:970-973 | the relay counter advances once per accepted claim, and each claim returns the value it then has |
| PairingStateStore.CompanionPairingStateStore.Read | src/name_atlas/foldweave_companion_client.py:361-375 | not configured, or the state with its companion counter seeded; the file itself does not change |
| PairingStateStore.CompanionPairingStateStore.AllocateControlSequence | src/name_atlas/foldweave_companion_client.py:414-422 | the number given out is the counter before, persisted one higher first |
| PairingStateStore.CompanionPairingStateStore.AllocateCompanionSequence | src/name_atlas/foldweave_companion_client.py:424-434 | the same for the companion counter, seeded from a legacy file |
| PairingStateStore.CompanionPairingStateStore.RecordGatewaySequence | src/name_atlas/foldweave_companion_client.py:436-445 | a gateway sequence is recorded only when higher than the last |
| SequenceDomains.CompanionInSequenceIff | gateway/src/device-session.ts:873-915 | whatever control calls, crashes, reconnections, migrations and overtakings interleave, an envelope on the socket passes the sequence test if and only if no later one of its socket was accepted before it; the only other reasons for refusal are listed exactly |
| SequenceDomains.CompanionNeverOutOfSequence | gateway/src/device-session.ts:895-915 | with the messages of a socket handled in order, every envelope on it is above the mark through every run |
| SequenceDomains.OvertakenRefused | gateway/src/device-session.ts:884-911 | from every registration, a run in which the second answer is accepted first and the first is refused as replayed |
| SequenceDomains.ControlPasses | gateway/src/device-session.ts:895-915 | after any run a control call delivered before any later one passes the sequence test, and what else can refuse it is exact |
| SequenceDomains.AnswerPasses | src/name_atlas/foldweave_companion_client.py:1019-1036 | after any run the next answer drawn and sent is last on the socket and above the mark |
| SequenceDomains.ClientDraws | src/name_atlas/foldweave_companion_client.py:414-434 | which counter each kind of envelope draws from, by one, and nothing else |
| SequenceDomains.RegistrationStarts | src/name_atlas/foldweave_companion_client.py:490-518 | a fresh registration is such a state |
| SequenceDomains.MarksBelowCounters | src/name_atlas/foldweave_companion_client.py:414-434 | each gateway mark stays below the client counter it is checked against, through every run |
| SequenceDomains.ArriveMoves | gateway/src/device-session.ts:899-915 | an envelope moves only its own domain's mark, and only up to its number |
| CombinedMark.SplitRefinesCombined | gateway/src/device-session.ts:84-93 | run side by side on the same events the split record stays no stricter than the combined one, all fields equal but marks, nonces and time last seen |
| CombinedMark.SplitAcceptsWhatCombinedAccepts | gateway/src/device-session.ts:895-915 | in any run with fresh nonces, every event the combined mark accepts the split marks accept too |
| CombinedMark.ComparisonStarts | gateway/src/device-session.ts:895-899 | records from before the split and fresh registrations both start that comparison |
| CombinedMark.CombinedAcceptedIff | gateway/src/device-session.ts:84-93 | the combined check accepts under the same conditions with one mark for both domains, and changes only mark, nonces and time last seen |
| CombinedMark.OldGatewayAcceptsIff | src/name_atlas/foldweave_companion_client.py:424-434 | from quiet legacy state, a call of a client with two counters that is otherwise fine is accepted by a combined mark, and by the split marks seeded from it, if and only if its domain has drawn at least as many numbers as the other |
| CombinedMark.MarkFollowsTheBusier | gateway/src/device-session.ts:895-899 | through every such run the combined mark stands at the last number of the domain that has drawn more |
| CombinedMark.CompanionLockedOut | gateway/src/device-session.ts:895-911 | from every legacy registration, one control call makes the combined gateway refuse the companion's first number as replayed, and the gateway that splits the mark then refuses it too |
| PairingDirectory.PairingDirectory.Register | gateway/src/pairing-directory.ts:123-148 | registers exactly a fresh, unexpired code and schedules its cleanup |
| PairingDirectory.PairingDirectory.Approve | gateway/src/pairing-directory.ts:160-174 | approval marks the record of that session and code while unexpired |
| PairingDirectory.PairingDirectory.Authorize | gateway/src/pairing-directory.ts:191-255 | one attempt: limiter, lockouts, one-time hand-over, cleanup scheduled in every case |
| PairingDirectory.PairingDirectory.KeepLive | gateway/src/pairing-directory.ts:197-199 | the attempts inside the window, in order |
| PairingDirectory.PairingDirectory.Revoke | gateway/src/pairing-directory.ts:281-287 | removes the code only for the session that owns it |
| PairingDirectory.PairingDirectory.Alarm | gateway/src/pairing-directory.ts:73-112 | leaves exactly the unexpired records and an alarm at the earliest of their expiries, or none when nothing is left |
| PairingDirectory.PairingDirectory.ScheduleCleanup | gateway/src/pairing-directory.ts:291-296 | the alarm only ever moves earlier |
| DirectoryRuns.CleanupIsCleaned | gateway/src/pairing-directory.ts:98-111 | the alarm handler's contract determines the storage it leaves |
| DirectoryRuns.NoRecordStranded | gateway/src/pairing-directory.ts:73-112 | once every requested cleanup is scheduled, a non-empty storage has an alarm no later than every stored expiry |
| DirectoryRuns.AlwaysCovered | gateway/src/pairing-directory.ts:255-296 | between a transaction and its scheduling every expiry is covered by the alarm or by a request still to come |
| DirectoryLaws.LimitedAttempt | gateway/src/pairing-directory.ts:191-205 | an attempt is answered as rate-limited exactly when its source is, and leaves no trace then; otherwise it is recorded behind the live ones |
| DirectoryLaws.MissingCode | gateway/src/pairing-directory.ts:207-230 | for a code without a record, the fifth counted try locks, earlier ones are invalid, and the count runs out after fifteen minutes |
| DirectoryLaws.ListedCode | gateway/src/pairing-directory.ts:232-252 | a listed code is locked at five failures, handed over and taken off when approved and unexpired, and otherwise gets one more failure |
| AttemptLimiter.AtMostTwentyPerWindow | gateway/src/pairing-directory.ts:191-205 | over any run of attempts and alarms, every half-open window of fifteen minutes holds at most twenty admitted attempts of a source |
| AttemptLimiter.RefusedOnlyWhenFull | gateway/src/pairing-directory.ts:197-202 | an attempt is refused if and only if the twentieth-last admitted one is still inside the window, counted over the whole history |
| AttemptLimiter.LiveIsSuffix | gateway/src/pairing-directory.ts:197-199 | pruning an ordered list drops exactly its old prefix |
| CodeLockout.HandedOverIff | gateway/src/pairing-directory.ts:232-252 | an attempt obtains the session exactly when the limiter lets it through, the code is registered, approved and unexpired, and fewer than five attempts failed on it since its registration |
| CodeLockout.StrikesAreCounted | gateway/src/pairing-directory.ts:241-249 | the stored failure count is the number of failed attempts in the run since the code was registered, up to five |
| CodeLockout.StruckOutForGood | gateway/src/pairing-directory.ts:232-234 | five failures lock a code for good, until it is registered anew |
| CodeGuesses.AtMostSevenMisses | gateway/src/pairing-directory.ts:209-229 | every half-open window of fifteen minutes holds at most seven attempts answered as invalid for a code without a record, whatever happened to the code before and wherever alarms fire |
| CodeGuesses.SevenAnswered | gateway/src/pairing-directory.ts:209-229 | a run reaches seven |
| CodeGuesses.FourPerWindowIff | gateway/src/pairing-directory.ts:209-229 | every window holds at most four, what one counting window answers, if and only if no attempt of the run passes the guards with a counting window already opened, not yet spent, and four recent answers behind it |
| CodeGuesses.FirstAnswerFits | gateway/src/pairing-directory.ts:212-219 | the first answer of a counting window never exceeds four in fifteen minutes |
| CodeGuesses.TryOutcome | gateway/src/pairing-directory.ts:219-229 | a try is answered as invalid exactly when fewer than four misses are counted in its window, and counts one more unless locked |
| AlarmTransparency.LimiterIgnoresAlarms | gateway/src/pairing-directory.ts:73-112 | wherever alarms fire, the limiter decides every attempt as in the run without alarms |
| AlarmTransparency.OnlyPairCleanupShows | gateway/src/pairing-directory.ts:73-112 | every attempt on every code is answered as in the run whose alarms delete expired code records only |
| AlarmTransparency.PairsUndisturbed | gateway/src/pairing-directory.ts:73-112 | and the code records of the two runs are equal throughout |
| AlarmTransparency.UnsweptCodesIgnoreAlarms | gateway/src/pairing-directory.ts:207-252 | an attempt on a code none of whose records an alarm has deleted is answered as in the run without alarms |
| AlarmTransparency.RegistrationSeesCleanupIff | gateway/src/pairing-directory.ts:82-97 | cleanup changes whether a code can be registered exactly when its record had expired |
| AlarmTransparency.AttemptSeesCleanupIff | gateway/src/pairing-directory.ts:207-249 | on one storage, with nothing in between, cleanup changes the answer to an attempt exactly when the expired record's failures and the missing-code failures fall on different sides of the lockout |
| AlarmVisibility.DiffersIff | gateway/src/pairing-directory.ts:73-252 | over runs: as long as registrations of a code were answered as without alarms, the next registration, approval or attempt on it is answered differently exactly when it meets a deleted record not since revoked, comes late from its session, or finds counted and deleted failures on different sides of the lockout |
| AlarmVisibility.AlarmsUnnoticedIff | gateway/src/pairing-directory.ts:73-252 | every answer about a code in a run is as without alarms if and only if no event of the run is of that kind |
| DirectoryWitnesses.RegistrationSeesCleanup | gateway/src/pairing-directory.ts:82-97 | a run whose alarm lets an expired code be registered anew, which it could not be without |
| DirectoryWitnesses.AttemptSeesCleanup | gateway/src/pairing-directory.ts:207-249 | a run whose alarm turns the guess that would have locked a code into an ordinary miss |
| PairingTheorems.DirectoryMatchesSessions | gateway/src/gateway.ts:342-387 | every directory record's code is the active code of the session it names; it is marked approved only if that session is, and that session has not been handed over |
| PairingTheorems.HandedOverOnce | gateway/src/pairing-directory.ts:251-252 | over all interleavings a session is handed over at most once and at most one grant is issued for it |
| PairingTheorems.GrantsAreEarned | gateway/src/gateway.ts:568-594 | every grant belongs to a session handed over and locally approved, and names that session's device |
| PairingTheorems.AcceptedCallHasItsGrant | gateway/src/device-session.ts:932-948 | an accepted relay call carries exactly the one grant ever issued for its session |
| PairingTheorems.AuthorityIsFinal | gateway/src/device-session.ts:529-545 | through all handlers authorization, scopes and expiry are set at most once, and never after revocation |
| PairingTheorems.RevokedIsNeverGranted | gateway/src/gateway.ts:570-594 | a session revoked before any handler passed its status check is never granted, over every continuation |
| PairingTheorems.AuthorizedOnlyByItsGrant | gateway/src/gateway.ts:595-605 | the only step that sets `authorizedAt` records an issued grant of that session, locally approved and unrevoked |
| PairingProgress.PairingCompletes | gateway/src/gateway.ts:323-607 | from any state, a device with a fresh session and a free code, approved and tried in time from a source that is not limited, ends authorized by one new grant for exactly the scopes asked for |
| PairingProgress.GrantedIff | gateway/src/gateway.ts:570-594 | a session handed over is granted exactly when it is active, approved, unauthorized and still the owner of the code at its status check |
| PairingProgress.HandedOverIff | gateway/src/gateway.ts:547-569 | the directory hands a session over exactly when its code is listed, approved, not run out and not struck out, and the source is not limited |
| PairingProgress.RecordedIff | gateway/src/gateway.ts:595-605 | a grant is recorded exactly when its session can take it at the instant it was issued |
| PairingProgress.SessionRegisteredIff | gateway/src/gateway.ts:342-368 | a registration is stored exactly when its times and number are valid and the session is new; otherwise up to three tries are made |
| PairingProgress.CodeListedIff | gateway/src/gateway.ts:369-388 | its code is listed exactly when it is free and not run out; otherwise the whole registration is tried anew |
| PairingProgress.SessionApprovedIff | gateway/src/gateway.ts:391-413 | approval marks exactly an active session, then goes on with its code |
| PairingProgress.CodeApprovedIff | gateway/src/gateway.ts:411-424 | the directory is marked exactly when the code is listed for that session and not run out |
| PairingProgress.SessionRevoked | gateway/src/gateway.ts:448-488 | revocation stamps the session and takes exactly its own code off the directory |
| PairingSafety.InvAlways | gateway/src/gateway.ts:323-607 | after any sequence of calls, lost handlers, session traffic and alarms: every handler in flight carries only what its step may act on, no two carry the same session, and every grant is the first and only one of an approved, handed-over session |
| SnapshotComparison.CompareSourceSnapshots | src/name_atlas/cases.py:918-991 | fails exactly when the current snapshot is malformed or a path changed role, kind, or size without digest; otherwise returns every difference once, in order; an error names the first offending path |
| SnapshotComparison.ComparableIff | src/name_atlas/cases.py:931-947 | two snapshots are comparable if and only if each change of a shared path passes the validator as resized or changed: same role, same kind, other digest |
| SnapshotDiff.ExactMeansKind | src/name_atlas/cases.py:186-229 | the validator passes a transition exactly as the one kind its two records make it |
| SnapshotDiff.KeyLessIff | src/name_atlas/cases.py:1050-1057 | the sort key is old path or else new path, then the kind's name, then the new path, each by code points |
| SnapshotComparison.ChangedInPlace | src/name_atlas/cases.py:931-947 | the resized and content-changed members of the shared paths |
| SnapshotComparison.GroupByIdentity | src/name_atlas/cases.py:1037-1047 | each member in the group of its payload identity, without repetition |
| SnapshotComparison.MatchRenames | src/name_atlas/cases.py:949-975 | exactly the pairs whose identity is unambiguous on both sides are renames, and exactly they leave the removed and added members |
| SnapshotComparison.AllRemoved | src/name_atlas/cases.py:977-983 | one removal per member left over |
| SnapshotComparison.AllAdded | src/name_atlas/cases.py:984-990 | one addition per member left over |
| SnapshotDiff.PatchIsExact | src/name_atlas/cases.py:918-991 | taking out every before record and putting in every after record turns the first snapshot into exactly the second |
| SnapshotDiff.EmptyIffEqual | src/name_atlas/cases.py:935-936 | no differences if and only if the snapshots are equal |
| SnapshotDiff.SwapInverts | src/name_atlas/cases.py:918-991 | comparing the other way round gives exactly the inverse differences, and fails in exactly the same cases |
| SnapshotDiff.CountsBalance | src/name_atlas/cases.py:977-990 | added minus removed is the change in the number of members |
| SnapshotDiff.HeadDetermines | src/name_atlas/cases.py:1050-1057 | the first sort key is unique across the differences |
| SnapshotDiff.AfterDetermines | src/name_atlas/cases.py:877-885 | no two differences end at the same path |
| SnapshotCompare.ComparisonIsAccepted | src/name_atlas/cases.py:865-904 | every result is accepted by the checks of a persisted case: valid transitions, unique before and after paths, matching before records, absent targets, sorted |
| SnapshotCompare.CaseAcceptsIff | src/name_atlas/cases.py:865-904 | a persisted case accepts exactly the lists, in path order, of transitions that start at its snapshot, no path left twice and none reached twice |
| SnapshotCompare.SortedInOrder | src/name_atlas/cases.py:1060-1063 | sorting by key puts differences with distinct first keys in strict order |
| SnapshotCompare.SortedKeeps | src/name_atlas/cases.py:1060-1063 | sorting only reorders |
| SnapshotCompare.OrderDetermines | src/name_atlas/cases.py:457-460 | the ordered result is determined by its elements |
| SnapshotCompare.ByPathMeaning | src/name_atlas/cases.py:925-928 | the path index holds every member of a valid snapshot under its own path and nothing else |
| CaseRecord.OneDecisionPerFamily | src/name_atlas/cases.py:709-721 | a valid ready or handoff-ready case has exactly one decision per family, export-ready, with a target for exactly the family's roles |
| CaseRecord.ReadyResolves | src/name_atlas/cases.py:709-721 | in a valid ready or handoff-ready case every role of every family has a resolved target |
| CaseRecord.ResolvedApart | src/name_atlas/cases.py:689-695 | in a valid case of any lifecycle the resolved targets of different families or roles differ exactly, in normal form and case-folded |
| CaseRecord.CasefoldDecides | src/name_atlas/cases.py:850-862 | of the three comparisons the last one alone decides |
| CaseLaws.ValidIff | src/name_atlas/cases.py:456-722 | a case is valid if and only if nothing is listed or decided twice, each decision is about a known family with a target for each role it resolves, targets fold apart, and lifecycle, pointers and stale reasons match the decisions; what the model leaves out counts as one fact |
| CaseLaws.NewCaseValid | src/name_atlas/cases.py:1097-1123 | a new case with families over a valid snapshot is valid |
| CaseStore.NoUpdateLost | src/name_atlas/cases.py:1192-1314 | no two processes hold the file for mutation, and the k-th record it held has revision k, the first record's identity, and is one valid mutation of the record before it |
| CaseStore.TerminalIsLast | src/name_atlas/cases.py:1271-1279 | handoff-ready and stale are absorbing |
| CaseStore.HandoffOnlyFromReadyIff | src/name_atlas/cases.py:1295-1301 | every handoff-ready record was ready to stage one revision earlier, if and only if the first record was not already handoff-ready |
| CaseStore.CreatedHandedOff | src/name_atlas/cases.py:1251-1263 | whatever handoff-ready record is created for a path is the first of the file and breaks the rule |
| CaseStore.NewCaseHandsOffFromReady | src/name_atlas/cases.py:1097-1123 | so it holds of every run from a new case |
| CaseStore.AlwaysValid | src/name_atlas/cases.py:1304-1311 | from a valid case every record is valid, and nothing is ever built on an invalid one |
| CaseStore.ReadyMeansDecided | src/name_atlas/cases.py:709-721 | whenever the file says ready or handoff-ready every family has exactly one decision, export-ready and with a target for exactly its roles |
| CaseStore.TargetsAlwaysApart | src/name_atlas/cases.py:689-721 | from a valid first record on, in every record the file ever holds, resolved targets of different families or roles differ under all three comparisons, and a ready or handoff-ready one resolves every role |
| CaseStore.PreparedFollows | src/name_atlas/cases.py:1251-1311 | what `save` is about to write is a revision-zero creation or exactly one mutation of the durable record |
| CaseWriter.MigrationCaseWriter.Enter | src/name_atlas/cases.py:1192-1214 | takes the lock exactly when it is free, without blocking |
| CaseWriter.MigrationCaseWriter.Exit | src/name_atlas/cases.py:1216-1229 | releases it if held |
| CaseWriter.MigrationCaseWriter.Check | src/name_atlas/cases.py:1246-1311 | the refusals in order, and the record to be written |
| CaseWriter.MigrationCaseWriter.Save | src/name_atlas/cases.py:1237-1347 | durable state and reply for every refusal and for a write abandoned, landed but reported failed, or done |
| CaseLaws.FirstDecisionAccepted | src/name_atlas/cases.py:1263-1311 | a new case takes any first decision about one of its families, and is then blocked, ready or in review as the decision says |
| CaseLaws.MutationAcceptedIff | src/name_atlas/cases.py:1263-1311 | a save that mutates is accepted if and only if it is one mutation of the valid record the file holds, made against its revision |
| CaseLaws.CreationAcceptedIff | src/name_atlas/cases.py:1251-1262 | a save that creates is accepted if and only if there is no file and the record is at revision zero |
| CaseLaws.SaveRefusedBecause | src/name_atlas/cases.py:1246-1311 | which error a refused save reports |
| CaseWriter.UniqueRecords | src/name_atlas/cases.py:1066-1078 | an index of all decisions, or the first family that repeats |
| CaseWriter.RequireUniqueResolvedTargets | src/name_atlas/cases.py:850-862 | accepts exactly the target lists without a collision under case folding of the normal form |
| SupervisorSafety.AtMostOneRuntime | src/name_atlas/foldweave_companion_supervisor.py:99-196 | over all interleavings of all supervisors on one lock at most one task is alive, and the lock is held while it is |
| SupervisorSafety.HoldsLock | src/name_atlas/foldweave_companion_supervisor.py:159-189 | the lock's holder, an owner or a waiting detach, names the task that is alive |
| SupervisorSafety.SupersededWritesNothing | src/name_atlas/foldweave_companion_supervisor.py:222-224 | a superseded or cancelled task's last write changes no supervisor |
| SupervisorSafety.ReportedMeansRunning | src/name_atlas/foldweave_companion_supervisor.py:166-177 | a reported connection means the supervisor's own current task is running under the lock |
| SupervisorSafety.ExactLostIff | src/name_atlas/foldweave_companion_supervisor.py:99-112 | the reported state stops matching the controller through exactly one step: starting unpaired over a live controller |
| SupervisorSafety.UnpairedRestartMisreports | src/name_atlas/foldweave_companion_supervisor.py:99-112 | a run that reports disconnected over a live controller |
| SupervisorProgress.PairingStartsRuntime | src/name_atlas/foldweave_companion_supervisor.py:114-128 | pairing while the application runs ends with a live controller under the lock, unless somebody else holds it |
| SupervisorProgress.StartRunsWhenPaired | src/name_atlas/foldweave_companion_supervisor.py:99-110 | starting with a pairing does too, or leaves the application not running |
| SupervisorProgress.StoppingLetsGo | src/name_atlas/foldweave_companion_supervisor.py:128-157 | losing the pairing, stopping and shutting down all detach the controller and pass the lock to the waiting caller |
| SupervisorProgress.StoppingFreesLock | src/name_atlas/foldweave_companion_supervisor.py:128-157 | once the cancelled task has ended the lock is free |
| SupervisorProgress.EndingSays | src/name_atlas/foldweave_companion_supervisor.py:198-224 | a task that ends is done, and its last write says disconnected exactly when it makes one and no later generation took over |
| CompanionSupervisor.FoldweaveCompanionSupervisor.Start | src/name_atlas/foldweave_companion_supervisor.py:99-112 | state after starting, with the lock taken or refused |
| CompanionSupervisor.FoldweaveCompanionSupervisor.PairingStateChanged | src/name_atlas/foldweave_companion_supervisor.py:114-136 | state after a pairing change, and what the caller must cancel and release |
| CompanionSupervisor.FoldweaveCompanionSupervisor.AcquireOwnership | src/name_atlas/foldweave_companion_supervisor.py:159-164 | idempotent, and fails exactly when another owner holds the lock |
| CompanionSupervisor.FoldweaveCompanionSupervisor.EnsureController | src/name_atlas/foldweave_companion_supervisor.py:166-177 | a new generation only when no controller is alive |
| CompanionSupervisor.FoldweaveCompanionSupervisor.DetachController | src/name_atlas/foldweave_companion_supervisor.py:179-189 | hands controller and lock to the caller and supersedes the generation |
| CompanionSupervisor.FoldweaveCompanionSupervisor.FinalWrite | src/name_atlas/foldweave_companion_supervisor.py:222-224 | disconnects only its own generation |
| CompanionSupervisor.Supervise | src/name_atlas/foldweave_companion_supervisor.py:198-221 | each wait is the initial delay doubled once per full wait since the last wake, capped at the maximum; the loop ends at the first unconfigured reading |
| Base64UrlLaws.BytesToBase64Url | gateway/src/canonical.ts:39-48 | the text written is the sextets of the bytes in the URL alphabet, as long as they need, and both decoders give the bytes back from it |
| Base64UrlLaws.EncodeIsUrlText | gateway/src/canonical.ts:39-48 | the encoder writes the sextets in the URL alphabet (section 5 of RFC 4648) without padding |
| Base64UrlLaws.DecodeIsUnpack | gateway/src/canonical.ts:50-60 | the decoder accepts exactly non-empty texts of the alphabet whose length is not one more than a multiple of four |
| Base64UrlLaws.GatewayRoundTrip | gateway/src/canonical.ts:39-60 | decoding an encoding gives the bytes back, the empty one excepted |
| Base64UrlLaws.GatewayAcceptsImage | gateway/src/response-codec.ts:92-100 | the re-encoding check accepts exactly the encoder's image: no spare bit set |
| Base64UrlLaws.CompanionAcceptsImage | src/name_atlas/foldweave_companion.py:1023-1036 | the companion's decoder accepts exactly the encoder's image, with those bytes |
| Base64UrlLaws.DecodersAgree | src/name_atlas/foldweave_companion.py:1027-1036 | both sides read a text alike if and only if it is not empty |
| Base64UrlLaws.EncodedLimitIsByteLimit | gateway/src/constants.ts:24-28 | n bytes take ceil(4n/3) characters, so the character limit admits exactly the byte limit |
| ResponseCodec.GunzipBounded | gateway/src/response-codec.ts:179-223 | returns the concatenated chunks exactly when the stream is sound and as long as declared; otherwise the right refusal |
| ResponseCodec.Collect | gateway/src/response-codec.ts:192-212 | never keeps more than the smaller of the declared and maximum sizes |
| ResponseCodec.Assemble | gateway/src/response-codec.ts:216-222 | the filled buffer is the concatenation of the chunks |
| ResponseCodecLaws.BodyAcceptedIff | gateway/src/response-codec.ts:85-108 | a body is accepted as these bytes exactly when it encodes them, they are not empty, fit the limit and are as many as claimed |
| ResponseCodecLaws.BodyRefusedBecause | gateway/src/response-codec.ts:85-108 | which refusal an encoded body gets |
| Csv.ReadRow | src/name_atlas/artifacts.py:178-185 | a row of fields the reader can give back is read back exactly, whatever follows |
| Csv.CutInRow | src/name_atlas/artifacts.py:196-200 | a field it cannot give back makes the reader fail or cuts the row short |
| Csv.EitherLineEnd | src/name_atlas/artifacts.py:196-200 | outside quotes the reader takes a carriage return and line feed for a line feed |
| PathMap.WritePathMap | src/name_atlas/artifacts.py:167-186 | header and rows in order, or a refusal when a size has too many digits to print |
| PathMap.ParsePathMap | src/name_atlas/artifacts.py:189-256 | the strict parse, row by row |
| PathMap.RoundTripIff | src/name_atlas/artifacts.py:167-256 | for every non-empty list of valid rows, either map parses back to exactly the rows if and only if each identifier and path is short enough and has no carriage return outside quotes |
| PathMap.AcceptedIsValid | src/name_atlas/artifacts.py:202-256 | whatever is accepted is a non-empty list of valid rows |
| PathMap.ColumnsUnderNames | src/name_atlas/artifacts.py:167-186 | each value of a row stands under its own column name, and the path a map is looked up by comes first |
| PathMap.RowAcceptedIff | src/name_atlas/artifacts.py:208-256 | the parser accepts, as a row, exactly the seven fields the writer gives that row, if it is valid and its size printable |
| PathMap.RowRefusedBecause | src/name_atlas/artifacts.py:208-256 | which refusal a row gets |
| PathMap.ValidRowIff | src/name_atlas/artifacts.py:50-61 | two lower-case SHA-256 digests and an identifier of one to sixty-four characters |
| PathMap.ValueOfDigits | src/name_atlas/artifacts.py:223-236 | sizes survive their canonical decimal text |

## Left out

- HTTP, WebSocket, Durable Object, ASGI, Keychain and file-system plumbing: only the atomic steps they provide are kept.
- Ed25519, gzip and the OAuth provider: a signature is a fact, a decompressor is a stream of chunks, issued grants are a log; listing and revoking a device's earlier grants is not modelled, so nothing is claimed about when those stop working.
- User interfaces, command lines, tool descriptors, the job services and the Change File matcher.
- Nonce sets and expiry checks of the companion's inbound guard: one yes-or-no check per delivered frame stands for them, so only the sequence checks are proved about.
- PairingStateStore.CompanionPairingStateStore.Read: unreadable or invalid state files, and fields other than the three counters, are not modelled.
- RelayProtocol.DispatchedInOrder: the companion's local work is a point in time; what it does, and whether a crash interrupts it, is not modelled.
- DirectoryRuns.NoRecordStranded: a crash between a transaction and the scheduling that follows it leaves a request outstanding for ever; the theorem is about states where none is.
- SnapshotComparison.CompareSourceSnapshots: the commitment of a snapshot is taken as computed from its members; payload identities are visited in an unspecified order, which covers the sorted one.
- CaseRecord.OneDecisionPerFamily: proposals, evidence, decision cards and timestamps' time zone are checked by the original's validator too; here that they pass is one fact of the record.
- SupervisorSafety.AtMostOneRuntime: the runtime is opaque and is taken to stop when cancelled; one that swallowed cancellation would keep its task alive, and then the waiting caller keeps the lock.
- PathMap.RoundTripIff: text stands for its UTF-8 bytes, so strings that cannot be encoded are not modelled; the CSV reader and writer are those of Python 3.11.
- CanonicalJsonInjective.CanonicalInjective: numbers are integers, because minus zero and zero print alike and other doubles are printed by an algorithm that is not part of this model.
- Constant-time comparison, tool-scope tables and random identifiers: data, or nothing to prove about results.
