/**
The durable record of one pairing and what each storage transaction does to it
(gateway/src/device-session.ts). SHA-256 is taken as injective, so a digest stands for the
value it was computed from; a signature is a fact carried by the envelope.
*/
module SessionRecord {
  import opened Common
  import opened Constants

  datatype HttpError = HttpError(status: int, code: string)

  datatype Nonce = Nonce(expiresAt: int, hash: string)

  datatype Correlation = Correlation(expiresAt: int, fingerprint: string, requestId: string)

  /** `lastCompanionSequence` and `lastControlSequence` are absent from records written before the split. */
  datatype Record = Record(
    activeCodeHash: string,
    authorizedAt: Option<int>,
    clientAccessObservedAt: Option<int>,
    createdAt: int,
    deviceId: string,
    expiresAt: int,
    lastCompanionSequence: Option<int>,
    lastControlSequence: Option<int>,
    lastRelaySequence: int,
    lastSeenAt: Option<int>,
    lastSequence: int,
    localApprovedAt: Option<int>,
    publicKey: string,
    recentNonces: seq<Nonce>,
    recentRelays: seq<Correlation>,
    revokedAt: Option<int>,
    scopes: set<string>,
    sessionId: string)

  datatype Domain = Companion | Control

  datatype Envelope = Envelope(
    bodyDigestMatches: bool,
    expiresAt: int,
    issuedAt: int,
    nonce: string,
    sequence: int,
    signatureVerifies: bool)

  datatype Registration = Registration(
    activeCodeHash: string,
    createdAt: int,
    deviceId: string,
    expiresAt: int,
    initialNonceHash: string,
    initialSequence: int,
    publicKey: string,
    sessionId: string)

  datatype Invocation = Invocation(authorizedAt: int, deviceId: string, scopes: set<string>, sessionId: string)

  function ActiveAt(r: Record, now: int): bool {
    r.revokedAt.None? && r.expiresAt > now
  }

  // ----- signatures and sequence marks -----

  function VerifyEnvelope(e: Envelope, now: int): Result<(), HttpError> {
    if e.issuedAt > now + CLOCK_SKEW_MS then Err(HttpError(401, "device_signature_invalid"))
    else if e.expiresAt <= now - CLOCK_SKEW_MS then Err(HttpError(401, "device_signature_expired"))
    else if e.expiresAt <= e.issuedAt || e.expiresAt - e.issuedAt > SIGNED_REQUEST_MAX_LIFETIME_MS then
      Err(HttpError(401, "device_signature_invalid"))
    else if !e.bodyDigestMatches then Err(HttpError(401, "body_digest_mismatch"))
    else if !e.signatureVerifies then Err(HttpError(401, "device_signature_invalid"))
    else Ok(())
  }

  /** The high-water mark of a domain, seeded from the combined mark of a legacy record. */
  function Mark(r: Record, domain: Domain): int {
    match domain
    case Companion => r.lastCompanionSequence.GetOr(r.lastSequence)
    case Control => r.lastControlSequence.GetOr(r.lastSequence)
  }

  function LiveNonces(nonces: seq<Nonce>, now: int): seq<Nonce> {
    if nonces == [] then []
    else if nonces[0].expiresAt > now then [nonces[0]] + LiveNonces(nonces[1..], now)
    else LiveNonces(nonces[1..], now)
  }

  predicate Holds(nonces: seq<Nonce>, hash: string) {
    exists i :: 0 <= i < |nonces| && nonces[i].hash == hash
  }

  function Advance(r: Record, e: Envelope, now: int, domain: Domain, preserveLastSeen: bool, requireActive: bool)
    : Result<Record, HttpError>
  {
    if requireActive && !ActiveAt(r, now) then Err(HttpError(401, "session_inactive"))
    else
      var live := LiveNonces(r.recentNonces, now);
      if e.sequence <= Mark(r, domain) || Holds(live, e.nonce) then Err(HttpError(409, "device_request_replayed"))
      else
        Ok(r.(
          lastCompanionSequence := Some(if domain.Companion? then e.sequence else Mark(r, Companion)),
          lastControlSequence := Some(if domain.Control? then e.sequence else Mark(r, Control)),
          lastSequence := Max(r.lastSequence, e.sequence),
          lastSeenAt := if preserveLastSeen then r.lastSeenAt else Some(now),
          recentNonces := LastN(live + [Nonce(now + NONCE_RETENTION_MS, e.nonce)], MAX_RECENT_NONCES)))
  }

  // ----- relay correlations -----

  function LiveRelays(relays: seq<Correlation>, now: int): seq<Correlation> {
    if relays == [] then []
    else if relays[0].expiresAt > now then [relays[0]] + LiveRelays(relays[1..], now)
    else LiveRelays(relays[1..], now)
  }

  function FindRelay(relays: seq<Correlation>, requestId: string): Option<Correlation> {
    if relays == [] then None
    else if relays[0].requestId == requestId then Some(relays[0])
    else FindRelay(relays[1..], requestId)
  }

  /** The table after an accepted claim: a retry leaves its entry where it was. */
  function ClaimTable(relays: seq<Correlation>, requestId: string, fingerprint: string, now: int): seq<Correlation> {
    var live := LiveRelays(relays, now);
    if FindRelay(live, requestId).Some? then live
    else LastN(live + [Correlation(now + CAPABILITY_TTL_MS, fingerprint, requestId)], MAX_RECENT_RELAYS)
  }

  predicate Bound(r: Record, v: Invocation) {
    r.authorizedAt == Some(v.authorizedAt) && r.deviceId == v.deviceId && r.sessionId == v.sessionId
      && r.scopes == v.scopes
  }

  function Claim(r: Record, requestId: string, fingerprint: string, v: Invocation, now: int)
    : Result<Record, HttpError>
  {
    if !ActiveAt(r, now) || !Bound(r, v) then Err(HttpError(401, "session_inactive"))
    else
      var existing := FindRelay(LiveRelays(r.recentRelays, now), requestId);
      if existing.Some? && existing.value.fingerprint != fingerprint then Err(HttpError(409, "relay_request_conflict"))
      else
        Ok(r.(
          recentRelays := ClaimTable(r.recentRelays, requestId, fingerprint, now),
          lastRelaySequence := r.lastRelaySequence + 1))
  }

  // ----- lifecycle -----

  function Registered(g: Registration): Record {
    Record(
      g.activeCodeHash, None, None, g.createdAt, g.deviceId, g.expiresAt,
      Some(g.initialSequence), Some(g.initialSequence), 0, None, g.initialSequence, None, g.publicKey,
      [Nonce(g.createdAt + NONCE_RETENTION_MS, g.initialNonceHash)], [], None, {}, g.sessionId)
  }

  predicate RegistrationAllowed(g: Registration) {
    g.createdAt > 0 && g.expiresAt > g.createdAt && g.initialSequence > 0
  }

  function Approve(r: Record, now: int): Result<Record, HttpError> {
    if !ActiveAt(r, now) then Err(HttpError(409, "session_inactive"))
    else Ok(r.(localApprovedAt := Some(now)))
  }

  /** `authorizedAt` is the gateway's earlier clock reading, not this object's. */
  function Authorize(r: Record, sessionId: string, authorizedAt: int, scopes: set<string>): Result<Record, HttpError> {
    if r.sessionId != sessionId || r.authorizedAt.Some? || !ActiveAt(r, authorizedAt) || r.localApprovedAt.None? then
      Err(HttpError(409, "session_inactive"))
    else
      Ok(r.(
        authorizedAt := Some(authorizedAt),
        expiresAt := authorizedAt + DEVICE_AUTHORIZATION_TTL_MS,
        scopes := scopes))
  }

  function Observe(r: Record, v: Invocation, now: int): Result<Record, HttpError> {
    if !ActiveAt(r, now) || !Bound(r, v) then Err(HttpError(401, "client_access_observation_invalid"))
    else Ok(r.(clientAccessObservedAt := Some(r.clientAccessObservedAt.GetOr(now))))
  }

  /** Revocation is unconditional inside its transaction. */
  function Revoke(r: Record, now: int): Record {
    r.(revokedAt := Some(now))
  }

  // ----- runs -----

  datatype Event =
    | VerifyEvent(envelope: Envelope, verifiedAt: int, now: int, domain: Domain, preserveLastSeen: bool,
      requireActive: bool)
    | ApproveEvent(now: int)
    | AuthorizeEvent(sessionId: string, authorizedAt: int, scopes: set<string>)
    | ObserveEvent(invocation: Invocation, now: int)
    | RevokeEvent(now: int)
    | ClaimEvent(requestId: string, fingerprint: string, invocation: Invocation, now: int)

  function Step(r: Record, e: Event): Result<Record, HttpError> {
    match e
    case VerifyEvent(envelope, verifiedAt, now, domain, preserve, active) =>
      (match VerifyEnvelope(envelope, verifiedAt)
       case Err(error) => Err(error)
       case Ok(_) => Advance(r, envelope, now, domain, preserve, active))
    case ApproveEvent(now) => Approve(r, now)
    case AuthorizeEvent(sessionId, authorizedAt, scopes) => Authorize(r, sessionId, authorizedAt, scopes)
    case ObserveEvent(v, now) => Observe(r, v, now)
    case RevokeEvent(now) => Ok(Revoke(r, now))
    case ClaimEvent(requestId, fingerprint, v, now) => Claim(r, requestId, fingerprint, v, now)
  }

  /** A failed transaction leaves storage as it was. */
  function Apply(r: Record, e: Event): Record {
    match Step(r, e)
    case Ok(next) => next
    case Err(_) => r
  }

  /** The record before the event at index i of a run. */
  function At(r: Record, es: seq<Event>, i: nat): Record
    requires i <= |es|
  {
    if i == 0 then r else Apply(At(r, es, i - 1), es[i - 1])
  }

  predicate Accepted(r: Record, es: seq<Event>, i: nat)
    requires i < |es|
  {
    Step(At(r, es, i), es[i]).Ok?
  }
}
