/**
The session object over its storage: each method is one handler's transaction, written as the
steps it takes and tied to the event of a run it performs (gateway/src/device-session.ts).
*/
module DeviceSession {
  import opened Common
  import opened Constants
  import opened SessionRecord
  import opened SessionLifecycle

  /** Storage after one event; without a record nothing happens. */
  function Committed(storage: Option<Record>, e: Event): Option<Record> {
    match storage
    case None => None
    case Some(record) => Some(Apply(record, e))
  }

  function ReplyOf<T>(r: Result<T, HttpError>): Result<(), HttpError> {
    match r
    case Ok(_) => Ok(())
    case Err(error) => Err(error)
  }

  class DeviceSession {
    var storage: Option<Record>

    constructor ()
      ensures storage == None
    {
      storage := None;
    }

    /** Registers once: a second registration is refused and changes nothing. */
    method Register(g: Registration) returns (r: Result<(), HttpError>)
      modifies this
      ensures r.Ok? <==> RegistrationAllowed(g) && old(storage).None?
      ensures storage == if r.Ok? then Some(Registered(g)) else old(storage)
    {
      if g.createdAt <= 0 {
        return Err(HttpError(400, "created_at_invalid"));
      }
      if g.expiresAt <= 0 {
        return Err(HttpError(400, "expires_at_invalid"));
      }
      if g.initialSequence <= 0 {
        return Err(HttpError(400, "initial_sequence_invalid"));
      }
      if g.expiresAt <= g.createdAt {
        return Err(HttpError(400, "session_registration_invalid"));
      }
      if storage.Some? {
        return Err(HttpError(409, "session_already_registered"));
      }
      storage := Some(Registered(g));
      return Ok(());
    }

    /** Checks a signed envelope, then advances the mark of its domain in one transaction. */
    method VerifyAndAdvance(e: Envelope, verifiedAt: int, now: int, domain: Domain, preserveLastSeen: bool,
      requireActive: bool)
      returns (r: Result<(), HttpError>)
      modifies this
      ensures storage == Committed(old(storage),
        VerifyEvent(e, verifiedAt, now, domain, preserveLastSeen, requireActive))
      ensures old(storage).Some? ==>
        r == ReplyOf(Step(old(storage).value, VerifyEvent(e, verifiedAt, now, domain, preserveLastSeen, requireActive)))
      ensures old(storage).None? ==> r.Err?
    {
      var verified := VerifyEnvelope(e, verifiedAt);
      if verified.Err? {
        return Err(verified.error);
      }
      if storage.None? || (requireActive && (storage.value.revokedAt.Some? || storage.value.expiresAt <= now)) {
        return Err(HttpError(401, "session_inactive"));
      }
      var current := storage.value;
      var legacySequence := current.lastSequence;
      if current.lastCompanionSequence.None? {
        current := current.(lastCompanionSequence := Some(legacySequence));
      }
      if current.lastControlSequence.None? {
        current := current.(lastControlSequence := Some(legacySequence));
      }
      var lastDomainSequence :=
        if domain.Companion? then current.lastCompanionSequence.value else current.lastControlSequence.value;
      var live := PruneNonces(current.recentNonces, now);
      var seen := ContainsNonce(live, e.nonce);
      if e.sequence <= lastDomainSequence || seen {
        return Err(HttpError(409, "device_request_replayed"));
      }
      if domain.Companion? {
        current := current.(lastCompanionSequence := Some(e.sequence));
      } else {
        current := current.(lastControlSequence := Some(e.sequence));
      }
      current := current.(lastSequence := Max(legacySequence, e.sequence));
      if !preserveLastSeen {
        current := current.(lastSeenAt := Some(now));
      }
      live := live + [Nonce(now + NONCE_RETENTION_MS, e.nonce)];
      current := current.(recentNonces := LastN(live, MAX_RECENT_NONCES));
      storage := Some(current);
      return Ok(());
    }

    method PruneNonces(nonces: seq<Nonce>, now: int) returns (live: seq<Nonce>)
      ensures live == LiveNonces(nonces, now)
    {
      live := [];
      for i := 0 to |nonces|
        invariant live + LiveNonces(nonces[i..], now) == LiveNonces(nonces, now)
      {
        if nonces[i].expiresAt > now {
          live := live + [nonces[i]];
        }
      }
    }

    method ContainsNonce(nonces: seq<Nonce>, hash: string) returns (seen: bool)
      ensures seen == Holds(nonces, hash)
    {
      seen := false;
      for i := 0 to |nonces|
        invariant seen == exists k :: 0 <= k < i && nonces[k].hash == hash
      {
        if nonces[i].hash == hash {
          seen := true;
        }
      }
    }

    /** Claims the next relay sequence; the reply is that number. */
    method ClaimRelay(requestId: string, fingerprint: string, v: Invocation, now: int)
      returns (r: Result<int, HttpError>)
      modifies this
      ensures storage == Committed(old(storage), ClaimEvent(requestId, fingerprint, v, now))
      ensures old(storage).None? ==> r.Err?
      ensures old(storage).Some? ==>
        ReplyOf(r) == ReplyOf(Step(old(storage).value, ClaimEvent(requestId, fingerprint, v, now)))
      ensures r.Ok? ==> r.value == storage.value.lastRelaySequence == old(storage).value.lastRelaySequence + 1
    {
      if storage.None? || !ActiveAt(storage.value, now) || !Bound(storage.value, v) {
        return Err(HttpError(401, "session_inactive"));
      }
      var record := storage.value;
      var live := PruneRelays(record.recentRelays, now);
      var existing := SearchRelay(live, requestId);
      if existing.Some? && existing.value.fingerprint != fingerprint {
        return Err(HttpError(409, "relay_request_conflict"));
      }
      if existing.None? {
        live := LastN(live + [Correlation(now + CAPABILITY_TTL_MS, fingerprint, requestId)], MAX_RECENT_RELAYS);
      }
      record := record.(recentRelays := live);
      record := record.(lastRelaySequence := record.lastRelaySequence + 1);
      storage := Some(record);
      return Ok(record.lastRelaySequence);
    }

    method PruneRelays(relays: seq<Correlation>, now: int) returns (live: seq<Correlation>)
      ensures live == LiveRelays(relays, now)
    {
      live := [];
      for i := 0 to |relays|
        invariant live + LiveRelays(relays[i..], now) == LiveRelays(relays, now)
      {
        if relays[i].expiresAt > now {
          live := live + [relays[i]];
        }
      }
    }

    /** The first correlation with this identifier. */
    method SearchRelay(relays: seq<Correlation>, requestId: string) returns (found: Option<Correlation>)
      ensures found == FindRelay(relays, requestId)
    {
      for i := 0 to |relays|
        invariant FindRelay(relays, requestId) == FindRelay(relays[i..], requestId)
      {
        if relays[i].requestId == requestId {
          return Some(relays[i]);
        }
      }
      return None;
    }

    method Approve(now: int) returns (r: Result<(), HttpError>)
      modifies this
      ensures storage == Committed(old(storage), ApproveEvent(now))
      ensures r.Ok? <==> old(storage).Some? && ActiveAt(old(storage).value, now)
    {
      if storage.None? || storage.value.revokedAt.Some? || storage.value.expiresAt <= now {
        return Err(HttpError(409, "session_inactive"));
      }
      storage := Some(storage.value.(localApprovedAt := Some(now)));
      return Ok(());
    }

    method MarkAuthorized(sessionId: string, authorizedAt: int, scopes: set<string>) returns (r: Result<(), HttpError>)
      modifies this
      ensures storage == Committed(old(storage), AuthorizeEvent(sessionId, authorizedAt, scopes))
      ensures r.Ok? <==>
        old(storage).Some? && Step(old(storage).value, AuthorizeEvent(sessionId, authorizedAt, scopes)).Ok?
    {
      if
        storage.None? ||
        storage.value.sessionId != sessionId ||
        storage.value.authorizedAt.Some? ||
        storage.value.revokedAt.Some? ||
        storage.value.expiresAt <= authorizedAt ||
        storage.value.localApprovedAt.None?
      {
        return Err(HttpError(409, "session_inactive"));
      }
      var record := storage.value.(authorizedAt := Some(authorizedAt));
      record := record.(expiresAt := authorizedAt + DEVICE_AUTHORIZATION_TTL_MS);
      record := record.(scopes := scopes);
      storage := Some(record);
      return Ok(());
    }

    /** Replies with the first observation time, which later observations do not move. */
    method MarkClientAccessObserved(v: Invocation, now: int) returns (r: Result<int, HttpError>)
      modifies this
      ensures storage == Committed(old(storage), ObserveEvent(v, now))
      ensures r.Ok? <==> old(storage).Some? && ActiveAt(old(storage).value, now) && Bound(old(storage).value, v)
      ensures r.Ok? ==> r.value == old(storage).value.clientAccessObservedAt.GetOr(now)
      ensures r.Ok? ==> storage.value.clientAccessObservedAt == Some(r.value)
    {
      if storage.None? || !ActiveAt(storage.value, now) || !Bound(storage.value, v) {
        return Err(HttpError(401, "client_access_observation_invalid"));
      }
      var firstObservedAt := storage.value.clientAccessObservedAt.GetOr(now);
      storage := Some(storage.value.(clientAccessObservedAt := Some(firstObservedAt)));
      return Ok(firstObservedAt);
    }

    method Revoke(now: int)
      modifies this
      ensures storage == Committed(old(storage), RevokeEvent(now))
    {
      if storage.Some? {
        storage := Some(storage.value.(revokedAt := Some(now)));
      }
    }
  }
}
