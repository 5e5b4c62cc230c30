/**
What each transaction of a session accepts and what it leaves, field by field, said in terms of the record and the
request alone (gateway/src/device-session.ts, gateway/src/device-crypto.ts).
*/
module SessionLaws {
  import opened Common
  import opened Constants
  import opened SessionRecord
  import opened SessionLifecycle

  // ----- signed envelopes -----

  /** Pruning works nonce by nonce, and keeps the unexpired ones. */
  lemma ConsParts<T>(a: seq<T>, b: seq<T>)
    requires a != []
    ensures a == [a[0]] + a[1..] && a + b == [a[0]] + (a[1..] + b)
  {
  }

  lemma JoinParts<T>(a: seq<T>, b: seq<T>, c: seq<T>)
    ensures a + (b + c) == (a + b) + c
  {
  }

  lemma LiveNoncesFirst(c: Nonce, rest: seq<Nonce>, now: int)
    ensures LiveNonces([c] + rest, now) == (if c.expiresAt > now then [c] else []) + LiveNonces(rest, now)
  {
    assert ([c] + rest)[1..] == rest;
  }

  lemma {:induction false} LiveNoncesSplit(a: seq<Nonce>, b: seq<Nonce>, now: int)
    ensures LiveNonces(a + b, now) == LiveNonces(a, now) + LiveNonces(b, now)
  {
    if a == [] {
      assert a + b == b;
    } else {
      var c, rest := a[0], a[1..];
      LiveNoncesSplit(rest, b, now);
      LiveNoncesFirst(c, rest, now);
      LiveNoncesFirst(c, rest + b, now);
      ConsParts(a, b);
      JoinParts(if c.expiresAt > now then [c] else [], LiveNonces(rest, now), LiveNonces(b, now));
    }
  }

  lemma {:induction false} LiveNonceIff(nonces: seq<Nonce>, now: int, n: Nonce)
    ensures n in LiveNonces(nonces, now) <==> n in nonces && n.expiresAt > now
  {
    if nonces != [] {
      LiveNonceIff(nonces[1..], now, n);
    }
  }

  lemma HeldIff(nonces: seq<Nonce>, hash: string, now: int)
    ensures Holds(LiveNonces(nonces, now), hash) <==> exists n :: n in nonces && n.expiresAt > now && n.hash == hash
  {
    var live := LiveNonces(nonces, now);
    if Holds(live, hash) {
      var i :| 0 <= i < |live| && live[i].hash == hash;
      LiveNonceIff(nonces, now, live[i]);
    }
    if n :| n in nonces && n.expiresAt > now && n.hash == hash {
      LiveNonceIff(nonces, now, n);
    }
  }

  /** The mark an envelope must exceed; a record from before the split has one for both domains. */
  function LastAccepted(r: Record, domain: Domain): int {
    var own := if domain.Companion? then r.lastCompanionSequence else r.lastControlSequence;
    if own.Some? then own.value else r.lastSequence
  }

  /** Signed by the device over this body, and read inside its time window, one minute of skew either way. */
  predicate Genuine(e: Envelope, verifiedAt: int) {
    && e.bodyDigestMatches && e.signatureVerifies
    && e.issuedAt <= verifiedAt + 60_000 && e.expiresAt > verifiedAt - 60_000
    && 0 < e.expiresAt - e.issuedAt <= 1_800_000
  }

  predicate Fresh(r: Record, e: Envelope, now: int, domain: Domain) {
    && e.sequence > LastAccepted(r, domain)
    && forall n :: n in r.recentNonces && n.expiresAt > now ==> n.hash != e.nonce
  }

  /**
  An envelope is accepted exactly when it is genuine, the session is active where that is asked, its number is new
  in its domain and no unexpired nonce is its own. A replay of a genuine one is told apart from any other refusal.
  */
  lemma EnvelopeAcceptedIff(
    r: Record, e: Envelope, verifiedAt: int, now: int, domain: Domain, preserveLastSeen: bool, requireActive: bool)
    ensures
      var step := Step(r, VerifyEvent(e, verifiedAt, now, domain, preserveLastSeen, requireActive));
      var admitted := Genuine(e, verifiedAt) && (requireActive ==> r.revokedAt.None? && r.expiresAt > now);
      && (step.Ok? <==> admitted && Fresh(r, e, now, domain))
      && (step.Err? ==> step.error.status == if admitted then 409 else 401)
  {
    HeldIff(r.recentNonces, e.nonce, now);
  }

  /** Why an envelope is refused: the time window first, then body and signature, then the session, then a replay. */
  lemma EnvelopeRefusedBecause(
    r: Record, e: Envelope, verifiedAt: int, now: int, domain: Domain, preserveLastSeen: bool, requireActive: bool)
    requires Step(r, VerifyEvent(e, verifiedAt, now, domain, preserveLastSeen, requireActive)).Err?
    ensures
      var error := Step(r, VerifyEvent(e, verifiedAt, now, domain, preserveLastSeen, requireActive)).error;
      var early, late := e.issuedAt > verifiedAt + 60_000, e.expiresAt <= verifiedAt - 60_000;
      var timely := !early && !late && 0 < e.expiresAt - e.issuedAt <= 1_800_000;
      && (error == HttpError(401, "device_signature_expired") <==> !early && late)
      && (error == HttpError(401, "body_digest_mismatch") <==> timely && !e.bodyDigestMatches)
      && (error == HttpError(401, "device_signature_invalid") <==>
        early || (!late && (!timely || (e.bodyDigestMatches && !e.signatureVerifies))))
      && (error == HttpError(401, "session_inactive") <==>
        Genuine(e, verifiedAt) && requireActive && !(r.revokedAt.None? && r.expiresAt > now))
      && (error == HttpError(409, "device_request_replayed") <==>
        Genuine(e, verifiedAt) && (requireActive ==> r.revokedAt.None? && r.expiresAt > now))
  {
    CodesDiffer();
  }

  lemma CodesDiffer()
    ensures "device_signature_expired" != "device_signature_invalid" && "device_signature_expired" != "session_inactive"
    ensures "body_digest_mismatch" != "device_signature_expired" && "body_digest_mismatch" != "device_signature_invalid"
    ensures "body_digest_mismatch" != "session_inactive" && "device_signature_invalid" != "session_inactive"
  {
    assert "device_signature_expired"[17] == 'e' && "device_signature_invalid"[17] == 'i';
    assert "body_digest_mismatch"[0] == 'b' && "session_inactive"[0] == 's' && "device_signature_invalid"[0] == 'd';
    assert "device_signature_expired"[0] == 'd';
  }

  /** What acceptance changes: the marks, the nonces, and the time last seen unless that is to be preserved. */
  lemma EnvelopeAdvances(
    r: Record, e: Envelope, verifiedAt: int, now: int, domain: Domain, preserveLastSeen: bool, requireActive: bool)
    requires Step(r, VerifyEvent(e, verifiedAt, now, domain, preserveLastSeen, requireActive)).Ok?
    ensures
      var after := Step(r, VerifyEvent(e, verifiedAt, now, domain, preserveLastSeen, requireActive)).value;
      && (domain.Companion? ==>
        after.lastCompanionSequence == Some(e.sequence)
        && after.lastControlSequence == Some(LastAccepted(r, Control)))
      && (domain.Control? ==>
        after.lastControlSequence == Some(e.sequence)
        && after.lastCompanionSequence == Some(LastAccepted(r, Companion)))
      && after.lastSequence >= r.lastSequence && after.lastSequence >= e.sequence
      && after.lastSequence in {r.lastSequence, e.sequence}
      && (preserveLastSeen ==> after.lastSeenAt == r.lastSeenAt)
      && (!preserveLastSeen ==> after.lastSeenAt == Some(now))
      && after == r.(
        lastCompanionSequence := after.lastCompanionSequence, lastControlSequence := after.lastControlSequence,
        lastSequence := after.lastSequence, lastSeenAt := after.lastSeenAt, recentNonces := after.recentNonces)
  {
  }

  /**
  The nonce table ends with the accepted one, kept 35 minutes; before it, the newest of the unexpired, 128 in
  all.
  */
  lemma NoncesAfter(
    r: Record, e: Envelope, verifiedAt: int, now: int, domain: Domain, preserveLastSeen: bool, requireActive: bool)
    requires Step(r, VerifyEvent(e, verifiedAt, now, domain, preserveLastSeen, requireActive)).Ok?
    ensures
      var after := Step(r, VerifyEvent(e, verifiedAt, now, domain, preserveLastSeen, requireActive)).value.recentNonces;
      var all := LiveNonces(r.recentNonces, now) + [Nonce(now + 2_100_000, e.nonce)];
      |after| == Min(|all|, 128) && after == all[|all| - |after|..]
  {
  }

  // ----- the other transactions -----

  lemma ApprovalAcceptedIff(r: Record, now: int)
    ensures var step := Step(r, ApproveEvent(now));
      && (step.Ok? <==> r.revokedAt.None? && r.expiresAt > now)
      && (step.Ok? ==> step.value == r.(localApprovedAt := Some(now)))
  {
  }

  lemma AuthorizationAcceptedIff(r: Record, sessionId: string, authorizedAt: int, scopes: set<string>)
    ensures var step := Step(r, AuthorizeEvent(sessionId, authorizedAt, scopes));
      && (step.Ok? <==>
        && r.sessionId == sessionId && r.authorizedAt.None? && r.localApprovedAt.Some?
        && r.revokedAt.None? && r.expiresAt > authorizedAt)
      && (step.Ok? ==> step.value == r.(
        authorizedAt := Some(authorizedAt), expiresAt := authorizedAt + 2_592_000_000, scopes := scopes))
  {
  }

  /** The invocation speaks for this record's own grant, and the record is active. */
  predicate Entitled(r: Record, v: Invocation, now: int) {
    && r.revokedAt.None? && r.expiresAt > now
    && r.authorizedAt.Some? && v == Invocation(r.authorizedAt.value, r.deviceId, r.scopes, r.sessionId)
  }

  lemma ObservationAcceptedIff(r: Record, v: Invocation, now: int)
    ensures var step := Step(r, ObserveEvent(v, now));
      && (step.Ok? <==> Entitled(r, v, now))
      && (step.Ok? && r.clientAccessObservedAt.Some? ==> step.value == r)
      && (step.Ok? && r.clientAccessObservedAt.None? ==> step.value == r.(clientAccessObservedAt := Some(now)))
  {
  }

  lemma RevocationAlways(r: Record, now: int)
    ensures Step(r, RevokeEvent(now)) == Ok(r.(revokedAt := Some(now)))
  {
  }

  lemma LiveRelaysFirst(c: Correlation, rest: seq<Correlation>, now: int)
    ensures LiveRelays([c] + rest, now) == (if c.expiresAt > now then [c] else []) + LiveRelays(rest, now)
  {
    assert ([c] + rest)[1..] == rest;
  }

  lemma {:induction false} LiveRelaysSplit(a: seq<Correlation>, b: seq<Correlation>, now: int)
    ensures LiveRelays(a + b, now) == LiveRelays(a, now) + LiveRelays(b, now)
  {
    if a == [] {
      assert a + b == b;
    } else {
      var c, rest := a[0], a[1..];
      LiveRelaysSplit(rest, b, now);
      LiveRelaysFirst(c, rest, now);
      LiveRelaysFirst(c, rest + b, now);
      ConsParts(a, b);
      JoinParts(if c.expiresAt > now then [c] else [], LiveRelays(rest, now), LiveRelays(b, now));
    }
  }

  lemma {:induction false} LiveRelayIff(relays: seq<Correlation>, now: int)
    ensures forall c :: c in LiveRelays(relays, now) <==> c in relays && c.expiresAt > now
  {
    if relays != [] {
      LiveRelayIff(relays[1..], now);
    }
  }

  /** Identifiers are unique in the table. */
  ghost predicate Unambiguous(relays: seq<Correlation>) {
    forall c, d :: c in relays && d in relays && c.requestId == d.requestId ==> c == d
  }

  lemma {:induction false} FoundIff(relays: seq<Correlation>, requestId: string)
    ensures FindRelay(relays, requestId).Some? <==> exists c :: c in relays && c.requestId == requestId
    ensures FindRelay(relays, requestId).Some? ==>
      FindRelay(relays, requestId).value in relays && FindRelay(relays, requestId).value.requestId == requestId
  {
    if relays != [] && relays[0].requestId != requestId {
      FoundIff(relays[1..], requestId);
      if c :| c in relays && c.requestId == requestId {
        assert c in relays[1..];
      }
    }
  }

  /**
  A claim is accepted exactly when the invocation is entitled and no unexpired correlation holds its identifier with
  other content. It advances the counter; a retry adds nothing to the table, a new identifier adds one entry that
  lives thirty minutes.
  */
  lemma ClaimAcceptedIff(r: Record, requestId: string, fingerprint: string, v: Invocation, now: int)
    requires Unambiguous(r.recentRelays)
    ensures
      var step := Step(r, ClaimEvent(requestId, fingerprint, v, now));
      var known := exists c :: c in r.recentRelays && c.expiresAt > now && c.requestId == requestId;
      var all := LiveRelays(r.recentRelays, now)
        + if known then [] else [Correlation(now + 1_800_000, fingerprint, requestId)];
      && (step.Ok? <==> Entitled(r, v, now) && forall c ::
        c in r.recentRelays && c.expiresAt > now && c.requestId == requestId ==> c.fingerprint == fingerprint)
      && (step.Err? ==> step.error.status == if Entitled(r, v, now) then 409 else 401)
      && (step.Ok? ==>
        var after := step.value;
        && after == r.(lastRelaySequence := r.lastRelaySequence + 1, recentRelays := after.recentRelays)
        && (known ==> after.recentRelays == all)
        && (!known ==> |after.recentRelays| == Min(|all|, 256))
        && (!known ==> after.recentRelays == all[|all| - |after.recentRelays|..]))
  {
    LiveRelayIff(r.recentRelays, now);
    FoundIff(LiveRelays(r.recentRelays, now), requestId);
  }

  /** What a registration stores. */
  lemma RegistrationStores(g: Registration)
    ensures RegistrationAllowed(g) <==> 0 < g.createdAt < g.expiresAt && g.initialSequence > 0
    ensures var r := Registered(g);
      && r.activeCodeHash == g.activeCodeHash && r.deviceId == g.deviceId && r.publicKey == g.publicKey
      && r.sessionId == g.sessionId && r.createdAt == g.createdAt && r.expiresAt == g.expiresAt
      && LastAccepted(r, Companion) == LastAccepted(r, Control) == r.lastSequence == g.initialSequence
      && r.recentNonces == [Nonce(g.createdAt + 2_100_000, g.initialNonceHash)]
      && r.lastRelaySequence == 0 && r.recentRelays == [] && r.scopes == {}
      && r.authorizedAt.None? && r.localApprovedAt.None? && r.clientAccessObservedAt.None?
      && r.revokedAt.None? && r.lastSeenAt.None?
  {
  }

  // ----- what the companion is told -----

  /** Each state by the fields of the record: revocation hides the rest, then expiry, then the furthest step reached. */
  lemma StatusSays(r: Record, now: int, socketOpen: bool)
    ensures
      var s := PublicStatusOf(r, now, socketOpen);
      var active := r.revokedAt.None? && r.expiresAt > now;
      && (s.pairingState.Revoked? <==> r.revokedAt.Some?)
      && (s.pairingState.Expired? <==> r.revokedAt.None? && r.expiresAt <= now)
      && (s.pairingState.ClientAccessObserved? <==> active && r.clientAccessObservedAt.Some?)
      && (s.pairingState.AuthorizationCodeIssued? <==>
        active && r.clientAccessObservedAt.None? && r.authorizedAt.Some?)
      && (s.pairingState.LocalApproved? <==>
        active && r.clientAccessObservedAt.None? && r.authorizedAt.None? && r.localApprovedAt.Some?)
      && (s.pairingState.Pending? <==>
        active && r.clientAccessObservedAt.None? && r.authorizedAt.None? && r.localApprovedAt.None?)
      && (s.connected <==> active && socketOpen)
      && (s.revoked <==> r.revokedAt.Some?) && (s.authorizationCodeIssued <==> r.authorizedAt.Some?)
      && s.clientAccessObservedAt == r.clientAccessObservedAt && s.expiresAt == r.expiresAt
      && s.lastSeenAt == r.lastSeenAt
  {
  }

  /** What the gateway is told before it grants anything. */
  lemma InternalStatusSays(r: Record, now: int)
    ensures var s := InternalStatusOf(r, now);
      && (s.active <==> r.revokedAt.None? && r.expiresAt > now)
      && (s.authorized <==> r.authorizedAt.Some?) && (s.localApproved <==> r.localApprovedAt.Some?)
      && (s.revoked <==> r.revokedAt.Some?) && s.codeHash == r.activeCodeHash && s.deviceId == r.deviceId
      && s.sessionId == r.sessionId && s.scopes == r.scopes && s.expiresAt == r.expiresAt
      && (s.clientAccessObserved <==> r.clientAccessObservedAt.Some?)
      && s.clientAccessObservedAt == r.clientAccessObservedAt
  {
  }

  /** A status the session object could give: of a record with positive times and no observation without authority. */
  ghost predicate CouldBeGiven(s: PublicStatus) {
    exists r, now, socketOpen :: Positive(r) && (r.clientAccessObservedAt.Some? ==> r.authorizedAt.Some?)
      && PublicStatusOf(r, now, socketOpen) == s
  }

  /** A record that gives this status, read at this instant. */
  function RecordGiving(s: PublicStatus): (Record, int) {
    var r := Record(
      "", if s.authorizationCodeIssued then Some(1) else None, s.clientAccessObservedAt, 1, "", s.expiresAt,
      None, None, 0, s.lastSeenAt, 1, if s.pairingState.LocalApproved? then Some(1) else None, "", [], [],
      if s.revoked then Some(1) else None, {}, "");
    (r, if s.pairingState.Expired? then s.expiresAt else s.expiresAt - 1)
  }

  /** The companion's validator is exact: it accepts just the statuses that some record could give. */
  lemma CompanionAcceptsIff(s: PublicStatus)
    ensures CompanionAccepts(s) <==> CouldBeGiven(s)
  {
    if CompanionAccepts(s) {
      var (r, now) := RecordGiving(s);
      assert PublicStatusOf(r, now, s.connected) == s && Positive(r);
    } else if CouldBeGiven(s) {
      var r, now, socketOpen :| Positive(r) && (r.clientAccessObservedAt.Some? ==> r.authorizedAt.Some?)
        && PublicStatusOf(r, now, socketOpen) == s;
      StatusAcceptedIff(r, now, socketOpen);
    }
  }

  /** The gateway's check of an internal status asks for a positive expiry and a consistent observation. */
  lemma GatewayAcceptsIff(s: InternalStatus)
    ensures GatewayAccepts(s) <==>
      && s.expiresAt > 0
      && (s.clientAccessObserved ==>
        s.authorized && s.clientAccessObservedAt.Some? && s.clientAccessObservedAt.value > 0)
      && (!s.clientAccessObserved ==> s.clientAccessObservedAt.None?)
  {
  }
}
