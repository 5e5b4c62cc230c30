/** What every run of a pairing record keeps, and why each status reply is accepted by its reader. */
module SessionLifecycle {
  import opened Common
  import opened Constants
  import opened SessionRecord

  /** Observed implies authorized implies locally approved; timestamps shown to a reader are positive. */
  ghost predicate Consistent(r: Record) {
    && (r.clientAccessObservedAt.Some? ==> r.authorizedAt.Some?)
    && (r.authorizedAt.Some? ==> r.localApprovedAt.Some?)
    && Positive(r)
  }

  ghost predicate Positive(r: Record) {
    && r.expiresAt > 0
    && (r.clientAccessObservedAt.Some? ==> r.clientAccessObservedAt.value > 0)
    && (r.lastSeenAt.Some? ==> r.lastSeenAt.value > 0)
  }

  /** Clock readings and parsed timestamps are positive. */
  ghost predicate Timed(e: Event) {
    match e
    case AuthorizeEvent(_, authorizedAt, _) => authorizedAt > 0
    case _ => e.now > 0
  }

  /** What a later state of the same record keeps of an earlier one. */
  ghost predicate Keeps(a: Record, b: Record) {
    && b.activeCodeHash == a.activeCodeHash && b.createdAt == a.createdAt && b.deviceId == a.deviceId
    && b.publicKey == a.publicKey && b.sessionId == a.sessionId
    && (a.revokedAt.Some? ==> b.revokedAt.Some?)
    && (a.localApprovedAt.Some? ==> b.localApprovedAt.Some?)
    && (a.authorizedAt.Some? ==> b.authorizedAt == a.authorizedAt && b.expiresAt == a.expiresAt && b.scopes == a.scopes)
    && (a.clientAccessObservedAt.Some? ==> b.clientAccessObservedAt == a.clientAccessObservedAt)
    && a.lastRelaySequence <= b.lastRelaySequence && a.lastSequence <= b.lastSequence
    && Mark(a, Companion) <= Mark(b, Companion) && Mark(a, Control) <= Mark(b, Control)
  }

  lemma {:induction false} ConsistentAlways(r: Record, es: seq<Event>, i: nat)
    requires Consistent(r) && i <= |es| && forall k :: 0 <= k < i ==> Timed(es[k])
    ensures Consistent(At(r, es, i))
  {
    if i > 0 {
      ConsistentAlways(r, es, i - 1);
    }
  }

  lemma StepKeeps(r: Record, e: Event)
    ensures Keeps(r, Apply(r, e))
  {
  }

  lemma KeepsTransitive(a: Record, b: Record, c: Record)
    requires Keeps(a, b) && Keeps(b, c)
    ensures Keeps(a, c)
  {
  }

  /** Revocation absorbs; authority and first observation are frozen once set; marks never fall back. */
  lemma {:induction false} RunKeeps(r: Record, es: seq<Event>, i: nat, j: nat)
    requires i <= j <= |es|
    ensures Keeps(At(r, es, i), At(r, es, j))
    decreases j
  {
    if i < j {
      RunKeeps(r, es, i, j - 1);
      StepKeeps(At(r, es, j - 1), es[j - 1]);
      KeepsTransitive(At(r, es, i), At(r, es, j - 1), Apply(At(r, es, j - 1), es[j - 1]));
    }
  }

  /** At most one event of a run sets `authorizedAt`, and only on an approved, unrevoked record. */
  lemma AuthorizedOnce(r: Record, es: seq<Event>, i: nat, j: nat)
    requires i < j < |es| && es[i].AuthorizeEvent? && es[j].AuthorizeEvent? && Accepted(r, es, i)
    ensures !Accepted(r, es, j)
    ensures At(r, es, i).localApprovedAt.Some? && At(r, es, i).revokedAt.None?
  {
    RunKeeps(r, es, i + 1, j);
  }

  /** A revoked record accepts no claim, approval, authorization or observation ever again. */
  lemma RevokedForGood(r: Record, es: seq<Event>, i: nat, j: nat)
    requires i < j < |es| && es[i].RevokeEvent?
    requires !es[j].RevokeEvent? && (es[j].VerifyEvent? ==> es[j].requireActive)
    ensures !Accepted(r, es, j)
  {
    RunKeeps(r, es, i + 1, j);
  }

  // ----- the companion's view -----

  datatype PairingState = Pending | LocalApproved | AuthorizationCodeIssued | ClientAccessObserved | Revoked | Expired

  datatype PublicStatus = PublicStatus(
    authorizationCodeIssued: bool,
    clientAccessObserved: bool,
    clientAccessObservedAt: Option<int>,
    connected: bool,
    expiresAt: int,
    lastSeenAt: Option<int>,
    pairingState: PairingState,
    revoked: bool)

  /** `socketOpen`: an authenticated companion socket of this pairing is open. */
  function PublicStatusOf(r: Record, now: int, socketOpen: bool): PublicStatus {
    var expired := r.expiresAt <= now;
    PublicStatus(
      r.authorizedAt.Some?,
      r.clientAccessObservedAt.Some?,
      r.clientAccessObservedAt,
      r.revokedAt.None? && !expired && socketOpen,
      r.expiresAt,
      r.lastSeenAt,
      if r.revokedAt.Some? then Revoked
      else if expired then Expired
      else if r.clientAccessObservedAt.Some? then ClientAccessObserved
      else if r.authorizedAt.Some? then AuthorizationCodeIssued
      else if r.localApprovedAt.Some? then LocalApproved
      else Pending,
      r.revokedAt.Some?)
  }

  /** The companion's validator, rejection by rejection. */
  predicate CompanionAccepts(s: PublicStatus) {
    && s.expiresAt > 0
    && (s.clientAccessObservedAt.Some? ==> s.clientAccessObservedAt.value > 0)
    && (s.lastSeenAt.Some? ==> s.lastSeenAt.value > 0)
    && !(s.pairingState.Pending? && (s.authorizationCodeIssued || s.clientAccessObserved || s.revoked))
    && !(s.pairingState.LocalApproved? && (s.authorizationCodeIssued || s.clientAccessObserved || s.revoked))
    && !(s.pairingState.AuthorizationCodeIssued? && (!s.authorizationCodeIssued || s.clientAccessObserved || s.revoked))
    && !(s.pairingState.ClientAccessObserved? && (!s.authorizationCodeIssued || !s.clientAccessObserved || s.revoked))
    && !(s.clientAccessObserved && !s.authorizationCodeIssued)
    && s.clientAccessObserved == s.clientAccessObservedAt.Some?
    && !(s.pairingState.Revoked? && !s.revoked)
    && !(s.revoked && !s.pairingState.Revoked?)
    && !(s.connected && (s.pairingState.Revoked? || s.pairingState.Expired?))
  }

  datatype InternalStatus = InternalStatus(
    active: bool,
    authorized: bool,
    clientAccessObserved: bool,
    clientAccessObservedAt: Option<int>,
    codeHash: string,
    deviceId: string,
    expiresAt: int,
    localApproved: bool,
    revoked: bool,
    scopes: set<string>,
    sessionId: string)

  function InternalStatusOf(r: Record, now: int): InternalStatus {
    InternalStatus(
      ActiveAt(r, now), r.authorizedAt.Some?, r.clientAccessObservedAt.Some?, r.clientAccessObservedAt,
      r.activeCodeHash, r.deviceId, r.expiresAt, r.localApprovedAt.Some?, r.revokedAt.Some?, r.scopes, r.sessionId)
  }

  /** The gateway's check of an internal status reply. */
  predicate GatewayAccepts(s: InternalStatus) {
    && !(s.clientAccessObservedAt.Some? && s.clientAccessObservedAt.value <= 0)
    && s.clientAccessObserved == s.clientAccessObservedAt.Some?
    && !(s.clientAccessObserved && !s.authorized)
    && s.expiresAt > 0
  }

  /** Both readers refuse exactly the records that claim observed access without authorization. */
  lemma StatusAcceptedIff(r: Record, now: int, socketOpen: bool)
    requires Positive(r)
    ensures CompanionAccepts(PublicStatusOf(r, now, socketOpen))
      <==> (r.clientAccessObservedAt.Some? ==> r.authorizedAt.Some?)
    ensures GatewayAccepts(InternalStatusOf(r, now)) <==> (r.clientAccessObservedAt.Some? ==> r.authorizedAt.Some?)
  {
  }

  /** From registration on, at every instant of every run, both readers accept every status reply. */
  lemma StatusAlwaysAccepted(g: Registration, es: seq<Event>, i: nat, now: int, socketOpen: bool)
    requires RegistrationAllowed(g) && i <= |es| && forall k :: 0 <= k < i ==> Timed(es[k])
    ensures CompanionAccepts(PublicStatusOf(At(Registered(g), es, i), now, socketOpen))
    ensures GatewayAccepts(InternalStatusOf(At(Registered(g), es, i), now))
  {
    ConsistentAlways(Registered(g), es, i);
  }

  // ----- expiry is not absorbing -----

  /** An authorization that brings a record back: its own clock reading precedes the expiry that has passed since. */
  predicate Revives(r: Record, e: Event, now: int) {
    && e.AuthorizeEvent? && e.sessionId == r.sessionId
    && r.revokedAt.None? && r.localApprovedAt.Some? && r.authorizedAt.None?
    && e.authorizedAt < r.expiresAt && now < e.authorizedAt + DEVICE_AUTHORIZATION_TTL_MS
  }

  /** One event makes an inactive record active exactly when it is such an authorization. */
  lemma ExpiredRevivesIff(r: Record, e: Event, now: int)
    requires !ActiveAt(r, now)
    ensures ActiveAt(Apply(r, e), now) <==> Revives(r, e, now)
  {
  }

  ghost predicate RevivedBetween(r: Record, es: seq<Event>, i: nat, j: nat, now: int)
    requires i <= j <= |es|
  {
    exists k :: i <= k < j && Revives(At(r, es, k), es[k], now)
  }

  /**
  A record inactive at an instant is active at that instant later in its run exactly when it was revived and not
  revoked.
  */
  lemma {:induction false} InactiveUntilRevived(r: Record, es: seq<Event>, i: nat, j: nat, now: int)
    requires i <= j <= |es| && !ActiveAt(At(r, es, i), now)
    ensures ActiveAt(At(r, es, j), now) <==> RevivedBetween(r, es, i, j, now) && At(r, es, j).revokedAt.None?
    decreases j
  {
    if i < j {
      var before, e := At(r, es, j - 1), es[j - 1];
      InactiveUntilRevived(r, es, i, j - 1, now);
      if RevivedBetween(r, es, i, j - 1, now) {
        var k :| i <= k < j - 1 && Revives(At(r, es, k), es[k], now);
        StaysRevived(r, es, k, j, now);
      } else {
        ExpiredRevivesIff(before, e, now);
      }
    }
  }

  /** A revived record keeps its new expiry, so only revocation ends it before that instant. */
  lemma StaysRevived(r: Record, es: seq<Event>, k: nat, j: nat, now: int)
    requires k < j <= |es| && Revives(At(r, es, k), es[k], now)
    ensures ActiveAt(At(r, es, j), now) <==> At(r, es, j).revokedAt.None?
  {
    assert At(r, es, k + 1).authorizedAt.Some? && now < At(r, es, k + 1).expiresAt;
    RunKeeps(r, es, k + 1, j);
  }

  /**
  Every registration has a run in which its record reads as expired at the instant of its expiry and is then
  active at it.
  */
  lemma ExpiryIsNotAbsorbing(g: Registration)
    requires RegistrationAllowed(g)
    ensures var es := [ApproveEvent(g.createdAt), AuthorizeEvent(g.sessionId, g.expiresAt - 1, {})];
      && Timed(es[0]) && Timed(es[1])
      && PublicStatusOf(At(Registered(g), es, 1), g.expiresAt, false).pairingState == Expired
      && ActiveAt(At(Registered(g), es, 2), g.expiresAt)
  {
    var es := [ApproveEvent(g.createdAt), AuthorizeEvent(g.sessionId, g.expiresAt - 1, {})];
    var approved := Registered(g).(localApprovedAt := Some(g.createdAt));
    assert At(Registered(g), es, 0) == Registered(g);
    assert At(Registered(g), es, 1) == approved;
    assert At(Registered(g), es, 2) == Apply(approved, es[1]);
  }
}
