/** What pairing guarantees over all runs of the handlers on the two kinds of object. */
module PairingTheorems {
  import opened Common
  import opened PairingProtocol
  import opened PairingSafety
  import L = SessionLifecycle
  import D = DirectoryStorage
  import S = SessionRecord

  /**
  Every code in the directory is the code of the session it names, and is marked approved only if that session
  is.
  */
  lemma DirectoryMatchesSessions(actions: seq<Action>, i: nat, code: string)
    requires i <= |actions| && code in At(actions, i).directory.pairs
    ensures var w := At(actions, i); var pair := w.directory.pairs[code];
      && pair.sessionId in w.sessions && w.sessions[pair.sessionId].activeCodeHash == code
      && (pair.localApprovedAt.Some? ==> w.sessions[pair.sessionId].localApprovedAt.Some?)
      && pair.sessionId !in w.handed
  {
    InvAlways(actions, i);
    assert PairOk(code, At(actions, i).directory.pairs[code], At(actions, i).sessions, At(actions, i).handed);
  }

  /** The directory hands a session over at most once, and at most one grant is ever issued for it. */
  lemma HandedOverOnce(actions: seq<Action>, i: nat, j: nat, k: nat)
    requires i <= |actions| && j < k
    ensures k < |At(actions, i).handed| ==> At(actions, i).handed[j] != At(actions, i).handed[k]
    ensures k < |At(actions, i).grants| ==> At(actions, i).grants[j].sessionId != At(actions, i).grants[k].sessionId
  {
    InvAlways(actions, i);
  }

  /** A grant exists only for a session handed over and locally approved, and names that session's device. */
  lemma GrantsAreEarned(actions: seq<Action>, i: nat, k: nat)
    requires i <= |actions| && k < |At(actions, i).grants|
    ensures var w := At(actions, i); var g := w.grants[k];
      && g.sessionId in w.handed && g.sessionId in w.sessions
      && w.sessions[g.sessionId].localApprovedAt.Some? && w.sessions[g.sessionId].deviceId == g.deviceId
  {
    InvAlways(actions, i);
    assert GrantOk(At(actions, i).grants[k], At(actions, i).sessions, At(actions, i).handed);
  }

  ghost predicate MayClaim(r: S.Record, v: S.Invocation, now: int) {
    S.ActiveAt(r, now) && S.Bound(r, v)
  }

  /** A call accepted by a session carries exactly the one grant ever issued for it. */
  lemma AcceptedCallHasItsGrant(actions: seq<Action>, i: nat, v: S.Invocation, requestId: string, fingerprint: string,
    now: int)
    requires i <= |actions| && v.sessionId in At(actions, i).sessions
    requires S.Claim(At(actions, i).sessions[v.sessionId], requestId, fingerprint, v, now).Ok?
    ensures exists k ::
      0 <= k < |At(actions, i).grants| &&
      At(actions, i).grants[k] == Grant(v.sessionId, v.deviceId, v.authorizedAt, v.scopes)
    ensures forall g :: g in At(actions, i).grants && g.sessionId == v.sessionId ==>
      g == Grant(v.sessionId, v.deviceId, v.authorizedAt, v.scopes)
  {
    InvAlways(actions, i);
    var w := At(actions, i);
    var r := w.sessions[v.sessionId];
    assert MayClaim(r, v, now);
    assert SessionOk(v.sessionId, r, w.grants);
    var k :| 0 <= k < |w.grants| && w.grants[k] == Grant(v.sessionId, v.deviceId, v.authorizedAt, v.scopes);
    forall g | g in w.grants && g.sessionId == v.sessionId ensures g == w.grants[k] {
      var j :| 0 <= j < |w.grants| && w.grants[j] == g;
      assert j == k;
    }
  }

  // ----- sessions over a whole run -----

  /** What one action does to one session: nothing, traffic, approval, revocation, or the recording of a grant. */
  ghost predicate Evolves(a: S.Record, b: S.Record) {
    L.Keeps(a, b) && (a.revokedAt.Some? ==> b.authorizedAt == a.authorizedAt)
  }

  lemma RecordEvolves(r: S.Record, e: S.Event)
    ensures Evolves(r, S.Apply(r, e))
  {
  }

  /** A handler's call is, for each session, nothing or one of the session's own events. */
  lemma CallOnSession(w: World, pid: nat, r: Reading, sessionId: string) returns (e: Option<S.Event>)
    requires pid in w.handlers && sessionId in w.sessions
    ensures sessionId in Call(w, pid, r).sessions
    ensures Call(w, pid, r).sessions[sessionId] == if e.None? then w.sessions[sessionId]
      else S.Apply(w.sessions[sessionId], e.value)
  {
    e := None;
    match w.handlers[pid] {
      case ApproveSession(s) => if s == sessionId { e := Some(S.ApproveEvent(r.now)); }
      case RevokeSession(s) => if s == sessionId { e := Some(S.RevokeEvent(r.now)); }
      case MarkAuthorized(g) =>
        if g.sessionId == sessionId {
          e := Some(S.AuthorizeEvent(g.sessionId, g.authorizedAt, g.scopes));
        }
      case _ =>
    }
  }

  lemma CallEvolves(w: World, pid: nat, r: Reading, sessionId: string)
    requires pid in w.handlers && sessionId in w.sessions
    ensures var t := Call(w, pid, r); sessionId in t.sessions && Evolves(w.sessions[sessionId], t.sessions[sessionId])
  {
    var e := CallOnSession(w, pid, r, sessionId);
    if e.Some? {
      RecordEvolves(w.sessions[sessionId], e.value);
    }
  }

  lemma {:induction false} SessionsEvolve(actions: seq<Action>, i: nat, j: nat, sessionId: string)
    requires i <= j <= |actions| && sessionId in At(actions, i).sessions
    ensures sessionId in At(actions, j).sessions
    ensures Evolves(At(actions, i).sessions[sessionId], At(actions, j).sessions[sessionId])
    decreases j
  {
    if i < j {
      SessionsEvolve(actions, i, j - 1, sessionId);
      var w, a := At(actions, j - 1), actions[j - 1];
      NextEvolves(w, a, sessionId);
      L.KeepsTransitive(At(actions, i).sessions[sessionId], w.sessions[sessionId], Next(w, a).sessions[sessionId]);
    }
  }

  lemma NextEvolves(w: World, a: Action, sessionId: string)
    requires sessionId in w.sessions
    ensures sessionId in Next(w, a).sessions && Evolves(w.sessions[sessionId], Next(w, a).sessions[sessionId])
  {
    match a
    case Calls(pid, r) => if pid in w.handlers { CallEvolves(w, pid, r, sessionId); }
    case Other(s, e) => RecordEvolves(w.sessions[sessionId], e);
    case _ =>
  }

  /**
  Once set, `authorizedAt`, the scopes and the extended expiry of a session never change; once revoked, none is
  ever set.
  */
  lemma AuthorityIsFinal(actions: seq<Action>, i: nat, j: nat, sessionId: string)
    requires i <= j <= |actions| && sessionId in At(actions, i).sessions
    ensures sessionId in At(actions, j).sessions
    ensures var a, b := At(actions, i).sessions[sessionId], At(actions, j).sessions[sessionId];
      && (a.authorizedAt.Some? ==>
        b.authorizedAt == a.authorizedAt && b.scopes == a.scopes && b.expiresAt == a.expiresAt)
      && (a.revokedAt.Some? ==> b.revokedAt.Some? && b.authorizedAt == a.authorizedAt)
  {
    SessionsEvolve(actions, i, j, sessionId);
  }

  /** A handler records an issued grant of this session, which is approved, unrevoked and not yet authorized. */
  ghost predicate RecordsItsGrant(w: World, a: Action, sessionId: string) {
    && sessionId in w.sessions && sessionId in Next(w, a).sessions
    && var r := w.sessions[sessionId];
    && r.authorizedAt.None? && r.localApprovedAt.Some? && r.revokedAt.None?
    && a.Calls? && a.pid in w.handlers && w.handlers[a.pid].MarkAuthorized?
    && w.handlers[a.pid].grant.sessionId == sessionId && w.handlers[a.pid].grant in w.grants
    && Next(w, a).sessions[sessionId].authorizedAt == Some(w.handlers[a.pid].grant.authorizedAt)
  }

  /** The only action that authorizes a session records its own grant on a session locally approved and unrevoked. */
  lemma AuthorizedOnlyByItsGrant(actions: seq<Action>, i: nat, sessionId: string)
    requires i < |actions|
    ensures sessionId in At(actions, i).sessions ==> sessionId in At(actions, i + 1).sessions
    ensures sessionId in At(actions, i).sessions
      && At(actions, i).sessions[sessionId].authorizedAt != At(actions, i + 1).sessions[sessionId].authorizedAt
      ==> RecordsItsGrant(At(actions, i), actions[i], sessionId)
  {
    InvAlways(actions, i);
    var w := At(actions, i);
    if sessionId in w.sessions {
      NextEvolves(w, actions[i], sessionId);
      if w.sessions[sessionId].authorizedAt != Next(w, actions[i]).sessions[sessionId].authorizedAt {
        AuthorizingAction(w, actions[i], sessionId);
        assert HandlerOk(w.handlers[actions[i].pid], w.directory.pairs, w.sessions, w.handed, w.grants);
      }
    }
  }

  lemma AuthorizingAction(w: World, a: Action, sessionId: string)
    requires sessionId in w.sessions && sessionId in Next(w, a).sessions
    requires w.sessions[sessionId].authorizedAt != Next(w, a).sessions[sessionId].authorizedAt
    ensures var r := w.sessions[sessionId];
      && r.authorizedAt.None? && r.localApprovedAt.Some? && r.revokedAt.None?
      && a.Calls? && a.pid in w.handlers && w.handlers[a.pid].MarkAuthorized?
      && w.handlers[a.pid].grant.sessionId == sessionId
      && Next(w, a).sessions[sessionId].authorizedAt == Some(w.handlers[a.pid].grant.authorizedAt)
  {
    if a.Other? && Traffic(a.event) {
      TrafficKeeps(w.sessions[sessionId], a.event);
    }
  }

  // ----- after revocation -----

  /** Revoked, without a grant, and past its status check in no handler. */
  ghost predicate ShutOut(w: World, sessionId: string) {
    && sessionId in w.sessions && w.sessions[sessionId].revokedAt.Some?
    && NoGrant(w.grants, sessionId)
    && forall pid :: pid in w.handlers && w.handlers[pid].CompleteGrant? ==> w.handlers[pid].sessionId != sessionId
  }

  lemma CallKeepsShutOut(w: World, pid: nat, r: Reading, sessionId: string)
    requires ShutOut(w, sessionId) && pid in w.handlers
    ensures ShutOut(Call(w, pid, r), sessionId)
  {
    CallEvolves(w, pid, r, sessionId);
  }

  lemma NextKeepsShutOut(w: World, a: Action, sessionId: string)
    requires ShutOut(w, sessionId)
    ensures ShutOut(Next(w, a), sessionId)
  {
    NextEvolves(w, a, sessionId);
    match a
    case Calls(pid, r) => if pid in w.handlers { CallKeepsShutOut(w, pid, r, sessionId); }
    case _ =>
  }

  /** A session revoked before a handler passed its status check is never granted, whatever attempts come later. */
  lemma {:induction false} RevokedIsNeverGranted(actions: seq<Action>, i: nat, j: nat, sessionId: string)
    requires i <= j <= |actions| && ShutOut(At(actions, i), sessionId)
    ensures ShutOut(At(actions, j), sessionId)
    decreases j
  {
    if i < j {
      RevokedIsNeverGranted(actions, i, j - 1, sessionId);
      NextKeepsShutOut(At(actions, j - 1), actions[j - 1], sessionId);
    }
  }
}
