/**
Pairing across two kinds of object: the gateway's registration, approval, revocation and
authorization handlers (gateway/src/gateway.ts), each a chain of calls to the pairing directory and
to one pairing's session object. Calls are atomic, handlers interleave freely and may be dropped
between any two calls. A code stands for its digest, as SHA-256 is taken as injective.
*/
module PairingProtocol {
  import opened Common
  import opened Constants
  import D = DirectoryStorage
  import S = SessionRecord

  datatype Device = Device(deviceId: string, publicKey: string, initialSequence: int, initialNonceHash: string)

  datatype Grant = Grant(sessionId: string, deviceId: string, authorizedAt: int, scopes: set<string>)

  /** A handler between two calls, named after the call it makes next. */
  datatype Handler =
    | RegisterSession(attempt: nat, device: Device)
    | RegisterDirectory(attempt: nat, device: Device, sessionId: string, code: string, expiresAt: int)
    | ApproveSession(sessionId: string)
    | ApproveDirectory(sessionId: string, code: string, approvedAt: int)
    | RevokeSession(sessionId: string)
    | RevokeDirectory(sessionId: string, code: string)
    | TryDirectory(code: string, ip: string)
    | CheckStatus(sessionId: string, code: string)
    | CompleteGrant(sessionId: string, deviceId: string)
    | MarkAuthorized(grant: Grant)
    | Finished(succeeded: bool)

  /** What a handler's next call reads from outside: the clock, fresh random ids, the requested scopes. */
  datatype Reading = Reading(now: int, sessionId: string, code: string, scopes: set<string>)

  /** `handed`: sessions in the order the directory handed them to a grant; `grants`: grants in the order issued. */
  datatype World = World(
    directory: D.Storage,
    sessions: map<string, S.Record>,
    handlers: map<nat, Handler>,
    handed: seq<string>,
    grants: seq<Grant>)

  const START := World(D.EMPTY, map[], map[], [], [])

  // ----- one call of each handler -----

  /** Three attempts, each with a new session and a new code. */
  function Retry(attempt: nat, device: Device): Handler {
    if attempt + 1 < 3 then RegisterSession(attempt + 1, device) else Finished(false)
  }

  function RegistrationOf(device: Device, r: Reading): S.Registration {
    S.Registration(r.code, r.now, device.deviceId, r.now + PAIRING_CODE_TTL_MS,
                   device.initialNonceHash, device.initialSequence, device.publicKey, r.sessionId)
  }

  function CallRegisterSession(w: World, pid: nat, attempt: nat, device: Device, r: Reading): World {
    var g := RegistrationOf(device, r);
    if !S.RegistrationAllowed(g) || r.sessionId in w.sessions then
      w.(handlers := w.handlers[pid := Retry(attempt, device)])
    else
      w.(sessions := w.sessions[r.sessionId := S.Registered(g)],
         handlers := w.handlers[pid := RegisterDirectory(attempt, device, r.sessionId, r.code, g.expiresAt)])
  }

  function CallRegisterDirectory(w: World, pid: nat, h: Handler, now: int): World
    requires h.RegisterDirectory?
  {
    if D.CanRegister(w.directory, h.code, h.expiresAt, now) then
      w.(directory := D.Register(w.directory, h.code, h.expiresAt, h.sessionId, now),
         handlers := w.handlers[pid := Finished(true)])
    else w.(handlers := w.handlers[pid := Retry(h.attempt, h.device)])
  }

  function CallApproveSession(w: World, pid: nat, sessionId: string, now: int): World {
    if sessionId in w.sessions && S.Approve(w.sessions[sessionId], now).Ok? then
      w.(sessions := w.sessions[sessionId := S.Approve(w.sessions[sessionId], now).value],
         handlers := w.handlers[pid := ApproveDirectory(sessionId, w.sessions[sessionId].activeCodeHash, now)])
    else w.(handlers := w.handlers[pid := Finished(false)])
  }

  function CallApproveDirectory(w: World, pid: nat, h: Handler): World
    requires h.ApproveDirectory?
  {
    w.(directory := D.Approve(w.directory, h.code, h.sessionId, h.approvedAt),
       handlers := w.handlers[pid := Finished(D.CanApprove(w.directory, h.code, h.sessionId, h.approvedAt))])
  }

  function CallRevokeSession(w: World, pid: nat, sessionId: string, now: int): World {
    if sessionId in w.sessions then
      w.(sessions := w.sessions[sessionId := S.Revoke(w.sessions[sessionId], now)],
         handlers := w.handlers[pid := RevokeDirectory(sessionId, w.sessions[sessionId].activeCodeHash)])
    else w.(handlers := w.handlers[pid := Finished(false)])
  }

  function CallRevokeDirectory(w: World, pid: nat, h: Handler): World
    requires h.RevokeDirectory?
  {
    w.(directory := D.Revoke(w.directory, h.code, h.sessionId), handlers := w.handlers[pid := Finished(true)])
  }

  function CallTryDirectory(w: World, pid: nat, code: string, ip: string, now: int): World {
    var (directory, outcome) := D.Authorize(w.directory, code, ip, now);
    if outcome.Authorized? then
      w.(directory := directory, handed := w.handed + [outcome.sessionId],
         handlers := w.handlers[pid := CheckStatus(outcome.sessionId, code)])
    else w.(directory := directory, handlers := w.handlers[pid := Finished(false)])
  }

  predicate ReadyForGrant(sessions: map<string, S.Record>, sessionId: string, code: string, now: int) {
    && sessionId in sessions
    && S.ActiveAt(sessions[sessionId], now)
    && sessions[sessionId].localApprovedAt.Some?
    && sessions[sessionId].authorizedAt.None?
    && sessions[sessionId].activeCodeHash == code
  }

  function CallCheckStatus(w: World, pid: nat, sessionId: string, code: string, now: int): World {
    if ReadyForGrant(w.sessions, sessionId, code, now) then
      w.(handlers := w.handlers[pid := CompleteGrant(sessionId, w.sessions[sessionId].deviceId)])
    else w.(handlers := w.handlers[pid := Finished(false)])
  }

  function CallCompleteGrant(w: World, pid: nat, sessionId: string, deviceId: string, r: Reading): World {
    var grant := Grant(sessionId, deviceId, r.now, r.scopes);
    w.(grants := w.grants + [grant], handlers := w.handlers[pid := MarkAuthorized(grant)])
  }

  function CallMarkAuthorized(w: World, pid: nat, g: Grant): World {
    if g.sessionId in w.sessions && S.Authorize(w.sessions[g.sessionId], g.sessionId, g.authorizedAt, g.scopes).Ok? then
      w.(sessions := w.sessions[g.sessionId :=
        S.Authorize(w.sessions[g.sessionId], g.sessionId, g.authorizedAt, g.scopes).value],
         handlers := w.handlers[pid := Finished(true)])
    else w.(handlers := w.handlers[pid := Finished(false)])
  }

  function Call(w: World, pid: nat, r: Reading): World
    requires pid in w.handlers
  {
    match w.handlers[pid]
    case RegisterSession(attempt, device) => CallRegisterSession(w, pid, attempt, device, r)
    case RegisterDirectory(_, _, _, _, _) => CallRegisterDirectory(w, pid, w.handlers[pid], r.now)
    case ApproveSession(sessionId) => CallApproveSession(w, pid, sessionId, r.now)
    case ApproveDirectory(_, _, _) => CallApproveDirectory(w, pid, w.handlers[pid])
    case RevokeSession(sessionId) => CallRevokeSession(w, pid, sessionId, r.now)
    case RevokeDirectory(_, _) => CallRevokeDirectory(w, pid, w.handlers[pid])
    case TryDirectory(code, ip) => CallTryDirectory(w, pid, code, ip, r.now)
    case CheckStatus(sessionId, code) => CallCheckStatus(w, pid, sessionId, code, r.now)
    case CompleteGrant(sessionId, deviceId) => CallCompleteGrant(w, pid, sessionId, deviceId, r)
    case MarkAuthorized(grant) => CallMarkAuthorized(w, pid, grant)
    case Finished(_) => w
  }

  // ----- runs -----

  /**
  `Lost`: the handler or its answer is gone. `Other`: the session's own traffic. `Cleanup`: the directory's
  alarm.
  */
  datatype Action =
    | Arrives(pid: nat, handler: Handler)
    | Calls(pid: nat, reading: Reading)
    | Lost(pid: nat)
    | Other(sessionId: string, event: S.Event)
    | Cleanup(now: int)

  predicate Initial(h: Handler) {
    (h.RegisterSession? && h.attempt == 0) || h.ApproveSession? || h.RevokeSession? || h.TryDirectory?
  }

  predicate Traffic(e: S.Event) {
    e.VerifyEvent? || e.ObserveEvent? || e.ClaimEvent?
  }

  function Cleaned(d: D.Storage, now: int): D.Storage {
    d.(pairs := D.LivePairs(d.pairs, now), missing := D.LiveMissing(d.missing, now), rates := D.LiveRates(d.rates, now))
  }

  function Next(w: World, a: Action): World {
    match a
    case Arrives(pid, h) => if pid !in w.handlers && Initial(h) then w.(handlers := w.handlers[pid := h]) else w
    case Calls(pid, r) => if pid in w.handlers then Call(w, pid, r) else w
    case Lost(pid) => w.(handlers := w.handlers - {pid})
    case Other(sessionId, e) =>
      if sessionId in w.sessions && Traffic(e)
      then w.(sessions := w.sessions[sessionId := S.Apply(w.sessions[sessionId], e)]) else w
    case Cleanup(now) => w.(directory := Cleaned(w.directory, now))
  }

  function At(actions: seq<Action>, i: nat): World
    requires i <= |actions|
  {
    if i == 0 then START else Next(At(actions, i - 1), actions[i - 1])
  }
}

/** The invariants of pairing, over all interleavings of the handlers. */
module PairingSafety {
  import opened Common
  import opened PairingProtocol
  import D = DirectoryStorage
  import S = SessionRecord

  type Sessions = map<string, S.Record>
  type Pairs = map<string, D.Pair>

  predicate HasCode(sessions: Sessions, sessionId: string, code: string) {
    sessionId in sessions && sessions[sessionId].activeCodeHash == code
  }

  predicate LocallyApproved(sessions: Sessions, sessionId: string) {
    sessionId in sessions && sessions[sessionId].localApprovedAt.Some?
  }

  /**
  Each directory record belongs to the session that owns its code, is approved only if that session is, and is
  not yet spent.
  */
  ghost predicate PairsOk(pairs: Pairs, sessions: Sessions, handed: seq<string>) {
    forall code :: code in pairs ==> PairOk(code, pairs[code], sessions, handed)
  }

  ghost predicate PairOk(code: string, pair: D.Pair, sessions: Sessions, handed: seq<string>) {
    && HasCode(sessions, pair.sessionId, code)
    && (pair.localApprovedAt.Some? ==> LocallyApproved(sessions, pair.sessionId))
    && pair.sessionId !in handed
  }

  ghost predicate NoGrant(grants: seq<Grant>, sessionId: string) {
    forall k :: 0 <= k < |grants| ==> grants[k].sessionId != sessionId
  }

  ghost predicate HandlerOk(h: Handler, pairs: Pairs, sessions: Sessions, handed: seq<string>, grants: seq<Grant>) {
    match h
    case RegisterDirectory(_, _, sessionId, code, _) =>
      HasCode(sessions, sessionId, code) && sessionId !in handed
        && (code in pairs ==> pairs[code].sessionId != sessionId)
    case ApproveDirectory(sessionId, code, _) =>
      HasCode(sessions, sessionId, code) && LocallyApproved(sessions, sessionId)
    case RevokeDirectory(sessionId, code) => HasCode(sessions, sessionId, code)
    case CheckStatus(sessionId, code) =>
      HasCode(sessions, sessionId, code) && LocallyApproved(sessions, sessionId) && sessionId in handed
        && NoGrant(grants, sessionId)
    case CompleteGrant(sessionId, deviceId) =>
      LocallyApproved(sessions, sessionId) && sessions[sessionId].deviceId == deviceId && sessionId in handed
        && NoGrant(grants, sessionId)
    case MarkAuthorized(grant) => grant in grants
    case _ => true
  }

  ghost predicate HandlersOk(handlers: map<nat, Handler>, pairs: Pairs, sessions: Sessions, handed: seq<string>,
    grants: seq<Grant>)
  {
    forall pid :: pid in handlers ==> HandlerOk(handlers[pid], pairs, sessions, handed, grants)
  }

  /** The session a handler carries towards the directory or towards a grant. */
  function Carried(h: Handler): Option<string> {
    match h
    case RegisterDirectory(_, _, sessionId, _, _) => Some(sessionId)
    case CheckStatus(sessionId, _) => Some(sessionId)
    case CompleteGrant(sessionId, _) => Some(sessionId)
    case MarkAuthorized(grant) => Some(grant.sessionId)
    case _ => None
  }

  ghost predicate Exclusive(handlers: map<nat, Handler>) {
    forall p, q ::
      p in handlers && q in handlers && Carried(handlers[p]).Some? && Carried(handlers[p]) == Carried(handlers[q]) ==>
      p == q
  }

  ghost predicate LogOk(sessions: Sessions, handed: seq<string>, grants: seq<Grant>) {
    && Distinct(handed)
    && (forall k :: 0 <= k < |handed| ==> handed[k] in sessions)
    && (forall k :: 0 <= k < |grants| ==> GrantOk(grants[k], sessions, handed))
    && (forall j, k :: 0 <= j < k < |grants| ==> grants[j].sessionId != grants[k].sessionId)
  }

  ghost predicate GrantOk(g: Grant, sessions: Sessions, handed: seq<string>) {
    g.sessionId in handed && LocallyApproved(sessions, g.sessionId) && sessions[g.sessionId].deviceId == g.deviceId
  }

  ghost predicate SessionOk(sessionId: string, r: S.Record, grants: seq<Grant>) {
    && r.sessionId == sessionId
    && (r.authorizedAt.Some? ==> Grant(sessionId, r.deviceId, r.authorizedAt.value, r.scopes) in grants)
  }

  ghost predicate SessionsOk(sessions: Sessions, grants: seq<Grant>) {
    forall sessionId :: sessionId in sessions ==> SessionOk(sessionId, sessions[sessionId], grants)
  }

  ghost predicate Inv(w: World) {
    && PairsOk(w.directory.pairs, w.sessions, w.handed)
    && HandlersOk(w.handlers, w.directory.pairs, w.sessions, w.handed, w.grants)
    && Exclusive(w.handlers)
    && LogOk(w.sessions, w.handed, w.grants)
    && SessionsOk(w.sessions, w.grants)
  }

  // ----- frames -----

  /** A session object keeps its identity and never loses its approval. */
  ghost predicate Extends(a: S.Record, b: S.Record) {
    && b.activeCodeHash == a.activeCodeHash && b.deviceId == a.deviceId && b.sessionId == a.sessionId
    && (a.localApprovedAt.Some? ==> b.localApprovedAt.Some?)
  }

  /** Replacing one handler needs only its own conditions. */
  lemma HandlerReplaced(w: World, pid: nat, h: Handler)
    requires Inv(w) && HandlerOk(h, w.directory.pairs, w.sessions, w.handed, w.grants)
    requires Carried(h).Some? ==> forall q :: q in w.handlers && q != pid ==> Carried(w.handlers[q]) != Carried(h)
    ensures Inv(w.(handlers := w.handlers[pid := h]))
  {
  }

  lemma SessionReplaced(w: World, sessionId: string, r: S.Record)
    requires Inv(w) && sessionId in w.sessions && Extends(w.sessions[sessionId], r)
    requires SessionOk(sessionId, r, w.grants)
    ensures Inv(w.(sessions := w.sessions[sessionId := r]))
  {
  }

  // ----- each call -----

  lemma CarriedKnown(w: World, pid: nat)
    requires Inv(w) && pid in w.handlers && Carried(w.handlers[pid]).Some?
    ensures Carried(w.handlers[pid]).value in w.sessions
  {
  }

  lemma SessionAdded(w: World, sessionId: string, r: S.Record)
    requires Inv(w) && sessionId !in w.sessions && SessionOk(sessionId, r, w.grants)
    ensures Inv(w.(sessions := w.sessions[sessionId := r]))
  {
  }

  lemma RegisterSessionKeeps(w: World, pid: nat, attempt: nat, device: Device, r: Reading)
    requires Inv(w) && pid in w.handlers && w.handlers[pid] == RegisterSession(attempt, device)
    ensures Inv(CallRegisterSession(w, pid, attempt, device, r))
  {
    var g := RegistrationOf(device, r);
    if !S.RegistrationAllowed(g) || r.sessionId in w.sessions {
      HandlerReplaced(w, pid, Retry(attempt, device));
    } else {
      forall q | q in w.handlers && Carried(w.handlers[q]).Some? ensures Carried(w.handlers[q]).value in w.sessions {
        CarriedKnown(w, q);
      }
      forall code | code in w.directory.pairs ensures w.directory.pairs[code].sessionId in w.sessions {
        assert PairOk(code, w.directory.pairs[code], w.sessions, w.handed);
      }
      SessionAdded(w, r.sessionId, S.Registered(g));
      var added := w.(sessions := w.sessions[r.sessionId := S.Registered(g)]);
      HandlerReplaced(added, pid, RegisterDirectory(attempt, device, r.sessionId, r.code, g.expiresAt));
    }
  }

  lemma PairAdded(w: World, pid: nat, code: string, pair: D.Pair)
    requires Inv(w) && pid in w.handlers && Carried(w.handlers[pid]) == Some(pair.sessionId)
    requires PairOk(code, pair, w.sessions, w.handed) && code !in w.directory.pairs
    ensures Inv(w.(
      directory := w.directory.(pairs := w.directory.pairs[code := pair]),
      handlers := w.handlers[pid := Finished(true)]))
  {
  }

  lemma RegisterDirectoryKeeps(w: World, pid: nat, now: int)
    requires Inv(w) && pid in w.handlers && w.handlers[pid].RegisterDirectory?
    ensures Inv(CallRegisterDirectory(w, pid, w.handlers[pid], now))
  {
    var h := w.handlers[pid];
    assert HandlerOk(h, w.directory.pairs, w.sessions, w.handed, w.grants);
    if D.CanRegister(w.directory, h.code, h.expiresAt, now) {
      PairAdded(w, pid, h.code, D.Pair(h.expiresAt, 0, None, h.sessionId));
    } else {
      HandlerReplaced(w, pid, Retry(h.attempt, h.device));
    }
  }

  lemma ApproveSessionKeeps(w: World, pid: nat, sessionId: string, now: int)
    requires Inv(w) && pid in w.handlers
    ensures Inv(CallApproveSession(w, pid, sessionId, now))
  {
    if sessionId in w.sessions && S.Approve(w.sessions[sessionId], now).Ok? {
      var r := S.Approve(w.sessions[sessionId], now).value;
      assert SessionOk(sessionId, w.sessions[sessionId], w.grants);
      SessionReplaced(w, sessionId, r);
      var approved := w.(sessions := w.sessions[sessionId := r]);
      HandlerReplaced(approved, pid, ApproveDirectory(sessionId, r.activeCodeHash, now));
    } else {
      HandlerReplaced(w, pid, Finished(false));
    }
  }

  lemma ApproveDirectoryKeeps(w: World, pid: nat)
    requires Inv(w) && pid in w.handlers && w.handlers[pid].ApproveDirectory?
    ensures Inv(CallApproveDirectory(w, pid, w.handlers[pid]))
  {
  }

  lemma RevokeSessionKeeps(w: World, pid: nat, sessionId: string, now: int)
    requires Inv(w) && pid in w.handlers
    ensures Inv(CallRevokeSession(w, pid, sessionId, now))
  {
    if sessionId in w.sessions {
      var r := S.Revoke(w.sessions[sessionId], now);
      assert SessionOk(sessionId, w.sessions[sessionId], w.grants);
      SessionReplaced(w, sessionId, r);
      HandlerReplaced(w.(sessions := w.sessions[sessionId := r]), pid, RevokeDirectory(sessionId, r.activeCodeHash));
    } else {
      HandlerReplaced(w, pid, Finished(false));
    }
  }

  /** A directory that only lost records, or changed fields other than owner and approval, is still good. */
  lemma PairsShrunk(w: World, directory: D.Storage)
    requires Inv(w)
    requires forall code :: code in directory.pairs ==>
               && code in w.directory.pairs
               && directory.pairs[code].sessionId == w.directory.pairs[code].sessionId
               && directory.pairs[code].localApprovedAt == w.directory.pairs[code].localApprovedAt
    ensures Inv(w.(directory := directory))
  {
  }

  lemma RevokeDirectoryKeeps(w: World, pid: nat)
    requires Inv(w) && pid in w.handlers && w.handlers[pid].RevokeDirectory?
    ensures Inv(CallRevokeDirectory(w, pid, w.handlers[pid]))
  {
  }

  /** What an attempt does to the code records: at most it removes the one it hands over, or counts a failure. */
  lemma AttemptOnPairs(d: D.Storage, code: string, ip: string, now: int)
    ensures var (after, outcome) := D.Authorize(d, code, ip, now);
      if outcome.Authorized? then
        && code in d.pairs && d.pairs[code].sessionId == outcome.sessionId && d.pairs[code].localApprovedAt.Some?
        && after.pairs == d.pairs - {code}
      else
        forall c :: c in after.pairs ==>
          && c in d.pairs && after.pairs[c].sessionId == d.pairs[c].sessionId
          && after.pairs[c].localApprovedAt == d.pairs[c].localApprovedAt
  {
  }

  /** Before it is handed over, a session in the directory is carried by no handler. */
  lemma ListedNotCarried(w: World, code: string, pid: nat)
    requires Inv(w) && code in w.directory.pairs && pid in w.handlers
    ensures Carried(w.handlers[pid]) != Some(w.directory.pairs[code].sessionId)
  {
  }

  lemma HandedOver(w: World, code: string, directory: D.Storage)
    requires Inv(w) && code in w.directory.pairs && directory.pairs == w.directory.pairs - {code}
    ensures Inv(w.(directory := directory, handed := w.handed + [w.directory.pairs[code].sessionId]))
  {
  }

  lemma TryDirectoryKeeps(w: World, pid: nat, code: string, ip: string, now: int)
    requires Inv(w) && pid in w.handlers
    ensures Inv(CallTryDirectory(w, pid, code, ip, now))
  {
    var (directory, outcome) := D.Authorize(w.directory, code, ip, now);
    AttemptOnPairs(w.directory, code, ip, now);
    if outcome.Authorized? {
      assert PairOk(code, w.directory.pairs[code], w.sessions, w.handed);
      forall q | q in w.handlers ensures Carried(w.handlers[q]) != Some(outcome.sessionId) {
        ListedNotCarried(w, code, q);
      }
      forall k | 0 <= k < |w.grants| ensures w.grants[k].sessionId != outcome.sessionId {
        assert GrantOk(w.grants[k], w.sessions, w.handed);
      }
      HandedOver(w, code, directory);
      HandlerReplaced(w.(directory := directory, handed := w.handed + [outcome.sessionId]), pid,
        CheckStatus(outcome.sessionId, code));
    } else {
      PairsShrunk(w, directory);
      HandlerReplaced(w.(directory := directory), pid, Finished(false));
    }
  }

  lemma CheckStatusKeeps(w: World, pid: nat, sessionId: string, code: string, now: int)
    requires Inv(w) && pid in w.handlers && w.handlers[pid] == CheckStatus(sessionId, code)
    ensures Inv(CallCheckStatus(w, pid, sessionId, code, now))
  {
    assert HandlerOk(w.handlers[pid], w.directory.pairs, w.sessions, w.handed, w.grants);
    if ReadyForGrant(w.sessions, sessionId, code, now) {
      HandlerReplaced(w, pid, CompleteGrant(sessionId, w.sessions[sessionId].deviceId));
    } else {
      HandlerReplaced(w, pid, Finished(false));
    }
  }

  lemma CompleteGrantKeeps(w: World, pid: nat, sessionId: string, deviceId: string, r: Reading)
    requires Inv(w) && pid in w.handlers && w.handlers[pid] == CompleteGrant(sessionId, deviceId)
    ensures Inv(CallCompleteGrant(w, pid, sessionId, deviceId, r))
  {
  }

  lemma MarkAuthorizedKeeps(w: World, pid: nat, g: Grant)
    requires Inv(w) && pid in w.handlers && w.handlers[pid] == MarkAuthorized(g)
    ensures Inv(CallMarkAuthorized(w, pid, g))
  {
    assert HandlerOk(w.handlers[pid], w.directory.pairs, w.sessions, w.handed, w.grants);
    if g.sessionId in w.sessions && S.Authorize(w.sessions[g.sessionId], g.sessionId, g.authorizedAt, g.scopes).Ok? {
      var k :| 0 <= k < |w.grants| && w.grants[k] == g;
      assert GrantOk(w.grants[k], w.sessions, w.handed);
      var r := S.Authorize(w.sessions[g.sessionId], g.sessionId, g.authorizedAt, g.scopes).value;
      SessionReplaced(w, g.sessionId, r);
      HandlerReplaced(w.(sessions := w.sessions[g.sessionId := r]), pid, Finished(true));
    } else {
      HandlerReplaced(w, pid, Finished(false));
    }
  }

  lemma CallKeeps(w: World, pid: nat, r: Reading)
    requires Inv(w) && pid in w.handlers
    ensures Inv(Call(w, pid, r))
  {
    match w.handlers[pid]
    case RegisterSession(attempt, device) => RegisterSessionKeeps(w, pid, attempt, device, r);
    case RegisterDirectory(_, _, _, _, _) => RegisterDirectoryKeeps(w, pid, r.now);
    case ApproveSession(sessionId) => ApproveSessionKeeps(w, pid, sessionId, r.now);
    case ApproveDirectory(_, _, _) => ApproveDirectoryKeeps(w, pid);
    case RevokeSession(sessionId) => RevokeSessionKeeps(w, pid, sessionId, r.now);
    case RevokeDirectory(_, _) => RevokeDirectoryKeeps(w, pid);
    case TryDirectory(code, ip) => TryDirectoryKeeps(w, pid, code, ip, r.now);
    case CheckStatus(sessionId, code) => CheckStatusKeeps(w, pid, sessionId, code, r.now);
    case CompleteGrant(sessionId, deviceId) => CompleteGrantKeeps(w, pid, sessionId, deviceId, r);
    case MarkAuthorized(grant) => MarkAuthorizedKeeps(w, pid, grant);
    case Finished(_) =>
  }

  lemma TrafficKeeps(r: S.Record, e: S.Event)
    requires Traffic(e)
    ensures var t := S.Apply(r, e);
      Extends(r, t) && t.authorizedAt == r.authorizedAt && t.scopes == r.scopes
  {
  }

  lemma HandlerLost(w: World, pid: nat)
    requires Inv(w)
    ensures Inv(w.(handlers := w.handlers - {pid}))
  {
  }

  lemma NextKeeps(w: World, a: Action)
    requires Inv(w)
    ensures Inv(Next(w, a))
  {
    match a
    case Arrives(pid, h) => if pid !in w.handlers && Initial(h) { HandlerReplaced(w, pid, h); }
    case Calls(pid, r) => if pid in w.handlers { CallKeeps(w, pid, r); }
    case Lost(pid) => HandlerLost(w, pid);
    case Other(sessionId, e) =>
      if sessionId in w.sessions && Traffic(e) {
        TrafficKeeps(w.sessions[sessionId], e);
        assert SessionOk(sessionId, w.sessions[sessionId], w.grants);
        SessionReplaced(w, sessionId, S.Apply(w.sessions[sessionId], e));
      }
    case Cleanup(now) => PairsShrunk(w, Cleaned(w.directory, now));
  }

  lemma {:induction false} InvAlways(actions: seq<Action>, i: nat)
    requires i <= |actions|
    ensures Inv(At(actions, i))
  {
    if i > 0 {
      InvAlways(actions, i - 1);
      NextKeeps(At(actions, i - 1), actions[i - 1]);
    }
  }
}
