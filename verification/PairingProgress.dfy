/**
That pairing goes through. Each handler's call is said in terms of what the objects hold before it, and a device
that registers, is approved locally and is authorized with its code ends with the one grant its user asked for.
*/
module PairingProgress {
  import opened Common
  import opened Constants
  import opened PairingProtocol
  import D = DirectoryStorage
  import S = SessionRecord

  function Under(w: World, pid: nat, h: Handler): World {
    w.(handlers := w.handlers[pid := h])
  }

  // ----- registration -----

  /** A registration is stored exactly when its times and number are valid and the session has none; else a new try. */
  lemma SessionRegisteredIff(w: World, pid: nat, attempt: nat, device: Device, r: Reading)
    requires pid in w.handlers && w.handlers[pid] == RegisterSession(attempt, device)
    ensures
      var after := Call(w, pid, r);
      if r.now > 0 && device.initialSequence > 0 && r.sessionId !in w.sessions then
        && after.handlers[pid] == RegisterDirectory(attempt, device, r.sessionId, r.code, r.now + 600_000)
        && r.sessionId in after.sessions && after.sessions - {r.sessionId} == w.sessions
        && var stored := after.sessions[r.sessionId];
          && stored.activeCodeHash == r.code && stored.deviceId == device.deviceId
          && stored.sessionId == r.sessionId && stored.createdAt == r.now && stored.expiresAt == r.now + 600_000
          && stored.publicKey == device.publicKey && stored.lastSequence == device.initialSequence
      else after == Under(w, pid, if attempt < 2 then RegisterSession(attempt + 1, device) else Finished(false))
  {
    if r.now > 0 && device.initialSequence > 0 && r.sessionId !in w.sessions {
      assert Call(w, pid, r).sessions - {r.sessionId} == w.sessions;
    }
  }

  /** The code is listed exactly when it is free and not run out; else the whole registration is tried anew. */
  lemma CodeListedIff(w: World, pid: nat, h: Handler, r: Reading)
    requires pid in w.handlers && w.handlers[pid] == h && h.RegisterDirectory?
    ensures
      var after := Call(w, pid, r);
      if h.code !in w.directory.pairs && h.expiresAt > r.now then
        && after.directory.pairs == w.directory.pairs[h.code := D.Pair(h.expiresAt, 0, None, h.sessionId)]
        && after.handlers[pid] == Finished(true) && after.sessions == w.sessions
      else after == Under(w, pid, if h.attempt < 2 then RegisterSession(h.attempt + 1, h.device) else Finished(false))
  {
  }

  // ----- approval and revocation -----

  /** Approval marks an active session, then goes on to the directory with that session's code. */
  lemma SessionApprovedIff(w: World, pid: nat, sessionId: string, r: Reading)
    requires pid in w.handlers && w.handlers[pid] == ApproveSession(sessionId)
    ensures
      var after := Call(w, pid, r);
      if sessionId in w.sessions && w.sessions[sessionId].revokedAt.None?
        && w.sessions[sessionId].expiresAt > r.now then
        && after.sessions == w.sessions[sessionId := w.sessions[sessionId].(localApprovedAt := Some(r.now))]
        && after.handlers[pid] == ApproveDirectory(sessionId, w.sessions[sessionId].activeCodeHash, r.now)
      else after == Under(w, pid, Finished(false))
  {
  }

  lemma CodeApprovedIff(w: World, pid: nat, h: Handler, r: Reading)
    requires pid in w.handlers && w.handlers[pid] == h && h.ApproveDirectory?
    ensures
      var after, pairs := Call(w, pid, r), w.directory.pairs;
      var listed := h.code in pairs && pairs[h.code].sessionId == h.sessionId && pairs[h.code].expiresAt > h.approvedAt;
      && after.handlers[pid] == Finished(listed) && after.sessions == w.sessions
      && (listed ==>
        after.directory.pairs == pairs[h.code := pairs[h.code].(localApprovedAt := Some(h.approvedAt))])
      && (!listed ==> after.directory == w.directory)
  {
  }

  /** Revocation stamps the session, then takes its code off the directory; other sessions' codes stay. */
  lemma SessionRevoked(w: World, pid: nat, sessionId: string, r: Reading, s: Reading)
    requires pid in w.handlers && w.handlers[pid] == RevokeSession(sessionId) && sessionId in w.sessions
    ensures
      var after := Call(Call(w, pid, r), pid, s);
      var code := w.sessions[sessionId].activeCodeHash;
      && after.sessions == w.sessions[sessionId := w.sessions[sessionId].(revokedAt := Some(r.now))]
      && after.handlers[pid] == Finished(true)
      && after.directory.pairs ==
        if code in w.directory.pairs && w.directory.pairs[code].sessionId == sessionId
        then w.directory.pairs - {code} else w.directory.pairs
  {
  }

  // ----- authorization -----

  /** The directory hands the session over exactly when the code is listed, approved, not run out and not struck out. */
  lemma HandedOverIff(w: World, pid: nat, code: string, ip: string, r: Reading)
    requires pid in w.handlers && w.handlers[pid] == TryDirectory(code, ip)
    ensures
      var after, pairs := Call(w, pid, r), w.directory.pairs;
      var usable := code in pairs && pairs[code].localApprovedAt.Some? && pairs[code].expiresAt > r.now
        && pairs[code].failedAttempts < 5 && !D.Limited(w.directory, ip, r.now);
      && after.sessions == w.sessions && after.grants == w.grants
      && after.directory == D.Authorize(w.directory, code, ip, r.now).0
      && (usable ==>
        && after.handlers[pid] == CheckStatus(pairs[code].sessionId, code)
        && after.handed == w.handed + [pairs[code].sessionId] && after.directory.pairs == pairs - {code})
      && (!usable ==> after.handlers[pid] == Finished(false) && after.handed == w.handed)
  {
  }

  /** A session fit for a grant: active, approved, not authorized, and still the owner of the code. */
  predicate Fit(w: World, sessionId: string, code: string, now: int) {
    && sessionId in w.sessions
    && var s := w.sessions[sessionId];
      && s.revokedAt.None? && s.expiresAt > now && s.localApprovedAt.Some? && s.authorizedAt.None?
      && s.activeCodeHash == code
  }

  /** A session handed over is granted exactly when it is fit at its status check. */
  lemma GrantedIff(w: World, pid: nat, sessionId: string, code: string, r: Reading, s: Reading)
    requires pid in w.handlers && w.handlers[pid] == CheckStatus(sessionId, code)
    ensures
      var after := Call(Call(w, pid, r), pid, s);
      && after.sessions == w.sessions && after.directory == w.directory
      && if Fit(w, sessionId, code, r.now) then
          var grant := Grant(sessionId, w.sessions[sessionId].deviceId, s.now, s.scopes);
          after.grants == w.grants + [grant] && after.handlers[pid] == MarkAuthorized(grant)
        else after.grants == w.grants && after.handlers[pid] == Finished(false)
  {
  }

  /** The grant is recorded exactly when its session can still take it at the instant the grant was issued. */
  lemma RecordedIff(w: World, pid: nat, g: Grant, r: Reading)
    requires pid in w.handlers && w.handlers[pid] == MarkAuthorized(g)
    ensures
      var after := Call(w, pid, r);
      if g.sessionId in w.sessions && w.sessions[g.sessionId].sessionId == g.sessionId
        && w.sessions[g.sessionId].authorizedAt.None? && w.sessions[g.sessionId].localApprovedAt.Some?
        && w.sessions[g.sessionId].revokedAt.None? && w.sessions[g.sessionId].expiresAt > g.authorizedAt then
        && after.handlers[pid] == Finished(true)
        && after.sessions == w.sessions[g.sessionId := w.sessions[g.sessionId].(
          authorizedAt := Some(g.authorizedAt), expiresAt := g.authorizedAt + 2_592_000_000, scopes := g.scopes)]
      else after == Under(w, pid, Finished(false))
  {
  }

  // ----- a pairing left to itself -----

  function Registers(w: World, pid: nat, device: Device, r: Reading): World {
    Next(Next(Next(w, Arrives(pid, RegisterSession(0, device))), Calls(pid, r)), Calls(pid, r))
  }

  function Approves(w: World, pid: nat, sessionId: string, r: Reading): World {
    Next(Next(Next(w, Arrives(pid, ApproveSession(sessionId))), Calls(pid, r)), Calls(pid, r))
  }

  function Authorizes(w: World, pid: nat, code: string, ip: string, r: Reading): World {
    var checked := Next(Next(Next(w, Arrives(pid, TryDirectory(code, ip))), Calls(pid, r)), Calls(pid, r));
    Next(Next(checked, Calls(pid, r)), Calls(pid, r))
  }

  /** A code and its session, listed and stored together. */
  predicate Paired(w: World, sessionId: string, code: string, deviceId: string, expiresAt: int, approved: bool) {
    && sessionId in w.sessions && code in w.directory.pairs
    && var s, p := w.sessions[sessionId], w.directory.pairs[code];
      && s.sessionId == sessionId == p.sessionId && s.activeCodeHash == code && s.deviceId == deviceId
      && s.expiresAt == p.expiresAt == expiresAt && p.failedAttempts == 0
      && s.revokedAt.None? && s.authorizedAt.None?
      && s.localApprovedAt.Some? == p.localApprovedAt.Some? == approved
  }

  lemma RegistrationCompletes(w: World, pid: nat, device: Device, r: Reading)
    requires pid !in w.handlers && r.now > 0 && device.initialSequence > 0
    requires r.sessionId !in w.sessions && r.code !in w.directory.pairs
    ensures
      var after := Registers(w, pid, device, r);
      && Paired(after, r.sessionId, r.code, device.deviceId, r.now + 600_000, false)
      && after.handlers == w.handlers[pid := Finished(true)] && after.directory.rates == w.directory.rates
      && after.grants == w.grants
  {
    var called := Next(Next(w, Arrives(pid, RegisterSession(0, device))), Calls(pid, r));
    SessionRegisteredIff(Under(w, pid, RegisterSession(0, device)), pid, 0, device, r);
    CodeListedIff(called, pid, called.handlers[pid], r);
  }

  lemma ApprovalCompletes(w: World, pid: nat, sessionId: string, code: string, deviceId: string, expiresAt: int,
    r: Reading)
    requires pid !in w.handlers && Paired(w, sessionId, code, deviceId, expiresAt, false) && r.now < expiresAt
    ensures
      var after := Approves(w, pid, sessionId, r);
      && Paired(after, sessionId, code, deviceId, expiresAt, true)
      && after.handlers == w.handlers[pid := Finished(true)] && after.directory.rates == w.directory.rates
      && after.grants == w.grants
  {
    var called := Next(Next(w, Arrives(pid, ApproveSession(sessionId))), Calls(pid, r));
    SessionApprovedIff(Under(w, pid, ApproveSession(sessionId)), pid, sessionId, r);
    CodeApprovedIff(called, pid, called.handlers[pid], r);
  }

  /** The session is authorized by one new grant, for exactly these scopes. */
  predicate GrantedOnce(w: World, after: World, sessionId: string, deviceId: string, r: Reading) {
    && after.grants == w.grants + [Grant(sessionId, deviceId, r.now, r.scopes)]
    && sessionId in after.sessions
    && after.sessions[sessionId].authorizedAt == Some(r.now) && after.sessions[sessionId].scopes == r.scopes
    && after.sessions[sessionId].expiresAt == r.now + 2_592_000_000
  }

  lemma AuthorizationCompletes(
    w: World, pid: nat, sessionId: string, code: string, deviceId: string, expiresAt: int, ip: string, r: Reading)
    requires pid !in w.handlers && Paired(w, sessionId, code, deviceId, expiresAt, true) && r.now < expiresAt
    requires !D.Limited(w.directory, ip, r.now)
    ensures
      var after := Authorizes(w, pid, code, ip, r);
      && after.handlers[pid] == Finished(true) && code !in after.directory.pairs
      && GrantedOnce(w, after, sessionId, deviceId, r)
  {
    var tried := Under(w, pid, TryDirectory(code, ip));
    HandedOverIff(tried, pid, code, ip, r);
    var handed := Call(tried, pid, r);
    GrantedIff(handed, pid, sessionId, code, r, r);
    var granted := Call(Call(handed, pid, r), pid, r);
    RecordedIff(granted, pid, granted.handlers[pid].grant, r);
  }

  /** The three handlers of one pairing, each left to itself. */
  function PairingRun(w: World, first: nat, device: Device, r: Reading, approved: Reading, ip: string, tried: Reading)
    : World
  {
    var confirmed := Approves(Registers(w, first, device, r), first + 1, r.sessionId, approved);
    Authorizes(confirmed, first + 2, r.code, ip, tried)
  }

  /**
  From any state of the world a device with a fresh session and a free code, approved and tried before the code runs
  out from a source that is not limited, ends authorized, with one new grant for exactly the scopes asked for.
  */
  lemma PairingCompletes(w: World, first: nat, device: Device, r: Reading, approved: Reading, ip: string,
    tried: Reading)
    requires first !in w.handlers && first + 1 !in w.handlers && first + 2 !in w.handlers
    requires r.now > 0 && device.initialSequence > 0 && r.sessionId !in w.sessions && r.code !in w.directory.pairs
    requires approved.now < r.now + 600_000 && tried.now < r.now + 600_000 && !D.Limited(w.directory, ip, tried.now)
    ensures
      GrantedOnce(w, PairingRun(w, first, device, r, approved, ip, tried), r.sessionId, device.deviceId, tried)
  {
    var listed := Registers(w, first, device, r);
    RegistrationCompletes(w, first, device, r);
    ApprovalCompletes(listed, first + 1, r.sessionId, r.code, device.deviceId, r.now + 600_000, approved);
    var confirmed := Approves(listed, first + 1, r.sessionId, approved);
    SameLimit(w.directory, confirmed.directory, ip, tried.now);
    AuthorizationCompletes(confirmed, first + 2, r.sessionId, r.code, device.deviceId, r.now + 600_000, ip, tried);
  }

  lemma SameLimit(d: D.Storage, e: D.Storage, ip: string, now: int)
    requires d.rates == e.rates
    ensures D.Limited(d, ip, now) == D.Limited(e, ip, now)
  {
  }
}
