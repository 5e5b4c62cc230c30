/**
The pairing directory: code records, missing-code lockouts, the per-source attempt limiter, and
the cleanup alarm (gateway/src/pairing-directory.ts). The directory never sets `consumedAt` or
`revokedAt` of a record it stores, so those fields are left out and read as null.
*/
module DirectoryStorage {
  import opened Common
  import opened Constants

  datatype Pair = Pair(expiresAt: int, failedAttempts: nat, localApprovedAt: Option<int>, sessionId: string)
  datatype Failures = Failures(count: nat, expiresAt: int)
  datatype Rate = Rate(attempts: seq<int>, expiresAt: int)

  datatype Storage = Storage(
    pairs: map<string, Pair>,
    missing: map<string, Failures>,
    rates: map<string, Rate>,
    alarm: Option<int>)

  const EMPTY := Storage(map[], map[], map[], None)

  datatype Outcome = RateLimited | CodeLocked | Invalid | Authorized(sessionId: string)

  // ----- the limiter -----

  function LiveAttempts(attempts: seq<int>, now: int): seq<int> {
    if attempts == [] then []
    else if now - attempts[0] < PAIRING_IP_WINDOW_MS then [attempts[0]] + LiveAttempts(attempts[1..], now)
    else LiveAttempts(attempts[1..], now)
  }

  function RateOf(d: Storage, ip: string, now: int): Rate {
    if ip in d.rates then d.rates[ip] else Rate([], now + PAIRING_IP_WINDOW_MS)
  }

  predicate Limited(d: Storage, ip: string, now: int) {
    |LiveAttempts(RateOf(d, ip, now).attempts, now)| >= PAIRING_IP_MAX_ATTEMPTS
  }

  /** An admitted attempt is recorded with the live ones before it. */
  function Admit(d: Storage, ip: string, now: int): Storage {
    d.(rates := d.rates[ip := Rate(LiveAttempts(RateOf(d, ip, now).attempts, now) + [now], now + PAIRING_IP_WINDOW_MS)])
  }

  // ----- codes -----

  function FailuresOf(d: Storage, code: string, now: int): Failures {
    if code !in d.missing || d.missing[code].expiresAt <= now then Failures(0, now + PAIRING_IP_WINDOW_MS)
    else d.missing[code]
  }

  function LockedOrInvalid(count: nat): Outcome {
    if count >= PAIRING_CODE_MAX_FAILURES then CodeLocked else Invalid
  }

  function TryCode(d: Storage, code: string, now: int): (Storage, Outcome) {
    if code !in d.pairs then
      var failures := FailuresOf(d, code, now);
      if failures.count >= PAIRING_CODE_MAX_FAILURES then (d, CodeLocked)
      else
        var more := failures.(count := failures.count + 1);
        (d.(missing := d.missing[code := more]), LockedOrInvalid(more.count))
    else
      var record := d.pairs[code];
      if record.failedAttempts >= PAIRING_CODE_MAX_FAILURES then (d, CodeLocked)
      else if record.expiresAt <= now || record.localApprovedAt.None? then
        var more := record.(failedAttempts := record.failedAttempts + 1);
        (d.(pairs := d.pairs[code := more]), LockedOrInvalid(more.failedAttempts))
      else (d.(pairs := d.pairs - {code}), Authorized(record.sessionId))
  }

  function Authorize(d: Storage, code: string, ip: string, now: int): (Storage, Outcome) {
    if Limited(d, ip, now) then (d, RateLimited) else TryCode(Admit(d, ip, now), code, now)
  }

  predicate CanRegister(d: Storage, code: string, expiresAt: int, now: int) {
    expiresAt > now && code !in d.pairs
  }

  function Register(d: Storage, code: string, expiresAt: int, sessionId: string, now: int): Storage {
    if CanRegister(d, code, expiresAt, now) then d.(pairs := d.pairs[code := Pair(expiresAt, 0, None, sessionId)])
      else d
  }

  predicate CanApprove(d: Storage, code: string, sessionId: string, approvedAt: int) {
    code in d.pairs && d.pairs[code].sessionId == sessionId && d.pairs[code].expiresAt > approvedAt
  }

  function Approve(d: Storage, code: string, sessionId: string, approvedAt: int): Storage {
    if CanApprove(d, code, sessionId, approvedAt)
    then d.(pairs := d.pairs[code := d.pairs[code].(localApprovedAt := Some(approvedAt))])
    else d
  }

  function Revoke(d: Storage, code: string, sessionId: string): Storage {
    if code in d.pairs && d.pairs[code].sessionId == sessionId then d.(pairs := d.pairs - {code}) else d
  }

  // ----- cleanup -----

  function Schedule(d: Storage, at: int): Storage {
    if d.alarm.None? || at < d.alarm.value then d.(alarm := Some(at)) else d
  }

  function LivePairs(pairs: map<string, Pair>, now: int): map<string, Pair> {
    map code | code in pairs && pairs[code].expiresAt > now :: pairs[code]
  }

  function LiveMissing(missing: map<string, Failures>, now: int): map<string, Failures> {
    map code | code in missing && missing[code].expiresAt > now :: missing[code]
  }

  function LiveRates(rates: map<string, Rate>, now: int): map<string, Rate> {
    map ip | ip in rates && rates[ip].expiresAt > now :: rates[ip]
  }

  ghost predicate HasExpiry(d: Storage, at: int) {
    || (exists code :: code in d.pairs && d.pairs[code].expiresAt == at)
    || (exists code :: code in d.missing && d.missing[code].expiresAt == at)
    || (exists ip :: ip in d.rates && d.rates[ip].expiresAt == at)
  }

  ghost predicate NoEarlierExpiry(d: Storage, at: int) {
    && (forall code :: code in d.pairs ==> at <= d.pairs[code].expiresAt)
    && (forall code :: code in d.missing ==> at <= d.missing[code].expiresAt)
    && (forall ip :: ip in d.rates ==> at <= d.rates[ip].expiresAt)
  }

  /** What the alarm handler leaves: the live records, and an alarm at the earliest of their expiries. */
  ghost predicate Cleaned(d: Storage, now: int, after: Storage) {
    && after.pairs == LivePairs(d.pairs, now)
    && after.missing == LiveMissing(d.missing, now)
    && after.rates == LiveRates(d.rates, now)
    && (after.alarm.None? ==> after.pairs == map[] && after.missing == map[] && after.rates == map[])
    && (after.alarm.Some? ==> HasExpiry(after, after.alarm.value) && NoEarlierExpiry(after, after.alarm.value))
  }
}
