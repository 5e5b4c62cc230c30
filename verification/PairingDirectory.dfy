/** The pairing directory object, whose methods are its transactions (gateway/src/pairing-directory.ts). */
module PairingDirectory {
  import opened Common
  import opened Constants
  import opened DirectoryStorage

  class PairingDirectory {
    var pairs: map<string, Pair>
    var missing: map<string, Failures>
    var rates: map<string, Rate>
    var pendingAlarm: Option<int>

    function View(): Storage
      reads this
    {
      Storage(pairs, missing, rates, pendingAlarm)
    }

    constructor ()
      ensures View() == EMPTY
    {
      pairs, missing, rates, pendingAlarm := map[], map[], map[], None;
    }

    method ScheduleCleanup(at: int)
      modifies this
      ensures View() == Schedule(old(View()), at)
    {
      if pendingAlarm.None? || at < pendingAlarm.value {
        pendingAlarm := Some(at);
      }
    }

    method Register(code: string, expiresAt: int, sessionId: string, now: int) returns (registered: bool)
      modifies this
      ensures registered <==> CanRegister(old(View()), code, expiresAt, now)
      ensures View() ==
        if registered then Schedule(DirectoryStorage.Register(old(View()), code, expiresAt, sessionId, now), expiresAt)
        else old(View())
    {
      if expiresAt <= now || code in pairs {
        return false;
      }
      pairs := pairs[code := Pair(expiresAt, 0, None, sessionId)];
      ScheduleCleanup(expiresAt);
      return true;
    }

    method Approve(code: string, sessionId: string, approvedAt: int) returns (approved: bool)
      modifies this
      ensures approved <==> CanApprove(old(View()), code, sessionId, approvedAt)
      ensures View() == DirectoryStorage.Approve(old(View()), code, sessionId, approvedAt)
    {
      if code !in pairs || pairs[code].sessionId != sessionId || pairs[code].expiresAt <= approvedAt {
        return false;
      }
      pairs := pairs[code := pairs[code].(localApprovedAt := Some(approvedAt))];
      return true;
    }

    method KeepLive(attempts: seq<int>, now: int) returns (live: seq<int>)
      ensures live == LiveAttempts(attempts, now)
    {
      live := [];
      for i := 0 to |attempts|
        invariant live + LiveAttempts(attempts[i..], now) == LiveAttempts(attempts, now)
      {
        if now - attempts[i] < PAIRING_IP_WINDOW_MS {
          live := live + [attempts[i]];
        }
      }
    }

    /** One transaction: limiter, then lockouts, then the one-time hand-over; cleanup is scheduled in every case. */
    method Authorize(code: string, ip: string, attemptedAt: int) returns (outcome: Outcome)
      modifies this
      ensures outcome == DirectoryStorage.Authorize(old(View()), code, ip, attemptedAt).1
      ensures View() ==
        Schedule(DirectoryStorage.Authorize(old(View()), code, ip, attemptedAt).0, attemptedAt + PAIRING_IP_WINDOW_MS)
    {
      outcome := AuthorizeTransaction(code, ip, attemptedAt);
      ScheduleCleanup(attemptedAt + PAIRING_IP_WINDOW_MS);
    }

    method AuthorizeTransaction(code: string, ip: string, attemptedAt: int) returns (outcome: Outcome)
      modifies this
      ensures (View(), outcome) == DirectoryStorage.Authorize(old(View()), code, ip, attemptedAt)
    {
      var live := KeepLive(if ip in rates then rates[ip].attempts else [], attemptedAt);
      if |live| >= PAIRING_IP_MAX_ATTEMPTS {
        return RateLimited;
      }
      live := live + [attemptedAt];
      rates := rates[ip := Rate(live, attemptedAt + PAIRING_IP_WINDOW_MS)];
      if code !in pairs {
        var failures :=
          if code !in missing || missing[code].expiresAt <= attemptedAt
          then Failures(0, attemptedAt + PAIRING_IP_WINDOW_MS)
          else missing[code];
        if failures.count >= PAIRING_CODE_MAX_FAILURES {
          return CodeLocked;
        }
        failures := failures.(count := failures.count + 1);
        missing := missing[code := failures];
        return if failures.count >= PAIRING_CODE_MAX_FAILURES then CodeLocked else Invalid;
      }
      var record := pairs[code];
      if record.failedAttempts >= PAIRING_CODE_MAX_FAILURES {
        return CodeLocked;
      }
      if record.expiresAt <= attemptedAt || record.localApprovedAt.None? {
        record := record.(failedAttempts := record.failedAttempts + 1);
        pairs := pairs[code := record];
        return if record.failedAttempts >= PAIRING_CODE_MAX_FAILURES then CodeLocked else Invalid;
      }
      pairs := pairs - {code};
      return Authorized(record.sessionId);
    }

    method Revoke(code: string, sessionId: string)
      modifies this
      ensures View() == DirectoryStorage.Revoke(old(View()), code, sessionId)
    {
      if code in pairs && pairs[code].sessionId == sessionId {
        pairs := pairs - {code};
      }
    }

    /** The alarm has fired, so none is pending when the handler starts. */
    method Alarm(now: int)
      modifies this
      ensures Cleaned(old(View()), now, View())
    {
      pendingAlarm := None;
      CleanPairs(now);
      CleanMissing(now);
      CleanRates(now);
    }

    /** An alarm is pending no later than `at`. */
    predicate AlarmBy(at: int)
      reads this
    {
      pendingAlarm.Some? && pendingAlarm.value <= at
    }

    /** The earliest of the expiries seen so far. */
    method MoveUp(at: int)
      modifies this`pendingAlarm
      ensures pendingAlarm == Some(if old(pendingAlarm).Some? then Min(old(pendingAlarm).value, at) else at)
    {
      pendingAlarm := Some(if pendingAlarm.Some? then Min(pendingAlarm.value, at) else at);
    }

    method CleanPairs(now: int)
      modifies this`pairs, this`pendingAlarm
      ensures pairs == LivePairs(old(pairs), now)
      ensures pendingAlarm == old(pendingAlarm)
        || exists code :: code in pairs && pendingAlarm == Some(pairs[code].expiresAt)
      ensures forall code :: code in pairs ==> AlarmBy(pairs[code].expiresAt)
      ensures forall at :: old(AlarmBy(at)) ==> AlarmBy(at)
    {
      var keys := pairs.Keys;
      while keys != {}
        invariant forall code :: code in pairs ==> code in old(pairs) && pairs[code] == old(pairs)[code]
        invariant forall code :: code in old(pairs) ==>
          code in keys || (code in pairs <==> old(pairs)[code].expiresAt > now)
        invariant forall code :: code in keys ==> code in pairs
        invariant pendingAlarm == old(pendingAlarm)
          || exists code :: code in pairs && code !in keys && pendingAlarm == Some(pairs[code].expiresAt)
        invariant forall code :: code in pairs && code !in keys ==> AlarmBy(pairs[code].expiresAt)
        invariant forall at :: old(AlarmBy(at)) ==> AlarmBy(at)
        decreases |keys|
      {
        var key :| key in keys;
        if pairs[key].expiresAt <= now {
          pairs := pairs - {key};
        } else {
          MoveUp(pairs[key].expiresAt);
        }
        keys := keys - {key};
      }
    }

    method CleanMissing(now: int)
      modifies this`missing, this`pendingAlarm
      ensures missing == LiveMissing(old(missing), now)
      ensures pendingAlarm == old(pendingAlarm)
        || exists code :: code in missing && pendingAlarm == Some(missing[code].expiresAt)
      ensures forall code :: code in missing ==> AlarmBy(missing[code].expiresAt)
      ensures forall at :: old(AlarmBy(at)) ==> AlarmBy(at)
    {
      var keys := missing.Keys;
      while keys != {}
        invariant forall code :: code in missing ==> code in old(missing) && missing[code] == old(missing)[code]
        invariant forall code :: code in old(missing) ==>
          code in keys || (code in missing <==> old(missing)[code].expiresAt > now)
        invariant forall code :: code in keys ==> code in missing
        invariant pendingAlarm == old(pendingAlarm)
          || exists code :: code in missing && code !in keys && pendingAlarm == Some(missing[code].expiresAt)
        invariant forall code :: code in missing && code !in keys ==> AlarmBy(missing[code].expiresAt)
        invariant forall at :: old(AlarmBy(at)) ==> AlarmBy(at)
        decreases |keys|
      {
        var key :| key in keys;
        if missing[key].expiresAt <= now {
          missing := missing - {key};
        } else {
          MoveUp(missing[key].expiresAt);
        }
        keys := keys - {key};
      }
    }

    method CleanRates(now: int)
      modifies this`rates, this`pendingAlarm
      ensures rates == LiveRates(old(rates), now)
      ensures pendingAlarm == old(pendingAlarm) || exists ip :: ip in rates && pendingAlarm == Some(rates[ip].expiresAt)
      ensures forall ip :: ip in rates ==> AlarmBy(rates[ip].expiresAt)
      ensures forall at :: old(AlarmBy(at)) ==> AlarmBy(at)
    {
      var keys := rates.Keys;
      while keys != {}
        invariant forall ip :: ip in rates ==> ip in old(rates) && rates[ip] == old(rates)[ip]
        invariant forall ip :: ip in old(rates) ==> ip in keys || (ip in rates <==> old(rates)[ip].expiresAt > now)
        invariant forall ip :: ip in keys ==> ip in rates
        invariant pendingAlarm == old(pendingAlarm)
          || exists ip :: ip in rates && ip !in keys && pendingAlarm == Some(rates[ip].expiresAt)
        invariant forall ip :: ip in rates && ip !in keys ==> AlarmBy(rates[ip].expiresAt)
        invariant forall at :: old(AlarmBy(at)) ==> AlarmBy(at)
        decreases |keys|
      {
        var key :| key in keys;
        if rates[key].expiresAt <= now {
          rates := rates - {key};
        } else {
          MoveUp(rates[key].expiresAt);
        }
        keys := keys - {key};
      }
    }
  }
}
