/** Runs of the directory in which cleaning up an expired pair record shows. */
module DirectoryWitnesses {
  import opened Common
  import opened Constants
  import opened DirectoryStorage
  import opened DirectoryRuns
  import opened AttemptLimiter
  import opened AlarmTransparency
  import opened CodeGuesses

  /** An expired code can be registered anew after the alarm, and cannot without it. */
  lemma RegistrationSeesCleanup(code: string, session: string, t: int, expiresAt: int, now: int, next: int)
    requires t < expiresAt <= now < next
    ensures var es := [RegisterEvent(code, expiresAt, session, t), AlarmEvent(expiresAt)];
      && CanRegister(At(START, es, 2).storage, code, next, now)
      && !CanRegister(AtMuted(Nothing, es, 2).storage, code, next, now)
  {
    var es := [RegisterEvent(code, expiresAt, session, t), AlarmEvent(expiresAt)];
    var registered := Next(START, es[0]);
    assert At(START, es, 1) == registered && AtMuted(Nothing, es, 1) == registered;
    assert At(START, es, 2) == Next(registered, es[1]) && AtMuted(Nothing, es, 2) == registered;
    RegistrationSeesCleanupIff(registered.storage, code, expiresAt, next, now);
  }

  /** A code registered and never approved, guessed at four times, cleaned up once expired and guessed at again. */
  predicate GuessedAndCleaned(es: seq<Event>, code: string, session: string, t: int, expiresAt: int) {
    && |es| == 7 && t < expiresAt
    && es[0] == RegisterEvent(code, expiresAt, session, t)
    && (forall k :: 1 <= k < 5 ==> es[k] == AttemptEvent(code, "", t))
    && es[5] == AlarmEvent(expiresAt)
    && es[6] == AttemptEvent(code, "", expiresAt)
  }

  /** The code's record has counted these failures, and nothing is counted for it as missing. */
  ghost predicate Failed(s: System, code: string, expiresAt: int, failures: nat) {
    && code !in s.storage.missing && code in s.storage.pairs
    && s.storage.pairs[code].failedAttempts == failures && s.storage.pairs[code].localApprovedAt.None?
    && s.storage.pairs[code].expiresAt == expiresAt
  }

  lemma OneMoreFailure(s: System, code: string, expiresAt: int, failures: nat, now: int)
    requires Failed(s, code, expiresAt, failures) && failures < PER_WINDOW && !Limited(s.storage, "", now)
    ensures Failed(Next(s, AttemptEvent(code, "", now)), code, expiresAt, failures + 1)
  {
  }

  lemma NotLimited(es: seq<Event>, i: nat)
    requires i < |es| <= PAIRING_IP_MAX_ATTEMPTS && InTimeOrder(es, i + 1) && es[i].AttemptEvent?
    ensures !Limited(At(START, es, i).storage, es[i].ip, es[i].now)
  {
    FewAdmitted(es, i, es[i].ip);
    RefusedOnlyWhenFull(es, i);
  }

  lemma {:induction false} FailuresCounted(
    es: seq<Event>, code: string, session: string, t: int, expiresAt: int, i: nat)
    requires GuessedAndCleaned(es, code, session, t, expiresAt) && 1 <= i <= 5
    ensures Failed(At(START, es, i), code, expiresAt, i - 1) && AtMuted(Nothing, es, i) == At(START, es, i)
  {
    if i == 1 {
      assert At(START, es, 1) == Next(START, es[0]) && AtMuted(Nothing, es, 1) == Next(START, es[0]);
    } else {
      FailuresCounted(es, code, session, t, expiresAt, i - 1);
      NotLimited(es, i - 1);
      OneMoreFailure(At(START, es, i - 1), code, expiresAt, i - 2, t);
    }
  }

  lemma SweptRecordForgets(loud: System, quiet: System, code: string, expiresAt: int)
    requires Failed(quiet, code, expiresAt, PER_WINDOW) && loud == Next(quiet, AlarmEvent(expiresAt))
    requires !Limited(loud.storage, "", expiresAt) && !Limited(quiet.storage, "", expiresAt)
    ensures Authorize(loud.storage, code, "", expiresAt).1 == Invalid
    ensures Authorize(quiet.storage, code, "", expiresAt).1 == CodeLocked
  {
  }

  /** The guess that would have locked the code is answered as invalid after the alarm, and locks it without. */
  lemma AttemptSeesCleanup(es: seq<Event>, code: string, session: string, t: int, expiresAt: int)
    requires GuessedAndCleaned(es, code, session, t, expiresAt)
    ensures InTimeOrder(es, |es|)
    ensures Authorize(At(START, es, 6).storage, code, "", expiresAt).1 == Invalid
    ensures Authorize(AtMuted(Nothing, es, 6).storage, code, "", expiresAt).1 == CodeLocked
  {
    FailuresCounted(es, code, session, t, expiresAt, 5);
    NotLimited(es, 6);
    LimiterIgnoresAlarms(es, 6);
    assert AtMuted(Nothing, es, 6) == AtMuted(Nothing, es, 5);
    SweptRecordForgets(At(START, es, 6), AtMuted(Nothing, es, 6), code, expiresAt);
  }
}
