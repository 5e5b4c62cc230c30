/**
Whether cleanup can be noticed. The same events are run twice, once with the alarm and once with an alarm
that deletes less. Deleting run-out rates and failure counts is never noticed by anyone; deleting expired
pair records is, and where it shows is characterised exactly.
*/
module AlarmTransparency {
  import opened Common
  import opened Constants
  import opened DirectoryStorage
  import opened DirectoryRuns
  import opened AttemptLimiter

  /** What the alarm of the compared run deletes: nothing at all, or expired pair records only. */
  datatype Sweep = Nothing | PairsOnly

  ghost function Muted(sweep: Sweep, s: System, e: Event): System {
    if !e.AlarmEvent? then Next(s, e)
    else if sweep.Nothing? then s
    else s.(storage := s.storage.(pairs := LivePairs(s.storage.pairs, e.now)))
  }

  ghost function AtMuted(sweep: Sweep, es: seq<Event>, i: nat): System
    requires i <= |es|
  {
    if i == 0 then START else Muted(sweep, AtMuted(sweep, es, i - 1), es[i - 1])
  }

  // ----- one source bucket -----

  ghost predicate SoundRate(r: Rate, now: int) {
    r.expiresAt <= now + PAIRING_IP_WINDOW_MS && forall k :: 0 <= k < |r.attempts| ==>
      r.attempts[k] + PAIRING_IP_WINDOW_MS <= r.expiresAt
  }

  /** Cleanup may only have removed a list all of whose entries are out of the window. */
  ghost predicate RatesAgree(loud: map<string, Rate>, quiet: map<string, Rate>, ip: string, now: int) {
    && (ip in loud ==> ip in quiet && loud[ip] == quiet[ip])
    && (ip in quiet ==> SoundRate(quiet[ip], now) && (ip !in loud ==> quiet[ip].expiresAt <= now))
  }

  lemma {:induction false} StaleGivesNone(attempts: seq<int>, now: int)
    requires forall k :: 0 <= k < |attempts| ==> attempts[k] + PAIRING_IP_WINDOW_MS <= now
    ensures LiveAttempts(attempts, now) == []
  {
    if attempts != [] {
      StaleGivesNone(attempts[1..], now);
    }
  }

  lemma {:induction false} LiveAmong(attempts: seq<int>, now: int)
    ensures forall t :: t in LiveAttempts(attempts, now) ==> t in attempts
  {
    if attempts != [] {
      LiveAmong(attempts[1..], now);
    }
  }

  lemma SameLive(loud: Storage, quiet: Storage, ip: string, now: int)
    requires RatesAgree(loud.rates, quiet.rates, ip, now)
    ensures LiveAttempts(RateOf(loud, ip, now).attempts, now) == LiveAttempts(RateOf(quiet, ip, now).attempts, now)
    ensures Limited(loud, ip, now) == Limited(quiet, ip, now)
  {
    if ip in quiet.rates && ip !in loud.rates {
      StaleGivesNone(quiet.rates[ip].attempts, now);
    }
  }

  lemma AdmitAgrees(loud: Storage, quiet: Storage, ip: string, now: int)
    requires RatesAgree(loud.rates, quiet.rates, ip, now)
    ensures RatesAgree(Admit(loud, ip, now).rates, Admit(quiet, ip, now).rates, ip, now)
  {
    SameLive(loud, quiet, ip, now);
    var attempts := RateOf(quiet, ip, now).attempts;
    var live := LiveAttempts(attempts, now);
    LiveAmong(attempts, now);
    forall k | 0 <= k < |live| ensures live[k] <= now {
      assert live[k] in live;
    }
  }

  lemma RatesAgreeLater(loud: map<string, Rate>, quiet: map<string, Rate>, ip: string, now: int, later: int)
    requires RatesAgree(loud, quiet, ip, now) && now <= later
    ensures RatesAgree(loud, quiet, ip, later)
  {
  }

  lemma RatesAgreeStep(sweep: Sweep, loud: System, quiet: System, e: Event, ip: string, now: int)
    requires RatesAgree(loud.storage.rates, quiet.storage.rates, ip, now)
    requires Timed(e) ==> Clock(e) == now
    ensures RatesAgree(Next(loud, e).storage.rates, Muted(sweep, quiet, e).storage.rates, ip, now)
  {
    if e.AttemptEvent? {
      AttemptRates(loud.storage, e.code, e.ip, now);
      AttemptRates(quiet.storage, e.code, e.ip, now);
      if e.ip == ip {
        SameLive(loud.storage, quiet.storage, ip, now);
        AdmitAgrees(loud.storage, quiet.storage, ip, now);
      }
    } else {
      OtherRates(loud, e);
      OtherRates(quiet, e);
    }
  }

  /** The clock of the event just run, or any bound when it does not read the clock. */
  function InstantOf(e: Event, now: int): int {
    if Timed(e) then Clock(e) else now
  }

  lemma EarlierRun(es: seq<Event>, i: nat, now: int)
    requires 0 < i <= |es| && InTimeOrder(es, i) && Until(es, i, now)
    ensures InTimeOrder(es, i - 1) && Until(es, i - 1, InstantOf(es[i - 1], now)) && InstantOf(es[i - 1], now) <= now
  {
  }

  lemma {:induction false} RatesAgreeAlways(sweep: Sweep, es: seq<Event>, i: nat, ip: string, now: int)
    requires i <= |es| && InTimeOrder(es, i) && Until(es, i, now)
    ensures RatesAgree(At(START, es, i).storage.rates, AtMuted(sweep, es, i).storage.rates, ip, now)
  {
    if i > 0 {
      var at := InstantOf(es[i - 1], now);
      EarlierRun(es, i, now);
      RatesAgreeAlways(sweep, es, i - 1, ip, at);
      RatesAgreeStep(sweep, At(START, es, i - 1), AtMuted(sweep, es, i - 1), es[i - 1], ip, at);
      RatesAgreeLater(At(START, es, i).storage.rates, AtMuted(sweep, es, i).storage.rates, ip, at, now);
    }
  }

  /** Wherever alarms fire, the limiter decides every attempt as if none had. */
  lemma LimiterIgnoresAlarms(es: seq<Event>, i: nat)
    requires i < |es| && InTimeOrder(es, i + 1) && es[i].AttemptEvent?
    ensures var loud, quiet := At(START, es, i).storage, AtMuted(Nothing, es, i).storage;
      Limited(loud, es[i].ip, es[i].now) == Limited(quiet, es[i].ip, es[i].now)
  {
    RatesAgreeAlways(Nothing, es, i, es[i].ip, es[i].now);
    SameLive(At(START, es, i).storage, AtMuted(Nothing, es, i).storage, es[i].ip, es[i].now);
  }

  // ----- one code -----

  ghost predicate SamePair(loud: map<string, Pair>, quiet: map<string, Pair>, code: string) {
    (code in loud <==> code in quiet) && (code in loud ==> loud[code] == quiet[code])
  }

  /** The pair record is the same; cleanup may only have removed a failure count that had run out. */
  ghost predicate CodeAgrees(loud: Storage, quiet: Storage, code: string, now: int) {
    && SamePair(loud.pairs, quiet.pairs, code)
    && (code in loud.missing ==> code in quiet.missing && loud.missing[code] == quiet.missing[code])
    && (code in quiet.missing && code !in loud.missing ==> quiet.missing[code].expiresAt <= now)
  }

  lemma TrySame(loud: Storage, quiet: Storage, code: string, now: int)
    requires CodeAgrees(loud, quiet, code, now)
    ensures TryCode(loud, code, now).1 == TryCode(quiet, code, now).1
    ensures CodeAgrees(TryCode(loud, code, now).0, TryCode(quiet, code, now).0, code, now)
  {
  }

  lemma OtherTry(d: Storage, tried: string, code: string, now: int)
    requires tried != code
    ensures var after := TryCode(d, tried, now).0;
      && SamePair(after.pairs, d.pairs, code)
      && (code in after.missing <==> code in d.missing)
      && (code in d.missing ==> after.missing[code] == d.missing[code])
  {
  }

  lemma AttemptAgrees(loud: Storage, quiet: Storage, tried: string, ip: string, code: string, now: int)
    requires RatesAgree(loud.rates, quiet.rates, ip, now) && CodeAgrees(loud, quiet, code, now)
    ensures CodeAgrees(Authorize(loud, tried, ip, now).0, Authorize(quiet, tried, ip, now).0, code, now)
    ensures tried == code ==> Authorize(loud, tried, ip, now).1 == Authorize(quiet, tried, ip, now).1
  {
    SameLive(loud, quiet, ip, now);
    if !Limited(loud, ip, now) {
      var l, q := Admit(loud, ip, now), Admit(quiet, ip, now);
      if tried == code {
        TrySame(l, q, code, now);
      } else {
        OtherTry(l, tried, code, now);
        OtherTry(q, tried, code, now);
      }
    }
  }

  /** Events other than attempts and alarms leave failure counts alone. */
  lemma OtherMissing(s: System, e: Event)
    requires !e.AttemptEvent? && !e.AlarmEvent?
    ensures Next(s, e).storage.missing == s.storage.missing
  {
  }

  lemma RegisterSame(loud: Storage, quiet: Storage, e: Event, code: string)
    requires e.RegisterEvent? && SamePair(loud.pairs, quiet.pairs, code)
    ensures SamePair(
      Register(loud, e.code, e.expiresAt, e.sessionId, e.now).pairs,
      Register(quiet, e.code, e.expiresAt, e.sessionId, e.now).pairs, code)
  {
  }

  lemma ApproveSame(loud: Storage, quiet: Storage, e: Event, code: string)
    requires e.ApproveEvent? && SamePair(loud.pairs, quiet.pairs, code)
    ensures SamePair(
      Approve(loud, e.code, e.sessionId, e.approvedAt).pairs,
      Approve(quiet, e.code, e.sessionId, e.approvedAt).pairs, code)
  {
    if e.code != code {
      ApproveElsewhere(loud, e, code);
      ApproveElsewhere(quiet, e, code);
    }
  }

  lemma ApproveElsewhere(d: Storage, e: Event, code: string)
    requires e.ApproveEvent? && e.code != code
    ensures SamePair(Approve(d, e.code, e.sessionId, e.approvedAt).pairs, d.pairs, code)
  {
  }

  lemma RevokeSame(loud: Storage, quiet: Storage, e: Event, code: string)
    requires e.RevokeEvent? && SamePair(loud.pairs, quiet.pairs, code)
    ensures SamePair(Revoke(loud, e.code, e.sessionId).pairs, Revoke(quiet, e.code, e.sessionId).pairs, code)
  {
  }

  /** They do the same to the code's pair record wherever it is the same. */
  lemma OtherPairs(loud: System, quiet: System, e: Event, code: string)
    requires !e.AttemptEvent? && !e.AlarmEvent? && SamePair(loud.storage.pairs, quiet.storage.pairs, code)
    ensures SamePair(Next(loud, e).storage.pairs, Next(quiet, e).storage.pairs, code)
  {
    match e
    case RegisterEvent(_, _, _, _) => RegisterSame(loud.storage, quiet.storage, e, code);
    case ApproveEvent(_, _, _) => ApproveSame(loud.storage, quiet.storage, e, code);
    case RevokeEvent(_, _) => RevokeSame(loud.storage, quiet.storage, e, code);
    case ScheduleEvent(_) =>
  }

  /** The alarm deletes a pair record of this code. */
  ghost predicate Sweeps(s: System, e: Event, code: string) {
    e.AlarmEvent? && code in s.storage.pairs && s.storage.pairs[code].expiresAt <= e.now
  }

  lemma AlarmAgrees(sweep: Sweep, loud: System, quiet: System, e: Event, code: string)
    requires e.AlarmEvent? && CodeAgrees(loud.storage, quiet.storage, code, e.now)
    requires sweep.Nothing? ==> !Sweeps(loud, e, code)
    ensures CodeAgrees(Next(loud, e).storage, Muted(sweep, quiet, e).storage, code, e.now)
  {
  }

  lemma CodeAgreesStep(sweep: Sweep, loud: System, quiet: System, e: Event, code: string, now: int)
    requires CodeAgrees(loud.storage, quiet.storage, code, now) && (Timed(e) ==> Clock(e) == now)
    requires e.AttemptEvent? ==> RatesAgree(loud.storage.rates, quiet.storage.rates, e.ip, now)
    requires sweep.Nothing? ==> !Sweeps(loud, e, code)
    ensures CodeAgrees(Next(loud, e).storage, Muted(sweep, quiet, e).storage, code, now)
  {
    if e.AttemptEvent? {
      AttemptAgrees(loud.storage, quiet.storage, e.code, e.ip, code, now);
    } else if e.AlarmEvent? {
      AlarmAgrees(sweep, loud, quiet, e, code);
    } else {
      OtherMissing(loud, e);
      OtherMissing(quiet, e);
      OtherPairs(loud, quiet, e, code);
    }
  }

  lemma CodeAgreesLater(loud: Storage, quiet: Storage, code: string, now: int, later: int)
    requires CodeAgrees(loud, quiet, code, now) && now <= later
    ensures CodeAgrees(loud, quiet, code, later)
  {
  }

  /** No alarm so far deleted a pair record of this code. */
  ghost predicate NeverSwept(es: seq<Event>, i: nat, code: string)
    requires i <= |es|
  {
    forall k :: 0 <= k < i ==> !Sweeps(At(START, es, k), es[k], code)
  }

  lemma {:induction false} CodeAgreesAlways(sweep: Sweep, es: seq<Event>, i: nat, code: string, now: int)
    requires i <= |es| && InTimeOrder(es, i) && Until(es, i, now) && (sweep.Nothing? ==> NeverSwept(es, i, code))
    ensures CodeAgrees(At(START, es, i).storage, AtMuted(sweep, es, i).storage, code, now)
  {
    if i > 0 {
      var e, at := es[i - 1], InstantOf(es[i - 1], now);
      EarlierRun(es, i, now);
      assert sweep.Nothing? ==> NeverSwept(es, i - 1, code) && !Sweeps(At(START, es, i - 1), e, code);
      CodeAgreesAlways(sweep, es, i - 1, code, at);
      if e.AttemptEvent? {
        RatesAgreeAlways(sweep, es, i - 1, e.ip, at);
      }
      var loud, quiet := At(START, es, i - 1), AtMuted(sweep, es, i - 1);
      CodeAgreesStep(sweep, loud, quiet, e, code, at);
      CodeAgreesLater(Next(loud, e).storage, Muted(sweep, quiet, e).storage, code, at, now);
      assert At(START, es, i) == Next(loud, e) && AtMuted(sweep, es, i) == Muted(sweep, quiet, e);
    }
  }

  lemma AttemptSame(sweep: Sweep, es: seq<Event>, i: nat)
    requires i < |es| && InTimeOrder(es, i + 1) && es[i].AttemptEvent?
    requires sweep.Nothing? ==> NeverSwept(es, i, es[i].code)
    ensures Authorize(At(START, es, i).storage, es[i].code, es[i].ip, es[i].now).1
         == Authorize(AtMuted(sweep, es, i).storage, es[i].code, es[i].ip, es[i].now).1
  {
    var e := es[i];
    RatesAgreeAlways(sweep, es, i, e.ip, e.now);
    CodeAgreesAlways(sweep, es, i, e.code, e.now);
    AttemptAgrees(At(START, es, i).storage, AtMuted(sweep, es, i).storage, e.code, e.ip, e.code, e.now);
  }

  /**
  Deleting run-out rates and failure counts cannot be noticed: every attempt on every code, in every run, is
  answered as in the run whose alarms delete expired pair records only.
  */
  lemma OnlyPairCleanupShows(es: seq<Event>, i: nat)
    requires i < |es| && InTimeOrder(es, i + 1) && es[i].AttemptEvent?
    ensures Authorize(At(START, es, i).storage, es[i].code, es[i].ip, es[i].now).1
         == Authorize(AtMuted(PairsOnly, es, i).storage, es[i].code, es[i].ip, es[i].now).1
  {
    AttemptSame(PairsOnly, es, i);
  }

  lemma SameEverywhere(loud: map<string, Pair>, quiet: map<string, Pair>)
    requires forall code :: SamePair(loud, quiet, code)
    ensures loud == quiet
  {
    forall code ensures code in loud <==> code in quiet {
      assert SamePair(loud, quiet, code);
    }
    forall code | code in loud ensures loud[code] == quiet[code] {
      assert SamePair(loud, quiet, code);
    }
  }

  /** And the pair records are the same throughout, so registrations and approvals are answered alike too. */
  lemma PairsUndisturbed(es: seq<Event>, i: nat, now: int)
    requires i <= |es| && InTimeOrder(es, i) && Until(es, i, now)
    ensures At(START, es, i).storage.pairs == AtMuted(PairsOnly, es, i).storage.pairs
  {
    var loud, quiet := At(START, es, i).storage.pairs, AtMuted(PairsOnly, es, i).storage.pairs;
    forall code ensures SamePair(loud, quiet, code) {
      CodeAgreesAlways(PairsOnly, es, i, code, now);
    }
    SameEverywhere(loud, quiet);
  }

  /** An attempt on a code none of whose records an alarm has deleted is answered as if no alarm had ever fired. */
  lemma UnsweptCodesIgnoreAlarms(es: seq<Event>, i: nat)
    requires i < |es| && InTimeOrder(es, i + 1) && es[i].AttemptEvent? && NeverSwept(es, i, es[i].code)
    ensures Authorize(At(START, es, i).storage, es[i].code, es[i].ip, es[i].now).1
         == Authorize(AtMuted(Nothing, es, i).storage, es[i].code, es[i].ip, es[i].now).1
  {
    AttemptSame(Nothing, es, i);
  }

  // ----- where cleanup shows -----

  /** Cleaning up a pair record is visible to a registration exactly when the record had expired. */
  lemma RegistrationSeesCleanupIff(d: Storage, code: string, cleanedAt: int, expiresAt: int, now: int)
    requires expiresAt > now
    ensures CanRegister(Cleanup(d, cleanedAt), code, expiresAt, now) != CanRegister(d, code, expiresAt, now)
      <==> code in d.pairs && d.pairs[code].expiresAt <= cleanedAt
  {
  }

  ghost predicate NearLimit(failures: nat) {
    failures + 1 >= PAIRING_CODE_MAX_FAILURES
  }

  /**
  Cleaning up an expired pair record is visible to a later attempt exactly when the record's own
  failures and the failures counted for a missing code fall on different sides of the lockout.
  */
  lemma AttemptSeesCleanupIff(d: Storage, code: string, cleanedAt: int, now: int)
    requires cleanedAt <= now
    ensures TryCode(Cleanup(d, cleanedAt), code, now).1 != TryCode(d, code, now).1
      <==>
      && code in d.pairs && d.pairs[code].expiresAt <= cleanedAt
      && NearLimit(d.pairs[code].failedAttempts) != NearLimit(FailuresOf(d, code, now).count)
  {
  }
}
