/**
When the alarm is noticed. A run is compared with the run in which no alarm deletes anything: the answers about a
code are the same up to the end exactly when none of three things happens, each a fact about the state before the
call.
*/
module AlarmVisibility {
  import opened Common
  import opened Constants
  import opened DirectoryStorage
  import opened DirectoryRuns
  import opened AttemptLimiter
  import opened AlarmTransparency

  /** An expired record that an alarm deleted, as it would be had it stayed. */
  datatype Swept = Swept(sessionId: string, expiresAt: int, failures: nat)

  function SweptOf(p: Pair): Swept {
    Swept(p.sessionId, p.expiresAt, p.failedAttempts)
  }

  /** It would have counted every try that the limiter let through, until its session revoked it. */
  ghost function NextSwept(s: System, e: Event, code: string, before: Option<Swept>): Option<Swept> {
    if Sweeps(s, e, code) then Some(SweptOf(s.storage.pairs[code]))
    else if before.None? then None
    else if e == RevokeEvent(code, before.value.sessionId) then None
    else if e.AttemptEvent? && e.code == code && !Limited(s.storage, e.ip, e.now)
      && before.value.failures < PAIRING_CODE_MAX_FAILURES
    then Some(before.value.(failures := before.value.failures + 1))
    else before
  }

  /** The deleted record of the code, if it would still be there. */
  ghost function SweptAt(es: seq<Event>, i: nat, code: string): Option<Swept>
    requires i <= |es|
  {
    if i == 0 then None else NextSwept(At(START, es, i - 1), es[i - 1], code, SweptAt(es, i - 1, code))
  }

  /** The two runs hold the same record of the code, or the quiet one alone holds the deleted one. */
  ghost predicate Shadowed(loud: Storage, quiet: Storage, swept: Option<Swept>, code: string, now: int) {
    && (code in loud.pairs ==> swept.None? && code in quiet.pairs && quiet.pairs[code] == loud.pairs[code])
    && (code !in loud.pairs && code in quiet.pairs ==>
      quiet.pairs[code].expiresAt <= now && swept == Some(SweptOf(quiet.pairs[code])))
    && (swept.Some? ==> code in quiet.pairs)
  }

  ghost predicate RegisteredAlike(loud: Storage, quiet: Storage, e: Event)
    requires e.RegisterEvent?
  {
    CanRegister(loud, e.code, e.expiresAt, e.now) == CanRegister(quiet, e.code, e.expiresAt, e.now)
  }

  // ----- one event -----

  ghost predicate StepShadowed(
    loud: System, quiet: System, e: Event, swept: Option<Swept>, code: string, now: int)
  {
    Shadowed(Next(loud, e).storage, Muted(Nothing, quiet, e).storage, NextSwept(loud, e, code, swept), code, now)
  }

  lemma RegisterShadowed(loud: System, quiet: System, e: Event, swept: Option<Swept>, code: string, now: int)
    requires e.RegisterEvent? && Shadowed(loud.storage, quiet.storage, swept, code, now)
    requires e.code == code ==> RegisteredAlike(loud.storage, quiet.storage, e)
    ensures StepShadowed(loud, quiet, e, swept, code, now)
  {
  }

  lemma ApproveShadowed(loud: System, quiet: System, e: Event, swept: Option<Swept>, code: string, now: int)
    requires e.ApproveEvent? && Shadowed(loud.storage, quiet.storage, swept, code, now)
    ensures StepShadowed(loud, quiet, e, swept, code, now)
  {
    if e.code != code {
      ApproveElsewhere(loud.storage, e, code);
      ApproveElsewhere(quiet.storage, e, code);
    }
  }

  lemma RevokeShadowed(loud: System, quiet: System, e: Event, swept: Option<Swept>, code: string, now: int)
    requires e.RevokeEvent? && Shadowed(loud.storage, quiet.storage, swept, code, now)
    ensures StepShadowed(loud, quiet, e, swept, code, now)
  {
  }

  lemma TryShadowed(loud: Storage, quiet: Storage, swept: Option<Swept>, code: string, now: int)
    requires Shadowed(loud, quiet, swept, code, now)
    ensures
      var more :=
        if swept.Some? && swept.value.failures < PAIRING_CODE_MAX_FAILURES
        then Some(swept.value.(failures := swept.value.failures + 1)) else swept;
      Shadowed(TryCode(loud, code, now).0, TryCode(quiet, code, now).0, more, code, now)
  {
  }

  lemma AttemptShadowed(loud: System, quiet: System, e: Event, swept: Option<Swept>, code: string, now: int)
    requires e.AttemptEvent? && e.now == now && Shadowed(loud.storage, quiet.storage, swept, code, now)
    requires RatesAgree(loud.storage.rates, quiet.storage.rates, e.ip, now)
    ensures StepShadowed(loud, quiet, e, swept, code, now)
  {
    SameLive(loud.storage, quiet.storage, e.ip, e.now);
    if !Limited(loud.storage, e.ip, e.now) {
      var l, q := Admit(loud.storage, e.ip, e.now), Admit(quiet.storage, e.ip, e.now);
      if e.code == code {
        TryShadowed(l, q, swept, code, e.now);
      } else {
        OtherTry(l, e.code, code, e.now);
        OtherTry(q, e.code, code, e.now);
      }
    }
  }

  lemma AlarmShadowed(loud: System, quiet: System, e: Event, swept: Option<Swept>, code: string, now: int)
    requires e.AlarmEvent? && e.now == now && Shadowed(loud.storage, quiet.storage, swept, code, now)
    ensures StepShadowed(loud, quiet, e, swept, code, now)
  {
  }

  lemma ScheduledPairs(s: System, e: Event)
    requires e.ScheduleEvent?
    ensures Next(s, e).storage.pairs == s.storage.pairs
  {
  }

  lemma ScheduleShadowed(loud: System, quiet: System, e: Event, swept: Option<Swept>, code: string, now: int)
    requires e.ScheduleEvent? && Shadowed(loud.storage, quiet.storage, swept, code, now)
    ensures StepShadowed(loud, quiet, e, swept, code, now)
  {
    ScheduledPairs(loud, e);
    ScheduledPairs(quiet, e);
  }

  lemma ShadowedStep(loud: System, quiet: System, e: Event, swept: Option<Swept>, code: string, now: int)
    requires Shadowed(loud.storage, quiet.storage, swept, code, now) && (Timed(e) ==> Clock(e) == now)
    requires e.AttemptEvent? ==> RatesAgree(loud.storage.rates, quiet.storage.rates, e.ip, now)
    requires e.RegisterEvent? && e.code == code ==> RegisteredAlike(loud.storage, quiet.storage, e)
    ensures StepShadowed(loud, quiet, e, swept, code, now)
  {
    match e
    case RegisterEvent(_, _, _, _) => RegisterShadowed(loud, quiet, e, swept, code, now);
    case ApproveEvent(_, _, _) => ApproveShadowed(loud, quiet, e, swept, code, now);
    case AttemptEvent(_, _, _) => AttemptShadowed(loud, quiet, e, swept, code, now);
    case RevokeEvent(_, _) => RevokeShadowed(loud, quiet, e, swept, code, now);
    case ScheduleEvent(_) => ScheduleShadowed(loud, quiet, e, swept, code, now);
    case AlarmEvent(_) => AlarmShadowed(loud, quiet, e, swept, code, now);
  }

  lemma ShadowedLater(loud: Storage, quiet: Storage, swept: Option<Swept>, code: string, now: int, later: int)
    requires Shadowed(loud, quiet, swept, code, now) && now <= later
    ensures Shadowed(loud, quiet, swept, code, later)
  {
  }

  // ----- runs -----

  /** Registrations of the code up to here were accepted or refused as without alarms. */
  ghost predicate RegistrationsAlike(es: seq<Event>, i: nat, code: string)
    requires i <= |es|
  {
    forall k :: 0 <= k < i && es[k].RegisterEvent? && es[k].code == code ==>
      RegisteredAlike(At(START, es, k).storage, AtMuted(Nothing, es, k).storage, es[k])
  }

  ghost predicate ShadowedAt(es: seq<Event>, i: nat, code: string, now: int)
    requires i <= |es|
  {
    Shadowed(At(START, es, i).storage, AtMuted(Nothing, es, i).storage, SweptAt(es, i, code), code, now)
  }

  lemma ShadowedNext(es: seq<Event>, i: nat, code: string, at: int)
    requires i < |es| && InTimeOrder(es, i) && Until(es, i, at) && (Timed(es[i]) ==> Clock(es[i]) == at)
    requires ShadowedAt(es, i, code, at) && RegistrationsAlike(es, i + 1, code)
    ensures ShadowedAt(es, i + 1, code, at)
  {
    var e := es[i];
    if e.AttemptEvent? {
      RatesAgreeAlways(Nothing, es, i, e.ip, at);
    }
    ShadowedStep(At(START, es, i), AtMuted(Nothing, es, i), e, SweptAt(es, i, code), code, at);
  }

  /** The run up to here, read no later than now, with its registrations of the code answered alike. */
  ghost predicate Comparable(es: seq<Event>, i: nat, code: string, now: int)
    requires i <= |es|
  {
    InTimeOrder(es, i) && Until(es, i, now) && RegistrationsAlike(es, i, code)
  }

  lemma ComparableBefore(es: seq<Event>, i: nat, code: string, now: int)
    requires 0 < i <= |es| && Comparable(es, i, code, now)
    ensures Comparable(es, i - 1, code, InstantOf(es[i - 1], now))
  {
    EarlierRun(es, i, now);
  }

  lemma ShadowedFrom(es: seq<Event>, i: nat, code: string, now: int)
    requires 0 < i <= |es| && Comparable(es, i, code, now)
    requires ShadowedAt(es, i - 1, code, InstantOf(es[i - 1], now))
    ensures ShadowedAt(es, i, code, now)
  {
    var at := InstantOf(es[i - 1], now);
    EarlierRun(es, i, now);
    ShadowedNext(es, i - 1, code, at);
    ShadowedLater(At(START, es, i).storage, AtMuted(Nothing, es, i).storage, SweptAt(es, i, code), code, at, now);
  }

  lemma ShadowedAtStart(es: seq<Event>, code: string, now: int)
    ensures ShadowedAt(es, 0, code, now)
  {
  }

  lemma {:induction false} ShadowedAlways(es: seq<Event>, i: nat, code: string, now: int)
    requires i <= |es| && Comparable(es, i, code, now)
    ensures ShadowedAt(es, i, code, now)
  {
    if i == 0 {
      ShadowedAtStart(es, code, now);
    } else {
      ComparableBefore(es, i, code, now);
      ShadowedAlways(es, i - 1, code, InstantOf(es[i - 1], now));
      ShadowedFrom(es, i, code, now);
    }
  }

  // ----- what is answered -----

  /** The event is about this code and its answer, if it gets one, is the same in both runs. */
  ghost predicate AnsweredAlike(loud: Storage, quiet: Storage, e: Event, code: string) {
    && (e.RegisterEvent? && e.code == code ==> RegisteredAlike(loud, quiet, e))
    && (e.ApproveEvent? && e.code == code ==>
      CanApprove(loud, code, e.sessionId, e.approvedAt) == CanApprove(quiet, code, e.sessionId, e.approvedAt))
    && (e.AttemptEvent? && e.code == code ==>
      Authorize(loud, code, e.ip, e.now).1 == Authorize(quiet, code, e.ip, e.now).1)
  }

  /** A deleted record stands in the way of a registration that has not run out itself. */
  ghost predicate RegistrationShows(e: Event, swept: Option<Swept>) {
    e.RegisterEvent? && e.expiresAt > e.now && swept.Some?
  }

  /** Its own session approves it late, with a clock reading from before its expiry. */
  ghost predicate ApprovalShows(e: Event, swept: Option<Swept>) {
    && e.ApproveEvent? && swept.Some?
    && e.sessionId == swept.value.sessionId && e.approvedAt < swept.value.expiresAt
  }

  /**
  The limiter lets a try through, there is no record, and the failures counted for the missing code are on one side
  of the lockout, those of the deleted record, or of the missing code without alarms once it is revoked, on the other.
  */
  ghost predicate AttemptShows(loud: Storage, quiet: Storage, e: Event, code: string, swept: Option<Swept>) {
    && e.AttemptEvent? && !Limited(loud, e.ip, e.now) && code !in loud.pairs
    && var without := if swept.Some? then swept.value.failures else FailuresOf(quiet, code, e.now).count;
      NearLimit(FailuresOf(loud, code, e.now).count) != NearLimit(without)
  }

  ghost predicate Shows(es: seq<Event>, i: nat, code: string)
    requires i < |es|
  {
    var e, swept := es[i], SweptAt(es, i, code);
    && (e.RegisterEvent? || e.ApproveEvent? || e.AttemptEvent?) && e.code == code
    && (RegistrationShows(e, swept) || ApprovalShows(e, swept)
      || AttemptShows(At(START, es, i).storage, AtMuted(Nothing, es, i).storage, e, code, swept))
  }

  ghost predicate Alike(es: seq<Event>, i: nat, code: string)
    requires i < |es|
  {
    AnsweredAlike(At(START, es, i).storage, AtMuted(Nothing, es, i).storage, es[i], code)
  }

  lemma TryDiffersIff(loud: Storage, quiet: Storage, e: Event, swept: Option<Swept>, code: string)
    requires e.AttemptEvent? && Shadowed(loud, quiet, swept, code, e.now)
    ensures TryCode(loud, code, e.now).1 != TryCode(quiet, code, e.now).1 <==>
      && code !in loud.pairs
      && var without := if swept.Some? then swept.value.failures else FailuresOf(quiet, code, e.now).count;
        NearLimit(FailuresOf(loud, code, e.now).count) != NearLimit(without)
  {
  }

  lemma AttemptDiffersIff(loud: Storage, quiet: Storage, e: Event, swept: Option<Swept>, code: string)
    requires e.AttemptEvent? && e.code == code && Shadowed(loud, quiet, swept, code, e.now)
    requires RatesAgree(loud.rates, quiet.rates, e.ip, e.now)
    ensures !AnsweredAlike(loud, quiet, e, code) <==> AttemptShows(loud, quiet, e, code, swept)
  {
    SameLive(loud, quiet, e.ip, e.now);
    if !Limited(loud, e.ip, e.now) {
      var l, q := Admit(loud, e.ip, e.now), Admit(quiet, e.ip, e.now);
      TryDiffersIff(l, q, e, swept, code);
      assert FailuresOf(l, code, e.now) == FailuresOf(loud, code, e.now);
      assert FailuresOf(q, code, e.now) == FailuresOf(quiet, code, e.now);
    }
  }

  lemma RegistrationDiffersIff(
    loud: Storage, quiet: Storage, e: Event, swept: Option<Swept>, code: string, now: int)
    requires e.RegisterEvent? && e.code == code && Shadowed(loud, quiet, swept, code, now)
    ensures !AnsweredAlike(loud, quiet, e, code) <==> RegistrationShows(e, swept)
  {
  }

  lemma ApprovalDiffersIff(loud: Storage, quiet: Storage, e: Event, swept: Option<Swept>, code: string, now: int)
    requires e.ApproveEvent? && e.code == code && Shadowed(loud, quiet, swept, code, now)
    ensures !AnsweredAlike(loud, quiet, e, code) <==> ApprovalShows(e, swept)
  {
  }

  /** As long as registrations of the code were answered alike, any answer about it differs exactly when it shows. */
  lemma DiffersIff(es: seq<Event>, i: nat, code: string, now: int)
    requires i < |es| && InTimeOrder(es, i + 1) && Until(es, i + 1, now) && RegistrationsAlike(es, i, code)
    ensures !Alike(es, i, code) <==> Shows(es, i, code)
  {
    var e, loud, quiet := es[i], At(START, es, i).storage, AtMuted(Nothing, es, i).storage;
    var at := InstantOf(e, now);
    EarlierRun(es, i + 1, now);
    ShadowedAlways(es, i, code, at);
    if e.AttemptEvent? && e.code == code {
      RatesAgreeAlways(Nothing, es, i, e.ip, at);
      AttemptDiffersIff(loud, quiet, e, SweptAt(es, i, code), code);
    } else if e.RegisterEvent? && e.code == code {
      RegistrationDiffersIff(loud, quiet, e, SweptAt(es, i, code), code, at);
    } else if e.ApproveEvent? && e.code == code {
      ApprovalDiffersIff(loud, quiet, e, SweptAt(es, i, code), code, at);
    }
  }

  lemma AlikeNext(es: seq<Event>, i: nat, code: string)
    requires i < |es| && RegistrationsAlike(es, i, code) && Alike(es, i, code)
    ensures RegistrationsAlike(es, i + 1, code)
  {
  }

  lemma UntilEarlier(es: seq<Event>, i: nat, now: int)
    requires i <= |es| && InTimeOrder(es, |es|) && Until(es, |es|, now)
    ensures InTimeOrder(es, i) && Until(es, i, now)
  {
  }

  /** Registrations stay alike as long as nothing about the code shows. */
  lemma RegistrationsStayAlike(es: seq<Event>, code: string, now: int)
    requires InTimeOrder(es, |es|) && Until(es, |es|, now)
    requires (forall i :: 0 <= i < |es| ==> Alike(es, i, code)) || forall i :: 0 <= i < |es| ==> !Shows(es, i, code)
    ensures forall i :: 0 <= i <= |es| ==> RegistrationsAlike(es, i, code)
  {
    for k := 0 to |es|
      invariant forall i :: 0 <= i <= k ==> RegistrationsAlike(es, i, code)
    {
      UntilEarlier(es, k + 1, now);
      DiffersIff(es, k, code, now);
      AlikeNext(es, k, code);
    }
  }

  /**
  The alarms of a run go unnoticed by everyone who registers, approves or tries this code exactly when no event
  about it shows.
  */
  lemma AlarmsUnnoticedIff(es: seq<Event>, code: string, now: int)
    requires InTimeOrder(es, |es|) && Until(es, |es|, now)
    ensures (forall i :: 0 <= i < |es| ==> Alike(es, i, code))
      <==> forall i :: 0 <= i < |es| ==> !Shows(es, i, code)
  {
    if (forall i :: 0 <= i < |es| ==> Alike(es, i, code)) || forall i :: 0 <= i < |es| ==> !Shows(es, i, code) {
      RegistrationsStayAlike(es, code, now);
      forall i | 0 <= i < |es| ensures !Alike(es, i, code) <==> Shows(es, i, code) {
        UntilEarlier(es, i + 1, now);
        DiffersIff(es, i, code, now);
      }
    }
  }
}
