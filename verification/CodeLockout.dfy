/**
Five failed attempts lock a registered code for good, counted over the run and not over what storage happens to
hold.
*/
module CodeLockout {
  import opened Common
  import opened Constants
  import opened DirectoryStorage
  import opened DirectoryRuns
  import opened AttemptLimiter

  /** The code can be handed over at this instant. */
  predicate Usable(pair: Pair, now: int) {
    pair.localApprovedAt.Some? && pair.expiresAt > now
  }

  ghost predicate Registers(es: seq<Event>, i: nat, code: string)
    requires i < |es|
  {
    es[i].RegisterEvent? && es[i].code == code
      && CanRegister(At(START, es, i).storage, code, es[i].expiresAt, es[i].now)
  }

  /** An attempt let through by the limiter that found the code registered but not usable. */
  ghost predicate Fails(es: seq<Event>, i: nat, code: string)
    requires i < |es|
  {
    && es[i].AttemptEvent? && es[i].code == code
    && var d := At(START, es, i).storage;
    !Limited(d, es[i].ip, es[i].now) && code in d.pairs && !Usable(d.pairs[code], es[i].now)
  }

  /** Failed attempts since the code was last registered, up to the limit. */
  ghost function Strikes(es: seq<Event>, i: nat, code: string): (n: nat)
    requires i <= |es|
    ensures n <= PAIRING_CODE_MAX_FAILURES
  {
    if i == 0 || Registers(es, i - 1, code) then 0
    else if Fails(es, i - 1, code) && Strikes(es, i - 1, code) < PAIRING_CODE_MAX_FAILURES then
      Strikes(es, i - 1, code) + 1
    else Strikes(es, i - 1, code)
  }

  /** What one event does to the failures counted on a record. */
  lemma CountedStep(s: System, e: Event, code: string)
    requires code in Next(s, e).storage.pairs
    ensures var after := Next(s, e).storage.pairs[code].failedAttempts; var d := s.storage;
      if e.RegisterEvent? && e.code == code && CanRegister(d, code, e.expiresAt, e.now) then after == 0
      else
        && code in d.pairs
        && var before := d.pairs[code].failedAttempts;
        after == before +
          if e.AttemptEvent? && e.code == code && !Limited(d, e.ip, e.now) && !Usable(d.pairs[code], e.now)
            && before < PAIRING_CODE_MAX_FAILURES
          then 1 else 0
  {
  }

  lemma {:induction false} StrikesAreCounted(es: seq<Event>, i: nat, code: string)
    requires i <= |es| && code in At(START, es, i).storage.pairs
    ensures At(START, es, i).storage.pairs[code].failedAttempts == Strikes(es, i, code)
  {
    var s, e := At(START, es, i - 1), es[i - 1];
    CountedStep(s, e, code);
    if !Registers(es, i - 1, code) {
      StrikesAreCounted(es, i - 1, code);
    }
  }

  /**
  An attempt obtains the session exactly when the limiter lets it through and the code is registered, usable and
  not struck out.
  */
  lemma HandedOverIff(es: seq<Event>, i: nat)
    requires i < |es| && es[i].AttemptEvent?
    ensures var d, e := At(START, es, i).storage, es[i];
      Authorize(d, e.code, e.ip, e.now).1.Authorized? <==>
        && !Limited(d, e.ip, e.now) && e.code in d.pairs && Usable(d.pairs[e.code], e.now)
        && Strikes(es, i, e.code) < PAIRING_CODE_MAX_FAILURES
  {
    if es[i].code in At(START, es, i).storage.pairs {
      StrikesAreCounted(es, i, es[i].code);
    }
  }

  ghost predicate NotRegistered(es: seq<Event>, i: nat, j: nat, code: string)
    requires i <= j <= |es|
  {
    forall k :: i <= k < j ==> !Registers(es, k, code)
  }

  lemma StrikesNext(es: seq<Event>, i: nat, code: string)
    requires i < |es| && !Registers(es, i, code)
    ensures Strikes(es, i, code) <= Strikes(es, i + 1, code)
  {
  }

  lemma {:induction false} StrikesStay(es: seq<Event>, i: nat, j: nat, code: string)
    requires i <= j <= |es| && NotRegistered(es, i, j, code)
    ensures Strikes(es, i, code) <= Strikes(es, j, code)
    decreases j
  {
    if i < j {
      StrikesStay(es, i, j - 1, code);
      StrikesNext(es, j - 1, code);
    }
  }

  /** A code struck out is never handed over again, unless it is registered anew. */
  lemma StruckOutForGood(es: seq<Event>, i: nat, j: nat, code: string)
    requires i <= j < |es| && es[j].AttemptEvent? && es[j].code == code
    requires Strikes(es, i, code) == PAIRING_CODE_MAX_FAILURES && NotRegistered(es, i, j, code)
    ensures !Authorize(At(START, es, j).storage, code, es[j].ip, es[j].now).1.Authorized?
  {
    StrikesStay(es, i, j, code);
    HandedOverIff(es, j);
  }
}
