/**
How often guessing a code that has no record can be answered. The lockout counts in fixed windows that start
with the first miss, so any fifteen minutes see one full window's answers and all but the first of the one
before. Seven answers fit, not four; when four is kept is characterised exactly.
*/
module CodeGuesses {
  import opened Common
  import opened Constants
  import opened DirectoryStorage
  import opened DirectoryRuns
  import opened AttemptLimiter
  import opened AlarmTransparency

  /** Misses answered in one counting window: the fifth locks. */
  const PER_WINDOW: nat := PAIRING_CODE_MAX_FAILURES - 1

  /** An attempt on a code without a record, whatever happened to the code before, answered as invalid. */
  ghost predicate IsMiss(es: seq<Event>, i: nat, code: string)
    requires i < |es|
  {
    && es[i].AttemptEvent? && es[i].code == code && code !in At(START, es, i).storage.pairs
    && Authorize(At(START, es, i).storage, code, es[i].ip, es[i].now).1 == Invalid
  }

  /** The clock readings of the attempts on this code that were answered as invalid, oldest first. */
  ghost function Misses(es: seq<Event>, i: nat, code: string): seq<int>
    requires i <= |es|
  {
    if i == 0 then []
    else if IsMiss(es, i - 1, code) then Misses(es, i - 1, code) + [es[i - 1].now]
    else Misses(es, i - 1, code)
  }

  /**
  The misses of the current counting window are the last ones. It starts with the first of them; all but the
  last few before it are a full window older.
  */
  ghost predicate Counted(h: seq<int>, failures: Failures) {
    var start := failures.expiresAt - PAIRING_IP_WINDOW_MS;
    var inside := if failures.count < PER_WINDOW then failures.count else PER_WINDOW;
    && 1 <= inside <= |h|
    && (forall k :: 0 <= k < |h| - inside + 1 ==> h[k] <= start)
    && (forall k :: 0 <= k < |h| - inside - (PER_WINDOW - 1) ==> h[k] + PAIRING_IP_WINDOW_MS <= start)
  }

  /** Only the last misses of a window, and never its first, may be recent. */
  ghost predicate Settled(h: seq<int>, now: int) {
    forall k :: 0 <= k < |h| - (PER_WINDOW - 1) ==> h[k] + PAIRING_IP_WINDOW_MS <= now
  }

  ghost predicate Guarded(missing: map<string, Failures>, code: string, h: seq<int>, now: int) {
    && Ordered(h) && Spaced(h, 2 * PER_WINDOW - 1) && (forall k :: 0 <= k < |h| ==> h[k] <= now)
    && (code in missing ==> Counted(h, missing[code]) && missing[code].expiresAt <= now + PAIRING_IP_WINDOW_MS)
    && (code !in missing ==> Settled(h, now))
  }

  /** The window an attempt counts in: what its start says about the misses so far. */
  lemma WindowOf(d: Storage, code: string, h: seq<int>, now: int)
    requires Guarded(d.missing, code, h, now)
    ensures var f := FailuresOf(d, code, now);
      && f.expiresAt - PAIRING_IP_WINDOW_MS <= now < f.expiresAt
      && ((f.count == 0 && f.expiresAt == now + PAIRING_IP_WINDOW_MS && Settled(h, now)) || Counted(h, f))
  {
  }

  lemma MissAppended(h: seq<int>, f: Failures, now: int)
    requires Ordered(h) && Spaced(h, 2 * PER_WINDOW - 1) && forall k :: 0 <= k < |h| ==> h[k] <= now
    requires f.expiresAt - PAIRING_IP_WINDOW_MS <= now && f.count < PER_WINDOW
    requires (f.count == 0 && f.expiresAt == now + PAIRING_IP_WINDOW_MS && Settled(h, now)) || Counted(h, f)
    ensures var longer := h + [now];
      Ordered(longer) && Spaced(longer, 2 * PER_WINDOW - 1) && Counted(longer, f.(count := f.count + 1))
  {
  }

  /** What a try of an unregistered code does to its failure count. */
  lemma TryOutcome(d: Storage, code: string, now: int)
    requires code !in d.pairs
    ensures var (after, outcome) := TryCode(d, code, now); var f := FailuresOf(d, code, now);
      && (outcome == Invalid <==> f.count < PER_WINDOW)
      && after.missing ==
        if f.count < PAIRING_CODE_MAX_FAILURES then d.missing[code := f.(count := f.count + 1)] else d.missing
  {
  }

  lemma TryGuarded(d: Storage, code: string, h: seq<int>, now: int)
    requires Guarded(d.missing, code, h, now) && code !in d.pairs
    ensures var (after, outcome) := TryCode(d, code, now);
      Guarded(after.missing, code, if outcome == Invalid then h + [now] else h, now)
  {
    var f := FailuresOf(d, code, now);
    TryOutcome(d, code, now);
    WindowOf(d, code, h, now);
    if f.count < PER_WINDOW {
      MissAppended(h, f, now);
    }
  }

  /** An attempt on a code that has a record leaves the failure count alone. */
  lemma ListedTry(d: Storage, code: string, now: int)
    requires code in d.pairs
    ensures TryCode(d, code, now).0.missing == d.missing
  {
  }

  lemma AttemptGuarded(d: Storage, tried: string, ip: string, code: string, h: seq<int>, now: int)
    requires Guarded(d.missing, code, h, now)
    ensures var (after, outcome) := Authorize(d, tried, ip, now);
      var missed := tried == code && code !in d.pairs && outcome == Invalid;
      Guarded(after.missing, code, if missed then h + [now] else h, now)
  {
    if !Limited(d, ip, now) {
      var admitted := Admit(d, ip, now);
      if tried != code {
        OtherTry(admitted, tried, code, now);
      } else if code in d.pairs {
        ListedTry(admitted, code, now);
      } else {
        TryGuarded(admitted, code, h, now);
      }
    }
  }

  lemma CleanupGuarded(missing: map<string, Failures>, code: string, h: seq<int>, now: int)
    requires Guarded(missing, code, h, now)
    ensures Guarded(LiveMissing(missing, now), code, h, now)
  {
  }

  lemma GuardedLater(missing: map<string, Failures>, code: string, h: seq<int>, now: int, later: int)
    requires Guarded(missing, code, h, now) && now <= later
    ensures Guarded(missing, code, h, later)
  {
  }

  lemma GuardedStep(s: System, e: Event, code: string, h: seq<int>, now: int)
    requires Guarded(s.storage.missing, code, h, now) && (Timed(e) ==> Clock(e) == now)
    ensures
      var missed := e.AttemptEvent? && e.code == code && code !in s.storage.pairs
        && Authorize(s.storage, code, e.ip, e.now).1 == Invalid;
      Guarded(Next(s, e).storage.missing, code, if missed then h + [e.now] else h, now)
  {
    if e.AttemptEvent? {
      AttemptGuarded(s.storage, e.code, e.ip, code, h, now);
    } else if e.AlarmEvent? {
      CleanupGuarded(s.storage.missing, code, h, now);
    } else {
      OtherMissing(s, e);
    }
  }

  lemma GuardedNext(es: seq<Event>, i: nat, code: string, now: int)
    requires i < |es| && Guarded(At(START, es, i).storage.missing, code, Misses(es, i, code), now)
    requires Timed(es[i]) ==> Clock(es[i]) == now
    ensures Guarded(At(START, es, i + 1).storage.missing, code, Misses(es, i + 1, code), now)
  {
    GuardedStep(At(START, es, i), es[i], code, Misses(es, i, code), now);
  }

  lemma {:induction false} GuardedAlways(es: seq<Event>, i: nat, code: string, now: int)
    requires i <= |es| && InTimeOrder(es, i) && Until(es, i, now)
    ensures Guarded(At(START, es, i).storage.missing, code, Misses(es, i, code), now)
  {
    if i > 0 {
      var at := InstantOf(es[i - 1], now);
      EarlierRun(es, i, now);
      GuardedAlways(es, i - 1, code, at);
      GuardedNext(es, i - 1, code, at);
      GuardedLater(At(START, es, i).storage.missing, code, Misses(es, i, code), at, now);
    }
  }

  /**
  Every half-open window of fifteen minutes holds at most seven attempts answered as invalid for a code without
  a record.
  */
  lemma AtMostSevenMisses(es: seq<Event>, code: string, from: int, now: int)
    requires InTimeOrder(es, |es|) && Until(es, |es|, now)
    ensures |InWindow(Misses(es, |es|, code), from)| <= 7
  {
    GuardedAlways(es, |es|, code, now);
    SpacedWindow(Misses(es, |es|, code), 2 * PER_WINDOW - 1, from);
  }

  // ----- seven are answered -----

  /** A window opened by a lone guess, spent in its last instants, and the next one spent at once. */
  function InstantOfGuess(t: int, k: nat): int {
    if k == 0 then t else t + PAIRING_IP_WINDOW_MS - PER_WINDOW + k
  }

  predicate AreGuesses(es: seq<Event>, code: string, t: int) {
    |es| == 2 * PER_WINDOW && forall k :: 0 <= k < |es| ==> es[k] == AttemptEvent(code, "", InstantOfGuess(t, k))
  }

  /** The failure count after so many of them. */
  function CountAfter(t: int, i: nat): Failures {
    if i <= PER_WINDOW then Failures(i, t + PAIRING_IP_WINDOW_MS)
    else Failures(i - PER_WINDOW, t + 2 * PAIRING_IP_WINDOW_MS)
  }

  ghost predicate GuessedSoFar(s: System, h: seq<int>, code: string, t: int, i: nat) {
    && code !in s.storage.pairs && |h| == i
    && (forall k :: 0 <= k < i ==> h[k] == InstantOfGuess(t, k))
    && (if i == 0 then code !in s.storage.missing
        else code in s.storage.missing && s.storage.missing[code] == CountAfter(t, i))
  }

  lemma {:induction false} FewAdmitted(es: seq<Event>, i: nat, ip: string)
    requires i <= |es|
    ensures |Admitted(es, i, ip)| <= i
  {
    if i > 0 {
      FewAdmitted(es, i - 1, ip);
    }
  }

  lemma GuessAnswered(s: System, h: seq<int>, code: string, t: int, i: nat)
    requires i < 2 * PER_WINDOW && GuessedSoFar(s, h, code, t, i)
    requires !Limited(s.storage, "", InstantOfGuess(t, i))
    ensures var now := InstantOfGuess(t, i);
      && Authorize(s.storage, code, "", now).1 == Invalid
      && GuessedSoFar(Next(s, AttemptEvent(code, "", now)), h + [now], code, t, i + 1)
  {
    TryOutcome(Admit(s.storage, "", InstantOfGuess(t, i)), code, InstantOfGuess(t, i));
  }

  lemma {:induction false} GuessesAnswered(es: seq<Event>, code: string, t: int, i: nat)
    requires AreGuesses(es, code, t) && i <= |es|
    ensures GuessedSoFar(At(START, es, i), Misses(es, i, code), code, t, i)
  {
    if i > 0 {
      GuessesAnswered(es, code, t, i - 1);
      FewAdmitted(es, i - 1, "");
      RefusedOnlyWhenFull(es, i - 1);
      GuessAnswered(At(START, es, i - 1), Misses(es, i - 1, code), code, t, i - 1);
      assert IsMiss(es, i - 1, code);
    }
  }

  /** The bound is reached: eight guesses, all answered, seven of them within fifteen minutes. */
  lemma SevenAnswered(es: seq<Event>, code: string, t: int)
    requires AreGuesses(es, code, t)
    ensures InTimeOrder(es, |es|)
    ensures |InWindow(Misses(es, |es|, code), t + PAIRING_IP_WINDOW_MS - (PER_WINDOW - 1))| == 7
  {
    var h, from := Misses(es, |es|, code), t + PAIRING_IP_WINDOW_MS - (PER_WINDOW - 1);
    GuessesAnswered(es, code, t, |es|);
    forall k | 0 <= k < |h| ensures k in InWindow(h, from) <==> k in Interval(1, 7) {
      assert h[k] == InstantOfGuess(t, k);
    }
    assert InWindow(h, from) == Interval(1, 7);
    IntervalCardinality(1, 7);
  }

  // ----- when four is the bound -----

  /**
  What an attempt that goes over meets: no record, a limiter that lets it through, a counting window already
  opened and not yet spent, and four answers less than fifteen minutes old, some of them of the window before.
  */
  ghost predicate Overruns(es: seq<Event>, i: nat, code: string)
    requires i < |es|
  {
    var e, d, h := es[i], At(START, es, i).storage, Misses(es, i, code);
    && e.AttemptEvent? && e.code == code
    && code !in d.pairs && !Limited(d, e.ip, e.now)
    && 1 <= FailuresOf(d, code, e.now).count < PER_WINDOW
    && |h| >= PER_WINDOW && e.now < h[|h| - PER_WINDOW] + PAIRING_IP_WINDOW_MS
  }

  /** The fourth miss back, if there is one, is out of the window. */
  ghost predicate Room(h: seq<int>, now: int) {
    |h| >= PER_WINDOW ==> h[|h| - PER_WINDOW] + PAIRING_IP_WINDOW_MS <= now
  }

  /** The guards decide: answered as invalid means no record, let through by the limiter, window not spent. */
  lemma MissIff(es: seq<Event>, i: nat, code: string)
    requires i < |es| && es[i].AttemptEvent? && es[i].code == code
    ensures var e, d := es[i], At(START, es, i).storage;
      IsMiss(es, i, code) <==>
        code !in d.pairs && !Limited(d, e.ip, e.now) && FailuresOf(d, code, e.now).count < PER_WINDOW
  {
    var e, d := es[i], At(START, es, i).storage;
    if code !in d.pairs {
      TryOutcome(Admit(d, e.ip, e.now), code, e.now);
    }
  }

  /** The first answer of a counting window never goes over: the window before left at most three recent ones. */
  lemma FirstAnswerFits(es: seq<Event>, i: nat, code: string)
    requires i < |es| && InTimeOrder(es, i + 1) && es[i].AttemptEvent?
    requires FailuresOf(At(START, es, i).storage, code, es[i].now).count == 0
    ensures Room(Misses(es, i, code), es[i].now)
  {
    GuardedAlways(es, i, code, es[i].now);
    WindowOf(At(START, es, i).storage, code, Misses(es, i, code), es[i].now);
  }

  lemma OverrunsIff(es: seq<Event>, i: nat, code: string)
    requires i < |es| && InTimeOrder(es, i + 1)
    ensures Overruns(es, i, code) <==> IsMiss(es, i, code) && !Room(Misses(es, i, code), es[i].now)
  {
    if es[i].AttemptEvent? && es[i].code == code {
      MissIff(es, i, code);
      if FailuresOf(At(START, es, i).storage, code, es[i].now).count == 0 {
        FirstAnswerFits(es, i, code);
      }
    }
  }

  lemma SpacedSnoc(h: seq<int>, now: int)
    ensures Spaced(h + [now], PER_WINDOW) <==> Spaced(h, PER_WINDOW) && Room(h, now)
  {
    var longer := h + [now];
    if Spaced(longer, PER_WINDOW) {
      forall k | 0 <= k && k + PER_WINDOW < |h| ensures h[k] + PAIRING_IP_WINDOW_MS <= h[k + PER_WINDOW] {
        assert longer[k] + PAIRING_IP_WINDOW_MS <= longer[k + PER_WINDOW];
      }
      if |h| >= PER_WINDOW {
        assert longer[|h| - PER_WINDOW] + PAIRING_IP_WINDOW_MS <= longer[|h| - PER_WINDOW + PER_WINDOW];
      }
    }
  }

  ghost predicate NoOverrun(es: seq<Event>, i: nat, code: string)
    requires i <= |es|
  {
    forall k :: 0 <= k < i ==> !Overruns(es, k, code)
  }

  ghost predicate SpacedUnlessOverrun(es: seq<Event>, i: nat, code: string)
    requires i <= |es|
  {
    Spaced(Misses(es, i, code), PER_WINDOW) <==> NoOverrun(es, i, code)
  }

  lemma NoOverrunNext(es: seq<Event>, i: nat, code: string)
    requires i < |es|
    ensures NoOverrun(es, i + 1, code) <==> NoOverrun(es, i, code) && !Overruns(es, i, code)
  {
  }

  lemma SpacedNext(es: seq<Event>, i: nat, code: string)
    requires i < |es| && InTimeOrder(es, i + 1)
    ensures Spaced(Misses(es, i + 1, code), PER_WINDOW)
      <==> Spaced(Misses(es, i, code), PER_WINDOW) && !Overruns(es, i, code)
  {
    OverrunsIff(es, i, code);
    if IsMiss(es, i, code) {
      SpacedSnoc(Misses(es, i, code), es[i].now);
    }
  }

  lemma SpacedIffNoOverrun(es: seq<Event>, code: string)
    requires InTimeOrder(es, |es|)
    ensures SpacedUnlessOverrun(es, |es|, code)
  {
    for i := 0 to |es|
      invariant SpacedUnlessOverrun(es, i, code)
    {
      NoOverrunNext(es, i, code);
      SpacedNext(es, i, code);
    }
  }

  /**
  The lockout keeps to four answered misses in every fifteen minutes exactly when no attempt gets through to
  a counting window already opened and not yet spent with four recent answers behind it.
  */
  lemma FourPerWindowIff(es: seq<Event>, code: string, now: int)
    requires InTimeOrder(es, |es|) && Until(es, |es|, now)
    ensures (forall from :: |InWindow(Misses(es, |es|, code), from)| <= PER_WINDOW)
      <==> forall i :: 0 <= i < |es| ==> !Overruns(es, i, code)
  {
    GuardedAlways(es, |es|, code, now);
    SpacedIffWindows(Misses(es, |es|, code), PER_WINDOW);
    SpacedIffNoOverrun(es, code);
  }
}
