/** Runs of the pairing directory: events one transaction or alarm at a time, with cleanup requests outstanding. */
module DirectoryRuns {
  import opened Common
  import opened Constants
  import opened DirectoryStorage

  /** `due`: cleanup times requested by a handler after its transaction and not yet scheduled. */
  datatype System = System(storage: Storage, due: multiset<int>)

  const START := System(EMPTY, multiset{})

  datatype Event =
    | RegisterEvent(code: string, expiresAt: int, sessionId: string, now: int)
    | ApproveEvent(code: string, sessionId: string, approvedAt: int)
    | AttemptEvent(code: string, ip: string, now: int)
    | RevokeEvent(code: string, sessionId: string)
    | ScheduleEvent(at: int)
    | AlarmEvent(now: int)

  // ----- the alarm handler as a function -----

  ghost function Expiries(d: Storage): set<int> {
    (set code | code in d.pairs :: d.pairs[code].expiresAt)
    + (set code | code in d.missing :: d.missing[code].expiresAt)
    + (set ip | ip in d.rates :: d.rates[ip].expiresAt)
  }

  lemma {:induction false} LeastExists(s: set<int>)
    requires exists x :: x in s
    ensures exists m :: m in s && forall x :: x in s ==> m <= x
    decreases |s|
  {
    var x :| x in s;
    if exists y :: y in s && y != x {
      var other :| other in s && other != x;
      assert other in s - {x};
      LeastExists(s - {x});
      var m :| m in s - {x} && forall y :: y in s - {x} ==> m <= y;
      forall y | y in s ensures Min(m, x) <= y {
        assert y == x || y in s - {x};
      }
      assert Min(m, x) in s;
    }
  }

  ghost function Earliest(d: Storage): Option<int> {
    if !exists x :: x in Expiries(d) then None
    else
      LeastExists(Expiries(d));
      var m :| m in Expiries(d) && forall x :: x in Expiries(d) ==> m <= x;
      Some(m)
  }

  ghost function Cleanup(d: Storage, now: int): Storage {
    var live := Storage(LivePairs(d.pairs, now), LiveMissing(d.missing, now), LiveRates(d.rates, now), None);
    live.(alarm := Earliest(live))
  }

  lemma ExpiriesMeaning(d: Storage, at: int)
    ensures at in Expiries(d) <==> HasExpiry(d, at)
  {
  }

  lemma NoEarlierMeaning(d: Storage, at: int)
    ensures NoEarlierExpiry(d, at) <==> forall x :: x in Expiries(d) ==> at <= x
  {
    forall code | code in d.pairs ensures d.pairs[code].expiresAt in Expiries(d) {}
    forall code | code in d.missing ensures d.missing[code].expiresAt in Expiries(d) {}
    forall ip | ip in d.rates ensures d.rates[ip].expiresAt in Expiries(d) {}
  }

  lemma NoExpiriesMeaning(d: Storage)
    ensures Expiries(d) == {} <==> d.pairs == map[] && d.missing == map[] && d.rates == map[]
  {
    forall code | code in d.pairs ensures d.pairs[code].expiresAt in Expiries(d) {}
    forall code | code in d.missing ensures d.missing[code].expiresAt in Expiries(d) {}
    forall ip | ip in d.rates ensures d.rates[ip].expiresAt in Expiries(d) {}
  }

  lemma EarliestMeaning(d: Storage, alarm: Option<int>)
    ensures alarm == Earliest(d) <==>
      if alarm.None? then d.pairs == map[] && d.missing == map[] && d.rates == map[]
      else HasExpiry(d, alarm.value) && NoEarlierExpiry(d, alarm.value)
  {
    NoExpiriesMeaning(d);
    if alarm.Some? {
      ExpiriesMeaning(d, alarm.value);
      NoEarlierMeaning(d, alarm.value);
    }
  }

  /** The object's handler leaves exactly this storage. */
  lemma CleanupIsCleaned(d: Storage, now: int, after: Storage)
    ensures Cleaned(d, now, after) <==> after == Cleanup(d, now)
  {
    var live := Storage(LivePairs(d.pairs, now), LiveMissing(d.missing, now), LiveRates(d.rates, now), None);
    EarliestMeaning(live, after.alarm);
    if after.alarm.Some? && after.pairs == live.pairs && after.missing == live.missing && after.rates == live.rates {
      assert HasExpiry(after, after.alarm.value) == HasExpiry(live, after.alarm.value);
      assert NoEarlierExpiry(after, after.alarm.value) == NoEarlierExpiry(live, after.alarm.value);
    }
  }

  // ----- runs -----

  ghost function NextStorage(d: Storage, scheduled: bool, e: Event): Storage {
    match e
    case RegisterEvent(code, expiresAt, sessionId, now) => Register(d, code, expiresAt, sessionId, now)
    case ApproveEvent(code, sessionId, approvedAt) => Approve(d, code, sessionId, approvedAt)
    case AttemptEvent(code, ip, now) => Authorize(d, code, ip, now).0
    case RevokeEvent(code, sessionId) => Revoke(d, code, sessionId)
    case ScheduleEvent(at) => if scheduled then Schedule(d, at) else d
    case AlarmEvent(now) => Cleanup(d, now)
  }

  ghost function NextDue(s: System, e: Event): multiset<int> {
    match e
    case RegisterEvent(code, expiresAt, _, now) =>
      if CanRegister(s.storage, code, expiresAt, now) then s.due + multiset{expiresAt} else s.due
    case AttemptEvent(_, _, now) => s.due + multiset{now + PAIRING_IP_WINDOW_MS}
    case ScheduleEvent(at) => if at in s.due then s.due - multiset{at} else s.due
    case _ => s.due
  }

  /** A handler's cleanup request is scheduled in a step of its own. */
  ghost function Next(s: System, e: Event): System {
    System(NextStorage(s.storage, e.ScheduleEvent? && e.at in s.due, e), NextDue(s, e))
  }

  ghost function At(s: System, es: seq<Event>, i: nat): System
    requires i <= |es|
  {
    if i == 0 then s else Next(At(s, es, i - 1), es[i - 1])
  }

  /** Attempts and alarms read the clock. */
  predicate Timed(e: Event) { e.AttemptEvent? || e.AlarmEvent? }

  function Clock(e: Event): int
    requires Timed(e)
  {
    e.now
  }

  /** Clock readings of the events up to index i never go backwards. */
  ghost predicate InTimeOrder(es: seq<Event>, i: nat)
    requires i <= |es|
  {
    forall a, b :: 0 <= a < b < i && Timed(es[a]) && Timed(es[b]) ==> Clock(es[a]) <= Clock(es[b])
  }

  ghost predicate Until(es: seq<Event>, i: nat, now: int)
    requires i <= |es|
  {
    forall a :: 0 <= a < i && Timed(es[a]) ==> Clock(es[a]) <= now
  }

  // ----- no record is stranded -----

  /** The alarm, or a cleanup still to be scheduled, comes no later than this time. */
  ghost predicate Covered(s: System, at: int) {
    (s.storage.alarm.Some? && s.storage.alarm.value <= at) || exists x :: x in s.due && x <= at
  }

  ghost predicate AllCovered(s: System) {
    && (forall code :: code in s.storage.pairs ==> Covered(s, s.storage.pairs[code].expiresAt))
    && (forall code :: code in s.storage.missing ==> Covered(s, s.storage.missing[code].expiresAt))
    && (forall ip :: ip in s.storage.rates ==> Covered(s, s.storage.rates[ip].expiresAt))
  }

  lemma AlarmKept(d: Storage, scheduled: bool, e: Event)
    requires !e.AlarmEvent? && !e.ScheduleEvent?
    ensures NextStorage(d, scheduled, e).alarm == d.alarm
  {
  }

  lemma CoveredStays(s: System, e: Event, at: int)
    requires Covered(s, at) && !e.AlarmEvent?
    ensures Covered(Next(s, e), at)
  {
    var t := Next(s, e);
    if e.ScheduleEvent? {
      if !(s.storage.alarm.Some? && s.storage.alarm.value <= at) {
        var x :| x in s.due && x <= at;
        assert x in t.due || (t.storage.alarm.Some? && t.storage.alarm.value <= x);
      }
    } else {
      AlarmKept(s.storage, false, e);
      assert s.due <= t.due;
    }
  }

  lemma EarliestCovers(s: System)
    requires s.storage.alarm == Earliest(s.storage)
    ensures AllCovered(s)
  {
    EarliestMeaning(s.storage, s.storage.alarm);
  }

  lemma AlarmCovers(s: System, now: int)
    ensures AllCovered(Next(s, AlarmEvent(now)))
  {
    var d := s.storage;
    var t := Next(s, AlarmEvent(now));
    var live := Storage(LivePairs(d.pairs, now), LiveMissing(d.missing, now), LiveRates(d.rates, now), None);
    assert Expiries(t.storage) == Expiries(live);
    EarliestCovers(t);
  }

  lemma RegisterCovers(s: System, e: Event)
    requires AllCovered(s) && e.RegisterEvent?
    ensures AllCovered(Next(s, e))
  {
    var t := Next(s, e);
    forall at | Covered(s, at) ensures Covered(t, at) {
      CoveredStays(s, e, at);
    }
    if CanRegister(s.storage, e.code, e.expiresAt, e.now) {
      assert e.expiresAt in t.due;
    }
  }

  /** An attempt leaves only expiries that were there before and expiries one window ahead. */
  lemma AttemptExpiries(d: Storage, code: string, ip: string, now: int)
    ensures var after := Authorize(d, code, ip, now).0; var bound := now + PAIRING_IP_WINDOW_MS;
      && after.alarm == d.alarm
      && (forall c :: c in after.pairs ==> c in d.pairs && after.pairs[c].expiresAt == d.pairs[c].expiresAt)
      && (forall c :: c in after.missing ==>
            after.missing[c].expiresAt == bound
              || (c in d.missing && after.missing[c].expiresAt == d.missing[c].expiresAt))
      && (forall p :: p in after.rates ==>
            after.rates[p].expiresAt == bound || (p in d.rates && after.rates[p].expiresAt == d.rates[p].expiresAt))
  {
  }

  lemma AttemptCovers(s: System, e: Event)
    requires AllCovered(s) && e.AttemptEvent?
    ensures AllCovered(Next(s, e))
  {
    var t := Next(s, e);
    forall at | Covered(s, at) ensures Covered(t, at) {
      CoveredStays(s, e, at);
    }
    AttemptExpiries(s.storage, e.code, e.ip, e.now);
    assert e.now + PAIRING_IP_WINDOW_MS in t.due;
    assert Covered(t, e.now + PAIRING_IP_WINDOW_MS);
  }

  lemma OtherCovers(s: System, e: Event)
    requires AllCovered(s) && (e.ApproveEvent? || e.RevokeEvent? || e.ScheduleEvent?)
    ensures AllCovered(Next(s, e))
  {
    var t := Next(s, e);
    forall at | Covered(s, at) ensures Covered(t, at) {
      CoveredStays(s, e, at);
    }
  }

  lemma NextCovers(s: System, e: Event)
    requires AllCovered(s)
    ensures AllCovered(Next(s, e))
  {
    match e
    case RegisterEvent(_, _, _, _) => RegisterCovers(s, e);
    case AttemptEvent(_, _, _) => AttemptCovers(s, e);
    case AlarmEvent(now) => AlarmCovers(s, now);
    case _ => OtherCovers(s, e);
  }

  lemma {:induction false} AlwaysCovered(es: seq<Event>, i: nat)
    requires i <= |es|
    ensures AllCovered(At(START, es, i))
  {
    if i > 0 {
      AlwaysCovered(es, i - 1);
      NextCovers(At(START, es, i - 1), es[i - 1]);
    }
  }

  /** No record is stranded: with nothing left to schedule, an alarm is pending no later than every stored expiry. */
  lemma NoRecordStranded(es: seq<Event>, i: nat)
    requires i <= |es| && At(START, es, i).due == multiset{}
    ensures var d := At(START, es, i).storage;
      Expiries(d) != {} ==> d.alarm.Some? && NoEarlierExpiry(d, d.alarm.value)
  {
    AlwaysCovered(es, i);
  }
}
