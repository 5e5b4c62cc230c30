/**
What the per-source limiter guarantees over whole runs of the directory, although each call sees
only the list it pruned itself, cleanup may have deleted that list, and refused attempts leave no trace.
*/
module AttemptLimiter {
  import opened Common
  import opened Constants
  import opened DirectoryStorage
  import opened DirectoryRuns

  /** The clock readings of the attempts from this source that the limiter let through, oldest first. */
  ghost function Admitted(es: seq<Event>, i: nat, ip: string): seq<int>
    requires i <= |es|
  {
    if i == 0 then []
    else if IsAdmitted(es, i - 1, ip) then Admitted(es, i - 1, ip) + [es[i - 1].now]
    else Admitted(es, i - 1, ip)
  }

  ghost predicate IsAdmitted(es: seq<Event>, i: nat, ip: string)
    requires i < |es|
  {
    es[i].AttemptEvent? && es[i].ip == ip && !Limited(At(START, es, i).storage, ip, es[i].now)
  }

  /** Any entry and the one `most` places after it are at least a window apart. */
  ghost predicate Spaced(h: seq<int>, most: nat) {
    forall k :: 0 <= k && k + most < |h| ==> h[k] + PAIRING_IP_WINDOW_MS <= h[k + most]
  }

  ghost predicate Ordered(h: seq<int>) {
    forall j, k :: 0 <= j < k < |h| ==> h[j] <= h[k]
  }

  function Kept(rates: map<string, Rate>, ip: string): seq<int> {
    if ip in rates then rates[ip].attempts else []
  }

  /** The stored list is the end of the true history, and everything it forgot is over a window old. */
  ghost predicate Faithful(rates: map<string, Rate>, ip: string, h: seq<int>, now: int) {
    var kept := Kept(rates, ip);
    && |kept| <= |h|
    && kept == h[|h| - |kept|..]
    && (forall k :: 0 <= k < |h| - |kept| ==> h[k] + PAIRING_IP_WINDOW_MS <= now)
    && (ip in rates ==> |kept| > 0 && rates[ip].expiresAt == h[|h| - 1] + PAIRING_IP_WINDOW_MS)
  }

  ghost predicate History(h: seq<int>, now: int) {
    Ordered(h) && Spaced(h, PAIRING_IP_MAX_ATTEMPTS) && forall k :: 0 <= k < |h| ==> h[k] <= now
  }

  /** Pruning an ordered list drops a prefix of it: exactly the entries a window or more old. */
  lemma {:induction false} LiveIsSuffix(attempts: seq<int>, now: int) returns (cut: nat)
    requires Ordered(attempts)
    ensures cut <= |attempts| && LiveAttempts(attempts, now) == attempts[cut..]
    ensures forall k :: 0 <= k < cut ==> attempts[k] + PAIRING_IP_WINDOW_MS <= now
    ensures forall k :: cut <= k < |attempts| ==> now < attempts[k] + PAIRING_IP_WINDOW_MS
  {
    if attempts == [] {
      cut := 0;
    } else if now - attempts[0] < PAIRING_IP_WINDOW_MS {
      assert forall k :: 0 <= k < |attempts[1..]| ==> attempts[0] <= attempts[1..][k];
      var rest := LiveIsSuffix(attempts[1..], now);
      cut := 0;
      assert attempts == [attempts[0]] + attempts[1..];
    } else {
      var rest := LiveIsSuffix(attempts[1..], now);
      cut := rest + 1;
      forall k | 0 <= k < cut ensures attempts[k] + PAIRING_IP_WINDOW_MS <= now {
        assert k == 0 || attempts[k] == attempts[1..][k - 1];
      }
      forall k | cut <= k < |attempts| ensures now < attempts[k] + PAIRING_IP_WINDOW_MS {
        assert attempts[k] == attempts[1..][k - 1];
      }
    }
  }

  /** The live part of the stored list is the live part of the whole history. */
  lemma LiveOfHistory(rates: map<string, Rate>, ip: string, h: seq<int>, now: int) returns (cut: nat)
    requires History(h, now) && Faithful(rates, ip, h, now)
    ensures cut <= |h| && LiveAttempts(Kept(rates, ip), now) == h[cut..]
    ensures forall k :: 0 <= k < cut ==> h[k] + PAIRING_IP_WINDOW_MS <= now
    ensures forall k :: cut <= k < |h| ==> now < h[k] + PAIRING_IP_WINDOW_MS
  {
    var kept := Kept(rates, ip);
    var start := |h| - |kept|;
    forall k | 0 <= k < |kept| ensures kept[k] == h[start + k] {}
    var inner := LiveIsSuffix(kept, now);
    cut := start + inner;
    forall k | cut <= k < |h| ensures now < h[k] + PAIRING_IP_WINDOW_MS {
      assert h[k] == kept[k - start];
    }
    forall k | start <= k < cut ensures h[k] + PAIRING_IP_WINDOW_MS <= now {
      assert h[k] == kept[k - start];
    }
  }

  /** The limiter refuses exactly when twenty admitted attempts fall in the window that ends now. */
  lemma LimitedIff(d: Storage, ip: string, h: seq<int>, now: int)
    requires History(h, now) && Faithful(d.rates, ip, h, now)
    ensures Limited(d, ip, now) <==>
      |h| >= PAIRING_IP_MAX_ATTEMPTS && now < h[|h| - PAIRING_IP_MAX_ATTEMPTS] + PAIRING_IP_WINDOW_MS
  {
    var cut := LiveOfHistory(d.rates, ip, h, now);
    assert RateOf(d, ip, now).attempts == Kept(d.rates, ip);
    assert Limited(d, ip, now) <==> |h| - cut >= PAIRING_IP_MAX_ATTEMPTS;
  }

  lemma HistoryExtends(h: seq<int>, now: int)
    requires History(h, now)
    requires |h| >= PAIRING_IP_MAX_ATTEMPTS ==> h[|h| - PAIRING_IP_MAX_ATTEMPTS] + PAIRING_IP_WINDOW_MS <= now
    ensures History(h + [now], now)
  {
  }

  lemma AdmitExtends(d: Storage, ip: string, h: seq<int>, now: int)
    requires History(h, now) && Faithful(d.rates, ip, h, now) && !Limited(d, ip, now)
    ensures History(h + [now], now) && Faithful(Admit(d, ip, now).rates, ip, h + [now], now)
  {
    LimitedIff(d, ip, h, now);
    HistoryExtends(h, now);
    var cut := LiveOfHistory(d.rates, ip, h, now);
    KeptExtends(Admit(d, ip, now).rates, ip, h, cut, now);
  }

  lemma KeptExtends(rates: map<string, Rate>, ip: string, h: seq<int>, cut: nat, now: int)
    requires cut <= |h| && forall k :: 0 <= k < cut ==> h[k] + PAIRING_IP_WINDOW_MS <= now
    requires ip in rates && rates[ip] == Rate(h[cut..] + [now], now + PAIRING_IP_WINDOW_MS)
    ensures Faithful(rates, ip, h + [now], now)
  {
  }

  lemma LiveRatesFaithful(d: Storage, ip: string, h: seq<int>, now: int)
    requires History(h, now) && Faithful(d.rates, ip, h, now)
    ensures Faithful(LiveRates(d.rates, now), ip, h, now)
  {
  }

  lemma LaterStillFaithful(rates: map<string, Rate>, ip: string, h: seq<int>, now: int, later: int)
    requires History(h, now) && Faithful(rates, ip, h, now) && now <= later
    ensures History(h, later) && Faithful(rates, ip, h, later)
  {
  }

  lemma AttemptRates(d: Storage, code: string, ip: string, now: int)
    ensures Authorize(d, code, ip, now).0.rates == if Limited(d, ip, now) then d.rates else Admit(d, ip, now).rates
  {
  }

  lemma OtherRates(s: System, e: Event)
    requires !e.AttemptEvent?
    ensures Next(s, e).storage.rates == if e.AlarmEvent? then LiveRates(s.storage.rates, e.now) else s.storage.rates
  {
  }

  lemma {:induction false} FaithfulAlways(es: seq<Event>, i: nat, ip: string, now: int)
    requires i <= |es| && InTimeOrder(es, i) && Until(es, i, now)
    ensures History(Admitted(es, i, ip), now) && Faithful(At(START, es, i).storage.rates, ip, Admitted(es, i, ip), now)
  {
    if i > 0 {
      var e := es[i - 1];
      var s := At(START, es, i - 1);
      var at := if Timed(e) then Clock(e) else now;
      FaithfulAlways(es, i - 1, ip, at);
      FaithfulStep(s, e, ip, Admitted(es, i - 1, ip), at);
      LaterStillFaithful(Next(s, e).storage.rates, ip, Admitted(es, i, ip), at, now);
    }
  }

  lemma AttemptFaithful(d: Storage, code: string, from: string, ip: string, h: seq<int>, now: int)
    requires History(h, now) && Faithful(d.rates, ip, h, now)
    ensures var h' := if from == ip && !Limited(d, ip, now) then h + [now] else h;
      History(h', now) && Faithful(Authorize(d, code, from, now).0.rates, ip, h', now)
  {
    AttemptRates(d, code, from, now);
    if from == ip && !Limited(d, ip, now) {
      AdmitExtends(d, ip, h, now);
    }
  }

  lemma FaithfulStep(s: System, e: Event, ip: string, h: seq<int>, now: int)
    requires History(h, now) && Faithful(s.storage.rates, ip, h, now)
    requires Timed(e) ==> Clock(e) == now
    ensures var h' := if e.AttemptEvent? && e.ip == ip && !Limited(s.storage, ip, e.now) then h + [e.now] else h;
      History(h', now) && Faithful(Next(s, e).storage.rates, ip, h', now)
  {
    if e.AttemptEvent? {
      AttemptFaithful(s.storage, e.code, e.ip, ip, h, now);
    } else {
      OtherRates(s, e);
      LiveRatesFaithful(s.storage, ip, h, now);
    }
  }

  // ----- the two guarantees -----

  ghost function InWindow(h: seq<int>, from: int): set<int> {
    set k | 0 <= k < |h| && from <= h[k] < from + PAIRING_IP_WINDOW_MS
  }

  lemma SpacedApart(h: seq<int>, most: nat, j: nat, k: nat)
    requires Ordered(h) && Spaced(h, most) && j < |h| && k < |h|
    ensures j + most <= k ==> h[j] + PAIRING_IP_WINDOW_MS <= h[k]
  {
    var next := j + most;
    assert next <= k ==> h[next] <= h[k];
  }

  /** A history spaced like that has at most that many entries in any half-open window. */
  lemma SpacedWindow(h: seq<int>, most: nat, from: int)
    requires Ordered(h) && Spaced(h, most)
    ensures |InWindow(h, from)| <= most
  {
    var found := InWindow(h, from);
    if exists k :: k in found {
      LeastExists(found);
      var first :| first in found && forall k :: k in found ==> first <= k;
      forall k | k in found ensures k in Interval(first, most) {
        SpacedApart(h, most, first, k);
      }
      IntervalCardinality(first, most);
      SubsetCardinality(found, Interval(first, most));
    } else {
      assert found == {};
    }
  }

  /** And only such a history has: a window that starts at an entry would hold one too many otherwise. */
  lemma SpacedIffWindows(h: seq<int>, most: nat)
    requires Ordered(h)
    ensures Spaced(h, most) <==> forall from :: |InWindow(h, from)| <= most
  {
    if Spaced(h, most) {
      forall from ensures |InWindow(h, from)| <= most {
        SpacedWindow(h, most, from);
      }
    } else {
      var k :| 0 <= k && k + most < |h| && h[k + most] < h[k] + PAIRING_IP_WINDOW_MS;
      assert forall j :: k <= j <= k + most ==> h[k] <= h[j] <= h[k + most];
      IntervalCardinality(k, most + 1);
      SubsetCardinality(Interval(k, most + 1), InWindow(h, h[k]));
    }
  }

  /** Every half-open window of fifteen minutes holds at most twenty admitted attempts of a source. */
  lemma AtMostTwentyPerWindow(es: seq<Event>, ip: string, from: int, now: int)
    requires InTimeOrder(es, |es|) && Until(es, |es|, now)
    ensures |InWindow(Admitted(es, |es|, ip), from)| <= PAIRING_IP_MAX_ATTEMPTS
  {
    FaithfulAlways(es, |es|, ip, now);
    SpacedWindow(Admitted(es, |es|, ip), PAIRING_IP_MAX_ATTEMPTS, from);
  }

  /** No attempt is refused without cause: refusal at any step means a full window of admitted attempts behind it. */
  lemma RefusedOnlyWhenFull(es: seq<Event>, i: nat)
    requires i < |es| && InTimeOrder(es, i + 1) && es[i].AttemptEvent?
    ensures var h := Admitted(es, i, es[i].ip);
      Limited(At(START, es, i).storage, es[i].ip, es[i].now) <==>
        |h| >= PAIRING_IP_MAX_ATTEMPTS && es[i].now < h[|h| - PAIRING_IP_MAX_ATTEMPTS] + PAIRING_IP_WINDOW_MS
  {
    FaithfulAlways(es, i, es[i].ip, es[i].now);
    LimitedIff(At(START, es, i).storage, es[i].ip, Admitted(es, i, es[i].ip), es[i].now);
  }
}
