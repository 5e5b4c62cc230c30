/**
What an authorization attempt is answered and what it leaves, by what the directory holds of the code and the
source.
*/
module DirectoryLaws {
  import opened Common
  import opened DirectoryStorage

  /** Of the recorded attempts those less than fifteen minutes old are live, each as often as it was recorded. */
  lemma {:induction false} LiveCount(attempts: seq<int>, now: int)
    ensures forall t ::
      multiset(LiveAttempts(attempts, now))[t] == if now < t + 900_000 then multiset(attempts)[t] else 0
  {
    if attempts != [] {
      LiveCount(attempts[1..], now);
      assert attempts == [attempts[0]] + attempts[1..];
    }
  }

  /** A refused source is told so, and nothing is recorded of the attempt. */
  lemma LimitedAttempt(d: Storage, code: string, ip: string, now: int)
    ensures Authorize(d, code, ip, now).1 == RateLimited <==> Limited(d, ip, now)
    ensures Limited(d, ip, now) ==> Authorize(d, code, ip, now).0 == d
    ensures !Limited(d, ip, now) ==>
      var after := Authorize(d, code, ip, now).0;
      && ip in after.rates && after.rates - {ip} == d.rates - {ip} && after.alarm == d.alarm
      && after.rates[ip].expiresAt == now + 900_000
      && after.rates[ip].attempts == LiveAttempts(if ip in d.rates then d.rates[ip].attempts else [], now) + [now]
  {
    if !Limited(d, ip, now) {
      assert Authorize(d, code, ip, now).0.rates == Admit(d, ip, now).rates;
      assert Admit(d, ip, now).rates - {ip} == d.rates - {ip};
    }
  }

  /** The failures counted for a code without a record: none once their fifteen minutes have run out. */
  function Counted(d: Storage, code: string, now: int): nat {
    if code in d.missing && d.missing[code].expiresAt > now then d.missing[code].count else 0
  }

  /** A code without a record: the fifth try locks, and five counted failures stay as they are. */
  lemma MissingCode(d: Storage, code: string, ip: string, now: int)
    requires !Limited(d, ip, now) && code !in d.pairs
    ensures
      var (after, outcome) := Authorize(d, code, ip, now);
      var counted := Counted(d, code, now);
      && after.pairs == d.pairs && outcome == (if counted >= 4 then CodeLocked else Invalid)
      && (counted >= 5 ==> after.missing == d.missing)
      && (counted < 5 ==>
        && code in after.missing && after.missing - {code} == d.missing - {code}
        && after.missing[code].count == counted + 1
        && after.missing[code].expiresAt ==
          if code in d.missing && d.missing[code].expiresAt > now then d.missing[code].expiresAt else now + 900_000)
  {
    var after := Authorize(d, code, ip, now).0;
    assert after.missing - {code} == d.missing - {code};
  }

  /** A listed code: locked at five failures, handed over and taken off when usable, else one more failure. */
  lemma ListedCode(d: Storage, code: string, ip: string, now: int)
    requires !Limited(d, ip, now) && code in d.pairs
    ensures
      var (after, outcome) := Authorize(d, code, ip, now);
      var p := d.pairs[code];
      && after.missing == d.missing
      && if p.failedAttempts >= 5 then outcome == CodeLocked && after.pairs == d.pairs
        else if p.localApprovedAt.Some? && p.expiresAt > now then
          outcome == Authorized(p.sessionId) && after.pairs == d.pairs - {code}
        else
          && outcome == (if p.failedAttempts == 4 then CodeLocked else Invalid)
          && after.pairs == d.pairs[code := p.(failedAttempts := p.failedAttempts + 1)]
  {
  }
}
