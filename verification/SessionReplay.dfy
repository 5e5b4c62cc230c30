/** Signed envelopes are accepted once: strictly increasing marks, and nonces kept long enough. */
module SessionReplay {
  import opened Common
  import opened Constants
  import opened SessionRecord
  import opened SessionLifecycle

  /** Within a domain, a sequence number at or below an accepted one is never accepted again. */
  lemma NoReplayInDomain(r: Record, es: seq<Event>, i: nat, j: nat)
    requires i < j < |es| && es[i].VerifyEvent? && es[j].VerifyEvent? && es[i].domain == es[j].domain
    requires Accepted(r, es, i) && es[j].envelope.sequence <= es[i].envelope.sequence
    ensures !Accepted(r, es, j)
  {
    assert Mark(At(r, es, i + 1), es[i].domain) == es[i].envelope.sequence;
    RunKeeps(r, es, i + 1, j);
  }

  /** How many envelopes were accepted from index i up to index j. */
  ghost function AcceptedEnvelopes(r: Record, es: seq<Event>, i: nat, j: nat): (n: nat)
    requires i <= j <= |es|
    decreases j
  {
    if i == j then 0
    else AcceptedEnvelopes(r, es, i, j - 1) + if es[j - 1].VerifyEvent? && Accepted(r, es, j - 1) then 1 else 0
  }

  /** The nonce is in the table, with fewer than `depth` entries after it. */
  ghost predicate HeldWithin(nonces: seq<Nonce>, nonce: Nonce, depth: nat) {
    exists p :: 0 <= p < |nonces| && nonces[p] == nonce && |nonces| - p <= depth
  }

  /** Pruning keeps an unexpired entry, at most as deep as before. */
  lemma {:induction false} LiveKeepsNonce(nonces: seq<Nonce>, p: nat, now: int)
    requires p < |nonces| && nonces[p].expiresAt > now
    ensures |LiveNonces(nonces, now)| <= |nonces|
    ensures HeldWithin(LiveNonces(nonces, now), nonces[p], |nonces| - p)
  {
    var rest, live := LiveNonces(nonces[1..], now), LiveNonces(nonces, now);
    LiveNoLonger(nonces[1..], now);
    if p == 0 {
      assert live[0] == nonces[0];
    } else {
      LiveKeepsNonce(nonces[1..], p - 1, now);
      var q :| 0 <= q < |rest| && rest[q] == nonces[p] && |rest| - q <= |nonces| - p;
      assert live[q + |live| - |rest|] == nonces[p];
    }
  }

  lemma {:induction false} LiveNoLonger(nonces: seq<Nonce>, now: int)
    ensures |LiveNonces(nonces, now)| <= |nonces|
  {
    if nonces != [] {
      LiveNoLonger(nonces[1..], now);
    }
  }

  /** An accepted envelope pushes every nonce one place deeper at most. */
  lemma AdvanceKeepsNonce(r: Record, e: Event, nonce: Nonce, depth: nat)
    requires e.VerifyEvent? && Step(r, e).Ok? && depth < MAX_RECENT_NONCES
    requires HeldWithin(r.recentNonces, nonce, depth) && nonce.expiresAt > e.now
    ensures HeldWithin(Apply(r, e).recentNonces, nonce, depth + 1)
  {
    var p :| 0 <= p < |r.recentNonces| && r.recentNonces[p] == nonce && |r.recentNonces| - p <= depth;
    LiveKeepsNonce(r.recentNonces, p, e.now);
    var live := LiveNonces(r.recentNonces, e.now);
    var q :| 0 <= q < |live| && live[q] == nonce && |live| - q <= |r.recentNonces| - p;
    var longer := live + [Nonce(e.now + NONCE_RETENTION_MS, e.envelope.nonce)];
    var kept := LastN(longer, MAX_RECENT_NONCES);
    assert kept[q - (|longer| - |kept|)] == nonce;
  }

  /**
  A nonce stays in the table until its retention has passed on some later clock reading or 128
  further envelopes have been accepted.
  */
  lemma {:induction false} NonceStays(r: Record, es: seq<Event>, i: nat, j: nat)
    requires i < j <= |es| && es[i].VerifyEvent? && Accepted(r, es, i)
    requires forall k :: i < k < j && es[k].VerifyEvent? ==> es[k].now < es[i].now + NONCE_RETENTION_MS
    requires AcceptedEnvelopes(r, es, i + 1, j) < MAX_RECENT_NONCES
    ensures HeldWithin(At(r, es, j).recentNonces, Nonce(es[i].now + NONCE_RETENTION_MS, es[i].envelope.nonce),
      AcceptedEnvelopes(r, es, i + 1, j) + 1)
    decreases j
  {
    var nonce := Nonce(es[i].now + NONCE_RETENTION_MS, es[i].envelope.nonce);
    if j == i + 1 {
      var nonces := At(r, es, j).recentNonces;
      assert nonces[|nonces| - 1] == nonce;
    } else {
      NonceStays(r, es, i, j - 1);
      if es[j - 1].VerifyEvent? && Accepted(r, es, j - 1) {
        AdvanceKeepsNonce(At(r, es, j - 1), es[j - 1], nonce, AcceptedEnvelopes(r, es, i + 1, j - 1) + 1);
      }
    }
  }

  /** One minute of skew on each side and thirty of lifetime: an envelope verifies for at most 32 minutes. */
  lemma VerifiesAtMost32Minutes(e: Envelope, first: int, second: int)
    requires VerifyEnvelope(e, first).Ok? && VerifyEnvelope(e, second).Ok?
    ensures second < first + 32 * MINUTE_MS
  {
  }

  /**
  Pruning by time never forgets the nonce of an envelope that still verifies: in whichever domain
  it comes back, it is refused, unless 128 others were accepted since or its own handling took
  more than three minutes between the signature check and the transaction.
  */
  lemma NonceOutlivesEnvelope(r: Record, es: seq<Event>, i: nat, j: nat)
    requires i < j < |es| && es[i].VerifyEvent? && es[j].VerifyEvent? && es[j].envelope == es[i].envelope
    requires Accepted(r, es, i) && es[i].verifiedAt <= es[i].now
    requires forall k :: i < k < j && es[k].VerifyEvent? ==> es[k].now <= es[j].now
    requires es[j].now <= es[j].verifiedAt + 3 * MINUTE_MS
    requires AcceptedEnvelopes(r, es, i + 1, j) < MAX_RECENT_NONCES
    ensures !Accepted(r, es, j)
  {
    if VerifyEnvelope(es[j].envelope, es[j].verifiedAt).Ok? {
      VerifiesAtMost32Minutes(es[i].envelope, es[i].verifiedAt, es[j].verifiedAt);
      NonceStays(r, es, i, j);
      var nonces := At(r, es, j).recentNonces;
      var p :| 0 <= p < |nonces| && nonces[p] == Nonce(es[i].now + NONCE_RETENTION_MS, es[i].envelope.nonce);
      LiveKeepsNonce(nonces, p, es[j].now);
      var live := LiveNonces(nonces, es[j].now);
      var q :| 0 <= q < |live| && live[q] == nonces[p];
      assert Holds(live, es[j].envelope.nonce);
    }
  }

  /** The table never grows past its cap. */
  lemma {:induction false} NonceTableBounded(r: Record, es: seq<Event>, i: nat)
    requires i <= |es| && |r.recentNonces| <= MAX_RECENT_NONCES
    ensures |At(r, es, i).recentNonces| <= MAX_RECENT_NONCES
  {
    if i > 0 {
      NonceTableBounded(r, es, i - 1);
    }
  }
}
