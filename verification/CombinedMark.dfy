/**
Splitting the combined sequence mark in two refuses nothing that the combined mark accepted.
*/
module CombinedMark {
  import opened Common
  import opened Constants
  import opened SessionRecord
  import opened PairingStateStore
  import L = SessionLaws

  /** The gateway's transaction before the split: one mark for both domains. */
  function CombinedAdvance(r: Record, e: Envelope, now: int, preserveLastSeen: bool, requireActive: bool)
    : Result<Record, HttpError>
  {
    if requireActive && !ActiveAt(r, now) then Err(HttpError(401, "session_inactive"))
    else
      var live := LiveNonces(r.recentNonces, now);
      if e.sequence <= r.lastSequence || Holds(live, e.nonce) then Err(HttpError(409, "device_request_replayed"))
      else
        Ok(r.(
          lastSequence := e.sequence,
          lastSeenAt := if preserveLastSeen then r.lastSeenAt else Some(now),
          recentNonces := LastN(live + [Nonce(now + NONCE_RETENTION_MS, e.nonce)], MAX_RECENT_NONCES)))
  }

  function CombinedStep(r: Record, e: Event): Result<Record, HttpError> {
    match e
    case VerifyEvent(envelope, verifiedAt, now, _, preserve, active) =>
      (match VerifyEnvelope(envelope, verifiedAt)
       case Err(error) => Err(error)
       case Ok(_) => CombinedAdvance(r, envelope, now, preserve, active))
    case _ => Step(r, e)
  }

  /** The same conditions and the same changes as after the split, but for one mark instead of two. */
  lemma CombinedAcceptedIff(
    r: Record, e: Envelope, verifiedAt: int, now: int, domain: Domain, preserveLastSeen: bool, requireActive: bool)
    ensures
      var step := CombinedStep(r, VerifyEvent(e, verifiedAt, now, domain, preserveLastSeen, requireActive));
      && (step.Ok? <==>
        && L.Genuine(e, verifiedAt) && (requireActive ==> r.revokedAt.None? && r.expiresAt > now)
        && e.sequence > r.lastSequence
        && forall n :: n in r.recentNonces && n.expiresAt > now ==> n.hash != e.nonce)
      && (step.Ok? ==>
        && step.value == r.(
          lastSequence := e.sequence, lastSeenAt := step.value.lastSeenAt, recentNonces := step.value.recentNonces)
        && step.value.lastSeenAt == if preserveLastSeen then r.lastSeenAt else Some(now))
  {
    L.HeldIff(r.recentNonces, e.nonce, now);
  }

  function CombinedApply(r: Record, e: Event): Record {
    match CombinedStep(r, e)
    case Ok(next) => next
    case Err(_) => r
  }

  function CombinedAt(r: Record, es: seq<Event>, i: nat): Record
    requires i <= |es|
  {
    if i == 0 then r else CombinedApply(CombinedAt(r, es, i - 1), es[i - 1])
  }

  /** No envelope of the run repeats an earlier nonce or one already in the table. */
  ghost predicate FreshNonces(r: Record, es: seq<Event>) {
    && (forall i :: 0 <= i < |es| && es[i].VerifyEvent? ==> !Holds(r.recentNonces, es[i].envelope.nonce))
    && (forall i, j :: 0 <= i < j < |es| && es[i].VerifyEvent? && es[j].VerifyEvent? ==>
      es[i].envelope.nonce != es[j].envelope.nonce)
  }

  /** Equal but for marks, nonces and the last-seen time; the split marks are no higher than the combined one. */
  ghost predicate Refines(split: Record, combined: Record) {
    && split.(
        lastCompanionSequence := combined.lastCompanionSequence, lastControlSequence := combined.lastControlSequence,
        lastSequence := combined.lastSequence, lastSeenAt := combined.lastSeenAt, recentNonces := combined.recentNonces)
      == combined
    && Mark(split, Companion) <= combined.lastSequence && Mark(split, Control) <= combined.lastSequence
    && split.lastSequence <= combined.lastSequence
  }

  /** Every nonce in the table was there at the start or came with an earlier envelope. */
  ghost predicate NoncesFrom(nonces: seq<Nonce>, r: Record, es: seq<Event>, i: nat)
    requires i <= |es|
  {
    forall k :: 0 <= k < |nonces| ==> Holds(r.recentNonces, nonces[k].hash) || CameWith(es, i, nonces[k].hash)
  }

  ghost predicate CameWith(es: seq<Event>, i: nat, hash: string)
    requires i <= |es|
  {
    exists j :: 0 <= j < i && es[j].VerifyEvent? && es[j].envelope.nonce == hash
  }

  lemma {:induction false} LiveNoncesMembers(nonces: seq<Nonce>, now: int)
    ensures forall nonce :: nonce in LiveNonces(nonces, now) ==> nonce in nonces
  {
    if nonces != [] {
      LiveNoncesMembers(nonces[1..], now);
    }
  }

  lemma FreshNotHeld(r: Record, es: seq<Event>, i: nat, nonces: seq<Nonce>, now: int)
    requires i < |es| && es[i].VerifyEvent? && FreshNonces(r, es) && NoncesFrom(nonces, r, es, i)
    ensures !Holds(LiveNonces(nonces, now), es[i].envelope.nonce)
  {
  }

  lemma NoncesFromStep(r: Record, es: seq<Event>, i: nat, nonces: seq<Nonce>, now: int)
    requires i < |es| && NoncesFrom(nonces, r, es, i)
    ensures NoncesFrom(nonces, r, es, i + 1)
    ensures es[i].VerifyEvent? ==>
      NoncesFrom(
        LastN(LiveNonces(nonces, now) + [Nonce(now + NONCE_RETENTION_MS, es[i].envelope.nonce)], MAX_RECENT_NONCES),
        r, es, i + 1)
  {
    forall hash | CameWith(es, i, hash) ensures CameWith(es, i + 1, hash) {
    }
    if es[i].VerifyEvent? {
      LiveNoncesMembers(nonces, now);
      var longer := LiveNonces(nonces, now) + [Nonce(now + NONCE_RETENTION_MS, es[i].envelope.nonce)];
      assert CameWith(es, i + 1, es[i].envelope.nonce);
      forall k | 0 <= k < |longer|
        ensures Holds(r.recentNonces, longer[k].hash) || CameWith(es, i + 1, longer[k].hash)
      {
        if k < |longer| - 1 {
          assert longer[k] in nonces;
          var m :| 0 <= m < |nonces| && nonces[m] == longer[k];
        }
      }
    }
  }

  lemma CombinedAdvanceRefined(split: Record, combined: Record, e: Event)
    requires e.VerifyEvent? && Refines(split, combined)
    requires !Holds(LiveNonces(split.recentNonces, e.now), e.envelope.nonce)
    requires !Holds(LiveNonces(combined.recentNonces, e.now), e.envelope.nonce)
    ensures CombinedStep(combined, e).Ok? ==> Step(split, e).Ok?
    ensures Refines(Apply(split, e), CombinedApply(combined, e))
  {
  }

  /** Every other transaction does the same to both. */
  lemma OtherEventsRefined(split: Record, combined: Record, e: Event)
    requires !e.VerifyEvent? && Refines(split, combined)
    ensures CombinedStep(combined, e).Ok? == Step(split, e).Ok?
    ensures Refines(Apply(split, e), CombinedApply(combined, e))
    ensures Apply(split, e).recentNonces == split.recentNonces
  {
  }

  lemma CombinedNonces(r: Record, e: Event)
    ensures var after := CombinedApply(r, e);
      after.recentNonces == r.recentNonces
      || (e.VerifyEvent? && after.recentNonces
          == LastN(
            LiveNonces(r.recentNonces, e.now) + [Nonce(e.now + NONCE_RETENTION_MS, e.envelope.nonce)],
            MAX_RECENT_NONCES))
  {
  }

  lemma SplitNonces(r: Record, e: Event)
    ensures var after := Apply(r, e);
      after.recentNonces == r.recentNonces
      || (e.VerifyEvent? && after.recentNonces
          == LastN(
            LiveNonces(r.recentNonces, e.now) + [Nonce(e.now + NONCE_RETENTION_MS, e.envelope.nonce)],
            MAX_RECENT_NONCES))
  {
  }

  /** The two gateways stay in step over every run whose nonces are fresh. */
  lemma SplitRefinesCombined(r: Record, es: seq<Event>, i: nat)
    requires i <= |es| && FreshNonces(r, es) && Refines(r, r)
    ensures Refines(At(r, es, i), CombinedAt(r, es, i))
    ensures NoncesFrom(At(r, es, i).recentNonces, r, es, i) && NoncesFrom(CombinedAt(r, es, i).recentNonces, r, es, i)
  {
    var split, combined := r, r;
    for k := 0 to i
      invariant split == At(r, es, k) && combined == CombinedAt(r, es, k)
      invariant Refines(split, combined)
      invariant NoncesFrom(split.recentNonces, r, es, k) && NoncesFrom(combined.recentNonces, r, es, k)
    {
      StayInStep(r, es, k, split, combined);
      split, combined := Apply(split, es[k]), CombinedApply(combined, es[k]);
    }
  }

  lemma StayInStep(r: Record, es: seq<Event>, k: nat, split: Record, combined: Record)
    requires k < |es| && FreshNonces(r, es) && Refines(split, combined)
    requires NoncesFrom(split.recentNonces, r, es, k) && NoncesFrom(combined.recentNonces, r, es, k)
    ensures Refines(Apply(split, es[k]), CombinedApply(combined, es[k]))
    ensures NoncesFrom(Apply(split, es[k]).recentNonces, r, es, k + 1)
    ensures NoncesFrom(CombinedApply(combined, es[k]).recentNonces, r, es, k + 1)
  {
    var e := es[k];
    if e.VerifyEvent? {
      FreshNotHeld(r, es, k, split.recentNonces, e.now);
      FreshNotHeld(r, es, k, combined.recentNonces, e.now);
      CombinedAdvanceRefined(split, combined, e);
    } else {
      OtherEventsRefined(split, combined, e);
    }
    var now := if e.VerifyEvent? then e.now else 0;
    NoncesFromStep(r, es, k, split.recentNonces, now);
    NoncesFromStep(r, es, k, combined.recentNonces, now);
    SplitNonces(split, e);
    CombinedNonces(combined, e);
  }

  /** Any envelope the combined mark accepts in a run, the split marks accept in the same run. */
  lemma SplitAcceptsWhatCombinedAccepts(r: Record, es: seq<Event>, i: nat)
    requires i < |es| && FreshNonces(r, es) && Refines(r, r)
    ensures CombinedStep(CombinedAt(r, es, i), es[i]).Ok? ==> Accepted(r, es, i)
  {
    SplitRefinesCombined(r, es, i);
    if es[i].VerifyEvent? {
      FreshNotHeld(r, es, i, At(r, es, i).recentNonces, es[i].now);
      FreshNotHeld(r, es, i, CombinedAt(r, es, i).recentNonces, es[i].now);
      CombinedAdvanceRefined(At(r, es, i), CombinedAt(r, es, i), es[i]);
    } else {
      OtherEventsRefined(At(r, es, i), CombinedAt(r, es, i), es[i]);
    }
  }

  /** A record from before the split, or fresh from registration, starts the comparison. */
  lemma ComparisonStarts(r: Record)
    ensures r.lastCompanionSequence.None? && r.lastControlSequence.None? ==> Refines(r, r)
    ensures forall g: Registration :: r == Registered(g) ==> Refines(r, r)
  {
  }

  // ----- the upgrade order matters -----

  /** One signed envelope of a client with split counters, delivered at once. */
  datatype Call = Call(domain: Domain, envelope: Envelope, verifiedAt: int, now: int)

  function Number(f: PairingFile, domain: Domain): int {
    if domain.Control? then f.nextDevice else NextCompanion(f)
  }

  function AfterCall(f: PairingFile, domain: Domain): PairingFile {
    if domain.Control? then AfterControl(f) else AfterCompanion(f)
  }

  function Arrives(c: Call, number: int): Event {
    VerifyEvent(c.envelope.(sequence := number), c.verifiedAt, c.now, c.domain, false, true)
  }

  function Deliver(record: Record, file: PairingFile, c: Call): (Record, PairingFile) {
    (CombinedApply(record, Arrives(c, Number(file, c.domain))), AfterCall(file, c.domain))
  }

  /** The record of a gateway that still combines the mark, and the client's file, after the first i calls. */
  function Delivered(r: Record, f: PairingFile, calls: seq<Call>, i: nat): (Record, PairingFile)
    requires i <= |calls|
  {
    if i == 0 then (r, f)
    else
      var (record, file) := Delivered(r, f, calls, i - 1);
      Deliver(record, file, calls[i - 1])
  }

  /** Nothing but its sequence number could make the gateway refuse the call. */
  predicate OtherwiseFine(r: Record, c: Call) {
    VerifyEnvelope(c.envelope, c.verifiedAt).Ok? && ActiveAt(r, c.now)
      && !Holds(LiveNonces(r.recentNonces, c.now), c.envelope.nonce)
  }

  ghost predicate AllOtherwiseFine(r: Record, f: PairingFile, calls: seq<Call>, i: nat)
    requires i <= |calls|
  {
    forall k :: 0 <= k < i ==> OtherwiseFine(Delivered(r, f, calls, k).0, calls[k])
  }

  /** A record and a file from before the split, with nothing in flight. */
  predicate QuietLegacy(r: Record, f: PairingFile) {
    && r.lastCompanionSequence.None? && r.lastControlSequence.None? && f.nextCompanion.None?
    && r.lastSequence < f.nextDevice
  }

  function Count(calls: seq<Call>, i: nat, domain: Domain): nat
    requires i <= |calls|
  {
    if i == 0 then 0 else Count(calls, i - 1, domain) + if calls[i - 1].domain == domain then 1 else 0
  }

  /**
  A call that is otherwise fine passes both checks, combined and newly split, exactly when its number is above
  the combined mark.
  */
  lemma PassesIffAbove(r: Record, c: Call, number: int)
    requires OtherwiseFine(r, c) && r.lastCompanionSequence.None? && r.lastControlSequence.None?
    ensures CombinedStep(r, Arrives(c, number)).Ok? <==> r.lastSequence < number
    ensures Step(r, Arrives(c, number)).Ok? <==> r.lastSequence < number
    ensures var after := CombinedApply(r, Arrives(c, number));
      && after.lastSequence == Max(r.lastSequence, number)
      && after.lastCompanionSequence.None? && after.lastControlSequence.None?
  {
  }

  /** With both counters at n at the start, and a and b numbers drawn: where the counters and the combined mark are. */
  predicate Follows(record: Record, file: PairingFile, start: int, n: int, a: nat, b: nat) {
    && record.lastCompanionSequence.None? && record.lastControlSequence.None?
    && file.nextDevice == n + a && NextCompanion(file) == n + b
    && record.lastSequence == if a + b == 0 then start else n - 1 + Max(a, b)
  }

  lemma FollowsStep(record: Record, file: PairingFile, c: Call, start: int, n: int, a: nat, b: nat)
    requires Follows(record, file, start, n, a, b) && start < n && OtherwiseFine(record, c)
    ensures Follows(Deliver(record, file, c).0, Deliver(record, file, c).1, start, n,
                    a + if c.domain.Control? then 1 else 0, b + if c.domain.Companion? then 1 else 0)
  {
    PassesIffAbove(record, c, Number(file, c.domain));
  }

  lemma DeliveredNext(r: Record, f: PairingFile, calls: seq<Call>, i: nat, k: nat, record: Record, file: PairingFile)
    requires k < i <= |calls| && AllOtherwiseFine(r, f, calls, i) && Delivered(r, f, calls, k) == (record, file)
    ensures Delivered(r, f, calls, k + 1) == Deliver(record, file, calls[k]) && OtherwiseFine(record, calls[k])
  {
    assert OtherwiseFine(Delivered(r, f, calls, k).0, calls[k]);
  }

  ghost predicate FollowsAt(r: Record, f: PairingFile, calls: seq<Call>, i: nat)
    requires i <= |calls|
  {
    Follows(Delivered(r, f, calls, i).0, Delivered(r, f, calls, i).1, r.lastSequence, f.nextDevice,
            Count(calls, i, Control), Count(calls, i, Companion))
  }

  lemma CountNext(calls: seq<Call>, i: nat, domain: Domain)
    requires i < |calls|
    ensures Count(calls, i + 1, domain) == Count(calls, i, domain) + if calls[i].domain == domain then 1 else 0
  {
  }

  lemma FollowsNext(r: Record, f: PairingFile, calls: seq<Call>, i: nat, k: nat, record: Record, file: PairingFile)
    requires k < i <= |calls| && QuietLegacy(r, f) && AllOtherwiseFine(r, f, calls, i) && FollowsAt(r, f, calls, k)
    requires Delivered(r, f, calls, k) == (record, file)
    ensures FollowsAt(r, f, calls, k + 1)
  {
    DeliveredNext(r, f, calls, i, k, record, file);
    CountNext(calls, k, Control);
    CountNext(calls, k, Companion);
    FollowsStep(record, file, calls[k], r.lastSequence, f.nextDevice, Count(calls, k, Control),
      Count(calls, k, Companion));
  }

  /** Both counters start at the same number, so the combined mark follows whichever domain has drawn more of them. */
  lemma MarkFollowsTheBusier(r: Record, f: PairingFile, calls: seq<Call>, i: nat)
    requires i <= |calls| && QuietLegacy(r, f) && AllOtherwiseFine(r, f, calls, i)
    ensures FollowsAt(r, f, calls, i)
  {
    for k := 0 to i
      invariant FollowsAt(r, f, calls, k)
    {
      FollowsNext(r, f, calls, i, k, Delivered(r, f, calls, k).0, Delivered(r, f, calls, k).1);
    }
  }

  /**
  When a client with split counters talks to a gateway that still combines the mark, from quiet legacy
  state: a call is accepted if and only if its domain has drawn at least as many numbers as the other.
  Upgrading the gateway at that point changes nothing, as the split marks are seeded from the combined one.
  */
  lemma OldGatewayAcceptsIff(r: Record, f: PairingFile, calls: seq<Call>, i: nat)
    requires i < |calls| && QuietLegacy(r, f) && AllOtherwiseFine(r, f, calls, i + 1)
    ensures var (record, file) := Delivered(r, f, calls, i);
      var arrives := Arrives(calls[i], Number(file, calls[i].domain));
      var other := if calls[i].domain.Control? then Companion else Control;
      var ahead := Count(calls, i, other) <= Count(calls, i, calls[i].domain);
      (CombinedStep(record, arrives).Ok? <==> ahead) && (Step(record, arrives).Ok? <==> ahead)
  {
    MarkFollowsTheBusier(r, f, calls, i);
    var (record, file) := Delivered(r, f, calls, i);
    PassesIffAbove(record, calls[i], Number(file, calls[i].domain));
  }

  /** A call signed and verified at one instant. */
  function PromptCall(domain: Domain, now: int, nonce: string): Call {
    Call(domain, Envelope(true, now + 1, now, nonce, 0, true), now, now)
  }

  /** What the gateway registered before the split: one mark. */
  function LegacyRegistered(g: Registration): Record {
    Registered(g).(lastCompanionSequence := None, lastControlSequence := None)
  }

  /**
  The failing side, from every registration by a client of that time: one control call is delivered, then the
  companion's very first number is refused, and still refused once the gateway has split its mark.
  */
  lemma CompanionLockedOut(g: Registration)
    requires RegistrationAllowed(g) && g.initialSequence == 1
    ensures var r, f := LegacyRegistered(g), PairingFile(2, None, 0);
      var calls := [PromptCall(Control, g.createdAt, g.initialNonceHash + "a"),
        PromptCall(Companion, g.createdAt, g.initialNonceHash + "b")];
      var (record, file) := Delivered(r, f, calls, 1);
      && CombinedStep(r, Arrives(calls[0], Number(f, Control))).Ok?
      && CombinedStep(record, Arrives(calls[1], Number(file, Companion)))
        == Err(HttpError(409, "device_request_replayed"))
      && Step(record, Arrives(calls[1], Number(file, Companion))) == Err(HttpError(409, "device_request_replayed"))
  {
    var r, f := LegacyRegistered(g), PairingFile(2, None, 0);
    var first := PromptCall(Control, g.createdAt, g.initialNonceHash + "a");
    var second := PromptCall(Companion, g.createdAt, g.initialNonceHash + "b");
    NoncesTellApart(g.initialNonceHash);
    LiveNoncesMembers(r.recentNonces, g.createdAt);
    PassesIffAbove(r, first, 2);
    assert Delivered(r, f, [first, second], 0) == (r, f);
    var record := CombinedApply(r, Arrives(first, 2));
    assert Delivered(r, f, [first, second], 1) == (record, AfterControl(f));
    LiveNoncesMembers(record.recentNonces, g.createdAt);
    forall nonce | nonce in record.recentNonces ensures nonce.hash != second.envelope.nonce {
      CombinedNonces(r, Arrives(first, 2));
    }
    PassesIffAbove(record, second, 2);
  }

  lemma NoncesTellApart(hash: string)
    ensures hash != hash + "a" && hash != hash + "b" && hash + "a" != hash + "b"
  {
    assert |hash + "a"| == |hash| + 1 == |hash + "b"|;
    assert (hash + "a")[|hash|] != (hash + "b")[|hash|];
  }
}
