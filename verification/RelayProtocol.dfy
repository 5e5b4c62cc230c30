/**
The relay between the gateway's session object and the companion, over every interleaving of
claims, sends, timeouts, late responses, retries, disconnections, companion crashes and restarts of
the gateway object (gateway/src/device-session.ts, src/name_atlas/foldweave_companion_client.py).

The network may lose, delay, reorder and repeat frames and responses. A frame is named by the claim
it was sent for and carries the relay sequence that claim returned.
*/
module RelayProtocol {
  import opened Common
  import opened Constants
  import opened SessionRecord
  import opened RelayTable
  import opened PendingRelays

  /**
  `claims`, `numbers`, `begun`, `sent` and `askedBy` are history: what was accepted, the relay sequence each claim
  returned, which claims have resumed or died, what was sent, and which claim made each promise.
  */
  datatype Gateway = Gateway(
    record: Record,
    registry: Registry,
    claims: seq<ClaimOp>,
    numbers: seq<int>,
    begun: set<nat>,
    sent: set<nat>,
    askedBy: seq<nat>)

  datatype Hand = Idle | Recorded(claim: nat) | Answering(claim: nat)

  /** `lastGateway` is durable; `guardLast` and `hand` are lost with the connection; the rest is history. */
  datatype Companion = Companion(
    lastGateway: int,
    guardLast: int,
    hand: Hand,
    dispatched: seq<nat>,
    answered: set<nat>)

  /** A response for a claim's frame settled a promise. */
  datatype Delivery = Delivery(promise: nat, claim: nat)

  datatype State = State(gateway: Gateway, companion: Companion, delivered: seq<Delivery>)

  function Initial(record: Record, lastGateway: nat): State {
    State(Gateway(record, EMPTY, [], [], {}, {}, []), Companion.Companion(lastGateway, 0, Idle, [], {}), [])
  }

  datatype Action =
    | ClaimRelay(requestId: string, fingerprint: string, invocation: Invocation, now: int)
    | ChangeSession(event: Event)
    | BeginRelay(claim: nat, sendSucceeds: bool)
    | TimeOut(timer: nat)
    | RejectPending(keys: seq<string>, code: string)
    | DeliverFrame(claim: nat, otherChecksPass: bool)
    | Dispatch
    | Answer
    | LoseConnection
    | RestartGateway
    | DeliverResponse(claim: nat, response: nat)

  // ----- the gateway's steps -----

  function Claimed(g: Gateway, requestId: string, fingerprint: string, v: Invocation, now: int): Gateway {
    match Step(g.record, ClaimEvent(requestId, fingerprint, v, now))
    case Ok(record) =>
      g.(
        record := record,
        claims := g.claims + [ClaimOp(now, requestId, fingerprint)],
        numbers := g.numbers + [record.lastRelaySequence])
    case Err(_) => g
  }

  /** The claim's handler resumes: a new promise gets its frame sent once, a retry joins, a conflict fails. */
  function Resumed(g: Gateway, k: nat, sendSucceeds: bool): Gateway {
    if k >= |g.claims| || k in g.begun then g
    else
      var op := g.claims[k];
      if !Opened(g.registry, op.requestId, op.fingerprint).1.Created? then g.(begun := g.begun + {k})
      else if sendSucceeds then Asked(g, k).(sent := g.sent + {k})
      else
        var h := Asked(g, k);
        h.(registry := Finished(h.registry, op.requestId, Rejected("companion_offline")))
  }

  /** A new promise is made for the claim. */
  function Asked(g: Gateway, k: nat): Gateway
    requires k < |g.claims|
  {
    g.(
      begun := g.begun + {k},
      askedBy := g.askedBy + [k],
      registry := Opened(g.registry, g.claims[k].requestId, g.claims[k].fingerprint).0)
  }

  function Below(n: nat): (r: set<nat>)
    ensures forall k: nat :: k in r <==> k < n
  {
    if n == 0 then {} else Below(n - 1) + {n - 1}
  }

  /** The object is restarted: what it stored stays, its registry is empty and no handler of it ever resumes. */
  function Restarted(g: Gateway): Gateway {
    g.(registry := Abandoned(g.registry), begun := Below(|g.claims|))
  }

  // ----- the companion's steps -----

  /** Connection-local guard, then the durable check of the frame's number, before any local work. */
  function Received(c: Companion, k: nat, number: int, otherChecksPass: bool): Companion {
    if !c.hand.Idle? then c
    else if !otherChecksPass || number <= c.guardLast || number <= c.lastGateway then c.(guardLast := 0)
    else c.(guardLast := number, lastGateway := number, hand := Recorded(k))
  }

  function Next(s: State, a: Action): State {
    var g, c := s.gateway, s.companion;
    match a
    case ClaimRelay(requestId, fingerprint, v, now) => s.(gateway := Claimed(g, requestId, fingerprint, v, now))
    case ChangeSession(event) =>
      if event.ClaimEvent? then s else s.(gateway := g.(record := Apply(g.record, event)))
    case BeginRelay(k, sendSucceeds) => s.(gateway := Resumed(g, k, sendSucceeds))
    case TimeOut(timer) => s.(gateway := g.(registry := Fired(g.registry, timer)))
    case RejectPending(keys, code) => s.(gateway := g.(registry := FinishedAll(g.registry, keys, Rejected(code))))
    case DeliverFrame(k, otherChecksPass) =>
      if k !in g.sent || k >= |g.numbers| then s
      else s.(companion := Received(c, k, g.numbers[k], otherChecksPass))
    case Dispatch =>
      if c.hand.Recorded? then
        s.(companion := c.(hand := Answering(c.hand.claim), dispatched := c.dispatched + [c.hand.claim]))
      else s
    case Answer =>
      if c.hand.Answering? then s.(companion := c.(hand := Idle, answered := c.answered + {c.hand.claim})) else s
    case LoseConnection => s.(companion := c.(hand := Idle, guardLast := 0))
    case RestartGateway => s.(gateway := Restarted(g))
    case DeliverResponse(k, response) =>
      if k !in c.answered || k >= |g.claims| then s
      else
        var id := g.claims[k].requestId;
        if id !in g.registry.entries then s
        else
          s.(
            gateway := g.(registry := Finished(g.registry, id, Resolved(response))),
            delivered := s.delivered + [Delivery(g.registry.entries[id].promise, k)])
  }

  function After(s: State, actions: seq<Action>, i: nat): State
    requires i <= |actions|
  {
    if i == 0 then s else Next(After(s, actions, i - 1), actions[i - 1])
  }

  // ----- invariants -----

  /** Every promise was made for a claim, and a waiting entry carries that claim's identifier and fingerprint. */
  ghost predicate RegistryInv(g: Gateway) {
    && Consistent(g.registry)
    && |g.askedBy| == |g.registry.promises|
    && (forall p :: 0 <= p < |g.askedBy| ==> g.askedBy[p] < |g.claims| && g.askedBy[p] in g.begun)
    && (forall id :: id in g.registry.entries ==> EntryMatchesClaim(g, id))
  }

  ghost predicate EntryMatchesClaim(g: Gateway, id: string)
    requires id in g.registry.entries
  {
    var e := g.registry.entries[id];
    && e.promise < |g.askedBy| && g.askedBy[e.promise] < |g.claims|
    && g.claims[g.askedBy[e.promise]].requestId == id
    && g.claims[g.askedBy[e.promise]].fingerprint == e.fingerprint
  }

  /** One promise per resumed claim, one frame per promise. */
  ghost predicate SentInv(g: Gateway) {
    && Distinct(g.askedBy) && |g.numbers| == |g.claims|
    && (forall k :: k in g.begun ==> k < |g.claims|)
    && (forall k :: k in g.sent ==> k in g.begun && k in g.askedBy)
  }

  /** The claims have pairwise different, increasing relay sequences, in this order. */
  ghost predicate NumbersIncrease(claims: seq<nat>, numbers: seq<int>) {
    && (forall i :: 0 <= i < |claims| ==> claims[i] < |numbers|)
    && (forall i, j :: 0 <= i < j < |claims| ==> numbers[claims[i]] < numbers[claims[j]])
  }

  ghost predicate NumbersUpTo(claims: seq<nat>, numbers: seq<int>, last: int) {
    forall i :: 0 <= i < |claims| ==> claims[i] < |numbers| && numbers[claims[i]] <= last
  }

  ghost predicate CompanionInv(c: Companion, g: Gateway) {
    && NumbersIncrease(c.dispatched, g.numbers) && NumbersUpTo(c.dispatched, g.numbers, c.lastGateway)
    && (forall i :: 0 <= i < |c.dispatched| ==> c.dispatched[i] in g.sent)
    && (c.hand.Recorded? ==>
      && c.hand.claim in g.sent && c.hand.claim < |g.numbers| && g.numbers[c.hand.claim] == c.lastGateway
      && NumbersUpTo(c.dispatched, g.numbers, c.lastGateway - 1))
    && (c.hand.Answering? ==> c.hand.claim in c.dispatched)
    && (forall k :: k in c.answered ==> k in c.dispatched)
  }

  ghost predicate DeliveredInv(s: State) {
    && (forall i :: 0 <= i < |s.delivered| ==> DeliveryFits(s, s.delivered[i]))
    && (forall i, j :: 0 <= i < j < |s.delivered| ==> s.delivered[i].promise != s.delivered[j].promise)
  }

  /** The settled promise and the answering frame belong to claims of one identifier. */
  ghost predicate DeliveryFits(s: State, d: Delivery) {
    var g := s.gateway;
    && d.promise < |g.askedBy| && d.promise < |g.registry.promises|
    && g.registry.promises[d.promise] != [] && g.registry.promises[d.promise][0].Resolved?
    && d.claim < |g.claims| && g.askedBy[d.promise] < |g.claims|
    && d.claim in s.companion.answered
    && g.claims[d.claim].requestId == g.claims[g.askedBy[d.promise]].requestId
  }

  ghost predicate Inv(s: State) {
    RegistryInv(s.gateway) && SentInv(s.gateway) && CompanionInv(s.companion, s.gateway) && DeliveredInv(s)
  }

  lemma InitialInv(record: Record, lastGateway: nat)
    ensures Inv(Initial(record, lastGateway))
  {
  }

  /** What one step leaves in place; all four parts of the invariant are stable under it. */
  ghost predicate Grows(g: Gateway, h: Gateway) {
    && g.claims <= h.claims && g.numbers <= h.numbers && g.begun <= h.begun && g.sent <= h.sent
      && g.askedBy <= h.askedBy
    && Later(g.registry, h.registry)
  }

  lemma CompanionStable(c: Companion, g: Gateway, h: Gateway)
    requires CompanionInv(c, g) && g.sent <= h.sent && g.numbers <= h.numbers
    ensures CompanionInv(c, h)
  {
  }

  lemma DeliveredStable(s: State, t: State)
    requires DeliveredInv(s) && t.delivered == s.delivered
    requires Grows(s.gateway, t.gateway) && s.companion.answered <= t.companion.answered
    ensures DeliveredInv(t)
  {
  }

  lemma RecordIrrelevant(g: Gateway, record: Record)
    requires RegistryInv(g) && SentInv(g)
    ensures RegistryInv(g.(record := record)) && SentInv(g.(record := record)) && Grows(g, g.(record := record))
  {
  }

  lemma ClaimAppended(g: Gateway, op: ClaimOp, number: int)
    requires RegistryInv(g) && SentInv(g)
    ensures var h := g.(claims := g.claims + [op], numbers := g.numbers + [number]);
      RegistryInv(h) && SentInv(h) && Grows(g, h)
  {
  }

  lemma ClaimedKeeps(g: Gateway, requestId: string, fingerprint: string, v: Invocation, now: int)
    requires RegistryInv(g) && SentInv(g)
    ensures var h := Claimed(g, requestId, fingerprint, v, now);
      RegistryInv(h) && SentInv(h) && Grows(g, h)
  {
    match Step(g.record, ClaimEvent(requestId, fingerprint, v, now))
    case Ok(record) =>
      RecordIrrelevant(g, record);
      ClaimAppended(g.(record := record), ClaimOp(now, requestId, fingerprint), record.lastRelaySequence);
    case Err(_) =>
  }

  lemma ResumedKeeps(g: Gateway, k: nat, sendSucceeds: bool)
    requires RegistryInv(g) && SentInv(g)
    ensures var h := Resumed(g, k, sendSucceeds);
      RegistryInv(h) && SentInv(h) && Grows(g, h)
  {
    if k < |g.claims| && k !in g.begun {
      if g.claims[k].requestId in g.registry.entries {
        BegunOnly(g, k);
      } else {
        CreatedKeeps(g, k);
        if sendSucceeds {
          SentKeeps(g, k);
        } else {
          OfflineKeeps(g, k);
        }
      }
    }
  }

  lemma SentKeeps(g: Gateway, k: nat)
    requires RegistryInv(g) && SentInv(g) && k < |g.claims| && k !in g.begun
      && g.claims[k].requestId !in g.registry.entries
    ensures var h := Asked(g, k).(sent := g.sent + {k});
      RegistryInv(h) && SentInv(h) && Grows(g, h)
  {
    CreatedKeeps(g, k);
    var asked := Asked(g, k);
    forall id | id in asked.registry.entries ensures EntryMatchesClaim(asked.(sent := g.sent + {k}), id) {
      assert EntryMatchesClaim(asked, id);
    }
    assert asked.askedBy[|g.askedBy|] == k;
  }

  lemma OfflineKeeps(g: Gateway, k: nat)
    requires RegistryInv(g) && SentInv(g) && k < |g.claims| && k !in g.begun
      && g.claims[k].requestId !in g.registry.entries
    ensures var h := Asked(g, k);
      var failed := h.(registry := Finished(h.registry, g.claims[k].requestId, Rejected("companion_offline")));
      RegistryInv(failed) && SentInv(failed) && Grows(g, failed)
  {
    CreatedKeeps(g, k);
    var h := Asked(g, k);
    FinishedKeeps(h, g.claims[k].requestId, Rejected("companion_offline"));
    GrowsTransitive(g, h, h.(registry := Finished(h.registry, g.claims[k].requestId, Rejected("companion_offline"))));
  }

  lemma GrowsTransitive(a: Gateway, b: Gateway, c: Gateway)
    requires Grows(a, b) && Grows(b, c)
    ensures Grows(a, c)
  {
  }

  lemma BegunOnly(g: Gateway, k: nat)
    requires RegistryInv(g) && SentInv(g) && k < |g.claims|
    ensures var h := g.(begun := g.begun + {k});
      RegistryInv(h) && SentInv(h) && Grows(g, h)
  {
  }

  lemma CreatedKeeps(g: Gateway, k: nat)
    requires RegistryInv(g) && SentInv(g) && k < |g.claims| && k !in g.begun
      && g.claims[k].requestId !in g.registry.entries
    ensures RegistryInv(Asked(g, k)) && SentInv(Asked(g, k)) && Grows(g, Asked(g, k))
  {
    var op := g.claims[k];
    var h := Asked(g, k);
    DoValid(g.registry, BeginCall(op.requestId, op.fingerprint), []);
    forall id | id in h.registry.entries ensures EntryMatchesClaim(h, id) {
      if id in g.registry.entries {
        assert EntryMatchesClaim(g, id);
      }
    }
    forall p | 0 <= p < |h.askedBy| ensures h.askedBy[p] < |h.claims| && h.askedBy[p] in h.begun {
      assert p < |g.askedBy| ==> h.askedBy[p] == g.askedBy[p];
    }
  }

  /** Timeouts, rejections and responses only ever take entries away. */
  lemma ShrinkKeeps(g: Gateway, registry: Registry)
    requires RegistryInv(g) && SentInv(g) && Consistent(registry) && |registry.promises| == |g.registry.promises|
    requires forall id :: id in registry.entries ==>
      id in g.registry.entries && registry.entries[id] == g.registry.entries[id]
    ensures RegistryInv(g.(registry := registry)) && SentInv(g.(registry := registry))
  {
  }

  lemma FinishedKeeps(g: Gateway, id: string, s: Settlement)
    requires RegistryInv(g) && SentInv(g)
    ensures var h := g.(registry := Finished(g.registry, id, s));
      RegistryInv(h) && SentInv(h) && Grows(g, h)
  {
    FinishValid(g.registry, id, s);
    ShrinkKeeps(g, Finished(g.registry, id, s));
  }

  lemma FinishedAllKeeps(g: Gateway, keys: seq<string>, s: Settlement)
    requires RegistryInv(g) && SentInv(g)
    ensures var h := g.(registry := FinishedAll(g.registry, keys, s));
      RegistryInv(h) && SentInv(h) && Grows(g, h)
  {
    FinishAllValid(g.registry, keys, s);
    FinishedAllEntries(g.registry, keys, s);
    FinishAllLater(g.registry, keys, s);
    FinishedAllCount(g.registry, keys, s);
    ShrinkKeeps(g, FinishedAll(g.registry, keys, s));
  }

  lemma RestartedKeeps(g: Gateway)
    requires RegistryInv(g) && SentInv(g)
    ensures RegistryInv(Restarted(g)) && SentInv(Restarted(g)) && Grows(g, Restarted(g))
  {
    AbandonedValid(g.registry);
  }

  /** The gateway's own steps keep its part of the invariant. */
  lemma GatewayStep(s: State, a: Action)
    requires RegistryInv(s.gateway) && SentInv(s.gateway)
    ensures var h := Next(s, a).gateway;
      RegistryInv(h) && SentInv(h) && Grows(s.gateway, h)
  {
    var g := s.gateway;
    match a {
      case ClaimRelay(requestId, fingerprint, v, now) => ClaimedKeeps(g, requestId, fingerprint, v, now);
      case ChangeSession(event) => RecordIrrelevant(g, Apply(g.record, event));
      case BeginRelay(k, sendSucceeds) => ResumedKeeps(g, k, sendSucceeds);
      case TimeOut(timer) =>
        if timer in g.registry.timers {
          FireIsCancel(g.registry, timer);
          FinishedKeeps(g, g.registry.timers[timer], TIMEOUT);
        }
      case RejectPending(keys, code) => FinishedAllKeeps(g, keys, Rejected(code));
      case RestartGateway => RestartedKeeps(g);
      case DeliverResponse(k, response) =>
        if k < |g.claims| {
          FinishedKeeps(g, g.claims[k].requestId, Resolved(response));
        }
      case _ =>
    }
  }

  lemma CompanionStep(s: State, a: Action)
    requires CompanionInv(s.companion, s.gateway) && Grows(s.gateway, Next(s, a).gateway)
    ensures CompanionInv(Next(s, a).companion, Next(s, a).gateway)
    ensures s.companion.answered <= Next(s, a).companion.answered
  {
    if a.DeliverFrame? || a.Dispatch? || a.Answer? || a.LoseConnection? {
      CompanionOwnStep(s, a);
    } else {
      CompanionStable(s.companion, s.gateway, Next(s, a).gateway);
    }
  }

  lemma CompanionOwnStep(s: State, a: Action)
    requires CompanionInv(s.companion, s.gateway)
    requires a.DeliverFrame? || a.Dispatch? || a.Answer? || a.LoseConnection?
    ensures CompanionInv(Next(s, a).companion, s.gateway) && Next(s, a).gateway == s.gateway
    ensures s.companion.answered <= Next(s, a).companion.answered
  {
  }

  /** A response of this claim finds this entry. */
  ghost predicate Answers(s: State, claim: nat) {
    claim in s.companion.answered && claim < |s.gateway.claims|
      && s.gateway.claims[claim].requestId in s.gateway.registry.entries
  }

  ghost function Answered(s: State, claim: nat): Delivery
    requires Answers(s, claim)
  {
    Delivery(s.gateway.registry.entries[s.gateway.claims[claim].requestId].promise, claim)
  }

  /** What one step adds to the deliveries. */
  lemma NextDelivered(s: State, a: Action)
    ensures var g, t := s.gateway, Next(s, a);
      t.delivered == s.delivered
      || (a.DeliverResponse? && Answers(s, a.claim) && t.delivered == s.delivered + [Answered(s, a.claim)]
          && t.gateway.registry == Finished(g.registry, g.claims[a.claim].requestId, Resolved(a.response)))
  {
  }

  lemma AnsweredFits(s: State, t: State, claim: nat, response: nat)
    requires RegistryInv(s.gateway) && Answers(s, claim)
    requires Grows(s.gateway, t.gateway) && s.companion.answered <= t.companion.answered
    requires t.gateway.registry == Finished(s.gateway.registry, s.gateway.claims[claim].requestId, Resolved(response))
    ensures DeliveryFits(t, Answered(s, claim))
  {
  }

  lemma AnsweredWasWaiting(s: State, claim: nat, i: nat)
    requires RegistryInv(s.gateway) && Answers(s, claim) && i < |s.delivered| && DeliveryFits(s, s.delivered[i])
    ensures s.delivered[i].promise != Answered(s, claim).promise
  {
  }

  lemma DeliveryAppended(s: State, t: State, claim: nat, response: nat)
    requires RegistryInv(s.gateway) && DeliveredInv(s) && Answers(s, claim)
    requires Grows(s.gateway, t.gateway) && s.companion.answered <= t.companion.answered
    requires t.delivered == s.delivered + [Answered(s, claim)]
    requires t.gateway.registry == Finished(s.gateway.registry, s.gateway.claims[claim].requestId, Resolved(response))
    ensures DeliveredInv(t)
  {
    var u := t.(delivered := s.delivered);
    DeliveredStable(s, u);
    AnsweredFits(s, t, claim, response);
    forall i | 0 <= i < |s.delivered|
      ensures DeliveryFits(t, s.delivered[i]) && s.delivered[i].promise != Answered(s, claim).promise
    {
      assert DeliveryFits(s, s.delivered[i]) && DeliveryFits(u, s.delivered[i]);
      AnsweredWasWaiting(s, claim, i);
    }
  }

  lemma DeliveredStep(s: State, a: Action)
    requires Inv(s) && Grows(s.gateway, Next(s, a).gateway) && s.companion.answered <= Next(s, a).companion.answered
    ensures DeliveredInv(Next(s, a))
  {
    var t := Next(s, a);
    NextDelivered(s, a);
    if t.delivered == s.delivered {
      DeliveredStable(s, t);
    } else {
      DeliveryAppended(s, t, a.claim, a.response);
    }
  }

  lemma {:induction false} AlwaysInv(s: State, actions: seq<Action>, i: nat)
    requires Inv(s) && i <= |actions|
    ensures Inv(After(s, actions, i))
  {
    if i > 0 {
      AlwaysInv(s, actions, i - 1);
      var before, a := After(s, actions, i - 1), actions[i - 1];
      GatewayStep(before, a);
      CompanionStep(before, a);
      DeliveredStep(before, a);
    }
  }

  /** The record's correlation table is the table of the accepted claims, each of which it admits. */
  ghost predicate TableInv(g: Gateway) {
    g.record.recentRelays == TableAt(g.claims, |g.claims|) && AllAdmitted(g.claims)
  }

  lemma ClaimedTable(g: Gateway, requestId: string, fingerprint: string, v: Invocation, now: int)
    requires TableInv(g)
    ensures TableInv(Claimed(g, requestId, fingerprint, v, now))
  {
    var e := ClaimEvent(requestId, fingerprint, v, now);
    RecordStep(g.record, e);
    if Step(g.record, e).Ok? {
      TableFollows(g.record.recentRelays, g.claims, ClaimOp(now, requestId, fingerprint));
    }
  }

  /** The counter has advanced once per accepted claim, and each claim returned the value it then had. */
  ghost predicate CounterInv(g: Gateway, start: int) {
    && g.record.lastRelaySequence == start + |g.claims| && |g.numbers| == |g.claims|
    && forall k :: 0 <= k < |g.numbers| ==> g.numbers[k] == start + k + 1
  }

  /** The relay counter moves with the accepted claims and with nothing else. */
  lemma SequenceStep(r: Record, e: Event)
    ensures Apply(r, e).lastRelaySequence == r.lastRelaySequence + if e.ClaimEvent? && Step(r, e).Ok? then 1 else 0
  {
  }

  lemma ClaimedCounter(g: Gateway, requestId: string, fingerprint: string, v: Invocation, now: int, start: int)
    requires CounterInv(g, start)
    ensures CounterInv(Claimed(g, requestId, fingerprint, v, now), start)
  {
    SequenceStep(g.record, ClaimEvent(requestId, fingerprint, v, now));
  }

  lemma CounterStepKeeps(s: State, a: Action, start: int)
    requires CounterInv(s.gateway, start)
    ensures CounterInv(Next(s, a).gateway, start)
  {
    match a
    case ClaimRelay(requestId, fingerprint, v, now) => ClaimedCounter(s.gateway, requestId, fingerprint, v, now, start);
    case ChangeSession(event) =>
      OtherTable(s, a);
      SequenceStep(s.gateway.record, event);
    case _ => OtherTable(s, a);
  }

  lemma {:induction false} AlwaysCounterInv(s: State, actions: seq<Action>, i: nat, start: int)
    requires CounterInv(s.gateway, start) && i <= |actions|
    ensures CounterInv(After(s, actions, i).gateway, start)
  {
    if i > 0 {
      AlwaysCounterInv(s, actions, i - 1, start);
      CounterStepKeeps(After(s, actions, i - 1), actions[i - 1], start);
    }
  }

  lemma OtherTable(s: State, a: Action)
    requires !a.ClaimRelay?
    ensures var g, h := s.gateway, Next(s, a).gateway;
      && h.claims == g.claims && h.numbers == g.numbers
      && (h.record == g.record || (a.ChangeSession? && !a.event.ClaimEvent? && h.record == Apply(g.record, a.event)))
  {
  }

  lemma TableStepKeeps(s: State, a: Action)
    requires TableInv(s.gateway)
    ensures TableInv(Next(s, a).gateway)
  {
    match a
    case ClaimRelay(requestId, fingerprint, v, now) => ClaimedTable(s.gateway, requestId, fingerprint, v, now);
    case ChangeSession(event) =>
      OtherTable(s, a);
      RecordStep(s.gateway.record, event);
    case _ => OtherTable(s, a);
  }

  lemma {:induction false} AlwaysTableInv(s: State, actions: seq<Action>, i: nat)
    requires TableInv(s.gateway) && i <= |actions|
    ensures TableInv(After(s, actions, i).gateway)
  {
    if i > 0 {
      AlwaysTableInv(s, actions, i - 1);
      TableStepKeeps(After(s, actions, i - 1), actions[i - 1]);
    }
  }

  // ----- main results -----

  /** Every dispatched frame was sent and carries the value the counter had when its claim was accepted. */
  ghost predicate DispatchesCounted(s: State, start: int) {
    forall n :: 0 <= n < |s.companion.dispatched| ==>
      var k := s.companion.dispatched[n];
      && k in s.gateway.sent && k < |s.gateway.numbers|
      && s.gateway.numbers[k] == start + k + 1 <= Min(s.gateway.record.lastRelaySequence, s.companion.lastGateway)
  }

  lemma CountedFollows(s: State, start: int)
    requires CompanionInv(s.companion, s.gateway) && CounterInv(s.gateway, start)
    ensures DispatchesCounted(s, start)
  {
  }

  /**
  Each relay sequence is dispatched locally at most once, in strictly increasing order, across reconnections,
  crashes and restarts of either side, and only when its frame was sent. It is the value the record's
  counter had when its claim was accepted.
  */
  lemma DispatchedInOrder(record: Record, lastGateway: nat, actions: seq<Action>, i: nat)
    requires i <= |actions|
    ensures var s := After(Initial(record, lastGateway), actions, i);
      NumbersIncrease(s.companion.dispatched, s.gateway.numbers) && DispatchesCounted(s, record.lastRelaySequence)
  {
    InitialInv(record, lastGateway);
    AlwaysInv(Initial(record, lastGateway), actions, i);
    AlwaysCounterInv(Initial(record, lastGateway), actions, i, record.lastRelaySequence);
    CountedFollows(After(Initial(record, lastGateway), actions, i), record.lastRelaySequence);
  }

  /** Identical retries coalesce: two calls that still wait never carry the same identifier. */
  lemma WaitingCallsDiffer(record: Record, lastGateway: nat, actions: seq<Action>, i: nat, p: nat, q: nat)
    requires i <= |actions|
    requires var g := After(Initial(record, lastGateway), actions, i).gateway;
      && p < |g.registry.promises| && q < |g.registry.promises| && p != q
      && g.registry.promises[p] == [] && g.registry.promises[q] == []
    ensures var g := After(Initial(record, lastGateway), actions, i).gateway;
      && p < |g.askedBy| && g.askedBy[p] < |g.claims| && q < |g.askedBy| && g.askedBy[q] < |g.claims|
      && g.claims[g.askedBy[p]].requestId != g.claims[g.askedBy[q]].requestId
  {
    InitialInv(record, lastGateway);
    AlwaysInv(Initial(record, lastGateway), actions, i);
    var g := After(Initial(record, lastGateway), actions, i).gateway;
    assert EntryMatchesClaim(g, g.registry.timers[p]) && EntryMatchesClaim(g, g.registry.timers[q]);
  }

  /**
  A response settles each promise at most once, always one of its own identifier, and with the
  content it answers: a different fingerprint needs the correlation behind the earlier of the two
  claims to have expired or to have been pushed out by 256 other identifiers.
  */
  lemma ResponseFitsItsCall(record: Record, lastGateway: nat, actions: seq<Action>, i: nat, n: nat) returns (m: nat)
    requires record.recentRelays == [] && i <= |actions|
    requires n < |After(Initial(record, lastGateway), actions, i).delivered|
    requires ClaimsInTimeOrder(After(Initial(record, lastGateway), actions, i).gateway.claims)
    ensures DeliveryFaithful(After(Initial(record, lastGateway), actions, i), n, m)
  {
    InitialInv(record, lastGateway);
    AlwaysInv(Initial(record, lastGateway), actions, i);
    AlwaysTableInv(Initial(record, lastGateway), actions, i);
    m := DeliveriesFaithful(After(Initial(record, lastGateway), actions, i), n);
  }

  ghost predicate ClaimsInTimeOrder(claims: seq<ClaimOp>) {
    forall a, b :: 0 <= a < b < |claims| ==> claims[a].now <= claims[b].now
  }

  /** Delivery n answers the call it settles; m names the correlation that was lost when the contents differ. */
  ghost predicate DeliveryFaithful(s: State, n: nat, m: nat)
    requires n < |s.delivered|
  {
    var g, d := s.gateway, s.delivered[n];
    && DeliveryFits(s, d)
    && (forall j :: 0 <= j < |s.delivered| && j != n ==> s.delivered[j].promise != d.promise)
    && var asked := g.askedBy[d.promise];
      && g.claims[asked].requestId == g.claims[d.claim].requestId
      && (g.claims[asked].fingerprint == g.claims[d.claim].fingerprint
        || PushedOut(g.claims, m, Min(asked, d.claim), Max(asked, d.claim)))
  }

  lemma DeliveriesFaithful(s: State, n: nat) returns (m: nat)
    requires DeliveredInv(s) && AllAdmitted(s.gateway.claims) && n < |s.delivered|
      && ClaimsInTimeOrder(s.gateway.claims)
    ensures DeliveryFaithful(s, n, m)
  {
    var g, d := s.gateway, s.delivered[n];
    assert DeliveryFits(s, d);
    m := ContentsAgree(g.claims, g.askedBy[d.promise], d.claim);
  }

  lemma ContentsAgree(claims: seq<ClaimOp>, a: nat, b: nat) returns (m: nat)
    requires AllAdmitted(claims) && ClaimsInTimeOrder(claims) && a < |claims| && b < |claims|
    requires claims[a].requestId == claims[b].requestId
    ensures claims[a].fingerprint == claims[b].fingerprint || PushedOut(claims, m, Min(a, b), Max(a, b))
  {
    m := 0;
    if claims[a].fingerprint != claims[b].fingerprint {
      m := ConflictNeedsEviction(claims, Min(a, b), Max(a, b));
    }
  }
}
