/**
That calls get through. The protocol's steps are said in terms of the state before them, and in every reachable
state with an idle companion an accepted call, left to itself, is sent, dispatched, answered and settled.
*/
module RelayProgress {
  import opened Common
  import opened SessionRecord
  import P = PendingRelays
  import opened RelayProtocol

  // ----- the steps -----

  /**
  A claim's handler that resumes sends its frame exactly when the socket takes it and no call of its identifier
  waits.
  */
  lemma FrameSentIff(s: State, k: nat, sendSucceeds: bool)
    requires k < |s.gateway.claims| && k !in s.gateway.begun && k !in s.gateway.sent
    ensures k in Next(s, BeginRelay(k, sendSucceeds)).gateway.sent <==>
      sendSucceeds && s.gateway.claims[k].requestId !in s.gateway.registry.entries
  {
  }

  /** It leaves a promise waiting exactly when it sent the frame; one whose frame could not be sent fails at once. */
  lemma CallWaitsIff(s: State, k: nat, sendSucceeds: bool)
    requires k < |s.gateway.claims| && k !in s.gateway.begun
    requires s.gateway.claims[k].requestId !in s.gateway.registry.entries
    ensures
      var g, h := s.gateway, Next(s, BeginRelay(k, sendSucceeds)).gateway;
      var id, p := g.claims[k].requestId, |g.registry.promises|;
      && |h.registry.promises| == p + 1 && h.registry.promises[..p] == g.registry.promises
      && h.registry.promises[p] == (if sendSucceeds then [] else [P.Rejected("companion_offline")])
      && (id in h.registry.entries <==> sendSucceeds)
      && (sendSucceeds ==> h.registry.entries[id] == P.Entry(g.claims[k].fingerprint, p) && h.registry.timers[p] == id)
      && (!sendSucceeds ==> h.registry.entries == g.registry.entries)
  {
    if !sendSucceeds {
      assert Next(s, BeginRelay(k, sendSucceeds)).gateway.registry.entries == s.gateway.registry.entries;
    }
  }

  /** An idle companion takes up a sent frame exactly when its number is above both marks and the other checks pass. */
  lemma FrameTakenIff(s: State, k: nat, otherChecksPass: bool)
    requires s.companion.hand.Idle? && k in s.gateway.sent && k < |s.gateway.numbers|
    ensures
      var number, c, d := s.gateway.numbers[k], s.companion, Next(s, DeliverFrame(k, otherChecksPass)).companion;
      var taken := otherChecksPass && number > c.guardLast && number > c.lastGateway;
      && (d.hand == Recorded(k) <==> taken)
      && (taken ==> d.guardLast == d.lastGateway == number)
      && (!taken ==> d.hand == c.hand && d.lastGateway == c.lastGateway && d.guardLast == 0)
  {
  }

  lemma SettlesEmpty(promises: seq<seq<P.Settlement>>, p: nat, s: P.Settlement)
    requires p < |promises| && promises[p] == []
    ensures P.Settle(promises, p, s) == promises[p := [s]]
  {
    assert promises[p] + [s] == [s];
  }

  /** A response settles exactly when its frame was answered and a call of its identifier waits. */
  lemma ResponseSettlesIff(s: State, k: nat, response: nat)
    requires Inv(s) && k < |s.gateway.claims|
    ensures
      var g, t := s.gateway, Next(s, DeliverResponse(k, response));
      var id := g.claims[k].requestId;
      if k in s.companion.answered && id in g.registry.entries then
        var p := g.registry.entries[id].promise;
        && t.gateway.registry.promises == g.registry.promises[p := [P.Resolved(response)]]
        && t.gateway.registry.entries == g.registry.entries - {id}
        && t.delivered == s.delivered + [Delivery(p, k)]
      else t == s
  {
    var g := s.gateway;
    var id := g.claims[k].requestId;
    if id in g.registry.entries {
      SettlesEmpty(g.registry.promises, g.registry.entries[id].promise, P.Resolved(response));
    }
  }

  // ----- both marks stay at or below the counter -----

  ghost predicate MarksInv(s: State) {
    0 <= s.companion.lastGateway <= s.gateway.record.lastRelaySequence
      && s.companion.guardLast <= s.companion.lastGateway
  }

  lemma MarksStep(s: State, a: Action, start: int)
    requires Inv(s) && CounterInv(s.gateway, start) && MarksInv(s)
    ensures MarksInv(Next(s, a))
  {
    CounterStepKeeps(s, a, start);
    assert |s.gateway.claims| <= |Next(s, a).gateway.claims| by {
      GatewayStep(s, a);
    }
  }

  /** Everything a reachable state keeps. */
  ghost predicate Sound(s: State, start: int) {
    Inv(s) && CounterInv(s.gateway, start) && MarksInv(s)
  }

  lemma SoundStep(s: State, a: Action, start: int)
    requires Sound(s, start)
    ensures Sound(Next(s, a), start)
  {
    GatewayStep(s, a);
    CompanionStep(s, a);
    DeliveredStep(s, a);
    CounterStepKeeps(s, a, start);
    MarksStep(s, a, start);
  }

  ghost predicate SoundAt(record: Record, lastGateway: nat, actions: seq<Action>, i: nat)
    requires i <= |actions|
  {
    Sound(After(Initial(record, lastGateway), actions, i), record.lastRelaySequence)
  }

  lemma SoundAtStart(record: Record, lastGateway: nat, actions: seq<Action>)
    requires lastGateway <= record.lastRelaySequence
    ensures SoundAt(record, lastGateway, actions, 0)
  {
    InitialInv(record, lastGateway);
  }

  lemma SoundAtNext(record: Record, lastGateway: nat, actions: seq<Action>, i: nat)
    requires i < |actions| && SoundAt(record, lastGateway, actions, i)
    ensures SoundAt(record, lastGateway, actions, i + 1)
  {
    SoundStep(After(Initial(record, lastGateway), actions, i), actions[i], record.lastRelaySequence);
  }

  lemma {:induction false} AlwaysSound(record: Record, lastGateway: nat, actions: seq<Action>, i: nat)
    requires lastGateway <= record.lastRelaySequence && i <= |actions|
    ensures SoundAt(record, lastGateway, actions, i)
  {
    if i == 0 {
      SoundAtStart(record, lastGateway, actions);
    } else {
      AlwaysSound(record, lastGateway, actions, i - 1);
      SoundAtNext(record, lastGateway, actions, i - 1);
    }
  }

  // ----- a call left to itself -----

  /** The claim, its frame, its dispatch and its response, with nothing in between. */
  function CallRun(k: nat, requestId: string, fingerprint: string, v: Invocation, now: int,
    response: nat): seq<Action> {
    [ClaimRelay(requestId, fingerprint, v, now), BeginRelay(k, true), DeliverFrame(k, true), Dispatch, Answer,
     DeliverResponse(k, response)]
  }

  ghost predicate Completed(s: State, t: State, k: nat, response: nat) {
    && t.companion.hand == Idle
    && t.companion.dispatched == s.companion.dispatched + [k]
    && t.gateway.registry.promises == s.gateway.registry.promises + [[P.Resolved(response)]]
    && t.gateway.registry.entries == s.gateway.registry.entries
    && t.delivered == s.delivered + [Delivery(|s.gateway.registry.promises|, k)]
  }

  lemma ClaimThenSend(s: State, start: int, requestId: string, fingerprint: string, v: Invocation, now: int)
    requires Sound(s, start) && requestId !in s.gateway.registry.entries
    requires Step(s.gateway.record, ClaimEvent(requestId, fingerprint, v, now)).Ok?
    ensures
      var k, g := |s.gateway.claims|, s.gateway;
      var t := Next(Next(s, ClaimRelay(requestId, fingerprint, v, now)), BeginRelay(k, true));
      && t.companion == s.companion && t.delivered == s.delivered
      && k in t.gateway.sent && |t.gateway.numbers| == |t.gateway.claims| == k + 1
      && t.gateway.numbers[k] == g.record.lastRelaySequence + 1 && t.gateway.claims[k].requestId == requestId
      && t.gateway.registry.promises == g.registry.promises + [[]]
      && t.gateway.registry.entries == g.registry.entries[requestId := P.Entry(fingerprint, |g.registry.promises|)]
  {
    SequenceStep(s.gateway.record, ClaimEvent(requestId, fingerprint, v, now));
  }

  lemma FrameThenAnswer(s: State, k: nat)
    requires s.companion.hand.Idle? && k in s.gateway.sent && k < |s.gateway.numbers|
    requires s.gateway.numbers[k] > s.companion.guardLast && s.gateway.numbers[k] > s.companion.lastGateway
    ensures
      var t := Next(Next(Next(s, DeliverFrame(k, true)), Dispatch), Answer);
      && t.gateway == s.gateway && t.delivered == s.delivered && t.companion.hand == Idle
      && t.companion.dispatched == s.companion.dispatched + [k] && k in t.companion.answered
  {
  }

  lemma ResponseCompletes(s: State, t: State, k: nat, requestId: string, fingerprint: string, response: nat)
    requires t.companion.hand == Idle && t.companion.dispatched == s.companion.dispatched + [k]
    requires k in t.companion.answered && k < |t.gateway.claims| && t.gateway.claims[k].requestId == requestId
    requires t.delivered == s.delivered && requestId !in s.gateway.registry.entries
    requires t.gateway.registry.promises == s.gateway.registry.promises + [[]]
    requires t.gateway.registry.entries
      == s.gateway.registry.entries[requestId := P.Entry(fingerprint, |s.gateway.registry.promises|)]
    ensures Completed(s, Next(t, DeliverResponse(k, response)), k, response)
  {
    var p := |s.gateway.registry.promises|;
    SettlesEmpty(t.gateway.registry.promises, p, P.Resolved(response));
    assert (s.gateway.registry.promises + [[]])[p := [P.Resolved(response)]]
      == s.gateway.registry.promises + [[P.Resolved(response)]];
    assert t.gateway.registry.entries - {requestId} == s.gateway.registry.entries;
  }

  lemma CallCompletes(s: State, start: int, requestId: string, fingerprint: string, v: Invocation, now: int,
    response: nat)
    requires Sound(s, start) && s.companion.hand.Idle? && requestId !in s.gateway.registry.entries
    requires Step(s.gateway.record, ClaimEvent(requestId, fingerprint, v, now)).Ok?
    ensures
      var k := |s.gateway.claims|;
      Completed(s, After(s, CallRun(k, requestId, fingerprint, v, now, response), 6), k, response)
  {
    var k := |s.gateway.claims|;
    var run := CallRun(k, requestId, fingerprint, v, now, response);
    AfterSix(s, run);
    ClaimThenSend(s, start, requestId, fingerprint, v, now);
    var sent := Next(Next(s, run[0]), run[1]);
    FrameThenAnswer(sent, k);
    ResponseCompletes(s, Next(Next(Next(sent, run[2]), run[3]), run[4]), k, requestId, fingerprint, response);
  }

  lemma AfterSix(s: State, run: seq<Action>)
    requires |run| == 6
    ensures After(s, run, 6) == Next(Next(Next(Next(Next(Next(s, run[0]), run[1]), run[2]), run[3]), run[4]), run[5])
  {
    assert After(s, run, 0) == s;
    assert After(s, run, 1) == Next(s, run[0]);
    assert After(s, run, 2) == Next(Next(s, run[0]), run[1]);
    assert After(s, run, 3) == Next(Next(Next(s, run[0]), run[1]), run[2]);
    assert After(s, run, 4) == Next(Next(Next(Next(s, run[0]), run[1]), run[2]), run[3]);
  }

  /**
  In every reachable state, whatever was lost, crashed or restarted before, an accepted call that finds the companion
  idle and no other call of its identifier waiting is dispatched once and its response settles its own promise.
  */
  lemma AcceptedCallCompletes(
    record: Record, lastGateway: nat, actions: seq<Action>, i: nat,
    requestId: string, fingerprint: string, v: Invocation, now: int, response: nat)
    requires lastGateway <= record.lastRelaySequence && i <= |actions|
    requires var s := After(Initial(record, lastGateway), actions, i);
      && s.companion.hand.Idle? && requestId !in s.gateway.registry.entries
      && Step(s.gateway.record, ClaimEvent(requestId, fingerprint, v, now)).Ok?
    ensures
      var s := After(Initial(record, lastGateway), actions, i);
      var k := |s.gateway.claims|;
      Completed(s, After(s, CallRun(k, requestId, fingerprint, v, now, response), 6), k, response)
  {
    AlwaysSound(record, lastGateway, actions, i);
    CallCompletes(
      After(Initial(record, lastGateway), actions, i), record.lastRelaySequence,
      requestId, fingerprint, v, now, response);
  }

  /** A lost connection leaves the companion idle, with what it recorded. */
  lemma ConnectionLost(s: State)
    ensures var t := Next(s, LoseConnection);
      && t.gateway == s.gateway && t.delivered == s.delivered && t.companion.hand == Idle
      && t.companion.guardLast == 0 && t.companion.lastGateway == s.companion.lastGateway
      && t.companion.dispatched == s.companion.dispatched && t.companion.answered == s.companion.answered
  {
  }

  /** A restarted object keeps its record and forgets every call; nothing that was under way resumes. */
  lemma ObjectRestarted(s: State)
    ensures var t := Next(s, RestartGateway);
      && t.companion == s.companion && t.delivered == s.delivered && t.gateway.record == s.gateway.record
      && t.gateway.registry.entries == map[] && t.gateway.registry.timers == map[]
      && (forall k :: 0 <= k < |s.gateway.claims| ==> k in t.gateway.begun) && t.gateway.sent == s.gateway.sent
  {
  }

  /** So a call gets through from any reachable state at all, once both sides have started over. */
  lemma CallCompletesAfterRestart(
    record: Record, lastGateway: nat, actions: seq<Action>, i: nat,
    requestId: string, fingerprint: string, v: Invocation, now: int, response: nat)
    requires lastGateway <= record.lastRelaySequence && i <= |actions|
    requires
      Step(After(Initial(record, lastGateway), actions, i).gateway.record,
           ClaimEvent(requestId, fingerprint, v, now)).Ok?
    ensures
      var s := Next(Next(After(Initial(record, lastGateway), actions, i), LoseConnection), RestartGateway);
      var k := |s.gateway.claims|;
      Completed(s, After(s, CallRun(k, requestId, fingerprint, v, now, response), 6), k, response)
  {
    var reached, start := After(Initial(record, lastGateway), actions, i), record.lastRelaySequence;
    AlwaysSound(record, lastGateway, actions, i);
    SoundStep(reached, LoseConnection, start);
    SoundStep(Next(reached, LoseConnection), RestartGateway, start);
    ConnectionLost(reached);
    ObjectRestarted(Next(reached, LoseConnection));
    CallCompletes(Next(Next(reached, LoseConnection), RestartGateway), start, requestId, fingerprint, v, now, response);
  }

  /** In particular the first call of a session. */
  lemma FirstCallCompletes(
    record: Record, lastGateway: nat, requestId: string, fingerprint: string, v: Invocation, now: int, response: nat)
    requires lastGateway <= record.lastRelaySequence
    requires Step(record, ClaimEvent(requestId, fingerprint, v, now)).Ok?
    ensures
      var t := After(Initial(record, lastGateway), CallRun(0, requestId, fingerprint, v, now, response), 6);
      && t.companion.dispatched == [0] && t.gateway.registry.promises == [[P.Resolved(response)]]
      && t.delivered == [Delivery(0, 0)]
  {
    assert After(Initial(record, lastGateway), [], 0) == Initial(record, lastGateway);
    AcceptedCallCompletes(record, lastGateway, [], 0, requestId, fingerprint, v, now, response);
  }
}
