/**
The two signed-sequence domains, client counters against gateway marks, through concurrent
control calls, crashes after allocation, reconnections, and legacy data on either side. The gateway
checks a message's signature before its transaction, so messages of one socket may overtake each other.
*/
module SequenceDomains {
  import opened Common
  import opened SessionRecord
  import opened PairingStateStore

  /**
  `control`: control envelopes in flight, in any order. `held`: a companion number allocated and
  not yet sent. `socket`: the current socket's envelopes in order. `stale`: envelopes of sockets
  since replaced, which may still arrive or not. `overtaken` is history: numbers whose message was still
  being checked when the transaction of a later one of its socket was accepted.
  */
  datatype State = State(
    gateway: Record,
    file: PairingFile,
    control: set<int>,
    held: Option<int>,
    socket: seq<int>,
    stale: set<int>,
    overtaken: set<int>)

  /** How the gateway handles a delivered envelope, apart from its sequence number. */
  datatype Arrival = Arrival(envelope: Envelope, verifiedAt: int, now: int, preserveLastSeen: bool, requireActive: bool)

  datatype Action =
    | AllocateControl
    | AllocateCompanion
    | OldProgramControl
    | OldProgramCompanion
    | SendHeld
    | LoseConnection
    | DeliverControl(sequence: int, arrival: Arrival)
    | DeliverCompanion(place: nat, arrival: Arrival)
    | DeliverStale(sequence: int, arrival: Arrival)
    | ChangeSession(event: Event)

  function Reaches(a: Arrival, sequence: int, domain: Domain): Event {
    VerifyEvent(a.envelope.(sequence := sequence), a.verifiedAt, a.now, domain, a.preserveLastSeen, a.requireActive)
  }

  function Arrive(r: Record, a: Arrival, sequence: int, domain: Domain): Record {
    Apply(r, Reaches(a, sequence, domain))
  }

  /** A program from before the split draws both kinds of number from the single counter. */
  function AfterOldProgram(f: PairingFile): PairingFile {
    f.(nextDevice := f.nextDevice + 1)
  }

  /** The transaction of the message at this place of the socket, ahead of those before it. */
  function Handled(s: State, place: nat, arrival: Arrival): State
    requires place < |s.socket|
  {
    var e, before := Reaches(arrival, s.socket[place], Companion), s.socket[..place];
    s.(
      gateway := Apply(s.gateway, e),
      socket := before + s.socket[place + 1..],
      overtaken := if Step(s.gateway, e).Ok? then s.overtaken + Elements(before) else s.overtaken)
  }

  function Next(s: State, a: Action): State {
    match a
    case AllocateControl => s.(file := AfterControl(s.file), control := s.control + {s.file.nextDevice})
    case AllocateCompanion =>
      if s.held.Some? then s else s.(file := AfterCompanion(s.file), held := Some(NextCompanion(s.file)))
    case OldProgramControl =>
      if s.file.nextCompanion.Some? then s
      else s.(file := AfterOldProgram(s.file), control := s.control + {s.file.nextDevice})
    case OldProgramCompanion =>
      if s.file.nextCompanion.Some? || s.held.Some? then s
      else s.(file := AfterOldProgram(s.file), held := Some(s.file.nextDevice))
    case SendHeld =>
      if s.held.None? then s else s.(held := None, socket := s.socket + [s.held.value])
    case LoseConnection => s.(held := None, socket := [], stale := s.stale + Elements(s.socket))
    case DeliverControl(n, arrival) =>
      if n !in s.control then s
      else s.(gateway := Arrive(s.gateway, arrival, n, Control), control := s.control - {n})
    case DeliverCompanion(place, arrival) => if place >= |s.socket| then s else Handled(s, place, arrival)
    case DeliverStale(n, arrival) =>
      if n !in s.stale then s else s.(gateway := Arrive(s.gateway, arrival, n, Companion), stale := s.stale - {n})
    case ChangeSession(event) => if event.VerifyEvent? then s else s.(gateway := Apply(s.gateway, event))
  }

  function After(s: State, actions: seq<Action>, i: nat): State
    requires i <= |actions|
  {
    if i == 0 then s else Next(After(s, actions, i - 1), actions[i - 1])
  }

  /** On the current socket the companion mark has reached exactly the overtaken numbers. */
  ghost predicate SocketInv(s: State) {
    && StrictlyIncreasing(s.socket)
    && (forall n :: n in s.overtaken ==> n <= Mark(s.gateway, Companion))
    && forall i :: 0 <= i < |s.socket| ==>
      && s.socket[i] < NextCompanion(s.file)
      && (s.socket[i] <= Mark(s.gateway, Companion) ==> s.socket[i] in s.overtaken)
  }

  /** Marks stay below counters, and a number to be sent is above every number sent before. */
  ghost predicate Inv(s: State) {
    && SocketInv(s)
    && Mark(s.gateway, Control) < s.file.nextDevice
    && Mark(s.gateway, Companion) < NextCompanion(s.file)
    && (forall n :: n in s.control ==> n < s.file.nextDevice)
    && (s.held.Some? ==> Mark(s.gateway, Companion) < s.held.value < NextCompanion(s.file))
    && (s.held.Some? ==> forall i :: 0 <= i < |s.socket| ==> s.socket[i] < s.held.value)
    && (forall n :: n in s.stale ==> n < NextCompanion(s.file))
    && (forall n, i :: n in s.stale && 0 <= i < |s.socket| ==> n < s.socket[i])
    && (s.held.Some? ==> forall n :: n in s.stale ==> n < s.held.value)
  }

  /** An arrival moves at most its own domain's mark, and only up to its own number. */
  lemma ArriveMoves(r: Record, a: Arrival, sequence: int, domain: Domain)
    ensures var after := Arrive(r, a, sequence, domain);
      && (Mark(after, domain) == Mark(r, domain) || (Mark(after, domain) == sequence && sequence > Mark(r, domain)))
      && forall other: Domain :: other != domain ==> Mark(after, other) == Mark(r, other)
  {
  }

  /** What acceptance of a message does to the mark, and what it takes. */
  lemma AcceptedMoves(r: Record, a: Arrival, sequence: int)
    ensures var step := Step(r, Reaches(a, sequence, Companion));
      && (step.Ok? <==>
          && sequence > Mark(r, Companion)
          && VerifyEnvelope(a.envelope.(sequence := sequence), a.verifiedAt).Ok?
          && (a.requireActive ==> ActiveAt(r, a.now))
          && !Holds(LiveNonces(r.recentNonces, a.now), a.envelope.nonce))
      && Mark(Apply(r, Reaches(a, sequence, Companion)), Companion) == if step.Ok? then sequence else Mark(r, Companion)
  {
  }

  lemma HandledKeepsSocket(s: State, place: nat, arrival: Arrival)
    requires SocketInv(s) && place < |s.socket|
    ensures SocketInv(Handled(s, place, arrival))
  {
    AcceptedMoves(s.gateway, arrival, s.socket[place]);
    var t := Handled(s, place, arrival);
    forall i | 0 <= i < |t.socket|
      ensures t.socket[i] < NextCompanion(t.file)
      ensures t.socket[i] <= Mark(t.gateway, Companion) ==> t.socket[i] in t.overtaken
    {
      assert t.socket[i] == s.socket[if i < place then i else i + 1];
      assert i < place ==> t.socket[i] in Elements(s.socket[..place]);
    }
  }

  lemma HandledKeepsInv(s: State, place: nat, arrival: Arrival)
    requires Inv(s) && place < |s.socket|
    ensures Inv(Handled(s, place, arrival))
  {
    HandledKeepsSocket(s, place, arrival);
    ArriveMoves(s.gateway, arrival, s.socket[place], Companion);
    var t := Handled(s, place, arrival);
    forall i | 0 <= i < |t.socket| ensures t.socket[i] in s.socket {
      assert t.socket[i] == s.socket[if i < place then i else i + 1];
    }
  }

  lemma DeliveryKeepsInv(s: State, a: Action)
    requires Inv(s) && (a.DeliverControl? || a.DeliverCompanion? || a.DeliverStale?)
    ensures Inv(Next(s, a))
  {
    match a
    case DeliverControl(n, arrival) => ArriveMoves(s.gateway, arrival, n, Control);
    case DeliverCompanion(place, arrival) =>
      if place < |s.socket| {
        HandledKeepsInv(s, place, arrival);
      }
    case DeliverStale(n, arrival) => ArriveMoves(s.gateway, arrival, n, Companion);
  }

  /** Only verified envelopes move a mark. */
  lemma OtherEventsKeepMarks(r: Record, e: Event, domain: Domain)
    requires !e.VerifyEvent?
    ensures Mark(Apply(r, e), domain) == Mark(r, domain)
  {
  }

  lemma CompanionSideKeepsInv(s: State, a: Action)
    requires Inv(s) && !a.DeliverControl? && !a.DeliverCompanion? && !a.DeliverStale? && !a.ChangeSession?
    ensures Inv(Next(s, a))
  {
  }

  lemma NextKeepsInv(s: State, a: Action)
    requires Inv(s)
    ensures Inv(Next(s, a))
  {
    match a
    case DeliverControl(_, _) => DeliveryKeepsInv(s, a);
    case DeliverCompanion(_, _) => DeliveryKeepsInv(s, a);
    case DeliverStale(_, _) => DeliveryKeepsInv(s, a);
    case ChangeSession(event) =>
      if !event.VerifyEvent? {
        OtherEventsKeepMarks(s.gateway, event, Control);
        OtherEventsKeepMarks(s.gateway, event, Companion);
      }
    case _ => CompanionSideKeepsInv(s, a);
  }

  lemma {:induction false} AlwaysInv(s: State, actions: seq<Action>, i: nat)
    requires Inv(s) && i <= |actions|
    ensures Inv(After(s, actions, i))
  {
    if i > 0 {
      AlwaysInv(s, actions, i - 1);
      NextKeepsInv(After(s, actions, i - 1), actions[i - 1]);
    }
  }

  /**
  With nothing in flight it is enough that each mark, legacy or split, is below the counter it is checked
  against.
  */
  lemma QuietStarts(r: Record, file: PairingFile)
    requires Mark(r, Control) < file.nextDevice && Mark(r, Companion) < NextCompanion(file)
    ensures Inv(State(r, file, {}, None, [], {}, {}))
  {
  }

  /** The state of a fresh registration. */
  function Fresh(g: Registration): State {
    State(Registered(g), PairingFile(2, Some(2), 0), {}, None, [], {}, {})
  }

  /** As after a registration: its envelope carried the first number, and both counters stand at the second. */
  lemma RegistrationStarts(g: Registration)
    requires g.initialSequence == 1
    ensures Inv(Fresh(g))
  {
    QuietStarts(Registered(g), PairingFile(2, Some(2), 0));
  }

  /**
  Whatever interleaves, an envelope of the current socket passes the sequence test exactly when no later one of
  its socket was accepted before it; otherwise the gateway can refuse it only for its signature, an inactive
  session or a repeated nonce.
  */
  lemma CompanionInSequenceIff(s: State, actions: seq<Action>, i: nat, place: nat, a: Arrival)
    requires Inv(s) && i <= |actions| && place < |After(s, actions, i).socket|
    ensures var t := After(s, actions, i);
      var number := t.socket[place];
      && (number > Mark(t.gateway, Companion) <==> number !in t.overtaken)
      && (Step(t.gateway, Reaches(a, number, Companion)).Ok? <==>
          && number !in t.overtaken
          && VerifyEnvelope(a.envelope.(sequence := number), a.verifiedAt).Ok?
          && (a.requireActive ==> ActiveAt(t.gateway, a.now))
          && !Holds(LiveNonces(t.gateway.recentNonces, a.now), a.envelope.nonce))
  {
    AlwaysInv(s, actions, i);
    AcceptedMoves(After(s, actions, i).gateway, a, After(s, actions, i).socket[place]);
  }

  ghost predicate HandledInOrder(actions: seq<Action>, i: nat)
    requires i <= |actions|
  {
    forall k :: 0 <= k < i && actions[k].DeliverCompanion? ==> actions[k].place == 0
  }

  lemma {:induction false} NoneOvertaken(s: State, actions: seq<Action>, i: nat)
    requires s.overtaken == {} && i <= |actions| && HandledInOrder(actions, i)
    ensures After(s, actions, i).overtaken == {}
  {
    if i > 0 {
      NoneOvertaken(s, actions, i - 1);
    }
  }

  /** With a socket's messages handled one at a time, in order, none of them is ever out of sequence. */
  lemma CompanionNeverOutOfSequence(s: State, actions: seq<Action>, i: nat)
    requires Inv(s) && s.overtaken == {} && i <= |actions| && HandledInOrder(actions, i)
    ensures var t := After(s, actions, i);
      forall k :: 0 <= k < |t.socket| ==> Mark(t.gateway, Companion) < t.socket[k]
  {
    AlwaysInv(s, actions, i);
    NoneOvertaken(s, actions, i);
  }

  /** An envelope signed, verified and handled at one instant. */
  function Prompt(now: int, nonce: string): Arrival {
    Arrival(Envelope(true, now + 1, now, nonce, 0, true), now, now, false, true)
  }

  /**
  The failing side, from every registration: two answers are on the socket, the transaction of the second comes
  first and is accepted, and the first is refused as replayed, however it arrives.
  */
  lemma OvertakenRefused(g: Registration, nonce: string, late: Arrival)
    requires RegistrationAllowed(g) && g.initialSequence == 1 && nonce != g.initialNonceHash
    requires VerifyEnvelope(late.envelope.(sequence := 2), late.verifiedAt).Ok? && ActiveAt(Registered(g), late.now)
    ensures var actions := [AllocateCompanion, SendHeld, AllocateCompanion, SendHeld,
        DeliverCompanion(1, Prompt(g.createdAt, nonce))];
      var t := After(Fresh(g), actions, 5);
      && t.socket == [2] && Mark(t.gateway, Companion) == 3
      && Step(t.gateway, Reaches(late, 2, Companion)) == Err(HttpError(409, "device_request_replayed"))
  {
    var actions := [AllocateCompanion, SendHeld, AllocateCompanion, SendHeld,
      DeliverCompanion(1, Prompt(g.createdAt, nonce))];
    var s := Fresh(g);
    assert After(s, actions, 0) == s;
    assert After(s, actions, 1) == s.(file := PairingFile(2, Some(3), 0), held := Some(2));
    assert After(s, actions, 2) == s.(file := PairingFile(2, Some(3), 0), socket := [2]);
    assert After(s, actions, 3) == s.(file := PairingFile(2, Some(4), 0), socket := [2], held := Some(3));
    var sent := s.(file := PairingFile(2, Some(4), 0), socket := [2, 3]);
    assert After(s, actions, 4) == sent;
    assert LiveNonces(s.gateway.recentNonces[1..], g.createdAt) == [];
    AcceptedMoves(s.gateway, Prompt(g.createdAt, nonce), 3);
    assert After(s, actions, 5) == Handled(sent, 1, Prompt(g.createdAt, nonce));
    assert [2, 3][..1] + [2, 3][2..] == [2];
  }

  /** Through every run both marks stay below both counters, so neither side ever runs out of acceptable numbers. */
  lemma MarksBelowCounters(s: State, actions: seq<Action>, i: nat)
    requires Inv(s) && i <= |actions|
    ensures var t := After(s, actions, i);
      Mark(t.gateway, Control) < t.file.nextDevice && Mark(t.gateway, Companion) < NextCompanion(t.file)
  {
    AlwaysInv(s, actions, i);
  }

  // ----- that numbers get through -----

  /** What the client draws, from which counter, and where the number goes; nothing else moves. */
  lemma ClientDraws(s: State)
    ensures
      var control, companion := Next(s, AllocateControl), Next(s, AllocateCompanion);
      && control == s.(file := control.file, control := s.control + {s.file.nextDevice})
      && control.file.nextDevice == s.file.nextDevice + 1 && NextCompanion(control.file) == NextCompanion(s.file)
      && (s.held.Some? ==> companion == s)
      && (s.held.None? ==>
        && companion == s.(file := companion.file, held := Some(NextCompanion(s.file)))
        && companion.file.nextDevice == s.file.nextDevice
        && NextCompanion(companion.file) == NextCompanion(s.file) + 1)
  {
  }

  /** A program from before the split draws both from one counter, and only from a file of that time. */
  lemma OldProgramDraws(s: State)
    ensures
      var control, companion := Next(s, OldProgramControl), Next(s, OldProgramCompanion);
      var n := s.file.nextDevice;
      && (s.file.nextCompanion.Some? ==> control == s && companion == s)
      && (s.file.nextCompanion.None? ==>
        && control == s.(file := s.file.(nextDevice := n + 1), control := s.control + {n})
        && companion == if s.held.Some? then s else s.(file := s.file.(nextDevice := n + 1), held := Some(n)))
  {
  }

  /**
  A lost connection drops the number not yet sent, and leaves what was on the socket to arrive late or not at
  all.
  */
  lemma ConnectionLost(s: State)
    ensures Next(s, LoseConnection) == s.(held := None, socket := [], stale := s.stale + Elements(s.socket))
  {
  }

  /** Each envelope is delivered once, and only its own place on the way changes besides the record. */
  lemma DeliveredOnce(s: State, n: int, a: Arrival)
    ensures n in s.control ==>
      Next(s, DeliverControl(n, a)) == s.(gateway := Arrive(s.gateway, a, n, Control), control := s.control - {n})
    ensures n in s.stale ==>
      Next(s, DeliverStale(n, a)) == s.(gateway := Arrive(s.gateway, a, n, Companion), stale := s.stale - {n})
    ensures n !in s.control ==> Next(s, DeliverControl(n, a)) == s
    ensures n !in s.stale ==> Next(s, DeliverStale(n, a)) == s
  {
  }

  /** From any state a control call delivered before any later one passes the sequence test. */
  lemma ControlPasses(s: State, actions: seq<Action>, i: nat, a: Arrival)
    requires Inv(s) && i <= |actions|
    ensures
      var t := Next(After(s, actions, i), AllocateControl);
      var number := After(s, actions, i).file.nextDevice;
      && number in t.control && number > Mark(t.gateway, Control)
      && (Step(t.gateway, Reaches(a, number, Control)).Ok? <==>
          && VerifyEnvelope(a.envelope.(sequence := number), a.verifiedAt).Ok?
          && (a.requireActive ==> ActiveAt(t.gateway, a.now))
          && !Holds(LiveNonces(t.gateway.recentNonces, a.now), a.envelope.nonce))
  {
    AlwaysInv(s, actions, i);
  }

  /** From any state an answer drawn and sent next is last on the socket and passes it, unless overtaken there. */
  lemma AnswerPasses(s: State, actions: seq<Action>, i: nat)
    requires Inv(s) && i <= |actions| && After(s, actions, i).held.None?
    ensures
      var before := After(s, actions, i);
      var t := Next(Next(before, AllocateCompanion), SendHeld);
      && t.socket == before.socket + [NextCompanion(before.file)] && t.held.None?
      && NextCompanion(before.file) > Mark(t.gateway, Companion)
  {
    AlwaysInv(s, actions, i);
  }
}
