/** One incident's round trip as data, and what holds over every run of it. */
module IncidentSessions {
  import opened Wrappers
  import opened IncidentMessages
  import opened VerifierHistory
  import opened VerifierStores
  import Decimal

  datatype State = PendingAck | Submitted | Diagnosed | DeployVerified | Failed

  datatype Rejection = NotVerified(code: Code) | WrongIncident | AlreadyClosed(state: State)

  /** The configuration of a session; an empty `peerSecret` means that the peer is not registered. */
  datatype Parties = Parties(selfNode: string, peerNode: string, secret: string, peerSecret: string,
                             sign: (string, Body) -> string, policy: Policy)

  datatype Session = Session(
    incidentId: string,
    state: State,
    lastSent: Option<Message>,
    diagnosis: Option<map<string, Json>>,
    deployVerification: Option<map<string, Json>>,
    rejected: seq<Rejection>,
    counter: nat,
    store: Memory,
    outbox: seq<Message>
  )

  const FRESH := Session("", Submitted, None, None, None, [], 0, FORGETFUL, [])

  /** `delivered` is false when the channel raises instead of sending. */
  datatype Event =
    | Submit(incidentId: string, payload: map<string, Json>, nonce: string, at: real, delivered: bool)
    | Deliver(message: Message, at: real)
    | Resend(nonce: string, at: real, delivered: bool)

  predicate Closed(state: State) {
    state == DeployVerified || state == Failed
  }

  function Rank(state: State): nat {
    match state
    case PendingAck => 0
    case Submitted => 1
    case Diagnosed => 2
    case _ => 3
  }

  function MessageId(p: Parties, n: nat): string {
    "inc-" + p.selfNode + "-" + Decimal.FourDigits(n)
  }

  function Outgoing(p: Parties, n: nat, kind: Kind, nonce: string, at: real, payload: map<string, Json>): Message {
    Signed(p.sign, p.secret,
           Body(MessageId(p, n), p.selfNode, p.peerNode, kind, CONTRACT_VERSION, nonce, Finite(at), payload))
  }

  /** A payload that brings its own "incident_id" overrides the one of the session. */
  function IncidentPayload(incidentId: string, payload: map<string, Json>): map<string, Json> {
    map["incident_id" := JText(incidentId)] + payload
  }

  function AfterSubmit(p: Parties, s: Session, incidentId: string, payload: map<string, Json>, nonce: string,
                       at: real, delivered: bool): Session {
    var n := s.counter + 1;
    var msg := Outgoing(p, n, Incident, nonce, at, IncidentPayload(incidentId, payload));
    var numbered := s.(incidentId := incidentId, counter := n);
    if delivered then numbered.(outbox := s.outbox + [msg], lastSent := Some(msg), state := PendingAck) else numbered
  }

  predicate Resends(s: Session) {
    s.state == PendingAck && s.lastSent.Some?
  }

  function AfterResend(p: Parties, s: Session, nonce: string, at: real, delivered: bool): Session {
    if !Resends(s) then s
    else
      var n := s.counter + 1;
      var msg := Outgoing(p, n, s.lastSent.value.body.kind, nonce, at, s.lastSent.value.body.payload);
      if delivered then s.(counter := n, outbox := s.outbox + [msg], lastSent := Some(msg)) else s.(counter := n)
  }

  function PeerVerifier(p: Parties): Verifier {
    Verifier(p.sign, if p.peerSecret == "" then map[] else map[p.peerNode := p.peerSecret], p.policy)
  }

  function Inbound(p: Parties, message: Message, at: real): Request {
    Request(message, p.peerNode, Some(p.selfNode), at)
  }

  predicate About(message: Message, incidentId: string) {
    "incident_id" in message.body.payload && message.body.payload["incident_id"] == JText(incidentId)
  }

  predicate SaysVerified(message: Message) {
    "verified" in message.body.payload && message.body.payload["verified"] == JBool(true)
  }

  /** Why an inbound message is refused, if it is. */
  function Refusal(p: Parties, s: Session, message: Message, at: real): Option<Rejection> {
    var verdict := MemoryStep(PeerVerifier(p), s.store, Inbound(p, message, at)).1;
    if verdict.Refused? then Some(NotVerified(verdict.code))
    else if !About(message, s.incidentId) then Some(WrongIncident)
    else if Closed(s.state) then Some(AlreadyClosed(s.state))
    else None
  }

  function AfterDeliver(p: Parties, s: Session, message: Message, at: real): Session {
    var stored := s.(store := MemoryStep(PeerVerifier(p), s.store, Inbound(p, message, at)).0);
    var refusal := Refusal(p, s, message, at);
    if refusal.Some? then stored.(rejected := s.rejected + [refusal.value])
    else
      match message.body.kind
      case Ack => if s.state == PendingAck then stored.(state := Submitted) else stored
      case Diagnosis => stored.(diagnosis := Some(message.body.payload), state := Diagnosed)
      case DeployVerification =>
        stored.(deployVerification := Some(message.body.payload),
                state := if SaysVerified(message) then DeployVerified else Failed)
      case _ => stored
  }

  function After(p: Parties, s: Session, e: Event): Session {
    match e
    case Submit(incidentId, payload, nonce, at, delivered) => AfterSubmit(p, s, incidentId, payload, nonce, at, delivered)
    case Deliver(message, at) => AfterDeliver(p, s, message, at)
    case Resend(nonce, at, delivered) => AfterResend(p, s, nonce, at, delivered)
  }

  function AfterAll(p: Parties, s: Session, events: seq<Event>): Session {
    if events == [] then s else After(p, AfterAll(p, s, events[..|events| - 1]), events[|events| - 1])
  }

  predicate NoSubmit(events: seq<Event>) {
    forall i | 0 <= i < |events| :: !events[i].Submit?
  }

  // ----- the state only moves forward

  lemma StepMovesForward(p: Parties, s: Session, e: Event)
    requires !e.Submit?
    ensures Rank(s.state) <= Rank(After(p, s, e).state)
    ensures Closed(s.state) ==>
              var s' := After(p, s, e);
              (s'.state, s'.diagnosis, s'.deployVerification) == (s.state, s.diagnosis, s.deployVerification)
  {
  }

  /** Across any mix of pumping and resending the rank pending-ack < submitted < diagnosed < closed never
      falls, and a closed session keeps its outcome, its diagnosis and its verification for good. */
  lemma {:induction false} OnlyForward(p: Parties, s: Session, events: seq<Event>)
    requires NoSubmit(events)
    ensures Rank(s.state) <= Rank(AfterAll(p, s, events).state)
    ensures Closed(s.state) ==>
              var s' := AfterAll(p, s, events);
              (s'.state, s'.diagnosis, s'.deployVerification) == (s.state, s.diagnosis, s.deployVerification)
  {
    if events != [] {
      var n := |events| - 1;
      OnlyForward(p, s, events[..n]);
      StepMovesForward(p, AfterAll(p, s, events[..n]), events[n]);
    }
  }

  // ----- what a verified deployment means

  /** The message was signed with the secret of the peer, is addressed to this node, is about this incident
      and says that the deployment is verified. */
  predicate ConfirmsDeployment(p: Parties, incidentId: string, message: Message, at: real) {
    && p.peerSecret != ""
    && message.mac == p.sign(p.peerSecret, message.body) != ""
    && message.body.fromNode == p.peerNode
    && message.body.toNode == p.selfNode
    && message.body.kind == DeployVerification
    && About(message, incidentId)
    && SaysVerified(message)
    && message.body.sentAt.Finite?
    && at - p.policy.replayWindow <= message.body.sentAt.t <= at + p.policy.replayWindow
  }

  lemma {:induction false} SameIncident(p: Parties, s: Session, events: seq<Event>)
    requires NoSubmit(events)
    ensures AfterAll(p, s, events).incidentId == s.incidentId
  {
    if events != [] {
      SameIncident(p, s, events[..|events| - 1]);
    }
  }

  lemma DeploymentStep(p: Parties, s: Session, e: Event)
    requires !e.Submit? && s.state != DeployVerified && After(p, s, e).state == DeployVerified
    ensures e.Deliver? && Refusal(p, s, e.message, e.at).None? && ConfirmsDeployment(p, s.incidentId, e.message, e.at)
    ensures After(p, s, e).deployVerification == Some(e.message.body.payload)
  {
    ScreenPasses(PeerVerifier(p), Inbound(p, e.message, e.at));
  }

  /** A session that was open ends as deploy-verified only because one delivered message was accepted: signed
      by the peer, fresh, addressed to this node, about this incident, with `verified` true. Its payload is
      what the session keeps. */
  lemma {:induction false} VerifiedOnlyByThePeer(p: Parties, s: Session, events: seq<Event>) returns (k: nat)
    requires NoSubmit(events) && s.state != DeployVerified && AfterAll(p, s, events).state == DeployVerified
    ensures k < |events| && events[k].Deliver?
    ensures ConfirmsDeployment(p, s.incidentId, events[k].message, events[k].at)
    ensures Refusal(p, AfterAll(p, s, events[..k]), events[k].message, events[k].at).None?
    ensures AfterAll(p, s, events).deployVerification == Some(events[k].message.body.payload)
  {
    var n := |events| - 1;
    var before := AfterAll(p, s, events[..n]);
    SameIncident(p, s, events[..n]);
    if before.state == DeployVerified {
      k := VerifiedOnlyByThePeer(p, s, events[..n]);
      assert events[..n][..k] == events[..k];
      StepMovesForward(p, before, events[n]);
    } else {
      k := n;
      DeploymentStep(p, before, events[n]);
    }
  }

  /** The other direction, for one message: an accepted confirmation closes an open session as verified, and
      an accepted deploy-verification without it closes the session as failed. */
  lemma AcceptedVerificationCloses(p: Parties, s: Session, message: Message, at: real)
    requires Refusal(p, s, message, at).None? && message.body.kind == DeployVerification
    ensures AfterDeliver(p, s, message, at).state == if SaysVerified(message) then DeployVerified else Failed
    ensures !Closed(s.state) && ConfirmsDeployment(p, s.incidentId, message, at) <==> SaysVerified(message)
  {
    ScreenPasses(PeerVerifier(p), Inbound(p, message, at));
  }

  // ----- refused messages

  predicate RefusedAt(p: Parties, s: Session, e: Event) {
    e.Deliver? && Refusal(p, s, e.message, e.at).Some?
  }

  function RefusedCount(p: Parties, s: Session, events: seq<Event>): nat {
    if events == [] then 0
    else
      var n := |events| - 1;
      RefusedCount(p, s, events[..n]) + if RefusedAt(p, AfterAll(p, s, events[..n]), events[n]) then 1 else 0
  }

  lemma RejectedStep(p: Parties, s: Session, e: Event)
    ensures s.rejected <= After(p, s, e).rejected
    ensures |After(p, s, e).rejected| == |s.rejected| + if RefusedAt(p, s, e) then 1 else 0
  {
  }

  /** Every refused message adds exactly one entry to `rejected` and nothing else ever does. */
  lemma {:induction false} OneEntryPerRefusal(p: Parties, s: Session, events: seq<Event>)
    ensures s.rejected <= AfterAll(p, s, events).rejected
    ensures |AfterAll(p, s, events).rejected| == |s.rejected| + RefusedCount(p, s, events)
  {
    if events != [] {
      var n := |events| - 1;
      OneEntryPerRefusal(p, s, events[..n]);
      RejectedStep(p, AfterAll(p, s, events[..n]), events[n]);
    }
  }

  /** Apart from that entry and the bookkeeping of the verifier a refused message changes nothing. */
  lemma RefusedChangesNothingElse(p: Parties, s: Session, message: Message, at: real)
    requires Refusal(p, s, message, at).Some?
    ensures var s' := AfterDeliver(p, s, message, at);
            s'.(rejected := s.rejected, store := s.store) == s
    ensures Refusal(p, s, message, at).value.NotVerified? ==> AfterDeliver(p, s, message, at).store.seen == s.store.seen
  {
  }

  // ----- message ids

  predicate Numbered(p: Parties, outbox: seq<Message>, numbers: seq<nat>, counter: nat) {
    && |numbers| == |outbox|
    && (forall i | 0 <= i < |outbox| :: outbox[i].body.messageId == MessageId(p, numbers[i]) && numbers[i] <= counter)
    && forall i, j | 0 <= i < j < |numbers| :: numbers[i] < numbers[j]
  }

  /** A step sends at most one message, under the next number. */
  lemma NumberingStep(p: Parties, s: Session, e: Event)
    ensures var s' := After(p, s, e);
            && s'.counter >= s.counter
            && (s'.outbox == s.outbox
                || (s'.counter == s.counter + 1 && |s'.outbox| == |s.outbox| + 1 && s.outbox <= s'.outbox
                    && s'.outbox[|s.outbox|].body.messageId == MessageId(p, s'.counter)))
  {
    hide MemoryStep;
  }

  lemma {:induction false} OutboxIsNumbered(p: Parties, events: seq<Event>) returns (numbers: seq<nat>)
    ensures Numbered(p, AfterAll(p, FRESH, events).outbox, numbers, AfterAll(p, FRESH, events).counter)
  {
    hide After, MessageId;
    if events == [] {
      numbers := [];
    } else {
      var n := |events| - 1;
      NumberingStep(p, AfterAll(p, FRESH, events[..n]), events[n]);
      var before, after := AfterAll(p, FRESH, events[..n]), AfterAll(p, FRESH, events);
      numbers := OutboxIsNumbered(p, events[..n]);
      if |after.outbox| > |before.outbox| {
        numbers := numbers + [before.counter + 1];
      }
    }
  }

  lemma MessageIdIsInjective(p: Parties, a: nat, b: nat)
    requires MessageId(p, a) == MessageId(p, b)
    ensures a == b
  {
    var head := "inc-" + p.selfNode + "-";
    assert MessageId(p, a)[|head|..] == Decimal.FourDigits(a);
    assert MessageId(p, b)[|head|..] == Decimal.FourDigits(b);
    Decimal.FourDigitsIsInjective(a, b);
  }

  /** The ids of the messages that one session sends never repeat, whichever sends failed in between. */
  lemma SentIdsNeverRepeat(p: Parties, events: seq<Event>, i: nat, j: nat)
    requires i < j < |AfterAll(p, FRESH, events).outbox|
    ensures var outbox := AfterAll(p, FRESH, events).outbox;
            outbox[i].body.messageId != outbox[j].body.messageId
  {
    var numbers := OutboxIsNumbered(p, events);
    if MessageId(p, numbers[i]) == MessageId(p, numbers[j]) {
      MessageIdIsInjective(p, numbers[i], numbers[j]);
    }
  }

  // ----- resending

  predicate SameIncidentAgain(original: Message, again: Message) {
    && again.body.payload == original.body.payload
    && again.body.kind == original.body.kind
    && (again.body.fromNode, again.body.toNode) == (original.body.fromNode, original.body.toNode)
  }

  lemma StepResends(p: Parties, s: Session, e: Event)
    requires !e.Submit? && s.lastSent.Some?
    requires s.lastSent.value.body.fromNode == p.selfNode && s.lastSent.value.body.toNode == p.peerNode
    ensures var s' := After(p, s, e);
            && s'.lastSent.Some? && SameIncidentAgain(s.lastSent.value, s'.lastSent.value)
            && (s'.outbox == s.outbox || s'.outbox == s.outbox + [s'.lastSent.value])
  {
    hide MemoryStep, MessageId;
  }

  lemma SubmissionGoesToThePeer(p: Parties, s: Session, incidentId: string, payload: map<string, Json>, nonce: string, at: real)
    ensures var sent := AfterSubmit(p, s, incidentId, payload, nonce, at, true).lastSent.value.body;
            sent.fromNode == p.selfNode && sent.toNode == p.peerNode
  {
  }

  /** Every message that a resend puts on the wire repeats the incident that was submitted, payload included,
      so the peer can recognise it. */
  lemma {:induction false} ResendsRepeatTheIncident(p: Parties, s: Session, incidentId: string,
      payload: map<string, Json>, nonce: string, at: real, events: seq<Event>)
    requires NoSubmit(events)
    ensures var s0 := AfterSubmit(p, s, incidentId, payload, nonce, at, true);
            var s' := AfterAll(p, s0, events);
            && s0.outbox <= s'.outbox
            && (forall i | |s0.outbox| <= i < |s'.outbox| :: SameIncidentAgain(s0.lastSent.value, s'.outbox[i]))
            && s'.lastSent.Some? && SameIncidentAgain(s0.lastSent.value, s'.lastSent.value)
  {
    hide After, Outgoing;
    var s0 := AfterSubmit(p, s, incidentId, payload, nonce, at, true);
    SubmissionGoesToThePeer(p, s, incidentId, payload, nonce, at);
    if events != [] {
      var n := |events| - 1;
      ResendsRepeatTheIncident(p, s, incidentId, payload, nonce, at, events[..n]);
      assert !events[n].Submit?;
      StepResends(p, AfterAll(p, s0, events[..n]), events[n]);
    }
  }

  /** After a submission something can be sent again exactly when the channel took it or something could be
      sent again before: a channel that raises changes neither the state nor the last message, so what waited
      for its acknowledgement goes on waiting. */
  lemma WhatCanBeResent(p: Parties, s: Session, incidentId: string, payload: map<string, Json>,
      nonce: string, at: real, delivered: bool)
    ensures var s' := AfterSubmit(p, s, incidentId, payload, nonce, at, delivered);
            && (Resends(s') <==> delivered || Resends(s))
            && (!delivered ==> s'.outbox == s.outbox && s'.lastSent == s.lastSent && s'.state == s.state)
  {
  }

  /** The last submission, or None; the id "" before the first one is that of a fresh session. */
  function LastSubmit(events: seq<Event>): (e: Option<Event>)
    ensures e.Some? ==> e.value.Submit?
  {
    if events == [] then None
    else if events[|events| - 1].Submit? then Some(events[|events| - 1])
    else LastSubmit(events[..|events| - 1])
  }

  /** The last submission that the channel took. */
  function LastTaken(events: seq<Event>): (e: Option<Event>)
    ensures e.Some? ==> e.value.Submit? && e.value.delivered
  {
    if events == [] then None
    else
      var last := events[|events| - 1];
      if last.Submit? && last.delivered then Some(last) else LastTaken(events[..|events| - 1])
  }

  /** What the session is about, and what its last message carries, after any run. */
  lemma {:induction false} SessionFollowsItsSubmissions(p: Parties, events: seq<Event>)
    ensures var s := AfterAll(p, FRESH, events);
            && s.incidentId == (if LastSubmit(events).Some? then LastSubmit(events).value.incidentId else "")
            && (s.lastSent.Some? <==> LastTaken(events).Some?)
            && (s.lastSent.Some? ==>
                  var e := LastTaken(events).value;
                  s.lastSent.value.body.payload == IncidentPayload(e.incidentId, e.payload))
  {
    hide MemoryStep, MessageId, Refusal;
    if events != [] {
      SessionFollowsItsSubmissions(p, events[..|events| - 1]);
    }
  }

  /** The incident that a submission names on the wire: a payload with an "incident_id" of its own names that. */
  predicate Names(e: Event, incidentId: string)
    requires e.Submit?
  {
    if "incident_id" in e.payload then e.payload["incident_id"] == JText(incidentId) else e.incidentId == incidentId
  }

  /** The message that a resend puts on the wire is about the incident of the session if and only if the last
      submission that the channel took names the incident of the last submission. */
  lemma ResendIsAboutTheSessionIff(p: Parties, events: seq<Event>, nonce: string, at: real)
    requires Resends(AfterAll(p, FRESH, events))
    ensures LastSubmit(events).Some? && LastTaken(events).Some?
    ensures var s := AfterAll(p, FRESH, events);
            var s' := AfterResend(p, s, nonce, at, true);
            && s'.outbox == s.outbox + [s'.lastSent.value]
            && (About(s'.lastSent.value, s'.incidentId) <==>
                  Names(LastTaken(events).value, LastSubmit(events).value.incidentId))
  {
    hide AfterAll, MessageId;
    SessionFollowsItsSubmissions(p, events);
    TakenMeansSubmitted(events);
  }

  lemma {:induction false} TakenMeansSubmitted(events: seq<Event>)
    ensures LastTaken(events).Some? ==> LastSubmit(events).Some?
  {
    if events != [] {
      TakenMeansSubmitted(events[..|events| - 1]);
    }
  }

  /** As long as no payload brings an id of its own, that is when the channel took a submission of the incident
      that was submitted last; in particular when it took every submission. */
  lemma WithoutOwnIdsResendsFollow(p: Parties, events: seq<Event>, nonce: string, at: real)
    requires Resends(AfterAll(p, FRESH, events))
    requires forall i | 0 <= i < |events| :: events[i].Submit? ==> "incident_id" !in events[i].payload
    ensures LastSubmit(events).Some? && LastTaken(events).Some?
    ensures var s' := AfterResend(p, AfterAll(p, FRESH, events), nonce, at, true);
            About(s'.lastSent.value, s'.incidentId) <==>
              LastTaken(events).value.incidentId == LastSubmit(events).value.incidentId
    ensures (forall i | 0 <= i < |events| :: events[i].Submit? ==> events[i].delivered) ==>
              LastTaken(events) == LastSubmit(events)
  {
    hide AfterAll, AfterResend, About;
    ResendIsAboutTheSessionIff(p, events, nonce, at);
    TakenIsAnEvent(events);
    if forall i | 0 <= i < |events| :: events[i].Submit? ==> events[i].delivered {
      AllTaken(events);
    }
  }

  lemma {:induction false} TakenIsAnEvent(events: seq<Event>)
    ensures LastTaken(events).Some? ==> LastTaken(events).value in events
  {
    if events != [] {
      TakenIsAnEvent(events[..|events| - 1]);
    }
  }

  lemma {:induction false} AllTaken(events: seq<Event>)
    requires forall i | 0 <= i < |events| :: events[i].Submit? ==> events[i].delivered
    ensures LastTaken(events) == LastSubmit(events)
  {
    if events != [] {
      AllTaken(events[..|events| - 1]);
    }
  }

  /** One incident is submitted and taken, a second one is submitted while the channel raises, then the session
      sends again: it sends the first incident, although it is about the second. */
  lemma OldIncidentIsResent(p: Parties, a: string, b: string, nonce: string, at: real)
    requires a != b
    ensures var events := [Submit(a, map[], nonce, at, true), Submit(b, map[], nonce, at, false)];
            var s := AfterAll(p, FRESH, events);
            var s' := AfterResend(p, s, nonce, at, true);
            && Resends(s) && s'.incidentId == b && |s'.outbox| == 2
            && About(s'.outbox[1], a) && !About(s'.outbox[1], b)
  {
    var events := [Submit(a, map[], nonce, at, true), Submit(b, map[], nonce, at, false)];
    TwoEvents(p, FRESH, events[0], events[1]);
  }

  lemma TwoEvents(p: Parties, s: Session, first: Event, second: Event)
    ensures AfterAll(p, s, [first, second]) == After(p, After(p, s, first), second)
  {
    hide After;
    assert [first, second][..1] == [first] && [first][..0] == [];
    assert AfterAll(p, s, [first]) == After(p, AfterAll(p, s, []), first);
  }
}
