/** How far a session has come, told by the messages of the peer that it took, and what it has sent. */
module SessionProgress {
  import Decimal
  import opened IncidentMessages
  import opened IncidentSessions
  import opened VerifierStores
  import opened VerifierVerdicts
  import opened Wrappers

  // ----- which messages are taken

  /** The verdict of the session on a message: only the peer is registered, with its own secret if there is one. */
  function VerdictOf(p: Parties, s: Session, message: Message, at: real): Verdict {
    MemoryStep(Verifier(p.sign, if p.peerSecret == "" then map[] else map[p.peerNode := p.peerSecret], p.policy),
               s.store, Request(message, p.peerNode, Some(p.selfNode), at)).1
  }

  predicate Names(message: Message, incidentId: string) {
    "incident_id" in message.body.payload && message.body.payload["incident_id"] == JText(incidentId)
  }

  predicate SaysTrue(message: Message) {
    "verified" in message.body.payload && message.body.payload["verified"] == JBool(true)
  }

  /** Why a message is refused: not verified, about another incident, or too late; else it is taken. */
  lemma RefusalIff(p: Parties, s: Session, message: Message, at: real)
    ensures var refusal, verdict := Refusal(p, s, message, at), VerdictOf(p, s, message, at);
            var ended := s.state == DeployVerified || s.state == Failed;
            && (forall code :: refusal == Some(NotVerified(code)) <==> verdict == Refused(code))
            && (refusal == Some(WrongIncident) <==> verdict == Accepted && !Names(message, s.incidentId))
            && (refusal == Some(AlreadyClosed(s.state)) <==> verdict == Accepted && Names(message, s.incidentId) && ended)
            && (refusal == None <==> verdict == Accepted && Names(message, s.incidentId) && !ended)
  {
    hide MemoryStep;
  }

  /** Without a secret of the peer nothing is ever taken. */
  lemma NothingTakenWithoutASecret(p: Parties, s: Session, message: Message, at: real)
    requires p.peerSecret == ""
    ensures Refusal(p, s, message, at) == Some(NotVerified(UnknownIdentity))
  {
    RefusalIff(p, s, message, at);
    var v := Verifier(p.sign, map[], p.policy);
    MemoryVerdictIff(v, s.store, Request(message, p.peerNode, Some(p.selfNode), at));
    assert FailsFirst(v, Request(message, p.peerNode, Some(p.selfNode), at), 0);
    assert CodeOf(0) == UnknownIdentity;
  }

  /** The message at k is of this kind and was taken. */
  predicate TakenAt(p: Parties, s: Session, events: seq<Event>, k: nat, kind: Kind) {
    && k < |events| && events[k].Deliver? && events[k].message.body.kind == kind
    && Refusal(p, AfterAll(p, s, events[..k]), events[k].message, events[k].at) == None
  }

  ghost predicate Took(p: Parties, s: Session, events: seq<Event>, kind: Kind) {
    exists k: nat :: TakenAt(p, s, events, k, kind)
  }

  lemma TakenEarlier(p: Parties, s: Session, events: seq<Event>, e: Event, k: nat, kind: Kind)
    requires k < |events|
    ensures TakenAt(p, s, events + [e], k, kind) <==> TakenAt(p, s, events, k, kind)
    ensures (events + [e])[k] == events[k]
  {
    hide Refusal, AfterAll;
    assert (events + [e])[..k] == events[..k];
  }

  lemma TakenLast(p: Parties, s: Session, events: seq<Event>, e: Event, kind: Kind)
    ensures TakenAt(p, s, events + [e], |events|, kind) <==>
            e.Deliver? && e.message.body.kind == kind && Refusal(p, AfterAll(p, s, events), e.message, e.at) == None
    ensures AfterAll(p, s, events + [e]) == After(p, AfterAll(p, s, events), e)
  {
    hide Refusal, After;
    assert (events + [e])[..|events|] == events;
  }

  lemma TookMore(p: Parties, s: Session, events: seq<Event>, e: Event, kind: Kind)
    ensures Took(p, s, events + [e], kind) <==> Took(p, s, events, kind) || TakenAt(p, s, events + [e], |events|, kind)
  {
    hide Refusal, AfterAll;
    if k: nat :| TakenAt(p, s, events + [e], k, kind) {
      if k < |events| {
        TakenEarlier(p, s, events, e, k, kind);
      }
    }
    if k: nat :| TakenAt(p, s, events, k, kind) {
      TakenEarlier(p, s, events, e, k, kind);
    }
  }

  // ----- the state, the diagnosis and the verification

  /** The last message of this kind that was taken carries this payload. */
  predicate IsLastTaken(p: Parties, s: Session, events: seq<Event>, k: nat, kind: Kind) {
    TakenAt(p, s, events, k, kind) && forall m: nat | k < m < |events| :: !TakenAt(p, s, events, m, kind)
  }

  ghost predicate Progress(p: Parties, s: Session, events: seq<Event>, s': Session) {
    var ack, diagnosis, verification :=
      Took(p, s, events, Ack), Took(p, s, events, Diagnosis), Took(p, s, events, DeployVerification);
    && (s'.state == PendingAck <==> !ack && !diagnosis && !verification)
    && (s'.state == Submitted <==> ack && !diagnosis && !verification)
    && (s'.state == Diagnosed <==> diagnosis && !verification)
    && (s'.state == DeployVerified <==>
        exists k: nat :: TakenAt(p, s, events, k, DeployVerification) && SaysTrue(events[k].message))
    && (s'.state == Failed <==>
        exists k: nat :: TakenAt(p, s, events, k, DeployVerification) && !SaysTrue(events[k].message))
  }

  /** What the session keeps of a kind of message: the payload of the last one taken. */
  ghost predicate Keeps(p: Parties, s: Session, events: seq<Event>, kind: Kind, before: Option<map<string, Json>>,
                        after: Option<map<string, Json>>) {
    && (!Took(p, s, events, kind) ==> after == before)
    && forall k: nat | IsLastTaken(p, s, events, k, kind) :: after == Some(events[k].message.body.payload)
  }

  lemma StepOfSession(p: Parties, s: Session, e: Event)
    requires !e.Submit?
    ensures var s', taken := After(p, s, e), e.Deliver? && Refusal(p, s, e.message, e.at) == None;
            && (if taken && e.message.body.kind == Ack then s'.state == (if s.state == PendingAck then Submitted else s.state)
                else if taken && e.message.body.kind == Diagnosis then s'.state == Diagnosed
                else if taken && e.message.body.kind == DeployVerification then
                  s'.state == if SaysTrue(e.message) then DeployVerified else Failed
                else s'.state == s.state)
            && s'.diagnosis == (if taken && e.message.body.kind == Diagnosis then Some(e.message.body.payload) else s.diagnosis)
            && s'.deployVerification ==
               (if taken && e.message.body.kind == DeployVerification then Some(e.message.body.payload) else s.deployVerification)
            && (taken ==> s.state != DeployVerified && s.state != Failed)
            && s'.incidentId == s.incidentId
  {
    hide MemoryStep, MessageId;
  }

  lemma ProgressStep(p: Parties, s: Session, events: seq<Event>, e: Event)
    requires !e.Submit? && Progress(p, s, events, AfterAll(p, s, events))
    ensures Progress(p, s, events + [e], AfterAll(p, s, events + [e]))
  {
    hide AfterAll, After, Refusal, SaysTrue, TakenAt;
    var all, before := events + [e], AfterAll(p, s, events);
    StepOfSession(p, before, e);
    TookMore(p, s, events, e, Ack);
    TookMore(p, s, events, e, Diagnosis);
    TookMore(p, s, events, e, DeployVerification);
    TakenLast(p, s, events, e, Ack);
    TakenLast(p, s, events, e, Diagnosis);
    TakenLast(p, s, events, e, DeployVerification);
    assert all[|events|] == e;
    forall k: nat | k < |events|
      ensures TakenAt(p, s, all, k, DeployVerification) <==> TakenAt(p, s, events, k, DeployVerification)
      ensures all[k] == events[k]
    {
      TakenEarlier(p, s, events, e, k, DeployVerification);
    }
    InsideTheRun(p, s, events);
    InsideTheRun(p, s, all);
  }

  lemma InsideTheRun(p: Parties, s: Session, events: seq<Event>)
    ensures forall k: nat, kind :: TakenAt(p, s, events, k, kind) ==> k < |events| && events[k].Deliver?
  {
  }

  /** The state of a session, from a submission that the channel took on: it waits exactly until something is taken,
      an acknowledgement, a diagnosis and a verification move it on, and later ones of less weight change nothing. */
  lemma {:induction false} StateTellsWhatWasTaken(p: Parties, s: Session, events: seq<Event>)
    requires NoSubmit(events) && s.state == PendingAck
    ensures Progress(p, s, events, AfterAll(p, s, events))
  {
    hide After, Refusal, SaysTrue, TakenAt, Progress;
    if events == [] {
      ProgressOfNothing(p, s);
    } else {
      var front, e := events[..|events| - 1], events[|events| - 1];
      assert events == front + [e];
      assert NoSubmit(front);
      assert !e.Submit?;
      StateTellsWhatWasTaken(p, s, front);
      ProgressStep(p, s, front, e);
    }
  }

  lemma ProgressOfNothing(p: Parties, s: Session)
    requires s.state == PendingAck
    ensures Progress(p, s, [], AfterAll(p, s, []))
  {
  }

  lemma KeepsStep(p: Parties, s: Session, events: seq<Event>, e: Event, kind: Kind, before: Option<map<string, Json>>,
                  kept: Option<map<string, Json>>, after: Option<map<string, Json>>)
    requires Keeps(p, s, events, kind, before, kept)
    requires after == if TakenAt(p, s, events + [e], |events|, kind) then Some(e.message.body.payload) else kept
    ensures Keeps(p, s, events + [e], kind, before, after)
  {
    hide AfterAll, Refusal, TakenAt;
    var all := events + [e];
    assert all[|events|] == e;
    TookMore(p, s, events, e, kind);
    forall k: nat | k < |events|
      ensures TakenAt(p, s, all, k, kind) <==> TakenAt(p, s, events, k, kind)
      ensures all[k] == events[k]
    {
      TakenEarlier(p, s, events, e, k, kind);
    }
    InsideTheRun(p, s, events);
    InsideTheRun(p, s, all);
    forall k: nat | IsLastTaken(p, s, all, k, kind) ensures after == Some(all[k].message.body.payload) {
      if k < |events| {
        assert IsLastTaken(p, s, events, k, kind);
      }
    }
  }

  /** The diagnosis and the verification that a session keeps are the payloads of the last ones taken. */
  lemma {:induction false} PayloadsAreThoseTaken(p: Parties, s: Session, events: seq<Event>)
    requires NoSubmit(events)
    ensures var s' := AfterAll(p, s, events);
            && Keeps(p, s, events, Diagnosis, s.diagnosis, s'.diagnosis)
            && Keeps(p, s, events, DeployVerification, s.deployVerification, s'.deployVerification)
  {
    hide After, Refusal, SaysTrue, TakenAt, Keeps;
    if events == [] {
      NothingKept(p, s);
    } else {
      var front, e := events[..|events| - 1], events[|events| - 1];
      assert events == front + [e];
      assert NoSubmit(front);
      assert !e.Submit?;
      PayloadsAreThoseTaken(p, s, front);
      var before, after := AfterAll(p, s, front), AfterAll(p, s, events);
      StepOfSession(p, before, e);
      TakenLast(p, s, front, e, Diagnosis);
      TakenLast(p, s, front, e, DeployVerification);
      KeepsStep(p, s, front, e, Diagnosis, s.diagnosis, before.diagnosis, after.diagnosis);
      KeepsStep(p, s, front, e, DeployVerification, s.deployVerification, before.deployVerification, after.deployVerification);
    }
  }

  lemma NothingKept(p: Parties, s: Session)
    ensures var s' := AfterAll(p, s, []);
            && Keeps(p, s, [], Diagnosis, s.diagnosis, s'.diagnosis)
            && Keeps(p, s, [], DeployVerification, s.deployVerification, s'.deployVerification)
  {
  }

  // ----- what is sent, and when

  /** A submission makes the session be about its incident. One that the channel takes sends the payload with the
      incident id, unless the payload brings one, and waits; one that it does not take sends nothing. */
  lemma SubmissionIsSent(p: Parties, s: Session, incidentId: string, payload: map<string, Json>, nonce: string, at: real,
                         delivered: bool)
    ensures var s' := After(p, s, Submit(incidentId, payload, nonce, at, delivered));
            && s'.incidentId == incidentId && s'.counter == s.counter + 1
            && (s'.diagnosis, s'.deployVerification, s'.rejected, s'.store)
               == (s.diagnosis, s.deployVerification, s.rejected, s.store)
            && if delivered then
                 && s'.state == PendingAck && s'.lastSent.Some? && s'.outbox == s.outbox + [s'.lastSent.value]
                 && var body := s'.lastSent.value.body;
                 && body.messageId == "inc-" + p.selfNode + "-" + Decimal.FourDigits(s'.counter)
                 && body.nonce == nonce && body.sentAt == Finite(at)
                 && forall key :: (key in body.payload <==> key == "incident_id" || key in payload)
                      && (key in payload ==> body.payload[key] == payload[key])
                      && (key !in payload && key == "incident_id" ==> body.payload[key] == JText(incidentId))
               else s'.state == s.state && s'.lastSent == s.lastSent && s'.outbox == s.outbox
  {
    hide Decimal.FourDigits;
  }

  /** A session in any other state sends nothing without a new submission. */
  lemma OnlyPendingSends(p: Parties, s: Session, e: Event)
    requires !e.Submit?
    ensures var s' := After(p, s, e);
            if e.Resend? && e.delivered && s.state == PendingAck && s.lastSent.Some? then
              |s'.outbox| == |s.outbox| + 1 && s.outbox <= s'.outbox
            else s'.outbox == s.outbox
    ensures s.lastSent.Some? ==> After(p, s, e).lastSent.Some?
  {
    hide MemoryStep, MessageId;
  }

  lemma {:induction false} LastSentStays(p: Parties, s: Session, events: seq<Event>)
    requires NoSubmit(events) && s.lastSent.Some?
    ensures AfterAll(p, s, events).lastSent.Some?
  {
    hide After;
    if events != [] {
      var front := events[..|events| - 1];
      assert NoSubmit(front);
      assert !events[|events| - 1].Submit?;
      LastSentStays(p, s, front);
      OnlyPendingSends(p, AfterAll(p, s, front), events[|events| - 1]);
    }
  }

  /** A resend sends exactly if the channel takes it and nothing has been taken from the peer since the submission;
      nothing else sends. In particular nothing is sent again once an acknowledgement was taken. */
  lemma SendsUntilAnswered(p: Parties, s: Session, events: seq<Event>, e: Event)
    requires NoSubmit(events) && !e.Submit? && s.state == PendingAck && s.lastSent.Some?
    ensures var before, after := AfterAll(p, s, events).outbox, After(p, AfterAll(p, s, events), e).outbox;
            var answered := Took(p, s, events, Ack) || Took(p, s, events, Diagnosis) || Took(p, s, events, DeployVerification);
            if e.Resend? && e.delivered && !answered then |after| == |before| + 1 && before <= after else after == before
  {
    hide After, Took, AfterAll;
    StateTellsWhatWasTaken(p, s, events);
    LastSentStays(p, s, events);
    OnlyPendingSends(p, AfterAll(p, s, events), e);
  }

  /** A message as the peer expects it: from this node to the peer, about an incident, signed with the secret of this
      node. */
  predicate IsProper(p: Parties, message: Message) {
    && message.body.fromNode == p.selfNode && message.body.toNode == p.peerNode
    && message.body.kind == Incident && message.body.contractVersion == "incident-transport/1"
    && message.mac == p.sign(p.secret, message.body) && message.body.sentAt.Finite?
  }

  lemma ProperStep(p: Parties, s: Session, e: Event)
    requires s.lastSent.Some? ==> IsProper(p, s.lastSent.value)
    ensures var s' := After(p, s, e);
            && (s'.lastSent.Some? ==> IsProper(p, s'.lastSent.value))
            && (s'.outbox == s.outbox
                || (s'.lastSent.Some? && s'.outbox == s.outbox + [s'.lastSent.value]
                    && s'.lastSent.value.body.sentAt == Finite(e.at)))
  {
    hide MemoryStep, MessageId;
  }

  /** Every message that a session ever sends is one that its peer expects. */
  lemma {:induction false} SentMessagesAreProper(p: Parties, events: seq<Event>)
    ensures var s := AfterAll(p, FRESH, events);
            (s.lastSent.Some? ==> IsProper(p, s.lastSent.value)) && forall i | 0 <= i < |s.outbox| :: IsProper(p, s.outbox[i])
  {
    hide After, IsProper;
    if events != [] {
      var front := events[..|events| - 1];
      SentMessagesAreProper(p, front);
      ProperStep(p, AfterAll(p, FRESH, front), events[|events| - 1]);
    }
  }

  /** A peer that registers the secret of this node finds nothing wrong with it while it is fresh. */
  lemma SentMessagesPassThePeer(p: Parties, events: seq<Event>, i: nat, policy: Policy, at: real)
    requires i < |AfterAll(p, FRESH, events).outbox|
    requires p.sign(p.secret, AfterAll(p, FRESH, events).outbox[i].body) != ""
    ensures var message := AfterAll(p, FRESH, events).outbox[i];
            && message.body.sentAt.Finite?
            && (at - policy.replayWindow <= message.body.sentAt.t <= at + policy.replayWindow <==>
                PassesAll(Verifier(p.sign, map[p.selfNode := p.secret], policy),
                          Request(message, p.selfNode, Some(p.peerNode), at)))
  {
    hide AfterAll, VersionFits;
    SentMessagesAreProper(p, events);
    var message := AfterAll(p, FRESH, events).outbox[i];
    assert IsProper(p, message);
    OwnVersionFits();
    var v, req := Verifier(p.sign, map[p.selfNode := p.secret], policy), Request(message, p.selfNode, Some(p.peerNode), at);
    assert Check(v, req, 5) <==> at - policy.replayWindow <= message.body.sentAt.t <= at + policy.replayWindow;
  }

  lemma OwnVersionFits()
    ensures VersionFits("incident-transport/1")
  {
  }
}
