/** The objects of the incident transport: the two verifier states and the session, updated in place. */
module IncidentTransport {
  import opened Wrappers
  import opened IncidentMessages
  import opened VerifierHistory
  import opened VerifierStores
  import opened VerifierVerdicts
  import Sessions = IncidentSessions

  /** The verifier state of one process. */
  class VerifierState {
    var seenNonces: set<string>
    var nonceTimes: map<string, real>
    var rateLog: map<string, seq<real>>

    ghost function Value(): Memory
      reads this
    {
      Memory(seenNonces, nonceTimes, rateLog)
    }

    constructor ()
      ensures Value() == FORGETFUL
    {
      seenNonces, nonceTimes, rateLog := {}, map[], map[];
    }

    method NonceSeen(nonce: string) returns (seen: bool)
      ensures seen <==> nonce in seenNonces
    {
      seen := nonce in seenNonces;
    }

    method MessagesInWindow(node: string, at: real) returns (count: nat)
      modifies this`rateLog
      ensures Value() == Trimmed(old(Value()), node, at)
      ensures count == |LogOf(rateLog, node)|
    {
      var log := LogOf(rateLog, node);
      var recent := [];
      for i := 0 to |log|
        invariant recent == Recent(log[..i], at)
      {
        assert log[..i + 1][..i] == log[..i];
        if at - log[i] < RATE_WINDOW {
          recent := recent + [log[i]];
        }
      }
      assert log[..|log|] == log;
      rateLog := rateLog[node := recent];
      count := |recent|;
    }

    method Accept(node: string, nonce: string, at: real, window: real)
      modifies this
      ensures Value() == MemoryAccept(old(Value()), node, nonce, at, window)
    {
      ghost var before := Value();
      ghost var kept := Unexpired(before.nonceTimes, at, window);
      var left := nonceTimes.Keys;
      while left != {}
        invariant left <= before.nonceTimes.Keys
        invariant nonceTimes == map n | n in before.nonceTimes && (n in left || n in kept) :: before.nonceTimes[n]
        invariant seenNonces == before.seen - (before.nonceTimes.Keys - kept.Keys - left)
        invariant rateLog == before.rateLog
        decreases left
      {
        var n :| n in left;
        left := left - {n};
        if at - nonceTimes[n] > window {
          nonceTimes := nonceTimes - {n};
          seenNonces := seenNonces - {n};
        }
      }
      assert nonceTimes == kept;
      seenNonces := seenNonces + {nonce};
      nonceTimes := nonceTimes[nonce := at];
      rateLog := rateLog[node := LogOf(rateLog, node) + [at]];
    }

    /** `verify_message` over this state. */
    method VerifyMessage(v: Verifier, req: Request) returns (verdict: Verdict)
      modifies this
      ensures (Value(), verdict) == MemoryStep(v, old(Value()), req)
      ensures var log := if req.authenticatedAs in old(rateLog) then old(rateLog)[req.authenticatedAs] else [];
              IsVerdict(verdict, v, req, req.message.body.nonce in old(seenNonces), |InMinute(log, req.at)|)
    {
      MemoryVerdictIff(v, Value(), req);
      var screened := Screen(v, req);
      if screened.Some? {
        return Refused(screened.value);
      }
      var seen := NonceSeen(req.message.body.nonce);
      if seen {
        return Refused(Replay);
      }
      var recent := MessagesInWindow(req.authenticatedAs, req.at);
      if recent >= v.policy.maxPerMinute {
        return Refused(Overloaded(recent));
      }
      Accept(req.authenticatedAs, req.message.body.nonce, req.at, v.policy.replayWindow);
      verdict := Accepted;
    }
  }

  /** The same state in a SQLite file. Each verification is one transaction. */
  class SqliteVerifierState {
    var nonces: map<string, real>
    var messages: seq<Sent>

    ghost function Value(): Tables
      reads this
    {
      Tables(nonces, messages)
    }

    constructor ()
      ensures Value() == NO_ROWS
    {
      nonces, messages := map[], [];
    }

    method NonceSeen(nonce: string) returns (seen: bool)
      ensures seen <==> nonce in nonces
    {
      seen := nonce in nonces;
    }

    /** `SELECT COUNT(*)`: deletes nothing. */
    method MessagesInWindow(node: string, at: real) returns (count: nat)
      ensures count == |Recent(SentBy(messages, node), at)|
    {
      count := 0;
      for i := 0 to |messages|
        invariant count == |Recent(SentBy(messages[..i], node), at)|
      {
        ghost var times := SentBy(messages[..i], node);
        assert messages[..i + 1][..i] == messages[..i];
        assert (times + [messages[i].at])[..|times|] == times;
        if messages[i].node == node {
          assert SentBy(messages[..i + 1], node) == times + [messages[i].at];
        } else {
          assert SentBy(messages[..i + 1], node) == times;
        }
        if messages[i].node == node && at - messages[i].at < RATE_WINDOW {
          count := count + 1;
        }
      }
      assert messages[..|messages|] == messages;
    }

    /** False is the integrity error of the INSERT; the transaction then leaves the tables as they were. */
    method Accept(node: string, nonce: string, at: real, window: real) returns (inserted: bool)
      modifies this
      ensures var after := TablesAccept(old(Value()), node, nonce, at, window);
              inserted == after.Some? && Value() == if inserted then after.value else old(Value())
    {
      var kept := map n | n in nonces && at - nonces[n] <= window :: nonces[n];
      assert kept == Unexpired(nonces, at, window);
      if nonce in kept {
        return false;
      }
      nonces := kept[nonce := at];
      messages := LastMinute(messages, at) + [Sent(node, at)];
      inserted := true;
    }

    /** `verify_message` over this state; None when the INSERT fails. */
    method VerifyMessage(v: Verifier, req: Request) returns (verdict: Option<Verdict>)
      modifies this
      ensures (Value(), verdict) == TablesStep(v, old(Value()), req)
      ensures verdict.Some?
      ensures IsVerdict(verdict.value, v, req, req.message.body.nonce in old(nonces),
                        |SentInMinute(old(messages), req.authenticatedAs, req.at)|)
    {
      TablesVerdictIff(v, Value(), req);
      var screened := Screen(v, req);
      if screened.Some? {
        return Some(Refused(screened.value));
      }
      var seen := NonceSeen(req.message.body.nonce);
      if seen {
        return Some(Refused(Replay));
      }
      var recent := MessagesInWindow(req.authenticatedAs, req.at);
      if recent >= v.policy.maxPerMinute {
        return Some(Refused(Overloaded(recent)));
      }
      var inserted := Accept(req.authenticatedAs, req.message.body.nonce, req.at, v.policy.replayWindow);
      verdict := if inserted then Some(Accepted) else None;
    }
  }

  datatype SendError = ChannelRaised

  datatype Delivery = Delivery(message: Message, at: real)

  function Deliveries(inbox: seq<Delivery>): seq<Sessions.Event> {
    seq(|inbox|, i requires 0 <= i < |inbox| => Sessions.Deliver(inbox[i].message, inbox[i].at))
  }

  class IncidentSession {
    const parties: Sessions.Parties
    const verifier: VerifierState
    var inbox: seq<Delivery>
    var outbox: seq<Message>
    var incidentId: string
    var state: Sessions.State
    var lastSent: Option<Message>
    var diagnosis: Option<map<string, Json>>
    var deployVerification: Option<map<string, Json>>
    var rejected: seq<Sessions.Rejection>
    var counter: nat

    ghost function Value(): Sessions.Session
      reads this, verifier
    {
      Sessions.Session(incidentId, state, lastSent, diagnosis, deployVerification, rejected, counter,
                       verifier.Value(), outbox)
    }

    constructor (parties: Sessions.Parties)
      ensures Value() == Sessions.FRESH && inbox == []
      ensures this.parties == parties && fresh(verifier)
    {
      this.parties := parties;
      this.verifier := new VerifierState();
      inbox, outbox, incidentId, state := [], [], "", Sessions.Submitted;
      lastSent, diagnosis, deployVerification, rejected, counter := None, None, None, [], 0;
    }

    method NextId() returns (id: string)
      modifies this`counter
      ensures counter == old(counter) + 1 && id == Sessions.MessageId(parties, counter)
    {
      counter := counter + 1;
      id := Sessions.MessageId(parties, counter);
    }

    method SubmitIncident(id: string, payload: map<string, Json>, nonce: string, at: real, delivered: bool)
      returns (r: Result<Message, SendError>)
      modifies this
      ensures Value() == Sessions.After(parties, old(Value()), Sessions.Submit(id, payload, nonce, at, delivered))
      ensures inbox == old(inbox)
      ensures r.Ok? <==> delivered
      ensures r.Ok? ==> lastSent == Some(r.value) && outbox == old(outbox) + [r.value]
    {
      incidentId := id;
      var messageId := NextId();
      var body := Body(messageId, parties.selfNode, parties.peerNode, Incident, CONTRACT_VERSION, nonce, Finite(at),
                       map["incident_id" := JText(id)] + payload);
      var msg := Signed(parties.sign, parties.secret, body);
      if !delivered {
        return Err(ChannelRaised);
      }
      outbox := outbox + [msg];
      lastSent := Some(msg);
      state := Sessions.PendingAck;
      r := Ok(msg);
    }

    /** The body of the loop of `pump`, for one inbound message. */
    method Receive(v: Verifier, message: Message, at: real)
      requires v == Sessions.PeerVerifier(parties)
      modifies this, verifier
      ensures Value() == Sessions.AfterDeliver(parties, old(Value()), message, at)
      ensures inbox == old(inbox)
    {
      var verdict := verifier.VerifyMessage(v, Request(message, parties.peerNode, Some(parties.selfNode), at));
      if verdict.Refused? {
        rejected := rejected + [Sessions.NotVerified(verdict.code)];
      } else if !Sessions.About(message, incidentId) {
        rejected := rejected + [Sessions.WrongIncident];
      } else if state == Sessions.DeployVerified || state == Sessions.Failed {
        rejected := rejected + [Sessions.AlreadyClosed(state)];
      } else if message.body.kind == Ack {
        if state == Sessions.PendingAck {
          state := Sessions.Submitted;
        }
      } else if message.body.kind == Diagnosis {
        diagnosis := Some(message.body.payload);
        state := Sessions.Diagnosed;
      } else if message.body.kind == DeployVerification {
        deployVerification := Some(message.body.payload);
        state := if Sessions.SaysVerified(message) then Sessions.DeployVerified else Sessions.Failed;
      }
    }

    /** Consumes every inbound message. */
    method Pump()
      modifies this, verifier
      ensures Value() == Sessions.AfterAll(parties, old(Value()), Deliveries(old(inbox)))
      ensures inbox == []
    {
      ghost var all := inbox;
      ghost var before := Value();
      var v := Verifier(parties.sign, if parties.peerSecret == "" then map[] else map[parties.peerNode := parties.peerSecret],
                        parties.policy);
      ghost var done := 0;
      assert Deliveries(all)[..0] == [];
      while inbox != []
        invariant done <= |all| && inbox == all[done..]
        invariant Value() == Sessions.AfterAll(parties, before, Deliveries(all)[..done])
        decreases |inbox|
      {
        var next := inbox[0];
        assert Deliveries(all)[..done + 1][..done] == Deliveries(all)[..done];
        assert Deliveries(all)[done] == Sessions.Deliver(next.message, next.at);
        inbox := inbox[1..];
        Receive(v, next.message, next.at);
        done := done + 1;
      }
      assert Deliveries(all)[..done] == Deliveries(all);
    }

    method Reconcile(nonce: string, at: real, delivered: bool) returns (r: Result<bool, SendError>)
      modifies this
      ensures Value() == Sessions.After(parties, old(Value()), Sessions.Resend(nonce, at, delivered))
      ensures inbox == old(inbox)
      ensures r == if !Sessions.Resends(old(Value())) then Ok(false) else if delivered then Ok(true) else Err(ChannelRaised)
    {
      if state != Sessions.PendingAck || lastSent.None? {
        return Ok(false);
      }
      var messageId := NextId();
      var last := lastSent.value.body;
      var body := Body(messageId, parties.selfNode, parties.peerNode, last.kind, CONTRACT_VERSION, nonce, Finite(at), last.payload);
      var msg := Signed(parties.sign, parties.secret, body);
      if !delivered {
        return Err(ChannelRaised);
      }
      outbox := outbox + [msg];
      lastSent := Some(msg);
      r := Ok(true);
    }
  }
}
