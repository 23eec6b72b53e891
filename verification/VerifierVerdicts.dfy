/** The verdict on a message, told by the fields of the message, by what is registered and by the messages that were
    accepted before it. */
module VerifierVerdicts {
  import opened ClockCondition
  import opened IncidentMessages
  import opened Sets
  import opened StoreRefinement
  import opened VerifierHistory
  import opened VerifierStores
  import opened Wrappers

  // ----- the checks that look at no state

  /** Version 1 of the contract, or a revision of it. */
  predicate VersionFits(version: string) {
    version == "incident-transport/1" || (|version| >= 21 && version[..21] == "incident-transport/1.")
  }

  lemma VersionText()
    ensures |"incident-transport/1."| == 21 && CONTRACT_VERSION == "incident-transport/1"
  {
  }

  /** Sender, claimed sender, recipient, version, signature and date, in this order. */
  predicate Check(v: Verifier, req: Request, n: nat)
    requires n < 6
  {
    var body := req.message.body;
    if n == 0 then req.authenticatedAs in v.secrets
    else if n == 1 then body.fromNode == req.authenticatedAs
    else if n == 2 then req.expectedTo == None || req.expectedTo == Some(body.toNode)
    else if n == 3 then VersionFits(body.contractVersion)
    else if n == 4 then
      req.authenticatedAs in v.secrets && req.message.mac != "" && req.message.mac == v.sign(v.secrets[req.authenticatedAs], body)
    else
      && body.sentAt.Finite?
      && req.at - v.policy.replayWindow <= body.sentAt.t <= req.at + v.policy.replayWindow
  }

  function CodeOf(n: nat): Code
    requires n < 6
  {
    if n == 0 then UnknownIdentity else if n == 1 then Impersonation else if n == 2 then WrongRecipient
    else if n == 3 then IncompatibleVersion else if n == 4 then BadSignature else Stale
  }

  predicate FailsFirst(v: Verifier, req: Request, n: nat)
    requires n < 6
  {
    !Check(v, req, n) && forall m: nat | m < n :: Check(v, req, m)
  }

  predicate PassesAll(v: Verifier, req: Request) {
    forall n: nat | n < 6 :: Check(v, req, n)
  }

  lemma VersionIff(version: string)
    ensures Compatible(version) <==> VersionFits(version)
  {
    var prefix := "incident-transport/1.";
    VersionText();
    if |version| >= 21 {
      assert prefix <= version <==> version[..21] == prefix;
    }
  }

  /** The first check that fails gives the code, and a message that fails none passes. */
  lemma ScreenIff(v: Verifier, req: Request)
    ensures forall n: nat | n < 6 :: Screen(v, req) == Some(CodeOf(n)) <==> FailsFirst(v, req, n)
    ensures Screen(v, req) == None <==> PassesAll(v, req)
  {
    hide Compatible, VersionFits;
    VersionIff(req.message.body.contractVersion);
    assert Check(v, req, 0) <==> req.authenticatedAs in v.secrets;
    assert PassesAll(v, req) <==>
      Check(v, req, 0) && Check(v, req, 1) && Check(v, req, 2) && Check(v, req, 3) && Check(v, req, 4) && Check(v, req, 5);
  }

  // ----- the verdicts of the two stores

  function InMinute(times: seq<real>, at: real): set<nat> {
    set i: nat | i < |times| && at - times[i] < 60.0
  }

  lemma {:induction false} RecentIsCounted(times: seq<real>, at: real)
    ensures |Recent(times, at)| == |InMinute(times, at)|
  {
    if times != [] {
      var n := |times| - 1;
      RecentIsCounted(times[..n], at);
      assert forall i | 0 <= i < n :: times[..n][i] == times[i];
      GrownByOne(InMinute(times[..n], at), InMinute(times, at), n, at - times[n] < 60.0);
    }
  }

  function SentInMinute(messages: seq<Sent>, node: string, at: real): set<nat> {
    set i: nat | i < |messages| && messages[i].node == node && at - messages[i].at < 60.0
  }

  lemma {:induction false} SentIsCounted(messages: seq<Sent>, node: string, at: real)
    ensures |Recent(SentBy(messages, node), at)| == |SentInMinute(messages, node, at)|
  {
    hide Recent, SentBy;
    if messages == [] {
      NothingSent(node, at);
      NoTimes(at);
    } else {
      var n := |messages| - 1;
      var front, m := messages[..n], messages[n];
      assert messages == front + [m];
      SentIsCounted(front, node, at);
      SentByAppend(front, m, node);
      RecentOfAppend(SentBy(front, node), m.at, at);
      assert SentBy(front, node) + [] == SentBy(front, node);
      assert Recent(SentBy(front, node), at) + [] == Recent(SentBy(front, node), at);
      assert forall i | 0 <= i < n :: front[i] == messages[i];
      GrownByOne(SentInMinute(front, node, at), SentInMinute(messages, node, at), n, m.node == node && at - m.at < 60.0);
    }
  }

  lemma NoTimes(at: real)
    ensures forall node :: SentBy([], node) == []
    ensures Recent([], at) == []
  {
  }

  /** What a verdict means, given whether the nonce is known and how many messages of the node are counted. */
  predicate IsVerdict(verdict: Verdict, v: Verifier, req: Request, known: bool, count: nat) {
    && (forall n: nat | n < 6 :: verdict == Refused(CodeOf(n)) <==> FailsFirst(v, req, n))
    && (verdict == Refused(Replay) <==> PassesAll(v, req) && known)
    && (verdict.Refused? && verdict.code.Overloaded? <==> PassesAll(v, req) && !known && count >= v.policy.maxPerMinute)
    && (verdict.Refused? && verdict.code.Overloaded? ==> verdict.code.recent == count)
    && (verdict == Accepted <==> PassesAll(v, req) && !known && count < v.policy.maxPerMinute)
  }

  lemma VerdictInOrder(verdict: Verdict, v: Verifier, req: Request, known: bool, count: nat)
    requires verdict == if Screen(v, req).Some? then Refused(Screen(v, req).value) else if known then Refused(Replay)
                        else if count >= v.policy.maxPerMinute then Refused(Overloaded(count)) else Accepted
    ensures IsVerdict(verdict, v, req, known, count)
  {
    hide FailsFirst, PassesAll;
    ScreenIff(v, req);
    var screened := Screen(v, req);
    ScreenCodes(v, req);
  }

  lemma ScreenCodes(v: Verifier, req: Request)
    ensures Screen(v, req).Some? ==> !Screen(v, req).value.Replay? && !Screen(v, req).value.Overloaded?
  {
  }

  /** The verdict of the store in memory. */
  lemma MemoryVerdictIff(v: Verifier, m: Memory, req: Request)
    ensures var log := if req.authenticatedAs in m.rateLog then m.rateLog[req.authenticatedAs] else [];
            IsVerdict(MemoryStep(v, m, req).1, v, req, req.message.body.nonce in m.seen, |InMinute(log, req.at)|)
  {
    hide Screen, IsVerdict, Recent, InMinute;
    var log := LogOf(m.rateLog, req.authenticatedAs);
    RecentIsCounted(log, req.at);
    VerdictInOrder(MemoryStep(v, m, req).1, v, req, req.message.body.nonce in m.seen, |InMinute(log, req.at)|);
  }

  /** The verdict of the store in SQLite; the INSERT of a nonce that is not in the table never fails. */
  lemma TablesVerdictIff(v: Verifier, s: Tables, req: Request)
    ensures TablesStep(v, s, req).1.Some?
    ensures IsVerdict(TablesStep(v, s, req).1.value, v, req, req.message.body.nonce in s.nonces,
                      |SentInMinute(s.messages, req.authenticatedAs, req.at)|)
  {
    hide Screen, IsVerdict, Recent, SentInMinute, SentBy, LastMinute;
    SentIsCounted(s.messages, req.authenticatedAs, req.at);
    VerdictInOrder(TablesStep(v, s, req).1.value, v, req, req.message.body.nonce in s.nonces,
                   |SentInMinute(s.messages, req.authenticatedAs, req.at)|);
  }

  // ----- the verdicts of a run

  /** The message at position i of the run was accepted. */
  predicate AcceptedIn(v: Verifier, reqs: seq<Request>, i: nat) {
    i < |reqs| && MemoryStep(v, MemoryAfter(v, reqs[..i]), reqs[i]).1 == Accepted
  }

  /** The accepted messages of a node that lie within a minute before `at`. */
  function AcceptedInMinute(v: Verifier, reqs: seq<Request>, node: string, at: real): set<nat> {
    set i: nat | i < |reqs| && AcceptedIn(v, reqs, i) && reqs[i].authenticatedAs == node && at - reqs[i].at < 60.0
  }

  /** The message at i brought the nonce, and no message accepted since was more than the replay window later. */
  predicate KeepsNonce(v: Verifier, reqs: seq<Request>, i: nat, nonce: string) {
    && AcceptedIn(v, reqs, i) && reqs[i].message.body.nonce == nonce
    && forall j: nat | i <= j < |reqs| && AcceptedIn(v, reqs, j) :: reqs[j].at - reqs[i].at <= v.policy.replayWindow
  }

  lemma AcceptedEarlier(v: Verifier, reqs: seq<Request>, req: Request, i: nat)
    ensures i < |reqs| ==> (AcceptedIn(v, reqs + [req], i) <==> AcceptedIn(v, reqs, i))
    ensures AcceptedIn(v, reqs + [req], |reqs|) <==> MemoryStep(v, MemoryAfter(v, reqs), req).1 == Accepted
  {
    hide MemoryStep, MemoryAfter;
    assert (reqs + [req])[..|reqs|] == reqs;
    if i < |reqs| {
      assert (reqs + [req])[..i] == reqs[..i];
    }
  }

  lemma AcceptedHasAWindow(v: Verifier, m: Memory, req: Request)
    requires MemoryStep(v, m, req).1 == Accepted
    ensures v.policy.replayWindow >= 0.0
  {
    ScreenPasses(v, req);
  }

  /** What an accepted message leaves of the nonces. */
  lemma NoncesAfterAcceptance(v: Verifier, m: Memory, req: Request, nonce: string)
    requires MemoryStep(v, m, req).1 == Accepted
    ensures var times, own := MemoryStep(v, m, req).0.nonceTimes, req.message.body.nonce;
            if nonce == own then nonce in times && times[nonce] == req.at
            else
              && (nonce in times <==> nonce in m.nonceTimes && req.at - m.nonceTimes[nonce] <= v.policy.replayWindow)
              && (nonce in times ==> times[nonce] == m.nonceTimes[nonce])
    ensures req.message.body.nonce !in m.seen
  {
    hide Screen, Recent;
  }

  lemma NoncesAfterRefusal(v: Verifier, m: Memory, req: Request)
    requires MemoryStep(v, m, req).1 != Accepted
    ensures MemoryStep(v, m, req).0.nonceTimes == m.nonceTimes
  {
    hide Screen, Recent;
  }

  lemma KeepsNonceStep(v: Verifier, reqs: seq<Request>, req: Request, i: nat, nonce: string)
    ensures i < |reqs| ==>
              (KeepsNonce(v, reqs + [req], i, nonce) <==>
               KeepsNonce(v, reqs, i, nonce)
               && (MemoryStep(v, MemoryAfter(v, reqs), req).1 == Accepted ==> req.at - reqs[i].at <= v.policy.replayWindow))
    ensures KeepsNonce(v, reqs + [req], |reqs|, nonce) <==>
              && MemoryStep(v, MemoryAfter(v, reqs), req).1 == Accepted
              && req.message.body.nonce == nonce && v.policy.replayWindow >= 0.0
  {
    hide AcceptedIn, MemoryStep, MemoryAfter;
    var all := reqs + [req];
    forall j: nat | j <= |reqs|
      ensures AcceptedIn(v, all, j) <==>
                if j < |reqs| then AcceptedIn(v, reqs, j) else MemoryStep(v, MemoryAfter(v, reqs), req).1 == Accepted
    {
      AcceptedEarlier(v, reqs, req, j);
    }
    assert all[|reqs|] == req && forall j | 0 <= j < |reqs| :: all[j] == reqs[j];
  }

  /** The memory knows a nonce exactly when some accepted message of the run keeps it, whatever the clock did. */
  lemma {:induction false} KnownIff(v: Verifier, reqs: seq<Request>, nonce: string)
    ensures nonce in MemoryAfter(v, reqs).nonceTimes <==> exists i: nat :: KeepsNonce(v, reqs, i, nonce)
    ensures forall i: nat :: KeepsNonce(v, reqs, i, nonce) ==>
              nonce in MemoryAfter(v, reqs).nonceTimes && MemoryAfter(v, reqs).nonceTimes[nonce] == reqs[i].at
    decreases |reqs|
  {
    hide KeepsNonce, MemoryStep, MemoryAfter, AcceptedIn;
    if reqs == [] {
      NoneKept(v, nonce);
    } else {
      var front, req := reqs[..|reqs| - 1], reqs[|reqs| - 1];
      assert reqs == front + [req];
      KnownIff(v, front, nonce);
      KnownStep(v, front, req, nonce);
    }
  }

  lemma NoneKept(v: Verifier, nonce: string)
    ensures nonce !in MemoryAfter(v, []).nonceTimes && forall i: nat :: !KeepsNonce(v, [], i, nonce)
  {
  }

  lemma KeptIsInside(v: Verifier, reqs: seq<Request>, nonce: string)
    ensures forall i: nat :: KeepsNonce(v, reqs, i, nonce) ==> i < |reqs|
  {
  }

  lemma KnownStep(v: Verifier, reqs: seq<Request>, req: Request, nonce: string)
    requires nonce in MemoryAfter(v, reqs).nonceTimes <==> exists i: nat :: KeepsNonce(v, reqs, i, nonce)
    requires forall i: nat :: KeepsNonce(v, reqs, i, nonce) ==>
               nonce in MemoryAfter(v, reqs).nonceTimes && MemoryAfter(v, reqs).nonceTimes[nonce] == reqs[i].at
    ensures var times := MemoryAfter(v, reqs + [req]).nonceTimes;
            && (nonce in times <==> exists i: nat :: KeepsNonce(v, reqs + [req], i, nonce))
            && forall i: nat :: KeepsNonce(v, reqs + [req], i, nonce) ==> nonce in times && times[nonce] == (reqs + [req])[i].at
  {
    hide MemoryStep, MemoryAfter, KeepsNonce;
    var m, all := MemoryAfter(v, reqs), reqs + [req];
    KeptIsInside(v, reqs, nonce);
    KeptIsInside(v, all, nonce);
    StoresGrow(v, reqs, req);
    SeenAreTimed(v, reqs);
    var accepted := MemoryStep(v, m, req).1 == Accepted;
    if accepted {
      AcceptedHasAWindow(v, m, req);
      NoncesAfterAcceptance(v, m, req, nonce);
    } else {
      NoncesAfterRefusal(v, m, req);
    }
    KeepsNonceStep(v, reqs, req, |reqs|, nonce);
    forall i: nat | i < |reqs|
      ensures KeepsNonce(v, all, i, nonce) <==>
                KeepsNonce(v, reqs, i, nonce) && (accepted ==> req.at - reqs[i].at <= v.policy.replayWindow)
      ensures all[i] == reqs[i]
    {
      KeepsNonceStep(v, reqs, req, i, nonce);
    }
  }

  lemma {:induction false} CountedInRun(v: Verifier, reqs: seq<Request>, node: string, at: real)
    requires Clocked(reqs)
    ensures |Recent(TimesOf(HistoryAfter(v, reqs), node), at)| == |AcceptedInMinute(v, reqs, node, at)|
  {
    hide Judge, MemoryStep, MemoryAfter, TimesOf, Recent, AcceptedIn, HistoryAfter;
    if reqs == [] {
      NothingCounted(v, node, at);
    } else {
      var n := |reqs| - 1;
      var front, req := reqs[..n], reqs[n];
      assert reqs == front + [req];
      CountedInRun(v, front, node, at);
      AcceptedByBoth(v, front, req);
      LastOf(v, front, req);
      CountStep(v, HistoryAfter(v, front), req, node, at);
      forall i: nat | i <= n
        ensures AcceptedIn(v, reqs, i) <==> if i < n then AcceptedIn(v, front, i) else Judge(v, HistoryAfter(v, front), req).Accepted?
      {
        AcceptedEarlier(v, front, req, i);
      }
      GrownByOne(AcceptedInMinute(v, front, node, at), AcceptedInMinute(v, reqs, node, at), n,
                 Judge(v, HistoryAfter(v, front), req).Accepted? && req.authenticatedAs == node && at - req.at < 60.0);
    }
  }

  lemma NothingCounted(v: Verifier, node: string, at: real)
    ensures |Recent(TimesOf(HistoryAfter(v, []), node), at)| == |AcceptedInMinute(v, [], node, at)|
  {
    assert AcceptedInMinute(v, [], node, at) == {};
  }

  lemma AcceptedByBoth(v: Verifier, reqs: seq<Request>, req: Request)
    requires Clocked(reqs + [req])
    ensures Judge(v, HistoryAfter(v, reqs), req).Accepted? <==> MemoryStep(v, MemoryAfter(v, reqs), req).1 == Accepted
  {
    hide Judge, MemoryStep, MemoryAfter, HistoryAfter;
    MemoryAgrees(v, reqs, req);
  }

  lemma CountStep(v: Verifier, h: History, req: Request, node: string, at: real)
    ensures |Recent(TimesOf(Next(v, h, req), node), at)|
            == |Recent(TimesOf(h, node), at)|
               + if Judge(v, h, req).Accepted? && req.authenticatedAs == node && at - req.at < 60.0 then 1 else 0
  {
    hide Judge, TimesOf, Recent;
    if Judge(v, h, req).Accepted? {
      TimesStep(h, Acceptance(req.authenticatedAs, req.at, req.message), node);
      RecentOfAppend(TimesOf(h, node), req.at, at);
      assert TimesOf(h, node) + [] == TimesOf(h, node);
    }
  }

  lemma CountsOfBoth(v: Verifier, reqs: seq<Request>, req: Request)
    requires Clocked(reqs + [req])
    ensures Clocked(reqs)
    ensures Recent(LogOf(MemoryAfter(v, reqs).rateLog, req.authenticatedAs), req.at)
            == Recent(TimesOf(HistoryAfter(v, reqs), req.authenticatedAs), req.at)
  {
    hide MemoryAfter, HistoryAfter, Recent, TimesOf, Live;
    var all := reqs + [req];
    assert all[|reqs|] == req && forall i | 0 <= i < |reqs| :: all[i] == reqs[i];
    RunsCoupled(v, reqs, req.at);
    assert SameRates(LogOf(MemoryAfter(v, reqs).rateLog, req.authenticatedAs), HistoryAfter(v, reqs), req.authenticatedAs, req.at);
  }

  /** The verdict on the last message of a run with a clock that does not go back, in both stores: the nonce is known
      exactly when some accepted message keeps it, and what is counted are the accepted messages of the node in
      the last minute. */
  lemma VerdictOfARun(v: Verifier, reqs: seq<Request>, req: Request)
    requires Clocked(reqs + [req])
    ensures IsVerdict(MemoryStep(v, MemoryAfter(v, reqs), req).1, v, req,
                      exists i: nat :: KeepsNonce(v, reqs, i, req.message.body.nonce),
                      |AcceptedInMinute(v, reqs, req.authenticatedAs, req.at)|)
    ensures TablesStep(v, TablesAfter(v, reqs), req).1 == Some(MemoryStep(v, MemoryAfter(v, reqs), req).1)
  {
    hide Screen, MemoryAfter, TablesAfter, TablesStep, HistoryAfter, IsVerdict, KeepsNonce, AcceptedInMinute, Recent, TimesOf, Live;
    StoresAgree(v, reqs, req);
    CountsOfBoth(v, reqs, req);
    CountedInRun(v, reqs, req.authenticatedAs, req.at);
    KnownIff(v, reqs, req.message.body.nonce);
    SeenAreTimed(v, reqs);
    VerdictInOrder(MemoryStep(v, MemoryAfter(v, reqs), req).1, v, req,
                   exists i: nat :: KeepsNonce(v, reqs, i, req.message.body.nonce),
                   |AcceptedInMinute(v, reqs, req.authenticatedAs, req.at)|);
  }
}
