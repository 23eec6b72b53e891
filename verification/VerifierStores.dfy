/** The two stores behind `verify_message` as data: the tables of the process memory and the tables of the
    SQLite file, with what each of their operations does. */
module VerifierStores {
  import opened Wrappers
  import opened IncidentMessages
  import opened VerifierHistory

  // ----- in memory

  datatype Memory = Memory(seen: set<string>, nonceTimes: map<string, real>, rateLog: map<string, seq<real>>)

  const FORGETFUL := Memory({}, map[], map[])

  function LogOf(rateLog: map<string, seq<real>>, node: string): seq<real> {
    if node in rateLog then rateLog[node] else []
  }

  /** `messages_in_window` drops what is older than a minute from the log of the node it was asked about. */
  function Trimmed(m: Memory, node: string, at: real): Memory {
    m.(rateLog := m.rateLog[node := Recent(LogOf(m.rateLog, node), at)])
  }

  function Unexpired(times: map<string, real>, at: real, window: real): map<string, real> {
    map n | n in times && at - times[n] <= window :: times[n]
  }

  function MemoryAccept(m: Memory, node: string, nonce: string, at: real, window: real): Memory {
    var kept := Unexpired(m.nonceTimes, at, window);
    Memory(m.seen - (m.nonceTimes.Keys - kept.Keys) + {nonce},
           kept[nonce := at],
           m.rateLog[node := LogOf(m.rateLog, node) + [at]])
  }

  function MemoryStep(v: Verifier, m: Memory, req: Request): (Memory, Verdict) {
    var node := req.authenticatedAs;
    var screened := Screen(v, req);
    if screened.Some? then (m, Refused(screened.value))
    else if req.message.body.nonce in m.seen then (m, Refused(Replay))
    else
      var trimmed := Trimmed(m, node, req.at);
      var recent := |LogOf(trimmed.rateLog, node)|;
      if recent >= v.policy.maxPerMinute then (trimmed, Refused(Overloaded(recent)))
      else (MemoryAccept(trimmed, node, req.message.body.nonce, req.at, v.policy.replayWindow), Accepted)
  }

  function MemoryAfter(v: Verifier, reqs: seq<Request>): Memory {
    if reqs == [] then FORGETFUL else MemoryStep(v, MemoryAfter(v, reqs[..|reqs| - 1]), reqs[|reqs| - 1]).0
  }

  // ----- in SQLite

  datatype Sent = Sent(node: string, at: real)

  datatype Tables = Tables(nonces: map<string, real>, messages: seq<Sent>)

  const NO_ROWS := Tables(map[], [])

  function SentBy(messages: seq<Sent>, node: string): seq<real> {
    if messages == [] then []
    else
      var m := messages[|messages| - 1];
      SentBy(messages[..|messages| - 1], node) + if m.node == node then [m.at] else []
  }

  /** `DELETE FROM messages WHERE ? - at >= 60.0` deletes for every node at once. */
  function LastMinute(messages: seq<Sent>, at: real): seq<Sent> {
    if messages == [] then []
    else
      var m := messages[|messages| - 1];
      LastMinute(messages[..|messages| - 1], at) + if at - m.at < RATE_WINDOW then [m] else []
  }

  /** None is the integrity error of a second row with the same primary key. */
  function InsertNonce(nonces: map<string, real>, nonce: string, at: real): Option<map<string, real>> {
    if nonce in nonces then None else Some(nonces[nonce := at])
  }

  function TablesAccept(s: Tables, node: string, nonce: string, at: real, window: real): Option<Tables> {
    var inserted := InsertNonce(Unexpired(s.nonces, at, window), nonce, at);
    if inserted.None? then None
    else Some(Tables(inserted.value, LastMinute(s.messages, at) + [Sent(node, at)]))
  }

  /** None as a verdict is the integrity error, after which the transaction is rolled back. */
  function TablesStep(v: Verifier, s: Tables, req: Request): (Tables, Option<Verdict>) {
    var node := req.authenticatedAs;
    var screened := Screen(v, req);
    if screened.Some? then (s, Some(Refused(screened.value)))
    else if req.message.body.nonce in s.nonces then (s, Some(Refused(Replay)))
    else
      var recent := |Recent(SentBy(s.messages, node), req.at)|;
      if recent >= v.policy.maxPerMinute then (s, Some(Refused(Overloaded(recent))))
      else
        var accepted := TablesAccept(s, node, req.message.body.nonce, req.at, v.policy.replayWindow);
        if accepted.None? then (s, None) else (accepted.value, Some(Accepted))
  }

  function TablesAfter(v: Verifier, reqs: seq<Request>): Tables {
    if reqs == [] then NO_ROWS else TablesStep(v, TablesAfter(v, reqs[..|reqs| - 1]), reqs[|reqs| - 1]).0
  }
}

/** The store in memory gives the verdicts of the reference verifier, over every run with a clock that does not
    go back. */
module StoreRefinement {
  import opened Wrappers
  import opened IncidentMessages
  import opened VerifierHistory
  import opened VerifierStores

  // ----- trimming does not change what is recent later

  /** Whatever has left the minute at `at` has left it at `later` too. */
  predicate LeavesForGood(times: seq<real>, at: real, later: real) {
    forall i | 0 <= i < |times| && at - times[i] >= RATE_WINDOW :: later - times[i] >= RATE_WINDOW
  }

  lemma {:induction false} RecentOfRecent(times: seq<real>, at: real, later: real)
    requires LeavesForGood(times, at, later)
    ensures Recent(Recent(times, at), later) == Recent(times, later)
  {
    if times != [] {
      var n := |times| - 1;
      assert forall i | 0 <= i < n :: times[..n][i] == times[i];
      RecentOfRecent(times[..n], at, later);
      if at - times[n] < RATE_WINDOW {
        RecentOfAppend(Recent(times[..n], at), times[n], later);
      } else {
        assert Recent(times, at) == Recent(times[..n], at);
        assert Recent(times, later) == Recent(times[..n], later);
      }
    }
  }

  lemma SentByAppend(messages: seq<Sent>, m: Sent, node: string)
    ensures SentBy(messages + [m], node) == SentBy(messages, node) + if m.node == node then [m.at] else []
  {
    assert (messages + [m])[..|messages|] == messages;
  }

  /** The DELETE leaves every node the times that the query of that node would count. */
  lemma {:induction false} SentInLastMinute(messages: seq<Sent>, node: string, at: real)
    ensures SentBy(LastMinute(messages, at), node) == Recent(SentBy(messages, node), at)
  {
    hide LastMinute, SentBy, Recent;
    if messages == [] {
      NothingSent(node, at);
    } else {
      var init, m := messages[..|messages| - 1], messages[|messages| - 1];
      var times, kept := SentBy(init, node), LastMinute(init, at);
      assert messages == init + [m];
      SentInLastMinute(init, node, at);
      LastMinuteOfAppend(init, m, at);
      SentByAppend(init, m, node);
      SentByAppend(kept, m, node);
      RecentOfAppend(times, m.at, at);
      assert times + [] == times && kept + [] == kept && SentBy(kept, node) + [] == SentBy(kept, node);
    }
  }

  lemma NothingSent(node: string, at: real)
    ensures SentBy(LastMinute([], at), node) == Recent(SentBy([], node), at)
  {
  }

  lemma LastMinuteOfAppend(init: seq<Sent>, m: Sent, at: real)
    ensures LastMinute(init + [m], at) == LastMinute(init, at) + if at - m.at < RATE_WINDOW then [m] else []
  {
    assert (init + [m])[..|init|] == init;
  }

  // ----- the coupling of the two states

  predicate SameRates(log: seq<real>, h: History, node: string, at: real) {
    Recent(log, at) == Recent(TimesOf(h, node), at)
  }

  /** What the stores hold when the reference has accepted `h` and the clock stands at `clock`. */
  ghost predicate MemoryCoupled(v: Verifier, h: History, clock: real, m: Memory) {
    && m.seen == m.nonceTimes.Keys
    && m.nonceTimes == Live(h, v.policy.replayWindow)
    && forall node, at | at >= clock :: SameRates(LogOf(m.rateLog, node), h, node, at)
  }

  predicate UpToDate(h: History, clock: real) {
    forall i | 0 <= i < |h| :: h[i].at <= clock
  }

  lemma LiveStep(h: History, a: Acceptance, window: real)
    requires UpToDate(h, a.at) && window >= 0.0
    ensures Live(h + [a], window) == Unexpired(Live(h, window), a.at, window)[NonceOf(a) := a.at]
  {
    assert (h + [a])[..|h|] == h;
    assert LastAccepted(h + [a]) == LastAccepted(h)[NonceOf(a) := a.at];
    if h != [] {
      assert h[|h| - 1].at <= a.at;
    }
  }

  lemma AcceptedIsInWindow(v: Verifier, h: History, req: Request)
    requires Judge(v, h, req).Accepted?
    ensures v.policy.replayWindow >= 0.0
  {
    ScreenPasses(v, req);
  }

  function AcceptanceOf(req: Request): Acceptance {
    Acceptance(req.authenticatedAs, req.at, req.message)
  }

  lemma MemoryRates(m: Memory, h: History, clock: real, req: Request, node: string, at: real)
    requires forall n, t | t >= clock :: SameRates(LogOf(m.rateLog, n), h, n, t)
    requires clock <= req.at <= at
    ensures SameRates(LogOf(Trimmed(m, req.authenticatedAs, req.at).rateLog, node), h, node, at)
    ensures var log := LogOf(Trimmed(m, req.authenticatedAs, req.at).rateLog, req.authenticatedAs) + [req.at];
            SameRates(log, h + [AcceptanceOf(req)], req.authenticatedAs, at)
  {
    var own := req.authenticatedAs;
    var trimmed := Recent(LogOf(m.rateLog, own), req.at);
    RecentOfRecent(LogOf(m.rateLog, own), req.at, at);
    assert SameRates(LogOf(m.rateLog, own), h, own, at);
    assert SameRates(LogOf(m.rateLog, node), h, node, at);
    RecentOfAppend(trimmed, req.at, at);
    TimesStep(h, AcceptanceOf(req), own);
    RecentOfAppend(TimesOf(h, own), req.at, at);
  }

  lemma OtherNodesKeepTheirTimes(h: History, a: Acceptance, node: string)
    requires a.node != node
    ensures TimesOf(h + [a], node) == TimesOf(h, node)
  {
    TimesStep(h, a, node);
  }

  lemma MemoryStepRates(v: Verifier, m: Memory, h: History, clock: real, req: Request)
    requires forall n, t | t >= clock :: SameRates(LogOf(m.rateLog, n), h, n, t)
    requires clock <= req.at && MemoryStep(v, m, req).1.Accepted?
    ensures forall node, at | at >= req.at ::
              SameRates(LogOf(MemoryStep(v, m, req).0.rateLog, node), h + [AcceptanceOf(req)], node, at)
  {
    hide Screen, Recent, TimesOf;
    forall node, at | at >= req.at
      ensures SameRates(LogOf(MemoryStep(v, m, req).0.rateLog, node), h + [AcceptanceOf(req)], node, at)
    {
      MemoryRates(m, h, clock, req, node, at);
      if node != req.authenticatedAs {
        OtherNodesKeepTheirTimes(h, AcceptanceOf(req), node);
      }
    }
  }

  lemma MemoryStepCoupled(v: Verifier, h: History, clock: real, m: Memory, req: Request)
    requires MemoryCoupled(v, h, clock, m) && UpToDate(h, clock) && clock <= req.at
    ensures MemoryStep(v, m, req).1 == Judge(v, h, req)
    ensures MemoryCoupled(v, Next(v, h, req), req.at, MemoryStep(v, m, req).0)
  {
    hide Screen, Live, Recent, TimesOf;
    assert SameRates(LogOf(m.rateLog, req.authenticatedAs), h, req.authenticatedAs, req.at);
    if Judge(v, h, req).Accepted? {
      AcceptedIsInWindow(v, h, req);
      LiveStep(h, AcceptanceOf(req), v.policy.replayWindow);
      MemoryStepRates(v, m, h, clock, req);
    } else {
      forall node, at | at >= req.at
        ensures SameRates(LogOf(Trimmed(m, req.authenticatedAs, req.at).rateLog, node), h, node, at)
      {
        MemoryRates(m, h, clock, req, node, at);
      }
    }
  }

  // ----- whole runs

  lemma {:induction false} RunsCoupled(v: Verifier, reqs: seq<Request>, clock: real)
    requires Clocked(reqs) && (reqs != [] ==> reqs[|reqs| - 1].at <= clock)
    ensures UpToDate(HistoryAfter(v, reqs), clock)
    ensures MemoryCoupled(v, HistoryAfter(v, reqs), clock, MemoryAfter(v, reqs))
  {
    hide MemoryCoupled, Judge, MemoryStep;
    if reqs == [] {
      NothingCoupled(v, clock);
    } else {
      var n := |reqs| - 1;
      var earlier := if n == 0 then reqs[n].at else reqs[n - 1].at;
      RunsCoupled(v, reqs[..n], earlier);
      MemoryStepCoupled(v, HistoryAfter(v, reqs[..n]), earlier, MemoryAfter(v, reqs[..n]), reqs[n]);
      TimePasses(v, HistoryAfter(v, reqs), reqs[n].at, clock, MemoryAfter(v, reqs));
      StepIsUpToDate(v, HistoryAfter(v, reqs[..n]), earlier, reqs[n]);
    }
  }

  lemma NothingCoupled(v: Verifier, clock: real)
    ensures MemoryCoupled(v, [], clock, MemoryAfter(v, []))
  {
  }

  lemma TimePasses(v: Verifier, h: History, clock: real, later: real, m: Memory)
    requires MemoryCoupled(v, h, clock, m) && clock <= later
    ensures MemoryCoupled(v, h, later, m)
  {
  }

  lemma StepIsUpToDate(v: Verifier, h: History, clock: real, req: Request)
    requires UpToDate(h, clock) && clock <= req.at
    ensures UpToDate(Next(v, h, req), req.at)
  {
    hide Judge;
  }

  /** After every run with a clock that does not go back the process memory and the reference that forgets
      nothing give the same verdict, refusal code included, on the next message. */
  lemma MemoryAgrees(v: Verifier, reqs: seq<Request>, req: Request)
    requires Clocked(reqs + [req])
    ensures MemoryStep(v, MemoryAfter(v, reqs), req).1 == Judge(v, HistoryAfter(v, reqs), req)
  {
    hide Judge, MemoryStep, MemoryAfter, HistoryAfter;
    assert (reqs + [req])[|reqs|] == req;
    assert forall i | 0 <= i < |reqs| :: (reqs + [req])[i] == reqs[i];
    RunsCoupled(v, reqs, req.at);
    MemoryStepCoupled(v, HistoryAfter(v, reqs), req.at, MemoryAfter(v, reqs), req);
  }

  /** In memory the set of seen nonces is always the key set of their times, whatever the clock does. */
  lemma {:induction false} SeenAreTimed(v: Verifier, reqs: seq<Request>)
    ensures MemoryAfter(v, reqs).seen == MemoryAfter(v, reqs).nonceTimes.Keys
  {
    if reqs != [] {
      SeenAreTimed(v, reqs[..|reqs| - 1]);
    }
  }

  lemma ClockedParts(earlier: seq<Request>, middle: Request, later: seq<Request>)
    requires Clocked(earlier + [middle] + later)
    ensures Clocked(earlier + [middle]) && Clocked(earlier + later)
  {
    var all := earlier + [middle] + later;
    var n := |earlier|;
    assert forall i | 0 <= i <= n :: all[i] == (earlier + [middle])[i];
    assert forall i | 0 <= i < |earlier + later| :: (earlier + later)[i] == all[if i < n then i else i + 1];
  }

  lemma WithAndWithout(earlier: seq<Request>, middle: Request, later: seq<Request>, req: Request)
    ensures earlier + [middle] + (later + [req]) == earlier + [middle] + later + [req]
    ensures earlier + (later + [req]) == earlier + later + [req]
  {
  }

  /** A refused message consumes no nonce and no rate slot in the memory store: with it or without it in the
      past, the next message meets the same verdict. */
  lemma RefusedIsInvisible(v: Verifier, earlier: seq<Request>, refused: Request, later: seq<Request>, req: Request)
    requires Clocked(earlier + [refused] + later + [req])
    requires MemoryStep(v, MemoryAfter(v, earlier), refused).1.Refused?
    ensures MemoryStep(v, MemoryAfter(v, earlier + [refused] + later), req).1
         == MemoryStep(v, MemoryAfter(v, earlier + later), req).1
  {
    hide Clocked, MemoryStep, MemoryAfter, HistoryAfter, Judge;
    WithAndWithout(earlier, refused, later, req);
    ClockedParts(earlier, refused, later + [req]);
    MemoryAgrees(v, earlier, refused);
    RefusedLeavesNoTrace(v, earlier, refused, later);
    MemoryAgrees(v, earlier + [refused] + later, req);
    MemoryAgrees(v, earlier + later, req);
  }
}
