/** A reference verifier that forgets nothing: its whole state is the list of the messages it accepted. What
    it counts as replayed or as too many is read off that list. */
module VerifierHistory {
  import opened Wrappers
  import opened IncidentMessages

  const RATE_WINDOW := 60.0

  datatype Acceptance = Acceptance(node: string, at: real, message: Message)

  type History = seq<Acceptance>

  function NonceOf(a: Acceptance): string {
    a.message.body.nonce
  }

  /** When each nonce was last accepted. */
  function LastAccepted(h: History): map<string, real> {
    if h == [] then map[]
    else
      var a := h[|h| - 1];
      LastAccepted(h[..|h| - 1])[NonceOf(a) := a.at]
  }

  /** The nonces that the last acceptance did not yet find older than the window. */
  function Live(h: History, window: real): map<string, real> {
    if h == [] then map[]
    else
      var last := LastAccepted(h);
      map n | n in last && h[|h| - 1].at - last[n] <= window :: last[n]
  }

  function TimesOf(h: History, node: string): seq<real> {
    if h == [] then []
    else
      var a := h[|h| - 1];
      TimesOf(h[..|h| - 1], node) + if a.node == node then [a.at] else []
  }

  /** `[t for t in times if at - t < 60]` */
  function Recent(times: seq<real>, at: real): seq<real> {
    if times == [] then []
    else
      var t := times[|times| - 1];
      Recent(times[..|times| - 1], at) + if at - t < RATE_WINDOW then [t] else []
  }

  function Judge(v: Verifier, h: History, req: Request): Verdict {
    var screened := Screen(v, req);
    var recent := |Recent(TimesOf(h, req.authenticatedAs), req.at)|;
    if screened.Some? then Refused(screened.value)
    else if req.message.body.nonce in Live(h, v.policy.replayWindow) then Refused(Replay)
    else if recent >= v.policy.maxPerMinute then Refused(Overloaded(recent))
    else Accepted
  }

  function Next(v: Verifier, h: History, req: Request): History {
    if Judge(v, h, req).Accepted? then h + [Acceptance(req.authenticatedAs, req.at, req.message)] else h
  }

  function HistoryAfter(v: Verifier, reqs: seq<Request>): History {
    if reqs == [] then [] else Next(v, HistoryAfter(v, reqs[..|reqs| - 1]), reqs[|reqs| - 1])
  }

  /** The clock of the verifier never goes back. */
  predicate Clocked(reqs: seq<Request>) {
    forall i, j | 0 <= i < j < |reqs| :: reqs[i].at <= reqs[j].at
  }

  predicate Ascending(h: History) {
    forall i, j | 0 <= i < j < |h| :: h[i].at <= h[j].at
  }

  // ----- basic facts

  lemma LastOf(v: Verifier, reqs: seq<Request>, req: Request)
    ensures (reqs + [req])[..|reqs|] == reqs
    ensures HistoryAfter(v, reqs + [req]) == Next(v, HistoryAfter(v, reqs), req)
  {
    assert (reqs + [req])[..|reqs|] == reqs;
  }

  lemma RecentOfAppend(times: seq<real>, t: real, at: real)
    ensures Recent(times + [t], at) == Recent(times, at) + if at - t < RATE_WINDOW then [t] else []
  {
    assert (times + [t])[..|times|] == times;
  }

  lemma {:induction false} HistoryAscends(v: Verifier, reqs: seq<Request>)
    requires Clocked(reqs)
    ensures Ascending(HistoryAfter(v, reqs))
    ensures forall i | 0 <= i < |HistoryAfter(v, reqs)| ::
              reqs != [] && HistoryAfter(v, reqs)[i].at <= reqs[|reqs| - 1].at
  {
    if reqs != [] {
      HistoryAscends(v, reqs[..|reqs| - 1]);
    }
  }

  lemma {:induction false} LastAcceptedMeans(h: History, nonce: string)
    requires Ascending(h)
    ensures nonce in LastAccepted(h) <==> exists i :: 0 <= i < |h| && NonceOf(h[i]) == nonce
    ensures forall i | 0 <= i < |h| && NonceOf(h[i]) == nonce :: h[i].at <= LastAccepted(h)[nonce]
    ensures nonce in LastAccepted(h) ==> exists i :: 0 <= i < |h| && NonceOf(h[i]) == nonce && h[i].at == LastAccepted(h)[nonce]
  {
    if h != [] {
      var n := |h| - 1;
      LastAcceptedMeans(h[..n], nonce);
      assert h == h[..n] + [h[n]];
      if NonceOf(h[n]) != nonce && nonce in LastAccepted(h[..n]) {
        var i :| 0 <= i < n && NonceOf(h[..n][i]) == nonce && h[..n][i].at == LastAccepted(h[..n])[nonce];
        assert NonceOf(h[i]) == nonce;
      }
    }
  }

  // ----- replays

  lemma {:induction false} AcceptedWere(v: Verifier, reqs: seq<Request>, i: nat) returns (k: nat)
    requires i < |HistoryAfter(v, reqs)|
    ensures k < |reqs| && HistoryAfter(v, reqs[..k]) == HistoryAfter(v, reqs)[..i]
    ensures Judge(v, HistoryAfter(v, reqs[..k]), reqs[k]).Accepted?
    ensures HistoryAfter(v, reqs)[i] == Acceptance(reqs[k].authenticatedAs, reqs[k].at, reqs[k].message)
  {
    var n := |reqs| - 1;
    var before := HistoryAfter(v, reqs[..n]);
    if i < |before| {
      k := AcceptedWere(v, reqs[..n], i);
      assert reqs[..n][..k] == reqs[..k];
      assert HistoryAfter(v, reqs)[..i] == before[..i];
    } else {
      k := n;
      assert HistoryAfter(v, reqs)[..i] == before;
    }
  }

  /** Whatever the store forgets, a nonce comes back only after the whole replay window has passed, and only
      on a message dated after the first acceptance. */
  lemma ReplaysAreFarApart(v: Verifier, reqs: seq<Request>, i: nat, j: nat)
    requires Clocked(reqs) && i < j < |HistoryAfter(v, reqs)|
    requires NonceOf(HistoryAfter(v, reqs)[i]) == NonceOf(HistoryAfter(v, reqs)[j])
    ensures var h := HistoryAfter(v, reqs);
            && h[j].at - h[i].at > v.policy.replayWindow
            && h[j].message.body.sentAt.Finite? && h[j].message.body.sentAt.t > h[i].at
  {
    hide HistoryAfter, Clocked, LastAccepted;
    var h := HistoryAfter(v, reqs);
    HistoryAscends(v, reqs);
    var k := AcceptedWere(v, reqs, j);
    var before := h[..j];
    assert Ascending(before);
    LastAcceptedMeans(before, NonceOf(h[j]));
    assert before[i] == h[i];
    assert NonceOf(before[i]) == NonceOf(h[j]);
    assert NonceOf(h[j]) !in Live(before, v.policy.replayWindow);
    assert before[|before| - 1] == h[j - 1];
  }

  /** A message that is not dated after its own first acceptance is accepted at most once in the whole run. */
  lemma NotFutureDatedOnce(v: Verifier, reqs: seq<Request>, first: nat, other: nat)
    requires Clocked(reqs) && first <= other < |HistoryAfter(v, reqs)|
    requires HistoryAfter(v, reqs)[first].message == HistoryAfter(v, reqs)[other].message
    requires var a := HistoryAfter(v, reqs)[first];
             a.message.body.sentAt.Finite? && a.message.body.sentAt.t <= a.at
    ensures first == other
  {
    if first < other {
      ReplaysAreFarApart(v, reqs, first, other);
    }
  }

  // ----- rates

  /** The times of the half-open window [from, from + 60). */
  function InWindow(times: seq<real>, from: real): nat {
    if times == [] then 0
    else
      var t := times[|times| - 1];
      InWindow(times[..|times| - 1], from) + if from <= t < from + RATE_WINDOW then 1 else 0
  }

  lemma {:induction false} WindowIsRecent(times: seq<real>, from: real, at: real)
    requires at < from + RATE_WINDOW
    ensures InWindow(times, from) <= |Recent(times, at)|
  {
    if times != [] {
      WindowIsRecent(times[..|times| - 1], from, at);
    }
  }

  function Allowed(v: Verifier): nat {
    if v.policy.maxPerMinute < 0 then 0 else v.policy.maxPerMinute
  }

  lemma TimesStep(h: History, a: Acceptance, node: string)
    ensures TimesOf(h + [a], node) == TimesOf(h, node) + if a.node == node then [a.at] else []
  {
    assert (h + [a])[..|h|] == h;
  }

  lemma RateStep(v: Verifier, h: History, req: Request, node: string, from: real)
    requires InWindow(TimesOf(h, node), from) <= Allowed(v)
    ensures InWindow(TimesOf(Next(v, h, req), node), from) <= Allowed(v)
  {
    if Judge(v, h, req).Accepted? {
      var times := TimesOf(h, node);
      TimesStep(h, Acceptance(req.authenticatedAs, req.at, req.message), node);
      if req.authenticatedAs == node {
        assert (times + [req.at])[..|times|] == times;
        if from <= req.at < from + RATE_WINDOW {
          WindowIsRecent(times, from, req.at);
        }
      } else {
        assert times + [] == times;
      }
    }
  }

  /** No node ever has more than the allowed number of accepted messages in any window of one minute. */
  lemma {:induction false} RateBound(v: Verifier, reqs: seq<Request>, node: string, from: real)
    ensures InWindow(TimesOf(HistoryAfter(v, reqs), node), from) <= Allowed(v)
  {
    if reqs != [] {
      var n := |reqs| - 1;
      RateBound(v, reqs[..n], node, from);
      RateStep(v, HistoryAfter(v, reqs[..n]), reqs[n], node, from);
    }
  }

  // ----- refused messages

  /** A refused message leaves no trace: taking it out of the run changes what no other message meets. */
  lemma {:induction false} RefusedLeavesNoTrace(v: Verifier, earlier: seq<Request>, refused: Request, later: seq<Request>)
    requires Judge(v, HistoryAfter(v, earlier), refused).Refused?
    ensures HistoryAfter(v, earlier + [refused] + later) == HistoryAfter(v, earlier + later)
  {
    if later == [] {
      LastOf(v, earlier, refused);
      assert earlier + [refused] + later == earlier + [refused];
      assert earlier + later == earlier;
    } else {
      var n := |later| - 1;
      RefusedLeavesNoTrace(v, earlier, refused, later[..n]);
      assert earlier + [refused] + later == (earlier + [refused] + later[..n]) + [later[n]];
      assert earlier + later == (earlier + later[..n]) + [later[n]];
      LastOf(v, earlier + [refused] + later[..n], later[n]);
      LastOf(v, earlier + later[..n], later[n]);
    }
  }
}
