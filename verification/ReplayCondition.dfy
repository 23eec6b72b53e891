/** Exactly which accepted messages can be accepted a second time. */
module ReplayCondition {
  import opened Wrappers
  import opened IncidentMessages
  import opened VerifierHistory

  /** After the run `reqs` and the acceptance of `first`, some continuation with a clock that does not go
      back ends in a second acceptance of the very same message. */
  ghost predicate CanBeAcceptedAgain(v: Verifier, reqs: seq<Request>, first: Request) {
    exists more: seq<Request>, again: Request ::
      Clocked(reqs + [first] + more + [again]) && AcceptsAgain(v, reqs + [first] + more, first, again)
  }

  predicate AcceptsAgain(v: Verifier, sofar: seq<Request>, first: Request, again: Request) {
    again.message == first.message && Judge(v, HistoryAfter(v, sofar), again).Accepted?
  }

  lemma {:induction false} LongerThan(keys: set<string>) returns (bound: nat)
    ensures forall k | k in keys :: |k| < bound
    decreases keys
  {
    bound := 0;
    if keys != {} {
      var k :| k in keys;
      var rest := LongerThan(keys - {k});
      bound := if rest > |k| then rest else |k| + 1;
    }
  }

  lemma {:induction false} OldOnesAreNotRecent(h: History, node: string, at: real)
    requires forall i | 0 <= i < |h| :: at - h[i].at >= RATE_WINDOW
    ensures Recent(TimesOf(h, node), at) == []
  {
    if h != [] {
      var n := |h| - 1;
      OldOnesAreNotRecent(h[..n], node, at);
      var times := TimesOf(h[..n], node);
      assert TimesOf(h, node)[..|times|] == times;
      if h[n].node != node {
        assert TimesOf(h, node) == times;
      }
    }
  }

  /** The last instant at which the message is not stale. */
  function LastChance(v: Verifier, first: Request): real
    requires first.message.body.sentAt.Finite?
  {
    first.message.body.sentAt.t + v.policy.replayWindow
  }

  /** A message of a node, dated at the instant it arrives, with a nonce of its own. */
  function Filler(v: Verifier, first: Request, node: string, nonce: string, at: real): Request
    requires node in v.secrets
  {
    var body := first.message.body.(fromNode := node, nonce := nonce, sentAt := Finite(at));
    first.(message := Signed(v.sign, v.secrets[node], body), authenticatedAs := node, at := at)
  }

  /** A keyed hash in hexadecimal is never the empty string. */
  ghost predicate SignsVisibly(v: Verifier) {
    forall secret, body :: v.sign(secret, body) != ""
  }

  lemma FillerPassesScreen(v: Verifier, first: Request, node: string, nonce: string, at: real)
    requires Screen(v, first).None? && SignsVisibly(v) && node in v.secrets
    ensures var filler := Filler(v, first, node, nonce, at);
            && Screen(v, filler).None? && filler.message.body.nonce == nonce && filler.authenticatedAs == node && filler.at == at
  {
    ScreenPasses(v, first);
    var filler := Filler(v, first, node, nonce, at);
    assert filler.message.mac == v.sign(v.secrets[node], filler.message.body) != "";
  }

  lemma AfterFirst(v: Verifier, reqs: seq<Request>, first: Request)
    requires Clocked(reqs + [first]) && Judge(v, HistoryAfter(v, reqs), first).Accepted?
    ensures EndsWith(HistoryAfter(v, reqs + [first]), first)
  {
    LastOf(v, reqs, first);
    HistoryAscends(v, reqs + [first]);
  }

  lemma ClockedThrough(sofar: seq<Request>, one: Request, two: Request)
    requires Clocked(sofar) && sofar != [] && sofar[|sofar| - 1].at <= one.at <= two.at
    ensures Clocked(sofar + [one] + [two])
  {
  }

  lemma JudgedPast(v: Verifier, h: History, req: Request)
    requires Judge(v, h, req).Accepted?
    ensures Screen(v, req).None? && req.message.body.sentAt.Finite?
  {
    ScreenPasses(v, req);
  }

  lemma NewNonce(h: History) returns (nonce: string)
    ensures nonce !in LastAccepted(h)
  {
    var bound := LongerThan(LastAccepted(h).Keys);
    nonce := seq(bound, _ => 'x');
    assert nonce !in LastAccepted(h).Keys;
  }

  // ----- counting recent messages

  function Count(h: History, node: string, at: real): nat {
    |Recent(TimesOf(h, node), at)|
  }

  lemma {:induction false} FewerLater(times: seq<real>, at: real, later: real)
    requires at <= later
    ensures |Recent(times, later)| <= |Recent(times, at)|
  {
    if times != [] {
      FewerLater(times[..|times| - 1], at, later);
    }
  }

  lemma CountStep(h: History, a: Acceptance, node: string, at: real)
    ensures Count(h + [a], node, at) == Count(h, node, at) + if a.node == node && at - a.at < RATE_WINDOW then 1 else 0
  {
    hide Recent, TimesOf;
    TimesStep(h, a, node);
    RecentOfAppend(TimesOf(h, node), a.at, at);
    assert TimesOf(h, node) + [] == TimesOf(h, node);
  }

  lemma {:induction false} MoreInLongerHistory(h: History, longer: History, node: string, at: real)
    requires h <= longer
    ensures Count(h, node, at) <= Count(longer, node, at)
    decreases |longer|
  {
    hide Count;
    if |h| == |longer| {
      assert h == longer;
    } else {
      var n := |longer| - 1;
      assert longer == longer[..n] + [longer[n]];
      MoreInLongerHistory(h, longer[..n], node, at);
      CountStep(longer[..n], longer[n], node, at);
    }
  }

  // ----- the condition

  /** At `at` the node may still send `extra` messages and one more. */
  predicate HasRoom(v: Verifier, h: History, node: string, at: real, extra: nat) {
    Count(h, node, at) + extra < v.policy.maxPerMinute
  }

  /** What is known when `first` has been accepted as the last message of `h`: it is dated after its acceptance,
      and at its last chance either a minute can lie between two more messages, or its node has room for two, or
      its node and some other one have room for one each. */
  predicate CanComeBack(v: Verifier, h: History, first: Request)
    requires first.message.body.sentAt.Finite?
  {
    var sent, late, own := first.message.body.sentAt.t, LastChance(v, first), first.authenticatedAs;
    && sent > first.at
    && (|| sent - first.at > RATE_WINDOW
        || HasRoom(v, h, own, late, 1)
        || (HasRoom(v, h, own, late, 0) && exists other :: other in v.secrets && other != own && HasRoom(v, h, other, late, 0)))
  }

  predicate EndsWith(h: History, first: Request) {
    && h != [] && h[|h| - 1] == Acceptance(first.authenticatedAs, first.at, first.message)
    && forall i | 0 <= i < |h| :: h[i].at <= first.at
  }

  // ----- when it holds, the message comes back

  lemma NonceIsForgotten(h: History, first: Request, filler: Acceptance, window: real)
    requires EndsWith(h, first) && filler.at - first.at > window && NonceOf(filler) != first.message.body.nonce
    ensures first.message.body.nonce !in Live(h + [filler], window)
  {
    var h' := h + [filler];
    assert h'[..|h|] == h;
    assert LastAccepted(h') == LastAccepted(h)[NonceOf(filler) := filler.at];
    assert LastAccepted(h')[first.message.body.nonce] == first.at;
  }

  lemma OnlyKnownNonces(h: History, window: real, nonce: string)
    requires nonce !in LastAccepted(h)
    ensures nonce !in Live(h, window)
  {
  }

  lemma LateIsNotStale(v: Verifier, first: Request)
    requires Screen(v, first).None?
    ensures first.message.body.sentAt.Finite? && Screen(v, first.(at := LastChance(v, first))).None?
  {
    ScreenPasses(v, first);
    ScreenPasses(v, first.(at := LastChance(v, first)));
  }

  lemma AcceptedWithRoom(v: Verifier, h: History, req: Request)
    ensures Judge(v, h, req).Accepted? <==>
            && Screen(v, req).None? && req.message.body.nonce !in Live(h, v.policy.replayWindow)
            && HasRoom(v, h, req.authenticatedAs, req.at, 0)
  {
    hide Screen, Live, Recent, TimesOf;
  }

  /** One other message, accepted once the window of the first has passed, makes the store forget its nonce. */
  lemma FillerThenAgain(v: Verifier, sofar: seq<Request>, first: Request, filler: Request)
    requires Screen(v, first).None? && Screen(v, filler).None?
    requires EndsWith(HistoryAfter(v, sofar), first) && filler.message.body.nonce !in LastAccepted(HistoryAfter(v, sofar))
    requires filler.at - first.at > v.policy.replayWindow
    requires HasRoom(v, HistoryAfter(v, sofar), filler.authenticatedAs, filler.at, 0)
    requires first.message.body.sentAt.Finite?
    requires HasRoom(v, HistoryAfter(v, sofar) + [Acceptance(filler.authenticatedAs, filler.at, filler.message)],
                     first.authenticatedAs, LastChance(v, first), 0)
    ensures AcceptsAgain(v, sofar + [filler], first, first.(at := LastChance(v, first)))
  {
    hide Screen, Live, HistoryAfter, HasRoom, LastAccepted, Judge;
    var h := HistoryAfter(v, sofar);
    OnlyKnownNonces(h, v.policy.replayWindow, filler.message.body.nonce);
    AcceptedWithRoom(v, h, filler);
    LastOf(v, sofar, filler);
    NonceIsKnown(h);
    var acceptance := Acceptance(filler.authenticatedAs, filler.at, filler.message);
    NonceIsForgotten(h, first, acceptance, v.policy.replayWindow);
    LateIsNotStale(v, first);
    AcceptedWithRoom(v, h + [acceptance], first.(at := LastChance(v, first)));
  }

  lemma NonceIsKnown(h: History)
    requires h != []
    ensures NonceOf(h[|h| - 1]) in LastAccepted(h)
  {
  }

  /** Who sends the message in between, and when. */
  lemma ChooseFiller(v: Verifier, h: History, first: Request) returns (node: string, at: real)
    requires Screen(v, first).None? && EndsWith(h, first) && v.policy.maxPerMinute > 0
    requires first.message.body.sentAt.Finite? && CanComeBack(v, h, first)
    ensures node in v.secrets && first.at <= at <= LastChance(v, first) && at - first.at > v.policy.replayWindow
    ensures HasRoom(v, h, node, at, 0)
    ensures forall message :: HasRoom(v, h + [Acceptance(node, at, message)], first.authenticatedAs, LastChance(v, first), 0)
  {
    hide Recent, TimesOf, Screen;
    var sent, late, own := first.message.body.sentAt.t, LastChance(v, first), first.authenticatedAs;
    IsRegistered(v, first);
    if sent - first.at > RATE_WINDOW {
      node, at := own, late - RATE_WINDOW;
      OldOnesAreNotRecent(h, own, at);
      OldOnesAreNotRecent(h, own, late);
    } else if HasRoom(v, h, own, late, 1) {
      node, at := own, late;
    } else {
      node :| node in v.secrets && node != own && HasRoom(v, h, node, late, 0);
      at := late;
    }
    forall message ensures HasRoom(v, h + [Acceptance(node, at, message)], own, late, 0) {
      CountStep(h, Acceptance(node, at, message), own, late);
    }
  }

  lemma IsRegistered(v: Verifier, first: Request)
    requires Screen(v, first).None?
    ensures first.authenticatedAs in v.secrets && v.policy.replayWindow >= 0.0
    ensures first.message.body.sentAt.Finite? && first.message.body.sentAt.t - first.at <= v.policy.replayWindow
  {
    ScreenPasses(v, first);
  }

  lemma FutureDatedComesBack(v: Verifier, reqs: seq<Request>, first: Request)
    requires Clocked(reqs + [first]) && Judge(v, HistoryAfter(v, reqs), first).Accepted? && SignsVisibly(v)
    requires first.message.body.sentAt.Finite? && CanComeBack(v, HistoryAfter(v, reqs + [first]), first)
    ensures CanBeAcceptedAgain(v, reqs, first)
  {
    hide Judge, Clocked, Screen, HistoryAfter, LastAccepted, AcceptsAgain, HasRoom, CanComeBack, SignsVisibly;
    AfterFirst(v, reqs, first);
    JudgedPast(v, HistoryAfter(v, reqs), first);
    var h := HistoryAfter(v, reqs + [first]);
    AcceptedNeedsALimit(v, HistoryAfter(v, reqs), first);
    var node, at := ChooseFiller(v, h, first);
    var nonce := NewNonce(h);
    FillerPassesScreen(v, first, node, nonce, at);
    var filler, again := Filler(v, first, node, nonce, at), first.(at := LastChance(v, first));
    FillerThenAgain(v, reqs + [first], first, filler);
    ClockedThrough(reqs + [first], filler, again);
    var more := [filler];
    assert Clocked(reqs + [first] + more + [again]) && AcceptsAgain(v, reqs + [first] + more, first, again);
  }

  lemma AcceptedNeedsALimit(v: Verifier, h: History, req: Request)
    requires Judge(v, h, req).Accepted?
    ensures v.policy.maxPerMinute > 0
  {
    hide Screen, Live;
  }

  // ----- and when the message comes back, it holds

  /** The last message that was accepted before the second acceptance. */
  lemma ForgottenBy(v: Verifier, reqs: seq<Request>, first: Request, more: seq<Request>, again: Request)
    requires var h, h2 := HistoryAfter(v, reqs + [first]), HistoryAfter(v, reqs + [first] + more);
             EndsWith(h, first) && h <= h2 && Ascending(h2)
    requires again.message == first.message && Judge(v, HistoryAfter(v, reqs + [first] + more), again).Accepted?
    ensures var h2 := HistoryAfter(v, reqs + [first] + more);
            h2 != [] && h2[|h2| - 1].at - first.at > v.policy.replayWindow
  {
    hide Screen, HistoryAfter, Recent, TimesOf, LastAccepted;
    var h, h2 := HistoryAfter(v, reqs + [first]), HistoryAfter(v, reqs + [first] + more);
    var nonce := first.message.body.nonce;
    assert NonceOf(h2[|h| - 1]) == nonce && h2[|h| - 1] == h[|h| - 1];
    LastAcceptedMeans(h2, nonce);
    assert nonce !in Live(h2, v.policy.replayWindow);
  }

  lemma ComesBackOnlyIf(v: Verifier, reqs: seq<Request>, first: Request, more: seq<Request>, again: Request)
    requires Clocked(reqs + [first] + more + [again])
    requires Judge(v, HistoryAfter(v, reqs), first).Accepted? && AcceptsAgain(v, reqs + [first] + more, first, again)
    ensures first.message.body.sentAt.Finite? && CanComeBack(v, HistoryAfter(v, reqs + [first]), first)
  {
    hide Judge, Clocked, Screen, HistoryAfter, HasRoom, LastAccepted, Live, CanComeBack;
    var all := reqs + [first] + more;
    ClockedFront(reqs + [first], more, again);
    AfterFirst(v, reqs, first);
    JudgedPast(v, HistoryAfter(v, reqs), first);
    HistoryGrows(v, reqs + [first], more);
    HistoryAscends(v, all);
    var h, h2 := HistoryAfter(v, reqs + [first]), HistoryAfter(v, all);
    ForgottenBy(v, reqs, first, more, again);
    IsRegistered(v, first);
    var n := |h2| - 1;
    var f := h2[n];
    assert h2[|h| - 1] == h[|h| - 1];
    assert |h| <= n;
    var k := AcceptedWere(v, all, n);
    AcceptedWithRoom(v, HistoryAfter(v, all[..k]), all[k]);
    AcceptedWithRoom(v, h2, again);
    ArrivesInOrder(v, all, again);
    AgainIsByTheSameNode(v, first, again);
    IsRegistered(v, all[k]);
    assert h <= h2[..n];
    RoomBefore(v, h, h2, first, again.at);
  }

  lemma AgainIsByTheSameNode(v: Verifier, first: Request, again: Request)
    requires Screen(v, first).None? && Screen(v, again).None? && again.message == first.message
    ensures again.authenticatedAs == first.authenticatedAs && first.message.body.sentAt.Finite?
    ensures again.at <= LastChance(v, first)
  {
    ScreenPasses(v, first);
    ScreenPasses(v, again);
  }

  lemma ArrivesInOrder(v: Verifier, all: seq<Request>, again: Request)
    requires Clocked(all + [again])
    ensures forall i | 0 <= i < |HistoryAfter(v, all)| :: HistoryAfter(v, all)[i].at <= again.at
  {
    hide HistoryAfter;
    var run := all + [again];
    assert forall i | 0 <= i < |all| :: run[i] == all[i];
    assert run[|all|] == again;
    HistoryAscends(v, all);
  }

  lemma ClockedFront(front: seq<Request>, more: seq<Request>, again: Request)
    requires Clocked(front + more + [again])
    ensures Clocked(front) && Clocked(front + more)
  {
    var run := front + more + [again];
    assert forall i | 0 <= i < |front + more| :: run[i] == (front + more)[i];
    assert forall i | 0 <= i < |front| :: run[i] == front[i];
  }

  /** `longer` ends with the message in between, and at `at` the first message is accepted once more. */
  lemma RoomBefore(v: Verifier, h: History, longer: History, first: Request, at: real)
    requires first.message.body.sentAt.Finite? && longer != [] && h <= longer[..|longer| - 1]
    requires var f := longer[|longer| - 1];
             && f.node in v.secrets && f.at - first.at > v.policy.replayWindow >= 0.0 && f.at <= at <= LastChance(v, first)
             && HasRoom(v, longer[..|longer| - 1], f.node, f.at, 0)
    requires HasRoom(v, longer, first.authenticatedAs, at, 0)
    ensures CanComeBack(v, h, first)
  {
    hide Recent, TimesOf;
    var n := |longer| - 1;
    var f, late, own := longer[n], LastChance(v, first), first.authenticatedAs;
    assert longer == longer[..n] + [f];
    CountStep(longer[..n], f, own, at);
    MoreInLongerHistory(h, longer[..n], own, at);
    MoreInLongerHistory(h, longer[..n], f.node, f.at);
    FewerLater(TimesOf(h, own), at, late);
    FewerLater(TimesOf(h, f.node), f.at, late);
  }

  /** The exact condition, for every policy. A message that was accepted can be accepted again in some
      continuation if and only if `CanComeBack` holds of the messages accepted so far. */
  lemma AcceptedAgainIff(v: Verifier, reqs: seq<Request>, first: Request)
    requires Clocked(reqs + [first]) && Judge(v, HistoryAfter(v, reqs), first).Accepted?
    requires SignsVisibly(v)
    ensures first.message.body.sentAt.Finite?
    ensures CanBeAcceptedAgain(v, reqs, first) <==> CanComeBack(v, HistoryAfter(v, reqs + [first]), first)
  {
    hide Judge, Screen, HistoryAfter, Clocked, LastAccepted, SignsVisibly, CanComeBack, AcceptsAgain;
    JudgedPast(v, HistoryAfter(v, reqs), first);
    if CanComeBack(v, HistoryAfter(v, reqs + [first]), first) {
      FutureDatedComesBack(v, reqs, first);
    }
    if more, again :| Clocked(reqs + [first] + more + [again]) && AcceptsAgain(v, reqs + [first] + more, first, again) {
      ComesBackOnlyIf(v, reqs, first, more, again);
    }
  }

  /** With a window of at least a minute and a limit of at least two messages only the date matters. */
  lemma AcceptedAgainIffFutureDated(v: Verifier, reqs: seq<Request>, first: Request)
    requires Clocked(reqs + [first]) && Judge(v, HistoryAfter(v, reqs), first).Accepted?
    requires SignsVisibly(v) && v.policy.replayWindow >= RATE_WINDOW && v.policy.maxPerMinute >= 2
    ensures first.message.body.sentAt.Finite?
    ensures CanBeAcceptedAgain(v, reqs, first) <==> first.message.body.sentAt.t > first.at
  {
    hide Judge, Screen, HistoryAfter, Clocked, LastAccepted, SignsVisibly, CanBeAcceptedAgain, Recent, TimesOf;
    JudgedPast(v, HistoryAfter(v, reqs), first);
    AcceptedAgainIff(v, reqs, first);
    AfterFirst(v, reqs, first);
    if first.message.body.sentAt.t > first.at {
      OldOnesAreNotRecent(HistoryAfter(v, reqs + [first]), first.authenticatedAs, LastChance(v, first));
    }
  }

  lemma {:induction false} HistoryGrows(v: Verifier, reqs: seq<Request>, more: seq<Request>)
    ensures HistoryAfter(v, reqs) <= HistoryAfter(v, reqs + more)
  {
    if more == [] {
      assert reqs + more == reqs;
    } else {
      var n := |more| - 1;
      HistoryGrows(v, reqs, more[..n]);
      assert reqs + more == (reqs + more[..n]) + [more[n]];
      LastOf(v, reqs + more[..n], more[n]);
    }
  }
}
