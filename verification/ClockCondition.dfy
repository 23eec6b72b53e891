/** Exactly on which clocks the store in memory and the store in SQLite give the same verdicts. */
module ClockCondition {
  import opened Decimal
  import opened IncidentMessages
  import opened StoreRefinement
  import opened VerifierHistory
  import opened VerifierStores
  import opened Wrappers

  function ClockOf(reqs: seq<Request>): (clock: seq<real>)
    ensures |clock| == |reqs| && forall i | 0 <= i < |reqs| :: clock[i] == reqs[i].at
  {
    seq(|reqs|, i requires 0 <= i < |reqs| => reqs[i].at)
  }

  /** After the run `reqs` both stores answer `req` alike, and the INSERT of the nonce meets no primary key. */
  predicate SameVerdict(v: Verifier, reqs: seq<Request>, req: Request) {
    TablesStep(v, TablesAfter(v, reqs), req).1 == Some(MemoryStep(v, MemoryAfter(v, reqs), req).1)
  }

  predicate AgreeThroughout(v: Verifier, reqs: seq<Request>) {
    forall n | 0 <= n < |reqs| :: SameVerdict(v, reqs[..n], reqs[n])
  }

  // ----- crowds

  /** Earlier readings that lie inside the minute at `k`, each also inside the minute at the next ones of them, of
      which one had left its minute at the reading `j` in between. */
  predicate IsCrowd(clock: seq<real>, crowd: seq<nat>, j: nat, k: nat) {
    && j < k < |clock|
    && (forall a | 0 <= a < |crowd| :: crowd[a] < k && clock[k] - clock[crowd[a]] < RATE_WINDOW)
    && (forall a, b | 0 <= a < b < |crowd| :: crowd[a] < crowd[b] && clock[crowd[b]] - clock[crowd[a]] < RATE_WINDOW)
    && exists a :: 0 <= a < |crowd| && crowd[a] < j && clock[j] - clock[crowd[a]] >= RATE_WINDOW
  }

  ghost predicate HasCrowd(clock: seq<real>, size: int) {
    exists crowd: seq<nat>, j: nat, k: nat :: |crowd| == size && IsCrowd(clock, crowd, j, k)
  }

  /** What was a minute old at one reading of the clock is a minute old at every later one. The clock may step
      back, but not across the end of the minute of an earlier reading. */
  predicate Steady(clock: seq<real>) {
    forall i, j, k | 0 <= i < j < k < |clock| && clock[j] - clock[i] >= RATE_WINDOW :: clock[k] - clock[i] >= RATE_WINDOW
  }

  lemma SteadyMeansNoCrowd(clock: seq<real>, size: int)
    requires Steady(clock)
    ensures !HasCrowd(clock, size)
  {
  }

  lemma UnsteadyHasACrowdOfOne(clock: seq<real>)
    requires !Steady(clock)
    ensures HasCrowd(clock, 1)
  {
    var i: nat, j: nat, k: nat :| i < j < k < |clock| && clock[j] - clock[i] >= RATE_WINDOW > clock[k] - clock[i];
    assert [i][0] == i;
    assert IsCrowd(clock, [i], j, k);
  }

  lemma ClockedIsSteady(reqs: seq<Request>)
    requires Clocked(reqs)
    ensures Steady(ClockOf(reqs))
  {
  }

  // ----- slots: what the memory counts, and what of it the file still counts

  /** An accepted message in the log of its node. It is live until an acceptance purges its row in the file. */
  datatype Slot = Slot(index: nat, at: real, live: bool)

  function AllTimes(slots: seq<Slot>): (times: seq<real>)
    ensures |times| == |slots|
  {
    if slots == [] then [] else AllTimes(slots[..|slots| - 1]) + [slots[|slots| - 1].at]
  }

  function LiveTimes(slots: seq<Slot>): (times: seq<real>)
    ensures |times| <= |slots|
  {
    if slots == [] then []
    else
      var last := slots[|slots| - 1];
      LiveTimes(slots[..|slots| - 1]) + if last.live then [last.at] else []
  }

  function RecentSlots(slots: seq<Slot>, at: real): (recent: seq<Slot>)
    ensures |recent| <= |slots|
  {
    if slots == [] then []
    else
      var last := slots[|slots| - 1];
      RecentSlots(slots[..|slots| - 1], at) + if at - last.at < RATE_WINDOW then [last] else []
  }

  function Purged(slots: seq<Slot>, at: real): (purged: seq<Slot>)
    ensures |purged| == |slots|
    ensures forall a | 0 <= a < |slots| :: purged[a] == slots[a].(live := slots[a].live && at - slots[a].at < RATE_WINDOW)
  {
    seq(|slots|, a requires 0 <= a < |slots| => slots[a].(live := slots[a].live && at - slots[a].at < RATE_WINDOW))
  }

  lemma {:induction false} RecentSlotTimes(slots: seq<Slot>, at: real)
    ensures AllTimes(RecentSlots(slots, at)) == Recent(AllTimes(slots), at)
    ensures LiveTimes(RecentSlots(slots, at)) == Recent(LiveTimes(slots), at)
  {
    hide AllTimes, LiveTimes, RecentSlots, Recent;
    if slots == [] {
      NoSlots(at);
    } else {
      var front, last := slots[..|slots| - 1], slots[|slots| - 1];
      assert slots == front + [last];
      RecentSlotTimes(front, at);
      OneSlotMore(front, last, at);
      OneSlotMore(RecentSlots(front, at), last, at);
      RecentOfAppend(AllTimes(front), last.at, at);
      RecentOfAppend(LiveTimes(front), last.at, at);
      assert RecentSlots(front, at) + [] == RecentSlots(front, at);
      assert LiveTimes(front) + [] == LiveTimes(front);
    }
  }

  lemma NoSlots(at: real)
    ensures AllTimes([]) == [] && LiveTimes([]) == [] && RecentSlots([], at) == [] && Recent([], at) == [] && Purged([], at) == []
  {
  }

  lemma OneSlotMore(front: seq<Slot>, last: Slot, at: real)
    ensures AllTimes(front + [last]) == AllTimes(front) + [last.at]
    ensures LiveTimes(front + [last]) == LiveTimes(front) + if last.live then [last.at] else []
    ensures RecentSlots(front + [last], at) == RecentSlots(front, at) + if at - last.at < RATE_WINDOW then [last] else []
  {
    assert (front + [last])[..|front|] == front;
  }

  lemma {:induction false} PurgedTimes(slots: seq<Slot>, at: real)
    ensures AllTimes(Purged(slots, at)) == AllTimes(slots)
    ensures LiveTimes(Purged(slots, at)) == Recent(LiveTimes(slots), at)
  {
    hide AllTimes, LiveTimes, RecentSlots, Recent;
    if slots == [] {
      NoSlots(at);
    } else {
      var front, last := slots[..|slots| - 1], slots[|slots| - 1];
      assert slots == front + [last];
      var gone := last.(live := last.live && at - last.at < RATE_WINDOW);
      assert Purged(slots, at) == Purged(front, at) + [gone];
      PurgedTimes(front, at);
      OneSlotMore(front, last, at);
      OneSlotMore(Purged(front, at), gone, at);
      RecentOfAppend(LiveTimes(front), last.at, at);
      assert LiveTimes(front) + [] == LiveTimes(front);
      assert Recent(LiveTimes(front), at) + [] == Recent(LiveTimes(front), at);
    }
  }

  /** Either every slot is recent, or there are fewer recent ones. */
  lemma {:induction false} AllRecentOrFewer(slots: seq<Slot>, at: real)
    ensures if forall a | 0 <= a < |slots| :: at - slots[a].at < RATE_WINDOW then RecentSlots(slots, at) == slots
            else |RecentSlots(slots, at)| < |slots|
  {
    if slots != [] {
      var front := slots[..|slots| - 1];
      AllRecentOrFewer(front, at);
      assert slots == front + [slots[|slots| - 1]];
      assert forall a | 0 <= a < |front| :: front[a] == slots[a];
    }
  }

  lemma {:induction false} AllLiveOrFewer(slots: seq<Slot>)
    ensures if forall a | 0 <= a < |slots| :: slots[a].live then LiveTimes(slots) == AllTimes(slots)
            else |LiveTimes(slots)| < |slots|
  {
    if slots != [] {
      var front := slots[..|slots| - 1];
      AllLiveOrFewer(front);
      assert slots == front + [slots[|slots| - 1]];
      assert forall a | 0 <= a < |front| :: front[a] == slots[a];
    }
  }

  // ----- the slots of a run

  function SlotsOf(slots: map<string, seq<Slot>>, node: string): seq<Slot> {
    if node in slots then slots[node] else []
  }

  function SlotsStep(slots: map<string, seq<Slot>>, node: string, index: nat, at: real): map<string, seq<Slot>> {
    (map n | n in slots :: Purged(slots[n], at))[node := RecentSlots(SlotsOf(slots, node), at) + [Slot(index, at, true)]]
  }

  function SlotsAfter(v: Verifier, reqs: seq<Request>): map<string, seq<Slot>> {
    if reqs == [] then map[]
    else
      var n := |reqs| - 1;
      var slots := SlotsAfter(v, reqs[..n]);
      if MemoryStep(v, MemoryAfter(v, reqs[..n]), reqs[n]).1.Accepted? then SlotsStep(slots, reqs[n].authenticatedAs, n, reqs[n].at)
      else slots
  }

  function SlotsAt(v: Verifier, reqs: seq<Request>, node: string): seq<Slot> {
    SlotsOf(SlotsAfter(v, reqs), node)
  }

  lemma SlotsGrow(v: Verifier, reqs: seq<Request>, req: Request, node: string)
    ensures var slots := SlotsAt(v, reqs, node);
            SlotsAt(v, reqs + [req], node)
            == if MemoryStep(v, MemoryAfter(v, reqs), req).1.Refused? then slots
               else if node == req.authenticatedAs then RecentSlots(slots, req.at) + [Slot(|reqs|, req.at, true)]
               else Purged(slots, req.at)
  {
    hide MemoryStep, MemoryAfter, RecentSlots;
    assert (reqs + [req])[..|reqs|] == reqs;
  }

  lemma StoresGrow(v: Verifier, reqs: seq<Request>, req: Request)
    ensures MemoryAfter(v, reqs + [req]) == MemoryStep(v, MemoryAfter(v, reqs), req).0
    ensures TablesAfter(v, reqs + [req]) == TablesStep(v, TablesAfter(v, reqs), req).0
  {
    hide MemoryStep, TablesStep;
    assert (reqs + [req])[..|reqs|] == reqs;
  }

  predicate PurgedSince(slot: Slot, reqs: seq<Request>) {
    exists j :: slot.index < j < |reqs| && reqs[j].at - slot.at >= RATE_WINDOW
  }

  /** The slots of one node: at most as many as the limit, all within a minute of the ones before, and live
      unless a later reading ended their minute. */
  predicate IsKept(slots: seq<Slot>, reqs: seq<Request>, limit: int) {
    && (slots == [] || |slots| <= limit)
    && (forall a | 0 <= a < |slots| :: slots[a].index < |reqs| && reqs[slots[a].index].at == slots[a].at)
    && (forall a, b | 0 <= a < b < |slots| :: slots[a].index < slots[b].index && slots[b].at - slots[a].at < RATE_WINDOW)
    && (forall a | 0 <= a < |slots| && !slots[a].live :: PurgedSince(slots[a], reqs))
  }

  lemma NoLongerThan(slots: seq<Slot>, reqs: seq<Request>, req: Request, limit: int)
    requires IsKept(slots, reqs, limit)
    ensures IsKept(slots, reqs + [req], limit)
    ensures IsKept(Purged(slots, req.at), reqs + [req], limit)
  {
    var all := reqs + [req];
    assert all[|reqs|] == req && forall i | 0 <= i < |reqs| :: all[i] == reqs[i];
    forall a | 0 <= a < |slots| && !slots[a].live ensures PurgedSince(slots[a], all) {
      var j :| slots[a].index < j < |reqs| && reqs[j].at - slots[a].at >= RATE_WINDOW;
      assert all[j].at - slots[a].at >= RATE_WINDOW;
    }
    var purged := Purged(slots, req.at);
    forall a | 0 <= a < |purged| && !purged[a].live ensures PurgedSince(purged[a], all) {
      if slots[a].live {
        assert all[|reqs|].at - slots[a].at >= RATE_WINDOW;
      } else {
        assert PurgedSince(slots[a], all);
      }
    }
  }

  lemma {:induction false} RecentSlotsAreSlots(slots: seq<Slot>, at: real)
    ensures forall x :: x in RecentSlots(slots, at) <==> x in slots && at - x.at < RATE_WINDOW
  {
    if slots != [] {
      RecentSlotsAreSlots(slots[..|slots| - 1], at);
      assert slots == slots[..|slots| - 1] + [slots[|slots| - 1]];
    }
  }

  lemma AppendIsKept(recent: seq<Slot>, reqs: seq<Request>, newest: Slot, limit: int)
    requires IsKept(recent, reqs, limit) && |recent| < limit
    requires forall a | 0 <= a < |recent| :: newest.at - recent[a].at < RATE_WINDOW && recent[a].index < newest.index
    requires (newest.live || PurgedSince(newest, reqs)) && newest.index < |reqs| && reqs[newest.index].at == newest.at
    ensures IsKept(recent + [newest], reqs, limit)
  {
    hide PurgedSince;
  }

  /** What the slots guarantee about the newest of them. */
  lemma KeptParts(front: seq<Slot>, last: Slot, reqs: seq<Request>, limit: int)
    requires IsKept(front + [last], reqs, limit)
    ensures IsKept(front, reqs, limit) && |front| < limit && last.index < |reqs| && reqs[last.index].at == last.at
    ensures forall x | x in front :: x.index < last.index && last.at - x.at < RATE_WINDOW
    ensures last.live || PurgedSince(last, reqs)
  {
    hide PurgedSince;
    var slots := front + [last];
    assert slots[|front|] == last && forall a | 0 <= a < |front| :: slots[a] == front[a];
  }

  lemma {:induction false} RecentSlotsAreKept(slots: seq<Slot>, at: real, reqs: seq<Request>, limit: int)
    requires IsKept(slots, reqs, limit)
    ensures IsKept(RecentSlots(slots, at), reqs, limit)
  {
    hide PurgedSince, RecentSlots, IsKept;
    if slots == [] {
      NoSlots(at);
    } else {
      var front, last := slots[..|slots| - 1], slots[|slots| - 1];
      assert slots == front + [last];
      KeptParts(front, last, reqs, limit);
      RecentSlotsAreKept(front, at, reqs, limit);
      LastOfRecent(front, last, at, reqs, limit);
    }
  }

  lemma LastOfRecent(front: seq<Slot>, last: Slot, at: real, reqs: seq<Request>, limit: int)
    requires IsKept(front + [last], reqs, limit) && IsKept(RecentSlots(front, at), reqs, limit)
    ensures IsKept(RecentSlots(front + [last], at), reqs, limit)
  {
    hide PurgedSince, RecentSlots, IsKept;
    var recent := RecentSlots(front, at);
    OneSlotMore(front, last, at);
    if at - last.at < RATE_WINDOW {
      KeptParts(front, last, reqs, limit);
      RecentSlotsAreSlots(front, at);
      assert forall a | 0 <= a < |recent| :: recent[a] in recent;
      AppendIsKept(recent, reqs, last, limit);
    } else {
      assert recent + [] == recent;
    }
  }

  lemma NewestIsKept(slots: seq<Slot>, reqs: seq<Request>, req: Request, limit: int)
    requires IsKept(slots, reqs, limit) && |RecentSlots(slots, req.at)| < limit
    ensures IsKept(RecentSlots(slots, req.at) + [Slot(|reqs|, req.at, true)], reqs + [req], limit)
  {
    hide RecentSlots;
    var recent := RecentSlots(slots, req.at);
    RecentSlotsAreKept(slots, req.at, reqs, limit);
    RecentSlotsAreSlots(slots, req.at);
    forall a | 0 <= a < |recent| ensures req.at - recent[a].at < RATE_WINDOW && recent[a].index < |reqs| {
      assert recent[a] in recent;
    }
    hide IsKept;
    NoLongerThan(recent, reqs, req, limit);
    AppendIsKept(recent, reqs + [req], Slot(|reqs|, req.at, true), limit);
  }

  // ----- the memory holds the slots

  predicate LogIsTracked(v: Verifier, reqs: seq<Request>, node: string) {
    && LogOf(MemoryAfter(v, reqs).rateLog, node) == AllTimes(SlotsAt(v, reqs, node))
    && IsKept(SlotsAt(v, reqs, node), reqs, v.policy.maxPerMinute)
  }

  /** A refused query drops nothing from the log: when it is too much, all of the log is in the minute. */
  lemma RefusalKeepsTheLog(v: Verifier, reqs: seq<Request>, req: Request, node: string)
    requires LogIsTracked(v, reqs, node) && LogIsTracked(v, reqs, req.authenticatedAs)
    requires MemoryStep(v, MemoryAfter(v, reqs), req).1.Refused?
    ensures LogOf(MemoryStep(v, MemoryAfter(v, reqs), req).0.rateLog, node) == LogOf(MemoryAfter(v, reqs).rateLog, node)
  {
    hide Screen, Recent, AllTimes, RecentSlots, MemoryAfter, SlotsAt;
    var slots := SlotsAt(v, reqs, req.authenticatedAs);
    RecentSlotTimes(slots, req.at);
    AllRecentOrFewer(slots, req.at);
    if slots == [] {
      NoSlots(req.at);
    }
  }

  lemma AcceptanceKeepsTrack(v: Verifier, reqs: seq<Request>, req: Request, node: string)
    requires LogIsTracked(v, reqs, node) && MemoryStep(v, MemoryAfter(v, reqs), req).1.Accepted?
    requires LogIsTracked(v, reqs, req.authenticatedAs)
    ensures LogIsTracked(v, reqs + [req], node)
  {
    hide Screen, Recent, AllTimes, RecentSlots, MemoryAfter, SlotsAt, IsKept;
    var slots := SlotsAt(v, reqs, node);
    StoresGrow(v, reqs, req);
    SlotsGrow(v, reqs, req, node);
    RecentSlotTimes(slots, req.at);
    PurgedTimes(slots, req.at);
    NoLongerThan(slots, reqs, req, v.policy.maxPerMinute);
    if node == req.authenticatedAs {
      NewestIsKept(slots, reqs, req, v.policy.maxPerMinute);
      OneSlotMore(RecentSlots(slots, req.at), Slot(|reqs|, req.at, true), req.at);
    }
  }

  lemma {:induction false} MemoryIsTracked(v: Verifier, reqs: seq<Request>, node: string)
    ensures LogIsTracked(v, reqs, node)
    decreases |reqs|
  {
    hide MemoryStep, LogIsTracked;
    if reqs == [] {
      NothingIsTracked(v, node);
    } else {
      var front, req := reqs[..|reqs| - 1], reqs[|reqs| - 1];
      assert reqs == front + [req];
      MemoryIsTracked(v, front, node);
      MemoryIsTracked(v, front, req.authenticatedAs);
      if MemoryStep(v, MemoryAfter(v, front), req).1.Accepted? {
        AcceptanceKeepsTrack(v, front, req, node);
      } else {
        RefusalKeepsTrack(v, front, req, node);
      }
    }
  }

  lemma NothingIsTracked(v: Verifier, node: string)
    ensures LogIsTracked(v, [], node)
  {
  }

  lemma RefusalKeepsTrack(v: Verifier, reqs: seq<Request>, req: Request, node: string)
    requires LogIsTracked(v, reqs, node) && LogIsTracked(v, reqs, req.authenticatedAs)
    requires MemoryStep(v, MemoryAfter(v, reqs), req).1.Refused?
    ensures LogIsTracked(v, reqs + [req], node)
  {
    hide MemoryStep, AllTimes, MemoryAfter, SlotsAt, IsKept, LogOf;
    RefusalKeepsTheLog(v, reqs, req, node);
    StoresGrow(v, reqs, req);
    SlotsGrow(v, reqs, req, node);
    NoLongerThan(SlotsAt(v, reqs, node), reqs, req, v.policy.maxPerMinute);
  }

  // ----- the file holds the live ones, as long as the verdicts agree

  ghost predicate FileIsTracked(v: Verifier, reqs: seq<Request>) {
    && TablesAfter(v, reqs).nonces == MemoryAfter(v, reqs).nonceTimes
    && forall node :: SentBy(TablesAfter(v, reqs).messages, node) == LiveTimes(SlotsAt(v, reqs, node))
  }

  lemma WhatAcceptanceWrites(v: Verifier, m: Memory, s: Tables, req: Request)
    requires MemoryStep(v, m, req).1.Accepted? && TablesStep(v, s, req).1 == Some(Accepted)
    ensures MemoryStep(v, m, req).0.nonceTimes
            == Unexpired(m.nonceTimes, req.at, v.policy.replayWindow)[req.message.body.nonce := req.at]
    ensures TablesStep(v, s, req).0.nonces == Unexpired(s.nonces, req.at, v.policy.replayWindow)[req.message.body.nonce := req.at]
    ensures TablesStep(v, s, req).0.messages == LastMinute(s.messages, req.at) + [Sent(req.authenticatedAs, req.at)]
  {
    hide Screen, Recent, LastMinute, SentBy, LogOf, Unexpired;
  }

  lemma FileAccepts(v: Verifier, reqs: seq<Request>, req: Request, node: string)
    requires FileIsTracked(v, reqs) && SameVerdict(v, reqs, req) && MemoryStep(v, MemoryAfter(v, reqs), req).1.Accepted?
    ensures TablesAfter(v, reqs + [req]).nonces == MemoryAfter(v, reqs + [req]).nonceTimes
    ensures SentBy(TablesAfter(v, reqs + [req]).messages, node) == LiveTimes(SlotsAt(v, reqs + [req], node))
  {
    hide MemoryStep, TablesStep, Recent, LiveTimes, RecentSlots, MemoryAfter, TablesAfter, SlotsAt, LastMinute, SentBy, Unexpired;
    var slots, messages := SlotsAt(v, reqs, node), TablesAfter(v, reqs).messages;
    StoresGrow(v, reqs, req);
    SlotsGrow(v, reqs, req, node);
    WhatAcceptanceWrites(v, MemoryAfter(v, reqs), TablesAfter(v, reqs), req);
    SentInLastMinute(messages, node, req.at);
    SentByAppend(LastMinute(messages, req.at), Sent(req.authenticatedAs, req.at), node);
    RecentSlotTimes(slots, req.at);
    PurgedTimes(slots, req.at);
    OneSlotMore(RecentSlots(slots, req.at), Slot(|reqs|, req.at, true), req.at);
    assert LiveTimes(Purged(slots, req.at)) + [] == LiveTimes(Purged(slots, req.at));
  }

  lemma FileRefuses(v: Verifier, reqs: seq<Request>, req: Request, node: string)
    requires FileIsTracked(v, reqs) && SameVerdict(v, reqs, req) && MemoryStep(v, MemoryAfter(v, reqs), req).1.Refused?
    ensures TablesAfter(v, reqs + [req]).nonces == MemoryAfter(v, reqs + [req]).nonceTimes
    ensures SentBy(TablesAfter(v, reqs + [req]).messages, node) == LiveTimes(SlotsAt(v, reqs + [req], node))
  {
    hide Screen, MemoryAfter, TablesAfter, SlotsAt, SentBy, LiveTimes, Recent, TablesAccept;
    StoresGrow(v, reqs, req);
    SlotsGrow(v, reqs, req, node);
  }

  lemma FileGrows(v: Verifier, reqs: seq<Request>, req: Request, node: string)
    requires FileIsTracked(v, reqs) && SameVerdict(v, reqs, req)
    ensures TablesAfter(v, reqs + [req]).nonces == MemoryAfter(v, reqs + [req]).nonceTimes
    ensures SentBy(TablesAfter(v, reqs + [req]).messages, node) == LiveTimes(SlotsAt(v, reqs + [req], node))
  {
    hide FileIsTracked, MemoryStep, SameVerdict, MemoryAfter, TablesAfter, SlotsAt, SentBy, LiveTimes;
    if MemoryStep(v, MemoryAfter(v, reqs), req).1.Accepted? {
      FileAccepts(v, reqs, req, node);
    } else {
      FileRefuses(v, reqs, req, node);
    }
  }

  lemma FileStep(v: Verifier, reqs: seq<Request>, req: Request)
    requires FileIsTracked(v, reqs) && SameVerdict(v, reqs, req)
    ensures FileIsTracked(v, reqs + [req])
  {
    hide MemoryStep, SameVerdict, MemoryAfter, TablesAfter, SlotsAt, SentBy, LiveTimes;
    FileGrows(v, reqs, req, "");
    forall node ensures SentBy(TablesAfter(v, reqs + [req]).messages, node) == LiveTimes(SlotsAt(v, reqs + [req], node)) {
      FileGrows(v, reqs, req, node);
    }
  }

  lemma {:induction false} AgreeingFileIsTracked(v: Verifier, reqs: seq<Request>)
    requires AgreeThroughout(v, reqs)
    ensures FileIsTracked(v, reqs)
  {
    hide FileIsTracked, SameVerdict;
    if reqs == [] {
      EmptyFileIsTracked(v);
    } else {
      var n := |reqs| - 1;
      assert SameVerdict(v, reqs[..n], reqs[n]);
      AgreeEarlier(v, reqs, n);
      AgreeingFileIsTracked(v, reqs[..n]);
      assert reqs == reqs[..n] + [reqs[n]];
      FileStep(v, reqs[..n], reqs[n]);
    }
  }

  lemma EmptyFileIsTracked(v: Verifier)
    ensures FileIsTracked(v, [])
  {
  }

  lemma AgreeEarlier(v: Verifier, reqs: seq<Request>, n: nat)
    requires AgreeThroughout(v, reqs) && n <= |reqs|
    ensures AgreeThroughout(v, reqs[..n])
  {
    hide SameVerdict;
    forall k | 0 <= k < n ensures SameVerdict(v, reqs[..n][..k], reqs[..n][k]) {
      assert reqs[..n][..k] == reqs[..k];
      assert SameVerdict(v, reqs[..k], reqs[k]);
    }
  }

  // ----- the first verdict that differs

  /** The node has used up its limit in the memory, but not all of it in the file. */
  predicate IsSplit(slots: seq<Slot>, at: real, limit: int) {
    && |slots| == limit && (forall a | 0 <= a < |slots| :: at - slots[a].at < RATE_WINDOW)
    && exists a :: 0 <= a < |slots| && !slots[a].live
  }

  /** What the two stores count for the node of a message. */
  lemma Counts(v: Verifier, reqs: seq<Request>, req: Request)
    requires FileIsTracked(v, reqs)
    ensures var slots, m := SlotsAt(v, reqs, req.authenticatedAs), MemoryAfter(v, reqs);
            && |LogOf(Trimmed(m, req.authenticatedAs, req.at).rateLog, req.authenticatedAs)| == |RecentSlots(slots, req.at)|
            && |Recent(SentBy(TablesAfter(v, reqs).messages, req.authenticatedAs), req.at)|
               == |LiveTimes(RecentSlots(slots, req.at))|
  {
    hide Recent, AllTimes, LiveTimes, RecentSlots, MemoryAfter, TablesAfter, SlotsAt, SentBy, IsKept;
    MemoryIsTracked(v, reqs, req.authenticatedAs);
    RecentSlotTimes(SlotsAt(v, reqs, req.authenticatedAs), req.at);
  }

  lemma CountsAgreeUnlessSplit(slots: seq<Slot>, reqs: seq<Request>, at: real, limit: int)
    requires IsKept(slots, reqs, limit)
    ensures var all, live := |RecentSlots(slots, at)|, |LiveTimes(RecentSlots(slots, at))|;
            if IsSplit(slots, at, limit) then all == limit > live
            else if all < limit then live < limit
            else live == all
  {
    hide AllTimes, LiveTimes, RecentSlots, PurgedSince;
    var recent := RecentSlots(slots, at);
    AllRecentOrFewer(slots, at);
    AllLiveOrFewer(slots);
    NoSlots(at);
  }

  lemma SameUnlessSplit(v: Verifier, reqs: seq<Request>, req: Request)
    requires FileIsTracked(v, reqs)
    ensures !SameVerdict(v, reqs, req) ==> IsSplit(SlotsAt(v, reqs, req.authenticatedAs), req.at, v.policy.maxPerMinute)
  {
    hide Screen, Recent, AllTimes, LiveTimes, RecentSlots, MemoryAfter, TablesAfter, SlotsAt, SentBy;
    hide IsSplit, IsKept, LogOf, LastMinute;
    var slots := SlotsAt(v, reqs, req.authenticatedAs);
    MemoryIsTracked(v, reqs, req.authenticatedAs);
    SeenAreTimed(v, reqs);
    Counts(v, reqs, req);
    CountsAgreeUnlessSplit(slots, reqs, req.at, v.policy.maxPerMinute);
  }

  lemma SplitIsACrowd(v: Verifier, reqs: seq<Request>, req: Request)
    requires IsSplit(SlotsAt(v, reqs, req.authenticatedAs), req.at, v.policy.maxPerMinute)
    ensures HasCrowd(ClockOf(reqs + [req]), v.policy.maxPerMinute)
  {
    hide SlotsAt;
    MemoryIsTracked(v, reqs, req.authenticatedAs);
    var slots := SlotsAt(v, reqs, req.authenticatedAs);
    var clock, k := ClockOf(reqs + [req]), |reqs|;
    var crowd := seq(|slots|, a requires 0 <= a < |slots| => slots[a].index);
    assert clock[k] == req.at;
    assert forall a | 0 <= a < |slots| :: clock[crowd[a]] == reqs[slots[a].index].at == slots[a].at;
    var gone :| 0 <= gone < |slots| && !slots[gone].live;
    assert PurgedSince(slots[gone], reqs);
    var j :| slots[gone].index < j < |reqs| && reqs[j].at - slots[gone].at >= RATE_WINDOW;
    assert clock[j] - clock[crowd[gone]] >= RATE_WINDOW;
    assert IsCrowd(clock, crowd, j, k);
  }

  lemma LongerClock(reqs: seq<Request>, n: nat, size: int)
    requires n <= |reqs| && HasCrowd(ClockOf(reqs[..n]), size)
    ensures HasCrowd(ClockOf(reqs), size)
  {
    var short, clock := ClockOf(reqs[..n]), ClockOf(reqs);
    assert forall i | 0 <= i < n :: short[i] == clock[i];
    var crowd: seq<nat>, j: nat, k: nat :| |crowd| == size && IsCrowd(short, crowd, j, k);
    var a :| 0 <= a < |crowd| && crowd[a] < j && short[j] - short[crowd[a]] >= RATE_WINDOW;
    assert clock[j] - clock[crowd[a]] >= RATE_WINDOW;
    assert IsCrowd(clock, crowd, j, k);
  }

  /** Without a crowd as large as the limit the two stores agree on every message of the run. */
  lemma {:induction false} WithoutACrowdTheStoresAgree(v: Verifier, reqs: seq<Request>)
    requires !HasCrowd(ClockOf(reqs), v.policy.maxPerMinute)
    ensures AgreeThroughout(v, reqs)
    decreases |reqs|
  {
    hide HasCrowd, FileIsTracked, SameVerdict, IsSplit;
    if reqs != [] {
      var front, req := reqs[..|reqs| - 1], reqs[|reqs| - 1];
      assert reqs == front + [req];
      if HasCrowd(ClockOf(front), v.policy.maxPerMinute) {
        LongerClock(reqs, |reqs| - 1, v.policy.maxPerMinute);
      }
      WithoutACrowdTheStoresAgree(v, front);
      AgreeingFileIsTracked(v, front);
      SameUnlessSplit(v, front, req);
      if !SameVerdict(v, front, req) {
        SplitIsACrowd(v, front, req);
      }
      AgreeFurther(v, front, req);
    }
  }

  lemma AgreeFurther(v: Verifier, reqs: seq<Request>, req: Request)
    requires AgreeThroughout(v, reqs) && SameVerdict(v, reqs, req)
    ensures AgreeThroughout(v, reqs + [req])
  {
    hide SameVerdict;
    var all := reqs + [req];
    forall n | 0 <= n < |all| ensures SameVerdict(v, all[..n], all[n]) {
      if n < |reqs| {
        assert all[..n] == reqs[..n];
        assert SameVerdict(v, reqs[..n], reqs[n]);
      } else {
        assert all[..n] == reqs;
      }
    }
  }

  /** On a steady clock the two stores agree on every message of every run. */
  lemma SteadyClockKeepsTheStoresTogether(v: Verifier, reqs: seq<Request>)
    requires Steady(ClockOf(reqs))
    ensures AgreeThroughout(v, reqs)
  {
    hide Steady, AgreeThroughout, HasCrowd;
    SteadyMeansNoCrowd(ClockOf(reqs), v.policy.maxPerMinute);
    WithoutACrowdTheStoresAgree(v, reqs);
  }

  /** In particular, after every run with a clock that does not go back, the process memory, the SQLite file and
      the reference that forgets nothing give the same verdict on the next message, refusal code included, and
      the INSERT of the nonce never meets its own primary key. */
  lemma StoresAgree(v: Verifier, reqs: seq<Request>, req: Request)
    requires Clocked(reqs + [req])
    ensures MemoryStep(v, MemoryAfter(v, reqs), req).1 == Judge(v, HistoryAfter(v, reqs), req)
    ensures TablesStep(v, TablesAfter(v, reqs), req).1 == Some(Judge(v, HistoryAfter(v, reqs), req))
  {
    hide Clocked, Judge, MemoryStep, TablesStep, MemoryAfter, TablesAfter, HistoryAfter, Steady;
    MemoryAgrees(v, reqs, req);
    ClockedIsSteady(reqs + [req]);
    SteadyClockKeepsTheStoresTogether(v, reqs + [req]);
    var all := reqs + [req];
    assert all[..|reqs|] == reqs && all[|reqs|] == req;
    assert SameVerdict(v, all[..|reqs|], all[|reqs|]);
  }

  // ----- every crowd separates them

  /** The crowd and `k` come from one node and `j` from another, with the size of the crowd as limit; all other
      messages fail a check. */
  predicate Crowding(v: Verifier, reqs: seq<Request>, crowd: seq<nat>, j: nat, k: nat) {
    && IsCrowd(ClockOf(reqs), crowd, j, k) && v.policy.maxPerMinute == |crowd|
    && (forall n: nat | n < |reqs| :: Screen(v, reqs[n]).None? <==> n in crowd || n == j || n == k)
    && (forall n: nat | n < |reqs| && n in crowd :: reqs[n].authenticatedAs == reqs[k].authenticatedAs)
    && reqs[j].authenticatedAs != reqs[k].authenticatedAs
    && forall m, n | 0 <= m < n < |reqs| :: reqs[m].message.body.nonce != reqs[n].message.body.nonce
  }

  lemma {:induction false} SeenInTheRun(v: Verifier, reqs: seq<Request>, nonce: string)
    requires nonce in MemoryAfter(v, reqs).seen
    ensures exists m :: 0 <= m < |reqs| && reqs[m].message.body.nonce == nonce
    decreases |reqs|
  {
    hide Screen, Recent, LogOf;
    if reqs != [] {
      var n := |reqs| - 1;
      if nonce in MemoryAfter(v, reqs[..n]).seen {
        SeenInTheRun(v, reqs[..n], nonce);
        var m :| 0 <= m < n && reqs[..n][m].message.body.nonce == nonce;
        assert reqs[m].message.body.nonce == nonce;
      } else {
        assert reqs[n].message.body.nonce == nonce;
      }
    }
  }

  lemma FreshNonce(v: Verifier, reqs: seq<Request>, n: nat)
    requires n < |reqs| && forall m, n | 0 <= m < n < |reqs| :: reqs[m].message.body.nonce != reqs[n].message.body.nonce
    ensures reqs[n].message.body.nonce !in MemoryAfter(v, reqs[..n]).seen
  {
    var nonce := reqs[n].message.body.nonce;
    if nonce in MemoryAfter(v, reqs[..n]).seen {
      SeenInTheRun(v, reqs[..n], nonce);
    }
  }

  /** The slots are those of the crowd before the `n`-th message, and no longer live once their minute ended. */
  predicate HoldsCrowd(slots: seq<Slot>, reqs: seq<Request>, crowd: seq<nat>, j: nat, n: nat)
    requires j < |reqs| && forall a | 0 <= a < |crowd| :: crowd[a] < |reqs|
  {
    && |slots| <= |crowd| && (|slots| < |crowd| ==> crowd[|slots|] >= n)
    && forall a | 0 <= a < |slots| ::
         && slots[a].index == crowd[a] < n && slots[a].at == reqs[crowd[a]].at
         && (crowd[a] < j < n && reqs[j].at - slots[a].at >= RATE_WINDOW ==> !slots[a].live)
  }

  /** What the memory answers to a message that passes the checks with a new nonce. */
  lemma FreshVerdict(v: Verifier, reqs: seq<Request>, req: Request)
    requires Screen(v, req).None? && req.message.body.nonce !in MemoryAfter(v, reqs).seen
    ensures var count := |RecentSlots(SlotsAt(v, reqs, req.authenticatedAs), req.at)|;
            MemoryStep(v, MemoryAfter(v, reqs), req).1
            == if count >= v.policy.maxPerMinute then Refused(Overloaded(count)) else Accepted
  {
    hide Screen, Recent, AllTimes, RecentSlots, MemoryAfter, SlotsAt, IsKept;
    MemoryIsTracked(v, reqs, req.authenticatedAs);
    RecentSlotTimes(SlotsAt(v, reqs, req.authenticatedAs), req.at);
  }

  /** The next of the crowd finds the ones before it in the minute. */
  lemma CrowdSoFar(slots: seq<Slot>, reqs: seq<Request>, crowd: seq<nat>, j: nat, k: nat, n: nat)
    requires IsCrowd(ClockOf(reqs), crowd, j, k) && HoldsCrowd(slots, reqs, crowd, j, n) && n in crowd
    ensures |slots| < |crowd| && n == crowd[|slots|] && RecentSlots(slots, reqs[n].at) == slots
  {
    var clock := ClockOf(reqs);
    assert forall a | 0 <= a < |slots| :: crowd[a] == slots[a].index < n;
    assert forall a | |slots| < a < |crowd| :: crowd[a] > crowd[|slots|] >= n;
    var b :| 0 <= b < |crowd| && crowd[b] == n;
    assert b == |slots|;
    forall a | 0 <= a < |slots| ensures reqs[n].at - slots[a].at < RATE_WINDOW {
      assert clock[crowd[b]] - clock[crowd[a]] < RATE_WINDOW;
    }
    AllRecentOrFewer(slots, reqs[n].at);
  }

  lemma OneOfCrowdMore(slots: seq<Slot>, reqs: seq<Request>, crowd: seq<nat>, j: nat, n: nat)
    requires j < |reqs| && forall a | 0 <= a < |crowd| :: crowd[a] < |reqs|
    requires forall a, b | 0 <= a < b < |crowd| :: crowd[a] < crowd[b]
    requires HoldsCrowd(slots, reqs, crowd, j, n) && |slots| < |crowd| && n == crowd[|slots|] && n != j
    ensures HoldsCrowd(slots + [Slot(n, reqs[n].at, true)], reqs, crowd, j, n + 1)
  {
    var more := slots + [Slot(n, reqs[n].at, true)];
    assert forall a | 0 <= a < |slots| :: more[a] == slots[a];
  }

  lemma CrowdMessage(v: Verifier, reqs: seq<Request>, crowd: seq<nat>, j: nat, k: nat, n: nat)
    requires Crowding(v, reqs, crowd, j, k) && n in crowd && n < k
    requires HoldsCrowd(SlotsAt(v, reqs[..n], reqs[k].authenticatedAs), reqs, crowd, j, n)
    ensures MemoryStep(v, MemoryAfter(v, reqs[..n]), reqs[n]).1.Accepted?
    ensures !IsSplit(SlotsAt(v, reqs[..n], reqs[n].authenticatedAs), reqs[n].at, v.policy.maxPerMinute)
    ensures HoldsCrowd(SlotsAt(v, reqs[..n] + [reqs[n]], reqs[k].authenticatedAs), reqs, crowd, j, n + 1)
  {
    hide Screen, MemoryStep, MemoryAfter, SlotsAt, RecentSlots;
    var slots := SlotsAt(v, reqs[..n], reqs[k].authenticatedAs);
    FreshNonce(v, reqs, n);
    CrowdSoFar(slots, reqs, crowd, j, k, n);
    OneOfCrowdMore(slots, reqs, crowd, j, n);
    FreshVerdict(v, reqs[..n], reqs[n]);
    SlotsGrow(v, reqs[..n], reqs[n], reqs[k].authenticatedAs);
  }

  lemma CrowdHasMembers(clock: seq<real>, crowd: seq<nat>, j: nat, k: nat)
    requires IsCrowd(clock, crowd, j, k)
    ensures crowd != [] && j < k < |clock| && forall a | 0 <= a < |crowd| :: crowd[a] < k
  {
  }

  lemma CrowdIsPurged(slots: seq<Slot>, reqs: seq<Request>, crowd: seq<nat>, j: nat)
    requires j < |reqs| && (forall a | 0 <= a < |crowd| :: crowd[a] < |reqs|) && j !in crowd
    requires HoldsCrowd(slots, reqs, crowd, j, j)
    ensures HoldsCrowd(Purged(slots, reqs[j].at), reqs, crowd, j, j + 1)
  {
  }

  lemma OtherMessage(v: Verifier, reqs: seq<Request>, crowd: seq<nat>, j: nat, k: nat)
    requires Crowding(v, reqs, crowd, j, k) && SlotsAt(v, reqs[..j], reqs[j].authenticatedAs) == []
    requires HoldsCrowd(SlotsAt(v, reqs[..j], reqs[k].authenticatedAs), reqs, crowd, j, j)
    ensures MemoryStep(v, MemoryAfter(v, reqs[..j]), reqs[j]).1.Accepted?
    ensures !IsSplit(SlotsAt(v, reqs[..j], reqs[j].authenticatedAs), reqs[j].at, v.policy.maxPerMinute)
    ensures HoldsCrowd(SlotsAt(v, reqs[..j] + [reqs[j]], reqs[k].authenticatedAs), reqs, crowd, j, j + 1)
  {
    hide Screen, MemoryStep, MemoryAfter, SlotsAt, RecentSlots, HoldsCrowd, IsCrowd;
    CrowdHasMembers(ClockOf(reqs), crowd, j, k);
    CrowdIsPurged(SlotsAt(v, reqs[..j], reqs[k].authenticatedAs), reqs, crowd, j);
    FreshNonce(v, reqs, j);
    FreshVerdict(v, reqs[..j], reqs[j]);
    NoSlots(reqs[j].at);
    SlotsGrow(v, reqs[..j], reqs[j], reqs[k].authenticatedAs);
  }

  lemma PassedOver(slots: seq<Slot>, reqs: seq<Request>, crowd: seq<nat>, j: nat, n: nat)
    requires j < |reqs| && forall a | 0 <= a < |crowd| :: crowd[a] < |reqs|
    requires HoldsCrowd(slots, reqs, crowd, j, n) && n !in crowd && n != j
    ensures HoldsCrowd(slots, reqs, crowd, j, n + 1)
  {
  }

  lemma ScreenedVerdicts(v: Verifier, reqs: seq<Request>, req: Request)
    requires Screen(v, req).Some?
    ensures SameVerdict(v, reqs, req) && MemoryStep(v, MemoryAfter(v, reqs), req).1.Refused?
  {
    hide MemoryAfter, TablesAfter;
  }

  /** Before the message `k` everything is alike, and the memory holds what has passed of the crowd. */
  lemma {:induction false} CrowdGathers(v: Verifier, reqs: seq<Request>, crowd: seq<nat>, j: nat, k: nat, n: nat)
    requires Crowding(v, reqs, crowd, j, k) && n <= k
    ensures AgreeThroughout(v, reqs[..n])
    ensures HoldsCrowd(SlotsAt(v, reqs[..n], reqs[k].authenticatedAs), reqs, crowd, j, n)
    ensures n <= j ==> SlotsAt(v, reqs[..n], reqs[j].authenticatedAs) == []
    decreases n
  {
    hide Screen, MemoryStep, MemoryAfter, SlotsAt, HoldsCrowd, IsSplit, AgreeThroughout, SameVerdict, FileIsTracked;
    if n == 0 {
      NothingGathered(v, reqs, crowd, j, k);
    } else {
      var m := n - 1;
      CrowdGathers(v, reqs, crowd, j, k, m);
      assert reqs[..n] == reqs[..m] + [reqs[m]];
      if m in crowd {
        CrowdMessage(v, reqs, crowd, j, k, m);
      } else if m == j {
        OtherMessage(v, reqs, crowd, j, k);
      } else {
        ScreenedVerdicts(v, reqs[..m], reqs[m]);
        SlotsGrow(v, reqs[..m], reqs[m], reqs[k].authenticatedAs);
        PassedOver(SlotsAt(v, reqs[..m], reqs[k].authenticatedAs), reqs, crowd, j, m);
      }
      AgreeingFileIsTracked(v, reqs[..m]);
      SameUnlessSplit(v, reqs[..m], reqs[m]);
      AgreeFurther(v, reqs[..m], reqs[m]);
      SlotsGrow(v, reqs[..m], reqs[m], reqs[j].authenticatedAs);
      NoSlots(reqs[m].at);
    }
  }

  lemma NothingGathered(v: Verifier, reqs: seq<Request>, crowd: seq<nat>, j: nat, k: nat)
    requires Crowding(v, reqs, crowd, j, k)
    ensures AgreeThroughout(v, reqs[..0])
    ensures forall node :: SlotsAt(v, reqs[..0], node) == []
    ensures HoldsCrowd(SlotsAt(v, reqs[..0], reqs[k].authenticatedAs), reqs, crowd, j, 0)
  {
    hide Screen;
    assert reqs[..0] == [];
  }

  lemma GatheredIsSplit(slots: seq<Slot>, reqs: seq<Request>, crowd: seq<nat>, j: nat, k: nat)
    requires IsCrowd(ClockOf(reqs), crowd, j, k) && HoldsCrowd(slots, reqs, crowd, j, k)
    ensures IsSplit(slots, reqs[k].at, |crowd|)
  {
    var clock := ClockOf(reqs);
    assert |slots| == |crowd|;
    var a :| 0 <= a < |crowd| && crowd[a] < j && clock[j] - clock[crowd[a]] >= RATE_WINDOW;
    assert !slots[a].live;
    assert forall b | 0 <= b < |crowd| :: clock[k] - clock[crowd[b]] < RATE_WINDOW;
  }

  lemma SplitVerdicts(v: Verifier, reqs: seq<Request>, req: Request)
    requires FileIsTracked(v, reqs) && IsSplit(SlotsAt(v, reqs, req.authenticatedAs), req.at, v.policy.maxPerMinute)
    requires Screen(v, req).None? && req.message.body.nonce !in MemoryAfter(v, reqs).seen && v.policy.maxPerMinute >= 0
    ensures MemoryStep(v, MemoryAfter(v, reqs), req).1 == Refused(Overloaded(v.policy.maxPerMinute))
    ensures TablesStep(v, TablesAfter(v, reqs), req).1 == Some(Accepted)
  {
    hide Screen, Recent, AllTimes, LiveTimes, RecentSlots, MemoryAfter, TablesAfter, SlotsAt, SentBy;
    hide IsSplit, IsKept, LogOf, LastMinute;
    var slots := SlotsAt(v, reqs, req.authenticatedAs);
    MemoryIsTracked(v, reqs, req.authenticatedAs);
    SeenAreTimed(v, reqs);
    Counts(v, reqs, req);
    CountsAgreeUnlessSplit(slots, reqs, req.at, v.policy.maxPerMinute);
    FreshVerdict(v, reqs, req);
  }

  /** Wherever there is a crowd of the size of the limit, the memory refuses as too many what the file accepts. */
  lemma CrowdSeparatesTheStores(v: Verifier, reqs: seq<Request>, crowd: seq<nat>, j: nat, k: nat)
    requires Crowding(v, reqs, crowd, j, k)
    ensures MemoryStep(v, MemoryAfter(v, reqs[..k]), reqs[k]).1 == Refused(Overloaded(|crowd|))
    ensures TablesStep(v, TablesAfter(v, reqs[..k]), reqs[k]).1 == Some(Accepted)
  {
    hide Screen, MemoryStep, TablesStep, MemoryAfter, TablesAfter, SlotsAt, HoldsCrowd, IsSplit, FileIsTracked;
    CrowdGathers(v, reqs, crowd, j, k, k);
    AgreeingFileIsTracked(v, reqs[..k]);
    GatheredIsSplit(SlotsAt(v, reqs[..k], reqs[k].authenticatedAs), reqs, crowd, j, k);
    FreshNonce(v, reqs, k);
    SplitVerdicts(v, reqs[..k], reqs[k]);
  }

  // ----- messages for a crowd

  function Sample(node: string, nonce: string, at: real): Request {
    Request(Message(Body("id", node, "server", Incident, CONTRACT_VERSION, nonce, Finite(at), map[]), "mac"), node, None, at)
  }

  function SamplesOf(clock: seq<real>, crowd: seq<nat>, j: nat, k: nat): (reqs: seq<Request>)
    ensures |reqs| == |clock|
    ensures forall n: nat | n < |clock| ::
              reqs[n] == Sample(if n == j then "y" else if n in crowd || n == k then "x" else "z", FourDigits(n), clock[n])
  {
    seq(|clock|, n requires 0 <= n < |clock| =>
          Sample(if n == j then "y" else if n in crowd || n == k then "x" else "z", FourDigits(n), clock[n]))
  }

  function SampleVerifier(limit: int): (v: Verifier)
    ensures v.policy.maxPerMinute == limit
  {
    Verifier((secret: string, body: Body) => "mac", map["x" := "secret", "y" := "secret"], Policy(CONTRACT_VERSION, 1.0, limit))
  }

  lemma SampleIsScreened(limit: int, node: string, nonce: string, at: real)
    ensures Screen(SampleVerifier(limit), Sample(node, nonce, at)).None? <==> node == "x" || node == "y"
  {
  }

  lemma OutsideTheCrowd(clock: seq<real>, crowd: seq<nat>, j: nat, k: nat)
    requires IsCrowd(clock, crowd, j, k)
    ensures j !in crowd
  {
    var a :| 0 <= a < |crowd| && crowd[a] < j && clock[j] - clock[crowd[a]] >= RATE_WINDOW;
    forall b | 0 <= b < |crowd| ensures crowd[b] != j {
      assert b < a ==> crowd[b] < crowd[a];
      assert a < b ==> clock[crowd[b]] - clock[crowd[a]] < RATE_WINDOW;
    }
  }

  lemma SamplesCrowd(clock: seq<real>, crowd: seq<nat>, j: nat, k: nat)
    requires IsCrowd(clock, crowd, j, k)
    ensures Crowding(SampleVerifier(|crowd|), SamplesOf(clock, crowd, j, k), crowd, j, k)
  {
    hide Screen, FourDigits, SampleVerifier;
    var v, reqs := SampleVerifier(|crowd|), SamplesOf(clock, crowd, j, k);
    OutsideTheCrowd(clock, crowd, j, k);
    assert ClockOf(reqs) == clock;
    forall n: nat | n < |reqs| ensures Screen(v, reqs[n]).None? <==> n in crowd || n == j || n == k {
      SampleIsScreened(|crowd|, reqs[n].authenticatedAs, FourDigits(n), clock[n]);
    }
    forall m, n | 0 <= m < n < |reqs| ensures reqs[m].message.body.nonce != reqs[n].message.body.nonce {
      if FourDigits(m) == FourDigits(n) {
        FourDigitsIsInjective(m, n);
      }
    }
  }

  // ----- the exact conditions

  ghost predicate AlwaysAgree(clock: seq<real>, limit: int) {
    forall v: Verifier, reqs: seq<Request> | ClockOf(reqs) == clock && v.policy.maxPerMinute == limit :: AgreeThroughout(v, reqs)
  }

  /** The exact condition for a given limit. The two stores agree on every message of every run whose messages
      arrive at these instants, under every configuration with this limit, if and only if the clock has no crowd
      of that size. */
  lemma StoresAgreeIffNoCrowd(clock: seq<real>, limit: int)
    ensures AlwaysAgree(clock, limit) <==> !HasCrowd(clock, limit)
  {
    hide AgreeThroughout, IsCrowd;
    if HasCrowd(clock, limit) {
      var crowd: seq<nat>, j: nat, k: nat :| |crowd| == limit && IsCrowd(clock, crowd, j, k);
      SeparatingRun(clock, crowd, j, k);
    } else {
      forall v: Verifier, reqs: seq<Request> | ClockOf(reqs) == clock && v.policy.maxPerMinute == limit
        ensures AgreeThroughout(v, reqs)
      {
        WithoutACrowdTheStoresAgree(v, reqs);
      }
    }
  }

  lemma SeparatingRun(clock: seq<real>, crowd: seq<nat>, j: nat, k: nat)
    requires IsCrowd(clock, crowd, j, k)
    ensures !AlwaysAgree(clock, |crowd|)
  {
    hide IsCrowd, SameVerdict;
    var v, reqs := SampleVerifier(|crowd|), SamplesOf(clock, crowd, j, k);
    SamplesCrowd(clock, crowd, j, k);
    assert ClockOf(reqs) == clock;
    Disagreement(v, reqs, crowd, j, k);
  }

  lemma Disagreement(v: Verifier, reqs: seq<Request>, crowd: seq<nat>, j: nat, k: nat)
    requires Crowding(v, reqs, crowd, j, k)
    ensures !AgreeThroughout(v, reqs)
  {
    hide Screen, MemoryStep, TablesStep, MemoryAfter, TablesAfter;
    CrowdSeparatesTheStores(v, reqs, crowd, j, k);
    assert !SameVerdict(v, reqs[..k], reqs[k]);
  }

  /** They agree whatever the limit, if and only if the clock is steady; a limit of one message already tells. */
  lemma StoresAgreeIffSteady(clock: seq<real>)
    ensures Steady(clock) <==> forall limit: int :: AlwaysAgree(clock, limit)
    ensures Steady(clock) <==> AlwaysAgree(clock, 1)
  {
    hide Steady, AlwaysAgree, HasCrowd;
    StoresAgreeIffNoCrowd(clock, 1);
    if Steady(clock) {
      forall limit: int ensures AlwaysAgree(clock, limit) {
        SteadyMeansNoCrowd(clock, limit);
        StoresAgreeIffNoCrowd(clock, limit);
      }
    } else {
      UnsteadyHasACrowdOfOne(clock);
    }
  }
}
