/** Whole runs of the queue. Every operation is one atomic step, so any interleaving of processes is a
    sequence of operations from the empty tables. */
module QueueRuns {
  import opened Wrappers
  import opened Text
  import opened Sets
  import opened QueueModel

  datatype Run = Run(states: seq<Queue>, ops: seq<Op>)

  ghost predicate IsRun(r: Run) {
    |r.states| == |r.ops| + 1 && r.states[0] == EMPTY &&
    forall k {:trigger r.ops[k]} | 0 <= k < |r.ops| :: Possible(r.states[k], r.ops[k]) && r.states[k + 1] == After(r.states[k], r.ops[k])
  }

  /** The clock never goes back. Pruning reads no clock. */
  predicate Clocked(r: Run) {
    forall i, j | 0 <= i < j < |r.ops| :: r.ops[i].PruneOp? || r.ops[j].PruneOp? || r.ops[i].at <= r.ops[j].at
  }

  predicate NeverPruned(r: Run) {
    forall k | 0 <= k < |r.ops| :: !r.ops[k].PruneOp?
  }

  predicate SameLimit(r: Run, maxAttempts: int) {
    forall k | 0 <= k < |r.ops| :: r.ops[k].ReconcileOp? ==> r.ops[k].maxAttempts == maxAttempts
  }

  ghost predicate Grants(q: Queue, op: Op, t: string) {
    op.LeaseOp? && op.ttl > 0.0 && Oldest(q.entries) == Some(t)
  }

  predicate Accepts(q: Queue, op: Op, t: string) {
    op.RecordOp? && op.task == t && t in q.entries &&
    Judge(q.entries[t], op.worker, op.result, op.observed, op.at).accepted
  }

  // ----- what one step does to one entry and to the rows of one task

  function Effect(e: Entry, t: string, op: Op, granted: bool): Entry {
    match op
    case LeaseOp(worker, ttl, at) => if granted then Grant(e, worker, ttl, at) else e
    case RenewOp(task, worker, ttl, at) =>
      if task == t && HeldBy(e, worker) then e.(expires := Some(at + ttl), updatedAt := at) else e
    case RecordOp(task, worker, result, observed, at) =>
      var verdict := Judge(e, worker, result, observed, at);
      if task == t && verdict.accepted then Closed(e, verdict.finalState, at) else e
    case CancelOp(task, at) => if task == t && !Terminal(e) then Closed(e, Cancelled, at) else e
    case ReconcileOp(maxAttempts, _, at) => if Orphaned(e, at) then Reclaimed(e, maxAttempts, at) else e
    case _ => e
  }

  lemma OrphansAreEntries(q: Queue, op: Op)
    requires Possible(q, op) && op.ReconcileOp?
    ensures forall i | 0 <= i < |op.order| :: op.order[i] in q.entries
  {
    forall i | 0 <= i < |op.order| ensures op.order[i] in q.entries {
      assert op.order[i] in set t | t in op.order;
      assert op.order[i] in Orphans(q.entries, op.at);
    }
  }

  lemma StepEntry(q: Queue, op: Op, t: string)
    requires Possible(q, op) && t in q.entries
    ensures t in After(q, op).entries
    ensures After(q, op).entries[t] == Effect(q.entries[t], t, op, Grants(q, op, t))
  {
    if op.ReconcileOp? {
      OrphansAreEntries(q, op);
      ReclaimsInOneGo(q, op.order, op.maxAttempts, op.at);
      assert t in op.order <==> t in Orphans(q.entries, op.at);
    }
  }

  lemma StepKeys(q: Queue, op: Op)
    requires Possible(q, op)
    ensures After(q, op).entries.Keys == q.entries.Keys + if op.EnqueueOp? then {op.recipe.taskId} else {}
  {
    if op.ReconcileOp? {
      OrphansAreEntries(q, op);
      ReclaimsInOneGo(q, op.order, op.maxAttempts, op.at);
    } else if op.LeaseOp? && op.ttl > 0.0 && Oldest(q.entries).Some? {
      assert After(q, op).entries.Keys == q.entries.Keys + {Oldest(q.entries).value};
    }
  }

  /** The row, if any, that a step writes for one task. */
  ghost function RowsFor(q: Queue, op: Op, t: string): seq<Row> {
    match op
    case EnqueueOp(recipe, fingerprint, base, at) =>
      if recipe.taskId == t && t !in q.entries then [Row(t, 0, EnqueuedEvent(recipe.revision, fingerprint), at)] else []
    case LeaseOp(worker, ttl, at) =>
      if Grants(q, op, t) then [Row(t, q.entries[t].attempt + 1, LeasedEvent(worker, at + ttl), at)] else []
    case RecordOp(task, worker, result, observed, at) =>
      if task == t && t in q.entries then [ResultRow(q.entries[t], t, worker, result, observed, at)] else []
    case CancelOp(task, at) =>
      if task == t && t in q.entries && !Terminal(q.entries[t])
      then [Row(t, q.entries[t].attempt, CancelledEvent, at)] else []
    case ReconcileOp(maxAttempts, _, at) =>
      if t in q.entries && Orphaned(q.entries[t], at)
      then [ReclaimRow(q.entries[t], t, maxAttempts, at)] else []
    case _ => []
  }

  lemma {:induction false} JournalOfConcat(a: seq<Row>, b: seq<Row>, t: string)
    ensures JournalOf(a + b, t) == JournalOf(a, t) + JournalOf(b, t)
  {
    if b == [] {
      assert a + b == a;
    } else {
      var n := |b| - 1;
      assert a + b == (a + b[..n]) + [b[n]];
      JournalOfConcat(a, b[..n], t);
    }
  }

  lemma {:induction false} ReclaimRowsOf(entries: map<string, Entry>, order: seq<string>, maxAttempts: int, at: real, t: string)
    requires Enumerates(order, set u | u in order) && forall i | 0 <= i < |order| :: order[i] in entries
    ensures JournalOf(ReclaimRows(entries, order, maxAttempts, at), t)
            == if t in order then [ReclaimRow(entries[t], t, maxAttempts, at)] else []
  {
    hide JournalOf, ReclaimRow;
    if order == [] {
      NothingJournaled(t);
    } else {
      var n := |order| - 1;
      var init, last := order[..n], order[n];
      assert order == init + [last];
      assert last !in init;
      ReclaimRowsOf(entries, init, maxAttempts, at, t);
      var row := ReclaimRow(entries[last], last, maxAttempts, at);
      assert ReclaimRows(entries, order, maxAttempts, at) == ReclaimRows(entries, init, maxAttempts, at) + [row];
      JournalOfConcat(ReclaimRows(entries, init, maxAttempts, at), [row], t);
      JournalOfOne(row, t);
      RowIsOfItsTask(entries[last], last, maxAttempts, at);
    }
  }

  lemma NothingJournaled(t: string)
    ensures JournalOf([], t) == []
  {
  }

  lemma RowIsOfItsTask(e: Entry, t: string, maxAttempts: int, at: real)
    ensures ReclaimRow(e, t, maxAttempts, at).taskId == t
  {
  }

  lemma JournalOfOne(row: Row, t: string)
    ensures JournalOf([row], t) == if row.taskId == t then [row] else []
  {
    assert [row][..0] == [];
  }

  lemma StepRows(q: Queue, op: Op, t: string)
    requires Possible(q, op) && !op.PruneOp?
    ensures JournalOf(After(q, op).journal, t) == JournalOf(q.journal, t) + RowsFor(q, op, t)
  {
    hide ReclaimRows, ReclaimRow, JournalOf;
    assert JournalOf(q.journal, t) + [] == JournalOf(q.journal, t);
    if op.ReconcileOp? {
      OrphansAreEntries(q, op);
      ReclaimsInOneGo(q, op.order, op.maxAttempts, op.at);
      ReclaimRowsOf(q.entries, op.order, op.maxAttempts, op.at, t);
      JournalOfConcat(q.journal, ReclaimRows(q.entries, op.order, op.maxAttempts, op.at), t);
      assert t in op.order <==> t in Orphans(q.entries, op.at);
    } else if After(q, op).journal != q.journal {
      var row := After(q, op).journal[|q.journal|];
      assert After(q, op).journal == q.journal + [row];
      JournalOfConcat(q.journal, [row], t);
      JournalOfOne(row, t);
    }
  }

  // ----- the invariant of every reachable state

  predicate SoundEntry(e: Entry, t: string) {
    && e.recipe.taskId == t
    && (e.state == Leased <==> e.holder.Some?)
    && (e.state == Leased <==> e.expires.Some?)
    && (e.state in {Leased, Succeeded, Failed, DeadLetter} ==> e.attempt > 0)
  }

  predicate Sound(q: Queue) {
    forall t | t in q.entries :: SoundEntry(q.entries[t], t)
  }

  lemma StepKeepsSound(q: Queue, op: Op)
    requires Possible(q, op) && Sound(q)
    ensures Sound(After(q, op))
  {
    StepKeys(q, op);
    forall t | t in After(q, op).entries ensures SoundEntry(After(q, op).entries[t], t) {
      if t in q.entries {
        StepEntry(q, op, t);
      }
    }
  }

  /** In every reachable state an entry is leased exactly when it has a holder and exactly when it has an
      expiry, and nothing ends without having been leased, except by cancellation. */
  lemma {:induction false} ReachableIsSound(r: Run, k: nat)
    requires IsRun(r) && k < |r.states|
    ensures Sound(r.states[k])
  {
    if k > 0 {
      ReachableIsSound(r, k - 1);
      StepKeepsSound(r.states[k - 1], r.ops[k - 1]);
    }
  }

  /** A task that exists goes on existing, and what its first enqueue stored never changes. */
  lemma {:induction false} EntriesPersist(r: Run, i: nat, j: nat, t: string)
    requires IsRun(r) && i <= j < |r.states| && t in r.states[i].entries
    ensures t in r.states[j].entries
    ensures var a, b := r.states[i].entries[t], r.states[j].entries[t];
            && (a.recipe, a.fingerprint, a.base, a.enqueuedAt) == (b.recipe, b.fingerprint, b.base, b.enqueuedAt)
            && a.attempt <= b.attempt
    decreases j
  {
    if i < j {
      EntriesPersist(r, i, j - 1, t);
      StepEntry(r.states[j - 1], r.ops[j - 1], t);
    }
  }

  /** Succeeded, failed, cancelled and dead-lettered entries never change again, not even by one field. */
  lemma {:induction false} TerminalForever(r: Run, i: nat, j: nat, t: string)
    requires IsRun(r) && i <= j < |r.states|
    requires t in r.states[i].entries && Terminal(r.states[i].entries[t])
    ensures t in r.states[j].entries && r.states[j].entries[t] == r.states[i].entries[t]
    decreases j
  {
    if i < j {
      TerminalForever(r, i, j - 1, t);
      ReachableIsSound(r, j - 1);
      StepEntry(r.states[j - 1], r.ops[j - 1], t);
    }
  }

  // ----- lease exclusion

  ghost predicate GrantAt(r: Run, i: int, t: string)
    requires IsRun(r)
  {
    0 <= i < |r.ops| && Grants(r.states[i], r.ops[i], t)
  }

  /** At state `k` the entry is still in the lease period that the grant at `i` opened. */
  ghost predicate InPeriod(r: Run, i: int, k: int, t: string)
    requires IsRun(r) && GrantAt(r, i, t) && i < k < |r.states|
  {
    t in r.states[k].entries &&
    var e, granted := r.states[k].entries[t], r.states[i].entries[t];
    HeldBy(e, r.ops[i].worker) && e.expires.Some? && e.attempt == granted.attempt + 1
  }

  /** The lease period opened at `i` runs through the states up to `end`, and step `end` is the
      reconciliation that closes it: the last expiry of the period had passed by then. */
  ghost predicate ClosedByReconcile(r: Run, i: int, end: int, t: string)
    requires IsRun(r) && GrantAt(r, i, t) && i < end < |r.ops|
  {
    && (forall k | i < k <= end :: InPeriod(r, i, k, t))
    && InPeriod(r, i, end, t)
    && r.ops[end].ReconcileOp?
    && r.states[end].entries[t].expires.value < r.ops[end].at
    && t in r.states[end + 1].entries && r.states[end + 1].entries[t].state != Leased
  }

  lemma GrantOpensPeriod(r: Run, i: int, t: string)
    requires IsRun(r) && GrantAt(r, i, t)
    ensures InPeriod(r, i, i + 1, t)
  {
    StepEntry(r.states[i], r.ops[i], t);
  }

  /** A step either keeps the period, reclaims a lapsed lease, or ends the task for good. */
  lemma PeriodStep(r: Run, i: int, k: int, t: string)
    requires IsRun(r) && GrantAt(r, i, t) && i < k < |r.ops| && InPeriod(r, i, k, t)
    ensures t in r.states[k + 1].entries
    ensures || InPeriod(r, i, k + 1, t)
            || Terminal(r.states[k + 1].entries[t])
            || (r.ops[k].ReconcileOp? && r.states[k].entries[t].expires.value < r.ops[k].at
                && r.states[k + 1].entries[t].state == Queued)
  {
    StepEntry(r.states[k], r.ops[k], t);
  }

  lemma {:induction false} PeriodEnd(r: Run, i: int, k: int, j: int, t: string) returns (end: int)
    requires IsRun(r) && GrantAt(r, i, t) && GrantAt(r, j, t)
    requires i < k <= j && forall m | i < m <= k :: InPeriod(r, i, m, t)
    ensures i < end < j && ClosedByReconcile(r, i, end, t)
    decreases j - k
  {
    assert InPeriod(r, i, k, t);
    if k == j {
      assert false;
    } else {
      PeriodStep(r, i, k, t);
      if InPeriod(r, i, k + 1, t) {
        end := PeriodEnd(r, i, k + 1, j, t);
      } else {
        if Terminal(r.states[k + 1].entries[t]) {
          TerminalForever(r, k + 1, j, t);
        }
        end := k;
      }
    }
  }

  /** Lease exclusion over every run with a clock that does not go back. Between two grants of one task the
      first lease period, extended by all of its renewals, is closed by a reconciliation that comes strictly
      after its final expiry, and the second grant is later still and carries a higher attempt number. */
  lemma LeasesNeverOverlap(r: Run, i: int, j: int, t: string) returns (end: int)
    requires IsRun(r) && Clocked(r) && GrantAt(r, i, t) && GrantAt(r, j, t) && i < j
    ensures i < end < j && ClosedByReconcile(r, i, end, t)
    ensures InPeriod(r, i, end, t) && r.states[end].entries[t].expires.value < r.ops[end].at <= r.ops[j].at
    ensures r.states[i].entries[t].attempt < r.states[j].entries[t].attempt
  {
    GrantOpensPeriod(r, i, t);
    end := PeriodEnd(r, i, i + 1, j, t);
    assert InPeriod(r, i, i + 1, t);
    EntriesPersist(r, i + 1, j, t);
  }

  // ----- one accepted result

  ghost predicate AcceptedAt(r: Run, k: int, t: string)
    requires IsRun(r)
  {
    0 <= k < |r.ops| && Accepts(r.states[k], r.ops[k], t)
  }

  /** A result is accepted exactly from the worker that holds the lease, while the lease has not expired
      (the instant of the expiry included). The attempt the worker ran is not looked at. */
  lemma AcceptedIffHoldingTheLease(q: Queue, op: Op)
    requires Sound(q) && op.RecordOp? && op.task in q.entries
    ensures Accepts(q, op, op.task) <==>
            var e := q.entries[op.task];
            e.state == Leased && e.holder == Some(op.worker) && op.at <= e.expires.value
  {
    assert SoundEntry(q.entries[op.task], op.task);
  }

  lemma AcceptedEnds(r: Run, k: int, t: string)
    requires IsRun(r) && AcceptedAt(r, k, t)
    ensures t in r.states[k + 1].entries && Terminal(r.states[k + 1].entries[t])
    ensures r.states[k + 1].entries[t].state == Succeeded <==>
            RanOk(r.ops[k].result) && r.ops[k].observed == r.states[k].entries[t].base
  {
    StepEntry(r.states[k], r.ops[k], t);
  }

  lemma AcceptedIsOpen(r: Run, k: int, t: string)
    requires IsRun(r) && AcceptedAt(r, k, t)
    ensures t in r.states[k].entries && !Terminal(r.states[k].entries[t])
  {
    hide After, Possible;
  }

  /** In every run at most one result per task is accepted. */
  lemma OneAcceptedResult(r: Run, i: int, j: int, t: string)
    requires IsRun(r) && AcceptedAt(r, i, t) && AcceptedAt(r, j, t)
    ensures i == j
  {
    hide Accepts, After, Possible, Judge;
    AcceptedIsOpen(r, i, t);
    AcceptedIsOpen(r, j, t);
    if i < j {
      AcceptedEnds(r, i, t);
      TerminalForever(r, i + 1, j, t);
    } else if j < i {
      AcceptedEnds(r, j, t);
      TerminalForever(r, j + 1, i, t);
    }
  }

  /** Step `i` gives the worker a lease or renews the one it holds; the new expiry is the instant of the step
      plus its time to live. */
  ghost predicate SetsLease(r: Run, i: int, t: string, worker: string)
    requires IsRun(r)
  {
    0 <= i < |r.ops| &&
    var q, op := r.states[i], r.ops[i];
    || (Grants(q, op, t) && op.worker == worker)
    || (op.RenewOp? && op.task == t && op.worker == worker && t in q.entries && HeldBy(q.entries[t], worker))
  }

  /** Between `i` and `k` nobody cancels the task, and its worker neither renews nor reports. */
  predicate Undisturbed(r: Run, i: int, k: int, t: string, worker: string)
    requires 0 <= i <= k <= |r.ops|
  {
    forall m | i < m < k :: !Disturbs(r.ops[m], t, worker)
  }

  predicate Disturbs(op: Op, t: string, worker: string) {
    || (op.CancelOp? && op.task == t)
    || (op.RenewOp? && op.task == t && op.worker == worker)
    || (op.RecordOp? && op.task == t && op.worker == worker)
  }

  lemma {:induction false} LeaseLasts(r: Run, i: int, m: int, k: int, t: string, worker: string)
    requires IsRun(r) && Clocked(r) && SetsLease(r, i, t, worker) && i < m <= k < |r.ops|
    requires Undisturbed(r, i, k, t, worker)
    requires !r.ops[k].PruneOp? && r.ops[k].at <= r.ops[i].at + r.ops[i].ttl
    ensures t in r.states[m].entries && HeldBy(r.states[m].entries[t], worker)
    ensures r.states[m].entries[t].expires == Some(r.ops[i].at + r.ops[i].ttl)
    decreases m
  {
    if m > i + 1 {
      LeaseLasts(r, i, m - 1, k, t, worker);
      assert !Disturbs(r.ops[m - 1], t, worker);
    }
    StepEntry(r.states[m - 1], r.ops[m - 1], t);
  }

  /** The step that set the lease which a worker holds in state `m`. */
  lemma {:induction false} LastSet(r: Run, m: nat, k: nat, t: string, worker: string) returns (i: int)
    requires IsRun(r) && Clocked(r) && m <= k < |r.ops| && !r.ops[k].PruneOp?
    requires t in r.states[m].entries && HeldBy(r.states[m].entries[t], worker)
    requires r.states[m].entries[t].expires.Some? && r.ops[k].at <= r.states[m].entries[t].expires.value
    ensures i < m && SetsLease(r, i, t, worker) && Undisturbed(r, i, m, t, worker)
    ensures r.ops[i].at + r.ops[i].ttl == r.states[m].entries[t].expires.value
  {
    hide After, Possible, Grants;
    var q, op := r.states[m - 1], r.ops[m - 1];
    if SetsLease(r, m - 1, t, worker) {
      SetterSetsExpiry(q, op, t, worker);
      i := m - 1;
    } else {
      HeldBefore(q, op, t, worker, r.ops[k].at);
      i := LastSet(r, m - 1, k, t, worker);
    }
  }

  lemma SetterSetsExpiry(q: Queue, op: Op, t: string, worker: string)
    requires Possible(q, op)
    requires || (Grants(q, op, t) && op.worker == worker)
             || (op.RenewOp? && op.task == t && op.worker == worker && t in q.entries && HeldBy(q.entries[t], worker))
    ensures t in After(q, op).entries && After(q, op).entries[t].expires == Some(op.at + op.ttl)
  {
    StepEntry(q, op, t);
  }

  lemma HeldBefore(q: Queue, op: Op, t: string, worker: string, at: real)
    requires Possible(q, op) && t in After(q, op).entries
    requires var e := After(q, op).entries[t];
             HeldBy(e, worker) && e.expires.Some? && at <= e.expires.value
    requires !(Grants(q, op, t) && op.worker == worker)
    requires !(op.RenewOp? && op.task == t && op.worker == worker && t in q.entries && HeldBy(q.entries[t], worker))
    requires op.PruneOp? || op.at <= at
    ensures t in q.entries && q.entries[t] == After(q, op).entries[t] && !Disturbs(op, t, worker)
  {
    StepKeys(q, op);
    if t in q.entries {
      StepEntry(q, op, t);
    }
  }

  /** A report is accepted if and only if it comes no later than the expiry that the last grant or renewal of
      its worker set, with no cancellation and no other report of the worker since; what other workers and
      the reconciliations did in between does not matter. */
  lemma AcceptedIffReportedInTime(r: Run, k: nat, t: string, worker: string)
    requires IsRun(r) && Clocked(r) && k < |r.ops|
    requires r.ops[k].RecordOp? && r.ops[k].task == t && r.ops[k].worker == worker
    ensures AcceptedAt(r, k, t) <==>
            exists i :: 0 <= i < k && SetsLease(r, i, t, worker) && Undisturbed(r, i, k, t, worker)
                        && r.ops[k].at <= r.ops[i].at + r.ops[i].ttl
  {
    if AcceptedAt(r, k, t) {
      ReachableIsSound(r, k);
      AcceptedIffHoldingTheLease(r.states[k], r.ops[k]);
      assert SoundEntry(r.states[k].entries[t], t);
      var i := LastSet(r, k, k, t, worker);
    }
    if i :| 0 <= i < k && SetsLease(r, i, t, worker) && Undisturbed(r, i, k, t, worker)
            && r.ops[k].at <= r.ops[i].at + r.ops[i].ttl {
      LeaseLasts(r, i, k, k, t, worker);
    }
  }

  /** `i` is the step that created the task. */
  ghost predicate CreatedAt(r: Run, i: int, t: string)
    requires IsRun(r)
  {
    0 <= i < |r.ops| && r.ops[i].EnqueueOp? && r.ops[i].recipe.taskId == t && t !in r.states[i].entries
  }

  lemma {:induction false} Creation(r: Run, k: nat, t: string) returns (i: int)
    requires IsRun(r) && k < |r.states| && t in r.states[k].entries
    ensures i < k && CreatedAt(r, i, t)
  {
    if t in r.states[k - 1].entries {
      i := Creation(r, k - 1, t);
    } else {
      StepKeys(r.states[k - 1], r.ops[k - 1]);
      i := k - 1;
    }
  }

  /** Later enqueues of the same task id change nothing: the base compared with is the one of the first. */
  lemma BaseIsTheFirstOne(r: Run, i: int, k: nat, t: string)
    requires IsRun(r) && CreatedAt(r, i, t) && i < k < |r.states|
    ensures t in r.states[k].entries
    ensures r.states[k].entries[t].recipe == r.ops[i].recipe
    ensures r.states[k].entries[t].fingerprint == r.ops[i].fingerprint
    ensures r.states[k].entries[t].base == r.ops[i].base
    ensures r.states[k].entries[t].enqueuedAt == r.ops[i].at
  {
    EntriesPersist(r, i + 1, k, t);
  }

  /** The result accepted at `j` makes the task created at `i` a success. */
  ghost predicate ProvesSuccess(r: Run, i: int, j: int, t: string)
    requires IsRun(r)
  {
    CreatedAt(r, i, t) && AcceptedAt(r, j, t) && i < j && RanOk(r.ops[j].result) && r.ops[j].observed == r.ops[i].base
  }

  /** A task is succeeded exactly when its one accepted result completed with exit code 0 and observed the
      base fingerprint that the first enqueue of the task recorded. */
  lemma {:induction false} SucceededIffProven(r: Run, k: nat, t: string)
    requires IsRun(r) && k < |r.states|
    ensures (t in r.states[k].entries && r.states[k].entries[t].state == Succeeded)
            <==> exists i, j :: j < k && ProvesSuccess(r, i, j, t)
  {
    if t in r.states[k].entries && r.states[k].entries[t].state == Succeeded {
      var j := SuccessIsRecorded(r, k, t);
      var i := Creation(r, j, t);
      BaseIsTheFirstOne(r, i, j, t);
      assert ProvesSuccess(r, i, j, t);
    }
    if i, j :| j < k && ProvesSuccess(r, i, j, t) {
      BaseIsTheFirstOne(r, i, j, t);
      AcceptedEnds(r, j, t);
      TerminalForever(r, j + 1, k, t);
    }
  }

  lemma {:induction false} SuccessIsRecorded(r: Run, k: nat, t: string) returns (j: int)
    requires IsRun(r) && k < |r.states| && t in r.states[k].entries && r.states[k].entries[t].state == Succeeded
    ensures j < k && AcceptedAt(r, j, t)
    ensures RanOk(r.ops[j].result) && r.ops[j].observed == r.states[j].entries[t].base
  {
    StepKeys(r.states[k - 1], r.ops[k - 1]);
    if t in r.states[k - 1].entries {
      StepEntry(r.states[k - 1], r.ops[k - 1], t);
      if r.states[k - 1].entries[t].state == Succeeded {
        j := SuccessIsRecorded(r, k - 1, t);
      } else {
        j := k - 1;
      }
    } else {
      assert false;
    }
  }

  // ----- conservation of the journal

  /** The attempts that the `leased` rows carry, in order. */
  function LeasedAttempts(rows: seq<Row>): seq<nat> {
    if rows == [] then []
    else
      var last := rows[|rows| - 1];
      LeasedAttempts(rows[..|rows| - 1]) + if last.event.LeasedEvent? then [last.attempt] else []
  }

  predicate Closes(row: Row) {
    row.event.LeaseExpiredEvent? || row.event.DeadLetteredEvent? || row.event.CompletedEvent?
  }

  function Closings(rows: seq<Row>): nat {
    if rows == [] then 0
    else Closings(rows[..|rows| - 1]) + if Closes(rows[|rows| - 1]) then 1 else 0
  }

  lemma AppendedRow(rows: seq<Row>, row: Row)
    ensures LeasedAttempts(rows + [row]) == LeasedAttempts(rows) + if row.event.LeasedEvent? then [row.attempt] else []
    ensures Closings(rows + [row]) == Closings(rows) + if Closes(row) then 1 else 0
  {
    assert (rows + [row])[..|rows|] == rows;
  }

  /** Some earlier step cancelled the task while a worker held it. */
  ghost predicate CancelledWhileLeased(r: Run, k: int, t: string)
    requires IsRun(r)
  {
    exists i :: 0 <= i < k && i < |r.ops| && CancelsLeased(r.states[i], r.ops[i], t)
  }

  predicate CancelsLeased(q: Queue, op: Op, t: string) {
    op.CancelOp? && op.task == t && t in q.entries && q.entries[t].state == Leased
  }

  lemma {:induction false} NoRowsBeforeCreation(r: Run, k: nat, t: string)
    requires IsRun(r) && NeverPruned(r) && k < |r.states| && t !in r.states[k].entries
    ensures JournalOf(r.states[k].journal, t) == []
  {
    if k > 0 {
      StepKeys(r.states[k - 1], r.ops[k - 1]);
      NoRowsBeforeCreation(r, k - 1, t);
      StepRows(r.states[k - 1], r.ops[k - 1], t);
    }
  }

  /** 1, 2, ..., n */
  function FirstAttempts(n: nat): (r: seq<nat>)
    ensures |r| == n && forall i | 0 <= i < n :: r[i] == i + 1
  {
    seq(n, i => i + 1)
  }

  predicate Balanced(e: Entry, rows: seq<Row>, cancelledWhileLeased: bool) {
    && LeasedAttempts(rows) == FirstAttempts(e.attempt)
    && (cancelledWhileLeased ==> e.state == Cancelled)
    && e.attempt == Closings(rows) + if e.state == Leased || cancelledWhileLeased then 1 else 0
  }

  ghost predicate Conserved(r: Run, k: nat, t: string)
    requires IsRun(r) && k < |r.states| && t in r.states[k].entries
  {
    Balanced(r.states[k].entries[t], JournalOf(r.states[k].journal, t), CancelledWhileLeased(r, k, t))
  }

  /** The row a step writes says what the step did to the attempt and to the lease. */
  lemma RowsTellTheStory(q: Queue, op: Op, t: string)
    requires Possible(q, op) && t in q.entries && SoundEntry(q.entries[t], t)
    ensures var e, e', rows := q.entries[t], Effect(q.entries[t], t, op, Grants(q, op, t)), RowsFor(q, op, t);
            && |rows| <= 1
            && (if rows != [] && rows[0].event.LeasedEvent? then
                  e.state == Queued && e'.state == Leased && e'.attempt == e.attempt + 1 == rows[0].attempt
                else if rows != [] && Closes(rows[0]) then
                  e.state == Leased && e'.state != Leased && e'.attempt == e.attempt && !CancelsLeased(q, op, t)
                else if CancelsLeased(q, op, t) then
                  e.state == Leased && e'.state == Cancelled && e'.attempt == e.attempt
                else
                  e'.attempt == e.attempt && (e'.state == e.state || (e.state == Queued && e'.state == Cancelled)))
  {
  }

  lemma BalanceStep(q: Queue, op: Op, t: string, rows: seq<Row>, cancelled: bool)
    requires Possible(q, op) && t in q.entries && SoundEntry(q.entries[t], t)
    requires Balanced(q.entries[t], rows, cancelled)
    ensures Balanced(Effect(q.entries[t], t, op, Grants(q, op, t)), rows + RowsFor(q, op, t),
                     cancelled || CancelsLeased(q, op, t))
  {
    hide Effect, RowsFor, Possible, Grants, SoundEntry, CancelsLeased, LeasedAttempts, Closings;
    RowsTellTheStory(q, op, t);
    CancellingNeedsALease(q, op, t);
    var e, e', added := q.entries[t], Effect(q.entries[t], t, op, Grants(q, op, t)), RowsFor(q, op, t);
    if added == [] {
      assert rows + added == rows;
    } else {
      assert added == [added[0]];
      AppendedRow(rows, added[0]);
      assert !added[0].event.LeasedEvent? ==> LeasedAttempts(rows) + [] == LeasedAttempts(rows);
    }
    assert FirstAttempts(e.attempt + 1) == FirstAttempts(e.attempt) + [e.attempt + 1];
  }

  lemma CancellingNeedsALease(q: Queue, op: Op, t: string)
    ensures CancelsLeased(q, op, t) ==> op.CancelOp? && t in q.entries && q.entries[t].state == Leased
  {
  }

  lemma ConservedStep(r: Run, k: nat, t: string)
    requires IsRun(r) && NeverPruned(r) && k < |r.ops| && t in r.states[k].entries && Conserved(r, k, t)
    requires SoundEntry(r.states[k].entries[t], t)
    ensures t in r.states[k + 1].entries && Conserved(r, k + 1, t)
  {
    hide Balanced, JournalOf, RowsFor, Effect, After, SoundEntry, Grants;
    var q, op := r.states[k], r.ops[k];
    StepEntry(q, op, t);
    StepRows(q, op, t);
    BalanceStep(q, op, t, JournalOf(q.journal, t), CancelledWhileLeased(r, k, t));
    assert CancelledWhileLeased(r, k + 1, t) <==> CancelledWhileLeased(r, k, t) || CancelsLeased(q, op, t);
  }

  lemma CreatedInBalance(q: Queue, op: Op, t: string)
    requires Possible(q, op) && t !in q.entries && t in After(q, op).entries
    ensures Balanced(After(q, op).entries[t], RowsFor(q, op, t), false) && !CancelsLeased(q, op, t)
  {
    hide After, RowsFor, LeasedAttempts, Closings, Possible, CancelsLeased;
    var row := NewEntryAndRow(q, op, t);
    assert [] + [row] == [row];
    AppendedRow([], row);
    NoRowsNoAttempts();
    assert FirstAttempts(0) == [];
  }

  lemma NewEntryAndRow(q: Queue, op: Op, t: string) returns (row: Row)
    requires Possible(q, op) && t !in q.entries && t in After(q, op).entries
    ensures After(q, op).entries[t].attempt == 0 && After(q, op).entries[t].state == Queued
    ensures RowsFor(q, op, t) == [row] && row.event.EnqueuedEvent? && !CancelsLeased(q, op, t)
  {
    StepKeys(q, op);
    row := RowsFor(q, op, t)[0];
  }

  lemma NoRowsNoAttempts()
    ensures LeasedAttempts([]) == [] && Closings([]) == 0
  {
  }

  /** Without pruning the journal accounts for every attempt: the `leased` rows of a task carry the attempts
      1, 2, ..., attempt, and there are as many of them as `lease-expired`, `dead-lettered` and `completed`
      rows together, plus one exactly when the task is leased now or was cancelled while leased. */
  lemma {:induction false} JournalConservation(r: Run, k: nat, t: string)
    requires IsRun(r) && NeverPruned(r) && k < |r.states| && t in r.states[k].entries
    ensures Conserved(r, k, t)
  {
    hide Balanced, JournalOf, RowsFor, Effect, After, SoundEntry, Grants;
    var q, op := r.states[k - 1], r.ops[k - 1];
    if t in q.entries {
      JournalConservation(r, k - 1, t);
      ReachableIsSound(r, k - 1);
      ConservedStep(r, k - 1, t);
    } else {
      CreatedInBalance(q, op, t);
      NoRowsBeforeCreation(r, k - 1, t);
      StepRows(q, op, t);
      assert [] + RowsFor(q, op, t) == RowsFor(q, op, t);
      if i :| 0 <= i < k && CancelsLeased(r.states[i], r.ops[i], t) {
        EntriesPersist(r, i, k - 1, t);
      }
    }
  }

  // ----- termination

  /** What a task can still spend. It is 0 once the task has ended: cancelling a task that waits in the queue
      leaves `attempt` and the lease alone, so the bare formula would not go down there. */
  function Fuel(e: Entry, maxAttempts: int): int {
    if Terminal(e) then 0 else 2 * (maxAttempts - e.attempt) + if e.state == Leased then 1 else 0
  }

  predicate WithinLimit(e: Entry, maxAttempts: int) {
    (e.state == Queued ==> e.attempt < maxAttempts) && (e.state == Leased ==> e.attempt <= maxAttempts)
  }

  /** With a positive limit, a queued task always has an attempt left and a leased one never exceeds the limit. */
  lemma {:induction false} AttemptsStayWithinLimit(r: Run, k: nat, t: string, maxAttempts: int)
    requires IsRun(r) && SameLimit(r, maxAttempts) && maxAttempts > 0 && k < |r.states| && t in r.states[k].entries
    ensures WithinLimit(r.states[k].entries[t], maxAttempts)
    ensures 0 <= Fuel(r.states[k].entries[t], maxAttempts) <= 2 * maxAttempts
  {
    StepKeys(r.states[k - 1], r.ops[k - 1]);
    if t in r.states[k - 1].entries {
      AttemptsStayWithinLimit(r, k - 1, t, maxAttempts);
      StepEntry(r.states[k - 1], r.ops[k - 1], t);
    }
  }

  /** Step `k` moves the task to another state: a lease, a reclaim, an accepted result or a cancellation. */
  ghost predicate Moves(r: Run, k: int, t: string)
    requires IsRun(r)
  {
    0 <= k < |r.ops| && t in r.states[k].entries && t in r.states[k + 1].entries &&
    r.states[k].entries[t].state != r.states[k + 1].entries[t].state
  }

  /** Every move burns fuel and nothing else does. */
  lemma MovesBurnFuel(r: Run, k: nat, t: string, maxAttempts: int)
    requires IsRun(r) && SameLimit(r, maxAttempts) && maxAttempts > 0 && k < |r.ops| && t in r.states[k].entries
    ensures t in r.states[k + 1].entries
    ensures var before, after := Fuel(r.states[k].entries[t], maxAttempts), Fuel(r.states[k + 1].entries[t], maxAttempts);
            if Moves(r, k, t) then after < before else after == before
    ensures Moves(r, k, t) <==>
            || Grants(r.states[k], r.ops[k], t) || Accepts(r.states[k], r.ops[k], t)
            || (r.ops[k].CancelOp? && r.ops[k].task == t && !Terminal(r.states[k].entries[t]))
            || (r.ops[k].ReconcileOp? && t in Orphans(r.states[k].entries, r.ops[k].at))
  {
    AttemptsStayWithinLimit(r, k, t, maxAttempts);
    StepEntry(r.states[k], r.ops[k], t);
    AttemptsStayWithinLimit(r, k + 1, t, maxAttempts);
  }

  /** The same formula without the exception for entries that have ended. */
  function RawFuel(e: Entry, maxAttempts: int): int {
    2 * (maxAttempts - e.attempt) + if e.state == Leased then 1 else 0
  }

  /** It falls with every move except exactly one: cancelling a task that waits in the queue leaves it alone. */
  lemma RawFuelFallsUnlessWaitingIsCancelled(r: Run, k: nat, t: string, maxAttempts: int)
    requires IsRun(r) && k < |r.ops| && Moves(r, k, t)
    ensures var before, after := r.states[k].entries[t], r.states[k + 1].entries[t];
            && (RawFuel(after, maxAttempts) < RawFuel(before, maxAttempts) <==> !(r.ops[k].CancelOp? && before.state == Queued))
            && (r.ops[k].CancelOp? && before.state == Queued ==> RawFuel(after, maxAttempts) == RawFuel(before, maxAttempts))
  {
    hide After, Possible;
    ReachableIsSound(r, k);
    assert SoundEntry(r.states[k].entries[t], t);
    StepIsPossible(r, k);
    StepEntry(r.states[k], r.ops[k], t);
  }

  lemma StepIsPossible(r: Run, k: nat)
    requires IsRun(r) && k < |r.ops|
    ensures Possible(r.states[k], r.ops[k]) && r.states[k + 1] == After(r.states[k], r.ops[k])
  {
  }

  /** A task is enqueued and cancelled before anybody leases it: a move that leaves the formula alone. */
  lemma CancellingAWaitingTask(recipe: Recipe, fingerprint: string, base: string, at: real, later: real, maxAttempts: int)
    returns (r: Run)
    ensures IsRun(r) && r.ops == [EnqueueOp(recipe, fingerprint, base, at), CancelOp(recipe.taskId, later)]
    ensures Moves(r, 1, recipe.taskId)
    ensures RawFuel(r.states[2].entries[recipe.taskId], maxAttempts) == RawFuel(r.states[1].entries[recipe.taskId], maxAttempts)
  {
    var enqueue, cancel := EnqueueOp(recipe, fingerprint, base, at), CancelOp(recipe.taskId, later);
    var waiting := After(EMPTY, enqueue);
    r := Run([EMPTY, waiting, After(waiting, cancel)], [enqueue, cancel]);
  }

  ghost function MovesOf(r: Run, t: string, k: nat): set<nat>
    requires IsRun(r)
  {
    set i: nat | i < k && Moves(r, i, t)
  }

  lemma OneMoreStep(r: Run, t: string, k: nat)
    requires IsRun(r) && k < |r.ops|
    ensures |MovesOf(r, t, k + 1)| == |MovesOf(r, t, k)| + if Moves(r, k, t) then 1 else 0
  {
    GrownByOne(MovesOf(r, t, k), MovesOf(r, t, k + 1), k, Moves(r, k, t));
  }

  ghost function FuelLeft(q: Queue, t: string, maxAttempts: int): int {
    if t in q.entries then Fuel(q.entries[t], maxAttempts) else 2 * maxAttempts
  }

  lemma {:induction false} MovesOfOneTask(r: Run, t: string, k: nat, maxAttempts: int)
    requires IsRun(r) && SameLimit(r, maxAttempts) && maxAttempts > 0 && k < |r.states|
    ensures |MovesOf(r, t, k)| + FuelLeft(r.states[k], t, maxAttempts) <= 2 * maxAttempts
  {
    if k == 0 {
      assert MovesOf(r, t, 0) == {};
    } else {
      MovesOfOneTask(r, t, k - 1, maxAttempts);
      OneMoreStep(r, t, k - 1);
      if t in r.states[k - 1].entries {
        MovesBurnFuel(r, k - 1, t, maxAttempts);
      } else if t in r.states[k].entries {
        AttemptsStayWithinLimit(r, k, t, maxAttempts);
      }
    }
  }

  ghost function AllMoves(r: Run, tasks: set<string>): set<(nat, string)>
    requires IsRun(r)
  {
    set i: nat, t | i < |r.ops| && t in tasks && Moves(r, i, t) :: (i, t)
  }

  lemma MovesByTask(r: Run, tasks: set<string>, t: string)
    requires IsRun(r) && t in tasks
    ensures |AllMoves(r, tasks)| == |AllMoves(r, tasks - {t})| + |MovesOf(r, t, |r.ops|)|
  {
    var mine := set i | i in MovesOf(r, t, |r.ops|) :: (i, t);
    TaggedSize(t, MovesOf(r, t, |r.ops|), mine);
    var rest := AllMoves(r, tasks - {t});
    Disjoint(rest, mine, AllMoves(r, tasks));
  }

  lemma OneTaskMore(maxAttempts: int, n: nat)
    ensures 2 * maxAttempts * (n + 1) == 2 * maxAttempts * n + 2 * maxAttempts
  {
  }

  /** N tasks allow at most 2 * max * N state changes in a whole run, whatever the workers do. */
  lemma {:induction false} RunsTerminate(r: Run, tasks: set<string>, maxAttempts: int)
    requires IsRun(r) && SameLimit(r, maxAttempts) && maxAttempts > 0
    ensures |AllMoves(r, tasks)| <= 2 * maxAttempts * |tasks|
    decreases tasks
  {
    hide SameLimit, Fuel;
    if tasks == {} {
      assert AllMoves(r, tasks) == {};
    } else {
      var t :| t in tasks;
      RunsTerminate(r, tasks - {t}, maxAttempts);
      MovesOfOneTask(r, t, |r.ops|, maxAttempts);
      if t in r.states[|r.ops|].entries {
        AttemptsStayWithinLimit(r, |r.ops|, t, maxAttempts);
      }
      MovesByTask(r, tasks, t);
      OneTaskMore(maxAttempts, |tasks - {t}|);
    }
  }
}
