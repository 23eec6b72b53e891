/** What becomes of a task and what its journal says, told by the operations of a run alone: by the first enqueue,
    by how often the task was granted, and by what its worker reported. */
module QueueOutcomes {
  import opened QueueModel
  import opened QueueRuns
  import opened QueueUpkeep
  import opened Sets
  import opened Text
  import opened Wrappers

  // ----- how often a task was granted

  ghost function GrantsBefore(r: Run, k: nat, t: string): set<nat>
    requires IsRun(r)
  {
    set i: nat | i < k && GrantAt(r, i, t)
  }

  lemma NoGrantsBeforeCreation(r: Run, k: nat, t: string)
    requires IsRun(r) && k < |r.states| && t !in r.states[k].entries
    ensures GrantsBefore(r, k, t) == {} && !GrantAt(r, k, t)
  {
    forall i: nat | i <= k ensures !GrantAt(r, i, t) {
      if GrantAt(r, i, t) {
        EntriesPersist(r, i, k, t);
      }
    }
  }

  lemma OneGrantMore(r: Run, k: nat, t: string)
    requires IsRun(r)
    ensures |GrantsBefore(r, k + 1, t)| == |GrantsBefore(r, k, t)| + if GrantAt(r, k, t) then 1 else 0
  {
    GrownByOne(GrantsBefore(r, k, t), GrantsBefore(r, k + 1, t), k, GrantAt(r, k, t));
  }

  /** The attempt of a task is the number of times it was granted. */
  lemma {:induction false} AttemptCountsTheGrants(r: Run, k: nat, t: string)
    requires IsRun(r) && k < |r.states| && t in r.states[k].entries
    ensures r.states[k].entries[t].attempt == |GrantsBefore(r, k, t)|
  {
    hide After, Possible, Effect, Oldest;
    StepIsPossible(r, k - 1);
    OneGrantMore(r, k - 1, t);
    if t in r.states[k - 1].entries {
      AttemptCountsTheGrants(r, k - 1, t);
      AttemptOfStep(r.states[k - 1], r.ops[k - 1], t);
    } else {
      NoGrantsBeforeCreation(r, k - 1, t);
      CreatedWithoutAttempts(r.states[k - 1], r.ops[k - 1], t);
    }
  }

  lemma AttemptOfStep(q: Queue, op: Op, t: string)
    requires Possible(q, op) && t in q.entries
    ensures t in After(q, op).entries
    ensures After(q, op).entries[t].attempt == q.entries[t].attempt + if Grants(q, op, t) then 1 else 0
  {
    StepEntry(q, op, t);
  }

  lemma CreatedWithoutAttempts(q: Queue, op: Op, t: string)
    requires Possible(q, op) && t !in q.entries && t in After(q, op).entries
    ensures After(q, op).entries[t].attempt == 0
  {
    StepKeys(q, op);
  }

  // ----- expired leases

  /** A reconciliation parks a task whose lease has expired exactly when there is a positive limit and the task
      was granted that often; otherwise the task waits again. It touches no other task. */
  lemma ExpiredLeaseIsParkedIff(r: Run, k: nat, t: string)
    requires IsRun(r) && k < |r.ops| && r.ops[k].ReconcileOp? && t in r.states[k].entries
    ensures t in r.states[k + 1].entries
    ensures var before, after, granted := r.states[k].entries[t], r.states[k + 1].entries[t], |GrantsBefore(r, k, t)|;
            var rows, more, at := JournalOf(r.states[k].journal, t), JournalOf(r.states[k + 1].journal, t), r.ops[k].at;
            if before.state == Leased && before.expires.Some? && before.expires.value < at then
              var parked := 0 < r.ops[k].maxAttempts <= granted;
              && (after.state == DeadLetter <==> parked) && (after.state == Queued <==> !parked)
              && after.holder == None && after.expires == None && after.attempt == granted
              && more == rows + [Row(t, granted, if parked then DeadLetteredEvent else LeaseExpiredEvent, at)]
            else
              after == before && more == rows
  {
    AttemptCountsTheGrants(r, k, t);
    ReconciledEntry(r.states[k], r.ops[k], t);
  }

  lemma ReconciledEntry(q: Queue, op: Op, t: string)
    requires Possible(q, op) && op.ReconcileOp? && t in q.entries
    ensures t in After(q, op).entries
    ensures var before, after := q.entries[t], After(q, op).entries[t];
            var rows, more := JournalOf(q.journal, t), JournalOf(After(q, op).journal, t);
            if before.state == Leased && before.expires.Some? && before.expires.value < op.at then
              var parked := 0 < op.maxAttempts <= before.attempt;
              && (after.state == DeadLetter <==> parked) && (after.state == Queued <==> !parked)
              && after.holder == None && after.expires == None && after.attempt == before.attempt
              && more == rows + [Row(t, before.attempt, if parked then DeadLetteredEvent else LeaseExpiredEvent, op.at)]
            else
              after == before && more == rows
  {
    hide JournalOf, After;
    StepEntry(q, op, t);
    StepRows(q, op, t);
    assert JournalOf(q.journal, t) + [] == JournalOf(q.journal, t);
  }

  /** A dead-lettered task was granted exactly as often as the limit says, and without a positive limit nothing is
      ever dead-lettered. */
  lemma {:induction false} DeadLetteredAtTheLimit(r: Run, k: nat, t: string, maxAttempts: int)
    requires IsRun(r) && SameLimit(r, maxAttempts) && k < |r.states|
    requires t in r.states[k].entries && r.states[k].entries[t].state == DeadLetter
    ensures maxAttempts > 0 && |GrantsBefore(r, k, t)| == maxAttempts
  {
    hide After, Possible, Effect, Oldest;
    var q, op := r.states[k - 1], r.ops[k - 1];
    StepIsPossible(r, k - 1);
    OneGrantMore(r, k - 1, t);
    ParkedByReconcile(q, op, t);
    if q.entries[t].state == DeadLetter {
      DeadLetteredAtTheLimit(r, k - 1, t, maxAttempts);
    } else {
      AttemptsStayWithinLimit(r, k - 1, t, maxAttempts);
      AttemptCountsTheGrants(r, k - 1, t);
    }
  }

  lemma ParkedByReconcile(q: Queue, op: Op, t: string)
    requires Possible(q, op) && t in After(q, op).entries && After(q, op).entries[t].state == DeadLetter
    ensures t in q.entries && !Grants(q, op, t)
    ensures q.entries[t].state == DeadLetter
            || (op.ReconcileOp? && 0 < op.maxAttempts <= q.entries[t].attempt && q.entries[t].state == Leased)
  {
    StepKeys(q, op);
    StepEntry(q, op, t);
  }

  // ----- reports

  /** The last 2048 characters, or all of a shorter text. */
  predicate IsTail(tail: string, text: string) {
    |tail| == (if |text| <= 2048 then |text| else 2048) && tail == text[|text| - |tail|..]
  }

  lemma TailsAreTails(text: string)
    ensures IsTail(Tail(text), text)
  {
  }

  /** The run completed with exit code 0. */
  predicate Passed(result: RunResult) {
    result.outcome == "completed" && result.exitCode == Some(0)
  }

  /** The worker held the lease and reported before it ended. */
  predicate InTime(e: Entry, worker: string, at: real) {
    e.state == Leased && e.holder == Some(worker) && (e.expires.Some? ==> at <= e.expires.value)
  }

  /** What is answered to a report about a task whose first enqueue named `base`. */
  predicate IsAnswer(o: RecordOutcome, e: Entry, op: Op, base: string)
    requires op.RecordOp?
  {
    && (o.accepted <==> InTime(e, op.worker, op.at))
    && (o.promotable <==> o.accepted && Passed(op.result) && op.observed == base)
    && (o.finalState == Succeeded <==> o.promotable || (!o.accepted && e.state == Succeeded))
    && (o.accepted && !o.promotable ==> o.finalState == Failed)
    && (!o.accepted ==> o.finalState == e.state)
    && (o.reason == Some(LeaseRanOut) <==> !o.accepted && e.expires.Some? && e.expires.value < op.at)
    && (o.reason == Some(NoValidLease) <==> !o.accepted && !(e.expires.Some? && e.expires.value < op.at))
    && (o.reason == Some(BaseChanged) <==> o.accepted && op.observed != base)
    && (o.reason == Some(RunNotOk(op.result.outcome, op.result.exitCode)) <==>
        o.accepted && op.observed == base && !Passed(op.result))
    && (o.reason == None <==> o.promotable)
  }

  /** The row of a report: with the revision and the fingerprint of the first enqueue and the tails of what the
      run printed when it is accepted, with the reason when it is not. */
  predicate IsRowOf(row: Row, o: RecordOutcome, e: Entry, op: Op, first: Op)
    requires op.RecordOp? && first.EnqueueOp?
  {
    && row.taskId == op.task && row.attempt == e.attempt && row.at == op.at
    && if o.accepted then
         && row.event.CompletedEvent? && row.event.verdict == o
         && row.event.ranRevision == first.recipe.revision && row.event.ranFingerprint == first.fingerprint
         && row.event.outcome == op.result.outcome && row.event.exitCode == op.result.exitCode
         && (row.event.baseMoved <==> op.observed != first.base)
         && IsTail(row.event.stdoutTail, op.result.stdoutTail) && IsTail(row.event.stderrTail, op.result.stderrTail)
       else
         && row.event.RejectedEvent? && Some(row.event.why) == o.reason
         && row.event.sender == op.worker && row.event.entryState == e.state
  }

  /** The answer to a report in the middle of any run, from the report, the lease and the first enqueue alone; the
      state after it, and the one row that it adds. */
  lemma ReportIsAnswered(r: Run, i: int, k: nat, t: string)
    requires IsRun(r) && CreatedAt(r, i, t) && i < k < |r.ops| && r.ops[k].RecordOp? && r.ops[k].task == t
    ensures t in r.states[k].entries && t in r.states[k + 1].entries
    ensures var op, before, after := r.ops[k], r.states[k].entries[t], r.states[k + 1].entries[t];
            var o := Judge(before, op.worker, op.result, op.observed, op.at);
            && IsAnswer(o, before, op, r.ops[i].base)
            && after.state == o.finalState && (!o.accepted ==> after == before)
            && (o.accepted ==> after.holder == None && after.expires == None && after.attempt == before.attempt)
            && exists row ::
                 && JournalOf(r.states[k + 1].journal, t) == JournalOf(r.states[k].journal, t) + [row]
                 && IsRowOf(row, o, before, op, r.ops[i])
  {
    hide JournalOf, After, Tail, IsTail;
    var q, op := r.states[k], r.ops[k];
    StepIsPossible(r, k);
    BaseIsTheFirstOne(r, i, k, t);
    StepEntry(q, op, t);
    StepRows(q, op, t);
    var e := q.entries[t];
    var o := Judge(e, op.worker, op.result, op.observed, op.at);
    JudgeAnswers(e, op);
    RowAnswers(e, op, r.ops[i]);
    assert IsRowOf(ResultRow(e, t, op.worker, op.result, op.observed, op.at), o, e, op, r.ops[i]);
  }

  lemma JudgeAnswers(e: Entry, op: Op)
    requires op.RecordOp?
    ensures IsAnswer(Judge(e, op.worker, op.result, op.observed, op.at), e, op, e.base)
  {
  }

  lemma RowAnswers(e: Entry, op: Op, first: Op)
    requires op.RecordOp? && first.EnqueueOp?
    requires e.recipe == first.recipe && e.fingerprint == first.fingerprint && e.base == first.base
    ensures IsRowOf(ResultRow(e, op.task, op.worker, op.result, op.observed, op.at),
                    Judge(e, op.worker, op.result, op.observed, op.at), e, op, first)
  {
    hide Tail, IsTail;
    TailsAreTails(op.result.stdoutTail);
    TailsAreTails(op.result.stderrTail);
  }

  /** The report at step j about the task created at step i was accepted, and this is its row. */
  ghost predicate TellsOf(r: Run, row: Row, i: int, j: int)
    requires IsRun(r)
  {
    && 0 <= i < j < |r.ops| && CreatedAt(r, i, row.taskId)
    && r.ops[j].RecordOp? && row.taskId in r.states[j].entries
    && InTime(r.states[j].entries[row.taskId], r.ops[j].worker, r.ops[j].at)
    && row.event.CompletedEvent?
    && (row.event.verdict.promotable <==> Passed(r.ops[j].result) && r.ops[j].observed == r.ops[i].base)
    && IsAnswer(row.event.verdict, r.states[j].entries[row.taskId], r.ops[j], r.ops[i].base)
    && IsRowOf(row, row.event.verdict, r.states[j].entries[row.taskId], r.ops[j], r.ops[i])
  }

  /** In every reachable state, pruned or not, every `completed` row tells of an accepted report: its verdict is
      promotable exactly when that report passed on the base of the first enqueue. */
  lemma {:induction false} CompletedRowsTell(r: Run, k: nat, row: Row) returns (i: int, j: int)
    requires IsRun(r) && k < |r.states| && row in r.states[k].journal && row.event.CompletedEvent?
    ensures j < k && TellsOf(r, row, i, j)
  {
    hide After, Possible, IsAnswer, IsRowOf;
    var q, op := r.states[k - 1], r.ops[k - 1];
    StepIsPossible(r, k - 1);
    var n :| 0 <= n < |r.states[k].journal| && r.states[k].journal[n] == row;
    RowsComeFrom(q, op, n);
    if row in q.journal {
      i, j := CompletedRowsTell(r, k - 1, row);
    } else {
      j := k - 1;
      i := Creation(r, j, row.taskId);
      BaseIsTheFirstOne(r, i, j, row.taskId);
      var e := q.entries[row.taskId];
      JudgeAnswers(e, op);
      RowAnswers(e, op, r.ops[i]);
      AnswerOfAccepted(e, op, r.ops[i].base);
    }
  }

  lemma AnswerOfAccepted(e: Entry, op: Op, base: string)
    requires op.RecordOp? && IsAnswer(Judge(e, op.worker, op.result, op.observed, op.at), e, op, base)
    requires Judge(e, op.worker, op.result, op.observed, op.at).accepted
    ensures InTime(e, op.worker, op.at)
    ensures Judge(e, op.worker, op.result, op.observed, op.at).promotable <==> Passed(op.result) && op.observed == base
  {
    hide Judge;
  }

  // ----- the other steps

  /** The queued task that a lease grants was enqueued before every other one that waits; of two that were enqueued
      at one instant the one with the lesser id comes first. */
  lemma FirstInFirstOut(r: Run, k: nat, t: string, i: nat, u: string, j: nat)
    requires IsRun(r) && GrantAt(r, k, t) && CreatedAt(r, i, t) && i < k
    requires u in r.states[k].entries && r.states[k].entries[u].state == Queued && u != t && CreatedAt(r, j, u) && j < k
    ensures r.ops[i].at < r.ops[j].at || (r.ops[i].at == r.ops[j].at && exists n: nat :: PartsAt(t, u, n))
  {
    hide After, Possible, Before;
    BaseIsTheFirstOne(r, i, k, t);
    BaseIsTheFirstOne(r, j, k, u);
    LeaseTakesTheOldest(r.states[k].entries);
    assert Earlier(r.states[k].entries, t, u);
    BeforeIff(t, u);
  }

  /** What an enqueue, a lease, a renewal or a cancellation does to one task that exists after it, and which rows it
      adds for it. */
  predicate IsTold(op: Op, t: string, existed: bool, before: Entry, after: Entry, granted: bool, rows: seq<Row>) {
    match op
    case EnqueueOp(recipe, fingerprint, base, at) =>
      if existed then after == before && rows == []
      else
        && after == Entry(recipe, fingerprint, base, Queued, 0, None, None, at, at)
        && rows == [Row(t, 0, EnqueuedEvent(recipe.revision, fingerprint), at)]
    case LeaseOp(worker, ttl, at) =>
      if granted then
        && before.state == Queued && after.state == Leased && after.holder == Some(worker) && after.expires == Some(at + ttl)
        && after.attempt == before.attempt + 1
        && rows == [Row(t, before.attempt + 1, LeasedEvent(worker, at + ttl), at)]
      else after == before && rows == []
    case RenewOp(task, worker, ttl, at) =>
      && rows == []
      && if task == t && before.state == Leased && before.holder == Some(worker) then
           && after.state == Leased && after.holder == Some(worker) && after.expires == Some(at + ttl)
           && after.attempt == before.attempt
         else after == before
    case CancelOp(task, at) =>
      if task == t && before.state in {Queued, Leased} then
        && after.state == Cancelled && after.holder == None && after.expires == None && after.attempt == before.attempt
        && rows == [Row(t, before.attempt, CancelledEvent, at)]
      else after == before && rows == []
    case _ => true
  }

  lemma StepIsTold(q: Queue, op: Op, t: string)
    requires Possible(q, op) && !op.PruneOp? && t in After(q, op).entries
    ensures JournalOf(After(q, op).journal, t) == JournalOf(q.journal, t) + RowsFor(q, op, t)
    ensures var after := After(q, op).entries[t];
            var before := if t in q.entries then q.entries[t] else after;
            && IsTold(op, t, t in q.entries, before, after, Grants(q, op, t), RowsFor(q, op, t))
            && (t !in q.entries ==> op.EnqueueOp?)
            && (t in q.entries && after != before ==> after.updatedAt == op.at)
  {
    hide JournalOf;
    StepKeys(q, op);
    StepRows(q, op, t);
    if t in q.entries {
      StepEntry(q, op, t);
    }
  }
}
