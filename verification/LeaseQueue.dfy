/** The queue object: methods that rewrite the rows of the two tables, each inside one transaction. */
module LeaseQueue {
  import opened Wrappers
  import opened Text
  import opened QueueModel
  import opened QueueOutcomes
  import opened QueueUpkeep

  datatype QueueError = TtlNotPositive | NoSuchTask(taskId: string)

  datatype EnqueueOutcome = EnqueueOutcome(created: bool, entry: Entry, conflict: bool)

  datatype LeaseGrant = LeaseGrant(taskId: string, worker: string, attempt: nat, expires: real,
                                   recipe: Recipe, revision: string, base: string)

  class DurableQueue {
    const maxAttempts: int
    /** The hash of the canonical text of a recipe. */
    const fingerprintOf: Recipe -> string

    var entries: map<string, Entry>
    var journal: seq<Row>

    ghost function State(): Queue
      reads this
    {
      Queue(entries, journal)
    }

    constructor (maxAttempts: int, fingerprintOf: Recipe -> string)
      ensures this.maxAttempts == maxAttempts && this.fingerprintOf == fingerprintOf
      ensures State() == EMPTY
    {
      this.maxAttempts, this.fingerprintOf := maxAttempts, fingerprintOf;
      entries, journal := map[], [];
    }

    method Journal(taskId: string, attempt: nat, event: Event, at: real)
      modifies this`journal
      ensures journal == old(journal) + [Row(taskId, attempt, event, at)]
    {
      journal := journal + [Row(taskId, attempt, event, at)];
    }

    method Enqueue(recipe: Recipe, base: string, at: real) returns (r: EnqueueOutcome)
      modifies this
      ensures State() == After(old(State()), EnqueueOp(recipe, fingerprintOf(recipe), base, at))
      ensures r.created <==> recipe.taskId !in old(entries)
      ensures recipe.taskId in entries && r.entry == entries[recipe.taskId]
      ensures r.conflict <==> recipe.taskId in old(entries) && old(entries)[recipe.taskId].fingerprint != fingerprintOf(recipe)
    {
      var fingerprint := fingerprintOf(recipe);
      var created := recipe.taskId !in entries;
      if created {
        entries := entries[recipe.taskId := NewEntry(recipe, fingerprint, base, at)];
        Journal(recipe.taskId, 0, EnqueuedEvent(recipe.revision, fingerprint), at);
      }
      var entry := entries[recipe.taskId];
      r := EnqueueOutcome(created, entry, !created && entry.fingerprint != fingerprint);
    }

    /** `SELECT ... WHERE state = 'queued' ORDER BY enqueued_at, task_id LIMIT 1` */
    method SelectOldest() returns (r: Option<string>)
      ensures r == Oldest(entries)
    {
      r := None;
      var left := entries.Keys;
      while left != {}
        invariant left <= entries.Keys
        invariant r.None? ==> forall u | u in entries.Keys - left :: entries[u].state != Queued
        invariant r.Some? ==> r.value in entries && entries[r.value].state == Queued
        invariant r.Some? ==> forall u | u in entries.Keys - left && entries[u].state == Queued :: Earlier(entries, r.value, u)
        decreases left
      {
        var t :| t in left;
        ghost var seen := entries.Keys - left;
        left := left - {t};
        assert entries.Keys - left == seen + {t};
        if entries[t].state == Queued {
          if r.None? {
            r := Some(t);
          } else {
            BeforeIsTotal(t, r.value);
            if Earlier(entries, t, r.value) {
              forall u | u in seen && entries[u].state == Queued ensures Earlier(entries, t, u) {
                EarlierIsTransitive(entries, t, r.value, u);
              }
              r := Some(t);
            }
          }
        }
      }
      assert entries.Keys - left == entries.Keys;
      LeaseTakesTheOldest(entries);
      if r.Some? {
        assert forall u | u in entries :: u in entries.Keys;
        assert IsOldest(entries, r.value);
        OldestIsUnique(entries, r.value, Oldest(entries).value);
      }
    }

    method Lease(worker: string, ttl: real, at: real) returns (r: Result<Option<LeaseGrant>, QueueError>)
      modifies this
      ensures State() == After(old(State()), LeaseOp(worker, ttl, at))
      ensures r.Err? <==> ttl <= 0.0
      ensures r.Ok? ==> (r.value.None? <==> forall t | t in old(entries) :: old(entries)[t].state != Queued)
      ensures r.Ok? && r.value.Some? ==>
                var g := r.value.value;
                && IsOldest(old(entries), g.taskId)
                && g.taskId in entries && HeldBy(entries[g.taskId], worker) && g.worker == worker
                && g.attempt == entries[g.taskId].attempt && entries[g.taskId].expires == Some(g.expires)
                && (g.recipe, g.revision, g.base) ==
                     (entries[g.taskId].recipe, entries[g.taskId].recipe.revision, entries[g.taskId].base)
    {
      if ttl <= 0.0 {
        return Err(TtlNotPositive);
      }
      LeaseTakesTheOldest(entries);
      var oldest := SelectOldest();
      if oldest.None? {
        return Ok(None);
      }
      var t := oldest.value;
      var row := entries[t];
      var attempt, expires := row.attempt + 1, at + ttl;
      entries := entries[t := row.(state := Leased, holder := Some(worker), expires := Some(expires),
                                   attempt := attempt, updatedAt := at)];
      Journal(t, attempt, LeasedEvent(worker, expires), at);
      r := Ok(Some(LeaseGrant(t, worker, attempt, expires, row.recipe, row.recipe.revision, row.base)));
    }

    method RenewLease(taskId: string, worker: string, ttl: real, at: real) returns (renewed: bool)
      modifies this`entries
      ensures State() == After(old(State()), RenewOp(taskId, worker, ttl, at))
      ensures renewed <==> taskId in old(entries) && HeldBy(old(entries)[taskId], worker)
    {
      renewed := taskId in entries && HeldBy(entries[taskId], worker);
      if renewed {
        entries := entries[taskId := entries[taskId].(expires := Some(at + ttl), updatedAt := at)];
      }
    }

    method RecordResult(taskId: string, worker: string, result: RunResult, observed: string, at: real)
      returns (r: Result<RecordOutcome, QueueError>)
      modifies this
      ensures State() == After(old(State()), RecordOp(taskId, worker, result, observed, at))
      ensures r.Err? <==> taskId !in old(entries)
      ensures r.Ok? ==> r.value == Judge(old(entries)[taskId], worker, result, observed, at)
      ensures r.Ok? ==>
                var op := RecordOp(taskId, worker, result, observed, at);
                IsAnswer(r.value, old(entries)[taskId], op, old(entries)[taskId].base)
    {
      if taskId !in entries {
        return Err(NoSuchTask(taskId));
      }
      var entry := entries[taskId];
      var expired := entry.expires.Some? && entry.expires.value < at;
      if entry.state != Leased || entry.holder != Some(worker) || expired {
        var reason := if expired then LeaseRanOut else NoValidLease;
        Journal(taskId, entry.attempt, RejectedEvent(reason, worker, entry.state), at);
        return Ok(RecordOutcome(false, entry.state, false, Some(reason)));
      }
      var ranOk := result.outcome == "completed" && result.exitCode == Some(0);
      var baseMoved := observed != entry.base;
      var finalState := if ranOk && !baseMoved then Succeeded else Failed;
      var reason: Option<Reason> := None;
      if baseMoved {
        reason := Some(BaseChanged);
      } else if !ranOk {
        reason := Some(RunNotOk(result.outcome, result.exitCode));
      }
      var outcome := RecordOutcome(true, finalState, ranOk && !baseMoved, reason);
      entries := entries[taskId := entry.(state := finalState, holder := None, expires := None, updatedAt := at)];
      Journal(taskId, entry.attempt,
              CompletedEvent(outcome, entry.recipe.revision, entry.fingerprint, result.outcome, result.exitCode,
                             baseMoved, Tail(result.stdoutTail), Tail(result.stderrTail)), at);
      r := Ok(outcome);
    }

    method Cancel(taskId: string, at: real) returns (cancelled: bool)
      modifies this
      ensures State() == After(old(State()), CancelOp(taskId, at))
      ensures cancelled <==> taskId in old(entries) && old(entries)[taskId].state in {Queued, Leased}
    {
      cancelled := taskId in entries && (entries[taskId].state == Queued || entries[taskId].state == Leased);
      if cancelled {
        var entry := entries[taskId];
        entries := entries[taskId := entry.(state := Cancelled, holder := None, expires := None, updatedAt := at)];
        Journal(taskId, entry.attempt, CancelledEvent, at);
      }
    }

    /** `SELECT task_id, attempt ... WHERE state = 'leased' AND lease_expires_at < ?`, in some order. */
    method SelectOrphans(at: real) returns (rows: seq<(string, nat)>)
      ensures Enumerates(TaskIds(rows), Orphans(entries, at))
      ensures forall i | 0 <= i < |rows| :: rows[i].0 in entries && rows[i].1 == entries[rows[i].0].attempt
    {
      rows := [];
      var left := Orphans(entries, at);
      assert (set t | t in TaskIds(rows)) == {};
      while left != {}
        invariant left <= Orphans(entries, at)
        invariant Enumerates(TaskIds(rows), Orphans(entries, at) - left)
        invariant forall i | 0 <= i < |rows| :: rows[i].0 in entries && rows[i].1 == entries[rows[i].0].attempt
        decreases left
      {
        var t :| t in left;
        ghost var ids := TaskIds(rows);
        assert t !in ids by {
          assert t in ids <==> t in set u | u in ids;
        }
        rows := rows + [(t, entries[t].attempt)];
        assert TaskIds(rows) == ids + [t];
        assert (set u | u in TaskIds(rows)) == (set u | u in ids) + {t};
        left := left - {t};
      }
    }

    /** One round of the loop of `reconcile`: the row is updated unless it has changed since it was selected. */
    method Reclaim(t: string, attempt: nat, at: real)
      requires t in entries && attempt == entries[t].attempt && Orphaned(entries[t], at)
      modifies this
      ensures entries == old(entries)[t := Reclaimed(old(entries)[t], maxAttempts, at)]
      ensures journal == old(journal) + [ReclaimRow(old(entries)[t], t, maxAttempts, at)]
    {
      var parked := maxAttempts > 0 && attempt >= maxAttempts;
      if entries[t].state == Leased && Lapsed(entries[t], at) {
        entries := entries[t := entries[t].(state := if parked then DeadLetter else Queued,
                                            holder := None, expires := None, updatedAt := at)];
      }
      Journal(t, attempt, if parked then DeadLetteredEvent else LeaseExpiredEvent, at);
    }

    static lemma OneMoreReclaim(q: Queue, order: seq<string>, i: nat, maxAttempts: int, at: real)
      requires i < |order| && order[i] in AfterReclaims(q, order[..i], maxAttempts, at).entries
      ensures var before, t := AfterReclaims(q, order[..i], maxAttempts, at), order[i];
              AfterReclaims(q, order[..i + 1], maxAttempts, at)
              == Queue(before.entries[t := Reclaimed(before.entries[t], maxAttempts, at)],
                       before.journal + [ReclaimRow(before.entries[t], t, maxAttempts, at)])
    {
      assert order[..i + 1][..i] == order[..i];
    }

    static lemma NoReclaims(q: Queue, maxAttempts: int, at: real)
      ensures AfterReclaims(q, [], maxAttempts, at) == q
    {
    }

    /** The loop of `reconcile` over the selected rows. */
    method ReclaimAll(rows: seq<(string, nat)>, at: real)
      requires forall i | 0 <= i < |rows| ::
                 rows[i].0 in entries && rows[i].1 == entries[rows[i].0].attempt && Orphaned(entries[rows[i].0], at)
      requires forall i, j | 0 <= i < j < |rows| :: rows[i].0 != rows[j].0
      modifies this
      ensures State() == AfterReclaims(old(State()), TaskIds(rows), maxAttempts, at)
    {
      hide AfterReclaims, Reclaimed, ReclaimRow, Orphaned;
      ghost var before, order := State(), TaskIds(rows);
      NoReclaims(before, maxAttempts, at);
      var i := 0;
      while i < |rows|
        invariant i <= |rows|
        invariant State() == AfterReclaims(before, order[..i], maxAttempts, at)
        invariant forall k | i <= k < |rows| :: rows[k].0 in entries && entries[rows[k].0] == before.entries[rows[k].0]
      {
        OneMoreReclaim(before, order, i, maxAttempts, at);
        Reclaim(rows[i].0, rows[i].1, at);
        i := i + 1;
      }
      assert order[..i] == order;
    }

    method Reconcile(at: real) returns (count: nat, ghost order: seq<string>)
      modifies this
      ensures Possible(old(State()), ReconcileOp(maxAttempts, order, at))
      ensures State() == After(old(State()), ReconcileOp(maxAttempts, order, at))
      ensures count == |Orphans(old(entries), at)|
      ensures forall t | t in old(entries) && old(entries)[t].state == Leased
                         && old(entries)[t].expires.Some? && old(entries)[t].expires.value < at ::
                t in entries && entries[t].state == if 0 < maxAttempts <= old(entries)[t].attempt then DeadLetter else Queued
    {
      ghost var before := State();
      var rows := SelectOrphans(at);
      order := TaskIds(rows);
      SelectedRows(State(), rows, at);
      ReclaimAll(rows, at);
      count := |rows|;
      forall t | t in before.entries && before.entries[t].state == Leased
                 && before.entries[t].expires.Some? && before.entries[t].expires.value < at
        ensures t in entries && entries[t].state == if 0 < maxAttempts <= before.entries[t].attempt then DeadLetter else Queued
      {
        ReconciledEntry(before, ReconcileOp(maxAttempts, order, at), t);
      }
    }

    lemma SelectedRows(q: Queue, rows: seq<(string, nat)>, at: real)
      requires Enumerates(TaskIds(rows), Orphans(q.entries, at))
      ensures Possible(q, ReconcileOp(maxAttempts, TaskIds(rows), at))
      ensures |rows| == |Orphans(q.entries, at)|
      ensures forall i | 0 <= i < |rows| :: rows[i].0 in q.entries && Orphaned(q.entries[rows[i].0], at)
      ensures forall i, j | 0 <= i < j < |rows| :: rows[i].0 != rows[j].0
    {
      var order := TaskIds(rows);
      ReconcilePossible(q, maxAttempts, order, at);
      forall i | 0 <= i < |rows| ensures rows[i].0 in q.entries && Orphaned(q.entries[rows[i].0], at) {
        assert order[i] in order;
      }
      forall i, j | 0 <= i < j < |rows| ensures rows[i].0 != rows[j].0 {
        assert order[i] != order[j];
      }
    }

    /** Ranks the rows of every task from the newest on and deletes those ranked above `keep`. */
    method PruneJournal(keep: int) returns (deleted: nat)
      modifies this`journal
      ensures State() == After(old(State()), PruneOp(keep))
      ensures deleted == |old(journal)| - |journal|
    {
      hide Pruned, QueueModel.JournalOf;
      var rows := journal;
      var kept: seq<Row> := [];
      NothingRanked(rows, keep);
      var rank: map<string, nat> := map[];
      var i := |rows|;
      while i > 0
        invariant 0 <= i <= |rows|
        invariant kept == Pruned(rows[i..], keep) && |kept| <= |rows| - i
        invariant forall t :: RankOf(rank, t) == |QueueModel.JournalOf(rows[i..], t)|
        invariant journal == rows
      {
        i := i - 1;
        var row := rows[i];
        HeadOfRest(rows, i, keep);
        rank := rank[row.taskId := RankOf(rank, row.taskId) + 1];
        if rank[row.taskId] <= keep {
          kept := [row] + kept;
        }
      }
      assert rows[0..] == rows;
      deleted := |rows| - |kept|;
      journal := kept;
    }

    /** How many rows of a task have been ranked so far. */
    static function RankOf(rank: map<string, nat>, t: string): nat {
      if t in rank then rank[t] else 0
    }

    static lemma NothingRanked(rows: seq<Row>, keep: int)
      ensures Pruned(rows[|rows|..], keep) == []
      ensures forall t :: QueueModel.JournalOf(rows[|rows|..], t) == []
    {
    }

    static lemma HeadOfRest(rows: seq<Row>, i: nat, keep: int)
      requires i < |rows|
      ensures forall t {:trigger QueueModel.JournalOf(rows[i..], t)} ::
                |QueueModel.JournalOf(rows[i..], t)|
                == |QueueModel.JournalOf(rows[i + 1..], t)| + if rows[i].taskId == t then 1 else 0
      ensures Pruned(rows[i..], keep) ==
              (if |QueueModel.JournalOf(rows[i..], rows[i].taskId)| <= keep then [rows[i]] else []) + Pruned(rows[i + 1..], keep)
    {
      assert rows[i..][1..] == rows[i + 1..];
      forall t
        ensures |QueueModel.JournalOf(rows[i..], t)|
                == |QueueModel.JournalOf(rows[i + 1..], t)| + if rows[i].taskId == t then 1 else 0
      {
        HeadOfJournal(rows[i..], t);
      }
    }

    method JournalFor(taskId: string) returns (rows: seq<Row>)
      ensures rows == QueueModel.JournalOf(journal, taskId)
    {
      rows := [];
      for i := 0 to |journal|
        invariant rows == QueueModel.JournalOf(journal[..i], taskId)
      {
        assert journal[..i + 1][..i] == journal[..i];
        if journal[i].taskId == taskId {
          rows := rows + [journal[i]];
        }
      }
      assert journal[..|journal|] == journal;
    }

    /** `check_operational_health` on this queue. */
    method CheckHealth(freeDisk: Option<real>, minFreeDisk: real, rowCap: int, at: real) returns (report: Health)
      ensures report == Report(State(), freeDisk, minFreeDisk, rowCap, at)
    {
      var findings: seq<Finding> := [];
      var orphans := |Orphans(entries, at)|;
      if orphans != 0 {
        findings := findings + [OrphanedLeases(orphans)];
      }
      if |journal| > rowCap {
        findings := findings + [JournalOverCap(|journal|)];
      }
      if freeDisk.Some? && freeDisk.value < minFreeDisk {
        findings := findings + [LowDisk];
      }
      report := Health(findings == [], findings, |journal|);
    }
  }

  function TaskIds(rows: seq<(string, nat)>): (ids: seq<string>)
    ensures |ids| == |rows| && forall i | 0 <= i < |rows| :: ids[i] == rows[i].0
  {
    seq(|rows|, i requires 0 <= i < |rows| => rows[i].0)
  }
}
