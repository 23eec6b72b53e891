/** Housekeeping of the queue: what pruning keeps, what reconciliation leaves behind, and what the
    operational health report says about both. */
module QueueUpkeep {
  import opened Wrappers
  import opened Text
  import opened QueueModel
  import opened QueueRuns

  // ----- pruning

  function Least(a: int, b: int): int {
    if a <= b then a else b
  }

  /** The newest min(n, |rows|) rows; none when n is negative. */
  function Newest(rows: seq<Row>, n: int): seq<Row> {
    if n <= 0 then [] else rows[|rows| - Least(n, |rows|)..]
  }

  lemma HeadOfJournal(journal: seq<Row>, t: string)
    requires journal != []
    ensures JournalOf(journal, t) == (if journal[0].taskId == t then [journal[0]] else []) + JournalOf(journal[1..], t)
  {
    assert journal == [journal[0]] + journal[1..];
    JournalOfConcat([journal[0]], journal[1..], t);
  }

  lemma NoJournal(t: string)
    ensures JournalOf([], t) == []
  {
  }

  /** `prune_journal(n)` leaves every task exactly its newest min(n, count) rows, in their order. */
  lemma {:induction false} PruningKeepsTheNewest(journal: seq<Row>, keep: int, t: string)
    ensures JournalOf(Pruned(journal, keep), t) == Newest(JournalOf(journal, t), keep)
  {
    hide JournalOf, Newest;
    if journal == [] {
      NoJournal(t);
      NewestOfNone(keep);
    } else {
      var head, rest := journal[0], journal[1..];
      PruningKeepsTheNewest(rest, keep, t);
      HeadOfJournal(journal, t);
      HeadOfJournal(journal, head.taskId);
      NewestStep(head, JournalOf(rest, t), keep);
      assert [] + JournalOf(rest, t) == JournalOf(rest, t);
      if |JournalOf(journal, head.taskId)| <= keep {
        var kept := Pruned(journal, keep);
        assert kept == [head] + Pruned(rest, keep) && kept[1..] == Pruned(rest, keep);
        HeadOfJournal(kept, t);
        assert [] + JournalOf(kept[1..], t) == JournalOf(kept[1..], t);
      } else {
        assert Pruned(journal, keep) == Pruned(rest, keep);
      }
    }
  }

  lemma NewestOfNone(keep: int)
    ensures Newest([], keep) == []
  {
  }

  lemma NewestStep(row: Row, rest: seq<Row>, keep: int)
    ensures Newest([row] + rest, keep) == if |rest| + 1 <= keep then [row] + Newest(rest, keep) else Newest(rest, keep)
  {
    assert ([row] + rest)[1..] == rest;
  }

  /** Row `k`, numbered from the newest of its task, is among the first `keep`. */
  predicate Stays(journal: seq<Row>, keep: int, k: nat) {
    k < |journal| && |JournalOf(journal[k..], journal[k].taskId)| <= keep
  }

  /** The positions from `from` on that stay, in the order of the table. */
  function KeptRows(journal: seq<Row>, keep: int, from: nat): (kept: seq<nat>)
    requires from <= |journal|
    ensures forall i | 0 <= i < |kept| :: from <= kept[i] && Stays(journal, keep, kept[i])
    ensures forall i, j | 0 <= i < j < |kept| :: kept[i] < kept[j]
    ensures forall k: nat | from <= k < |journal| && Stays(journal, keep, k) :: k in kept
    decreases |journal| - from
  {
    if from == |journal| then []
    else
      var rest := KeptRows(journal, keep, from + 1);
      if Stays(journal, keep, from) then [from] + rest else rest
  }

  /** Pruning keeps exactly the rows whose number, counted from the newest of their task, is at most `keep`,
      in the order they had in the table, across tasks. */
  lemma {:induction false} PrunedRows(journal: seq<Row>, keep: int, from: nat)
    requires from <= |journal|
    ensures var p, kept := Pruned(journal[from..], keep), KeptRows(journal, keep, from);
            |p| == |kept| && forall i | 0 <= i < |kept| :: p[i] == journal[kept[i]]
    decreases |journal| - from
  {
    hide Pruned, KeptRows, Stays;
    PrunedStep(journal, keep, from);
    if from < |journal| {
      PrunedRows(journal, keep, from + 1);
    }
  }

  lemma PrunedStep(journal: seq<Row>, keep: int, from: nat)
    requires from <= |journal|
    ensures if from == |journal| then Pruned(journal[from..], keep) == [] && KeptRows(journal, keep, from) == []
            else
              var p, kept := Pruned(journal[from + 1..], keep), KeptRows(journal, keep, from + 1);
              if Stays(journal, keep, from)
              then Pruned(journal[from..], keep) == [journal[from]] + p && KeptRows(journal, keep, from) == [from] + kept
              else Pruned(journal[from..], keep) == p && KeptRows(journal, keep, from) == kept
  {
    hide JournalOf;
    if from < |journal| {
      assert journal[from..][1..] == journal[from + 1..];
      assert [] + Pruned(journal[from + 1..], keep) == Pruned(journal[from + 1..], keep);
    }
  }

  /** Pruning twice with the same number deletes nothing the second time. */
  lemma {:induction false} PruningIsIdempotent(journal: seq<Row>, keep: int)
    ensures Pruned(Pruned(journal, keep), keep) == Pruned(journal, keep)
  {
    if journal != [] {
      var head, rest := journal[0], journal[1..];
      PruningIsIdempotent(rest, keep);
      if |JournalOf(journal, head.taskId)| <= keep {
        var kept := [head] + Pruned(rest, keep);
        PruningKeepsTheNewest(journal, keep, head.taskId);
        assert kept == Pruned(journal, keep);
        assert |JournalOf(kept, head.taskId)| <= keep;
        assert kept[1..] == Pruned(rest, keep);
      } else {
        assert Pruned(journal, keep) == Pruned(rest, keep);
      }
    }
  }

  // ----- reconciliation

  lemma ReconcilePossible(q: Queue, maxAttempts: int, order: seq<string>, at: real)
    requires Possible(q, ReconcileOp(maxAttempts, order, at))
    ensures forall i | 0 <= i < |order| :: order[i] in q.entries
    ensures forall t :: t in order <==> t in Orphans(q.entries, at)
    ensures |order| == |Orphans(q.entries, at)|
  {
    OrphansAreEntries(q, ReconcileOp(maxAttempts, order, at));
    EnumerationLength(order, Orphans(q.entries, at));
    forall t ensures t in order <==> t in Orphans(q.entries, at) {
      assert t in order <==> t in set u | u in order;
    }
  }

  /** Reconciling leaves no expired lease behind; a second reconciliation at the same instant finds nothing
      to do and changes nothing; and the order in which the database lists the rows does not matter to the
      entries. */
  lemma ReconcileIsIdempotent(q: Queue, maxAttempts: int, order: seq<string>, again: seq<string>, at: real)
    requires Possible(q, ReconcileOp(maxAttempts, order, at))
    requires Possible(AfterReclaims(q, order, maxAttempts, at), ReconcileOp(maxAttempts, again, at))
    ensures var q' := AfterReclaims(q, order, maxAttempts, at);
            again == [] && Orphans(q'.entries, at) == {} && AfterReclaims(q', again, maxAttempts, at) == q'
  {
    var q' := AfterReclaims(q, order, maxAttempts, at);
    ReconcilePossible(q, maxAttempts, order, at);
    ReclaimsInOneGo(q, order, maxAttempts, at);
    forall t | t in q'.entries ensures !Orphaned(q'.entries[t], at) {
      assert t in order <==> t in Orphans(q.entries, at);
    }
    assert Orphans(q'.entries, at) == {};
    ReconcilePossible(q', maxAttempts, again, at);
  }

  lemma ReconcileOrderIsIrrelevant(q: Queue, maxAttempts: int, order: seq<string>, other: seq<string>, at: real, t: string)
    requires Possible(q, ReconcileOp(maxAttempts, order, at)) && Possible(q, ReconcileOp(maxAttempts, other, at))
    ensures AfterReclaims(q, order, maxAttempts, at).entries == AfterReclaims(q, other, maxAttempts, at).entries
    ensures JournalOf(AfterReclaims(q, order, maxAttempts, at).journal, t)
         == JournalOf(AfterReclaims(q, other, maxAttempts, at).journal, t)
  {
    var one, two := ReconcileOp(maxAttempts, order, at), ReconcileOp(maxAttempts, other, at);
    StepRows(q, one, t);
    StepRows(q, two, t);
    StepKeys(q, one);
    StepKeys(q, two);
    forall u | u in q.entries ensures After(q, one).entries[u] == After(q, two).entries[u] {
      StepEntry(q, one, u);
      StepEntry(q, two, u);
    }
  }

  /** Renewing does not ask whether the lease has expired: as long as no reconciliation has run, the holder
      takes an expired lease out of the reach of the reconciliation at that same instant. */
  lemma RenewalRevivesAnExpiredLease(q: Queue, t: string, worker: string, ttl: real, at: real)
    requires t in Orphans(q.entries, at) && HeldBy(q.entries[t], worker)
    ensures t in Orphans(AfterRenew(q, t, worker, ttl, at).entries, at) <==> ttl < 0.0
  {
  }

  // ----- the health report

  datatype Finding = OrphanedLeases(count: nat) | JournalOverCap(rows: nat) | LowDisk

  datatype Health = Health(ok: bool, findings: seq<Finding>, journalRows: nat)

  /** `check_operational_health`: a read-only look at the same two tables. */
  function Report(q: Queue, freeDisk: Option<real>, minFreeDisk: real, rowCap: int, at: real): Health {
    var orphans := |Orphans(q.entries, at)|;
    var findings :=
      (if orphans > 0 then [OrphanedLeases(orphans)] else []) +
      (if |q.journal| > rowCap then [JournalOverCap(|q.journal|)] else []) +
      (if freeDisk.Some? && freeDisk.value < minFreeDisk then [LowDisk] else []);
    Health(findings == [], findings, |q.journal|)
  }

  /** The number of orphans that the report names is the number that a reconciliation at that instant
      returns, and after it the report names none. */
  lemma HealthAgreesWithReconcile(q: Queue, freeDisk: Option<real>, minFreeDisk: real, rowCap: int,
                                  maxAttempts: int, order: seq<string>, at: real)
    requires Possible(q, ReconcileOp(maxAttempts, order, at))
    ensures forall n :: OrphanedLeases(n) in Report(q, freeDisk, minFreeDisk, rowCap, at).findings <==> n == |order| && n > 0
    ensures var after := Report(AfterReclaims(q, order, maxAttempts, at), freeDisk, minFreeDisk, rowCap, at);
            forall n :: OrphanedLeases(n) !in after.findings
  {
    ReconcilePossible(q, maxAttempts, order, at);
    var q' := AfterReclaims(q, order, maxAttempts, at);
    ReclaimsInOneGo(q, order, maxAttempts, at);
    forall t | t in q'.entries ensures !Orphaned(q'.entries[t], at) {
      assert t in order <==> t in Orphans(q.entries, at);
    }
    assert Orphans(q'.entries, at) == {};
  }

  /** A report is ok exactly when no lease is expired, the journal is within its cap and the disk, when it was
      measured, is not below its floor. */
  lemma HealthyIff(q: Queue, freeDisk: Option<real>, minFreeDisk: real, rowCap: int, at: real)
    ensures Report(q, freeDisk, minFreeDisk, rowCap, at).ok <==>
            && (forall t | t in q.entries :: !Orphaned(q.entries[t], at))
            && |q.journal| <= rowCap
            && (freeDisk.Some? ==> freeDisk.value >= minFreeDisk)
  {
    if t :| t in q.entries && Orphaned(q.entries[t], at) {
      assert t in Orphans(q.entries, at);
    } else {
      assert Orphans(q.entries, at) == {};
    }
  }

  /** Each finding is reported exactly when its limit is passed, at most once, with the number it is about. */
  lemma FindingsIff(q: Queue, freeDisk: Option<real>, minFreeDisk: real, rowCap: int, at: real)
    ensures var report := Report(q, freeDisk, minFreeDisk, rowCap, at);
            var expired := set t | t in q.entries && q.entries[t].state == Leased
                                   && q.entries[t].expires.Some? && q.entries[t].expires.value < at;
            && (forall n :: OrphanedLeases(n) in report.findings <==> n == |expired| > 0)
            && (forall n :: JournalOverCap(n) in report.findings <==> n == |q.journal| > rowCap)
            && (LowDisk in report.findings <==> freeDisk.Some? && freeDisk.value < minFreeDisk)
            && (forall i, j | 0 <= i < j < |report.findings| :: report.findings[i] != report.findings[j])
            && report.journalRows == |q.journal|
  {
    var expired := set t | t in q.entries && q.entries[t].state == Leased
                           && q.entries[t].expires.Some? && q.entries[t].expires.value < at;
    assert expired == Orphans(q.entries, at);
  }

  // ----- what the journal says about results

  predicate Identifies(row: Row, q: Queue) {
    row.event.CompletedEvent? ==>
      && row.taskId in q.entries
      && row.event.ranRevision == q.entries[row.taskId].recipe.revision
      && row.event.ranFingerprint == q.entries[row.taskId].fingerprint
      && |row.event.stdoutTail| <= JOURNAL_TAIL_CAP && |row.event.stderrTail| <= JOURNAL_TAIL_CAP
  }

  lemma RowsComeFrom(q: Queue, op: Op, i: nat)
    requires Possible(q, op) && i < |After(q, op).journal| && After(q, op).journal[i].event.CompletedEvent?
    ensures var row := After(q, op).journal[i];
            || row in q.journal
            || (Accepts(q, op, row.taskId) && row ==
                ResultRow(q.entries[row.taskId], row.taskId, op.worker, op.result, op.observed, op.at))
  {
    if op.PruneOp? {
      assert q.journal[0..] == q.journal;
      PrunedRows(q.journal, op.keep, 0);
    } else if op.ReconcileOp? {
      OrphansAreEntries(q, op);
      ReclaimsInOneGo(q, op.order, op.maxAttempts, op.at);
    }
  }

  lemma IdentifiesStep(q: Queue, op: Op, row: Row)
    requires Possible(q, op) && (forall r | r in q.journal :: Identifies(r, q)) && row in After(q, op).journal
    ensures Identifies(row, After(q, op))
  {
    if row.event.CompletedEvent? {
      var i :| 0 <= i < |After(q, op).journal| && After(q, op).journal[i] == row;
      RowsComeFrom(q, op, i);
      StepEntry(q, op, row.taskId);
    }
  }

  /** In every reachable state, pruned or not, every `completed` row names the revision and the recipe
      fingerprint that its task was enqueued with, and its output tails are within the cap. */
  lemma {:induction false} CompletedRowsIdentifyTheRecipe(r: Run, k: nat)
    requires IsRun(r) && k < |r.states|
    ensures forall row | row in r.states[k].journal :: Identifies(row, r.states[k])
  {
    if k > 0 {
      CompletedRowsIdentifyTheRecipe(r, k - 1);
      forall row | row in r.states[k].journal ensures Identifies(row, r.states[k]) {
        IdentifiesStep(r.states[k - 1], r.ops[k - 1], row);
      }
    }
  }
}
