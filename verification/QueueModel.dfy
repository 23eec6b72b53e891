/** The durable lease queue as data: the rows of the two tables and the effect of every operation on them. */
module QueueModel {
  import opened Wrappers
  import opened Text

  const JOURNAL_TAIL_CAP := 2 * 1024

  /** `rest` stands for the fields of a recipe that the queue only stores. */
  datatype Recipe = Recipe(taskId: string, revision: string, rest: string)

  datatype TaskState = Queued | Leased | Succeeded | Failed | Cancelled | DeadLetter

  datatype Entry = Entry(
    recipe: Recipe,
    fingerprint: string,
    base: string,
    state: TaskState,
    attempt: nat,
    holder: Option<string>,
    expires: Option<real>,
    enqueuedAt: real,
    updatedAt: real
  )

  /** What the runner hands over; a result without an outcome reads as "unknown" with no exit code. */
  datatype RunResult = RunResult(outcome: string, exitCode: Option<int>, stdoutTail: string, stderrTail: string)

  datatype Reason =
    | NoValidLease
    | LeaseRanOut
    | BaseChanged
    | RunNotOk(outcome: string, exitCode: Option<int>)

  datatype RecordOutcome = RecordOutcome(accepted: bool, finalState: TaskState, promotable: bool, reason: Option<Reason>)

  datatype Event =
    | EnqueuedEvent(revision: string, fingerprint: string)
    | LeasedEvent(worker: string, until: real)
    | RejectedEvent(why: Reason, sender: string, entryState: TaskState)
    | CompletedEvent(verdict: RecordOutcome, ranRevision: string, ranFingerprint: string, outcome: string,
                     exitCode: Option<int>, baseMoved: bool, stdoutTail: string, stderrTail: string)
    | CancelledEvent
    | LeaseExpiredEvent
    | DeadLetteredEvent

  datatype Row = Row(taskId: string, attempt: nat, event: Event, at: real)

  datatype Queue = Queue(entries: map<string, Entry>, journal: seq<Row>)

  const EMPTY := Queue(map[], [])

  predicate Terminal(e: Entry) {
    e.state != Queued && e.state != Leased
  }

  // ----- enqueue

  function NewEntry(recipe: Recipe, fingerprint: string, base: string, at: real): Entry {
    Entry(recipe, fingerprint, base, Queued, 0, None, None, at, at)
  }

  function AfterEnqueue(q: Queue, recipe: Recipe, fingerprint: string, base: string, at: real): Queue {
    if recipe.taskId in q.entries then q
    else Queue(
      q.entries[recipe.taskId := NewEntry(recipe, fingerprint, base, at)],
      q.journal + [Row(recipe.taskId, 0, EnqueuedEvent(recipe.revision, fingerprint), at)])
  }

  // ----- lease

  /** The order of `ORDER BY enqueued_at, task_id`. */
  predicate Earlier(entries: map<string, Entry>, t: string, u: string)
    requires t in entries && u in entries
  {
    entries[t].enqueuedAt < entries[u].enqueuedAt ||
    (entries[t].enqueuedAt == entries[u].enqueuedAt && AtMost(t, u))
  }

  /** `t` is the row that `SELECT ... WHERE state = 'queued' ORDER BY enqueued_at, task_id LIMIT 1` returns. */
  ghost predicate IsOldest(entries: map<string, Entry>, t: string) {
    t in entries && entries[t].state == Queued &&
    forall u | u in entries && entries[u].state == Queued :: Earlier(entries, t, u)
  }

  ghost function Oldest(entries: map<string, Entry>): (r: Option<string>)
    ensures r.Some? ==> IsOldest(entries, r.value)
  {
    if t :| IsOldest(entries, t) then Some(t) else None
  }

  function Grant(e: Entry, worker: string, ttl: real, at: real): Entry {
    e.(state := Leased, holder := Some(worker), expires := Some(at + ttl), attempt := e.attempt + 1, updatedAt := at)
  }

  ghost function AfterLease(q: Queue, worker: string, ttl: real, at: real): Queue {
    var oldest := Oldest(q.entries);
    if ttl <= 0.0 || oldest.None? then q
    else
      var t := oldest.value;
      var e := Grant(q.entries[t], worker, ttl, at);
      Queue(q.entries[t := e], q.journal + [Row(t, e.attempt, LeasedEvent(worker, at + ttl), at)])
  }

  // ----- renewal

  predicate HeldBy(e: Entry, worker: string) {
    e.state == Leased && e.holder == Some(worker)
  }

  /** A renewal does not look at the expiry of the lease. */
  function AfterRenew(q: Queue, t: string, worker: string, ttl: real, at: real): Queue {
    if t in q.entries && HeldBy(q.entries[t], worker)
    then q.(entries := q.entries[t := q.entries[t].(expires := Some(at + ttl), updatedAt := at)])
    else q
  }

  // ----- results

  predicate Lapsed(e: Entry, at: real) {
    e.expires.Some? && e.expires.value < at
  }

  predicate RanOk(result: RunResult) {
    result.outcome == "completed" && result.exitCode == Some(0)
  }

  function Judge(e: Entry, worker: string, result: RunResult, observed: string, at: real): RecordOutcome {
    if !HeldBy(e, worker) || Lapsed(e, at) then
      RecordOutcome(false, e.state, false, Some(if Lapsed(e, at) then LeaseRanOut else NoValidLease))
    else
      var moved := observed != e.base;
      var good := RanOk(result) && !moved;
      RecordOutcome(true, if good then Succeeded else Failed, good,
                    if moved then Some(BaseChanged)
                    else if RanOk(result) then None
                    else Some(RunNotOk(result.outcome, result.exitCode)))
  }

  /** `s[-cap:]` */
  function Tail(s: string): (r: string)
    ensures |r| <= JOURNAL_TAIL_CAP
    ensures |s| <= JOURNAL_TAIL_CAP ==> r == s
    ensures exists head :: s == head + r
  {
    if |s| <= JOURNAL_TAIL_CAP then assert s == [] + s; s
    else
      var cut := |s| - JOURNAL_TAIL_CAP;
      assert s == s[..cut] + s[cut..];
      s[cut..]
  }

  function ResultRow(e: Entry, t: string, worker: string, result: RunResult, observed: string, at: real): Row {
    var verdict := Judge(e, worker, result, observed, at);
    if verdict.accepted then
      Row(t, e.attempt,
          CompletedEvent(verdict, e.recipe.revision, e.fingerprint, result.outcome, result.exitCode,
                         observed != e.base, Tail(result.stdoutTail), Tail(result.stderrTail)), at)
    else
      Row(t, e.attempt, RejectedEvent(verdict.reason.value, worker, e.state), at)
  }

  function Closed(e: Entry, state: TaskState, at: real): Entry {
    e.(state := state, holder := None, expires := None, updatedAt := at)
  }

  function AfterRecord(q: Queue, t: string, worker: string, result: RunResult, observed: string, at: real): Queue {
    if t !in q.entries then q
    else
      var e := q.entries[t];
      var verdict := Judge(e, worker, result, observed, at);
      Queue(if verdict.accepted then q.entries[t := Closed(e, verdict.finalState, at)] else q.entries,
            q.journal + [ResultRow(e, t, worker, result, observed, at)])
  }

  // ----- cancellation

  function AfterCancel(q: Queue, t: string, at: real): Queue {
    if t in q.entries && !Terminal(q.entries[t])
    then Queue(q.entries[t := Closed(q.entries[t], Cancelled, at)],
               q.journal + [Row(t, q.entries[t].attempt, CancelledEvent, at)])
    else q
  }

  // ----- reconciliation

  predicate Orphaned(e: Entry, at: real) {
    e.state == Leased && Lapsed(e, at)
  }

  function Orphans(entries: map<string, Entry>, at: real): set<string> {
    set t | t in entries && Orphaned(entries[t], at)
  }

  predicate Parked(e: Entry, maxAttempts: int) {
    maxAttempts > 0 && e.attempt >= maxAttempts
  }

  function Reclaimed(e: Entry, maxAttempts: int, at: real): Entry {
    Closed(e, if Parked(e, maxAttempts) then DeadLetter else Queued, at)
  }

  function ReclaimRow(e: Entry, t: string, maxAttempts: int, at: real): Row {
    Row(t, e.attempt, if Parked(e, maxAttempts) then DeadLetteredEvent else LeaseExpiredEvent, at)
  }

  function ReclaimRows(entries: map<string, Entry>, order: seq<string>, maxAttempts: int, at: real): seq<Row>
    requires forall i | 0 <= i < |order| :: order[i] in entries
  {
    seq(|order|, i requires 0 <= i < |order| => ReclaimRow(entries[order[i]], order[i], maxAttempts, at))
  }

  /** The loop of `reconcile` over the selected rows, in whatever order the database lists them. */
  function AfterReclaims(q: Queue, order: seq<string>, maxAttempts: int, at: real): Queue {
    if order == [] then q
    else
      var before := AfterReclaims(q, order[..|order| - 1], maxAttempts, at);
      var t := order[|order| - 1];
      if t !in before.entries then before
      else Queue(before.entries[t := Reclaimed(before.entries[t], maxAttempts, at)],
                 before.journal + [ReclaimRow(before.entries[t], t, maxAttempts, at)])
  }

  // ----- pruning

  function JournalOf(journal: seq<Row>, t: string): seq<Row> {
    if journal == [] then []
    else
      var last := journal[|journal| - 1];
      JournalOf(journal[..|journal| - 1], t) + if last.taskId == t then [last] else []
  }

  /** `ROW_NUMBER() OVER (PARTITION BY task_id ORDER BY id DESC) <= keep`, row by row: the number of the
      first row is the number of rows of its task that are left. */
  function Pruned(journal: seq<Row>, keep: int): seq<Row> {
    if journal == [] then []
    else (if |JournalOf(journal, journal[0].taskId)| <= keep then [journal[0]] else []) + Pruned(journal[1..], keep)
  }

  // ----- one operation

  datatype Op =
    | EnqueueOp(recipe: Recipe, fingerprint: string, base: string, at: real)
    | LeaseOp(worker: string, ttl: real, at: real)
    | RenewOp(task: string, worker: string, ttl: real, at: real)
    | RecordOp(task: string, worker: string, result: RunResult, observed: string, at: real)
    | CancelOp(task: string, at: real)
    | ReconcileOp(maxAttempts: int, order: seq<string>, at: real)
    | PruneOp(keep: int)

  /** A reconciliation handles exactly the expired leases, each once; every other operation is always possible. */
  predicate Possible(q: Queue, op: Op) {
    op.ReconcileOp? ==> Enumerates(op.order, Orphans(q.entries, op.at))
  }

  ghost function After(q: Queue, op: Op): Queue {
    match op
    case EnqueueOp(recipe, fingerprint, base, at) => AfterEnqueue(q, recipe, fingerprint, base, at)
    case LeaseOp(worker, ttl, at) => AfterLease(q, worker, ttl, at)
    case RenewOp(task, worker, ttl, at) => AfterRenew(q, task, worker, ttl, at)
    case RecordOp(task, worker, result, observed, at) => AfterRecord(q, task, worker, result, observed, at)
    case CancelOp(task, at) => AfterCancel(q, task, at)
    case ReconcileOp(maxAttempts, order, at) => AfterReclaims(q, order, maxAttempts, at)
    case PruneOp(keep) => q.(journal := Pruned(q.journal, keep))
  }

  // ----- facts about single operations

  lemma EarlierIsTransitive(entries: map<string, Entry>, a: string, b: string, c: string)
    requires a in entries && b in entries && c in entries
    requires Earlier(entries, a, b) && Earlier(entries, b, c)
    ensures Earlier(entries, a, c)
  {
    if a != b && b != c && Before(a, b) && Before(b, c) {
      BeforeIsTransitive(a, b, c);
    }
  }

  /** Two rows cannot both be the oldest: the order by time and task id leaves no ties. */
  lemma OldestIsUnique(entries: map<string, Entry>, t: string, u: string)
    requires IsOldest(entries, t) && IsOldest(entries, u)
    ensures t == u
  {
    assert Earlier(entries, t, u) && Earlier(entries, u, t);
    if t != u {
      BeforeIsTransitive(t, u, t);
      BeforeIsIrreflexive(t);
    }
  }

  /** Whenever something is queued, some row is the oldest. */
  lemma {:induction false} SomeOldest(entries: map<string, Entry>, queued: set<string>) returns (t: string)
    requires queued != {} && forall u | u in queued :: u in entries && entries[u].state == Queued
    ensures t in queued && forall u | u in queued :: Earlier(entries, t, u)
    decreases |queued|
  {
    t :| t in queued;
    var rest := queued - {t};
    if rest != {} {
      var r := SomeOldest(entries, rest);
      BeforeIsTotal(t, r);
      if Earlier(entries, r, t) {
        t := r;
      } else {
        forall u | u in queued ensures Earlier(entries, t, u) {
          if u != t {
            EarlierIsTransitive(entries, t, r, u);
          }
        }
      }
    }
  }

  /** A lease is granted exactly when something is queued, and always on the row whose enqueue time,
      then task id, is the least. */
  lemma LeaseTakesTheOldest(entries: map<string, Entry>)
    ensures Oldest(entries).None? <==> forall t | t in entries :: entries[t].state != Queued
    ensures Oldest(entries).Some? ==> IsOldest(entries, Oldest(entries).value)
  {
    var queued := set t | t in entries && entries[t].state == Queued;
    if queued == {} {
      forall t | t in entries ensures entries[t].state != Queued {
        assert t !in queued;
      }
    } else {
      var t := SomeOldest(entries, queued);
      forall u | u in entries && entries[u].state == Queued ensures Earlier(entries, t, u) {
        assert u in queued;
      }
      assert IsOldest(entries, t);
    }
  }

  /** Closed form of the reconciliation loop: every selected entry is reclaimed from the state it had
      before the loop, nothing else moves, and the journal gains one row per selected entry. */
  lemma {:induction false} ReclaimsInOneGo(q: Queue, order: seq<string>, maxAttempts: int, at: real)
    requires Enumerates(order, set t | t in order) && forall i | 0 <= i < |order| :: order[i] in q.entries
    ensures var q' := AfterReclaims(q, order, maxAttempts, at);
            && q'.entries.Keys == q.entries.Keys
            && (forall t | t in q.entries ::
                  q'.entries[t] == if t in order then Reclaimed(q.entries[t], maxAttempts, at) else q.entries[t])
            && q'.journal == q.journal + ReclaimRows(q.entries, order, maxAttempts, at)
  {
    if order != [] {
      var n := |order| - 1;
      var init, last := order[..n], order[n];
      assert order == init + [last];
      assert last !in init;
      ReclaimsInOneGo(q, init, maxAttempts, at);
      forall t | t in order ensures t in init || t == last {
      }
    }
  }
}
