/**
 The `ingestion_task` table and the guarded statements that move its rows.

 Instants are whole microseconds since the Unix epoch. A row's primary key is rendered as text by
 `TaskKeys.LiveFundingTaskKey`, which is injective, so the pair (exchange, scheduled minute)
 stands for the text here. Every database transaction is one atomic step; the functions give the
 table a statement leaves, the methods of `TaskTable` execute the statement in place.
 */
module LiveQueue {
  import opened Prelude

  const MINUTE := 60_000_000

  const STALE_RUNNING_ERROR_TYPE := "stale_running_task"
  const STALE_RUNNING_ERROR_MESSAGE := "Task was still running past the live worker timeout"
  const TASK_TIMEOUT_ERROR_TYPE := "task_timeout"

  datatype Status = Pending | Running | Done | Failed

  datatype Key = Key(exchange: string, scheduledFor: int)

  datatype TaskError = TaskError(errorType: string, message: string)

  datatype Task = Task(
    status: Status,
    createdAt: int,
    claimedAt: Option<int>,
    finishedAt: Option<int>,
    workerId: Option<string>,
    error: Option<TaskError>)
  {
    predicate IsActive() {
      status.Pending? || status.Running?
    }

    predicate IsStale(staleBefore: int) {
      status.Running? && claimedAt.Some? && claimedAt.value < staleBefore
    }

    predicate IsRunningFor(worker: string) {
      status.Running? && workerId == Some(worker)
    }
  }

  type Rows = map<Key, Task>

  datatype Config = Config(taskTimeout: nat, staleRunningGrace: nat) {
    function Lease(): nat {
      taskTimeout + staleRunningGrace
    }
  }

  datatype Tick = Tick(now: int, scheduledFor: int, staleBefore: int)

  function TickFromInstant(now: int, config: Config): Tick {
    Tick(now, BucketStart(now, MINUTE), now - config.taskTimeout - config.staleRunningGrace)
  }

  // ---------- what each statement leaves in the table ----------

  function ReapedRow(t: Task, finishedAt: int): Task {
    t.(status := Failed,
       finishedAt := Some(finishedAt),
       error := Some(TaskError(STALE_RUNNING_ERROR_TYPE, STALE_RUNNING_ERROR_MESSAGE)))
  }

  function StaleKeys(rows: Rows, tick: Tick): set<Key> {
    set k | k in rows && rows[k].IsStale(tick.staleBefore)
  }

  function Reap(rows: Rows, tick: Tick): Rows {
    map k | k in rows :: if rows[k].IsStale(tick.staleBefore) then ReapedRow(rows[k], tick.now) else rows[k]
  }

  predicate HasActive(rows: Rows, exchange: string) {
    exists k :: k in rows && k.exchange == exchange && rows[k].IsActive()
  }

  function ActiveExchanges(rows: Rows, exchanges: seq<string>): set<string> {
    set e | e in exchanges && HasActive(rows, e)
  }

  /** The listed exchanges that already have active work, each occurrence counted. */
  function CountActive(exchanges: seq<string>, active: set<string>): nat {
    if exchanges == [] then 0 else
      var n := |exchanges| - 1;
      CountActive(exchanges[..n], active) + if exchanges[n] in active then 1 else 0
  }

  function PendingRow(createdAt: int): Task {
    Task(Pending, createdAt, None, None, None, None)
  }

  function InsertIfAbsent(rows: Rows, key: Key, createdAt: int): Rows {
    if key in rows then rows else rows[key := PendingRow(createdAt)]
  }

  /** The insert loop over `exchanges`, read from its end; `clock[i]` is the row clock at iteration `i`. */
  function Schedule(rows: Rows, exchanges: seq<string>, active: set<string>, scheduledFor: int, clock: seq<int>): Rows
    requires |clock| >= |exchanges|
  {
    if exchanges == [] then rows else
      var n := |exchanges| - 1;
      var before := Schedule(rows, exchanges[..n], active, scheduledFor, clock);
      if exchanges[n] in active then before
      else InsertIfAbsent(before, Key(exchanges[n], scheduledFor), clock[n])
  }

  function TickRows(rows: Rows, exchanges: seq<string>, tick: Tick, clock: seq<int>): Rows
    requires |clock| >= |exchanges|
  {
    var reaped := Reap(rows, tick);
    Schedule(reaped, exchanges, ActiveExchanges(reaped, exchanges), tick.scheduledFor, clock)
  }

  /** The order of claims: by creation time, then by key text. */
  predicate NotAfter(rows: Rows, a: Key, b: Key, rank: Key -> int)
    requires a in rows && b in rows
  {
    rows[a].createdAt < rows[b].createdAt || (rows[a].createdAt == rows[b].createdAt && rank(a) <= rank(b))
  }

  function ClaimedRow(t: Task, worker: string, at: int): Task {
    t.(status := Running, claimedAt := Some(at), workerId := Some(worker), finishedAt := None, error := None)
  }

  datatype Outcome =
    | Collected
    | TimedOut(message: string)
    | Raised(errorType: string, message: string)
  {
    function FinalStatus(): Status {
      if Collected? then Done else Failed
    }

    function Error(): Option<TaskError> {
      match this
      case Collected => None
      case TimedOut(m) => Some(TaskError(TASK_TIMEOUT_ERROR_TYPE, m))
      case Raised(t, m) => Some(TaskError(t, m))
    }
  }

  function FinalRow(t: Task, outcome: Outcome, finishedAt: int): Task {
    t.(status := outcome.FinalStatus(), finishedAt := Some(finishedAt), error := outcome.Error())
  }

  predicate Accepts(rows: Rows, key: Key, worker: string) {
    key in rows && rows[key].IsRunningFor(worker)
  }

  function Finalise(rows: Rows, key: Key, worker: string, outcome: Outcome, finishedAt: int): Rows {
    if Accepts(rows, key, worker) then rows[key := FinalRow(rows[key], outcome, finishedAt)] else rows
  }

  // ---------- what the insert loop means ----------

  /**
   The loop keeps every row it finds, and the rows it adds are exactly one pending row for every
   listed exchange without active work whose key for this minute was free.
   */
  lemma {:induction false} ScheduleMeaning(
    rows: Rows, exchanges: seq<string>, active: set<string>, scheduledFor: int, clock: seq<int>)
    requires |clock| >= |exchanges|
    ensures var after := Schedule(rows, exchanges, active, scheduledFor, clock);
      && (forall k :: k in rows ==> k in after && after[k] == rows[k])
      && (forall k :: k in after && k !in rows <==>
            k !in rows && k.scheduledFor == scheduledFor && k.exchange in exchanges && k.exchange !in active)
      && (forall k :: k in after && k !in rows ==>
            exists i :: 0 <= i < |exchanges| && exchanges[i] == k.exchange && after[k] == PendingRow(clock[i]))
  {
    if exchanges != [] {
      var n := |exchanges| - 1;
      var before := Schedule(rows, exchanges[..n], active, scheduledFor, clock);
      var after := Schedule(rows, exchanges, active, scheduledFor, clock);
      ScheduleMeaning(rows, exchanges[..n], active, scheduledFor, clock);
      assert exchanges == exchanges[..n] + [exchanges[n]];
      forall k | k in after && k !in rows
        ensures exists i :: 0 <= i < |exchanges| && exchanges[i] == k.exchange && after[k] == PendingRow(clock[i])
      {
        if k in before {
          var i :| 0 <= i < n && exchanges[..n][i] == k.exchange && before[k] == PendingRow(clock[i]);
          assert exchanges[i] == k.exchange && after[k] == PendingRow(clock[i]);
        } else {
          assert after[k] == PendingRow(clock[n]);
        }
      }
    }
  }

  // ---------- what a tick means, row by row ----------

  /** Exactly the running rows claimed before the threshold fail, at the tick's instant; nothing else changes. */
  lemma ReapMeaning(rows: Rows, tick: Tick)
    ensures Reap(rows, tick).Keys == rows.Keys
    ensures forall k :: k in StaleKeys(rows, tick) <==>
              k in rows && rows[k].status == Running && rows[k].claimedAt.Some?
              && rows[k].claimedAt.value < tick.staleBefore
    ensures forall k :: k in rows ==>
              var was, now := rows[k], Reap(rows, tick)[k];
              if was.status == Running && was.claimedAt.Some? && was.claimedAt.value < tick.staleBefore
              then now == Task(Failed, was.createdAt, was.claimedAt, Some(tick.now), was.workerId,
                               Some(TaskError("stale_running_task",
                                              "Task was still running past the live worker timeout")))
              else now == was
  {
  }

  /** An exchange is left alone while it has a pending row, or a running one that is not stale. */
  ghost predicate Busy(rows: Rows, exchange: string, staleBefore: int) {
    exists k :: k in rows && k.exchange == exchange
      && (rows[k].status == Pending
          || (rows[k].status == Running && (rows[k].claimedAt.None? || staleBefore <= rows[k].claimedAt.value)))
  }

  lemma BusyMeansActiveAfterReap(rows: Rows, exchange: string, tick: Tick)
    ensures HasActive(Reap(rows, tick), exchange) <==> Busy(rows, exchange, tick.staleBefore)
  {
    var reaped := Reap(rows, tick);
    if k :| k in reaped && k.exchange == exchange && reaped[k].IsActive() {
      assert k in rows;
    }
    if k :| k in rows && k.exchange == exchange
            && (rows[k].status == Pending
                || (rows[k].status == Running
                    && (rows[k].claimedAt.None? || tick.staleBefore <= rows[k].claimedAt.value))) {
      assert k in reaped && reaped[k] == rows[k];
    }
  }

  /**
   A tick adds a row for an exchange exactly when the exchange is listed, its key for the minute is free, and it
   has no pending row and no running one that is not stale; the row is a fresh pending one.
   */
  lemma TickSchedulesIff(rows: Rows, exchanges: seq<string>, tick: Tick, clock: seq<int>, k: Key)
    requires |clock| >= |exchanges| && k !in rows
    ensures var after := TickRows(rows, exchanges, tick, clock);
      && (k in after <==>
            k.exchange in exchanges && k.scheduledFor == tick.scheduledFor
            && !Busy(rows, k.exchange, tick.staleBefore))
      && (k in after ==>
            exists i :: 0 <= i < |exchanges| && exchanges[i] == k.exchange
              && after[k] == Task(Pending, clock[i], None, None, None, None))
  {
    var reaped := Reap(rows, tick);
    ScheduleMeaning(reaped, exchanges, ActiveExchanges(reaped, exchanges), tick.scheduledFor, clock);
    BusyMeansActiveAfterReap(rows, k.exchange, tick);
  }

  /** An exchange whose rows are all done, failed or stale gets its pending row, whatever its history. */
  lemma IdleExchangeIsScheduled(rows: Rows, exchanges: seq<string>, tick: Tick, clock: seq<int>, exchange: string)
    requires |clock| >= |exchanges| && exchange in exchanges && Key(exchange, tick.scheduledFor) !in rows
    requires forall k :: k in rows && k.exchange == exchange ==>
               || rows[k].status == Done || rows[k].status == Failed
               || (rows[k].status == Running && rows[k].claimedAt.Some? && rows[k].claimedAt.value < tick.staleBefore)
    ensures var after, key := TickRows(rows, exchanges, tick, clock), Key(exchange, tick.scheduledFor);
      key in after && after[key].status == Pending
  {
    TickSchedulesIff(rows, exchanges, tick, clock, Key(exchange, tick.scheduledFor));
  }

  /** A pending row, or a running one that is not stale, keeps every new row of its exchange out. */
  lemma BusyExchangeIsSkipped(rows: Rows, exchanges: seq<string>, tick: Tick, clock: seq<int>, busy: Key, k: Key)
    requires |clock| >= |exchanges| && busy in rows && k.exchange == busy.exchange && k !in rows
    requires || rows[busy].status == Pending
             || (rows[busy].status == Running
                 && (rows[busy].claimedAt.None? || tick.staleBefore <= rows[busy].claimedAt.value))
    ensures k !in TickRows(rows, exchanges, tick, clock)
  {
    TickSchedulesIff(rows, exchanges, tick, clock, k);
  }

  /** A tick changes the rows it finds only by reaping them. */
  lemma TickKeeps(rows: Rows, exchanges: seq<string>, tick: Tick, clock: seq<int>, k: Key)
    requires |clock| >= |exchanges| && k in rows
    ensures var after := TickRows(rows, exchanges, tick, clock);
      k in after && after[k] == Reap(rows, tick)[k]
  {
    var reaped := Reap(rows, tick);
    ScheduleMeaning(reaped, exchanges, ActiveExchanges(reaped, exchanges), tick.scheduledFor, clock);
  }

  /** The listed places whose exchange is busy. */
  ghost function BusyPlaces(rows: Rows, exchanges: seq<string>, staleBefore: int): set<nat> {
    set i: nat | i < |exchanges| && Busy(rows, exchanges[i], staleBefore)
  }

  lemma {:induction false} SkippedAreBusy(rows: Rows, exchanges: seq<string>, n: nat, tick: Tick)
    requires n <= |exchanges|
    ensures CountActive(exchanges[..n], ActiveExchanges(Reap(rows, tick), exchanges))
         == |BusyPlaces(rows, exchanges[..n], tick.staleBefore)|
  {
    if n > 0 {
      SkippedAreBusy(rows, exchanges, n - 1, tick);
      assert exchanges[..n][..n - 1] == exchanges[..n - 1];
      BusyMeansActiveAfterReap(rows, exchanges[n - 1], tick);
      var before := BusyPlaces(rows, exchanges[..n - 1], tick.staleBefore);
      assert BusyPlaces(rows, exchanges[..n], tick.staleBefore)
          == if Busy(rows, exchanges[n - 1], tick.staleBefore) then before + {n - 1} else before;
    }
  }

  // ---------- the statements, executed in place ----------

  datatype EnqueueResult = EnqueueResult(
    scheduledFor: int, selected: nat, created: nat, skippedActive: nat, duplicate: nat, staleFailed: nat)

  datatype ClaimedTask = ClaimedTask(key: Key, createdAt: int, claimedAt: int, workerId: string)

  datatype ExecutionResult = ExecutionResult(key: Key, status: Status, error: Option<TaskError>)

  datatype FinaliseError = RunningTaskNotFinalised(key: Key)

  /** The first of the rows seen so far, or nothing as long as none has been seen. */
  ghost predicate FirstOf(rows: Rows, seen: set<Key>, next: Option<Key>, rank: Key -> int)
    requires seen <= rows.Keys
  {
    && (next.None? <==> seen == {})
    && (next.Some? ==> next.value in seen && forall k :: k in seen ==> NotAfter(rows, next.value, k, rank))
  }

  lemma FirstOfGrows(rows: Rows, seen: set<Key>, was: Option<Key>, k: Key, next: Option<Key>, rank: Key -> int)
    requires seen <= rows.Keys && FirstOf(rows, seen, was, rank) && k in rows
    requires next == if was.None? || !NotAfter(rows, was.value, k, rank) then Some(k) else was
    ensures FirstOf(rows, seen + {k}, next, rank)
  {
  }

  lemma MoveBetween(seen: set<Key>, rest: set<Key>, k: Key)
    requires k in rest
    ensures (seen + {k}) + (rest - {k}) == seen + rest
  {
  }

  /** The loop's choice among the free pending rows is the first of them, and nothing only when there is none. */
  lemma FirstCandidate(rows: Rows, locked: set<Key>, candidates: set<Key>, next: Option<Key>, rank: Key -> int)
    requires candidates == set k | k in rows && rows[k].status.Pending? && k !in locked
    requires candidates <= rows.Keys && FirstOf(rows, candidates, next, rank)
    ensures next.None? <==> forall k :: k in rows && rows[k].status.Pending? ==> k in locked
    ensures next.Some? ==>
              && next.value in rows && rows[next.value].status.Pending? && next.value !in locked
              && forall k :: k in rows && rows[k].status.Pending? && k !in locked ==>
                   && rows[next.value].createdAt <= rows[k].createdAt
                   && (rows[next.value].createdAt == rows[k].createdAt ==> rank(next.value) <= rank(k))
  {
    forall k | k in rows && rows[k].status.Pending? && k !in locked
      ensures next.Some? && NotAfter(rows, next.value, k, rank)
    {
      assert k in candidates;
    }
  }

  class TaskTable {
    var rows: Rows

    constructor ()
      ensures rows == map[]
    {
      rows := map[];
    }

    method MarkStaleRunningFailed(tick: Tick) returns (keys: set<Key>)
      modifies this
      ensures rows == Reap(old(rows), tick)
      ensures keys == StaleKeys(old(rows), tick)
    {
      keys := StaleKeys(rows, tick);
      rows := rows + map k | k in keys :: ReapedRow(rows[k], tick.now);
      assert rows.Keys == Reap(old(rows), tick).Keys;
    }

    method InsertPendingTask(key: Key, createdAt: int) returns (created: bool)
      modifies this
      ensures created <==> key !in old(rows)
      ensures rows == InsertIfAbsent(old(rows), key, createdAt)
      ensures rows == if created then old(rows)[key := Task(Pending, createdAt, None, None, None, None)] else old(rows)
    {
      created := key !in rows;
      if created {
        rows := rows[key := PendingRow(createdAt)];
      }
    }

    /** One minute's scheduling transaction: reap, read the active exchanges, insert what is missing. */
    method EnqueueTick(exchanges: seq<string>, now: int, config: Config, clock: seq<int>)
      returns (result: EnqueueResult)
      requires |clock| >= |exchanges|
      modifies this
      ensures rows == TickRows(old(rows), exchanges, TickFromInstant(now, config), clock)
      ensures result.scheduledFor == BucketStart(now, MINUTE)
      ensures result.created == |rows| - |old(rows)|
      ensures result.staleFailed == |StaleKeys(old(rows), TickFromInstant(now, config))|
      ensures var staleBefore := now - config.taskTimeout - config.staleRunningGrace;
              result.skippedActive == |BusyPlaces(old(rows), exchanges, staleBefore)|
      ensures result.selected == |exchanges| == result.created + result.skippedActive + result.duplicate
    {
      var tick := TickFromInstant(now, config);
      var stale := MarkStaleRunningFailed(tick);
      assert rows.Keys == old(rows).Keys;
      assert |rows| == |rows.Keys| && |old(rows)| == |old(rows).Keys|;
      ghost var reaped := rows;
      var active := ActiveExchanges(rows, exchanges);
      var created, duplicate, skipped := 0, 0, 0;
      for i := 0 to |exchanges|
        invariant rows == Schedule(reaped, exchanges[..i], active, tick.scheduledFor, clock)
        invariant created == |rows| - |reaped|
        invariant skipped == CountActive(exchanges[..i], active)
        invariant created + duplicate + skipped == i
      {
        assert exchanges[..i + 1][..i] == exchanges[..i];
        if exchanges[i] in active {
          skipped := skipped + 1;
        } else {
          var wasCreated := InsertPendingTask(Key(exchanges[i], tick.scheduledFor), clock[i]);
          if wasCreated {
            created := created + 1;
          } else {
            duplicate := duplicate + 1;
          }
        }
      }
      assert exchanges[..|exchanges|] == exchanges;
      SkippedAreBusy(old(rows), exchanges, |exchanges|, tick);
      result := EnqueueResult(tick.scheduledFor, |exchanges|, created, skipped, duplicate, |stale|);
    }

    /**
     The first pending row by creation time and then by key text that no concurrent transaction holds
     (`FOR UPDATE SKIP LOCKED`); `rank` is the place of a key's text in the collation order.
     */
    method GetNextPending(locked: set<Key>, rank: Key -> int) returns (next: Option<Key>)
      ensures next.None? <==> forall k :: k in rows && rows[k].status.Pending? ==> k in locked
      ensures next.Some? ==>
                && next.value in rows && rows[next.value].status.Pending? && next.value !in locked
                && forall k :: k in rows && rows[k].status.Pending? && k !in locked ==>
                     && rows[next.value].createdAt <= rows[k].createdAt
                     && (rows[next.value].createdAt == rows[k].createdAt ==> rank(next.value) <= rank(k))
    {
      var candidates := set k | k in rows && rows[k].status.Pending? && k !in locked;
      next := None;
      var rest := candidates;
      ghost var seen: set<Key> := {};
      while rest != {}
        invariant seen + rest == candidates && seen <= rows.Keys
        invariant FirstOf(rows, seen, next, rank)
        decreases |rest|
      {
        var k :| k in rest;
        ghost var was := next;
        if next.None? || !NotAfter(rows, next.value, k, rank) {
          next := Some(k);
        }
        FirstOfGrows(rows, seen, was, k, next, rank);
        MoveBetween(seen, rest, k);
        seen, rest := seen + {k}, rest - {k};
      }
      FirstCandidate(rows, locked, candidates, next, rank);
    }

    method ClaimNextPending(worker: string, now: int, locked: set<Key>, rank: Key -> int)
      returns (claimed: Option<ClaimedTask>)
      modifies this
      ensures claimed.None? ==>
                rows == old(rows) && forall k :: k in rows && rows[k].status.Pending? ==> k in locked
      ensures claimed.Some? ==>
                var k := claimed.value.key;
                && k in old(rows) && old(rows)[k].status.Pending? && k !in locked
                && (forall other :: other in old(rows) && old(rows)[other].status.Pending? && other !in locked ==>
                      && old(rows)[k].createdAt <= old(rows)[other].createdAt
                      && (old(rows)[k].createdAt == old(rows)[other].createdAt ==> rank(k) <= rank(other)))
                && rows == old(rows)[k := Task(Running, old(rows)[k].createdAt, Some(now), None, Some(worker), None)]
                && claimed.value == ClaimedTask(k, old(rows)[k].createdAt, now, worker)
    {
      var next := GetNextPending(locked, rank);
      if next.None? {
        return None;
      }
      var k := next.value;
      rows := rows[k := ClaimedRow(rows[k], worker, now)];
      claimed := Some(ClaimedTask(k, rows[k].createdAt, now, worker));
    }

    method MarkDone(key: Key, worker: string, finishedAt: int) returns (updated: bool)
      modifies this
      ensures updated <==>
              key in old(rows) && old(rows)[key].status == Running && old(rows)[key].workerId == Some(worker)
      ensures var done := (t: Task) => t.(status := Done, finishedAt := Some(finishedAt), error := None);
              rows == if updated then old(rows)[key := done(old(rows)[key])] else old(rows)
    {
      updated := Accepts(rows, key, worker);
      if updated {
        rows := rows[key := rows[key].(status := Done, finishedAt := Some(finishedAt), error := None)];
      }
    }

    method MarkFailed(key: Key, worker: string, finishedAt: int, error: TaskError) returns (updated: bool)
      modifies this
      ensures updated <==>
              key in old(rows) && old(rows)[key].status == Running && old(rows)[key].workerId == Some(worker)
      ensures var failed := (t: Task) => t.(status := Failed, finishedAt := Some(finishedAt), error := Some(error));
              rows == if updated then old(rows)[key := failed(old(rows)[key])] else old(rows)
    {
      updated := Accepts(rows, key, worker);
      if updated {
        rows := rows[key := rows[key].(status := Failed, finishedAt := Some(finishedAt), error := Some(error))];
      }
    }

    /** The end of a worker's execution: write the final status, or raise when the row is no longer its own. */
    method FinaliseTask(task: ClaimedTask, outcome: Outcome, finishedAt: int)
      returns (result: Result<ExecutionResult, FinaliseError>)
      modifies this
      ensures rows == Finalise(old(rows), task.key, task.workerId, outcome, finishedAt)
      ensures result.Ok? <==>
              && task.key in old(rows) && old(rows)[task.key].status == Running
              && old(rows)[task.key].workerId == Some(task.workerId)
      ensures result.Ok? && outcome.Collected? ==>
                var was := old(rows)[task.key];
                && rows == old(rows)[task.key := was.(status := Done, finishedAt := Some(finishedAt), error := None)]
                && result.value == ExecutionResult(task.key, Done, None)
      ensures result.Ok? && !outcome.Collected? ==>
                var error := match outcome
                  case TimedOut(message) => TaskError("task_timeout", message)
                  case Raised(errorType, message) => TaskError(errorType, message);
                var failed := old(rows)[task.key].(
                  status := Failed, finishedAt := Some(finishedAt), error := Some(error));
                && rows == old(rows)[task.key := failed]
                && result.value == ExecutionResult(task.key, Failed, Some(error))
      ensures result.Err? ==> result.error == RunningTaskNotFinalised(task.key) && rows == old(rows)
    {
      var updated;
      if outcome.Collected? {
        updated := MarkDone(task.key, task.workerId, finishedAt);
      } else {
        updated := MarkFailed(task.key, task.workerId, finishedAt, outcome.Error().value);
      }
      if !updated {
        return Err(RunningTaskNotFinalised(task.key));
      }
      result := Ok(ExecutionResult(task.key, outcome.FinalStatus(), outcome.Error()));
    }
  }

  // ---------- the polling loop ----------

  /** What the others make of one row: a tick may reap it, and a row of this worker changes in no other way. */
  ghost predicate ReapedBy(before: Task, after: Task, tick: Tick) {
    before.IsStale(tick.staleBefore) && after == ReapedRow(before, tick.now)
  }

  /**
   What the enqueuer and the other workers may do to the table between two statements of a worker: insert rows,
   reap stale ones, claim and finish rows of their own. A terminal row never changes.
   */
  ghost predicate Interferes(before: Rows, after: Rows, worker: string) {
    && before.Keys <= after.Keys
    && (forall k :: k in after && k !in before ==> !after[k].IsRunningFor(worker))
    && (forall k :: k in before && !before[k].IsActive() ==> after[k] == before[k])
    && (forall k :: k in before && before[k].IsRunningFor(worker) ==>
          after[k] == before[k] || exists tick :: ReapedBy(before[k], after[k], tick))
    && (forall k :: k in before && before[k].IsActive() && !before[k].IsRunningFor(worker) ==>
          !after[k].IsRunningFor(worker))
  }

  /**
   What one poll meets: what the others do before it and while it collects, its clock, the rows that other claims
   hold, how the collection goes, and whether the worker is cancelled while it collects.
   */
  datatype Poll = Poll(
    before: Rows -> Rows, meanwhile: Rows -> Rows,
    now: int, locked: set<Key>, outcome: Outcome, cancelled: bool, finishedAt: int)

  /** The others' changes are theirs, whatever the table is. */
  ghost predicate Fair(poll: Poll, worker: string) {
    forall rows :: Interferes(rows, poll.before(rows), worker) && Interferes(rows, poll.meanwhile(rows), worker)
  }

  datatype Turn =
    | NothingClaimed
    | Finished(key: Key, status: Status)
    | Refused(key: Key)
    | Cancelled(key: Key)

  predicate NoneRunningFor(rows: Rows, worker: string) {
    forall k :: k in rows ==> !rows[k].IsRunningFor(worker)
  }

  /** What a turn leaves of the row it was about. */
  ghost predicate TurnShows(rows: Rows, turn: Turn, poll: Poll, worker: string) {
    match turn
    case NothingClaimed => true
    case Finished(k, status) =>
      && k in rows && status == rows[k].status
      && rows[k] == FinalRow(ClaimedAt(rows[k], worker, poll), poll.outcome, poll.finishedAt)
    case Refused(k) =>
      k in rows && exists tick ::
        ReapedBy(ClaimedAt(rows[k], worker, poll), rows[k], tick) && poll.now < tick.staleBefore
    case Cancelled(k) => k in rows && rows[k] == ClaimedAt(rows[k], worker, poll)
  }

  /** The row as the worker's claim had left it. */
  function ClaimedAt(t: Task, worker: string, poll: Poll): (claimed: Task)
    ensures claimed == Task(Running, t.createdAt, Some(poll.now), None, Some(worker), None)
  {
    ClaimedRow(PendingRow(t.createdAt), worker, poll.now)
  }

  lemma InterferenceKeepsTurn(
    before: Rows, after: Rows, turn: Turn, poll: Poll, worker: string)
    requires Interferes(before, after, worker) && TurnShows(before, turn, poll, worker) && !turn.Cancelled?
    ensures TurnShows(after, turn, poll, worker)
  {
    assert turn.Finished? || turn.Refused? ==> !before[turn.key].IsActive();
  }

  /** Claim, collect while the others go on, finalise. A cancelled execution leaves its row running. */
  method ExecuteOne(table: TaskTable, worker: string, poll: Poll, rank: Key -> int) returns (turn: Turn)
    requires NoneRunningFor(table.rows, worker) && Fair(poll, worker)
    modifies table
    ensures TurnShows(table.rows, turn, poll, worker)
    ensures turn.Finished? ==>
              && turn.key in table.rows && (turn.status == if poll.outcome.Collected? then Done else Failed)
              && table.rows[turn.key].status == turn.status && table.rows[turn.key].workerId == Some(worker)
              && table.rows[turn.key].claimedAt == Some(poll.now)
              && table.rows[turn.key].finishedAt == Some(poll.finishedAt)
              && (table.rows[turn.key].error.None? <==> poll.outcome.Collected?)
    ensures turn.Refused? ==>
              && turn.key in table.rows && table.rows[turn.key].status == Failed
              && table.rows[turn.key].error.Some? && table.rows[turn.key].error.value.errorType == "stale_running_task"
    ensures turn.Cancelled? ==> turn.key in table.rows && table.rows[turn.key].status == Running
    ensures var was := old(table.rows);
      turn.NothingClaimed? <==> forall k :: k in was && was[k].status.Pending? ==> k in poll.locked
    ensures turn.NothingClaimed? ==> table.rows == old(table.rows)
    ensures !turn.NothingClaimed? ==> turn.key in old(table.rows) && old(table.rows)[turn.key].status.Pending?
    ensures forall k :: k in old(table.rows) && !old(table.rows)[k].IsActive() ==>
              k in table.rows && table.rows[k] == old(table.rows)[k]
    ensures turn.Cancelled? ==> poll.cancelled
    ensures !turn.Cancelled? ==> NoneRunningFor(table.rows, worker)
  {
    var claimed := table.ClaimNextPending(worker, poll.now, poll.locked, rank);
    if claimed.None? {
      return NothingClaimed;
    }
    var task := claimed.value;
    if poll.cancelled {
      return Cancelled(task.key);
    }
    ghost var collecting := table.rows;
    table.rows := poll.meanwhile(table.rows);
    assert Interferes(collecting, table.rows, worker);
    assert collecting[task.key].IsRunningFor(worker);
    ghost var met := table.rows[task.key];
    var result := table.FinaliseTask(task, poll.outcome, poll.finishedAt);
    if result.Err? {
      assert exists tick :: ReapedBy(collecting[task.key], met, tick);
      ghost var tick :| ReapedBy(collecting[task.key], met, tick);
      assert ReapedBy(ClaimedAt(met, worker, poll), met, tick);
    }
    turn := if result.Ok? then Finished(task.key, result.value.status) else Refused(task.key);
  }

  /** The turns after which the worker sleeps: nothing to claim, or an execution that raised. */
  ghost function Idle(log: seq<Turn>): set<nat> {
    set i: nat | i < |log| && (log[i].NothingClaimed? || log[i].Refused?)
  }

  /**
   Polls until stopped (the end of `polls`) or cancelled: a refused finalisation is one more turn and a
   sleep. Whatever the others do, every turn's row stays as the turn left it, and a worker that stops holds no
   running row.
   */
  method RunWorkerLoop(table: TaskTable, worker: string, polls: seq<Poll>, rank: Key -> int)
    returns (log: seq<Turn>, sleeps: nat)
    requires NoneRunningFor(table.rows, worker)
    requires forall i :: 0 <= i < |polls| ==> Fair(polls[i], worker)
    modifies table
    ensures |log| <= |polls| && forall i :: 0 <= i < |log| ==> TurnShows(table.rows, log[i], polls[i], worker)
    ensures forall i :: 0 <= i < |log| - 1 ==> !log[i].Cancelled?
    ensures if log != [] && log[|log| - 1].Cancelled? then polls[|log| - 1].cancelled
            else |log| == |polls| && NoneRunningFor(table.rows, worker)
    ensures sleeps == |Idle(log)|
  {
    log, sleeps := [], 0;
    while |log| < |polls|
      invariant |log| <= |polls| && NoneRunningFor(table.rows, worker)
      invariant forall i :: 0 <= i < |log| ==> TurnShows(table.rows, log[i], polls[i], worker) && !log[i].Cancelled?
      invariant sleeps == |Idle(log)|
      decreases |polls| - |log|
    {
      var poll := polls[|log|];
      ghost var was := table.rows;
      table.rows := poll.before(table.rows);
      assert Interferes(was, table.rows, worker);
      forall i | 0 <= i < |log| ensures TurnShows(table.rows, log[i], polls[i], worker) {
        InterferenceKeepsTurn(was, table.rows, log[i], polls[i], worker);
      }
      ghost var polled := table.rows;
      var turn := ExecuteOne(table, worker, poll, rank);
      forall i | 0 <= i < |log| ensures TurnShows(table.rows, log[i], polls[i], worker) {
        TerminalKeepsTurn(polled, table.rows, log[i], polls[i], worker);
      }
      IdleGrows(log, turn);
      log := log + [turn];
      if turn.NothingClaimed? || turn.Refused? {
        sleeps := sleeps + 1;
      }
      if turn.Cancelled? {
        return;
      }
    }
  }

  lemma TerminalKeepsTurn(before: Rows, after: Rows, turn: Turn, poll: Poll, worker: string)
    requires forall k :: k in before && !before[k].IsActive() ==> k in after && after[k] == before[k]
    requires TurnShows(before, turn, poll, worker) && !turn.Cancelled?
    ensures TurnShows(after, turn, poll, worker)
  {
    assert turn.Finished? || turn.Refused? ==> !before[turn.key].IsActive();
  }

  lemma IdleGrows(log: seq<Turn>, turn: Turn)
    ensures |Idle(log + [turn])| == |Idle(log)| + if turn.NothingClaimed? || turn.Refused? then 1 else 0
  {
    var more := if turn.NothingClaimed? || turn.Refused? then {|log|} else {};
    assert Idle(log + [turn]) == Idle(log) + more;
  }
}
