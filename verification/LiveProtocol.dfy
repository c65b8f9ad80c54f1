/**
 The live-ingestion protocol: one serial enqueuer, any number of workers and crashes, one clock.

 A step is one database transaction or one change in a worker's memory. The clock may not pass the
 end of a lease while a worker is still collecting under it: that is the assumption that a worker
 stops collecting within `task_timeout + stale_running_grace` of `claimed_at`.
 */
module LiveProtocol {
  import opened Prelude
  import opened LiveQueue

  datatype Phase =
    | Collecting(key: Key, claimedAt: int)
    | Finalising(key: Key, claimedAt: int)

  /** `lastTick` is the instant of the latest enqueuer tick; `workers` holds the workers that own a claim. */
  datatype System = System(rows: Rows, now: int, lastTick: int, workers: map<string, Phase>)

  datatype Step =
    | Advance(now: int)
    | EnqueueTick(tickNow: int, exchanges: seq<string>, clock: seq<int>)
    | Claim(worker: string, key: Key, at: int)
    | StopCollecting(worker: string)
    | Finish(worker: string, outcome: Outcome, at: int)
    | Crash(worker: string)

  predicate WithinLease(s: System, now: int, config: Config) {
    forall w :: w in s.workers && s.workers[w].Collecting? ==> now <= s.workers[w].claimedAt + config.Lease()
  }

  ghost predicate Enabled(s: System, step: Step, config: Config) {
    match step
    case Advance(now) =>
      s.now <= now && WithinLease(s, now, config)
    case EnqueueTick(tickNow, exchanges, clock) =>
      && s.lastTick <= tickNow <= s.now
      && |clock| >= |exchanges|
      && forall i :: 0 <= i < |clock| ==> tickNow <= clock[i] <= s.now
    case Claim(w, k, at) =>
      && w !in s.workers
      && k in s.rows && s.rows[k].status.Pending?
      && s.rows[k].createdAt <= at <= s.now <= at + config.Lease()
    case StopCollecting(w) =>
      w in s.workers && s.workers[w].Collecting?
    case Finish(w, _, _) =>
      w in s.workers && s.workers[w].Finalising?
    case Crash(w) =>
      w in s.workers
  }

  ghost function Next(s: System, step: Step, config: Config): System
    requires Enabled(s, step, config)
  {
    match step
    case Advance(now) => s.(now := now)
    case EnqueueTick(tickNow, exchanges, clock) =>
      s.(rows := TickRows(s.rows, exchanges, TickFromInstant(tickNow, config), clock), lastTick := tickNow)
    case Claim(w, k, at) =>
      s.(rows := s.rows[k := ClaimedRow(s.rows[k], w, at)], workers := s.workers[w := Collecting(k, at)])
    case StopCollecting(w) =>
      s.(workers := s.workers[w := Finalising(s.workers[w].key, s.workers[w].claimedAt)])
    case Finish(w, outcome, at) =>
      s.(rows := Finalise(s.rows, s.workers[w].key, w, outcome, at), workers := s.workers - {w})
    case Crash(w) => s.(workers := s.workers - {w})
  }

  ghost predicate IsRun(run: seq<System>, steps: seq<Step>, config: Config) {
    && |run| == |steps| + 1
    && Initial(run[0])
    && forall i :: 0 <= i < |steps| ==>
        Enabled(run[i], steps[i], config) && run[i + 1] == Next(run[i], steps[i], config)
  }

  ghost predicate Initial(s: System) {
    s.rows == map[] && s.workers == map[] && s.lastTick <= s.now
  }

  ghost predicate Reachable(s: System, config: Config) {
    exists run, steps :: IsRun(run, steps, config) && run[|run| - 1] == s
  }

  // ---------- the invariant ----------

  ghost predicate RowWellFormed(s: System, k: Key) {
    k in s.rows ==>
      var t := s.rows[k];
      && k.scheduledFor <= t.createdAt <= s.now
      && k.scheduledFor <= BucketStart(s.lastTick, MINUTE)
      && (t.status.Pending? ==> t.claimedAt.None? && t.workerId.None?)
      && (t.status.Running? ==> t.claimedAt.Some? && t.workerId.Some? && t.createdAt <= t.claimedAt.value <= s.now)
  }

  /** An active row is the only one of its exchange, and no row of that exchange was scheduled later. */
  ghost predicate LatestAndAlone(rows: Rows) {
    forall a, k :: a in rows && rows[a].IsActive() && k in rows && k.exchange == a.exchange ==>
      k.scheduledFor <= a.scheduledFor && (rows[k].IsActive() ==> k == a)
  }

  /** A worker's claim is still its own running row, or the reaper took it after the lease had ended. */
  ghost predicate ClaimHeld(s: System, w: string, config: Config) {
    w in s.workers ==>
      var p := s.workers[w];
      && p.key in s.rows
      && s.rows[p.key].claimedAt == Some(p.claimedAt)
      && s.rows[p.key].workerId == Some(w)
      && (s.rows[p.key].status.Running? || (ReapedIn(s.rows, p.key) && p.claimedAt + config.Lease() < s.now))
  }

  ghost predicate ReapedIn(rows: Rows, k: Key) {
    k in rows && rows[k].status.Failed?
    && rows[k].error == Some(TaskError(STALE_RUNNING_ERROR_TYPE, STALE_RUNNING_ERROR_MESSAGE))
  }

  ghost predicate Inv(s: System, config: Config) {
    && s.lastTick <= s.now
    && (forall k :: RowWellFormed(s, k))
    && LatestAndAlone(s.rows)
    && (forall w :: ClaimHeld(s, w, config))
    && WithinLease(s, s.now, config)
  }

  // ---------- one step keeps it ----------

  lemma ReapKeepsRows(s: System, tickNow: int, config: Config)
    requires Inv(s, config) && s.lastTick <= tickNow <= s.now
    ensures var r := s.(rows := Reap(s.rows, TickFromInstant(tickNow, config)), lastTick := tickNow);
      Inv(r, config)
  {
    var tick := TickFromInstant(tickNow, config);
    var r := s.(rows := Reap(s.rows, tick), lastTick := tickNow);
    BucketMonotone(s.lastTick, tickNow, MINUTE);
    forall k ensures RowWellFormed(r, k) {
      assert RowWellFormed(s, k);
    }
    forall w ensures ClaimHeld(r, w, config) {
      assert ClaimHeld(s, w, config);
    }
  }

  lemma InsertKeepsRows(r: System, tickNow: int, exchanges: seq<string>, clock: seq<int>, config: Config)
    requires Inv(r, config) && r.lastTick == tickNow <= r.now && |clock| >= |exchanges|
    requires forall i :: 0 <= i < |clock| ==> tickNow <= clock[i] <= r.now
    ensures var active := ActiveExchanges(r.rows, exchanges);
      Inv(r.(rows := Schedule(r.rows, exchanges, active, BucketStart(tickNow, MINUTE), clock)), config)
  {
    var active := ActiveExchanges(r.rows, exchanges);
    var minute := BucketStart(tickNow, MINUTE);
    var after := r.(rows := Schedule(r.rows, exchanges, active, minute, clock));
    ScheduleMeaning(r.rows, exchanges, active, minute, clock);
    forall k ensures RowWellFormed(after, k) {
      assert RowWellFormed(r, k);
    }
    forall w ensures ClaimHeld(after, w, config) {
      assert ClaimHeld(r, w, config);
    }
    forall a, k | a in after.rows && after.rows[a].IsActive() && k in after.rows && k.exchange == a.exchange
      ensures k.scheduledFor <= a.scheduledFor && (after.rows[k].IsActive() ==> k == a)
    {
      assert RowWellFormed(r, k) && RowWellFormed(r, a);
      assert a in r.rows ==> HasActive(r.rows, a.exchange);
      assert a !in r.rows ==> !HasActive(r.rows, a.exchange);
      assert k !in r.rows ==> !HasActive(r.rows, k.exchange);
    }
  }

  lemma ClaimKeepsInv(s: System, w: string, k: Key, at: int, config: Config)
    requires Inv(s, config) && Enabled(s, Claim(w, k, at), config)
    ensures Inv(Next(s, Claim(w, k, at), config), config)
  {
    var n := Next(s, Claim(w, k, at), config);
    forall k' ensures RowWellFormed(n, k') {
      assert RowWellFormed(s, k') && RowWellFormed(s, k);
    }
    forall w' ensures ClaimHeld(n, w', config) {
      assert ClaimHeld(s, w', config) && RowWellFormed(s, k);
    }
    assert s.rows[k].IsActive();
  }

  lemma FinishKeepsInv(s: System, w: string, outcome: Outcome, at: int, config: Config)
    requires Inv(s, config) && Enabled(s, Finish(w, outcome, at), config)
    ensures Inv(Next(s, Finish(w, outcome, at), config), config)
  {
    var n := Next(s, Finish(w, outcome, at), config);
    forall k ensures RowWellFormed(n, k) {
      assert RowWellFormed(s, k);
    }
    forall w' ensures ClaimHeld(n, w', config) {
      assert ClaimHeld(s, w', config) && ClaimHeld(s, w, config);
    }
  }

  lemma StepKeepsInv(s: System, step: Step, config: Config)
    requires Inv(s, config) && Enabled(s, step, config)
    ensures Inv(Next(s, step, config), config)
  {
    var n := Next(s, step, config);
    match step
    case Advance(_) =>
      forall k ensures RowWellFormed(n, k) {
        assert RowWellFormed(s, k);
      }
      forall w ensures ClaimHeld(n, w, config) {
        assert ClaimHeld(s, w, config);
      }
    case EnqueueTick(tickNow, exchanges, clock) =>
      var tick := TickFromInstant(tickNow, config);
      var r := s.(rows := Reap(s.rows, tick), lastTick := tickNow);
      ReapKeepsRows(s, tickNow, config);
      InsertKeepsRows(r, tickNow, exchanges, clock, config);
      assert n == r.(rows := Schedule(r.rows, exchanges, ActiveExchanges(r.rows, exchanges), tick.scheduledFor, clock));
    case Claim(w, k, at) =>
      ClaimKeepsInv(s, w, k, at, config);
    case Finish(w, outcome, at) =>
      FinishKeepsInv(s, w, outcome, at, config);
    case StopCollecting(_) =>
      WorkersKeepInv(s, n, config);
    case Crash(_) =>
      WorkersKeepInv(s, n, config);
  }

  lemma WorkersKeepInv(s: System, n: System, config: Config)
    requires Inv(s, config) && n == s.(workers := n.workers)
    requires n.workers.Keys <= s.workers.Keys
    requires forall w :: w in n.workers ==> n.workers[w].key == s.workers[w].key
    requires forall w :: w in n.workers ==> n.workers[w].claimedAt == s.workers[w].claimedAt
    requires forall w :: w in n.workers && n.workers[w].Collecting? ==> s.workers[w].Collecting?
    ensures Inv(n, config)
  {
    forall k ensures RowWellFormed(n, k) {
      assert RowWellFormed(s, k);
    }
    forall w ensures ClaimHeld(n, w, config) {
      assert ClaimHeld(s, w, config);
    }
  }

  lemma {:induction false} RunKeepsInv(run: seq<System>, steps: seq<Step>, config: Config, i: nat)
    requires IsRun(run, steps, config) && i < |run|
    ensures Inv(run[i], config)
  {
    if i > 0 {
      RunKeepsInv(run, steps, config, i - 1);
      StepKeepsInv(run[i - 1], steps[i - 1], config);
    }
  }

  // ---------- timed mutual exclusion ----------

  /** At every instant of every run, two different workers that are collecting work for different exchanges. */
  lemma TimedMutualExclusion(run: seq<System>, steps: seq<Step>, config: Config, i: nat, v: string, w: string)
    requires IsRun(run, steps, config) && i < |run|
    requires v in run[i].workers && run[i].workers[v].Collecting?
    requires w in run[i].workers && run[i].workers[w].Collecting?
    requires run[i].workers[v].key.exchange == run[i].workers[w].key.exchange
    ensures v == w
  {
    RunKeepsInv(run, steps, config, i);
    assert ClaimHeld(run[i], v, config) && ClaimHeld(run[i], w, config);
  }

  /**
   A finalisation is refused exactly when the reaper has failed the row, and the reaper never does so
   before the lease has ended: inside the lease every finalisation is accepted.
   */
  lemma RefusedOnlyAfterReap(run: seq<System>, steps: seq<Step>, config: Config, i: nat)
    requires IsRun(run, steps, config) && i < |steps| && steps[i].Finish?
    ensures var s, w := run[i], steps[i].worker; var p := s.workers[w];
      && (!Accepts(s.rows, p.key, w) <==> ReapedIn(s.rows, p.key))
      && (s.now <= p.claimedAt + config.Lease() ==> Accepts(s.rows, p.key, w))
      && (ReapedIn(s.rows, p.key) ==> run[i + 1].rows == s.rows)
      && w !in run[i + 1].workers
  {
    RunKeepsInv(run, steps, config, i);
    assert ClaimHeld(run[i], steps[i].worker, config);
  }

  // ---------- the life cycle of a row ----------

  /** What one row may turn into over any number of steps. */
  ghost predicate Evolves(a: Task, b: Task) {
    || a == b
    || (&& a.createdAt == b.createdAt
        && b.claimedAt.Some? && b.workerId.Some?
        && (|| (a.status.Pending? && !b.status.Pending?)
            || (a.status.Running? && (b.status.Done? || b.status.Failed?)
                && a.claimedAt == b.claimedAt && a.workerId == b.workerId)))
  }

  lemma StepEvolves(s: System, step: Step, config: Config, k: Key)
    requires Inv(s, config) && Enabled(s, step, config) && k in s.rows
    ensures k in Next(s, step, config).rows
    ensures Evolves(s.rows[k], Next(s, step, config).rows[k])
    ensures s.rows[k].status.Pending? ==>
      Next(s, step, config).rows[k].status.Pending? || Next(s, step, config).rows[k].status.Running?
  {
    assert RowWellFormed(s, k);
    if step.EnqueueTick? {
      var tick := TickFromInstant(step.tickNow, config);
      var reaped := Reap(s.rows, tick);
      ScheduleMeaning(reaped, step.exchanges, ActiveExchanges(reaped, step.exchanges), tick.scheduledFor, step.clock);
    }
  }

  /**
   Between any two instants of a run a row stays in the table and only follows
   pending -> running -> done or failed; once claimed, its worker and claim time never change, and a
   terminal row never changes at all.
   */
  lemma {:induction false} LifeCycle(run: seq<System>, steps: seq<Step>, config: Config, i: nat, j: nat, k: Key)
    requires IsRun(run, steps, config) && i <= j < |run| && k in run[i].rows
    ensures k in run[j].rows && Evolves(run[i].rows[k], run[j].rows[k])
    decreases j - i
  {
    if i < j {
      LifeCycle(run, steps, config, i, j - 1, k);
      RunKeepsInv(run, steps, config, j - 1);
      StepEvolves(run[j - 1], steps[j - 1], config, k);
      assert RowWellFormed(run[j - 1], k);
    }
  }

  lemma NotPendingAfterClaim(run: seq<System>, steps: seq<Step>, config: Config, i: nat, j: nat)
    requires IsRun(run, steps, config) && i < j < |run| && steps[i].Claim?
    ensures steps[i].key in run[j].rows && !run[j].rows[steps[i].key].status.Pending?
  {
    assert run[i + 1].rows[steps[i].key].status.Running?;
    LifeCycle(run, steps, config, i + 1, j, steps[i].key);
  }

  /** No task key is ever claimed twice in a run, whichever workers and instants are involved. */
  lemma ClaimedAtMostOnce(run: seq<System>, steps: seq<Step>, config: Config, i: nat, j: nat)
    requires IsRun(run, steps, config) && i < |steps| && j < |steps|
    requires steps[i].Claim? && steps[j].Claim? && steps[i].key == steps[j].key
    ensures i == j
  {
    if i < j {
      NotPendingAfterClaim(run, steps, config, i, j);
    } else if j < i {
      NotPendingAfterClaim(run, steps, config, j, i);
    }
  }

  /** The late finalisation of a reaped claim changes nothing, then or ever after. */
  lemma ReapedRowIsFinal(run: seq<System>, steps: seq<Step>, config: Config, i: nat, j: nat, k: Key)
    requires IsRun(run, steps, config) && i <= j < |run| && ReapedIn(run[i].rows, k)
    ensures k in run[j].rows && run[j].rows[k] == run[i].rows[k]
  {
    LifeCycle(run, steps, config, i, j, k);
  }

  // ---------- what a worker meets ----------

  predicate IsOwn(step: Step, worker: string) {
    match step
    case Claim(w, _, _) => w == worker
    case Finish(w, _, _) => w == worker
    case _ => false
  }

  /** Every step of the enqueuer and of the other workers is an interference that a worker's loop allows for. */
  lemma OthersInterfere(s: System, step: Step, config: Config, worker: string)
    requires Inv(s, config) && Enabled(s, step, config) && !IsOwn(step, worker)
    ensures Interferes(s.rows, Next(s, step, config).rows, worker)
  {
    var n := Next(s, step, config);
    if step.EnqueueTick? {
      var tick := TickFromInstant(step.tickNow, config);
      var reaped := Reap(s.rows, tick);
      var active := ActiveExchanges(reaped, step.exchanges);
      ScheduleMeaning(reaped, step.exchanges, active, tick.scheduledFor, step.clock);
      forall k | k in s.rows && s.rows[k].IsRunningFor(worker)
        ensures n.rows[k] == s.rows[k] || ReapedBy(s.rows[k], n.rows[k], tick)
      {
      }
    }
  }

  // ---------- no wedge after a crash ----------

  ghost predicate TickReaps(s: System, step: Step, config: Config, k: Key) {
    step.EnqueueTick? && k in s.rows && s.rows[k].IsStale(TickFromInstant(step.tickNow, config).staleBefore)
  }

  /** The tick added a pending row for the exchange under the key of its own minute. */
  ghost predicate TickReplaces(s: System, step: Step, config: Config, exchange: string)
    requires Enabled(s, step, config) && step.EnqueueTick?
  {
    var k := Key(exchange, BucketStart(step.tickNow, MINUTE));
    k !in s.rows && k in Next(s, step, config).rows && Next(s, step, config).rows[k].status.Pending?
  }

  /** In every reachable state each exchange has at most one pending or running task, the latest scheduled one. */
  lemma OneActiveTaskPerExchange(s: System, config: Config, a: Key, k: Key)
    requires Reachable(s, config)
    requires a in s.rows && s.rows[a].IsActive() && k in s.rows && k.exchange == a.exchange
    ensures k.scheduledFor <= a.scheduledFor
    ensures s.rows[k].IsActive() ==> k == a
  {
    ReachableKeepsInv(s, config);
  }

  lemma ReachableKeepsInv(s: System, config: Config)
    requires Reachable(s, config)
    ensures Inv(s, config)
  {
    var run, steps :| IsRun(run, steps, config) && run[|run| - 1] == s;
    RunKeepsInv(run, steps, config, |run| - 1);
  }

  /** With a lease of a minute, the tick that reaps a stale task of a listed exchange inserts its replacement. */
  lemma ReaperReplaces(s: System, step: Step, config: Config, k: Key)
    requires Inv(s, config) && Enabled(s, step, config) && TickReaps(s, step, config, k)
    requires k.exchange in step.exchanges
    requires config.Lease() + 1 >= MINUTE
    ensures TickReplaces(s, step, config, k.exchange)
  {
    var tick := TickFromInstant(step.tickNow, config);
    var reaped := Reap(s.rows, tick);
    var active := ActiveExchanges(reaped, step.exchanges);
    ScheduleMeaning(reaped, step.exchanges, active, tick.scheduledFor, step.clock);
    var replacement := Key(k.exchange, tick.scheduledFor);
    assert RowWellFormed(s, k) && s.rows[k].IsActive();
    assert k.scheduledFor <= s.rows[k].claimedAt.value;
    assert k.scheduledFor < tick.scheduledFor;
    assert replacement !in s.rows;
    assert !HasActive(reaped, k.exchange);
  }

  // A run that reaps too early: schedule, claim and crash at the epoch, tick again after the lease.

  const X := "x"
  const W := "w"

  ghost function ShortLeaseSteps(config: Config): seq<Step> {
    [EnqueueTick(0, [X], [0]), Claim(W, Key(X, 0), 0), Crash(W), Advance(config.Lease() + 1)]
  }

  ghost function ShortLeaseTick(config: Config): Step {
    EnqueueTick(config.Lease() + 1, [X], [config.Lease() + 1])
  }

  lemma SingleSchedule(rows: Rows, active: set<string>, scheduledFor: int, createdAt: int)
    ensures Schedule(rows, [X], active, scheduledFor, [createdAt])
         == if X in active then rows else InsertIfAbsent(rows, Key(X, scheduledFor), createdAt)
  {
    assert [X][..0] == [];
  }

  /** The table after the claim: one running row, claimed at the epoch. */
  ghost function ClaimedAtEpoch(): Rows {
    map[Key(X, 0) := ClaimedRow(PendingRow(0), W, 0)]
  }

  lemma ShortLeaseRun(config: Config) returns (run: seq<System>)
    requires config.Lease() + 1 < MINUTE
    ensures IsRun(run, ShortLeaseSteps(config), config)
    ensures run[4] == System(ClaimedAtEpoch(), config.Lease() + 1, 0, map[])
  {
    var s0 := System(map[], 0, 0, map[]);
    assert ActiveExchanges(Reap(s0.rows, TickFromInstant(0, config)), [X]) == {};
    SingleSchedule(map[], {}, 0, 0);
    var s1 := System(map[Key(X, 0) := PendingRow(0)], 0, 0, map[]);
    var s2 := System(ClaimedAtEpoch(), 0, 0, map[W := Collecting(Key(X, 0), 0)]);
    var s3 := System(ClaimedAtEpoch(), 0, 0, map[]);
    var s4 := System(ClaimedAtEpoch(), config.Lease() + 1, 0, map[]);
    var steps := ShortLeaseSteps(config);
    assert s1 == Next(s0, steps[0], config);
    assert s2 == Next(s1, steps[1], config);
    assert s3 == Next(s2, steps[2], config);
    assert s4 == Next(s3, steps[3], config);
    run := [s0, s1, s2, s3, s4];
  }

  /** The next tick reaps the row and then finds its key taken. */
  lemma ShortLeaseTickReaps(s: System, config: Config)
    requires config.Lease() + 1 < MINUTE
    requires s == System(ClaimedAtEpoch(), config.Lease() + 1, 0, map[])
    ensures Enabled(s, ShortLeaseTick(config), config)
    ensures TickReaps(s, ShortLeaseTick(config), config, Key(X, 0))
    ensures !TickReplaces(s, ShortLeaseTick(config), config, X)
    ensures !HasActive(Next(s, ShortLeaseTick(config), config).rows, X)
  {
    var tick := TickFromInstant(config.Lease() + 1, config);
    assert tick.scheduledFor == 0;
    var reaped := Reap(s.rows, tick);
    SingleSchedule(reaped, ActiveExchanges(reaped, [X]), 0, config.Lease() + 1);
  }

  /**
   Exactly when the lease covers a whole minute bucket (to the microsecond), every tick of every
   reachable state that reaps a listed exchange's stale task also inserts its replacement.
   */
  lemma ReplacementIffLeaseCoversMinute(config: Config)
    ensures (forall s, step, k ::
               && Reachable(s, config) && Enabled(s, step, config)
               && TickReaps(s, step, config, k) && k.exchange in step.exchanges
               ==> TickReplaces(s, step, config, k.exchange))
            <==> config.Lease() + 1 >= MINUTE
  {
    if config.Lease() + 1 >= MINUTE {
      forall s, step, k | Reachable(s, config) && Enabled(s, step, config) && TickReaps(s, step, config, k)
                          && k.exchange in step.exchanges
        ensures TickReplaces(s, step, config, k.exchange)
      {
        ReachableKeepsInv(s, config);
        ReaperReplaces(s, step, config, k);
      }
    } else {
      var run := ShortLeaseRun(config);
      assert Reachable(run[4], config);
      ShortLeaseTickReaps(run[4], config);
      assert X in [X];
    }
  }
}
