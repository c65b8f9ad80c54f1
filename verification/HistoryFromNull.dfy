/**
 Backfill and update jobs that start while nothing is stored, so that both take their windows from the clock.

 Several such jobs may be in flight when the first batch is committed; the others commit later. What keeps
 their windows together is the timeout of a job, a backward window of at least two hours, and a timeline
 without a trap: a settlement that lies after one possible request and before the window of another.
 */
module HistoryFromNull {
  import opened Prelude
  import opened HistoryStore
  import opened HistoryProtocol

  /** Both history jobs are cancelled after 59 minutes. */
  const JOB_TIMEOUT := 59 * 60 * SECOND

  /** An update reads its clock right after the checkpoint; a minute is more than enough. */
  const CLOCK_LAG := 60 * SECOND

  /** The step of a job comes before its timeout. */
  predicate Timely(s: System, step: Step) {
    match step
    case ReadClock(j) => j in s.jobs ==> s.now <= s.jobs[j].loaded + CLOCK_LAG
    case Fetch(j, _) => j in s.jobs ==> s.now <= s.jobs[j].loaded + JOB_TIMEOUT
    case Persist(j) => j in s.jobs ==> s.now <= s.jobs[j].loaded + JOB_TIMEOUT
    case _ => true
  }

  ghost predicate IsTimelyRun(run: seq<System>, steps: seq<Step>, e: Exchange) {
    IsFaithfulRun(run, steps, e) && forall i :: 0 <= i < |steps| ==> Timely(run[i], steps[i])
  }

  // ---------- timelines that can be missed ----------

  /**
   A request at `a` that gets the settlement `s`, and a later update whose window starts a second before the hour
   `h` and holds `u`: the settlement `t` lies between the two.
   */
  ghost predicate Trap(e: Exchange, h: int, a: int, s: int, t: int, u: int) {
    && h % HOUR == 0 && h - HOUR <= a
    && s in e.history && t in e.history && u in e.history
    && a - e.fetchStep <= s <= a < t < h - SECOND <= u <= a + 2 * JOB_TIMEOUT
  }

  ghost predicate TrapFree(e: Exchange) {
    forall h, a, s, t, u :: !Trap(e, h, a, s, t, u)
  }

  /** What the results assume of an exchange; the smallest fetch step of any adapter is six hours. */
  ghost predicate Regular(e: Exchange) {
    SecondApart(e.history) && e.fetchStep >= 2 * HOUR
  }

  ghost predicate WholeHours(h: map<int, real>) {
    forall t :: t in h ==> t % HOUR == 0
  }

  /** Settlements on whole hours, at whatever intervals, have no trap. */
  lemma WholeHoursAreSafe(e: Exchange)
    requires WholeHours(e.history)
    ensures SecondApart(e.history) && TrapFree(e)
  {
    forall t, u | t in e.history && u in e.history && t < u ensures t + SECOND <= u {
      HoursApart(t, u);
    }
    forall h, a, s, t, u ensures !Trap(e, h, a, s, t, u) {
      if t in e.history && h % HOUR == 0 && t < h {
        HoursApart(t, h);
      }
    }
  }

  lemma HoursApart(t: int, u: int)
    requires t % HOUR == 0 && u % HOUR == 0 && t < u
    ensures t + HOUR <= u
  {
  }

  /** Settlements two hours apart have none either, at any second; 118 minutes are enough. */
  lemma TwoHoursApartAreSafe(e: Exchange)
    requires forall t, u :: t in e.history && u in e.history && t < u ==> t + 2 * JOB_TIMEOUT <= u
    ensures SecondApart(e.history) && TrapFree(e)
  {
  }

  // ---------- jobs without bounds ----------

  /** A job that has read null bounds: its window is taken from the clock. */
  ghost predicate NullJob(s: System, job: Job, e: Exchange) {
    && job.loaded <= s.now
    && match job
       case BackfillReady(_, before, has) => before.None? && !has
       case BackfillFetched(loaded, before, has, at, batch) =>
         before.None? && !has && loaded <= at <= s.now && HoldsAll(e, batch, at - e.fetchStep, at)
       case UpdateLoaded(_, c) => c.newest.None?
       case UpdateReady(loaded, clock, after) =>
         loaded <= clock <= s.now && after == BucketStart(clock, HOUR) - SECOND
       case UpdateFetched(loaded, clock, after, at, batch) =>
         && loaded <= clock <= at <= s.now && after == BucketStart(clock, HOUR) - SECOND
         && HoldsAll(e, batch, after, at)
  }

  predicate Prompt(job: Job) {
    job.UpdateReady? || job.UpdateFetched? ==> job.clock <= job.loaded + CLOCK_LAG
  }

  predicate Fetched(job: Job) {
    job.BackfillFetched? || job.UpdateFetched?
  }

  function WindowStart(job: Job, e: Exchange): int
    requires Fetched(job)
  {
    if job.BackfillFetched? then job.at - e.fetchStep else job.after
  }

  /** Nothing is stored yet. */
  ghost predicate Fresh(s: System, e: Exchange) {
    && Exact(s.db) && s.db.points == map[]
    && forall j :: j in s.jobs ==> NullJob(s, s.jobs[j], e)
  }

  ghost predicate AllPrompt(s: System) {
    forall j :: j in s.jobs ==> Prompt(s.jobs[j])
  }

  /** Some request that got `s` was made at `a`, late enough, and nothing up to `a` is newer than `newest`. */
  ghost predicate Covers(e: Exchange, loaded: int, newest: int, a: int, s: int) {
    && loaded - JOB_TIMEOUT <= a
    && s in e.history && a - e.fetchStep <= s <= a
    && forall t :: t in e.history && newest < t ==> a < t
  }

  /** No exchange point lies between the stored range and what this job can still commit. */
  ghost predicate Meets(s: System, job: Job, e: Exchange)
    requires Contiguous(s, e)
  {
    var lo, hi := s.db.checkpoint.oldest.value, s.db.checkpoint.newest.value;
    if Fetched(job) then
      job.batch != [] && s.now <= job.loaded + JOB_TIMEOUT ==>
        forall t :: t in e.history ==> !(job.at < t < lo) && !(hi < t < WindowStart(job, e))
    else
      exists a, p :: Covers(e, job.loaded, hi, a, p)
  }

  /** A job without bounds that is still in flight after the first commit. */
  ghost predicate Straggler(s: System, job: Job, e: Exchange)
    requires Contiguous(s, e)
  {
    NullJob(s, job, e) && Prompt(job) && Meets(s, job, e)
  }

  /** Something is stored, without gaps, and every job in flight continues it. */
  ghost predicate Settled(s: System, e: Exchange) {
    && Contiguous(s, e)
    && forall j :: j in s.jobs ==> Anchored(s, s.jobs[j], e) || Straggler(s, s.jobs[j], e)
  }

  // ---------- the first commit ----------

  lemma FirstCommitIsContiguous(s: System, e: Exchange, batch: seq<Point>, start: int, end: int)
    requires Exact(s.db) && s.db.points == map[] && batch != []
    requires end <= s.now && HoldsAll(e, batch, start, end)
    ensures Contiguous(s.(db := Commit(s.db, batch)), e)
    ensures var c := Commit(s.db, batch).checkpoint;
      && Stamps(batch) != {} && c.oldest.value == Least(Stamps(batch)) && c.newest.value == Greatest(Stamps(batch))
  {
    CommitExtremes(s.db, batch);
    assert Commit(s.db, batch).points.Keys == Stamps(batch);
  }

  /** A fetched batch without bounds lies within the fetch step before its request. */
  lemma BatchWithin(s: System, e: Exchange, job: Job, t: int)
    requires NullJob(s, job, e) && Fetched(job) && e.fetchStep >= 2 * HOUR && job.at <= job.loaded + JOB_TIMEOUT
    requires t in Stamps(job.batch)
    ensures t in e.history && job.at - e.fetchStep <= WindowStart(job, e) <= t <= job.at
  {
  }

  /** Without a trap no settlement lies between a request that got `p` and the window of a job that got `u`. */
  lemma NoneBetween(s: System, e: Exchange, a: int, p: int, job: Job, u: int, t: int)
    requires Regular(e) && TrapFree(e) && p in e.history && a - e.fetchStep <= p <= a
    requires NullJob(s, job, e) && Fetched(job) && u in Stamps(job.batch)
    requires job.at <= a + 2 * JOB_TIMEOUT && (job.UpdateFetched? ==> job.clock <= a + HOUR)
    requires t in e.history
    ensures !(a < t < WindowStart(job, e))
  {
    if job.UpdateFetched? {
      assert !Trap(e, BucketStart(job.clock, HOUR), a, p, t, u);
    }
  }

  /** The window of the first commit reaches every window that another job in flight has asked for. */
  lemma FetchedWindowsMeet(s: System, n: System, e: Exchange, first: Job, other: Job, p: int, q: int)
    requires NullJob(s, first, e) && Prompt(first) && Fetched(first) && s.now <= first.loaded + JOB_TIMEOUT
    requires NullJob(s, other, e) && Prompt(other) && Fetched(other) && s.now <= other.loaded + JOB_TIMEOUT
    requires Regular(e) && TrapFree(e) && p in Stamps(first.batch) && q in Stamps(other.batch)
    requires Contiguous(n, e) && n.now == s.now
    requires n.db.checkpoint.oldest.value == Least(Stamps(first.batch))
    requires n.db.checkpoint.newest.value == Greatest(Stamps(first.batch))
    ensures Meets(n, other, e)
  {
    var lo, hi := n.db.checkpoint.oldest.value, n.db.checkpoint.newest.value;
    BatchWithin(s, e, first, p);
    BatchWithin(s, e, other, q);
    forall t | t in e.history ensures !(other.at < t < lo) && !(hi < t < WindowStart(other, e)) {
      assert t !in Stamps(first.batch) ==> t < WindowStart(first, e) || first.at < t;
      NoneBetween(s, e, first.at, p, other, q, t);
      NoneBetween(s, e, other.at, q, first, p, t);
    }
  }

  /** And every window that another job in flight can still ask for. */
  lemma WindowsMeet(s: System, n: System, e: Exchange, first: Job, other: Job)
    requires NullJob(s, first, e) && Prompt(first) && Fetched(first) && s.now <= first.loaded + JOB_TIMEOUT
    requires NullJob(s, other, e) && Prompt(other) && Regular(e) && TrapFree(e)
    requires Contiguous(n, e) && n.now == s.now && Stamps(first.batch) != {}
    requires n.db.checkpoint.oldest.value == Least(Stamps(first.batch))
    requires n.db.checkpoint.newest.value == Greatest(Stamps(first.batch))
    ensures Meets(n, other, e)
  {
    var p := Least(Stamps(first.batch));
    if !Fetched(other) {
      BatchWithin(s, e, first, p);
      forall t | t in e.history && n.db.checkpoint.newest.value < t ensures first.at < t {
        assert t !in Stamps(first.batch);
      }
      assert Covers(e, other.loaded, n.db.checkpoint.newest.value, first.at, p);
    } else if other.batch != [] && s.now <= other.loaded + JOB_TIMEOUT {
      StampsNonempty(other.batch);
      FetchedWindowsMeet(s, n, e, first, other, p, Least(Stamps(other.batch)));
    }
  }

  /** A committed backfill goes on from the oldest point it has just stored. */
  lemma BackfillGoesOn(n: System, e: Exchange, loaded: int, first: int)
    requires Contiguous(n, e) && first in n.db.points
    ensures Anchored(n, BackfillReady(loaded, Some(first - SECOND), true), e)
  {
  }

  lemma FirstCommit(s: System, e: Exchange, j: nat)
    requires Fresh(s, e) && AllPrompt(s) && Regular(e) && TrapFree(e)
    requires Enabled(s, Persist(j)) && Timely(s, Persist(j)) && s.jobs[j].batch != []
    ensures Settled(Next(s, Persist(j)), e)
  {
    var job, n := s.jobs[j], Next(s, Persist(j));
    FirstCommitIsContiguous(s, e, job.batch, WindowStart(job, e), job.at);
    assert n.db == Commit(s.db, job.batch) && n.now == s.now;
    forall k | k in n.jobs ensures Anchored(n, n.jobs[k], e) || Straggler(n, n.jobs[k], e) {
      if k == j {
        BackfillGoesOn(n, e, job.loaded, Least(Stamps(job.batch)));
      } else {
        assert n.jobs[k] == s.jobs[k];
        WindowsMeet(s, n, e, job, s.jobs[k]);
      }
    }
  }

  // ---------- later commits ----------

  /** Two complete windows with no exchange point between them are one. */
  lemma Join(e: Exchange, stored: set<int>, lo: int, hi: int, got: set<int>, start: int, end: int, least: int,
             greatest: int)
    requires IsRange(e, stored, lo, hi) && IsRange(e, got, start, end)
    requires forall t :: t in e.history ==> !(end < t < lo) && !(hi < t < start)
    requires least in stored + got && greatest in stored + got
    requires forall t :: t in stored + got ==> least <= t <= greatest
    ensures IsRange(e, stored + got, least, greatest)
  {
  }

  lemma LateCommit(s: System, e: Exchange, job: Job)
    requires Contiguous(s, e) && Fetched(job) && Straggler(s, job, e)
    requires s.now <= job.loaded + JOB_TIMEOUT && job.batch != []
    ensures Contiguous(s.(db := Commit(s.db, job.batch)), e)
    ensures Stamps(job.batch) != {} && Least(Stamps(job.batch)) in Commit(s.db, job.batch).points
  {
    var c, db := s.db.checkpoint, Commit(s.db, job.batch);
    CommitExtremes(s.db, job.batch);
    Join(e, s.db.points.Keys, c.oldest.value, c.newest.value, Stamps(job.batch), WindowStart(job, e), job.at,
         db.checkpoint.oldest.value, db.checkpoint.newest.value);
  }

  /** Growing bounds only bring a straggler closer. */
  lemma StragglerSurvives(s: System, n: System, e: Exchange, job: Job)
    requires Contiguous(s, e) && Contiguous(n, e) && Grows(s.db, n.db) && s.now <= n.now
    requires Straggler(s, job, e)
    ensures Straggler(n, job, e)
  {
    if !Fetched(job) {
      var a, p :| Covers(e, job.loaded, s.db.checkpoint.newest.value, a, p);
      assert Covers(e, job.loaded, n.db.checkpoint.newest.value, a, p);
    }
  }

  lemma SettledIsSound(s: System, e: Exchange)
    requires Settled(s, e)
    ensures Sound(s)
    ensures forall j :: j in s.jobs && HasStored(s.jobs[j]) ==> Anchored(s, s.jobs[j], e)
  {
    forall j | j in s.jobs && HasStored(s.jobs[j]) ensures Anchored(s, s.jobs[j], e) {}
  }

  lemma PersistKeepsSettled(s: System, j: nat, e: Exchange)
    requires Settled(s, e) && SecondApart(e.history) && Enabled(s, Persist(j)) && Timely(s, Persist(j))
    ensures Settled(Next(s, Persist(j)), e)
  {
    var job, n := s.jobs[j], Next(s, Persist(j));
    SettledIsSound(s, e);
    StepKeepsSound(s, Persist(j));
    if Anchored(s, job, e) {
      PersistKeepsContiguous(s, j, e);
    } else if job.batch != [] {
      LateCommit(s, e, job);
      BackfillGoesOn(n, e, job.loaded, Least(Stamps(job.batch)));
    }
    OthersStaySettled(s, n, e);
  }

  /** A job that is as it was continues the stored range as it did. */
  lemma OthersStaySettled(s: System, n: System, e: Exchange)
    requires Settled(s, e) && Contiguous(n, e) && Grows(s.db, n.db) && s.now <= n.now
    requires forall k :: k in n.jobs ==>
               || (k in s.jobs && n.jobs[k] == s.jobs[k])
               || Anchored(n, n.jobs[k], e) || Straggler(n, n.jobs[k], e)
    ensures Settled(n, e)
  {
    forall k | k in n.jobs && k in s.jobs && n.jobs[k] == s.jobs[k]
      ensures Anchored(n, n.jobs[k], e) || Straggler(n, n.jobs[k], e)
    {
      if Anchored(s, s.jobs[k], e) {
        AnchorsSurvive(s, n, e, s.jobs[k]);
      } else {
        StragglerSurvives(s, n, e, s.jobs[k]);
      }
    }
  }

  /** What a straggler asks for after the first commit still reaches the stored range. */
  lemma StragglerFetches(s: System, step: Step, e: Exchange)
    requires Contiguous(s, e) && Regular(e) && TrapFree(e)
    requires Enabled(s, step) && step.Fetch? && FaithfulFetch(s, step, e) && Timely(s, step)
    requires Straggler(s, s.jobs[step.job], e)
    ensures Straggler(Next(s, step), Next(s, step).jobs[step.job], e)
  {
    var n, job := Next(s, step), s.jobs[step.job];
    var fetched, hi := n.jobs[step.job], s.db.checkpoint.newest.value;
    assert HoldsAll(e, fetched.batch, WindowStart(fetched, e), fetched.at);
    var a, p :| Covers(e, job.loaded, hi, a, p);
    if fetched.batch != [] {
      StampsNonempty(fetched.batch);
      forall t | t in e.history ensures !(hi < t < WindowStart(fetched, e)) {
        NoneBetween(n, e, a, p, fetched, Least(Stamps(fetched.batch)), t);
      }
    }
  }

  lemma StepKeepsSettled(s: System, step: Step, e: Exchange)
    requires Settled(s, e) && Regular(e) && TrapFree(e)
    requires Enabled(s, step) && FaithfulFetch(s, step, e) && Timely(s, step)
    ensures Settled(Next(s, step), e)
  {
    var n := Next(s, step);
    if step.Persist? {
      PersistKeepsSettled(s, step.job, e);
    } else {
      if step.Fetch? && Anchored(s, s.jobs[step.job], e) {
        FetchKeepsAnchored(s, step, e);
      } else if step.Fetch? {
        StragglerFetches(s, step, e);
      }
      OthersStaySettled(s, n, e);
    }
  }

  // ---------- before the first commit ----------

  lemma StepKeepsFresh(s: System, step: Step, e: Exchange)
    requires Fresh(s, e) && Enabled(s, step) && FaithfulFetch(s, step, e)
    requires step.Persist? ==> s.jobs[step.job].batch == []
    ensures Fresh(Next(s, step), e)
  {
    var n := Next(s, step);
    if step.Fetch? {
      var fetched := n.jobs[step.job];
      assert NullJob(s, s.jobs[step.job], e);
      assert HoldsAll(e, fetched.batch, WindowStart(fetched, e), fetched.at);
    }
    if step.Persist? {
      assert NullJob(s, s.jobs[step.job], e);
    }
  }

  lemma StepKeepsPrompt(s: System, step: Step)
    requires AllPrompt(s) && Enabled(s, step) && Timely(s, step)
    ensures AllPrompt(Next(s, step))
  {
  }

  /**
   From a contract without any history every interleaving of timely jobs is gap-free at every instant of a
   timeline without a trap, and the flag means completeness when settlements are never further apart than the window.
   */
  lemma {:induction false} GapFreeFromNull(run: seq<System>, steps: seq<Step>, e: Exchange, i: nat)
    requires IsTimelyRun(run, steps, e) && Regular(e) && TrapFree(e) && run[0].db == EMPTY && i < |run|
    ensures (Fresh(run[i], e) && AllPrompt(run[i])) || Settled(run[i], e)
    ensures GapFree(run[i].db, e)
    ensures GapsWithinStep(e) ==> SyncComplete(run[i].db, e)
  {
    if i > 0 {
      var s, step := run[i - 1], steps[i - 1];
      GapFreeFromNull(run, steps, e, i - 1);
        if Settled(s, e) {
        StepKeepsSettled(s, step, e);
        SettledIsSound(s, e);
        if GapsWithinStep(e) {
          SyncStep(s, step, e);
        }
      } else if step.Persist? && s.jobs[step.job].batch != [] {
        FirstCommit(s, e, step.job);
      } else {
        StepKeepsFresh(s, step, e);
        StepKeepsPrompt(s, step);
      }
    }
  }

  // ---------- settlements at any second, when the first batch has no competitor ----------

  ghost predicate AtMostOne(s: System) {
    forall j, k :: j in s.jobs && k in s.jobs ==> j == k
  }

  /** While nothing is stored, a job starts only when no other is in flight. */
  predicate SerialWhileEmpty(s: System, step: Step) {
    s.db.points == map[] && (step.LoadBackfill? || step.LoadUpdate?) ==> s.jobs == map[]
  }

  lemma UncontestedCommit(s: System, e: Exchange, j: nat)
    requires Fresh(s, e) && AtMostOne(s) && Enabled(s, Persist(j)) && s.jobs[j].batch != []
    ensures Inv(Next(s, Persist(j)), e)
  {
    var job, n := s.jobs[j], Next(s, Persist(j));
    FirstCommitIsContiguous(s, e, job.batch, WindowStart(job, e), job.at);
    assert n.db == Commit(s.db, job.batch) && n.now == s.now;
    forall k | k in n.jobs ensures Anchored(n, n.jobs[k], e) {
      assert k == j;
      BackfillGoesOn(n, e, job.loaded, Least(Stamps(job.batch)));
    }
  }

  /** A contract whose first batch is fetched and committed alone is gap-free for ever after, at any pace. */
  lemma {:induction false} GapFreeWhenUncontested(run: seq<System>, steps: seq<Step>, e: Exchange, i: nat)
    requires IsFaithfulRun(run, steps, e) && SecondApart(e.history) && run[0].db == EMPTY && i < |run|
    requires forall k :: 0 <= k < |steps| ==> SerialWhileEmpty(run[k], steps[k])
    ensures (Fresh(run[i], e) && AtMostOne(run[i])) || Inv(run[i], e)
    ensures GapFree(run[i].db, e)
    ensures GapsWithinStep(e) ==> SyncComplete(run[i].db, e)
  {
    if i > 0 {
      var s, step := run[i - 1], steps[i - 1];
      GapFreeWhenUncontested(run, steps, e, i - 1);
      if Inv(s, e) {
        StepKeepsInv(s, step, e);
        AnchoredIsSound(s, e);
        if GapsWithinStep(e) {
          SyncStep(s, step, e);
        }
      } else if step.Persist? && s.jobs[step.job].batch != [] {
        UncontestedCommit(s, e, step.job);
      } else {
        StepKeepsFresh(s, step, e);
      }
    }
  }

  // ---------- a settlement off the hour ----------

  const MINUTE := 60 * SECOND

  /** Settlements at 01:00, 01:30 and 02:00, and the smallest fetch step of any adapter. */
  ghost function OffHourExchange(): Exchange {
    Exchange(map[HOUR := 0.1, HOUR + 30 * MINUTE := 0.2, 2 * HOUR := 0.3], 6 * HOUR)
  }

  const EARLY := HOUR + 5 * MINUTE
  const LATE := 2 * HOUR + 5 * SECOND

  ghost function OffHourSteps(): seq<Step> {
    [LoadBackfill(0), Fetch(0, [Point(HOUR, 0.1)]), Advance(LATE), LoadUpdate(1), ReadClock(1),
     Fetch(1, [Point(2 * HOUR, 0.3)]), Advance(LATE + MINUTE), Persist(0), Persist(1)]
  }

  lemma PointWindow(h: map<int, real>, t: int, start: int, end: int)
    requires t in h && start <= t <= end
    requires forall u :: u in h && start <= u <= end ==> u == t
    ensures IsAnswer([Point(t, h[t])], h, start, end, end)
  {
    var batch := [Point(t, h[t])];
    assert forall p :: p in batch <==> p == Point(t, h[t]);
    assert Stamps(batch) == {t};
    assert Window(h, start, end, end) == {t};
  }

  lemma SinglePointCommit(db: Db, p: Point)
    requires p.timestamp !in db.points
    ensures Commit(db, [p])
         == Db(db.points[p.timestamp := p.rate], MergeBounds(db.checkpoint, p.timestamp, p.timestamp))
  {
    StampsSplit([p], 1);
    assert [p][..1] == [p] && [p][..0] == [];
    assert InsertAll(db.points, [p][..0]) == db.points;
    assert Stamps([p]) == {p.timestamp};
  }

  ghost function FirstBatch(): Job {
    BackfillFetched(EARLY, None, false, EARLY, [Point(HOUR, 0.1)])
  }

  ghost function SecondBatch(): Job {
    UpdateFetched(LATE, LATE, 2 * HOUR - SECOND, LATE, [Point(2 * HOUR, 0.3)])
  }

  /** Both jobs have loaded null bounds and fetched. */
  ghost function BothFetched(now: int): System {
    System(EMPTY, now, map[0 := FirstBatch(), 1 := SecondBatch()], 0)
  }

  lemma FetchBoth() returns (run: seq<System>)
    ensures |run| == 8 && run[0].db == EMPTY && run[7] == BothFetched(LATE + MINUTE)
    ensures IsTimelyRun(run, OffHourSteps()[..7], OffHourExchange())
  {
    var e, steps := OffHourExchange(), OffHourSteps()[..7];
    var s0 := System(EMPTY, EARLY, map[], 0);
    var s1 := System(EMPTY, EARLY, map[0 := BackfillReady(EARLY, None, false)], 0);
    var s2 := System(EMPTY, EARLY, map[0 := FirstBatch()], 0);
    var s3 := System(EMPTY, LATE, map[0 := FirstBatch()], 0);
    var s4 := System(EMPTY, LATE, map[0 := FirstBatch(), 1 := UpdateLoaded(LATE, EMPTY.checkpoint)], 0);
    var s5 := System(EMPTY, LATE, map[0 := FirstBatch(), 1 := UpdateReady(LATE, LATE, 2 * HOUR - SECOND)], 0);
    PointWindow(e.history, HOUR, EARLY - e.fetchStep, EARLY);
    PointWindow(e.history, 2 * HOUR, 2 * HOUR - SECOND, LATE);
    BucketIsQuotient(LATE, 2, HOUR);
    run := [s0, s1, s2, s3, s4, s5, BothFetched(LATE), BothFetched(LATE + MINUTE)];
  }

  lemma PersistBoth() returns (s8: System, s9: System)
    ensures var s7 := BothFetched(LATE + MINUTE);
      && Enabled(s7, Persist(0)) && Timely(s7, Persist(0)) && s8 == Next(s7, Persist(0))
      && Enabled(s8, Persist(1)) && Timely(s8, Persist(1)) && s9 == Next(s8, Persist(1))
      && !GapFree(s9.db, OffHourExchange())
  {
    var s7 := BothFetched(LATE + MINUTE);
    SinglePointCommit(EMPTY, Point(HOUR, 0.1));
    s8 := Next(s7, Persist(0));
    assert s8.db == Db(map[HOUR := 0.1], Checkpoint(false, Some(HOUR), Some(HOUR)));
    assert 1 in s8.jobs && s8.jobs[1] == SecondBatch();
    SinglePointCommit(s8.db, Point(2 * HOUR, 0.3));
    s9 := Next(s8, Persist(1));
    assert s9.db.checkpoint == Checkpoint(false, Some(HOUR), Some(2 * HOUR));
    assert HOUR + 30 * MINUTE in OffHourExchange().history && HOUR + 30 * MINUTE !in s9.db.points;
  }

  /**
   Of the hypotheses of `GapFreeFromNull` only the absence of traps fails here: the backfill holds its batch for 56
   minutes, the update is loaded and fetched within them, and 01:30 is missing between 01:00 and 02:00.
   */
  lemma OffHourSettlementMayBeMissed() returns (run: seq<System>)
    ensures var e := OffHourExchange();
      && IsTimelyRun(run, OffHourSteps(), e) && run[0].db == EMPTY
      && e.fetchStep == 6 * HOUR && Regular(e) && Trap(e, 2 * HOUR, EARLY, HOUR, HOUR + 30 * MINUTE, 2 * HOUR)
      && !GapFree(run[|run| - 1].db, e)
  {
    var e, steps := OffHourExchange(), OffHourSteps();
    var prefix := FetchBoth();
    var s8, s9 := PersistBoth();
    run := prefix + [s8, s9];
    forall i | 0 <= i < |steps|
      ensures Enabled(run[i], steps[i]) && run[i + 1] == Next(run[i], steps[i])
      ensures FaithfulFetch(run[i], steps[i], e) && Timely(run[i], steps[i])
    {
      if i < 7 {
        assert steps[i] == steps[..7][i] && run[i] == prefix[i] && run[i + 1] == prefix[i + 1];
      } else if i == 7 {
        assert run[i] == BothFetched(LATE + MINUTE) && steps[i] == Persist(0) && run[i + 1] == s8;
      } else {
        assert run[i] == s8 && steps[i] == Persist(1) && run[i + 1] == s9;
      }
    }
  }
}
