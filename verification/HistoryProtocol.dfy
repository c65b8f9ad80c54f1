/**
 Backfill and update jobs of one contract, interleaved at their await points.

 A job loads the checkpoint, asks the exchange, commits a batch, and may be cut at any of these points.
 Any number of jobs run at once. The first group of results holds for any adapter whatsoever; the second
 assumes that every answer holds exactly the settled points of the requested window.
 */
module HistoryProtocol {
  import opened Prelude
  import opened HistoryStore

  /**
   What a job holds in memory. `loaded` is the instant it read the checkpoint, `clock` the one its first update
   window is derived from, and `at` the one it sent its request.
   */
  datatype Job =
    | BackfillReady(loaded: int, before: Option<int>, hasStored: bool)
    | BackfillFetched(loaded: int, before: Option<int>, hasStored: bool, at: int, batch: seq<Point>)
    | UpdateLoaded(loaded: int, checkpoint: Checkpoint)
    | UpdateReady(loaded: int, clock: int, after: int)
    | UpdateFetched(loaded: int, clock: int, after: int, at: int, batch: seq<Point>)

  /** `written` is the sum of `points_written` over every committed batch. */
  datatype System = System(db: Db, now: int, jobs: map<nat, Job>, written: int)

  datatype Step =
    | Advance(now: int)
    | LoadBackfill(job: nat)
    | LoadUpdate(job: nat)
    | ReadClock(job: nat)
    | Fetch(job: nat, batch: seq<Point>)
    | Persist(job: nat)
    | Cut(job: nat)

  function InitialBefore(c: Checkpoint): Option<int> {
    if c.oldest.None? then None else Some(c.oldest.value - SECOND)
  }

  function NextFetchTimestamp(c: Checkpoint, now: int): int {
    if c.newest.None? then BucketStart(now, HOUR) - SECOND else c.newest.value + SECOND
  }

  predicate Enabled(s: System, step: Step) {
    match step
    case Advance(now) => s.now <= now
    case LoadBackfill(j) => j !in s.jobs && !s.db.checkpoint.synced
    case LoadUpdate(j) => j !in s.jobs
    case ReadClock(j) => j in s.jobs && s.jobs[j].UpdateLoaded?
    case Fetch(j, _) => j in s.jobs && (s.jobs[j].BackfillReady? || s.jobs[j].UpdateReady?)
    case Persist(j) => j in s.jobs && (s.jobs[j].BackfillFetched? || s.jobs[j].UpdateFetched?)
    case Cut(j) => j in s.jobs
  }

  function Next(s: System, step: Step): System
    requires Enabled(s, step)
  {
    match step
    case Advance(now) => s.(now := now)
    case LoadBackfill(j) =>
      var c := s.db.checkpoint;
      s.(jobs := s.jobs[j := BackfillReady(s.now, InitialBefore(c), c.oldest.Some?)])
    case LoadUpdate(j) => s.(jobs := s.jobs[j := UpdateLoaded(s.now, s.db.checkpoint)])
    case ReadClock(j) =>
      var job := s.jobs[j];
      s.(jobs := s.jobs[j := UpdateReady(job.loaded, s.now, NextFetchTimestamp(job.checkpoint, s.now))])
    case Fetch(j, batch) =>
      var job := s.jobs[j];
      var fetched :=
        if job.BackfillReady? then BackfillFetched(job.loaded, job.before, job.hasStored, s.now, batch)
        else UpdateFetched(job.loaded, job.clock, job.after, s.now, batch);
      s.(jobs := s.jobs[j := fetched])
    case Persist(j) => PersistNext(s, j)
    case Cut(j) => s.(jobs := s.jobs - {j})
  }

  /** The transaction after an answer: commit a batch, or end the job on an empty one. */
  function PersistNext(s: System, j: nat): System
    requires Enabled(s, Persist(j))
  {
    var job := s.jobs[j];
    if job.batch == [] then
      s.(db := if job.BackfillFetched? && job.hasStored then MarkSynced(s.db) else s.db, jobs := s.jobs - {j})
    else
      StampsNonempty(job.batch);
      s.(db := Commit(s.db, job.batch),
         written := s.written + Inserted(s.db.points, job.batch),
         jobs := if job.UpdateFetched? then s.jobs - {j}
                 else s.jobs[j := BackfillReady(job.loaded, Some(Least(Stamps(job.batch)) - SECOND), true)])
  }

  ghost predicate IsRun(run: seq<System>, steps: seq<Step>) {
    && |run| == |steps| + 1
    && run[0].jobs == map[]
    && forall i :: 0 <= i < |steps| ==> Enabled(run[i], steps[i]) && run[i + 1] == Next(run[i], steps[i])
  }

  // ---------- any adapter: exact checkpoint, first writer wins, conservation ----------

  ghost predicate HasStored(job: Job) {
    (job.BackfillReady? || job.BackfillFetched?) && job.hasStored
  }

  ghost predicate Sound(s: System) {
    && Exact(s.db)
    && forall j :: j in s.jobs && HasStored(s.jobs[j]) ==> s.db.checkpoint.oldest.Some?
  }

  /** What no step ever undoes. */
  ghost predicate Grows(a: Db, b: Db) {
    && a.points.Keys <= b.points.Keys
    && (forall t :: t in a.points ==> b.points[t] == a.points[t])
    && (a.checkpoint.synced ==> b.checkpoint.synced)
    && (a.checkpoint.oldest.Some? ==>
          b.checkpoint.oldest.Some? && b.checkpoint.oldest.value <= a.checkpoint.oldest.value)
    && (a.checkpoint.newest.Some? ==>
          b.checkpoint.newest.Some? && a.checkpoint.newest.value <= b.checkpoint.newest.value)
  }

  lemma StepKeepsSound(s: System, step: Step)
    requires Sound(s) && Enabled(s, step)
    ensures var n := Next(s, step);
      && Sound(n) && Grows(s.db, n.db)
      && n.written - s.written == |n.db.points| - |s.db.points|
  {
    if step.Persist? && s.jobs[step.job].batch != [] {
      var batch := s.jobs[step.job].batch;
      StampsNonempty(batch);
      CommitKeepsExact(s.db, batch);
      InsertAllMeaning(s.db.points, batch);
      InsertedIsGrowth(s.db.points, batch);
    }
  }

  lemma {:induction false} RunStaysSound(run: seq<System>, steps: seq<Step>, i: nat)
    requires IsRun(run, steps) && Exact(run[0].db) && i < |run|
    ensures Sound(run[i])
  {
    if i > 0 {
      RunStaysSound(run, steps, i - 1);
      StepKeepsSound(run[i - 1], steps[i - 1]);
    }
  }

  /** `n` keeps what `s` stored, and the returned rows are the growth between them. */
  ghost predicate Accounts(s: System, n: System) {
    Grows(s.db, n.db) && n.written - s.written == |n.db.points| - |s.db.points|
  }

  ghost predicate StepAccounts(run: seq<System>, i: nat)
    requires i + 1 < |run|
  {
    Accounts(run[i], run[i + 1])
  }

  lemma RunStepAccounts(run: seq<System>, steps: seq<Step>, i: nat)
    requires IsRun(run, steps) && Exact(run[0].db) && i + 1 < |run|
    ensures StepAccounts(run, i)
  {
    RunStaysSound(run, steps, i);
    StepKeepsSound(run[i], steps[i]);
  }

  lemma AccountsTransitively(a: System, b: System, c: System)
    requires Accounts(a, b) && Accounts(b, c)
    ensures Accounts(a, c)
  {
  }

  lemma {:induction false} StepsAccount(run: seq<System>, i: nat, j: nat)
    requires i <= j < |run| && forall k :: 0 <= k < |run| - 1 ==> StepAccounts(run, k)
    ensures Accounts(run[i], run[j])
    decreases j - i
  {
    if i < j {
      StepsAccount(run, i, j - 1);
      assert StepAccounts(run, j - 1);
      AccountsTransitively(run[i], run[j - 1], run[j]);
    }
  }

  /**
   Between any two instants of any run: the bounds are the extremes of the stored timestamps, the flag is
   never set while a bound is null, no stored rate is overwritten, and `written` counts the growth.
   */
  lemma CheckpointExactAndConserved(run: seq<System>, steps: seq<Step>, i: nat, j: nat)
    requires IsRun(run, steps) && Exact(run[0].db) && i <= j < |run|
    ensures Sound(run[i]) && Sound(run[j])
    ensures Accounts(run[i], run[j])
  {
    RunStaysSound(run, steps, i);
    RunStaysSound(run, steps, j);
    forall k | 0 <= k < |run| - 1 ensures StepAccounts(run, k) {
      RunStepAccounts(run, steps, k);
    }
    StepsAccount(run, i, j);
  }

  // ---------- complete adapters: gap-free history and sync completeness ----------

  /** The exchange: its full settled timeline, and the width of the adapter's backward window. */
  datatype Exchange = Exchange(history: map<int, real>, fetchStep: nat)

  /** Settlements are at least a second apart, as whole-second timestamps are. */
  ghost predicate SecondApart(h: map<int, real>) {
    forall t, u :: t in h && u in h && t < u ==> t + SECOND <= u
  }

  ghost predicate Follows(e: Exchange, t: int, u: int) {
    t in e.history && u in e.history && t < u
  }

  /** Every settled point but the first has a predecessor at most `fetchStep` plus one second before it. */
  ghost predicate GapsWithinStep(e: Exchange) {
    forall t, u :: Follows(e, t, u) ==>
      exists p :: p in e.history && p < u && u - p <= e.fetchStep + SECOND
  }

  ghost predicate FaithfulFetch(s: System, step: Step, e: Exchange)
    requires Enabled(s, step)
  {
    step.Fetch? ==>
      var job := s.jobs[step.job];
      if job.UpdateReady? then IsAnswer(step.batch, e.history, job.after, s.now, s.now)
      else
        var end := if job.before.Some? then job.before.value else s.now;
        IsAnswer(step.batch, e.history, end - e.fetchStep, end, s.now)
  }

  ghost predicate IsFaithfulRun(run: seq<System>, steps: seq<Step>, e: Exchange) {
    IsRun(run, steps) && forall i :: 0 <= i < |steps| ==> FaithfulFetch(run[i], steps[i], e)
  }

  /** Every exchange point between the bounds is stored, and nothing else is. */
  ghost predicate GapFree(db: Db, e: Exchange) {
    var c := db.checkpoint;
    c.oldest.Some? && c.newest.Some? ==>
      forall t :: t in db.points <==> t in e.history && c.oldest.value <= t <= c.newest.value
  }

  ghost predicate SyncComplete(db: Db, e: Exchange) {
    db.checkpoint.synced && db.checkpoint.newest.Some? ==>
      forall t :: t in e.history && t <= db.checkpoint.newest.value ==> t in db.points
  }

  /** A contract with bounds whose stored points have no gap. */
  ghost predicate Contiguous(s: System, e: Exchange) {
    && Exact(s.db) && GapFree(s.db, e)
    && s.db.checkpoint.oldest.Some? && s.db.checkpoint.newest.Some?
    && s.db.checkpoint.newest.value <= s.now
  }

  /** What a job remembers: its window starts at a settled point that the bounds already cover. */
  ghost predicate Anchored(s: System, job: Job, e: Exchange)
    requires Contiguous(s, e)
  {
    var lo, hi := s.db.checkpoint.oldest.value, s.db.checkpoint.newest.value;
    match job
    case BackfillReady(_, before, has) => has && BackwardAnchor(e, before, lo, hi)
    case BackfillFetched(_, before, has, _, batch) =>
      && has && BackwardAnchor(e, before, lo, hi)
      && HoldsAll(e, batch, before.value - e.fetchStep, before.value)
    case UpdateLoaded(_, c) => c.newest.Some? && ForwardAnchor(e, c.newest.value + SECOND, lo, hi)
    case UpdateReady(_, _, after) => ForwardAnchor(e, after, lo, hi)
    case UpdateFetched(_, _, after, at, batch) =>
      && ForwardAnchor(e, after, lo, hi)
      && at <= s.now && HoldsAll(e, batch, after, at)
  }

  ghost predicate HoldsAll(e: Exchange, batch: seq<Point>, start: int, end: int) {
    forall t :: t in Stamps(batch) <==> t in e.history && start <= t <= end
  }

  ghost predicate BackwardAnchor(e: Exchange, before: Option<int>, lo: int, hi: int) {
    before.Some? && before.value + SECOND in e.history && lo <= before.value + SECOND <= hi
  }

  ghost predicate ForwardAnchor(e: Exchange, after: int, lo: int, hi: int) {
    after - SECOND in e.history && lo <= after - SECOND <= hi
  }

  ghost predicate Inv(s: System, e: Exchange) {
    && Contiguous(s, e)
    && (forall j :: j in s.jobs ==> Anchored(s, s.jobs[j], e))
  }

  ghost predicate IsRange(e: Exchange, stamps: set<int>, lo: int, hi: int) {
    forall t :: t in stamps <==> t in e.history && lo <= t <= hi
  }

  /** `lo` and `hi` are the extremes of a set of timestamps. */
  ghost predicate Spans(stamps: set<int>, lo: int, hi: int) {
    lo in stamps && hi in stamps && forall t :: t in stamps ==> lo <= t <= hi
  }

  /** A window that ends just before a stored point continues the stored range downwards. */
  lemma JoinBelow(
    e: Exchange, stored: set<int>, lo: int, hi: int, got: set<int>, start: int, end: int, least: int, greatest: int)
    requires SecondApart(e.history) && IsRange(e, stored, lo, hi) && IsRange(e, got, start, end)
    requires end + SECOND in e.history && lo <= end + SECOND <= hi && hi in stored
    requires Spans(stored + got, least, greatest)
    ensures greatest == hi && IsRange(e, stored + got, least, hi)
  {
    forall t ensures t in stored + got <==> t in e.history && least <= t <= hi {
      if t in e.history && least <= t < lo {
        assert t + SECOND <= end + SECOND;
      }
    }
  }

  /** A window that starts just after a stored point continues the stored range upwards. */
  lemma JoinAbove(
    e: Exchange, stored: set<int>, lo: int, hi: int, got: set<int>, start: int, end: int, least: int, greatest: int)
    requires SecondApart(e.history) && IsRange(e, stored, lo, hi) && IsRange(e, got, start, end)
    requires start - SECOND in e.history && lo <= start - SECOND <= hi && lo in stored
    requires Spans(stored + got, least, greatest)
    ensures least == lo && IsRange(e, stored + got, lo, greatest)
  {
    forall t ensures t in stored + got <==> t in e.history && lo <= t <= greatest {
      if t in e.history && hi < t <= greatest {
        assert start <= t;
      }
    }
  }

  /** Contiguity as a range of plain timestamps. */
  ghost predicate Ranged(db: Db, e: Exchange, lo: int, hi: int) {
    && db.checkpoint.oldest == Some(lo) && db.checkpoint.newest == Some(hi)
    && IsRange(e, db.points.Keys, lo, hi) && lo in db.points.Keys && hi in db.points.Keys
  }

  lemma ContiguousIsRanged(s: System, e: Exchange)
    requires Contiguous(s, e)
    ensures Ranged(s.db, e, s.db.checkpoint.oldest.value, s.db.checkpoint.newest.value)
  {
  }

  lemma RangedIsContiguous(s: System, e: Exchange, lo: int, hi: int)
    requires Exact(s.db) && Ranged(s.db, e, lo, hi) && hi <= s.now
    ensures Contiguous(s, e)
  {
  }

  /** A commit's bounds are the extremes of the stored and the new timestamps together. */
  lemma CommitExtremes(db: Db, batch: seq<Point>)
    requires Exact(db) && batch != []
    ensures var after := Commit(db, batch);
      && Exact(after) && after.points.Keys == db.points.Keys + Stamps(batch)
      && after.checkpoint.oldest.Some? && after.checkpoint.newest.Some?
      && Spans(db.points.Keys + Stamps(batch), after.checkpoint.oldest.value, after.checkpoint.newest.value)
      && Stamps(batch) != {} && Spans(Stamps(batch), Least(Stamps(batch)), Greatest(Stamps(batch)))
  {
    StampsNonempty(batch);
    CommitKeepsExact(db, batch);
    InsertAllMeaning(db.points, batch);
  }

  /** The bounds and the newly stored extremes after a commit, as plain numbers. */
  lemma CommitBounds(db: Db, batch: seq<Point>) returns (least: int, greatest: int, first: int, last: int)
    requires Exact(db) && batch != []
    ensures var after := Commit(db, batch);
      && Exact(after) && after.points.Keys == db.points.Keys + Stamps(batch)
      && after.checkpoint.oldest == Some(least) && after.checkpoint.newest == Some(greatest)
    ensures Stamps(batch) != {} && first == Least(Stamps(batch)) && last == Greatest(Stamps(batch))
    ensures Spans(db.points.Keys + Stamps(batch), least, greatest) && Spans(Stamps(batch), first, last)
  {
    CommitExtremes(db, batch);
    var c := Commit(db, batch).checkpoint;
    least, greatest, first, last := c.oldest.value, c.newest.value, Least(Stamps(batch)), Greatest(Stamps(batch));
  }

  /** A complete backward answer joins a range from below. */
  lemma RangedBelow(db: Db, e: Exchange, lo: int, hi: int, batch: seq<Point>, start: int, end: int)
    returns (least: int, first: int)
    requires Exact(db) && Ranged(db, e, lo, hi) && SecondApart(e.history) && batch != []
    requires HoldsAll(e, batch, start, end) && end + SECOND in e.history && lo <= end + SECOND <= hi
    ensures Exact(Commit(db, batch)) && Ranged(Commit(db, batch), e, least, hi)
    ensures Stamps(batch) != {} && first == Least(Stamps(batch)) && first in e.history && least <= first <= end
  {
    var greatest, last;
    least, greatest, first, last := CommitBounds(db, batch);
    JoinBelow(e, db.points.Keys, lo, hi, Stamps(batch), start, end, least, greatest);
  }

  /** A complete forward answer joins a range from above. */
  lemma RangedAbove(db: Db, e: Exchange, lo: int, hi: int, batch: seq<Point>, start: int, end: int)
    returns (greatest: int)
    requires Exact(db) && Ranged(db, e, lo, hi) && SecondApart(e.history) && batch != []
    requires HoldsAll(e, batch, start, end) && start - SECOND in e.history && lo <= start - SECOND <= hi
    ensures Exact(Commit(db, batch)) && Ranged(Commit(db, batch), e, lo, greatest)
    ensures greatest <= hi || greatest <= end
  {
    var least, first, last;
    least, greatest, first, last := CommitBounds(db, batch);
    JoinAbove(e, db.points.Keys, lo, hi, Stamps(batch), start, end, least, greatest);
  }

  lemma CommitBefore(s: System, e: Exchange, job: Job)
    requires Contiguous(s, e) && SecondApart(e.history)
    requires job.BackfillFetched? && Anchored(s, job, e) && job.batch != []
    ensures var db := Commit(s.db, job.batch);
      && Contiguous(s.(db := db), e) && db.checkpoint.newest == s.db.checkpoint.newest
      && var next := Some(Least(Stamps(job.batch)) - SECOND);
         BackwardAnchor(e, next, db.checkpoint.oldest.value, db.checkpoint.newest.value)
  {
    var lo, hi, end := s.db.checkpoint.oldest.value, s.db.checkpoint.newest.value, job.before.value;
    ContiguousIsRanged(s, e);
    var least, first := RangedBelow(s.db, e, lo, hi, job.batch, end - e.fetchStep, end);
    RangedIsContiguous(s.(db := Commit(s.db, job.batch)), e, least, hi);
  }

  lemma CommitAfter(s: System, e: Exchange, job: Job)
    requires Contiguous(s, e) && SecondApart(e.history)
    requires job.UpdateFetched? && Anchored(s, job, e) && job.batch != []
    ensures Contiguous(s.(db := Commit(s.db, job.batch)), e)
  {
    var lo, hi := s.db.checkpoint.oldest.value, s.db.checkpoint.newest.value;
    ContiguousIsRanged(s, e);
    var greatest := RangedAbove(s.db, e, lo, hi, job.batch, job.after, job.at);
    RangedIsContiguous(s.(db := Commit(s.db, job.batch)), e, lo, greatest);
  }

  lemma AnchorsSurvive(s: System, n: System, e: Exchange, job: Job)
    requires Contiguous(s, e) && Contiguous(n, e) && Grows(s.db, n.db) && s.now <= n.now
    requires Anchored(s, job, e)
    ensures Anchored(n, job, e)
  {
  }

  lemma PersistKeepsContiguous(s: System, j: nat, e: Exchange)
    requires Contiguous(s, e) && SecondApart(e.history) && Enabled(s, Persist(j)) && Anchored(s, s.jobs[j], e)
    ensures var n := Next(s, Persist(j));
      && Contiguous(n, e) && (j in n.jobs ==> Anchored(n, n.jobs[j], e))
  {
    var job := s.jobs[j];
    if job.batch != [] {
      StampsNonempty(job.batch);
      if job.BackfillFetched? {
        CommitBefore(s, e, job);
      } else {
        CommitAfter(s, e, job);
      }
    }
  }

  lemma AnchoredIsSound(s: System, e: Exchange)
    requires Inv(s, e)
    ensures Sound(s)
  {
    forall j | j in s.jobs ensures Anchored(s, s.jobs[j], e) {}
  }

  lemma PersistKeepsInv(s: System, j: nat, e: Exchange)
    requires Inv(s, e) && SecondApart(e.history) && Enabled(s, Persist(j))
    ensures Inv(Next(s, Persist(j)), e)
  {
    var n := Next(s, Persist(j));
    PersistKeepsContiguous(s, j, e);
    AnchoredIsSound(s, e);
    StepKeepsSound(s, Persist(j));
    forall k | k in n.jobs && k != j ensures Anchored(n, n.jobs[k], e) {
      assert s.jobs[k] == n.jobs[k];
      AnchorsSurvive(s, n, e, s.jobs[k]);
    }
  }

  /** A complete answer to an anchored request stays anchored. */
  lemma FetchKeepsAnchored(s: System, step: Step, e: Exchange)
    requires Contiguous(s, e) && Enabled(s, step) && step.Fetch? && FaithfulFetch(s, step, e)
    requires Anchored(s, s.jobs[step.job], e)
    ensures Anchored(Next(s, step), Next(s, step).jobs[step.job], e)
  {
    var job := s.jobs[step.job];
    if job.UpdateReady? {
      assert HoldsAll(e, step.batch, job.after, s.now);
    } else {
      assert job.before.value <= s.now;
    }
  }

  lemma FetchKeepsInv(s: System, step: Step, e: Exchange)
    requires Inv(s, e) && Enabled(s, step) && step.Fetch? && FaithfulFetch(s, step, e)
    ensures Inv(Next(s, step), e)
  {
    var n := Next(s, step);
    FetchKeepsAnchored(s, step, e);
    forall k | k in n.jobs && k != step.job ensures Anchored(n, n.jobs[k], e) {
      AnchorsSurvive(s, n, e, s.jobs[k]);
    }
  }

  lemma StepKeepsInv(s: System, step: Step, e: Exchange)
    requires Inv(s, e) && SecondApart(e.history) && Enabled(s, step) && FaithfulFetch(s, step, e)
    ensures Inv(Next(s, step), e)
  {
    var n := Next(s, step);
    if step.Persist? {
      PersistKeepsInv(s, step.job, e);
    } else if step.Fetch? {
      FetchKeepsInv(s, step, e);
    } else {
      forall k | k in n.jobs ensures Anchored(n, n.jobs[k], e) {
        if k in s.jobs && n.jobs[k] == s.jobs[k] {
          AnchorsSurvive(s, n, e, s.jobs[k]);
        }
      }
    }
  }

  /** From existing gap-free bounds, every committed state of every interleaving is gap-free. */
  lemma {:induction false} GapFreeHistory(run: seq<System>, steps: seq<Step>, e: Exchange, i: nat)
    requires IsFaithfulRun(run, steps, e) && SecondApart(e.history) && Contiguous(run[0], e) && i < |run|
    ensures GapFree(run[i].db, e) && Inv(run[i], e)
  {
    if i > 0 {
      GapFreeHistory(run, steps, e, i - 1);
      StepKeepsInv(run[i - 1], steps[i - 1], e);
    }
  }

  /** An empty backward window means that nothing older exists. */
  lemma EmptyWindowExhausts(e: Exchange, lo: int, t: int)
    requires SecondApart(e.history) && GapsWithinStep(e) && lo in e.history && t in e.history
    requires forall u :: u in e.history ==> !(lo - SECOND - e.fetchStep <= u <= lo - SECOND)
    ensures lo <= t
  {
    assert Follows(e, t, lo) <==> t < lo;
  }

  /** Only a backfill that knows of stored history sets the flag, and then everything older is stored. */
  lemma SyncStep(s: System, step: Step, e: Exchange)
    requires Contiguous(s, e) && Sound(s) && SecondApart(e.history) && GapsWithinStep(e) && SyncComplete(s.db, e)
    requires Enabled(s, step) && Contiguous(Next(s, step), e)
    requires step.Persist? && HasStored(s.jobs[step.job]) ==> Anchored(s, s.jobs[step.job], e)
    ensures SyncComplete(Next(s, step).db, e)
  {
    var n := Next(s, step);
    StepKeepsSound(s, step);
    if s.db.checkpoint.synced {
      assert s.db.checkpoint.oldest.value in s.db.points;
      forall t | t in e.history && t <= n.db.checkpoint.newest.value ensures t in n.db.points {
        assert t <= s.db.checkpoint.newest.value ==> t in s.db.points;
      }
    } else if n.db.checkpoint.synced {
      MarkingIsComplete(s, step, e);
    }
  }

  lemma MarkingIsComplete(s: System, step: Step, e: Exchange)
    requires Contiguous(s, e) && SecondApart(e.history) && GapsWithinStep(e)
    requires Enabled(s, step) && !s.db.checkpoint.synced && Next(s, step).db.checkpoint.synced
    requires step.Persist? && HasStored(s.jobs[step.job]) ==> Anchored(s, s.jobs[step.job], e)
    ensures SyncComplete(Next(s, step).db, e)
  {
    assert step.Persist?;
    var job := s.jobs[step.job];
    assert job.batch == [] && HasStored(job) && Next(s, step).db.points == s.db.points;
    EmptyAnswerIsTheEnd(s, job, e);
  }

  /** A backfill that gets nothing more already holds the oldest point of the exchange. */
  lemma EmptyAnswerIsTheEnd(s: System, job: Job, e: Exchange)
    requires Contiguous(s, e) && SecondApart(e.history) && GapsWithinStep(e)
    requires job.BackfillFetched? && job.batch == [] && Anchored(s, job, e)
    ensures forall t :: t in e.history && t <= s.db.checkpoint.newest.value ==> t in s.db.points
  {
    var first := job.before.value + SECOND;
    assert Stamps(job.batch) == {};
    forall t | t in e.history ensures first <= t {
      EmptyWindowExhausts(e, first, t);
    }
  }

  /**
   A finished backfill has everything: with settlements never further apart than the window, the flag
   implies that every exchange point at or before `newest` is stored, in every interleaving.
   */
  lemma {:induction false} SyncMeansComplete(run: seq<System>, steps: seq<Step>, e: Exchange, i: nat)
    requires IsFaithfulRun(run, steps, e) && SecondApart(e.history) && GapsWithinStep(e)
    requires Contiguous(run[0], e) && SyncComplete(run[0].db, e) && i < |run|
    ensures SyncComplete(run[i].db, e)
  {
    if i > 0 {
      SyncMeansComplete(run, steps, e, i - 1);
      GapFreeHistory(run, steps, e, i - 1);
      GapFreeHistory(run, steps, e, i);
      AnchoredIsSound(run[i - 1], e);
      SyncStep(run[i - 1], steps[i - 1], e);
    }
  }

  // ---------- how exact the hypotheses are ----------

  /**
   The gap condition is the right one: an empty answer before a settled point proves the history
   exhausted, for every settled point, exactly when gaps never exceed the window plus its one-second step.
   */
  lemma ExhaustionIffGapsWithinStep(e: Exchange)
    requires SecondApart(e.history)
    ensures (forall lo, t ::
               lo in e.history && t in e.history && WindowBefore(e, lo) == {} ==> lo <= t)
            <==> GapsWithinStep(e)
  {
    if GapsWithinStep(e) {
      forall lo, t | lo in e.history && t in e.history && WindowBefore(e, lo) == {}
        ensures lo <= t
      {
        forall u | u in e.history ensures !(lo - SECOND - e.fetchStep <= u <= lo - SECOND) {
          assert u !in WindowBefore(e, lo);
        }
        EmptyWindowExhausts(e, lo, t);
      }
    } else {
      var t, u :| Follows(e, t, u)
                  && forall p :: p in e.history && p < u ==> u - p > e.fetchStep + SECOND;
      assert WindowBefore(e, u) == {};
    }
  }

  /** What the first request before the settled point `lo` asks for. */
  ghost function WindowBefore(e: Exchange, lo: int): set<int> {
    Window(e.history, lo - SECOND - e.fetchStep, lo - SECOND, lo)
  }

  /**
   One commit of a complete answer for [start, end] keeps a gap-free history gap-free exactly when no
   exchange point lies strictly between that window and the stored range.
   */
  lemma CommitGapFreeIff(db: Db, e: Exchange, batch: seq<Point>, start: int, end: int)
    requires Exact(db) && GapFree(db, e) && db.points.Keys != {} && batch != []
    requires forall t :: t in Stamps(batch) <==> t in e.history && start <= t <= end
    ensures var c := db.checkpoint;
      GapFree(Commit(db, batch), e) <==>
      forall t :: t in e.history ==> !(end < t < c.oldest.value) && !(c.newest.value < t < start)
  {
    StampsNonempty(batch);
    InsertAllMeaning(db.points, batch);
    CommitKeepsExact(db, batch);
    var after := Commit(db, batch);
    var lo, hi := after.checkpoint.oldest.value, after.checkpoint.newest.value;
    var c := db.checkpoint;
    assert forall t :: t in after.points <==> t in db.points || t in Stamps(batch);
    if GapFree(after, e) {
      forall t | t in e.history
        ensures !(end < t < c.oldest.value) && !(c.newest.value < t < start)
      {
        assert t in after.points <==> lo <= t <= hi;
      }
    } else {
      assert exists t :: !(t in after.points <==> t in e.history && lo <= t <= hi);
    }
  }
}
