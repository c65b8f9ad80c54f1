/**
 Which exchanges leave a gap when a contract starts from nothing: exactly those whose timeline has a trap.

 Sufficiency is `HistoryFromNull.GapFreeFromNull`; here every trap is turned into a timely run of one backfill
 and one update that steps into it.
 */
module HistoryTrap {
  import opened Prelude
  import opened HistoryStore
  import opened HistoryProtocol
  import opened HistoryFromNull

  // ---------- answers ----------

  /** The settlements of a window in time order. */
  function AnswerOf(history: map<int, real>, stamps: seq<int>): seq<Point>
    requires forall t :: t in stamps ==> t in history
  {
    if stamps == [] then [] else AnswerOf(history, stamps[..|stamps| - 1]) + [PointOf(history, stamps[|stamps| - 1])]
  }

  function PointOf(history: map<int, real>, t: int): Point
    requires t in history
  {
    Point(t, history[t])
  }

  lemma {:induction false} AnswerOfMeaning(history: map<int, real>, stamps: seq<int>)
    requires forall t :: t in stamps ==> t in history
    ensures forall p :: p in AnswerOf(history, stamps) <==> p.timestamp in stamps && p == PointOf(history, p.timestamp)
  {
    if stamps != [] {
      var n := |stamps| - 1;
      AnswerOfMeaning(history, stamps[..n]);
      assert stamps == stamps[..n] + [stamps[n]];
    }
  }

  lemma AnswerExists(history: map<int, real>, start: int, end: int, now: int) returns (batch: seq<Point>)
    ensures IsAnswer(batch, history, start, end, now)
  {
    var w := Window(history, start, end, now);
    SortedElements(w);
    AnswerOfMeaning(history, Sorted(w));
    batch := AnswerOf(history, Sorted(w));
    forall t | t in w ensures t in Stamps(batch) {
      assert PointOf(history, t) in batch;
    }
  }

  // ---------- a run, step by step ----------

  lemma Extend(run: seq<System>, steps: seq<Step>, e: Exchange, step: Step) returns (n: System)
    requires IsTimelyRun(run, steps, e)
    requires var s := run[|steps|]; Enabled(s, step) && FaithfulFetch(s, step, e) && Timely(s, step)
    ensures n == Next(run[|steps|], step)
    ensures IsTimelyRun(run + [n], steps + [step], e)
  {
    n := Next(run[|steps|], step);
  }

  /** A backfill asks at `a` and commits at its timeout; an update has loaded the checkpoint just before that. */
  lemma FirstCommitted(e: Exchange, a: int, p: int) returns (run: seq<System>, steps: seq<Step>, batch: seq<Point>)
    requires p in e.history && a - e.fetchStep <= p <= a
    ensures IsTimelyRun(run, steps, e) && run[0].db == EMPTY
    ensures batch != [] && HoldsAll(e, batch, a - e.fetchStep, a)
    ensures var s, loaded := run[|steps|], a + JOB_TIMEOUT;
      && s.db == Commit(EMPTY, batch) && s.now == loaded
      && 1 in s.jobs && s.jobs[1] == UpdateLoaded(loaded, EMPTY.checkpoint)
  {
    batch := AnswerExists(e.history, a - e.fetchStep, a, a);
    assert p in Stamps(batch);
    var s0 := System(EMPTY, a, map[], 0);
    run, steps := [s0], [];
    var s1 := Extend(run, steps, e, LoadBackfill(0));
    run, steps := run + [s1], steps + [LoadBackfill(0)];
    var s2 := Extend(run, steps, e, Fetch(0, batch));
    run, steps := run + [s2], steps + [Fetch(0, batch)];
    var s3 := Extend(run, steps, e, Advance(a + JOB_TIMEOUT));
    run, steps := run + [s3], steps + [Advance(a + JOB_TIMEOUT)];
    var s4 := Extend(run, steps, e, LoadUpdate(1));
    run, steps := run + [s4], steps + [LoadUpdate(1)];
    var s5 := Extend(run, steps, e, Persist(0));
    run, steps := run + [s5], steps + [Persist(0)];
  }

  /** The update reads its clock in the hour `h`, asks once `u` has settled, and commits. */
  lemma SecondCommitted(e: Exchange, before: seq<System>, stepsBefore: seq<Step>, h: int, loaded: int, u: int)
    returns (run: seq<System>, steps: seq<Step>, batch: seq<Point>, q: int)
    requires IsTimelyRun(before, stepsBefore, e) && before[0].db == EMPTY
    requires var s := before[|stepsBefore|];
      s.now == loaded && 1 in s.jobs && s.jobs[1] == UpdateLoaded(loaded, EMPTY.checkpoint)
    requires h % HOUR == 0 && loaded - HOUR < h <= loaded + CLOCK_LAG
    requires u in e.history && h - SECOND <= u <= loaded + JOB_TIMEOUT
    ensures IsTimelyRun(run, steps, e) && run[0].db == EMPTY
    ensures u <= q && HoldsAll(e, batch, h - SECOND, q)
    ensures batch != [] && run[|steps|].db == Commit(before[|stepsBefore|].db, batch)
  {
    var clock := if h < loaded then loaded else h;
    q := if u < clock then clock else u;
    BucketIsQuotient(clock, h / HOUR, HOUR);
    batch := AnswerExists(e.history, h - SECOND, q, q);
    assert u in Stamps(batch) && HoldsAll(e, batch, h - SECOND, q);
    run, steps := before, stepsBefore;
    var s6 := Extend(run, steps, e, Advance(clock));
    run, steps := run + [s6], steps + [Advance(clock)];
    var s7 := Extend(run, steps, e, ReadClock(1));
    run, steps := run + [s7], steps + [ReadClock(1)];
    var s8 := Extend(run, steps, e, Advance(q));
    run, steps := run + [s8], steps + [Advance(q)];
    var s9 := Extend(run, steps, e, Fetch(1, batch));
    run, steps := run + [s9], steps + [Fetch(1, batch)];
    var s10 := Extend(run, steps, e, Persist(1));
    run, steps := run + [s10], steps + [Persist(1)];
  }

  /** Two windows with a settlement between them leave it out. */
  lemma MissedBetween(
    e: Exchange, first: seq<Point>, second: seq<Point>, a: int, start: int, q: int, p: int, t: int, u: int)
    requires first != [] && second != []
    requires HoldsAll(e, first, a - e.fetchStep, a) && HoldsAll(e, second, start, q)
    requires p in Stamps(first) && u in Stamps(second) && t in e.history && a < t < start
    ensures !GapFree(Commit(Commit(EMPTY, first), second), e)
  {
    var one, two := Commit(EMPTY, first), Commit(Commit(EMPTY, first), second);
    CommitExtremes(EMPTY, first);
    CommitExtremes(one, second);
    assert p in two.points && u in two.points && t !in two.points;
  }

  /** Every trap is stepped into by a timely run from nothing of one backfill and one update. */
  lemma TrapCatches(e: Exchange, h: int, a: int, s: int, t: int, u: int) returns (run: seq<System>, steps: seq<Step>)
    requires Trap(e, h, a, s, t, u)
    ensures IsTimelyRun(run, steps, e) && run[0].db == EMPTY
    ensures !GapFree(run[|steps|].db, e)
  {
    var before, stepsBefore, first := FirstCommitted(e, a, s);
    var second, q;
    run, steps, second, q := SecondCommitted(e, before, stepsBefore, h, a + JOB_TIMEOUT, u);
    MissedBetween(e, first, second, a, h - SECOND, q, s, t, u);
  }

  ghost predicate AlwaysGapFree(e: Exchange) {
    forall run: seq<System>, steps: seq<Step>, i: int ::
      IsTimelyRun(run, steps, e) && run[0].db == EMPTY && 0 <= i < |run| ==> GapFree(run[i].db, e)
  }

  /** From nothing every timely run is gap-free at every instant exactly when the timeline has no trap. */
  lemma GapFreeIffTrapFree(e: Exchange)
    requires Regular(e)
    ensures AlwaysGapFree(e) <==> TrapFree(e)
  {
    if TrapFree(e) {
      forall run: seq<System>, steps: seq<Step>, i: int
        | IsTimelyRun(run, steps, e) && run[0].db == EMPTY && 0 <= i < |run|
        ensures GapFree(run[i].db, e)
      {
        GapFreeFromNull(run, steps, e, i);
      }
    } else {
      var h, a, s, t, u :| Trap(e, h, a, s, t, u);
      var run, steps := TrapCatches(e, h, a, s, t, u);
      assert IsTimelyRun(run, steps, e) && !GapFree(run[|steps|].db, e);
    }
  }
}
