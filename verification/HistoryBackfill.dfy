/**
 The backfill loop of one contract: what it computes, that it ends, and that cutting it anywhere and
 starting again from the stored checkpoint makes no difference.
 */
module HistoryBackfill {
  import opened Prelude
  import opened HistoryStore
  import opened HistoryProtocol

  function End(before: Option<int>, now: int): int {
    if before.Some? then before.value else now
  }

  /** The measure of the loop: the settled points that are not newer than its next request. */
  function AtOrBefore(history: map<int, real>, end: int): set<int> {
    set t | t in history && t <= end
  }

  /** The state after committing a complete answer whose timestamps are `w`. */
  function CommitWindow(db: Db, e: Exchange, w: set<int>): Db
    requires w != {} && w <= e.history.Keys
  {
    Db(db.points + (map t | t in w - db.points.Keys :: e.history[t]),
       MergeBounds(db.checkpoint, Least(w), Greatest(w)))
  }

  /** Whatever order and duplicates a complete answer comes with, its commit leaves the same state. */
  lemma AnswerCommits(db: Db, e: Exchange, batch: seq<Point>, start: int, end: int, now: int)
    requires batch != [] && IsAnswer(batch, e.history, start, end, now)
    ensures Window(e.history, start, end, now) != {}
    ensures Commit(db, batch) == CommitWindow(db, e, Window(e.history, start, end, now))
  {
    StampsNonempty(batch);
    InsertAllMeaning(db.points, batch);
    var w := Window(e.history, start, end, now);
    var committed, expected := InsertAll(db.points, batch), CommitWindow(db, e, w).points;
    assert committed.Keys == expected.Keys;
    forall t | t in committed ensures committed[t] == expected[t] {
      if t !in db.points {
        FirstRateInBatch(batch, t);
      }
    }
  }

  /** The state the loop ends in, from the request bound it holds in memory. */
  function Backfill(db: Db, before: Option<int>, hasStored: bool, e: Exchange, now: int): Db
    decreases |AtOrBefore(e.history, End(before, now))|
  {
    var end := End(before, now);
    var w := Window(e.history, end - e.fetchStep, end, now);
    if w == {} then
      if hasStored then MarkSynced(db) else db
    else
      MeasureDrops(e, w, end, Least(w));
      Backfill(CommitWindow(db, e, w), Some(Least(w) - SECOND), true, e, now)
  }

  lemma MeasureDrops(e: Exchange, w: set<int>, end: int, least: int)
    requires least in w && least in e.history && least <= end
    ensures |AtOrBefore(e.history, least - SECOND)| < |AtOrBefore(e.history, end)|
  {
    var later, earlier := AtOrBefore(e.history, end), AtOrBefore(e.history, least - SECOND);
    assert earlier <= later - {least};
    SubsetIsSmaller(earlier, later - {least});
  }

  lemma {:induction false} SubsetIsSmaller(a: set<int>, b: set<int>)
    requires a <= b
    ensures |a| <= |b|
    decreases |a|
  {
    if |a| > 0 {
      var m := Least(a);
      SubsetIsSmaller(a - {m}, b - {m});
    }
  }

  /** A whole run of the job on this contract: contracts already synced are not selected. */
  function Final(db: Db, e: Exchange, now: int): Db {
    if db.checkpoint.synced then db
    else Backfill(db, InitialBefore(db.checkpoint), db.checkpoint.oldest.Some?, e, now)
  }

  /** One turn of the loop that commits: the rest of the work is unchanged, and there is less of it. */
  lemma Turn(db: Db, before: Option<int>, hasStored: bool, e: Exchange, now: int, w: set<int>)
    requires w == Window(e.history, End(before, now) - e.fetchStep, End(before, now), now) && w != {}
    ensures Backfill(db, before, hasStored, e, now)
         == Backfill(CommitWindow(db, e, w), Some(Least(w) - SECOND), true, e, now)
    ensures |AtOrBefore(e.history, Least(w) - SECOND)| < |AtOrBefore(e.history, End(before, now))|
  {
    MeasureDrops(e, w, End(before, now), Least(w));
  }

  // ---------- the loop, executed in place ----------

  datatype BackfillResult = BackfillResult(fetched: nat, written: nat, backfilled: bool)

  method FetchWindow(history: map<int, real>, start: int, end: int, now: int) returns (batch: seq<Point>)
    ensures IsAnswer(batch, history, start, end, now)
  {
    batch := [];
    var rest := Window(history, start, end, now);
    while rest != {}
      invariant rest <= Window(history, start, end, now)
      invariant Stamps(batch) + rest == Window(history, start, end, now)
      invariant forall p :: p in batch ==> p.timestamp in history && p.rate == history[p.timestamp]
      decreases |rest|
    {
      var t := Least(rest);
      ghost var was := batch;
      batch := batch + [Point(t, history[t])];
      rest := rest - {t};
      assert forall p :: p in batch <==> p in was || p == Point(t, history[t]);
      assert Stamps(batch) == Stamps(was) + {t};
    }
  }

  method FetchHistoryBefore(e: Exchange, before: Option<int>, now: int) returns (batch: seq<Point>)
    ensures IsAnswer(batch, e.history, End(before, now) - e.fetchStep, End(before, now), now)
  {
    var end := if before.Some? then before.value else now;
    batch := FetchWindow(e.history, end - e.fetchStep, end, now);
  }

  /** The committed state of a contract that has its checkpoint row. */
  ghost predicate Holds(store: HistoryTable, db: Db)
    reads store
  {
    store.points == db.points && store.checkpoint == Some(db.checkpoint)
  }

  /** Committing a complete answer and going on before its oldest point is one turn of the loop. */
  lemma AnswerTurn(db: Db, before: Option<int>, hasStored: bool, e: Exchange, now: int, batch: seq<Point>)
    returns (next: Db, bound: int)
    requires batch != []
    requires IsAnswer(batch, e.history, End(before, now) - e.fetchStep, End(before, now), now)
    ensures Stamps(batch) != {} && next == Commit(db, batch) && bound == Least(Stamps(batch)) - SECOND
    ensures Backfill(next, Some(bound), true, e, now) == Backfill(db, before, hasStored, e, now)
    ensures |AtOrBefore(e.history, bound)| < |AtOrBefore(e.history, End(before, now))|
  {
    var w := Window(e.history, End(before, now) - e.fetchStep, End(before, now), now);
    StampsNonempty(batch);
    assert w == Stamps(batch);
    next, bound := CommitWindow(db, e, w), Least(w) - SECOND;
    assert Commit(db, batch) == next by {
      AnswerCommits(db, e, batch, End(before, now) - e.fetchStep, End(before, now), now);
    }
    Turn(db, before, hasStored, e, now, w);
  }

  /** Persist one answer and give the bound of the next request: what remains to be done is unchanged. */
  method PersistTurn(store: HistoryTable, e: Exchange, before: Option<int>, now: int, batch: seq<Point>,
                     ghost hasStored: bool, ghost db: Db)
    returns (written: nat, bound: int, ghost next: Db)
    requires Holds(store, db) && Exact(db) && batch != []
    requires IsAnswer(batch, e.history, End(before, now) - e.fetchStep, End(before, now), now)
    modifies store
    ensures Holds(store, next) && Exact(next)
    ensures next.checkpoint.synced == db.checkpoint.synced && next.checkpoint.oldest.Some?
    ensures Backfill(next, Some(bound), true, e, now) == Backfill(db, before, hasStored, e, now)
    ensures |AtOrBefore(e.history, bound)| < |AtOrBefore(e.history, End(before, now))|
    ensures written == |next.points| - |db.points| && written <= |batch|
    ensures next.points == InsertAll(db.points, batch) && Stamps(batch) != {} && bound == Least(Stamps(batch)) - SECOND
  {
    ghost var least;
    next, least := AnswerTurn(db, before, hasStored, e, now, batch);
    CommitKeepsExact(db, batch);
    var persisted := store.PersistBatch(batch);
    written := persisted.value.written;
    bound := persisted.value.oldest - SECOND;
    assert bound == least;
  }

  lemma EmptyAnswerEnds(db: Db, before: Option<int>, hasStored: bool, e: Exchange, now: int)
    requires IsAnswer([], e.history, End(before, now) - e.fetchStep, End(before, now), now)
    ensures Backfill(db, before, hasStored, e, now) == if hasStored then MarkSynced(db) else db
  {
    assert Stamps([]) == {};
  }

  /**
   Walk backward from the stored checkpoint until the exchange has nothing older. `received` is everything the
   answers held, in the order of the answers.
   */
  method BackfillContract(store: HistoryTable, e: Exchange, now: int, ghost start: Db)
    returns (result: Result<BackfillResult, HistoryError>, ghost received: seq<Point>)
    requires Holds(store, start) && Exact(start)
    modifies store
    ensures Holds(store, Final(start, e, now))
    ensures result.Ok? && result.value.fetched == |received|
    ensures store.points == InsertAll(start.points, received)
    ensures result.value.written == |store.points| - |start.points| <= |received|
    ensures forall p :: p in received ==> p.timestamp in e.history && p.rate == e.history[p.timestamp]
    ensures result.value.backfilled <==>
            !start.checkpoint.synced && store.checkpoint.Some? && store.checkpoint.value.synced
    ensures start.checkpoint.synced ==> received == [] && store.checkpoint == Some(start.checkpoint)
    ensures !start.checkpoint.synced ==> (result.value.backfilled <==> store.points != map[])
  {
    var state := store.checkpoint.value;
    received := [];
    if state.synced {
      return Ok(BackfillResult(0, 0, false)), received;
    }
    var before := InitialBefore(state);
    var hasStored := state.oldest.Some?;
    var fetched: nat, written: nat := 0, 0;
    ghost var db := start;
    while true
      invariant Holds(store, db) && Exact(db)
      invariant !db.checkpoint.synced && (hasStored <==> db.checkpoint.oldest.Some?)
      invariant Backfill(db, before, hasStored, e, now) == Final(start, e, now)
      invariant written == |store.points| - |start.points| && written <= fetched == |received|
      invariant db.points == InsertAll(start.points, received)
      invariant forall p :: p in received ==> p.timestamp in e.history && p.rate == e.history[p.timestamp]
      decreases |AtOrBefore(e.history, End(before, now))|
    {
      var batch := FetchHistoryBefore(e, before, now);
      if batch == [] {
        EmptyAnswerEnds(db, before, hasStored, e, now);
        if hasStored {
          var marked := store.MarkHistorySynced();
        }
        return Ok(BackfillResult(fetched, written, hasStored)), received;
      }
      InsertAllOfConcatenation(start.points, received, batch);
      received := received + batch;
      var inserted, bound;
      inserted, bound, db := PersistTurn(store, e, before, now, batch, hasStored, db);
      fetched := fetched + |batch|;
      written := written + inserted;
      hasStored := true;
      before := Some(bound);
    }
  }

  // ---------- the walk, turn by turn ----------

  /** A contract that is already synced is not selected. */
  lemma SyncedIsLeftAlone(db: Db, e: Exchange, now: int)
    requires db.checkpoint.synced
    ensures Final(db, e, now) == db
  {
  }

  /** The first request goes up to a second before the oldest stored point, or to the clock; empty, it ends all. */
  lemma WalkEnds(db: Db, e: Exchange, now: int, end: int)
    requires !db.checkpoint.synced
    requires end == if db.checkpoint.oldest.Some? then db.checkpoint.oldest.value - 1_000 else now
    requires forall t :: t in e.history && end - e.fetchStep <= t <= end ==> now < t
    ensures Final(db, e, now) == if db.checkpoint.oldest.None? then db
                                 else Db(db.points, Checkpoint(true, db.checkpoint.oldest, db.checkpoint.newest))
  {
    assert Window(e.history, end - e.fetchStep, end, now) == {};
  }

  /**
   Otherwise it stores every settlement of the window that is visible, widens the bounds by them, and goes on from
   what it has stored.
   */
  lemma WalkGoesOn(db: Db, e: Exchange, now: int, end: int, seen: int) returns (next: Db)
    requires !db.checkpoint.synced
    requires end == if db.checkpoint.oldest.Some? then db.checkpoint.oldest.value - 1_000 else now
    requires seen in e.history && end - e.fetchStep <= seen <= end && seen <= now
    ensures Final(db, e, now) == Final(next, e, now)
    ensures forall t :: t in next.points <==>
              t in db.points || (t in e.history && end - e.fetchStep <= t <= end && t <= now)
    ensures forall t :: t in next.points ==> next.points[t] == if t in db.points then db.points[t] else e.history[t]
    ensures !next.checkpoint.synced && next.checkpoint.oldest.Some? && next.checkpoint.newest.Some?
    ensures next.checkpoint.oldest.value in e.history
            && end - e.fetchStep <= next.checkpoint.oldest.value <= seen <= next.checkpoint.newest.value
    ensures next.checkpoint.newest == db.checkpoint.newest
            || (next.checkpoint.newest.value in e.history && next.checkpoint.newest.value <= end)
  {
    var w := Window(e.history, end - e.fetchStep, end, now);
    assert seen in w;
    next := CommitWindow(db, e, w);
    RestartContinues(db, e, now, w);
  }

  // ---------- crash equivalence ----------

  /** The state after the first `n` transactions of a loop that is then cut. */
  function Partial(db: Db, before: Option<int>, hasStored: bool, e: Exchange, now: int, n: nat): Db
    decreases n
  {
    var end := End(before, now);
    var w := Window(e.history, end - e.fetchStep, end, now);
    if n == 0 then db
    else if w == {} then
      if hasStored then MarkSynced(db) else db
    else
      Partial(CommitWindow(db, e, w), Some(Least(w) - SECOND), true, e, now, n - 1)
  }

  /** One run that starts at `now` and is cut at some await after `transactions` commits. */
  datatype Attempt = Attempt(now: int, transactions: nat)

  function CutRun(db: Db, e: Exchange, a: Attempt): Db {
    if db.checkpoint.synced then db
    else Partial(db, InitialBefore(db.checkpoint), db.checkpoint.oldest.Some?, e, a.now, a.transactions)
  }

  function CutRuns(db: Db, e: Exchange, attempts: seq<Attempt>): Db
    decreases |attempts|
  {
    if attempts == [] then db else CutRuns(CutRun(db, e, attempts[0]), e, attempts[1..])
  }

  /** The checkpoint that a commit leaves is exactly the request bound the loop would go on with. */
  lemma CheckpointIsLoopState(db: Db, e: Exchange, now: int)
    ensures var end := End(InitialBefore(db.checkpoint), now);
      var w := Window(e.history, end - e.fetchStep, end, now);
      w != {} ==> InitialBefore(CommitWindow(db, e, w).checkpoint) == Some(Least(w) - SECOND)
  {
  }

  /** After one committed turn a restart goes on from the stored checkpoint as the loop would. */
  lemma RestartContinues(db: Db, e: Exchange, now: int, w: set<int>)
    requires var end := End(InitialBefore(db.checkpoint), now); w == Window(e.history, end - e.fetchStep, end, now)
    requires !db.checkpoint.synced && w != {}
    ensures var next := CommitWindow(db, e, w);
      && !next.checkpoint.synced && next.checkpoint.oldest.Some?
      && (db.checkpoint.oldest.Some? ==> next.checkpoint.oldest.value <= db.checkpoint.oldest.value)
      && InitialBefore(next.checkpoint) == Some(Least(w) - SECOND)
      && Final(next, e, now) == Final(db, e, now)
  {
    CheckpointIsLoopState(db, e, now);
    Turn(db, InitialBefore(db.checkpoint), db.checkpoint.oldest.Some?, e, now, w);
  }

  /** A cut before the first commit, or one that comes after the loop has ended. */
  lemma CutWithoutCommit(db: Db, e: Exchange, now: int, n: nat)
    requires var end := End(InitialBefore(db.checkpoint), now);
      n == 0 || Window(e.history, end - e.fetchStep, end, now) == {}
    requires !db.checkpoint.synced
    ensures var cut := Partial(db, InitialBefore(db.checkpoint), db.checkpoint.oldest.Some?, e, now, n);
      && Final(cut, e, now) == Final(db, e, now)
      && cut.checkpoint.oldest == db.checkpoint.oldest
  {
  }

  lemma PartialTurn(db: Db, before: Option<int>, hasStored: bool, e: Exchange, now: int, w: set<int>, n: nat)
    requires w == Window(e.history, End(before, now) - e.fetchStep, End(before, now), now) && w != {} && n > 0
    ensures Partial(db, before, hasStored, e, now, n)
         == Partial(CommitWindow(db, e, w), Some(Least(w) - SECOND), true, e, now, n - 1)
  {
  }

  lemma NextTurn(db: Db, e: Exchange, now: int, n: nat) returns (next: Db)
    requires var end := End(InitialBefore(db.checkpoint), now);
      n > 0 && Window(e.history, end - e.fetchStep, end, now) != {}
    requires !db.checkpoint.synced
    ensures !next.checkpoint.synced && next.checkpoint.oldest.Some?
    ensures db.checkpoint.oldest.Some? ==> next.checkpoint.oldest.value <= db.checkpoint.oldest.value
    ensures Final(next, e, now) == Final(db, e, now)
    ensures Partial(db, InitialBefore(db.checkpoint), db.checkpoint.oldest.Some?, e, now, n)
         == Partial(next, InitialBefore(next.checkpoint), next.checkpoint.oldest.Some?, e, now, n - 1)
  {
    var end := End(InitialBefore(db.checkpoint), now);
    var w := Window(e.history, end - e.fetchStep, end, now);
    next := CommitWindow(db, e, w);
    RestartContinues(db, e, now, w);
    PartialTurn(db, InitialBefore(db.checkpoint), db.checkpoint.oldest.Some?, e, now, w, n);
  }

  lemma {:induction false} CutThenFinal(db: Db, e: Exchange, now: int, n: nat)
    requires !db.checkpoint.synced
    ensures var cut := Partial(db, InitialBefore(db.checkpoint), db.checkpoint.oldest.Some?, e, now, n);
      && Final(cut, e, now) == Final(db, e, now)
      && (db.checkpoint.oldest.Some? ==>
            cut.checkpoint.oldest.Some? && cut.checkpoint.oldest.value <= db.checkpoint.oldest.value)
    decreases n
  {
    var end := End(InitialBefore(db.checkpoint), now);
    if n > 0 && Window(e.history, end - e.fetchStep, end, now) != {} {
      var next := NextTurn(db, e, now, n);
      CutThenFinal(next, e, now, n - 1);
    } else {
      CutWithoutCommit(db, e, now, n);
    }
  }

  /** A run that is cut after more transactions than it has to make is a whole run. */
  lemma {:induction false} LateCutIsNoCut(db: Db, before: Option<int>, hasStored: bool, e: Exchange, now: int, n: nat)
    requires n > |AtOrBefore(e.history, End(before, now))|
    ensures Partial(db, before, hasStored, e, now, n) == Backfill(db, before, hasStored, e, now)
    decreases n
  {
    var end := End(before, now);
    var w := Window(e.history, end - e.fetchStep, end, now);
    if w != {} {
      Turn(db, before, hasStored, e, now, w);
      PartialTurn(db, before, hasStored, e, now, w, n);
      LateCutIsNoCut(CommitWindow(db, e, w), Some(Least(w) - SECOND), true, e, now, n - 1);
    }
  }

  /** Once bounds are stored, the clock of the run no longer matters. */
  lemma {:induction false} ClockIrrelevant(db: Db, e: Exchange, now: int, other: int)
    requires db.checkpoint.oldest.Some? && db.checkpoint.oldest.value <= now && db.checkpoint.oldest.value <= other
    ensures Final(db, e, now) == Final(db, e, other)
    decreases |AtOrBefore(e.history, End(InitialBefore(db.checkpoint), now))|
  {
    var end := End(InitialBefore(db.checkpoint), now);
    var w := Window(e.history, end - e.fetchStep, end, now);
    assert w == Window(e.history, end - e.fetchStep, end, other);
    if !db.checkpoint.synced && w != {} {
      MeasureDrops(e, w, end, Least(w));
      RestartContinues(db, e, now, w);
      RestartContinues(db, e, other, w);
      ClockIrrelevant(CommitWindow(db, e, w), e, now, other);
    }
  }

  /**
   Cutting the loop at any awaits, any number of times, and running it again from the stored checkpoint
   ends with the same points, bounds and flag as one uninterrupted run. Without stored bounds the first
   request is for "now"; `HistoryRestart` says what different clocks do there.
   */
  lemma {:induction false} CrashEquivalence(db: Db, e: Exchange, attempts: seq<Attempt>, now: int)
    requires || (forall a :: a in attempts ==> a.now == now)
             || (db.checkpoint.oldest.Some? && db.checkpoint.oldest.value <= now
                 && forall a :: a in attempts ==> db.checkpoint.oldest.value <= a.now)
    ensures Final(CutRuns(db, e, attempts), e, now) == Final(db, e, now)
    decreases |attempts|
  {
    if attempts != [] {
      var a := attempts[0];
      assert a in attempts;
      assert forall b :: b in attempts[1..] ==> b in attempts;
      if !db.checkpoint.synced {
        CutThenFinal(db, e, a.now, a.transactions);
        if a.now != now {
          ClockIrrelevant(db, e, a.now, now);
          ClockIrrelevant(CutRun(db, e, a), e, a.now, now);
        }
      }
      CrashEquivalence(CutRun(db, e, a), e, attempts[1..], now);
    }
  }

  // ---------- what the loop achieves ----------

  /** The exchange points before `lo` that are not stored yet. */
  ghost function Missing(db: Db, e: Exchange, lo: int): map<int, real> {
    map t | t in e.history && t < lo && t !in db.points :: e.history[t]
  }

  ghost function UpTo(e: Exchange, lo: int): set<int> {
    set t | t in e.history && t <= lo
  }

  /** One commit takes the newest of the missing points and leaves the rest missing. */
  lemma CommitTakesNewest(db: Db, e: Exchange, lo: int, w: set<int>, now: int)
    requires SecondApart(e.history) && lo in e.history && lo <= now
    requires w == Window(e.history, lo - SECOND - e.fetchStep, lo - SECOND, now) && w != {}
    ensures var next := CommitWindow(db, e, w);
      db.points + Missing(db, e, lo) == next.points + Missing(next, e, Least(w))
  {
    var next, least := CommitWindow(db, e, w), Least(w);
    var a, b := db.points + Missing(db, e, lo), next.points + Missing(next, e, least);
    forall t ensures (t in a <==> t in b) && (t in a ==> a[t] == b[t]) {
      TakenOrMissing(db, e, lo, w, now, t);
    }
    assert a.Keys == b.Keys;
  }

  lemma TakenOrMissing(db: Db, e: Exchange, lo: int, w: set<int>, now: int, t: int)
    requires SecondApart(e.history) && lo in e.history && lo <= now
    requires w == Window(e.history, lo - SECOND - e.fetchStep, lo - SECOND, now) && w != {}
    ensures var next := CommitWindow(db, e, w);
      var a, b := db.points + Missing(db, e, lo), next.points + Missing(next, e, Least(w));
      (t in a <==> t in b) && (t in a ==> a[t] == b[t])
  {
    assert t in e.history && Least(w) <= t < lo ==> t in w;
  }

  lemma NothingOlder(db: Db, e: Exchange, lo: int, now: int)
    requires SecondApart(e.history) && GapsWithinStep(e) && lo in e.history && lo <= now
    requires Window(e.history, lo - SECOND - e.fetchStep, lo - SECOND, now) == {}
    ensures Missing(db, e, lo) == map[] && lo in UpTo(e, lo) && Least(UpTo(e, lo)) == lo
  {
    forall u | u in e.history ensures !(lo - SECOND - e.fetchStep <= u <= lo - SECOND) {
      assert u !in Window(e.history, lo - SECOND - e.fetchStep, lo - SECOND, now);
    }
    forall t | t in e.history ensures lo <= t {
      EmptyWindowExhausts(e, lo, t);
    }
    assert lo in UpTo(e, lo);
  }

  lemma SameLeast(e: Exchange, least: int, lo: int)
    requires least in e.history && least <= lo
    ensures least in UpTo(e, least) && least in UpTo(e, lo) && Least(UpTo(e, least)) == Least(UpTo(e, lo))
  {
    assert least in UpTo(e, least) && least in UpTo(e, lo);
    assert Least(UpTo(e, lo)) in UpTo(e, least);
    assert Least(UpTo(e, least)) in UpTo(e, lo);
  }

  /** The state with everything older than the bounds added and the flag set. */
  ghost function Completed(db: Db, e: Exchange): Db
    requires db.checkpoint.oldest.Some? && db.checkpoint.oldest.value in e.history
  {
    var lo := db.checkpoint.oldest.value;
    assert lo in UpTo(e, lo);
    Db(db.points + Missing(db, e, lo), Checkpoint(true, Some(Least(UpTo(e, lo))), db.checkpoint.newest))
  }

  lemma CompletedTurn(db: Db, e: Exchange, w: set<int>, now: int)
    requires SecondApart(e.history) && db.checkpoint.oldest.Some? && db.checkpoint.newest.Some?
    requires db.checkpoint.oldest.value in e.history && db.checkpoint.oldest.value <= now
    requires db.checkpoint.oldest.value <= db.checkpoint.newest.value
    requires var lo := db.checkpoint.oldest.value;
      w == Window(e.history, lo - SECOND - e.fetchStep, lo - SECOND, now) && w != {}
    ensures var next := CommitWindow(db, e, w);
      && next.checkpoint == Checkpoint(db.checkpoint.synced, Some(Least(w)), db.checkpoint.newest)
      && Completed(next, e) == Completed(db, e)
  {
    SameLeast(e, Least(w), db.checkpoint.oldest.value);
    CommitTakesNewest(db, e, db.checkpoint.oldest.value, w, now);
  }

  /** A contract with bounds that the exchange knows and that are not in the future. */
  ghost predicate Bounded(db: Db, e: Exchange, now: int) {
    && db.checkpoint.oldest.Some? && db.checkpoint.newest.Some?
    && db.checkpoint.oldest.value in e.history && db.checkpoint.oldest.value <= now
    && db.checkpoint.oldest.value <= db.checkpoint.newest.value
  }

  lemma {:induction false} LoopCompletes(db: Db, e: Exchange, now: int, before: int)
    requires SecondApart(e.history) && GapsWithinStep(e) && Bounded(db, e, now) && !db.checkpoint.synced
    requires before == db.checkpoint.oldest.value - SECOND
    ensures Backfill(db, Some(before), true, e, now) == Completed(db, e)
    decreases |AtOrBefore(e.history, before)|
  {
    var w := Window(e.history, before - e.fetchStep, before, now);
    if w == {} {
      NothingOlder(db, e, before + SECOND, now);
      assert db.points + map[] == db.points;
    } else {
      var next, bound := TurnTowards(db, e, w, now, before);
      LoopCompletes(next, e, now, bound);
    }
  }

  lemma TurnTowards(db: Db, e: Exchange, w: set<int>, now: int, before: int) returns (next: Db, bound: int)
    requires SecondApart(e.history) && Bounded(db, e, now) && !db.checkpoint.synced
    requires before == db.checkpoint.oldest.value - SECOND
    requires w == Window(e.history, before - e.fetchStep, before, now) && w != {}
    ensures Bounded(next, e, now) && !next.checkpoint.synced && bound == next.checkpoint.oldest.value - SECOND
    ensures Backfill(db, Some(before), true, e, now) == Backfill(next, Some(bound), true, e, now)
    ensures Completed(next, e) == Completed(db, e)
    ensures |AtOrBefore(e.history, bound)| < |AtOrBefore(e.history, before)|
  {
    next := CommitTowards(db, e, w, now);
    bound := Least(w) - SECOND;
    Turn(db, Some(before), true, e, now, w);
  }

  lemma CommitTowards(db: Db, e: Exchange, w: set<int>, now: int) returns (next: Db)
    requires SecondApart(e.history) && Bounded(db, e, now) && !db.checkpoint.synced
    requires var lo := db.checkpoint.oldest.value;
      w == Window(e.history, lo - SECOND - e.fetchStep, lo - SECOND, now) && w != {}
    ensures next == CommitWindow(db, e, w) && next.checkpoint.oldest == Some(Least(w))
    ensures Bounded(next, e, now) && !next.checkpoint.synced
    ensures Completed(next, e) == Completed(db, e)
  {
    next := CommitWindow(db, e, w);
    CompletedTurn(db, e, w, now);
  }

  /**
   With settlements never further apart than the window, a run adds exactly every exchange point older
   than the bounds, moves `oldest` to the first of them, and sets the flag.
   */
  lemma BackfillAddsAllOlder(db: Db, e: Exchange, now: int)
    requires SecondApart(e.history) && GapsWithinStep(e) && Bounded(db, e, now) && !db.checkpoint.synced
    ensures Final(db, e, now) == Completed(db, e)
    ensures var lo, after := db.checkpoint.oldest.value, Final(db, e, now);
      && after.checkpoint.synced && after.checkpoint.newest == db.checkpoint.newest
      && after.checkpoint.oldest.Some? && after.checkpoint.oldest.value in e.history
      && (forall t :: t in e.history ==> after.checkpoint.oldest.value <= t)
      && (forall t :: t in after.points <==> t in db.points || (t in e.history && t < lo))
      && (forall t :: t in after.points ==> after.points[t] == if t in db.points then db.points[t] else e.history[t])
  {
    LoopCompletes(db, e, now, db.checkpoint.oldest.value - SECOND);
    var lo := db.checkpoint.oldest.value;
    assert lo in UpTo(e, lo);
    forall t | t in e.history ensures Least(UpTo(e, lo)) <= t {
      assert t <= lo ==> t in UpTo(e, lo);
    }
  }
}
