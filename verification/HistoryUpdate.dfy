/** The incremental update of one contract: the freshness gate and the forward fetch. */
module HistoryUpdate {
  import opened Prelude
  import opened HistoryStore
  import opened HistoryProtocol
  import opened HistoryBackfill

  predicate IsFresh(c: Checkpoint, intervalHours: nat, now: int) {
    c.newest.Some? && now - (c.newest.value + SECOND) < intervalHours * HOUR
  }

  datatype UpdateResult = Skipped | Updated(fetched: nat, written: nat)

  /** The state one update leaves: unchanged when it is skipped or the exchange has nothing newer. */
  ghost function UpdatedDb(db: Db, e: Exchange, intervalHours: nat, startedAt: int, now: int): Db {
    var after := NextFetchTimestamp(db.checkpoint, startedAt);
    var w := Window(e.history, after, now, now);
    if IsFresh(db.checkpoint, intervalHours, startedAt) || w == {} then db else CommitWindow(db, e, w)
  }

  method UpdateContract(store: HistoryTable, e: Exchange, intervalHours: nat, startedAt: int, now: int, ghost db: Db)
    returns (result: Result<UpdateResult, HistoryError>, ghost received: seq<Point>)
    requires Holds(store, db)
    modifies store
    ensures Holds(store, UpdatedDb(db, e, intervalHours, startedAt, now))
    ensures result.Ok?
    ensures result.value.Skipped? <==>
            db.checkpoint.newest.Some? && startedAt - db.checkpoint.newest.value - SECOND < intervalHours * HOUR
    ensures result.value.Skipped? ==> received == [] && store.points == db.points
    ensures result.value.Updated? ==>
              var after := if db.checkpoint.newest.Some? then db.checkpoint.newest.value + SECOND
                           else BucketStart(startedAt, HOUR) - SECOND;
              && IsAnswer(received, e.history, after, now, now)
              && store.points == InsertAll(db.points, received)
              && result.value.fetched == |received|
              && result.value.written == |store.points| - |db.points| <= |received|
  {
    var state := store.checkpoint.value;
    received := [];
    if IsFresh(state, intervalHours, startedAt) {
      return Ok(Skipped), received;
    }
    var after := NextFetchTimestamp(state, startedAt);
    var batch := FetchWindow(e.history, after, now, now);
    received := batch;
    if batch == [] {
      assert Stamps([]) == {};
      return Ok(Updated(0, 0)), received;
    }
    AnswerCommits(db, e, batch, after, now, now);
    var persisted := store.PersistBatch(batch);
    result := Ok(Updated(|batch|, persisted.value.written));
  }

  /** A contract that is due gets exactly the settlements from a second after its newest one to now. */
  lemma DueContractIsUpdated(db: Db, e: Exchange, intervalHours: nat, startedAt: int, now: int, t: int)
    requires db.checkpoint.newest.Some? && startedAt - db.checkpoint.newest.value - SECOND >= intervalHours * HOUR
    ensures var newest, after := db.checkpoint.newest.value, UpdatedDb(db, e, intervalHours, startedAt, now);
      && (t in after.points <==> t in db.points || (t in e.history && newest + SECOND <= t <= now))
      && (t in db.points ==> after.points[t] == db.points[t])
      && (t in after.points && t !in db.points ==> after.points[t] == e.history[t])
      && after.checkpoint.synced == db.checkpoint.synced && after.checkpoint.newest.Some?
      && (t in e.history && newest + SECOND <= t <= now ==> t <= after.checkpoint.newest.value)
      && (after.checkpoint.newest.value == newest
          || (after.checkpoint.newest.value in e.history && newest + SECOND <= after.checkpoint.newest.value <= now))
  {
    var w := Window(e.history, db.checkpoint.newest.value + SECOND, now, now);
    assert t in w <==> t in e.history && db.checkpoint.newest.value + SECOND <= t <= now;
  }

  /** A contract without bounds gets those from a second before the hour of its start. */
  lemma NewContractIsUpdated(db: Db, e: Exchange, intervalHours: nat, startedAt: int, now: int, t: int)
    requires db.checkpoint.newest.None?
    ensures var after := UpdatedDb(db, e, intervalHours, startedAt, now);
      && (t in after.points <==>
            t in db.points || (t in e.history && BucketStart(startedAt, HOUR) - SECOND <= t <= now))
      && (t in after.points && t !in db.points ==> after.points[t] == e.history[t])
  {
    var w := Window(e.history, BucketStart(startedAt, HOUR) - SECOND, now, now);
    assert t in w <==> t in e.history && BucketStart(startedAt, HOUR) - SECOND <= t <= now;
  }

  /** A fresh contract is left as it is. */
  lemma FreshContractIsLeftAlone(db: Db, e: Exchange, intervalHours: nat, startedAt: int, now: int)
    requires db.checkpoint.newest.Some? && startedAt - db.checkpoint.newest.value - SECOND < intervalHours * HOUR
    ensures UpdatedDb(db, e, intervalHours, startedAt, now) == db
  {
  }

  /**
   An update of a due contract keeps its history gap-free and makes it complete up to now: from its oldest point
   on, exactly the settlements up to now are stored.
   */
  lemma UpdateReachesNow(db: Db, e: Exchange, intervalHours: nat, startedAt: int, now: int)
    requires Exact(db) && GapFree(db, e) && SecondApart(e.history)
    requires db.checkpoint.newest.Some? && db.checkpoint.newest.value <= now
    requires startedAt - db.checkpoint.newest.value - SECOND >= intervalHours * HOUR
    ensures var after := UpdatedDb(db, e, intervalHours, startedAt, now);
      && Exact(after) && GapFree(after, e) && after.checkpoint.oldest == db.checkpoint.oldest
      && forall t :: t in after.points <==> t in e.history && db.checkpoint.oldest.value <= t <= now
  {
    var after := UpdatedDb(db, e, intervalHours, startedAt, now);
    var lo, hi := db.checkpoint.oldest.value, db.checkpoint.newest.value;
    forall t ensures t in after.points <==> t in e.history && lo <= t <= now {
      DueContractIsUpdated(db, e, intervalHours, startedAt, now, t);
      assert t in e.history && hi < t ==> hi + SECOND <= t;
    }
  }

  /**
   What the freshness gate can cost: with settlements at least one interval apart, a skipped contract has
   an unseen settlement only if it is the one exactly due and the job started within a second of it.
   */
  lemma FreshSkipsAtMostTheDueSecond(e: Exchange, c: Checkpoint, intervalHours: nat, now: int, t: int)
    requires c.newest.Some? && now - c.newest.value - SECOND < intervalHours * HOUR && c.newest.value in e.history
    requires forall a, b :: a in e.history && b in e.history && a < b ==> a + intervalHours * HOUR <= b
    requires t in e.history && c.newest.value < t <= now
    ensures c.newest.value + intervalHours * HOUR <= t <= now < c.newest.value + intervalHours * HOUR + SECOND
  {
  }
}
