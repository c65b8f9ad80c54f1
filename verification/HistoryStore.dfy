/**
 One contract's settled history: the stored points, the checkpoint row, and the transactions on them.

 Instants are whole milliseconds since the Unix epoch. The points of a contract are a map because
 (contract, timestamp) is the primary key; statements on different contracts never meet.
 */
module HistoryStore {
  import opened Prelude

  const SECOND := 1_000
  const HOUR := 3_600_000

  datatype Point = Point(timestamp: int, rate: real)

  datatype Checkpoint = Checkpoint(synced: bool, oldest: Option<int>, newest: Option<int>)

  /** The committed state of one contract that has a checkpoint row. */
  datatype Db = Db(points: map<int, real>, checkpoint: Checkpoint)

  /** A new contract: its checkpoint row exists, without bounds. */
  const EMPTY := Db(map[], Checkpoint(false, None, None))

  datatype HistoryError = EmptyBatch | MissingHistoryState | SyncedWithoutBounds

  datatype PersistedBatch = PersistedBatch(oldest: int, newest: int, written: nat)

  function Stamps(batch: seq<Point>): set<int> {
    set p | p in batch :: p.timestamp
  }

  lemma StampsNonempty(batch: seq<Point>)
    requires batch != []
    ensures Stamps(batch) != {}
  {
    assert batch[0] in batch && batch[0].timestamp in Stamps(batch);
  }

  // ---------- what each statement leaves ----------

  /** Insert in order, ignoring conflicts: the first writer of a timestamp wins. */
  function InsertAll(points: map<int, real>, batch: seq<Point>): map<int, real> {
    if batch == [] then points else
      var n := |batch| - 1;
      var before := InsertAll(points, batch[..n]);
      if batch[n].timestamp in before then before else before[batch[n].timestamp := batch[n].rate]
  }

  /** The rows the insert returns: one for each point that found its timestamp free. */
  function Inserted(points: map<int, real>, batch: seq<Point>): nat {
    if batch == [] then 0 else
      var n := |batch| - 1;
      Inserted(points, batch[..n]) + if batch[n].timestamp in InsertAll(points, batch[..n]) then 0 else 1
  }

  function MergeBounds(c: Checkpoint, oldest: int, newest: int): Checkpoint {
    c.(oldest := Some(if c.oldest.None? || oldest < c.oldest.value then oldest else c.oldest.value),
       newest := Some(if c.newest.None? || newest > c.newest.value then newest else c.newest.value))
  }

  /** The state one persisted batch leaves. */
  function Commit(db: Db, batch: seq<Point>): Db
    requires batch != []
  {
    StampsNonempty(batch);
    Db(InsertAll(db.points, batch), MergeBounds(db.checkpoint, Least(Stamps(batch)), Greatest(Stamps(batch))))
  }

  function MarkSynced(db: Db): Db {
    db.(checkpoint := db.checkpoint.(synced := true))
  }

  // ---------- what they mean ----------

  /** The rate of the first point of the batch with timestamp `t`. */
  function FirstRate(batch: seq<Point>, t: int): real
    requires t in Stamps(batch)
  {
    if batch[0].timestamp == t then batch[0].rate else
      StampsSplit(batch, 1);
      FirstRate(batch[1..], t)
  }

  lemma StampsSplit(batch: seq<Point>, n: nat)
    requires n <= |batch|
    ensures Stamps(batch) == Stamps(batch[..n]) + Stamps(batch[n..])
    ensures n == 1 ==> Stamps(batch[..1]) == {batch[0].timestamp}
    ensures n + 1 == |batch| ==> Stamps(batch[n..]) == {batch[n].timestamp}
  {
    assert batch == batch[..n] + batch[n..];
  }

  lemma {:induction false} FirstRateInBatch(batch: seq<Point>, t: int)
    requires t in Stamps(batch)
    ensures Point(t, FirstRate(batch, t)) in batch
  {
    if batch[0].timestamp == t {
      assert batch[0] in batch;
    } else {
      StampsSplit(batch, 1);
      FirstRateInBatch(batch[1..], t);
    }
  }

  lemma {:induction false} FirstRateOfPrefix(batch: seq<Point>, n: nat, t: int)
    requires n <= |batch| && t in Stamps(batch[..n])
    ensures t in Stamps(batch) && FirstRate(batch, t) == FirstRate(batch[..n], t)
  {
    StampsSplit(batch, n);
    if batch[0].timestamp != t {
      StampsSplit(batch[..n], 1);
      assert batch[..n][1..] == batch[1..][..n - 1];
      FirstRateOfPrefix(batch[1..], n - 1, t);
    }
  }

  lemma {:induction false} FirstRateAtEnd(batch: seq<Point>, t: int)
    requires batch != [] && t !in Stamps(batch[..|batch| - 1]) && batch[|batch| - 1].timestamp == t
    ensures t in Stamps(batch) && FirstRate(batch, t) == batch[|batch| - 1].rate
  {
    var n := |batch| - 1;
    StampsSplit(batch, n);
    if n > 0 {
      StampsSplit(batch[..n], 1);
      assert batch[..n][..1] == batch[..1] && batch[..n][1..] == batch[1..][..n - 1];
      StampsSplit(batch[..1], 1);
      FirstRateAtEnd(batch[1..], t);
    }
  }

  /** Nothing stored changes, exactly the batch's timestamps are added, each with its first rate in the batch. */
  lemma {:induction false} InsertAllMeaning(points: map<int, real>, batch: seq<Point>)
    ensures InsertAll(points, batch).Keys == points.Keys + Stamps(batch)
    ensures forall t :: t in points ==> InsertAll(points, batch)[t] == points[t]
    ensures forall t :: t in Stamps(batch) && t !in points ==> InsertAll(points, batch)[t] == FirstRate(batch, t)
  {
    if batch != [] {
      var n := |batch| - 1;
      InsertAllMeaning(points, batch[..n]);
      StampsSplit(batch, n);
      forall t | t in Stamps(batch) && t !in points
        ensures InsertAll(points, batch)[t] == FirstRate(batch, t)
      {
        if t in Stamps(batch[..n]) {
          FirstRateOfPrefix(batch, n, t);
        } else {
          FirstRateAtEnd(batch, t);
        }
      }
    }
  }

  /** The rate that is stored is that of the first point of the batch at its timestamp. */
  lemma {:induction false} FirstRateIsFirst(batch: seq<Point>, t: int) returns (i: nat)
    requires t in Stamps(batch)
    ensures i < |batch| && batch[i] == Point(t, FirstRate(batch, t))
    ensures forall j :: 0 <= j < i ==> batch[j].timestamp != t
  {
    if batch[0].timestamp == t {
      i := 0;
    } else {
      StampsSplit(batch, 1);
      var k := FirstRateIsFirst(batch[1..], t);
      i := k + 1;
    }
  }

  /** Inserting one batch after another is inserting them together. */
  lemma {:induction false} InsertAllOfConcatenation(points: map<int, real>, a: seq<Point>, b: seq<Point>)
    ensures InsertAll(points, a + b) == InsertAll(InsertAll(points, a), b)
  {
    if b == [] {
      assert a + b == a;
    } else {
      var n := |b| - 1;
      assert (a + b)[..|a + b| - 1] == a + b[..n];
      InsertAllOfConcatenation(points, a, b[..n]);
    }
  }

  /** The returned rows are the growth of the table, duplicates inside the batch and against it included. */
  lemma {:induction false} InsertedIsGrowth(points: map<int, real>, batch: seq<Point>)
    ensures |InsertAll(points, batch)| == |points| + Inserted(points, batch)
    ensures Inserted(points, batch) <= |batch|
  {
    if batch != [] {
      InsertedIsGrowth(points, batch[..|batch| - 1]);
    }
  }

  /** The checkpoint bounds are the least and greatest stored timestamps, and null together when nothing is stored. */
  ghost predicate Exact(db: Db) {
    var c := db.checkpoint;
    && (c.oldest.None? <==> db.points.Keys == {})
    && (c.newest.None? <==> db.points.Keys == {})
    && (c.oldest.Some? ==> c.oldest.value in db.points && forall t :: t in db.points ==> c.oldest.value <= t)
    && (c.newest.Some? ==> c.newest.value in db.points && forall t :: t in db.points ==> t <= c.newest.value)
    && (c.synced ==> c.oldest.Some? && c.newest.Some?)
  }

  lemma CommitKeepsExact(db: Db, batch: seq<Point>)
    requires Exact(db) && batch != []
    ensures Exact(Commit(db, batch))
  {
    StampsNonempty(batch);
    InsertAllMeaning(db.points, batch);
  }

  /** A commit, timestamp by timestamp and bound by bound, from any state. */
  lemma CommitMeaning(db: Db, batch: seq<Point>, t: int)
    requires batch != []
    ensures var after := Commit(db, batch);
      && (t in after.points <==> t in db.points || exists i :: 0 <= i < |batch| && batch[i].timestamp == t)
      && (t in db.points ==> after.points[t] == db.points[t])
      && (t in after.points && t !in db.points ==>
            exists i :: 0 <= i < |batch| && batch[i] == Point(t, after.points[t])
              && forall j :: 0 <= j < i ==> batch[j].timestamp != t)
    ensures var before, after := db.checkpoint, Commit(db, batch).checkpoint;
      && after.synced == before.synced && after.oldest.Some? && after.newest.Some?
      && (forall i :: 0 <= i < |batch| ==> after.oldest.value <= batch[i].timestamp <= after.newest.value)
      && (before.oldest.Some? ==> after.oldest.value <= before.oldest.value)
      && (before.newest.Some? ==> before.newest.value <= after.newest.value)
      && (after.oldest == before.oldest || exists i :: 0 <= i < |batch| && after.oldest == Some(batch[i].timestamp))
      && (after.newest == before.newest || exists i :: 0 <= i < |batch| && after.newest == Some(batch[i].timestamp))
  {
    StampsNonempty(batch);
    InsertAllMeaning(db.points, batch);
    StampAt(batch, Least(Stamps(batch)));
    StampAt(batch, Greatest(Stamps(batch)));
    forall i | 0 <= i < |batch| ensures batch[i].timestamp in Stamps(batch) {
      assert batch[i] in batch;
    }
    if t in Stamps(batch) {
      StampAt(batch, t);
      var i := FirstRateIsFirst(batch, t);
    }
  }

  lemma StampAt(batch: seq<Point>, t: int)
    requires t in Stamps(batch)
    ensures exists i :: 0 <= i < |batch| && batch[i].timestamp == t
  {
    var p :| p in batch && p.timestamp == t;
    var i :| 0 <= i < |batch| && batch[i] == p;
  }

  /** The batches give every shared timestamp the same rate. */
  ghost predicate Agree(a: seq<Point>, b: seq<Point>) {
    forall p, q :: p in a && q in b && p.timestamp == q.timestamp ==> p.rate == q.rate
  }

  lemma InsertOrderIrrelevant(points: map<int, real>, a: seq<Point>, b: seq<Point>)
    ensures InsertAll(InsertAll(points, a), b).Keys == InsertAll(InsertAll(points, b), a).Keys
    ensures Agree(a, b) ==> InsertAll(InsertAll(points, a), b) == InsertAll(InsertAll(points, b), a)
  {
    var pa, pb := InsertAll(points, a), InsertAll(points, b);
    InsertAllMeaning(points, a);
    InsertAllMeaning(points, b);
    InsertAllMeaning(pa, b);
    InsertAllMeaning(pb, a);
    var ab, ba := InsertAll(pa, b), InsertAll(pb, a);
    assert ab.Keys == ba.Keys;
    if Agree(a, b) {
      forall t | t in ab ensures ab[t] == ba[t] {
        if t !in points && t in Stamps(a) && t in Stamps(b) {
          FirstRateInBatch(a, t);
          FirstRateInBatch(b, t);
        }
      }
      assert ab == ba;
    }
  }

  lemma MergeOrderIrrelevant(c: Checkpoint, o1: int, n1: int, o2: int, n2: int)
    ensures MergeBounds(MergeBounds(c, o1, n1), o2, n2) == MergeBounds(MergeBounds(c, o2, n2), o1, n1)
  {
  }

  /**
   Two batches leave the same timestamps, bounds and flag in either order, and the same rates too
   unless they disagree on a timestamp.
   */
  lemma CommitOrderIrrelevant(db: Db, a: seq<Point>, b: seq<Point>)
    requires a != [] && b != []
    ensures Commit(Commit(db, a), b).checkpoint == Commit(Commit(db, b), a).checkpoint
    ensures Commit(Commit(db, a), b).points.Keys == Commit(Commit(db, b), a).points.Keys
    ensures Agree(a, b) ==> Commit(Commit(db, a), b) == Commit(Commit(db, b), a)
  {
    StampsNonempty(a);
    StampsNonempty(b);
    InsertOrderIrrelevant(db.points, a, b);
    MergeOrderIrrelevant(db.checkpoint,
                         Least(Stamps(a)), Greatest(Stamps(a)), Least(Stamps(b)), Greatest(Stamps(b)));
  }

  // ---------- the exchange ----------

  /** The settled timestamps of the exchange in [start, end] that are visible at `now`. */
  function Window(history: map<int, real>, start: int, end: int, now: int): set<int> {
    set t | t in history && start <= t <= end && t <= now
  }

  /** An adapter's answer: every settled point of the window and no other, in any order, possibly repeated. */
  ghost predicate IsAnswer(batch: seq<Point>, history: map<int, real>, start: int, end: int, now: int) {
    && Stamps(batch) == Window(history, start, end, now)
    && forall p :: p in batch ==> p.timestamp in history && p.rate == history[p.timestamp]
  }

  // ---------- the transactions, executed in place ----------

  class HistoryTable {
    var points: map<int, real>
    var checkpoint: Option<Checkpoint>

    constructor ()
      ensures points == map[] && checkpoint == None
    {
      points := map[];
      checkpoint := None;
    }

    /** The registry's repair: a missing checkpoint row is created unsynced and without bounds. */
    method CreateMissingState()
      modifies this`checkpoint
      ensures checkpoint == if old(checkpoint).None? then Some(Checkpoint(false, None, None)) else old(checkpoint)
    {
      if checkpoint.None? {
        checkpoint := Some(Checkpoint(false, None, None));
      }
    }

    method InsertPoints(batch: seq<Point>) returns (inserted: nat)
      modifies this`points
      ensures points == InsertAll(old(points), batch)
      ensures inserted == Inserted(old(points), batch) == |points| - |old(points)|
    {
      inserted := 0;
      for i := 0 to |batch|
        invariant points == InsertAll(old(points), batch[..i])
        invariant inserted == Inserted(old(points), batch[..i])
      {
        assert batch[..i + 1][..i] == batch[..i];
        if batch[i].timestamp !in points {
          points := points[batch[i].timestamp := batch[i].rate];
          inserted := inserted + 1;
        }
      }
      assert batch[..|batch|] == batch;
      InsertedIsGrowth(old(points), batch);
    }

    method UpdateBounds(oldest: int, newest: int) returns (result: Result<(), HistoryError>)
      modifies this`checkpoint
      ensures result.Ok? <==> old(checkpoint).Some?
      ensures result.Ok? ==> checkpoint == Some(MergeBounds(old(checkpoint).value, oldest, newest))
      ensures result.Err? ==> result.error == MissingHistoryState && checkpoint == old(checkpoint)
    {
      match checkpoint {
        case None =>
          result := Err(MissingHistoryState);
        case Some(c) =>
          var o := if c.oldest.None? then oldest else if c.oldest.value <= oldest then c.oldest.value else oldest;
          var n := if c.newest.None? then newest else if c.newest.value >= newest then c.newest.value else newest;
          checkpoint := Some(Checkpoint(c.synced, Some(o), Some(n)));
          result := Ok(());
      }
    }

    method MarkHistorySynced() returns (result: Result<(), HistoryError>)
      modifies this`checkpoint
      ensures result.Ok? <==>
              old(checkpoint).Some? && old(checkpoint).value.oldest.Some? && old(checkpoint).value.newest.Some?
      ensures result.Ok? ==> checkpoint == Some(old(checkpoint).value.(synced := true))
      ensures result.Err? ==> checkpoint == old(checkpoint)
    {
      if checkpoint.None? {
        return Err(MissingHistoryState);
      }
      if checkpoint.value.oldest.None? || checkpoint.value.newest.None? {
        return Err(SyncedWithoutBounds);
      }
      checkpoint := Some(checkpoint.value.(synced := true));
      result := Ok(());
    }

    /** Insert the points and merge the bounds in one transaction; an error leaves both untouched. */
    method PersistBatch(batch: seq<Point>) returns (result: Result<PersistedBatch, HistoryError>)
      modifies this
      ensures result.Ok? <==> batch != [] && old(checkpoint).Some?
      ensures result.Err? ==> points == old(points) && checkpoint == old(checkpoint)
      ensures result.Err? ==> result.error == if batch == [] then EmptyBatch else MissingHistoryState
      ensures result.Ok? ==>
                var after := Commit(Db(old(points), old(checkpoint).value), batch);
                && points == after.points && checkpoint == Some(after.checkpoint)
                && Stamps(batch) != {}
                && result.value.oldest == Least(Stamps(batch)) && result.value.newest == Greatest(Stamps(batch))
                && result.value.written == |points| - |old(points)| <= |batch|
    {
      if batch == [] {
        return Err(EmptyBatch);
      }
      var oldest, newest := BatchBounds(batch);
      var saved := points;
      var written := InsertPoints(batch);
      InsertedIsGrowth(saved, batch);
      var merged := UpdateBounds(oldest, newest);
      if merged.Err? {
        points := saved;
        return Err(merged.error);
      }
      result := Ok(PersistedBatch(oldest, newest, written));
    }
  }

  method BatchBounds(batch: seq<Point>) returns (oldest: int, newest: int)
    requires batch != []
    ensures Stamps(batch) != {} && oldest == Least(Stamps(batch)) && newest == Greatest(Stamps(batch))
    ensures forall i :: 0 <= i < |batch| ==> oldest <= batch[i].timestamp <= newest
    ensures exists i :: 0 <= i < |batch| && batch[i].timestamp == oldest
    ensures exists i :: 0 <= i < |batch| && batch[i].timestamp == newest
  {
    StampsNonempty(batch);
    oldest, newest := batch[0].timestamp, batch[0].timestamp;
    assert batch[0] in batch;
    for i := 1 to |batch|
      invariant oldest in Stamps(batch) && newest in Stamps(batch)
      invariant forall j :: 0 <= j < i ==> oldest <= batch[j].timestamp <= newest
    {
      assert batch[i] in batch;
      if batch[i].timestamp < oldest {
        oldest := batch[i].timestamp;
      }
      if batch[i].timestamp > newest {
        newest := batch[i].timestamp;
      }
    }
    forall t | t in Stamps(batch) ensures oldest <= t <= newest {
      var p :| p in batch && p.timestamp == t;
    }
    StampAt(batch, oldest);
    StampAt(batch, newest);
  }
}
