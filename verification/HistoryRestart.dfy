/**
 Restarts of a backfill that had no bounds to start from.

 Such an attempt asks from its own clock. The first one that commits anything decides the result, whatever
 the clocks of the later ones are; and two clocks give the same result exactly when their first windows
 have the same newest settlement, or both have none.
 */
module HistoryRestart {
  import opened Prelude
  import opened HistoryStore
  import opened HistoryProtocol
  import opened HistoryBackfill

  /** What a run without bounds asks for at `now`. */
  function FirstWindow(e: Exchange, now: int): set<int> {
    Window(e.history, now - e.fetchStep, now, now)
  }

  // ---------- the first commit decides ----------

  /** The clock of the first attempt that commits anything, or that of the final run. */
  function DecidingClock(e: Exchange, attempts: seq<Attempt>, now: int): int {
    if attempts == [] then now
    else if attempts[0].transactions > 0 && FirstWindow(e, attempts[0].now) != {} then attempts[0].now
    else DecidingClock(e, attempts[1..], now)
  }

  /** Attempts follow each other in time. */
  ghost predicate InOrder(attempts: seq<Attempt>, now: int) {
    && (forall i, j :: 0 <= i < j < |attempts| ==> attempts[i].now <= attempts[j].now)
    && (forall i :: 0 <= i < |attempts| ==> attempts[i].now <= now)
  }

  /** An attempt without bounds either commits its first window or leaves nothing. */
  lemma FirstAttempt(e: Exchange, a: Attempt)
    ensures var cut := CutRun(EMPTY, e, a);
      if a.transactions > 0 && FirstWindow(e, a.now) != {}
      then cut.checkpoint.oldest.Some? && cut.checkpoint.oldest.value <= a.now
      else cut == EMPTY
  {
    var w := FirstWindow(e, a.now);
    if a.transactions > 0 && w != {} {
      PartialTurn(EMPTY, None, false, e, a.now, w, a.transactions);
      OldestOnlyFalls(CommitWindow(EMPTY, e, w), Some(Least(w) - SECOND), true, e, a.now, a.transactions - 1);
    }
  }

  lemma {:induction false} OldestOnlyFalls(db: Db, before: Option<int>, hasStored: bool, e: Exchange, now: int, n: nat)
    requires db.checkpoint.oldest.Some?
    ensures var cut := Partial(db, before, hasStored, e, now, n);
      cut.checkpoint.oldest.Some? && cut.checkpoint.oldest.value <= db.checkpoint.oldest.value
    decreases n
  {
    var w := Window(e.history, End(before, now) - e.fetchStep, End(before, now), now);
    if n > 0 && w != {} {
      PartialTurn(db, before, hasStored, e, now, w, n);
      OldestOnlyFalls(CommitWindow(db, e, w), Some(Least(w) - SECOND), true, e, now, n - 1);
    }
  }

  /** After an attempt that committed, restarts at any later clocks end as that attempt would have ended. */
  lemma RestartAfterFirstCommit(e: Exchange, first: Attempt, rest: seq<Attempt>, now: int)
    requires CutRun(EMPTY, e, first).checkpoint.oldest.Some?
    requires InOrder([first] + rest, now)
    ensures Final(CutRuns(EMPTY, e, [first] + rest), e, now) == Final(EMPTY, e, first.now)
  {
    var cut := CutRun(EMPTY, e, first);
    FirstAttempt(e, first);
    assert ([first] + rest)[1..] == rest && ([first] + rest)[0] == first;
    forall a | a in rest ensures first.now <= a.now {
      var i :| 0 <= i < |rest| && rest[i] == a;
      assert ([first] + rest)[i + 1] == a;
    }
    CrashEquivalence(cut, e, rest, now);
    CutThenFinal(EMPTY, e, first.now, first.transactions);
    ClockIrrelevant(cut, e, now, first.now);
  }

  /** Any number of cut attempts from nothing and a final run end like one run at the deciding clock. */
  lemma {:induction false} CrashFromNullBounds(e: Exchange, attempts: seq<Attempt>, now: int)
    requires InOrder(attempts, now)
    ensures Final(CutRuns(EMPTY, e, attempts), e, now) == Final(EMPTY, e, DecidingClock(e, attempts, now))
  {
    if attempts != [] {
      var first, rest := attempts[0], attempts[1..];
      FirstAttempt(e, first);
      assert attempts == [first] + rest;
      if CutRun(EMPTY, e, first) == EMPTY {
        CrashFromNullBounds(e, rest, now);
      } else {
        RestartAfterFirstCommit(e, first, rest, now);
      }
    }
  }

  // ---------- when two clocks agree ----------

  /** The settlements that one backward request before `lo` gets. */
  function Older(e: Exchange, lo: int): set<int> {
    Window(e.history, lo - SECOND - e.fetchStep, lo - SECOND, lo)
  }

  /** Where a walk backwards from the settlement `lo` ends. */
  function Bottom(e: Exchange, lo: int): int
    decreases |AtOrBefore(e.history, lo - SECOND)|
  {
    var w := Older(e, lo);
    if w == {} then lo else
      MeasureDrops(e, w, lo - SECOND, Least(w));
      Bottom(e, Least(w))
  }

  /** Every settlement that the walk could go through leads to the same end. */
  lemma {:induction false} BottomConfluent(e: Exchange, p: int, q: int)
    requires SecondApart(e.history) && p in e.history && q in Older(e, p)
    ensures Bottom(e, q) == Bottom(e, p)
    decreases |AtOrBefore(e.history, p - SECOND)|
  {
    var m := Least(Older(e, p));
    if m < q {
      MeasureDrops(e, Older(e, p), p - SECOND, q);
      assert m in Older(e, q);
      BottomConfluent(e, q, m);
    }
  }

  /** Exactly the settlements from `lo` to `hi`, with the flag. */
  function Stored(e: Exchange, lo: int, hi: int, synced: bool): Db {
    Db(map t | t in e.history && lo <= t <= hi :: e.history[t], Checkpoint(synced, Some(lo), Some(hi)))
  }

  lemma StoredGrows(e: Exchange, lo: int, hi: int)
    requires SecondApart(e.history) && lo in e.history && lo <= hi && Older(e, lo) != {}
    ensures CommitWindow(Stored(e, lo, hi, false), e, Older(e, lo)) == Stored(e, Least(Older(e, lo)), hi, false)
  {
    var w := Older(e, lo);
    var db, next := Stored(e, lo, hi, false), Stored(e, Least(w), hi, false);
    assert CommitWindow(db, e, w).points == next.points;
  }

  /** The loop stores exactly the settlements from where its walk ends. */
  lemma {:induction false} LoopReachesBottom(e: Exchange, lo: int, hi: int, now: int)
    requires SecondApart(e.history) && lo in e.history && lo <= hi && lo <= now
    ensures Backfill(Stored(e, lo, hi, false), Some(lo - SECOND), true, e, now) == Stored(e, Bottom(e, lo), hi, true)
    decreases |AtOrBefore(e.history, lo - SECOND)|
  {
    var w := Older(e, lo);
    assert w == Window(e.history, lo - SECOND - e.fetchStep, lo - SECOND, now);
    if w != {} {
      Turn(Stored(e, lo, hi, false), Some(lo - SECOND), true, e, now, w);
      StoredGrows(e, lo, hi);
      LoopReachesBottom(e, Least(w), hi, now);
    }
  }

  lemma FirstStored(e: Exchange, now: int)
    requires FirstWindow(e, now) != {}
    ensures var w := FirstWindow(e, now);
      CommitWindow(EMPTY, e, w) == Stored(e, Least(w), Greatest(w), false)
  {
    var w := FirstWindow(e, now);
    assert CommitWindow(EMPTY, e, w).points.Keys == Stored(e, Least(w), Greatest(w), false).points.Keys;
    assert CommitWindow(EMPTY, e, w).points == Stored(e, Least(w), Greatest(w), false).points;
  }

  lemma FirstTurn(e: Exchange, now: int) returns (lo: int, hi: int, db: Db)
    requires FirstWindow(e, now) != {}
    ensures lo == Least(FirstWindow(e, now)) && hi == Greatest(FirstWindow(e, now)) && db == Stored(e, lo, hi, false)
    ensures Backfill(EMPTY, None, false, e, now) == Backfill(db, Some(lo - SECOND), true, e, now)
  {
    var w := FirstWindow(e, now);
    FirstStored(e, now);
    lo, hi, db := TurnFrom(EMPTY, e, now, w);
  }

  lemma TurnFrom(start: Db, e: Exchange, now: int, w: set<int>) returns (lo: int, hi: int, db: Db)
    requires w == FirstWindow(e, now) && w != {}
    ensures lo == Least(w) && hi == Greatest(w) && db == CommitWindow(start, e, w)
    ensures Backfill(start, None, false, e, now) == Backfill(db, Some(lo - SECOND), true, e, now)
  {
    lo, hi, db := Least(w), Greatest(w), CommitWindow(start, e, w);
    Turn(start, None, false, e, now, w);
  }

  /** A whole run from nothing, by its first window alone. */
  lemma FinalFromNothing(e: Exchange, now: int)
    requires SecondApart(e.history)
    ensures var w := FirstWindow(e, now);
      Final(EMPTY, e, now) == if w == {} then EMPTY else Stored(e, Bottom(e, Least(w)), Greatest(w), true)
  {
    assert Final(EMPTY, e, now) == Backfill(EMPTY, None, false, e, now);
    if FirstWindow(e, now) != {} {
      var lo, hi, db := FirstTurn(e, now);
      LoopReachesBottom(e, lo, hi, now);
    }
  }

  /** Both first windows are empty, or both have the same newest settlement. */
  predicate SameStart(e: Exchange, now: int, other: int) {
    var v, w := FirstWindow(e, now), FirstWindow(e, other);
    if v == {} || w == {} then v == w else Greatest(v) == Greatest(w)
  }

  /** Two clocks give a contract without bounds the same history exactly when they start from the same settlement. */
  lemma ClocksAgreeIff(e: Exchange, now: int, other: int)
    requires SecondApart(e.history)
    ensures Final(EMPTY, e, now) == Final(EMPTY, e, other) <==> SameStart(e, now, other)
  {
    var v, w := FirstWindow(e, now), FirstWindow(e, other);
    FinalFromNothing(e, now);
    FinalFromNothing(e, other);
    if v != {} && w != {} && Greatest(v) == Greatest(w) {
      SameBottom(e, Least(v), Least(w), Greatest(v));
    }
  }

  lemma SameBottom(e: Exchange, a: int, b: int, greatest: int)
    requires SecondApart(e.history) && a in e.history && b in e.history
    requires a <= greatest <= a + e.fetchStep && b <= greatest <= b + e.fetchStep
    ensures Bottom(e, a) == Bottom(e, b)
  {
    if a < b {
      assert a in Older(e, b);
      BottomConfluent(e, b, a);
    } else if b < a {
      assert b in Older(e, a);
      BottomConfluent(e, a, b);
    }
  }

  /**
   Crash equivalence without stored bounds: cut attempts in time order and a final run end like one
   uninterrupted run at `start` exactly when `start` and the deciding clock start from the same settlement.
   */
  lemma CrashEquivalentIff(e: Exchange, attempts: seq<Attempt>, now: int, start: int)
    requires SecondApart(e.history) && InOrder(attempts, now)
    ensures Final(CutRuns(EMPTY, e, attempts), e, now) == Final(EMPTY, e, start)
            <==> SameStart(e, DecidingClock(e, attempts, now), start)
  {
    CrashFromNullBounds(e, attempts, now);
    ClocksAgreeIff(e, DecidingClock(e, attempts, now), start);
  }

  /** An attempt that is cut before its first commit, and a restart when the only settlement has left the window. */
  lemma LateRestartMayFindNothing()
    ensures var e := Exchange(map[0 := 0.1], 6 * HOUR);
      && Final(CutRuns(EMPTY, e, [Attempt(0, 0)]), e, 7 * HOUR) == EMPTY
      && Final(EMPTY, e, 0).points == map[0 := 0.1]
  {
    var e := Exchange(map[0 := 0.1], 6 * HOUR);
    CrashFromNullBounds(e, [Attempt(0, 0)], 7 * HOUR);
    assert FirstWindow(e, 0) == {0} && FirstWindow(e, 7 * HOUR) == {};
    assert [Attempt(0, 0)][1..] == [];
    FinalFromNothing(e, 0);
    FinalFromNothing(e, 7 * HOUR);
    assert Older(e, 0) == {};
  }
}
