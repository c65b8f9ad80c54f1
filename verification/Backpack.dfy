/**
 Backpack's offset pagination: offset k of a request made at `now` names the grid time
 (floor(now / interval) - k + 1) * interval, so offset 1 is the latest settled time and offset 0 the next one.

 Instants are whole seconds; `i` is the settlement interval in seconds.
 */
module Backpack {
  import opened Prelude

  const FETCH_STEP_HOURS := 1_000
  const HOUR := 3_600

  function GridTime(offset: int, now: int, i: int): int
    requires i > 0
  {
    (now / i - offset + 1) * i
  }

  /** The times a request for `limit` records from `offset` on names. */
  ghost predicate Requested(t: int, offset: int, limit: int, now: int, i: int)
    requires i > 0
  {
    exists k :: offset <= k < offset + limit && t == GridTime(k, now, i)
  }

  /** Python's `int(x / y)`: truncation towards zero. */
  function TruncatedQuotient(x: int, i: int): int
    requires i > 0
  {
    if x >= 0 then x / i else -((-x) / i)
  }

  /** `limit` of `fetch_history_after`; its offset is 1. */
  function AfterLimit(now: int, after: int, i: int): int
    requires i > 0
  {
    (now - after) / i
  }

  function BeforeOffset(now: int, end: int, i: int): int
    requires i > 0
  {
    1 + TruncatedQuotient(now - end, i)
  }

  function BeforeLimit(intervalHours: int): int
    requires intervalHours > 0
  {
    FETCH_STEP_HOURS / intervalHours
  }

  /** Differences of instants against differences of their interval numbers. */
  lemma QuotientOfDifference(a: int, b: int, i: int)
    requires i > 0
    ensures (a - b) / i == a / i - b / i - if b % i <= a % i then 0 else 1
  {
    var q := a / i - b / i - if b % i <= a % i then 0 else 1;
    assert a == a / i * i + a % i && b == b / i * i + b % i;
    assert (a / i - b / i) * i == a / i * i - b / i * i;
    assert (a / i - b / i - 1) * i == a / i * i - b / i * i - i;
    BucketIsQuotient(a - b, q, i);
  }

  lemma GridIndex(t: int, i: int)
    requires i > 0 && t % i == 0
    ensures t == t / i * i
  {
  }

  lemma GridUpTo(t: int, x: int, i: int)
    requires i > 0 && t % i == 0
    ensures t <= x <==> t / i <= x / i
  {
    GridIndex(t, i);
    var a, b := t / i, x / i;
    assert x == b * i + x % i;
    if a <= b {
      ProductMonotone(a, b, i);
    } else {
      ProductMonotone(b + 1, a, i);
      assert (b + 1) * i == b * i + i;
    }
  }

  lemma GridBetween(t: int, after: int, now: int, i: int)
    requires i > 0 && t % i == 0
    ensures after < t <= now <==> after / i < t / i <= now / i
  {
    GridUpTo(t, after, i);
    GridUpTo(t, now, i);
  }

  lemma RequestedIndex(t: int, offset: int, limit: int, now: int, i: int)
    requires i > 0
    ensures Requested(t, offset, limit, now, i) <==>
            t % i == 0 && now / i - offset + 1 - limit < t / i <= now / i - offset + 1
  {
    if Requested(t, offset, limit, now, i) {
      var k :| offset <= k < offset + limit && t == GridTime(k, now, i);
      BucketIsQuotient(t, now / i - k + 1, i);
    }
    if t % i == 0 && now / i - offset + 1 - limit < t / i <= now / i - offset + 1 {
      GridIndex(t, i);
      var k := now / i + 1 - t / i;
      assert t == GridTime(k, now, i);
    }
  }

  /** The number of settled times in (after, now]. */
  function SettledBetween(after: int, now: int, i: int): int
    requires i > 0
  {
    now / i - after / i
  }

  /** The forward limit is the number of settled times, unless the clock's phase is behind: then it is one short. */
  lemma AfterLimitCountsSettled(now: int, after: int, i: int)
    requires i > 0
    ensures AfterLimit(now, after, i) == SettledBetween(after, now, i) - if after % i <= now % i then 0 else 1
  {
    QuotientOfDifference(now, after, i);
  }

  /** What the forward fetch keeps: the requested times after `after`. */
  ghost predicate FetchedAfter(t: int, now: int, after: int, i: int)
    requires i > 0
  {
    AfterLimit(now, after, i) >= 1 && Requested(t, 1, AfterLimit(now, after, i), now, i) && t > after
  }

  /**
   The forward fetch returns exactly the settled times in (after, now] when after's phase is not ahead of
   the clock's; otherwise it misses exactly the oldest of them.
   */
  lemma FetchAfterMisses(now: int, after: int, i: int, t: int)
    requires i > 0 && after <= now
    ensures FetchedAfter(t, now, after, i) <==>
            t % i == 0 && after < t <= now && (after % i <= now % i || t / i != after / i + 1)
  {
    AfterLimitCountsSettled(now, after, i);
    RequestedIndex(t, 1, AfterLimit(now, after, i), now, i);
    if t % i == 0 {
      GridBetween(t, after, now, i);
    }
  }

  /**
   The update job asks after `newest` plus one second: the only settled time it can miss is the very next one,
   and it misses that one only in the first second of an interval.
   */
  lemma UpdateMissesOnlyInFirstSecond(now: int, newest: int, i: int, t: int)
    requires i > 1 && newest % i == 0 && newest + 1 <= now
    ensures FetchedAfter(t, now, newest + 1, i) <==>
            t % i == 0 && newest < t <= now && (now % i >= 1 || t != newest + i)
  {
    NextSecond(newest, i);
    FetchAfterMisses(now, newest + 1, i, t);
    if t % i == 0 {
      NextSettled(newest, i, t);
    }
  }

  lemma NextSecond(newest: int, i: int)
    requires i > 1 && newest % i == 0
    ensures (newest + 1) / i == newest / i && (newest + 1) % i == 1
  {
    GridIndex(newest, i);
    BucketIsQuotient(newest + 1, newest / i, i);
  }

  lemma NextSettled(newest: int, i: int, t: int)
    requires i > 1 && newest % i == 0 && t % i == 0
    ensures t / i == newest / i + 1 <==> t == newest + i
    ensures t != newest + 1
  {
    GridIndex(newest, i);
    GridIndex(t, i);
    NextSecond(newest, i);
    assert (newest / i + 1) * i == newest / i * i + i;
    if t == newest + i {
      BucketIsQuotient(t, newest / i + 1, i);
    }
  }

  /**
   The backward request starts at the newest settled time not after `end`, or at the one just above it when
   end's phase is ahead of the clock's: it skips nothing and overlaps at most one newer record.
   */
  lemma BeforeSkipsNothing(now: int, end: int, i: int)
    requires i > 0 && end <= now
    ensures GridTime(BeforeOffset(now, end, i), now, i) == BucketStart(end, i) + if end % i <= now % i then 0 else i
    ensures GridTime(BeforeOffset(now, end, i) + 1, now, i) <= end
  {
    QuotientOfDifference(now, end, i);
    var k := BeforeOffset(now, end, i);
    var e := end / i;
    assert now / i - k + 1 == e + if end % i <= now % i then 0 else 1;
    assert (e + 1) * i == e * i + i;
    assert (now / i - k) * i == GridTime(k, now, i) - i by {
      assert (now / i - k + 1) * i == (now / i - k) * i + i;
    }
  }

  /**
   What the backward request names: as many consecutive settlements as fit into the fetch step, downwards from
   there.
   */
  lemma BeforeWindow(now: int, end: int, intervalHours: int, t: int)
    requires intervalHours > 0 && end <= now
    ensures var i := intervalHours * HOUR;
      var newest := BucketStart(end, i) + if end % i <= now % i then 0 else i;
      && i > 0 && newest - i <= end
      && (Requested(t, BeforeOffset(now, end, i), BeforeLimit(intervalHours), now, i) <==>
          t % i == 0 && newest / i - FETCH_STEP_HOURS / intervalHours < t / i <= newest / i)
  {
    var i := intervalHours * HOUR;
    var k := BeforeOffset(now, end, i);
    BeforeSkipsNothing(now, end, i);
    RequestedIndex(t, k, BeforeLimit(intervalHours), now, i);
    BucketIsQuotient(GridTime(k, now, i), now / i - k + 1, i);
  }

  /** A bound ahead of the clock: the request starts no later than the newest settled time. */
  lemma FutureBoundSkipsNothing(now: int, end: int, i: int)
    requires i > 0 && now < end
    ensures BucketStart(now, i) <= GridTime(BeforeOffset(now, end, i), now, i) <= end
  {
    var ahead := (end - now) / i;
    assert TruncatedQuotient(now - end, i) == -ahead by {
      BucketMonotone(0, end - now, i);
    }
    BucketMonotone(0, end - now, i);
    ProductMonotone(0, ahead, i);
    assert (now / i + ahead) * i == now / i * i + ahead * i;
    assert end - now == ahead * i + (end - now) % i;
  }

  /** The records of an exchange whose first settled time is `first`, as the backward request returns them. */
  ghost predicate AnsweredBefore(t: int, now: int, end: int, i: int, limit: int, first: int)
    requires i > 0
  {
    Requested(t, BeforeOffset(now, end, i), limit, now, i) && first <= t
  }

  /**
   Asking before the very first settled time gives an empty answer only in the last second of an interval.
   At any other time the answer is that first record again, so the walk asks the same question once more
   instead of finding the history exhausted.
   */
  lemma ExhaustedRequestRepeatsFirst(now: int, first: int, i: int, limit: int, t: int)
    requires i > 1 && limit >= 1 && first % i == 0 && first <= now
    ensures AnsweredBefore(t, now, first - 1, i, limit, first) <==> t == first && now % i != i - 1
  {
    var end := first - 1;
    BeforeFirst(first, i);
    QuotientOfDifference(now, end, i);
    RequestedIndex(t, BeforeOffset(now, end, i), limit, now, i);
    if t % i == 0 {
      GridUpTo(first, t, i);
      GridIndex(t, i);
      GridIndex(first, i);
    }
  }

  lemma BeforeFirst(first: int, i: int)
    requires i > 1 && first % i == 0
    ensures (first - 1) / i == first / i - 1 && (first - 1) % i == i - 1
  {
    GridIndex(first, i);
    assert (first / i - 1) * i == first / i * i - i;
    BucketIsQuotient(first - 1, first / i - 1, i);
  }
}
