/**
 The four layers of the `lfp_smart` view: which layers show an instant of live data.

 Instants are whole seconds. Buckets of 5, 15 and 60 minutes start at multiples of their width.
 */
module SmartView {
  import opened Prelude

  const MINUTE := 60
  const HOUR := 3_600
  const DAY := 86_400

  const RAW_SPAN := 3 * HOUR
  const FIVE_MINUTE_SPAN := 3 * DAY
  const QUARTER_HOUR_SPAN := 7 * DAY
  const HOURLY_SPAN := 30 * DAY

  predicate InRaw(t: int, now: int) {
    t >= now - RAW_SPAN
  }

  predicate InFiveMinutes(t: int, now: int) {
    now - FIVE_MINUTE_SPAN <= BucketStart(t, 5 * MINUTE) < now - RAW_SPAN
  }

  predicate InQuarterHours(t: int, now: int) {
    now - QUARTER_HOUR_SPAN <= BucketStart(t, 15 * MINUTE) < now - FIVE_MINUTE_SPAN
  }

  predicate InHours(t: int, now: int) {
    now - HOURLY_SPAN <= BucketStart(t, HOUR) < now - QUARTER_HOUR_SPAN
  }

  function One(b: bool): nat {
    if b then 1 else 0
  }

  /** How many layers show the instant `t`. */
  function Layers(t: int, now: int): nat {
    One(InRaw(t, now)) + One(InFiveMinutes(t, now)) + One(InQuarterHours(t, now)) + One(InHours(t, now))
  }

  /** A coarser bucket starts no later than the finer bucket inside it. */
  lemma BucketsNest(t: int)
    ensures BucketStart(t, HOUR) <= BucketStart(t, 15 * MINUTE) <= BucketStart(t, 5 * MINUTE) <= t
    ensures t < BucketStart(t, HOUR) + HOUR
  {
    NestedBucket(t, 5 * MINUTE, 3);
    NestedBucket(t, 15 * MINUTE, 4);
  }

  lemma NestedBucket(t: int, fine: int, factor: int)
    requires fine > 0 && factor > 0
    ensures fine * factor > 0
    ensures BucketStart(t, fine * factor) <= BucketStart(t, fine)
  {
    ProductMonotone(1, factor, fine);
    assert fine * factor == factor * fine;
    var q := t / (fine * factor);
    var b := BucketStart(t, fine * factor);
    assert b == q * (fine * factor) == (q * factor) * fine;
    if b / fine > t / fine {
      BucketMonotone(b, t, fine);
    }
    BucketMultiple(q * factor, fine);
    assert b % fine == 0;
    BucketMonotone(b, t, fine);
    assert BucketStart(b, fine) == b;
  }

  /** An instant up to `now` is shown exactly when its hour starts within the last thirty days. */
  lemma ShownIffHourWithinSpan(t: int, now: int)
    requires t <= now
    ensures Layers(t, now) >= 1 <==> BucketStart(t, HOUR) >= now - HOURLY_SPAN
  {
    BucketsNest(t);
  }

  /** Every instant from thirty days ago (but for one hour) to now is shown by one layer or two. */
  lemma Coverage(t: int, now: int)
    requires now - HOURLY_SPAN + HOUR <= t <= now
    ensures 1 <= Layers(t, now) <= 2
  {
    BucketsNest(t);
  }

  /** The coarser bucket of `t` starts before the boundary and the finer one (or the instant itself) does not. */
  predicate Straddles(coarse: int, fine: int, boundary: int) {
    coarse < boundary <= fine
  }

  /**
   An instant is shown twice exactly when it lies, at or after a layer boundary, in the bucket of the older
   layer that contains the boundary.
   */
  lemma TwiceIffStraddling(t: int, now: int)
    requires now - HOURLY_SPAN + HOUR <= t <= now
    ensures Layers(t, now) == 2 <==>
            || Straddles(BucketStart(t, 5 * MINUTE), t, now - RAW_SPAN)
            || Straddles(BucketStart(t, 15 * MINUTE), BucketStart(t, 5 * MINUTE), now - FIVE_MINUTE_SPAN)
            || Straddles(BucketStart(t, HOUR), BucketStart(t, 15 * MINUTE), now - QUARTER_HOUR_SPAN)
  {
    BucketsNest(t);
  }

  /** That bucket is one per boundary: the one the boundary itself falls into, and none when it is aligned. */
  lemma StraddledBucketIsTheBoundarys(t: int, fine: int, width: int, boundary: int)
    requires width > 0 && fine <= t && Straddles(BucketStart(t, width), fine, boundary)
    ensures BucketStart(t, width) == BucketStart(boundary, width)
    ensures boundary % width != 0
  {
    var b := BucketStart(t, width);
    assert b < boundary < b + width;
    BucketIsQuotient(boundary, t / width, width);
  }

  /** The layers, in seconds: each looks at the age of the instant or of the start of its own bucket. */
  lemma LayersByAge(t: int, five: int, quarter: int, hour: int, now: int)
    requires five % 300 == 0 && five <= t < five + 300
    requires quarter % 900 == 0 && quarter <= t < quarter + 900
    requires hour % 3_600 == 0 && hour <= t < hour + 3_600
    ensures Layers(t, now) == (if now - t <= 10_800 then 1 else 0)
                              + (if 10_800 < now - five <= 259_200 then 1 else 0)
                              + (if 259_200 < now - quarter <= 604_800 then 1 else 0)
                              + (if 604_800 < now - hour <= 2_592_000 then 1 else 0)
  {
    BucketIsQuotient(t, five / 300, 300);
    BucketIsQuotient(t, quarter / 900, 900);
    BucketIsQuotient(t, hour / 3_600, 3_600);
  }
}
