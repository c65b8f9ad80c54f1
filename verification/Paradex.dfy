/**
 Paradex: hourly aggregation of high-frequency funding records, and the live cache in front of the API.

 Instants are whole milliseconds; a record carries an 8-hour rate, a point the hourly one.
 */
module Paradex {
  import opened Prelude

  const HOUR := 3_600_000
  const ENOUGH_CACHED := 50

  datatype Record = Record(createdAt: int, rate: real)

  datatype Point = Point(timestamp: int, rate: real)

  function HourEnd(t: int): int {
    BucketStart(t, HOUR) + HOUR
  }

  function Sum(rates: seq<real>): real {
    if rates == [] then 0.0 else Sum(rates[..|rates| - 1]) + rates[|rates| - 1]
  }

  /** The sum of nothing is zero, of one rate that rate, and of two parts the sum of their sums. */
  lemma SumMeaning(a: seq<real>, rate: real, b: seq<real>)
    ensures Sum([]) == 0.0 && Sum([rate]) == rate && Sum(a + b) == Sum(a) + Sum(b)
  {
    SumAppend([], rate);
    assert [] + [rate] == [rate];
    SumOfConcat(a, b);
  }

  function Rates(records: seq<Record>): seq<real> {
    if records == [] then [] else Rates(records[..|records| - 1]) + [records[|records| - 1].rate]
  }

  /** The rates of one hour, in record order. */
  function RatesOf(records: seq<Record>, hourEnd: int): seq<real> {
    if records == [] then [] else
      var last := records[|records| - 1];
      RatesOf(records[..|records| - 1], hourEnd) + if HourEnd(last.createdAt) == hourEnd then [last.rate] else []
  }

  /** A record counts for the hour it lies in, and for no other. */
  lemma RateOfOneRecord(r: Record, hourEnd: int)
    ensures RatesOf([r], hourEnd) ==
            if hourEnd % HOUR == 0 && hourEnd - HOUR <= r.createdAt < hourEnd then [r.rate] else []
  {
    assert [r][..0] == [];
    if hourEnd % HOUR == 0 {
      HourEndOf(r.createdAt, hourEnd - HOUR);
    } else {
      BucketMultiple(r.createdAt / HOUR + 1, HOUR);
    }
  }

  function Hours(records: seq<Record>): set<int> {
    set r | r in records :: HourEnd(r.createdAt)
  }

  /** The average 8-hour rate of some records, as an hourly rate; no rates give no rate. */
  function HourlyRate(rates: seq<real>): real {
    if rates == [] then 0.0 else Sum(rates) / |rates| as real / 8.0
  }

  function RateAt(records: seq<Record>): int -> real {
    hourEnd => HourlyRate(RatesOf(records, hourEnd))
  }

  function PointsAt(hours: seq<int>, rate: int -> real): seq<Point> {
    if hours == [] then [] else
      var n := |hours| - 1;
      PointsAt(hours[..n], rate) + [Point(hours[n], rate(hours[n]))]
  }

  /** One point per non-empty hour, in time order. */
  function HourlyPoints(records: seq<Record>): seq<Point> {
    PointsAt(Sorted(Hours(records)), RateAt(records))
  }

  lemma {:induction false} PointsAtIndex(hours: seq<int>, rate: int -> real)
    ensures |PointsAt(hours, rate)| == |hours|
    ensures forall i :: 0 <= i < |hours| ==> PointsAt(hours, rate)[i] == Point(hours[i], rate(hours[i]))
  {
    if hours != [] {
      PointsAtIndex(hours[..|hours| - 1], rate);
    }
  }

  lemma {:induction false} NonEmptyHour(records: seq<Record>, hourEnd: int)
    ensures RatesOf(records, hourEnd) != [] <==> hourEnd in Hours(records)
  {
    if records != [] {
      HoursOfPrefix(records, |records| - 1);
      NonEmptyHour(records[..|records| - 1], hourEnd);
    }
  }

  lemma HoursOfPrefix(records: seq<Record>, n: nat)
    requires n < |records|
    ensures Hours(records[..n + 1]) == Hours(records[..n]) + {HourEnd(records[n].createdAt)}
    ensures n + 1 == |records| ==> records[..n + 1] == records
  {
    assert records[..n + 1] == records[..n] + [records[n]];
  }

  // ---------- the aggregation loop ----------

  lemma RatesOfPrefix(records: seq<Record>, i: nat, h: int)
    requires i < |records|
    ensures RatesOf(records[..i + 1], h)
         == RatesOf(records[..i], h) + if HourEnd(records[i].createdAt) == h then [records[i].rate] else []
  {
    assert records[..i + 1][..i] == records[..i];
  }

  method GroupByHour(records: seq<Record>) returns (groups: map<int, seq<real>>)
    ensures groups.Keys == Hours(records)
    ensures forall h :: h in groups ==> groups[h] == RatesOf(records, h)
  {
    groups := map[];
    for i := 0 to |records|
      invariant groups.Keys == Hours(records[..i])
      invariant forall h :: h in groups ==> groups[h] == RatesOf(records[..i], h)
    {
      var hourEnd := HourEnd(records[i].createdAt);
      HoursOfPrefix(records, i);
      NonEmptyHour(records[..i], hourEnd);
      forall h { RatesOfPrefix(records, i, h); }
      if hourEnd !in groups {
        groups := groups[hourEnd := []];
      }
      groups := groups[hourEnd := groups[hourEnd] + [records[i].rate]];
    }
    assert records[..|records|] == records;
  }

  lemma PointsAtAppend(hours: seq<int>, i: nat, rate: int -> real)
    requires i < |hours|
    ensures PointsAt(hours[..i + 1], rate) == PointsAt(hours[..i], rate) + [Point(hours[i], rate(hours[i]))]
  {
    assert hours[..i + 1][..i] == hours[..i];
  }

  method AverageOf(rates: seq<real>) returns (hourly: real)
    requires rates != []
    ensures hourly == HourlyRate(rates)
  {
    var average := Sum(rates) / |rates| as real;
    hourly := average / 8.0;
  }

  method AggregateToHourly(records: seq<Record>) returns (points: seq<Point>)
    ensures points == HourlyPoints(records)
  {
    var groups := GroupByHour(records);
    var hours := Sorted(groups.Keys);
    SortedMeaning(groups.Keys);
    ghost var rate := RateAt(records);
    forall h | h in groups ensures groups[h] != [] && HourlyRate(groups[h]) == rate(h) {
      NonEmptyHour(records, h);
    }
    points := [];
    for i := 0 to |hours|
      invariant points == PointsAt(hours[..i], rate)
    {
      PointsAtAppend(hours, i, rate);
      assert hours[i] in hours;
      var hourly := AverageOf(groups[hours[i]]);
      points := points + [Point(hours[i], hourly)];
    }
    assert hours[..|hours|] == hours;
  }

  // ---------- what the aggregation means ----------

  /** Strictly increasing hour ends, exactly one for every hour that has records, with that hour's average. */
  lemma OnePointPerHour(records: seq<Record>)
    ensures var points := HourlyPoints(records);
      && (forall i, j :: 0 <= i < j < |points| ==> points[i].timestamp < points[j].timestamp)
      && (forall i :: 0 <= i < |points| ==> points[i].timestamp in Hours(records))
      && (forall h :: h in Hours(records) ==> Point(h, HourlyRate(RatesOf(records, h))) in points)
  {
    var hours, points, rate := Sorted(Hours(records)), HourlyPoints(records), RateAt(records);
    SortedMeaning(Hours(records));
    PointsAtIndex(hours, rate);
    forall i | 0 <= i < |points| ensures points[i].timestamp in Hours(records) {
      assert hours[i] in hours;
    }
    forall h | h in Hours(records) ensures Point(h, rate(h)) in points {
      assert h in hours;
      var i :| 0 <= i < |hours| && hours[i] == h;
      assert points[i] == Point(h, rate(h));
    }
  }

  function Weight(count: nat, hourlyRate: real): real {
    count as real * (8.0 * hourlyRate)
  }

  /** The sum of the emitted hourly rates, each as an 8-hour rate and weighted with its hour's record count. */
  function WeightedTotal(points: seq<Point>, records: seq<Record>): real {
    if points == [] then 0.0 else
      Weight(|RatesOf(records, points[0].timestamp)|, points[0].rate) + WeightedTotal(points[1..], records)
  }

  function SumOverHours(hours: seq<int>, records: seq<Record>): real {
    if hours == [] then 0.0 else Sum(RatesOf(records, hours[0])) + SumOverHours(hours[1..], records)
  }

  lemma AverageUndone(rates: seq<real>)
    ensures Weight(|rates|, HourlyRate(rates)) == Sum(rates)
  {
    if rates != [] {
      DivideMultiply(Sum(rates), |rates| as real);
    }
  }

  lemma DivideMultiply(s: real, n: real)
    requires n > 0.0
    ensures n * (8.0 * (s / n / 8.0)) == s
  {
    assert 8.0 * (s / n / 8.0) == s / n;
  }

  lemma SumAppend(rates: seq<real>, rate: real)
    ensures Sum(rates + [rate]) == Sum(rates) + rate
  {
    assert (rates + [rate])[..|rates|] == rates;
  }

  lemma SumOfHour(records: seq<Record>, hourEnd: int)
    requires records != []
    ensures var last := records[|records| - 1];
      Sum(RatesOf(records, hourEnd))
      == Sum(RatesOf(records[..|records| - 1], hourEnd)) + if HourEnd(last.createdAt) == hourEnd then last.rate else 0.0
  {
    var before := RatesOf(records[..|records| - 1], hourEnd);
    SumAppend(before, records[|records| - 1].rate);
    assert before + [] == before;
  }

  lemma {:induction false} AddRecord(hours: seq<int>, records: seq<Record>)
    requires records != [] && Increasing(hours)
    ensures var last := records[|records| - 1];
      SumOverHours(hours, records)
      == SumOverHours(hours, records[..|records| - 1]) + if HourEnd(last.createdAt) in hours then last.rate else 0.0
  {
    if hours != [] {
      var last := records[|records| - 1];
      AddRecord(hours[1..], records);
      SumOfHour(records, hours[0]);
      assert hours == [hours[0]] + hours[1..];
      assert hours[0] !in hours[1..];
    }
  }

  lemma {:induction false} HoursPartition(hours: seq<int>, records: seq<Record>)
    requires Increasing(hours)
    requires forall h :: h in Hours(records) ==> h in hours
    ensures SumOverHours(hours, records) == Sum(Rates(records))
  {
    if records == [] {
      NoRecords(hours);
    } else {
      var n := |records| - 1;
      HoursOfPrefix(records, n);
      AddRecord(hours, records);
      HoursPartition(hours, records[..n]);
      assert (Rates(records[..n]) + [records[n].rate])[..|Rates(records[..n])|] == Rates(records[..n]);
    }
  }

  lemma {:induction false} NoRecords(hours: seq<int>)
    ensures SumOverHours(hours, []) == 0.0
  {
    if hours != [] {
      NoRecords(hours[1..]);
    }
  }

  lemma {:induction false} WeightedIsSum(hours: seq<int>, points: seq<Point>, records: seq<Record>)
    requires |points| == |hours|
    requires forall i :: 0 <= i < |hours| ==> points[i] == Point(hours[i], RateAt(records)(hours[i]))
    ensures WeightedTotal(points, records) == SumOverHours(hours, records)
  {
    if hours != [] {
      AverageUndone(RatesOf(records, hours[0]));
      WeightedIsSum(hours[1..], points[1..], records);
    }
  }

  /** No record is lost or counted twice: the weighted 8-hour rates add up to the raw rates. */
  lemma AggregationConserves(records: seq<Record>)
    ensures WeightedTotal(HourlyPoints(records), records) == Sum(Rates(records))
  {
    var hours := Sorted(Hours(records));
    SortedMeaning(Hours(records));
    PointsAtIndex(hours, RateAt(records));
    WeightedIsSum(hours, HourlyPoints(records), records);
    HoursPartition(hours, records);
  }

  // ---------- record order does not matter ----------

  lemma {:induction false} RatesOfConcat(a: seq<Record>, b: seq<Record>, h: int)
    ensures RatesOf(a + b, h) == RatesOf(a, h) + RatesOf(b, h)
  {
    if b == [] {
      assert a + b == a;
    } else {
      var n := |b| - 1;
      assert (a + b)[..|a + b| - 1] == a + b[..n];
      RatesOfConcat(a, b[..n], h);
    }
  }

  lemma {:induction false} SumOfConcat(a: seq<real>, b: seq<real>)
    ensures Sum(a + b) == Sum(a) + Sum(b)
  {
    if b == [] {
      assert a + b == a;
    } else {
      var n := |b| - 1;
      assert (a + b)[..|a + b| - 1] == a + b[..n];
      SumOfConcat(a, b[..n]);
    }
  }

  lemma {:induction false} SumPermutes(a: seq<real>, b: seq<real>)
    requires multiset(a) == multiset(b)
    ensures Sum(a) == Sum(b) && |a| == |b|
  {
    assert |multiset(a)| == |a| && |multiset(b)| == |b|;
    if a != [] {
      var n := |a| - 1;
      var x := a[n];
      assert a == a[..n] + [x];
      assert x in multiset(a);
      var k :| 0 <= k < |b| && b[k] == x;
      assert b == b[..k] + [x] + b[k + 1..];
      assert multiset(a[..n]) == multiset(a) - multiset{x};
      assert multiset(b[..k] + b[k + 1..]) == multiset(b) - multiset{x};
      SumPermutes(a[..n], b[..k] + b[k + 1..]);
      SumOfConcat(b[..k], b[k + 1..]);
      SumOfConcat(b[..k] + [x], b[k + 1..]);
    }
  }

  lemma {:induction false} RatesOfPermute(a: seq<Record>, b: seq<Record>, h: int)
    requires multiset(a) == multiset(b)
    ensures multiset(RatesOf(a, h)) == multiset(RatesOf(b, h))
  {
    assert |multiset(a)| == |a| && |multiset(b)| == |b|;
    if a != [] {
      var n := |a| - 1;
      var x := a[n];
      assert a == a[..n] + [x];
      assert x in multiset(a);
      var k :| 0 <= k < |b| && b[k] == x;
      assert b == b[..k] + [x] + b[k + 1..];
      assert multiset(a[..n]) == multiset(a) - multiset{x};
      assert multiset(b[..k] + b[k + 1..]) == multiset(b) - multiset{x};
      RatesOfPermute(a[..n], b[..k] + b[k + 1..], h);
      RatesOfConcat(b[..k], b[k + 1..], h);
      RatesOfConcat(b[..k] + [x], b[k + 1..], h);
      RatesOfConcat(b[..k], [x], h);
      RatesOfConcat(a[..n], [x], h);
    }
  }

  /** Any order of the same records gives the same points. */
  lemma OrderIrrelevant(a: seq<Record>, b: seq<Record>)
    requires multiset(a) == multiset(b)
    ensures HourlyPoints(a) == HourlyPoints(b)
  {
    assert forall r :: r in a <==> r in multiset(a);
    assert forall r :: r in b <==> r in multiset(b);
    assert Hours(a) == Hours(b);
    var hours := Sorted(Hours(a));
    forall h ensures RateAt(a)(h) == RateAt(b)(h) {
      RatesOfPermute(a, b, h);
      SumPermutes(RatesOf(a, h), RatesOf(b, h));
    }
    SameRatesSamePoints(hours, RateAt(a), RateAt(b));
  }

  lemma {:induction false} SameRatesSamePoints(hours: seq<int>, f: int -> real, g: int -> real)
    requires forall h :: f(h) == g(h)
    ensures PointsAt(hours, f) == PointsAt(hours, g)
  {
    if hours != [] {
      SameRatesSamePoints(hours[..|hours| - 1], f, g);
    }
  }

  // ---------- the live cache ----------

  type Cache = map<string, map<int, seq<real>>>

  function Cached(cache: Cache, contract: string, hourStart: int): Option<seq<real>> {
    if contract in cache && hourStart in cache[contract] then Some(cache[contract][hourStart]) else None
  }

  /** The points of one hour: from the cache when it holds enough rates, else from the API's records. */
  function PointsOfHour(cached: Option<seq<real>>, records: seq<Record>, hourEnd: int): seq<Point> {
    if cached.Some? && |cached.value| >= ENOUGH_CACHED then [Point(hourEnd, HourlyRate(cached.value))]
    else HourlyPoints(records)
  }

  /** The API is asked and the request fails. */
  predicate Raises(cached: Option<seq<real>>, answer: Option<seq<Record>>) {
    (cached.None? || |cached.value| < ENOUGH_CACHED) && answer.None?
  }

  function Answer(api: int -> Option<seq<Record>>, hourStart: int): seq<Record> {
    if api(hourStart).None? then [] else api(hourStart).value
  }

  /** The points of one hour, from the cache as it was or from the API. */
  function HourPoints(cache: Cache, contract: string, api: int -> Option<seq<Record>>, hourStart: int): seq<Point> {
    PointsOfHour(Cached(cache, contract, hourStart), Answer(api, hourStart), hourStart + HOUR)
  }

  function HourSource(cache: Cache, contract: string, api: int -> Option<seq<Record>>): int -> seq<Point> {
    hourStart => HourPoints(cache, contract, api, hourStart)
  }

  /** The points of the hours that start in [start, end), hour after hour. */
  function PointsBetween(hour: int -> seq<Point>, start: int, end: int): seq<Point>
    decreases end - start
  {
    if end <= start then [] else PointsBetween(hour, start, end - HOUR) + hour(end - HOUR)
  }

  lemma NextHour(hour: int -> seq<Point>, start: int, hourStart: int, fetched: seq<Point>, points: seq<Point>)
    requires start <= hourStart && fetched == PointsBetween(hour, start, hourStart) && points == hour(hourStart)
    ensures fetched + points == PointsBetween(hour, start, hourStart + HOUR)
  {
  }

  /** `hour` gives the points of every hour, known by its values alone. */
  ghost predicate IsSource(
    hour: int -> seq<Point>, cache: Cache, contract: string, api: int -> Option<seq<Record>>)
  {
    forall h :: IsSourceAt(hour, h, cache, contract, api)
  }

  ghost predicate IsSourceAt(
    hour: int -> seq<Point>, h: int, cache: Cache, contract: string, api: int -> Option<seq<Record>>)
  {
    hour(h) == HourPoints(cache, contract, api, h)
  }

  class LiveCache {
    var cache: Cache

    constructor ()
      ensures cache == map[]
    {
      cache := map[];
    }

    /** One live rate, filed under the hour of `now`. */
    method Store(contract: string, now: int, rate: real)
      modifies this
      ensures forall c, h :: (c, h) != (contract, BucketStart(now, HOUR)) ==>
                Cached(cache, c, h) == Cached(old(cache), c, h)
      ensures var was := Cached(old(cache), contract, BucketStart(now, HOUR));
              Cached(cache, contract, BucketStart(now, HOUR)) == Some((if was.Some? then was.value else []) + [rate])
    {
      var hourStart := BucketStart(now, HOUR);
      if contract !in cache {
        cache := cache[contract := map[]];
      }
      if hourStart !in cache[contract] {
        cache := cache[contract := cache[contract][hourStart := []]];
      }
      cache := cache[contract := cache[contract][hourStart := cache[contract][hourStart] + [rate]]];
    }

    method Pop(contract: string, hourStart: int) returns (rates: Option<seq<real>>)
      modifies this
      ensures rates == Cached(old(cache), contract, hourStart)
      ensures forall c, h :: Cached(cache, c, h) ==
                if c == contract && h == hourStart then None else Cached(old(cache), c, h)
    {
      rates := Cached(cache, contract, hourStart);
      if rates.Some? {
        cache := cache[contract := cache[contract] - {hourStart}];
      }
    }

    /**
     One hour: the cached entry is taken out, and used when it is long enough; else the API is asked, and may
     raise.
     */
    method FetchHour(contract: string, hourStart: int, api: int -> Option<seq<Record>>)
      returns (points: Option<seq<Point>>)
      modifies this
      ensures points.None? <==> Raises(Cached(old(cache), contract, hourStart), api(hourStart))
      ensures points.Some? ==>
                points.value == HourPoints(old(cache), contract, api, hourStart)
      ensures forall c, h :: Cached(cache, c, h) ==
                if c == contract && h == hourStart then None else Cached(old(cache), c, h)
    {
      var rates := Pop(contract, hourStart);
      if rates.Some? && |rates.value| >= ENOUGH_CACHED {
        return Some([Point(hourStart + HOUR, HourlyRate(rates.value))]);
      }
      var records := api(hourStart);
      if records.None? {
        return None;
      }
      var hour := [];
      if records.value != [] {
        hour := AggregateToHourly(records.value);
      } else {
        assert Hours([]) == {};
      }
      points := Some(hour);
    }

    /** One more hour of a fetch that started with the cache `was`: its points are added, or its request raises. */
    method VisitHour(contract: string, hourStart: int, api: int -> Option<seq<Record>>, fetched: seq<Point>,
                     ghost was: Cache, ghost hour: int -> seq<Point>, ghost start: int, ghost end: int)
      returns (points: Option<seq<Point>>)
      requires hourStart % HOUR == 0 && end % HOUR == 0 && start <= hourStart < end
      requires TakenOut(was, cache, contract, start, hourStart)
      requires IsSource(hour, was, contract, api) && fetched == PointsBetween(hour, start, hourStart)
      modifies this
      ensures TakenOut(was, cache, contract, start, hourStart + HOUR)
      ensures hourStart + HOUR <= end && (hourStart + HOUR) % HOUR == 0 && Visited(hourStart, start, end)
      ensures points.None? <==> Raises(Cached(was, contract, hourStart), api(hourStart))
      ensures points.Some? ==> points.value == PointsBetween(hour, start, hourStart + HOUR)
    {
      ghost var before := cache;
      var got := FetchHour(contract, hourStart, api);
      HourTakenOut(was, before, cache, contract, start, hourStart, end);
      assert IsSourceAt(hour, hourStart, was, contract, api);
      if got.Some? {
        NextHour(hour, start, hourStart, fetched, got.value);
      }
      points := if got.None? then None else Some(fetched + got.value);
    }

    /** The hours from one whole hour to another, in order, up to the first one whose request raises. */
    method FetchHours(contract: string, start: int, end: int, api: int -> Option<seq<Record>>,
                      ghost hour: int -> seq<Point>)
      returns (points: Option<seq<Point>>, visitedTo: int)
      requires start % HOUR == 0 && end % HOUR == 0 && start <= end
      requires IsSource(hour, cache, contract, api)
      modifies this
      ensures points.Some? ==>
                && visitedTo == end && NoneRaises(old(cache), contract, api, start, end)
                && points.value == PointsBetween(hour, start, end)
      ensures points.None? ==>
                && Visited(visitedTo - HOUR, start, end)
                && NoneRaises(old(cache), contract, api, start, visitedTo - HOUR)
                && Raises(Cached(old(cache), contract, visitedTo - HOUR), api(visitedTo - HOUR))
      ensures TakenOut(old(cache), cache, contract, start, visitedTo)
    {
      ghost var was := cache;
      visitedTo := start;
      var fetched := [];
      while visitedTo < end
        invariant visitedTo % HOUR == 0 && start <= visitedTo <= end
        invariant fetched == PointsBetween(hour, start, visitedTo)
        invariant NoneRaises(was, contract, api, start, visitedTo)
        invariant TakenOut(was, cache, contract, start, visitedTo)
      {
        var more := VisitHour(contract, visitedTo, api, fetched, was, hour, start, end);
        if more.None? {
          return None, visitedTo + HOUR;
        }
        HourNotRaised(was, contract, api, start, visitedTo, end);
        fetched, visitedTo := more.value, visitedTo + HOUR;
      }
      points := Some(fetched);
    }

    /**
     Every finished hour after the hour of `after`, each from the cache or from the API. A request that
     raises ends the call without points; the entries of the hours up to that one are gone all the same.
     */
    method FetchHistoryAfter(contract: string, after: int, now: int, api: int -> Option<seq<Record>>)
      returns (points: Option<seq<Point>>, visitedTo: int)
      modifies this
      ensures var start, end := BucketStart(after, HOUR), BucketStart(now, HOUR);
              && points == Outcome(old(cache), contract, api, start, end)
              && (points.Some? ==> visitedTo == if start <= end then end else start)
              && (points.None? ==>
                    && Visited(visitedTo - HOUR, start, end)
                    && NoneRaises(old(cache), contract, api, start, visitedTo - HOUR)
                    && Raises(Cached(old(cache), contract, visitedTo - HOUR), api(visitedTo - HOUR)))
      ensures TakenOut(old(cache), cache, contract, BucketStart(after, HOUR), visitedTo)
    {
      var start, end := BucketStart(after, HOUR), BucketStart(now, HOUR);
      if end < start {
        return Some([]), start;
      }
      ghost var hour := HourSource(cache, contract, api);
      assert IsSource(hour, cache, contract, api);
      points, visitedTo := FetchHours(contract, start, end, api, hour);
    }
  }

  /** The points of a range whose hours were all answered. */
  ghost function Outcome(
    was: Cache, contract: string, api: int -> Option<seq<Record>>, start: int, end: int): Option<seq<Point>>
  {
    if NoneRaises(was, contract, api, start, end) then Some(PointsBetween(HourSource(was, contract, api), start, end))
    else None
  }

  /** From `was` to `now` exactly the entries of the visited hours are gone. */
  ghost predicate TakenOut(was: Cache, now: Cache, contract: string, start: int, visitedTo: int) {
    forall c, h :: Cached(now, c, h) ==
      if c == contract && Visited(h, start, visitedTo) then None else Cached(was, c, h)
  }

  /** What a fetch leaves of the cache, entry by entry. */
  lemma TakenOutMeaning(was: Cache, now: Cache, contract: string, start: int, visitedTo: int, c: string, h: int)
    requires TakenOut(was, now, contract, start, visitedTo)
    ensures c in now && h in now[c] <==>
            c in was && h in was[c] && !(c == contract && h % HOUR == 0 && start <= h < visitedTo)
    ensures c in now && h in now[c] ==> now[c][h] == was[c][h]
  {
    assert Cached(now, c, h).Some? <==> c in now && h in now[c];
    assert Cached(was, c, h).Some? <==> c in was && h in was[c];
  }

  /** No visited hour needs a request that fails. */
  ghost predicate NoneRaises(was: Cache, contract: string, api: int -> Option<seq<Record>>, start: int, end: int) {
    forall h :: Visited(h, start, end) ==> !Raises(Cached(was, contract, h), api(h))
  }

  /** One more visited hour: its entry was still there, and is gone now. */
  lemma HourTakenOut(was: Cache, before: Cache, now: Cache, contract: string, start: int, hourStart: int, end: int)
    requires hourStart % HOUR == 0 && end % HOUR == 0 && start <= hourStart < end
    requires TakenOut(was, before, contract, start, hourStart)
    requires forall c, h :: Cached(now, c, h) ==
               if c == contract && h == hourStart then None else Cached(before, c, h)
    ensures TakenOut(was, now, contract, start, hourStart + HOUR)
    ensures Cached(before, contract, hourStart) == Cached(was, contract, hourStart)
    ensures Visited(hourStart, start, end) && hourStart + HOUR <= end && (hourStart + HOUR) % HOUR == 0
  {
    NextHourStart(hourStart, start, end);
    assert !Visited(hourStart, start, hourStart);
  }

  lemma HourNotRaised(
    was: Cache, contract: string, api: int -> Option<seq<Record>>, start: int, hourStart: int, end: int)
    requires hourStart % HOUR == 0 && end % HOUR == 0 && start <= hourStart < end
    requires NoneRaises(was, contract, api, start, hourStart)
    requires !Raises(Cached(was, contract, hourStart), api(hourStart))
    ensures NoneRaises(was, contract, api, start, hourStart + HOUR)
  {
    NextHourStart(hourStart, start, end);
  }

  /** The start of a whole hour in [start, end). */
  predicate Visited(h: int, start: int, end: int) {
    h % HOUR == 0 && start <= h < end
  }

  lemma NextHourStart(hourStart: int, start: int, end: int)
    requires hourStart % HOUR == 0 && end % HOUR == 0 && start <= hourStart < end
    ensures hourStart + HOUR <= end && (hourStart + HOUR) % HOUR == 0
    ensures forall h :: Visited(h, start, hourStart + HOUR) <==> Visited(h, start, hourStart) || h == hourStart
  {
    WholeHours(hourStart, end);
    forall h ensures Visited(h, start, hourStart + HOUR) <==> Visited(h, start, hourStart) || h == hourStart {
      if h % HOUR == 0 {
        WholeHours(hourStart, h);
      }
    }
  }

  lemma WholeHours(a: int, b: int)
    requires a % HOUR == 0 && b % HOUR == 0
    ensures a < b ==> a + HOUR <= b
    ensures (a + HOUR) % HOUR == 0 && (a - HOUR) % HOUR == 0
  {
    BucketIsQuotient(a + HOUR, a / HOUR + 1, HOUR);
    BucketIsQuotient(a - HOUR, a / HOUR - 1, HOUR);
  }

  // ---------- refinement: the cache and the API agree ----------

  /** Every record lies in the hour that starts at `hourStart`. */
  ghost predicate Confined(records: seq<Record>, hourStart: int) {
    forall r :: r in records ==> hourStart <= r.createdAt < hourStart + HOUR
  }

  lemma HourEndOf(t: int, hourStart: int)
    requires hourStart % HOUR == 0
    ensures hourStart <= t < hourStart + HOUR <==> HourEnd(t) == hourStart + HOUR
  {
    var b := BucketStart(t, HOUR);
    WholeHours(b, hourStart);
    WholeHours(hourStart, b);
  }

  lemma ConfinedHours(records: seq<Record>, hourStart: int)
    requires hourStart % HOUR == 0
    ensures Hours(records) <= {hourStart + HOUR} <==> Confined(records, hourStart)
  {
    forall r | r in records
      ensures hourStart <= r.createdAt < hourStart + HOUR <==> HourEnd(r.createdAt) == hourStart + HOUR
      ensures HourEnd(r.createdAt) in Hours(records)
    {
      HourEndOf(r.createdAt, hourStart);
    }
  }

  lemma OnlyHour(records: seq<Record>, h: int)
    ensures (forall p :: p in HourlyPoints(records) ==> p.timestamp == h) <==> Hours(records) <= {h}
    ensures Hours(records) <= {h} ==> |HourlyPoints(records)| <= 1
  {
    OnePointPerHour(records);
    OnlyStamp(HourlyPoints(records), Hours(records), RateAt(records), h);
  }

  lemma OnlyStamp(points: seq<Point>, hours: set<int>, rate: int -> real, h: int)
    requires forall i, j :: 0 <= i < j < |points| ==> points[i].timestamp < points[j].timestamp
    requires forall i :: 0 <= i < |points| ==> points[i].timestamp in hours
    requires forall k :: k in hours ==> Point(k, rate(k)) in points
    ensures (forall p :: p in points ==> p.timestamp == h) <==> hours <= {h}
    ensures hours <= {h} ==> |points| <= 1
  {
    assert |points| >= 2 ==> points[0].timestamp < points[1].timestamp;
    if hours <= {h} {
      assert forall i :: 0 <= i < |points| ==> points[i].timestamp == h;
    } else {
      assert (forall k :: k in hours ==> k == h) ==> hours <= {h};
      var k :| k in hours && k != h;
      assert Point(k, rate(k)) in points;
    }
  }

  /** An API answer gives no point but that of its own hour exactly when its records are confined to the hour. */
  lemma OwnHourIffConfined(records: seq<Record>, hourStart: int)
    requires hourStart % HOUR == 0
    ensures (forall p :: p in HourlyPoints(records) ==> p.timestamp == hourStart + HOUR)
            <==> Confined(records, hourStart)
    ensures Confined(records, hourStart) ==> |HourlyPoints(records)| <= 1
  {
    ConfinedHours(records, hourStart);
    OnlyHour(records, hourStart + HOUR);
  }

  lemma {:induction false} ConfinedRates(records: seq<Record>, hourStart: int)
    requires hourStart % HOUR == 0 && Confined(records, hourStart)
    ensures RatesOf(records, hourStart + HOUR) == Rates(records)
  {
    if records != [] {
      var n := |records| - 1;
      assert records[n] in records;
      HourEndOf(records[n].createdAt, hourStart);
      assert forall r :: r in records[..n] ==> r in records;
      ConfinedRates(records[..n], hourStart);
    }
  }

  /** The cached path gives the very point of the API path when it holds that hour's rates, in any order. */
  lemma CacheRefinesApi(cached: seq<real>, records: seq<Record>, hourStart: int)
    requires hourStart % HOUR == 0 && Confined(records, hourStart)
    requires |cached| >= ENOUGH_CACHED && multiset(cached) == multiset(Rates(records))
    ensures PointsOfHour(Some(cached), records, hourStart + HOUR) == HourlyPoints(records)
  {
    var h := hourStart + HOUR;
    ConfinedRates(records, hourStart);
    SumPermutes(cached, Rates(records));
    NonEmptyHour(records, h);
    OwnHourIffConfined(records, hourStart);
    OnePointPerHour(records);
    OnlyElement(HourlyPoints(records), Point(h, HourlyRate(RatesOf(records, h))));
    SameRate(cached, RatesOf(records, h));
  }

  lemma SameRate(a: seq<real>, b: seq<real>)
    requires Sum(a) == Sum(b) && |a| == |b|
    ensures HourlyRate(a) == HourlyRate(b)
  {
  }

  lemma OnlyElement(points: seq<Point>, p: Point)
    requires p in points && |points| <= 1
    ensures points == [p]
  {
  }

  lemma AtMostItsOwnPoint(cached: Option<seq<real>>, records: seq<Record>, hourStart: int)
    requires hourStart % HOUR == 0 && Confined(records, hourStart)
    ensures var hour := PointsOfHour(cached, records, hourStart + HOUR);
      |hour| <= 1 && forall i :: 0 <= i < |hour| ==> hour[i].timestamp == hourStart + HOUR
  {
    OwnHourIffConfined(records, hourStart);
    assert forall i :: 0 <= i < |HourlyPoints(records)| ==> HourlyPoints(records)[i] in HourlyPoints(records);
  }

  /** Whole-hour timestamps in (start, end], strictly increasing. */
  ghost predicate Stamped(points: seq<Point>, start: int, end: int) {
    && (forall i :: 0 <= i < |points| ==> start < points[i].timestamp <= end && points[i].timestamp % HOUR == 0)
    && (forall i, j :: 0 <= i < j < |points| ==> points[i].timestamp < points[j].timestamp)
  }

  lemma AppendHour(before: seq<Point>, last: seq<Point>, start: int, end: int)
    requires start < end && end % HOUR == 0 && Stamped(before, start, end - HOUR)
    requires |last| <= 1 && forall i :: 0 <= i < |last| ==> last[i].timestamp == end
    ensures Stamped(before + last, start, end)
  {
  }

  /** The rates of records in order. */
  lemma {:induction false} RatesMeaning(records: seq<Record>, i: nat)
    requires i < |records|
    ensures |Rates(records)| == |records| && Rates(records)[i] == records[i].rate
  {
    var n := |records| - 1;
    if i < n {
      RatesMeaning(records[..n], i);
    } else if n > 0 {
      RatesMeaning(records[..n], 0);
    }
  }

  /** Confined records give one point with their average over eight, and no records none. */
  lemma ConfinedHour(records: seq<Record>, hourStart: int)
    requires hourStart % HOUR == 0 && Confined(records, hourStart)
    ensures HourlyPoints(records) ==
            if records == [] then [] else [Point(hourStart + HOUR, HourlyRate(Rates(records)))]
  {
    var h := hourStart + HOUR;
    if records == [] {
      assert Hours(records) == {};
    } else {
      assert records[0] in records;
      HourEndOf(records[0].createdAt, hourStart);
      assert h in Hours(records);
      ConfinedRates(records, hourStart);
      OwnHourIffConfined(records, hourStart);
      OnePointPerHour(records);
      OnlyElement(HourlyPoints(records), Point(h, HourlyRate(RatesOf(records, h))));
    }
  }

  /** With confined API answers the fetch emits at most one point per hour of its range, strictly increasing. */
  lemma {:induction false} FetchAfterIncreasing(
    cache: Cache, contract: string, api: int -> Option<seq<Record>>, start: int, end: int)
    requires start % HOUR == 0 && end % HOUR == 0
    requires forall h :: h % HOUR == 0 ==> Confined(Answer(api, h), h)
    ensures Stamped(PointsBetween(HourSource(cache, contract, api), start, end), start, end)
    decreases end - start
  {
    if start < end {
      var hour, h := HourSource(cache, contract, api), end - HOUR;
      WholeHours(end, start);
      FetchAfterIncreasing(cache, contract, api, start, h);
      AtMostItsOwnPoint(Cached(cache, contract, h), Answer(api, h), h);
      AppendHour(PointsBetween(hour, start, h), hour(h), start, end);
    }
  }

  /** The rates an hour is reported from: the cached ones when they are at least fifty, else the API's. */
  function ReportedRates(cached: Option<seq<real>>, records: seq<Record>): seq<real> {
    if cached.Some? && |cached.value| >= 50 then cached.value else Rates(records)
  }

  lemma OneHour(cached: Option<seq<real>>, records: seq<Record>, hourStart: int)
    requires hourStart % HOUR == 0 && Confined(records, hourStart)
    ensures var rates := ReportedRates(cached, records);
      PointsOfHour(cached, records, hourStart + HOUR) ==
      if rates == [] then [] else [Point(hourStart + HOUR, HourlyRate(rates))]
  {
    ConfinedHour(records, hourStart);
    if records != [] {
      RatesMeaning(records, 0);
    }
  }

  lemma OnlyPoint(points: seq<Point>, reported: bool, rate: real, p: Point)
    requires points == if reported then [Point(p.timestamp, rate)] else []
    ensures p in points <==> reported && p.rate == rate
  {
  }

  lemma PointOfHour(cached: Option<seq<real>>, records: seq<Record>, h: int, p: Point)
    requires h % HOUR == 0 && Confined(records, h) && p.timestamp == h + HOUR
    ensures p in PointsOfHour(cached, records, h + HOUR) <==>
            ReportedRates(cached, records) != [] && p.rate == HourlyRate(ReportedRates(cached, records))
  {
    OneHour(cached, records, h);
    var rates := ReportedRates(cached, records);
    OnlyPoint(PointsOfHour(cached, records, h + HOUR), rates != [], HourlyRate(rates), p);
  }

  /** The rate of an hour, written out: the mean of its rates over eight. */
  lemma RateWrittenOut(cached: Option<seq<real>>, records: seq<Record>)
    ensures (cached.Some? && |cached.value| >= 50) || records != [] <==> ReportedRates(cached, records) != []
    ensures cached.Some? && |cached.value| >= 50 ==>
              HourlyRate(ReportedRates(cached, records)) == Sum(cached.value) / |cached.value| as real / 8.0
    ensures (cached.Some? ==> |cached.value| < 50) && records != [] ==>
              HourlyRate(ReportedRates(cached, records)) == Sum(Rates(records)) / |records| as real / 8.0
  {
    if records != [] {
      RatesMeaning(records, 0);
    }
  }

  /** The points of hour `k` carry its end. */
  ghost predicate StampedAs(hour: int -> seq<Point>, k: int) {
    forall p :: p in hour(k) ==> p.timestamp == k + HOUR
  }

  /** The points with an hour's stamp are those of the hour. */
  lemma {:induction false} PointIsOfItsHour(hour: int -> seq<Point>, start: int, end: int, h: int, p: Point)
    requires start % HOUR == 0 && end % HOUR == 0 && Visited(h, start, end) && p.timestamp == h + HOUR
    requires forall k :: k % HOUR == 0 ==> StampedAs(hour, k)
    ensures p in PointsBetween(hour, start, end) <==> p in hour(h)
    decreases end - start
  {
    var last := end - HOUR;
    WholeHours(end, start);
    WholeHours(h, end);
    WholeHours(h, last);
    assert StampedAs(hour, last);
    if h < last {
      PointIsOfItsHour(hour, start, last, h, p);
    } else if p in PointsBetween(hour, start, last) {
      PointIsOfSomeHour(hour, start, last, p);
    }
  }

  lemma {:induction false} PointIsOfSomeHour(hour: int -> seq<Point>, start: int, end: int, p: Point)
    requires start % HOUR == 0 && end % HOUR == 0 && p in PointsBetween(hour, start, end)
    requires forall k :: k % HOUR == 0 ==> StampedAs(hour, k)
    ensures Visited(p.timestamp - HOUR, start, end)
    decreases end - start
  {
    var last := end - HOUR;
    WholeHours(end, start);
    WholeHours(start, end);
    assert StampedAs(hour, last);
    if p in PointsBetween(hour, start, last) {
      PointIsOfSomeHour(hour, start, last, p);
    }
  }

  lemma SourceIsStamped(cache: Cache, contract: string, api: int -> Option<seq<Record>>)
    requires forall k :: k % HOUR == 0 ==> Confined(Answer(api, k), k)
    ensures forall k :: k % HOUR == 0 ==> StampedAs(HourSource(cache, contract, api), k)
  {
    forall k | k % HOUR == 0 ensures StampedAs(HourSource(cache, contract, api), k) {
      OneHour(Cached(cache, contract, k), Answer(api, k), k);
    }
  }

  /**
   With confined API answers a visited hour is reported exactly when at least fifty rates are cached for it or the
   API has records of it; its point carries the average of those cached rates, or of the API's, over eight.
   */
  lemma HourIsReported(
    cache: Cache, contract: string, api: int -> Option<seq<Record>>, start: int, end: int, h: int, p: Point)
    requires start % HOUR == 0 && end % HOUR == 0 && h % HOUR == 0 && start <= h < end && p.timestamp == h + HOUR
    requires forall k :: k % HOUR == 0 ==> Confined(Answer(api, k), k)
    ensures var points := PointsBetween(HourSource(cache, contract, api), start, end);
      var cached, records := Cached(cache, contract, h), Answer(api, h);
      p in points <==>
        if cached.Some? && |cached.value| >= 50 then p.rate == Sum(cached.value) / |cached.value| as real / 8.0
        else records != [] && p.rate == Sum(Rates(records)) / |records| as real / 8.0
  {
    hide PointsBetween, PointsOfHour, HourlyRate, Rates, Sum;
    SourceIsStamped(cache, contract, api);
    var source := HourSource(cache, contract, api);
    PointIsOfItsHour(source, start, end, h, p);
    PointOfHour(Cached(cache, contract, h), Answer(api, h), h, p);
    RateWrittenOut(Cached(cache, contract, h), Answer(api, h));
    assert source(h) == PointsOfHour(Cached(cache, contract, h), Answer(api, h), h + HOUR);
  }

  /** Nothing else is reported: every point is that of a visited hour. */
  lemma OnlyVisitedHours(
    cache: Cache, contract: string, api: int -> Option<seq<Record>>, start: int, end: int, p: Point)
    requires start % HOUR == 0 && end % HOUR == 0
    requires forall k :: k % HOUR == 0 ==> Confined(Answer(api, k), k)
    requires p in PointsBetween(HourSource(cache, contract, api), start, end)
    ensures (p.timestamp - HOUR) % HOUR == 0 && start < p.timestamp <= end
  {
    SourceIsStamped(cache, contract, api);
    PointIsOfSomeHour(HourSource(cache, contract, api), start, end, p);
    WholeHours(p.timestamp - HOUR, end);
  }

  /** The outcome of a fetch: those points exactly when no hour needed a request that failed. */
  lemma OutcomeMeaning(was: Cache, contract: string, api: int -> Option<seq<Record>>, start: int, end: int)
    ensures Outcome(was, contract, api, start, end).Some? <==>
            forall h :: h % HOUR == 0 && start <= h < end ==>
              (Cached(was, contract, h).Some? && |Cached(was, contract, h).value| >= 50) || api(h).Some?
    ensures Outcome(was, contract, api, start, end).Some? ==>
            Outcome(was, contract, api, start, end).value == PointsBetween(HourSource(was, contract, api), start, end)
  {
    if NoneRaises(was, contract, api, start, end) {
      forall h | h % HOUR == 0 && start <= h < end
        ensures (Cached(was, contract, h).Some? && |Cached(was, contract, h).value| >= 50) || api(h).Some?
      {
        assert Visited(h, start, end);
      }
    }
  }
}
