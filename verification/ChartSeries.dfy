/** Aligning funding series on a common time axis, and the spread of two of them. */
module ChartSeries {
  import opened Prelude

  datatype Point = Point(timestamp: int, fundingRate: real)

  type Series = seq<Point>

  type Column = seq<Option<real>>

  function StampsOf(series: Series): set<int> {
    set p | p in series :: p.timestamp
  }

  function AllStamps(all: seq<Series>): set<int> {
    if all == [] then {} else AllStamps(all[..|all| - 1]) + StampsOf(all[|all| - 1])
  }

  /** The percentage a later point at the same time overrides; null where the series has no point. */
  function LastRate(series: Series, t: int): Option<real> {
    if series == [] then None else
      var last := series[|series| - 1];
      if last.timestamp == t then Some(last.fundingRate * 100.0) else LastRate(series[..|series| - 1], t)
  }

  lemma StampsOfPrefix(series: Series, i: nat)
    requires i < |series|
    ensures StampsOf(series[..i + 1]) == StampsOf(series[..i]) + {series[i].timestamp}
    ensures i + 1 == |series| ==> series[..i + 1] == series
  {
    assert series[..i + 1] == series[..i] + [series[i]];
  }

  /** Point `i` is the last one of the series at `t`. */
  ghost predicate IsLastAt(series: Series, t: int, i: int) {
    0 <= i < |series| && series[i].timestamp == t && forall j :: i < j < |series| ==> series[j].timestamp != t
  }

  /** The value at `t` is null exactly when the series has no point there, and else that of the last such point. */
  lemma {:induction false} LastRateMeaning(series: Series, t: int)
    ensures LastRate(series, t).Some? <==> exists i :: IsLastAt(series, t, i)
    ensures forall i :: IsLastAt(series, t, i) ==> LastRate(series, t) == Some(series[i].fundingRate * 100.0)
  {
    if series != [] {
      var n := |series| - 1;
      var rest := series[..n];
      LastRateMeaning(rest, t);
      if series[n].timestamp == t {
        assert IsLastAt(series, t, n);
      } else {
        forall i ensures IsLastAt(series, t, i) <==> IsLastAt(rest, t, i) {
          assert forall j :: 0 <= j < n ==> rest[j] == series[j];
        }
      }
    }
  }

  lemma {:induction false} HasRateIffStamped(series: Series, t: int)
    ensures LastRate(series, t).Some? <==> t in StampsOf(series)
  {
    if series != [] {
      var n := |series| - 1;
      assert series[..n + 1] == series;
      StampsOfPrefix(series, n);
      HasRateIffStamped(series[..n], t);
    }
  }

  function ColumnOf(series: Series, xs: seq<int>): Column {
    seq(|xs|, j requires 0 <= j < |xs| => LastRate(series, xs[j]))
  }

  /** The `Map` of one series' points: the last point of a timestamp stays. */
  method PointMap(series: Series) returns (byTime: map<int, real>)
    ensures forall t :: LastRate(series, t) == if t in byTime then Some(byTime[t]) else None
  {
    byTime := map[];
    for i := 0 to |series|
      invariant forall t :: LastRate(series[..i], t) == if t in byTime then Some(byTime[t]) else None
    {
      assert series[..i + 1][..i] == series[..i];
      byTime := byTime[series[i].timestamp := series[i].fundingRate * 100.0];
    }
    assert series[..|series|] == series;
  }

  method AlignColumn(series: Series, xs: seq<int>) returns (column: Column)
    ensures column == ColumnOf(series, xs)
  {
    var byTime := PointMap(series);
    column := [];
    for j := 0 to |xs|
      invariant |column| == j
      invariant forall k :: 0 <= k < j ==> column[k] == LastRate(series, xs[k])
    {
      column := column + [if xs[j] in byTime then Some(byTime[xs[j]]) else None];
    }
  }

  method AlignFundingSeries(all: seq<Series>) returns (xs: seq<int>, columns: seq<Column>)
    ensures xs == Sorted(AllStamps(all))
    ensures |columns| == |all| && forall i :: 0 <= i < |all| ==> columns[i] == ColumnOf(all[i], xs)
  {
    var stamps: set<int> := {};
    for i := 0 to |all|
      invariant stamps == AllStamps(all[..i])
    {
      assert all[..i + 1][..i] == all[..i];
      ghost var before := stamps;
      for j := 0 to |all[i]|
        invariant stamps == before + StampsOf(all[i][..j])
      {
        StampsOfPrefix(all[i], j);
        stamps := stamps + {all[i][j].timestamp};
      }
      assert all[i][..|all[i]|] == all[i];
    }
    assert all[..|all|] == all;
    xs := Sorted(stamps);
    columns := [];
    for i := 0 to |all|
      invariant |columns| == i
      invariant forall k :: 0 <= k < i ==> columns[k] == ColumnOf(all[k], xs)
    {
      var column := AlignColumn(all[i], xs);
      columns := columns + [column];
    }
  }

  lemma {:induction false} AllStampsMeaning(all: seq<Series>, t: int)
    ensures t in AllStamps(all) <==> exists i :: 0 <= i < |all| && t in StampsOf(all[i])
  {
    if all != [] {
      var n := |all| - 1;
      AllStampsMeaning(all[..n], t);
      if t in AllStamps(all[..n]) {
        var i :| 0 <= i < n && t in StampsOf(all[..n][i]);
        assert t in StampsOf(all[i]);
      }
      if i :| 0 <= i < |all| && t in StampsOf(all[i]) {
        assert i < n ==> t in StampsOf(all[..n][i]);
      }
    }
  }

  /** The axis is strictly increasing and holds exactly the timestamps of the series. */
  lemma AxisIsUnion(all: seq<Series>)
    ensures Increasing(Sorted(AllStamps(all)))
    ensures forall t :: t in Sorted(AllStamps(all)) <==> exists i :: 0 <= i < |all| && t in StampsOf(all[i])
  {
    SortedMeaning(AllStamps(all));
    forall t ensures t in AllStamps(all) <==> exists i :: 0 <= i < |all| && t in StampsOf(all[i]) {
      AllStampsMeaning(all, t);
    }
  }

  /** A point of the series is seen on the axis, and the axis shows nothing else. */
  lemma AxisHoldsPoints(all: seq<Series>, t: int)
    ensures t in Sorted(AllStamps(all)) <==>
            exists i, j :: 0 <= i < |all| && 0 <= j < |all[i]| && all[i][j].timestamp == t
  {
    AxisIsUnion(all);
    if t in Sorted(AllStamps(all)) {
      var i :| 0 <= i < |all| && t in StampsOf(all[i]);
      var p :| p in all[i] && p.timestamp == t;
      var j :| 0 <= j < |all[i]| && all[i][j] == p;
      assert all[i][j].timestamp == t;
    }
    if i, j :| 0 <= i < |all| && 0 <= j < |all[i]| && all[i][j].timestamp == t {
      assert t in StampsOf(all[i]);
    }
  }

  /** An entry of a column: null without a point of the series there, else a hundred times the rate of its last one. */
  lemma ColumnEntry(series: Series, xs: seq<int>, k: nat, i: int)
    requires k < |xs|
    ensures |ColumnOf(series, xs)| == |xs|
    ensures (forall j :: 0 <= j < |series| ==> series[j].timestamp != xs[k]) ==> ColumnOf(series, xs)[k] == None
    ensures 0 <= i < |series| && series[i].timestamp == xs[k]
            && (forall j :: i < j < |series| ==> series[j].timestamp != xs[k]) ==>
              ColumnOf(series, xs)[k] == Some(series[i].fundingRate * 100.0)
  {
    LastRateMeaning(series, xs[k]);
    if 0 <= i < |series| && series[i].timestamp == xs[k]
       && (forall j :: i < j < |series| ==> series[j].timestamp != xs[k])
    {
      assert IsLastAt(series, xs[k], i);
    }
  }

  ghost predicate IsLatest(column: Column, k: nat) {
    k < |column| && column[k].Some? && forall j :: k < j < |column| ==> column[j].None?
  }

  /** For each column the index of its last value, or null when it has none. */
  method LatestNonNullIndices(columns: seq<Column>) returns (indices: seq<Option<nat>>)
    ensures |indices| == |columns|
    ensures forall i :: 0 <= i < |columns| ==>
              match indices[i]
              case None => forall j :: 0 <= j < |columns[i]| ==> columns[i][j].None?
              case Some(k) => IsLatest(columns[i], k)
  {
    indices := [];
    for i := 0 to |columns|
      invariant |indices| == i
      invariant forall c :: 0 <= c < i ==>
                  match indices[c]
                  case None => forall j :: 0 <= j < |columns[c]| ==> columns[c][j].None?
                  case Some(k) => IsLatest(columns[c], k)
    {
      var values := columns[i];
      var found: Option<nat> := None;
      var index: int := |values|;
      while index > 0 && found.None?
        invariant 0 <= index <= |values|
        invariant found.None? ==> forall j :: index <= j < |values| ==> values[j].None?
        invariant found.Some? ==> IsLatest(values, found.value)
      {
        index := index - 1;
        if values[index].Some? {
          found := Some(index);
        }
      }
      indices := indices + [found];
    }
  }

  function SpreadValue(left: Option<real>, right: Option<real>): Option<real> {
    if left.None? || right.None? then None else Some(left.value - right.value)
  }

  function ComputeSpread(left: Column, right: Column): Column
    requires |left| == |right|
  {
    seq(|left|, j requires 0 <= j < |left| => SpreadValue(left[j], right[j]))
  }

  function SpreadPoint(t: int, value: Option<real>): Point
    requires value.Some?
  {
    Point(t, value.value / 100.0)
  }

  /** The points of the spread series: one per axis entry with a value, as a rate again. */
  function SpreadPoints(xs: seq<int>, spread: Column): Series
    requires |xs| == |spread|
  {
    if xs == [] then [] else
      (if spread[0].None? then [] else [SpreadPoint(xs[0], spread[0])]) + SpreadPoints(xs[1..], spread[1..])
  }

  function SpreadSeries(left: Series, right: Series): Series {
    var xs := Sorted(AllStamps([left, right]));
    SpreadPoints(xs, ComputeSpread(ColumnOf(left, xs), ColumnOf(right, xs)))
  }

  /** A spread point stands at an axis entry that has a value. */
  lemma {:induction false} SpreadPointsSound(xs: seq<int>, spread: Column, p: Point)
    requires |xs| == |spread| && p in SpreadPoints(xs, spread)
    ensures exists i :: 0 <= i < |xs| && spread[i].Some? && p == SpreadPoint(xs[i], spread[i])
  {
    if spread[0].Some? && p == SpreadPoint(xs[0], spread[0]) {
    } else {
      SpreadPointsSound(xs[1..], spread[1..], p);
      var i :| 0 <= i < |xs[1..]| && spread[1..][i].Some? && p == SpreadPoint(xs[1..][i], spread[1..][i]);
      assert spread[i + 1].Some? && p == SpreadPoint(xs[i + 1], spread[i + 1]);
    }
  }

  /** Every axis entry with a value has its spread point. */
  lemma {:induction false} SpreadPointsComplete(xs: seq<int>, spread: Column, i: nat)
    requires |xs| == |spread| && i < |xs| && spread[i].Some?
    ensures SpreadPoint(xs[i], spread[i]) in SpreadPoints(xs, spread)
  {
    if i > 0 {
      SpreadPointsComplete(xs[1..], spread[1..], i - 1);
    }
  }

  lemma {:induction false} SpreadPointsIncrease(xs: seq<int>, spread: Column, i: nat, j: nat)
    requires |xs| == |spread| && Increasing(xs) && i < j < |SpreadPoints(xs, spread)|
    ensures SpreadPoints(xs, spread)[i].timestamp < SpreadPoints(xs, spread)[j].timestamp
  {
    var rest := SpreadPoints(xs[1..], spread[1..]);
    assert Increasing(xs[1..]);
    if spread[0].None? {
      SpreadPointsIncrease(xs[1..], spread[1..], i, j);
    } else if i > 0 {
      SpreadPointsIncrease(xs[1..], spread[1..], i - 1, j - 1);
    } else {
      assert rest[j - 1] in rest;
      SpreadPointsSound(xs[1..], spread[1..], rest[j - 1]);
    }
  }

  /** The spread series: strictly increasing, exactly the shared timestamps, each with left minus right. */
  lemma SpreadIsDifferenceOnShared(left: Series, right: Series)
    ensures var spread := SpreadSeries(left, right);
      && (forall i, j :: 0 <= i < j < |spread| ==> spread[i].timestamp < spread[j].timestamp)
      && StampsOf(spread) == StampsOf(left) * StampsOf(right)
      && forall p :: p in spread ==>
           && LastRate(left, p.timestamp).Some? && LastRate(right, p.timestamp).Some?
           && p.fundingRate == LastRate(left, p.timestamp).value / 100.0 - LastRate(right, p.timestamp).value / 100.0
  {
    var all := [left, right];
    var xs := Sorted(AllStamps(all));
    var values := ComputeSpread(ColumnOf(left, xs), ColumnOf(right, xs));
    var spread := SpreadSeries(left, right);
    AxisIsUnion(all);
    forall t
      ensures LastRate(left, t).Some? <==> t in StampsOf(left)
      ensures LastRate(right, t).Some? <==> t in StampsOf(right)
    {
      HasRateIffStamped(left, t);
      HasRateIffStamped(right, t);
    }
    forall i, j | 0 <= i < j < |spread| ensures spread[i].timestamp < spread[j].timestamp {
      SpreadPointsIncrease(xs, values, i, j);
    }
    forall t | t in StampsOf(left) * StampsOf(right) ensures t in StampsOf(spread) {
      assert t in StampsOf(all[0]);
      assert t in xs;
      var i :| 0 <= i < |xs| && xs[i] == t;
      SpreadPointsComplete(xs, values, i);
    }
    forall p | p in spread
      ensures LastRate(left, p.timestamp).Some? && LastRate(right, p.timestamp).Some?
      ensures p.fundingRate == LastRate(left, p.timestamp).value / 100.0 - LastRate(right, p.timestamp).value / 100.0
    {
      SpreadPointsSound(xs, values, p);
    }
  }
}
