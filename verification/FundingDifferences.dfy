/**
 The cumulative funding differences query: contract pairs, one aligned window per distinct interval, one
 shared aggregation of the funding records per window, and the join back to the pairs.

 Instants are whole seconds, relations are sequences (bags of rows), rates are reals.
 */
module FundingDifferences {
  import opened Prelude

  const HOUR := 3_600
  const MINUTE := 60

  /** `time_bucket` counts its buckets from Monday 2000-01-03. */
  const BUCKET_ORIGIN := 946_857_600

  datatype Contract = Contract(id: nat, asset: string, section: string, quote: string, interval: nat)

  datatype Record = Record(contractId: nat, timestamp: int, rate: real)

  datatype Pair = Pair(first: Contract, second: Contract, maxInterval: nat)

  datatype Window = Window(maxInterval: nat, from: int, to: int)

  datatype Request = Request(fromTime: int, toTime: int, bufferMinutes: int, compareFor: Option<string>)

  /** A row of the join of windows and records; the interval of the window is not a grouping column. */
  datatype JoinedRow = JoinedRow(from: int, to: int, contractId: nat, rate: real)

  datatype PairTotals = PairTotals(pair: Pair, window: Window, first: real, second: real)

  // ---------- filters and pairs ----------

  /** An absent, empty or "all" filter selects everything; a section filter always keeps the compared section. */
  function ProcessFilterList(filter: seq<string>, compareFor: Option<string>, isSection: bool): seq<string> {
    var processed := if filter == [] || "all" in filter then ["all"] else filter;
    if isSection && compareFor.Some? && compareFor.value != "" && "all" !in processed && compareFor.value !in processed
    then processed + [compareFor.value] else processed
  }

  predicate Selected(filter: seq<string>, value: string) {
    "all" in filter || value in filter
  }

  /** A processed filter selects a value iff the user's list does, or it is the compared section. */
  lemma ProcessedFilterMeaning(filter: seq<string>, compareFor: Option<string>, isSection: bool, value: string)
    ensures Selected(ProcessFilterList(filter, compareFor, isSection), value) <==>
            || filter == [] || "all" in filter || value in filter
            || (isSection && compareFor == Some(value) && value != "")
            || (isSection && compareFor == Some("all"))
  {
  }

  predicate Paired(a: Contract, b: Contract, compareFor: Option<string>) {
    && a.asset == b.asset
    && if compareFor.Some? && compareFor.value != "" then a.section == compareFor.value && b.section != compareFor.value
       else a.id < b.id
  }

  function MaxOf(a: nat, b: nat): nat {
    if a >= b then a else b
  }

  /** The pairs with a given left contract. */
  function PairsWith(a: Contract, contracts: seq<Contract>, compareFor: Option<string>): seq<Pair> {
    if contracts == [] then [] else
      (if Paired(a, contracts[0], compareFor)
       then [Pair(a, contracts[0], MaxOf(a.interval, contracts[0].interval))] else [])
      + PairsWith(a, contracts[1..], compareFor)
  }

  function PairsOf(left: seq<Contract>, contracts: seq<Contract>, compareFor: Option<string>): seq<Pair> {
    if left == [] then [] else PairsWith(left[0], contracts, compareFor) + PairsOf(left[1..], contracts, compareFor)
  }

  function ContractPairs(contracts: seq<Contract>, compareFor: Option<string>): seq<Pair> {
    PairsOf(contracts, contracts, compareFor)
  }

  predicate NoDuplicates<T(==)>(s: seq<T>) {
    forall i, j :: 0 <= i < j < |s| ==> s[i] != s[j]
  }

  predicate IsPair(p: Pair, compareFor: Option<string>) {
    Paired(p.first, p.second, compareFor) && p.maxInterval == MaxOf(p.first.interval, p.second.interval)
  }

  lemma {:induction false} PairsWithMeaning(a: Contract, contracts: seq<Contract>, compareFor: Option<string>)
    ensures forall p :: p in PairsWith(a, contracts, compareFor) <==>
              p.first == a && p.second in contracts && IsPair(p, compareFor)
    ensures NoDuplicates(contracts) ==> NoDuplicates(PairsWith(a, contracts, compareFor))
  {
    if contracts != [] {
      var rest := PairsWith(a, contracts[1..], compareFor);
      PairsWithMeaning(a, contracts[1..], compareFor);
      assert contracts == [contracts[0]] + contracts[1..];
      if NoDuplicates(contracts) {
        assert NoDuplicates(contracts[1..]);
        assert contracts[0] !in contracts[1..];
        assert forall p :: p in rest ==> p.second != contracts[0];
        assert forall i :: 0 <= i < |rest| ==> rest[i] in rest;
      }
    }
  }

  lemma {:induction false} PairsOfMeaning(left: seq<Contract>, contracts: seq<Contract>, compareFor: Option<string>)
    ensures forall p :: p in PairsOf(left, contracts, compareFor) <==>
              p.first in left && p.second in contracts && IsPair(p, compareFor)
    ensures NoDuplicates(left) && NoDuplicates(contracts) ==> NoDuplicates(PairsOf(left, contracts, compareFor))
  {
    if left != [] {
      var head, rest := PairsWith(left[0], contracts, compareFor), PairsOf(left[1..], contracts, compareFor);
      PairsWithMeaning(left[0], contracts, compareFor);
      PairsOfMeaning(left[1..], contracts, compareFor);
      assert left == [left[0]] + left[1..];
      if NoDuplicates(left) && NoDuplicates(contracts) {
        assert NoDuplicates(left[1..]);
        assert left[0] !in left[1..];
        forall i, j | 0 <= i < j < |head + rest| ensures (head + rest)[i] != (head + rest)[j] {
          if i < |head| <= j {
            assert (head + rest)[i] in head && (head + rest)[j] in rest;
          }
        }
      }
    }
  }

  /**
   Two different contracts of one asset are paired exactly once and in one order only: by id, or with the
   compared section on the left.
   */
  lemma PairedExactlyOnce(contracts: seq<Contract>, compareFor: Option<string>, i: nat, j: nat)
    requires forall a, b :: 0 <= a < b < |contracts| ==> contracts[a].id != contracts[b].id
    requires var pairs := ContractPairs(contracts, compareFor);
      i < |pairs| && j < |pairs|
      && {pairs[i].first, pairs[i].second} == {pairs[j].first, pairs[j].second}
    ensures i == j
  {
    var pairs := ContractPairs(contracts, compareFor);
    PairsOfMeaning(contracts, contracts, compareFor);
    assert pairs[i] in pairs && pairs[j] in pairs;
    var a, b, c, d := pairs[i].first, pairs[i].second, pairs[j].first, pairs[j].second;
    assert a in {a, b} && b in {a, b} && c in {c, d} && d in {c, d};
  }

  /** The pairs, written out: one asset, the larger interval, and the pairing condition of the request. */
  lemma PairContents(contracts: seq<Contract>, compareFor: Option<string>, p: Pair)
    ensures p in ContractPairs(contracts, compareFor) <==>
            && p.first in contracts && p.second in contracts && p.first.asset == p.second.asset
            && p.maxInterval >= p.first.interval && p.maxInterval >= p.second.interval
            && (p.maxInterval == p.first.interval || p.maxInterval == p.second.interval)
            && (if compareFor.None? || compareFor == Some("") then p.first.id < p.second.id
                else Some(p.first.section) == compareFor && Some(p.second.section) != compareFor)
  {
    PairsOfMeaning(contracts, contracts, compareFor);
  }

  // ---------- windows and the shared aggregation ----------

  function TimeBucket(width: nat, t: int): int
    requires width > 0
  {
    BucketStart(t - BUCKET_ORIGIN, width) + BUCKET_ORIGIN
  }

  function AlignedWindow(interval: nat, req: Request): Window
    requires interval > 0
  {
    Window(interval, TimeBucket(interval * HOUR, req.fromTime), TimeBucket(interval * HOUR, req.toTime))
  }

  /**
   The window of a pair, written out: both ends are multiples of the interval from the origin, each at or before
   the request's end and less than an interval before it.
   */
  lemma WindowIsAligned(interval: nat, req: Request)
    requires interval > 0
    ensures var w, width := AlignedWindow(interval, req), interval * HOUR;
      && w.maxInterval == interval && width > 0
      && (w.from - 946_857_600) % width == 0 && w.from <= req.fromTime < w.from + width
      && (w.to - 946_857_600) % width == 0 && w.to <= req.toTime < w.to + width
  {
  }

  /** `time_bucket` raises on a width of zero. */
  predicate Bucketable(pairs: seq<Pair>) {
    forall p :: p in pairs ==> p.maxInterval > 0
  }

  function DistinctWindows(pairs: seq<Pair>, req: Request): seq<Window>
    requires Bucketable(pairs)
  {
    if pairs == [] then [] else
      var rest := DistinctWindows(pairs[1..], req);
      var w := AlignedWindow(pairs[0].maxInterval, req);
      if w in rest then rest else [w] + rest
  }

  predicate InWindow(r: Record, w: Window, req: Request) {
    w.from - req.bufferMinutes * MINUTE <= r.timestamp < w.to
  }

  function JoinWindow(w: Window, records: seq<Record>, ids: set<nat>, req: Request): seq<JoinedRow> {
    if records == [] then [] else
      (if InWindow(records[0], w, req) && records[0].contractId in ids
       then [JoinedRow(w.from, w.to, records[0].contractId, records[0].rate)] else [])
      + JoinWindow(w, records[1..], ids, req)
  }

  function Join(windows: seq<Window>, records: seq<Record>, ids: set<nat>, req: Request): seq<JoinedRow> {
    if windows == [] then [] else
      JoinWindow(windows[0], records, ids, req) + Join(windows[1..], records, ids, req)
  }

  /** SUM over one group, where a missing group counts as zero. */
  function GroupSum(rows: seq<JoinedRow>, from: int, to: int, contractId: nat): real {
    if rows == [] then 0.0 else
      var r := rows[0];
      (if r.from == from && r.to == to && r.contractId == contractId then r.rate else 0.0)
      + GroupSum(rows[1..], from, to, contractId)
  }

  function TotalsOf(p: Pair, windows: seq<Window>, rows: seq<JoinedRow>): seq<PairTotals> {
    if windows == [] then [] else
      var w := windows[0];
      (if w.maxInterval == p.maxInterval
       then [PairTotals(p, w, GroupSum(rows, w.from, w.to, p.first.id), GroupSum(rows, w.from, w.to, p.second.id))]
       else [])
      + TotalsOf(p, windows[1..], rows)
  }

  function Compare(pairs: seq<Pair>, windows: seq<Window>, rows: seq<JoinedRow>): seq<PairTotals> {
    if pairs == [] then [] else TotalsOf(pairs[0], windows, rows) + Compare(pairs[1..], windows, rows)
  }

  function Ids(contracts: seq<Contract>): set<nat> {
    set c | c in contracts :: c.id
  }

  /** The query: its comparison rows, before the difference filter and the pagination. */
  function CumulativeDifferences(contracts: seq<Contract>, records: seq<Record>, req: Request): seq<PairTotals>
    requires Bucketable(ContractPairs(contracts, req.compareFor))
  {
    var pairs := ContractPairs(contracts, req.compareFor);
    var windows := DistinctWindows(pairs, req);
    Compare(pairs, windows, Join(windows, records, Ids(contracts), req))
  }

  // ---------- the simple form ----------

  /** The contract's own records, summed directly over one window. */
  function Direct(records: seq<Record>, contractId: nat, w: Window, req: Request): real {
    if records == [] then 0.0 else
      var r := records[0];
      (if r.contractId == contractId && w.from - req.bufferMinutes * MINUTE <= r.timestamp < w.to then r.rate else 0.0)
      + Direct(records[1..], contractId, w, req)
  }

  /** How many of the windows, one per distinct interval, cover the same span of time. */
  function Sharing(windows: seq<Window>, from: int, to: int): nat {
    if windows == [] then 0 else
      (if windows[0].from == from && windows[0].to == to then 1 else 0) + Sharing(windows[1..], from, to)
  }

  function Times(n: nat, d: real): real {
    if n == 0 then 0.0 else d + Times(n - 1, d)
  }

  lemma {:induction false} GroupSumOfConcat(a: seq<JoinedRow>, b: seq<JoinedRow>, from: int, to: int, id: nat)
    ensures GroupSum(a + b, from, to, id) == GroupSum(a, from, to, id) + GroupSum(b, from, to, id)
  {
    if a == [] {
      assert a + b == b;
    } else {
      assert (a + b)[1..] == a[1..] + b;
      GroupSumOfConcat(a[1..], b, from, to, id);
    }
  }

  lemma {:induction false} GroupSumOfWindow(
    w: Window, span: Window, records: seq<Record>, ids: set<nat>, req: Request, id: nat)
    requires id in ids
    ensures GroupSum(JoinWindow(w, records, ids, req), span.from, span.to, id)
         == if w.from == span.from && w.to == span.to then Direct(records, id, span, req) else 0.0
  {
    if records != [] {
      var rest := JoinWindow(w, records[1..], ids, req);
      GroupSumOfWindow(w, span, records[1..], ids, req, id);
      var row := JoinedRow(w.from, w.to, records[0].contractId, records[0].rate);
      assert ([row] + rest)[1..] == rest;
      assert [] + rest == rest;
    }
  }

  lemma {:induction false} GroupSumIsShared(
    windows: seq<Window>, span: Window, records: seq<Record>, ids: set<nat>, req: Request, id: nat)
    requires id in ids
    ensures GroupSum(Join(windows, records, ids, req), span.from, span.to, id)
         == Times(Sharing(windows, span.from, span.to), Direct(records, id, span, req))
  {
    if windows != [] {
      GroupSumOfConcat(JoinWindow(windows[0], records, ids, req), Join(windows[1..], records, ids, req),
                       span.from, span.to, id);
      GroupSumOfWindow(windows[0], span, records, ids, req, id);
      GroupSumIsShared(windows[1..], span, records, ids, req, id);
    }
  }

  /** One window per distinct interval, each the aligned window of its interval. */
  lemma {:induction false} DistinctWindowsMeaning(pairs: seq<Pair>, req: Request)
    requires Bucketable(pairs)
    ensures NoDuplicates(DistinctWindows(pairs, req))
    ensures forall w :: w in DistinctWindows(pairs, req) <==>
              w.maxInterval > 0 && w == AlignedWindow(w.maxInterval, req)
              && exists p :: p in pairs && p.maxInterval == w.maxInterval
  {
    if pairs != [] {
      var rest := DistinctWindows(pairs[1..], req);
      assert pairs == [pairs[0]] + pairs[1..];
      DistinctWindowsMeaning(pairs[1..], req);
      var first := AlignedWindow(pairs[0].maxInterval, req);
      forall w: Window | w.maxInterval > 0 && w == AlignedWindow(w.maxInterval, req)
                 && exists p :: p in pairs && p.maxInterval == w.maxInterval
        ensures w == first || w in rest
      {
        var p :| p in pairs && p.maxInterval == w.maxInterval;
        assert p == pairs[0] || p in pairs[1..];
      }
    }
  }

  lemma {:induction false} TotalsOfMeaning(p: Pair, windows: seq<Window>, rows: seq<JoinedRow>, k: nat)
    requires k < |windows| && windows[k].maxInterval == p.maxInterval
    requires forall i, j :: 0 <= i < j < |windows| ==> windows[i].maxInterval != windows[j].maxInterval
    ensures var w := windows[k];
      TotalsOf(p, windows, rows)
      == [PairTotals(p, w, GroupSum(rows, w.from, w.to, p.first.id), GroupSum(rows, w.from, w.to, p.second.id))]
  {
    if k == 0 {
      NoTotals(p, windows[1..], rows);
    } else {
      assert windows[0].maxInterval != windows[k].maxInterval;
      TotalsOfMeaning(p, windows[1..], rows, k - 1);
    }
  }

  lemma {:induction false} NoTotals(p: Pair, windows: seq<Window>, rows: seq<JoinedRow>)
    requires forall i :: 0 <= i < |windows| ==> windows[i].maxInterval != p.maxInterval
    ensures TotalsOf(p, windows, rows) == []
  {
    if windows != [] {
      NoTotals(p, windows[1..], rows);
    }
  }

  /** The comparison row of a pair: its own window, and each direct sum once per interval sharing that window. */
  function SharedTotals(p: Pair, windows: seq<Window>, records: seq<Record>, req: Request): PairTotals
    requires p.maxInterval > 0
  {
    var w := AlignedWindow(p.maxInterval, req);
    var n := Sharing(windows, w.from, w.to);
    PairTotals(p, w, Times(n, Direct(records, p.first.id, w, req)), Times(n, Direct(records, p.second.id, w, req)))
  }

  lemma PairRow(p: Pair, all: seq<Pair>, records: seq<Record>, ids: set<nat>, req: Request)
    requires Bucketable(all) && p in all && p.first.id in ids && p.second.id in ids
    ensures var windows := DistinctWindows(all, req);
      TotalsOf(p, windows, Join(windows, records, ids, req)) == [SharedTotals(p, windows, records, req)]
  {
    var windows := DistinctWindows(all, req);
    var w := AlignedWindow(p.maxInterval, req);
    DistinctWindowsMeaning(all, req);
    assert w in windows;
    var k :| 0 <= k < |windows| && windows[k] == w;
    forall i, j | 0 <= i < j < |windows| ensures windows[i].maxInterval != windows[j].maxInterval {
      assert windows[i] in windows && windows[j] in windows;
    }
    TotalsOfMeaning(p, windows, Join(windows, records, ids, req), k);
    GroupSumIsShared(windows, w, records, ids, req, p.first.id);
    GroupSumIsShared(windows, w, records, ids, req, p.second.id);
  }

  lemma {:induction false} CompareRows(pairs: seq<Pair>, all: seq<Pair>, records: seq<Record>, ids: set<nat>,
                                       req: Request)
    requires Bucketable(all)
    requires forall p :: p in pairs ==> p in all && p.first.id in ids && p.second.id in ids
    ensures var windows := DistinctWindows(all, req);
      var result := Compare(pairs, windows, Join(windows, records, ids, req));
      && |result| == |pairs|
      && forall i :: 0 <= i < |pairs| ==>
          pairs[i].maxInterval > 0 && result[i] == SharedTotals(pairs[i], windows, records, req)
  {
    if pairs != [] {
      var windows := DistinctWindows(all, req);
      var rows := Join(windows, records, ids, req);
      assert pairs[0] in pairs;
      PairRow(pairs[0], all, records, ids, req);
      assert forall p :: p in pairs[1..] ==> p in pairs;
      CompareRows(pairs[1..], all, records, ids, req);
      var rest := Compare(pairs[1..], windows, rows);
      assert Compare(pairs, windows, rows) == [SharedTotals(pairs[0], windows, records, req)] + rest;
      forall i | 0 <= i < |pairs|
        ensures pairs[i].maxInterval > 0
             && Compare(pairs, windows, rows)[i] == SharedTotals(pairs[i], windows, records, req)
      {
        assert i > 0 ==> pairs[i] == pairs[1..][i - 1];
      }
    }
  }

  /**
   The query has one row per pair, in which each total is the contract's direct sum over the pair's own
   window, counted once for every distinct interval that aligns to that window.
   */
  lemma TotalsAreSharedDirectSums(contracts: seq<Contract>, records: seq<Record>, req: Request)
    requires Bucketable(ContractPairs(contracts, req.compareFor))
    ensures var pairs := ContractPairs(contracts, req.compareFor);
      var windows := DistinctWindows(pairs, req);
      var result := CumulativeDifferences(contracts, records, req);
      && |result| == |pairs|
      && forall i :: 0 <= i < |pairs| ==>
          pairs[i].maxInterval > 0 && result[i] == SharedTotals(pairs[i], windows, records, req)
  {
    var pairs := ContractPairs(contracts, req.compareFor);
    PairsOfMeaning(contracts, contracts, req.compareFor);
    CompareRows(pairs, pairs, records, Ids(contracts), req);
  }

  predicate SameSpan(v: Window, w: Window) {
    v.from == w.from && v.to == w.to
  }

  /** No two distinct intervals of the pairs align to the same window. */
  ghost predicate IntervalsAlignApart(pairs: seq<Pair>, req: Request)
    requires Bucketable(pairs)
  {
    forall p, q :: p in pairs && q in pairs && p.maxInterval != q.maxInterval ==>
      !SameSpan(AlignedWindow(p.maxInterval, req), AlignedWindow(q.maxInterval, req))
  }

  lemma {:induction false} SharingCount(windows: seq<Window>, k: nat)
    requires k < |windows|
    ensures Sharing(windows, windows[k].from, windows[k].to) >= 1
    ensures (forall i :: 0 <= i < |windows| && i != k ==>
        windows[i].from != windows[k].from || windows[i].to != windows[k].to)
            <==> Sharing(windows, windows[k].from, windows[k].to) == 1
  {
    var w := windows[k];
    if k == 0 {
      SharingNone(windows[1..], w.from, w.to);
      assert forall i :: 0 < i < |windows| ==> windows[i] == windows[1..][i - 1];
    } else {
      SharingCount(windows[1..], k - 1);
      assert forall i :: 0 < i < |windows| ==> windows[i] == windows[1..][i - 1];
    }
  }

  lemma {:induction false} SharingNone(windows: seq<Window>, from: int, to: int)
    ensures Sharing(windows, from, to) == 0 <==>
            forall i :: 0 <= i < |windows| ==> windows[i].from != from || windows[i].to != to
  {
    if windows != [] {
      SharingNone(windows[1..], from, to);
      assert forall i :: 0 < i < |windows| ==> windows[i] == windows[1..][i - 1];
    }
  }

  /** Every window is counted once exactly when no two distinct intervals of the pairs align to the same window. */
  lemma SharedOnceIffAlignedApart(pairs: seq<Pair>, req: Request)
    requires Bucketable(pairs)
    ensures (forall p :: p in pairs ==>
               var w := AlignedWindow(p.maxInterval, req); Sharing(DistinctWindows(pairs, req), w.from, w.to) == 1)
            <==> IntervalsAlignApart(pairs, req)
  {
    var windows := DistinctWindows(pairs, req);
    DistinctWindowsMeaning(pairs, req);
    if IntervalsAlignApart(pairs, req) {
      forall p | p in pairs
        ensures var w := AlignedWindow(p.maxInterval, req); Sharing(windows, w.from, w.to) == 1
      {
        var w := AlignedWindow(p.maxInterval, req);
        assert w in windows;
        var k :| 0 <= k < |windows| && windows[k] == w;
        forall i | 0 <= i < |windows| && i != k ensures windows[i].from != w.from || windows[i].to != w.to {
          assert windows[i] in windows;
          var q :| q in pairs && q.maxInterval == windows[i].maxInterval;
        }
        SharingCount(windows, k);
      }
    } else {
      var p, q :| p in pairs && q in pairs && p.maxInterval != q.maxInterval
        && var v, w := AlignedWindow(p.maxInterval, req), AlignedWindow(q.maxInterval, req);
           v.from == w.from && v.to == w.to;
      var v, w := AlignedWindow(p.maxInterval, req), AlignedWindow(q.maxInterval, req);
      assert v in windows && w in windows;
      var i :| 0 <= i < |windows| && windows[i] == v;
      var k :| 0 <= k < |windows| && windows[k] == w;
      SharingCount(windows, i);
    }
  }

  /** The shared aggregation equals the simple form for every pair when distinct intervals align apart. */
  lemma SharedAggregationCorrect(contracts: seq<Contract>, records: seq<Record>, req: Request, i: nat)
    requires var pairs := ContractPairs(contracts, req.compareFor);
      Bucketable(pairs) && IntervalsAlignApart(pairs, req) && i < |pairs|
    ensures var pairs := ContractPairs(contracts, req.compareFor);
      var result, p := CumulativeDifferences(contracts, records, req), pairs[i];
      && |result| == |pairs| && p.maxInterval > 0
      && var w := AlignedWindow(p.maxInterval, req);
         result[i] == PairTotals(p, w, Direct(records, p.first.id, w, req), Direct(records, p.second.id, w, req))
  {
    var pairs := ContractPairs(contracts, req.compareFor);
    TotalsAreSharedDirectSums(contracts, records, req);
    SharedOnceIffAlignedApart(pairs, req);
    assert pairs[i] in pairs;
    var w := AlignedWindow(pairs[i].maxInterval, req);
    ScaledEquals(1, Direct(records, pairs[i].first.id, w, req));
    ScaledEquals(1, Direct(records, pairs[i].second.id, w, req));
  }

  /** When intervals do share a window, a total is right only if the contract's funding there sums to zero. */
  lemma TotalRightIff(contracts: seq<Contract>, records: seq<Record>, req: Request, i: nat)
    requires var pairs := ContractPairs(contracts, req.compareFor); Bucketable(pairs) && i < |pairs|
    ensures var pairs := ContractPairs(contracts, req.compareFor);
      var result, p := CumulativeDifferences(contracts, records, req), pairs[i];
      && |result| == |pairs| && p.maxInterval > 0
      && var w := AlignedWindow(p.maxInterval, req);
         var shared := Sharing(DistinctWindows(pairs, req), w.from, w.to);
         var first, second := Direct(records, p.first.id, w, req), Direct(records, p.second.id, w, req);
         && (result[i].first == first <==> first == 0.0 || shared == 1)
         && (result[i].second == second <==> second == 0.0 || shared == 1)
  {
    var pairs := ContractPairs(contracts, req.compareFor);
    TotalsAreSharedDirectSums(contracts, records, req);
    assert pairs[i] in pairs;
    var w := AlignedWindow(pairs[i].maxInterval, req);
    ScaledEquals(Sharing(DistinctWindows(pairs, req), w.from, w.to), Direct(records, pairs[i].first.id, w, req));
    ScaledEquals(Sharing(DistinctWindows(pairs, req), w.from, w.to), Direct(records, pairs[i].second.id, w, req));
  }

  lemma {:induction false} TimesSign(n: nat, d: real)
    requires n >= 1
    ensures d > 0.0 ==> Times(n, d) >= d
    ensures d < 0.0 ==> Times(n, d) <= d
    ensures d == 0.0 ==> Times(n, d) == 0.0
    ensures n == 1 ==> Times(n, d) == d
  {
    if n > 1 {
      TimesSign(n - 1, d);
    }
  }

  lemma ScaledEquals(n: nat, d: real)
    ensures Times(n, d) == d <==> d == 0.0 || n == 1
  {
    if n >= 1 {
      TimesSign(n, d);
    }
    if n >= 2 {
      TimesSign(n - 1, d);
    }
  }

  /** Each result row, written out: the row of its pair, the order of that pair, and its aligned window. */
  lemma RowContents(contracts: seq<Contract>, records: seq<Record>, req: Request, i: nat)
    requires var pairs := ContractPairs(contracts, req.compareFor); Bucketable(pairs) && i < |pairs|
    ensures var pairs := ContractPairs(contracts, req.compareFor);
      var result := CumulativeDifferences(contracts, records, req);
      && |result| == |pairs| && result[i].pair == pairs[i] && pairs[i].maxInterval > 0
      && var row, width := result[i], pairs[i].maxInterval * HOUR;
         && width > 0
         && (row.window.from - 946_857_600) % width == 0
         && row.window.from <= req.fromTime < row.window.from + width
         && (row.window.to - 946_857_600) % width == 0
         && row.window.to <= req.toTime < row.window.to + width
         && (if req.compareFor.None? || req.compareFor == Some("") then row.pair.first.id < row.pair.second.id
             else Some(row.pair.first.section) == req.compareFor && Some(row.pair.second.section) != req.compareFor)
  {
    var pairs := ContractPairs(contracts, req.compareFor);
    TotalsAreSharedDirectSums(contracts, records, req);
    assert pairs[i] in pairs;
    PairContents(contracts, req.compareFor, pairs[i]);
    WindowIsAligned(pairs[i].maxInterval, req);
  }

  /** The direct sum is additive over records, and one record counts iff it is the contract's and in the window. */
  lemma {:induction false} DirectMeaning(a: seq<Record>, b: seq<Record>, r: Record, id: nat, w: Window, req: Request)
    ensures Direct([], id, w, req) == 0.0
    ensures Direct([r], id, w, req) ==
            if r.contractId == id && w.from - req.bufferMinutes * 60 <= r.timestamp < w.to then r.rate else 0.0
    ensures Direct(a + b, id, w, req) == Direct(a, id, w, req) + Direct(b, id, w, req)
  {
    assert [r][1..] == [];
    if a == [] {
      assert a + b == b;
    } else {
      assert (a + b)[1..] == a[1..] + b;
      DirectMeaning(a[1..], b, r, id, w, req);
    }
  }

  /** The `difference` column, by whose size the rows are ranked. */
  function Difference(t: PairTotals): real {
    t.first - t.second
  }

  lemma {:induction false} TimesOfDifference(n: nat, a: real, b: real)
    ensures Times(n, a) - Times(n, b) == Times(n, a - b)
  {
    if n > 0 {
      TimesOfDifference(n - 1, a, b);
    }
  }

  /** A difference is right exactly when its window is not shared or the direct sums are equal. */
  lemma DifferenceRightIff(contracts: seq<Contract>, records: seq<Record>, req: Request, i: nat)
    requires var pairs := ContractPairs(contracts, req.compareFor); Bucketable(pairs) && i < |pairs|
    ensures var pairs := ContractPairs(contracts, req.compareFor);
      var result, p := CumulativeDifferences(contracts, records, req), pairs[i];
      && |result| == |pairs| && p.maxInterval > 0
      && var w := AlignedWindow(p.maxInterval, req);
         var shared := Sharing(DistinctWindows(pairs, req), w.from, w.to);
         var first, second := Direct(records, p.first.id, w, req), Direct(records, p.second.id, w, req);
         Difference(result[i]) == first - second <==> first == second || shared == 1
  {
    var pairs := ContractPairs(contracts, req.compareFor);
    TotalsAreSharedDirectSums(contracts, records, req);
    assert pairs[i] in pairs;
    var w := AlignedWindow(pairs[i].maxInterval, req);
    var n := Sharing(DistinctWindows(pairs, req), w.from, w.to);
    var first, second := Direct(records, pairs[i].first.id, w, req), Direct(records, pairs[i].second.id, w, req);
    TimesOfDifference(n, first, second);
    ScaledEquals(n, first - second);
  }

  // ---------- the condition, checkable before the query ----------

  /** The buffered window can hold a record. */
  predicate Open(w: Window, req: Request) {
    w.from - req.bufferMinutes * MINUTE < w.to
  }

  /** No two distinct intervals of the pairs share a window that can hold a record. */
  ghost predicate OpenWindowsApart(pairs: seq<Pair>, req: Request)
    requires Bucketable(pairs)
  {
    forall p, q :: p in pairs && q in pairs && p.maxInterval != q.maxInterval ==>
      var v, w := AlignedWindow(p.maxInterval, req), AlignedWindow(q.maxInterval, req);
      !SameSpan(v, w) || !Open(v, req)
  }

  lemma {:induction false} ClosedWindowIsEmpty(records: seq<Record>, id: nat, w: Window, req: Request)
    requires !Open(w, req)
    ensures Direct(records, id, w, req) == 0.0
  {
    if records != [] {
      ClosedWindowIsEmpty(records[1..], id, w, req);
    }
  }

  /** When open windows are apart, every open one is counted once. */
  lemma OpenCountedOnce(pairs: seq<Pair>, req: Request, p: Pair)
    requires Bucketable(pairs) && OpenWindowsApart(pairs, req) && p in pairs
    ensures var w := AlignedWindow(p.maxInterval, req);
      Open(w, req) ==> Sharing(DistinctWindows(pairs, req), w.from, w.to) == 1
  {
    var windows, w := DistinctWindows(pairs, req), AlignedWindow(p.maxInterval, req);
    DistinctWindowsMeaning(pairs, req);
    assert w in windows;
    var k :| 0 <= k < |windows| && windows[k] == w;
    SharingCount(windows, k);
    if Open(w, req) {
      forall j | 0 <= j < |windows| && j != k ensures windows[j].from != w.from || windows[j].to != w.to {
        assert windows[j] in windows && windows[j] != w;
        var q :| q in pairs && windows[j] == AlignedWindow(q.maxInterval, req);
      }
    }
  }

  /** Every row has the direct totals. */
  ghost predicate AllTotalsDirect(contracts: seq<Contract>, records: seq<Record>, req: Request)
    requires Bucketable(ContractPairs(contracts, req.compareFor))
  {
    var pairs, result := ContractPairs(contracts, req.compareFor), CumulativeDifferences(contracts, records, req);
    && |result| == |pairs|
    && forall i :: 0 <= i < |pairs| ==> result[i] == DirectTotals(pairs, i, records, req)
  }

  function DirectTotals(pairs: seq<Pair>, i: nat, records: seq<Record>, req: Request): PairTotals
    requires Bucketable(pairs) && i < |pairs|
  {
    var p := pairs[i];
    assert p in pairs;
    var w := AlignedWindow(p.maxInterval, req);
    PairTotals(p, w, Direct(records, p.first.id, w, req), Direct(records, p.second.id, w, req))
  }

  /** Every row has the difference of the direct totals. */
  ghost predicate AllDifferencesDirect(contracts: seq<Contract>, records: seq<Record>, req: Request)
    requires Bucketable(ContractPairs(contracts, req.compareFor))
  {
    var pairs, result := ContractPairs(contracts, req.compareFor), CumulativeDifferences(contracts, records, req);
    && |result| == |pairs|
    && forall i :: 0 <= i < |pairs| ==> Difference(result[i]) == Difference(DirectTotals(pairs, i, records, req))
  }

  lemma OpenApartGivesDirect(contracts: seq<Contract>, records: seq<Record>, req: Request)
    requires var pairs := ContractPairs(contracts, req.compareFor); Bucketable(pairs) && OpenWindowsApart(pairs, req)
    ensures AllTotalsDirect(contracts, records, req)
  {
    var pairs, result := ContractPairs(contracts, req.compareFor), CumulativeDifferences(contracts, records, req);
    TotalsAreSharedDirectSums(contracts, records, req);
    forall i | 0 <= i < |pairs| ensures result[i] == DirectTotals(pairs, i, records, req) {
      assert pairs[i] in pairs;
      var w := AlignedWindow(pairs[i].maxInterval, req);
      OpenCountedOnce(pairs, req, pairs[i]);
      if !Open(w, req) {
        ClosedWindowIsEmpty(records, pairs[i].first.id, w, req);
        ClosedWindowIsEmpty(records, pairs[i].second.id, w, req);
      }
      TotalRightIff(contracts, records, req, i);
    }
  }

  /** Two intervals with one aligned window are both counted under it. */
  lemma SharedWindow(pairs: seq<Pair>, req: Request, p: Pair, q: Pair)
    requires Bucketable(pairs) && p in pairs && q in pairs && p.maxInterval != q.maxInterval
    requires SameSpan(AlignedWindow(p.maxInterval, req), AlignedWindow(q.maxInterval, req))
    ensures !IntervalsAlignApart(pairs, req)
    ensures var w := AlignedWindow(p.maxInterval, req); Sharing(DistinctWindows(pairs, req), w.from, w.to) != 1
  {
    var windows := DistinctWindows(pairs, req);
    var v, w := AlignedWindow(p.maxInterval, req), AlignedWindow(q.maxInterval, req);
    DistinctWindowsMeaning(pairs, req);
    assert v in windows && w in windows;
    var k :| 0 <= k < |windows| && windows[k] == v;
    SharingCount(windows, k);
  }

  /** One payment at the start of a shared open window is misreported, in the total and in the difference. */
  lemma SharedOpenWindowFails(contracts: seq<Contract>, req: Request) returns (records: seq<Record>)
    requires forall a, b :: 0 <= a < b < |contracts| ==> contracts[a].id != contracts[b].id
    requires var pairs := ContractPairs(contracts, req.compareFor);
      Bucketable(pairs) && !OpenWindowsApart(pairs, req)
    ensures !AllTotalsDirect(contracts, records, req) && !AllDifferencesDirect(contracts, records, req)
  {
    var pairs := ContractPairs(contracts, req.compareFor);
    var p, q :| p in pairs && q in pairs && p.maxInterval != q.maxInterval
                && SameSpan(AlignedWindow(p.maxInterval, req), AlignedWindow(q.maxInterval, req))
                && Open(AlignedWindow(p.maxInterval, req), req);
    var i :| 0 <= i < |pairs| && pairs[i] == p;
    SharedWindow(pairs, req, p, q);
    PairsOfMeaning(contracts, contracts, req.compareFor);
    records := OnePayment(p, AlignedWindow(p.maxInterval, req), req);
    TotalRightIff(contracts, records, req, i);
    DifferenceRightIff(contracts, records, req, i);
  }

  lemma OnePayment(p: Pair, w: Window, req: Request) returns (records: seq<Record>)
    requires Open(w, req)
    ensures Direct(records, p.first.id, w, req) == 1.0
    ensures p.first.id != p.second.id ==> Direct(records, p.second.id, w, req) == 0.0
  {
    records := [Record(p.first.id, w.from - req.bufferMinutes * MINUTE, 1.0)];
  }

  /**
   The shared form equals the simple one on every set of records exactly when no two distinct intervals
   share an open window; and the same condition decides the differences.
   */
  lemma SharedFormExactIff(contracts: seq<Contract>, req: Request)
    requires forall a, b :: 0 <= a < b < |contracts| ==> contracts[a].id != contracts[b].id
    requires Bucketable(ContractPairs(contracts, req.compareFor))
    ensures (forall records :: AllTotalsDirect(contracts, records, req))
            <==> OpenWindowsApart(ContractPairs(contracts, req.compareFor), req)
    ensures (forall records :: AllDifferencesDirect(contracts, records, req))
            <==> OpenWindowsApart(ContractPairs(contracts, req.compareFor), req)
  {
    if OpenWindowsApart(ContractPairs(contracts, req.compareFor), req) {
      forall records ensures AllTotalsDirect(contracts, records, req) && AllDifferencesDirect(contracts, records, req) {
        OpenApartGivesDirect(contracts, records, req);
      }
    } else {
      var records := SharedOpenWindowFails(contracts, req);
    }
  }

  // A request over whole days is aligned for every interval that divides a day.

  const DAY := 24 * HOUR

  /** From the start of one day to the start of another, with any buffer. */
  function DayRequest(from: int, to: int, bufferMinutes: int): Request {
    Request(BUCKET_ORIGIN + from * DAY, BUCKET_ORIGIN + to * DAY, bufferMinutes, None)
  }

  lemma WholeDayAligns(interval: nat, day: int)
    requires interval == 4 || interval == 8
    ensures TimeBucket(interval * HOUR, BUCKET_ORIGIN + day * DAY) == BUCKET_ORIGIN + day * DAY
  {
    BucketIsQuotient(day * DAY, day * (24 / interval), interval * HOUR);
  }

  const A := Contract(1, "BTC", "x", "USD", 4)
  const B := Contract(2, "BTC", "y", "USD", 4)
  const C := Contract(3, "BTC", "z", "USD", 8)

  lemma DayPairs()
    ensures var pairs := ContractPairs([A, B, C], None);
      Bucketable(pairs) && Pair(A, B, 4) in pairs && Pair(A, C, 8) in pairs
  {
    PairsOfMeaning([A, B, C], [A, B, C], None);
    assert A in [A, B, C] && B in [A, B, C] && C in [A, B, C];
  }

  /**
   Over any whole days pairs with intervals 4 and 8 share their window, so that a payment in its last second is
   misreported whenever the buffered window is open.
   */
  lemma WholeDaysAreMiscounted(from: int, to: int, bufferMinutes: int) returns (i: nat)
    requires from * DAY - bufferMinutes * MINUTE < to * DAY
    ensures var pairs, req := ContractPairs([A, B, C], None), DayRequest(from, to, bufferMinutes);
      var records := [Record(1, BUCKET_ORIGIN + to * DAY - 1, 1.0)];
      && Bucketable(pairs) && i < |pairs| && pairs[i] == Pair(A, B, 4)
      && !OpenWindowsApart(pairs, req)
      && Direct(records, 1, AlignedWindow(4, req), req) == 1.0
      && |CumulativeDifferences([A, B, C], records, req)| == |pairs|
      && CumulativeDifferences([A, B, C], records, req)[i].first != 1.0
  {
    var pairs, req := ContractPairs([A, B, C], None), DayRequest(from, to, bufferMinutes);
    var records := [Record(1, BUCKET_ORIGIN + to * DAY - 1, 1.0)];
    WholeDayAligns(4, from);
    WholeDayAligns(4, to);
    WholeDayAligns(8, from);
    WholeDayAligns(8, to);
    DayPairs();
    SharedWindow(pairs, req, Pair(A, B, 4), Pair(A, C, 8));
    i :| 0 <= i < |pairs| && pairs[i] == Pair(A, B, 4);
    TotalRightIff([A, B, C], records, req, i);
  }
}
