/**
 Reconciling an exchange's published contracts with the contract table of one section.

 The table is keyed by contract id; (asset, section, quote) is unique. New ids are a parameter.
 */
module Registry {
  import opened Prelude

  type Id = nat

  datatype Row = Row(asset: string, quote: string, section: string, interval: int, deprecated: bool)

  datatype Listing = Listing(asset: string, quote: string, interval: int)

  datatype Key = Key(asset: string, quote: string)

  type Rows = map<Id, Row>

  function KeyOf(r: Row): Key {
    Key(r.asset, r.quote)
  }

  function ListingKey(l: Listing): Key {
    Key(l.asset, l.quote)
  }

  predicate InSection(rows: Rows, id: Id, section: string) {
    id in rows && rows[id].section == section
  }

  /** The unique constraint of the table. */
  ghost predicate Unique(rows: Rows) {
    forall a, b :: a in rows && b in rows && SameIdentity(rows[a], rows[b]) ==> a == b
  }

  predicate SameIdentity(r: Row, s: Row) {
    r.section == s.section && KeyOf(r) == KeyOf(s)
  }

  // ---------- the feed by key ----------

  type Feed = map<Key, Listing>

  predicate DuplicateFree(feed: seq<Listing>) {
    forall i, j :: 0 <= i < j < |feed| ==> ListingKey(feed[i]) != ListingKey(feed[j])
  }

  function FeedMap(feed: seq<Listing>): Feed {
    if feed == [] then map[] else
      var n := |feed| - 1;
      FeedMap(feed[..n])[ListingKey(feed[n]) := feed[n]]
  }

  lemma {:induction false} FeedMapMeaning(feed: seq<Listing>)
    ensures forall l :: l in feed ==> ListingKey(l) in FeedMap(feed)
    ensures forall k :: k in FeedMap(feed) ==> ListingKey(FeedMap(feed)[k]) == k && FeedMap(feed)[k] in feed
  {
    if feed != [] {
      var n := |feed| - 1;
      FeedMapMeaning(feed[..n]);
      assert feed == feed[..n] + [feed[n]];
    }
  }

  /** Each listing of a duplicate-free feed is found under its key. */
  lemma FeedMapFinds(feed: seq<Listing>, l: Listing)
    requires DuplicateFree(feed) && l in feed
    ensures ListingKey(l) in FeedMap(feed) && FeedMap(feed)[ListingKey(l)] == l
  {
    FeedMapMeaning(feed);
    var i :| 0 <= i < |feed| && feed[i] == l;
    var j :| 0 <= j < |feed| && feed[j] == FeedMap(feed)[ListingKey(l)];
    assert ListingKey(feed[i]) == ListingKey(feed[j]);
  }

  /** The loop's test finds the first repeated key. */
  lemma DuplicateFreeStep(before: seq<Listing>, l: Listing)
    requires DuplicateFree(before)
    ensures DuplicateFree(before + [l]) <==> ListingKey(l) !in FeedMap(before)
  {
    FeedMapMeaning(before);
    var now, key := before + [l], ListingKey(l);
    if key in FeedMap(before) {
      var j :| 0 <= j < |before| && before[j] == FeedMap(before)[key];
      assert ListingKey(now[j]) == ListingKey(now[|before|]);
    } else {
      forall i, j | 0 <= i < j < |now| ensures ListingKey(now[i]) != ListingKey(now[j]) {
        assert now[i] == before[i] && before[i] in before;
        assert j < |before| ==> now[j] == before[j];
      }
    }
  }

  lemma DuplicateFreePrefix(feed: seq<Listing>, n: nat)
    requires n <= |feed|
    ensures DuplicateFree(feed) ==> DuplicateFree(feed[..n])
  {
    assert forall i :: 0 <= i < n ==> feed[..n][i] == feed[i];
  }

  datatype RegistryError = DuplicateFeedKey(key: Key)

  /** Two listings of the feed have this key. */
  ghost predicate Repeats(feed: seq<Listing>, key: Key) {
    exists i, j :: 0 <= i < j < |feed| && ListingKey(feed[i]) == key == ListingKey(feed[j])
  }

  method FeedByKey(feed: seq<Listing>) returns (result: Result<Feed, RegistryError>)
    ensures result.Ok? <==> DuplicateFree(feed)
    ensures result.Ok? ==> result.value == FeedMap(feed)
    ensures result.Err? ==> Repeats(feed, result.error.key)
  {
    var byKey: Feed := map[];
    for i := 0 to |feed|
      invariant byKey == FeedMap(feed[..i])
      invariant DuplicateFree(feed[..i])
    {
      DuplicateFreeStep(feed[..i], feed[i]);
      assert feed[..i + 1] == feed[..i] + [feed[i]];
      var key := ListingKey(feed[i]);
      if key in byKey {
        DuplicateFreePrefix(feed, i + 1);
        FeedMapMeaning(feed[..i]);
        assert byKey[key] in feed[..i] && ListingKey(byKey[key]) == key == ListingKey(feed[i]);
        return Err(DuplicateFeedKey(key));
      }
      byKey := byKey[key := feed[i]];
      assert feed[..i + 1][..i] == feed[..i];
    }
    assert feed[..|feed|] == feed;
    result := Ok(byKey);
  }

  // ---------- the plan ----------

  datatype Plan = Plan(added: seq<Listing>, deprecated: set<Id>, reactivated: set<Id>, intervals: map<Id, int>) {
    predicate HasChanges() {
      added != [] || deprecated != {} || reactivated != {} || intervals != map[]
    }
  }

  predicate HasKey(rows: Rows, section: string, k: Key) {
    exists id :: id in rows && InSection(rows, id, section) && KeyOf(rows[id]) == k
  }

  function Added(rows: Rows, section: string, feed: seq<Listing>): seq<Listing> {
    if feed == [] then [] else
      var n := |feed| - 1;
      Added(rows, section, feed[..n]) + if HasKey(rows, section, ListingKey(feed[n])) then [] else [feed[n]]
  }

  function Reconcile(rows: Rows, section: string, feed: seq<Listing>): Plan {
    var byKey := FeedMap(feed);
    Plan(
      Added(rows, section, feed),
      set id | id in rows && InSection(rows, id, section) && KeyOf(rows[id]) !in byKey && !rows[id].deprecated,
      set id | id in rows && InSection(rows, id, section) && KeyOf(rows[id]) in byKey && rows[id].deprecated,
      map id | id in rows && InSection(rows, id, section) && KeyOf(rows[id]) in byKey
               && rows[id].interval != byKey[KeyOf(rows[id])].interval :: byKey[KeyOf(rows[id])].interval)
  }

  lemma {:induction false} AddedMeaning(rows: Rows, section: string, feed: seq<Listing>)
    ensures forall l :: l in Added(rows, section, feed) <==> l in feed && !HasKey(rows, section, ListingKey(l))
    ensures |Added(rows, section, feed)| <= |feed|
    ensures DuplicateFree(feed) ==> DuplicateFree(Added(rows, section, feed))
  {
    if feed != [] {
      var n := |feed| - 1;
      var before := Added(rows, section, feed[..n]);
      AddedMeaning(rows, section, feed[..n]);
      assert feed == feed[..n] + [feed[n]];
      if DuplicateFree(feed) {
        DuplicateFreePrefix(feed, n);
        OtherKeys(feed, before);
      }
    }
  }

  /** The last listing of a duplicate-free feed may be added to any of the earlier ones. */
  lemma OtherKeys(feed: seq<Listing>, before: seq<Listing>)
    requires feed != [] && DuplicateFree(feed) && DuplicateFree(before)
    requires forall l :: l in before ==> l in feed[..|feed| - 1]
    ensures DuplicateFree(before + [feed[|feed| - 1]])
  {
    var n := |feed| - 1;
    var now := before + [feed[n]];
    forall i, j | 0 <= i < j < |now| ensures ListingKey(now[i]) != ListingKey(now[j]) {
      assert now[i] == before[i] && before[i] in before;
      var k :| 0 <= k < n && feed[..n][k] == before[i];
      assert feed[k] == before[i];
      assert j < |before| ==> now[j] == before[j];
    }
  }

  // ---------- applying it ----------

  function NewRow(l: Listing, section: string): Row {
    Row(l.asset, l.quote, section, l.interval, false)
  }

  /** The insert loop, read from its end. */
  function InsertRows(rows: Rows, section: string, added: seq<Listing>, newIds: seq<Id>): Rows
    requires |added| <= |newIds|
  {
    if added == [] then rows else
      var n := |added| - 1;
      InsertRows(rows, section, added[..n], newIds)[newIds[n] := NewRow(added[n], section)]
  }

  function Updated(id: Id, r: Row, plan: Plan): Row {
    r.(deprecated := if id in plan.reactivated then false else if id in plan.deprecated then true else r.deprecated,
       interval := if id in plan.intervals then plan.intervals[id] else r.interval)
  }

  function Applied(rows: Rows, section: string, plan: Plan, newIds: seq<Id>): Rows
    requires |plan.added| <= |newIds|
  {
    var inserted := InsertRows(rows, section, plan.added, newIds);
    map id | id in inserted :: Updated(id, inserted[id], plan)
  }

  /** Ids the database has never used. */
  ghost predicate NewIds(rows: Rows, newIds: seq<Id>, n: nat) {
    && n <= |newIds|
    && (forall i :: 0 <= i < n ==> newIds[i] !in rows)
    && (forall i, j :: 0 <= i < j < n ==> newIds[i] != newIds[j])
  }

  lemma {:induction false} InsertRowsMeaning(rows: Rows, section: string, added: seq<Listing>, newIds: seq<Id>)
    requires NewIds(rows, newIds, |added|)
    ensures var after := InsertRows(rows, section, added, newIds);
      && (forall id :: id in rows ==> id in after && after[id] == rows[id])
      && (forall i :: 0 <= i < |added| ==> newIds[i] in after && after[newIds[i]] == NewRow(added[i], section))
      && (forall id :: id in after && id !in rows ==> exists i :: 0 <= i < |added| && id == newIds[i])
  {
    if added != [] {
      InsertRowsMeaning(rows, section, added[..|added| - 1], newIds);
    }
  }

  class ContractTable {
    var rows: Rows

    constructor ()
      ensures rows == map[]
    {
      rows := map[];
    }

    method InsertAdded(section: string, added: seq<Listing>, newIds: seq<Id>)
      requires |added| <= |newIds|
      modifies this
      ensures rows == InsertRows(old(rows), section, added, newIds) && old(rows).Keys <= rows.Keys
    {
      for i := 0 to |added|
        invariant rows == InsertRows(old(rows), section, added[..i], newIds) && old(rows).Keys <= rows.Keys
      {
        assert added[..i + 1][..i] == added[..i];
        rows := rows[newIds[i] := NewRow(added[i], section)];
      }
      assert added[..|added|] == added;
    }

    method SetDeprecated(ids: set<Id>, deprecated: bool)
      requires ids <= rows.Keys
      modifies this
      ensures rows.Keys == old(rows).Keys
      ensures forall id :: id in rows ==>
                rows[id] == if id in ids then old(rows)[id].(deprecated := deprecated) else old(rows)[id]
    {
      var rest := ids;
      while rest != {}
        invariant rest <= ids && rows.Keys == old(rows).Keys
        invariant forall id :: id in rows ==>
                    rows[id] == if id in ids - rest then old(rows)[id].(deprecated := deprecated) else old(rows)[id]
        decreases |rest|
      {
        var id :| id in rest;
        rows := rows[id := rows[id].(deprecated := deprecated)];
        rest := rest - {id};
      }
    }

    method SetIntervals(intervals: map<Id, int>)
      requires intervals.Keys <= rows.Keys
      modifies this
      ensures rows.Keys == old(rows).Keys
      ensures forall id :: id in rows ==>
                rows[id] == if id in intervals then old(rows)[id].(interval := intervals[id]) else old(rows)[id]
    {
      var rest := intervals.Keys;
      while rest != {}
        invariant rest <= intervals.Keys && rows.Keys == old(rows).Keys
        invariant forall id :: id in rows ==>
                    rows[id] == if id in intervals.Keys - rest then old(rows)[id].(interval := intervals[id])
                                else old(rows)[id]
        decreases |rest|
      {
        var id :| id in rest;
        rows := rows[id := rows[id].(interval := intervals[id])];
        rest := rest - {id};
      }
    }

    method ApplyPlan(section: string, plan: Plan, newIds: seq<Id>)
      requires |plan.added| <= |newIds|
      requires plan.deprecated <= rows.Keys && plan.reactivated <= rows.Keys && plan.intervals.Keys <= rows.Keys
      modifies this
      ensures rows == Applied(old(rows), section, plan, newIds)
    {
      InsertAdded(section, plan.added, newIds);
      SetDeprecated(plan.deprecated, true);
      SetDeprecated(plan.reactivated, false);
      SetIntervals(plan.intervals);
      assert rows.Keys == Applied(old(rows), section, plan, newIds).Keys;
    }

    /** One registry run up to its commit; the answer says whether the view refresher must be signalled. */
    method RegisterContracts(section: string, feed: seq<Listing>, newIds: seq<Id>)
      returns (result: Result<bool, RegistryError>)
      requires |feed| <= |newIds|
      modifies this
      ensures result.Err? <==> !DuplicateFree(feed)
      ensures result.Err? || feed == [] ==> rows == old(rows)
      ensures result.Err? ==> Repeats(feed, result.error.key)
      ensures result.Ok? && feed != [] ==>
                var plan := Reconcile(old(rows), section, feed);
                && |plan.added| <= |newIds|
                && rows == Applied(old(rows), section, plan, newIds)
                && result.value == plan.HasChanges()
      ensures result.Ok? && feed == [] ==> !result.value
    {
      if feed == [] {
        return Ok(false);
      }
      var byKey := FeedByKey(feed);
      if byKey.Err? {
        return Err(byKey.error);
      }
      var plan := Reconcile(rows, section, feed);
      AddedMeaning(rows, section, feed);
      ApplyPlan(section, plan, newIds);
      result := Ok(plan.HasChanges());
    }
  }

  // ---------- the fixed point ----------

  /** What the table publishes for a section: the keys and intervals of its active contracts. */
  ghost function ActiveListings(rows: Rows, section: string): set<Listing> {
    set id | id in rows && InSection(rows, id, section) && !rows[id].deprecated ::
      Listing(rows[id].asset, rows[id].quote, rows[id].interval)
  }

  ghost function Run(rows: Rows, section: string, feed: seq<Listing>, newIds: seq<Id>): Rows
    requires |Reconcile(rows, section, feed).added| <= |newIds|
  {
    Applied(rows, section, Reconcile(rows, section, feed), newIds)
  }

  ghost predicate Ready(rows: Rows, section: string, feed: seq<Listing>, newIds: seq<Id>) {
    Unique(rows) && DuplicateFree(feed) && NewIds(rows, newIds, |Reconcile(rows, section, feed).added|)
  }

  /** No row is lost, ids and identities stay, and a kept row of the section follows the feed. */
  ghost predicate KeepsRows(rows: Rows, after: Rows, section: string, byKey: Feed) {
    && rows.Keys <= after.Keys
    && (forall id :: id in rows && rows[id].section != section ==> after[id] == rows[id])
    && (forall id :: id in rows && InSection(rows, id, section) && KeyOf(rows[id]) !in byKey ==>
          after[id] == rows[id].(deprecated := true))
    && (forall id :: id in rows && InSection(rows, id, section) && KeyOf(rows[id]) in byKey ==>
          after[id] == rows[id].(deprecated := false, interval := byKey[KeyOf(rows[id])].interval))
  }

  ghost predicate IsAdded(rows: Rows, section: string, feed: seq<Listing>, l: Listing) {
    l in feed && !HasKey(rows, section, ListingKey(l))
  }

  /** The new rows are the listings without a row, one each. */
  ghost predicate AddsRows(rows: Rows, after: Rows, section: string, feed: seq<Listing>) {
    && (forall id :: id in after && id !in rows ==>
          exists l :: IsAdded(rows, section, feed, l) && after[id] == NewRow(l, section))
    && (forall l :: IsAdded(rows, section, feed, l) ==>
          exists id :: id in after && id !in rows && after[id] == NewRow(l, section))
    && (forall a, b :: a in after && b in after && a !in rows && b !in rows && after[a] == after[b] ==> a == b)
  }

  ghost predicate PlanWithin(plan: Plan, rows: Rows) {
    plan.deprecated <= rows.Keys && plan.reactivated <= rows.Keys && plan.intervals.Keys <= rows.Keys
  }

  lemma AppliedMeaning(rows: Rows, section: string, plan: Plan, newIds: seq<Id>)
    requires NewIds(rows, newIds, |plan.added|) && PlanWithin(plan, rows)
    ensures var after := Applied(rows, section, plan, newIds);
      && (forall id :: id in rows ==> id in after && after[id] == Updated(id, rows[id], plan))
      && (forall i :: 0 <= i < |plan.added| ==>
          newIds[i] in after && after[newIds[i]] == NewRow(plan.added[i], section))
      && (forall id :: id in after && id !in rows ==> exists i :: 0 <= i < |plan.added| && id == newIds[i])
  {
    InsertRowsMeaning(rows, section, plan.added, newIds);
  }

  lemma UpdatedMeaning(rows: Rows, section: string, feed: seq<Listing>, id: Id, plan: Plan)
    requires id in rows && plan == Reconcile(rows, section, feed)
    ensures rows[id].section != section ==> Updated(id, rows[id], plan) == rows[id]
    ensures rows[id].section == section && KeyOf(rows[id]) !in FeedMap(feed) ==>
              Updated(id, rows[id], plan) == rows[id].(deprecated := true)
    ensures rows[id].section == section && KeyOf(rows[id]) in FeedMap(feed) ==>
              Updated(id, rows[id], plan)
              == rows[id].(deprecated := false, interval := FeedMap(feed)[KeyOf(rows[id])].interval)
  {
  }

  /** How one run treats every row. */
  lemma RunRows(rows: Rows, section: string, feed: seq<Listing>, newIds: seq<Id>)
    requires Ready(rows, section, feed, newIds)
    ensures KeepsRows(rows, Run(rows, section, feed, newIds), section, FeedMap(feed))
    ensures AddsRows(rows, Run(rows, section, feed, newIds), section, feed)
  {
    var plan := Reconcile(rows, section, feed);
    AppliedMeaning(rows, section, plan, newIds);
    forall id | id in rows
      ensures rows[id].section != section ==> Updated(id, rows[id], plan) == rows[id]
      ensures rows[id].section == section && KeyOf(rows[id]) !in FeedMap(feed) ==>
                Updated(id, rows[id], plan) == rows[id].(deprecated := true)
      ensures rows[id].section == section && KeyOf(rows[id]) in FeedMap(feed) ==>
                Updated(id, rows[id], plan)
                == rows[id].(deprecated := false, interval := FeedMap(feed)[KeyOf(rows[id])].interval)
    {
      UpdatedMeaning(rows, section, feed, id, plan);
    }
    AppliedAdds(rows, Run(rows, section, feed, newIds), section, feed, plan.added, newIds);
  }

  lemma AppliedAdds(rows: Rows, after: Rows, section: string, feed: seq<Listing>, added: seq<Listing>, newIds: seq<Id>)
    requires DuplicateFree(feed) && added == Added(rows, section, feed) && NewIds(rows, newIds, |added|)
    requires forall i :: 0 <= i < |added| ==> newIds[i] in after && after[newIds[i]] == NewRow(added[i], section)
    requires forall id :: id in after && id !in rows ==> exists i :: 0 <= i < |added| && id == newIds[i]
    ensures AddsRows(rows, after, section, feed)
  {
    AddedMeaning(rows, section, feed);
    forall id | id in after && id !in rows
      ensures exists l :: IsAdded(rows, section, feed, l) && after[id] == NewRow(l, section)
    {
      var i :| 0 <= i < |added| && id == newIds[i];
      assert added[i] in added && IsAdded(rows, section, feed, added[i]);
    }
    forall l | IsAdded(rows, section, feed, l)
      ensures exists id :: id in after && id !in rows && after[id] == NewRow(l, section)
    {
      AddedRowExists(rows, after, section, added, newIds, l);
    }
    AddedRowsDiffer(rows, after, section, added, newIds);
  }

  lemma AddedRowExists(rows: Rows, after: Rows, section: string, added: seq<Listing>, newIds: seq<Id>, l: Listing)
    requires NewIds(rows, newIds, |added|) && l in added
    requires forall i :: 0 <= i < |added| ==> newIds[i] in after && after[newIds[i]] == NewRow(added[i], section)
    ensures exists id :: id in after && id !in rows && after[id] == NewRow(l, section)
  {
    var i :| 0 <= i < |added| && added[i] == l;
    assert newIds[i] in after;
  }

  lemma AddedRowsDiffer(rows: Rows, after: Rows, section: string, added: seq<Listing>, newIds: seq<Id>)
    requires DuplicateFree(added) && |added| <= |newIds|
    requires forall i :: 0 <= i < |added| ==> newIds[i] in after && after[newIds[i]] == NewRow(added[i], section)
    requires forall id :: id in after && id !in rows ==> exists i :: 0 <= i < |added| && id == newIds[i]
    ensures forall a, b :: a in after && b in after && a !in rows && b !in rows && after[a] == after[b] ==> a == b
  {
    forall a, b | a in after && b in after && a !in rows && b !in rows && after[a] == after[b] ensures a == b {
      var i :| 0 <= i < |added| && a == newIds[i];
      var j :| 0 <= j < |added| && b == newIds[j];
      assert ListingKey(added[i]) == ListingKey(added[j]);
    }
  }

  /** The run keeps the unique constraint. */
  lemma RunKeepsUnique(rows: Rows, section: string, feed: seq<Listing>, newIds: seq<Id>)
    requires Ready(rows, section, feed, newIds)
    ensures Unique(Run(rows, section, feed, newIds))
  {
    var after := Run(rows, section, feed, newIds);
    RunRows(rows, section, feed, newIds);
    forall a, b | a in after && b in after && after[a].section == after[b].section && KeyOf(after[a]) == KeyOf(after[b])
      ensures a == b
    {
      if a in rows && b in rows {
        KeptIdentity(rows, after, section, FeedMap(feed), a);
        KeptIdentity(rows, after, section, FeedMap(feed), b);
      } else if a in rows || b in rows {
        var kept, added := if a in rows then a else b, if a in rows then b else a;
        KeptIdentity(rows, after, section, FeedMap(feed), kept);
        AddedIdentity(rows, after, section, feed, added, kept);
      } else {
        NewRowsDiffer(rows, after, section, feed, a, b);
      }
    }
  }

  lemma KeptIdentity(rows: Rows, after: Rows, section: string, byKey: Feed, id: Id)
    requires KeepsRows(rows, after, section, byKey) && id in rows
    ensures id in after && KeyOf(after[id]) == KeyOf(rows[id]) && after[id].section == rows[id].section
  {
    assert rows[id].section == section ==> InSection(rows, id, section);
  }

  /** A new row's identity was free before. */
  lemma AddedIdentity(rows: Rows, after: Rows, section: string, feed: seq<Listing>, id: Id, kept: Id)
    requires AddsRows(rows, after, section, feed) && id in after && id !in rows && kept in rows
    ensures after[id].section != rows[kept].section || KeyOf(after[id]) != KeyOf(rows[kept])
  {
    var l :| IsAdded(rows, section, feed, l) && after[id] == NewRow(l, section);
    assert InSection(rows, kept, section) ==> KeyOf(rows[kept]) != ListingKey(l);
  }

  lemma NewRowsDiffer(rows: Rows, after: Rows, section: string, feed: seq<Listing>, a: Id, b: Id)
    requires AddsRows(rows, after, section, feed) && DuplicateFree(feed)
    requires a in after && b in after && a !in rows && b !in rows && KeyOf(after[a]) == KeyOf(after[b])
    ensures a == b
  {
    var l :| IsAdded(rows, section, feed, l) && after[a] == NewRow(l, section);
    var m :| IsAdded(rows, section, feed, m) && after[b] == NewRow(m, section);
    FeedMapFinds(feed, l);
    FeedMapFinds(feed, m);
  }

  /** After one run the active contracts of the section are exactly the feed. */
  lemma RunPublishesFeed(rows: Rows, section: string, feed: seq<Listing>, newIds: seq<Id>)
    requires Ready(rows, section, feed, newIds)
    ensures ActiveListings(Run(rows, section, feed, newIds), section) == set l | l in feed
  {
    RunRows(rows, section, feed, newIds);
    PublishesFeed(rows, Run(rows, section, feed, newIds), section, feed);
  }

  lemma PublishesFeed(rows: Rows, after: Rows, section: string, feed: seq<Listing>)
    requires KeepsRows(rows, after, section, FeedMap(feed)) && AddsRows(rows, after, section, feed) &&
        DuplicateFree(feed)
    ensures ActiveListings(after, section) == set l | l in feed
  {
    FeedMapMeaning(feed);
    forall l | l in feed ensures l in ActiveListings(after, section) {
      FeedMapFinds(feed, l);
      FeedHasRows(rows, after, section, feed, l);
      var id :| id in after && InSection(after, id, section) && KeyOf(after[id]) == ListingKey(l);
      RowsFollowFeed(rows, after, section, feed, id);
    }
    forall x | x in ActiveListings(after, section) ensures x in feed {
      var id :| id in after && InSection(after, id, section) && !after[id].deprecated
                && x == Listing(after[id].asset, after[id].quote, after[id].interval);
      RowsFollowFeed(rows, after, section, feed, id);
      assert x == FeedMap(feed)[KeyOf(after[id])];
    }
  }

  lemma FeedHasRows(rows: Rows, after: Rows, section: string, feed: seq<Listing>, l: Listing)
    requires KeepsRows(rows, after, section, FeedMap(feed)) && AddsRows(rows, after, section, feed) && l in feed
    ensures HasKey(after, section, ListingKey(l))
  {
    if HasKey(rows, section, ListingKey(l)) {
      var id :| id in rows && InSection(rows, id, section) && KeyOf(rows[id]) == ListingKey(l);
      FeedMapMeaning(feed);
      assert InSection(after, id, section) && KeyOf(after[id]) == ListingKey(l);
    } else {
      assert IsAdded(rows, section, feed, l);
      var id :| id in after && id !in rows && after[id] == NewRow(l, section);
      assert InSection(after, id, section) && KeyOf(after[id]) == ListingKey(l);
    }
  }

  lemma RowsFollowFeed(rows: Rows, after: Rows, section: string, feed: seq<Listing>, id: Id)
    requires KeepsRows(rows, after, section, FeedMap(feed)) && AddsRows(rows, after, section, feed)
    requires DuplicateFree(feed) && InSection(after, id, section)
    ensures KeyOf(after[id]) in FeedMap(feed) <==> !after[id].deprecated
    ensures KeyOf(after[id]) in FeedMap(feed) ==> after[id].interval == FeedMap(feed)[KeyOf(after[id])].interval
  {
    if id !in rows {
      var l :| IsAdded(rows, section, feed, l) && after[id] == NewRow(l, section);
      FeedMapFinds(feed, l);
    }
  }

  /** Running again with the same feed plans nothing. */
  lemma RunReachesFixedPoint(rows: Rows, section: string, feed: seq<Listing>, newIds: seq<Id>)
    requires Ready(rows, section, feed, newIds)
    ensures !Reconcile(Run(rows, section, feed, newIds), section, feed).HasChanges()
  {
    var after := Run(rows, section, feed, newIds);
    RunRows(rows, section, feed, newIds);
    NothingToPlan(rows, after, section, feed);
  }

  lemma {:induction false} NothingAdded(rows: Rows, section: string, feed: seq<Listing>)
    requires forall l :: l in feed ==> HasKey(rows, section, ListingKey(l))
    ensures Added(rows, section, feed) == []
  {
    if feed != [] {
      NothingAdded(rows, section, feed[..|feed| - 1]);
      assert feed[|feed| - 1] in feed;
    }
  }

  lemma NothingToPlan(rows: Rows, after: Rows, section: string, feed: seq<Listing>)
    requires KeepsRows(rows, after, section, FeedMap(feed)) && AddsRows(rows, after, section, feed) &&
        DuplicateFree(feed)
    ensures !Reconcile(after, section, feed).HasChanges()
  {
    var again := Reconcile(after, section, feed);
    forall l | l in feed ensures HasKey(after, section, ListingKey(l)) {
      FeedHasRows(rows, after, section, feed, l);
    }
    NothingAdded(after, section, feed);
    forall id | InSection(after, id, section)
      ensures KeyOf(after[id]) in FeedMap(feed) <==> !after[id].deprecated
      ensures KeyOf(after[id]) in FeedMap(feed) ==> after[id].interval == FeedMap(feed)[KeyOf(after[id])].interval
    {
      RowsFollowFeed(rows, after, section, feed, id);
    }
    assert again.deprecated == {} && again.reactivated == {} && again.intervals == map[];
  }

  // ---------- the projection behind the materialized view ----------

  /** The rows of `contract_enriched`: the contracts that are not deprecated. */
  function Projection(rows: Rows): Rows {
    map id | id in rows && !rows[id].deprecated :: rows[id]
  }

  /** A plan reports changes exactly when applying it changes the projection. */
  lemma HasChangesIffProjectionChanges(rows: Rows, section: string, feed: seq<Listing>, newIds: seq<Id>)
    requires Ready(rows, section, feed, newIds)
    ensures Reconcile(rows, section, feed).HasChanges()
            <==> Projection(Run(rows, section, feed, newIds)) != Projection(rows)
  {
    var plan := Reconcile(rows, section, feed);
    var after := Run(rows, section, feed, newIds);
    RunRows(rows, section, feed, newIds);
    if !plan.HasChanges() {
      EmptyPlanKeepsRows(rows, section, plan, newIds);
    } else if plan.added != [] {
      AddedRowShows(rows, after, section, feed);
    } else {
      ChangedRowShows(rows, after, section, feed);
    }
  }

  lemma EmptyPlanKeepsRows(rows: Rows, section: string, plan: Plan, newIds: seq<Id>)
    requires !plan.HasChanges()
    ensures Applied(rows, section, plan, newIds) == rows
  {
    assert InsertRows(rows, section, plan.added, newIds) == rows;
    assert forall id :: id in rows ==> Updated(id, rows[id], plan) == rows[id];
  }

  lemma AddedRowShows(rows: Rows, after: Rows, section: string, feed: seq<Listing>)
    requires AddsRows(rows, after, section, feed) && Added(rows, section, feed) != []
    ensures Projection(after) != Projection(rows)
  {
    var l := Added(rows, section, feed)[0];
    AddedMeaning(rows, section, feed);
    assert l in Added(rows, section, feed) && IsAdded(rows, section, feed, l);
    var id :| id in after && id !in rows && after[id] == NewRow(l, section);
    assert id in Projection(after) && id !in Projection(rows);
  }

  lemma ChangedRowShows(rows: Rows, after: Rows, section: string, feed: seq<Listing>)
    requires KeepsRows(rows, after, section, FeedMap(feed))
    requires var plan := Reconcile(rows, section, feed);
      plan.deprecated != {} || plan.reactivated != {} || plan.intervals != map[]
    ensures Projection(after) != Projection(rows)
  {
    var plan := Reconcile(rows, section, feed);
    var before, now := Projection(rows), Projection(after);
    if plan.deprecated != {} {
      var id :| id in plan.deprecated;
      assert id in before && id !in now;
    } else if plan.reactivated != {} {
      var id :| id in plan.reactivated;
      assert id in now && id !in before;
    } else {
      assert (forall id :: id !in plan.intervals) ==> plan.intervals == map[];
      var id :| id in plan.intervals;
      assert id in now && (id in before ==> now[id] != before[id]);
    }
  }

  /** The listing `l` as a row of the view. */
  ghost predicate ShowsListing(view: Rows, id: Id, l: Listing, section: string) {
    id in view && view[id] == Row(l.asset, l.quote, section, l.interval, false)
  }

  lemma ActiveIsShown(after: Rows, section: string, l: Listing)
    ensures l in ActiveListings(after, section) <==> exists id :: ShowsListing(Projection(after), id, l, section)
  {
    if l in ActiveListings(after, section) {
      var id :| id in after && InSection(after, id, section) && !after[id].deprecated
                && l == Listing(after[id].asset, after[id].quote, after[id].interval);
      assert ShowsListing(Projection(after), id, l, section);
    }
    if id :| ShowsListing(Projection(after), id, l, section) {
      assert InSection(after, id, section) && !after[id].deprecated;
    }
  }

  lemma OtherSectionsShown(rows: Rows, after: Rows, section: string, feed: seq<Listing>, byKey: Feed, id: Id)
    requires KeepsRows(rows, after, section, byKey) && AddsRows(rows, after, section, feed)
    ensures (id in Projection(after) && after[id].section != section) <==>
            (id in rows && rows[id].section != section && !rows[id].deprecated)
    ensures id in Projection(after) && after[id].section != section ==> id in rows && Projection(after)[id] == rows[id]
  {
    if id in rows {
      KeptIdentity(rows, after, section, byKey, id);
    }
  }

  /**
   What one run leaves in the view, row by row: exactly the listings of the feed in its section, and in every other
   section the contracts that were not deprecated, unchanged.
   */
  lemma RunProjectsFeed(rows: Rows, section: string, feed: seq<Listing>, newIds: seq<Id>)
    requires Ready(rows, section, feed, newIds)
    ensures var view := Projection(Run(rows, section, feed, newIds));
      && (forall l :: l in feed <==> exists id :: ShowsListing(view, id, l, section))
      && (forall id :: id in view && view[id].section == section ==>
            Listing(view[id].asset, view[id].quote, view[id].interval) in feed)
      && (forall id :: id in view && view[id].section != section <==>
            id in rows && rows[id].section != section && !rows[id].deprecated)
      && (forall id :: id in view && view[id].section != section ==> id in rows && view[id] == rows[id])
  {
    var after := Run(rows, section, feed, newIds);
    RunRows(rows, section, feed, newIds);
    RunPublishesFeed(rows, section, feed, newIds);
    ViewOfFeed(rows, after, section, feed);
  }

  lemma ViewOfFeed(rows: Rows, after: Rows, section: string, feed: seq<Listing>)
    requires KeepsRows(rows, after, section, FeedMap(feed)) && AddsRows(rows, after, section, feed)
    requires ActiveListings(after, section) == set l | l in feed
    ensures var view := Projection(after);
      && (forall l :: l in feed <==> exists id :: ShowsListing(view, id, l, section))
      && (forall id :: id in view && view[id].section == section ==>
            Listing(view[id].asset, view[id].quote, view[id].interval) in feed)
      && (forall id :: id in view && view[id].section != section <==>
            id in rows && rows[id].section != section && !rows[id].deprecated)
      && (forall id :: id in view && view[id].section != section ==> id in rows && view[id] == rows[id])
  {
    var view := Projection(after);
    forall l ensures l in feed <==> exists id :: ShowsListing(view, id, l, section) {
      ActiveIsShown(after, section, l);
      assert l in feed <==> l in ActiveListings(after, section);
    }
    forall id | id in view && view[id].section == section
      ensures Listing(view[id].asset, view[id].quote, view[id].interval) in feed
    {
      assert ShowsListing(view, id, Listing(view[id].asset, view[id].quote, view[id].interval), section);
    }
    forall id
      ensures (id in view && view[id].section != section) <==>
              (id in rows && rows[id].section != section && !rows[id].deprecated)
      ensures id in view && view[id].section != section ==> id in rows && view[id] == rows[id]
    {
      OtherSectionsShown(rows, after, section, feed, FeedMap(feed), id);
    }
  }

  /** One run on every row of its section: in the feed it is active with the feed's interval, else deprecated. */
  lemma RunRow(rows: Rows, section: string, feed: seq<Listing>, newIds: seq<Id>, id: Id)
    requires Ready(rows, section, feed, newIds) && id in rows
    ensures var after := Run(rows, section, feed, newIds);
      id in after && (rows[id].section != section ==> after[id] == rows[id])
    ensures rows[id].section == section ==>
              forall l :: l in feed && l.asset == rows[id].asset && l.quote == rows[id].quote ==>
                Run(rows, section, feed, newIds)[id] == rows[id].(deprecated := false, interval := l.interval)
    ensures rows[id].section == section && (forall l :: l in feed ==> ListingKey(l) != KeyOf(rows[id])) ==>
              Run(rows, section, feed, newIds)[id] == rows[id].(deprecated := true)
  {
    RunRows(rows, section, feed, newIds);
    FeedMapMeaning(feed);
    assert rows[id].section == section ==> InSection(rows, id, section);
    forall l | l in feed && l.asset == rows[id].asset && l.quote == rows[id].quote
      ensures KeyOf(rows[id]) in FeedMap(feed) && FeedMap(feed)[KeyOf(rows[id])] == l
    {
      FeedMapFinds(feed, l);
    }
  }

  /** Keys repeat in the feed exactly when two listings share asset and quote. */
  lemma FeedRepeats(feed: seq<Listing>)
    ensures DuplicateFree(feed) <==>
            forall i, j :: 0 <= i < j < |feed| ==> feed[i].asset != feed[j].asset || feed[i].quote != feed[j].quote
  {
    forall i, j | 0 <= i < j < |feed|
      ensures ListingKey(feed[i]) == ListingKey(feed[j]) <==>
              feed[i].asset == feed[j].asset && feed[i].quote == feed[j].quote
    {
    }
  }
}
