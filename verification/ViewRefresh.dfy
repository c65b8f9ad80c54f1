/**
 The debounced refresh of the materialized view over the contract table.

 A check that starts a refresh waits for the database: other tasks run between its start, the moment the
 database takes its snapshot, and the reset of the pending flag. Instants are whole milliseconds.
 */
module ViewRefresh {
  import opened Prelude
  import opened Registry

  class MaterializedViewRefresher {
    const debounce: nat
    var lastSignal: Option<int>
    var pending: bool

    constructor (debounce: nat)
      ensures this.debounce == debounce && lastSignal == None && !pending
    {
      this.debounce := debounce;
      lastSignal := None;
      pending := false;
    }

    method SignalContractsChanged(now: int)
      modifies this
      ensures pending && lastSignal == Some(now)
    {
      lastSignal := Some(now);
      pending := true;
    }

    /** One check without interference; `refreshed` is whether the refresh transaction succeeds. */
    method CheckAndRefreshIfNeeded(now: int, refreshed: bool) returns (attempted: bool)
      modifies this
      ensures attempted <==> old(pending && lastSignal.Some? && now - lastSignal.value >= debounce)
      ensures forall s: System :: IsIn(s, now, old(pending), old(lastSignal)) ==>
                (attempted <==> Enabled(s, StartRefresh, debounce))
      ensures if attempted && refreshed then !pending && lastSignal == None
              else pending == old(pending) && lastSignal == old(lastSignal)
    {
      if !pending || lastSignal.None? {
        return false;
      }
      var sinceLastSignal := now - lastSignal.value;
      attempted := sinceLastSignal >= debounce;
      if attempted && refreshed {
        pending := false;
        lastSignal := None;
      }
    }
  }

  // ---------- registry runs, signals and refreshes as one system ----------

  /** The rows of a snapshot become the view only when the refresh transaction commits. */
  datatype Refresh = Idle | Started | SnapshotTaken(snapshot: Rows)

  /** `unsignalled` counts the registry runs between the commit of a change and its signal. */
  datatype System = System(
    rows: Rows, view: Rows, now: int, lastSignal: Option<int>, pending: bool, refresh: Refresh, unsignalled: nat)

  /** No refresh is running in `s`, and its refresher has these fields at `now`. */
  predicate IsIn(s: System, now: int, pending: bool, lastSignal: Option<int>) {
    s.refresh.Idle? && s.now == now && s.pending == pending && s.lastSignal == lastSignal
  }

  datatype Step =
    | Advance(now: int)
    | Commit(section: string, feed: seq<Listing>, newIds: seq<Id>)
    | Signal
    | StartRefresh
    | Snapshot
    | FinishRefresh
    | FailRefresh

  ghost predicate Enabled(s: System, step: Step, debounce: nat) {
    match step
    case Advance(now) => s.now <= now
    case Commit(section, feed, newIds) => feed != [] && Ready(s.rows, section, feed, newIds)
    case Signal => s.unsignalled > 0
    case StartRefresh => s.refresh.Idle? && s.pending && s.lastSignal.Some? && s.now - s.lastSignal.value >= debounce
    case Snapshot => s.refresh.Started?
    case FinishRefresh => s.refresh.SnapshotTaken?
    case FailRefresh => !s.refresh.Idle?
  }

  ghost function Next(s: System, step: Step, debounce: nat): System
    requires Enabled(s, step, debounce)
  {
    match step
    case Advance(now) => s.(now := now)
    case Commit(section, feed, newIds) =>
      s.(rows := Run(s.rows, section, feed, newIds),
         unsignalled := s.unsignalled + if Reconcile(s.rows, section, feed).HasChanges() then 1 else 0)
    case Signal => s.(unsignalled := s.unsignalled - 1, pending := true, lastSignal := Some(s.now))
    case StartRefresh => s.(refresh := Started)
    case Snapshot => s.(refresh := SnapshotTaken(Projection(s.rows)))
    case FinishRefresh => s.(view := s.refresh.snapshot, pending := false, lastSignal := None, refresh := Idle)
    case FailRefresh => s.(refresh := Idle)
  }

  /**
   The refresher's methods are steps of the system: a signal is one, an undisturbed check three, or two when the
   refresh fails. The check starts under the guard of `CheckAndRefreshIfNeeded` and leaves the signal as it does.
   */
  lemma MethodsAreSteps(s: System, debounce: nat)
    requires s.refresh.Idle?
    ensures s.unsignalled > 0 ==>
              && Enabled(s, Signal, debounce)
              && Next(s, Signal, debounce)
                 == s.(unsignalled := s.unsignalled - 1, pending := true, lastSignal := Some(s.now))
    ensures Enabled(s, StartRefresh, debounce) <==>
            s.pending && s.lastSignal.Some? && s.now - s.lastSignal.value >= debounce
    ensures Enabled(s, StartRefresh, debounce) ==>
              var started := Next(s, StartRefresh, debounce);
              && Enabled(started, Snapshot, debounce) && Enabled(started, FailRefresh, debounce)
              && Next(started, FailRefresh, debounce) == s
              && var taken := Next(started, Snapshot, debounce);
                 && Enabled(taken, FinishRefresh, debounce)
                 && Next(taken, FinishRefresh, debounce)
                    == s.(view := map id | id in s.rows && !s.rows[id].deprecated :: s.rows[id],
                          pending := false, lastSignal := None)
  {
  }

  ghost predicate IsRun(run: seq<System>, steps: seq<Step>, debounce: nat) {
    && |run| == |steps| + 1
    && Agrees(run[0]) && !run[0].pending && run[0].unsignalled == 0 && run[0].refresh.Idle?
    && forall i :: 0 <= i < |steps| ==>
        Enabled(run[i], steps[i], debounce) && run[i + 1] == Next(run[i], steps[i], debounce)
  }

  ghost predicate Agrees(s: System) {
    s.view == Projection(s.rows)
  }

  /** No signal arrives between the snapshot of a refresh and its end. */
  ghost predicate Undisturbed(run: seq<System>, steps: seq<Step>) {
    |run| == |steps| + 1 && forall i :: 0 <= i < |steps| && steps[i].Signal? ==> !run[i].refresh.SnapshotTaken?
  }

  /** Without an announced change the view is current, and so is a snapshot that is about to become the view. */
  ghost predicate Inv(s: System) {
    && (s.unsignalled == 0 && !s.pending ==> Agrees(s))
    && (s.unsignalled == 0 && s.refresh.SnapshotTaken? ==> s.refresh.snapshot == Projection(s.rows))
    && (!s.refresh.Idle? ==> s.pending)
  }

  lemma StepKeepsInv(s: System, step: Step, debounce: nat)
    requires Inv(s) && Enabled(s, step, debounce)
    requires step.Signal? ==> !s.refresh.SnapshotTaken?
    ensures Inv(Next(s, step, debounce))
  {
    if step.Commit? {
      HasChangesIffProjectionChanges(s.rows, step.section, step.feed, step.newIds);
    }
  }

  /**
   Whenever no refresh is pending and no registry run is between commit and signal, the view equals the
   projection of the non-deprecated contracts.
   */
  lemma {:induction false} ViewAgreement(run: seq<System>, steps: seq<Step>, debounce: nat, i: nat)
    requires IsRun(run, steps, debounce) && Undisturbed(run, steps) && i < |run|
    ensures Inv(run[i])
    ensures !run[i].pending && run[i].unsignalled == 0 ==> Agrees(run[i])
  {
    if i > 0 {
      ViewAgreement(run, steps, debounce, i - 1);
      StepKeepsInv(run[i - 1], steps[i - 1], debounce);
    }
  }

  // ---------- what a finished refresh leaves, in any run ----------

  /** Step `k` is the snapshot of the refresh that is in flight at `i`. */
  ghost predicate IsItsSnapshot(steps: seq<Step>, k: int, i: int) {
    0 <= k < i <= |steps| && steps[k].Snapshot? && forall j :: k < j < i ==> !steps[j].Snapshot?
  }

  lemma SnapshotStep(s: System, step: Step, debounce: nat)
    requires Enabled(s, step, debounce) && Next(s, step, debounce).refresh.SnapshotTaken?
    ensures Next(s, step, debounce).refresh == if step.Snapshot? then SnapshotTaken(Projection(s.rows)) else s.refresh
  {
  }

  lemma CommitStep(s: System, step: Step, debounce: nat)
    requires Enabled(s, step, debounce)
    requires step.Commit? ==> !Reconcile(s.rows, step.section, step.feed).HasChanges()
    ensures Projection(Next(s, step, debounce).rows) == Projection(s.rows)
  {
    if step.Commit? {
      HasChangesIffProjectionChanges(s.rows, step.section, step.feed, step.newIds);
    }
  }

  /** A refresh that has its snapshot holds the projection at that very step. */
  lemma {:induction false} SnapshotOf(run: seq<System>, steps: seq<Step>, debounce: nat, i: nat) returns (k: int)
    requires IsRun(run, steps, debounce) && i < |run| && run[i].refresh.SnapshotTaken?
    ensures IsItsSnapshot(steps, k, i)
    ensures run[i].refresh.snapshot == Projection(run[k].rows)
  {
    SnapshotStep(run[i - 1], steps[i - 1], debounce);
    if steps[i - 1].Snapshot? {
      k := i - 1;
    } else {
      k := SnapshotOf(run, steps, debounce, i - 1);
    }
  }

  /**
   In any run, signals where they may, a finished refresh leaves nothing pending, and the view is current
   exactly when the contracts are those of its snapshot.
   */
  lemma FinishedViewIffUnchanged(run: seq<System>, steps: seq<Step>, debounce: nat, i: nat, k: int)
    requires IsRun(run, steps, debounce) && i < |steps| && steps[i].FinishRefresh? && IsItsSnapshot(steps, k, i)
    ensures !run[i + 1].pending && run[i + 1].unsignalled == run[i].unsignalled
    ensures Agrees(run[i + 1]) <==> Projection(run[i].rows) == Projection(run[k].rows)
  {
    var own := SnapshotOf(run, steps, debounce, i);
    assert own == k;
  }

  /** The registry runs between the snapshot and the end plan nothing that shows. */
  ghost predicate NothingPlanned(run: seq<System>, steps: seq<Step>, k: int, i: int) {
    |run| == |steps| + 1 && 0 <= k <= i <= |steps|
    && forall j :: k <= j < i && steps[j].Commit? ==>
         !Reconcile(run[j].rows, steps[j].section, steps[j].feed).HasChanges()
  }

  lemma NothingPlannedStep(run: seq<System>, steps: seq<Step>, debounce: nat, k: int, i: int)
    requires IsRun(run, steps, debounce) && k < i && NothingPlanned(run, steps, k, i)
    ensures NothingPlanned(run, steps, k, i - 1)
    ensures Projection(run[i].rows) == Projection(run[i - 1].rows)
  {
    var s, step := run[i - 1], steps[i - 1];
    assert Enabled(s, step, debounce) && run[i] == Next(s, step, debounce);
    CommitStep(s, step, debounce);
  }

  lemma {:induction false} NothingPlannedKeepsProjection(
    run: seq<System>, steps: seq<Step>, debounce: nat, k: int, i: int)
    requires IsRun(run, steps, debounce) && NothingPlanned(run, steps, k, i)
    ensures Projection(run[i].rows) == Projection(run[k].rows)
    decreases i - k
  {
    if k < i {
      NothingPlannedStep(run, steps, debounce, k, i);
      NothingPlannedKeepsProjection(run, steps, debounce, k, i - 1);
    }
  }

  /** Without a change between its snapshot and its end a refresh leaves the view current, whatever was signalled. */
  lemma FinishedViewIsCurrent(run: seq<System>, steps: seq<Step>, debounce: nat, i: nat, k: int)
    requires IsRun(run, steps, debounce) && i < |steps| && steps[i].FinishRefresh? && IsItsSnapshot(steps, k, i)
    requires NothingPlanned(run, steps, k, i)
    ensures Agrees(run[i + 1])
  {
    FinishedViewIffUnchanged(run, steps, debounce, i, k);
    NothingPlannedKeepsProjection(run, steps, debounce, k, i);
  }

  /**
   A failed refresh keeps the view and the signal: it is due again once the debounce has elapsed since the last
   one.
   */
  lemma FailureKeepsSignal(run: seq<System>, steps: seq<Step>, debounce: nat, i: nat, later: int)
    requires IsRun(run, steps, debounce) && i < |steps| && steps[i].FailRefresh? && run[i].now <= later
    ensures run[i + 1].view == run[i].view
    ensures run[i + 1].pending && run[i + 1].lastSignal == run[i].lastSignal && run[i].lastSignal.Some?
    ensures Enabled(Next(run[i + 1], Advance(later), debounce), StartRefresh, debounce)
            <==> later - run[i].lastSignal.value >= debounce
  {
    SignalsBefore(run, steps, debounce, i);
  }

  /** When no signal has come since the refresh started, the debounce has elapsed and the next check is due at once. */
  lemma {:induction false} StillDue(run: seq<System>, steps: seq<Step>, debounce: nat, i: nat)
    requires IsRun(run, steps, debounce) && i < |run| && !run[i].refresh.Idle?
    requires forall j :: 0 <= j < i && steps[j].Signal? ==> run[j].refresh.Idle?
    ensures run[i].lastSignal.Some? && run[i].now - run[i].lastSignal.value >= debounce
  {
    if !run[i - 1].refresh.Idle? {
      StillDue(run, steps, debounce, i - 1);
    }
  }

  lemma {:induction false} SignalsBefore(run: seq<System>, steps: seq<Step>, debounce: nat, i: nat)
    requires IsRun(run, steps, debounce) && i < |run|
    ensures run[i].pending ==> run[i].lastSignal.Some?
    ensures !run[i].refresh.Idle? ==> run[i].pending
    ensures forall j :: 0 <= j < i && steps[j].Signal? ==>
              run[j].now <= run[i].now && (run[i].pending ==> run[j].now <= run[i].lastSignal.value)
  {
    if i > 0 {
      SignalsBefore(run, steps, debounce, i - 1);
    }
  }

  /** In every run, disturbed or not, a refresh starts only when the debounce has elapsed since every signal so far. */
  lemma NoRefreshBeforeDebounce(run: seq<System>, steps: seq<Step>, debounce: nat, i: nat, j: nat)
    requires IsRun(run, steps, debounce) && j < i < |steps|
    requires steps[i].StartRefresh? && steps[j].Signal?
    ensures run[i].now - run[j].now >= debounce
  {
    SignalsBefore(run, steps, debounce, i);
  }

  // ---------- a signal that is lost ----------

  /** Two sections that publish their first contract, under ids of their own. */
  datatype Launch = Launch(section: string, listing: Listing, id: Id) {
    ghost function AddedTo(rows: Rows): Rows {
      rows[id := NewRow(listing, section)]
    }

    ghost function Publish(): Step {
      Commit(section, [listing], [id])
    }
  }

  /** The first launch is signalled and its refresh takes its snapshot; the second comes before the end. */
  ghost function LostSignalSteps(first: Launch, second: Launch): seq<Step> {
    [first.Publish(), Signal, StartRefresh, Snapshot, second.Publish(), Signal, FinishRefresh]
  }

  lemma Extend(run: seq<System>, steps: seq<Step>, step: Step, n: System)
    requires IsRun(run, steps, 0) && Enabled(run[|steps|], step, 0) && n == Next(run[|steps|], step, 0)
    ensures IsRun(run + [n], steps + [step], 0)
  {
  }

  lemma ReadyCommit(s: System, section: string, feed: seq<Listing>, newIds: seq<Id>) returns (step: Step)
    requires feed != [] && Ready(s.rows, section, feed, newIds)
    ensures step == Commit(section, feed, newIds) && Enabled(s, step, 0)
  {
    step := Commit(section, feed, newIds);
  }

  lemma ChangeStep(s: System, step: Step) returns (n: System)
    requires step.Commit? && Enabled(s, step, 0) && Reconcile(s.rows, step.section, step.feed).HasChanges()
    ensures n == Next(s, step, 0)
    ensures n == s.(rows := Run(s.rows, step.section, step.feed, step.newIds), unsignalled := s.unsignalled + 1)
  {
    hide Run, Reconcile, Ready, Plan.HasChanges;
    n := Next(s, step, 0);
  }

  lemma LaunchStep(s: System, launch: Launch) returns (step: Step, n: System)
    requires Unique(s.rows) && launch.id !in s.rows
    requires forall k :: k in s.rows ==> s.rows[k].section != launch.section
    ensures step == launch.Publish() && Enabled(s, step, 0) && n == Next(s, step, 0)
    ensures n == s.(rows := launch.AddedTo(s.rows), unsignalled := s.unsignalled + 1)
  {
    FirstListing(s.rows, launch.section, launch.listing, launch.id);
    step := ReadyCommit(s, launch.section, [launch.listing], [launch.id]);
    n := ChangeStep(s, step);
  }

  lemma ExtendByLaunch(run: seq<System>, steps: seq<Step>, launch: Launch) returns (n: System)
    requires IsRun(run, steps, 0)
    requires var rows := run[|steps|].rows;
      Unique(rows) && launch.id !in rows && forall k :: k in rows ==> rows[k].section != launch.section
    ensures var s := run[|steps|]; n == s.(rows := launch.AddedTo(s.rows), unsignalled := s.unsignalled + 1)
    ensures IsRun(run + [n], steps + [launch.Publish()], 0)
  {
    var step;
    step, n := LaunchStep(run[|steps|], launch);
    Extend(run, steps, step, n);
  }

  /** A signalled change is refreshed up to its snapshot. */
  lemma ExtendToSnapshot(run: seq<System>, steps: seq<Step>) returns (signalled: System, started: System, taken: System)
    requires IsRun(run, steps, 0) && run[|steps|].unsignalled == 1 && run[|steps|].refresh.Idle?
    ensures var s := run[|steps|];
      taken == s.(unsignalled := 0, pending := true, lastSignal := Some(s.now),
          refresh := SnapshotTaken(Projection(s.rows)))
    ensures IsRun(run + [signalled] + [started] + [taken], steps + [Signal] + [StartRefresh] + [Snapshot], 0)
  {
    var s := run[|steps|];
    signalled := s.(unsignalled := 0, pending := true, lastSignal := Some(s.now));
    started := signalled.(refresh := Started);
    taken := started.(refresh := SnapshotTaken(Projection(s.rows)));
    Extend(run, steps, Signal, signalled);
    Extend(run + [signalled], steps + [Signal], StartRefresh, started);
    Extend(run + [signalled] + [started], steps + [Signal] + [StartRefresh], Snapshot, taken);
  }

  lemma ExtendToFinish(run: seq<System>, steps: seq<Step>) returns (signalled: System, done: System)
    requires IsRun(run, steps, 0) && run[|steps|].unsignalled == 1 && run[|steps|].refresh.SnapshotTaken?
    ensures var s := run[|steps|];
      done == s.(unsignalled := 0, view := s.refresh.snapshot, pending := false, lastSignal := None, refresh := Idle)
    ensures IsRun(run + [signalled] + [done], steps + [Signal] + [FinishRefresh], 0)
  {
    var s := run[|steps|];
    signalled := s.(unsignalled := 0, pending := true, lastSignal := Some(s.now));
    done := signalled.(view := s.refresh.snapshot, pending := false, lastSignal := None, refresh := Idle);
    Extend(run, steps, Signal, signalled);
    Extend(run + [signalled], steps + [Signal], FinishRefresh, done);
  }

  lemma FirstLaunch(first: Launch) returns (run: seq<System>, steps: seq<Step>)
    ensures steps == [first.Publish()] && IsRun(run, steps, 0)
    ensures run[1] == System(first.AddedTo(map[]), map[], 0, None, false, Idle, 1)
  {
    var s0 := System(map[], map[], 0, None, false, Idle, 0);
    steps := [];
    var s1 := ExtendByLaunch([s0], steps, first);
    run, steps := [s0] + [s1], steps + [first.Publish()];
  }

  lemma UpToSnapshot(first: Launch) returns (run: seq<System>, steps: seq<Step>)
    ensures steps == [first.Publish(), Signal, StartRefresh, Snapshot] && IsRun(run, steps, 0)
    ensures var rows := first.AddedTo(map[]);
      run[4] == System(rows, map[], 0, Some(0), true, SnapshotTaken(Projection(rows)), 0)
  {
    var launched, publish := FirstLaunch(first);
    var s2, s3, s4 := ExtendToSnapshot(launched, publish);
    run, steps := launched + [s2] + [s3] + [s4], publish + [Signal] + [StartRefresh] + [Snapshot];
  }

  /** Such a run ends with nothing pending or unsignalled and with a view that is not current, whatever was launched. */
  lemma LostSignalRun(first: Launch, second: Launch) returns (run: seq<System>)
    requires first.section != second.section && first.id != second.id
    ensures IsRun(run, LostSignalSteps(first, second), 0)
    ensures var last := run[7];
      !last.pending && last.unsignalled == 0 && last.refresh.Idle? && !Agrees(last)
  {
    var begun, steps := UpToSnapshot(first);
    var s5 := ExtendByLaunch(begun, steps, second);
    var s6, s7 := ExtendToFinish(begun + [s5], steps + [second.Publish()]);
    run := begun + [s5] + [s6] + [s7];
    assert steps + [second.Publish()] + [Signal] + [FinishRefresh] == LostSignalSteps(first, second);
    assert second.id in Projection(s7.rows) && second.id !in s7.view;
  }

  lemma AddedSingle(rows: Rows, section: string, l: Listing)
    requires !HasKey(rows, section, ListingKey(l))
    ensures Added(rows, section, [l]) == [l]
  {
    assert [l][..0] == [];
    assert Added(rows, section, [l][..0]) == [];
  }

  lemma NothingElsePlanned(rows: Rows, section: string, l: Listing)
    requires forall k :: k in rows ==> rows[k].section != section
    ensures Reconcile(rows, section, [l]) == Plan([l], {}, {}, map[])
  {
    AddedSingle(rows, section, l);
    assert forall id :: !InSection(rows, id, section);
  }

  lemma OneInserted(rows: Rows, section: string, l: Listing, id: Id)
    ensures InsertRows(rows, section, [l], [id]) == rows[id := NewRow(l, section)]
  {
    assert [l][..0] == [];
    assert InsertRows(rows, section, [], [id]) == rows;
  }

  lemma OneApplied(rows: Rows, section: string, l: Listing, id: Id, plan: Plan)
    requires plan == Plan([l], {}, {}, map[])
    ensures Applied(rows, section, plan, [id]) == rows[id := NewRow(l, section)]
  {
    OneInserted(rows, section, l, id);
    var inserted := InsertRows(rows, section, [l], [id]);
    assert forall k :: k in inserted ==> Updated(k, inserted[k], plan) == inserted[k];
  }

  /** The first listing of a section without contracts adds its row and nothing else. */
  lemma FirstListing(rows: Rows, section: string, l: Listing, id: Id)
    requires Unique(rows) && id !in rows && forall k :: k in rows ==> rows[k].section != section
    ensures Ready(rows, section, [l], [id]) && Reconcile(rows, section, [l]).HasChanges()
    ensures Run(rows, section, [l], [id]) == rows[id := NewRow(l, section)]
  {
    NothingElsePlanned(rows, section, l);
    OneApplied(rows, section, l, id, Reconcile(rows, section, [l]));
  }
}
