/** When a run of the collector is on course, and what keeps it there: undisturbed batches, and crashes
    (scripts/deployment-maintenance.py). */
module GcCourse {
  import opened Wrappers
  import opened GcIndex
  import opened GcProtocol
  import opened GcRuns
  import opened GcWork

  /** A pending run that nothing stands in the way of: it belongs to this plan, its index is intact from
      its position on, and every action left can be dealt with. */
  ghost predicate OnCourse(d: Disk, plan: Plan, run: RunId) {
    && Pending(d, run) && WellFormed(d.runs[run].cursor)
    && var cursor := d.runs[run].cursor;
       var actions := Listed(cursor.root);
       && (cursor.planId.Some? ==> cursor.planId.value == d.runs[run].planId)
       && !PlanMovedOn(plan, cursor)
       && run in d.indexes && Intact(actions, d.indexes[run], cursor.nextIndex, |actions|)
       && CleanupReady(d, cursor)
       && AllReady(d, plan, actions, cursor.nextIndex)
  }

  ghost predicate AllReady(d: Disk, plan: Plan, actions: seq<Action>, from: int) {
    forall i | 0 <= i < |actions| && from <= i :: Ready(d, plan, actions[i])
  }

  /** An undisturbed invocation will find this run and go on with it. */
  ghost predicate CanFinish(d: Disk, plan: Plan, subject: Label, run: RunId) {
    PendingOf(d, subject) == {run} && OnCourse(d, plan, run)
  }

  /** Then its next batch is ready. */
  lemma OnCourseIsReady(d: Disk, plan: Plan, run: RunId)
    requires OnCourse(d, plan, run)
    ensures BatchReady(d, plan, run)
  {
    var cursor := d.runs[run].cursor;
    var clean, batch := Cleaned(d, cursor), NextActions(cursor);
    forall i | 0 <= i < |batch| ensures Ready(clean, plan, batch[i]) {
      assert batch[i] == Listed(cursor.root)[cursor.nextIndex + i];
      assert Ready(d, plan, batch[i]);
    }
  }

  /** The only pending run of its subject. */
  lemma OnlyPending(d: Disk, subject: Label, run: RunId)
    requires OnePending(d) && Pending(d, run) && d.runs[run].subject == subject
    ensures PendingOf(d, subject) == {run}
  {
    assert run in PendingOf(d, subject);
  }

  // ---------------------------------------------------------------- what stays ready

  /** Whatever could be dealt with still can be. */
  ghost predicate KeepsReady(d: Disk, after: Disk) {
    forall plan: Plan, action: Action {:trigger Ready(after, plan, action)} ::
      Ready(d, plan, action) ==> Ready(after, plan, action)
  }

  lemma SameArtifactsKeepReady(d: Disk, after: Disk)
    requires SameArtifacts(d, after)
    ensures KeepsReady(d, after)
  {
  }

  lemma KeepsReadyComposes(a: Disk, b: Disk, c: Disk)
    requires KeepsReady(a, b) && KeepsReady(b, c)
    ensures KeepsReady(a, c)
  {
    forall plan: Plan, action: Action | Ready(a, plan, action) ensures Ready(c, plan, action) {
      assert Ready(b, plan, action);
    }
  }

  /** Collecting one action leaves the others as they were. */
  lemma CollectingKeepsReady(d: Disk, after: Disk, done: Action)
    requires SameArtifacts(Without(d, done), after)
    ensures KeepsReady(d, after)
  {
    forall plan: Plan, action: Action | Ready(d, plan, action) ensures Ready(after, plan, action) {
      ReadyStays(d, after, plan, done, action);
    }
  }

  lemma CleanupKeepsReady(d: Disk, cursor: Cursor)
    ensures KeepsReady(d, Cleaned(d, cursor))
  {
    var clean := Cleaned(d, cursor);
    if clean != d {
      CollectingKeepsReady(d, clean, cursor.cleanup.value);
    }
  }

  /** The disk with the artifacts of the first `n` actions of a batch taken away. */
  function WithoutAll(d: Disk, batch: seq<Action>, n: nat): Disk
    requires n <= |batch|
  {
    if n == 0 then d else Without(WithoutAll(d, batch, n - 1), batch[n - 1])
  }

  /** Each of them was ready when its turn came. */
  ghost predicate WereReady(d: Disk, plan: Plan, batch: seq<Action>, n: nat)
    requires n <= |batch|
  {
    n > 0 ==> WereReady(d, plan, batch, n - 1) && Ready(WithoutAll(d, batch, n - 1), plan, batch[n - 1])
  }

  lemma {:induction false} CollectingAllKeepsReady(d: Disk, batch: seq<Action>, n: nat)
    requires n <= |batch|
    ensures KeepsReady(d, WithoutAll(d, batch, n))
  {
    if n > 0 {
      CollectingAllKeepsReady(d, batch, n - 1);
      CollectingKeepsReady(WithoutAll(d, batch, n - 1), WithoutAll(d, batch, n), batch[n - 1]);
      KeepsReadyComposes(d, WithoutAll(d, batch, n - 1), WithoutAll(d, batch, n));
    }
  }

  /** An action that was found fine and is ready now was ready at the start. */
  lemma {:induction false} WasReady(d: Disk, plan: Plan, batch: seq<Action>, n: nat, action: Action)
    requires n <= |batch| && WereReady(d, plan, batch, n) && Judge(d, plan, action) == AllPlanned
    ensures Judge(WithoutAll(d, batch, n), plan, action) == AllPlanned
    ensures Ready(WithoutAll(d, batch, n), plan, action) ==> Ready(d, plan, action)
  {
    if n > 0 {
      WasReady(d, plan, batch, n - 1, action);
      ReadyWas(WithoutAll(d, batch, n - 1), WithoutAll(d, batch, n), plan, batch[n - 1], action);
    }
  }

  lemma {:induction false} WereReadyAt(d: Disk, plan: Plan, batch: seq<Action>, n: nat, i: nat)
    requires i < n <= |batch| && WereReady(d, plan, batch, n)
    ensures WereReady(d, plan, batch, i) && Ready(WithoutAll(d, batch, i), plan, batch[i])
  {
    if i < n - 1 {
      WereReadyAt(d, plan, batch, n - 1, i);
    }
  }

  /** So a batch that was gone through was ready as a whole. */
  lemma AllCollected(d: Disk, after: Disk, plan: Plan, batch: seq<Action>)
    requires AllFine(d, plan, batch) && WereReady(d, plan, batch, |batch|)
    requires SameArtifacts(WithoutAll(d, batch, |batch|), after)
    ensures BatchIsReady(d, plan, batch) && KeepsReady(d, after)
  {
    forall i | 0 <= i < |batch| ensures Ready(d, plan, batch[i]) {
      WereReadyAt(d, plan, batch, |batch|, i);
      WasReady(d, plan, batch, i, batch[i]);
    }
    CollectingAllKeepsReady(d, batch, |batch|);
    SameArtifactsKeepReady(WithoutAll(d, batch, |batch|), after);
    KeepsReadyComposes(d, WithoutAll(d, batch, |batch|), after);
  }

  /** What was ready at the start is ready when its turn comes. */
  lemma ReadyInTurn(d: Disk, now: Disk, plan: Plan, batch: seq<Action>, i: nat)
    requires i < |batch| && SameArtifacts(WithoutAll(d, batch, i), now)
    ensures Ready(now, plan, batch[i]) == Ready(WithoutAll(d, batch, i), plan, batch[i])
    ensures Ready(d, plan, batch[i]) ==> Ready(now, plan, batch[i])
  {
    CollectingAllKeepsReady(d, batch, i);
  }

  lemma WithoutNext(d: Disk, now: Disk, after: Disk, batch: seq<Action>, i: nat)
    requires i < |batch| && SameArtifacts(WithoutAll(d, batch, i), now) && SameArtifacts(Without(now, batch[i]), after)
    ensures SameArtifacts(WithoutAll(d, batch, i + 1), after)
  {
  }

  lemma RestartIsKept(d: Disk, after: Disk, plan: Plan)
    requires DistinctNames(plan.backups)
    requires CanRestart(d, plan) && KeepsReady(d, after) && after.releases == d.releases
    ensures CanRestart(after, plan)
  {
    PlanIsSpelled(d, plan);
    assert forall name | name in plan.releases :: name in d.releases && d.releases[name].marker.Some?;
    var actions := PlanActions(d, plan).value;
    RestartIff(d, plan, actions);
    RestartIff(after, plan, actions);
    forall action | action in actions ensures Ready(after, plan, action) {
      assert Ready(d, plan, action);
    }
  }

  // ---------------------------------------------------------------- how a batch ends

  /** What the end of a batch says, whatever went wrong: it is closed only if every action was ready,
      superseded only if the first that was not fine was stale, and if any was not fine, nothing is deleted. */
  ghost predicate BatchMeets(d: Disk, after: Disk, plan: Plan, run: RunId, batch: seq<Action>, position: int,
                             end: BatchEnd)
  {
    && RunProgresses(d, after, run)
    && (end.Closed? ==>
          && BatchIsReady(d, plan, batch)
          && ClosedAt(after, run, end.status, position) && KeepsReady(d, after)
          && (end.status == Planned ==> after.indexes == d.indexes))
    && (end == Superseded ==>
          StaleFirst(d, plan, batch) && WrittenOffAt(after, run, PlanSuperseded) && SameArtifacts(d, after))
    && (!AllFine(d, plan, batch) ==> after.releases == d.releases && after.backups == d.backups)
    && (end == BatchCrashed ==> NotLost(after, run))
  }

  /** A batch that was deleted and closed, or not closed after all. */
  lemma DeletedMeets(d: Disk, middle: Disk, after: Disk, plan: Plan, run: RunId, batch: seq<Action>, position: int,
                     end: BatchEnd)
    requires RunProgresses(d, middle, run) && RunProgresses(middle, after, run) && SameArtifacts(middle, after)
    requires middle.indexes == d.indexes && KeepsReady(d, middle)
    requires AllFine(d, plan, batch) && BatchIsReady(d, plan, batch) && end != Superseded
    requires end.Closed? ==> ClosedAt(after, run, end.status, position)
    requires end == Closed(Planned) ==> after.indexes == middle.indexes
    requires end == BatchCrashed ==> NotLost(after, run)
    ensures BatchMeets(d, after, plan, run, batch, position, end)
    ensures !StaleFirst(d, plan, batch)
  {
    NoneStale(d, plan, batch);
    ProgressComposes(d, middle, after, run);
    SameArtifactsKeepReady(middle, after);
    KeepsReadyComposes(d, middle, after);
  }

  /** A batch that was not gone through. */
  lemma UndeletedMeets(d: Disk, after: Disk, plan: Plan, run: RunId, batch: seq<Action>, position: int, end: BatchEnd)
    requires RunProgresses(d, after, run) && AllFine(d, plan, batch)
    requires end == BatchRaised || (end == BatchCrashed && NotLost(after, run))
    ensures BatchMeets(d, after, plan, run, batch, position, end)
    ensures !StaleFirst(d, plan, batch)
  {
    NoneStale(d, plan, batch);
  }

  /** And what it must be when nothing goes wrong. */
  ghost predicate BatchIsDue(d: Disk, after: Disk, plan: Plan, run: RunId, batch: seq<Action>, end: BatchEnd) {
    && (BatchIsReady(d, plan, batch) ==> end.Closed?)
    && (StaleFirst(d, plan, batch) ==> end == Superseded)
    && end != BatchCrashed
    && (end == Closed(Applied) ==> run !in after.indexes && run !in after.manifests)
  }

  /** The same for a run, with the cleanup it owes and the index it reads. */
  ghost predicate RunMeets(d: Disk, after: Disk, plan: Plan, run: RunId, end: BatchEnd)
    requires run in d.runs && WellFormed(d.runs[run].cursor)
  {
    var cursor := d.runs[run].cursor;
    && RunProgresses(d, after, run)
    && (end.Closed? ==>
          && BatchReady(d, plan, run)
          && ClosedAt(after, run, end.status, BatchEndOf(cursor)) && KeepsReady(d, after)
          && (end.status == Planned ==> after.indexes == d.indexes))
    && (end == Superseded ==>
          && BatchOutdated(d, plan, run) && WrittenOffAt(after, run, PlanSuperseded)
          && KeepsReady(d, after) && after.releases == d.releases)
    && (!AllFine(Cleaned(d, cursor), plan, NextActions(cursor)) ==>
          after.releases == d.releases && after.backups == d.backups)
    && (end == BatchCrashed ==> NotLost(after, run))
  }

  ghost predicate RunIsDue(d: Disk, after: Disk, plan: Plan, run: RunId, end: BatchEnd)
    requires run in d.runs && WellFormed(d.runs[run].cursor)
  {
    && (BatchReady(d, plan, run) ==> end.Closed?)
    && (BatchOutdated(d, plan, run) ==> end == Superseded)
    && end != BatchCrashed
    && (end == Closed(Applied) ==> run !in after.indexes && run !in after.manifests)
  }

  /** What holds of the batch holds of the run, once its cleanup is finished. */
  lemma BatchMeetsRun(d: Disk, after: Disk, plan: Plan, run: RunId, end: BatchEnd, undisturbed: bool)
    requires run in d.runs && WellFormed(d.runs[run].cursor) && CleanupReady(d, d.runs[run].cursor)
    requires var cursor := d.runs[run].cursor;
             && BatchMeets(Cleaned(d, cursor), after, plan, run, NextActions(cursor), BatchEndOf(cursor), end)
             && (undisturbed && IndexHolds(d, run) ==>
                   BatchIsDue(Cleaned(d, cursor), after, plan, run, NextActions(cursor), end))
    requires end.Closed? || end == Superseded ==> IndexHolds(d, run)
    requires undisturbed ==> end != BatchCrashed
    ensures RunMeets(d, after, plan, run, end)
    ensures undisturbed ==> RunIsDue(d, after, plan, run, end)
  {
    var cursor := d.runs[run].cursor;
    var clean := Cleaned(d, cursor);
    RemovalProgresses(d, clean, run);
    ProgressComposes(d, clean, after, run);
    CleanupKeepsReady(d, cursor);
    if end.Closed? {
      KeepsReadyComposes(d, clean, after);
    } else if end == Superseded {
      SameArtifactsKeepReady(clean, after);
      KeepsReadyComposes(d, clean, after);
    }
  }

  /** The cleanup could not be finished. */
  lemma UncleanedMeets(d: Disk, after: Disk, plan: Plan, run: RunId, end: BatchEnd, undisturbed: bool)
    requires Pending(d, run) && WellFormed(d.runs[run].cursor) && OnlyRemoves(d, after)
    requires after.releases == d.releases && after.backups == d.backups
    requires end == BatchRaised || end == BatchCrashed
    requires undisturbed ==> end != BatchCrashed && !CleanupReady(d, d.runs[run].cursor)
    ensures RunMeets(d, after, plan, run, end)
    ensures undisturbed ==> RunIsDue(d, after, plan, run, end)
    ensures MayFail(after, run, d.runs[run].cursor.(cleanup := None), d.runs[run].deletedCount)
  {
    RemovalProgresses(d, after, run);
  }

  // ---------------------------------------------------------------- staying on course

  /** A batch closed without a fault leaves the run on course for the rest. */
  lemma ClosedBatchStaysOnCourse(d: Disk, after: Disk, plan: Plan, run: RunId)
    requires OnCourse(d, plan, run) && RunMeets(d, after, plan, run, Closed(Planned))
    ensures OnCourse(after, plan, run)
  {
    var actions := Listed(d.runs[run].cursor.root);
    forall i | BatchEndOf(d.runs[run].cursor) <= i < |actions| ensures Ready(after, plan, actions[i]) {
      assert Ready(d, plan, actions[i]);
    }
  }

  /** A fresh run of the plan, and nothing else. */
  ghost predicate FreshFor(d: Disk, after: Disk, plan: Plan, subject: Label, run: RunId) {
    && SameArtifacts(d, after)
    && StartedAt(after, run, subject) && after.runs == d.runs[run := after.runs[run]]
    && Spells(d, plan, Listed(after.runs[run].cursor.root))
    && !BatchOutdated(after, plan, run)
    && after.runs[run].cursor.cleanup == None && !PlanMovedOn(plan, after.runs[run].cursor)
    && run in after.indexes && after.indexes[run] == IndexOf(Listed(after.runs[run].cursor.root))
  }

  /** A run that has just been started by the plan that can deal with all of it. */
  lemma StartIsOnCourse(d: Disk, after: Disk, plan: Plan, run: RunId, subject: Label)
    requires FreshFor(d, after, plan, subject, run) && CanRestart(d, plan) && DistinctNames(plan.backups)
    ensures OnCourse(after, plan, run)
  {
    var actions := Listed(after.runs[run].cursor.root);
    RestartIff(d, plan, actions);
    forall i | 0 <= i < |actions| ensures Ready(after, plan, actions[i]) {
      assert Ready(d, plan, actions[i]);
    }
  }

  lemma OrphansKeepCourse(d: Disk, after: Disk, plan: Plan, subject: Label, run: RunId)
    requires OnlyOrphansDropped(d, after) && CanFinish(d, plan, subject, run)
    ensures CanFinish(after, plan, subject, run)
  {
    OrphansDoNotMatter(d, after, plan, subject);
    SameArtifactsKeepReady(d, after);
    assert !Orphan(d, run);
  }

  ghost predicate HoldsFrom(plan: Plan, actions: seq<Action>, from: int) {
    forall i | 0 <= i < |actions| && from <= i :: InPlan(plan, actions[i])
  }

  /** Another plan with the same policy and protected set that still holds what is left will do. */
  lemma OnCourseUnderPlan(d: Disk, plan: Plan, other: Plan, run: RunId)
    requires OnCourse(d, plan, run) && DistinctNames(other.backups)
    requires other.policy == plan.policy && other.protection == plan.protection
    requires HoldsFrom(other, Listed(d.runs[run].cursor.root), d.runs[run].cursor.nextIndex)
    ensures OnCourse(d, other, run)
  {
    var actions := Listed(d.runs[run].cursor.root);
    forall i | d.runs[run].cursor.nextIndex <= i < |actions| ensures Ready(d, other, actions[i]) {
      assert Ready(d, plan, actions[i]) && InPlan(other, actions[i]);
      FindDetailFinds(other.backups, actions[i].name);
    }
  }

  // ---------------------------------------------------------------- crashes

  /** Ready, and safe to be caught between the unlinking of the backup and of its marker. */
  ghost predicate Sturdy(d: Disk, plan: Plan, action: Action) {
    && Ready(d, plan, action)
    && (action.Backup? && action.name in d.backups ==>
          action.name in d.markers && Matches(d.markers[action.name], action))
  }

  ghost predicate AllSturdy(d: Disk, plan: Plan, actions: seq<Action>, from: int) {
    forall i | 0 <= i < |actions| && from <= i :: Sturdy(d, plan, actions[i])
  }

  /** No write of the collector, for whatever run, makes an action unready that was sturdy. */
  lemma StepKeepsSturdy(author: Plan, d: Disk, step: Step, plan: Plan, action: Action)
    requires Allowed(author, d, step) && !step.Environment? && Sturdy(d, plan, action)
    ensures Sturdy(Apply(d, step), plan, action)
  {
  }

  /** Neither written off nor forgotten. */
  predicate NotLost(d: Disk, run: RunId) {
    Pending(d, run) || (run in d.runs && d.runs[run].status == Applied)
  }

  /** A run on course that a crash cannot throw off it. */
  ghost predicate CrashSafe(d: Disk, plan: Plan, run: RunId) {
    OnCourse(d, plan, run) && AllSturdy(d, plan, Listed(d.runs[run].cursor.root), d.runs[run].cursor.nextIndex)
  }

  /** What a write of the collector may do to the row of a pending indexed run that stays pending. */
  lemma StepKeepsRow(author: Plan, d: Disk, step: Step, run: RunId)
    requires Allowed(author, d, step) && !step.Environment?
    requires Pending(d, run) && WellFormed(d.runs[run].cursor) && Pending(Apply(d, step), run)
    ensures SameRun(d.runs[run], Apply(d, step).runs[run])
    ensures WellFormed(Apply(d, step).runs[run].cursor)
    ensures var was, now := d.runs[run].cursor, Apply(d, step).runs[run].cursor;
            && was.nextIndex <= now.nextIndex
            && (now.cleanup == was.cleanup || now.cleanup == None
                || (was.nextIndex < |Listed(was.root)| && now.cleanup == Some(Listed(was.root)[was.nextIndex])))
    ensures run in d.indexes ==> run in Apply(d, step).indexes && Apply(d, step).indexes[run] == d.indexes[run]
  {
    StepKeepsEvidence(author, d, step, run);
  }

  lemma StepKeepsCleanup(author: Plan, d: Disk, step: Step, action: Action)
    requires Allowed(author, d, step) && !step.Environment?
    requires ArtifactGone(d, action) && StateOf(d, action) != Unsafe
    ensures StateOf(Apply(d, step), action) != Unsafe
  {
  }

  lemma StepKeepsCrashSafe(author: Plan, d: Disk, step: Step, plan: Plan, run: RunId)
    requires Inv(d) && Allowed(author, d, step) && !step.Environment?
    requires CrashSafe(d, plan, run) && Pending(Apply(d, step), run)
    ensures CrashSafe(Apply(d, step), plan, run)
  {
    var after := Apply(d, step);
    var was := d.runs[run].cursor;
    var actions := Listed(was.root);
    StepKeepsRow(author, d, step, run);
    forall i | was.nextIndex <= i < |actions| ensures Sturdy(after, plan, actions[i]) {
      StepKeepsSturdy(author, d, step, plan, actions[i]);
    }
    if was.cleanup.Some? {
      assert ArtifactGone(d, was.cleanup.value) by {
        assert PrefixCollected(d, was);
      }
      StepKeepsCleanup(author, d, step, was.cleanup.value);
    }
    RowKeepsCrashSafe(d, after, plan, run);
  }

  lemma RowKeepsCrashSafe(d: Disk, after: Disk, plan: Plan, run: RunId)
    requires CrashSafe(d, plan, run) && Pending(after, run)
    requires SameRun(d.runs[run], after.runs[run]) && WellFormed(after.runs[run].cursor)
    requires run in after.indexes && after.indexes[run] == d.indexes[run]
    requires AllSturdy(after, plan, Listed(d.runs[run].cursor.root), d.runs[run].cursor.nextIndex)
    requires var was, now := d.runs[run].cursor, after.runs[run].cursor;
             && was.nextIndex <= now.nextIndex
             && (now.cleanup == was.cleanup || now.cleanup == None
                 || (was.nextIndex < |Listed(was.root)| && now.cleanup == Some(Listed(was.root)[was.nextIndex])))
    requires CleanupReady(after, d.runs[run].cursor)
    ensures CrashSafe(after, plan, run)
  {
    var actions, next := Listed(d.runs[run].cursor.root), d.runs[run].cursor.nextIndex;
    forall i | after.runs[run].cursor.nextIndex <= i < |actions| ensures Ready(after, plan, actions[i]) {
      assert Sturdy(after, plan, actions[i]);
    }
    if next < |actions| {
      assert Sturdy(after, plan, actions[next]);
    }
  }

  /** Whatever the collector writes and wherever it is cut off, a crash-safe run that is still pending is
      still crash-safe. */
  lemma {:induction false} StaysCrashSafe(origin: Disk, trace: seq<Event>, k: nat, plan: Plan, run: RunId)
    requires Inv(origin) && Legal(origin, trace) && k <= |trace| && Undisturbed(trace, k)
    requires CrashSafe(Replay(origin, trace[..k]), plan, run) && Pending(Replay(origin, trace), run)
    ensures CrashSafe(Replay(origin, trace), plan, run)
    decreases |trace|
  {
    if k == |trace| {
      assert trace[..k] == trace;
    } else {
      var before, event := trace[..|trace| - 1], trace[|trace| - 1];
      assert before[..k] == trace[..k];
      WasPending(origin, before, event, k, run);
      StaysCrashSafe(origin, before, k, plan, run);
      InvariantHolds(origin, before);
      StepKeepsCrashSafe(event.plan, Replay(origin, before), event.step, plan, run);
    }
  }

  /** A run that is pending now was pending before, back to where it first was. */
  lemma WasPending(origin: Disk, before: seq<Event>, event: Event, k: nat, run: RunId)
    requires Legal(origin, before) && k <= |before| && Allowed(event.plan, Replay(origin, before), event.step)
    requires Pending(Replay(origin, before[..k]), run) && Pending(Apply(Replay(origin, before), event.step), run)
    ensures Pending(Replay(origin, before), run)
  {
    StillListed(origin, before, k, run);
    OnlyPlannedChanges(event.plan, Replay(origin, before), event.step, run);
  }

  lemma {:induction false} UndisturbedSince(before: seq<Event>, after: seq<Event>)
    requires before <= after && Disturbances(after) == Disturbances(before)
    ensures Undisturbed(after, |before|)
    decreases |after|
  {
    if |before| < |after| {
      var shorter := after[..|after| - 1];
      MoreDisturbances(before, shorter);
      UndisturbedSince(before, shorter);
      forall i | |before| <= i < |after| ensures !after[i].step.Environment? {
        assert i < |shorter| ==> after[i] == shorter[i];
      }
    }
  }

  lemma {:induction false} MoreDisturbances(before: seq<Event>, after: seq<Event>)
    requires before <= after
    ensures Disturbances(before) <= Disturbances(after)
    decreases |after|
  {
    if |before| < |after| {
      MoreDisturbances(before, after[..|after| - 1]);
    } else {
      assert before == after;
    }
  }

  /** After a crash the next invocation can go on with the same plan. */
  lemma CrashKeepsCourse(before: LegalHistory, after: LegalHistory, plan: Plan, subject: Label, run: RunId)
    requires Continues(before, after)
    requires CanFinish(Replay(before.origin, before.events), plan, subject, run)
    requires CrashSafe(Replay(before.origin, before.events), plan, run)
    requires Pending(Replay(after.origin, after.events), run)
    ensures CanFinish(Replay(after.origin, after.events), plan, subject, run)
    ensures CrashSafe(Replay(after.origin, after.events), plan, run)
  {
    var k := |before.events|;
    assert after.events[..k] == before.events;
    UndisturbedSince(before.events, after.events);
    LawfulIsLegal(after.origin, after.events);
    StaysCrashSafe(after.origin, after.events, k, plan, run);
    InvariantHolds(after.origin, after.events);
    SubjectIsKept(after.origin, after.events, k, run);
    assert run in PendingOf(Replay(before.origin, before.events), subject);
    OnlyPending(Replay(after.origin, after.events), subject, run);
  }

  lemma {:induction false} SubjectIsKept(origin: Disk, trace: seq<Event>, k: nat, run: RunId)
    requires Legal(origin, trace) && k <= |trace| && Undisturbed(trace, k) && run in Replay(origin, trace[..k]).runs
    ensures run in Replay(origin, trace).runs
    ensures Replay(origin, trace).runs[run].subject == Replay(origin, trace[..k]).runs[run].subject
    decreases |trace|
  {
    if k == |trace| {
      assert trace[..k] == trace;
    } else {
      var before, event := trace[..|trace| - 1], trace[|trace| - 1];
      assert before[..k] == trace[..k];
      SubjectIsKept(origin, before, k, run);
      StepKeepsSubject(event.plan, Replay(origin, before), event.step, run);
    }
  }

  lemma StepKeepsSubject(author: Plan, d: Disk, step: Step, run: RunId)
    requires Allowed(author, d, step) && !step.Environment? && run in d.runs
    ensures run in Apply(d, step).runs && Apply(d, step).runs[run].subject == d.runs[run].subject
  {
  }

  // ---------------------------------------------------------------- how many invocations

  /** From position `start`, the run has made `k` undisturbed invocations' worth of its actions, and is applied
      exactly when that is all of them; then all of them are collected. */
  ghost predicate DrivenTo(d: Disk, run: RunId, actions: seq<Action>, start: nat, k: nat) {
    && run in d.runs && start <= |actions|
    && Listed(d.runs[run].cursor.root) == actions
    && d.runs[run].cursor.nextIndex == AfterInvocations(|actions|, start, k)
    && (d.runs[run].status == Applied <==> k >= InvocationsNeeded(|actions| - start))
    && (d.runs[run].status == Applied ==> CollectedBelow(d, actions, |actions|))
  }

  /** An applied run has nothing left, and a run is applied once 1000 actions for each invocation cover it. */
  lemma DrivenIsDone(d: Disk, run: RunId, actions: seq<Action>, start: nat, k: nat)
    requires DrivenTo(d, run, actions, start, k) && k > 0
    ensures d.runs[run].status == Applied <==> |actions| <= start + 1000 * k
    ensures d.runs[run].status == Applied ==> forall action | action in actions :: Collected(d, action)
  {
    FinishedAfter(|actions|, start, k);
    PositionAfter(|actions|, start, k);
  }

  lemma DrivenStart(d: Disk, subject: Label, outcome: Outcome, actions: seq<Action>)
    requires outcome.Finished? && FinishedAt(d, subject, outcome)
    requires Listed(d.runs[outcome.run].cursor.root) == actions
    requires d.runs[outcome.run].cursor.nextIndex == AfterInvocation(|actions|, 0)
    ensures DrivenTo(d, outcome.run, actions, 0, 1)
  {
    assert AfterInvocations(|actions|, 0, 1) == AfterInvocation(|actions|, AfterInvocations(|actions|, 0, 0));
    FinishedAfter(|actions|, 0, 1);
  }

  /** Where a pending run stands, no invocation has been made yet. */
  lemma DrivenFromHere(d: Disk, plan: Plan, run: RunId)
    requires OnCourse(d, plan, run)
    ensures var cursor := d.runs[run].cursor; DrivenTo(d, run, Listed(cursor.root), cursor.nextIndex, 0)
  {
  }

  lemma DrivenNext(before: Disk, d: Disk, subject: Label, outcome: Outcome, actions: seq<Action>, start: nat, k: nat)
    requires outcome.Finished? && FinishedAt(d, subject, outcome)
    requires DrivenTo(before, outcome.run, actions, start, k) && WellFormed(before.runs[outcome.run].cursor)
    requires d.runs[outcome.run].cursor.nextIndex == BatchEndOf(before.runs[outcome.run].cursor)
    requires Listed(d.runs[outcome.run].cursor.root) == actions
    ensures DrivenTo(d, outcome.run, actions, start, k + 1)
  {
    BatchEndIsAfterInvocation(before.runs[outcome.run].cursor);
    FinishedAfter(|actions|, start, k + 1);
  }

  /** A row that has reached the end stays as it is, whatever the collector does afterwards, and what it has
      collected does not come back. */
  lemma DrivenStays(before: LegalHistory, after: LegalHistory, run: RunId, actions: seq<Action>, start: nat, k: nat)
    requires Continues(before, after)
    requires DrivenTo(Replay(before.origin, before.events), run, actions, start, k)
    requires k >= InvocationsNeeded(|actions| - start)
    ensures DrivenTo(Replay(after.origin, after.events), run, actions, start, k + 1)
  {
    var was, now := Replay(before.origin, before.events), Replay(after.origin, after.events);
    assert after.events[..|before.events|] == before.events;
    LawfulIsLegal(after.origin, after.events);
    TerminalIsFinal(after.origin, after.events, |before.events|, run);
    UndisturbedSince(before.events, after.events);
    CollectorOnlyTakesAway(after.origin, after.events, |before.events|);
    CollectedStays(was, now, actions, |actions|);
    FinishedAfter(|actions|, start, k);
    FinishedAfter(|actions|, start, k + 1);
  }

  predicate AllDistinctNames(plans: seq<Plan>) {
    forall i | 0 <= i < |plans| :: DistinctNames(plans[i].backups)
  }

  predicate Distinct(ids: seq<RunId>) {
    forall i, j | 0 <= i < j < |ids| :: ids[i] != ids[j]
  }

  /** No row carries any of the ids from `k` on. */
  predicate Unused(ids: seq<RunId>, k: nat, d: Disk) {
    forall i | k <= i < |ids| :: ids[i] !in d.runs
  }

  /** The plans have one policy and one protected set, and each holds what is left when its turn comes. */
  ghost predicate Agree(plans: seq<Plan>, actions: seq<Action>, start: nat) {
    forall i | 0 < i < |plans| ::
      && plans[i].policy == plans[0].policy && plans[i].protection == plans[0].protection
      && HoldsFrom(plans[i], actions, AfterInvocations(|actions|, start, i))
  }

  /** Driven so far, and ready for the next plan if there is work left for it. */
  ghost predicate OnTrack(d: Disk, plans: seq<Plan>, k: nat, subject: Label, run: RunId, actions: seq<Action>,
                          start: nat)
  {
    && DrivenTo(d, run, actions, start, k)
    && (k < |plans| && k < InvocationsNeeded(|actions| - start) ==> CanFinish(d, plans[k], subject, run))
  }

  /** The next plan will do as well as the last one. */
  lemma NextPlanWillDo(d: SoundDisk, plans: seq<Plan>, k: nat, subject: Label, run: RunId, actions: seq<Action>,
                       start: nat)
    requires k > 0 && AllDistinctNames(plans) && Agree(plans, actions, start)
    requires DrivenTo(d, run, actions, start, k)
    requires k < InvocationsNeeded(|actions| - start) && k <= |plans| ==>
               OnCourse(d, plans[k - 1], run) && d.runs[run].subject == subject
    requires k <= |plans|
    ensures OnTrack(d, plans, k, subject, run, actions, start)
  {
    if k < |plans| && k < InvocationsNeeded(|actions| - start) {
      OnlyPending(d, subject, run);
      OnCourseUnderPlan(d, plans[k - 1], plans[k], run);
    }
  }
}
