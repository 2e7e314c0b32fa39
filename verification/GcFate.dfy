/** What an undisturbed invocation makes of the run it finds pending
    (scripts/deployment-maintenance.py). */
module GcFate {
  import opened Wrappers
  import opened GcIndex
  import opened GcProtocol
  import opened GcRuns
  import opened GcWork
  import opened GcCourse

  /** The next batch is closed; the run is ended as failed; it is ended and a fresh run takes its place; or the
      invocation raises before it touches the row. */
  datatype Fate = Advances | WrittenOff | Replaced(code: FailureCode) | Untouched

  /** The action list of a legacy run can be read: the row carries it, or its manifest still hashes right. */
  predicate ListReadable(d: Disk, run: RunId)
    requires run in d.runs
  {
    var cursor := d.runs[run].cursor;
    cursor.version == 4 ==>
      && run in d.manifests && AllJson(d.manifests[run])
      && ManifestDigest(d.manifests[run]) == cursor.root && |d.manifests[run]| == cursor.actionCount
  }

  /** A legacy run that can be converted: its list can be read and fits the current plan. */
  predicate Convertible(d: Disk, plan: Plan, run: RunId)
    requires run in d.runs
  {
    var cursor := d.runs[run].cursor;
    var actions, current := BoundActions(cursor), CurrentActions(d, plan);
    && ListReadable(d, run)
    && !KeysClash(actions, current) && AllFit(d, actions, current)
    && 0 <= cursor.nextIndex <= |actions|
  }

  ghost predicate Clashes(d: Disk, plan: Plan, run: RunId)
    requires run in d.runs
  {
    ListReadable(d, run) && PlansClash(d, BoundActions(d.runs[run].cursor), CurrentActions(d, plan))
  }

  function LegacyBatch(cursor: Cursor): seq<Action>
    requires 0 <= cursor.nextIndex <= |BoundActions(cursor)|
  {
    var actions := BoundActions(cursor);
    actions[cursor.nextIndex..AfterInvocation(|actions|, cursor.nextIndex)]
  }

  ghost function IndexedFate(d: Disk, plan: Plan, run: RunId): Fate
    requires run in d.runs
  {
    if !WellFormed(d.runs[run].cursor) then Untouched
    else if BatchReady(d, plan, run) then Advances
    else if BatchOutdated(d, plan, run) then Replaced(PlanSuperseded)
    else WrittenOff
  }

  ghost function LegacyFate(d: Disk, plan: Plan, run: RunId): Fate
    requires run in d.runs
  {
    if Clashes(d, plan, run) then Replaced(PlanSuperseded)
    else if !Convertible(d, plan, run) then Untouched
    else if BatchIsReady(d, plan, LegacyBatch(d.runs[run].cursor)) then Advances
    else WrittenOff
  }

  /** The row cannot be used at all: its bounds or its plan id are wrong. */
  predicate IsInvalid(row: Run) {
    !InBounds(row.cursor) || (row.cursor.planId.Some? && row.cursor.planId.value != row.planId)
  }

  ghost function FateOf(d: Disk, plan: Plan, run: RunId): Fate {
    if run !in d.runs || IsInvalid(d.runs[run]) then Untouched
    else if PlanMovedOn(plan, d.runs[run].cursor) then Replaced(PlanSuperseded)
    else if EvidenceMissing(d, run) then Replaced(EvidenceUnavailable)
    else if d.runs[run].cursor.version == 5 then IndexedFate(d, plan, run)
    else LegacyFate(d, plan, run)
  }

  /** The fate of a row, decided from the row, the plan and the evidence files.  A row out of bounds or with another
      plan id is left alone; a run planned under another policy or protected set, which version 2 did not record,
      is superseded; one whose index or manifest is gone has lost its evidence; and a manifest that does not
      hash to what the row says, or has another count, is not read. */
  lemma FateIff(d: Disk, plan: Plan, run: RunId)
    requires run in d.runs && 2 <= d.runs[run].cursor.version <= 5
    ensures var row, cursor, fate := d.runs[run], d.runs[run].cursor, FateOf(d, plan, run);
            var usable := && 0 <= cursor.nextIndex <= cursor.actionCount
                          && (cursor.planId == None || cursor.planId == Some(row.planId));
            var moved := cursor.version > 2 && (cursor.policy != plan.policy || cursor.protection != plan.protection);
            var lost := || (cursor.version == 5 && run !in d.indexes)
                        || (cursor.version == 4 && run !in d.manifests);
            && (!usable ==> fate == Untouched)
            && (usable && moved ==> fate == Replaced(PlanSuperseded))
            && (fate == Replaced(EvidenceUnavailable) <==> usable && !moved && lost)
            && (usable && !moved && cursor.version == 4 && run in d.manifests ==>
                  ManifestDigest(d.manifests[run]) != cursor.root || |d.manifests[run]| != cursor.actionCount ==>
                    fate == Untouched)
            && (fate == Advances ==> usable && !moved && !lost)
  {
  }

  lemma CleanupReadyIff(d: Disk, cursor: Cursor)
    ensures CleanupReady(d, cursor) <==>
              match cursor.cleanup
              case Some(Backup(name, size, sha)) =>
                name !in d.backups && name in d.markers ==>
                  || d.markers[name] == Marker(true, name, sha, true, None)
                  || d.markers[name] == Marker(true, name, sha, true, Some(size))
              case _ => true
  {
  }

  lemma BatchIsReadyIff(d: Disk, plan: Plan, actions: seq<Action>, start: nat, end: nat)
    requires start <= end <= |actions|
    ensures BatchIsReady(d, plan, actions[start..end]) <==>
              forall i | start <= i < end :: Ready(d, plan, actions[i])
  {
    var batch := actions[start..end];
    assert forall i | 0 <= i < |batch| :: batch[i] == actions[start + i];
    forall i | start <= i < end && BatchIsReady(d, plan, batch) ensures Ready(d, plan, actions[i]) {
      assert Ready(d, plan, batch[i - start]);
    }
  }

  /** When an indexed run goes on: the cleanup it owes is not blocked by somebody else's marker, and each of its
      next 1000 actions is as written in the index and ready once that cleanup is done. */
  lemma AdvancesIff(d: Disk, plan: Plan, run: RunId)
    requires run in d.runs && WellFormed(d.runs[run].cursor) && run in d.indexes
    ensures var cursor := d.runs[run].cursor;
            var actions := Listed(cursor.root);
            var end := if cursor.nextIndex + 1000 < |actions| then cursor.nextIndex + 1000 else |actions|;
            IndexedFate(d, plan, run) == Advances <==>
              && CleanupReady(d, cursor)
              && Intact(actions, d.indexes[run], cursor.nextIndex, end)
              && (forall i | cursor.nextIndex <= i < end :: Ready(Cleaned(d, cursor), plan, actions[i]))
  {
    var cursor := d.runs[run].cursor;
    BatchEndIsAfterInvocation(cursor);
    BatchIsReadyIff(Cleaned(d, cursor), plan, Listed(cursor.root), cursor.nextIndex, BatchEndOf(cursor));
  }

  /** A fresh run of the plan was started and its first batch closed; if more is left, it is on course. */
  ghost predicate Restarted(d: Disk, after: Disk, plan: Plan, newRun: RunId, outcome: Outcome) {
    && outcome.Finished? && outcome.run == newRun && newRun in after.runs
    && Spells(d, plan, Listed(after.runs[newRun].cursor.root))
    && after.runs[newRun].cursor.nextIndex == AfterInvocation(|plan.releases| + |plan.backups|, 0)
    && (outcome.status == Planned ==> OnCourse(after, plan, newRun))
  }

  /** The run went on: same list, and one batch further. */
  ghost predicate WentOn(d: Disk, after: Disk, run: RunId) {
    && run in d.runs && run in after.runs
    && var was, now := d.runs[run].cursor, after.runs[run].cursor;
       && BoundActions(now) == BoundActions(was)
       && 0 <= was.nextIndex && now.nextIndex == AfterInvocation(|BoundActions(was)|, was.nextIndex)
  }

  /** The invocation did with the pending run what its fate says. */
  ghost predicate Fared(d: Disk, after: Disk, plan: Plan, run: RunId, newRun: RunId, outcome: Outcome, fate: Fate) {
    match fate
    case Untouched => outcome == GcRaised && after.runs == d.runs
    case WrittenOff => outcome == GcRaised && WrittenOffAt(after, run, ErrorRaised)
    case Advances =>
      outcome.Finished? && outcome.run == run && outcome.supersededRun == None && WentOn(d, after, run)
    case Replaced(code) =>
      && WrittenOffAt(after, run, code)
      && (CanRestart(d, plan) ==>
            Restarted(d, after, plan, newRun, outcome) && outcome.supersededRun == Some(run))
  }

  /** The run carries the plan out: it has an action for each release and each backup of the plan, and if it is
      applied nothing the plan lists is left. */
  ghost predicate CarriesOut(d: Disk, plan: Plan, run: RunId) {
    && run in d.runs && d.runs[run].cursor.actionCount == |plan.releases| + |plan.backups|
    && (d.runs[run].status == Applied ==> PlanDone(d, plan))
  }

  /** Whose work a finished invocation reports: the pending run, or a fresh one of this plan that took its place. */
  ghost predicate Attributed(d: Disk, after: Disk, plan: Plan, subject: Label, newRun: RunId, outcome: Outcome)
    requires outcome.Finished?
  {
    && (outcome.run == newRun ==> CarriesOut(after, plan, newRun))
    && (PendingOf(d, subject) == {} ==> outcome.run == newRun && outcome.supersededRun == None)
    && (forall run | PendingOf(d, subject) == {run} ::
          || (outcome.run == run && outcome.supersededRun == None)
          || (outcome.run == newRun && outcome.supersededRun == Some(run)
              && run in after.runs && after.runs[run].status == Failed))
  }

  /** Rows that were there are as they were. */
  ghost predicate OnlyAdds(d: Disk, after: Disk) {
    forall run | run in d.runs :: run in after.runs && after.runs[run] == d.runs[run]
  }

  /** Batches are judged by the artifacts only. */
  lemma SameJudgement(d: Disk, after: Disk, plan: Plan, batch: seq<Action>)
    requires SameArtifacts(d, after)
    ensures BatchIsReady(after, plan, batch) <==> BatchIsReady(d, plan, batch)
    ensures StaleFirst(after, plan, batch) <==> StaleFirst(d, plan, batch)
    ensures AllFine(after, plan, batch) <==> AllFine(d, plan, batch)
  {
    forall action
      ensures Judge(after, plan, action) == Judge(d, plan, action)
      ensures Ready(after, plan, action) == Ready(d, plan, action)
    {
    }
  }

  lemma SameFit(d: Disk, after: Disk, persisted: seq<Action>, current: seq<Action>)
    requires SameArtifacts(d, after)
    ensures AllFit(after, persisted, current) <==> AllFit(d, persisted, current)
    ensures PlansClash(after, persisted, current) <==> PlansClash(d, persisted, current)
  {
    forall i | 0 <= i < |persisted| ensures Fit(after, persisted[i], current) == Fit(d, persisted[i], current) {
      SameFitOne(d, after, persisted[i], current);
    }
    forall i | 0 <= i < |persisted|
      ensures AllFit(after, persisted[..i], current) == AllFit(d, persisted[..i], current)
    {
      SameAllFit(d, after, persisted[..i], current);
    }
  }

  lemma SameFitOne(d: Disk, after: Disk, action: Action, current: seq<Action>)
    requires SameArtifacts(d, after)
    ensures Fit(after, action, current) == Fit(d, action, current)
  {
  }

  lemma SameAllFit(d: Disk, after: Disk, actions: seq<Action>, current: seq<Action>)
    requires SameArtifacts(d, after)
    ensures AllFit(after, actions, current) == AllFit(d, actions, current)
  {
    forall i | 0 <= i < |actions| ensures Fit(after, actions[i], current) == Fit(d, actions[i], current) {
      SameFitOne(d, after, actions[i], current);
    }
  }

  lemma SameCleaned(d: Disk, after: Disk, cursor: Cursor)
    requires SameArtifacts(d, after)
    ensures CleanupReady(after, cursor) == CleanupReady(d, cursor)
    ensures SameArtifacts(Cleaned(d, cursor), Cleaned(after, cursor))
  {
  }

  lemma SameIndexedFate(d: Disk, after: Disk, plan: Plan, run: RunId)
    requires SameArtifacts(d, after) && run in d.runs && run in after.runs
    requires after.runs[run].cursor == d.runs[run].cursor
    requires run in d.indexes && run in after.indexes && after.indexes[run] == d.indexes[run]
    ensures IndexedFate(after, plan, run) == IndexedFate(d, plan, run)
  {
    var cursor := d.runs[run].cursor;
    if WellFormed(cursor) {
      SameCleaned(d, after, cursor);
      SameJudgement(Cleaned(d, cursor), Cleaned(after, cursor), plan, NextActions(cursor));
    }
  }

  lemma SameLegacyFate(d: Disk, after: Disk, plan: Plan, run: RunId)
    requires SameArtifacts(d, after) && run in d.runs && run in after.runs
    requires after.runs[run].cursor == d.runs[run].cursor
    requires ListReadable(after, run) == ListReadable(d, run)
    ensures LegacyFate(after, plan, run) == LegacyFate(d, plan, run)
  {
    SameCurrent(d, after, plan);
    SameFit(d, after, BoundActions(d.runs[run].cursor), CurrentActions(d, plan));
    if Convertible(d, plan, run) {
      SameJudgement(d, after, plan, LegacyBatch(d.runs[run].cursor));
    }
  }

  lemma OrphansKeepFate(d: Disk, after: Disk, plan: Plan, run: RunId)
    requires OnlyOrphansDropped(d, after) && Pending(d, run)
    ensures FateOf(after, plan, run) == FateOf(d, plan, run)
  {
    assert !Orphan(d, run);
    if EvidenceMissing(d, run) {
    } else if d.runs[run].cursor.version == 5 {
      SameIndexedFate(d, after, plan, run);
    } else {
      SameLegacyFate(d, after, plan, run);
    }
  }

  lemma {:induction false} SameCurrentReleases(d: Disk, after: Disk, names: seq<Name>)
    requires SameArtifacts(d, after)
    ensures CurrentReleases(after, names) == CurrentReleases(d, names)
  {
    if names != [] {
      SameCurrentReleases(d, after, names[1..]);
    }
  }

  lemma {:induction false} SameCurrentBackups(d: Disk, after: Disk, details: seq<Detail>)
    requires SameArtifacts(d, after)
    ensures CurrentBackups(after, details) == CurrentBackups(d, details)
  {
    if details != [] {
      SameCurrentBackups(d, after, details[1..]);
    }
  }

  lemma SameCurrent(d: Disk, after: Disk, plan: Plan)
    requires SameArtifacts(d, after)
    ensures CurrentActions(after, plan) == CurrentActions(d, plan)
  {
    SameCurrentReleases(d, after, plan.releases);
    SameCurrentBackups(d, after, plan.backups);
  }

  // ---------------------------------------------------------------- conversion

  lemma {:induction false} CurrentReleasesIff(d: Disk, names: seq<Name>, action: Action)
    ensures action in CurrentReleases(d, names) <==>
              && action.Release? && action.name in names && action.name in d.releases
              && d.releases[action.name].marker.Some? && d.releases[action.name].marker.value.sha == action.markerSha
  {
    if names != [] {
      CurrentReleasesIff(d, names[1..], action);
    }
  }

  lemma {:induction false} CurrentBackupsIff(d: Disk, details: seq<Detail>, action: Action)
    ensures action in CurrentBackups(d, details) <==>
              action.Backup? && Detail(action.name, action.size, action.sha) in details && action.name in d.backups
  {
    if details != [] {
      CurrentBackupsIff(d, details[1..], action);
    }
  }

  /** What the current plan would still do: the releases and backups it lists that are there. */
  lemma CurrentIff(d: Disk, plan: Plan, action: Action)
    ensures action in CurrentActions(d, plan) <==>
              match action
              case Release(name, markerSha) =>
                && name in plan.releases && name in d.releases
                && d.releases[name].marker.Some? && d.releases[name].marker.value.sha == markerSha
              case Backup(name, size, sha) => Detail(name, size, sha) in plan.backups && name in d.backups
  {
    CurrentReleasesIff(d, plan.releases, action);
    CurrentBackupsIff(d, plan.backups, action);
  }

  /** So in a plan that fits the current one every action is fine: a converted run is not superseded in the
      same invocation. */
  lemma FittingIsFine(d: Disk, plan: Plan, action: Action)
    requires DistinctNames(plan.backups) && Fit(d, action, CurrentActions(d, plan)) == Compatible
    ensures Judge(d, plan, action) == AllPlanned && StateOf(d, action) != Unsafe
  {
    CurrentIff(d, plan, action);
    JudgeIff(d, plan, action);
  }

  lemma SameForJudges(d: Disk, after: Disk, plan: Plan, action: Action)
    requires SameFor(d, after, action) && after.releases == d.releases
    ensures Judge(after, plan, action) == Judge(d, plan, action)
    ensures Ready(after, plan, action) == Ready(d, plan, action)
  {
  }

  /** The next batch as it stands after the conversion. */
  lemma ConvertedBatch(d: Disk, after: Disk, plan: Plan, run: RunId)
    requires DistinctNames(plan.backups) && run in d.runs && Convertible(d, plan, run)
    requires var actions, next := BoundActions(d.runs[run].cursor), d.runs[run].cursor.nextIndex;
             after.releases == d.releases && SameFrom(d, after, actions, next)
    ensures var batch := LegacyBatch(d.runs[run].cursor);
            AllFine(after, plan, batch) && (BatchIsReady(after, plan, batch) <==> BatchIsReady(d, plan, batch))
  {
    var was := d.runs[run].cursor;
    var actions, batch := BoundActions(was), LegacyBatch(was);
    forall i | 0 <= i < |batch|
      ensures Judge(after, plan, batch[i]) == AllPlanned
      ensures Ready(after, plan, batch[i]) == Ready(d, plan, batch[i])
    {
      var k := was.nextIndex + i;
      assert batch[i] == actions[k] && Fit(d, actions[k], CurrentActions(d, plan)) == Compatible;
      FittingIsFine(d, plan, batch[i]);
      assert SameFor(d, after, actions[k]);
      SameForJudges(d, after, plan, batch[i]);
    }
  }

  /** Nothing is owed after the conversion. */
  lemma ConvertedOwesNothing(d: Disk, after: Disk, run: RunId)
    requires ConvertedAt(d, after, run) && PrefixCollected(d, d.runs[run].cursor)
    requires GoneBelow(after, BoundActions(d.runs[run].cursor), d.runs[run].cursor.nextIndex)
    ensures CleanupReady(after, after.runs[run].cursor) && Cleaned(after, after.runs[run].cursor) == after
  {
    var was := d.runs[run].cursor;
    assert was.cleanup.Some? ==> was.cleanup.value == BoundActions(was)[was.nextIndex - 1];
  }

  /** Once converted, the run fares as its legacy plan promised. */
  lemma ConvertedFate(d: Disk, after: Disk, plan: Plan, run: RunId)
    requires DistinctNames(plan.backups) && run in d.runs && Convertible(d, plan, run) && !Clashes(d, plan, run)
    requires ConvertedCleanly(d, after, run) && WellFormed(after.runs[run].cursor)
    requires PrefixCollected(d, d.runs[run].cursor) && after.releases == d.releases
    ensures IndexedFate(after, plan, run) == LegacyFate(d, plan, run)
  {
    var cursor := after.runs[run].cursor;
    var batch := LegacyBatch(d.runs[run].cursor);
    BatchEndIsAfterInvocation(cursor);
    assert NextActions(cursor) == batch && IndexHolds(after, run);
    ConvertedOwesNothing(d, after, run);
    ConvertedBatch(d, after, plan, run);
    FineIsNotStale(after, plan, batch);
  }

  lemma FineIsNotStale(d: Disk, plan: Plan, batch: seq<Action>)
    requires AllFine(d, plan, batch)
    ensures !StaleFirst(d, plan, batch)
  {
  }

  /** A conversion that also cleaned up what was completed and left the rest alone. */
  ghost predicate ConvertedCleanly(d: Disk, after: Disk, run: RunId) {
    && ConvertedAt(d, after, run)
    && GoneBelow(after, BoundActions(d.runs[run].cursor), d.runs[run].cursor.nextIndex)
    && SameFrom(d, after, BoundActions(d.runs[run].cursor), d.runs[run].cursor.nextIndex)
  }

  lemma CleanlyConverted(d: Disk, clean: Disk, after: Disk, run: RunId)
    requires run in d.runs && clean.runs == d.runs && ConvertedAt(clean, after, run) && SameArtifacts(clean, after)
    requires GoneBelow(clean, BoundActions(d.runs[run].cursor), d.runs[run].cursor.nextIndex)
    requires SameFrom(d, clean, BoundActions(d.runs[run].cursor), d.runs[run].cursor.nextIndex)
    ensures ConvertedCleanly(d, after, run)
  {
    var actions, next := BoundActions(d.runs[run].cursor), d.runs[run].cursor.nextIndex;
    forall i | 0 <= i < next && i < |actions| ensures StateOf(after, actions[i]) == Absent {
      assert StateOf(clean, actions[i]) == Absent;
    }
    forall i | 0 <= i < |actions| && next <= i ensures SameFor(d, after, actions[i]) {
      assert SameFor(d, clean, actions[i]);
    }
  }

  lemma FittingAreSafe(d: Disk, plan: Plan, actions: seq<Action>)
    requires DistinctNames(plan.backups) && AllFit(d, actions, CurrentActions(d, plan))
    ensures NoneUnsafe(d, actions)
  {
    forall i | 0 <= i < |actions| ensures StateOf(d, actions[i]) != Unsafe {
      FittingIsFine(d, plan, actions[i]);
    }
  }

  // ---------------------------------------------------------------- how it fared

  lemma OnCourseAdvances(d: Disk, plan: Plan, run: RunId)
    requires OnCourse(d, plan, run)
    ensures FateOf(d, plan, run) == Advances
  {
    OnCourseIsReady(d, plan, run);
  }

  /** With one pending run, loading fails only if that run is out of bounds, and then it is left alone. */
  lemma NotLoaded(d: Disk, plan: Plan, subject: Label)
    requires |PendingOf(d, subject)| > 1 || exists run | run in PendingOf(d, subject) :: !InBounds(d.runs[run].cursor)
    ensures PendingOf(d, subject) != {}
    ensures forall run | PendingOf(d, subject) == {run} :: FateOf(d, plan, run) == Untouched
    ensures forall run :: !CanFinish(d, plan, subject, run)
  {
  }

  /** A fresh run and its first batch. */
  lemma FreshFares(d: Disk, started: Disk, after: Disk, plan: Plan, subject: Label, run: RunId, end: BatchEnd,
                   superseded: Option<RunId>)
    requires run !in d.runs && FreshFor(d, started, plan, subject, run)
    requires RunMeets(started, after, plan, run, end) && end != Superseded
    ensures after.runs.Keys <= d.runs.Keys + {run} && OnlyAdds(d, after) && run in after.runs
    ensures var outcome := Report(after, run, end, superseded);
            && (outcome.Finished? ==> FinishedAt(after, subject, outcome) && CarriesOut(after, plan, run))
            && (end.Closed? && (end == Closed(Planned) ==> OnCourse(after, plan, run)) ==>
                  Restarted(d, after, plan, run, outcome))
  {
    BatchEndIsAfterInvocation(started.runs[run].cursor);
    if end == Closed(Applied) {
      var actions := Listed(started.runs[run].cursor.root);
      assert CollectedBelow(after, actions, |actions|);
      CollectedMeansDone(d, plan, actions, after);
    }
  }

  /** A run that was ended, and what was started after it. */
  lemma ReplacedFares(d: Disk, ended: Disk, after: Disk, plan: Plan, run: RunId, newRun: RunId, outcome: Outcome,
                      code: FailureCode, undisturbed: bool)
    requires DistinctNames(plan.backups)
    requires WrittenOffAt(ended, run, code) && KeepsReady(d, ended) && ended.releases == d.releases
    requires OnlyAdds(ended, after)
    requires outcome.Finished? ==> outcome.supersededRun == Some(run)
    requires undisturbed && CanRestart(ended, plan) ==> Restarted(ended, after, plan, newRun, outcome)
    ensures run in after.runs && after.runs[run].status == Failed
    ensures undisturbed ==> Fared(d, after, plan, run, newRun, outcome, Replaced(code))
  {
    if CanRestart(d, plan) {
      RestartIsKept(d, ended, plan);
    }
  }

  /** A converted run fares as the indexed one it has become. */
  lemma ConvertedFares(d: Disk, converted: Disk, after: Disk, plan: Plan, run: RunId, newRun: RunId, outcome: Outcome,
                       undisturbed: bool)
    requires ConvertedAt(d, converted, run) && WellFormed(converted.runs[run].cursor)
    requires IndexedFate(converted, plan, run) == LegacyFate(d, plan, run)
    requires !Clashes(d, plan, run) && Convertible(d, plan, run)
    requires undisturbed ==>
               Fared(converted, after, plan, run, newRun, outcome, IndexedFate(converted, plan, run))
    ensures undisturbed ==> Fared(d, after, plan, run, newRun, outcome, LegacyFate(d, plan, run))
  {
  }

  /** The end of a batch tells the fate of the run. */
  lemma BatchFares(d: Disk, plan: Plan, run: RunId, end: BatchEnd)
    requires run in d.runs && WellFormed(d.runs[run].cursor)
    requires end.Closed? <==> BatchReady(d, plan, run)
    requires end == Superseded <==> BatchOutdated(d, plan, run)
    ensures IndexedFate(d, plan, run)
            == if end.Closed? then Advances else if end == Superseded then Replaced(PlanSuperseded) else WrittenOff
  {
  }

  /** Dropping orphans first makes no difference to what the invocation did. */
  lemma OrphansKeepOutcome(d: Disk, clean: Disk, after: Disk, plan: Plan, subject: Label, newRun: RunId,
                           outcome: Outcome)
    requires OnlyOrphansDropped(d, clean) && PendingOf(clean, subject) == PendingOf(d, subject)
    ensures outcome.Finished? && Attributed(clean, after, plan, subject, newRun, outcome) ==>
              Attributed(d, after, plan, subject, newRun, outcome)
    ensures Restarted(clean, after, plan, newRun, outcome) ==> Restarted(d, after, plan, newRun, outcome)
    ensures OnlyAdds(clean, after) ==> OnlyAdds(d, after)
  {
  }

  lemma OrphansKeepFared(d: Disk, clean: Disk, after: Disk, plan: Plan, subject: Label, run: RunId, newRun: RunId,
                         outcome: Outcome)
    requires OnlyOrphansDropped(d, clean) && PendingOf(d, subject) == {run}
    requires Fared(clean, after, plan, run, newRun, outcome, FateOf(clean, plan, run))
    ensures Fared(d, after, plan, run, newRun, outcome, FateOf(d, plan, run))
  {
    assert run in PendingOf(d, subject);
    OrphansKeepFate(d, clean, plan, run);
    OrphansDoNotMatter(d, clean, plan, subject);
  }

  // ---------------------------------------------------------------- a crash between the two unlinks

  /** The marker may stay behind when its backup is gone. */
  predicate SurvivesUnlink(d: Disk, action: Action) {
    action.Release? || (action.name in d.markers && Matches(d.markers[action.name], action))
  }

  lemma UnlinkKeepsCleanup(d: Disk, run: RunId, action: Action)
    requires Pending(d, run) && PrefixCollected(d, d.runs[run].cursor) && !ArtifactGone(d, action)
    ensures var after, cursor := Apply(d, RemoveArtifact(run, action)), d.runs[run].cursor;
            && CleanupReady(after, cursor) == CleanupReady(d, cursor)
            && StateOf(Cleaned(after, cursor), action) == StateOf(after, action)
  {
  }

  lemma UnlinkKeepsReady(d: Disk, plan: Plan, run: RunId, action: Action, other: Action)
    requires Ready(d, plan, other) && Removable(d, action) && SurvivesUnlink(d, action)
    requires CheckPlanned(d, plan, action) == StillPlanned
    ensures Ready(Apply(d, RemoveArtifact(run, action)), plan, other)
  {
  }

  /** At the one point where the artifact is gone and its row not yet written, a crash leaves the run on course
      if and only if it was a release, or its marker agrees with the plan on the size: a marker that vouches
      for the backup with another size is unsafe once the backup is gone.  Then the next invocation with the
      same plan writes the run off, and no plan can make it go on. */
  lemma CrashAfterUnlinkIff(d: Disk, plan: Plan, run: RunId, action: Action)
    requires Inv(d) && OnCourse(d, plan, run) && MayRemove(plan, d, run, action)
    ensures var after := Apply(d, RemoveArtifact(run, action));
            && FateOf(after, plan, run) == (if SurvivesUnlink(d, action) then Advances else WrittenOff)
            && (OnCourse(after, plan, run) <==> SurvivesUnlink(d, action))
            && (!SurvivesUnlink(d, action) ==> forall other: Plan :: FateOf(after, other, run) != Advances)
  {
    if SurvivesUnlink(d, action) {
      UnlinkStaysOnCourse(d, plan, run, action);
    } else {
      UnlinkIsUnsafe(d, plan, run, action);
    }
  }

  lemma UnlinkStaysOnCourse(d: Disk, plan: Plan, run: RunId, action: Action)
    requires Inv(d) && OnCourse(d, plan, run) && MayRemove(plan, d, run, action) && SurvivesUnlink(d, action)
    ensures var after := Apply(d, RemoveArtifact(run, action));
            OnCourse(after, plan, run) && FateOf(after, plan, run) == Advances
  {
    var after, cursor := Apply(d, RemoveArtifact(run, action)), d.runs[run].cursor;
    var actions := Listed(cursor.root);
    assert PrefixCollected(d, cursor);
    UnlinkKeepsCleanup(d, run, action);
    forall i | cursor.nextIndex <= i < |actions| ensures Ready(after, plan, actions[i]) {
      assert Ready(d, plan, actions[i]);
      UnlinkKeepsReady(d, plan, run, action, actions[i]);
    }
    OnCourseAdvances(after, plan, run);
  }

  lemma UnlinkIsUnsafe(d: Disk, plan: Plan, run: RunId, action: Action)
    requires Inv(d) && OnCourse(d, plan, run) && MayRemove(plan, d, run, action) && !SurvivesUnlink(d, action)
    ensures var after := Apply(d, RemoveArtifact(run, action));
            && !OnCourse(after, plan, run) && FateOf(after, plan, run) == WrittenOff
            && forall other: Plan :: FateOf(after, other, run) != Advances
  {
    var after, cursor := Apply(d, RemoveArtifact(run, action)), d.runs[run].cursor;
    assert PrefixCollected(d, cursor);
    UnlinkKeepsCleanup(d, run, action);
    var clean, batch := Cleaned(after, cursor), NextActions(cursor);
    assert batch[0] == action && StateOf(clean, batch[0]) == Unsafe;
    assert StateOf(after, Listed(cursor.root)[cursor.nextIndex]) == Unsafe;
    forall other: Plan ensures !BatchReady(after, other, run) && !BatchOutdated(after, other, run) {
      UnsafeFirst(clean, other, batch);
    }
  }

  /** A batch that begins with an unsafe action is neither ready nor outdated. */
  lemma UnsafeFirst(d: Disk, plan: Plan, batch: seq<Action>)
    requires batch != [] && StateOf(d, batch[0]) == Unsafe
    ensures !BatchIsReady(d, plan, batch) && !StaleFirst(d, plan, batch)
  {
    assert !Ready(d, plan, batch[0]);
    forall i | 0 < i < |batch| ensures !AllFine(d, plan, batch[..i]) {
      assert batch[..i][0] == batch[0];
    }
  }

  /** It does happen: one backup whose marker names another size, and a run that stands at it. */
  lemma CrashLosesRun(name: Name, size: int, sha: Sha, other: int)
    requires other != size
    ensures var action := Backup(name, size, sha);
            var plan := Plan(0, [], [Detail(name, size, sha)], 0, 0);
            var root := ChainFrom([action], 0);
            var cursor := Cursor(5, 0, 1, root, root, Some(0), 0, 0, [], None);
            var d := Disk(map[0 := Run(0, 0, Planned, cursor, 0, None)], map[0 := IndexOf([action])], map[], map[],
                          map[name := BackupFile(sha, size)],
                          map[name := Marker(true, name, sha, true, Some(other))]);
            && Inv(d) && OnCourse(d, plan, 0) && MayRemove(plan, d, 0, action)
            && FateOf(Apply(d, RemoveArtifact(0, action)), plan, 0) == WrittenOff
  {
    var action := Backup(name, size, sha);
    var plan := Plan(0, [], [Detail(name, size, sha)], 0, 0);
    var root := ChainFrom([action], 0);
    var cursor := Cursor(5, 0, 1, root, root, Some(0), 0, 0, [], None);
    var d := Disk(map[0 := Run(0, 0, Planned, cursor, 0, None)], map[0 := IndexOf([action])], map[], map[],
                  map[name := BackupFile(sha, size)], map[name := Marker(true, name, sha, true, Some(other))]);
    ChainIsAnchored([action]);
    FindDetailFinds(plan.backups, name);
    assert plan.backups[0] in plan.backups;
    assert CheckPlanned(d, plan, action) == StillPlanned;
    CrashAfterUnlinkIff(d, plan, 0, action);
  }
}
