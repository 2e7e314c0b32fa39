/** The decisions `apply_resumable_gc` takes between durable writes, and what each of them means for
    the protocol (scripts/deployment-maintenance.py). */
module GcWork {
  import opened Wrappers
  import opened GcIndex
  import opened GcProtocol
  import opened GcRuns

  datatype Fault = Proceed | Raise | Crash

  /** How a piece of the program ended: normally, with an exception, or not at all. */
  datatype Flow = Done | Raised | Crashed

  datatype Verdict = AllPlanned | FoundStale | Unreadable

  datatype Compatibility = Compatible | Incompatible | Undecided

  datatype BatchEnd = Closed(status: Status) | Superseded | BatchRaised | BatchCrashed

  datatype Conversion = Converted | Clashing | ConversionRaised | ConversionCrashed

  datatype Outcome =
    | Finished(run: RunId, status: Status, remaining: int, supersededRun: Option<RunId>)
    | GcRaised
    | GcCrashed

  /** What revalidation finds of one action: fine if it is gone or still planned, stale if it is present and
      the plan has changed under it. */
  function Judge(d: Disk, plan: Plan, action: Action): Verdict {
    match StateOf(d, action)
    case Unsafe => Unreadable
    case Present =>
      (match CheckPlanned(d, plan, action)
       case StillPlanned => AllPlanned
       case PlanChanged => FoundStale
       case CheckFailed => Unreadable)
    case _ => AllPlanned
  }

  predicate AllFine(d: Disk, plan: Plan, batch: seq<Action>) {
    forall i | 0 <= i < |batch| :: Judge(d, plan, batch[i]) == AllPlanned
  }

  /** The first action of the batch that is not fine is stale. */
  ghost predicate StaleFirst(d: Disk, plan: Plan, batch: seq<Action>) {
    exists i | 0 <= i < |batch| :: Judge(d, plan, batch[i]) == FoundStale && AllFine(d, plan, batch[..i])
  }

  /** The artifact can be dealt with without an exception. */
  predicate Ready(d: Disk, plan: Plan, action: Action) {
    match StateOf(d, action)
    case Unsafe => false
    case Present => CheckPlanned(d, plan, action) == StillPlanned && Removable(d, action)
    case _ => true
  }

  predicate BatchIsReady(d: Disk, plan: Plan, batch: seq<Action>) {
    forall i | 0 <= i < |batch| :: Ready(d, plan, batch[i])
  }

  lemma ReadyIsFine(d: Disk, plan: Plan, batch: seq<Action>)
    requires BatchIsReady(d, plan, batch)
    ensures AllFine(d, plan, batch) && !StaleFirst(d, plan, batch)
  {
    forall i | 0 <= i < |batch| ensures Judge(d, plan, batch[i]) == AllPlanned {
      assert Ready(d, plan, batch[i]);
    }
  }

  lemma FirstBad(d: Disk, plan: Plan, batch: seq<Action>, i: nat)
    requires i < |batch| && AllFine(d, plan, batch[..i])
    ensures Judge(d, plan, batch[i]) == AllPlanned ==> AllFine(d, plan, batch[..i + 1])
    ensures Judge(d, plan, batch[i]) != AllPlanned ==> !AllFine(d, plan, batch)
    ensures Judge(d, plan, batch[i]) != AllPlanned ==>
              (StaleFirst(d, plan, batch) <==> Judge(d, plan, batch[i]) == FoundStale)
  {
    forall k | 0 <= k < i ensures Judge(d, plan, batch[k]) == AllPlanned {
      assert batch[..i][k] == batch[k];
    }
    forall k | i < k < |batch| ensures AllFine(d, plan, batch[..k]) ==> Judge(d, plan, batch[i]) == AllPlanned {
      assert batch[..k][i] == batch[i];
    }
  }

  function BatchEndOf(cursor: Cursor): int {
    if cursor.nextIndex + MAX_ACTIONS < cursor.actionCount then cursor.nextIndex + MAX_ACTIONS
    else cursor.actionCount
  }

  function NextActions(cursor: Cursor): seq<Action>
    requires WellFormed(cursor)
  {
    Listed(cursor.root)[cursor.nextIndex..BatchEndOf(cursor)]
  }

  /** The index file still holds the next batch. */
  ghost predicate IndexHolds(d: Disk, run: RunId)
    requires run in d.runs && WellFormed(d.runs[run].cursor)
  {
    var cursor := d.runs[run].cursor;
    run in d.indexes && Intact(Listed(cursor.root), d.indexes[run], cursor.nextIndex, BatchEndOf(cursor))
  }

  /** The marker cleanup owed by the cursor can be finished. */
  predicate CleanupReady(d: Disk, cursor: Cursor) {
    cursor.cleanup.Some? ==> StateOf(d, cursor.cleanup.value) != Unsafe
  }

  /** The disk once that is done. */
  function Cleaned(d: Disk, cursor: Cursor): Disk {
    if cursor.cleanup.Some? && StateOf(d, cursor.cleanup.value) == MarkerOnly
    then Without(d, cursor.cleanup.value) else d
  }

  /** The next batch can be read and every action of it is ready. */
  ghost predicate BatchReady(d: Disk, plan: Plan, run: RunId)
    requires run in d.runs && WellFormed(d.runs[run].cursor)
  {
    var cursor := d.runs[run].cursor;
    CleanupReady(d, cursor) && IndexHolds(d, run) && BatchIsReady(Cleaned(d, cursor), plan, NextActions(cursor))
  }

  /** The next batch can be read, and its first action that is not fine is stale. */
  ghost predicate BatchOutdated(d: Disk, plan: Plan, run: RunId)
    requires run in d.runs && WellFormed(d.runs[run].cursor)
  {
    var cursor := d.runs[run].cursor;
    CleanupReady(d, cursor) && IndexHolds(d, run) && StaleFirst(Cleaned(d, cursor), plan, NextActions(cursor))
  }

  lemma ReadyIsNotOutdated(d: Disk, plan: Plan, run: RunId)
    requires run in d.runs && WellFormed(d.runs[run].cursor) && BatchReady(d, plan, run)
    ensures !BatchOutdated(d, plan, run)
  {
    var cursor := d.runs[run].cursor;
    ReadyIsFine(Cleaned(d, cursor), plan, NextActions(cursor));
  }

  // ---------------------------------------------------------------- plans and fresh runs

  /** With distinct names, looking a detail up by name finds it exactly when the plan has it. */
  lemma FoundIffPlanned(plan: Plan, name: Name, size: int, sha: Sha)
    requires DistinctNames(plan.backups)
    ensures FindDetail(plan.backups, name) == Some(Detail(name, size, sha)) <==> Detail(name, size, sha) in plan.backups
    ensures FindDetail(plan.backups, name).Some? ==> FindDetail(plan.backups, name).value.name == name
  {
    FindDetailFinds(plan.backups, name);
  }

  /** What revalidation says of an action, in terms of the disk and the plan alone: it is stale if its artifact is
      there and the plan has dropped it or the release has another marker, and it cannot be decided if a planned
      release has no marker or a marker without its backup is somebody else's. */
  lemma JudgeIff(d: Disk, plan: Plan, action: Action)
    requires DistinctNames(plan.backups)
    ensures Judge(d, plan, action) == FoundStale <==>
              match action
              case Release(name, markerSha) =>
                && name in d.releases
                && (name !in plan.releases
                    || (d.releases[name].marker.Some? && d.releases[name].marker.value.sha != markerSha))
              case Backup(name, size, sha) => name in d.backups && Detail(name, size, sha) !in plan.backups
    ensures Judge(d, plan, action) == Unreadable <==>
              match action
              case Release(name, _) => name in d.releases && name in plan.releases && d.releases[name].marker.None?
              case Backup(name, size, sha) =>
                && name !in d.backups && name in d.markers
                && d.markers[name] != Marker(true, name, sha, true, None)
                && d.markers[name] != Marker(true, name, sha, true, Some(size))
  {
    if action.Backup? {
      FoundIffPlanned(plan, action.name, action.size, action.sha);
    }
  }

  /** The backup is as its detail says and vouched for by a marker; or it is gone, with no marker left or its own. */
  predicate BackupInOrder(d: Disk, detail: Detail) {
    if detail.name in d.backups then
      && d.backups[detail.name] == BackupFile(detail.sha, detail.size)
      && detail.name in d.markers && d.markers[detail.name].Marker?
      && d.markers[detail.name] == Marker(true, detail.name, detail.sha, true, d.markers[detail.name].size)
    else
      detail.name in d.markers ==>
        || d.markers[detail.name] == Marker(true, detail.name, detail.sha, true, None)
        || d.markers[detail.name] == Marker(true, detail.name, detail.sha, true, Some(detail.size))
  }

  /** When an action can be dealt with, in the same terms. */
  lemma ReadyIff(d: Disk, plan: Plan, action: Action)
    requires DistinctNames(plan.backups)
    ensures Ready(d, plan, action) <==>
              match action
              case Release(name, markerSha) =>
                name in d.releases ==>
                  name in plan.releases && d.releases[name].marker == Some(InstallMarker(markerSha, true))
              case Backup(name, size, sha) =>
                && BackupInOrder(d, Detail(name, size, sha))
                && (name in d.backups ==> Detail(name, size, sha) in plan.backups)
  {
    if action.Backup? {
      FoundIffPlanned(plan, action.name, action.size, action.sha);
    }
  }

  /** A fresh run matches the plan it was made from: this is why superseding ends. */
  lemma FreshActionsArePlanned(d: Disk, plan: Plan, actions: seq<Action>)
    requires Spells(d, plan, actions) && DistinctNames(plan.backups)
    ensures forall action | action in actions :: CheckPlanned(d, plan, action) == StillPlanned
  {
    forall i | 0 <= i < |actions| ensures CheckPlanned(d, plan, actions[i]) == StillPlanned {
      if i < |plan.releases| {
        assert actions[i] == Release(plan.releases[i], d.releases[plan.releases[i]].marker.value.sha);
      } else {
        var detail := plan.backups[i - |plan.releases|];
        assert actions[i] == Backup(detail.name, detail.size, detail.sha);
        FoundIffPlanned(plan, detail.name, detail.size, detail.sha);
        assert detail == Detail(detail.name, detail.size, detail.sha);
      }
    }
  }

  /** The row of a run that has just been inserted for the subject. */
  ghost predicate StartedAt(d: Disk, run: RunId, subject: Label) {
    && Pending(d, run)
    && d.runs[run].subject == subject
    && d.runs[run].cursor.version == 5
    && WellFormed(d.runs[run].cursor)
    && d.runs[run].cursor.nextIndex == 0 && d.runs[run].deletedCount == 0
    && d.runs[run].cursor.planId == Some(d.runs[run].planId)
  }

  predicate InBounds(cursor: Cursor) {
    0 <= cursor.nextIndex <= cursor.actionCount
  }

  /** `_load_pending_backup_gc_run`: every resumable planned row of the subject is checked, and there
      must not be two. */
  method LoadPending(d: Disk, subject: Label) returns (found: Result<Option<RunId>>)
    ensures match found
            case Success(None) => PendingOf(d, subject) == {}
            case Success(Some(run)) => PendingOf(d, subject) == {run} && InBounds(d.runs[run].cursor)
            case Failure(_) =>
              |PendingOf(d, subject)| > 1 || exists run | run in PendingOf(d, subject) :: !InBounds(d.runs[run].cursor)
  {
    var todo, resumable: set<RunId> := d.runs.Keys, {};
    while todo != {}
      invariant todo <= d.runs.Keys
      invariant resumable == PendingOf(d, subject) - todo
      invariant forall run | run in resumable :: InBounds(d.runs[run].cursor)
      decreases todo
    {
      var run :| run in todo;
      PendingWithout(d, subject, todo, run);
      if d.runs[run].subject == subject && d.runs[run].status == Planned && Resumable(d.runs[run].cursor) {
        if !InBounds(d.runs[run].cursor) {
          return Failure("backup_retention_cursor_invalid");
        }
        resumable := resumable + {run};
      }
      todo := todo - {run};
    }
    if |resumable| > 1 {
      return Failure("backup_retention_multiple_pending_runs");
    }
    if resumable == {} {
      return Success(None);
    }
    var run :| run in resumable;
    SingletonIs(resumable, run);
    return Success(Some(run));
  }

  lemma PendingWithout(d: Disk, subject: Label, todo: set<RunId>, run: RunId)
    requires run in todo && run in d.runs
    ensures run in PendingOf(d, subject) <==> Pending(d, run) && d.runs[run].subject == subject
    ensures PendingOf(d, subject) - (todo - {run})
            == PendingOf(d, subject) - todo + if run in PendingOf(d, subject) then {run} else {}
  {
  }

  lemma SingletonIs(s: set<RunId>, x: RunId)
    requires x in s && |s| <= 1
    ensures s == {x}
  {
    assert |s - {x}| == |s| - 1;
  }

  // ---------------------------------------------------------------- legacy plans

  /** `_current_gc_actions_for_resume`. */
  function CurrentReleases(d: Disk, names: seq<Name>): seq<Action> {
    if names == [] then []
    else
      (if names[0] in d.releases && d.releases[names[0]].marker.Some?
       then [Release(names[0], d.releases[names[0]].marker.value.sha)] else [])
      + CurrentReleases(d, names[1..])
  }

  function CurrentBackups(d: Disk, details: seq<Detail>): seq<Action> {
    if details == [] then []
    else
      (if details[0].name in d.backups
       then [Backup(details[0].name, details[0].size, details[0].sha)] else [])
      + CurrentBackups(d, details[1..])
  }

  function CurrentActions(d: Disk, plan: Plan): seq<Action> {
    CurrentReleases(d, plan.releases) + CurrentBackups(d, plan.backups)
  }

  predicate SameKey(a: Action, b: Action) {
    a.name == b.name && (a.Release? <==> b.Release?)
  }

  predicate DistinctKeys(actions: seq<Action>) {
    forall i, j | 0 <= i < j < |actions| ::
      actions[i].name != actions[j].name || actions[i].Release? != actions[j].Release?
  }

  /** The cursor records the policy and the protected set of the plan. */
  predicate UnderPlan(plan: Plan, cursor: Cursor) {
    cursor.policy == plan.policy && cursor.protection == plan.protection
  }

  /** What a resumed plan must satisfy: the current plan adds nothing, and what the persisted plan
      has beyond it is gone from disk. */
  predicate ResumeCompatible(d: Disk, persisted: seq<Action>, current: seq<Action>) {
    && DistinctKeys(current) && DistinctKeys(persisted)
    && (forall action | action in current :: action in persisted)
    && (forall action | action in persisted :: action in current || ArtifactGone(d, action))
  }

  predicate HasKey(actions: seq<Action>, action: Action) {
    exists i | 0 <= i < |actions| :: SameKey(actions[i], action)
  }

  /** What a comparison of the plans finds of one persisted action: it is the current one under its key, or
      has none and is gone. */
  function Fit(d: Disk, action: Action, current: seq<Action>): Compatibility {
    if action in current then Compatible
    else if HasKey(current, action) then Incompatible
    else
      match StateOf(d, action)
      case Unsafe => Undecided
      case Present => Incompatible
      case _ => Compatible
  }

  predicate AllFit(d: Disk, persisted: seq<Action>, current: seq<Action>) {
    forall i | 0 <= i < |persisted| :: Fit(d, persisted[i], current) == Compatible
  }

  predicate NoneUnsafe(d: Disk, actions: seq<Action>) {
    forall i | 0 <= i < |actions| :: StateOf(d, actions[i]) != Unsafe
  }

  /** Some current action has a key the persisted plan lacks, or a plan has a key twice. */
  predicate KeysClash(persisted: seq<Action>, current: seq<Action>) {
    || !DistinctKeys(current) || !DistinctKeys(persisted)
    || exists i | 0 <= i < |current| :: !HasKey(persisted, current[i])
  }

  /** The keys clash, or the first persisted action that does not fit is incompatible. */
  ghost predicate PlansClash(d: Disk, persisted: seq<Action>, current: seq<Action>) {
    || KeysClash(persisted, current)
    || exists i | 0 <= i < |persisted| ::
         Fit(d, persisted[i], current) == Incompatible && AllFit(d, persisted[..i], current)
  }

  lemma ClashIsIncompatible(d: Disk, persisted: seq<Action>, current: seq<Action>)
    requires KeysClash(persisted, current)
    ensures !ResumeCompatible(d, persisted, current)
  {
    if DistinctKeys(current) && DistinctKeys(persisted) {
      var i :| 0 <= i < |current| && !HasKey(persisted, current[i]);
      assert forall k | 0 <= k < |persisted| :: !SameKey(persisted[k], current[i]);
      assert current[i] in current && current[i] !in persisted;
    }
  }

  lemma UnfitIsIncompatible(d: Disk, persisted: seq<Action>, current: seq<Action>, i: nat)
    requires DistinctKeys(persisted) && i < |persisted| && Fit(d, persisted[i], current) == Incompatible
    ensures !ResumeCompatible(d, persisted, current)
  {
    var action := persisted[i];
    assert action in persisted;
    if HasKey(current, action) {
      var k :| 0 <= k < |current| && SameKey(current[k], action);
      forall j | 0 <= j < |persisted| ensures persisted[j] != current[k] {
        assert j < i ==> !SameKey(persisted[j], persisted[i]);
        assert i < j ==> !SameKey(persisted[i], persisted[j]);
      }
      assert current[k] in current && current[k] !in persisted;
    }
  }

  lemma FittingIsCompatible(d: Disk, persisted: seq<Action>, current: seq<Action>)
    requires !KeysClash(persisted, current) && AllFit(d, persisted, current)
    ensures ResumeCompatible(d, persisted, current)
  {
    forall action | action in persisted ensures action in current || ArtifactGone(d, action) {
      var k :| 0 <= k < |persisted| && persisted[k] == action;
      assert Fit(d, persisted[k], current) == Compatible;
    }
    forall c | c in current ensures c in persisted {
      var i :| 0 <= i < |current| && current[i] == c;
      assert HasKey(persisted, current[i]);
      var k :| 0 <= k < |persisted| && SameKey(persisted[k], c);
      FitIsCurrent(d, persisted[k], current, i);
    }
  }

  lemma FitIsCurrent(d: Disk, action: Action, current: seq<Action>, i: nat)
    requires DistinctKeys(current) && i < |current| && SameKey(action, current[i])
    requires Fit(d, action, current) == Compatible
    ensures action == current[i]
  {
    assert SameKey(current[i], action);
    var k :| 0 <= k < |current| && current[k] == action;
    assert SameKey(current[i], current[k]) && SameKey(current[k], current[i]);
  }

  /** `_resume_actions_compatible`, with `Undecided` for the exception that an unsafe marker raises. */
  method CheckCompatible(d: Disk, persisted: seq<Action>, current: seq<Action>) returns (verdict: Compatibility)
    ensures verdict == Compatible <==> !KeysClash(persisted, current) && AllFit(d, persisted, current)
    ensures verdict == Incompatible <==> PlansClash(d, persisted, current)
    ensures verdict == Compatible ==> ResumeCompatible(d, persisted, current)
    ensures verdict == Incompatible ==> !ResumeCompatible(d, persisted, current)
  {
    if KeysClash(persisted, current) {
      ClashIsIncompatible(d, persisted, current);
      return Incompatible;
    }
    for i := 0 to |persisted|
      invariant AllFit(d, persisted[..i], current)
    {
      verdict := Fit(d, persisted[i], current);
      if verdict != Compatible {
        FirstUnfit(d, persisted, current, i);
        return;
      }
    }
    assert persisted[..|persisted|] == persisted;
    FittingIsCompatible(d, persisted, current);
    NoneUnfit(d, persisted, current);
    return Compatible;
  }

  lemma FirstUnfit(d: Disk, persisted: seq<Action>, current: seq<Action>, i: nat)
    requires !KeysClash(persisted, current) && i < |persisted| && AllFit(d, persisted[..i], current)
    requires Fit(d, persisted[i], current) != Compatible
    ensures !AllFit(d, persisted, current)
    ensures PlansClash(d, persisted, current) <==> Fit(d, persisted[i], current) == Incompatible
    ensures Fit(d, persisted[i], current) == Incompatible ==> !ResumeCompatible(d, persisted, current)
  {
    if Fit(d, persisted[i], current) == Incompatible {
      UnfitIsIncompatible(d, persisted, current, i);
    }
    forall k | 0 <= k < i ensures Fit(d, persisted[k], current) == Compatible {
      assert persisted[..i][k] == persisted[k];
    }
    forall k | i < k < |persisted| ensures !AllFit(d, persisted[..k], current) {
      assert persisted[..k][i] == persisted[i];
    }
  }

  lemma NoneUnfit(d: Disk, persisted: seq<Action>, current: seq<Action>)
    requires !KeysClash(persisted, current) && AllFit(d, persisted, current)
    ensures !PlansClash(d, persisted, current)
  {
  }

  // ---------------------------------------------------------------- what removals keep

  /** What the collector changes while it works on a batch: artifacts go, rows of other runs and the
      evidence files stay. */
  ghost predicate OnlyRemoves(d: Disk, after: Disk) {
    Shrinks(d, after) && after.indexes == d.indexes && after.manifests == d.manifests
  }

  /** While rows are written, artifacts only go and only the row of `run` changes, staying the same run. */
  ghost predicate RunProgresses(d: Disk, after: Disk, run: RunId) {
    && ArtifactsShrink(d, after)
    && run in d.runs && run in after.runs
    && after.runs == d.runs[run := after.runs[run]]
    && SameRun(d.runs[run], after.runs[run])
  }

  /** The part of a row that progress leaves alone. */
  predicate SameRun(was: Run, now: Run) {
    now.subject == was.subject && now.planId == was.planId && SameCursor(was.cursor, now.cursor)
  }

  /** Only the position, its digest and the owed cleanup differ. */
  predicate SameCursor(was: Cursor, now: Cursor) {
    now.(nextIndex := was.nextIndex, nextSha := was.nextSha, cleanup := was.cleanup) == was
  }

  ghost predicate OnlyProgresses(d: Disk, after: Disk, run: RunId) {
    RunProgresses(d, after, run) && after.indexes == d.indexes && after.manifests == d.manifests
  }

  lemma ProgressComposes(a: Disk, b: Disk, c: Disk, run: RunId)
    requires RunProgresses(a, b, run) && RunProgresses(b, c, run)
    ensures RunProgresses(a, c, run)
  {
  }

  lemma RemovalProgresses(a: Disk, b: Disk, run: RunId)
    requires Shrinks(a, b) && run in a.runs
    ensures RunProgresses(a, b, run)
  {
    assert b.runs == a.runs[run := b.runs[run]];
  }

  lemma UpdateProgresses(d: Disk, run: RunId, status: Status, cursor: Cursor, deletedCount: int,
                         failure: Option<FailureCode>)
    requires run in d.runs
    requires SameCursor(d.runs[run].cursor, cursor)
    ensures RunProgresses(d, Updated(d, run, status, cursor, deletedCount, failure), run)
  {
  }

  /** The disk with the artifact of one action taken away, its marker with it. */
  function Without(d: Disk, action: Action): Disk {
    match action
    case Release(name, _) => d.(releases := d.releases - {name})
    case Backup(name, _, _) => d.(backups := d.backups - {name}, markers := d.markers - {name})
  }

  /** Dealing with one action does not spoil another. */
  lemma ReadyStays(d: Disk, after: Disk, plan: Plan, done: Action, action: Action)
    requires Ready(d, plan, action)
    requires after.releases == Without(d, done).releases
    requires after.backups == Without(d, done).backups && after.markers == Without(d, done).markers
    ensures Ready(after, plan, action)
  {
  }

  /** Nor does it make another one ready that was not, if both were found fine. */
  lemma ReadyWas(d: Disk, after: Disk, plan: Plan, done: Action, action: Action)
    requires Judge(d, plan, action) == AllPlanned && Ready(d, plan, done) && SameArtifacts(Without(d, done), after)
    ensures Ready(after, plan, action) ==> Ready(d, plan, action)
    ensures Judge(after, plan, action) == AllPlanned
  {
  }

  /** The actions of a batch that was read. */
  function ActionsIn(entries: seq<Entry>): (batch: seq<Action>)
    ensures |batch| == |entries|
    ensures forall i | 0 <= i < |entries| :: batch[i] == entries[i].action
  {
    seq(|entries|, i requires 0 <= i < |entries| => entries[i].action)
  }

  lemma ActionsInSlice(actions: seq<Action>, start: nat, end: nat)
    requires start <= end <= |actions|
    ensures ActionsIn(Slice(actions, start, end)) == actions[start..end]
  {
  }

  lemma EntryAt(actions: seq<Action>, start: nat, entries: seq<Entry>, i: nat)
    requires i < |entries| && start + |entries| <= |actions|
    requires entries == Slice(actions, start, start + |entries|)
    ensures entries[i] == Entry(actions[start + i], ChainFrom(actions, start + i + 1))
  {
  }

  lemma IntactAt(actions: seq<Action>, file: IndexFile, start: nat, end: nat, i: nat)
    requires start <= i < end <= |actions| && Intact(actions, file, start, end)
    ensures i in file && file[i] == IndexOf(actions)[i]
  {
  }

  /** `entries` is what the index of the run holds from `first` on, and what its row commits to. */
  ghost predicate InHand(d: Disk, run: RunId, first: int, entries: seq<Entry>) {
    && run in d.runs && run in d.indexes
    && var actions := Listed(d.runs[run].cursor.root);
       && 0 <= first && first + |entries| <= |actions|
       && entries == Slice(actions, first, first + |entries|)
       && Intact(actions, d.indexes[run], first, first + |entries|)
  }

  lemma InHandStays(d: Disk, after: Disk, run: RunId, first: int, entries: seq<Entry>)
    requires InHand(d, run, first, entries) && OnlyProgresses(d, after, run)
    ensures InHand(after, run, first, entries)
  {
  }

  /** The row stands at the next entry of the batch, and the index names it. */
  lemma AtEntry(d: Disk, run: RunId, first: nat, entries: seq<Entry>, i: nat)
    requires Pending(d, run) && WellFormed(d.runs[run].cursor) && InHand(d, run, first, entries)
    requires i < |entries| && d.runs[run].cursor.nextIndex == first + i
    ensures StandsAt(d, run, entries[i].action) && IndexNames(d, run)
    ensures entries[i].following == ChainFrom(Listed(d.runs[run].cursor.root), first + i + 1)
  {
    var actions := Listed(d.runs[run].cursor.root);
    EntryAt(actions, first, entries, i);
    IntactAt(actions, d.indexes[run], first, first + |entries|, first + i);
  }

  /** Once the next action is recorded, only its marker may be left to clean up. */
  lemma RecordedIsReached(d: Disk, run: RunId, action: Action, cursor: Cursor, deletedCount: int)
    requires StandsAt(d, run, action) && StateOf(d, action) in {Absent, MarkerOnly}
    requires cursor == Advanced(d.runs[run].cursor)
    ensures var after := Updated(d, run, Planned, cursor, deletedCount, None);
            && Pending(after, run) && HasReached(after, run, action)
            && ArtifactGone(after, action) && StateOf(after, action) != Unsafe
            && Without(after, action) == Updated(Without(d, action), run, Planned, cursor, deletedCount, None)
            && RunProgresses(d, after, run)
  {
    UpdateProgresses(d, run, Planned, cursor, deletedCount, None);
    assert BoundActions(cursor)[cursor.nextIndex - 1] == action;
  }

  /** The locals of the deletion loop agree with the durable row, and nothing is owed. */
  ghost predicate Working(d: Disk, run: RunId, cursor: Cursor, deletedCount: int) {
    && Pending(d, run)
    && WellFormed(cursor)
    && cursor == d.runs[run].cursor.(cleanup := None)
    && deletedCount == d.runs[run].deletedCount
    && CollectedBelow(d, Listed(cursor.root), cursor.nextIndex)
  }

  /** Progress may be recorded, and if that fails the run may be written off one action ahead. */
  lemma RecordingIsAllowed(plan: Plan, d: Disk, run: RunId, action: Action, before: Cursor, deletedBefore: int)
    requires StandsAt(d, run, action) && ArtifactGone(d, action)
    requires before == d.runs[run].cursor.(cleanup := None) && deletedBefore == d.runs[run].deletedCount
    requires CollectedBelow(d, Listed(before.root), before.nextIndex)
    ensures Allowed(plan, d, AdvanceRun(run, Advanced(before), deletedBefore + 1))
    ensures MayFail(d, run, Advanced(before), deletedBefore + 1)
  {
    assert Advanced(before) == Advanced(d.runs[run].cursor);
  }

  /** The artifact of the next action is gone, its row not yet written. */
  lemma Deleted(d: Disk, run: RunId, action: Action, before: Cursor, deletedBefore: int)
    requires Working(d, run, before, deletedBefore) && StandsAt(d, run, action)
    ensures var gone := Without(d, action);
            var after := Updated(gone, run, Planned, Advanced(before), deletedBefore + 1, None);
            && StandsAt(gone, run, action) && ArtifactGone(gone, action)
            && before == gone.runs[run].cursor.(cleanup := None) && deletedBefore == gone.runs[run].deletedCount
            && CollectedBelow(gone, Listed(before.root), before.nextIndex)
            && OnlyProgresses(d, gone, run) && OnlyProgresses(d, after, run)
            && CollectedBelow(after, Listed(before.root), before.nextIndex + 1)
  {
    var gone := Without(d, action);
    OneMoreCollected(d, gone, Listed(before.root), before.nextIndex);
    RemovalProgresses(d, gone, run);
    UpdateProgresses(gone, run, Planned, Advanced(before), deletedBefore + 1, None);
  }

  lemma PartlyDeleted(d: Disk, after: Disk, run: RunId, before: Cursor, deletedBefore: int)
    requires Working(d, run, before, deletedBefore) && OnlyRemoves(d, after)
    ensures OnlyProgresses(d, after, run) && Pending(after, run) && MayFail(after, run, before, deletedBefore)
  {
    RemovalProgresses(d, after, run);
  }

  lemma CleanIsWorking(d: Disk, run: RunId)
    requires Pending(d, run) && WellFormed(d.runs[run].cursor)
    requires CollectedBelow(d, Listed(d.runs[run].cursor.root), d.runs[run].cursor.nextIndex)
    ensures Working(d, run, d.runs[run].cursor.(cleanup := None), d.runs[run].deletedCount)
  {
  }

  /** Nothing done yet: the run may still be written off as it stands. */
  lemma Idle(d: Disk, run: RunId, cursor: Cursor, deletedCount: int)
    requires Working(d, run, cursor, deletedCount)
    ensures OnlyProgresses(d, d, run) && MayFail(d, run, cursor, deletedCount)
  {
    RemovalProgresses(d, d, run);
  }

  /** The next action done and recorded, the locals agree with the row again. */
  lemma RecordedIsWorking(d: Disk, run: RunId, action: Action, before: Cursor, deletedBefore: int)
    requires run in d.runs && Working(d, run, before, deletedBefore) && before.nextIndex < before.actionCount
    requires var after := Updated(Without(d, action), run, Planned, Advanced(before), deletedBefore + 1, None);
             CollectedBelow(after, Listed(before.root), before.nextIndex + 1)
    ensures var after := Updated(Without(d, action), run, Planned, Advanced(before), deletedBefore + 1, None);
            && Working(after, run, Advanced(before).(cleanup := None), deletedBefore + 1)
            && after.runs[run].cursor == Advanced(before) && SameArtifacts(Without(d, action), after)
  {
  }

  /** A batch was closed with the run at `position`: everything before it is collected, and the run
      is applied exactly when nothing is left. */
  ghost predicate ClosedAt(d: Disk, run: RunId, status: Status, position: int) {
    && run in d.runs
    && d.runs[run].status == status && WellFormed(d.runs[run].cursor)
    && d.runs[run].cursor.nextIndex == position && d.runs[run].cursor.cleanup == None
    && status == (if position < d.runs[run].cursor.actionCount then Planned else Applied)
    && CollectedBelow(d, Listed(d.runs[run].cursor.root), position)
  }

  lemma ClosingRow(d: Disk, run: RunId, status: Status, cursor: Cursor, deletedCount: int)
    requires Working(d, run, cursor, deletedCount)
    requires status == if cursor.nextIndex < cursor.actionCount then Planned else Applied
    ensures var after := Updated(d, run, status, cursor, deletedCount, None);
            RunProgresses(d, after, run) && ClosedAt(after, run, status, cursor.nextIndex)
  {
    UpdateProgresses(d, run, status, cursor, deletedCount, None);
    CollectedStays(d, Updated(d, run, status, cursor, deletedCount, None), Listed(cursor.root), cursor.nextIndex);
  }

  lemma OneMoreCollected(d: Disk, after: Disk, actions: seq<Action>, n: nat)
    requires n < |actions| && CollectedBelow(d, actions, n)
    requires ArtifactsShrink(d, after) && Collected(after, actions[n])
    ensures CollectedBelow(after, actions, n) && CollectedBelow(after, actions, n + 1)
  {
    CollectedStays(d, after, actions, n);
  }

  ghost predicate WrittenOffAt(d: Disk, run: RunId, code: FailureCode) {
    run in d.runs && d.runs[run].status == Failed && d.runs[run].failure == Some(code)
  }

  /** No backup that is still there loses its marker. */
  ghost predicate KeepsLiveMarkers(d: Disk, after: Disk) {
    forall name | name in d.markers && name in d.backups :: name in after.markers
  }

  lemma CollectedStays(d: Disk, after: Disk, actions: seq<Action>, n: int)
    requires ArtifactsShrink(d, after) && CollectedBelow(d, actions, n)
    ensures CollectedBelow(after, actions, n)
  {
    forall i | 0 <= i < n && i < |actions|
      ensures Collected(after, actions[i])
    {
      assert Collected(d, actions[i]);
    }
  }

  /** After the backup file, its marker may go. */
  lemma MarkerIsNext(d: Disk, after: Disk, run: RunId, action: Action)
    requires StandsAt(d, run, action) && action.Backup? && Removable(d, action)
    requires after == d.(backups := d.backups - {action.name})
    ensures MayRemoveMarker(after, run, action.name)
  {
    var cursor := after.runs[run].cursor;
    assert BoundActions(cursor)[cursor.nextIndex] == action;
    assert HasReached(after, run, action);
    assert VouchesFor(after.markers[action.name], action.name, action);
  }

  /** Evidence nobody will need: the run was never recorded, or is applied. */
  predicate Orphan(d: Disk, run: RunId) {
    run !in d.runs || d.runs[run].status == Applied
  }

  /** Only evidence files differ, and those of planned and failed runs do not. */
  ghost predicate OnlyOrphansDropped(d: Disk, after: Disk) {
    && after == d.(indexes := after.indexes, manifests := after.manifests)
    && after.indexes.Keys <= d.indexes.Keys && after.manifests.Keys <= d.manifests.Keys
    && (forall run | run in after.indexes :: after.indexes[run] == d.indexes[run])
    && (forall run | run in after.manifests :: after.manifests[run] == d.manifests[run])
    && (forall run | run in d.indexes && !Orphan(d, run) :: run in after.indexes)
    && (forall run | run in d.manifests && !Orphan(d, run) :: run in after.manifests)
  }

  /** `orphans` is the part of `files` that may go. */
  ghost predicate IsOrphansOf(d: Disk, files: set<RunId>, orphans: set<RunId>) {
    forall run :: run in orphans <==> run in files && Orphan(d, run)
  }

  ghost predicate NoOrphans(d: Disk) {
    forall run | run in d.indexes || run in d.manifests :: run in d.runs && d.runs[run].status != Applied
  }

  predicate SameArtifacts(d: Disk, after: Disk) {
    after.releases == d.releases && after.backups == d.backups && after.markers == d.markers
  }

  /** No action of a plan is stale under that plan. */
  lemma FreshIsNotOutdated(d: Disk, after: Disk, plan: Plan, run: RunId)
    requires DistinctNames(plan.backups) && SameArtifacts(d, after)
    requires run in after.runs && WellFormed(after.runs[run].cursor) && after.runs[run].cursor.cleanup == None
    requires Spells(d, plan, Listed(after.runs[run].cursor.root))
    ensures !BatchOutdated(after, plan, run)
  {
    FreshActionsArePlanned(d, plan, Listed(after.runs[run].cursor.root));
    var cursor := after.runs[run].cursor;
    var batch := NextActions(cursor);
    forall i | 0 <= i < |batch| ensures Judge(after, plan, batch[i]) != FoundStale {
      assert batch[i] == Listed(cursor.root)[cursor.nextIndex + i] && batch[i] in Listed(cursor.root);
      PlannedIsNotStale(d, after, plan, batch[i]);
    }
    NoneStale(after, plan, batch);
  }

  lemma PlannedIsNotStale(d: Disk, after: Disk, plan: Plan, action: Action)
    requires CheckPlanned(d, plan, action) == StillPlanned && SameArtifacts(d, after)
    ensures Judge(after, plan, action) != FoundStale
  {
  }

  lemma NoneStale(d: Disk, plan: Plan, batch: seq<Action>)
    requires forall i | 0 <= i < |batch| :: Judge(d, plan, batch[i]) != FoundStale
    ensures !StaleFirst(d, plan, batch)
  {
  }

  /** The row of a fresh run may be inserted. */
  lemma FreshRow(d: Disk, plan: Plan, run: RunId, actions: seq<Action>, row: Run)
    requires DistinctNames(plan.backups) && run !in d.runs && PendingOf(d, row.subject) == {}
    requires Spells(d, plan, actions)
    requires run in d.indexes && d.indexes[run] == IndexOf(actions)
    requires row.status == Planned && row.deletedCount == 0 && row.cursor.version == 5
    requires row.cursor.nextIndex == 0 && row.cursor.actionCount == |actions| && row.cursor.cleanup == None
    requires row.cursor.root == row.cursor.nextSha == ChainFrom(actions, 0)
    requires row.cursor.planId == Some(row.planId)
    ensures WellFormed(row.cursor) && Listed(row.cursor.root) == actions
    ensures Allowed(plan, d, InsertRun(run, row))
    ensures StartedAt(Apply(d, InsertRun(run, row)), run, row.subject)
    ensures !BatchOutdated(Apply(d, InsertRun(run, row)), plan, run)
  {
    ChainIsAnchored(actions);
    FreshIsNotOutdated(d, Apply(d, InsertRun(run, row)), plan, run);
  }

  lemma OrphanDropComposes(a: Disk, b: Disk, run: RunId)
    requires OnlyOrphansDropped(a, b) && Orphan(b, run)
    ensures OnlyOrphansDropped(a, b.(indexes := b.indexes - {run}))
    ensures OnlyOrphansDropped(a, b.(manifests := b.manifests - {run}))
  {
  }

  /** What a finished invocation reports is what the row says. */
  ghost predicate FinishedAt(d: Disk, subject: Label, outcome: Outcome)
    requires outcome.Finished?
  {
    && outcome.run in d.runs && d.runs[outcome.run].subject == subject
    && var cursor := d.runs[outcome.run].cursor;
       && WellFormed(cursor)
       && ClosedAt(d, outcome.run, outcome.status, cursor.nextIndex)
       && outcome.remaining == cursor.actionCount - cursor.nextIndex
       && (outcome.status == Applied <==> outcome.remaining == 0)
  }

  function Report(d: Disk, run: RunId, end: BatchEnd, superseded: Option<RunId>): Outcome
    requires end != Superseded && run in d.runs
  {
    match end
    case Closed(status) =>
      Finished(run, status, d.runs[run].cursor.actionCount - d.runs[run].cursor.nextIndex, superseded)
    case BatchCrashed => GcCrashed
    case _ => GcRaised
  }

  /** The retention policy or the protected set is not the one the run was planned under. */
  predicate PlanMovedOn(plan: Plan, cursor: Cursor) {
    cursor.version != 2 && (cursor.policy != plan.policy || cursor.protection != plan.protection)
  }

  predicate EvidenceMissing(d: Disk, run: RunId)
    requires run in d.runs
  {
    || (d.runs[run].cursor.version == 5 && run !in d.indexes)
    || (d.runs[run].cursor.version == 4 && run !in d.manifests)
  }

  /** Everything the plan lists can be carried out: the releases are there and have passed verification, and the
      backups are in order. */
  predicate CanRestart(d: Disk, plan: Plan) {
    && (forall name | name in plan.releases ::
          name in d.releases && d.releases[name].marker.Some? && d.releases[name].marker.value.passed)
    && (forall detail | detail in plan.backups :: BackupInOrder(d, detail))
  }

  /** That is: every action the plan spells is ready. */
  lemma RestartIff(d: Disk, plan: Plan, actions: seq<Action>)
    requires Spells(d, plan, actions) && DistinctNames(plan.backups)
    ensures CanRestart(d, plan) <==> forall action | action in actions :: Ready(d, plan, action)
  {
    SpelledIsPlanned(d, plan, actions);
    forall action | action in actions && CanRestart(d, plan) ensures Ready(d, plan, action) {
      ReadyIff(d, plan, action);
    }
    if forall action | action in actions :: Ready(d, plan, action) {
      forall name | name in plan.releases ensures d.releases[name].marker.value.passed {
        ReadyIff(d, plan, Release(name, d.releases[name].marker.value.sha));
      }
      forall detail | detail in plan.backups ensures BackupInOrder(d, detail) {
        ReadyIff(d, plan, Backup(detail.name, detail.size, detail.sha));
        assert detail == Detail(detail.name, detail.size, detail.sha);
      }
    }
  }

  /** An undisturbed invocation will start a run and finish its first batch. */
  ghost predicate CanStart(d: Disk, plan: Plan, subject: Label) {
    PendingOf(d, subject) == {} && CanRestart(d, plan)
  }

  lemma OrphansDoNotMatter(d: Disk, after: Disk, plan: Plan, subject: Label)
    requires OnlyOrphansDropped(d, after)
    ensures PendingOf(after, subject) == PendingOf(d, subject)
    ensures CanRestart(d, plan) ==> CanRestart(after, plan)
  {
    assert forall run :: Pending(after, run) <==> Pending(d, run);
    assert forall detail :: BackupInOrder(after, detail) <==> BackupInOrder(d, detail);
  }

  lemma StillPending(d: Disk, after: Disk, subject: Label, run: RunId)
    requires PendingOf(d, subject) == {run} && ConvertedAt(d, after, run)
    ensures PendingOf(after, subject) == {run} && after.runs.Keys == d.runs.Keys
    ensures after.runs[run].subject == subject
  {
    assert run in PendingOf(d, subject);
    assert forall r :: Pending(after, r) <==> Pending(d, r);
    assert forall r :: r in PendingOf(after, subject) <==> r in PendingOf(d, subject);
  }

  /** The batch bound of the program is the one the invocation count is about. */
  lemma BatchEndIsAfterInvocation(cursor: Cursor)
    requires WellFormed(cursor)
    ensures BatchEndOf(cursor) == AfterInvocation(|Listed(cursor.root)|, cursor.nextIndex)
    ensures BatchEndOf(cursor) == if cursor.nextIndex + 1000 < cursor.actionCount then cursor.nextIndex + 1000
                                  else cursor.actionCount
  {
  }

  /** A pending run may be written off as it stands, and then its subject has none. */
  lemma FailureLeavesNone(d: Disk, subject: Label, run: RunId, code: FailureCode)
    requires PendingOf(d, subject) == {run} && run in d.runs
    ensures MayFail(d, run, d.runs[run].cursor, d.runs[run].deletedCount)
    ensures var after := Updated(d, run, Failed, d.runs[run].cursor, d.runs[run].deletedCount, Some(code));
            PendingOf(after, subject) == {} && after.runs.Keys == d.runs.Keys
  {
    assert run in PendingOf(d, subject);
    var after := Updated(d, run, Failed, d.runs[run].cursor, d.runs[run].deletedCount, Some(code));
    assert forall r :: r in PendingOf(after, subject) ==> r in PendingOf(d, subject) && r != run;
  }

  /** Once its only pending run is terminal, a subject has none. */
  lemma NonePending(d: Disk, after: Disk, subject: Label, run: RunId)
    requires PendingOf(d, subject) == {run} && RunProgresses(d, after, run) && after.runs[run].status == Failed
    ensures PendingOf(after, subject) == {} && after.runs.Keys == d.runs.Keys
  {
    assert forall r :: Pending(after, r) ==> r != run && Pending(d, r) && after.runs[r] == d.runs[r];
    assert forall r :: r in PendingOf(after, subject) ==> r in PendingOf(d, subject) && r != run;
  }

  /** A legacy run became an indexed one: same list, same position, same count. */
  ghost predicate ConvertedAt(d: Disk, after: Disk, run: RunId) {
    && Pending(d, run) && Pending(after, run)
    && after.runs == d.runs[run := after.runs[run]]
    && after.runs[run].cursor.version == 5
    && Listed(after.runs[run].cursor.root) == BoundActions(d.runs[run].cursor)
    && after.runs[run].cursor.nextIndex == d.runs[run].cursor.nextIndex
    && after.runs[run].cursor.cleanup == d.runs[run].cursor.cleanup
    && after.runs[run].deletedCount == d.runs[run].deletedCount
    && after.runs[run].subject == d.runs[run].subject
    && run in after.indexes && after.indexes[run] == IndexOf(BoundActions(d.runs[run].cursor))
  }

  /** Nothing is left of the actions before a position, not even a marker. */
  ghost predicate GoneBelow(d: Disk, actions: seq<Action>, n: int) {
    forall i | 0 <= i < n && i < |actions| :: StateOf(d, actions[i]) == Absent
  }

  lemma GoneIsCollected(d: Disk, actions: seq<Action>, n: int)
    requires GoneBelow(d, actions, n)
    ensures CollectedBelow(d, actions, n)
  {
    forall i | 0 <= i < n && i < |actions| ensures Collected(d, actions[i]) {
      assert StateOf(d, actions[i]) == Absent;
    }
  }

  /** What can be done about an action is what could be done before. */
  predicate SameFor(d: Disk, after: Disk, action: Action) {
    StateOf(after, action) == StateOf(d, action) && Removable(after, action) == Removable(d, action)
  }

  ghost predicate SameFrom(d: Disk, after: Disk, actions: seq<Action>, n: int) {
    forall i | 0 <= i < |actions| && n <= i :: SameFor(d, after, actions[i])
  }

  lemma OtherKeyIsLeft(start: Disk, d: Disk, done: Action, action: Action)
    requires !SameKey(done, action) && SameFor(start, d, action)
    ensures SameFor(start, Without(d, done), action)
  {
  }

  /** Cleaning up one completed action leaves those after it alone. */
  lemma CleanupLeavesRest(start: Disk, d: Disk, actions: seq<Action>, i: nat)
    requires DistinctKeys(actions) && i < |actions| && SameFrom(start, d, actions, i)
    ensures SameFrom(start, Without(d, actions[i]), actions, i + 1)
  {
    forall k | i < k < |actions| ensures SameFor(start, Without(d, actions[i]), actions[k]) {
      OtherKeyIsLeft(start, d, actions[i], actions[k]);
    }
  }

  /** Only markers were removed. */
  ghost predicate OnlyMarkersGo(d: Disk, after: Disk) {
    OnlyRemoves(d, after) && after.releases == d.releases && after.backups == d.backups
  }

  /** The first `n` completed actions have been cleaned up, and nothing else has changed. */
  ghost predicate CleanedTo(d: Disk, after: Disk, actions: seq<Action>, n: int) {
    OnlyMarkersGo(d, after) && GoneBelow(after, actions, n) && SameFrom(d, after, actions, n)
  }

  /** Cleaning up the next one. */
  lemma CleanedNext(start: Disk, d: Disk, actions: seq<Action>, i: nat)
    requires CleanedTo(start, d, actions, i) && DistinctKeys(actions) && i < |actions| && ArtifactGone(d, actions[i])
    ensures CleanedTo(start, Without(d, actions[i]), actions, i + 1)
    ensures StateOf(d, actions[i]) == Absent ==> Without(d, actions[i]) == d
    ensures StateOf(d, actions[i]) == StateOf(start, actions[i])
  {
    assert SameFor(start, d, actions[i]);
    OneMoreGone(d, actions, i);
    CleanupLeavesRest(start, d, actions, i);
    assert Without(d, actions[i]).releases == d.releases && Without(d, actions[i]).backups == d.backups;
  }

  lemma OneMoreGone(d: Disk, actions: seq<Action>, i: nat)
    requires i < |actions| && GoneBelow(d, actions, i) && ArtifactGone(d, actions[i])
    ensures GoneBelow(Without(d, actions[i]), actions, i + 1)
  {
    var after := Without(d, actions[i]);
    forall k | 0 <= k < i + 1 && k < |actions| ensures StateOf(after, actions[k]) == Absent {
      assert k < i ==> StateOf(d, actions[k]) == Absent;
    }
  }

  /** Storing an index changes nothing a conversion looks at. */
  lemma StoredIndexChangesNothingElse(d: Disk, run: RunId, file: IndexFile, actions: seq<Action>, n: int)
    requires CollectedBelow(d, actions, n)
    ensures CollectedBelow(d.(indexes := d.indexes[run := file]), actions, n)
    ensures forall after ::
              ConvertedAt(d.(indexes := d.indexes[run := file]), after, run) ==> ConvertedAt(d, after, run)
  {
    CollectedStays(d, d.(indexes := d.indexes[run := file]), actions, n);
  }

  /** The migrated cursor may be written. */
  lemma ConversionIsAllowed(plan: Plan, d: Disk, run: RunId, cursor: Cursor)
    requires Pending(d, run) && d.runs[run].cursor.version != 5
    requires var was := d.runs[run].cursor; var actions := BoundActions(was);
             && 0 <= was.nextIndex <= |actions|
             && run in d.indexes && d.indexes[run] == IndexOf(actions)
             && CollectedBelow(d, actions, was.nextIndex)
             && cursor.version == 5 && cursor.root == ChainFrom(actions, 0)
             && cursor.nextSha == ChainFrom(actions, was.nextIndex)
             && cursor.nextIndex == was.nextIndex && cursor.actionCount == |actions|
             && cursor.cleanup == was.cleanup
    ensures Allowed(plan, d, ConvertRun(run, cursor))
    ensures ConvertedAt(d, Apply(d, ConvertRun(run, cursor)), run)
  {
    ChainIsAnchored(BoundActions(d.runs[run].cursor));
  }
}
