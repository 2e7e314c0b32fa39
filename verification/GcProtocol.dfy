/** Resumable garbage collection as a protocol over durable state
    (scripts/deployment-maintenance.py).

    `Disk` is everything that survives a crash.  A `Step` is one durable write; `Allowed` is
    when the protocol permits it.  A crash needs no step: it is a trace that stops, so what holds
    of every legal trace holds wherever the process dies. */
module GcProtocol {
  import opened Wrappers
  import opened GcIndex

  /** Run and subject identities, plan ids, and the digests of policy and protected set. */
  type RunId = nat
  type Label = nat

  datatype Status = Planned | Applied | Failed

  datatype FailureCode = PlanSuperseded | EvidenceUnavailable | ErrorRaised

  /** The JSON cursor of an audit row.  `root` is `manifest_sha256`; `legacy` is the action list a
      version 2 or 3 cursor carries itself. */
  datatype Cursor = Cursor(
    version: int, nextIndex: int, actionCount: int, root: Digest, nextSha: Digest,
    planId: Option<Label>, policy: Label, protection: Label,
    legacy: seq<Action>, cleanup: Option<Action>)

  datatype Run = Run(subject: Label, planId: Label, status: Status, cursor: Cursor,
                     deletedCount: int, failure: Option<FailureCode>)

  /** A `.verified.json` file beside a backup; `knownFormat` is the one format the program accepts. */
  datatype Marker =
    | Marker(knownFormat: bool, backup: Name, sha: Sha, restoreVerified: bool, size: Option<int>)
    | UnreadableMarker

  /** The verification marker inside a release directory: its file hash and its verdict. */
  datatype InstallMarker = InstallMarker(sha: Sha, passed: bool)

  datatype ReleaseDir = ReleaseDir(marker: Option<InstallMarker>)

  datatype BackupFile = BackupFile(sha: Sha, size: int)

  datatype Disk = Disk(
    runs: map<RunId, Run>,
    indexes: map<RunId, IndexFile>,
    manifests: map<RunId, seq<Payload>>,
    releases: map<Name, ReleaseDir>,
    backups: map<Name, BackupFile>,
    markers: map<Name, Marker>)

  datatype Detail = Detail(name: Name, size: int, sha: Sha)

  /** The plan computed for one invocation. */
  datatype Plan = Plan(planId: Label, releases: seq<Name>, backups: seq<Detail>,
                       policy: Label, protection: Label)

  const MAX_ACTIONS := 1000

  // ---------------------------------------------------------------- artifacts

  datatype ArtifactState = Present | MarkerOnly | Absent | Unsafe

  /** The marker vouches for the backup an action names. */
  predicate Vouches(marker: Marker, action: Action)
    requires action.Backup?
  {
    && marker.Marker?
    && marker.knownFormat
    && marker.backup == action.name
    && marker.sha == action.sha
    && marker.restoreVerified
  }

  /** The marker an action's completion may remove: it vouches, and agrees on the size if it has one. */
  predicate Matches(marker: Marker, action: Action)
    requires action.Backup?
  {
    Vouches(marker, action) && (marker.size.Some? ==> marker.size.value == action.size)
  }

  /** `_action_state`. */
  function StateOf(d: Disk, action: Action): ArtifactState {
    match action
    case Release(name, _) => if name in d.releases then Present else Absent
    case Backup(name, _, _) =>
      if name in d.backups then Present
      else if name !in d.markers then Absent
      else if Matches(d.markers[name], action) then MarkerOnly
      else Unsafe
  }

  /** The release directory or backup file is gone. */
  predicate ArtifactGone(d: Disk, action: Action) {
    match action
    case Release(name, _) => name !in d.releases
    case Backup(name, _, _) => name !in d.backups
  }

  /** Nothing of the action is left, its matching marker included. */
  predicate Collected(d: Disk, action: Action) {
    && ArtifactGone(d, action)
    && (action.Backup? && action.name in d.markers ==> !Matches(d.markers[action.name], action))
  }

  ghost predicate CollectedBelow(d: Disk, actions: seq<Action>, n: int) {
    forall i | 0 <= i < n && i < |actions| :: Collected(d, actions[i])
  }

  // ---------------------------------------------------------------- the plan

  function FindDetail(details: seq<Detail>, name: Name): Option<Detail> {
    if details == [] then None
    else
      var rest := FindDetail(details[1..], name);
      if rest.Some? then rest
      else if details[0].name == name then Some(details[0])
      else None
  }

  predicate DistinctNames(details: seq<Detail>) {
    forall i, j | 0 <= i < j < |details| :: details[i].name != details[j].name
  }

  datatype PlanCheck = StillPlanned | PlanChanged | CheckFailed

  /** `_require_action_still_planned`; a release whose marker cannot be hashed is an I/O error. */
  function CheckPlanned(d: Disk, plan: Plan, action: Action): PlanCheck {
    match action
    case Release(name, markerSha) =>
      if name !in plan.releases then PlanChanged
      else if name !in d.releases || d.releases[name].marker.None? then CheckFailed
      else if d.releases[name].marker.value.sha == markerSha then StillPlanned
      else PlanChanged
    case Backup(name, size, sha) =>
      var detail := FindDetail(plan.backups, name);
      if detail.Some? && detail.value.sha == sha && detail.value.size == size then StillPlanned
      else PlanChanged
  }

  /** The checks `apply_gc` repeats on the artifact itself before it removes it. */
  predicate Removable(d: Disk, action: Action) {
    match action
    case Release(name, markerSha) =>
      && name in d.releases
      && d.releases[name].marker == Some(InstallMarker(markerSha, true))
    case Backup(name, size, sha) =>
      && name in d.backups
      && name in d.markers
      && Vouches(d.markers[name], action)
      && d.backups[name] == BackupFile(sha, size)
  }

  /** `_iter_gc_actions`: None when a planned release has no marker to hash. */
  function ReleaseActions(d: Disk, names: seq<Name>): Option<seq<Action>> {
    if names == [] then Some([])
    else if names[0] !in d.releases || d.releases[names[0]].marker.None? then None
    else
      match ReleaseActions(d, names[1..])
      case None => None
      case Some(rest) => Some([Release(names[0], d.releases[names[0]].marker.value.sha)] + rest)
  }

  function BackupActions(details: seq<Detail>): seq<Action> {
    seq(|details|, i requires 0 <= i < |details| => Backup(details[i].name, details[i].size, details[i].sha))
  }

  function PlanActions(d: Disk, plan: Plan): Option<seq<Action>> {
    match ReleaseActions(d, plan.releases)
    case None => None
    case Some(releases) => Some(releases + BackupActions(plan.backups))
  }

  /** Every planned release is there and has a marker to hash. */
  predicate AllHashable(d: Disk, names: seq<Name>) {
    forall i | 0 <= i < |names| :: names[i] in d.releases && d.releases[names[i]].marker.Some?
  }

  /** The list a run of the plan has to work off: each planned release with the hash of its marker, then each
      planned backup with its size and hash, in the order of the plan, and nothing else. */
  predicate Spells(d: Disk, plan: Plan, actions: seq<Action>) {
    && |actions| == |plan.releases| + |plan.backups|
    && AllHashable(d, plan.releases)
    && (forall i | 0 <= i < |plan.releases| ::
          actions[i] == Release(plan.releases[i], d.releases[plan.releases[i]].marker.value.sha))
    && (forall i | 0 <= i < |plan.backups| ::
          actions[|plan.releases| + i] == Backup(plan.backups[i].name, plan.backups[i].size, plan.backups[i].sha))
  }

  lemma {:induction false} ReleasesAreSpelled(d: Disk, names: seq<Name>)
    ensures ReleaseActions(d, names).Some? <==> AllHashable(d, names)
    ensures ReleaseActions(d, names).Some? ==>
              var actions := ReleaseActions(d, names).value;
              && |actions| == |names|
              && forall i | 0 <= i < |names| :: actions[i] == Release(names[i], d.releases[names[i]].marker.value.sha)
  {
    if names != [] {
      ReleasesAreSpelled(d, names[1..]);
      assert AllHashable(d, names) ==> AllHashable(d, names[1..]);
      forall i | 0 < i < |names| ensures names[i] == names[1..][i - 1] {
      }
    }
  }

  /** `_iter_gc_actions` spells the plan out, and fails only if a planned release cannot be hashed. */
  lemma PlanIsSpelled(d: Disk, plan: Plan)
    ensures match PlanActions(d, plan)
            case Some(actions) => Spells(d, plan, actions)
            case None => !AllHashable(d, plan.releases)
  {
    ReleasesAreSpelled(d, plan.releases);
  }

  /** There is one such list. */
  lemma SpelledOnce(d: Disk, plan: Plan, a: seq<Action>, b: seq<Action>)
    requires Spells(d, plan, a) && Spells(d, plan, b)
    ensures a == b
  {
    forall i | 0 <= i < |a| ensures a[i] == b[i] {
      if i < |plan.releases| {
        assert a[i] == Release(plan.releases[i], d.releases[plan.releases[i]].marker.value.sha);
      } else {
        var k := i - |plan.releases|;
        assert a[|plan.releases| + k] == Backup(plan.backups[k].name, plan.backups[k].size, plan.backups[k].sha);
      }
    }
  }

  /** The plan holds the action, with its hash and size. */
  predicate InPlan(plan: Plan, action: Action) {
    match action
    case Release(name, _) => name in plan.releases
    case Backup(name, size, sha) => Detail(name, size, sha) in plan.backups
  }

  /** What the plan spells is in it, and what is in it is spelled. */
  lemma SpelledIsPlanned(d: Disk, plan: Plan, actions: seq<Action>)
    requires Spells(d, plan, actions)
    ensures forall action | action in actions ::
              && InPlan(plan, action)
              && (action.Release? ==>
                    && action.name in d.releases && d.releases[action.name].marker.Some?
                    && d.releases[action.name].marker.value.sha == action.markerSha)
    ensures forall name | name in plan.releases ::
              && name in d.releases && d.releases[name].marker.Some?
              && Release(name, d.releases[name].marker.value.sha) in actions
    ensures forall detail | detail in plan.backups :: Backup(detail.name, detail.size, detail.sha) in actions
  {
    forall action | action in actions
      ensures InPlan(plan, action)
      ensures action.Release? ==>
                && action.name in d.releases && d.releases[action.name].marker.Some?
                && d.releases[action.name].marker.value.sha == action.markerSha
    {
      var i :| 0 <= i < |actions| && actions[i] == action;
      if i < |plan.releases| {
        assert action == Release(plan.releases[i], d.releases[plan.releases[i]].marker.value.sha);
      } else {
        var k := i - |plan.releases|;
        assert actions[|plan.releases| + k] == Backup(plan.backups[k].name, plan.backups[k].size, plan.backups[k].sha);
        assert plan.backups[k] == Detail(action.name, action.size, action.sha);
      }
    }
    forall name | name in plan.releases
      ensures && name in d.releases && d.releases[name].marker.Some?
              && Release(name, d.releases[name].marker.value.sha) in actions
    {
      var i :| 0 <= i < |plan.releases| && plan.releases[i] == name;
      assert actions[i] == Release(name, d.releases[name].marker.value.sha);
    }
    forall detail | detail in plan.backups ensures Backup(detail.name, detail.size, detail.sha) in actions {
      var i :| 0 <= i < |plan.backups| && plan.backups[i] == detail;
      assert actions[|plan.releases| + i] == Backup(detail.name, detail.size, detail.sha);
    }
  }

  // ---------------------------------------------------------------- audit rows

  predicate Resumable(cursor: Cursor) {
    2 <= cursor.version <= 5
  }

  predicate Pending(d: Disk, run: RunId) {
    run in d.runs && d.runs[run].status == Planned && Resumable(d.runs[run].cursor)
  }

  /** The pending runs of a subject, as `_load_pending_backup_gc_run` selects them. */
  function PendingOf(d: Disk, subject: Label): set<RunId> {
    set run | run in d.runs && Pending(d, run) && d.runs[run].subject == subject
  }

  predicate AllJson(lines: seq<Payload>) {
    forall i | 0 <= i < |lines| :: lines[i].Json?
  }

  function Decoded(lines: seq<Payload>): seq<Action>
    requires AllJson(lines)
  {
    seq(|lines|, i requires 0 <= i < |lines| => lines[i].action)
  }

  /** The action list a cursor is bound to: by its hash chain, by the hash of its manifest, or
      because it carries the list. */
  function BoundActions(cursor: Cursor): seq<Action> {
    if cursor.version == 5 then Listed(cursor.root)
    else if cursor.version == 4 then
      if cursor.root.ManifestDigest? && AllJson(cursor.root.lines) then Decoded(cursor.root.lines) else []
    else cursor.legacy
  }

  /** A version-5 cursor points into the list its root commits to, and carries the chain value there. */
  predicate WellFormed(cursor: Cursor) {
    var actions := Listed(cursor.root);
    && cursor.version == 5
    && Anchored(cursor.root)
    && cursor.actionCount == |actions|
    && 0 <= cursor.nextIndex <= |actions|
    && cursor.nextSha == ChainFrom(actions, cursor.nextIndex)
  }

  /** Every recorded action is collected, except that the marker of the last one may still be
      covered by the persisted `cleanup_action`. */
  ghost predicate PrefixCollected(d: Disk, cursor: Cursor) {
    var actions := BoundActions(cursor);
    && (forall i | 0 <= i < cursor.nextIndex && i < |actions| :: ArtifactGone(d, actions[i]))
    && (cursor.cleanup.Some? ==>
          && 0 < cursor.nextIndex <= |actions|
          && cursor.cleanup.value == actions[cursor.nextIndex - 1])
    && (cursor.version == 5 && cursor.cleanup.None? ==> CollectedBelow(d, actions, cursor.nextIndex))
    && (cursor.version == 5 && cursor.cleanup.Some? ==> CollectedBelow(d, actions, cursor.nextIndex - 1))
  }

  ghost predicate RowsWellFormed(d: Disk) {
    forall run | run in d.runs && d.runs[run].cursor.version == 5 :: WellFormed(d.runs[run].cursor)
  }

  ghost predicate PrefixesCollected(d: Disk) {
    forall run | Pending(d, run) :: PrefixCollected(d, d.runs[run].cursor)
  }

  ghost predicate AppliedComplete(d: Disk) {
    forall run | run in d.runs && d.runs[run].status == Applied && d.runs[run].cursor.version == 5 ::
      d.runs[run].cursor.nextIndex == d.runs[run].cursor.actionCount
  }

  ghost predicate OnePending(d: Disk) {
    forall a, b | Pending(d, a) && Pending(d, b) && d.runs[a].subject == d.runs[b].subject :: a == b
  }

  /** What every durable write keeps. */
  ghost predicate Inv(d: Disk) {
    RowsWellFormed(d) && PrefixesCollected(d) && AppliedComplete(d) && OnePending(d)
  }

  const EMPTY_DISK := Disk(map[], map[], map[], map[], map[], map[])

  /** A disk the collector may find itself on. */
  type SoundDisk = d: Disk | Inv(d) witness EMPTY_DISK

  // ---------------------------------------------------------------- steps

  datatype Step =
    | WriteIndexFile(run: RunId, file: IndexFile)
    | InsertRun(run: RunId, row: Run)
    | ConvertRun(run: RunId, cursor: Cursor)
    | AdvanceRun(run: RunId, cursor: Cursor, deletedCount: int)
    | CloseBatch(run: RunId, status: Status, cursor: Cursor, deletedCount: int)
    | FailRun(run: RunId, cursor: Cursor, deletedCount: int, failure: FailureCode)
    | RemoveArtifact(run: RunId, action: Action)
    | RemoveMarker(run: RunId, name: Name)
    | DropIndex(run: RunId)
    | DropManifest(run: RunId)
    | Environment(after: Disk)

  /** The cursor after one more action is recorded, still owing that action's marker cleanup. */
  function Advanced(cursor: Cursor): Cursor
    requires WellFormed(cursor) && cursor.nextIndex < cursor.actionCount
  {
    var actions := Listed(cursor.root);
    cursor.(nextIndex := cursor.nextIndex + 1,
            nextSha := ChainFrom(actions, cursor.nextIndex + 1),
            cleanup := Some(actions[cursor.nextIndex]))
  }

  /** The action a pending version-5 run stands at. */
  ghost predicate StandsAt(d: Disk, run: RunId, action: Action) {
    && Pending(d, run)
    && WellFormed(d.runs[run].cursor)
    && d.runs[run].cursor.nextIndex < d.runs[run].cursor.actionCount
    && Listed(d.runs[run].cursor.root)[d.runs[run].cursor.nextIndex] == action
  }

  /** The index file on disk names the action at the run's position. */
  ghost predicate IndexNames(d: Disk, run: RunId)
    requires Pending(d, run) && WellFormed(d.runs[run].cursor)
  {
    var cursor := d.runs[run].cursor;
    && cursor.nextIndex < cursor.actionCount
    && run in d.indexes
    && cursor.nextIndex in d.indexes[run]
    && d.indexes[run][cursor.nextIndex] == IndexOf(Listed(cursor.root))[cursor.nextIndex]
  }

  /** An artifact may go only if the durable row and index name it, the plan of this invocation
      still holds it, and it is what both describe. */
  ghost predicate MayRemove(plan: Plan, d: Disk, run: RunId, action: Action) {
    && StandsAt(d, run, action)
    && IndexNames(d, run)
    && CheckPlanned(d, plan, action) == StillPlanned
    && Removable(d, action)
  }

  /** The run has recorded the action, or stands at it. */
  ghost predicate HasReached(d: Disk, run: RunId, action: Action)
    requires Pending(d, run)
  {
    var cursor := d.runs[run].cursor;
    exists i | 0 <= i < |BoundActions(cursor)| && i <= cursor.nextIndex :: BoundActions(cursor)[i] == action
  }

  /** A marker may go once its backup is gone, if it vouches for an action the run has reached. */
  ghost predicate MayRemoveMarker(d: Disk, run: RunId, name: Name) {
    && Pending(d, run)
    && name !in d.backups
    && name in d.markers
    && exists action :: HasReached(d, run, action) && VouchesFor(d.markers[name], name, action)
  }

  predicate VouchesFor(marker: Marker, name: Name, action: Action) {
    action.Backup? && action.name == name && Vouches(marker, action)
  }

  /** The cursor records the action the run stands at, whose artifact is gone. */
  ghost predicate RecordsNext(d: Disk, run: RunId, cursor: Cursor)
    requires Pending(d, run)
  {
    var was := d.runs[run].cursor;
    && WellFormed(was)
    && was.nextIndex < was.actionCount
    && ArtifactGone(d, Listed(was.root)[was.nextIndex])
    && cursor.nextIndex == was.nextIndex + 1
    && cursor.nextSha == ChainFrom(Listed(was.root), was.nextIndex + 1)
  }

  /** What a failure may write: the cursor in memory, which is the durable one or one action ahead
      of it, with the count in step. */
  ghost predicate MayFail(d: Disk, run: RunId, cursor: Cursor, deletedCount: int)
  {
    && Pending(d, run)
    && var was := d.runs[run].cursor;
       && cursor.(nextIndex := was.nextIndex, nextSha := was.nextSha, cleanup := was.cleanup) == was
       && deletedCount - cursor.nextIndex == d.runs[run].deletedCount - was.nextIndex
       && ( || (cursor.nextIndex == was.nextIndex && cursor.nextSha == was.nextSha)
            || RecordsNext(d, run, cursor))
  }

  /** What others may do between invocations: anything to evidence files and artifacts, short of
      bringing back what a pending run has already collected. */
  ghost predicate MayInterfere(d: Disk, after: Disk) {
    && after.runs == d.runs
    && (forall run | Pending(d, run) :: KeepsCollected(d, after, d.runs[run].cursor))
  }

  ghost predicate KeepsCollected(d: Disk, after: Disk, cursor: Cursor) {
    var actions := BoundActions(cursor);
    forall i | 0 <= i < cursor.nextIndex && i < |actions| ::
      && ArtifactGone(after, actions[i])
      && (Collected(d, actions[i]) ==> Collected(after, actions[i]))
  }

  ghost predicate Allowed(plan: Plan, d: Disk, step: Step) {
    match step
    case WriteIndexFile(run, _) =>
      run !in d.runs || (Pending(d, run) && d.runs[run].cursor.version != 5)
    case InsertRun(run, row) =>
      && run !in d.runs
      && PendingOf(d, row.subject) == {}
      && row.status == Planned && row.deletedCount == 0
      && WellFormed(row.cursor) && row.cursor.nextIndex == 0 && row.cursor.cleanup == None
      && Spells(d, plan, Listed(row.cursor.root))
      && run in d.indexes && d.indexes[run] == IndexOf(Listed(row.cursor.root))
    case ConvertRun(run, cursor) =>
      && Pending(d, run)
      && var was := d.runs[run].cursor;
         && was.version != 5
         && WellFormed(cursor)
         && Listed(cursor.root) == BoundActions(was)
         && cursor.nextIndex == was.nextIndex
         && cursor.cleanup == was.cleanup
         && CollectedBelow(d, BoundActions(was), was.nextIndex)
         && run in d.indexes && d.indexes[run] == IndexOf(Listed(cursor.root))
    case AdvanceRun(run, cursor, deletedCount) =>
      && Pending(d, run)
      && RecordsNext(d, run, cursor)
      && cursor == Advanced(d.runs[run].cursor)
      && deletedCount == d.runs[run].deletedCount + 1
      && CollectedBelow(d, Listed(cursor.root), d.runs[run].cursor.nextIndex)
    case CloseBatch(run, status, cursor, deletedCount) =>
      && Pending(d, run)
      && WellFormed(cursor)
      && cursor == d.runs[run].cursor.(cleanup := None)
      && deletedCount == d.runs[run].deletedCount
      && status == (if cursor.nextIndex < cursor.actionCount then Planned else Applied)
      && CollectedBelow(d, Listed(cursor.root), cursor.nextIndex)
    case FailRun(run, cursor, deletedCount, _) => MayFail(d, run, cursor, deletedCount)
    case RemoveArtifact(run, action) => MayRemove(plan, d, run, action)
    case RemoveMarker(run, name) => MayRemoveMarker(d, run, name)
    case DropIndex(run) => run !in d.runs || d.runs[run].status == Applied
    case DropManifest(run) => run !in d.runs || d.runs[run].status == Applied
    case Environment(after) => MayInterfere(d, after)
  }

  /** `_update_backup_gc_run`. */
  function Updated(d: Disk, run: RunId, status: Status, cursor: Cursor, deletedCount: int,
                   failure: Option<FailureCode>): Disk
  {
    if run !in d.runs then d
    else d.(runs := d.runs[run := d.runs[run].(status := status, cursor := cursor,
                                               deletedCount := deletedCount, failure := failure)])
  }

  /** The durable write itself. */
  function Apply(d: Disk, step: Step): Disk {
    match step
    case WriteIndexFile(run, file) => d.(indexes := d.indexes[run := file])
    case InsertRun(run, row) => d.(runs := d.runs[run := row])
    case ConvertRun(run, cursor) =>
      if run !in d.runs then d else Updated(d, run, Planned, cursor, d.runs[run].deletedCount, None)
    case AdvanceRun(run, cursor, deletedCount) => Updated(d, run, Planned, cursor, deletedCount, None)
    case CloseBatch(run, status, cursor, deletedCount) => Updated(d, run, status, cursor, deletedCount, None)
    case FailRun(run, cursor, deletedCount, failure) =>
      Updated(d, run, Failed, cursor, deletedCount, Some(failure))
    case RemoveArtifact(_, Release(name, _)) => d.(releases := d.releases - {name})
    case RemoveArtifact(_, Backup(name, _, _)) => d.(backups := d.backups - {name})
    case RemoveMarker(_, name) => d.(markers := d.markers - {name})
    case DropIndex(run) => d.(indexes := d.indexes - {run})
    case DropManifest(run) => d.(manifests := d.manifests - {run})
    case Environment(after) => after
  }

  // ---------------------------------------------------------------- every step keeps the invariant

  /** A change to the row of one pending run leaves the other runs alone. */
  lemma UpdateKeepsInv(d: Disk, run: RunId, row: Run)
    requires Inv(d) && Pending(d, run)
    requires row.subject == d.runs[run].subject
    requires row.cursor.version == 5 ==> WellFormed(row.cursor)
    requires row.status == Planned && Resumable(row.cursor) ==> PrefixCollected(d, row.cursor)
    requires row.status == Applied && row.cursor.version == 5 ==> row.cursor.nextIndex == row.cursor.actionCount
    ensures Inv(d.(runs := d.runs[run := row]))
  {
    var after := d.(runs := d.runs[run := row]);
    forall r | Pending(after, r)
      ensures PrefixCollected(after, after.runs[r].cursor)
    {
      assert r == run || Pending(d, r);
      SamePrefix(d, after, after.runs[r].cursor);
    }
    forall a, b | Pending(after, a) && Pending(after, b) && after.runs[a].subject == after.runs[b].subject
      ensures a == b
    {
      assert Pending(d, a) && Pending(d, b);
    }
  }

  /** Prefixes depend on the artifacts only. */
  lemma SamePrefix(d: Disk, after: Disk, cursor: Cursor)
    requires PrefixCollected(d, cursor)
    requires after.releases == d.releases && after.backups == d.backups && after.markers == d.markers
    ensures PrefixCollected(after, cursor)
  {
  }

  lemma KeptPrefix(d: Disk, after: Disk, cursor: Cursor)
    requires PrefixCollected(d, cursor) && KeepsCollected(d, after, cursor)
    ensures PrefixCollected(after, cursor)
  {
  }

  /** Removing artifacts, or whatever the environment may do, keeps every pending prefix. */
  lemma ArtifactsKeepInv(d: Disk, after: Disk)
    requires Inv(d) && MayInterfere(d, after)
    ensures Inv(after)
  {
    forall r | Pending(after, r)
      ensures PrefixCollected(after, after.runs[r].cursor)
    {
      assert Pending(d, r);
      KeptPrefix(d, after, d.runs[r].cursor);
    }
    forall a, b | Pending(after, a) && Pending(after, b) && after.runs[a].subject == after.runs[b].subject
      ensures a == b
    {
      assert Pending(d, a) && Pending(d, b);
    }
  }

  lemma InsertKeepsInv(plan: Plan, d: Disk, run: RunId, row: Run)
    requires Inv(d) && Allowed(plan, d, InsertRun(run, row))
    ensures Inv(Apply(d, InsertRun(run, row)))
  {
    var after := d.(runs := d.runs[run := row]);
    forall r | Pending(after, r)
      ensures PrefixCollected(after, after.runs[r].cursor)
    {
      if r != run {
        assert Pending(d, r);
        SamePrefix(d, after, d.runs[r].cursor);
      }
    }
    forall a, b | Pending(after, a) && Pending(after, b) && after.runs[a].subject == after.runs[b].subject
      ensures a == b
    {
      assert a != run ==> Pending(d, a) && (b == run ==> a in PendingOf(d, row.subject));
      assert b != run ==> Pending(d, b) && (a == run ==> b in PendingOf(d, row.subject));
    }
  }

  lemma AdvancedPrefix(d: Disk, was: Cursor)
    requires WellFormed(was) && was.nextIndex < was.actionCount
    requires ArtifactGone(d, Listed(was.root)[was.nextIndex])
    requires CollectedBelow(d, Listed(was.root), was.nextIndex)
    ensures WellFormed(Advanced(was)) && PrefixCollected(d, Advanced(was))
  {
    forall i | 0 <= i < was.nextIndex + 1
      ensures ArtifactGone(d, Listed(was.root)[i])
    {
      assert i < was.nextIndex ==> Collected(d, Listed(was.root)[i]);
    }
  }

  lemma AdvanceKeepsInv(plan: Plan, d: Disk, run: RunId, cursor: Cursor, deletedCount: int)
    requires Inv(d) && Allowed(plan, d, AdvanceRun(run, cursor, deletedCount))
    ensures Inv(Apply(d, AdvanceRun(run, cursor, deletedCount)))
  {
    var was := d.runs[run].cursor;
    AdvancedPrefix(d, was);
    var row := d.runs[run].(status := Planned, cursor := cursor, deletedCount := deletedCount, failure := None);
    UpdateKeepsInv(d, run, row);
  }

  lemma FailKeepsInv(plan: Plan, d: Disk, run: RunId, cursor: Cursor, deletedCount: int, failure: FailureCode)
    requires Inv(d) && Allowed(plan, d, FailRun(run, cursor, deletedCount, failure))
    ensures Inv(Apply(d, FailRun(run, cursor, deletedCount, failure)))
  {
    UpdateKeepsInv(d, run, Apply(d, FailRun(run, cursor, deletedCount, failure)).runs[run]);
  }

  lemma CloseKeepsInv(plan: Plan, d: Disk, run: RunId, status: Status, cursor: Cursor, deletedCount: int)
    requires Inv(d) && Allowed(plan, d, CloseBatch(run, status, cursor, deletedCount))
    ensures Inv(Apply(d, CloseBatch(run, status, cursor, deletedCount)))
  {
    assert PrefixCollected(d, cursor);
    UpdateKeepsInv(d, run, Apply(d, CloseBatch(run, status, cursor, deletedCount)).runs[run]);
  }

  lemma ConvertedPrefix(d: Disk, was: Cursor, cursor: Cursor)
    requires PrefixCollected(d, was) && WellFormed(cursor)
    requires Listed(cursor.root) == BoundActions(was)
    requires cursor.nextIndex == was.nextIndex && cursor.cleanup == was.cleanup
    requires CollectedBelow(d, BoundActions(was), was.nextIndex)
    ensures PrefixCollected(d, cursor)
  {
  }

  lemma ConvertKeepsInv(plan: Plan, d: Disk, run: RunId, cursor: Cursor)
    requires Inv(d) && Allowed(plan, d, ConvertRun(run, cursor))
    ensures Inv(Apply(d, ConvertRun(run, cursor)))
  {
    ConvertedPrefix(d, d.runs[run].cursor, cursor);
    UpdateKeepsInv(d, run, Apply(d, ConvertRun(run, cursor)).runs[run]);
  }

  /** `after` has no artifact or marker that `d` lacks. */
  ghost predicate ArtifactsShrink(d: Disk, after: Disk) {
    && (forall name | name in after.releases :: name in d.releases)
    && (forall name | name in after.backups :: name in d.backups)
    && (forall name | name in after.markers :: name in d.markers && after.markers[name] == d.markers[name])
  }

  ghost predicate Shrinks(d: Disk, after: Disk) {
    after.runs == d.runs && ArtifactsShrink(d, after)
  }

  /** Taking artifacts and markers away is something even the environment may do. */
  lemma ShrinkingKeepsInv(d: Disk, after: Disk)
    requires Inv(d) && Shrinks(d, after)
    ensures Inv(after)
  {
    forall run | Pending(d, run)
      ensures KeepsCollected(d, after, d.runs[run].cursor)
    {
      assert PrefixCollected(d, d.runs[run].cursor);
    }
    ArtifactsKeepInv(d, after);
  }

  /** The writes to files only take away. */
  lemma FileStepShrinks(plan: Plan, d: Disk, step: Step)
    requires Allowed(plan, d, step)
    requires step.WriteIndexFile? || step.RemoveArtifact? || step.RemoveMarker? || step.DropIndex? || step.DropManifest?
    ensures Shrinks(d, Apply(d, step))
  {
  }

  /** Every durable write the protocol allows keeps the invariant. */
  lemma StepKeepsInv(plan: Plan, d: Disk, step: Step)
    requires Inv(d) && Allowed(plan, d, step)
    ensures Inv(Apply(d, step))
  {
    match step
    case InsertRun(run, row) => InsertKeepsInv(plan, d, run, row);
    case ConvertRun(run, cursor) => ConvertKeepsInv(plan, d, run, cursor);
    case AdvanceRun(run, cursor, deletedCount) => AdvanceKeepsInv(plan, d, run, cursor, deletedCount);
    case CloseBatch(run, status, cursor, deletedCount) =>
      CloseKeepsInv(plan, d, run, status, cursor, deletedCount);
    case FailRun(run, cursor, deletedCount, failure) =>
      FailKeepsInv(plan, d, run, cursor, deletedCount, failure);
    case Environment(after) => ArtifactsKeepInv(d, after);
    case _ =>
      FileStepShrinks(plan, d, step);
      ShrinkingKeepsInv(d, Apply(d, step));
  }
}
