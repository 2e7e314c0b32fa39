/** What holds of every run of the garbage collector: any number of invocations, by any plans, with
    crashes and outside interference anywhere between two durable writes. */
module GcRuns {
  import opened Wrappers
  import opened GcIndex
  import opened GcProtocol

  /** One durable write, made under the plan of the invocation that makes it. */
  datatype Event = Event(plan: Plan, step: Step)

  function Replay(origin: Disk, trace: seq<Event>): Disk {
    if trace == [] then origin
    else Apply(Replay(origin, trace[..|trace| - 1]), trace[|trace| - 1].step)
  }

  /** Every write was allowed on the disk it was made on. */
  ghost predicate Legal(origin: Disk, trace: seq<Event>) {
    trace == [] ||
    var before := trace[..|trace| - 1];
    && Legal(origin, before)
    && Allowed(trace[|trace| - 1].plan, Replay(origin, before), trace[|trace| - 1].step)
  }

  /** A run of the protocol so far: where it started and what it wrote. */
  datatype History = History(origin: Disk, events: seq<Event>)

  /** A sound start, and every write since was allowed. */
  ghost predicate Lawful(origin: Disk, events: seq<Event>) {
    if events == [] then Inv(origin)
    else
      var before := events[..|events| - 1];
      && Lawful(origin, before)
      && Allowed(events[|events| - 1].plan, Replay(origin, before), events[|events| - 1].step)
  }

  /** Runs in which every write was allowed. */
  type LegalHistory = h: History | Lawful(h.origin, h.events) witness History(EMPTY_DISK, [])

  lemma {:induction false} LawfulIsLegal(origin: Disk, events: seq<Event>)
    requires Lawful(origin, events)
    ensures Inv(origin) && Legal(origin, events)
    decreases |events|
  {
    if events != [] {
      LawfulIsLegal(origin, events[..|events| - 1]);
    }
  }

  lemma ExtendLawful(origin: Disk, events: seq<Event>, event: Event)
    requires Lawful(origin, events) && Allowed(event.plan, Replay(origin, events), event.step)
    ensures Lawful(origin, events + [event])
    ensures Replay(origin, events + [event]) == Apply(Replay(origin, events), event.step)
  {
    assert (events + [event])[..|events|] == events;
  }

  /** How often somebody else changed the disk. */
  function Disturbances(trace: seq<Event>): nat {
    if trace == [] then 0
    else Disturbances(trace[..|trace| - 1]) + if trace[|trace| - 1].step.Environment? then 1 else 0
  }

  /** `after` is `before` and what the collector itself wrote since. */
  predicate Continues(before: History, after: History) {
    && after.origin == before.origin && before.events <= after.events
    && Disturbances(after.events) == Disturbances(before.events)
  }

  lemma DisturbancesEnd(trace: seq<Event>, event: Event)
    ensures Disturbances(trace + [event]) == Disturbances(trace) + if event.step.Environment? then 1 else 0
  {
    assert (trace + [event])[..|trace|] == trace;
  }

  /** A run cut short anywhere is still a run: the crash theorem behind all the others. */
  lemma {:induction false} PrefixIsLegal(origin: Disk, trace: seq<Event>, k: nat)
    requires Legal(origin, trace) && k <= |trace|
    ensures Legal(origin, trace[..k])
    ensures k < |trace| ==> Allowed(trace[k].plan, Replay(origin, trace[..k]), trace[k].step)
    decreases |trace|
  {
    if k < |trace| {
      var before := trace[..|trace| - 1];
      PrefixIsLegal(origin, before, k);
      assert before[..k] == trace[..k];
    } else {
      assert trace[..k] == trace;
    }
  }

  lemma {:induction false} InvariantHolds(origin: Disk, trace: seq<Event>)
    requires Inv(origin) && Legal(origin, trace)
    ensures Inv(Replay(origin, trace))
    decreases |trace|
  {
    if trace != [] {
      var before := trace[..|trace| - 1];
      InvariantHolds(origin, before);
      StepKeepsInv(trace[|trace| - 1].plan, Replay(origin, before), trace[|trace| - 1].step);
    }
  }

  // ---------------------------------------------------------------- ordinal order, exactly once

  /** The action a write records as done for `run`, if it records one: the one at the ordinal the
      durable cursor stood at. */
  function RecordedBy(d: Disk, step: Step, run: RunId): seq<Action> {
    if run !in d.runs then []
    else
      var actions := BoundActions(d.runs[run].cursor);
      var next := d.runs[run].cursor.nextIndex;
      if 0 <= next < |actions|
         && (step.AdvanceRun? || step.FailRun?) && step.run == run && step.cursor.nextIndex != next
      then [actions[next]] else []
  }

  /** Everything recorded for `run` over a trace, in the order it was recorded. */
  function Recorded(origin: Disk, trace: seq<Event>, run: RunId): seq<Action> {
    if trace == [] then []
    else
      var before := trace[..|trace| - 1];
      Recorded(origin, before, run) + RecordedBy(Replay(origin, before), trace[|trace| - 1].step, run)
  }

  predicate InRange(cursor: Cursor) {
    0 <= cursor.nextIndex <= |BoundActions(cursor)|
  }

  /** The writes that replace the row of `run`. */
  predicate Rewrites(step: Step, run: RunId) {
    (step.ConvertRun? || step.AdvanceRun? || step.CloseBatch? || step.FailRun?) && step.run == run
  }

  lemma RowIsKept(plan: Plan, d: Disk, step: Step, run: RunId)
    requires Allowed(plan, d, step) && run in d.runs && !Rewrites(step, run)
    ensures run in Apply(d, step).runs && Apply(d, step).runs[run] == d.runs[run]
  {
  }

  /** `now` is `was` moved by the actions in `added`, and the count moved with it. */
  ghost predicate Moved(was: Run, now: Run, added: seq<Action>) {
    && BoundActions(now.cursor) == BoundActions(was.cursor)
    && InRange(was.cursor) && InRange(now.cursor)
    && BoundActions(now.cursor)[..now.cursor.nextIndex] == BoundActions(was.cursor)[..was.cursor.nextIndex] + added
    && now.deletedCount - now.cursor.nextIndex == was.deletedCount - was.cursor.nextIndex
  }

  /** The action a cursor one position further has recorded. */
  function Gained(was: Cursor, now: Cursor): seq<Action>
    requires InRange(was)
  {
    if now.nextIndex != was.nextIndex && was.nextIndex < |BoundActions(was)|
    then [BoundActions(was)[was.nextIndex]]
    else []
  }

  lemma RewriteMoves(plan: Plan, d: Disk, step: Step, run: RunId)
    requires Inv(d) && Allowed(plan, d, step) && Rewrites(step, run)
    requires run in d.runs && InRange(d.runs[run].cursor)
    ensures run in Apply(d, step).runs
    ensures Moved(d.runs[run], Apply(d, step).runs[run], Gained(d.runs[run].cursor, Apply(d, step).runs[run].cursor))
  {
    var was, now := d.runs[run].cursor, Apply(d, step).runs[run].cursor;
    assert BoundActions(now) == BoundActions(was);
    assert now.nextIndex == was.nextIndex || now.nextIndex == was.nextIndex + 1 <= |BoundActions(was)|;
  }

  /** One write moves a run by the action it records, and the count moves with it. */
  lemma StepRecords(plan: Plan, d: Disk, step: Step, run: RunId)
    requires Inv(d) && Allowed(plan, d, step)
    requires run in d.runs && InRange(d.runs[run].cursor)
    ensures run in Apply(d, step).runs
    ensures Moved(d.runs[run], Apply(d, step).runs[run], RecordedBy(d, step, run))
  {
    var was := d.runs[run];
    if !Rewrites(step, run) {
      RowIsKept(plan, d, step, run);
      assert RecordedBy(d, step, run) == [];
    } else {
      RewriteMoves(plan, d, step, run);
      assert RecordedBy(d, step, run) == Gained(was.cursor, Apply(d, step).runs[run].cursor);
    }
  }

  /** Where `run` stands on `end`, having recorded `recorded` since `origin`: the recorded actions
      are the bound list from the first position to the present one, in order, and the deleted
      count has moved with the cursor. */
  ghost predicate InStep(origin: Disk, end: Disk, run: RunId, recorded: seq<Action>) {
    if run !in end.runs then recorded == [] && run !in origin.runs
    else
      var cursor := end.runs[run].cursor;
      var first := if run in origin.runs then origin.runs[run].cursor.nextIndex else 0;
      && InRange(cursor)
      && 0 <= first <= cursor.nextIndex
      && recorded == BoundActions(cursor)[first..cursor.nextIndex]
      && (run in origin.runs ==> BoundActions(cursor) == BoundActions(origin.runs[run].cursor))
      && end.runs[run].deletedCount - cursor.nextIndex
         == if run in origin.runs then origin.runs[run].deletedCount - first else 0
  }

  lemma SliceGrows(actions: seq<Action>, first: nat, was: nat, now: nat, added: seq<Action>)
    requires first <= was <= |actions| && now <= |actions|
    requires actions[..now] == actions[..was] + added
    ensures was <= now && actions[first..now] == actions[first..was] + added
  {
    assert |actions[..now]| == was + |added|;
    assert actions[first..now] == actions[..now][first..];
    assert actions[first..was] == actions[..was][first..];
  }

  lemma StaysInStep(origin: Disk, plan: Plan, d: Disk, step: Step, run: RunId, recorded: seq<Action>)
    requires Inv(d) && Allowed(plan, d, step) && InStep(origin, d, run, recorded)
    ensures InStep(origin, Apply(d, step), run, recorded + RecordedBy(d, step, run))
  {
    if run in d.runs {
      StepRecords(plan, d, step, run);
      var was, now := d.runs[run].cursor, Apply(d, step).runs[run].cursor;
      var first := if run in origin.runs then origin.runs[run].cursor.nextIndex else 0;
      SliceGrows(BoundActions(now), first, was.nextIndex, now.nextIndex, RecordedBy(d, step, run));
    }
  }

  /** Over any trace the actions of a run are recorded in ordinal order, each exactly once, from
      where the run stood at the start; the deleted count moves in lockstep with the cursor. */
  lemma {:induction false} RecordedInOrder(origin: Disk, trace: seq<Event>, run: RunId)
    requires Inv(origin) && Legal(origin, trace)
    requires run in origin.runs ==> InRange(origin.runs[run].cursor)
    ensures InStep(origin, Replay(origin, trace), run, Recorded(origin, trace, run))
    decreases |trace|
  {
    if trace != [] {
      var before := trace[..|trace| - 1];
      RecordedInOrder(origin, before, run);
      InvariantHolds(origin, before);
      StaysInStep(origin, trace[|trace| - 1].plan, Replay(origin, before), trace[|trace| - 1].step, run,
                  Recorded(origin, before, run));
    }
  }

  // ---------------------------------------------------------------- completion

  /** The write that marks a run applied leaves nothing of its plan behind: every release, every
      backup and every matching marker is gone, and everything planned has been recorded. */
  lemma AppliedMeansCollected(origin: Disk, trace: seq<Event>, k: nat, run: RunId)
    requires Inv(origin) && Legal(origin, trace) && k < |trace|
    requires trace[k].step.CloseBatch? && trace[k].step.run == run && trace[k].step.status == Applied
    ensures var end := Replay(origin, trace[..k + 1]);
            && run in end.runs && end.runs[run].status == Applied
            && (forall action | action in BoundActions(end.runs[run].cursor) :: Collected(end, action))
            && end.runs[run].cursor.nextIndex == |BoundActions(end.runs[run].cursor)|
            && (run !in origin.runs ==>
                  && Recorded(origin, trace[..k + 1], run) == BoundActions(end.runs[run].cursor)
                  && end.runs[run].deletedCount == |BoundActions(end.runs[run].cursor)|)
  {
    PrefixIsLegal(origin, trace, k);
    PrefixIsLegal(origin, trace, k + 1);
    assert trace[..k + 1][..k] == trace[..k];
    var end := Replay(origin, trace[..k + 1]);
    assert run in end.runs;
    var actions := BoundActions(end.runs[run].cursor);
    assert CollectedBelow(end, actions, |actions|);
    if run !in origin.runs {
      RecordedInOrder(origin, trace[..k + 1], run);
      assert actions[0..|actions|] == actions;
    }
  }

  /** Nothing the plan lists is left: no release, no backup, and no marker the program would take for one of
      its backups'. */
  ghost predicate PlanDone(d: Disk, plan: Plan) {
    && (forall name | name in plan.releases :: name !in d.releases)
    && (forall detail | detail in plan.backups :: detail.name !in d.backups)
    && (forall detail | detail in plan.backups && detail.name in d.markers ::
          && d.markers[detail.name] != Marker(true, detail.name, detail.sha, true, None)
          && d.markers[detail.name] != Marker(true, detail.name, detail.sha, true, Some(detail.size)))
  }

  /** A plan is done once the list it spelled is collected. */
  lemma CollectedMeansDone(d: Disk, plan: Plan, actions: seq<Action>, after: Disk)
    requires Spells(d, plan, actions) && forall action | action in actions :: Collected(after, action)
    ensures PlanDone(after, plan)
  {
    SpelledIsPlanned(d, plan, actions);
    forall name | name in plan.releases ensures name !in after.releases {
      assert Collected(after, Release(name, d.releases[name].marker.value.sha));
    }
    forall detail | detail in plan.backups
      ensures detail.name !in after.backups
      ensures detail.name in after.markers ==>
                !Matches(after.markers[detail.name], Backup(detail.name, detail.size, detail.sha))
    {
      assert Collected(after, Backup(detail.name, detail.size, detail.sha));
    }
  }

  lemma {:induction false} RootStays(origin: Disk, trace: seq<Event>, k: nat, run: RunId)
    requires Legal(origin, trace) && k <= |trace|
    requires run in Replay(origin, trace[..k]).runs && Replay(origin, trace[..k]).runs[run].cursor.version == 5
    ensures run in Replay(origin, trace).runs && Replay(origin, trace).runs[run].cursor.version == 5
    ensures Replay(origin, trace).runs[run].cursor.root == Replay(origin, trace[..k]).runs[run].cursor.root
    decreases |trace|
  {
    if k == |trace| {
      assert trace[..k] == trace;
    } else {
      var before, event := trace[..|trace| - 1], trace[|trace| - 1];
      assert before[..k] == trace[..k];
      RootStays(origin, before, k, run);
      OnlyPlannedChanges(event.plan, Replay(origin, before), event.step, run);
      RootIsKept(event.plan, Replay(origin, before), event.step, run);
    }
  }

  /** The write that inserts a run: it is new, and it commits to the list its plan spells. */
  lemma InsertedSpells(origin: Disk, trace: seq<Event>, j: nat)
    requires Legal(origin, trace) && j < |trace| && trace[j].step.InsertRun?
    ensures var run, row := trace[j].step.run, trace[j].step.row;
            && run !in origin.runs
            && Spells(Replay(origin, trace[..j]), trace[j].plan, Listed(row.cursor.root))
            && run in Replay(origin, trace[..j + 1]).runs && Replay(origin, trace[..j + 1]).runs[run] == row
            && row.cursor.version == 5
  {
    PrefixIsLegal(origin, trace, j);
    assert trace[..j + 1][..j] == trace[..j];
    if trace[j].step.run in origin.runs {
      assert trace[..j][..0] == [];
      StillListed(origin, trace[..j], 0, trace[j].step.run);
    }
  }

  /** From the plan to its completion.  A run inserted under a plan commits to one action for each release and
      each backup of it; when it is marked applied, by whatever invocation and after whatever interference, all
      of them have been recorded and nothing the plan lists is left. */
  lemma AppliedPlanIsDone(origin: Disk, trace: seq<Event>, j: nat, k: nat, run: RunId)
    requires Inv(origin) && Legal(origin, trace) && j < k < |trace|
    requires trace[j].step.InsertRun? && trace[j].step.run == run
    requires trace[k].step.CloseBatch? && trace[k].step.run == run && trace[k].step.status == Applied
    ensures var plan, end := trace[j].plan, Replay(origin, trace[..k + 1]);
            && PlanDone(end, plan)
            && run in end.runs && end.runs[run].deletedCount == |plan.releases| + |plan.backups|
            && |Recorded(origin, trace[..k + 1], run)| == |plan.releases| + |plan.backups|
  {
    var plan, end := trace[j].plan, Replay(origin, trace[..k + 1]);
    var d, root := Replay(origin, trace[..j]), trace[j].step.row.cursor.root;
    InsertedSpells(origin, trace, j);
    assert run in end.runs && end.runs[run].cursor.version == 5 && end.runs[run].cursor.root == root by {
      PrefixIsLegal(origin, trace, k + 1);
      assert trace[..k + 1][..j + 1] == trace[..j + 1];
      RootStays(origin, trace[..k + 1], j + 1, run);
    }
    AppliedMeansCollected(origin, trace, k, run);
    assert BoundActions(end.runs[run].cursor) == Listed(root);
    CollectedMeansDone(d, plan, Listed(root), end);
  }

  /** A row nobody rewrites: applied or failed, or with a cursor the program does not know. */
  predicate IsFinal(row: Run) {
    row.status != Planned || row.cursor.version < 2 || row.cursor.version > 5
  }

  /** Only a planned row with a known cursor is ever rewritten. */
  lemma OnlyPlannedChanges(plan: Plan, d: Disk, step: Step, run: RunId)
    requires Allowed(plan, d, step) && run in d.runs
    ensures run in Apply(d, step).runs
    ensures IsFinal(d.runs[run]) ==> Apply(d, step).runs[run] == d.runs[run]
  {
  }

  /** Applied and failed rows are final, and so are planned ones with an unknown cursor: whatever happens
      afterwards, the row is never written again. */
  lemma {:induction false} TerminalIsFinal(origin: Disk, trace: seq<Event>, k: nat, run: RunId)
    requires Legal(origin, trace) && k <= |trace|
    requires run in Replay(origin, trace[..k]).runs && IsFinal(Replay(origin, trace[..k]).runs[run])
    ensures run in Replay(origin, trace).runs
    ensures Replay(origin, trace).runs[run] == Replay(origin, trace[..k]).runs[run]
    decreases |trace|
  {
    if k == |trace| {
      assert trace[..k] == trace;
    } else {
      var before, event := trace[..|trace| - 1], trace[|trace| - 1];
      assert before[..k] == trace[..k];
      TerminalIsFinal(origin, before, k, run);
      OnlyPlannedChanges(event.plan, Replay(origin, before), event.step, run);
    }
  }

  // ---------------------------------------------------------------- deletion safety

  lemma {:induction false} FindDetailFinds(details: seq<Detail>, name: Name)
    ensures match FindDetail(details, name)
            case Some(detail) => detail in details && detail.name == name
            case None => forall i | 0 <= i < |details| :: details[i].name != name
  {
    if details != [] {
      FindDetailFinds(details[1..], name);
      assert details == [details[0]] + details[1..];
    }
  }

  /** Where the row of `run` was inserted, with its index already on disk. */
  ghost predicate InsertedAt(origin: Disk, trace: seq<Event>, j: int, run: RunId, root: Digest) {
    && 0 <= j < |trace|
    && trace[j].step.InsertRun? && trace[j].step.run == run && trace[j].step.row.cursor.root == root
    && var before := Replay(origin, trace[..j]);
       run in before.indexes && before.indexes[run] == IndexOf(Listed(root))
  }

  /** A row appears by insertion only, and a version-5 row never changes its root. */
  lemma RootIsKept(plan: Plan, d: Disk, step: Step, run: RunId)
    requires Allowed(plan, d, step) && run in Apply(d, step).runs
    ensures run in d.runs && d.runs[run].cursor.version == 5 ==>
              && Apply(d, step).runs[run].cursor.version == 5
              && Apply(d, step).runs[run].cursor.root == d.runs[run].cursor.root
    ensures run !in d.runs ==>
              && step.InsertRun? && step.run == run && step.row == Apply(d, step).runs[run]
              && step.row.cursor.version == 5
              && run in d.indexes && d.indexes[run] == IndexOf(Listed(step.row.cursor.root))
  {
  }

  /** A row that was not there at the start was inserted, after its index, with the root it still has. */
  lemma {:induction false} InsertedEarlier(origin: Disk, trace: seq<Event>, run: RunId)
    requires Legal(origin, trace)
    requires run !in origin.runs && run in Replay(origin, trace).runs
    ensures Replay(origin, trace).runs[run].cursor.version == 5
    ensures exists j :: InsertedAt(origin, trace, j, run, Replay(origin, trace).runs[run].cursor.root)
    decreases |trace|
  {
    var before, event := trace[..|trace| - 1], trace[|trace| - 1];
    var d, root := Replay(origin, before), Replay(origin, trace).runs[run].cursor.root;
    RootIsKept(event.plan, d, event.step, run);
    if run in d.runs {
      InsertedEarlier(origin, before, run);
      var j :| InsertedAt(origin, before, j, run, root);
      assert before[..j] == trace[..j];
      assert InsertedAt(origin, trace, j, run, root);
    } else {
      assert InsertedAt(origin, trace, |trace| - 1, run, root);
    }
  }

  /** Deletion safety: whatever a run removes, it was named, with its hash and size, at the position
      of a durable planned row and in the index on disk; the plan of the invocation that removes it
      holds the same action; and the row had been inserted earlier, after its index. */
  lemma RemovalIsPlanned(origin: Disk, trace: seq<Event>, k: nat)
    requires Inv(origin) && Legal(origin, trace) && k < |trace| && trace[k].step.RemoveArtifact?
    ensures var d := Replay(origin, trace[..k]);
            var run, action, plan := trace[k].step.run, trace[k].step.action, trace[k].plan;
            && StandsAt(d, run, action)
            && d.runs[run].status == Planned
            && run in d.indexes && d.runs[run].cursor.nextIndex in d.indexes[run]
            && d.indexes[run][d.runs[run].cursor.nextIndex].payload == Json(action)
            && (match action
                case Release(name, markerSha) =>
                  && name in plan.releases
                  && name in d.releases && d.releases[name] == ReleaseDir(Some(InstallMarker(markerSha, true)))
                case Backup(name, size, sha) =>
                  && Detail(name, size, sha) in plan.backups
                  && name in d.backups && d.backups[name] == BackupFile(sha, size)
                  && name in d.markers && exists stated :: d.markers[name] == Marker(true, name, sha, true, stated))
            && (run !in origin.runs ==>
                  exists j :: j < k && InsertedAt(origin, trace, j, run, d.runs[run].cursor.root))
  {
    PrefixIsLegal(origin, trace, k);
    var d := Replay(origin, trace[..k]);
    var run := trace[k].step.run;
    FindDetailFinds(trace[k].plan.backups, trace[k].step.action.name);
    if trace[k].step.action.Backup? {
      var action := trace[k].step.action;
      var marker := d.markers[action.name];
      assert marker == Marker(true, action.name, action.sha, true, marker.size);
    }
    if run !in origin.runs {
      InsertedBefore(origin, trace, k, run);
    }
  }

  lemma InsertedBefore(origin: Disk, trace: seq<Event>, k: nat, run: RunId)
    requires k <= |trace| && Legal(origin, trace[..k])
    requires run !in origin.runs && run in Replay(origin, trace[..k]).runs
    ensures exists j :: j < k && InsertedAt(origin, trace, j, run, Replay(origin, trace[..k]).runs[run].cursor.root)
  {
    var root := Replay(origin, trace[..k]).runs[run].cursor.root;
    InsertedEarlier(origin, trace[..k], run);
    var j :| InsertedAt(origin, trace[..k], j, run, root);
    assert trace[..k][..j] == trace[..j];
    assert InsertedAt(origin, trace, j, run, root);
  }

  /** The write that took the backup away: a removal by some run, or somebody else's. */
  ghost predicate TookBackup(origin: Disk, trace: seq<Event>, j: int, name: Name) {
    && 0 <= j < |trace|
    && name in Replay(origin, trace[..j]).backups
    && match trace[j].step
       case RemoveArtifact(_, action) => action.Backup? && action.name == name
       case Environment(after) => name !in after.backups
       case _ => false
  }

  /** A backup that is gone was never there, or one write took it away. */
  lemma {:induction false} GoneBackupWasTaken(origin: Disk, trace: seq<Event>, name: Name)
    requires name in origin.backups && name !in Replay(origin, trace).backups
    ensures exists j :: TookBackup(origin, trace, j, name)
    decreases |trace|
  {
    var before := trace[..|trace| - 1];
    if name in Replay(origin, before).backups {
      assert TookBackup(origin, trace, |trace| - 1, name);
    } else {
      GoneBackupWasTaken(origin, before, name);
      var j :| TookBackup(origin, before, j, name);
      assert before[..j] == trace[..j];
      assert TookBackup(origin, trace, j, name);
    }
  }

  /** A marker is removed only for an action that a pending run committed to and has reached, with the
      hash the marker names; and its backup had been taken away earlier, by a removal that was planned or
      by somebody else, unless it was missing from the start. */
  lemma MarkerRemovalIsSafe(origin: Disk, trace: seq<Event>, k: nat)
    requires Inv(origin) && Legal(origin, trace) && k < |trace| && trace[k].step.RemoveMarker?
    ensures var d := Replay(origin, trace[..k]);
            var run, name := trace[k].step.run, trace[k].step.name;
            && Pending(d, run) && name in d.markers && name !in d.backups
            && (exists size, sha, stated {:trigger Backup(name, size, sha), Marker(true, name, sha, true, stated)} ::
                  && Backup(name, size, sha) in BoundActions(d.runs[run].cursor)
                  && d.markers[name] == Marker(true, name, sha, true, stated))
            && (name in origin.backups ==>
                  exists j :: j < k && TookBackup(origin, trace, j, name)
                    && (trace[j].step.RemoveArtifact? ==>
                          var was, step := Replay(origin, trace[..j]), trace[j].step;
                          MayRemove(trace[j].plan, was, step.run, step.action)))
  {
    PrefixIsLegal(origin, trace, k);
    var d := Replay(origin, trace[..k]);
    var run, name := trace[k].step.run, trace[k].step.name;
    var action :| HasReached(d, run, action) && VouchesFor(d.markers[name], name, action);
    assert action in BoundActions(d.runs[run].cursor) && action == Backup(name, action.size, action.sha);
    assert d.markers[name] == Marker(true, name, action.sha, true, d.markers[name].size);
    if name in origin.backups {
      GoneBackupWasTaken(origin, trace[..k], name);
      var j :| TookBackup(origin, trace[..k], j, name);
      assert trace[..k][..j] == trace[..j];
      PrefixIsLegal(origin, trace, j);
      assert j < k && TookBackup(origin, trace, j, name);
    }
  }

  /** The collector itself, not somebody else, made the writes from `k` on. */
  predicate Undisturbed(trace: seq<Event>, k: nat) {
    forall i | k <= i < |trace| :: !trace[i].step.Environment?
  }

  /** `after` has no release, backup or marker that `d` lacks, and those it has are the same. */
  ghost predicate OnlyLess(d: Disk, after: Disk) {
    && (forall name | name in after.releases :: name in d.releases && after.releases[name] == d.releases[name])
    && (forall name | name in after.backups :: name in d.backups && after.backups[name] == d.backups[name])
    && (forall name | name in after.markers :: name in d.markers && after.markers[name] == d.markers[name])
  }

  lemma StepTakesAway(plan: Plan, d: Disk, step: Step)
    requires Allowed(plan, d, step) && !step.Environment?
    ensures OnlyLess(d, Apply(d, step))
  {
  }

  /** Whatever the collector writes, it never adds or alters a release, a backup or a marker. */
  lemma {:induction false} CollectorOnlyTakesAway(origin: Disk, trace: seq<Event>, k: nat)
    requires Legal(origin, trace) && k <= |trace| && Undisturbed(trace, k)
    ensures OnlyLess(Replay(origin, trace[..k]), Replay(origin, trace))
    decreases |trace|
  {
    if k == |trace| {
      assert trace[..k] == trace;
    } else {
      var before, event := trace[..|trace| - 1], trace[|trace| - 1];
      assert before[..k] == trace[..k];
      CollectorOnlyTakesAway(origin, before, k);
      StepTakesAway(event.plan, Replay(origin, before), event.step);
    }
  }

  /** One write of the collector takes away no index and no manifest of a planned or failed run. */
  lemma StepKeepsEvidence(plan: Plan, d: Disk, step: Step, run: RunId)
    requires Allowed(plan, d, step) && !step.Environment?
    requires run in d.runs && d.runs[run].status != Applied
    ensures run in d.indexes ==> run in Apply(d, step).indexes
    ensures run in d.indexes && d.runs[run].cursor.version == 5 ==> Apply(d, step).indexes[run] == d.indexes[run]
    ensures run in d.manifests ==> run in Apply(d, step).manifests && Apply(d, step).manifests[run] == d.manifests[run]
  {
  }

  /** As long as a run is not applied, the collector keeps its evidence: its index is never removed, and
      once its cursor points into the index never rewritten; its manifest is neither. */
  lemma {:induction false} EvidenceIsKept(origin: Disk, trace: seq<Event>, k: nat, run: RunId)
    requires Legal(origin, trace) && k <= |trace| && Undisturbed(trace, k)
    requires run in Replay(origin, trace[..k]).runs
    requires run in Replay(origin, trace).runs && Replay(origin, trace).runs[run].status != Applied
    ensures var was, now := Replay(origin, trace[..k]), Replay(origin, trace);
            && (run in was.indexes ==> run in now.indexes)
            && (run in was.indexes && was.runs[run].cursor.version == 5 ==>
                  now.runs[run].cursor.version == 5 && now.indexes[run] == was.indexes[run])
            && (run in was.manifests ==> run in now.manifests && now.manifests[run] == was.manifests[run])
    decreases |trace|
  {
    if k == |trace| {
      assert trace[..k] == trace;
    } else {
      var before, event := trace[..|trace| - 1], trace[|trace| - 1];
      assert before[..k] == trace[..k];
      StillListed(origin, before, k, run);
      OnlyPlannedChanges(event.plan, Replay(origin, before), event.step, run);
      EvidenceIsKept(origin, before, k, run);
      StepKeepsEvidence(event.plan, Replay(origin, before), event.step, run);
      RootIsKept(event.plan, Replay(origin, before), event.step, run);
    }
  }

  /** Audit rows are never deleted. */
  lemma {:induction false} StillListed(origin: Disk, trace: seq<Event>, k: nat, run: RunId)
    requires Legal(origin, trace) && k <= |trace| && run in Replay(origin, trace[..k]).runs
    ensures run in Replay(origin, trace).runs
    decreases |trace|
  {
    if k == |trace| {
      assert trace[..k] == trace;
    } else {
      var before, event := trace[..|trace| - 1], trace[|trace| - 1];
      assert before[..k] == trace[..k];
      StillListed(origin, before, k, run);
      OnlyPlannedChanges(event.plan, Replay(origin, before), event.step, run);
    }
  }

  /** A backup that is still there still has its verification marker: the collector never takes the marker
      of a backup it has not removed. */
  lemma {:induction false} LiveMarkerIsKept(origin: Disk, trace: seq<Event>, k: nat, name: Name)
    requires Legal(origin, trace) && k <= |trace| && Undisturbed(trace, k)
    requires name in Replay(origin, trace).backups && name in Replay(origin, trace[..k]).markers
    ensures name in Replay(origin, trace[..k]).backups
    ensures Replay(origin, trace).backups[name] == Replay(origin, trace[..k]).backups[name]
    ensures name in Replay(origin, trace).markers
    ensures Replay(origin, trace).markers[name] == Replay(origin, trace[..k]).markers[name]
    decreases |trace|
  {
    if k == |trace| {
      assert trace[..k] == trace;
    } else {
      var before, event := trace[..|trace| - 1], trace[|trace| - 1];
      assert before[..k] == trace[..k];
      LiveBackupWasLive(event.plan, Replay(origin, before), event.step, name);
      LiveMarkerIsKept(origin, before, k, name);
    }
  }

  lemma LiveBackupWasLive(plan: Plan, d: Disk, step: Step, name: Name)
    requires Allowed(plan, d, step) && !step.Environment? && name in Apply(d, step).backups
    ensures name in d.backups && Apply(d, step).backups[name] == d.backups[name]
    ensures name in d.markers ==> name in Apply(d, step).markers && Apply(d, step).markers[name] == d.markers[name]
  {
  }

  /** At most one resumable run per subject, at every point of every run. */
  lemma AtMostOnePending(origin: Disk, trace: seq<Event>, subject: Label)
    requires Inv(origin) && Legal(origin, trace)
    ensures var d := Replay(origin, trace);
            |set run | run in d.runs && d.runs[run].subject == subject && d.runs[run].status == Planned
                       && 2 <= d.runs[run].cursor.version <= 5| <= 1
  {
    InvariantHolds(origin, trace);
    var d := Replay(origin, trace);
    var pending := set run | run in d.runs && d.runs[run].subject == subject && d.runs[run].status == Planned
                             && 2 <= d.runs[run].cursor.version <= 5;
    assert forall run | run in pending :: Pending(d, run);
    if pending != {} {
      var run :| run in pending;
      assert pending == {run};
    }
  }

  // ---------------------------------------------------------------- how many invocations

  /** What an undisturbed invocation does to the position of a run. */
  function AfterInvocation(count: nat, next: nat): nat {
    if next + MAX_ACTIONS < count then next + MAX_ACTIONS else count
  }

  /** `k` of them, from a position on. */
  function AfterInvocations(count: nat, start: nat, k: nat): nat {
    if k == 0 then start else AfterInvocation(count, AfterInvocations(count, start, k - 1))
  }

  /** `max(1, ceil(n / 1000))` for `n` actions left. */
  function InvocationsNeeded(left: nat): nat {
    if left == 0 then 1 else (left + MAX_ACTIONS - 1) / MAX_ACTIONS
  }

  lemma {:induction false} PositionAfter(count: nat, start: nat, k: nat)
    requires k > 0 && start <= count
    ensures AfterInvocations(count, start, k)
            == if start + 1000 * k < count then start + 1000 * k else count
  {
    if k > 1 {
      PositionAfter(count, start, k - 1);
    } else {
      assert AfterInvocations(count, start, 1) == AfterInvocation(count, AfterInvocations(count, start, 0));
    }
  }

  /** From position `start`, `count` actions are finished by the `k`-th undisturbed invocation exactly when
      `k` is at least `max(1, ceil((count - start) / 1000))`. */
  lemma FinishedAfter(count: nat, start: nat, k: nat)
    requires start <= count
    ensures k > 0 && AfterInvocations(count, start, k) == count <==> k >= InvocationsNeeded(count - start)
  {
    if k > 0 {
      PositionAfter(count, start, k);
    }
  }
}
