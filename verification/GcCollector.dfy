/** `apply_resumable_gc` as it runs (scripts/deployment-maintenance.py): durable state in `disk`,
    everything else in locals that a crash drops.

    `faults` scripts what the durable writes meet, one element per write: it goes through, it
    raises, or the process dies there.  An exhausted script means no more trouble. */
module GcCollector {
  import opened Wrappers
  import opened GcIndex
  import opened GcProtocol
  import opened GcRuns
  import opened GcWork
  import opened GcCourse
  import opened GcFate

  class Collector {
    var disk: Disk
    var faults: seq<Fault>
    ghost var history: LegalHistory

    /** The disk is what the legal run so far leaves. */
    ghost predicate Valid()
      reads this
    {
      disk == Replay(history.origin, history.events)
    }

    /** So the invariant of the protocol holds of it. */
    lemma Sound()
      requires Valid()
      ensures Inv(disk)
    {
      LawfulIsLegal(history.origin, history.events);
      InvariantHolds(history.origin, history.events);
    }

    constructor (disk: SoundDisk, faults: seq<Fault>)
      ensures Valid() && this.disk == disk && this.faults == faults
      ensures history == History(disk, [])
    {
      this.disk := disk;
      this.faults := faults;
      this.history := History(disk, []);
    }

    /** One durable write: it happens in full, or it raises, or the process dies before it. */
    method Commit(plan: Plan, step: Step) returns (flow: Flow)
      requires Valid() && Allowed(plan, disk, step) && !step.Environment?
      modifies this
      ensures Valid() && Continues(old(history), history)
      ensures flow == Done ==>
                && disk == Apply(old(disk), step)
                && history.events == old(history).events + [Event(plan, step)]
      ensures flow != Done ==> disk == old(disk) && history == old(history)
      ensures old(faults) == [] ==> flow == Done && faults == []
    {
      if faults != [] {
        var fault := faults[0];
        faults := faults[1..];
        if fault != Proceed {
          return if fault == Raise then Raised else Crashed;
        }
      }
      ExtendLawful(history.origin, history.events, Event(plan, step));
      DisturbancesEnd(history.events, Event(plan, step));
      disk := Apply(disk, step);
      history := history.(events := history.events + [Event(plan, step)]);
      return Done;
    }

    /** Somebody else changes evidence files or artifacts between two invocations. */
    method Interfere(plan: Plan, after: Disk)
      requires Valid() && MayInterfere(disk, after)
      modifies this
      ensures Valid() && history.origin == old(history).origin
      ensures history.events == old(history).events + [Event(plan, Environment(after))]
      ensures disk == after && faults == old(faults)
    {
      var step := Environment(after);
      ExtendLawful(history.origin, history.events, Event(plan, step));
      disk := Apply(disk, step);
      history := history.(events := history.events + [Event(plan, step)]);
    }

    method UnlinkArtifact(plan: Plan, run: RunId, action: Action) returns (flow: Flow)
      requires Valid() && MayRemove(plan, disk, run, action)
      modifies this
      ensures Valid() && Continues(old(history), history)
      ensures flow == Done ==>
                disk == if action.Release? then old(disk).(releases := old(disk).releases - {action.name})
                        else old(disk).(backups := old(disk).backups - {action.name})
      ensures flow != Done ==> disk == old(disk)
      ensures old(faults) == [] ==> flow == Done && faults == []
    {
      flow := Commit(plan, RemoveArtifact(run, action));
    }

    method UnlinkMarker(plan: Plan, run: RunId, name: Name) returns (flow: Flow)
      requires Valid() && MayRemoveMarker(disk, run, name)
      modifies this
      ensures Valid() && Continues(old(history), history)
      ensures flow == Done ==> disk == old(disk).(markers := old(disk).markers - {name})
      ensures flow != Done ==> disk == old(disk)
      ensures old(faults) == [] ==> flow == Done && faults == []
    {
      flow := Commit(plan, RemoveMarker(run, name));
    }

    method UnlinkIndex(plan: Plan, run: RunId) returns (flow: Flow)
      requires Valid() && Orphan(disk, run)
      modifies this
      ensures Valid() && Continues(old(history), history)
      ensures disk == if flow == Done then old(disk).(indexes := old(disk).indexes - {run}) else old(disk)
      ensures old(faults) == [] ==> flow == Done && faults == []
    {
      flow := Commit(plan, DropIndex(run));
    }

    method StoreIndex(plan: Plan, run: RunId, file: IndexFile) returns (flow: Flow)
      requires Valid() && (run !in disk.runs || (Pending(disk, run) && disk.runs[run].cursor.version != 5))
      modifies this
      ensures Valid() && Continues(old(history), history)
      ensures disk == if flow == Done then old(disk).(indexes := old(disk).indexes[run := file]) else old(disk)
      ensures old(faults) == [] ==> flow == Done && faults == []
    {
      flow := Commit(plan, WriteIndexFile(run, file));
    }

    method UnlinkManifest(plan: Plan, run: RunId) returns (flow: Flow)
      requires Valid() && Orphan(disk, run)
      modifies this
      ensures Valid() && Continues(old(history), history)
      ensures disk == if flow == Done then old(disk).(manifests := old(disk).manifests - {run}) else old(disk)
      ensures old(faults) == [] ==> flow == Done && faults == []
    {
      flow := Commit(plan, DropManifest(run));
    }

    /** `_cleanup_absent_action_artifacts`. */
    method CleanupArtifacts(plan: Plan, run: RunId, action: Action) returns (flow: Flow)
      requires Valid() && Pending(disk, run) && ArtifactGone(disk, action)
      requires HasReached(disk, run, action)
      modifies this
      ensures Valid() && Continues(old(history), history) && OnlyRemoves(old(disk), disk)
      ensures disk.releases == old(disk).releases && disk.backups == old(disk).backups
      ensures KeepsLiveMarkers(old(disk), disk)
      ensures flow == Done ==> Collected(disk, action)
      ensures flow == Done && StateOf(old(disk), action) != Unsafe ==> disk == Without(old(disk), action)
      ensures flow != Done ==> disk == old(disk)
      ensures old(faults) == [] ==> flow == Done && faults == []
    {
      assert StateOf(disk, action) == Absent ==> Without(disk, action) == disk;
      flow := Done;
      if action.Backup? && action.name in disk.markers && Matches(disk.markers[action.name], action) {
        assert VouchesFor(disk.markers[action.name], action.name, action);
        flow := UnlinkMarker(plan, run, action.name);
      }
    }

    /** `apply_gc` for a plan of one action: its checks, then the removals. */
    method DeleteArtifact(plan: Plan, run: RunId, action: Action) returns (flow: Flow)
      requires Valid() && StandsAt(disk, run, action) && IndexNames(disk, run)
      requires CheckPlanned(disk, plan, action) == StillPlanned
      modifies this
      ensures Valid() && Continues(old(history), history) && OnlyRemoves(old(disk), disk)
      ensures flow == Done ==> Removable(old(disk), action) && disk == Without(old(disk), action)
      ensures old(faults) == [] && Removable(old(disk), action) ==> flow == Done
      ensures old(faults) == [] ==> faults == [] && flow != Crashed
    {
      flow := Raised;
      if Removable(disk, action) {
        assert MayRemove(plan, disk, run, action);
        if action.Release? {
          flow := UnlinkArtifact(plan, run, action);
        } else {
          flow := DeleteBackup(plan, run, action);
        }
      }
    }

    method DeleteBackup(plan: Plan, run: RunId, action: Action) returns (flow: Flow)
      requires Valid() && action.Backup? && MayRemove(plan, disk, run, action)
      modifies this
      ensures Valid() && Continues(old(history), history) && OnlyRemoves(old(disk), disk)
      ensures flow == Done ==> disk == Without(old(disk), action)
      ensures old(faults) == [] ==> flow == Done && faults == []
    {
      ghost var before := disk;
      flow := UnlinkArtifact(plan, run, action);
      if flow == Done {
        MarkerIsNext(before, disk, run, action);
        flow := UnlinkMarker(plan, run, action.name);
      }
    }

    /** `record_progress`: the cursor in memory moves first, then the row is written. */
    method RecordProgress(plan: Plan, run: RunId, action: Action, following: Digest,
                          before: Cursor, deletedBefore: int)
      returns (flow: Flow, cursor: Cursor, deletedCount: int)
      requires Valid() && StandsAt(disk, run, action) && ArtifactGone(disk, action)
      requires before == disk.runs[run].cursor.(cleanup := None) && deletedBefore == disk.runs[run].deletedCount
      requires following == ChainFrom(Listed(before.root), before.nextIndex + 1)
      requires CollectedBelow(disk, Listed(before.root), before.nextIndex)
      modifies this
      ensures Valid() && Continues(old(history), history)
      ensures flow == Done ==>
                && disk == Updated(old(disk), run, Planned, cursor, deletedCount, None)
                && cursor == Advanced(before) && deletedCount == deletedBefore + 1
      ensures flow != Done ==> disk == old(disk) && MayFail(disk, run, cursor, deletedCount)
      ensures old(faults) == [] ==> flow == Done && faults == []
    {
      cursor := before.(nextIndex := before.nextIndex + 1, nextSha := following, cleanup := Some(action));
      deletedCount := deletedBefore + 1;
      RecordingIsAllowed(plan, disk, run, action, before, deletedBefore);
      flow := Commit(plan, AdvanceRun(run, cursor, deletedCount));
    }

    /** The marker cleanup a crash may have left owing from the last recorded action. */
    method FinishCleanup(plan: Plan, run: RunId) returns (flow: Flow)
      requires Valid() && Pending(disk, run) && WellFormed(disk.runs[run].cursor)
      modifies this
      ensures Valid() && Continues(old(history), history) && OnlyRemoves(old(disk), disk)
      ensures disk.releases == old(disk).releases && disk.backups == old(disk).backups
      ensures flow == Done ==>
                && CleanupReady(old(disk), disk.runs[run].cursor)
                && disk == Cleaned(old(disk), disk.runs[run].cursor)
                && CollectedBelow(disk, Listed(disk.runs[run].cursor.root), disk.runs[run].cursor.nextIndex)
      ensures old(faults) == [] && CleanupReady(old(disk), old(disk).runs[run].cursor) ==> flow == Done
      ensures old(faults) == [] ==> faults == [] && flow != Crashed
    {
      ghost var before := disk;
      var cursor := disk.runs[run].cursor;
      assert PrefixCollected(disk, cursor) by {
        Sound();
      }
      flow := Done;
      if cursor.cleanup.Some? {
        var action := cursor.cleanup.value;
        assert BoundActions(cursor)[cursor.nextIndex - 1] == action;
        var state := StateOf(disk, action);
        if state == Unsafe {
          flow := Raised;
        } else if state == MarkerOnly {
          flow := CleanupArtifacts(plan, run, action);
          CollectedStays(before, disk, Listed(cursor.root), cursor.nextIndex - 1);
        }
      }
    }

    /** Revalidation of the whole batch before anything is deleted: the first action that is not fine decides. */
    method Revalidate(plan: Plan, entries: seq<Entry>) returns (verdict: Verdict)
      ensures verdict == AllPlanned <==> AllFine(disk, plan, ActionsIn(entries))
      ensures verdict == FoundStale <==> StaleFirst(disk, plan, ActionsIn(entries))
    {
      ghost var batch := ActionsIn(entries);
      for i := 0 to |entries|
        invariant AllFine(disk, plan, batch[..i])
      {
        var action := entries[i].action;
        FirstBad(disk, plan, batch, i);
        var state := StateOf(disk, action);
        if state == Unsafe {
          return Unreadable;
        }
        if state == Present {
          var check := CheckPlanned(disk, plan, action);
          if check == PlanChanged {
            return FoundStale;
          }
          if check == CheckFailed {
            return Unreadable;
          }
        }
      }
      assert batch[..|entries|] == batch;
      return AllPlanned;
    }

    /** One action of the deletion loop.  An artifact still there is deleted and then recorded; one
        already gone is recorded and then its marker is cleaned up. */
    method CollectOne(plan: Plan, run: RunId, entry: Entry, before: Cursor, deletedBefore: int)
      returns (flow: Flow, cursor: Cursor, deletedCount: int)
      requires Valid() && Working(disk, run, before, deletedBefore)
      requires StandsAt(disk, run, entry.action) && IndexNames(disk, run)
      requires entry.following == ChainFrom(Listed(before.root), before.nextIndex + 1)
      modifies this
      ensures Valid() && Continues(old(history), history) && OnlyProgresses(old(disk), disk, run)
      ensures flow == Done ==>
                && Working(disk, run, cursor, deletedCount)
                && cursor.nextIndex == before.nextIndex + 1
                && disk.runs[run].cursor == Advanced(before)
                && Ready(old(disk), plan, entry.action) && SameArtifacts(Without(old(disk), entry.action), disk)
      ensures flow == Raised ==> MayFail(disk, run, cursor, deletedCount)
      ensures old(faults) == [] && Ready(old(disk), plan, entry.action) ==> flow == Done
      ensures old(faults) == [] ==> faults == [] && flow != Crashed
      ensures flow == Crashed ==> Pending(disk, run)
    {
      flow, cursor, deletedCount := Raised, before, deletedBefore;
      Idle(disk, run, before, deletedBefore);
      var state := StateOf(disk, entry.action);
      if state == Present {
        if CheckPlanned(disk, plan, entry.action) == StillPlanned {
          flow, cursor, deletedCount := DeleteAndRecord(plan, run, entry, before, deletedBefore);
        }
      } else if state != Unsafe {
        flow, cursor, deletedCount := RecordAndCleanup(plan, run, entry, before, deletedBefore);
      }
      if flow == Done {
        cursor := cursor.(cleanup := None);
      }
    }

    method DeleteAndRecord(plan: Plan, run: RunId, entry: Entry, before: Cursor, deletedBefore: int)
      returns (flow: Flow, cursor: Cursor, deletedCount: int)
      requires Valid() && Working(disk, run, before, deletedBefore)
      requires StandsAt(disk, run, entry.action) && IndexNames(disk, run)
      requires entry.following == ChainFrom(Listed(before.root), before.nextIndex + 1)
      requires CheckPlanned(disk, plan, entry.action) == StillPlanned
      modifies this
      ensures Valid() && Continues(old(history), history) && OnlyProgresses(old(disk), disk, run)
      ensures flow == Done ==>
                && Removable(old(disk), entry.action)
                && disk == Updated(Without(old(disk), entry.action), run, Planned, cursor, deletedCount, None)
                && cursor == Advanced(before) && deletedCount == deletedBefore + 1
                && Working(disk, run, cursor.(cleanup := None), deletedCount)
      ensures flow == Raised ==> MayFail(disk, run, cursor, deletedCount)
      ensures old(faults) == [] && Removable(old(disk), entry.action) ==> flow == Done
      ensures old(faults) == [] ==> faults == [] && flow != Crashed
      ensures flow == Crashed ==> Pending(disk, run)
    {
      ghost var start := disk;
      cursor, deletedCount := before, deletedBefore;
      Deleted(start, run, entry.action, before, deletedBefore);
      flow := DeleteArtifact(plan, run, entry.action);
      if flow == Done {
        flow, cursor, deletedCount := RecordProgress(plan, run, entry.action, entry.following, before, deletedBefore);
        RecordedIsWorking(start, run, entry.action, before, deletedBefore);
      } else {
        PartlyDeleted(start, disk, run, before, deletedBefore);
      }
    }

    method RecordAndCleanup(plan: Plan, run: RunId, entry: Entry, before: Cursor, deletedBefore: int)
      returns (flow: Flow, cursor: Cursor, deletedCount: int)
      requires Valid() && Working(disk, run, before, deletedBefore)
      requires StandsAt(disk, run, entry.action)
      requires entry.following == ChainFrom(Listed(before.root), before.nextIndex + 1)
      requires StateOf(disk, entry.action) in {Absent, MarkerOnly}
      modifies this
      ensures Valid() && Continues(old(history), history) && OnlyProgresses(old(disk), disk, run)
      ensures flow == Done ==>
                && disk == Updated(Without(old(disk), entry.action), run, Planned, cursor, deletedCount, None)
                && cursor == Advanced(before) && deletedCount == deletedBefore + 1
                && Working(disk, run, cursor.(cleanup := None), deletedCount)
      ensures flow == Raised ==> MayFail(disk, run, cursor, deletedCount)
      ensures old(faults) == [] ==> flow == Done && faults == []
      ensures flow == Crashed ==> Pending(disk, run)
    {
      ghost var start := disk;
      Idle(start, run, before, deletedBefore);
      assert Advanced(before) == Advanced(start.runs[run].cursor);
      RecordedIsReached(start, run, entry.action, Advanced(before), deletedBefore + 1);
      Deleted(start, run, entry.action, before, deletedBefore);
      RecordedIsWorking(start, run, entry.action, before, deletedBefore);
      flow, cursor, deletedCount := RecordProgress(plan, run, entry.action, entry.following, before, deletedBefore);
      if flow == Done {
        flow := CleanupArtifacts(plan, run, entry.action);
      }
    }

    /** The deletion loop over a batch that has been read and revalidated.  It gets through only if every
        action was ready at the start. */
    method CollectEntries(plan: Plan, run: RunId, entries: seq<Entry>, start: Cursor, deletedAtStart: int)
      returns (flow: Flow, cursor: Cursor, deletedCount: int)
      requires Valid() && Working(disk, run, start, deletedAtStart)
      requires start.nextIndex + |entries| <= start.actionCount && InHand(disk, run, start.nextIndex, entries)
      requires AllFine(disk, plan, ActionsIn(entries))
      modifies this
      ensures Valid() && Continues(old(history), history) && OnlyProgresses(old(disk), disk, run)
      ensures flow == Done ==>
                && Working(disk, run, cursor, deletedCount)
                && cursor.nextIndex == start.nextIndex + |entries|
                && BatchIsReady(old(disk), plan, ActionsIn(entries)) && KeepsReady(old(disk), disk)
      ensures flow == Raised ==> MayFail(disk, run, cursor, deletedCount)
      ensures old(faults) == [] && BatchIsReady(old(disk), plan, ActionsIn(entries)) ==> flow == Done
      ensures old(faults) == [] ==> faults == [] && flow != Crashed
      ensures flow == Crashed ==> Pending(disk, run)
    {
      ghost var batch := ActionsIn(entries);
      cursor, deletedCount := start, deletedAtStart;
      Idle(disk, run, start, deletedAtStart);
      for i := 0 to |entries|
        invariant Valid() && Continues(old(history), history) && OnlyProgresses(old(disk), disk, run)
        invariant Working(disk, run, cursor, deletedCount)
        invariant SameCursor(start, cursor) && cursor.nextIndex == start.nextIndex + i
        invariant InHand(disk, run, start.nextIndex, entries)
        invariant SameArtifacts(WithoutAll(old(disk), batch, i), disk) && WereReady(old(disk), plan, batch, i)
        invariant old(faults) == [] ==> faults == []
      {
        ghost var before := disk;
        ReadyInTurn(old(disk), before, plan, batch, i);
        flow, cursor, deletedCount := CollectEntry(plan, run, entries, i, cursor, deletedCount);
        ProgressComposes(old(disk), before, disk, run);
        if flow != Done {
          return;
        }
        WithoutNext(old(disk), before, disk, batch, i);
        InHandStays(before, disk, run, start.nextIndex, entries);
      }
      AllCollected(old(disk), disk, plan, batch);
      flow := Done;
    }

    method CollectEntry(plan: Plan, run: RunId, entries: seq<Entry>, i: nat, before: Cursor, deletedBefore: int)
      returns (flow: Flow, cursor: Cursor, deletedCount: int)
      requires Valid() && Working(disk, run, before, deletedBefore)
      requires i < |entries| && i <= before.nextIndex && before.nextIndex - i + |entries| <= before.actionCount
      requires InHand(disk, run, before.nextIndex - i, entries)
      modifies this
      ensures Valid() && Continues(old(history), history) && OnlyProgresses(old(disk), disk, run)
      ensures flow == Done ==>
                && Working(disk, run, cursor, deletedCount) && SameCursor(before, cursor)
                && cursor.nextIndex == before.nextIndex + 1
                && Ready(old(disk), plan, entries[i].action)
                && SameArtifacts(Without(old(disk), entries[i].action), disk)
      ensures flow == Raised ==> MayFail(disk, run, cursor, deletedCount)
      ensures flow == Crashed ==> Pending(disk, run)
      ensures old(faults) == [] && Ready(old(disk), plan, entries[i].action) ==> flow == Done
      ensures old(faults) == [] ==> faults == [] && flow != Crashed
    {
      AtEntry(disk, run, before.nextIndex - i, entries, i);
      flow, cursor, deletedCount := CollectOne(plan, run, entries[i], before, deletedBefore);
    }

    /** The run is ended as failed, with its evidence kept. */
    method Fail(plan: Plan, run: RunId, cursor: Cursor, deletedCount: int, code: FailureCode) returns (flow: Flow)
      requires Valid() && MayFail(disk, run, cursor, deletedCount)
      modifies this
      ensures Valid() && Continues(old(history), history)
      ensures flow == Done ==> disk == Updated(old(disk), run, Failed, cursor, deletedCount, Some(code))
      ensures flow != Done ==> disk == old(disk)
      ensures old(faults) == [] ==> flow == Done && faults == []
    {
      flow := Commit(plan, FailRun(run, cursor, deletedCount, code));
    }

    /** The next batch as the index file now gives it, or a failure. */
    method ReadNext(run: RunId, cursor: Cursor) returns (batch: Result<seq<Entry>>)
      requires WellFormed(cursor)
      ensures batch.Success? ==>
                && run in disk.indexes
                && batch.value == Slice(Listed(cursor.root), cursor.nextIndex, BatchEndOf(cursor))
                && Intact(Listed(cursor.root), disk.indexes[run], cursor.nextIndex, BatchEndOf(cursor))
      ensures batch.Failure? ==>
                run in disk.indexes ==>
                  !Intact(Listed(cursor.root), disk.indexes[run], cursor.nextIndex, BatchEndOf(cursor))
    {
      if run !in disk.indexes {
        return Failure("backup_retention_evidence");
      }
      ghost var actions := Listed(cursor.root);
      var file, start, last := disk.indexes[run], cursor.nextIndex, BatchEndOf(cursor);
      batch := ReadBatch(file, start, last, cursor.nextSha, cursor.actionCount);
      if batch.Success? {
        AcceptedBatchIsOriginal(actions, file, start, last, cursor.actionCount);
      } else if Intact(actions, file, start, last) {
        IntactBatchIsAccepted(actions, file, start, last);
      }
    }

    /** Read a batch, revalidate all of it, delete it, close it.  On BatchRaised the locals are what
        the caller may still write to the row. */
    method CollectNext(plan: Plan, run: RunId, start: Cursor, deletedAtStart: int)
      returns (end: BatchEnd, cursor: Cursor, deletedCount: int)
      requires Valid() && Working(disk, run, start, deletedAtStart) && WellFormed(disk.runs[run].cursor)
      modifies this
      ensures Valid() && Continues(old(history), history)
      ensures BatchMeets(old(disk), disk, plan, run, NextActions(start), BatchEndOf(start), end)
      ensures end.Closed? || end == Superseded ==> IndexHolds(old(disk), run)
      ensures end == BatchRaised ==> MayFail(disk, run, cursor, deletedCount)
      ensures old(faults) == [] ==> faults == [] && end != BatchCrashed
      ensures old(faults) == [] && IndexHolds(old(disk), run) ==>
                BatchIsDue(old(disk), disk, plan, run, NextActions(start), end)
    {
      end, cursor, deletedCount := BatchRaised, start, deletedAtStart;
      Idle(disk, run, start, deletedAtStart);
      var batch := ReadNext(run, start);
      if batch.Success? {
        ActionsInSlice(Listed(start.root), start.nextIndex, BatchEndOf(start));
        end, cursor, deletedCount := CollectRead(plan, run, batch.value, start, deletedAtStart);
      }
    }

    /** The batch as it was read: revalidated, then superseded or deleted and closed. */
    method CollectRead(plan: Plan, run: RunId, entries: seq<Entry>, start: Cursor, deletedAtStart: int)
      returns (end: BatchEnd, cursor: Cursor, deletedCount: int)
      requires Valid() && Working(disk, run, start, deletedAtStart)
      requires start.nextIndex + |entries| == BatchEndOf(start) && InHand(disk, run, start.nextIndex, entries)
      modifies this
      ensures Valid() && Continues(old(history), history)
      ensures BatchMeets(old(disk), disk, plan, run, ActionsIn(entries), BatchEndOf(start), end)
      ensures end == BatchRaised ==> MayFail(disk, run, cursor, deletedCount)
      ensures old(faults) == [] ==> faults == [] && BatchIsDue(old(disk), disk, plan, run, ActionsIn(entries), end)
    {
      end, cursor, deletedCount := BatchRaised, start, deletedAtStart;
      ghost var batch := ActionsIn(entries);
      Idle(disk, run, start, deletedAtStart);
      if BatchIsReady(disk, plan, batch) {
        ReadyIsFine(disk, plan, batch);
      }
      var verdict := Revalidate(plan, entries);
      if verdict == FoundStale {
        UpdateProgresses(disk, run, Failed, start, deletedAtStart, Some(PlanSuperseded));
        var flow := Fail(plan, run, start, deletedAtStart, PlanSuperseded);
        end := if flow == Done then Superseded else if flow == Raised then BatchRaised else BatchCrashed;
      } else if verdict == AllPlanned {
        end, cursor, deletedCount := DeleteAndClose(plan, run, entries, start, deletedAtStart);
      }
    }

    method DeleteAndClose(plan: Plan, run: RunId, entries: seq<Entry>, start: Cursor, deletedAtStart: int)
      returns (end: BatchEnd, cursor: Cursor, deletedCount: int)
      requires Valid() && Working(disk, run, start, deletedAtStart)
      requires start.nextIndex + |entries| == BatchEndOf(start)
      requires InHand(disk, run, start.nextIndex, entries) && AllFine(disk, plan, ActionsIn(entries))
      modifies this
      ensures Valid() && Continues(old(history), history)
      ensures end != Superseded && BatchMeets(old(disk), disk, plan, run, ActionsIn(entries), BatchEndOf(start), end)
      ensures end == BatchRaised ==> MayFail(disk, run, cursor, deletedCount)
      ensures old(faults) == [] ==> faults == [] && BatchIsDue(old(disk), disk, plan, run, ActionsIn(entries), end)
    {
      ghost var before := disk;
      var flow;
      flow, cursor, deletedCount := CollectEntries(plan, run, entries, start, deletedAtStart);
      if flow == Done {
        ghost var middle := disk;
        end := Close(plan, run, cursor, deletedCount);
        DeletedMeets(before, middle, disk, plan, run, ActionsIn(entries), BatchEndOf(start), end);
      } else {
        end := if flow == Crashed then BatchCrashed else BatchRaised;
        UndeletedMeets(before, disk, plan, run, ActionsIn(entries), BatchEndOf(start), end);
      }
    }

    /** The row after the batch: still planned if actions are left, applied if not. */
    method Close(plan: Plan, run: RunId, cursor: Cursor, deletedCount: int) returns (end: BatchEnd)
      requires Valid() && Working(disk, run, cursor, deletedCount)
      modifies this
      ensures Valid() && Continues(old(history), history) && RunProgresses(old(disk), disk, run)
      ensures end != Superseded
      ensures end.Closed? ==> ClosedAt(disk, run, end.status, cursor.nextIndex)
      ensures end == BatchRaised ==> MayFail(disk, run, cursor, deletedCount)
      ensures old(faults) == [] ==> faults == [] && end.Closed?
      ensures old(faults) == [] && end == Closed(Applied) ==> run !in disk.indexes && run !in disk.manifests
      ensures end == BatchCrashed ==> NotLost(disk, run)
      ensures SameArtifacts(old(disk), disk) && (end == Closed(Planned) ==> disk.indexes == old(disk).indexes)
    {
      var status := if cursor.nextIndex < cursor.actionCount then Planned else Applied;
      RemovalProgresses(disk, disk, run);
      ClosingRow(disk, run, status, cursor, deletedCount);
      var flow := WriteClosed(plan, run, status, cursor, deletedCount);
      if flow == Done && status == Applied {
        flow := DropEvidence(plan, run);
      }
      end := if flow == Done then Closed(status) else if flow == Raised then BatchRaised else BatchCrashed;
    }

    method WriteClosed(plan: Plan, run: RunId, status: Status, cursor: Cursor, deletedCount: int) returns (flow: Flow)
      requires Valid() && Working(disk, run, cursor, deletedCount)
      requires status == if cursor.nextIndex < cursor.actionCount then Planned else Applied
      modifies this
      ensures Valid() && Continues(old(history), history)
      ensures disk == if flow == Done then Updated(old(disk), run, status, cursor, deletedCount, None) else old(disk)
      ensures old(faults) == [] ==> flow == Done && faults == []
    {
      flow := Commit(plan, CloseBatch(run, status, cursor, deletedCount));
    }

    /** The evidence of an applied run; a failing unlink is only a warning. */
    method DropEvidence(plan: Plan, run: RunId) returns (flow: Flow)
      requires Valid() && run in disk.runs && disk.runs[run].status == Applied
      modifies this
      ensures Valid() && Continues(old(history), history)
      ensures disk == old(disk).(indexes := disk.indexes, manifests := disk.manifests)
      ensures flow != Raised
      ensures old(faults) == [] ==> flow == Done && faults == [] && run !in disk.indexes && run !in disk.manifests
    {
      flow := UnlinkIndex(plan, run);
      if flow == Done {
        flow := UnlinkManifest(plan, run);
      }
      if flow == Raised {
        flow := Done;
      }
    }

    /** The `try` block of `apply_resumable_gc` for one run: finish what is owed, then the batch; any
        exception ends the run as failed. */
    method CollectBatch(plan: Plan, run: RunId) returns (end: BatchEnd)
      requires Valid() && Pending(disk, run) && WellFormed(disk.runs[run].cursor)
      modifies this
      ensures Valid() && Continues(old(history), history) && RunMeets(old(disk), disk, plan, run, end)
      ensures old(faults) == [] ==>
                && faults == [] && RunIsDue(old(disk), disk, plan, run, end)
                && (end == BatchRaised ==> WrittenOffAt(disk, run, ErrorRaised))
    {
      ghost var start := disk;
      var cursor, deletedCount;
      end, cursor, deletedCount := TryBatch(plan, run);
      if end == BatchRaised {
        end := Abandon(plan, run, cursor, deletedCount, start);
      }
    }

    /** Finish what is owed, then the batch.  On BatchRaised the locals are what may still be written. */
    method TryBatch(plan: Plan, run: RunId) returns (end: BatchEnd, cursor: Cursor, deletedCount: int)
      requires Valid() && Pending(disk, run) && WellFormed(disk.runs[run].cursor)
      modifies this
      ensures Valid() && Continues(old(history), history) && RunMeets(old(disk), disk, plan, run, end)
      ensures old(faults) == [] ==> faults == [] && RunIsDue(old(disk), disk, plan, run, end)
      ensures end == BatchRaised ==> MayFail(disk, run, cursor, deletedCount)
    {
      ghost var start := disk;
      cursor, deletedCount := disk.runs[run].cursor, disk.runs[run].deletedCount;
      var flow := FinishCleanup(plan, run);
      cursor := cursor.(cleanup := None);
      if flow == Done {
        CleanIsWorking(disk, run);
        end, cursor, deletedCount := CollectNext(plan, run, cursor, deletedCount);
        BatchMeetsRun(start, disk, plan, run, end, old(faults) == []);
      } else {
        end := if flow == Crashed then BatchCrashed else BatchRaised;
        UncleanedMeets(start, disk, plan, run, end, old(faults) == []);
      }
    }

    /** A batch of a run that nothing stands in the way of: it is not superseded, without a fault it is closed,
        and if actions are left the run is still on course. */
    method NextBatch(plan: Plan, run: RunId) returns (end: BatchEnd)
      requires Valid() && Pending(disk, run) && WellFormed(disk.runs[run].cursor)
      modifies this
      ensures Valid() && Continues(old(history), history) && RunMeets(old(disk), disk, plan, run, end)
      ensures old(faults) == [] ==>
                && faults == [] && RunIsDue(old(disk), disk, plan, run, end)
                && (end == BatchRaised ==> WrittenOffAt(disk, run, ErrorRaised))
      ensures OnCourse(old(disk), plan, run) ==>
                && end != Superseded && (old(faults) == [] ==> end.Closed?)
                && (end == Closed(Planned) ==> OnCourse(disk, plan, run))
    {
      ghost var before := disk;
      if OnCourse(before, plan, run) {
        OnCourseIsReady(before, plan, run);
        ReadyIsNotOutdated(before, plan, run);
      }
      end := CollectBatch(plan, run);
      if OnCourse(before, plan, run) && end == Closed(Planned) {
        ClosedBatchStaysOnCourse(before, disk, plan, run);
      }
    }

    /** The exception handler: the run is ended as failed, if that can still be written. */
    method Abandon(plan: Plan, run: RunId, cursor: Cursor, deletedCount: int, ghost start: Disk) returns (end: BatchEnd)
      requires Valid() && MayFail(disk, run, cursor, deletedCount)
      requires RunProgresses(start, disk, run)
      modifies this
      ensures Valid() && Continues(old(history), history) && RunProgresses(start, disk, run)
      ensures SameArtifacts(old(disk), disk)
      ensures end == BatchRaised || end == BatchCrashed
      ensures old(faults) == [] ==> faults == [] && end == BatchRaised && WrittenOffAt(disk, run, ErrorRaised)
      ensures end == BatchCrashed ==> disk == old(disk)
    {
      ghost var before := disk;
      UpdateProgresses(disk, run, Failed, cursor, deletedCount, Some(ErrorRaised));
      var flow := Fail(plan, run, cursor, deletedCount, ErrorRaised);
      if flow == Done {
        ProgressComposes(start, before, disk, run);
      }
      end := if flow == Crashed then BatchCrashed else BatchRaised;
    }

    /** `_cleanup_orphan_gc_manifests`: first decide from the audit rows, then unlink. */
    method CleanupOrphans(plan: Plan) returns (flow: Flow)
      requires Valid()
      modifies this
      ensures Valid() && Continues(old(history), history) && OnlyOrphansDropped(old(disk), disk)
      ensures flow == Done ==> NoOrphans(disk)
      ensures old(faults) == [] ==> flow == Done && faults == []
    {
      var manifests := set run | run in disk.manifests && Orphan(disk, run);
      flow := DropIndexes(plan, set run | run in disk.indexes && Orphan(disk, run));
      if flow == Done {
        flow := DropManifests(plan, manifests, old(disk));
      }
    }

    method DropIndexes(plan: Plan, orphans: set<RunId>) returns (flow: Flow)
      requires Valid() && IsOrphansOf(disk, disk.indexes.Keys, orphans)
      modifies this
      ensures Valid() && Continues(old(history), history) && OnlyOrphansDropped(old(disk), disk)
      ensures disk.manifests == old(disk).manifests
      ensures flow == Done ==> forall run | run in disk.indexes :: !Orphan(disk, run)
      ensures old(faults) == [] ==> flow == Done && faults == []
    {
      var todo := orphans;
      while todo != {}
        invariant Valid() && Continues(old(history), history) && OnlyOrphansDropped(old(disk), disk)
        invariant disk.manifests == old(disk).manifests
        invariant IsOrphansOf(disk, disk.indexes.Keys, todo)
        invariant old(faults) == [] ==> faults == []
        decreases todo
      {
        var run :| run in todo;
        OrphanDropComposes(old(disk), disk, run);
        flow := UnlinkIndex(plan, run);
        if flow != Done {
          return;
        }
        todo := todo - {run};
      }
      flow := Done;
    }

    method DropManifests(plan: Plan, orphans: set<RunId>, ghost start: Disk) returns (flow: Flow)
      requires Valid() && IsOrphansOf(disk, disk.manifests.Keys, orphans)
      requires OnlyOrphansDropped(start, disk)
      requires forall run | run in disk.indexes :: !Orphan(disk, run)
      modifies this
      ensures Valid() && Continues(old(history), history) && OnlyOrphansDropped(start, disk)
      ensures flow == Done ==> NoOrphans(disk)
      ensures old(faults) == [] ==> flow == Done && faults == []
    {
      var todo := orphans;
      while todo != {}
        invariant Valid() && Continues(old(history), history) && OnlyOrphansDropped(start, disk)
        invariant disk.indexes == old(disk).indexes && disk.runs == old(disk).runs
        invariant IsOrphansOf(disk, disk.manifests.Keys, todo)
        invariant old(faults) == [] ==> faults == []
        decreases todo
      {
        var run :| run in todo;
        OrphanDropComposes(start, disk, run);
        flow := UnlinkManifest(plan, run);
        if flow != Done {
          return;
        }
        todo := todo - {run};
      }
      flow := Done;
    }

    /** A fresh run: the index first, then the audit row; if the row cannot be written the index goes. */
    method StartRun(plan: Plan, subject: Label, run: RunId) returns (flow: Flow)
      requires Valid() && DistinctNames(plan.backups)
      requires run !in disk.runs && PendingOf(disk, subject) == {}
      modifies this
      ensures Valid() && Continues(old(history), history)
      ensures flow == Done ==> FreshFor(old(disk), disk, plan, subject, run)
      ensures flow != Done ==> disk.runs == old(disk).runs
      ensures old(faults) == [] && AllHashable(old(disk), plan.releases) ==> flow == Done
      ensures old(faults) == [] ==> faults == [] && flow != Crashed
    {
      PlanIsSpelled(disk, plan);
      var planned := PlanActions(disk, plan);
      if planned.None? {
        return Raised;
      }
      var file, root := WriteIndex(planned.value);
      flow := StoreIndex(plan, run, file);
      if flow == Done {
        flow := InsertRow(plan, subject, run, planned.value, root);
      }
    }

    method InsertRow(plan: Plan, subject: Label, run: RunId, actions: seq<Action>, root: Digest) returns (flow: Flow)
      requires Valid() && DistinctNames(plan.backups)
      requires run !in disk.runs && PendingOf(disk, subject) == {}
      requires Spells(disk, plan, actions) && root == ChainFrom(actions, 0)
      requires run in disk.indexes && disk.indexes[run] == IndexOf(actions)
      modifies this
      ensures Valid() && Continues(old(history), history)
      ensures flow == Done ==> FreshFor(old(disk), disk, plan, subject, run)
      ensures flow != Done ==> disk.runs == old(disk).runs
      ensures old(faults) == [] ==> flow == Done && faults == []
    {
      var cursor := Cursor(5, 0, |actions|, root, root, Some(plan.planId), plan.policy, plan.protection, [], None);
      var row := Run(subject, plan.planId, Planned, cursor, 0, None);
      FreshRow(disk, plan, run, actions, row);
      flow := Commit(plan, InsertRun(run, row));
      if flow == Raised {
        flow := UnlinkIndex(plan, run);
        flow := if flow == Crashed then Crashed else Raised;
      }
    }

    /** The action list of a legacy run: the one it carries, or the manifest if it still hashes right. */
    method ReadLegacy(run: RunId) returns (actions: Option<seq<Action>>)
      requires Pending(disk, run) && disk.runs[run].cursor.version != 5
      ensures actions == if ListReadable(disk, run) then Some(BoundActions(disk.runs[run].cursor)) else None
    {
      var cursor := disk.runs[run].cursor;
      if cursor.version != 4 {
        return Some(cursor.legacy);
      }
      if run !in disk.manifests || !AllJson(disk.manifests[run]) {
        return None;
      }
      var lines := disk.manifests[run];
      if ManifestDigest(lines) != cursor.root || |lines| != cursor.actionCount {
        return None;
      }
      return Some(Decoded(lines));
    }

    /** `_cleanup_completed_legacy_actions`. */
    method CleanupLegacy(plan: Plan, run: RunId, actions: seq<Action>) returns (flow: Flow)
      requires Valid() && Pending(disk, run) && actions == BoundActions(disk.runs[run].cursor)
      requires DistinctKeys(actions)
      modifies this
      ensures Valid() && Continues(old(history), history) && OnlyMarkersGo(old(disk), disk)
      ensures flow == Done ==> CleanedTo(old(disk), disk, actions, disk.runs[run].cursor.nextIndex)
      ensures old(faults) == [] ==> faults == [] && flow != Crashed
      ensures old(faults) == [] && NoneUnsafe(old(disk), actions) ==> flow == Done
    {
      var next := disk.runs[run].cursor.nextIndex;
      var count := if next < 0 then 0 else if next < |actions| then next else |actions|;
      for i := 0 to count
        invariant Valid() && Continues(old(history), history)
        invariant CleanedTo(old(disk), disk, actions, i)
        invariant old(faults) == [] ==> faults == []
      {
        flow := CleanupCompleted(plan, run, actions, i, old(disk));
        if flow != Done {
          return;
        }
      }
      flow := Done;
    }

    method CleanupCompleted(plan: Plan, run: RunId, actions: seq<Action>, i: nat, ghost start: Disk)
      returns (flow: Flow)
      requires Valid() && Pending(disk, run) && actions == BoundActions(disk.runs[run].cursor)
      requires DistinctKeys(actions) && i < |actions| && i < disk.runs[run].cursor.nextIndex
      requires CleanedTo(start, disk, actions, i)
      modifies this
      ensures Valid() && Continues(old(history), history)
      ensures if flow == Done then CleanedTo(start, disk, actions, i + 1) else disk == old(disk)
      ensures old(faults) == [] ==> faults == [] && flow != Crashed
      ensures old(faults) == [] && StateOf(start, actions[i]) != Unsafe ==> flow == Done
    {
      assert ArtifactGone(disk, actions[i]) by {
        Sound();
        assert PrefixCollected(disk, disk.runs[run].cursor);
      }
      CleanedNext(start, disk, actions, i);
      var state := StateOf(disk, actions[i]);
      flow := if state == Unsafe then Raised else Done;
      if state == MarkerOnly {
        flow := CleanupArtifacts(plan, run, actions[i]);
      }
    }

    /** The indexed replacement of a legacy plan: index first, then the cursor that points into it. */
    method IndexLegacy(plan: Plan, run: RunId, actions: seq<Action>) returns (flow: Flow)
      requires Valid() && Pending(disk, run) && disk.runs[run].cursor.version != 5
      requires InBounds(disk.runs[run].cursor) && actions == BoundActions(disk.runs[run].cursor)
      requires CollectedBelow(disk, actions, disk.runs[run].cursor.nextIndex)
      modifies this
      ensures Valid() && Continues(old(history), history)
      ensures SameArtifacts(old(disk), disk)
      ensures flow == Done ==>
                && old(disk).runs[run].cursor.nextIndex <= |actions| && ConvertedAt(old(disk), disk, run)
                && UnderPlan(plan, disk.runs[run].cursor)
      ensures flow != Done ==> disk.runs == old(disk).runs
      ensures old(faults) == [] ==> faults == [] && flow != Crashed
      ensures old(faults) == [] && old(disk).runs[run].cursor.nextIndex <= |actions| ==> flow == Done
    {
      var file, root := WriteIndex(actions);
      StoredIndexChangesNothingElse(disk, run, file, actions, disk.runs[run].cursor.nextIndex);
      flow := StoreIndex(plan, run, file);
      if flow == Done {
        flow := PointIntoIndex(plan, run, actions, root);
      }
    }

    method PointIntoIndex(plan: Plan, run: RunId, actions: seq<Action>, root: Digest) returns (flow: Flow)
      requires Valid() && Pending(disk, run) && disk.runs[run].cursor.version != 5
      requires InBounds(disk.runs[run].cursor) && actions == BoundActions(disk.runs[run].cursor)
      requires CollectedBelow(disk, actions, disk.runs[run].cursor.nextIndex)
      requires run in disk.indexes && disk.indexes[run] == IndexOf(actions) && root == ChainFrom(actions, 0)
      modifies this
      ensures Valid() && Continues(old(history), history)
      ensures SameArtifacts(old(disk), disk)
      ensures flow == Done ==>
                && old(disk).runs[run].cursor.nextIndex <= |actions| && ConvertedAt(old(disk), disk, run)
                && UnderPlan(plan, disk.runs[run].cursor)
      ensures flow != Done ==> disk == old(disk)
      ensures old(faults) == [] ==> faults == [] && flow != Crashed
      ensures old(faults) == [] && old(disk).runs[run].cursor.nextIndex <= |actions| ==> flow == Done
    {
      var cursor := disk.runs[run].cursor.(version := 5, nextSha := root, root := root, actionCount := |actions|,
                                           policy := plan.policy, protection := plan.protection, legacy := []);
      var position := DigestAt(disk.indexes[run], cursor, actions);
      flow := Raised;
      if position.Some? {
        cursor := cursor.(nextSha := position.value);
        ConversionIsAllowed(plan, disk, run, cursor);
        flow := Commit(plan, ConvertRun(run, cursor));
      }
    }

    /** The digest a migrated cursor needs, found by reading the completed prefix once. */
    method DigestAt(file: IndexFile, cursor: Cursor, ghost actions: seq<Action>) returns (digest: Option<Digest>)
      requires cursor.nextIndex >= 0 && file == IndexOf(actions)
      requires cursor.root == ChainFrom(actions, 0) && cursor.actionCount == |actions|
      ensures digest == if cursor.nextIndex <= |actions| then Some(ChainFrom(actions, cursor.nextIndex)) else None
    {
      if cursor.nextIndex == 0 {
        return Some(cursor.root);
      }
      var entries := ReadBatch(file, 0, cursor.nextIndex, cursor.root, cursor.actionCount);
      if entries.Failure? {
        if cursor.nextIndex <= |actions| {
          IntactBatchIsAccepted(actions, file, 0, cursor.nextIndex);
        }
        return None;
      }
      AcceptedBatchIsOriginal(actions, file, 0, cursor.nextIndex, cursor.actionCount);
      return Some(entries.value[|entries.value| - 1].following);
    }

    /** One-time conversion of a legacy run.  It is refused exactly when the plans clash, and without a fault it
        succeeds exactly when the list can be read and fits. */
    method ConvertLegacy(plan: Plan, run: RunId) returns (result: Conversion)
      requires Valid() && DistinctNames(plan.backups) && Pending(disk, run) && disk.runs[run].cursor.version != 5
      requires InBounds(disk.runs[run].cursor)
      modifies this
      ensures Valid() && Continues(old(history), history)
      ensures disk.releases == old(disk).releases && disk.backups == old(disk).backups
      ensures result == Clashing <==> Clashes(old(disk), plan, run)
      ensures result == Clashing ==> disk == old(disk)
      ensures result == Converted ==>
                && Convertible(old(disk), plan, run) && ConvertedCleanly(old(disk), disk, run)
                && UnderPlan(plan, disk.runs[run].cursor)
      ensures result != Converted ==> disk.runs == old(disk).runs
      ensures old(faults) == [] ==>
                && faults == [] && result != ConversionCrashed
                && (Convertible(old(disk), plan, run) ==> result == Converted)
    {
      var actions := ReadLegacy(run);
      if actions.None? {
        return ConversionRaised;
      }
      var verdict := CheckCompatible(disk, actions.value, CurrentActions(disk, plan));
      if verdict == Incompatible {
        return Clashing;
      }
      if verdict == Undecided {
        return ConversionRaised;
      }
      result := ConvertFitting(plan, run, actions.value);
    }

    /** The conversion of a plan that fits. */
    method ConvertFitting(plan: Plan, run: RunId, actions: seq<Action>) returns (result: Conversion)
      requires Valid() && DistinctNames(plan.backups) && Pending(disk, run) && disk.runs[run].cursor.version != 5
      requires InBounds(disk.runs[run].cursor) && actions == BoundActions(disk.runs[run].cursor)
      requires DistinctKeys(actions) && AllFit(disk, actions, CurrentActions(disk, plan))
      modifies this
      ensures Valid() && Continues(old(history), history)
      ensures disk.releases == old(disk).releases && disk.backups == old(disk).backups
      ensures result != Clashing
      ensures result == Converted ==>
                && old(disk).runs[run].cursor.nextIndex <= |actions| && ConvertedCleanly(old(disk), disk, run)
                && UnderPlan(plan, disk.runs[run].cursor)
      ensures result != Converted ==> disk.runs == old(disk).runs
      ensures old(faults) == [] ==>
                && faults == [] && result != ConversionCrashed
                && (old(disk).runs[run].cursor.nextIndex <= |actions| ==> result == Converted)
    {
      FittingAreSafe(disk, plan, actions);
      var flow := CleanupLegacy(plan, run, actions);
      if flow == Done {
        ghost var cleaned := disk;
        GoneIsCollected(disk, actions, disk.runs[run].cursor.nextIndex);
        flow := IndexLegacy(plan, run, actions);
        if flow == Done {
          CleanlyConverted(old(disk), cleaned, disk, run);
        }
      }
      result := if flow == Done then Converted else if flow == Raised then ConversionRaised else ConversionCrashed;
    }

    /** `apply_resumable_gc`.  `newRun` is the random id a fresh run would get.  Without a fault, what becomes of
        the pending run is its fate.  The measure is the proof that superseding ends: only a run that was
        pending at the start can be superseded. */
    method ApplyResumableGc(plan: Plan, subject: Label, newRun: RunId) returns (outcome: Outcome)
      requires Valid() && DistinctNames(plan.backups) && newRun !in disk.runs
      modifies this
      ensures Valid() && Continues(old(history), history)
      ensures disk.runs.Keys <= old(disk).runs.Keys + {newRun}
      ensures PendingOf(old(disk), subject) == {} ==> OnlyAdds(old(disk), disk)
      ensures outcome.Finished? ==>
                FinishedAt(disk, subject, outcome) && Attributed(old(disk), disk, plan, subject, newRun, outcome)
      ensures old(faults) == [] ==> faults == [] && outcome != GcCrashed
      ensures old(faults) == [] && CanStart(old(disk), plan, subject) ==>
                Restarted(old(disk), disk, plan, newRun, outcome)
      ensures old(faults) == [] ==> forall run | PendingOf(old(disk), subject) == {run} ::
                Fared(old(disk), disk, plan, run, newRun, outcome, FateOf(old(disk), plan, run))
      ensures old(faults) == [] ==> forall run | CanFinish(old(disk), plan, subject, run) ::
                outcome.Finished? && (outcome.status == Planned ==> OnCourse(disk, plan, run))
      ensures outcome == GcCrashed ==> forall run | CanFinish(old(disk), plan, subject, run) ::
                && NotLost(disk, run)
                && (CrashSafe(old(disk), plan, run) && Pending(disk, run) ==>
                      CanFinish(disk, plan, subject, run) && CrashSafe(disk, plan, run))
      decreases if PendingOf(disk, subject) == {} then 0 else 1, 4
    {
      var flow := CleanupOrphans(plan);
      ghost var clean := disk;
      OrphansDoNotMatter(old(disk), clean, plan, subject);
      forall run | CanFinish(old(disk), plan, subject, run) ensures CanFinish(clean, plan, subject, run) {
        OrphansKeepCourse(old(disk), clean, plan, subject, run);
      }
      outcome := if flow == Crashed then GcCrashed else GcRaised;
      if flow == Done {
        outcome := StartOrResume(plan, subject, newRun);
        OrphansKeepOutcome(old(disk), clean, disk, plan, subject, newRun, outcome);
        forall run | old(faults) == [] && PendingOf(old(disk), subject) == {run}
          ensures Fared(old(disk), disk, plan, run, newRun, outcome, FateOf(old(disk), plan, run))
        {
          OrphansKeepFared(old(disk), clean, disk, plan, subject, run, newRun, outcome);
        }
      }
      forall run | CanFinish(old(disk), plan, subject, run) && CrashSafe(old(disk), plan, run) && Pending(disk, run)
        ensures CanFinish(disk, plan, subject, run) && CrashSafe(disk, plan, run)
      {
        CrashKeepsCourse(old(history), history, plan, subject, run);
      }
    }

    /** What is left after the orphans: a fresh run, or the pending one. */
    method StartOrResume(plan: Plan, subject: Label, newRun: RunId) returns (outcome: Outcome)
      requires Valid() && DistinctNames(plan.backups) && newRun !in disk.runs
      modifies this
      ensures Valid() && Continues(old(history), history)
      ensures disk.runs.Keys <= old(disk).runs.Keys + {newRun}
      ensures PendingOf(old(disk), subject) == {} ==> OnlyAdds(old(disk), disk)
      ensures outcome.Finished? ==>
                FinishedAt(disk, subject, outcome) && Attributed(old(disk), disk, plan, subject, newRun, outcome)
      ensures old(faults) == [] ==> faults == [] && outcome != GcCrashed
      ensures old(faults) == [] && CanStart(old(disk), plan, subject) ==>
                Restarted(old(disk), disk, plan, newRun, outcome)
      ensures old(faults) == [] ==> forall run | PendingOf(old(disk), subject) == {run} ::
                Fared(old(disk), disk, plan, run, newRun, outcome, FateOf(old(disk), plan, run))
      ensures old(faults) == [] ==> forall run | CanFinish(old(disk), plan, subject, run) ::
                outcome.Finished? && (outcome.status == Planned ==> OnCourse(disk, plan, run))
      ensures outcome == GcCrashed ==> forall run | CanFinish(old(disk), plan, subject, run) ::
                NotLost(disk, run)
      decreases if PendingOf(disk, subject) == {} then 0 else 1, 3
    {
      var pending := LoadPending(disk, subject);
      outcome := GcRaised;
      if pending.Success? {
        if pending.value.None? {
          outcome := RunFresh(plan, subject, newRun, None);
        } else {
          outcome := ResumeRun(plan, subject, pending.value.value, newRun);
        }
      } else {
        NotLoaded(disk, plan, subject);
      }
    }

    /** No run is pending: start one and collect its first batch.  It cannot be superseded. */
    method RunFresh(plan: Plan, subject: Label, newRun: RunId, superseded: Option<RunId>) returns (outcome: Outcome)
      requires Valid() && DistinctNames(plan.backups) && newRun !in disk.runs && PendingOf(disk, subject) == {}
      modifies this
      ensures Valid() && Continues(old(history), history)
      ensures disk.runs.Keys <= old(disk).runs.Keys + {newRun} && OnlyAdds(old(disk), disk)
      ensures outcome.Finished? ==>
                && FinishedAt(disk, subject, outcome) && CarriesOut(disk, plan, newRun)
                && outcome.run == newRun && outcome.supersededRun == superseded
      ensures old(faults) == [] ==> faults == [] && outcome != GcCrashed
      ensures old(faults) == [] && CanRestart(old(disk), plan) ==> Restarted(old(disk), disk, plan, newRun, outcome)
    {
      var flow := StartRun(plan, subject, newRun);
      if flow == Done {
        outcome := FirstBatch(plan, subject, newRun, superseded, old(disk));
      } else {
        outcome := if flow == Raised then GcRaised else GcCrashed;
      }
    }

    /** The first batch of a run that has just been started. */
    method FirstBatch(plan: Plan, subject: Label, newRun: RunId, superseded: Option<RunId>, ghost before: Disk)
      returns (outcome: Outcome)
      requires Valid() && DistinctNames(plan.backups) && newRun !in before.runs
      requires FreshFor(before, disk, plan, subject, newRun)
      modifies this
      ensures Valid() && Continues(old(history), history)
      ensures disk.runs.Keys <= before.runs.Keys + {newRun} && OnlyAdds(before, disk)
      ensures outcome.Finished? ==>
                && FinishedAt(disk, subject, outcome) && CarriesOut(disk, plan, newRun)
                && outcome.run == newRun && outcome.supersededRun == superseded
      ensures old(faults) == [] ==> faults == [] && outcome != GcCrashed
      ensures old(faults) == [] && CanRestart(before, plan) ==> Restarted(before, disk, plan, newRun, outcome)
    {
      ghost var started := disk;
      if CanRestart(before, plan) {
        StartIsOnCourse(before, started, plan, newRun, subject);
      }
      var end := NextBatch(plan, newRun);
      outcome := Report(disk, newRun, end, superseded);
      FreshFares(before, started, disk, plan, subject, newRun, end, superseded);
    }

    /** A run is pending: drop it if the plan has moved on, convert it if it is old, and go on with it. */
    method ResumeRun(plan: Plan, subject: Label, run: RunId, newRun: RunId) returns (outcome: Outcome)
      requires Valid() && DistinctNames(plan.backups) && newRun !in disk.runs
      requires PendingOf(disk, subject) == {run} && InBounds(disk.runs[run].cursor)
      modifies this
      ensures Valid() && Continues(old(history), history)
      ensures disk.runs.Keys <= old(disk).runs.Keys + {newRun}
      ensures outcome.Finished? ==>
                FinishedAt(disk, subject, outcome) && Attributed(old(disk), disk, plan, subject, newRun, outcome)
      ensures old(faults) == [] ==>
                && faults == [] && outcome != GcCrashed
                && Fared(old(disk), disk, plan, run, newRun, outcome, FateOf(old(disk), plan, run))
      ensures old(faults) == [] && CanFinish(old(disk), plan, subject, run) ==>
                outcome.Finished? && (outcome.status == Planned ==> OnCourse(disk, plan, run))
      ensures outcome == GcCrashed && CanFinish(old(disk), plan, subject, run) ==> NotLost(disk, run)
      decreases if PendingOf(disk, subject) == {} then 0 else 1, 2
    {
      assert run in PendingOf(disk, subject);
      var row := disk.runs[run];
      if row.cursor.planId.Some? && row.cursor.planId.value != row.planId {
        outcome := GcRaised;
      } else if PlanMovedOn(plan, row.cursor) || EvidenceMissing(disk, run) {
        var code := if PlanMovedOn(plan, row.cursor) then PlanSuperseded else EvidenceUnavailable;
        outcome := Replace(plan, subject, run, newRun, code);
      } else if row.cursor.version != 5 {
        outcome := ResumeLegacy(plan, subject, run, newRun);
      } else {
        assert WellFormed(row.cursor) by {
          Sound();
        }
        outcome := Continue(plan, subject, run, newRun);
      }
    }

    /** The pending run is superseded before its plan is looked at, and a fresh one is started. */
    method Replace(plan: Plan, subject: Label, run: RunId, newRun: RunId, code: FailureCode)
      returns (outcome: Outcome)
      requires Valid() && DistinctNames(plan.backups) && newRun !in disk.runs
      requires PendingOf(disk, subject) == {run} && run in disk.runs
      modifies this
      ensures Valid() && Continues(old(history), history)
      ensures disk.runs.Keys <= old(disk).runs.Keys + {newRun}
      ensures outcome.Finished? ==>
                FinishedAt(disk, subject, outcome) && Attributed(old(disk), disk, plan, subject, newRun, outcome)
      ensures old(faults) == [] ==>
                && faults == [] && outcome != GcCrashed
                && Fared(old(disk), disk, plan, run, newRun, outcome, Replaced(code))
    {
      ghost var before := disk;
      var flow := Supersede(plan, subject, run, disk.runs[run].cursor, disk.runs[run].deletedCount, code);
      if flow == Done {
        ghost var ended := disk;
        outcome := RunFresh(plan, subject, newRun, Some(run));
        SameArtifactsKeepReady(before, ended);
        ReplacedFares(before, ended, disk, plan, run, newRun, outcome, code, old(faults) == []);
      } else {
        outcome := if flow == Raised then GcRaised else GcCrashed;
      }
    }

    /** An old cursor: superseded if its plan no longer fits, converted and continued if it does. */
    method ResumeLegacy(plan: Plan, subject: Label, run: RunId, newRun: RunId) returns (outcome: Outcome)
      requires Valid() && DistinctNames(plan.backups) && newRun !in disk.runs
      requires PendingOf(disk, subject) == {run} && Pending(disk, run)
      requires InBounds(disk.runs[run].cursor) && disk.runs[run].cursor.version != 5
      modifies this
      ensures Valid() && Continues(old(history), history)
      ensures disk.runs.Keys <= old(disk).runs.Keys + {newRun}
      ensures outcome.Finished? ==>
                FinishedAt(disk, subject, outcome) && Attributed(old(disk), disk, plan, subject, newRun, outcome)
      ensures old(faults) == [] ==>
                && faults == [] && outcome != GcCrashed
                && Fared(old(disk), disk, plan, run, newRun, outcome, LegacyFate(old(disk), plan, run))
      decreases 1, 1
    {
      ghost var before := disk;
      var row := disk.runs[run];
      var conversion := ConvertLegacy(plan, run);
      if conversion == Converted {
        ghost var converted := disk;
        StillPending(before, converted, subject, run);
        assert WellFormed(converted.runs[run].cursor) by {
          Sound();
        }
        assert PrefixCollected(before, before.runs[run].cursor) by {
          LawfulIsLegal(old(history).origin, old(history).events);
          InvariantHolds(old(history).origin, old(history).events);
        }
        ConvertedFate(before, converted, plan, run);
        outcome := Continue(plan, subject, run, newRun);
        ConvertedFares(before, converted, disk, plan, run, newRun, outcome, old(faults) == []);
      } else if conversion == Clashing {
        outcome := StartOver(plan, subject, run, newRun);
      } else {
        outcome := if conversion == ConversionRaised then GcRaised else GcCrashed;
      }
    }

    /** A legacy run whose plan no longer fits is superseded, and the invocation starts over. */
    method StartOver(plan: Plan, subject: Label, run: RunId, newRun: RunId) returns (outcome: Outcome)
      requires Valid() && DistinctNames(plan.backups) && newRun !in disk.runs
      requires PendingOf(disk, subject) == {run} && Pending(disk, run)
      modifies this
      ensures Valid() && Continues(old(history), history)
      ensures disk.runs.Keys <= old(disk).runs.Keys + {newRun}
      ensures outcome.Finished? ==>
                FinishedAt(disk, subject, outcome) && Attributed(old(disk), disk, plan, subject, newRun, outcome)
      ensures old(faults) == [] ==>
                && faults == [] && outcome != GcCrashed
                && Fared(old(disk), disk, plan, run, newRun, outcome, Replaced(PlanSuperseded))
      decreases 1, 0
    {
      ghost var before := disk;
      var flow := Supersede(plan, subject, run, disk.runs[run].cursor, disk.runs[run].deletedCount, PlanSuperseded);
      if flow == Done {
        ghost var ended := disk;
        outcome := Again(plan, subject, newRun, run);
        SameArtifactsKeepReady(before, ended);
        ReplacedFares(before, ended, disk, plan, run, newRun, outcome, PlanSuperseded, old(faults) == []);
      } else {
        outcome := if flow == Raised then GcRaised else GcCrashed;
      }
    }

    /** The next batch of an indexed run, and a fresh run if that one turns out stale. */
    method Continue(plan: Plan, subject: Label, run: RunId, newRun: RunId) returns (outcome: Outcome)
      requires Valid() && DistinctNames(plan.backups) && newRun !in disk.runs
      requires PendingOf(disk, subject) == {run} && Pending(disk, run)
      requires disk.runs[run].subject == subject && WellFormed(disk.runs[run].cursor)
      modifies this
      ensures Valid() && Continues(old(history), history)
      ensures disk.runs.Keys <= old(disk).runs.Keys + {newRun}
      ensures outcome.Finished? ==>
                FinishedAt(disk, subject, outcome) && Attributed(old(disk), disk, plan, subject, newRun, outcome)
      ensures old(faults) == [] ==>
                && faults == [] && outcome != GcCrashed
                && Fared(old(disk), disk, plan, run, newRun, outcome, IndexedFate(old(disk), plan, run))
      ensures old(faults) == [] && OnCourse(old(disk), plan, run) ==>
                outcome.Finished? && (outcome.status == Planned ==> OnCourse(disk, plan, run))
      ensures outcome == GcCrashed && OnCourse(old(disk), plan, run) ==> NotLost(disk, run)
      decreases 1, 0
    {
      ghost var before := disk;
      var end := NextBatch(plan, run);
      if end == Superseded {
        ghost var ended := disk;
        NonePending(before, ended, subject, run);
        outcome := Again(plan, subject, newRun, run);
        ReplacedFares(before, ended, disk, plan, run, newRun, outcome, PlanSuperseded, old(faults) == []);
      } else {
        outcome := Report(disk, run, end, None);
      }
      if old(faults) == [] {
        BatchFares(before, plan, run, end);
      }
    }

    /** The recursive call after a run was superseded; by now nothing is pending. */
    method Again(plan: Plan, subject: Label, newRun: RunId, superseded: RunId) returns (outcome: Outcome)
      requires Valid() && DistinctNames(plan.backups) && newRun !in disk.runs
      requires PendingOf(disk, subject) == {}
      modifies this
      ensures Valid() && Continues(old(history), history)
      ensures disk.runs.Keys <= old(disk).runs.Keys + {newRun} && OnlyAdds(old(disk), disk)
      ensures outcome.Finished? ==>
                && FinishedAt(disk, subject, outcome) && CarriesOut(disk, plan, newRun)
                && outcome.run == newRun && outcome.supersededRun == Some(superseded)
      ensures old(faults) == [] ==> faults == [] && outcome != GcCrashed
      ensures old(faults) == [] && CanRestart(old(disk), plan) ==> Restarted(old(disk), disk, plan, newRun, outcome)
      decreases 0, 5
    {
      outcome := ApplyResumableGc(plan, subject, newRun);
      if outcome.Finished? {
        outcome := outcome.(supersededRun := Some(superseded));
      }
    }

    /** One invocation after the other, each with the plan computed for it.  If the first plan can be started
        and the later ones agree with it and still hold what is left, the run advances by a batch each time
        and is applied after exactly `InvocationsNeeded` of its action count: as soon as 1000 for each
        invocation cover the releases and backups of the first plan.  Then nothing that plan lists is left. */
    method Drive(plans: seq<Plan>, subject: Label, ids: seq<RunId>, ghost actions: seq<Action>)
      requires Valid() && faults == [] && |ids| == |plans| > 0
      requires AllDistinctNames(plans) && Distinct(ids) && Unused(ids, 0, disk)
      requires CanStart(disk, plans[0], subject)
      requires Spells(disk, plans[0], actions) && Agree(plans, actions, 0)
      modifies this
      ensures Valid() && Continues(old(history), history)
      ensures DrivenTo(disk, ids[0], actions, 0, |plans|)
      ensures disk.runs[ids[0]].status == Applied <==>
                |plans[0].releases| + |plans[0].backups| <= 1000 * |plans|
      ensures |plans[0].releases| + |plans[0].backups| <= 1000 * |plans| ==> PlanDone(disk, plans[0])
    {
      ghost var start := disk;
      var outcome := ApplyResumableGc(plans[0], subject, ids[0]);
      SpelledOnce(start, plans[0], actions, Listed(disk.runs[ids[0]].cursor.root));
      DrivenStart(disk, subject, outcome, actions);
      Sound();
      NextPlanWillDo(disk, plans, 1, subject, ids[0], actions, 0);
      DriveRest(plans, 1, subject, ids, ids[0], actions, 0);
      DrivenIsDone(disk, ids[0], actions, 0, |plans|);
      if disk.runs[ids[0]].status == Applied {
        CollectedMeansDone(start, plans[0], actions, disk);
      }
    }

    /** From a crash to the end.  A run that was crash-safe, whatever the collector wrote since and wherever it
        was cut off, is applied after exactly `InvocationsNeeded` of the actions it has left. */
    method Recover(plans: seq<Plan>, subject: Label, ids: seq<RunId>, run: RunId, ghost before: LegalHistory)
      requires Valid() && faults == [] && |ids| == |plans| > 0
      requires AllDistinctNames(plans) && Distinct(ids) && Unused(ids, 0, disk)
      requires Continues(before, history) && Pending(disk, run)
      requires CanFinish(Replay(before.origin, before.events), plans[0], subject, run)
      requires CrashSafe(Replay(before.origin, before.events), plans[0], run)
      requires var cursor := disk.runs[run].cursor;
               0 <= cursor.nextIndex && Agree(plans, Listed(cursor.root), cursor.nextIndex)
      modifies this
      ensures Valid() && Continues(old(history), history)
      ensures var cursor := old(disk).runs[run].cursor;
              && DrivenTo(disk, run, Listed(cursor.root), cursor.nextIndex, |plans|)
              && (disk.runs[run].status == Applied <==> |Listed(cursor.root)| <= cursor.nextIndex + 1000 * |plans|)
    {
      CrashKeepsCourse(before, history, plans[0], subject, run);
      DrivenFromHere(disk, plans[0], run);
      ghost var cursor := disk.runs[run].cursor;
      DriveRest(plans, 0, subject, ids, run, Listed(cursor.root), cursor.nextIndex);
      DrivenIsDone(disk, run, Listed(cursor.root), cursor.nextIndex, |plans|);
    }

    /** The invocations from `first` on. */
    method DriveRest(plans: seq<Plan>, first: nat, subject: Label, ids: seq<RunId>, run: RunId,
                     ghost actions: seq<Action>, ghost start: nat)
      requires Valid() && faults == [] && first <= |plans| == |ids|
      requires AllDistinctNames(plans) && Agree(plans, actions, start)
      requires Distinct(ids) && Unused(ids, first, disk)
      requires OnTrack(disk, plans, first, subject, run, actions, start)
      modifies this
      ensures Valid() && Continues(old(history), history)
      ensures DrivenTo(disk, run, actions, start, |plans|)
    {
      var k := first;
      while k < |plans|
        invariant first <= k <= |plans|
        invariant Valid() && Continues(old(history), history) && faults == []
        invariant Unused(ids, k, disk) && OnTrack(disk, plans, k, subject, run, actions, start)
      {
        DriveNext(plans, k, subject, ids, run, actions, start);
        k := k + 1;
      }
    }

    /** One of these invocations. */
    method DriveNext(plans: seq<Plan>, k: nat, subject: Label, ids: seq<RunId>, run: RunId,
                     ghost actions: seq<Action>, ghost start: nat)
      requires Valid() && faults == [] && k < |plans| == |ids|
      requires AllDistinctNames(plans) && Agree(plans, actions, start)
      requires Distinct(ids) && Unused(ids, k, disk) && OnTrack(disk, plans, k, subject, run, actions, start)
      modifies this
      ensures Valid() && Continues(old(history), history) && faults == []
      ensures Unused(ids, k + 1, disk) && OnTrack(disk, plans, k + 1, subject, run, actions, start)
    {
      ghost var before, was := disk, history;
      if CanFinish(before, plans[k], subject, run) {
        OnCourseAdvances(before, plans[k], run);
        BatchEndIsAfterInvocation(before.runs[run].cursor);
      }
      var outcome := ApplyResumableGc(plans[k], subject, ids[k]);
      if k < InvocationsNeeded(|actions| - start) {
        DrivenNext(before, disk, subject, outcome, actions, start, k);
      } else {
        DrivenStays(was, history, run, actions, start, k);
      }
      Sound();
      NextPlanWillDo(disk, plans, k + 1, subject, run, actions, start);
    }

    /** The pending run is written off as failed, so that none is left for the subject. */
    method Supersede(plan: Plan, subject: Label, run: RunId, cursor: Cursor, deletedCount: int, code: FailureCode)
      returns (flow: Flow)
      requires Valid() && PendingOf(disk, subject) == {run}
      requires run in disk.runs && cursor == disk.runs[run].cursor && deletedCount == disk.runs[run].deletedCount
      modifies this
      ensures Valid() && Continues(old(history), history)
      ensures disk.runs.Keys == old(disk).runs.Keys
      ensures flow == Done ==>
                && PendingOf(disk, subject) == {} && WrittenOffAt(disk, run, code)
                && SameArtifacts(old(disk), disk)
      ensures old(faults) == [] ==> flow == Done && faults == []
    {
      FailureLeavesNone(disk, subject, run, code);
      flow := Fail(plan, run, cursor, deletedCount, code);
    }
  }
}
