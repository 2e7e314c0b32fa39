/** The sleep-conflict deadline of the autonomy loop (src/noyra/autonomy/loop.py).

    The start of a conflict is kept in memory to the microsecond and in the event log to the
    millisecond; after a restart it is rebuilt from the log. */
module SleepConflict {
  import opened Wrappers

  /** An event of the log with the instant it was appended, in microseconds.  The log itself keeps
      the millisecond: the program only ever sees `Stored(instant)`. */
  datatype Event = Blocked(instant: int) | Cleared(instant: int)

  /** The durable log and the volatile start of the conflict. */
  datatype State = State(log: seq<Event>, startedAt: Option<int>)

  /** The millisecond an instant falls into. */
  function Stored(instant: int): (stored: int)
    ensures stored % 1000 == 0 && stored <= instant < stored + 1000
  {
    instant / 1000 * 1000
  }

  predicate LastIsBlocked(log: seq<Event>) {
    log != [] && log[|log| - 1].Blocked?
  }

  /** `_load_sleep_conflict_started_at`. */
  function Load(log: seq<Event>): Option<int> {
    if LastIsBlocked(log) then Some(Stored(log[|log| - 1].instant)) else None
  }

  /** The first half of `_handle_sleep_conflict`.  The start is set in memory before the event is
      appended, so an append that raises leaves it set. */
  function Noticed(s: State, now: int, appends: bool): State {
    if s.startedAt.Some? then s
    else
      match Load(s.log)
      case Some(start) => s.(startedAt := Some(start))
      case None => State(if appends then s.log + [Blocked(now)] else s.log, Some(now))
  }

  /** The append in `Noticed` raises. */
  predicate NoticeRaises(s: State, appends: bool) {
    s.startedAt.None? && Load(s.log).None? && !appends
  }

  /** `_clear_sleep_conflict`. */
  function AfterClear(s: State, now: int, appends: bool): State {
    if s.startedAt.None? && Load(s.log).None? then s
    else if appends then State(s.log + [Cleared(now)], None)
    else s
  }

  datatype Operation =
    | Conflict(now: int, appends: bool, sleeps: bool, clearedAt: int, clearAppends: bool)
    | NoConflict(now: int, clearAppends: bool)
    | Restart

  function After(s: State, operation: Operation): State {
    match operation
    case Conflict(now, appends, sleeps, clearedAt, clearAppends) =>
      var noticed := Noticed(s, now, appends);
      if !NoticeRaises(s, appends) && sleeps then AfterClear(noticed, clearedAt, clearAppends) else noticed
    case NoConflict(now, clearAppends) => AfterClear(s, now, clearAppends)
    case Restart => s.(startedAt := None)
  }

  function Run(s: State, operations: seq<Operation>): State {
    if operations == [] then s
    else After(Run(s, operations[..|operations| - 1]), operations[|operations| - 1])
  }

  /** Blocked and cleared take turns, blocked first. */
  predicate Alternates(log: seq<Event>) {
    forall i | 0 <= i < |log| :: log[i].Blocked? <==> i % 2 == 0
  }

  /** A conflict remembered in memory is the last, unmatched blocked event of the log, exact or as stored. */
  predicate InStep(s: State) {
    s.startedAt.Some? ==>
      && LastIsBlocked(s.log)
      && s.startedAt.value in {s.log[|s.log| - 1].instant, Stored(s.log[|s.log| - 1].instant)}
  }

  predicate Inv(s: State) {
    Alternates(s.log) && InStep(s)
  }

  lemma AppendAlternates(log: seq<Event>, event: Event)
    requires Alternates(log)
    ensures Alternates(log + [event]) <==> (event.Blocked? <==> !LastIsBlocked(log))
  {
    var longer := log + [event];
    assert longer[|log|] == event;
    assert log != [] ==> (log[|log| - 1].Blocked? <==> (|log| - 1) % 2 == 0);
    if event.Blocked? <==> |log| % 2 == 0 {
      forall i | 0 <= i < |longer|
        ensures longer[i].Blocked? <==> i % 2 == 0
      {
        assert i < |log| ==> longer[i] == log[i];
      }
    }
  }

  lemma StepKeepsInv(s: State, operation: Operation)
    requires Inv(s)
    requires operation.Conflict? ==> operation.appends
    ensures Inv(After(s, operation))
  {
    match operation
    case Conflict(now, appends, sleeps, clearedAt, clearAppends) =>
      AppendAlternates(s.log, Blocked(now));
      var noticed := Noticed(s, now, appends);
      AppendAlternates(noticed.log, Cleared(clearedAt));
    case NoConflict(now, clearAppends) =>
      AppendAlternates(s.log, Cleared(now));
    case Restart =>
  }

  /** Blocked events can be appended. */
  predicate Logs(operations: seq<Operation>) {
    forall i | 0 <= i < |operations| && operations[i].Conflict? :: operations[i].appends
  }

  /** Over all ticks and restarts in which blocked events can be appended, the log alternates and the
      memory agrees with it, even if cleared events fail to be written. */
  lemma {:induction false} LogAlternates(s: State, operations: seq<Operation>)
    requires Inv(s) && Logs(operations)
    ensures Inv(Run(s, operations))
    decreases |operations|
  {
    if operations != [] {
      var before := operations[..|operations| - 1];
      LogAlternates(s, before);
      StepKeepsInv(Run(s, before), operations[|operations| - 1]);
    }
  }

  // ---------------------------------------------------------------- when the log alternates

  /** The operation appends a cleared event, if there is a conflict to clear. */
  predicate Clears(operation: Operation) {
    (operation.Conflict? && operation.sleeps && operation.clearAppends)
    || (operation.NoConflict? && operation.clearAppends)
  }

  /** After these operations a conflict is remembered whose blocked event could not be appended: it was
      noticed with nothing in memory and nothing in the log, and has not been cleared or forgotten by a
      restart since. */
  predicate LostBlocked(s: State, operations: seq<Operation>) {
    operations != [] &&
    var before, last := operations[..|operations| - 1], operations[|operations| - 1];
    match last
    case Restart => false
    case Conflict(_, appends, _, _, _) =>
      NoticeRaises(Run(s, before), appends) || (LostBlocked(s, before) && !Clears(last))
    case NoConflict(_, _) => LostBlocked(s, before) && !Clears(last)
  }

  /** At some point such a conflict was cleared, and the clear was logged. */
  predicate ClearedLost(s: State, operations: seq<Operation>) {
    operations != [] &&
    var before, last := operations[..|operations| - 1], operations[|operations| - 1];
    ClearedLost(s, before) || (LostBlocked(s, before) && Clears(last))
  }

  /** What memory says about the log: agreement, or a lost blocked event. */
  predicate Remembers(s: State, lost: bool) {
    && Alternates(s.log)
    && (if lost then s.startedAt.Some? && !LastIsBlocked(s.log) else InStep(s))
  }

  lemma StepRemembers(s: State, operation: Operation, lost: bool)
    requires Remembers(s, lost)
    ensures lost && Clears(operation) ==> !Alternates(After(s, operation).log)
    ensures !(lost && Clears(operation)) ==>
              Remembers(After(s, operation),
                        match operation
                        case Restart => false
                        case Conflict(_, appends, _, _, _) => NoticeRaises(s, appends) || lost
                        case NoConflict(_, _) => lost)
  {
    match operation
    case Conflict(now, appends, sleeps, clearedAt, clearAppends) =>
      AppendAlternates(s.log, Blocked(now));
      AppendAlternates(Noticed(s, now, appends).log, Cleared(clearedAt));
    case NoConflict(now, clearAppends) =>
      AppendAlternates(s.log, Cleared(now));
    case Restart =>
  }

  lemma StepExtendsLog(s: State, operation: Operation)
    ensures s.log <= After(s, operation).log
  {
  }

  lemma PrefixAlternates(shorter: seq<Event>, longer: seq<Event>)
    requires shorter <= longer && Alternates(longer)
    ensures Alternates(shorter)
  {
    assert forall i | 0 <= i < |shorter| :: shorter[i] == longer[i];
  }

  /** The exact condition, over every sequence of ticks, restarts and failing appends: the log alternates if
      and only if no clear was logged for a conflict whose blocked event could not be appended. */
  lemma {:induction false} AlternatesIff(s: State, operations: seq<Operation>)
    requires Inv(s)
    ensures Alternates(Run(s, operations).log) <==> !ClearedLost(s, operations)
    ensures !ClearedLost(s, operations) ==> Remembers(Run(s, operations), LostBlocked(s, operations))
    decreases |operations|
  {
    if operations != [] {
      var before, last := operations[..|operations| - 1], operations[|operations| - 1];
      AlternatesIff(s, before);
      if ClearedLost(s, before) {
        StepExtendsLog(Run(s, before), last);
        if Alternates(Run(s, operations).log) {
          PrefixAlternates(Run(s, before).log, Run(s, operations).log);
        }
      } else {
        StepRemembers(Run(s, before), last, LostBlocked(s, before));
      }
    }
  }

  /** For a single clear: it keeps the log alternating exactly when a conflict remembered in memory is in the log. */
  lemma ClearAlternatesIff(s: State, now: int)
    requires Alternates(s.log)
    ensures Alternates(AfterClear(s, now, true).log) <==> (s.startedAt.Some? ==> LastIsBlocked(s.log))
  {
    AppendAlternates(s.log, Cleared(now));
  }

  /** A blocked event that could not be appended is remembered all the same, and the next clear is
      then logged with nothing to clear. */
  lemma LostBlockedBreaksAlternation(now: int, later: int)
    ensures var operations := [Conflict(now, false, false, 0, true), NoConflict(later, true)];
            Run(State([], None), operations).log == [Cleared(later)] && !Alternates([Cleared(later)])
  {
    var first := Conflict(now, false, false, 0, true);
    var operations := [first, NoConflict(later, true)];
    assert operations[..1] == [first] && [first][..0] == [];
    assert Run(State([], None), [first]) == State([], Some(now));
    assert !([Cleared(later)][0].Blocked?);
  }

  // ---------------------------------------------------------------- the deadline

  /** How long the conflict has lasted, as the loop computes it. */
  function Elapsed(s: State, now: int): int
    requires s.startedAt.Some?
  {
    if now - s.startedAt.value > 0 then now - s.startedAt.value else 0
  }

  /** After any ticks and restarts, the deadline of a conflict runs from the last unmatched blocked event:
      the measured time is the true time since its instant, plus less than a millisecond. */
  lemma DeadlineRunsFromLastBlocked(s: State, operations: seq<Operation>, now: int)
    requires Inv(s) && Logs(operations)
    ensures var noticed := Noticed(Run(s, operations), now, true);
            && LastIsBlocked(noticed.log)
            && var start := noticed.log[|noticed.log| - 1].instant;
               var since := if now - start > 0 then now - start else 0;
               since <= Elapsed(noticed, now) < since + 1000
  {
    LogAlternates(s, operations);
  }

  /** The conflict goes on: restarts, and ticks that find it still there. */
  predicate GoesOn(operations: seq<Operation>) {
    forall i | 0 <= i < |operations| ::
      operations[i].Restart? || (operations[i].Conflict? && operations[i].appends && !operations[i].sleeps)
  }

  /** The same conflict later: in the log as it was, in memory not later than it was, if at all. */
  predicate SameConflict(s: State, later: State)
    requires s.startedAt.Some?
  {
    && later.log == s.log
    && (later.startedAt.Some? ==> later.startedAt.value <= s.startedAt.value)
  }

  lemma {:induction false} ConflictIsKept(s: State, operations: seq<Operation>)
    requires Inv(s) && s.startedAt.Some? && GoesOn(operations)
    ensures SameConflict(s, Run(s, operations))
    decreases |operations|
  {
    if operations != [] {
      ConflictIsKept(s, operations[..|operations| - 1]);
      assert operations[|operations| - 1].Restart? || operations[|operations| - 1].Conflict?;
    }
  }

  /** However often the process restarts while a conflict goes on, no elapsed time is given back: what the
      conflict had used up by `now` it still has at every later reading. */
  lemma RestartKeepsElapsed(s: State, operations: seq<Operation>, now: int, later: int)
    requires Inv(s) && s.startedAt.Some? && GoesOn(operations) && now <= later
    ensures var resumed := Noticed(Run(s, operations), later, true);
            && resumed.log == s.log && resumed.startedAt.Some?
            && Elapsed(s, now) <= Elapsed(resumed, later)
  {
    ConflictIsKept(s, operations);
  }

  datatype Outcome = SleepRequested | SleepBlocked | SleepBlockedPaused | Raised

  /** The loop's side of it; `deadline` in microseconds. */
  class ConflictTracker {
    const deadline: int
    var log: seq<Event>
    var startedAt: Option<int>

    ghost function Snapshot(): State
      reads this
    {
      State(log, startedAt)
    }

    constructor (deadline: int, log: seq<Event>)
      ensures this.deadline == deadline && this.log == log && startedAt == None
      ensures forall before: Option<int> :: Snapshot() == After(State(log, before), Restart)
    {
      this.deadline, this.log, this.startedAt := deadline, log, None;
    }

    /** `_clear_sleep_conflict`: if there is a conflict, in memory or as the last event of the log, its end is
        logged and it is forgotten; if the event cannot be appended nothing changes. */
    method Clear(now: int, appends: bool) returns (raised: bool)
      modifies this
      ensures Snapshot() == After(old(Snapshot()), NoConflict(now, appends))
      ensures raised <==> !appends && (old(startedAt).Some? || LastIsBlocked(old(log)))
      ensures raised ==> log == old(log) && startedAt == old(startedAt)
      ensures !raised ==>
                && startedAt == None
                && log == old(log) + if old(startedAt).Some? || LastIsBlocked(old(log)) then [Cleared(now)] else []
    {
      var persisted := Load(log).Some?;
      if startedAt.Some? || persisted {
        if !appends {
          return true;
        }
        log := log + [Cleared(now)];
      }
      startedAt := None;
      return false;
    }

    /** `_handle_sleep_conflict`.  A conflict is new if none is in memory and the log does not end in a blocked
        event; then its start is now and a blocked event is appended, or that raises.  Otherwise it goes on from
        where memory, or else the log, says it began.  A sleep that can be requested after all ends it. */
    method HandleConflict(now: int, appends: bool, sleeps: bool, clearedAt: int, clearAppends: bool)
      returns (outcome: Outcome)
      modifies this
      ensures Snapshot() == After(old(Snapshot()), Conflict(now, appends, sleeps, clearedAt, clearAppends))
      ensures var isNew := old(startedAt).None? && !LastIsBlocked(old(log));
              var noticed := old(log) + if isNew && appends then [Blocked(now)] else [];
              var start := if old(startedAt).Some? then old(startedAt).value
                           else if isNew then now else Stored(old(log)[|old(log)| - 1].instant);
              && (outcome == SleepRequested <==> sleeps && (isNew ==> appends) && clearAppends)
              && (outcome == Raised <==> (isNew && !appends) || (sleeps && !clearAppends))
              && (outcome == SleepRequested ==> log == noticed + [Cleared(clearedAt)] && startedAt == None)
              && (outcome != SleepRequested ==> log == noticed && startedAt == Some(start))
              && (outcome == SleepBlockedPaused ==> now - start >= deadline || deadline <= 0)
              && (outcome == SleepBlocked ==> now - start < deadline && deadline > 0)
    {
      if startedAt.None? {
        var persisted := Load(log);
        startedAt := if persisted.Some? then persisted else Some(now);
        if persisted.None? {
          if !appends {
            return Raised;
          }
          log := log + [Blocked(now)];
        }
      }
      if sleeps {
        var raised := Clear(clearedAt, clearAppends);
        return if raised then Raised else SleepRequested;
      }
      var elapsed := if now - startedAt.value > 0 then now - startedAt.value else 0;
      return if elapsed >= deadline then SleepBlockedPaused else SleepBlocked;
    }
  }
}
