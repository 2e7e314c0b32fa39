/** The durable circuit breaker of the autonomy loop (src/noyra/autonomy/loop.py).

    Times are milliseconds of the wall clock and may go backwards.  The state is one database row, so
    a crash between two of its updates just leaves the row as it is. */
module Circuit {
  import opened Wrappers

  datatype Status = Closed | Open | HalfOpen

  datatype Config = Config(threshold: nat, cooldown: nat)

  /** A row of `autonomy_loop_state`, as far as the breaker reads it. */
  datatype Row = Row(failures: nat, status: Status, nextRetryAt: Option<int>)

  /** What happens to the row.  A crash is an event that changes nothing. */
  datatype Event =
    | Begin(now: int)
    | Succeed
    | Fail(now: int)
    | Crash

  /** `_begin_tick` lets the tick body run. */
  predicate Starts(row: Row, now: int) {
    !(row.status == Open && row.nextRetryAt.Some? && row.nextRetryAt.value > now)
  }

  function After(config: Config, row: Row, event: Event): Row {
    match event
    case Begin(now) =>
      if Starts(row, now) then row.(status := if row.status == Open then HalfOpen else Closed) else row
    case Succeed => Row(0, Closed, None)
    case Fail(now) =>
      if row.failures + 1 >= config.threshold
      then Row(row.failures + 1, Open, Some(now + config.cooldown))
      else Row(row.failures + 1, Closed, None)
    case Crash => row
  }

  function Run(config: Config, row: Row, events: seq<Event>): Row {
    if events == [] then row
    else After(config, Run(config, row, events[..|events| - 1]), events[|events| - 1])
  }

  /** The row before event `i`. */
  function At(config: Config, row: Row, events: seq<Event>, i: nat): Row
    requires i <= |events|
  {
    Run(config, row, events[..i])
  }

  lemma AtNext(config: Config, row: Row, events: seq<Event>, i: nat)
    requires i < |events|
    ensures At(config, row, events, i + 1) == After(config, At(config, row, events, i), events[i])
  {
    assert events[..i + 1][..i] == events[..i];
  }

  /** An open circuit, or one let half open, has reached the threshold; an open one has a retry time. */
  predicate Inv(config: Config, row: Row) {
    && (row.status == Open ==> row.failures >= config.threshold && row.nextRetryAt.Some?)
    && (row.status == HalfOpen ==> row.failures >= config.threshold)
  }

  lemma {:induction false} InvHolds(config: Config, row: Row, events: seq<Event>, i: nat)
    requires Inv(config, row) && i <= |events|
    ensures Inv(config, At(config, row, events, i))
  {
    if i > 0 {
      InvHolds(config, row, events, i - 1);
      AtNext(config, row, events, i - 1);
    } else {
      assert events[..0] == [];
    }
  }

  predicate NoSuccess(events: seq<Event>, i: nat, j: nat)
    requires i <= j <= |events|
  {
    forall k | i <= k < j :: events[k] != Succeed
  }

  /** Without a success the failure count never goes down, crashes included. */
  lemma {:induction false} FailuresOnlyGrow(config: Config, row: Row, events: seq<Event>, i: nat, j: nat)
    requires i <= j <= |events| && NoSuccess(events, i, j)
    ensures At(config, row, events, i).failures <= At(config, row, events, j).failures
    decreases j
  {
    if i < j {
      FailuresOnlyGrow(config, row, events, i, j - 1);
      AtNext(config, row, events, j - 1);
    }
  }

  /** Once the circuit has tripped, every failure before the next success opens it again, with a fresh
      retry time, whatever crashes and restarts lie between. */
  lemma FailureReopens(config: Config, row: Row, events: seq<Event>, i: nat, j: nat)
    requires Inv(config, row) && i <= j < |events| && NoSuccess(events, i, j)
    requires At(config, row, events, i).status == Open
    requires events[j].Fail?
    ensures var reopened := At(config, row, events, j + 1);
            reopened.status == Open && reopened.nextRetryAt == Some(events[j].now + config.cooldown)
  {
    InvHolds(config, row, events, i);
    FailuresOnlyGrow(config, row, events, i, j);
    AtNext(config, row, events, j);
  }

  /** No tick body starts during events `i..j`. */
  ghost predicate NoneStarts(config: Config, row: Row, events: seq<Event>, i: nat, j: nat)
    requires i <= j <= |events|
  {
    forall k | i <= k < j && events[k].Begin? :: !Starts(At(config, row, events, k), events[k].now)
  }

  /** While no body starts, an open circuit stays open with its retry time, unless an outcome is recorded. */
  lemma {:induction false} OpenWaits(config: Config, row: Row, events: seq<Event>, i: nat, j: nat)
    requires i <= j <= |events| && NoneStarts(config, row, events, i, j)
    requires forall k | i <= k < j :: events[k].Begin? || events[k].Crash?
    requires At(config, row, events, i).status == Open
    ensures At(config, row, events, j) == At(config, row, events, i)
    decreases j
  {
    if i < j {
      OpenWaits(config, row, events, i, j - 1);
      AtNext(config, row, events, j - 1);
    }
  }

  /** The first tick body after an opening failure, on whichever side of whatever restarts, does not
      start before the cooldown of that failure is over. */
  lemma NoEarlyTick(config: Config, row: Row, events: seq<Event>, i: nat, j: nat)
    requires Inv(config, row) && i < j < |events|
    requires events[i].Fail? && At(config, row, events, i + 1).status == Open
    requires forall k | i < k < j :: events[k].Begin? || events[k].Crash?
    requires NoneStarts(config, row, events, i + 1, j)
    requires events[j].Begin? && Starts(At(config, row, events, j), events[j].now)
    ensures events[j].now >= events[i].now + config.cooldown
  {
    AtNext(config, row, events, i);
    OpenWaits(config, row, events, i + 1, j);
  }

  // ---------------------------------------------------------------- where the circuit stands

  const FRESH := Row(0, Closed, None)

  predicate IsOutcome(event: Event) {
    event.Succeed? || event.Fail?
  }

  /** The last outcome was the failure at `i`, and it opened the circuit. */
  ghost predicate TrippedAt(config: Config, events: seq<Event>, i: nat) {
    && i < |events| && events[i].Fail? && At(config, FRESH, events, i + 1).status == Open
    && forall k | i < k < |events| :: !IsOutcome(events[k])
  }

  /** How many tick bodies have started from event `i` on. */
  function Bodies(config: Config, events: seq<Event>, i: nat): nat {
    if |events| <= i then 0
    else
      var before, last := events[..|events| - 1], events[|events| - 1];
      Bodies(config, before, i)
      + if last.Begin? && Starts(Run(config, FRESH, before), last.now) then 1 else 0
  }

  function StatusAfter(bodies: nat): Status {
    if bodies == 0 then Open else if bodies == 1 then HalfOpen else Closed
  }

  /** Below the threshold and closed, unless the last outcome tripped the circuit; then at or above it, and
      open, half open or closed by the number of tick bodies started since. */
  ghost predicate Stands(config: Config, events: seq<Event>) {
    var row := Run(config, FRESH, events);
    && (forall i: nat | TrippedAt(config, events, i) ::
          row.failures >= config.threshold && row.status == StatusAfter(Bodies(config, events, i + 1)))
    && (Untripped(config, events) ==> row.failures < config.threshold && row.status == Closed)
  }

  lemma TrippedEarlier(config: Config, events: seq<Event>, i: nat)
    requires events != [] && i < |events| - 1
    ensures TrippedAt(config, events, i)
        <==> TrippedAt(config, events[..|events| - 1], i) && !IsOutcome(events[|events| - 1])
  {
    var n := |events| - 1;
    assert events[..n][..i + 1] == events[..i + 1];
    if TrippedAt(config, events[..n], i) && !IsOutcome(events[n]) {
      forall k | i < k < |events| ensures !IsOutcome(events[k]) {
        assert k < n ==> events[k] == events[..n][k];
      }
    }
  }

  /** The last outcome, if there was one, did not open the circuit. */
  ghost predicate Untripped(config: Config, events: seq<Event>) {
    forall i: nat :: !TrippedAt(config, events, i)
  }

  lemma {:induction false} WhereItStands(config: Config, events: seq<Event>)
    requires config.threshold >= 1
    ensures Stands(config, events)
    decreases |events|
  {
    if events != [] {
      var n := |events| - 1;
      var before, last := events[..n], events[n];
      WhereItStands(config, before);
      assert events[..n + 1] == events;
      forall i: nat ensures TrippedAt(config, events, i)
          <==> (i < n && TrippedAt(config, before, i) && !IsOutcome(last)) || (i == n && OpensAt(config, before, last))
      {
        if i < n {
          TrippedEarlier(config, events, i);
        }
      }
      if Untripped(config, events) && !IsOutcome(last) {
        forall i: nat ensures !TrippedAt(config, before, i) {
          assert !TrippedAt(config, events, i);
        }
      }
      assert TrippedAt(config, events, n) <==> OpensAt(config, before, last);
      if last.Fail? && exists i: nat :: TrippedAt(config, before, i) {
        var i: nat :| TrippedAt(config, before, i);
      }
    }
  }

  predicate OpensAt(config: Config, before: seq<Event>, last: Event) {
    last.Fail? && After(config, Run(config, FRESH, before), last).status == Open
  }

  /** Closed does not mean below the threshold.  Over every run from the fresh row, the circuit is closed at
      or above its threshold if and only if the last outcome was an opening failure and at least two tick
      bodies have started since: the first made it half open, and a crash kept its outcome from being
      recorded. */
  lemma ClosedAboveThresholdIff(config: Config, events: seq<Event>)
    requires config.threshold >= 1
    ensures var row := Run(config, FRESH, events);
            row.status == Closed && row.failures >= config.threshold
            <==> exists i: nat :: TrippedAt(config, events, i) && Bodies(config, events, i + 1) >= 2
  {
    WhereItStands(config, events);
  }

  // ---------------------------------------------------------------- counting the failures

  /** The failures among events `i..j`. */
  function Failures(events: seq<Event>, i: nat, j: nat): set<nat>
    requires j <= |events|
  {
    set k: nat | i <= k < j && events[k].Fail?
  }

  /** The outcomes from event `i` on belong to one streak: the last success, if any, came just before. */
  predicate StreakFrom(events: seq<Event>, i: nat, j: nat)
    requires i <= j <= |events|
  {
    (i == 0 || events[i - 1].Succeed?) && NoSuccess(events, i, j)
  }

  lemma FailuresGrow(events: seq<Event>, i: nat, j: nat)
    requires i <= j < |events|
    ensures |Failures(events, i, j + 1)| == |Failures(events, i, j)| + if events[j].Fail? then 1 else 0
  {
    var before, after := Failures(events, i, j), Failures(events, i, j + 1);
    assert j !in before;
    assert after == if events[j].Fail? then before + {j} else before;
  }

  /** The stored count is the number of failures since the last success, whatever ticks, crashes and restarts
      lie between. */
  lemma {:induction false} FailuresAreCounted(config: Config, events: seq<Event>, i: nat, j: nat)
    requires i <= j <= |events| && StreakFrom(events, i, j)
    ensures At(config, FRESH, events, j).failures == |Failures(events, i, j)|
    decreases j
  {
    if i < j {
      FailuresAreCounted(config, events, i, j - 1);
      FailuresGrow(events, i, j - 1);
      AtNext(config, FRESH, events, j - 1);
    } else {
      assert Failures(events, i, j) == {};
      if i == 0 {
        assert events[..0] == [];
      } else {
        AtNext(config, FRESH, events, i - 1);
      }
    }
  }

  /** A failure opens the circuit, until its cooldown is over, if and only if it is at least the
      `threshold`-th since the last success; any other leaves it closed. */
  lemma OpensIff(config: Config, events: seq<Event>, i: nat, j: nat)
    requires i <= j < |events| && StreakFrom(events, i, j) && events[j].Fail?
    ensures At(config, FRESH, events, j + 1)
            == if |Failures(events, i, j + 1)| >= config.threshold
               then Row(|Failures(events, i, j + 1)|, Open, Some(events[j].now + config.cooldown))
               else Row(|Failures(events, i, j + 1)|, Closed, None)
  {
    FailuresAreCounted(config, events, i, j);
    FailuresGrow(events, i, j);
    AtNext(config, FRESH, events, j);
  }

  /** Until a body starts, the row is the one the opening failure wrote. */
  lemma TrippedWaits(config: Config, events: seq<Event>, i: nat)
    requires TrippedAt(config, events, i) && Bodies(config, events, i + 1) == 0
    ensures Run(config, FRESH, events).status == Open
    ensures Run(config, FRESH, events).nextRetryAt == Some(events[i].now + config.cooldown)
  {
    assert events[..|events|] == events;
    NoBodies(config, events, i + 1);
    OpenWaits(config, FRESH, events, i + 1, |events|);
    AtNext(config, FRESH, events, i);
  }

  /** An open circuit is one whose opening failure no body has followed yet. */
  lemma OpenIsTripped(config: Config, events: seq<Event>) returns (i: nat)
    requires config.threshold >= 1 && Run(config, FRESH, events).status == Open
    ensures TrippedAt(config, events, i) && Bodies(config, events, i + 1) == 0
  {
    WhereItStands(config, events);
    i :| TrippedAt(config, events, i);
  }

  /** A tick may start now, unless the last outcome opened the circuit, no body has started since, and its
      cooldown is not over. */
  lemma StartsIff(config: Config, events: seq<Event>, now: int)
    requires config.threshold >= 1
    ensures !Starts(Run(config, FRESH, events), now)
        <==> exists i: nat :: TrippedAt(config, events, i) && Bodies(config, events, i + 1) == 0
                              && now < events[i].now + config.cooldown
  {
    forall i: nat | TrippedAt(config, events, i) && Bodies(config, events, i + 1) == 0
      ensures !Starts(Run(config, FRESH, events), now) <==> now < events[i].now + config.cooldown
    {
      TrippedWaits(config, events, i);
    }
    if Run(config, FRESH, events).status == Open {
      var i := OpenIsTripped(config, events);
    }
  }

  lemma {:induction false} NoBodies(config: Config, events: seq<Event>, i: nat)
    requires i <= |events| && Bodies(config, events, i) == 0
    ensures NoneStarts(config, FRESH, events, i, |events|)
    decreases |events|
  {
    if i < |events| {
      var n := |events| - 1;
      NoBodies(config, events[..n], i);
      forall k | i <= k < |events| && events[k].Begin? ensures !Starts(At(config, FRESH, events, k), events[k].now) {
        assert k < n ==> events[..n][..k] == events[..k] && events[k] == events[..n][k];
      }
    }
  }

  lemma RunEnd(config: Config, row: Row, events: seq<Event>, event: Event)
    ensures Run(config, row, events + [event]) == After(config, Run(config, row, events), event)
  {
    assert (events + [event])[..|events|] == events;
  }

  function Failing(n: nat, now: int): seq<Event> {
    if n == 0 then [] else Failing(n - 1, now) + [Fail(now)]
  }

  lemma {:induction false} FailingCounts(config: Config, n: nat, now: int)
    requires n >= 1
    ensures Run(config, FRESH, Failing(n, now))
            == if n >= config.threshold then Row(n, Open, Some(now + config.cooldown)) else Row(n, Closed, None)
  {
    RunEnd(config, FRESH, Failing(n - 1, now), Fail(now));
    if n > 1 {
      FailingCounts(config, n - 1, now);
    } else {
      assert Run(config, FRESH, Failing(0, now)) == FRESH;
    }
  }

  /** It does happen, for every threshold: fail until the circuit opens, let the cooldown pass, crash in the
      half-open tick, and begin another. */
  lemma ClosedAboveThreshold(config: Config, now: int)
    requires config.threshold >= 1
    ensures var later := now + config.cooldown;
            var events := Failing(config.threshold, now) + [Begin(later)] + [Crash] + [Begin(later)];
            Run(config, FRESH, events) == Row(config.threshold, Closed, Some(later))
  {
    var later, failing := now + config.cooldown, Failing(config.threshold, now);
    FailingCounts(config, config.threshold, now);
    RunEnd(config, FRESH, failing, Begin(later));
    RunEnd(config, FRESH, failing + [Begin(later)], Crash);
    RunEnd(config, FRESH, failing + [Begin(later)] + [Crash], Begin(later));
  }

  /** The breaker as the loop runs it. */
  class Breaker {
    const config: Config
    var row: Row

    constructor (config: Config)
      ensures this.config == config && row == FRESH && Inv(config, row)
    {
      this.config, this.row := config, FRESH;
    }

    method BeginTick(now: int) returns (starts: bool)
      modifies this
      ensures row == After(config, old(row), Begin(now))
      ensures starts <==> Starts(old(row), now)
      ensures Inv(config, old(row)) ==> Inv(config, row)
    {
      if row.status == Open && row.nextRetryAt.Some? && row.nextRetryAt.value > now {
        return false;
      }
      row := row.(status := if row.status == Open then HalfOpen else Closed);
      return true;
    }

    method RecordSuccess()
      modifies this
      ensures row == After(config, old(row), Succeed) && Inv(config, row)
      ensures row.failures == 0 && row.status == Closed && row.nextRetryAt == None
    {
      row := Row(0, Closed, None);
    }

    method RecordFailure(now: int) returns (tripped: bool)
      modifies this
      ensures row == After(config, old(row), Fail(now)) && Inv(config, row)
      ensures tripped <==> old(row).failures + 1 >= config.threshold
    {
      var failures := row.failures + 1;
      tripped := failures >= config.threshold;
      row := Row(failures, if tripped then Open else Closed, if tripped then Some(now + config.cooldown) else None);
    }
  }
}
