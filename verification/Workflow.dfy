/** The durable workflow checkpoints (src/noyra/autonomy/workflow.py): the writer `checkpoint` and the
    independent reader `verify_integrity`, over one table shared by all subjects.

    A state stands for its canonical JSON text; `content_hash` is symbolic; times are numbers. */
module Workflow {
  import opened Wrappers
  import opened Text

  datatype Status = Running | Waiting | Interrupted | Completed | Failed | Unknown(text: string)

  datatype Hash = HashOf(state: string) | Garbage(text: string)

  /** `state` and `createdAt` are `None` when the stored text does not decode. */
  datatype Row = Row(
    workflow: string,
    subject: string,
    kind: string,
    version: int,
    status: Status,
    state: Option<string>,
    stateHash: Hash,
    reason: string,
    createdAt: Option<int>)

  const MAX_STATE := 1_000_000

  /** The `_ALLOWED` table. */
  predicate Allowed(previous: Option<Status>, status: Status) {
    match previous
    case None => status == Running
    case Some(Running) => status in {Running, Waiting, Interrupted, Completed, Failed}
    case Some(Waiting) => status in {Running, Interrupted, Failed}
    case Some(Interrupted) => status in {Running, Failed}
    case Some(Completed) => false
    case Some(Failed) => status == Running
    case Some(Unknown(_)) => false
  }

  /** As pairs: a first checkpoint is running, a completed workflow is over, and a failed one only starts again. */
  lemma AllowedIff(previous: Status, status: Status)
    ensures Allowed(None, status) <==> status == Running
    ensures Allowed(Some(previous), status) <==>
              (previous, status) in {
                (Running, Running), (Running, Waiting), (Running, Interrupted), (Running, Completed), (Running, Failed),
                (Waiting, Running), (Waiting, Interrupted), (Waiting, Failed),
                (Interrupted, Running), (Interrupted, Failed),
                (Failed, Running)}
  {
  }

  /** `_from_row` accepts the row. */
  predicate Intact(row: Row) {
    && !Blank(row.workflow) && !Blank(row.subject) && !Blank(row.kind) && !Blank(row.reason)
    && row.createdAt.Some?
    && !row.status.Unknown?
    && row.version >= 1
    && row.state.Some? && row.stateHash == HashOf(row.state.value)
  }

  // ---- The queries ---------------------------------------------------------------------------------

  /** The rows of one workflow, in the order they are listed. */
  function Of(rows: seq<Row>, workflow: string): seq<Row> {
    if rows == [] then []
    else
      var n := |rows| - 1;
      if rows[n].workflow == workflow then Of(rows[..n], workflow) + [rows[n]] else Of(rows[..n], workflow)
  }

  lemma OfEnd(rows: seq<Row>, row: Row, workflow: string)
    ensures Of(rows + [row], workflow)
            == if row.workflow == workflow then Of(rows, workflow) + [row] else Of(rows, workflow)
  {
    assert (rows + [row])[..|rows|] == rows;
  }

  function Last(rows: seq<Row>): Option<Row> {
    if rows == [] then None else Some(rows[|rows| - 1])
  }

  /** `ORDER BY checkpoint_version DESC LIMIT 1`. */
  function Newest(rows: seq<Row>, workflow: string): Option<Row> {
    if rows == [] then None
    else
      var n := |rows| - 1;
      var best := Newest(rows[..n], workflow);
      if rows[n].workflow == workflow && (best.None? || best.value.version < rows[n].version)
      then Some(rows[n]) else best
  }

  lemma {:induction false} NewestHasTheLargestVersion(rows: seq<Row>, workflow: string)
    ensures Newest(rows, workflow).None? <==> Of(rows, workflow) == []
    ensures Newest(rows, workflow).Some? ==>
              && Newest(rows, workflow).value in Of(rows, workflow)
              && forall row :: row in Of(rows, workflow) ==> row.version <= Newest(rows, workflow).value.version
  {
    if rows != [] {
      NewestHasTheLargestVersion(rows[..|rows| - 1], workflow);
    }
  }

  predicate KeyLess(a: Row, b: Row) {
    Less(a.workflow, b.workflow) || (a.workflow == b.workflow && a.version < b.version)
  }

  function Place(rows: seq<Row>, row: Row): (r: seq<Row>)
    ensures |r| == |rows| + 1
  {
    var n := |rows| - 1;
    if rows == [] || !KeyLess(row, rows[n]) then rows + [row]
    else Place(rows[..n], row) + [rows[n]]
  }

  /** The rows of one subject, `ORDER BY workflow_id, checkpoint_version`. */
  function Query(table: seq<Row>, subject: string): seq<Row> {
    if table == [] then []
    else
      var n := |table| - 1;
      var rest := Query(table[..n], subject);
      if table[n].subject == subject then Place(rest, table[n]) else rest
  }

  /** No row comes before one with a smaller key. */
  predicate Ordered(rows: seq<Row>) {
    forall i | 0 < i < |rows| :: !KeyLess(rows[i], rows[i - 1])
  }

  lemma OrderedEnd(rows: seq<Row>, row: Row)
    ensures Ordered(rows + [row]) <==> Ordered(rows) && (rows != [] ==> !KeyLess(row, rows[|rows| - 1]))
  {
    var longer := rows + [row];
    assert forall i | 0 <= i < |rows| :: longer[i] == rows[i];
    if Ordered(longer) && rows != [] {
      assert !KeyLess(longer[|rows|], longer[|rows| - 1]);
    }
  }

  lemma KeyLessIsAsymmetric(a: Row, b: Row)
    requires KeyLess(a, b)
    ensures !KeyLess(b, a)
  {
    if Less(a.workflow, b.workflow) {
      LessIsAsymmetric(a.workflow, b.workflow);
    } else if Less(b.workflow, a.workflow) {
      LessIsAsymmetric(b.workflow, a.workflow);
    }
  }

  lemma {:induction false} PlaceOrders(rows: seq<Row>, row: Row)
    requires Ordered(rows)
    ensures Ordered(Place(rows, row))
    ensures var last := Place(rows, row)[|rows|];
            last == row || (rows != [] && last == rows[|rows| - 1])
    ensures multiset(Place(rows, row)) == multiset(rows) + multiset{row}
  {
    if rows != [] && KeyLess(row, rows[|rows| - 1]) {
      var n := |rows| - 1;
      var last := rows[n];
      assert rows == rows[..n] + [last];
      OrderedEnd(rows[..n], last);
      PlaceOrders(rows[..n], row);
      KeyLessIsAsymmetric(row, last);
      OrderedEnd(Place(rows[..n], row), last);
    } else {
      OrderedEnd(rows, row);
    }
  }

  lemma {:induction false} QueryIsOrdered(table: seq<Row>, subject: string)
    ensures Ordered(Query(table, subject))
    ensures forall row :: multiset(Query(table, subject))[row]
                          == if row.subject == subject then multiset(table)[row] else 0
  {
    if table != [] {
      var n := |table| - 1;
      QueryIsOrdered(table[..n], subject);
      assert table == table[..n] + [table[n]];
      if table[n].subject == subject {
        PlaceOrders(Query(table[..n], subject), table[n]);
      }
    }
  }

  /** Ordering ordered rows changes nothing. */
  lemma {:induction false} QueryOfQuery(rows: seq<Row>, subject: string)
    requires Ordered(rows) && forall row :: row in rows ==> row.subject == subject
    ensures Query(rows, subject) == rows
  {
    if rows != [] {
      var n := |rows| - 1;
      assert rows[n] in rows;
      QueryOfQuery(rows[..n], subject);
      assert rows == rows[..n] + [rows[n]];
    }
  }

  // ---- What the reader accepts ---------------------------------------------------------------------

  predicate NotBefore(prior: Row, row: Row) {
    prior.createdAt.Some? && row.createdAt.Some? && row.createdAt.value >= prior.createdAt.value
  }

  predicate Follows(prior: Option<Row>, row: Row) {
    match prior
    case None => row.version == 1 && Allowed(None, row.status)
    case Some(p) =>
      && row.version == p.version + 1
      && Allowed(Some(p.status), row.status)
      && row.kind == p.kind
      && NotBefore(p, row)
  }

  /** A legal life of one workflow: versions from 1 without a gap, allowed transitions, one kind, no
      time going back. */
  predicate Chain(rows: seq<Row>) {
    rows == []
    || var n := |rows| - 1;
       && Chain(rows[..n])
       && Intact(rows[n])
       && Follows(Last(rows[..n]), rows[n])
  }

  /** What is asked of the row at a position, in terms of the rows themselves. */
  predicate FollowsOn(rows: seq<Row>, i: nat)
    requires i < |rows|
  {
    && Intact(rows[i]) && rows[i].version == i + 1
    && (i == 0 ==> rows[i].status == Running)
    && (i > 0 ==>
          && Allowed(Some(rows[i - 1].status), rows[i].status)
          && rows[i].kind == rows[i - 1].kind
          && rows[i - 1].createdAt.Some? && rows[i].createdAt.Some?
          && rows[i - 1].createdAt.value <= rows[i].createdAt.value)
  }

  /** A legal life, row by row. */
  lemma {:induction false} ChainIff(rows: seq<Row>)
    ensures Chain(rows) <==> forall i: nat | i < |rows| :: FollowsOn(rows, i)
  {
    if rows != [] {
      var n := |rows| - 1;
      ChainIff(rows[..n]);
      forall i: nat | i < n ensures FollowsOn(rows, i) <==> FollowsOn(rows[..n], i) {
      }
      if n == 0 || FollowsOn(rows, n - 1) {
        LastFollows(rows);
      } else {
        assert !Chain(rows[..n]);
      }
    }
  }

  lemma LastFollows(rows: seq<Row>)
    requires rows != [] && (|rows| > 1 ==> FollowsOn(rows, |rows| - 2))
    ensures var n := |rows| - 1;
            Intact(rows[n]) && Follows(Last(rows[..n]), rows[n]) <==> FollowsOn(rows, n)
  {
  }

  lemma ChainEnd(rows: seq<Row>, row: Row)
    ensures Chain(rows + [row])
        <==> Chain(rows) && Intact(row) && Follows(Last(rows), row)
  {
    assert (rows + [row])[..|rows|] == rows;
  }

  ghost predicate AllChains(rows: seq<Row>) {
    forall workflow :: Chain(Of(rows, workflow))
  }

  /** Some workflow holds rows of this subject and of another one. */
  predicate Crosses(table: seq<Row>, subject: string) {
    exists i, j | 0 <= i < |table| && 0 <= j < |table| ::
      table[i].subject == subject && table[j].workflow == table[i].workflow && table[j].subject != subject
  }

  ghost predicate Accepts(table: seq<Row>, subject: string) {
    && !Blank(subject)
    && !Crosses(table, subject)
    && AllChains(Query(table, subject))
  }

  /** Everybody's rows of the workflows of this subject are its own. */
  ghost predicate OwnsItsWorkflows(table: seq<Row>, subject: string) {
    forall own, other | own in table && other in table && own.subject == subject && other.workflow == own.workflow ::
      other.subject == subject
  }

  lemma CrossesIff(table: seq<Row>, subject: string)
    ensures Crosses(table, subject) <==> !OwnsItsWorkflows(table, subject)
  {
    if Crosses(table, subject) {
      var i, j :| 0 <= i < |table| && 0 <= j < |table|
        && table[i].subject == subject && table[j].workflow == table[i].workflow && table[j].subject != subject;
      assert table[i] in table && table[j] in table;
    }
    if !OwnsItsWorkflows(table, subject) {
      var own, other :| own in table && other in table && own.subject == subject && other.workflow == own.workflow
        && other.subject != subject;
      var i :| 0 <= i < |table| && table[i] == own;
      var j :| 0 <= j < |table| && table[j] == other;
      assert table[i].subject == subject && table[j].workflow == table[i].workflow && table[j].subject != subject;
    }
  }

  /** The reader accepts a subject if it is not blank, every workflow it has rows of is its own throughout, and each
      of them is a legal life. */
  lemma AcceptsIff(table: seq<Row>, subject: string)
    ensures Accepts(table, subject) <==>
              !Blank(subject) && OwnsItsWorkflows(table, subject) && AllChains(Query(table, subject))
  {
    CrossesIff(table, subject);
  }

  // ---- The writer -------------------------------------------------------------------------------------

  datatype Call = Call(
    subject: string, workflow: string, kind: string, status: Status, state: string, reason: string, now: int)

  function Written(call: Call, version: int): Row {
    Row(call.workflow, call.subject, call.kind, version, call.status, Some(call.state), HashOf(call.state),
        call.reason, Some(call.now))
  }

  predicate WellFormed(call: Call) {
    && !Blank(call.subject) && !Blank(call.workflow) && !Blank(call.kind) && !Blank(call.reason)
    && !call.status.Unknown?
    && |call.state| <= MAX_STATE
  }

  predicate Permitted(call: Call, previous: Option<Row>) {
    match previous
    case None => Allowed(None, call.status)
    case Some(p) =>
      Intact(p) && p.subject == call.subject && p.kind == call.kind && Allowed(Some(p.status), call.status)
  }

  predicate Lands(table: seq<Row>, call: Call) {
    WellFormed(call) && Permitted(call, Newest(table, call.workflow))
  }

  /** When a call is written: its texts are not blank, its status is known, its state fits, and the newest checkpoint
      of its workflow, if there is one, is sound, of the same subject and kind, and may be followed by it. */
  lemma LandsIff(table: seq<Row>, call: Call)
    ensures Lands(table, call) <==>
              && !Blank(call.subject) && !Blank(call.workflow) && !Blank(call.kind) && !Blank(call.reason)
              && call.status in {Running, Waiting, Interrupted, Completed, Failed}
              && |call.state| <= 1_000_000
              && (match Newest(table, call.workflow)
                  case None => call.status == Running
                  case Some(p) =>
                    && !Blank(p.workflow) && !Blank(p.kind) && !Blank(p.reason)
                    && p.version >= 1 && p.createdAt.Some?
                    && p.state.Some? && p.stateHash == HashOf(p.state.value)
                    && p.subject == call.subject && p.kind == call.kind
                    && Allowed(Some(p.status), call.status))
  {
  }

  /** The row holds the call under a version, and its hash is that of its state. */
  predicate IsCheckpointOf(row: Row, call: Call, version: int) {
    && row.workflow == call.workflow && row.subject == call.subject && row.kind == call.kind
    && row.version == version && row.status == call.status && row.reason == call.reason
    && row.state == Some(call.state) && row.stateHash == HashOf(call.state) && row.createdAt == Some(call.now)
  }

  function NextVersion(previous: Option<Row>): int {
    if previous.None? then 1 else previous.value.version + 1
  }

  function Serve(table: seq<Row>, call: Call): seq<Row> {
    if Lands(table, call) then table + [Written(call, NextVersion(Newest(table, call.workflow)))] else table
  }

  function Replay(calls: seq<Call>): seq<Row> {
    if calls == [] then [] else Serve(Replay(calls[..|calls| - 1]), calls[|calls| - 1])
  }

  // ---- Every table the writer builds is in good order, except perhaps for its times -----------------

  /** Intact rows of one subject, numbered from 1. */
  predicate Tidy(rows: seq<Row>) {
    forall i | 0 <= i < |rows| ::
      Intact(rows[i]) && rows[i].version == i + 1 && rows[i].subject == rows[0].subject
  }

  ghost predicate Grown(table: seq<Row>) {
    forall workflow :: Tidy(Of(table, workflow))
  }

  lemma NewestIsLast(table: seq<Row>, workflow: string)
    requires Tidy(Of(table, workflow))
    ensures Newest(table, workflow) == Last(Of(table, workflow))
  {
    NewestHasTheLargestVersion(table, workflow);
    var rows := Of(table, workflow);
    if rows != [] {
      assert rows[|rows| - 1] in rows;
    }
  }

  lemma {:induction false} OfHoldsTheWorkflow(rows: seq<Row>, workflow: string)
    ensures forall row :: row in Of(rows, workflow) <==> row in rows && row.workflow == workflow
  {
    if rows != [] {
      var n := |rows| - 1;
      OfHoldsTheWorkflow(rows[..n], workflow);
      assert rows == rows[..n] + [rows[n]];
    }
  }

  lemma GrownPrefix(table: seq<Row>, row: Row)
    requires Grown(table + [row])
    ensures Grown(table)
  {
    forall workflow ensures Tidy(Of(table, workflow)) {
      OfEnd(table, row, workflow);
      var shorter, longer := Of(table, workflow), Of(table + [row], workflow);
      assert Tidy(longer);
      assert forall i | 0 <= i < |shorter| :: longer[i] == shorter[i];
    }
  }

  lemma WrittenIsTidy(rows: seq<Row>, call: Call)
    requires Tidy(rows) && WellFormed(call) && Permitted(call, Last(rows))
    ensures Tidy(rows + [Written(call, NextVersion(Last(rows)))])
  {
    var longer := rows + [Written(call, NextVersion(Last(rows)))];
    forall i | 0 <= i < |longer|
      ensures Intact(longer[i]) && longer[i].version == i + 1 && longer[i].subject == longer[0].subject
    {
      if rows != [] {
        assert Intact(rows[|rows| - 1]);
      }
      if i < |rows| {
        assert longer[i] == rows[i] && Intact(rows[i]);
      }
    }
  }

  lemma ServeKeepsGrown(table: seq<Row>, call: Call)
    requires Grown(table)
    ensures Grown(Serve(table, call))
  {
    if Lands(table, call) {
      var row := Written(call, NextVersion(Newest(table, call.workflow)));
      forall workflow ensures Tidy(Of(table + [row], workflow)) {
        OfEnd(table, row, workflow);
        assert Tidy(Of(table, workflow));
        if workflow == call.workflow {
          NewestIsLast(table, workflow);
          WrittenIsTidy(Of(table, workflow), call);
        }
      }
    }
  }

  lemma {:induction false} ReplayIsGrown(calls: seq<Call>)
    ensures Grown(Replay(calls))
  {
    if calls != [] {
      ReplayIsGrown(calls[..|calls| - 1]);
      ServeKeepsGrown(Replay(calls[..|calls| - 1]), calls[|calls| - 1]);
    }
  }

  /** A row with the largest version of its workflow is placed after the workflow's other rows. */
  lemma {:induction false} PlaceProjects(rows: seq<Row>, row: Row, workflow: string)
    requires forall x :: x in Of(rows, row.workflow) ==> x.version <= row.version
    ensures Of(Place(rows, row), workflow)
            == if row.workflow == workflow then Of(rows, workflow) + [row] else Of(rows, workflow)
  {
    var n := |rows| - 1;
    if rows != [] && KeyLess(row, rows[n]) {
      var last := rows[n];
      if last.workflow == row.workflow {
        assert last in Of(rows, row.workflow);
        LessIsAsymmetric(row.workflow, last.workflow);
        assert false;
      }
      PlaceProjects(rows[..n], row, workflow);
      OfEnd(Place(rows[..n], row), last, workflow);
    } else {
      OfEnd(rows, row, workflow);
    }
  }

  predicate Owns(rows: seq<Row>, subject: string) {
    rows != [] && rows[0].subject == subject
  }

  /** The ordered query of the owner holds each of its workflows exactly as it was written. */
  lemma {:induction false} QueryKeepsWorkflows(table: seq<Row>, subject: string, workflow: string)
    requires Grown(table)
    ensures Of(Query(table, subject), workflow)
            == if Owns(Of(table, workflow), subject) then Of(table, workflow) else []
  {
    if table != [] {
      var n := |table| - 1;
      var row := table[n];
      assert table == table[..n] + [row];
      GrownPrefix(table[..n], row);
      QueryKeepsWorkflows(table[..n], subject, workflow);
      OfEnd(table[..n], row, workflow);
      var whole := Of(table, workflow);
      assert Tidy(whole);
      if row.workflow == workflow {
        assert whole[|whole| - 1].subject == whole[0].subject;
      }
      if row.subject == subject {
        QueryKeepsWorkflows(table[..n], subject, row.workflow);
        NewRowIsLargest(table[..n], row, subject);
        PlaceProjects(Query(table[..n], subject), row, workflow);
      }
    }
  }

  lemma NewRowIsLargest(table: seq<Row>, row: Row, subject: string)
    requires Grown(table + [row])
    requires Of(Query(table, subject), row.workflow)
             == if Owns(Of(table, row.workflow), subject) then Of(table, row.workflow) else []
    ensures forall x :: x in Of(Query(table, subject), row.workflow) ==> x.version <= row.version
  {
    OfEnd(table, row, row.workflow);
    var longer := Of(table + [row], row.workflow);
    assert Tidy(longer);
    forall x | x in Of(table, row.workflow) ensures x.version <= row.version {
      var i :| 0 <= i < |Of(table, row.workflow)| && Of(table, row.workflow)[i] == x;
      assert longer[i] == x && longer[|longer| - 1] == row;
    }
  }

  lemma GrownNeverCrosses(table: seq<Row>, subject: string)
    requires Grown(table)
    ensures !Crosses(table, subject)
  {
    forall i, j | 0 <= i < |table| && 0 <= j < |table| && table[j].workflow == table[i].workflow
      ensures table[j].subject == table[i].subject
    {
      var rows := Of(table, table[i].workflow);
      OfHoldsTheWorkflow(table, table[i].workflow);
      assert Tidy(rows) && table[i] in rows && table[j] in rows;
    }
  }

  // ---- When the reader accepts what the writer built -------------------------------------------------

  /** Each accepted call came no earlier than the newest checkpoint of its workflow. */
  predicate Timely(calls: seq<Call>) {
    calls == []
    || var n := |calls| - 1;
       var table, call := Replay(calls[..n]), calls[n];
       var newest := Newest(table, call.workflow);
       && Timely(calls[..n])
       && (Lands(table, call) && newest.Some? ==>
             newest.value.createdAt.Some? && newest.value.createdAt.value <= call.now)
  }

  /** One accepted call keeps every workflow legal exactly when it is not earlier than the newest
      checkpoint. */
  lemma ServeKeepsChains(table: seq<Row>, call: Call)
    requires Grown(table) && Lands(table, call)
    ensures var newest := Newest(table, call.workflow);
            AllChains(Serve(table, call))
            <==> AllChains(table)
                 && (newest.Some? ==> newest.value.createdAt.Some? && newest.value.createdAt.value <= call.now)
  {
    var newest := Newest(table, call.workflow);
    var row := Written(call, NextVersion(newest));
    NewestIsLast(table, call.workflow);
    assert Tidy(Of(table, call.workflow));
    ChainEnd(Of(table, call.workflow), row);
    OfEnd(table, row, call.workflow);
    assert AllChains(table + [row]) ==> Chain(Of(table + [row], call.workflow));
    assert AllChains(table) ==> Chain(Of(table, call.workflow));
    forall workflow | workflow != call.workflow
      ensures Of(table + [row], workflow) == Of(table, workflow)
    {
      OfEnd(table, row, workflow);
    }
    if AllChains(table + [row]) {
      forall workflow ensures Chain(Of(table, workflow)) {
        assert Chain(Of(table + [row], workflow));
      }
    }
  }

  lemma {:induction false} ChainsIffTimely(calls: seq<Call>)
    ensures AllChains(Replay(calls)) <==> Timely(calls)
  {
    if calls == [] {
      forall workflow ensures Chain(Of([], workflow)) {
      }
    } else {
      var n := |calls| - 1;
      ChainsIffTimely(calls[..n]);
      ReplayIsGrown(calls[..n]);
      if Lands(Replay(calls[..n]), calls[n]) {
        ServeKeepsChains(Replay(calls[..n]), calls[n]);
      }
    }
  }

  ghost predicate OwnChains(table: seq<Row>, subject: string) {
    forall workflow | Owns(Of(table, workflow), subject) :: Chain(Of(table, workflow))
  }

  lemma AcceptsGrown(table: seq<Row>, subject: string)
    requires Grown(table) && !Blank(subject)
    ensures Accepts(table, subject)
            <==> OwnChains(table, subject)
  {
    GrownNeverCrosses(table, subject);
    forall workflow
      ensures Of(Query(table, subject), workflow)
              == if Owns(Of(table, workflow), subject) then Of(table, workflow) else []
    {
      QueryKeepsWorkflows(table, subject, workflow);
    }
    if Accepts(table, subject) {
      forall workflow | Owns(Of(table, workflow), subject) ensures Chain(Of(table, workflow)) {
        assert Chain(Of(Query(table, subject), workflow));
      }
    }
    if OwnChains(table, subject) {
      forall workflow ensures Chain(Of(Query(table, subject), workflow)) {
        assert Owns(Of(table, workflow), subject) ==> Chain(Of(table, workflow));
      }
    }
  }

  /** The writer and the reader agree: after any calls, by any subjects, the reader accepts every subject
      exactly when no accepted call was stamped before the newest checkpoint of its workflow. */
  lemma WriterAndReaderAgree(calls: seq<Call>)
    ensures (forall subject | !Blank(subject) :: Accepts(Replay(calls), subject)) <==> Timely(calls)
  {
    var table := Replay(calls);
    ReplayIsGrown(calls);
    ChainsIffTimely(calls);
    forall subject | !Blank(subject)
      ensures Accepts(table, subject)
              <==> OwnChains(table, subject)
    {
      AcceptsGrown(table, subject);
    }
    if forall subject | !Blank(subject) :: Accepts(table, subject) {
      forall workflow ensures Chain(Of(table, workflow)) {
        var rows := Of(table, workflow);
        assert Tidy(rows);
        if rows != [] {
          assert Owns(rows, rows[0].subject);
        }
      }
    }
  }

  /** No row is newer than the clock. */
  predicate NotAfter(rows: seq<Row>, now: int) {
    forall i | 0 <= i < |rows| :: rows[i].createdAt.Some? && rows[i].createdAt.value <= now
  }

  predicate Steady(calls: seq<Call>) {
    forall i, j | 0 <= i < j < |calls| :: calls[i].now <= calls[j].now
  }

  lemma {:induction false} SteadyRows(calls: seq<Call>)
    requires Steady(calls)
    ensures calls == [] ==> Replay(calls) == []
    ensures calls != [] ==> NotAfter(Replay(calls), calls[|calls| - 1].now)
  {
    if calls != [] {
      SteadyRows(calls[..|calls| - 1]);
    }
  }

  /** In particular a clock that never goes back keeps every history acceptable. */
  lemma {:induction false} SteadyClockIsTimely(calls: seq<Call>)
    requires Steady(calls)
    ensures Timely(calls)
  {
    if calls != [] {
      var n := |calls| - 1;
      SteadyClockIsTimely(calls[..n]);
      SteadyRows(calls[..n]);
      NewestHasTheLargestVersion(Replay(calls[..n]), calls[n].workflow);
      OfHoldsTheWorkflow(Replay(calls[..n]), calls[n].workflow);
    }
  }

  /** A clock set back is noticed: the call is written, and from then on its subject is refused. */
  lemma EarlyCallIsRefused(calls: seq<Call>, call: Call)
    requires Lands(Replay(calls), call)
    requires var newest := Newest(Replay(calls), call.workflow);
             newest.Some? && newest.value.createdAt.Some? && call.now < newest.value.createdAt.value
    ensures !Accepts(Replay(calls + [call]), call.subject)
  {
    var table, after, workflow := Replay(calls), Replay(calls + [call]), call.workflow;
    assert (calls + [call])[..|calls|] == calls;
    ReplayIsGrown(calls);
    ReplayIsGrown(calls + [call]);
    assert Tidy(Of(table, workflow)) && Tidy(Of(after, workflow));
    NewestIsLast(table, workflow);
    var row := Written(call, NextVersion(Newest(table, workflow)));
    OfEnd(table, row, workflow);
    ChainEnd(Of(table, workflow), row);
    var rows := Of(after, workflow);
    assert rows[|rows| - 1].subject == rows[0].subject;
    assert Owns(rows, call.subject);
    AcceptsGrown(after, call.subject);
  }

  /** Such a call exists, so the clock condition cannot be dropped. */
  lemma ClockSetBack()
    ensures var first := Call("s", "w", "k", Running, "{}", "r", 1);
            !Accepts(Replay([first, first.(now := 0)]), "s")
  {
    var first := Call("s", "w", "k", Running, "{}", "r", 1);
    assert !IsSpace("s"[0]) && !IsSpace("w"[0]) && !IsSpace("k"[0]) && !IsSpace("r"[0]);
    assert WellFormed(first);
    assert [first][..0] == [];
    var row := Written(first, 1);
    assert Replay([first]) == [row];
    assert [row][..0] == [];
    assert Newest([row], "w") == Some(row);
    EarlyCallIsRefused([first], first.(now := 0));
  }

  /** The accepted calls of one subject. */
  function Landed(calls: seq<Call>, subject: string): set<nat> {
    set i: nat | i < |calls| && calls[i].subject == subject && Lands(Replay(calls[..i]), calls[i])
  }

  lemma LandedIff(calls: seq<Call>, subject: string, i: nat)
    ensures i in Landed(calls, subject) <==>
              i < |calls| && calls[i].subject == subject && Lands(Replay(calls[..i]), calls[i])
  {
  }

  lemma LandedEnd(calls: seq<Call>, subject: string)
    requires calls != []
    ensures var n := |calls| - 1;
            |Landed(calls, subject)| == |Landed(calls[..n], subject)|
              + if calls[n].subject == subject && Lands(Replay(calls[..n]), calls[n]) then 1 else 0
  {
    var n := |calls| - 1;
    var before := Landed(calls[..n], subject);
    forall i: nat ensures i in Landed(calls, subject) <==> i in before || (i == n && n in Landed(calls, subject)) {
      assert i < n ==> calls[..n][i] == calls[i] && calls[..n][..i] == calls[..i];
      LandedIff(calls, subject, i);
      LandedIff(calls[..n], subject, i);
    }
    assert n !in before;
    assert Landed(calls, subject) == before + if n in Landed(calls, subject) then {n} else {};
  }

  lemma {:induction false} QueryCountsCalls(calls: seq<Call>, subject: string)
    ensures |Query(Replay(calls), subject)| == |Landed(calls, subject)|
  {
    if calls != [] {
      var n := |calls| - 1;
      QueryCountsCalls(calls[..n], subject);
      LandedEnd(calls, subject);
      var table := Replay(calls[..n]);
      if Lands(table, calls[n]) {
        assert Replay(calls)[..|table|] == table;
      }
    }
  }

  // ---- Every accepted history can be written -----------------------------------------------------------

  function CallFor(row: Row): Call
    requires row.state.Some? && row.createdAt.Some?
  {
    Call(row.subject, row.workflow, row.kind, row.status, row.state.value, row.reason, row.createdAt.value)
  }

  /** The calls that write these rows, one per row and in their order. */
  function CallsFor(rows: seq<Row>): (calls: seq<Call>)
    requires AllIntact(rows)
    ensures |calls| == |rows|
  {
    if rows == [] then []
    else
      var n := |rows| - 1;
      assert Intact(rows[n]);
      CallsFor(rows[..n]) + [CallFor(rows[n])]
  }

  predicate AllIntact(rows: seq<Row>) {
    forall i | 0 <= i < |rows| :: Intact(rows[i])
  }

  predicate WithinLimit(rows: seq<Row>) {
    forall i | 0 <= i < |rows| :: rows[i].state.Some? ==> |rows[i].state.value| <= MAX_STATE
  }

  lemma {:induction false} ChainIsNumbered(rows: seq<Row>)
    requires Chain(rows)
    ensures forall i | 0 <= i < |rows| :: Intact(rows[i]) && rows[i].version == i + 1
  {
    if rows != [] {
      ChainIsNumbered(rows[..|rows| - 1]);
    }
  }

  lemma ChainsArePrefixClosed(rows: seq<Row>, row: Row)
    requires AllChains(rows + [row])
    ensures AllChains(rows)
  {
    forall workflow ensures Chain(Of(rows, workflow)) {
      OfEnd(rows, row, workflow);
      assert Chain(Of(rows + [row], workflow));
      ChainEnd(Of(rows, workflow), row);
    }
  }

  lemma ChainsAreIntact(rows: seq<Row>, subject: string)
    requires AllChains(rows) && forall row :: row in rows ==> row.subject == subject
    ensures Grown(rows)
    ensures AllIntact(rows)
  {
    forall workflow ensures Tidy(Of(rows, workflow)) {
      assert Chain(Of(rows, workflow));
      ChainIsNumbered(Of(rows, workflow));
      OfHoldsTheWorkflow(rows, workflow);
    }
    forall i | 0 <= i < |rows| ensures Intact(rows[i]) {
      var row := rows[i];
      OfHoldsTheWorkflow(rows, row.workflow);
      assert Tidy(Of(rows, row.workflow)) && row in Of(rows, row.workflow);
    }
  }

  /** A row that follows the newest row of its workflow is what its call writes. */
  lemma CallWritesRow(prior: Option<Row>, row: Row)
    requires Intact(row) && |row.state.value| <= MAX_STATE && Follows(prior, row)
    requires prior.Some? ==> Intact(prior.value) && prior.value.subject == row.subject
    ensures WellFormed(CallFor(row)) && Permitted(CallFor(row), prior)
    ensures Written(CallFor(row), NextVersion(prior)) == row
  {
  }

  lemma LastRowIsWritten(rows: seq<Row>, row: Row, subject: string)
    requires AllChains(rows + [row]) && Grown(rows)
    requires row.subject == subject && forall x :: x in rows ==> x.subject == subject
    requires row.state.Some? ==> |row.state.value| <= MAX_STATE
    ensures Intact(row) && Serve(rows, CallFor(row)) == rows + [row]
  {
    var mine := Of(rows, row.workflow);
    assert Intact(row) && Follows(Last(mine), row) by {
      OfEnd(rows, row, row.workflow);
      assert Chain(Of(rows + [row], row.workflow));
      ChainEnd(mine, row);
    }
    assert Tidy(mine);
    if mine != [] {
      OfHoldsTheWorkflow(rows, row.workflow);
      assert Intact(mine[|mine| - 1]) && mine[|mine| - 1] in mine;
    }
    CallWritesRow(Last(mine), row);
    NewestIsLast(rows, row.workflow);
  }

  lemma {:induction false} RebuiltRows(rows: seq<Row>, subject: string)
    requires AllChains(rows) && WithinLimit(rows)
    requires forall row :: row in rows ==> row.subject == subject
    ensures AllIntact(rows)
    ensures Replay(CallsFor(rows)) == rows
  {
    ChainsAreIntact(rows, subject);
    if rows != [] {
      var n := |rows| - 1;
      var row := rows[n];
      assert rows == rows[..n] + [row];
      ChainsArePrefixClosed(rows[..n], row);
      ChainsAreIntact(rows[..n], subject);
      LastRowIsWritten(rows[..n], row, subject);
      RebuiltRows(rows[..n], subject);
      assert CallsFor(rows)[..n] == CallsFor(rows[..n]);
    }
  }

  /** Every history the reader accepts, in whatever table it is found, is one that checkpoint calls
      write: the calls read off its rows rebuild exactly those rows. */
  lemma AcceptedHistoryIsWritable(table: seq<Row>, subject: string)
    requires Accepts(table, subject) && WithinLimit(Query(table, subject))
    ensures AllIntact(Query(table, subject))
    ensures var calls := CallsFor(Query(table, subject));
            && Query(Replay(calls), subject) == Query(table, subject)
            && |Landed(calls, subject)| == |calls|
  {
    var rows := Query(table, subject);
    QueryIsOrdered(table, subject);
    forall row | row in rows ensures row.subject == subject {
      assert row in multiset(rows);
    }
    RebuiltRows(rows, subject);
    QueryOfQuery(rows, subject);
    QueryCountsCalls(CallsFor(rows), subject);
  }

  // ---- The store -----------------------------------------------------------------------------------------

  class WorkflowStore {
    var table: seq<Row>

    constructor (table: seq<Row>)
      ensures this.table == table
    {
      this.table := table;
    }

    method Checkpoint(call: Call) returns (r: Result<Row>)
      modifies this
      ensures table == Serve(old(table), call)
      ensures r.Success? <==> Lands(old(table), call)
      ensures r.Success? ==> Intact(r.value) && table == old(table) + [r.value]
      ensures r.Success? ==>
                var newest := Newest(old(table), call.workflow);
                IsCheckpointOf(r.value, call, if newest.None? then 1 else newest.value.version + 1)
      ensures r.Failure? ==> table == old(table)
      ensures Grown(old(table)) ==> Grown(table)
    {
      if Blank(call.subject) || Blank(call.workflow) || Blank(call.kind) || Blank(call.reason) {
        return Failure("workflow checkpoint metadata cannot be blank");
      }
      if call.status.Unknown? {
        return Failure("workflow checkpoint status is invalid");
      }
      if |call.state| > MAX_STATE {
        return Failure("workflow checkpoint exceeds one megabyte");
      }
      var previous := Newest(table, call.workflow);
      var version := 1;
      if previous.Some? {
        if !Intact(previous.value) {
          return Failure("workflow checkpoint is invalid");
        }
        if previous.value.subject != call.subject {
          return Failure("workflow belongs to another subject");
        }
        if previous.value.kind != call.kind {
          return Failure("workflow type cannot change across checkpoints");
        }
        if !Allowed(Some(previous.value.status), call.status) {
          return Failure("invalid workflow transition");
        }
        version := previous.value.version + 1;
      } else if !Allowed(None, call.status) {
        return Failure("invalid workflow transition");
      }
      ghost var before := table;
      table := table + [Written(call, version)];
      r := Success(Written(call, version));
      if Grown(before) {
        ServeKeepsGrown(before, call);
      }
    }

    /** A checkpoint back to `Running` with the kind of the newest checkpoint. */
    method Resume(subject: string, workflow: string, state: string, reason: string, now: int) returns (r: Result<Row>)
      modifies this
      ensures var current := Newest(old(table), workflow);
              if current.Some? && Intact(current.value)
              then var call := Call(subject, workflow, current.value.kind, Running, state, reason, now);
                   && (r.Success? <==> Lands(old(table), call))
                   && (r.Success? ==> table == old(table) + [r.value])
                   && (r.Failure? ==> table == old(table))
                   && (r.Success? ==> IsCheckpointOf(r.value, call, current.value.version + 1))
              else table == old(table) && r.Failure?
      ensures r.Success? ==>
                var current := Newest(old(table), workflow);
                current.Some? && current.value.status != Completed && current.value.subject == subject
    {
      var current := Newest(table, workflow);
      if current.None? {
        return Failure("workflow not found");
      }
      if !Intact(current.value) {
        return Failure("workflow checkpoint is invalid");
      }
      r := Checkpoint(Call(subject, workflow, current.value.kind, Running, state, reason, now));
    }

    /** The reader accepts exactly the legal histories, and returns their number of rows. */
    method VerifyIntegrity(subject: string) returns (r: Result<nat>)
      ensures r.Success? <==> Accepts(table, subject)
      ensures r.Success? ==> r.value == |Query(table, subject)|
    {
      if Blank(subject) {
        return Failure("workflow checkpoint subject is invalid");
      }
      if Crosses(table, subject) {
        return Failure("workflow checkpoint crosses subject boundary");
      }
      r := VerifyRows(Query(table, subject));
    }
  }

  ghost predicate Remembers(previous: map<string, Row>, rows: seq<Row>) {
    forall workflow ::
      Last(Of(rows, workflow)) == if workflow in previous then Some(previous[workflow]) else None
  }

  lemma RemembersNext(previous: map<string, Row>, rows: seq<Row>, row: Row)
    requires Remembers(previous, rows)
    ensures Remembers(previous[row.workflow := row], rows + [row])
  {
    forall workflow
      ensures var next := previous[row.workflow := row];
              Last(Of(rows + [row], workflow)) == if workflow in next then Some(next[workflow]) else None
    {
      OfEnd(rows, row, workflow);
      assert Remembers(previous, rows);
    }
  }

  /** One remembered row per workflow is enough to check all workflows in one pass. */
  method VerifyRows(rows: seq<Row>) returns (r: Result<nat>)
    ensures r.Success? <==> AllChains(rows)
    ensures r.Success? ==> r.value == |rows|
  {
    var previous: map<string, Row> := map[];
    var i := 0;
    NoRows(rows[..0]);
    while i < |rows|
      invariant i <= |rows|
      invariant AllChains(rows[..i])
      invariant Remembers(previous, rows[..i])
    {
      var row := rows[i];
      var prior := if row.workflow in previous then Some(previous[row.workflow]) else None;
      assert prior == Last(Of(rows[..i], row.workflow));
      assert rows[..i + 1] == rows[..i] + [row];
      NextRow(rows[..i], row);
      if !Intact(row) || !Follows(prior, row) {
        RefusedAt(rows, i + 1);
        return Failure("workflow checkpoint history is invalid");
      }
      RemembersNext(previous, rows[..i], row);
      previous := previous[row.workflow := row];
      i := i + 1;
    }
    assert rows[..i] == rows;
    return Success(|rows|);
  }

  lemma NoRows(rows: seq<Row>)
    requires rows == []
    ensures AllChains(rows) && Remembers(map[], rows)
  {
    forall workflow ensures Chain(Of(rows, workflow)) {
    }
  }

  lemma RefusedAt(rows: seq<Row>, n: nat)
    requires n <= |rows| && !AllChains(rows[..n])
    ensures !AllChains(rows)
  {
    if AllChains(rows) {
      ChainsOfPrefix(rows, n);
    }
  }

  lemma NextRow(rows: seq<Row>, row: Row)
    requires AllChains(rows)
    ensures AllChains(rows + [row]) <==> Intact(row) && Follows(Last(Of(rows, row.workflow)), row)
  {
    assert Chain(Of(rows, row.workflow));
    ChainEnd(Of(rows, row.workflow), row);
    OfEnd(rows, row, row.workflow);
    forall workflow | workflow != row.workflow ensures Chain(Of(rows + [row], workflow)) {
      OfEnd(rows, row, workflow);
      assert Chain(Of(rows, workflow));
    }
    if AllChains(rows + [row]) {
      assert Chain(Of(rows + [row], row.workflow));
    }
  }

  lemma {:induction false} ChainsOfPrefix(rows: seq<Row>, n: nat)
    requires AllChains(rows) && n <= |rows|
    ensures AllChains(rows[..n])
    decreases |rows| - n
  {
    if n < |rows| {
      ChainsOfPrefix(rows, n + 1);
      assert rows[..n + 1] == rows[..n] + [rows[n]];
      ChainsArePrefixClosed(rows[..n], rows[n]);
    } else {
      assert rows[..n] == rows;
    }
  }
}
