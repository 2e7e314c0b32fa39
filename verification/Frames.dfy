/** The hash-chained consciousness frames (src/noyra/cognition/consciousness.py): a writer that appends
    one row per frame, and an independent reader that decides whether a subject's history is intact.

    `content_hash` is symbolic: a hash is either the hash of one payload, or text that no payload hashes
    to.  The table is a sequence of rows of many subjects and may have been changed in any way before
    either operation runs. */
module Frames {
  import opened Wrappers
  import opened Text
  import opened Sequences

  datatype Hash = HashOf(payload: Payload) | Garbage(text: string)

  /** The columns that are read as they are. */
  datatype Columns = Columns(
    subject: string,
    sequence: int,
    previous: Option<Hash>,
    state: string,
    attentionType: string,
    attentionId: Option<string>,
    workflow: string,
    reason: string,
    pool: Option<string>,
    route: Option<string>,
    wakeAt: Option<string>,
    createdAt: string)

  /** The columns stored as JSON. */
  datatype Lists = Lists(
    internal: seq<string>,
    world: seq<string>,
    tensions: seq<string>,
    candidates: seq<string>,
    wake: map<string, string>)

  datatype Payload = Payload(columns: Columns, lists: Lists)

  /** `lists` is `None` when one of the JSON columns does not decode to its type. */
  datatype Row = Row(frameId: string, columns: Columns, lists: Option<Lists>, stateHash: Hash)

  datatype Request = Request(
    state: string,
    workflow: string,
    reason: string,
    attentionType: string,
    attentionId: Option<string>,
    lists: Lists,
    pool: Option<string>,
    route: Option<string>,
    wakeAt: Option<string>)

  // ---- The rows of one subject, ordered by sequence number --------------------------------------

  function Place(ordered: seq<Row>, row: Row): (r: seq<Row>)
    ensures |r| == |ordered| + 1
  {
    var n := |ordered| - 1;
    if ordered == [] || ordered[n].columns.sequence <= row.columns.sequence then ordered + [row]
    else Place(ordered[..n], row) + [ordered[n]]
  }

  function History(table: seq<Row>, subject: string): seq<Row> {
    if table == [] then []
    else
      var n := |table| - 1;
      var rest := History(table[..n], subject);
      if table[n].columns.subject == subject then Place(rest, table[n]) else rest
  }

  predicate AtMost(rows: seq<Row>, bound: int) {
    forall i | 0 <= i < |rows| :: rows[i].columns.sequence <= bound
  }

  predicate Ordered(rows: seq<Row>) {
    forall i | 0 <= i < |rows| :: AtMost(rows[..i], rows[i].columns.sequence)
  }

  lemma OrderedEnd(rows: seq<Row>, row: Row)
    ensures Ordered(rows + [row]) <==> Ordered(rows) && AtMost(rows, row.columns.sequence)
  {
    var longer := rows + [row];
    assert longer[..|rows|] == rows;
    assert forall i | 0 <= i < |rows| :: longer[i] == rows[i] && longer[..i] == rows[..i];
  }

  lemma {:induction false} PlaceKeepsRows(ordered: seq<Row>, row: Row)
    ensures multiset(Place(ordered, row)) == multiset(ordered) + multiset{row}
  {
    if ordered != [] {
      var n := |ordered| - 1;
      assert ordered == ordered[..n] + [ordered[n]];
      PlaceKeepsRows(ordered[..n], row);
    }
  }

  lemma {:induction false} PlaceOrders(ordered: seq<Row>, row: Row, bound: int)
    requires Ordered(ordered) && AtMost(ordered, bound) && row.columns.sequence <= bound
    ensures Ordered(Place(ordered, row)) && AtMost(Place(ordered, row), bound)
  {
    var n := |ordered| - 1;
    if ordered != [] {
      var last := ordered[n];
      assert ordered == ordered[..n] + [last];
      OrderedEnd(ordered[..n], last);
      if last.columns.sequence > row.columns.sequence {
        PlaceOrders(ordered[..n], row, last.columns.sequence);
        OrderedEnd(Place(ordered[..n], row), last);
      } else {
        OrderedEnd(ordered, row);
      }
    }
  }

  function Max(rows: seq<Row>, floor: int): (m: int)
    ensures AtMost(rows, m) && floor <= m
  {
    if rows == [] then floor
    else
      var m := Max(rows[1..], floor);
      var first := rows[0].columns.sequence;
      assert forall i | 1 <= i < |rows| :: rows[i] == rows[1..][i - 1];
      if first > m then first else m
  }

  /** The query: exactly the subject's rows, each as often as it is stored, in order. */
  lemma {:induction false} HistoryIsTheQuery(table: seq<Row>, subject: string)
    ensures Ordered(History(table, subject))
    ensures forall row :: multiset(History(table, subject))[row]
                          == if row.columns.subject == subject then multiset(table)[row] else 0
  {
    if table != [] {
      var n := |table| - 1;
      HistoryIsTheQuery(table[..n], subject);
      assert table == table[..n] + [table[n]];
      if table[n].columns.subject == subject {
        var rest := History(table[..n], subject);
        var bound := Max(rest, table[n].columns.sequence);
        PlaceOrders(rest, table[n], bound);
        PlaceKeepsRows(rest, table[n]);
      }
    }
  }

  // ---- What it means to be intact ----------------------------------------------------------------

  /** The row's own hash covers its columns (`_from_row`). */
  predicate Intact(row: Row) {
    row.columns.sequence >= 1 && row.lists.Some? && row.stateHash == HashOf(Payload(row.columns, row.lists.value))
  }

  function PreviousHash(rows: seq<Row>): Option<Hash> {
    if rows == [] then None else Some(rows[|rows| - 1].stateHash)
  }

  predicate Linked(rows: seq<Row>, i: nat)
    requires i < |rows|
  {
    && Intact(rows[i])
    && rows[i].columns.sequence == i + 1
    && rows[i].columns.previous == PreviousHash(rows[..i])
  }

  /** A gap-free chain from sequence number 1. */
  predicate Chained(rows: seq<Row>) {
    forall i | 0 <= i < |rows| :: Linked(rows, i)
  }

  predicate FollowsOn(rows: seq<Row>, i: nat)
    requires i < |rows|
  {
    && rows[i].columns.sequence == i + 1
    && rows[i].lists.Some? && rows[i].stateHash == HashOf(Payload(rows[i].columns, rows[i].lists.value))
    && rows[i].columns.previous == if i == 0 then None else Some(rows[i - 1].stateHash)
  }

  /** Row by row: the numbers count from 1, every hash is that of its own columns and lists, and every row names
      the hash of the row before it, the first one none. */
  lemma ChainedIff(rows: seq<Row>)
    ensures Chained(rows) <==> forall i: nat | i < |rows| :: FollowsOn(rows, i)
  {
    forall i: nat | i < |rows| ensures Linked(rows, i) <==> FollowsOn(rows, i) {
      assert PreviousHash(rows[..i]) == if i == 0 then None else Some(rows[i - 1].stateHash);
    }
  }

  lemma LinkedIsLocal(a: seq<Row>, b: seq<Row>, i: nat)
    requires i < |a| && i < |b| && a[..i + 1] == b[..i + 1]
    ensures Linked(a, i) == Linked(b, i)
  {
    assert a[i] == a[..i + 1][i] == b[i];
    assert a[..i] == a[..i + 1][..i] == b[..i];
  }

  lemma ChainedPrefix(rows: seq<Row>, n: nat)
    requires Chained(rows) && n <= |rows|
    ensures Chained(rows[..n])
  {
    forall i | 0 <= i < n ensures Linked(rows[..n], i) {
      LinkedIsLocal(rows[..n], rows, i);
    }
  }

  lemma ChainedExtends(rows: seq<Row>, row: Row)
    ensures Chained(rows + [row])
        <==> Chained(rows) && Intact(row) && row.columns.sequence == |rows| + 1
             && row.columns.previous == PreviousHash(rows)
  {
    var longer := rows + [row];
    assert longer[..|rows|] == rows;
    if Chained(longer) {
      ChainedPrefix(longer, |rows|);
      assert Linked(longer, |rows|);
    }
    if Chained(rows) {
      forall i | 0 <= i < |rows| ensures Linked(longer, i) {
        LinkedIsLocal(rows, longer, i);
      }
    }
  }

  // ---- Appending -----------------------------------------------------------------------------------

  predicate Acceptable(request: Request) {
    && !Blank(request.workflow) && !Blank(request.reason)
    && ((request.attentionType == "none") == request.attentionId.None?)
  }

  /** The row `append` inserts after the newest row of the subject, whatever that row holds. */
  function NewRow(table: seq<Row>, subject: string, request: Request, frameId: string, now: string): Row {
    var history := History(table, subject);
    var columns := Columns(
      subject,
      if history == [] then 1 else history[|history| - 1].columns.sequence + 1,
      PreviousHash(history),
      request.state, request.attentionType, request.attentionId, request.workflow, request.reason,
      request.pool, request.route, request.wakeAt, now);
    var lists := Lists(
      Dedup(request.lists.internal), Dedup(request.lists.world), Dedup(request.lists.tensions),
      Dedup(request.lists.candidates), request.lists.wake);
    Row(frameId, columns, Some(lists), HashOf(Payload(columns, lists)))
  }

  /** The row of the subject that `append` takes for the newest: none has a larger sequence number. */
  ghost predicate IsNewest(table: seq<Row>, subject: string, row: Row) {
    && row in table && row.columns.subject == subject
    && forall other | other in table && other.columns.subject == subject ::
         other.columns.sequence <= row.columns.sequence
  }

  /** The last row of a history is the newest, and there is one unless the subject has no row. */
  lemma LastIsNewest(table: seq<Row>, subject: string)
    ensures var history := History(table, subject);
            if history == [] then forall row | row in table :: row.columns.subject != subject
            else IsNewest(table, subject, history[|history| - 1])
  {
    var history := History(table, subject);
    forall row ensures row in history <==> row in table && row.columns.subject == subject {
      InHistory(table, subject, row);
    }
    if history != [] {
      HistoryIsTheQuery(table, subject);
      LastIsLargest(history);
      assert history[|history| - 1] in history;
    }
  }

  lemma InHistory(table: seq<Row>, subject: string, row: Row)
    ensures row in History(table, subject) <==> row in table && row.columns.subject == subject
  {
    HistoryIsTheQuery(table, subject);
    assert row in History(table, subject) <==> multiset(History(table, subject))[row] > 0;
    assert row in table <==> multiset(table)[row] > 0;
  }

  lemma LastIsLargest(rows: seq<Row>)
    requires Ordered(rows) && rows != []
    ensures forall row | row in rows :: row.columns.sequence <= rows[|rows| - 1].columns.sequence
  {
    var n := |rows| - 1;
    forall i | 0 <= i < n ensures rows[i].columns.sequence <= rows[n].columns.sequence {
      assert AtMost(rows[..n], rows[n].columns.sequence) && rows[..n][i] == rows[i];
    }
  }

  /** Appending adds one row at the end of the subject's history and moves nobody else's. */
  lemma AppendExtends(table: seq<Row>, subject: string, request: Request, frameId: string, now: string, other: string)
    ensures var row := NewRow(table, subject, request, frameId, now);
            History(table + [row], other)
            == if other == subject then History(table, other) + [row] else History(table, other)
  {
    var row := NewRow(table, subject, request, frameId, now);
    assert (table + [row])[..|table|] == table;
  }

  /** One append neither repairs nor breaks a history: afterwards the reader accepts exactly the
      subjects it accepted before. */
  lemma AppendKeepsVerdicts(
    table: seq<Row>, subject: string, request: Request, frameId: string, now: string, other: string)
    ensures var row := NewRow(table, subject, request, frameId, now);
            Chained(History(table + [row], other)) <==> Chained(History(table, other))
  {
    var row := NewRow(table, subject, request, frameId, now);
    var history := History(table, subject);
    AppendExtends(table, subject, request, frameId, now, other);
    if other == subject {
      ChainedExtends(history, row);
      if Chained(history) && history != [] {
        assert Linked(history, |history| - 1);
      }
    }
  }

  // ---- Whole histories -------------------------------------------------------------------------------

  /** One call of `append`, by the store of any subject. */
  datatype Call = Call(subject: string, request: Request, frameId: string, now: string)

  function Serve(table: seq<Row>, call: Call): seq<Row> {
    if Acceptable(call.request)
    then table + [NewRow(table, call.subject, call.request, call.frameId, call.now)]
    else table
  }

  function Replay(calls: seq<Call>): seq<Row> {
    if calls == [] then [] else Serve(Replay(calls[..|calls| - 1]), calls[|calls| - 1])
  }

  /** The calls of one subject that were accepted. */
  function Accepted(calls: seq<Call>, subject: string): set<nat> {
    set i: nat | i < |calls| && calls[i].subject == subject && Acceptable(calls[i].request)
  }

  lemma AcceptedIff(calls: seq<Call>, subject: string, i: nat)
    ensures i in Accepted(calls, subject) <==>
              i < |calls| && calls[i].subject == subject && Acceptable(calls[i].request)
  {
  }

  lemma AcceptedEnd(calls: seq<Call>, subject: string)
    requires calls != []
    ensures var n := |calls| - 1;
            |Accepted(calls, subject)| == |Accepted(calls[..n], subject)|
              + if calls[n].subject == subject && Acceptable(calls[n].request) then 1 else 0
  {
    var n := |calls| - 1;
    var before := Accepted(calls[..n], subject);
    forall i: nat ensures i in Accepted(calls, subject) <==> i in before || (i == n && n in Accepted(calls, subject)) {
      assert i < n ==> calls[..n][i] == calls[i];
      AcceptedIff(calls, subject, i);
      AcceptedIff(calls[..n], subject, i);
    }
    assert n !in before;
    assert Accepted(calls, subject) == before + if n in Accepted(calls, subject) then {n} else {};
  }

  /** Whatever the subjects append and in whatever order, every subject's history is intact and holds
      one frame per accepted call. */
  lemma {:induction false} EveryHistoryVerifies(calls: seq<Call>, subject: string)
    ensures Chained(History(Replay(calls), subject))
    ensures |History(Replay(calls), subject)| == |Accepted(calls, subject)|
  {
    if calls != [] {
      var n := |calls| - 1;
      var table, call := Replay(calls[..n]), calls[n];
      EveryHistoryVerifies(calls[..n], subject);
      AcceptedEnd(calls, subject);
      if Acceptable(call.request) {
        AppendKeepsVerdicts(table, call.subject, call.request, call.frameId, call.now, subject);
        AppendExtends(table, call.subject, call.request, call.frameId, call.now, subject);
      }
    }
  }

  /** The same frame, up to the frame id, which no hash covers. */
  predicate SameFrame(a: Row, b: Row) {
    a.columns == b.columns && a.lists == b.lists && a.stateHash == b.stateHash
  }

  predicate SameFrames(a: seq<Row>, b: seq<Row>) {
    |a| == |b| && forall i | 0 <= i < |a| :: SameFrame(a[i], b[i])
  }

  /** The newest hash determines the history: two intact histories that end in the same hash have the
      same length, and the same hash and the same payload at every sequence number. */
  lemma {:induction false} NewestHashDeterminesHistory(a: seq<Row>, b: seq<Row>)
    requires Chained(a) && Chained(b)
    requires PreviousHash(a) == PreviousHash(b)
    ensures SameFrames(a, b)
    decreases |a|
  {
    if a != [] && b != [] {
      var n := |a| - 1;
      SameHashSameFrame(a, b);
      ChainedPrefix(a, n);
      ChainedPrefix(b, n);
      NewestHashDeterminesHistory(a[..n], b[..n]);
      forall i | 0 <= i < n ensures SameFrame(a[i], b[i]) {
        assert SameFrame(a[..n][i], b[..n][i]);
      }
    }
  }

  lemma SameHashSameFrame(a: seq<Row>, b: seq<Row>)
    requires a != [] && b != [] && Chained(a) && Chained(b)
    requires PreviousHash(a) == PreviousHash(b)
    ensures |a| == |b|
    ensures SameFrame(a[|a| - 1], b[|b| - 1])
    ensures PreviousHash(a[..|a| - 1]) == PreviousHash(b[..|b| - 1])
  {
    assert Linked(a, |a| - 1) && Linked(b, |b| - 1);
  }

  lemma SameFramesChained(a: seq<Row>, b: seq<Row>)
    requires SameFrames(a, b) && Chained(a)
    ensures Chained(b)
  {
    forall i | 0 <= i < |b| ensures Linked(b, i) {
      assert Linked(a, i) && SameFrame(a[i], b[i]);
      if i > 0 {
        assert SameFrame(a[i - 1], b[i - 1]);
      }
    }
  }

  /** So an appended history can be changed without a new newest hash only in its frame ids: every other
      change, wherever it is made, is refused. */
  lemma RewrittenHistoryIsRefused(calls: seq<Call>, subject: string, table: seq<Row>)
    requires PreviousHash(History(table, subject)) == PreviousHash(History(Replay(calls), subject))
    ensures Chained(History(table, subject))
            <==> SameFrames(History(Replay(calls), subject), History(table, subject))
  {
    var original, now := History(Replay(calls), subject), History(table, subject);
    EveryHistoryVerifies(calls, subject);
    if Chained(now) {
      NewestHashDeterminesHistory(original, now);
    }
    if SameFrames(original, now) {
      SameFramesChained(original, now);
    }
  }

  // ---- What an appended row holds -----------------------------------------------------------------------

  /** The row holds the request, its lists without repetitions, and its hash covers all of that. */
  ghost predicate IsFrameOf(row: Row, subject: string, request: Request, frameId: string, now: string) {
    var columns := row.columns;
    && row.frameId == frameId && columns.subject == subject && columns.createdAt == now
    && columns.state == request.state && columns.workflow == request.workflow && columns.reason == request.reason
    && columns.attentionType == request.attentionType && columns.attentionId == request.attentionId
    && columns.pool == request.pool && columns.route == request.route && columns.wakeAt == request.wakeAt
    && row.lists.Some?
    && row.lists.value.internal == Dedup(request.lists.internal)
    && row.lists.value.world == Dedup(request.lists.world)
    && row.lists.value.tensions == Dedup(request.lists.tensions)
    && row.lists.value.candidates == Dedup(request.lists.candidates)
    && row.lists.value.wake == request.lists.wake
    && row.stateHash == HashOf(Payload(columns, row.lists.value))
  }

  /** The row has the number after the newest one of its subject and names its hash, or is the first. */
  ghost predicate Continues(table: seq<Row>, subject: string, row: Row) {
    if forall other | other in table :: other.columns.subject != subject
    then row.columns.sequence == 1 && row.columns.previous == None
    else exists newest :: IsNewest(table, subject, newest)
           && row.columns.sequence == newest.columns.sequence + 1 && row.columns.previous == Some(newest.stateHash)
  }

  lemma NewRowContinues(table: seq<Row>, subject: string, request: Request, frameId: string, now: string)
    ensures var row := NewRow(table, subject, request, frameId, now);
            IsFrameOf(row, subject, request, frameId, now) && Continues(table, subject, row)
  {
    LastIsNewest(table, subject);
    var history := History(table, subject);
    if history != [] {
      assert IsNewest(table, subject, history[|history| - 1]);
    }
  }

  lemma NewRowIsLast(table: seq<Row>, subject: string, request: Request, frameId: string, now: string)
    ensures var row := NewRow(table, subject, request, frameId, now);
            && History(table + [row], subject) == History(table, subject) + [row]
            && (Chained(History(table, subject)) ==> Intact(row))
  {
    AppendExtends(table, subject, request, frameId, now, subject);
    AppendKeepsVerdicts(table, subject, request, frameId, now, subject);
    var history := History(table + [NewRow(table, subject, request, frameId, now)], subject);
    if Chained(history) {
      assert Linked(history, |history| - 1);
    }
  }

  /** A request is accepted if workflow and reason are not blank and an attention id is given exactly when there is
      something to attend to. */
  lemma AcceptableIff(request: Request)
    ensures Acceptable(request) <==>
              && (exists i | 0 <= i < |request.workflow| :: !IsSpace(request.workflow[i]))
              && (exists i | 0 <= i < |request.reason| :: !IsSpace(request.reason[i]))
              && (request.attentionType == "none" <==> request.attentionId == None)
  {
  }

  // ---- The store ---------------------------------------------------------------------------------------

  class FrameStore {
    const subject: string
    var table: seq<Row>

    constructor (subject: string, table: seq<Row>)
      ensures this.subject == subject && this.table == table
    {
      this.subject, this.table := subject, table;
    }

    /** `latest`: the newest row, or `None`; a row whose hash does not cover it is an error. */
    method Latest() returns (r: Result<Option<Row>>)
      ensures var history := History(table, subject);
              match r
              case Success(None) => history == []
              case Success(Some(row)) =>
                && history != [] && row == history[|history| - 1] && Intact(row)
                && row.columns.sequence >= 1 && row.lists.Some?
                && row.stateHash == HashOf(Payload(row.columns, row.lists.value))
              case Failure(_) => history != [] && !Intact(history[|history| - 1])
    {
      var history := History(table, subject);
      if history == [] {
        return Success(None);
      }
      var row := history[|history| - 1];
      if row.columns.sequence < 1 {
        return Failure("consciousness frame sequence is invalid");
      }
      if row.lists.None? {
        return Failure("consciousness frame JSON is invalid");
      }
      if row.stateHash != HashOf(Payload(row.columns, row.lists.value)) {
        return Failure("consciousness frame hash mismatch");
      }
      return Success(Some(row));
    }

    /** The `INSERT` of `append`. */
    method Insert(request: Request, frameId: string, now: string)
      modifies this
      ensures table == old(table) + [NewRow(old(table), subject, request, frameId, now)]
      ensures IsFrameOf(table[|old(table)|], subject, request, frameId, now)
      ensures Continues(old(table), subject, table[|old(table)|])
      ensures History(table, subject) == History(old(table), subject) + [table[|old(table)|]]
      ensures Chained(History(old(table), subject)) ==> Intact(table[|old(table)|])
      ensures forall other :: Chained(History(table, other)) <==> Chained(History(old(table), other))
    {
      NewRowContinues(table, subject, request, frameId, now);
      NewRowIsLast(table, subject, request, frameId, now);
      forall other
        ensures Chained(History(table + [NewRow(table, subject, request, frameId, now)], other))
                <==> Chained(History(table, other))
      {
        AppendKeepsVerdicts(table, subject, request, frameId, now, other);
      }
      table := table + [NewRow(table, subject, request, frameId, now)];
    }

    /** `append`: a request that is refused changes nothing; any other adds exactly one row, which holds the
        request and continues the newest row, and every subject keeps the verdict it had. */
    method Append(request: Request, frameId: string, now: string) returns (r: Result<Option<Row>>)
      modifies this
      ensures table == Serve(old(table), Call(subject, request, frameId, now))
      ensures Acceptable(request) ==>
                && |table| == |old(table)| + 1 && table[..|old(table)|] == old(table)
                && IsFrameOf(table[|old(table)|], subject, request, frameId, now)
                && Continues(old(table), subject, table[|old(table)|])
      ensures !Acceptable(request) ==> table == old(table) && r.Failure?
      ensures forall other :: Chained(History(table, other)) <==> Chained(History(old(table), other))
      ensures Acceptable(request) ==>
                var row := table[|table| - 1];
                if Intact(row) then r == Success(Some(row)) else r.Failure?
      ensures Acceptable(request) && Chained(History(old(table), subject)) ==> r.Success?
    {
      if Blank(request.workflow) || Blank(request.reason) {
        return Failure("consciousness workflow and reason are required");
      }
      if (request.attentionType == "none") != request.attentionId.None? {
        return Failure("consciousness attention type and id disagree");
      }
      Insert(request, frameId, now);
      r := Latest();
    }

    /** `verify_integrity`: the running hash and the expected sequence number accept exactly the intact
        histories, and report their length. */
    method VerifyIntegrity() returns (r: Result<nat>)
      ensures r.Success? <==> Chained(History(table, subject))
      ensures r.Success? ==> r.value == |History(table, subject)|
    {
      var rows := History(table, subject);
      var previousHash: Option<Hash> := None;
      var i := 0;
      while i < |rows|
        invariant i <= |rows|
        invariant Chained(rows[..i])
        invariant previousHash == PreviousHash(rows[..i])
      {
        var row := rows[i];
        assert rows[..i + 1] == rows[..i] + [row];
        ChainedExtends(rows[..i], row);
        if row.columns.sequence < 1 || row.lists.None?
           || row.stateHash != HashOf(Payload(row.columns, row.lists.value)) {
          RefusedAt(rows, i);
          return Failure("consciousness frame is invalid");
        }
        if row.columns.sequence != i + 1 {
          RefusedAt(rows, i);
          return Failure("consciousness frame sequence is discontinuous");
        }
        if row.columns.previous != previousHash {
          RefusedAt(rows, i);
          return Failure("consciousness frame hash chain is discontinuous");
        }
        previousHash := Some(row.stateHash);
        i := i + 1;
      }
      assert rows[..i] == rows;
      return Success(|rows|);
    }
  }

  lemma RefusedAt(rows: seq<Row>, i: nat)
    requires i < |rows| && !Chained(rows[..i + 1])
    ensures !Chained(rows)
  {
    if Chained(rows) {
      ChainedPrefix(rows, i + 1);
    }
  }
}
