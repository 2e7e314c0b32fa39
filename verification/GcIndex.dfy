/** The immutable ordinal index of a garbage-collection run and its hash chain
    (scripts/deployment-maintenance.py).

    `content_hash` is symbolic: a digest is the term that was hashed, so two digests
    are equal exactly when the hashed values are.  A stored digest that no hash
    produced is `Foreign`. */
module GcIndex {
  import opened Wrappers

  /** File names and file hashes; the model compares them and nothing else. */
  type Name = nat
  type Sha = nat

  datatype Action =
    | Release(name: Name, markerSha: Sha)
    | Backup(name: Name, size: int, sha: Sha)

  /** Text found in an index row or a manifest line: the encoding of an action, or anything else. */
  datatype Payload = Json(action: Action) | Junk(text: string)

  datatype Digest =
    | EndOfIndex
    | Link(ordinal: int, payload: Payload, following: Digest)
    | ManifestDigest(lines: seq<Payload>)
    | Foreign(text: string)

  datatype IndexRow = IndexRow(payload: Payload, following: Digest)

  /** The `actions` table of an index file; the ordinal is its primary key. */
  type IndexFile = map<int, IndexRow>

  datatype Entry = Entry(action: Action, following: Digest)

  const INTEGRITY := "backup_retention_manifest_integrity"
  const INVALID := "backup_retention_manifest_invalid"

  /** The chain value a cursor must hold when `next` actions are done. */
  function ChainFrom(actions: seq<Action>, next: nat): Digest
    requires next <= |actions|
    decreases |actions| - next
  {
    if next == |actions| then EndOfIndex
    else Link(next, Json(actions[next]), ChainFrom(actions, next + 1))
  }

  /** The table an undisturbed index file holds. */
  function IndexOf(actions: seq<Action>): IndexFile {
    map i | 0 <= i < |actions| :: IndexRow(Json(actions[i]), ChainFrom(actions, i + 1))
  }

  /** The actions a digest commits to, read off the hashed term itself. */
  function Listed(digest: Digest): seq<Action> {
    match digest
    case Link(_, Json(action), following) => [action] + Listed(following)
    case _ => []
  }

  /** A digest that is the head of the chain of its own action list. */
  predicate Anchored(root: Digest) {
    ChainFrom(Listed(root), 0) == root
  }

  /** Such a table has a row for each ordinal, holding its action.  Each row carries the hash of the row after it,
      that row's ordinal included, and the last one the end marker; the chain starts with the hash of the first. */
  lemma IndexIsLinked(actions: seq<Action>, i: int)
    ensures var file, root, n := IndexOf(actions), ChainFrom(actions, 0), |actions|;
            && (i in file <==> 0 <= i < n)
            && (0 <= i < n ==>
                  && file[i].payload == Json(actions[i])
                  && file[i].following == if i + 1 == n then EndOfIndex
                                          else Link(i + 1, file[i + 1].payload, file[i + 1].following))
            && root == if n == 0 then EndOfIndex else Link(0, file[0].payload, file[0].following)
  {
    if 0 <= i < |actions| - 1 {
      assert ChainFrom(actions, i + 1) == Link(i + 1, Json(actions[i + 1]), ChainFrom(actions, i + 2));
    }
  }

  lemma {:induction false} ListedOfChain(actions: seq<Action>, next: nat)
    requires next <= |actions|
    ensures Listed(ChainFrom(actions, next)) == actions[next..]
    decreases |actions| - next
  {
    if next < |actions| {
      ListedOfChain(actions, next + 1);
      assert actions[next..] == [actions[next]] + actions[next + 1..];
    }
  }

  /** A chain head commits to one list only: equal roots mean equal plans. */
  lemma RootDeterminesActions(a: seq<Action>, b: seq<Action>)
    requires ChainFrom(a, 0) == ChainFrom(b, 0)
    ensures a == b
  {
    ListedOfChain(a, 0);
    ListedOfChain(b, 0);
    assert a[0..] == a && b[0..] == b;
  }

  lemma ChainIsAnchored(actions: seq<Action>)
    ensures Listed(ChainFrom(actions, 0)) == actions
    ensures Anchored(ChainFrom(actions, 0))
  {
    ListedOfChain(actions, 0);
    assert actions[0..] == actions;
  }

  /** Rows `0..count` hold the actions, linked or not. */
  ghost predicate HoldsPayloads(file: IndexFile, actions: seq<Action>, count: nat)
    requires count <= |actions|
  {
    && (forall i :: i in file <==> 0 <= i < count)
    && (forall i {:trigger file[i]} | 0 <= i < count :: file[i].payload == Json(actions[i]))
  }

  /** Rows `from..` also carry the digest of the row after them. */
  ghost predicate HoldsLinks(file: IndexFile, actions: seq<Action>, from: nat)
    requires from <= |actions|
  {
    && HoldsPayloads(file, actions, |actions|)
    && (forall i | from <= i < |actions| :: file[i].following == ChainFrom(actions, i + 1))
  }

  /** `_write_gc_index`: rows are inserted with an empty link, then linked from the last
      row back to the first. */
  method WriteIndex(actions: seq<Action>) returns (file: IndexFile, root: Digest)
    ensures file == IndexOf(actions)
    ensures root == ChainFrom(actions, 0)
  {
    file := InsertRows(actions);
    file, root := LinkRows(actions, file);
  }

  method InsertRows(actions: seq<Action>) returns (file: IndexFile)
    ensures HoldsPayloads(file, actions, |actions|)
  {
    file := map[];
    for count := 0 to |actions|
      invariant HoldsPayloads(file, actions, count)
    {
      file := file[count := IndexRow(Json(actions[count]), Foreign(""))];
    }
  }

  lemma PayloadsStay(actions: seq<Action>, file: IndexFile, ordinal: nat, row: IndexRow)
    requires ordinal < |actions| && HoldsPayloads(file, actions, |actions|) && row.payload == Json(actions[ordinal])
    ensures HoldsPayloads(file[ordinal := row], actions, |actions|)
  {
  }

  lemma LinkStep(actions: seq<Action>, file: IndexFile, ordinal: nat, row: IndexRow)
    requires ordinal < |actions| && HoldsLinks(file, actions, ordinal + 1)
    requires row.payload == Json(actions[ordinal]) && row.following == ChainFrom(actions, ordinal + 1)
    ensures HoldsLinks(file[ordinal := row], actions, ordinal)
  {
    PayloadsStay(actions, file, ordinal, row);
  }

  method LinkRows(actions: seq<Action>, unlinked: IndexFile) returns (file: IndexFile, root: Digest)
    requires HoldsPayloads(unlinked, actions, |actions|)
    ensures HoldsLinks(file, actions, 0)
    ensures root == ChainFrom(actions, 0)
  {
    file, root := unlinked, EndOfIndex;
    for ordinal := |actions| downto 0
      invariant root == ChainFrom(actions, ordinal)
      invariant HoldsLinks(file, actions, ordinal)
    {
      assert file[ordinal].payload == Json(actions[ordinal]);
      var payload := file[ordinal].payload;
      LinkStep(actions, file, ordinal, IndexRow(payload, root));
      file := file[ordinal := IndexRow(payload, root)];
      root := Link(ordinal, payload, root);
    }
  }

  /** One row of the reader's loop: it must hash to the expected digest and hold an action. */
  function ReadRow(file: IndexFile, ordinal: int, expected: Digest): Result<Entry>
    requires ordinal in file
  {
    var row := file[ordinal];
    if Link(ordinal, row.payload, row.following) != expected then Failure(INTEGRITY)
    else if row.payload.Junk? then Failure(INVALID)
    else Success(Entry(row.payload.action, row.following))
  }

  /** The rows `start..end` walked as one chain from `expected`, if they are all there and linked. */
  function Walk(file: IndexFile, start: int, end: int, expected: Digest): Result<seq<Entry>>
    decreases end - start
  {
    if start >= end then Success([])
    else if start !in file then Failure(INTEGRITY)
    else
      match ReadRow(file, start, expected)
      case Failure(error) => Failure(error)
      case Success(entry) =>
        match Walk(file, start + 1, end, entry.following)
        case Failure(error) => Failure(error)
        case Success(rest) => Success([entry] + rest)
  }

  /** The digest left after `entries`. */
  function TailDigest(entries: seq<Entry>, expected: Digest): Digest {
    if entries == [] then expected else entries[|entries| - 1].following
  }

  /** A batch the reader may return: the whole range, linked, and closed by the end marker when it
      reaches the action count. */
  function Batch(file: IndexFile, start: int, end: int, expected: Digest, count: int): Option<seq<Entry>> {
    if end < start then None
    else
      match Walk(file, start, end, expected)
      case Failure(_) => None
      case Success(entries) =>
        if end == count && TailDigest(entries, expected) != EndOfIndex then None else Some(entries)
  }

  /** The row hashes, with its ordinal, to what the row before it carries, or to `expected` if it is the first. */
  predicate LinksAt(file: IndexFile, start: int, expected: Digest, i: int) {
    && i in file && (i == start || i - 1 in file)
    && Link(i, file[i].payload, file[i].following) == if i == start then expected else file[i - 1].following
  }

  /** It does, and holds an action. */
  predicate SoundAt(file: IndexFile, start: int, expected: Digest, i: int) {
    LinksAt(file, start, expected, i) && file[i].payload.Json?
  }

  /** Rows `start..end` are there, each hashes to what the row before it carries, and each holds an action. */
  predicate Chained(file: IndexFile, start: int, end: int, expected: Digest) {
    forall i | start <= i < end :: SoundAt(file, start, expected, i)
  }

  /** The first row that is not sound is linked and holds no action. */
  predicate JunkFirst(file: IndexFile, start: int, end: int, expected: Digest) {
    exists k | start <= k < end ::
      LinksAt(file, start, expected, k) && file[k].payload.Junk? && Chained(file, start, k, expected)
  }

  lemma SoundFrom(file: IndexFile, start: int, expected: Digest, i: int)
    requires start < i && start in file
    ensures LinksAt(file, start, expected, i) <==> LinksAt(file, start + 1, file[start].following, i)
    ensures SoundAt(file, start, expected, i) <==> SoundAt(file, start + 1, file[start].following, i)
  {
  }

  lemma ChainedFrom(file: IndexFile, start: int, end: int, expected: Digest)
    requires start < end && SoundAt(file, start, expected, start)
    ensures Chained(file, start, end, expected) <==> Chained(file, start + 1, end, file[start].following)
  {
    var next, following := start + 1, file[start].following;
    forall i | next <= i < end ensures SoundAt(file, start, expected, i) <==> SoundAt(file, next, following, i) {
      SoundFrom(file, start, expected, i);
    }
  }

  lemma JunkFirstFrom(file: IndexFile, start: int, end: int, expected: Digest)
    requires start < end && SoundAt(file, start, expected, start)
    ensures JunkFirst(file, start, end, expected) <==> JunkFirst(file, start + 1, end, file[start].following)
  {
    forall k | start < k < end
      ensures LinksAt(file, start, expected, k) <==> LinksAt(file, start + 1, file[start].following, k)
      ensures Chained(file, start, k, expected) <==> Chained(file, start + 1, k, file[start].following)
    {
      SoundFrom(file, start, expected, k);
      ChainedFrom(file, start, k, expected);
    }
  }

  /** The walk gets through exactly when the rows are chained, and otherwise the first unsound row decides what it
      complains about. */
  lemma {:induction false} WalkIff(file: IndexFile, start: int, end: int, expected: Digest)
    ensures Walk(file, start, end, expected).Success? <==> Chained(file, start, end, expected)
    ensures Walk(file, start, end, expected) == Failure(INVALID) <==> JunkFirst(file, start, end, expected)
    decreases end - start
  {
    if start < end {
      if SoundAt(file, start, expected, start) {
        ChainedFrom(file, start, end, expected);
        JunkFirstFrom(file, start, end, expected);
        WalkIff(file, start + 1, end, file[start].following);
      } else {
        assert Chained(file, start, start, expected);
        assert forall k | start < k :: Chained(file, start, k, expected) ==> SoundAt(file, start, expected, start);
      }
    }
  }

  /** The entry is what the row holds. */
  predicate HoldsEntry(file: IndexFile, i: int, entry: Entry) {
    i in file && file[i].payload.Json? && entry == Entry(file[i].payload.action, file[i].following)
  }

  lemma {:induction false} WalkYields(file: IndexFile, start: int, end: int, expected: Digest, i: nat)
    requires i < end - start && Walk(file, start, end, expected).Success?
    ensures |Walk(file, start, end, expected).value| == end - start
    ensures HoldsEntry(file, start + i, Walk(file, start, end, expected).value[i])
    decreases end - start
  {
    if start + 1 < end {
      WalkYields(file, start + 1, end, file[start].following, if i == 0 then 0 else i - 1);
    }
  }

  /** The last row of the range, or the digest it starts from, closes the chain. */
  predicate EndsChain(file: IndexFile, start: int, end: int, expected: Digest) {
    if start == end then expected == EndOfIndex
    else end - 1 in file && file[end - 1].following == EndOfIndex
  }

  /** The batch the reader may return, row by row. */
  lemma BatchIff(file: IndexFile, start: int, end: int, expected: Digest, count: int)
    ensures Batch(file, start, end, expected, count).Some? <==>
              && start <= end && Chained(file, start, end, expected)
              && (end == count ==> EndsChain(file, start, end, expected))
    ensures Batch(file, start, end, expected, count).Some? ==>
              var entries := Batch(file, start, end, expected, count).value;
              |entries| == end - start && forall i | 0 <= i < end - start :: HoldsEntry(file, start + i, entries[i])
  {
    WalkIff(file, start, end, expected);
    if start <= end && Walk(file, start, end, expected).Success? {
      var entries := Walk(file, start, end, expected).value;
      if start < end {
        WalkYields(file, start, end, expected, end - start - 1);
      }
      forall i | 0 <= i < end - start ensures HoldsEntry(file, start + i, entries[i]) {
        WalkYields(file, start, end, expected, i);
      }
    }
  }

  /** `_read_gc_index_batch`.  The file may hold anything; a batch comes back exactly when every row of it is
      present and linked, and the last one closes the chain if it is the last of all.  The only complaint other
      than lost integrity is about a row that is linked and holds no action. */
  method ReadBatch(file: IndexFile, start: int, end: int, expected: Digest, count: int)
    returns (result: Result<seq<Entry>>)
    ensures match result
            case Success(entries) => Batch(file, start, end, expected, count) == Some(entries)
            case Failure(_) => Batch(file, start, end, expected, count) == None
    ensures result.Success? <==>
              && start <= end && Chained(file, start, end, expected)
              && (end == count ==> EndsChain(file, start, end, expected))
    ensures result.Success? ==>
              && |result.value| == end - start
              && forall i | 0 <= i < end - start :: HoldsEntry(file, start + i, result.value[i])
    ensures result == Failure(INVALID) <==>
              (forall i | start <= i < end :: i in file) && JunkFirst(file, start, end, expected)
  {
    BatchIff(file, start, end, expected, count);
    if end < start {
      return Failure(INTEGRITY);
    }
    if exists i | start <= i < end :: i !in file {
      var gap :| start <= gap < end && gap !in file;
      MissingRow(file, start, end, expected, gap);
      return Failure(INTEGRITY);
    }
    WalkIff(file, start, end, expected);
    result := FollowLinks(file, start, end, expected);
    if result.Success? && end == count && TailDigest(result.value, expected) != EndOfIndex {
      return Failure(INTEGRITY);
    }
  }

  /** The loop over the selected rows, carrying the digest each row must have. */
  method FollowLinks(file: IndexFile, start: int, end: int, expected: Digest) returns (result: Result<seq<Entry>>)
    requires start <= end && forall i | start <= i < end :: i in file
    ensures result == Walk(file, start, end, expected)
  {
    var entries: seq<Entry> := [];
    var wanted, index := expected, start;
    assert forall rest: seq<Entry> :: [] + rest == rest;
    while index < end
      invariant start <= index <= end && |entries| == index - start
      invariant match Walk(file, index, end, wanted)
                case Failure(error) => Walk(file, start, end, expected) == Failure(error)
                case Success(rest) => Walk(file, start, end, expected) == Success(entries + rest)
    {
      var row := ReadRow(file, index, wanted);
      if row.Failure? {
        return Failure(row.error);
      }
      ghost var rest := Walk(file, index + 1, end, row.value.following);
      assert rest.Success? ==> entries + ([row.value] + rest.value) == entries + [row.value] + rest.value;
      entries := entries + [row.value];
      wanted := row.value.following;
      index := index + 1;
    }
    assert entries + [] == entries;
    return Success(entries);
  }

  lemma {:induction false} MissingRow(file: IndexFile, start: int, end: int, expected: Digest, gap: int)
    requires start <= gap < end && gap !in file
    ensures Walk(file, start, end, expected).Failure?
    decreases gap - start
  {
    if start < gap && start in file && ReadRow(file, start, expected).Success? {
      MissingRow(file, start + 1, end, ReadRow(file, start, expected).value.following, gap);
    }
  }

  /** The entries an undisturbed index yields for `start..end`. */
  function Slice(actions: seq<Action>, start: nat, end: nat): (entries: seq<Entry>)
    requires start <= end <= |actions|
    decreases end - start
    ensures |entries| == end - start
    ensures forall i | 0 <= i < |entries| :: entries[i] == Entry(actions[start + i], ChainFrom(actions, start + i + 1))
    ensures TailDigest(entries, ChainFrom(actions, start)) == ChainFrom(actions, end)
  {
    if start == end then []
    else [Entry(actions[start], ChainFrom(actions, start + 1))] + Slice(actions, start + 1, end)
  }

  /** Rows `start..end` of the file are the rows originally written. */
  ghost predicate Intact(actions: seq<Action>, file: IndexFile, start: nat, end: nat)
    requires start <= end <= |actions|
  {
    forall i | start <= i < end :: i in file && file[i] == IndexOf(actions)[i]
  }

  lemma {:induction false} WalkIsOriginal(actions: seq<Action>, file: IndexFile, start: nat, end: int)
    requires start <= |actions| && start <= end
    requires Walk(file, start, end, ChainFrom(actions, start)).Success?
    ensures end <= |actions|
    ensures Walk(file, start, end, ChainFrom(actions, start)) == Success(Slice(actions, start, end))
    ensures Intact(actions, file, start, end)
    decreases end - start
  {
    if start < end {
      WalkIsOriginal(actions, file, start + 1, end);
    }
  }

  /** Tamper evidence: whatever the file now holds, a batch accepted from a cursor that carries
      the chain value of `start` is the slice of actions originally written, and the digest it
      leaves is the chain value of `end`. */
  lemma AcceptedBatchIsOriginal(actions: seq<Action>, file: IndexFile, start: nat, end: int, count: int)
    requires start <= |actions|
    requires Batch(file, start, end, ChainFrom(actions, start), count).Some?
    ensures start <= end <= |actions|
    ensures Batch(file, start, end, ChainFrom(actions, start), count) == Some(Slice(actions, start, end))
    ensures Intact(actions, file, start, end)
  {
    WalkIsOriginal(actions, file, start, end);
  }

  /** An undisturbed batch is accepted, whatever the rest of the file holds. */
  lemma {:induction false} IntactBatchIsAccepted(actions: seq<Action>, file: IndexFile, start: nat, end: nat)
    requires start <= end <= |actions| && Intact(actions, file, start, end)
    ensures Walk(file, start, end, ChainFrom(actions, start)) == Success(Slice(actions, start, end))
    ensures Batch(file, start, end, ChainFrom(actions, start), |actions|) == Some(Slice(actions, start, end))
    decreases end - start
  {
    if start < end {
      IntactBatchIsAccepted(actions, file, start + 1, end);
    }
  }

  /** A batch as some invocation read it: the file it found and where the batch ended. */
  datatype Reading = Reading(file: IndexFile, end: int)

  /** The actions of consecutive batches, each read from the digest the one before it left and each
      from whatever the file then held; None once a batch is rejected. */
  function ReadAll(readings: seq<Reading>, start: int, expected: Digest, count: int): Option<seq<Action>> {
    if readings == [] then Some([])
    else
      match Batch(readings[0].file, start, readings[0].end, expected, count)
      case None => None
      case Some(entries) =>
        match ReadAll(readings[1..], readings[0].end, TailDigest(entries, expected), count)
        case None => None
        case Some(rest) => Some(ActionsOf(entries) + rest)
  }

  function ActionsOf(entries: seq<Entry>): seq<Action> {
    seq(|entries|, i requires 0 <= i < |entries| => entries[i].action)
  }

  function LastEnd(readings: seq<Reading>, start: int): int {
    if readings == [] then start else readings[|readings| - 1].end
  }

  lemma SliceActions(actions: seq<Action>, start: nat, end: nat)
    requires start <= end <= |actions|
    ensures ActionsOf(Slice(actions, start, end)) == actions[start..end]
  {
    var entries := Slice(actions, start, end);
    forall i | 0 <= i < end - start
      ensures ActionsOf(entries)[i] == actions[start..end][i]
    {
      assert entries[i].action == actions[start + i];
    }
  }

  lemma SlicesJoin(actions: seq<Action>, start: nat, middle: nat, end: nat)
    requires start <= middle <= end <= |actions|
    ensures actions[start..middle] + actions[middle..end] == actions[start..end]
  {
  }

  /** However the work is split into batches, and however the file changes between them, the
      batches put together are the planned list from the starting cursor on. */
  lemma {:induction false} BatchesReassemble(actions: seq<Action>, readings: seq<Reading>, start: nat, count: int)
    requires start <= |actions|
    requires ReadAll(readings, start, ChainFrom(actions, start), count).Some?
    ensures start <= LastEnd(readings, start) <= |actions|
    ensures ReadAll(readings, start, ChainFrom(actions, start), count)
            == Some(actions[start..LastEnd(readings, start)])
    decreases |readings|
  {
    if readings == [] {
      assert actions[start..start] == [];
    } else {
      var end, rest := readings[0].end, readings[1..];
      AcceptedBatchIsOriginal(actions, readings[0].file, start, end, count);
      SliceActions(actions, start, end);
      BatchesReassemble(actions, rest, end, count);
      SlicesJoin(actions, start, end, LastEnd(rest, end));
    }
  }
}
