/** The checksum manifest of the public inventory (scripts/public-file-manifest.py): generating it, and
    checking a stored manifest entry by entry.

    A digest is the 64 hexadecimal characters of a blob's hash; the stored bytes are decoded text. */
module Manifest {
  import opened Wrappers
  import opened Text
  import opened PathTree

  const CHECKSUMS := "docs/release/public-files.sha256"

  type Digests = map<string, string>

  predicate IsHex(c: char) {
    '0' <= c <= '9' || 'a' <= c <= 'f'
  }

  predicate IsDigest(s: string) {
    |s| == 64 && forall i | 0 <= i < |s| :: IsHex(s[i])
  }

  // ---- Writing ---------------------------------------------------------------------------------------

  function Row(digest: string, path: string): string {
    digest + ("  " + path)
  }

  /** The files that have an entry: all but the manifest itself. */
  function Covered(paths: seq<string>): seq<string> {
    if paths == [] then []
    else
      var n := |paths| - 1;
      if paths[n] == CHECKSUMS then Covered(paths[..n]) else Covered(paths[..n]) + [paths[n]]
  }

  predicate Digested(paths: seq<string>, digests: Digests) {
    forall i | 0 <= i < |paths| :: paths[i] in digests && IsDigest(digests[paths[i]])
  }

  function Entries(items: seq<string>, digests: Digests): string
    requires Digested(items, digests)
  {
    if items == [] then ""
    else
      assert items[0] in digests;
      Row(digests[items[0]], items[0]) + ("\n" + Entries(items[1..], digests))
  }

  lemma {:induction false} CoveredPaths(paths: seq<string>) returns (at: seq<nat>)
    ensures |at| == |Covered(paths)|
    ensures forall i | 0 <= i < |at| :: at[i] < |paths| && Covered(paths)[i] == paths[at[i]] != CHECKSUMS
    ensures forall i, j | 0 <= i < j < |at| :: at[i] < at[j]
    ensures forall p :: p in Covered(paths) <==> p in paths && p != CHECKSUMS
  {
    if paths == [] {
      return [];
    }
    var n := |paths| - 1;
    at := CoveredPaths(paths[..n]);
    assert paths == paths[..n] + [paths[n]];
    if paths[n] != CHECKSUMS {
      at := at + [n];
    }
  }

  lemma CoveredDigested(paths: seq<string>, digests: Digests)
    requires Digested(paths, digests)
    ensures Digested(Covered(paths), digests)
  {
    var at := CoveredPaths(paths);
  }

  /** `Inventory.checksums`. */
  function Checksums(paths: seq<string>, digests: Digests): string
    requires Digested(paths, digests)
  {
    CoveredDigested(paths, digests);
    Entries(Covered(paths), digests)
  }

  // ---- Reading ---------------------------------------------------------------------------------------

  function Body(line: string): string {
    var n := |line|;
    if n > 1 && line[n - 2..] == "\r\n" then line[..n - 2]
    else if n > 0 && IsBreak(line[n - 1]) then line[..n - 1]
    else line
  }

  /** The bodies that are neither empty nor comments. */
  function Rows(lines: seq<string>): seq<string> {
    if lines == [] then []
    else
      var body := Body(lines[0]);
      if body == "" || body[0] == '#' then Rows(lines[1..]) else [body] + Rows(lines[1..])
  }

  predicate LineFormat(text: string) {
    '\r' !in text && (text == "" || (text[0] != '\U{FEFF}' && text[|text| - 1] == '\n'))
  }

  /** A row of 64 hexadecimal characters, two spaces and a path. */
  predicate IsRow(row: string) {
    |row| > 66 && IsDigest(row[..64]) && row[64..66] == "  "
  }

  lemma RowReadsBack(digest: string, path: string)
    requires IsDigest(digest) && path != ""
    ensures var row := Row(digest, path); IsRow(row) && row[..64] == digest && row[66..] == path
  {
  }

  // ---- A manifest reads back ---------------------------------------------------------------------------

  predicate Named(items: seq<string>) {
    forall i | 0 <= i < |items| :: items[i] != "" && Plain(items[i])
  }

  function RowsOf(items: seq<string>, digests: Digests): (rows: seq<string>)
    requires Digested(items, digests)
    ensures |rows| == |items|
    ensures forall i | 0 <= i < |items| :: rows[i] == Row(digests[items[i]], items[i])
  {
    seq(|items|, i requires 0 <= i < |items| => Row(digests[items[i]], items[i]))
  }

  lemma RowIsLine(digest: string, path: string)
    requires IsDigest(digest) && path != "" && Plain(path)
    ensures Plain(Row(digest, path)) && '\r' !in Row(digest, path)
    ensures Body(Row(digest, path) + "\n") == Row(digest, path)
  {
    var row := Row(digest, path);
    forall i | 0 <= i < |row| ensures !IsBreak(row[i]) {
      assert row[i] in digest || row[i] == ' ' || row[i] in path;
    }
    var line := row + "\n";
    assert line[|line| - 2] == row[|row| - 1];
  }

  lemma {:induction false} EntriesReadBack(items: seq<string>, digests: Digests)
    requires Digested(items, digests) && Named(items)
    ensures Rows(SplitKeep(Entries(items, digests))) == RowsOf(items, digests)
    ensures LineFormat(Entries(items, digests))
  {
    if items != [] {
      var item, rest := items[0], Entries(items[1..], digests);
      var row := Row(digests[item], item);
      RowIsLine(digests[item], item);
      SplitOfLine(row, rest);
      EntriesReadBack(items[1..], digests);
      assert SplitKeep(row + ("\n" + rest))[1..] == SplitKeep(rest);
      assert row[0] == digests[item][0];
      assert IsHex(row[0]);
      assert RowsOf(items, digests) == [row] + RowsOf(items[1..], digests);
    }
  }

  // ---- Checking ----------------------------------------------------------------------------------------

  /** What `inventory` has established about its paths before `check` runs. */
  ghost predicate Reviewed(paths: seq<string>, digests: Digests, fold: string -> string, portable: string -> bool) {
    OneTree(paths, fold, portable) && Named(paths) && Digested(paths, digests)
  }

  /** The entries of the first `n` rows, in their order. */
  ghost predicate Recorded(recorded: Digests, items: seq<string>, rows: seq<string>, n: nat) {
    && n == |items| <= |rows|
    && (forall p :: p in recorded <==> p in items)
    && (forall i | 0 <= i < n ::
          && IsRow(rows[i]) && rows[i][66..] == items[i]
          && items[i] in recorded && recorded[items[i]] == rows[i][..64])
  }

  /** The loop that fills the table of recorded digests. */
  method ReadEntries(rows: seq<string>) returns (r: Result<Digests>, items: seq<string>)
    ensures r.Success? ==> Recorded(r.value, items, rows, |rows|)
    ensures r.Failure? ==> Refusable(rows)
  {
    var recorded: Digests := map[];
    items := [];
    for n := 0 to |rows|
      invariant Recorded(recorded, items, rows, n)
    {
      var row := rows[n];
      if !IsRow(row) {
        return Failure("Invalid checksum entry"), items;
      }
      var digest, item := row[..64], row[66..];
      if item in recorded {
        var i :| 0 <= i < |items| && items[i] == item;
        assert rows[i][66..] == rows[n][66..];
        return Failure("Duplicate checksum entry"), items;
      }
      recorded, items := recorded[item := digest], items + [item];
    }
    return Success(recorded), items;
  }

  /** The rows of the generated manifest of a reviewed inventory are what the reader looks for. */
  lemma GeneratedIsReadable(paths: seq<string>, digests: Digests, fold: string -> string, portable: string -> bool)
    requires Reviewed(paths, digests, fold, portable)
    ensures Digested(Covered(paths), digests)
    ensures var text, items := Checksums(paths, digests), Covered(paths);
            && LineFormat(text) && Rows(SplitKeep(text)) == RowsOf(items, digests)
            && (forall i | 0 <= i < |items| :: IsRow(Row(digests[items[i]], items[i])))
            && (forall i, j | 0 <= i < j < |items| :: items[i] != items[j])
            && OneTree(items, fold, portable)
  {
    var items := Covered(paths);
    CoveredDigested(paths, digests);
    var at := CoveredPaths(paths);
    assert Named(items);
    EntriesReadBack(items, digests);
    forall i | 0 <= i < |items| ensures IsRow(Row(digests[items[i]], items[i])) {
      RowReadsBack(digests[items[i]], items[i]);
    }
    SublistIsOneTree(paths, items, at, fold, portable);
  }

  /** The table read from the generated manifest holds exactly the generated digests. */
  lemma RecordedIsGenerated(recorded: Digests, items: seq<string>, covered: seq<string>, digests: Digests)
    requires Digested(covered, digests) && Named(covered)
    requires Recorded(recorded, items, RowsOf(covered, digests), |covered|)
    ensures items == covered
    ensures forall p | p in items :: p in digests && recorded[p] == digests[p]
  {
    forall i | 0 <= i < |covered| ensures items[i] == covered[i] && recorded[items[i]] == digests[covered[i]] {
      RowReadsBack(digests[covered[i]], covered[i]);
    }
  }

  lemma GeneratedIsNotRefused(items: seq<string>, digests: Digests, rows: seq<string>)
    requires Digested(items, digests) && Named(items) && rows == RowsOf(items, digests)
    requires forall i, j | 0 <= i < j < |items| :: items[i] != items[j]
    ensures forall i | 0 <= i < |rows| :: IsRow(rows[i])
    ensures forall i, j | 0 <= i < j < |rows| :: rows[i][66..] != rows[j][66..]
  {
    forall i | 0 <= i < |rows| ensures IsRow(rows[i]) && rows[i][66..] == items[i] {
      RowReadsBack(digests[items[i]], items[i]);
    }
  }

  predicate Refusable(rows: seq<string>) {
    || (exists i | 0 <= i < |rows| :: !IsRow(rows[i]))
    || (exists i, j | 0 <= i < j < |rows| :: IsRow(rows[i]) && IsRow(rows[j]) && rows[i][66..] == rows[j][66..])
  }

  /** The table covers exactly the inventory and holds the digests of its blobs. */
  ghost predicate Matches(
    recorded: Digests, items: seq<string>, paths: seq<string>, digests: Digests,
    fold: string -> string, portable: string -> bool)
  {
    && OneTree(items, fold, portable)
    && (forall p :: p in recorded <==> p in paths && p != CHECKSUMS)
    && (forall p | p in recorded :: p in digests && recorded[p] == digests[p])
  }

  lemma GeneratedPasses(paths: seq<string>, digests: Digests, fold: string -> string, portable: string -> bool)
    requires Reviewed(paths, digests, fold, portable)
    ensures LineFormat(Checksums(paths, digests))
    ensures var rows := Rows(SplitKeep(Checksums(paths, digests)));
            && !Refusable(rows)
            && forall recorded, items | Recorded(recorded, items, rows, |rows|) ::
                 Matches(recorded, items, paths, digests, fold, portable)
  {
    var covered := Covered(paths);
    GeneratedIsReadable(paths, digests, fold, portable);
    var at := CoveredPaths(paths);
    assert Named(covered);
    var rows := RowsOf(covered, digests);
    GeneratedIsNotRefused(covered, digests, rows);
    forall recorded, items | Recorded(recorded, items, rows, |rows|)
      ensures Matches(recorded, items, paths, digests, fold, portable)
    {
      RecordedIsGenerated(recorded, items, covered, digests);
    }
  }

  /** The tests on the whole table. */
  method CheckTable(
    recorded: Digests, items: seq<string>, paths: seq<string>, digests: Digests,
    fold: string -> string, portable: string -> bool)
    returns (r: Result<()>)
    requires Digested(paths, digests)
    ensures r.Success? <==> Matches(recorded, items, paths, digests, fold, portable)
  {
    var tree := UniquePaths(items, fold, portable);
    if tree.Failure? {
      return Failure(tree.error);
    }
    var expected := (set p | p in paths) - {CHECKSUMS};
    if recorded.Keys != expected {
      assert exists p :: (p in recorded.Keys) != (p in expected);
      return Failure("Checksum coverage mismatch");
    }
    if p :| p in recorded.Keys && digests[p] != recorded[p] {
      return Failure("checksum mismatch(es)");
    }
    return Success(());
  }

  /** On a reviewed inventory, `check` accepts exactly the generated manifest: its entry-by-entry tests
      never refuse it. */
  method Check(text: string, paths: seq<string>, digests: Digests, fold: string -> string, portable: string -> bool)
    returns (r: Result<()>)
    requires Reviewed(paths, digests, fold, portable)
    ensures r.Success? <==> text == Checksums(paths, digests)
  {
    GeneratedPasses(paths, digests, fold, portable);
    if !LineFormat(text) {
      return Failure("must use LF, no BOM, and a final newline");
    }
    var recorded, items := ReadEntries(Rows(SplitKeep(text)));
    if recorded.Failure? {
      return Failure(recorded.error);
    }
    r := CheckTable(recorded.value, items, paths, digests, fold, portable);
    if r.Success? && text != Checksums(paths, digests) {
      return Failure("Checksum manifest is not in canonical generated form");
    }
  }
}
