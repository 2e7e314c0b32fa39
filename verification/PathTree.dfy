/** The path rules of a reviewed inventory (scripts/public-file-manifest.py): a sorted list of files that
    can be unpacked into one tree on a file system that ignores case.

    Case folding and the portability of a single path are parameters, so the result holds for any. */
module PathTree {
  import opened Wrappers
  import opened Text

  /** The directories above a file: the text before each slash. */
  function Directories(path: string): set<string> {
    set k | 0 <= k < |path| && path[k] == '/' :: path[..k]
  }

  predicate Portable(paths: seq<string>, portable: string -> bool) {
    forall i | 0 <= i < |paths| :: portable(paths[i])
  }

  /** No two files are the same up to case. */
  predicate FilesDiffer(paths: seq<string>, fold: string -> string) {
    forall i, j | 0 <= i < j < |paths| :: fold(paths[i]) != fold(paths[j])
  }

  predicate IsDirectory(paths: seq<string>, directory: string) {
    exists i | 0 <= i < |paths| :: directory in Directories(paths[i])
  }

  predicate IsFile(paths: seq<string>, fold: string -> string, key: string) {
    exists i | 0 <= i < |paths| :: fold(paths[i]) == key
  }

  /** No directory is a file up to case. */
  ghost predicate FilesAreNoDirectories(paths: seq<string>, fold: string -> string) {
    forall d | IsDirectory(paths, d) :: !IsFile(paths, fold, fold(d))
  }

  /** Directories that are the same up to case are the same. */
  ghost predicate DirectoriesAgree(paths: seq<string>, fold: string -> string) {
    forall d, e | IsDirectory(paths, d) && IsDirectory(paths, e) && fold(d) == fold(e) :: d == e
  }

  predicate Sorted(paths: seq<string>) {
    forall i, j | 0 <= i < j < |paths| :: !Less(paths[j], paths[i])
  }

  ghost predicate OneTree(paths: seq<string>, fold: string -> string, portable: string -> bool) {
    && Portable(paths, portable)
    && FilesDiffer(paths, fold)
    && FilesAreNoDirectories(paths, fold)
    && DirectoriesAgree(paths, fold)
    && Sorted(paths)
  }

  /** Leaving out files keeps the rules. */
  lemma SublistIsOneTree(
    paths: seq<string>, shorter: seq<string>, at: seq<nat>, fold: string -> string, portable: string -> bool)
    requires OneTree(paths, fold, portable) && |at| == |shorter|
    requires forall i | 0 <= i < |at| :: at[i] < |paths| && shorter[i] == paths[at[i]]
    requires forall i, j | 0 <= i < j < |at| :: at[i] < at[j]
    ensures OneTree(shorter, fold, portable)
  {
    forall d | IsDirectory(shorter, d) ensures IsDirectory(paths, d) {
      var i :| 0 <= i < |shorter| && d in Directories(shorter[i]);
      assert d in Directories(paths[at[i]]);
    }
    forall key | IsFile(shorter, fold, key) ensures IsFile(paths, fold, key) {
      var i :| 0 <= i < |shorter| && fold(shorter[i]) == key;
      assert fold(paths[at[i]]) == key;
    }
    forall i, j | 0 <= i < j < |shorter| ensures fold(shorter[i]) != fold(shorter[j]) && !Less(shorter[j], shorter[i]) {
      assert at[i] < at[j];
    }
  }

  // ---- The checks, as loops ---------------------------------------------------------------------------

  /** The first loop: the set of folded names. */
  method FoldNames(paths: seq<string>, fold: string -> string, portable: string -> bool)
    returns (r: Result<set<string>>)
    ensures r.Success? <==> Portable(paths, portable) && FilesDiffer(paths, fold)
    ensures r.Success? ==> forall key :: key in r.value <==> IsFile(paths, fold, key)
  {
    var seen: set<string> := {};
    for n := 0 to |paths|
      invariant Portable(paths[..n], portable) && FilesDiffer(paths[..n], fold)
      invariant forall key :: key in seen <==> IsFile(paths[..n], fold, key)
    {
      var item := paths[n];
      if !portable(item) {
        return Failure("Unsafe or nonportable inventory path");
      }
      if fold(item) in seen {
        var i :| 0 <= i < n && fold(paths[..n][i]) == fold(item);
        assert fold(paths[i]) == fold(paths[n]);
        return Failure("Duplicate or case-colliding path");
      }
      forall i | 0 <= i < n ensures fold(paths[i]) != fold(item) {
        assert fold(paths[..n][i]) == fold(paths[i]);
      }
      NamesGrow(paths, n, fold, seen);
      seen := seen + {fold(item)};
    }
    assert paths[..|paths|] == paths;
    return Success(seen);
  }

  lemma NamesGrow(paths: seq<string>, n: nat, fold: string -> string, seen: set<string>)
    requires n < |paths|
    requires forall key :: key in seen <==> IsFile(paths[..n], fold, key)
    ensures forall key :: key in seen + {fold(paths[n])} <==> IsFile(paths[..n + 1], fold, key)
  {
    var longer := paths[..n + 1];
    forall key ensures IsFile(longer, fold, key) <==> IsFile(paths[..n], fold, key) || key == fold(paths[n]) {
      if IsFile(paths[..n], fold, key) {
        var i :| 0 <= i < n && fold(paths[..n][i]) == key;
        assert fold(longer[i]) == key;
      }
      if key == fold(paths[n]) {
        assert fold(longer[n]) == key;
      }
      if IsFile(longer, fold, key) {
        var i :| 0 <= i < n + 1 && fold(longer[i]) == key;
        assert i < n ==> fold(paths[..n][i]) == key;
      }
    }
  }

  /** The directories met so far: none is a file, and `known` maps each folded name to the only one. */
  ghost predicate Consistent(known: map<string, string>, met: set<string>, fold: string -> string, seen: set<string>) {
    && (forall d | d in met :: fold(d) !in seen && fold(d) in known && known[fold(d)] == d)
    && (forall key | key in known :: known[key] in met && fold(known[key]) == key)
  }

  predicate Collides(known: map<string, string>, fold: string -> string, seen: set<string>, directory: string) {
    var key := fold(directory);
    key in seen || (key in known && known[key] != directory)
  }

  lemma ConsistentNext(
    known: map<string, string>, met: set<string>, fold: string -> string, seen: set<string>, directory: string)
    requires Consistent(known, met, fold, seen) && !Collides(known, fold, seen, directory)
    ensures Consistent(known[fold(directory) := directory], met + {directory}, fold, seen)
  {
  }

  /** Two directories at odds, or one that is a file, break the rules. */
  lemma CollisionBreaksRules(
    paths: seq<string>, known: map<string, string>, met: set<string>, fold: string -> string, seen: set<string>,
    directory: string)
    requires forall key :: key in seen <==> IsFile(paths, fold, key)
    requires Consistent(known, met, fold, seen) && Collides(known, fold, seen, directory)
    requires forall d | d in met :: IsDirectory(paths, d)
    requires IsDirectory(paths, directory)
    ensures !(FilesAreNoDirectories(paths, fold) && DirectoriesAgree(paths, fold))
  {
    var key := fold(directory);
    if key !in seen {
      assert IsDirectory(paths, known[key]) && fold(known[key]) == fold(directory);
    }
  }

  /** The directories among the first `k` characters. */
  function DirectoriesBefore(path: string, k: nat): set<string>
    requires k <= |path|
  {
    set j | 0 <= j < k && path[j] == '/' :: path[..j]
  }

  ghost predicate MetUpTo(met: set<string>, paths: seq<string>, n: nat) {
    n <= |paths| && forall d :: d in met <==> IsDirectory(paths[..n], d)
  }

  lemma MetNext(met: set<string>, paths: seq<string>, n: nat)
    requires n < |paths| && MetUpTo(met, paths, n)
    ensures MetUpTo(met + Directories(paths[n]), paths, n + 1)
  {
    var longer := paths[..n + 1];
    forall d ensures IsDirectory(longer, d) <==> IsDirectory(paths[..n], d) || d in Directories(paths[n]) {
      if IsDirectory(paths[..n], d) {
        var i :| 0 <= i < n && d in Directories(paths[..n][i]);
        assert d in Directories(longer[i]);
      }
      if d in Directories(paths[n]) {
        assert d in Directories(longer[n]);
      }
      if IsDirectory(longer, d) {
        var i :| 0 <= i < n + 1 && d in Directories(longer[i]);
        assert i < n ==> d in Directories(paths[..n][i]);
      }
    }
  }

  lemma MetAreDirectories(met: set<string>, paths: seq<string>, n: nat)
    requires MetUpTo(met, paths, n)
    ensures forall d | d in met :: IsDirectory(paths, d)
  {
    forall d | d in met ensures IsDirectory(paths, d) {
      var i :| 0 <= i < n && d in Directories(paths[..n][i]);
      assert d in Directories(paths[i]);
    }
  }

  /** The inner loop, over the directories of one file. */
  method AddDirectories(
    paths: seq<string>, n: nat, known: map<string, string>, ghost met: set<string>, fold: string -> string,
    seen: set<string>)
    returns (r: Result<map<string, string>>)
    requires n < |paths| && MetUpTo(met, paths, n)
    requires forall key :: key in seen <==> IsFile(paths, fold, key)
    requires Consistent(known, met, fold, seen)
    ensures r.Success? ==> Consistent(r.value, met + Directories(paths[n]), fold, seen)
    ensures r.Failure? ==> !(FilesAreNoDirectories(paths, fold) && DirectoriesAgree(paths, fold))
  {
    var item := paths[n];
    var directories := known;
    ghost var now := met;
    MetAreDirectories(met, paths, n);
    for k := 0 to |item|
      invariant Consistent(directories, now, fold, seen)
      invariant now == met + DirectoriesBefore(item, k)
    {
      BeforeNext(item, k);
      if item[k] == '/' {
        var directory := item[..k];
        if Collides(directories, fold, seen, directory) {
          BeforeAreDirectories(paths, n, k);
          CollisionBreaksRules(paths, directories, now, fold, seen, directory);
          return Failure("File/directory or directory-case collision");
        }
        ConsistentNext(directories, now, fold, seen, directory);
        directories, now := directories[fold(directory) := directory], now + {directory};
      }
    }
    return Success(directories);
  }

  lemma BeforeNext(path: string, k: nat)
    requires k < |path|
    ensures DirectoriesBefore(path, k + 1)
            == DirectoriesBefore(path, k) + if path[k] == '/' then {path[..k]} else {}
  {
  }

  lemma BeforeAreDirectories(paths: seq<string>, n: nat, k: nat)
    requires n < |paths| && k < |paths[n]| && paths[n][k] == '/'
    ensures forall d | d in DirectoriesBefore(paths[n], k) :: IsDirectory(paths, d)
    ensures IsDirectory(paths, paths[n][..k])
  {
    forall d | d in DirectoriesBefore(paths[n], k + 1) ensures IsDirectory(paths, d) {
      assert d in Directories(paths[n]);
    }
    BeforeNext(paths[n], k);
  }

  /** `unique_paths` accepts exactly the sorted lists that are one tree on a file system that ignores
      case. */
  method UniquePaths(paths: seq<string>, fold: string -> string, portable: string -> bool)
    returns (r: Result<seq<string>>)
    ensures r.Success? <==> OneTree(paths, fold, portable)
    ensures r.Success? ==> r.value == paths
  {
    var names := FoldNames(paths, fold, portable);
    if names.Failure? {
      return Failure(names.error);
    }
    var directories: map<string, string> := map[];
    ghost var met: set<string> := {};
    for n := 0 to |paths|
      invariant MetUpTo(met, paths, n)
      invariant Consistent(directories, met, fold, names.value)
    {
      var next := AddDirectories(paths, n, directories, met, fold, names.value);
      if next.Failure? {
        return Failure(next.error);
      }
      MetNext(met, paths, n);
      directories, met := next.value, met + Directories(paths[n]);
    }
    assert paths[..|paths|] == paths;
    ConsistentIsOneTree(paths, directories, met, fold, names.value);
    if !Sorted(paths) {
      return Failure("paths must be sorted");
    }
    return Success(paths);
  }

  lemma ConsistentIsOneTree(
    paths: seq<string>, known: map<string, string>, met: set<string>, fold: string -> string, seen: set<string>)
    requires forall key :: key in seen <==> IsFile(paths, fold, key)
    requires Consistent(known, met, fold, seen) && forall d :: d in met <==> IsDirectory(paths, d)
    ensures FilesAreNoDirectories(paths, fold) && DirectoriesAgree(paths, fold)
  {
    forall d | IsDirectory(paths, d) ensures !IsFile(paths, fold, fold(d)) {
      assert d in met;
    }
    forall d, e | IsDirectory(paths, d) && IsDirectory(paths, e) && fold(d) == fold(e) ensures d == e {
      assert d in met && e in met;
    }
  }
}
