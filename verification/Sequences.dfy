/** Removing repetitions from a list (`dict.fromkeys`). */
module Sequences {

  /** `list(dict.fromkeys(s))`: each element where it first occurs. */
  function Dedup<T(==)>(s: seq<T>): seq<T> {
    if s == [] then []
    else
      var rest := Dedup(s[..|s| - 1]);
      var x := s[|s| - 1];
      if x in rest then rest else rest + [x]
  }

  /** Where an element first occurs. */
  ghost predicate FirstAt<T(!new)>(s: seq<T>, x: T, i: nat) {
    i < |s| && s[i] == x && x !in s[..i]
  }

  /** The elements keep the order in which they first occur. */
  lemma {:induction false} DedupKeepsOrder<T(!new)>(s: seq<T>, i: nat, j: nat, a: nat, b: nat)
    requires i < j < |Dedup(s)| && FirstAt(s, Dedup(s)[i], a) && FirstAt(s, Dedup(s)[j], b)
    ensures a < b
  {
    var n := |s| - 1;
    var shorter := s[..n];
    DedupKeepsEachOnce(shorter);
    assert s == shorter + [s[n]];
    if j < |Dedup(shorter)| {
      FirstInShorter(s, Dedup(s)[i], a);
      FirstInShorter(s, Dedup(s)[j], b);
      DedupKeepsOrder(shorter, i, j, a, b);
    } else {
      FirstInShorter(s, Dedup(s)[i], a);
      assert Dedup(s)[j] == s[n] && s[n] !in shorter;
    }
  }

  lemma FirstInShorter<T(!new)>(s: seq<T>, x: T, i: nat)
    requires FirstAt(s, x, i) && x in s[..|s| - 1]
    ensures FirstAt(s[..|s| - 1], x, i)
  {
    var shorter := s[..|s| - 1];
    var k :| 0 <= k < |shorter| && shorter[k] == x;
    assert s[k] == x;
    assert forall m | 0 <= m < i :: s[m] == s[..i][m];
    assert shorter[..i] == s[..i];
  }

  /** Every element is kept once; nothing else is added. */
  lemma {:induction false} DedupKeepsEachOnce<T>(s: seq<T>)
    ensures forall x :: x in Dedup(s) <==> x in s
    ensures forall i, j :: 0 <= i < j < |Dedup(s)| ==> Dedup(s)[i] != Dedup(s)[j]
  {
    if s != [] {
      var n := |s| - 1;
      DedupKeepsEachOnce(s[..n]);
      assert s == s[..n] + [s[n]];
    }
  }
}
