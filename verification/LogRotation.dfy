/** The size-bounded snapshot log of the soak collector (scripts/noyra-soak-collector.py): one line is
    appended, and a file grown past its limit is rewritten with its newest lines.

    The file may hold anything before the call, also carriage returns and an unterminated last line. */
module LogRotation {
  import opened Wrappers
  import opened Bytes

  type Line = seq<byte>

  // ---- Lines ---------------------------------------------------------------------------------------

  predicate IsBreak(b: byte) {
    b == LF || b == CR
  }

  predicate Plain(s: Line) {
    forall i | 0 <= i < |s| :: !IsBreak(s[i])
  }

  predicate AllPlain(lines: seq<Line>) {
    forall i | 0 <= i < |lines| :: Plain(lines[i])
  }

  /** One more byte at the front of the first line. */
  function Prepend(b: byte, lines: seq<Line>): (r: seq<Line>)
    ensures |r| == if lines == [] then 1 else |lines|
  {
    if lines == [] then [[b]] else [[b] + lines[0]] + lines[1..]
  }

  /** `bytes.splitlines()`: a line feed, a carriage return, or both in this order end a line. */
  function SplitLines(s: seq<byte>): (lines: seq<Line>)
    ensures s == [] <==> lines == []
  {
    if s == [] then []
    else if s[0] == CR && |s| > 1 && s[1] == LF then SplitLines(s[1..])
    else if IsBreak(s[0]) then [[]] + SplitLines(s[1..])
    else Prepend(s[0], SplitLines(s[1..]))
  }

  function Unlines(lines: seq<Line>): seq<byte> {
    if lines == [] then [] else lines[0] + [LF] + Unlines(lines[1..])
  }

  lemma PrependKeepsPlain(b: byte, lines: seq<Line>)
    requires !IsBreak(b) && AllPlain(lines)
    ensures AllPlain(Prepend(b, lines))
  {
    if lines != [] {
      assert Plain(lines[0]);
    }
  }

  lemma {:induction false} SplitLinesArePlain(s: seq<byte>)
    ensures AllPlain(SplitLines(s))
  {
    if s != [] {
      SplitLinesArePlain(s[1..]);
      if !IsBreak(s[0]) {
        PrependKeepsPlain(s[0], SplitLines(s[1..]));
      }
    }
  }

  /** Text in front of a line end belongs to the line that ends there. */
  lemma {:induction false} SplitBefore(body: Line, rest: seq<byte>, more: seq<Line>)
    requires Plain(body) && rest != [] && SplitLines(rest) == [[]] + more
    ensures SplitLines(body + rest) == [body] + more
  {
    if body == [] {
      assert body + rest == rest;
    } else {
      assert (body + rest)[1..] == body[1..] + rest;
      SplitBefore(body[1..], rest, more);
      assert [body[0]] + body[1..] == body;
    }
  }

  lemma SplitOfLine(body: Line, rest: seq<byte>)
    requires Plain(body)
    ensures SplitLines(body + ([LF] + rest)) == [body] + SplitLines(rest)
  {
    assert ([LF] + rest)[1..] == rest;
    SplitBefore(body, [LF] + rest, SplitLines(rest));
  }

  lemma {:induction false} SplitOfPlain(body: Line)
    requires Plain(body) && body != []
    ensures SplitLines(body) == [body]
  {
    assert [body[0]] + body[1..] == body;
    if |body| > 1 {
      SplitOfPlain(body[1..]);
      assert [body[1..]][1..] == [];
    } else {
      assert body[1..] == [] && body == [body[0]];
      assert SplitLines(body) == Prepend(body[0], []);
    }
  }

  /** Where lines end: at a line feed, at a carriage return, and at both as one; and text without either is one line
      without an end. */
  lemma SplitAt(body: Line, rest: seq<byte>)
    requires Plain(body)
    ensures SplitLines(body + ([10] + rest)) == [body] + SplitLines(rest)
    ensures SplitLines(body + ([13, 10] + rest)) == [body] + SplitLines(rest)
    ensures rest == [] || rest[0] != 10 ==> SplitLines(body + ([13] + rest)) == [body] + SplitLines(rest)
    ensures body != [] ==> SplitLines(body) == [body]
  {
    SplitOfLine(body, rest);
    assert ([13, 10] + rest)[1..] == [10] + rest && ([10] + rest)[1..] == rest && ([13] + rest)[1..] == rest;
    SplitBefore(body, [13, 10] + rest, SplitLines(rest));
    if rest == [] || rest[0] != 10 {
      SplitBefore(body, [13] + rest, SplitLines(rest));
    }
    if body != [] {
      SplitOfPlain(body);
    }
  }

  /** Splitting undoes joining. */
  lemma {:induction false} SplitOfUnlines(lines: seq<Line>)
    requires AllPlain(lines)
    ensures SplitLines(Unlines(lines)) == lines
  {
    if lines != [] {
      SplitOfLine(lines[0], Unlines(lines[1..]));
      assert Unlines(lines) == lines[0] + ([LF] + Unlines(lines[1..]));
      SplitOfUnlines(lines[1..]);
    }
  }

  predicate Terminated(s: seq<byte>) {
    s == [] || IsBreak(s[|s| - 1])
  }

  lemma PrependBefore(b: byte, lines: seq<Line>, more: seq<Line>)
    requires lines != []
    ensures Prepend(b, lines + more) == Prepend(b, lines) + more
  {
    assert (lines + more)[1..] == lines[1..] + more;
  }

  /** A carriage return right before a line feed. */
  predicate Paired(b: byte, rest: seq<byte>) {
    b == CR && rest != [] && rest[0] == LF
  }

  lemma SplitFront(b: byte, rest: seq<byte>)
    ensures SplitLines([b] + rest)
            == if Paired(b, rest) then SplitLines(rest)
               else if IsBreak(b) then [[]] + SplitLines(rest)
               else Prepend(b, SplitLines(rest))
  {
    assert ([b] + rest)[1..] == rest;
  }

  lemma FrontOfAppended(b: byte, s: seq<byte>, more: seq<byte>)
    requires s != [] || (IsBreak(b) && !Paired(b, more))
    requires SplitLines(s + more) == SplitLines(s) + SplitLines(more)
    ensures SplitLines([b] + (s + more)) == SplitLines([b] + s) + SplitLines(more)
  {
    assert Paired(b, s + more) == Paired(b, s) by {
      assert s == [] ==> s + more == more;
    }
    SplitFront(b, s + more);
    SplitFront(b, s);
    if !IsBreak(b) {
      PrependBefore(b, SplitLines(s), SplitLines(more));
    } else {
      assert [[]] + (SplitLines(s) + SplitLines(more)) == [[]] + SplitLines(s) + SplitLines(more);
    }
  }

  /** What is appended to terminated text starts a line of its own. */
  lemma {:induction false} SplitOfAppended(s: seq<byte>, more: seq<byte>)
    requires Terminated(s) && more != [] && more[0] != LF
    ensures SplitLines(s + more) == SplitLines(s) + SplitLines(more)
  {
    if s == [] {
      assert s + more == more;
    } else {
      assert s == [s[0]] + s[1..] && s + more == [s[0]] + (s[1..] + more);
      SplitOfAppended(s[1..], more);
      FrontOfAppended(s[0], s[1..], more);
    }
  }

  // ---- Reading the file from the middle ------------------------------------------------------------

  /** Reading from any offset, the lines after the first are the newest lines of the whole text, and
      the first is a fragment of the line before them. */
  lemma {:induction false} TailLines(s: seq<byte>, start: nat) returns (k: nat)
    requires start < |s|
    ensures var whole, tail := SplitLines(s), SplitLines(s[start..]);
            && 1 <= k <= |whole|
            && tail[1..] == whole[k..]
            && |tail[0]| <= |whole[k - 1]|
  {
    if start == 0 {
      assert s[0..] == s;
      return 1;
    }
    assert s[start..] == s[1..][start - 1..];
    k := TailLines(s[1..], start - 1);
    if IsBreak(s[0]) && !(s[0] == CR && s[1] == LF) {
      return k + 1;
    }
  }

  predicate EndsLine(s: seq<byte>) {
    s != [] && s[|s| - 1] == LF
  }

  lemma {:induction false} LastLineFits(s: seq<byte>)
    requires EndsLine(s)
    ensures var lines := SplitLines(s); |lines[|lines| - 1]| + 1 <= |s|
  {
    if |s| > 1 {
      LastLineFits(s[1..]);
    }
  }

  lemma {:induction false} OnlyLineFillsText(s: seq<byte>)
    requires EndsLine(s) && (|s| > 1 ==> s[|s| - 2] != CR)
    requires |SplitLines(s)| == 1
    ensures |SplitLines(s)[0]| == |s| - 1
  {
    if |s| > 1 {
      OnlyLineFillsText(s[1..]);
    }
  }

  // ---- Choosing the lines to keep -------------------------------------------------------------------

  function Size(lines: seq<Line>): nat {
    |Unlines(lines)|
  }

  lemma SizeBefore(lines: seq<Line>, i: nat)
    requires i < |lines|
    ensures Size(lines[i..]) == |lines[i]| + 1 + Size(lines[i + 1..])
  {
    assert lines[i..][1..] == lines[i + 1..];
  }

  /** Going back from line `i`, the first line to keep: stop before the line that would exceed the
      target, but never before one line is kept. */
  function Cut(lines: seq<Line>, target: nat, i: nat): (c: nat)
    requires i <= |lines| && (i + 1 < |lines| ==> Size(lines[i..]) <= target)
    ensures c <= i && (lines != [] ==> c < |lines|)
    ensures c + 1 < |lines| ==> Size(lines[c..]) <= target
    ensures 0 < c ==> Size(lines[c - 1..]) > target
  {
    if i == 0 || (i < |lines| && Size(lines[i - 1..]) > target) then i else Cut(lines, target, i - 1)
  }

  /** The newest lines that fit the target. */
  function Kept(lines: seq<Line>, target: nat): seq<Line> {
    lines[Cut(lines, target, |lines|)..]
  }

  /** `b"\n".join(lines)`. */
  function Join(lines: seq<Line>): seq<byte> {
    if lines == [] then [] else if |lines| == 1 then lines[0] else lines[0] + [LF] + Join(lines[1..])
  }

  lemma {:induction false} JoinIsUnlines(lines: seq<Line>)
    requires lines != []
    ensures Join(lines) + [LF] == Unlines(lines)
  {
    if |lines| > 1 {
      JoinIsUnlines(lines[1..]);
      assert Join(lines) + [LF] == lines[0] + [LF] + (Join(lines[1..]) + [LF]);
    } else {
      assert lines[1..] == [];
    }
  }

  // ---- One append -----------------------------------------------------------------------------------

  function Start(content: seq<byte>, maxBytes: nat): nat {
    if |content| > maxBytes + 1 then |content| - maxBytes - 1 else 0
  }

  /** The whole lines found in the last `maxBytes + 1` bytes. */
  function Window(content: seq<byte>, maxBytes: nat): seq<Line>
    requires content != []
  {
    var start := Start(content, maxBytes);
    var lines := SplitLines(content[start..]);
    if start > 0 then lines[1..] else lines
  }

  function Rotated(content: seq<byte>, maxBytes: nat): seq<byte>
    requires content != []
  {
    Join(Kept(Window(content, maxBytes), maxBytes * 4 / 5)) + [LF]
  }

  function Appended(file: seq<byte>, body: Line, maxBytes: nat): seq<byte> {
    var content := file + (body + [LF]);
    if |content| <= maxBytes then content else Rotated(content, maxBytes)
  }

  /** At least one line from the end of `history`. */
  ghost predicate NewestOf(lines: seq<Line>, history: seq<Line>) {
    exists k :: 0 <= k < |history| && lines == history[k..]
  }

  lemma SuffixOfLonger<T>(all: seq<T>, k: nat, item: T, j: nat)
    requires k <= |all| && j <= |all| - k + 1
    ensures (all[k..] + [item])[j..] == (all + [item])[k + j..]
  {
    assert all[k..] + [item] == (all + [item])[k..];
  }

  lemma IsNewest(history: seq<Line>, k: nat)
    requires k < |history|
    ensures NewestOf(history[k..], history)
  {
  }

  lemma NewestOfLonger(lines: seq<Line>, shorter: seq<Line>, history: seq<Line>, body: Line)
    requires shorter == history || NewestOf(shorter, history)
    requires NewestOf(lines, shorter + [body])
    ensures NewestOf(lines, history + [body])
  {
    var j :| 0 <= j < |shorter + [body]| && lines == (shorter + [body])[j..];
    if shorter != history {
      var k :| 0 <= k < |history| && shorter == history[k..];
      SuffixOfLonger(history, k, body, j);
      IsNewest(history + [body], k + j);
    }
  }

  /** The file is within its limit and holds whole lines, the newest of `history` and nothing else. */
  ghost predicate Sound(file: seq<byte>, history: seq<Line>, maxBytes: nat) {
    && |file| <= maxBytes
    && EndsLine(file)
    && NewestOf(SplitLines(file), history)
  }

  lemma SoundHoldsLastLine(file: seq<byte>, history: seq<Line>, maxBytes: nat)
    requires Sound(file, history, maxBytes)
    ensures |history[|history| - 1]| + 1 <= maxBytes
  {
    LastLineFits(file);
    var k :| 0 <= k < |history| && SplitLines(file) == history[k..];
  }

  /** The window of a file whose last line fits ends in that line. */
  lemma WindowIsSuffix(content: seq<byte>, maxBytes: nat) returns (k: nat)
    requires |content| > maxBytes > 0 && EndsLine(content) && content[|content| - 2] != CR
    requires var history := SplitLines(content); |history[|history| - 1]| + 1 <= maxBytes
    ensures k < |SplitLines(content)| && Window(content, maxBytes) == SplitLines(content)[k..]
    ensures CR !in content && k > 0 ==> Size(SplitLines(content)[k - 1..]) > maxBytes
  {
    var start := Start(content, maxBytes);
    if start == 0 {
      assert content[0..] == content;
      return 0;
    }
    var tail := content[start..];
    k := TailLines(content, start);
    if k == |SplitLines(content)| {
      OnlyLineFillsText(tail);
      assert false;
    }
    if CR !in content {
      WindowIsFull(content, maxBytes, k);
    }
  }

  lemma RotationIsSound(content: seq<byte>, maxBytes: nat)
    requires |content| > maxBytes > 0 && EndsLine(content) && content[|content| - 2] != CR
    requires var history := SplitLines(content); |history[|history| - 1]| + 1 <= maxBytes
    ensures Sound(Rotated(content, maxBytes), SplitLines(content), maxBytes)
  {
    var history := SplitLines(content);
    var k := WindowIsSuffix(content, maxBytes);
    var window, target := Window(content, maxBytes), maxBytes * 4 / 5;
    var c := Cut(window, target, |window|);
    var kept := Kept(window, target);
    assert kept == history[k + c..];
    SplitLinesArePlain(content);
    JoinIsUnlines(kept);
    SplitOfUnlines(kept);
    if c + 1 == |window| {
      SizeBefore(history, |history| - 1);
      assert history[|history|..] == [];
    }
  }

  lemma ShortFileIsSound(content: seq<byte>, maxBytes: nat)
    requires |content| <= maxBytes && EndsLine(content)
    ensures Sound(content, SplitLines(content), maxBytes)
  {
    var history := SplitLines(content);
    assert history == history[0..];
  }

  /** Without carriage returns joining undoes splitting too. */
  lemma {:induction false} UnlinesOfSplit(s: seq<byte>)
    requires EndsLine(s) && CR !in s
    ensures Unlines(SplitLines(s)) == s
  {
    if |s| == 1 {
      var only: seq<Line> := [[]];
      assert s == [LF] && s[1..] == [] && only[1..] == [] && SplitLines(s) == only;
    } else {
      var lines := SplitLines(s[1..]);
      UnlinesOfSplit(s[1..]);
      UnlinesOfFront(s[0], lines);
      assert s == [s[0]] + s[1..];
    }
  }

  /** One more byte in front of the lines, or one more line. */
  lemma UnlinesOfFront(b: byte, lines: seq<Line>)
    requires lines != []
    ensures Unlines(Prepend(b, lines)) == [b] + Unlines(lines)
    ensures Unlines([[]] + lines) == [LF] + Unlines(lines)
  {
    assert Prepend(b, lines)[1..] == lines[1..] && ([[]] + lines)[1..] == lines;
    assert [b] + lines[0] + [LF] + Unlines(lines[1..]) == [b] + (lines[0] + [LF] + Unlines(lines[1..]));
  }

  /** The lines of a window and the one it cuts into are more than the limit. */
  lemma WindowIsFull(content: seq<byte>, maxBytes: nat, k: nat)
    requires |content| > maxBytes > 0 && EndsLine(content) && CR !in content && 0 < k <= |SplitLines(content)|
    requires Start(content, maxBytes) > 0
    requires var tail := SplitLines(content[Start(content, maxBytes)..]);
             tail[1..] == SplitLines(content)[k..] && |tail[0]| <= |SplitLines(content)[k - 1]|
    ensures Size(SplitLines(content)[k - 1..]) > maxBytes
  {
    var tail := content[Start(content, maxBytes)..];
    UnlinesOfSplit(tail);
    SizeBefore(SplitLines(content), k - 1);
  }

  /** What a rotation keeps, for text without carriage returns: the longest run of newest lines that fits four
      fifths of the limit, or the last line alone. */
  lemma RotationKeepsMost(content: seq<byte>, maxBytes: nat) returns (m: nat)
    requires |content| > maxBytes > 0 && EndsLine(content) && CR !in content
    requires var history := SplitLines(content); |history[|history| - 1]| + 1 <= maxBytes
    ensures var history := SplitLines(content);
            && m < |history| && Rotated(content, maxBytes) == Unlines(history[m..])
            && (m + 1 < |history| ==> 5 * Size(history[m..]) <= 4 * maxBytes)
            && (m > 0 ==> 5 * Size(history[m - 1..]) > 4 * maxBytes)
  {
    var history := SplitLines(content);
    var k := WindowIsSuffix(content, maxBytes);
    var window, target := Window(content, maxBytes), maxBytes * 4 / 5;
    var c := Cut(window, target, |window|);
    m := k + c;
    assert window[c..] == history[m..];
    JoinIsUnlines(history[m..]);
    if c > 0 {
      assert window[c - 1..] == history[m - 1..];
    }
  }

  /** After an append the file is within its limit and holds exactly the newest whole lines, the last
      one among them, if and only if that last line fits the limit by itself. */
  lemma AppendIsSoundIff(file: seq<byte>, body: Line, maxBytes: nat)
    requires body != [] && Plain(body) && |body| + 1 <= maxBytes
    ensures var history := SplitLines(file + (body + [LF]));
            Sound(Appended(file, body, maxBytes), history, maxBytes)
            <==> |history[|history| - 1]| + 1 <= maxBytes
  {
    var content := file + (body + [LF]);
    var history := SplitLines(content);
    assert content[|content| - 2] == body[|body| - 1];
    if Sound(Appended(file, body, maxBytes), history, maxBytes) {
      SoundHoldsLastLine(Appended(file, body, maxBytes), history, maxBytes);
    }
    if |history[|history| - 1]| + 1 <= maxBytes {
      if |content| > maxBytes {
        RotationIsSound(content, maxBytes);
      } else {
        ShortFileIsSound(content, maxBytes);
      }
    }
  }

  /** The last line is the appended one when the file ended in a line break. */
  lemma TerminatedGainsOneLine(file: seq<byte>, body: Line)
    requires Terminated(file) && body != [] && Plain(body)
    ensures SplitLines(file + (body + [LF])) == SplitLines(file) + [body]
  {
    SplitOfAppended(file, body + [LF]);
    SplitOfLine(body, []);
    assert body + ([LF] + []) == body + [LF];
  }

  /** Otherwise rotation can lose the new line: a file of one unterminated line is cut down to an empty
      line. */
  lemma UnterminatedFileLosesLine(file: seq<byte>, body: Line, maxBytes: nat)
    requires body != [] && Plain(body) && Plain(file) && |body| + 1 <= maxBytes < |file|
    ensures Appended(file, body, maxBytes) == [LF]
  {
    var content := file + (body + [LF]);
    SplitOfLine(file + body, []);
    assert file + body + ([LF] + []) == content;
    var k := TailLines(content, Start(content, maxBytes));
    assert Window(content, maxBytes) == [];
  }

  // ---- Runs ------------------------------------------------------------------------------------------

  /** The lines short enough to be accepted. */
  function Accepted(bodies: seq<Line>, maxBytes: nat): seq<Line> {
    if bodies == [] then []
    else
      var n := |bodies| - 1;
      var before := Accepted(bodies[..n], maxBytes);
      if |bodies[n]| + 1 <= maxBytes then before + [bodies[n]] else before
  }

  lemma {:induction false} AcceptedIff(bodies: seq<Line>, maxBytes: nat, line: Line)
    ensures line in Accepted(bodies, maxBytes) <==> line in bodies && |line| + 1 <= maxBytes
  {
    if bodies != [] {
      AcceptedIff(bodies[..|bodies| - 1], maxBytes, line);
    }
  }

  function Run(bodies: seq<Line>, maxBytes: nat): seq<byte> {
    if bodies == [] then []
    else
      var n := |bodies| - 1;
      var before := Run(bodies[..n], maxBytes);
      if |bodies[n]| + 1 <= maxBytes then Appended(before, bodies[n], maxBytes) else before
  }

  predicate Snapshots(bodies: seq<Line>) {
    forall i | 0 <= i < |bodies| :: bodies[i] != [] && Plain(bodies[i])
  }

  /** However many snapshots are appended to a new log, it never exceeds its limit and always holds
      exactly the newest of all accepted lines, the very last one included. */
  lemma {:induction false} LogHoldsNewestLines(bodies: seq<Line>, maxBytes: nat)
    requires Snapshots(bodies)
    ensures if Accepted(bodies, maxBytes) == [] then Run(bodies, maxBytes) == []
            else Sound(Run(bodies, maxBytes), Accepted(bodies, maxBytes), maxBytes)
  {
    if bodies != [] {
      var n := |bodies| - 1;
      var body := bodies[n];
      LogHoldsNewestLines(bodies[..n], maxBytes);
      if |body| + 1 <= maxBytes {
        StepHoldsNewestLines(Run(bodies[..n], maxBytes), Accepted(bodies[..n], maxBytes), body, maxBytes);
      }
    }
  }

  lemma StepHoldsNewestLines(file: seq<byte>, history: seq<Line>, body: Line, maxBytes: nat)
    requires body != [] && Plain(body) && |body| + 1 <= maxBytes
    requires if history == [] then file == [] else Sound(file, history, maxBytes)
    ensures Sound(Appended(file, body, maxBytes), history + [body], maxBytes)
  {
    TerminatedGainsOneLine(file, body);
    AppendIsSoundIff(file, body, maxBytes);
    NewestOfLonger(SplitLines(Appended(file, body, maxBytes)), SplitLines(file), history, body);
  }

  // ---- The log ---------------------------------------------------------------------------------------

  const MIN_LIMIT := 1_024
  const MAX_LIMIT := 100_000_000

  function Reversed(lines: seq<Line>): seq<Line> {
    if lines == [] then [] else Reversed(lines[1..]) + [lines[0]]
  }

  lemma {:induction false} ReversedEnd(lines: seq<Line>, line: Line)
    ensures Reversed(lines + [line]) == [line] + Reversed(lines)
  {
    if lines == [] {
      assert lines + [line] == [line];
    } else {
      assert (lines + [line])[1..] == lines[1..] + [line];
      ReversedEnd(lines[1..], line);
    }
  }

  class SnapshotLog {
    var file: seq<byte>

    constructor (file: seq<byte>)
      ensures this.file == file
    {
      this.file := file;
    }

    /** `append_snapshot` for the encoded snapshot `body`: a limit out of range or a line above it is
        refused and changes nothing. */
    method Append(body: Line, maxBytes: int) returns (r: Result<()>)
      modifies this
      ensures r.Success? <==> 1_024 <= maxBytes <= 100_000_000 && |body| + 1 <= maxBytes
      ensures file == if r.Success? then Appended(old(file), body, maxBytes) else old(file)
      ensures r.Success? && |old(file)| + |body| + 1 <= maxBytes ==> file == old(file) + body + [LF]
      ensures r.Success? && |old(file)| + |body| + 1 > maxBytes ==>
                file == Rotated(old(file) + (body + [LF]), maxBytes)
    {
      if !(MIN_LIMIT <= maxBytes <= MAX_LIMIT) {
        return Failure("invalid soak output");
      }
      var line := body + [LF];
      if |line| > maxBytes {
        return Failure("soak_snapshot_exceeds_max_bytes");
      }
      file := file + line;
      if |file| <= maxBytes {
        return Success(());
      }
      var start := if |file| - maxBytes - 1 > 0 then |file| - maxBytes - 1 else 0;
      var lines := SplitLines(file[start..]);
      if start > 0 {
        lines := lines[1..];
      }
      var kept := KeepNewest(lines, maxBytes * 4 / 5);
      file := Join(Reversed(kept)) + [LF];
      return Success(());
    }
  }

  lemma KeptOneMore(lines: seq<Line>, kept: seq<Line>, i: nat)
    requires i < |lines| && Reversed(kept) == lines[i + 1..]
    ensures Reversed(kept + [lines[i]]) == lines[i..]
  {
    ReversedEnd(kept, lines[i]);
    assert lines[i..] == [lines[i]] + lines[i + 1..];
  }

  /** `i` is a place the loop has come to: all lines from there on are kept so far. */
  ghost predicate KeptFrom(lines: seq<Line>, target: nat, kept: seq<Line>, size: nat, i: nat) {
    && i <= |lines|
    && (kept == [] <==> i == |lines|)
    && (i + 1 < |lines| ==> Size(lines[i..]) <= target)
    && Reversed(kept) == lines[i..]
    && size == Size(lines[i..])
    && Cut(lines, target, |lines|) == Cut(lines, target, i)
  }

  lemma CutGoesOn(lines: seq<Line>, target: nat, i: nat)
    requires 0 < i <= |lines| && (i + 1 < |lines| ==> Size(lines[i..]) <= target)
    requires i < |lines| ==> Size(lines[i - 1..]) <= target
    ensures Cut(lines, target, i) == Cut(lines, target, i - 1)
  {
  }

  lemma CutStops(lines: seq<Line>, target: nat, i: nat)
    requires 0 < i < |lines| && (i + 1 < |lines| ==> Size(lines[i..]) <= target)
    requires Size(lines[i - 1..]) > target
    ensures Cut(lines, target, i) == i
  {
  }

  lemma KeepOne(lines: seq<Line>, target: nat, kept: seq<Line>, size: nat, i: nat)
    requires KeptFrom(lines, target, kept, size, i) && i > 0
    ensures var required := |lines[i - 1]| + 1;
            if kept != [] && size + required > target then Reversed(kept) == Kept(lines, target)
            else KeptFrom(lines, target, kept + [lines[i - 1]], size + required, i - 1)
  {
    SizeBefore(lines, i - 1);
    if i < |lines| && Size(lines[i - 1..]) > target {
      CutStops(lines, target, i);
    } else {
      CutGoesOn(lines, target, i);
      KeptOneMore(lines, kept, i - 1);
    }
  }

  lemma KeptNone(lines: seq<Line>, target: nat)
    ensures KeptFrom(lines, target, [], 0, |lines|)
  {
    assert lines[|lines|..] == [];
  }

  lemma KeptAll(lines: seq<Line>, target: nat, kept: seq<Line>, size: nat)
    requires KeptFrom(lines, target, kept, size, 0)
    ensures Reversed(kept) == Kept(lines, target)
  {
    assert Cut(lines, target, 0) == 0;
  }

  /** The loop over the reversed lines collects the kept ones, newest first. */
  method KeepNewest(lines: seq<Line>, target: nat) returns (kept: seq<Line>)
    ensures Reversed(kept) == Kept(lines, target)
  {
    kept := [];
    var size: nat := 0;
    var i: nat := |lines|;
    KeptNone(lines, target);
    while i > 0
      invariant KeptFrom(lines, target, kept, size, i)
    {
      var item := lines[i - 1];
      var required := |item| + 1;
      KeepOne(lines, target, kept, size, i);
      if kept != [] && size + required > target {
        return;
      }
      kept := kept + [item];
      size := size + required;
      i := i - 1;
    }
    KeptAll(lines, target, kept, size);
  }
}
