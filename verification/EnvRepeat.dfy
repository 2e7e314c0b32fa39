/** Updating an environment file again (src/noyra/deployment_setup.py). */
module EnvRepeat {
  import opened Wrappers
  import opened Text
  import opened EnvText
  import opened EnvFile

  // ---- Lines that stay as they are -----------------------------------------------------------------------

  /** A written line is not changed by writing it again. */
  lemma UpdateIsStable(line: Line, u: Updates)
    ensures UpdateLine(UpdateLine(line, u), u) == UpdateLine(line, u)
    ensures Hits(line, u) ==> Hits(UpdateLine(line, u), u) && Target(UpdateLine(line, u).body) == Target(line.body)
  {
    if Hits(line, u) {
      var key := Target(line.body).value;
      IndentIsSpace(line.body);
      TargetIsProper(line.body);
      WrittenIsRead(line.body[..Indent(line.body)], key, ValueOf(u, key));
      assert UpdateLine(line, u).body[..Indent(line.body)] == line.body[..Indent(line.body)];
    }
  }

  /** No line would be changed. */
  predicate AllStable(lines: seq<Line>, u: Updates) {
    forall i | 0 <= i < |lines| :: UpdateLine(lines[i], u) == lines[i]
  }

  lemma UpdateLinesAreStable(lines: seq<Line>, u: Updates)
    ensures AllStable(UpdateLines(lines, u), u)
    ensures forall key | Finds(lines, u, key) :: Finds(UpdateLines(lines, u), u, key)
  {
    var updated := UpdateLines(lines, u);
    forall i | 0 <= i < |lines| ensures UpdateLine(updated[i], u) == updated[i] {
      UpdateIsStable(lines[i], u);
    }
    forall key | Finds(lines, u, key) ensures Finds(updated, u, key) {
      var i :| 0 <= i < |lines| && Hits(lines[i], u) && Target(lines[i].body) == Some(key);
      UpdateIsStable(lines[i], u);
      assert Hits(updated[i], u) && Target(updated[i].body) == Some(key);
    }
  }

  lemma ClosedAreStable(lines: seq<Line>, u: Updates, newline: string)
    requires AllStable(lines, u)
    ensures AllStable(Closed(lines, newline), u)
    ensures forall key | Finds(lines, u, key) :: Finds(Closed(lines, newline), u, key)
  {
    var closed := Closed(lines, newline);
    forall i | 0 <= i < |closed| ensures UpdateLine(closed[i], u) == closed[i] {
      assert UpdateLine(lines[i], u) == lines[i];
      assert closed[i] == lines[i].(ending := closed[i].ending);
    }
    forall key | Finds(lines, u, key) ensures Finds(closed, u, key) {
      var i :| 0 <= i < |lines| && Hits(lines[i], u) && Target(lines[i].body) == Some(key);
      assert Hits(closed[i], u) && Target(closed[i].body) == Some(key);
    }
  }

  lemma AddedIsStable(key: string, u: Updates, newline: string)
    requires key in u.values && IsProper(key)
    ensures var line := Line(key + ("=" + ValueOf(u, key)), newline);
            UpdateLine(line, u) == line && Hits(line, u) && Target(line.body) == Some(key)
  {
    var line := Line(key + ("=" + ValueOf(u, key)), newline);
    WrittenIsRead("", key, ValueOf(u, key));
    assert "" + line.body == line.body;
    assert line.body[..0] == "";
  }

  lemma AddedAreStable(keys: seq<string>, u: Updates, newline: string)
    requires Listed(keys, u) && forall i | 0 <= i < |keys| :: IsProper(keys[i])
    ensures AllStable(Added(keys, u, newline), u)
    ensures forall key | key in keys :: Finds(Added(keys, u, newline), u, key)
  {
    var lines := Added(keys, u, newline);
    forall i | 0 <= i < |keys|
      ensures UpdateLine(lines[i], u) == lines[i] && Hits(lines[i], u) && Target(lines[i].body) == Some(keys[i])
    {
      AddedIsStable(keys[i], u, newline);
    }
  }

  lemma BothAreStable(a: seq<Line>, b: seq<Line>, u: Updates)
    requires AllStable(a, u) && AllStable(b, u)
    ensures AllStable(a + b, u)
    ensures forall key | Finds(a, u, key) || Finds(b, u, key) :: Finds(a + b, u, key)
  {
    forall key | Finds(a, u, key) || Finds(b, u, key) ensures Finds(a + b, u, key) {
      if Finds(a, u, key) {
        var i :| 0 <= i < |a| && Hits(a[i], u) && Target(a[i].body) == Some(key);
        assert (a + b)[i] == a[i];
      } else {
        var i :| 0 <= i < |b| && Hits(b[i], u) && Target(b[i].body) == Some(key);
        assert (a + b)[|a| + i] == b[i];
      }
    }
  }

  lemma StableIsUnchanged(lines: seq<Line>, u: Updates, newline: string)
    requires AllStable(lines, u) && Missing(u.keys, Seen(lines, u)) == []
    ensures UpdatedLines(lines, u, newline) == lines
  {
    assert UpdateLines(lines, u) == lines;
  }

  // ---- Texts that stay as they are -----------------------------------------------------------------------

  /** How many unusual line breaks a text holds. */
  function Odds(s: string): nat {
    if s == "" then 0 else (if IsOdd(s[0]) then 1 else 0) + Odds(s[1..])
  }

  lemma {:induction false} OddsOfBoth(a: string, b: string)
    ensures Odds(a + b) == Odds(a) + Odds(b)
  {
    if a == "" {
      assert a + b == b;
    } else {
      assert (a + b)[1..] == a[1..] + b;
      OddsOfBoth(a[1..], b);
    }
  }

  lemma {:induction false} PlainHasNoOdds(s: string)
    requires Plain(s)
    ensures Odds(s) == 0
  {
    if s != "" {
      PlainHasNoOdds(s[1..]);
    }
  }

  lemma EndingHasNoOdds(ending: string)
    requires ending in {"\r\n", "\n", "\r", ""}
    ensures Odds(ending) == 0
  {
    if ending == "\r\n" {
      assert ending[1..] == "\n" && "\n"[1..] == "";
    } else if ending != "" {
      assert ending[1..] == "";
    }
  }

  lemma OddsOfLine(line: Line)
    requires IsLine(line)
    ensures Odds(TextOf(line)) == if OddEnded(line) then 1 else 0
  {
    OddsOfBoth(line.body, line.ending);
    EndingHasNoOdds(line.ending);
    if OddEnded(line) {
      var front, last := line.body[..|line.body| - 1], line.body[|line.body| - 1];
      assert line.body == front + [last];
      OddsOfBoth(front, [last]);
      PlainHasNoOdds(front);
      assert [last][1..] == "";
    } else {
      PlainHasNoOdds(line.body);
    }
  }

  /** The lines that end in one. */
  function OddLines(lines: seq<Line>): nat {
    if lines == [] then 0 else (if OddEnded(lines[0]) then 1 else 0) + OddLines(lines[1..])
  }

  lemma {:induction false} OddsOfJoin(lines: seq<Line>)
    requires forall i | 0 <= i < |lines| :: IsLine(lines[i])
    ensures Odds(Join(lines)) == OddLines(lines)
  {
    if lines != [] {
      assert lines == [lines[0]] + lines[1..];
      JoinFront(lines[0], lines[1..]);
      OddsOfBoth(TextOf(lines[0]), Join(lines[1..]));
      OddsOfLine(lines[0]);
      OddsOfJoin(lines[1..]);
    }
  }

  /** An updated line loses its unusual line break, and none is gained. */
  lemma OddsOfUpdated(line: Line, u: Updates)
    requires PlainUpdates(u) && IsLine(line)
    ensures OddEnded(UpdateLine(line, u)) ==> OddEnded(line)
    ensures OddEnded(UpdateLine(line, u)) == OddEnded(line) ==> Hits(line, u) ==> !OddEnded(line)
  {
    UpdateKeepsLine(line, u);
  }

  /** No updated line ends in an unusual line break. */
  predicate NoneLoses(lines: seq<Line>, u: Updates) {
    forall i | 0 <= i < |lines| :: Hits(lines[i], u) ==> !OddEnded(lines[i])
  }

  lemma NoneLosesFront(lines: seq<Line>, u: Updates)
    requires lines != [] && NoneLoses(lines[1..], u) && (Hits(lines[0], u) ==> !OddEnded(lines[0]))
    ensures NoneLoses(lines, u)
  {
    forall i | 0 <= i < |lines| ensures Hits(lines[i], u) ==> !OddEnded(lines[i]) {
      assert i > 0 ==> lines[i] == lines[1..][i - 1];
    }
  }

  lemma {:induction false} UpdateLosesOdds(lines: seq<Line>, u: Updates)
    requires PlainUpdates(u) && forall i | 0 <= i < |lines| :: IsLine(lines[i])
    ensures OddLines(UpdateLines(lines, u)) <= OddLines(lines)
    ensures OddLines(UpdateLines(lines, u)) == OddLines(lines) ==> NoneLoses(lines, u)
  {
    if lines != [] {
      var updated := UpdateLines(lines, u);
      assert updated[1..] == UpdateLines(lines[1..], u) && updated[0] == UpdateLine(lines[0], u);
      OddsOfUpdated(lines[0], u);
      UpdateLosesOdds(lines[1..], u);
      if OddLines(updated) == OddLines(lines) {
        NoneLosesFront(lines, u);
      }
    }
  }

  lemma {:induction false} UsualHasNoOddLines(lines: seq<Line>)
    requires forall i | 0 <= i < |lines| :: lines[i].ending != ""
    ensures OddLines(lines) == 0
  {
    if lines != [] {
      UsualHasNoOddLines(lines[1..]);
    }
  }

  lemma OddsOfAdded(lines: seq<Line>, u: Updates, newline: string)
    requires IsDict(u) && PlainUpdates(u) && (newline == "\n" || newline == "\r\n")
    ensures Listed(Missing(u.keys, Seen(lines, u)), u)
    ensures Odds(Join(Added(Missing(u.keys, Seen(lines, u)), u, newline))) == 0
  {
    AddedFromMissing(lines, u, newline);
    var added := Added(Missing(u.keys, Seen(lines, u)), u, newline);
    OddsOfJoin(added);
    UsualHasNoOddLines(added);
  }

  lemma OddsOfUpdate(text: string, u: Updates)
    requires IsDict(u) && PlainUpdates(u)
    ensures Odds(Update(text, u)) == OddLines(UpdateLines(Lines(text), u))
  {
    var lines, newline := Lines(text), NewLine(text);
    var updated, missing := UpdateLines(lines, u), Missing(u.keys, Seen(lines, u));
    SplitIsFormed(text);
    FormedAreLines(lines);
    UpdateKeepsLines(lines, u);
    OddsOfJoin(updated);
    if missing != [] {
      OddsOfAdded(lines, u, newline);
      JoinOfBoth(Closed(updated, newline), Added(missing, u, newline));
      JoinOfClosed(updated, newline);
      OddsOfBoth(Join(Closed(updated, newline)), Join(Added(missing, u, newline)));
      OddsOfBoth(Join(updated), Separator(Texts(updated), newline));
      EndingHasNoOdds(Separator(Texts(updated), newline));
    }
  }

  /** What is added after an unusual line break makes the text longer by a line more. */
  lemma BlankGrows(text: string, u: Updates)
    requires IsDict(u) && PlainUpdates(u) && NoneMerges(Lines(text), u)
    requires EndsOddly(Lines(text), u) && Missing(u.keys, Seen(Lines(text), u)) != []
    ensures |Lines(Update(text, u))| > |Lines(text)|
  {
    SplitIsFormed(text);
    BlankAppears(text, u);
    UpdateKeepsFormed(Lines(text), u);
    LinesOfJoin(UpdateLines(Lines(text), u));
  }

  /** A text that an update leaves alone has no unusual line break in the way. */
  lemma FixedIsHarmless(text: string, u: Updates)
    requires IsDict(u) && PlainUpdates(u) && Update(text, u) == text
    ensures Harmless(Lines(text), u)
  {
    var lines := Lines(text);
    SplitIsFormed(text);
    JoinOfLines(text);
    OddsOfJoin(lines);
    OddsOfUpdate(text, u);
    UpdateLosesOdds(lines, u);
    if EndsOddly(lines, u) && Missing(u.keys, Seen(lines, u)) != [] {
      BlankGrows(text, u);
    }
  }

  /** An update leaves a text alone exactly when no line would be changed and no variable is missing. */
  lemma FixedIff(text: string, u: Updates)
    requires IsDict(u) && PlainUpdates(u)
    ensures Update(text, u) == text
        <==> AllStable(Lines(text), u) && Missing(u.keys, Seen(Lines(text), u)) == []
  {
    var lines := Lines(text);
    if Update(text, u) == text {
      FixedIsHarmless(text, u);
      LinesOfUpdate(text, u);
      assert UpdatedLines(lines, u, NewLine(text)) == lines;
      assert UpdateLines(lines, u) == lines;
    } else if AllStable(lines, u) && Missing(u.keys, Seen(lines, u)) == [] {
      StableIsUnchanged(lines, u, NewLine(text));
      JoinOfLines(text);
    }
  }

  // ---- Lines that run into each other --------------------------------------------------------------------

  /** What joining makes of lines: one that nothing closes is put in front of the next. */
  function Merged(lines: seq<Line>): (r: seq<Line>)
    ensures lines != [] ==> r != []
  {
    if |lines| <= 1 then lines
    else if IsClosed(lines[0]) then [lines[0]] + Merged(lines[1..])
    else InFront(lines[0].body, Merged(lines[1..]))
  }

  lemma {:induction false} LinesOfMerge(lines: seq<Line>)
    requires AllLines(lines)
    ensures Lines(Join(lines)) == Merged(lines)
  {
    if |lines| == 1 {
      assert lines == [lines[0]];
      JoinOfOne(lines[0]);
      OneLine(lines[0]);
    } else if lines != [] {
      var line, rest := lines[0], lines[1..];
      AllLinesRest(lines);
      LinesOfMerge(rest);
      assert lines == [line] + rest;
      JoinFront(line, rest);
      if IsClosed(line) {
        ClosedInFront(line, rest);
      } else {
        OpenInFront(line, rest);
      }
    } else {
      SomeLine("");
    }
  }

  /** The first line starts as it did; a blank one is not merged. */
  lemma MergedFirst(lines: seq<Line>)
    requires lines != [] && IsLine(lines[0])
    ensures Merged(lines)[0].body == "" <==> lines[0].body == ""
    ensures lines[0].body == "" ==> Merged(lines)[0] == lines[0]
  {
  }

  /** Whatever nothing closes is followed by a blank line. */
  predicate OnlyBlanksFollow(lines: seq<Line>) {
    forall i | 0 <= i < |lines| - 1 :: !IsClosed(lines[i]) ==> lines[i + 1].body == ""
  }

  /** Only updated lines can be left open. */
  predicate OpenAreHits(lines: seq<Line>, u: Updates) {
    forall i | 0 <= i < |lines| - 1 :: !IsClosed(lines[i]) ==> Hits(lines[i], u)
  }

  lemma Grow(space: string, key: string, value: string, more: string)
    ensures space + (key + ("=" + value)) + more == space + (key + ("=" + (value + more)))
    ensures (space + (key + ("=" + (value + more))))[..|space|] == space
  {
    Regroup(space, key + ("=" + value), more);
    Regroup(key, "=" + value, more);
    Regroup("=", value, more);
  }

  /** A written line with anything after its value would be written again. */
  lemma GrownIsUnstable(line: Line, more: string, ending: string, u: Updates)
    requires Hits(line, u) && UpdateLine(line, u) == line && more != ""
    ensures UpdateLine(Line(line.body + more, ending), u) != Line(line.body + more, ending)
  {
    var key, space := Target(line.body).value, line.body[..Indent(line.body)];
    var value := ValueOf(u, key);
    IndentIsSpace(line.body);
    TargetIsProper(line.body);
    assert line.body == space + (key + ("=" + value));
    Grow(space, key, value, more);
    WrittenIsRead(space, key, value + more);
    Rewritten(Line(line.body + more, ending), space, key, u);
  }

  lemma Rewritten(line: Line, space: string, key: string, u: Updates)
    requires Target(line.body) == Some(key) && key in u.values
    requires Indent(line.body) == |space| && line.body[..|space|] == space
    ensures UpdateLine(line, u).body == space + (key + ("=" + ValueOf(u, key)))
  {
  }

  lemma StableFront(line: Line, lines: seq<Line>, u: Updates)
    ensures AllStable([line] + lines, u) <==> UpdateLine(line, u) == line && AllStable(lines, u)
  {
    var all := [line] + lines;
    if AllStable(all, u) {
      assert all[0] == line;
      forall i | 0 <= i < |lines| ensures UpdateLine(lines[i], u) == lines[i] {
        assert all[i + 1] == lines[i];
      }
    }
    if UpdateLine(line, u) == line && AllStable(lines, u) {
      forall i | 0 <= i < |all| ensures UpdateLine(all[i], u) == all[i] {
        assert i > 0 ==> all[i] == lines[i - 1];
      }
    }
  }

  lemma UnhitIsStable(line: Line, u: Updates)
    requires !Hits(line, u)
    ensures UpdateLine(line, u) == line
  {
  }

  lemma SameBodyIsStable(line: Line, other: Line, u: Updates)
    requires UpdateLine(line, u) == line && other.body == line.body
    ensures UpdateLine(other, u) == other
  {
  }

  lemma BlankFrontIsStable(line: Line, blank: Line, u: Updates)
    requires UpdateLine(line, u) == line && blank.body == ""
    ensures var first := Line(line.body + blank.body, blank.ending);
            UpdateLine(first, u) == first && UpdateLine(blank, u) == blank
  {
    var first := Line(line.body + blank.body, blank.ending);
    assert first.body == line.body;
    SameBodyIsStable(line, first, u);
    BlankHasNoTarget();
    UnhitIsStable(blank, u);
  }

  lemma StableBefore(first: Line, blank: Line, rest: seq<Line>, u: Updates)
    requires UpdateLine(first, u) == first && UpdateLine(blank, u) == blank
    ensures AllStable([first] + rest, u) <==> AllStable([blank] + rest, u)
  {
    StableFront(first, rest, u);
    StableFront(blank, rest, u);
  }

  lemma UnstableBefore(first: Line, rest: seq<Line>, u: Updates)
    requires UpdateLine(first, u) != first
    ensures !AllStable([first] + rest, u)
  {
    StableFront(first, rest, u);
  }

  lemma FrontIs(body: string, lines: seq<Line>)
    requires lines != []
    ensures InFront(body, lines) == [Line(body + lines[0].body, lines[0].ending)] + lines[1..]
    ensures lines == [lines[0]] + lines[1..]
  {
  }

  lemma BlankFront(line: Line, lines: seq<Line>, u: Updates)
    requires lines != [] && UpdateLine(line, u) == line && lines[0].body == ""
    ensures AllStable(InFront(line.body, lines), u) <==> AllStable(lines, u)
  {
    FrontIs(line.body, lines);
    BlankFrontIsStable(line, lines[0], u);
    StableBefore(Line(line.body + lines[0].body, lines[0].ending), lines[0], lines[1..], u);
  }

  lemma GrownFront(line: Line, lines: seq<Line>, u: Updates)
    requires lines != [] && Hits(line, u) && UpdateLine(line, u) == line && lines[0].body != ""
    ensures !AllStable(InFront(line.body, lines), u)
  {
    FrontIs(line.body, lines);
    GrownIsUnstable(line, lines[0].body, lines[0].ending, u);
    UnstableBefore(Line(line.body + lines[0].body, lines[0].ending), lines[1..], u);
  }

  lemma FrontIsStable(line: Line, lines: seq<Line>, u: Updates)
    requires lines != [] && Hits(line, u) && UpdateLine(line, u) == line
    ensures AllStable(InFront(line.body, lines), u) <==> lines[0].body == "" && AllStable(lines, u)
  {
    if lines[0].body == "" {
      BlankFront(line, lines, u);
    } else {
      GrownFront(line, lines, u);
    }
  }

  lemma BlankHasNoTarget()
    ensures Target("").None?
  {
  }

  lemma {:induction false} MergedIsStable(lines: seq<Line>, u: Updates)
    requires AllLines(lines) && AllStable(lines, u) && OpenAreHits(lines, u)
    ensures AllStable(Merged(lines), u) <==> OnlyBlanksFollow(lines)
  {
    if |lines| > 1 {
      var line, rest := lines[0], lines[1..];
      AllLinesRest(lines);
      RestIsStable(lines, u);
      MergedIsStable(rest, u);
      BlanksFollowRest(lines);
      if IsClosed(line) {
        StableFront(line, Merged(rest), u);
      } else {
        MergedFirst(rest);
        FrontIsStable(line, Merged(rest), u);
      }
    }
  }

  lemma RestIsStable(lines: seq<Line>, u: Updates)
    requires lines != [] && AllStable(lines, u) && OpenAreHits(lines, u)
    ensures AllStable(lines[1..], u) && OpenAreHits(lines[1..], u)
  {
  }

  lemma BlanksFollowRest(lines: seq<Line>)
    requires |lines| > 1
    ensures OnlyBlanksFollow(lines)
        <==> OnlyBlanksFollow(lines[1..]) && (!IsClosed(lines[0]) ==> lines[1].body == "")
  {
    var rest := lines[1..];
    if OnlyBlanksFollow(rest) && (!IsClosed(lines[0]) ==> lines[1].body == "") {
      forall i | 0 <= i < |lines| - 1 ensures !IsClosed(lines[i]) ==> lines[i + 1].body == "" {
        assert i > 0 ==> lines[i] == rest[i - 1] && lines[i + 1] == rest[i];
      }
    }
    if OnlyBlanksFollow(lines) {
      forall i | 0 <= i < |rest| - 1 ensures !IsClosed(rest[i]) ==> rest[i + 1].body == "" {
        assert rest[i] == lines[i + 1] && rest[i + 1] == lines[i + 2];
      }
    }
  }

  /** The variable one line assigns. */
  function SeenOn(line: Line, u: Updates): set<string> {
    if Hits(line, u) then {Target(line.body).value} else {}
  }

  lemma {:induction false} SeenFront(line: Line, lines: seq<Line>, u: Updates)
    ensures Seen([line] + lines, u) == SeenOn(line, u) + Seen(lines, u)
  {
    var all := [line] + lines;
    if lines == [] {
      assert all[..0] == [] && Seen(all[..0], u) == {};
    } else {
      var n := |lines| - 1;
      assert all[..n + 1] == [line] + lines[..n] && all[n + 1] == lines[n];
      SeenFront(line, lines[..n], u);
    }
  }

  /** Merging with blank lines hides no variable. */
  lemma {:induction false} MergedShows(lines: seq<Line>, u: Updates)
    requires AllLines(lines) && OnlyBlanksFollow(lines)
    ensures Seen(lines, u) <= Seen(Merged(lines), u)
  {
    if |lines| > 1 {
      var line, rest := lines[0], lines[1..];
      var merged := Merged(rest);
      AllLinesRest(lines);
      BlanksFollowRest(lines);
      MergedShows(rest, u);
      assert lines == [line] + rest;
      SeenFront(line, rest, u);
      if IsClosed(line) {
        SeenFront(line, merged, u);
      } else {
        MergedFirst(rest);
        FrontShows(line, merged, u);
      }
    }
  }

  lemma FrontShows(line: Line, lines: seq<Line>, u: Updates)
    requires lines != [] && lines[0].body == ""
    ensures Seen(InFront(line.body, lines), u) == SeenOn(line, u) + Seen(lines, u)
  {
    var first := Line(line.body + lines[0].body, lines[0].ending);
    assert first.body == line.body && lines == [lines[0]] + lines[1..];
    SeenFront(first, lines[1..], u);
    SeenFront(lines[0], lines[1..], u);
    BlankHasNoTarget();
  }

  // ---- The pieces of an updated text ---------------------------------------------------------------------

  /** The updated lines, with the blank one that what is added after an unusual line break leaves. */
  function Pieces(lines: seq<Line>, u: Updates, newline: string): seq<Line>
    requires Listed(Missing(u.keys, Seen(lines, u)), u)
  {
    var updated, missing := UpdateLines(lines, u), Missing(u.keys, Seen(lines, u));
    if missing == [] then updated
    else if EndsOddly(lines, u) then updated + ([Line("", newline)] + Added(missing, u, newline))
    else Closed(updated, newline) + Added(missing, u, newline)
  }

  lemma UpdateIsPieces(text: string, u: Updates)
    requires IsDict(u) && PlainUpdates(u)
    ensures Listed(Missing(u.keys, Seen(Lines(text), u)), u)
    ensures AllLines(Pieces(Lines(text), u, NewLine(text)))
    ensures Update(text, u) == Join(Pieces(Lines(text), u, NewLine(text)))
  {
    var lines, newline := Lines(text), NewLine(text);
    var updated, missing := UpdateLines(lines, u), Missing(u.keys, Seen(lines, u));
    SplitIsFormed(text);
    FormedAreLines(lines);
    AddedFromMissing(lines, u, newline);
    if missing == [] || !EndsOddly(lines, u) {
      UpdatedAreLines(lines, u, newline);
    } else {
      var added := Added(missing, u, newline);
      UpdateKeepsLines(lines, u);
      CanCloseUpdated(lines, u);
      BlankIsFormed(added, newline);
      FormedAreLines([Line("", newline)] + added);
      LinesJoin(updated, [Line("", newline)] + added);
      JoinAfterOdd(updated, added, newline);
      JoinOfBoth(updated, [Line("", newline)] + added);
    }
  }

  /** Every line is settled, and the keys in question are on some of them. */
  ghost predicate Settled(lines: seq<Line>, u: Updates, keys: set<string>) {
    AllStable(lines, u) && forall key | key in keys :: Finds(lines, u, key)
  }

  lemma BothAreSettled(a: seq<Line>, b: seq<Line>, u: Updates, some: set<string>, others: set<string>)
    requires Settled(a, u, some) && Settled(b, u, others)
    ensures Settled(a + b, u, some + others)
  {
    BothAreStable(a, b, u);
  }

  lemma UpdatedAreSettled(lines: seq<Line>, u: Updates, newline: string)
    ensures Settled(UpdateLines(lines, u), u, Seen(lines, u))
    ensures Settled(Closed(UpdateLines(lines, u), newline), u, Seen(lines, u))
  {
    UpdateLinesAreStable(lines, u);
    ClosedAreStable(UpdateLines(lines, u), u, newline);
    forall key | key in Seen(lines, u) ensures Finds(lines, u, key) {
      FindsIsSeen(lines, u, key);
    }
  }

  lemma AddedAreSettled(keys: seq<string>, u: Updates, newline: string)
    requires Listed(keys, u) && forall i | 0 <= i < |keys| :: IsProper(keys[i])
    ensures Settled(Added(keys, u, newline), u, set key | key in keys)
    ensures Settled([Line("", newline)] + Added(keys, u, newline), u, set key | key in keys)
  {
    var added := Added(keys, u, newline);
    AddedAreStable(keys, u, newline);
    BlankHasNoTarget();
    UnhitIsStable(Line("", newline), u);
    StableFront(Line("", newline), added, u);
    SeenFront(Line("", newline), added, u);
    forall key | key in keys ensures Finds([Line("", newline)] + added, u, key) {
      FindsIsSeen(added, u, key);
      FindsIsSeen([Line("", newline)] + added, u, key);
    }
  }

  /** Every piece is settled, and every requested variable is on one of them. */
  lemma PiecesAreStable(lines: seq<Line>, u: Updates, newline: string)
    requires IsDict(u) && ProperUpdates(u) && Listed(Missing(u.keys, Seen(lines, u)), u)
    ensures AllStable(Pieces(lines, u, newline), u)
    ensures forall key | key in u.keys && IsNoyra(key) :: Finds(Pieces(lines, u, newline), u, key)
  {
    var updated, missing := UpdateLines(lines, u), Missing(u.keys, Seen(lines, u));
    var added, news := Added(missing, u, newline), set key | key in missing;
    MissingKeys(u.keys, Seen(lines, u));
    UpdatedAreSettled(lines, u, newline);
    MissingAreProper(u, Seen(lines, u));
    AddedAreSettled(missing, u, newline);
    BothAreSettled(Closed(updated, newline), added, u, Seen(lines, u), news);
    BothAreSettled(updated, [Line("", newline)] + added, u, Seen(lines, u), news);
    assert Settled(Pieces(lines, u, newline), u, Seen(lines, u) + news);
  }

  /** Where an updated line loses its unusual line break, a blank line follows. */
  predicate MergesBlanks(lines: seq<Line>, u: Updates) {
    forall i | 0 <= i < |lines| - 1 :: Hits(lines[i], u) && OddEnded(lines[i]) ==> lines[i + 1].body == ""
  }

  lemma PieceAt(lines: seq<Line>, u: Updates, newline: string, i: nat)
    requires Formed(lines) && PlainUpdates(u) && Listed(Missing(u.keys, Seen(lines, u)), u)
    requires i < |lines|
    ensures var pieces := Pieces(lines, u, newline);
            && |pieces| >= |lines| && pieces[i].body == UpdateLine(lines[i], u).body
            && (i < |lines| - 1 ==> pieces[i] == UpdateLine(lines[i], u))
            && (pieces[i].body == "" <==> lines[i].body == "")
  {
    var updated := UpdateLines(lines, u);
    assert i < |lines| - 1 ==> Closed(updated, newline)[i] == updated[i];
    UpdateKeepsLine(lines[i], u);
  }

  lemma PieceIsOpenIff(lines: seq<Line>, u: Updates, newline: string, i: nat)
    requires Formed(lines) && PlainUpdates(u) && Listed(Missing(u.keys, Seen(lines, u)), u)
    requires i < |lines| - 1
    ensures !IsClosed(Pieces(lines, u, newline)[i]) <==> Hits(lines[i], u) && OddEnded(lines[i])
  {
    PieceAt(lines, u, newline, i);
    UpdateKeepsLine(lines[i], u);
    assert Separate(lines[i], lines[i + 1]);
  }

  /** Behind the last line everything is closed. */
  lemma LastPieceIsClosed(lines: seq<Line>, u: Updates, newline: string, i: nat)
    requires Formed(lines) && IsDict(u) && PlainUpdates(u) && (newline == "\n" || newline == "\r\n")
    requires Listed(Missing(u.keys, Seen(lines, u)), u)
    requires |lines| - 1 <= i < |Pieces(lines, u, newline)| - 1
    ensures IsClosed(Pieces(lines, u, newline)[i])
  {
    var updated, missing := UpdateLines(lines, u), Missing(u.keys, Seen(lines, u));
    var added, pieces := Added(missing, u, newline), Pieces(lines, u, newline);
    FormedAreLines(lines);
    UpdateKeepsLines(lines, u);
    CanCloseUpdated(lines, u);
    if EndsOddly(lines, u) {
      BothClosed(updated, [Line("", newline)] + added, i);
    } else {
      ClosedAreLines(updated, newline);
      BothClosed(Closed(updated, newline), added, i);
    }
  }

  lemma BothClosed(a: seq<Line>, b: seq<Line>, i: nat)
    requires |a| - 1 <= i < |a + b|
    requires a != [] ==> IsClosed(a[|a| - 1])
    requires forall k | 0 <= k < |b| :: b[k].ending != ""
    ensures IsClosed((a + b)[i])
  {
  }

  predicate MergesAlike(lines: seq<Line>, pieces: seq<Line>, u: Updates, i: nat) {
    && i + 1 < |lines| && i + 1 < |pieces|
    && (pieces[i + 1].body == "" <==> lines[i + 1].body == "")
    && (!IsClosed(pieces[i]) <==> Hits(lines[i], u) && OddEnded(lines[i]))
  }

  lemma PiecesOpen(lines: seq<Line>, u: Updates, newline: string)
    requires Formed(lines) && IsDict(u) && PlainUpdates(u) && (newline == "\n" || newline == "\r\n")
    requires Listed(Missing(u.keys, Seen(lines, u)), u)
    ensures var pieces := Pieces(lines, u, newline);
            forall i | 0 <= i < |pieces| - 1 :: !IsClosed(pieces[i]) ==> Hits(pieces[i], u) && i < |lines| - 1
  {
    var pieces := Pieces(lines, u, newline);
    forall i | 0 <= i < |pieces| - 1
      ensures !IsClosed(pieces[i]) ==> Hits(pieces[i], u) && i < |lines| - 1
    {
      if i < |lines| - 1 {
        PieceIsOpenIff(lines, u, newline, i);
        PieceAt(lines, u, newline, i);
        UpdateIsStable(lines[i], u);
      } else {
        LastPieceIsClosed(lines, u, newline, i);
      }
    }
  }

  lemma AlikeMerge(lines: seq<Line>, pieces: seq<Line>, u: Updates)
    requires forall i: nat | i < |lines| - 1 :: MergesAlike(lines, pieces, u, i)
    requires forall i | 0 <= i < |pieces| - 1 :: !IsClosed(pieces[i]) ==> i < |lines| - 1
    ensures OnlyBlanksFollow(pieces) <==> MergesBlanks(lines, u)
  {
    if MergesBlanks(lines, u) {
      forall i | 0 <= i < |pieces| - 1 ensures !IsClosed(pieces[i]) ==> pieces[i + 1].body == "" {
        assert i < |lines| - 1 ==> MergesAlike(lines, pieces, u, i);
      }
    }
    if OnlyBlanksFollow(pieces) {
      forall i | 0 <= i < |lines| - 1
        ensures Hits(lines[i], u) && OddEnded(lines[i]) ==> lines[i + 1].body == ""
      {
        assert MergesAlike(lines, pieces, u, i);
      }
    }
  }

  lemma PiecesMerge(lines: seq<Line>, u: Updates, newline: string)
    requires Formed(lines) && IsDict(u) && PlainUpdates(u) && (newline == "\n" || newline == "\r\n")
    requires Listed(Missing(u.keys, Seen(lines, u)), u)
    ensures OnlyBlanksFollow(Pieces(lines, u, newline)) <==> MergesBlanks(lines, u)
    ensures OpenAreHits(Pieces(lines, u, newline), u)
  {
    var pieces := Pieces(lines, u, newline);
    PiecesOpen(lines, u, newline);
    forall i: nat | i < |lines| - 1 ensures MergesAlike(lines, pieces, u, i) {
      PieceAt(lines, u, newline, i + 1);
      PieceIsOpenIff(lines, u, newline, i);
    }
    AlikeMerge(lines, pieces, u);
  }

  // ---- Updating twice ------------------------------------------------------------------------------------

  lemma ImproperIsMissing(lines: seq<Line>, u: Updates)
    requires !ProperUpdates(u)
    ensures Missing(u.keys, Seen(lines, u)) != []
  {
    var i :| 0 <= i < |u.keys| && IsNoyra(u.keys[i]) && !IsProper(u.keys[i]);
    ImproperIsNeverSeen(lines, u, u.keys[i]);
    MissingKeys(u.keys, Seen(lines, u));
    assert u.keys[i] in Missing(u.keys, Seen(lines, u));
  }

  lemma ImproperIsNeverSeen(lines: seq<Line>, u: Updates, key: string)
    requires !IsProper(key)
    ensures key !in Seen(lines, u)
  {
    FindsIsSeen(lines, u, key);
    if Finds(lines, u, key) {
      var i :| 0 <= i < |lines| && Hits(lines[i], u) && Target(lines[i].body) == Some(key);
      TargetIsProper(lines[i].body);
    }
  }

  /** Updating twice is updating once, for any text, exactly when every requested NOYRA key is a variable name
      and every updated line that loses an unusual line break is followed by a blank one.  Any other NOYRA key
      is never found again and appended each time; any other line becomes part of the value that the second
      update writes again. */
  lemma UpdateTwiceIff(text: string, u: Updates)
    requires IsDict(u) && PlainUpdates(u)
    ensures Update(Update(text, u), u) == Update(text, u) <==> ProperUpdates(u) && MergesBlanks(Lines(text), u)
  {
    var once := Update(text, u);
    FixedIff(once, u);
    if ProperUpdates(u) {
      OnceIsStableIff(text, u);
    } else {
      ImproperIsMissing(Lines(once), u);
    }
  }

  lemma OnceIsStableIff(text: string, u: Updates)
    requires IsDict(u) && PlainUpdates(u) && ProperUpdates(u)
    ensures var lines := Lines(Update(text, u));
            AllStable(lines, u) && Missing(u.keys, Seen(lines, u)) == [] <==> MergesBlanks(Lines(text), u)
  {
    SplitIsFormed(text);
    UpdateIsPieces(text, u);
    var pieces := Pieces(Lines(text), u, NewLine(text));
    LinesOfMerge(pieces);
    PiecesAreStable(Lines(text), u, NewLine(text));
    PiecesMerge(Lines(text), u, NewLine(text));
    MergedIsStable(pieces, u);
    if OnlyBlanksFollow(pieces) {
      NothingMissing(pieces, u);
    }
  }

  lemma {:induction false} NoneMissing(keys: seq<string>, seen: set<string>)
    requires forall i | 0 <= i < |keys| :: IsNoyra(keys[i]) ==> keys[i] in seen
    ensures Missing(keys, seen) == []
  {
    if keys != [] {
      NoneMissing(keys[1..], seen);
    }
  }

  lemma NothingMissing(pieces: seq<Line>, u: Updates)
    requires AllLines(pieces) && OnlyBlanksFollow(pieces)
    requires forall key | key in u.keys && IsNoyra(key) :: Finds(pieces, u, key)
    ensures Missing(u.keys, Seen(Merged(pieces), u)) == []
  {
    MergedShows(pieces, u);
    forall i | 0 <= i < |u.keys| && IsNoyra(u.keys[i]) ensures u.keys[i] in Seen(Merged(pieces), u) {
      assert u.keys[i] in u.keys;
      FindsIsSeen(pieces, u, u.keys[i]);
    }
    NoneMissing(u.keys, Seen(Merged(pieces), u));
  }

  /** Such a key: it is appended again and again. */
  lemma BareNoyraIsRepeated()
    ensures var u := Updates(["NOYRA_"], map["NOYRA_" := Some("1")]);
            IsDict(u) && Update(Update("", u), u) != Update("", u)
  {
    var u := Updates(["NOYRA_"], map["NOYRA_" := Some("1")]);
    assert IsNoyra(u.keys[0]) && !IsProper(u.keys[0]);
    UpdateTwiceIff("", u);
  }

  /** Such a line: what became part of the value the first time is gone after the second. */
  lemma SwallowedLineIsLost(key: string, prior: string, u: Updates, next: string)
    requires IsProper(key) && Plain(prior) && Plain(next) && next != ""
    requires IsDict(u) && u.keys == [key] && PlainUpdates(u)
    ensures var text := key + ("=" + (prior + ([VERTICAL_TAB] + next)));
            Update(Update(text, u), u) != Update(text, u)
  {
    var text := key + ("=" + (prior + ([VERTICAL_TAB] + next)));
    assert key in u.keys && key in u.values;
    TabText(key, prior, next);
    RowUpdates(key, prior + [VERTICAL_TAB], u);
    var lines := Lines(text);
    assert lines[0].body[|lines[0].body| - 1] == VERTICAL_TAB;
    assert Hits(lines[0], u) && OddEnded(lines[0]) && lines[0 + 1].body == next;
    UpdateTwiceIff(text, u);
  }
}
