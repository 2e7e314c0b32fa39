/** Updating and parsing an environment file (src/noyra/deployment_setup.py). */
module EnvFile {
  import opened Wrappers
  import opened Text
  import opened EnvText

  /** The requested values in the order of the dictionary; `None` stands for an empty value. */
  datatype Updates = Updates(keys: seq<string>, values: map<string, Option<string>>)

  ghost predicate IsDict(u: Updates) {
    && (forall i, j | 0 <= i < j < |u.keys| :: u.keys[i] != u.keys[j])
    && (forall k :: k in u.keys <==> k in u.values)
  }

  function ValueOf(u: Updates, key: string): string
    requires key in u.values
  {
    if u.values[key].Some? then u.values[key].value else ""
  }

  predicate IsNoyra(key: string) {
    |key| >= 6 && key[..6] == "NOYRA_"
  }

  // ---- Parsing ---------------------------------------------------------------------------------------

  function EntriesOf(lines: seq<Line>): (entries: seq<Entry>)
    ensures |entries| == |lines|
    ensures forall i | 0 <= i < |lines| :: entries[i] == EntryOf(lines[i].body)
  {
    seq(|lines|, i requires 0 <= i < |lines| => EntryOf(lines[i].body))
  }

  function Parse(text: string): seq<Entry> {
    EntriesOf(Lines(text))
  }

  // ---- Updating --------------------------------------------------------------------------------------

  predicate Hits(line: Line, u: Updates) {
    Target(line.body).Some? && Target(line.body).value in u.values
  }

  function UpdateLine(line: Line, u: Updates): Line {
    if Hits(line, u) then
      var key := Target(line.body).value;
      Line(line.body[..Indent(line.body)] + (key + ("=" + ValueOf(u, key))), line.ending)
    else line
  }

  function UpdateLines(lines: seq<Line>, u: Updates): (r: seq<Line>)
    ensures |r| == |lines|
    ensures forall i | 0 <= i < |lines| :: r[i] == UpdateLine(lines[i], u)
  {
    seq(|lines|, i requires 0 <= i < |lines| => UpdateLine(lines[i], u))
  }

  /** The requested variables that some line assigns. */
  function Seen(lines: seq<Line>, u: Updates): set<string> {
    if lines == [] then {}
    else
      var n := |lines| - 1;
      var before := Seen(lines[..n], u);
      if Hits(lines[n], u) then before + {Target(lines[n].body).value} else before
  }

  predicate Finds(lines: seq<Line>, u: Updates, key: string) {
    exists i | 0 <= i < |lines| :: Hits(lines[i], u) && Target(lines[i].body) == Some(key)
  }

  lemma FindsLonger(lines: seq<Line>, line: Line, u: Updates, key: string)
    ensures Finds(lines + [line], u, key)
        <==> Finds(lines, u, key) || (Hits(line, u) && Target(line.body) == Some(key))
  {
    var longer := lines + [line];
    if Finds(lines, u, key) {
      var i :| 0 <= i < |lines| && Hits(lines[i], u) && Target(lines[i].body) == Some(key);
      assert longer[i] == lines[i];
    }
    if Hits(line, u) && Target(line.body) == Some(key) {
      assert longer[|lines|] == line;
    }
    if Finds(longer, u, key) {
      var i :| 0 <= i < |longer| && Hits(longer[i], u) && Target(longer[i].body) == Some(key);
      assert i < |lines| ==> longer[i] == lines[i];
    }
  }

  lemma {:induction false} FindsIsSeen(lines: seq<Line>, u: Updates, key: string)
    ensures Finds(lines, u, key) <==> key in Seen(lines, u)
  {
    if lines != [] {
      var n := |lines| - 1;
      FindsIsSeen(lines[..n], u, key);
      assert lines == lines[..n] + [lines[n]];
      FindsLonger(lines[..n], lines[n], u, key);
    }
  }

  /** The NOYRA keys that no line assigns, in order. */
  function Missing(keys: seq<string>, seen: set<string>): seq<string> {
    if keys == [] then []
    else if IsNoyra(keys[0]) && keys[0] !in seen then [keys[0]] + Missing(keys[1..], seen)
    else Missing(keys[1..], seen)
  }

  lemma {:induction false} MissingKeys(keys: seq<string>, seen: set<string>)
    ensures forall k :: k in Missing(keys, seen) <==> k in keys && IsNoyra(k) && k !in seen
  {
    if keys != [] {
      MissingKeys(keys[1..], seen);
      assert keys == [keys[0]] + keys[1..];
    }
  }

  lemma MissingIff(keys: seq<string>, seen: set<string>, key: string)
    ensures key in Missing(keys, seen) <==> key in keys && |key| >= 6 && key[..6] == "NOYRA_" && key !in seen
  {
    MissingKeys(keys, seen);
  }

  /** They keep the order of the request. */
  lemma {:induction false} MissingInOrder(keys: seq<string>, seen: set<string>, i: nat, j: nat)
    requires i < j < |Missing(keys, seen)|
    ensures exists a, b :: 0 <= a < b < |keys| && keys[a] == Missing(keys, seen)[i] && keys[b] == Missing(keys, seen)[j]
  {
    var rest := Missing(keys[1..], seen);
    if IsNoyra(keys[0]) && keys[0] !in seen {
      if i > 0 {
        MissingInOrder(keys[1..], seen, i - 1, j - 1);
        var a, b :| 0 <= a < b < |keys[1..]| && keys[1..][a] == rest[i - 1] && keys[1..][b] == rest[j - 1];
        assert keys[a + 1] == rest[i - 1] && keys[b + 1] == rest[j - 1];
      } else {
        MissingKeys(keys[1..], seen);
        assert rest[j - 1] in rest;
        var b :| 0 <= b < |keys[1..]| && keys[1..][b] == rest[j - 1];
        assert keys[0] == Missing(keys, seen)[0] && keys[b + 1] == rest[j - 1];
      }
    } else {
      MissingInOrder(keys[1..], seen, i, j);
      var a, b :| 0 <= a < b < |keys[1..]| && keys[1..][a] == rest[i] && keys[1..][b] == rest[j];
      assert keys[a + 1] == rest[i] && keys[b + 1] == rest[j];
    }
  }

  predicate HasPair(text: string) {
    exists i | 0 <= i < |text| - 1 :: text[i] == '\r' && text[i + 1] == '\n'
  }

  function NewLine(text: string): string {
    if HasPair(text) then "\r\n" else "\n"
  }

  predicate Listed(keys: seq<string>, u: Updates) {
    forall i | 0 <= i < |keys| :: keys[i] in u.values
  }

  function Added(keys: seq<string>, u: Updates, newline: string): (lines: seq<Line>)
    requires Listed(keys, u)
    ensures |lines| == |keys|
    ensures forall i | 0 <= i < |keys| :: lines[i] == Line(keys[i] + ("=" + ValueOf(u, keys[i])), newline)
  {
    seq(|keys|, i requires 0 <= i < |keys| => Line(keys[i] + ("=" + ValueOf(u, keys[i])), newline))
  }

  predicate IsOpen(line: Line) {
    var s := line.body + line.ending;
    s == "" || (s[|s| - 1] != '\n' && s[|s| - 1] != '\r')
  }

  /** The last line ended by a line break if it has none. */
  function Closed(lines: seq<Line>, newline: string): (r: seq<Line>)
    ensures |r| == |lines|
    ensures forall i | 0 <= i < |lines| :: r[i].body == lines[i].body
  {
    var n := |lines| - 1;
    if lines == [] || !IsOpen(lines[n]) then lines
    else lines[..n] + [lines[n].(ending := lines[n].ending + newline)]
  }

  function UpdatedLines(lines: seq<Line>, u: Updates, newline: string): seq<Line>
    requires Listed(Missing(u.keys, Seen(lines, u)), u)
  {
    var missing := Missing(u.keys, Seen(lines, u));
    var updated := UpdateLines(lines, u);
    if missing == [] then updated else Closed(updated, newline) + Added(missing, u, newline)
  }

  lemma MissingAreListed(u: Updates, seen: set<string>)
    requires IsDict(u)
    ensures Listed(Missing(u.keys, seen), u)
  {
    MissingKeys(u.keys, seen);
    var missing := Missing(u.keys, seen);
    forall i | 0 <= i < |missing| ensures missing[i] in u.values {
      assert missing[i] in missing;
    }
  }

  ghost function Update(text: string, u: Updates): string
    requires IsDict(u)
  {
    MissingAreListed(u, Seen(Lines(text), u));
    Join(UpdatedLines(Lines(text), u, NewLine(text)))
  }

  // ---- The updated lines are well formed ---------------------------------------------------------------

  /** No requested NOYRA variable, and no value for one, holds a line break. */
  predicate PlainUpdates(u: Updates) {
    forall k | k in u.values :: IsNoyra(k) ==> Plain(k) && Plain(ValueOf(u, k))
  }

  lemma WordIsPlain(s: string)
    requires forall i | 0 <= i < |s| :: IsWordChar(s[i])
    ensures Plain(s)
  {
  }

  lemma PlainJoin(a: string, b: string)
    requires Plain(a) && Plain(b)
    ensures Plain(a + b)
  {
  }

  lemma TargetIsProper(body: string)
    requires Target(body).Some?
    ensures IsProper(Target(body).value)
  {
  }

  lemma PlainFront(s: string, n: nat, m: nat)
    requires n <= m <= |s| && Plain(s[..m])
    ensures Plain(s[..n])
  {
    assert forall i | 0 <= i < n :: s[..n][i] == s[..m][i];
  }

  lemma TargetIsIndented(body: string)
    requires Target(body).Some?
    ensures Indent(body) < |body|
  {
    assert TrimLeft(body) != "";
  }

  lemma LineFront(line: Line)
    requires IsLine(line)
    ensures forall n: nat | n < |line.body| :: Plain(line.body[..n])
  {
    var m := |line.body|;
    forall n: nat | n < m ensures Plain(line.body[..n]) {
      if Plain(line.body) {
        assert line.body[..m] == line.body;
        PlainFront(line.body, n, m);
      } else {
        PlainFront(line.body, n, m - 1);
      }
    }
  }

  lemma HitIsIndented(line: Line, u: Updates)
    requires IsLine(line) && Hits(line, u)
    ensures line.body != "" && Plain(line.body[..Indent(line.body)])
  {
    TargetIsIndented(line.body);
    LineFront(line);
  }

  /** An updated line is a line with the same ending; it loses an unusual line break in its value. */
  lemma UpdateKeepsLine(line: Line, u: Updates)
    requires IsLine(line) && PlainUpdates(u)
    ensures var updated := UpdateLine(line, u);
            && IsLine(updated)
            && updated.ending == line.ending
            && (updated.body == "" <==> line.body == "")
            && (OddEnded(updated) <==> OddEnded(line) && !Hits(line, u))
  {
    if Hits(line, u) {
      var key := Target(line.body).value;
      var value := ValueOf(u, key);
      var updated := UpdateLine(line, u);
      HitIsIndented(line, u);
      TargetIsProper(line.body);
      WordIsPlain(key);
      assert IsNoyra(key) && Plain(value);
      PlainJoin("=", value);
      PlainJoin(key, "=" + value);
      PlainJoin(line.body[..Indent(line.body)], key + ("=" + value));
      assert Plain(updated.body) && updated.body != "";
    }
  }

  lemma UpdateKeepsLines(lines: seq<Line>, u: Updates)
    requires AllLines(lines) && PlainUpdates(u)
    ensures AllLines(UpdateLines(lines, u))
  {
    forall i | 0 <= i < |lines| ensures IsLine(UpdateLine(lines[i], u)) {
      UpdateKeepsLine(lines[i], u);
    }
    forall i | 0 < i < |lines| ensures NoPair(UpdateLine(lines[i - 1], u), UpdateLine(lines[i], u)) {
      UpdateKeepsLine(lines[i - 1], u);
      UpdateKeepsLine(lines[i], u);
      assert NoPair(lines[i - 1], lines[i]);
    }
  }

  /** No updated line but the last ends in an unusual line break. */
  predicate NoneMerges(lines: seq<Line>, u: Updates) {
    forall i | 0 <= i < |lines| - 1 :: Hits(lines[i], u) ==> !OddEnded(lines[i])
  }

  /** The last line is one that ends in an unusual line break and is not updated. */
  predicate EndsOddly(lines: seq<Line>, u: Updates) {
    lines != [] && OddEnded(lines[|lines| - 1]) && !Hits(lines[|lines| - 1], u)
  }

  /** Unusual line breaks do no harm: no updated line but the last ends in one, and nothing is added after a
      last line that ends in one. */
  predicate Harmless(lines: seq<Line>, u: Updates) {
    NoneMerges(lines, u) && (EndsOddly(lines, u) ==> Missing(u.keys, Seen(lines, u)) == [])
  }

  lemma UpdateKeepsFormed(lines: seq<Line>, u: Updates)
    requires Formed(lines) && PlainUpdates(u) && NoneMerges(lines, u)
    ensures Formed(UpdateLines(lines, u))
  {
    forall i | 0 <= i < |lines| ensures IsLine(UpdateLine(lines[i], u)) {
      UpdateKeepsLine(lines[i], u);
    }
    forall i | 0 < i < |lines| ensures Separate(UpdateLine(lines[i - 1], u), UpdateLine(lines[i], u)) {
      UpdateKeepsLine(lines[i - 1], u);
      UpdateKeepsLine(lines[i], u);
      assert Separate(lines[i - 1], lines[i]);
    }
  }

  lemma AddedIsFormed(keys: seq<string>, u: Updates, newline: string)
    requires Listed(keys, u) && PlainUpdates(u) && (newline == "\n" || newline == "\r\n")
    requires forall i | 0 <= i < |keys| :: IsNoyra(keys[i])
    ensures Formed(Added(keys, u, newline))
    ensures forall i | 0 <= i < |keys| :: Added(keys, u, newline)[i].body != ""
  {
    var lines := Added(keys, u, newline);
    forall i | 0 <= i < |keys| ensures IsLine(lines[i]) && lines[i].body != "" {
      PlainJoin("=", ValueOf(u, keys[i]));
      PlainJoin(keys[i], "=" + ValueOf(u, keys[i]));
    }
  }

  lemma OpenHasNoEnding(line: Line)
    requires IsLine(line)
    ensures IsOpen(line) <==> line.ending == ""
  {
    var s := line.body + line.ending;
    if line.ending == "" {
      assert s == line.body;
    } else {
      assert s[|s| - 1] == line.ending[|line.ending| - 1];
    }
  }

  /** The last line can be ended by a line break. */
  predicate CanClose(lines: seq<Line>) {
    lines != [] ==> !OddEnded(lines[|lines| - 1])
  }

  lemma ClosedLine(line: Line, newline: string)
    requires IsLine(line) && IsOpen(line) && !OddEnded(line) && (newline == "\n" || newline == "\r\n")
    ensures var closed := line.(ending := line.ending + newline);
            IsLine(closed) && closed.ending != "" && closed.body == line.body != ""
  {
    OpenHasNoEnding(line);
    assert "" + newline == newline;
  }

  lemma ClosedAreLines(lines: seq<Line>, newline: string)
    requires AllLines(lines) && CanClose(lines) && (newline == "\n" || newline == "\r\n")
    ensures AllLines(Closed(lines, newline))
    ensures lines != [] ==> Closed(lines, newline)[|lines| - 1].ending != ""
  {
    if lines != [] {
      var n := |lines| - 1;
      assert IsLine(lines[n]);
      OpenHasNoEnding(lines[n]);
      if IsOpen(lines[n]) {
        ClosedLine(lines[n], newline);
        var closed := Closed(lines, newline);
        assert forall i | 0 <= i < n :: closed[i] == lines[i];
      }
    }
  }

  lemma ClosedIsFormed(lines: seq<Line>, newline: string)
    requires Formed(lines) && CanClose(lines) && (newline == "\n" || newline == "\r\n")
    ensures Formed(Closed(lines, newline))
    ensures lines != [] ==> Closed(lines, newline)[|lines| - 1].ending != ""
  {
    ClosedAreLines(lines, newline);
    var closed := Closed(lines, newline);
    forall i | 0 < i < |closed| ensures Separate(closed[i - 1], closed[i]) {
      assert Separate(lines[i - 1], lines[i]) && closed[i - 1] == lines[i - 1];
      assert NoPair(closed[i - 1], closed[i]);
    }
  }

  lemma FormedJoins(a: seq<Line>, b: seq<Line>)
    requires Formed(a) && Formed(b)
    requires a != [] && b != [] ==> a[|a| - 1].ending != "" && b[0].body != ""
    ensures Formed(a + b)
  {
    var all := a + b;
    forall i | 0 <= i < |all| ensures IsLine(all[i]) {
      assert all[i] == if i < |a| then a[i] else b[i - |a|];
    }
    forall i | 0 < i < |all| ensures Separate(all[i - 1], all[i]) {
      if i < |a| {
        assert all[i - 1] == a[i - 1] && all[i] == a[i];
      } else if i > |a| {
        assert all[i - 1] == b[i - |a| - 1] && all[i] == b[i - |a|];
      }
    }
  }

  lemma CanCloseUpdated(lines: seq<Line>, u: Updates)
    requires AllLines(lines) && PlainUpdates(u)
    ensures CanClose(UpdateLines(lines, u)) <==> !EndsOddly(lines, u)
  {
    if lines != [] {
      UpdateKeepsLine(lines[|lines| - 1], u);
    }
  }

  lemma UpdatedIsFormed(lines: seq<Line>, u: Updates, newline: string)
    requires Formed(lines) && IsDict(u) && PlainUpdates(u) && Harmless(lines, u)
    requires newline == "\n" || newline == "\r\n"
    ensures Listed(Missing(u.keys, Seen(lines, u)), u)
    ensures Formed(UpdatedLines(lines, u, newline))
  {
    var missing := Missing(u.keys, Seen(lines, u));
    MissingAreListed(u, Seen(lines, u));
    UpdateKeepsFormed(lines, u);
    if missing != [] {
      var updated := UpdateLines(lines, u);
      CanCloseUpdated(lines, u);
      ClosedIsFormed(updated, newline);
      AddedFromMissing(lines, u, newline);
      FormedJoins(Closed(updated, newline), Added(missing, u, newline));
    }
  }

  lemma AddedFromMissing(lines: seq<Line>, u: Updates, newline: string)
    requires IsDict(u) && PlainUpdates(u) && (newline == "\n" || newline == "\r\n")
    ensures var missing := Missing(u.keys, Seen(lines, u));
            && Listed(missing, u)
            && Formed(Added(missing, u, newline))
            && forall i | 0 <= i < |missing| :: Added(missing, u, newline)[i].body != ""
  {
    var missing := Missing(u.keys, Seen(lines, u));
    MissingAreListed(u, Seen(lines, u));
    MissingKeys(u.keys, Seen(lines, u));
    forall i | 0 <= i < |missing| ensures IsNoyra(missing[i]) {
      assert missing[i] in missing;
    }
    AddedIsFormed(missing, u, newline);
  }

  /** The updated text splits into the updated lines. */
  lemma LinesOfUpdate(text: string, u: Updates)
    requires IsDict(u) && PlainUpdates(u) && Harmless(Lines(text), u)
    ensures Listed(Missing(u.keys, Seen(Lines(text), u)), u)
    ensures Lines(Update(text, u)) == UpdatedLines(Lines(text), u, NewLine(text))
    ensures Formed(UpdatedLines(Lines(text), u, NewLine(text)))
  {
    SplitIsFormed(text);
    UpdatedIsFormed(Lines(text), u, NewLine(text));
    LinesOfJoin(UpdatedLines(Lines(text), u, NewLine(text)));
  }

  // ---- Unusual line breaks ----------------------------------------------------------------------------

  lemma LinesJoin(a: seq<Line>, b: seq<Line>)
    requires AllLines(a) && AllLines(b)
    requires a != [] && b != [] ==> NoPair(a[|a| - 1], b[0])
    ensures AllLines(a + b)
  {
    var all := a + b;
    forall i | 0 <= i < |all| ensures IsLine(all[i]) {
      assert all[i] == if i < |a| then a[i] else b[i - |a|];
    }
    forall i | 0 < i < |all| ensures NoPair(all[i - 1], all[i]) {
      if i < |a| {
        assert all[i - 1] == a[i - 1] && all[i] == a[i];
      } else if i > |a| {
        assert all[i - 1] == b[i - |a| - 1] && all[i] == b[i - |a|];
      }
    }
  }

  lemma FormedAreLines(lines: seq<Line>)
    requires Formed(lines)
    ensures AllLines(lines)
  {
    forall i | 0 < i < |lines| ensures NoPair(lines[i - 1], lines[i]) {
      assert Separate(lines[i - 1], lines[i]);
    }
  }

  /** Unless something is added after an unusual line break, the updated lines are lines. */
  lemma UpdatedAreLines(lines: seq<Line>, u: Updates, newline: string)
    requires Formed(lines) && IsDict(u) && PlainUpdates(u) && (newline == "\n" || newline == "\r\n")
    requires EndsOddly(lines, u) ==> Missing(u.keys, Seen(lines, u)) == []
    ensures Listed(Missing(u.keys, Seen(lines, u)), u)
    ensures AllLines(UpdatedLines(lines, u, newline))
  {
    var missing := Missing(u.keys, Seen(lines, u));
    MissingAreListed(u, Seen(lines, u));
    FormedAreLines(lines);
    UpdateKeepsLines(lines, u);
    if missing != [] {
      var updated := UpdateLines(lines, u);
      CanCloseUpdated(lines, u);
      ClosedAreLines(updated, newline);
      AddedFromMissing(lines, u, newline);
      FormedAreLines(Added(missing, u, newline));
      LinesJoin(Closed(updated, newline), Added(missing, u, newline));
    }
  }

  lemma {:induction false} NoneOpens(lines: seq<Line>, i: nat)
    requires Opens(lines) == 0 && i < |lines| - 1
    ensures IsClosed(lines[i])
  {
    if i > 0 {
      NoneOpens(lines[1..], i - 1);
    }
  }

  lemma UpdatedAt(lines: seq<Line>, u: Updates, newline: string, i: nat)
    requires Listed(Missing(u.keys, Seen(lines, u)), u) && i < |lines| - 1
    ensures var updated := UpdatedLines(lines, u, newline);
            |updated| >= |lines| && updated[i] == UpdateLine(lines[i], u)
  {
    var updated := UpdateLines(lines, u);
    assert Closed(updated, newline)[i] == updated[i];
  }

  /** An updated line that ended in an unusual line break is no longer closed. */
  lemma MergingOpens(lines: seq<Line>, u: Updates, newline: string)
    requires AllLines(lines) && PlainUpdates(u) && Listed(Missing(u.keys, Seen(lines, u)), u)
    requires !NoneMerges(lines, u)
    ensures Opens(UpdatedLines(lines, u, newline)) > 0
  {
    var i :| 0 <= i < |lines| - 1 && Hits(lines[i], u) && OddEnded(lines[i]);
    UpdateKeepsLine(lines[i], u);
    UpdatedAt(lines, u, newline, i);
    if Opens(UpdatedLines(lines, u, newline)) == 0 {
      NoneOpens(UpdatedLines(lines, u, newline), i);
    }
  }

  /** So it is joined with the next one. */
  lemma MergingLosesLine(text: string, u: Updates)
    requires IsDict(u) && PlainUpdates(u)
    requires !NoneMerges(Lines(text), u)
    requires EndsOddly(Lines(text), u) ==> Missing(u.keys, Seen(Lines(text), u)) == []
    ensures |Lines(Update(text, u))| < |Lines(text)| + |Missing(u.keys, Seen(Lines(text), u))|
  {
    var lines, newline := Lines(text), NewLine(text);
    SplitIsFormed(text);
    FormedAreLines(lines);
    UpdatedAreLines(lines, u, newline);
    MergingOpens(lines, u, newline);
    CountOfJoin(UpdatedLines(lines, u, newline));
  }

  lemma OddEndIsText(lines: seq<Line>)
    requires AllLines(lines) && lines != [] && OddEnded(lines[|lines| - 1])
    ensures Join(lines) != "" && IsOdd(Join(lines)[|Join(lines)| - 1])
  {
    var n := |lines| - 1;
    assert lines == lines[..n] + [lines[n]];
    JoinOfLast(lines[..n], lines[n]);
  }

  lemma OpenIsSeparated(lines: seq<Line>, newline: string)
    requires lines != [] && IsOpen(lines[|lines| - 1])
    ensures Separator(Texts(lines), newline) == newline
  {
  }

  lemma ClosedByBlank(lines: seq<Line>, newline: string)
    requires lines != [] && IsOpen(lines[|lines| - 1])
    ensures Join(Closed(lines, newline)) == Join(lines) + newline
  {
    OpenIsSeparated(lines, newline);
    JoinOfClosed(lines, newline);
  }

  lemma BlankIsFormed(added: seq<Line>, newline: string)
    requires Formed(added) && (added != [] ==> added[0].body != "") && (newline == "\n" || newline == "\r\n")
    ensures Formed([Line("", newline)] + added)
    ensures Join([Line("", newline)] + added) == newline + Join(added)
  {
    FormedFront(Line("", newline), added);
    JoinFront(Line("", newline), added);
    assert TextOf(Line("", newline)) == newline;
  }

  lemma Regroup(a: string, b: string, c: string)
    ensures a + b + c == a + (b + c)
  {
  }

  lemma JoinAfterOdd(lines: seq<Line>, added: seq<Line>, newline: string)
    requires AllLines(lines) && lines != [] && OddEnded(lines[|lines| - 1])
    ensures Join(Closed(lines, newline) + added) == Join(lines) + (newline + Join(added))
  {
    JoinOfBoth(Closed(lines, newline), added);
    OpenHasNoEnding(lines[|lines| - 1]);
    ClosedByBlank(lines, newline);
    Regroup(Join(lines), newline, Join(added));
  }

  /** What is added after an unusual line break leaves a blank line in between. */
  lemma AddedAfterOdd(lines: seq<Line>, added: seq<Line>, newline: string)
    requires AllLines(lines) && lines != [] && OddEnded(lines[|lines| - 1])
    requires Formed(added) && (added != [] ==> added[0].body != "") && (newline == "\n" || newline == "\r\n")
    ensures Lines(Join(Closed(lines, newline) + added)) == Lines(Join(lines)) + ([Line("", newline)] + added)
  {
    var tail := [Line("", newline)] + added;
    BlankIsFormed(added, newline);
    LinesOfJoin(tail);
    OddEndIsText(lines);
    LinesOfBoth(Join(lines), Join(tail));
    JoinAfterOdd(lines, added, newline);
  }

  lemma BlankAppears(text: string, u: Updates)
    requires IsDict(u) && PlainUpdates(u)
    requires EndsOddly(Lines(text), u) && Missing(u.keys, Seen(Lines(text), u)) != []
    ensures var missing := Missing(u.keys, Seen(Lines(text), u));
            && Listed(missing, u)
            && Lines(Update(text, u))
               == Lines(Join(UpdateLines(Lines(text), u)))
                  + ([Line("", NewLine(text))] + Added(missing, u, NewLine(text)))
  {
    var lines, newline := Lines(text), NewLine(text);
    SplitIsFormed(text);
    FormedAreLines(lines);
    UpdateKeepsLines(lines, u);
    CanCloseUpdated(lines, u);
    AddedFromMissing(lines, u, newline);
    AddedAfterOdd(UpdateLines(lines, u), Added(Missing(u.keys, Seen(lines, u)), u, newline), newline);
  }

  lemma BodyIsNotBlank(body: string)
    requires body != ""
    ensures EntryOf(body) != Entry("", None) && EntryOf("") == Entry("", None)
  {
  }

  // ---- What the update means for the parsed entries ------------------------------------------------------

  /** What a value is parsed as: without the white space around it, and then without quotes around it. */
  function ReadAs(v: string): string {
    Unquoted(TrimRight(TrimLeft(v)))
  }

  function NewValue(u: Updates, key: string): string
    requires key in u.values
  {
    ReadAs(ValueOf(u, key))
  }

  /** Every requested NOYRA key is a variable name. */
  predicate ProperUpdates(u: Updates) {
    forall i | 0 <= i < |u.keys| :: IsNoyra(u.keys[i]) ==> IsProper(u.keys[i])
  }

  predicate Assigns(entry: Entry, key: string) {
    entry.value.Some? && entry.name == key
  }

  /** The entry with the requested value, if one is requested for its variable. */
  function Overwritten(entry: Entry, u: Updates): Entry {
    if entry.value.Some? && IsProper(entry.name) && entry.name in u.values
    then Entry(entry.name, Some(NewValue(u, entry.name)))
    else entry
  }

  function OverwrittenAll(entries: seq<Entry>, u: Updates): (r: seq<Entry>)
    ensures |r| == |entries|
    ensures forall i | 0 <= i < |entries| :: r[i] == Overwritten(entries[i], u)
  {
    seq(|entries|, i requires 0 <= i < |entries| => Overwritten(entries[i], u))
  }

  function AssignedNames(entries: seq<Entry>): set<string> {
    set i | 0 <= i < |entries| && entries[i].value.Some? :: entries[i].name
  }

  function NewEntries(keys: seq<string>, u: Updates): (r: seq<Entry>)
    requires Listed(keys, u)
    ensures |r| == |keys|
    ensures forall i | 0 <= i < |keys| :: r[i] == Entry(keys[i], Some(NewValue(u, keys[i])))
  {
    seq(|keys|, i requires 0 <= i < |keys| => Entry(keys[i], Some(NewValue(u, keys[i]))))
  }

  lemma {:induction false} TrimRightIff(v: string)
    ensures |TrimRight(v)| <= |v|
    ensures |TrimRight(v)| == |v| <==> v == "" || !IsSpace(v[|v| - 1])
  {
    if v != "" && IsSpace(v[|v| - 1]) {
      TrimRightIff(v[..|v| - 1]);
    }
  }

  /** A value is read back as it was written exactly when it has neither white space nor quotes around it. */
  lemma ReadsBackIff(v: string)
    ensures ReadAs(v) == v
        <==> (v == "" || (!IsSpace(v[0]) && !IsSpace(v[|v| - 1]))) && Unquoted(v) == v
  {
    var left := TrimLeft(v);
    TrimRightIff(left);
    if v == "" || !IsSpace(v[0]) {
      assert left == v;
      TrimRightIff(v);
    } else {
      assert |left| < |v|;
    }
  }

  lemma HitsIffAssigns(line: Line, u: Updates)
    ensures var entry := EntryOf(line.body);
            Hits(line, u) <==> entry.value.Some? && IsProper(entry.name) && entry.name in u.values
    ensures Hits(line, u) ==> Target(line.body).value == EntryOf(line.body).name
  {
    var entry := EntryOf(line.body);
    TargetIsDeclared(line.body, entry.name);
    if Target(line.body).Some? {
      TargetIsDeclared(line.body, Target(line.body).value);
    }
  }

  lemma UpdatedEntry(line: Line, u: Updates)
    ensures EntryOf(UpdateLine(line, u).body) == Overwritten(EntryOf(line.body), u)
  {
    HitsIffAssigns(line, u);
    if Hits(line, u) {
      var key := Target(line.body).value;
      IndentIsSpace(line.body);
      TargetIsProper(line.body);
      WrittenIsRead(line.body[..Indent(line.body)], key, ValueOf(u, key));
    }
  }

  lemma NewEntry(key: string, u: Updates)
    requires key in u.values && IsProper(key)
    ensures EntryOf(key + ("=" + ValueOf(u, key))) == Entry(key, Some(NewValue(u, key)))
    ensures Target(key + ("=" + ValueOf(u, key))) == Some(key)
  {
    WrittenIsRead("", key, ValueOf(u, key));
    assert "" + (key + ("=" + ValueOf(u, key))) == key + ("=" + ValueOf(u, key));
  }

  /** The keys seen on the lines are the variables the entries assign. */
  lemma SeenAreAssigned(lines: seq<Line>, u: Updates, key: string)
    requires key in u.values && IsProper(key)
    ensures key in Seen(lines, u) <==> key in AssignedNames(EntriesOf(lines))
  {
    forall i | 0 <= i < |lines|
      ensures Hits(lines[i], u) && Target(lines[i].body) == Some(key) <==> Assigns(EntryOf(lines[i].body), key)
    {
      HitsIffAssigns(lines[i], u);
    }
    var entries := EntriesOf(lines);
    FindsIsSeen(lines, u, key);
    if Finds(lines, u, key) {
      var i :| 0 <= i < |lines| && Hits(lines[i], u) && Target(lines[i].body) == Some(key);
      assert Assigns(entries[i], key);
    }
    if key in AssignedNames(entries) {
      var i :| 0 <= i < |entries| && entries[i].value.Some? && entries[i].name == key;
      assert Assigns(EntryOf(lines[i].body), key);
    }
  }

  lemma {:induction false} MissingAgrees(keys: seq<string>, a: set<string>, b: set<string>)
    requires forall i | 0 <= i < |keys| && IsNoyra(keys[i]) :: keys[i] in a <==> keys[i] in b
    ensures Missing(keys, a) == Missing(keys, b)
  {
    if keys != [] {
      MissingAgrees(keys[1..], a, b);
    }
  }

  lemma MissingFromEntries(lines: seq<Line>, u: Updates)
    requires IsDict(u) && ProperUpdates(u)
    ensures Missing(u.keys, Seen(lines, u)) == Missing(u.keys, AssignedNames(EntriesOf(lines)))
  {
    forall i | 0 <= i < |u.keys| && IsNoyra(u.keys[i])
      ensures u.keys[i] in Seen(lines, u) <==> u.keys[i] in AssignedNames(EntriesOf(lines))
    {
      assert u.keys[i] in u.keys;
      SeenAreAssigned(lines, u, u.keys[i]);
    }
    MissingAgrees(u.keys, Seen(lines, u), AssignedNames(EntriesOf(lines)));
  }

  lemma EntriesOfUpdateLines(lines: seq<Line>, u: Updates)
    ensures EntriesOf(UpdateLines(lines, u)) == OverwrittenAll(EntriesOf(lines), u)
  {
    forall i | 0 <= i < |lines|
      ensures EntryOf(UpdateLine(lines[i], u).body) == Overwritten(EntryOf(lines[i].body), u)
    {
      UpdatedEntry(lines[i], u);
    }
  }

  lemma EntriesOfAdded(keys: seq<string>, u: Updates, newline: string)
    requires Listed(keys, u) && forall i | 0 <= i < |keys| :: IsProper(keys[i])
    ensures EntriesOf(Added(keys, u, newline)) == NewEntries(keys, u)
  {
    forall i | 0 <= i < |keys|
      ensures EntryOf(keys[i] + ("=" + ValueOf(u, keys[i]))) == Entry(keys[i], Some(NewValue(u, keys[i])))
    {
      NewEntry(keys[i], u);
    }
  }

  lemma EntriesOfClosed(lines: seq<Line>, newline: string)
    ensures EntriesOf(Closed(lines, newline)) == EntriesOf(lines)
  {
  }

  lemma EntriesOfBoth(a: seq<Line>, b: seq<Line>)
    ensures EntriesOf(a + b) == EntriesOf(a) + EntriesOf(b)
  {
  }

  lemma MissingAreProper(u: Updates, seen: set<string>)
    requires ProperUpdates(u)
    ensures forall i | 0 <= i < |Missing(u.keys, seen)| :: IsProper(Missing(u.keys, seen)[i])
  {
    var missing := Missing(u.keys, seen);
    MissingKeys(u.keys, seen);
    forall i | 0 <= i < |missing| ensures IsProper(missing[i]) {
      assert missing[i] in missing;
    }
  }

  lemma EntriesOfUpdated(lines: seq<Line>, u: Updates, newline: string)
    requires IsDict(u) && ProperUpdates(u)
    ensures var missing := Missing(u.keys, Seen(lines, u));
            && Listed(missing, u)
            && EntriesOf(UpdatedLines(lines, u, newline))
               == OverwrittenAll(EntriesOf(lines), u) + NewEntries(missing, u)
  {
    var missing := Missing(u.keys, Seen(lines, u));
    var updated := UpdateLines(lines, u);
    MissingAreListed(u, Seen(lines, u));
    MissingAreProper(u, Seen(lines, u));
    EntriesOfUpdateLines(lines, u);
    if missing != [] {
      EntriesOfClosed(updated, newline);
      EntriesOfAdded(missing, u, newline);
      EntriesOfBoth(Closed(updated, newline), Added(missing, u, newline));
    } else {
      assert NewEntries(missing, u) == [];
    }
  }

  /** The entries with the requested values, and the variables that were not assigned after them. */
  ghost function RequestedOf(entries: seq<Entry>, u: Updates): seq<Entry>
    requires IsDict(u)
  {
    MissingAreListed(u, AssignedNames(entries));
    OverwrittenAll(entries, u) + NewEntries(Missing(u.keys, AssignedNames(entries)), u)
  }

  ghost function Requested(text: string, u: Updates): seq<Entry>
    requires IsDict(u)
  {
    RequestedOf(Parse(text), u)
  }

  /** Entry by entry: an assignment to a requested NOYRA variable gets the requested value as it is read, every other
      entry is kept, and what follows are the requested NOYRA variables that are assigned nowhere. */
  lemma RequestedIs(text: string, u: Updates, i: nat)
    requires IsDict(u) && i < |Requested(text, u)|
    ensures |Parse(text)| <= |Requested(text, u)|
    ensures var entry := Requested(text, u)[i];
            if i < |Parse(text)| then
              var was := Parse(text)[i];
              if was.value.Some? && IsProper(was.name) && was.name in u.keys
              then entry == Entry(was.name, Some(match u.values[was.name] case Some(v) => ReadAs(v) case None => ""))
              else entry == was
            else
              && entry.name in u.keys && |entry.name| >= 6 && entry.name[..6] == "NOYRA_"
              && (forall k | 0 <= k < |Parse(text)| && Parse(text)[k].value.Some? :: Parse(text)[k].name != entry.name)
              && entry.value == Some(match u.values[entry.name] case Some(v) => ReadAs(v) case None => "")
  {
    var entries := Parse(text);
    MissingAreListed(u, AssignedNames(entries));
    var missing := Missing(u.keys, AssignedNames(entries));
    if i >= |entries| {
      assert missing[i - |entries|] in missing;
      MissingIff(u.keys, AssignedNames(entries), missing[i - |entries|]);
    }
  }

  lemma BlankIsNotRequested(text: string, u: Updates)
    requires IsDict(u) && PlainUpdates(u) && ProperUpdates(u)
    requires EndsOddly(Lines(text), u) && Missing(u.keys, Seen(Lines(text), u)) != []
    ensures Parse(Update(text, u)) != Requested(text, u)
  {
    var lines := Lines(text);
    var n := |lines| - 1;
    MissingFromEntries(lines, u);
    BlankAppears(text, u);
    var front := Lines(Join(UpdateLines(lines, u)));
    var all := Lines(Update(text, u));
    if Parse(Update(text, u)) == Requested(text, u) {
      assert |front| == n;
      assert all[n] == Line("", NewLine(text));
      assert Parse(Update(text, u))[n] == EntryOf("");
      assert Requested(text, u)[n] == Overwritten(EntryOf(lines[n].body), u);
      BodyIsNotBlank(lines[n].body);
    }
  }

  /** A line break in a value for a NOYRA variable is inside the value, not just in the white space around it. */
  predicate TidyUpdates(u: Updates) {
    forall k | k in u.values :: IsNoyra(k) ==> Plain(ValueOf(u, k)) || !Plain(NewValue(u, k))
  }

  /** Updating the text is updating its entries: every requested variable has its value wherever it was
      assigned, all other entries are where they were, and the variables that were not assigned follow in
      the order of the request.  It is so exactly when no value holds a line break and the unusual line breaks
      of the text do no harm. */
  lemma UpdateMeansOverwrite(text: string, u: Updates)
    requires IsDict(u) && ProperUpdates(u) && TidyUpdates(u)
    ensures Parse(Update(text, u)) == Requested(text, u) <==> PlainUpdates(u) && Harmless(Lines(text), u)
  {
    if !PlainUpdates(u) {
      BrokenValueIsLost(text, Update(text, u), u);
    } else {
      PlainMeansOverwrite(text, u);
    }
  }

  lemma PlainMeansOverwrite(text: string, u: Updates)
    requires IsDict(u) && PlainUpdates(u) && ProperUpdates(u)
    ensures Parse(Update(text, u)) == Requested(text, u) <==> Harmless(Lines(text), u)
  {
    MissingFromEntries(Lines(text), u);
    if Harmless(Lines(text), u) {
      LinesOfUpdate(text, u);
      EntriesOfUpdated(Lines(text), u, NewLine(text));
    } else if EndsOddly(Lines(text), u) && Missing(u.keys, Seen(Lines(text), u)) != [] {
      BlankIsNotRequested(text, u);
    } else {
      MergingLosesLine(text, u);
    }
  }

  // ---- Values with line breaks ---------------------------------------------------------------------------

  /** At most its last character is a line break. */
  predicate BreaksAtEnd(s: string) {
    Plain(s) || (s != "" && Plain(s[..|s| - 1]))
  }

  lemma BreaksAtEndOf(s: string, n: nat)
    requires n <= |s| && BreaksAtEnd(s)
    ensures BreaksAtEnd(s[n..])
  {
    if n < |s| && !Plain(s) {
      assert s[n..][..|s| - n - 1] == s[..|s| - 1][n..];
    }
  }

  lemma {:induction false} TrimRightIsFront(s: string)
    ensures |TrimRight(s)| <= |s| && TrimRight(s) == s[..|TrimRight(s)|]
  {
    if s != "" && IsSpace(s[|s| - 1]) {
      TrimRightIsFront(s[..|s| - 1]);
    }
  }

  lemma TrimmedIsPlain(s: string)
    requires BreaksAtEnd(s)
    ensures Plain(TrimRight(s))
  {
    TrimRightIsFront(s);
    if !Plain(s) {
      assert IsSpace(s[|s| - 1]);
      TrimRightIsFront(s[..|s| - 1]);
    }
  }

  lemma UnquotedIsPlain(s: string)
    requires Plain(s)
    ensures Plain(Unquoted(s))
  {
  }

  lemma AssignedIsSuffix(t: string)
    requires BreaksAtEnd(t) && Assigned(t).Some?
    ensures BreaksAtEnd(Assigned(t).value.raw)
  {
    var n := WordLength(t);
    BreaksAtEndOf(t, n);
    BreaksAtEndOf(t[n..], Indent(t[n..]));
    BreaksAtEndOf(TrimLeft(t[n..]), 1);
  }

  lemma DeclaredIsSuffix(t: string)
    requires BreaksAtEnd(t) && Declared(t).Some?
    ensures BreaksAtEnd(Declared(t).value.raw)
  {
    if HasExport(t) && Assigned(TrimLeft(t[6..])).Some? {
      BreaksAtEndOf(t, 6);
      BreaksAtEndOf(t[6..], Indent(t[6..]));
      AssignedIsSuffix(TrimLeft(t[6..]));
    } else {
      AssignedIsSuffix(t);
    }
  }

  /** Parsing never yields a value with a line break. */
  lemma ParsedIsPlain(text: string, i: nat)
    requires i < |Parse(text)| && Parse(text)[i].value.Some?
    ensures Plain(Parse(text)[i].value.value)
  {
    var body := Lines(text)[i].body;
    SplitIsFormed(text);
    assert IsLine(Lines(text)[i]) && BreaksAtEnd(body);
    BreaksAtEndOf(body, Indent(body));
    DeclaredIsSuffix(TrimLeft(body));
    var raw := Declared(TrimLeft(body)).value.raw;
    BreaksAtEndOf(raw, Indent(raw));
    TrimmedIsPlain(TrimLeft(raw));
    UnquotedIsPlain(TrimRight(TrimLeft(raw)));
  }

  lemma AssignedIsOverwritten(entries: seq<Entry>, u: Updates, key: string) returns (i: nat)
    requires key in AssignedNames(entries) && IsProper(key) && key in u.values
    ensures i < |entries| && OverwrittenAll(entries, u)[i] == Entry(key, Some(NewValue(u, key)))
  {
    i :| 0 <= i < |entries| && entries[i].value.Some? && entries[i].name == key;
    assert OverwrittenAll(entries, u)[i] == Overwritten(entries[i], u);
  }

  lemma MissingIsNew(keys: seq<string>, u: Updates, key: string) returns (i: nat)
    requires Listed(keys, u) && key in keys
    ensures i < |keys| && key in u.values && NewEntries(keys, u)[i] == Entry(key, Some(NewValue(u, key)))
  {
    i :| 0 <= i < |keys| && keys[i] == key;
    assert keys[i] in u.values;
  }

  lemma NoyraIsProper(u: Updates, key: string)
    requires IsDict(u) && ProperUpdates(u) && key in u.values && IsNoyra(key)
    ensures key in u.keys && IsProper(key)
  {
    assert key in u.keys;
    var j :| 0 <= j < |u.keys| && u.keys[j] == key;
    assert IsProper(u.keys[j]);
  }

  /** The requested value of a NOYRA variable is among the requested entries. */
  lemma ValueIsRequested(entries: seq<Entry>, u: Updates, key: string) returns (i: nat)
    requires IsDict(u) && IsProper(key) && key in u.keys && key in u.values && IsNoyra(key)
    ensures i < |RequestedOf(entries, u)| && RequestedOf(entries, u)[i] == Entry(key, Some(NewValue(u, key)))
  {
    var names := AssignedNames(entries);
    MissingAreListed(u, names);
    if key in names {
      i := AssignedIsOverwritten(entries, u, key);
    } else {
      MissingKeys(u.keys, names);
      i := MissingIsNew(Missing(u.keys, names), u, key);
      i := |entries| + i;
    }
  }

  /** So a value with a line break inside is not what any text parses to. */
  lemma BrokenValueIsLost(text: string, updated: string, u: Updates)
    requires IsDict(u) && ProperUpdates(u) && TidyUpdates(u) && !PlainUpdates(u)
    ensures Parse(updated) != Requested(text, u)
  {
    var key :| key in u.values && IsNoyra(key) && !(Plain(key) && Plain(ValueOf(u, key)));
    NoyraIsProper(u, key);
    WordIsPlain(key);
    var i := ValueIsRequested(Parse(text), u, key);
    if Parse(updated) == Requested(text, u) {
      ParsedIsPlain(updated, i);
    }
  }

  // ---- The harm done -------------------------------------------------------------------------------------

  const VERTICAL_TAB := '\U{000B}'

  lemma TabLine(a: string)
    requires Plain(a)
    ensures IsLine(Line(a + [VERTICAL_TAB], "")) && OddEnded(Line(a + [VERTICAL_TAB], ""))
    ensures Lines(a + [VERTICAL_TAB]) == [Line(a + [VERTICAL_TAB], "")]
  {
    var body := a + [VERTICAL_TAB];
    assert body[..|body| - 1] == a;
    OddAlone(body);
  }

  lemma TabLines(a: string, b: string)
    requires Plain(a) && Plain(b) && b != ""
    ensures Lines(a + ([VERTICAL_TAB] + b)) == [Line(a + [VERTICAL_TAB], ""), Line(b, "")]
  {
    TabLine(a);
    OneLine(Line(b, ""));
    assert TextOf(Line(b, "")) == b;
    LinesOfBoth(a + [VERTICAL_TAB], b);
    assert a + [VERTICAL_TAB] + b == a + ([VERTICAL_TAB] + b);
  }

  lemma UpdateOfTwo(a: Line, b: Line, u: Updates, key: string, newline: string)
    requires u.keys == [key] && IsDict(u) && Target(a.body) == Some(key) && Target(b.body).None?
    ensures Listed(Missing(u.keys, Seen([a, b], u)), u)
    ensures UpdatedLines([a, b], u, newline) == [UpdateLine(a, u), b]
  {
    var lines := [a, b];
    assert key in u.keys;
    assert Hits(lines[0], u) && Target(lines[0].body) == Some(key);
    assert Finds(lines, u, key);
    FindsIsSeen(lines, u, key);
    assert u.keys[1..] == [];
    assert Missing(u.keys, Seen(lines, u)) == [];
  }

  lemma JoinOfTwo(a: string, b: string)
    ensures Join([Line(a, ""), Line(b, "")]) == a + b
  {
    var lines := [Line(a, ""), Line(b, "")];
    assert lines[1..] == [Line(b, "")] && lines[1..][1..] == [];
    assert Join(lines[1..]) == b + ("" + "") == b;
    assert "" + b == b;
  }

  lemma RowUpdates(key: string, raw: string, u: Updates)
    requires IsProper(key) && key in u.values
    ensures var line := Line(key + ("=" + raw), "");
            Target(line.body) == Some(key) && UpdateLine(line, u) == Line(key + ("=" + ValueOf(u, key)), "")
  {
    var body := key + ("=" + raw);
    WrittenIsRead("", key, raw);
    assert "" + body == body;
    assert body[..0] + (key + ("=" + ValueOf(u, key))) == key + ("=" + ValueOf(u, key));
  }

  lemma TabText(key: string, prior: string, next: string)
    requires IsProper(key) && Plain(prior) && Plain(next) && next != ""
    ensures Lines(key + ("=" + (prior + ([VERTICAL_TAB] + next))))
            == [Line(key + ("=" + (prior + [VERTICAL_TAB])), ""), Line(next, "")]
  {
    WordIsPlain(key);
    PlainJoin("=", prior);
    PlainJoin(key, "=" + prior);
    TabLines(key + ("=" + prior), next);
    assert key + ("=" + prior) + ([VERTICAL_TAB] + next) == key + ("=" + (prior + ([VERTICAL_TAB] + next)));
    assert key + ("=" + prior) + [VERTICAL_TAB] == key + ("=" + (prior + [VERTICAL_TAB]));
  }

  /** A vertical tab ends a line when the text is split, but is dropped with the old value, so the next line
      becomes part of the new value. */
  lemma VerticalTabSwallowsLine(key: string, prior: string, u: Updates, next: string)
    requires IsProper(key) && Plain(prior) && Plain(next) && next != "" && Target(next).None?
    requires IsDict(u) && u.keys == [key]
    ensures var text := key + ("=" + (prior + ([VERTICAL_TAB] + next)));
            |Parse(text)| == 2 && Update(text, u) == key + ("=" + ValueOf(u, key)) + next
  {
    assert key in u.keys;
    var text := key + ("=" + (prior + ([VERTICAL_TAB] + next)));
    TabText(key, prior, next);
    RowUpdates(key, prior + [VERTICAL_TAB], u);
    UpdateOfTwo(Line(key + ("=" + (prior + [VERTICAL_TAB])), ""), Line(next, ""), u, key, NewLine(text));
    JoinOfTwo(key + ("=" + ValueOf(u, key)), next);
  }

  lemma TabAlone(front: string, key: string, u: Updates)
    requires Plain(front) && Target(front + [VERTICAL_TAB]).None? && u.keys == [key] && IsNoyra(key)
    ensures var lines := Lines(front + [VERTICAL_TAB]);
            && lines == [Line(front + [VERTICAL_TAB], "")]
            && EndsOddly(lines, u)
            && UpdateLines(lines, u) == lines
            && Missing(u.keys, Seen(lines, u)) == [key]
  {
    var line := Line(front + [VERTICAL_TAB], "");
    TabLine(front);
    assert !Hits(line, u) && UpdateLines([line], u) == [line];
    assert [line][..0] == [] && Seen([line], u) == {};
    assert u.keys[1..] == [] && Missing(u.keys, {}) == [key];
  }

  /** It does not count as a line break when something is added after it, so a blank line appears. */
  lemma VerticalTabAddsEntry(front: string, key: string, u: Updates)
    requires Plain(front) && Target(front + [VERTICAL_TAB]).None?
    requires IsProper(key) && IsDict(u) && u.keys == [key] && PlainUpdates(u)
    ensures var text := front + [VERTICAL_TAB];
            && |Parse(text)| == 1
            && Parse(Update(text, u)) == Parse(text) + [Entry("", None), Entry(key, Some(NewValue(u, key)))]
  {
    var text := front + [VERTICAL_TAB];
    assert key in u.keys && key in u.values;
    TabAlone(front, key, u);
    BlankAppears(text, u);
    JoinOfLines(text);
    TabEntries(Line(text, ""), key, u, NewLine(text));
  }

  lemma TabEntries(line: Line, key: string, u: Updates, newline: string)
    requires key in u.values && IsProper(key)
    ensures EntriesOf([line] + ([Line("", newline)] + Added([key], u, newline)))
            == EntriesOf([line]) + [Entry("", None), Entry(key, Some(NewValue(u, key)))]
  {
    var blank, added := [Line("", newline)], Added([key], u, newline);
    EntriesOfBoth([line], blank + added);
    EntriesOfBoth(blank, added);
    EntriesOfAdded([key], u, newline);
    BodyIsNotBlank(key);
    assert EntriesOf(blank) == [Entry("", None)];
    assert NewEntries([key], u) == [Entry(key, Some(NewValue(u, key)))];
  }

  // ---- The two operations --------------------------------------------------------------------------------

  /** `line.rstrip("\r\n")`. */
  function Stripped(s: string): string {
    if s == "" || (s[|s| - 1] != '\r' && s[|s| - 1] != '\n') then s else Stripped(s[..|s| - 1])
  }

  lemma StrippedOnce(s: string, c: char)
    requires c == '\r' || c == '\n'
    ensures Stripped(s + [c]) == Stripped(s)
  {
    assert (s + [c])[..|s + [c]| - 1] == s;
  }

  /** A split line has one line break at most, so stripping it is dropping its ending. */
  lemma LineStrips(line: Line)
    requires IsLine(line)
    ensures Stripped(TextOf(line)) == line.body
  {
    var body := line.body;
    assert Stripped(body) == body;
    if line.ending == "" {
      assert TextOf(line) == body;
    } else if line.ending == "\r\n" {
      assert TextOf(line) == body + ['\r'] + ['\n'];
      StrippedOnce(body, '\r');
      StrippedOnce(body + ['\r'], '\n');
    } else {
      assert TextOf(line) == body + [line.ending[0]];
      StrippedOnce(body, line.ending[0]);
    }
  }

  lemma {:induction false} LinesOfAt(ss: seq<string>, i: nat)
    requires i < |ss|
    ensures LinesOf(ss)[i] == LineOf(ss[i])
  {
    if i > 0 {
      LinesOfAt(ss[1..], i - 1);
    }
  }

  lemma ParseAt(text: string, i: nat)
    requires i < |SplitKeep(text)|
    ensures Parse(text)[i] == EntryOf(Stripped(SplitKeep(text)[i]))
  {
    var s := SplitKeep(text)[i];
    SplitIsFormed(text);
    LinesOfAt(SplitKeep(text), i);
    assert Lines(text)[i] == LineOf(s) && IsLine(LineOf(s));
    LineRejoins(s);
    LineStrips(LineOf(s));
  }

  function Prefix(entries: seq<Entry>, i: nat): seq<Entry> {
    if i < |entries| then entries[..i] else entries
  }

  lemma PrefixNext(entries: seq<Entry>, i: nat)
    requires i < |entries|
    ensures Prefix(entries, i + 1) == Prefix(entries, i) + [entries[i]]
  {
    assert entries[..i + 1] == entries[..i] + [entries[i]];
    assert i + 1 == |entries| ==> entries[..i + 1] == entries;
  }

  lemma ParseNext(text: string, i: nat)
    requires i < |SplitKeep(text)|
    ensures Prefix(Parse(text), i + 1) == Prefix(Parse(text), i) + [EntryOf(Stripped(SplitKeep(text)[i]))]
  {
    ParseAt(text, i);
    PrefixNext(Parse(text), i);
  }

  method ParseEnvFile(text: string) returns (r: seq<Entry>)
    ensures r == Parse(text)
  {
    var lines := SplitKeep(text);
    r := [];
    for i := 0 to |lines|
      invariant r == Prefix(Parse(text), i)
    {
      ParseNext(text, i);
      var body := Stripped(lines[i]);
      r := r + [EntryOf(body)];
    }
  }

  /** The texts of lines. */
  function Texts(lines: seq<Line>): (r: seq<string>)
    ensures |r| == |lines|
    ensures forall i | 0 <= i < |lines| :: r[i] == lines[i].body + lines[i].ending
  {
    seq(|lines|, i requires 0 <= i < |lines| => lines[i].body + lines[i].ending)
  }

  lemma {:induction false} ConcatOfTexts(lines: seq<Line>)
    ensures Concat(Texts(lines)) == Join(lines)
  {
    if lines != [] {
      ConcatOfTexts(lines[1..]);
      assert Texts(lines)[1..] == Texts(lines[1..]);
    }
  }

  lemma {:induction false} JoinOfBoth(a: seq<Line>, b: seq<Line>)
    ensures Join(a + b) == Join(a) + Join(b)
  {
    if a == [] {
      assert a + b == b;
    } else {
      assert (a + b)[1..] == a[1..] + b;
      JoinOfBoth(a[1..], b);
    }
  }

  lemma JoinOfLast(lines: seq<Line>, line: Line)
    ensures Join(lines + [line]) == Join(lines) + (line.body + line.ending)
  {
    JoinOfBoth(lines, [line]);
    assert [line][1..] == [];
  }

  lemma JoinOfExtended(front: seq<Line>, last: Line, newline: string)
    ensures Join(front + [last.(ending := last.ending + newline)]) == Join(front + [last]) + newline
  {
    var longer := last.(ending := last.ending + newline);
    JoinOfLast(front, last);
    JoinOfLast(front, longer);
    assert longer.body + longer.ending == last.body + last.ending + newline;
  }

  predicate IsEnded(s: string) {
    s != "" && (s[|s| - 1] == '\n' || s[|s| - 1] == '\r')
  }

  /** What goes between the old text and the added rows. */
  function Separator(output: seq<string>, newline: string): string {
    if output != [] && !IsEnded(output[|output| - 1]) then newline else ""
  }

  lemma JoinOfClosed(lines: seq<Line>, newline: string)
    ensures Join(Closed(lines, newline)) == Join(lines) + Separator(Texts(lines), newline)
  {
    var n := |lines| - 1;
    if lines == [] || !IsOpen(lines[n]) {
      assert Closed(lines, newline) == lines;
    } else {
      var front, last := lines[..n], lines[n];
      assert lines == front + [last];
      assert Closed(lines, newline) == front + [last.(ending := last.ending + newline)];
      JoinOfExtended(front, last, newline);
    }
  }

  /** `newline.join(rows) + newline` for the missing keys. */
  function Rows(keys: seq<string>, u: Updates, newline: string): string
    requires Listed(keys, u)
  {
    if keys == [] then newline
    else
      var row := keys[0] + ("=" + ValueOf(u, keys[0]));
      if |keys| == 1 then row + newline else row + (newline + Rows(keys[1..], u, newline))
  }

  lemma {:induction false} RowsAreAdded(keys: seq<string>, u: Updates, newline: string)
    requires Listed(keys, u) && keys != []
    ensures Rows(keys, u, newline) == Join(Added(keys, u, newline))
  {
    var lines := Added(keys, u, newline);
    assert lines[1..] == Added(keys[1..], u, newline);
    if |keys| > 1 {
      RowsAreAdded(keys[1..], u, newline);
    } else {
      assert Join(lines[1..]) == "";
    }
  }

  lemma TextsNext(lines: seq<Line>, i: nat, u: Updates)
    requires i < |lines|
    ensures var line := UpdateLine(lines[i], u);
            Texts(UpdateLines(lines[..i + 1], u)) == Texts(UpdateLines(lines[..i], u)) + [line.body + line.ending]
  {
  }

  lemma SeenNext(lines: seq<Line>, i: nat, u: Updates)
    requires i < |lines|
    ensures Seen(lines[..i + 1], u)
            == if Hits(lines[i], u) then Seen(lines[..i], u) + {Target(lines[i].body).value} else Seen(lines[..i], u)
  {
    assert lines[..i + 1][..i] == lines[..i];
  }

  /** The loop over the lines. */
  method UpdateTexts(text: string, u: Updates) returns (output: seq<string>, seen: set<string>)
    ensures output == Texts(UpdateLines(Lines(text), u)) && seen == Seen(Lines(text), u)
  {
    var lines := SplitKeep(text);
    ghost var all := Lines(text);
    output, seen := [], {};
    for i := 0 to |lines|
      invariant output == Texts(UpdateLines(all[..i], u))
      invariant seen == Seen(all[..i], u)
    {
      LinesOfAt(lines, i);
      LineRejoins(lines[i]);
      TextsNext(all, i, u);
      SeenNext(all, i, u);
      var line := LineOf(lines[i]);
      assert line == all[i];
      var target := Target(line.body);
      if target.Some? && target.value in u.values {
        var key := target.value;
        seen := seen + {key};
        output := output + [line.body[..Indent(line.body)] + (key + ("=" + ValueOf(u, key))) + line.ending];
      } else {
        output := output + [lines[i]];
      }
    }
    assert all[..|lines|] == all;
  }

  lemma UpdatedText(lines: seq<Line>, missing: seq<string>, u: Updates, newline: string)
    requires Listed(missing, u) && missing != []
    ensures Join(Closed(lines, newline) + Added(missing, u, newline))
            == Concat(Texts(lines)) + Separator(Texts(lines), newline) + Rows(missing, u, newline)
  {
    ConcatOfTexts(lines);
    JoinOfClosed(lines, newline);
    RowsAreAdded(missing, u, newline);
    JoinOfBoth(Closed(lines, newline), Added(missing, u, newline));
  }

  lemma UpdateIs(text: string, u: Updates)
    requires IsDict(u)
    ensures var updated, newline := UpdateLines(Lines(text), u), NewLine(text);
            var missing := Missing(u.keys, Seen(Lines(text), u));
            && Listed(missing, u)
            && Update(text, u)
               == if missing == [] then Concat(Texts(updated))
                  else Concat(Texts(updated)) + Separator(Texts(updated), newline) + Rows(missing, u, newline)
  {
    var updated, missing := UpdateLines(Lines(text), u), Missing(u.keys, Seen(Lines(text), u));
    MissingAreListed(u, Seen(Lines(text), u));
    ConcatOfTexts(updated);
    if missing != [] {
      UpdatedText(updated, missing, u, NewLine(text));
    }
  }

  /** What an updated line is: its indentation, the variable, an equals sign and the requested value, with the line
      ending it had; any other line is kept. */
  lemma UpdatedLineIs(line: Line, u: Updates, front: string, lead: string, key: string, gap: string, raw: string)
    requires Spelled(line.body, front, lead, key, gap, raw)
    ensures UpdateLine(line, u) ==
              if IsProper(key) && key in u.values
              then Line(front + (key + ("=" + (match u.values[key] case Some(v) => v case None => ""))), line.ending)
              else line
  {
    SpelledIsDeclared(line.body, front, lead, key, gap, raw);
    TargetIsDeclared(line.body, key);
    if Target(line.body).Some? {
      TargetIsDeclared(line.body, Target(line.body).value);
    }
    assert line.body[..|front|] == front;
  }

  lemma OtherLineIsKept(line: Line, u: Updates)
    requires forall front, lead, key, gap, raw :: !Spelled(line.body, front, lead, key, gap, raw)
    ensures UpdateLine(line, u) == line
  {
    if Target(line.body).Some? {
      TargetIff(line.body, Target(line.body).value);
    }
  }

  lemma EndedAfter(front: string, text: string)
    requires text != ""
    ensures front + text != "" && IsEnded(front + text) == IsEnded(text)
  {
    assert (front + text)[|front + text| - 1] == text[|text| - 1];
  }

  lemma LastOfJoin(front: seq<Line>, last: Line)
    requires TextOf(last) != ""
    ensures Join(front + [last]) != "" && IsEnded(Join(front + [last])) == IsEnded(TextOf(last))
  {
    JoinOfLast(front, last);
    EndedAfter(Join(front), TextOf(last));
  }

  lemma SeparatorIs(lines: seq<Line>, newline: string)
    requires lines != [] ==> TextOf(lines[|lines| - 1]) != ""
    ensures Separator(Texts(lines), newline)
            == if Join(lines) == "" || Join(lines)[|Join(lines)| - 1] in {'\n', '\r'} then "" else newline
  {
    if lines != [] {
      var n := |lines| - 1;
      assert lines == lines[..n] + [lines[n]];
      LastOfJoin(lines[..n], lines[n]);
    }
  }

  lemma UpdatedIsText(line: Line, u: Updates)
    requires IsLine(line)
    ensures TextOf(UpdateLine(line, u)) != ""
  {
  }

  lemma NewLineIs(text: string)
    ensures NewLine(text) == if exists i | 0 <= i < |text| - 1 :: text[i] == '\r' && text[i + 1] == '\n'
                             then "\r\n" else "\n"
  {
  }

  /** What is appended: a line break if the text does not end in one, and a row for each missing variable, with the
      line break of the text. */
  lemma AppendedIs(text: string, u: Updates)
    requires IsDict(u)
    ensures var front := Join(UpdateLines(Lines(text), u));
            var missing, newline := Missing(u.keys, Seen(Lines(text), u)), NewLine(text);
            var ended := front == "" || front[|front| - 1] in {'\n', '\r'};
            && Listed(missing, u)
            && Update(text, u) == if missing == [] then front
                                  else front + (if ended then "" else newline) + Join(Added(missing, u, newline))
  {
    var updated, missing := UpdateLines(Lines(text), u), Missing(u.keys, Seen(Lines(text), u));
    MissingAreListed(u, Seen(Lines(text), u));
    if missing != [] {
      JoinOfBoth(Closed(updated, NewLine(text)), Added(missing, u, NewLine(text)));
      JoinOfClosed(updated, NewLine(text));
      SplitIsFormed(text);
      if updated != [] {
        UpdatedIsText(Lines(text)[|updated| - 1], u);
      }
      SeparatorIs(updated, NewLine(text));
    }
  }

  /** `update_env_text` writes the updated lines. */
  method UpdateEnvText(text: string, u: Updates) returns (r: string)
    requires IsDict(u)
    ensures r == Update(text, u)
  {
    var output, seen := UpdateTexts(text, u);
    var newline := NewLine(text);
    var missing := Missing(u.keys, seen);
    MissingAreListed(u, seen);
    UpdateIs(text, u);
    if missing == [] {
      return Concat(output);
    }
    return Concat(output) + Separator(output, newline) + Rows(missing, u, newline);
  }
}
