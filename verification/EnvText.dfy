/** The lines and assignments of an environment file (src/noyra/deployment_setup.py).

    The regular expressions are written out as the scanners they denote; white space is Python's. */
module EnvText {
  import opened Wrappers
  import opened Text

  // ---- Scanning --------------------------------------------------------------------------------------

  /** The number of white-space characters at the front. */
  function Indent(s: string): (n: nat)
    ensures n <= |s|
  {
    if s == "" || !IsSpace(s[0]) then 0 else 1 + Indent(s[1..])
  }

  function TrimLeft(s: string): string {
    s[Indent(s)..]
  }

  function TrimRight(s: string): string {
    if s == "" || !IsSpace(s[|s| - 1]) then s else TrimRight(s[..|s| - 1])
  }

  predicate IsLetter(c: char) {
    'A' <= c <= 'Z' || 'a' <= c <= 'z' || c == '_'
  }

  predicate IsWordChar(c: char) {
    IsLetter(c) || '0' <= c <= '9'
  }

  /** The number of word characters at the front. */
  function WordLength(s: string): (n: nat)
    ensures n <= |s|
  {
    if s == "" || !IsWordChar(s[0]) then 0 else 1 + WordLength(s[1..])
  }

  datatype Assignment = Assignment(key: string, raw: string)

  /** `name = raw` at the front of the text. */
  function Assigned(t: string): Option<Assignment> {
    var n := WordLength(t);
    if n == 0 || !IsLetter(t[0]) then None
    else
      var rest := TrimLeft(t[n..]);
      if rest == "" || rest[0] != '=' then None else Some(Assignment(t[..n], rest[1..]))
  }

  predicate HasExport(t: string) {
    |t| > 6 && t[..6] == "export" && IsSpace(t[6])
  }

  /** An assignment, with `export` before it or not. */
  function Declared(t: string): Option<Assignment> {
    if HasExport(t) && Assigned(TrimLeft(t[6..])).Some? then Assigned(TrimLeft(t[6..])) else Assigned(t)
  }

  function Unquoted(v: string): string {
    if |v| >= 2 && v[0] == v[|v| - 1] && (v[0] == '"' || v[0] == '\'') then v[1..|v| - 1] else v
  }

  /** An assignment and its value, or a line kept as it is. */
  datatype Entry = Entry(name: string, value: Option<string>)

  function EntryOf(body: string): Entry {
    match Declared(TrimLeft(body))
    case Some(a) => Entry(a.key, Some(Unquoted(TrimRight(TrimLeft(a.raw)))))
    case None => Entry(body, None)
  }

  predicate IsProper(key: string) {
    |key| > 6 && key[..6] == "NOYRA_" && forall i | 0 <= i < |key| :: IsWordChar(key[i])
  }

  /** The NOYRA variable a line assigns, if it does. */
  function Target(body: string): Option<string> {
    var t := TrimLeft(body);
    var a := Assigned(if HasExport(t) then TrimLeft(t[6..]) else t);
    if a.Some? && IsProper(a.value.key) then Some(a.value.key) else None
  }

  lemma {:induction false} WordLengthOf(word: string, rest: string)
    requires forall i | 0 <= i < |word| :: IsWordChar(word[i])
    requires rest == "" || !IsWordChar(rest[0])
    ensures WordLength(word + rest) == |word|
  {
    if word == "" {
      assert word + rest == rest;
    } else {
      assert (word + rest)[1..] == word[1..] + rest;
      WordLengthOf(word[1..], rest);
    }
  }

  lemma {:induction false} IndentOf(space: string, rest: string)
    requires forall i | 0 <= i < |space| :: IsSpace(space[i])
    requires rest == "" || !IsSpace(rest[0])
    ensures Indent(space + rest) == |space| && TrimLeft(space + rest) == rest
  {
    if space == "" {
      assert space + rest == rest;
    } else {
      assert (space + rest)[1..] == space[1..] + rest;
      IndentOf(space[1..], rest);
    }
  }

  lemma {:induction false} IndentIsSpace(s: string)
    ensures forall i | 0 <= i < Indent(s) :: IsSpace(s[i])
  {
    if s != "" && IsSpace(s[0]) {
      IndentIsSpace(s[1..]);
      assert forall i | 1 <= i < |s| :: s[i] == s[1..][i - 1];
    }
  }

  /** The two expressions agree: a line assigns a NOYRA variable for one exactly when it does for the
      other. */
  lemma TargetIsDeclared(body: string, key: string)
    ensures Target(body) == Some(key)
        <==> Declared(TrimLeft(body)).Some? && Declared(TrimLeft(body)).value.key == key && IsProper(key)
  {
    var t := TrimLeft(body);
    if HasExport(t) && Assigned(TrimLeft(t[6..])).None? {
      WordLengthOf("export", t[6..]);
      assert t == "export" + t[6..];
      if Assigned(t).Some? {
        assert Assigned(t).value.key == "export";
      }
    }
  }

  /** A line written for a variable is read back as that variable with that value. */
  lemma WrittenIsRead(space: string, key: string, value: string)
    requires forall i | 0 <= i < |space| :: IsSpace(space[i])
    requires IsProper(key)
    ensures var body := space + (key + ("=" + value));
            && Indent(body) == |space|
            && Target(body) == Some(key)
            && EntryOf(body) == Entry(key, Some(Unquoted(TrimRight(TrimLeft(value)))))
  {
    var line := key + ("=" + value);
    IndentOf(space, line);
    WordLengthOf(key, "=" + value);
    assert line[0] == key[0] == key[..6][0] == 'N';
    assert line[|key|..] == "=" + value && ("=" + value)[1..] == value;
    IndentOf("", "=" + value);
    assert "" + ("=" + value) == "=" + value;
    assert line[..|key|] == key;
    assert !HasExport(line);
    assert Assigned(line) == Some(Assignment(key, value));
  }

  // ---- The expressions, as what they match --------------------------------------------------------------

  predicate IsSpaces(s: string) {
    forall i | 0 <= i < |s| :: IsSpace(s[i])
  }

  predicate IsName(s: string) {
    s != "" && IsLetter(s[0]) && forall i | 0 <= i < |s| :: IsWordChar(s[i])
  }

  /** `export` and at least one white-space character, or nothing. */
  predicate IsLead(s: string) {
    s == "" || (|s| > 6 && s[..6] == "export" && IsSpaces(s[6..]))
  }

  /** The parts of an assignment: white space, perhaps `export` and more of it, a name, white space, an equals sign
      and the rest. */
  ghost predicate Spelled(body: string, front: string, lead: string, key: string, gap: string, raw: string) {
    && body == front + (lead + (key + (gap + ("=" + raw))))
    && IsSpaces(front) && IsLead(lead) && IsName(key) && IsSpaces(gap)
  }

  lemma LetterIsNoSpace(c: char)
    requires IsWordChar(c) || c == '='
    ensures !IsSpace(c)
  {
  }

  /** A name, white space and an equals sign are read as an assignment. */
  lemma NameIsAssigned(key: string, gap: string, raw: string)
    requires IsName(key) && IsSpaces(gap)
    ensures Assigned(key + (gap + ("=" + raw))) == Some(Assignment(key, raw))
  {
    var t := key + (gap + ("=" + raw));
    var rest := gap + ("=" + raw);
    assert !IsWordChar(rest[0]) by {
      assert rest[0] == if gap == "" then '=' else gap[0];
      if IsWordChar(rest[0]) {
        LetterIsNoSpace(rest[0]);
      }
    }
    WordLengthOf(key, rest);
    assert t[..|key|] == key && t[|key|..] == rest && t[0] == key[0];
    IndentOf(gap, "=" + raw);
    assert ("=" + raw)[1..] == raw;
  }

  lemma {:induction false} WordIsWord(s: string)
    ensures forall i | 0 <= i < WordLength(s) :: IsWordChar(s[i])
  {
    if s != "" && IsWordChar(s[0]) {
      WordIsWord(s[1..]);
      assert forall i | 1 <= i < |s| :: s[i] == s[1..][i - 1];
    }
  }

  lemma GapIsSpace(rest: string) returns (gap: string)
    requires TrimLeft(rest) != "" && TrimLeft(rest)[0] == '='
    ensures IsSpaces(gap) && rest == gap + ("=" + TrimLeft(rest)[1..])
  {
    IndentIsSpace(rest);
    gap := rest[..Indent(rest)];
    var tail := TrimLeft(rest);
    assert tail == [tail[0]] + tail[1..];
    assert rest == gap + tail;
  }

  /** And nothing else is. */
  lemma AssignedIsName(t: string) returns (gap: string)
    requires Assigned(t).Some?
    ensures var a := Assigned(t).value;
            IsName(a.key) && IsSpaces(gap) && t == a.key + (gap + ("=" + a.raw))
  {
    var n := WordLength(t);
    WordIsWord(t);
    gap := GapIsSpace(t[n..]);
    assert t == t[..n] + t[n..];
  }

  lemma LeadIsExport(lead: string, key: string, tail: string)
    requires IsLead(lead) && lead != "" && IsName(key)
    ensures var t := lead + (key + tail); HasExport(t) && TrimLeft(t[6..]) == key + tail
  {
    var t := lead + (key + tail);
    assert t[..6] == lead[..6] && t[6] == lead[6] == lead[6..][0];
    assert t[6..] == lead[6..] + (key + tail);
    LetterIsNoSpace(key[0]);
    IndentOf(lead[6..], key + tail);
  }

  /** `export` in front of a name that is assigned is not the name itself. */
  lemma ExportIsNotAssigned(t: string)
    requires HasExport(t) && Assigned(TrimLeft(t[6..])).Some?
    ensures Assigned(t).None?
  {
    assert !IsWordChar(t[6]) by {
      if IsWordChar(t[6]) {
        LetterIsNoSpace(t[6]);
      }
    }
    WordLengthOf("export", t[6..]);
    assert t == "export" + t[6..];
  }

  lemma SpelledIsDeclared(body: string, front: string, lead: string, key: string, gap: string, raw: string)
    requires Spelled(body, front, lead, key, gap, raw)
    ensures Declared(TrimLeft(body)) == Some(Assignment(key, raw)) && Indent(body) == |front|
  {
    var tail := gap + ("=" + raw);
    var t := lead + (key + tail);
    NameIsAssigned(key, gap, raw);
    LetterIsNoSpace(key[0]);
    assert !IsSpace(t[0]) by {
      if lead != "" {
        assert t[0] == lead[..6][0] == 'e';
      }
    }
    IndentOf(front, t);
    if lead != "" {
      LeadIsExport(lead, key, tail);
    } else {
      assert t == key + tail;
      if HasExport(t) && Assigned(TrimLeft(t[6..])).Some? {
        ExportIsNotAssigned(t);
      }
    }
  }

  lemma ExportIsLead(t: string) returns (lead: string)
    requires HasExport(t)
    ensures IsLead(lead) && t == lead + TrimLeft(t[6..])
  {
    var rest := t[6..];
    IndentIsSpace(rest);
    var space := rest[..Indent(rest)];
    assert rest == space + TrimLeft(rest);
    lead := t[..6] + space;
    assert lead[..6] == t[..6] && lead[6..] == space;
    assert rest[0] == t[6];
  }

  lemma IndentIsFront(body: string) returns (front: string)
    ensures IsSpaces(front) && body == front + TrimLeft(body)
  {
    IndentIsSpace(body);
    front := body[..Indent(body)];
  }

  lemma DeclaredIsSpelled(body: string) returns (front: string, lead: string, gap: string)
    requires Declared(TrimLeft(body)).Some?
    ensures var a := Declared(TrimLeft(body)).value; Spelled(body, front, lead, a.key, gap, a.raw)
  {
    var t := TrimLeft(body);
    front := IndentIsFront(body);
    if HasExport(t) && Assigned(TrimLeft(t[6..])).Some? {
      gap := AssignedIsName(TrimLeft(t[6..]));
      lead := ExportIsLead(t);
    } else {
      gap := AssignedIsName(t);
      lead := "";
      assert "" + t == t;
    }
  }

  /** The parser's expression matches exactly the assignments, and finds their name and the rest; a line that is not
      one is kept. */
  lemma EntryIff(body: string, key: string, raw: string)
    ensures (exists front, lead, gap :: Spelled(body, front, lead, key, gap, raw))
            <==> Declared(TrimLeft(body)) == Some(Assignment(key, raw))
    ensures (exists front, lead, gap :: Spelled(body, front, lead, key, gap, raw))
            ==> EntryOf(body) == Entry(key, Some(Unquoted(TrimRight(TrimLeft(raw)))))
    ensures EntryOf(body).value.None? ==>
              && EntryOf(body).name == body
              && forall front, lead, gap :: !Spelled(body, front, lead, key, gap, raw)
  {
    if Declared(TrimLeft(body)) == Some(Assignment(key, raw)) {
      var front, lead, gap := DeclaredIsSpelled(body);
      assert Spelled(body, front, lead, key, gap, raw);
    }
    forall front, lead, gap | Spelled(body, front, lead, key, gap, raw)
      ensures Declared(TrimLeft(body)) == Some(Assignment(key, raw))
    {
      SpelledIsDeclared(body, front, lead, key, gap, raw);
    }
  }

  /** The updater's expression matches the assignments of NOYRA variables. */
  lemma TargetIff(body: string, key: string)
    ensures Target(body) == Some(key) <==>
              && IsProper(key)
              && exists front, lead, gap, raw :: Spelled(body, front, lead, key, gap, raw)
  {
    TargetIsDeclared(body, key);
    if Declared(TrimLeft(body)).Some? && Declared(TrimLeft(body)).value.key == key {
      var front, lead, gap := DeclaredIsSpelled(body);
      assert Spelled(body, front, lead, key, gap, Declared(TrimLeft(body)).value.raw);
    }
    forall front, lead, gap, raw | Spelled(body, front, lead, key, gap, raw)
      ensures Declared(TrimLeft(body)) == Some(Assignment(key, raw))
    {
      SpelledIsDeclared(body, front, lead, key, gap, raw);
    }
  }

  lemma {:induction false} TrimRightOf(core: string, back: string)
    requires IsSpaces(back) && (core == "" || !IsSpace(core[|core| - 1]))
    ensures TrimRight(core + back) == core
  {
    if back == "" {
      assert core + back == core;
    } else {
      var n := |back| - 1;
      assert (core + back)[..|core| + n] == core + back[..n];
      TrimRightOf(core, back[..n]);
    }
  }

  /** What is read of a value: not the white space around it. */
  lemma TrimmedIs(front: string, core: string, back: string)
    requires IsSpaces(front) && IsSpaces(back)
    requires core == "" || (!IsSpace(core[0]) && !IsSpace(core[|core| - 1]))
    ensures TrimRight(TrimLeft(front + (core + back))) == core
  {
    if core == "" {
      assert front + (core + back) == (front + back) + "";
      IndentOf(front + back, "");
    } else {
      assert (core + back)[0] == core[0];
      IndentOf(front, core + back);
      TrimRightOf(core, back);
    }
  }

  /** Nor one pair of equal quotes around the rest; other text is read as it is. */
  lemma UnquotedIs(v: string)
    ensures Unquoted("\"" + v + "\"") == v && Unquoted("'" + v + "'") == v
    ensures (forall core :: v != "\"" + core + "\"" && v != "'" + core + "'") ==> Unquoted(v) == v
  {
    if Unquoted(v) != v {
      var core := v[1..|v| - 1];
      assert v == [v[0]] + core + [v[0]];
      assert v[0] == '"' ==> v == "\"" + core + "\"";
      assert v[0] == '\'' ==> v == "'" + core + "'";
    }
  }

  // ---- Lines -----------------------------------------------------------------------------------------

  datatype Line = Line(body: string, ending: string)

  function LineOf(s: string): Line {
    var n := |s|;
    if n > 1 && s[n - 2..] == "\r\n" then Line(s[..n - 2], "\r\n")
    else if n > 0 && s[n - 1] == '\n' then Line(s[..n - 1], "\n")
    else if n > 0 && s[n - 1] == '\r' then Line(s[..n - 1], "\r")
    else Line(s, "")
  }

  function LinesOf(ss: seq<string>): (lines: seq<Line>)
    ensures |lines| == |ss|
  {
    if ss == [] then [] else [LineOf(ss[0])] + LinesOf(ss[1..])
  }

  function Lines(text: string): seq<Line> {
    LinesOf(SplitKeep(text))
  }

  function Join(lines: seq<Line>): string {
    if lines == [] then "" else lines[0].body + (lines[0].ending + Join(lines[1..]))
  }

  /** A line break other than the usual ones. */
  predicate IsOdd(c: char) {
    IsBreak(c) && c != '\n' && c != '\r'
  }

  /** The line ends in such a break, which its body then holds. */
  predicate OddEnded(line: Line) {
    line.ending == "" && line.body != "" && IsOdd(line.body[|line.body| - 1])
  }

  /** A line as splitting yields it: a body without line breaks and one of the three usual ones, or none, or
      a body that is closed by an unusual one. */
  predicate IsLine(line: Line) {
    && line.ending in {"\r\n", "\n", "\r", ""}
    && (line.ending == "" ==> line.body != "")
    && (Plain(line.body) || (OddEnded(line) && Plain(line.body[..|line.body| - 1])))
  }

  predicate IsClosed(line: Line) {
    line.ending != "" || OddEnded(line)
  }

  /** The two are not taken for a carriage return and its line feed. */
  predicate NoPair(line: Line, next: Line) {
    !(line.ending == "\r" && next.body == "" && next.ending == "\n")
  }

  /** Two lines that are not split differently when written one after the other. */
  predicate Separate(line: Line, next: Line) {
    IsClosed(line) && NoPair(line, next)
  }

  predicate AllLines(lines: seq<Line>) {
    && (forall i | 0 <= i < |lines| :: IsLine(lines[i]))
    && (forall i | 0 < i < |lines| :: NoPair(lines[i - 1], lines[i]))
  }

  predicate Formed(lines: seq<Line>) {
    && (forall i | 0 <= i < |lines| :: IsLine(lines[i]))
    && (forall i | 0 < i < |lines| :: Separate(lines[i - 1], lines[i]))
  }

  /** The last characters decide. */
  lemma LineOfEnd(s: string)
    ensures var n := |s|;
            LineOf(s) == if n > 1 && s[n - 2] == '\r' && s[n - 1] == '\n' then Line(s[..n - 2], "\r\n")
                         else if n > 0 && (s[n - 1] == '\n' || s[n - 1] == '\r') then Line(s[..n - 1], [s[n - 1]])
                         else Line(s, "")
  {
    var n := |s|;
    if n > 1 {
      assert s[n - 2..][0] == s[n - 2] && s[n - 2..][1] == s[n - 1];
    }
  }

  lemma LongerCut(c: char, s: string, n: nat)
    requires n < |s|
    ensures ([c] + s)[..n + 1] == [c] + s[..n] && ([c] + s)[n + 1] == s[n]
  {
  }

  predicate EndsInPair(s: string) {
    |s| > 1 && s[|s| - 2] == '\r' && s[|s| - 1] == '\n'
  }

  lemma LineOfLonger(c: char, s: string)
    requires s != "" && !IsBreak(c)
    ensures LineOf([c] + s) == Line([c] + LineOf(s).body, LineOf(s).ending)
  {
    var t := [c] + s;
    LongerCut(c, s, |s| - 1);
    assert EndsInPair(t) == EndsInPair(s) by {
      if |s| > 1 {
        LongerCut(c, s, |s| - 2);
      }
    }
    LineOfEnd(s);
    LineOfEnd(t);
    if EndsInPair(s) {
      LongerCut(c, s, |s| - 2);
    }
  }

  lemma FormedFront(line: Line, lines: seq<Line>)
    requires IsLine(line) && Formed(lines)
    requires lines != [] ==> Separate(line, lines[0])
    ensures Formed([line] + lines)
  {
    var all := [line] + lines;
    assert forall i | 0 < i < |all| :: all[i] == lines[i - 1];
  }

  lemma FormedRest(lines: seq<Line>)
    requires lines != [] && Formed(lines)
    ensures Formed(lines[1..])
  {
  }

  lemma {:induction false} SplitIsNonempty(s: string)
    ensures forall i | 0 <= i < |SplitKeep(s)| :: SplitKeep(s)[i] != ""
  {
    if s == "" {
    } else if s[0] == '\r' && |s| > 1 && s[1] == '\n' {
      SplitIsNonempty(s[2..]);
    } else {
      SplitIsNonempty(s[1..]);
    }
  }

  function PrependLine(c: char, lines: seq<Line>): seq<Line> {
    if lines == [] then [Line([c], "")] else [Line([c] + lines[0].body, lines[0].ending)] + lines[1..]
  }

  predicate StartsPair(text: string) {
    |text| > 1 && text[0] == '\r' && text[1] == '\n'
  }

  /** The line a single break makes. */
  function BreakLine(c: char): Line {
    if IsOdd(c) then Line([c], "") else Line("", [c])
  }

  lemma LinesOfPair(rest: string)
    ensures Lines("\r\n" + rest) == [Line("", "\r\n")] + Lines(rest)
  {
    var text := "\r\n" + rest;
    assert text[2..] == rest;
    assert SplitKeep(text)[1..] == SplitKeep(rest);
    assert LineOf("\r\n") == Line("", "\r\n");
  }

  lemma LinesOfBreak(c: char, rest: string)
    requires IsBreak(c) && !StartsPair([c] + rest)
    ensures Lines([c] + rest) == [BreakLine(c)] + Lines(rest)
  {
    var text := [c] + rest;
    assert text[1..] == rest;
    assert SplitKeep(text) == [[c]] + SplitKeep(rest);
    assert LineOf([c]) == BreakLine(c);
  }

  lemma LinesOfPlain(c: char, rest: string)
    requires !IsBreak(c)
    ensures Lines([c] + rest) == PrependLine(c, Lines(rest))
  {
    var text := [c] + rest;
    assert text[1..] == rest;
    var tail := SplitKeep(rest);
    if tail != [] {
      SplitIsNonempty(rest);
      LineOfLonger(c, tail[0]);
      assert SplitKeep(text)[1..] == tail[1..];
    } else {
      assert SplitKeep(text) == [[c]];
      assert LineOf([c]) == Line([c], "");
    }
  }

  lemma LongerIsLine(c: char, line: Line)
    requires !IsBreak(c) && IsLine(line)
    ensures var longer := Line([c] + line.body, line.ending);
            IsLine(longer) && IsClosed(longer) == IsClosed(line)
  {
    var longer := Line([c] + line.body, line.ending);
    if line.body != "" {
      assert longer.body[|longer.body| - 1] == line.body[|line.body| - 1];
      assert longer.body[..|longer.body| - 1] == [c] + line.body[..|line.body| - 1];
    }
  }

  lemma PrependKeepsFormed(c: char, lines: seq<Line>)
    requires !IsBreak(c) && Formed(lines)
    ensures Formed(PrependLine(c, lines))
  {
    if lines == [] {
      FormedFront(Line([c], ""), []);
    } else {
      FormedRest(lines);
      LongerIsLine(c, lines[0]);
      if |lines| > 1 {
        assert Separate(lines[0], lines[1]);
      }
      FormedFront(Line([c] + lines[0].body, lines[0].ending), lines[1..]);
    }
  }

  /** The first line is an empty one that ends in a line feed. */
  predicate StartsWithLineFeed(lines: seq<Line>) {
    lines != [] && lines[0].body == "" && lines[0].ending == "\n"
  }

  /** Every text splits into well-formed lines. */
  lemma {:induction false} SplitIsFormed(text: string)
    ensures Formed(Lines(text))
    ensures StartsWithLineFeed(Lines(text)) ==> text[0] == '\n'
  {
    if text != "" {
      var c := text[0];
      assert text == [c] + text[1..];
      if StartsPair(text) {
        assert text == "\r\n" + text[2..];
        LinesOfPair(text[2..]);
        SplitIsFormed(text[2..]);
        FormedFront(Line("", "\r\n"), Lines(text[2..]));
      } else if IsBreak(c) {
        LinesOfBreak(c, text[1..]);
        SplitIsFormed(text[1..]);
        FormedFront(BreakLine(c), Lines(text[1..]));
      } else {
        LinesOfPlain(c, text[1..]);
        SplitIsFormed(text[1..]);
        PrependKeepsFormed(c, Lines(text[1..]));
      }
    }
  }

  lemma LineRejoins(s: string)
    ensures LineOf(s).body + LineOf(s).ending == s
  {
  }

  lemma {:induction false} LinesRejoin(ss: seq<string>)
    ensures Join(LinesOf(ss)) == Concat(ss)
  {
    if ss != [] {
      LineRejoins(ss[0]);
      LinesRejoin(ss[1..]);
      var line := LineOf(ss[0]);
      assert line.body + (line.ending + Concat(ss[1..])) == line.body + line.ending + Concat(ss[1..]);
    }
  }

  /** Splitting loses nothing. */
  lemma JoinOfLines(text: string)
    ensures Join(Lines(text)) == text
  {
    LinesRejoin(SplitKeep(text));
    SplitKeepsText(text);
  }

  lemma PrependBefore(c: char, lines: seq<Line>, more: seq<Line>)
    requires lines != []
    ensures PrependLine(c, lines + more) == PrependLine(c, lines) + more
  {
    assert (lines + more)[1..] == lines[1..] + more;
  }

  predicate EndsInBreak(s: string) {
    s != "" && IsBreak(s[|s| - 1])
  }

  lemma SomeLine(text: string)
    ensures text != "" <==> Lines(text) != []
  {
  }

  predicate PairAt(text: string, i: nat) {
    i + 1 < |text| && text[i] == '\r' && text[i + 1] == '\n'
  }

  /** The lines of the text from a position on. */
  function LinesFrom(text: string, i: nat): seq<Line>
    requires i <= |text|
    decreases |text| - i
  {
    if i == |text| then []
    else if PairAt(text, i) then [Line("", "\r\n")] + LinesFrom(text, i + 2)
    else if IsBreak(text[i]) then [BreakLine(text[i])] + LinesFrom(text, i + 1)
    else PrependLine(text[i], LinesFrom(text, i + 1))
  }

  lemma {:induction false} LinesFromIs(text: string, i: nat)
    requires i <= |text|
    ensures LinesFrom(text, i) == Lines(text[i..])
    decreases |text| - i
  {
    if i == |text| {
    } else if PairAt(text, i) {
      assert text[i..] == "\r\n" + text[i + 2..];
      LinesFromIs(text, i + 2);
      LinesOfPair(text[i + 2..]);
    } else {
      assert text[i..] == [text[i]] + text[i + 1..];
      LinesFromIs(text, i + 1);
      if IsBreak(text[i]) {
        LinesOfBreak(text[i], text[i + 1..]);
      } else {
        LinesOfPlain(text[i], text[i + 1..]);
      }
    }
  }

  predicate StartsWith(text: string, a: string) {
    |a| <= |text| && forall i | 0 <= i < |a| :: text[i] == a[i]
  }

  lemma FrontOfBoth(line: Line, lines: seq<Line>, more: seq<Line>)
    ensures [line] + (lines + more) == [line] + lines + more
  {
  }

  lemma SameAt(text: string, a: string, i: nat)
    requires StartsWith(text, a) && i < |a| && !PairAt(text, |a| - 1)
    ensures text[i] == a[i] && PairAt(text, i) == PairAt(a, i)
  {
    if i + 1 < |a| {
      assert text[i + 1] == a[i + 1];
    }
  }

  lemma PlainStays(text: string, a: string, more: seq<Line>, i: nat)
    requires i + 1 < |a| && i < |text| && text[i] == a[i] && !IsBreak(a[i])
    requires LinesFrom(text, i + 1) == LinesFrom(a, i + 1) + more
    ensures LinesFrom(text, i) == LinesFrom(a, i) + more
  {
    assert LinesFrom(a, i + 1) != [];
    PrependBefore(a[i], LinesFrom(a, i + 1), more);
  }

  lemma BreakStays(text: string, a: string, more: seq<Line>, i: nat)
    requires i < |a| && i < |text| && text[i] == a[i] && IsBreak(a[i]) && !PairAt(a, i) && !PairAt(text, i)
    requires LinesFrom(text, i + 1) == LinesFrom(a, i + 1) + more
    ensures LinesFrom(text, i) == LinesFrom(a, i) + more
  {
    FrontOfBoth(BreakLine(a[i]), LinesFrom(a, i + 1), more);
  }

  lemma PairStays(text: string, a: string, more: seq<Line>, i: nat)
    requires PairAt(a, i) && PairAt(text, i) && LinesFrom(text, i + 2) == LinesFrom(a, i + 2) + more
    ensures LinesFrom(text, i) == LinesFrom(a, i) + more
  {
    FrontOfBoth(Line("", "\r\n"), LinesFrom(a, i + 2), more);
  }

  lemma NothingLeft(a: string, more: seq<Line>)
    ensures LinesFrom(a, |a|) + more == more
  {
  }

  lemma {:induction false} BothFrom(text: string, a: string, more: seq<Line>, i: nat)
    requires StartsWith(text, a) && EndsInBreak(a) && !PairAt(text, |a| - 1) && i <= |a|
    requires more == LinesFrom(text, |a|)
    ensures LinesFrom(text, i) == LinesFrom(a, i) + more
    decreases |a| - i
  {
    if i == |a| {
      NothingLeft(a, more);
    } else {
      SameAt(text, a, i);
      if PairAt(a, i) {
        BothFrom(text, a, more, i + 2);
        PairStays(text, a, more, i);
      } else {
        BothFrom(text, a, more, i + 1);
        if IsBreak(a[i]) {
          BreakStays(text, a, more, i);
        } else {
          PlainStays(text, a, more, i);
        }
      }
    }
  }

  /** No carriage return at the end of one meets a line feed at the start of the other. */
  predicate Apart(a: string, b: string) {
    a != "" && b != "" ==> !(a[|a| - 1] == '\r' && b[0] == '\n')
  }

  lemma LinesFromStart(text: string)
    ensures LinesFrom(text, 0) == Lines(text)
  {
    LinesFromIs(text, 0);
    assert text[0..] == text;
  }

  lemma LinesFromEnd(a: string, b: string)
    ensures LinesFrom(a + b, |a|) == Lines(b)
  {
    LinesFromIs(a + b, |a|);
    assert (a + b)[|a|..] == b;
  }

  lemma NotPaired(a: string, b: string)
    requires a != "" && Apart(a, b)
    ensures !PairAt(a + b, |a| - 1)
  {
    assert (a + b)[|a| - 1] == a[|a| - 1];
    assert b != "" ==> (a + b)[|a|] == b[0];
  }

  /** What follows a line break starts a line of its own. */
  lemma LinesOfBoth(a: string, b: string)
    requires EndsInBreak(a) && Apart(a, b)
    ensures Lines(a + b) == Lines(a) + Lines(b)
  {
    NotPaired(a, b);
    LinesFromEnd(a, b);
    LinesFromStart(a);
    LinesFromStart(a + b);
    BothFrom(a + b, a, Lines(b), 0);
  }

  /** The text in front of the first line. */
  function InFront(body: string, lines: seq<Line>): seq<Line>
    requires lines != []
  {
    [Line(body + lines[0].body, lines[0].ending)] + lines[1..]
  }

  lemma LongerFront(body: string, i: nat, lines: seq<Line>)
    requires i < |body| && lines != []
    ensures PrependLine(body[i], InFront(body[i + 1..], lines)) == InFront(body[i..], lines)
  {
    assert [body[i]] + (body[i + 1..] + lines[0].body) == body[i..] + lines[0].body;
  }

  lemma {:induction false} FrontFrom(text: string, body: string, more: seq<Line>, i: nat)
    requires StartsWith(text, body) && Plain(body) && i <= |body|
    requires more == LinesFrom(text, |body|) != []
    ensures LinesFrom(text, i) == InFront(body[i..], more)
    decreases |body| - i
  {
    if i == |body| {
      assert body[i..] + more[0].body == more[0].body;
    } else {
      FrontFrom(text, body, more, i + 1);
      LongerFront(body, i, more);
    }
  }

  /** Text in front of a line joins it. */
  lemma PlainInFront(body: string, rest: string)
    requires Plain(body) && rest != ""
    ensures Lines(rest) != [] && Lines(body + rest) == InFront(body, Lines(rest))
  {
    SomeLine(rest);
    LinesFromEnd(body, rest);
    LinesFromStart(body + rest);
    FrontFrom(body + rest, body, Lines(rest), 0);
    assert body[0..] == body;
  }

  lemma {:induction false} OnlyLineSplits(body: string)
    requires Plain(body) && body != ""
    ensures SplitKeep(body) == [body]
  {
    if |body| > 1 {
      OnlyLineSplits(body[1..]);
      assert [body[0]] + body[1..] == body;
    } else {
      assert body == [body[0]] && body[1..] == "";
    }
  }

  function TextOf(line: Line): string {
    line.body + line.ending
  }

  lemma OneBreak(c: char)
    requires IsBreak(c)
    ensures Lines([c]) == [BreakLine(c)]
  {
    assert [c] + "" == [c];
    LinesOfBreak(c, "");
    SomeLine("");
  }

  lemma EndingAlone(ending: string)
    requires ending in {"\r\n", "\n", "\r"}
    ensures Lines(ending) == [Line("", ending)] && EndsInBreak(ending)
  {
    if ending == "\r\n" {
      assert "\r\n" + "" == "\r\n";
      LinesOfPair("");
      SomeLine("");
    } else {
      assert ending == [ending[0]];
      OneBreak(ending[0]);
    }
  }

  lemma EndedAlone(body: string, ending: string)
    requires Plain(body) && ending in {"\r\n", "\n", "\r"}
    ensures Lines(body + ending) == [Line(body, ending)] && EndsInBreak(body + ending)
  {
    EndingAlone(ending);
    PlainInFront(body, ending);
    assert body + "" == body;
    assert (body + ending)[|body + ending| - 1] == ending[|ending| - 1];
  }

  lemma OddAlone(body: string)
    requires body != "" && IsOdd(body[|body| - 1]) && Plain(body[..|body| - 1])
    ensures Lines(body) == [Line(body, "")]
  {
    var plain, c := body[..|body| - 1], body[|body| - 1];
    assert body == plain + [c];
    OneBreak(c);
    PlainInFront(plain, [c]);
  }

  /** A line by itself is split into itself. */
  lemma OneLine(line: Line)
    requires IsLine(line)
    ensures Lines(TextOf(line)) == [line]
    ensures TextOf(line) != "" && (IsClosed(line) <==> EndsInBreak(TextOf(line)))
  {
    if line.ending != "" {
      EndedAlone(line.body, line.ending);
    } else {
      assert TextOf(line) == line.body;
      if OddEnded(line) {
        OddAlone(line.body);
      } else {
        OnlyLineSplits(line.body);
        PlainHasNoEnding(line.body);
      }
    }
  }

  lemma PlainHasNoEnding(body: string)
    requires Plain(body) && body != ""
    ensures LineOf(body) == Line(body, "") && !EndsInBreak(body)
  {
    assert !IsBreak(body[|body| - 1]);
    assert |body| > 1 ==> body[|body| - 2..][1] == body[|body| - 1];
  }

  lemma JoinFront(line: Line, lines: seq<Line>)
    ensures Join([line] + lines) == TextOf(line) + Join(lines)
  {
    assert ([line] + lines)[1..] == lines;
  }

  lemma TextsApart(line: Line, lines: seq<Line>)
    requires IsLine(line) && AllLines(lines) && (lines != [] ==> NoPair(line, lines[0]))
    ensures Apart(TextOf(line), Join(lines))
  {
    if lines != [] && EndsInReturn(TextOf(line)) {
      ReturnIsEnding(line);
      StartsWithFeed(lines[0]);
      assert Join(lines)[0] == TextOf(lines[0])[0] by {
        assert lines == [lines[0]] + lines[1..];
        JoinFront(lines[0], lines[1..]);
      }
    }
  }

  predicate EndsInReturn(s: string) {
    s != "" && s[|s| - 1] == '\r'
  }

  lemma ReturnIsEnding(line: Line)
    requires IsLine(line) && EndsInReturn(TextOf(line))
    ensures line.ending == "\r"
  {
    assert line.ending == "" ==> TextOf(line) == line.body;
    if line.ending != "" {
      assert TextOf(line)[|TextOf(line)| - 1] == line.ending[|line.ending| - 1];
    }
  }

  /** A closed line in front is split off. */
  lemma ClosedInFront(line: Line, lines: seq<Line>)
    requires IsLine(line) && IsClosed(line) && AllLines(lines) && (lines != [] ==> NoPair(line, lines[0]))
    ensures Lines(TextOf(line) + Join(lines)) == [line] + Lines(Join(lines))
  {
    OneLine(line);
    TextsApart(line, lines);
    LinesOfBoth(TextOf(line), Join(lines));
  }

  lemma StartsWithFeed(line: Line)
    requires IsLine(line)
    ensures TextOf(line) != "" && (TextOf(line)[0] == '\n' ==> line.body == "" && line.ending == "\n")
  {
    if line.body != "" {
      assert TextOf(line)[0] == line.body[0];
    }
  }

  lemma JoinOfOne(line: Line)
    ensures Join([line]) == TextOf(line)
  {
    JoinFront(line, []);
    assert [line] + [] == [line] && TextOf(line) + "" == TextOf(line);
  }

  /** Splitting undoes joining. */
  lemma {:induction false} LinesOfJoin(lines: seq<Line>)
    requires Formed(lines)
    ensures Lines(Join(lines)) == lines
  {
    if |lines| == 1 {
      assert lines == [lines[0]];
      JoinOfOne(lines[0]);
      OneLine(lines[0]);
    } else if lines != [] {
      var line, rest := lines[0], lines[1..];
      assert lines == [line] + rest && Separate(lines[0], lines[1]);
      FormedRest(lines);
      LinesOfJoin(rest);
      JoinFront(line, rest);
      ClosedInFront(line, rest);
    }
  }

  lemma AllLinesRest(lines: seq<Line>)
    requires lines != [] && AllLines(lines)
    ensures AllLines(lines[1..]) && IsLine(lines[0])
    ensures |lines| > 1 ==> IsLine(lines[1]) && NoPair(lines[0], lines[1])
  {
  }

  lemma JoinIsNonempty(lines: seq<Line>)
    requires lines != [] && IsLine(lines[0])
    ensures Join(lines) != ""
  {
    StartsWithFeed(lines[0]);
    JoinFront(lines[0], lines[1..]);
    assert lines == [lines[0]] + lines[1..];
  }

  /** A line that nothing closes runs into the next one. */
  lemma OpenInFront(line: Line, lines: seq<Line>)
    requires IsLine(line) && !IsClosed(line) && lines != [] && IsLine(lines[0])
    ensures Lines(Join(lines)) != [] && Lines(TextOf(line) + Join(lines)) == InFront(line.body, Lines(Join(lines)))
  {
    assert TextOf(line) == line.body;
    JoinIsNonempty(lines);
    PlainInFront(line.body, Join(lines));
  }

  /** The lines but the last that nothing closes. */
  function Opens(lines: seq<Line>): nat {
    if |lines| <= 1 then 0 else (if IsClosed(lines[0]) then 0 else 1) + Opens(lines[1..])
  }

  /** Joining loses one line for each of them. */
  lemma {:induction false} CountOfJoin(lines: seq<Line>)
    requires AllLines(lines)
    ensures |Lines(Join(lines))| + Opens(lines) == |lines|
  {
    if |lines| == 1 {
      assert lines == [lines[0]];
      JoinOfOne(lines[0]);
      OneLine(lines[0]);
    } else if lines != [] {
      var line, rest := lines[0], lines[1..];
      AllLinesRest(lines);
      CountOfJoin(rest);
      assert lines == [line] + rest;
      JoinFront(line, rest);
      if IsClosed(line) {
        ClosedInFront(line, rest);
      } else {
        OpenInFront(line, rest);
      }
    }
  }
}
