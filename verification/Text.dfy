/** Text: blank strings, order and lines, as Python's `str` defines them. */
module Text {

  /** The characters Python's `str.isspace` accepts. */
  predicate IsSpace(c: char) {
    var n := c as int;
    || 0x09 <= n <= 0x0D || 0x1C <= n <= 0x20 || n == 0x85 || n == 0xA0 || n == 0x1680
    || 0x2000 <= n <= 0x200A || n == 0x2028 || n == 0x2029 || n == 0x202F || n == 0x205F || n == 0x3000
  }

  /** One by one. */
  lemma SpaceIff(c: char)
    ensures IsSpace(c) <==>
              c as int in {
                0x09, 0x0A, 0x0B, 0x0C, 0x0D, 0x1C, 0x1D, 0x1E, 0x1F, 0x20, 0x85, 0xA0, 0x1680, 0x2000, 0x2001, 0x2002,
                0x2003, 0x2004, 0x2005, 0x2006, 0x2007, 0x2008, 0x2009, 0x200A, 0x2028, 0x2029, 0x202F, 0x205F, 0x3000}
  {
  }

  predicate Blank(s: string) {
    forall i | 0 <= i < |s| :: IsSpace(s[i])
  }

  /** The order of text by code points. */
  predicate Less(a: string, b: string) {
    if b == "" then false
    else if a == "" then true
    else if a[0] != b[0] then a[0] < b[0]
    else Less(a[1..], b[1..])
  }

  lemma {:induction false} LessIsAsymmetric(a: string, b: string)
    requires Less(a, b)
    ensures !Less(b, a)
  {
    if a != "" && b != "" && a[0] == b[0] {
      LessIsAsymmetric(a[1..], b[1..]);
    }
  }

  /** The characters after which `str.splitlines` ends a line. */
  predicate IsBreak(c: char) {
    var n := c as int;
    0x0A <= n <= 0x0D || 0x1C <= n <= 0x1E || n == 0x85 || n == 0x2028 || n == 0x2029
  }

  /** Line feed, vertical tab, form feed, carriage return, the file, group and record separators, the next-line
      character, and the line and paragraph separators. */
  lemma BreakIff(c: char)
    ensures IsBreak(c) <==> c as int in {0x0A, 0x0B, 0x0C, 0x0D, 0x1C, 0x1D, 0x1E, 0x85, 0x2028, 0x2029}
    ensures IsBreak(c) ==> IsSpace(c)
  {
  }

  predicate Plain(s: string) {
    forall i | 0 <= i < |s| :: !IsBreak(s[i])
  }

  /** One more character at the front of the first line. */
  function Prepend(c: char, lines: seq<string>): (r: seq<string>)
    ensures r != []
  {
    if lines == [] then [[c]] else [[c] + lines[0]] + lines[1..]
  }

  /** `text.splitlines(keepends=True)`. */
  function SplitKeep(s: string): (lines: seq<string>)
    ensures s == "" <==> lines == []
  {
    if s == "" then []
    else if s[0] == '\r' && |s| > 1 && s[1] == '\n' then ["\r\n"] + SplitKeep(s[2..])
    else if IsBreak(s[0]) then [[s[0]]] + SplitKeep(s[1..])
    else Prepend(s[0], SplitKeep(s[1..]))
  }

  function Concat(lines: seq<string>): string {
    if lines == [] then "" else lines[0] + Concat(lines[1..])
  }

  /** Splitting loses nothing. */
  lemma {:induction false} SplitKeepsText(s: string)
    ensures Concat(SplitKeep(s)) == s
  {
    if s == "" {
    } else if s[0] == '\r' && |s| > 1 && s[1] == '\n' {
      SplitKeepsText(s[2..]);
      assert s == "\r\n" + s[2..];
    } else {
      SplitKeepsText(s[1..]);
      assert s == [s[0]] + s[1..];
    }
  }

  /** A line that ends in a line feed is split off. */
  lemma {:induction false} SplitOfLine(body: string, rest: string)
    requires Plain(body)
    ensures SplitKeep(body + ("\n" + rest)) == [body + "\n"] + SplitKeep(rest)
  {
    if body == "" {
      assert body + ("\n" + rest) == "\n" + rest;
      assert ("\n" + rest)[1..] == rest && ("\n" + rest)[0] == '\n';
      assert body + "\n" == "\n" == ['\n'];
    } else {
      assert (body + ("\n" + rest))[1..] == body[1..] + ("\n" + rest);
      SplitOfLine(body[1..], rest);
      assert [body[0]] + (body[1..] + "\n") == body + "\n";
    }
  }
}
