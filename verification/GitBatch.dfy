/** Reading blobs from one `git cat-file --batch` response (scripts/public-file-manifest.py): a loop that
    walks an offset over header lines and raw contents, where contents may hold any bytes. */
module GitBatch {
  import opened Wrappers
  import opened Bytes
  import opened Sequences

  type Blob = seq<byte>

  // ---- Header lines ----------------------------------------------------------------------------------

  const SPACE: byte := 32
  const UNDERSCORE: byte := 95

  /** ASCII white space, as `str.split()` sees it. */
  predicate IsSpace(b: byte) {
    9 <= b <= 13 || 28 <= b <= 32
  }

  /** Words separated by white space; `word` is the one being read. */
  function Words(s: seq<byte>, word: seq<byte>): seq<seq<byte>> {
    if s == [] then (if word == [] then [] else [word])
    else if IsSpace(s[0]) then (if word == [] then [] else [word]) + Words(s[1..], [])
    else Words(s[1..], word + [s[0]])
  }

  predicate IsDigit(b: byte) {
    48 <= b <= 57
  }

  /** The number after `acc`, digits with single underscores between them. */
  function Digits(s: seq<byte>, acc: nat): Option<nat> {
    if s == [] then Some(acc)
    else if IsDigit(s[0]) then Digits(s[1..], 10 * acc + (s[0] - 48) as nat)
    else if s[0] == UNDERSCORE && |s| > 1 && IsDigit(s[1]) then Digits(s[1..], acc)
    else None
  }

  /** `int(word)`, for a word without white space. */
  function IntOf(word: seq<byte>): Option<int> {
    if word == [] then None
    else if word[0] == 43 && |word| > 1 && IsDigit(word[1]) then Digits(word[1..], 0)
    else if word[0] == 45 && |word| > 1 && IsDigit(word[1]) then
      var n := Digits(word[1..], 0);
      if n.Some? then Some(-(n.value as int)) else None
    else if IsDigit(word[0]) then Digits(word, 0)
    else None
  }

  predicate Ascii(s: seq<byte>) {
    forall i | 0 <= i < |s| :: s[i] < 128
  }

  const BLOB: seq<byte> := [98, 108, 111, 98]

  /** The size announced by a header line for this object, if it is one. */
  function SizeIn(header: seq<byte>, oid: seq<byte>): Option<int> {
    var words := Words(header, []);
    if !Ascii(header) || |words| != 3 || words[0] != oid || words[1] != BLOB then None else IntOf(words[2])
  }

  // ---- What a response is ----------------------------------------------------------------------------

  predicate OneLine(s: seq<byte>) {
    forall i | 0 <= i < |s| :: s[i] != LF
  }

  predicate IsHeader(header: seq<byte>, oid: seq<byte>, content: Blob) {
    OneLine(header) && SizeIn(header, oid) == Some(|content|)
  }

  function Frame(header: seq<byte>, content: Blob): seq<byte> {
    header + ([LF] + (content + [LF]))
  }

  function Response(headers: seq<seq<byte>>, contents: seq<Blob>): seq<byte>
    requires |headers| == |contents|
  {
    if headers == [] then []
    else
      var n := |headers| - 1;
      Response(headers[..n], contents[..n]) + Frame(headers[n], contents[n])
  }

  /** `response` is one frame per object, in order, and nothing else. */
  predicate Frames(response: seq<byte>, oids: seq<seq<byte>>, headers: seq<seq<byte>>, contents: seq<Blob>) {
    && |headers| == |contents| == |oids|
    && response == Response(headers, contents)
    && forall i | 0 <= i < |oids| :: IsHeader(headers[i], oids[i], contents[i])
  }

  ghost predicate Framed(response: seq<byte>, oids: seq<seq<byte>>, contents: seq<Blob>) {
    exists headers :: Frames(response, oids, headers, contents)
  }

  // ---- Reading ---------------------------------------------------------------------------------------

  /** `response.find(b"\n", offset)`. */
  function Find(s: seq<byte>, offset: nat): (r: int)
    ensures -1 <= r < |s|
    ensures r == -1 ==> forall i | offset <= i < |s| :: s[i] != LF
    ensures r >= 0 ==> offset <= r && s[r] == LF && forall i | offset <= i < r :: s[i] != LF
    decreases |s| - offset
  {
    if offset >= |s| then -1 else if s[offset] == LF then offset else Find(s, offset + 1)
  }

  /** `s[from:to]`, where a negative `to` counts from the end. */
  function Slice(s: seq<byte>, from: nat, to: int): seq<byte> {
    var end := if to < 0 then |s| + to else if to > |s| then |s| else to;
    if end <= from then [] else s[from..end]
  }

  datatype Step = Next(offset: nat, content: Blob) | Stop(error: string)

  /** One turn of the loop. */
  function ReadOne(response: seq<byte>, offset: nat, oid: seq<byte>): Step {
    var end := Find(response, offset);
    match SizeIn(Slice(response, offset, end), oid)
    case None => Stop("Unable to read Git blob")
    case Some(size) =>
      var start := end + 1;
      // A negative size never is the length of a slice.
      if size < 0 then Stop("Truncated Git blob")
      else
        var content := Slice(response, start, start + size);
        if |content| != size || Slice(response, start + size, start + size + 1) != [LF]
        then Stop("Truncated Git blob")
        else Next(start + size + 1, content)
  }

  lemma FindAt(s: seq<byte>, offset: nat, end: nat)
    requires offset <= end < |s| && s[end] == LF && OneLine(s[offset..end])
    ensures Find(s, offset) == end
  {
    assert forall i | offset <= i < end :: s[i] == s[offset..end][i - offset];
  }

  lemma OneLineOfFind(response: seq<byte>, offset: nat)
    requires Find(response, offset) >= 0
    ensures OneLine(response[offset..Find(response, offset)])
  {
  }

  lemma FrameAt(response: seq<byte>, offset: nat, end: nat, last: nat)
    requires offset <= end < last < |response| && response[end] == LF && response[last] == LF
    ensures response[..last + 1] == response[..offset] + Frame(response[offset..end], response[end + 1..last])
  {
    assert response[..last + 1] == response[..offset] + response[offset..end] + [response[end]]
                                   + response[end + 1..last] + [response[last]];
  }

  /** A turn succeeds only from an offset inside the response. */
  lemma ReadsInside(response: seq<byte>, offset: nat, oid: seq<byte>)
    requires ReadOne(response, offset, oid).Next?
    ensures offset < |response|
  {
  }

  lemma SliceIsLineFeed(s: seq<byte>, i: nat)
    requires Slice(s, i, i + 1) == [LF]
    ensures i < |s| && s[i] == LF
  {
    if i < |s| {
      assert s[i..i + 1][0] == s[i];
    }
  }

  lemma NextEndsInLineFeed(response: seq<byte>, offset: nat, oid: seq<byte>)
    requires ReadOne(response, offset, oid).Next?
    ensures var next := ReadOne(response, offset, oid).offset;
            1 <= next <= |response| && response[next - 1] == LF
  {
    SliceIsLineFeed(response, ReadOne(response, offset, oid).offset - 1);
  }

  /** A turn in a response that ends in a line feed reads one frame. */
  lemma ReadOneReadsFrame(response: seq<byte>, offset: nat, oid: seq<byte>)
    requires response != [] && response[|response| - 1] == LF
    requires ReadOne(response, offset, oid).Next?
    ensures var end, step := Find(response, offset), ReadOne(response, offset, oid);
            && offset <= end < step.offset <= |response|
            && IsHeader(response[offset..end], oid, step.content)
            && response[..step.offset] == response[..offset] + Frame(response[offset..end], step.content)
  {
    ReadsInside(response, offset, oid);
    var end, step := Find(response, offset), ReadOne(response, offset, oid);
    OneLineOfFind(response, offset);
    var last := step.offset - 1;
    NextEndsInLineFeed(response, offset, oid);
    assert step.content == response[end + 1..last];
    FrameAt(response, offset, end, last);
  }

  /** A frame found at the offset is read back, whatever line feeds its content holds. */
  lemma FrameIsRead(before: seq<byte>, header: seq<byte>, content: Blob, after: seq<byte>, oid: seq<byte>)
    requires IsHeader(header, oid, content)
    ensures var response := before + Frame(header, content) + after;
            ReadOne(response, |before|, oid) == Next(|before| + |Frame(header, content)|, content)
  {
    var response := before + Frame(header, content) + after;
    var end := |before| + |header|;
    assert response[end] == LF;
    assert response[|before|..end] == header;
    FindAt(response, |before|, end);
    assert response[end + 1..end + 1 + |content|] == content;
    assert response[end + 1 + |content|..end + 2 + |content|] == [LF];
  }

  // ---- Reading a whole response ----------------------------------------------------------------------

  datatype Progress = At(offset: nat, contents: seq<Blob>) | Stopped

  function Advance(contents: seq<Blob>, step: Step): (p: Progress)
    ensures p.At? ==> |p.contents| == |contents| + 1
  {
    match step
    case Stop(_) => Stopped
    case Next(next, content) => At(next, contents + [content])
  }

  /** The state after the turns for the first `n` objects. */
  function ReadFirst(response: seq<byte>, oids: seq<seq<byte>>, n: nat): (p: Progress)
    requires n <= |oids|
    ensures p.At? ==> |p.contents| == n
  {
    if n == 0 then At(0, [])
    else
      match ReadFirst(response, oids, n - 1)
      case Stopped => Stopped
      case At(offset, contents) => Advance(contents, ReadOne(response, offset, oids[n - 1]))
  }

  /** All turns succeed and leave nothing behind. */
  predicate Reads(response: seq<byte>, oids: seq<seq<byte>>, contents: seq<Blob>) {
    ReadFirst(response, oids, |oids|) == At(|response|, contents)
  }

  lemma ResponseEnd(headers: seq<seq<byte>>, contents: seq<Blob>, header: seq<byte>, content: Blob)
    requires |headers| == |contents|
    ensures Response(headers + [header], contents + [content]) == Response(headers, contents) + Frame(header, content)
  {
    assert (headers + [header])[..|headers|] == headers;
    assert (contents + [content])[..|contents|] == contents;
  }

  predicate Consumed(response: seq<byte>, oids: seq<seq<byte>>, headers: seq<seq<byte>>, progress: Progress) {
    progress.At? && progress.offset <= |response|
    && Frames(response[..progress.offset], oids, headers, progress.contents)
  }

  lemma ConsumedNext(
    response: seq<byte>, oids: seq<seq<byte>>, headers: seq<seq<byte>>, before: Progress, oid: seq<byte>)
    returns (header: seq<byte>)
    requires response != [] && response[|response| - 1] == LF
    requires Consumed(response, oids, headers, before) && ReadOne(response, before.offset, oid).Next?
    ensures Consumed(response, oids + [oid], headers + [header],
                     Advance(before.contents, ReadOne(response, before.offset, oid)))
  {
    ReadOneReadsFrame(response, before.offset, oid);
    header := response[before.offset..Find(response, before.offset)];
    ResponseEnd(headers, before.contents, header, ReadOne(response, before.offset, oid).content);
  }

  lemma ReadFirstAdvances(response: seq<byte>, oids: seq<seq<byte>>, n: nat)
    requires n < |oids| && ReadFirst(response, oids, n + 1).At?
    ensures var before := ReadFirst(response, oids, n);
            && before.At? && ReadOne(response, before.offset, oids[n]).Next?
            && ReadFirst(response, oids, n + 1) == Advance(before.contents, ReadOne(response, before.offset, oids[n]))
  {
  }

  lemma {:induction false} TurnsReadFrames(response: seq<byte>, oids: seq<seq<byte>>, n: nat)
    returns (headers: seq<seq<byte>>)
    requires n <= |oids| && ReadFirst(response, oids, n).At?
    requires response != [] && response[|response| - 1] == LF
    ensures Consumed(response, oids[..n], headers, ReadFirst(response, oids, n))
  {
    if n == 0 {
      headers := [];
    } else {
      var m, oid := n - 1, oids[n - 1];
      assert oids[..n] == oids[..m] + [oid];
      ReadFirstAdvances(response, oids, m);
      var rest := TurnsReadFrames(response, oids, m);
      var header := ConsumedNext(response, oids[..m], rest, ReadFirst(response, oids, m), oid);
      headers := rest + [header];
    }
  }

  lemma ReadFirstNext(
    response: seq<byte>, oids: seq<seq<byte>>, n: nat, offset: nat, read: seq<Blob>, next: nat, content: Blob)
    requires n < |oids|
    requires ReadFirst(response, oids, n) == At(offset, read)
    requires ReadOne(response, offset, oids[n]) == Next(next, content)
    ensures ReadFirst(response, oids, n + 1) == At(next, read + [content])
  {
  }

  /** Where frame `n` starts. */
  function Offset(headers: seq<seq<byte>>, contents: seq<Blob>, n: nat): nat
    requires n <= |headers| == |contents|
  {
    |Response(headers[..n], contents[..n])|
  }

  lemma NthFrameIsRead(
    response: seq<byte>, oids: seq<seq<byte>>, headers: seq<seq<byte>>, contents: seq<Blob>, n: nat)
    requires Frames(response, oids, headers, contents) && n < |oids|
    ensures ReadOne(response, Offset(headers, contents, n), oids[n])
            == Next(Offset(headers, contents, n + 1), contents[n])
  {
    var before := Response(headers[..n], contents[..n]);
    ResponseEnd(headers[..n], contents[..n], headers[n], contents[n]);
    assert headers[..n + 1] == headers[..n] + [headers[n]];
    assert contents[..n + 1] == contents[..n] + [contents[n]];
    var after := ResponseRest(headers, contents, n + 1);
    FrameIsRead(before, headers[n], contents[n], after, oids[n]);
  }

  lemma {:induction false} FramesAreRead(
    response: seq<byte>, oids: seq<seq<byte>>, headers: seq<seq<byte>>, contents: seq<Blob>, n: nat)
    requires Frames(response, oids, headers, contents) && n <= |oids|
    ensures ReadFirst(response, oids, n) == At(Offset(headers, contents, n), contents[..n])
  {
    if n == 0 {
      assert contents[..0] == [];
    } else {
      var m := n - 1;
      var read, content := contents[..m], contents[m];
      assert contents[..n] == read + [content];
      var offset, next := Offset(headers, contents, m), Offset(headers, contents, n);
      assert ReadFirst(response, oids, m) == At(offset, read) by {
        FramesAreRead(response, oids, headers, contents, m);
      }
      assert ReadOne(response, offset, oids[m]) == Next(next, content) by {
        NthFrameIsRead(response, oids, headers, contents, m);
      }
      ReadFirstNext(response, oids, m, offset, read, next, content);
    }
  }

  lemma {:induction false} ResponseRest(headers: seq<seq<byte>>, contents: seq<Blob>, n: nat)
    returns (after: seq<byte>)
    requires n <= |headers| == |contents|
    ensures Response(headers, contents) == Response(headers[..n], contents[..n]) + after
    decreases |headers|
  {
    if n == |headers| {
      assert headers[..n] == headers && contents[..n] == contents;
      return [];
    }
    var m := |headers| - 1;
    after := ResponseRest(headers[..m], contents[..m], n);
    assert headers[..m][..n] == headers[..n] && contents[..m][..n] == contents[..n];
    after := after + Frame(headers[m], contents[m]);
  }

  lemma ReadIsFramed(response: seq<byte>, oids: seq<seq<byte>>, contents: seq<Blob>)
    requires Reads(response, oids, contents)
    ensures Framed(response, oids, contents)
  {
    if oids == [] {
      assert Frames(response, oids, [], contents);
    } else {
      EndsInLineFeed(response, oids, contents);
      var headers := TurnsReadFrames(response, oids, |oids|);
      assert response[..|response|] == response && oids[..|oids|] == oids;
    }
  }

  lemma FramedIsRead(response: seq<byte>, oids: seq<seq<byte>>, contents: seq<Blob>)
    requires Framed(response, oids, contents)
    ensures Reads(response, oids, contents)
  {
    var headers :| Frames(response, oids, headers, contents);
    FramesAreRead(response, oids, headers, contents, |oids|);
    assert headers[..|oids|] == headers && contents[..|oids|] == contents;
  }

  /** The reader recovers exactly the contents of a response that is one frame per object, and accepts no
      other response. */
  lemma ReadsIffFrames(response: seq<byte>, oids: seq<seq<byte>>, contents: seq<Blob>)
    ensures Reads(response, oids, contents) <==> Framed(response, oids, contents)
  {
    if Reads(response, oids, contents) {
      ReadIsFramed(response, oids, contents);
    }
    if Framed(response, oids, contents) {
      FramedIsRead(response, oids, contents);
    }
  }

  lemma EndsInLineFeed(response: seq<byte>, oids: seq<seq<byte>>, contents: seq<Blob>)
    requires oids != [] && Reads(response, oids, contents)
    ensures response != [] && response[|response| - 1] == LF
  {
    var before := ReadFirst(response, oids, |oids| - 1);
    NextEndsInLineFeed(response, before.offset, oids[|oids| - 1]);
  }

  /** So the contents are determined by the response, however the frames are told apart. */
  lemma ContentsAreUnique(
    response: seq<byte>, oids: seq<seq<byte>>,
    headers: seq<seq<byte>>, contents: seq<Blob>, headers': seq<seq<byte>>, contents': seq<Blob>)
    requires Frames(response, oids, headers, contents) && Frames(response, oids, headers', contents')
    ensures contents == contents'
  {
    ReadsIffFrames(response, oids, contents);
    ReadsIffFrames(response, oids, contents');
  }

  // ---- The headers Git writes --------------------------------------------------------------------------

  function Decimal(n: nat): (s: seq<byte>)
    ensures s != [] && forall i | 0 <= i < |s| :: IsDigit(s[i])
  {
    if n < 10 then [(n + 48) as byte] else Decimal(n / 10) + [(n % 10 + 48) as byte]
  }

  function GitHeader(oid: seq<byte>, size: nat): seq<byte> {
    oid + ([SPACE] + (BLOB + ([SPACE] + Decimal(size))))
  }

  predicate IsWord(s: seq<byte>) {
    s != [] && forall i | 0 <= i < |s| :: !IsSpace(s[i]) && s[i] < 128
  }

  lemma {:induction false} DigitsOfPrefix(s: seq<byte>, d: byte, acc: nat)
    requires IsDigit(d) && forall i | 0 <= i < |s| :: IsDigit(s[i])
    ensures Digits(s, acc).Some?
    ensures Digits(s + [d], acc) == Some(10 * Digits(s, acc).value + (d - 48) as nat)
  {
    if s == [] {
      assert s + [d] == [d];
      assert [d][1..] == [];
    } else {
      assert (s + [d])[1..] == s[1..] + [d];
      DigitsOfPrefix(s[1..], d, 10 * acc + (s[0] - 48) as nat);
    }
  }

  lemma {:induction false} DecimalReads(n: nat)
    ensures Digits(Decimal(n), 0) == Some(n)
  {
    if n < 10 {
      assert Decimal(n)[1..] == [];
    } else {
      DecimalReads(n / 10);
      DigitsOfPrefix(Decimal(n / 10), (n % 10 + 48) as byte, 0);
    }
  }

  lemma GitHeaderWords(oid: seq<byte>, size: seq<byte>)
    requires IsWord(oid) && IsWord(size)
    ensures Words(oid + ([SPACE] + (BLOB + ([SPACE] + size))), []) == [oid, BLOB, size]
  {
    var header := oid + ([SPACE] + (BLOB + ([SPACE] + size)));
    assert size + [] == size && [] + header == header;
    SpelledWords(header, [], oid, [SPACE], [SPACE], size, []);
  }

  /** The header line Git writes for a blob announces its size. */
  lemma GitHeaderIsHeader(oid: seq<byte>, content: Blob)
    requires IsWord(oid)
    ensures IsHeader(GitHeader(oid, |content|), oid, content)
  {
    var size := Decimal(|content|);
    var header := GitHeader(oid, |content|);
    GitHeaderWords(oid, size);
    DecimalReads(|content|);
    assert IntOf(size) == Some(|content|);
    forall i | 0 <= i < |header| ensures header[i] < 128 && header[i] != LF {
      assert header[i] in oid || header[i] in BLOB || header[i] in size || header[i] == SPACE;
    }
  }

  // ---- What a header line is ------------------------------------------------------------------------------

  predicate IsGap(s: seq<byte>) {
    forall i | 0 <= i < |s| :: IsSpace(s[i])
  }

  predicate IsToken(s: seq<byte>) {
    s != [] && forall i | 0 <= i < |s| :: !IsSpace(s[i])
  }

  lemma {:induction false} WordsAfterGap(gap: seq<byte>, rest: seq<byte>)
    requires IsGap(gap)
    ensures Words(gap + rest, []) == Words(rest, [])
  {
    if gap == [] {
      assert gap + rest == rest;
    } else {
      assert (gap + rest)[1..] == gap[1..] + rest;
      WordsAfterGap(gap[1..], rest);
    }
  }

  lemma {:induction false} WordsAfterToken(token: seq<byte>, word: seq<byte>, rest: seq<byte>)
    requires (forall i | 0 <= i < |token| :: !IsSpace(token[i])) && word + token != []
    requires rest == [] || IsSpace(rest[0])
    ensures Words(token + rest, word) == [word + token] + Words(rest, [])
  {
    if token == [] {
      assert token + rest == rest && word + token == word;
    } else {
      assert (token + rest)[1..] == token[1..] + rest;
      assert (word + [token[0]]) + token[1..] == word + token;
      WordsAfterToken(token[1..], word + [token[0]], rest);
    }
  }

  lemma {:induction false} TokenAtFront(s: seq<byte>) returns (token: seq<byte>, rest: seq<byte>)
    requires s != [] && !IsSpace(s[0])
    ensures s == token + rest && IsToken(token) && (rest == [] || IsSpace(rest[0]))
  {
    if |s| == 1 || IsSpace(s[1]) {
      token, rest := [s[0]], s[1..];
    } else {
      token, rest := TokenAtFront(s[1..]);
      token := [s[0]] + token;
    }
  }

  /** The first word, what is before it and what is after it. */
  lemma {:induction false} FirstWord(s: seq<byte>) returns (gap: seq<byte>, token: seq<byte>, rest: seq<byte>)
    requires Words(s, []) != []
    ensures s == gap + (token + rest) && IsGap(gap) && IsToken(token) && (rest == [] || IsSpace(rest[0]))
    ensures token == Words(s, [])[0] && Words(rest, []) == Words(s, [])[1..]
    ensures s != [] && IsSpace(s[0]) ==> gap != []
  {
    if IsSpace(s[0]) {
      gap, token, rest := FirstWord(s[1..]);
      gap := [s[0]] + gap;
    } else {
      gap := [];
      token, rest := TokenAtFront(s);
      WordsAfterToken(token, [], rest);
      assert [] + token == token;
    }
  }

  lemma {:induction false} NoWordsIsGap(s: seq<byte>)
    requires Words(s, []) == []
    ensures IsGap(s)
  {
    if s != [] {
      if !IsSpace(s[0]) {
        var token, rest := TokenAtFront(s);
        WordsAfterToken(token, [], rest);
      } else {
        NoWordsIsGap(s[1..]);
      }
    }
  }

  /** The parts of a header line: the object, `blob` and a number, with white space between and perhaps around. */
  ghost predicate Spelled(header: seq<byte>, a: seq<byte>, oid: seq<byte>, b: seq<byte>, c: seq<byte>,
                          number: seq<byte>, d: seq<byte>)
  {
    && header == a + (oid + (b + ([98, 108, 111, 98] + (c + (number + d)))))
    && IsGap(a) && IsGap(b) && IsGap(c) && IsGap(d) && b != [] && c != []
    && IsToken(oid) && IsToken(number)
  }

  lemma SpelledWords(header: seq<byte>, a: seq<byte>, oid: seq<byte>, b: seq<byte>, c: seq<byte>, number: seq<byte>,
                     d: seq<byte>)
    requires Spelled(header, a, oid, b, c, number, d)
    ensures Words(header, []) == [oid, BLOB, number]
  {
    WordsAfterGap(d, []);
    assert d + [] == d;
    WordsAfterToken(number, [], d);
    WordsAfterGap(c, number + d);
    WordsAfterToken(BLOB, [], c + (number + d));
    WordsAfterGap(b, BLOB + (c + (number + d)));
    WordsAfterToken(oid, [], b + (BLOB + (c + (number + d))));
    WordsAfterGap(a, oid + (b + (BLOB + (c + (number + d)))));
    assert [] + number == number && [] + BLOB == BLOB && [] + oid == oid;
  }

  lemma WordsSpelled(header: seq<byte>, oid: seq<byte>, number: seq<byte>)
    returns (a: seq<byte>, b: seq<byte>, c: seq<byte>, d: seq<byte>)
    requires Words(header, []) == [oid, BLOB, number]
    ensures Spelled(header, a, oid, b, c, number, d)
  {
    var words, first, second, third, rest, more := [oid, BLOB, number], [], [], [], [], [];
    a, first, rest := FirstWord(header);
    assert words[1..] == [BLOB, number];
    b, second, more := FirstWord(rest);
    assert words[1..][1..] == [number] && [number][1..] == [];
    c, third, d := FirstWord(more);
    NoWordsIsGap(d);
  }

  /** A header line is taken for the header of a content exactly if it is an ASCII line that names the object, says
      that it is a blob and gives the length of the content. */
  lemma HeaderIff(header: seq<byte>, oid: seq<byte>, content: Blob)
    ensures IsHeader(header, oid, content) <==>
              && OneLine(header) && (forall i | 0 <= i < |header| :: header[i] < 128)
              && exists a, b, c, number, d ::
                   Spelled(header, a, oid, b, c, number, d) && IntOf(number) == Some(|content|)
  {
    if IsHeader(header, oid, content) {
      var number := Words(header, [])[2];
      var a, b, c, d := WordsSpelled(header, oid, number);
    }
    forall a, b, c, number, d | Spelled(header, a, oid, b, c, number, d)
      ensures Words(header, []) == [oid, BLOB, number]
    {
      SpelledWords(header, a, oid, b, c, number, d);
    }
  }

  // ---- The reader ------------------------------------------------------------------------------------

  type Oid = seq<byte>

  datatype Entry = Entry(mode: string, oid: Oid)

  predicate Regular(mode: string) {
    mode == "100644" || mode == "100755"
  }

  predicate Distinct(oids: seq<Oid>) {
    forall i, j | 0 <= i < j < |oids| :: oids[i] != oids[j]
  }

  lemma {:induction false} StoppedStays(response: seq<byte>, oids: seq<Oid>, n: nat, m: nat)
    requires n <= m <= |oids| && ReadFirst(response, oids, n).Stopped?
    ensures ReadFirst(response, oids, m).Stopped?
  {
    if n < m {
      StoppedStays(response, oids, n, m - 1);
    }
  }

  /** Each object has the content read for it. */
  predicate Holds(blobs: map<Oid, Blob>, oids: seq<Oid>, contents: seq<Blob>) {
    |oids| == |contents| && forall i | 0 <= i < |oids| :: oids[i] in blobs && blobs[oids[i]] == contents[i]
  }

  lemma HoldsNext(blobs: map<Oid, Blob>, oids: seq<Oid>, contents: seq<Blob>, oid: Oid, content: Blob)
    requires Holds(blobs, oids, contents) && oid !in oids
    ensures Holds(blobs[oid := content], oids + [oid], contents + [content])
  {
    assert forall i | 0 <= i < |oids| :: oids[i] in oids;
  }

  /** The loop has read the first `i` objects. */
  ghost predicate ReadTo(response: seq<byte>, oids: seq<Oid>, i: nat, offset: nat, blobs: map<Oid, Blob>,
                         contents: seq<Blob>)
  {
    i <= |oids| && ReadFirst(response, oids, i) == At(offset, contents) && Holds(blobs, oids[..i], contents)
  }

  lemma NextBlob(response: seq<byte>, oids: seq<Oid>, i: nat, offset: nat, blobs: map<Oid, Blob>, contents: seq<Blob>)
    requires Distinct(oids) && i < |oids| && ReadTo(response, oids, i, offset, blobs, contents)
    ensures match ReadOne(response, offset, oids[i])
            case Stop(_) => forall c :: !Reads(response, oids, c)
            case Next(next, content) =>
              ReadTo(response, oids, i + 1, next, blobs[oids[i] := content], contents + [content])
  {
    assert ReadFirst(response, oids, i + 1) == Advance(contents, ReadOne(response, offset, oids[i]));
    match ReadOne(response, offset, oids[i])
    case Stop(_) => StoppedStays(response, oids, i + 1, |oids|);
    case Next(_, content) =>
      assert oids[..i + 1] == oids[..i] + [oids[i]];
      HoldsNext(blobs, oids[..i], contents, oids[i], content);
  }

  lemma AllRead(response: seq<byte>, oids: seq<Oid>, offset: nat, blobs: map<Oid, Blob>, contents: seq<Blob>)
    requires ReadTo(response, oids, |oids|, offset, blobs, contents)
    ensures Holds(blobs, oids, contents)
    ensures if offset == |response| then Reads(response, oids, contents) else forall c :: !Reads(response, oids, c)
  {
    assert oids[..|oids|] == oids;
  }

  /** The loop of `Snapshot.read`. */
  method ReadBlobs(response: seq<byte>, oids: seq<Oid>) returns (r: Result<map<Oid, Blob>>, ghost contents: seq<Blob>)
    requires Distinct(oids)
    ensures r.Success? ==> Reads(response, oids, contents) && Holds(r.value, oids, contents)
    ensures r.Failure? ==> forall c :: !Reads(response, oids, c)
  {
    var offset: nat := 0;
    var blobs: map<Oid, Blob> := map[];
    contents := [];
    var i: nat := 0;
    while i < |oids|
      invariant ReadTo(response, oids, i, offset, blobs, contents)
    {
      var step := ReadOne(response, offset, oids[i]);
      NextBlob(response, oids, i, offset, blobs, contents);
      if step.Stop? {
        return Failure(step.error), contents;
      }
      offset, contents := step.offset, contents + [step.content];
      blobs := blobs[oids[i] := step.content];
      i := i + 1;
    }
    AllRead(response, oids, offset, blobs, contents);
    if offset != |response| {
      return Failure("Unexpected Git batch output"), contents;
    }
    return Success(blobs), contents;
  }

  predicate Readable(entries: map<string, Entry>, paths: seq<string>) {
    forall i | 0 <= i < |paths| :: paths[i] in entries && Regular(entries[paths[i]].mode)
  }

  function OidsOf(entries: map<string, Entry>, paths: seq<string>): seq<Oid>
    requires Readable(entries, paths)
  {
    Dedup(seq(|paths|, i requires 0 <= i < |paths| => entries[paths[i]].oid))
  }

  /** Every path has the content read for its object. */
  predicate Assigned(
    blobs: map<string, Blob>, entries: map<string, Entry>, paths: seq<string>, oids: seq<Oid>, contents: seq<Blob>)
    requires Readable(entries, paths) && |oids| == |contents|
  {
    forall j, i | 0 <= j < |paths| && 0 <= i < |oids| && oids[i] == entries[paths[j]].oid ::
      paths[j] in blobs && blobs[paths[j]] == contents[i]
  }

  lemma OidsAreDistinct(entries: map<string, Entry>, paths: seq<string>)
    requires Readable(entries, paths)
    ensures Distinct(OidsOf(entries, paths))
    ensures forall j | 0 <= j < |paths| :: entries[paths[j]].oid in OidsOf(entries, paths)
  {
    var all := seq(|paths|, i requires 0 <= i < |paths| => entries[paths[i]].oid);
    DedupKeepsEachOnce(all);
    forall j | 0 <= j < |paths| ensures entries[paths[j]].oid in OidsOf(entries, paths) {
      assert all[j] in all;
    }
  }

  /** `Snapshot.read`: the blob of every path, or an error when a path is missing or irregular or when the
      response is not one frame per object. */
  method Read(entries: map<string, Entry>, paths: seq<string>, response: seq<byte>)
    returns (r: Result<map<string, Blob>>, ghost contents: seq<Blob>)
    ensures r.Success? ==> Readable(entries, paths) && forall p :: p in r.value <==> p in paths
    ensures Readable(entries, paths) && paths == [] ==> r == Success(map[])
    ensures Readable(entries, paths) && paths != [] && r.Success? ==>
              && Framed(response, OidsOf(entries, paths), contents)
              && |contents| == |OidsOf(entries, paths)|
              && Assigned(r.value, entries, paths, OidsOf(entries, paths), contents)
    ensures Readable(entries, paths) && paths != [] && r.Failure? ==>
              forall c :: !Framed(response, OidsOf(entries, paths), c)
  {
    contents := [];
    if i :| 0 <= i < |paths| && paths[i] !in entries {
      return Failure("Paths missing"), contents;
    }
    if i :| 0 <= i < |paths| && !Regular(entries[paths[i]].mode) {
      return Failure("Public file must be a regular Git blob"), contents;
    }
    var oids := OidsOf(entries, paths);
    OidsAreDistinct(entries, paths);
    if oids == [] {
      return Success(map[]), contents;
    }
    var read;
    read, contents := ReadBlobs(response, oids);
    forall c ensures Reads(response, oids, c) <==> Framed(response, oids, c) {
      ReadsIffFrames(response, oids, c);
    }
    if read.Failure? {
      return Failure(read.error), contents;
    }
    assert forall i | 0 <= i < |oids| :: oids[i] in read.value;
    r := Success(map j | 0 <= j < |paths| :: paths[j] := read.value[entries[paths[j]].oid]);
  }
}
