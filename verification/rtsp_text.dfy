/** Requests written out, with a printer of its own, and read back by the parser. */
module RtspText {
  import opened Basics
  import opened CryptoLaws
  import opened Rtsp
  import Decimal

  // ---------------------------------------------------------------- the printer

  function Digits(n: nat): Bytes {
    Ascii(Decimal.Print(n))
  }

  /** name: value */
  function HeaderLine(h: Header): Bytes {
    h.name + [COLON, SPACE] + h.value
  }

  /** METHOD SP URI SP VERSION */
  function RequestLine(r: Request): Bytes {
    r.verb + [SPACE] + r.uri + [SPACE] + r.version
  }

  function HeaderTexts(headers: seq<Header>): (lines: seq<Bytes>)
    ensures |lines| == |headers|
    ensures forall i :: 0 <= i < |lines| ==> lines[i] == HeaderLine(headers[i])
  {
    seq(|headers|, i requires 0 <= i < |headers| => HeaderLine(headers[i]))
  }

  function LinesOf(r: Request): seq<Bytes> {
    [RequestLine(r)] + HeaderTexts(r.headers)
  }

  /** Lines with a line end between them. */
  function Joined(lines: seq<Bytes>): Bytes {
    if lines == [] then []
    else if |lines| == 1 then lines[0]
    else lines[0] + CRLF + Joined(lines[1..])
  }

  /** The lines, a blank line, the body. */
  function Printed(r: Request): Bytes {
    Joined(LinesOf(r)) + TERMINATOR + r.body
  }

  // --------------------------------------------------------- what can be printed

  /** Nothing that trimming would take off, and no line end. */
  predicate Clean(text: Bytes) {
    && CR !in text
    && (text != [] ==> text[0] !in {SPACE, TAB} && text[|text| - 1] !in {SPACE, TAB})
  }

  predicate Word(text: Bytes) {
    CR !in text && SPACE !in text
  }

  /** The first header of the name announces the length of the body; without one there is
      no body. */
  predicate Announces(headers: seq<Header>, length: nat) {
    if headers == [] then length == 0
    else if SameName(headers[0].name, CONTENT_LENGTH) then headers[0].value == Digits(length)
    else Announces(headers[1..], length)
  }

  predicate Printable(r: Request) {
    && Word(r.verb) && Word(r.uri) && Clean(r.version)
    && (forall i :: 0 <= i < |r.headers| ==>
          Clean(r.headers[i].name) && COLON !in r.headers[i].name && Clean(r.headers[i].value))
    && Announces(r.headers, |r.body|)
  }

  // ------------------------------------------------------------------ searching

  predicate At(text: Bytes, what: Bytes, i: nat) {
    i + |what| <= |text| && text[i..i + |what|] == what
  }

  /** The first occurrence is what a search finds. */
  lemma {:induction false} SearchFinds(text: Bytes, what: Bytes, from: nat, at: nat)
    requires from <= at && At(text, what, at)
    requires forall i :: from <= i < at ==> !At(text, what, i)
    ensures Search(text, what, from) == Some(at)
    decreases at - from
  {
    if from < at {
      assert !At(text, what, from);
      SearchFinds(text, what, from + 1, at);
    }
  }

  lemma {:induction false} SearchMisses(text: Bytes, what: Bytes, from: nat)
    requires forall i :: from <= i < |text| ==> !At(text, what, i)
    requires what != []
    ensures Search(text, what, from) == None
    decreases |text| - from
  {
    if from < |text| {
      assert !At(text, what, from);
      SearchMisses(text, what, from + 1);
    }
  }

  lemma AtStarts(text: Bytes, what: Bytes, i: nat)
    requires At(text, what, i)
    ensures forall k :: 0 <= k < |what| ==> text[i + k] == what[k]
  {
    forall k | 0 <= k < |what|
      ensures text[i + k] == what[k]
    {
      assert text[i..i + |what|][k] == text[i + k];
    }
  }

  /** A separator that stands nowhere in the front is found right behind it. */
  lemma SeparatorBehind(pre: Bytes, front: Bytes, separator: Bytes, rest: Bytes)
    requires separator != [] && separator[0] !in front
    ensures Search(pre + front + separator + rest, separator, |pre|) == Some(|pre| + |front|)
  {
    var text, at := pre + front + separator + rest, |pre| + |front|;
    assert text[at..at + |separator|] == separator;
    forall i | |pre| <= i < at
      ensures !At(text, separator, i)
    {
      assert text[i] == front[i - |pre|];
      if At(text, separator, i) { AtStarts(text, separator, i); }
    }
    SearchFinds(text, separator, |pre|, at);
  }

  lemma SeparatorNowhere(pre: Bytes, front: Bytes, separator: Bytes)
    requires separator != [] && separator[0] !in front
    ensures Search(pre + front, separator, |pre|) == None
  {
    var text := pre + front;
    forall i | |pre| <= i < |text|
      ensures !At(text, separator, i)
    {
      assert text[i] == front[i - |pre|];
      if At(text, separator, i) { AtStarts(text, separator, i); }
    }
    SearchMisses(text, separator, |pre|);
  }

  // ------------------------------------------------------------------- one line

  lemma CleanStays(text: Bytes)
    requires Clean(text)
    ensures Trimmed(text) == text && Trimmed([SPACE] + text) == text
  {
    assert ([SPACE] + text)[1..] == text;
  }

  lemma FirstSpace(a: Bytes, rest: Bytes, line: Bytes)
    requires SPACE !in a && line == a + [SPACE] + rest
    ensures Search(line, [SPACE], 0) == Some(|a|)
  {
    assert [] + a == a;
    SeparatorBehind([], a, [SPACE], rest);
  }

  lemma SecondSpace(a: Bytes, b: Bytes, rest: Bytes, line: Bytes)
    requires SPACE !in b && line == a + [SPACE] + b + [SPACE] + rest
    ensures Search(line, [SPACE], |a| + 1) == Some(|a| + 1 + |b|)
  {
    SeparatorBehind(a + [SPACE], b, [SPACE], rest);
  }

  lemma Parts(a: Bytes, b: Bytes, rest: Bytes, line: Bytes)
    requires line == a + [SPACE] + b + [SPACE] + rest
    ensures line == a + [SPACE] + (b + [SPACE] + rest)
    ensures line[..|a|] == a && line[|a| + 1..|a| + 1 + |b|] == b && line[|a| + |b| + 2..] == rest
  {
  }

  /** Where the spaces are and what stands between them. */
  ghost predicate Divides(line: Bytes, verb: Bytes, uri: Bytes, rest: Bytes) {
    && Search(line, [SPACE], 0) == Some(|verb|) && Search(line, [SPACE], |verb| + 1) == Some(|verb| + 1 + |uri|)
    && |verb| + |uri| + 2 <= |line|
    && line[..|verb|] == verb && line[|verb| + 1..|verb| + 1 + |uri|] == uri && line[|verb| + |uri| + 2..] == rest
  }

  lemma LineDivides(verb: Bytes, uri: Bytes, rest: Bytes)
    requires Word(verb) && Word(uri)
    ensures Divides(verb + [SPACE] + uri + [SPACE] + rest, verb, uri, rest)
  {
    var line := verb + [SPACE] + uri + [SPACE] + rest;
    Parts(verb, uri, rest, line);
    FirstSpace(verb, uri + [SPACE] + rest, line);
    SecondSpace(verb, uri, rest, line);
  }

  lemma DividedIs(line: Bytes, verb: Bytes, uri: Bytes, rest: Bytes)
    requires Divides(line, verb, uri, rest)
    ensures StartLine(line) == Some(Request(verb, uri, Trimmed(rest), [], []))
  {
  }

  lemma StartLineReads(r: Request)
    requires Word(r.verb) && Word(r.uri) && Clean(r.version)
    ensures StartLine(RequestLine(r)) == Some(Request(r.verb, r.uri, r.version, [], []))
  {
    LineDivides(r.verb, r.uri, r.version);
    DividedIs(RequestLine(r), r.verb, r.uri, r.version);
    CleanStays(r.version);
  }

  lemma HeaderReads(h: Header)
    requires Clean(h.name) && COLON !in h.name && Clean(h.value)
    ensures HeaderOf(HeaderLine(h)) == [h]
  {
    var line, n := HeaderLine(h), |h.name|;
    assert line == [] + h.name + [COLON] + ([SPACE] + h.value);
    SeparatorBehind([], h.name, [COLON], [SPACE] + h.value);
    assert line[..n] == h.name && line[n + 1..] == [SPACE] + h.value;
    CleanStays(h.name);
    CleanStays(h.value);
  }

  // ------------------------------------------------------------------ all lines

  ghost predicate Lines(lines: seq<Bytes>) {
    forall i :: 0 <= i < |lines| ==> lines[i] != [] && CR !in lines[i]
  }

  function HeadersIn(lines: seq<Bytes>, of: Bytes -> seq<Header>): seq<Header> {
    if lines == [] then [] else of(lines[0]) + HeadersIn(lines[1..], of)
  }

  lemma FirstLineEnds(pre: Bytes, lines: seq<Bytes>)
    requires Lines(lines) && lines != []
    ensures var text := pre + Joined(lines);
            && SearchOrEnd(text, CRLF, |pre|) == |pre| + |lines[0]|
            && text[|pre|..|pre| + |lines[0]|] == lines[0]
            && (|lines| == 1 ==> |pre| + |lines[0]| == |text|)
  {
    var text := pre + Joined(lines);
    if |lines| == 1 {
      SeparatorNowhere(pre, lines[0], CRLF);
    } else {
      assert text == pre + lines[0] + CRLF + Joined(lines[1..]);
      SeparatorBehind(pre, lines[0], CRLF, Joined(lines[1..]));
    }
  }

  /** The headers from some place on. */
  function HeadersFrom(text: Bytes, cursor: nat): seq<Header> {
    HeaderLines(text, cursor, [])
  }

  lemma {:induction false} BeforeIsKept(text: Bytes, cursor: nat, before: seq<Header>)
    ensures HeaderLines(text, cursor, before) == before + HeadersFrom(text, cursor)
    decreases |text| - cursor
  {
    if cursor >= |text| {
      assert before + [] == before;
    } else {
      var next := SearchOrEnd(text, CRLF, cursor);
      KeptOneStep(text, cursor, next, HeaderOf(text[cursor..next]), before);
    }
  }

  lemma KeptOneStep(text: Bytes, cursor: nat, next: nat, header: seq<Header>, before: seq<Header>)
    requires cursor < |text| && next == SearchOrEnd(text, CRLF, cursor) && header == HeaderOf(text[cursor..next])
    ensures HeaderLines(text, cursor, before) == before + HeadersFrom(text, cursor)
    decreases |text| - cursor, 0
  {
    BeforeIsKept(text, next + 2, before + header);
    BeforeIsKept(text, next + 2, [] + header);
    ConcatAssoc(before, header, HeadersFrom(text, next + 2));
    assert [] + header == header;
  }

  /** Reading on from a place, as a property of what each line and each place give. */
  ghost predicate ReadsAt(of: Bytes -> seq<Header>, from: nat -> seq<Header>, text: Bytes, cursor: nat) {
    if cursor >= |text| then from(cursor) == []
    else
      var next := SearchOrEnd(text, CRLF, cursor);
      from(cursor) == of(text[cursor..next]) + from(next + 2)
  }

  ghost predicate ReadsOn(of: Bytes -> seq<Header>, from: nat -> seq<Header>, text: Bytes) {
    forall cursor: nat :: ReadsAt(of, from, text, cursor)
  }

  lemma HeadersStep(text: Bytes, cursor: nat, next: nat, header: seq<Header>)
    requires cursor < |text| && next == SearchOrEnd(text, CRLF, cursor) && header == HeaderOf(text[cursor..next])
    ensures HeadersFrom(text, cursor) == header + HeadersFrom(text, next + 2)
  {
    assert [] + header == header;
    BeforeIsKept(text, next + 2, header);
  }

  lemma HeadersReadAt(of: Bytes -> seq<Header>, from: nat -> seq<Header>, text: Bytes, cursor: nat, next: nat)
    requires cursor < |text| && next == SearchOrEnd(text, CRLF, cursor)
    requires from(cursor) == of(text[cursor..next]) + from(next + 2)
    ensures ReadsAt(of, from, text, cursor)
  {
  }

  lemma NothingReadAt(text: Bytes, cursor: nat)
    requires cursor >= |text|
    ensures HeadersFrom(text, cursor) == []
  {
  }

  lemma HeadersReadOn(from: nat -> seq<Header>, text: Bytes)
    requires forall k: nat :: from(k) == HeadersFrom(text, k)
    ensures ReadsOn(HeaderOf, from, text)
  {
    forall cursor: nat
      ensures ReadsAt(HeaderOf, from, text, cursor)
    {
      if cursor < |text| {
        var next := SearchOrEnd(text, CRLF, cursor);
        HeadersStep(text, cursor, next, HeaderOf(text[cursor..next]));
        HeadersReadAt(HeaderOf, from, text, cursor, next);
      } else {
        NothingReadAt(text, cursor);
      }
    }
  }

  /** These lines are all that stands in the text from some place on. */
  ghost predicate Stand(text: Bytes, cursor: nat, lines: seq<Bytes>) {
    Lines(lines) && cursor <= |text| && text[cursor..] == Joined(lines)
  }

  /** The first of some lines ends where it should, and the others stand behind it. */
  lemma LineEnds(text: Bytes, cursor: nat, lines: seq<Bytes>)
    requires Stand(text, cursor, lines) && lines != []
    ensures cursor < |text| && SearchOrEnd(text, CRLF, cursor) == cursor + |lines[0]|
    ensures text[cursor..cursor + |lines[0]|] == lines[0]
    ensures var after := cursor + |lines[0]| + 2;
            if |lines| == 1 then after >= |text| else Stand(text, after, lines[1..])
  {
    var pre := text[..cursor];
    assert text == pre + Joined(lines);
    FirstLineEnds(pre, lines);
    if |lines| > 1 {
      assert Joined(lines)[|lines[0]| + 2..] == Joined(lines[1..]);
      assert text[cursor + |lines[0]| + 2..] == text[cursor..][|lines[0]| + 2..];
    }
  }

  /** Header lines are read one by one. */
  lemma {:induction false} LinesRead(
    of: Bytes -> seq<Header>, from: nat -> seq<Header>, text: Bytes, cursor: nat, lines: seq<Bytes>)
    requires ReadsOn(of, from, text) && Stand(text, cursor, lines) && lines != []
    ensures from(cursor) == HeadersIn(lines, of)
    decreases |lines|
  {
    var after := cursor + |lines[0]| + 2;
    LineEnds(text, cursor, lines);
    LineReadOff(of, from, text, cursor, lines[0]);
    if |lines| == 1 {
      assert ReadsAt(of, from, text, after) && HeadersIn(lines[1..], of) == [];
    } else {
      LinesRead(of, from, text, after, lines[1..]);
    }
  }

  lemma LineReadOff(of: Bytes -> seq<Header>, from: nat -> seq<Header>, text: Bytes, cursor: nat, line: Bytes)
    requires ReadsOn(of, from, text) && cursor < |text| && SearchOrEnd(text, CRLF, cursor) == cursor + |line|
    requires text[cursor..cursor + |line|] == line
    ensures from(cursor) == of(line) + from(cursor + |line| + 2)
  {
    assert ReadsAt(of, from, text, cursor);
  }

  lemma {:induction false} HeadersReadBack(headers: seq<Header>)
    requires forall i :: 0 <= i < |headers| ==> Clean(headers[i].name) && COLON !in headers[i].name && Clean(headers[i].value)
    ensures HeadersIn(HeaderTexts(headers), HeaderOf) == headers
  {
    if headers != [] {
      HeaderReads(headers[0]);
      assert HeaderTexts(headers)[1..] == HeaderTexts(headers[1..]);
      HeadersReadBack(headers[1..]);
    }
  }

  lemma LinesOfPrintable(r: Request)
    requires Printable(r)
    ensures Lines(LinesOf(r))
  {
    forall i | 0 <= i < |r.headers|
      ensures HeaderLine(r.headers[i]) != [] && CR !in HeaderLine(r.headers[i])
    {
    }
  }

  lemma HeadEndsFirst(r: Request)
    requires Printable(r)
    ensures var head := Joined(LinesOf(r));
            && SearchOrEnd(head, CRLF, 0) == |RequestLine(r)| && StartOf(head) == RequestLine(r)
            && (r.headers == [] ==> |head| == |RequestLine(r)|)
  {
    var head := Joined(LinesOf(r));
    LinesOfPrintable(r);
    assert [] + head == head;
    FirstLineEnds([], LinesOf(r));
  }

  /** The header part by itself, behind the line it follows. */
  lemma HeaderPart(start: Bytes, lines: seq<Bytes>, head: Bytes)
    requires Lines(lines) && head == Joined([start] + lines)
    ensures HeadersFrom(head, |start| + 2) == HeadersIn(lines, HeaderOf)
  {
    if lines != [] {
      assert ([start] + lines)[1..] == lines;
      assert head == start + CRLF + Joined(lines);
      assert head[|start| + 2..] == Joined(lines);
      var from := (cursor: nat) => HeadersFrom(head, cursor);
      HeadersReadOn(from, head);
      LinesRead(HeaderOf, from, head, |start| + 2, lines);
    }
  }

  /** Where the request line ends and which headers follow it. */
  ghost predicate HeadIs(head: Bytes, n: nat, headers: seq<Header>) {
    SearchOrEnd(head, CRLF, 0) == n && HeadersFrom(head, n + 2) == headers
  }

  lemma HeadIsRead(head: Bytes, n: nat, headers: seq<Header>)
    requires HeadIs(head, n, headers)
    ensures HeadersOf(head) == headers
  {
    assert [] + headers == headers;
  }

  lemma JoinedHeadIs(start: Bytes, lines: seq<Bytes>, head: Bytes)
    requires Lines([start] + lines) && head == Joined([start] + lines)
    ensures HeadIs(head, |start|, HeadersIn(lines, HeaderOf))
  {
    assert ([start] + lines)[1..] == lines && [] + head == head;
    FirstLineEnds([], [start] + lines);
    assert forall i :: 0 <= i < |lines| ==> lines[i] == ([start] + lines)[i + 1];
    HeaderPart(start, lines, head);
  }

  lemma HeadReads(r: Request)
    requires Printable(r)
    ensures StartOf(Joined(LinesOf(r))) == RequestLine(r) && HeadersOf(Joined(LinesOf(r))) == r.headers
  {
    HeadEndsFirst(r);
    LinesOfPrintable(r);
    JoinedHeadIs(RequestLine(r), HeaderTexts(r.headers), Joined(LinesOf(r)));
    HeadersReadBack(r.headers);
    HeadIsRead(Joined(LinesOf(r)), |RequestLine(r)|, r.headers);
  }

  // ----------------------------------------------------------------- the length

  lemma {:induction false} AllLeading(text: Bytes)
    requires forall i :: 0 <= i < |text| ==> IsDigit(text[i])
    ensures LeadingDigits(text) == |text|
  {
    if text != [] { AllLeading(text[1..]); }
  }

  lemma {:induction false} AsciiValue(s: string)
    requires Decimal.AllDigits(s)
    ensures forall i :: 0 <= i < |s| ==> IsDigit(Ascii(s)[i])
    ensures DecimalValue(Ascii(s)) == Decimal.Read(s)
    decreases |s|
  {
    forall i | 0 <= i < |s|
      ensures IsDigit(Ascii(s)[i])
    {
      assert Decimal.IsDigit(s[i]);
    }
    if s != [] {
      var front := s[..|s| - 1];
      assert Decimal.IsDigit(s[|s| - 1]);
      AsciiValue(front);
      assert Ascii(s)[..|s| - 1] == Ascii(front);
    }
  }

  /** A printed number is read as that number. */
  lemma DigitsRead(n: nat)
    requires n < SIZE_LIMIT
    ensures FromChars(Trimmed(Digits(n))) == Some(n)
  {
    var text := Decimal.Print(n);
    AsciiValue(text);
    Decimal.ReadPrint(n);
    AllLeading(Digits(n));
    assert Clean(Digits(n)) by {
      assert forall i :: 0 <= i < |text| ==> IsDigit(Digits(n)[i]);
    }
    CleanStays(Digits(n));
    assert Digits(n)[..|Digits(n)|] == Digits(n);
  }

  lemma {:induction false} AnnouncedLength(headers: seq<Header>, length: nat)
    requires Announces(headers, length) && length < SIZE_LIMIT
    ensures ContentLength(headers) == Some(length)
  {
    if headers != [] {
      if SameName(headers[0].name, CONTENT_LENGTH) {
        DigitsRead(length);
      } else {
        AnnouncedLength(headers[1..], length);
      }
    }
  }

  /** Names that differ in capitals only are one name. */
  lemma CapitalsDoNotMatter(a: string, b: string)
    requires |a| == |b|
    requires forall i :: 0 <= i < |a| ==> a[i] == b[i] || ('A' <= a[i] <= 'Z' && b[i] as int == a[i] as int + 32)
    ensures SameName(Ascii(a), Ascii(b)) && SameName(Ascii(b), Ascii(a))
  {
    forall i | 0 <= i < |a|
      ensures Lower(Ascii(a)[i]) == Lower(Ascii(b)[i])
    {
      assert a[i] == b[i] || ('A' <= a[i] <= 'Z' && b[i] as int == a[i] as int + 32);
    }
  }

  // ---------------------------------------------------------- the whole request

  /** In joined lines a line end is never followed by another. */
  lemma {:induction false} NoBlankLine(lines: seq<Bytes>)
    requires Lines(lines) && lines != []
    ensures var text := Joined(lines);
            && text != [] && text[0] != CR && text[|text| - 1] != CR && (|text| >= 2 ==> text[|text| - 2] != CR)
            && forall i :: 0 <= i < |text| - 2 && text[i] == CR ==> text[i + 2] != CR
  {
    if |lines| > 1 {
      NoBlankLine(lines[1..]);
      var text, rest, n := Joined(lines), Joined(lines[1..]), |lines[0]|;
      assert text == lines[0] + CRLF + rest;
      forall i | 0 <= i < |text| - 2
        ensures text[i] == CR ==> text[i + 2] != CR
      {
        if i < n {
          assert text[i] == lines[0][i];
        } else if i >= n + 2 {
          assert text[i] == rest[i - n - 2] && text[i + 2] == rest[i - n];
        } else {
          assert text[n + 1] == LF && text[n + 2] == rest[0];
        }
      }
    }
  }

  /** The blank line is found where it stands. */
  lemma BlankLineFound(lines: seq<Bytes>, rest: Bytes)
    requires Lines(lines) && lines != []
    ensures Search(Joined(lines) + TERMINATOR + rest, TERMINATOR, 0) == Some(|Joined(lines)|)
  {
    NoBlankLine(lines);
    TerminatorFound(Joined(lines), rest);
  }

  lemma TerminatorFound(head: Bytes, rest: Bytes)
    requires head != [] && head[|head| - 1] != CR && (|head| >= 2 ==> head[|head| - 2] != CR)
    requires forall k :: 0 <= k < |head| - 2 && head[k] == CR ==> head[k + 2] != CR
    ensures Search(head + TERMINATOR + rest, TERMINATOR, 0) == Some(|head|)
  {
    var text := head + TERMINATOR + rest;
    assert text[|head|..|head| + 4] == TERMINATOR;
    forall i | 0 <= i < |head|
      ensures !At(text, TERMINATOR, i)
    {
      NotSplit(head, rest, i);
      NotThere(text, i);
    }
    SearchFinds(text, TERMINATOR, 0, |head|);
  }

  lemma NotSplit(head: Bytes, rest: Bytes, i: nat)
    requires i < |head| && head[|head| - 1] != CR && (|head| >= 2 ==> head[|head| - 2] != CR)
    requires forall k :: 0 <= k < |head| - 2 && head[k] == CR ==> head[k + 2] != CR
    ensures var text := head + TERMINATOR + rest; text[i] != CR || text[i + 2] != CR
  {
  }

  lemma NotThere(text: Bytes, i: nat)
    requires i + 4 <= |text| && (text[i] != CR || text[i + 2] != CR)
    ensures !At(text, TERMINATOR, i)
  {
    assert text[i..i + 4][0] == text[i] && text[i..i + 4][2] == text[i + 2];
  }

  lemma HeadIsParsed(head: Bytes, r: Request, headers: seq<Header>, length: nat)
    requires StartLine(StartOf(head)) == Some(r) && HeadersOf(head) == headers && ContentLength(headers) == Some(length)
    ensures ParseHead(head) == Some(Head(r.(headers := headers), length))
  {
  }

  lemma BodyStands(buffer: Bytes, at: nat, body: Bytes, more: Bytes)
    requires at <= |buffer| && buffer[at..] == body + more
    ensures at + |body| <= |buffer| && buffer[at..at + |body|] == body
  {
    assert buffer[at..][..|body|] == body;
  }

  /** With the head read, the rest of the judgement. */
  lemma BodyReads(buffer: Bytes, n: nat, head: Head, body: Bytes)
    requires n + 4 + |body| < SIZE_LIMIT && n + 4 + |body| <= |buffer| && buffer[n + 4..n + 4 + |body|] == body
    requires ParseHead(buffer[..n]) == Some(head) && head.length == |body|
    ensures ParseFrom(buffer, n) == Complete(head.request.(body := body), n + 4 + |body|)
  {
    BodyEndWraps(n + 4, |body|);
  }

  /** The terminator found, the judgement is about what it divides. */
  lemma JudgementIs(buffer: Bytes, n: nat)
    requires n + 4 <= |buffer| && Search(buffer, TERMINATOR, 0) == Some(n)
    ensures Parse(buffer) == ParseFrom(buffer, n)
  {
  }

  lemma PrintedHead(r: Request)
    requires Printable(r) && |r.body| < SIZE_LIMIT
    ensures ParseHead(Joined(LinesOf(r))) == Some(Head(r.(body := []), |r.body|))
  {
    HeadReads(r);
    StartLineReads(r);
    AnnouncedLength(r.headers, |r.body|);
    HeadIsParsed(Joined(LinesOf(r)), Request(r.verb, r.uri, r.version, [], []), r.headers, |r.body|);
  }

  lemma TextDivides(head: Bytes, body: Bytes, more: Bytes, buffer: Bytes)
    requires buffer == head + TERMINATOR + body + more
    ensures buffer == head + TERMINATOR + (body + more)
    ensures buffer[..|head|] == head && buffer[|head| + 4..] == body + more
  {
  }

  /** What is printed and then anything more is read as that request, up to its end. */
  lemma PrintedReads(r: Request, more: Bytes)
    requires Printable(r) && |Printed(r)| < SIZE_LIMIT
    ensures Parse(Printed(r) + more) == Complete(r, |Printed(r)|)
  {
    var head, buffer := Joined(LinesOf(r)), Printed(r) + more;
    TextDivides(head, r.body, more, buffer);
    LinesOfPrintable(r);
    BlankLineFound(LinesOf(r), r.body + more);
    JudgementIs(buffer, |head|);
    PrintedHead(r);
    BodyStands(buffer, |head| + 4, r.body, more);
    BodyReads(buffer, |head|, Head(r.(body := []), |r.body|), r.body);
  }
}
