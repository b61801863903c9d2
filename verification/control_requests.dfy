/** The control connection end to end: requests as values, printed, sealed, cut up, read. */
module ControlRequests {
  import opened Basics
  import opened CryptoLaws
  import opened ChannelCrypto
  import opened Rtsp
  import opened RtspText
  import opened ControlSession

  function Texts(requests: seq<Request>): (texts: seq<Bytes>)
    ensures |texts| == |requests| && forall i :: 0 <= i < |texts| ==> texts[i] == Printed(requests[i])
  {
    seq(|requests|, i requires 0 <= i < |requests| => Printed(requests[i]))
  }

  ghost predicate AllPrintable(requests: seq<Request>) {
    forall i :: 0 <= i < |requests| ==> Printable(requests[i]) && |Printed(requests[i])| < SIZE_LIMIT
  }

  lemma PrintedIsWhole(r: Request)
    requires Printable(r) && |Printed(r)| < SIZE_LIMIT
    ensures Parse(Printed(r)) == Complete(r, |Printed(r)|)
  {
    assert Printed(r) + [] == Printed(r);
    PrintedReads(r, []);
  }

  lemma {:induction false} RequestsAreBack(requests: seq<Request>)
    requires AllPrintable(requests)
    ensures Reads(Parse, Texts(requests), requests)
  {
    forall i | 0 <= i < |requests|
      ensures Parse(Texts(requests)[i]) == Complete(requests[i], |Texts(requests)[i]|)
    {
      PrintedIsWhole(requests[i]);
    }
    OneRequestEach(Parse, Texts(requests));
  }

  ghost predicate Ready(parse: Bytes -> Parsed) {
    Incremental(parse) && parse([]).Incomplete?
  }

  /** Each text is one request, and these are they. */
  ghost predicate Reads(parse: Bytes -> Parsed, texts: seq<Bytes>, requests: seq<Request>) {
    EachWhole(parse, texts) && RequestsIn(parse, texts) == requests
  }

  lemma ParseIsReady()
    ensures Ready(Parse)
  {
    ParseIsIncremental();
    assert Search([], TERMINATOR, 0) == None;
  }

  lemma HandlesAsRead(
    c: Crypto, key: Bytes, parse: Bytes -> Parsed, counter: nat, texts: seq<Bytes>, requests: seq<Request>, chunks: seq<Bytes>)
    requires AeadLaw(c) && |key| == KEY_SIZE && Flatten(chunks) == SealEach(c, key, counter, texts)
    requires Ready(parse) && Reads(parse, texts, requests)
    ensures ReceiveAll(c, key, parse, Live([], [], counter, []), chunks)
         == Live([], [], counter + FramesOfEach(texts), requests)
  {
    HandlesEach(c, key, parse, counter, texts, chunks);
  }

  /** Whatever requests the phone writes out and seals, and however their bytes are cut into
      reads, the loop handles those very requests, in order, and nothing is left over. */
  lemma HandlesThoseRequests(c: Crypto, key: Bytes, counter: nat, requests: seq<Request>, chunks: seq<Bytes>)
    requires AeadLaw(c) && |key| == KEY_SIZE && AllPrintable(requests)
    requires Flatten(chunks) == SealEach(c, key, counter, Texts(requests))
    ensures ReceiveAll(c, key, Parse, Live([], [], counter, []), chunks)
         == Live([], [], counter + FramesOfEach(Texts(requests)), requests)
  {
    var texts := Texts(requests);
    RequestsAreBack(requests);
    ParseIsReady();
    HandlesAsRead(c, key, Parse, counter, texts, requests, chunks);
  }

  // --------------------------------------------------------- what is no request

  ghost predicate Refused(parse: Bytes -> Parsed, text: Bytes) {
    parse(text).Malformed? || parse(text).Overflow?
  }

  /** Requests with something else behind them: those come off the front, the rest is judged
      by itself. */
  lemma {:induction false} DrainsUpTo(parse: Bytes -> Parsed, texts: seq<Bytes>, rest: Bytes)
    requires Incremental(parse) && EachWhole(parse, texts)
    ensures Drain(parse, Flatten(texts) + rest) == After(RequestsIn(parse, texts), Drain(parse, rest))
    decreases |texts|
  {
    if texts == [] {
      AfterNothing(Drain(parse, rest));
      assert Flatten(texts) + rest == rest;
    } else {
      var first, more := texts[0], Flatten(texts[1..]) + rest;
      assert Flatten(texts) + rest == first + more;
      DrainsUpTo(parse, texts[1..], rest);
      assert first + [] == first;
      DrainStep(parse, first, more);
      assert first[|first|..] + more == more;
      AfterBoth([parse(first).request], RequestsIn(parse, texts[1..]), Drain(parse, rest));
    }
  }

  lemma BadDrains(parse: Bytes -> Parsed, texts: seq<Bytes>, requests: seq<Request>, bad: Bytes)
    requires Incremental(parse) && Reads(parse, texts, requests) && Refused(parse, bad)
    ensures Drain(parse, Flatten(texts) + bad) == Drained(false, [], requests)
  {
    DrainsUpTo(parse, texts, bad);
    assert RequestsIn(parse, texts) + [] == RequestsIn(parse, texts);
  }

  lemma {:induction false} FlattenSnoc(texts: seq<Bytes>, last: Bytes)
    ensures Flatten(texts + [last]) == Flatten(texts) + last
  {
    FlattenAppend(texts, [last]);
    assert Flatten([last]) == last + Flatten([]) == last;
  }

  lemma ClosesAfter(
    c: Crypto, key: Bytes, parse: Bytes -> Parsed, counter: nat, texts: seq<Bytes>, requests: seq<Request>, bad: Bytes, chunks: seq<Bytes>)
    requires AeadLaw(c) && |key| == KEY_SIZE && Ready(parse) && Reads(parse, texts, requests) && Refused(parse, bad)
    requires Flatten(chunks) == SealEach(c, key, counter, texts + [bad])
    ensures ReceiveAll(c, key, parse, Live([], [], counter, []), chunks) == Closed(requests)
  {
    var wire, start := Flatten(chunks), Live([], [], counter, []);
    FlattenSnoc(texts, bad);
    assert [] + wire == wire && [] + Flatten(texts + [bad]) == Flatten(texts + [bad]);
    OpenUndoesSealEach(c, key, counter, texts + [bad], wire, [], Flatten(texts + [bad]), counter + FramesOfEach(texts + [bad]));
    BadDrains(parse, texts, requests, bad);
    assert [] + requests == requests;
    SegmentationIndependence(c, key, parse, start, chunks);
  }

  /** Sealed text that is no request closes the connection, however everything is cut into
      reads; the requests before it are handled, and nothing after it is. */
  lemma RefusedTextCloses(c: Crypto, key: Bytes, counter: nat, requests: seq<Request>, bad: Bytes, chunks: seq<Bytes>)
    requires AeadLaw(c) && |key| == KEY_SIZE && AllPrintable(requests) && Refused(Parse, bad)
    requires Flatten(chunks) == SealEach(c, key, counter, Texts(requests) + [bad])
    ensures ReceiveAll(c, key, Parse, Live([], [], counter, []), chunks) == Closed(requests)
  {
    RequestsAreBack(requests);
    ParseIsReady();
    ClosesAfter(c, key, Parse, counter, Texts(requests), requests, bad, chunks);
  }

  /** A request line with no space in it is no request. */
  lemma NoSpaceIsRefused(line: Bytes, rest: Bytes)
    requires line != [] && Word(line)
    ensures Refused(Parse, line + TERMINATOR + rest)
  {
    var text := line + TERMINATOR + rest;
    TerminatorFound(line, rest);
    assert text[..|line|] == line;
    JudgementIs(text, |line|);
    LoneWord(line);
  }

  lemma LoneWord(line: Bytes)
    requires Word(line)
    ensures ParseHead(line) == None
  {
    assert [] + line == line;
    SeparatorNowhere([], line, CRLF);
    SeparatorNowhere([], line, [SPACE]);
    assert line[..|line|] == line;
  }

  // ------------------------------------------------------------ the two cuttings

  /** "G / R" and nothing else. */
  const SMALLEST := Request([71], [47], [82], [], [])

  /** There are primitives, a request and bytes for which the cutting decides whether the
      request is handled. */
  lemma CuttingCanMatter(key: Bytes)
    requires |key| == KEY_SIZE
    ensures var c, start := Transparent(), Live([], [], 0, []);
            var good := SealEach(c, key, 0, [Printed(SMALLEST)]);
            && Lawful(c) && WellFormed(Printed(SMALLEST))
            && Receive(c, key, Parse, start, good + FORGED) == Closed([])
            && ReceiveAll(c, key, Parse, start, [good, FORGED]) == Closed([SMALLEST])
  {
    LawsHaveAModel();
    PrintedIsWhole(SMALLEST);
    ParseIsReady();
    ForgedNeverOpens(key);
    CuttingIs(Transparent(), key, Parse, Printed(SMALLEST), SMALLEST, FORGED);
  }

  lemma ForgedNeverOpens(key: Bytes)
    ensures forall counter: nat :: !OpenAll(Transparent(), key, counter, FORGED, []).ok
  {
    forall counter: nat
      ensures !OpenAll(Transparent(), key, counter, FORGED, []).ok
    {
      ForgedFails(key, counter);
    }
  }

  lemma CuttingIs(c: Crypto, key: Bytes, parse: Bytes -> Parsed, text: Bytes, request: Request, bad: Bytes)
    requires AeadLaw(c) && |key| == KEY_SIZE && Ready(parse) && parse(text) == Complete(request, |text|)
    requires forall counter: nat :: !OpenAll(c, key, counter, bad, []).ok
    ensures var start, good := Live([], [], 0, []), SealEach(c, key, 0, [text]);
            && Receive(c, key, parse, start, good + bad) == Closed([])
            && ReceiveAll(c, key, parse, start, [good, bad]) == Closed([request])
  {
    CuttingMatters(c, key, parse, text, bad);
  }
}
