/** RTSP message framing: what one request at the front of a byte buffer is. Text is
    bytes throughout, as on the wire. */
module Rtsp {
  import opened Basics
  import opened CryptoLaws

  const CR: byte := 13
  const LF: byte := 10
  const SPACE: byte := 32
  const TAB: byte := 9
  const COLON: byte := 58
  const CRLF: Bytes := [CR, LF]
  const TERMINATOR: Bytes := [CR, LF, CR, LF]
  const SIZE_LIMIT: nat := 0x1_0000_0000_0000_0000

  datatype Header = Header(name: Bytes, value: Bytes)

  datatype Request = Request(verb: Bytes, uri: Bytes, version: Bytes, headers: seq<Header>, body: Bytes)

  /** `Overflow`: the sum of header and body wrapped round, and the body would end before
      it starts. */
  datatype Parsed = Incomplete | Malformed | Overflow | Complete(request: Request, consumed: nat)

  // ------------------------------------------------------------------ searching

  /** The first place at or after `from` where `what` occurs. */
  function Search(text: Bytes, what: Bytes, from: nat): (r: Option<nat>)
    ensures r.Some? ==> from <= r.value && r.value + |what| <= |text| && text[r.value..r.value + |what|] == what
    decreases |text| - from
  {
    if from + |what| > |text| then None
    else if text[from..from + |what|] == what then Some(from)
    else Search(text, what, from + 1)
  }

  /** Up to the first occurrence, or to the end. */
  function SearchOrEnd(text: Bytes, what: Bytes, from: nat): (r: nat)
    requires from <= |text|
    ensures from <= r <= |text|
  {
    match Search(text, what, from)
    case Some(at) => at
    case None => |text|
  }

  function TrimFront(text: Bytes): Bytes {
    if text != [] && text[0] in {SPACE, TAB} then TrimFront(text[1..]) else text
  }

  function TrimBack(text: Bytes): Bytes {
    if text != [] && text[|text| - 1] in {SPACE, TAB, CR} then TrimBack(text[..|text| - 1]) else text
  }

  function Trimmed(text: Bytes): Bytes {
    TrimBack(TrimFront(text))
  }

  method Trim(text: Bytes) returns (r: Bytes)
    ensures r == Trimmed(text)
  {
    r := text;
    while |r| > 0 && (r[0] == SPACE || r[0] == TAB)
      invariant TrimFront(r) == TrimFront(text)
    {
      r := r[1..];
    }
    ghost var front := r;
    while |r| > 0 && (r[|r| - 1] == SPACE || r[|r| - 1] == TAB || r[|r| - 1] == CR)
      invariant TrimBack(r) == TrimBack(front)
    {
      r := r[..|r| - 1];
    }
  }

  // -------------------------------------------------------------------- headers

  function Lower(b: byte): byte {
    if 65 <= b <= 90 then b + 32 else b
  }

  predicate SameName(a: Bytes, b: Bytes) {
    |a| == |b| && forall i :: 0 <= i < |a| ==> Lower(a[i]) == Lower(b[i])
  }

  /** Case-insensitive lookup; the first match wins. */
  function Lookup(headers: seq<Header>, name: Bytes): Option<Bytes> {
    if headers == [] then None
    else if SameName(headers[0].name, name) then Some(headers[0].value)
    else Lookup(headers[1..], name)
  }

  /** One header line; a line without a colon is skipped. */
  function HeaderOf(line: Bytes): seq<Header> {
    match Search(line, [COLON], 0)
    case Some(colon) => [Header(Trimmed(line[..colon]), Trimmed(line[colon + 1..]))]
    case None => []
  }

  /** The headers read so far and those of the lines from `cursor` on. */
  function HeaderLines(head: Bytes, cursor: nat, before: seq<Header>): seq<Header>
    decreases |head| - cursor
  {
    if cursor >= |head| then before
    else
      var next := SearchOrEnd(head, CRLF, cursor);
      HeaderLines(head, next + 2, before + HeaderOf(head[cursor..next]))
  }

  predicate IsDigit(b: byte) {
    48 <= b <= 57
  }

  function LeadingDigits(text: Bytes): (n: nat)
    ensures n <= |text|
  {
    if text != [] && IsDigit(text[0]) then 1 + LeadingDigits(text[1..]) else 0
  }

  function DecimalValue(digits: Bytes): nat
    requires forall i :: 0 <= i < |digits| ==> IsDigit(digits[i])
  {
    if digits == [] then 0 else
      assert IsDigit(digits[|digits| - 1]);
      DecimalValue(digits[..|digits| - 1]) * 10 + (digits[|digits| - 1] - 48) as nat
  }

  lemma LeadingDigitsAre(text: Bytes)
    ensures forall i :: 0 <= i < LeadingDigits(text) ==> IsDigit(text[i])
  {
    if text != [] && IsDigit(text[0]) {
      LeadingDigitsAre(text[1..]);
    }
  }

  /** An unsigned decimal at the front of the text; what follows it is ignored. */
  function FromChars(text: Bytes): Option<nat> {
    LeadingDigitsAre(text);
    var digits := text[..LeadingDigits(text)];
    if digits == [] || DecimalValue(digits) >= SIZE_LIMIT then None else Some(DecimalValue(digits))
  }

  const CONTENT_LENGTH: Bytes := Ascii("Content-Length")

  function ContentLength(headers: seq<Header>): Option<nat> {
    match Lookup(headers, CONTENT_LENGTH)
    case None => Some(0)
    case Some(value) => FromChars(Trimmed(value))
  }

  // -------------------------------------------------------------------- parsing

  datatype Head = Head(request: Request, length: nat)

  /** METHOD SP URI SP VERSION. */
  function StartLine(line: Bytes): Option<Request> {
    match Search(line, [SPACE], 0)
    case None => None
    case Some(first) =>
      match Search(line, [SPACE], first + 1)
      case None => None
      case Some(second) =>
        Some(Request(line[..first], line[first + 1..second], Trimmed(line[second + 1..]), [], []))
  }

  function StartOf(head: Bytes): Bytes {
    head[..SearchOrEnd(head, CRLF, 0)]
  }

  /** With no line end the request line is everything and there are no headers. */
  function HeadersOf(head: Bytes): seq<Header> {
    HeaderLines(head, SearchOrEnd(head, CRLF, 0) + 2, [])
  }

  /** Everything up to the blank line: the request line, the headers, and how long a
      body they announce. */
  function ParseHead(head: Bytes): Option<Head> {
    match StartLine(StartOf(head))
    case None => None
    case Some(request) =>
      match ContentLength(HeadersOf(head))
      case None => None
      case Some(length) => Some(Head(request.(headers := HeadersOf(head)), length))
  }

  /** Where the body ends, in the width of a size. */
  function BodyEnd(bodyStart: nat, length: nat): nat {
    (bodyStart + length) % SIZE_LIMIT
  }

  lemma BodyEndWraps(bodyStart: nat, length: nat)
    requires bodyStart < SIZE_LIMIT && length < SIZE_LIMIT
    ensures bodyStart + length < SIZE_LIMIT ==> BodyEnd(bodyStart, length) == bodyStart + length
    ensures bodyStart + length >= SIZE_LIMIT ==> BodyEnd(bodyStart, length) == bodyStart + length - SIZE_LIMIT < bodyStart
  {
  }

  /** The rest of the judgement once the blank line has been found. */
  function ParseFrom(buffer: Bytes, headerEnd: nat): Parsed
    requires headerEnd + 4 <= |buffer|
  {
    match ParseHead(buffer[..headerEnd])
    case None => Malformed
    case Some(head) =>
      var bodyStart := headerEnd + 4;
      var total := BodyEnd(bodyStart, head.length);
      if |buffer| < total then Incomplete
      else if total < bodyStart then Overflow
      else Complete(head.request.(body := buffer[bodyStart..total]), total)
  }

  function Parse(buffer: Bytes): Parsed {
    match Search(buffer, TERMINATOR, 0)
    case None => Incomplete
    case Some(headerEnd) => ParseFrom(buffer, headerEnd)
  }

  method ParseHeaderLine(line: Bytes) returns (header: seq<Header>)
    ensures header == HeaderOf(line)
  {
    var colon := Search(line, [COLON], 0);
    if colon.None? {
      return [];
    }
    var name := Trim(line[..colon.value]);
    var value := Trim(line[colon.value + 1..]);
    return [Header(name, value)];
  }

  /** Reading one line off takes its header and moves on to `after`. */
  ghost predicate LineReads(head: Bytes, cursor: nat, header: seq<Header>, after: nat) {
    && cursor < after
    && forall before: seq<Header> :: HeaderLines(head, cursor, before) == HeaderLines(head, after, before + header)
  }

  lemma HeaderLinesStep(head: Bytes, cursor: nat, header: seq<Header>, after: nat)
    requires cursor < |head| && after == SearchOrEnd(head, CRLF, cursor) + 2 && header == HeaderOf(head[cursor..after - 2])
    ensures LineReads(head, cursor, header, after)
  {
  }

  /** The loop body: one line, and where the next one starts. */
  method ParseNextHeader(head: Bytes, cursor: nat) returns (header: seq<Header>, after: nat)
    requires cursor < |head|
    ensures LineReads(head, cursor, header, after)
  {
    var next := SearchOrEnd(head, CRLF, cursor);
    header := ParseHeaderLine(head[cursor..next]);
    after := next + 2;
    HeaderLinesStep(head, cursor, header, after);
  }

  method ParseHeaders(head: Bytes, start: nat) returns (headers: seq<Header>)
    ensures headers == HeaderLines(head, start, [])
  {
    headers := [];
    var cursor := start;
    while cursor < |head|
      invariant HeaderLines(head, cursor, headers) == HeaderLines(head, start, [])
      decreases |head| - cursor
    {
      var header, after := ParseNextHeader(head, cursor);
      headers := headers + header;
      cursor := after;
    }
  }

  method ParseLength(headers: seq<Header>) returns (length: Option<nat>)
    ensures length == ContentLength(headers)
  {
    var value := Lookup(headers, CONTENT_LENGTH);
    if value.None? {
      return Some(0);
    }
    var digits := Trim(value.value);
    return FromChars(digits);
  }

  method ParseStartLine(line: Bytes) returns (r: Option<Request>)
    ensures r == StartLine(line)
  {
    var first := Search(line, [SPACE], 0);
    if first.None? {
      return None;
    }
    var second := Search(line, [SPACE], first.value + 1);
    if second.None? {
      return None;
    }
    var version := Trim(line[second.value + 1..]);
    return Some(Request(line[..first.value], line[first.value + 1..second.value], version, [], []));
  }

  method ParseHeadBytes(head: Bytes) returns (r: Option<Head>)
    ensures r == ParseHead(head)
  {
    var request := ParseStartLine(StartOf(head));
    if request.None? {
      return None;
    }
    var headers := ParseHeaders(head, SearchOrEnd(head, CRLF, 0) + 2);
    var length := ParseLength(headers);
    if length.None? {
      return None;
    }
    return Some(Head(request.value.(headers := headers), length.value));
  }

  method ParseRequest(buffer: Bytes) returns (r: Parsed)
    ensures r == Parse(buffer)
  {
    var headerEnd := Search(buffer, TERMINATOR, 0);
    if headerEnd.None? {
      return Incomplete;
    }
    var head := ParseHeadBytes(buffer[..headerEnd.value]);
    if head.None? {
      return Malformed;
    }
    var bodyStart := headerEnd.value + |TERMINATOR|;
    var total := BodyEnd(bodyStart, head.value.length);
    if |buffer| < total {
      return Incomplete;
    }
    if total < bodyStart {
      return Overflow;
    }
    return Complete(head.value.request.(body := buffer[bodyStart..total]), total);
  }

  // ------------------------------------------------- stability under more bytes

  lemma {:induction false} SearchStable(text: Bytes, more: Bytes, what: Bytes, from: nat)
    requires Search(text, what, from).Some?
    ensures Search(text + more, what, from) == Search(text, what, from)
    decreases |text| - from
  {
    assert (text + more)[from..from + |what|] == text[from..from + |what|];
    if text[from..from + |what|] != what {
      SearchStable(text, more, what, from + 1);
    }
  }

  lemma ParseFromStable(buffer: Bytes, more: Bytes, headerEnd: nat)
    requires headerEnd + 4 <= |buffer| && !ParseFrom(buffer, headerEnd).Incomplete?
    ensures ParseFrom(buffer + more, headerEnd) == ParseFrom(buffer, headerEnd)
  {
    assert (buffer + more)[..headerEnd] == buffer[..headerEnd];
    if ParseFrom(buffer, headerEnd).Complete? {
      var total := ParseFrom(buffer, headerEnd).consumed;
      assert (buffer + more)[headerEnd + 4..total] == buffer[headerEnd + 4..total];
    }
  }

  /** Once a buffer has been judged, bytes that arrive later do not change the
      judgement: not the request, not its length, not its rejection. */
  lemma ParseStable(buffer: Bytes, more: Bytes)
    requires !Parse(buffer).Incomplete?
    ensures Parse(buffer + more) == Parse(buffer)
  {
    SearchStable(buffer, more, TERMINATOR, 0);
    ParseFromStable(buffer, more, Search(buffer, TERMINATOR, 0).value);
  }

  lemma ParseBounds(buffer: Bytes)
    ensures Parse(buffer).Complete? ==> 0 < Parse(buffer).consumed <= |buffer|
  {
  }

  /** For a buffer that fits in memory the wrapped sum is taken for complete exactly when
      header and body together pass the size of the address space, and never waits for
      more; otherwise the judgement is about the true sum. */
  lemma WrapsExactlyPastTheLimit(buffer: Bytes, headerEnd: nat)
    requires headerEnd + 4 <= |buffer| < SIZE_LIMIT && ParseHead(buffer[..headerEnd]).Some?
    requires ParseHead(buffer[..headerEnd]).value.length < SIZE_LIMIT
    ensures var total := headerEnd + 4 + ParseHead(buffer[..headerEnd]).value.length;
            && (ParseFrom(buffer, headerEnd).Overflow? <==> total >= SIZE_LIMIT)
            && (ParseFrom(buffer, headerEnd).Incomplete? <==> |buffer| < total < SIZE_LIMIT)
  {
    var head := ParseHead(buffer[..headerEnd]);
    JudgedByLength(buffer, headerEnd, head, BodyEnd(headerEnd + 4, head.value.length));
    BodyEndWraps(headerEnd + 4, head.value.length);
  }

  lemma JudgedByLength(buffer: Bytes, headerEnd: nat, head: Option<Head>, total: nat)
    requires headerEnd + 4 <= |buffer| && head.Some? && head == ParseHead(buffer[..headerEnd])
    requires total == BodyEnd(headerEnd + 4, head.value.length)
    ensures ParseFrom(buffer, headerEnd).Incomplete? <==> |buffer| < total
    ensures ParseFrom(buffer, headerEnd).Overflow? <==> total <= |buffer| && total < headerEnd + 4
  {
  }

  /** A byte string that is exactly one request. */
  ghost predicate WellFormed(text: Bytes) {
    Parse(text).Complete? && Parse(text).consumed == |text|
  }

  lemma StableOrIncomplete(start: Bytes, more: Bytes)
    ensures Parse(start).Incomplete? || (Parse(start + more) == Parse(start) && (Parse(start).Complete? ==> Parse(start).consumed <= |start|))
  {
    if !Parse(start).Incomplete? {
      ParseStable(start, more);
      ParseBounds(start);
    }
  }

  /** A request still arriving is never mistaken for anything else. */
  lemma PrefixIncomplete(start: Bytes, more: Bytes)
    requires WellFormed(start + more) && more != []
    ensures Parse(start) == Incomplete
  {
    StableOrIncomplete(start, more);
  }
}
