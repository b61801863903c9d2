/** One encrypted control connection: bytes are read in whatever pieces the socket
    gives, opened into plaintext, and every whole request is handled in order. */
module ControlSession {
  import opened Basics
  import opened CryptoLaws
  import opened ChannelCrypto
  import opened Rtsp

  // ----------------------------------------------------------- specification

  /** What the read loop needs of a request parser: a judgement does not change when
      more bytes arrive, and what it consumes is there. */
  ghost predicate Incremental(parse: Bytes -> Parsed) {
    && (forall b, more :: !parse(b).Incomplete? ==> parse(b + more) == parse(b))
    && (forall b :: parse(b).Complete? ==> 0 < parse(b).consumed <= |b|)
  }

  lemma ParseIsIncremental()
    ensures Incremental(Parse)
  {
    forall b, more
      ensures !Parse(b).Incomplete? ==> Parse(b + more) == Parse(b)
    {
      StableOrIncomplete(b, more);
    }
    forall b
      ensures Parse(b).Complete? ==> 0 < Parse(b).consumed <= |b|
    {
      ParseBounds(b);
    }
  }

  /** What taking every whole request off the front of the plaintext gives: the
      requests, what is left, and whether the connection survives it. */
  datatype Drained = Drained(ok: bool, rest: Bytes, requests: seq<Request>)

  function Drain(parse: Bytes -> Parsed, plain: Bytes): Drained
    decreases |plain|
  {
    match parse(plain)
    case Incomplete => Drained(true, plain, [])
    case Malformed => Drained(false, [], [])
    case Overflow => Drained(false, [], [])
    case Complete(request, consumed) =>
      if consumed == 0 || |plain| < consumed then Drained(true, plain, [])
      else
        var later := Drain(parse, plain[consumed..]);
        later.(requests := [request] + later.requests)
  }

  datatype Session =
    | Live(cipher: Bytes, plain: Bytes, counter: nat, handled: seq<Request>)
    | Closed(handled: seq<Request>)

  /** One pass of the read loop. */
  function Receive(c: Crypto, key: Bytes, parse: Bytes -> Parsed, s: Session, chunk: Bytes): Session {
    if s.Closed? then s
    else
      var o := OpenAll(c, key, s.counter, s.cipher + chunk, s.plain);
      if !o.ok then Closed(s.handled) else Handle(parse, s.handled, o.cipher, o.counter, o.plain)
  }

  /** What the loop does with plaintext it has just opened. */
  function Handle(parse: Bytes -> Parsed, handled: seq<Request>, cipher: Bytes, counter: nat, plain: Bytes): Session {
    var d := Drain(parse, plain);
    if d.ok then Live(cipher, d.rest, counter, handled + d.requests) else Closed(handled + d.requests)
  }

  function ReceiveAll(c: Crypto, key: Bytes, parse: Bytes -> Parsed, s: Session, chunks: seq<Bytes>): Session
    decreases |chunks|
  {
    if chunks == [] then s else ReceiveAll(c, key, parse, Receive(c, key, parse, s, chunks[0]), chunks[1..])
  }

  // ------------------------------------------------------------------ object

  class Connection {
    const channel: Channel
    var buffer: Bytes
    var plaintext: Bytes
    var handled: seq<Request>
    var closed: bool

    constructor (channel: Channel)
      ensures this.channel == channel && View() == Live([], [], channel.inboundCounter, [])
    {
      this.channel, buffer, plaintext, handled, closed := channel, [], [], [], false;
    }

    ghost function View(): Session
      reads this, channel
    {
      if closed then Closed(handled) else Live(buffer, plaintext, channel.inboundCounter, handled)
    }

    method ReadChunk(chunk: Bytes)
      requires channel.active
      modifies this, channel`inboundCounter
      ensures View() == Receive(channel.c, channel.inboundKey, Parse, old(View()), chunk)
    {
      if closed {
        return;
      }
      buffer := buffer + chunk;
      var ok: bool;
      ok, buffer, plaintext := channel.Open(buffer, plaintext);
      if !ok {
        closed := true;
        return;
      }
      DrainRequests();
    }

    /** Handles every complete request in the plaintext. */
    method DrainRequests()
      requires !closed
      modifies this`plaintext, this`handled, this`closed
      ensures var d := Drain(Parse, old(plaintext));
              && closed == !d.ok && handled == old(handled) + d.requests
              && (d.ok ==> plaintext == d.rest)
    {
      ghost var all := Drain(Parse, plaintext);
      while true
        invariant !closed
        invariant var d := Drain(Parse, plaintext);
                  d.ok == all.ok && d.rest == all.rest && handled + d.requests == old(handled) + all.requests
        decreases |plaintext|
      {
        ParseBounds(plaintext);
        var parsed := ParseRequest(plaintext);
        if parsed.Malformed? || parsed.Overflow? {
          closed := true;
          return;
        }
        if parsed.Incomplete? {
          return;
        }
        ghost var later := Drain(Parse, plaintext[parsed.consumed..]).requests;
        assert handled + ([parsed.request] + later) == handled + [parsed.request] + later;
        plaintext := plaintext[parsed.consumed..];
        handled := handled + [parsed.request];
      }
    }
  }

  // ---------------------------------------------------------- drain in two goes

  function After(requests: seq<Request>, d: Drained): Drained {
    d.(requests := requests + d.requests)
  }

  lemma AfterNothing(d: Drained)
    ensures After([], d) == d
  {
    assert [] + d.requests == d.requests;
  }

  lemma AfterBoth(a: seq<Request>, b: seq<Request>, d: Drained)
    ensures After(a, After(b, d)) == After(a + b, d)
  {
    assert a + (b + d.requests) == a + b + d.requests;
  }

  lemma DrainStep(parse: Bytes -> Parsed, plain: Bytes, more: Bytes)
    requires Incremental(parse) && parse(plain).Complete?
    ensures var p := parse(plain);
            && 0 < p.consumed <= |plain|
            && Drain(parse, plain) == After([p.request], Drain(parse, plain[p.consumed..]))
            && Drain(parse, plain + more) == After([p.request], Drain(parse, plain[p.consumed..] + more))
  {
    assert parse(plain + more) == parse(plain);
    assert (plain + more)[parse(plain).consumed..] == plain[parse(plain).consumed..] + more;
  }

  /** Draining early, then draining what is left with the bytes that came later, is
      draining once. */
  lemma {:induction false} DrainInTwo(parse: Bytes -> Parsed, plain: Bytes, more: Bytes)
    requires Incremental(parse)
    ensures var d := Drain(parse, plain);
            Drain(parse, plain + more) == if d.ok then After(d.requests, Drain(parse, d.rest + more)) else d
    decreases |plain|
  {
    var d := Drain(parse, plain);
    if parse(plain).Complete? {
      DrainStep(parse, plain, more);
      var n, first := parse(plain).consumed, parse(plain).request;
      var later := Drain(parse, plain[n..]);
      DrainInTwo(parse, plain[n..], more);
      if later.ok {
        AfterBoth([first], later.requests, Drain(parse, later.rest + more));
      }
    } else if parse(plain).Incomplete? {
      AfterNothing(Drain(parse, plain + more));
    } else {
      assert parse(plain + more) == parse(plain);
    }
  }

  lemma {:induction false} DrainSettles(parse: Bytes -> Parsed, plain: Bytes)
    requires Incremental(parse)
    ensures Drain(parse, plain).ok ==> Drain(parse, Drain(parse, plain).rest) == Drained(true, Drain(parse, plain).rest, [])
    decreases |plain|
  {
    if parse(plain).Complete? {
      DrainSettles(parse, plain[parse(plain).consumed..]);
    }
  }

  // --------------------------------------------------- segmentation independence

  /** Nothing is waiting that could already be taken: how every pass leaves things. */
  ghost predicate Settled(parse: Bytes -> Parsed, s: Session) {
    s.Live? ==> !WholeFrame(s.cipher) && Drain(parse, s.plain) == Drained(true, s.plain, [])
  }

  lemma ReceiveSettles(c: Crypto, key: Bytes, parse: Bytes -> Parsed, s: Session, chunk: Bytes)
    requires Incremental(parse) && Settled(parse, s)
    ensures Settled(parse, Receive(c, key, parse, s, chunk))
  {
    if s.Live? {
      var o := OpenAll(c, key, s.counter, s.cipher + chunk, s.plain);
      OpenSettles(c, key, s.counter, s.cipher + chunk, s.plain);
      DrainSettles(parse, o.plain);
    }
  }

  /** All the bytes still to come authenticate. */
  ghost predicate Authentic(c: Crypto, key: Bytes, s: Session, bytes: Bytes) {
    s.Live? ==> OpenAll(c, key, s.counter, s.cipher + bytes, []).ok
  }

  lemma OpenInTwoFrom(c: Crypto, key: Bytes, counter: nat, cipher: Bytes, more: Bytes, plain: Bytes)
    requires OpenAll(c, key, counter, cipher + more, []).ok
    ensures var o := OpenAll(c, key, counter, cipher, plain);
            && o.ok
            && var late := OpenAll(c, key, o.counter, o.cipher + more, []);
            && late.ok
            && OpenAll(c, key, counter, cipher + more, plain) == Progress(true, late.cipher, o.plain + late.plain, late.counter)
  {
    OpenInTwo(c, key, counter, cipher, more, plain);
    OpenAppends(c, key, counter, cipher + more, plain);
    var o := OpenAll(c, key, counter, cipher, plain);
    OpenAppends(c, key, o.counter, o.cipher + more, o.plain);
  }

  lemma HandleInTwo(parse: Bytes -> Parsed, handled: seq<Request>, cipher: Bytes, counter: nat, plain: Bytes, more: Bytes)
    requires Incremental(parse)
    ensures var d := Drain(parse, plain);
            Handle(parse, handled, cipher, counter, plain + more) ==
              if d.ok then Handle(parse, handled + d.requests, cipher, counter, d.rest + more)
              else Closed(handled + d.requests)
  {
    DrainInTwo(parse, plain, more);
    var d := Drain(parse, plain);
    var later := Drain(parse, d.rest + more).requests;
    assert handled + (d.requests + later) == handled + d.requests + later;
  }

  /** Reading twice is reading once, for bytes that authenticate. */
  lemma ReceiveInTwo(c: Crypto, key: Bytes, parse: Bytes -> Parsed, s: Session, a: Bytes, b: Bytes)
    requires Incremental(parse) && Authentic(c, key, s, a + b)
    ensures Receive(c, key, parse, s, a + b) == Receive(c, key, parse, Receive(c, key, parse, s, a), b)
    ensures Authentic(c, key, Receive(c, key, parse, s, a), b)
  {
    if s.Live? {
      var cipher := s.cipher + a;
      assert s.cipher + (a + b) == cipher + b;
      OpenInTwoFrom(c, key, s.counter, cipher, b, s.plain);
      var o := OpenAll(c, key, s.counter, cipher, s.plain);
      var late := OpenAll(c, key, o.counter, o.cipher + b, []);
      HandleInTwo(parse, s.handled, late.cipher, late.counter, o.plain, late.plain);
      OpenAppends(c, key, o.counter, o.cipher + b, Drain(parse, o.plain).rest);
    }
  }

  /** Cutting the bytes into reads differently changes nothing, for bytes that
      authenticate: every cutting ends where one big read would. */
  lemma {:induction false} SegmentationIndependence(c: Crypto, key: Bytes, parse: Bytes -> Parsed, s: Session, chunks: seq<Bytes>)
    requires Incremental(parse) && Settled(parse, s) && Authentic(c, key, s, Flatten(chunks))
    ensures ReceiveAll(c, key, parse, s, chunks) == Receive(c, key, parse, s, Flatten(chunks))
    decreases |chunks|
  {
    if chunks == [] {
      if s.Live? {
        assert s.cipher + [] == s.cipher && s.handled + [] == s.handled;
      }
    } else {
      ReceiveInTwo(c, key, parse, s, chunks[0], Flatten(chunks[1..]));
      ReceiveSettles(c, key, parse, s, chunks[0]);
      SegmentationIndependence(c, key, parse, Receive(c, key, parse, s, chunks[0]), chunks[1..]);
    }
  }

  // ------------------------------------------------------- well-formed requests

  /** Each request sealed on its own, with the outbound counter running on. */
  function SealEach(c: Crypto, key: Bytes, counter: nat, texts: seq<Bytes>): Bytes
    decreases |texts|
  {
    if texts == [] then [] else Sealed(c, key, counter, texts[0]) + SealEach(c, key, counter + Frames(texts[0]), texts[1..])
  }

  function FramesOfEach(texts: seq<Bytes>): nat {
    if texts == [] then 0 else Frames(texts[0]) + FramesOfEach(texts[1..])
  }

  /** These bytes carry the text in these chunks, each under the next nonce. */
  ghost predicate Carries(c: Crypto, key: Bytes, counter: nat, chunks: seq<Bytes>, text: Bytes, wire: Bytes) {
    Chunks(chunks, text) && wire == Wire(c, key, Nonces(counter, |chunks|), chunks)
  }

  lemma WiresJoin(
    c: Crypto, key: Bytes, counter: nat, first: seq<Bytes>, text: Bytes, wire: Bytes, later: seq<Bytes>, rest: Bytes, wire': Bytes)
    requires Carries(c, key, counter, first, text, wire) && Carries(c, key, counter + |first|, later, rest, wire')
    ensures Carries(c, key, counter, first + later, text + rest, wire + wire')
  {
    FlattenAppend(first, later);
    WireAppends(c, key, Nonces(counter, |first|), first, Nonces(counter + |first|, |later|), later);
    assert Nonces(counter, |first + later|) == Nonces(counter, |first|) + Nonces(counter + |first|, |later|);
  }

  lemma {:induction false} SealEachIsWire(c: Crypto, key: Bytes, counter: nat, texts: seq<Bytes>) returns (chunks: seq<Bytes>)
    ensures |chunks| == FramesOfEach(texts) && Carries(c, key, counter, chunks, Flatten(texts), SealEach(c, key, counter, texts))
    decreases |texts|
  {
    chunks := [];
    if texts != [] {
      var first := SealedIsWire(c, key, counter, texts[0]);
      var later := SealEachIsWire(c, key, counter + |first|, texts[1..]);
      WiresJoin(c, key, counter, first, texts[0], Sealed(c, key, counter, texts[0]),
                later, Flatten(texts[1..]), SealEach(c, key, counter + |first|, texts[1..]));
      chunks := first + later;
    }
  }

  /** However many calls of `Seal`, they put the text chunk after chunk on the wire, and no two
      frames ever share a nonce. */
  lemma NoNonceTwice(c: Crypto, key: Bytes, counter: nat, texts: seq<Bytes>) returns (nonces: seq<Bytes>, chunks: seq<Bytes>)
    requires counter + FramesOfEach(texts) <= COUNTERS
    ensures |nonces| == |chunks| == FramesOfEach(texts) && Chunks(chunks, Flatten(texts))
    ensures SealEach(c, key, counter, texts) == Wire(c, key, nonces, chunks)
    ensures forall i, j :: 0 <= i < j < |nonces| ==> nonces[i] != nonces[j]
  {
    chunks := SealEachIsWire(c, key, counter, texts);
    nonces := Nonces(counter, |chunks|);
    NoncesApart(counter, |chunks|);
  }

  lemma OpenFirst(c: Crypto, key: Bytes, counter: nat, text: Bytes, rest: Bytes, wire: Bytes, plain: Bytes)
    requires AeadLaw(c) && |key| == KEY_SIZE
    requires wire == Sealed(c, key, counter, text) + rest
    ensures OpenAll(c, key, counter, wire, plain) == OpenAll(c, key, counter + Frames(text), rest, plain + text)
  {
    OpenUndoesSeal(c, key, counter, text, rest, plain);
  }

  lemma {:induction false} OpenUndoesSealEach(
    c: Crypto, key: Bytes, counter: nat, texts: seq<Bytes>, wire: Bytes, plain: Bytes, all: Bytes, end: nat)
    requires AeadLaw(c) && |key| == KEY_SIZE && wire == SealEach(c, key, counter, texts)
    requires all == plain + Flatten(texts) && end == counter + FramesOfEach(texts)
    ensures OpenAll(c, key, counter, wire, plain) == Progress(true, [], all, end)
    decreases |texts|
  {
    if texts == [] {
      assert all == plain;
    } else {
      var after := counter + Frames(texts[0]);
      var rest := SealEach(c, key, after, texts[1..]);
      OpenFirst(c, key, counter, texts[0], rest, wire, plain);
      ConcatAssoc(plain, texts[0], Flatten(texts[1..]));
      OpenUndoesSealEach(c, key, after, texts[1..], rest, plain + texts[0], all, end);
    }
  }

  ghost predicate AllWellFormed(texts: seq<Bytes>) {
    forall i :: 0 <= i < |texts| ==> WellFormed(texts[i])
  }

  function RequestsIn(parse: Bytes -> Parsed, texts: seq<Bytes>): seq<Request> {
    if texts == [] then []
    else match parse(texts[0])
      case Complete(request, _) => [request] + RequestsIn(parse, texts[1..])
      case _ => RequestsIn(parse, texts[1..])
  }

  lemma {:induction false} DrainsAll(parse: Bytes -> Parsed, texts: seq<Bytes>)
    requires Incremental(parse) && parse([]).Incomplete?
    requires forall i :: 0 <= i < |texts| ==> parse(texts[i]).Complete? && parse(texts[i]).consumed == |texts[i]|
    ensures Drain(parse, Flatten(texts)) == Drained(true, [], RequestsIn(parse, texts))
    decreases |texts|
  {
    if texts != [] {
      var first, rest := texts[0], Flatten(texts[1..]);
      DrainsAll(parse, texts[1..]);
      assert parse(first + rest) == parse(first);
      assert (first + rest)[|first|..] == rest;
    }
  }

  lemma {:induction false} OneRequestEach(parse: Bytes -> Parsed, texts: seq<Bytes>)
    requires forall i :: 0 <= i < |texts| ==> parse(texts[i]).Complete?
    ensures |RequestsIn(parse, texts)| == |texts|
    ensures forall i :: 0 <= i < |texts| ==> RequestsIn(parse, texts)[i] == parse(texts[i]).request
  {
    if texts != [] {
      OneRequestEach(parse, texts[1..]);
    }
  }

  ghost predicate EachWhole(parse: Bytes -> Parsed, texts: seq<Bytes>) {
    forall i :: 0 <= i < |texts| ==> parse(texts[i]).Complete? && parse(texts[i]).consumed == |texts[i]|
  }

  lemma ReadAtOnce(c: Crypto, key: Bytes, parse: Bytes -> Parsed, counter: nat, texts: seq<Bytes>, wire: Bytes)
    requires AeadLaw(c) && |key| == KEY_SIZE && wire == SealEach(c, key, counter, texts)
    requires Incremental(parse) && parse([]).Incomplete? && EachWhole(parse, texts)
    ensures Authentic(c, key, Live([], [], counter, []), wire)
    ensures Receive(c, key, parse, Live([], [], counter, []), wire)
         == Live([], [], counter + FramesOfEach(texts), RequestsIn(parse, texts))
  {
    assert [] + wire == wire && [] + Flatten(texts) == Flatten(texts);
    OpenUndoesSealEach(c, key, counter, texts, wire, [], Flatten(texts), counter + FramesOfEach(texts));
    DrainsAll(parse, texts);
    assert [] + RequestsIn(parse, texts) == RequestsIn(parse, texts);
  }

  lemma HandlesEach(c: Crypto, key: Bytes, parse: Bytes -> Parsed, counter: nat, texts: seq<Bytes>, chunks: seq<Bytes>)
    requires AeadLaw(c) && |key| == KEY_SIZE && Flatten(chunks) == SealEach(c, key, counter, texts)
    requires Incremental(parse) && parse([]).Incomplete? && EachWhole(parse, texts)
    ensures ReceiveAll(c, key, parse, Live([], [], counter, []), chunks)
         == Live([], [], counter + FramesOfEach(texts), RequestsIn(parse, texts))
  {
    ReadAtOnce(c, key, parse, counter, texts, Flatten(chunks));
    SegmentationIndependence(c, key, parse, Live([], [], counter, []), chunks);
  }

  /** However the bytes of well-formed requests, each sealed in order by the peer,
      are cut into reads, the loop handles exactly those requests in order and ends
      with both buffers empty and the counter advanced by the number of frames. */
  lemma HandlesExactlyTheRequests(c: Crypto, key: Bytes, counter: nat, texts: seq<Bytes>, chunks: seq<Bytes>)
    requires AeadLaw(c) && |key| == KEY_SIZE && AllWellFormed(texts)
    requires Flatten(chunks) == SealEach(c, key, counter, texts)
    ensures ReceiveAll(c, key, Parse, Live([], [], counter, []), chunks)
         == Live([], [], counter + FramesOfEach(texts), RequestsIn(Parse, texts))
    ensures |RequestsIn(Parse, texts)| == |texts|
    ensures forall i :: 0 <= i < |texts| ==> RequestsIn(Parse, texts)[i] == Parse(texts[i]).request
  {
    ParseIsIncremental();
    HandlesEach(c, key, Parse, counter, texts, chunks);
    OneRequestEach(Parse, texts);
  }

  // --------------------------------------------------- bytes that do not all open

  lemma {:induction false} ClosedStays(c: Crypto, key: Bytes, parse: Bytes -> Parsed, s: Session, chunks: seq<Bytes>)
    requires s.Closed?
    ensures ReceiveAll(c, key, parse, s, chunks) == s
    decreases |chunks|
  {
    if chunks != [] {
      ClosedStays(c, key, parse, s, chunks[1..]);
    }
  }

  /** The plaintext of bytes read later comes after that of bytes read earlier. */
  lemma PlainInTwo(c: Crypto, key: Bytes, counter: nat, cipher: Bytes, more: Bytes, plain: Bytes, kept: Bytes)
    requires OpenAll(c, key, counter, cipher, plain).ok
    ensures var o := OpenAll(c, key, counter, cipher, plain);
            var late := OpenAll(c, key, o.counter, o.cipher + more, []).plain;
            && OpenAll(c, key, counter, cipher + more, plain).plain == o.plain + late
            && OpenAll(c, key, o.counter, o.cipher + more, kept).plain == kept + late
  {
    OpenInTwo(c, key, counter, cipher, more, plain);
    var o := OpenAll(c, key, counter, cipher, plain);
    OpenAppends(c, key, o.counter, o.cipher + more, o.plain);
    OpenAppends(c, key, o.counter, o.cipher + more, kept);
  }

  /** The requests in everything that opens, were it read at once. */
  ghost function Openable(c: Crypto, key: Bytes, parse: Bytes -> Parsed, s: Session, bytes: Bytes): seq<Request>
    requires s.Live?
  {
    Drain(parse, OpenAll(c, key, s.counter, s.cipher + bytes, s.plain).plain).requests
  }

  lemma OpenableInTwo(c: Crypto, key: Bytes, parse: Bytes -> Parsed, s: Session, a: Bytes, b: Bytes)
    requires Incremental(parse) && s.Live? && OpenAll(c, key, s.counter, s.cipher + a, s.plain).ok
    ensures var d, s' := Drain(parse, OpenAll(c, key, s.counter, s.cipher + a, s.plain).plain), Receive(c, key, parse, s, a);
            && s'.handled == s.handled + d.requests
            && Openable(c, key, parse, s, a + b) == d.requests + if s'.Live? then Openable(c, key, parse, s', b) else []
  {
    var o := OpenAll(c, key, s.counter, s.cipher + a, s.plain);
    ConcatAssoc(s.cipher, a, b);
    PlainInTwo(c, key, s.counter, s.cipher + a, b, s.plain, Drain(parse, o.plain).rest);
    DrainInTwo(parse, o.plain, OpenAll(c, key, o.counter, o.cipher + b, []).plain);
  }

  /** When some frame fails, how the bytes were cut decides only how many of the
      requests before it were still handled: always a prefix of those that one read
      of the authentic bytes would have handled. */
  lemma {:induction false} HandledIsPrefix(c: Crypto, key: Bytes, parse: Bytes -> Parsed, s: Session, chunks: seq<Bytes>)
    requires Incremental(parse) && s.Live?
    ensures ReceiveAll(c, key, parse, s, chunks).handled <= s.handled + Openable(c, key, parse, s, Flatten(chunks))
    decreases |chunks|
  {
    if chunks != [] {
      var a, s' := chunks[0], Receive(c, key, parse, s, chunks[0]);
      if s'.Closed? {
        ClosedStays(c, key, parse, s', chunks[1..]);
      } else {
        HandledIsPrefix(c, key, parse, s', chunks[1..]);
      }
      if OpenAll(c, key, s.counter, s.cipher + a, s.plain).ok {
        OpenableInTwo(c, key, parse, s, a, Flatten(chunks[1..]));
        ConcatAssoc(s.handled, Drain(parse, OpenAll(c, key, s.counter, s.cipher + a, s.plain).plain).requests,
                    if s'.Live? then Openable(c, key, parse, s', Flatten(chunks[1..])) else []);
      }
    }
  }

  lemma TwoReads(c: Crypto, key: Bytes, parse: Bytes -> Parsed, s: Session, a: Bytes, b: Bytes)
    ensures ReceiveAll(c, key, parse, s, [a, b]) == Receive(c, key, parse, Receive(c, key, parse, s, a), b)
  {
    var s' := Receive(c, key, parse, s, a);
    assert [a, b][1..] == [b] && [b][1..] == [];
    assert ReceiveAll(c, key, parse, s, [a, b]) == ReceiveAll(c, key, parse, s', [b]);
    assert ReceiveAll(c, key, parse, s', [b]) == ReceiveAll(c, key, parse, Receive(c, key, parse, s', b), []);
  }

  /** So the assumption that everything authenticates is needed: bytes that open,
      read in one go with bytes that do not, lose whatever requests they held; read
      before them, those requests are handled. */
  lemma BadFrameLosesItsRead(c: Crypto, key: Bytes, parse: Bytes -> Parsed, s: Session, good: Bytes, bad: Bytes)
    requires s.Live? && Receive(c, key, parse, s, good).Live?
    requires var s' := Receive(c, key, parse, s, good); !OpenAll(c, key, s'.counter, s'.cipher + bad, []).ok
    ensures Receive(c, key, parse, s, good + bad) == Closed(s.handled)
    ensures ReceiveAll(c, key, parse, s, [good, bad]) == Closed(s.handled + Drain(parse, OpenAll(c, key, s.counter, s.cipher + good, s.plain).plain).requests)
  {
    var o := OpenAll(c, key, s.counter, s.cipher + good, s.plain);
    ConcatAssoc(s.cipher, good, bad);
    OpenInTwo(c, key, s.counter, s.cipher + good, bad, s.plain);
    OpenAppends(c, key, o.counter, o.cipher + bad, o.plain);
    OpenAppends(c, key, o.counter, o.cipher + bad, Drain(parse, o.plain).rest);
    TwoReads(c, key, parse, s, good, bad);
  }

  // ------------------------------------------------------- the two cuttings apart

  /** A frame with no plaintext and a tag that the transparent primitives refuse. */
  const FORGED: Bytes := [0, 0] + WRONG_TAG

  lemma ForgedFails(key: Bytes, counter: nat)
    ensures !OpenAll(Transparent(), key, counter, FORGED, []).ok
  {
    var cipher := FORGED;
    assert cipher[..2] == [0, 0] && cipher[2..18] == WRONG_TAG;
    WrongTagRefused(key, Nonce64(counter), [0, 0]);
  }

  /** One request sealed, then bytes that never open: read in one go nothing is handled,
      read as they were sent the request is. */
  lemma CuttingMatters(c: Crypto, key: Bytes, parse: Bytes -> Parsed, text: Bytes, bad: Bytes)
    requires AeadLaw(c) && |key| == KEY_SIZE && Incremental(parse) && parse([]).Incomplete?
    requires parse(text).Complete? && parse(text).consumed == |text|
    requires forall counter: nat :: !OpenAll(c, key, counter, bad, []).ok
    ensures var start, good := Live([], [], 0, []), SealEach(c, key, 0, [text]);
            && Receive(c, key, parse, start, good + bad) == Closed([])
            && ReceiveAll(c, key, parse, start, [good, bad]) == Closed([parse(text).request])
  {
    var start, good := Live([], [], 0, []), SealEach(c, key, 0, [text]);
    OneRequestEach(parse, [text]);
    assert RequestsIn(parse, [text]) == [parse(text).request];
    ReadAtOnce(c, key, parse, 0, [text], good);
    assert [] + bad == bad;
    BadFrameLosesItsRead(c, key, parse, start, good, bad);
  }
}
