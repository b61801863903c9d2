/** The framed transport: a two-byte little-endian length, that many ciphertext
    bytes and a tag, each direction counting its own nonce from zero. */
module ChannelCrypto {
  import opened Basics
  import opened CryptoLaws

  const MAX_FRAME_PLAINTEXT: nat := 1024

  // ----------------------------------------------------------- specification

  function Header(length: nat): (r: Bytes)
    requires length < 0x1_0000
    ensures |r| == 2
  {
    [(length % 256) as byte, (length / 256) as byte]
  }

  function Length(cipher: Bytes): nat
    requires |cipher| >= 2
  {
    cipher[0] as nat + 256 * cipher[1] as nat
  }

  function Frame(c: Crypto, key: Bytes, counter: nat, chunk: Bytes): Bytes
    requires |chunk| <= MAX_FRAME_PLAINTEXT
  {
    Header(|chunk|) + c.seal(key, Nonce64(counter), chunk, Header(|chunk|))
  }

  function Sealed(c: Crypto, key: Bytes, counter: nat, plain: Bytes): Bytes
    decreases |plain|
  {
    if plain == [] then []
    else
      var take := Min(MAX_FRAME_PLAINTEXT, |plain|);
      Frame(c, key, counter, plain[..take]) + Sealed(c, key, counter + 1, plain[take..])
  }

  function Frames(plain: Bytes): nat
    decreases |plain|
  {
    if plain == [] then 0 else 1 + Frames(plain[Min(MAX_FRAME_PLAINTEXT, |plain|)..])
  }

  /** Where opening stopped: whether every whole frame authenticated, what is left
      of the input, the plaintext so far and the frame counter. */
  datatype Progress = Progress(ok: bool, cipher: Bytes, plain: Bytes, counter: nat)

  /** Whether a whole frame has arrived. */
  predicate WholeFrame(cipher: Bytes) {
    |cipher| >= 2 && |cipher| >= 2 + Length(cipher) + TAG_SIZE
  }

  function FrameSize(cipher: Bytes): (n: nat)
    requires WholeFrame(cipher)
    ensures 2 < n <= |cipher|
  {
    2 + Length(cipher) + TAG_SIZE
  }

  function OpenFrame(c: Crypto, key: Bytes, counter: nat, cipher: Bytes): Option<Bytes>
    requires WholeFrame(cipher)
  {
    c.open(key, Nonce64(counter), cipher[2..FrameSize(cipher)], cipher[..2])
  }

  function OpenAll(c: Crypto, key: Bytes, counter: nat, cipher: Bytes, plain: Bytes): Progress
    decreases |cipher|
  {
    if !WholeFrame(cipher) then Progress(true, cipher, plain, counter)
    else match OpenFrame(c, key, counter, cipher)
      case None => Progress(false, cipher, plain, counter)
      case Some(unsealed) => OpenAll(c, key, counter + 1, cipher[FrameSize(cipher)..], plain + unsealed)
  }

  // ------------------------------------------------------------------ object

  class Channel {
    const c: Crypto
    var active: bool
    var inboundKey: Bytes
    var outboundKey: Bytes
    var inboundCounter: nat
    var outboundCounter: nat

    constructor (c: Crypto)
      ensures this.c == c && !active && inboundCounter == outboundCounter == 0
    {
      this.c, active := c, false;
      inboundKey, outboundKey, inboundCounter, outboundCounter := [], [], 0, 0;
    }

    method Activate(inbound: Bytes, outbound: Bytes)
      modifies this
      ensures active && inboundKey == inbound && outboundKey == outbound
      ensures inboundCounter == outboundCounter == 0
    {
      inboundKey, outboundKey := inbound, outbound;
      inboundCounter, outboundCounter := 0, 0;
      active := true;
    }

    /** Takes every whole frame off the front of `cipher`, appending to `plain`;
        returns what is left of both. */
    method Open(cipher: Bytes, plain: Bytes) returns (ok: bool, cipher': Bytes, plain': Bytes)
      modifies this`inboundCounter
      ensures Progress(ok, cipher', plain', inboundCounter) == OpenAll(c, inboundKey, old(inboundCounter), cipher, plain)
    {
      cipher', plain' := cipher, plain;
      while |cipher'| >= 2
        invariant OpenAll(c, inboundKey, inboundCounter, cipher', plain') == OpenAll(c, inboundKey, old(inboundCounter), cipher, plain)
        decreases |cipher'|
      {
        var length := cipher'[0] as nat + 256 * cipher'[1] as nat;
        var frame := 2 + length + TAG_SIZE;
        if |cipher'| < frame {
          break;
        }
        var unsealed := c.open(inboundKey, Nonce64(inboundCounter), cipher'[2..frame], cipher'[..2]);
        if unsealed.None? {
          return false, cipher', plain';
        }
        inboundCounter := inboundCounter + 1;
        plain' := plain' + unsealed.value;
        cipher' := cipher'[frame..];
      }
      ok := true;
    }

    /** The loop body: one frame, with the length as associated data. */
    method SealNext(plain: Bytes, offset: nat, before: Bytes) returns (out: Bytes, end: nat)
      requires offset < |plain|
      modifies this`outboundCounter
      ensures offset < end <= |plain|
      ensures out + Sealed(c, outboundKey, outboundCounter, plain[end..])
           == before + Sealed(c, outboundKey, old(outboundCounter), plain[offset..])
      ensures outboundCounter + Frames(plain[end..]) == old(outboundCounter) + Frames(plain[offset..])
    {
      var take := Min(MAX_FRAME_PLAINTEXT, |plain| - offset);
      end := offset + take;
      var aad := Header(take);
      var sealed := c.seal(outboundKey, Nonce64(outboundCounter), plain[offset..end], aad);
      out := before + (aad + sealed);
      SealStepAt(c, outboundKey, outboundCounter, plain, offset, end, before, out);
      outboundCounter := outboundCounter + 1;
    }

    method Seal(plain: Bytes) returns (out: Bytes)
      modifies this`outboundCounter
      ensures out == Sealed(c, outboundKey, old(outboundCounter), plain)
      ensures outboundCounter == old(outboundCounter) + Frames(plain)
    {
      out := [];
      var offset := 0;
      assert plain[0..] == plain;
      while offset < |plain|
        invariant 0 <= offset <= |plain|
        invariant out + Sealed(c, outboundKey, outboundCounter, plain[offset..]) == Sealed(c, outboundKey, old(outboundCounter), plain)
        invariant outboundCounter + Frames(plain[offset..]) == old(outboundCounter) + Frames(plain)
      {
        out, offset := SealNext(plain, offset, out);
      }
      assert out + [] == out;
    }
  }

  /** One frame more of what sealing the rest gives. */
  lemma SealStepAt(c: Crypto, key: Bytes, counter: nat, plain: Bytes, offset: nat, end: nat, before: Bytes, out: Bytes)
    requires offset < |plain| && end == offset + Min(MAX_FRAME_PLAINTEXT, |plain| - offset)
    requires out == before + Frame(c, key, counter, plain[offset..end])
    ensures out + Sealed(c, key, counter + 1, plain[end..]) == before + Sealed(c, key, counter, plain[offset..])
    ensures Frames(plain[offset..]) == 1 + Frames(plain[end..])
  {
    var left := plain[offset..];
    assert left[..end - offset] == plain[offset..end] && left[end - offset..] == plain[end..];
    ConcatAssoc(before, Frame(c, key, counter, plain[offset..end]), Sealed(c, key, counter + 1, plain[end..]));
  }

  // ------------------------------------------------------------ what is on the wire

  /** The length in front of a frame is little-endian. */
  lemma HeaderReads(length: nat, rest: Bytes)
    requires length < 0x1_0000
    ensures Header(length) == LittleEndian(length, 2) && Length(Header(length) + rest) == FromLittleEndian(Header(length)) == length
  {
    assert LittleEndian(length / 256, 1) == [(length / 256) as byte] + LittleEndian(0, 0);
    var h := Header(length);
    assert FromLittleEndian(h) == h[0] as nat + 256 * FromLittleEndian(h[1..]);
    assert FromLittleEndian(h[1..]) == h[1] as nat + 256 * FromLittleEndian(h[1..][1..]);
  }

  /** Chunks one after the other, each behind its length and sealed under a nonce of its own. */
  function Wire(c: Crypto, key: Bytes, nonces: seq<Bytes>, chunks: seq<Bytes>): Bytes
    requires |nonces| == |chunks| && forall i :: 0 <= i < |chunks| ==> |chunks[i]| <= MAX_FRAME_PLAINTEXT
  {
    if chunks == [] then []
    else
      var header := Header(|chunks[0]|);
      header + c.seal(key, nonces[0], chunks[0], header) + Wire(c, key, nonces[1..], chunks[1..])
  }

  ghost predicate Chunks(chunks: seq<Bytes>, plain: Bytes) {
    Flatten(chunks) == plain && forall i :: 0 <= i < |chunks| ==> 0 < |chunks[i]| <= MAX_FRAME_PLAINTEXT
  }

  function Nonces(counter: nat, n: nat): seq<Bytes> {
    seq(n, i requires 0 <= i < n => Nonce64(counter + i))
  }

  lemma NoncesApart(counter: nat, n: nat)
    requires counter + n <= COUNTERS
    ensures forall i, j :: 0 <= i < j < n ==> Nonces(counter, n)[i] != Nonces(counter, n)[j]
  {
    forall i, j | 0 <= i < j < n
      ensures Nonces(counter, n)[i] != Nonces(counter, n)[j]
    {
      if Nonce64(counter + i) == Nonce64(counter + j) { NoncesDiffer(counter + i, counter + j); }
    }
  }

  /** What sealing puts on the wire: the text in chunks, each under the next nonce. */
  lemma {:induction false} SealedIsWire(c: Crypto, key: Bytes, counter: nat, plain: Bytes) returns (chunks: seq<Bytes>)
    ensures Chunks(chunks, plain) && |chunks| == Frames(plain)
    ensures Sealed(c, key, counter, plain) == Wire(c, key, Nonces(counter, |chunks|), chunks)
    decreases |plain|
  {
    chunks := [];
    if plain != [] {
      var take := Min(MAX_FRAME_PLAINTEXT, |plain|);
      var later := SealedIsWire(c, key, counter + 1, plain[take..]);
      chunks := [plain[..take]] + later;
      assert chunks[1..] == later && plain[..take] + plain[take..] == plain;
      assert Nonces(counter, |chunks|)[1..] == Nonces(counter + 1, |later|);
    }
  }

  lemma {:induction false} WireAppends(c: Crypto, key: Bytes, n: seq<Bytes>, chunks: seq<Bytes>, n': seq<Bytes>, chunks': seq<Bytes>)
    requires |n| == |chunks| && |n'| == |chunks'|
    requires forall i :: 0 <= i < |chunks| ==> |chunks[i]| <= MAX_FRAME_PLAINTEXT
    requires forall i :: 0 <= i < |chunks'| ==> |chunks'[i]| <= MAX_FRAME_PLAINTEXT
    ensures Wire(c, key, n + n', chunks + chunks') == Wire(c, key, n, chunks) + Wire(c, key, n', chunks')
    decreases |chunks|
  {
    if chunks == [] {
      assert n + n' == n' && chunks + chunks' == chunks';
    } else {
      assert (n + n')[1..] == n[1..] + n' && (chunks + chunks')[1..] == chunks[1..] + chunks';
      WireAppends(c, key, n[1..], chunks[1..], n', chunks');
    }
  }

  // --------------------------------------------------------------- properties

  /** Bytes after a whole frame change neither the frame nor what it opens to. */
  lemma FrameStable(c: Crypto, key: Bytes, counter: nat, cipher: Bytes, more: Bytes)
    requires WholeFrame(cipher)
    ensures WholeFrame(cipher + more) && FrameSize(cipher + more) == FrameSize(cipher)
    ensures OpenFrame(c, key, counter, cipher + more) == OpenFrame(c, key, counter, cipher)
    ensures (cipher + more)[FrameSize(cipher)..] == cipher[FrameSize(cipher)..] + more
  {
    var n := FrameSize(cipher);
    assert (cipher + more)[..2] == cipher[..2] && (cipher + more)[2..n] == cipher[2..n];
  }

  /** Bytes that arrive later do not change what an earlier call took: opening in
      two calls is opening once, up to the first frame that fails. */
  lemma {:induction false} OpenInTwo(c: Crypto, key: Bytes, counter: nat, cipher: Bytes, more: Bytes, plain: Bytes)
    ensures var first := OpenAll(c, key, counter, cipher, plain);
            OpenAll(c, key, counter, cipher + more, plain) ==
              if first.ok then OpenAll(c, key, first.counter, first.cipher + more, first.plain)
              else first.(cipher := first.cipher + more)
    decreases |cipher|
  {
    if WholeFrame(cipher) {
      FrameStable(c, key, counter, cipher, more);
      var frame := OpenFrame(c, key, counter, cipher);
      if frame.Some? {
        OpenInTwo(c, key, counter + 1, cipher[FrameSize(cipher)..], more, plain + frame.value);
      }
    }
  }

  /** Opening stops only when no whole frame is left. */
  lemma {:induction false} OpenSettles(c: Crypto, key: Bytes, counter: nat, cipher: Bytes, plain: Bytes)
    ensures var r := OpenAll(c, key, counter, cipher, plain); r.ok ==> !WholeFrame(r.cipher)
    decreases |cipher|
  {
    if WholeFrame(cipher) && OpenFrame(c, key, counter, cipher).Some? {
      OpenSettles(c, key, counter + 1, cipher[FrameSize(cipher)..], plain + OpenFrame(c, key, counter, cipher).value);
    }
  }

  /** Plaintext already in hand is only ever appended to. */
  lemma {:induction false} OpenAppends(c: Crypto, key: Bytes, counter: nat, cipher: Bytes, plain: Bytes)
    ensures var r, bare := OpenAll(c, key, counter, cipher, plain), OpenAll(c, key, counter, cipher, []);
            r == bare.(plain := plain + bare.plain)
    decreases |cipher|
  {
    if WholeFrame(cipher) && OpenFrame(c, key, counter, cipher).Some? {
      var unsealed, rest := OpenFrame(c, key, counter, cipher).value, cipher[FrameSize(cipher)..];
      OpenAppends(c, key, counter + 1, rest, plain + unsealed);
      OpenAppends(c, key, counter + 1, rest, [] + unsealed);
      assert [] + unsealed == unsealed;
      assert plain + unsealed + OpenAll(c, key, counter + 1, rest, []).plain == plain + (unsealed + OpenAll(c, key, counter + 1, rest, []).plain);
    }
  }

  lemma OpenSealedFrame(c: Crypto, key: Bytes, counter: nat, chunk: Bytes, rest: Bytes)
    requires AeadLaw(c) && |key| == KEY_SIZE && |chunk| <= MAX_FRAME_PLAINTEXT
    ensures var wire := Frame(c, key, counter, chunk) + rest;
            && WholeFrame(wire) && wire[FrameSize(wire)..] == rest
            && OpenFrame(c, key, counter, wire) == Some(chunk)
  {
    var wire := Frame(c, key, counter, chunk) + rest;
    var sealed := c.seal(key, Nonce64(counter), chunk, Header(|chunk|));
    assert wire == Header(|chunk|) + sealed + rest;
    assert Length(wire) == |chunk|;
    assert wire[..2] == Header(|chunk|) && wire[2..FrameSize(wire)] == sealed;
  }

  lemma OpenStep(c: Crypto, key: Bytes, counter: nat, wire: Bytes, chunk: Bytes, rest: Bytes, plain: Bytes)
    requires AeadLaw(c) && |key| == KEY_SIZE && |chunk| <= MAX_FRAME_PLAINTEXT
    requires wire == Frame(c, key, counter, chunk) + rest
    ensures OpenAll(c, key, counter, wire, plain) == OpenAll(c, key, counter + 1, rest, plain + chunk)
  {
    OpenSealedFrame(c, key, counter, chunk, rest);
  }

  lemma SealStep(c: Crypto, key: Bytes, counter: nat, text: Bytes, rest: Bytes)
    requires text != []
    ensures var take := Min(MAX_FRAME_PLAINTEXT, |text|);
            && Sealed(c, key, counter, text) + rest == Frame(c, key, counter, text[..take]) + (Sealed(c, key, counter + 1, text[take..]) + rest)
            && Frames(text) == 1 + Frames(text[take..])
            && text[..take] + text[take..] == text
  {
  }

  lemma OpenSealedFirst(c: Crypto, key: Bytes, counter: nat, text: Bytes, rest: Bytes, plain: Bytes)
    requires AeadLaw(c) && |key| == KEY_SIZE && text != []
    ensures var take := Min(MAX_FRAME_PLAINTEXT, |text|);
            var after := Sealed(c, key, counter + 1, text[take..]) + rest;
            OpenAll(c, key, counter, Sealed(c, key, counter, text) + rest, plain) == OpenAll(c, key, counter + 1, after, plain + text[..take])
  {
    var take := Min(MAX_FRAME_PLAINTEXT, |text|);
    SealStep(c, key, counter, text, rest);
    OpenStep(c, key, counter, Sealed(c, key, counter, text) + rest, text[..take],
             Sealed(c, key, counter + 1, text[take..]) + rest, plain);
  }

  lemma {:induction false} OpenUndoesSealFrom(
    c: Crypto, key: Bytes, counter: nat, text: Bytes, rest: Bytes, plain: Bytes, wire: Bytes, end: nat, all: Bytes)
    requires AeadLaw(c) && |key| == KEY_SIZE
    requires wire == Sealed(c, key, counter, text) + rest && end == counter + Frames(text) && all == plain + text
    ensures OpenAll(c, key, counter, wire, plain) == OpenAll(c, key, end, rest, all)
    decreases |text|
  {
    if text == [] {
      assert all == plain && wire == rest;
    } else {
      var take := Min(MAX_FRAME_PLAINTEXT, |text|);
      var chunk, more := text[..take], text[take..];
      OpenSealedFirst(c, key, counter, text, rest, plain);
      assert all == plain + chunk + more;
      OpenUndoesSealFrom(c, key, counter + 1, more, rest, plain + chunk, Sealed(c, key, counter + 1, more) + rest, end, all);
    }
  }

  /** The peer's seal is undone by our open when our inbound key and counter are its
      outbound ones: exactly the plaintext comes out, one counter step a frame. */
  lemma OpenUndoesSeal(c: Crypto, key: Bytes, counter: nat, text: Bytes, rest: Bytes, plain: Bytes)
    requires AeadLaw(c) && |key| == KEY_SIZE
    ensures OpenAll(c, key, counter, Sealed(c, key, counter, text) + rest, plain)
         == OpenAll(c, key, counter + Frames(text), rest, plain + text)
  {
    OpenUndoesSealFrom(c, key, counter, text, rest, plain, Sealed(c, key, counter, text) + rest, counter + Frames(text), plain + text);
  }
}
