/** The handshake's keys installed crosswise on the two ends of the control channel. */
module SecureChannel {
  import opened Basics
  import opened CryptoLaws
  import opened Srp
  import opened PairingSession
  import opened PairingRun
  import opened ChannelCrypto
  import Rtsp
  import ControlSession
  import ControlRequests

  /** Whatever is sealed under the one key is what comes out under the other. */
  ghost predicate Opens(c: Crypto, inbound: Bytes, outbound: Bytes) {
    forall counter: nat, text, rest, plain ::
      OpenAll(c, inbound, counter, Sealed(c, outbound, counter, text) + rest, plain)
        == OpenAll(c, inbound, counter + Frames(text), rest, plain + text)
  }

  lemma SameKeyOpens(c: Crypto, key: Bytes)
    requires AeadLaw(c) && |key| == KEY_SIZE
    ensures Opens(c, key, key)
  {
    forall counter: nat, text, rest, plain
      ensures OpenAll(c, key, counter, Sealed(c, key, counter, text) + rest, plain)
           == OpenAll(c, key, counter + Frames(text), rest, plain + text)
    {
      OpenUndoesSeal(c, key, counter, text, rest, plain);
    }
  }

  /** The accessory opens with its write key and seals with its read key, the
      controller, deriving the same two keys, the other way round. */
  ghost predicate Crosswise(c: Crypto, st: State, shared: Option<Bytes>) {
    && shared.Some?
    && Opens(c, st.controlWrite, ControlWriteKey(c, shared.value))
    && Opens(c, ControlReadKey(c, shared.value), st.controlRead)
  }

  lemma AgreedKeysCross(c: Crypto, st: State, shared: Option<Bytes>)
    requires AeadLaw(c) && HashLaw(c) && KeysAgreed(c, st, shared)
    ensures Crosswise(c, st, shared)
  {
    SameKeyOpens(c, st.controlWrite);
    SameKeyOpens(c, st.controlRead);
  }

  /** After an honest handshake that gets through, each end's open undoes the other's seal, from any
      common counter. */
  lemma EachEndOpensTheOther(c: Crypto, cfg: Config, st: State, phone: Phone, salt: Bytes, privateB: Bytes, ephemeral: Bytes)
    requires Lawful(c) && Fits(cfg.grp) && st.store.WellFormed()
    requires salt != [] && privateB != [] && phone.privateA != [] && phone.password == cfg.password
    ensures var r := Handshake(c, cfg, st, phone, salt, privateB, ephemeral); r.1.Some? ==> Crosswise(c, r.0, r.1)
  {
    HandshakeCompletes(c, cfg, st, phone, salt, privateB, ephemeral);
    var r := Handshake(c, cfg, st, phone, salt, privateB, ephemeral);
    if r.1.Some? { AgreedKeysCross(c, r.0, r.1); }
  }

  /** What the loop makes of requests written out, sealed and cut up under two keys. */
  ghost predicate Arrive(c: Crypto, inbound: Bytes, outbound: Bytes) {
    forall requests, chunks ::
      ControlRequests.AllPrintable(requests) && Flatten(chunks) == ControlSession.SealEach(c, outbound, 0, ControlRequests.Texts(requests)) ==>
        var end := ControlSession.ReceiveAll(c, inbound, Rtsp.Parse, ControlSession.Live([], [], 0, []), chunks);
        end.Live? && end.handled == requests && end.cipher == [] && end.plain == []
  }

  lemma SameKeyArrives(c: Crypto, key: Bytes)
    requires AeadLaw(c) && |key| == KEY_SIZE
    ensures Arrive(c, key, key)
  {
    forall requests, chunks | ControlRequests.AllPrintable(requests)
      && Flatten(chunks) == ControlSession.SealEach(c, key, 0, ControlRequests.Texts(requests))
      ensures var end := ControlSession.ReceiveAll(c, key, Rtsp.Parse, ControlSession.Live([], [], 0, []), chunks);
              end.Live? && end.handled == requests && end.cipher == [] && end.plain == []
    {
      ControlRequests.HandlesThoseRequests(c, key, 0, requests, chunks);
    }
  }

  lemma AgreedKeysCarry(c: Crypto, st: State, shared: Option<Bytes>)
    requires AeadLaw(c) && HashLaw(c) && KeysAgreed(c, st, shared)
    ensures shared.Some? && Arrive(c, st.controlWrite, ControlWriteKey(c, shared.value))
  {
    SameKeyArrives(c, st.controlWrite);
  }

  /** From the password to the last request: after an honest handshake that gets through, what
      the controller writes out and seals is what the accessory handles, however it arrives. */
  lemma RequestsArrive(c: Crypto, cfg: Config, st: State, phone: Phone, salt: Bytes, privateB: Bytes, ephemeral: Bytes)
    requires Lawful(c) && Fits(cfg.grp) && st.store.WellFormed()
    requires salt != [] && privateB != [] && phone.privateA != [] && phone.password == cfg.password
    ensures var r := Handshake(c, cfg, st, phone, salt, privateB, ephemeral);
            r.1.Some? ==> Arrive(c, r.0.controlWrite, ControlWriteKey(c, r.1.value))
  {
    HandshakeCompletes(c, cfg, st, phone, salt, privateB, ephemeral);
    var r := Handshake(c, cfg, st, phone, salt, privateB, ephemeral);
    if r.1.Some? { AgreedKeysCarry(c, r.0, r.1); }
  }
}
