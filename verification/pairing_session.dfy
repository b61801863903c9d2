/** The accessory's side of pair-setup and pair-verify: a state machine over TLV8
    request bodies. Randomness is an argument of the step that draws it. */
module PairingSession {
  import opened Basics
  import opened Tlv8
  import opened CryptoLaws
  import opened Srp

  const IDENTIFIER: byte := 0x01
  const SALT: byte := 0x02
  const PUBLIC_KEY: byte := 0x03
  const PROOF: byte := 0x04
  const ENCRYPTED_DATA: byte := 0x05
  const STATE: byte := 0x06
  const ERROR: byte := 0x07
  const SIGNATURE: byte := 0x0A
  const AUTHENTICATION: byte := 0x02

  datatype Config = Config(grp: Group, identifier: Bytes, password: Bytes)

  /** The phones on file: identifier to long-term public key. A disabled store
      remembers nothing. */
  datatype Store = Store(enabled: bool, phones: map<Bytes, Bytes>) {
    function PhoneKey(id: Bytes): Option<Bytes> {
      if enabled && id in phones then Some(phones[id]) else None
    }

    function Save(id: Bytes, ltpk: Bytes): Store {
      if !enabled || id == [] || ltpk == [] || HasSpace(id) then this
      else Store(enabled, phones[id := ltpk])
    }

    ghost predicate WellFormed() {
      forall id :: id in phones ==> id != [] && phones[id] != [] && !HasSpace(id)
    }
  }

  predicate HasSpace(id: Bytes) {
    exists i :: 0 <= i < |id| && id[i] in {32, 9, 13, 10}
  }

  datatype State = State(
    store: Store,
    recognised: bool,
    server: Option<Server>,
    srpKey: Bytes,
    identity: Bytes,              // long-term private key
    deviceIdentifier: Bytes,
    deviceLtpk: Bytes,
    ephemeral: Bytes,             // ephemeral private key
    ephemeralPublic: Bytes,
    deviceEphemeral: Bytes,
    verifyShared: Bytes,
    verifyKey: Bytes,
    controlRead: Bytes,
    controlWrite: Bytes,
    verified: bool,
    paired: bool)

  function Fresh(store: Store, identity: Bytes): State {
    State(store, false, None, [], identity, [], [], [], [], [], [], [], [], [], false, false)
  }

  function TlvError(state: byte, error: byte): Bytes {
    Encoded([Item(STATE, [state]), Item(ERROR, [error])])
  }

  /** Which message of the exchange a body claims to be; zero when it does not say. */
  function MessageNumber(items: seq<Item>): byte {
    match Find(items, STATE)
    case Some(value) => if value == [] then 0 else value[0]
    case None => 0
  }

  function NextNumber(n: byte): byte {
    ((n as int + 1) % 256) as byte
  }

  // --------------------------------------------------------------- pair-setup

  function SetupM1(c: Crypto, cfg: Config, st: State, salt: Bytes, privateB: Bytes): (State, Bytes)
    requires cfg.grp.N > 0
  {
    var server := NewServer(c, cfg.grp, USERNAME, cfg.password, salt, privateB);
    var st' := st.(server := Some(server));
    if server.Invalid? then (st', TlvError(2, AUTHENTICATION))
    else (st', Encoded([Item(STATE, [2]), Item(PUBLIC_KEY, server.publicB), Item(SALT, server.salt)]))
  }

  function SetupM3(c: Crypto, cfg: Config, st: State, items: seq<Item>): (State, Bytes)
    requires cfg.grp.N > 0
  {
    var A, m1 := Find(items, PUBLIC_KEY), Find(items, PROOF);
    if st.server.None? || A.None? || m1.None? then (st, TlvError(4, AUTHENTICATION))
    else match Verify(c, cfg.grp, st.server.value, A.value, m1.value)
      case Rejected => (st, TlvError(4, AUTHENTICATION))
      case Accepted(key, proof) =>
        (st.(srpKey := key), Encoded([Item(STATE, [4]), Item(PROOF, proof)]))
  }

  function SetupKey(c: Crypto, srpKey: Bytes): Bytes {
    c.hkdf(srpKey, "Pair-Setup-Encrypt-Salt", "Pair-Setup-Encrypt-Info", 32)
  }

  function AccessoryX(c: Crypto, srpKey: Bytes): Bytes {
    c.hkdf(srpKey, "Pair-Setup-Accessory-Sign-Salt", "Pair-Setup-Accessory-Sign-Info", 32)
  }

  /** What the decrypted M5 teaches: the phone's name and long-term key, if given. */
  function Learn(st: State, inner: seq<Item>): State {
    var id, ltpk := Find(inner, IDENTIFIER), Find(inner, PUBLIC_KEY);
    var named := if id.Some? then st.(deviceIdentifier := id.value) else st;
    if ltpk.None? then named
    else named.(deviceLtpk := ltpk.value, store := named.store.Save(named.deviceIdentifier, ltpk.value))
  }

  function SetupM6Inner(c: Crypto, cfg: Config, st: State): Bytes {
    var ltpk := c.ed25519Public(st.identity);
    var signature := c.ed25519Sign(st.identity, AccessoryX(c, st.srpKey) + cfg.identifier + ltpk);
    Encoded([Item(IDENTIFIER, cfg.identifier), Item(PUBLIC_KEY, ltpk), Item(SIGNATURE, signature)])
  }

  function SetupM5(c: Crypto, cfg: Config, st: State, items: seq<Item>): (State, Bytes) {
    var encrypted := Find(items, ENCRYPTED_DATA);
    if st.srpKey == [] || encrypted.None? then (st, TlvError(6, AUTHENTICATION))
    else
      var key := SetupKey(c, st.srpKey);
      match c.open(key, NonceLabel("PS-Msg05"), encrypted.value, [])
      case None => (st, TlvError(6, AUTHENTICATION))
      case Some(plain) =>
        var st' := Learn(st, Decoded(plain)).(paired := true);
        (st', Encoded([Item(STATE, [6]), Item(ENCRYPTED_DATA, c.seal(key, NonceLabel("PS-Msg06"), SetupM6Inner(c, cfg, st'), []))]))
  }

  function PairSetup(c: Crypto, cfg: Config, st: State, body: Bytes, salt: Bytes, privateB: Bytes): (State, Bytes)
    requires cfg.grp.N > 0
  {
    var items := Decoded(body);
    var n := MessageNumber(items);
    if n == 1 then SetupM1(c, cfg, st, salt, privateB)
    else if n == 3 then SetupM3(c, cfg, st, items)
    else if n == 5 then SetupM5(c, cfg, st, items)
    else (st, TlvError(NextNumber(n), AUTHENTICATION))
  }

  // -------------------------------------------------------------- pair-verify

  function VerifyKey(c: Crypto, shared: Bytes): Bytes {
    c.hkdf(shared, "Pair-Verify-Encrypt-Salt", "Pair-Verify-Encrypt-Info", 32)
  }

  function ControlReadKey(c: Crypto, shared: Bytes): Bytes {
    c.hkdf(shared, "Control-Salt", "Control-Read-Encryption-Key", 32)
  }

  function ControlWriteKey(c: Crypto, shared: Bytes): Bytes {
    c.hkdf(shared, "Control-Salt", "Control-Write-Encryption-Key", 32)
  }

  function VerifyM2Inner(c: Crypto, cfg: Config, st: State): Bytes {
    var signature := c.ed25519Sign(st.identity, st.ephemeralPublic + cfg.identifier + st.deviceEphemeral);
    Encoded([Item(IDENTIFIER, cfg.identifier), Item(SIGNATURE, signature)])
  }

  function VerifyM1(c: Crypto, cfg: Config, st: State, items: seq<Item>, ephemeral: Bytes): (State, Bytes) {
    var device := Find(items, PUBLIC_KEY);
    if device.None? || |device.value| != 32 then (st, TlvError(2, AUTHENTICATION))
    else
      var shared := c.x25519Shared(ephemeral, device.value);
      var started := st.(ephemeral := ephemeral, ephemeralPublic := c.x25519Public(ephemeral),
                         deviceEphemeral := device.value, verifyShared := shared);
      if shared == [] then (started, TlvError(2, AUTHENTICATION))
      else
        var key := VerifyKey(c, shared);
        var st' := started.(verifyKey := key);
        (st', Encoded([Item(STATE, [2]), Item(PUBLIC_KEY, st'.ephemeralPublic),
                       Item(ENCRYPTED_DATA, c.seal(key, NonceLabel("PV-Msg02"), VerifyM2Inner(c, cfg, st'), []))]))
  }

  /** The key the phone's signature is held against: what is on file wins over what this
      session learned. */
  function ExpectedKey(st: State, id: Bytes): Bytes {
    match st.store.PhoneKey(id)
    case Some(key) => key
    case None => st.deviceLtpk
  }

  function VerifyM3(c: Crypto, st: State, items: seq<Item>): (State, Bytes) {
    var encrypted := Find(items, ENCRYPTED_DATA);
    if st.verifyKey == [] || encrypted.None? then (st, TlvError(4, AUTHENTICATION))
    else match c.open(st.verifyKey, NonceLabel("PV-Msg03"), encrypted.value, [])
      case None => (st, TlvError(4, AUTHENTICATION))
      case Some(plain) =>
        var inner := Decoded(plain);
        var id, signature := Find(inner, IDENTIFIER), Find(inner, SIGNATURE);
        if id.None? || signature.None? then (st, TlvError(4, AUTHENTICATION))
        else
          var material := st.deviceEphemeral + id.value + st.ephemeralPublic;
          var expected := ExpectedKey(st, id.value);
          var st' := st.(recognised := st.store.PhoneKey(id.value).Some?);
          if expected != [] && !c.ed25519Verify(expected, material, signature.value) then (st', TlvError(4, AUTHENTICATION))
          else
            (st'.(controlRead := ControlReadKey(c, st.verifyShared), controlWrite := ControlWriteKey(c, st.verifyShared), verified := true),
             Encoded([Item(STATE, [4])]))
  }

  function PairVerify(c: Crypto, cfg: Config, st: State, body: Bytes, ephemeral: Bytes): (State, Bytes) {
    var items := Decoded(body);
    var n := MessageNumber(items);
    if n == 1 then VerifyM1(c, cfg, st, items, ephemeral)
    else if n == 3 then VerifyM3(c, st, items)
    else (st, TlvError(NextNumber(n), AUTHENTICATION))
  }

  // ---------------------------------------------------------- the live session

  /** The session object: each handler updates the state field by field. */
  class Session {
    const c: Crypto
    const cfg: Config
    var state: State

    constructor (c: Crypto, cfg: Config, store: Store, identity: Bytes)
      ensures this.c == c && this.cfg == cfg && state == Fresh(store, identity)
    {
      this.c, this.cfg, state := c, cfg, Fresh(store, identity);
    }

    method HandlePairSetup(body: Bytes, salt: Bytes, privateB: Bytes) returns (reply: Bytes)
      requires cfg.grp.N > 0
      modifies this
      ensures (state, reply) == PairSetup(c, cfg, old(state), body, salt, privateB)
    {
      var items := Decode(body);
      var n := MessageNumber(items);
      if n == 1 {
        // A fresh server each time: the phone always restarts from M1.
        var server := NewServer(c, cfg.grp, USERNAME, cfg.password, salt, privateB);
        state := state.(server := Some(server));
        if server.Invalid? {
          return TlvError(2, AUTHENTICATION);
        }
        reply := Encode([Item(STATE, [2]), Item(PUBLIC_KEY, server.publicB), Item(SALT, server.salt)]);
      } else if n == 3 {
        reply := SetupProof(items);
      } else if n == 5 {
        reply := SetupExchange(items);
      } else {
        reply := TlvError(NextNumber(n), AUTHENTICATION);
      }
    }

    method SetupProof(items: seq<Item>) returns (reply: Bytes)
      requires cfg.grp.N > 0
      modifies this
      ensures (state, reply) == SetupM3(c, cfg, old(state), items)
    {
      if state.server.None? {
        return TlvError(4, AUTHENTICATION);
      }
      var clientA, clientM1 := Find(items, PUBLIC_KEY), Find(items, PROOF);
      if clientA.None? || clientM1.None? {
        return TlvError(4, AUTHENTICATION);
      }
      var result := Verify(c, cfg.grp, state.server.value, clientA.value, clientM1.value);
      if result.Rejected? {
        return TlvError(4, AUTHENTICATION);
      }
      state := state.(srpKey := result.key);
      reply := Encode([Item(STATE, [4]), Item(PROOF, result.proof)]);
    }

    method SetupExchange(items: seq<Item>) returns (reply: Bytes)
      modifies this
      ensures (state, reply) == SetupM5(c, cfg, old(state), items)
    {
      if state.srpKey == [] {
        return TlvError(6, AUTHENTICATION);
      }
      var encrypted := Find(items, ENCRYPTED_DATA);
      if encrypted.None? {
        return TlvError(6, AUTHENTICATION);
      }
      var key := SetupKey(c, state.srpKey);
      var plain := c.open(key, NonceLabel("PS-Msg05"), encrypted.value, []);
      if plain.None? {
        return TlvError(6, AUTHENTICATION);
      }
      var inner := Decode(plain.value);
      var deviceId, deviceLtpk := Find(inner, IDENTIFIER), Find(inner, PUBLIC_KEY);
      if deviceId.Some? {
        state := state.(deviceIdentifier := deviceId.value);
      }
      if deviceLtpk.Some? {
        state := state.(deviceLtpk := deviceLtpk.value);
        state := state.(store := state.store.Save(state.deviceIdentifier, deviceLtpk.value));
      }
      state := state.(paired := true);
      var sealed := c.seal(key, NonceLabel("PS-Msg06"), SetupM6Inner(c, cfg, state), []);
      reply := Encode([Item(STATE, [6]), Item(ENCRYPTED_DATA, sealed)]);
    }

    method HandlePairVerify(body: Bytes, ephemeral: Bytes) returns (reply: Bytes)
      modifies this
      ensures (state, reply) == PairVerify(c, cfg, old(state), body, ephemeral)
    {
      var items := Decode(body);
      var n := MessageNumber(items);
      if n == 1 {
        reply := VerifyStart(items, ephemeral);
      } else if n == 3 {
        reply := VerifyFinish(items);
      } else {
        reply := TlvError(NextNumber(n), AUTHENTICATION);
      }
    }

    method VerifyStart(items: seq<Item>, ephemeral: Bytes) returns (reply: Bytes)
      modifies this
      ensures (state, reply) == VerifyM1(c, cfg, old(state), items, ephemeral)
    {
      var device := Find(items, PUBLIC_KEY);
      if device.None? || |device.value| != 32 {
        return TlvError(2, AUTHENTICATION);
      }
      state := state.(ephemeral := ephemeral, ephemeralPublic := c.x25519Public(ephemeral));
      state := state.(deviceEphemeral := device.value);
      state := state.(verifyShared := c.x25519Shared(ephemeral, device.value));
      if state.verifyShared == [] {
        return TlvError(2, AUTHENTICATION);
      }
      var key := VerifyKey(c, state.verifyShared);
      state := state.(verifyKey := key);
      var sealed := c.seal(key, NonceLabel("PV-Msg02"), VerifyM2Inner(c, cfg, state), []);
      reply := Encode([Item(STATE, [2]), Item(PUBLIC_KEY, state.ephemeralPublic), Item(ENCRYPTED_DATA, sealed)]);
    }

    method VerifyFinish(items: seq<Item>) returns (reply: Bytes)
      modifies this
      ensures (state, reply) == VerifyM3(c, old(state), items)
    {
      if state.verifyKey == [] {
        return TlvError(4, AUTHENTICATION);
      }
      var encrypted := Find(items, ENCRYPTED_DATA);
      if encrypted.None? {
        return TlvError(4, AUTHENTICATION);
      }
      var plain := c.open(state.verifyKey, NonceLabel("PV-Msg03"), encrypted.value, []);
      if plain.None? {
        return TlvError(4, AUTHENTICATION);
      }
      var inner := Decode(plain.value);
      var id, signature := Find(inner, IDENTIFIER), Find(inner, SIGNATURE);
      if id.None? || signature.None? {
        return TlvError(4, AUTHENTICATION);
      }
      var material := state.deviceEphemeral + id.value + state.ephemeralPublic;
      var stored := state.store.PhoneKey(id.value);
      var expected := if stored.Some? then stored.value else state.deviceLtpk;
      state := state.(recognised := stored.Some?);
      if expected != [] && !c.ed25519Verify(expected, material, signature.value) {
        return TlvError(4, AUTHENTICATION);
      }
      state := state.(controlRead := ControlReadKey(c, state.verifyShared));
      state := state.(controlWrite := ControlWriteKey(c, state.verifyShared));
      state := state.(verified := true);
      reply := Encode([Item(STATE, [4])]);
    }
  }

  // ------------------------------------------------------ safety over all runs

  /** One request of either kind, with the randomness drawn while answering it. */
  datatype Request =
    | Setup(body: Bytes, salt: Bytes, privateB: Bytes)
    | Check(body: Bytes, ephemeral: Bytes)

  function Answer(c: Crypto, cfg: Config, st: State, r: Request): State
    requires cfg.grp.N > 0
  {
    match r
    case Setup(body, salt, privateB) => PairSetup(c, cfg, st, body, salt, privateB).0
    case Check(body, ephemeral) => PairVerify(c, cfg, st, body, ephemeral).0
  }

  function AnswerAll(c: Crypto, cfg: Config, st: State, requests: seq<Request>): State
    requires cfg.grp.N > 0
    decreases |requests|
  {
    if requests == [] then st else AnswerAll(c, cfg, Answer(c, cfg, st, requests[0]), requests[1..])
  }

  /** An M3 that carries the one proof its public value calls for: the one a client has that
      reached the secret of the SRP server now running. */
  ghost predicate ProvesPassword(c: Crypto, cfg: Config, st: State, r: Request)
    requires cfg.grp.N > 0
  {
    r.Setup? && MessageNumber(Decoded(r.body)) == 3 && Proves(c, cfg, st, Decoded(r.body))
  }

  ghost predicate Proves(c: Crypto, cfg: Config, st: State, items: seq<Item>)
    requires cfg.grp.N > 0
  {
    && st.server.Some? && Find(items, PUBLIC_KEY).Some? && Find(items, PROOF).Some?
    && ExpectedProof(c, cfg.grp, st.server.value, Find(items, PUBLIC_KEY).value) == Find(items, PROOF)
  }

  /** Of the M3 bodies with one public value only those with one proof are accepted: the
      others are answered with an error and change nothing. */
  lemma OneProofPasses(c: Crypto, cfg: Config, st: State, items: seq<Item>)
    requires cfg.grp.N > 0 && HashLaw(c)
    ensures Proves(c, cfg, st, items) ==>
      exists key, proof ::
        SetupM3(c, cfg, st, items) == (st.(srpKey := key), Encoded([Item(STATE, [4]), Item(PROOF, proof)])) && |key| == HASH_SIZE
    ensures !Proves(c, cfg, st, items) ==> SetupM3(c, cfg, st, items) == (st, TlvError(4, AUTHENTICATION))
  {
    var A, m1 := Find(items, PUBLIC_KEY), Find(items, PROOF);
    if st.server.Some? && A.Some? && m1.Some? {
      AcceptsOneProof(c, cfg.grp, st.server.value, A.value, m1.value);
      if Proves(c, cfg, st, items) {
        var verdict := Verify(c, cfg.grp, st.server.value, A.value, m1.value);
        assert SetupM3(c, cfg, st, items) ==
          (st.(srpKey := verdict.key), Encoded([Item(STATE, [4]), Item(PROOF, verdict.proof)]));
      }
    }
  }

  ghost predicate SomeProof(c: Crypto, cfg: Config, st: State, requests: seq<Request>)
    requires cfg.grp.N > 0
    decreases |requests|
  {
    && requests != []
    && (ProvesPassword(c, cfg, st, requests[0]) || SomeProof(c, cfg, Answer(c, cfg, st, requests[0]), requests[1..]))
  }

  /** Primitives whose derived keys show what they were derived for. */
  function Labelled(): Crypto {
    Transparent().(hkdf := (_: Bytes, salt: string, info: string, _: nat) => Zeros(|salt| + |info|))
  }

  lemma LabelledLength(secret: Bytes, salt: string, info: string, length: nat)
    ensures |Labelled().hkdf(secret, salt, info, length)| == |salt| + |info|
  {
  }

  predicate AllApart(a: Bytes, b: Bytes, x: Bytes, y: Bytes, z: Bytes) {
    a != b && a != x && a != y && a != z && b != x && b != y && b != z && x != y && x != z && y != z
  }

  lemma LengthsApart(a: Bytes, b: Bytes, x: Bytes, y: Bytes, z: Bytes)
    requires |a| == 46 && |b| == 60 && |x| == 48 && |y| == 39 && |z| == 40
    ensures AllApart(a, b, x, y, z)
  {
  }

  lemma SetupUses(secret: Bytes)
    ensures |SetupKey(Labelled(), secret)| == 46 && |AccessoryX(Labelled(), secret)| == 60
  {
    LabelledLength(secret, "Pair-Setup-Encrypt-Salt", "Pair-Setup-Encrypt-Info", 32);
    LabelledLength(secret, "Pair-Setup-Accessory-Sign-Salt", "Pair-Setup-Accessory-Sign-Info", 32);
  }

  lemma VerifyUses(secret: Bytes)
    ensures |VerifyKey(Labelled(), secret)| == 48
  {
    LabelledLength(secret, "Pair-Verify-Encrypt-Salt", "Pair-Verify-Encrypt-Info", 32);
  }

  lemma ControlUses(secret: Bytes)
    ensures |ControlReadKey(Labelled(), secret)| == 39 && |ControlWriteKey(Labelled(), secret)| == 40
  {
    LabelledLength(secret, "Control-Salt", "Control-Read-Encryption-Key", 32);
    LabelledLength(secret, "Control-Salt", "Control-Write-Encryption-Key", 32);
  }

  /** No two of the keys the session derives are derived for the same use. */
  lemma UsesApart(secret: Bytes)
    ensures AllApart(SetupKey(Labelled(), secret), AccessoryX(Labelled(), secret), VerifyKey(Labelled(), secret),
                     ControlReadKey(Labelled(), secret), ControlWriteKey(Labelled(), secret))
  {
    SetupUses(secret);
    VerifyUses(secret);
    ControlUses(secret);
    LengthsApart(SetupKey(Labelled(), secret), AccessoryX(Labelled(), secret), VerifyKey(Labelled(), secret),
                 ControlReadKey(Labelled(), secret), ControlWriteKey(Labelled(), secret));
  }

  lemma M3NeedsProof(c: Crypto, cfg: Config, st: State, items: seq<Item>)
    requires cfg.grp.N > 0 && !Proves(c, cfg, st, items)
    ensures SetupM3(c, cfg, st, items).0 == st
  {
    var A, m1 := Find(items, PUBLIC_KEY), Find(items, PROOF);
    if st.server.Some? && A.Some? && m1.Some? {
      AcceptsOneProof(c, cfg.grp, st.server.value, A.value, m1.value);
    }
  }

  lemma SetupWithoutProof(c: Crypto, cfg: Config, st: State, body: Bytes, salt: Bytes, privateB: Bytes)
    requires cfg.grp.N > 0 && st.srpKey == []
    requires MessageNumber(Decoded(body)) == 3 ==> !Proves(c, cfg, st, Decoded(body))
    ensures var st' := PairSetup(c, cfg, st, body, salt, privateB).0; st'.srpKey == [] && st'.paired == st.paired
  {
    var items := Decoded(body);
    var n := MessageNumber(items);
    if n == 1 {
      SetupM1Leaves(c, cfg, st, salt, privateB);
    } else if n == 3 {
      M3NeedsProof(c, cfg, st, items);
    } else if n == 5 {
      assert SetupM5(c, cfg, st, items).0 == st;
    }
  }

  lemma CheckLeavesPairing(c: Crypto, cfg: Config, st: State, body: Bytes, ephemeral: Bytes)
    ensures var st' := PairVerify(c, cfg, st, body, ephemeral).0; st'.srpKey == st.srpKey && st'.paired == st.paired
  {
    VerifyM1Leaves(c, cfg, st, Decoded(body), ephemeral);
    M3Verifies(c, st, Decoded(body));
  }

  lemma OnlyProofsPair(c: Crypto, cfg: Config, st: State, r: Request)
    requires cfg.grp.N > 0 && st.srpKey == [] && !st.paired && !ProvesPassword(c, cfg, st, r)
    ensures Answer(c, cfg, st, r).srpKey == [] && !Answer(c, cfg, st, r).paired
  {
    match r {
      case Setup(body, salt, privateB) => SetupWithoutProof(c, cfg, st, body, salt, privateB);
      case Check(body, ephemeral) => CheckLeavesPairing(c, cfg, st, body, ephemeral);
    }
  }

  /** Whatever requests arrive in whatever order, a session is paired only if one of
      them proved knowledge of the setup password first. */
  lemma {:induction false} PairedOnlyAfterProof(c: Crypto, cfg: Config, st: State, requests: seq<Request>)
    requires cfg.grp.N > 0 && st.srpKey == [] && !st.paired
    ensures AnswerAll(c, cfg, st, requests).paired ==> SomeProof(c, cfg, st, requests)
    decreases |requests|
  {
    if requests != [] && !ProvesPassword(c, cfg, st, requests[0]) {
      OnlyProofsPair(c, cfg, st, requests[0]);
      PairedOnlyAfterProof(c, cfg, Answer(c, cfg, st, requests[0]), requests[1..]);
    }
  }

  /** A pair-verify M3 that passes: what it seals opens under the key of the exchange in
      progress, and its signature holds under the key expected of the phone it names, or
      there is no key to hold it against. */
  ghost predicate ProvesKey(c: Crypto, st: State, r: Request) {
    r.Check? && MessageNumber(Decoded(r.body)) == 3 && Passes(c, st, Find(Decoded(r.body), ENCRYPTED_DATA))
  }

  ghost predicate Passes(c: Crypto, st: State, encrypted: Option<Bytes>) {
    && st.verifyKey != [] && encrypted.Some?
    && var plain := c.open(st.verifyKey, NonceLabel("PV-Msg03"), encrypted.value, []);
       plain.Some? && SignatureHolds(c, st, Decoded(plain.value))
  }

  ghost predicate SignatureHolds(c: Crypto, st: State, inner: seq<Item>) {
    && Find(inner, IDENTIFIER).Some? && Find(inner, SIGNATURE).Some?
    && var id := Find(inner, IDENTIFIER).value;
       ExpectedKey(st, id) == [] ||
       c.ed25519Verify(ExpectedKey(st, id), st.deviceEphemeral + id + st.ephemeralPublic, Find(inner, SIGNATURE).value)
  }

  ghost predicate SomeCheck(c: Crypto, cfg: Config, st: State, requests: seq<Request>)
    requires cfg.grp.N > 0
    decreases |requests|
  {
    && requests != []
    && (ProvesKey(c, st, requests[0]) || SomeCheck(c, cfg, Answer(c, cfg, st, requests[0]), requests[1..]))
  }

  lemma SetupM1Leaves(c: Crypto, cfg: Config, st: State, salt: Bytes, privateB: Bytes)
    requires cfg.grp.N > 0
    ensures SetupM1(c, cfg, st, salt, privateB).0.verified == st.verified
    ensures SetupM1(c, cfg, st, salt, privateB).0.store == st.store
    ensures SetupM1(c, cfg, st, salt, privateB).0.srpKey == st.srpKey && SetupM1(c, cfg, st, salt, privateB).0.paired == st.paired
  {
  }

  lemma SetupM3Leaves(c: Crypto, cfg: Config, st: State, items: seq<Item>)
    requires cfg.grp.N > 0
    ensures SetupM3(c, cfg, st, items).0.verified == st.verified && SetupM3(c, cfg, st, items).0.store == st.store
  {
  }

  lemma LearnLeaves(st: State, inner: seq<Item>)
    ensures Learn(st, inner).verified == st.verified
  {
  }

  ghost predicate StoreLearns(before: State, after: State) {
    after.store == before.store || exists inner :: after.store == Learn(before, inner).store
  }

  lemma SetupM5Leaves(c: Crypto, cfg: Config, st: State, items: seq<Item>)
    ensures SetupM5(c, cfg, st, items).0.verified == st.verified && StoreLearns(st, SetupM5(c, cfg, st, items).0)
  {
    var encrypted := Find(items, ENCRYPTED_DATA);
    if st.srpKey != [] && encrypted.Some? {
      var plain := c.open(SetupKey(c, st.srpKey), NonceLabel("PS-Msg05"), encrypted.value, []);
      if plain.Some? {
        LearnLeaves(st, Decoded(plain.value));
        assert SetupM5(c, cfg, st, items).0 == Learn(st, Decoded(plain.value)).(paired := true);
      }
    }
  }

  lemma SetupLeaves(c: Crypto, cfg: Config, st: State, body: Bytes, salt: Bytes, privateB: Bytes)
    requires cfg.grp.N > 0
    ensures var st' := PairSetup(c, cfg, st, body, salt, privateB).0; st'.verified == st.verified && StoreLearns(st, st')
  {
    var items := Decoded(body);
    var n := MessageNumber(items);
    if n == 1 {
      SetupM1Leaves(c, cfg, st, salt, privateB);
    } else if n == 3 {
      SetupM3Leaves(c, cfg, st, items);
    } else if n == 5 {
      SetupM5Leaves(c, cfg, st, items);
    }
  }

  lemma M3Verifies(c: Crypto, st: State, items: seq<Item>)
    ensures VerifyM3(c, st, items).0.verified <==> st.verified || Passes(c, st, Find(items, ENCRYPTED_DATA))
    ensures VerifyM3(c, st, items).0.store == st.store
    ensures VerifyM3(c, st, items).0.srpKey == st.srpKey && VerifyM3(c, st, items).0.paired == st.paired
  {
  }

  lemma VerifyM1Leaves(c: Crypto, cfg: Config, st: State, items: seq<Item>, ephemeral: Bytes)
    ensures var st' := VerifyM1(c, cfg, st, items, ephemeral).0;
            st'.verified == st.verified && st'.store == st.store && st'.srpKey == st.srpKey && st'.paired == st.paired
  {
  }

  lemma OnlyChecksVerify(c: Crypto, cfg: Config, st: State, r: Request)
    requires cfg.grp.N > 0
    ensures Answer(c, cfg, st, r).verified <==> st.verified || ProvesKey(c, st, r)
  {
    match r {
      case Setup(body, salt, privateB) => SetupLeaves(c, cfg, st, body, salt, privateB);
      case Check(body, ephemeral) =>
        VerifyM1Leaves(c, cfg, st, Decoded(body), ephemeral);
        M3Verifies(c, st, Decoded(body));
    }
  }

  /** Whatever requests arrive in whatever order, a session is verified exactly when one of
      them was an M3 that passed at its moment. */
  lemma {:induction false} VerifiedIffChecked(c: Crypto, cfg: Config, st: State, requests: seq<Request>)
    requires cfg.grp.N > 0
    ensures AnswerAll(c, cfg, st, requests).verified <==> st.verified || SomeCheck(c, cfg, st, requests)
    decreases |requests|
  {
    if requests != [] {
      OnlyChecksVerify(c, cfg, st, requests[0]);
      VerifiedIffChecked(c, cfg, Answer(c, cfg, st, requests[0]), requests[1..]);
    }
  }

  /** What is saved is found again under its name, and nothing else moves. */
  lemma SavedIsFound(store: Store, saved: Bytes, ltpk: Bytes, id: Bytes)
    ensures store.Save(saved, ltpk).PhoneKey(id) ==
      if id == saved && store.enabled && saved != [] && ltpk != [] && !HasSpace(saved) then Some(ltpk) else store.PhoneKey(id)
  {
  }

  lemma SaveKeeps(store: Store, saved: Bytes, ltpk: Bytes, id: Bytes)
    requires store.WellFormed() && store.PhoneKey(id).Some?
    ensures store.Save(saved, ltpk).WellFormed() && store.Save(saved, ltpk).PhoneKey(id).Some?
  {
  }

  lemma LearnKeeps(st: State, inner: seq<Item>, id: Bytes)
    requires st.store.WellFormed() && st.store.PhoneKey(id).Some?
    ensures Learn(st, inner).store.WellFormed() && Learn(st, inner).store.PhoneKey(id).Some?
  {
    var name, ltpk := Find(inner, IDENTIFIER), Find(inner, PUBLIC_KEY);
    if ltpk.Some? { SaveKeeps(st.store, name.GetOr(st.deviceIdentifier), ltpk.value, id); }
  }

  lemma OnlyM5Saves(c: Crypto, cfg: Config, st: State, r: Request)
    requires cfg.grp.N > 0
    ensures StoreLearns(st, Answer(c, cfg, st, r))
  {
    match r {
      case Setup(body, salt, privateB) => SetupLeaves(c, cfg, st, body, salt, privateB);
      case Check(body, ephemeral) =>
        VerifyM1Leaves(c, cfg, st, Decoded(body), ephemeral);
        M3Verifies(c, st, Decoded(body));
    }
  }

  /** A phone on file stays on file, so it never passes an M3 without a signature that
      holds, whatever requests came before. */
  lemma {:induction false} KnownPhoneMustSign(c: Crypto, cfg: Config, st: State, requests: seq<Request>, id: Bytes)
    requires cfg.grp.N > 0 && st.store.WellFormed() && st.store.PhoneKey(id).Some?
    ensures ExpectedKey(AnswerAll(c, cfg, st, requests), id) != []
    ensures AnswerAll(c, cfg, st, requests).store.PhoneKey(id) == Some(ExpectedKey(AnswerAll(c, cfg, st, requests), id))
    decreases |requests|
  {
    if requests != [] {
      OnlyM5Saves(c, cfg, st, requests[0]);
      if inner :| Answer(c, cfg, st, requests[0]).store == Learn(st, inner).store {
        LearnKeeps(st, inner, id);
      }
      KnownPhoneMustSign(c, cfg, Answer(c, cfg, st, requests[0]), requests[1..], id);
    }
  }
}
