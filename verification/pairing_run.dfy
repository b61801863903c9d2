/** An honest controller running pair-setup and pair-verify against the accessory,
    checking everything it can on the way. */
module PairingRun {
  import opened Basics
  import opened Tlv8
  import opened CryptoLaws
  import opened Srp
  import opened Numbers
  import opened PairingSession

  /** What the controller brings: the setup password it was told, its SRP exponent,
      its name, its long-term private key and an ephemeral one. */
  datatype Phone = Phone(password: Bytes, privateA: Bytes, id: Bytes, identity: Bytes, ephemeral: Bytes)

  predicate IsReply(items: seq<Item>, n: byte) {
    MessageNumber(items) == n && Find(items, ERROR).None?
  }

  // ------------------------------------------------------ the controller's side

  function SetupRequest1(): Bytes {
    Encoded([Item(STATE, [1])])
  }

  function PhoneProof(c: Crypto, cfg: Config, phone: Phone, reply: Bytes): (r: Proof)
    requires cfg.grp.N > 0
  {
    var items := Decoded(reply);
    var salt, B := Find(items, SALT), Find(items, PUBLIC_KEY);
    if !IsReply(items, 2) || salt.None? || B.None? then Failed
    else ProofFor(c, cfg.grp, USERNAME, phone.password, phone.privateA, salt.value, B.value)
  }

  function SetupRequest3(publicA: Bytes, proof: Proof): Bytes
    requires proof.Proof?
  {
    Encoded([Item(STATE, [3]), Item(PUBLIC_KEY, publicA), Item(PROOF, proof.m1)])
  }

  predicate AcceptsM4(c: Crypto, publicA: Bytes, proof: Proof, reply: Bytes)
    requires proof.Proof?
  {
    var items := Decoded(reply);
    var m2 := Find(items, PROOF);
    IsReply(items, 4) && m2.Some? && ServerProofOk(c, publicA, proof.m1, proof.key, m2.value)
  }

  function SetupRequest5(c: Crypto, phone: Phone, srpKey: Bytes): Bytes {
    var inner := Encoded([Item(IDENTIFIER, phone.id), Item(PUBLIC_KEY, c.ed25519Public(phone.identity))]);
    Encoded([Item(STATE, [5]), Item(ENCRYPTED_DATA, c.seal(SetupKey(c, srpKey), NonceLabel("PS-Msg05"), inner, []))])
  }

  /** The accessory's long-term key from M6, once its signature has been checked. */
  function ReadM6(c: Crypto, srpKey: Bytes, reply: Bytes): Option<Bytes> {
    var items := Decoded(reply);
    var sealed := Find(items, ENCRYPTED_DATA);
    if !IsReply(items, 6) || sealed.None? then None
    else match c.open(SetupKey(c, srpKey), NonceLabel("PS-Msg06"), sealed.value, [])
      case None => None
      case Some(plain) =>
        var inner := Decoded(plain);
        var id, ltpk, signature := Find(inner, IDENTIFIER), Find(inner, PUBLIC_KEY), Find(inner, SIGNATURE);
        if id.None? || ltpk.None? || signature.None? then None
        else if !c.ed25519Verify(ltpk.value, AccessoryX(c, srpKey) + id.value + ltpk.value, signature.value) then None
        else Some(ltpk.value)
  }

  function VerifyRequest1(c: Crypto, phone: Phone): Bytes {
    Encoded([Item(STATE, [1]), Item(PUBLIC_KEY, c.x25519Public(phone.ephemeral))])
  }

  /** The accessory's ephemeral key from the verify M2, once its signature over both
      ephemeral keys checks out under the key learned in pair-setup. */
  function ReadVerifyM2(c: Crypto, phone: Phone, accessoryLtpk: Bytes, reply: Bytes): Option<Bytes> {
    var items := Decoded(reply);
    var theirs, sealed := Find(items, PUBLIC_KEY), Find(items, ENCRYPTED_DATA);
    if !IsReply(items, 2) || theirs.None? || sealed.None? then None
    else
      var shared := c.x25519Shared(phone.ephemeral, theirs.value);
      match c.open(VerifyKey(c, shared), NonceLabel("PV-Msg02"), sealed.value, [])
      case None => None
      case Some(plain) =>
        var inner := Decoded(plain);
        var id, signature := Find(inner, IDENTIFIER), Find(inner, SIGNATURE);
        if id.None? || signature.None? then None
        else if !c.ed25519Verify(accessoryLtpk, theirs.value + id.value + c.x25519Public(phone.ephemeral), signature.value) then None
        else Some(theirs.value)
  }

  function VerifyRequest3(c: Crypto, phone: Phone, theirs: Bytes): Bytes {
    var shared := c.x25519Shared(phone.ephemeral, theirs);
    var signature := c.ed25519Sign(phone.identity, c.x25519Public(phone.ephemeral) + phone.id + theirs);
    var inner := Encoded([Item(IDENTIFIER, phone.id), Item(SIGNATURE, signature)]);
    Encoded([Item(STATE, [3]), Item(ENCRYPTED_DATA, c.seal(VerifyKey(c, shared), NonceLabel("PV-Msg03"), inner, []))])
  }

  // ------------------------------------------------------------ the whole runs

  /** Pair-setup M1 to M6; the accessory's long-term key if the controller is content. */
  function RunSetup(c: Crypto, cfg: Config, st: State, phone: Phone, salt: Bytes, privateB: Bytes): (State, Option<Bytes>)
    requires cfg.grp.N > 0
  {
    var (st1, r2) := PairSetup(c, cfg, st, SetupRequest1(), salt, privateB);
    var proof := PhoneProof(c, cfg, phone, r2);
    if proof.Failed? then (st1, None)
    else
      var publicA := PublicA(cfg.grp, phone.privateA);
      var (st2, r4) := PairSetup(c, cfg, st1, SetupRequest3(publicA, proof), [], []);
      if !AcceptsM4(c, publicA, proof, r4) then (st2, None)
      else
        var (st3, r6) := PairSetup(c, cfg, st2, SetupRequest5(c, phone, proof.key), [], []);
        (st3, ReadM6(c, proof.key, r6))
  }

  /** Pair-verify M1 to M4; the shared secret if the controller is content. */
  function RunVerify(c: Crypto, cfg: Config, st: State, phone: Phone, accessoryLtpk: Bytes, ephemeral: Bytes): (State, Option<Bytes>) {
    var (st1, r2) := PairVerify(c, cfg, st, VerifyRequest1(c, phone), ephemeral);
    match ReadVerifyM2(c, phone, accessoryLtpk, r2)
    case None => (st1, None)
    case Some(theirs) =>
      var (st2, r4) := PairVerify(c, cfg, st1, VerifyRequest3(c, phone, theirs), []);
      if !IsReply(Decoded(r4), 4) then (st2, None) else (st2, Some(c.x25519Shared(phone.ephemeral, theirs)))
  }

  // --------------------------------------------------------- message read-back

  lemma Read1(t: byte, v: Bytes)
    ensures Decoded(Encoded([Item(t, v)])) == [Item(t, v)]
  {
    RoundTripIffNormal([Item(t, v)]);
  }

  lemma Read2(t1: byte, v1: Bytes, t2: byte, v2: Bytes)
    requires t1 != t2
    ensures Decoded(Encoded([Item(t1, v1), Item(t2, v2)])) == [Item(t1, v1), Item(t2, v2)]
  {
    RoundTripIffNormal([Item(t1, v1), Item(t2, v2)]);
  }

  lemma Read3(t1: byte, v1: Bytes, t2: byte, v2: Bytes, t3: byte, v3: Bytes)
    requires t1 != t2 && t2 != t3
    ensures Decoded(Encoded([Item(t1, v1), Item(t2, v2), Item(t3, v3)])) == [Item(t1, v1), Item(t2, v2), Item(t3, v3)]
  {
    RoundTripIffNormal([Item(t1, v1), Item(t2, v2), Item(t3, v3)]);
  }

  lemma Find1(t: byte, v: Bytes)
    ensures forall k :: Find([Item(t, v)], k) == if k == t then Some(v) else None
  {
  }

  lemma Find2(t1: byte, v1: Bytes, t2: byte, v2: Bytes)
    ensures forall k :: Find([Item(t1, v1), Item(t2, v2)], k) == if k == t1 then Some(v1) else if k == t2 then Some(v2) else None
  {
    assert [Item(t1, v1), Item(t2, v2)][1..] == [Item(t2, v2)];
    Find1(t2, v2);
  }

  lemma Find3(t1: byte, v1: Bytes, t2: byte, v2: Bytes, t3: byte, v3: Bytes)
    ensures forall k :: (Find([Item(t1, v1), Item(t2, v2), Item(t3, v3)], k)
      == if k == t1 then Some(v1) else if k == t2 then Some(v2) else if k == t3 then Some(v3) else None)
  {
    assert [Item(t1, v1), Item(t2, v2), Item(t3, v3)][1..] == [Item(t2, v2), Item(t3, v3)];
    Find2(t2, v2, t3, v3);
  }

  // ------------------------------------------------------------- step by step

  lemma ReadsSetupM2(c: Crypto, cfg: Config, phone: Phone, publicB: Bytes, salt: Bytes)
    requires cfg.grp.N > 0
    ensures PhoneProof(c, cfg, phone, Encoded([Item(STATE, [2]), Item(PUBLIC_KEY, publicB), Item(SALT, salt)]))
         == ProofFor(c, cfg.grp, USERNAME, phone.password, phone.privateA, salt, publicB)
  {
    Read3(STATE, [2], PUBLIC_KEY, publicB, SALT, salt);
    Find3(STATE, [2], PUBLIC_KEY, publicB, SALT, salt);
  }

  lemma DispatchSetup1(c: Crypto, cfg: Config, st: State, salt: Bytes, privateB: Bytes)
    requires cfg.grp.N > 0
    ensures PairSetup(c, cfg, st, SetupRequest1(), salt, privateB) == SetupM1(c, cfg, st, salt, privateB)
  {
    Read1(STATE, [1]);
    Find1(STATE, [1]);
  }

  lemma Setup1(c: Crypto, cfg: Config, st: State, phone: Phone, salt: Bytes, privateB: Bytes)
    requires Fits(cfg.grp) && salt != [] && privateB != [] && phone.privateA != []
    ensures var server := NewServer(c, cfg.grp, USERNAME, cfg.password, salt, privateB);
            var (st1, r2) := PairSetup(c, cfg, st, SetupRequest1(), salt, privateB);
            && server.Server?
            && st1 == st.(server := Some(server))
            && PhoneProof(c, cfg, phone, r2) == ProofFor(c, cfg.grp, USERNAME, phone.password, phone.privateA, salt, server.publicB)
  {
    PublicValues(c, cfg.grp, USERNAME, cfg.password, salt, phone.privateA, privateB);
    var server := NewServer(c, cfg.grp, USERNAME, cfg.password, salt, privateB);
    DispatchSetup1(c, cfg, st, salt, privateB);
    ReadsSetupM2(c, cfg, phone, server.publicB, salt);
  }

  lemma Setup3(c: Crypto, cfg: Config, st1: State, publicA: Bytes, proof: Proof, verdict: Verdict)
    requires cfg.grp.N > 0 && st1.server.Some? && proof.Proof?
    requires verdict == Verify(c, cfg.grp, st1.server.value, publicA, proof.m1) && verdict.Accepted?
    ensures var (st2, r4) := PairSetup(c, cfg, st1, SetupRequest3(publicA, proof), [], []);
            && st2 == st1.(srpKey := verdict.key)
            && (AcceptsM4(c, publicA, proof, r4) <==> ServerProofOk(c, publicA, proof.m1, proof.key, verdict.proof))
  {
    Read3(STATE, [3], PUBLIC_KEY, publicA, PROOF, proof.m1);
    Find3(STATE, [3], PUBLIC_KEY, publicA, PROOF, proof.m1);
    Read2(STATE, [4], PROOF, verdict.proof);
    Find2(STATE, [4], PROOF, verdict.proof);
  }

  lemma Learned(c: Crypto, st: State, phone: Phone)
    requires Lawful(c) && st.store.WellFormed()
    ensures var ltpk := c.ed25519Public(phone.identity);
            var inner := Encoded([Item(IDENTIFIER, phone.id), Item(PUBLIC_KEY, ltpk)]);
            var st' := Learn(st, Decoded(inner));
            && st' == st.(deviceIdentifier := phone.id, deviceLtpk := ltpk, store := st.store.Save(phone.id, ltpk))
            && ltpk != [] && ExpectedKey(st', phone.id) == ltpk && st'.store.WellFormed()
  {
    var ltpk := c.ed25519Public(phone.identity);
    Read2(IDENTIFIER, phone.id, PUBLIC_KEY, ltpk);
    Find2(IDENTIFIER, phone.id, PUBLIC_KEY, ltpk);
  }

  /** M5 at the level of items: decrypted, learned from, answered. */
  lemma SetupAccepts(c: Crypto, cfg: Config, st2: State, items: seq<Item>, inner: Bytes)
    requires AeadLaw(c) && HashLaw(c) && st2.srpKey != []
    requires Find(items, ENCRYPTED_DATA) == Some(c.seal(SetupKey(c, st2.srpKey), NonceLabel("PS-Msg05"), inner, []))
    ensures var st3 := Learn(st2, Decoded(inner)).(paired := true);
            SetupM5(c, cfg, st2, items) ==
              (st3, Encoded([Item(STATE, [6]), Item(ENCRYPTED_DATA,
                 c.seal(SetupKey(c, st2.srpKey), NonceLabel("PS-Msg06"), SetupM6Inner(c, cfg, st3), []))]))
  {
    var key, nonce := SetupKey(c, st2.srpKey), NonceLabel("PS-Msg05");
    assert c.open(key, nonce, c.seal(key, nonce, inner, []), []) == Some(inner);
  }

  lemma ReadsM6(c: Crypto, cfg: Config, st3: State)
    requires Lawful(c)
    ensures var sealed := c.seal(SetupKey(c, st3.srpKey), NonceLabel("PS-Msg06"), SetupM6Inner(c, cfg, st3), []);
            ReadM6(c, st3.srpKey, Encoded([Item(STATE, [6]), Item(ENCRYPTED_DATA, sealed)])) == Some(c.ed25519Public(st3.identity))
  {
    var sealed := c.seal(SetupKey(c, st3.srpKey), NonceLabel("PS-Msg06"), SetupM6Inner(c, cfg, st3), []);
    Read2(STATE, [6], ENCRYPTED_DATA, sealed);
    Find2(STATE, [6], ENCRYPTED_DATA, sealed);
    M6Checks(c, cfg, st3);
  }

  lemma Setup5(c: Crypto, cfg: Config, st2: State, phone: Phone)
    requires Lawful(c) && st2.store.WellFormed() && st2.srpKey != []
    requires cfg.grp.N > 0
    ensures var (st3, r6) := PairSetup(c, cfg, st2, SetupRequest5(c, phone, st2.srpKey), [], []);
            && st3.paired && st3.identity == st2.identity && st3.store.WellFormed()
            && st3.store == st2.store.Save(phone.id, c.ed25519Public(phone.identity))
            && st3.deviceLtpk == c.ed25519Public(phone.identity) && ExpectedKey(st3, phone.id) == st3.deviceLtpk
            && ReadM6(c, st2.srpKey, r6) == Some(c.ed25519Public(st2.identity))
  {
    var inner := Encoded([Item(IDENTIFIER, phone.id), Item(PUBLIC_KEY, c.ed25519Public(phone.identity))]);
    var sealed := c.seal(SetupKey(c, st2.srpKey), NonceLabel("PS-Msg05"), inner, []);
    var items := [Item(STATE, [5]), Item(ENCRYPTED_DATA, sealed)];
    Read2(STATE, [5], ENCRYPTED_DATA, sealed);
    Find2(STATE, [5], ENCRYPTED_DATA, sealed);
    SetupAccepts(c, cfg, st2, items, inner);
    Learned(c, st2, phone);
    ReadsM6(c, cfg, Learn(st2, Decoded(inner)).(paired := true));
  }

  lemma M6Checks(c: Crypto, cfg: Config, st: State)
    requires Lawful(c)
    ensures var inner := Decoded(SetupM6Inner(c, cfg, st));
            var ltpk := c.ed25519Public(st.identity);
            && Find(inner, IDENTIFIER) == Some(cfg.identifier) && Find(inner, PUBLIC_KEY) == Some(ltpk)
            && Find(inner, SIGNATURE).Some?
            && c.ed25519Verify(ltpk, AccessoryX(c, st.srpKey) + cfg.identifier + ltpk, Find(inner, SIGNATURE).value)
  {
    var ltpk := c.ed25519Public(st.identity);
    var signature := c.ed25519Sign(st.identity, AccessoryX(c, st.srpKey) + cfg.identifier + ltpk);
    Read3(IDENTIFIER, cfg.identifier, PUBLIC_KEY, ltpk, SIGNATURE, signature);
    Find3(IDENTIFIER, cfg.identifier, PUBLIC_KEY, ltpk, SIGNATURE, signature);
  }

  lemma ReadsVerifyM2(c: Crypto, cfg: Config, st1: State, phone: Phone)
    requires AeadLaw(c) && HashLaw(c) && SignatureLaw(c)
    requires st1.deviceEphemeral == c.x25519Public(phone.ephemeral)
    ensures var key := VerifyKey(c, c.x25519Shared(phone.ephemeral, st1.ephemeralPublic));
            var sealed := c.seal(key, NonceLabel("PV-Msg02"), VerifyM2Inner(c, cfg, st1), []);
            var reply := Encoded([Item(STATE, [2]), Item(PUBLIC_KEY, st1.ephemeralPublic), Item(ENCRYPTED_DATA, sealed)]);
            ReadVerifyM2(c, phone, c.ed25519Public(st1.identity), reply) == Some(st1.ephemeralPublic)
  {
    var key := VerifyKey(c, c.x25519Shared(phone.ephemeral, st1.ephemeralPublic));
    var sealed := c.seal(key, NonceLabel("PV-Msg02"), VerifyM2Inner(c, cfg, st1), []);
    Read3(STATE, [2], PUBLIC_KEY, st1.ephemeralPublic, ENCRYPTED_DATA, sealed);
    Find3(STATE, [2], PUBLIC_KEY, st1.ephemeralPublic, ENCRYPTED_DATA, sealed);
    var signature := c.ed25519Sign(st1.identity, st1.ephemeralPublic + cfg.identifier + st1.deviceEphemeral);
    Read2(IDENTIFIER, cfg.identifier, SIGNATURE, signature);
    Find2(IDENTIFIER, cfg.identifier, SIGNATURE, signature);
  }

  lemma VerifyStart(c: Crypto, cfg: Config, st: State, phone: Phone, ephemeral: Bytes)
    requires Lawful(c)
    ensures var shared := c.x25519Shared(phone.ephemeral, c.x25519Public(ephemeral));
            var (st1, r2) := PairVerify(c, cfg, st, VerifyRequest1(c, phone), ephemeral);
            && st1 == st.(ephemeral := ephemeral, ephemeralPublic := c.x25519Public(ephemeral),
                          deviceEphemeral := c.x25519Public(phone.ephemeral), verifyShared := shared, verifyKey := VerifyKey(c, shared))
            && ReadVerifyM2(c, phone, c.ed25519Public(st.identity), r2) == Some(c.x25519Public(ephemeral))
  {
    var mine, theirs := c.x25519Public(phone.ephemeral), c.x25519Public(ephemeral);
    Read2(STATE, [1], PUBLIC_KEY, mine);
    Find2(STATE, [1], PUBLIC_KEY, mine);
    var shared := c.x25519Shared(phone.ephemeral, theirs);
    assert c.x25519Shared(ephemeral, mine) == shared;
    ReadsVerifyM2(c, cfg, st.(ephemeral := ephemeral, ephemeralPublic := theirs, deviceEphemeral := mine,
                              verifyShared := shared, verifyKey := VerifyKey(c, shared)), phone);
  }

  lemma VerifyAccepts(c: Crypto, st1: State, phone: Phone, items: seq<Item>, inner: Bytes, signature: Bytes)
    requires Lawful(c) && |st1.verifyKey| == KEY_SIZE
    requires Find(items, ENCRYPTED_DATA) == Some(c.seal(st1.verifyKey, NonceLabel("PV-Msg03"), inner, []))
    requires Find(Decoded(inner), IDENTIFIER) == Some(phone.id) && Find(Decoded(inner), SIGNATURE) == Some(signature)
    requires signature == c.ed25519Sign(phone.identity, st1.deviceEphemeral + phone.id + st1.ephemeralPublic)
    requires ExpectedKey(st1, phone.id) == [] || ExpectedKey(st1, phone.id) == c.ed25519Public(phone.identity)
    ensures VerifyM3(c, st1, items) ==
      (st1.(recognised := st1.store.PhoneKey(phone.id).Some?, controlRead := ControlReadKey(c, st1.verifyShared),
            controlWrite := ControlWriteKey(c, st1.verifyShared), verified := true),
       Encoded([Item(STATE, [4])]))
  {
  }

  lemma ReadsVerifyM4()
    ensures IsReply(Decoded(Encoded([Item(STATE, [4])])), 4)
  {
    Read1(STATE, [4]);
    Find1(STATE, [4]);
  }

  lemma DispatchVerify3(c: Crypto, cfg: Config, st: State, sealed: Bytes)
    ensures var items := [Item(STATE, [3]), Item(ENCRYPTED_DATA, sealed)];
            PairVerify(c, cfg, st, Encoded(items), []) == VerifyM3(c, st, items) && Find(items, ENCRYPTED_DATA) == Some(sealed)
  {
    Read2(STATE, [3], ENCRYPTED_DATA, sealed);
    Find2(STATE, [3], ENCRYPTED_DATA, sealed);
  }

  lemma VerifyKeySize(c: Crypto, shared: Bytes)
    requires HashLaw(c)
    ensures |VerifyKey(c, shared)| == KEY_SIZE
  {
  }

  lemma SignedInner(id: Bytes, signature: Bytes)
    ensures var inner := Decoded(Encoded([Item(IDENTIFIER, id), Item(SIGNATURE, signature)]));
            Find(inner, IDENTIFIER) == Some(id) && Find(inner, SIGNATURE) == Some(signature)
  {
    Read2(IDENTIFIER, id, SIGNATURE, signature);
    Find2(IDENTIFIER, id, SIGNATURE, signature);
  }

  /** An honest M3 sets the control keys and is answered with the bare M4. */
  lemma VerifyThird(c: Crypto, cfg: Config, st1: State, phone: Phone)
    requires Lawful(c)
    requires st1.deviceEphemeral == c.x25519Public(phone.ephemeral)
    requires st1.verifyKey == VerifyKey(c, c.x25519Shared(phone.ephemeral, st1.ephemeralPublic))
    requires ExpectedKey(st1, phone.id) == [] || ExpectedKey(st1, phone.id) == c.ed25519Public(phone.identity)
    ensures PairVerify(c, cfg, st1, VerifyRequest3(c, phone, st1.ephemeralPublic), []) ==
      (st1.(recognised := st1.store.PhoneKey(phone.id).Some?, controlRead := ControlReadKey(c, st1.verifyShared),
            controlWrite := ControlWriteKey(c, st1.verifyShared), verified := true),
       Encoded([Item(STATE, [4])]))
  {
    var signature := c.ed25519Sign(phone.identity, st1.deviceEphemeral + phone.id + st1.ephemeralPublic);
    var inner := Encoded([Item(IDENTIFIER, phone.id), Item(SIGNATURE, signature)]);
    var sealed := c.seal(st1.verifyKey, NonceLabel("PV-Msg03"), inner, []);
    DispatchVerify3(c, cfg, st1, sealed);
    VerifyKeySize(c, c.x25519Shared(phone.ephemeral, st1.ephemeralPublic));
    SignedInner(phone.id, signature);
    VerifyAccepts(c, st1, phone, [Item(STATE, [3]), Item(ENCRYPTED_DATA, sealed)], inner, signature);
  }

  lemma VerifyFinish(c: Crypto, cfg: Config, st1: State, phone: Phone)
    requires Lawful(c)
    requires st1.deviceEphemeral == c.x25519Public(phone.ephemeral)
    requires st1.verifyShared == c.x25519Shared(phone.ephemeral, st1.ephemeralPublic)
    requires st1.verifyKey == VerifyKey(c, st1.verifyShared)
    requires ExpectedKey(st1, phone.id) == [] || ExpectedKey(st1, phone.id) == c.ed25519Public(phone.identity)
    ensures var (st2, r4) := PairVerify(c, cfg, st1, VerifyRequest3(c, phone, st1.ephemeralPublic), []);
            && st2.verified && st2.paired == st1.paired && st2.verifyShared == st1.verifyShared
            && st2.recognised == st1.store.PhoneKey(phone.id).Some?
            && st2.controlRead == ControlReadKey(c, st1.verifyShared) && st2.controlWrite == ControlWriteKey(c, st1.verifyShared)
            && IsReply(Decoded(r4), 4)
  {
    VerifyThird(c, cfg, st1, phone);
    ReadsVerifyM4();
  }

  // ------------------------------------------------------------- completeness

  /** Whether the SRP exchange's two zero checks let this pair of exponents through. */
  ghost predicate Usable(c: Crypto, cfg: Config, phone: Phone, salt: Bytes, privateB: Bytes)
    requires cfg.grp.N > 0
  {
    var server := NewServer(c, cfg.grp, USERNAME, cfg.password, salt, privateB);
    && server.Server?
    && FromBytes(server.publicB) % cfg.grp.N != 0
    && FromBytes(PublicA(cfg.grp, phone.privateA)) % cfg.grp.N != 0
  }

  /** Pair-setup with the right password completes, from any earlier state of the
      session, exactly when the two zero checks pass; the controller then holds the
      accessory's long-term key and the accessory holds the phone's. */
  lemma SetupCompletes(c: Crypto, cfg: Config, st: State, phone: Phone, salt: Bytes, privateB: Bytes)
    requires Lawful(c) && Fits(cfg.grp) && st.store.WellFormed()
    requires salt != [] && privateB != [] && phone.privateA != [] && phone.password == cfg.password
    ensures var (st3, learned) := RunSetup(c, cfg, st, phone, salt, privateB);
            && (learned.Some? <==> Usable(c, cfg, phone, salt, privateB))
            && (learned.Some? ==>
                  && learned.value == c.ed25519Public(st.identity)
                  && st3.paired && st3.identity == st.identity && st3.store.WellFormed()
                  && st3.store == st.store.Save(phone.id, c.ed25519Public(phone.identity))
                  && st3.deviceLtpk == c.ed25519Public(phone.identity)
                  && ExpectedKey(st3, phone.id) == st3.deviceLtpk)
  {
    Agreement(c, cfg.grp, USERNAME, cfg.password, salt, phone.privateA, privateB);
    Setup1(c, cfg, st, phone, salt, privateB);
    var (st1, r2) := PairSetup(c, cfg, st, SetupRequest1(), salt, privateB);
    var proof := PhoneProof(c, cfg, phone, r2);
    if proof.Proof? {
      var publicA := PublicA(cfg.grp, phone.privateA);
      var verdict := Verify(c, cfg.grp, st1.server.value, publicA, proof.m1);
      if verdict.Accepted? {
        Setup3(c, cfg, st1, publicA, proof, verdict);
        Setup5(c, cfg, st1.(srpKey := verdict.key), phone);
      } else {
        Setup3Rejected(c, cfg, st1, publicA, proof);
      }
    }
  }

  lemma Setup3Rejected(c: Crypto, cfg: Config, st1: State, publicA: Bytes, proof: Proof)
    requires cfg.grp.N > 0 && st1.server.Some? && proof.Proof?
    requires Verify(c, cfg.grp, st1.server.value, publicA, proof.m1).Rejected?
    ensures var (st2, r4) := PairSetup(c, cfg, st1, SetupRequest3(publicA, proof), [], []);
            st2 == st1 && !AcceptsM4(c, publicA, proof, r4)
  {
    Read3(STATE, [3], PUBLIC_KEY, publicA, PROOF, proof.m1);
    Find3(STATE, [3], PUBLIC_KEY, publicA, PROOF, proof.m1);
    Read2(STATE, [4], ERROR, [AUTHENTICATION]);
    Find2(STATE, [4], ERROR, [AUTHENTICATION]);
  }

  ghost predicate KeysAgreed(c: Crypto, st: State, shared: Option<Bytes>) {
    && st.verified && shared.Some?
    && st.controlRead == ControlReadKey(c, shared.value)
    && st.controlWrite == ControlWriteKey(c, shared.value)
  }

  /** Pair-verify completes for a controller whose key the accessory expects (or that
      it has no key for), and both ends derive the control keys from one secret. */
  lemma VerifyCompletes(c: Crypto, cfg: Config, st: State, phone: Phone, accessoryLtpk: Bytes, ephemeral: Bytes)
    requires Lawful(c) && accessoryLtpk == c.ed25519Public(st.identity)
    requires ExpectedKey(st, phone.id) == [] || ExpectedKey(st, phone.id) == c.ed25519Public(phone.identity)
    ensures var r := RunVerify(c, cfg, st, phone, accessoryLtpk, ephemeral);
            KeysAgreed(c, r.0, r.1) && r.0.paired == st.paired && r.0.recognised == st.store.PhoneKey(phone.id).Some?
  {
    VerifyStart(c, cfg, st, phone, ephemeral);
    var (st1, r2) := PairVerify(c, cfg, st, VerifyRequest1(c, phone), ephemeral);
    VerifyFinish(c, cfg, st1, phone);
  }

  /** Both runs one after the other; the shared secret if the controller is content. */
  function Handshake(c: Crypto, cfg: Config, st: State, phone: Phone, salt: Bytes, privateB: Bytes, ephemeral: Bytes): (State, Option<Bytes>)
    requires cfg.grp.N > 0
  {
    var (st3, ltpk) := RunSetup(c, cfg, st, phone, salt, privateB);
    if ltpk.None? then (st3, None) else RunVerify(c, cfg, st3, phone, ltpk.value, ephemeral)
  }

  /** The whole handshake, from any earlier state of the session: an honest controller
      with the accessory's password gets through exactly when the two zero checks
      pass, and then the session is paired and verified and both sides hold equal
      control keys. */
  lemma HandshakeCompletes(c: Crypto, cfg: Config, st: State, phone: Phone, salt: Bytes, privateB: Bytes, ephemeral: Bytes)
    requires Lawful(c) && Fits(cfg.grp) && st.store.WellFormed()
    requires salt != [] && privateB != [] && phone.privateA != [] && phone.password == cfg.password
    ensures var r := Handshake(c, cfg, st, phone, salt, privateB, ephemeral);
            && (r.1.Some? <==> Usable(c, cfg, phone, salt, privateB))
            && (r.1.Some? ==> KeysAgreed(c, r.0, r.1) && r.0.paired)
  {
    SetupCompletes(c, cfg, st, phone, salt, privateB);
    var r := RunSetup(c, cfg, st, phone, salt, privateB);
    if r.1.Some? {
      VerifyCompletes(c, cfg, r.0, phone, r.1.value, ephemeral);
    }
  }

  /** Once paired, the phone is recognised by every later session on the same store, with no
      pair-setup in between: it verifies against the key on file. */
  lemma LaterSessionRecognises(
    c: Crypto, cfg: Config, st: State, phone: Phone, salt: Bytes, privateB: Bytes, ephemeral: Bytes)
    requires Lawful(c) && Fits(cfg.grp) && st.store.WellFormed() && st.store.enabled
    requires salt != [] && privateB != [] && phone.privateA != [] && phone.password == cfg.password
    requires phone.id != [] && !HasSpace(phone.id)
    requires RunSetup(c, cfg, st, phone, salt, privateB).1.Some?
    ensures var (st3, ltpk) := RunSetup(c, cfg, st, phone, salt, privateB);
            var r := RunVerify(c, cfg, Fresh(st3.store, st3.identity), phone, ltpk.value, ephemeral);
            KeysAgreed(c, r.0, r.1) && r.0.recognised && !r.0.paired
  {
    SetupCompletes(c, cfg, st, phone, salt, privateB);
    var (st3, ltpk) := RunSetup(c, cfg, st, phone, salt, privateB);
    SavedIsFound(st.store, phone.id, c.ed25519Public(phone.identity), phone.id);
    VerifyCompletes(c, cfg, Fresh(st3.store, st3.identity), phone, ltpk.value, ephemeral);
  }

  // ------------------------------------------------------------------ refusals

  lemma RefusalReads(n: byte)
    ensures Decoded(TlvError(n, AUTHENTICATION)) == [Item(STATE, [n]), Item(ERROR, [AUTHENTICATION])]
    ensures MessageNumber(Decoded(TlvError(n, AUTHENTICATION))) == n
    ensures Find(Decoded(TlvError(n, AUTHENTICATION)), ERROR) == Some([AUTHENTICATION])
    ensures Find(Decoded(TlvError(n, AUTHENTICATION)), PROOF) == None
  {
    Read2(STATE, [n], ERROR, [AUTHENTICATION]);
    Find2(STATE, [n], ERROR, [AUTHENTICATION]);
  }

  /** An M3 with any proof but the one its public value calls for changes nothing and is
      answered, under the right number, with the authentication error. */
  lemma OtherProofRefused(c: Crypto, cfg: Config, st: State, publicA: Bytes, m1: Bytes)
    requires cfg.grp.N > 0 && HashLaw(c) && st.server.Some?
    requires ExpectedProof(c, cfg.grp, st.server.value, publicA) != Some(m1)
    ensures var (st', reply) := PairSetup(c, cfg, st, Encoded([Item(STATE, [3]), Item(PUBLIC_KEY, publicA), Item(PROOF, m1)]), [], []);
            st' == st && Decoded(reply) == [Item(STATE, [4]), Item(ERROR, [AUTHENTICATION])]
  {
    Read3(STATE, [3], PUBLIC_KEY, publicA, PROOF, m1);
    Find3(STATE, [3], PUBLIC_KEY, publicA, PROOF, m1);
    OneProofPasses(c, cfg, st, [Item(STATE, [3]), Item(PUBLIC_KEY, publicA), Item(PROOF, m1)]);
    RefusalReads(4);
  }

  /** A controller with whatever password gets through pair-setup only if it computed the
      accessory's own secret, or two different messages were met that share a hash. */
  lemma SetupNeedsTheSecret(c: Crypto, cfg: Config, st: State, phone: Phone, salt: Bytes, privateB: Bytes)
    requires HashLaw(c) && Fits(cfg.grp) && salt != [] && privateB != [] && phone.privateA != []
    requires RunSetup(c, cfg, st, phone, salt, privateB).1.Some?
    ensures var server, publicA := NewServer(c, cfg.grp, USERNAME, cfg.password, salt, privateB), PublicA(cfg.grp, phone.privateA);
            && server.Server?
            && var ours, theirs := SecretFor(c, cfg.grp, server, publicA),
                                   SecretOf(c, cfg.grp, USERNAME, phone.password, phone.privateA, salt, server.publicB);
               var key, key' := c.sha512(ToBytes(ours)), c.sha512(ToBytes(theirs));
               || ours == theirs
               || Collide(c, ToBytes(ours), ToBytes(theirs))
               || Collide(c, ProofMessage(c, cfg.grp, USERNAME, salt, publicA, server.publicB, key),
                             ProofMessage(c, cfg.grp, USERNAME, salt, publicA, server.publicB, key'))
  {
    Setup1(c, cfg, st, phone, salt, privateB);
    PublicValues(c, cfg.grp, USERNAME, cfg.password, salt, phone.privateA, privateB);
    var (st1, r2) := PairSetup(c, cfg, st, SetupRequest1(), salt, privateB);
    var proof, publicA := PhoneProof(c, cfg, phone, r2), PublicA(cfg.grp, phone.privateA);
    if Verify(c, cfg.grp, st1.server.value, publicA, proof.m1).Rejected? {
      Setup3Rejected(c, cfg, st1, publicA, proof);
    }
    AcceptedReachedTheSecret(c, cfg.grp, st1.server.value, USERNAME, phone.password, phone.privateA, salt, st1.server.value.publicB);
  }
}
