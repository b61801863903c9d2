/** SRP-6a as pair-setup uses it (section 2.6 of RFC 5054): the numbers, their byte
    encodings, both ends of the exchange, and why they agree. */
module Numbers {
  import opened Basics
  import opened Modular

  function Pow(b: int, e: nat): int {
    if e == 0 then 1 else b * Pow(b, e - 1)
  }

  /** The residue a modular exponentiation returns. */
  function ModExp(b: int, e: nat, n: nat): (r: nat)
    requires n > 0
    ensures r < n
  {
    Pow(b, e) % n
  }

  lemma {:induction false} PowAdd(b: int, d: nat, e: nat)
    ensures Pow(b, d + e) == Pow(b, d) * Pow(b, e)
  {
    if d > 0 {
      PowAdd(b, d - 1, e);
    }
  }

  lemma {:induction false} PowMul(b: int, d: nat, e: nat)
    ensures Pow(Pow(b, d), e) == Pow(b, d * e)
  {
    if e > 0 {
      PowMul(b, d, e - 1);
      PowAdd(b, d, d * (e - 1));
      assert d * e == d + d * (e - 1);
    } else {
      assert d * e == 0;
    }
  }

  ghost predicate Congruent(a: int, b: int, n: nat)
    requires n > 0
  {
    a % n == b % n
  }

  lemma CongruentIff(a: int, b: int, n: nat, k: int)
    requires n > 0 && a == b + k * n
    ensures Congruent(a, b, n)
  {
    var q, r := b / n, b % n;
    assert a == (q + k) * n + r;
    ModUnique(a, n, q + k, r);
  }

  lemma CongruentMod(a: int, n: nat)
    requires n > 0
    ensures Congruent(a % n, a, n)
  {
    CongruentIff(a % n, a, n, -(a / n));
  }

  lemma CongruentAdd(a: int, b: int, c: int, d: int, n: nat)
    requires n > 0 && Congruent(a, b, n) && Congruent(c, d, n)
    ensures Congruent(a + c, b + d, n) && Congruent(a - c, b - d, n)
  {
    var j, k := a / n - b / n, c / n - d / n;
    assert a == b + j * n && c == d + k * n;
    assert a + c == b + d + (j + k) * n;
    CongruentIff(a + c, b + d, n, j + k);
    assert a - c == b - d + (j - k) * n;
    CongruentIff(a - c, b - d, n, j - k);
  }

  lemma MulExpand(a: int, b: int, c: int, d: int)
    ensures (a + b) * (c + d) == a * c + b * c + a * d + b * d
  {
  }

  lemma MulMove(a: int, b: int, c: int)
    ensures (a * b) * c == (a * c) * b && (a * b) * c == a * (b * c)
  {
  }

  lemma MulSum(a: int, b: int, c: int, n: int)
    ensures (a + b + c) * n == a * n + b * n + c * n
  {
  }

  lemma CongruentMul(a: int, b: int, c: int, d: int, n: nat)
    requires n > 0 && Congruent(a, b, n) && Congruent(c, d, n)
    ensures Congruent(a * c, b * d, n)
  {
    var j, k := a / n - b / n, c / n - d / n;
    assert a == b + j * n && c == d + k * n;
    var m := j * d + b * k + j * (k * n);
    MulExpand(b, j * n, d, k * n);
    MulMove(j, n, d);
    MulMove(b, k, n);
    MulMove(j, n, k * n);
    MulSum(j * d, b * k, j * (k * n), n);
    CongruentIff(a * c, b * d, n, m);
  }

  lemma {:induction false} CongruentPow(a: int, b: int, e: nat, n: nat)
    requires n > 0 && Congruent(a, b, n)
    ensures Congruent(Pow(a, e), Pow(b, e), n)
  {
    if e > 0 {
      CongruentPow(a, b, e - 1, n);
      CongruentMul(a, b, Pow(a, e - 1), Pow(b, e - 1), n);
    }
  }

  // ---------------------------------------------------------- byte encodings

  /** Big-endian. */
  function FromBytes(b: Bytes): nat {
    if b == [] then 0 else FromBytes(b[..|b| - 1]) * 256 + b[|b| - 1] as nat
  }

  /** Minimal big-endian encoding; zero is the empty string. */
  function ToBytes(n: nat): Bytes {
    if n == 0 then [] else ToBytes(n / 256) + [(n % 256) as byte]
  }

  function Padded(n: nat, width: nat): (r: Bytes)
    ensures |r| == width
    decreases width
  {
    if width == 0 then [] else Padded(n / 256, width - 1) + [(n % 256) as byte]
  }

  /** Fixed-width left-padded encoding; empty when the value is too wide. */
  function PadBytes(n: nat, width: nat): (r: Bytes)
    ensures r == [] || |r| == width
  {
    if n < Pow(256, width) then Padded(n, width) else []
  }

  lemma {:induction false} PaddedRoundTrip(n: nat, width: nat)
    requires n < Pow(256, width)
    ensures FromBytes(Padded(n, width)) == n
    decreases width
  {
    if width > 0 {
      PaddedRoundTrip(n / 256, width - 1);
      assert Padded(n, width)[..width - 1] == Padded(n / 256, width - 1);
    }
  }

  /** The most significant byte comes first. */
  lemma {:induction false} MostSignificantFirst(first: byte, rest: Bytes)
    ensures FromBytes([first] + rest) == first as nat * Pow(256, |rest|) + FromBytes(rest)
    decreases |rest|
  {
    var all := [first] + rest;
    if rest == [] {
      assert all[..0] == [];
      assert FromBytes(all) == first as nat;
    } else {
      var front := rest[..|rest| - 1];
      assert all[..|all| - 1] == [first] + front;
      MostSignificantFirst(first, front);
      assert Pow(256, |rest|) == 256 * Pow(256, |front|);
      assert (first as nat * Pow(256, |front|)) * 256 == first as nat * (256 * Pow(256, |front|));
    }
  }

  lemma {:induction false} ToBytesRoundTrip(n: nat)
    ensures FromBytes(ToBytes(n)) == n
  {
    if n > 0 {
      ToBytesRoundTrip(n / 256);
      assert ToBytes(n)[..|ToBytes(n)| - 1] == ToBytes(n / 256);
    }
  }
}

module Srp {
  import opened Basics
  import opened Numbers
  import opened CryptoLaws

  const MODULUS_BYTES: nat := 384
  const USERNAME: Bytes := Ascii("Pair-Setup")

  /** The group parameters: any modulus that fits the fixed width will do. */
  datatype Group = Group(N: nat, g: nat)

  ghost predicate Fits(grp: Group) {
    1 < grp.N <= Pow(256, MODULUS_BYTES) && grp.g < grp.N
  }

  /** Exclusive or, one of the lowest bits after the other. */
  function XorBits(a: nat, b: nat, bits: nat): nat {
    if bits == 0 then 0 else (a % 2 + b % 2) % 2 + 2 * XorBits(a / 2, b / 2, bits - 1)
  }

  lemma {:induction false} XorFits(a: nat, b: nat, bits: nat)
    ensures XorBits(a, b, bits) < Pow(2, bits)
  {
    if bits > 0 { XorFits(a / 2, b / 2, bits - 1); }
  }

  function XorByte(a: byte, b: byte): byte {
    XorFits(a as nat, b as nat, 8);
    assert Pow(2, 4) == 16 && Pow(2, 8) == 256;
    XorBits(a as nat, b as nat, 8) as byte
  }

  function HashXor(c: Crypto, grp: Group): Bytes {
    var hn, hg := c.sha512(ToBytes(grp.N)), c.sha512(ToBytes(grp.g));
    seq(Min(|hn|, |hg|), i requires 0 <= i < Min(|hn|, |hg|) => XorByte(hn[i], hg[i]))
  }

  /** k = H(N | PAD(g)). */
  function Multiplier(c: Crypto, grp: Group): nat {
    FromBytes(c.sha512(ToBytes(grp.N) + PadBytes(grp.g, MODULUS_BYTES)))
  }

  /** x = H(salt | H(I | ":" | p)). */
  function ComputeX(c: Crypto, username: Bytes, password: Bytes, salt: Bytes): nat {
    FromBytes(c.sha512(salt + c.sha512(username + [58] + password)))
  }

  /** What the client's proof is a hash of. */
  function ProofMessage(c: Crypto, grp: Group, username: Bytes, salt: Bytes, paddedA: Bytes, paddedB: Bytes, key: Bytes): Bytes {
    HashXor(c, grp) + c.sha512(username) + salt + paddedA + paddedB + key
  }

  function ComputeM1(c: Crypto, grp: Group, username: Bytes, salt: Bytes, paddedA: Bytes, paddedB: Bytes, key: Bytes): Bytes {
    c.sha512(ProofMessage(c, grp, username, salt, paddedA, paddedB, key))
  }

  /** The proof comparison: equal, and not empty. */
  predicate EqualConstantTime(a: Bytes, b: Bytes) {
    |a| == |b| && a != [] && a == b
  }

  // ------------------------------------------------------------------ Server

  datatype Server =
    | Invalid
    | Server(username: Bytes, salt: Bytes, publicB: Bytes, v: nat, b: nat)

  /** B = (k·v + g^b) mod N. */
  function PublicB(c: Crypto, grp: Group, v: nat, b: nat): (r: nat)
    requires grp.N > 0
    ensures r < grp.N
  {
    (ModExp(grp.g, b, grp.N) + Multiplier(c, grp) * v % grp.N) % grp.N
  }

  function NewServer(c: Crypto, grp: Group, username: Bytes, password: Bytes, salt: Bytes, privateB: Bytes): Server
    requires grp.N > 0
  {
    if salt == [] || privateB == [] then Invalid
    else
      var v := ModExp(grp.g, ComputeX(c, username, password, salt), grp.N);
      var b := FromBytes(privateB);
      var publicB := PadBytes(PublicB(c, grp, v, b), MODULUS_BYTES);
      if publicB == [] || PadBytes(v, MODULUS_BYTES) == [] then Invalid
      else Server(username, salt, publicB, v, b)
  }

  /** S = (A·v^u)^b mod N. */
  function ServerSecret(grp: Group, v: nat, b: nat, A: nat, u: nat): nat
    requires grp.N > 0
  {
    ModExp(A * ModExp(v, u, grp.N) % grp.N, b, grp.N)
  }

  /** K = H(S) over the minimal encoding of S. */
  function ServerKey(c: Crypto, grp: Group, v: nat, b: nat, A: nat, u: nat): Bytes
    requires grp.N > 0
  {
    c.sha512(ToBytes(ServerSecret(grp, v, b, A, u)))
  }

  datatype Verdict = Rejected | Accepted(key: Bytes, proof: Bytes)

  function Verify(c: Crypto, grp: Group, server: Server, clientA: Bytes, clientM1: Bytes): Verdict
    requires grp.N > 0
  {
    if server.Invalid? then Rejected
    else
      var A := FromBytes(clientA);
      if A % grp.N == 0 then Rejected
      else
        var paddedA := PadBytes(A, MODULUS_BYTES);
        if paddedA == [] then Rejected
        else
          var key := ServerKey(c, grp, server.v, server.b, A, FromBytes(c.sha512(paddedA + server.publicB)));
          var expected := ComputeM1(c, grp, server.username, server.salt, paddedA, server.publicB, key);
          if !EqualConstantTime(expected, clientM1) then Rejected
          else Accepted(key, c.sha512(paddedA + clientM1 + key))
  }

  // ------------------------------------------------------------------ Client

  function PublicA(grp: Group, privateA: Bytes): Bytes
    requires grp.N > 0
  {
    if privateA == [] then [] else PadBytes(ModExp(grp.g, FromBytes(privateA), grp.N), MODULUS_BYTES)
  }

  /** The same S as (B - k·g^x)^(a + u·x) mod N. */
  function ClientSecret(c: Crypto, grp: Group, x: nat, a: nat, B: nat, u: nat): nat
    requires grp.N > 0
  {
    var base := (B - Multiplier(c, grp) * ModExp(grp.g, x, grp.N) % grp.N) % grp.N;
    ModExp(base, u * x + a, grp.N)
  }

  function ClientKey(c: Crypto, grp: Group, x: nat, a: nat, B: nat, u: nat): Bytes
    requires grp.N > 0
  {
    c.sha512(ToBytes(ClientSecret(c, grp, x, a, B, u)))
  }

  datatype Proof = Failed | Proof(key: Bytes, m1: Bytes)

  function ProofFor(c: Crypto, grp: Group, username: Bytes, password: Bytes, privateA: Bytes, salt: Bytes, serverB: Bytes): Proof
    requires grp.N > 0
  {
    var publicA := PublicA(grp, privateA);
    var B := FromBytes(serverB);
    var paddedB := PadBytes(B, MODULUS_BYTES);
    if publicA == [] || B % grp.N == 0 || paddedB == [] then Failed
    else
      var x := ComputeX(c, username, password, salt);
      var key := ClientKey(c, grp, x, FromBytes(privateA), B, FromBytes(c.sha512(publicA + paddedB)));
      Proof(key, ComputeM1(c, grp, username, salt, publicA, paddedB, key))
  }

  /** The client side of the exchange; `ComputeProof` leaves what `CheckServerProof`
      needs. */
  class Client {
    const c: Crypto
    const grp: Group
    const username: Bytes
    const password: Bytes
    const privateA: Bytes
    var sessionKey: Bytes
    var clientProof: Bytes

    constructor (c: Crypto, grp: Group, username: Bytes, password: Bytes, privateA: Bytes)
      ensures this.c == c && this.grp == grp && this.username == username
      ensures this.password == password && this.privateA == privateA
      ensures sessionKey == [] && clientProof == []
    {
      this.c, this.grp, this.username, this.password, this.privateA := c, grp, username, password, privateA;
      sessionKey, clientProof := [], [];
    }

    /** Key and proof for a server's salt and public value: every honest server of this
        user that sent them accepts the proof and holds the key. */
    method ComputeProof(salt: Bytes, serverB: Bytes) returns (proof: Proof)
      requires grp.N > 0
      modifies this
      ensures proof.Proof? <==>
        PublicA(grp, privateA) != [] && FromBytes(serverB) % grp.N != 0 && PadBytes(FromBytes(serverB), MODULUS_BYTES) != []
      ensures proof == ProofFor(c, grp, username, password, privateA, salt, serverB)
      ensures proof.Proof? && HashLaw(c) && Fits(grp) && FromBytes(PublicA(grp, privateA)) % grp.N != 0 ==>
        AcceptedByServers(c, grp, username, password, PublicA(grp, privateA), salt, serverB, sessionKey, clientProof)
      ensures proof.Proof? ==> sessionKey == proof.key && clientProof == proof.m1
      ensures proof.Failed? ==> sessionKey == old(sessionKey) && clientProof == old(clientProof)
    {
      var publicA := PublicA(grp, privateA);
      if publicA == [] {
        return Failed;
      }
      var B := FromBytes(serverB);
      if B % grp.N == 0 {
        return Failed;
      }
      var paddedB := PadBytes(B, MODULUS_BYTES);
      if paddedB == [] {
        return Failed;
      }
      var u := FromBytes(c.sha512(publicA + paddedB));
      var x := ComputeX(c, username, password, salt);
      var key := SharedKey(B, u, x);
      var m1 := ComputeM1(c, grp, username, salt, publicA, paddedB, key);
      proof := Proof(key, m1);
      assert proof == ProofFor(c, grp, username, password, privateA, salt, serverB);
      if HashLaw(c) && Fits(grp) && FromBytes(publicA) % grp.N != 0 {
        ProofAccepted(c, grp, username, password, privateA, salt, serverB);
      }
      sessionKey, clientProof := key, m1;
    }

    /** K from (B - k·g^x)^(a + u·x). */
    method SharedKey(B: nat, u: nat, x: nat) returns (key: Bytes)
      requires grp.N > 0
      ensures key == ClientKey(c, grp, x, FromBytes(privateA), B, u)
    {
      var base := ModExp(grp.g, x, grp.N);
      base := Multiplier(c, grp) * base % grp.N;
      base := (B - base) % grp.N;
      var exponent := u * x + FromBytes(privateA);
      key := c.sha512(ToBytes(ModExp(base, exponent, grp.N)));
    }

    method CheckServerProof(serverM2: Bytes) returns (ok: bool)
      requires grp.N > 0
      ensures ok == ServerProofOk(c, PublicA(grp, privateA), clientProof, sessionKey, serverM2)
    {
      var publicA := PublicA(grp, privateA);
      if publicA == [] || clientProof == [] {
        return false;
      }
      return EqualConstantTime(c.sha512(publicA + clientProof + sessionKey), serverM2);
    }
  }

  predicate ServerProofOk(c: Crypto, publicA: Bytes, m1: Bytes, key: Bytes, serverM2: Bytes) {
    publicA != [] && m1 != [] && EqualConstantTime(c.sha512(publicA + m1 + key), serverM2)
  }

  // --------------------------------------------------------------- agreement

  /** The client strips k·g^x off B and is left with g^b. */
  lemma StripVerifier(gb: int, kv: int, n: nat)
    requires n > 0
    ensures (((gb % n + kv % n) % n) - kv % n) % n == gb % n
  {
    CongruentMod(gb % n + kv % n, n);
    CongruentAdd((gb % n + kv % n) % n, gb % n + kv % n, kv % n, kv % n, n);
    CongruentMod(gb, n);
  }

  lemma ServerSecretIs(g: nat, x: nat, a: nat, b: nat, u: nat, n: nat)
    requires n > 0
    ensures ModExp(ModExp(g, a, n) * ModExp(ModExp(g, x, n), u, n) % n, b, n) == ModExp(g, b * (u * x + a), n)
  {
    var e := u * x + a;
    ServerBase(g, x, a, u, n);
    CongruentPow(ModExp(g, a, n) * ModExp(ModExp(g, x, n), u, n) % n, Pow(g, e), b, n);
    PowMul(g, e, b);
    assert e * b == b * e;
  }

  lemma ClientSecretIs(g: nat, k: nat, v: nat, b: nat, e: nat, n: nat)
    requires n > 0
    ensures ModExp(((ModExp(g, b, n) + k * v % n) % n - k * v % n) % n, e, n) == ModExp(g, b * e, n)
  {
    StripVerifier(Pow(g, b), k * v, n);
    CongruentMod(Pow(g, b), n);
    CongruentPow(ModExp(g, b, n), Pow(g, b), e, n);
    PowMul(g, b, e);
  }

  /** The server's (A·v^u)^b and the client's (B - k·g^x)^(a + u·x) are one number, and which. */
  lemma SecretsAgree(g: nat, k: nat, x: nat, a: nat, b: nat, u: nat, n: nat)
    requires n > 0
    ensures var v := ModExp(g, x, n);
            var A := ModExp(g, a, n);
            var B := (ModExp(g, b, n) + k * v % n) % n;
            && ModExp(A * ModExp(v, u, n) % n, b, n) == ModExp(g, b * (u * x + a), n)
            && ModExp((B - k * v % n) % n, u * x + a, n) == ModExp(g, b * (u * x + a), n)
  {
    ServerSecretIs(g, x, a, b, u, n);
    ClientSecretIs(g, k, ModExp(g, x, n), b, u * x + a, n);
  }

  lemma VerifierPower(g: nat, x: nat, u: nat, n: nat)
    requires n > 0
    ensures Congruent(ModExp(ModExp(g, x, n), u, n), Pow(g, x * u), n)
  {
    var v := ModExp(g, x, n);
    CongruentMod(Pow(g, x), n);
    CongruentPow(v, Pow(g, x), u, n);
    PowMul(g, x, u);
    CongruentMod(Pow(v, u), n);
  }

  lemma ServerBase(g: nat, x: nat, a: nat, u: nat, n: nat)
    requires n > 0
    ensures Congruent(ModExp(g, a, n) * ModExp(ModExp(g, x, n), u, n) % n, Pow(g, u * x + a), n)
  {
    var A, w := ModExp(g, a, n), ModExp(ModExp(g, x, n), u, n);
    CongruentMod(Pow(g, a), n);
    VerifierPower(g, x, u, n);
    CongruentMul(A, Pow(g, a), w, Pow(g, x * u), n);
    CongruentMod(A * w, n);
    PowAdd(g, x * u, a);
    assert Pow(g, u * x + a) == Pow(g, a) * Pow(g, x * u) by {
      assert x * u == u * x;
    }
  }

  // ------------------------------------------------------- the whole exchange

  lemma PadIsExact(n: nat)
    ensures n < Pow(256, MODULUS_BYTES) ==>
              PadBytes(n, MODULUS_BYTES) != [] && FromBytes(PadBytes(n, MODULUS_BYTES)) == n
  {
    if n < Pow(256, MODULUS_BYTES) {
      PaddedRoundTrip(n, MODULUS_BYTES);
    }
  }

  lemma KeysAgree(c: Crypto, grp: Group, x: nat, a: nat, b: nat, u: nat)
    requires grp.N > 0
    ensures var v := ModExp(grp.g, x, grp.N);
            && ServerKey(c, grp, v, b, ModExp(grp.g, a, grp.N), u) == c.sha512(ToBytes(ModExp(grp.g, b * (u * x + a), grp.N)))
            && ClientKey(c, grp, x, a, PublicB(c, grp, v, b), u) == c.sha512(ToBytes(ModExp(grp.g, b * (u * x + a), grp.N)))
  {
    SecretsAgree(grp.g, Multiplier(c, grp), x, a, b, u, grp.N);
  }

  /** What an honest server and client put on the wire, and that it arrives exactly. */
  lemma PublicValues(c: Crypto, grp: Group, username: Bytes, password: Bytes, salt: Bytes, privateA: Bytes, privateB: Bytes)
    requires grp.N > 0 && Fits(grp) && salt != [] && privateA != [] && privateB != []
    ensures var v, b := ModExp(grp.g, ComputeX(c, username, password, salt), grp.N), FromBytes(privateB);
            var B, A := PublicB(c, grp, v, b), ModExp(grp.g, FromBytes(privateA), grp.N);
            && NewServer(c, grp, username, password, salt, privateB) == Server(username, salt, PadBytes(B, MODULUS_BYTES), v, b)
            && PublicA(grp, privateA) == PadBytes(A, MODULUS_BYTES) != []
            && FromBytes(PadBytes(B, MODULUS_BYTES)) == B && PadBytes(B, MODULUS_BYTES) != []
            && FromBytes(PadBytes(A, MODULUS_BYTES)) == A
  {
    var v, b := ModExp(grp.g, ComputeX(c, username, password, salt), grp.N), FromBytes(privateB);
    PadIsExact(v);
    PadIsExact(ModExp(grp.g, FromBytes(privateA), grp.N));
    PadIsExact(PublicB(c, grp, v, b));
  }

  /** Every honest server of this user that sent this salt and public value accepts the
      proof, ends up with the key, and its own proof is accepted in turn. */
  ghost predicate AcceptedByServers(c: Crypto, grp: Group, username: Bytes, password: Bytes, publicA: Bytes,
                                    salt: Bytes, serverB: Bytes, key: Bytes, m1: Bytes)
    requires grp.N > 0
  {
    forall privateB: Bytes :: privateB != [] && salt != [] ==>
      var server := NewServer(c, grp, username, password, salt, privateB);
      && server.Server?
      && (server.publicB == serverB ==>
            var verdict := Verify(c, grp, server, publicA, m1);
            verdict.Accepted? && verdict.key == key && ServerProofOk(c, publicA, m1, key, verdict.proof))
  }

  lemma ProofAccepted(c: Crypto, grp: Group, username: Bytes, password: Bytes, privateA: Bytes, salt: Bytes, serverB: Bytes)
    requires HashLaw(c) && Fits(grp) && PublicA(grp, privateA) != [] && FromBytes(PublicA(grp, privateA)) % grp.N != 0
    requires ProofFor(c, grp, username, password, privateA, salt, serverB).Proof?
    ensures var proof := ProofFor(c, grp, username, password, privateA, salt, serverB);
            AcceptedByServers(c, grp, username, password, PublicA(grp, privateA), salt, serverB, proof.key, proof.m1)
  {
    forall privateB: Bytes | privateB != [] && salt != []
      ensures var proof := ProofFor(c, grp, username, password, privateA, salt, serverB);
              var server := NewServer(c, grp, username, password, salt, privateB);
              && server.Server?
              && (server.publicB == serverB ==>
                    var verdict := Verify(c, grp, server, PublicA(grp, privateA), proof.m1);
                    && verdict.Accepted? && verdict.key == proof.key
                    && ServerProofOk(c, PublicA(grp, privateA), proof.m1, proof.key, verdict.proof))
    {
      Agreement(c, grp, username, password, salt, privateA, privateB);
    }
  }

  /** What the client makes of an honest server's public value. */
  lemma ClientGetsThrough(c: Crypto, grp: Group, username: Bytes, password: Bytes, salt: Bytes, privateA: Bytes, privateB: Bytes)
    requires Fits(grp) && salt != [] && privateA != [] && privateB != []
    ensures var server, publicA := NewServer(c, grp, username, password, salt, privateB), PublicA(grp, privateA);
            var u := FromBytes(c.sha512(publicA + server.publicB));
            && server.Server? && server.username == username && server.salt == salt
            && publicA != [] && PadBytes(FromBytes(publicA), MODULUS_BYTES) == publicA
            && var key := ServerKey(c, grp, server.v, server.b, FromBytes(publicA), u);
            ProofFor(c, grp, username, password, privateA, salt, server.publicB) ==
              if FromBytes(server.publicB) % grp.N == 0 then Failed
              else Proof(key, ComputeM1(c, grp, username, salt, publicA, server.publicB, key))
  {
    PublicValues(c, grp, username, password, salt, privateA, privateB);
    var server := NewServer(c, grp, username, password, salt, privateB);
    var u := FromBytes(c.sha512(PublicA(grp, privateA) + server.publicB));
    KeysAgree(c, grp, ComputeX(c, username, password, salt), FromBytes(privateA), FromBytes(privateB), u);
  }

  /** What the server makes of a proof under the key it computes itself. */
  lemma ServerGetsThrough(c: Crypto, grp: Group, server: Server, publicA: Bytes, key: Bytes, m1: Bytes)
    requires HashLaw(c) && grp.N > 0 && server.Server?
    requires publicA != [] && PadBytes(FromBytes(publicA), MODULUS_BYTES) == publicA
    requires key == ServerKey(c, grp, server.v, server.b, FromBytes(publicA), FromBytes(c.sha512(publicA + server.publicB)))
    requires m1 == ComputeM1(c, grp, server.username, server.salt, publicA, server.publicB, key)
    ensures Verify(c, grp, server, publicA, m1) ==
      if FromBytes(publicA) % grp.N == 0 then Rejected else Accepted(key, c.sha512(publicA + m1 + key))
    ensures |key| == HASH_SIZE && |m1| == HASH_SIZE && |c.sha512(publicA + m1 + key)| == HASH_SIZE
  {
  }

  /** The exchange completes, with both ends holding one key and each accepting the
      other's proof, if and only if neither public value is zero modulo N. */
  lemma Agreement(c: Crypto, grp: Group, username: Bytes, password: Bytes, salt: Bytes, privateA: Bytes, privateB: Bytes)
    requires HashLaw(c) && Fits(grp) && salt != [] && privateA != [] && privateB != []
    ensures var server := NewServer(c, grp, username, password, salt, privateB);
            var publicA := PublicA(grp, privateA);
            var proof := ProofFor(c, grp, username, password, privateA, salt, server.publicB);
            && server.Server? && publicA != []
            && (proof.Proof? <==> FromBytes(server.publicB) % grp.N != 0)
            && (proof.Proof? ==>
                  var verdict := Verify(c, grp, server, publicA, proof.m1);
                  && (verdict.Accepted? <==> FromBytes(publicA) % grp.N != 0)
                  && (verdict.Accepted? ==>
                        && verdict.key == proof.key && |proof.key| == HASH_SIZE
                        && ServerProofOk(c, publicA, proof.m1, proof.key, verdict.proof)))
  {
    ClientGetsThrough(c, grp, username, password, salt, privateA, privateB);
    var server, publicA := NewServer(c, grp, username, password, salt, privateB), PublicA(grp, privateA);
    var key := ServerKey(c, grp, server.v, server.b, FromBytes(publicA), FromBytes(c.sha512(publicA + server.publicB)));
    ServerGetsThrough(c, grp, server, publicA, key, ComputeM1(c, grp, username, salt, publicA, server.publicB, key));
  }

  // --------------------------------------------------------------- soundness

  /** Two different messages with one hash. */
  predicate Collide(c: Crypto, m: Bytes, n: Bytes) {
    m != n && c.sha512(m) == c.sha512(n)
  }

  /** The one proof that goes with a public value: that of a client which reached the
      server's own key. */
  function ExpectedProof(c: Crypto, grp: Group, server: Server, clientA: Bytes): Option<Bytes>
    requires grp.N > 0
  {
    var A := FromBytes(clientA);
    var padded := PadBytes(A, MODULUS_BYTES);
    if server.Invalid? || A % grp.N == 0 || padded == [] then None
    else
      var key := ServerKey(c, grp, server.v, server.b, A, FromBytes(c.sha512(padded + server.publicB)));
      Some(ComputeM1(c, grp, server.username, server.salt, padded, server.publicB, key))
  }

  /** A server accepts that proof and no other. */
  lemma AcceptsOneProof(c: Crypto, grp: Group, server: Server, clientA: Bytes, m1: Bytes)
    requires grp.N > 0
    ensures Verify(c, grp, server, clientA, m1).Accepted? ==> ExpectedProof(c, grp, server, clientA) == Some(m1)
    ensures HashLaw(c) && ExpectedProof(c, grp, server, clientA) == Some(m1) ==> Verify(c, grp, server, clientA, m1).Accepted?
  {
  }

  /** An honest server accepts exactly the proof of an honest client with its password, and
      that client exactly the proof it gets back. */
  lemma OnlyThatProof(
    c: Crypto, grp: Group, username: Bytes, password: Bytes, salt: Bytes, privateA: Bytes, privateB: Bytes, m1: Bytes, m2: Bytes)
    requires HashLaw(c) && Fits(grp) && salt != [] && privateA != [] && privateB != []
    requires ProofFor(c, grp, username, password, privateA, salt, NewServer(c, grp, username, password, salt, privateB).publicB).Proof?
    ensures var server, publicA := NewServer(c, grp, username, password, salt, privateB), PublicA(grp, privateA);
            var proof := ProofFor(c, grp, username, password, privateA, salt, server.publicB);
            var verdict := Verify(c, grp, server, publicA, m1);
            && (verdict.Accepted? <==> FromBytes(publicA) % grp.N != 0 && m1 == proof.m1)
            && (verdict.Accepted? ==> (ServerProofOk(c, publicA, proof.m1, proof.key, m2) <==> m2 == verdict.proof))
  {
    var server, publicA := NewServer(c, grp, username, password, salt, privateB), PublicA(grp, privateA);
    Agreement(c, grp, username, password, salt, privateA, privateB);
    ClientGetsThrough(c, grp, username, password, salt, privateA, privateB);
    AcceptsOneProof(c, grp, server, publicA, m1);
  }

  lemma FromBack(a: Bytes, x: Bytes, b: Bytes, y: Bytes)
    requires a + x == b + y && |x| == |y|
    ensures a == b && x == y
  {
    assert (a + x)[..|a|] == a && (b + y)[..|b|] == b;
    assert (a + x)[|a|..] == x && (b + y)[|b|..] == y;
  }

  /** No two different sets of values are hashed as one message. */
  lemma ProofMessageBinds(
    c: Crypto, grp: Group, username: Bytes, salt: Bytes, A: Bytes, B: Bytes, key: Bytes,
    username': Bytes, salt': Bytes, A': Bytes, B': Bytes, key': Bytes)
    requires HashLaw(c) && |A| == |A'| && |B| == |B'| && |key| == |key'|
    requires ProofMessage(c, grp, username, salt, A, B, key) == ProofMessage(c, grp, username', salt', A', B', key')
    ensures c.sha512(username) == c.sha512(username') && salt == salt' && A == A' && B == B' && key == key'
  {
    var h, h' := HashXor(c, grp) + c.sha512(username), HashXor(c, grp) + c.sha512(username');
    FromBack(h + salt + A + B, key, h' + salt' + A' + B', key');
    FromBack(h + salt + A, B, h' + salt' + A', B');
    FromBack(h + salt, A, h' + salt', A');
    assert (h + salt)[..|h|] == h && (h' + salt')[..|h'|] == h';
    assert (h + salt)[|h|..] == salt && (h' + salt')[|h'|..] == salt';
    FromBack(HashXor(c, grp), c.sha512(username), HashXor(c, grp), c.sha512(username'));
  }

  /** What the server computes for a client's public value. */
  function SecretFor(c: Crypto, grp: Group, server: Server, publicA: Bytes): nat
    requires grp.N > 0 && server.Server?
  {
    ServerSecret(grp, server.v, server.b, FromBytes(publicA), FromBytes(c.sha512(publicA + server.publicB)))
  }

  /** What a client with some password computes for a server's salt and public value. */
  function SecretOf(c: Crypto, grp: Group, username: Bytes, password: Bytes, privateA: Bytes, salt: Bytes, serverB: Bytes): nat
    requires grp.N > 0
  {
    var B := FromBytes(serverB);
    ClientSecret(c, grp, ComputeX(c, username, password, salt), FromBytes(privateA), B,
                 FromBytes(c.sha512(PublicA(grp, privateA) + PadBytes(B, MODULUS_BYTES))))
  }

  /** Whatever a client was told and whoever it believes to talk to: if its proof is accepted
      then, unless two different messages were met that share a hash, it used this user's
      name, salt and public value, and it reached the server's very secret. */
  lemma AcceptedReachedTheSecret(
    c: Crypto, grp: Group, server: Server, username: Bytes, password: Bytes, privateA: Bytes, salt: Bytes, serverB: Bytes)
    requires HashLaw(c) && Fits(grp) && server.Server? && |server.publicB| == MODULUS_BYTES
    requires ProofFor(c, grp, username, password, privateA, salt, serverB).Proof?
    requires var proof := ProofFor(c, grp, username, password, privateA, salt, serverB);
             Verify(c, grp, server, PublicA(grp, privateA), proof.m1).Accepted?
    ensures var publicA, paddedB := PublicA(grp, privateA), PadBytes(FromBytes(serverB), MODULUS_BYTES);
            var ours, theirs := SecretFor(c, grp, server, publicA), SecretOf(c, grp, username, password, privateA, salt, serverB);
            var key, key' := c.sha512(ToBytes(ours)), c.sha512(ToBytes(theirs));
            || Collide(c, ProofMessage(c, grp, server.username, server.salt, publicA, server.publicB, key),
                          ProofMessage(c, grp, username, salt, publicA, paddedB, key'))
            || Collide(c, ToBytes(ours), ToBytes(theirs))
            || (c.sha512(username) == c.sha512(server.username) && salt == server.salt && paddedB == server.publicB && ours == theirs)
  {
    var publicA, paddedB := PublicA(grp, privateA), PadBytes(FromBytes(serverB), MODULUS_BYTES);
    PadIsExact(ModExp(grp.g, FromBytes(privateA), grp.N));
    var ours, theirs := SecretFor(c, grp, server, publicA), SecretOf(c, grp, username, password, privateA, salt, serverB);
    var key, key' := c.sha512(ToBytes(ours)), c.sha512(ToBytes(theirs));
    AcceptsOneProof(c, grp, server, publicA, ProofFor(c, grp, username, password, privateA, salt, serverB).m1);
    if ProofMessage(c, grp, server.username, server.salt, publicA, server.publicB, key)
        == ProofMessage(c, grp, username, salt, publicA, paddedB, key') {
      ProofMessageBinds(c, grp, server.username, server.salt, publicA, server.publicB, key,
                        username, salt, publicA, paddedB, key');
      ToBytesRoundTrip(ours);
      ToBytesRoundTrip(theirs);
    }
  }

  lemma {:induction false} FromBytesInjective(a: Bytes, b: Bytes)
    requires |a| == |b| && FromBytes(a) == FromBytes(b)
    ensures a == b
    decreases |a|
  {
    if a != [] {
      FromBytesInjective(a[..|a| - 1], b[..|b| - 1]);
      assert a == a[..|a| - 1] + [a[|a| - 1]] && b == b[..|b| - 1] + [b[|b| - 1]];
    }
  }

  lemma LowBit(a: nat, b: nat, low: nat, rest: nat)
    requires low == (a % 2 + b % 2) % 2
    ensures (low + 2 * rest) % 2 == low && (low + 2 * rest) / 2 == rest
    ensures (low + b % 2) % 2 == a % 2
  {
  }

  lemma {:induction false} XorTwice(a: nat, b: nat, bits: nat)
    requires a < Pow(2, bits)
    ensures XorBits(XorBits(a, b, bits), b, bits) == a
  {
    if bits > 0 {
      var low, rest := (a % 2 + b % 2) % 2, XorBits(a / 2, b / 2, bits - 1);
      LowBit(a, b, low, rest);
      XorTwice(a / 2, b / 2, bits - 1);
      assert XorBits(low + 2 * rest, b, bits) == a % 2 + 2 * XorBits(rest, b / 2, bits - 1);
    }
  }

  /** The group's name in the proof is the one hash masked by the other, byte for byte. */
  lemma MaskComesOff(c: Crypto, grp: Group, i: nat)
    requires HashLaw(c) && i < HASH_SIZE
    ensures |HashXor(c, grp)| == HASH_SIZE
    ensures XorByte(HashXor(c, grp)[i], c.sha512(ToBytes(grp.g))[i]) == c.sha512(ToBytes(grp.N))[i]
  {
    assert Pow(2, 4) == 16 && Pow(2, 8) == 256;
    XorTwice(c.sha512(ToBytes(grp.N))[i] as nat, c.sha512(ToBytes(grp.g))[i] as nat, 8);
  }

  /** Two passwords give one exponent only through messages that share a hash. */
  lemma PasswordBinds(c: Crypto, username: Bytes, password: Bytes, password': Bytes, salt: Bytes)
    requires HashLaw(c) && ComputeX(c, username, password, salt) == ComputeX(c, username, password', salt)
    ensures var inner, inner' := username + [58] + password, username + [58] + password';
            || password == password'
            || Collide(c, inner, inner')
            || Collide(c, salt + c.sha512(inner), salt + c.sha512(inner'))
  {
    var inner, inner' := username + [58] + password, username + [58] + password';
    FromBytesInjective(c.sha512(salt + c.sha512(inner)), c.sha512(salt + c.sha512(inner')));
    if salt + c.sha512(inner) == salt + c.sha512(inner') {
      FromBack(salt, c.sha512(inner), salt, c.sha512(inner'));
      if inner == inner' {
        assert inner[|username| + 1..] == password && inner'[|username| + 1..] == password';
      }
    }
  }

  /** Two groups have one multiplier only through messages that share a hash. */
  lemma MultiplierBinds(c: Crypto, grp: Group, grp': Group)
    requires HashLaw(c) && Fits(grp) && Fits(grp') && Multiplier(c, grp) == Multiplier(c, grp')
    ensures || grp == grp'
            || Collide(c, ToBytes(grp.N) + PadBytes(grp.g, MODULUS_BYTES), ToBytes(grp'.N) + PadBytes(grp'.g, MODULUS_BYTES))
  {
    var m, m' := ToBytes(grp.N) + PadBytes(grp.g, MODULUS_BYTES), ToBytes(grp'.N) + PadBytes(grp'.g, MODULUS_BYTES);
    FromBytesInjective(c.sha512(m), c.sha512(m'));
    PadIsExact(grp.g);
    PadIsExact(grp'.g);
    if m == m' {
      FromBack(ToBytes(grp.N), PadBytes(grp.g, MODULUS_BYTES), ToBytes(grp'.N), PadBytes(grp'.g, MODULUS_BYTES));
      ToBytesRoundTrip(grp.N);
      ToBytesRoundTrip(grp'.N);
    }
  }

  // ------------------------------------------------------ the group in use

  /** The 3072-bit modulus of appendix A of RFC 5054, in rows of 64 digits. */
  const MODULUS_ROWS: seq<nat> := [
    0xFFFFFFFFFFFFFFFFC90FDAA22168C234C4C6628B80DC1CD129024E088A67CC74,
    0x020BBEA63B139B22514A08798E3404DDEF9519B3CD3A431B302B0A6DF25F1437,
    0x4FE1356D6D51C245E485B576625E7EC6F44C42E9A637ED6B0BFF5CB6F406B7ED,
    0xEE386BFB5A899FA5AE9F24117C4B1FE649286651ECE45B3DC2007CB8A163BF05,
    0x98DA48361C55D39A69163FA8FD24CF5F83655D23DCA3AD961C62F356208552BB,
    0x9ED529077096966D670C354E4ABC9804F1746C08CA18217C32905E462E36CE3B,
    0xE39E772C180E86039B2783A2EC07A28FB5C55DF06F4C52C9DE2BCBF695581718,
    0x3995497CEA956AE515D2261898FA051015728E5A8AAAC42DAD33170D04507A33,
    0xA85521ABDF1CBA64ECFB850458DBEF0A8AEA71575D060C7DB3970F85A6E1E4C7,
    0xABF5AE8CDB0933D71E8C94E04A25619DCEE3D2261AD2EE6BF12FFA06D98A0864,
    0xD87602733EC86A64521F2B18177B200CBBE117577A615D6C770988C0BAD946E2,
    0x08E24FA074E5AB3143DB5BFCE0FD108E4B82D120A93AD2CAFFFFFFFFFFFFFFFF
  ]

  const ROW: nat := 0x1_0000000000000000000000000000000000000000000000000000000000000000

  function FromRows(rows: seq<nat>): nat {
    if rows == [] then 0 else FromRows(rows[..|rows| - 1]) * ROW + rows[|rows| - 1]
  }

  const RFC5054_GROUP: Group := Group(FromRows(MODULUS_ROWS), 5)

  lemma {:induction false} RowsBounded(rows: seq<nat>)
    requires forall i :: 0 <= i < |rows| ==> rows[i] < ROW
    ensures FromRows(rows) < Pow(ROW, |rows|)
    ensures rows != [] && rows[0] > 5 ==> FromRows(rows) > 5
  {
    if rows != [] {
      var front := rows[..|rows| - 1];
      RowsBounded(front);
      assert FromRows(front) + 1 <= Pow(ROW, |front|);
      assert (FromRows(front) + 1) * ROW <= Pow(ROW, |front|) * ROW;
      if |rows| > 1 {
        assert front[0] == rows[0];
        assert FromRows(front) * ROW >= FromRows(front);
      }
    }
  }

  lemma RowIsBytes()
    ensures ROW == Pow(256, 32)
  {
    assert Pow(256, 8) == 0x1_0000_0000_0000_0000;
    PowMul(256, 8, 4);
    var r := Pow(256, 8);
    assert Pow(r, 4) == r * (r * (r * (r * 1)));
  }

  /** The first row alone is past the generator, and every row fits. */
  lemma ModulusRows()
    ensures |MODULUS_ROWS| == 12 && MODULUS_ROWS[0] > 5
    ensures forall i :: 0 <= i < |MODULUS_ROWS| ==> MODULUS_ROWS[i] < ROW
  {
  }

  /** Numbers of twelve rows of thirty-two bytes fit the fixed width. */
  lemma RowsFit(rows: seq<nat>)
    requires |rows| == 12 && rows[0] > 5 && forall i :: 0 <= i < |rows| ==> rows[i] < ROW
    ensures 5 < FromRows(rows) <= Pow(256, MODULUS_BYTES)
  {
    RowsBounded(rows);
    RowIsBytes();
    PowMul(256, 32, 12);
  }

  /** The group pair-setup runs over meets everything asked of one above. */
  lemma Rfc5054GroupFits()
    ensures Fits(RFC5054_GROUP)
  {
    ModulusRows();
    RowsFit(MODULUS_ROWS);
  }
}
