/** The cryptographic primitives the protocols are built on, as functions with
    their usual laws. Nothing else about them is used anywhere. */
module CryptoLaws {
  import opened Basics
  import opened Numbers

  datatype Crypto = Crypto(
    sha512: Bytes -> Bytes,
    hkdf: (Bytes, string, string, nat) -> Bytes,
    seal: (Bytes, Bytes, Bytes, Bytes) -> Bytes,
    open: (Bytes, Bytes, Bytes, Bytes) -> Option<Bytes>,
    x25519Public: Bytes -> Bytes,
    x25519Shared: (Bytes, Bytes) -> Bytes,
    ed25519Public: Bytes -> Bytes,
    ed25519Sign: (Bytes, Bytes) -> Bytes,
    ed25519Verify: (Bytes, Bytes, Bytes) -> bool)

  const KEY_SIZE: nat := 32
  const NONCE_SIZE: nat := 12
  const TAG_SIZE: nat := 16
  const HASH_SIZE: nat := 64

  ghost predicate HashLaw(c: Crypto) {
    && (forall m :: |c.sha512(m)| == HASH_SIZE)
    && (forall ikm, salt, info, length :: |c.hkdf(ikm, salt, info, length)| == length)
  }

  /** Authenticated encryption: opening undoes sealing under the same key, nonce and
      associated data, and a tag is all that sealing adds. */
  ghost predicate AeadLaw(c: Crypto) {
    forall key: Bytes, nonce: Bytes, plain, aad :: |key| == KEY_SIZE && |nonce| == NONCE_SIZE ==>
      && |c.seal(key, nonce, plain, aad)| == |plain| + TAG_SIZE
      && c.open(key, nonce, c.seal(key, nonce, plain, aad), aad) == Some(plain)
  }

  /** Both ends of an honest exchange reach the same secret. */
  ghost predicate ExchangeLaw(c: Crypto) {
    && (forall a :: |c.x25519Public(a)| == KEY_SIZE)
    && (forall a, b :: c.x25519Shared(a, c.x25519Public(b)) == c.x25519Shared(b, c.x25519Public(a)))
    && (forall a, b :: c.x25519Shared(a, c.x25519Public(b)) != [])
  }

  ghost predicate SignatureLaw(c: Crypto) {
    && (forall key :: |c.ed25519Public(key)| == KEY_SIZE)
    && (forall key, data :: c.ed25519Verify(c.ed25519Public(key), data, c.ed25519Sign(key, data)))
  }

  ghost predicate Lawful(c: Crypto) {
    HashLaw(c) && AeadLaw(c) && ExchangeLaw(c) && SignatureLaw(c)
  }

  function Zeros(n: nat): Bytes {
    seq(n, _ => 0)
  }

  /** The simplest primitives that obey the laws: no secrecy, but a tag that is checked. */
  function Transparent(): Crypto {
    Crypto(
      _ => Zeros(HASH_SIZE),
      (_: Bytes, _: string, _: string, length: nat) => Zeros(length),
      (_, _, plain, _) => plain + Zeros(TAG_SIZE),
      (_, _, sealed, _) => Untagged(sealed),
      _ => Zeros(KEY_SIZE),
      (_, _) => Zeros(KEY_SIZE),
      _ => Zeros(KEY_SIZE),
      (_, _) => [],
      (_, _, _) => true)
  }

  function Untagged(sealed: Bytes): Option<Bytes> {
    if |sealed| < TAG_SIZE || sealed[|sealed| - TAG_SIZE..] != Zeros(TAG_SIZE) then None
    else Some(sealed[..|sealed| - TAG_SIZE])
  }

  lemma UntaggedSealed(plain: Bytes)
    ensures Untagged(plain + Zeros(TAG_SIZE)) == Some(plain)
  {
    var sealed := plain + Zeros(TAG_SIZE);
    assert sealed[|plain|..] == Zeros(TAG_SIZE) && sealed[..|plain|] == plain;
  }

  lemma TransparentSealing()
    ensures AeadLaw(Transparent())
  {
    forall plain: Bytes
      ensures |plain + Zeros(TAG_SIZE)| == |plain| + TAG_SIZE && Untagged(plain + Zeros(TAG_SIZE)) == Some(plain)
    {
      UntaggedSealed(plain);
    }
  }

  /** The laws contradict neither themselves nor each other. */
  lemma LawsHaveAModel()
    ensures Lawful(Transparent())
  {
    TransparentSealing();
  }

  const WRONG_TAG: Bytes := [1, 1, 1, 1, 1, 1, 1, 1, 1, 1, 1, 1, 1, 1, 1, 1]

  /** And they leave room for a tag that does not check. */
  lemma WrongTagRefused(key: Bytes, nonce: Bytes, aad: Bytes)
    ensures Transparent().open(key, nonce, WRONG_TAG, aad) == None
  {
    assert WRONG_TAG[|WRONG_TAG| - TAG_SIZE..][0] == 1;
  }

  /** Four zero bytes, then the counter, little-endian. */
  function Nonce64(counter: nat): (r: Bytes)
    ensures |r| == NONCE_SIZE
  {
    [0, 0, 0, 0] + LittleEndian(counter, 8)
  }

  function LittleEndian(n: nat, width: nat): (r: Bytes)
    ensures |r| == width
  {
    if width == 0 then [] else [(n % 256) as byte] + LittleEndian(n / 256, width - 1)
  }

  function FromLittleEndian(b: Bytes): nat {
    if b == [] then 0 else b[0] as nat + 256 * FromLittleEndian(b[1..])
  }

  lemma {:induction false} LittleEndianReads(n: nat, width: nat)
    requires n < Pow(256, width)
    ensures FromLittleEndian(LittleEndian(n, width)) == n
    decreases width
  {
    if width > 0 {
      LittleEndianReads(n / 256, width - 1);
      assert LittleEndian(n, width)[1..] == LittleEndian(n / 256, width - 1);
    }
  }

  const COUNTERS: nat := 0x1_0000_0000_0000_0000

  /** The counter can be read off its nonce, so no two counters share one. */
  lemma NonceReads(counter: nat)
    requires counter < COUNTERS
    ensures Nonce64(counter)[..4] == [0, 0, 0, 0] && FromLittleEndian(Nonce64(counter)[4..]) == counter
  {
    var r := Pow(256, 4);
    assert r == 0x1_0000_0000;
    PowAdd(256, 4, 4);
    LittleEndianReads(counter, 8);
    assert Nonce64(counter)[4..] == LittleEndian(counter, 8);
  }

  lemma NoncesDiffer(i: nat, j: nat)
    requires i < COUNTERS && j < COUNTERS && Nonce64(i) == Nonce64(j)
    ensures i == j
  {
    NonceReads(i);
    NonceReads(j);
  }

  function Ascii(text: string): (r: Bytes)
    ensures |r| == |text|
  {
    seq(|text|, i requires 0 <= i < |text| => (text[i] as int % 256) as byte)
  }

  /** The first eight characters of a label, after four zero bytes. */
  function NonceLabel(text: string): (r: Bytes)
    ensures |r| == NONCE_SIZE
  {
    var take := Min(|text|, 8);
    [0, 0, 0, 0] + Ascii(text[..take]) + seq(8 - take, _ => 0)
  }

  /** Labels of eight characters stand in their nonces letter by letter, so no two share one. */
  lemma LabelsApart(a: string, b: string)
    requires |a| == |b| == 8 && forall i :: 0 <= i < 8 ==> a[i] as int < 256 && b[i] as int < 256
    requires NonceLabel(a) == NonceLabel(b)
    ensures a == b
  {
    forall i | 0 <= i < 8
      ensures a[i] == b[i]
    {
      assert a[..8] == a && b[..8] == b;
      assert NonceLabel(a)[4 + i] == (a[i] as int % 256) as byte;
      assert NonceLabel(b)[4 + i] == (b[i] as int % 256) as byte;
    }
  }
}
