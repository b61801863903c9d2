/** NTP's 64-bit fixed-point time (section 6 of RFC 5905): seconds in the upper half,
    a binary fraction of a second in the lower. */
module Ntp {
  import opened Basics
  import opened Modular
  import opened Numbers

  /** Nanoseconds in a second, and fraction units in one. */
  const SECOND := 1_000_000_000
  const UNIT := 0x1_0000_0000
  const WORD := 0x1_0000_0000_0000_0000
  const HALF := 0x8000_0000_0000_0000

  function ToNanos(ntp: nat): nat {
    ntp / UNIT * SECOND + ntp % UNIT * SECOND / UNIT
  }

  /** A time in nanoseconds as a timestamp; anything before the epoch reads as the epoch. */
  function Stamp(nanos: int): nat {
    var n := Max(nanos, 0);
    n / SECOND % UNIT * UNIT + n % SECOND * UNIT / SECOND
  }

  /** No intermediate value leaves its 64-bit type: signed on the way to nanoseconds,
      unsigned on the way back. */
  lemma NothingOverflows(ntp: nat, nanos: nat)
    requires ntp < WORD && nanos < HALF
    ensures ntp / UNIT * SECOND < HALF && ntp % UNIT * SECOND < HALF && ToNanos(ntp) < HALF
    ensures nanos % SECOND * UNIT < WORD && Stamp(nanos) < WORD
  {
    assert nanos % SECOND * UNIT / SECOND < UNIT;
    assert nanos / SECOND % UNIT <= UNIT - 1;
  }

  /** Below 2^32 seconds a stamp is the time in fraction units, rounded down. */
  lemma StampRoundsDown(nanos: nat)
    requires nanos < UNIT * SECOND
    ensures Stamp(nanos) == nanos * UNIT / SECOND
  {
    var s, r := nanos / SECOND, nanos % SECOND;
    assert nanos * UNIT == s * UNIT * SECOND + r * UNIT;
  }

  /** The largest power of five that divides a second's nanoseconds. */
  const GRAIN := 1_953_125

  /** 2^23 is invertible modulo the grain, so multiplying by it hides no multiple. */
  lemma GrainDivides(r: nat)
    ensures r * UNIT % SECOND == 0 <==> r % GRAIN == 0
  {
    var k, q := r / GRAIN, r * UNIT / SECOND;
    if r % GRAIN == 0 {
      ModUnique(r * UNIT, SECOND, k * 0x80_0000, 0);
    }
    if r * UNIT % SECOND == 0 {
      assert r * 0x80_0000 == q * GRAIN;
      ModUnique(r, GRAIN, 1_241_897 * q - 5_333_907 * r, 0);
    }
  }

  lemma FractionRoundTrip(r: nat)
    requires r < SECOND
    ensures r * UNIT / SECOND < UNIT
    ensures r * UNIT / SECOND * SECOND / UNIT == if r % GRAIN == 0 then r else r - 1
  {
    var f, e := r * UNIT / SECOND, r * UNIT % SECOND;
    GrainDivides(r);
    if e == 0 {
      ModUnique(f * SECOND, UNIT, r, 0);
    } else {
      ModUnique(f * SECOND, UNIT, r - 1, UNIT - e);
    }
  }

  /** Nanoseconds to a timestamp and back never gains, and loses one nanosecond exactly
      when the time is no multiple of 1 953 125 ns. */
  lemma RoundTrip(nanos: nat)
    requires nanos < UNIT * SECOND
    ensures ToNanos(Stamp(nanos)) == if nanos % GRAIN == 0 then nanos else nanos - 1
  {
    var s, r := nanos / SECOND, nanos % SECOND;
    FractionRoundTrip(r);
    Parts(s, r * UNIT / SECOND);
    GrainOf(s, r, r / GRAIN, r % GRAIN);
    assert Stamp(nanos) == s * UNIT + r * UNIT / SECOND;
  }

  /** A timestamp from its two halves is read half by half. */
  lemma Parts(s: nat, f: nat)
    requires f < UNIT
    ensures ToNanos(s * UNIT + f) == s * SECOND + f * SECOND / UNIT
  {
    ModUnique(s * UNIT + f, UNIT, s, f);
  }

  /** Whole seconds are multiples of the grain. */
  lemma GrainOf(s: nat, r: nat, k: nat, rest: nat)
    requires r == k * GRAIN + rest && rest < GRAIN
    ensures (s * SECOND + r) % GRAIN == rest
  {
    ModUnique(s * SECOND + r, GRAIN, s * 512 + k, rest);
  }

  // ------------------------------------------------------------- on the wire

  /** A shift right by whole bytes. */
  function Shifted(value: nat, count: nat): nat {
    if count == 0 then value else Shifted(value, count - 1) / 256
  }

  method Write(buffer: array<byte>, at: nat, value: nat)
    requires at + 8 <= buffer.Length
    modifies buffer
    ensures buffer[..] == old(buffer[..at]) + Padded(value, 8) + old(buffer[at + 8..])
  {
    ghost var was := buffer[..];
    for i := 0 to 8
      invariant buffer[..at] == was[..at] && buffer[at + 8..] == was[at + 8..]
      invariant buffer[at..at + i] == Padded(Shifted(value, 8 - i), i)
    {
      buffer[at + i] := (Shifted(value, 7 - i) % 256) as byte;
      assert buffer[at..at + i + 1] == Padded(Shifted(value, 8 - i), i) + [buffer[at + i]];
    }
  }

  method Read(data: Bytes, at: nat) returns (value: nat)
    requires at + 8 <= |data|
    ensures value == FromBytes(data[at..at + 8])
  {
    value := 0;
    for i := 0 to 8
      invariant value == FromBytes(data[at..at + i])
    {
      assert data[at..at + i + 1][..i] == data[at..at + i];
      value := value * 256 + data[at + i] as nat;
    }
  }

  // ---------------------------------------------------------------- the offset

  /** A 64-bit pattern read as signed. */
  function Signed(x: nat): int {
    if x < HALF then x else x - WORD
  }

  /** Twice the offset of section 8 of RFC 5905, in fraction units, with the
      differences taken modulo 2^64 and read as signed. */
  function TwiceOffset(t1: nat, t2: nat, t3: nat, t4: nat): int {
    Signed((t2 - t1) % WORD) + Signed((t3 - t4) % WORD)
  }

  /** The signed reading is right exactly within 2^31 seconds either way. */
  lemma SignedExact(a: nat, b: nat)
    requires a < WORD && b < WORD
    ensures Signed((a - b) % WORD) == a - b <==> -HALF <= a - b < HALF
  {
    if a >= b {
      ModUnique(a - b, WORD, 0, a - b);
    } else {
      ModUnique(a - b, WORD, -1, a - b + WORD);
    }
  }
}
