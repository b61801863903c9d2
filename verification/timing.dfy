/** Steering a local clock towards the phone's from request and response exchanges
    (section 8 of RFC 5905). */
module Timing {
  import opened Basics
  import opened Numbers
  import opened Ntp

  const REQUEST := 210 as byte
  const RESPONSE := 211 as byte
  const PACKET_SIZE := 32

  /** The offset to the steady clock, the unanswered request's stamp (zero for none),
      and whether a first answer has been taken. Clock readings are inputs. */
  datatype Clock = Clock(offset: int, pending: nat, synced: bool)

  const UNSYNCED := Clock(0, 0, false)

  /** The local estimate of the phone's time at steady-clock reading `raw`. */
  function Now(s: Clock, raw: int): nat {
    Stamp(raw + s.offset)
  }

  function Truncated(a: int, d: nat): int
    requires d > 0
  {
    if a >= 0 then a / d else -(-a / d)
  }

  /** An eighth of the offset in nanoseconds, fraction dropped. */
  function Correction(twiceOffset: int): int {
    Truncated(twiceOffset * SECOND, 0x10_0000_0000)
  }

  function Field(data: Bytes, at: nat): nat
    requires at + 8 <= |data|
  {
    FromBytes(data[at..at + 8])
  }

  predicate Answers(s: Clock, data: Bytes) {
    |data| >= PACKET_SIZE && data[1] == RESPONSE && s.pending != 0 && Field(data, 8) == s.pending
  }

  function AfterSend(s: Clock, raw: int): Clock {
    s.(pending := Now(s, raw))
  }

  /** `raw` is the clock on arrival, `raw'` its next reading. */
  function AfterPacket(s: Clock, data: Bytes, raw: int, raw': int): Clock {
    if !Answers(s, data) then s
    else if !s.synced then Clock(ToNanos(Field(data, 24)) - raw', 0, true)
    else Clock(s.offset + Correction(TwiceOffset(s.pending, Field(data, 16), Field(data, 24), Now(s, raw))), 0, true)
  }

  function Packet(kind: byte, originate: Bytes, receive: Bytes, transmit: Bytes): Bytes {
    [0x80, kind, 0x00, 0x07] + [0, 0, 0, 0] + originate + receive + transmit
  }

  // -------------------------------------------------------------------- object

  class TimingSync {
    var clockOffsetNs: int
    var pendingT1: nat
    var synced: bool

    ghost function Model(): Clock
      reads this
    {
      Clock(clockOffsetNs, pendingT1, synced)
    }

    constructor ()
      ensures Model() == UNSYNCED
    {
      clockOffsetNs, pendingT1, synced := 0, 0, false;
    }

    function SyncedNtp(raw: int): (ntp: nat)
      reads this
      ensures ntp == Now(Model(), raw)
    {
      var nanos := raw + clockOffsetNs;
      var n := if nanos < 0 then 0 else nanos;
      n / SECOND % UNIT * UNIT + n % SECOND * UNIT / SECOND
    }

    method SendRequest(raw: int) returns (packet: array<byte>)
      modifies this
      ensures Model() == AfterSend(old(Model()), raw)
      ensures fresh(packet)
      ensures packet[..] == Packet(REQUEST, Padded(0, 8), Padded(0, 8), Padded(Now(old(Model()), raw), 8))
    {
      packet := NewPacket(REQUEST);
      var t1 := SyncedNtp(raw);
      pendingT1 := t1;
      Write(packet, 24, t1);
    }

    method HandlePacket(data: Bytes, raw: int, raw': int) returns (reply: Option<Bytes>)
      modifies this
      ensures Model() == AfterPacket(old(Model()), data, raw, raw')
      ensures reply == if |data| >= PACKET_SIZE && data[1] == REQUEST
                       then Some(Packet(RESPONSE, data[24..32], Padded(Now(Model(), raw), 8), Padded(Now(Model(), raw'), 8)))
                       else None
    {
      if |data| < PACKET_SIZE {
        return None;
      }
      if data[1] == REQUEST {
        var response := Respond(data[24..32], SyncedNtp(raw), SyncedNtp(raw'));
        return Some(response[..]);
      }
      if data[1] != RESPONSE {
        return None;
      }
      var t4 := SyncedNtp(raw);
      var t1 := Read(data, 8);
      var t2 := Read(data, 16);
      var t3 := Read(data, 24);
      if pendingT1 == 0 || t1 != pendingT1 {
        return None;
      }
      pendingT1 := 0;
      if !synced {
        clockOffsetNs := ToNanos(t3) - raw';
        synced := true;
        return None;
      }
      clockOffsetNs := clockOffsetNs + Correction(TwiceOffset(t1, t2, t3, t4));
      return None;
    }
  }

  method NewPacket(kind: byte) returns (packet: array<byte>)
    ensures fresh(packet) && packet[..] == Packet(kind, Padded(0, 8), Padded(0, 8), Padded(0, 8))
  {
    packet := new byte[PACKET_SIZE](_ => 0);
    packet[0], packet[1], packet[3] := 0x80, kind, 0x07;
    ZeroField();
    assert packet[..] == Packet(kind, [0, 0, 0, 0, 0, 0, 0, 0], [0, 0, 0, 0, 0, 0, 0, 0], [0, 0, 0, 0, 0, 0, 0, 0]);
  }

  /** The phone's transmit time comes back as our originate, beside our own two stamps. */
  method Respond(originate: Bytes, t2: nat, t3: nat) returns (response: array<byte>)
    requires |originate| == 8
    ensures fresh(response)
    ensures response[..] == Packet(RESPONSE, originate, Padded(t2, 8), Padded(t3, 8))
  {
    response := NewPacket(RESPONSE);
    ghost var head, zeros := [0x80, RESPONSE, 0x00, 0x07] + [0, 0, 0, 0], Padded(0, 8);
    assert response[..8] == head && response[16..] == zeros + zeros;
    forall i | 0 <= i < 8 {
      response[8 + i] := originate[i];
    }
    assert response[..16] == head + originate && response[24..] == zeros;
    Write(response, 16, t2);
    assert response[..24] == head + originate + Padded(t2, 8);
    Write(response, 24, t3);
  }

  lemma ZeroField()
    ensures Padded(0, 8) == [0, 0, 0, 0, 0, 0, 0, 0]
  {
    assert Padded(0, 4) == [0, 0, 0, 0];
    assert Padded(0, 6) == [0, 0, 0, 0, 0, 0];
  }

  // ----------------------------------------------------------------- whole runs

  datatype Step = Send(raw: int) | Receive(data: Bytes, raw: int, raw': int)

  /** An answer taken: which request it used and the offset in force when it did. */
  datatype Use = Use(request: nat, offset: int, t1: nat)

  datatype Run = Run(clock: Clock, sentAt: seq<int>, used: seq<Use>)

  function AfterStep(r: Run, step: Step): Run {
    match step
    case Send(raw) => r.(clock := AfterSend(r.clock, raw), sentAt := r.sentAt + [raw])
    case Receive(data, raw, raw') =>
      var after := r.(clock := AfterPacket(r.clock, data, raw, raw'));
      if Answers(r.clock, data) && r.sentAt != []
      then after.(used := r.used + [Use(|r.sentAt| - 1, r.clock.offset, r.clock.pending)])
      else after
  }

  function AfterSteps(r: Run, steps: seq<Step>): Run
    decreases |steps|
  {
    if steps == [] then r else AfterSteps(AfterStep(r, steps[0]), steps[1..])
  }

  ghost predicate Stamped(sentAt: seq<int>, u: Use) {
    u.request < |sentAt| && u.t1 == Stamp(sentAt[u.request] + u.offset)
  }

  ghost predicate OwnRequests(used: seq<Use>) {
    forall i, j :: 0 <= i < j < |used| ==> used[i].request < used[j].request
  }

  /** Every answer used belongs to a request of its own, and that request was stamped
      with the very offset the answer corrects. */
  ghost predicate Paired(r: Run) {
    && (r.clock.pending != 0 ==>
          && r.sentAt != []
          && Stamped(r.sentAt, Use(|r.sentAt| - 1, r.clock.offset, r.clock.pending))
          && (r.used != [] ==> r.used[|r.used| - 1].request < |r.sentAt| - 1))
    && (forall i :: 0 <= i < |r.used| ==> Stamped(r.sentAt, r.used[i]))
    && OwnRequests(r.used)
  }

  lemma LaterRequest(used: seq<Use>, u: Use)
    requires OwnRequests(used) && (used != [] ==> used[|used| - 1].request < u.request)
    ensures OwnRequests(used + [u])
  {
    assert used != [] ==> forall i :: 0 <= i < |used| ==> used[i].request <= used[|used| - 1].request;
  }

  /** Taking an answer uses up the one outstanding request. */
  lemma UsePaired(r: Run, r': Run)
    requires Paired(r) && r.clock.pending != 0 && r'.clock.pending == 0 && r'.sentAt == r.sentAt
    requires r'.used == r.used + [Use(|r.sentAt| - 1, r.clock.offset, r.clock.pending)]
    ensures Paired(r')
  {
    LaterRequest(r.used, Use(|r.sentAt| - 1, r.clock.offset, r.clock.pending));
  }

  lemma StepPaired(r: Run, step: Step)
    requires Paired(r)
    ensures Paired(AfterStep(r, step))
  {
    match step
    case Send(raw) =>
      assert AfterStep(r, step).used == r.used;
    case Receive(data, raw, raw') =>
      if Answers(r.clock, data) {
        UsePaired(r, AfterStep(r, step));
      }
  }

  lemma {:induction false} EveryRunPaired(r: Run, steps: seq<Step>)
    requires Paired(r)
    ensures Paired(AfterSteps(r, steps))
    decreases |steps|
  {
    if steps != [] {
      StepPaired(r, steps[0]);
      EveryRunPaired(AfterStep(r, steps[0]), steps[1..]);
    }
  }

  // ---------------------------------------------------------------- convergence

  function Abs(x: real): real {
    if x < 0.0 then -x else x
  }

  /** A stamp as real nanoseconds. */
  function Nanos(ntp: nat): real {
    ntp as real * SECOND as real / UNIT as real
  }

  /** One exchange as it happened: our clock at both ends, the phone's two stamps. */
  datatype Exchange = Exchange(sentAt: int, t2: nat, t3: nat, backAt: int)

  /** How long the request and the response took, if the phone is `theta` ahead. */
  function Outward(x: Exchange, theta: real): real {
    Nanos(x.t2) - (x.sentAt as real + theta)
  }

  function Homeward(x: Exchange, theta: real): real {
    x.backAt as real + theta - Nanos(x.t3)
  }

  function Steered(offset: int, x: Exchange): int {
    offset + Correction(TwiceOffset(Stamp(x.sentAt + offset), x.t2, x.t3, Stamp(x.backAt + offset)))
  }

  /** Stamps are in range, the clocks within 2^31 seconds, and the two ways differ by
      at most `D` nanoseconds. */
  ghost predicate Sound(offset: int, x: Exchange, theta: real, D: real) {
    && 0 <= x.sentAt + offset < UNIT * SECOND && 0 <= x.backAt + offset < UNIT * SECOND
    && -HALF <= x.t2 - Stamp(x.sentAt + offset) < HALF && -HALF <= x.t3 - Stamp(x.backAt + offset) < HALF
    && x.t2 < WORD && x.t3 < WORD
    && -D <= Outward(x, theta) - Homeward(x, theta) <= D
  }

  lemma StampNanos(nanos: nat)
    requires nanos < UNIT * SECOND
    ensures Stamp(nanos) < WORD
    ensures Nanos(Stamp(nanos)) <= nanos as real < Nanos(Stamp(nanos)) + 0.24
  {
    StampRoundsDown(nanos);
    var t := Stamp(nanos);
    assert t * SECOND <= nanos * UNIT < t * SECOND + SECOND;
    assert (t * SECOND) as real == t as real * SECOND as real;
    assert (nanos * UNIT) as real == nanos as real * UNIT as real;
  }

  lemma CorrectionClose(twice: int)
    ensures var eighth := twice as real * SECOND as real / 0x10_0000_0000 as real;
            eighth - 1.0 < Correction(twice) as real < eighth + 1.0
  {
    var a, d := twice * SECOND, 0x10_0000_0000;
    var q := Correction(twice);
    assert -d < a - q * d < d;
    assert (q * d) as real == q as real * d as real;
    assert a as real == twice as real * SECOND as real;
  }

  /** The signed differences add up to minus twice the error, plus the asymmetry. */
  lemma OffsetMeansError(offset: int, x: Exchange, theta: real)
    requires 0 <= x.sentAt + offset < UNIT * SECOND && 0 <= x.backAt + offset < UNIT * SECOND
    ensures var ours := Nanos(Stamp(x.sentAt + offset)) + Nanos(Stamp(x.backAt + offset));
            var error, skew := offset as real - theta, Outward(x, theta) - Homeward(x, theta);
            0.0 <= Nanos(x.t2) + Nanos(x.t3) - ours - (skew - 2.0 * error) < 0.48
  {
    StampNanos(x.sentAt + offset);
    StampNanos(x.backAt + offset);
  }

  lemma NanosAddUp(t1: nat, t2: nat, t3: nat, t4: nat)
    ensures (t2 - t1 + (t3 - t4)) as real * SECOND as real / 0x10_0000_0000 as real
         == (Nanos(t2) + Nanos(t3) - (Nanos(t1) + Nanos(t4))) / 16.0
  {
    assert (t2 - t1 + (t3 - t4)) as real == t2 as real - t1 as real + (t3 as real - t4 as real);
  }

  lemma TwiceExact(offset: int, x: Exchange, theta: real, D: real)
    requires Sound(offset, x, theta, D)
    ensures var t1, t4 := Stamp(x.sentAt + offset), Stamp(x.backAt + offset);
            TwiceOffset(t1, x.t2, x.t3, t4) == x.t2 - t1 + (x.t3 - t4)
  {
    StampNanos(x.sentAt + offset);
    StampNanos(x.backAt + offset);
    SignedExact(x.t2, Stamp(x.sentAt + offset));
    SignedExact(x.t3, Stamp(x.backAt + offset));
  }

  /** Twice the offset, as sixteen eighths of the error it corrects. */
  lemma EighthClose(offset: int, x: Exchange, theta: real, D: real)
    requires Sound(offset, x, theta, D)
    ensures var twice := TwiceOffset(Stamp(x.sentAt + offset), x.t2, x.t3, Stamp(x.backAt + offset));
            var eighth := twice as real * SECOND as real / 0x10_0000_0000 as real;
            0.0 <= 16.0 * eighth - (Outward(x, theta) - Homeward(x, theta) - 2.0 * (offset as real - theta)) < 0.48
  {
    TwiceExact(offset, x, theta, D);
    OffsetMeansError(offset, x, theta);
    NanosAddUp(Stamp(x.sentAt + offset), x.t2, x.t3, Stamp(x.backAt + offset));
  }

  /** One accepted answer leaves at most seven eighths of the error, a sixteenth of the
      asymmetry, and a nanosecond of rounding. */
  lemma ErrorShrinks(offset: int, x: Exchange, theta: real, D: real)
    requires Sound(offset, x, theta, D)
    ensures Abs(Steered(offset, x) as real - theta) <= 0.875 * Abs(offset as real - theta) + D / 16.0 + 1.03
  {
    var twice := TwiceOffset(Stamp(x.sentAt + offset), x.t2, x.t3, Stamp(x.backAt + offset));
    var eighth := twice as real * SECOND as real / 0x10_0000_0000 as real;
    EighthClose(offset, x, theta, D);
    CorrectionClose(twice);
    SevenEighths(offset as real - theta, Outward(x, theta) - Homeward(x, theta), eighth, Correction(twice) as real, D);
    assert Steered(offset, x) as real == offset as real + Correction(twice) as real;
  }

  /** Taking an eighth of the measured error off leaves seven eighths, what the asymmetry
      adds to it, and the rounding. */
  lemma SevenEighths(e: real, skew: real, eighth: real, correction: real, D: real)
    requires -D <= skew <= D && 0.0 <= 16.0 * eighth - (skew - 2.0 * e) < 0.48
    requires eighth - 1.0 < correction < eighth + 1.0
    ensures Abs(e + correction) <= 0.875 * Abs(e) + D / 16.0 + 1.03
  {
  }

  /** The first answer's adopted clock is behind by the way home, and by less than a
      nanosecond more. */
  lemma AdoptedError(t3: nat, backAt: int, theta: real)
    ensures var e, back := (ToNanos(t3) - backAt) as real - theta, backAt as real + theta - Nanos(t3);
            -back - 1.0 < e <= -back
  {
    var s, f := t3 / UNIT, t3 % UNIT;
    var q := f * SECOND / UNIT;
    assert q * UNIT <= f * SECOND < q * UNIT + UNIT;
    assert t3 * SECOND == s * SECOND * UNIT + f * SECOND;
    assert (t3 * SECOND) as real == t3 as real * SECOND as real;
    assert (ToNanos(t3) * UNIT) as real == ToNanos(t3) as real * UNIT as real;
  }

  /** What is left of an error after `n` answers. */
  function Decay(n: nat): real {
    if n == 0 then 1.0 else 0.875 * Decay(n - 1)
  }

  /** The bound on the error after `n` answers: the decayed first error, and half the
      asymmetry with nine nanoseconds taking its place. */
  function Bound(n: nat, error: real, D: real): real {
    Decay(n) * error + (1.0 - Decay(n)) * (D / 2.0 + 8.24)
  }

  lemma {:induction false} DecayRange(n: nat)
    ensures 0.0 < Decay(n) <= 1.0
  {
    if n > 0 { DecayRange(n - 1); }
  }

  lemma Product(a: real, b: real)
    requires a >= 0.0 && b >= 0.0
    ensures a * b >= 0.0
  {
  }

  /** Taking one more answer into the bound. */
  lemma BoundNext(n: nat, error: real, D: real)
    ensures 0.875 * Bound(n, error, D) + D / 16.0 + 1.03 == Bound(n + 1, error, D)
  {
    var p, limit := Decay(n), D / 2.0 + 8.24;
    assert Decay(n + 1) == 0.875 * p;
    assert 0.875 * ((1.0 - p) * limit) == 0.875 * limit - (0.875 * p) * limit;
    assert (1.0 - 0.875 * p) * limit == limit - (0.875 * p) * limit;
    assert 0.875 * (p * error) == (0.875 * p) * error;
  }

  /** As answers come the bound closes on half the asymmetry, within any distance. */
  lemma BoundTends(n: nat, error: real, D: real)
    requires error >= 0.0 && D >= 0.0
    ensures Bound(n, error, D) <= D / 2.0 + 8.24 + Decay(n) * error
  {
    DecayRange(n);
    Product(Decay(n), D / 2.0 + 8.24);
  }

  // ----------------------------------------------------- the clock's own steps

  const START := Run(UNSYNCED, [], [])

  /** The exchange an answer completes. */
  function ExchangeOf(r: Run, data: Bytes, raw: int): Exchange
    requires r.sentAt != [] && |data| >= PACKET_SIZE
  {
    Exchange(r.sentAt[|r.sentAt| - 1], Field(data, 16), Field(data, 24), raw)
  }

  /** A taken answer steers by the exchange it completes, or adopts the phone's clock. */
  lemma AnswerSteers(r: Run, data: Bytes, raw: int, raw': int)
    requires Paired(r) && Answers(r.clock, data)
    ensures r.sentAt != []
    ensures AfterPacket(r.clock, data, raw, raw').offset ==
      if r.clock.synced then Steered(r.clock.offset, ExchangeOf(r, data, raw)) else ToNanos(Field(data, 24)) - raw'
  {
  }

  /** What is assumed of the phone and the path at a step: the first answer takes at most
      `home` nanoseconds to arrive, every later one belongs to a sound exchange. */
  ghost predicate Faithful(r: Run, step: Step, theta: real, D: real, home: real) {
    step.Receive? && Answers(r.clock, step.data) && r.sentAt != [] ==>
      if r.clock.synced then Sound(r.clock.offset, ExchangeOf(r, step.data, step.raw), theta, D)
      else 0.0 <= step.raw' as real + theta - Nanos(Field(step.data, 24)) <= home
  }

  ghost predicate AllFaithful(r: Run, steps: seq<Step>, theta: real, D: real, home: real)
    decreases |steps|
  {
    steps == [] || (Faithful(r, steps[0], theta, D, home) && AllFaithful(AfterStep(r, steps[0]), steps[1..], theta, D, home))
  }

  /** Paired, and the error within the bound for the answers taken so far. */
  ghost predicate Settling(r: Run, theta: real, D: real, home: real) {
    && Paired(r)
    && (r.clock.synced <==> r.used != [])
    && (r.used != [] ==> Abs(r.clock.offset as real - theta) <= Bound(|r.used| - 1, home + 1.0, D))
  }

  lemma StartSettles(theta: real, D: real, home: real)
    ensures Settling(START, theta, D, home)
  {
  }

  lemma AnswerSettles(r: Run, data: Bytes, raw: int, raw': int, theta: real, D: real, home: real)
    requires Settling(r, theta, D, home) && Answers(r.clock, data)
    requires Faithful(r, Receive(data, raw, raw'), theta, D, home)
    ensures var offset := AfterPacket(r.clock, data, raw, raw').offset;
            Abs(offset as real - theta) <= Bound(|r.used|, home + 1.0, D)
  {
    AnswerSteers(r, data, raw, raw');
    if r.clock.synced {
      ErrorShrinks(r.clock.offset, ExchangeOf(r, data, raw), theta, D);
      BoundNext(|r.used| - 1, home + 1.0, D);
    } else {
      AdoptedError(Field(data, 24), raw', theta);
    }
  }

  lemma StepSettles(r: Run, step: Step, theta: real, D: real, home: real)
    requires Settling(r, theta, D, home) && Faithful(r, step, theta, D, home)
    ensures Settling(AfterStep(r, step), theta, D, home)
  {
    StepPaired(r, step);
    if step.Receive? && Answers(r.clock, step.data) {
      AnswerSettles(r, step.data, step.raw, step.raw', theta, D, home);
    }
  }

  lemma {:induction false} RunSettles(r: Run, steps: seq<Step>, theta: real, D: real, home: real)
    requires Settling(r, theta, D, home) && AllFaithful(r, steps, theta, D, home)
    ensures Settling(AfterSteps(r, steps), theta, D, home)
    decreases |steps|
  {
    if steps != [] {
      StepSettles(r, steps[0], theta, D, home);
      RunSettles(AfterStep(r, steps[0]), steps[1..], theta, D, home);
    }
  }

  /** From a fresh clock, whatever requests and packets come in whatever order: once the
      first answer has been taken, and after `n` more, the error is at most the decayed
      way home of that first one, and half the asymmetry with nine nanoseconds in its
      place. */
  lemma ClockSettles(steps: seq<Step>, theta: real, D: real, home: real)
    requires AllFaithful(START, steps, theta, D, home)
    ensures Settling(AfterSteps(START, steps), theta, D, home)
  {
    StartSettles(theta, D, home);
    RunSettles(START, steps, theta, D, home);
  }

  // ------------------------------------------------------- honest answers are taken

  /** What a packet carries, where. */
  lemma PacketFields(kind: byte, originate: Bytes, receive: Bytes, transmit: Bytes)
    requires |originate| == |receive| == |transmit| == 8
    ensures var data := Packet(kind, originate, receive, transmit);
            && |data| == PACKET_SIZE && data[1] == kind
            && data[8..16] == originate && data[16..24] == receive && data[24..32] == transmit
  {
    var data := Packet(kind, originate, receive, transmit);
    assert data[8..16] == originate && data[16..24] == receive && data[24..32] == transmit;
  }

  /** The request a send puts on the wire. */
  function RequestOf(s: Clock, raw: int): Bytes {
    Packet(REQUEST, Padded(0, 8), Padded(0, 8), Padded(Now(s, raw), 8))
  }

  /** What an honest phone answers: the request's transmit time comes back first, then the
      phone's own two stamps. */
  function AnswerTo(request: Bytes, t2: nat, t3: nat): Bytes
    requires |request| == PACKET_SIZE
  {
    Packet(RESPONSE, request[24..32], Padded(t2, 8), Padded(t3, 8))
  }

  lemma NowFits(s: Clock, raw: int)
    ensures Now(s, raw) < Pow(256, 8)
  {
    var n := Max(raw + s.offset, 0);
    WordIsBytes();
    assert n / SECOND % UNIT <= UNIT - 1 && n % SECOND * UNIT / SECOND < UNIT;
  }

  lemma WordIsBytes()
    ensures Pow(256, 8) == WORD
  {
    PowAdd(256, 4, 4);
    assert Pow(256, 4) == UNIT;
  }

  /** An honest answer to the request just sent is taken, with the phone's two stamps read
      from it as they were sent; a request stamped zero is none. */
  lemma HonestAnswerTaken(s: Clock, raw: int, t2: nat, t3: nat)
    requires t2 < WORD && t3 < WORD
    ensures |RequestOf(s, raw)| == PACKET_SIZE
    ensures var data := AnswerTo(RequestOf(s, raw), t2, t3);
            && (Answers(AfterSend(s, raw), data) <==> Now(s, raw) != 0)
            && Field(data, 16) == t2 && Field(data, 24) == t3
  {
    PacketFields(REQUEST, Padded(0, 8), Padded(0, 8), Padded(Now(s, raw), 8));
    PacketFields(RESPONSE, Padded(Now(s, raw), 8), Padded(t2, 8), Padded(t3, 8));
    NowFits(s, raw);
    WordIsBytes();
    PaddedRoundTrip(Now(s, raw), 8);
    PaddedRoundTrip(t2, 8);
    PaddedRoundTrip(t3, 8);
  }

  /** An answer to any other request is not taken. */
  lemma OtherAnswerIgnored(s: Clock, originate: nat, t2: nat, t3: nat, raw: int, raw': int)
    requires originate < WORD && originate != s.pending
    ensures AfterPacket(s, Packet(RESPONSE, Padded(originate, 8), Padded(t2, 8), Padded(t3, 8)), raw, raw') == s
  {
    PacketFields(RESPONSE, Padded(originate, 8), Padded(t2, 8), Padded(t3, 8));
    WordIsBytes();
    PaddedRoundTrip(originate, 8);
  }

  /** One exchange: when the request left, the phone's stamps, when the answer came. */
  datatype Round = Round(sentAt: int, t2: nat, t3: nat, backAt: int, readAt: int)

  function StepsOf(s: Clock, x: Round): seq<Step> {
    HonestAnswerTaken(s, x.sentAt, 0, 0);
    [Send(x.sentAt), Receive(AnswerTo(RequestOf(s, x.sentAt), x.t2, x.t3), x.backAt, x.readAt)]
  }

  /** The run that some exchanges with an honest phone make. */
  function Honest(r: Run, rounds: seq<Round>): (steps: seq<Step>)
    decreases |rounds|
  {
    if rounds == [] then []
    else
      var steps := StepsOf(r.clock, rounds[0]);
      steps + Honest(AfterSteps(r, steps), rounds[1..])
  }

  /** No request is stamped zero, and the phone's stamps are stamps. */
  ghost predicate Stampable(r: Run, rounds: seq<Round>)
    decreases |rounds|
  {
    rounds == [] ||
    (&& Now(r.clock, rounds[0].sentAt) != 0 && rounds[0].t2 < WORD && rounds[0].t3 < WORD
     && Stampable(AfterSteps(r, StepsOf(r.clock, rounds[0])), rounds[1..]))
  }

  lemma TwoSteps(r: Run, a: Step, b: Step)
    ensures AfterSteps(r, [a, b]) == AfterStep(AfterStep(r, a), b)
  {
    var r' := AfterStep(r, a);
    assert [a, b][1..] == [b] && [b][1..] == [];
    assert AfterSteps(r, [a, b]) == AfterSteps(r', [b]);
    assert AfterSteps(r', [b]) == AfterSteps(AfterStep(r', b), []);
  }

  lemma {:induction false} StepsInTwo(r: Run, a: seq<Step>, b: seq<Step>)
    ensures AfterSteps(r, a + b) == AfterSteps(AfterSteps(r, a), b)
    decreases |a|
  {
    if a == [] {
      assert a + b == b;
    } else {
      assert (a + b)[0] == a[0] && (a + b)[1..] == a[1..] + b;
      StepsInTwo(AfterStep(r, a[0]), a[1..], b);
    }
  }

  lemma OneRound(r: Run, x: Round)
    requires Now(r.clock, x.sentAt) != 0 && x.t2 < WORD && x.t3 < WORD
    ensures var r' := AfterSteps(r, StepsOf(r.clock, x)); |r'.used| == |r.used| + 1 && r'.clock.synced
  {
    var sent := AfterStep(r, Send(x.sentAt));
    HonestAnswerTaken(r.clock, x.sentAt, x.t2, x.t3);
    TwoSteps(r, StepsOf(r.clock, x)[0], StepsOf(r.clock, x)[1]);
    assert Answers(sent.clock, AnswerTo(RequestOf(r.clock, x.sentAt), x.t2, x.t3));
  }

  /** Every exchange with an honest phone counts: each of its answers is taken. */
  lemma {:induction false} EveryRoundCounts(r: Run, rounds: seq<Round>)
    requires Stampable(r, rounds)
    ensures |AfterSteps(r, Honest(r, rounds)).used| == |r.used| + |rounds|
    decreases |rounds|
  {
    if rounds != [] {
      var steps := StepsOf(r.clock, rounds[0]);
      var r' := AfterSteps(r, steps);
      OneRound(r, rounds[0]);
      EveryRoundCounts(r', rounds[1..]);
      StepsInTwo(r, steps, Honest(r', rounds[1..]));
    }
  }

  lemma EveryRoundOfThese(r: Run, rounds: seq<Round>, steps: seq<Step>)
    requires Stampable(r, rounds) && steps == Honest(r, rounds)
    ensures |AfterSteps(r, steps).used| == |r.used| + |rounds|
  {
    EveryRoundCounts(r, rounds);
  }

  /** So with an honest phone the bound is reached: after a first exchange and `n` more, each
      sound, the error is at most the decayed way home of the first one, and half the
      asymmetry with nine nanoseconds in its place. */
  lemma HonestPhoneSettles(rounds: seq<Round>, steps: seq<Step>, n: nat, theta: real, D: real, home: real)
    requires |rounds| == n + 1 && Stampable(START, rounds) && steps == Honest(START, rounds)
    requires AllFaithful(START, steps, theta, D, home)
    ensures SettledBy(AfterSteps(START, steps), n, theta, D, home)
  {
    EveryRoundOfThese(START, rounds, steps);
    ClockSettles(steps, theta, D, home);
    Settled(AfterSteps(START, steps), n, theta, D, home);
  }

  /** A first answer and `n` more are in, and the error is within the bound for them. */
  ghost predicate SettledBy(r: Run, n: nat, theta: real, D: real, home: real) {
    |r.used| == n + 1 && r.clock.synced && Abs(r.clock.offset as real - theta) <= Bound(n, home + 1.0, D)
  }

  lemma Settled(r: Run, n: nat, theta: real, D: real, home: real)
    requires Settling(r, theta, D, home) && |r.used| == n + 1
    ensures SettledBy(r, n, theta, D, home)
  {
  }
}
