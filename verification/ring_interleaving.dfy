/** The staging ring with its producer and its consumer running at once, one shared
    memory access a step (sequentially consistent). It refines a bounded FIFO. */
module RingInterleaving {
  import opened Basics
  import opened Modular
  import opened SampleRing

  /** Where the producer is inside `push`. */
  datatype Producer =
    | Resting
    | Writing(sample: Sample)    // saw a free slot, has not written it
    | Storing(sample: Sample)    // wrote the slot, has not published the head
    | Refusing(sample: Sample)   // saw the ring full, has not counted the drop

  /** Where the consumer is inside `drain`: the head it loaded and its own cursor. */
  datatype Consumer =
    | Away
    | Reading(seen: nat, cursor: nat)

  /** `accepted` and `drained` record what went in and what came out, in order;
      `released` and `target` say how far the published tail and the loaded head
      reach in those records. */
  datatype Ring = Ring(
    slots: seq<Sample>,
    head: nat,
    tail: nat,
    dropped: nat,
    producer: Producer,
    consumer: Consumer,
    offered: nat,
    accepted: seq<Sample>,
    drained: seq<Sample>,
    released: nat,
    target: nat)

  datatype Action = BeginPush(sample: Sample) | PushStep | BeginDrain | DrainStep

  function NewRing(capacity: nat): Ring {
    var n := Max(capacity, 1) + 1;
    Ring(seq(n, i => Sample(0.0, 0.0)), 0, 0, 0, Resting, Away, 0, [], [], 0, 0)
  }

  function Next(i: nat, n: nat): nat
    requires 0 < n
  {
    (i + 1) % n
  }

  function Step(r: Ring, a: Action): Ring
    requires 0 < |r.slots|
  {
    var n := |r.slots|;
    match a
    case BeginPush(sample) =>
      if !r.producer.Resting? then r
      else if Next(r.head, n) == r.tail then r.(producer := Refusing(sample))
      else r.(producer := Writing(sample))
    case PushStep =>
      (match r.producer
       case Resting => r
       case Writing(sample) =>
         if r.head < n then r.(slots := r.slots[r.head := sample], producer := Storing(sample)) else r
       case Storing(sample) =>
         r.(head := Next(r.head, n), producer := Resting, offered := r.offered + 1, accepted := r.accepted + [sample])
       case Refusing(sample) =>
         r.(dropped := r.dropped + 1, producer := Resting, offered := r.offered + 1))
    case BeginDrain =>
      if r.consumer.Away? then r.(consumer := Reading(r.head, r.tail), target := |r.accepted|) else r
    case DrainStep =>
      (match r.consumer
       case Away => r
       case Reading(seen, cursor) =>
         if cursor == seen then r.(tail := cursor, consumer := Away, released := |r.drained|)
         else if cursor < n then r.(drained := r.drained + [r.slots[cursor]], consumer := Reading(seen, Next(cursor, n)))
         else r)
  }

  function Run(r: Ring, actions: seq<Action>): Ring
    requires 0 < |r.slots|
    decreases |actions|
  {
    if actions == [] then r
    else
      var r' := Step(r, actions[0]);
      assert |r'.slots| == |r.slots|;
      Run(r', actions[1..])
  }

  // ------------------------------------------------------------- the invariant

  /** The slot holding the `k`-th accepted sample. */
  function SlotOf(k: nat, n: nat): (i: nat)
    requires 0 < n
    ensures i < n
  {
    k % n
  }

  ghost predicate Inv(r: Ring) {
    var n := |r.slots|;
    && 2 <= n
    && r.head == SlotOf(|r.accepted|, n) && r.tail == SlotOf(r.released, n)
    && r.released <= |r.drained| <= r.target <= |r.accepted|
    && |r.accepted| - r.released <= n - 1
    && r.drained == r.accepted[..|r.drained|]
    && r.offered == |r.accepted| + r.dropped
    && LiveSlotsIntact(r)
    && (r.producer.Writing? || r.producer.Storing? ==> |r.accepted| - r.released <= n - 2)
    && (r.producer.Storing? ==> r.slots[r.head] == r.producer.sample)
    && (r.consumer.Away? ==> r.released == |r.drained|)
    && (r.consumer.Reading? ==>
          r.consumer.seen == SlotOf(r.target, n) && r.consumer.cursor == SlotOf(|r.drained|, n))
  }

  /** No slot between tail and head has been overwritten. */
  ghost predicate LiveSlotsIntact(r: Ring)
    requires 0 < |r.slots| && r.released <= |r.accepted|
  {
    forall k {:trigger SlotOf(k, |r.slots|)} :: r.released <= k < |r.accepted| ==>
      r.slots[SlotOf(k, |r.slots|)] == r.accepted[k]
  }

  lemma InitInv(capacity: nat)
    ensures Inv(NewRing(capacity))
  {
  }

  lemma SlotNext(k: nat, n: nat)
    requires 0 < n
    ensures Next(SlotOf(k, n), n) == SlotOf(k + 1, n)
  {
    ModSucc(k, n);
  }

  lemma SameSlot(j: nat, k: nat, n: nat)
    requires 0 < n && j <= k <= j + n
    ensures SlotOf(j, n) == SlotOf(k, n) <==> k == j || k == j + n
  {
    if j < k < j + n {
      ModDistinct(j, k, n);
    }
    ModUnique(j + n, n, j / n + 1, j % n);
  }

  /** The space test sees `full` exactly when the FIFO holds as much as it may. */
  lemma FullMeansFull(r: Ring)
    requires Inv(r)
    ensures Next(r.head, |r.slots|) == r.tail <==> |r.accepted| - r.released == |r.slots| - 1
  {
    SlotNext(|r.accepted|, |r.slots|);
    SameSlot(r.released, |r.accepted| + 1, |r.slots|);
  }

  lemma WriteKeeps(r: Ring)
    requires Inv(r) && r.producer.Writing?
    ensures Inv(Step(r, PushStep))
  {
    forall k: nat | r.released <= k < |r.accepted|
      ensures SlotOf(k, |r.slots|) != r.head
    {
      SameSlot(k, |r.accepted|, |r.slots|);
    }
  }

  lemma StoreKeeps(r: Ring)
    requires Inv(r) && r.producer.Storing?
    ensures Inv(Step(r, PushStep))
  {
    SlotNext(|r.accepted|, |r.slots|);
  }

  lemma ReadKeeps(r: Ring)
    requires Inv(r) && r.consumer.Reading?
    ensures Inv(Step(r, DrainStep))
  {
    SlotNext(|r.drained|, |r.slots|);
    SameSlot(|r.drained|, r.target, |r.slots|);
  }

  lemma StepKeeps(r: Ring, a: Action)
    requires Inv(r)
    ensures Inv(Step(r, a))
  {
    match a {
      case BeginPush(_) => FullMeansFull(r);
      case PushStep =>
        if r.producer.Writing? {
          WriteKeeps(r);
        } else if r.producer.Storing? {
          StoreKeeps(r);
        }
      case BeginDrain =>
      case DrainStep => if r.consumer.Reading? { ReadKeeps(r); }
    }
  }

  lemma {:induction false} RunKeeps(r: Ring, actions: seq<Action>)
    requires Inv(r)
    ensures Inv(Run(r, actions))
    decreases |actions|
  {
    if actions != [] {
      StepKeeps(r, actions[0]);
      RunKeeps(Step(r, actions[0]), actions[1..]);
    }
  }

  // ---------------------------------------------------------------- the theorems

  /** Over every interleaving: what has been drained is a prefix of what was
      accepted, in order; what is still in the ring is intact; and every finished
      push was accepted or counted as dropped. */
  lemma DrainedIsPrefixOfAccepted(capacity: nat, actions: seq<Action>)
    ensures var r := Run(NewRing(capacity), actions);
            && |r.slots| == Max(capacity, 1) + 1
            && r.drained <= r.accepted
            && r.offered == |r.accepted| + r.dropped
            && r.released <= |r.accepted|
            && |r.accepted| - r.released <= Max(capacity, 1)
            && Unrolled(r.slots, r.tail, |r.accepted| - r.released) == r.accepted[r.released..]
  {
    InitInv(capacity);
    RunKeeps(NewRing(capacity), actions);
    RunLength(NewRing(capacity), actions);
    var r := Run(NewRing(capacity), actions);
    UnrolledNormal(r.slots, r.released, |r.accepted| - r.released);
    forall i | 0 <= i < |r.accepted| - r.released
      ensures Unrolled(r.slots, r.released, |r.accepted| - r.released)[i] == r.accepted[r.released..][i]
    {
      assert Place(r.released, i, |r.slots|) == SlotOf(r.released + i, |r.slots|);
    }
  }

  lemma {:induction false} RunLength(r: Ring, actions: seq<Action>)
    requires 0 < |r.slots|
    ensures |Run(r, actions).slots| == |r.slots|
    decreases |actions|
  {
    if actions != [] {
      RunLength(Step(r, actions[0]), actions[1..]);
    }
  }

  /** The bounded FIFO the ring stands for: accepted and not yet released. */
  ghost function Fifo(r: Ring): seq<Sample>
    requires Inv(r)
  {
    r.accepted[r.released..]
  }

  /** What one step does to the FIFO. */
  ghost predicate RefinesFifo(r: Ring, a: Action)
    requires Inv(r) && Inv(Step(r, a))
  {
    var r' := Step(r, a);
    if a.PushStep? && r.producer.Storing? then Fifo(r') == Fifo(r) + [r.producer.sample]
    else if r.consumer.Reading? && r'.consumer.Away? then
      var taken := |r.drained| - r.released;
      taken <= |Fifo(r)| && r.drained[r.released..] == Fifo(r)[..taken] && Fifo(r') == Fifo(r)[taken..]
    else Fifo(r') == Fifo(r)
  }

  lemma PushRefines(r: Ring)
    requires Inv(r)
    ensures Inv(Step(r, PushStep)) && RefinesFifo(r, PushStep)
  {
    StepKeeps(r, PushStep);
  }

  lemma DrainRefines(r: Ring)
    requires Inv(r)
    ensures Inv(Step(r, DrainStep)) && RefinesFifo(r, DrainStep)
  {
    StepKeeps(r, DrainStep);
  }

  /** A push is refused only at a moment when the FIFO is full, and goes ahead only when
      it is not. */
  lemma RefusedOnlyWhenFull(r: Ring, sample: Sample)
    requires Inv(r) && r.producer.Resting?
    ensures Step(r, BeginPush(sample)).producer == if |Fifo(r)| == |r.slots| - 1 then Refusing(sample) else Writing(sample)
  {
    FullMeansFull(r);
  }

  /** Each step is a step of that FIFO: publishing the head enqueues the one sample
      being pushed, publishing the tail removes from the front exactly what the
      drain appended, and nothing else changes it. */
  lemma StepRefinesFifo(r: Ring, a: Action)
    requires Inv(r)
    ensures Inv(Step(r, a)) && RefinesFifo(r, a)
  {
    match a {
      case PushStep => PushRefines(r);
      case DrainStep => DrainRefines(r);
      case _ => StepKeeps(r, a);
    }
  }

  /** A drain takes everything that was published when it loaded the head. */
  lemma DrainTakesAllSeen(r: Ring)
    requires Inv(r) && r.consumer.Reading? && Step(r, DrainStep).consumer.Away?
    ensures r.drained == r.accepted[..r.target]
  {
    SameSlot(|r.drained|, r.target, |r.slots|);
  }
}
