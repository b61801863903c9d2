/** The buffers a plotted signal passes through: the staging ring filled by the
    producer, the retained history, and the pair of them behind one signal. */
module SampleRing {
  import opened Basics
  import opened Modular

  datatype Sample = Sample(t: real, v: real)

  ghost predicate NonDecreasing(s: seq<Sample>) {
    forall i, j :: 0 <= i < j < |s| ==> s[i].t <= s[j].t
  }

  // ------------------------------------------------------ what the buffers hold

  /** The last `cap` elements. */
  function Suffix<T>(s: seq<T>, cap: nat): (r: seq<T>)
    ensures |r| == Min(|s|, cap)
  {
    if |s| <= cap then s else s[|s| - cap..]
  }

  /** How many leading samples are before `t`. */
  function CountBefore(s: seq<Sample>, t: real, k: nat := 0): (n: nat)
    requires k <= |s|
    ensures k <= n <= |s|
    ensures forall i :: k <= i < n ==> s[i].t < t
    ensures n < |s| ==> t <= s[n].t
    decreases |s| - k
  {
    if k == |s| || t <= s[k].t then k else CountBefore(s, t, k + 1)
  }

  /** How many leading samples are at or before `t`. */
  function CountUpTo(s: seq<Sample>, t: real, k: nat := 0): (n: nat)
    requires k <= |s|
    ensures k <= n <= |s|
    ensures forall i :: k <= i < n ==> s[i].t <= t
    ensures n < |s| ==> t < s[n].t
    decreases |s| - k
  {
    if k == |s| || t < s[k].t then k else CountUpTo(s, t, k + 1)
  }

  /** The place in a store of `n` slots that is `i` steps round from `from`. */
  function Place(from: nat, i: nat, n: nat): (r: nat)
    requires 0 < n
    ensures r < n
  {
    (from + i) % n
  }

  /** `size` elements of a circular store from `from` on, oldest first. */
  ghost function Unrolled<T>(slots: seq<T>, from: nat, size: nat): (r: seq<T>)
    requires |slots| > 0
    ensures |r| == size
    ensures forall i :: 0 <= i < size ==> r[i] == slots[Place(from, i, |slots|)]
  {
    seq(size, i requires 0 <= i < size => slots[Place(from, i, |slots|)])
  }

  lemma UnrolledNormal<T>(slots: seq<T>, from: nat, size: nat)
    requires |slots| > 0
    ensures Unrolled(slots, from % |slots|, size) == Unrolled(slots, from, size)
  {
    forall i: nat
      ensures Place(from % |slots|, i, |slots|) == Place(from, i, |slots|)
    {
      ModShift(from, i, |slots|);
    }
  }

  /** Writing the place just past the occupied part appends one element. */
  lemma UnrolledWrite<T>(slots: seq<T>, from: nat, size: nat, x: T)
    requires size < |slots|
    ensures Unrolled(slots[Place(from, size, |slots|) := x], from, size + 1) == Unrolled(slots, from, size) + [x]
  {
    forall i: nat | i < size
      ensures Place(from, i, |slots|) != Place(from, size, |slots|)
    {
      ModDistinct(from + i, from + size, |slots|);
    }
  }

  /** Overwriting the oldest place of a full store drops that element and appends one. */
  lemma UnrolledOverwrite<T>(slots: seq<T>, from: nat, x: T)
    requires from < |slots|
    ensures Unrolled(slots[from := x], from + 1, |slots|) == Unrolled(slots, from, |slots|)[1..] + [x]
  {
    var n := |slots|;
    var after := Unrolled(slots[from := x], from + 1, n);
    ModUnique(from, n, 0, from);
    ModUnique(from + n, n, 1, from);
    forall i | 0 <= i < n
      ensures after[i] == (Unrolled(slots, from, n)[1..] + [x])[i]
    {
      if i < n - 1 {
        ModDistinct(from, from + 1 + i, n);
        assert Place(from + 1, i, n) == Place(from, i + 1, n);
      }
    }
  }

  // --------------------------------------------------------------- StagingRing

  /** The producer half, used from one thread at a time. The two threads at once
      are the subject of RingInterleaving. */
  class StagingRing {
    const slots: array<Sample>
    const capacity: nat
    var head: nat
    var tail: nat
    var dropped: nat
    ghost var size: nat

    ghost predicate Valid()
      reads this
    {
      && capacity >= 1 && slots.Length == capacity + 1
      && head < slots.Length && tail < slots.Length
      && size <= capacity && head == Place(tail, size, slots.Length)
    }

    ghost function Contents(): (s: seq<Sample>)
      requires Valid()
      reads this, slots
      ensures |s| == size
    {
      Unrolled(slots[..], tail, size)
    }

    constructor (cap: nat)
      ensures Valid() && fresh(slots) && capacity == Max(cap, 1) && Contents() == [] && dropped == 0
    {
      capacity := Max(cap, 1);
      slots := new Sample[Max(cap, 1) + 1](_ => Sample(0.0, 0.0));
      head, tail, dropped, size := 0, 0, 0, 0;
    }

    method Push(sample: Sample) returns (accepted: bool)
      requires Valid()
      modifies this`head, this`dropped, this`size, slots
      ensures Valid()
      ensures accepted <==> |old(Contents())| < capacity
      ensures Contents() == if accepted then old(Contents()) + [sample] else old(Contents())
      ensures dropped == old(dropped) + if accepted then 0 else 1
    {
      var next := (head + 1) % slots.Length;
      NextFree();
      if next == tail {
        dropped := dropped + 1;
        return false;
      }
      UnrolledWrite(slots[..], tail, size, sample);
      ghost var was := slots[..];
      slots[head] := sample;
      assert slots[..] == was[head := sample];
      head := next;
      size := size + 1;
      return true;
    }

    /** The place after `head` is `tail` exactly when the ring is full. */
    lemma NextFree()
      requires Valid()
      ensures (head + 1) % slots.Length == Place(tail, size + 1, slots.Length)
      ensures (head + 1) % slots.Length == tail <==> size == capacity
    {
      var n := slots.Length;
      ModSucc(tail + size, n);
      ModUnique(tail, n, 0, tail);
      if size < capacity {
        ModDistinct(tail, tail + size + 1, n);
      } else {
        ModUnique(tail + n, n, 1, tail);
      }
    }

    /** A read position reaches `head` exactly when everything has been read. */
    lemma Exhausted(count: nat)
      requires Valid() && count <= size
      ensures Place(tail, count, slots.Length) == head <==> count == size
      ensures (Place(tail, count, slots.Length) + 1) % slots.Length == Place(tail, count + 1, slots.Length)
    {
      ModSucc(tail + count, slots.Length);
      if count < size {
        ModDistinct(tail + count, tail + size, slots.Length);
      }
    }

    method Drain(out: seq<Sample>) returns (all: seq<Sample>, count: nat)
      requires Valid()
      modifies this`tail, this`size
      ensures Valid() && Contents() == []
      ensures all == out + old(Contents()) && count == |old(Contents())|
    {
      all, count := out, 0;
      var at := tail;
      ModUnique(tail, slots.Length, 0, tail);
      Exhausted(0);
      while at != head
        invariant 0 <= count <= size && size == old(size) && tail == old(tail) && Valid()
        invariant at == Place(tail, count, slots.Length)
        invariant at == head <==> count == size
        invariant all == out + Contents()[..count]
        decreases size - count
      {
        Exhausted(count);
        Exhausted(count + 1);
        assert slots[at] == Contents()[count];
        all := all + [slots[at]];
        at := (at + 1) % slots.Length;
        count := count + 1;
      }
      assert Contents()[..count] == Contents();
      ModUnique(at, slots.Length, 0, at);
      tail := at;
      size := 0;
    }
  }

  // ------------------------------------------------------------- SampleHistory

  class SampleHistory {
    const slots: array<Sample>
    var head: nat
    var size: nat

    ghost predicate Valid()
      reads this
    {
      slots.Length >= 1 && head < slots.Length && size <= slots.Length
    }

    ghost function Contents(): (s: seq<Sample>)
      requires Valid()
      reads this, slots
      ensures |s| == size
    {
      Unrolled(slots[..], head, size)
    }

    constructor (capacity: nat)
      ensures Valid() && fresh(slots) && slots.Length == Max(capacity, 1) && Contents() == []
    {
      slots := new Sample[Max(capacity, 1)](_ => Sample(0.0, 0.0));
      head, size := 0, 0;
    }

    function At(index: nat): Sample
      requires Valid() && index < size
      reads this, slots
    {
      slots[(head + index) % slots.Length]
    }

    method Append(sample: Sample)
      requires Valid()
      modifies this, slots
      ensures Valid()
      ensures Contents() == Suffix(old(Contents()) + [sample], slots.Length)
    {
      ghost var was, contents := slots[..], Contents();
      SuffixSnoc(contents, sample, slots.Length);
      if size < slots.Length {
        UnrolledWrite(was, head, size, sample);
        var free := (head + size) % slots.Length;
        slots[free] := sample;
        assert slots[..] == was[free := sample];
        size := size + 1;
        return;
      }
      UnrolledOverwrite(was, head, sample);
      slots[head] := sample;
      assert slots[..] == was[head := sample];
      UnrolledNormal(slots[..], head + 1, size);
      head := (head + 1) % slots.Length;
    }

    method LowerBound(tMin: real) returns (low: nat)
      requires Valid() && NonDecreasing(Contents())
      ensures low == CountBefore(Contents(), tMin)
    {
      low := 0;
      var high := size;
      while low < high
        invariant 0 <= low <= high <= size
        invariant forall i :: 0 <= i < low ==> Contents()[i].t < tMin
        invariant forall i :: high <= i < size ==> tMin <= Contents()[i].t
      {
        var mid := low + (high - low) / 2;
        assert At(mid) == Contents()[mid];
        if At(mid).t < tMin {
          low := mid + 1;
        } else {
          high := mid;
        }
      }
      assert low == size || tMin <= Contents()[low].t;
    }

    method TrimOlderThan(tMin: real)
      requires Valid() && NonDecreasing(Contents())
      modifies this
      ensures Valid()
      ensures Contents() == old(Contents())[CountBefore(old(Contents()), tMin)..]
    {
      var drop := LowerBound(tMin);
      if drop == 0 {
        return;
      }
      UnrolledNormal(slots[..], head + drop, size - drop);
      head := (head + drop) % slots.Length;
      size := size - drop;
    }

    method Clear()
      requires Valid()
      modifies this
      ensures Valid() && Contents() == []
    {
      head, size := 0, 0;
    }
  }

  // -------------------------------------------------------------- SignalBuffer

  /** A bound signal's data: the hand-off ring and the history the panel draws. */
  class SignalBuffer {
    const historySeconds: real
    const staging: StagingRing
    const history: SampleHistory
    var received: nat

    ghost const Repr: set<object>

    ghost predicate Valid()
      reads this, Repr
      ensures Valid() ==> this in Repr
    {
      && Repr == {this, staging, staging.slots, history, history.slots}
      && staging.slots != history.slots
      && staging.Valid() && history.Valid()
    }

    ghost function Staged(): seq<Sample>
      requires Valid()
      reads Repr
    {
      staging.Contents()
    }

    ghost function Retained(): seq<Sample>
      requires Valid()
      reads Repr
    {
      history.Contents()
    }

    constructor (historySeconds: real, maxPoints: nat, stagingCapacity: nat)
      ensures Valid() && fresh(Repr)
      ensures Staged() == [] && Retained() == [] && received == 0
      ensures this.historySeconds == historySeconds && history.slots.Length == Max(maxPoints, 1)
    {
      this.historySeconds := historySeconds;
      received := 0;
      var ring := new StagingRing(stagingCapacity);
      var kept := new SampleHistory(maxPoints);
      staging, history := ring, kept;
      Repr := {this, ring, ring.slots, kept, kept.slots};
    }

    method Push(sample: Sample)
      requires Valid()
      modifies Repr
      ensures Valid()
      ensures Staged() == old(Staged()) || Staged() == old(Staged()) + [sample]
      ensures Staged() == old(Staged()) <==> |old(Staged())| == staging.capacity
      ensures Retained() == old(Retained()) && received == old(received)
    {
      var accepted := staging.Push(sample);
    }

    /** Appends without clearing: playback moving forward. */
    method Append(samples: seq<Sample>)
      requires Valid()
      modifies Repr
      ensures Valid()
      ensures Retained() == Suffix(old(Retained()) + samples, history.slots.Length)
      ensures Staged() == old(Staged()) && received == old(received) + |samples|
    {
      ghost var was, cap := Retained(), history.slots.Length;
      assert was + samples[..0] == was && Suffix(was, cap) == was;
      for i := 0 to |samples|
        invariant Valid() && received == old(received)
        invariant Staged() == old(Staged())
        invariant Retained() == Suffix(was + samples[..i], cap)
      {
        AppendStep(was, samples, i, cap);
        history.Append(samples[i]);
      }
      assert samples[..|samples|] == samples;
      received := received + |samples|;
    }

    method TrimTo(now: real)
      requires Valid()
      requires historySeconds > 0.0 ==> NonDecreasing(Retained())
      modifies history
      ensures Valid() && Staged() == old(Staged()) && received == old(received)
      ensures Retained() ==
        if historySeconds > 0.0 then old(Retained())[CountBefore(old(Retained()), now - historySeconds)..] else old(Retained())
    {
      if historySeconds > 0.0 {
        history.TrimOlderThan(now - historySeconds);
      }
    }

    method Drain(now: real)
      requires Valid()
      requires historySeconds > 0.0 ==> NonDecreasing(Suffix(Retained() + Staged(), history.slots.Length))
      modifies Repr
      ensures Valid() && Staged() == []
      ensures received == old(received) + |old(Staged())|
      ensures var kept := Suffix(old(Retained()) + old(Staged()), history.slots.Length);
              Retained() == if historySeconds > 0.0 then kept[CountBefore(kept, now - historySeconds)..] else kept
    {
      ghost var retained, staged := Retained(), Staged();
      var scratch, moved := staging.Drain([]);
      assert scratch == staged;
      assert history.slots[..] == old(history.slots[..]);
      assert Retained() == retained;
      Append(scratch);
      TrimTo(now);
    }

    /** Everything goes, staged and retained; the lifetime count stays. */
    method Clear()
      requires Valid()
      modifies Repr
      ensures Valid() && Staged() == [] && Retained() == [] && received == old(received)
    {
      var scratch, count := staging.Drain([]);
      history.Clear();
    }

    /** After a seek: nothing from before is kept. */
    method ReplaceHistory(samples: seq<Sample>)
      requires Valid()
      modifies Repr
      ensures Valid() && Staged() == []
      ensures Retained() == Suffix(samples, history.slots.Length)
      ensures received == old(received) + |samples|
    {
      Clear();
      assert [] + samples == samples;
      Append(samples);
    }
  }

  lemma SuffixSnoc<T>(s: seq<T>, x: T, cap: nat)
    requires |s| <= cap && 0 < cap
    ensures Suffix(s + [x], cap) == if |s| < cap then s + [x] else s[1..] + [x]
  {
  }

  lemma AppendStep<T>(was: seq<T>, samples: seq<T>, i: nat, cap: nat)
    requires i < |samples|
    ensures Suffix(Suffix(was + samples[..i], cap) + [samples[i]], cap) == Suffix(was + samples[..i + 1], cap)
  {
    SuffixStep(was + samples[..i], samples[i], cap);
    assert was + samples[..i + 1] == was + samples[..i] + [samples[i]];
  }

  lemma SuffixStep<T>(s: seq<T>, x: T, cap: nat)
    ensures Suffix(Suffix(s, cap) + [x], cap) == Suffix(s + [x], cap)
  {
  }
}
