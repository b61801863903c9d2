/** How recorded playback keeps one signal's buffer at the playback position: an
    incremental refill on forward moves against a rebuild from the decoded samples. */
module SignalRefill {
  import opened Basics
  import opened SampleRing

  /** The first decoded sample inside the retention; zero retention means no bound. */
  function Begin(samples: seq<Sample>, retention: real, position: real): (n: nat)
    ensures n <= |samples|
  {
    if retention > 0.0 then CountBefore(samples, position - retention) else 0
  }

  lemma BeginBeforeEnd(samples: seq<Sample>, retention: real, position: real)
    requires NonDecreasing(samples)
    ensures Begin(samples, retention, position) <= CountUpTo(samples, position)
  {
    assert forall i :: 0 <= i < Begin(samples, retention, position) ==> samples[i].t <= position;
  }

  /** What a forced rebuild at a position leaves in a history of `cap` slots. */
  function Rebuilt(samples: seq<Sample>, retention: real, cap: nat, position: real): seq<Sample>
    requires Begin(samples, retention, position) <= CountUpTo(samples, position)
  {
    Suffix(samples[Begin(samples, retention, position)..CountUpTo(samples, position)], cap)
  }

  // ------------------------------------------------------------ one binding

  /** One decoded signal: the buffer it feeds and where the last refill left it. */
  datatype View = View(retained: seq<Sample>, filledTo: nat, filled: bool)

  function Refilled(v: View, samples: seq<Sample>, retention: real, cap: nat, position: real, force: bool): View
    requires v.filledTo <= |samples|
    requires Begin(samples, retention, position) <= CountUpTo(samples, position)
  {
    var end := CountUpTo(samples, position);
    var retained :=
      if force || !v.filled || end < v.filledTo then Rebuilt(samples, retention, cap, position)
      else if end > v.filledTo then Suffix(v.retained + samples[v.filledTo..end], cap)
      else v.retained;
    View(retained, end, true)
  }

  function Drained(v: View, retention: real, position: real): View {
    if retention > 0.0 then v.(retained := v.retained[CountBefore(v.retained, position - retention)..]) else v
  }

  class Binding {
    const samples: seq<Sample>
    const buffer: SignalBuffer
    var filledTo: nat
    var filled: bool

    ghost predicate Valid()
      reads this, buffer, buffer.Repr
    {
      && this !in buffer.Repr && buffer.Valid()
      && filledTo <= |samples| && NonDecreasing(samples)
      && buffer.Staged() == []
    }

    ghost function Shown(): View
      requires Valid()
      reads this, buffer, buffer.Repr
    {
      View(buffer.Retained(), filledTo, filled)
    }

    constructor (samples: seq<Sample>, buffer: SignalBuffer)
      requires NonDecreasing(samples) && buffer.Valid() && buffer.Staged() == []
      ensures Valid() && Shown() == View(buffer.Retained(), 0, false)
      ensures this.samples == samples && this.buffer == buffer
    {
      this.samples, this.buffer, filledTo, filled := samples, buffer, 0, false;
    }

    /** Appends, rebuilds or leaves alone, whichever the position asks for. */
    method Refill(position: real, force: bool)
      requires Valid()
      modifies this, buffer.Repr
      ensures Valid()
      ensures Begin(samples, buffer.historySeconds, position) <= CountUpTo(samples, position)
      ensures Shown() ==
        Refilled(old(Shown()), samples, buffer.historySeconds, buffer.history.slots.Length, position, force)
    {
      BeginBeforeEnd(samples, buffer.historySeconds, position);
      var end := CountUpTo(samples, position);
      if force || !filled || end < filledTo {
        var begin := Begin(samples, buffer.historySeconds, position);
        buffer.ReplaceHistory(samples[begin..end]);
      } else if end > filledTo {
        buffer.Append(samples[filledTo..end]);
      }
      filledTo := end;
      filled := true;
    }

    method DrainAt(position: real)
      requires Valid()
      requires NonDecreasing(buffer.Retained())
      modifies this, buffer.Repr
      ensures Valid()
      ensures Shown() == Drained(old(Shown()), buffer.historySeconds, position)
    {
      assert buffer.Retained() + buffer.Staged() == buffer.Retained();
      assert Suffix(buffer.Retained(), buffer.history.slots.Length) == buffer.Retained();
      buffer.Drain(position);
    }
  }

  // ------------------------------------------------------------- over all runs

  /** What moves the position after decoding, and the panel's drain at it. */
  datatype Event = Seek(t: real) | Tick(step: real) | DrainHere

  datatype Playing = Playing(position: real, view: View)

  function Clamp(t: real, duration: real): real {
    if t < 0.0 then 0.0 else if duration < t then duration else t
  }

  function Step(p: Playing, samples: seq<Sample>, retention: real, cap: nat, duration: real, e: Event): (r: Playing)
    requires NonDecreasing(samples) && p.view.filledTo <= |samples|
    ensures r.view.filledTo <= |samples|
  {
    match e
    case Seek(t) =>
      var position := Clamp(t, duration);
      BeginBeforeEnd(samples, retention, position);
      Playing(position, Refilled(p.view, samples, retention, cap, position, true))
    case Tick(step) =>
      var position := if p.position + step <= duration then p.position + step else duration;
      BeginBeforeEnd(samples, retention, position);
      Playing(position, Refilled(p.view, samples, retention, cap, position, false))
    case DrainHere =>
      p.(view := Drained(p.view, retention, p.position))
  }

  function Run(p: Playing, samples: seq<Sample>, retention: real, cap: nat, duration: real, events: seq<Event>): (r: Playing)
    requires NonDecreasing(samples) && p.view.filledTo <= |samples|
    ensures r.view.filledTo <= |samples|
    decreases |events|
  {
    if events == [] then p
    else Run(Step(p, samples, retention, cap, duration, events[0]), samples, retention, cap, duration, events[1..])
  }

  /** The retained history is a contiguous slice of the decoded samples ending where
      the position is, which either reaches back to the retention bound or fills
      the ring. */
  ghost predicate IsSlice(p: Playing, samples: seq<Sample>, retention: real, cap: nat) {
    var v := p.view;
    && v.filledTo == CountUpTo(samples, p.position)
    && |v.retained| <= Min(v.filledTo, cap)
    && v.retained == samples[v.filledTo - |v.retained|..v.filledTo]
    && (v.filledTo - |v.retained| <= Begin(samples, retention, p.position) || |v.retained| == cap)
  }

  ghost predicate Ok(p: Playing, samples: seq<Sample>, retention: real, cap: nat) {
    p.view.filled ==> IsSlice(p, samples, retention, cap)
  }

  ghost predicate Forward(events: seq<Event>) {
    forall i :: 0 <= i < |events| && events[i].Tick? ==> events[i].step >= 0.0
  }

  lemma CountsMonotone(samples: seq<Sample>, retention: real, p: real, q: real)
    requires NonDecreasing(samples) && p <= q
    ensures CountUpTo(samples, p) <= CountUpTo(samples, q)
    ensures Begin(samples, retention, p) <= Begin(samples, retention, q)
  {
    var a, b := CountUpTo(samples, q), Begin(samples, retention, q);
    assert a == |samples| || q < samples[a].t;
    assert b == |samples| || retention <= 0.0 || q - retention <= samples[b].t;
  }

  lemma RebuildOk(p: Playing, samples: seq<Sample>, retention: real, cap: nat)
    requires NonDecreasing(samples)
    requires Begin(samples, retention, p.position) <= CountUpTo(samples, p.position)
    requires p.view == View(Rebuilt(samples, retention, cap, p.position), CountUpTo(samples, p.position), true)
    ensures IsSlice(p, samples, retention, cap)
  {
  }

  lemma SliceAppend<T>(s: seq<T>, lo: nat, mid: nat, end: nat, cap: nat)
    requires lo <= mid <= end <= |s|
    ensures Suffix(s[lo..mid] + s[mid..end], cap) == s[Max(lo, end - cap)..end]
  {
    assert s[lo..mid] + s[mid..end] == s[lo..end];
  }

  lemma SliceFrom(p: Playing, samples: seq<Sample>, retention: real, cap: nat, from: nat)
    requires from <= p.view.filledTo == CountUpTo(samples, p.position) <= from + cap
    requires p.view.retained == samples[from..p.view.filledTo]
    requires from <= Begin(samples, retention, p.position) || p.view.filledTo == from + cap
    ensures IsSlice(p, samples, retention, cap)
  {
  }

  /** Adding what comes next to a slice that reaches back far enough, or fills the ring,
      leaves another such slice. */
  lemma AppendReaches(lo: nat, mid: nat, end: nat, cap: nat, b: nat, b': nat)
    requires lo <= mid <= end && mid - lo <= cap && b <= b' && (lo <= b || mid - lo == cap)
    ensures var from := Max(lo, end - cap);
            from <= end <= from + cap && (from <= b' || end == from + cap)
  {
  }

  lemma AppendOk(p: Playing, p': Playing, samples: seq<Sample>, retention: real, cap: nat)
    requires NonDecreasing(samples) && IsSlice(p, samples, retention, cap) && p.position <= p'.position
    requires p.view.filledTo <= CountUpTo(samples, p'.position)
    requires p'.view == View(Suffix(p.view.retained + samples[p.view.filledTo..CountUpTo(samples, p'.position)], cap),
                             CountUpTo(samples, p'.position), true)
    ensures IsSlice(p', samples, retention, cap)
  {
    CountsMonotone(samples, retention, p.position, p'.position);
    var v, end := p.view, CountUpTo(samples, p'.position);
    var lo := v.filledTo - |v.retained|;
    SliceAppend(samples, lo, v.filledTo, end, cap);
    AppendReaches(lo, v.filledTo, end, cap, Begin(samples, retention, p.position), Begin(samples, retention, p'.position));
    SliceFrom(p', samples, retention, cap, Max(lo, end - cap));
  }

  lemma {:induction false} CountBeforeIs(s: seq<Sample>, t: real, n: nat, k: nat)
    requires k <= n <= |s|
    requires forall i :: k <= i < n ==> s[i].t < t
    requires n < |s| ==> t <= s[n].t
    ensures CountBefore(s, t, k) == n
    decreases n - k
  {
    if k < n {
      CountBeforeIs(s, t, n, k + 1);
    }
  }

  lemma CountInSlice(s: seq<Sample>, lo: nat, hi: nat, t: real)
    requires NonDecreasing(s) && lo <= hi <= |s| && CountBefore(s, t) <= hi
    ensures CountBefore(s[lo..hi], t) == Max(CountBefore(s, t) - lo, 0)
  {
    var n := CountBefore(s, t);
    assert n < |s| ==> forall i :: n <= i < |s| ==> s[n].t <= s[i].t;
    CountBeforeIs(s[lo..hi], t, Max(n - lo, 0), 0);
  }

  /** Cutting a slice at a time cuts the whole there, or not at all. */
  lemma CutSlice(s: seq<Sample>, lo: nat, hi: nat, t: real)
    requires NonDecreasing(s) && lo <= hi <= |s| && CountBefore(s, t) <= hi
    ensures s[lo..hi][CountBefore(s[lo..hi], t)..] == s[Max(CountBefore(s, t), lo)..hi]
  {
    var n := CountBefore(s, t);
    CountInSlice(s, lo, hi, t);
    assert s[lo..hi][Max(n - lo, 0)..] == s[Max(n, lo)..hi];
  }

  lemma DrainIs(v: View, samples: seq<Sample>, retention: real, position: real, lo: nat)
    requires NonDecreasing(samples) && lo <= v.filledTo <= |samples| && v.retained == samples[lo..v.filledTo]
    requires Begin(samples, retention, position) <= v.filledTo
    ensures Drained(v, retention, position) ==
      v.(retained := samples[Max(Begin(samples, retention, position), lo)..v.filledTo])
  {
    if retention > 0.0 {
      CutSlice(samples, lo, v.filledTo, position - retention);
      assert v.retained[CountBefore(v.retained, position - retention)..]
          == samples[Max(Begin(samples, retention, position), lo)..v.filledTo];
    }
  }

  /** Trimming a slice at the retention bound leaves what a rebuild would. */
  lemma DrainOk(p: Playing, samples: seq<Sample>, retention: real, cap: nat)
    requires NonDecreasing(samples) && IsSlice(p, samples, retention, cap)
    requires Begin(samples, retention, p.position) <= p.view.filledTo
    ensures var v := Drained(p.view, retention, p.position);
            && IsSlice(p.(view := v), samples, retention, cap)
            && v.retained == Rebuilt(samples, retention, cap, p.position)
  {
    DrainIs(p.view, samples, retention, p.position, p.view.filledTo - |p.view.retained|);
    SliceSuffix(samples, Begin(samples, retention, p.position), p.view.filledTo, |p.view.retained|, cap);
  }

  lemma SliceSuffix<T>(s: seq<T>, b: nat, hi: nat, len: nat, cap: nat)
    requires b <= hi <= |s| && len <= Min(hi, cap) && (hi - len <= b || len == cap)
    ensures Suffix(s[b..hi], cap) == s[Max(b, hi - len)..hi]
  {
  }

  lemma StepOk(p: Playing, samples: seq<Sample>, retention: real, cap: nat, duration: real, e: Event)
    requires NonDecreasing(samples) && p.view.filledTo <= |samples| && Ok(p, samples, retention, cap)
    requires 0.0 <= duration && p.position <= duration
    requires e.Tick? ==> e.step >= 0.0
    requires e.DrainHere? ==> p.view.filled
    ensures var r := Step(p, samples, retention, cap, duration, e);
            Ok(r, samples, retention, cap) && r.view.filled && r.position <= duration
  {
    var r := Step(p, samples, retention, cap, duration, e);
    BeginBeforeEnd(samples, retention, r.position);
    match e {
      case Seek(_) => RebuildOk(r, samples, retention, cap);
      case Tick(_) =>
        if !p.view.filled {
          RebuildOk(r, samples, retention, cap);
        } else {
          CountsMonotone(samples, retention, p.position, r.position);
          assert p.view.retained + samples[p.view.filledTo..p.view.filledTo] == p.view.retained;
          AppendOk(p, r, samples, retention, cap);
        }
      case DrainHere => DrainOk(p, samples, retention, cap);
    }
  }

  lemma {:induction false} RunOk(p: Playing, samples: seq<Sample>, retention: real, cap: nat, duration: real, events: seq<Event>)
    requires NonDecreasing(samples) && p.view.filledTo <= |samples| && Ok(p, samples, retention, cap)
    requires p.position <= duration && 0.0 <= duration && p.view.filled && Forward(events)
    ensures var r := Run(p, samples, retention, cap, duration, events);
            Ok(r, samples, retention, cap) && r.view.filled && r.position <= duration
    decreases |events|
  {
    if events != [] {
      StepOk(p, samples, retention, cap, duration, events[0]);
      RunOk(Step(p, samples, retention, cap, duration, events[0]), samples, retention, cap, duration, events[1..]);
    }
  }

  /** Over any run of seeks, forward ticks and drains after the first refill, what
      is retained is a contiguous slice of the decoded samples ending with the last
      one at or before the position, and a drain there leaves exactly what a forced
      rebuild would, whether or not the ring overflowed on the way. */
  lemma RefillEqualsRebuild(samples: seq<Sample>, retention: real, cap: nat, duration: real,
                            before: View, start: real, first: Event, events: seq<Event>)
    requires NonDecreasing(samples) && before.filledTo <= |samples|
    requires 0.0 <= start <= duration && !before.filled && Forward([first] + events) && !first.DrainHere?
    ensures var r := Run(Playing(start, before), samples, retention, cap, duration, [first] + events);
            var v := r.view;
            && Begin(samples, retention, r.position) <= CountUpTo(samples, r.position)
            && v.filledTo == CountUpTo(samples, r.position) && |v.retained| <= v.filledTo
            && v.retained == samples[v.filledTo - |v.retained|..v.filledTo]
            && Drained(v, retention, r.position).retained == Rebuilt(samples, retention, cap, r.position)
  {
    var p := Playing(start, before);
    assert ([first] + events)[0] == first && ([first] + events)[1..] == events;
    StepOk(p, samples, retention, cap, duration, first);
    RunOk(Step(p, samples, retention, cap, duration, first), samples, retention, cap, duration, events);
    var r := Run(p, samples, retention, cap, duration, [first] + events);
    BeginBeforeEnd(samples, retention, r.position);
    DrainOk(r, samples, retention, cap);
  }

  lemma SliceIsSuffixIff<T>(s: seq<T>, b: nat, hi: nat, len: nat, cap: nat)
    requires b <= hi <= |s| && len <= Min(hi, cap)
    ensures s[Max(b, hi - len)..hi] == Suffix(s[b..hi], cap) <==> hi - len <= b || len == cap
  {
    assert |s[Max(b, hi - len)..hi]| == hi - Max(b, hi - len);
    if hi - len <= b || len == cap { SliceSuffix(s, b, hi, len, cap); }
  }

  /** When a drain at the position gives what a forced rebuild there would. */
  ghost predicate AsRebuilt(p: Playing, samples: seq<Sample>, retention: real, cap: nat)
    requires NonDecreasing(samples)
  {
    BeginBeforeEnd(samples, retention, p.position);
    Drained(p.view, retention, p.position).retained == Rebuilt(samples, retention, cap, p.position)
  }

  lemma SliceAsRebuilt(p: Playing, samples: seq<Sample>, retention: real, cap: nat)
    requires NonDecreasing(samples) && IsSlice(p, samples, retention, cap)
    ensures AsRebuilt(p, samples, retention, cap)
  {
    BeginBeforeEnd(samples, retention, p.position);
    DrainOk(p, samples, retention, cap);
  }

  /** Nothing crossed: what was retained stays, cut at the new bound. */
  lemma StillAsRebuiltIff(p: Playing, q: Playing, samples: seq<Sample>, retention: real, cap: nat)
    requires NonDecreasing(samples) && IsSlice(p, samples, retention, cap)
    requires q.view == p.view && CountUpTo(samples, q.position) == p.view.filledTo
    ensures AsRebuilt(q, samples, retention, cap) <==>
      p.view.filledTo - |p.view.retained| <= Begin(samples, retention, q.position) || |p.view.retained| == cap
  {
    BeginBeforeEnd(samples, retention, q.position);
    DrainIs(q.view, samples, retention, q.position, q.view.filledTo - |q.view.retained|);
    SliceIsSuffixIff(samples, Begin(samples, retention, q.position), q.view.filledTo, |q.view.retained|, cap);
  }

  /** After a tick of any length and direction, a drain gives what a forced rebuild would
      exactly when the tick crossed a sample, or what was retained still reaches back to
      the retention bound at the new position, or it fills the ring. */
  lemma TickAsRebuiltIff(p: Playing, samples: seq<Sample>, retention: real, cap: nat, duration: real, step: real)
    requires NonDecreasing(samples) && p.view.filledTo <= |samples| && p.view.filled
    requires IsSlice(p, samples, retention, cap)
    ensures var q := Step(p, samples, retention, cap, duration, Tick(step));
            AsRebuilt(q, samples, retention, cap) <==>
              || CountUpTo(samples, q.position) != p.view.filledTo
              || p.view.filledTo - |p.view.retained| <= Begin(samples, retention, q.position)
              || |p.view.retained| == cap
  {
    var q := Step(p, samples, retention, cap, duration, Tick(step));
    var end := CountUpTo(samples, q.position);
    BeginBeforeEnd(samples, retention, q.position);
    if end < p.view.filledTo {
      RebuildOk(q, samples, retention, cap);
      SliceAsRebuilt(q, samples, retention, cap);
    } else if end > p.view.filledTo {
      CountsOrder(samples, p.position, q.position);
      AppendOk(p, q, samples, retention, cap);
      SliceAsRebuilt(q, samples, retention, cap);
    } else {
      StillAsRebuiltIff(p, q, samples, retention, cap);
    }
  }

  lemma CountsOrder(samples: seq<Sample>, p: real, q: real)
    requires NonDecreasing(samples) && CountUpTo(samples, p) < CountUpTo(samples, q)
    ensures p < q
  {
    assert samples[CountUpTo(samples, p)].t <= q;
  }

  /** A tick backwards that crosses no sample, and falls short: the retention bound moved
      back over a sample it had already let go of. */
  lemma BackwardTickDiffers()
    ensures var samples := [Sample(0.0, 0.0), Sample(1.0, 0.0)];
            var p := Step(Playing(1.2, View([], 0, false)), samples, 1.0, 8, 3.0, Seek(1.2));
            var q := Step(p, samples, 1.0, 8, 3.0, Tick(-0.2));
            && NonDecreasing(samples) && q.position == 1.0
            && Begin(samples, 1.0, 1.0) <= CountUpTo(samples, 1.0)
            && Drained(q.view, 1.0, 1.0).retained != Rebuilt(samples, 1.0, 8, 1.0)
  {
    var samples := [Sample(0.0, 0.0), Sample(1.0, 0.0)];
    assert CountUpTo(samples, 1.2) == 2 && CountUpTo(samples, 1.0) == 2;
    assert Begin(samples, 1.0, 1.2) == 1 && Begin(samples, 1.0, 1.0) == 0;
  }
}
