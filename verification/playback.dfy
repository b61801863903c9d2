/** The recorded source as the object its threads share: one method for each region
    run under the mutex, each proved to make exactly the state change the
    interleaving model gives that region and to keep everything proved of its runs,
    and the calls made of those regions. */
module Playback {
  import opened GopWindow
  import opened RecordedSource
  import opened RecordedInvariant
  import opened RecordedConvergence

  /** Handles below the next one to be given out, taken one further. */
  lemma {:induction false} InOrderSnoc(hs: set<Handle>, from: Handle, k: Handle)
    requires from <= k
    ensures InOrder(hs, from, k + 1) == InOrder(hs, from, k) + if k in hs then [k] else []
    decreases k - from
  {
    if from < k {
      InOrderSnoc(hs, from + 1, k);
    }
  }

  lemma {:induction false} LoadJobsSnoc(hs: seq<Handle>, h: Handle)
    ensures LoadJobs(hs + [h]) == LoadJobs(hs) + [LoadWindow(h)]
  {
    if hs != [] {
      assert (hs + [h])[0] == hs[0] && (hs + [h])[1..] == hs[1..] + [h];
      LoadJobsSnoc(hs[1..], h);
    }
  }

  /** The raw bindings when the scan has passed those numbered below `n`. */
  ghost function Scanned(s: State, position: int, force: bool, n: nat): map<Handle, Raw> {
    map h | h in s.raws ::
      if h < n && h in s.boundRaws then ScanOne(s.raws[h], GopStart(s.raws[h].index, position), force) else s.raws[h]
  }

  lemma ScannedStep(s: State, position: int, force: bool, n: nat)
    ensures var before, after := Scanned(s, position, force, n), Scanned(s, position, force, n + 1);
            if n in s.boundRaws && n in s.raws
            then before[n] == s.raws[n] && after == before[n := ScanOne(s.raws[n], GopStart(s.raws[n].index, position), force)]
            else after == before
  {
  }

  /** Recorded times never step back: the recorder's own clock stamps them. */
  ghost predicate StreamsOrdered(s: State) {
    forall h :: h in s.raws ==> TimeOrdered(s.raws[h].stream, s.tEnd)
  }

  ghost predicate Good(s: State) {
    Inv(s) && StreamsOrdered(s)
  }

  lemma WorkerGood(s: State)
    requires Good(s)
    ensures Good(WorkerStep(s))
  {
    WorkerKeeps(s);
    WorkerSameWants(s);
  }

  lemma ScanGood(s: State, position: int, force: bool)
    requires Good(s) && s.publishing == []
    ensures Good(Scan(s, position, force))
  {
    ScanKeeps(s, position, force);
  }

  lemma PublishGood(s: State)
    requires Good(s)
    ensures Good(Publish(s))
  {
    PublishKeeps(s);
  }

  /** The first binding to publish is handed one complete window of its index, the one
      its recorded start names. */
  ghost predicate HandsOver(s: State, s': State)
    requires s.publishing != []
  {
    var h := s.publishing[0];
    && h in s.raws && h in s'.raws
    && IsWindow(s.raws[h].stream, s.tEnd, s.raws[h].loadedStart, s.raws[h].staged)
    && s'.raws[h].handed == s.raws[h].handed + [Handed(s.raws[h].loadedStart, s.raws[h].staged)]
  }

  lemma PublishHandsOver(s: State)
    requires Good(s) && s.publishing != []
    ensures s.publishing[0] in s.raws && HandsOver(s, Publish(s))
  {
    assert RawHandleOk(s, s.publishing[0]);
  }

  lemma HandlesKnown(s: State)
    requires Good(s)
    ensures forall h :: h in s.raws ==> h < s.nextHandle
  {
    forall h | h in s.raws
      ensures h < s.nextHandle
    {
      assert RawHandleOk(s, h);
    }
  }

  lemma ReleasedHasNoJobs(s: State, h: Handle)
    requires Good(s) && s.publishing == []
    ensures h !in s.boundRaws ==> LoadWindow(h) !in s.queue
    ensures h in s.boundRaws ==> LoadWindow(h) !in ReleaseRaw(s, h).queue && IndexRaw(h) !in ReleaseRaw(s, h).queue
  {
    assert RawHandleOk(s, h);
    ErasedCount(s.queue, {IndexRaw(h), LoadWindow(h)}, LoadWindow(h));
    ErasedCount(s.queue, {IndexRaw(h), LoadWindow(h)}, IndexRaw(h));
  }

  /** An index, once built, is in time order, so its searches find what they should. */
  lemma IndexOrdered(s: State, h: Handle)
    requires Good(s) && h in s.raws
    ensures h < s.nextHandle && (s.raws[h].ready ==> NonDecreasing(s.raws[h].index))
  {
    assert RawHandleOk(s, h);
  }

  class Impl {
    const tEnd: nat
    var signals: map<Handle, bool>
    var raws: map<Handle, Raw>
    var boundSignals: set<Handle>
    var boundRaws: set<Handle>
    var nextHandle: Handle
    var queue: seq<Job>
    var pending: int
    var worker: Worker
    var publishing: seq<Handle>

    ghost predicate Valid()
      reads this
    {
      Good(View())
    }

    constructor (tEnd: nat)
      ensures Valid() && View() == Init(tEnd)
    {
      this.tEnd := tEnd;
      signals, raws, boundSignals, boundRaws := map[], map[], {}, {};
      nextHandle, queue, pending, worker, publishing := 1, [], 0, Idle, [];
    }

    ghost function View(): State
      reads this
    {
      State(tEnd, signals, raws, boundSignals, boundRaws, nextHandle, queue, pending, worker, publishing)
    }

    method BindSignal() returns (handle: Handle)
      requires Valid() && publishing == []
      modifies this
      ensures Valid() && View() == Bind(old(View()))
      ensures handle !in old(signals) && handle in boundSignals && pending == old(pending) + 1
    {
      BindKeeps(View());
      assert SignalHandleOk(View(), nextHandle);
      handle := nextHandle;
      nextHandle := nextHandle + 1;
      signals, boundSignals := signals[handle := false], boundSignals + {handle};
      queue := queue + [DecodeSignal(handle)];
      pending := pending + 1;
    }

    method BindStream(stream: seq<RawMessage>) returns (handle: Handle)
      requires Valid() && publishing == [] && TimeOrdered(stream, tEnd)
      modifies this
      ensures Valid() && View() == BindRaw(old(View()), stream)
      ensures handle !in old(raws) && handle in boundRaws && pending == old(pending) + 1
    {
      BindRawKeeps(View(), stream);
      assert RawHandleOk(View(), nextHandle);
      handle := nextHandle;
      nextHandle := nextHandle + 1;
      raws, boundRaws := raws[handle := NewRaw(stream)], boundRaws + {handle};
      queue := queue + [IndexRaw(handle)];
      pending := pending + 1;
    }

    /** Drops matching jobs and says how many of them `pending` had counted. */
    method EraseQueued(dropped: set<Job>) returns (counted: nat)
      modifies this`queue
      ensures queue == Without(old(queue), dropped)
      ensures counted == Passes(Only(old(queue), dropped))
    {
      counted := 0;
      var i := 0;
      while i < |queue|
        invariant 0 <= i <= |queue| && queue == old(queue)
        invariant counted + Passes(Only(queue[i..], dropped)) == Passes(Only(queue, dropped))
      {
        assert queue[i..][1..] == queue[i + 1..];
        if queue[i] in dropped {
          assert Only(queue[i..], dropped) == [queue[i]] + Only(queue[i + 1..], dropped);
          assert ([queue[i]] + Only(queue[i + 1..], dropped))[1..] == Only(queue[i + 1..], dropped);
        }
        if queue[i] in dropped && !queue[i].LoadWindow? {
          counted := counted + 1;
        }
        i := i + 1;
      }
      queue := Without(queue, dropped);
    }

    method ReleaseSignal(handle: Handle)
      requires Valid() && publishing == []
      modifies this
      ensures Valid() && View() == Release(old(View()), handle) && handle !in boundSignals
    {
      ReleaseKeeps(View(), handle);
      if handle !in boundSignals {
        return;
      }
      var erased := EraseQueued({DecodeSignal(handle)});
      pending := pending - erased;
      boundSignals := boundSignals - {handle};
    }

    method ReleaseStream(handle: Handle)
      requires Valid() && publishing == []
      modifies this
      ensures Valid() && View() == ReleaseRaw(old(View()), handle) && handle !in boundRaws
      ensures LoadWindow(handle) !in queue
    {
      ReleaseRawKeeps(View(), handle);
      ReleasedHasNoJobs(View(), handle);
      if handle !in boundRaws {
        return;
      }
      var erased := EraseQueued({IndexRaw(handle), LoadWindow(handle)});
      pending := pending - erased;
      boundRaws := boundRaws - {handle};
    }

    /** One raw binding's turn in the scan: at most one of the two results is set. */
    method ScanBinding(h: Handle, position: int, force: bool) returns (publish: bool, request: bool)
      requires h in raws
      requires raws[h].ready ==> NonDecreasing(raws[h].index)
      modifies this`raws
      ensures raws == old(raws)[h := ScanOne(old(raws)[h], GopStart(old(raws)[h].index, position), force)]
      ensures publish == old(raws)[h].stagedReady
      ensures request == Asks(old(raws)[h], GopStart(old(raws)[h].index, position))
    {
      publish, request := false, false;
      var r := raws[h];
      assert raws == raws[h := r];
      if r.stagedReady {
        return true, false;
      }
      if !r.ready {
        return;
      }
      var start := FindGopStart(r.index, position);
      if start.None? {
        raws := raws[h := r.(wantValid := false)];
        return;
      }
      var changed := !r.loaded || r.loadedStart != start.value;
      if !changed && !force {
        return;
      }
      r := r.(wantStart := start.value, wantValid := true);
      if !r.requestQueued && changed {
        r := r.(requestQueued := true);
        request := true;
      }
      raws := raws[h := r];
    }

    /** The walk over the bindings under the lock. */
    method ScanBindings(position: int, force: bool) returns (toPublish: seq<Handle>, toRequest: seq<Handle>)
      requires Valid()
      modifies this`raws
      ensures toPublish == InOrder(Staged(old(View())), 0, nextHandle)
      ensures toRequest == InOrder(Asking(old(View()), position), 0, nextHandle)
      ensures raws == Scan(old(View()), position, force).raws
    {
      toPublish, toRequest := [], [];
      ghost var was := View();
      for h := 0 to nextHandle
        invariant View() == was.(raws := raws)
        invariant raws == Scanned(was, position, force, h)
        invariant toPublish == InOrder(Staged(was), 0, h)
        invariant toRequest == InOrder(Asking(was, position), 0, h)
      {
        InOrderSnoc(Staged(was), 0, h);
        InOrderSnoc(Asking(was, position), 0, h);
        ScannedStep(was, position, force, h);
        if h in boundRaws && h in raws {
          IndexOrdered(was, h);
          var publish, request := ScanBinding(h, position, force);
          if publish {
            toPublish := toPublish + [h];
          }
          if request {
            toRequest := toRequest + [h];
          }
        }
      }
      HandlesKnown(was);
      assert raws == Scan(was, position, force).raws;
    }

    method QueueLoads(toRequest: seq<Handle>)
      modifies this`queue
      ensures queue == old(queue) + LoadJobs(toRequest)
    {
      for i := 0 to |toRequest|
        invariant queue == old(queue) + LoadJobs(toRequest[..i])
      {
        LoadJobsSnoc(toRequest[..i], toRequest[i]);
        assert toRequest[..i + 1] == toRequest[..i] + [toRequest[i]];
        queue := queue + [LoadWindow(toRequest[i])];
      }
      assert toRequest[..|toRequest|] == toRequest;
    }

    method RefillAllRaw(position: int, force: bool)
      requires Valid() && publishing == []
      modifies this
      ensures Valid() && View() == Scan(old(View()), position, force)
    {
      ScanGood(View(), position, force);
      var toPublish, toRequest := ScanBindings(position, force);
      QueueLoads(toRequest);
      publishing := toPublish;
    }

    /** Taking what is staged under the lock, and giving it to the buffer. */
    method HandOver()
      requires publishing != [] && publishing[0] in raws
      modifies this
      ensures View() == Publish(old(View()))
    {
      var h := publishing[0];
      var staged := raws[h].staged;
      raws := raws[h := raws[h].(staged := [], stagedReady := false, loaded := true)];
      raws := raws[h := raws[h].(handed := raws[h].handed + [Handed(raws[h].loadedStart, staged)])];
      publishing := publishing[1..];
    }

    /** One staged window goes to its raw buffer: a complete window of the index, the one
        `loadedStart` names. */
    method PublishNext()
      requires Valid() && publishing != []
      modifies this
      ensures View() == Publish(old(View())) && Valid()
      ensures |publishing| < |old(publishing)| && HandsOver(old(View()), View())
    {
      PublishGood(View());
      PublishHandsOver(View());
      HandOver();
    }

    /** The worker takes the next job off the queue. */
    method TakeJob()
      requires worker.Idle? && queue != []
      modifies this
      ensures View() == WorkerStep(old(View()))
    {
      worker := Popped(queue[0]);
      queue := queue[1..];
    }

    /** The last region of a decode. */
    method DecodeEnd(h: Handle)
      requires worker == Popped(DecodeSignal(h))
      modifies this
      ensures View() == WorkerStep(old(View()))
    {
      signals := signals[h := true];
      worker := Finished(worker.job);
    }

    /** The last region of an index pass: what was loaded or staged before is forgotten. */
    method IndexEnd(h: Handle)
      requires h in raws && worker == Popped(IndexRaw(h))
      modifies this
      ensures View() == WorkerStep(old(View()))
    {
      var built := IndexOf(raws[h].stream);
      raws := raws[h := raws[h].(index := built, ready := true)];
      raws := raws[h := raws[h].(loaded := false, stagedReady := false)];
      worker := Finished(worker.job);
    }

    /** The first region of a window load: what to read is settled under the lock. */
    method LoadWindowBegin(h: Handle)
      requires h in raws && worker == Popped(LoadWindow(h))
      modifies this
      ensures View() == WorkerStep(old(View()))
    {
      var r := raws[h].(requestQueued := false);
      raws := raws[h := r];
      if !r.ready || !r.wantValid || |r.index| == 0 || r.wantStart >= |r.index| {
        worker := Idle;
        return;
      }
      var start := r.wantStart;
      var next := FindWindowEnd(r.index, start);
      var from := r.index[start].t;
      var to := if next < |r.index| then Before(r.index[next].t) else tEnd;
      worker := Reading(h, start, TimeSlice(r.stream, from, to));
    }

    /** The last region: what was read is staged only if it is still what is wanted. */
    method LoadWindowEnd()
      requires worker.Reading? && worker.h in raws
      modifies this
      ensures View() == WorkerStep(old(View()))
    {
      var r := raws[worker.h];
      if r.wantValid && r.wantStart == worker.start {
        r := r.(staged := worker.data, stagedReady := true, loadedStart := worker.start);
      }
      raws := raws[worker.h := r];
      worker := Idle;
    }

    /** One region of the worker's loop, whichever it has come to. */
    method WorkOnce()
      requires Valid() && (worker.Idle? ==> queue != [])
      modifies this
      ensures Valid() && View() == WorkerStep(old(View()))
      ensures WorkLeft(View()) < WorkLeft(old(View())) && publishing == old(publishing)
    {
      WorkerGood(View());
      WorkerProgress(View());
      match worker
      case Idle => TakeJob();
      case Popped(DecodeSignal(h)) => DecodeEnd(h);
      case Popped(IndexRaw(h)) =>
        assert RawHandleOk(View(), h);
        IndexEnd(h);
      case Popped(LoadWindow(h)) =>
        assert RawHandleOk(View(), h);
        LoadWindowBegin(h);
      case Reading(h, _, _) =>
        assert RawHandleOk(View(), h);
        LoadWindowEnd();
      case Finished(_) =>
        pending := pending - 1;
        worker := Idle;
    }

    /** The worker left alone until it has nothing to do: then nothing is pending and
        every binding is ready. */
    method WorkUntilQuiet()
      requires Valid()
      modifies this
      ensures Valid() && View() == Drain(old(View())) && publishing == old(publishing)
      ensures worker.Idle? && queue == [] && pending == 0 && AllReady(View())
    {
      ghost var drained := Drain(View());
      while !(worker.Idle? && queue == [])
        invariant Valid() && Drain(View()) == drained && publishing == old(publishing)
        decreases WorkLeft(View())
      {
        WorkOnce();
      }
      ReadyAtZero(View());
    }

    /** One tick: the scan under the lock, then everything it found staged. */
    method TickOnce(position: int)
      requires Valid() && publishing == []
      modifies this
      ensures Valid() && publishing == [] && View() == Tick(old(View()), position)
    {
      RefillAllRaw(position, false);
      ghost var done := PublishAll(View());
      while publishing != []
        invariant Valid() && PublishAll(View()) == done
        decreases |publishing|
      {
        PublishNext();
      }
    }

    /** How many passes are left; at zero every binding is ready to be drawn. */
    method DecodesPending() returns (n: nat)
      requires Valid()
      ensures n == pending && (n == 0 ==> AllReady(View()))
    {
      if pending == 0 { ReadyAtZero(View()); }
      n := pending;
    }

    /** Whatever was queued, staged or half read before: once the position stands still,
        three rounds of work and tick leave nothing to do and every decodable raw buffer
        holding exactly the window for the position. */
    method Settle(position: int)
      requires Valid() && publishing == []
      modifies this
      ensures Valid() && Settled(View(), position) && boundRaws == old(boundRaws)
    {
      StandingConverges(View(), position);
      ghost var settled := Rounds(View(), position, 3);
      for i := 0 to 3
        invariant Valid() && publishing == []
        invariant Rounds(View(), position, 3 - i) == settled
      {
        WorkUntilQuiet();
        TickOnce(position);
      }
    }
  }
}
