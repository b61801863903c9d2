/** What holds of the shared playback state after every interleaving. */
module RecordedInvariant {
  import opened Basics
  import opened GopWindow
  import opened RecordedSource

  // ------------------------------------------------------------ the invariant

  /** How often a job is queued, or popped and about to enter its first region. */
  ghost function Count(s: State, j: Job): nat {
    multiset(s.queue)[j] + if s.worker == Popped(j) then 1 else 0
  }

  ghost function Running(w: Worker): nat {
    if (w.Popped? || w.Finished?) && !w.job.LoadWindow? then 1 else 0
  }

  /** A place in the stream where some position's window starts. */
  ghost predicate SelectedStart(stream: seq<RawMessage>, start: nat) {
    start < |stream| && IsStart(IndexOf(stream), start)
  }

  /** The complete window of the index that some position selects. */
  ghost predicate IsWindow(stream: seq<RawMessage>, tEnd: nat, start: nat, messages: seq<RawMessage>) {
    SelectedStart(stream, start) && messages == Window(stream, tEnd, start)
  }

  ghost predicate AllWindows(stream: seq<RawMessage>, tEnd: nat, handed: seq<Handed>) {
    forall k :: 0 <= k < |handed| ==> IsWindow(stream, tEnd, handed[k].start, handed[k].messages)
  }

  /** One raw binding on its own: everything staged or handed over is one complete
      window of the index, named by the start recorded with it. */
  ghost predicate RawOk(r: Raw, tEnd: nat) {
    && (r.ready ==> r.index == IndexOf(r.stream))
    && (!r.ready ==> !r.stagedReady && !r.loaded && !r.wantValid && !r.requestQueued)
    && (r.wantValid ==> SelectedStart(r.stream, r.wantStart))
    && (r.stagedReady ==> IsWindow(r.stream, tEnd, r.loadedStart, r.staged))
    && (r.loaded && !r.stagedReady ==> r.handed != [] && r.handed[|r.handed| - 1].start == r.loadedStart)
    && AllWindows(r.stream, tEnd, r.handed)
  }

  ghost predicate SignalHandleOk(s: State, h: Handle) {
    && (h in s.boundSignals ==> h in s.signals)
    && (h in s.signals ==> h < s.nextHandle)
    && (Count(s, DecodeSignal(h)) > 0 ==> h in s.signals)
    && (h in s.boundSignals && !s.signals[h] ==> Count(s, DecodeSignal(h)) > 0)
  }

  ghost predicate RawJobsOk(s: State, h: Handle)
    requires h in s.raws
  {
    var r := s.raws[h];
    && Count(s, IndexRaw(h)) <= (if r.ready then 0 else 1)
    && (h in s.boundRaws && !r.ready ==> Count(s, IndexRaw(h)) == 1)
    && (h in s.boundRaws ==> Count(s, LoadWindow(h)) == if r.requestQueued then 1 else 0)
    && (s.worker.Reading? && s.worker.h == h ==> r.ready && IsWindow(r.stream, s.tEnd, s.worker.start, s.worker.data))
    && (h in s.publishing ==> h in s.boundRaws && r.stagedReady)
  }

  ghost predicate RawHandleOk(s: State, h: Handle) {
    && (h in s.boundRaws ==> h in s.raws)
    && (h !in s.boundRaws ==> multiset(s.queue)[LoadWindow(h)] == 0)
    && (if h in s.raws then h < s.nextHandle && RawOk(s.raws[h], s.tEnd) && RawJobsOk(s, h)
        else
          && Count(s, IndexRaw(h)) == 0 && Count(s, LoadWindow(h)) == 0
          && !(s.worker.Reading? && s.worker.h == h)
          && h !in s.publishing)
  }

  ghost predicate Distinct(hs: seq<Handle>) {
    forall j, k :: 0 <= j < k < |hs| ==> hs[j] != hs[k]
  }

  /** The count matches the queued passes plus the one being run; a finished job
      still to be counted down is always a pass. */
  ghost predicate PendingOk(s: State) {
    && s.pending == Passes(s.queue) + Running(s.worker)
    && (s.worker.Finished? ==> !s.worker.job.LoadWindow?)
  }

  ghost predicate Inv(s: State) {
    && PendingOk(s)
    && Distinct(s.publishing)
    && (forall h :: SignalHandleOk(s, h))
    && (forall h :: RawHandleOk(s, h))
  }

  // ----------------------------------------------------------- queue arithmetic

  lemma {:induction false} PassesAppend(a: seq<Job>, b: seq<Job>)
    ensures Passes(a + b) == Passes(a) + Passes(b)
  {
    if a == [] {
      assert a + b == b;
    } else {
      assert (a + b)[0] == a[0] && (a + b)[1..] == a[1..] + b;
      PassesAppend(a[1..], b);
    }
  }

  /** Erasing jobs removes all and only those, and the number of passes removed is
      what the count returned by the erasure says. */
  lemma {:induction false} Erased(queue: seq<Job>, dropped: set<Job>)
    ensures Passes(queue) == Passes(Without(queue, dropped)) + Passes(Only(queue, dropped))
    ensures forall j :: multiset(Without(queue, dropped))[j] == if j in dropped then 0 else multiset(queue)[j]
  {
    if queue == [] {
    } else {
      Erased(queue[1..], dropped);
      assert queue == [queue[0]] + queue[1..];
      if queue[0] in dropped {
        PassesAppend([queue[0]], Only(queue[1..], dropped));
      } else {
        PassesAppend([queue[0]], Without(queue[1..], dropped));
      }
    }
  }

  lemma {:induction false} InOrderMembers(hs: set<Handle>, from: Handle, limit: Handle)
    ensures forall h :: h in InOrder(hs, from, limit) <==> from <= h < limit && h in hs
    ensures forall j, k :: 0 <= j < k < |InOrder(hs, from, limit)| ==> InOrder(hs, from, limit)[j] != InOrder(hs, from, limit)[k]
    decreases limit - from
  {
    if from < limit {
      InOrderMembers(hs, from + 1, limit);
      var rest := InOrder(hs, from + 1, limit);
      assert forall k :: 0 <= k < |rest| ==> rest[k] in rest;
    }
  }

  lemma {:induction false} LoadJobsOf(hs: set<Handle>, from: Handle, limit: Handle)
    ensures Passes(LoadJobs(InOrder(hs, from, limit))) == 0
    ensures forall j :: multiset(LoadJobs(InOrder(hs, from, limit)))[j] == if j.LoadWindow? && from <= j.h < limit && j.h in hs then 1 else 0
    decreases limit - from
  {
    if from < limit {
      LoadJobsOf(hs, from + 1, limit);
      if from in hs {
        var rest := InOrder(hs, from + 1, limit);
        assert InOrder(hs, from, limit) == [from] + rest;
        assert ([from] + rest)[1..] == rest;
        PassesAppend([LoadWindow(from)], LoadJobs(rest));
      }
    }
  }

  // ------------------------------------------------------------- each region

  lemma BindKeeps(s: State)
    requires Inv(s) && s.publishing == []
    ensures Inv(Bind(s))
  {
    PassesAppend(s.queue, [DecodeSignal(s.nextHandle)]);
    forall h
      ensures SignalHandleOk(Bind(s), h) && RawHandleOk(Bind(s), h)
    {
      assert SignalHandleOk(s, h) && RawHandleOk(s, h);
    }
  }

  lemma BindRawKeeps(s: State, stream: seq<RawMessage>)
    requires Inv(s) && s.publishing == []
    ensures Inv(BindRaw(s, stream))
  {
    PassesAppend(s.queue, [IndexRaw(s.nextHandle)]);
    forall h
      ensures SignalHandleOk(BindRaw(s, stream), h) && RawHandleOk(BindRaw(s, stream), h)
    {
      assert SignalHandleOk(s, h) && RawHandleOk(s, h);
    }
  }

  lemma ErasedCount(queue: seq<Job>, dropped: set<Job>, j: Job)
    ensures multiset(Without(queue, dropped))[j] == if j in dropped then 0 else multiset(queue)[j]
  {
    Erased(queue, dropped);
  }

  lemma ReleaseHandle(s: State, h: Handle, k: Handle)
    requires s.publishing == [] && SignalHandleOk(s, k) && RawHandleOk(s, k)
    ensures SignalHandleOk(Release(s, h), k) && RawHandleOk(Release(s, h), k)
  {
    ErasedCount(s.queue, {DecodeSignal(h)}, DecodeSignal(k));
    ErasedCount(s.queue, {DecodeSignal(h)}, IndexRaw(k));
    ErasedCount(s.queue, {DecodeSignal(h)}, LoadWindow(k));
  }

  lemma ReleaseKeeps(s: State, h: Handle)
    requires Inv(s) && s.publishing == []
    ensures Inv(Release(s, h))
  {
    Erased(s.queue, {DecodeSignal(h)});
    forall k
      ensures SignalHandleOk(Release(s, h), k) && RawHandleOk(Release(s, h), k)
    {
      ReleaseHandle(s, h, k);
    }
  }

  lemma ReleaseRawSignal(s: State, h: Handle, k: Handle)
    requires SignalHandleOk(s, k)
    ensures SignalHandleOk(ReleaseRaw(s, h), k)
  {
    ErasedCount(s.queue, {IndexRaw(h), LoadWindow(h)}, DecodeSignal(k));
  }

  lemma ReleaseRawHandle(s: State, h: Handle, k: Handle)
    requires s.publishing == [] && RawHandleOk(s, k)
    ensures RawHandleOk(ReleaseRaw(s, h), k)
  {
    ErasedCount(s.queue, {IndexRaw(h), LoadWindow(h)}, IndexRaw(k));
    ErasedCount(s.queue, {IndexRaw(h), LoadWindow(h)}, LoadWindow(k));
  }

  lemma ReleaseRawKeeps(s: State, h: Handle)
    requires Inv(s) && s.publishing == []
    ensures Inv(ReleaseRaw(s, h))
  {
    Erased(s.queue, {IndexRaw(h), LoadWindow(h)});
    forall k
      ensures SignalHandleOk(ReleaseRaw(s, h), k) && RawHandleOk(ReleaseRaw(s, h), k)
    {
      ReleaseRawSignal(s, h, k);
      ReleaseRawHandle(s, h, k);
    }
  }

  lemma TargetSelected(stream: seq<RawMessage>, position: int)
    ensures var target := GopStart(IndexOf(stream), position); target.Some? ==> SelectedStart(stream, target.value)
  {
    var target := GopStart(IndexOf(stream), position);
    assert target.Some? ==> GopStart(IndexOf(stream), position) == Some(target.value);
  }

  /** A scan changes only what a binding wants, and wants only what it was asked for. */
  lemma ScanOneWants(r: Raw, target: Option<nat>, force: bool)
    ensures var r' := ScanOne(r, target, force);
            && r' == r.(wantStart := r'.wantStart, wantValid := r'.wantValid, requestQueued := r.requestQueued || Asks(r, target))
            && (!r.ready ==> r' == r)
            && (r'.wantValid ==> (r.wantValid && r'.wantStart == r.wantStart) || (r.ready && target == Some(r'.wantStart)))
  {
  }

  lemma WantingOk(r: Raw, tEnd: nat, start: nat, valid: bool, queued: bool)
    requires RawOk(r, tEnd) && (valid ==> SelectedStart(r.stream, start))
    requires r.ready || (!valid && !queued)
    ensures RawOk(r.(wantStart := start, wantValid := valid, requestQueued := queued), tEnd)
  {
  }

  lemma ScanOneKeeps(r: Raw, tEnd: nat, target: Option<nat>, force: bool)
    requires RawOk(r, tEnd)
    requires r.ready && target.Some? ==> SelectedStart(r.stream, target.value)
    ensures RawOk(ScanOne(r, target, force), tEnd)
    ensures ScanOne(r, target, force).requestQueued == (r.requestQueued || Asks(r, target))
    ensures ScanOne(r, target, force).stagedReady == r.stagedReady
    ensures ScanOne(r, target, force).ready == r.ready
    ensures ScanOne(r, target, force).stream == r.stream
  {
    var r' := ScanOne(r, target, force);
    ScanOneWants(r, target, force);
    WantingOk(r, tEnd, r'.wantStart, r'.wantValid, r'.requestQueued);
  }

  lemma ScanCount(s: State, position: int, force: bool, j: Job)
    ensures Count(Scan(s, position, force), j)
         == Count(s, j) + if j.LoadWindow? && j.h < s.nextHandle && j.h in Asking(s, position) then 1 else 0
  {
    LoadJobsOf(Asking(s, position), 0, s.nextHandle);
  }

  lemma ScanSignalHandle(s: State, position: int, force: bool, h: Handle)
    requires SignalHandleOk(s, h)
    ensures SignalHandleOk(Scan(s, position, force), h)
  {
    ScanCount(s, position, force, DecodeSignal(h));
  }

  lemma ScanRawHandle(s: State, position: int, force: bool, h: Handle)
    requires s.publishing == [] && RawHandleOk(s, h)
    ensures RawHandleOk(Scan(s, position, force), h)
  {
    ScanCount(s, position, force, IndexRaw(h));
    ScanCount(s, position, force, LoadWindow(h));
    InOrderMembers(Staged(s), 0, s.nextHandle);
    if h in s.raws {
      if s.raws[h].ready { TargetSelected(s.raws[h].stream, position); }
      ScanOneKeeps(s.raws[h], s.tEnd, GopStart(s.raws[h].index, position), force);
    }
  }

  lemma ScanKeeps(s: State, position: int, force: bool)
    requires Inv(s) && s.publishing == []
    ensures Inv(Scan(s, position, force))
  {
    LoadJobsOf(Asking(s, position), 0, s.nextHandle);
    InOrderMembers(Staged(s), 0, s.nextHandle);
    PassesAppend(s.queue, LoadJobs(InOrder(Asking(s, position), 0, s.nextHandle)));
    forall h
      ensures SignalHandleOk(Scan(s, position, force), h) && RawHandleOk(Scan(s, position, force), h)
    {
      ScanSignalHandle(s, position, force, h);
      ScanRawHandle(s, position, force, h);
    }
  }

  lemma PublishOneKeeps(r: Raw, tEnd: nat)
    requires RawOk(r, tEnd) && r.stagedReady
    ensures RawOk(PublishOne(r), tEnd)
  {
  }

  lemma PublishHandle(s: State, h: Handle)
    requires SignalHandleOk(s, h) && RawHandleOk(s, h) && Distinct(s.publishing)
    ensures SignalHandleOk(Publish(s), h) && RawHandleOk(Publish(s), h)
  {
    if h in s.raws && h in s.publishing {
      PublishOneKeeps(s.raws[h], s.tEnd);
    }
  }

  lemma PublishKeeps(s: State)
    requires Inv(s)
    ensures Inv(Publish(s))
  {
    forall h
      ensures SignalHandleOk(Publish(s), h) && RawHandleOk(Publish(s), h)
    {
      assert SignalHandleOk(s, h) && RawHandleOk(s, h);
      PublishHandle(s, h);
    }
  }

  lemma PopHandle(s: State, h: Handle)
    requires s.worker.Idle? && s.queue != []
    requires SignalHandleOk(s, h) && RawHandleOk(s, h)
    ensures SignalHandleOk(WorkerStep(s), h) && RawHandleOk(WorkerStep(s), h)
  {
    assert s.queue == [s.queue[0]] + s.queue[1..];
    assert forall j :: Count(WorkerStep(s), j) == Count(s, j);
  }

  lemma IndexHandle(s: State, h: Handle)
    requires s.worker.Popped? && s.worker.job.IndexRaw?
    requires SignalHandleOk(s, h) && RawHandleOk(s, h)
    ensures SignalHandleOk(WorkerStep(s), h) && RawHandleOk(WorkerStep(s), h)
  {
  }

  /** What a load reads for a wanted start is the window there. */
  lemma ReadsWindow(r: Raw, tEnd: nat)
    requires RawOk(r, tEnd) && r.ready && r.wantValid
    ensures r.wantStart < |r.index|
    ensures IsWindow(r.stream, tEnd, r.wantStart, ReadWindow(r.stream, r.index, tEnd, r.wantStart))
  {
  }

  lemma BeginLoadHandle(s: State, h: Handle)
    requires s.worker.Popped? && s.worker.job.LoadWindow?
    requires SignalHandleOk(s, h) && RawHandleOk(s, h)
    ensures SignalHandleOk(WorkerStep(s), h) && RawHandleOk(WorkerStep(s), h)
  {
    if h in s.raws {
      var r := s.raws[h];
      WantingOk(r, s.tEnd, r.wantStart, r.wantValid, false);
      if r.ready && r.wantValid { ReadsWindow(r, s.tEnd); }
    }
  }

  lemma EndLoadHandle(s: State, h: Handle)
    requires s.worker.Reading?
    requires SignalHandleOk(s, h) && RawHandleOk(s, h)
    ensures SignalHandleOk(WorkerStep(s), h) && RawHandleOk(WorkerStep(s), h)
  {
  }

  lemma WorkerHandle(s: State, h: Handle)
    requires SignalHandleOk(s, h) && RawHandleOk(s, h)
    ensures SignalHandleOk(WorkerStep(s), h) && RawHandleOk(WorkerStep(s), h)
  {
    match s.worker {
      case Idle => if s.queue != [] { PopHandle(s, h); }
      case Popped(DecodeSignal(_)) =>
      case Popped(IndexRaw(_)) => IndexHandle(s, h);
      case Popped(LoadWindow(_)) => BeginLoadHandle(s, h);
      case Reading(_, _, _) => EndLoadHandle(s, h);
      case Finished(_) =>
    }
  }

  lemma WorkerKeeps(s: State)
    requires Inv(s)
    ensures Inv(WorkerStep(s))
  {
    forall h
      ensures SignalHandleOk(WorkerStep(s), h) && RawHandleOk(WorkerStep(s), h)
    {
      WorkerHandle(s, h);
    }
  }

  lemma StepKeeps(s: State, e: Event)
    requires Inv(s)
    ensures Inv(Step(s, e))
  {
    if e.DoWorker? {
      WorkerKeeps(s);
    } else if e.DoPublish? {
      PublishKeeps(s);
    } else if s.publishing == [] {
      match e
      case DoBind => BindKeeps(s);
      case DoBindRaw(stream) => BindRawKeeps(s, stream);
      case DoRelease(h) => ReleaseKeeps(s, h);
      case DoReleaseRaw(h) => ReleaseRawKeeps(s, h);
      case DoScan(position, force) => ScanKeeps(s, position, force);
    }
  }

  // ------------------------------------------------------------ over all runs

  lemma {:induction false} RunKeeps(s: State, events: seq<Event>)
    requires Inv(s)
    ensures Inv(Run(s, events))
    decreases |events|
  {
    if events != [] {
      StepKeeps(s, events[0]);
      RunKeeps(Step(s, events[0]), events[1..]);
    }
  }

  /** Over every interleaving, each window ever handed to a raw buffer is one
      complete window of that stream's index. */
  lemma HandedWindowsAreComplete(tEnd: nat, events: seq<Event>, h: Handle)
    requires h in Run(Init(tEnd), events).raws
    ensures var s := Run(Init(tEnd), events); AllWindows(s.raws[h].stream, s.tEnd, s.raws[h].handed)
  {
    RunKeeps(Init(tEnd), events);
    assert RawHandleOk(Run(Init(tEnd), events), h);
  }

  /** For a stream in time order those are the index entries themselves, from a start
      that some position selects up to where its window ends, unless stamps tie at an
      edge. */
  lemma HandedWindowIsIndexRun(tEnd: nat, events: seq<Event>, h: Handle, k: nat)
    requires h in Run(Init(tEnd), events).raws && k < |Run(Init(tEnd), events).raws[h].handed|
    requires var s := Run(Init(tEnd), events); TimeOrdered(s.raws[h].stream, s.tEnd)
    ensures var s := Run(Init(tEnd), events);
            var stream, start := s.raws[h].stream, s.raws[h].handed[k].start;
            && start < |stream| && IsStart(IndexOf(stream), start)
            && (NoTieBefore(stream, start) && NoTieBefore(stream, WindowEnd(IndexOf(stream), start)) ==>
                  s.raws[h].handed[k].messages == stream[start..WindowEnd(IndexOf(stream), start)])
  {
    HandedWindowsAreComplete(tEnd, events, h);
    var s := Run(Init(tEnd), events);
    var handed := s.raws[h].handed[k];
    WindowIsRun(s.raws[h].stream, s.tEnd, handed.start);
    RunIsWindow(s.raws[h].stream, s.tEnd, handed.start);
  }

  /** Publishing hands over exactly the window `loadedStart` names at that moment. */
  lemma PublishHandsLoadedWindow(tEnd: nat, events: seq<Event>)
    requires Run(Init(tEnd), events).publishing != []
    ensures var s := Run(Init(tEnd), events);
            var h := s.publishing[0];
            && h in s.raws
            && var r, r' := s.raws[h], Publish(s).raws[h];
            && r.loadedStart < |r.stream|
            && r'.handed == r.handed + [Handed(r.loadedStart, Window(r.stream, s.tEnd, r.loadedStart))]
  {
    RunKeeps(Init(tEnd), events);
    var s := Run(Init(tEnd), events);
    assert RawHandleOk(s, s.publishing[0]);
  }

  /** The published count is exactly the whole-recording passes not finished yet,
      whatever was bound and released in between. */
  lemma PendingCountsPasses(tEnd: nat, events: seq<Event>)
    ensures var s := Run(Init(tEnd), events); s.pending == Passes(s.queue) + Running(s.worker)
  {
    RunKeeps(Init(tEnd), events);
  }

  lemma {:induction false} NoPasses(queue: seq<Job>, j: Job)
    requires Passes(queue) == 0 && !j.LoadWindow?
    ensures multiset(queue)[j] == 0
  {
    if queue != [] {
      NoPasses(queue[1..], j);
      assert queue == [queue[0]] + queue[1..];
    }
  }

  ghost predicate AllReady(s: State) {
    && (forall h :: h in s.boundSignals ==> h in s.signals && s.signals[h])
    && (forall h :: h in s.boundRaws ==> h in s.raws && s.raws[h].ready)
  }

  lemma ReadyAtZero(s: State)
    requires Inv(s) && s.pending == 0
    ensures AllReady(s)
  {
    forall h
      ensures h in s.boundSignals ==> h in s.signals && s.signals[h]
      ensures h in s.boundRaws ==> h in s.raws && s.raws[h].ready
    {
      assert SignalHandleOk(s, h) && RawHandleOk(s, h);
      NoPasses(s.queue, DecodeSignal(h));
      NoPasses(s.queue, IndexRaw(h));
    }
  }

  /** When the count reads zero every binding still in either map is ready. */
  lemma ZeroPendingMeansReady(tEnd: nat, events: seq<Event>)
    requires Run(Init(tEnd), events).pending == 0
    ensures AllReady(Run(Init(tEnd), events))
  {
    RunKeeps(Init(tEnd), events);
    ReadyAtZero(Run(Init(tEnd), events));
  }

  /** A binding never has more than one window load queued, and a released one has none. */
  lemma AtMostOneQueuedLoad(tEnd: nat, events: seq<Event>, h: Handle)
    ensures multiset(Run(Init(tEnd), events).queue)[LoadWindow(h)]
         <= if h in Run(Init(tEnd), events).boundRaws then 1 else 0
  {
    RunKeeps(Init(tEnd), events);
    assert RawHandleOk(Run(Init(tEnd), events), h);
  }
}
