/** Once the position stops moving, alternating "the worker drains its queue" and
    "the GUI ticks" reaches the right window in at most three rounds. */
module RecordedConvergence {
  import opened Basics
  import opened GopWindow
  import opened RecordedSource
  import opened RecordedInvariant

  // --------------------------------------------------------------- the rounds

  function WorkLeft(s: State): nat {
    3 * |s.queue| + match s.worker
      case Idle => 0
      case Popped(_) => 2
      case Reading(_, _, _) => 1
      case Finished(_) => 1
  }

  /** The worker runs with nothing interrupting it until it has nothing to do. */
  function Drain(s: State): State
    decreases WorkLeft(s)
  {
    if WorkLeft(WorkerStep(s)) < WorkLeft(s) then Drain(WorkerStep(s)) else s
  }

  function PublishAll(s: State): State
    decreases |s.publishing|
  {
    if |Publish(s).publishing| < |s.publishing| then PublishAll(Publish(s)) else s
  }

  /** A tick at a standing position: one scan, then everything it found staged. */
  function Tick(s: State, position: int): State {
    PublishAll(Scan(s, position, false))
  }

  function Rounds(s: State, position: int, n: nat): State
    decreases n
  {
    if n == 0 then s else Rounds(Tick(Drain(s), position), position, n - 1)
  }

  ghost predicate Quiet(s: State) {
    s.worker.Idle? && s.queue == []
  }

  // ---------------------------------------------------------------- the drain

  lemma WorkerProgress(s: State)
    requires Inv(s) && !Quiet(s)
    ensures WorkLeft(WorkerStep(s)) < WorkLeft(s)
  {
    match s.worker {
      case Popped(IndexRaw(h)) => assert RawHandleOk(s, h);
      case Popped(LoadWindow(h)) => assert RawHandleOk(s, h);
      case Reading(h, _, _) => assert RawHandleOk(s, h);
      case _ =>
    }
  }

  /** What survives a drain: the bindings and what the GUI thread decided. */
  ghost predicate SameWants(s: State, s': State) {
    && s'.boundRaws == s.boundRaws && s'.publishing == s.publishing
    && s'.tEnd == s.tEnd && s'.nextHandle == s.nextHandle && s'.raws.Keys == s.raws.Keys
    && forall h :: h in s.raws ==>
         && s'.raws[h].stream == s.raws[h].stream && s'.raws[h].handed == s.raws[h].handed
         && s'.raws[h].wantStart == s.raws[h].wantStart && s'.raws[h].wantValid == s.raws[h].wantValid
  }

  lemma WorkerSameWants(s: State)
    ensures SameWants(s, WorkerStep(s))
  {
  }

  lemma {:induction false} DrainQuiets(s: State)
    requires Inv(s)
    ensures Inv(Drain(s)) && Quiet(Drain(s)) && SameWants(s, Drain(s))
    decreases WorkLeft(s)
  {
    if !Quiet(s) {
      WorkerProgress(s);
      WorkerKeeps(s);
      WorkerSameWants(s);
      DrainQuiets(WorkerStep(s));
    }
  }

  /** A request for `start` is on its way: queued, being read, or staged. */
  ghost predicate Coming(s: State, h: Handle, start: nat) {
    && h in s.boundRaws && h in s.raws
    && var r := s.raws[h];
    && r.ready && r.wantValid && r.wantStart == start
    && (|| r.requestQueued
        || (s.worker.Reading? && s.worker.h == h && s.worker.start == start)
        || (r.stagedReady && r.loadedStart == start))
  }

  lemma WorkerKeepsComing(s: State, h: Handle, start: nat)
    requires Inv(s) && Coming(s, h, start)
    ensures Coming(WorkerStep(s), h, start)
  {
    assert RawHandleOk(s, h);
    if s.worker.Popped? && s.worker.job == LoadWindow(h) {
      var r := s.raws[h];
      assert r.wantStart < |r.index|;
      assert WorkerStep(s).worker == Reading(h, start, ReadWindow(r.stream, r.index, s.tEnd, start));
    } else if s.worker.Reading? && s.worker.h == h {
      assert WorkerStep(s).raws[h] == StageOne(s.raws[h], s.worker.start, s.worker.data);
    } else if h in WorkerStep(s).raws && !(s.worker.Popped? && s.worker.job == IndexRaw(h)) {
      assert WorkerStep(s).raws[h] == s.raws[h];
    }
  }

  lemma {:induction false} DrainDelivers(s: State, h: Handle, start: nat)
    requires Inv(s) && Coming(s, h, start)
    ensures Coming(Drain(s), h, start)
    decreases WorkLeft(s)
  {
    if !Quiet(s) {
      WorkerProgress(s);
      WorkerKeeps(s);
      WorkerKeepsComing(s, h, start);
      DrainDelivers(WorkerStep(s), h, start);
    }
  }

  /** Nothing for this binding is queued or in the worker's hands. */
  ghost predicate Untouched(s: State, h: Handle) {
    && h in s.boundRaws && h in s.raws
    && s.raws[h].ready && !s.raws[h].requestQueued && !(s.worker.Reading? && s.worker.h == h)
  }

  lemma WorkerLeavesAlone(s: State, h: Handle)
    requires Inv(s) && Untouched(s, h)
    ensures Untouched(WorkerStep(s), h) && WorkerStep(s).raws[h] == s.raws[h]
  {
    assert RawHandleOk(s, h);
  }

  lemma {:induction false} DrainLeavesAlone(s: State, h: Handle)
    requires Inv(s) && Untouched(s, h)
    ensures Untouched(Drain(s), h) && Drain(s).raws[h] == s.raws[h]
    decreases WorkLeft(s)
  {
    if !Quiet(s) {
      WorkerProgress(s);
      WorkerKeeps(s);
      WorkerLeavesAlone(s, h);
      DrainLeavesAlone(WorkerStep(s), h);
    }
  }

  // ------------------------------------------------------------------ the tick

  lemma {:induction false} PublishAllKeeps(s: State)
    requires Inv(s)
    ensures Inv(PublishAll(s)) && PublishAll(s).publishing == []
    ensures PublishAll(s).worker == s.worker && PublishAll(s).boundRaws == s.boundRaws
    ensures PublishAll(s).raws.Keys == s.raws.Keys && PublishAll(s).queue == s.queue && PublishAll(s).tEnd == s.tEnd
    ensures forall h :: h in s.raws ==>
      PublishAll(s).raws[h] == if h in s.publishing then PublishOne(s.raws[h]) else s.raws[h]
    decreases |s.publishing|
  {
    if s.publishing != [] {
      assert RawHandleOk(s, s.publishing[0]);
      PublishKeeps(s);
      PublishAllKeeps(Publish(s));
      assert s.publishing == [s.publishing[0]] + s.publishing[1..];
      assert s.publishing[0] !in s.publishing[1..];
    }
  }

  /** What a tick does to one binding. */
  function TickOne(r: Raw, target: Option<nat>): Raw {
    if r.stagedReady then PublishOne(r) else ScanOne(r, target, false)
  }

  lemma TickIs(s: State, position: int, h: Handle)
    requires Inv(s) && s.publishing == [] && Quiet(s)
    requires h in s.boundRaws && h in s.raws
    ensures var s' := Tick(s, position);
            && Inv(s') && s'.publishing == [] && s'.worker.Idle?
            && s'.boundRaws == s.boundRaws && s'.raws.Keys == s.raws.Keys && s'.tEnd == s.tEnd
            && s'.queue == LoadJobs(InOrder(Asking(s, position), 0, s.nextHandle))
            && s'.raws[h] == TickOne(s.raws[h], GopStart(s.raws[h].index, position))
  {
    ScanKeeps(s, position, false);
    PublishAllKeeps(Scan(s, position, false));
    InOrderMembers(Staged(s), 0, s.nextHandle);
    assert RawHandleOk(s, h);
  }

  // ------------------------------------------------------- three rounds suffice

  /** Where the window for this position starts in the binding's whole stream. */
  ghost function Target(r: Raw, position: int): Option<nat> {
    GopStart(IndexOf(r.stream), position)
  }

  /** After one round: indexed, nothing staged, and any load queued is for the target. */
  ghost predicate Asked(r: Raw, position: int) {
    && r.ready && !r.stagedReady
    && (r.requestQueued ==> r.wantValid && Target(r, position) == Some(r.wantStart))
  }

  /** After two: moreover, unless that load is queued, the target is what was loaded last. */
  ghost predicate AskedOrThere(r: Raw, position: int) {
    && Asked(r, position)
    && (!r.requestQueued && Target(r, position).Some? ==> r.loaded && r.loadedStart == Target(r, position).value)
  }

  ghost predicate There(r: Raw, position: int) {
    AskedOrThere(r, position) && !r.requestQueued
  }

  ghost predicate Standing(s: State, h: Handle) {
    Inv(s) && s.publishing == [] && h in s.boundRaws && h in s.raws
  }

  function RoundOf(s: State, position: int): State {
    Tick(Drain(s), position)
  }

  /** A whole round, seen from one binding: drained, then ticked. */
  lemma RoundIs(s: State, position: int, h: Handle)
    requires Standing(s, h)
    ensures Standing(Drain(s), h) && Quiet(Drain(s))
    ensures var r := Drain(s).raws[h];
            r.ready && !r.requestQueued && r.stream == s.raws[h].stream && r.index == IndexOf(r.stream)
    ensures var s' := RoundOf(s, position);
            && Standing(s', h) && s'.worker.Idle? && s'.boundRaws == s.boundRaws && s'.tEnd == s.tEnd
            && s'.raws[h] == TickOne(Drain(s).raws[h], Target(s.raws[h], position))
  {
    DrainQuiets(s);
    TickIs(Drain(s), position, h);
    assert RawHandleOk(Drain(s), h);
  }

  lemma TickAsks(r: Raw, position: int)
    requires r.ready && !r.requestQueued
    ensures var r' := TickOne(r, Target(r, position));
            && r'.stream == r.stream
            && Asked(r', position)
            && (!r.stagedReady || Target(r, position) == Some(r.loadedStart) ==> AskedOrThere(r', position))
            && (r.stagedReady && Target(r, position) == Some(r.loadedStart) ==> There(r', position))
            && (There(r, position) ==> There(r', position))
  {
  }

  lemma FirstRound(s: State, position: int, h: Handle)
    requires Standing(s, h)
    ensures var s' := RoundOf(s, position);
            && Standing(s', h) && s'.worker.Idle? && s'.boundRaws == s.boundRaws && s'.tEnd == s.tEnd
            && s'.raws[h].stream == s.raws[h].stream
            && Asked(s'.raws[h], position)
  {
    RoundIs(s, position, h);
    TickAsks(Drain(s).raws[h], position);
  }

  lemma SecondRound(s: State, position: int, h: Handle)
    requires Standing(s, h) && s.worker.Idle? && Asked(s.raws[h], position)
    ensures Standing(RoundOf(s, position), h) && AskedOrThere(RoundOf(s, position).raws[h], position)
  {
    RoundIs(s, position, h);
    TickAsks(Drain(s).raws[h], position);
    if s.raws[h].requestQueued {
      DrainDelivers(s, h, s.raws[h].wantStart);
    } else {
      DrainLeavesAlone(s, h);
    }
  }

  lemma ThirdRound(s: State, position: int, h: Handle)
    requires Standing(s, h) && s.worker.Idle? && AskedOrThere(s.raws[h], position)
    ensures Standing(RoundOf(s, position), h) && There(RoundOf(s, position).raws[h], position)
  {
    RoundIs(s, position, h);
    TickAsks(Drain(s).raws[h], position);
    if s.raws[h].requestQueued {
      DrainDelivers(s, h, s.raws[h].wantStart);
    } else {
      DrainLeavesAlone(s, h);
    }
  }

  lemma ThreeRounds(s: State, position: int, h: Handle)
    requires Standing(s, h)
    ensures var s' := Rounds(s, position, 3);
            && Standing(s', h) && s'.worker.Idle? && s'.boundRaws == s.boundRaws && s'.tEnd == s.tEnd
            && s'.raws[h].stream == s.raws[h].stream
            && There(s'.raws[h], position)
  {
    var s1 := RoundOf(s, position);
    var s2 := RoundOf(s1, position);
    FirstRound(s, position, h);
    FirstRound(s1, position, h);
    SecondRound(s1, position, h);
    FirstRound(s2, position, h);
    ThirdRound(s2, position, h);
    var s3 := RoundOf(s2, position);
    assert Rounds(s3, position, 0) == s3;
    assert Rounds(s2, position, 1) == s3;
    assert Rounds(s1, position, 2) == s3;
    assert Rounds(s, position, 3) == s3;
  }

  lemma NothingQueued(s: State)
    requires Inv(s) && s.worker.Idle? && s.pending == 0
    requires forall h :: h in s.boundRaws ==> h in s.raws && !s.raws[h].requestQueued
    ensures s.queue == []
  {
    forall h
      ensures multiset(s.queue)[LoadWindow(h)] == 0
    {
      assert RawHandleOk(s, h);
    }
    assert s.queue == [] || multiset(s.queue)[s.queue[0]] > 0;
  }

  lemma {:induction false} PublishAllPending(s: State)
    ensures PublishAll(s).pending == s.pending
    decreases |s.publishing|
  {
    if |Publish(s).publishing| < |s.publishing| {
      PublishAllPending(Publish(s));
    }
  }

  lemma RoundPending(s: State, position: int)
    requires Inv(s) && s.publishing == []
    ensures var s' := RoundOf(s, position); 
            && Inv(s') && s'.publishing == [] && s'.worker.Idle? && s'.pending == 0 && s'.boundRaws == s.boundRaws
  {
    DrainQuiets(s);
    ScanKeeps(Drain(s), position, false);
    PublishAllKeeps(Scan(Drain(s), position, false));
    PublishAllPending(Scan(Drain(s), position, false));
  }

  lemma {:induction false} RoundsIdle(s: State, position: int, n: nat)
    requires Inv(s) && s.publishing == []
    ensures var s' := Rounds(s, position, n);
            && Inv(s') && s'.publishing == [] && s'.boundRaws == s.boundRaws
            && (n > 0 ==> s'.worker.Idle? && s'.pending == 0)
    decreases n
  {
    if n > 0 {
      RoundPending(s, position);
      RoundsIdle(RoundOf(s, position), position, n - 1);
    }
  }

  /** The last window handed to a raw buffer whose stream is decodable at the position
      is exactly the one the position selects. */
  ghost predicate ShowsPosition(r: Raw, tEnd: nat, position: int) {
    Target(r, position).Some? ==>
      && var start := Target(r, position).value;
      && start < |r.stream| && r.handed != []
      && r.handed[|r.handed| - 1] == Handed(start, Window(r.stream, tEnd, start))
  }

  /** No job, nothing staged, and every raw buffer shows the position. */
  ghost predicate Settled(s: State, position: int) {
    && Quiet(s) && s.publishing == []
    && forall h :: h in s.boundRaws ==>
         h in s.raws && !s.raws[h].stagedReady && ShowsPosition(s.raws[h], s.tEnd, position)
  }

  lemma ThereShows(s: State, position: int, h: Handle)
    requires Standing(s, h) && There(s.raws[h], position)
    ensures !s.raws[h].stagedReady && ShowsPosition(s.raws[h], s.tEnd, position)
  {
    assert RawHandleOk(s, h);
  }

  lemma StandingConverges(s: State, position: int)
    requires Inv(s) && s.publishing == []
    ensures var s' := Rounds(s, position, 3);
            && Settled(s', position) && s'.boundRaws == s.boundRaws
            && forall h :: h in s.boundRaws ==> h in s.raws && h in s'.raws && s'.raws[h].stream == s.raws[h].stream
  {
    var s' := Rounds(s, position, 3);
    forall h | h in s.boundRaws
      ensures h in s.raws && Standing(s', h) && s'.raws[h].stream == s.raws[h].stream && There(s'.raws[h], position)
    {
      assert RawHandleOk(s, h);
      ThreeRounds(s, position, h);
    }
    RoundsIdle(s, position, 3);
    forall h | h in s'.boundRaws
      ensures h in s'.raws && !s'.raws[h].stagedReady && ShowsPosition(s'.raws[h], s'.tEnd, position)
    {
      ThereShows(s', position, h);
    }
    NothingQueued(s');
  }

  /** From any reachable state in which the GUI thread is between operations, three
      rounds at a standing position leave no job and nothing staged, and the last
      window handed to every raw buffer whose stream is decodable there is exactly
      the one the position selects. */
  lemma Converges(tEnd: nat, events: seq<Event>, position: int)
    requires Run(Init(tEnd), events).publishing == []
    ensures var s, s' := Run(Init(tEnd), events), Rounds(Run(Init(tEnd), events), position, 3);
            && Settled(s', position) && s'.boundRaws == s.boundRaws
            && forall h :: h in s.boundRaws ==> h in s.raws && h in s'.raws && s'.raws[h].stream == s.raws[h].stream
  {
    RunKeeps(Init(tEnd), events);
    StandingConverges(Run(Init(tEnd), events), position);
  }

  // ---------------------------------------------------- scrubbing inside one GOP

  /** The window at `start` was the last handed over and nothing else is under way. */
  ghost predicate Showing(s: State, h: Handle, start: nat) {
    Untouched(s, h) && s.raws[h].loaded && s.raws[h].loadedStart == start && !s.raws[h].stagedReady
  }

  /** No scan wants a window of this binding but the one at `start`. */
  predicate StaysAt(index: seq<Entry>, e: Event, h: Handle, start: nat) {
    && (e.DoScan? ==> GopStart(index, e.position) in {None, Some(start)})
    && e != DoReleaseRaw(h)
  }

  lemma ScanStays(s: State, position: int, force: bool, h: Handle, start: nat)
    requires Inv(s) && Showing(s, h, start) && StaysAt(s.raws[h].index, DoScan(position, force), h, start)
    ensures Showing(Scan(s, position, force), h, start)
    ensures Scan(s, position, force).raws[h].handed == s.raws[h].handed
    ensures Scan(s, position, force).raws[h].index == s.raws[h].index
  {
    assert RawHandleOk(s, h);
  }

  lemma StepStays(s: State, e: Event, h: Handle, start: nat)
    requires Inv(s) && Showing(s, h, start) && StaysAt(s.raws[h].index, e, h, start)
    ensures Showing(Step(s, e), h, start)
    ensures Step(s, e).raws[h].handed == s.raws[h].handed && Step(s, e).raws[h].index == s.raws[h].index
  {
    assert RawHandleOk(s, h);
    match e {
      case DoWorker => WorkerLeavesAlone(s, h);
      case DoScan(position, force) => if s.publishing == [] { ScanStays(s, position, force, h, start); }
      case DoPublish => assert s.publishing != [] ==> s.publishing[0] != h;
      case _ =>
    }
  }

  lemma {:induction false} RunStays(s: State, events: seq<Event>, h: Handle, start: nat)
    requires Inv(s) && Showing(s, h, start)
    requires forall i :: 0 <= i < |events| ==> StaysAt(s.raws[h].index, events[i], h, start)
    ensures h in Run(s, events).raws && Run(s, events).raws[h].handed == s.raws[h].handed
    decreases |events|
  {
    if events != [] {
      StepKeeps(s, events[0]);
      StepStays(s, events[0], h, start);
      RunStays(Step(s, events[0]), events[1..], h, start);
    }
  }

  /** While positions stay inside the window being shown, forced or not, forwards or
      backwards, nothing is handed over again. */
  lemma ScrubHandsNothing(tEnd: nat, before: seq<Event>, events: seq<Event>, h: Handle, start: nat)
    requires Showing(Run(Init(tEnd), before), h, start)
    requires forall i :: 0 <= i < |events| ==> StaysAt(Run(Init(tEnd), before).raws[h].index, events[i], h, start)
    ensures var s := Run(Init(tEnd), before);
            h in Run(s, events).raws && Run(s, events).raws[h].handed == s.raws[h].handed
  {
    RunKeeps(Init(tEnd), before);
    RunStays(Run(Init(tEnd), before), events, h, start);
  }
}
