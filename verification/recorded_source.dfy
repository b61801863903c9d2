/** The shared state of recorded playback: one worker thread and one GUI thread
    over a job queue. Every function below that takes and returns a `State` is one
    region executed under the mutex (or, for `Publish`, one region of the GUI
    thread followed by work on state only that thread touches). */
module RecordedSource {
  import opened Basics
  import opened GopWindow

  type Handle = nat

  // ------------------------------------------------------------ the recording

  datatype BagMessage = BagMessage(logTime: nat, key: string, schema: string, payload: Bytes)

  datatype RawMessage = RawMessage(t: nat, payload: Bytes, flags: nat)

  /** What a provider pass delivers for one key: messages of another key, or
      recorded under another schema, are skipped. */
  function StreamFor(recording: seq<BagMessage>, key: string, schema: string, classify: Bytes -> nat): seq<RawMessage> {
    if recording == [] then []
    else
      var m, rest := recording[0], StreamFor(recording[1..], key, schema, classify);
      if m.key != key || (m.schema != "" && m.schema != schema) then rest
      else [RawMessage(m.logTime, m.payload, classify(m.payload))] + rest
  }

  function EntryOf(m: RawMessage): Entry {
    Entry(m.t, m.flags % 2 == 1, m.flags / 2 % 2 == 1)
  }

  const SEEK_POINT: nat := 1
  const PREAMBLE: nat := 2

  /** The two lowest bits of the flags are what an entry keeps of them. */
  lemma FlagsRead(t: nat, payload: Bytes, seek: bool, preamble: bool, others: nat)
    ensures var flags := (if seek then SEEK_POINT else 0) + (if preamble then PREAMBLE else 0) + 4 * others;
            EntryOf(RawMessage(t, payload, flags)) == Entry(t, seek, preamble)
  {
    TwoBits(if seek then 1 else 0, (if preamble then 1 else 0) + 2 * others);
    TwoBits(if preamble then 1 else 0, others);
  }

  lemma TwoBits(low: nat, rest: nat)
    requires low < 2
    ensures (low + 2 * rest) % 2 == low && (low + 2 * rest) / 2 == rest
  {
  }

  function IndexOf(stream: seq<RawMessage>): (r: seq<Entry>)
    ensures |r| == |stream|
  {
    seq(|stream|, i requires 0 <= i < |stream| => EntryOf(stream[i]))
  }

  /** The messages with `from <= t <= to`: a provider range is closed at both ends. */
  function TimeSlice(stream: seq<RawMessage>, from: nat, to: nat): seq<RawMessage> {
    if stream == [] then []
    else if from <= stream[0].t <= to then [stream[0]] + TimeSlice(stream[1..], from, to)
    else TimeSlice(stream[1..], from, to)
  }

  /** What the provider hands over for a range: every key, in recorded order. */
  function ProviderRange(recording: seq<BagMessage>, from: nat, to: nat): seq<BagMessage> {
    if recording == [] then []
    else if from <= recording[0].logTime <= to then [recording[0]] + ProviderRange(recording[1..], from, to)
    else ProviderRange(recording[1..], from, to)
  }

  /** Reading a range of the whole recording and keeping one key's messages is cutting
      that key's stream by time. */
  lemma {:induction false} RangeThenFilter(
    recording: seq<BagMessage>, from: nat, to: nat, key: string, schema: string, classify: Bytes -> nat)
    ensures StreamFor(ProviderRange(recording, from, to), key, schema, classify)
         == TimeSlice(StreamFor(recording, key, schema, classify), from, to)
  {
    if recording != [] {
      var m, rest := recording[0], StreamFor(recording[1..], key, schema, classify);
      RangeThenFilter(recording[1..], from, to, key, schema, classify);
      if from <= m.logTime <= to {
        assert ([m] + ProviderRange(recording[1..], from, to))[1..] == ProviderRange(recording[1..], from, to);
      }
      assert ([RawMessage(m.logTime, m.payload, classify(m.payload))] + rest)[1..] == rest;
    }
  }

  lemma {:induction false} StreamForSnoc(
    recording: seq<BagMessage>, m: BagMessage, key: string, schema: string, classify: Bytes -> nat)
    ensures StreamFor(recording + [m], key, schema, classify)
         == StreamFor(recording, key, schema, classify) + StreamFor([m], key, schema, classify)
  {
    if recording != [] {
      assert (recording + [m])[0] == recording[0] && (recording + [m])[1..] == recording[1..] + [m];
      StreamForSnoc(recording[1..], m, key, schema, classify);
    } else {
      assert recording + [m] == [m];
    }
  }

  /** A message of one key, recorded under no schema or the one asked for, in a time range. */
  predicate Wanted(m: BagMessage, key: string, schema: string, from: nat, to: nat) {
    m.key == key && (m.schema == "" || m.schema == schema) && from <= m.logTime <= to
  }

  ghost predicate Increasing(places: seq<nat>, limit: nat) {
    && (forall j :: 0 <= j < |places| ==> places[j] < limit)
    && (forall i, j :: 0 <= i < j < |places| ==> places[i] < places[j])
  }

  /** The messages wanted, each once and in recorded order, at their own time and with their
      own payload. */
  ghost predicate Collected(
    recording: seq<BagMessage>, keep: seq<nat>, loaded: seq<RawMessage>,
    from: nat, to: nat, key: string, schema: string, classify: Bytes -> nat)
  {
    && Increasing(keep, |recording|) && |loaded| == |keep|
    && (forall j :: 0 <= j < |keep| ==>
          var m := recording[keep[j]];
          loaded[j] == RawMessage(m.logTime, m.payload, classify(m.payload)))
    && (forall i :: 0 <= i < |recording| ==> (i in keep <==> Wanted(recording[i], key, schema, from, to)))
  }

  lemma CollectedMore(
    recording: seq<BagMessage>, m: BagMessage, keep: seq<nat>, loaded: seq<RawMessage>,
    from: nat, to: nat, key: string, schema: string, classify: Bytes -> nat)
    requires Collected(recording, keep, loaded, from, to, key, schema, classify)
    ensures if Wanted(m, key, schema, from, to)
            then Collected(recording + [m], keep + [|recording|], loaded + [RawMessage(m.logTime, m.payload, classify(m.payload))],
                           from, to, key, schema, classify)
            else Collected(recording + [m], keep, loaded, from, to, key, schema, classify)
  {
    var all, keep' := recording + [m], keep + [|recording|];
    assert forall i :: 0 <= i < |recording| ==> all[i] == recording[i];
    assert keep'[|keep|] == |recording|;
    assert forall i :: 0 <= i < |recording| ==> (i in keep' <==> i in keep);
    assert forall j :: 0 <= j < |keep| ==> keep[j] < |recording|;
  }

  lemma {:induction false} TimeSliceSnoc(stream: seq<RawMessage>, m: RawMessage, from: nat, to: nat)
    ensures TimeSlice(stream + [m], from, to) == TimeSlice(stream, from, to) + if from <= m.t <= to then [m] else []
  {
    if stream == [] {
      assert stream + [m] == [m];
    } else {
      assert (stream + [m])[0] == stream[0] && (stream + [m])[1..] == stream[1..] + [m];
      TimeSliceSnoc(stream[1..], m, from, to);
    }
  }

  lemma SliceMore(front: seq<BagMessage>, m: BagMessage, from: nat, to: nat, key: string, schema: string, classify: Bytes -> nat)
    ensures TimeSlice(StreamFor(front + [m], key, schema, classify), from, to)
         == TimeSlice(StreamFor(front, key, schema, classify), from, to)
            + if Wanted(m, key, schema, from, to) then [RawMessage(m.logTime, m.payload, classify(m.payload))] else []
  {
    var stream, raw := StreamFor(front, key, schema, classify), RawMessage(m.logTime, m.payload, classify(m.payload));
    StreamForSnoc(front, m, key, schema, classify);
    OneMessage(m, key, schema, classify);
    if m.key == key && (m.schema == "" || m.schema == schema) {
      TimeSliceSnoc(stream, raw, from, to);
    } else {
      assert stream + [] == stream;
    }
  }

  lemma OneMessage(m: BagMessage, key: string, schema: string, classify: Bytes -> nat)
    ensures StreamFor([m], key, schema, classify) ==
      if m.key == key && (m.schema == "" || m.schema == schema) then [RawMessage(m.logTime, m.payload, classify(m.payload))] else []
  {
    assert [m][1..] == [];
  }

  /** Cutting a key's stream by time keeps exactly the wanted messages. */
  lemma {:induction false} SliceCollects(
    recording: seq<BagMessage>, from: nat, to: nat, key: string, schema: string, classify: Bytes -> nat) returns (keep: seq<nat>)
    ensures Collected(recording, keep, TimeSlice(StreamFor(recording, key, schema, classify), from, to),
                      from, to, key, schema, classify)
  {
    keep := [];
    if recording != [] {
      var n := |recording| - 1;
      var front, m := recording[..n], recording[n];
      assert recording == front + [m];
      keep := SliceCollects(front, from, to, key, schema, classify);
      var before := TimeSlice(StreamFor(front, key, schema, classify), from, to);
      CollectedMore(front, m, keep, before, from, to, key, schema, classify);
      SliceMore(front, m, from, to, key, schema, classify);
      if Wanted(m, key, schema, from, to) {
        keep := keep + [n];
      } else {
        assert before + [] == before;
      }
    }
  }

  /** The worker's pass over a range, outside the lock: it collects exactly the part of
      the key's stream that lies in the range. */
  method CollectWindow(recording: seq<BagMessage>, from: nat, to: nat, key: string, schema: string, classify: Bytes -> nat)
    returns (loaded: seq<RawMessage>)
    ensures loaded == TimeSlice(StreamFor(recording, key, schema, classify), from, to)
    ensures exists keep :: Collected(recording, keep, loaded, from, to, key, schema, classify)
  {
    var visited := ProviderRange(recording, from, to);
    loaded := [];
    for i := 0 to |visited|
      invariant loaded == StreamFor(visited[..i], key, schema, classify)
    {
      var m := visited[i];
      StreamForSnoc(visited[..i], m, key, schema, classify);
      assert visited[..i + 1] == visited[..i] + [m];
      if m.key != key {
        continue;
      }
      if m.schema != "" && m.schema != schema {
        continue;
      }
      loaded := loaded + [RawMessage(m.logTime, m.payload, classify(m.payload))];
    }
    assert visited[..|visited|] == visited;
    RangeThenFilter(recording, from, to, key, schema, classify);
    ghost var keep := SliceCollects(recording, from, to, key, schema, classify);
  }

  /** Unsigned 64-bit decrement. */
  function Before(t: nat): nat {
    if t == 0 then 0xFFFF_FFFF_FFFF_FFFF else t - 1
  }

  function ReadWindow(stream: seq<RawMessage>, index: seq<Entry>, tEnd: nat, start: nat): seq<RawMessage>
    requires start < |index|
  {
    var next := WindowEnd(index, start);
    TimeSlice(stream, index[start].t, if next < |index| then Before(index[next].t) else tEnd)
  }

  /** The window of the index that starts at `start`. */
  function Window(stream: seq<RawMessage>, tEnd: nat, start: nat): seq<RawMessage>
    requires start < |stream|
  {
    ReadWindow(stream, IndexOf(stream), tEnd, start)
  }

  // --------------------------------------------------------------- the state

  /** A window given to a raw buffer, and the window start it was given under. */
  datatype Handed = Handed(start: nat, messages: seq<RawMessage>)

  datatype Raw = Raw(
    stream: seq<RawMessage>,
    index: seq<Entry>,
    ready: bool,
    wantStart: nat,
    wantValid: bool,
    requestQueued: bool,
    loadedStart: nat,
    loaded: bool,
    staged: seq<RawMessage>,
    stagedReady: bool,
    handed: seq<Handed>)

  datatype Job = DecodeSignal(h: Handle) | IndexRaw(h: Handle) | LoadWindow(h: Handle)

  datatype Worker =
    | Idle
    | Popped(job: Job)
    | Reading(h: Handle, start: nat, data: seq<RawMessage>)
    | Finished(job: Job)

  /** Binding objects outlive their map entry while a job still refers to them, so
      the objects (`signals`, `raws`) and the maps' keys are kept apart. */
  datatype State = State(
    tEnd: nat,
    signals: map<Handle, bool>,
    raws: map<Handle, Raw>,
    boundSignals: set<Handle>,
    boundRaws: set<Handle>,
    nextHandle: Handle,
    queue: seq<Job>,
    pending: int,
    worker: Worker,
    publishing: seq<Handle>)

  function Init(tEnd: nat): State {
    State(tEnd, map[], map[], {}, {}, 1, [], 0, Idle, [])
  }

  function NewRaw(stream: seq<RawMessage>): Raw {
    Raw(stream, [], false, 0, false, false, 0, false, [], false, [])
  }

  // ------------------------------------------------------------- the GUI thread

  function Bind(s: State): State {
    s.(signals := s.signals[s.nextHandle := false],
       boundSignals := s.boundSignals + {s.nextHandle},
       nextHandle := s.nextHandle + 1,
       queue := s.queue + [DecodeSignal(s.nextHandle)],
       pending := s.pending + 1)
  }

  function BindRaw(s: State, stream: seq<RawMessage>): State {
    s.(raws := s.raws[s.nextHandle := NewRaw(stream)],
       boundRaws := s.boundRaws + {s.nextHandle},
       nextHandle := s.nextHandle + 1,
       queue := s.queue + [IndexRaw(s.nextHandle)],
       pending := s.pending + 1)
  }

  function Without(queue: seq<Job>, dropped: set<Job>): seq<Job> {
    if queue == [] then []
    else if queue[0] in dropped then Without(queue[1..], dropped)
    else [queue[0]] + Without(queue[1..], dropped)
  }

  /** The whole-recording passes among some jobs; window loads are not counted. */
  function Passes(queue: seq<Job>): nat {
    if queue == [] then 0 else (if queue[0].LoadWindow? then 0 else 1) + Passes(queue[1..])
  }

  function Only(queue: seq<Job>, kept: set<Job>): seq<Job> {
    if queue == [] then []
    else if queue[0] in kept then [queue[0]] + Only(queue[1..], kept)
    else Only(queue[1..], kept)
  }

  function Release(s: State, h: Handle): State {
    if h !in s.boundSignals then s
    else
      s.(boundSignals := s.boundSignals - {h},
         queue := Without(s.queue, {DecodeSignal(h)}),
         pending := s.pending - Passes(Only(s.queue, {DecodeSignal(h)})))
  }

  function ReleaseRaw(s: State, h: Handle): State {
    if h !in s.boundRaws then s
    else
      s.(boundRaws := s.boundRaws - {h},
         queue := Without(s.queue, {IndexRaw(h), LoadWindow(h)}),
         pending := s.pending - Passes(Only(s.queue, {IndexRaw(h), LoadWindow(h)})))
  }

  predicate Changed(r: Raw, start: nat) {
    !r.loaded || r.loadedStart != start
  }

  /** The first region of a raw refill, for one binding; `target` is where the
      window for the current position starts. */
  function ScanOne(r: Raw, target: Option<nat>, force: bool): Raw {
    if r.stagedReady || !r.ready then r
    else match target
      case None => r.(wantValid := false)
      case Some(start) =>
        if !Changed(r, start) && !force then r
        else r.(wantStart := start, wantValid := true, requestQueued := r.requestQueued || Changed(r, start))
  }

  predicate Asks(r: Raw, target: Option<nat>) {
    !r.stagedReady && r.ready && !r.requestQueued && target.Some? && Changed(r, target.value)
  }

  /** The members of a handle set in increasing order, as the maps iterate. */
  function InOrder(hs: set<Handle>, from: Handle, limit: Handle): seq<Handle>
    decreases limit - from
  {
    if limit <= from then []
    else if from in hs then [from] + InOrder(hs, from + 1, limit)
    else InOrder(hs, from + 1, limit)
  }

  function LoadJobs(hs: seq<Handle>): seq<Job> {
    if hs == [] then [] else [LoadWindow(hs[0])] + LoadJobs(hs[1..])
  }

  function Asking(s: State, position: int): set<Handle> {
    set h | h in s.boundRaws && h in s.raws && Asks(s.raws[h], GopStart(s.raws[h].index, position))
  }

  function Staged(s: State): set<Handle> {
    set h | h in s.boundRaws && h in s.raws && s.raws[h].stagedReady
  }

  function Scan(s: State, position: int, force: bool): State {
    s.(raws := map h | h in s.raws :: 
         if h in s.boundRaws then ScanOne(s.raws[h], GopStart(s.raws[h].index, position), force) else s.raws[h],
       queue := s.queue + LoadJobs(InOrder(Asking(s, position), 0, s.nextHandle)),
       publishing := InOrder(Staged(s), 0, s.nextHandle))
  }

  function PublishOne(r: Raw): Raw {
    r.(handed := r.handed + [Handed(r.loadedStart, r.staged)], staged := [], stagedReady := false, loaded := true)
  }

  function Publish(s: State): State {
    if s.publishing == [] || s.publishing[0] !in s.raws then s
    else s.(raws := s.raws[s.publishing[0] := PublishOne(s.raws[s.publishing[0]])], publishing := s.publishing[1..])
  }

  // --------------------------------------------------------- the worker thread

  function IndexOne(r: Raw): Raw {
    r.(index := IndexOf(r.stream), ready := true, loaded := false, stagedReady := false)
  }

  function BeginLoad(s: State, h: Handle): State
    requires h in s.raws
  {
    var r := s.raws[h].(requestQueued := false);
    s.(raws := s.raws[h := r],
       worker :=
         if !r.ready || !r.wantValid || r.wantStart >= |r.index| then Idle
         else Reading(h, r.wantStart, ReadWindow(r.stream, r.index, s.tEnd, r.wantStart)))
  }

  function StageOne(r: Raw, start: nat, data: seq<RawMessage>): Raw {
    if r.wantValid && r.wantStart == start then r.(staged := data, stagedReady := true, loadedStart := start) else r
  }

  function WorkerStep(s: State): State {
    match s.worker
    case Idle =>
      if s.queue == [] then s else s.(worker := Popped(s.queue[0]), queue := s.queue[1..])
    case Popped(DecodeSignal(h)) =>
      s.(signals := s.signals[h := true], worker := Finished(s.worker.job))
    case Popped(IndexRaw(h)) =>
      if h !in s.raws then s
      else s.(raws := s.raws[h := IndexOne(s.raws[h])], worker := Finished(s.worker.job))
    case Popped(LoadWindow(h)) =>
      if h !in s.raws then s else BeginLoad(s, h)
    case Reading(h, start, data) =>
      if h !in s.raws then s
      else s.(raws := s.raws[h := StageOne(s.raws[h], start, data)], worker := Idle)
    case Finished(_) =>
      s.(pending := s.pending - 1, worker := Idle)
  }

  // ------------------------------------------------------------- interleavings

  datatype Event =
    | DoBind
    | DoBindRaw(stream: seq<RawMessage>)
    | DoRelease(h: Handle)
    | DoReleaseRaw(h: Handle)
    | DoScan(position: int, force: bool)
    | DoPublish
    | DoWorker

  /** The GUI thread starts nothing else until it has published every window its
      last scan found; the worker may run at any point. */
  function Step(s: State, e: Event): State {
    if e.DoWorker? then WorkerStep(s)
    else if e.DoPublish? then Publish(s)
    else if s.publishing != [] then s
    else match e
      case DoBind => Bind(s)
      case DoBindRaw(stream) => BindRaw(s, stream)
      case DoRelease(h) => Release(s, h)
      case DoReleaseRaw(h) => ReleaseRaw(s, h)
      case DoScan(position, force) => Scan(s, position, force)
      case _ => s
  }

  function Run(s: State, events: seq<Event>): State
    decreases |events|
  {
    if events == [] then s else Run(Step(s, events[0]), events[1..])
  }

  // ------------------------------------------------ windows as runs of messages

  /** How many leading messages are before `t`. */
  function FirstAt(stream: seq<RawMessage>, t: nat, k: nat := 0): (n: nat)
    requires k <= |stream|
    ensures k <= n <= |stream|
    ensures forall i :: k <= i < n ==> stream[i].t < t
    ensures n < |stream| ==> t <= stream[n].t
    decreases |stream| - k
  {
    if k == |stream| || t <= stream[k].t then k else FirstAt(stream, t, k + 1)
  }

  lemma {:induction false} TimeSliceIs(stream: seq<RawMessage>, from: nat, to: nat, lo: nat, hi: nat)
    requires lo <= hi <= |stream|
    requires forall i :: 0 <= i < lo ==> stream[i].t < from
    requires forall i :: lo <= i < hi ==> from <= stream[i].t <= to
    requires forall i :: hi <= i < |stream| ==> to < stream[i].t
    ensures TimeSlice(stream, from, to) == stream[lo..hi]
  {
    if stream != [] {
      var rest := stream[1..];
      if lo > 0 {
        TimeSliceIs(rest, from, to, lo - 1, hi - 1);
        assert rest[lo - 1..hi - 1] == stream[lo..hi];
      } else if hi > 0 {
        TimeSliceIs(rest, from, to, 0, hi - 1);
        assert [stream[0]] + rest[0..hi - 1] == stream[0..hi];
      } else {
        TimeSliceIs(rest, from, to, 0, 0);
      }
    }
  }

  /** Where a window load starts and ends in the stream: the first message stamped
      like the window's own start, and the first one stamped like the next one's. */
  function RunBegin(stream: seq<RawMessage>, start: nat): (lo: nat)
    requires start < |stream|
    ensures lo <= |stream|
  {
    FirstAt(stream, stream[start].t)
  }

  function RunEnd(stream: seq<RawMessage>, start: nat): (hi: nat)
    requires start < |stream|
    ensures hi <= |stream|
  {
    var next := WindowEnd(IndexOf(stream), start);
    if next < |stream| then FirstAt(stream, stream[next].t) else next
  }

  ghost predicate TimeOrdered(stream: seq<RawMessage>, tEnd: nat) {
    && (forall i, j :: 0 <= i < j < |stream| ==> stream[i].t <= stream[j].t)
    && (forall i :: 0 <= i < |stream| ==> 0 < stream[i].t <= tEnd)
  }

  lemma TimeSliceRun(stream: seq<RawMessage>, tEnd: nat, start: nat, next: nat)
    requires TimeOrdered(stream, tEnd) && start < next <= |stream|
    ensures var lo := FirstAt(stream, stream[start].t);
            var hi := if next < |stream| then FirstAt(stream, stream[next].t) else next;
            var to := if next < |stream| then stream[next].t - 1 else tEnd;
            lo <= hi && TimeSlice(stream, stream[start].t, to) == stream[lo..hi]
  {
    if next < |stream| {
      RunUpTo(stream, stream[start].t, stream[next].t);
    } else {
      RunToEnd(stream, tEnd, stream[start].t);
    }
  }

  lemma RunUpTo(stream: seq<RawMessage>, from: nat, until: nat)
    requires from <= until && 0 < until && forall i, j :: 0 <= i < j < |stream| ==> stream[i].t <= stream[j].t
    ensures FirstAt(stream, from) <= FirstAt(stream, until)
    ensures TimeSlice(stream, from, until - 1) == stream[FirstAt(stream, from)..FirstAt(stream, until)]
  {
    FirstAtSplits(stream, from);
    FirstAtSplits(stream, until);
    FirstAtOrder(stream, from, until);
    SliceBetween(stream, from, until, FirstAt(stream, from), FirstAt(stream, until));
  }

  lemma RunToEnd(stream: seq<RawMessage>, tEnd: nat, from: nat)
    requires TimeOrdered(stream, tEnd)
    ensures TimeSlice(stream, from, tEnd) == stream[FirstAt(stream, from)..|stream|]
  {
    FirstAtSplits(stream, from);
    SliceBetween(stream, from, tEnd + 1, FirstAt(stream, from), |stream|);
  }

  lemma SliceBetween(stream: seq<RawMessage>, from: nat, until: nat, lo: nat, hi: nat)
    requires 0 < until && lo <= hi <= |stream|
    requires forall i :: 0 <= i < |stream| ==> (stream[i].t < from <==> i < lo)
    requires forall i :: 0 <= i < |stream| ==> (stream[i].t < until <==> i < hi)
    ensures TimeSlice(stream, from, until - 1) == stream[lo..hi]
  {
    TimeSliceIs(stream, from, until - 1, lo, hi);
  }

  lemma FirstAtOrder(stream: seq<RawMessage>, a: nat, b: nat)
    requires a <= b
    ensures FirstAt(stream, a) <= FirstAt(stream, b)
  {
    var n := FirstAt(stream, b);
    assert n < |stream| ==> a <= stream[n].t;
  }

  lemma FirstAtSplits(stream: seq<RawMessage>, t: nat)
    requires forall i, j :: 0 <= i < j < |stream| ==> stream[i].t <= stream[j].t
    ensures forall i :: 0 <= i < |stream| ==> (stream[i].t < t <==> i < FirstAt(stream, t))
  {
    var n := FirstAt(stream, t);
    assert n < |stream| ==> forall i :: n <= i < |stream| ==> stream[n].t <= stream[i].t;
  }

  /** What a window load reads is that run of messages, whatever the stamps. */
  lemma WindowIsRun(stream: seq<RawMessage>, tEnd: nat, start: nat)
    requires start < |stream| && TimeOrdered(stream, tEnd)
    ensures RunBegin(stream, start) <= RunEnd(stream, start)
    ensures Window(stream, tEnd, start) == stream[RunBegin(stream, start)..RunEnd(stream, start)]
  {
    TimeSliceRun(stream, tEnd, start, WindowEnd(IndexOf(stream), start));
  }

  /** Nothing just before place `k` is stamped like the message there. */
  predicate NoTieBefore(stream: seq<RawMessage>, k: nat)
    requires k <= |stream|
  {
    k == 0 || k == |stream| || stream[k - 1].t < stream[k].t
  }

  /** The run is exactly the index entries from the window's start up to the next
      window's start if and only if no two messages are stamped alike there. */
  lemma RunIsWindow(stream: seq<RawMessage>, tEnd: nat, start: nat)
    requires start < |stream| && TimeOrdered(stream, tEnd)
    ensures RunBegin(stream, start) == start <==> NoTieBefore(stream, start)
    ensures var next := WindowEnd(IndexOf(stream), start); RunEnd(stream, start) == next <==> NoTieBefore(stream, next)
  {
    FirstAtIs(stream, start);
    var next := WindowEnd(IndexOf(stream), start);
    if next < |stream| { FirstAtIs(stream, next); }
  }

  lemma FirstAtIs(stream: seq<RawMessage>, k: nat)
    requires k < |stream|
    requires forall i, j :: 0 <= i < j < |stream| ==> stream[i].t <= stream[j].t
    ensures FirstAt(stream, stream[k].t) == k <==> (k == 0 || stream[k - 1].t < stream[k].t)
  {
    assert forall i :: 0 <= i < k ==> stream[i].t <= stream[k - 1].t;
  }

  /** Two messages stamped alike, the second of them a seek point. */
  const TIED: seq<RawMessage> := [RawMessage(1, [], 1), RawMessage(2, [], 0), RawMessage(2, [], 1)]

  const TIED_INDEX: seq<Entry> := [Entry(1, true, false), Entry(2, false, false), Entry(2, true, false)]

  lemma TiedIndex()
    ensures IndexOf(TIED) == TIED_INDEX && TimeOrdered(TIED, 9)
  {
  }

  lemma TiedFirstWindow()
    ensures GopStart(TIED_INDEX, 1) == Some(0) && WindowEnd(TIED_INDEX, 0) == 2
  {
    assert ReachedFrom(TIED_INDEX, 1, 1) == 1;
    assert NextSeek(TIED_INDEX, 2) == 2 && NextSeek(TIED_INDEX, 1) == 2;
  }

  lemma TiedSecondWindow()
    ensures GopStart(TIED_INDEX, 2) == Some(2) && WindowEnd(TIED_INDEX, 2) == 3
  {
    assert ReachedFrom(TIED_INDEX, 2, 3) == 3 && ReachedFrom(TIED_INDEX, 2, 2) == 3 && ReachedFrom(TIED_INDEX, 2, 1) == 3;
    assert NextSeek(TIED_INDEX, 3) == 3;
  }

  /** By the index the message before the tie belongs to the first window; by time it is
      read with the second. */
  lemma TieMovesMessage()
    ensures TimeOrdered(TIED, 9) && !NoTieBefore(TIED, 2)
    ensures GopStart(IndexOf(TIED), 1) == Some(0) && WindowEnd(IndexOf(TIED), 0) == 2 && Window(TIED, 9, 0) == TIED[0..1]
    ensures GopStart(IndexOf(TIED), 2) == Some(2) && Window(TIED, 9, 2) == TIED[1..3]
  {
    TiedIndex();
    TiedFirstWindow();
    TiedSecondWindow();
    TimeSliceIs(TIED, 1, 1, 0, 1);
    TimeSliceIs(TIED, 2, 9, 1, 3);
  }
}
