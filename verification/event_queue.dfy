/** Outbound work for the event channel: touch reports, control commands and
    keyframe requests, with the spacing of touch. */
module EventQueue {
  import opened Basics

  /** `coalescable` is true only for a move. */
  datatype TouchReport = TouchReport(x: real, y: real, down: bool, coalescable: bool)

  datatype Next =
    | Idle
    | SendKeyframe
    | SendControl(control: Bytes)
    | SendTouch(touch: TouchReport)
    | WaitTouch(wait: int)

  const MAX_QUEUED := 64
  /** Nanoseconds between touch reports. */
  const MIN_TOUCH_GAP := 8_000_000

  // -------------------------------------------------------------- state, steps

  datatype State = State(
    queue: seq<TouchReport>, controls: seq<Bytes>, keyframe: bool, lastSent: Option<int>, dropped: nat)

  const FRESH := State([], [], false, None, 0)

  predicate Coalesces(queue: seq<TouchReport>, r: TouchReport) {
    r.coalescable && queue != [] && queue[|queue| - 1].coalescable
  }

  predicate Accepts(s: State, r: TouchReport) {
    Coalesces(s.queue, r) || |s.queue| < MAX_QUEUED
  }

  function AfterTouch(s: State, r: TouchReport): State {
    if Coalesces(s.queue, r) then s.(queue := s.queue[|s.queue| - 1 := r])
    else if |s.queue| >= MAX_QUEUED then s.(dropped := s.dropped + 1)
    else s.(queue := s.queue + [r])
  }

  function AfterControl(s: State, c: Bytes): State {
    if |s.controls| >= MAX_QUEUED then s.(dropped := s.dropped + 1) else s.(controls := s.controls + [c])
  }

  /** How long the gate still holds touch back. */
  function Until(lastSent: Option<int>, now: int): (wait: int)
    ensures 0 <= wait
  {
    if lastSent.None? || now - lastSent.value >= MIN_TOUCH_GAP then 0
    else MIN_TOUCH_GAP - (now - lastSent.value)
  }

  function Taken(s: State, now: int): Next {
    if s.keyframe then SendKeyframe
    else if s.controls != [] then SendControl(s.controls[0])
    else if s.queue == [] then Idle
    else if Until(s.lastSent, now) > 0 then WaitTouch(Until(s.lastSent, now))
    else SendTouch(s.queue[0])
  }

  function AfterTake(s: State, now: int): State {
    match Taken(s, now)
    case SendKeyframe => s.(keyframe := false)
    case SendControl(_) => s.(controls := s.controls[1..])
    case SendTouch(_) => s.(queue := s.queue[1..], lastSent := Some(now))
    case _ => s
  }

  // -------------------------------------------------------------------- object

  class Queue {
    var queue: seq<TouchReport>
    var controlQueue: seq<Bytes>
    var keyframePending: bool
    var hasSent: bool
    var lastSent: int
    var dropped: nat

    ghost function Model(): State
      reads this
    {
      State(queue, controlQueue, keyframePending, if hasSent then Some(lastSent) else None, dropped)
    }

    constructor ()
      ensures Model() == FRESH
    {
      queue, controlQueue, keyframePending, hasSent, lastSent, dropped := [], [], false, false, 0, 0;
    }

    method PushTouch(report: TouchReport) returns (accepted: bool)
      modifies this
      ensures Model() == AfterTouch(old(Model()), report)
      ensures accepted <==> Accepts(old(Model()), report)
    {
      if report.coalescable && queue != [] && queue[|queue| - 1].coalescable {
        queue := queue[|queue| - 1 := report];
        return true;
      }
      if |queue| >= MAX_QUEUED {
        dropped := dropped + 1;
        return false;
      }
      queue := queue + [report];
      return true;
    }

    method PushControl(command: Bytes) returns (accepted: bool)
      modifies this
      ensures Model() == AfterControl(old(Model()), command)
      ensures accepted <==> |old(controlQueue)| < MAX_QUEUED
    {
      if |controlQueue| >= MAX_QUEUED {
        dropped := dropped + 1;
        return false;
      }
      controlQueue := controlQueue + [command];
      return true;
    }

    method RequestKeyframe()
      modifies this
      ensures Model() == old(Model()).(keyframe := true)
    {
      keyframePending := true;
    }

    /** Everything pending goes and the gate forgets; the drop count stays. */
    method Clear()
      modifies this
      ensures Model() == FRESH.(dropped := old(dropped))
    {
      queue, controlQueue, keyframePending, hasSent := [], [], false, false;
    }

    predicate HasWork()
      reads this
    {
      keyframePending || controlQueue != [] || queue != []
    }

    method Take(now: int) returns (next: Next)
      modifies this
      ensures next == Taken(old(Model()), now) && Model() == AfterTake(old(Model()), now)
      ensures next.Idle? <==> !old(HasWork())
      ensures next.WaitTouch? ==> Model() == old(Model())
      ensures old(keyframePending) ==>
        next == SendKeyframe && !keyframePending && controlQueue == old(controlQueue) && queue == old(queue)
      ensures !old(keyframePending) && old(controlQueue) != [] ==>
        next == SendControl(old(controlQueue)[0]) && controlQueue == old(controlQueue)[1..] && queue == old(queue)
      ensures !old(keyframePending) && old(controlQueue) == [] && old(queue) != [] ==>
        && next == (if next.WaitTouch? then next else SendTouch(old(queue)[0]))
        && (next.WaitTouch? <==> old(hasSent) && now - old(lastSent) < MIN_TOUCH_GAP)
        && (next.WaitTouch? ==> next.wait == MIN_TOUCH_GAP - (now - old(lastSent)))
        && (next.SendTouch? ==> queue == old(queue)[1..] && hasSent && lastSent == now)
    {
      if keyframePending {
        keyframePending := false;
        return SendKeyframe;
      }
      if controlQueue != [] {
        next := SendControl(controlQueue[0]);
        controlQueue := controlQueue[1..];
        return;
      }
      if queue == [] {
        return Idle;
      }
      var since := now - lastSent;
      var wait := if !hasSent || since >= MIN_TOUCH_GAP then 0 else MIN_TOUCH_GAP - since;
      if wait > 0 {
        return WaitTouch(wait);
      }
      next := SendTouch(queue[0]);
      queue := queue[1..];
      hasSent, lastSent := true, now;
    }
  }

  /** Waiting as long as told, with nothing more urgent arriving, gets the report out. */
  lemma WaitIsEnough(s: State, now: int, later: int)
    requires Taken(s, now).WaitTouch?
    ensures Taken(s, later) == SendTouch(s.queue[0]) <==> later >= now + Taken(s, now).wait
  {
  }

  /** How urgent what is handed out is. */
  function Urgency(next: Next): nat {
    match next
    case SendKeyframe => 3
    case SendControl(_) => 2
    case SendTouch(_) => 1
    case WaitTouch(_) => 1
    case Idle => 0
  }

  /** What is handed out is never less urgent than anything that waits. */
  lemma MostUrgentFirst(s: State, now: int)
    ensures s.keyframe ==> Urgency(Taken(s, now)) == 3
    ensures s.controls != [] ==> Urgency(Taken(s, now)) >= 2
    ensures s.queue != [] ==> Urgency(Taken(s, now)) >= 1
    ensures Urgency(Taken(s, now)) == 3 ==> s.keyframe
    ensures Urgency(Taken(s, now)) == 2 ==> s.controls != [] && !s.keyframe
    ensures Urgency(Taken(s, now)) == 1 ==> s.queue != [] && s.controls == [] && !s.keyframe
  {
  }

  // ----------------------------------------------------------------- whole runs

  datatype Step = Touch(report: TouchReport) | Control(command: Bytes) | Keyframe | Ask(now: int)

  /** The queue beside what has gone in and come out of it. */
  datatype Run = Run(
    state: State,
    accepted: seq<TouchReport>, sent: seq<TouchReport>, sentAt: seq<int>,
    commands: seq<Bytes>, sentCommands: seq<Bytes>,
    pushed: nat)

  const START := Run(FRESH, [], [], [], [], [], 0)

  function AfterStep(r: Run, step: Step): Run {
    match step
    case Touch(report) =>
      r.(state := AfterTouch(r.state, report),
         accepted := if Accepts(r.state, report) then r.accepted + [report] else r.accepted,
         pushed := r.pushed + 1)
    case Control(command) =>
      r.(state := AfterControl(r.state, command),
         commands := if |r.state.controls| < MAX_QUEUED then r.commands + [command] else r.commands,
         pushed := r.pushed + 1)
    case Keyframe => r.(state := r.state.(keyframe := true))
    case Ask(now) =>
      var next, after := Taken(r.state, now), r.(state := AfterTake(r.state, now));
      match next
      case SendTouch(touch) => after.(sent := r.sent + [touch], sentAt := r.sentAt + [now])
      case SendControl(command) => after.(sentCommands := r.sentCommands + [command])
      case _ => after
  }

  function AfterSteps(r: Run, steps: seq<Step>): Run
    decreases |steps|
  {
    if steps == [] then r else AfterSteps(AfterStep(r, steps[0]), steps[1..])
  }

  /** `keep` picks `part` out of `whole` in order, and whatever it leaves out is a move
      overtaken by the very next report, itself a move. */
  ghost predicate LosesOnlyMoves(keep: seq<nat>, part: seq<TouchReport>, whole: seq<TouchReport>) {
    && |keep| == |part|
    && (forall j :: 0 <= j < |keep| ==> keep[j] < |whole| && whole[keep[j]] == part[j])
    && (forall i, j :: 0 <= i < j < |keep| ==> keep[i] < keep[j])
    && (forall i :: 0 <= i < |whole| && i !in keep ==>
          whole[i].coalescable && i + 1 < |whole| && whole[i + 1].coalescable)
  }

  ghost predicate NoTwoMoves(queue: seq<TouchReport>) {
    forall i :: 0 <= i < |queue| - 1 ==> !(queue[i].coalescable && queue[i + 1].coalescable)
  }

  ghost predicate Spaced(times: seq<int>) {
    forall i :: 0 <= i < |times| - 1 ==> times[i + 1] - times[i] >= MIN_TOUCH_GAP
  }

  /** Everything about a run but which reports are missing. */
  ghost predicate Tallied(r: Run) {
    var s := r.state;
    && NoTwoMoves(s.queue) && |s.queue| <= MAX_QUEUED && |s.controls| <= MAX_QUEUED
    && r.sentCommands + s.controls == r.commands
    && |r.accepted| + |r.commands| + s.dropped == r.pushed
    && |r.sentAt| == |r.sent| && Spaced(r.sentAt)
    && s.lastSent == if r.sentAt == [] then None else Some(r.sentAt[|r.sentAt| - 1])
  }

  /** What holds of a run at every moment. */
  ghost predicate Orderly(r: Run, keep: seq<nat>) {
    LosesOnlyMoves(keep, r.sent + r.state.queue, r.accepted) && Tallied(r)
  }

  /** A report that joins the queue loses nothing. */
  lemma KeepAppend(keep: seq<nat>, part: seq<TouchReport>, whole: seq<TouchReport>, r: TouchReport)
    requires LosesOnlyMoves(keep, part, whole)
    ensures LosesOnlyMoves(keep + [|whole|], part + [r], whole + [r])
  {
    var keep', whole' := keep + [|whole|], whole + [r];
    assert keep'[|keep|] == |whole|;
    forall i | 0 <= i < |whole'| && i !in keep'
      ensures whole'[i].coalescable && i + 1 < |whole'| && whole'[i + 1].coalescable
    {
      assert i in keep ==> i in keep';
    }
  }

  /** A move that takes the place of a queued move loses that one alone. */
  lemma KeepReplace(keep: seq<nat>, part: seq<TouchReport>, whole: seq<TouchReport>, r: TouchReport)
    requires LosesOnlyMoves(keep, part, whole) && part != []
    requires part[|part| - 1].coalescable && r.coalescable
    ensures LosesOnlyMoves(keep[..|part| - 1] + [|whole|], part[..|part| - 1] + [r], whole + [r])
  {
    var last, n := |part| - 1, |whole|;
    var keep', whole' := keep[..last] + [n], whole + [r];
    assert keep'[last] == n;
    forall i | 0 <= i < |whole'| && i !in keep'
      ensures whole'[i].coalescable && i + 1 < |whole'| && whole'[i + 1].coalescable
    {
      if i in keep {
        var j :| 0 <= j < |keep| && keep[j] == i;
        assert forall k :: 0 <= k < last ==> keep'[k] == keep[k];
        assert j == last;
        assert i + 1 !in keep;
      }
    }
  }

  lemma AskTallied(r: Run, now: int)
    requires Tallied(r)
    ensures Tallied(AfterStep(r, Ask(now)))
  {
    var s := r.state;
    match Taken(s, now)
    case SendControl(command) =>
      assert r.sentCommands + [command] + s.controls[1..] == r.sentCommands + s.controls;
    case SendTouch(_) =>
      assert r.sentAt != [] ==> now - r.sentAt[|r.sentAt| - 1] >= MIN_TOUCH_GAP;
    case _ =>
  }

  /** Neither taking a move's place nor joining the queue puts two moves side by side. */
  lemma TouchNoTwoMoves(queue: seq<TouchReport>, r: TouchReport)
    requires NoTwoMoves(queue)
    ensures Coalesces(queue, r) ==> NoTwoMoves(queue[|queue| - 1 := r])
    ensures !Coalesces(queue, r) ==> NoTwoMoves(queue + [r])
  {
  }

  lemma TouchTallied(r: Run, report: TouchReport)
    requires Tallied(r)
    ensures Tallied(AfterStep(r, Touch(report)))
  {
    TouchNoTwoMoves(r.state.queue, report);
  }

  lemma ControlTallied(r: Run, command: Bytes)
    requires Tallied(r)
    ensures Tallied(AfterStep(r, Control(command)))
  {
    var r' := AfterStep(r, Control(command));
    assert r'.sentCommands + r'.state.controls == r'.commands by {
      ConcatAssoc(r.sentCommands, r.state.controls, [command]);
    }
    assert r' == r.(state := r'.state, commands := r'.commands, pushed := r.pushed + 1);
    assert r'.state == r.state.(controls := r'.state.controls, dropped := r'.state.dropped);
  }

  lemma KeyframeTallied(r: Run)
    requires Tallied(r)
    ensures Tallied(AfterStep(r, Keyframe))
  {
  }

  lemma StepTallied(r: Run, step: Step)
    requires Tallied(r)
    ensures Tallied(AfterStep(r, step))
  {
    match step
    case Touch(report) => TouchTallied(r, report);
    case Control(command) => ControlTallied(r, command);
    case Keyframe => KeyframeTallied(r);
    case Ask(now) => AskTallied(r, now);
  }

  lemma TouchKeeps(r: Run, keep: seq<nat>, report: TouchReport) returns (keep': seq<nat>)
    requires LosesOnlyMoves(keep, r.sent + r.state.queue, r.accepted)
    ensures var r' := AfterStep(r, Touch(report));
            LosesOnlyMoves(keep', r'.sent + r'.state.queue, r'.accepted)
  {
    var queue, part := r.state.queue, r.sent + r.state.queue;
    if Coalesces(queue, report) {
      keep' := keep[..|part| - 1] + [|r.accepted|];
      assert r.sent + queue[|queue| - 1 := report] == part[..|part| - 1] + [report];
      KeepReplace(keep, part, r.accepted, report);
    } else if |queue| < MAX_QUEUED {
      keep' := keep + [|r.accepted|];
      assert r.sent + (queue + [report]) == part + [report];
      KeepAppend(keep, part, r.accepted, report);
    } else {
      keep' := keep;
    }
  }

  lemma OtherKeeps(r: Run, step: Step)
    requires !step.Touch?
    ensures var r' := AfterStep(r, step);
            r'.sent + r'.state.queue == r.sent + r.state.queue && r'.accepted == r.accepted
  {
    var queue := r.state.queue;
    assert queue != [] ==> r.sent + [queue[0]] + queue[1..] == r.sent + queue;
  }

  /** Over any run of pushes and takes without a clear: the reports sent and the ones
      still queued are, in order, the accepted ones, and only moves overtaken by the
      next report are missing; commands come out first in, first out; what was pushed
      was accepted or counted as dropped; touch left no closer than the gap. */
  lemma {:induction false} EveryRunOrderly(r: Run, keep: seq<nat>, steps: seq<Step>) returns (keep': seq<nat>)
    requires Orderly(r, keep)
    ensures Orderly(AfterSteps(r, steps), keep')
    decreases |steps|
  {
    if steps == [] {
      keep' := keep;
    } else {
      var next := keep;
      if steps[0].Touch? {
        next := TouchKeeps(r, keep, steps[0].report);
      } else {
        OtherKeeps(r, steps[0]);
      }
      StepTallied(r, steps[0]);
      keep' := EveryRunOrderly(AfterStep(r, steps[0]), next, steps[1..]);
    }
  }

  /** The same from a fresh queue. */
  lemma EveryRunFromStart(steps: seq<Step>) returns (keep: seq<nat>)
    ensures Orderly(AfterSteps(START, steps), keep)
  {
    assert Orderly(START, []);
    keep := EveryRunOrderly(START, [], steps);
  }

  /** The presses and releases among some reports, in order. */
  function Presses(reports: seq<TouchReport>): seq<TouchReport> {
    if reports == [] then []
    else
      var front, last := Presses(reports[..|reports| - 1]), reports[|reports| - 1];
      if last.coalescable then front else front + [last]
  }

  lemma PressesSnoc(reports: seq<TouchReport>, r: TouchReport)
    ensures Presses(reports + [r]) == if r.coalescable then Presses(reports) else Presses(reports) + [r]
  {
    assert (reports + [r])[..|reports|] == reports;
  }

  /** One move for another at the end makes no difference to the presses. */
  lemma PressesReplace(reports: seq<TouchReport>, r: TouchReport)
    requires reports != [] && reports[|reports| - 1].coalescable && r.coalescable
    ensures Presses(reports[..|reports| - 1] + [r]) == Presses(reports)
  {
    PressesSnoc(reports[..|reports| - 1], r);
  }

  lemma TouchKeepsPresses(sent: seq<TouchReport>, queue: seq<TouchReport>, report: TouchReport)
    ensures Coalesces(queue, report) ==> Presses(sent + queue[|queue| - 1 := report]) == Presses(sent + queue)
    ensures !Coalesces(queue, report) ==>
      Presses(sent + (queue + [report])) == if report.coalescable then Presses(sent + queue) else Presses(sent + queue) + [report]
  {
    var part := sent + queue;
    if Coalesces(queue, report) {
      PressesReplace(part, report);
      assert sent + queue[|queue| - 1 := report] == part[..|part| - 1] + [report];
    } else {
      PressesSnoc(part, report);
      ConcatAssoc(sent, queue, [report]);
    }
  }

  lemma StepKeepsPresses(r: Run, step: Step)
    requires Presses(r.sent + r.state.queue) == Presses(r.accepted)
    ensures var r' := AfterStep(r, step); Presses(r'.sent + r'.state.queue) == Presses(r'.accepted)
  {
    if step.Touch? {
      PressesSnoc(r.accepted, step.report);
      TouchKeepsPresses(r.sent, r.state.queue, step.report);
    } else {
      OtherKeeps(r, step);
    }
  }

  lemma {:induction false} RunKeepsPresses(r: Run, steps: seq<Step>)
    requires Presses(r.sent + r.state.queue) == Presses(r.accepted)
    ensures var r' := AfterSteps(r, steps); Presses(r'.sent + r'.state.queue) == Presses(r'.accepted)
    decreases |steps|
  {
    if steps != [] {
      StepKeepsPresses(r, steps[0]);
      RunKeepsPresses(AfterStep(r, steps[0]), steps[1..]);
    }
  }

  /** Over every run without a clear the accepted presses and releases are, one for one
      and in order, those sent and those still queued. */
  lemma PressesSurvive(steps: seq<Step>)
    ensures var r := AfterSteps(START, steps); Presses(r.sent + r.state.queue) == Presses(r.accepted)
  {
    RunKeepsPresses(START, steps);
  }
}
