/** The editor's undo and redo history over snapshots of a document it does not own. */
module EditorDocument {
  import opened Basics

  const MAX_HISTORY: nat := 100

  datatype EditSource = WidgetEdit | WindowEdit

  /** One entry of the history: a document, and what its widgets were called. */
  datatype Snapshot<D> = Snapshot(doc: D, names: seq<string>)

  /** Names are no part of the comparison. */
  predicate Same<D(==)>(a: Snapshot<D>, b: Snapshot<D>) {
    a.doc == b.doc
  }

  datatype History<D> = History(
    undoStack: seq<Snapshot<D>>,
    redoStack: seq<Snapshot<D>>,
    pending: Option<Snapshot<D>>,
    source: EditSource)

  /** A history together with the document its owner holds. */
  datatype Edited<D> = Edited(history: History<D>, current: Snapshot<D>)

  function Empty<D>(): History<D> {
    History([], [], None, WidgetEdit)
  }

  function Begin<D(==)>(h: History<D>, current: Snapshot<D>, source: EditSource): History<D> {
    var h' := if h.pending.Some? && h.source != source then Commit(h, current) else h;
    if h'.pending.Some? then h' else h'.(pending := Some(current), source := source)
  }

  function Commit<D(==)>(h: History<D>, current: Snapshot<D>): History<D> {
    if h.pending.None? then h
    else if Same(h.pending.value, current) then h.(pending := None)
    else
      var pushed := h.undoStack + [h.pending.value];
      h.(undoStack := if |pushed| > MAX_HISTORY then pushed[1..] else pushed, redoStack := [], pending := None)
  }

  function Undo<D>(e: Edited<D>): Edited<D> {
    var h := e.history;
    if h.undoStack == [] then e
    else
      var top := |h.undoStack| - 1;
      Edited(h.(undoStack := h.undoStack[..top], redoStack := h.redoStack + [e.current]), h.undoStack[top])
  }

  function Redo<D>(e: Edited<D>): Edited<D> {
    var h := e.history;
    if h.redoStack == [] then e
    else
      var top := |h.redoStack| - 1;
      Edited(h.(undoStack := h.undoStack + [e.current], redoStack := h.redoStack[..top]), h.redoStack[top])
  }

  // ------------------------------------------------------------------ object

  /** `current` is what the owner's capture returns at the time of the call; a target
      returned is what the owner is asked to apply. */
  class Document<D(==)> {
    var undoStack: seq<Snapshot<D>>
    var redoStack: seq<Snapshot<D>>
    var pending: Option<Snapshot<D>>
    var source: EditSource
    var saved: Snapshot<D>

    ghost function View(): History<D>
      reads this
    {
      History(undoStack, redoStack, pending, source)
    }

    constructor (saved: Snapshot<D>)
      ensures View() == Empty() && this.saved == saved
    {
      undoStack, redoStack, pending, source, this.saved := [], [], None, WidgetEdit, saved;
    }

    method BeginEdit(current: Snapshot<D>, from: EditSource)
      modifies this
      ensures View() == Begin(old(View()), current, from) && saved == old(saved)
    {
      if pending.Some? && source != from {
        CommitEdit(current);
      }
      if pending.None? {
        pending := Some(current);
        source := from;
      }
    }

    method CommitEdit(current: Snapshot<D>)
      modifies this
      ensures View() == Commit(old(View()), current) && saved == old(saved)
    {
      if pending.None? {
        return;
      }
      var before := pending.value;
      pending := None;
      if Same(before, current) {
        return;
      }
      undoStack := undoStack + [before];
      if |undoStack| > MAX_HISTORY {
        undoStack := undoStack[1..];
      }
      redoStack := [];
    }

    method UndoEdit(current: Snapshot<D>) returns (target: Option<Snapshot<D>>)
      modifies this
      ensures saved == old(saved) && (target.Some? <==> old(undoStack) != [])
      ensures Edited(View(), target.GetOr(current)) == Undo(Edited(old(View()), current))
    {
      if |undoStack| == 0 {
        return None;
      }
      redoStack := redoStack + [current];
      target := Some(undoStack[|undoStack| - 1]);
      undoStack := undoStack[..|undoStack| - 1];
    }

    method RedoEdit(current: Snapshot<D>) returns (target: Option<Snapshot<D>>)
      modifies this
      ensures saved == old(saved) && (target.Some? <==> old(redoStack) != [])
      ensures Edited(View(), target.GetOr(current)) == Redo(Edited(old(View()), current))
    {
      if |redoStack| == 0 {
        return None;
      }
      undoStack := undoStack + [current];
      target := Some(redoStack[|redoStack| - 1]);
      redoStack := redoStack[..|redoStack| - 1];
    }

    method ClearHistory()
      modifies this
      ensures View() == Empty().(source := old(source)) && saved == old(saved)
    {
      undoStack, redoStack, pending := [], [], None;
    }

    method MarkSaved(current: Snapshot<D>)
      modifies this`saved
      ensures saved == current
    {
      saved := current;
    }

    method IsDirty(current: Snapshot<D>) returns (dirty: bool)
      ensures dirty <==> current.doc != saved.doc
    {
      dirty := !Same(current, saved);
    }
  }

  // ---------------------------------------------------------------- timeline

  function Reversed<T>(s: seq<T>): (r: seq<T>)
    ensures |r| == |s|
  {
    if s == [] then [] else [s[|s| - 1]] + Reversed(s[..|s| - 1])
  }

  /** Every state the history can reach by undo and redo alone, in order. */
  function Timeline<D>(e: Edited<D>): seq<Snapshot<D>> {
    e.history.undoStack + [e.current] + Reversed(e.history.redoStack)
  }

  lemma ReversedSnoc<T>(s: seq<T>, x: T)
    ensures Reversed(s + [x]) == [x] + Reversed(s)
  {
    assert (s + [x])[..|s|] == s;
  }

  lemma UndoKeepsTimeline<D>(e: Edited<D>)
    ensures Timeline(Undo(e)) == Timeline(e)
  {
    if e.history.undoStack != [] {
      ReversedSnoc(e.history.redoStack, e.current);
    }
  }

  lemma RedoKeepsTimeline<D>(e: Edited<D>)
    ensures Timeline(Redo(e)) == Timeline(e)
  {
    var redo := e.history.redoStack;
    if redo != [] {
      ReversedSnoc(redo[..|redo| - 1], redo[|redo| - 1]);
      assert redo[..|redo| - 1] + [redo[|redo| - 1]] == redo;
    }
  }

  datatype Move = GoBack | GoForward

  function Moved<D>(e: Edited<D>, moves: seq<Move>): Edited<D>
    decreases |moves|
  {
    if moves == [] then e else Moved(if moves[0].GoBack? then Undo(e) else Redo(e), moves[1..])
  }

  function Step(at: nat, length: nat, move: Move): nat {
    if move.GoBack? then (if at == 0 then 0 else at - 1) else if at + 1 < length then at + 1 else at
  }

  function Cursor(at: nat, length: nat, moves: seq<Move>): nat
    decreases |moves|
  {
    if moves == [] then at else Cursor(Step(at, length, moves[0]), length, moves[1..])
  }

  /** Undo and redo in any order only move a cursor along a fixed timeline, stopping
      at its ends; the document is always the snapshot under the cursor. */
  lemma {:induction false} MovesFollowTimeline<D>(e: Edited<D>, moves: seq<Move>)
    ensures var e' := Moved(e, moves);
            && Timeline(e') == Timeline(e)
            && |e'.history.undoStack| == Cursor(|e.history.undoStack|, |Timeline(e)|, moves)
            && |e'.history.undoStack| < |Timeline(e)|
            && e'.current == Timeline(e)[|e'.history.undoStack|]
            && e'.history.pending == e.history.pending
    decreases |moves|
  {
    if moves != [] {
      UndoKeepsTimeline(e);
      RedoKeepsTimeline(e);
      MovesFollowTimeline(if moves[0].GoBack? then Undo(e) else Redo(e), moves[1..]);
    }
  }

  function Times(n: nat, move: Move): seq<Move> {
    seq(n, _ => move)
  }

  lemma {:induction false} CursorBackForward(at: nat, length: nat, n: nat, m: nat)
    requires at < length && n <= at
    ensures Cursor(at, length, Times(n, GoBack) + Times(m, GoForward)) == Cursor(at - n, length, Times(m, GoForward))
    decreases n
  {
    if n == 0 {
      assert Times(0, GoBack) + Times(m, GoForward) == Times(m, GoForward);
    } else {
      var moves := Times(n, GoBack) + Times(m, GoForward);
      assert moves[0] == GoBack && moves[1..] == Times(n - 1, GoBack) + Times(m, GoForward);
      CursorBackForward(at - 1, length, n - 1, m);
    }
  }

  lemma {:induction false} CursorForward(at: nat, length: nat, m: nat)
    requires at + m < length
    ensures Cursor(at, length, Times(m, GoForward)) == at + m
    decreases m
  {
    if m > 0 {
      assert Times(m, GoForward)[1..] == Times(m - 1, GoForward);
      CursorForward(at + 1, length, m - 1);
    }
  }

  /** n undos then n redos restore both the document and the history. */
  lemma UndoRedoRestores<D>(e: Edited<D>, n: nat)
    requires n <= |e.history.undoStack|
    ensures Moved(e, Times(n, GoBack) + Times(n, GoForward)) == e
  {
    var moves := Times(n, GoBack) + Times(n, GoForward);
    MovesFollowTimeline(e, moves);
    CursorBackForward(|e.history.undoStack|, |Timeline(e)|, n, n);
    CursorForward(|e.history.undoStack| - n, |Timeline(e)|, n);
    SameTimelineSamePlace(e, Moved(e, moves));
    MovesKeepSource(e, moves);
  }

  lemma {:induction false} MovesKeepSource<D>(e: Edited<D>, moves: seq<Move>)
    ensures Moved(e, moves).history.source == e.history.source
    decreases |moves|
  {
    if moves != [] {
      MovesKeepSource(if moves[0].GoBack? then Undo(e) else Redo(e), moves[1..]);
    }
  }

  lemma {:induction false} ReversedInjective<T>(a: seq<T>, b: seq<T>)
    requires Reversed(a) == Reversed(b)
    ensures a == b
    decreases |a|
  {
    assert |a| == |Reversed(a)| == |Reversed(b)| == |b|;
    if a != [] {
      assert Reversed(a)[1..] == Reversed(a[..|a| - 1]) && Reversed(b)[1..] == Reversed(b[..|b| - 1]);
      ReversedInjective(a[..|a| - 1], b[..|b| - 1]);
      assert a == a[..|a| - 1] + [Reversed(a)[0]] && b == b[..|b| - 1] + [Reversed(b)[0]];
    }
  }

  lemma SameTimelineSamePlace<D>(a: Edited<D>, b: Edited<D>)
    requires Timeline(a) == Timeline(b) && |a.history.undoStack| == |b.history.undoStack|
    ensures a.history.undoStack == b.history.undoStack && a.current == b.current && a.history.redoStack == b.history.redoStack
  {
    var n, t := |a.history.undoStack|, Timeline(a);
    assert t[..n] == a.history.undoStack && t[..n] == b.history.undoStack;
    assert t[n] == a.current == b.current;
    assert t[n + 1..] == Reversed(a.history.redoStack) && t[n + 1..] == Reversed(b.history.redoStack);
    ReversedInjective(a.history.redoStack, b.history.redoStack);
  }

  // ------------------------------------------------------------ editing runs

  /** Everything that can happen to a document and its history. A `Change` is any
      change the owner makes to what it holds. */
  datatype Event<D> =
    | DoBegin(source: EditSource)
    | Change(to: Snapshot<D>)
    | DoCommit
    | DoUndo
    | DoRedo
    | DoClear

  function Happen<D(==)>(e: Edited<D>, event: Event<D>): Edited<D> {
    match event
    case DoBegin(source) => e.(history := Begin(e.history, e.current, source))
    case Change(to) => e.(current := to)
    case DoCommit => e.(history := Commit(e.history, e.current))
    case DoUndo => Undo(e)
    case DoRedo => Redo(e)
    case DoClear => e.(history := Empty().(source := e.history.source))
  }

  function HappenAll<D(==)>(e: Edited<D>, events: seq<Event<D>>): Edited<D>
    decreases |events|
  {
    if events == [] then e else HappenAll(Happen(e, events[0]), events[1..])
  }

  ghost predicate Bounded<D>(h: History<D>) {
    |h.undoStack| + |h.redoStack| <= MAX_HISTORY
  }

  /** However an editing session goes, the two stacks together never pass the cap,
      though neither undo nor redo checks it. */
  lemma {:induction false} HistoryStaysBounded<D>(e: Edited<D>, events: seq<Event<D>>)
    requires Bounded(e.history)
    ensures Bounded(HappenAll(e, events).history)
    decreases |events|
  {
    if events != [] {
      HistoryStaysBounded(Happen(e, events[0]), events[1..]);
    }
  }

  /** Changes made between a begin and its commit, the begins of the same source and
      nothing else in between. */
  ghost predicate OneEdit<D>(events: seq<Event<D>>, source: EditSource) {
    forall i :: 0 <= i < |events| ==> events[i].Change? || events[i] == DoBegin(source)
  }

  lemma {:induction false} EditKeepsPending<D>(e: Edited<D>, events: seq<Event<D>>)
    requires e.history.pending.Some? && OneEdit(events, e.history.source)
    ensures HappenAll(e, events).history == e.history
    decreases |events|
  {
    if events != [] {
      EditKeepsPending(Happen(e, events[0]), events[1..]);
    }
  }

  /** However many begins of one source and changes an edit takes, it is one step:
      one undo after a commit that changed the document gives back exactly what was
      there at the first begin, one redo gives the result again, and a commit that
      changed nothing leaves the history as it was. */
  lemma UndoRevertsEdit<D>(e: Edited<D>, source: EditSource, events: seq<Event<D>>)
    requires e.history.pending.None? && OneEdit(events, source)
    ensures var edited := HappenAll(Happen(e, DoBegin(source)), events);
            var done := Happen(edited, DoCommit);
            if Same(e.current, edited.current) then
              done == edited.(history := e.history.(source := source))
            else
              && Undo(done).current == e.current
              && Redo(Undo(done)) == done
              && done.history.redoStack == []
              && done.current == edited.current
  {
    EditKeepsPending(Happen(e, DoBegin(source)), events);
    var done := Happen(HappenAll(Happen(e, DoBegin(source)), events), DoCommit);
    if done.history.undoStack != [] {
      var undone := Undo(done).history.undoStack;
      assert undone + [e.current] == done.history.undoStack || Same(e.current, done.current);
    }
  }

  /** An edit that is still open when one from somewhere else begins is not joined by it:
      the two come back as two undo steps, each to what was there when it began. */
  lemma OtherSourceSplits<D>(e: Edited<D>, first: EditSource, events: seq<Event<D>>, second: EditSource, more: seq<Event<D>>)
    requires e.history.pending.None? && first != second && OneEdit(events, first) && OneEdit(more, second)
    ensures var middle := HappenAll(Happen(e, DoBegin(first)), events);
            var last := HappenAll(Happen(middle, DoBegin(second)), more);
            var done := Happen(last, DoCommit);
            !Same(e.current, middle.current) && !Same(middle.current, last.current) ==>
              && done.current == last.current
              && Undo(done).current == middle.current
              && Undo(Undo(done)).current == e.current
  {
    EditKeepsPending(Happen(e, DoBegin(first)), events);
    var middle := HappenAll(Happen(e, DoBegin(first)), events);
    assert middle.history.pending == Some(e.current) && middle.history.source == first;
    EditKeepsPending(Happen(middle, DoBegin(second)), more);
  }
}
