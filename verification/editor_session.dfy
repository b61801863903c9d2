/** The canvas and its history together: what undo and redo do to live widgets. */
module EditorSession {
  import opened Basics
  import opened EditorDocument
  import opened Canvas
  import opened EditorNames

  /** Everything a history can bring back is something the canvas can put back exactly. */
  ghost predicate AllCapturable(h: History<AppConfig>) {
    && (forall i :: 0 <= i < |h.undoStack| ==> Capturable(h.undoStack[i]))
    && (forall i :: 0 <= i < |h.redoStack| ==> Capturable(h.redoStack[i]))
    && (h.pending.Some? ==> Capturable(h.pending.value))
  }

  lemma BeginCapturable(h: History<AppConfig>, current: Snap, source: EditSource)
    requires AllCapturable(h) && Capturable(current)
    ensures AllCapturable(Begin(h, current, source))
  {
    CommitCapturable(h, current);
  }

  lemma CommitCapturable(h: History<AppConfig>, current: Snap)
    requires AllCapturable(h) && Capturable(current)
    ensures AllCapturable(Commit(h, current))
  {
  }

  lemma UndoCapturable(e: Session)
    requires AllCapturable(e.history) && Capturable(e.current)
    ensures AllCapturable(Undo(e).history) && Capturable(Undo(e).current)
    ensures AllCapturable(Redo(e).history) && Capturable(Redo(e).current)
  {
  }

  class Editor {
    const canvas: Canvas
    const history: Document<AppConfig>

    /** The document on the canvas, its history and the naming counter. */
    ghost function Now(): Naming
      reads canvas, canvas.items, history
    {
      Naming(Edited(history.View(), canvas.Capture()), canvas.nextNameIndex)
    }

    /** The live widgets and the two objects that hold them. */
    ghost function Footprint(): set<object>
      reads canvas
    {
      {canvas, history} + set f | f in canvas.items
    }

    ghost predicate Valid()
      reads canvas, canvas.items, history
    {
      canvas.Valid() && AllCapturable(history.View()) && Inv(canvas.spell, Now())
    }

    constructor (spell: Spelling)
      ensures Valid() && fresh(canvas) && fresh(history) && canvas.items == [] && canvas.spell == spell
      ensures Now().session.history == Empty() && Now().next == 0
    {
      var c := new Canvas(spell);
      var h := new Document<AppConfig>(c.Capture());
      canvas, history := c, h;
    }

    method BeginEdit(source: EditSource)
      requires Valid()
      modifies history
      ensures Now() == Apply(canvas.spell, old(Now()), Begins(source)) && Valid()
    {
      canvas.CaptureIsCapturable();
      BeginCapturable(history.View(), canvas.Capture(), source);
      ApplyKeeps(canvas.spell, Now(), Begins(source));
      history.BeginEdit(canvas.Capture(), source);
    }

    method CommitEdit()
      requires Valid()
      modifies history
      ensures Now() == Apply(canvas.spell, old(Now()), Commits) && Valid()
    {
      canvas.CaptureIsCapturable();
      CommitCapturable(history.View(), canvas.Capture());
      ApplyKeeps(canvas.spell, Now(), Commits);
      history.CommitEdit(canvas.Capture());
    }

    /** The snapshot onto the canvas. */
    method PutBack(s: Snap)
      requires canvas.Valid() && Capturable(s)
      modifies canvas, canvas.items
      ensures canvas.Valid() && canvas.Capture() == s
      ensures canvas.nextNameIndex == Max(old(canvas.nextNameIndex), |s.doc.widgets|)
      ensures forall f :: f in canvas.items ==> f in old(canvas.items) || fresh(f)
    {
      canvas.RestoreByDiff(s);
    }

    /** Undo on live widgets is undo on documents: what is captured afterwards is the
        snapshot itself, and the timeline does not change. */
    method UndoEdit() returns (done: bool)
      requires Valid()
      modifies Footprint()
      ensures Now() == Apply(canvas.spell, old(Now()), Undoes) && Valid()
      ensures done <==> old(history.undoStack) != []
      ensures Now().session == Undo(old(Now().session)) && Timeline(Now().session) == Timeline(old(Now().session))
      ensures fresh(Footprint() - old(Footprint()))
    {
      ghost var was := Now();
      canvas.CaptureIsCapturable();
      UndoCapturable(was.session);
      UndoKeepsTimeline(was.session);
      ApplyKeeps(canvas.spell, was, Undoes);
      var target := history.UndoEdit(canvas.Capture());
      if target.None? {
        return false;
      }
      PutBack(target.value);
      assert Now() == Apply(canvas.spell, was, Undoes);
      return true;
    }

    method RedoEdit() returns (done: bool)
      requires Valid()
      modifies Footprint()
      ensures Now() == Apply(canvas.spell, old(Now()), Redoes) && Valid()
      ensures done <==> old(history.redoStack) != []
      ensures Now().session == Redo(old(Now().session)) && Timeline(Now().session) == Timeline(old(Now().session))
      ensures fresh(Footprint() - old(Footprint()))
    {
      ghost var was := Now();
      canvas.CaptureIsCapturable();
      UndoCapturable(was.session);
      RedoKeepsTimeline(was.session);
      ApplyKeeps(canvas.spell, was, Redoes);
      var target := history.RedoEdit(canvas.Capture());
      if target.None? {
        return false;
      }
      PutBack(target.value);
      assert Now() == Apply(canvas.spell, was, Redoes);
      return true;
    }

    method Go(move: Move)
      requires Valid()
      modifies Footprint()
      ensures Valid() && Now().session == if move.GoBack? then Undo(old(Now().session)) else Redo(old(Now().session))
      ensures fresh(Footprint() - old(Footprint()))
    {
      var done: bool;
      if move.GoBack? {
        done := UndoEdit();
      } else {
        done := RedoEdit();
      }
    }

    /** Any mix of undo and redo leaves on the canvas exactly the snapshot under the
        cursor of a timeline that stays as it was. */
    method Travel(moves: seq<Move>)
      requires Valid()
      modifies Footprint()
      ensures Valid() && Now().session == Moved(old(Now().session), moves)
      ensures UnderCursor(old(Now().session), moves, canvas.Capture())
      decreases |moves|
    {
      MovesFollowTimeline(Now().session, moves);
      if moves != [] {
        Go(moves[0]);
        Travel(moves[1..]);
      }
    }

    /** The drop itself, inside its transaction. */
    method Drop(kind: Kind, rect: Rect) returns (frame: Frame)
      requires Valid() && kind != UNKNOWN
      modifies canvas
      ensures Now() == Apply(canvas.spell, old(Now()), Adds(kind, rect)) && Valid()
      ensures frame in canvas.items && fresh(frame) && frame.name == Derived(canvas.spell, kind, old(Now()).next)
    {
      ApplyKeeps(canvas.spell, Now(), Adds(kind, rect));
      frame := canvas.AddWidget(kind, rect);
      assert canvas.Capture().names[|canvas.items| - 1] == frame.name;
    }

    /** A palette drop as one undo step. The derived name is nobody else's, on the canvas
        or in the history, unless somebody chose it as an explicit id. */
    method AddWidget(kind: Kind, rect: Rect) returns (frame: Frame?)
      requires Valid()
      modifies canvas, history
      ensures Valid() && (frame == null <==> kind == UNKNOWN)
      ensures kind == UNKNOWN ==> Now() == old(Now())
      ensures kind != UNKNOWN ==>
        && Now() == Added(canvas.spell, old(Now()), kind, rect)
        && frame in canvas.items && fresh(frame)
        && frame.name == Derived(canvas.spell, kind, old(Now()).next)
      ensures FreshEverywhere(canvas.spell, old(Now()), kind)
    {
      NextNameFresh(canvas.spell, Now(), kind);
      if kind == UNKNOWN {
        return null;
      }
      BeginEdit(WidgetEdit);
      frame := Drop(kind, rect);
      CommitEdit();
    }

    /** Taking one frame off the canvas, inside its transaction. */
    method TakeOff(frame: Frame, ghost at: nat)
      requires Valid() && at < |canvas.items| && canvas.items[at] == frame
      modifies canvas, frame
      ensures Now() == Apply(canvas.spell, old(Now()), Removes(at)) && Valid()
      ensures frame !in canvas.items && frame.deleted
    {
      ApplyKeeps(canvas.spell, Now(), Removes(at));
      CaptureWithout(canvas.items, at);
      var removed := canvas.RemoveFrame(frame);
    }

    /** A deletion as one undo step; a frame that is not on the canvas changes nothing. */
    method RemoveWidget(frame: Frame) returns (removed: bool)
      requires Valid()
      modifies canvas, history, frame
      ensures Valid() && (removed <==> frame in old(canvas.items)) && frame !in canvas.items
      ensures removed ==> frame.deleted
      ensures !removed ==> Now() == old(Now())
      ensures removed ==> exists at: nat :: Now() == Removed(canvas.spell, old(Now()), at)
    {
      if frame !in canvas.items {
        return false;
      }
      ghost var at: nat :| at < |canvas.items| && canvas.items[at] == frame;
      ghost var was := Now();
      BeginEdit(WidgetEdit);
      TakeOff(frame, at);
      CommitEdit();
      assert Now() == Removed(canvas.spell, was, at);
      return true;
    }

    /** Moving or resizing one widget, inside the transaction that is open. */
    method Place(frame: Frame, rect: Rect, ghost at: nat)
      requires Valid() && at < |canvas.items| && canvas.items[at] == frame
      modifies frame
      ensures Now() == Placed(canvas.spell, old(Now()), at, rect) && Valid()
      ensures frame.builds == old(frame.builds)
    {
      ApplyKeeps(canvas.spell, Now(), Retouches(PlacedAt(Now(), at, rect)));
      canvas.PlaceFrame(frame, rect, at);
    }

    /** Any number of moves end where the last one went. */
    method Moves(frame: Frame, rects: seq<Rect>, ghost at: nat)
      requires Valid() && at < |canvas.items| && canvas.items[at] == frame && rects != []
      modifies frame
      ensures Now() == Placed(canvas.spell, old(Now()), at, rects[|rects| - 1]) && Valid()
      ensures frame.builds == old(frame.builds)
    {
      ghost var begun := Now();
      Place(frame, rects[0], at);
      for i := 1 to |rects|
        invariant Valid() && frame.builds == old(frame.builds)
        invariant Now() == Placed(canvas.spell, begun, at, rects[i - 1])
      {
        PlacedAgain(canvas.spell, begun, at, rects[i - 1], rects[i]);
        Place(frame, rects[i], at);
      }
    }

    /** A drag, from press to release: however many moves, one transaction that ends where
        the last one went, and no child is rebuilt. */
    method Drag(frame: Frame, rects: seq<Rect>, ghost at: nat)
      requires Valid() && at < |canvas.items| && canvas.items[at] == frame && rects != []
      modifies canvas, history, frame
      ensures Valid() && frame.builds == old(frame.builds)
      ensures Now() ==
        Apply(canvas.spell, Placed(canvas.spell, Apply(canvas.spell, old(Now()), Begins(WidgetEdit)), at, rects[|rects| - 1]), Commits)
    {
      BeginEdit(WidgetEdit);
      Moves(frame, rects, at);
      CommitEdit();
    }

    /** New settings for one widget, as one undo step. */
    method Configure(frame: Frame, config: Config, ghost at: nat) returns (applied: bool)
      requires Valid() && at < |canvas.items| && canvas.items[at] == frame
      modifies canvas, history, frame
      ensures Valid() && (applied <==> Buildable(frame.kind, config))
      ensures Now() == Apply(canvas.spell, Configured(canvas.spell, Apply(canvas.spell, old(Now()), Begins(WidgetEdit)), at, config), Commits)
    {
      BeginEdit(WidgetEdit);
      applied := Settle(frame, config, at);
      CommitEdit();
    }

    method Settle(frame: Frame, config: Config, ghost at: nat) returns (applied: bool)
      requires Valid() && at < |canvas.items| && canvas.items[at] == frame
      modifies frame
      ensures Valid() && (applied <==> Buildable(frame.kind, config))
      ensures Now() == Configured(canvas.spell, old(Now()), at, config)
    {
      ApplyKeeps(canvas.spell, Now(), Retouches(ConfiguredAt(Now(), at, config)));
      applied := canvas.ConfigureFrame(frame, config, at);
    }

    /** A keystroke on the window page: the first opens the edit, the rest join it. */
    method EditWindow(name: string, colour: Option<string>, width: int, height: int)
      requires Valid()
      modifies canvas, history
      ensures Valid()
      ensures Now() == Apply(canvas.spell, Apply(canvas.spell, old(Now()), Begins(WindowEdit)), Windows(name, colour, width, height))
    {
      BeginEdit(WindowEdit);
      ApplyKeeps(canvas.spell, Now(), Windows(name, colour, width, height));
      canvas.SetWindow(name, colour, width, height);
    }

    method Fill(cfg: AppConfig)
      modifies canvas, canvas.items
      ensures canvas.Valid() && canvas.Capture() == Loaded(canvas.spell, cfg)
      ensures canvas.nextNameIndex == |cfg.widgets|
    {
      canvas.LoadFromAppConfig(cfg);
    }

    /** The history after a load: empty, with what is shown as the saved document. */
    method StartAfresh(ghost was: Naming, ghost cfg: AppConfig)
      requires canvas.Valid() && canvas.Capture() == Loaded(canvas.spell, cfg) && canvas.nextNameIndex == |cfg.widgets|
      requires history.source == was.session.history.source && Inv(canvas.spell, was)
      modifies history
      ensures Now() == Apply(canvas.spell, was, Loads(cfg)) && Valid()
      ensures history.saved == canvas.Capture()
    {
      ApplyKeeps(canvas.spell, was, Loads(cfg));
      history.ClearHistory();
      history.MarkSaved(canvas.Capture());
      assert Now() == Apply(canvas.spell, was, Loads(cfg));
    }

    /** Opening a file: what it says is on the canvas, the history starts afresh and the
        document is clean. */
    method Load(cfg: AppConfig)
      requires Valid()
      modifies canvas, canvas.items, history
      ensures Now() == Apply(canvas.spell, old(Now()), Loads(cfg)) && Valid()
      ensures history.saved == canvas.Capture()
    {
      ghost var was := Now();
      Fill(cfg);
      StartAfresh(was, cfg);
    }
  }

  /** The snapshot under the cursor that some moves leave on a timeline. */
  ghost predicate UnderCursor(e: Session, moves: seq<Move>, shown: Snap) {
    var at := Cursor(|e.history.undoStack|, |Timeline(e)|, moves);
    at < |Timeline(e)| && shown == Timeline(e)[at]
  }

  /** The session after a palette drop: begin, add, commit. */
  ghost function Added(spell: Spelling, n: Naming, kind: Kind, rect: Rect): Naming {
    Apply(spell, Apply(spell, Apply(spell, n, Begins(WidgetEdit)), Adds(kind, rect)), Commits)
  }

  /** The widgets with one of them somewhere else. */
  ghost function PlacedAt(n: Naming, at: nat, rect: Rect): seq<WidgetConfig> {
    var ws := n.session.current.doc.widgets;
    if at < |ws| then ws[at := ws[at].(rect := Stored(rect))] else ws
  }

  ghost function Placed(spell: Spelling, n: Naming, at: nat, rect: Rect): Naming {
    Apply(spell, n, Retouches(PlacedAt(n, at, rect)))
  }

  lemma PlacedAgain(spell: Spelling, n: Naming, at: nat, first: Rect, rect: Rect)
    ensures Placed(spell, Placed(spell, n, at, first), at, rect) == Placed(spell, n, at, rect)
  {
    var ws := n.session.current.doc.widgets;
    if at < |ws| {
      assert ws[at := ws[at].(rect := Stored(first))][at := ws[at].(rect := Stored(rect))] == ws[at := ws[at].(rect := Stored(rect))];
    }
  }

  /** The widgets with one of them set up anew, if the settings are its kind's. */
  ghost function ConfiguredAt(n: Naming, at: nat, config: Config): seq<WidgetConfig> {
    var ws := n.session.current.doc.widgets;
    if at < |ws| && Buildable(ws[at].kind, config) then ws[at := ws[at].(config := config)] else ws
  }

  ghost function Configured(spell: Spelling, n: Naming, at: nat, config: Config): Naming {
    Apply(spell, n, Retouches(ConfiguredAt(n, at, config)))
  }

  /** The session after a deletion. */
  ghost function Removed(spell: Spelling, n: Naming, at: nat): Naming {
    Apply(spell, Apply(spell, Apply(spell, n, Begins(WidgetEdit)), Removes(at)), Commits)
  }

  /** Leaving out one frame leaves out its entry and its name. */
  lemma CaptureWithout(frames: seq<Frame>, at: nat)
    requires at < |frames|
    ensures Configs(frames[..at] + frames[at + 1..]) == Configs(frames)[..at] + Configs(frames)[at + 1..]
    ensures Names(frames[..at] + frames[at + 1..]) == Names(frames)[..at] + Names(frames)[at + 1..]
  {
  }

  /** The next derived name is this widget's only as an explicit id. */
  ghost predicate FreshName(spell: Spelling, n: Naming, kind: Kind, s: Snap, i: nat) {
    && i < |s.names| == |s.doc.widgets|
    && (s.names[i] == Derived(spell, kind, n.next) ==> s.doc.widgets[i].id == Derived(spell, kind, n.next))
  }

  ghost predicate FreshEverywhere(spell: Spelling, n: Naming, kind: Kind) {
    forall s, i :: Reachable(n, s) && 0 <= i < |s.names| ==> FreshName(spell, n, kind, s, i)
  }

  lemma NextNameFresh(spell: Spelling, n: Naming, kind: Kind)
    requires Inv(spell, n)
    ensures FreshEverywhere(spell, n, kind)
  {
    forall s, i | Reachable(n, s) && 0 <= i < |s.names|
      ensures FreshName(spell, n, kind, s, i)
    {
      FreshAmong(spell, n, kind, s, i);
    }
  }
}
